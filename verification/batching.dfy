/** `splitSubtitlesIntoBatches` (packages/backend/server.js): consecutive
    slices of at most `size` elements. */
module Batching {
  import opened Seqs

  /** The default batch size of the source; the translation job passes 20. */
  const DefaultBatchSize: nat := 50

  function SplitIntoBatches<T>(s: seq<T>, size: nat): (batches: seq<seq<T>>)
    requires size > 0
    ensures forall k :: 0 <= k < |batches| ==> 0 < |batches[k]| <= size
    ensures forall k :: 0 <= k < |batches| - 1 ==> |batches[k]| == size
    ensures |s| == 0 <==> |batches| == 0
    decreases |s|
  {
    if |s| == 0 then []
    else if |s| <= size then [s]
    else [s[..size]] + SplitIntoBatches(s[size..], size)
  }

  /** Concatenating the batches gives back the input. */
  lemma {:induction false} FlattenBatches<T>(s: seq<T>, size: nat)
    requires size > 0
    ensures Flatten(SplitIntoBatches(s, size)) == s
    decreases |s|
  {
    if |s| > size {
      var rest := SplitIntoBatches(s[size..], size);
      FlattenBatches(s[size..], size);
      assert SplitIntoBatches(s, size)[1..] == rest;
      assert s == s[..size] + s[size..];
    } else if |s| > 0 {
      assert SplitIntoBatches(s, size)[1..] == [];
    }
  }

  /** There are `ceil(|s| / size)` batches: just enough to hold the input. */
  lemma {:induction false} BatchCount<T>(s: seq<T>, size: nat)
    requires size > 0
    ensures var n := |SplitIntoBatches(s, size)|;
      (n - 1) * size < |s| <= n * size
    decreases |s|
  {
    if |s| > size {
      var m := |SplitIntoBatches(s[size..], size)|;
      BatchCount(s[size..], size);
      assert |SplitIntoBatches(s, size)| == m + 1;
      assert (m + 1) * size == m * size + size;
      assert (m - 1) * size == m * size - size;
    }
  }
}
