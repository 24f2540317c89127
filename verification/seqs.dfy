/** Sequence helpers behind JavaScript's `slice(0, n)`, `filter`, `flat` and
    the `[...new Set(xs)]` idiom. */
module Seqs {

  /** `s.slice(0, n)`: the first `n` elements, or all of them. */
  function Take<T>(s: seq<T>, n: nat): (r: seq<T>)
    ensures |r| == if |s| < n then |s| else n
    ensures r == s[..|r|]
  {
    if |s| <= n then s else s[..n]
  }

  /** `s.filter(keep)`. */
  function Filter<T>(s: seq<T>, keep: T -> bool): (r: seq<T>)
    ensures |r| <= |s|
    ensures forall i :: 0 <= i < |r| ==> r[i] in s && keep(r[i])
    ensures forall i :: 0 <= i < |s| && keep(s[i]) ==> s[i] in r
    decreases |s|
  {
    if |s| == 0 then []
    else if keep(s[0]) then [s[0]] + Filter(s[1..], keep)
    else Filter(s[1..], keep)
  }

  /** Filtering keeps the surviving elements in their original order. */
  lemma {:induction false} FilterAppend<T>(a: seq<T>, b: seq<T>, keep: T -> bool)
    ensures Filter(a + b, keep) == Filter(a, keep) + Filter(b, keep)
    decreases |a|
  {
    if |a| == 0 {
      assert a + b == b;
    } else {
      assert (a + b)[1..] == a[1..] + b;
      FilterAppend(a[1..], b, keep);
    }
  }

  /** Filtering a sequence whose every element is kept changes nothing. */
  lemma {:induction false} FilterAll<T>(s: seq<T>, keep: T -> bool)
    requires forall i :: 0 <= i < |s| ==> keep(s[i])
    ensures Filter(s, keep) == s
    decreases |s|
  {
    if |s| > 0 {
      FilterAll(s[1..], keep);
    }
  }

  function Flatten<T>(ss: seq<seq<T>>): seq<T> {
    if |ss| == 0 then [] else ss[0] + Flatten(ss[1..])
  }

  predicate NoDuplicates<T(==)>(s: seq<T>) {
    forall i, j :: 0 <= i < j < |s| ==> s[i] != s[j]
  }

  /** Position of the first occurrence of `x`. */
  function FirstIndex<T(==)>(s: seq<T>, x: T): (i: nat)
    requires x in s
    ensures i < |s| && s[i] == x
    ensures forall k :: 0 <= k < i ==> s[k] != x
  {
    if s[0] == x then 0 else 1 + FirstIndex(s[1..], x)
  }

  /** The elements of `s` not in `seen`, each at its first occurrence. */
  function DedupFrom<T(==)>(s: seq<T>, seen: set<T>): (r: seq<T>)
    ensures NoDuplicates(r)
    ensures forall i :: 0 <= i < |r| ==> r[i] in s && r[i] !in seen
    ensures forall i :: 0 <= i < |s| && s[i] !in seen ==> s[i] in r
    decreases |s|
  {
    if |s| == 0 then []
    else if s[0] in seen then DedupFrom(s[1..], seen)
    else
      var rest := DedupFrom(s[1..], seen + {s[0]});
      [s[0]] + rest
  }

  /** `[...new Set(s)]`: duplicates dropped, first occurrences kept. */
  function Dedup<T(==)>(s: seq<T>): (r: seq<T>)
    ensures NoDuplicates(r)
    ensures forall i :: 0 <= i < |r| ==> r[i] in s
    ensures forall i :: 0 <= i < |s| ==> s[i] in r
  {
    DedupFrom(s, {})
  }

  lemma FirstIndexTail<T>(s: seq<T>, x: T)
    requires x in s && x != s[0]
    ensures x in s[1..]
    ensures FirstIndex(s, x) == 1 + FirstIndex(s[1..], x)
  {
  }

  /** Elements of `r` occur in `s`, in the order of their first occurrences. */
  predicate InFirstOccurrenceOrder<T(==)>(s: seq<T>, r: seq<T>)
    requires forall i :: 0 <= i < |r| ==> r[i] in s
  {
    forall i, j :: 0 <= i < j < |r| ==> FirstIndex(s, r[i]) < FirstIndex(s, r[j])
  }

  lemma {:induction false} DedupFromOrder<T>(s: seq<T>, seen: set<T>)
    ensures InFirstOccurrenceOrder(s, DedupFrom(s, seen))
    decreases |s|
  {
    if |s| > 0 {
      if s[0] in seen {
        DedupFromOrder(s[1..], seen);
        SkipKeepsOrder(s, seen);
      } else {
        DedupFromOrder(s[1..], seen + {s[0]});
        KeepKeepsOrder(s, seen);
      }
    }
  }

  /** A skipped head leaves the order of the rest as it was. */
  lemma SkipKeepsOrder<T>(s: seq<T>, seen: set<T>)
    requires |s| > 0 && s[0] in seen
    requires InFirstOccurrenceOrder(s[1..], DedupFrom(s[1..], seen))
    ensures InFirstOccurrenceOrder(s, DedupFrom(s, seen))
  {
    var r := DedupFrom(s[1..], seen);
    assert DedupFrom(s, seen) == r;
    forall i | 0 <= i < |r|
      ensures FirstIndex(s, r[i]) == 1 + FirstIndex(s[1..], r[i])
    {
      FirstIndexTail(s, r[i]);
    }
  }

  /** A kept head comes first, before everything kept after it. */
  lemma KeepKeepsOrder<T>(s: seq<T>, seen: set<T>)
    requires |s| > 0 && s[0] !in seen
    requires InFirstOccurrenceOrder(s[1..], DedupFrom(s[1..], seen + {s[0]}))
    ensures InFirstOccurrenceOrder(s, DedupFrom(s, seen))
  {
    var rest := DedupFrom(s[1..], seen + {s[0]});
    var r := DedupFrom(s, seen);
    assert r == [s[0]] + rest;
    forall k | 0 <= k < |rest|
      ensures FirstIndex(s, rest[k]) == 1 + FirstIndex(s[1..], rest[k])
    {
      FirstIndexTail(s, rest[k]);
    }
    forall i, j | 0 <= i < j < |r|
      ensures FirstIndex(s, r[i]) < FirstIndex(s, r[j])
    {
      assert r[j] == rest[j - 1];
      if i > 0 {
        assert r[i] == rest[i - 1];
      }
    }
  }

  /** The survivors of `Dedup` appear in the order of their first occurrences. */
  lemma DedupOrder<T>(s: seq<T>)
    ensures InFirstOccurrenceOrder(s, Dedup(s))
  {
    assert Dedup(s) == DedupFrom(s, {});
    DedupFromOrder(s, {});
  }
}
