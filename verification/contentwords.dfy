/** `extractWords` (packages/backend/server.js): the distinct content words of
    a sentence. The sentence is lower-cased, every character other than a word
    character, whitespace, `'` or `-` becomes a space, the result is split at
    whitespace, and numbers, stop words and one-letter tokens are dropped. */
module ContentWords {
  import opened Text
  import opened Seqs

  const StopWords: set<string> := {
    "a", "an", "the", "and", "or", "but", "if", "because", "as", "until", "while",
    "of", "at", "by", "for", "with", "about", "against", "between", "into", "through",
    "during", "before", "after", "above", "below", "to", "from", "up", "down", "in",
    "out", "on", "off", "over", "under", "again", "further", "then", "once",
    "is", "am", "are", "was", "were", "be", "been", "being", "have", "has", "had",
    "do", "does", "did", "will", "would", "should", "could", "may", "might", "must",
    "can", "shall", "ought", "s", "ve", "d", "ll", "t", "re", "m"
  }

  /** `[\w\s'-]`. */
  predicate IsKeptChar(c: char) {
    IsWordChar(c) || IsSpace(c) || c == '\'' || c == '-'
  }

  /** Characters a token can be made of. */
  predicate IsTokenChar(c: char) {
    (IsWordChar(c) && !IsUpper(c)) || c == '\'' || c == '-'
  }

  /** `.replace(/[^\w\s'-]/g, ' ')` after lower-casing. */
  function Scrub(sentence: string): (r: string)
    ensures |r| == |sentence|
    ensures forall i :: 0 <= i < |r| ==> IsTokenChar(r[i]) || IsSpace(r[i])
  {
    var lower := Lower(sentence);
    seq(|lower|, i requires 0 <= i < |lower| => if IsKeptChar(lower[i]) then lower[i] else ' ')
  }

  /** The filter of the second step. */
  predicate IsContentWord(w: string) {
    !(|w| > 0 && AllDigits(w)) && w !in StopWords && |w| != 1
  }

  function Tokens(sentence: string): seq<string> {
    Words(Scrub(sentence))
  }

  function ExtractWords(sentence: string): (r: seq<string>)
    ensures NoDuplicates(r)
    ensures forall i :: 0 <= i < |r| ==> IsContentWord(r[i]) && |r[i]| >= 2
  {
    Dedup(Filter(Tokens(sentence), IsContentWord))
  }

  /** A word is extracted exactly when it is a token of the sentence that
      passes the filter. */
  lemma ExtractedIff(sentence: string, w: string)
    ensures w in ExtractWords(sentence) <==> w in Tokens(sentence) && IsContentWord(w)
  {
    var ts := Tokens(sentence);
    var f := Filter(ts, IsContentWord);
    var r := ExtractWords(sentence);
    if w in r {
      var i :| 0 <= i < |r| && r[i] == w;
      var j :| 0 <= j < |f| && f[j] == w;
    }
    if w in ts && IsContentWord(w) {
      var i :| 0 <= i < |ts| && ts[i] == w;
      var j :| 0 <= j < |f| && f[j] == w;
    }
  }

  /** Every extracted word is made of lower-case word characters, `'` and `-`. */
  lemma ExtractedChars(sentence: string, k: nat, i: nat)
    requires k < |ExtractWords(sentence)| && i < |ExtractWords(sentence)[k]|
    ensures IsTokenChar(ExtractWords(sentence)[k][i])
  {
    var w := ExtractWords(sentence)[k];
    ExtractedIff(sentence, w);
    var s := Scrub(sentence);
    var ws := Words(s);
    var m :| 0 <= m < |ws| && ws[m] == w;
    WordsChars(s, m, i);
    assert !IsSpace(w[i]);
  }

  /** Extracted words keep the order of their first occurrence among the
      content tokens. */
  lemma ExtractedOrder(sentence: string)
    ensures var f := Filter(Tokens(sentence), IsContentWord);
      InFirstOccurrenceOrder(f, ExtractWords(sentence))
  {
    DedupOrder(Filter(Tokens(sentence), IsContentWord));
  }
}
