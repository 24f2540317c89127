/** The helpers of packages/frontend/src/components/SubtitlePanel.jsx: the
    time stamp, the word split, the active-subtitle search, the per-word
    bubble key and the re-render test of one subtitle row. Times are whole
    numbers in the unit of the subtitles' `start` and `duration`. */
module SubtitlePanel {
  import opened Wrappers
  import opened Text
  import opened Extractor
  import opened Translations

  // ---------------------------------------------------------------------------
  // formatTime
  // ---------------------------------------------------------------------------

  /** `n.toString().padStart(2, '0')`. */
  function Pad2(n: nat): (s: string)
    ensures |s| >= 2 && AllDigits(s)
    ensures n < 100 ==> |s| == 2
    ensures ParseNat(s) == n
  {
    var digits := NatToString(n);
    ParseNatToString(n);
    if |digits| < 2 then
      var s := "0" + digits;
      assert s[..1] == "0";
      s
    else digits
  }

  /** `formatTime` for a whole, non-negative number of seconds: `mm:ss `
      with a trailing space. */
  function FormatTime(seconds: nat): (r: string)
  {
    Pad2(seconds / 60) + ":" + Pad2(seconds % 60) + " "
  }

  /** Reads a `mm:ss ` stamp back as seconds; `None` when it is not one or
      its seconds part is 60 or more. */
  function ReadTime(stamp: string): (r: Option<nat>)
  {
    if |stamp| == 0 || stamp[|stamp| - 1] != ' ' then None
    else
      var body := stamp[..|stamp| - 1];
      var colon := IndexOfChar(body, ':');
      if colon < 0 then None
      else
        var mins, secs := body[..colon], body[colon + 1..];
        if AllDigits(mins) && AllDigits(secs) && |secs| == 2 && ParseNat(secs) < 60
        then Some(60 * ParseNat(mins) + ParseNat(secs))
        else None
  }

  /** The stamp names the time it was made from, with a two-digit seconds
      part below 60. */
  lemma FormatTimeRoundTrip(seconds: nat)
    ensures ReadTime(FormatTime(seconds)) == Some(seconds)
  {
    var mins, secs := Pad2(seconds / 60), Pad2(seconds % 60);
    var stamp := FormatTime(seconds);
    var body := stamp[..|stamp| - 1];
    assert body == mins + (":" + secs);
    assert forall i :: 0 <= i < |mins| ==> body[i] == mins[i] && IsDigit(mins[i]);
    assert body[|mins|] == ':';
    assert IndexOfChar(body, ':') == |mins|;
    assert body[..|mins|] == mins;
    assert body[|mins| + 1..] == secs;
  }

  // ---------------------------------------------------------------------------
  // splitIntoWords, isWordActive
  // ---------------------------------------------------------------------------

  /** `text.split(/(\s+)/).filter(part => part.trim().length > 0)`: the
      captured whitespace runs are exactly the parts the filter drops. */
  function SplitIntoWords(text: string): (ws: seq<string>)
    ensures forall k :: 0 <= k < |ws| ==> |ws[k]| > 0 && NoSpace(ws[k])
    ensures Concat(ws) == RemoveSpaces(text)
  {
    WordsConcat(text);
    Words(text)
  }

  /** `isWordActive`: the word's interval is half-open. */
  predicate IsWordActive(time: int, wordStart: int, wordEnd: int) {
    wordStart <= time < wordEnd
  }

  /** Two adjacent word intervals split the time they cover: every instant of
      the union is active in exactly one of them, the shared boundary in the
      later one. */
  lemma AdjacentWordsPartition(time: int, a: int, b: int, c: int)
    requires a <= b <= c
    ensures a <= time < c <==> IsWordActive(time, a, b) || IsWordActive(time, b, c)
    ensures !(IsWordActive(time, a, b) && IsWordActive(time, b, c))
    ensures b < c ==> IsWordActive(b, b, c) && !IsWordActive(b, a, b)
  {
  }

  // ---------------------------------------------------------------------------
  // currentIndex
  // ---------------------------------------------------------------------------

  /** The subtitle is on screen at `time`. */
  predicate Active(sub: Subtitle, time: int) {
    sub.start <= time < sub.start + sub.duration
  }

  /** Reference definition: the index of the first active subtitle, or -1. */
  function FirstActive(subs: seq<Subtitle>, time: int): (i: int)
    ensures -1 <= i < |subs|
    decreases |subs|
  {
    if |subs| == 0 then -1
    else if Active(subs[0], time) then 0
    else
      var rest := FirstActive(subs[1..], time);
      if rest == -1 then -1 else rest + 1
  }

  /** `subtitles.findIndex(...)` as the loop it performs. */
  method CurrentIndex(subs: seq<Subtitle>, time: int) returns (index: int)
    ensures index == FirstActive(subs, time)
    ensures index == -1 || (0 <= index < |subs| && Active(subs[index], time))
    ensures forall j :: 0 <= j < |subs| && (index == -1 || j < index) ==> !Active(subs[j], time)
  {
    index := -1;
    var i := 0;
    while i < |subs|
      invariant 0 <= i <= |subs|
      invariant FirstActive(subs, time) == if FirstActive(subs[i..], time) == -1 then -1 else FirstActive(subs[i..], time) + i
      invariant forall j :: 0 <= j < i ==> !Active(subs[j], time)
    {
      assert subs[i..][1..] == subs[i + 1..];
      if Active(subs[i], time) {
        index := i;
        FirstActiveIsFirst(subs, time, i);
        return;
      }
      i := i + 1;
    }
    FirstActiveIsFirst(subs, time, -1);
  }

  /** The reference definition picks an active subtitle with none active
      before it. */
  lemma {:induction false} FirstActiveIsFirst(subs: seq<Subtitle>, time: int, index: int)
    requires index == -1 || (0 <= index < |subs| && Active(subs[index], time))
    requires forall j :: 0 <= j < |subs| && (index == -1 || j < index) ==> !Active(subs[j], time)
    ensures FirstActive(subs, time) == index
    decreases |subs|
  {
    if |subs| > 0 && index != 0 {
      assert !Active(subs[0], time);
      FirstActiveIsFirst(subs[1..], time, if index == -1 then -1 else index - 1);
    }
  }

  // ---------------------------------------------------------------------------
  // Per-word key and the row's memo test
  // ---------------------------------------------------------------------------

  /** The key under which a word's bubble is looked up: the same one the
      word click writes. */
  function WordKey(word: string, sub: Subtitle): (k: string)
    ensures k == CacheKey(word, sub.text)
  {
    CleanWord(word) + (KeySeparator + sub.text)
  }

  /** An object's identity, for the reference comparisons of the memo test. */
  type Ref = nat

  /** The props of one subtitle row that the memo test or the rendering
      reads. */
  datatype ItemProps = ItemProps(
    subtitle: Subtitle,
    index: int,
    isActive: bool,
    currentTime: int,
    sentenceTranslation: Ref,
    translations: Ref)

  /** The memo comparator: true when the row may skip re-rendering. */
  function PropsEqual(prev: ItemProps, next: ItemProps): (same: bool)
    ensures same ==> !prev.isActive && !next.isActive
    ensures same ==> prev.sentenceTranslation == next.sentenceTranslation && prev.translations == next.translations
  {
    if prev.isActive != next.isActive then false
    else if next.isActive then false
    else if prev.sentenceTranslation != next.sentenceTranslation then false
    else prev.translations == next.translations
  }

  /** An inactive row whose translation objects are the same ones skips the
      re-render whatever else changed, the playing time included. */
  lemma InactiveRowSkips(prev: ItemProps, next: ItemProps)
    requires !prev.isActive && !next.isActive
    requires prev.sentenceTranslation == next.sentenceTranslation && prev.translations == next.translations
    ensures PropsEqual(prev, next)
  {
  }

  /** The comparator reads nothing but the active flags and the two
      translation references. */
  lemma ComparatorIgnoresOtherProps(prev: ItemProps, next: ItemProps, sub: Subtitle, index: int, time: int)
    ensures PropsEqual(prev, next) == PropsEqual(prev, next.(subtitle := sub, index := index, currentTime := time))
  {
  }
}
