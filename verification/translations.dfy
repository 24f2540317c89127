/** The client's translation state, shared by the current frontend
    (packages/frontend/src/App.jsx) and the older one (src/App.jsx): a map
    from a key to the word bubble's entry and a map from a subtitle index to
    the sentence translation. Each handler is a function from the map and the
    server's reply to the new map; a reply of `None` stands for a request or a
    `response.json()` that threw. */
module Translations {
  import opened Wrappers
  import opened Text
  import opened Seqs
  import opened Dictionary

  // ---------------------------------------------------------------------------
  // Keys
  // ---------------------------------------------------------------------------

  /** The characters `replace(/[^\w\s]/g, '')` keeps. */
  predicate KeptInCleanWord(c: char) {
    IsWordChar(c) || IsSpace(c)
  }

  /** `word.toLowerCase().replace(/[^\w\s]/g, '')`. */
  function CleanWord(word: string): (r: string)
    ensures |r| <= |word|
    ensures NoUpper(r)
    ensures forall i :: 0 <= i < |r| ==> KeptInCleanWord(r[i])
    ensures '|' !in r
  {
    var r := Filter(Lower(word), KeptInCleanWord);
    assert forall i :: 0 <= i < |r| ==> r[i] in Lower(word) && KeptInCleanWord(r[i]);
    r
  }

  /** Every letter, digit, `_` and whitespace character of the word survives,
      lower-cased. */
  lemma CleanWordKeeps(word: string, i: nat)
    requires i < |word| && KeptInCleanWord(word[i])
    ensures LowerChar(word[i]) in CleanWord(word)
  {
    assert Lower(word)[i] == LowerChar(word[i]);
  }

  /** Cleaning a clean word changes nothing. */
  lemma CleanWordIdempotent(word: string)
    ensures CleanWord(CleanWord(word)) == CleanWord(word)
  {
    var c := CleanWord(word);
    LowerOfLower(c);
    FilterAll(c, KeptInCleanWord);
  }

  const KeySeparator: string := "|||"

  /** The current frontend's key for a word bubble: the cleaned word and the
      sentence it was clicked in. */
  function CacheKey(word: string, sentence: string): (k: string)
    ensures |k| == |CleanWord(word)| + 3 + |sentence|
    ensures k[..|CleanWord(word)|] == CleanWord(word)
    ensures k[|CleanWord(word)| + 3..] == sentence
    ensures '|' in k
  {
    var k := CleanWord(word) + (KeySeparator + sentence);
    assert k[|CleanWord(word)|] == '|';
    k
  }

  /** The first `|` of a key sits right after the cleaned word. */
  lemma FirstBarAfterWord(c: string, rest: string)
    requires '|' !in c && |rest| > 0 && rest[0] == '|'
    ensures IndexOfChar(c + rest, '|') == |c|
  {
    var s := c + rest;
    assert s[|c|] == '|';
    assert forall i :: 0 <= i < |c| ==> s[i] == c[i];
  }

  /** A string without `|`, the separator and the rest are read back from
      their concatenation. */
  lemma SeparatedParts(c1: string, s1: string, c2: string, s2: string)
    requires '|' !in c1 && '|' !in c2
    requires c1 + (KeySeparator + s1) == c2 + (KeySeparator + s2)
    ensures c1 == c2 && s1 == s2
  {
    var k := c1 + (KeySeparator + s1);
    FirstBarAfterWord(c1, KeySeparator + s1);
    FirstBarAfterWord(c2, KeySeparator + s2);
    assert |c1| == |c2|;
    assert c1 == k[..|c1|] == c2;
    assert s1 == k[|c1| + 3..] == s2;
  }

  /** Distinct (cleaned word, sentence) pairs get distinct keys: the same word
      in two sentences has two bubbles. */
  lemma CacheKeyInjective(w1: string, s1: string, w2: string, s2: string)
    requires CacheKey(w1, s1) == CacheKey(w2, s2)
    ensures CleanWord(w1) == CleanWord(w2) && s1 == s2
  {
    SeparatedParts(CleanWord(w1), s1, CleanWord(w2), s2);
  }

  /** No cleaned word is a bubble key. */
  lemma CleanWordIsNoCacheKey(w: string, word: string, sentence: string)
    ensures CleanWord(w) != CacheKey(word, sentence)
  {
  }

  // ---------------------------------------------------------------------------
  // Word bubbles
  // ---------------------------------------------------------------------------

  /** One bubble. `word` is set only by the current frontend; an absent
      `visible` or `hasMore` reads as false. */
  datatype WordEntry = WordEntry(
    word: Option<string>,
    text: Option<string>,
    alternatives: Option<seq<Alternative>>,
    hasMore: bool,
    visible: bool)

  /** What `{...undefined}` spreads into a new object. */
  const Blank: WordEntry := WordEntry(None, None, None, false, false)

  type WordMap = map<string, WordEntry>

  /** The parts of a `/api/translate?simple=true` reply the client reads. */
  datatype WordResponse = WordResponse(ok: bool, translation: Option<string>, hasMore: bool)

  /** The parts of a `/api/translate?detailed=true` reply the client reads. */
  datatype DetailResponse = DetailResponse(ok: bool, alternatives: Option<seq<Alternative>>)

  /** Every key other than `key` is bound as before. */
  ghost predicate OthersUnchanged<K(!new), V>(m: map<K, V>, m': map<K, V>, key: K) {
    forall k :: k != key ==> (k in m' <==> k in m) && (k in m ==> m'[k] == m[k])
  }

  /** A word click under `key`: an existing bubble flips its visibility;
      otherwise the server is asked and an ok reply adds a shown bubble with
      no alternatives. `word` is what the new entry records as its word. */
  function WordClick(m: WordMap, key: string, word: Option<string>, reply: Option<WordResponse>): (m': WordMap)
    ensures OthersUnchanged(m, m', key)
    ensures key in m ==>
      key in m' && m'[key].visible == !m[key].visible && m'[key].(visible := m[key].visible) == m[key]
    ensures key !in m && reply.Some? && reply.value.ok ==>
      key in m' && m'[key] == WordEntry(word, reply.value.translation, None, reply.value.hasMore, true)
    ensures key !in m && (reply.None? || !reply.value.ok) ==> m' == m
  {
    if key in m then m[key := m[key].(visible := !m[key].visible)]
    else match reply
      case Some(WordResponse(true, translation, hasMore)) =>
        m[key := WordEntry(word, translation, None, hasMore, true)]
      case _ => m
  }

  /** Clicking the same word twice, once it has a bubble, restores the map. */
  lemma WordClickTwice(m: WordMap, key: string, word: Option<string>, r1: Option<WordResponse>, r2: Option<WordResponse>)
    requires key in m
    ensures WordClick(WordClick(m, key, word, r1), key, word, r2) == m
  {
    var m1 := WordClick(m, key, word, r1);
    var m2 := WordClick(m1, key, word, r2);
    assert m2[key] == m[key];
    assert forall k :: k in m2 <==> k in m;
  }

  /** A bubble's alternatives toggle under `key`: present alternatives are
      cleared; otherwise the server is asked and an ok reply with alternatives
      stores them, creating a bare entry when the key had none. */
  function TranslationClick(m: WordMap, key: string, reply: Option<DetailResponse>): (m': WordMap)
    ensures OthersUnchanged(m, m', key)
    ensures key in m && m[key].alternatives.Some? ==>
      key in m' && m'[key] == m[key].(alternatives := None)
    ensures (key !in m || m[key].alternatives.None?) && reply.Some? && reply.value.ok && reply.value.alternatives.Some? ==>
      key in m' && m'[key] == (if key in m then m[key] else Blank).(alternatives := reply.value.alternatives)
    ensures (key !in m || m[key].alternatives.None?) && !(reply.Some? && reply.value.ok && reply.value.alternatives.Some?) ==>
      m' == m
  {
    if key in m && m[key].alternatives.Some? then m[key := m[key].(alternatives := None)]
    else match reply
      case Some(DetailResponse(true, Some(alts))) =>
        m[key := (if key in m then m[key] else Blank).(alternatives := Some(alts))]
      case _ => m
  }

  /** Expanding a bubble with the alternatives the server sent and collapsing
      it again restores the map. */
  lemma ExpandThenCollapse(m: WordMap, key: string, reply: Option<DetailResponse>, again: Option<DetailResponse>)
    requires key in m && m[key].alternatives.None?
    requires reply.Some? && reply.value.ok && reply.value.alternatives.Some?
    ensures TranslationClick(TranslationClick(m, key, reply), key, again) == m
  {
    var m1 := TranslationClick(m, key, reply);
    var m2 := TranslationClick(m1, key, again);
    assert m2[key] == m[key];
    assert forall k :: k in m2 <==> k in m;
  }

  // ---------------------------------------------------------------------------
  // Sentence translations
  // ---------------------------------------------------------------------------

  /** A sentence translation. `cached` is recorded only by the current
      frontend. */
  datatype SentenceEntry = SentenceEntry(text: Option<string>, visible: bool, cached: Option<bool>)

  type SentenceMap = map<int, SentenceEntry>

  /** The parts of a `/api/translate-sentence` reply the client reads. */
  datatype SentenceResponse = SentenceResponse(ok: bool, translation: Option<string>, cached: bool)

  /** The sentence button of subtitle `index`: an existing translation flips
      its visibility; otherwise an ok reply adds a shown translation. */
  function SentenceClick(m: SentenceMap, index: int, reply: Option<SentenceResponse>, recordCached: bool): (m': SentenceMap)
    ensures OthersUnchanged(m, m', index)
    ensures index in m ==> index in m' && m'[index] == m[index].(visible := !m[index].visible)
    ensures index !in m && reply.Some? && reply.value.ok ==>
      index in m' && m'[index].text == reply.value.translation && m'[index].visible
      && m'[index].cached == (if recordCached then Some(reply.value.cached) else None)
    ensures index !in m && (reply.None? || !reply.value.ok) ==> m' == m
  {
    if index in m then m[index := m[index].(visible := !m[index].visible)]
    else match reply
      case Some(SentenceResponse(true, translation, cached)) =>
        m[index := SentenceEntry(translation, true, if recordCached then Some(cached) else None)]
      case _ => m
  }

  /** Toggling a translated sentence twice restores the map. */
  lemma SentenceClickTwice(m: SentenceMap, index: int, r1: Option<SentenceResponse>, r2: Option<SentenceResponse>, recordCached: bool)
    requires index in m
    ensures SentenceClick(SentenceClick(m, index, r1, recordCached), index, r2, recordCached) == m
  {
    var m2 := SentenceClick(SentenceClick(m, index, r1, recordCached), index, r2, recordCached);
    assert m2[index] == m[index];
    assert forall k :: k in m2 <==> k in m;
  }
}
