/** packages/frontend/src/App.jsx: the word, bubble and sentence handlers of
    the current frontend over the translation maps, the minimum display time
    of the loading notice and the API base address. */
module App {
  import opened Wrappers
  import opened Text
  import opened Dictionary
  import opened Translations
  import opened SubtitleWord
  import opened SubtitlePanel
  import opened Extractor

  // ---------------------------------------------------------------------------
  // API base and loading notice
  // ---------------------------------------------------------------------------

  /** The configured API base, given `https://` when it names no scheme. An
      unset variable is the empty string and keeps requests relative. */
  function ApiBase(configured: string): (base: string)
    ensures base == "" <==> configured == ""
    ensures base != "" ==> StartsWith(base, "http")
    ensures StartsWith(configured, "http") ==> base == configured
    ensures EndsWith(base, configured)
  {
    if configured != "" && !StartsWith(configured, "http") then "https://" + configured else configured
  }

  /** Applying the correction twice changes nothing more. */
  lemma ApiBaseIdempotent(configured: string)
    ensures ApiBase(ApiBase(configured)) == ApiBase(configured)
  {
  }

  /** The loading notice stays at least this long, in milliseconds. */
  const MinDisplayTime: int := 800

  /** The extra wait after a request that took `elapsed` milliseconds. */
  function RemainingTime(elapsed: int): (wait: nat)
    ensures elapsed + wait >= MinDisplayTime
    ensures elapsed < MinDisplayTime ==> elapsed + wait == MinDisplayTime
    ensures elapsed >= MinDisplayTime ==> wait == 0
  {
    if MinDisplayTime - elapsed > 0 then MinDisplayTime - elapsed else 0
  }

  // ---------------------------------------------------------------------------
  // Word bubbles
  // ---------------------------------------------------------------------------

  /** `handleWordClick(word, sentence)`: the bubble is keyed by the cleaned
      word and the sentence, and records the cleaned word. */
  function HandleWordClick(m: WordMap, word: string, sentence: string, reply: Option<WordResponse>): (m': WordMap)
    ensures OthersUnchanged(m, m', CacheKey(word, sentence))
    ensures CacheKey(word, sentence) !in m && reply.Some? && reply.value.ok ==>
      CacheKey(word, sentence) in m'
      && m'[CacheKey(word, sentence)] == WordEntry(Some(CleanWord(word)), reply.value.translation, None, reply.value.hasMore, true)
  {
    WordClick(m, CacheKey(word, sentence), Some(CleanWord(word)), reply)
  }

  /** The row of a subtitle finds the bubble a click on one of its words
      created, shown, under the key it computes itself. */
  lemma PanelFindsClickedBubble(m: WordMap, word: string, sub: Subtitle, reply: WordResponse)
    requires CacheKey(word, sub.text) !in m && reply.ok
    ensures var m' := HandleWordClick(m, word, sub.text, Some(reply));
      WordKey(word, sub) in m' && Render(Some(m'[WordKey(word, sub)])).Some?
  {
  }

  /** The same word clicked in two different sentences gets two bubbles. */
  lemma SentencesKeepSeparateBubbles(m: WordMap, word: string, s1: string, s2: string, r1: WordResponse, r2: WordResponse)
    requires s1 != s2 && r1.ok && r2.ok
    requires CacheKey(word, s1) !in m && CacheKey(word, s2) !in m
    ensures var m2 := HandleWordClick(HandleWordClick(m, word, s1, Some(r1)), word, s2, Some(r2));
      && CacheKey(word, s1) in m2 && m2[CacheKey(word, s1)].text == r1.translation
      && CacheKey(word, s2) in m2 && m2[CacheKey(word, s2)].text == r2.translation
  {
    if CacheKey(word, s1) == CacheKey(word, s2) {
      CacheKeyInjective(word, s1, word, s2);
    }
  }

  /** `handleTranslationClick(word)` as written: it reads and writes the key
      of the cleaned word alone. */
  function HandleTranslationClick(m: WordMap, word: string, reply: Option<DetailResponse>): (m': WordMap)
    ensures OthersUnchanged(m, m', CleanWord(word))
  {
    TranslationClick(m, CleanWord(word), reply)
  }

  /** As written, the bubble handler never touches a bubble the word handler
      made: every such key holds `|||`, no cleaned word does. */
  lemma TranslationClickMissesBubbles(m: WordMap, clicked: string, word: string, sentence: string, reply: Option<DetailResponse>)
    ensures var m' := HandleTranslationClick(m, clicked, reply);
      && (CacheKey(word, sentence) in m' <==> CacheKey(word, sentence) in m)
      && (CacheKey(word, sentence) in m ==> m'[CacheKey(word, sentence)] == m[CacheKey(word, sentence)])
  {
    CleanWordIsNoCacheKey(clicked, word, sentence);
  }

  /** The concrete case: "run" in "I run", shown with more senses on offer,
      and an ok reply listing one sense. The bubble stays unexpanded. */
  lemma ExpansionNeverShown(a: Alternative)
    ensures var key := CacheKey("run", "I run");
      var m := map[key := WordEntry(Some("run"), Some("跑"), None, true, true)];
      var m' := HandleTranslationClick(m, "run", Some(DetailResponse(true, Some([a]))));
      && CanExpand(Some(m[key]))
      && key in m' && CanExpand(Some(m'[key])) && !IsExpanded(Some(m'[key]))
  {
    TranslationClickMissesBubbles(map[CacheKey("run", "I run") := WordEntry(Some("run"), Some("跑"), None, true, true)],
      "run", "run", "I run", Some(DetailResponse(true, Some([a]))));
  }

  /** The bubble handler keyed as the word handler keys: by the cleaned word
      and the sentence the bubble belongs to. */
  function HandleTranslationClickKeyed(m: WordMap, word: string, sentence: string, reply: Option<DetailResponse>): (m': WordMap)
    ensures OthersUnchanged(m, m', CacheKey(word, sentence))
    ensures CacheKey(word, sentence) in m && CanExpand(Some(m[CacheKey(word, sentence)]))
      && reply.Some? && reply.value.ok && reply.value.alternatives.Some? && |reply.value.alternatives.value| > 0
      ==> CacheKey(word, sentence) in m' && IsExpanded(Some(m'[CacheKey(word, sentence)]))
    ensures CacheKey(word, sentence) in m && IsExpanded(Some(m[CacheKey(word, sentence)])) ==>
      CacheKey(word, sentence) in m' && m'[CacheKey(word, sentence)] == m[CacheKey(word, sentence)].(alternatives := None)
  {
    TranslationClick(m, CacheKey(word, sentence), reply)
  }

  /** With the bubble's own key, an expandable bubble expands on an ok reply
      and collapses back on the next click. */
  lemma KeyedClickExpandsAndCollapses(m: WordMap, word: string, sentence: string, alts: seq<Alternative>, again: Option<DetailResponse>)
    requires CacheKey(word, sentence) in m && CanExpand(Some(m[CacheKey(word, sentence)])) && |alts| > 0
    ensures var key := CacheKey(word, sentence);
      var m1 := HandleTranslationClickKeyed(m, word, sentence, Some(DetailResponse(true, Some(alts))));
      && key in m1 && IsExpanded(Some(m1[key]))
      && HandleTranslationClickKeyed(m1, word, sentence, again) == m
  {
    var key := CacheKey(word, sentence);
    ExpandCycle(m, key, alts, again);
    ExpandThenCollapse(m, key, Some(DetailResponse(true, Some(alts))), again);
  }

  // ---------------------------------------------------------------------------
  // Sentence translations
  // ---------------------------------------------------------------------------

  /** `handleSentenceTranslate(text, index)`: keyed by the subtitle's index,
      recording whether the server answered from its cache. */
  function HandleSentenceTranslate(m: SentenceMap, index: int, reply: Option<SentenceResponse>): (m': SentenceMap)
    ensures OthersUnchanged(m, m', index)
    ensures index in m ==> index in m' && m'[index] == m[index].(visible := !m[index].visible)
    ensures index !in m && reply.Some? && reply.value.ok ==>
      index in m' && m'[index] == SentenceEntry(reply.value.translation, true, Some(reply.value.cached))
  {
    SentenceClick(m, index, reply, true)
  }
}
