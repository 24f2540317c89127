/** src/App.jsx, the older frontend: the same handlers as the current one,
    with word bubbles keyed by the cleaned word alone, entries that do not
    record the word, and sentence translations without the cache flag. */
module LegacyApp {
  import opened Wrappers
  import opened Dictionary
  import opened Translations
  import opened SubtitleWord

  /** `handleWordClick(word)`. */
  function HandleWordClick(m: WordMap, word: string, reply: Option<WordResponse>): (m': WordMap)
    ensures OthersUnchanged(m, m', CleanWord(word))
    ensures CleanWord(word) in m ==>
      CleanWord(word) in m' && m'[CleanWord(word)] == m[CleanWord(word)].(visible := !m[CleanWord(word)].visible)
    ensures CleanWord(word) !in m && reply.Some? && reply.value.ok ==>
      CleanWord(word) in m' && m'[CleanWord(word)] == WordEntry(None, reply.value.translation, None, reply.value.hasMore, true)
    ensures CleanWord(word) !in m && (reply.None? || !reply.value.ok) ==> m' == m
  {
    WordClick(m, CleanWord(word), None, reply)
  }

  /** `handleTranslationClick(word)`. */
  function HandleTranslationClick(m: WordMap, word: string, reply: Option<DetailResponse>): (m': WordMap)
    ensures OthersUnchanged(m, m', CleanWord(word))
    ensures CleanWord(word) in m && m[CleanWord(word)].alternatives.Some? ==>
      CleanWord(word) in m' && m'[CleanWord(word)].alternatives.None?
  {
    TranslationClick(m, CleanWord(word), reply)
  }

  /** Words that differ only in case or punctuation share one bubble. */
  lemma SpellingsShareBubble(m: WordMap, w1: string, w2: string, reply: Option<WordResponse>)
    requires CleanWord(w1) == CleanWord(w2)
    requires CleanWord(w1) in m
    ensures HandleWordClick(HandleWordClick(m, w1, reply), w2, reply) == m
  {
    WordClickTwice(m, CleanWord(w1), None, reply, reply);
  }

  /** Here both handlers use the same key, so the bubble handler reaches the
      bubble the word handler made: an expandable bubble expands. */
  lemma BubbleExpands(m: WordMap, word: string, r: WordResponse, alts: seq<Alternative>)
    requires CleanWord(word) !in m && r.ok && r.hasMore && |alts| > 0
    ensures var m1 := HandleWordClick(m, word, Some(r));
      var m2 := HandleTranslationClick(m1, word, Some(DetailResponse(true, Some(alts))));
      && CanExpand(Some(m1[CleanWord(word)]))
      && CleanWord(word) in m2 && IsExpanded(Some(m2[CleanWord(word)]))
  {
  }

  /** The bubble the older subtitle panel (src/components/SubtitlePanel.jsx)
      draws under a word: `translations[cleanWord]` with the word cleaned as
      the click handler cleans it. */
  function PanelBubble(m: WordMap, word: string): (b: Option<Bubble>)
    ensures b.Some? <==> CleanWord(word) in m && m[CleanWord(word)].visible
    ensures b.Some? ==> b.value.text == m[CleanWord(word)].text
  {
    var key := CleanWord(word);
    Render(if key in m then Some(m[key]) else None)
  }

  /** The panel shows, under the clicked word and under every spelling of it
      that cleans the same, the translation a click on a new word received. */
  lemma PanelFindsClickedBubble(m: WordMap, word: string, shown: string, reply: WordResponse)
    requires CleanWord(word) !in m && reply.ok
    requires CleanWord(shown) == CleanWord(word)
    ensures var b := PanelBubble(HandleWordClick(m, word, Some(reply)), shown);
      b.Some? && b.value.text == reply.translation
  {
  }

  /** A second click on a shown bubble hides it from the panel again. */
  lemma PanelHidesOnSecondClick(m: WordMap, word: string, reply: Option<WordResponse>)
    requires PanelBubble(m, word).Some?
    ensures PanelBubble(HandleWordClick(m, word, reply), word).None?
  {
  }

  /** `handleSentenceTranslate(text, index)`. */
  function HandleSentenceTranslate(m: SentenceMap, index: int, reply: Option<SentenceResponse>): (m': SentenceMap)
    ensures OthersUnchanged(m, m', index)
    ensures index in m ==> index in m' && m'[index] == m[index].(visible := !m[index].visible)
    ensures index !in m && reply.Some? && reply.value.ok ==>
      index in m' && m'[index] == SentenceEntry(reply.value.translation, true, None)
  {
    SentenceClick(m, index, reply, false)
  }
}
