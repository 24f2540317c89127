/** packages/frontend/src/components/SubtitleWord.jsx: one clickable word and
    its translation bubble. The bubble's entry is `None` when the word has
    never been translated. */
module SubtitleWord {
  import opened Wrappers
  import opened Dictionary
  import opened Translations

  /** `canExpand`: the shown bubble can fetch more senses. */
  function CanExpand(t: Option<WordEntry>): (r: bool)
    ensures r ==> t.Some? && t.value.visible
    ensures r ==> t.value.hasMore && t.value.alternatives.None?
  {
    t.Some? && t.value.visible && t.value.alternatives.None? && t.value.hasMore
  }

  /** `isExpanded`: the shown bubble lists its senses. */
  function IsExpanded(t: Option<WordEntry>): (r: bool)
    ensures r ==> t.Some? && t.value.visible
    ensures r ==> t.value.alternatives.Some? && |t.value.alternatives.value| > 0
  {
    t.Some? && t.value.visible && t.value.alternatives.Some? && |t.value.alternatives.value| > 0
  }

  /** The two states never hold together. */
  lemma ExpandStatesExclusive(t: Option<WordEntry>)
    ensures !(CanExpand(t) && IsExpanded(t))
  {
  }

  /** What the bubble shows: its text, whether it reacts to clicks, the
      expand and collapse arrows, and the listed senses. */
  datatype Bubble = Bubble(
    text: Option<string>,
    expandable: bool,
    expandArrow: bool,
    collapseArrow: bool,
    senses: Option<seq<Alternative>>)

  /** The rendered bubble, absent unless the entry is shown. */
  function Render(t: Option<WordEntry>): (b: Option<Bubble>)
    ensures b.Some? <==> t.Some? && t.value.visible
    ensures b.Some? ==> b.value.text == t.value.text
    ensures b.Some? ==> (b.value.expandable <==> CanExpand(t) || IsExpanded(t))
    ensures b.Some? ==> !(b.value.expandArrow && b.value.collapseArrow)
    ensures b.Some? ==> (b.value.senses.Some? <==> IsExpanded(t))
    ensures b.Some? && b.value.senses.Some? ==> b.value.senses == t.value.alternatives
  {
    if t.Some? && t.value.visible then
      var canExpand, isExpanded := CanExpand(t), IsExpanded(t);
      Some(Bubble(t.value.text, canExpand || isExpanded, canExpand, isExpanded,
                  if isExpanded then t.value.alternatives else None))
    else None
  }

  /** A click on the bubble: whether `onTranslationClick` is called, given
      whether the parent passed one. */
  function BubbleClick(t: Option<WordEntry>, hasHandler: bool): (calls: bool)
    ensures calls <==> Render(t).Some? && Render(t).value.expandable && hasHandler
    ensures calls ==> CanExpand(t) || IsExpanded(t)
  {
    (CanExpand(t) || IsExpanded(t)) && hasHandler
  }

  /** A shown bubble whose server offered more, once expanded with a
      non-empty list, is in the expanded state; collapsing it returns it to
      the expandable state. */
  lemma ExpandCycle(m: WordMap, key: string, alts: seq<Alternative>, again: Option<DetailResponse>)
    requires key in m && CanExpand(Some(m[key])) && |alts| > 0
    ensures var m1 := TranslationClick(m, key, Some(DetailResponse(true, Some(alts))));
      && key in m1 && IsExpanded(Some(m1[key]))
      && var m2 := TranslationClick(m1, key, again);
         key in m2 && CanExpand(Some(m2[key]))
  {
  }
}
