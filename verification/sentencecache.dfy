/** The sentence-translation cache of packages/backend/server.js: how
    `batchTranslateSubtitles` turns the model's replies into a map from
    normalised sentence to translation. The model and `JSON.parse` are
    oracles; the concurrent batches are applied one after the other. */
module SentenceCache {
  import opened Wrappers
  import opened Text
  import opened Normalize
  import opened Batching
  import opened AiResponse
  import opened Extractor

  /** The batch size the translation job uses. */
  const TranslationBatchSize: nat := 20

  /** One element of the reply array. `index` is `None` when it is not an
      integer. */
  datatype AiItem = AiItem(index: Option<int>, text: string, translation: string)

  /** A parsed reply: an array of items, or any other JSON value. */
  datatype AiValue = ItemArray(items: seq<AiItem>) | OtherValue

  type Sentences = map<string, string>

  /** `batch[item.index] && item.translation && item.text`. */
  predicate Accepts(batch: seq<Subtitle>, item: AiItem) {
    && item.index.Some?
    && 0 <= item.index.value < |batch|
    && item.translation != ""
    && item.text != ""
  }

  /** Every key is a normalised sentence and every translation non-empty. */
  predicate WellKeyed(m: Sentences) {
    forall k :: k in m ==> IsNormalForm(k) && m[k] != ""
  }

  /** Storing a non-empty translation under a normalised key keeps the map
      well keyed. */
  lemma StoreKeepsWellKeyed(m: Sentences, text: string, translation: string)
    ensures WellKeyed(m) && translation != "" ==> WellKeyed(m[NormalizeSentence(text) := translation])
  {
  }

  /** The `forEach` over the reply: accepted items are stored under the
      normalised text, later items overwriting earlier ones. */
  function Merge(m: Sentences, batch: seq<Subtitle>, items: seq<AiItem>): (r: Sentences)
    ensures WellKeyed(m) ==> WellKeyed(r)
    ensures m.Keys <= r.Keys
    decreases |items|
  {
    if |items| == 0 then m
    else
      var item := items[0];
      var m' := if Accepts(batch, item) then m[NormalizeSentence(item.text) := item.translation] else m;
      StoreKeepsWellKeyed(m, item.text, item.translation);
      Merge(m', batch, items[1..])
  }

  /** The last accepted item wins. */
  lemma {:induction false} MergeSnoc(m: Sentences, batch: seq<Subtitle>, items: seq<AiItem>, item: AiItem)
    ensures var before := Merge(m, batch, items);
      Merge(m, batch, items + [item])
        == if Accepts(batch, item) then before[NormalizeSentence(item.text) := item.translation] else before
    decreases |items|
  {
    if |items| == 0 {
      assert items + [item] == [item];
    } else {
      assert (items + [item])[1..] == items[1..] + [item];
      var m' := if Accepts(batch, items[0]) then m[NormalizeSentence(items[0].text) := items[0].translation] else m;
      MergeSnoc(m', batch, items[1..], item);
    }
  }

  /** Items that are not accepted change nothing. */
  lemma {:induction false} MergeRejected(m: Sentences, batch: seq<Subtitle>, items: seq<AiItem>)
    requires forall k :: 0 <= k < |items| ==> !Accepts(batch, items[k])
    ensures Merge(m, batch, items) == m
    decreases |items|
  {
    if |items| > 0 {
      MergeRejected(m, batch, items[1..]);
    }
  }

  /** Some accepted item stores `value` under `key`. */
  predicate StoredByItem(batch: seq<Subtitle>, items: seq<AiItem>, key: string, value: string) {
    exists k :: 0 <= k < |items| && Accepts(batch, items[k])
      && NormalizeSentence(items[k].text) == key && items[k].translation == value
  }

  /** An item of the tail is an item of the whole list. */
  lemma StoredByTail(batch: seq<Subtitle>, items: seq<AiItem>, key: string, value: string)
    requires |items| > 0 && StoredByItem(batch, items[1..], key, value)
    ensures StoredByItem(batch, items, key, value)
  {
    var tail := items[1..];
    var k :| 0 <= k < |tail| && Accepts(batch, tail[k])
      && NormalizeSentence(tail[k].text) == key && tail[k].translation == value;
    var item := items[k + 1];
    assert item == tail[k];
    assert Accepts(batch, item) && NormalizeSentence(item.text) == key && item.translation == value;
  }

  /** Every entry of the result comes from `m` or from an accepted item. */
  lemma {:induction false} MergeOrigin(m: Sentences, batch: seq<Subtitle>, items: seq<AiItem>, key: string)
    requires key in Merge(m, batch, items)
    ensures (key in m && Merge(m, batch, items)[key] == m[key]) ||
      StoredByItem(batch, items, key, Merge(m, batch, items)[key])
    decreases |items|
  {
    if |items| > 0 {
      var item := items[0];
      var m' := if Accepts(batch, item) then m[NormalizeSentence(item.text) := item.translation] else m;
      var r := Merge(m, batch, items);
      assert r == Merge(m', batch, items[1..]);
      MergeOrigin(m', batch, items[1..], key);
      if key in m' && r[key] == m'[key] {
        if Accepts(batch, item) && NormalizeSentence(item.text) == key {
          assert StoredByItem(batch, items, key, r[key]) by {
            assert items[0] == item;
          }
        }
      } else {
        StoredByTail(batch, items, key, r[key]);
      }
    }
  }

  /** What the job does with one batch. `reply` is the model's answer (or
      `None` when the call failed) and `parse` stands for `JSON.parse`. */
  function ProcessBatch(m: Sentences, batch: seq<Subtitle>, reply: Option<string>, parse: string -> Option<AiValue>): (r: Sentences)
    ensures WellKeyed(m) ==> WellKeyed(r)
    ensures m.Keys <= r.Keys
  {
    match reply
    case None => m
    case Some(content) =>
      var value: Option<AiValue> := ParseAIResponse(Trim(content), parse);
      if value.Some? && value.value.ItemArray? then Merge(m, batch, value.value.items) else m
  }

  /** The batches in order, starting from an empty map. */
  function ProcessAll(m: Sentences, batches: seq<seq<Subtitle>>, ask: seq<Subtitle> -> Option<string>, parse: string -> Option<AiValue>): (r: Sentences)
    ensures WellKeyed(m) ==> WellKeyed(r)
    ensures m.Keys <= r.Keys
    decreases |batches|
  {
    if |batches| == 0 then m
    else ProcessAll(ProcessBatch(m, batches[0], ask(batches[0]), parse), batches[1..], ask, parse)
  }

  /** The sentence map the job builds for one video. */
  function BatchTranslate(subtitles: seq<Subtitle>, ask: seq<Subtitle> -> Option<string>, parse: string -> Option<AiValue>): (r: Sentences)
    ensures WellKeyed(r)
  {
    ProcessAll(map[], SplitIntoBatches(subtitles, TranslationBatchSize), ask, parse)
  }

  /** `translationCache.set(videoId, { sentences })`: the entry of the video is
      replaced, whatever it held; no other video's entry changes. */
  function StoreTranslations(cache: map<string, Sentences>, videoId: string, sentences: Sentences): (r: map<string, Sentences>)
    ensures videoId in r && r[videoId] == sentences
    ensures forall v :: v != videoId ==> (v in r <==> v in cache)
    ensures forall v :: v in cache && v != videoId ==> r[v] == cache[v]
  {
    cache[videoId := sentences]
  }

  /** A failed model call or an unreadable reply leaves the map as it was. */
  lemma FailedBatchChangesNothing(m: Sentences, batch: seq<Subtitle>, reply: Option<string>, parse: string -> Option<AiValue>)
    requires reply.None? || !ParseAIResponse(Trim(reply.value), parse).Some? ||
      !ParseAIResponse(Trim(reply.value), parse).value.ItemArray?
    ensures ProcessBatch(m, batch, reply, parse) == m
  {
  }

  /** A reply that is a bare JSON array is read by the first attempt. */
  lemma DirectReplyMerged(m: Sentences, batch: seq<Subtitle>, content: string, items: seq<AiItem>, parse: string -> Option<AiValue>)
    requires parse(Trim(content)) == Some(ItemArray(items))
    ensures ProcessBatch(m, batch, Some(content), parse) == Merge(m, batch, items)
  {
  }
}
