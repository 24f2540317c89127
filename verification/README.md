# igotit core, modelled in Dafny

igotit is a language-learning app. It shows a YouTube video with its English
subtitles. Clicking a word or a sentence fetches a Chinese translation. The
translation appears in a bubble that can be expanded into a list of senses.

This project models the parts of the system that decide anything:

- **Text routines of the backend** (`packages/backend/server.js`): the
  sentence normalisation that keys the sentence cache, content-word
  extraction, video-id extraction, batching, and the four-step reading of the
  model's JSON reply.
- **Backend caches and routes**: the merge of the model's replies into the
  per-video sentence map, and the subtitle, translation, sentence and
  clear-cache routes.
- **Offline dictionary** (`server/dictionary.js`): word-form variants, the
  first-match lookup, and the cleaning of the `translation` column into a main
  translation plus alternatives.
- **Older server** (`server/server.js`): the Google → dictionary → built-in
  table → echo fallback chain, and its status decisions.
- **Browser state**: the word-bubble and sentence maps of both frontends, the
  bubble's expand/collapse states, the subtitle panel's helpers, the recent
  and recommended video lists, and the admin cookie routes.
- **Subtitle extractor** (`packages/backend/get_subtitles.py`).

Everything is a pure function over `seq`, `map` and datatypes. Calls the code
cannot see are parameters:

- `JSON.parse` is a partial function `string -> Option<V>`.
- The language model, Google Translate and the SQLite dictionary are oracles.
- `exec` of the extractor is an `ExecResult` oracle.
- `localStorage` contents and `Date.now()` are arguments.

Strings are `seq<char>`. Case mapping and whitespace are ASCII.

Modules, one per source concern:

| module | source |
|---|---|
| `Text`, `Seqs`, `Wrappers` | JavaScript string and array built-ins the code relies on |
| `Normalize`, `ContentWords`, `VideoIds`, `Batching`, `AiResponse`, `SentenceCache` | packages/backend/server.js helpers |
| `Backend` | packages/backend/server.js routes |
| `RecentVideos` | packages/frontend/src/components/RecentVideos.jsx and `addToRecentVideos` |
| `Extractor` | packages/backend/get_subtitles.py |
| `Dictionary` | server/dictionary.js |
| `LegacyServer` | server/server.js |
| `Translations` | the word and sentence maps shared by both frontends |
| `App`, `SubtitlePanel`, `SubtitleWord` | packages/frontend/src |
| `LegacyApp` | src/App.jsx |
| `Admin` | packages/backend/admin_routes.js |
| `Recommended` | src/components/RecommendedVideos.jsx |

## Model

| member | source | states |
|---|---|---|
| Normalize.NormalizeSentence | packages/backend/server.js:254-269 | The key has no upper-case letter and no apostrophe, no whitespace at either end, and no two adjacent whitespace characters, which are all plain spaces. |
| Normalize.FixedPoints | packages/backend/server.js:254-269 | A string normalises to itself exactly when it already has that shape. |
| Normalize.Idempotent | packages/backend/server.js:254-269 | Normalising twice gives the same key as normalising once. |
| Normalize.ExpandsContraction | packages/backend/server.js:259-265 | A lower-case word followed by 's, 're, 'm, 've, 'll, 'd or n't normalises to the word followed by the space-prefixed expansion ("it's" becomes "it is"). |
| Normalize.ExpandsContractionBefore | packages/backend/server.js:254-269 | A word, a contraction, a space and more normal-form text normalise to the word, the spelled-out form, a space and the same text ("it's raining" becomes "it is raining"). |
| Normalize.ContractionSharesKey | packages/backend/server.js:254-269 | A contraction followed by two spaces and more text shares its key with the spelled-out form followed by one space and that text. |
| Normalize.SpelledOutSharesKey | packages/backend/server.js:254-269 | "It's  raining", with a capital and two spaces, and "it is raining" share a key. |
| Normalize.CaseInsensitive | packages/backend/server.js:255 | Sentences differing only in letter case share a key. |
| Normalize.RemoveApostrophes | packages/backend/server.js:266 | No apostrophe is left, and every remaining character comes from the input. |
| Normalize.ReplaceAtWordEnd | packages/backend/server.js:259-265 | One contraction rule adds no character that is not in the input or the expansion. |
| Text.Collapse | packages/backend/server.js:257 | Each whitespace run becomes one space. The output is never longer than the input, is empty only when the input is, and keeps every non-space character (see Text.CollapseKeepsNonSpace). |
| Text.CollapseKeepsNonSpace | packages/backend/server.js:257 | Collapsing whitespace removes no non-space character and reorders nothing. |
| Text.CollapseOfCollapsed | packages/backend/server.js:267 | Text that is already collapsed passes the second collapse unchanged. |
| Text.Trim | packages/backend/server.js:256 | No whitespace at either end. The output is not longer than the input and contains only its characters. |
| Text.TrimKeepsNonSpace | packages/backend/server.js:256 | Trimming removes only whitespace. |
| Text.JoinSplit | packages/backend/admin_routes.js:41 | Splitting on a separator and joining with it again gives back the text. |
| Text.Split | packages/backend/admin_routes.js:41 | There is at least one part and no part holds the separator. |
| Text.Words | packages/frontend/src/components/SubtitlePanel.jsx:13-15 | Every token is non-empty and holds no whitespace. |
| Text.WordsConcat | packages/frontend/src/components/SubtitlePanel.jsx:13-15 | The tokens concatenate to the input with its whitespace removed. |
| Text.ParseNatToString | packages/frontend/src/components/SubtitlePanel.jsx:9 | Reading back the decimal rendering of a number gives the number. |
| Seqs.Dedup | server/dictionary.js:41 | The `[...new Set(xs)]` result has no duplicates and holds exactly the elements of the input. |
| Seqs.DedupOrder | server/dictionary.js:41 | The survivors keep the order of their first occurrences. |
| Seqs.FilterAppend | packages/backend/admin_routes.js:41 | Filtering a concatenation is concatenating the filtered parts, so order is kept. |
| ContentWords.ExtractWords | packages/backend/server.js:231-251 | The result has no duplicates. Every word has at least two characters, is not all digits and is not a stop word. |
| ContentWords.ExtractedIff | packages/backend/server.js:231-251 | A word is extracted exactly when it is a token of the scrubbed, lower-cased sentence that passes the filter. |
| ContentWords.ExtractedChars | packages/backend/server.js:234 | Extracted words are made of lower-case word characters, `'` and `-`. |
| ContentWords.ExtractedOrder | packages/backend/server.js:250 | Extracted words appear in the order of their first occurrence among the content tokens. |
| ContentWords.Scrub | packages/backend/server.js:233-234 | The replacement keeps the length, and leaves only token characters and whitespace. |
| VideoIds.ExtractVideoId | packages/backend/server.js:67-80 | A result is non-empty, free of `&`, `?`, `#` and newline, and a substring of the input. The result is `None` exactly when neither pattern matches. |
| VideoIds.BareIdIsItself | packages/backend/server.js:70 | A bare eleven-character `[A-Za-z0-9_-]` id is returned as it is. |
| VideoIds.PrefixedUrl | packages/backend/server.js:69 | A watch, short or embed URL, after any lead without a `y` such as `https://www.`, yields the id that follows the prefix, up to the first `&`, `?`, `#` or newline. |
| VideoIds.SearchNone | packages/backend/server.js:69 | The first pattern's search fails exactly when the pattern matches at no position. |
| Batching.SplitIntoBatches | packages/backend/server.js:177-183 | Every batch is non-empty and at most `size` long. All but the last hold exactly `size`. There are no batches exactly when the input is empty. |
| Batching.FlattenBatches | packages/backend/server.js:177-183 | The batches concatenate to the input. |
| Batching.BatchCount | packages/backend/server.js:177-183 | The batch count is the least `n` with `n * size >= |s|`. |
| AiResponse.ParseAIResponse | packages/backend/server.js:186-217 | Raw content that parses is returned unchanged. `None` comes only after the raw and fence-stripped texts both fail. |
| AiResponse.NoneOnlyWhenAllFail | packages/backend/server.js:186-217 | `null` is returned exactly when every attempt fails. |
| AiResponse.RegexIsFirstToLast | packages/backend/server.js:199-212 | The greedy `\[[\s\S]*\]` match and the first-`[`-to-last-`]` substring are the same candidate. |
| AiResponse.FourthAttemptRedundant | packages/backend/server.js:206-212 | Dropping the fourth attempt changes no result. |
| AiResponse.StripFences | packages/backend/server.js:193 | Stripping code fences never lengthens the text or adds a character. |
| AiResponse.StripFencesWithout | packages/backend/server.js:193 | Text without a backtick is left as it is. |
| AiResponse.FirstToLast | packages/backend/server.js:207-209 | A candidate starts with `[` and ends with `]`. |
| SentenceCache.Merge | packages/backend/server.js:314-323 | Storing accepted items keeps every key a normalisation fixed point with a non-empty translation. No key is lost. |
| SentenceCache.MergeSnoc | packages/backend/server.js:314-323 | Items are applied in order: an accepted last item overwrites its key, and a rejected one changes nothing. |
| SentenceCache.MergeRejected | packages/backend/server.js:316-317 | Items whose index is out of the batch, or whose text or translation is empty, change nothing. |
| SentenceCache.MergeOrigin | packages/backend/server.js:314-323 | Every entry of the result was already there or was stored by an accepted item under its normalised text. |
| SentenceCache.ProcessBatch | packages/backend/server.js:311-330 | Processing one batch keeps the map well keyed and loses no key. |
| SentenceCache.FailedBatchChangesNothing | packages/backend/server.js:312-330 | A failed call, or a reply that is not an array, leaves the map as it was. |
| SentenceCache.DirectReplyMerged | packages/backend/server.js:311-313 | A reply that parses directly as an array is merged item by item. |
| SentenceCache.BatchTranslate | packages/backend/server.js:272-347 | The sentence map built for a video is well keyed. |
| SentenceCache.StoreTranslations | packages/backend/server.js:345-347 | The video's entry is replaced wholesale, and no other video's entry changes. |
| Backend.FetchSubtitles | packages/backend/server.js:84-120 | A thrown exec error, or an error object with a non-empty message, is a failure carrying that message. Found output is passed on, and an empty title becomes no title. An error object with an empty message lets an empty list through. |
| Backend.ErrorStatus | packages/backend/server.js:426-440 | The status is 404 exactly when the message contains 没有, 字幕 or timeout, and 500 otherwise. |
| Backend.HandleSubtitles | packages/backend/server.js:354-442 | Failures leave the state alone and are 400, 404 or 500. A 400 happens exactly when the url is missing or yields no id. A cached id is answered from the cache. Otherwise a failed fetch is answered with the status its message selects, an empty list with 404, and a non-empty list is returned and cached under the id with nothing else changed. |
| Backend.ExecExtractor | packages/backend/server.js:88-99 | A script file Python cannot compile makes exec fail with its report. A compiled one runs with the id as its one argument and yields the extractor's output. |
| Backend.StrayLineFailsEveryFetch | packages/backend/get_subtitles.py:1-5 | With the script as written, every request for an uncached video fails with the status the report selects, and with 404 when the report quotes line 4. |
| Backend.CompiledScriptServes | packages/backend/server.js:84-120 | With a script that compiles, a transcript with at least one line of text is served and cached under the id, with the title when it is non-empty. |
| Backend.SecondRequestFromCache | packages/backend/server.js:375-386 | Once a video is cached, asking again answers the same, whatever the extractor would do. |
| Backend.ExtractorErrorsAreNotFound | packages/backend/server.js:429-435 | The extractor's two fixed error messages are answered with 404. |
| Backend.HandleTranslate | packages/backend/server.js:445-509 | 400 exactly for a missing word, and 503 exactly when the model is unconfigured. A reply is given exactly when the model answers the trimmed, lower-cased word, and carries that word and the trimmed answer, with `hasMore` and `cached` false. 500 exactly when the model gives no answer. |
| Backend.WordCaseInsensitive | packages/backend/server.js:453 | A word and its lower-cased form get the same reply. |
| Backend.ReplyWordIsStable | packages/backend/server.js:453 | Asking again with the word a reply carries gives the same reply. |
| Backend.CachedSentence | packages/backend/server.js:520-534 | A hit comes from the video's own sentence map under the normalised text. |
| Backend.HandleTranslateSentence | packages/backend/server.js:512-574 | 400 exactly for a missing text. A cached answer is served exactly when the video's map holds the normalised text. Otherwise the status is 503 exactly when the model is unconfigured and 500 exactly when it gives no answer; a fresh reply carries the trimmed answer. A success echoes the original. |
| Backend.CacheLookupIgnoresCase | packages/backend/server.js:524 | The sentence cache answers the same for a text and its lower-cased form. |
| Backend.TranslatedSentenceIsCached | packages/backend/server.js:345-347 | After the job stored a video's map, a sentence whose normal form the job stored is answered from the cache. |
| Backend.HandleClearCache | packages/backend/server.js:768-796 | 400 exactly without an id. Otherwise both caches forget the id and every other key is unchanged. |
| Backend.ClearedVideoIsFetchedAgain | packages/backend/server.js:768-796 | After clearing, a subtitle request for the video runs the extractor again, and finds subtitles exactly when the extractor finds a non-empty list, which it returns. |
| Backend.ParseListingLine | packages/backend/server.js:697-705 | When the line holds `|||`, the id holds none. A line without `|||` is all id and no title. |
| Backend.ParseListing | packages/backend/server.js:697-705 | The videos are the first five lines holding `|||`, in order, each read by the line parser. |
| Backend.ListingLineRoundTrip | packages/backend/server.js:697-705 | A line printed as `id|||title` reads back as that id and title, when the id holds no `|` and the title no `|||`. |
| RecentVideos.AddRecentVideo | packages/frontend/src/components/RecentVideos.jsx:38-56 | The new video heads a list of one to five entries. No later entry has its id. The tail is the old list without the id, in order, cut to four. |
| RecentVideos.AddKeepsUnique | packages/frontend/src/components/RecentVideos.jsx:38-56 | Adding keeps the ids unique. |
| RecentVideos.AddTwice | packages/frontend/src/components/RecentVideos.jsx:38-56 | Adding the same id twice in a row leaves one entry for it, at the head. |
| RecentVideos.GetRecentVideos | packages/frontend/src/components/RecentVideos.jsx:8-15 | Nothing stored, or unreadable data, gives `[]`. Otherwise the parsed list is returned. |
| RecentVideos.AddToRecentVideos | packages/backend/server.js:144-164 | The backend's variant puts the new video first and keeps a list of at most five. |
| RecentVideos.BackendAgreesWithBrowser | packages/backend/server.js:144-164 | On a list with unique ids and at most five entries, the backend and browser updates agree. |
| Extractor.FlattenLines | packages/backend/get_subtitles.py:74 | Every newline becomes a space and nothing else changes. |
| Extractor.FormatSubtitles | packages/backend/get_subtitles.py:57-78 | There are never more subtitles than items, and no subtitle text holds a newline. |
| Extractor.FormatAppend | packages/backend/get_subtitles.py:58-77 | Formatting works item by item, so input order is kept. |
| Extractor.FormatAllText | packages/backend/get_subtitles.py:72-77 | When every item has text, item k becomes subtitle k, with its start and duration. |
| Extractor.ErrorMessage | packages/backend/get_subtitles.py:91-96 | Both fixed error messages contain 字幕. Any other error passes its own message. |
| Extractor.GetSubtitles | packages/backend/get_subtitles.py:12-96 | Found output carries the id and the formatted subtitles. The title is present exactly when it is non-empty. An error carries the mapped message. |
| Extractor.RunScript | packages/backend/get_subtitles.py:124-130 | Exit status 1, with the usage error, exactly when the argument count is wrong. |
| Extractor.StrayLineMentionsSubtitles | packages/backend/get_subtitles.py:4 | The stray line contains 字幕. |
| Dictionary.Variants | server/dictionary.js:26-39 | The cleaned word, then one candidate per suffix rule. A candidate differs from the word exactly when the word ends in the rule's suffix, and then it is the word with that suffix swapped for the replacement. No candidate is longer than the word. |
| Dictionary.SimpleStem | server/dictionary.js:26-42 | The first element is the cleaned word. There are one to eight elements and no duplicates, and the elements are exactly the variants. |
| Dictionary.StemOrder | server/dictionary.js:30-41 | The de-duplicated variants keep the rule order. |
| Dictionary.StemOfSuffixed | server/dictionary.js:32-38 | For a lower-case word plus a rule's suffix, the rule's stem is among the variants ("stories" gives "story"). |
| Dictionary.FirstMatch | server/dictionary.js:50-68 | A result holds one to five rows: those of the first variant with any, every earlier variant having none. |
| Dictionary.FirstMatchFinds | server/dictionary.js:53-65 | The first variant with rows is found: when every earlier variant's query returned no rows, the answer is that variant's rows, at most five. |
| Dictionary.FirstMatchNone | server/dictionary.js:68 | If no variant matches, the result is `null`. |
| Dictionary.QueryWord | server/dictionary.js:45-73 | No database gives `null`. A result holds one to five rows, those of one of the word's forms, every form tried before it having none. |
| Dictionary.QueryFindsForm | server/dictionary.js:51-65 | The first form, in `simpleStem` order, whose query has rows answers the word. |
| Dictionary.QueryFindsStem | server/dictionary.js:26-65 | A suffixed lower-case word whose only form with rows is its stem is answered with the stem's rows. |
| Dictionary.StoriesFindsStory | server/dictionary.js:26-65 | "stories", with rows for "story" alone, is answered with those rows. |
| Dictionary.ExactFormFirst | server/dictionary.js:51-65 | A word found under its own cleaned form is answered from that form. |
| Dictionary.CleanTranslation | server/dictionary.js:76-85 | Empty input gives "". The output is trimmed, has no two adjacent whitespace characters and no `]` after any `[`, and adds no character but the space. |
| Dictionary.RemoveBracketed | server/dictionary.js:81 | No `]` follows any `[` in the output. |
| Dictionary.CleanFixedPoint | server/dictionary.js:76-85 | Tidy text without markers is already clean. |
| Dictionary.ExtractPartOfSpeech | server/dictionary.js:88-95 | The marker is "" or a prefix of the text: lower-case letters followed by `.`. It is "" exactly when the text does not start that way. |
| Dictionary.StripPartOfSpeech | server/dictionary.js:127 | The marker and the whitespace after it are removed, and nothing else. |
| Dictionary.PartCandidates | server/dictionary.js:118-148 | Every candidate kept from a comma-separated part is non-empty and clean. |
| Dictionary.Entries | server/dictionary.js:139-143 | One entry per candidate, with its translation and no example. The part of speech is its own, else the main one, else the row's. |
| Dictionary.FormatDictionaryResult | server/dictionary.js:98-158 | Empty rows give `null`. The main translation is the first collected part, else the raw first-row text. Alternatives are absent when fewer than two parts are collected; otherwise they are the collected entries after the first, one to four of them, clean and without examples. |
| Dictionary.FormatReadsFirstRow | server/dictionary.js:104 | Only the first row is read. |
| Dictionary.SingleSense | server/dictionary.js:98-158 | A one-sense entry has no alternatives and its own text as the main translation. |
| LegacyServer.FirstAvailable | server/server.js:183-226 | The chain's reference reading returns the first provider answer that is present and non-empty, else the default. |
| LegacyServer.MainTranslation | server/server.js:183-226 | A non-empty cleaned word never gets an empty translation, and a non-empty Google answer always wins. |
| LegacyServer.ChainIsFirstAvailable | server/server.js:183-226 | The handler's chain is the first available of Google, the dictionary's main translation and the table, else the word itself. |
| LegacyServer.HasMore | server/server.js:229 | `hasMore` holds exactly when a dictionary entry with a non-empty alternatives list exists. |
| LegacyServer.HandleTranslate | server/server.js:140-242 | 400 exactly for a missing word. The detailed reply comes exactly in detailed mode and carries the dictionary entry's alternatives, or none without an entry. The simple reply's translation is the first available of Google, the dictionary's main translation and the table, else the word; it is never empty for a non-empty word. Its `hasMore` holds exactly when the entry has alternatives. |
| LegacyServer.DetailedIgnoresGoogle | server/server.js:170-181 | The detailed reply does not depend on Google. |
| LegacyServer.HasMoreIffDetailedAlternatives | server/server.js:170-229 | The simple reply offers more exactly when the detailed reply has alternatives. |
| LegacyServer.GoogleFirst | server/server.js:183-192 | A Google answer is the translation, whatever the other providers say. |
| LegacyServer.DictionaryFallback | server/server.js:194-198 | When Google gives nothing, a dictionary entry's non-empty main translation is the reply. |
| LegacyServer.TableFallback | server/server.js:200-221 | Without Google or a dictionary entry, a table word gets its table entry. |
| LegacyServer.EchoesUnknownWord | server/server.js:223-226 | With no provider answering, the cleaned word is echoed. |
| LegacyServer.HandleTranslateSentence | server/server.js:245-274 | 400 exactly without text, 503 exactly without Google, 500 exactly when Google fails. Otherwise the original is echoed with Google's translation. |
| LegacyServer.HandleSubtitles | server/server.js:83-137 | 400 exactly for a missing url or no id. Otherwise a failed fetch gets the status its message selects, an empty list 404, and a non-empty list is returned for the extracted id. |
| LegacyServer.AgreesWithBackend | server/server.js:83-137 | For a video the newer backend has not cached, both servers give the same status and subtitles. |
| LegacyServer.EmptyErrorIsNotFound | server/server.js:71-110 | An extractor error with an empty message is not thrown, and the missing list is answered with 404. |
| Translations.CleanWord | packages/frontend/src/App.jsx:240 | The cleaned word is lower-case, made only of word and whitespace characters, never longer than the word, and free of `|`. |
| Translations.CleanWordKeeps | packages/frontend/src/App.jsx:240 | Every letter, digit, `_` and whitespace character of the word survives, lower-cased. |
| Translations.CleanWordIdempotent | packages/frontend/src/App.jsx:240 | Cleaning a cleaned word changes nothing. |
| Translations.CacheKey | packages/frontend/src/App.jsx:243 | The key begins with the cleaned word and ends with the sentence, three characters apart. It always contains `|`. |
| Translations.CacheKeyInjective | packages/frontend/src/App.jsx:242-243 | Distinct (cleaned word, sentence) pairs get distinct keys. |
| Translations.CleanWordIsNoCacheKey | packages/frontend/src/App.jsx:240-243 | No cleaned word is a bubble key. |
| Translations.WordClick | packages/frontend/src/App.jsx:246-301 | An existing bubble flips only its visibility. An ok reply for a new key inserts a shown bubble with no alternatives and the reply's `hasMore`. Anything else leaves the map alone. Other keys never change. |
| Translations.WordClickTwice | packages/frontend/src/App.jsx:246-266 | Two clicks on an existing bubble restore the map. |
| Translations.TranslationClick | src/App.jsx:138-178 | Present alternatives are cleared. Otherwise an ok reply with alternatives sets them, keeping the entry's other fields, and anything else changes nothing. Other keys never change. |
| Translations.ExpandThenCollapse | src/App.jsx:138-178 | Expanding with the server's alternatives and then clicking again restores the map. |
| Translations.SentenceClick | packages/frontend/src/App.jsx:358-405 | An existing translation flips only its visibility. An ok reply inserts a shown translation. Other indices never change. |
| Translations.SentenceClickTwice | packages/frontend/src/App.jsx:360-368 | Two clicks on a translated sentence restore the map. |
| SubtitleWord.CanExpand | packages/frontend/src/components/SubtitleWord.jsx:6 | An expandable bubble is shown, offers more, and has no alternatives yet. |
| SubtitleWord.IsExpanded | packages/frontend/src/components/SubtitleWord.jsx:8 | An expanded bubble is shown and has a non-empty alternatives list. |
| SubtitleWord.ExpandStatesExclusive | packages/frontend/src/components/SubtitleWord.jsx:6-8 | The two states never hold together. |
| SubtitleWord.Render | packages/frontend/src/components/SubtitleWord.jsx:18-50 | The bubble exists exactly when the entry is shown. It reacts to clicks exactly in either state, never shows both arrows, and lists the senses exactly when expanded. |
| SubtitleWord.BubbleClick | packages/frontend/src/components/SubtitleWord.jsx:21-27 | The handler is called exactly when a shown bubble is in either state and a handler is given. |
| SubtitleWord.ExpandCycle | packages/frontend/src/components/SubtitleWord.jsx:6-8 | An expandable bubble expands on an ok, non-empty reply and returns to expandable on the next click. |
| SubtitlePanel.Pad2 | packages/frontend/src/components/SubtitlePanel.jsx:9 | The padded number has at least two digits, exactly two below 100, and reads back as the number. |
| SubtitlePanel.FormatTimeRoundTrip | packages/frontend/src/components/SubtitlePanel.jsx:6-10 | The `mm:ss ` stamp reads back as the seconds it was made from, with a two-digit seconds part below 60. |
| SubtitlePanel.SplitIntoWords | packages/frontend/src/components/SubtitlePanel.jsx:13-15 | The tokens are non-empty and whitespace-free, and concatenate to the text with whitespace removed. |
| SubtitlePanel.AdjacentWordsPartition | packages/frontend/src/components/SubtitlePanel.jsx:26-28 | Adjacent half-open word intervals split the time they cover. The shared boundary belongs to the later word. |
| SubtitlePanel.FirstActive | packages/frontend/src/components/SubtitlePanel.jsx:169-172 | The reference index lies between -1 and the list's end. |
| SubtitlePanel.CurrentIndex | packages/frontend/src/components/SubtitlePanel.jsx:169-172 | The search returns the first subtitle whose half-open interval holds the time, or -1 when none does. |
| SubtitlePanel.FirstActiveIsFirst | packages/frontend/src/components/SubtitlePanel.jsx:169-172 | An active index with none active before it is the reference index. |
| SubtitlePanel.WordKey | packages/frontend/src/components/SubtitlePanel.jsx:75-77 | The row looks bubbles up under the key the word click writes. |
| SubtitlePanel.PropsEqual | packages/frontend/src/components/SubtitlePanel.jsx:93-112 | A row skips re-rendering only when it is inactive before and after, and both translation objects are the same. |
| SubtitlePanel.InactiveRowSkips | packages/frontend/src/components/SubtitlePanel.jsx:93-112 | An inactive row with the same translation objects skips, whatever else changed. |
| SubtitlePanel.ComparatorIgnoresOtherProps | packages/frontend/src/components/SubtitlePanel.jsx:93-112 | The subtitle, index and current time do not affect the decision. |
| App.ApiBase | packages/frontend/src/App.jsx:34-38 | The base is empty exactly when unset. Otherwise it starts with `http` and ends with the configured text, which is kept as it is when it already starts with `http`. |
| App.ApiBaseIdempotent | packages/frontend/src/App.jsx:34-38 | Correcting twice changes nothing more. |
| App.RemainingTime | packages/frontend/src/App.jsx:95-96 | The wait is never negative. Elapsed time plus wait is at least 800 ms, exactly 800 when the request was quicker. |
| App.HandleWordClick | packages/frontend/src/App.jsx:238-310 | The bubble is keyed by cleaned word and sentence. A new one records the cleaned word. Other keys never change. |
| App.PanelFindsClickedBubble | packages/frontend/src/components/SubtitlePanel.jsx:75-85 | The row finds, shown, the bubble a click on one of its words created. |
| App.SentencesKeepSeparateBubbles | packages/frontend/src/App.jsx:242-243 | The same word clicked in two sentences keeps two bubbles with their own translations. |
| App.HandleTranslationClick | packages/frontend/src/App.jsx:313-353 | As written, the bubble handler reads and writes only the cleaned word's key. |
| App.TranslationClickMissesBubbles | packages/frontend/src/App.jsx:313-353 | As written, the bubble handler never changes a bubble the word handler made. |
| App.ExpansionNeverShown | packages/frontend/src/App.jsx:313-353 | As written, "run" clicked in "I run" stays expandable and never expands. |
| App.HandleTranslationClickKeyed | packages/frontend/src/App.jsx:313-353 | Corrected: keyed like the word handler, an expandable bubble expands on an ok, non-empty reply, and an expanded one collapses. |
| App.KeyedClickExpandsAndCollapses | packages/frontend/src/App.jsx:313-353 | Corrected: expand, then collapse, restores the map. |
| App.HandleSentenceTranslate | packages/frontend/src/App.jsx:358-405 | Keyed by subtitle index, it records whether the server answered from its cache. |
| LegacyApp.HandleWordClick | src/App.jsx:71-135 | Bubbles are keyed by the cleaned word alone. An existing one flips visibility, and an ok reply inserts a shown bubble without the word. |
| LegacyApp.HandleTranslationClick | src/App.jsx:138-178 | Present alternatives are cleared under the cleaned word's key. |
| LegacyApp.SpellingsShareBubble | src/App.jsx:73-96 | Words differing only in case or punctuation share one bubble, and a second click undoes the first. |
| LegacyApp.BubbleExpands | src/App.jsx:117-173 | With both handlers on one key, an expandable bubble made by a word click expands. |
| LegacyApp.PanelBubble | src/components/SubtitlePanel.jsx:188-196 | The panel shows a bubble under a word exactly when the entry under its cleaned form is visible, with that entry's text. |
| LegacyApp.PanelFindsClickedBubble | src/components/SubtitlePanel.jsx:188-196 | After an ok click on a new word, the panel shows its translation under every spelling that cleans the same. |
| LegacyApp.PanelHidesOnSecondClick | src/components/SubtitlePanel.jsx:188-196 | A second click on a shown word hides its bubble. |
| LegacyApp.HandleSentenceTranslate | src/App.jsx:183-221 | Keyed by index, without the cache flag. |
| Admin.RequireAdminKey | packages/backend/admin_routes.js:8-26 | 500 exactly when no key is configured. The request proceeds exactly on an equal header, and is refused with 403 otherwise. |
| Admin.CookieLines | packages/backend/admin_routes.js:41 | The kept lines are non-blank, do not start with `#`, and include every such line of the file. |
| Admin.FilterCount | packages/backend/admin_routes.js:41 | The number of kept lines is the count of cookie lines. |
| Admin.UpdateCookies | packages/backend/admin_routes.js:33-61 | 400 exactly when the body is missing or holds no cookie line. Otherwise the count is the number of cookie lines. |
| Admin.CommentsOnlyRejected | packages/backend/admin_routes.js:41-47 | A file in which no line is a cookie line is refused. |
| Admin.CountCookieLines | packages/backend/admin_routes.js:41 | The count is zero exactly when no line is a cookie line, and the number of lines exactly when all are. |
| Admin.QualityScore | packages/backend/admin_routes.js:95-108 | The score lies in {0, 30, 40, 60, 70, 100}: 100 exactly with all three cookies, 0 exactly with none. |
| Admin.PreviewLine | packages/backend/admin_routes.js:110-113 | A line with six or more tab fields previews as `f0 - f5 (expires)`. Any other line previews as its first 50 characters, or the whole line when it is shorter. |
| Admin.UntabbedPreview | packages/backend/admin_routes.js:110-113 | A line without tabs previews as its beginning. |
| Admin.Preview | packages/backend/admin_routes.js:110-113 | At most three previews, one per leading cookie line. |
| Admin.CookiesStatus | packages/backend/admin_routes.js:78-114 | Missing exactly without a file. The three flags say whether the file mentions each cookie name. The count is the number of cookie lines, the score is the quality score of the flags, and the preview is that of the cookie lines. |
| Admin.StatusCountsUploadedLines | packages/backend/admin_routes.js:41-92 | The status counts the lines the upload accepted. |
| Recommended.GetCachedVideos | src/components/RecommendedVideos.jsx:8-25 | Nothing stored, unreadable data and a stale entry give `null`. A fresh entry gives its channels. |
| Recommended.ServedForOneHour | src/components/RecommendedVideos.jsx:5-19 | A saved list is served for exactly one hour: still at the hour's end, and not a millisecond later. |
| Recommended.TotalVideos | src/components/RecommendedVideos.jsx:83 | A non-zero total means some channel has a video. |
| Recommended.TotalZeroIff | src/components/RecommendedVideos.jsx:83-87 | The total is zero exactly when no channel has a video. |
| Recommended.Render | src/components/RecommendedVideos.jsx:74-119 | A loading notice exactly while loading. Nothing exactly when no channel has a video. Otherwise exactly the channels with videos are listed. |

## Left out

- I/O is not modelled: Express routing, CORS, static files, `fs`, `exec` and `subprocess` plumbing, and the yt-dlp title lookup. Only the decisions and replies are.
- The language model, Google Translate, SQLite, `JSON.parse` and `localStorage` are oracle parameters; their internals are outside the code.
- `Date.now()` is an argument. Logging is dropped.
- Unicode case mapping and the Unicode reach of `\s` and `\w` are not modelled. The model uses ASCII classes.
- The apostrophe class of `normalizeSentence` is the single character `'`, as the class is written in the source.
- The `Promise.all` concurrency of `batchTranslateSubtitles` is not modelled. Batches are applied one after the other, later writes winning.
- The backend never starts `batchTranslateSubtitles`, because the call is commented out. It is modelled as a function the cache routes can be given the result of.
- `addToRecentVideos` in packages/backend/server.js is never called there. It is modelled, but the backend state never changes through it.
- `getWordTiming` and the scroll arithmetic use floating point and DOM geometry, so they are not modelled.
- Subtitle times are integers. `formatTime` takes whole, non-negative seconds, that is, after the floor the source applies.
- Player pause and play side effects of the click handlers are not modelled; they do not touch the maps.
- `handleUrlSubmit`, the oEmbed title fetch and the debug, health, version and video-title routes are I/O only.
- The delete-cookies route and the cookie file's reading and writing are file I/O.
- The built-in table of server/server.js is an object literal, so a word like "constructor" finds an inherited property there. The model's table holds only the listed words.
- LegacyServer.HandleTranslate: `hasMore` is a boolean. The source sends `null` when there is no dictionary entry, and also when the entry has fewer than two senses, because its alternatives are then `null`, never an empty array. So the source never sends `false`; the frontends read `null` as false.
- Batching.SplitIntoBatches requires a positive size. With size 0 the source never terminates, and its only caller passes 20.
- src/components/SubtitlePanel.jsx: only the bubble lookup is modelled. Its `formatTime`, `splitIntoWords` and current-index search are the same code as in packages/frontend/src/components/SubtitlePanel.jsx, modelled in `SubtitlePanel`.
- The `get_video_title` subprocess of packages/backend/get_subtitles.py is not modelled. The title is a parameter. So is the text of Python's report on the stray line 4, and of the exec error message around it.
- packages/backend/server.js never offers alternatives in its `/api/translate` reply. The current frontend's expansion therefore depends on the reply given to the handler, which the model takes as a parameter.
- SentenceCache.Merge: a `null` item, or a truthy text that is not a string, throws inside the `forEach` of packages/backend/server.js:314-323. The items before it stay stored and those after it are not applied. The model's items are always well-typed records, so this partial merge is not modelled.
- SentenceCache.Merge: the source accepts an index given as a string such as "1", through the lookup `batch[item.index]`. The model's indices are integers.
- LegacyApp.HandleWordClick: the bubble map of src/App.jsx is a plain `{}`, so a cleaned word like "constructor" finds an inherited property. It is treated as an existing bubble and gets an entry holding only `visible: true`. The model's map holds only the bubbles that were stored.
- LegacyApp.HandleTranslationClick: an inherited property of the plain `{}` map has no `alternatives`, so the handler asks for them as for a new word. An ok reply then writes an entry holding only the alternatives. The model does not represent inherited keys.
- Translations.WordClick, Translations.TranslationClick, Translations.SentenceClick: each click is modelled as completing, reply included, before the next click. In packages/frontend/src/App.jsx:238-405 and src/App.jsx:71-221 the handler tests the current map before `await fetch(...)` and writes through `setTranslations(prev => ...)` after it. So a second click during a pending request fetches again instead of toggling, and both replies insert a shown entry.
- App.HandleWordClick, App.HandleTranslationClick, App.HandleTranslationClickKeyed, App.HandleSentenceTranslate: each click completes before the next, as for the Translations steps they are built on; overlapping requests are not modelled.
- LegacyApp.HandleWordClick, LegacyApp.HandleTranslationClick, LegacyApp.HandleSentenceTranslate: each click completes before the next; overlapping requests are not modelled.
- LegacyApp.PanelBubble: the bubble component of src/components/SubtitleWord.jsx is not part of this model. The bubble is assumed to render as packages/frontend/src/components/SubtitleWord.jsx does, through `SubtitleWord.Render`.

## Findings

| source | as written | input that shows it | evidently intended | confidence | as-written member | corrected member |
|---|---|---|---|---|---|---|
| packages/frontend/src/App.jsx:313-353 | The bubble handler reads and writes `translations[cleanWord]`. The word handler stores bubbles under `cleanWord|||sentence`. | "run" clicked in the subtitle "I run", shown with more senses on offer, then its bubble clicked with an ok reply listing one sense: the bubble stays unexpanded. | Key the bubble handler by `cleanWord|||sentence`, as the word handler and the subtitle panel do. | not executed | App.HandleTranslationClick, App.ExpansionNeverShown | App.HandleTranslationClickKeyed, App.KeyedClickExpandsAndCollapses |
| packages/backend/get_subtitles.py:1-5 | Line 4 is bare text between two docstrings, so Python refuses to compile the file and every exec of the script fails. | Any video not yet cached: exec fails with Python's report, which quotes line 4 and so contains 字幕, and `/api/subtitles` answers 404. | Line 4 inside the docstring, so the script runs. | not executed | Backend.StrayLineFailsEveryFetch | Backend.CompiledScriptServes |
