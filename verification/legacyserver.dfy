/** The request handlers of server/server.js, the older single-file server:
    word translation through a chain of providers (Google, the local
    dictionary, a fixed table, the word itself), sentence translation through
    Google alone, and subtitle fetching without a cache. Google and the
    dictionary database are oracles passed in. */
module LegacyServer {
  import opened Wrappers
  import opened Text
  import opened VideoIds
  import opened Dictionary
  import opened Extractor
  import Backend

  // ---------------------------------------------------------------------------
  // /api/translate
  // ---------------------------------------------------------------------------

  /** The built-in fallback table consulted when neither Google nor the
      dictionary gave a translation. */
  const MockTranslations: map<string, string> := map[
    "hello" := "你好", "welcome" := "欢迎", "goodbye" := "再见",
    "thank" := "感谢", "thanks" := "谢谢", "please" := "请",
    "sorry" := "对不起", "yes" := "是", "no" := "不",
    "elephants" := "大象", "elephant" := "大象",
    "cat" := "猫", "dog" := "狗", "bird" := "鸟",
    "learning" := "学习", "study" := "学习", "practice" := "练习",
    "tutorial" := "教程", "lesson" := "课程",
    "amazing" := "惊人的", "exciting" := "令人兴奋的",
    "interesting" := "有趣的", "beautiful" := "美丽的",
    "easy" := "简单的", "difficult" := "困难的",
    "important" := "重要的", "there" := "那里",
    "say" := "说", "much" := "多", "pretty" := "相当",
    "here" := "这里", "about" := "关于", "so" := "所以"
  ]

  /** No table entry is empty, so a table hit always ends the chain. */
  lemma TableEntriesNonEmpty()
    ensures forall w :: w in MockTranslations ==> MockTranslations[w] != ""
  {
  }

  /** Google's answer for one text: `None` when the client is not configured
      or the call threw. */
  type Google = Option<string -> Option<string>>

  /** The dictionary database, `None` when it could not be opened. */
  type Database = Option<string -> Option<seq<Row>>>

  datatype TranslateReply =
    | DetailedReply(word: string, alternatives: Option<seq<Alternative>>)
    | SimpleReply(word: string, translation: string, hasMore: bool)
    | TranslateFailed(status: int)

  /** The formatted dictionary entry for the cleaned word, if any. A query that
      throws is caught and counts as no entry. */
  function LocalResult(cleanWord: string, db: Database): (r: Option<Formatted>)
    ensures db.None? ==> r.None?
    ensures r.Some? ==> QueryWord(cleanWord, db).Some?
  {
    match QueryWord(cleanWord, db)
    case None => None
    case Some(rows) => FormatDictionaryResult(rows)
  }

  /** What Google contributed to the main translation: its answer, or "" when
      it is not configured or failed. */
  function GoogleMain(text: string, google: Google): (r: string)
    ensures r != "" ==> google.Some? && google.value(text) == Some(r)
    ensures google.Some? && google.value(text).Some? ==> r == google.value(text).value
  {
    if google.Some? && google.value(text).Some? then google.value(text).value else ""
  }

  /** The providers in the order they are asked, as optional answers. */
  function Providers(cleanWord: string, local: Option<Formatted>, google: Google): seq<Option<string>> {
    [ Some(GoogleMain(cleanWord, google)),
      if local.Some? then Some(local.value.mainTranslation) else None,
      if cleanWord in MockTranslations then Some(MockTranslations[cleanWord]) else None ]
  }

  /** Reference reading of the fallback chain: the first provider with a
      non-empty answer, else `default`. */
  function FirstAvailable(answers: seq<Option<string>>, default: string): (r: string)
    ensures r == default || exists k :: 0 <= k < |answers| && answers[k] == Some(r)
    ensures r != default ==> r != ""
  {
    if |answers| == 0 then default
    else if answers[0].Some? && answers[0].value != "" then answers[0].value
    else FirstAvailable(answers[1..], default)
  }

  /** Steps 3 to 6 of the handler, each overwriting the main translation only
      while it is still empty. */
  function MainTranslation(cleanWord: string, local: Option<Formatted>, google: Google): (r: string)
    ensures cleanWord != "" ==> r != ""
    ensures GoogleMain(cleanWord, google) != "" ==> r == GoogleMain(cleanWord, google)
  {
    var fromGoogle := GoogleMain(cleanWord, google);
    var fromDictionary := if fromGoogle == "" && local.Some? then local.value.mainTranslation else fromGoogle;
    var fromTable := if fromDictionary == "" && cleanWord in MockTranslations then MockTranslations[cleanWord] else fromDictionary;
    if fromTable == "" then cleanWord else fromTable
  }

  /** `hasMore` of the simple reply: the dictionary entry has alternatives.
      The source's expression yields `null` instead of `false` when there is
      no entry; the client reads both as false. */
  function HasMore(local: Option<Formatted>): (b: bool)
    ensures b <==> local.Some? && local.value.alternatives.Some? && |local.value.alternatives.value| > 0
  {
    match local
    case None => false
    case Some(f) => f.alternatives.Some? && |f.alternatives.value| > 0
  }

  /** `POST /api/translate`. A missing word is the empty string; `detailed`
      is the `detailed=true` query flag. */
  function HandleTranslate(word: string, detailed: bool, db: Database, google: Google): (r: TranslateReply)
    ensures word == "" <==> r == TranslateFailed(400)
    ensures r.DetailedReply? <==> word != "" && detailed
    ensures r.DetailedReply? || r.SimpleReply? ==> r.word == Trim(Lower(word))
    ensures r.DetailedReply? && r.alternatives.Some? ==>
      1 <= |r.alternatives.value| <= MaxCollected - 1
      && LocalResult(r.word, db).Some? && LocalResult(r.word, db).value.alternatives == r.alternatives
    ensures r.SimpleReply? && r.word != "" ==> r.translation != ""
    ensures r.DetailedReply? ==>
      r.alternatives == if LocalResult(r.word, db).Some? then LocalResult(r.word, db).value.alternatives else None
    ensures r.SimpleReply? ==>
      && r.translation == FirstAvailable(Providers(r.word, LocalResult(r.word, db), google), r.word)
      && (r.hasMore <==> HasMore(LocalResult(r.word, db)))
  {
    if word == "" then TranslateFailed(400)
    else
      var cleanWord := Trim(Lower(word));
      var local := LocalResult(cleanWord, db);
      if detailed then
        DetailedReply(cleanWord, if local.Some? then local.value.alternatives else None)
      else
        ChainIsFirstAvailable(cleanWord, local, google);
        SimpleReply(cleanWord, MainTranslation(cleanWord, local, google), HasMore(local))
  }

  /** The chain is the first-available reading of the three providers, with
      the cleaned word as the last resort. */
  lemma ChainIsFirstAvailable(cleanWord: string, local: Option<Formatted>, google: Google)
    ensures MainTranslation(cleanWord, local, google) == FirstAvailable(Providers(cleanWord, local, google), cleanWord)
  {
    var ps := Providers(cleanWord, local, google);
    TableEntriesNonEmpty();
    assert FirstAvailable(ps[1..][1..][1..], cleanWord) == cleanWord;
    assert FirstAvailable(ps[1..][1..], cleanWord)
      == if cleanWord in MockTranslations then MockTranslations[cleanWord] else cleanWord;
    assert FirstAvailable(ps[1..], cleanWord)
      == if local.Some? && local.value.mainTranslation != "" then local.value.mainTranslation
         else FirstAvailable(ps[1..][1..], cleanWord);
  }

  /** Detailed mode returns before Google is asked: its reply does not depend
      on the Google client. */
  lemma DetailedIgnoresGoogle(word: string, db: Database, google1: Google, google2: Google)
    ensures HandleTranslate(word, true, db, google1) == HandleTranslate(word, true, db, google2)
  {
  }

  /** A simple reply offers more exactly when the detailed reply for the same
      word would list alternatives. */
  lemma HasMoreIffDetailedAlternatives(word: string, db: Database, google: Google)
    requires word != ""
    ensures HandleTranslate(word, false, db, google).hasMore
        <==> HandleTranslate(word, true, db, google).alternatives.Some?
  {
  }

  /** With Google answering, the table and the dictionary are never consulted
      for the main translation. */
  lemma GoogleFirst(word: string, db: Database, google: Google, answer: string)
    requires word != "" && answer != ""
    requires google.Some? && google.value(Trim(Lower(word))) == Some(answer)
    ensures HandleTranslate(word, false, db, google).translation == answer
  {
  }

  /** When Google gives nothing, a dictionary entry's non-empty main
      translation is the reply, whatever the table holds. */
  lemma DictionaryFallback(word: string, db: Database, google: Google)
    requires word != ""
    requires GoogleMain(Trim(Lower(word)), google) == ""
    requires LocalResult(Trim(Lower(word)), db).Some?
    requires LocalResult(Trim(Lower(word)), db).value.mainTranslation != ""
    ensures HandleTranslate(word, false, db, google).translation
      == LocalResult(Trim(Lower(word)), db).value.mainTranslation
  {
  }

  /** Without Google and without a dictionary entry, a table word gets its
      table translation. */
  lemma TableFallback(word: string, db: Database)
    requires Trim(Lower(word)) in MockTranslations && word != ""
    requires LocalResult(Trim(Lower(word)), db).None?
    ensures HandleTranslate(word, false, db, None).translation == MockTranslations[Trim(Lower(word))]
  {
    TableEntriesNonEmpty();
  }

  /** With no provider at all, the cleaned word is echoed. */
  lemma EchoesUnknownWord(word: string)
    requires word != "" && Trim(Lower(word)) !in MockTranslations
    ensures HandleTranslate(word, false, None, None) == SimpleReply(Trim(Lower(word)), Trim(Lower(word)), false)
  {
  }

  // ---------------------------------------------------------------------------
  // /api/translate-sentence
  // ---------------------------------------------------------------------------

  datatype SentenceReply =
    | SentenceTranslated(original: string, translation: string)
    | SentenceFailed(status: int)

  /** `POST /api/translate-sentence`. A missing text is the empty string. */
  function HandleTranslateSentence(text: string, google: Google): (r: SentenceReply)
    ensures r.SentenceFailed? ==> r.status in {400, 500, 503}
    ensures r == SentenceFailed(400) <==> text == ""
    ensures r == SentenceFailed(503) <==> text != "" && google.None?
    ensures r == SentenceFailed(500) <==> text != "" && google.Some? && google.value(text).None?
    ensures r.SentenceTranslated? ==> r.original == text && google.Some? && google.value(text) == Some(r.translation)
  {
    if text == "" then SentenceFailed(400)
    else match google
      case None => SentenceFailed(503)
      case Some(translate) =>
        match translate(text)
        case None => SentenceFailed(500)
        case Some(t) => SentenceTranslated(text, t)
  }

  // ---------------------------------------------------------------------------
  // /api/subtitles
  // ---------------------------------------------------------------------------

  datatype SubtitlesReply =
    | SubtitlesFound(videoId: string, subtitles: seq<Subtitle>)
    | SubtitlesFailed(status: int)

  /** `POST /api/subtitles`: the same decisions as the newer backend, without
      the cache and without the title. A missing `url` is the empty string. */
  function HandleSubtitles(url: string, exec: string -> Backend.ExecResult): (r: SubtitlesReply)
    ensures r.SubtitlesFailed? ==> r.status in {400, 404, 500}
    ensures r == SubtitlesFailed(400) <==> url == "" || ExtractVideoId(url).None?
    ensures r.SubtitlesFound? ==> ExtractVideoId(url) == Some(r.videoId) && |r.subtitles| > 0
    ensures r.SubtitlesFound? ==>
      exec(r.videoId).Ran? && exec(r.videoId).output.Found? && exec(r.videoId).output.subtitles == r.subtitles
    ensures url != "" && ExtractVideoId(url).Some? ==>
      var fetched := Backend.FetchSubtitles(exec(ExtractVideoId(url).value));
      && (fetched.Failure? ==> r == SubtitlesFailed(Backend.ErrorStatus(fetched.error)))
      && (fetched.Success? && |fetched.value.subtitles| == 0 ==> r == SubtitlesFailed(404))
      && (fetched.Success? && |fetched.value.subtitles| > 0 ==>
            r == SubtitlesFound(ExtractVideoId(url).value, fetched.value.subtitles))
  {
    if url == "" then SubtitlesFailed(400)
    else match ExtractVideoId(url)
      case None => SubtitlesFailed(400)
      case Some(id) =>
        match Backend.FetchSubtitles(exec(id))
        case Failure(msg) => SubtitlesFailed(Backend.ErrorStatus(msg))
        case Success(fetched) =>
          if |fetched.subtitles| == 0 then SubtitlesFailed(404) else SubtitlesFound(id, fetched.subtitles)
  }

  /** For a video the newer backend has not cached, both servers give the same
      status and the same subtitles. */
  lemma AgreesWithBackend(st: Backend.Server, url: string, exec: string -> Backend.ExecResult)
    requires ExtractVideoId(url).Some? ==> ExtractVideoId(url).value !in st.subtitleCache
    ensures var legacy := HandleSubtitles(url, exec);
      var newer := Backend.HandleSubtitles(st, url, exec).1;
      && (legacy.SubtitlesFailed? <==> newer.SubtitlesFailed?)
      && (legacy.SubtitlesFailed? ==> legacy.status == newer.status)
      && (legacy.SubtitlesFound? ==> legacy.videoId == newer.videoId && legacy.subtitles == newer.subtitles)
  {
  }

  /** An extractor error whose message is empty is not thrown; the missing
      subtitle list then answers 404. */
  lemma EmptyErrorIsNotFound(url: string, exec: string -> Backend.ExecResult)
    requires url != "" && ExtractVideoId(url).Some?
    requires exec(ExtractVideoId(url).value) == Backend.Ran(Error(""))
    ensures HandleSubtitles(url, exec) == SubtitlesFailed(404)
  {
  }
}
