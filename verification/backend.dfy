/** The request handlers of packages/backend/server.js, each a function from
    the server state and the request to the new state and the reply. The
    subprocess, the model and the clock are oracles passed in. */
module Backend {
  import opened Wrappers
  import opened Text
  import opened Seqs
  import opened Normalize
  import opened VideoIds
  import opened Extractor
  import opened SentenceCache
  import opened RecentVideos

  datatype CachedSubtitles = CachedSubtitles(subtitles: seq<Subtitle>, title: Option<string>)

  /** The server's in-memory state. */
  datatype Server = Server(
    subtitleCache: map<string, CachedSubtitles>,
    translationCache: map<string, Sentences>,
    recent: seq<RecentVideo>)

  // ---------------------------------------------------------------------------
  // Subtitles
  // ---------------------------------------------------------------------------

  /** What running the extractor gave: its output, or the message of the
      exception `exec`/`JSON.parse` threw. */
  datatype ExecResult = Ran(output: Output) | ExecFailed(message: string)

  /** `result.title || null`: an empty title is no title. */
  function TruthyTitle(title: Option<string>): Option<string> {
    if title == Some("") then None else title
  }

  /** `getSubtitles`: an error object with a non-empty message is thrown; an
      empty one is falsy and lets the missing subtitle list through. */
  function FetchSubtitles(run: ExecResult): (r: Result<CachedSubtitles, string>)
    ensures run.Ran? && run.output.Found? ==>
      && r.Success? && r.value.subtitles == run.output.subtitles
      && (r.value.title.Some? <==> run.output.title.Some? && run.output.title.value != "")
      && (r.value.title.Some? ==> r.value.title == run.output.title)
    ensures r.Failure? <==> run.ExecFailed? || (run.output.Error? && run.output.message != "")
    ensures r.Failure? ==> r.error == if run.ExecFailed? then run.message else run.output.message
    ensures run.Ran? && run.output.Error? && run.output.message == "" ==> r == Success(CachedSubtitles([], None))
  {
    match run
    case ExecFailed(m) => Failure(m)
    case Ran(Error(m)) => if m != "" then Failure(m) else Success(CachedSubtitles([], None))
    case Ran(Found(_, subs, title)) => Success(CachedSubtitles(subs, TruthyTitle(title)))
  }

  /** The message test of the error handler. */
  predicate IsNotFoundMessage(msg: string) {
    Contains(msg, "没有") || Contains(msg, SubtitleWord) || Contains(msg, "timeout")
  }

  function ErrorStatus(msg: string): (status: int)
    ensures status == 404 || status == 500
    ensures status == 404 <==> IsNotFoundMessage(msg)
  {
    if IsNotFoundMessage(msg) then 404 else 500
  }

  datatype SubtitlesReply =
    | SubtitlesFound(videoId: string, subtitles: seq<Subtitle>, title: Option<string>)
    | SubtitlesFailed(status: int)

  /** `POST /api/subtitles`. A missing `url` is the empty string. */
  function HandleSubtitles(st: Server, url: string, exec: string -> ExecResult): (res: (Server, SubtitlesReply))
    ensures res.1.SubtitlesFailed? ==> res.0 == st && res.1.status in {400, 404, 500}
    ensures res.1.SubtitlesFailed? && res.1.status == 400 <==> url == "" || ExtractVideoId(url).None?
    ensures res.1.SubtitlesFound? ==> ExtractVideoId(url) == Some(res.1.videoId)
    ensures res.1.SubtitlesFound? ==> |res.1.subtitles| > 0 || res.1.videoId in st.subtitleCache
    ensures res.1.SubtitlesFound? ==>
      var id := res.1.videoId;
      && res.0.translationCache == st.translationCache && res.0.recent == st.recent
      && id in res.0.subtitleCache
      && res.0.subtitleCache[id] == CachedSubtitles(res.1.subtitles, res.1.title)
      && (forall v :: v != id ==> (v in res.0.subtitleCache <==> v in st.subtitleCache))
      && forall v :: v != id && v in st.subtitleCache ==> res.0.subtitleCache[v] == st.subtitleCache[v]
    ensures url != "" && ExtractVideoId(url).Some? && ExtractVideoId(url).value in st.subtitleCache ==>
      var cached := st.subtitleCache[ExtractVideoId(url).value];
      res == (st, SubtitlesFound(ExtractVideoId(url).value, cached.subtitles, cached.title))
    ensures url != "" && ExtractVideoId(url).Some? && ExtractVideoId(url).value !in st.subtitleCache ==>
      var id := ExtractVideoId(url).value;
      var fetched := FetchSubtitles(exec(id));
      && (fetched.Failure? ==> res == (st, SubtitlesFailed(ErrorStatus(fetched.error))))
      && (fetched.Success? && |fetched.value.subtitles| == 0 ==> res == (st, SubtitlesFailed(404)))
      && (fetched.Success? && |fetched.value.subtitles| > 0 ==>
            res.1 == SubtitlesFound(id, fetched.value.subtitles, fetched.value.title))
  {
    if url == "" then (st, SubtitlesFailed(400))
    else match ExtractVideoId(url)
      case None => (st, SubtitlesFailed(400))
      case Some(id) =>
        if id in st.subtitleCache then
          var cached := st.subtitleCache[id];
          (st, SubtitlesFound(id, cached.subtitles, cached.title))
        else match FetchSubtitles(exec(id))
          case Failure(msg) => (st, SubtitlesFailed(ErrorStatus(msg)))
          case Success(fetched) =>
            if |fetched.subtitles| == 0 then (st, SubtitlesFailed(404))
            else
              var st' := st.(subtitleCache := st.subtitleCache[id := fetched]);
              (st', SubtitlesFound(id, fetched.subtitles, fetched.title))
  }

  /** What `exec` yields for the extractor on `id`: a file Python cannot
      compile fails with its report; a compiled one runs with the id as its
      one argument and prints its JSON output. */
  function ExecExtractor(script: Compiled, id: string, title: Option<string>,
                         fetched: Result<seq<RawItem>, TranscriptError>): (r: ExecResult)
    ensures r.ExecFailed? <==> script.SyntaxError?
    ensures r.ExecFailed? ==> r.message == script.report
    ensures r.Ran? ==> r.output == GetSubtitles(id, title, fetched)
  {
    match script
    case SyntaxError(report) => ExecFailed(report)
    case Compiles => Ran(RunScript(["get_subtitles.py", id], title, fetched).output)
  }

  /** The extractor for every video: `titles` and `fetches` stand for yt-dlp
      and the transcript service. */
  function ExtractorExec(script: Compiled, titles: string -> Option<string>,
                         fetches: string -> Result<seq<RawItem>, TranscriptError>): string -> ExecResult
  {
    id => ExecExtractor(script, id, titles(id), fetches(id))
  }

  /** As written the extractor never compiles, so every request for a video
      not yet cached fails, whatever the transcript service holds; when
      Python's report quotes the stray line, the failure is a 404. */
  lemma StrayLineFailsEveryFetch(st: Server, url: string, report: string, titles: string -> Option<string>,
                                 fetches: string -> Result<seq<RawItem>, TranscriptError>)
    requires url != "" && ExtractVideoId(url).Some? && ExtractVideoId(url).value !in st.subtitleCache
    ensures HandleSubtitles(st, url, ExtractorExec(SyntaxError(report), titles, fetches))
         == (st, SubtitlesFailed(ErrorStatus(report)))
    ensures Contains(report, StrayLine) ==>
      HandleSubtitles(st, url, ExtractorExec(SyntaxError(report), titles, fetches)).1 == SubtitlesFailed(404)
  {
    if Contains(report, StrayLine) {
      StrayLineMentionsSubtitles();
      ContainsWithin(report, StrayLine, SubtitleWord);
    }
  }

  /** With a script that compiles, a transcript with at least one line of
      text is served and cached under the video's id. */
  lemma CompiledScriptServes(st: Server, url: string, titles: string -> Option<string>,
                             fetches: string -> Result<seq<RawItem>, TranscriptError>)
    requires url != "" && ExtractVideoId(url).Some? && ExtractVideoId(url).value !in st.subtitleCache
    requires var id := ExtractVideoId(url).value;
      fetches(id).Success? && |FormatSubtitles(fetches(id).value)| > 0
    ensures var id := ExtractVideoId(url).value;
      var subtitles := FormatSubtitles(fetches(id).value);
      var res := HandleSubtitles(st, url, ExtractorExec(Compiles, titles, fetches));
      && res.1 == SubtitlesFound(id, subtitles, TruthyTitle(titles(id)))
      && res.0.subtitleCache[id] == CachedSubtitles(subtitles, TruthyTitle(titles(id)))
  {
  }

  /** Once a video's subtitles are cached, asking again returns the same
      reply without running the extractor. */
  lemma SecondRequestFromCache(st: Server, url: string, exec1: string -> ExecResult, exec2: string -> ExecResult)
    requires HandleSubtitles(st, url, exec1).1.SubtitlesFound?
    ensures var (st1, reply1) := HandleSubtitles(st, url, exec1);
      HandleSubtitles(st1, url, exec2) == (st1, reply1)
  {
  }

  /** The two fixed error messages of the extractor are answered with 404. */
  lemma ExtractorErrorsAreNotFound(e: TranscriptError)
    requires e.NoTranscriptFound? || e.TranscriptsDisabled?
    ensures ErrorStatus(ErrorMessage(e)) == 404
  {
  }

  // ---------------------------------------------------------------------------
  // Word and sentence translation
  // ---------------------------------------------------------------------------

  datatype WordReply =
    | WordTranslated(word: string, translation: string, hasMore: bool, cached: bool)
    | WordFailed(status: int)

  /** `POST /api/translate`. `model` is the configured model client
      (`None` when no key is set); it answers for the cleaned word and the
      optional sentence, or fails. The reply's `alternatives` is always null. */
  function HandleTranslate(word: string, sentence: Option<string>,
                           model: Option<(string, Option<string>) -> Option<string>>): (r: WordReply)
    ensures word == "" <==> r == WordFailed(400)
    ensures word != "" && model.None? <==> r == WordFailed(503)
    ensures r.WordTranslated? ==> r.word == Trim(Lower(word)) && NoUpper(r.word) && NoEdgeSpace(r.word)
    ensures r.WordTranslated? ==> NoEdgeSpace(r.translation) && !r.hasMore && !r.cached
    ensures r.WordTranslated? <==> word != "" && model.Some? && model.value(Trim(Lower(word)), sentence).Some?
    ensures r.WordTranslated? ==> r.translation == Trim(model.value(Trim(Lower(word)), sentence).value)
    ensures r == WordFailed(500) <==> word != "" && model.Some? && model.value(Trim(Lower(word)), sentence).None?
  {
    if word == "" then WordFailed(400)
    else
      var cleanWord := Trim(Lower(word));
      TrimNoUpper(Lower(word));
      if model.None? then WordFailed(503)
      else match model.value(cleanWord, sentence)
        case None => WordFailed(500)
        case Some(answer) => WordTranslated(cleanWord, Trim(answer), false, false)
  }

  /** Words differing only in letter case get the same reply: the model is
      asked about the same cleaned word. */
  lemma WordCaseInsensitive(word: string, sentence: Option<string>,
                            model: Option<(string, Option<string>) -> Option<string>>)
    ensures HandleTranslate(Lower(word), sentence, model) == HandleTranslate(word, sentence, model)
  {
    LowerOfLower(Lower(word));
  }

  /** Asking again with the reply's own word gets the same reply. */
  lemma ReplyWordIsStable(word: string, sentence: Option<string>,
                          model: Option<(string, Option<string>) -> Option<string>>)
    requires HandleTranslate(word, sentence, model).WordTranslated?
    requires HandleTranslate(word, sentence, model).word != ""
    ensures var w := HandleTranslate(word, sentence, model).word;
      HandleTranslate(w, sentence, model) == HandleTranslate(word, sentence, model)
  {
    var w := HandleTranslate(word, sentence, model).word;
    LowerOfLower(w);
    TrimNoEdge(w);
  }

  lemma TrimNoUpper(s: string)
    requires NoUpper(s)
    ensures NoUpper(Trim(s))
  {
    var t := Trim(s);
    forall i | 0 <= i < |t| ensures !IsUpper(t[i]) {
      assert t[i] in s;
    }
  }

  datatype SentenceReply =
    | SentenceTranslated(original: string, translation: string, cached: bool)
    | SentenceFailed(status: int)

  /** The cached translation of `text` for the video, if any. */
  function CachedSentence(st: Server, text: string, videoId: Option<string>): (r: Option<string>)
    ensures r.Some? ==> (videoId.Some? && videoId.value in st.translationCache
      && NormalizeSentence(text) in st.translationCache[videoId.value]
      && st.translationCache[videoId.value][NormalizeSentence(text)] == r.value)
  {
    if videoId.Some? && videoId.value != "" && videoId.value in st.translationCache
       && NormalizeSentence(text) in st.translationCache[videoId.value]
    then Some(st.translationCache[videoId.value][NormalizeSentence(text)])
    else None
  }

  /** `POST /api/translate-sentence`: the cache first, then the model. */
  function HandleTranslateSentence(st: Server, text: string, videoId: Option<string>,
                                   model: Option<string -> Option<string>>): (r: SentenceReply)
    ensures text == "" <==> r == SentenceFailed(400)
    ensures r.SentenceTranslated? ==> r.original == text
    ensures r.SentenceTranslated? && r.cached <==> text != "" && CachedSentence(st, text, videoId).Some?
    ensures r.SentenceTranslated? && r.cached ==> r.translation == CachedSentence(st, text, videoId).value
    ensures r == SentenceFailed(503) <==> text != "" && CachedSentence(st, text, videoId).None? && model.None?
    ensures r == SentenceFailed(500) <==>
      text != "" && CachedSentence(st, text, videoId).None? && model.Some? && model.value(text).None?
    ensures r.SentenceTranslated? && !r.cached ==>
      model.Some? && model.value(text).Some? && r.translation == Trim(model.value(text).value)
  {
    if text == "" then SentenceFailed(400)
    else match CachedSentence(st, text, videoId)
      case Some(t) => SentenceTranslated(text, t, true)
      case None =>
        if model.None? then SentenceFailed(503)
        else match model.value(text)
          case None => SentenceFailed(500)
          case Some(answer) => SentenceTranslated(text, Trim(answer), false)
  }

  /** Sentences that differ only in letter case hit the same cache entry. */
  lemma CacheLookupIgnoresCase(st: Server, text: string, videoId: Option<string>)
    requires text != ""
    ensures CachedSentence(st, Lower(text), videoId) == CachedSentence(st, text, videoId)
  {
    CaseInsensitive(text);
  }

  /** After the job stored a video's sentences, any sentence whose normal form
      is among them is answered from the cache without the model. */
  lemma TranslatedSentenceIsCached(st: Server, videoId: string, subtitles: seq<Subtitle>,
                                   ask: seq<Subtitle> -> Option<string>, parse: string -> Option<AiValue>,
                                   text: string, model: Option<string -> Option<string>>)
    requires videoId != "" && text != ""
    requires NormalizeSentence(text) in BatchTranslate(subtitles, ask, parse)
    ensures var sentences := BatchTranslate(subtitles, ask, parse);
      var st' := st.(translationCache := StoreTranslations(st.translationCache, videoId, sentences));
      HandleTranslateSentence(st', text, Some(videoId), model)
        == SentenceTranslated(text, sentences[NormalizeSentence(text)], true)
  {
  }

  // ---------------------------------------------------------------------------
  // Cache clearing
  // ---------------------------------------------------------------------------

  /** `POST /api/clear-cache`: 400 without an id; otherwise both caches forget
      the video and nothing else changes. */
  function HandleClearCache(st: Server, videoId: string): (res: (Server, int))
    ensures videoId == "" <==> res.1 == 400
    ensures videoId == "" ==> res.0 == st
    ensures videoId != "" ==> (res.1 == 200
      && videoId !in res.0.subtitleCache && videoId !in res.0.translationCache
      && res.0.recent == st.recent)
    ensures forall v :: v != videoId ==>
      && (v in res.0.subtitleCache <==> v in st.subtitleCache)
      && (v in res.0.translationCache <==> v in st.translationCache)
      && (v in st.subtitleCache ==> res.0.subtitleCache[v] == st.subtitleCache[v])
      && (v in st.translationCache ==> res.0.translationCache[v] == st.translationCache[v])
  {
    if videoId == "" then (st, 400)
    else (Server(st.subtitleCache - {videoId}, st.translationCache - {videoId}, st.recent), 200)
  }

  /** After clearing, a subtitle request for the video runs the extractor
      again. */
  lemma ClearedVideoIsFetchedAgain(st: Server, url: string, exec: string -> ExecResult)
    requires ExtractVideoId(url).Some? && url != ""
    ensures var id := ExtractVideoId(url).value;
      var st' := HandleClearCache(st, id).0;
      var reply := HandleSubtitles(st', url, exec).1;
      && (reply.SubtitlesFound? <==> exec(id).Ran? && exec(id).output.Found? && |exec(id).output.subtitles| > 0)
      && (reply.SubtitlesFound? ==> reply.subtitles == exec(id).output.subtitles)
  {
    BareOrPrefixedIdNotEmpty(url);
  }

  lemma BareOrPrefixedIdNotEmpty(url: string)
    requires ExtractVideoId(url).Some?
    ensures ExtractVideoId(url).value != ""
  {
  }

  // ---------------------------------------------------------------------------
  // Recommended videos
  // ---------------------------------------------------------------------------

  const MaxVideosPerChannel: nat := 5
  const FieldSeparator: string := "|||"

  datatype ListedVideo = ListedVideo(videoId: string, title: string)

  /** `line.split('|||')`, first two fields: the text before the first
      separator, and the text from there to the next separator or the end. */
  function ParseListingLine(line: string): (v: ListedVideo)
    ensures !Contains(v.videoId, FieldSeparator) || IndexOf(line, FieldSeparator) == -1
    ensures IndexOf(line, FieldSeparator) == -1 ==> v == ListedVideo(line, "")
  {
    var i := IndexOf(line, FieldSeparator);
    if i == -1 then ListedVideo(line, "")
    else
      var rest := line[i + |FieldSeparator|..];
      var j := IndexOf(rest, FieldSeparator);
      NoEarlierMatch(line, i, FieldSeparator);
      ListedVideo(line[..i], if j == -1 then rest else rest[..j])
  }

  /** A prefix that ends before the first occurrence of `p` does not contain it. */
  lemma NoEarlierMatch(line: string, i: nat, p: string)
    requires i <= |line| && |p| > 0
    requires forall k :: 0 <= k < i ==> !StartsWith(line[k..], p)
    ensures !Contains(line[..i], p)
  {
    var t := line[..i];
    forall k | 0 <= k <= |t| ensures !StartsWith(t[k..], p) {
      if k + |p| <= i {
        assert t[k..][..|p|] == line[k..][..|p|];
      }
    }
    NotContainsFromPositions(t, p);
  }

  lemma {:induction false} NotContainsFromPositions(s: string, p: string)
    requires forall k :: 0 <= k <= |s| ==> !StartsWith(s[k..], p)
    ensures !Contains(s, p)
    decreases |s|
  {
    assert s[0..] == s;
    if |s| > 0 {
      forall k | 0 <= k <= |s[1..]| ensures !StartsWith(s[1..][k..], p) {
        assert s[1..][k..] == s[k + 1..];
      }
      NotContainsFromPositions(s[1..], p);
    }
  }

  predicate HasSeparator(line: string) {
    Contains(line, FieldSeparator)
  }

  /** The channel listing printed by yt-dlp, one `id|||title` per line. */
  function ParseListing(stdout: string): (vs: seq<ListedVideo>)
    ensures |vs| <= MaxVideosPerChannel
    ensures var listed := Filter(Split(Trim(stdout), '\n'), HasSeparator);
      && |vs| == (if |listed| < MaxVideosPerChannel then |listed| else MaxVideosPerChannel)
      && forall k :: 0 <= k < |vs| ==> vs[k] == ParseListingLine(listed[k])
  {
    var lines := Split(Trim(stdout), '\n');
    var listed := Filter(lines, HasSeparator);
    var kept := Take(listed, MaxVideosPerChannel);
    seq(|kept|, k requires 0 <= k < |kept| => ParseListingLine(kept[k]))
  }

  /** In a line printed as `id|||title`, the first separator follows the id. */
  lemma SeparatorAfterId(id: string, title: string)
    requires '|' !in id
    ensures var line := id + FieldSeparator + title;
      && IndexOf(line, FieldSeparator) == |id|
      && line[..|id|] == id
      && line[|id| + |FieldSeparator|..] == title
  {
    var line := id + FieldSeparator + title;
    assert StartsWith(line[|id|..], FieldSeparator) by {
      assert line[|id|..][..3] == FieldSeparator;
    }
    forall k | 0 <= k < |id| ensures !StartsWith(line[k..], FieldSeparator) {
      assert line[k..][0] == id[k];
    }
    assert line[..|id|] == id;
  }

  /** A text that does not contain `p` has no index for it. */
  lemma AbsentIndex(s: string, p: string)
    requires !Contains(s, p)
    ensures IndexOf(s, p) == -1
  {
    if IndexOf(s, p) >= 0 {
      ContainsAt(s, p, IndexOf(s, p));
    }
  }

  /** A line written in the requested format gives back its id and title. */
  lemma ListingLineRoundTrip(id: string, title: string)
    requires '|' !in id && !Contains(title, FieldSeparator)
    ensures ParseListingLine(id + FieldSeparator + title) == ListedVideo(id, title)
  {
    SeparatorAfterId(id, title);
    AbsentIndex(title, FieldSeparator);
  }
}
