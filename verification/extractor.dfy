/** The subtitle extractor packages/backend/get_subtitles.py, run by the
    backend as a subprocess. The transcript service and yt-dlp are not
    modelled: what they returned is passed in. Times are whole milliseconds. */
module Extractor {
  import opened Wrappers
  import opened Text

  /** One subtitle line, as the backend and the browser see it. */
  datatype Subtitle = Subtitle(text: string, start: int, duration: int)

  /** One item of the fetched transcript; `text` may be missing. */
  datatype RawItem = RawItem(text: Option<string>, start: int, duration: int)

  datatype TranscriptError = NoTranscriptFound | TranscriptsDisabled | OtherError(message: string)

  /** The JSON object the script prints. */
  datatype Output =
    | Found(videoId: string, subtitles: seq<Subtitle>, title: Option<string>)
    | Error(message: string)

  const NoTranscriptMessage: string := "没有找到英文字幕"
  const DisabledMessage: string := "该视频的字幕已禁用"
  const UsageMessage: string := "需要提供视频 ID"
  /** The word "subtitle" that both fixed messages contain. */
  const SubtitleWord: string := "字幕"

  /** Line 4 of the script as written: bare text between two docstrings. */
  const StrayLine: string := "使用 youtube-transcript-api 获取 YouTube 字幕，返回 JSON 格式"

  /** Whether Python compiles the script file. As written it does not: the
      stray line is not a statement, and Python's report quotes it. */
  datatype Compiled = Compiles | SyntaxError(report: string)

  /** The stray line itself speaks of subtitles. */
  lemma StrayLineMentionsSubtitles()
    ensures Contains(StrayLine, SubtitleWord)
  {
    assert StartsWith(StrayLine[37..], SubtitleWord);
    ContainsAt(StrayLine, SubtitleWord, 37);
  }

  /** `text.replace('\n', ' ')` (Python replaces every occurrence). */
  function FlattenLines(text: string): (r: string)
    ensures |r| == |text|
    ensures '\n' !in r
    ensures forall i :: 0 <= i < |text| ==> r[i] == if text[i] == '\n' then ' ' else text[i]
  {
    seq(|text|, i requires 0 <= i < |text| => if text[i] == '\n' then ' ' else text[i])
  }

  /** The formatting loop: items without text are dropped, the others keep
      their order, start and duration. */
  function FormatSubtitles(items: seq<RawItem>): (r: seq<Subtitle>)
    ensures |r| <= |items|
    ensures forall k :: 0 <= k < |r| ==> '\n' !in r[k].text
    decreases |items|
  {
    if |items| == 0 then []
    else
      var rest := FormatSubtitles(items[1..]);
      match items[0].text
      case None => rest
      case Some(t) => [Subtitle(FlattenLines(t), items[0].start, items[0].duration)] + rest
  }

  /** Formatting works item by item. */
  lemma {:induction false} FormatAppend(a: seq<RawItem>, b: seq<RawItem>)
    ensures FormatSubtitles(a + b) == FormatSubtitles(a) + FormatSubtitles(b)
    decreases |a|
  {
    if |a| == 0 {
      assert a + b == b;
    } else {
      assert (a + b)[1..] == a[1..] + b;
      FormatAppend(a[1..], b);
    }
  }

  /** When every item has text, item `k` becomes subtitle `k`. */
  lemma {:induction false} FormatAllText(items: seq<RawItem>)
    requires forall k :: 0 <= k < |items| ==> items[k].text.Some?
    ensures var r := FormatSubtitles(items);
      |r| == |items| &&
      forall k :: 0 <= k < |r| ==>
        r[k] == Subtitle(FlattenLines(items[k].text.value), items[k].start, items[k].duration)
    decreases |items|
  {
    if |items| > 0 {
      FormatAllText(items[1..]);
    }
  }

  /** The error object printed for each kind of failure. */
  function ErrorMessage(e: TranscriptError): (msg: string)
    ensures e.NoTranscriptFound? || e.TranscriptsDisabled? ==> Contains(msg, SubtitleWord)
    ensures e.OtherError? ==> msg == e.message
  {
    match e
    case NoTranscriptFound =>
      assert StartsWith(NoTranscriptMessage[6..], SubtitleWord);
      ContainsAt(NoTranscriptMessage, SubtitleWord, 6);
      NoTranscriptMessage
    case TranscriptsDisabled =>
      assert StartsWith(DisabledMessage[4..], SubtitleWord);
      ContainsAt(DisabledMessage, SubtitleWord, 4);
      DisabledMessage
    case OtherError(m) => m
  }

  /** `get_subtitles`: `title` is the yt-dlp title, or `None` when it failed. */
  function GetSubtitles(videoId: string, title: Option<string>, fetched: Result<seq<RawItem>, TranscriptError>): (out: Output)
    ensures out.Found? <==> fetched.Success?
    ensures out.Found? ==> out.videoId == videoId && out.subtitles == FormatSubtitles(fetched.value)
    ensures out.Found? ==> (out.title.Some? <==> title.Some? && title.value != "")
    ensures out.Found? && out.title.Some? ==> out.title == title
    ensures out.Error? ==> out.message == ErrorMessage(fetched.error)
  {
    match fetched
    case Failure(e) => Error(ErrorMessage(e))
    case Success(items) =>
      var shown := if title.Some? && title.value != "" then title else None;
      Found(videoId, FormatSubtitles(items), shown)
  }

  datatype Run = Run(exitCode: int, output: Output)

  /** The script's entry point: exactly one argument, the video id. */
  function RunScript(argv: seq<string>, title: Option<string>, fetched: Result<seq<RawItem>, TranscriptError>): (run: Run)
    ensures |argv| != 2 <==> run.exitCode == 1
    ensures |argv| != 2 ==> run.output == Error(UsageMessage)
    ensures |argv| == 2 ==> run.exitCode == 0 && run.output == GetSubtitles(argv[1], title, fetched)
  {
    if |argv| != 2 then Run(1, Error(UsageMessage))
    else Run(0, GetSubtitles(argv[1], title, fetched))
  }
}
