/** src/components/RecommendedVideos.jsx: the one-hour browser cache of the
    recommended channels and the decision whether the list is drawn. The
    stored text, its parser and the clock are parameters. */
module Recommended {
  import opened Wrappers
  import opened Seqs

  /** One hour, in milliseconds. */
  const CacheDuration: int := 60 * 60 * 1000

  datatype Video = Video(videoId: string, title: string)
  datatype Channel = Channel(name: string, videos: seq<Video>)

  /** What the cache entry holds once parsed. */
  datatype CachePayload = CachePayload(timestamp: int, channels: seq<Channel>)

  /** The entry is older than the cache's lifetime. */
  predicate IsStale(timestamp: int, now: int) {
    now - timestamp > CacheDuration
  }

  /** `getCachedVideos`: nothing stored, an unreadable entry and a stale one
      all give `None`. */
  function GetCachedVideos(stored: Option<string>, parse: string -> Option<CachePayload>, now: int): (r: Option<seq<Channel>>)
    ensures stored.None? || stored == Some("") ==> r.None?
    ensures r.Some? ==>
      && stored.Some? && parse(stored.value).Some?
      && !IsStale(parse(stored.value).value.timestamp, now)
      && r.value == parse(stored.value).value.channels
    ensures (stored.Some? && stored.value != "" && parse(stored.value).Some?
      && !IsStale(parse(stored.value).value.timestamp, now)) ==> r.Some?
  {
    match stored
    case None => None
    case Some(data) =>
      if data == "" then None
      else match parse(data)
        case None => None
        case Some(payload) => if IsStale(payload.timestamp, now) then None else Some(payload.channels)
  }

  /** A saved list is served back for exactly one hour: at the hour's end it
      is still fresh, a millisecond later it is gone. */
  lemma ServedForOneHour(stored: string, parse: string -> Option<CachePayload>, channels: seq<Channel>, saved: int, now: int)
    requires stored != "" && parse(stored) == Some(CachePayload(saved, channels))
    ensures GetCachedVideos(Some(stored), parse, saved + CacheDuration) == Some(channels)
    ensures GetCachedVideos(Some(stored), parse, saved + CacheDuration + 1) == None
    ensures saved <= now <= saved + CacheDuration ==> GetCachedVideos(Some(stored), parse, now) == Some(channels)
  {
  }

  /** The number of videos over all channels. */
  function TotalVideos(channels: seq<Channel>): (n: nat)
    ensures n == 0 || exists k :: 0 <= k < |channels| && |channels[k].videos| > 0
  {
    if |channels| == 0 then 0 else |channels[0].videos| + TotalVideos(channels[1..])
  }

  /** The total is zero exactly when no channel has a video. */
  lemma {:induction false} TotalZeroIff(channels: seq<Channel>)
    ensures TotalVideos(channels) == 0 <==> forall k :: 0 <= k < |channels| ==> |channels[k].videos| == 0
    decreases |channels|
  {
    if |channels| > 0 {
      TotalZeroIff(channels[1..]);
      assert forall k :: 1 <= k < |channels| ==> channels[k] == channels[1..][k - 1];
    }
  }

  predicate HasVideos(c: Channel) {
    |c.videos| > 0
  }

  datatype View = LoadingView | Nothing | ChannelList(channels: seq<Channel>)

  /** The component's output: a loading notice, nothing, or the channels
      that have videos. */
  function Render(loading: bool, channels: seq<Channel>): (v: View)
    ensures v == LoadingView <==> loading
    ensures !loading && v == Nothing <==> !loading && forall k :: 0 <= k < |channels| ==> !HasVideos(channels[k])
    ensures v.ChannelList? ==>
      && |v.channels| > 0
      && (forall k :: 0 <= k < |v.channels| ==> HasVideos(v.channels[k]) && v.channels[k] in channels)
      && forall k :: 0 <= k < |channels| && HasVideos(channels[k]) ==> channels[k] in v.channels
  {
    TotalZeroIff(channels);
    if loading then LoadingView
    else if |channels| == 0 then Nothing
    else if TotalVideos(channels) == 0 then Nothing
    else
      var shown := Filter(channels, HasVideos);
      assert |shown| > 0 by {
        var k :| 0 <= k < |channels| && |channels[k].videos| > 0;
        assert channels[k] in shown;
      }
      ChannelList(shown)
  }
}
