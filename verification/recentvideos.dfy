/** The recently opened videos: `addRecentVideo`/`getRecentVideos` of
    packages/frontend/src/components/RecentVideos.jsx (stored in the browser)
    and `addToRecentVideos` of packages/backend/server.js (kept in memory).
    `Date.now()` is the parameter `now`; the browser store and `JSON.parse`
    are parameters too. */
module RecentVideos {
  import opened Wrappers
  import opened Seqs

  const MaxRecentVideos: nat := 5

  datatype RecentVideo = RecentVideo(videoId: string, title: string, timestamp: int)

  predicate UniqueIds(vs: seq<RecentVideo>) {
    forall i, j :: 0 <= i < j < |vs| ==> vs[i].videoId != vs[j].videoId
  }

  /** `videos.filter(v => v.videoId !== videoId)`. */
  function WithoutId(vs: seq<RecentVideo>, id: string): (r: seq<RecentVideo>)
    ensures |r| <= |vs|
    ensures forall i :: 0 <= i < |r| ==> r[i].videoId != id && r[i] in vs
    ensures forall i :: 0 <= i < |vs| && vs[i].videoId != id ==> vs[i] in r
  {
    Filter(vs, (v: RecentVideo) => v.videoId != id)
  }

  /** `addRecentVideo`: drop every entry of the id, put the new one first, keep
      five. */
  function AddRecentVideo(vs: seq<RecentVideo>, id: string, title: string, now: int): (r: seq<RecentVideo>)
    ensures 1 <= |r| <= MaxRecentVideos
    ensures r[0] == RecentVideo(id, title, now)
    ensures forall i :: 1 <= i < |r| ==> r[i].videoId != id
    ensures r[1..] == Take(WithoutId(vs, id), MaxRecentVideos - 1)
  {
    var filtered := [RecentVideo(id, title, now)] + WithoutId(vs, id);
    var r := Take(filtered, MaxRecentVideos);
    assert r[1..] == filtered[1..|r|];
    r
  }

  /** Adding keeps the ids unique. */
  lemma AddKeepsUnique(vs: seq<RecentVideo>, id: string, title: string, now: int)
    requires UniqueIds(vs)
    ensures UniqueIds(AddRecentVideo(vs, id, title, now))
  {
    var r := AddRecentVideo(vs, id, title, now);
    var w := WithoutId(vs, id);
    FilterKeepsUnique(vs, id);
    forall i, j | 0 <= i < j < |r| ensures r[i].videoId != r[j].videoId {
      if i > 0 {
        assert r[i] == w[i - 1] && r[j] == w[j - 1];
      }
    }
  }

  lemma {:induction false} FilterKeepsUnique(vs: seq<RecentVideo>, id: string)
    requires UniqueIds(vs)
    ensures UniqueIds(WithoutId(vs, id))
    decreases |vs|
  {
    if |vs| > 0 {
      FilterKeepsUnique(vs[1..], id);
      var rest := WithoutId(vs[1..], id);
      if vs[0].videoId != id {
        assert WithoutId(vs, id) == [vs[0]] + rest;
        forall k | 0 <= k < |rest| ensures rest[k].videoId != vs[0].videoId {
          var m :| 0 <= m < |vs[1..]| && vs[1..][m] == rest[k];
          assert vs[m + 1] == rest[k];
        }
      } else {
        assert WithoutId(vs, id) == rest;
      }
    }
  }

  /** Adding the same video twice in a row leaves one entry for it, first. */
  lemma AddTwice(vs: seq<RecentVideo>, id: string, t1: string, n1: int, t2: string, n2: int)
    ensures var r := AddRecentVideo(AddRecentVideo(vs, id, t1, n1), id, t2, n2);
      r[0] == RecentVideo(id, t2, n2) && forall i :: 1 <= i < |r| ==> r[i].videoId != id
  {
  }

  /** `getRecentVideos`: nothing stored (or the empty string) and unreadable
      data both give the empty list. */
  function GetRecentVideos(stored: Option<string>, parse: string -> Option<seq<RecentVideo>>): (r: seq<RecentVideo>)
    ensures stored.None? ==> r == []
    ensures stored.Some? && stored.value != "" && parse(stored.value).Some? ==> r == parse(stored.value).value
    ensures stored.Some? && parse(stored.value).None? ==> r == []
  {
    match stored
    case None => []
    case Some(data) =>
      if data == "" then []
      else match parse(data)
        case Some(vs) => vs
        case None => []
  }

  // ---------------------------------------------------------------------------
  // The in-memory list of the backend
  // ---------------------------------------------------------------------------

  /** `findIndex` + `splice(index, 1)`: only the first entry of the id goes. */
  function RemoveFirst(vs: seq<RecentVideo>, id: string): (r: seq<RecentVideo>)
    ensures (forall i :: 0 <= i < |vs| ==> vs[i].videoId != id) ==> r == vs
    ensures (exists i :: 0 <= i < |vs| && vs[i].videoId == id) ==> |r| == |vs| - 1
  {
    if |vs| == 0 then []
    else if vs[0].videoId == id then vs[1..]
    else [vs[0]] + RemoveFirst(vs[1..], id)
  }

  /** `addToRecentVideos`: remove the first entry of the id, put the new one
      first, and drop the last entry when there are more than five. */
  function AddToRecentVideos(vs: seq<RecentVideo>, id: string, title: string, now: int): (r: seq<RecentVideo>)
    ensures |r| >= 1 && r[0] == RecentVideo(id, title, now)
    ensures |vs| <= MaxRecentVideos ==> |r| <= MaxRecentVideos
  {
    var added := [RecentVideo(id, title, now)] + RemoveFirst(vs, id);
    if |added| > MaxRecentVideos then added[..|added| - 1] else added
  }

  lemma {:induction false} RemoveFirstOfUnique(vs: seq<RecentVideo>, id: string)
    requires UniqueIds(vs)
    ensures RemoveFirst(vs, id) == WithoutId(vs, id)
    decreases |vs|
  {
    if |vs| > 0 {
      RemoveFirstOfUnique(vs[1..], id);
      if vs[0].videoId == id {
        assert forall i :: 0 <= i < |vs[1..]| ==> vs[1..][i].videoId != id;
        FilterNone(vs[1..], id);
      }
    }
  }

  lemma {:induction false} FilterNone(vs: seq<RecentVideo>, id: string)
    requires forall i :: 0 <= i < |vs| ==> vs[i].videoId != id
    ensures WithoutId(vs, id) == vs
    decreases |vs|
  {
    if |vs| > 0 {
      FilterNone(vs[1..], id);
    }
  }

  /** On a list the browser itself produced (unique ids, at most five) the
      backend and browser updates agree. */
  lemma BackendAgreesWithBrowser(vs: seq<RecentVideo>, id: string, title: string, now: int)
    requires UniqueIds(vs) && |vs| <= MaxRecentVideos
    ensures AddToRecentVideos(vs, id, title, now) == AddRecentVideo(vs, id, title, now)
  {
    RemoveFirstOfUnique(vs, id);
  }
}
