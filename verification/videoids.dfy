/** `extractVideoId`, identical in packages/backend/server.js and
    server/server.js. Two patterns are tried in order: an unanchored search
    for one of three URL prefixes followed by the longest run of characters
    other than `&`, `?`, `#` and newline, then a whole-string match of eleven
    `[A-Za-z0-9_-]` characters. */
module VideoIds {
  import opened Wrappers
  import opened Text

  /** The alternatives of the first pattern, in the order the regex tries them. */
  const Prefixes: seq<string> := ["youtube.com/watch?v=", "youtu.be/", "youtube.com/embed/"]

  /** `[^&\n?#]`. */
  predicate IsIdChar(c: char) {
    c != '&' && c != '\n' && c != '?' && c != '#'
  }

  /** `[a-zA-Z0-9_-]`. */
  predicate IsBareIdChar(c: char) {
    IsUpper(c) || IsLowerLetter(c) || IsDigit(c) || c == '_' || c == '-'
  }

  /** `^[a-zA-Z0-9_-]{11}$`. */
  predicate IsBareId(s: string) {
    |s| == 11 && forall i :: 0 <= i < |s| ==> IsBareIdChar(s[i])
  }

  /** Length of the longest prefix of `s` made of id characters. */
  function IdRun(s: string): (n: nat)
    ensures n <= |s|
    ensures forall i :: 0 <= i < n ==> IsIdChar(s[i])
    ensures n < |s| ==> !IsIdChar(s[n])
  {
    if |s| == 0 || !IsIdChar(s[0]) then 0 else 1 + IdRun(s[1..])
  }

  /** Alternative `a` of the first pattern matches at the start of `s`. */
  predicate AltMatchesAt(s: string, a: nat)
    requires a < |Prefixes|
  {
    StartsWith(s, Prefixes[a]) && |Prefixes[a]| < |s| && IsIdChar(s[|Prefixes[a]|])
  }

  /** The capture of the first alternative from `a` on that matches at the
      start of `s`. */
  function MatchHere(s: string, a: nat): (r: Option<string>)
    requires a <= |Prefixes|
    ensures r.Some? <==> exists b :: a <= b < |Prefixes| && AltMatchesAt(s, b)
    decreases |Prefixes| - a
  {
    if a == |Prefixes| then None
    else if AltMatchesAt(s, a) then
      var rest := s[|Prefixes[a]|..];
      Some(rest[..IdRun(rest)])
    else MatchHere(s, a + 1)
  }

  /** The leftmost match of the first pattern. */
  function Search(s: string): (r: Option<string>)
    decreases |s|
  {
    if MatchHere(s, 0).Some? then MatchHere(s, 0)
    else if |s| == 0 then None
    else Search(s[1..])
  }

  /** The first pattern matches somewhere in `url`. */
  predicate Pattern1Matches(url: string) {
    exists p, a :: 0 <= p <= |url| && 0 <= a < |Prefixes| && AltMatchesAt(url[p..], a)
  }

  function ExtractVideoId(url: string): (r: Option<string>)
    ensures r.Some? ==> |r.value| > 0 && forall i :: 0 <= i < |r.value| ==> IsIdChar(r.value[i])
    ensures r.Some? ==> Contains(url, r.value)
    ensures r.None? <==> !Pattern1Matches(url) && !IsBareId(url)
  {
    SearchFound(url);
    SearchNone(url);
    match Search(url)
    case Some(id) => Some(id)
    case None => if IsBareId(url) then Some(url) else None
  }

  // ---------------------------------------------------------------------------
  // Properties of the search
  // ---------------------------------------------------------------------------

  lemma MatchHereFound(s: string, a: nat)
    requires a <= |Prefixes|
    requires MatchHere(s, a).Some?
    ensures var id := MatchHere(s, a).value;
      |id| > 0 && (forall i :: 0 <= i < |id| ==> IsIdChar(id[i])) && Contains(s, id)
    decreases |Prefixes| - a
  {
    if AltMatchesAt(s, a) {
      var k := |Prefixes[a]|;
      var rest := s[k..];
      var id := rest[..IdRun(rest)];
      assert StartsWith(rest, id);
      ContainsPrefix(rest, id);
      assert s == s[..k] + rest;
      ContainsAppend(s[..k], rest, id);
    } else {
      MatchHereFound(s, a + 1);
    }
  }

  /** A capture of the search is non-empty, made of id characters and a
      substring of the input. */
  lemma {:induction false} SearchFound(s: string)
    ensures Search(s).Some? ==>
      var id := Search(s).value;
      |id| > 0 && (forall i :: 0 <= i < |id| ==> IsIdChar(id[i])) && Contains(s, id)
    decreases |s|
  {
    if MatchHere(s, 0).Some? {
      MatchHereFound(s, 0);
    } else if |s| > 0 {
      SearchFound(s[1..]);
      if Search(s).Some? {
        assert s == s[..1] + s[1..];
        ContainsAppend(s[..1], s[1..], Search(s).value);
      }
    }
  }

  /** The search fails exactly when the first pattern matches nowhere. */
  lemma {:induction false} SearchNone(s: string)
    ensures Search(s).None? <==> !Pattern1Matches(s)
    decreases |s|
  {
    if MatchHere(s, 0).Some? {
      var b :| 0 <= b < |Prefixes| && AltMatchesAt(s, b);
      assert s[0..] == s;
      assert AltMatchesAt(s[0..], b);
    } else if |s| > 0 {
      SearchNone(s[1..]);
      if Pattern1Matches(s) {
        var p, a :| 0 <= p <= |s| && 0 <= a < |Prefixes| && AltMatchesAt(s[p..], a);
        if p > 0 {
          assert s[1..][p - 1..] == s[p..];
        }
      }
      if Pattern1Matches(s[1..]) {
        var p, a :| 0 <= p <= |s[1..]| && 0 <= a < |Prefixes| && AltMatchesAt(s[1..][p..], a);
        assert s[1..][p..] == s[p + 1..];
      }
    }
  }

  // ---------------------------------------------------------------------------
  // The two accepted forms
  // ---------------------------------------------------------------------------

  /** Every prefix contains a '.', which no bare id does. */
  lemma NoPrefixInBareId(s: string, p: nat, a: nat)
    requires IsBareId(s) && p <= |s| && a < |Prefixes|
    ensures !AltMatchesAt(s[p..], a)
  {
    var pre := Prefixes[a];
    var d := if a == 1 then 5 else 7;
    assert pre[d] == '.';
  }

  /** A bare eleven-character id is returned as it is. */
  lemma BareIdIsItself(s: string)
    requires IsBareId(s)
    ensures ExtractVideoId(s) == Some(s)
  {
    forall p, a | 0 <= p <= |s| && 0 <= a < |Prefixes| ensures !AltMatchesAt(s[p..], a) {
      NoPrefixInBareId(s, p, a);
    }
    SearchNone(s);
  }

  /** A watch, short or embed URL, with any scheme and host part before the
      prefix that holds no `y` (such as `https://www.`), yields the id that
      follows the prefix, up to the first `&`, `?`, `#` or newline. */
  lemma PrefixedUrl(lead: string, a: nat, id: string, tail: string)
    requires 'y' !in lead
    requires a < |Prefixes|
    requires |id| > 0 && forall i :: 0 <= i < |id| ==> IsIdChar(id[i])
    requires |tail| == 0 || !IsIdChar(tail[0])
    ensures ExtractVideoId(lead + Prefixes[a] + id + tail) == Some(id)
  {
    var rest := Prefixes[a] + id + tail;
    assert lead + Prefixes[a] + id + tail == lead + rest;
    PrefixAtStart(a, id, tail);
    assert Search(rest) == Some(id);
    SearchSkipsLead(lead, rest);
  }

  /** Every prefix starts with `y`, so nothing matches at another character. */
  lemma NoMatchAtOther(s: string)
    requires |s| > 0 && s[0] != 'y'
    ensures MatchHere(s, 0).None?
  {
    forall b | 0 <= b < |Prefixes| ensures !AltMatchesAt(s, b) {
      assert Prefixes[b][0] == 'y';
      if |Prefixes[b]| <= |s| {
        assert s[..|Prefixes[b]|][0] == s[0];
      }
    }
  }

  /** No match can start at a character other than `y`. */
  lemma {:induction false} SearchSkipsLead(lead: string, rest: string)
    requires 'y' !in lead
    ensures Search(lead + rest) == Search(rest)
    decreases |lead|
  {
    if |lead| == 0 {
      assert lead + rest == rest;
    } else {
      var s := lead + rest;
      assert s[0] == lead[0];
      NoMatchAtOther(s);
      assert s[1..] == lead[1..] + rest;
      SearchSkipsLead(lead[1..], rest);
    }
  }

  /** A URL that starts with one of the prefixes yields the id that follows
      it. */
  lemma PrefixAtStart(a: nat, id: string, tail: string)
    requires a < |Prefixes|
    requires |id| > 0 && forall i :: 0 <= i < |id| ==> IsIdChar(id[i])
    requires |tail| == 0 || !IsIdChar(tail[0])
    ensures MatchHere(Prefixes[a] + id + tail, 0) == Some(id)
  {
    var s := Prefixes[a] + (id + tail);
    assert Prefixes[a] + id + tail == s;
    AltCaptures(a, id, tail);
    EarlierPrefixesFail(s, a);
  }

  /** Alternative `a`, tried on its own prefix, captures the id after it. */
  lemma AltCaptures(a: nat, id: string, tail: string)
    requires a < |Prefixes|
    requires |id| > 0 && forall i :: 0 <= i < |id| ==> IsIdChar(id[i])
    requires |tail| == 0 || !IsIdChar(tail[0])
    ensures StartsWith(Prefixes[a] + (id + tail), Prefixes[a])
    ensures MatchHere(Prefixes[a] + (id + tail), a) == Some(id)
  {
    var pre := Prefixes[a];
    var s := pre + (id + tail);
    assert s[..|pre|] == pre;
    assert s[|pre|..] == id + tail;
    IdRunOf(id, tail);
    assert (id + tail)[..|id|] == id;
  }

  /** Only the alternative whose prefix starts the input matches there. */
  lemma EarlierPrefixesFail(s: string, a: nat)
    requires a < |Prefixes| && StartsWith(s, Prefixes[a])
    ensures MatchHere(s, 0) == MatchHere(s, a)
  {
    if a > 0 {
      var d := if a == 1 then 5 else 12;
      assert s[d] == Prefixes[a][d] != Prefixes[0][d];
      assert !StartsWith(s, Prefixes[0]);
    }
    if a > 1 {
      assert s[5] == Prefixes[a][5] != Prefixes[1][5];
      assert !StartsWith(s, Prefixes[1]);
    }
  }

  lemma {:induction false} IdRunOf(id: string, tail: string)
    requires forall i :: 0 <= i < |id| ==> IsIdChar(id[i])
    requires |tail| == 0 || !IsIdChar(tail[0])
    ensures IdRun(id + tail) == |id|
    decreases |id|
  {
    if |id| == 0 {
      assert id + tail == tail;
    } else {
      assert (id + tail)[1..] == id[1..] + tail;
      IdRunOf(id[1..], tail);
    }
  }
}
