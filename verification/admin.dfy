/** packages/backend/admin_routes.js: the admin key gate, the validation of
    an uploaded cookie file and the status summary of a stored one. Reading,
    writing and deleting the file are left to the caller. */
module Admin {
  import opened Wrappers
  import opened Text
  import opened Seqs

  // ---------------------------------------------------------------------------
  // requireAdminKey
  // ---------------------------------------------------------------------------

  datatype Gate = Proceed | Refused(status: int)

  /** The configured secret (`None` when unset) against the `x-admin-key`
      header (`None` when absent). An empty secret counts as unset. */
  function RequireAdminKey(configured: Option<string>, provided: Option<string>): (g: Gate)
    ensures g.Refused? ==> g.status == 500 || g.status == 403
    ensures g == Refused(500) <==> configured.None? || configured.value == ""
    ensures g == Proceed <==> configured.Some? && configured.value != "" && provided == configured
  {
    match configured
    case None => Refused(500)
    case Some(key) =>
      if key == "" then Refused(500)
      else if provided != Some(key) then Refused(403)
      else Proceed
  }

  // ---------------------------------------------------------------------------
  // Cookie lines
  // ---------------------------------------------------------------------------

  /** A line that holds a cookie: not blank and not a `#` comment. */
  predicate IsCookieLine(line: string) {
    Trim(line) != "" && !StartsWith(line, "#")
  }

  /** The file's cookie lines, in order. */
  function CookieLines(content: string): (lines: seq<string>)
    ensures forall i :: 0 <= i < |lines| ==> IsCookieLine(lines[i]) && '\n' !in lines[i]
    ensures forall i :: 0 <= i < |Split(content, '\n')| && IsCookieLine(Split(content, '\n')[i]) ==>
      Split(content, '\n')[i] in lines
  {
    var parts := Split(content, '\n');
    var lines := Filter(parts, IsCookieLine);
    assert forall i :: 0 <= i < |lines| ==> lines[i] in parts;
    lines
  }

  /** Number of cookie lines, counted directly over the lines. */
  function CountCookieLines(parts: seq<string>): (n: nat)
    ensures n <= |parts|
    ensures n == 0 <==> forall k :: 0 <= k < |parts| ==> !IsCookieLine(parts[k])
    ensures n == |parts| <==> forall k :: 0 <= k < |parts| ==> IsCookieLine(parts[k])
  {
    if |parts| == 0 then 0
    else (if IsCookieLine(parts[0]) then 1 else 0) + CountCookieLines(parts[1..])
  }

  lemma {:induction false} FilterCount(parts: seq<string>)
    ensures |Filter(parts, IsCookieLine)| == CountCookieLines(parts)
    decreases |parts|
  {
    if |parts| > 0 {
      FilterCount(parts[1..]);
    }
  }

  datatype UpdateReply = CookiesUpdated(cookieCount: nat) | CookiesRejected(status: int)

  /** `POST /update-cookies` after the gate. A missing body field is the empty
      string. */
  function UpdateCookies(cookies: string): (r: UpdateReply)
    ensures r.CookiesRejected? ==> r.status == 400
    ensures r.CookiesRejected? <==> cookies == "" || CountCookieLines(Split(cookies, '\n')) == 0
    ensures r.CookiesUpdated? ==> r.cookieCount == CountCookieLines(Split(cookies, '\n')) > 0
  {
    FilterCount(Split(cookies, '\n'));
    if cookies == "" then CookiesRejected(400)
    else
      var lines := CookieLines(cookies);
      if |lines| == 0 then CookiesRejected(400) else CookiesUpdated(|lines|)
  }

  /** A file made only of comments and blank lines is refused. */
  lemma CommentsOnlyRejected(content: string)
    requires forall k :: 0 <= k < |Split(content, '\n')| ==> !IsCookieLine(Split(content, '\n')[k])
    ensures UpdateCookies(content) == CookiesRejected(400)
  {
  }

  // ---------------------------------------------------------------------------
  // Quality score and preview
  // ---------------------------------------------------------------------------

  /** 40 for a secure cookie, 30 for the visitor cookie, 30 for the login
      cookie. */
  function QualityScore(hasSecure: bool, hasVisitor: bool, hasLogin: bool): (score: nat)
    ensures score in {0, 30, 40, 60, 70, 100}
    ensures score <= 100
    ensures score == 100 <==> hasSecure && hasVisitor && hasLogin
    ensures score == 0 <==> !hasSecure && !hasVisitor && !hasLogin
    ensures hasSecure <==> score in {40, 70, 100}
  {
    (if hasSecure then 40 else 0) + (if hasVisitor then 30 else 0) + (if hasLogin then 30 else 0)
  }

  const PreviewLines: nat := 3
  const PreviewWidth: nat := 50

  /** One preview line: domain and cookie name of a tab-separated record,
      else the line's first 50 characters. */
  function PreviewLine(line: string): (p: string)
    ensures |Split(line, '\t')| >= 6 ==>
      p == Split(line, '\t')[0] + " - " + Split(line, '\t')[5] + " (expires)"
    ensures |Split(line, '\t')| < 6 ==> |p| <= PreviewWidth && |p| <= |line| && p == line[..|p|]
    ensures |Split(line, '\t')| < 6 ==> |p| == if |line| < PreviewWidth then |line| else PreviewWidth
  {
    var fields := Split(line, '\t');
    if |fields| >= 6 then fields[0] + " - " + fields[5] + " (expires)" else Take(line, PreviewWidth)
  }

  /** A line without tabs previews as its beginning. */
  lemma UntabbedPreview(line: string)
    requires '\t' !in line
    ensures PreviewLine(line) == Take(line, PreviewWidth)
  {
    SplitWithout(line, '\t');
  }

  /** The preview of the first three cookie lines. */
  function Preview(lines: seq<string>): (ps: seq<string>)
    ensures |ps| == if |lines| < PreviewLines then |lines| else PreviewLines
    ensures forall i :: 0 <= i < |ps| ==> ps[i] == PreviewLine(lines[i])
  {
    var shown := Take(lines, PreviewLines);
    seq(|shown|, i requires 0 <= i < |shown| => PreviewLine(shown[i]))
  }

  datatype Status =
    | Missing
    | Present(cookieCount: nat, hasSecure: bool, hasVisitor: bool, hasLogin: bool, score: nat, preview: seq<string>)

  /** `GET /cookies-status` after the gate, given the file's content or
      `None` when there is no file. */
  function CookiesStatus(content: Option<string>): (st: Status)
    ensures st.Missing? <==> content.None?
    ensures st.Present? ==> st.cookieCount == CountCookieLines(Split(content.value, '\n'))
    ensures st.Present? ==> st.score == QualityScore(st.hasSecure, st.hasVisitor, st.hasLogin)
    ensures st.Present? ==> |st.preview| <= PreviewLines && |st.preview| <= st.cookieCount
    ensures st.Present? ==>
      && st.hasSecure == Contains(content.value, "__Secure-")
      && st.hasVisitor == Contains(content.value, "VISITOR_INFO1_LIVE")
      && st.hasLogin == Contains(content.value, "LOGIN_INFO")
    ensures st.Present? ==> st.preview == Preview(CookieLines(content.value))
  {
    match content
    case None => Missing
    case Some(c) =>
      var lines := CookieLines(c);
      FilterCount(Split(c, '\n'));
      var secure, visitor, login := Contains(c, "__Secure-"), Contains(c, "VISITOR_INFO1_LIVE"), Contains(c, "LOGIN_INFO");
      Present(|lines|, secure, visitor, login, QualityScore(secure, visitor, login), Preview(lines))
  }

  /** The status counts the same lines the upload accepted. */
  lemma StatusCountsUploadedLines(cookies: string)
    requires UpdateCookies(cookies).CookiesUpdated?
    ensures CookiesStatus(Some(cookies)).cookieCount == UpdateCookies(cookies).cookieCount
  {
  }
}
