/** `parseAIResponse` (packages/backend/server.js): four attempts at reading
    the model's reply as JSON. `JSON.parse` is not modelled; it is the oracle
    `parse`, which yields `None` where the source catches an exception. */
module AiResponse {
  import opened Wrappers
  import opened Text

  const JsonFence: string := "```json"
  const Fence: string := "```"

  /** A global replace of `marker` followed by `\s` repeated, with the empty
      string: every occurrence of `marker`, with the whitespace that follows
      it, removed in one left-to-right scan. */
  function StripMarker(s: string, marker: string): (r: string)
    requires |marker| > 0
    ensures |r| <= |s|
    ensures forall c :: c in r ==> c in s
    decreases |s|
  {
    if |s| == 0 then ""
    else if StartsWith(s, marker) then
      var rest := DropSpaces(s[|marker|..]);
      assert forall c :: c in rest ==> c in s;
      StripMarker(rest, marker)
    else [s[0]] + StripMarker(s[1..], marker)
  }

  /** The second attempt's input: code fences removed. */
  function StripFences(s: string): (r: string)
    ensures |r| <= |s|
    ensures forall c :: c in r ==> c in s
  {
    StripMarker(StripMarker(s, JsonFence), Fence)
  }

  /** Text without a backtick has no fence to remove. */
  lemma {:induction false} StripMarkerWithout(s: string, marker: string)
    requires |marker| > 0 && marker[0] !in s
    ensures StripMarker(s, marker) == s
    decreases |s|
  {
    if |s| > 0 {
      assert s[0] != marker[0];
      StripMarkerWithout(s[1..], marker);
    }
  }

  lemma StripFencesWithout(s: string)
    requires '`' !in s
    ensures StripFences(s) == s
  {
    StripMarkerWithout(s, JsonFence);
    StripMarkerWithout(s, Fence);
  }

  // ---------------------------------------------------------------------------
  // Attempts 3 and 4
  // ---------------------------------------------------------------------------

  /** `s.match(/\[[\s\S]*\]/)` with the search starting at `p`: the leftmost
      `[` that has a `]` somewhere after it, extended greedily to the last `]`. */
  function BracketSearch(s: string, p: nat): (r: Option<string>)
    requires p <= |s|
    decreases |s| - p
  {
    if p == |s| then None
    else
      var close := LastIndexOfChar(s[p + 1..], ']');
      if s[p] == '[' && close >= 0 then Some(s[p..p + 1 + close + 1])
      else BracketSearch(s, p + 1)
  }

  /** Attempt 3's candidate. */
  function RegexArray(s: string): Option<string> {
    BracketSearch(s, 0)
  }

  /** Attempt 4's candidate: from the first `[` to the last `]`, when the
      last `]` comes after the first `[`. */
  function FirstToLast(s: string): (r: Option<string>)
    ensures r.Some? ==> |r.value| >= 2 && r.value[0] == '[' && r.value[|r.value| - 1] == ']'
  {
    var start := IndexOfChar(s, '[');
    var end := LastIndexOfChar(s, ']');
    if start != -1 && end != -1 && end > start then Some(s[start..end + 1]) else None
  }

  /** Past the last `]` the regex cannot match. */
  lemma {:induction false} SearchPastLastClose(s: string, p: nat)
    requires p <= |s|
    requires forall i :: p < i < |s| ==> s[i] != ']'
    ensures BracketSearch(s, p) == None
    decreases |s| - p
  {
    if p < |s| {
      var t := s[p + 1..];
      assert forall i :: 0 <= i < |t| ==> t[i] == s[p + 1 + i];
      SearchPastLastClose(s, p + 1);
    }
  }

  /** At the first `[` the regex match is the attempt-4 substring. */
  lemma SearchAtOpen(s: string, p: nat)
    requires p < |s| && p == IndexOfChar(s, '[')
    ensures BracketSearch(s, p) == FirstToLast(s)
  {
    var end := LastIndexOfChar(s, ']');
    LastIndexInSuffix(s, p + 1, ']');
    if end <= p {
      SearchPastLastClose(s, p + 1);
    }
  }

  /** The last occurrence in a suffix is the last occurrence in the whole,
      shifted, when it lies in the suffix at all. */
  lemma LastIndexInSuffix(s: string, q: nat, c: char)
    requires q <= |s|
    ensures var last := LastIndexOfChar(s, c);
      LastIndexOfChar(s[q..], c) == if last >= q then last - q else -1
  {
    var t := s[q..];
    var last := LastIndexOfChar(s, c);
    var r := LastIndexOfChar(t, c);
    assert forall i :: 0 <= i < |t| ==> t[i] == s[q + i];
    if r >= 0 {
      assert s[q + r] == c;
    }
    if last >= q {
      assert t[last - q] == c;
    }
  }

  /** Before the first `[` the search only moves on. */
  lemma {:induction false} SearchBeforeOpen(s: string, p: nat)
    requires p <= |s|
    requires IndexOfChar(s, '[') == -1 || p <= IndexOfChar(s, '[')
    ensures BracketSearch(s, p) == FirstToLast(s)
    decreases |s| - p
  {
    var start := IndexOfChar(s, '[');
    if p < |s| {
      if p == start {
        SearchAtOpen(s, p);
      } else {
        assert s[p] != '[';
        SearchBeforeOpen(s, p + 1);
      }
    }
  }

  /** The greedy regex of attempt 3 and the substring of attempt 4 are the
      same candidate. */
  lemma RegexIsFirstToLast(s: string)
    ensures RegexArray(s) == FirstToLast(s)
  {
    SearchBeforeOpen(s, 0);
  }

  // ---------------------------------------------------------------------------
  // The cascade
  // ---------------------------------------------------------------------------

  function ParseAIResponse<V>(content: string, parse: string -> Option<V>): (r: Option<V>)
    ensures parse(content).Some? ==> r == parse(content)
    ensures r.None? ==> parse(content).None? && parse(StripFences(content)).None?
  {
    if parse(content).Some? then parse(content)
    else
      var cleaned := StripFences(content);
      if parse(cleaned).Some? then parse(cleaned)
      else
        var m := RegexArray(cleaned);
        if m.Some? && parse(m.value).Some? then parse(m.value)
        else
          var c := FirstToLast(cleaned);
          if c.Some? && parse(c.value).Some? then parse(c.value)
          else None
  }

  /** Without the fourth attempt the result is the same. */
  function ParseThreeAttempts<V>(content: string, parse: string -> Option<V>): Option<V> {
    if parse(content).Some? then parse(content)
    else if parse(StripFences(content)).Some? then parse(StripFences(content))
    else
      var m := RegexArray(StripFences(content));
      if m.Some? then parse(m.value) else None
  }

  /** Attempt 4 never succeeds where attempt 3 failed. */
  lemma FourthAttemptRedundant<V>(content: string, parse: string -> Option<V>)
    ensures ParseAIResponse(content, parse) == ParseThreeAttempts(content, parse)
  {
    RegexIsFirstToLast(StripFences(content));
  }

  /** `null` is returned only when every attempt fails. */
  lemma NoneOnlyWhenAllFail<V>(content: string, parse: string -> Option<V>)
    ensures ParseAIResponse(content, parse).None? <==>
      && parse(content).None?
      && parse(StripFences(content)).None?
      && (RegexArray(StripFences(content)).Some? ==> parse(RegexArray(StripFences(content)).value).None?)
  {
    RegexIsFirstToLast(StripFences(content));
  }
}
