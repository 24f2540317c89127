/** Character classes and string primitives of JavaScript as the code base uses
    them, restricted to ASCII: `toLowerCase`, `trim`, the regular-expression
    classes `\s` and `\w`, `split`, `startsWith`, `includes`, and decimal
    rendering of numbers. */
module Text {

  // ---------------------------------------------------------------------------
  // Character classes
  // ---------------------------------------------------------------------------

  /** `\s` and the characters `trim` removes (ASCII part). */
  predicate IsSpace(c: char) {
    c == ' ' || c == '\t' || c == '\n' || c == '\r' || c == '\U{000B}' || c == '\U{000C}'
  }

  predicate IsUpper(c: char) { 'A' <= c <= 'Z' }

  predicate IsLowerLetter(c: char) { 'a' <= c <= 'z' }

  predicate IsDigit(c: char) { '0' <= c <= '9' }

  /** `\w`: ASCII letters, digits and the underscore. */
  predicate IsWordChar(c: char) {
    IsUpper(c) || IsLowerLetter(c) || IsDigit(c) || c == '_'
  }

  predicate NoUpper(s: string) {
    forall i :: 0 <= i < |s| ==> !IsUpper(s[i])
  }

  predicate NoSpace(s: string) {
    forall i :: 0 <= i < |s| ==> !IsSpace(s[i])
  }

  // ---------------------------------------------------------------------------
  // toLowerCase
  // ---------------------------------------------------------------------------

  function LowerChar(c: char): (d: char)
    ensures !IsUpper(d)
    ensures !IsUpper(c) ==> d == c
    ensures IsSpace(d) <==> IsSpace(c)
    ensures IsWordChar(d) <==> IsWordChar(c)
  {
    if IsUpper(c) then (c as int + 32) as char else c
  }

  function Lower(s: string): (r: string)
    ensures |r| == |s|
    ensures forall i :: 0 <= i < |s| ==> r[i] == LowerChar(s[i])
    ensures NoUpper(r)
  {
    seq(|s|, i requires 0 <= i < |s| => LowerChar(s[i]))
  }

  lemma LowerOfLower(s: string)
    requires NoUpper(s)
    ensures Lower(s) == s
  {
  }

  // ---------------------------------------------------------------------------
  // trim
  // ---------------------------------------------------------------------------

  /** Number of whitespace characters at the start of `s`. */
  function LeadingSpaces(s: string): (n: nat)
    ensures n <= |s|
    ensures forall i :: 0 <= i < n ==> IsSpace(s[i])
    ensures n < |s| ==> !IsSpace(s[n])
  {
    if |s| > 0 && IsSpace(s[0]) then 1 + LeadingSpaces(s[1..]) else 0
  }

  /** Number of whitespace characters at the end of `s`. */
  function TrailingSpaces(s: string): (n: nat)
    ensures n <= |s|
    ensures forall i :: |s| - n <= i < |s| ==> IsSpace(s[i])
    ensures n < |s| ==> !IsSpace(s[|s| - n - 1])
  {
    if |s| > 0 && IsSpace(s[|s| - 1]) then 1 + TrailingSpaces(s[..|s| - 1]) else 0
  }

  predicate NoEdgeSpace(s: string) {
    |s| == 0 || (!IsSpace(s[0]) && !IsSpace(s[|s| - 1]))
  }

  /** `String.prototype.trim`. */
  function Trim(s: string): (r: string)
    ensures NoEdgeSpace(r)
    ensures |r| <= |s|
    ensures forall c :: c in r ==> c in s
  {
    var t := s[LeadingSpaces(s)..];
    var r := t[..|t| - TrailingSpaces(t)];
    assert forall c :: c in r ==> c in t;
    r
  }

  lemma TrimNoEdge(s: string)
    requires NoEdgeSpace(s)
    ensures Trim(s) == s
  {
  }

  lemma {:induction false} DropLeadingKeepsNonSpace(s: string)
    ensures RemoveSpaces(s[LeadingSpaces(s)..]) == RemoveSpaces(s)
    decreases |s|
  {
    if |s| > 0 && IsSpace(s[0]) {
      var t := s[1..];
      DropLeadingKeepsNonSpace(t);
      assert s[LeadingSpaces(s)..] == t[LeadingSpaces(t)..];
    }
  }

  lemma {:induction false} DropTrailingKeepsNonSpace(s: string)
    ensures RemoveSpaces(s[..|s| - TrailingSpaces(s)]) == RemoveSpaces(s)
    decreases |s|
  {
    if |s| > 0 && IsSpace(s[|s| - 1]) {
      var t := s[..|s| - 1];
      DropTrailingKeepsNonSpace(t);
      assert TrailingSpaces(s) == 1 + TrailingSpaces(t);
      assert s[..|s| - TrailingSpaces(s)] == t[..|t| - TrailingSpaces(t)];
      RemoveSpacesAppend(t, [s[|s| - 1]]);
      assert RemoveSpaces([s[|s| - 1]]) == "";
      assert t + [s[|s| - 1]] == s;
    } else {
      assert s[..|s| - TrailingSpaces(s)] == s;
    }
  }

  /** Trimming only cuts whitespace off the ends: the characters that are not
      whitespace are the same, in the same order. */
  lemma TrimKeepsNonSpace(s: string)
    ensures RemoveSpaces(Trim(s)) == RemoveSpaces(s)
  {
    var t := s[LeadingSpaces(s)..];
    DropLeadingKeepsNonSpace(s);
    DropTrailingKeepsNonSpace(t);
  }

  // ---------------------------------------------------------------------------
  // replace(/\s+/g, ' ')
  // ---------------------------------------------------------------------------

  /** Drops the whitespace run at the start of `s`. */
  function DropSpaces(s: string): (r: string)
    ensures |r| <= |s|
    ensures r == s[LeadingSpaces(s)..]
  {
    if |s| > 0 && IsSpace(s[0]) then DropSpaces(s[1..]) else s
  }

  /** Every whitespace character is a plain space and no two are adjacent. */
  predicate Collapsed(s: string) {
    && (forall i :: 0 <= i < |s| && IsSpace(s[i]) ==> s[i] == ' ')
    && (forall i :: 0 <= i < |s| - 1 ==> !(IsSpace(s[i]) && IsSpace(s[i + 1])))
  }

  /** Replaces every maximal run of whitespace by one space. */
  function Collapse(s: string): (r: string)
    ensures Collapsed(r)
    ensures forall c :: c in r ==> c in s || c == ' '
    ensures |r| <= |s|
    ensures |s| == 0 <==> |r| == 0
    ensures |s| > 0 && IsSpace(s[0]) ==> r[0] == ' '
    ensures |s| > 0 && !IsSpace(s[0]) ==> r[0] == s[0]
    decreases |s|
  {
    if |s| == 0 then ""
    else if IsSpace(s[0]) then
      var rest := DropSpaces(s[1..]);
      var r' := Collapse(rest);
      DroppedSpacesFromSource(s);
      " " + r'
    else
      var r' := Collapse(s[1..]);
      [s[0]] + r'
  }

  /** What is left after the first character's run of whitespace comes from
      `s` and starts with no whitespace. */
  lemma DroppedSpacesFromSource(s: string)
    requires |s| > 0
    ensures var rest := DropSpaces(s[1..]);
      && (|rest| == 0 || !IsSpace(rest[0]))
      && forall c :: c in rest ==> c in s
  {
    var rest := DropSpaces(s[1..]);
    assert forall i :: 0 <= i < |rest| ==> rest[i] == s[1 + LeadingSpaces(s[1..]) + i];
  }

  lemma CollapseOfCollapsed(s: string)
    requires Collapsed(s)
    ensures Collapse(s) == s
    decreases |s|
  {
    if |s| > 0 {
      if IsSpace(s[0]) {
        assert |s| > 1 ==> !IsSpace(s[1]);
        assert DropSpaces(s[1..]) == s[1..];
      }
      CollapseOfCollapsed(s[1..]);
    }
  }

  /** Collapsing passes over a leading stretch without whitespace. */
  lemma {:induction false} CollapseNoSpacePrefix(a: string, t: string)
    requires NoSpace(a)
    ensures Collapse(a + t) == a + Collapse(t)
    decreases |a|
  {
    if |a| > 0 {
      var s := a + t;
      assert s[0] == a[0] && !IsSpace(s[0]);
      assert s[1..] == a[1..] + t;
      CollapseNoSpacePrefix(a[1..], t);
      assert Collapse(s) == [a[0]] + Collapse(a[1..] + t);
      assert [a[0]] + (a[1..] + Collapse(t)) == a + Collapse(t);
    } else {
      assert a + t == t;
    }
  }

  /** Collapsing never adds or loses a character that is not whitespace. */
  lemma {:induction false} CollapseKeepsNonSpace(s: string)
    ensures RemoveSpaces(Collapse(s)) == RemoveSpaces(s)
    decreases |s|
  {
    if |s| > 0 {
      var t := s[1..];
      if IsSpace(s[0]) {
        var u := DropSpaces(t);
        CollapseKeepsNonSpace(u);
        DropLeadingKeepsNonSpace(t);
        var c := Collapse(u);
        assert Collapse(s) == " " + c;
        assert (" " + c)[1..] == c;
      } else {
        CollapseKeepsNonSpace(t);
        var c := Collapse(t);
        assert Collapse(s) == [s[0]] + c;
        assert ([s[0]] + c)[1..] == c;
      }
    }
  }

  lemma CollapsedSlice(s: string, i: nat, j: nat)
    requires Collapsed(s)
    requires i <= j <= |s|
    ensures Collapsed(s[i..j])
  {
    var t := s[i..j];
    forall k | 0 <= k < |t| - 1
      ensures !(IsSpace(t[k]) && IsSpace(t[k + 1]))
    {
      assert t[k] == s[i + k] && t[k + 1] == s[i + k + 1];
    }
  }

  lemma TrimCollapsed(s: string)
    requires Collapsed(s)
    ensures Collapsed(Trim(s))
  {
    var t := s[LeadingSpaces(s)..];
    CollapsedSlice(s, LeadingSpaces(s), |s|);
    CollapsedSlice(t, 0, |t| - TrailingSpaces(t));
  }

  // ---------------------------------------------------------------------------
  // Characters other than whitespace
  // ---------------------------------------------------------------------------

  /** The characters of `s` that are not whitespace, in order. */
  function RemoveSpaces(s: string): (r: string)
    ensures NoSpace(r)
    ensures |r| <= |s|
    decreases |s|
  {
    if |s| == 0 then ""
    else if IsSpace(s[0]) then RemoveSpaces(s[1..])
    else [s[0]] + RemoveSpaces(s[1..])
  }

  lemma RemoveSpacesAppend(a: string, b: string)
    ensures RemoveSpaces(a + b) == RemoveSpaces(a) + RemoveSpaces(b)
    decreases |a|
  {
    if |a| > 0 {
      assert (a + b)[1..] == a[1..] + b;
      RemoveSpacesAppend(a[1..], b);
    } else {
      assert a + b == b;
    }
  }

  lemma RemoveSpacesOfSpaces(s: string)
    requires forall i :: 0 <= i < |s| ==> IsSpace(s[i])
    ensures RemoveSpaces(s) == ""
    decreases |s|
  {
    if |s| > 0 {
      RemoveSpacesOfSpaces(s[1..]);
    }
  }

  lemma RemoveSpacesOfNoSpace(s: string)
    requires NoSpace(s)
    ensures RemoveSpaces(s) == s
    decreases |s|
  {
    if |s| > 0 {
      RemoveSpacesOfNoSpace(s[1..]);
    }
  }

  // ---------------------------------------------------------------------------
  // split(/\s+/) without the empty pieces
  // ---------------------------------------------------------------------------

  /** Length of the run of non-whitespace characters at the start of `s`. */
  function WordLength(s: string): (n: nat)
    ensures n <= |s|
    ensures forall i :: 0 <= i < n ==> !IsSpace(s[i])
    ensures n < |s| ==> IsSpace(s[n])
  {
    if |s| > 0 && !IsSpace(s[0]) then 1 + WordLength(s[1..]) else 0
  }

  function Concat(ws: seq<string>): string {
    if |ws| == 0 then "" else ws[0] + Concat(ws[1..])
  }

  /** The maximal runs of non-whitespace characters of `s`, in order: what
      `s.split(/\s+/).filter(w => w.length > 0)` returns. */
  function Words(s: string): (ws: seq<string>)
    ensures forall k :: 0 <= k < |ws| ==> |ws[k]| > 0 && NoSpace(ws[k])
    decreases |s|
  {
    if |s| == 0 then []
    else if IsSpace(s[0]) then Words(s[1..])
    else
      var n := WordLength(s);
      [s[..n]] + Words(s[n..])
  }

  /** Splitting at whitespace neither loses nor invents a non-whitespace
      character, and keeps them in order. */
  lemma {:induction false} WordsConcat(s: string)
    ensures Concat(Words(s)) == RemoveSpaces(s)
    decreases |s|
  {
    if |s| > 0 {
      if IsSpace(s[0]) {
        WordsConcat(s[1..]);
      } else {
        var n := WordLength(s);
        WordsConcat(s[n..]);
        assert s == s[..n] + s[n..];
        RemoveSpacesAppend(s[..n], s[n..]);
        RemoveSpacesOfNoSpace(s[..n]);
        assert ([s[..n]] + Words(s[n..]))[1..] == Words(s[n..]);
      }
    }
  }

  /** Every character of a word occurs in the input. */
  lemma WordsChars(s: string, k: nat, i: nat)
    requires k < |Words(s)| && i < |Words(s)[k]|
    ensures Words(s)[k][i] in s
    decreases |s|
  {
    if IsSpace(s[0]) {
      WordsChars(s[1..], k, i);
    } else if k > 0 {
      var n := WordLength(s);
      assert Words(s)[k] == Words(s[n..])[k - 1];
      WordsChars(s[n..], k - 1, i);
    }
  }

  // ---------------------------------------------------------------------------
  // split by a single character, and the inverse join
  // ---------------------------------------------------------------------------

  /** `s.split(sep)` for a one-character separator: always at least one piece. */
  function Split(s: string, sep: char): (parts: seq<string>)
    ensures |parts| >= 1
    ensures forall k :: 0 <= k < |parts| ==> sep !in parts[k]
    decreases |s|
  {
    if |s| == 0 then [""]
    else if s[0] == sep then [""] + Split(s[1..], sep)
    else
      var rest := Split(s[1..], sep);
      [[s[0]] + rest[0]] + rest[1..]
  }

  function Join(parts: seq<string>, sep: char): string
    requires |parts| >= 1
  {
    if |parts| == 1 then parts[0] else parts[0] + [sep] + Join(parts[1..], sep)
  }

  /** The pieces are made of characters of the input. */
  lemma {:induction false} SplitChars(s: string, sep: char)
    ensures forall k, i :: 0 <= k < |Split(s, sep)| && 0 <= i < |Split(s, sep)[k]| ==> Split(s, sep)[k][i] in s
    decreases |s|
  {
    if |s| > 0 {
      SplitChars(s[1..], sep);
      var parts := Split(s, sep);
      var rest := Split(s[1..], sep);
      forall k, i | 0 <= k < |parts| && 0 <= i < |parts[k]| ensures parts[k][i] in s {
        if s[0] == sep {
          assert parts[k] == rest[k - 1];
        } else if k == 0 {
          if i > 0 {
            assert parts[0][i] == rest[0][i - 1];
          }
        } else {
          assert parts[k] == rest[k];
        }
      }
    }
  }

  /** Without the separator there is one piece, the input. */
  lemma {:induction false} SplitWithout(s: string, sep: char)
    requires sep !in s
    ensures Split(s, sep) == [s]
    decreases |s|
  {
    if |s| > 0 {
      SplitWithout(s[1..], sep);
      assert s == [s[0]] + s[1..];
    }
  }

  /** Joining the pieces with the separator gives back the input. */
  lemma {:induction false} JoinSplit(s: string, sep: char)
    ensures Join(Split(s, sep), sep) == s
    decreases |s|
  {
    if |s| > 0 {
      JoinSplit(s[1..], sep);
      var rest := Split(s[1..], sep);
      if s[0] != sep {
        if |rest| > 1 {
          assert ([[s[0]] + rest[0]] + rest[1..])[1..] == rest[1..];
        }
      } else {
        assert ([""] + rest)[1..] == rest;
      }
    }
  }

  // ---------------------------------------------------------------------------
  // startsWith, includes, indexOf
  // ---------------------------------------------------------------------------

  predicate StartsWith(s: string, p: string) {
    |p| <= |s| && s[..|p|] == p
  }

  predicate EndsWith(s: string, p: string) {
    |p| <= |s| && s[|s| - |p|..] == p
  }

  /** `s.includes(p)`. */
  predicate Contains(s: string, p: string)
    decreases |s|
  {
    StartsWith(s, p) || (|s| > 0 && Contains(s[1..], p))
  }

  lemma ContainsAppend(a: string, b: string, p: string)
    requires Contains(b, p)
    ensures Contains(a + b, p)
    decreases |a|
  {
    if |a| > 0 {
      assert (a + b)[1..] == a[1..] + b;
      ContainsAppend(a[1..], b, p);
    } else {
      assert a + b == b;
    }
  }

  lemma ContainsPrefix(s: string, p: string)
    requires StartsWith(s, p)
    ensures Contains(s, p)
  {
  }

  /** An occurrence at position `k`. */
  lemma ContainsAt(s: string, p: string, k: nat)
    requires k <= |s| && StartsWith(s[k..], p)
    ensures Contains(s, p)
  {
    assert s == s[..k] + s[k..];
    ContainsAppend(s[..k], s[k..], p);
  }

  /** Text added after an occurrence does not remove it. */
  lemma {:induction false} ContainsExtend(a: string, x: string, p: string)
    requires Contains(a, p)
    ensures Contains(a + x, p)
    decreases |a|
  {
    if !StartsWith(a, p) {
      assert (a + x)[1..] == a[1..] + x;
      ContainsExtend(a[1..], x, p);
    } else {
      assert (a + x)[..|p|] == a[..|p|];
    }
  }

  /** What occurs in an occurrence occurs in the whole. */
  lemma {:induction false} ContainsWithin(s: string, a: string, p: string)
    requires Contains(s, a) && Contains(a, p)
    ensures Contains(s, p)
    decreases |s|
  {
    if StartsWith(s, a) {
      assert s == a + s[|a|..];
      ContainsExtend(a, s[|a|..], p);
    } else {
      ContainsWithin(s[1..], a, p);
    }
  }

  /** `s.indexOf(p)`: the first position where `p` occurs, or -1. */
  function IndexOf(s: string, p: string): (r: int)
    ensures -1 <= r <= |s|
    ensures r >= 0 ==> StartsWith(s[r..], p)
    ensures r >= 0 ==> forall i :: 0 <= i < r ==> !StartsWith(s[i..], p)
    ensures r == -1 ==> forall i :: 0 <= i <= |s| ==> !StartsWith(s[i..], p)
    decreases |s|
  {
    if StartsWith(s, p) then 0
    else if |s| == 0 then -1
    else
      var r := IndexOf(s[1..], p);
      if r == -1 then
        NoMatchAfterFirst(s, p);
        -1
      else
        MatchAfterFirst(s, p, r);
        r + 1
  }

  /** No match in `s[1..]` and none at the start: no match in `s`. */
  lemma NoMatchAfterFirst(s: string, p: string)
    requires |s| > 0 && !StartsWith(s, p)
    requires forall i :: 0 <= i <= |s[1..]| ==> !StartsWith(s[1..][i..], p)
    ensures forall i :: 0 <= i <= |s| ==> !StartsWith(s[i..], p)
  {
    forall i | 1 <= i <= |s| ensures !StartsWith(s[i..], p) {
      assert s[i..] == s[1..][i - 1..];
    }
  }

  /** The first match in `s[1..]`, when there is none at the start, is the
      first match in `s`, one position later. */
  lemma MatchAfterFirst(s: string, p: string, r: nat)
    requires |s| > 0 && !StartsWith(s, p) && r <= |s[1..]|
    requires StartsWith(s[1..][r..], p)
    requires forall i :: 0 <= i < r ==> !StartsWith(s[1..][i..], p)
    ensures StartsWith(s[r + 1..], p)
    ensures forall i :: 0 <= i < r + 1 ==> !StartsWith(s[i..], p)
  {
    assert s[r + 1..] == s[1..][r..];
    forall i | 1 <= i < r + 1 ensures !StartsWith(s[i..], p) {
      assert s[i..] == s[1..][i - 1..];
    }
  }

  /** `s.indexOf(c)` for a single character. */
  function IndexOfChar(s: string, c: char): (r: int)
    ensures -1 <= r < |s|
    ensures r >= 0 ==> s[r] == c
    ensures forall i :: 0 <= i < |s| && (r == -1 || i < r) ==> s[i] != c
    decreases |s|
  {
    if |s| == 0 then -1
    else if s[0] == c then 0
    else
      var r := IndexOfChar(s[1..], c);
      if r == -1 then -1 else r + 1
  }

  /** `s.lastIndexOf(c)` for a single character. */
  function LastIndexOfChar(s: string, c: char): (r: int)
    ensures -1 <= r < |s|
    ensures r >= 0 ==> s[r] == c
    ensures forall i :: r < i < |s| ==> s[i] != c
    decreases |s|
  {
    if |s| == 0 then -1
    else if s[|s| - 1] == c then |s| - 1
    else LastIndexOfChar(s[..|s| - 1], c)
  }

  // ---------------------------------------------------------------------------
  // Decimal rendering of natural numbers
  // ---------------------------------------------------------------------------

  function DigitChar(d: nat): (c: char)
    requires d < 10
    ensures IsDigit(c)
  {
    ('0' as int + d) as char
  }

  function DigitValue(c: char): (d: nat)
    requires IsDigit(c)
    ensures d < 10
    ensures DigitChar(d) == c
  {
    c as int - '0' as int
  }

  predicate AllDigits(s: string) {
    forall i :: 0 <= i < |s| ==> IsDigit(s[i])
  }

  /** `n.toString()` for a natural number. */
  function NatToString(n: nat): (s: string)
    ensures |s| > 0 && AllDigits(s)
    ensures n < 10 <==> |s| == 1
    decreases n
  {
    if n < 10 then [DigitChar(n)] else NatToString(n / 10) + [DigitChar(n % 10)]
  }

  /** Reads a string of decimal digits back as a number. */
  function ParseNat(s: string): nat
    requires AllDigits(s)
    decreases |s|
  {
    if |s| == 0 then 0 else 10 * ParseNat(s[..|s| - 1]) + DigitValue(s[|s| - 1])
  }

  lemma DigitRoundTrip(d: nat)
    requires d < 10
    ensures DigitValue(DigitChar(d)) == d
  {
  }

  /** Reading back the decimal rendering of a number gives the number. */
  lemma {:induction false} ParseNatToString(n: nat)
    ensures ParseNat(NatToString(n)) == n
    decreases n
  {
    var s := NatToString(n);
    if n < 10 {
      DigitRoundTrip(n);
    } else {
      ParseNatToString(n / 10);
      DigitRoundTrip(n % 10);
      assert s[..|s| - 1] == NatToString(n / 10);
    }
  }
}
