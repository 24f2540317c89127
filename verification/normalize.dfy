/** `normalizeSentence` of the backend (packages/backend/server.js): the key
    under which a sentence translation is cached. Lower-cases, trims, collapses
    whitespace, expands the contractions 's 're 'm 've 'll 'd n't into
    space-prefixed words, drops remaining apostrophes, and collapses and trims
    again. The apostrophe class of the source lists the ASCII apostrophe twice,
    so it is the single character '\''. */
module Normalize {
  import opened Text

  const Apostrophe: char := '\''

  /** `pat` occurs at the start of `s` and is followed by a word boundary.
      Every pattern used here ends in a word character, so `\b` holds exactly
      when the next character is not a word character or the text ends. */
  predicate MatchAtWordEnd(s: string, pat: string) {
    StartsWith(s, pat) && (|s| == |pat| || !IsWordChar(s[|pat|]))
  }

  /** `s.replace(/pat\b/g, repl)`: a left-to-right scan replacing each
      non-overlapping match. */
  function ReplaceAtWordEnd(s: string, pat: string, repl: string): (r: string)
    requires |pat| > 0
    ensures forall c :: c in r ==> c in s || c in repl
    decreases |s|
  {
    if |s| == 0 then ""
    else if MatchAtWordEnd(s, pat) then
      var rest := s[|pat|..];
      assert forall c :: c in rest ==> c in s;
      repl + ReplaceAtWordEnd(rest, pat, repl)
    else [s[0]] + ReplaceAtWordEnd(s[1..], pat, repl)
  }

  /** `s.replace(/['']/g, '')`. */
  function RemoveApostrophes(s: string): (r: string)
    ensures Apostrophe !in r
    ensures forall c :: c in r ==> c in s
    decreases |s|
  {
    if |s| == 0 then ""
    else if s[0] == Apostrophe then RemoveApostrophes(s[1..])
    else [s[0]] + RemoveApostrophes(s[1..])
  }

  datatype Contraction = Contraction(pattern: string, expansion: string)

  /** The replacements, in the order the source applies them. */
  const Contractions: seq<Contraction> := [
    Contraction("'s", " is"),
    Contraction("'re", " are"),
    Contraction("'m", " am"),
    Contraction("'ve", " have"),
    Contraction("'ll", " will"),
    Contraction("'d", " would"),
    Contraction("n't", " not")
  ]

  /** Patterns are non-empty and contain an apostrophe; expansions are a space
      followed by lower-case letters. */
  predicate WellFormedRule(c: Contraction) {
    && |c.pattern| > 0
    && Apostrophe in c.pattern
    && |c.expansion| > 1
    && c.expansion[0] == ' '
    && forall i :: 1 <= i < |c.expansion| ==> IsLowerLetter(c.expansion[i])
  }

  predicate WellFormedRules(rules: seq<Contraction>) {
    forall k :: 0 <= k < |rules| ==> WellFormedRule(rules[k])
  }

  lemma ContractionsWellFormed()
    ensures WellFormedRules(Contractions)
  {
  }

  /** Applies the rules one after the other. */
  function ExpandAll(s: string, rules: seq<Contraction>): string
    requires WellFormedRules(rules)
    decreases |rules|
  {
    if |rules| == 0 then s
    else ExpandAll(ReplaceAtWordEnd(s, rules[0].pattern, rules[0].expansion), rules[1..])
  }

  /** Characters allowed in a cache key: no upper-case letter, no apostrophe. */
  predicate KeyChars(s: string) {
    forall c :: c in s ==> !IsUpper(c) && c != Apostrophe
  }

  predicate NoUpperChars(s: string) {
    forall c :: c in s ==> !IsUpper(c)
  }

  /** The shape of every cache key: lower case, without apostrophes, single
      spaces only, nothing to trim. */
  predicate IsNormalForm(s: string) {
    KeyChars(s) && Collapsed(s) && NoEdgeSpace(s)
  }

  lemma ExpandAllKeepsLower(s: string, rules: seq<Contraction>)
    requires WellFormedRules(rules)
    requires NoUpperChars(s)
    ensures NoUpperChars(ExpandAll(s, rules))
    decreases |rules|
  {
    if |rules| > 0 {
      var e := rules[0].expansion;
      assert forall c :: c in e ==> !IsUpper(c) by {
        forall c | c in e ensures !IsUpper(c) {
          var i :| 0 <= i < |e| && e[i] == c;
        }
      }
      ExpandAllKeepsLower(ReplaceAtWordEnd(s, rules[0].pattern, e), rules[1..]);
    }
  }

  function NormalizeSentence(text: string): (r: string)
    ensures IsNormalForm(r)
  {
    var s1 := Collapse(Trim(Lower(text)));
    ContractionsWellFormed();
    var s2 := ExpandAll(s1, Contractions);
    var s3 := Trim(Collapse(RemoveApostrophes(s2)));
    NormalFormOfPipeline(text);
    s3
  }

  lemma NormalFormOfPipeline(text: string)
    ensures WellFormedRules(Contractions)
    ensures IsNormalForm(Trim(Collapse(RemoveApostrophes(ExpandAll(Collapse(Trim(Lower(text))), Contractions)))))
  {
    ContractionsWellFormed();
    var s0 := Lower(text);
    assert NoUpperChars(s0);
    var s1 := Collapse(Trim(s0));
    assert NoUpperChars(s1);
    var s2 := ExpandAll(s1, Contractions);
    ExpandAllKeepsLower(s1, Contractions);
    var s3 := Collapse(RemoveApostrophes(s2));
    TrimCollapsed(s3);
  }

  // ---------------------------------------------------------------------------
  // Fixed points
  // ---------------------------------------------------------------------------

  lemma {:induction false} ReplaceWithoutApostrophe(s: string, pat: string, repl: string)
    requires |pat| > 0 && Apostrophe in pat
    requires Apostrophe !in s
    ensures ReplaceAtWordEnd(s, pat, repl) == s
    decreases |s|
  {
    if |s| > 0 {
      ReplaceWithoutApostrophe(s[1..], pat, repl);
    }
  }

  lemma {:induction false} ExpandAllWithoutApostrophe(s: string, rules: seq<Contraction>)
    requires WellFormedRules(rules)
    requires Apostrophe !in s
    ensures ExpandAll(s, rules) == s
    decreases |rules|
  {
    if |rules| > 0 {
      ReplaceWithoutApostrophe(s, rules[0].pattern, rules[0].expansion);
      ExpandAllWithoutApostrophe(s, rules[1..]);
    }
  }

  lemma {:induction false} RemoveApostrophesWithout(s: string)
    requires Apostrophe !in s
    ensures RemoveApostrophes(s) == s
    decreases |s|
  {
    if |s| > 0 {
      RemoveApostrophesWithout(s[1..]);
    }
  }

  /** A string in normal form is left unchanged. */
  lemma NormalFormIsFixed(s: string)
    requires IsNormalForm(s)
    ensures NormalizeSentence(s) == s
  {
    LowerOfLower(s);
    TrimNoEdge(s);
    CollapseOfCollapsed(s);
    ContractionsWellFormed();
    ExpandAllWithoutApostrophe(s, Contractions);
    RemoveApostrophesWithout(s);
  }

  /** The fixed points of normalisation are exactly the strings in normal form. */
  lemma FixedPoints(s: string)
    ensures NormalizeSentence(s) == s <==> IsNormalForm(s)
  {
    if IsNormalForm(s) {
      NormalFormIsFixed(s);
    }
  }

  /** Normalising twice is normalising once. */
  lemma Idempotent(s: string)
    ensures NormalizeSentence(NormalizeSentence(s)) == NormalizeSentence(s)
  {
    NormalFormIsFixed(NormalizeSentence(s));
  }

  // ---------------------------------------------------------------------------
  // Contraction expansion
  // ---------------------------------------------------------------------------

  /** A non-empty run of lower-case ASCII letters. */
  predicate IsLowerWord(w: string) {
    |w| > 0 && forall i :: 0 <= i < |w| ==> IsLowerLetter(w[i])
  }

  lemma {:induction false} ReplaceSkipsPrefix(w: string, t: string, pat: string, repl: string)
    requires |pat| > 0
    requires forall i :: 0 <= i < |w| ==> !MatchAtWordEnd((w + t)[i..], pat)
    ensures ReplaceAtWordEnd(w + t, pat, repl) == w + ReplaceAtWordEnd(t, pat, repl)
    decreases |w|
  {
    if |w| == 0 {
      assert w + t == t;
    } else {
      assert !MatchAtWordEnd((w + t)[0..], pat);
      assert (w + t)[0..] == w + t;
      assert (w + t)[1..] == w[1..] + t;
      forall i | 0 <= i < |w[1..]|
        ensures !MatchAtWordEnd((w[1..] + t)[i..], pat)
      {
        assert (w[1..] + t)[i..] == (w + t)[i + 1..];
      }
      ReplaceSkipsPrefix(w[1..], t, pat, repl);
    }
  }

  lemma ReplaceWhole(pat: string, repl: string)
    requires |pat| > 0
    ensures ReplaceAtWordEnd(pat, pat, repl) == repl
  {
    assert pat[|pat|..] == "";
  }

  /** No contraction pattern occurs inside another one. */
  lemma PatternNotInOther(k: nat, j: nat, i: nat)
    requires k < |Contractions| && j < |Contractions| && k != j
    requires i < |Contractions[k].pattern|
    ensures !StartsWith(Contractions[k].pattern[i..], Contractions[j].pattern)
  {
    var p := Contractions[k].pattern;
    var q := Contractions[j].pattern;
    if |q| <= |p| - i {
      assert p[i] != q[0] || p[i + 1] != q[1];
      assert p[i..][..|q|][0] == p[i] && p[i..][..|q|][1] == p[i + 1];
    }
  }

  /** Each rule leaves the other rules' patterns alone. */
  lemma RuleOnOtherPattern(k: nat, j: nat)
    requires k < |Contractions| && j < |Contractions| && k != j
    ensures ReplaceAtWordEnd(Contractions[k].pattern, Contractions[j].pattern, Contractions[j].expansion)
      == Contractions[k].pattern
  {
    var p := Contractions[k].pattern;
    var q := Contractions[j].pattern;
    forall i | 0 <= i < |p| ensures !MatchAtWordEnd((p + "")[i..], q) {
      assert (p + "")[i..] == p[i..];
      PatternNotInOther(k, j, i);
    }
    ReplaceSkipsPrefix(p, "", q, Contractions[j].expansion);
    assert p + "" == p;
  }

  /** Inside a lower-case word followed by a contraction no rule can match. */
  lemma NoMatchInsideWord(w: string, k: nat, j: nat, i: nat)
    requires IsLowerWord(w) && k < |Contractions| && j < |Contractions|
    requires i < |w|
    ensures !StartsWith((w + Contractions[k].pattern)[i..], Contractions[j].pattern)
  {
    var p := Contractions[k].pattern;
    var q := Contractions[j].pattern;
    var s := (w + p)[i..];
    if |q| <= |s| {
      assert s[0] == w[i];
      if j < 6 {
        assert s[0] != q[0];
      } else if i + 1 < |w| {
        assert s[1] == w[i + 1];
        assert s[1] != q[1];
      } else if k < 6 {
        assert s[2] == p[1];
        assert s[2] != q[2];
      } else {
        assert s[1] == p[0];
        assert s[1] != q[1];
      }
      assert s[..|q|] != q;
    }
  }

  /** Applying the rules `Contractions[j..]` to a word followed by contraction
      `k` (with `j <= k`) expands exactly that contraction. */
  lemma {:induction false} ExpandWordFrom(w: string, k: nat, j: nat)
    requires IsLowerWord(w) && k < |Contractions| && j <= k
    ensures WellFormedRules(Contractions[j..])
    ensures ExpandAll(w + Contractions[k].pattern, Contractions[j..]) == w + Contractions[k].expansion
    decreases k - j
  {
    ContractionsWellFormed();
    var p := Contractions[k].pattern;
    var e := Contractions[k].expansion;
    var rule := Contractions[j];
    forall i | 0 <= i < |w| ensures !MatchAtWordEnd((w + p)[i..], rule.pattern) {
      NoMatchInsideWord(w, k, j, i);
    }
    ReplaceSkipsPrefix(w, p, rule.pattern, rule.expansion);
    assert Contractions[j..][0] == rule;
    assert Contractions[j..][1..] == Contractions[j + 1..];
    if j == k {
      ReplaceWhole(p, e);
      ExpansionHasNoApostrophe(w, k);
      ExpandAllWithoutApostrophe(w + e, Contractions[j + 1..]);
    } else {
      RuleOnOtherPattern(k, j);
      ExpandWordFrom(w, k, j + 1);
    }
  }

  /** A word followed by an expansion holds no apostrophe left to match. */
  lemma ExpansionHasNoApostrophe(w: string, k: nat)
    requires IsLowerWord(w) && k < |Contractions|
    ensures Apostrophe !in w + Contractions[k].expansion
  {
    ContractionsWellFormed();
    var u := w + Contractions[k].expansion;
    assert forall i :: 0 <= i < |u| ==> u[i] == ' ' || IsLowerLetter(u[i]);
  }

  lemma PrepareUnchanged(t: string)
    requires forall i :: 0 <= i < |t| ==> !IsSpace(t[i]) && !IsUpper(t[i])
    ensures Collapse(Trim(Lower(t))) == t
  {
    LowerOfLower(t);
    TrimNoEdge(t);
    CollapseOfCollapsed(t);
  }

  lemma FinishUnchanged(u: string)
    requires IsNormalForm(u)
    ensures Trim(Collapse(RemoveApostrophes(u))) == u
  {
    RemoveApostrophesWithout(u);
    CollapseOfCollapsed(u);
    TrimNoEdge(u);
  }

  lemma WordExpansionNormal(w: string, k: nat)
    requires IsLowerWord(w) && k < |Contractions|
    ensures IsNormalForm(w + Contractions[k].expansion)
  {
    ContractionsWellFormed();
    var u := w + Contractions[k].expansion;
    assert forall i :: 0 <= i < |u| ==> (i == |w| && u[i] == ' ') || IsLowerLetter(u[i]);
  }

  /** A lower-case word followed by a contraction normalises to the word
      followed by the spelled-out form: "it's" to "it is", "don't" to "do not". */
  lemma ExpandsContraction(w: string, k: nat)
    requires IsLowerWord(w) && k < |Contractions|
    ensures NormalizeSentence(w + Contractions[k].pattern) == w + Contractions[k].expansion
  {
    ContractionsWellFormed();
    var p := Contractions[k].pattern;
    var t := w + p;
    assert forall i :: 0 <= i < |p| ==> p[i] == Apostrophe || IsLowerLetter(p[i]);
    PrepareUnchanged(t);
    ExpandWordFrom(w, k, 0);
    assert Contractions[0..] == Contractions;
    WordExpansionNormal(w, k);
    FinishUnchanged(w + Contractions[k].expansion);
  }

  /** No rule matches inside a lower-case word that is followed by contraction
      `k` and then a space, nor (for another rule) inside the contraction. */
  lemma NoMatchBeforeTail(w: string, k: nat, j: nat, u: string, i: nat)
    requires IsLowerWord(w) && k < |Contractions| && j < |Contractions|
    requires |u| > 0 && u[0] == ' '
    requires i < |w| || (i < |w| + |Contractions[k].pattern| && j != k)
    ensures !StartsWith((w + Contractions[k].pattern + u)[i..], Contractions[j].pattern)
  {
    var p := Contractions[k].pattern;
    var q := Contractions[j].pattern;
    var s := (w + p + u)[i..];
    if |q| <= |s| {
      if i < |w| {
        assert s[0] == w[i];
        if j < 6 {
          assert s[0] != q[0];
        } else if i + 1 < |w| {
          assert s[1] == w[i + 1];
          assert s[1] != q[1];
        } else if k < 6 {
          assert s[2] == p[1];
          assert s[2] != q[2];
        } else {
          assert s[1] == p[0];
          assert s[1] != q[1];
        }
      } else {
        var m := i - |w|;
        assert s[0] == p[m];
        if m + 1 < |p| {
          assert s[1] == p[m + 1];
          assert s[0] != q[0] || s[1] != q[1];
        } else {
          assert s[1] == u[0];
          assert s[1] != q[1];
        }
      }
      assert s[..|q|] != q;
    }
  }

  /** A pattern that first matches right after `w`, followed by text without
      apostrophes, is replaced there and nowhere else. */
  lemma ReplaceAfterPrefix(w: string, p: string, e: string, u: string)
    requires |p| > 0 && Apostrophe in p
    requires |u| > 0 && !IsWordChar(u[0]) && Apostrophe !in u
    requires forall i :: 0 <= i < |w| ==> !MatchAtWordEnd((w + (p + u))[i..], p)
    ensures ReplaceAtWordEnd(w + p + u, p, e) == w + e + u
  {
    ReplaceSkipsPrefix(w, p + u, p, e);
    assert MatchAtWordEnd(p + u, p);
    assert (p + u)[|p|..] == u;
    ReplaceWithoutApostrophe(u, p, e);
    assert w + (p + u) == w + p + u;
    assert w + (e + u) == w + e + u;
  }

  /** A pattern that matches nowhere in `x`, followed by text without
      apostrophes, changes nothing. */
  lemma ReplaceNowhere(x: string, u: string, q: string, r: string)
    requires |q| > 0 && Apostrophe in q && Apostrophe !in u
    requires forall i :: 0 <= i < |x| ==> !MatchAtWordEnd((x + u)[i..], q)
    ensures ReplaceAtWordEnd(x + u, q, r) == x + u
  {
    ReplaceSkipsPrefix(x, u, q, r);
    ReplaceWithoutApostrophe(u, q, r);
  }

  /** Rule `k` replaces its own contraction after the word and leaves the
      apostrophe-free text after it alone. */
  lemma OwnRuleBeforeTail(w: string, k: nat, u: string)
    requires IsLowerWord(w) && k < |Contractions|
    requires |u| > 0 && u[0] == ' ' && Apostrophe !in u
    ensures ReplaceAtWordEnd(w + Contractions[k].pattern + u, Contractions[k].pattern, Contractions[k].expansion)
         == w + Contractions[k].expansion + u
  {
    var p := Contractions[k].pattern;
    forall i | 0 <= i < |w| ensures !MatchAtWordEnd((w + (p + u))[i..], p) {
      assert w + (p + u) == w + p + u;
      NoMatchBeforeTail(w, k, k, u, i);
    }
    ContractionsWellFormed();
    ReplaceAfterPrefix(w, p, Contractions[k].expansion, u);
  }

  /** Any other rule leaves the word, the contraction and the text alone. */
  lemma OtherRuleBeforeTail(w: string, k: nat, j: nat, u: string)
    requires IsLowerWord(w) && k < |Contractions| && j < |Contractions| && j != k
    requires |u| > 0 && u[0] == ' ' && Apostrophe !in u
    ensures ReplaceAtWordEnd(w + Contractions[k].pattern + u, Contractions[j].pattern, Contractions[j].expansion)
         == w + Contractions[k].pattern + u
  {
    var wp := w + Contractions[k].pattern;
    var q := Contractions[j].pattern;
    forall i | 0 <= i < |wp| ensures !MatchAtWordEnd((wp + u)[i..], q) {
      NoMatchBeforeTail(w, k, j, u, i);
    }
    ContractionsWellFormed();
    ReplaceNowhere(wp, u, q, Contractions[j].expansion);
  }

  /** The rules from `j` on: rule `j` first, then those from `j + 1`. */
  lemma RulesFrom(j: nat)
    requires j < |Contractions|
    ensures WellFormedRules(Contractions[j..]) && WellFormedRules(Contractions[j + 1..])
    ensures Contractions[j..][0] == Contractions[j]
    ensures Contractions[j..][1..] == Contractions[j + 1..]
  {
    ContractionsWellFormed();
  }

  /** Applying the rules `Contractions[j..]` (with `j <= k`) to a word, then
      contraction `k`, then apostrophe-free text starting with a space, expands
      that contraction and leaves the text alone. */
  lemma {:induction false} ExpandBeforeTail(w: string, k: nat, j: nat, u: string)
    requires IsLowerWord(w) && k < |Contractions| && j <= k
    requires |u| > 0 && u[0] == ' ' && Apostrophe !in u
    ensures WellFormedRules(Contractions[j..])
    ensures ExpandAll(w + Contractions[k].pattern + u, Contractions[j..]) == w + Contractions[k].expansion + u
    decreases k - j
  {
    RulesFrom(j);
    var rules := Contractions[j..];
    var x := w + Contractions[k].pattern + u;
    var y := ReplaceAtWordEnd(x, rules[0].pattern, rules[0].expansion);
    assert ExpandAll(x, rules) == ExpandAll(y, rules[1..]);
    if j == k {
      OwnRuleBeforeTail(w, k, u);
      var z := w + Contractions[k].expansion + u;
      assert y == z;
      ExpansionHasNoApostrophe(w, k);
      assert Apostrophe !in z;
      ExpandAllWithoutApostrophe(z, rules[1..]);
    } else {
      OtherRuleBeforeTail(w, k, j, u);
      assert y == x;
      ExpandBeforeTail(w, k, j + 1, u);
    }
  }

  /** Two collapsed, trimmed, non-empty texts joined by one space are again
      collapsed and trimmed. */
  lemma JoinCollapsed(a: string, b: string)
    requires Collapsed(a) && NoEdgeSpace(a) && |a| > 0
    requires Collapsed(b) && NoEdgeSpace(b) && |b| > 0
    ensures Collapsed(a + " " + b) && NoEdgeSpace(a + " " + b)
  {
    var s := a + " " + b;
    forall i | 0 <= i < |s| - 1 ensures !(IsSpace(s[i]) && IsSpace(s[i + 1])) {
      if i + 1 < |a| {
        assert s[i] == a[i] && s[i + 1] == a[i + 1];
      } else if i + 1 == |a| {
        assert s[i] == a[|a| - 1];
      } else if i == |a| {
        assert s[i + 1] == b[0];
      } else {
        assert s[i] == b[i - |a| - 1] && s[i + 1] == b[i - |a|];
      }
    }
    forall i | 0 <= i < |s| && IsSpace(s[i]) ensures s[i] == ' ' {
      if i < |a| {
        assert s[i] == a[i];
      } else if i > |a| {
        assert s[i] == b[i - |a| - 1];
      }
    }
  }

  /** A text that is already lower case, collapsed and trimmed passes the
      preparation steps unchanged. */
  lemma PrepareCollapsed(s: string)
    requires NoUpper(s) && Collapsed(s) && NoEdgeSpace(s)
    ensures Collapse(Trim(Lower(s))) == s
  {
    LowerOfLower(s);
    TrimNoEdge(s);
    CollapseOfCollapsed(s);
  }

  /** A word, a contraction, a space and normal-form text: nothing for the
      preparation steps to change. */
  lemma ContractionTextPrepared(w: string, k: nat, t: string)
    requires IsLowerWord(w) && k < |Contractions|
    requires IsNormalForm(t) && |t| > 0
    ensures Collapse(Trim(Lower(w + Contractions[k].pattern + " " + t))) == w + Contractions[k].pattern + " " + t
  {
    var wp := w + Contractions[k].pattern;
    assert forall i :: 0 <= i < |wp| ==> wp[i] == Apostrophe || IsLowerLetter(wp[i]);
    JoinCollapsed(wp, t);
    var s := wp + " " + t;
    forall i | 0 <= i < |s| ensures !IsUpper(s[i]) {
      if i > |wp| {
        assert s[i] == t[i - |wp| - 1];
        assert s[i] in t;
      }
    }
    PrepareCollapsed(s);
  }

  /** The expanded text is already in normal form. */
  lemma ExpandedTextNormal(w: string, k: nat, t: string)
    requires IsLowerWord(w) && k < |Contractions|
    requires IsNormalForm(t) && |t| > 0
    ensures IsNormalForm(w + Contractions[k].expansion + " " + t)
  {
    var we := w + Contractions[k].expansion;
    WordExpansionNormal(w, k);
    JoinCollapsed(we, t);
  }

  /** A contraction followed by more normal-form text: "it's raining"
      normalises to "it is raining", "don't go" to "do not go". */
  lemma ExpandsContractionBefore(w: string, k: nat, t: string)
    requires IsLowerWord(w) && k < |Contractions|
    requires IsNormalForm(t) && |t| > 0
    ensures NormalizeSentence(w + Contractions[k].pattern + " " + t) == w + Contractions[k].expansion + " " + t
  {
    var u := " " + t;
    var s := w + Contractions[k].pattern + " " + t;
    var x := w + Contractions[k].expansion + " " + t;
    assert s == w + Contractions[k].pattern + u;
    assert x == w + Contractions[k].expansion + u;
    ContractionTextPrepared(w, k, t);
    ExpandBeforeTail(w, k, 0, u);
    assert Contractions[0..] == Contractions;
    ExpandedTextNormal(w, k, t);
    NormalizeBySteps(s, x);
  }

  /** A prepared text whose expansion is already in normal form normalises to
      that expansion. */
  lemma NormalizeBySteps(s: string, x: string)
    requires Collapse(Trim(Lower(s))) == s
    requires WellFormedRules(Contractions) && ExpandAll(s, Contractions) == x
    requires IsNormalForm(x)
    ensures NormalizeSentence(s) == x
  {
    FinishUnchanged(x);
  }

  /** A doubled space before collapsed text becomes a single one. */
  lemma CollapseDoubleSpace(t: string)
    requires Collapsed(t) && |t| > 0 && !IsSpace(t[0])
    ensures Collapse("  " + t) == " " + t
  {
    var s := "  " + t;
    assert s[1..] == " " + t;
    assert (" " + t)[1..] == t;
    assert LeadingSpaces(" " + t) == 1;
    CollapseOfCollapsed(t);
  }

  /** A word without whitespace, a doubled space and collapsed text collapse
      to the same with one space. */
  lemma CollapseAfterWord(a: string, t: string)
    requires NoSpace(a)
    requires Collapsed(t) && |t| > 0 && !IsSpace(t[0])
    ensures Collapse(a + "  " + t) == a + " " + t
  {
    var doubled, single := "  " + t, " " + t;
    assert a + "  " + t == a + doubled;
    assert a + " " + t == a + single;
    CollapseDoubleSpace(t);
    CollapseNoSpacePrefix(a, doubled);
  }

  /** The key depends on the text only through the prepared text. */
  lemma SamePreparation(a: string, b: string)
    requires Collapse(Trim(Lower(a))) == Collapse(Trim(Lower(b)))
    ensures NormalizeSentence(a) == NormalizeSentence(b)
  {
  }

  /** A contraction followed by two spaces and more text shares its key with
      the spelled-out form followed by one space. */
  lemma ContractionSharesKey(w: string, k: nat, t: string)
    requires IsLowerWord(w) && k < |Contractions|
    requires IsNormalForm(t) && |t| > 0
    ensures NormalizeSentence(w + Contractions[k].pattern + "  " + t)
         == NormalizeSentence(w + Contractions[k].expansion + " " + t)
  {
    var p := Contractions[k].pattern;
    var wp := w + p;
    assert forall i :: 0 <= i < |wp| ==> wp[i] == Apostrophe || IsLowerLetter(wp[i]);
    assert t[0] in t;
    CollapseAfterWord(wp, t);
    var doubled := wp + "  " + t;
    assert NoUpper(doubled) by {
      forall i | 0 <= i < |doubled| ensures !IsUpper(doubled[i]) {
        if i >= |wp| + 2 {
          assert doubled[i] == t[i - |wp| - 2];
          assert doubled[i] in t;
        }
      }
    }
    LowerOfLower(doubled);
    assert NoEdgeSpace(doubled) by {
      assert doubled[|doubled| - 1] == t[|t| - 1];
    }
    TrimNoEdge(doubled);
    ContractionTextPrepared(w, k, t);
    SamePreparation(doubled, wp + " " + t);
    ExpandsContractionBefore(w, k, t);
    ExpandedTextNormal(w, k, t);
    NormalFormIsFixed(w + Contractions[k].expansion + " " + t);
  }

  lemma ItsRainingParts()
    ensures Lower("It's  raining") == "it" + Contractions[0].pattern + "  " + "raining"
    ensures "it is raining" == "it" + Contractions[0].expansion + " " + "raining"
    ensures IsLowerWord("it") && IsNormalForm("raining")
  {
  }

  /** "It's  raining", with a capital letter and two spaces, and "it is
      raining" share a cache key. */
  lemma SpelledOutSharesKey()
    ensures NormalizeSentence("It's  raining") == NormalizeSentence("it is raining")
  {
    ItsRainingParts();
    CaseInsensitive("It's  raining");
    ContractionSharesKey("it", 0, "raining");
  }

  /** Sentences that differ only in letter case share a cache key. */
  lemma CaseInsensitive(s: string)
    ensures NormalizeSentence(Lower(s)) == NormalizeSentence(s)
  {
    LowerOfLower(Lower(s));
    assert Lower(Lower(s)) == Lower(s);
  }
}

