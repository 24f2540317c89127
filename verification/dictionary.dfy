/** The offline dictionary of server/dictionary.js: word-form variants, the
    first-match lookup, and the post-processing of the `translation` column
    into a main translation plus alternatives. The SQLite table is an oracle:
    a function from a variant to the rows that match it, or `None` when the
    query throws. */
module Dictionary {
  import opened Wrappers
  import opened Text
  import opened Seqs

  // ---------------------------------------------------------------------------
  // simpleStem
  // ---------------------------------------------------------------------------

  datatype SuffixRule = SuffixRule(suffix: string, replacement: string)

  /** The suffix rules, in the order the variants are listed. */
  const SuffixRules: seq<SuffixRule> := [
    SuffixRule("s", ""), SuffixRule("es", ""), SuffixRule("ies", "y"), SuffixRule("ed", ""),
    SuffixRule("ing", ""), SuffixRule("er", ""), SuffixRule("est", "")
  ]

  /** `s.replace(/suffix$/, replacement)`. */
  function ApplyRule(s: string, rule: SuffixRule): (r: string)
    ensures EndsWith(s, rule.suffix) ==> r == s[..|s| - |rule.suffix|] + rule.replacement
    ensures !EndsWith(s, rule.suffix) ==> r == s
  {
    if EndsWith(s, rule.suffix) then s[..|s| - |rule.suffix|] + rule.replacement else s
  }

  function CleanedWord(word: string): string {
    Trim(Lower(word))
  }

  /** The eight candidate forms before de-duplication: the cleaned word, then
      one form per rule. A rule whose suffix the word does not end with leaves
      the word as it is; otherwise its form is strictly shorter, and putting
      the suffix back in place of the replacement gives the word again. */
  function Variants(word: string): (vs: seq<string>)
    ensures |vs| == 1 + |SuffixRules| && vs[0] == CleanedWord(word)
    ensures forall k :: 0 <= k < |SuffixRules| ==>
      (vs[k + 1] == vs[0] <==> !EndsWith(vs[0], SuffixRules[k].suffix))
    ensures forall i :: 0 <= i < |vs| ==> |vs[i]| <= |vs[0]|
    ensures forall k :: 0 <= k < |SuffixRules| && EndsWith(vs[0], SuffixRules[k].suffix) ==>
      var rule := SuffixRules[k];
      && EndsWith(vs[k + 1], rule.replacement)
      && vs[k + 1][..|vs[k + 1]| - |rule.replacement|] + rule.suffix == vs[0]
  {
    RuleForms(CleanedWord(word));
    var cleaned := CleanedWord(word);
    [cleaned] + seq(|SuffixRules|, k requires 0 <= k < |SuffixRules| => ApplyRule(cleaned, SuffixRules[k]))
  }

  /** Every replacement is shorter than its suffix. */
  lemma RulesShorten()
    ensures forall k :: 0 <= k < |SuffixRules| ==> |SuffixRules[k].replacement| < |SuffixRules[k].suffix|
  {
  }

  /** What one rule does to a word, for every rule. */
  lemma RuleForms(s: string)
    ensures forall k :: 0 <= k < |SuffixRules| ==>
      && (ApplyRule(s, SuffixRules[k]) == s <==> !EndsWith(s, SuffixRules[k].suffix))
      && |ApplyRule(s, SuffixRules[k])| <= |s|
    ensures forall k :: 0 <= k < |SuffixRules| && EndsWith(s, SuffixRules[k].suffix) ==>
      var r := ApplyRule(s, SuffixRules[k]);
      && EndsWith(r, SuffixRules[k].replacement)
      && r[..|r| - |SuffixRules[k].replacement|] + SuffixRules[k].suffix == s
  {
    forall k | 0 <= k < |SuffixRules| {
      RuleForm(s, SuffixRules[k]);
    }
  }

  /** One rule whose replacement is shorter than its suffix. */
  lemma RuleForm(s: string, rule: SuffixRule)
    requires rule in SuffixRules
    ensures ApplyRule(s, rule) == s <==> !EndsWith(s, rule.suffix)
    ensures |ApplyRule(s, rule)| <= |s|
    ensures EndsWith(s, rule.suffix) ==>
      var r := ApplyRule(s, rule);
      && EndsWith(r, rule.replacement)
      && r[..|r| - |rule.replacement|] + rule.suffix == s
  {
    RulesShorten();
    if EndsWith(s, rule.suffix) {
      var stem := s[..|s| - |rule.suffix|];
      var r := stem + rule.replacement;
      assert r[..|stem|] == stem;
      assert r[|r| - |rule.replacement|..] == rule.replacement;
      assert stem + rule.suffix == s;
    }
  }

  function SimpleStem(word: string): (r: seq<string>)
    ensures 1 <= |r| <= 1 + |SuffixRules|
    ensures r[0] == CleanedWord(word)
    ensures NoDuplicates(r)
    ensures forall i :: 0 <= i < |r| ==> r[i] in Variants(word)
    ensures forall i :: 0 <= i < |Variants(word)| ==> Variants(word)[i] in r
  {
    var vs := Variants(word);
    DedupHead(vs);
    Dedup(vs)
  }

  lemma DedupHead<T>(s: seq<T>)
    requires |s| > 0
    ensures |Dedup(s)| <= |s| && Dedup(s)[0] == s[0]
  {
    assert Dedup(s) == DedupFrom(s, {});
    assert DedupFrom(s, {}) == [s[0]] + DedupFrom(s[1..], {} + {s[0]});
    DedupFromLength(s, {});
  }

  lemma {:induction false} DedupFromLength<T>(s: seq<T>, seen: set<T>)
    ensures |DedupFrom(s, seen)| <= |s|
    decreases |s|
  {
    if |s| > 0 {
      DedupFromLength(s[1..], seen);
      DedupFromLength(s[1..], seen + {s[0]});
    }
  }

  /** The variants are tried in the order of the rules. */
  lemma StemOrder(word: string)
    ensures InFirstOccurrenceOrder(Variants(word), SimpleStem(word))
  {
    DedupOrder(Variants(word));
  }

  /** A lower-case word with one of the suffixes has the rule's stem among its
      variants: "books" gives "book", "stories" gives "story". */
  lemma StemOfSuffixed(w: string, k: nat)
    requires |w| > 0 && forall i :: 0 <= i < |w| ==> IsLowerLetter(w[i])
    requires k < |SuffixRules|
    ensures w + SuffixRules[k].replacement in SimpleStem(w + SuffixRules[k].suffix)
  {
    var rule := SuffixRules[k];
    var s := w + rule.suffix;
    SuffixesAreLower(k);
    LowerWordIsCleaned(w, rule.suffix);
    SuffixStrips(w, rule.suffix);
    assert Variants(s)[k + 1] == w + rule.replacement;
  }

  /** Every suffix is spelled in lower-case letters. */
  lemma SuffixesAreLower(k: nat)
    requires k < |SuffixRules|
    ensures forall i :: 0 <= i < |SuffixRules[k].suffix| ==> IsLowerLetter(SuffixRules[k].suffix[i])
  {
  }

  /** A word of lower-case letters is its own cleaned form. */
  lemma LowerWordIsCleaned(w: string, suffix: string)
    requires |w| > 0 && forall i :: 0 <= i < |w| ==> IsLowerLetter(w[i])
    requires forall i :: 0 <= i < |suffix| ==> IsLowerLetter(suffix[i])
    ensures CleanedWord(w + suffix) == w + suffix
  {
    var s := w + suffix;
    assert forall i :: 0 <= i < |s| ==> IsLowerLetter(s[i]);
    LowerOfLower(s);
    TrimNoEdge(s);
  }

  /** Removing a suffix the word was built with gives the word back. */
  lemma SuffixStrips(w: string, suffix: string)
    ensures EndsWith(w + suffix, suffix)
    ensures (w + suffix)[..|w + suffix| - |suffix|] == w
  {
    var s := w + suffix;
    assert s[|s| - |suffix|..] == suffix;
  }

  // ---------------------------------------------------------------------------
  // queryWord
  // ---------------------------------------------------------------------------

  datatype Row = Row(word: string, translation: string, pos: string)

  /** `LIMIT 5`. */
  const RowLimit: nat := 5

  /** The rows of the first variant that has any, trying them in order.
      A query that throws ends the search with `None`. */
  function FirstMatch(variants: seq<string>, lookup: string -> Option<seq<Row>>): (r: Option<seq<Row>>)
    ensures r.Some? ==> 1 <= |r.value| <= RowLimit
    ensures r.Some? ==> exists k :: (0 <= k < |variants| && lookup(variants[k]).Some?
      && r.value == Take(lookup(variants[k]).value, RowLimit)
      && forall j :: 0 <= j < k ==> lookup(variants[j]) == Some([]))
    decreases |variants|
  {
    if |variants| == 0 then None
    else match lookup(variants[0])
      case None => None
      case Some(rows) =>
        if |rows| > 0 then Some(Take(rows, RowLimit))
        else
          var r := FirstMatch(variants[1..], lookup);
          if r.Some? then
            var k :| 0 <= k < |variants[1..]| && lookup(variants[1..][k]).Some?
              && r.value == Take(lookup(variants[1..][k]).value, RowLimit)
              && forall j :: 0 <= j < k ==> lookup(variants[1..][j]) == Some([]);
            assert variants[k + 1] == variants[1..][k];
            assert forall j :: 1 <= j < k + 1 ==> variants[j] == variants[1..][j - 1];
            r
          else r
  }

  /** The search fails only when some variant's query threw or none matched. */
  lemma {:induction false} FirstMatchNone(variants: seq<string>, lookup: string -> Option<seq<Row>>)
    requires forall k :: 0 <= k < |variants| ==> lookup(variants[k]) == Some([])
    ensures FirstMatch(variants, lookup) == None
    decreases |variants|
  {
    if |variants| > 0 {
      FirstMatchNone(variants[1..], lookup);
    }
  }

  /** The first variant with rows is found: when every earlier variant's
      query returned no rows, the search answers with that variant's rows. */
  lemma {:induction false} FirstMatchFinds(variants: seq<string>, lookup: string -> Option<seq<Row>>, k: nat)
    requires k < |variants| && lookup(variants[k]).Some? && |lookup(variants[k]).value| > 0
    requires forall j :: 0 <= j < k ==> lookup(variants[j]) == Some([])
    ensures FirstMatch(variants, lookup) == Some(Take(lookup(variants[k]).value, RowLimit))
    decreases k
  {
    if k > 0 {
      assert variants[1..][k - 1] == variants[k];
      forall j | 0 <= j < k - 1
        ensures lookup(variants[1..][j]) == Some([])
      {
        assert variants[1..][j] == variants[j + 1];
      }
      FirstMatchFinds(variants[1..], lookup, k - 1);
    }
  }

  /** `queryWord`: `None` without a database; otherwise a result is the rows
      of one of the word's forms, every form tried before it having none. */
  function QueryWord(word: string, db: Option<string -> Option<seq<Row>>>): (r: Option<seq<Row>>)
    ensures db.None? ==> r.None?
    ensures r.Some? ==> 1 <= |r.value| <= RowLimit
    ensures r.Some? ==> db.Some? && exists k :: (0 <= k < |SimpleStem(word)|
      && db.value(SimpleStem(word)[k]).Some?
      && r.value == Take(db.value(SimpleStem(word)[k]).value, RowLimit)
      && forall j :: 0 <= j < k ==> db.value(SimpleStem(word)[j]) == Some([]))
  {
    match db
    case None => None
    case Some(lookup) => FirstMatch(SimpleStem(word), lookup)
  }

  /** The form tried first among those with rows answers the query. */
  lemma QueryFindsForm(word: string, lookup: string -> Option<seq<Row>>, k: nat)
    requires k < |SimpleStem(word)|
    requires lookup(SimpleStem(word)[k]).Some? && |lookup(SimpleStem(word)[k]).value| > 0
    requires forall j :: 0 <= j < k ==> lookup(SimpleStem(word)[j]) == Some([])
    ensures QueryWord(word, Some(lookup)) == Some(Take(lookup(SimpleStem(word)[k]).value, RowLimit))
  {
    FirstMatchFinds(SimpleStem(word), lookup, k);
  }

  /** A suffixed word whose only form with rows is its stem is answered with
      the stem's rows: "stories" with rows for "story" alone. */
  lemma QueryFindsStem(w: string, rule: nat, lookup: string -> Option<seq<Row>>)
    requires |w| > 0 && forall i :: 0 <= i < |w| ==> IsLowerLetter(w[i])
    requires rule < |SuffixRules|
    requires lookup(w + SuffixRules[rule].replacement).Some?
    requires |lookup(w + SuffixRules[rule].replacement).value| > 0
    requires forall v :: v != w + SuffixRules[rule].replacement ==> lookup(v) == Some([])
    ensures QueryWord(w + SuffixRules[rule].suffix, Some(lookup))
      == Some(Take(lookup(w + SuffixRules[rule].replacement).value, RowLimit))
  {
    var stem := w + SuffixRules[rule].replacement;
    var forms := SimpleStem(w + SuffixRules[rule].suffix);
    StemOfSuffixed(w, rule);
    var k :| 0 <= k < |forms| && forms[k] == stem;
    forall j | 0 <= j < k ensures lookup(forms[j]) == Some([]) {
      assert forms[j] != forms[k];
    }
    QueryFindsForm(w + SuffixRules[rule].suffix, lookup, k);
  }

  /** "stories", with rows for "story" alone, is answered with them. */
  lemma StoriesFindsStory(lookup: string -> Option<seq<Row>>)
    requires lookup("story").Some? && |lookup("story").value| > 0
    requires forall v :: v != "story" ==> lookup(v) == Some([])
    ensures QueryWord("stories", Some(lookup)) == Some(Take(lookup("story").value, RowLimit))
  {
    assert "stor" + SuffixRules[2].replacement == "story";
    assert "stor" + SuffixRules[2].suffix == "stories";
    QueryFindsStem("stor", 2, lookup);
  }

  /** A word found under its own cleaned form is answered from that form. */
  lemma ExactFormFirst(word: string, lookup: string -> Option<seq<Row>>)
    requires lookup(CleanedWord(word)).Some? && |lookup(CleanedWord(word)).value| > 0
    ensures QueryWord(word, Some(lookup)) == Some(Take(lookup(CleanedWord(word)).value, RowLimit))
  {
  }

  // ---------------------------------------------------------------------------
  // cleanTranslation
  // ---------------------------------------------------------------------------

  /** No `]` after any `[`. */
  predicate NoClosedBracket(s: string) {
    forall i, j :: 0 <= i < j < |s| && s[i] == '[' ==> s[j] != ']'
  }

  lemma ConsNoClosed(c: char, r: string)
    requires NoClosedBracket(r)
    requires c == '[' ==> ']' !in r
    ensures NoClosedBracket([c] + r)
  {
    var s := [c] + r;
    forall i, j | 0 <= i < j < |s| && s[i] == '[' ensures s[j] != ']' {
      assert s[j] == r[j - 1];
    }
  }

  lemma SliceNoClosed(s: string, a: nat, b: nat)
    requires NoClosedBracket(s) && a <= b <= |s|
    ensures NoClosedBracket(s[a..b])
  {
    var t := s[a..b];
    forall i, j | 0 <= i < j < |t| && t[i] == '[' ensures t[j] != ']' {
      assert t[i] == s[a + i] && t[j] == s[a + j];
    }
  }

  /** `.replace(/\[[^\]]*\]/g, '')`: each `[` that has a `]` after it is
      removed together with everything up to the first such `]`. */
  function RemoveBracketed(s: string): (r: string)
    ensures forall c :: c in r ==> c in s
    ensures NoClosedBracket(r)
    decreases |s|
  {
    if |s| == 0 then ""
    else
      var close := IndexOfChar(s[1..], ']');
      if s[0] == '[' && close >= 0 then
        var rest := s[close + 2..];
        assert forall c :: c in rest ==> c in s;
        RemoveBracketed(rest)
      else
        var rest := RemoveBracketed(s[1..]);
        assert ']' in s[1..] ==> close >= 0;
        ConsNoClosed(s[0], rest);
        [s[0]] + rest
  }

  /** `.replace(/\{[^}]+\}/g, '')`: a `{` followed by at least one character
      and then the first `}` after it. */
  function RemoveBraced(s: string): (r: string)
    ensures forall c :: c in r ==> c in s
    decreases |s|
  {
    if |s| == 0 then ""
    else
      var close := IndexOfChar(s[1..], '}');
      if s[0] == '{' && close >= 1 then
        var rest := s[close + 2..];
        assert forall c :: c in rest ==> c in s;
        RemoveBraced(rest)
      else [s[0]] + RemoveBraced(s[1..])
  }

  lemma {:induction false} RemoveBracedNoClosed(s: string)
    requires NoClosedBracket(s)
    ensures NoClosedBracket(RemoveBraced(s))
    decreases |s|
  {
    if |s| > 0 {
      var close := IndexOfChar(s[1..], '}');
      if s[0] == '{' && close >= 1 {
        SliceNoClosed(s, close + 2, |s|);
        RemoveBracedNoClosed(s[close + 2..]);
      } else {
        SliceNoClosed(s, 1, |s|);
        RemoveBracedNoClosed(s[1..]);
        if s[0] == '[' {
          assert ']' !in s[1..] by {
            forall j | 0 <= j < |s[1..]| ensures s[1..][j] != ']' {
              assert s[1..][j] == s[j + 1];
            }
          }
        }
        ConsNoClosed(s[0], RemoveBraced(s[1..]));
      }
    }
  }

  lemma {:induction false} CollapseNoClosed(s: string)
    requires NoClosedBracket(s)
    ensures NoClosedBracket(Collapse(s))
    decreases |s|
  {
    if |s| > 0 {
      if IsSpace(s[0]) {
        var rest := DropSpaces(s[1..]);
        SliceNoClosed(s, 1 + LeadingSpaces(s[1..]), |s|);
        assert rest == s[1 + LeadingSpaces(s[1..])..];
        CollapseNoClosed(rest);
        ConsNoClosed(' ', Collapse(rest));
      } else {
        SliceNoClosed(s, 1, |s|);
        CollapseNoClosed(s[1..]);
        if s[0] == '[' {
          assert ']' !in s[1..] by {
            forall j | 0 <= j < |s[1..]| ensures s[1..][j] != ']' {
              assert s[1..][j] == s[j + 1];
            }
          }
        }
        ConsNoClosed(s[0], Collapse(s[1..]));
      }
    }
  }

  lemma TrimNoClosed(s: string)
    requires NoClosedBracket(s)
    ensures NoClosedBracket(Trim(s))
  {
    var t := s[LeadingSpaces(s)..];
    SliceNoClosed(s, LeadingSpaces(s), |s|);
    SliceNoClosed(t, 0, |t| - TrailingSpaces(t));
  }

  /** `cleanTranslation`. */
  function CleanTranslation(text: string): (r: string)
    ensures text == "" ==> r == ""
    ensures Collapsed(r) && NoEdgeSpace(r)
    ensures NoClosedBracket(r)
    ensures forall c :: c in r ==> c in text || c == ' '
  {
    if text == "" then ""
    else
      var noBrackets := RemoveBracketed(text);
      var noBraces := RemoveBraced(noBrackets);
      RemoveBracedNoClosed(noBrackets);
      var collapsed := Collapse(noBraces);
      CollapseNoClosed(noBraces);
      TrimCollapsed(collapsed);
      TrimNoClosed(collapsed);
      Trim(collapsed)
  }

  lemma {:induction false} RemoveBracketedWithout(s: string)
    requires '[' !in s
    ensures RemoveBracketed(s) == s
    decreases |s|
  {
    if |s| > 0 {
      RemoveBracketedWithout(s[1..]);
    }
  }

  lemma {:induction false} RemoveBracedWithout(s: string)
    requires '{' !in s
    ensures RemoveBraced(s) == s
    decreases |s|
  {
    if |s| > 0 {
      RemoveBracedWithout(s[1..]);
    }
  }

  /** Text without markers and with tidy whitespace is already clean. */
  lemma CleanFixedPoint(text: string)
    requires '[' !in text && '{' !in text
    requires Collapsed(text) && NoEdgeSpace(text)
    ensures CleanTranslation(text) == text
  {
    if text != "" {
      RemoveBracketedWithout(text);
      RemoveBracedWithout(text);
      CollapseOfCollapsed(text);
      TrimNoEdge(text);
    }
  }

  // ---------------------------------------------------------------------------
  // Part of speech
  // ---------------------------------------------------------------------------

  /** Length of the run of lower-case letters at the start of `s`. */
  function LowerRun(s: string): (n: nat)
    ensures n <= |s|
    ensures forall i :: 0 <= i < n ==> IsLowerLetter(s[i])
    ensures n < |s| ==> !IsLowerLetter(s[n])
  {
    if |s| > 0 && IsLowerLetter(s[0]) then 1 + LowerRun(s[1..]) else 0
  }

  // `text.match(/^([a-z]+\.)\s*/)`: group 1, or "".
  function ExtractPartOfSpeech(text: string): (pos: string)
    ensures pos == "" || (StartsWith(text, pos) && |pos| >= 2 && pos[|pos| - 1] == '.'
      && forall i :: 0 <= i < |pos| - 1 ==> IsLowerLetter(pos[i]))
    ensures pos == "" <==> LowerRun(text) == 0 || LowerRun(text) == |text| || text[LowerRun(text)] != '.'
  {
    var n := LowerRun(text);
    if n > 0 && n < |text| && text[n] == '.' then text[..n + 1] else ""
  }

  // `trans.replace(/^[a-z]+\.\s*/, '')`: the marker and the whitespace after
  // it removed; without a marker nothing is removed.
  function StripPartOfSpeech(text: string): (r: string)
    ensures var pos := ExtractPartOfSpeech(text);
      && |pos| + |r| <= |text|
      && text[..|pos|] == pos && text[|text| - |r|..] == r
      && (pos == "" ==> r == text)
      && (pos != "" ==> (forall i :: |pos| <= i < |text| - |r| ==> IsSpace(text[i])) && (r == "" || !IsSpace(r[0])))
    ensures forall c :: c in r ==> c in text
  {
    var pos := ExtractPartOfSpeech(text);
    if pos == "" then text
    else
      var rest := text[|pos|..];
      assert forall c :: c in rest ==> c in text;
      DropSpaces(rest)
  }

  // ---------------------------------------------------------------------------
  // formatDictionaryResult
  // ---------------------------------------------------------------------------

  datatype Alternative = Alternative(partOfSpeech: string, translation: string, example: Option<string>)

  datatype Formatted = Formatted(mainTranslation: string, alternatives: Option<seq<Alternative>>)

  /** A non-empty cleaned part and its own part-of-speech marker. */
  datatype Candidate = Candidate(pos: string, translation: string)

  const MaxCollected: nat := 5

  predicate NotBlank(s: string) {
    Trim(s) != ""
  }

  /** A cleaned part as it may appear in the result. */
  predicate IsCleanPart(t: string) {
    t != "" && Collapsed(t) && NoEdgeSpace(t) && NoClosedBracket(t) && ',' !in t && '\n' !in t
  }

  /** A part without commas or line breaks cleans to a clean part or to "". */
  lemma CleanedPartIsClean(part: string)
    requires ',' !in part && '\n' !in part
    ensures var c := CleanTranslation(StripPartOfSpeech(Trim(part)));
      c != "" ==> IsCleanPart(c)
  {
    var stripped := StripPartOfSpeech(Trim(part));
    assert forall ch :: ch in stripped ==> ch in part;
  }

  /** The candidate of one part, if its cleaned translation is not empty. */
  function PartCandidate(part: string): (c: Option<Candidate>)
    requires ',' !in part && '\n' !in part
    ensures c.Some? ==> IsCleanPart(c.value.translation)
  {
    var trans := Trim(part);
    var cleaned := CleanTranslation(StripPartOfSpeech(trans));
    CleanedPartIsClean(part);
    if cleaned != "" then Some(Candidate(ExtractPartOfSpeech(trans), cleaned)) else None
  }

  /** The candidates of one comma-separated part list. */
  function PartCandidates(parts: seq<string>): (cs: seq<Candidate>)
    requires forall k :: 0 <= k < |parts| ==> ',' !in parts[k] && '\n' !in parts[k]
    ensures forall k :: 0 <= k < |cs| ==> IsCleanPart(cs[k].translation)
    decreases |parts|
  {
    if |parts| == 0 then []
    else
      var rest := PartCandidates(parts[1..]);
      match PartCandidate(parts[0])
      case Some(c) => CleanCons(c, rest); [c] + rest
      case None => rest
  }

  lemma CleanCons(c: Candidate, cs: seq<Candidate>)
    requires IsCleanPart(c.translation)
    requires forall k :: 0 <= k < |cs| ==> IsCleanPart(cs[k].translation)
    ensures forall k :: 0 <= k < |[c] + cs| ==> IsCleanPart(([c] + cs)[k].translation)
  {
    forall k | 0 <= k < |[c] + cs| ensures IsCleanPart(([c] + cs)[k].translation) {
      if k > 0 {
        assert ([c] + cs)[k] == cs[k - 1];
      }
    }
  }

  /** The candidates of the whole `translation` column, line by line. */
  function LineCandidates(lines: seq<string>): (cs: seq<Candidate>)
    requires forall k :: 0 <= k < |lines| ==> '\n' !in lines[k]
    ensures forall k :: 0 <= k < |cs| ==> IsCleanPart(cs[k].translation)
    decreases |lines|
  {
    if |lines| == 0 then []
    else
      var line := Trim(lines[0]);
      var parts := Filter(Split(line, ','), NotBlank);
      assert forall k :: 0 <= k < |parts| ==> '\n' !in parts[k] by {
        forall k | 0 <= k < |parts| ensures '\n' !in parts[k] {
          SplitPartChars(line, ',', parts[k]);
        }
      }
      PartCandidates(parts) + LineCandidates(lines[1..])
  }

  lemma SplitPartChars(s: string, sep: char, part: string)
    requires part in Split(s, sep)
    ensures forall c :: c in part ==> c in s
  {
    SplitChars(s, sep);
    var k :| 0 <= k < |Split(s, sep)| && Split(s, sep)[k] == part;
    forall c | c in part ensures c in s {
      var i :| 0 <= i < |part| && part[i] == c;
    }
  }

  function Candidates(translation: string): (cs: seq<Candidate>)
    ensures forall k :: 0 <= k < |cs| ==> IsCleanPart(cs[k].translation)
  {
    LineCandidates(Filter(Split(translation, '\n'), NotBlank))
  }

  /** The part of speech shown for a candidate: its own, else the main one,
      else the row's column. */
  function ShownPos(c: Candidate, mainPos: string, rowPos: string): string {
    if c.pos != "" then c.pos else if mainPos != "" then mainPos else rowPos
  }

  /** One result entry per collected candidate. */
  function Entries(collected: seq<Candidate>, rowPos: string): (es: seq<Alternative>)
    ensures |es| == |collected|
    ensures forall k :: 0 <= k < |es| ==> es[k].translation == collected[k].translation && es[k].example.None?
    ensures forall k :: 0 <= k < |es| ==>
      es[k].partOfSpeech == ShownPos(collected[k], collected[0].pos, rowPos)
  {
    var mainPos := if |collected| > 0 then collected[0].pos else "";
    seq(|collected|, k requires 0 <= k < |collected| =>
      Alternative(ShownPos(collected[k], mainPos, rowPos), collected[k].translation, None))
  }

  function FormatDictionaryResult(rows: seq<Row>): (r: Option<Formatted>)
    ensures r.None? <==> |rows| == 0
    ensures r.Some? ==> var collected := Take(Candidates(rows[0].translation), MaxCollected);
      && (|collected| > 0 ==> r.value.mainTranslation == collected[0].translation)
      && (|collected| == 0 ==> r.value.mainTranslation == rows[0].translation)
      && (r.value.alternatives.None? <==> |collected| < 2)
      && (|collected| >= 2 ==> r.value.alternatives == Some(Entries(collected, rows[0].pos)[1..]))
    ensures r.Some? && r.value.alternatives.Some? ==>
      var alts := r.value.alternatives.value;
      && 1 <= |alts| <= MaxCollected - 1
      && forall k :: 0 <= k < |alts| ==> IsCleanPart(alts[k].translation) && alts[k].example.None?
  {
    if |rows| == 0 then None
    else
      var first := rows[0];
      var collected := Take(Candidates(first.translation), MaxCollected);
      var main := if |collected| > 0 then collected[0].translation else first.translation;
      var entries := Entries(collected, first.pos);
      CollectedAreClean(first.translation);
      EntriesAreClean(collected, first.pos);
      Some(Formatted(main, if |entries| > 1 then Some(entries[1..]) else None))
  }

  /** The first candidates kept are clean, as all candidates are. */
  lemma CollectedAreClean(translation: string)
    ensures var collected := Take(Candidates(translation), MaxCollected);
      forall k :: 0 <= k < |collected| ==> IsCleanPart(collected[k].translation)
  {
    var cs := Candidates(translation);
    var collected := Take(cs, MaxCollected);
    assert forall k :: 0 <= k < |collected| ==> collected[k] == cs[k];
  }

  /** Entries made from clean candidates are clean and carry no example. */
  lemma EntriesAreClean(collected: seq<Candidate>, rowPos: string)
    ensures (forall k :: 0 <= k < |collected| ==> IsCleanPart(collected[k].translation)) ==>
      var es := Entries(collected, rowPos);
      forall k :: 0 <= k < |es| ==> IsCleanPart(es[k].translation) && es[k].example.None?
  {
  }

  /** Only the first row is read. */
  lemma FormatReadsFirstRow(rows1: seq<Row>, rows2: seq<Row>)
    requires |rows1| > 0 && |rows2| > 0 && rows1[0] == rows2[0]
    ensures FormatDictionaryResult(rows1) == FormatDictionaryResult(rows2)
  {
  }

  lemma SinglePart(t: string)
    requires IsCleanPart(t) && '[' !in t && '{' !in t && ExtractPartOfSpeech(t) == ""
    ensures LineCandidates([t]) == [Candidate("", t)]
  {
    TrimNoEdge(t);
    SplitWithout(t, ',');
    assert Filter([t], NotBlank) == [t];
    CleanFixedPoint(t);
    assert PartCandidates([t]) == [Candidate("", t)];
  }

  /** A one-sense entry has no alternatives and its cleaned text as the main
      translation. */
  lemma SingleSense(row: Row)
    requires IsCleanPart(row.translation) && '[' !in row.translation && '{' !in row.translation
    requires ExtractPartOfSpeech(row.translation) == ""
    ensures FormatDictionaryResult([row]) == Some(Formatted(row.translation, None))
  {
    var t := row.translation;
    SplitWithout(t, '\n');
    TrimNoEdge(t);
    assert Filter([t], NotBlank) == [t];
    SinglePart(t);
    assert Candidates(t) == [Candidate("", t)];
  }
}
