// The WWAQ spelling transformation of Hebrew chunk text: a literal replacement table
// applied in order with a change log, followed by one structural rule that joins a
// whitespace-separated כ ב ל ה into קבלה.

module Wwaq {
  import opened Text
  import opened Substrings
  import opened Decimal
  import opened Seqs

  /** The replacement table, in its iteration order. Identity entries never act. */
  const Replacements: seq<Rule> := [
    Rule("כבלה", "קבלה"),
    Rule("קבלה", "קבלה"),
    Rule("כוונה", "קוונה"),
    Rule("קוונה", "קוונה"),
    Rule("צמצום", "צמצום"),
    Rule("אין סוף", "אין סוף")
  ]

  /** A rule acts when it changes its pattern. */
  predicate Acts(rule: Rule) {
    rule.pattern != rule.replacement
  }

  /** The acting rules of a table, in order. */
  function ActingRules(rules: seq<Rule>): (r: seq<Rule>)
    ensures forall k :: 0 <= k < |r| ==> Acts(r[k]) && r[k] in rules
    decreases |rules|
  {
    if |rules| == 0 then []
    else (if Acts(rules[0]) then [rules[0]] else []) + ActingRules(rules[1..])
  }

  lemma ActingReplacements()
    ensures ActingRules(Replacements) == [Replacements[0], Replacements[2]]
  {
    assert Replacements[1..][1..] == Replacements[2..];
    assert Replacements[2..][1..] == Replacements[3..];
    assert Replacements[3..][1..] == Replacements[4..];
    assert Replacements[4..][1..] == Replacements[5..];
    assert Replacements[5..][1..] == [];
  }

  /** One entry of the change log: a literal rule with the number of its occurrences,
      or the structural rule. */
  datatype Change = Literal(rule: Rule, count: nat) | Separated

  /** The log line of a change, as it is reported. */
  function ChangeText(c: Change): (line: String)
    ensures c.Literal? ==> c.rule.pattern <= line
    ensures c.Separated? ==> line == "כ-ב-ל-ה → קבלה (getrennt)"
  {
    match c
    case Literal(rule, count) =>
      rule.pattern + " → " + rule.replacement + " (" + Digits(count) + "x)"
    case Separated => "כ-ב-ל-ה → קבלה (getrennt)"
  }

  /** A transformed text with its change log. */
  datatype Transformed = Transformed(text: String, changes: seq<Change>)

  /** The rules of the literal entries of a log. */
  function LoggedRules(changes: seq<Change>): (r: seq<Rule>)
    ensures |r| <= |changes|
    ensures (forall k :: 0 <= k < |changes| ==> changes[k].Literal?) ==> |r| == |changes|
  {
    if |changes| == 0 then []
    else (if changes[0].Literal? then [changes[0].rule] else []) + LoggedRules(changes[1..])
  }

  /** The growth in length the literal entries of a log account for. */
  function LengthDelta(changes: seq<Change>): int {
    if |changes| == 0 then 0
    else
      (match changes[0]
       case Literal(rule, count) => count * (|rule.replacement| - |rule.pattern|)
       case Separated => 0)
      + LengthDelta(changes[1..])
  }

  /** The literal stage: each acting rule whose pattern is present is replaced
      everywhere and logged with its occurrence count. */
  function ApplyLiteral(rules: seq<Rule>, text: String): (r: Transformed)
    ensures r.text == FoldReplace(rules, text)
    ensures forall k :: 0 <= k < |r.changes| ==>
              r.changes[k].Literal? && r.changes[k].count > 0 && Acts(r.changes[k].rule)
    ensures IsSubsequence(LoggedRules(r.changes), ActingRules(rules))
    decreases |rules|
  {
    if |rules| == 0 then Transformed(text, [])
    else
      var rule := rules[0];
      if Contains(text, rule.pattern) && Acts(rule) then
        var count := Count(text, rule.pattern);
        var rest := ApplyLiteral(rules[1..], Replace(text, rule.pattern, rule.replacement));
        CountPositiveIffContains(text, rule.pattern);
        SubsequenceCons(rule, LoggedRules(rest.changes), ActingRules(rules[1..]));
        assert ([Literal(rule, count)] + rest.changes)[1..] == rest.changes;
        Transformed(rest.text, [Literal(rule, count)] + rest.changes)
      else
        var rest := ApplyLiteral(rules[1..], text);
        if Acts(rule) then
          ReplaceAbsent(text, rule.pattern, rule.replacement);
          SubsequenceSkip(rule, LoggedRules(rest.changes), ActingRules(rules[1..]));
          rest
        else
          ReplaceSelf(text, rule.pattern);
          assert Replace(text, rule.pattern, rule.replacement) == text;
          assert ActingRules(rules) == ActingRules(rules[1..]);
          rest
  }

  /** The log accounts for the change in length: each logged rule grows the text by
      its count times the difference in length of its two sides. */
  lemma {:induction false} ApplyLiteralLength(rules: seq<Rule>, text: String)
    ensures |ApplyLiteral(rules, text).text| == |text| + LengthDelta(ApplyLiteral(rules, text).changes)
    decreases |rules|
  {
    if |rules| > 0 {
      var rule := rules[0];
      if Contains(text, rule.pattern) && Acts(rule) {
        var next := Replace(text, rule.pattern, rule.replacement);
        var rest := ApplyLiteral(rules[1..], next);
        ApplyLiteralLength(rules[1..], next);
        ReplaceLength(text, rule.pattern, rule.replacement);
        var grow := Count(text, rule.pattern) * (|rule.replacement| - |rule.pattern|);
        var r := ApplyLiteral(rules, text);
        assert r.changes == [Literal(rule, Count(text, rule.pattern))] + rest.changes;
        assert r.changes[1..] == rest.changes;
        assert LengthDelta(r.changes) == grow + LengthDelta(rest.changes);
        assert |next| == |text| + grow;
      } else {
        ApplyLiteralLength(rules[1..], text);
      }
    }
  }

  /** Nothing is logged exactly when no acting rule's pattern occurs in the text, and
      then the text is returned unchanged. */
  lemma {:induction false} ApplyLiteralQuiet(rules: seq<Rule>, text: String)
    ensures ApplyLiteral(rules, text).changes == [] <==>
              forall k :: 0 <= k < |rules| && Acts(rules[k]) ==> !Contains(text, rules[k].pattern)
    ensures ApplyLiteral(rules, text).changes == [] ==> ApplyLiteral(rules, text).text == text
    decreases |rules|
  {
    if |rules| > 0 {
      var rule := rules[0];
      if Contains(text, rule.pattern) && Acts(rule) {
        assert |ApplyLiteral(rules, text).changes| > 0;
      } else {
        ApplyLiteralQuiet(rules[1..], text);
        assert forall k :: 1 <= k < |rules| ==> rules[k] == rules[1..][k - 1];
      }
    }
  }

  /** The text rule `k` of a table sees at its turn: the input after the rules before it. */
  function TextAtTurn(rules: seq<Rule>, text: String, k: nat): String
    requires k <= |rules|
  {
    FoldReplace(rules[..k], text)
  }

  /** The occurrence count of rule `k`'s pattern in the text it sees at its turn. */
  function CountAtTurn(rules: seq<Rule>, text: String, k: nat): nat
    requires k < |rules|
  {
    Count(TextAtTurn(rules, text, k), rules[k].pattern)
  }

  /** Rule `k` of a table sees what rule `k - 1` of its tail sees from the text after
      the head rule. */
  lemma TurnShift(rules: seq<Rule>, text: String, k: nat)
    requires 0 < k <= |rules|
    ensures TextAtTurn(rules, text, k) ==
              TextAtTurn(rules[1..], Replace(text, rules[0].pattern, rules[0].replacement), k - 1)
  {
    assert rules[..k][0] == rules[0];
    assert rules[..k][1..] == rules[1..][..k - 1];
  }

  /** The head rule leaves the text as it is when it does not act or its pattern is absent. */
  lemma QuietHead(rule: Rule, text: String)
    requires !(Contains(text, rule.pattern) && Acts(rule))
    ensures Replace(text, rule.pattern, rule.replacement) == text
  {
    if Acts(rule) {
      ReplaceAbsent(text, rule.pattern, rule.replacement);
    } else {
      ReplaceSelf(text, rule.pattern);
    }
  }

  /** An acting rule is logged, with the number of occurrences its pattern has when its
      turn comes, exactly when the pattern is present then. */
  lemma {:induction false} ApplyLiteralLogsAtTurn(rules: seq<Rule>, text: String, k: nat)
    requires k < |rules| && Acts(rules[k])
    ensures (Literal(rules[k], CountAtTurn(rules, text, k)) in ApplyLiteral(rules, text).changes) <==>
              Contains(TextAtTurn(rules, text, k), rules[k].pattern)
    decreases k
  {
    var c := Literal(rules[k], CountAtTurn(rules, text, k));
    var changes := ApplyLiteral(rules, text).changes;
    CountPositiveIffContains(TextAtTurn(rules, text, k), rules[k].pattern);
    if !Contains(TextAtTurn(rules, text, k), rules[k].pattern) {
      assert c.count == 0 && c !in changes;
    } else if k == 0 {
      assert rules[..0] == [];
      assert changes[0] == c;
    } else {
      var rule := rules[0];
      var next := Replace(text, rule.pattern, rule.replacement);
      TurnShift(rules, text, k);
      assert rules[1..][k - 1] == rules[k];
      ApplyLiteralLogsAtTurn(rules[1..], next, k - 1);
      var rest := ApplyLiteral(rules[1..], next).changes;
      assert c in rest;
      if Contains(text, rule.pattern) && Acts(rule) {
        assert changes == [Literal(rule, Count(text, rule.pattern))] + rest;
      } else {
        QuietHead(rule, text);
        assert changes == rest;
      }
    }
  }

  /** A log entry names a rule of the table and the count its pattern has at that
      rule's turn. */
  predicate LoggedAtTurn(rules: seq<Rule>, text: String, c: Change) {
    exists k :: 0 <= k < |rules| && c == Literal(rules[k], CountAtTurn(rules, text, k))
  }

  lemma LoggedAtTurnShift(rules: seq<Rule>, text: String, c: Change)
    requires |rules| > 0
    requires LoggedAtTurn(rules[1..], Replace(text, rules[0].pattern, rules[0].replacement), c)
    ensures LoggedAtTurn(rules, text, c)
  {
    var next := Replace(text, rules[0].pattern, rules[0].replacement);
    var k :| 0 <= k < |rules[1..]| && c == Literal(rules[1..][k], CountAtTurn(rules[1..], next, k));
    TurnShift(rules, text, k + 1);
    assert c == Literal(rules[k + 1], CountAtTurn(rules, text, k + 1));
  }

  /** Every logged count is the occurrence count of its rule's pattern just before that
      rule replaced it. */
  lemma {:induction false} ApplyLiteralEntriesAtTurn(rules: seq<Rule>, text: String)
    ensures forall j :: 0 <= j < |ApplyLiteral(rules, text).changes| ==>
              LoggedAtTurn(rules, text, ApplyLiteral(rules, text).changes[j])
    decreases |rules|
  {
    if |rules| > 0 {
      var rule := rules[0];
      var next := Replace(text, rule.pattern, rule.replacement);
      var changes := ApplyLiteral(rules, text).changes;
      var rest := ApplyLiteral(rules[1..], next).changes;
      ApplyLiteralEntriesAtTurn(rules[1..], next);
      if Contains(text, rule.pattern) && Acts(rule) {
        assert changes == [Literal(rule, Count(text, rule.pattern))] + rest;
        forall j | 0 <= j < |changes|
          ensures LoggedAtTurn(rules, text, changes[j])
        {
          if j == 0 {
            assert rules[..0] == [];
            assert changes[0] == Literal(rules[0], CountAtTurn(rules, text, 0));
          } else {
            assert changes[j] == rest[j - 1];
            LoggedAtTurnShift(rules, text, changes[j]);
          }
        }
      } else {
        QuietHead(rule, text);
        assert changes == rest;
        forall j | 0 <= j < |changes|
          ensures LoggedAtTurn(rules, text, changes[j])
        {
          LoggedAtTurnShift(rules, text, changes[j]);
        }
      }
    }
  }

  // ---------------------------------------------------------------- structural rule

  /** The letters the structural rule looks for, and what it writes instead. */
  const SeparatedLetters: String := "כבלה"
  const Joined: String := "קבלה"

  /** Length of the match at the start of `s` of `letters[0]`, then the remaining
      letters each after a (possibly empty) whitespace run; 0 when there is none. */
  function MatchLetters(s: String, letters: String): (n: nat)
    requires |letters| > 0
    ensures n <= |s|
    ensures n > 0 ==> |s| > 0 && s[0] == letters[0] && |letters| <= n
    decreases |letters|, 0
  {
    if |s| == 0 || s[0] != letters[0] then 0
    else if |letters| == 1 then 1
    else
      var m := MatchAfterSpaces(s[1..], letters[1..]);
      if m == 0 then 0 else 1 + m
  }

  /** A whitespace run followed by a match of `letters`. */
  function MatchAfterSpaces(s: String, letters: String): (n: nat)
    requires |letters| > 0
    ensures n <= |s|
    ensures n > 0 ==> |letters| <= n
    decreases |letters|, 1
  {
    var k := LeadingSpaces(s);
    var m := MatchLetters(s[k..], letters);
    if m == 0 then 0 else k + m
  }

  /** The characters of `s` other than whitespace. */
  function Unspaced(s: String): (r: String)
    ensures |r| <= |s|
    ensures forall i :: 0 <= i < |r| ==> !IsSpace(r[i])
  {
    if |s| == 0 then []
    else (if IsSpace(s[0]) then [] else [s[0]]) + Unspaced(s[1..])
  }

  lemma {:induction false} UnspacedAppend(a: String, b: String)
    ensures Unspaced(a + b) == Unspaced(a) + Unspaced(b)
    decreases |a|
  {
    if |a| > 0 {
      var head: String := if IsSpace(a[0]) then [] else [a[0]];
      assert (a + b)[0] == a[0];
      assert (a + b)[1..] == a[1..] + b;
      UnspacedAppend(a[1..], b);
      assert Unspaced(a + b) == head + (Unspaced(a[1..]) + Unspaced(b));
      assert Unspaced(a) == head + Unspaced(a[1..]);
    } else {
      assert a + b == b;
    }
  }

  lemma {:induction false} UnspacedAllSpace(s: String)
    requires AllSpace(s)
    ensures Unspaced(s) == []
    decreases |s|
  {
    if |s| > 0 {
      assert AllSpace(s[1..]) by {
        forall i | 0 <= i < |s[1..]| ensures IsSpace(s[1..][i]) {
          assert s[1..][i] == s[i + 1];
        }
      }
      UnspacedAllSpace(s[1..]);
    }
  }

  /** What a match covers is exactly the letters once whitespace is dropped. */
  lemma {:induction false} MatchCoversLetters(s: String, letters: String)
    requires |letters| > 0
    requires forall i :: 0 <= i < |letters| ==> !IsSpace(letters[i])
    ensures MatchLetters(s, letters) > 0 ==> Unspaced(s[..MatchLetters(s, letters)]) == letters
    decreases |letters|
  {
    if |s| > 0 && s[0] == letters[0] {
      if |letters| == 1 {
        assert s[..1] == [s[0]];
        assert Unspaced(s[..1]) == [s[0]] + Unspaced([]);
        assert letters == [s[0]];
      } else {
        var rest := s[1..];
        var k := LeadingSpaces(rest);
        var m := MatchLetters(rest[k..], letters[1..]);
        if m > 0 {
          assert MatchAfterSpaces(rest, letters[1..]) == k + m;
          assert MatchLetters(s, letters) == 1 + k + m;
          MatchCoversLetters(rest[k..], letters[1..]);
          CoverStep(s, k, m);
          assert letters == [letters[0]] + letters[1..];
        }
      }
    }
  }

  /** A letter, a whitespace run and a stretch: once whitespace is dropped, the
      letter and what the stretch keeps. */
  lemma CoverStep(s: String, k: nat, m: nat)
    requires |s| > 0 && !IsSpace(s[0])
    requires 1 + k + m <= |s| && AllSpace(s[1..][..k])
    ensures Unspaced(s[..1 + k + m]) == [s[0]] + Unspaced(s[1..][k..][..m])
  {
    var rest := s[1..];
    assert s[..1 + k + m] == ([s[0]] + rest[..k]) + rest[k..][..m];
    UnspacedAppend([s[0]] + rest[..k], rest[k..][..m]);
    UnspacedAppend([s[0]], rest[..k]);
    UnspacedAllSpace(rest[..k]);
    assert Unspaced([s[0]]) == [s[0]] + Unspaced([]);
  }

  /** The letters written without gaps always match, over their own length. */
  lemma {:induction false} ContiguousLettersMatch(s: String, letters: String)
    requires |letters| > 0
    requires forall i :: 0 <= i < |letters| ==> !IsSpace(letters[i])
    requires letters <= s
    ensures MatchLetters(s, letters) == |letters|
    decreases |letters|
  {
    if |letters| > 1 {
      var rest := s[1..];
      assert rest[0] == letters[1];
      assert LeadingSpaces(rest) == 0;
      assert rest[0..] == rest;
      ContiguousLettersMatch(rest, letters[1..]);
    }
  }

  /** The matcher `re.sub` and `re.search` use for `כ\s*ב\s*ל\s*ה`. */
  function SeparatedMatcher(): (m: String -> nat)
    ensures IsMatcher(m)
    ensures forall x :: m(x) == MatchLetters(x, SeparatedLetters)
  {
    x => MatchLetters(x, SeparatedLetters)
  }

  /** `re.search(r'כ\s*ב\s*ל\s*ה', s)` finds a match. */
  predicate SearchSeparated(s: String) {
    exists i: nat | i <= |s| :: MatchLetters(s[i..], SeparatedLetters) > 0
  }

  /** The guard of the structural rule: `'כ' in t and 'בלה' in t` and a match exists. */
  predicate StructuralGuard(text: String) {
    Contains(text, "כ") && Contains(text, "בלה") && SearchSeparated(text)
  }

  /** The structural stage: when guarded, every separated occurrence is joined and one
      log line is added. */
  function ApplyStructural(t: Transformed): (r: Transformed)
    ensures !StructuralGuard(t.text) ==> r == t
    ensures StructuralGuard(t.text) ==> r.changes == t.changes + [Separated] && !SearchSeparated(r.text)
    ensures StructuralGuard(t.text) ==> r.text == Rewrite(t.text, SeparatedMatcher(), Joined)
  {
    if StructuralGuard(t.text) then
      var out := Rewrite(t.text, SeparatedMatcher(), Joined);
      NoSearchAfterRewrite(t.text);
      Transformed(out, t.changes + [Separated])
    else t
  }

  /** What the structural stage writes: split the text into its leftmost scan for
      `כ\s*ב\s*ל\s*ה`; every character outside a match is kept in order, every match
      (the four letters with only whitespace between them) becomes קבלה. */
  lemma StructuralRewritesEveryMatch(t: Transformed, ps: seq<Piece>)
    requires StructuralGuard(t.text) && IsScan(t.text, SeparatedMatcher(), ps)
    ensures Source(ps) == t.text
    ensures ApplyStructural(t).text == Render(ps, Joined)
    ensures forall k :: 0 <= k < |ps| && ps[k].Matched? ==> Unspaced(ps[k].span) == SeparatedLetters
  {
    ScanCovers(t.text, SeparatedMatcher(), ps);
    RewriteRendersScan(t.text, SeparatedMatcher(), Joined, ps);
    SeparatedSpans(t.text, ps);
  }

  /** Every match in a scan for `כ\s*ב\s*ל\s*ה` is the four letters with whitespace
      between them. */
  lemma {:induction false} SeparatedSpans(s: String, ps: seq<Piece>)
    requires IsScan(s, SeparatedMatcher(), ps)
    ensures forall k :: 0 <= k < |ps| && ps[k].Matched? ==> Unspaced(ps[k].span) == SeparatedLetters
    decreases |ps|
  {
    if |ps| > 0 {
      var rest := ps[1..];
      SeparatedSpans(s[|Covered(ps[0])|..], rest);
      forall k | 0 <= k < |ps| && ps[k].Matched?
        ensures Unspaced(ps[k].span) == SeparatedLetters
      {
        if k == 0 {
          MatchedSpanLetters(s, ps[0].span);
        } else {
          assert ps[k] == rest[k - 1];
        }
      }
    }
  }

  /** A span the structural matcher finds at the start of `x` is the four letters with
      whitespace between them. */
  lemma MatchedSpanLetters(x: String, span: String)
    requires span <= x && SeparatedMatcher()(x) == |span| > 0
    ensures Unspaced(span) == SeparatedLetters
  {
    LettersHaveNoSpace();
    MatchedSpanCovers(x, span, SeparatedLetters);
  }

  /** A span `MatchLetters` finds at the start of `x` is `letters` with whitespace
      between them. */
  lemma MatchedSpanCovers(x: String, span: String, letters: String)
    requires |letters| > 0 && forall i :: 0 <= i < |letters| ==> !IsSpace(letters[i])
    requires span <= x && MatchLetters(x, letters) == |span| > 0
    ensures Unspaced(span) == letters
  {
    assert span == x[..|span|];
    MatchCoversLetters(x, letters);
  }

  lemma LettersHaveNoSpace()
    ensures forall i :: 0 <= i < |SeparatedLetters| ==> !IsSpace(SeparatedLetters[i])
  {
    assert SeparatedLetters == ['כ', 'ב', 'ל', 'ה'];
  }

  /** After the structural rewrite no separated match is left. */
  lemma NoSearchAfterRewrite(s: String)
    ensures !SearchSeparated(Rewrite(s, SeparatedMatcher(), Joined))
  {
    JoinedAvoidsLetters();
    NoSeparatedAfterRewrite(s, SeparatedMatcher(), Joined, SeparatedLetters);
  }

  /** קבלה neither starts with one of the letters כ ב ל ה nor with whitespace, and
      does not contain כ. */
  lemma JoinedAvoidsLetters()
    ensures Joined[0] !in SeparatedLetters && !IsSpace(Joined[0]) && SeparatedLetters[0] !in Joined
  {
    assert Joined[0] == 'ק';
    assert SeparatedLetters[0] == 'כ';
  }

  // The lemmas below show that the rewritten text contains no separated match.

  lemma SpacedMatchStep(c: char, t: String, letters: String)
    requires |letters| > 0
    ensures IsSpace(c) ==> (MatchAfterSpaces([c] + t, letters) > 0 <==> MatchAfterSpaces(t, letters) > 0)
    ensures !IsSpace(c) ==> MatchAfterSpaces([c] + t, letters) == MatchLetters([c] + t, letters)
  {
    assert ([c] + t)[1..] == t;
    if IsSpace(c) {
      var k := LeadingSpaces(t);
      assert LeadingSpaces([c] + t) == 1 + k;
      assert ([c] + t)[1 + k..] == t[k..];
    } else {
      assert ([c] + t)[0..] == [c] + t;
    }
  }

  /** A match in a rewritten text, when the replacement cannot take part in it, was a
      match in the original text. */
  lemma {:induction false} MatchBeforeRewrite(x: String, letters: String, m: String -> nat, rep: String)
    requires IsMatcher(m) && |letters| > 0 && |rep| > 0
    requires rep[0] !in letters && !IsSpace(rep[0])
    ensures MatchLetters(Rewrite(x, m, rep), letters) > 0 ==> MatchLetters(x, letters) > 0
    decreases |x|, 0
  {
    var out := Rewrite(x, m, rep);
    if |x| == 0 {
      assert out == [];
    } else if m(x) > 0 {
      assert out[0] == rep[0] != letters[0];
    } else {
      var tail := Rewrite(x[1..], m, rep);
      assert out == [x[0]] + tail;
      assert out[1..] == tail;
      if |letters| > 1 {
        assert letters[1..][0] == letters[1];
        SpacedMatchBeforeRewrite(x[1..], letters[1..], m, rep);
      }
    }
  }

  lemma {:induction false} SpacedMatchBeforeRewrite(x: String, letters: String, m: String -> nat, rep: String)
    requires IsMatcher(m) && |letters| > 0 && |rep| > 0
    requires rep[0] !in letters && !IsSpace(rep[0])
    ensures MatchAfterSpaces(Rewrite(x, m, rep), letters) > 0 ==> MatchAfterSpaces(x, letters) > 0
    decreases |x|, 1
  {
    var out := Rewrite(x, m, rep);
    if |x| == 0 {
      assert out == [];
    } else if m(x) > 0 {
      var tail := Rewrite(x[m(x)..], m, rep);
      assert out == rep + tail;
      assert out == [rep[0]] + out[1..];
      SpacedMatchStep(rep[0], out[1..], letters);
      assert out[0] == rep[0] != letters[0];
    } else {
      var tail := Rewrite(x[1..], m, rep);
      assert out == [x[0]] + tail;
      assert x == [x[0]] + x[1..];
      SpacedMatchStep(x[0], tail, letters);
      SpacedMatchStep(x[0], x[1..], letters);
      if IsSpace(x[0]) {
        SpacedMatchBeforeRewrite(x[1..], letters, m, rep);
      } else {
        MatchBeforeRewrite(x, letters, m, rep);
      }
    }
  }

  /** Rewriting with a matcher that fires on every match of `letters` leaves no match
      of `letters`, when the replacement neither starts one nor takes part in one. */
  lemma {:induction false} NoSeparatedAfterRewrite(s: String, m: String -> nat, rep: String, letters: String)
    requires IsMatcher(m) && |letters| > 0 && |rep| > 0
    requires forall x :: MatchLetters(x, letters) > 0 ==> m(x) > 0
    requires rep[0] !in letters && !IsSpace(rep[0]) && letters[0] !in rep
    ensures forall i :: 0 <= i <= |Rewrite(s, m, rep)| ==> MatchLetters(Rewrite(s, m, rep)[i..], letters) == 0
    decreases |s|
  {
    var out := Rewrite(s, m, rep);
    if |s| == 0 {
      assert out == [];
    } else if m(s) > 0 {
      var tail := Rewrite(s[m(s)..], m, rep);
      NoSeparatedAfterRewrite(s[m(s)..], m, rep, letters);
      assert out == rep + tail;
      forall i | 0 <= i <= |out|
        ensures MatchLetters(out[i..], letters) == 0
      {
        if i < |rep| {
          assert out[i..][0] == rep[i] != letters[0];
        } else {
          assert out[i..] == tail[i - |rep|..];
        }
      }
    } else {
      var tail := Rewrite(s[1..], m, rep);
      NoSeparatedAfterRewrite(s[1..], m, rep, letters);
      assert out == [s[0]] + tail;
      forall i | 0 <= i <= |out|
        ensures MatchLetters(out[i..], letters) == 0
      {
        if i == 0 {
          MatchBeforeRewrite(s, letters, m, rep);
          assert out[0..] == out;
        } else {
          assert out[i..] == tail[i - 1..];
        }
      }
    }
  }

  // ---------------------------------------------------------------- the whole transformation

  /** `apply_wwaq_transformation`: the literal table, then the structural rule. At most
      the two acting rules are logged, each with a positive count, and the structural
      entry, if any, comes last. */
  function ApplyWwaqTransformation(text: String): (r: Transformed)
    ensures |r.changes| <= 3
    ensures forall k :: 0 <= k < |r.changes| && r.changes[k].Literal? ==>
              r.changes[k].count > 0 && (r.changes[k].rule == Replacements[0] || r.changes[k].rule == Replacements[2])
    ensures forall k :: 0 <= k < |r.changes| - 1 ==> r.changes[k].Literal?
  {
    var lit := ApplyLiteral(Replacements, text);
    LiteralLogShape(text);
    var r := ApplyStructural(lit);
    LogWithSeparated(lit.changes, r.changes, Replacements[0], Replacements[2]);
    r
  }

  /** A log of at most two literal entries for two rules, with the structural entry
      possibly appended, has at most three entries, the literal ones for those rules,
      and only the last one can be structural. */
  lemma LogWithSeparated(lits: seq<Change>, cs: seq<Change>, a: Rule, b: Rule)
    requires |lits| <= 2
    requires forall k :: 0 <= k < |lits| ==> lits[k].Literal? && lits[k].count > 0
    requires forall k :: 0 <= k < |lits| ==> lits[k].rule in [a, b]
    requires cs == lits || cs == lits + [Separated]
    ensures |cs| <= 3
    ensures forall k :: 0 <= k < |cs| && cs[k].Literal? ==>
              cs[k].count > 0 && (cs[k].rule == a || cs[k].rule == b)
    ensures forall k :: 0 <= k < |cs| - 1 ==> cs[k].Literal?
  {
    forall k | 0 <= k < |lits|
      ensures cs[k] == lits[k]
    {
    }
  }

  /** The literal stage logs at most the two acting rules of the table. */
  lemma LiteralLogShape(text: String)
    ensures |ApplyLiteral(Replacements, text).changes| <= 2
    ensures forall k :: 0 <= k < |ApplyLiteral(Replacements, text).changes| ==>
              ApplyLiteral(Replacements, text).changes[k].rule in [Replacements[0], Replacements[2]]
  {
    var changes := ApplyLiteral(Replacements, text).changes;
    ActingReplacements();
    SubsequenceBounds(LoggedRules(changes), ActingRules(Replacements));
    LoggedRulesMembers(changes);
  }

  lemma {:induction false} LoggedRulesMembers(changes: seq<Change>)
    ensures forall k :: 0 <= k < |changes| && changes[k].Literal? ==> changes[k].rule in LoggedRules(changes)
  {
    if |changes| > 0 {
      LoggedRulesMembers(changes[1..]);
      forall k | 1 <= k < |changes| && changes[k].Literal?
        ensures changes[k].rule in LoggedRules(changes)
      {
        assert changes[k] == changes[1..][k - 1];
      }
    }
  }

  /** The structural stage keeps the literal entries of the log where they are. */
  lemma StructuralKeepsLiteralLog(t: Transformed)
    requires forall k :: 0 <= k < |t.changes| ==> t.changes[k].Literal?
    ensures forall c: Change :: c.Literal? ==> (c in ApplyStructural(t).changes <==> c in t.changes)
    ensures forall j :: 0 <= j < |ApplyStructural(t).changes| && ApplyStructural(t).changes[j].Literal? ==>
              j < |t.changes| && ApplyStructural(t).changes[j] == t.changes[j]
  {
  }

  /** כבלה is looked for in the input, כוונה in the input with כבלה replaced. */
  lemma ReplacementTurns(text: String)
    ensures TextAtTurn(Replacements, text, 0) == text
    ensures TextAtTurn(Replacements, text, 2) == Replace(text, "כבלה", "קבלה")
    ensures Replacements[0].pattern == "כבלה" && Replacements[2].pattern == "כוונה"
  {
    assert Replacements[..0] == [];
    var afterFirst := Replace(text, "כבלה", "קבלה");
    var r := Replacements[..2];
    assert r[0] == Rule("כבלה", "קבלה") && r[1] == Rule("קבלה", "קבלה");
    assert r[1..][1..] == [];
    calc {
      FoldReplace(r, text);
      FoldReplace(r[1..], afterFirst);
      FoldReplace(r[1..][1..], Replace(afterFirst, "קבלה", "קבלה"));
      { ReplaceSelf(afterFirst, "קבלה"); }
      afterFirst;
    }
  }

  /** An acting rule of the table is logged by the whole transformation, with its count
      at its turn, exactly when its pattern is present at its turn. */
  lemma TransformationLogsAtTurn(text: String, k: nat)
    requires k < |Replacements| && Acts(Replacements[k])
    ensures (Literal(Replacements[k], CountAtTurn(Replacements, text, k)) in ApplyWwaqTransformation(text).changes) <==>
              Contains(TextAtTurn(Replacements, text, k), Replacements[k].pattern)
  {
    var lit := ApplyLiteral(Replacements, text);
    assert ApplyWwaqTransformation(text) == ApplyStructural(lit);
    StructuralKeepsLiteralLog(lit);
    ApplyLiteralLogsAtTurn(Replacements, text, k);
  }

  /** כבלה is logged with its number of occurrences in the input exactly when it occurs
      there. */
  lemma TransformationLogsKabbala(text: String)
    ensures (Literal(Replacements[0], Count(text, "כבלה")) in ApplyWwaqTransformation(text).changes) <==>
              Contains(text, "כבלה")
  {
    ReplacementTurns(text);
    TransformationLogsAtTurn(text, 0);
  }

  /** כוונה is logged with its number of occurrences once כבלה has been replaced,
      exactly when it occurs then. */
  lemma TransformationLogsKawwana(text: String)
    ensures var afterFirst := Replace(text, "כבלה", "קבלה");
            (Literal(Replacements[2], Count(afterFirst, "כוונה")) in ApplyWwaqTransformation(text).changes) <==>
              Contains(afterFirst, "כוונה")
  {
    ReplacementTurns(text);
    TransformationLogsAtTurn(text, 2);
  }

  /** Every literal entry of the transformation's log is a rule of the table with the
      count its pattern has at that rule's turn. */
  lemma TransformationEntriesAtTurn(text: String)
    ensures forall j :: 0 <= j < |ApplyWwaqTransformation(text).changes| &&
                        ApplyWwaqTransformation(text).changes[j].Literal? ==>
              LoggedAtTurn(Replacements, text, ApplyWwaqTransformation(text).changes[j])
  {
    var lit := ApplyLiteral(Replacements, text);
    assert ApplyWwaqTransformation(text) == ApplyStructural(lit);
    StructuralKeepsLiteralLog(lit);
    ApplyLiteralEntriesAtTurn(Replacements, text);
  }

  /** After the literal stage neither legacy spelling is left. */
  lemma LiteralStageRemovesLegacy(text: String)
    ensures !Contains(ApplyLiteral(Replacements, text).text, "כבלה")
    ensures !Contains(ApplyLiteral(Replacements, text).text, "כוונה")
  {
    var t1 := Replace(text, "כבלה", "קבלה");
    ReplaceRemovesPattern(text, "כבלה", "קבלה");
    ReplaceSelf(t1, "קבלה");
    var t3 := Replace(t1, "כוונה", "קוונה");
    ReplaceRemovesPattern(t1, "כוונה", "קוונה");
    ReplaceKeepsAbsent(t1, "כוונה", "קוונה", "כבלה");
    ReplaceSelf(t3, "קוונה");
    ReplaceSelf(t3, "צמצום");
    ReplaceSelf(t3, "אין סוף");
    assert FoldReplace(Replacements[5..], t3) == FoldReplace([], t3);
    assert FoldReplace(Replacements[4..], t3) == FoldReplace(Replacements[5..], t3);
    assert FoldReplace(Replacements[3..], t3) == FoldReplace(Replacements[4..], t3);
    assert FoldReplace(Replacements[2..], t1) == FoldReplace(Replacements[3..], t3);
    assert FoldReplace(Replacements[1..], t1) == FoldReplace(Replacements[2..], t1);
    assert FoldReplace(Replacements, text) == FoldReplace(Replacements[1..], t1);
  }

  /** A text without legacy spellings passes the literal stage untouched. */
  lemma LiteralStageQuiet(text: String)
    requires !Contains(text, "כבלה") && !Contains(text, "כוונה")
    ensures ApplyLiteral(Replacements, text) == Transformed(text, [])
  {
    ApplyLiteralQuiet(Replacements, text);
    forall k | 0 <= k < |Replacements|
      ensures Acts(Replacements[k]) ==> !Contains(text, Replacements[k].pattern)
    {
      if k != 0 && k != 2 {
        assert !Acts(Replacements[k]);
      }
    }
  }

  /** The legacy spellings and קבלה cannot overlap one another. */
  lemma LegacyAvoidsJoined()
    ensures "כבלה"[0] !in Joined && Joined[0] !in "כבלה"[1..]
    ensures "כוונה"[0] !in Joined && Joined[0] !in "כוונה"[1..]
  {
    assert Joined[0] == 'ק';
    assert "כבלה"[1..] == "בלה";
    assert "כוונה"[1..] == "וונה";
  }

  /** Neither legacy spelling survives the transformation. */
  lemma TransformationRemovesLegacy(text: String)
    ensures !Contains(ApplyWwaqTransformation(text).text, "כבלה")
    ensures !Contains(ApplyWwaqTransformation(text).text, "כוונה")
  {
    var lit := ApplyLiteral(Replacements, text);
    LiteralStageRemovesLegacy(text);
    if StructuralGuard(lit.text) {
      LegacyAvoidsJoined();
      RewriteLeavesNoOccurrence(lit.text, SeparatedMatcher(), Joined, "כבלה");
      RewriteLeavesNoOccurrence(lit.text, SeparatedMatcher(), Joined, "כוונה");
    }
  }

  /** Re-applying the transformation to its own output changes nothing and logs nothing. */
  lemma TransformationIdempotent(text: String)
    ensures ApplyWwaqTransformation(ApplyWwaqTransformation(text).text)
            == Transformed(ApplyWwaqTransformation(text).text, [])
  {
    var lit := ApplyLiteral(Replacements, text);
    var y := ApplyWwaqTransformation(text).text;
    TransformationRemovesLegacy(text);
    LiteralStageQuiet(y);
    var quiet := Transformed(y, []);
    if y != lit.text {
      assert !SearchSeparated(y);
    } else {
      assert !(Contains(lit.text, "כ") && Contains(lit.text, "בלה") && SearchSeparated(lit.text));
    }
    assert ApplyStructural(quiet) == quiet;
  }

  /** A text in which every second character is a blank holds no two adjacent letters. */
  lemma GappedTextMissesPairs(s: String, p: String)
    requires forall i :: 0 <= i < |s| && i % 2 == 1 ==> s[i] == ' '
    requires |p| >= 2 && p[0] != ' ' && p[1] != ' '
    ensures !Contains(s, p)
  {
    forall i: nat | i <= |s|
      ensures !OccursAt(s, p, i)
    {
      if i + |p| <= |s| {
        if i % 2 == 1 {
          assert s[i..i + |p|][0] == s[i];
        } else {
          assert s[i..i + |p|][1] == s[i + 1];
        }
      }
    }
  }

  /** The letters כ ב ל ה, each followed by a blank but the last. */
  const FullySeparated: String := "כ ב ל ה"

  lemma FullySeparatedIsGapped()
    ensures forall i :: 0 <= i < |FullySeparated| && i % 2 == 1 ==> FullySeparated[i] == ' '
  {
    assert |FullySeparated| == 7;
    assert FullySeparated[1] == ' ' && FullySeparated[3] == ' ' && FullySeparated[5] == ' ';
  }

  /** The structural rule is guarded by `'בלה' in t`, so a fully separated כ ב ל ה,
      although it matches the pattern, is left as it is and nothing is logged. */
  lemma FullySeparatedIsKept()
    ensures SearchSeparated(FullySeparated)
    ensures ApplyWwaqTransformation(FullySeparated) == Transformed(FullySeparated, [])
  {
    MatchLettersSeparatedExample();
    assert FullySeparated[0..] == FullySeparated;
    FullySeparatedMissesPairs();
    UnguardedTextKept(FullySeparated);
  }

  lemma FullySeparatedMissesPairs()
    ensures !Contains(FullySeparated, "כבלה") && !Contains(FullySeparated, "כוונה")
    ensures !Contains(FullySeparated, "בלה")
  {
    FullySeparatedIsGapped();
    GappedTextMissesPairs(FullySeparated, "כבלה");
    GappedTextMissesPairs(FullySeparated, "כוונה");
    GappedTextMissesPairs(FullySeparated, "בלה");
  }

  /** A text holding neither legacy spelling nor a contiguous בלה is returned as it
      is, with an empty log. */
  lemma UnguardedTextKept(text: String)
    requires !Contains(text, "כבלה") && !Contains(text, "כוונה") && !Contains(text, "בלה")
    ensures ApplyWwaqTransformation(text) == Transformed(text, [])
  {
    LiteralStageQuiet(text);
    assert !StructuralGuard(text);
  }

  lemma MatchLettersSeparatedExample()
    ensures MatchLetters(FullySeparated, SeparatedLetters) == 7
  {
    assert FullySeparated[1..] == " ב ל ה";
    assert LeadingSpaces(" ב ל ה") == 1 by {
      assert " ב ל ה"[1..] == "ב ל ה";
    }
    assert " ב ל ה"[1..] == "ב ל ה";
    assert SeparatedLetters[1..] == "בלה";
    assert "ב ל ה"[1..] == " ל ה";
    assert LeadingSpaces(" ל ה") == 1 by {
      assert " ל ה"[1..] == "ל ה";
    }
    assert " ל ה"[1..] == "ל ה";
    assert "בלה"[1..] == "לה";
    assert "ל ה"[1..] == " ה";
    assert LeadingSpaces(" ה") == 1 by {
      assert " ה"[1..] == "ה";
    }
    assert " ה"[1..] == "ה";
    assert "לה"[1..] == "ה";
    assert MatchLetters("ה", "ה") == 1;
    assert MatchAfterSpaces(" ה", "ה") == 2;
    assert MatchLetters("ל ה", "לה") == 3;
    assert MatchAfterSpaces(" ל ה", "לה") == 4;
    assert MatchLetters("ב ל ה", "בלה") == 5;
    assert MatchAfterSpaces(" ב ל ה", "בלה") == 6;
  }
}
