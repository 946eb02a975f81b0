/**
 * Substring search and literal replacement with Python's semantics:
 * `p in s`, `s.count(p)` and `s.replace(p, r)` (non-overlapping, left to right),
 * and the sequential rule tables built from them.
 */
module Substrings {
  import opened Text

  /** `p` occurs in `s` starting at index `i`. */
  predicate OccursAt(s: String, p: String, i: nat) {
    i + |p| <= |s| && s[i..i + |p|] == p
  }

  /** Python's `p in s`. */
  predicate Contains(s: String, p: String) {
    exists i: nat | i <= |s| :: OccursAt(s, p, i)
  }

  /** `s.count(p)` for a non-empty `p`. */
  function Count(s: String, p: String): nat
    requires |p| > 0
    decreases |s|
  {
    if |s| < |p| then 0
    else if p <= s then 1 + Count(s[|p|..], p)
    else Count(s[1..], p)
  }

  /** `s.replace(p, r)` for a non-empty `p`. */
  function Replace(s: String, p: String, r: String): String
    requires |p| > 0
    decreases |s|
  {
    if |s| < |p| then s
    else if p <= s then r + Replace(s[|p|..], p, r)
    else [s[0]] + Replace(s[1..], p, r)
  }

  /** A search pattern: Python's rule tables never use the empty string as a key. */
  type Pattern = p: String | |p| > 0 witness "."

  /** A literal rewrite rule `pattern → replacement`. */
  datatype Rule = Rule(pattern: Pattern, replacement: String)

  /** Applies `s.replace(old, new)` for every rule, in table order, each rule to the
      output of the one before it. */
  function FoldReplace(rules: seq<Rule>, s: String): String
    decreases |rules|
  {
    if |rules| == 0 then s
    else FoldReplace(rules[1..], Replace(s, rules[0].pattern, rules[0].replacement))
  }

  // ---------------------------------------------------------------- containment

  lemma ContainsShift(s: String, p: String)
    requires |s| > 0
    ensures Contains(s, p) <==> OccursAt(s, p, 0) || Contains(s[1..], p)
  {
    if Contains(s, p) && !OccursAt(s, p, 0) {
      var i: nat :| i <= |s| && OccursAt(s, p, i);
      assert s[1..][i - 1..i - 1 + |p|] == s[i..i + |p|];
      assert OccursAt(s[1..], p, i - 1);
    }
    if Contains(s[1..], p) {
      var i: nat :| i <= |s[1..]| && OccursAt(s[1..], p, i);
      assert s[i + 1..i + 1 + |p|] == s[1..][i..i + |p|];
      assert OccursAt(s, p, i + 1);
    }
  }

  lemma ContainsShort(s: String, p: String)
    requires |s| < |p|
    ensures !Contains(s, p)
  {
  }


  /** A character of `p` that does not occur in `s` rules out every occurrence. */
  lemma MissingCharNotContained(s: String, p: String, j: nat)
    requires j < |p| && p[j] !in s
    ensures !Contains(s, p)
  {
  }

  lemma ContainsInfix(a: String, p: String, b: String)
    ensures Contains(a + p + b, p)
  {
    assert (a + p + b)[|a|..|a| + |p|] == p;
    assert OccursAt(a + p + b, p, |a|);
  }

  lemma ContainsMonotone(s: String, t: String, p: String)
    requires Contains(t, p)
    ensures Contains(s + t, p) && Contains(t + s, p)
  {
    var i: nat :| i <= |t| && OccursAt(t, p, i);
    assert (s + t)[|s| + i..|s| + i + |p|] == t[i..i + |p|];
    assert OccursAt(s + t, p, |s| + i);
    assert (t + s)[i..i + |p|] == t[i..i + |p|];
    assert OccursAt(t + s, p, i);
  }

  // ---------------------------------------------------------------- count / replace

  /** `s.count(p) > 0` exactly when `p in s`. */
  lemma {:induction false} CountPositiveIffContains(s: String, p: String)
    requires |p| > 0
    ensures Count(s, p) > 0 <==> Contains(s, p)
    decreases |s|
  {
    if |s| < |p| {
      ContainsShort(s, p);
    } else if p <= s {
      assert OccursAt(s, p, 0);
    } else {
      assert !OccursAt(s, p, 0);
      ContainsShift(s, p);
      CountPositiveIffContains(s[1..], p);
    }
  }

  /** Replacing a pattern that does not occur changes nothing. */
  lemma {:induction false} ReplaceAbsent(s: String, p: String, r: String)
    requires |p| > 0 && !Contains(s, p)
    ensures Replace(s, p, r) == s
    decreases |s|
  {
    if |s| >= |p| {
      assert !OccursAt(s, p, 0);
      ContainsShift(s, p);
      ReplaceAbsent(s[1..], p, r);
    }
  }

  /** Each of the `Count(s, p)` occurrences changes the length by `|r| - |p|`. */
  lemma {:induction false} ReplaceLength(s: String, p: String, r: String)
    requires |p| > 0
    ensures |Replace(s, p, r)| == |s| + Count(s, p) * (|r| - |p|)
    decreases |s|
  {
    var d := |r| - |p|;
    if |s| < |p| {
    } else if p <= s {
      var rest := s[|p|..];
      var c := Count(rest, p);
      ReplaceLength(rest, p, r);
      assert Replace(s, p, r) == r + Replace(rest, p, r);
      assert Count(s, p) == 1 + c;
      MulDistrib(c, d);
    } else {
      ReplaceLength(s[1..], p, r);
    }
  }

  lemma MulDistrib(c: int, d: int)
    ensures (1 + c) * d == d + c * d
  {
  }

  /** A rule whose replacement equals its pattern is the identity. */
  lemma {:induction false} ReplaceSelf(s: String, p: String)
    requires |p| > 0
    ensures Replace(s, p, p) == s
    decreases |s|
  {
    if |s| < |p| {
    } else if p <= s {
      ReplaceSelf(s[|p|..], p);
      assert s == p + s[|p|..];
    } else {
      ReplaceSelf(s[1..], p);
      assert s == [s[0]] + s[1..];
    }
  }

  // ---------------------------------------------------------------- rule tables

  /** A table applied to a text that contains none of its patterns returns the text. */
  lemma {:induction false} FoldReplaceUntouched(rules: seq<Rule>, s: String)
    requires forall k :: 0 <= k < |rules| ==> !Contains(s, rules[k].pattern)
    ensures FoldReplace(rules, s) == s
    decreases |rules|
  {
    if |rules| > 0 {
      ReplaceAbsent(s, rules[0].pattern, rules[0].replacement);
      FoldReplaceUntouched(rules[1..], s);
    }
  }

  /** A table leaves a text alone when every pattern has a character, at the position
      `js` names, that the text lacks. */
  lemma FoldReplaceMissingChars(rules: seq<Rule>, s: String, js: seq<nat>)
    requires |js| == |rules|
    requires forall k :: 0 <= k < |rules| ==> js[k] < |rules[k].pattern| && rules[k].pattern[js[k]] !in s
    ensures FoldReplace(rules, s) == s
  {
    forall k | 0 <= k < |rules| ensures !Contains(s, rules[k].pattern) {
      MissingCharNotContained(s, rules[k].pattern, js[k]);
    }
    FoldReplaceUntouched(rules, s);
  }

  /** A table whose every pattern holds `c` leaves a text without `c` alone. */
  lemma FoldReplaceSharedChar(rules: seq<Rule>, c: char, s: String)
    requires forall k :: 0 <= k < |rules| ==> c in rules[k].pattern
    requires c !in s
    ensures FoldReplace(rules, s) == s
  {
    forall k | 0 <= k < |rules| ensures !Contains(s, rules[k].pattern) {
      var p := rules[k].pattern;
      var j :| 0 <= j < |p| && p[j] == c;
      MissingCharNotContained(s, p, j);
    }
    FoldReplaceUntouched(rules, s);
  }

  /** A text that starts with the pattern, and holds no further occurrence, is
      rewritten at its head only. */
  lemma ReplaceAtHead(p: Pattern, rest: String, r: String)
    requires !Contains(rest, p)
    ensures Replace(p + rest, p, r) == r + rest
  {
    var s := p + rest;
    assert p <= s;
    assert s[|p|..] == rest;
    ReplaceAbsent(rest, p, r);
  }

  /** The same, when the rest lacks one of the pattern's characters. */
  lemma ReplaceAtHeadMissingChar(p: Pattern, rest: String, r: String, j: nat)
    requires j < |p| && p[j] !in rest
    ensures Replace(p + rest, p, r) == r + rest
  {
    MissingCharNotContained(rest, p, j);
    ReplaceAtHead(p, rest, r);
  }

  /** A two-rule table is two replacements in a row. */
  lemma FoldReplacePair(a: Rule, b: Rule, s: String)
    ensures FoldReplace([a, b], s) == Replace(Replace(s, a.pattern, a.replacement), b.pattern, b.replacement)
  {
    var x := Replace(s, a.pattern, a.replacement);
    assert [a, b][1..] == [b];
    assert FoldReplace([a, b], s) == FoldReplace([b], x);
    assert [b][1..] == [];
    assert FoldReplace([b], x) == FoldReplace([], Replace(x, b.pattern, b.replacement));
  }

  /** A table in which exactly one rule, at index `n`, changes the text. */
  lemma FoldReplaceOneFires(rules: seq<Rule>, n: nat, s: String, t: String)
    requires n < |rules|
    requires FoldReplace(rules[..n], s) == s
    requires Replace(s, rules[n].pattern, rules[n].replacement) == t
    requires FoldReplace(rules[n + 1..], t) == t
    ensures FoldReplace(rules, s) == t
  {
    FoldReplaceSplit(rules[..n], rules[n..], s);
    assert rules == rules[..n] + rules[n..];
    assert rules[n..][1..] == rules[n + 1..];
  }

  /** Running a table is running its first part, then its second part. */
  lemma {:induction false} FoldReplaceSplit(a: seq<Rule>, b: seq<Rule>, s: String)
    ensures FoldReplace(a + b, s) == FoldReplace(b, FoldReplace(a, s))
    decreases |a|
  {
    if |a| > 0 {
      assert (a + b)[1..] == a[1..] + b;
      FoldReplaceSplit(a[1..], b, Replace(s, a[0].pattern, a[0].replacement));
    } else {
      assert a + b == b;
    }
  }

  // ---------------------------------------------------------------- generic rewriting

  /** A matcher reports the length of the match at the start of its argument (0: none). */
  ghost predicate IsMatcher(m: String -> nat) {
    forall x :: m(x) <= |x|
  }

  /** Left-to-right, non-overlapping rewriting of every match of `m` by `rep`: the shape
      shared by `str.replace` and `re.sub` with a pattern that never matches empty. */
  function Rewrite(s: String, m: String -> nat, rep: String): String
    requires IsMatcher(m)
    decreases |s|
  {
    if |s| == 0 then []
    else if m(s) > 0 then rep + Rewrite(s[m(s)..], m, rep)
    else [s[0]] + Rewrite(s[1..], m, rep)
  }

  /** The matcher of a literal pattern. */
  function PrefixMatcher(p: Pattern): (m: String -> nat)
    ensures IsMatcher(m)
    ensures forall x :: m(x) > 0 <==> p <= x
  {
    x => if p <= x then |p| else 0
  }

  /** One step of a left-to-right scan: a character at which no match starts, or the
      match found there. */
  datatype Piece = Kept(c: char) | Matched(span: String)

  /** The text a piece stands for in the original. */
  function Covered(p: Piece): String {
    match p
    case Kept(c) => [c]
    case Matched(span) => span
  }

  /** The original text of a scan, piece after piece. */
  function Source(ps: seq<Piece>): String {
    if |ps| == 0 then [] else Covered(ps[0]) + Source(ps[1..])
  }

  /** The rewritten text of a scan: kept characters stay in order, every match becomes
      `rep`. */
  function Render(ps: seq<Piece>, rep: String): String {
    if |ps| == 0 then [] else (if ps[0].Kept? then [ps[0].c] else rep) + Render(ps[1..], rep)
  }

  /** Piece `p` is what the leftmost scan sees at the start of `s`: its text starts
      `s`, a kept character is one no match starts at, and a match is exactly as long
      as the one `m` finds. */
  predicate ScanStep(s: String, m: String -> nat, p: Piece) {
    Covered(p) <= s &&
    (if p.Kept? then m(s) == 0 else m(s) == |p.span| > 0)
  }

  /** `ps` is the leftmost, non-overlapping scan of `s` by `m`: each piece is what the
      scan sees where the pieces before it end, and together they use up `s`. */
  predicate IsScan(s: String, m: String -> nat, ps: seq<Piece>)
    decreases |ps|
  {
    if |ps| == 0 then s == []
    else ScanStep(s, m, ps[0]) && IsScan(s[|Covered(ps[0])|..], m, ps[1..])
  }

  /** The pieces of a scan spell out the scanned text, in order. */
  lemma {:induction false} ScanCovers(s: String, m: String -> nat, ps: seq<Piece>)
    requires IsScan(s, m, ps)
    ensures Source(ps) == s
    decreases |ps|
  {
    if |ps| > 0 {
      var head := Covered(ps[0]);
      var rest := s[|head|..];
      assert head == s[..|head|];
      ScanCovers(rest, m, ps[1..]);
      assert Source(ps) == head + rest;
      assert s == s[..|head|] + rest;
    }
  }

  /** The leftmost scan of `s` by `m`: every text has one. */
  function ScanOf(s: String, m: String -> nat): (ps: seq<Piece>)
    requires IsMatcher(m)
    ensures IsScan(s, m, ps)
    decreases |s|
  {
    if |s| == 0 then []
    else
      var p := if m(s) > 0 then Matched(s[..m(s)]) else Kept(s[0]);
      var rest := ScanOf(s[|Covered(p)|..], m);
      assert ([p] + rest)[1..] == rest;
      [p] + rest
  }

  /** `Rewrite` keeps the text outside the matches in order and puts `rep` in place of
      every leftmost match: it is the rendering of the scan of its input. */
  lemma {:induction false} RewriteRendersScan(s: String, m: String -> nat, rep: String, ps: seq<Piece>)
    requires IsMatcher(m) && IsScan(s, m, ps)
    ensures Rewrite(s, m, rep) == Render(ps, rep)
    decreases |ps|
  {
    if |ps| > 0 {
      RewriteRendersScan(s[|Covered(ps[0])|..], m, rep, ps[1..]);
    }
  }

  /** A text has one leftmost scan only. */
  lemma {:induction false} ScanUnique(s: String, m: String -> nat, ps: seq<Piece>, qs: seq<Piece>)
    requires IsScan(s, m, ps) && IsScan(s, m, qs)
    ensures ps == qs
    decreases |ps|
  {
    if |ps| > 0 && |qs| > 0 {
      assert ps[0] == qs[0] by {
        if ps[0].Matched? && qs[0].Matched? {
          assert ps[0].span == s[..|ps[0].span|];
          assert qs[0].span == s[..|qs[0].span|];
        }
      }
      ScanUnique(s[|Covered(ps[0])|..], m, ps[1..], qs[1..]);
      assert ps == [ps[0]] + ps[1..];
      assert qs == [qs[0]] + qs[1..];
    } else if |ps| > 0 || |qs| > 0 {
      assert false;
    }
  }

  /** `str.replace` is the rewriting driven by the literal matcher. */
  lemma {:induction false} ReplaceIsRewrite(s: String, p: Pattern, r: String)
    ensures Replace(s, p, r) == Rewrite(s, PrefixMatcher(p), r)
    decreases |s|
  {
    var m := PrefixMatcher(p);
    if |s| == 0 {
    } else if |s| < |p| {
      assert !(p <= s);
      ReplaceIsRewrite(s[1..], p, r);
      assert Replace(s[1..], p, r) == s[1..];
      assert s == [s[0]] + s[1..];
    } else if p <= s {
      ReplaceIsRewrite(s[|p|..], p, r);
    } else {
      ReplaceIsRewrite(s[1..], p, r);
    }
  }

  /** A text too short for a pattern is returned by `Replace` unchanged. */
  lemma ReplaceShort(s: String, p: Pattern, r: String)
    requires |s| < |p|
    ensures Replace(s, p, r) == s
  {
  }

  lemma ContainsSuffix(s: String, p: String, n: nat)
    requires n <= |s| && Contains(s[n..], p)
    ensures Contains(s, p)
  {
    assert s == s[..n] + s[n..];
    ContainsMonotone(s[..n], s[n..], p);
  }

  /** A prefix of a rewritten text that avoids the first character of `rep` was already
      a prefix of the original text. */
  lemma {:induction false} PrefixOfRewrite(t: String, x: String, m: String -> nat, rep: String)
    requires IsMatcher(m) && |rep| > 0 && rep[0] !in t
    ensures t <= Rewrite(x, m, rep) ==> t <= x
    decreases |x|
  {
    if |t| == 0 {
    } else if |x| == 0 {
      assert Rewrite(x, m, rep) == [];
    } else if m(x) > 0 {
      assert Rewrite(x, m, rep)[0] == rep[0];
      assert rep[0] != t[0];
    } else {
      var tail := Rewrite(x[1..], m, rep);
      assert Rewrite(x, m, rep) == [x[0]] + tail;
      PrefixOfRewrite(t[1..], x[1..], m, rep);
      if t <= Rewrite(x, m, rep) {
        assert t[1..] <= tail;
        assert t == [x[0]] + t[1..];
      }
    }
  }

  /** A non-empty prefix is its first character followed by a prefix of the rest. */
  lemma PrefixCons(p: String, x: String)
    requires |p| > 0 && |x| > 0
    ensures p <= x <==> p[0] == x[0] && p[1..] <= x[1..]
  {
    if p[0] == x[0] && p[1..] <= x[1..] {
      assert p == [x[0]] + p[1..];
    }
  }

  /** The matcher fires wherever `p` starts. */
  ghost predicate Catches(m: String -> nat, p: String) {
    forall x :: p <= x ==> m(x) > 0
  }

  /** An occurrence at or after the end of `head` is an occurrence in `tail`. */
  lemma OccursInTail(head: String, tail: String, p: String, i: nat)
    requires |head| <= i
    ensures OccursAt(head + tail, p, i) <==> OccursAt(tail, p, i - |head|)
  {
    if i + |p| <= |head + tail| {
      assert (head + tail)[i..i + |p|] == tail[i - |head|..i - |head| + |p|];
    }
  }

  /** `p` does not occur in `head + tail` when it does not occur in `tail` and cannot
      start inside `head`. */
  lemma ContainsAfterHead(head: String, tail: String, p: String)
    requires |p| > 0 && p[0] !in head && !Contains(tail, p)
    ensures !Contains(head + tail, p)
  {
    forall i: nat | i <= |head + tail|
      ensures !OccursAt(head + tail, p, i)
    {
      if i < |head| {
        assert (head + tail)[i] == head[i] != p[0];
      } else {
        OccursInTail(head, tail, p, i);
        assert !OccursAt(tail, p, i - |head|);
      }
    }
  }

  /** Rewriting creates no new occurrence of `p` when `p` cannot start inside `rep` and
      `rep` cannot start inside `p`; if the matcher catches `p`, none survives either. */
  lemma {:induction false} RewriteLeavesNoOccurrence(s: String, m: String -> nat, rep: String, p: String)
    requires IsMatcher(m) && |p| > 0 && |rep| > 0
    requires p[0] !in rep && rep[0] !in p[1..]
    requires !Contains(s, p) || Catches(m, p)
    ensures !Contains(Rewrite(s, m, rep), p)
    decreases |s|
  {
    var out := Rewrite(s, m, rep);
    if |s| == 0 {
      return;
    }
    if m(s) > 0 {
      var rest := s[m(s)..];
      if Contains(rest, p) {
        ContainsSuffix(s, p, m(s));
      }
      RewriteLeavesNoOccurrence(rest, m, rep, p);
      var tail := Rewrite(rest, m, rep);
      assert out == rep + tail;
      ContainsAfterHead(rep, tail, p);
    } else {
      if Contains(s[1..], p) {
        ContainsSuffix(s, p, 1);
      }
      RewriteLeavesNoOccurrence(s[1..], m, rep, p);
      var tail := Rewrite(s[1..], m, rep);
      assert out == [s[0]] + tail;
      assert !OccursAt(s, p, 0);
      forall i: nat | i <= |out|
        ensures !OccursAt(out, p, i)
      {
        if i == 0 {
          PrefixOfRewrite(p[1..], s[1..], m, rep);
          PrefixCons(p, s);
          PrefixCons(p, out);
        } else {
          OccursInTail([s[0]], tail, p, i);
          assert !OccursAt(tail, p, i - 1);
        }
      }
    }
  }

  /** After `s.replace(p, r)` no occurrence of `p` is left, provided `p` and `r` cannot
      overlap (`p[0]` not in `r`, `r[0]` not in `p[1:]`). */
  lemma ReplaceRemovesPattern(s: String, p: Pattern, r: String)
    requires |r| > 0 && p[0] !in r && r[0] !in p[1..]
    ensures !Contains(Replace(s, p, r), p)
  {
    ReplaceIsRewrite(s, p, r);
    RewriteLeavesNoOccurrence(s, PrefixMatcher(p), r, p);
  }

  /** Under the same no-overlap conditions `s.replace(q, r)` creates no occurrence of `p`. */
  lemma ReplaceKeepsAbsent(s: String, q: Pattern, r: String, p: String)
    requires |p| > 0 && |r| > 0 && p[0] !in r && r[0] !in p[1..]
    requires !Contains(s, p)
    ensures !Contains(Replace(s, q, r), p)
  {
    ReplaceIsRewrite(s, q, r);
    RewriteLeavesNoOccurrence(s, PrefixMatcher(q), r, p);
  }

  /** An occurrence of a longer pattern contains one of its prefix. */
  lemma ContainsPrefixOfPattern(s: String, p: String, n: nat)
    requires n <= |p| && Contains(s, p)
    ensures Contains(s, p[..n])
  {
    var i: nat :| i <= |s| && OccursAt(s, p, i);
    assert s[i..i + n] == p[..n];
    assert OccursAt(s, p[..n], i);
  }

  /** A rule `a` that removes its own pattern, followed by rules `bs` that cannot bring
      it back, shadows every later rule whose pattern starts with `a`'s pattern. */
  lemma {:induction false} PrefixRuleShadows(a: Rule, bs: seq<Rule>, c: Rule, s: String)
    requires NoOverlap(a.pattern, a.replacement)
    requires forall k :: 0 <= k < |bs| ==> NoOverlap(a.pattern, bs[k].replacement)
    requires |a.pattern| <= |c.pattern| && c.pattern[..|a.pattern|] == a.pattern
    ensures !Contains(FoldReplace([a] + bs, s), c.pattern)
  {
    var x := Replace(s, a.pattern, a.replacement);
    ReplaceRemovesPattern(s, a.pattern, a.replacement);
    assert ([a] + bs)[1..] == bs;
    KeepsAbsent(bs, a.pattern, x);
    if Contains(FoldReplace(bs, x), c.pattern) {
      ContainsPrefixOfPattern(FoldReplace(bs, x), c.pattern, |a.pattern|);
    }
  }

  /** `p` starts with `q` (`p.startswith(q)`). */
  predicate StartsWith(p: String, q: String) {
    |q| <= |p| && p[..|q|] == q
  }

  /** `p` ends with `q` (`p.endswith(q)`). */
  predicate EndsWith(p: String, q: String) {
    |q| <= |p| && p[|p| - |q|..] == q
  }

  /** Two rules that remove their own patterns leave nothing for later rules whose
      patterns start with one of theirs. */
  lemma PairShadows(a: Rule, b: Rule, dead: seq<Rule>, s: String)
    requires NoOverlap(a.pattern, a.replacement) && NoOverlap(a.pattern, b.replacement)
    requires NoOverlap(b.pattern, b.replacement)
    requires forall k :: 0 <= k < |dead| ==>
      StartsWith(dead[k].pattern, a.pattern) || StartsWith(dead[k].pattern, b.pattern)
    ensures FoldReplace([a, b] + dead, s) == FoldReplace([a, b], s)
  {
    var x := Replace(s, a.pattern, a.replacement);
    var y := FoldReplace([a, b], s);
    assert [a, b] == [a] + [b];
    assert [b] == [b] + [];
    FoldReplacePair(a, b, s);
    forall k | 0 <= k < |dead| ensures !Contains(y, dead[k].pattern) {
      if StartsWith(dead[k].pattern, a.pattern) {
        PrefixRuleShadows(a, [b], dead[k], s);
      } else {
        PrefixRuleShadows(b, [], dead[k], x);
        assert FoldReplace([b], x) == y;
      }
    }
    FoldReplaceUntouched(dead, y);
    FoldReplaceSplit([a, b], dead, s);
  }

  /** `p` and `r` cannot overlap: `p` does not start inside `r` and `r` does not start
      inside `p`. */
  predicate NoOverlap(p: String, r: String) {
    |p| > 0 && |r| > 0 && p[0] !in r && r[0] !in p[1..]
  }

  /** Rules whose replacements cannot overlap `p` create no occurrence of it. */
  lemma {:induction false} KeepsAbsent(rules: seq<Rule>, p: String, s: String)
    requires forall k :: 0 <= k < |rules| ==> NoOverlap(p, rules[k].replacement)
    requires !Contains(s, p)
    ensures !Contains(FoldReplace(rules, s), p)
    decreases |rules|
  {
    if |rules| > 0 {
      ReplaceKeepsAbsent(s, rules[0].pattern, rules[0].replacement, p);
      KeepsAbsent(rules[1..], p, Replace(s, rules[0].pattern, rules[0].replacement));
    }
  }

}
