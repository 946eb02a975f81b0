/**
 * Character classes and whitespace handling with Python's `str` semantics:
 * `str.strip`, `str.rstrip`, `str.split()` (no argument), `re.sub(r'\s+', ' ', …)`,
 * `str.lower`, `str.capitalize` and `str.isupper` on one character.
 */
module Text {

  type String = seq<char>

  /** Python's whitespace set: `str.isspace`, `str.strip()` and the `\s` class of a
      `str` pattern all use the same Unicode table. */
  predicate IsSpace(c: char) {
    || ('\t' <= c <= '\r')
    || ('\U{1C}' <= c <= ' ')
    || c == '\U{85}' || c == '\U{A0}' || c == '\U{1680}'
    || ('\U{2000}' <= c <= '\U{200A}')
    || c == '\U{2028}' || c == '\U{2029}' || c == '\U{202F}' || c == '\U{205F}' || c == '\U{3000}'
  }

  predicate AllSpace(s: String) {
    forall i :: 0 <= i < |s| ==> IsSpace(s[i])
  }

  // ---------------------------------------------------------------- case

  /** Upper-case letters whose case mapping is modelled: ASCII and Latin-1 (without ×). */
  predicate IsUpper(c: char) {
    ('A' <= c <= 'Z') || ('\U{C0}' <= c <= '\U{DE}' && c != '\U{D7}')
  }

  /** Lower-case partners of `IsUpper` letters (à..þ without ÷; ß and ÿ have no one-letter partner). */
  predicate IsLower(c: char) {
    ('a' <= c <= 'z') || ('\U{E0}' <= c <= '\U{FE}' && c != '\U{F7}')
  }

  function LowerChar(c: char): (r: char)
    ensures IsUpper(c) ==> IsLower(r) && r as int == c as int + 32
    ensures !IsUpper(c) ==> r == c
  {
    if IsUpper(c) then (c as int + 32) as char else c
  }

  function UpperChar(c: char): (r: char)
    ensures IsLower(c) ==> IsUpper(r) && r as int == c as int - 32
    ensures !IsLower(c) ==> r == c
  {
    if IsLower(c) then (c as int - 32) as char else c
  }

  /** `str.lower()` */
  function Lower(s: String): (r: String)
    ensures |r| == |s|
    ensures forall i :: 0 <= i < |s| ==> r[i] == LowerChar(s[i])
  {
    seq(|s|, i requires 0 <= i < |s| => LowerChar(s[i]))
  }

  /** `str.capitalize()`: first character upper-cased, the rest lower-cased. */
  function Capitalize(s: String): (r: String)
    ensures |r| == |s|
    ensures |s| > 0 ==> r[0] == UpperChar(s[0]) && r[1..] == Lower(s[1..])
  {
    if |s| == 0 then s else [UpperChar(s[0])] + Lower(s[1..])
  }

  lemma LowerIdempotent(s: String)
    ensures Lower(Lower(s)) == Lower(s)
  {
    forall i | 0 <= i < |s|
      ensures Lower(Lower(s))[i] == Lower(s)[i]
    {
      assert !IsUpper(LowerChar(s[i]));
    }
  }

  lemma LowerConcat(a: String, b: String)
    ensures Lower(a + b) == Lower(a) + Lower(b)
  {
  }

  // ---------------------------------------------------------------- strip

  /** Length of the leading whitespace run of `s`. */
  function LeadingSpaces(s: String): (n: nat)
    ensures n <= |s|
    ensures AllSpace(s[..n])
    ensures n < |s| ==> !IsSpace(s[n])
    decreases |s|
  {
    if |s| > 0 && IsSpace(s[0]) then 1 + LeadingSpaces(s[1..]) else 0
  }

  /** Length of the trailing whitespace run of `s`. */
  function TrailingSpaces(s: String): (n: nat)
    ensures n <= |s|
    ensures AllSpace(s[|s| - n..])
    ensures n < |s| ==> !IsSpace(s[|s| - n - 1])
    decreases |s|
  {
    if |s| > 0 && IsSpace(s[|s| - 1]) then 1 + TrailingSpaces(s[..|s| - 1]) else 0
  }

  /** `str.lstrip()` */
  function LStrip(s: String): (r: String)
    ensures |r| > 0 ==> !IsSpace(r[0])
  {
    s[LeadingSpaces(s)..]
  }

  /** `str.rstrip()` */
  function RStrip(s: String): (r: String)
    ensures |r| > 0 ==> !IsSpace(r[|r| - 1])
  {
    s[..|s| - TrailingSpaces(s)]
  }

  /** `str.strip()` */
  function Strip(s: String): (r: String)
    ensures |r| > 0 ==> !IsSpace(r[0]) && !IsSpace(r[|r| - 1])
    ensures exists a, b :: 0 <= a <= b <= |s| && r == s[a..b] && AllSpace(s[..a]) && AllSpace(s[b..])
  {
    var t := RStrip(s);
    assert AllSpace(s[|t|..]);
    LStrip(t)
  }

  lemma StripAllSpace(s: String)
    ensures Strip(s) == [] <==> AllSpace(s)
  {
  }

  // ---------------------------------------------------------------- \s+ → ' '

  /** `re.sub(r'\s+', ' ', s)`: every maximal whitespace run becomes one blank. */
  function CollapseSpaces(s: String): (r: String)
    ensures |r| <= |s|
    ensures forall i :: 0 <= i < |r| && IsSpace(r[i]) ==> r[i] == ' '
    ensures forall i :: 0 <= i < |r| - 1 && IsSpace(r[i]) ==> !IsSpace(r[i + 1])
    ensures |s| > 0 <==> |r| > 0
    ensures |r| > 0 ==> (IsSpace(r[0]) <==> IsSpace(s[0]))
    ensures |r| > 0 ==> (IsSpace(r[|r| - 1]) <==> IsSpace(s[|s| - 1]))
    decreases |s|
  {
    if |s| == 0 then []
    else if IsSpace(s[0]) then
      var n := LeadingSpaces(s);
      [' '] + CollapseSpaces(s[n..])
    else [s[0]] + CollapseSpaces(s[1..])
  }

  /** The whitespace normalisation used before chunking: `re.sub(r'\s+', ' ', s.strip())`. */
  function Normalize(s: String): (r: String)
    ensures |r| > 0 ==> !IsSpace(r[0]) && !IsSpace(r[|r| - 1])
    ensures forall i :: 0 <= i < |r| && IsSpace(r[i]) ==> r[i] == ' '
    ensures r == [] <==> AllSpace(s)
  {
    StripAllSpace(s);
    CollapseSpaces(Strip(s))
  }

  // ---------------------------------------------------------------- split()

  /** Number of words `len(s.split())`, counting maximal non-whitespace runs;
      `inWord` tells whether the character before `s` was part of a word. */
  function WordRuns(s: String, inWord: bool): nat
    decreases |s|
  {
    if |s| == 0 then 0
    else if IsSpace(s[0]) then WordRuns(s[1..], false)
    else (if inWord then 0 else 1) + WordRuns(s[1..], true)
  }

  function WordCount(s: String): nat {
    WordRuns(s, false)
  }

  /** A text has no words exactly when it is all whitespace. */
  lemma {:induction false} WordCountZeroIffBlank(s: String)
    ensures WordCount(s) == 0 <==> AllSpace(s)
    decreases |s|
  {
    if |s| > 0 && IsSpace(s[0]) {
      WordCountZeroIffBlank(s[1..]);
      assert AllSpace(s) <==> AllSpace(s[1..]);
    }
  }

  /** Words on both sides of a space are counted separately. */
  lemma {:induction false} WordRunsJoin(a: String, b: String, inWord: bool)
    ensures WordRuns(a + [' '] + b, inWord) == WordRuns(a, inWord) + WordRuns(b, false)
    decreases |a|
  {
    if |a| == 0 {
      assert a + [' '] + b == [' '] + b;
      assert ([' '] + b)[1..] == b;
    } else {
      assert (a + [' '] + b)[1..] == a[1..] + [' '] + b;
      WordRunsJoin(a[1..], b, !IsSpace(a[0]));
    }
  }

  lemma WordCountJoin(a: String, b: String)
    ensures WordCount(a + [' '] + b) == WordCount(a) + WordCount(b)
  {
    WordRunsJoin(a, b, false);
  }

  /** Whitespace holds no word, whatever came before it. */
  lemma {:induction false} WordRunsOfSpace(s: String, inWord: bool)
    requires AllSpace(s)
    ensures WordRuns(s, inWord) == 0
    decreases |s|
  {
    if |s| > 0 {
      assert AllSpace(s[1..]) by {
        forall i | 0 <= i < |s[1..]| ensures IsSpace(s[1..][i]) {
          assert s[1..][i] == s[i + 1];
        }
      }
      WordRunsOfSpace(s[1..], false);
    }
  }

  /** A text that ends in whitespace has closed its last word: what follows is
      counted on its own. */
  lemma {:induction false} WordRunsAfterSpace(a: String, b: String, inWord: bool)
    requires |a| > 0 && IsSpace(a[|a| - 1])
    ensures WordRuns(a + b, inWord) == WordRuns(a, inWord) + WordRuns(b, false)
    decreases |a|
  {
    assert (a + b)[0] == a[0];
    assert (a + b)[1..] == a[1..] + b;
    if |a| > 1 {
      WordRunsAfterSpace(a[1..], b, !IsSpace(a[0]));
    }
  }

  /** Word counts add up across a boundary with whitespace on its left. */
  lemma WordCountAfterSpace(a: String, b: String)
    requires a == [] || IsSpace(a[|a| - 1])
    ensures WordCount(a + b) == WordCount(a) + WordCount(b)
  {
    if a == [] {
      assert a + b == b;
    } else {
      WordRunsAfterSpace(a, b, false);
    }
  }

  /** Trailing whitespace adds no word. */
  lemma {:induction false} WordRunsTrailingSpace(a: String, t: String, inWord: bool)
    requires AllSpace(t)
    ensures WordRuns(a + t, inWord) == WordRuns(a, inWord)
    decreases |a|
  {
    if |a| == 0 {
      assert a + t == t;
      WordRunsOfSpace(t, inWord);
    } else {
      assert (a + t)[0] == a[0];
      assert (a + t)[1..] == a[1..] + t;
      WordRunsTrailingSpace(a[1..], t, !IsSpace(a[0]));
    }
  }

  /** `strip()` keeps every word. */
  lemma WordCountStrip(s: String)
    ensures WordCount(Strip(s)) == WordCount(s)
  {
    var t := RStrip(s);
    assert s == t + s[|t|..];
    WordRunsTrailingSpace(t, s[|t|..], false);
    var n := LeadingSpaces(t);
    if n > 0 {
      WordRunsSkipSpace(t, n, false);
    }
  }

  /** A leading whitespace run is skipped. */
  lemma {:induction false} WordRunsSkipSpace(s: String, n: nat, inWord: bool)
    requires 0 < n <= |s| && AllSpace(s[..n])
    ensures WordRuns(s, inWord) == WordRuns(s[n..], false)
    decreases n
  {
    assert IsSpace(s[..n][0]);
    if n > 1 {
      var t := s[1..][..n - 1];
      assert AllSpace(t) by {
        forall i | 0 <= i < |t| ensures IsSpace(t[i]) {
          assert t[i] == s[..n][i + 1];
        }
      }
      WordRunsSkipSpace(s[1..], n - 1, false);
      assert s[1..][n - 1..] == s[n..];
    }
  }

  /** Collapsing whitespace runs keeps every word. */
  lemma {:induction false} WordRunsCollapse(s: String, inWord: bool)
    ensures WordRuns(CollapseSpaces(s), inWord) == WordRuns(s, inWord)
    decreases |s|
  {
    if |s| > 0 {
      if IsSpace(s[0]) {
        var n := LeadingSpaces(s);
        assert n > 0;
        WordRunsCollapse(s[n..], false);
        WordRunsSkipSpace(s, n, inWord);
        assert ([' '] + CollapseSpaces(s[n..]))[1..] == CollapseSpaces(s[n..]);
      } else {
        WordRunsCollapse(s[1..], true);
        assert ([s[0]] + CollapseSpaces(s[1..]))[1..] == CollapseSpaces(s[1..]);
      }
    }
  }

  /** The whitespace normalisation before chunking keeps every word. */
  lemma WordCountNormalize(s: String)
    ensures WordCount(Normalize(s)) == WordCount(s)
  {
    WordRunsCollapse(Strip(s), false);
    WordCountStrip(s);
  }
}
