// Sentence splitting and greedy grouping of sentences into chunks, as done by
// `extract_chunks`: the text is normalised, split with `re.split(r'([.!?:]\s+)', ...)`
// into sentences and separators, and consecutive sentence units are packed into chunks
// of at most `chunk_size` characters.

module Chunking {
  import opened Text
  import opened Seqs

  /** The characters that end a sentence. */
  predicate IsTerminator(c: char) {
    c == '.' || c == '!' || c == '?' || c == ':'
  }

  /** Length of the separator `[.!?:]\s+` at the start of `s`, 0 when there is none. */
  function SeparatorLength(s: String): (n: nat)
    ensures n <= |s|
    ensures n > 0 ==> n >= 2 && IsTerminator(s[0]) && AllSpace(s[1..n]) && (n < |s| ==> !IsSpace(s[n]))
    ensures n == 0 <==> !(|s| >= 2 && IsTerminator(s[0]) && IsSpace(s[1]))
  {
    if |s| >= 2 && IsTerminator(s[0]) && IsSpace(s[1]) then
      var k := LeadingSpaces(s[1..]);
      assert s[1..][0] == s[1];
      assert s[1..1 + k] == s[1..][..k];
      assert 1 + k < |s| ==> s[1 + k] == s[1..][k];
      1 + k
    else 0
  }

  /** A separator: a terminator followed by a non-empty whitespace run. */
  predicate IsSeparator(p: String) {
    |p| >= 2 && IsTerminator(p[0]) && AllSpace(p[1..])
  }

  /** No terminator in `p` is directly followed by whitespace. */
  predicate Unbroken(p: String) {
    forall j :: 0 <= j < |p| - 1 ==> !(IsTerminator(p[j]) && IsSpace(p[j + 1]))
  }

  /** `re.split` with one capturing group, continuing a sentence begun with `cur`: the
      result alternates sentences (even positions) and separators (odd positions) and
      loses nothing. */
  function SplitFrom(s: String, cur: String): (r: seq<String>)
    ensures |r| % 2 == 1
    ensures Concat(r) == cur + s
    decreases |s|
  {
    if |s| == 0 then
      ConcatSingle(cur);
      assert cur + s == cur;
      [cur]
    else
      var m := SeparatorLength(s);
      if m > 0 then
        var rest := SplitFrom(s[m..], []);
        SplitAtSeparator(s, m, cur, rest);
        [cur, s[..m]] + rest
      else
        MoveFirst(s, cur);
        SplitFrom(s[1..], cur + [s[0]])
  }

  lemma SplitAtSeparator(s: String, m: nat, cur: String, rest: seq<String>)
    requires m <= |s| && Concat(rest) == [] + s[m..]
    ensures Concat([cur, s[..m]] + rest) == cur + s
  {
    ConcatCons(s[..m], rest);
    ConcatCons(cur, [s[..m]] + rest);
    assert [cur] + ([s[..m]] + rest) == [cur, s[..m]] + rest;
    assert s == s[..m] + s[m..];
  }

  lemma MoveFirst(s: String, cur: String)
    requires |s| > 0
    ensures (cur + [s[0]]) + s[1..] == cur + s
  {
    assert s == [s[0]] + s[1..];
  }

  /** The first piece continues `cur`. */
  lemma {:induction false} SplitFromFirst(s: String, cur: String)
    ensures cur <= SplitFrom(s, cur)[0]
    decreases |s|
  {
    if |s| > 0 && SeparatorLength(s) == 0 {
      SplitFromFirst(s[1..], cur + [s[0]]);
    }
  }

  /** Piece `k` of a split has the shape its position calls for: a separator at odd
      positions; at even positions a sentence holding no terminator followed by
      whitespace, and not starting with whitespace when a separator precedes it. */
  predicate PieceShaped(r: seq<String>, k: nat)
    requires k < |r|
  {
    (k % 2 == 1 ==> IsSeparator(r[k]))
    && (k % 2 == 0 ==> Unbroken(r[k]))
    && (0 < k && k % 2 == 0 && |r[k]| > 0 ==> !IsSpace(r[k][0]))
  }

  predicate WellSplit(r: seq<String>) {
    forall k: nat :: k < |r| ==> PieceShaped(r, k)
  }

  lemma SplitStep(cur: String, sep: String, rest: seq<String>)
    requires Unbroken(cur) && IsSeparator(sep) && WellSplit(rest) && |rest| > 0
    requires |rest[0]| > 0 ==> !IsSpace(rest[0][0])
    ensures WellSplit([cur, sep] + rest)
  {
    var r := [cur, sep] + rest;
    forall k: nat | k < |r|
      ensures PieceShaped(r, k)
    {
      if k >= 2 {
        assert r[k] == rest[k - 2];
        assert PieceShaped(rest, k - 2);
      }
    }
  }

  /** The pieces are what `re.split` yields: every odd piece is a separator, no
      sentence holds a terminator followed by whitespace, and a separator swallows the
      whole whitespace run after its terminator. */
  lemma {:induction false} SplitFromPieces(s: String, cur: String)
    requires Unbroken(cur)
    requires |cur| > 0 && |s| > 0 ==> !(IsTerminator(cur[|cur| - 1]) && IsSpace(s[0]))
    ensures WellSplit(SplitFrom(s, cur))
    decreases |s|
  {
    if |s| == 0 {
      assert PieceShaped([cur], 0);
    } else {
      var m := SeparatorLength(s);
      if m > 0 {
        var rest := SplitFrom(s[m..], []);
        SplitFromPieces(s[m..], []);
        assert IsSeparator(s[..m]) by {
          assert s[..m][1..] == s[1..m];
        }
        ConcatFirst(rest);
        assert rest[0] <= s[m..];
        assert |rest[0]| > 0 ==> !IsSpace(rest[0][0]) by {
          if |rest[0]| > 0 {
            assert rest[0][0] == s[m..][0] == s[m];
          }
        }
        SplitStep(cur, s[..m], rest);
      } else {
        var next := cur + [s[0]];
        assert Unbroken(next) by {
          forall j | 0 <= j < |next| - 1
            ensures !(IsTerminator(next[j]) && IsSpace(next[j + 1]))
          {
            if j < |cur| - 1 {
              assert next[j] == cur[j] && next[j + 1] == cur[j + 1];
            }
          }
        }
        assert |s| > 1 ==> s[1..][0] == s[1];
        SplitFromPieces(s[1..], next);
      }
    }
  }

  lemma ConcatCons(x: String, xss: seq<String>)
    ensures Concat([x] + xss) == x + Concat(xss)
  {
    assert ([x] + xss)[1..] == xss;
  }

  lemma ConcatFirst(xss: seq<String>)
    requires |xss| > 0
    ensures xss[0] <= Concat(xss)
  {
  }

  /** `re.split(r'([.!?:]\s+)', s)`. */
  function SplitSentences(s: String): (r: seq<String>)
    ensures |r| % 2 == 1
    ensures Concat(r) == s
  {
    SplitFrom(s, [])
  }

  /** The units the chunking loop steps through: each sentence with the separator that
      follows it (none after the last one). */
  function Units(pieces: seq<String>): (u: seq<String>)
    requires |pieces| % 2 == 1
    ensures |u| == (|pieces| + 1) / 2
    ensures Concat(u) == Concat(pieces)
    decreases |pieces|
  {
    if |pieces| == 1 then
      ConcatSingle(pieces[0]);
      [pieces[0]]
    else
      var rest := Units(pieces[2..]);
      assert Concat(pieces) == pieces[0] + (pieces[1] + Concat(pieces[2..]));
      [pieces[0] + pieces[1]] + rest
  }

  /** Unit `k` is sentence `2k` followed by separator `2k + 1`, if there is one. */
  lemma {:induction false} UnitsAt(pieces: seq<String>, k: nat)
    requires |pieces| % 2 == 1 && k < |Units(pieces)|
    ensures Units(pieces)[k] == pieces[2 * k] + (if 2 * k + 1 < |pieces| then pieces[2 * k + 1] else [])
    decreases |pieces|
  {
    if |pieces| > 1 && k > 0 {
      UnitsAt(pieces[2..], k - 1);
      assert pieces[2 * k] == pieces[2..][2 * (k - 1)];
      if 2 * k + 1 < |pieces| {
        assert pieces[2 * k + 1] == pieces[2..][2 * (k - 1) + 1];
      }
    }
  }

  /** `s` holds a character other than whitespace. */
  predicate HasText(s: String) {
    exists i :: 0 <= i < |s| && !IsSpace(s[i])
  }

  lemma HasTextAppend(a: String, b: String)
    ensures HasText(a) || HasText(b) ==> HasText(a + b)
  {
    if HasText(a) {
      var i :| 0 <= i < |a| && !IsSpace(a[i]);
      assert (a + b)[i] == a[i];
    } else if HasText(b) {
      var i :| 0 <= i < |b| && !IsSpace(b[i]);
      assert (a + b)[|a| + i] == b[i];
    }
  }

  /** The greedy packing loop, continuing from the chunk `cur` under construction:
      a unit that would push the chunk over `size` closes it (when it is not empty)
      and starts the next one. */
  function Group(units: seq<String>, size: int, cur: String): (r: seq<String>)
    ensures Concat(r) == cur + Concat(units)
    ensures forall k :: 0 <= k < |r| ==> |r[k]| > 0
    decreases |units|
  {
    if |units| == 0 then
      if cur != [] then ConcatSingle(cur); [cur] else []
    else
      var u := units[0];
      if |cur| + |u| > size then
        var rest := Group(units[1..], size, u);
        if cur != [] then
          assert Concat([cur] + rest) == cur + Concat(rest);
          [cur] + rest
        else rest
      else
        assert (cur + u) + Concat(units[1..]) == cur + Concat(units);
        Group(units[1..], size, cur + u)
  }

  /** A chunk over the size limit is the chunk it started from or a single unit. */
  lemma {:induction false} GroupBounded(units: seq<String>, size: int, cur: String)
    ensures forall k :: 0 <= k < |Group(units, size, cur)| ==>
              |Group(units, size, cur)[k]| <= size || Group(units, size, cur)[k] == cur
              || Group(units, size, cur)[k] in units
    decreases |units|
  {
    if |units| > 0 {
      var u := units[0];
      assert forall x :: x in units[1..] ==> x in units;
      if |cur| + |u| > size {
        GroupBounded(units[1..], size, u);
      } else {
        GroupBounded(units[1..], size, cur + u);
      }
    }
  }

  /** Every chunk holds text when every unit either does or is empty. */
  lemma {:induction false} GroupHasText(units: seq<String>, size: int, cur: String)
    requires forall k :: 0 <= k < |units| ==> units[k] == [] || HasText(units[k])
    requires cur == [] || HasText(cur)
    ensures forall k :: 0 <= k < |Group(units, size, cur)| ==> HasText(Group(units, size, cur)[k])
    decreases |units|
  {
    if |units| > 0 {
      var u := units[0];
      if |cur| + |u| > size {
        GroupHasText(units[1..], size, u);
      } else {
        HasTextAppend(cur, u);
        assert cur + u == [] || HasText(cur + u);
        GroupHasText(units[1..], size, cur + u);
      }
    }
  }

  /** The raw chunks of a text: normalised, split and packed. */
  function RawChunks(text: String, size: int): (r: seq<String>)
    ensures Concat(r) == Normalize(text)
    ensures forall k :: 0 <= k < |r| ==> |r[k]| > 0
  {
    Group(Units(SplitSentences(Normalize(text))), size, [])
  }

  /** A raw chunk longer than the size limit is a single sentence unit. */
  lemma RawChunksBounded(text: String, size: int)
    ensures forall k :: 0 <= k < |RawChunks(text, size)| ==>
              |RawChunks(text, size)[k]| <= size || RawChunks(text, size)[k] in Units(SplitSentences(Normalize(text)))
  {
    GroupBounded(Units(SplitSentences(Normalize(text))), size, []);
  }

  lemma ConcatLast(xss: seq<String>)
    requires |xss| > 0 && |xss[|xss| - 1]| > 0
    ensures |Concat(xss)| > 0
    ensures Concat(xss)[|Concat(xss)| - 1] == xss[|xss| - 1][|xss[|xss| - 1]| - 1]
  {
    var n := |xss|;
    ConcatAppend(xss[..n - 1], [xss[n - 1]]);
    ConcatSingle(xss[n - 1]);
    assert xss == xss[..n - 1] + [xss[n - 1]];
  }

  lemma SeparatorHasText(p: String)
    requires IsSeparator(p)
    ensures HasText(p)
  {
    assert !IsSpace(p[0]);
  }

  /** A unit of a well-formed split of a text that does not end in whitespace is empty
      or holds text: a separator starts with its terminator, and the last sentence,
      when not empty, ends where the text does. */
  lemma UnitHasText(pieces: seq<String>, k: nat)
    requires |pieces| % 2 == 1 && WellSplit(pieces) && k < |Units(pieces)|
    requires |Concat(pieces)| > 0 ==> !IsSpace(Concat(pieces)[|Concat(pieces)| - 1])
    ensures Units(pieces)[k] == [] || HasText(Units(pieces)[k])
  {
    UnitsAt(pieces, k);
    var u := Units(pieces)[k];
    if 2 * k + 1 < |pieces| {
      assert u == pieces[2 * k] + pieces[2 * k + 1];
      assert PieceShaped(pieces, 2 * k + 1);
      SeparatorHasText(pieces[2 * k + 1]);
      HasTextAppend(pieces[2 * k], pieces[2 * k + 1]);
    } else {
      assert u == pieces[|pieces| - 1] + [];
      LastPieceHasText(pieces);
      assert u == pieces[|pieces| - 1];
    }
  }

  /** The last piece of a text that does not end in whitespace is empty or holds text. */
  lemma LastPieceHasText(pieces: seq<String>)
    requires |pieces| > 0
    requires |Concat(pieces)| > 0 ==> !IsSpace(Concat(pieces)[|Concat(pieces)| - 1])
    ensures pieces[|pieces| - 1] == [] || HasText(pieces[|pieces| - 1])
  {
    var u := pieces[|pieces| - 1];
    if |u| > 0 {
      ConcatLast(pieces);
      assert !IsSpace(u[|u| - 1]);
    }
  }

  /** Every unit of a normalised text is empty or holds text. */
  lemma NormalizedUnitsHaveText(text: String)
    ensures forall k :: 0 <= k < |Units(SplitSentences(Normalize(text)))| ==>
              Units(SplitSentences(Normalize(text)))[k] == [] || HasText(Units(SplitSentences(Normalize(text)))[k])
  {
    var pieces := SplitSentences(Normalize(text));
    SplitFromPieces(Normalize(text), []);
    forall k | 0 <= k < |Units(pieces)|
      ensures Units(pieces)[k] == [] || HasText(Units(pieces)[k])
    {
      UnitHasText(pieces, k);
    }
  }

  /** Stripping a text that holds a non-whitespace character leaves something. */
  lemma StripHasText(s: String)
    requires HasText(s)
    ensures Strip(s) != []
  {
    StripAllSpace(s);
    var i :| 0 <= i < |s| && !IsSpace(s[i]);
  }

  /** A concatenation of non-empty pieces is empty only when there are none. */
  lemma ConcatNonEmpty(xss: seq<String>)
    requires forall k :: 0 <= k < |xss| ==> |xss[k]| > 0
    ensures |Concat(xss)| == 0 <==> |xss| == 0
  {
    if |xss| > 0 {
      assert Concat(xss) == xss[0] + Concat(xss[1..]);
    }
  }

  /** Every raw chunk holds text. */
  lemma RawChunksHaveText(text: String, size: int)
    ensures forall k :: 0 <= k < |RawChunks(text, size)| ==> HasText(RawChunks(text, size)[k])
  {
    NormalizedUnitsHaveText(text);
    GroupHasText(Units(SplitSentences(Normalize(text))), size, []);
  }

  /** `s` is not empty and ends in whitespace. */
  predicate EndsInSpace(s: String) {
    |s| > 0 && IsSpace(s[|s| - 1])
  }

  /** Every unit but the last ends with the whitespace of its separator. */
  lemma UnitEndsInSpace(pieces: seq<String>, k: nat)
    requires |pieces| % 2 == 1 && WellSplit(pieces) && k + 1 < |Units(pieces)|
    ensures EndsInSpace(Units(pieces)[k])
  {
    UnitsAt(pieces, k);
    assert 2 * k + 1 < |pieces|;
    assert PieceShaped(pieces, 2 * k + 1);
    var sep := pieces[2 * k + 1];
    assert IsSpace(sep[1..][|sep| - 2]);
  }

  /** Every chunk but the last ends in whitespace: a chunk is closed only when another
      unit follows it, and every unit but the last ends in whitespace. */
  lemma {:induction false} GroupEndsInSpace(units: seq<String>, size: int, cur: String)
    requires forall k :: 0 <= k < |units| - 1 ==> EndsInSpace(units[k])
    requires cur == [] || |units| == 0 || EndsInSpace(cur)
    ensures forall k :: 0 <= k < |Group(units, size, cur)| - 1 ==> EndsInSpace(Group(units, size, cur)[k])
    decreases |units|
  {
    if |units| > 0 {
      var u := units[0];
      var tail := units[1..];
      assert forall k :: 0 <= k < |tail| - 1 ==> tail[k] == units[k + 1];
      if |cur| + |u| > size {
        GroupEndsInSpace(tail, size, u);
      } else {
        var next := cur + u;
        if |tail| > 0 {
          assert EndsInSpace(u);
          assert next[|next| - 1] == u[|u| - 1];
        }
        GroupEndsInSpace(tail, size, next);
      }
    }
  }

  /** Every raw chunk but the last ends in whitespace. */
  lemma RawChunksEndInSpace(text: String, size: int)
    ensures forall k :: 0 <= k < |RawChunks(text, size)| - 1 ==> EndsInSpace(RawChunks(text, size)[k])
  {
    var pieces := SplitSentences(Normalize(text));
    SplitFromPieces(Normalize(text), []);
    var units := Units(pieces);
    forall k | 0 <= k < |units| - 1
      ensures EndsInSpace(units[k])
    {
      UnitEndsInSpace(pieces, k);
    }
    GroupEndsInSpace(units, size, []);
  }

  /** The chunk texts of `extract_chunks`: the raw chunks with surrounding whitespace
      stripped. None is empty, and there are none exactly when the text is blank. */
  function ChunkTexts(text: String, size: int): (r: seq<String>)
    ensures |r| == |RawChunks(text, size)|
    ensures forall k :: 0 <= k < |r| ==> |r[k]| > 0
  {
    var raw := RawChunks(text, size);
    RawChunksHaveText(text, size);
    assert forall k :: 0 <= k < |raw| ==> HasText(raw[k]);
    StripEach(raw)
  }

  /** Each text stripped; none of them empty when each holds text. */
  function StripEach(raw: seq<String>): (r: seq<String>)
    ensures |r| == |raw|
    ensures (forall k :: 0 <= k < |raw| ==> HasText(raw[k])) ==> forall k :: 0 <= k < |r| ==> |r[k]| > 0
  {
    if |raw| == 0 then []
    else
      if HasText(raw[0]) then StripHasText(raw[0]); [Strip(raw[0])] + StripEach(raw[1..])
      else [Strip(raw[0])] + StripEach(raw[1..])
  }

  /** A text yields no chunk exactly when it is blank. */
  lemma NoChunksIffBlank(text: String, size: int)
    ensures |ChunkTexts(text, size)| == 0 <==> AllSpace(text)
  {
    ConcatNonEmpty(RawChunks(text, size));
  }
}
