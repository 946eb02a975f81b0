/**
 * The numeral-weight tables of the manuscript processor and the four aggregates
 * (`standard`, `small`, `full`, `ordinal`) computed over a text.
 */
module Gematria {
  import opened Text

  /** `gematria_values`: the 22 letters and the five final forms, with their standard weights. */
  const GematriaValues: map<char, nat> := map[
    'א' := 1, 'ב' := 2, 'ג' := 3, 'ד' := 4, 'ה' := 5,
    'ו' := 6, 'ז' := 7, 'ח' := 8, 'ט' := 9, 'י' := 10,
    'כ' := 20, 'ך' := 20, 'ל' := 30, 'מ' := 40, 'ם' := 40,
    'נ' := 50, 'ן' := 50, 'ס' := 60, 'ע' := 70, 'פ' := 80,
    'ף' := 80, 'צ' := 90, 'ץ' := 90, 'ק' := 100, 'ר' := 200,
    'ש' := 300, 'ת' := 400
  ]

  /** `full_values` (spelled-out weights): the 22 letters, no final forms. */
  const FullValues: map<char, nat> := map[
    'א' := 111, 'ב' := 412, 'ג' := 83, 'ד' := 434, 'ה' := 6,
    'ו' := 13, 'ז' := 67, 'ח' := 418, 'ט' := 419, 'י' := 20,
    'כ' := 100, 'ל' := 74, 'מ' := 90, 'נ' := 106, 'ס' := 120,
    'ע' := 130, 'פ' := 81, 'צ' := 104, 'ק' := 186, 'ר' := 510,
    'ש' := 360, 'ת' := 406
  ]

  /** The five final letter forms. */
  predicate IsFinalForm(c: char) {
    c == 'ך' || c == 'ם' || c == 'ן' || c == 'ף' || c == 'ץ'
  }

  predicate Recognized(c: char) {
    c in GematriaValues
  }

  function StandardWeight(c: char): nat {
    if c in GematriaValues then GematriaValues[c] else 0
  }

  /** Mispar katan: `(w - 1) % 9 + 1` for a recognised letter. */
  function SmallWeight(c: char): nat {
    if c in GematriaValues then (GematriaValues[c] - 1) % 9 + 1 else 0
  }

  function FullWeight(c: char): nat {
    if c in FullValues then FullValues[c] else 0
  }

  function OrdinalWeight(c: char): nat {
    if c in GematriaValues then 1 else 0
  }

  /** Sum of a per-character weight over a text. */
  function SumOf(t: String, w: char -> nat): nat
    decreases |t|
  {
    if |t| == 0 then 0 else w(t[0]) + SumOf(t[1..], w)
  }

  /** `calculate_gematria` */
  function Standard(t: String): nat {
    SumOf(t, StandardWeight)
  }

  function Small(t: String): nat {
    SumOf(t, SmallWeight)
  }

  function Full(t: String): nat {
    SumOf(t, FullWeight)
  }

  function Ordinal(t: String): nat {
    SumOf(t, OrdinalWeight)
  }

  datatype GematriaMethods = GematriaMethods(standard: nat, small: nat, full: nat, ordinal: nat)

  /** `calculate_gematria_methods`: the digit-reduced sum lies between the letter count
      and nine times the letter count. */
  function CalculateGematriaMethods(t: String): (g: GematriaMethods)
    ensures g.ordinal <= g.small <= 9 * g.ordinal
    ensures g.standard == Standard(t) && g.small == Small(t) && g.full == Full(t) && g.ordinal == Ordinal(t)
  {
    SmallBetweenOrdinalBounds(t);
    GematriaMethods(Standard(t), Small(t), Full(t), Ordinal(t))
  }

  /** `calculate_gematria` as the loop of the source: the running total is the weight
      of the prefix read so far. */
  method CalculateGematria(text: String) returns (total: nat)
    ensures total == Standard(text)
    ensures forall i :: 0 <= i < |text| && !Recognized(text[i]) ==> Standard(text[..i] + text[i + 1..]) == total
  {
    total := 0;
    var i := 0;
    while i < |text|
      invariant 0 <= i <= |text|
      invariant total == Standard(text[..i])
    {
      SumOfAppend(text[..i], [text[i]], StandardWeight);
      assert text[..i + 1] == text[..i] + [text[i]];
      if text[i] in GematriaValues {
        total := total + GematriaValues[text[i]];
      }
      i := i + 1;
    }
    assert text[..i] == text;
    forall j | 0 <= j < |text| && !Recognized(text[j])
      ensures Standard(text[..j] + text[j + 1..]) == total
    {
      assert text == text[..j] + [text[j]] + text[j + 1..];
      SumOfAppend(text[..j] + [text[j]], text[j + 1..], StandardWeight);
      SumOfAppend(text[..j], [text[j]], StandardWeight);
      SumOfAppend(text[..j], text[j + 1..], StandardWeight);
    }
  }

  // ---------------------------------------------------------------- lemmas

  /** Every scheme is additive over concatenation. */
  lemma {:induction false} SumOfAppend(a: String, b: String, w: char -> nat)
    ensures SumOf(a + b, w) == SumOf(a, w) + SumOf(b, w)
    decreases |a|
  {
    if |a| > 0 {
      assert (a + b)[1..] == a[1..] + b;
      SumOfAppend(a[1..], b, w);
    } else {
      assert a + b == b;
    }
  }

  lemma StandardAdditive(a: String, b: String)
    ensures Standard(a + b) == Standard(a) + Standard(b)
  {
    SumOfAppend(a, b, StandardWeight);
  }

  /** Each recognised letter adds between 1 and 9 to `small` and exactly 1 to `ordinal`. */
  lemma {:induction false} SmallBetweenOrdinalBounds(t: String)
    ensures Ordinal(t) <= Small(t) <= 9 * Ordinal(t)
    decreases |t|
  {
    if |t| > 0 {
      SmallBetweenOrdinalBounds(t[1..]);
    }
  }

  lemma SumOfInsert(a: String, c: char, b: String, w: char -> nat)
    ensures SumOf(a + [c] + b, w) == SumOf(a + b, w) + w(c)
  {
    SumOfAppend(a + [c], b, w);
    SumOfAppend(a, [c], w);
    SumOfAppend(a, b, w);
  }

  /** Final letters weigh nothing in `full` yet count in `standard` and `ordinal`. */
  lemma FinalFormsMissFull(a: String, c: char, b: String)
    requires IsFinalForm(c)
    ensures Full(a + [c] + b) == Full(a + b)
    ensures Standard(a + [c] + b) == Standard(a + b) + StandardWeight(c) > Standard(a + b)
    ensures Ordinal(a + [c] + b) == Ordinal(a + b) + 1
  {
    assert c !in FullValues && c in GematriaValues;
    SumOfInsert(a, c, b, FullWeight);
    SumOfInsert(a, c, b, StandardWeight);
    SumOfInsert(a, c, b, OrdinalWeight);
  }

  /** A weight that ignores whitespace. */
  ghost predicate SpaceBlind(w: char -> nat) {
    forall c :: IsSpace(c) ==> w(c) == 0
  }

  /** No whitespace character is in either table, so all four schemes ignore it. */
  lemma SchemesAreSpaceBlind()
    ensures SpaceBlind(StandardWeight) && SpaceBlind(SmallWeight)
    ensures SpaceBlind(FullWeight) && SpaceBlind(OrdinalWeight)
  {
    forall c | IsSpace(c) ensures c !in GematriaValues && c !in FullValues {
    }
  }

  lemma {:induction false} SpacesWeightless(t: String, w: char -> nat)
    requires SpaceBlind(w) && AllSpace(t)
    ensures SumOf(t, w) == 0
    decreases |t|
  {
    if |t| > 0 {
      SpacesWeightless(t[1..], w);
    }
  }

  /** The normalisations of the chunker (strip, whitespace collapse) keep every aggregate. */
  lemma {:induction false} CollapseKeepsWeights(s: String, w: char -> nat)
    requires SpaceBlind(w)
    ensures SumOf(CollapseSpaces(s), w) == SumOf(s, w)
    decreases |s|
  {
    if |s| > 0 {
      if IsSpace(s[0]) {
        var n := LeadingSpaces(s);
        assert s == s[..n] + s[n..];
        SumOfAppend(s[..n], s[n..], w);
        SpacesWeightless(s[..n], w);
        CollapseKeepsWeights(s[n..], w);
        assert CollapseSpaces(s) == [' '] + CollapseSpaces(s[n..]);
        SumOfAppend([' '], CollapseSpaces(s[n..]), w);
      } else {
        CollapseKeepsWeights(s[1..], w);
      }
    }
  }

  lemma StripKeepsWeights(s: String, w: char -> nat)
    requires SpaceBlind(w)
    ensures SumOf(Strip(s), w) == SumOf(s, w)
  {
    var a, b :| 0 <= a <= b <= |s| && Strip(s) == s[a..b] && AllSpace(s[..a]) && AllSpace(s[b..]);
    assert s == s[..a] + s[a..b] + s[b..];
    SumOfAppend(s[..a] + s[a..b], s[b..], w);
    SumOfAppend(s[..a], s[a..b], w);
    SpacesWeightless(s[..a], w);
    SpacesWeightless(s[b..], w);
  }

  lemma NormalizeKeepsWeights(s: String, w: char -> nat)
    requires SpaceBlind(w)
    ensures SumOf(Normalize(s), w) == SumOf(s, w)
  {
    StripKeepsWeights(s, w);
    CollapseKeepsWeights(Strip(s), w);
  }

}
