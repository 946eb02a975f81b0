/**
 * The HNS10 numeral system: integers written with Hebrew letters (no zero digit, so
 * zero itself is refused), the Omer-day decomposition, the zero check over nested
 * data and the WWAQ text check. Calendar lookups and float angle arithmetic are not
 * modelled; a string-to-number parser is passed in.
 */
module Hns10 {
  import opened Results
  import opened Text
  import opened Substrings
  import opened Gematria

  // ---------------------------------------------------------------- numerals

  /** `HEBREW_NUMERALS`: units, tens and the hundreds up to 400. */
  const HebrewNumerals: map<nat, char> := map[
    1 := 'א', 2 := 'ב', 3 := 'ג', 4 := 'ד', 5 := 'ה',
    6 := 'ו', 7 := 'ז', 8 := 'ח', 9 := 'ט', 10 := 'י',
    20 := 'כ', 30 := 'ל', 40 := 'מ', 50 := 'נ', 60 := 'ס',
    70 := 'ע', 80 := 'פ', 90 := 'צ', 100 := 'ק', 200 := 'ר',
    300 := 'ש', 400 := 'ת'
  ]

  /** Why an encoding fails: the zero taboo, or a table lookup (`KeyError`) for a
      hundreds digit from 5 to 9. */
  datatype EncodeError = NullTabu | MissingNumeral(key: nat)

  /** Every unit and every ten has a letter; hundreds only up to 400. */
  lemma NumeralKeys(d: nat)
    requires 1 <= d <= 9
    ensures d in HebrewNumerals && d * 10 in HebrewNumerals
    ensures d * 100 in HebrewNumerals <==> d <= 4
  {
    if d == 1 {} else if d == 2 {} else if d == 3 {} else if d == 4 {} else if d == 5 {}
    else if d == 6 {} else if d == 7 {} else if d == 8 {} else {}
  }

  /** Each numeral letter weighs its own value in the gematria table: the numerals and
      `calculate_gematria` share one alphabet. */
  lemma NumeralsAgreeWithGematria(v: nat)
    requires v in HebrewNumerals
    ensures StandardWeight(HebrewNumerals[v]) == v
  {
  }

  /** The tens and ones of `v` (below 100): 15 and 16 are written טו and טז instead of
      the letter pairs that spell a divine name. */
  function TensOnes(v: nat): (s: String)
    requires v < 100
    ensures |s| <= 2 && (s == [] <==> v == 0)
    ensures forall i :: 0 <= i < |s| ==> s[i] in HebrewNumerals.Values
  {
    if v >= 10 then
      assert HebrewNumerals[9] == 'ט' && HebrewNumerals[6] == 'ו' && HebrewNumerals[7] == 'ז';
      if v == 15 then "טו"
      else if v == 16 then "טז"
      else
        NumeralKeys(v / 10);
        var ones := v % 10;
        if ones > 0 then
          NumeralKeys(ones);
          [HebrewNumerals[(v / 10) * 10], HebrewNumerals[ones]]
        else [HebrewNumerals[(v / 10) * 10]]
    else if v > 0 then
      NumeralKeys(v);
      [HebrewNumerals[v]]
    else []
  }

  /** The letters for `v` below 1000: a hundreds letter, then tens and ones. */
  function Below1000(v: nat): (r: Result<String, EncodeError>)
    requires v < 1000
    ensures r.Failure? <==> v / 100 > 4
    ensures r.Failure? ==> r.error == MissingNumeral((v / 100) * 100)
    ensures r.Success? ==> (r.value == [] <==> v == 0)
    ensures r.Success? ==> forall i :: 0 <= i < |r.value| ==> r.value[i] in HebrewNumerals.Values
  {
    var h := v / 100;
    if h > 0 then
      NumeralKeys(h);
      if h * 100 !in HebrewNumerals then Failure(MissingNumeral(h * 100))
      else Success([HebrewNumerals[h * 100]] + TensOnes(v % 100))
    else Success(TensOnes(v % 100))
  }

  /** `hebrew_to_hns10`: zero is refused; a negative number is its magnitude with a
      leading minus; from 1000 on, the thousands are written recursively and marked
      with a geresh, followed by the letters of the rest. */
  function Encode(v: int): (r: Result<String, EncodeError>)
    ensures v == 0 ==> r == Failure(NullTabu)
    ensures v < 0 ==> (r.Success? <==> Encode(-v).Success?)
    ensures v < 0 && r.Success? ==> r.value == "-" + Encode(-v).value
    decreases if v < 0 then 1 - v else v
  {
    if v == 0 then Failure(NullTabu)
    else if v < 0 then
      var inner := Encode(-v);
      if inner.Failure? then inner else Success("-" + inner.value)
    else if v / 1000 > 0 then
      var head := Encode(v / 1000);
      if head.Failure? then head
      else
        var tail := Below1000(v % 1000);
        if tail.Failure? then tail else Success(head.value + "'" + tail.value)
    else Below1000(v)
  }

  /** Reading a numeral back, left to right: a letter adds its value, a geresh
      multiplies what was read so far by 1000. */
  function DecodeFrom(acc: int, s: String): int
    decreases |s|
  {
    if |s| == 0 then acc
    else DecodeFrom(if s[0] == '\'' then acc * 1000 else acc + StandardWeight(s[0]), s[1..])
  }

  /** The value of a numeral, with an optional leading minus. */
  function Decode(s: String): int {
    if |s| > 0 && s[0] == '-' then -DecodeFrom(0, s[1..]) else DecodeFrom(0, s)
  }

  lemma {:induction false} DecodeFromAppend(acc: int, a: String, b: String)
    ensures DecodeFrom(acc, a + b) == DecodeFrom(DecodeFrom(acc, a), b)
    decreases |a|
  {
    if |a| == 0 {
      assert a + b == b;
    } else {
      assert (a + b)[1..] == a[1..] + b;
      DecodeFromAppend(if a[0] == '\'' then acc * 1000 else acc + StandardWeight(a[0]), a[1..], b);
    }
  }

  /** Without a geresh, reading back is the gematria sum. */
  lemma {:induction false} DecodeFromLetters(acc: int, s: String)
    requires forall i :: 0 <= i < |s| ==> s[i] != '\''
    ensures DecodeFrom(acc, s) == acc + Standard(s)
    decreases |s|
  {
    if |s| > 0 {
      DecodeFromLetters(acc + StandardWeight(s[0]), s[1..]);
    }
  }

  lemma StandardPair(a: char, b: char)
    ensures Standard([a, b]) == StandardWeight(a) + StandardWeight(b)
  {
    StandardSingle(b);
    assert [a, b][1..] == [b];
    assert Standard([a, b]) == StandardWeight(a) + Standard([b]);
  }

  lemma StandardSingle(a: char)
    ensures Standard([a]) == StandardWeight(a)
  {
    assert [a][1..] == [];
    assert Standard([a]) == StandardWeight(a) + Standard([]);
  }

  /** 15 and 16 keep their value: 9 + 6 and 9 + 7. */
  lemma SpecialPairsValue()
    ensures Standard("טו") == 15 && Standard("טז") == 16
  {
    StandardPair('ט', 'ו');
    StandardPair('ט', 'ז');
  }

  lemma TensOnesValue(v: nat)
    requires v < 100
    ensures Standard(TensOnes(v)) == v
  {
    var s := TensOnes(v);
    if v == 15 || v == 16 {
      SpecialPairsValue();
    } else if v >= 10 {
      var ones := v % 10;
      NumeralKeys(v / 10);
      NumeralsAgreeWithGematria((v / 10) * 10);
      if ones > 0 {
        NumeralKeys(ones);
        NumeralsAgreeWithGematria(ones);
        StandardPair(HebrewNumerals[(v / 10) * 10], HebrewNumerals[ones]);
      } else {
        StandardSingle(HebrewNumerals[(v / 10) * 10]);
      }
    } else if v > 0 {
      NumeralKeys(v);
      NumeralsAgreeWithGematria(v);
      StandardSingle(HebrewNumerals[v]);
    }
  }

  lemma Below1000Value(v: nat)
    requires v < 1000 && Below1000(v).Success?
    ensures Standard(Below1000(v).value) == v
  {
    var h := v / 100;
    TensOnesValue(v % 100);
    if h > 0 {
      NumeralKeys(h);
      NumeralsAgreeWithGematria(h * 100);
      StandardAdditive([HebrewNumerals[h * 100]], TensOnes(v % 100));
    }
  }

  /** Numeral letters all carry weight, so neither the minus sign nor the geresh is one. */
  lemma NumeralLettersWeigh(c: char)
    requires c in HebrewNumerals.Values
    ensures StandardWeight(c) > 0 && c != '-' && c != '\''
  {
    var k :| k in HebrewNumerals && HebrewNumerals[k] == c;
    NumeralsAgreeWithGematria(k);
    assert StandardWeight('-') == 0 && StandardWeight('\'') == 0;
  }

  /** A positive numeral starts with a letter, never with the minus sign. */
  lemma {:induction false} EncodeStartsWithLetter(v: int)
    requires v > 0 && Encode(v).Success?
    ensures |Encode(v).value| > 0 && Encode(v).value[0] in HebrewNumerals.Values
    decreases v
  {
    if v / 1000 > 0 {
      EncodeStartsWithLetter(v / 1000);
    }
  }

  /** From 1000 on, a numeral is the thousands, a geresh, and the rest below 1000. */
  lemma ThousandsShape(v: int)
    requires v >= 1000 && Encode(v).Success?
    ensures Encode(v / 1000).Success? && Below1000(v % 1000).Success?
    ensures Encode(v).value == Encode(v / 1000).value + ("'" + Below1000(v % 1000).value)
  {
  }

  /** Reading a positive numeral back, without a sign, gives its number. */
  lemma {:induction false} PositiveRoundTrip(v: int)
    requires v > 0 && Encode(v).Success?
    ensures DecodeFrom(0, Encode(v).value) == v
    decreases v
  {
    if v / 1000 > 0 {
      ThousandsShape(v);
      PositiveRoundTrip(v / 1000);
      var head := Encode(v / 1000).value;
      var tail := Below1000(v % 1000).value;
      DecodeFromAppend(0, head, "'" + tail);
      assert ("'" + tail)[1..] == tail;
      assert DecodeFrom(v / 1000, "'" + tail) == DecodeFrom((v / 1000) * 1000, tail);
      forall i | 0 <= i < |tail| ensures tail[i] != '\'' {
        NumeralLettersWeigh(tail[i]);
      }
      DecodeFromLetters((v / 1000) * 1000, tail);
      Below1000Value(v % 1000);
    } else {
      var s := Encode(v).value;
      forall i | 0 <= i < |s| ensures s[i] != '\'' {
        NumeralLettersWeigh(s[i]);
      }
      DecodeFromLetters(0, s);
      Below1000Value(v);
    }
  }

  /** Reading a numeral back gives the number it was written for. */
  lemma EncodeRoundTrip(v: int)
    requires Encode(v).Success?
    ensures Decode(Encode(v).value) == v
  {
    var m := if v < 0 then -v else v;
    PositiveRoundTrip(m);
    EncodeStartsWithLetter(m);
    NumeralLettersWeigh(Encode(m).value[0]);
    if v < 0 {
      assert ("-" + Encode(m).value)[1..] == Encode(m).value;
    }
  }

  // ---------------------------------------------------------------- which numbers encode

  /** Every three-digit group of `m` has a hundreds digit of at most 4, the largest
      hundreds letter being ת (400). */
  predicate HundredsOk(m: nat)
    decreases m
  {
    (m % 1000) / 100 <= 4 && (m >= 1000 ==> HundredsOk(m / 1000))
  }

  /** `hebrew_to_hns10` returns exactly for the non-zero numbers whose groups all have a
      hundreds digit up to 4; otherwise it fails with the zero taboo or with the missing
      table key 500, 600, 700, 800 or 900. */
  lemma {:induction false} EncodeSucceedsIff(v: int)
    ensures Encode(v).Success? <==> v != 0 && HundredsOk(if v < 0 then -v else v)
    ensures Encode(v).Failure? && v != 0 ==>
      Encode(v).error.MissingNumeral? && 500 <= Encode(v).error.key <= 900 && Encode(v).error.key % 100 == 0
  {
    if v < 0 {
      EncodePositiveIff(-v);
    } else if v > 0 {
      EncodePositiveIff(v);
    }
  }

  lemma {:induction false} EncodePositiveIff(v: nat)
    requires v > 0
    ensures Encode(v).Success? <==> HundredsOk(v)
    ensures Encode(v).Failure? ==>
      Encode(v).error.MissingNumeral? && 500 <= Encode(v).error.key <= 900 && Encode(v).error.key % 100 == 0
    decreases v
  {
    var m: nat := v % 1000;
    assert HundredsOk(v) <==> m / 100 <= 4 && (v >= 1000 ==> HundredsOk(v / 1000));
    MissingKeyRange(m);
    if v / 1000 > 0 {
      EncodePositiveIff(v / 1000);
    } else {
      assert v == m;
    }
  }

  /** The key a group below 1000 misses is one of 500, 600, 700, 800 and 900. */
  lemma MissingKeyRange(m: nat)
    requires m < 1000
    ensures Below1000(m).Failure? ==> 500 <= Below1000(m).error.key <= 900 && Below1000(m).error.key % 100 == 0
  {
    if Below1000(m).Failure? {
      var h := m / 100;
      assert 5 <= h <= 9;
      assert Below1000(m).error.key == h * 100;
    }
  }

  /** From 1 to 499 a numeral has no geresh and its letters add up to the number. */
  lemma SmallValues(v: int)
    requires 1 <= v <= 499
    ensures Encode(v).Success?
    ensures forall i :: 0 <= i < |Encode(v).value| ==> Encode(v).value[i] != '\''
    ensures Standard(Encode(v).value) == v
  {
    var s := Encode(v).value;
    forall i | 0 <= i < |s| ensures s[i] != '\'' {
      NumeralLettersWeigh(s[i]);
    }
    Below1000Value(v);
  }

  /** From 1000 on: the thousands, a geresh, then the numeral of the remainder, which is
      left out when the remainder is zero. */
  lemma ThousandsSplit(v: int)
    requires v >= 1000 && Encode(v).Success?
    ensures Encode(v / 1000).Success?
    ensures v % 1000 == 0 ==> Encode(v).value == Encode(v / 1000).value + "'"
    ensures v % 1000 != 0 ==>
      Encode(v % 1000).Success? && Encode(v).value == Encode(v / 1000).value + "'" + Encode(v % 1000).value
  {
    ThousandsShape(v);
  }

  // ---------------------------------------------------------------- 15 and 16

  /** The numeral of a group below 1000 ends with the letters of its tens and ones. */
  lemma Below1000EndsWithTensOnes(v: nat)
    requires v < 1000 && Below1000(v).Success?
    ensures exists h: String :: Below1000(v).value == h + TensOnes(v % 100)
  {
    if v / 100 > 0 {
      assert Below1000(v).value == [HebrewNumerals[(v / 100) * 100]] + TensOnes(v % 100);
    } else {
      assert Below1000(v).value == [] + TensOnes(v % 100);
    }
  }

  /** The last two digits of a number are those of its last three. */
  lemma LowDigits(v: nat)
    ensures (v % 1000) % 100 == v % 100
  {
    var q, r := v / 1000, v % 1000;
    assert v == q * 1000 + r;
    assert v == (10 * q + r / 100) * 100 + r % 100;
  }

  lemma SuffixOfJoin(a: String, b: String)
    requires |b| >= 2
    ensures (a + b)[|a + b| - 2..] == b[|b| - 2..]
  {
  }

  /** A positive numeral ends with the letters of its last three digits. */
  lemma EncodeEndsWithGroup(v: int)
    requires v > 0 && Encode(v).Success?
    ensures Below1000(v % 1000).Success?
    ensures exists h: String :: Encode(v).value == h + Below1000(v % 1000).value
  {
    if v >= 1000 {
      ThousandsShape(v);
      assert Encode(v).value == (Encode(v / 1000).value + "'") + Below1000(v % 1000).value;
    } else {
      assert Encode(v).value == [] + Below1000(v % 1000).value;
    }
  }

  /** A numeral ending in 15 or 16 ends with טו or טז, also after a hundreds letter. */
  lemma FifteenSixteen(v: int)
    requires v > 0 && Encode(v).Success? && (v % 100 == 15 || v % 100 == 16)
    ensures |Encode(v).value| >= 2
    ensures v % 100 == 15 ==> Encode(v).value[|Encode(v).value| - 2..] == "טו"
    ensures v % 100 == 16 ==> Encode(v).value[|Encode(v).value| - 2..] == "טז"
  {
    var low := v % 1000;
    LowDigits(v);
    var tens := TensOnes(low % 100);
    assert |tens| == 2 && tens[|tens| - 2..] == tens;
    EncodeEndsWithGroup(v);
    Below1000EndsWithTensOnes(low);
    var g: String :| Encode(v).value == g + Below1000(low).value;
    var h: String :| Below1000(low).value == h + tens;
    assert Encode(v).value == (g + h) + tens;
    SuffixOfJoin(g + h, tens);
  }

  lemma Example115()
    ensures Encode(115) == Success("קטו")
  {
    assert HebrewNumerals[100] == 'ק';
    assert TensOnes(15) == "טו";
    assert Below1000(115) == Success(['ק'] + "טו");
    assert ['ק'] + "טו" == "קטו";
  }

  /** No adjacent letter pair spells the short divine names י־ה or י־ו. */
  predicate NoDivineName(s: String) {
    forall i :: 0 <= i < |s| - 1 ==> !(s[i] == 'י' && (s[i + 1] == 'ה' || s[i + 1] == 'ו'))
  }

  lemma NoDivineNameNotContained(s: String)
    requires NoDivineName(s)
    ensures !Contains(s, "יה") && !Contains(s, "יו")
  {
    forall i: nat | i <= |s| ensures !OccursAt(s, "יה", i) && !OccursAt(s, "יו", i) {
      if i + 2 <= |s| {
        assert s[i..i + 2][0] == s[i] && s[i..i + 2][1] == s[i + 1];
      }
    }
  }

  lemma NoDivineNameJoin(a: String, b: String)
    requires NoDivineName(a) && NoDivineName(b)
    requires |a| == 0 || |b| == 0 || a[|a| - 1] != 'י' || (b[0] != 'ה' && b[0] != 'ו')
    ensures NoDivineName(a + b)
  {
    var s := a + b;
    forall i | 0 <= i < |s| - 1 ensures !(s[i] == 'י' && (s[i + 1] == 'ה' || s[i + 1] == 'ו')) {
      if i + 1 < |a| {
        assert s[i] == a[i] && s[i + 1] == a[i + 1];
      } else if i >= |a| {
        assert s[i] == b[i - |a|] && s[i + 1] == b[i + 1 - |a|];
      }
    }
  }

  /** The letter for a table key is recognised by its weight. */
  lemma NumeralIs(k: nat, c: char)
    requires k in HebrewNumerals && HebrewNumerals[k] == c
    ensures StandardWeight(c) == k
  {
    NumeralsAgreeWithGematria(k);
  }

  /** A table key has the letter of key `w` exactly when it is `w`: different keys
      have different letters. */
  lemma NumeralLetterIs(k: nat, w: nat)
    requires k in HebrewNumerals && w in HebrewNumerals
    ensures HebrewNumerals[k] == HebrewNumerals[w] <==> k == w
  {
    NumeralsAgreeWithGematria(k);
    NumeralsAgreeWithGematria(w);
  }

  /** Outside 15, 16 and the round tens, two digits are a tens letter and a ones letter. */
  lemma TensOnesPair(v: nat)
    requires 10 <= v < 100 && v != 15 && v != 16 && v % 10 > 0
    ensures (v / 10) * 10 in HebrewNumerals && v % 10 in HebrewNumerals
    ensures TensOnes(v) == [HebrewNumerals[(v / 10) * 10], HebrewNumerals[v % 10]]
  {
    NumeralKeys(v / 10);
    NumeralKeys(v % 10);
  }

  /** The letters of the short divine names belong to the keys 10, 5 and 6 alone. */
  lemma DivineLetters(t: nat, o: nat)
    requires t in HebrewNumerals && o in HebrewNumerals
    ensures HebrewNumerals[t] == 'י' <==> t == 10
    ensures HebrewNumerals[o] == 'ה' <==> o == 5
    ensures HebrewNumerals[o] == 'ו' <==> o == 6
  {
    NumeralKeys(1);
    NumeralKeys(5);
    NumeralKeys(6);
    NumeralLetterIs(t, 10);
    NumeralLetterIs(o, 5);
    NumeralLetterIs(o, 6);
    assert HebrewNumerals[10] == 'י' && HebrewNumerals[5] == 'ה' && HebrewNumerals[6] == 'ו';
  }

  /** Below ten and for round tens there is one letter at most. */
  lemma TensOnesSingle(v: nat)
    requires v < 100 && (v < 10 || v % 10 == 0)
    ensures |TensOnes(v)| <= 1
  {
  }

  lemma PairNoDivineName(a: char, b: char)
    requires !(a == 'י' && (b == 'ה' || b == 'ו'))
    ensures NoDivineName([a, b])
  {
  }

  lemma TensOnesNoDivineName(v: nat)
    requires v < 100
    ensures NoDivineName(TensOnes(v))
  {
    if v < 10 || v % 10 == 0 {
      TensOnesSingle(v);
    } else if v == 15 || v == 16 {
      assert TensOnes(v)[0] == 'ט';
    } else {
      var d, ones := v / 10, v % 10;
      TensOnesPair(v);
      DivineLetters(d * 10, ones);
      assert d * 10 == 10 ==> ones != 5 && ones != 6;
      PairNoDivineName(HebrewNumerals[d * 10], HebrewNumerals[ones]);
    }
  }

  lemma Below1000NoDivineName(v: nat)
    requires v < 1000 && Below1000(v).Success?
    ensures NoDivineName(Below1000(v).value)
  {
    var d, tens := v / 100, TensOnes(v % 100);
    TensOnesNoDivineName(v % 100);
    if d > 0 {
      NumeralKeys(d);
      var key := d * 100;
      assert 100 <= key;
      var h := HebrewNumerals[key];
      assert Below1000(v).value == [h] + tens;
      NumeralIs(key, h);
      assert h != 'י' by {
        assert StandardWeight('י') == 10;
      }
      NoDivineNameJoin([h], tens);
    } else {
      assert Below1000(v).value == tens;
    }
  }

  /** No numeral contains י־ה or י־ו: that is what the 15 and 16 spellings are for. */
  lemma {:induction false} EncodingAvoidsDivineNames(v: int)
    requires Encode(v).Success?
    ensures NoDivineName(Encode(v).value)
    ensures !Contains(Encode(v).value, "יה") && !Contains(Encode(v).value, "יו")
    decreases if v < 0 then 1 - v else v
  {
    if v < 0 {
      EncodingAvoidsDivineNames(-v);
      NoDivineNameJoin("-", Encode(-v).value);
    } else if v >= 1000 {
      ThousandsShape(v);
      EncodingAvoidsDivineNames(v / 1000);
      var tail := Below1000(v % 1000).value;
      Below1000NoDivineName(v % 1000);
      NoDivineNameJoin("'", tail);
      NoDivineNameJoin(Encode(v / 1000).value, "'" + tail);
    } else {
      Below1000NoDivineName(v);
    }
    NoDivineNameNotContained(Encode(v).value);
  }

  // ---------------------------------------------------------------- hundreds above 400

  /** The hundreds letters for a digit `h` up to 9 as Hebrew numerals write them: one ת
      for every full 400, then the letter of the hundreds left over, so 500 is תק and 900
      is תתק. */
  function Hundreds(h: nat): (s: String)
    requires h <= 9
    ensures s == [] <==> h == 0
    ensures forall i :: 0 <= i < |s| ==> s[i] in HebrewNumerals.Values
  {
    if h > 4 then
      NumeralKeys(4);
      [HebrewNumerals[400]] + Hundreds(h - 4)
    else if h > 0 then
      NumeralKeys(h);
      [HebrewNumerals[h * 100]]
    else []
  }

  /** The hundreds letters weigh a hundred times their digit. */
  lemma {:induction false} HundredsValue(h: nat)
    requires h <= 9
    ensures Standard(Hundreds(h)) == 100 * h
    decreases h
  {
    if h > 4 {
      NumeralKeys(4);
      NumeralsAgreeWithGematria(400);
      HundredsValue(h - 4);
      StandardAdditive([HebrewNumerals[400]], Hundreds(h - 4));
      StandardSingle(HebrewNumerals[400]);
    } else if h > 0 {
      NumeralKeys(h);
      NumeralsAgreeWithGematria(h * 100);
      StandardSingle(HebrewNumerals[h * 100]);
    }
  }

  /** The letters for `v` below 1000 with every hundreds digit written. */
  function Below1000Intended(v: nat): (s: String)
    requires v < 1000
    ensures s == [] <==> v == 0
    ensures forall i :: 0 <= i < |s| ==> s[i] in HebrewNumerals.Values
  {
    Hundreds(v / 100) + TensOnes(v % 100)
  }

  lemma Below1000IntendedValue(v: nat)
    requires v < 1000
    ensures Standard(Below1000Intended(v)) == v
  {
    HundredsValue(v / 100);
    TensOnesValue(v % 100);
    StandardAdditive(Hundreds(v / 100), TensOnes(v % 100));
  }

  /** Where the table has the hundreds letter, the corrected group is the group as
      written. */
  lemma Below1000Extends(v: nat)
    requires v < 1000 && Below1000(v).Success?
    ensures Below1000(v).value == Below1000Intended(v)
  {
    var h := v / 100;
    if h > 0 {
      NumeralKeys(h);
      if h == 4 {
        assert Hundreds(4) == [HebrewNumerals[400]];
      }
    }
  }

  /** `hebrew_to_hns10` with the hundreds from 500 to 900 written out: only zero is
      refused. */
  function EncodeIntended(v: int): (r: Result<String, EncodeError>)
    ensures r.Failure? <==> v == 0
    ensures r.Failure? ==> r.error == NullTabu
    ensures v < 0 && r.Success? ==> r.value == "-" + EncodeIntended(-v).value
    ensures v > 0 ==> |r.value| > 0 && r.value[0] in HebrewNumerals.Values
    decreases if v < 0 then 1 - v else v
  {
    if v == 0 then Failure(NullTabu)
    else if v < 0 then Success("-" + EncodeIntended(-v).value)
    else if v / 1000 > 0 then Success(EncodeIntended(v / 1000).value + "'" + Below1000Intended(v % 1000))
    else Success(Below1000Intended(v))
  }

  /** Wherever `hebrew_to_hns10` returns a numeral, the corrected encoder returns the
      same one. */
  lemma {:induction false} EncodeIntendedExtends(v: int)
    requires Encode(v).Success?
    ensures EncodeIntended(v) == Encode(v)
    decreases if v < 0 then 1 - v else v
  {
    if v < 0 {
      EncodeIntendedExtends(-v);
    } else if v / 1000 > 0 {
      ThousandsShape(v);
      EncodeIntendedExtends(v / 1000);
      Below1000Extends(v % 1000);
    } else {
      Below1000Extends(v);
    }
  }

  /** A positive corrected numeral: below 1000 its group, from 1000 on the thousands,
      a geresh and the group of the rest. */
  lemma IntendedShape(v: int)
    requires v > 0
    ensures v < 1000 ==> EncodeIntended(v).value == Below1000Intended(v)
    ensures v >= 1000 ==>
      EncodeIntended(v).value == EncodeIntended(v / 1000).value + ("'" + Below1000Intended(v % 1000))
  {
  }

  /** Reading a positive corrected numeral back, without a sign, gives its number. */
  lemma {:induction false} IntendedPositiveRoundTrip(v: int)
    requires v > 0
    ensures DecodeFrom(0, EncodeIntended(v).value) == v
    decreases v
  {
    var s := EncodeIntended(v).value;
    IntendedShape(v);
    if v / 1000 > 0 {
      IntendedPositiveRoundTrip(v / 1000);
      var head := EncodeIntended(v / 1000).value;
      var tail := Below1000Intended(v % 1000);
      DecodeFromAppend(0, head, "'" + tail);
      assert ("'" + tail)[1..] == tail;
      assert DecodeFrom(v / 1000, "'" + tail) == DecodeFrom((v / 1000) * 1000, tail);
      forall i | 0 <= i < |tail| ensures tail[i] != '\'' {
        NumeralLettersWeigh(tail[i]);
      }
      DecodeFromLetters((v / 1000) * 1000, tail);
      Below1000IntendedValue(v % 1000);
    } else {
      forall i | 0 <= i < |s| ensures s[i] != '\'' {
        NumeralLettersWeigh(s[i]);
      }
      DecodeFromLetters(0, s);
      Below1000IntendedValue(v);
    }
  }

  /** Every non-zero number has a corrected numeral, and it reads back as the number. */
  lemma EncodeIntendedRoundTrip(v: int)
    requires v != 0
    ensures EncodeIntended(v).Success?
    ensures Decode(EncodeIntended(v).value) == v
  {
    var m := if v < 0 then -v else v;
    IntendedPositiveRoundTrip(m);
    NumeralLettersWeigh(EncodeIntended(m).value[0]);
    if v < 0 {
      assert ("-" + EncodeIntended(m).value)[1..] == EncodeIntended(m).value;
    }
  }

  /** 500 is where the two encoders part: the table has no key 500, the corrected
      encoder writes תק. */
  lemma Encode500()
    ensures Encode(500) == Failure(MissingNumeral(500))
    ensures EncodeIntended(500) == Success("תק")
  {
    NumeralKeys(1);
    NumeralKeys(4);
    assert Hundreds(1) == "ק";
    assert Hundreds(5) == "ת" + "ק";
    assert Below1000Intended(500) == "תק";
  }

  // ---------------------------------------------------------------- Omer

  /** The seven lower Sefirot, in Omer order. */
  const Sefirot: seq<String> := ["חסד", "גבורה", "תפארת", "נצח", "הוד", "יסוד", "מלכות"]

  datatype OmerError = DayOutOfRange(day: int)

  /** The week (1..7) and the day within it (1..7) of an Omer day; days outside 1..49
      are refused. */
  function OmerSplit(day: int): (r: Result<(nat, nat), OmerError>)
    ensures r.Failure? <==> !(1 <= day <= 49)
    ensures r.Failure? ==> r.error == DayOutOfRange(day)
    ensures r.Success? ==> 1 <= r.value.0 <= 7 && 1 <= r.value.1 <= 7
    ensures r.Success? ==> day == (r.value.0 - 1) * 7 + r.value.1
  {
    if 1 <= day <= 49 then Success(((day - 1) / 7 + 1, (day - 1) % 7 + 1))
    else Failure(DayOutOfRange(day))
  }

  /** Every (week, day) pair is reached, from exactly one Omer day. */
  lemma OmerSplitInverse(week: nat, weekday: nat)
    requires 1 <= week <= 7 && 1 <= weekday <= 7
    ensures OmerSplit((week - 1) * 7 + weekday) == Success((week, weekday))
  {
    var d := (week - 1) * 7 + weekday;
    assert d - 1 == (week - 1) * 7 + (weekday - 1);
  }

  lemma OmerSplitInjective(d1: int, d2: int)
    requires OmerSplit(d1).Success? && OmerSplit(d2).Success?
    requires OmerSplit(d1) == OmerSplit(d2)
    ensures d1 == d2
  {
  }

  datatype OmerPath = OmerPath(
    day: nat, week: nat, weekday: nat,
    sefiraWeek: String, sefiraDay: String, combination: String, grad: String)

  /** `generate_omer_path`: the day's Sefirot pair ("<day-sefira> שב<week-sefira>") and
      its numeral. */
  function GenerateOmerPath(day: int): (r: Result<OmerPath, OmerError>)
    ensures r.Failure? <==> !(1 <= day <= 49)
    ensures r.Success? ==> r.value.day == day && OmerSplit(day) == Success((r.value.week, r.value.weekday))
    ensures r.Success? ==> r.value.sefiraWeek == Sefirot[r.value.week - 1] && r.value.sefiraDay == Sefirot[r.value.weekday - 1]
    ensures r.Success? ==> r.value.combination == r.value.sefiraDay + " שב" + r.value.sefiraWeek
    ensures r.Success? ==> Encode(day) == Success(r.value.grad) && EncodeIntended(day) == Success(r.value.grad)
    ensures r.Success? ==> Decode(r.value.grad) == day
  {
    var split := OmerSplit(day);
    if split.Failure? then Failure(split.error)
    else
      assert 1 <= day <= 49;
      var (week, weekday) := split.value;
      Success(OmerPath(day, week, weekday, Sefirot[week - 1], Sefirot[weekday - 1],
                       Sefirot[weekday - 1] + " שב" + Sefirot[week - 1], OmerGrad(day)))
  }

  /** The numeral of an Omer day, which reads back as the day; below 500 the encoder as
      written gives the same numeral. */
  function OmerGrad(day: int): (g: String)
    requires 1 <= day <= 49
    ensures EncodeIntended(day) == Success(g) && Encode(day) == Success(g)
    ensures Decode(g) == day
  {
    SmallValues(day);
    EncodeIntendedExtends(day);
    EncodeIntendedRoundTrip(day);
    EncodeIntended(day).value
  }

  /** The first day of every week pairs a Sefira with Chesed; the last day of the last
      week is Malchut of Malchut. */
  lemma OmerPathCorners()
    ensures GenerateOmerPath(1).Success? && GenerateOmerPath(1).value.combination == "חסד שבחסד"
    ensures GenerateOmerPath(49).Success? && GenerateOmerPath(49).value.combination == "מלכות שבמלכות"
  {
    assert OmerSplit(1) == Success((1, 1));
    assert OmerSplit(49) == Success((7, 7));
    SefirotPairs();
  }

  lemma SefirotPairs()
    ensures Sefirot[0] + " שב" + Sefirot[0] == "חסד שבחסד"
    ensures Sefirot[6] + " שב" + Sefirot[6] == "מלכות שבמלכות"
  {
  }

  // ---------------------------------------------------------------- gematria

  /** The `gematria_values` table of `calculate_gematria` in this file. */
  const SpiralGematriaValues: map<char, nat> := map[
    'א' := 1, 'ב' := 2, 'ג' := 3, 'ד' := 4, 'ה' := 5,
    'ו' := 6, 'ז' := 7, 'ח' := 8, 'ט' := 9, 'י' := 10,
    'כ' := 20, 'ך' := 20, 'ל' := 30, 'מ' := 40, 'ם' := 40,
    'נ' := 50, 'ן' := 50, 'ס' := 60, 'ע' := 70, 'פ' := 80,
    'ף' := 80, 'צ' := 90, 'ץ' := 90, 'ק' := 100, 'ר' := 200,
    'ש' := 300, 'ת' := 400
  ]

  /** `calculate_gematria`: the table value of every listed character, summed. */
  function CalculateGematria(t: String): nat
    decreases |t|
  {
    if |t| == 0 then 0
    else (if t[0] in SpiralGematriaValues then SpiralGematriaValues[t[0]] else 0) + CalculateGematria(t[1..])
  }

  /** The spiral system and the manuscript processor agree on every text. */
  lemma {:induction false} GematriaAgrees(t: String)
    ensures CalculateGematria(t) == Standard(t)
    decreases |t|
  {
    assert SpiralGematriaValues == GematriaValues;
    if |t| > 0 {
      GematriaAgrees(t[1..]);
    }
  }

  // ---------------------------------------------------------------- null taboo

  datatype SpiralCoordinate = SpiralCoordinate(windung: int, segment: int, punkt: real, grad: int)

  /** `SpiralCoordinate.__post_init__`: a coordinate at grad 0 cannot be built. */
  function NewSpiralCoordinate(windung: int, segment: int, punkt: real, grad: int): (r: Result<SpiralCoordinate, EncodeError>)
    ensures r.Failure? <==> grad == 0
    ensures r.Failure? ==> r.error == NullTabu
    ensures r.Success? ==> r.value == SpiralCoordinate(windung, segment, punkt, grad)
  {
    if grad == 0 then Failure(NullTabu) else Success(SpiralCoordinate(windung, segment, punkt, grad))
  }

  /** The grad of every coordinate that can be built escapes the zero taboo of the
      numeral encoder, and has a numeral that reads back as the grad. */
  lemma CoordinateGradNotTaboo(windung: int, segment: int, punkt: real, grad: int)
    requires NewSpiralCoordinate(windung, segment, punkt, grad).Success?
    ensures Encode(NewSpiralCoordinate(windung, segment, punkt, grad).value.grad) != Failure(NullTabu)
    ensures EncodeIntended(grad).Success? && Decode(EncodeIntended(grad).value) == grad
  {
    EncodeSucceedsIff(grad);
    EncodeIntendedRoundTrip(grad);
  }

  /** The data the null taboo is checked on: Python values as found in a YAML document.
      Dictionary keys are strings and keep their insertion order. */
  datatype Value =
    | Int(i: int)
    | Bool(b: bool)
    | Float(x: real)
    | Str(s: String)
    | Dict(entries: seq<(String, Value)>)
    | List(items: seq<Value>)
    | Null

  /** `validate_null_tabu`: numbers (booleans among them, as in Python) must not be zero;
      a string fails only when `float()` reads it as zero. `parse` stands for `float()`
      on strings, `None` where it raises. */
  function AcceptsValue(v: Value, parse: String -> Option<real>): (ok: bool)
    ensures v.Int? ==> (ok <==> v.i != 0)
    ensures v.Bool? ==> (ok <==> v.b)
    ensures (v.Dict? || v.List? || v.Null?) ==> ok
  {
    match v
    case Int(i) => i != 0
    case Bool(b) => b
    case Float(x) => x != 0.0
    case Str(s) => (match parse(s) case None => true case Some(x) => x != 0.0)
    case _ => true
  }

  /** `validate_recursive`: walks dictionaries and lists depth first; the first
      dictionary entry whose value is refused names the error (`Some(key)`). List
      elements are walked into but never checked themselves. */
  function CheckNested(v: Value, parse: String -> Option<real>): Option<String>
    decreases v, 1, 0
  {
    match v
    case Dict(es) => CheckEntries(v, 0, parse)
    case List(xs) => CheckItems(v, 0, parse)
    case _ => None
  }

  function CheckEntries(v: Value, i: nat, parse: String -> Option<real>): Option<String>
    requires v.Dict? && i <= |v.entries|
    decreases v, 0, |v.entries| - i
  {
    if i == |v.entries| then None
    else
      var (key, value) := v.entries[i];
      if !AcceptsValue(value, parse) then Some(key)
      else
        var inner := CheckNested(value, parse);
        if inner.Some? then inner else CheckEntries(v, i + 1, parse)
  }

  function CheckItems(v: Value, i: nat, parse: String -> Option<real>): Option<String>
    requires v.List? && i <= |v.items|
    decreases v, 0, |v.items| - i
  {
    if i == |v.items| then None
    else
      var inner := CheckNested(v.items[i], parse);
      if inner.Some? then inner else CheckItems(v, i + 1, parse)
  }

  /** Every dictionary entry inside `v`, depth first: an entry comes before the entries
      nested in its value. List elements themselves are not entries. */
  function AllEntries(v: Value): seq<(String, Value)>
    decreases v, 1, 0
  {
    match v
    case Dict(_) => EntriesFrom(v, 0)
    case List(_) => ItemEntriesFrom(v, 0)
    case _ => []
  }

  function EntriesFrom(v: Value, i: nat): seq<(String, Value)>
    requires v.Dict? && i <= |v.entries|
    decreases v, 0, |v.entries| - i
  {
    if i == |v.entries| then []
    else [v.entries[i]] + AllEntries(v.entries[i].1) + EntriesFrom(v, i + 1)
  }

  function ItemEntriesFrom(v: Value, i: nat): seq<(String, Value)>
    requires v.List? && i <= |v.items|
    decreases v, 0, |v.items| - i
  {
    if i == |v.items| then [] else AllEntries(v.items[i]) + ItemEntriesFrom(v, i + 1)
  }

  /** The key of the first entry whose value is refused. */
  function FirstRefused(es: seq<(String, Value)>, parse: String -> Option<real>): (r: Option<String>)
    ensures r.None? <==> forall k :: 0 <= k < |es| ==> AcceptsValue(es[k].1, parse)
    ensures r.Some? ==> exists k :: 0 <= k < |es| && es[k].0 == r.value && !AcceptsValue(es[k].1, parse)
    decreases |es|
  {
    if |es| == 0 then None
    else if !AcceptsValue(es[0].1, parse) then Some(es[0].0)
    else
      var r := FirstRefused(es[1..], parse);
      assert forall k :: 1 <= k < |es| ==> es[k] == es[1..][k - 1];
      r
  }

  lemma {:induction false} FirstRefusedAppend(a: seq<(String, Value)>, b: seq<(String, Value)>, parse: String -> Option<real>)
    ensures FirstRefused(a + b, parse) == if FirstRefused(a, parse).Some? then FirstRefused(a, parse) else FirstRefused(b, parse)
    decreases |a|
  {
    if |a| == 0 {
      assert a + b == b;
    } else {
      assert (a + b)[1..] == a[1..] + b;
      FirstRefusedAppend(a[1..], b, parse);
    }
  }

  lemma FirstRefusedCons(e: (String, Value), rest: seq<(String, Value)>, parse: String -> Option<real>)
    ensures FirstRefused([e] + rest, parse) == if !AcceptsValue(e.1, parse) then Some(e.0) else FirstRefused(rest, parse)
  {
    assert ([e] + rest)[0] == e;
    assert ([e] + rest)[1..] == rest;
  }

  /** The walk stops at exactly the first refused entry in depth-first order. */
  lemma {:induction false} CheckNestedFindsFirst(v: Value, parse: String -> Option<real>)
    ensures CheckNested(v, parse) == FirstRefused(AllEntries(v), parse)
    decreases v, 1, 0
  {
    match v
    case Dict(_) => CheckEntriesFindsFirst(v, 0, parse);
    case List(_) => CheckItemsFindsFirst(v, 0, parse);
    case _ =>
  }

  lemma {:induction false} CheckEntriesFindsFirst(v: Value, i: nat, parse: String -> Option<real>)
    requires v.Dict? && i <= |v.entries|
    ensures CheckEntries(v, i, parse) == FirstRefused(EntriesFrom(v, i), parse)
    decreases v, 0, |v.entries| - i
  {
    if i < |v.entries| {
      var e := v.entries[i];
      var rest := AllEntries(e.1) + EntriesFrom(v, i + 1);
      assert EntriesFrom(v, i) == [e] + rest;
      FirstRefusedCons(e, rest, parse);
      CheckNestedFindsFirst(e.1, parse);
      CheckEntriesFindsFirst(v, i + 1, parse);
      FirstRefusedAppend(AllEntries(e.1), EntriesFrom(v, i + 1), parse);
    }
  }

  lemma {:induction false} CheckItemsFindsFirst(v: Value, i: nat, parse: String -> Option<real>)
    requires v.List? && i <= |v.items|
    ensures CheckItems(v, i, parse) == FirstRefused(ItemEntriesFrom(v, i), parse)
    decreases v, 0, |v.items| - i
  {
    if i < |v.items| {
      CheckNestedFindsFirst(v.items[i], parse);
      CheckItemsFindsFirst(v, i + 1, parse);
      FirstRefusedAppend(AllEntries(v.items[i]), ItemEntriesFrom(v, i + 1), parse);
    }
  }

  /** A list of plain values has no entries, so its zeros pass the check. */
  lemma {:induction false} ScalarItemsHaveNoEntries(v: Value, i: nat)
    requires v.List? && i <= |v.items|
    requires forall k :: 0 <= k < |v.items| ==> !v.items[k].Dict? && !v.items[k].List?
    ensures ItemEntriesFrom(v, i) == []
    decreases |v.items| - i
  {
    if i < |v.items| {
      ScalarItemsHaveNoEntries(v, i + 1);
    }
  }

  lemma ScalarListPasses(xs: seq<Value>, parse: String -> Option<real>)
    requires forall k :: 0 <= k < |xs| ==> !xs[k].Dict? && !xs[k].List?
    ensures CheckNested(List(xs), parse) == None
  {
    ScalarItemsHaveNoEntries(List(xs), 0);
    CheckNestedFindsFirst(List(xs), parse);
  }

  /** A zero that is a dictionary value is refused; the same zero as a list element
      inside that dictionary is not. */
  lemma ZeroInListNotRejected(parse: String -> Option<real>)
    ensures CheckNested(Dict([("grad", Int(0))]), parse) == Some("grad")
    ensures CheckNested(Dict([("grade", List([Int(0)]))]), parse) == None
  {
    ScalarListPasses([Int(0)], parse);
    var d := Dict([("grade", List([Int(0)]))]);
    assert CheckEntries(d, 1, parse) == None;
  }

  /** The header `format_for_yaml` puts above the data. */
  function YamlHeader(spiralzeit: String): Value {
    Dict([("version", Str("WWAQ-1.0")), ("spiralzeit", Str(spiralzeit)), ("null_tabu_validated", Bool(true))])
  }

  /** `format_for_yaml`: the data under the header, checked as a whole. The spiral time
      is a parameter: it comes from the calendar. */
  function FormatForYaml(data: Value, spiralzeit: String, parse: String -> Option<real>): (r: Result<Value, String>)
    ensures r.Success? ==> r.value == Dict([("ez_chajim_header", YamlHeader(spiralzeit)), ("content", data)])
    ensures r.Failure? ==>
      (exists e :: e in AllEntries(Dict([("ez_chajim_header", YamlHeader(spiralzeit)), ("content", data)]))
        && e.0 == r.error && !AcceptsValue(e.1, parse))
  {
    var formatted := Dict([("ez_chajim_header", YamlHeader(spiralzeit)), ("content", data)]);
    CheckNestedFindsFirst(formatted, parse);
    match CheckNested(formatted, parse)
    case None => Success(formatted)
    case Some(key) => Failure(key)
  }

  /** Unless `float()` reads the version or the spiral time as zero, the header always
      passes, and the outcome is that of checking the data alone. */
  lemma FormatForYamlChecksData(data: Value, spiralzeit: String, parse: String -> Option<real>)
    requires AcceptsValue(data, parse)
    requires parse("WWAQ-1.0") != Some(0.0) && parse(spiralzeit) != Some(0.0)
    ensures FormatForYaml(data, spiralzeit, parse).Success? <==> CheckNested(data, parse).None?
    ensures FormatForYaml(data, spiralzeit, parse).Failure? ==>
      Some(FormatForYaml(data, spiralzeit, parse).error) == CheckNested(data, parse)
  {
    var header := YamlHeader(spiralzeit);
    var formatted := Dict([("ez_chajim_header", header), ("content", data)]);
    HeaderPasses(spiralzeit, parse);
    assert CheckEntries(formatted, 2, parse) == None;
    assert CheckEntries(formatted, 1, parse) == CheckNested(data, parse);
    assert CheckEntries(formatted, 0, parse) == CheckNested(data, parse);
    assert CheckNested(formatted, parse) == CheckNested(data, parse);
  }

  /** Content that is itself a refused value (a zero, `False`, a string `float()` reads
      as zero) fails under its key "content". */
  lemma FormatForYamlRefusesZeroContent(data: Value, spiralzeit: String, parse: String -> Option<real>)
    requires !AcceptsValue(data, parse)
    requires parse("WWAQ-1.0") != Some(0.0) && parse(spiralzeit) != Some(0.0)
    ensures FormatForYaml(data, spiralzeit, parse) == Failure("content")
  {
    var header := YamlHeader(spiralzeit);
    var formatted := Dict([("ez_chajim_header", header), ("content", data)]);
    HeaderPasses(spiralzeit, parse);
    assert CheckEntries(formatted, 1, parse) == Some("content");
    assert CheckEntries(formatted, 0, parse) == Some("content");
  }

  /** The header passes unless `float()` reads the version or the spiral time as zero. */
  lemma HeaderPasses(spiralzeit: String, parse: String -> Option<real>)
    requires parse("WWAQ-1.0") != Some(0.0) && parse(spiralzeit) != Some(0.0)
    ensures AcceptsValue(YamlHeader(spiralzeit), parse)
    ensures CheckNested(YamlHeader(spiralzeit), parse) == None
  {
    var header := YamlHeader(spiralzeit);
    assert CheckEntries(header, 3, parse) == None;
    assert AcceptsValue(header.entries[2].1, parse);
    assert CheckEntries(header, 2, parse) == None;
    assert AcceptsValue(header.entries[1].1, parse);
    assert CheckEntries(header, 1, parse) == None;
    assert AcceptsValue(header.entries[0].1, parse);
    assert CheckEntries(header, 0, parse) == None;
  }

  // ---------------------------------------------------------------- WWAQ text check

  datatype WwaqViolations = WwaqViolations(kabbalaStattQabbala: bool, kawanaStattQawana: bool, nullVerwendet: bool)

  datatype WwaqReport = WwaqReport(isValid: bool, violations: WwaqViolations)

  /** `validate_wwaq_text`: the K-spellings are violations unless the Q-spelling also
      occurs; any digit zero, or the words null or zero in any case, is a violation. */
  function ValidateWwaqText(text: String): (r: WwaqReport)
    ensures r.isValid <==> !r.violations.kabbalaStattQabbala && !r.violations.kawanaStattQawana && !r.violations.nullVerwendet
    ensures r.violations.kabbalaStattQabbala <==> Contains(Lower(text), "kabbala") && !Contains(Lower(text), "qabbala")
    ensures r.violations.kawanaStattQawana <==> Contains(Lower(text), "kawana") && !Contains(Lower(text), "qawana")
    ensures r.violations.nullVerwendet <==>
      (Contains(text, "0") || Contains(Lower(text), "null") || Contains(Lower(text), "zero"))
  {
    var low := Lower(text);
    var v := WwaqViolations(
      Contains(low, "kabbala") && !Contains(low, "qabbala"),
      Contains(low, "kawana") && !Contains(low, "qawana"),
      Contains(text, "0") || Contains(low, "null") || Contains(low, "zero"));
    WwaqReport(!(v.kabbalaStattQabbala || v.kawanaStattQawana || v.nullVerwendet), v)
  }

  /** Numeral letters lie in the Hebrew block, from א to ת. */
  lemma NumeralLettersHebrew(c: char)
    requires c in HebrewNumerals.Values
    ensures 'א' <= c <= 'ת'
  {
    var k :| k in HebrewNumerals && HebrewNumerals[k] == c;
  }

  /** A numeral is made of numeral letters, the minus sign and the geresh. */
  lemma {:induction false} EncodeChars(v: int)
    requires Encode(v).Success?
    ensures forall i :: 0 <= i < |Encode(v).value| ==>
      Encode(v).value[i] in HebrewNumerals.Values || Encode(v).value[i] == '-' || Encode(v).value[i] == '\''
    decreases if v < 0 then 1 - v else v
  {
    if v < 0 {
      EncodeChars(-v);
    } else if v >= 1000 {
      ThousandsShape(v);
      EncodeChars(v / 1000);
    }
  }

  /** Every numeral passes the WWAQ text check: it has no Latin letters and no digit. */
  lemma NumeralsPassWwaq(v: int)
    requires Encode(v).Success?
    ensures ValidateWwaqText(Encode(v).value).isValid
  {
    var s := Encode(v).value;
    var low := Lower(s);
    EncodeChars(v);
    forall i | 0 <= i < |s|
      ensures low[i] == s[i] && s[i] != '0' && s[i] != 'k' && s[i] != 'n' && s[i] != 'z'
    {
      if s[i] in HebrewNumerals.Values {
        NumeralLettersHebrew(s[i]);
      }
    }
    assert low == s;
    MissingCharNotContained(s, "0", 0);
    MissingCharNotContained(low, "kabbala", 0);
    MissingCharNotContained(low, "kawana", 0);
    MissingCharNotContained(low, "null", 0);
    MissingCharNotContained(low, "zero", 0);
  }

  /** Lower-casing the text first changes nothing: the check is blind to case. */
  lemma WwaqTextCaseBlind(text: String)
    ensures ValidateWwaqText(Lower(text)) == ValidateWwaqText(text)
  {
    LowerIdempotent(text);
    var low := Lower(text);
    forall i: nat | i <= |text| ensures OccursAt(low, "0", i) <==> OccursAt(text, "0", i) {
      if i < |text| {
        assert low[i..i + 1] == [low[i]] && text[i..i + 1] == [text[i]];
      }
    }
  }
}
