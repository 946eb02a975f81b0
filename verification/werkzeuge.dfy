/**
 * The linguistic tools of the Q-system: gematria over the 22 base letters, the
 * simplified syllable split, stem extraction, prefix and suffix detection and the
 * word-class guess.
 */
module Werkzeuge {
  import opened Results
  import opened Text
  import opened Substrings
  import opened Seqs
  import opened Gematria

  // ---------------------------------------------------------------- gematria

  /** `gematria_werte` of `gematria_berechnung`: the 22 letters, no final forms. */
  const WerkzeugWerte: map<char, nat> := map[
    'א' := 1, 'ב' := 2, 'ג' := 3, 'ד' := 4, 'ה' := 5,
    'ו' := 6, 'ז' := 7, 'ח' := 8, 'ט' := 9, 'י' := 10,
    'כ' := 20, 'ל' := 30, 'מ' := 40, 'נ' := 50, 'ס' := 60,
    'ע' := 70, 'פ' := 80, 'צ' := 90, 'ק' := 100, 'ר' := 200,
    'ש' := 300, 'ת' := 400
  ]

  function WerkzeugWeight(c: char): nat {
    if c in WerkzeugWerte then WerkzeugWerte[c] else 0
  }

  /** `gematria_berechnung` */
  function GematriaBerechnung(wort: String): nat {
    SumOf(wort, WerkzeugWeight)
  }

  /** The tool's table is the manuscript table without the five final forms. */
  lemma WerkzeugWeightIsStandardWithoutFinals(c: char)
    ensures WerkzeugWeight(c) == if IsFinalForm(c) then 0 else StandardWeight(c)
  {
  }

  /** Sums of two weights that agree on every character of a text agree. */
  lemma {:induction false} SumOfAgrees(t: String, v: char -> nat, w: char -> nat)
    requires forall i :: 0 <= i < |t| ==> v(t[i]) == w(t[i])
    ensures SumOf(t, v) == SumOf(t, w)
    decreases |t|
  {
    if |t| > 0 {
      SumOfAgrees(t[1..], v, w);
    }
  }

  /** A sum under a smaller weight is smaller. */
  lemma {:induction false} SumOfBelow(t: String, v: char -> nat, w: char -> nat)
    requires forall i :: 0 <= i < |t| ==> v(t[i]) <= w(t[i])
    ensures SumOf(t, v) <= SumOf(t, w)
    decreases |t|
  {
    if |t| > 0 {
      SumOfBelow(t[1..], v, w);
    }
  }

  /** On a word without final forms the tool agrees with the manuscript processor;
      on any word it gives at most the manuscript value. */
  lemma GematriaBerechnungVsStandard(wort: String)
    ensures GematriaBerechnung(wort) <= Standard(wort)
    ensures (forall i :: 0 <= i < |wort| ==> !IsFinalForm(wort[i])) ==> GematriaBerechnung(wort) == Standard(wort)
  {
    forall i | 0 <= i < |wort|
      ensures WerkzeugWeight(wort[i]) <= StandardWeight(wort[i])
    {
      WerkzeugWeightIsStandardWithoutFinals(wort[i]);
    }
    SumOfBelow(wort, WerkzeugWeight, StandardWeight);
    if forall i :: 0 <= i < |wort| ==> !IsFinalForm(wort[i]) {
      forall i | 0 <= i < |wort|
        ensures WerkzeugWeight(wort[i]) == StandardWeight(wort[i])
      {
        WerkzeugWeightIsStandardWithoutFinals(wort[i]);
      }
      SumOfAgrees(wort, WerkzeugWeight, StandardWeight);
    }
  }

  // ---------------------------------------------------------------- syllables

  /** `char.lower() in 'aeiouäöü'` */
  predicate IsVowel(c: char) {
    LowerChar(c) in "aeiouäöü"
  }

  /** The split rule: after a vowel that two consonants follow. */
  predicate Cut(wort: String, i: nat) {
    i + 2 < |wort| && IsVowel(wort[i]) && !IsVowel(wort[i + 1]) && !IsVowel(wort[i + 2])
  }

  /** Where each piece ends: the lengths of the joined first 1, 2, … pieces. */
  function Ends(xs: seq<String>): (r: seq<nat>)
    ensures |r| == |xs|
  {
    seq(|xs|, k requires 0 <= k < |xs| => |Concat(xs[..k + 1])|)
  }

  /** Appending a piece adds its end and keeps the earlier ones. */
  lemma EndsSnoc(xs: seq<String>, x: String)
    ensures Concat(xs + [x]) == Concat(xs) + x
    ensures Ends(xs + [x]) == Ends(xs) + [|Concat(xs)| + |x|]
  {
    ConcatAppend(xs, [x]);
    ConcatSingle(x);
    assert (xs + [x])[..|xs| + 1] == xs + [x];
    forall k | 0 <= k < |xs|
      ensures Ends(xs + [x])[k] == Ends(xs)[k]
    {
      assert (xs + [x])[..k + 1] == xs[..k + 1];
    }
  }

  /** No piece ends after the joined pieces end. */
  lemma EndsBounded(xs: seq<String>)
    ensures forall e :: e in Ends(xs) ==> e <= |Concat(xs)|
  {
    forall k | 0 <= k < |xs|
      ensures Ends(xs)[k] <= |Concat(xs)|
    {
      assert xs == xs[..k + 1] + xs[k + 1..];
      ConcatAppend(xs[..k + 1], xs[k + 1..]);
    }
  }

  /** What the loop of `_silben_trennung` knows after reading `i` characters. */
  predicate SplitSoFar(wort: String, silben: seq<String>, aktuell: String, i: nat) {
    && i <= |wort|
    && Concat(silben) + aktuell == wort[..i]
    && (forall k :: 0 <= k < |silben| ==> silben[k] != [])
    && (forall j :: 0 <= j < i ==> (Cut(wort, j) <==> j + 1 in Ends(silben)))
    && (forall e :: e in Ends(silben) ==> e <= |Concat(silben)|)
  }

  /** Reading a character after which the rule cuts closes the current piece. */
  lemma CutStep(wort: String, silben: seq<String>, aktuell: String, i: nat)
    requires i < |wort| && SplitSoFar(wort, silben, aktuell, i) && Cut(wort, i)
    ensures SplitSoFar(wort, silben + [aktuell + [wort[i]]], [], i + 1)
  {
    var a := aktuell + [wort[i]];
    EndsSnoc(silben, a);
    assert wort[..i + 1] == wort[..i] + [wort[i]];
    assert |Concat(silben)| + |a| == i + 1;
  }

  /** Reading any other character extends the current piece. */
  lemma NoCutStep(wort: String, silben: seq<String>, aktuell: String, i: nat)
    requires i < |wort| && SplitSoFar(wort, silben, aktuell, i) && !Cut(wort, i)
    ensures SplitSoFar(wort, silben, aktuell + [wort[i]], i + 1)
  {
    assert wort[..i + 1] == wort[..i] + [wort[i]];
  }

  /** `_silben_trennung`: the pieces join back to the word, and a piece ends before
      position `j` exactly where the split rule cuts after `j - 1`. */
  method SilbenTrennung(wort: String) returns (silben: seq<String>)
    ensures |silben| > 0
    ensures Concat(silben) == wort
    ensures |wort| > 0 ==> forall k :: 0 <= k < |silben| ==> silben[k] != []
    ensures forall j :: 0 <= j < |wort| ==> (Cut(wort, j) <==> j + 1 < |wort| && j + 1 in Ends(silben))
  {
    silben := [];
    var aktuell: String := [];
    var i := 0;
    while i < |wort|
      invariant SplitSoFar(wort, silben, aktuell, i)
    {
      if i < |wort| - 1 && IsVowel(wort[i]) && !IsVowel(wort[i + 1]) && i < |wort| - 2 && !IsVowel(wort[i + 2]) {
        CutStep(wort, silben, aktuell, i);
        silben := silben + [aktuell + [wort[i]]];
        aktuell := [];
      } else {
        NoCutStep(wort, silben, aktuell, i);
        aktuell := aktuell + [wort[i]];
      }
      i := i + 1;
    }
    assert wort[..i] == wort;
    if aktuell != [] {
      EndsSnoc(silben, aktuell);
      silben := silben + [aktuell];
    }
    if silben == [] {
      silben := [wort];
      ConcatSingle(wort);
    }
  }

  // ---------------------------------------------------------------- stem

  /** The word without the first suffix of `suffixe` it ends with, if any. */
  function StripFirstSuffix(suffixe: seq<Pattern>, wort: String): (r: String)
    ensures StartsWith(wort, r)
    ensures r == wort <==> forall k :: 0 <= k < |suffixe| ==> !EndsWith(wort, suffixe[k])
    ensures r != wort ==> exists k :: (0 <= k < |suffixe| && wort == r + suffixe[k]
      && forall j :: 0 <= j < k ==> !EndsWith(wort, suffixe[j]))
    decreases |suffixe|
  {
    if |suffixe| == 0 then wort
    else if EndsWith(wort, suffixe[0]) then
      var r := wort[..|wort| - |suffixe[0]|];
      assert wort == r + suffixe[0];
      r
    else
      var r := StripFirstSuffix(suffixe[1..], wort);
      assert forall k :: 1 <= k < |suffixe| ==> suffixe[k] == suffixe[1..][k - 1];
      r
  }

  const StammSuffixe: seq<Pattern> := ["ung", "heit", "keit", "schaft", "ismus", "ist"]

  /** `_extrahiere_stamm` */
  function ExtrahiereStamm(wort: String): (r: String)
    ensures StartsWith(wort, r) && |r| <= |wort|
  {
    StripFirstSuffix(StammSuffixe, wort)
  }

  lemma ExtrahiereStammExamples()
    ensures ExtrahiereStamm("Offenbarung") == "Offenbar"
    ensures ExtrahiereStamm("Zimzum") == "Zimzum"
  {
    assert EndsWith("Offenbarung", "ung");
    assert !EndsWith("Zimzum", "ung") && !EndsWith("Zimzum", "heit") && !EndsWith("Zimzum", "keit");
    assert !EndsWith("Zimzum", "schaft") && !EndsWith("Zimzum", "ismus") && !EndsWith("Zimzum", "ist");
  }

  // ---------------------------------------------------------------- prefixes and suffixes

  /** The entries of `xs` that pass `keep`, in list order. */
  function Keep(xs: seq<String>, keep: String -> bool): (r: seq<String>)
    ensures IsSubsequence(r, xs)
    ensures forall x :: x in r <==> x in xs && keep(x)
    decreases |xs|
  {
    if |xs| == 0 then []
    else
      var rest := Keep(xs[1..], keep);
      assert xs == [xs[0]] + xs[1..];
      if keep(xs[0]) then
        SubsequenceCons(xs[0], rest, xs[1..]);
        [xs[0]] + rest
      else
        SubsequenceSkip(xs[0], rest, xs[1..]);
        rest
  }

  const Praefixe: seq<String> := ["un", "ver", "be", "ent", "er", "ge"]

  const Suffixe: seq<String> := ["ung", "heit", "keit", "schaft", "lich", "isch", "ig"]

  /** `_finde_praefixe`: the listed prefixes the word starts with, in list order. */
  function FindePraefixe(wort: String): (r: seq<String>)
    ensures IsSubsequence(r, Praefixe)
    ensures forall p :: p in r <==> p in Praefixe && StartsWith(wort, p)
  {
    Keep(Praefixe, p => StartsWith(wort, p))
  }

  /** `_finde_suffixe`: the listed suffixes the word ends with, in list order. */
  function FindeSuffixe(wort: String): (r: seq<String>)
    ensures IsSubsequence(r, Suffixe)
    ensures forall s :: s in r <==> s in Suffixe && EndsWith(wort, s)
  {
    Keep(Suffixe, s => EndsWith(wort, s))
  }

  /** Two prefixes of one word: one starts the other. */
  lemma PrefixesNest(wort: String, p: String, q: String)
    requires StartsWith(wort, p) && StartsWith(wort, q) && |p| <= |q|
    ensures StartsWith(q, p)
  {
    assert q[..|p|] == wort[..|q|][..|p|];
  }

  /** The prefixes found in one word are nested, and so are the suffixes. */
  lemma FoundAffixesNest(wort: String)
    ensures forall p, q :: p in FindePraefixe(wort) && q in FindePraefixe(wort) && |p| <= |q| ==> StartsWith(q, p)
    ensures forall s, t :: s in FindeSuffixe(wort) && t in FindeSuffixe(wort) && |s| <= |t| ==> EndsWith(t, s)
  {
    forall p, q | p in FindePraefixe(wort) && q in FindePraefixe(wort) && |p| <= |q|
      ensures StartsWith(q, p)
    {
      PrefixesNest(wort, p, q);
    }
    forall s, t | s in FindeSuffixe(wort) && t in FindeSuffixe(wort) && |s| <= |t|
      ensures EndsWith(t, s)
    {
      assert t[|t| - |s|..] == wort[|wort| - |t|..][|t| - |s|..];
    }
  }

  // ---------------------------------------------------------------- word class

  datatype Wortart = Substantiv | Verb | Adjektiv | Unbestimmt

  /** `wort.endswith(('en', 'ern', 'eln'))`. */
  predicate VerbEnding(wort: String) {
    EndsWith(wort, "en") || EndsWith(wort, "ern") || EndsWith(wort, "eln")
  }

  /** `wort.endswith(('ig', 'lich', 'isch'))`. */
  predicate AdjektivEnding(wort: String) {
    EndsWith(wort, "ig") || EndsWith(wort, "lich") || EndsWith(wort, "isch")
  }

  /** `_bestimme_wortart`; the empty word fails on `wort[0]`. */
  function BestimmeWortart(wort: String): (r: Result<Wortart, String>)
    ensures r.Failure? <==> |wort| == 0
    ensures r == Success(Substantiv) <==> |wort| > 0 && IsUpper(wort[0])
    ensures r == Success(Verb) <==> |wort| > 0 && !IsUpper(wort[0]) && VerbEnding(wort)
    ensures r == Success(Adjektiv) <==> |wort| > 0 && !IsUpper(wort[0]) && AdjektivEnding(wort)
    ensures r == Success(Unbestimmt) <==>
      |wort| > 0 && !IsUpper(wort[0]) && !VerbEnding(wort) && !AdjektivEnding(wort)
  {
    if |wort| == 0 then Failure("IndexError: string index out of range")
    else if IsUpper(wort[0]) then Success(Substantiv)
    else if VerbEnding(wort) then
      VerbAndAdjektivEndingsDisjoint(wort);
      Success(Verb)
    else if AdjektivEnding(wort) then Success(Adjektiv)
    else Success(Unbestimmt)
  }

  /** A word that starts with a letter is a noun once capitalised. */
  lemma CapitalisedIsSubstantiv(wort: String)
    requires |wort| > 0 && (IsLower(wort[0]) || IsUpper(wort[0]))
    ensures BestimmeWortart(Capitalize(wort)) == Success(Substantiv)
  {
  }

  /** The verb and adjective endings exclude each other, so the order of the two
      checks only matters for capitalised words. */
  lemma VerbAndAdjektivEndingsDisjoint(wort: String)
    requires VerbEnding(wort)
    ensures !AdjektivEnding(wort)
  {
    assert wort[|wort| - 1] == 'n';
  }
}
