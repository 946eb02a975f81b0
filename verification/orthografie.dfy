/**
 * The lookup tables of the Q-system's German orthography: article check, genus by
 * word ending, related terms by semantic field, the style check against
 * anthropomorphic expressions, and the elimination of zer- words with its log.
 */
module Orthografie {
  import opened Results
  import opened Text
  import opened Substrings
  import opened Seqs

  // ---------------------------------------------------------------- articles

  /** `artikel`: the article each listed word takes. */
  const Artikel: map<String, String> := map[
    "Qli" := "das", "Qelim" := "die", "Sefira" := "die", "Sefirot" := "die",
    "Parzuf" := "der", "Parzufim" := "die", "Or" := "das", "Orot" := "die",
    "Qawana" := "die", "Zimzum" := "der", "Tiqqun" := "der", "Dwequt" := "die",
    "Qabbala" := "die", "Qlipa" := "die", "Qlipot" := "die"
  ]

  /** `pruefe_artikel`: the verdict and, for a wrong article, the correction. */
  function PruefeArtikel(wort: String, artikel: String): (r: (bool, String))
    ensures r.0 <==> wort !in Artikel || Lower(artikel) == Artikel[wort]
    ensures r.0 ==> r.1 == ""
    ensures !r.0 ==> (wort in Artikel
      && r.1 == "'" + artikel + " " + wort + "' → '" + Artikel[wort] + " " + wort + "'")
  {
    if wort in Artikel && Lower(artikel) != Artikel[wort] then
      (false, "'" + artikel + " " + wort + "' → '" + Artikel[wort] + " " + wort + "'")
    else
      (true, "")
  }

  /** The table holds only the three lower-case articles. */
  lemma ArtikelValues()
    ensures forall w :: w in Artikel ==> Artikel[w] in {"der", "die", "das"}
  {
  }

  /** The check ignores the case of the article. */
  lemma PruefeArtikelCaseBlind(wort: String, artikel: String)
    ensures PruefeArtikel(wort, Lower(artikel)) == PruefeArtikel(wort, artikel)
      || (!PruefeArtikel(wort, artikel).0 && !PruefeArtikel(wort, Lower(artikel)).0)
  {
    LowerIdempotent(artikel);
  }

  /** The article the table gives, in any case, passes the check. */
  lemma TableArticlePasses(wort: String, artikel: String)
    requires wort in Artikel && Lower(artikel) == Artikel[wort]
    ensures PruefeArtikel(wort, artikel) == (true, "")
  {
  }

  lemma PruefeArtikelExamples()
    ensures PruefeArtikel("Qabbala", "Die") == (true, "")
    ensures PruefeArtikel("Bereschit", "das") == (true, "")
    ensures !PruefeArtikel("Qli", "der").0
  {
    assert Lower("Die") == "die";
    assert Lower("der") == "der";
  }

  // ---------------------------------------------------------------- genus

  /** The genus of the first ending in `table` that `wort` ends with. */
  function GenusOf(table: seq<(String, String)>, wort: String): (r: Option<String>)
    ensures r.None? <==> forall k :: 0 <= k < |table| ==> !EndsWith(wort, table[k].0)
    ensures r.Some? ==> exists k :: (0 <= k < |table| && EndsWith(wort, table[k].0)
      && r.value == table[k].1 && forall j :: 0 <= j < k ==> !EndsWith(wort, table[j].0))
    decreases |table|
  {
    if |table| == 0 then None
    else if EndsWith(wort, table[0].0) then Some(table[0].1)
    else
      var r := GenusOf(table[1..], wort);
      assert forall k :: 1 <= k < |table| ==> table[k] == table[1..][k - 1];
      r
  }

  /** `genus_endungen`, with the keys exactly as written: each starts with a hyphen. */
  const GenusEndungen: seq<(String, String)> := [
    ("-ung", "feminin"), ("-heit", "feminin"), ("-keit", "feminin"),
    ("-schaft", "feminin"), ("-ismus", "maskulin"), ("-er", "maskulin")
  ]

  /** `bestimme_genus` as written. */
  function BestimmeGenus(wort: String): Option<String> {
    GenusOf(GenusEndungen, wort)
  }

  /** When every ending starts with `c`, only a word holding `c` gets a genus. */
  lemma GenusOfNeedsChar(table: seq<(String, String)>, wort: String, c: char)
    requires forall k :: 0 <= k < |table| ==> |table[k].0| > 0 && table[k].0[0] == c
    ensures GenusOf(table, wort).Some? ==> c in wort
  {
    if GenusOf(table, wort).Some? {
      var k :| 0 <= k < |table| && EndsWith(wort, table[k].0);
      assert wort[|wort| - |table[k].0|] == table[k].0[0];
    }
  }

  /** Because of the hyphen only a word that holds a hyphen ever gets a genus. */
  lemma GenusNeedsHyphen(wort: String)
    ensures BestimmeGenus(wort).Some? ==> '-' in wort
  {
    GenusOfNeedsChar(GenusEndungen, wort, '-');
  }

  lemma OffenbarungHasNoGenus()
    ensures BestimmeGenus("Offenbarung") == None
  {
    GenusNeedsHyphen("Offenbarung");
  }

  /** The endings the comments of the table name: "die Offenbarung", "der Lehrer". */
  const GenusEndungenIntended: seq<(String, String)> := [
    ("ung", "feminin"), ("heit", "feminin"), ("keit", "feminin"),
    ("schaft", "feminin"), ("ismus", "maskulin"), ("er", "maskulin")
  ]

  function BestimmeGenusIntended(wort: String): Option<String> {
    GenusOf(GenusEndungenIntended, wort)
  }

  /** A word that ends with `e` and with `f` has one ending at the end of the other. */
  lemma EndsWithBoth(wort: String, e: String, f: String)
    requires EndsWith(wort, e) && EndsWith(wort, f)
    ensures EndsWith(e, f) || EndsWith(f, e)
  {
    if |f| <= |e| {
      assert e[|e| - |f|..] == wort[|wort| - |f|..];
    } else {
      assert f[|f| - |e|..] == wort[|wort| - |e|..];
    }
  }

  /** No intended ending ends another. */
  lemma IntendedEndingsUnrelated()
    ensures forall j, k :: (0 <= j < |GenusEndungenIntended| && 0 <= k < |GenusEndungenIntended| && j != k
      ==> !EndsWith(GenusEndungenIntended[j].0, GenusEndungenIntended[k].0))
  {
    forall j, k | 0 <= j < 6 && 0 <= k < 6 && j != k
      ensures !EndsWith(GenusEndungenIntended[j].0, GenusEndungenIntended[k].0)
    {
      var e, f := GenusEndungenIntended[j].0, GenusEndungenIntended[k].0;
      if |f| <= |e| {
        if e[|e| - 1] != f[|f| - 1] {
          SuffixDiffers(e, f, 1);
        } else if e[|e| - 2] != f[|f| - 2] {
          SuffixDiffers(e, f, 2);
        } else {
          SuffixDiffers(e, f, 4);
        }
      }
    }
  }

  lemma SuffixDiffers(e: String, f: String, i: nat)
    requires 0 < i <= |f| <= |e| && e[|e| - i] != f[|f| - i]
    ensures !EndsWith(e, f)
  {
    assert e[|e| - |f|..][|f| - i] == e[|e| - i];
  }

  /** Every intended ending gives its own genus, whatever comes before it. */
  lemma IntendedEndingGivesItsGenus(stem: String, k: nat)
    requires k < |GenusEndungenIntended|
    ensures BestimmeGenusIntended(stem + GenusEndungenIntended[k].0) == Some(GenusEndungenIntended[k].1)
  {
    var e := GenusEndungenIntended[k].0;
    var wort := stem + e;
    assert EndsWith(wort, e) by { assert wort[|wort| - |e|..] == e; }
    IntendedEndingsUnrelated();
    forall j | 0 <= j < |GenusEndungenIntended| && j != k
      ensures !EndsWith(wort, GenusEndungenIntended[j].0)
    {
      if EndsWith(wort, GenusEndungenIntended[j].0) {
        EndsWithBoth(wort, e, GenusEndungenIntended[j].0);
      }
    }
  }

  lemma IntendedGenusExamples()
    ensures BestimmeGenusIntended("Offenbarung") == Some("feminin")
    ensures BestimmeGenusIntended("Lehrer") == Some("maskulin")
  {
    IntendedEndingGivesItsGenus("Offenbar", 0);
    assert "Offenbar" + "ung" == "Offenbarung";
    IntendedEndingGivesItsGenus("Lehr", 5);
    assert "Lehr" + "er" == "Lehrer";
  }

  // ---------------------------------------------------------------- related terms

  /** `xs` without the entries equal to `w`, order kept. */
  function Without(xs: seq<String>, w: String): (r: seq<String>)
    ensures forall b :: b in r <==> b in xs && b != w
    ensures IsSubsequence(r, xs)
    decreases |xs|
  {
    if |xs| == 0 then []
    else
      var rest := Without(xs[1..], w);
      assert xs == [xs[0]] + xs[1..];
      if xs[0] == w then
        SubsequenceSkip(xs[0], rest, xs[1..]);
        rest
      else
        SubsequenceCons(xs[0], rest, xs[1..]);
        [xs[0]] + rest
  }

  /** For every field that holds `wort`, the field's other terms, field by field. */
  function Related(fields: seq<(String, seq<String>)>, wort: String): (r: seq<String>)
    ensures forall b :: b in r <==>
      b != wort && exists f :: 0 <= f < |fields| && wort in fields[f].1 && b in fields[f].1
    decreases |fields|
  {
    if |fields| == 0 then []
    else
      var here := if wort in fields[0].1 then Without(fields[0].1, wort) else [];
      var rest := Related(fields[1..], wort);
      assert forall f :: 1 <= f < |fields| ==> fields[f] == fields[1..][f - 1];
      here + rest
  }

  /** `wortfelder`: the semantic fields and their terms. */
  const Wortfelder: seq<(String, seq<String>)> := [
    ("Licht", ["Or", "Orot", "leuchten", "strahlen", "erhellen"]),
    ("Gefäß", ["Qli", "Qelim", "empfangen", "aufnehmen", "fassen"]),
    ("Korrektur", ["Tiqqun", "korrigieren", "heilen", "wiederherstellen"]),
    ("Verhüllung", ["Qlipa", "verbergen", "verhüllen", "bedecken"]),
    ("Heiligkeit", ["Qeduscha", "heiligen", "weihen", "erheben"])
  ]

  /** `finde_verwandte_begriffe` */
  function FindeVerwandteBegriffe(wort: String): (r: seq<String>)
    ensures wort !in r
  {
    Related(Wortfelder, wort)
  }

  /** Relatedness is symmetric: `b` is found for `w` exactly when `w` is found for `b`. */
  lemma RelatedSymmetric(w: String, b: String)
    ensures b in FindeVerwandteBegriffe(w) <==> w in FindeVerwandteBegriffe(b)
  {
  }

  lemma VerwandteExample()
    ensures "Qelim" in FindeVerwandteBegriffe("Qli")
  {
    assert "Qli" in Wortfelder[1].1 && "Qelim" in Wortfelder[1].1;
  }

  // ---------------------------------------------------------------- style

  /** `anthropomorph_vermeiden` */
  const Anthropomorph: seq<String> := [
    "Gott will", "Gott denkt", "Gott fühlt", "der Herr sagt", "Er wünscht", "Seine Hand"
  ]

  /** `spirituelle_alternativen`: only its first key is one of the expressions above. */
  const Alternativen: map<String, String> := map[
    "Gott will" := "es ist der göttliche Wille", "Gott sagt" := "es steht geschrieben",
    "Er" := "die Höhere Kraft", "Seine" := "die göttliche"
  ]

  function Vermeide(ausdruck: String): String {
    var alt := if ausdruck in Alternativen then Alternativen[ausdruck] else "";
    "Vermeide: '" + ausdruck + "' → '" + alt + "'"
  }

  /** One warning per expression found in the text, both lower-cased, in list order. */
  function StilProbleme(ausdruecke: seq<String>, text: String): (r: seq<String>)
    ensures |r| <= |ausdruecke|
    ensures r == [] <==> forall k :: 0 <= k < |ausdruecke| ==> !Contains(Lower(text), Lower(ausdruecke[k]))
    ensures forall m :: m in r ==> exists k :: (0 <= k < |ausdruecke|
      && m == Vermeide(ausdruecke[k]) && Contains(Lower(text), Lower(ausdruecke[k])))
    ensures forall k :: 0 <= k < |ausdruecke| && Contains(Lower(text), Lower(ausdruecke[k])) ==>
              Vermeide(ausdruecke[k]) in r
    decreases |ausdruecke|
  {
    if |ausdruecke| == 0 then []
    else
      var rest := StilProbleme(ausdruecke[1..], text);
      assert forall k :: 1 <= k < |ausdruecke| ==> ausdruecke[k] == ausdruecke[1..][k - 1];
      if Contains(Lower(text), Lower(ausdruecke[0])) then [Vermeide(ausdruecke[0])] + rest else rest
  }

  /** `pruefe_stil`; the style level argument does not change the result. */
  function PruefeStil(text: String): (r: seq<String>)
    ensures |r| <= 6
    ensures forall k :: 0 <= k < |Anthropomorph| && Contains(Lower(text), Lower(Anthropomorph[k])) ==>
              Vermeide(Anthropomorph[k]) in r
    ensures forall m :: m in r ==> exists k :: (0 <= k < |Anthropomorph|
      && m == Vermeide(Anthropomorph[k]) && Contains(Lower(text), Lower(Anthropomorph[k])))
  {
    StilProbleme(Anthropomorph, text)
  }

  /** The style check is blind to the case of the text. */
  lemma {:induction false} StilProblemeCaseBlind(ausdruecke: seq<String>, text: String)
    ensures StilProbleme(ausdruecke, Lower(text)) == StilProbleme(ausdruecke, text)
    decreases |ausdruecke|
  {
    LowerIdempotent(text);
    if |ausdruecke| > 0 {
      StilProblemeCaseBlind(ausdruecke[1..], text);
    }
  }

  lemma PruefeStilCaseBlind(text: String)
    ensures PruefeStil(Lower(text)) == PruefeStil(text)
  {
    StilProblemeCaseBlind(Anthropomorph, text);
  }

  /** Every expression holds a blank, so a text without one draws no warning. */
  lemma StilQuietWithoutSpace(text: String)
    requires ' ' !in text
    ensures PruefeStil(text) == []
  {
    assert ' ' !in Lower(text);
    forall k | 0 <= k < |Anthropomorph|
      ensures !Contains(Lower(text), Lower(Anthropomorph[k]))
    {
      var j := if k == 3 then 3 else if k == 4 then 2 else if k == 5 then 5 else 4;
      assert Lower(Anthropomorph[k])[j] == ' ';
      MissingCharNotContained(Lower(text), Lower(Anthropomorph[k]), j);
    }
  }

  /** Of the six expressions only "Gott will" has an alternative; the others are
      reported with an empty one. */
  lemma OnlyGottWillHasAlternative()
    ensures forall k :: 0 <= k < |Anthropomorph| ==> (Anthropomorph[k] in Alternativen <==> k == 0)
  {
  }

  // ---------------------------------------------------------------- zer- words

  /** `zer_transformationen`, in declaration order. */
  const ZerTransformationen: seq<Rule> := [
    Rule("zerbrechen", "bersten"), Rule("zerbrochen", "geborsten"),
    Rule("zerbricht", "berstet"), Rule("zerstören", "wandeln"),
    Rule("zerstört", "gewandelt"), Rule("Zerstörung", "Wandlung"),
    Rule("zerreißen", "trennen"), Rule("zerrissen", "getrennt"),
    Rule("zerschlagen", "transformieren"), Rule("zerfallen", "sich auflösen"),
    Rule("zersetzen", "umwandeln"), Rule("zersplittern", "sich teilen")
  ]

  /** The log line of one replacement: `f"{alt} → {neu}"`. */
  function Entry(alt: String, neu: String): String {
    alt + " → " + neu
  }

  /** Replace `alt` by `neu` when the text holds `alt`, and log it. */
  function ZerStep(text: String, alt: Pattern, neu: String): (r: (String, seq<String>))
    ensures r.1 == [] <==> !Contains(text, alt)
    ensures r.1 == [] ==> r.0 == text
    ensures r.1 != [] ==> r.1 == [Entry(alt, neu)] && r.0 == Replace(text, alt, neu)
  {
    if Contains(text, alt) then (Replace(text, alt, neu), [Entry(alt, neu)]) else (text, [])
  }

  /** The two log lines one rule can write: plain, then capitalised. */
  function RuleEntries(rule: Rule): seq<String> {
    [Entry(rule.pattern, rule.replacement),
     Entry(Capitalize(rule.pattern), Capitalize(rule.replacement))]
  }

  /** Every log line a table can write, in order. */
  function AllEntries(rules: seq<Rule>): seq<String>
    decreases |rules|
  {
    if |rules| == 0 then [] else RuleEntries(rules[0]) + AllEntries(rules[1..])
  }

  /** Each rule in turn: the plain key, then the capitalised key. */
  function EliminateZerWith(rules: seq<Rule>, text: String): (r: (String, seq<String>))
    ensures IsSubsequence(r.1, AllEntries(rules))
    decreases |rules|
  {
    if |rules| == 0 then (text, [])
    else
      var plain := ZerStep(text, rules[0].pattern, rules[0].replacement);
      var cap := ZerStep(plain.0, Capitalize(rules[0].pattern), Capitalize(rules[0].replacement));
      var rest := EliminateZerWith(rules[1..], cap.0);
      EntriesSubsequence(rules[0], plain.1, cap.1, rest.1, AllEntries(rules[1..]));
      (rest.0, plain.1 + cap.1 + rest.1)
  }

  /** Zero or one line for each of a rule's two keys, followed by a subsequence of the
      later lines, is a subsequence of all lines. */
  lemma EntriesSubsequence(rule: Rule, a: seq<String>, b: seq<String>, rest: seq<String>, later: seq<String>)
    requires a == [] || a == [RuleEntries(rule)[0]]
    requires b == [] || b == [RuleEntries(rule)[1]]
    requires IsSubsequence(rest, later)
    ensures IsSubsequence(a + b + rest, RuleEntries(rule) + later)
  {
    var e := RuleEntries(rule);
    assert e + later == [e[0]] + ([e[1]] + later);
    if b == [] {
      assert b + rest == rest;
      SubsequenceSkip(e[1], rest, later);
    } else {
      SubsequenceCons(e[1], rest, later);
    }
    assert a + b + rest == a + (b + rest);
    if a == [] {
      SubsequenceSkip(e[0], b + rest, [e[1]] + later);
    } else {
      SubsequenceCons(e[0], b + rest, [e[1]] + later);
    }
  }

  /** `eliminiere_zer` */
  function EliminiereZer(text: String): (r: (String, seq<String>))
    ensures |r.1| <= 24
  {
    var r := EliminateZerWith(ZerTransformationen, text);
    SubsequenceBounds(r.1, AllEntries(ZerTransformationen));
    AllEntriesLength(ZerTransformationen);
    r
  }

  lemma {:induction false} AllEntriesLength(rules: seq<Rule>)
    ensures |AllEntries(rules)| == 2 * |rules|
    decreases |rules|
  {
    if |rules| > 0 {
      AllEntriesLength(rules[1..]);
    }
  }

  /** A text that holds no key, plain or capitalised, comes back unchanged with an
      empty log. */
  lemma {:induction false} ZerQuiet(rules: seq<Rule>, text: String)
    requires forall k :: 0 <= k < |rules| ==>
      !Contains(text, rules[k].pattern) && !Contains(text, Capitalize(rules[k].pattern))
    ensures EliminateZerWith(rules, text) == (text, [])
    decreases |rules|
  {
    if |rules| > 0 {
      ZerQuiet(rules[1..], text);
    }
  }

  lemma EliminiereZerQuiet(text: String)
    requires forall k :: 0 <= k < |ZerTransformationen| ==>
      !Contains(text, ZerTransformationen[k].pattern)
      && !Contains(text, Capitalize(ZerTransformationen[k].pattern))
    ensures EliminiereZer(text) == (text, [])
  {
    ZerQuiet(ZerTransformationen, text);
  }

  /** Every zer- pattern, capitalised or not, has an 'e' second, so a text without
      one is left alone and nothing is logged. */
  lemma ZerQuietWithoutE(text: String)
    requires 'e' !in text
    ensures EliminiereZer(text) == (text, [])
  {
    forall k | 0 <= k < |ZerTransformationen|
      ensures !Contains(text, ZerTransformationen[k].pattern)
      ensures !Contains(text, Capitalize(ZerTransformationen[k].pattern))
    {
      var p := ZerTransformationen[k].pattern;
      assert p[1] == 'e';
      MissingCharNotContained(text, p, 1);
      assert Capitalize(p)[1] == LowerChar(p[1]) == 'e';
      MissingCharNotContained(text, Capitalize(p), 1);
    }
    EliminiereZerQuiet(text);
  }

  /** A key that capitalisation leaves unchanged, and whose replacement cannot overlap
      it, is logged at most once: after the plain step no occurrence is left for the
      capitalised step. */
  lemma CapitalisedKeyLoggedOnce(text: String, alt: Pattern, neu: String)
    requires Capitalize(alt) == alt
    requires NoOverlap(alt, neu)
    ensures var plain := ZerStep(text, alt, neu);
      |plain.1 + ZerStep(plain.0, Capitalize(alt), Capitalize(neu)).1| <= 1
  {
    if Contains(text, alt) {
      ReplaceRemovesPattern(text, alt, neu);
    }
  }

  /** "Zerstörung" is already capitalised, so its rule writes at most one log line. */
  lemma ZerstoerungLoggedOnce(text: String)
    ensures var plain := ZerStep(text, "Zerstörung", "Wandlung");
      |plain.1 + ZerStep(plain.0, Capitalize("Zerstörung"), Capitalize("Wandlung")).1| <= 1
  {
    assert Capitalize("Zerstörung") == "Zerstörung";
    CapitalisedKeyLoggedOnce(text, "Zerstörung", "Wandlung");
  }

  lemma ZerstoerungRule()
    ensures ZerTransformationen[5] == Rule("Zerstörung", "Wandlung")
  {
  }
}
