/**
 * The transliteration table of the Q-system's German orthography: sixty literal
 * rules (K to Q, v to w, s doubled, final h dropped, tz to z, and the abbreviations),
 * applied one after another, and what the order of the rules does to the words they
 * name.
 */
module Schreibweise {
  import opened Text
  import opened Substrings

  // ---------------------------------------------------------------- transliteration

  // The table `q_regeln`, in declaration order, cut into word families. The source's
  // own comments group the K→Q rules together; here they are four families.

  /** K becomes Q: Kabbala. */
  const KabbalaRules: seq<Rule> := [
    Rule("Kabbala", "Qabbala"), Rule("kabbala", "qabbala"),
    Rule("Kabbalah", "Qabbala"), Rule("kabbalah", "qabbala")
  ]

  /** K becomes Q: Kawana. */
  const KawanaRules: seq<Rule> := [
    Rule("Kawana", "Qawana"), Rule("kawana", "qawana"),
    Rule("Kavanah", "Qawana"), Rule("kavanah", "qawana")
  ]

  /** K becomes Q: Kli and Klipa. */
  const KliRules: seq<Rule> := [
    Rule("Kli", "Qli"), Rule("kli", "qli"),
    Rule("Klipa", "Qlipa"), Rule("klipa", "qlipa"),
    Rule("Klipot", "Qlipot"), Rule("klipot", "qlipot"),
    Rule("Klippot", "Qlipot"), Rule("klippot", "qlipot")
  ]

  /** K becomes Q: Keter, Kadmon, Kedusha, Kelim. */
  const KeterRules: seq<Rule> := [
    Rule("Keter", "Qeter"), Rule("keter", "qeter"),
    Rule("Kadmon", "Qadmon"), Rule("kadmon", "qadmon"),
    Rule("Kedusha", "Qeduscha"), Rule("kedusha", "qeduscha"),
    Rule("Kelim", "Qelim"), Rule("kelim", "qelim")
  ]

  /** v becomes w. */
  const VToW: seq<Rule> := [
    Rule("Gevura", "Gewura"), Rule("gevura", "gewura"),
    Rule("Gevurah", "Gewura"), Rule("gevurah", "gewura")
  ]

  /** A single s between vowels is doubled; Y becomes J. */
  const DoubleS: seq<Rule> := [
    Rule("Chesed", "Chessed"), Rule("chesed", "chessed"),
    Rule("Yesod", "Jessod"), Rule("yesod", "jessod"),
    Rule("Jesod", "Jessod"), Rule("jesod", "jessod")
  ]

  /** A final h is dropped: Torah, Binah, Chochmah. */
  const FinalHRules: seq<Rule> := [
    Rule("Torah", "Tora"), Rule("torah", "tora"),
    Rule("Binah", "Bina"), Rule("binah", "bina"),
    Rule("Chochmah", "Chochma"), Rule("chochmah", "chochma")
  ]

  /** A final h is dropped and sh becomes sch: Shekinah, Halakhah, Shekhina. */
  const ShekinaRules: seq<Rule> := [
    Rule("Shekinah", "Schechina"), Rule("shekinah", "schechina"),
    Rule("Halakhah", "Halacha"), Rule("halakhah", "halacha"),
    Rule("Shekhina", "Schechina"), Rule("shekhina", "schechina")
  ]

  /** Ze'ir becomes Se'ir. */
  const ZeirToSeir: seq<Rule> := [
    Rule("Ze'ir Anpin", "Se'ir Anpin"), Rule("ze'ir anpin", "se'ir anpin"),
    Rule("Zeir Anpin", "Se'ir Anpin"), Rule("zeir anpin", "se'ir anpin")
  ]

  /** tz becomes z; kk becomes qq. */
  const TzToZ: seq<Rule> := [
    Rule("Tzimtzum", "Zimzum"), Rule("tzimtzum", "zimzum"),
    Rule("Atzilut", "Azilut"), Rule("atzilut", "azilut"),
    Rule("Tikkun", "Tiqqun"), Rule("tikkun", "tiqqun")
  ]

  /** Abbreviations lose their quotation mark. */
  const Abbreviations: seq<Rule> := [
    Rule("S\"A", "SA"), Rule("Z\"A", "SA"),
    Rule("A\"A", "AA"), Rule("A\"K", "AQ")
  ]

  /** `q_regeln`: sixty rules, in declaration order. */
  const QRegeln: seq<Rule> :=
    KabbalaRules + KawanaRules + KliRules + KeterRules + VToW + DoubleS
    + FinalHRules + ShekinaRules + ZeirToSeir + TzToZ + Abbreviations

  /** `transliteriere`: `text.replace(old, new)` for every rule, in table order. */
  function Transliterate(text: String): String
  {
    FoldReplace(QRegeln, text)
  }

  /** A text holding no pattern of the table passes it unchanged. */
  lemma TransliterateUntouched(text: String)
    requires forall k :: 0 <= k < |QRegeln| ==> !Contains(text, QRegeln[k].pattern)
    ensures Transliterate(text) == text
  {
    FoldReplaceUntouched(QRegeln, text);
  }

  /** The table runs family by family. */
  lemma TransliterateByFamilies(text: String)
    ensures Transliterate(text)
         == FoldReplace(Abbreviations, FoldReplace(TzToZ, FoldReplace(ZeirToSeir,
              FoldReplace(ShekinaRules, FoldReplace(FinalHRules, FoldReplace(DoubleS,
              FoldReplace(VToW, FoldReplace(KeterRules, FoldReplace(KliRules,
              FoldReplace(KawanaRules, FoldReplace(KabbalaRules, text)))))))))))
  {
    FoldReplaceSplit(KabbalaRules + KawanaRules + KliRules + KeterRules + VToW + DoubleS + FinalHRules + ShekinaRules + ZeirToSeir + TzToZ, Abbreviations, text);
    FoldReplaceSplit(KabbalaRules + KawanaRules + KliRules + KeterRules + VToW + DoubleS + FinalHRules + ShekinaRules + ZeirToSeir, TzToZ, text);
    FoldReplaceSplit(KabbalaRules + KawanaRules + KliRules + KeterRules + VToW + DoubleS + FinalHRules + ShekinaRules, ZeirToSeir, text);
    FoldReplaceSplit(KabbalaRules + KawanaRules + KliRules + KeterRules + VToW + DoubleS + FinalHRules, ShekinaRules, text);
    FoldReplaceSplit(KabbalaRules + KawanaRules + KliRules + KeterRules + VToW + DoubleS, FinalHRules, text);
    FoldReplaceSplit(KabbalaRules + KawanaRules + KliRules + KeterRules + VToW, DoubleS, text);
    FoldReplaceSplit(KabbalaRules + KawanaRules + KliRules + KeterRules, VToW, text);
    FoldReplaceSplit(KabbalaRules + KawanaRules + KliRules, KeterRules, text);
    FoldReplaceSplit(KabbalaRules + KawanaRules, KliRules, text);
    FoldReplaceSplit(KabbalaRules, KawanaRules, text);
  }

  // Each family leaves alone a text that lacks, for each of its patterns, one
  // letter of that pattern.

  /** Every K→Q pattern starts with K or k. */
  lemma KFamiliesFix(q: String)
    requires 'K' !in q && 'k' !in q
    ensures FoldReplace(KabbalaRules, q) == q && FoldReplace(KawanaRules, q) == q
    ensures FoldReplace(KliRules, q) == q && FoldReplace(KeterRules, q) == q
  {
    KabbalaRulesFix(q);
    KawanaRulesFix(q);
    KliRulesFix(q);
    KeterRulesFix(q);
  }

  lemma KabbalaRulesFix(q: String)
    requires 'K' !in q && 'k' !in q
    ensures FoldReplace(KabbalaRules, q) == q
  {
    FoldReplaceMissingChars(KabbalaRules, q, [0, 0, 0, 0]);
  }

  lemma KawanaRulesFix(q: String)
    requires 'K' !in q && 'k' !in q
    ensures FoldReplace(KawanaRules, q) == q
  {
    FoldReplaceMissingChars(KawanaRules, q, [0, 0, 0, 0]);
  }

  lemma KliRulesFix(q: String)
    requires 'K' !in q && 'k' !in q
    ensures FoldReplace(KliRules, q) == q
  {
    FoldReplaceMissingChars(KliRules, q, [0, 0, 0, 0, 0, 0, 0, 0]);
  }

  lemma KeterRulesFix(q: String)
    requires 'K' !in q && 'k' !in q
    ensures FoldReplace(KeterRules, q) == q
  {
    FoldReplaceMissingChars(KeterRules, q, [0, 0, 0, 0, 0, 0, 0, 0]);
  }

  /** Kabbala and Kawana both have an a in second place. */
  lemma KabbalaKawanaFixWithoutA(q: String)
    requires 'a' !in q
    ensures FoldReplace(KabbalaRules, q) == q && FoldReplace(KawanaRules, q) == q
  {
    FoldReplaceMissingChars(KabbalaRules, q, [1, 1, 1, 1]);
    FoldReplaceMissingChars(KawanaRules, q, [1, 1, 1, 1]);
  }

  lemma VToWFixes(q: String)
    requires 'v' !in q
    ensures FoldReplace(VToW, q) == q
  {
    FoldReplaceMissingChars(VToW, q, [2, 2, 2, 2]);
  }

  lemma DoubleSFixes(q: String)
    requires 's' !in q
    ensures FoldReplace(DoubleS, q) == q
  {
    FoldReplaceMissingChars(DoubleS, q, [3, 3, 2, 2, 2, 2]);
  }

  lemma FinalHFixes(q: String)
    requires 'h' !in q
    ensures FoldReplace(FinalHRules, q) == q
  {
    FoldReplaceMissingChars(FinalHRules, q, [4, 4, 4, 4, 1, 1]);
  }

  /** For a text that does hold an h. */
  lemma FinalHFixesWithH(q: String)
    requires 'o' !in q && 'i' !in q
    ensures FoldReplace(FinalHRules, q) == q
  {
    FoldReplaceMissingChars(FinalHRules, q, [1, 1, 1, 1, 2, 2]);
  }

  lemma ShekinaFixes(q: String)
    requires 'k' !in q
    ensures FoldReplace(ShekinaRules, q) == q
  {
    FoldReplaceMissingChars(ShekinaRules, q, [3, 3, 4, 4, 3, 3]);
  }

  lemma ZeirToSeirFixes(q: String)
    requires 'i' !in q
    ensures FoldReplace(ZeirToSeir, q) == q
  {
    FoldReplaceMissingChars(ZeirToSeir, q, [3, 3, 2, 2]);
  }

  /** For a text that does hold an i. */
  lemma ZeirToSeirFixesWithI(q: String)
    requires ' ' !in q
    ensures FoldReplace(ZeirToSeir, q) == q
  {
    FoldReplaceMissingChars(ZeirToSeir, q, [5, 5, 4, 4]);
  }

  lemma TzToZFixes(q: String)
    requires 'i' !in q
    ensures FoldReplace(TzToZ, q) == q
  {
    FoldReplaceMissingChars(TzToZ, q, [2, 2, 3, 3, 1, 1]);
  }

  /** For a text that does hold an i. */
  lemma TzToZFixesWithI(q: String)
    requires 'u' !in q
    ensures FoldReplace(TzToZ, q) == q
  {
    FoldReplaceMissingChars(TzToZ, q, [6, 6, 5, 5, 4, 4]);
  }

  lemma AbbreviationsFixes(q: String)
    requires '"' !in q
    ensures FoldReplace(Abbreviations, q) == q
  {
    FoldReplaceMissingChars(Abbreviations, q, [1, 1, 1, 1]);
  }

  /** A text without any of K, k, v, s, h, i and the double quote holds no pattern of
      the table and passes it unchanged. */
  lemma TransliterateLeavesPlainText(text: String)
    requires 'K' !in text && 'k' !in text && 'v' !in text && 's' !in text
    requires 'h' !in text && 'i' !in text && '"' !in text
    ensures Transliterate(text) == text
  {
    KFamiliesFix(text);
    VToWFixes(text);
    DoubleSFixes(text);
    FinalHFixes(text);
    ShekinaFixes(text);
    ZeirToSeirFixes(text);
    TzToZFixes(text);
    AbbreviationsFixes(text);
    TransliterateByFamilies(text);
  }

  // ---------------------------------------------------------------- rule order

  /** The `Kabbalah` and `kabbalah` rules never fire: the `Kabbala` and `kabbala`
      rules before them have already rewritten the head of every such word. */
  lemma KabbalahRulesDead(s: String)
    ensures FoldReplace(KabbalaRules, s) == FoldReplace(KabbalaRules[..2], s)
  {
    KabbalaRulesShape();
    PairShadows(KabbalaRules[0], KabbalaRules[1], KabbalaRules[2..], s);
  }

  lemma KabbalaRulesShape()
    ensures KabbalaRules == [KabbalaRules[0], KabbalaRules[1]] + KabbalaRules[2..]
    ensures KabbalaRules[..2] == [KabbalaRules[0], KabbalaRules[1]]
    ensures NoOverlap("Kabbala", "Qabbala") && NoOverlap("Kabbala", "qabbala")
    ensures NoOverlap("kabbala", "qabbala")
    ensures StartsWith("Kabbalah", "Kabbala") && StartsWith("kabbalah", "kabbala")
  {
    assert "Kabbalah"[..7] == "Kabbala";
    assert "kabbalah"[..7] == "kabbala";
  }

  /** After the `Kli` and `kli` rules no `Kli` or `kli` is left, so the six `Klipa`,
      `Klipot` and `Klippot` rules after them never fire. */
  lemma KlipaRulesDead(s: String)
    ensures FoldReplace(KliRules, s) == FoldReplace(KliRules[..2], s)
  {
    KliRulesShape();
    PairShadows(KliRules[0], KliRules[1], KliRules[2..], s);
  }

  lemma KliRulesShape()
    ensures KliRules == [KliRules[0], KliRules[1]] + KliRules[2..]
    ensures KliRules[..2] == [KliRules[0], KliRules[1]]
    ensures NoOverlap("Kli", "Qli") && NoOverlap("Kli", "qli") && NoOverlap("kli", "qli")
    ensures forall k :: 2 <= k < |KliRules| ==>
      StartsWith(KliRules[k].pattern, "Kli") || StartsWith(KliRules[k].pattern, "kli")
  {
    assert "Klipa"[..3] == "Kli" && "klipa"[..3] == "kli";
    assert "Klipot"[..3] == "Kli" && "klipot"[..3] == "kli";
    assert "Klippot"[..3] == "Kli" && "klippot"[..3] == "kli";
  }

  // The words below fall to a shorter rule before their own rule is reached.

  /** A word that starts with "Kabbala" has only that head rewritten: "Kabbalah"
      becomes "Qabbalah", though the table has a rule `Kabbalah → Qabbala`. */
  lemma KabbalaHead(rest: String)
    requires 'K' !in rest && 'k' !in rest && 'v' !in rest && 's' !in rest
    requires 'o' !in rest && 'i' !in rest && '"' !in rest
    ensures Transliterate("Kabbala" + rest) == "Qabbala" + rest
  {
    var t, q := "Kabbala" + rest, "Qabbala" + rest;
    ReplaceAtHeadMissingChar("Kabbala", rest, "Qabbala", 0);
    QabbalaLacks(rest);
    KabbalaFires(t, q);
    LaterFamiliesFix(q);
    VToWFixes(q);
    TransliterateByFamilies(t);
  }

  lemma QabbalaLacks(rest: String)
    requires 'K' !in rest && 'k' !in rest && 'v' !in rest && 's' !in rest
    requires 'o' !in rest && 'i' !in rest && '"' !in rest
    ensures var q := "Qabbala" + rest;
      'K' !in q && 'k' !in q && 'v' !in q && 's' !in q
      && 'o' !in q && 'i' !in q && '"' !in q
  {
  }

  /** In the Kabbala family only the first rule fires on such a word. */
  lemma KabbalaFires(t: String, q: String)
    requires Replace(t, "Kabbala", "Qabbala") == q
    requires 'K' !in q && 'k' !in q
    ensures FoldReplace(KabbalaRules, t) == q
  {
    FoldReplaceMissingChars(KabbalaRules[1..], q, [0, 0, 0]);
    assert KabbalaRules[..0] == [];
    FoldReplaceOneFires(KabbalaRules, 0, t, q);
  }

  /** The families after the first, bar the v→w family, leave alone a word without
      K, k, s, o, i and the double quote; o and i stand in for the h that such a
      word may hold. */
  lemma LaterFamiliesFix(q: String)
    requires 'K' !in q && 'k' !in q && 's' !in q
    requires 'o' !in q && 'i' !in q && '"' !in q
    ensures FoldReplace(KawanaRules, q) == q && FoldReplace(KliRules, q) == q
    ensures FoldReplace(KeterRules, q) == q && FoldReplace(DoubleS, q) == q
    ensures FoldReplace(FinalHRules, q) == q && FoldReplace(ShekinaRules, q) == q
    ensures FoldReplace(ZeirToSeir, q) == q && FoldReplace(TzToZ, q) == q
    ensures FoldReplace(Abbreviations, q) == q
  {
    KFamiliesFix(q);
    DoubleSFixes(q);
    FinalHFixesWithH(q);
    ShekinaFixes(q);
    ZeirToSeirFixes(q);
    TzToZFixes(q);
    AbbreviationsFixes(q);
  }

  lemma KabbalahKeepsH()
    ensures Transliterate("Kabbala" + "h") == "Qabbala" + "h"
  {
    KabbalaHead("h");
  }

  /** Likewise "Gevurah" becomes "Gewurah", though the table has a rule
      `Gevurah → Gewura`. */
  lemma GevuraHead(rest: String)
    requires 'K' !in rest && 'k' !in rest && 'v' !in rest && 's' !in rest
    requires 'o' !in rest && 'i' !in rest && '"' !in rest
    ensures Transliterate("Gevura" + rest) == "Gewura" + rest
  {
    var t, q := "Gevura" + rest, "Gewura" + rest;
    ReplaceAtHeadMissingChar("Gevura", rest, "Gewura", 2);
    GewuraLacks(rest);
    KFamiliesFix(t);
    GevuraFires(t, q);
    LaterFamiliesFix(q);
    TransliterateByFamilies(t);
  }

  lemma GewuraLacks(rest: String)
    requires 'K' !in rest && 'k' !in rest && 'v' !in rest && 's' !in rest
    requires 'o' !in rest && 'i' !in rest && '"' !in rest
    ensures 'K' !in "Gevura" + rest && 'k' !in "Gevura" + rest
    ensures var q := "Gewura" + rest;
      'K' !in q && 'k' !in q && 'v' !in q && 's' !in q
      && 'o' !in q && 'i' !in q && '"' !in q
  {
  }

  /** In the v→w family only the first rule fires on such a word. */
  lemma GevuraFires(t: String, q: String)
    requires Replace(t, "Gevura", "Gewura") == q
    requires 'v' !in q
    ensures FoldReplace(VToW, t) == q
  {
    FoldReplaceMissingChars(VToW[1..], q, [2, 2, 2]);
    assert VToW[..0] == [];
    FoldReplaceOneFires(VToW, 0, t, q);
  }

  lemma GevurahKeepsH()
    ensures Transliterate("Gevura" + "h") == "Gewura" + "h"
  {
    GevuraHead("h");
  }

  /** "Klippot" becomes "Qlippot" through the `Kli` rule, though the table has a rule
      `Klippot → Qlipot`: the `Kli` rule rewrites the head of every such word. */
  lemma KliHead(rest: String)
    requires 'K' !in rest && 'k' !in rest && 'a' !in rest && 'v' !in rest
    requires 's' !in rest && 'h' !in rest && 'u' !in rest
    requires ' ' !in rest && '"' !in rest
    ensures Transliterate("Kli" + rest) == "Qli" + rest
  {
    var t, q := "Kli" + rest, "Qli" + rest;
    ReplaceAtHeadMissingChar("Kli", rest, "Qli", 0);
    QliLacks(rest);
    KabbalaKawanaFixWithoutA(t);
    KliFires(t, q);
    QliPassesLaterFamilies(q);
    TransliterateByFamilies(t);
  }

  lemma QliLacks(rest: String)
    requires 'K' !in rest && 'k' !in rest && 'a' !in rest && 'v' !in rest
    requires 's' !in rest && 'h' !in rest && 'u' !in rest
    requires ' ' !in rest && '"' !in rest
    ensures 'a' !in "Kli" + rest
    ensures var q := "Qli" + rest;
      'K' !in q && 'k' !in q && 'v' !in q && 's' !in q && 'h' !in q
      && 'u' !in q && ' ' !in q && '"' !in q
  {
  }

  /** In the Kli family only the first rule fires on such a word. */
  lemma KliFires(t: String, q: String)
    requires Replace(t, "Kli", "Qli") == q
    requires 'K' !in q && 'k' !in q
    ensures FoldReplace(KliRules, t) == q
  {
    FoldReplaceMissingChars(KliRules[1..], q, [0, 0, 0, 0, 0, 0, 0]);
    assert KliRules[..0] == [];
    FoldReplaceOneFires(KliRules, 0, t, q);
  }

  lemma QliPassesLaterFamilies(q: String)
    requires 'K' !in q && 'k' !in q && 'v' !in q && 's' !in q && 'h' !in q
    requires 'u' !in q && ' ' !in q && '"' !in q
    ensures FoldReplace(KeterRules, q) == q && FoldReplace(VToW, q) == q
    ensures FoldReplace(DoubleS, q) == q && FoldReplace(FinalHRules, q) == q
    ensures FoldReplace(ShekinaRules, q) == q && FoldReplace(ZeirToSeir, q) == q
    ensures FoldReplace(TzToZ, q) == q && FoldReplace(Abbreviations, q) == q
  {
    KFamiliesFix(q);
    VToWFixes(q);
    DoubleSFixes(q);
    FinalHFixes(q);
    ShekinaFixes(q);
    ZeirToSeirFixesWithI(q);
    TzToZFixesWithI(q);
    AbbreviationsFixes(q);
  }

  lemma KlippotKeepsPp()
    ensures Transliterate("Kli" + "ppot") == "Qli" + "ppot"
  {
    KliHead("ppot");
  }
}
