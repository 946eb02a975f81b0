/**
 * The full check of the Q-system's German orthography: transliteration, zer-
 * elimination, the style check, and a closing "Q!" the corrected text always ends
 * with.
 */
module Pruefung {
  import opened Text
  import opened Substrings
  import opened Decimal
  import opened Schreibweise
  import opened Orthografie

  /** The result dictionary of `vollstaendige_pruefung`. */
  datatype Ergebnis = Ergebnis(
    original: String,
    korrekturen: seq<String>,
    warnungen: seq<String>,
    empfehlungen: seq<String>,
    korrigiert: String)

  const Schluss: String := "Q!"

  /** A text whose last two characters are "Q!" keeps them through `strip()`. */
  lemma StripKeepsSchluss(s: String)
    requires EndsWith(s, Schluss)
    ensures EndsWith(Strip(s), Schluss)
  {
    assert s[|s| - 1] == '!' && s[|s| - 2] == 'Q';
    assert TrailingSpaces(s) == 0;
    assert RStrip(s) == s;
    var n := LeadingSpaces(s);
    assert s[n..][|s| - n - 2..] == s[|s| - 2..];
  }

  /** Step 5: unless the stripped text already ends with "Q!", the text loses its
      trailing whitespace and gets "\n\nQ!" appended. */
  function SchlussSichern(text: String): (r: (String, bool))
    ensures EndsWith(Strip(r.0), Schluss)
    ensures r.1 <==> !EndsWith(Strip(text), Schluss)
    ensures !r.1 ==> r.0 == text
    ensures r.1 ==> StartsWith(r.0, RStrip(text))
    ensures r.1 ==> r.0 == RStrip(text) + "\n\nQ!" && |r.0| == |RStrip(text)| + 4
  {
    if EndsWith(Strip(text), Schluss) then (text, false)
    else
      var r := RStrip(text) + "\n\nQ!";
      assert r[..|RStrip(text)|] == RStrip(text);
      StripKeepsSchluss(r);
      (r, true)
  }

  /** Securing the ending twice is securing it once. */
  lemma SchlussSichernIdempotent(text: String)
    ensures SchlussSichern(SchlussSichern(text).0) == (SchlussSichern(text).0, false)
  {
  }

  /** The characters of a text, as Python's `set(text)`. */
  function Zeichen(text: String): set<char> {
    set c | c in text
  }

  /** Steps 2 to 5 of `vollstaendige_pruefung`, once the transliterated text
      `korrigiert` and the zer- elimination `zer` of it are known: the report of
      the transliteration, the style warnings, and the secured ending. */
  function Abschluss(text: String, korrigiert: String, zer: (String, seq<String>)): (e: Ergebnis)
    ensures e.original == text
    ensures EndsWith(Strip(e.korrigiert), Schluss)
    ensures |e.empfehlungen| <= 1
    ensures e.warnungen == PruefeStil(zer.0)
    ensures |e.korrekturen| == (if korrigiert != text then 1 else 0) + |zer.1|
    ensures e.empfehlungen == [] <==> EndsWith(Strip(zer.0), Schluss)
    ensures e.empfehlungen == [] ==> e.korrigiert == zer.0
    ensures e.empfehlungen != [] ==>
              e.empfehlungen == ["Q! am Ende hinzugefügt"] && e.korrigiert == RStrip(zer.0) + "\n\nQ!"
    ensures e.korrekturen[|e.korrekturen| - |zer.1|..] == zer.1
    ensures korrigiert != text ==>
              e.korrekturen[0] == "Transliteration: " + IntToString(|Zeichen(text) - Zeichen(korrigiert)|) + " Zeichen geändert"
  {
    var transliteration :=
      if korrigiert != text
      then ["Transliteration: " + IntToString(|Zeichen(text) - Zeichen(korrigiert)|) + " Zeichen geändert"]
      else [];
    var schluss := SchlussSichern(zer.0);
    Ergebnis(text, transliteration + zer.1, PruefeStil(zer.0),
      if schluss.1 then ["Q! am Ende hinzugefügt"] else [], schluss.0)
  }

  /** `vollstaendige_pruefung`: transliterate, eliminate zer-, check the style of
      the result, and secure the closing "Q!". */
  function VollstaendigePruefung(text: String): (e: Ergebnis)
    ensures e.original == text
    ensures EndsWith(Strip(e.korrigiert), Schluss)
    ensures |e.empfehlungen| <= 1
    ensures e.warnungen == PruefeStil(EliminiereZer(Transliterate(text)).0)
  {
    var korrigiert := Transliterate(text);
    Abschluss(text, korrigiert, EliminiereZer(korrigiert))
  }

  /** The assembly of a text nothing corrected and that already ends with "Q!"
      changes nothing and recommends nothing. */
  lemma AbschlussOfFinishedText(text: String)
    requires EndsWith(Strip(text), Schluss)
    ensures Abschluss(text, text, (text, [])) == Ergebnis(text, [], PruefeStil(text), [], text)
  {
  }

  /** A text the table and the zer- rules leave alone and that already ends with "Q!"
      comes back as it is, with nothing corrected and nothing recommended; only the
      style warnings remain. */
  lemma PruefungKeepsFinishedText(text: String)
    requires Transliterate(text) == text
    requires EliminiereZer(text) == (text, [])
    requires EndsWith(Strip(text), Schluss)
    ensures VollstaendigePruefung(text) == Ergebnis(text, [], PruefeStil(text), [], text)
  {
    PruefungOfUntouched(text);
    AbschlussOfFinishedText(text);
  }

  /** When neither the table nor the zer- rules change the text, the full check is
      the assembly alone. */
  lemma PruefungOfUntouched(text: String)
    requires Transliterate(text) == text
    requires EliminiereZer(text) == (text, [])
    ensures VollstaendigePruefung(text) == Abschluss(text, text, (text, []))
  {
  }

  /** A finished text without any letter a rule of the table, a zer- pattern or an
      expression of the style check starts from comes back as it is, with no
      correction, warning or recommendation. */
  lemma PruefungOfPlainFinishedText(text: String)
    requires 'K' !in text && 'k' !in text && 'v' !in text && 's' !in text
    requires 'h' !in text && 'i' !in text && '"' !in text && 'e' !in text && ' ' !in text
    requires EndsWith(Strip(text), Schluss)
    ensures VollstaendigePruefung(text) == Ergebnis(text, [], [], [], text)
  {
    TransliterateLeavesPlainText(text);
    ZerQuietWithoutE(text);
    PruefungKeepsFinishedText(text);
    StilQuietWithoutSpace(text);
  }

  lemma SchlussFacts()
    ensures 'K' !in Schluss && 'k' !in Schluss && 'v' !in Schluss && 's' !in Schluss
    ensures 'h' !in Schluss && 'i' !in Schluss && '"' !in Schluss && 'e' !in Schluss
    ensures ' ' !in Schluss && EndsWith(Strip(Schluss), Schluss)
  {
  }

  /** The text "Q!" alone passes the full check unchanged and without warnings. */
  lemma PruefungOfSchlussAlone()
    ensures VollstaendigePruefung(Schluss) == Ergebnis(Schluss, [], [], [], Schluss)
  {
    SchlussFacts();
    PruefungOfPlainFinishedText(Schluss);
  }
}
