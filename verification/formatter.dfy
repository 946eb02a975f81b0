/**
 * The logic of the YAML formatter: the 49-day Omer study schedule, the Omer study
 * path with its focus, the merge of returned translations, the WWAQ check of a
 * translation and the slicing of chunks into translation batches. Producing the YAML
 * text itself is not modelled; the clock value is a parameter.
 */
module Formatter {
  import opened Results
  import opened Text
  import opened Substrings
  import opened Seqs
  import opened Decimal
  import opened Batching
  import opened Hns10
  import opened Manuscript

  // ---------------------------------------------------------------- study schedule

  /** Chunk ids `CHUNK_{start:04d}` .. for `count` consecutive numbers; nothing for a
      count of zero or less, as `range(count)` gives. */
  function IdRun(start: int, count: int): (r: seq<String>)
    requires count <= 0 || start >= 0
    ensures |r| == if count <= 0 then 0 else count
    ensures forall i :: 0 <= i < |r| ==> r[i] == ChunkId(start + i)
  {
    if count <= 0 then [] else seq(count, i requires 0 <= i < count => ChunkId(start + i))
  }

  lemma IdRunAppend(start: nat, a: nat, b: nat)
    ensures IdRun(start, a) + IdRun(start + a, b) == IdRun(start, a + b)
  {
    var l, r, all := IdRun(start, a), IdRun(start + a, b), IdRun(start, a + b);
    forall i | 0 <= i < a + b ensures (l + r)[i] == all[i] {
      if i >= a {
        assert (l + r)[i] == r[i - a];
      }
    }
  }

  /** How many chunks day `day` (1..49) of the schedule for `n` chunks receives: the
      first `n % 49` days one more than the rest. */
  function DaySize(n: int, day: int): nat {
    if n <= 0 then 0 else n / 49 + (if day <= n % 49 then 1 else 0)
  }

  /** Chunks handed out over the first `days` days. */
  function Placed(n: int, days: nat): nat {
    if days == 0 then 0 else Placed(n, days - 1) + DaySize(n, days)
  }

  /** Over all 49 days, every chunk is handed out: `49 * (n // 49) + n % 49 == n`. */
  lemma {:induction false} PlacedCount(n: int, days: nat)
    requires days <= 49
    ensures n > 0 ==> Placed(n, days) == days * (n / 49) + Min(days, n % 49)
    ensures n <= 0 ==> Placed(n, days) == 0
  {
    if days > 0 {
      PlacedCount(n, days - 1);
      if n > 0 {
        assert (days - 1) * (n / 49) + n / 49 == days * (n / 49);
      }
    }
  }

  /** `create_study_schedule`: day `d` (entry `d - 1`) lists the next `DaySize(n, d)` chunk
      ids. The source's default for `n` is 1342. */
  method CreateStudySchedule(total: int) returns (schedule: seq<seq<String>>)
    ensures |schedule| == 49
    ensures forall d :: 1 <= d <= 49 ==> |schedule[d - 1]| == DaySize(total, d)
    ensures Concat(schedule) == IdRun(1, total)
  {
    var perDay := total / 49;
    var remainder := total % 49;
    schedule := [];
    var chunkIndex: int := 1;
    var day := 1;
    while day < 50
      invariant 1 <= day <= 50
      invariant |schedule| == day - 1
      invariant forall d :: 1 <= d < day ==> |schedule[d - 1]| == DaySize(total, d)
      invariant total > 0 ==> chunkIndex == 1 + Placed(total, day - 1)
      invariant total > 0 ==> Concat(schedule) == IdRun(1, chunkIndex - 1)
      invariant total <= 0 ==> Concat(schedule) == []
    {
      var dayChunks := perDay;
      if day <= remainder {
        dayChunks := dayChunks + 1;
      }
      assert dayChunks == DaySize(total, day) || (total <= 0 && dayChunks <= 0);
      var ids := IdRun(chunkIndex, dayChunks);
      if total > 0 {
        ScheduleStep(schedule, chunkIndex, dayChunks);
      } else {
        ConcatAppend(schedule, [ids]);
        ConcatSingle(ids);
      }
      schedule := schedule + [ids];
      chunkIndex := chunkIndex + dayChunks;
      day := day + 1;
    }
    if total > 0 {
      PlacedCount(total, 49);
    } else {
      assert IdRun(1, total) == [];
    }
  }

  /** Appending the run of a day to a schedule that holds the ids before `start`
      keeps the schedule one run of ids from 1. */
  lemma ScheduleStep(schedule: seq<seq<String>>, start: nat, count: nat)
    requires start >= 1 && Concat(schedule) == IdRun(1, start - 1)
    ensures Concat(schedule + [IdRun(start, count)]) == IdRun(1, start - 1 + count)
  {
    ConcatAppend(schedule, [IdRun(start, count)]);
    ConcatSingle(IdRun(start, count));
    IdRunAppend(1, start - 1, count);
  }

  /** The schedule is balanced: day sizes never grow from one day to the next, differ by
      at most one, and add up to all the chunks. */
  lemma DaySizesBalanced(n: nat, d: nat, e: nat)
    requires 1 <= d <= e <= 49
    ensures DaySize(n, e) <= DaySize(n, d) <= DaySize(n, e) + 1
    ensures Placed(n, 49) == n
  {
    PlacedCount(n, 49);
  }

  /** 1342 chunks: 28 a day for days 1 to 19, 27 a day for days 20 to 49. */
  lemma Schedule1342(d: nat)
    requires 1 <= d <= 49
    ensures d <= 19 ==> DaySize(1342, d) == 28
    ensures d >= 20 ==> DaySize(1342, d) == 27
  {
    assert 1342 == 27 * 49 + 19;
  }

  /** No chunk id is scheduled twice. */
  lemma ScheduleIdsDistinct(n: int, i: nat, j: nat)
    requires i < j < |IdRun(1, n)|
    ensures IdRun(1, n)[i] != IdRun(1, n)[j]
  {
    ChunkIdInjective(1 + i, 1 + j);
  }

  // ---------------------------------------------------------------- Omer study path

  /** `self.sefirot`, keyed 1 to 7. */
  function Sefira(k: int): String
    requires 1 <= k <= 7
  {
    Sefirot[k - 1]
  }

  /** The themes written out for the first week. */
  const WeekOneThemes: seq<String> := [
    "Reine Güte - Die Essenz des Gebens",
    "Stärke in der Güte - Grenzen der Liebe",
    "Harmonie in der Güte - Ausgewogenes Geben",
    "Beständigkeit in der Güte - Ewige Liebe",
    "Demut in der Güte - Empfangen um zu Geben",
    "Verbindung durch Güte - Einheit schaffen",
    "Manifestation der Güte - Liebe in der Welt"
  ]

  datatype StudyFocus = StudyFocus(theme: String, meditation: String, practicalWork: String)

  /** `_generate_study_focus`: a written theme for the days of week 1, otherwise
      "<day-sefira> in <week-sefira>"; the meditation and the practical work name both. */
  function GenerateStudyFocus(week: int, day: int): (f: StudyFocus)
    requires 1 <= week <= 7 && 1 <= day <= 7
    ensures week == 1 ==> f.theme == WeekOneThemes[day - 1]
    ensures week != 1 ==> f.theme == Sefira(day) + " in " + Sefira(week)
    ensures f.meditation == "Meditation über " + Sefira(day) + " als Ausdruck von " + Sefira(week)
    ensures f.practicalWork == "Praktiziere " + Sefira(day) + " im Kontext von " + Sefira(week)
  {
    var fallback := Sefira(day) + " in " + Sefira(week);
    StudyFocus(
      if week == 1 then WeekOneThemes[day - 1] else fallback,
      "Meditation über " + Sefira(day) + " als Ausdruck von " + Sefira(week),
      "Praktiziere " + Sefira(day) + " im Kontext von " + Sefira(week))
  }

  datatype SefirotCombination = SefirotCombination(week: String, day: String, full: String)

  datatype OmerStudy = OmerStudy(
    omerDay: nat, date: String, combination: SefirotCombination, focus: StudyFocus,
    assignedChunks: seq<String>, reflections: seq<String>)

  /** `format_omer_study_path`, before the YAML dump: days outside 1..49 are refused. */
  function FormatOmerStudyPath(day: int, assignedChunks: seq<String>): (r: Result<OmerStudy, OmerError>)
    ensures r.Failure? <==> !(1 <= day <= 49)
    ensures r.Success? ==> r.value.omerDay == day && r.value.assignedChunks == assignedChunks
    ensures r.Success? ==> r.value.date == "Tag " + IntToString(day) + " des Omer"
  {
    if !(1 <= day <= 49) then Failure(DayOutOfRange(day))
    else
      var week := (day - 1) / 7 + 1;
      var weekday := (day - 1) % 7 + 1;
      var combination := SefirotCombination(Sefira(week), Sefira(weekday), Sefira(weekday) + " שב" + Sefira(week));
      Success(OmerStudy(day, "Tag " + IntToString(day) + " des Omer", combination,
                        GenerateStudyFocus(week, weekday), assignedChunks, []))
  }

  /** The formatter and the spiral system compute the same Sefirot pair for every Omer
      day; the focus follows that pair. */
  lemma OmerStudyAgreesWithSpiral(day: int, assignedChunks: seq<String>)
    requires 1 <= day <= 49
    ensures var study := FormatOmerStudyPath(day, assignedChunks).value;
      var path := GenerateOmerPath(day).value;
      && study.combination == SefirotCombination(path.sefiraWeek, path.sefiraDay, path.combination)
      && study.focus == GenerateStudyFocus(path.week, path.weekday)
  {
    var path := GenerateOmerPath(day).value;
    assert path.week == (day - 1) / 7 + 1 && path.weekday == (day - 1) % 7 + 1 by {
      assert OmerSplit(day) == Success((path.week, path.weekday));
    }
  }

  /** Week 1 uses its written themes; from week 2 on, the theme is the pair itself. */
  lemma StudyFocusOfDay(day: int)
    requires 1 <= day <= 49
    ensures var path := GenerateOmerPath(day).value;
      var focus := FormatOmerStudyPath(day, []).value.focus;
      && (day <= 7 <==> path.week == 1)
      && (day <= 7 ==> focus.theme == WeekOneThemes[day - 1])
      && (day > 7 ==> focus.theme == path.sefiraDay + " in " + path.sefiraWeek)
  {
    var path := GenerateOmerPath(day).value;
    OmerStudyAgreesWithSpiral(day, []);
    assert path.week == (day - 1) / 7 + 1 && path.weekday == (day - 1) % 7 + 1 by {
      assert OmerSplit(day) == Success((path.week, path.weekday));
    }
  }

  // ---------------------------------------------------------------- WWAQ check

  const FormatterForbidden: seq<String> := ["kabbala", "kawana", "zerstör", "zerbrech"]

  const FormatterRequired: seq<String> := ["qabbala", "qawana"]

  /** The first of `terms` that occurs (lower-cased) in `low`. */
  function FirstOccurring(low: String, terms: seq<String>): (r: Option<String>)
    ensures r.None? <==> forall k :: 0 <= k < |terms| ==> !Contains(low, Lower(terms[k]))
    ensures r.Some? ==> exists k :: 0 <= k < |terms| && r.value == terms[k] && Contains(low, Lower(terms[k]))
    decreases |terms|
  {
    if |terms| == 0 then None
    else if Contains(low, Lower(terms[0])) then Some(terms[0])
    else
      var r := FirstOccurring(low, terms[1..]);
      assert forall k :: 1 <= k < |terms| ==> terms[k] == terms[1..][k - 1];
      r
  }

  /** `_validate_wwaq` on the text of the data: false when a forbidden spelling occurs,
      in any case; the search for the required spellings that follows returns true
      whether or not it finds one. */
  function ValidateWwaq(text: String): (ok: bool)
    ensures ok <==> forall k :: 0 <= k < |FormatterForbidden| ==> !Contains(Lower(text), FormatterForbidden[k])
  {
    var low := Lower(text);
    assert forall k :: 0 <= k < |FormatterForbidden| ==> Lower(FormatterForbidden[k]) == FormatterForbidden[k];
    if FirstOccurring(low, FormatterForbidden).Some? then false
    else if FirstOccurring(low, FormatterRequired).Some? then true
    else true
  }

  /** Whatever passes here also passes the manuscript validator's spelling check and
      raises neither spelling violation of the spiral system's text check. */
  lemma FormatterCheckStricter(text: String)
    requires ValidateWwaq(text)
    ensures WwaqConform(text)
    ensures !ValidateWwaqText(text).violations.kabbalaStattQabbala
    ensures !ValidateWwaqText(text).violations.kawanaStattQawana
  {
    assert FormatterForbidden[0] == "kabbala" && FormatterForbidden[1] == "kawana";
    assert FormatterForbidden[2] == "zerstör";
  }

  /** The converse fails: "zerbrechen" passes the manuscript validator but not this check. */
  lemma ZerbrechOnlyHere()
    ensures WwaqConform("zerbrechen") && !ValidateWwaq("zerbrechen")
  {
    var low := Lower("zerbrechen");
    assert low == "zerbrechen";
    MissingCharNotContained(low, "kabbala", 0);
    MissingCharNotContained(low, "kawana", 0);
    MissingCharNotContained(low, "zerstör", 3);
    assert OccursAt(low, "zerbrech", 0);
    assert FormatterForbidden[3] == "zerbrech";
  }

  // ---------------------------------------------------------------- merging translations

  datatype TranslationMeta = TranslationMeta(translated: bool, date: String, validated: bool)

  /** A chunk record as the formatter sees it: the chunk, and the translation fields a
      merge adds. */
  datatype StudyChunk = StudyChunk(chunk: Chunk, translation: Option<String>, meta: Option<TranslationMeta>)

  function MergeOne(c: StudyChunk, translations: map<String, String>, date: String): StudyChunk {
    if c.chunk.id in translations then
      var t := translations[c.chunk.id];
      StudyChunk(c.chunk, Some(t), Some(TranslationMeta(true, date, ValidateWwaq(t))))
    else c
  }

  /** `merge_translations`: chunk for chunk, in order, a chunk whose id has a
      translation gains it with its metadata; every other chunk is passed on as it was.
      The date is the formatter's clock value. */
  function MergeTranslations(chunks: seq<StudyChunk>, translations: map<String, String>, date: String)
    : (r: seq<StudyChunk>)
    ensures |r| == |chunks|
    ensures forall k :: 0 <= k < |r| ==> r[k].chunk == chunks[k].chunk
    ensures forall k :: 0 <= k < |r| && chunks[k].chunk.id !in translations ==> r[k] == chunks[k]
    ensures forall k :: 0 <= k < |r| && chunks[k].chunk.id in translations ==>
      r[k].translation == Some(translations[chunks[k].chunk.id])
      && r[k].meta == Some(TranslationMeta(true, date, ValidateWwaq(translations[chunks[k].chunk.id])))
  {
    seq(|chunks|, k requires 0 <= k < |chunks| => MergeOne(chunks[k], translations, date))
  }

  /** Merging the same translations again changes nothing. */
  lemma MergeIdempotent(chunks: seq<StudyChunk>, translations: map<String, String>, date: String)
    ensures MergeTranslations(MergeTranslations(chunks, translations, date), translations, date)
      == MergeTranslations(chunks, translations, date)
  {
  }

  /** With no translations, the chunks come back unchanged. */
  lemma MergeNothing(chunks: seq<StudyChunk>, date: String)
    ensures MergeTranslations(chunks, map[], date) == chunks
  {
  }

  // ---------------------------------------------------------------- translation batches

  const BatchInstruction: String := "Übersetze mit WWAQ-Konformität"

  datatype ClaudeBatch<T> = ClaudeBatch(batchId: String, chunks: seq<T>, instruction: String)

  /** The slices of `format_for_claude_batch`, before each is rendered as YAML: batch
      `i // size + 1` holds `chunks[i:i + size]` for `i` in `range(0, len(chunks), size)`.
      A size of zero fails; a negative size gives no batch. */
  function FormatForClaudeBatch<T>(chunks: seq<T>, batchSize: int): (r: Result<seq<ClaudeBatch<T>>, BatchError>)
    ensures r.Failure? <==> batchSize == 0
    ensures batchSize < 0 ==> r == Success([])
    ensures batchSize > 0 ==> r.Success? && |r.value| == |Slices(chunks, batchSize)|
  {
    if batchSize == 0 then Failure(ZeroBatchSize)
    else if batchSize < 0 then Success([])
    else Success(Numbered(Slices(chunks, batchSize), 1, (g, n) => ClaudeBatch(BatchId(n), g, BatchInstruction)))
  }

  function BatchChunks<T>(batches: seq<ClaudeBatch<T>>): (r: seq<seq<T>>)
    ensures |r| == |batches|
    ensures forall k :: 0 <= k < |r| ==> r[k] == batches[k].chunks
  {
    if |batches| == 0 then [] else [batches[0].chunks] + BatchChunks(batches[1..])
  }

  /** Batch `k` is `BATCH_{k+1:03d}` with between one and `size` consecutive chunks; put
      back together the batches are the chunk list, in as few batches as the size allows. */
  lemma ClaudeBatchesCover<T>(chunks: seq<T>, batchSize: int)
    requires batchSize > 0
    ensures var batches := FormatForClaudeBatch(chunks, batchSize).value;
      && Concat(BatchChunks(batches)) == chunks
      && |chunks| <= |batches| * batchSize && (|chunks| == 0 || (|batches| - 1) * batchSize < |chunks|)
      && forall k :: 0 <= k < |batches| ==>
        batches[k].batchId == BatchId(k + 1) && batches[k].instruction == BatchInstruction
        && 0 < |batches[k].chunks| <= batchSize
  {
    var batches := FormatForClaudeBatch(chunks, batchSize).value;
    assert BatchChunks(batches) == Slices(chunks, batchSize);
    SlicesConcat(chunks, batchSize);
    SlicesCount(chunks, batchSize);
  }

  /** The formatter slices chunks into the same numbered groups as the manuscript
      processor's translation batches. */
  lemma ClaudeBatchesMatchTranslationBatches(chunks: seq<Chunk>, batchSize: int, instruction: String, k: nat)
    requires batchSize > 0 && k < |FormatForClaudeBatch(chunks, batchSize).value|
    ensures var mine := FormatForClaudeBatch(chunks, batchSize).value;
      var theirs := CreateTranslationBatch(chunks, batchSize, instruction).value;
      && |mine| == |theirs|
      && mine[k].batchId == theirs[k].batchId
      && Ids(mine[k].chunks) == theirs[k].chunkIds
  {
  }
}
