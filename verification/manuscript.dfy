/**
 * The manuscript pipeline: chunks with their metadata, the analysis of a whole text,
 * translation batches and the check of a returned translation. The clock value a
 * chunk is stamped with, the file name and the instruction text are parameters.
 */
module Manuscript {
  import opened Results
  import opened Text
  import opened Substrings
  import opened Seqs
  import opened Decimal
  import opened Gematria
  import opened Wwaq
  import opened Chunking
  import opened Batching

  // ---------------------------------------------------------------- key terms

  /** A glossary entry: a Hebrew term and its German rendering. */
  datatype Gloss = Gloss(hebrew: Pattern, german: String)

  /** `ez_chajim_terms`, in its iteration order. */
  const EzChajimTerms: seq<Gloss> := [
    Gloss("עץ חיים", "Baum des Lebens"),
    Gloss("ספירות", "Sefirot"),
    Gloss("פרצופים", "Parzufim"),
    Gloss("עולמות", "Welten"),
    Gloss("אצילות", "Azilut"),
    Gloss("בריאה", "Briah"),
    Gloss("יצירה", "Jezirah"),
    Gloss("עשיה", "Asijah")
  ]

  /** A key term found in a chunk. */
  datatype KeyTerm = KeyTerm(hebrew: String, translation: String, count: nat, gematria: nat)

  function GlossOf(t: KeyTerm): Gloss
    requires |t.hebrew| > 0
  {
    Gloss(t.hebrew, t.translation)
  }

  /** The glossary entries occurring in `text`, in glossary order, each with its number
      of occurrences and its standard gematria. */
  function KeyTermsOf(glossary: seq<Gloss>, text: String): (r: seq<KeyTerm>)
    ensures forall k :: 0 <= k < |r| ==>
              |r[k].hebrew| > 0 && Contains(text, r[k].hebrew) && r[k].count > 0
              && r[k].gematria == Standard(r[k].hebrew)
    decreases |glossary|
  {
    if |glossary| == 0 then []
    else
      var g := glossary[0];
      var rest := KeyTermsOf(glossary[1..], text);
      if Contains(text, g.hebrew) then
        CountPositiveIffContains(text, g.hebrew);
        [KeyTerm(g.hebrew, g.german, Count(text, g.hebrew), Standard(g.hebrew))] + rest
      else rest
  }

  /** The glossary entries a list of key terms stands for. */
  function Glosses(terms: seq<KeyTerm>): (r: seq<Gloss>)
    requires forall k :: 0 <= k < |terms| ==> |terms[k].hebrew| > 0
    ensures |r| == |terms|
  {
    if |terms| == 0 then [] else [GlossOf(terms[0])] + Glosses(terms[1..])
  }

  /** Key terms come in glossary order, each with the glossary's own rendering, and
      every glossary term occurring in the text is among them. */
  lemma {:induction false} KeyTermsComplete(glossary: seq<Gloss>, text: String)
    ensures IsSubsequence(Glosses(KeyTermsOf(glossary, text)), glossary)
    ensures forall i :: 0 <= i < |glossary| && Contains(text, glossary[i].hebrew) ==>
              glossary[i] in Glosses(KeyTermsOf(glossary, text))
    decreases |glossary|
  {
    if |glossary| > 0 {
      var g := glossary[0];
      var rest := KeyTermsOf(glossary[1..], text);
      KeyTermsComplete(glossary[1..], text);
      assert glossary == [g] + glossary[1..];
      assert forall i :: 1 <= i < |glossary| ==> glossary[i] == glossary[1..][i - 1];
      if Contains(text, g.hebrew) {
        var r := KeyTermsOf(glossary, text);
        assert r[1..] == rest;
        assert Glosses(r) == [g] + Glosses(rest);
        SubsequenceCons(g, Glosses(rest), glossary[1..]);
      } else {
        SubsequenceSkip(g, Glosses(rest), glossary[1..]);
      }
    }
  }

  /** Each key term reports the number of its non-overlapping occurrences. */
  lemma {:induction false} KeyTermCounts(glossary: seq<Gloss>, text: String)
    ensures forall k :: 0 <= k < |KeyTermsOf(glossary, text)| ==>
              KeyTermsOf(glossary, text)[k].count == Count(text, KeyTermsOf(glossary, text)[k].hebrew)
    decreases |glossary|
  {
    if |glossary| > 0 {
      KeyTermCounts(glossary[1..], text);
    }
  }

  // ---------------------------------------------------------------- chunks

  datatype ChunkMeta = ChunkMeta(
    length: nat,
    words: nat,
    gematria: GematriaMethods,
    wwaqChanges: seq<String>,
    keyTerms: seq<KeyTerm>,
    created: String)

  datatype Chunk = Chunk(id: String, original: String, transformed: String, metadata: ChunkMeta)

  /** The metadata `_create_chunk` records for a chunk text: its length, word count,
      gematria, the changes the WWAQ transformation logs, and the key terms in it. */
  function MetaOf(text: String, created: String): ChunkMeta {
    ChunkMeta(
      |text|,
      WordCount(text),
      CalculateGematriaMethods(text),
      ChangeLines(ApplyWwaqTransformation(text).changes),
      KeyTermsOf(EzChajimTerms, text),
      created)
  }

  /** A chunk whose transformed text and metadata are those of its original text. */
  predicate Consistent(c: Chunk) {
    && c.transformed == ApplyWwaqTransformation(c.original).text
    && c.metadata == MetaOf(c.original, c.metadata.created)
  }

  /** `_create_chunk`: a chunk text with its id, its transformed text and its metadata. */
  function CreateChunk(text: String, chunkId: nat, created: String): (c: Chunk)
    ensures c.id == ChunkId(chunkId) && c.original == text && c.metadata.created == created
    ensures Consistent(c)
  {
    Chunk(ChunkId(chunkId), text, ApplyWwaqTransformation(text).text, MetaOf(text, created))
  }

  /** The transformed text of a chunk holds no legacy spelling, the gematria is taken
      from the untransformed text, at most three changes are logged, and the key terms
      are glossary terms that occur in the chunk text. */
  lemma CreateChunkMeta(text: String, chunkId: nat, created: String)
    ensures var c := CreateChunk(text, chunkId, created);
      && !Contains(c.transformed, "כבלה") && !Contains(c.transformed, "כוונה")
      && c.metadata.gematria.standard == Standard(text)
      && c.metadata.gematria.ordinal <= c.metadata.gematria.small <= 9 * c.metadata.gematria.ordinal
      && |c.metadata.wwaqChanges| <= 3
      && c.metadata.length == |text| && c.metadata.words == WordCount(text)
      && forall k :: 0 <= k < |c.metadata.keyTerms| ==> Contains(text, c.metadata.keyTerms[k].hebrew)
  {
    TransformationRemovesLegacy(text);
  }

  /** The log lines of a list of changes. */
  function ChangeLines(changes: seq<Change>): (r: seq<String>)
    ensures |r| == |changes|
    ensures forall k :: 0 <= k < |r| ==> r[k] == ChangeText(changes[k])
  {
    if |changes| == 0 then [] else [ChangeText(changes[0])] + ChangeLines(changes[1..])
  }

  /** The chunk size `extract_chunks` uses unless told otherwise. */
  const DefaultChunkSize: int := 500


  /** `[f(xs[0], first), f(xs[1], first + 1), ...]`, the shape of `enumerate(xs, first)`. */
  function Numbered<T, U>(xs: seq<T>, first: nat, f: (T, nat) -> U): (r: seq<U>)
    ensures |r| == |xs|
    ensures forall k :: 0 <= k < |r| ==> r[k] == f(xs[k], k + first)
    decreases |xs|
  {
    if |xs| == 0 then []
    else
      var rest := Numbered(xs[1..], first + 1, f);
      assert forall k :: 1 <= k < |xs| ==> xs[1..][k - 1] == xs[k] && k - 1 + (first + 1) == k + first;
      [f(xs[0], first)] + rest
  }

  /** One chunk per text, numbered from 1. */
  function ChunksOf(texts: seq<String>, created: String): (r: seq<Chunk>)
    ensures |r| == |texts|
    ensures forall k :: 0 <= k < |r| ==>
              && r[k].id == ChunkId(k + 1) && r[k].original == texts[k]
              && r[k].metadata.created == created && Consistent(r[k])
  {
    seq(|texts|, k requires 0 <= k < |texts| => CreateChunk(texts[k], k + 1, created))
  }

  /** `extract_chunks`: one chunk per chunk text, numbered from 1. */
  function ExtractChunks(text: String, chunkSize: int, created: String): (r: seq<Chunk>)
    ensures |r| == |ChunkTexts(text, chunkSize)|
  {
    ChunksOf(ChunkTexts(text, chunkSize), created)
  }

  /** Chunk `k` (from 0) is the consistent chunk of the `k`-th chunk text, which is not
      empty, and carries the `k + 1`-th id. */
  lemma ExtractChunksAt(text: String, chunkSize: int, created: String, k: nat)
    requires k < |ExtractChunks(text, chunkSize, created)|
    ensures ExtractChunks(text, chunkSize, created)[k].id == ChunkId(k + 1)
    ensures ExtractChunks(text, chunkSize, created)[k].original == ChunkTexts(text, chunkSize)[k]
    ensures |ExtractChunks(text, chunkSize, created)[k].original| > 0
    ensures Consistent(ExtractChunks(text, chunkSize, created)[k])
  {
  }

  /** Chunk ids are pairwise distinct. */
  lemma ChunkIdsDistinct(text: String, chunkSize: int, created: String)
    ensures forall i, j :: 0 <= i < j < |ExtractChunks(text, chunkSize, created)| ==>
              ExtractChunks(text, chunkSize, created)[i].id != ExtractChunks(text, chunkSize, created)[j].id
  {
    var r := ExtractChunks(text, chunkSize, created);
    forall k | 0 <= k < |r|
      ensures r[k].id == ChunkId(k + 1)
    {
      ExtractChunksAt(text, chunkSize, created, k);
    }
    NumberedIdsDistinct(r);
  }

  lemma NumberedIdsDistinct(r: seq<Chunk>)
    requires forall k :: 0 <= k < |r| ==> r[k].id == ChunkId(k + 1)
    ensures forall i, j :: 0 <= i < j < |r| ==> r[i].id != r[j].id
  {
    forall i, j | 0 <= i < j < |r|
      ensures r[i].id != r[j].id
    {
      ChunkIdInjective(i + 1, j + 1);
    }
  }

  /** A text yields no chunk exactly when it is blank. */
  lemma NoChunksIffBlankText(text: String, chunkSize: int, created: String)
    ensures |ExtractChunks(text, chunkSize, created)| == 0 <==> AllSpace(text)
  {
    NoChunksIffBlank(text, chunkSize);
  }

  // ---------------------------------------------------------------- analysis

  /** Total of the standard gematria over chunks. */
  function TotalGematria(chunks: seq<Chunk>): nat {
    if |chunks| == 0 then 0 else chunks[0].metadata.gematria.standard + TotalGematria(chunks[1..])
  }

  /** Sum of the word counts over chunks. */
  function TotalWords(chunks: seq<Chunk>): nat {
    if |chunks| == 0 then 0 else chunks[0].metadata.words + TotalWords(chunks[1..])
  }

  /** Sum of the amounts recorded for `key`. */
  function SumFor(entries: seq<(String, nat)>, key: String): nat {
    if |entries| == 0 then 0
    else (if entries[0].0 == key then entries[0].1 else 0) + SumFor(entries[1..], key)
  }

  lemma {:induction false} SumForAppend(a: seq<(String, nat)>, b: seq<(String, nat)>, key: String)
    ensures SumFor(a + b, key) == SumFor(a, key) + SumFor(b, key)
    decreases |a|
  {
    if |a| == 0 {
      assert a + b == b;
    } else {
      assert (a + b)[1..] == a[1..] + b;
      SumForAppend(a[1..], b, key);
    }
  }

  /** Some entry records `key`. */
  predicate Recorded(entries: seq<(String, nat)>, key: String) {
    exists i :: 0 <= i < |entries| && entries[i].0 == key
  }

  lemma RecordedLast(init: seq<(String, nat)>, last: (String, nat), key: String)
    ensures Recorded(init + [last], key) <==> Recorded(init, key) || last.0 == key
  {
    var entries := init + [last];
    if Recorded(entries, key) && last.0 != key {
      var i :| 0 <= i < |entries| && entries[i].0 == key;
      assert entries[i] == init[i];
    }
    if Recorded(init, key) {
      var i :| 0 <= i < |init| && init[i].0 == key;
      assert entries[i] == init[i];
    }
    if last.0 == key {
      assert entries[|init|] == last;
    }
  }

  /** A `defaultdict(int)` filled entry by entry with `d[key] += amount`: a key is
      present exactly when it was recorded, with the sum of its amounts. */
  function Tally(entries: seq<(String, nat)>): (m: map<String, nat>)
    ensures forall key :: key in m <==> Recorded(entries, key)
    ensures forall key :: key in m ==> m[key] == SumFor(entries, key)
    decreases |entries|
  {
    if |entries| == 0 then map[]
    else
      var n := |entries|;
      var init := entries[..n - 1];
      var last := entries[n - 1];
      var m := Tally(init);
      assert entries == init + [last];
      forall key
        ensures SumFor(entries, key) == SumFor(init, key) + (if last.0 == key then last.1 else 0)
        ensures Recorded(entries, key) <==> Recorded(init, key) || last.0 == key
      {
        SumForAppend(init, [last], key);
        RecordedLast(init, last, key);
      }
      assert forall key :: key !in m ==> SumFor(init, key) == 0 by {
        forall key | key !in m
          ensures SumFor(init, key) == 0
        {
          SumForAbsent(init, key);
        }
      }
      m[last.0 := (if last.0 in m then m[last.0] else 0) + last.1]
  }

  lemma {:induction false} SumForAbsent(entries: seq<(String, nat)>, key: String)
    requires forall i :: 0 <= i < |entries| ==> entries[i].0 != key
    ensures SumFor(entries, key) == 0
    decreases |entries|
  {
    if |entries| > 0 {
      SumForAbsent(entries[1..], key);
    }
  }

  /** A key recorded only with positive amounts has a positive total. */
  lemma {:induction false} SumForPositive(entries: seq<(String, nat)>, key: String, i: nat)
    requires i < |entries| && entries[i].0 == key
    requires forall j :: 0 <= j < |entries| ==> entries[j].1 > 0
    ensures SumFor(entries, key) > 0
    decreases |entries|
  {
    if i > 0 {
      SumForPositive(entries[1..], key, i - 1);
    }
  }

  function TermEntries(terms: seq<KeyTerm>): (r: seq<(String, nat)>)
    ensures |r| == |terms|
    ensures forall k :: 0 <= k < |r| ==> r[k] == (terms[k].hebrew, terms[k].count)
  {
    if |terms| == 0 then [] else [(terms[0].hebrew, terms[0].count)] + TermEntries(terms[1..])
  }

  function LineEntries(lines: seq<String>): (r: seq<(String, nat)>)
    ensures |r| == |lines|
    ensures forall k :: 0 <= k < |r| ==> r[k] == (lines[k], 1)
  {
    if |lines| == 0 then [] else [(lines[0], 1)] + LineEntries(lines[1..])
  }

  /** The `(term, count)` records of all chunks, in order. */
  function KeyTermEntries(chunks: seq<Chunk>): seq<(String, nat)> {
    if |chunks| == 0 then []
    else
      TermEntries(chunks[0].metadata.keyTerms) + KeyTermEntries(chunks[1..])
  }

  /** The `(change line, 1)` records of all chunks, in order. */
  function ChangeEntries(chunks: seq<Chunk>): seq<(String, nat)> {
    if |chunks| == 0 then []
    else
      LineEntries(chunks[0].metadata.wwaqChanges) + ChangeEntries(chunks[1..])
  }

  datatype Analysis = Analysis(
    file: String,
    totalChunks: nat,
    totalWords: nat,
    totalGematria: nat,
    averageGematria: nat,
    keyTermsFrequency: map<String, nat>,
    wwaqTransformations: map<String, nat>,
    chunks: seq<Chunk>)

  /** The integer average `total // n` of `analyze_manuscript`, 0 for no chunks. */
  function Average(total: nat, n: nat): (q: nat)
    ensures n == 0 ==> q == 0
    ensures n > 0 ==> q * n <= total < (q + 1) * n
  {
    if n == 0 then 0
    else
      var q := total / n;
      assert total == q * n + total % n;
      assert (q + 1) * n == q * n + n;
      q
  }

  /** `analyze_manuscript` on the text read from `file`: the chunks with their totals,
      the average gematria per chunk and the frequency tables. */
  function AnalyzeManuscript(file: String, text: String, created: String): (a: Analysis)
    ensures a.chunks == ExtractChunks(text, DefaultChunkSize, created)
    ensures a.totalChunks == |a.chunks| && a.totalGematria == TotalGematria(a.chunks)
    ensures a.averageGematria == Average(a.totalGematria, a.totalChunks)
    ensures a.totalWords == TotalWords(a.chunks) == WordCount(text)
    ensures a.keyTermsFrequency == Tally(KeyTermEntries(a.chunks))
    ensures a.wwaqTransformations == Tally(ChangeEntries(a.chunks))
  {
    var chunks := ExtractChunks(text, DefaultChunkSize, created);
    var total := TotalGematria(chunks);
    TotalWordsIsTextWords(text, DefaultChunkSize, created);
    Analysis(
      file,
      |chunks|,
      TotalWords(chunks),
      total,
      Average(total, |chunks|),
      Tally(KeyTermEntries(chunks)),
      Tally(ChangeEntries(chunks)),
      chunks)
  }

  // ---------------------------------------------------------------- totals

  /** Sum of the standard gematria of a list of texts. */
  function StandardSum(texts: seq<String>): nat {
    if |texts| == 0 then 0 else Standard(texts[0]) + StandardSum(texts[1..])
  }

  lemma {:induction false} StandardOfConcat(texts: seq<String>)
    ensures Standard(Concat(texts)) == StandardSum(texts)
    decreases |texts|
  {
    if |texts| > 0 {
      StandardOfConcat(texts[1..]);
      StandardAdditive(texts[0], Concat(texts[1..]));
    }
  }

  lemma {:induction false} StripEachKeepsGematria(raw: seq<String>)
    ensures StandardSum(StripEach(raw)) == StandardSum(raw)
    decreases |raw|
  {
    if |raw| > 0 {
      SchemesAreSpaceBlind();
      StripKeepsWeights(raw[0], StandardWeight);
      StripEachKeepsGematria(raw[1..]);
      assert StripEach(raw)[1..] == StripEach(raw[1..]);
    }
  }

  /** Chunks whose standard gematria is that of the matching text sum to the texts'. */
  lemma {:induction false} TotalOfMatching(chunks: seq<Chunk>, texts: seq<String>)
    requires |chunks| == |texts|
    requires forall k :: 0 <= k < |chunks| ==> chunks[k].metadata.gematria.standard == Standard(texts[k])
    ensures TotalGematria(chunks) == StandardSum(texts)
    decreases |chunks|
  {
    if |chunks| > 0 {
      TotalOfMatching(chunks[1..], texts[1..]);
    }
  }

  lemma ChunksOfTotal(texts: seq<String>, created: String)
    ensures TotalGematria(ChunksOf(texts, created)) == StandardSum(texts)
  {
    var r := ChunksOf(texts, created);
    forall k | 0 <= k < |r|
      ensures r[k].metadata.gematria.standard == Standard(texts[k])
    {
      CreateChunkMeta(texts[k], k + 1, created);
    }
    TotalOfMatching(r, texts);
  }

  /** Chunking loses no letter: the chunks' gematria adds up to that of the whole text,
      since only whitespace is dropped or collapsed on the way. */
  lemma TotalGematriaIsTextGematria(text: String, chunkSize: int, created: String)
    ensures TotalGematria(ExtractChunks(text, chunkSize, created)) == Standard(text)
  {
    var raw := RawChunks(text, chunkSize);
    ChunksOfTotal(ChunkTexts(text, chunkSize), created);
    StripEachKeepsGematria(raw);
    StandardOfConcat(raw);
    SchemesAreSpaceBlind();
    NormalizeKeepsWeights(text, StandardWeight);
  }

  /** Sum of the word counts of a list of texts. */
  function WordSum(texts: seq<String>): nat {
    if |texts| == 0 then 0 else WordCount(texts[0]) + WordSum(texts[1..])
  }

  /** Texts each closed by whitespace, save perhaps the last, hold as many words
      together as apart. */
  lemma {:induction false} WordCountOfConcat(texts: seq<String>)
    requires forall k :: 0 <= k < |texts| - 1 ==> EndsInSpace(texts[k])
    ensures WordCount(Concat(texts)) == WordSum(texts)
    decreases |texts|
  {
    if |texts| > 0 {
      var rest := texts[1..];
      assert forall k :: 0 <= k < |rest| - 1 ==> rest[k] == texts[k + 1];
      WordCountOfConcat(rest);
      if |rest| > 0 {
        WordCountAfterSpace(texts[0], Concat(rest));
      } else {
        assert rest == [];
        assert Concat(texts) == texts[0] + Concat(rest);
        assert texts[0] + [] == texts[0];
      }
    }
  }

  lemma {:induction false} StripEachKeepsWords(raw: seq<String>)
    ensures WordSum(StripEach(raw)) == WordSum(raw)
    decreases |raw|
  {
    if |raw| > 0 {
      WordCountStrip(raw[0]);
      StripEachKeepsWords(raw[1..]);
      assert StripEach(raw)[1..] == StripEach(raw[1..]);
    }
  }

  /** Chunks whose word count is that of the matching text sum to the texts'. */
  lemma {:induction false} WordsOfMatching(chunks: seq<Chunk>, texts: seq<String>)
    requires |chunks| == |texts|
    requires forall k :: 0 <= k < |chunks| ==> chunks[k].metadata.words == WordCount(texts[k])
    ensures TotalWords(chunks) == WordSum(texts)
    decreases |chunks|
  {
    if |chunks| > 0 {
      WordsOfMatching(chunks[1..], texts[1..]);
    }
  }

  /** Chunking loses no word: `total_words` of the analysis is the number of words of
      the whole text, since chunks are only ever cut after whitespace. */
  lemma TotalWordsIsTextWords(text: String, chunkSize: int, created: String)
    ensures TotalWords(ExtractChunks(text, chunkSize, created)) == WordCount(text)
  {
    var raw := RawChunks(text, chunkSize);
    var texts := ChunkTexts(text, chunkSize);
    var r := ChunksOf(texts, created);
    forall k | 0 <= k < |r|
      ensures r[k].metadata.words == WordCount(texts[k])
    {
      CreateChunkMeta(texts[k], k + 1, created);
    }
    WordsOfMatching(r, texts);
    StripEachKeepsWords(raw);
    RawChunksEndInSpace(text, chunkSize);
    WordCountOfConcat(raw);
    WordCountNormalize(text);
  }

  /** Every key of a tally of positive amounts has a positive total. */
  lemma TallyPositive(entries: seq<(String, nat)>)
    requires forall i :: 0 <= i < |entries| ==> entries[i].1 > 0
    ensures forall key :: key in Tally(entries) ==> Tally(entries)[key] > 0
  {
    forall key | key in Tally(entries)
      ensures Tally(entries)[key] > 0
    {
      var i :| 0 <= i < |entries| && entries[i].0 == key;
      SumForPositive(entries, key, i);
    }
  }

  /** `h` is the Hebrew form of an entry of `glossary`. */
  predicate InGlossary(h: String, glossary: seq<Gloss>) {
    exists g :: g in glossary && g.hebrew == h
  }

  /** A key term record: a glossary term with a positive count. */
  predicate GlossaryRecord(e: (String, nat)) {
    e.1 > 0 && InGlossary(e.0, EzChajimTerms)
  }

  lemma InGlossaryTail(h: String, glossary: seq<Gloss>)
    requires |glossary| > 0 && InGlossary(h, glossary[1..])
    ensures InGlossary(h, glossary)
  {
    var g :| g in glossary[1..] && g.hebrew == h;
    assert g in glossary;
  }

  lemma {:induction false} KeyTermsAreGlossary(glossary: seq<Gloss>, text: String)
    ensures forall k :: 0 <= k < |KeyTermsOf(glossary, text)| ==>
              InGlossary(KeyTermsOf(glossary, text)[k].hebrew, glossary)
    decreases |glossary|
  {
    if |glossary| > 0 {
      var r := KeyTermsOf(glossary, text);
      var rest := KeyTermsOf(glossary[1..], text);
      KeyTermsAreGlossary(glossary[1..], text);
      forall k | 0 <= k < |r|
        ensures InGlossary(r[k].hebrew, glossary)
      {
        if Contains(text, glossary[0].hebrew) && k == 0 {
          assert glossary[0] in glossary;
        } else {
          var j := if Contains(text, glossary[0].hebrew) then k - 1 else k;
          assert r[k] == rest[j];
          InGlossaryTail(rest[j].hebrew, glossary);
        }
      }
    }
  }

  lemma {:induction false} KeyTermEntriesRecords(chunks: seq<Chunk>)
    requires forall k :: 0 <= k < |chunks| ==> Consistent(chunks[k])
    ensures forall i :: 0 <= i < |KeyTermEntries(chunks)| ==> GlossaryRecord(KeyTermEntries(chunks)[i])
    decreases |chunks|
  {
    if |chunks| > 0 {
      KeyTermsAreGlossary(EzChajimTerms, chunks[0].original);
      KeyTermEntriesRecords(chunks[1..]);
      var head: seq<(String, nat)> := TermEntries(chunks[0].metadata.keyTerms);
      var tail: seq<(String, nat)> := KeyTermEntries(chunks[1..]);
      assert KeyTermEntries(chunks) == head + tail;
      forall i | 0 <= i < |head| + |tail|
        ensures GlossaryRecord((head + tail)[i])
      {
        if i >= |head| {
          assert (head + tail)[i] == tail[i - |head|];
        }
      }
    }
  }

  /** The key term table of an analysis lists glossary terms only, each with a positive
      total, and the transformation table counts every listed log line at least once. */
  lemma AnalysisTables(file: String, text: String, created: String)
    ensures forall key :: key in AnalyzeManuscript(file, text, created).keyTermsFrequency ==>
              AnalyzeManuscript(file, text, created).keyTermsFrequency[key] > 0
              && InGlossary(key, EzChajimTerms)
    ensures forall key :: key in AnalyzeManuscript(file, text, created).wwaqTransformations ==>
              AnalyzeManuscript(file, text, created).wwaqTransformations[key] > 0
  {
    var chunks := ExtractChunks(text, DefaultChunkSize, created);
    forall k | 0 <= k < |chunks|
      ensures Consistent(chunks[k])
    {
      ExtractChunksAt(text, DefaultChunkSize, created, k);
    }
    var entries := KeyTermEntries(chunks);
    KeyTermEntriesRecords(chunks);
    TallyPositive(entries);
    forall key | key in Tally(entries)
      ensures InGlossary(key, EzChajimTerms)
    {
      var i :| 0 <= i < |entries| && entries[i].0 == key;
      assert GlossaryRecord(entries[i]);
    }
    ChangeEntriesPositive(chunks);
    TallyPositive(ChangeEntries(chunks));
  }

  lemma {:induction false} ChangeEntriesPositive(chunks: seq<Chunk>)
    ensures forall i :: 0 <= i < |ChangeEntries(chunks)| ==> ChangeEntries(chunks)[i].1 == 1
    decreases |chunks|
  {
    if |chunks| > 0 {
      ChangeEntriesPositive(chunks[1..]);
      var head: seq<(String, nat)> := LineEntries(chunks[0].metadata.wwaqChanges);
      var tail: seq<(String, nat)> := ChangeEntries(chunks[1..]);
      assert ChangeEntries(chunks) == head + tail;
      forall i | 0 <= i < |head| + |tail|
        ensures (head + tail)[i].1 == 1
      {
        if i >= |head| {
          assert (head + tail)[i] == tail[i - |head|];
        }
      }
    }
  }

  /** `process_ez_chajim_manuscript` */
  function ProcessManuscript(file: String, text: String, created: String): (a: Analysis)
    ensures a.file == file && a.totalChunks == |ChunkTexts(text, DefaultChunkSize)|
  {
    AnalyzeManuscript(file, text, created)
  }

  // ---------------------------------------------------------------- batches

  /** What a batch carries of a chunk: its id, the transformed text, the standard
      gematria as a hint and the key terms. */
  datatype BatchItem = BatchItem(id: String, text: String, gematriaHint: nat, keyTerms: seq<KeyTerm>)

  datatype Batch = Batch(batchId: String, chunkIds: seq<String>, instruction: String, items: seq<BatchItem>)

  /** `range(0, n, 0)` raises: a batch size of zero is an error. */
  datatype BatchError = ZeroBatchSize

  function ItemOf(c: Chunk): (b: BatchItem)
    ensures b.id == c.id && b.text == c.transformed && b.keyTerms == c.metadata.keyTerms
    ensures b.gematriaHint == c.metadata.gematria.standard
  {
    BatchItem(c.id, c.transformed, c.metadata.gematria.standard, c.metadata.keyTerms)
  }

  function Ids(chunks: seq<Chunk>): (r: seq<String>)
    ensures |r| == |chunks|
    ensures forall k :: 0 <= k < |r| ==> r[k] == chunks[k].id
  {
    if |chunks| == 0 then [] else [chunks[0].id] + Ids(chunks[1..])
  }

  function Items(chunks: seq<Chunk>): (r: seq<BatchItem>)
    ensures |r| == |chunks|
    ensures forall k :: 0 <= k < |r| ==> r[k] == ItemOf(chunks[k])
  {
    if |chunks| == 0 then [] else [ItemOf(chunks[0])] + Items(chunks[1..])
  }

  /** The batch numbered `number` holding `group`. */
  function BatchOf(group: seq<Chunk>, number: nat, instruction: String): (b: Batch)
    ensures b.batchId == BatchId(number) && b.chunkIds == Ids(group) && b.items == Items(group)
  {
    Batch(BatchId(number), Ids(group), instruction, Items(group))
  }

  /** `create_translation_batch`: consecutive groups of `batchSize` chunks, numbered from 1.
      A size of zero fails; a negative size gives no batch, as `range` does. The
      instruction text is passed in. */
  function CreateTranslationBatch(chunks: seq<Chunk>, batchSize: int, instruction: String)
    : (r: Result<seq<Batch>, BatchError>)
    ensures r.Failure? <==> batchSize == 0
    ensures batchSize < 0 ==> r == Success([])
    ensures batchSize > 0 ==> r.Success? && |r.value| == |Slices(chunks, batchSize)|
  {
    if batchSize == 0 then Failure(ZeroBatchSize)
    else if batchSize < 0 then Success([])
    else Success(Numbered(Slices(chunks, batchSize), 1, (g, n) => BatchOf(g, n, instruction)))
  }

  /** Batch `k` (from 0) is `BATCH_{k+1:03d}` and holds `chunks[k * size : (k + 1) * size]`,
      between one and `size` chunks, each as its batch item, with the shared instruction. */
  lemma BatchAt(chunks: seq<Chunk>, batchSize: int, instruction: String, k: nat)
    requires batchSize > 0 && k < |CreateTranslationBatch(chunks, batchSize, instruction).value|
    ensures k * batchSize < |chunks|
    ensures var group := chunks[k * batchSize..Min(k * batchSize + batchSize, |chunks|)];
      var b := CreateTranslationBatch(chunks, batchSize, instruction).value[k];
      && b.batchId == BatchId(k + 1)
      && b.instruction == instruction
      && b.chunkIds == Ids(group)
      && b.items == Items(group)
      && 0 < |b.items| <= batchSize
  {
    SliceAt(chunks, batchSize, k);
  }

  lemma {:induction false} IdsConcat(groups: seq<seq<Chunk>>)
    ensures Ids(Concat(groups)) == Concat(IdsOfGroups(groups))
    decreases |groups|
  {
    if |groups| > 0 {
      IdsConcat(groups[1..]);
      IdsAppend(groups[0], Concat(groups[1..]));
    }
  }

  lemma IdsAppend(a: seq<Chunk>, b: seq<Chunk>)
    ensures Ids(a + b) == Ids(a) + Ids(b)
  {
  }

  function IdsOfGroups(groups: seq<seq<Chunk>>): (r: seq<seq<String>>)
    ensures |r| == |groups|
    ensures forall k :: 0 <= k < |r| ==> r[k] == Ids(groups[k])
  {
    if |groups| == 0 then [] else [Ids(groups[0])] + IdsOfGroups(groups[1..])
  }

  function ChunkIdsOfBatches(batches: seq<Batch>): (r: seq<seq<String>>)
    ensures |r| == |batches|
    ensures forall k :: 0 <= k < |r| ==> r[k] == batches[k].chunkIds
  {
    if |batches| == 0 then [] else [batches[0].chunkIds] + ChunkIdsOfBatches(batches[1..])
  }

  /** Every chunk goes into exactly one batch, in order: the batches' id lists put back
      together are the chunk ids; and there are as few batches as `batchSize` allows. */
  lemma BatchesCoverChunks(chunks: seq<Chunk>, batchSize: int, instruction: String)
    requires batchSize > 0
    ensures Concat(ChunkIdsOfBatches(CreateTranslationBatch(chunks, batchSize, instruction).value)) == Ids(chunks)
    ensures var n := |CreateTranslationBatch(chunks, batchSize, instruction).value|;
      |chunks| <= n * batchSize && (|chunks| == 0 || (n - 1) * batchSize < |chunks|)
  {
    var groups := Slices(chunks, batchSize);
    var batches := CreateTranslationBatch(chunks, batchSize, instruction).value;
    assert ChunkIdsOfBatches(batches) == IdsOfGroups(groups);
    SlicesConcat(chunks, batchSize);
    IdsConcat(groups);
    SlicesCount(chunks, batchSize);
  }

  /** `create_translation_batches` on an analysis. */
  function CreateTranslationBatches(analysis: Analysis, batchSize: int, instruction: String)
    : (r: Result<seq<Batch>, BatchError>)
    ensures r.Failure? <==> batchSize == 0
    ensures r.Success? ==> (|r.value| == 0 <==> batchSize < 0 || |analysis.chunks| == 0)
  {
    if batchSize > 0 then
      SlicesCount(analysis.chunks, batchSize);
      CreateTranslationBatch(analysis.chunks, batchSize, instruction)
    else CreateTranslationBatch(analysis.chunks, batchSize, instruction)
  }

  // ---------------------------------------------------------------- validation

  /** The spellings a conforming translation avoids, matched in lower case. */
  const ForbiddenSpellings: seq<String> := ["kabbala", "kawana", "zerstör"]

  datatype Checks = Checks(hasContent: bool, wwaqConform: bool, maintainsKeyTerms: bool, reasonableLength: bool)

  datatype Validation = Validation(isValid: bool, checks: Checks)

  /** The length ratio divides by the length of the original: an empty one fails. */
  datatype ValidationError = EmptyOriginal

  predicate KeepsTerm(translation: String, t: KeyTerm) {
    Contains(translation, t.hebrew) || Contains(translation, t.translation)
  }

  function AllKept(translation: String, terms: seq<KeyTerm>): (b: bool)
    ensures b <==> forall k :: 0 <= k < |terms| ==> KeepsTerm(translation, terms[k])
  {
    if |terms| == 0 then true
    else KeepsTerm(translation, terms[0]) && AllKept(translation, terms[1..])
  }

  /** `bool(translation.strip())` */
  function HasContent(translation: String): (b: bool)
    ensures b <==> !AllSpace(translation)
  {
    StripAllSpace(translation);
    Strip(translation) != []
  }

  /** No forbidden spelling occurs in the lower-cased translation. */
  function WwaqConform(translation: String): (b: bool)
    ensures b <==> forall k :: 0 <= k < |ForbiddenSpellings| ==> !Contains(Lower(translation), ForbiddenSpellings[k])
  {
    var low := Lower(translation);
    assert ForbiddenSpellings[0] == "kabbala" && ForbiddenSpellings[1] == "kawana";
    assert ForbiddenSpellings[2] == "zerstör" && |ForbiddenSpellings| == 3;
    !Contains(low, "kabbala") && !Contains(low, "kawana") && !Contains(low, "zerstör")
  }

  /** `0.5 <= t / o <= 2.0`, evaluated exactly; the float division agrees, since 0.5
      and 2.0 are representable and rounding is monotone. */
  function ReasonableLength(t: nat, o: nat): (b: bool)
    requires o > 0
    ensures b <==> 0.5 <= (t as real) / (o as real) <= 2.0
  {
    RatioBounds(t, o);
    o <= 2 * t && t <= 2 * o
  }

  /** `validate_chunk_translation`: the four checks and their conjunction; an empty
      original fails on the length ratio's division. */
  function ValidateChunkTranslation(original: Chunk, translation: String)
    : (r: Result<Validation, ValidationError>)
    ensures r.Failure? <==> |original.original| == 0
    ensures r.Success? ==>
      && r.value.checks == Checks(HasContent(translation), WwaqConform(translation),
                                  AllKept(translation, original.metadata.keyTerms),
                                  ReasonableLength(|translation|, |original.original|))
      && (r.value.isValid <==> (r.value.checks.hasContent && r.value.checks.wwaqConform
                                 && r.value.checks.maintainsKeyTerms && r.value.checks.reasonableLength))
  {
    if |original.original| == 0 then Failure(EmptyOriginal)
    else
      var checks := Checks(
        HasContent(translation),
        WwaqConform(translation),
        AllKept(translation, original.metadata.keyTerms),
        ReasonableLength(|translation|, |original.original|));
      Success(Validation(
        checks.hasContent && checks.wwaqConform && checks.maintainsKeyTerms && checks.reasonableLength,
        checks))
  }

  /** The length ratio lies in `[0.5, 2]` exactly when neither length is more than
      twice the other. */
  lemma RatioBounds(t: nat, o: nat)
    requires o > 0
    ensures 0.5 <= (t as real) / (o as real) <==> o <= 2 * t
    ensures (t as real) / (o as real) <= 2.0 <==> t <= 2 * o
  {
    var q := (t as real) / (o as real);
    assert q * (o as real) == t as real;
  }

  /** A chunk's own text passes as its translation on content, key terms and length. */
  lemma SelfTranslationPasses(c: Chunk)
    requires Consistent(c) && |c.original| > 0 && !IsSpace(c.original[0])
    ensures var v := ValidateChunkTranslation(c, c.original);
      && v.Success?
      && v.value.checks.hasContent && v.value.checks.maintainsKeyTerms && v.value.checks.reasonableLength
  {
  }

  /** Every non-empty stripped text starts with a non-blank character. */
  lemma {:induction false} StripEachStartsWithText(raw: seq<String>)
    ensures forall k :: 0 <= k < |StripEach(raw)| && |StripEach(raw)[k]| > 0 ==> !IsSpace(StripEach(raw)[k][0])
    decreases |raw|
  {
    if |raw| > 0 {
      StripEachStartsWithText(raw[1..]);
      assert forall k :: 1 <= k < |raw| ==> StripEach(raw)[k] == StripEach(raw[1..])[k - 1];
    }
  }

  /** Extracted chunks pass their own text as translation on content, key terms and
      length: the validation is consistent with the chunker. */
  lemma ExtractedChunksSelfValidate(text: String, chunkSize: int, created: String, k: nat)
    requires k < |ExtractChunks(text, chunkSize, created)|
    ensures var c := ExtractChunks(text, chunkSize, created)[k];
      var v := ValidateChunkTranslation(c, c.original);
      && v.Success?
      && v.value.checks.hasContent && v.value.checks.maintainsKeyTerms && v.value.checks.reasonableLength
  {
    ExtractChunksAt(text, chunkSize, created, k);
    StripEachStartsWithText(RawChunks(text, chunkSize));
    SelfTranslationPasses(ExtractChunks(text, chunkSize, created)[k]);
  }
}
