# Ez Chajim manuscript pipeline and Q-system orthography, in Dafny

This project models the core of a toolchain that prepares the Kabbalistic manuscript
*Ez Chajim* for translation under the WWAQ conventions. The toolchain does the following:

- **Manuscript processor** (`lib/manuscript_processor.py`):
  - normalises the text, cuts it into sentence-aligned chunks of bounded size, and gives
    each chunk a `CHUNK_nnnn` id;
  - computes four gematria values per chunk;
  - rewrites legacy Hebrew spellings (the literal WWAQ table, plus a structural rule for a
    space-separated כ ב ל ה);
  - records glossary terms, aggregates an analysis, partitions the chunks into
    `BATCH_nnn` translation batches, and validates returned translations.
- **HNS10 spiral system** (`lib/hns10_spiral_system.py`):
  - writes integers as Hebrew-letter numerals (zero is taboo, 15 and 16 avoid divine
    names, a geresh marks the thousands);
  - decomposes Omer days into a week and a weekday with their Sefirot;
  - checks nested YAML data for the null taboo;
  - checks text for the forbidden spellings.
- **YAML formatter** (`lib/yaml_ez_chajim_formatter.py`):
  - builds the 49-day Omer study schedule and the study focus of each day;
  - merges translations into chunk records;
  - runs its own, stricter WWAQ check and cuts chunks into batches for the translator.
- **German Q-system orthography** (`modules/core/core/deutsche_schreibweise_q.py`):
  - transliterates with the ordered Q-rules (Kabbala → Qabbala, Kli → Qli, Gevura →
    Gewura, …);
  - checks articles, guesses genus, and finds related terms;
  - flags anthropomorphic style and replaces zer- words;
  - provides small word tools (gematria, syllables, stem, affixes, word class);
  - runs the complete check, which always leaves the text ending in "Q!".

Every operation is a pure function or a method on immutable values. Python's mutable
dictionaries become datatypes. A raised `ValueError` or `KeyError` becomes the `Failure`
case of a `Result`.

The modules follow the structure of the source:
- `Text`: characters, case, whitespace and word counts.
- `Seqs`: concatenation and subsequences.
- `Substrings`: `in`, `count`, `replace`, and folds of replacement tables.
- `Decimal`: zero-padded ids.
- `Gematria`: the manuscript processor's four tables.
- `Wwaq`: the transformation engine.
- `Chunking`: sentence splitting and grouping.
- `Batching`: fixed-size slices.
- `Manuscript`: chunks, analysis, batches and validation.
- `Hns10`: the spiral system.
- `Formatter`: the YAML formatter.
- `Schreibweise`: the Q-rule table.
- `Orthografie`: grammar, related terms, style and zer- elimination.
- `Werkzeuge`: the word tools.
- `Pruefung`: the complete check.

## Model

| member | source | states |
|---|---|---|
| Text.Lower | modules/core/core/deutsche_schreibweise_q.py:275 | `str.lower()` keeps the length and maps every character on its own, upper-case letters to their lower-case partner and everything else to itself |
| Text.LowerIdempotent | modules/core/core/deutsche_schreibweise_q.py:275 | lower-casing an already lower-cased text changes nothing |
| Text.LowerConcat | lib/hns10_spiral_system.py:265-268 | lower-casing distributes over concatenation, so a lower-cased search term stays findable in a lower-cased text |
| Text.Capitalize | modules/core/core/deutsche_schreibweise_q.py:307-314 | `str.capitalize()` keeps the length, upper-cases the first character and lower-cases the rest |
| Text.Strip | lib/manuscript_processor.py:113 | the result is a slice of the input, with only whitespace cut from either end, and starts and ends with a non-space |
| Text.StripAllSpace | lib/manuscript_processor.py:262 | stripping leaves nothing exactly when the text is all whitespace |
| Text.CollapseSpaces | lib/manuscript_processor.py:113 | `re.sub(r'\s+', ' ', …)`: never longer; every remaining whitespace is a single ' ' not followed by another; empty exactly when the input is; the first and last characters keep their whitespace-ness |
| Text.Normalize | lib/manuscript_processor.py:113 | the cleaned text has no whitespace at either end, only single ' ' inside, and is empty exactly when the input is all whitespace |
| Text.WordCountZeroIffBlank | lib/manuscript_processor.py:166 | `len(text.split())` is zero exactly for an all-whitespace text |
| Text.WordCountJoin | lib/manuscript_processor.py:166 | words of two texts joined by a space are the words of each, added |
| Text.WordCountAfterSpace | lib/manuscript_processor.py:166 | the words of a text that ends in whitespace and of what follows it add up |
| Text.WordCountStrip | lib/manuscript_processor.py:113 | `strip()` keeps the number of words |
| Text.WordCountNormalize | lib/manuscript_processor.py:113 | the whitespace clean-up before chunking keeps the number of words |
| Substrings.CountPositiveIffContains | lib/manuscript_processor.py:95-96 | `text.count(old) > 0` exactly when `old in text` |
| Substrings.ReplaceAbsent | lib/manuscript_processor.py:95-97 | replacing a pattern that does not occur returns the text unchanged |
| Substrings.ReplaceLength | lib/manuscript_processor.py:96-97 | the replaced text's length changes by the counted occurrences times the length difference |
| Substrings.ReplaceSelf | lib/manuscript_processor.py:34-41 | replacing a pattern by itself (the table's "already correct" entries) is the identity |
| Substrings.ReplaceIsRewrite | lib/manuscript_processor.py:97 | `str.replace` equals the left-to-right, non-overlapping rewrite with a prefix matcher, the form shared with the structural `re.sub` |
| Substrings.ScanOf | lib/manuscript_processor.py:104-105 | every text has a leftmost, non-overlapping scan into kept characters and matches |
| Substrings.ScanCovers | lib/manuscript_processor.py:104-105 | the kept characters and matched spans of a leftmost scan, concatenated in order, give back the scanned text |
| Substrings.ScanUnique | lib/manuscript_processor.py:104-105 | that scan is unique: no other split into kept characters and leftmost matches exists |
| Substrings.RewriteRendersScan | lib/manuscript_processor.py:104-105 | the rewrite used for `str.replace` and `re.sub` keeps the characters outside the matches in order and puts the replacement in place of each leftmost match |
| Substrings.RewriteLeavesNoOccurrence | lib/manuscript_processor.py:104-105 | after a rewrite whose replacement cannot start or continue the pattern, the caught pattern no longer occurs |
| Substrings.ReplaceRemovesPattern | lib/manuscript_processor.py:97 | after `replace(p, r)` with such an `r`, `p` no longer occurs |
| Substrings.FoldReplaceUntouched | modules/core/core/deutsche_schreibweise_q.py:132-133 | a text holding no pattern of the table passes the replacement loop unchanged |
| Substrings.FoldReplaceSplit | modules/core/core/deutsche_schreibweise_q.py:132-133 | applying a table is applying its first part, then its second |
| Substrings.PrefixRuleShadows | modules/core/core/deutsche_schreibweise_q.py:55-58 | a rule whose pattern extends an earlier rule's pattern can never match after it |
| Substrings.PairShadows | modules/core/core/deutsche_schreibweise_q.py:55-70 | rules shadowed by two earlier rules change nothing: the table behaves as the two alone |
| Substrings.KeepsAbsent | modules/core/core/deutsche_schreibweise_q.py:132-133 | a pattern absent from the text stays absent through a table whose replacements cannot create it |
| Decimal.Digits | lib/manuscript_processor.py:161 | decimal digits of a natural number, at least one, with no leading zero except for 0 |
| Decimal.ZeroPad | lib/manuscript_processor.py:161 | `:04d` formatting is all digits, as wide as the width or the number, whichever is wider |
| Decimal.DigitsRoundTrip | lib/manuscript_processor.py:161 | reading the digits back gives the number |
| Decimal.ZeroPadRoundTrip | lib/manuscript_processor.py:161 | reading a zero-padded number back gives the number |
| Decimal.ZeroPadInjective | lib/manuscript_processor.py:161 | different numbers pad to different strings |
| Decimal.ChunkIdInjective | lib/manuscript_processor.py:161 | `CHUNK_{n:04d}` ids are equal exactly when the numbers are, also beyond 9999 |
| Decimal.BatchIdInjective | lib/manuscript_processor.py:217 | `BATCH_{n:03d}` ids are equal exactly when the numbers are |
| Decimal.ChunkIdExample | lib/manuscript_processor.py:161 | example on fixed inputs: chunk 1 is `CHUNK_0001`, chunk 1342 is `CHUNK_1342`; the all-inputs statement is Decimal.ChunkIdInjective |
| Gematria.CalculateGematriaMethods | lib/manuscript_processor.py:63-87 | the four values are the standard, small, full and ordinal sums of the text, and ordinal ≤ small ≤ 9·ordinal |
| Gematria.CalculateGematria | lib/manuscript_processor.py:55-61 | the loop's total is the standard sum, and dropping an unrecognised character leaves it unchanged |
| Gematria.StandardAdditive | lib/manuscript_processor.py:55-61 | the standard value of a concatenation is the sum of the parts' values |
| Gematria.SmallBetweenOrdinalBounds | lib/manuscript_processor.py:69-86 | for every text the small value lies between the ordinal value and nine times it |
| Gematria.FinalFormsMissFull | lib/manuscript_processor.py:73-80 | a final letter adds nothing to the full value but adds its weight to the standard value and one to the ordinal |
| Gematria.SchemesAreSpaceBlind | lib/manuscript_processor.py:24-31 | no whitespace character carries weight in any of the four tables |
| Gematria.NormalizeKeepsWeights | lib/manuscript_processor.py:113 | normalising whitespace keeps every weight sum of the text |
| Wwaq.ActingRules | lib/manuscript_processor.py:94-95 | the rules with `old != new`, in table order |
| Wwaq.ActingReplacements | lib/manuscript_processor.py:34-41 | exactly כבלה → קבלה and כוונה → קוונה act; the other two entries map to themselves |
| Wwaq.ChangeText | lib/manuscript_processor.py:98-106 | a literal log line starts with the replaced pattern; the structural rule logs its fixed line |
| Wwaq.ApplyLiteral | lib/manuscript_processor.py:94-98 | the text is every rule's `replace` in order; each log entry belongs to an acting rule with a positive count; the logged rules keep table order; Wwaq.ApplyLiteralLogsAtTurn and Wwaq.ApplyLiteralEntriesAtTurn state the logged counts |
| Wwaq.ApplyLiteralLength | lib/manuscript_processor.py:96-97 | the new length is the old one plus the logged counts times each rule's length difference |
| Wwaq.ApplyLiteralQuiet | lib/manuscript_processor.py:94-98 | the log is empty exactly when no acting pattern occurs at its turn, and then the text is unchanged |
| Wwaq.ApplyLiteralLogsAtTurn | lib/manuscript_processor.py:94-98 | an acting rule is logged with its pattern's occurrence count in the text it sees at its turn exactly when the pattern occurs there |
| Wwaq.ApplyLiteralEntriesAtTurn | lib/manuscript_processor.py:94-98 | every logged count is its rule's occurrence count just before that rule's replacement |
| Wwaq.MatchLetters | lib/manuscript_processor.py:103 | `כ\s*ב\s*ל\s*ה` matched at the start: the match starts with the first letter and is at least as long as the letters |
| Wwaq.MatchCoversLetters | lib/manuscript_processor.py:103 | a match with its whitespace removed is exactly the letters |
| Wwaq.ContiguousLettersMatch | lib/manuscript_processor.py:103 | the contiguous letters are matched with length four |
| Wwaq.ApplyStructural | lib/manuscript_processor.py:101-106 | without the guard the result is the input; with it, the text is the `re.sub` rewrite of every separated match to קבלה, the separated form is logged once and no match remains |
| Wwaq.NoSearchAfterRewrite | lib/manuscript_processor.py:104-105 | after `re.sub` the pattern can be found nowhere |
| Wwaq.StructuralRewritesEveryMatch | lib/manuscript_processor.py:101-106 | under the guard, the text outside the leftmost matches is kept in order and every match, the letters כ ב ל ה with only whitespace between them, becomes קבלה |
| Wwaq.ApplyWwaqTransformation | lib/manuscript_processor.py:89-108 | at most three log entries; literal entries have positive counts and belong to the two acting rules; only the last entry can be the structural one; the counts are stated by Wwaq.TransformationLogsKabbala, TransformationLogsKawwana and TransformationEntriesAtTurn |
| Wwaq.TransformationLogsAtTurn | lib/manuscript_processor.py:94-108 | after the structural stage too, an acting table rule is logged with its count at its turn exactly when its pattern occurs then |
| Wwaq.TransformationLogsKabbala | lib/manuscript_processor.py:94-98 | כבלה is logged with its number of occurrences in the input exactly when it occurs there |
| Wwaq.TransformationLogsKawwana | lib/manuscript_processor.py:94-98 | כוונה is logged with its number of occurrences in the text after כבלה was replaced, exactly when it occurs there |
| Wwaq.TransformationEntriesAtTurn | lib/manuscript_processor.py:94-108 | every literal entry of the final log is a table rule with its count at its turn |
| Wwaq.StructuralKeepsLiteralLog | lib/manuscript_processor.py:101-106 | the structural stage only appends its own entry: literal entries keep their positions |
| Wwaq.LiteralLogShape | lib/manuscript_processor.py:94-98 | the literal stage logs at most the two acting rules |
| Wwaq.LiteralStageRemovesLegacy | lib/manuscript_processor.py:94-98 | after the literal stage neither כבלה nor כוונה occurs |
| Wwaq.LiteralStageQuiet | lib/manuscript_processor.py:94-98 | a text without either legacy spelling passes the literal stage unchanged with an empty log |
| Wwaq.TransformationRemovesLegacy | lib/manuscript_processor.py:89-108 | no transformed text contains כבלה or כוונה |
| Wwaq.TransformationIdempotent | lib/manuscript_processor.py:89-108 | transforming the output again changes nothing and logs nothing |
| Wwaq.FullySeparatedIsKept | lib/manuscript_processor.py:101 | the fully separated "כ ב ל ה" matches the pattern yet passes unchanged, because the guard asks for a contiguous בלה |
| Wwaq.UnguardedTextKept | lib/manuscript_processor.py:94-106 | a text without כבלה, כוונה and בלה comes back unchanged with an empty log |
| Wwaq.MatchLettersSeparatedExample | lib/manuscript_processor.py:103 | example on fixed inputs: the pattern matches all seven characters of "כ ב ל ה"; the all-inputs statement is Wwaq.MatchLetters |
| Batching.Slices | lib/manuscript_processor.py:213-214 | `range(0, n, size)` slices are each non-empty and at most `size` long |
| Batching.SlicesConcat | lib/manuscript_processor.py:213-214 | the slices, concatenated, are the input |
| Batching.SlicesCount | lib/manuscript_processor.py:213 | there are ⌈n / size⌉ slices, none for empty input |
| Batching.SliceAt | lib/manuscript_processor.py:213-214 | slice k is `xs[k*size : k*size + size]` |
| Chunking.SeparatorLength | lib/manuscript_processor.py:116 | a separator `[.!?:]\s+` is a terminator followed by the whole whitespace run; none exactly when no terminator-plus-space starts here |
| Chunking.SplitFrom | lib/manuscript_processor.py:116 | `re.split` with a capture group gives an odd number of pieces that concatenate back to the text |
| Chunking.SplitFromPieces | lib/manuscript_processor.py:116 | even pieces contain no separator, odd pieces are separators |
| Chunking.SplitSentences | lib/manuscript_processor.py:116 | the split of the cleaned text: odd length, concatenating to the text |
| Chunking.Units | lib/manuscript_processor.py:122-124 | sentences paired with their separators: ⌈pieces / 2⌉ units concatenating to the same text |
| Chunking.UnitsAt | lib/manuscript_processor.py:122-124 | unit k is `sentences[2k]` followed by `sentences[2k+1]` when there is one |
| Chunking.Group | lib/manuscript_processor.py:119-136 | the grouped chunks concatenate to the pending text plus all units, and none is empty |
| Chunking.GroupBounded | lib/manuscript_processor.py:126-130 | each chunk is within the size, or is the starting text, or is a single oversized unit |
| Chunking.GroupHasText | lib/manuscript_processor.py:127-135 | when units and pending text have text, so does every chunk |
| Chunking.RawChunks | lib/manuscript_processor.py:113-136 | unstripped chunks concatenate to the cleaned text and are non-empty |
| Chunking.RawChunksBounded | lib/manuscript_processor.py:126-130 | a chunk longer than `chunk_size` is one sentence with its separator |
| Chunking.RawChunksEndInSpace | lib/manuscript_processor.py:116-136 | every raw chunk but the last ends in whitespace, since a chunk is only closed after a sentence's separator |
| Chunking.NormalizedUnitsHaveText | lib/manuscript_processor.py:113-124 | every unit of the cleaned text is empty or holds a non-space |
| Chunking.RawChunksHaveText | lib/manuscript_processor.py:127-135 | every chunk holds a non-space character |
| Chunking.ChunkTexts | lib/manuscript_processor.py:127-136 | the stripped chunk texts, one per raw chunk, all non-empty |
| Chunking.StripEach | lib/manuscript_processor.py:128 | stripping each chunk keeps the count and, for chunks with text, non-emptiness |
| Chunking.NoChunksIffBlank | lib/manuscript_processor.py:110-138 | there are no chunks exactly when the text is all whitespace |
| Manuscript.KeyTermsOf | lib/manuscript_processor.py:149-158 | each recorded term occurs in the text, is non-empty, has a positive count and carries its standard gematria |
| Manuscript.KeyTermsComplete | lib/manuscript_processor.py:149-158 | the recorded glosses are the glossary entries occurring in the text, in glossary order, and none is missed |
| Manuscript.KeyTermCounts | lib/manuscript_processor.py:152 | each recorded count is `text.count(term)` |
| Manuscript.KeyTermsAreGlossary | lib/manuscript_processor.py:150-151 | every recorded term is a glossary entry |
| Manuscript.CreateChunk | lib/manuscript_processor.py:140-172 | the chunk has the formatted id, the original text and the creation time, and its transformed text and metadata are those of its original |
| Manuscript.CreateChunkMeta | lib/manuscript_processor.py:143-169 | a chunk's transformed text has no legacy spelling; its gematria bounds hold; at most three changes; length is the text length and words its word count; key terms occur in the text |
| Manuscript.ChunksOf | lib/manuscript_processor.py:128-136 | the k-th chunk has id `CHUNK_{k+1}` and the k-th text |
| Manuscript.ExtractChunks | lib/manuscript_processor.py:110-138 | one chunk per chunk text |
| Manuscript.ExtractChunksAt | lib/manuscript_processor.py:110-138 | chunk k has id `CHUNK_{k+1}`, the k-th non-empty chunk text, and consistent metadata |
| Manuscript.ChunkIdsDistinct | lib/manuscript_processor.py:120-136 | no two chunks share an id |
| Manuscript.NoChunksIffBlankText | lib/manuscript_processor.py:110-138 | `extract_chunks` returns nothing exactly for an all-whitespace text |
| Manuscript.Tally | lib/manuscript_processor.py:184-194 | the frequency map has exactly the recorded keys, each mapped to the sum of its entries |
| Manuscript.TallyPositive | lib/manuscript_processor.py:184-194 | when every entry counts positively, every frequency is positive |
| Manuscript.Average | lib/manuscript_processor.py:202 | integer average: 0 for no chunks, otherwise the floor of total / n |
| Manuscript.AnalyzeManuscript | lib/manuscript_processor.py:174-207 | the analysis holds the extracted chunks, their count, their summed gematria and its average, the summed word count, which equals the word count of the whole text, and the tallies of key terms and of transformation lines |
| Manuscript.StripEachKeepsGematria | lib/manuscript_processor.py:128 | stripping the chunks keeps their summed gematria |
| Manuscript.ChunksOfTotal | lib/manuscript_processor.py:183 | the summed chunk gematria is the gematria of the chunk texts |
| Manuscript.TotalGematriaIsTextGematria | lib/manuscript_processor.py:174-204 | the total gematria of all chunks is the gematria of the whole input text |
| Manuscript.TotalWords | lib/manuscript_processor.py:200 | `total_words`, the sum of the chunks' `words`; its contract-bearing partner is Manuscript.TotalWordsIsTextWords |
| Manuscript.WordCountOfConcat | lib/manuscript_processor.py:166 | texts each closed by whitespace, save the last, hold as many words together as apart |
| Manuscript.TotalWordsIsTextWords | lib/manuscript_processor.py:110-138 | the word counts of the chunks add up to the word count of the input text: chunking loses no word |
| Manuscript.KeyTermEntriesRecords | lib/manuscript_processor.py:186-188 | every key-term entry of consistent chunks is a glossary term with a positive count |
| Manuscript.AnalysisTables | lib/manuscript_processor.py:184-204 | every key in the key-term table is a glossary term with positive frequency; every transformation line has positive frequency |
| Manuscript.ChangeEntriesPositive | lib/manuscript_processor.py:190-194 | every transformation line is counted once per occurrence |
| Manuscript.ProcessManuscript | lib/manuscript_processor.py:278-281 | the analysis names the file and counts the chunk texts |
| Manuscript.ItemOf | lib/manuscript_processor.py:221-226 | a batch item carries the chunk's id, transformed text, key terms and, as `gematria_hint`, the standard gematria |
| Manuscript.BatchOf | lib/manuscript_processor.py:216-229 | a batch has id `BATCH_{n:03d}` and the ids and items of its group |
| Manuscript.CreateTranslationBatch | lib/manuscript_processor.py:209-233 | fails exactly for batch size 0 (`range` step zero); a negative size gives no batches; otherwise ⌈n / size⌉ batches |
| Manuscript.BatchAt | lib/manuscript_processor.py:213-229 | batch k has id `BATCH_{k+1}`, the instruction, and the ids and items of slice k, with 1 to size items |
| Manuscript.BatchesCoverChunks | lib/manuscript_processor.py:213-231 | the batches' chunk ids, concatenated, are the chunk ids in order, in ⌈n / size⌉ batches |
| Manuscript.CreateTranslationBatches | lib/manuscript_processor.py:283-286 | fails exactly for batch size 0; no batches exactly for a negative size or no chunks |
| Manuscript.AllKept | lib/manuscript_processor.py:265-268 | true exactly when every key term occurs in the translation |
| Manuscript.HasContent | lib/manuscript_processor.py:262 | true exactly when the translation is not all whitespace |
| Manuscript.WwaqConform | lib/manuscript_processor.py:263-264 | true exactly when no forbidden spelling occurs in the lower-cased translation |
| Manuscript.ReasonableLength | lib/manuscript_processor.py:269 | true exactly when the length ratio lies in [0.5, 2.0] |
| Manuscript.RatioBounds | lib/manuscript_processor.py:269 | the ratio bounds in whole numbers: o ≤ 2t and t ≤ 2o |
| Manuscript.ValidateChunkTranslation | lib/manuscript_processor.py:259-275 | fails exactly for an empty original (division by zero); otherwise the four checks, and valid exactly when all hold |
| Manuscript.SelfTranslationPasses | lib/manuscript_processor.py:259-275 | a chunk's own text as translation has content, keeps every key term and has ratio 1 |
| Manuscript.ExtractedChunksSelfValidate | lib/manuscript_processor.py:110-275 | for every extracted chunk, its own text passes the content, key-term and length checks |
| Hns10.NumeralKeys | lib/hns10_spiral_system.py:23-29 | every unit and every ten has a letter; a hundred has one exactly up to 400 |
| Hns10.NumeralsAgreeWithGematria | lib/hns10_spiral_system.py:23-29 | each numeral letter weighs its own value in the gematria table |
| Hns10.TensOnes | lib/hns10_spiral_system.py:97-110 | at most two numeral letters, none exactly for 0 |
| Hns10.TensOnesValue | lib/hns10_spiral_system.py:97-110 | the tens and ones letters add up to the value, 15 and 16 included |
| Hns10.Below1000 | lib/hns10_spiral_system.py:91-110 | fails exactly when the hundreds digit exceeds 4, with the missing key; otherwise numeral letters, none exactly for 0 |
| Hns10.Below1000Value | lib/hns10_spiral_system.py:91-110 | a group's letters add up to its value |
| Hns10.Encode | lib/hns10_spiral_system.py:74-112 | zero raises the null taboo; a negative number is "-" and its magnitude's numeral |
| Hns10.EncodeStartsWithLetter | lib/hns10_spiral_system.py:84-110 | a positive numeral starts with a numeral letter |
| Hns10.ThousandsShape | lib/hns10_spiral_system.py:84-89 | from 1000 on, a numeral is the thousands, a geresh and the rest's group |
| Hns10.PositiveRoundTrip | lib/hns10_spiral_system.py:74-112 | reading a positive numeral back gives its number |
| Hns10.EncodeRoundTrip | lib/hns10_spiral_system.py:74-112 | every numeral, with its sign, reads back as its number |
| Hns10.EncodeSucceedsIff | lib/hns10_spiral_system.py:74-112 | succeeds exactly for non-zero numbers whose every three-digit group has hundreds digit ≤ 4; any other failure is the missing key 500 to 900 |
| Hns10.EncodePositiveIff | lib/hns10_spiral_system.py:85-95 | a positive number encodes exactly when every three-digit group has hundreds digit ≤ 4; otherwise the missing key is 500 to 900 |
| Hns10.SmallValues | lib/hns10_spiral_system.py:91-110 | 1 to 499 always encode, without a geresh, as letters summing to the number |
| Hns10.ThousandsSplit | lib/hns10_spiral_system.py:84-89 | the thousands, a geresh, then the rest's numeral, omitted when the rest is 0 |
| Hns10.EncodeEndsWithGroup | lib/hns10_spiral_system.py:84-110 | a positive numeral ends with the letters of its last three digits |
| Hns10.FifteenSixteen | lib/hns10_spiral_system.py:98-102 | a number ending in 15 or 16 has a numeral ending in טו or טז |
| Hns10.Example115 | lib/hns10_spiral_system.py:91-102 | example on fixed inputs: 115 is קטו; the all-inputs statement is Hns10.EncodeRoundTrip |
| Hns10.EncodingAvoidsDivineNames | lib/hns10_spiral_system.py:98-102 | no numeral contains יה or יו |
| Hns10.Hundreds | lib/hns10_spiral_system.py:92-95 | corrected hundreds letters: numeral letters, none exactly for digit 0 |
| Hns10.HundredsValue | lib/hns10_spiral_system.py:92-95 | the corrected hundreds letters weigh a hundred times the digit |
| Hns10.Below1000Intended | lib/hns10_spiral_system.py:91-110 | a corrected group is numeral letters, none exactly for 0 |
| Hns10.Below1000IntendedValue | lib/hns10_spiral_system.py:91-110 | a corrected group's letters add up to its value |
| Hns10.Below1000Extends | lib/hns10_spiral_system.py:91-110 | where the table has the hundreds letter, the corrected group equals the written one |
| Hns10.EncodeIntended | lib/hns10_spiral_system.py:74-112 | the corrected encoder fails exactly for zero, with the null taboo; negatives carry a minus; positives start with a letter |
| Hns10.IntendedShape | lib/hns10_spiral_system.py:84-110 | a corrected numeral below 1000 is its group; from 1000 on, the thousands, a geresh and the rest's group |
| Hns10.EncodeIntendedExtends | lib/hns10_spiral_system.py:74-112 | wherever the encoder as written returns, the corrected one returns the same numeral |
| Hns10.IntendedPositiveRoundTrip | lib/hns10_spiral_system.py:74-112 | a positive corrected numeral reads back as its number |
| Hns10.EncodeIntendedRoundTrip | lib/hns10_spiral_system.py:74-112 | every non-zero number has a corrected numeral, and it reads back as the number |
| Hns10.Encode500 | lib/hns10_spiral_system.py:92-95 | 500 fails with the missing key 500 as written, and is תק when corrected |
| Hns10.OmerSplit | lib/hns10_spiral_system.py:196-201 | refuses days outside 1..49; otherwise week and weekday in 1..7 with day = 7·(week−1) + weekday |
| Hns10.OmerSplitInverse | lib/hns10_spiral_system.py:200-201 | every (week, weekday) pair comes from its day |
| Hns10.OmerSplitInjective | lib/hns10_spiral_system.py:200-201 | different days have different pairs |
| Hns10.GenerateOmerPath | lib/hns10_spiral_system.py:194-214 | refuses days outside 1..49; otherwise the week and weekday Sefirot, the combination "<day> שב<week>", and the day's numeral, which reads back as the day |
| Hns10.OmerGrad | lib/hns10_spiral_system.py:213 | an Omer day's numeral is the same under both encoders and reads back as the day |
| Hns10.OmerPathCorners | lib/hns10_spiral_system.py:204-212 | example on fixed inputs: day 1 is חסד שבחסד and day 49 is מלכות שבמלכות; the all-inputs statement is Hns10.GenerateOmerPath |
| Hns10.GematriaAgrees | lib/hns10_spiral_system.py:176-192 | this file's gematria equals the manuscript processor's standard value on every text |
| Hns10.CalculateGematria | lib/hns10_spiral_system.py:176-192 | the spiral system's `calculate_gematria`; Hns10.GematriaAgrees proves it equal to the manuscript processor's standard value |
| Hns10.NewSpiralCoordinate | lib/hns10_spiral_system.py:49-51 | a coordinate is built exactly when its grad is not 0, with the given fields |
| Hns10.CoordinateGradNotTaboo | lib/hns10_spiral_system.py:47-51 | a built coordinate's grad escapes the null taboo and has a corrected numeral that reads back as the grad |
| Hns10.AcceptsValue | lib/hns10_spiral_system.py:216-226 | numbers and booleans pass exactly when non-zero or true; dicts, lists and None pass |
| Hns10.FirstRefused | lib/hns10_spiral_system.py:240-245 | no answer exactly when every entry is accepted; otherwise the key of a refused entry |
| Hns10.CheckNestedFindsFirst | lib/hns10_spiral_system.py:240-248 | the recursive walk reports the first refused entry in depth-first order of all dict entries |
| Hns10.CheckNested | lib/hns10_spiral_system.py:240-248 | `validate_recursive`; Hns10.CheckNestedFindsFirst proves that it reports the first refused dictionary entry, depth first |
| Hns10.ScalarListPasses | lib/hns10_spiral_system.py:246-248 | a list of scalars passes whatever it holds |
| Hns10.ZeroInListNotRejected | lib/hns10_spiral_system.py:240-248 | a zero under a key is refused, a zero inside a list is not |
| Hns10.FormatForYaml | lib/hns10_spiral_system.py:228-251 | for any data, a dictionary, list or plain value: success wraps the data under the header; failure names the key of a refused entry |
| Hns10.FormatForYamlChecksData | lib/hns10_spiral_system.py:228-251 | with a header that passes, formatting succeeds exactly when the data passes, and fails with the data's first refused key |
| Hns10.FormatForYamlRefusesZeroContent | lib/hns10_spiral_system.py:228-251 | data that is itself a refused value fails under the key "content" |
| Hns10.ValidateWwaqText | lib/hns10_spiral_system.py:263-274 | each violation holds exactly under its condition, and the text is valid exactly when none does |
| Hns10.EncodeChars | lib/hns10_spiral_system.py:74-112 | a numeral is numeral letters, the minus sign and the geresh |
| Hns10.NumeralsPassWwaq | lib/hns10_spiral_system.py:263-274 | every numeral passes the WWAQ text check |
| Hns10.WwaqTextCaseBlind | lib/hns10_spiral_system.py:263-269 | lower-casing the text first does not change the report |
| Formatter.IdRun | lib/yaml_ez_chajim_formatter.py:320-323 | a run of `count` consecutive chunk ids from `start` |
| Formatter.IdRunAppend | lib/yaml_ez_chajim_formatter.py:320-324 | two adjacent runs are one longer run |
| Formatter.PlacedCount | lib/yaml_ez_chajim_formatter.py:309-318 | the first d days hold d·⌊n/49⌋ + min(d, n mod 49) chunks, none for n ≤ 0 |
| Formatter.CreateStudySchedule | lib/yaml_ez_chajim_formatter.py:307-326 | 49 days, each with its size, whose lists concatenate to CHUNK_0001 … CHUNK_n |
| Formatter.ScheduleStep | lib/yaml_ez_chajim_formatter.py:320-324 | appending the next day's run keeps the schedule a prefix of the id run |
| Formatter.DaySizesBalanced | lib/yaml_ez_chajim_formatter.py:309-318 | earlier days hold at most one more chunk than later ones, and all n chunks are placed |
| Formatter.Schedule1342 | lib/yaml_ez_chajim_formatter.py:307-318 | example on fixed inputs: for 1342 chunks, days 1–19 hold 28 and days 20–49 hold 27; the all-inputs statement is Formatter.DaySizesBalanced |
| Formatter.ScheduleIdsDistinct | lib/yaml_ez_chajim_formatter.py:320-324 | no chunk id is scheduled twice |
| Formatter.GenerateStudyFocus | lib/yaml_ez_chajim_formatter.py:185-204 | week 1 uses its seven themes, other weeks "<day> in <week>"; the meditation and practice name both Sefirot |
| Formatter.FormatOmerStudyPath | lib/yaml_ez_chajim_formatter.py:154-175 | refuses days outside 1..49; otherwise day, date text and assigned chunks as given |
| Formatter.OmerStudyAgreesWithSpiral | lib/yaml_ez_chajim_formatter.py:161-174 | the study's Sefirot and focus are those of the spiral system's Omer path |
| Formatter.StudyFocusOfDay | lib/yaml_ez_chajim_formatter.py:187-198 | days 1–7 get the week-1 themes; later days get "<day-sefira> in <week-sefira>" |
| Formatter.FirstOccurring | lib/yaml_ez_chajim_formatter.py:237-240 | no answer exactly when no term occurs; otherwise a term that occurs |
| Formatter.ValidateWwaq | lib/yaml_ez_chajim_formatter.py:232-248 | valid exactly when none of kabbala, kawana, zerstör, zerbrech occurs case-blind |
| Formatter.FormatterCheckStricter | lib/yaml_ez_chajim_formatter.py:237-240 | text this check passes also passes the manuscript processor's check and has no spiral-system spelling violation |
| Formatter.ZerbrechOnlyHere | lib/yaml_ez_chajim_formatter.py:237 | "zerbrechen" passes the manuscript processor's check but not this one |
| Formatter.MergeTranslations | lib/yaml_ez_chajim_formatter.py:289-305 | chunks keep order and content; a chunk with a translation gets it with metadata (translated, date, validated); others are untouched |
| Formatter.MergeOne | lib/yaml_ez_chajim_formatter.py:294-303 | one step of the merge loop; its effect is stated by Formatter.MergeTranslations |
| Formatter.MergeIdempotent | lib/yaml_ez_chajim_formatter.py:289-305 | merging the same translations twice is merging once |
| Formatter.MergeNothing | lib/yaml_ez_chajim_formatter.py:294-305 | merging no translations returns the chunks |
| Formatter.FormatForClaudeBatch | lib/yaml_ez_chajim_formatter.py:333-346 | fails exactly for batch size 0; a negative size gives no batches; otherwise ⌈n / size⌉ batches |
| Formatter.ClaudeBatchesCover | lib/yaml_ez_chajim_formatter.py:338-344 | the batches concatenate to the chunks, each with its `BATCH_{k+1}` id, the fixed instruction and 1 to size chunks |
| Formatter.ClaudeBatchesMatchTranslationBatches | lib/yaml_ez_chajim_formatter.py:338-344 | these batches have the same count, ids and chunk ids as the manuscript processor's |
| Schreibweise.TransliterateUntouched | modules/core/core/deutsche_schreibweise_q.py:129-135 | a text holding no Q-rule pattern is returned unchanged |
| Schreibweise.Transliterate | modules/core/core/deutsche_schreibweise_q.py:129-135 | `transliteriere`; what it does to text is stated by Schreibweise.TransliterateUntouched, TransliterateByFamilies, TransliterateLeavesPlainText and the head lemmas below |
| Schreibweise.TransliterateByFamilies | modules/core/core/deutsche_schreibweise_q.py:53-127 | the table is applied as its families in declaration order |
| Schreibweise.TransliterateLeavesPlainText | modules/core/core/deutsche_schreibweise_q.py:129-135 | a text without K, k, v, s, h, i or " is unchanged |
| Schreibweise.KabbalahRulesDead | modules/core/core/deutsche_schreibweise_q.py:55-58 | the "Kabbalah" rules never fire: "Kabbala" was replaced first |
| Schreibweise.KabbalaHead | modules/core/core/deutsche_schreibweise_q.py:55-58 | "Kabbala…" becomes "Qabbala…" with the rest kept |
| Schreibweise.KabbalahKeepsH | modules/core/core/deutsche_schreibweise_q.py:55-58 | "Kabbalah" becomes "Qabbalah", not "Qabbala" |
| Schreibweise.GevuraHead | modules/core/core/deutsche_schreibweise_q.py:81-84 | "Gevura…" becomes "Gewura…" with the rest kept |
| Schreibweise.GevurahKeepsH | modules/core/core/deutsche_schreibweise_q.py:81-84 | "Gevurah" becomes "Gewurah", not "Gewura" |
| Schreibweise.KlipaRulesDead | modules/core/core/deutsche_schreibweise_q.py:63-70 | the Klipa/Klipot rules never fire: "Kli" was replaced first |
| Schreibweise.KliHead | modules/core/core/deutsche_schreibweise_q.py:63-64 | "Kli…" becomes "Qli…" with the rest kept |
| Schreibweise.KlippotKeepsPp | modules/core/core/deutsche_schreibweise_q.py:63-70 | "Klippot" becomes "Qlippot", not "Qlipot" |
| Orthografie.PruefeArtikel | modules/core/core/deutsche_schreibweise_q.py:173-179 | correct exactly for an unknown word or a case-blind match; otherwise the correction text |
| Orthografie.ArtikelValues | modules/core/core/deutsche_schreibweise_q.py:145-161 | every table article is der, die or das |
| Orthografie.PruefeArtikelCaseBlind | modules/core/core/deutsche_schreibweise_q.py:177 | lower-casing the article first keeps the verdict |
| Orthografie.TableArticlePasses | modules/core/core/deutsche_schreibweise_q.py:175-179 | the table's article passes without message |
| Orthografie.PruefeArtikelExamples | modules/core/core/deutsche_schreibweise_q.py:145-179 | example on fixed inputs: "Die Qabbala" and "das Bereschit" pass, "der Qli" does not; the all-inputs statement is Orthografie.PruefeArtikelCaseBlind |
| Orthografie.GenusOf | modules/core/core/deutsche_schreibweise_q.py:181-186 | no genus exactly when no ending matches; otherwise the genus of the first matching ending |
| Orthografie.GenusNeedsHyphen | modules/core/core/deutsche_schreibweise_q.py:164-186 | as written, only a word holding '-' gets a genus |
| Orthografie.BestimmeGenus | modules/core/core/deutsche_schreibweise_q.py:181-186 | `bestimme_genus` as written; Orthografie.GenusNeedsHyphen and OffenbarungHasNoGenus state what it returns |
| Orthografie.OffenbarungHasNoGenus | modules/core/core/deutsche_schreibweise_q.py:164-186 | as written, "Offenbarung" gets no genus |
| Orthografie.IntendedEndingsUnrelated | modules/core/core/deutsche_schreibweise_q.py:164-171 | no intended ending is a suffix of another, so at most one matches |
| Orthografie.IntendedEndingGivesItsGenus | modules/core/core/deutsche_schreibweise_q.py:164-186 | any word with an intended ending gets that ending's genus |
| Orthografie.IntendedGenusExamples | modules/core/core/deutsche_schreibweise_q.py:164-186 | example on fixed inputs: with the intended endings, "Offenbarung" is feminine and "Lehrer" masculine; the all-inputs statement is Orthografie.IntendedEndingGivesItsGenus |
| Orthografie.Without | modules/core/core/deutsche_schreibweise_q.py:229 | the list without the word, order kept |
| Orthografie.Related | modules/core/core/deutsche_schreibweise_q.py:224-230 | exactly the other words of every field holding the word |
| Orthografie.FindeVerwandteBegriffe | modules/core/core/deutsche_schreibweise_q.py:224-230 | a word is never related to itself |
| Orthografie.RelatedSymmetric | modules/core/core/deutsche_schreibweise_q.py:212-230 | b is related to w exactly when w is related to b |
| Orthografie.VerwandteExample | modules/core/core/deutsche_schreibweise_q.py:212-230 | example on fixed inputs: "Qelim" is related to "Qli"; the all-inputs statement is Orthografie.FindeVerwandteBegriffe |
| Orthografie.StilProbleme | modules/core/core/deutsche_schreibweise_q.py:272-279 | no problem exactly when no expression occurs case-blind; each message names an occurring expression, and every occurring expression gets its message |
| Orthografie.PruefeStil | modules/core/core/deutsche_schreibweise_q.py:269-279 | at most one message per anthropomorphic expression; an expression of the list draws its message exactly when it occurs case-blind |
| Orthografie.PruefeStilCaseBlind | modules/core/core/deutsche_schreibweise_q.py:275 | lower-casing the text first gives the same messages |
| Orthografie.StilQuietWithoutSpace | modules/core/core/deutsche_schreibweise_q.py:256-279 | a text without a space raises no style problem |
| Orthografie.OnlyGottWillHasAlternative | modules/core/core/deutsche_schreibweise_q.py:256-267 | only "Gott will" has an alternative; the other messages show an empty one |
| Orthografie.ZerStep | modules/core/core/deutsche_schreibweise_q.py:308-314 | logs exactly when the pattern occurs, then replaces it; otherwise changes nothing |
| Orthografie.EliminateZerWith | modules/core/core/deutsche_schreibweise_q.py:303-316 | the log is a subsequence of each rule's plain and capitalised entries, in order |
| Orthografie.EliminiereZer | modules/core/core/deutsche_schreibweise_q.py:303-316 | at most two log lines per rule |
| Orthografie.EliminiereZerQuiet | modules/core/core/deutsche_schreibweise_q.py:303-316 | a text without any pattern, plain or capitalised, is unchanged with an empty log |
| Orthografie.ZerQuietWithoutE | modules/core/core/deutsche_schreibweise_q.py:288-316 | a text without 'e' is unchanged with an empty log |
| Orthografie.CapitalisedKeyLoggedOnce | modules/core/core/deutsche_schreibweise_q.py:308-314 | a capitalised key is its own capitalisation, so it is logged at most once |
| Orthografie.ZerstoerungLoggedOnce | modules/core/core/deutsche_schreibweise_q.py:294-314 | "Zerstörung" → "Wandlung" is logged at most once |
| Werkzeuge.WerkzeugWeightIsStandardWithoutFinals | modules/core/core/deutsche_schreibweise_q.py:362-368 | the tool's letter weight is the standard one, except 0 for final forms |
| Werkzeuge.GematriaBerechnungVsStandard | modules/core/core/deutsche_schreibweise_q.py:360-369 | the tool's gematria never exceeds the standard value and equals it without final forms |
| Werkzeuge.GematriaBerechnung | modules/core/core/deutsche_schreibweise_q.py:360-369 | `gematria_berechnung`; Werkzeuge.GematriaBerechnungVsStandard relates it to the standard value |
| Werkzeuge.SilbenTrennung | modules/core/core/deutsche_schreibweise_q.py:371-390 | syllables concatenate to the word, none empty for a non-empty word; a cut falls after position j exactly where the rule cuts and j is not last |
| Werkzeuge.StripFirstSuffix | modules/core/core/deutsche_schreibweise_q.py:410-417 | a prefix of the word, unchanged exactly when no suffix matches; otherwise the word minus the first matching suffix |
| Werkzeuge.ExtrahiereStamm | modules/core/core/deutsche_schreibweise_q.py:410-417 | the stem is a prefix of the word |
| Werkzeuge.ExtrahiereStammExamples | modules/core/core/deutsche_schreibweise_q.py:410-417 | example on fixed inputs: "Offenbarung" gives "Offenbar"; "Zimzum" is kept; the all-inputs statement is Werkzeuge.ExtrahiereStamm |
| Werkzeuge.FindePraefixe | modules/core/core/deutsche_schreibweise_q.py:419-426 | exactly the listed prefixes the word starts with, in list order |
| Werkzeuge.FindeSuffixe | modules/core/core/deutsche_schreibweise_q.py:428-435 | exactly the listed suffixes the word ends with, in list order |
| Werkzeuge.FoundAffixesNest | modules/core/core/deutsche_schreibweise_q.py:419-435 | of two found prefixes the shorter starts the longer; of two suffixes the shorter ends the longer |
| Werkzeuge.BestimmeWortart | modules/core/core/deutsche_schreibweise_q.py:437-446 | fails exactly for the empty word (`wort[0]`); noun exactly for a capital initial; otherwise verb exactly with a verb ending, adjective exactly with an adjective ending, and undetermined exactly with neither |
| Werkzeuge.CapitalisedIsSubstantiv | modules/core/core/deutsche_schreibweise_q.py:440-441 | a capitalised word starting with a letter is a noun |
| Werkzeuge.VerbAndAdjektivEndingsDisjoint | modules/core/core/deutsche_schreibweise_q.py:442-445 | no word has both a verb and an adjective ending |
| Pruefung.SchlussSichern | modules/core/core/deutsche_schreibweise_q.py:491-493 | the result, stripped, ends with "Q!"; exactly when it was missing, the result is the text without trailing whitespace followed by "\n\nQ!"; otherwise the text is kept |
| Pruefung.SchlussSichernIdempotent | modules/core/core/deutsche_schreibweise_q.py:491-493 | securing the ending twice appends nothing the second time |
| Pruefung.Abschluss | modules/core/core/deutsche_schreibweise_q.py:471-495 | the korrekturen are the transliteration line with the number of characters that disappeared, exactly when the text changed, followed by the zer- log unchanged; the style warnings of the zer-free text; a recommendation exactly when "Q!" was missing, with the secured text then |
| Pruefung.VollstaendigePruefung | modules/core/core/deutsche_schreibweise_q.py:462-495 | the corrected text always ends with "Q!" after stripping, with at most one recommendation and the style warnings of the zer-free text |
| Pruefung.AbschlussOfFinishedText | modules/core/core/deutsche_schreibweise_q.py:471-495 | an uncorrected text already ending in "Q!" gets no correction and no recommendation |
| Pruefung.PruefungKeepsFinishedText | modules/core/core/deutsche_schreibweise_q.py:462-495 | a text no rule changes that already ends in "Q!" comes back unchanged, with only style warnings |
| Pruefung.PruefungOfPlainFinishedText | modules/core/core/deutsche_schreibweise_q.py:462-495 | a finished text with none of the rules' letters comes back with no correction, warning or recommendation |
| Pruefung.PruefungOfSchlussAlone | modules/core/core/deutsche_schreibweise_q.py:462-495 | example on fixed inputs: "Q!" alone passes unchanged; the all-inputs statement is Pruefung.PruefungKeepsFinishedText |

## Left out

- Text.Lower and Text.Capitalize: case mapping covers the Latin-1 letters, umlauts included, because every word the rules name is written in them. Python's full Unicode case tables, including ß → SS, are not modelled. Hebrew letters have no case.
- The creation timestamp (`datetime.now().isoformat()`) and the merge date are parameters, not clock reads. All chunks of one `extract_chunks` call share one `created` value, whereas `_create_chunk` reads the clock once per chunk.
- The date and spiral time in the YAML header are parameters. `calculate_spiral_position` and its calendar lookups, with their float angles, are not modelled.
- File reading and writing, `yaml.dump`, `create_project_structure`, `format_chunk`, `generate_batch_yaml` and the YAML templates are not modelled. Only the data they would serialise is.
- `_create_translation_instruction` returns a fixed text; it is passed into batch creation as a parameter.
- Hns10.AcceptsValue: `float(value)` on strings is a parameter (`parse`), and floats are reals. Float zero is compared exactly, as in Python. NaN and the infinities, which are non-zero and pass, have no real of their own.
- Formatter.MergeTranslations validates the translation text itself rather than `str({'text': …})`. The wrapper adds only quotes, braces and the word "text", which cannot complete a forbidden term. Python's repr escaping is not modelled.
- Formatter.MergeTranslations returns new records, whereas the source mutates the chunk dictionaries in place.
- The `stil` parameter of `pruefe_stil` is unused in the source and is not modelled.
- `erklaere_begriff`, `etymologische_herkunft`, `_finde_betonung`, `_klassifiziere_laute`, `zeige_regeln` and the `konsonanten` map are explanatory output only.
- Werkzeuge.BestimmeWortart: `wort[0].isupper()` is modelled for ASCII and Latin-1 letters only. A word with another upper-case initial, such as Greek Σ, is a noun in Python but not in the model.
- Hns10.Value: dictionary keys are strings only. Python dictionaries with keys of other types are not represented.

## Findings

| source | as written | input that shows it | evidently intended | confidence | as-written member | corrected member |
|---|---|---|---|---|---|---|
| modules/core/core/deutsche_schreibweise_q.py:164-171 | every key of `genus_endungen` starts with '-', and `wort.endswith('-ung')` is false for ordinary words | `bestimme_genus("Offenbarung")` returns `None` | the comments name "die Offenbarung" and "der Lehrer", so the endings are "ung", "heit", … without the hyphen | not executed; high | Orthografie.OffenbarungHasNoGenus | Orthografie.IntendedEndingGivesItsGenus |
| lib/hns10_spiral_system.py:92-95 | the hundreds letter is looked up as `HEBREW_NUMERALS[hundreds * 100]`, and the table stops at 400 | `hebrew_to_hns10(500)` raises `KeyError` (as does 5785) | Hebrew numerals write 500–900 as ת followed by the rest (תק, תר, תש, תת, תתק), so every non-zero number has a numeral | not executed; medium | Hns10.Encode500 | Hns10.EncodeIntendedRoundTrip |

The structural WWAQ rule is guarded by `'בלה' in transformed`. So the fully separated "כ ב ל ה" is never rewritten, although the pattern matches it (Wwaq.FullySeparatedIsKept). The model follows the code here, not the broader description of the rule.

Batch size 0 fails in both batching functions, because `range` refuses step 0. A negative size yields no batches. The model follows the code rather than assuming a size of at least 1.
