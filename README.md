# naec-analyzer: a verified model of its parsers and queries

naec-analyzer reads the documents the National Assessment and Examinations
Center publishes each year. There are two kinds:

- enrollment lists: per university and faculty, who was enrolled, with rank, student id, subject scores and contest score;
- grant lists: per subject and grant tier, which students received a state grant at which grant score.

The program turns both into rows and answers three questions from the database:

- what a candidate's points would have earned in a past year;
- what the grant thresholds were;
- what the enrollment thresholds were.

This project is a Dafny model of that core, with proofs about it:

- `Segmentation` (`segmentation.py`):
  - removes the page-number noise lines of an enrollment document;
  - cuts what is left into one chunk per university/faculty group.
- `Extractors` (`extractors.py`): the university, faculty and subject-header extractors. Each is a recogniser that follows Python's backtracking order (greedy `\s+`, lazy `.+?`).
- `Records` (`extractors.py`): the enrollment-record pattern and the `finditer` loop of `extract_enrollment_records`. Scores are integer tenths. The white space before the optional grant marker is a parameter: `\s+` as written (`AnySpace`), which the loop and the enrollment parser use, or white space that stays on the line (`LineSpace`), the correction of the Finding.
- `RecordLines`: writes enrollment records out as the lines the documents print. It proves that reading such a text gives the records back: always with the corrected pattern, and with the pattern as written unless a line without a marker is followed by a line whose rank begins with 50, 70 or 100. This is the partner of `Records`.
- `EnrollmentParser` (`enrollment_parser.py`): `main`'s nested loops over sorted (file name, text) pairs and their chunks. Covered:
  - the year taken from the file name;
  - aborting on the first extractor error;
  - the "no files" and "no data" exits.
- `GrantParser` (`grant_parser.py`):
  - the tier and subject of a grant page;
  - the student/score table;
  - the page loop of `process_pdf_to_tuple_list`.
- `Constants` (`constants.py`): the Georgian-to-English subject table.
- `FileNames`: `int(pdf_filename.split(".")[0])`.
- `Analysis` (`analysis.py`): the three SQL queries as functions over sequences of rows, with `real` arithmetic.
- `MarkerFinding`: a flaw in the enrollment-record pattern, shown on a two-line text (see Findings).
- `Text` and `Wrappers`: the character classes, `str.strip`, `str.split`, `re.search`/`re.finditer` scanning, `Option` and `Result`.

Python exceptions (`ValueError`, and `.group` called on a failed search) are modelled as `Err` results. An exception that ends the run is an `Err` passed through to the caller. The PDF, CSV and database calls are left out: each operation takes the text or the rows as parameters.

## Model

| member | source | states |
|---|---|---|
| Text.Strip | src/enrollments/segmentation.py:63 | `str.strip()`: the result has no white space at either end and is no longer than its input |
| Text.StripBounds | src/enrollments/extractors.py:12 | the part `strip` keeps: everything before and after it is white space, every non-space character lies inside it, and it starts and ends with a non-space |
| Text.SplitStrip | src/enrollments/extractors.py:46 | `s.strip().split()` equals `s.split()` |
| Text.SplitJoinSpaced | src/enrollments/extractors.py:46 | words joined by single blanks split back into the same words |
| Text.SearchSpec | src/enrollments/extractors.py:8 | `re.search` finds the leftmost position where the pattern matches, and finds nothing exactly when it matches nowhere |
| Text.FinditerFound | src/enrollments/extractors.py:61 | every match `finditer` yields is a match of the pattern at its start |
| Text.FinditerOrder | src/enrollments/extractors.py:61 | successive matches do not overlap and come in text order |
| Text.FinditerComplete | src/enrollments/extractors.py:61 | every position where the pattern matches lies inside some match found |
| Text.FinditerSkip | src/enrollments/extractors.py:61 | positions where nothing matches change nothing in what is found |
| Text.NumeralValue | src/enrollments/extractors.py:62-63 | `int()` of a written numeral is the number written |
| FileNames.Stem | src/enrollments/enrollment_parser.py:27 | `name.split(".")[0]`: the prefix of the name up to its first dot, holding no dot |
| FileNames.YearOf | src/enrollments/enrollment_parser.py:27 | the year is defined exactly when the stem is a non-empty digit string; otherwise the error names the stem |
| FileNames.StemOfDotted | src/grants/grant_parser.py:86 | the stem of `stem.ext` is `stem` |
| FileNames.YearOfNumeral | src/grants/grant_parser.py:86 | a file named by a written year with any extension gives back that year |
| Constants.TableSize | src/constants.py:4-15 | the table has exactly 10 entries; the map gives each key its entry's value and has 10 keys |
| Constants.ValuesDistinct | src/constants.py:4-15 | the English names are pairwise distinct, so the map is injective |
| Constants.KeysStartDistinct | src/constants.py:4-15 | every key is non-empty, starts with a Georgian letter, and the first letters are pairwise distinct (`DistinctFirsts`, the condition the grant parser's subject search relies on) |
| Constants.KeysPrefixFree | src/grants/grant_parser.py:47-50 | two keys spelled at the same position of a text are the same key, so the alternation can match at most one key at a position |
| Constants.TableLookup | src/constants.py:4-15 | each entry of the ordered table is in the map with its value |
| Constants.MathematicsEntry | src/constants.py:8 | `"მათემატიკა"` maps to `MATHEMATICS`, the subject the analytics filter grant rows by |
| Constants.LanguagesNotInRange | src/constants.py:4-15 | `FOREIGN LANGUAGE` and `GEORGIAN LANGUAGE` are not values of the table |
| Segmentation.NoiseMatchAt | src/enrollments/segmentation.py:45 | the noise match at a position is the longest text that starts at a line start with a digit, holds only digits and white space, and ends with a newline; none exists when nothing of that form starts there |
| Segmentation.NoiseRemovalByLines | src/enrollments/segmentation.py:45 | the substitution equals a line-by-line removal. It drops each newline-terminated line of digits and white space that starts with a digit or follows a dropped line, and keeps every other line intact, including a final digits-only line without a newline |
| Segmentation.RemovalKeepsSignificant | src/enrollments/segmentation.py:45 | noise removal deletes only digits and white space: every other character survives, in order |
| Segmentation.FindGroupStarts | src/enrollments/segmentation.py:50 | the group starts found lie in the text and strictly increase |
| Segmentation.GroupStartsExactly | src/enrollments/segmentation.py:48-50 | a position is a found group start exactly when the start pattern matches there: three digits at a line start, then white space, a Georgian letter, and a later newline. Lines starting with four or more digits or with `rank studentid` never qualify |
| Segmentation.FindGroupStartsComplete | src/enrollments/segmentation.py:50 | every position where the start pattern matches is found |
| Segmentation.NoStartInside | src/enrollments/segmentation.py:50 | no group start lies strictly inside another group-start match |
| Segmentation.SegmentPdfContent | src/enrollments/segmentation.py:37-66 | the loop over the matches returns exactly one stripped slice per group start of the cleaned text (`Segments`) |
| Segmentation.Segments | src/enrollments/segmentation.py:50-64 | there are as many chunks as group starts in the cleaned text, so no match means no chunk |
| Segmentation.SegmentAt | src/enrollments/segmentation.py:53-63 | chunk `k` is the cleaned text from start `k` to start `k+1`, or to its end for the last, stripped |
| Segmentation.SliceAt | src/enrollments/segmentation.py:54-63 | each slice runs from its start to the next start or the end, and the chunk is that slice stripped |
| Segmentation.SlicesCoverText | src/enrollments/segmentation.py:54-61 | the unstripped slices are contiguous: their concatenation is the cleaned text from the first group start to its end |
| Segmentation.ChunkShape | src/enrollments/segmentation.py:48-63 | every chunk is stripped and begins with the three-digit code of its group-start line, followed by white space |
| Segmentation.ChunkOfMatch | src/enrollments/segmentation.py:63 | a stripped slice from a group start begins with that start's three digits and a white-space character |
| Extractors.SearchFromSpec | src/enrollments/extractors.py:8 | the header search finds the leftmost position where the header pattern matches, and nothing exactly when it matches nowhere |
| Extractors.ExtractHeaderErr | src/enrollments/extractors.py:16-17 | a header extractor fails exactly when its pattern matches nowhere in the text |
| Extractors.ExtractHeaderFirst | src/enrollments/extractors.py:10-14 | on success, the id and the stripped name are those of the leftmost match |
| Extractors.UniversityResult | src/enrollments/extractors.py:8-17 | the university id is exactly three digits; the name is stripped and holds no newline; the extractor raises exactly when no line starts with three digits, white space and a name ending in a newline |
| Extractors.ExtractUniversityNameAndId | src/enrollments/extractors.py:4-17 | its only error is "university ID/name not found" |
| Extractors.UniversityRoundTrip | src/enrollments/extractors.py:8-14 | a chunk starting with `code name` on its first line gives back the three-digit code and the name |
| Extractors.FacultyResult | src/enrollments/extractors.py:25-37 | the faculty id is a line-initial run of 8 to 11 digits; the name is stripped; the extractor raises exactly when the pattern matches nowhere |
| Extractors.ExtractFacultyNameAndId | src/enrollments/extractors.py:19-37 | its only error is "Faculty ID/name not found" |
| Extractors.FacultyRoundTrip | src/enrollments/extractors.py:25-34 | `id name წლიური გადასახადი…`, with the name free of the anchor, gives back the id and the name; the name may span lines |
| Extractors.HeaderRoundTrip | src/enrollments/extractors.py:8-34 | the common header pattern reads back an id, a stripped group and its anchor |
| Extractors.ExtractTakenSubjects | src/enrollments/extractors.py:39-48 | every subject is a non-empty word without white space, and subjects are found only when the header matches (a missing header gives `[]`) |
| Extractors.SubjectsRoundTrip | src/enrollments/extractors.py:44-47 | `საგამოცდოს w1 … wn საკონკურსო…` gives back the words `w1 … wn` in order, unmapped |
| Extractors.SubjectsRead | src/enrollments/extractors.py:44-47 | for any blank-separated words before the anchor, the subjects are the split of that text |
| Records.RecordAt | src/enrollments/extractors.py:58-59 | a match of the record pattern at a position starts there and ends after it, inside the text |
| Records.MarkerEnd | src/enrollments/extractors.py:58 | the optional grant marker ends at or after the contest score, inside the text |
| Records.RecordBounds | src/enrollments/extractors.py:58-68 | a matched record has 3 or 4 subject scores, each below 1000.0 (`ddd.d`), and a student id below 10^9 |
| Records.FoundMatch | src/enrollments/extractors.py:61 | every match found is a match of the pattern at its start |
| Records.FoundInOrder | src/enrollments/extractors.py:61 | the matches come in text order without overlapping |
| Records.FoundComplete | src/enrollments/extractors.py:61 | every position where the record pattern matches lies in one of the matches found, so no record line is skipped silently |
| Records.RecordsFromMatch | src/enrollments/extractors.py:61-75 | a match gives its record, followed by the records found after it |
| Records.RecordsFromSkip | src/enrollments/extractors.py:61 | lines that do not match contribute nothing |
| Records.ExtractEnrollmentRecords | src/enrollments/extractors.py:51-77 | the loop over the matches of the pattern as written (`\s+` before the marker) returns one record per match, in order (`EnrollmentRecords(text, AnySpace)`) |
| Records.EnrollmentRecordsBounds | src/enrollments/extractors.py:58-68 | every extracted record has 3 or 4 scores below 1000.0 and a student id below 10^9, read from nine digits |
| RecordLines.DecimalRead | src/enrollments/extractors.py:65 | `float()` of a written one-decimal number is that number, in tenths |
| RecordLines.ScoresRead | src/enrollments/extractors.py:64-68 | the written subject scores, stripped and split, convert back to the scores |
| RecordLines.FieldsRead | src/enrollments/extractors.py:62-68 | every written field of a record converts back to that field |
| RecordLines.LineRecords | src/enrollments/extractors.py:58-75 | for either marker gap, a written line at a line start gives exactly its record, and the search then goes on from the next line; with `\s+` as written, this needs a next line that does not begin as a grant when the line has no marker |
| RecordLines.NoFourth | src/enrollments/extractors.py:58 | after three scores, a contest score is not taken as a fourth subject score |
| RecordLines.LinesRead | src/enrollments/extractors.py:58-77 | written lines running to the end of the text read back as their records, in order: always with the marker kept on its line, and as written when no line gives its rank to the line before |
| RecordLines.ReadBack | src/enrollments/extractors.py:51-77 | the corrected pattern, with the marker kept on its line: any sequence of record lines, with or without a grant marker, reads back as exactly its records |
| RecordLines.ReadBackAsWritten | src/enrollments/extractors.py:51-77 | the pattern as written reads record lines back as exactly their records whenever no line without a marker is followed by a line whose rank begins with 50, 70 or 100 |
| EnrollmentParser.SortByName | src/enrollments/enrollment_parser.py:11 | `sorted()`: the files in code-point order of their names, a permutation of the input |
| EnrollmentParser.InsertByName | src/enrollments/enrollment_parser.py:11 | inserting into a sorted list keeps it sorted and adds exactly that element |
| EnrollmentParser.NameAtMostTotal | src/enrollments/enrollment_parser.py:11 | Python's string order is total |
| EnrollmentParser.NameAtMostTrans | src/enrollments/enrollment_parser.py:11 | Python's string order is transitive |
| EnrollmentParser.NameAtMostAntisym | src/enrollments/enrollment_parser.py:11 | Python's string order is antisymmetric |
| EnrollmentParser.SortKeepsFiles | src/enrollments/enrollment_parser.py:11 | sorting keeps exactly the same files |
| EnrollmentParser.ChunkGroup | src/enrollments/enrollment_parser.py:30-45 | a chunk gives a record exactly when both the university and the faculty are found; otherwise the university error comes first |
| EnrollmentParser.ChunkGroupFields | src/enrollments/enrollment_parser.py:30-44 | each field of a chunk's record is the extractor's output, unchanged and unmapped; the enrollments are those of `extract_enrollment_records` as written |
| EnrollmentParser.ChunksCollect | src/enrollments/enrollment_parser.py:29-45 | the chunk loop succeeds exactly when every chunk does; it then gives one record per chunk, in chunk order, each of the file's year |
| EnrollmentParser.ChunksErr | src/enrollments/enrollment_parser.py:30-31 | a failing chunk loop fails with the error of its first failing chunk |
| EnrollmentParser.FileGroupsSpec | src/enrollments/enrollment_parser.py:24-45 | a file succeeds exactly when its stem is a year and every chunk succeeds; it then gives one record per chunk, in order, all of that year |
| EnrollmentParser.FileGroupsErr | src/enrollments/enrollment_parser.py:27-31 | a failing file fails with the error of its name, or else with that of its first failing chunk |
| EnrollmentParser.FileGroupsEmpty | src/enrollments/enrollment_parser.py:24-29 | a file adds nothing exactly when its stem is a year and it has no chunk |
| EnrollmentParser.OutcomeSpec | src/enrollments/enrollment_parser.py:15-49 | no files: nothing inserted. The run aborts exactly when some file fails. No data exactly when every file is named by a year and has no chunk. Every inserted record comes from a chunk of one of the files and carries that file's year |
| EnrollmentParser.OutcomeAborted | src/enrollments/enrollment_parser.py:20-31 | the run aborts exactly when some file fails; there is no per-chunk isolation |
| EnrollmentParser.OutcomeNoData | src/enrollments/enrollment_parser.py:47-49 | nothing is inserted for lack of data exactly when every file has a year and no chunk |
| EnrollmentParser.OutcomeInserted | src/enrollments/enrollment_parser.py:37-57 | every inserted record belongs to a chunk of one of the files and carries that file's year |
| EnrollmentParser.ProcessEnrollmentFiles | src/enrollments/enrollment_parser.py:15-49 | the nested loops of `main` give exactly `EnrollmentOutcome`: files in sorted order, records in chunk order |
| EnrollmentParser.ProcessFile | src/enrollments/enrollment_parser.py:21-45 | one iteration of the file loop appends that file's records to `data`, or stops with its error |
| EnrollmentParser.AppendChunks | src/enrollments/enrollment_parser.py:29-45 | the chunk loop appends one record per chunk to `data`, or stops at the first failing chunk with its error |
| EnrollmentParser.ProcessChunk | src/enrollments/enrollment_parser.py:30-45 | the loop body builds the chunk's group record from the four extractors, or raises the first extractor error |
| GrantParser.PercentFrom | src/grants/grant_parser.py:43 | the tier search finds the leftmost `\d+%`, and nothing exactly when there is none |
| GrantParser.PercentRead | src/grants/grant_parser.py:43-44 | when the first `%` of a page follows a maximal digit run, that run is the tier |
| GrantParser.SubjectFrom | src/grants/grant_parser.py:47-50 | the subject search finds the leftmost position where a key of the table occurs |
| GrantParser.KeyUnique | src/grants/grant_parser.py:47-50 | with keys starting with distinct letters, the alternation matches the key spelled at a position |
| GrantParser.SubjectAndPercentage | src/grants/grant_parser.py:36-53 | a page fails exactly when it has no `\d+%` or no subject phrase, and the missing tier is reported first; on success the tier is digits followed by `%` |
| GrantParser.HeaderRead | src/grants/grant_parser.py:42-53 | on success, the subject is the value of the leftmost key on the page and the tier is its first `\d+%` |
| GrantParser.HeaderReadAt | src/grants/grant_parser.py:42-53 | a page with a known first tier and first key gives that key's English name and that tier |
| GrantParser.PageHeaderRead | src/grants/grant_parser.py:91-101 | the tier becomes the integer value of its digits, the `%` dropped |
| GrantParser.SplitLines | src/grants/grant_parser.py:62 | `text.split("\n")` gives at least one line, none holding a newline |
| GrantParser.JoinSplit | src/grants/grant_parser.py:62 | the lines joined by newlines give back the text |
| GrantParser.SplitJoin | src/grants/grant_parser.py:62 | newline-free lines joined by newlines split back into the same lines |
| GrantParser.LineRecord | src/grants/grant_parser.py:63-66 | a matched line starts with its student id, a digit run kept as a string and followed by white space; a line not starting with a digit never matches; LineRecordSound states the rest of what a matched line holds |
| GrantParser.LineRecordRead | src/grants/grant_parser.py:63-66 | `id ws units.fraction`, followed by anything but a digit, gives back the id (leading zeros kept) and the score; trailing text is ignored |
| GrantParser.LineRecordSound | src/grants/grant_parser.py:63-66 | the converse of LineRecordRead: a line gives a record only if it starts with digits, white space, digits, a point and fraction digits not followed by another digit; the record's id is those first digits and its score is the value of `units.fraction` written there |
| GrantParser.LineRecordSkips | src/grants/grant_parser.py:63-64 | `123 abc`, `123 45`, `123 45.` and `123 45.x` give no record, since each lacks the units, the point or the fraction digits |
| GrantParser.TableOf | src/grants/grant_parser.py:61-69 | no more records than lines |
| GrantParser.TableOfMembers | src/grants/grant_parser.py:62-67 | every record comes from a matching line, and every matching line gives a record |
| GrantParser.TableOfRead | src/grants/grant_parser.py:62-67 | every record of the table is written on one of the page's lines as `id ws units.fraction`, with the score that line shows; with TableOfMembers and LineRecordRead, the records are exactly those of the lines of that shape |
| GrantParser.TableOfAppend | src/grants/grant_parser.py:62-67 | the table of two blocks of lines is the two tables in order |
| GrantParser.ExtractTableOfRecords | src/grants/grant_parser.py:56-69 | the line loop returns one record per matching line, in order (`TableOf`) |
| GrantParser.Tagged | src/grants/grant_parser.py:97-104 | one tuple per record, in order, each with the record's id and score and the page's tier and subject and the file's year |
| GrantParser.PageTuples | src/grants/grant_parser.py:89-104 | a page fails exactly when its tier or subject is missing, even when it has no score lines |
| GrantParser.PagesFail | src/grants/grant_parser.py:89-91 | the page loop fails exactly when some page has no tier or no subject |
| GrantParser.PagesCount | src/grants/grant_parser.py:89-104 | the tuple count is the sum of the pages' record counts, and every tuple carries the year |
| GrantParser.PagesSnoc | src/grants/grant_parser.py:89-104 | a file's tuples are those of its earlier pages followed by the last page's records tagged with its subject and tier |
| GrantParser.PagesErrPersists | src/grants/grant_parser.py:89-91 | once a page fails, later pages change nothing |
| GrantParser.FileTuples | src/grants/grant_parser.py:86 | a file whose stem is not a year fails with that error |
| GrantParser.AppendTuples | src/grants/grant_parser.py:97-104 | the record loop appends the page's tagged records to the tuples so far |
| GrantParser.ProcessPages | src/grants/grant_parser.py:89-104 | the page loop returns exactly `PagesTuples` |
| GrantParser.ProcessPdfToTupleList | src/grants/grant_parser.py:72-106 | returns exactly `FileTuples`: the year from the file name, then the pages in order |
| Analysis.Scaled | src/db/analysis.py:24 | the scaled score is 150 exactly when the points equal the mean and, for a positive deviation, above 150 exactly when above the mean |
| Analysis.ScaledLinear | src/db/analysis.py:24 | the scaled score is linear in the points: differences scale by `15/sd` |
| Analysis.ScaledMonotone | src/db/analysis.py:24 | with a positive deviation, more points never give a lower scaled score |
| Analysis.ScaledScores | src/db/analysis.py:19-32 | the join keeps only the three reference subjects |
| Analysis.ScaledYears | src/db/analysis.py:26-32 | a year has scaled rows exactly when some reference subject has an exam row for it |
| Analysis.GrantSplit | src/db/analysis.py:36-40 | the grant sum of a year is `1.5·M + F + G` over the subject sums |
| Analysis.ContestSplit | src/db/analysis.py:41-45 | the contest sum of a year is the caller-weighted sum of the subject sums, with no ×10 |
| Analysis.MissingSubject | src/db/analysis.py:32-45 | a subject without an exam row for the year contributes 0 |
| Analysis.SingleSubject | src/db/analysis.py:24-32 | a subject with one exam row for the year contributes that row's scaled score |
| Analysis.GrantComposite | src/db/analysis.py:24-40 | with one row per subject, the grant score is `10·(1.5·scaled_M + scaled_F + scaled_G)` |
| Analysis.BestBelow | src/db/analysis.py:55-66 | `WHERE score < c ORDER BY score DESC LIMIT 1`: the chosen row's score is strictly below `c` and no qualifying row is higher; none exactly when no row is below `c` |
| Analysis.BestBelowMonotone | src/db/analysis.py:53-66 | raising the candidate's score never lowers the score of the row selected |
| Analysis.Lowest | src/db/analysis.py:140 | `MIN`: a row with the least score, none exactly for no rows |
| Analysis.MathGrants | src/db/analysis.py:56-57 | the pool of grant rows is exactly the MATHEMATICS rows of that year |
| Analysis.WithAmount | src/db/analysis.py:109-111 | the rows with the given amount |
| Analysis.FacultyRows | src/db/analysis.py:63-71 | the pool of enrollment rows is exactly those of the faculty and year |
| Analysis.CheckHistoricalData | src/db/analysis.py:5-94 | one row per year of the scaled scores, keyed by its year |
| Analysis.HistoricalRowOf | src/db/analysis.py:48-74 | each row is `FinalRankAndGrant` of its year |
| Analysis.HistoricalYears | src/db/analysis.py:32-47 | a year has a row exactly when at least one reference subject has an exam row for that year |
| Analysis.HistoricalScores | src/db/analysis.py:36-45 | a row's grant score is `10·(1.5·M + F + G)` and its contest score the weighted sum of the subject sums |
| Analysis.YearScores | src/db/analysis.py:36-52 | the same, for one year of any scaled rows |
| Analysis.HistoricalGrant | src/db/analysis.py:53-59 | no grant amount exactly when no MATHEMATICS row of that year scores below the candidate; otherwise the amount is that of such a row with no such row scoring higher |
| Analysis.BelowPool | src/db/analysis.py:53-59 | the grant lookup over a pool and its maximality |
| Analysis.HistoricalRank | src/db/analysis.py:60-66 | no rank exactly when no row of that faculty and year scores below the candidate; otherwise the rank of such a row with no such row scoring higher, so a tied row is never selected |
| Analysis.BelowRows | src/db/analysis.py:60-66 | the rank lookup over a pool and its maximality |
| Analysis.HistoricalEnrolled | src/db/analysis.py:68-72 | total_enrolled is the number of rows of that faculty and year, whatever the candidate's points and weights |
| Analysis.GrantLookupMonotone | src/db/analysis.py:53-59 | a higher grant score never selects a row with a lower grant score |
| Analysis.GrantLookupExample | src/db/analysis.py:53-59 | with rows at 500 (50%) and 800 (70%), a score of 650 gets 50% |
| Analysis.InsertYear | src/db/analysis.py:114-118 | inserting a year keeps the years ascending and adds exactly that year |
| Analysis.MathYears | src/db/analysis.py:113-118 | the years having MATHEMATICS grant rows, ascending, each once |
| Analysis.MinGrant | src/db/analysis.py:109-111 | `MIN(grant_score) FILTER (WHERE grant_amount = a)`: the least score among the year's MATHEMATICS rows with that amount, attained by one of them; none exactly when there are none |
| Analysis.GrantThresholds | src/db/analysis.py:106-118 | one row per year with MATHEMATICS grant rows, years strictly ascending; each column is the minimum for 50, 70 and 100 |
| Analysis.YearRows | src/db/analysis.py:113-114 | the rows' years are exactly the years having MATHEMATICS grant rows |
| Analysis.YearThreshold | src/db/analysis.py:136-143 | a year's minimum contest score is no greater than any of that year's scores and is attained by the row whose rank is reported |
| Analysis.EnrollmentThresholds | src/db/analysis.py:136-147 | one row per year having rows for the faculty |
| Analysis.EnrollmentThresholdRows | src/db/analysis.py:136-147 | a row's minimum is a lower bound of that year's contest scores, attained by the row whose rank is reported |
| MarkerFinding.MarkerTakesNextRank | src/enrollments/extractors.py:58 | as written, a line without a grant marker followed by a line whose rank begins with 50, 70 or 100 yields only the first record; with the marker's white space kept on its line, both are read |
| MarkerFinding.TwoLinesAsWritten | src/enrollments/extractors.py:58-61 | as written, two record lines, the first without a marker, give both records exactly when the second rank does not begin with 50, 70 or 100, and only the first otherwise |
| MarkerFinding.GrantLikeRanks | src/enrollments/extractors.py:58 | ranks 503 and 1009 begin as a grant, ranks 5 and 150 do not |
| MarkerFinding.FirstOnly | src/enrollments/extractors.py:58-61 | as written, the pattern finds only the first record of such two lines |
| MarkerFinding.BothRead | src/enrollments/extractors.py:58-61 | with the marker kept on its line, both records are found |
| MarkerFinding.MarkerAcross | src/enrollments/extractors.py:58 | as written, the marker's `\s+` runs over a line break onto a grant spelled at the start of the next line |

## Left out

- PDF reading and file discovery are not modelled. This covers `pdfplumber`, `os.listdir`, `pdf_to_string`, writing `pdf_content.txt` and removing the title lines of the first page. The file texts and grant pages are parameters.
- The CSV backups (pandas) and the database are not modelled. This covers `api.batch_insert_*`, `setup.py`, and connecting, executing and fetching in `analysis.py`. These are foreign I/O; an `Inserted(data)` outcome stands for the insertion.
- `grant_parser.main`: I/O only. It extends a list with each file's tuples, writes a CSV and inserts.
- `print` output and the `__main__` blocks (`analysis.py` lines 154-181) are left out.
- `src/config.py` (paths) is not part of this model.
- Floating point is not modelled:
  - enrollment scores are exact integer tenths;
  - grant scores are exact decimals;
  - the analytics use `real`.
- Analysis.Scaled: requires a non-zero standard deviation, where SQLite would give NULL on a division by zero. SQLite's integer affinity is not modelled either.
- Analysis.CheckHistoricalData: the result is a map from year to row, because the query has no `ORDER BY` and its row order is unspecified.
- Analysis.BestBelow: among rows tied at the best qualifying score it picks the first. SQLite's choice among ties is not specified, so the model fixes one.
- The same goes for the rank `get_enrollment_thresholds` reports: SQLite's bare-column rule takes it from a row attaining the minimum, and the model fixes one such row.
- Analysis.CheckHistoricalData: the candidate's points and the weights are a record with one field per reference subject. Python dictionaries with a missing key, which would raise `KeyError`, are not modelled.
- FileNames.YearOf: accepts only a non-empty digit stem. Python's `int()` also takes a sign, surrounding white space and underscores; those stems are errors here. The year is not bounded.
- `\d` is ASCII digits only. Python also accepts other Unicode decimal digits, and `int()` and `float()` would convert them.
- RecordLines.ReadBackAsWritten: requires that no line without a marker is followed by a line whose rank begins with 50, 70 or 100, because on such lines the code as written loses records (the Finding). For two lines, `MarkerFinding.TwoLinesAsWritten` gives the result in both cases. For longer texts with such a pair, the model says only what `Records` computes; no read-back is claimed.
- Each group record is a `GroupRecord` datatype rather than a dictionary. Each enrollment record is an `EnrollmentRecord` rather than a dictionary, and its float fields are tenths.

## Findings

| source | as written | input that shows it | evidently intended | confidence | as-written member | corrected member |
|---|---|---|---|---|---|---|
| src/enrollments/extractors.py:58 | the optional grant marker is white space `\s+` then 50, 70 or 100 with nothing required after it, and `\s+` also matches a line break | two record lines, the first without a grant marker and the second with a rank whose digits begin with 50, 70 or 100 (50, 503, 7000, 1009, …), e.g. `1 401500482 120.0 130.0 140.0 560.5` then `50 401500483 …`: the first match runs on into the rank on the next line, the search resumes inside that rank where `^` fails, and the second record is never found | the marker is optional text on the record's own line, so every record line gives its record | not executed | MarkerFinding.MarkerTakesNextRank | RecordLines.ReadBack |
