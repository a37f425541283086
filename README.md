# Golf course par data: sync engine, score-card helpers and media upload

This project is a Dafny model of three parts of a golf-course web application.

- **`golfcourseapi-sync.mjs`.** A command-line engine that walks a local catalog of Japanese golf courses and searches a remote golf-course API for each course:
  - it builds search queries from the course name and its kana reading;
  - it scores candidate courses by bigram similarity;
  - it picks a tee box and reads its eighteen pars;
  - it writes the pars, nine-hole sums, total, tee name and remote id into its working copy of the catalog entry;
  - those copies reach the CSV export only: the JSON written back is the catalog as it was read, with a `meta` block added (see Findings);
  - it keeps counters and an error log, and can export the catalog as CSV.
- **The module-level helpers of `src/pages/ScorePhotoPage.tsx`.** The score-card page reads courses from a JSON catalog, reads par tables from CSV files and merges them into the courses. It also sanitises score input, sums scores, shows a symbol for each score against par, formats dates, and estimates pars from a total.
- **The file selection of `src/components/MediaUploadSection.tsx`.** Adding, removing and clearing files (at most ten, each an image or video of at most 20 MiB) and the guards that run before an upload starts.

## Modelling choices

- Pure helpers are Dafny functions. Most properties are lemmas about them.
- Each loop in the source is a method whose postcondition ties its result to a specification function:
  - `ParseArgs`, `ParseAreas` and `FetchWithRetry`;
  - `ToBigrams`, `SimilarityScore` and `PickBestMatch`;
  - `SelectTeeBox`, `ProcessEntry` and the catalog loop `SyncCatalog`, which updates an `array` of entries in place;
  - `FormatCsv`, `ParseCsvRows` and `ParseParCsv`;
  - `MergeParMaps` and `BuildEstimatedPars`.
- The upload component's state is the class `MediaUpload.UploadSelection`. Its methods keep the invariant that at most `MaxFiles` files are selected.
- These are parameters:
  - the remote search;
  - the HTTP responses, as a function from attempt number to response;
  - the kana-to-romaji converter.
- Strings are sequences of characters. Integers are unbounded, and scores are `real`.

## Model

| member | source | states |
|---|---|---|
| SyncArgs.ParseArgs | golfcourseapi-sync.mjs:7-27 | the options map is the left-to-right reading of argv: `--k=v` inline, `--k v` when the next word is non-empty and not an option, otherwise `"true"` |
| SyncArgs.ArgsKeysFromOptions | golfcourseapi-sync.mjs:7-27 | every key of the result comes from some `--` word of argv |
| SyncArgs.LastOptionWins | golfcourseapi-sync.mjs:7-27 | an option given again later overrides the earlier value |
| SyncArgs.ParseInteger | golfcourseapi-sync.mjs:29-33 | a missing or empty value, or one parseInt rejects, yields the fallback; otherwise the parsed integer |
| SyncArgs.ParseIntegerOfString | golfcourseapi-sync.mjs:29-33 | the decimal text of any integer parses back to that integer |
| SyncArgs.ParseAreas | golfcourseapi-sync.mjs:35-60 | the area filter equals the set of codes from the comma-separated parts and ranges, without duplicates |
| SyncArgs.AddPartCodes | golfcourseapi-sync.mjs:43-56 | adding one part's codes appends the new ones and keeps the list duplicate-free |
| SyncArgs.AreaFilterMembers | golfcourseapi-sync.mjs:35-60 | a code is in the filter exactly when one of the parts produces it |
| SyncArgs.RangePartCodes | golfcourseapi-sync.mjs:42-51 | every code between the two ends of an `a-b` part, in either order, is produced |
| SyncArgs.MaskKey | golfcourseapi-sync.mjs:64-67 | a key shorter than six characters is shown as `***`; otherwise only its first three and last two characters are shown |
| SyncArgs.MaskHidesMiddle | golfcourseapi-sync.mjs:64-67 | two long keys mask alike exactly when they share their first three and last two characters |
| SyncArgs.ErrorMessage | golfcourseapi-sync.mjs:83-84 | a failure message is `HTTP `, the status, `: ` and then the first 200 characters of the body, or all of it when shorter |
| SyncArgs.FetchWithRetry | golfcourseapi-sync.mjs:69-87 | the fetch loop returns the outcome and the sleeps of the retry specification |
| SyncArgs.AttemptsProps | golfcourseapi-sync.mjs:69-87 | the back-off is linear; at most `retries` sleeps happen; success is the first 2xx response; failure is a non-2xx response that is not retried |
| SyncArgs.TwoServiceUnavailableThenOk | golfcourseapi-sync.mjs:69-87 | with the defaults, 503, 503, 200 succeeds on the third attempt after sleeping 1200 ms then 2400 ms |
| SyncNames.StripDecorations | golfcourseapi-sync.mjs:89-98 | the result has no bracketed section of any of the five bracket kinds and is trimmed |
| SyncNames.StripIdempotent | golfcourseapi-sync.mjs:89-98 | stripping twice is stripping once |
| SyncNames.StripUndecorated | golfcourseapi-sync.mjs:89-98 | a trimmed name without bracketed sections is unchanged |
| SyncNames.NormalizeName | golfcourseapi-sync.mjs:100-107 | the result holds no separator and no ASCII upper-case letter, and is empty when the stripped name is |
| SyncNames.NormalizeNameOfNormal | golfcourseapi-sync.mjs:100-107 | normalizing an already normal name changes nothing |
| SyncNames.NormalizeRomaji | golfcourseapi-sync.mjs:109-117 | the result holds only lower-case letters, digits and single spaces |
| SyncNames.NormalizeRomajiOfNormal | golfcourseapi-sync.mjs:109-117 | when the transliteration is already lower-case, single-spaced romaji, it is returned unchanged |
| SyncNames.MapRomajiGolfTerms | golfcourseapi-sync.mjs:119-130 | the result is single-spaced |
| SyncNames.MapRomajiIdentity | golfcourseapi-sync.mjs:119-130 | a single-spaced value with no golf term is unchanged |
| JsText.ReplaceAllAroundWord | golfcourseapi-sync.mjs:122-127 | with patterns free of spaces, replacing in words joined by single spaces replaces in each word separately |
| JsText.ReplaceAllMissingChar | golfcourseapi-sync.mjs:122-127 | a value lacking some character of every pattern is left unchanged |
| JsText.ReplaceAllMatch | golfcourseapi-sync.mjs:122-127 | a value that starts with the pattern matched first gets the replacement, and the rest is replaced in turn |
| JsText.ReplaceAllSkip | golfcourseapi-sync.mjs:122-127 | a prefix none of whose characters starts a pattern passes through unchanged |
| SyncNames.MapRomajiAroundWord | golfcourseapi-sync.mjs:119-130 | between two single-spaced pieces free of romaji terms, a word is replaced by what the six rules make of it alone |
| RomajiTerms.RuleGolf | golfcourseapi-sync.mjs:122 | the rules turn `gorufu` into `golf` |
| RomajiTerms.RuleCourse | golfcourseapi-sync.mjs:123 | the rules turn `koosu` and `kosu` into `course` |
| RomajiTerms.RuleCountry | golfcourseapi-sync.mjs:124 | the rules turn `kantorii`, `kantori` and `kantory` into `country` |
| RomajiTerms.RuleClub | golfcourseapi-sync.mjs:125 | the rules turn `kurabu` into `club` |
| RomajiTerms.RuleCountryClub | golfcourseapi-sync.mjs:126 | the rules turn `countryclub` into `country club` |
| RomajiTerms.RuleGolfCourse | golfcourseapi-sync.mjs:127 | the rules turn `golfcourse` into `golf course` |
| RomajiTerms.MapRomajiGorufu | golfcourseapi-sync.mjs:119-130 | between plain words, `gorufu` is mapped to `golf` |
| RomajiTerms.MapRomajiKoosu | golfcourseapi-sync.mjs:119-130 | between plain words, `koosu` is mapped to `course` |
| RomajiTerms.MapRomajiKantorii | golfcourseapi-sync.mjs:119-130 | between plain words, `kantorii` is mapped to `country` |
| RomajiTerms.MapRomajiKurabu | golfcourseapi-sync.mjs:119-130 | between plain words, `kurabu` is mapped to `club` |
| RomajiTerms.MapRomajiCountryClub | golfcourseapi-sync.mjs:119-130 | between plain words, `countryclub` is mapped to `country club` |
| RomajiTerms.MapRomajiGolfCourse | golfcourseapi-sync.mjs:119-130 | between plain words, `golfcourse` is mapped to `golf course` |
| RomajiTerms.NormalizedNeverKoSu | golfcourseapi-sync.mjs:109-117 | normalized romaji never contains `ko-su`, so that alternative of the course rule never fires on the normalized romaji it is given at line 203 |
| SyncNames.CutCourseTailPrefix | golfcourseapi-sync.mjs:192 | cutting the course-word tail leaves a prefix of the name |
| SyncNames.CutCourseTailAtTail | golfcourseapi-sync.mjs:192 | what is cut off starts with a course word at the end of the name |
| SyncNames.CutCourseTailLeftmost | golfcourseapi-sync.mjs:192 | the cut is at the leftmost such position |
| SyncNames.QueryVariants | golfcourseapi-sync.mjs:183-210 | every variant is trimmed; the stripped name comes first; there are none when both names strip to empty |
| SyncNames.BuildSearchQueries | golfcourseapi-sync.mjs:183-210 | the queries are distinct and are exactly the variants at least two characters long; the stripped name leads when it is long enough; a course with no name and no kana gets no query |
| SyncNames.TrimFilterMembers | golfcourseapi-sync.mjs:207-209 | the filter keeps exactly the entries of length at least two |
| BigramSimilarity.ToBigrams | golfcourseapi-sync.mjs:132-139 | the loop collects the set of adjacent character pairs |
| BigramSimilarity.BigramsMember | golfcourseapi-sync.mjs:132-139 | a string is a bigram exactly when it has length two and occurs in the value |
| BigramSimilarity.BigramsEmpty | golfcourseapi-sync.mjs:132-139 | a value has no bigram exactly when it is shorter than two |
| BigramSimilarity.SimilarityScore | golfcourseapi-sync.mjs:141-154 | the score is 0 for an empty side, 1 for equal names, 0.9 for containment, otherwise the bigram Jaccard ratio |
| BigramSimilarity.CountShared | golfcourseapi-sync.mjs:148-151 | the counting loop returns the size of the intersection |
| BigramSimilarity.SimilarityBounds | golfcourseapi-sync.mjs:141-154 | every score lies in [0, 1] |
| BigramSimilarity.SimilaritySymmetric | golfcourseapi-sync.mjs:141-154 | the score does not depend on the argument order |
| BigramSimilarity.SimilarityContained | golfcourseapi-sync.mjs:143-144 | when one name contains the other, the score is 1 or 0.9 |
| BigramSimilarity.SimilarityPositive | golfcourseapi-sync.mjs:141-154 | a positive score means, in both directions: both present and equal, one containing the other, or a shared bigram |
| Resolve.IsJapanCaseInsensitive | golfcourseapi-sync.mjs:156-159 | the Japan test ignores ASCII case |
| Resolve.IsJapanCountry | golfcourseapi-sync.mjs:156-159 | a country recognised as Japan has at least two characters and contains a `j` or `J` |
| Resolve.PickBestMatch | golfcourseapi-sync.mjs:161-181 | the scoring loop returns the best-match specification |
| Resolve.FirstMaxIndexProps | golfcourseapi-sync.mjs:179-180 | the index chosen holds the maximum and is the first that does |
| Resolve.CandidateScoreBounds | golfcourseapi-sync.mjs:167-177 | a candidate score lies in [0, 1.05] and a Japanese course scores at least 0.05 |
| Resolve.BestMatchProps | golfcourseapi-sync.mjs:161-181 | none exactly when no target or no result; otherwise a result whose score no other exceeds and every earlier one is below |
| Resolve.SelectTeeBox | golfcourseapi-sync.mjs:212-238 | the tee loop returns the tee-selection specification |
| Resolve.SelectTeeProps | golfcourseapi-sync.mjs:212-238 | the choice is one of the candidates; it is an 18-hole tee when there is one; a non-matching tee is returned only as the allowed fallback |
| Resolve.FirstMatching | golfcourseapi-sync.mjs:225-234 | the index found names a matching tee and no earlier tee matches; none means no tee matches |
| Resolve.ExtractPars | golfcourseapi-sync.mjs:240-246 | pars are read exactly when the first 18 holes all have an integer par, and then they are those pars |
| Resolve.ExtractParsOfWritten | golfcourseapi-sync.mjs:240-246 | holes written from 18 integers read back as those integers |
| Resolve.SumParsAppend | golfcourseapi-sync.mjs:248 | the sum of a concatenation is the sum of the parts |
| Resolve.SumPars | golfcourseapi-sync.mjs:248 | with no negative par, the total is non-negative and no smaller than any single par |
| Resolve.IsLikelyEstimatedPars | golfcourseapi-sync.mjs:250-253 | pars taken for the placeholder are eighteen holes totalling 72 |
| SyncDriver.SearchInOrder | golfcourseapi-sync.mjs:400-411 | the query loop returns the query-order specification |
| SyncDriver.RunQueriesProps | golfcourseapi-sync.mjs:400-411 | the results come from the first query that returned any; a failure comes from some query; no results means every query found none |
| SyncDriver.CommitProps | golfcourseapi-sync.mjs:448-457 | a committed entry keeps its identity and has 18 pars, nine-hole sums adding to the total, 18 holes and the `golfcourseapi` source |
| SyncDriver.ProcessEntry | golfcourseapi-sync.mjs:381-461 | one entry is processed as the per-entry specification says |
| SyncDriver.ProcessUpdated | golfcourseapi-sync.mjs:381-457 | an entry changes only after a match scoring at least 0.35, a tee and eighteen pars were found, and only when forced or lacking real pars |
| SyncDriver.SyncCatalog | golfcourseapi-sync.mjs:373-468 | the array and the report after the loop are those of the run specification over the original entries |
| SyncDriver.TallyProps | golfcourseapi-sync.mjs:381-463 | each entry adds one to exactly one of updated, skipped or failed, at most one attempt, and keeps the counters consistent with the error log |
| SyncDriver.RunFromConsistent | golfcourseapi-sync.mjs:373-468 | errors equal failures and attempts equal updates plus attempted failures after the whole run |
| SyncDriver.RunFromLimit | golfcourseapi-sync.mjs:373-463 | with a positive limit, at most that many entries are attempted |
| SyncDriver.RunFromCommits | golfcourseapi-sync.mjs:373-468 | every entry after the run is either the original or a consistent commit of it |
| SyncDriver.RerunUnchanged | golfcourseapi-sync.mjs:381-390 | without force, a catalog whose entries all have real pars is left unchanged, and only skips are counted |
| SyncDriver.CommittedHasRealPars | golfcourseapi-sync.mjs:250-253 | a committed entry whose pars are not the placeholder counts as having real pars |
| SyncDriver.RunFromBefore | golfcourseapi-sync.mjs:373-468 | the loop never changes an entry before its current position |
| SyncDriver.RunFromChanged | golfcourseapi-sync.mjs:373-457 | an entry the run changed was reached and processed to a commit, and now holds exactly that commit |
| SyncDriver.RerunRepeatsCommit | golfcourseapi-sync.mjs:483 | as written, an entry the run committed is saved to the JSON as it was read, so a second run with the same options and answers searches for it and commits the same pars again |
| SyncDriver.RerunSkipsCommitted | golfcourseapi-sync.mjs:381-389 | with the committed fields saved, an entry committed with pars other than the placeholder carries the source tag and is skipped by any later run without force |
| CsvRows.ParseCsvRows | src/pages/ScorePhotoPage.tsx:101-156 | the character loop returns the row-reading specification |
| CsvRows.ScanNonBlank | src/pages/ScorePhotoPage.tsx:107-111 | no row made only of blank fields is returned |
| CsvRows.CrLfIsOneBreak | src/pages/ScorePhotoPage.tsx:142-147 | outside quotes CR LF breaks a row exactly like a lone LF |
| CsvRows.ScanQuoted | src/pages/ScorePhotoPage.tsx:118-135 | a quoted field with doubled quotes reads back as its content |
| CsvQuoting.NeedsQuotesIff | golfcourseapi-sync.mjs:285-291 | a field needs quotes exactly when it holds a quote, comma, LF or CR |
| CsvQuoting.EscapeFieldAgrees | golfcourseapi-sync.mjs:285-291 | the corrected escaping equals the written one on every field without CR |
| CsvQuoting.EscapeFieldAsWritten | golfcourseapi-sync.mjs:285-291 | a field changes exactly when it holds a quote, a comma or LF, and then comes back longer by at least two, between quotes |
| CsvQuoting.ScanField | golfcourseapi-sync.mjs:285-291 | an escaped field followed by a comma, LF or the end reads back as itself |
| CsvQuoting.CrSplitsRow | golfcourseapi-sync.mjs:285-291 | a field holding CR between two plain pieces is written bare and read back as two rows |
| CsvQuoting.CrFieldSplitsRow | golfcourseapi-sync.mjs:285-291 | the field `a` CR `b` is read back as the rows `[a]` and `[b]` |
| CsvQuoting.EscapeRowAgrees | golfcourseapi-sync.mjs:285-292 | on fields without CR, escaping a row as written equals the corrected escaping |
| CsvQuoting.EncodeRowJoin | golfcourseapi-sync.mjs:285-292 | a line is the escaped fields joined by commas |
| CsvQuoting.TableRoundTrip | golfcourseapi-sync.mjs:285-294 | written rows read back as themselves, blank rows excepted |
| CsvFormat.FormatCsv | golfcourseapi-sync.mjs:255-295 | the text is the header line and then one line per course, each its fields escaped as written (CR left bare) and joined by commas, all joined by LF |
| CsvFormat.HeadersPlain | golfcourseapi-sync.mjs:256-271 | no column name needs quoting |
| CsvFormat.CsvTextAgrees | golfcourseapi-sync.mjs:255-295 | for courses with no CR in any field, the exported text equals the text with CR quoted too |
| CsvFormat.FormatCsvRoundTrip | golfcourseapi-sync.mjs:255-295 | for courses with no CR in any field, the exported text read back by the CSV reader gives the column names, then, in order, the fields of each course that has a field other than white space (a course whose fields are all empty or white space reads back as a blank row, which the reader drops) |
| CsvFormat.FormatCsvCorrectedRoundTrip | golfcourseapi-sync.mjs:255-295 | with CR quoted as well, the export of any courses reads back as the column names, then, in order, the fields of each course that has a field other than white space (a course whose fields are all empty or white space reads back as a blank row, which the reader drops) |
| CsvFormat.CourseParsReadBack | golfcourseapi-sync.mjs:272-283 | each par column reads back with parseInt as the course's par |
| ParCsv.IndexOfFirst | src/pages/ScorePhotoPage.tsx:162 | the index found is the first occurrence; -1 means absent |
| ParCsv.LookupFirstAlias | src/pages/ScorePhotoPage.tsx:163-176 | a column is found through the first alias present in the header; -1 means none is |
| ParCsv.FindColumn | src/pages/ScorePhotoPage.tsx:163-176 | the alias loop returns the column-lookup specification |
| ParCsv.ResolveColumns | src/pages/ScorePhotoPage.tsx:161-179 | the columns resolved equal those of the header specification, with the per-hole fallback names |
| ParCsv.FullParsOf | src/pages/ScorePhotoPage.tsx:188-191 | full pars exist exactly when every hole parsed, and then they are those values |
| ParCsv.UpdateFields | src/pages/ScorePhotoPage.tsx:194-208 | a row fills only an empty name, an empty prefecture or missing full pars, and adds its segment when its name is new |
| ParCsv.ParseParCsv | src/pages/ScorePhotoPage.tsx:158-211 | the row loop returns the par-table specification of the rows read |
| ParCsv.FoldByCourse | src/pages/ScorePhotoPage.tsx:182-209 | a course is in the table exactly when some row is kept for it, and its entry is built from those rows alone |
| ParCsv.FoldKeys | src/pages/ScorePhotoPage.tsx:184-194 | the table keys are exactly the non-empty course ids of kept rows |
| ParCsv.BuildName | src/pages/ScorePhotoPage.tsx:196-198 | the name is empty exactly when every row's is, and otherwise it is the first non-empty one |
| ParCsv.BuildPrefecture | src/pages/ScorePhotoPage.tsx:195-197 | the prefecture is empty exactly when every row's is, and otherwise it is the first non-empty one |
| ParCsv.BuildFullPars | src/pages/ScorePhotoPage.tsx:199-201 | full pars are missing exactly when no row has all 18, and otherwise come from the first that has |
| ParCsv.BuildSegmentsDistinct | src/pages/ScorePhotoPage.tsx:202-207 | segment names are distinct |
| ParCsv.BuildSegmentsComplete | src/pages/ScorePhotoPage.tsx:202-207 | every segment row's name appears among the segments |
| ParCsv.BuildSegmentsSound | src/pages/ScorePhotoPage.tsx:202-207 | every segment comes from the first row carrying its name |
| ParMerge.MergeCourse | src/pages/ScorePhotoPage.tsx:221-228 | merging one course follows the course-merge specification |
| ParMerge.MergeTable | src/pages/ScorePhotoPage.tsx:215-230 | merging one map follows the map-merge specification |
| ParMerge.MergeParMaps | src/pages/ScorePhotoPage.tsx:213-232 | the loop over the maps returns the fold of the map-merge specification |
| ParMerge.AddSegmentsPrefix | src/pages/ScorePhotoPage.tsx:224-228 | existing segments are kept in order and added ones come from the incoming list |
| ParMerge.AddSegmentsKept | src/pages/ScorePhotoPage.tsx:224-228 | the merged list is the existing segments followed by exactly the incoming segments at the `FirstNew` positions (first under their name in the incoming list, name not already present), in the incoming order |
| ParMerge.KeptFirst | src/pages/ScorePhotoPage.tsx:224-228 | every added segment is the first incoming segment under its name, and every first incoming segment under a new name is added |
| ParMerge.AddSegmentsHas | src/pages/ScorePhotoPage.tsx:224-228 | a segment name is present after merging exactly when either list had it |
| ParMerge.AddSegmentsDistinct | src/pages/ScorePhotoPage.tsx:224-228 | merging keeps segment names distinct |
| ParMerge.CombineField | src/pages/ScorePhotoPage.tsx:222-223 | a name or prefecture is taken from the incoming data only when the existing one is empty |
| ParMerge.MergeIntoKeeps | src/pages/ScorePhotoPage.tsx:215-230 | an existing course keeps its segments as a prefix, its full pars and any non-empty name or prefecture |
| ParMerge.MergeKeys | src/pages/ScorePhotoPage.tsx:213-232 | a course is in the merge exactly when some map has it |
| ParMerge.MergeFullPars | src/pages/ScorePhotoPage.tsx:217-219 | full pars come from the first map holding the course |
| ParMerge.MergeFirstFilled | src/pages/ScorePhotoPage.tsx:217-223 | a merged name or prefecture is empty exactly when all are, and otherwise is the first non-empty one |
| ParMerge.MergeSegmentsHas | src/pages/ScorePhotoPage.tsx:224-228 | a segment name is present exactly when some map has it for the course |
| ParMerge.MergeSegmentsAppend | src/pages/ScorePhotoPage.tsx:215-228 | a later map holding a course already merged appends after the merged segments exactly its kept segments, in its own order |
| ParMerge.MergeSegmentsSound | src/pages/ScorePhotoPage.tsx:215-228 | every segment of a merged course comes from the first map holding its name for that course, as the first segment under that name there, except that the first map holding the course is copied whole |
| ParMerge.MergeDistinct | src/pages/ScorePhotoPage.tsx:213-232 | segment names stay distinct after merging tables read from CSV |
| ScoreHelpers.CreateEmptyScores | src/pages/ScorePhotoPage.tsx:30 | the given number of empty scores |
| ScoreHelpers.SanitizeNumberInput | src/pages/ScorePhotoPage.tsx:33 | the result holds only digits and is no longer than the input |
| ScoreHelpers.SanitizeAppend | src/pages/ScorePhotoPage.tsx:33 | sanitizing distributes over concatenation |
| ScoreHelpers.SanitizeDigits | src/pages/ScorePhotoPage.tsx:33 | an all-digit input is unchanged |
| ScoreHelpers.SanitizeIdempotent | src/pages/ScorePhotoPage.tsx:33 | sanitizing twice is sanitizing once |
| ScoreHelpers.ParseScoreValue | src/pages/ScorePhotoPage.tsx:354-357 | an empty field has no score; a field of digits reads as its decimal value |
| ScoreHelpers.SumScores | src/pages/ScorePhotoPage.tsx:35-36 | when no score reads as negative, the total is non-negative and at least each single score |
| ScoreHelpers.SumScoresAppend | src/pages/ScorePhotoPage.tsx:35-36 | the sum of a concatenation is the sum of the parts |
| ScoreHelpers.SumEmptyScores | src/pages/ScorePhotoPage.tsx:30-36 | empty scores sum to 0 |
| ScoreHelpers.SumScoresWritten | src/pages/ScorePhotoPage.tsx:35-36 | integers written as text sum to their arithmetic sum |
| ScoreHelpers.GetScoreIcon | src/pages/ScorePhotoPage.tsx:359-370 | no symbol is shown exactly when the score or the par does not parse |
| ScoreHelpers.IconRoundTrip | src/pages/ScorePhotoPage.tsx:362-369 | the symbol shown identifies the difference to par, with -2 and below shown alike |
| ScoreHelpers.IconsDistinct | src/pages/ScorePhotoPage.tsx:362-369 | different differences above -2 get different symbols |
| ScoreHelpers.GetScoreIconReads | src/pages/ScorePhotoPage.tsx:359-370 | the symbol for a parsed score and par reads back as their difference |
| ScoreHelpers.FormatDateDisplay | src/pages/ScorePhotoPage.tsx:372-377 | an empty date stays empty |
| ScoreHelpers.FormatDateNoHyphen | src/pages/ScorePhotoPage.tsx:372-377 | a value without a hyphen is unchanged |
| ScoreHelpers.FormatDateParts | src/pages/ScorePhotoPage.tsx:372-377 | `y-m-d` with non-empty parts becomes `y.m.d` |
| ScoreHelpers.PatternSum | src/pages/ScorePhotoPage.tsx:274-283 | pars of 4 with `count` holes changed to `value` sum to 4 × length + count × (value − 4) |
| ScoreHelpers.BuildEstimatedPars | src/pages/ScorePhotoPage.tsx:268-285 | pars exist exactly for a total within 6 of 72 on 18 holes; there are 18, each 3 to 5, summing to the total; exactly the first \|total − 72\| differ from 4 |
| LocalCourses.NormalizeKeyword | src/pages/ScorePhotoPage.tsx:65 | the keyword is no longer than the value |
| LocalCourses.FirstFilled | src/pages/ScorePhotoPage.tsx:326-327 | a non-empty result is one of the given values |
| LocalCourses.ParsedWritten | src/pages/ScorePhotoPage.tsx:298-302 | integers written as text are read back by the par filter unchanged |
| LocalCourses.ReadSegment | src/pages/ScorePhotoPage.tsx:306-313 | a segment is kept exactly when its trimmed name is non-empty and it has nine integer pars |
| LocalCourses.ReadSegmentsGood | src/pages/ScorePhotoPage.tsx:304-315 | every kept segment has a non-empty name and nine pars |
| LocalCourses.ReadCourse | src/pages/ScorePhotoPage.tsx:294-338 | a record becomes a course exactly when it has an id and a trimmed name |
| LocalCourses.ReadCourseShape | src/pages/ScorePhotoPage.tsx:295-337 | a course read is well formed and has its id, trimmed name, kana and prefecture taken from the record as the fallbacks direct; its pars are the record's pars exactly when 18 read, its segments the usable segment records exactly when at least two are usable, and its total and hole count (`holes`, else `holeCount`) are the record's |
| LocalCourses.ExtractLocalCourses | src/pages/ScorePhotoPage.tsx:287-341 | the courses are exactly those of the records with an id and a name, from `entries` first or else `courses`, all well formed |
| LocalCourses.ReadCoursesExact | src/pages/ScorePhotoPage.tsx:292-339 | every course read comes from a record and is well formed, and every record with an id and a name yields one |
| LocalCourses.ReadRecord | src/pages/ScorePhotoPage.tsx:294-338 | a well-formed course written as a record reads back as itself |
| LocalCourses.SegmentRecordsRead | src/pages/ScorePhotoPage.tsx:304-315 | segments written as records read back as themselves |
| LocalCourses.MergeOne | src/pages/ScorePhotoPage.tsx:251-266 | only the prefecture, pars and segments can change |
| LocalCourses.MergeCourseParData | src/pages/ScorePhotoPage.tsx:251-266 | each course keeps its place and identity; a course the table lacks is unchanged; a blank prefecture is filled, 18 full pars replace the pars, and two or more segments replace the segments |
| LocalCourses.MergeCourseParDataIdempotent | src/pages/ScorePhotoPage.tsx:251-266 | completing twice changes nothing more |
| LocalCourses.EveryTokenIff | src/pages/ScorePhotoPage.tsx:343-352 | every token matches name, kana, prefecture or id, in both directions |
| LocalCourses.MatchCourse | src/pages/ScorePhotoPage.tsx:343-352 | a course matches exactly when there is a token and every token matches one of its search fields |
| LocalCourses.MatchOwnName | src/pages/ScorePhotoPage.tsx:343-352 | a course matches the keyword made from its own name |
| MediaUpload.Admitted | src/components/MediaUploadSection.tsx:115-123 | the files added are the first acceptable ones, as many as fit under MAX_FILES |
| MediaUpload.AcceptedIff | src/components/MediaUploadSection.tsx:103-113 | a file passes screening exactly when it is an image or video of at most 20 MiB |
| MediaUpload.ScreenCount | src/components/MediaUploadSection.tsx:103-113 | each incoming file is either accepted or reported, never both |
| MediaUpload.AddErrorsLimits | src/components/MediaUploadSection.tsx:115-123 | the full-list error appears exactly when the list is full; the over-limit error exactly when files had to be dropped |
| MediaUpload.WithoutIndexSpec | src/components/MediaUploadSection.tsx:158-166 | removing by index drops that element only, and ignores an index out of range |
| MediaUpload.SubmitBlock | src/components/MediaUploadSection.tsx:178-200 | submission is blocked exactly when there is no file, no consent, or an unconfigured service |
| MediaUpload.UploadSelection.constructor | src/components/MediaUploadSection.tsx:73-84 | the selection starts empty and idle |
| MediaUpload.UploadSelection.AddFiles | src/components/MediaUploadSection.tsx:97-136 | a missing list changes nothing; otherwise the admitted files are appended, the screening and limit errors are set, and progress resets when files are added while idle and is left as it was while submitting |
| MediaUpload.UploadSelection.RemoveFile | src/components/MediaUploadSection.tsx:158-166 | the file at the index is removed, errors are cleared and, when idle, its progress is removed |
| MediaUpload.UploadSelection.ClearFiles | src/components/MediaUploadSection.tsx:168-176 | all files and errors are cleared and, when idle, progress resets |
| MediaUpload.UploadSelection.BeginSubmit | src/components/MediaUploadSection.tsx:178-205 | the upload starts exactly when no guard blocks it, with one zero progress per file; otherwise the first failed guard's error is shown |

## Left out

- Network, file system, console, sleeping and the process exit code are not modelled:
  - remote searches and HTTP responses are parameters;
  - sleeps are returned as a list of delays;
  - reading and writing the catalog file and the CSV export, and the `meta` block written after the run (golfcourseapi-sync.mjs:466-485), are left out; which catalog each file receives is modelled by `SavedJson` and `SavedJsonCorrected`;
  - `loadParCourseMap` (src/pages/ScorePhotoPage.tsx:234-249) only fetches CSV files and passes them to `parseParCsv` and `mergeParMaps`, which are modelled.
- `toRomaji` (from the `wanakana` package) is a parameter of `NormalizeRomaji` and `BuildSearchQueries`, because the package is not part of this model.
- `buildSearchUrl` (golfcourseapi-sync.mjs:297-301) builds a URL with the platform URL class and is not part of this model; the search function stands in for it.
- JavaScript strings are UTF-16 code units. The model uses characters, so bigrams and lengths of text outside the basic multilingual plane differ.
- Scores are `real`, not floating point.
- `toLowerCase` is modelled on ASCII letters only.
- `parseInt` is modelled on decimal digit strings of any length, where JavaScript loses precision or returns `Infinity`.
- The catalog records are modelled with their fields already present or absent:
  - `String(...)` of arbitrary JavaScript values and `null` records are not modelled, nor are non-array values, except the sync's `areaCodes`: a value there that is not an array is `None`, which the area filter lets through (golfcourseapi-sync.mjs:376) and which the CSV export does not model faithfully (see `CsvFormat.CourseFields` below);
  - `parTotal` and `holes` are integers;
  - in the sync, the `parList`/`pars` value is a list of integers: a non-array value (read as no pars) and list elements that are not numbers, which `=== 4` and the par sums would treat differently, are not modelled;
  - a non-integer or non-finite total is modelled only as a missing one.
- `Object.entries` order is not modelled: maps are unordered, so the order in which a merged map lists its courses is left out.
- `formatBytes` (src/components/MediaUploadSection.tsx:13-20) and the wording of error messages are not modelled. Each message is an `UploadError` kind that carries the file name where the source shows one.
- The upload itself, its progress callbacks, the consent text and the database insert after `handleSubmit`'s guards are left out. `BeginSubmit` models the guards and the state set before the first upload.
- React batches state updates and `addFiles` reads the `selectedFiles` captured when it was created. The model applies each handler to the current state.
- The total size display and the other parts of the components' rendering are not modelled.
- CsvFormat.CourseFields: an entry whose `areaCodes` is not an array (`None`) is written with an empty area field. In the source, `course.areaCodes?.join('|')` (golfcourseapi-sync.mjs:276) throws a TypeError on such a value, so `formatCsv` fails, the CSV file is never written (golfcourseapi-sync.mjs:482-485), and `main` exits with code 1 (golfcourseapi-sync.mjs:491-494). `FormatCsv`, `CsvText` and their round-trip lemmas therefore describe the export only for catalogs whose area codes are all arrays or missing.
- SyncDriver.SyncCatalog: the `delayMs` sleep between entries and the progress line every 25 attempts are not modelled.
- ScoreHelpers.FormatDateDisplay: its contract states only the empty and hyphen-free cases and the three-part case (in the lemmas), not every way a value can split on hyphens.
- LocalCourses.NormalizeKeyword: its contract states only the length bound; the lower-case and trimmed shape is used through `MatchOwnName`.
- The provenance tag tested before a run and written on commit is `golfcourseapi`, as in golfcourseapi-sync.mjs:383 and 452.

## Findings

| source | as written | input that shows it | evidently intended | confidence | as-written member | corrected member |
|---|---|---|---|---|---|---|
| golfcourseapi-sync.mjs:285-291 | a field is quoted only when it holds a quote, comma or LF, so a field holding CR is written bare; the CSV reader (src/pages/ScorePhotoPage.tsx:142-147) ends a row at a bare CR | the field `a` CR `b` is read back as the two rows `[a]` and `[b]` | every field reads back as itself, so CR also forces quotes | not executed | CsvQuoting.CrFieldSplitsRow | CsvFormat.FormatCsvCorrectedRoundTrip |
| golfcourseapi-sync.mjs:483 | the JSON written back is the parsed input with only `meta` added; the commits go into the mapped copies built at lines 356-365, which reach only the CSV; those copies never carry `parSource`, so the test at line 383 never holds | a catalog entry without pars whose search succeeds: the run commits it, and the next run over the written JSON searches for it and commits it again | the committed fields persist, so the next run without `--force` skips the entry | not executed; the output path defaults to the input file (line 331), which suggests the catalog was meant to be updated | SyncDriver.RerunRepeatsCommit | SyncDriver.RerunSkipsCommitted |
