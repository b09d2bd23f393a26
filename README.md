# goMeeb core, modelled in Dafny

goMeeb finds rare values in collections of CSV files. This project models its three programs:

- **mel** (`mel/mel.go`) reads every CSV file and finds the selected header columns in each file's header row. It groups each data row under the value the row holds in such a column, and counts the rows it groups. It then merges the groups of all files. Finally it reports every row whose group is rare: the log10 of the group's share of all grouped rows is below a threshold. The report is sorted by that score, ascending.
- **meeb** (`meeb/meeb.go`) does the same for one header column. It keeps only a count per value, not the rows.
- **baseline** (`baseline/baseline.go`) walks the `.csv` files of a directory. For each readable file that has the header, it collects the set of values in that column. Each value's result is the share of such files that contain it. The results are sorted by share, descending.

The Dafny modules follow the programs:

- `Tabular` holds the parsed-file input, header lookup and the worker-count heuristic.
- `Folds` holds sums of count maps and unions of bags keyed by value.
- `Sorting` holds an in-place insertion sort that stands for `sort.Slice`.
- `Mel`, `Meeb` and `Baseline` model the three programs.

How the model stands in for what it cannot run:

- **Files.** A file is a `FileInput`: it cannot be opened, it cannot be parsed, or it parsed into records.
- **Scores.** The score `log10(count/total)` is a parameter `score: (nat, nat) -> real`. Where order matters, the model assumes the score is strictly increasing in the count.
- **Concurrency.** The concurrent workers are modelled as a sequential pass over the files in input order. For both mel and meeb, the result is proved to be the same for every order in which the workers finish their files. For mel, only the order of the rows inside each merged group can differ.

Each state-changing loop of the source is a method with loop invariants. The method is proved against a specification function. The lemmas beside it prove what the programs promise:

- **Counts.** They are conserved: the total equals the sum of the per-value counts and equals the number of values seen.
- **Merge.** It loses and invents nothing.
- **Anomalies.** Exactly the rows, or values, below the threshold are reported.
- **Order.** The result is sorted and is a permutation of the rare rows.

## Model

| member | source | states |
|---|---|---|
| Tabular.IndexOf | mel/mel.go:215-221 | the header index is -1 exactly when the name is absent from the header row; otherwise it is the position of the first occurrence |
| Tabular.FindHeaderIndex | meeb/meeb.go:245-254 | the break-on-first-match search loop returns the first position of the header, or -1 when it is absent |
| Tabular.DetermineNumGoroutines | mel/mel.go:121-131 | the worker count is half the number of files, clamped to 1..10; fewer than 2 files give 1, and 22 or more give 10 |
| Mel.AttributeColumn | mel/mel.go:230-240 | the row loop for one header adds each long-enough row to the group of its value, and skips short rows; the count grows by exactly the number of rows added |
| Mel.TallyRecords | mel/mel.go:212-241 | the header loop skips missing headers; the resulting groups and count are those of the grouping specification |
| Mel.ProcessFile | mel/mel.go:191-244 | a file that cannot be opened gives the open error; a file that cannot be read gives the read error; a parsed file gives its groups and its count of grouped rows |
| Mel.GroupedMember | mel/mel.go:213-241 | a row is in the group of value k exactly when it is a data row and, for some selected header present in the header row, the row reaches that column and holds k there |
| Mel.TallyRows | mel/mel.go:212-241 | a value has a group exactly when some row is grouped under it, and its group lists those rows in file order, header by header |
| Mel.TallyConservation | mel/mel.go:230-240 | the number of rows across all groups of one file equals the count the file returns |
| Mel.TallyNonEmpty | mel/mel.go:238 | every group that processFile creates holds at least one row |
| Mel.MergeInto | mel/mel.go:182-184 | merging one file's groups into the aggregate appends that file's rows to each value's group and keeps every other group |
| Mel.MergeAllRows | mel/mel.go:181-185 | after the merge, a value has a group exactly when some file has it, and its rows are the files' rows in file order |
| Mel.MergeAllConservation | mel/mel.go:164-166 | the rows in the merged groups number exactly the sum of the per-file counts, and no merged group is empty |
| Mel.MergeAllPermutation | mel/mel.go:181-185 | merging the same partial results in any other order gives the same keys, each holding the same bag of rows |
| Mel.ArrivalOrder | mel/mel.go:157-185 | for well-formed partial results in any two orders, the merged bags, the summed total and the rare-row report coincide |
| Mel.DeliveryOrder | mel/mel.go:157-185 | whatever order the workers deliver the successful files' results in, the merged bags, the total and the anomaly report equal those of the input-order result that AggregateData returns |
| Mel.RareRowsBags | mel/mel.go:253-264 | the anomaly report depends on each group only as a bag of rows, not on the order of its rows |
| Mel.AggregateData | mel/mel.go:134-188 | failed files are skipped; the aggregate is the merge of the successful files' groups; the total is the sum of their counts and equals the number of merged rows; each group's size is between 1 and the total |
| Mel.CollectAnomalies | mel/mel.go:253-264 | the collected rows form, as a bag, exactly the rare-row bag: every row of every group whose score is below the threshold, tagged with the group's count and score |
| Mel.IdentifyAnomalies | mel/mel.go:249-275 | the result is a permutation of the rare-row bag, sorted by score ascending |
| Mel.RareRowsMember | mel/mel.go:259-262 | an entry is reported exactly when its row belongs to a group whose score is below the threshold, and it carries that group's size and score |
| Mel.RareRowsSize | mel/mel.go:260-262 | the number of reported entries is the sum of the sizes of the rare groups, one entry per row |
| Mel.RareRowsThreshold | mel/mel.go:259 | lowering the threshold reports a sub-bag of the entries |
| Meeb.CountColumn | meeb/meeb.go:270-276 | the counting loop yields the per-value counts of the column, and the count equals the number of data rows |
| Meeb.ProcessFile | meeb/meeb.go:219-280 | an unopenable or unreadable file, or one without the header, gives empty counts and 0; otherwise the result is the value counts of the header column and the number of data rows |
| Meeb.TallyCount | meeb/meeb.go:273 | each value's count is its number of occurrences in the column; a value has a count exactly when it occurs |
| Meeb.TallySum | meeb/meeb.go:273-274 | the per-value counts add up to the number of rows counted |
| Meeb.TallyPermutation | meeb/meeb.go:270-276 | the counts do not depend on row order |
| Meeb.TallyAppend | meeb/meeb.go:204-212 | adding the counts of two value lists equals counting their concatenation, so merging per-file counts gives the counts of all values |
| Meeb.MergeInto | meeb/meeb.go:206-210 | adding one file's counts into the aggregate gives key-wise sums over the union of keys |
| Meeb.MergeAllValues | meeb/meeb.go:204-212 | merging all per-file counts equals counting every value of every file together |
| Meeb.AllValuesPermutation | meeb/meeb.go:181-186 | files delivered in any other order contribute the same bag of values |
| Meeb.DeliveryOrder | meeb/meeb.go:177-212 | whatever order the workers deliver the files' maps in, the aggregate counts and the total equal those of the input order that AggregateData follows |
| Meeb.AggregateData | meeb/meeb.go:168-216 | the aggregate is the value counts of all files' columns; the total is the number of those values and equals the sum of the aggregate; every count is between 1 and the total |
| Meeb.CollectRare | meeb/meeb.go:288-299 | a line is collected exactly when its value is counted, it carries that count and score, and the score is below the threshold; no line is collected twice |
| Meeb.IdentifyAnomalies | meeb/meeb.go:283-310 | corrected: the same rare lines, no value twice, ordered by score ascending (numerically) |
| Meeb.RareThreshold | meeb/meeb.go:293 | a line reported under a lower threshold is also reported under any higher one |
| Meeb.ScoreOrderIsCountOrder | meeb/meeb.go:290-291 | for an increasing score, ordering lines by score is ordering them by count |
| Meeb.TextLeTotal | meeb/meeb.go:304 | string comparison, as the as-written sort uses it, orders any two strings |
| Meeb.TextLeTransitive | meeb/meeb.go:304 | string comparison is transitive |
| Meeb.IdentifyAnomaliesAsWritten | meeb/meeb.go:302-306 | as written: the rare lines, no value twice, ordered by their formatted score strings |
| Meeb.TextSortMisordersScores | meeb/meeb.go:302-306 | counts 1 and 10 out of 100 with threshold -0.5: the as-written order puts the score -1 line before the score -2 line, so the result is not ascending by score |
| Baseline.IsCsvNameStem | baseline/baseline.go:231 | a name passes the suffix filter exactly when it is some stem followed by ".csv" |
| Baseline.GetHeaderFromCSV | baseline/baseline.go:150-197 | no records gives the empty-file error; a header missing from the first row gives the not-found error; otherwise the set holds exactly the values of the header column in data rows long enough to reach it |
| Baseline.AddPaths | baseline/baseline.go:254-258 | every value of one file's set counts once more; other counts are unchanged |
| Baseline.CountFiles | baseline/baseline.go:229-262 | the file count is the number of accepted entries (.csv name, readable, header found); the counts are the per-value occurrences over their value sets |
| Baseline.OccurrencesCount | baseline/baseline.go:252-258 | a value's count is the number of counted files whose set contains it; a value is counted exactly when some counted file contains it |
| Baseline.OccurrencesBounds | baseline/baseline.go:252-258 | every counted value is in at least one and at most all counted files |
| Baseline.Averages | baseline/baseline.go:264-271 | one line per counted value, holding its count divided by the number of counted files; no line twice |
| Baseline.ShareOrder | baseline/baseline.go:268 | for a positive number of files, ordering by share is ordering by count |
| Baseline.CompareFiles | baseline/baseline.go:213-288 | the results are exactly the average lines of the counted values, no value twice, sorted by share descending, each share in (0, 1] |
| Sorting.SortBy | mel/mel.go:267-272 | sorting in place leaves the array sorted by the given total, transitive order and a permutation of the original |
| Folds.AddCountsCommutes | meeb/meeb.go:204-212 | merging two count maps gives the same map whichever is merged into which |
| Folds.AddCountsAssociates | meeb/meeb.go:204-212 | merging three count maps gives the same map however the merges are grouped |
| Folds.SumAddCounts | meeb/meeb.go:204-212 | merging count maps adds their totals |

## Left out

- **Command line.** The flags, `main`, output renderers and log messages are not modelled. They are I/O.
- **File discovery and CSV parsing.** Covers `getCSVFiles` and `os.ReadDir`. A file is given as a `FileInput`, already read, parsed, or marked as failing to open or to parse.
- **Ragged files in baseline.** baseline's `readCSV` keeps the CSV reader's default of one field count per file, unlike mel and meeb (mel/mel.go:201, meeb/meeb.go:234). So a baseline file whose rows differ in length is a read error and is skipped. The model lets a parsed baseline file have rows of any length. For such files the short-row branch of `getHeaderFromCSV` is modelled even though `compareFiles` never reaches it. This adds behaviour but removes none.
- **`readCSV` and `readBaseline`.** They are this I/O and `getHeaderFromCSV`. The baseline set argument of `compareFiles` is never used by its body, so it is not modelled.
- **Concurrency.** Goroutines, channels, the mutex and the worker count's effect are left out. The per-file results are folded sequentially in input order. `Meeb.DeliveryOrder` shows that meeb's counts and total do not depend on that order. For mel, `Mel.DeliveryOrder` shows that only the order of the rows within a merged group depends on it. The model does not fix which row order a given run produces.
- **Floating point.** `log10` is an abstract `score` parameter over exact reals. Rounding of the division and the `%d`/`%f`/`%.2f` formatting are left out, and so is `strconv.ParseFloat`.
- **Output shape.** mel's and meeb's output lines keep count, score and row or value as fields rather than as formatted strings. baseline's lines keep the share as a real.
- **Sort algorithm.** `sort.Slice` is modelled by an insertion sort. The contract is sortedness and permutation; the order of equal-score entries is not specified. Go's sort is not stable either.
- Mel.ProcessFile: requires that a parsed file has at least one record. The source indexes `records[0]` and panics on an empty file.
- Meeb.ProcessFile: requires that a parsed file has at least one record. It also requires that, when the header is found, every data row reaches the header's column. The source panics in both cases, at `records[0]` and at `record[headerIndex]` (meeb/meeb.go:272).
- Mel.AggregateData: inherits Mel.ProcessFile's precondition for every file.
- Meeb.AggregateData: inherits Meeb.ProcessFile's precondition for every file.
- Meeb.ScoreOrderIsCountOrder: assumes the score is strictly increasing in the count, which `log10(count/total)` is for a positive total.
- Baseline.Averages: requires a positive file count whenever some value was counted. This always holds in `compareFiles`, where a value is counted only in a counted file.
- **Absent versus empty maps.** Go's `nil` map and an empty map are not distinguished. meeb's failing files return `nil`, which the merge treats as empty.
- **Errors.** Error values and messages are modelled as error constructors, not as text.

## Findings

| source | as written | input that shows it | evidently intended | confidence | as-written member | corrected member |
|---|---|---|---|---|---|---|
| meeb/meeb.go:302-306 | the anomalies are sorted by comparing the `%f`-formatted score strings | three values with counts 1, 10 and 89 of 100 entries and threshold -0.5: the first two are rare, with scores -2 and -1, and the string "-1.000000" sorts before "-2.000000" | ascending numeric order of the score, as the comment above the sort and mel's numeric sort state | not executed | Meeb.IdentifyAnomaliesAsWritten, Meeb.TextSortMisordersScores | Meeb.IdentifyAnomalies |
