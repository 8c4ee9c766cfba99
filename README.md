# Tabular data cleaning core, modelled in Dafny

This project models the deterministic core of a small data-cleaning tool. The
core is `lib/cleaning.ts` and the statistics helpers it calls in `lib/stats.ts`.
Its parts are:

- **Schema inference** (`inferSchema`, `isDateLike`). It samples the first
  `maxRows` rows and collects the distinct column keys in first-seen order. Each
  key's type is the bucket that most of its non-missing cells vote for: number,
  string, boolean, date or unknown.
- **`cleanData`**, four stages in order:
  - **A, standardize.** String cells of `string` columns are trimmed and
    re-cased by `normalizeValueStr`. Date cells are re-rendered by the date
    formatter wherever it recognises them.
  - **B, missing values.** The mean and median of each number column and the
    mode of each string or boolean column are computed once. Each row's missing
    cells are then filled or the row is dropped, column by column.
  - **C, dedupe.** Rows are grouped by the JSON record of their values under
    the dedupe keys, and the first row of each group is kept.
  - **D, outliers.** A z-score is computed for every target column. Rows with a
    score beyond the threshold are removed, or marked with an `__outliers__`
    cell.
  - A `CleaningSummary` counts what each stage did.
- **Statistics:** `mean`, `median`, `mode` (first-encountered tie-break),
  population `stddev` and `zScores`.

## How the model is organised

- **Value modules.** `Options`, `Seqs`, `Types` and `Runtime` hold the data
  model and the host primitives.
  - A row keeps its keys in JavaScript insertion order, because column order
    comes from `Object.keys`.
  - NaN is a cell of its own (`Cell.NaN`), and `mean`/`median` of no values
    return `None`.
  - `Number(string)`, `String(number)`, the date formatter and `Math.sqrt`
    are fields of a `Host` value. Every result is stated relative to them.
- **Stage modules.** `Text`, `Inference`, `Standardize`, `Missing`, `Dedupe`,
  `Outliers` and `Stats` follow the source's functions.
  - Each loop of the source is a `method` with a loop.
  - Each method is proved equal to a specification function over the
    sequence prefix it has visited.
  - The source's promises are lemmas about those specification functions.
- **`Cleaning`** composes the stages into `CleanSpec` and proves that
  `CleanData` computes it. It also proves the summary's accounting identities.

## Model

| member | source | states |
|---|---|---|
| Types.Set | lib/cleaning.ts:84-93 | `r[k] = v` makes `k` read `v` and leaves every other key's cell as it was; an existing key keeps its place, a new key is appended |
| Types.TypeOf | lib/cleaning.ts:108 | `schema.columns.find(...)?.type` is defined exactly for the keys of the schema |
| Types.TypeOfColumn | lib/cleaning.ts:108 | with distinct keys, looking up column `i`'s key finds column `i`'s type |
| Types.NumericColumns | lib/cleaning.ts:71 | `numericCols` holds exactly the keys of the `number` columns |
| Seqs.Distinct | lib/cleaning.ts:13 | `Array.from(new Set(...))` holds every element of the input exactly once and nothing else |
| Seqs.DistinctFirstSeenOrder | lib/cleaning.ts:13 | the distinct elements appear in the order of their first occurrence |
| Seqs.DistinctOfNoDuplicates | lib/cleaning.ts:13 | a sequence without repetitions is its own set of distinct elements |
| Text.Trim | lib/cleaning.ts:23 | `trim` gives the infix of its input that neither starts nor ends with white space and has only white space outside it, so it is no longer than its input and leaves a trimmed string unchanged |
| Text.ToLowerCharacterised | lib/cleaning.ts:40 | `toLowerCase` keeps the length, leaves no upper-case ASCII letter, leaves every other character as it is, and changes a letter only in case |
| Text.ToUpperCharacterised | lib/cleaning.ts:41 | `toUpperCase` keeps the length, leaves no lower-case ASCII letter, leaves every other character as it is, and changes a letter only in case |
| Text.NonSpaceRun | lib/cleaning.ts:42 | the `\S*` part of a token is the longest run of non-space characters, ending at white space or at the end |
| Text.TitleCase | lib/cleaning.ts:42 | definition: the replacement of every `\w\S*` match by its upper-cased first character and lower-cased rest; it keeps the length, and its properties are the lemmas below |
| Text.TitleCaseKeepsSpaces | lib/cleaning.ts:42 | replacing the `\w\S*` tokens never changes a white-space character and never creates one |
| Text.TitleCaseWordHead | lib/cleaning.ts:42 | a leading token becomes its first character upper-cased and its rest lower-cased, of the same length, followed by the title-cased remainder |
| Text.TitleCaseIdempotent | lib/cleaning.ts:42 | title casing twice is title casing once |
| Text.TitleCaseAfterPunctuation | lib/cleaning.ts:42 | a token opening with punctuation keeps it, and its first word character becomes the capital: `(abc` becomes `(Abc` |
| Text.TitleCaseAfterDigit | lib/cleaning.ts:42 | a token opening with a digit gets no capital letter: `1AB` becomes `1ab` |
| Text.ToLowerIdempotent | lib/cleaning.ts:40 | lower-casing twice is lower-casing once |
| Text.ToUpperIdempotent | lib/cleaning.ts:41 | upper-casing twice is upper-casing once |
| Text.CaseMapsKeepTrimmed | lib/cleaning.ts:38-42 | a trimmed string stays trimmed under each of the three casings |
| Text.Join | lib/cleaning.ts:195 | `join(',')` of one name is that name, and of none is the empty string |
| Text.JoinSnoc | lib/cleaning.ts:195 | joining two or more names puts the separator between the join of all but the last and the last |
| Inference.IsDateLike | lib/cleaning.ts:5-9 | definition: one of the three start-anchored patterns matches; `DateLikeByPrefix` and `DateLikeExtends` characterise it |
| Inference.DateLikeByPrefix | lib/cleaning.ts:5-9 | `isDateLike` holds exactly when the string has at least ten characters and its first ten match one of the three anchored patterns |
| Inference.DateLikeExtends | lib/cleaning.ts:7 | the patterns are anchored only at the start, so anything may follow a date-like prefix |
| Inference.ClassifyString | lib/cleaning.ts:22-27 | a trimmed string is boolean exactly when it is "true"/"false" in any case; otherwise it is a number exactly when `Number` parses it; otherwise it is a date exactly when it is date-like, and a string exactly when it is not; it is never unknown |
| Inference.Classify | lib/cleaning.ts:18-28 | a cell casts no vote exactly when it is null, undefined or `''`; a native number or NaN votes number, a native boolean votes boolean, a present string votes its string classification, and no cell votes unknown |
| Inference.Bump | lib/cleaning.ts:20-27 | `counts[t]++` adds one to bucket `t` and leaves the other buckets alone |
| Inference.PickType | lib/cleaning.ts:30 | the chosen bucket has the highest count, and every bucket earlier in `number, string, boolean, date, unknown` order has a strictly lower count |
| Inference.PickTypeUnique | lib/cleaning.ts:30 | those two properties determine the chosen bucket |
| Inference.TallyTotal | lib/cleaning.ts:16-29 | the counters add up to the number of sampled rows whose cell is present, and the unknown counter stays 0 |
| Inference.TallyCountsBallots | lib/cleaning.ts:17-29 | each counter equals the number of votes for its bucket |
| Inference.NoVotes | lib/cleaning.ts:17-29 | a bucket no cell votes for has count 0 |
| Inference.SomeVote | lib/cleaning.ts:17-29 | a bucket some cell votes for has a positive count |
| Inference.Unanimous | lib/cleaning.ts:16-30 | when every present cell votes `t` and at least one is present, the column is typed `t` |
| Inference.AllMissingIsNumber | lib/cleaning.ts:16-30 | a column whose sampled cells are all missing is typed `number` |
| Inference.AllKeysMembers | lib/cleaning.ts:13 | `flatMap(Object.keys)` contains exactly the keys of the sampled rows |
| Inference.InferredColumns | lib/cleaning.ts:12-15 | the schema has one entry per distinct key of the sampled rows, no key twice, in first-seen order |
| Inference.InferredTypes | lib/cleaning.ts:15-31 | each column's type is never unknown and has at least as many votes as any other bucket |
| Inference.EmptySample | lib/cleaning.ts:12-15 | an empty table, or `maxRows` 0, gives an empty schema |
| Inference.InferSchemaSpec | lib/cleaning.ts:11-34 | definition: one column per distinct sampled key, typed by `PickType` of its tally; `InferredColumns`, `InferredTypes`, `EmptySample` and `AllMissingIsNumber` state its properties |
| Inference.InferSchema | lib/cleaning.ts:11-34 | the loop over the keys computes the specified schema |
| Inference.TallyColumn | lib/cleaning.ts:16-29 | the counting loop over the sample computes the specified counts |
| Standardize.NormalizeValueStr | lib/cleaning.ts:36-45 | without trimming the length is kept; with trimming it does not grow |
| Standardize.NormalizeTrims | lib/cleaning.ts:36-38 | with `trim` the result is trimmed, and a trimmed string with casing `none` is left as it is |
| Standardize.NormalizeCases | lib/cleaning.ts:39-41 | `lower` leaves no upper-case ASCII letter and `upper` no lower-case one |
| Standardize.NormalizeIdempotent | lib/cleaning.ts:36-45 | normalizing a normalized string changes nothing |
| Standardize.Restandardized | lib/cleaning.ts:86-94 | only present cells change. In a `string` column only a native string changes, to its normalized form. In a `date` column the cell changes exactly when the formatter gives a non-empty rendering of `String(v)`, and then becomes that rendering. Every other column is left alone |
| Standardize.StandardizeColsCells | lib/cleaning.ts:84-95 | after the column loop every key of the copy holds its restandardized value where there is one, and the original cell otherwise; the keys and their order are unchanged |
| Standardize.StandardizeRowSpec | lib/cleaning.ts:83-96 | definition: the row after Stage A, each schema key written with `CellAfter`; `StandardizeRowCells` and `StandardizeRowIdempotent` state its properties |
| Standardize.CellAfter | lib/cleaning.ts:85-95 | definition: Stage A's rule for one key of a row, the restandardized value where there is one and the original cell otherwise; `CellAfterTwice` states its idempotence |
| Standardize.StandardizeRowCells | lib/cleaning.ts:83-96 | each standardized row keeps its keys, and each cell is what Stage A's rule gives for that key |
| Standardize.CellAfterTwice | lib/cleaning.ts:85-95 | with a formatter that renders its own output to itself, Stage A's rule applied twice to a cell is the rule applied once |
| Standardize.StandardizeRowIdempotent | lib/cleaning.ts:83-96 | under that assumption, standardizing a row twice is standardizing it once |
| Standardize.StandardizeSpec | lib/cleaning.ts:83 | Stage A yields one row per input row |
| Standardize.StandardizeIdempotent | lib/cleaning.ts:83-97 | under the same assumption, Stage A is idempotent on the whole table |
| Standardize.StandardizeRow | lib/cleaning.ts:84-96 | the loop over the schema columns computes the specified row |
| Standardize.StandardizeTable | lib/cleaning.ts:83-97 | `rows.map` computes the specified table |
| Missing.PresentCells | lib/cleaning.ts:107 | `colValues` holds at most one cell per row, and none of them is null or `''` |
| Missing.NumericValues | lib/cleaning.ts:110 | the NaN filter keeps at most one number per cell |
| Missing.NumericValuesOfNumbers | lib/cleaning.ts:110 | on native numbers `nums` is the numbers themselves, in order |
| Missing.NumStatsLookup | lib/cleaning.ts:104-111 | `numStats` has an entry exactly for the `number` columns, holding that column's mean and median |
| Missing.ModesLookup | lib/cleaning.ts:105-115 | `strModes` has an entry exactly for the `string` and `boolean` columns, holding that column's mode |
| Missing.ComputeStats | lib/cleaning.ts:103-116 | the statistics loop computes the specified `numStats` and `strModes` |
| Missing.MissingAction | lib/cleaning.ts:127-149 | a missing cell of a `date` or `unknown` column is left alone, and the row is dropped exactly when the column's type has strategy `drop` |
| Missing.NumberCell | lib/cleaning.ts:132-133 | definition: a present statistic is a number cell, and an absent one (no numbers in the column) is NaN, since `?? 0` does not catch NaN |
| Missing.FillValues | lib/cleaning.ts:106-148 | the fill is 0 for `zero`, the column's mean or median for `mean`/`median` (NaN when it has no numbers), the mode or `''` for string `mode`, `''` for `empty`, and `mode.toLowerCase() === 'true'` for boolean `mode` |
| Missing.NumericFill | lib/cleaning.ts:109-133 | `mean` and `median` fill the statistic of the column's non-NaN numbers |
| Missing.ModeFill | lib/cleaning.ts:112-146 | string and boolean `mode` fill from the column's mode |
| Missing.FirstDrop | lib/cleaning.ts:122-129 | the first column whose missing cell has strategy `drop`: no column before it drops the row |
| Missing.FillKeyWitness | lib/cleaning.ts:122-148 | every filled key is the key of a column whose missing cell gets a fill |
| Missing.FillKeyOfColumn | lib/cleaning.ts:122-148 | every column whose missing cell gets a fill has its key counted |
| Missing.ResolveCols | lib/cleaning.ts:122-150 | definition: the column loop of one row, which fills a missing cell or stops at the first drop; `ResolveColsDrops`, `ResolveColsFills` and `ResolveColsCells` state its properties |
| Missing.ResolveColsDrops | lib/cleaning.ts:122-150 | the column loop breaks exactly when some column drops the row |
| Missing.ResolveColsFills | lib/cleaning.ts:122-150 | the loop counts the fillable columns before the first drop, in schema order |
| Missing.ResolveRowDropsAndFills | lib/cleaning.ts:119-150 | a row is dropped exactly when one of its missing cells is in a `drop` column; a key is counted exactly when its cell is filled before the column that drops the row |
| Missing.ResolveRow | lib/cleaning.ts:119-150 | definition: one row of Stage B, the column loop over a copy of the row; `ResolveRowDropsAndFills`, `ResolveRowDrops` and `ResolveRowFills` state its properties |
| Missing.ResolveRowDrops | lib/cleaning.ts:121-151 | `dropRow` is set exactly when some column drops the row |
| Missing.ResolveRowFills | lib/cleaning.ts:122-148 | a key is counted exactly when it is filled before the first drop |
| Missing.ResolveColsCells | lib/cleaning.ts:120-150 | in a surviving row a schema cell that was missing holds its column's fill, and every other cell is unchanged |
| Missing.DateAndUnknownUntouched | lib/cleaning.ts:122-150 | `date` and `unknown` columns never fill a cell and never drop a row |
| Missing.FilledKeysAreFillable | lib/cleaning.ts:136-154 | every key in `filledMissing` names a `number`, `string` or `boolean` column |
| Missing.RowFillsFillable | lib/cleaning.ts:127-148 | every key filled in one row names a `number`, `string` or `boolean` column |
| Missing.MissingSpec | lib/cleaning.ts:118-154 | definition: Stage B over the table, keeping the rows that are not dropped and tallying the fills; `MissingConservation`, `MissingKeepsOrder`, `MissingKeptRows` and `FilledKeysAreFillable` state its properties |
| Missing.MissingConservation | lib/cleaning.ts:151-152 | the input has as many rows as `droppedRows` plus `afterMissing.length` |
| Missing.MissingKeepsOrder | lib/cleaning.ts:118-153 | the surviving rows keep their relative order |
| Missing.MissingKeptRows | lib/cleaning.ts:118-153 | every surviving row is the resolved form of an input row that was not dropped |
| Missing.CountFill | lib/cleaning.ts:136 | `filledCounts[key] = (filledCounts[key] ?? 0) + 1` counts one more fill of `key` |
| Missing.ScanRow | lib/cleaning.ts:120-150 | the column loop with its `break` yields the specified row, drop flag and fill counts |
| Missing.FillMissing | lib/cleaning.ts:118-154 | the row loop yields the specified surviving rows, `filledMissing` tally and `droppedRows` |
| Dedupe.DedupeKeyList | lib/cleaning.ts:160 | definition: `all` means the schema's keys in schema order, and a list of keys is used as given |
| Dedupe.SigOf | lib/cleaning.ts:163 | `JSON.stringify` omits an undefined property, prints null and NaN alike, and prints other values distinctly |
| Dedupe.Signature | lib/cleaning.ts:163 | the record has one property per distinct dedupe key |
| Dedupe.SameSignature | lib/cleaning.ts:163 | two rows have the same signature exactly when they serialize alike under every dedupe key |
| Dedupe.SeenSigsMembers | lib/cleaning.ts:159-164 | `seen` contains exactly the signatures of the rows visited |
| Dedupe.SeenSigWitness | lib/cleaning.ts:162-164 | every signature in `seen` is that of a visited row |
| Dedupe.SeenSigOfRow | lib/cleaning.ts:162-164 | every visited row's signature is in `seen` |
| Dedupe.DedupeRows | lib/cleaning.ts:159-165 | definition: the rows whose signature no earlier row has; `DedupeSubsequence`, `DedupeUnique`, `DedupeCount` and `DedupeIdempotent` state its properties |
| Dedupe.FirstOfEachGroup | lib/cleaning.ts:159-165 | reference definition: the rows that are the first of their signature in the input; `DedupeKeepsFirstOfEachGroup` proves Stage C equals it |
| Dedupe.DedupeSubsequence | lib/cleaning.ts:161-165 | `filtered` is a subsequence of the input |
| Dedupe.DedupeKeepsEverySignature | lib/cleaning.ts:162-165 | every signature of the input survives in `filtered` |
| Dedupe.DedupeUnique | lib/cleaning.ts:162-165 | no two kept rows share a signature |
| Dedupe.DedupeCount | lib/cleaning.ts:162-166 | `filtered` has one row per distinct signature |
| Dedupe.DedupeKeepsFirstOfEachGroup | lib/cleaning.ts:162-165 | `filtered` is exactly the rows that are the first of their signature, in order |
| Dedupe.DedupeIdempotent | lib/cleaning.ts:157-168 | deduplicating twice is deduplicating once |
| Dedupe.UniqueUnchanged | lib/cleaning.ts:162-165 | a table without duplicate signatures is left as it is |
| Dedupe.DedupeStage | lib/cleaning.ts:156-168 | when disabled, Stage C is the identity with `removedDuplicates` 0; in every case the kept rows are a subsequence of the input and `removedDuplicates` is the difference in length |
| Dedupe.Dedupe | lib/cleaning.ts:159-165 | the loop with its `seen` set computes the specified rows |
| Outliers.TargetColumns | lib/cleaning.ts:173 | definition: the listed columns when a list is given, and all `number` columns otherwise |
| Outliers.Coerce | lib/cleaning.ts:177-178 | definition: a missing or null cell, and any cell that `Number` reads as NaN, counts as 0; every other cell is `Number(v)` |
| Outliers.ColumnValues | lib/cleaning.ts:177-178 | one coerced value per row |
| Outliers.ColumnZ | lib/cleaning.ts:176-179 | one z-score per row |
| Outliers.ZMapsLookup | lib/cleaning.ts:175-180 | `zMaps` has an entry exactly for the target columns, holding that column's z-scores |
| Outliers.ZMapsDomain | lib/cleaning.ts:175-180 | every target column has one z-score per row |
| Outliers.FlagsOfMembers | lib/cleaning.ts:190-192 | a column is listed for row `i` exactly when it is a target whose score at `i` exceeds the threshold |
| Outliers.FlagsOfOrder | lib/cleaning.ts:190-192 | the flagged columns are listed in `zMaps` entry order |
| Outliers.FlagsMembers | lib/cleaning.ts:190-192 | the flagged columns of a row are exactly the targets whose absolute score is strictly beyond the threshold, in first-seen target order |
| Outliers.FlaggedIff | lib/cleaning.ts:183-184 | a row is flagged exactly when some target column's absolute score is strictly beyond the threshold |
| Outliers.ThresholdMonotone | lib/cleaning.ts:184 | a row flagged at a threshold is flagged at every lower threshold |
| Outliers.ConstantTargetsNeverFlag | lib/cleaning.ts:178-184 | when every target column is constant, no row is flagged at a non-negative threshold |
| Outliers.RemoveCount | lib/cleaning.ts:183-187 | kept rows plus `outliersRemoved` add up to the rows visited |
| Outliers.RemoveKeepsOrder | lib/cleaning.ts:183-187 | the kept rows are a subsequence of the input |
| Outliers.RemoveNothingFlagged | lib/cleaning.ts:183-187 | with no row flagged, removal keeps every row and counts none |
| Outliers.MarkPrefix | lib/cleaning.ts:189-198 | marking yields one row per row visited |
| Outliers.MarkPrefixAt | lib/cleaning.ts:189-198 | row `i` of the marked table is row `i` marked with its own flags |
| Outliers.MarkRows | lib/cleaning.ts:189-198 | marking keeps every row |
| Outliers.MarkRow | lib/cleaning.ts:195 | definition: a flagged row gains `__outliers__` holding the comma-joined flagged columns; `MarkedCells` states its effect on every cell |
| Outliers.MarkedCells | lib/cleaning.ts:189-198 | an unflagged row is returned as it is; a flagged row gains `__outliers__` set to the comma-joined flagged columns; every other cell is unchanged |
| Outliers.OutlierStage | lib/cleaning.ts:170-201 | definition: Stage D for the configured `handle`, from the z-scores of the target columns and the threshold; `OutlierConservation` and `ConstantTargetsUntouched` state its properties |
| Outliers.OutlierConservation | lib/cleaning.ts:170-201 | with `none`, Stage D is the identity. Only `remove` counts removals and only `mark` counts marks. Every row is kept or removed. Removal keeps order and marking keeps every row |
| Outliers.ConstantTargetsUntouched | lib/cleaning.ts:172-201 | when every target column is constant, Stage D changes nothing and counts nothing |
| Outliers.BuildZMaps | lib/cleaning.ts:175-180 | the loop over the target columns builds the specified `zMaps`, with its entries in first-seen order |
| Outliers.RemoveFlagged | lib/cleaning.ts:182-187 | the `filter` keeps exactly the unflagged rows and counts the others |
| Outliers.AnyBeyond | lib/cleaning.ts:184 | `some(...)` holds exactly when the row's flag list is non-empty |
| Outliers.SomeIffFlags | lib/cleaning.ts:184 | some entry beyond the threshold exists exactly when the row's flag list is non-empty |
| Outliers.MarkFlagged | lib/cleaning.ts:188-198 | the `map` marks exactly the flagged rows and counts them |
| Outliers.ScoresGiveFlags | lib/cleaning.ts:175-192 | the flags read off the built `zMaps` are the specified flags |
| Outliers.HandleOutliers | lib/cleaning.ts:170-201 | Stage D computes the specified rows, `outliersRemoved` and `outliersMarked` |
| Stats.Sum | lib/stats.ts:3 | definition: `reduce((a, b) => a + b, 0)`; `SumBounds` and `MeanBounds` bound it |
| Stats.Mean | lib/stats.ts:1-4 | `mean` is NaN exactly for an empty list |
| Stats.SumBounds | lib/stats.ts:3 | a sum of values within `[lo, hi]` lies within `n·lo` and `n·hi` |
| Stats.MeanBounds | lib/stats.ts:1-4 | the mean of values within `[lo, hi]` lies within `[lo, hi]` |
| Stats.MeanOfConstant | lib/stats.ts:1-4 | the mean of a constant list of `c` is `c` |
| Stats.Insert | lib/stats.ts:8 | inserting into a sorted list keeps it sorted and adds exactly the new value |
| Stats.SortAscending | lib/stats.ts:8 | sorting a copy yields an ascending permutation of the values |
| Stats.SortedUnique | lib/stats.ts:8 | two ascending permutations of the same values are equal, so the sort's result is determined |
| Stats.Median | lib/stats.ts:6-11 | `median` is NaN exactly for an empty list |
| Stats.MedianOfSorted | lib/stats.ts:8-10 | on sorted values the median is the middle element, or the average of the two middle ones |
| Stats.MedianPermutationInvariant | lib/stats.ts:6-11 | the median depends only on the values, not on their order |
| Stats.MedianBounds | lib/stats.ts:6-11 | the median of values within `[lo, hi]` lies within `[lo, hi]`, and for an odd count it is one of the values |
| Stats.BestIndex | lib/stats.ts:17-19 | the strict `>` scan stops at a highest count, and every earlier entry has a strictly lower count |
| Stats.ModeOf | lib/stats.ts:13-21 | `mode` is undefined exactly for an empty list |
| Stats.ModeIsMostFrequent | lib/stats.ts:13-21 | the mode occurs in the list, and no value occurs more often |
| Stats.ModeFirstEncountered | lib/stats.ts:15-19 | of the values tied for highest frequency, the mode is the one that occurs first |
| Stats.Mode | lib/stats.ts:13-21 | the two loops compute the specified mode |
| Stats.Frequencies | lib/stats.ts:15-16 | `freq` maps each value to its number of occurrences, with its keys in first-seen order |
| Stats.ModeOfNonEmpty | lib/stats.ts:14-20 | on a non-empty list the mode is the entry the scan picks |
| Stats.Variance | lib/stats.ts:25-26 | definition: the mean of the squared deviations from the mean; `VarianceZeroIffConstant` states its properties |
| Stats.VarianceZeroIffConstant | lib/stats.ts:25-26 | the population variance is non-negative, and zero exactly when all values are equal |
| Stats.Stddev | lib/stats.ts:23-28 | definition: 0 for at most one value, and the square root of the variance otherwise; `StddevZeroIffConstant` states its properties |
| Stats.StddevZeroIffConstant | lib/stats.ts:23-28 | `stddev` is non-negative, and zero exactly when there is at most one value or all values are equal |
| Stats.ZScores | lib/stats.ts:30-35 | one z-score per value |
| Stats.ConstantColumnNeverFlags | lib/stats.ts:30-33 | a constant list scores 0 everywhere, so it never exceeds a non-negative threshold |
| Stats.Abs | lib/cleaning.ts:184 | `Math.abs` is non-negative and is `x` or `-x` |
| Stats.SumOfStandardized | lib/stats.ts:34 | the scores add up to the centred sum divided by the deviation |
| Stats.CentredAtMean | lib/stats.ts:31-34 | deviations from the mean, divided by any non-zero unit, add up to zero |
| Stats.ZScoresStandardized | lib/stats.ts:30-34 | with a non-zero deviation there are at least two values, and score `i` is value `i` minus the mean, divided by the deviation |
| Stats.ZScoresSumToZero | lib/stats.ts:30-34 | with a non-zero deviation the z-scores add up to zero |
| Cleaning.CleanSpec | lib/cleaning.ts:69-204 | definition: the four stages in order with the summary they produce; `CleanConservation`, `CleanCounters` and `CleanFilledColumns` state its properties |
| Cleaning.CleanConservation | lib/cleaning.ts:69-204 | `totalRows` is the input length. It equals the output length plus `droppedRows`, `removedDuplicates` and `outliersRemoved` |
| Cleaning.CleanCounters | lib/cleaning.ts:73-201 | the counters of a disabled stage stay 0; with dedupe and outliers off, the output is Stage B's surviving rows |
| Cleaning.CleanFilledColumns | lib/cleaning.ts:101-154 | every key in `filledMissing` is a `number`, `string` or `boolean` column of the inferred schema |
| Cleaning.CleanData | lib/cleaning.ts:69-204 | `cleanData` computes the specified rows and summary |

## Where the code and the tool's documented behaviour differ

The model follows the code in each of these places:

- **All-missing columns.** A column whose sampled cells are all missing is typed
  `number`, because `sort(...)[0]` always exists and the `|| 'unknown'` fallback
  never fires. The documented behaviour is that such a column is `unknown`. See
  `Inference.AllMissingIsNumber`.
- **NaN fills.** A `mean` or `median` fill on a number column with no numeric
  values writes NaN, because `stats?.mean ?? 0` does not catch NaN. The
  documented behaviour is that NaN is never written. See `Missing.FillValues`.
- **Title casing.** Only the part of a token from its first `\w` character on
  is re-cased, and that character takes the capital even when it is a digit.
  So `(abc` becomes `(Abc`, but `1AB` becomes `1ab`, where capitalizing the
  first letter of the token would give `1Ab`. See
  `Text.TitleCaseAfterPunctuation` and `Text.TitleCaseAfterDigit`.
- **Fill counts.** A fill is counted even when a later column of the same row
  then drops the row.
- **Boolean modes.** The mode of a boolean column is taken over `String(v)`.
  Native booleans become `"true"`/`"false"`, but string cells keep their case,
  so `"True"` and `"true"` are counted as different values.

## Left out

- The user interface, the HTTP suggestion route, CSV parsing and the download
  code are not part of this model. They are I/O around the core.
- `formatDate`'s internals (date-fns `parse`/`format` and JavaScript `Date`) are
  not modelled. The date formatter is a host function, and only its "null or
  empty means unchanged" use is modelled.
- Number grammar, number printing and `Math.sqrt` are host functions:
  - `Number(string)` is `parseNumber`, so hex, exponents and `"Infinity"` are up
    to the host.
  - `String(number)` is `numberToString`.
  - `Math.sqrt` is `sqrt`. The only assumed facts are that it is non-negative
    and is zero exactly at zero (`SqrtSpec`).
- Floating point is not modelled. Numbers are reals with no rounding, no
  Infinity and no `-0`. NaN is modelled only where the pipeline produces or
  reads it.
- `Stats.Mean`, `Stats.Median` and `Stats.ZScores` are exact real arithmetic,
  whereas the source computes in IEEE doubles.
- `Text.ToLower`, `Text.ToUpper` and `Text.TitleCase` map ASCII letters only.
  `Text.IsWordChar` is the ASCII `\w` class. JavaScript's Unicode case mapping
  is not modelled.
- `Dedupe.Signature` models the `JSON.stringify` text structurally, as the
  sequence of per-key serialized values. The one case it cannot show is `0`
  and `-0`, which print alike, because the model's reals have no `-0`.
- `filledMissing` is a `map<string, nat>` in the model (`Missing.FillMissing`,
  `Cleaning.CleanData`). The source's record also keeps the order in which keys
  were first filled, which decides only the order of the summary's keys; that
  order is not modelled.
- Key enumeration is plain insertion order. JavaScript enumerates integer-like
  keys first, which affects column order at lines 13 and 190; that is not
  modelled.
- `Inference.Classify` has no cells of other native types (objects, arrays), so
  the `unknown` bucket never receives a vote in the model. The rows come from
  parsed CSV, where such cells do not occur.
- `Inference.InferSchemaSpec` takes an integer `maxRows`. A fractional or NaN
  `maxRows` for `slice` is not modelled; `cleanData` always passes 200.
- `Outliers.OutlierStage` takes a real `zThreshold`. A NaN threshold, which
  would flag nothing, is not modelled.
- `Standardize.StandardizeIdempotent`, `Standardize.StandardizeRowIdempotent`
  and `Standardize.CellAfterTwice` assume that the date formatter renders its
  own output to itself (`RenderingStable`). Stage A's idempotence on date
  cells depends on the date library.
- `median` sorting a copy needs no statement here, because the model's values
  are immutable.
