# Golden-age TV shows: a verified model of the cleaning and aggregation pipeline

`projectMovieAndShow.py` is a notebook exported as a script. It loads a table of film and
television credits. It then:

- normalises the column labels;
- drops rows missing a score or a vote count;
- drops exact duplicate rows;
- folds every spelling of "show" in the `type` column into `SHOW`.

From there it keeps the shows released in 1999 or later and rounds each score to a whole bucket.
It keeps buckets 4 to 9 and reports the rounded mean vote count per bucket, sorted by
decreasing mean.

This project models those three parts in Dafny and proves properties of the model:

- the label normaliser (`labels.dfy`, module `Labels`);
- the row cleaner (`cleaner.dfy`, module `Cleaner`);
- the aggregator (`aggregator.dfy`, module `Aggregator`, with round-half-to-even in `rounding.dfy`).

The other files are:

- `records.dfy` holds the row type.
- `seqs.dfy` holds sequence facts shared by the stages: filtering, subsequences, first occurrences, distinctness and permutations.
- `analysis.dfy` composes the cleaner and the aggregator as the script runs them.
- `scenarios.dfy` works small tables through the whole pipeline.

Representation choices:

- A table is a sequence of `Record` values. Column labels are a sequence of strings.
- A score is an integer number of tenths: IMDb scores have one decimal.
- Vote counts are integers.
- Python's `round` and pandas' `Series.round` round half to even. Both are modelled as exact rational rounding (`Rounding.RoundHalfEven`).

Each rename helper loops over the labels and calls `rename` once per label. That is modelled as a
method with a loop (`Labels.RenameEach`). `replace_wrong_show` overwrites the `type` column in
place, so it is modelled as a method over an `array<Record>` (`Cleaner.ReplaceWrongShow`).

Two consequences of the script's order of steps are easy to miss:

- Duplicates are dropped before the `type` rewrite. Two rows that differed only in the spelling of "show" are therefore both kept, even though they become equal afterwards (`Scenarios.ImplicitDuplicatesScenario`). Each copy then counts toward its bucket's row count and vote total (`Scenarios.RepeatedRowsCount`).
- Values that mention "movie" in any letter case are left as they are and are not made uniform (`Scenarios.UpperMovieScenario`). The script announces this at line 261.

## Model

| member | source | states |
|---|---|---|
| Labels.Strip | projectMovieAndShow.py:118 | `str.strip`: the result has no whitespace at either end, and an already trimmed label is unchanged |
| Labels.StripIsSlice | projectMovieAndShow.py:118 | what `strip` keeps is one contiguous slice of the label, and everything it cuts off is whitespace |
| Labels.ToLower | projectMovieAndShow.py:133 | `str.lower`: each upper-case letter becomes its lower-case counterpart, every other character is kept, so no capital remains |
| Labels.ReplaceChar | projectMovieAndShow.py:148 | `str.replace` of one character: exactly the occurrences of the pattern become the substitute, so the pattern no longer occurs |
| Labels.ApplyIdempotent | projectMovieAndShow.py:115-164 | each of the four rewrites is idempotent |
| Labels.RenameStep | projectMovieAndShow.py:117-118 | one `rename(columns={col: f(col)})` keeps the loop invariant: labels handled so far are rewritten, the rest are original or already rewritten |
| Labels.RenameEach | projectMovieAndShow.py:117-119 | the rename-per-label loop rewrites each label position-wise, although a rename can hit a column renamed earlier in the same loop |
| Labels.RemoveWhiteSpace | projectMovieAndShow.py:115-119 | every label is stripped and nothing else changes |
| Labels.LowerCaseLabels | projectMovieAndShow.py:130-134 | every label is lower-cased and no label keeps an upper-case letter |
| Labels.ReplaceZero | projectMovieAndShow.py:145-149 | every '0' becomes 'o' and no label keeps a '0' |
| Labels.SnakeCase | projectMovieAndShow.py:160-164 | every space becomes '_' and no label keeps a space |
| Labels.NormalizeColumns | projectMovieAndShow.py:106-168 | the four calls in order keep the number and order of columns, and leave every label trimmed, lower-case, and free of '0' and spaces |
| Labels.NormalizeNormalizes | projectMovieAndShow.py:115-164 | any label comes out of the four passes in the target style |
| Labels.NormalizeFixesNormalized | projectMovieAndShow.py:115-164 | a label already in the target style passes through unchanged |
| Labels.NormalizeIdempotent | projectMovieAndShow.py:115-164 | normalising a label twice is normalising it once |
| Labels.NormalizeAllIdempotent | projectMovieAndShow.py:106-168 | normalising the label list twice is normalising it once |
| Labels.RenameTargets | projectMovieAndShow.py:118 | `DataFrame.rename(columns={from: to})` with a label no column carries changes nothing; otherwise the new label appears, and the old one is gone unless it equals the new one |
| Labels.Normalize | projectMovieAndShow.py:115-164 | the four passes on one label: only the strip changes the length, the other passes rewrite character by character |
| Labels.NormalizeAll | projectMovieAndShow.py:106-168 | the four passes on the column labels keep one label per column, each in the target style |
| Cleaner.DropMissing | projectMovieAndShow.py:196 | a row survives iff it has both a score and a vote count; a missing title does not matter |
| Cleaner.DropMissingKeepsOrder | projectMovieAndShow.py:196 | the null drop keeps its rows in order and with their multiplicities, and no incomplete row survives |
| Cleaner.DropDuplicates | projectMovieAndShow.py:235 | `drop_duplicates()` keeps the first occurrence of each row in order: the result is duplicate-free and has the same set of rows |
| Cleaner.DropDuplicatesLeavesNone | projectMovieAndShow.py:215-244 | after the drop `duplicated().sum()` is 0, a second drop changes nothing, and rows kept plus duplicates counted equal the row count |
| Cleaner.ContainsAt | projectMovieAndShow.py:291 | a pattern sitting at some position of a string is found by `in` |
| Cleaner.ContainsSomewhere | projectMovieAndShow.py:291 | conversely, a pattern found by `in` sits at some position of the string |
| Cleaner.MentionsMovieIgnoresCase | projectMovieAndShow.py:291 | `'movie' in x.lower()` classifies a value and its lower-cased form alike |
| Cleaner.ShowList | projectMovieAndShow.py:291 | `show_list` has no repeats and holds exactly the `type` values that do not mention "movie" in any case |
| Cleaner.ReplaceWrongShow | projectMovieAndShow.py:280-283 | the `type` column is rewritten in place, value by value through `replace`; the row count and every other column stay as they were |
| Cleaner.CanonicalizeTypes | projectMovieAndShow.py:282 | `Series.replace(list, value)` on the `type` column: each value ends as the replacement or outside the list, and no other field changes |
| Cleaner.CanonicalizeTypesIdempotent | projectMovieAndShow.py:282 | replacing a second time with the same list changes nothing |
| Cleaner.ShowCanonicalization | projectMovieAndShow.py:291-299 | with the derived `show_list`, every type not mentioning "movie" becomes "SHOW", rows whose type mentions it are untouched, and no other field changes |
| Cleaner.CanonicalTypes | projectMovieAndShow.py:291-308 | afterwards every `type` is "SHOW" or mentions "movie" |
| Cleaner.Cleaned | projectMovieAndShow.py:196-299 | the cleaned table is no longer than the input, every row has score and votes, every type is "SHOW" or mentions "movie" |
| Cleaner.CleanTable | projectMovieAndShow.py:196-299 | the cleaning cells in order: the table is no longer than the input, every row has score and votes, every type is "SHOW" or mentions "movie" |
| Rounding.RoundHalfEven | projectMovieAndShow.py:363 | the result is within half a unit of n/d, and an exact tie goes to the even neighbour |
| Rounding.RoundHalfEvenUnique | projectMovieAndShow.py:363 | exactly one integer is the half-to-even rounding of n/d |
| Rounding.RoundHalfEvenOnRational | projectMovieAndShow.py:363 | the same bound stated over the real number n/d |
| Aggregator.AfterYear | projectMovieAndShow.py:345 | a row survives iff it was released in 1999 or later |
| Aggregator.OnlyShows | projectMovieAndShow.py:353 | a row survives iff its type is exactly "SHOW" |
| Aggregator.ShowsSinceGoldenAge | projectMovieAndShow.py:345-353 | the two filters together keep exactly the shows from 1999 on, in order and with their multiplicities |
| Aggregator.Bucket | projectMovieAndShow.py:363 | `round(score)`: the bucket is within 0.5 of the score, and a .5 score goes to the even bucket |
| Aggregator.AddRoundedScore | projectMovieAndShow.py:363 | the added `imdb_score_rounded` column is the half-to-even rounding of each row's score, the rows themselves unchanged |
| Aggregator.InRange | projectMovieAndShow.py:386 | a row survives iff its bucket lies in [4, 9], with all its copies |
| Aggregator.AddRoundedScoreCount | projectMovieAndShow.py:363 | adding the rounded column keeps the number of copies of every row |
| Aggregator.RangeRowCounts | projectMovieAndShow.py:363-386 | `df_range` holds every copy of each show whose rounded score lies in [4, 9], and no copy of any other |
| Aggregator.RangeRows | projectMovieAndShow.py:363-386 | `df_range` holds exactly the scored shows whose rounded score lies in [4, 9], in order and with their multiplicities |
| Aggregator.InsertKey | projectMovieAndShow.py:394 | inserting a key into strictly ascending group keys keeps them strictly ascending, and only that key is added |
| Aggregator.GroupKeys | projectMovieAndShow.py:394 | the `groupby` keys are strictly ascending and are exactly the buckets that occur |
| Aggregator.Group | projectMovieAndShow.py:394 | a group holds exactly the rows of its bucket, each as often as it occurs |
| Aggregator.VoteSumAppend | projectMovieAndShow.py:394 | the vote total of two row lists laid end to end is the sum of their totals |
| Aggregator.GroupMeans | projectMovieAndShow.py:394 | one entry per occurring bucket, ascending, each with its non-empty group's exact vote total and row count |
| Aggregator.GroupMeansCoverage | projectMovieAndShow.py:394 | the grouped table has an entry for a bucket exactly when some row falls in it |
| Aggregator.RoundMeans | projectMovieAndShow.py:404 | each mean is rounded half to even on the exact quotient, and the bucket is kept |
| Aggregator.InsertByMean | projectMovieAndShow.py:411 | inserting into a table sorted by non-increasing mean keeps it sorted and adds exactly that entry |
| Aggregator.SortByMeanDesc | projectMovieAndShow.py:411 | `sort_values(by='mean', ascending=False)`: the result is a permutation with non-increasing means |
| Aggregator.RangeOf | projectMovieAndShow.py:345-386 | every row reaching the grouping has a vote count and a bucket in [4, 9] |
| Aggregator.Aggregate | projectMovieAndShow.py:345-411 | the final table has non-increasing means and only buckets in [4, 9] |
| Aggregator.SortedTable | projectMovieAndShow.py:394-411 | the grouped, rounded and sorted table has non-increasing means and as many rows as there are occurring buckets |
| Aggregator.ShowsComplete | projectMovieAndShow.py:345-363 | the selected shows of a cleaned table all carry a score and a vote count |
| Aggregator.RangeBuckets | projectMovieAndShow.py:345-386 | the buckets present are exactly the rounded scores in [4, 9] of shows from 1999 on |
| Aggregator.RoundedEntriesFit | projectMovieAndShow.py:394-404 | each entry of the rounded grouped table has a bucket in range, a non-empty group, and the rounded mean of that group |
| Aggregator.RoundedEntriesCoverage | projectMovieAndShow.py:394-404 | the rounded grouped table lists exactly the buckets present |
| Aggregator.SortedTableFits | projectMovieAndShow.py:394-411 | sorting keeps every entry fitting its group |
| Aggregator.SortedTableCoverage | projectMovieAndShow.py:394-411 | sorting keeps exactly the buckets present |
| Aggregator.SortedTableDistinctScores | projectMovieAndShow.py:394-411 | after sorting, each bucket is still listed once |
| Aggregator.AggregateShape | projectMovieAndShow.py:345-411 | the result is sorted by non-increasing mean, lists each bucket in [4, 9] that has shows from 1999 on exactly once and no other, and gives each the half-to-even rounded mean of its vote counts |
| Analysis.Analyse | projectMovieAndShow.py:196-411 | cleaning then analysis: the final table is sorted by mean, its buckets lie in [4, 9] and are distinct, and they are exactly those of the cleaned shows from 1999 on |
| Scenarios.NoMovieIn | projectMovieAndShow.py:291 | "tv show" does not contain "movie" |
| Scenarios.TvShowScenario | projectMovieAndShow.py:196-411 | a 2005 "tv show" scored 8.2 with 50000 votes is cleaned to "SHOW" and alone makes up bucket 8 with mean 50000 |
| Scenarios.DuplicateScenario | projectMovieAndShow.py:235 | of two identical rows exactly one survives |
| Scenarios.MissingScoreScenario | projectMovieAndShow.py:196 | a row without a score reaches neither the cleaned table nor the result |
| Scenarios.ImplicitDuplicatesScenario | projectMovieAndShow.py:235-299 | rows typed "tv show" and "shows", otherwise equal, both survive the drops and are equal once rewritten to "SHOW" |
| Scenarios.UpperMovieScenario | projectMovieAndShow.py:291-299 | "MOVIE" mentions "movie" once lowered and is left as it is |
| Scenarios.RepeatedRowsCount | projectMovieAndShow.py:394 | two copies of a row make a group of size 2 with twice its vote count |
| Scenarios.OutlierScenario | projectMovieAndShow.py:363-386 | a show scored 9.8 rounds to bucket 10 and is absent from the result |
| Seqs.Filter | projectMovieAndShow.py:196 | boolean-mask row selection keeps exactly the rows that satisfy the mask, never more rows than it was given |
| Seqs.FilterCounts | projectMovieAndShow.py:196 | a row selection keeps every matching row as often as it occurred, and no other row |
| Seqs.FilterIsSubsequence | projectMovieAndShow.py:196 | a row selection keeps the rows' order |
| Seqs.FilterFilter | projectMovieAndShow.py:345-353 | two successive selections equal one selection by both conditions |
| Seqs.MapCount | projectMovieAndShow.py:363 | an injective per-row map keeps the number of copies of every row |
| Seqs.FirstIndex | projectMovieAndShow.py:235 | the position where a value first occurs |
| Seqs.FirstOccurrencesMembers | projectMovieAndShow.py:235 | keeping first occurrences loses no value and adds none |
| Seqs.FirstOccurrencesDistinct | projectMovieAndShow.py:235 | first occurrences have no repeats |
| Seqs.FirstOccurrencesIsSubsequence | projectMovieAndShow.py:235 | first occurrences keep the input's order |
| Seqs.FirstOccurrencesOrder | projectMovieAndShow.py:235 | kept values appear in the order of their first positions in the input |
| Seqs.FirstOccurrencesOfDistinct | projectMovieAndShow.py:235 | on a table without repeats, first occurrences change nothing |
| Seqs.FirstOccurrencesIdempotent | projectMovieAndShow.py:244 | taking first occurrences twice is taking them once |
| Seqs.CountDuplicatedComplement | projectMovieAndShow.py:215-235 | rows counted by `duplicated().sum()` plus rows kept by `drop_duplicates()` equal the row count |
| Seqs.CountDuplicatedZero | projectMovieAndShow.py:215-244 | `duplicated().sum()` is 0 exactly when the table has no repeats |
| Seqs.FirstOccurrencesIsDistinctWhenFull | projectMovieAndShow.py:215-235 | if nothing is dropped, the table had no repeats |

## Left out

- Loading the CSV and the display-only cells (`head`, `tail`, `isna().sum()`, printing `unique()`, the `count()` per bucket at line 375) are not modelled. They only show data to a reader.
- The table's row index and `reset_index` are not modelled. Rows are a plain sequence.
- Column data is not modelled along with the labels. A rename does not touch it.
- Strings are sequences of characters: only ASCII letters are lower-cased, and only Python's ASCII whitespace counts for `strip`. Full Unicode case mapping and Unicode spaces are not modelled.
- Labels.RenameEach: when two columns share a label, pandas renames both, and so does `Rename`. The model does not cover column-label collisions that pandas would report on a later lookup.
- Floating point is not modelled. Scores are exact tenths, votes are integers, and means are exact quotients rounded once, so the rounding error of a float64 mean is left out.
- Aggregator.Aggregate requires every row to carry a score and a vote count. The cleaned table meets this (`Cleaner.CleanTable`). What `round` would do with a missing score and how `mean` would skip missing votes are not modelled.
- Aggregator.SortByMeanDesc: the order among buckets with equal rounded means is not stated. The pandas default sort does not promise one.
- The `column_name` parameter of `replace_wrong_show` is fixed to the `type` column, as at its one call site.
- The column added at line 363 is modelled as a new value per row rather than an in-place assignment on a slice of the table. The rename of `imdb_score_rounded` to `imdb score` at line 407 only changes a label and is not modelled.
