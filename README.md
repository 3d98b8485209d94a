# Monthly stock averages (mining.py)

A Dafny model of `mining.py`. The module takes the daily entries of one stock's history, which are
ordered by date. Each entry has a date `"YYYY-MM-DD"`, a closing price and a traded volume.

- `read_stock_data` makes one pass over the entries. It keeps the running sums Σ close × volume and
  Σ volume of the month in progress. It is meant to store a month's volume-weighted average under
  the key `"YYYY/MM"` in the module-level dictionary `monthly_averages` whenever the month changes.
  A month whose total volume is 0 gets the average 0. As written, its month test compares the day
  with the year, so every entry closes out a month (see "## Findings").
- `six_best_months` and `six_worst_months` are meant to report the six (month, average) items with
  the highest and the lowest averages. As written, they rank the bare keys by their third character
  (see "## Findings").

The model has five modules:

- `Dates`: the string slices `date[0:4]`, `date[5:7]` and `date[8:10]` with Python's clamping, the
  month key, and the month test of the loop.
- `MonthDict`: the Python dict as a value. It keeps its keys in insertion order, and `PutAll` applies a
  list of assignments `d[k] = v` in order.
- `Aggregation`: the specification of `read_stock_data`. The entries are cut into maximal runs of the
  same month (`Runs`). Every run but the last is closed out with its average (`Flushes`). `Step` and
  `Scan` describe one pass of the loop body and the state after `i` passes. `ScanSpec` proves that
  this state is what the runs prescribe.
- `Ranking`: `sorted(..., reverse=...)[0:6]` over the dictionary's items, by average.
- `Mining`: the module's state as the class `StockMiner`, whose field `monthlyAverages` is the
  global dictionary. `ReadStockData` is the loop itself, proved against `PutAll(old, Flushes(entries))`.
  The two reports are functions of the field.

Prices and averages are `real`. Volumes are `int`.

## Model

| member | source | states |
|---|---|---|
| Dates.Year | mining.py:53 | `date[0:4]`, the year part of a date |
| Dates.Month | mining.py:52 | `date[5:7]`, the month part of a date |
| Dates.Day | mining.py:61 | `date[8:10]`, the day part of a date, which the month test as written compares with the year |
| Dates.SameMonth | mining.py:59-61 | the intended same-month test of two dates: equal month parts and equal year parts |
| Dates.SameMonthIffSameKey | mining.py:59-61 | two dates pass the intended same-month test exactly when they give the same `"YYYY/MM"` key |
| Dates.MonthKey | mining.py:75 | the key `year + '/' + month` of a date |
| Dates.InMonth | mining.py:61 | the intended month test: the entry's month and year equal the remembered ones |
| Dates.AsWrittenSameMonth | mining.py:61 | the month test as written: the entry's month equals the remembered month and its day equals the remembered year |
| Dates.AsWrittenNeverContinues | mining.py:61 | as written, the test compares a two-character day with a four-character year, so it never holds after a record with a full date |
| Dates.AsWrittenSplitsNovember2004 | mining.py:61 | two dates of November 2004 are one month for the intended test but not for the test as written |
| Dates.Slice | mining.py:52-53 | a Python slice `s[lo:hi]` clamps its bounds to the string: its length and characters are those of the clamped range |
| Mining.StockMiner.constructor | mining.py:18-19 | the module starts with an empty `monthly_averages` |
| Mining.StockMiner.ReadStockData | mining.py:21-86 | needs at least one entry, because the first is read before the loop; afterwards the dictionary is the old one with the closed-out runs' averages assigned in order, and the result is that dictionary |
| Mining.StockMiner.SixBestMonths | mining.py:89-99 | min(6, n) items drawn from the dictionary's items, each month at most once and with its own average, highest first with months of equal average in dictionary order, and no month left out has a higher average than a month listed |
| Mining.StockMiner.SixWorstMonths | mining.py:102-112 | min(6, n) items drawn from the dictionary's items, each month at most once and with its own average, lowest first with months of equal average in dictionary order, and no month left out has a lower average than a month listed |
| Mining.TopMonths | mining.py:96-99 | `sorted(...)[0:6]` over the dictionary's items: min(6, n) items drawn from them, each month at most once with its own average, in rank order with ties in dictionary order, and nothing left out ranks higher |
| Mining.TopOfItems | mining.py:96-99 | a top-n selection of the dictionary's items lists real items, each month at most once, and what it leaves out ranks no higher |
| Aggregation.Weighted | mining.py:62 | one day's `float(Close) * int(Volume)`, its share of the numerator |
| Aggregation.Numerator | mining.py:62 | Σ close × volume over a run, the running `numerator` |
| Aggregation.Denominator | mining.py:63 | Σ volume over a run, the running `denominator` |
| Aggregation.Average | mining.py:68-72 | the zero guard: Σ close × volume divided by Σ volume, or 0 when Σ volume is 0 |
| Aggregation.AverageTimesVolume | mining.py:27-29 | the average times the total volume is Σ close × volume; with total volume 0 the average is 0 |
| Aggregation.ZeroVolumeRun | mining.py:68-72 | a run with all volumes 0 has total volume 0 and average exactly 0 |
| Aggregation.WeightedSumBounds | mining.py:62-63 | bounds on every close, with non-negative volumes, bound Σ close × volume by the bounds times Σ volume |
| Aggregation.AverageWithinCloses | mining.py:27-29 | with non-negative volumes and non-zero total volume, a monthly average lies between the lowest and the highest close |
| Aggregation.SingleDayAverage | mining.py:27-29 | a single day with non-zero volume averages to its own close |
| Aggregation.SumsSnoc | mining.py:62-63 | one more entry adds its close × volume and its volume to the sums |
| Aggregation.Runs | mining.py:57-84 | the runs are non-empty, no more numerous than the entries, and the last run ends with the last entry |
| Aggregation.Closed | mining.py:75-76 | the write that closes out a run: the key of its last entry's year and month, with the run's guarded average |
| Aggregation.Flushes | mining.py:75-76 | one write per run except the last, which is never written |
| Aggregation.RunsSnoc | mining.py:59-67 | one more entry extends the current run if it is in the same month and starts a new run otherwise |
| Aggregation.FirstRecord | mining.py:52-53 | the first entry starts the first run and writes nothing |
| Aggregation.FlushesContinue | mining.py:61-63 | an entry of the same month extends the run in progress and writes nothing |
| Aggregation.FlushesClose | mining.py:67-80 | an entry of another month writes the run in progress and starts a run holding only itself |
| Aggregation.RunsFlatten | mining.py:57 | concatenated, the runs give back the entries in their order |
| Aggregation.WithinMonthSnoc | mining.py:61-63 | appending an entry of the last entry's month keeps a run within one month |
| Aggregation.RunsWithinMonth | mining.py:59-63 | consecutive entries of a run are in the same month |
| Aggregation.RunsBreakAtMonthChange | mining.py:65-67 | the last entry of a run and the first entry of the next run are in different months |
| Aggregation.FlushedMonths | mining.py:57-86 | the months written are exactly those of entries followed by an entry of another month |
| Aggregation.SingleMonthFlushesNothing | mining.py:57-86 | entries that all lie in one month write nothing |
| Aggregation.StoredAverage | mining.py:68-76 | a written key holds the average of the last closed run of its month; any other key keeps its old value or stays absent |
| Aggregation.Step | mining.py:59-84 | one pass of the loop body: an entry of the remembered month adds to both sums; another month's entry first stores the guarded average under the remembered year and month, then restarts the sums from itself; either way its year and month are remembered |
| Aggregation.Scan | mining.py:48-57 | the loop variables after the body has run on the first `i` entries, starting from zero sums and the first entry's year and month |
| Aggregation.ScanSpec | mining.py:48-84 | after `i` passes of the loop body, the dictionary holds the writes of the runs closed so far, the sums are those of the run in progress, and the remembered year and month are those of entry `i - 1` |
| Aggregation.FirstStep | mining.py:48-63 | the first pass, from zero sums and the first entry's month, gives what one entry prescribes |
| Aggregation.NextStep | mining.py:57-84 | each further pass takes what `i` entries prescribe to what `i + 1` entries prescribe |
| Aggregation.ContinueMonth | mining.py:61-63 | in the same month, nothing is written and the sums grow by the entry |
| Aggregation.CloseMonth | mining.py:67-80 | at a month change, the previous entry's key gets the run's average, and the sums restart from the entry alone |
| Aggregation.ScanAll | mining.py:57-86 | after the whole loop, the dictionary is the old one with every closed run written |
| MonthDict.Empty | mining.py:19 | `{}`: a well-formed dictionary without items |
| MonthDict.Dict.Put | mining.py:76 | `d[key] = value` maps `key` to `value` and leaves every other key alone |
| MonthDict.PutValid | mining.py:76 | an assignment keeps every key listed exactly once |
| MonthDict.Dict.Items | mining.py:96 | the items are exactly the dictionary's (key, value) pairs, one per key, listed in the insertion order of the keys |
| MonthDict.PutAll | mining.py:75-76 | a sequence of assignments keeps the dictionary well formed |
| MonthDict.PutAllKeys | mining.py:75-76 | after the assignments, the keys are the old keys plus the keys written |
| MonthDict.PutAllKeepsOrder | mining.py:75-76 | assignments never reorder the keys the dictionary already had |
| MonthDict.PutAllSnoc | mining.py:76 | one more assignment is one more `Put` |
| MonthDict.PutAllValue | mining.py:75-76 | a key never written keeps its old value; a written key holds the value of its last write |
| MonthDict.DistinctCount | mining.py:96 | a list without repetitions has as many elements as the set of its elements |
| Ranking.InOrder | mining.py:96 | the intended sort key and direction: by average, highest first for the best months and lowest first for the worst |
| Ranking.Insert | mining.py:96 | inserting into a sorted list keeps it sorted and adds exactly the entry |
| Ranking.PrependSorted | mining.py:96 | an entry that may precede the head of a sorted list keeps it sorted in front |
| Ranking.Sort | mining.py:96 | `sorted` by average returns a sorted permutation of its input |
| Ranking.OfRank | mining.py:96 | the entries of one rank, in their order; every entry selected has that rank |
| Ranking.OfRankAppend | mining.py:96 | selecting the entries of one rank distributes over concatenation |
| Ranking.PrefixOfRank | mining.py:99 | the entries of one rank in a prefix are a prefix of the entries of that rank in the whole |
| Ranking.InsertStable | mining.py:96 | insertion places the entry in front of the entries of equal rank and keeps their order |
| Ranking.SortStable | mining.py:96 | `sorted` is stable: for every rank, the entries of that rank keep their input order |
| Ranking.Top | mining.py:96-99 | the first n entries of the ranking: min(n, len) entries drawn from the input, sorted, ranking no lower than anything left out, and for every rank the first entries of that rank in input order |
| Ranking.SplitSorted | mining.py:99 | cutting a sorted list, everything before the cut ranks no lower than everything after |
| Ranking.AsWrittenRanking | mining.py:96 | as written, the reports are defined only when every key has at least three characters, and then list min(6, n) distinct bare keys of the dictionary, ordered by their third character and not by average; no key left out has a higher third character than a key listed, and among keys of equal third character the first ones in dictionary order are listed, in that order |
| Ranking.OmittedRankNoHigher | mining.py:96-99 | a key left out of a top selection of the keys ranked by third character ranks no higher than any key listed |
| Ranking.RankedByThirdChar | mining.py:96 | pairs every key, in order, with its `itemgetter(2)` rank |
| Ranking.AsWrittenRank | mining.py:96 | `itemgetter(2)` applied to a key: its third character, as the sort key |
| Ranking.RankedTop | mining.py:96-99 | ranking keys by third character lists distinct keys drawn from the dictionary, each with its own rank |
| Ranking.SubmultisetDistinct | mining.py:99 | a selection drawn from a list without repetitions has no repetitions |
| Ranking.KeysOf | mining.py:96 | the bare keys of a list of items, in the same order |
| Ranking.SortOne | mining.py:96 | sorting a single item gives it back |
| Ranking.InsertIntoOne | mining.py:96 | an item goes behind a single item only when it ranks strictly lower |
| Ranking.SortTwo | mining.py:96 | two entries are swapped only when the second ranks strictly higher |
| Ranking.AsWrittenBestMonthsOfSample | mining.py:96-99 | as written, two GOOG months report bare keys with the lower average first |
| Ranking.BestMonthsOfSample | mining.py:96-99 | by average, the same two months report ("2007/12", 693.76) before ("2004/09", 116.38) |

## Left out

- `read_json_from_file` (mining.py:116-120) reads and decodes a JSON file. The model takes the decoded entries as a sequence instead.
- The `stock_name` parameter of `read_stock_data` is never used, so the model does not have it.
- Line 55 of mining.py, `last_entry_date =`, is an incomplete statement, so the file does not parse as written. The model leaves the line out.
- Python floats are modelled as exact `real` numbers. Rounding is not modelled. The starting numerator and the int 0 used as the average of a month without volume are `0.0`; the denominator stays an `int`.
- `int(...)` and `float(...)` conversions of the JSON fields are taken as already done in `DailyRecord`.
- The last month's run is never stored, because nothing is written after the loop. The model keeps this behaviour (`Flushes`, `FlushedMonths`).
- `read_stock_data` returns the global dictionary object itself, which later calls keep changing. `Mining.StockMiner.ReadStockData` returns the map of its new contents instead, without the key order. Nothing in the model depends on the aliasing.
- `two_stocks_highest_std_dev` is called by test_mining.py:37 but does not exist in mining.py, so it is not part of this model.
- The `__main__` block of test_mining.py only prints results and is not modelled.

## Findings

| source | as written | input that shows it | evidently intended | confidence | as-written member | corrected member |
|---|---|---|---|---|---|---|
| mining.py:61 | `daily_entry['Date'][8:10] == last_entry_year` compares the day with the year, so the same-month branch never runs and every entry closes out a month | "2004-11-01" followed by "2004-11-02" | the year slice `[0:4]` compared with `last_entry_year` (`Dates.SameMonth`), as the comments on lines 59-60 and the updates on lines 83-84 show | not executed | Dates.AsWrittenSplitsNovember2004 | Dates.SameMonthIffSameKey |
| mining.py:96 | `sorted(monthly_averages, key=itemgetter(2), ...)` sorts the dictionary's keys by their third character and lists bare keys | {"2004/09": 116.38, "2007/12": 693.76} reports ["2004/09", "2007/12"] as the best months | (month, average) items sorted by average, as the docstrings on lines 92-94 and 104-106 and test_mining.py:21-24 show | not executed | Ranking.AsWrittenBestMonthsOfSample | Ranking.BestMonthsOfSample |
