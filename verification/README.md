# RTK / Emlid solution comparison: a verified model of the data pipeline

The repository compares two GNSS solution (`.pos`) files of one survey. One
comes from a survey-grade RTK receiver and one from a lower-cost Emlid receiver.
Its Python script finds where the tabular data of each file begins, keeps the
quality-1 (carrier-phase fixed) epochs, and joins the two files on exact
timestamp equality. It then measures the absolute height difference of every
matched epoch and its mean, and tallies the share of quality-1 and quality-2
epochs in each file. This project models those five steps as pure Dafny
functions and methods over already tokenised input and proves what each step
guarantees.

| Dafny module (file) | models |
|---|---|
| `Wrappers` (`wrappers.dfy`) | `Option`, used for the "no value" outcomes |
| `Records` (`records.dfy`) | a parsed data row, the loader's `[timestamp, longitude, altitude]` record, a plotted `[longitude, altitude]` point |
| `Header` (`header.dfy`) | `find_data_start` on the file's first-column tokens |
| `Loader` (`loader.dfy`) | the quality-1 filter loop of `load_pos_file` on parsed rows |
| `Quality` (`quality.dfy`) | the tally and percentages of `find_quality` on the flag column |
| `Aligner` (`aligner.dfy`) | `compare_timestamps`: the last-write-wins dictionary and the order-preserving join |
| `Difference` (`difference.dfy`) | `calc_diff`: per-pair absolute differences, the `[longitude, difference]` plot rows, the mean |

Timestamps are opaque strings compared only by equality. Longitude, altitude
and percentages are Dafny `real`s. The outcomes the script does not handle are
explicit values in the model:
- `FindDataStart` is `None` when no token contains "202". The Python function falls off its loop and returns `None`.
- `FindQuality` is `None` for a file with no data rows. The Python code raises a division by zero.
- `CalcDiff`'s `avg` is `None` when nothing matched. numpy yields NaN.

Three facts about the code that its own names do not suggest:
- `compare_timestamps` returns at most `len(pre_emlid)` pairs. When the Emlid timestamps are pairwise distinct it also returns at most `len(pre_rtk)` pairs (`Aligner.DistinctEmlidBoundedByRtk`). With a repeated Emlid timestamp it can return more: two Emlid records with one timestamp both pair with a single RTK record (`Aligner.DuplicateEmlidExceedsRtk`).
- In exact arithmetic, `avg` does not depend on the order of the Emlid records (`Difference.AvgIndependentOfEmlidOrder`). It can change with the order of the RTK records when two RTK rows share a timestamp, because the dictionary keeps the later one (`Difference.AvgDependsOnRtkOrder`).
- A file without a "202" token makes `find_data_start` return `None`, and the script passes that to `pd.read_csv` as `skiprows`. The model states the `None` result; what `pd.read_csv` does with it is outside the model.

## Model

| member | source | states |
|---|---|---|
| Header.HasSubstringCorrect | rtk_emlid_pos-manipulator.py:27 | the executable substring test used for `"202" in row` holds exactly when the pattern occurs at some position of the token |
| Header.FindDataStart | rtk_emlid_pos-manipulator.py:24-30 | the result is `None` exactly when no token contains "202"; otherwise it is k - 1 for the first token k that contains it, so it is at least -1 and no earlier token contains "202" |
| Header.ScanFrom | rtk_emlid_pos-manipulator.py:25-30 | continuing the scan from counter i, after tokens that hold no "202", finds the first data token at or after i, or returns `None` when there is none |
| Header.FirstLineIsData | rtk_emlid_pos-manipulator.py:24-29 | a file whose first token is a date gives -1 |
| Header.TwoHeaderLines | rtk_emlid_pos-manipulator.py:24-30 | two comment tokens before the first date give 1 |
| Header.NoDataLine | rtk_emlid_pos-manipulator.py:25-30 | a file of comment tokens only gives `None` |
| Loader.LoadPosFile | rtk_emlid_pos-manipulator.py:53-60 | the output is never longer than the input; every output record is the projection of a quality-1 row; the projection of every quality-1 row is in the output |
| Loader.LoadPosFileAppend | rtk_emlid_pos-manipulator.py:53-58 | loading a file split in two gives the records of the first part followed by those of the second, so file order is kept |
| Loader.LoadPosFileSingle | rtk_emlid_pos-manipulator.py:57-58 | one row loads to its `[timestamp, longitude, altitude]` when its flag is 1 and to nothing otherwise |
| Loader.LoadPosFileLength | rtk_emlid_pos-manipulator.py:53-58 | the output has exactly one record per quality-1 row |
| Loader.NoFixedNothingLoaded | rtk_emlid_pos-manipulator.py:57 | rows whose flags all differ from 1 load to nothing |
| Loader.AllFixedAllLoaded | rtk_emlid_pos-manipulator.py:54-58 | rows that all have flag 1 load to the projection of every row, in file order |
| Quality.CountAppend | rtk_emlid_pos-manipulator.py:137-143 | tallying two parts of a column adds their tallies |
| Quality.CountConstant | rtk_emlid_pos-manipulator.py:137-143 | a column holding one flag value counts every row for that flag and none for another |
| Quality.CountFixedFloatBound | rtk_emlid_pos-manipulator.py:137-143 | the quality-1 and quality-2 counts add up to at most the row count, and to exactly the row count iff every flag is 1 or 2 |
| Quality.PercentRange | rtk_emlid_pos-manipulator.py:147-148 | a count out of a positive total converts to a percentage in [0, 100], and to 100 only for the whole total |
| Quality.PercentAdd | rtk_emlid_pos-manipulator.py:147-148 | percentages of one total add like the counts they come from |
| Quality.FindQuality | rtk_emlid_pos-manipulator.py:130-151 | no result for an empty column (the division by zero); otherwise the quality-1 and quality-2 shares of all rows, each in [0, 100], together at most 100, and exactly 100 iff no other flag occurs |
| Quality.FixedShareIsLoadedShare | rtk_emlid_pos-manipulator.py:137-143 | the quality-1 count of a file's flag column equals the number of records the loader keeps from the same rows |
| Quality.CountFlagsFixed | rtk_emlid_pos-manipulator.py:139-140 | counting flag 1 in the flag column counts the same rows as the loader's test |
| Quality.TenRowScenario | rtk_emlid_pos-manipulator.py:137-148 | ten rows with six flag-1, three flag-2 and one flag-5 give 60 % and 30 % |
| Aligner.LastIndex | rtk_emlid_pos-manipulator.py:87 | for a timestamp the RTK records carry, a position of a row with that timestamp after which no row carries it: the row the overwriting dictionary ends up holding |
| Aligner.Index | rtk_emlid_pos-manipulator.py:87 | the dictionary's keys are the RTK timestamps, and each key is bound to the last RTK row with that timestamp |
| Aligner.IndexStep | rtk_emlid_pos-manipulator.py:87 | inserting the next row binds its key to it and leaves every other key bound to its last row |
| Aligner.Matched | rtk_emlid_pos-manipulator.py:91-97 | the Emlid records kept by the join are records of the input whose timestamp occurs among the RTK records, and every such record is kept |
| Aligner.Join | rtk_emlid_pos-manipulator.py:91-108 | the four outputs have equal length, at most the number of Emlid records, and each altitude output repeats the altitude of the matching position output |
| Aligner.CompareTimestamps | rtk_emlid_pos-manipulator.py:66-110 | four parallel outputs with one entry per Emlid record whose timestamp the RTK records share, in Emlid order; the i-th Emlid position is that record's; the i-th RTK position is that of the last RTK row with the same timestamp; the altitude outputs equal the position outputs' altitudes |
| Aligner.JoinFollowsMatched | rtk_emlid_pos-manipulator.py:97-104 | entry i of the join pairs the i-th matched Emlid record with the last RTK row of the same timestamp |
| Aligner.JoinAppend | rtk_emlid_pos-manipulator.py:91-108 | joining a split Emlid sequence gives the entries of the first part followed by those of the second |
| Aligner.DistinctEmlidBoundedByRtk | rtk_emlid_pos-manipulator.py:87-108 | when the Emlid timestamps are pairwise distinct, the join has at most as many entries as there are RTK records |
| Aligner.DuplicateEmlidExceedsRtk | rtk_emlid_pos-manipulator.py:91-108 | two Emlid records at one epoch against one RTK record give two entries, more than the RTK input |
| Difference.Mean | rtk_emlid_pos-manipulator.py:179 | the mean is `None` for no values and otherwise a value whose count-fold is the sum, non-negative when every value is |
| Difference.Diffs | rtk_emlid_pos-manipulator.py:176 | one difference per matched pair, the absolute difference of its Emlid and RTK altitudes, so every difference is non-negative |
| Difference.CalcDiff | rtk_emlid_pos-manipulator.py:157-185 | one plotted point per matched Emlid record, in Emlid order, holding its longitude and its non-negative absolute height difference from the last RTK row at that epoch; `avg` is `None` exactly when nothing matched, and otherwise the non-negative mean of the plotted differences |
| Difference.CalcDiffPoints | rtk_emlid_pos-manipulator.py:170-182 | each plotted point takes the matched Emlid longitude and the difference from the last RTK row with that timestamp |
| Difference.MeanOfPlot | rtk_emlid_pos-manipulator.py:176-182 | the plot's second column holds the differences that are averaged, so the mean is the non-negative mean of that column |
| Difference.DiffsSnoc | rtk_emlid_pos-manipulator.py:176 | one more matched pair adds exactly its absolute difference to the differences |
| Difference.JoinTotals | rtk_emlid_pos-manipulator.py:170-179 | the summed differences and the number of pairs are sums of per-record shares over the Emlid records |
| Difference.SumOverPermutation | rtk_emlid_pos-manipulator.py:176-179 | a sum of per-record shares is the same for any reordering of the records |
| Difference.TotalsIndependentOfEmlidOrder | rtk_emlid_pos-manipulator.py:170-179 | reordering the Emlid records keeps both the summed absolute differences and the number of matched pairs |
| Difference.AvgIndependentOfEmlidOrder | rtk_emlid_pos-manipulator.py:170-179 | reordering the Emlid records leaves `avg` unchanged |
| Difference.AvgDependsOnRtkOrder | rtk_emlid_pos-manipulator.py:87-108 | with two RTK rows at one epoch whose differences from the Emlid row differ, swapping them changes `avg` |
| Difference.TwoRowIndex | rtk_emlid_pos-manipulator.py:87 | two RTK rows at one epoch build a dictionary with that single key, bound to the later row |
| Difference.SingleJoin | rtk_emlid_pos-manipulator.py:87-108 | one Emlid record against two RTK rows at its epoch is compared with the later one |
| Difference.OneMatchScenario | rtk_emlid_pos-manipulator.py:157-185 | Emlid epochs t1, t2 against RTK epochs t1, t3 give the single point (10.0, 0.1) and mean 0.1 |

## Left out

- `create_pos_rtk.py`: it builds a shell command for the external RTKLIB `rnx2rtkp` program and runs it through `os.system`. It has no logic of its own.
- Reading files. `np.genfromtxt` produces the first column that `find_data_start` scans. `pd.read_csv` produces the rows and flags after the skip count, with its header-row and `skiprows` conventions. Both are foreign library calls, so the model takes their results as inputs (`seq<string>`, `seq<SolutionRow>`, `seq<int>`). `Quality.Flags`, the column-5 projection of the parsed rows, stands for `pd.read_csv(..., usecols=[5])` at line 128 of `rtk_emlid_pos-manipulator.py`.
- Parsing strings to numbers. This covers `int(...)` of the flag column, `float(...)` of longitude and altitude, and numpy's conversion of the loaded array to strings and back. Flags are given as integers and coordinates as exact reals.
- IEEE floating point. `(q1/total)*100`, `abs` and `np.mean` are exact real arithmetic here, so rounding is not modelled.
- Header.FindDataStart: a file with one non-blank line makes `np.genfromtxt` (line 22) return a 0-d array, and `for row in data_full` at line 25 then fails with a `TypeError`. The model scans such a file as a one-token column and gives `Some(-1)` or `None`.
- Difference.Mean: numpy's NaN (with a warning) for an empty array is modelled as `None` rather than as a float value.
- Plotting and printing: `plot_positions_2d`, `plot_quality`, `plot_height_diff` and `plot_avg_height` with its fixed constants. This includes `plot_quality`'s use of the module-level `emlid` and `rtk` arrays.
- The module-level script: the hard-coded file paths and the order of calls at the end of the file.
