# Disparate impact of a recidivism predictor

`measurefairness.py` measures whether a classifier's predictions show
disparate impact on a protected group. It follows Feldman et al., "Certifying
and removing disparate impact" (2015). For every configured comparison (sex,
three race contrasts and four age cut points), it does four things:

1. It counts the people in a 2×2 table `[a, b, c, d]`:

   | prediction | minority (`x = 0`) | majority (`x = 1`) |
   |---|---|---|
   | 0 | a | b |
   | 1 | c | d |

   Categorical features are compared for equality with the two classes. The feature "age" is compared against the cut points: `x <= minority` is minority and `x > majority` is majority.
2. It derives sensitivity `d/(b+d)`, specificity `a/(a+c)`, the positive likelihood ratio `sens/(1-spec)` and the likelihood ratio `(1-spec)/sens`. Each division is guarded and yields 0 instead of dividing by zero.
3. It flags disparate impact when the likelihood ratio is strictly below 0.8.
4. It appends a twelve-field row per comparison to the result list `ALL_RESULTS`, and serialises rows as comma-separated text.

The Dafny model:

| file | module | models |
|---|---|---|
| `values.dfy` | `Values` | Python scalars (`Datum`) and Python `==` between them |
| `tables.dfy` | `Tables` | The table, its cells, and `Tally`, the table counted from a sequence of placements |
| `builders.dfy` | `Builders` | `get_confusion_matrix` and `get_age_confusion_matrix` as loops over a local four-cell list, proved equal to `Tally` of the records' placements |
| `ratios.dfy` | `Ratios` | The four ratios over exact reals, with their closed forms, the reciprocity of the two likelihood ratios and the monotonicity stated in the script's closing notes |
| `verdict.dfy` | `Verdicts` | `get_disparate_impact` |
| `report.dfy` | `Report` | The configuration lists, `RESULT_HEADERS`, and `ALL_RESULTS` as a class whose `GetResults` appends one row per comparison |
| `csv.dfy` | `Csv` | `make_filestring` as nested loops, proved equal to a reference text. A reader `Parse` gets the rows back when every row has a field and no field holds a comma or a newline |

Two facts about the code that a reader of the script might not expect, both proved here:

- The two likelihood ratios are tied to each other. Over exact arithmetic, `get_lr_pos` and `get_lr` are exact reciprocals whenever either is non-zero, and both are 0 on exactly the same tables (`Ratios.LrIsReciprocal`).
- `get_lr_pos` returns 0 when the specificity is 1, and also when the sensitivity is 0. Its exact zero set is "no majority record predicted 1, or no minority record predicted 1 while some minority record is predicted 0" (`Ratios.LrPos`).

One place where the code and a comment beside it disagree, and the model follows the code: the comment at measurefairness.py:232 says a dataset has disparate impact when the likelihood ratio is at most 0.8, but `get_disparate_impact` (measurefairness.py:70) flags only a ratio strictly below 0.8. A ratio of exactly 0.8 is not flagged (`Verdicts.ThresholdIsStrict`).

## Model

| member | source | states |
|---|---|---|
| `Values.Same` | measurefairness.py:171-178 | Python `==` between a person's value and a class: numbers equal by value (`30 == 30.0`), strings by content, a number never equals a string |
| `Values.SameIsEquivalence` | measurefairness.py:171-178 | That equality is reflexive, symmetric and transitive; `30` equals `30.0` and does not equal `"30"` |
| `Tables.Bump` | measurefairness.py:171-178 | Incrementing a cell adds one record to the table's total; skipping adds none |
| `Tables.BumpCount` | measurefairness.py:171-178 | Incrementing changes only the chosen cell, by exactly one |
| `Tables.TallyCounts` | measurefairness.py:165-200 | Each cell of a counted table is the number of records placed in that cell; the total plus the skipped records is the number of records |
| `Tables.TallyBounded` | measurefairness.py:165-200 | A counted table never holds more records than were read |
| `Tables.TallyOrderIndependent` | measurefairness.py:165-200 | The table depends only on how many records land in each cell, not on their order |
| `Tables.TallySplit` | measurefairness.py:165-200 | Counting two runs of records one after the other adds their tables cell by cell |
| `Builders.Place` | measurefairness.py:171-178 | The branch chain: a guess of 0 or 1 picks `a`/`c` for a minority record, else `b`/`d` for a majority record; any other guess, or a record in neither group, is skipped |
| `Builders.CategoricalPlace` | measurefairness.py:171-178 | A value equal to the minority class goes to `a` or `c` even when it also equals the majority class; `b` or `d` only when it equals the majority and not the minority class |
| `Builders.ThresholdPlace` | measurefairness.py:190-198 | `x <= minority` with guess 0 or 1 goes to `a` or `c`; otherwise `x > majority` goes to `b` or `d`; otherwise skipped |
| `Builders.BuildCategoricalTable` | measurefairness.py:165-180 | The loop over the guesses leaves in the list the table counted from every record's categorical placement |
| `Builders.BuildThresholdTable` | measurefairness.py:184-200 | The loop over the records leaves in the list the table counted from every record's threshold placement |
| `Builders.CategoricalTableStep` | measurefairness.py:166-178 | Reading one more record bumps the previous table at that record's cell |
| `Builders.ThresholdTableStep` | measurefairness.py:185-198 | Reading one more record bumps the previous table at that record's cell |
| `Builders.CategoricalStep` | measurefairness.py:166-178 | Reading one more record adds one to its own cell and leaves every other cell unchanged |
| `Builders.ThresholdStep` | measurefairness.py:185-198 | Reading one more record adds one to its own cell and leaves every other cell unchanged |
| `Builders.CategoricalTotal` | measurefairness.py:165-180 | `a+b+c+d <= len(guesses)`, with equality exactly when every guess is 0 or 1 and every value equals one of the two classes |
| `Builders.ThresholdSingleCut` | measurefairness.py:184-200 | With one cut point for both groups, `a+b+c+d` is the number of guesses that are 0 or 1 |
| `Builders.CategoricalExample` | measurefairness.py:165-180 | Four people, one for each combination of sex and guess, give `[1, 1, 1, 1]` |
| `Builders.ThresholdExample` | measurefairness.py:184-200 | Ages 25, 35 and 45 with guesses 0, 0 and 1, split at 30, give `[1, 1, 0, 1]` |
| `Ratios.Sensitivity` | measurefairness.py:205-210 | In `[0, 1]`; 0 exactly when `d == 0` (this covers the guarded `b+d == 0`); 1 exactly when `b == 0 < d` |
| `Ratios.Specificity` | measurefairness.py:215-220 | In `[0, 1]`; 0 exactly when `a == 0` (this covers the guarded `a+c == 0`); 1 exactly when `c == 0 < a` |
| `Ratios.ShareEquations` | measurefairness.py:205-220 | Sensitivity times `b+d` is `d`, and specificity times `a+c` is `a`, the guarded empty groups included |
| `Ratios.LrPos` | measurefairness.py:224-229 | Non-negative; 0 exactly when `d == 0` or `c == 0 < a` |
| `Ratios.Lr` | measurefairness.py:233-238 | Non-negative; 0 on exactly the same tables as `LrPos` |
| `Ratios.LrClosedForm` | measurefairness.py:248-253 | The likelihood ratio is `c(b+d) / (d(a+c))` when `d > 0` and `a+c > 0`, and `(b+d)/d` when there is no minority record |
| `Ratios.LrPosClosedForm` | measurefairness.py:224-229 | The positive ratio is `d(a+c) / ((b+d)c)` when `c > 0` and `b+d > 0`, and equals the sensitivity when there is no minority record |
| `Ratios.LrIsReciprocal` | measurefairness.py:224-238 | The two ratios are 0 together, and otherwise their product is 1 |
| `Ratios.FewerMinorityPositivesLowerLr` | measurefairness.py:255-257 | Moving one minority record from prediction 1 to 0 (`c` down, `a` up) never raises the likelihood ratio |
| `Ratios.MoreMajorityPositivesLowerLr` | measurefairness.py:258-259 | Moving one majority record from prediction 0 to 1 (`b` down, `d` up) never raises the likelihood ratio, once some majority record is predicted 1 |
| `Verdicts.DisparateImpact` | measurefairness.py:68-73 | The ratio returned is the likelihood ratio unchanged; the flag is 0 or 1, and 1 exactly when the ratio is below 0.8 |
| `Verdicts.SentinelIsFlagged` | measurefairness.py:68-73 | A table whose likelihood ratio is the divide-by-zero sentinel 0 is flagged with ratio 0 |
| `Verdicts.ThresholdIsStrict` | measurefairness.py:70 | A table whose likelihood ratio is exactly 0.8 is not flagged |
| `Verdicts.RoundingBoundaryExample` | measurefairness.py:68-73 | `[2, 1, 3, 3]` has exact ratio 0.8 and is not flagged, a table that double-precision rounding would flag |
| `Verdicts.ThresholdsAgree` | measurefairness.py:222-232 | Away from the sentinel, the likelihood ratio is below 0.8 exactly when the positive likelihood ratio is above 1.25 |
| `Verdicts.ZeroDenominatorExample` | measurefairness.py:215-220 | With no minority record the specificity is the sentinel 0 and the ratio is 1: not flagged |
| `Verdicts.BalancedTableExample` | measurefairness.py:68-73 | `[1, 1, 1, 1]` has ratio 1 and is not flagged |
| `Report.ResultRowMeaning` | measurefairness.py:81-89 | A row built from a judged table holds the majority count `b+d` and minority count `a+c`, which together are at most the table's total. Its flag is 1 exactly when its ratio is below 0.8 |
| `Report.ComparisonRowMeaning` | measurefairness.py:77-91 | Row `i` names the algorithm, feature and classes of comparison `i`. Its majority count is `b+d` and its minority count is `a+c`. Both together never exceed the records read. Its flag is 1 exactly when its ratio is below 0.8, and the ratio is 0 when `d` is 0 |
| `Report.ShippedConfigurationRunnable` | measurefairness.py:26-29 | The shipped eight comparisons run on every population where each person has a sex, a race and a numeric age, one guess per person, and yield eight rows for any algorithm name |
| `Report.ResultLog.constructor` | measurefairness.py:31-33 | The result list starts as the header row alone |
| `Report.ResultLog.GetResults` | measurefairness.py:77-91 | The rows already in the list are kept. One row per comparison is appended, in configuration order, built from the threshold table for "age" and the categorical table otherwise |
| `Csv.MakeFilestring` | measurefairness.py:94-103 | The nested loops build exactly the reference text `FileString` of the rows |
| `Csv.TerminatedIsJoin` | measurefairness.py:97-100 | The inner loop's text for a row with a field is the fields joined by single commas, plus one comma |
| `Csv.FileStringIsLines` | measurefairness.py:94-103 | When every row has a field, the text is each row's fields joined by commas, one row per line, each line ended by one newline |
| `Csv.EmptyRowJoinsLines` | measurefairness.py:101 | An empty row cuts the newline of the row before it, so the two rows share a line |
| `Csv.CommaInFieldIsAmbiguous` | measurefairness.py:97-100 | Nothing is quoted: a field holding a comma writes the same text as two fields |
| `Csv.SplitJoin` | measurefairness.py:97-100 | Splitting a joined row at commas gives back its fields, when no field holds a comma |
| `Csv.SplitLines` | measurefairness.py:96-102 | Splitting the text at newlines gives each row's joined fields, then an empty piece |
| `Csv.ParseFileString` | measurefairness.py:94-103 | Reading back the text gives the rows when every row has a field and no field holds a comma or a newline |

## Left out

- `main` (measurefairness.py:36-59): it walks JSON data and extracts predictions. It is glue over dynamic data; people and guesses are parameters here.
- `get_data` and `make_csv_results_report`: file reading and writing. Only the text builder is modelled.
- `display_results`, `show_pass_fail` and `print_line`: console output only. Note that `show_pass_fail` reports a ratio of exactly 0.8 as failing, while the modelled verdict does not flag it.
- `float(person[...])`: the age comparison converts the stored value to a float. The model requires the age to be a number already (`Report.ComparisonRunnable`). Text ages that parse as numbers are not modelled, and neither is the `ValueError` that other text raises there.
- Floating-point rounding: all ratios use exact reals, and this shows at the verdict boundary. `Table(2, 1, 3, 3)` has exact likelihood ratio 4/5 and the model does not flag it (`Verdicts.RoundingBoundaryExample`). In double precision `1 - 2/5` is 0.6 and `0.6 / 0.75` rounds to 0.7999999999999999, so the script would flag that row. For the same reason `Ratios.LrIsReciprocal`'s product of exactly 1 and `Verdicts.ThresholdsAgree`'s agreement of the two rules hold over reals only. On that same table the script's positive ratio `0.75 / 0.6` rounds to exactly 1.25, which is not above 1.25, while its likelihood ratio is flagged, so in double precision the two rules disagree there. The sentinel `0` that Python returns as an integer is the real 0 here, so its `str()` (`0` rather than `0.0`) is not captured.
- Guesses are taken as integers. In the script a guess read as the text `"0"` or `"1"` matches neither `c == 0` nor `c == 1` and is skipped, while a guess of `0.0` or `False` counts as 0. The model does not represent those values.
- `Csv.MakeFilestring`: takes every field already as its text. The `str()` of integers, reals and class values is not modelled.
- Errors Python raises are preconditions, not modelled error paths. They are:
  - a `KeyError` for a person without the feature;
  - an `IndexError` when the person or guess lists are too short;
  - a `ValueError` from `float()` for an age that is text not holding a number;
  - a `TypeError` when an age is compared with a class that is text.

  `Report.Runnable` and `Report.ComparisonRunnable` are sufficient conditions for avoiding these errors, not necessary ones. The `and`/`elif` chain (measurefairness.py:191-197) short-circuits, so a text class is compared only when some record reaches that test. The predicates also exclude runs that never reach such a test, for example an "age" comparison over no people, or one whose only record is placed before the text class is compared.
- The module-wide configuration lists are parameters of `GetResults`. The shipped values are constants, and `Report.ShippedConfigurationRunnable` is about them.
- The commented-out blocks: the earlier single-comparison configuration and the dead code after the final notes, including `get_fairness_threshold`. Both sit inside string literals and never run.
