# Stack Overflow Developer Survey 2022 analysis — core model

This project models the data-shaping core of the Stack Overflow Developer Survey
2022 analysis notebook in Dafny and proves properties of it:

- **Multi-answer decomposition.** `split_multicolumn` turns a column of optional
  `;`-joined answers into one boolean indicator column per distinct answer. The
  answers are in first-seen order, with one row per respondent (`Indicators`,
  built on `Tokens` and `OptionVocabulary`).
- **Percentages.** The usage percentage of each option is `df.mean() * 100`,
  sorted descending. The loved percentage is `(worked & want).sum() * 100 /
  worked.sum()`, also sorted descending (`Aggregate`).
- **Single-option filter.** `survey_df.where(~F.str.contains(';', na=False),
  np.nan, inplace=True)` blanks every row whose field `F` holds several answers.
  It is applied to Gender, Employment and DevType in that order (`Cleaning`).
- **Composition.** The pieces are put together on survey columns (`Survey`).
  Worked examples on small columns are in `Scenarios`.

Modelling choices:

- A cell is `Option<string>`, where `None` is a missing value (NaN).
- A table is stored column by column, as the data frame is.
- Rows are identified by position.
- Percentages are exact `real` ratios. `0/0`, which pandas turns into NaN, is
  `None`.
- The sort is descending with NaN last. Only non-increasing order and being a
  permutation of the unsorted entries are stated.

Behaviour the model keeps:

- `value.split(';')` keeps empty tokens, so `"a;;b"` yields the option `""`.
- The `&` of two indicator frames of the same rows is a cell-wise AND.
- A loved ratio over an option nobody has worked with is `0/0`, which is NaN.
- A token equal to the decomposed series' own name is already among
  `result_df.columns`. It therefore never becomes an option: its write lands in
  the source column, which the final `result_df[options]` drops.

## Model

| member | source | states |
|---|---|---|
| Tokens.Split | StackOverflowDeveloperSurvey2022.py:377 | `value.split(';')` yields tokens free of `;`, and a value without `;` is its own single token |
| Tokens.SplitLength | StackOverflowDeveloperSurvey2022.py:377 | the number of tokens is one more than the number of `;`, so empty tokens are kept |
| Tokens.JoinSplit | StackOverflowDeveloperSurvey2022.py:377 | joining the tokens with `;` gives back the original value |
| Tokens.SplitJoin | StackOverflowDeveloperSurvey2022.py:377 | splitting the `;`-join of `;`-free tokens gives back those tokens |
| Tokens.SplitLeading | StackOverflowDeveloperSurvey2022.py:377 | a leading `;`-free token followed by `;` is split off as the first token |
| OptionVocabulary.Vocab | StackOverflowDeveloperSurvey2022.py:373-380 | the options list has no duplicates, and it holds exactly the visited tokens other than the series name |
| OptionVocabulary.StreamMembership | StackOverflowDeveloperSurvey2022.py:375-377 | a token is visited by the pass exactly when some present row's value lists it |
| OptionVocabulary.VocabFirstSeen | StackOverflowDeveloperSurvey2022.py:379-380 | options are appended in order of first appearance in the pass |
| OptionVocabulary.VocabularySpec | StackOverflowDeveloperSurvey2022.py:373-381 | the option columns are exactly the tokens some present row lists (except the series name), each once, in first-seen order |
| Indicators.MarkToken | StackOverflowDeveloperSurvey2022.py:379-383 | one token: a new option gets a fresh all-false column, then the row's cell is set; the options stay the vocabulary of the tokens seen so far, and every cell is set exactly when a processed token selected it |
| Indicators.MarkRow | StackOverflowDeveloperSurvey2022.py:375-383 | processing all tokens of one present or absent row moves the pass invariant from that row to the next |
| Indicators.SplitMulticolumn | StackOverflowDeveloperSurvey2022.py:371-384 | the result has one row per input row and the vocabulary as its options, and cell (r, o) is set exactly when row r is present and its value lists o |
| Indicators.ColumnsInhabited | StackOverflowDeveloperSurvey2022.py:379-383 | every option column of a decomposition has at least one set cell |
| Indicators.RowIgnoresTokenOrder | StackOverflowDeveloperSurvey2022.py:377-383 | two rows that list the same set of answers, in any order and with repeats, get identical indicator rows |
| Aggregate.Count | StackOverflowDeveloperSurvey2022.py:457 | `column.sum()` of a boolean column is at most its length, and is zero exactly when no cell is set |
| Aggregate.CountMonotone | StackOverflowDeveloperSurvey2022.py:457 | a column whose set cells are among another's has no larger sum |
| Aggregate.Percent | StackOverflowDeveloperSurvey2022.py:457 | `num * 100 / den` with `num <= den` (every call site): `0/0` is NaN, otherwise the ratio lies in [0, 100] and is positive when `num` is |
| Aggregate.Insert | StackOverflowDeveloperSurvey2022.py:397 | inserting into a descending series keeps it descending and adds exactly that entry |
| Aggregate.SortDesc | StackOverflowDeveloperSurvey2022.py:397 | `sort_values(ascending=False)` gives a non-increasing permutation of the entries, with NaN last |
| Aggregate.UsagePercent | StackOverflowDeveloperSurvey2022.py:397 | `mean().sort_values(ascending=False) * 100` is sorted descending, has one entry per option, and each entry is that option's set-cell count over all rows; all entries lie in [0, 100] when there is a row |
| Aggregate.Loved | StackOverflowDeveloperSurvey2022.py:451 | `worked & want` keeps the worked options and rows, and a cell is set exactly when it is set in worked and in the want column of the same option |
| Aggregate.LovedCountBound | StackOverflowDeveloperSurvey2022.py:451-457 | an option's loved count never exceeds its worked count |
| Aggregate.LovedRatesBounded | StackOverflowDeveloperSurvey2022.py:457 | every defined loved ratio lies in [0, 100] |
| Aggregate.LovedRatesUndefined | StackOverflowDeveloperSurvey2022.py:457 | the loved ratio of an option is NaN exactly when nobody has worked with it |
| Aggregate.LovedPercent | StackOverflowDeveloperSurvey2022.py:457 | the loved series is sorted descending and is a permutation of the per-option ratios; defined values lie in [0, 100], and an option is NaN exactly when its worked column is empty |
| Aggregate.LovedPercentDefined | StackOverflowDeveloperSurvey2022.py:457 | when every worked option has a user, the loved percentage of every option of the worked table is defined and lies in [0, 100] |
| Cleaning.KeepSingleOption | StackOverflowDeveloperSurvey2022.py:167 | the filter fails exactly when the field is missing; otherwise it keeps columns and row count, blanks exactly the rows whose field contains `;` and leaves the others unchanged, so no field value with `;` remains |
| Cleaning.KeepSingleOptionIdempotent | StackOverflowDeveloperSurvey2022.py:167 | applying the filter a second time on the same field changes nothing |
| Cleaning.CleanSurveyRows | StackOverflowDeveloperSurvey2022.py:167-346 | after the Gender, Employment and DevType filters a row is blank exactly when one of those three original fields held several answers, and is otherwise unchanged |
| Survey.SingleAnswerAfterFilter | StackOverflowDeveloperSurvey2022.py:346 | decomposing a field after its single-option filter marks at most one option per row |
| Survey.LovedOfDecompositions | StackOverflowDeveloperSurvey2022.py:451 | on decomposed survey columns a respondent loves o exactly when both their worked-with and want-to answers list o (and o is not the want series' name) |
| Survey.LovedPercentOfSurvey | StackOverflowDeveloperSurvey2022.py:457 | for every option of the decomposed worked-with column, the loved percentage is defined and lies in [0, 100] |
| Survey.UsagePercentOfSurvey | StackOverflowDeveloperSurvey2022.py:397 | the usage percentages of a decomposed survey column are never NaN and lie in (0, 100] |
| Scenarios.DecomposeExample | StackOverflowDeveloperSurvey2022.py:371-384 | `[a;b, b, absent, a]` decomposes into options `[a, b]` with columns `[T,F,F,T]` and `[T,T,F,F]` |
| Scenarios.LovedExample | StackOverflowDeveloperSurvey2022.py:451-457 | two of four respondents worked with o, one of whom wants it, so o is loved at 50% |
| Scenarios.AllAbsentExample | StackOverflowDeveloperSurvey2022.py:375 | a column with no answer gives no option but still one row per respondent |

The same usage percentage is computed for the want-to languages
(StackOverflowDeveloperSurvey2022.py:426) and for databases (:488 and :513). The
loved percentage for databases (:531 and :537) is the same expression as for
languages. `Aggregate.UsagePercent`, `Aggregate.Loved` and `Aggregate.LovedPercent`
model all of them.

## Left out

- Reading the CSV files and the schema, column selection, and `pd.to_numeric`: they are I/O and type coercion outside the modelled core. Cells stay text.
- Plots, `value_counts` and `nunique`: they are presentation, not data shaping.
- Floating point: percentages are exact reals, so rounding in `mean` and in `* 100 /` is not modelled.
- Aggregate.Percent: a positive count over a zero denominator, which pandas turns into `inf`, is also `None`. No call site produces it: a usage count is at most the number of rows, and a loved count is at most the worked count (`Aggregate.LovedCountBound`).
- Aggregate.LovedPercentDefined: covers only the options of the worked table. An option present only in the want table is NaN in the notebook's series, and it is not in the modelled one.
- Survey.LovedPercentOfSurvey: covers only the options of the worked-with column. An option that appears only among the want-to answers is NaN in the notebook's series, and it is not in the modelled one.
- Aggregate.SortDesc: does not state the order of entries with equal percentages, because `sort_values` promises no particular tie order.
- Aggregate.Loved: requires both tables to have the same height, because both come from the same survey frame. Index alignment over differing row labels is not modelled.
- Aggregate.Loved: keeps only the worked table's options. The `&` of two frames also yields an all-false column for each option present only in the want table.
- Aggregate.LovedPercent: covers only the worked options. In the notebook an option present only in the want table also appears in the loved series, as NaN, because `worked.sum()` has no entry for it.
- Rows are identified by position. Duplicate index labels, which would make `.at` write several rows, are not modelled.
