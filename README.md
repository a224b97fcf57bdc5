# Pull-request statistics of `gh_tools.py`, modelled in Dafny

`gh_tools.py` turns the pull-request records that the GitHub API returns
into a table and summarises that table month by month. The summary counts
merged and rejected (closed without merging) pull requests. Each count is
split between the project's core developers and the community. This
project models that pipeline and proves what each of its stages does:

- `_parse_datetime` turns a falsy timestamp into `None` and hands any
  other text to `strptime`. `strptime` is a parameter (`Parser`) here, and
  its `ValueError` becomes `Err(ParseError(text))`.
- `pulls_to_data_frame` keeps the records that have an author and a truthy
  close time. It turns each kept record into a row (number, login,
  milestone title, opened, merged, closed), in input order. The first
  record whose timestamps do not parse raises, and in the model that is
  the result.
- `core_non_core` counts the rows whose author is in the core-developer
  set, and the rest. The set is a parameter; `CoreDevs` holds the seven
  logins of the source.
- `monthly_data` walks the months from `(year_start, month_start)` to
  `(year_end, month_end)`. For each month it selects the rows closed
  strictly inside the month's window. It splits them into merged and
  rejected rows and counts each group by author class. The result is a
  pair of tables keyed by the first day of the month. The model gives
  this method the same nested loops (`GhTools.MonthlyData`, whose loops are
  `GhTools.MonthlyLoops`). It proves
  the method equal to a closed-form specification (`GhTools.Monthly`).
  The properties of the summary are proved about that specification.

The files:

- `wrappers.dfy` holds `Option` and `Result`.
- `sequences.dfy` holds the order-preserving `Filter` and its lemmas. It
  stands for pandas boolean indexing and list comprehensions with a
  condition.
- `timestamps.dfy` holds datetimes, their order, and the first instant of
  a day.
- `gh_tools.dfy` holds the pipeline itself.

The month mask is `(closed < end) * (closed > start)`, strict on both
sides, so a pull request closed exactly at midnight on the first of a
month falls in no month's window; `GhTools.FirstInstantUncounted` proves
that it changes no summary.

`datetime(...)` raises for a year outside 1..9999. The model
keeps this error as `Err(YearOutOfRange(year))`. It happens when a visited
month's year is out of range, and for December 9999, whose end would lie
in year 10000. The loops stop at the first such month, as the raise does.

## Model

| member | source | states |
|---|---|---|
| GhTools.ParseDateTime | gh_tools.py:10-15 | `None` exactly for a missing or empty string. Otherwise the parser's value, or a `ParseError` carrying the text when the parser rejects it. |
| GhTools.ToRows | gh_tools.py:22-27 | One row per filtered record, in order, each field taken from its record. The result is an error exactly when some record does not parse, and then it is the error of the first such record, with its creation time checked before its close time. |
| GhTools.PullsToDataFrame | gh_tools.py:17-30 | Success exactly when every kept record parses. Then there is one row per kept record, in order, each describing its record. Otherwise the error of the first failing kept record. |
| GhTools.KeptRecords | gh_tools.py:20 | A record reaches the table if and only if it is in the input, has an author, and has a truthy close time. |
| GhTools.NormaliseSucceeds | gh_tools.py:20-27 | Normalisation succeeds if and only if every input record that passes the filter has parsable timestamps. |
| GhTools.NormaliseOrder | gh_tools.py:20-27 | Normalising `a + b` gives the rows of `a` followed by the rows of `b`, so rows keep their records' order. |
| GhTools.DescribedConcat | gh_tools.py:22-27 | The row-by-row correspondence between records and rows is kept when both are concatenated. |
| GhTools.RowsDetermined | gh_tools.py:22-27 | A sequence of records has exactly one sequence of rows describing it. |
| GhTools.RowsAreClosed | gh_tools.py:20-27 | Every row of a successful normalisation has a close time. |
| GhTools.CoreCount | gh_tools.py:47-48 | The count equals the number of positions whose author is in the core set. |
| GhTools.IndicesSnoc | gh_tools.py:47-49 | An appended row adds its position to exactly one of the core and community position sets. |
| GhTools.IndicesSplit | gh_tools.py:47-49 | The core and community position sets together have as many elements as there are rows. |
| GhTools.CoreNonCore | gh_tools.py:45-50 | The two counts are the number of core-authored rows and the number of the other rows. They add up to the number of rows and are `(0, 0)` for no rows. |
| GhTools.CoreNonCoreAppend | gh_tools.py:45-50 | One more row adds one to the core count when its author is a core developer, and one to the community count otherwise. |
| GhTools.IndexRoundTrip | gh_tools.py:63-64 | Month numbering round trip: from an index to a month and back gives the index. |
| GhTools.MonthRoundTrip | gh_tools.py:63-64 | Month numbering round trip: from a month in 1..12 to an index and back gives the month. |
| GhTools.MonthsExact | gh_tools.py:63-68 | A month is visited if and only if its year is in `range(year_start, year_end + 1)`, its month in 1..12, and neither `continue` guard skips it. |
| GhTools.MonthsChronological | gh_tools.py:63-68 | The visited months have month numbers in 1..12 and are consecutive calendar months, in strictly increasing order. |
| GhTools.MonthsSpan | gh_tools.py:63-68 | For month arguments in 1..12, the visit runs from the start month to the end month inclusive and has the matching length. There are no months exactly when the end comes before the start. |
| GhTools.MonthEndIsNextStart | gh_tools.py:69-73 | A month's `end` is the next month's `start`, with December rolling over to January of the next year. |
| GhTools.WindowsOrdered | gh_tools.py:69-75 | An earlier month's window ends no later than a later month's window starts. |
| GhTools.AtMostOneMonth | gh_tools.py:75 | A close time lies in the window of at most one month. |
| GhTools.FirstInstantInNoMonth | gh_tools.py:75 | A close time at the first instant of a month lies in no month's window, because both bounds of the mask are strict. |
| GhTools.InOwnMonth | gh_tools.py:69-75 | A well-formed close time other than its month's first instant lies in its own month's window. |
| GhTools.BucketPartition | gh_tools.py:75-84 | A month's data row is dated the first of the month. Its merged counts sum to the merged rows selected and its rejected counts to the rejected rows selected. The merged and rejected rows together are exactly the selected rows, as a multiset. |
| GhTools.TallyAppend | gh_tools.py:77-81 | One more selected row adds one to exactly the column that its merge state and author class select. |
| GhTools.BucketAppend | gh_tools.py:75-84 | An added row changes a month's data row exactly when its close time is in that month's window, and then by one in one column. |
| GhTools.CountedInOwnMonth | gh_tools.py:75-84 | An added row with a well-formed close time other than a month's first instant is counted in its own month only, in one column. |
| GhTools.Tabulate | gh_tools.py:63-84 | The list `data` holds one entry per visited month, built from that month's selection. It is an error exactly when some visited month's window cannot be built, and then it is the error of the first such month. |
| GhTools.TabulateCongruent | gh_tools.py:75-84 | The list `data` depends on the rows only through each visited month's counts. |
| GhTools.Tables | gh_tools.py:85-94 | The merged and rejected tables have one row per entry of `data`. Each row is keyed by the entry's date and holds its `cm, ncm` or `cr, ncr` as `core, community`. |
| GhTools.MonthlyTables | gh_tools.py:53-94 | The summary succeeds exactly when every visited month's window can be built. Then both tables have one row per visited month, in order, dated the first of the month. They hold `core_non_core` of that month's merged and rejected rows, and the four counts sum to the rows closed in the month. |
| GhTools.FirstInstantUncounted | gh_tools.py:75 | Adding a row closed at the first instant of a month leaves the whole summary unchanged. |
| GhTools.CoreMergedScenario | gh_tools.py:53-94 | A core developer's merged pull request closed in mid-March 2021 gives `(1, 0)` merged and `(0, 0)` rejected for March 2021. |
| GhTools.CommunityRejectedScenario | gh_tools.py:53-94 | A community contributor's rejected pull request closed in mid-March 2021 gives `(0, 0)` merged and `(0, 1)` rejected for March 2021. |
| GhTools.MonthlyData | gh_tools.py:53-94 | The nested loops return exactly the closed-form summary for the given start and end months. A start month left out is January, and an end year or month left out is the clock's. |
| GhTools.MonthlyLoops | gh_tools.py:63-94 | The nested year and month loops, with both `continue` guards and the early exit at a month whose window cannot be built, return exactly the closed-form summary for the four bounds. |
| GhTools.ProgressStart | gh_tools.py:55-63 | The loop state holds before the first month: no months visited, `data` empty. |
| GhTools.ProgressVisit | gh_tools.py:64-84 | One month's iteration keeps the loop state. It either skips the month, appends its entry, or runs into the month whose window cannot be built. |
| GhTools.ProgressEnd | gh_tools.py:63-85 | When the loops end, `data` holds the entries of all visited months. |
| Timestamps.BeforeIsStrictTotalOrder | gh_tools.py:75 | The datetime comparison is irreflexive, transitive, asymmetric and total. |
| Sequences.Filter | gh_tools.py:20 | The filtered sequence is no longer than its input, and it holds only kept elements that come from the input. |
| Sequences.FilterMembership | gh_tools.py:20 | An element is in the filter if and only if it is in the input and is kept. |
| Sequences.FilterConcat | gh_tools.py:20 | Filtering a concatenation concatenates the filters of the parts. |
| Sequences.FilterComplement | gh_tools.py:77-81 | A filter and its complementary filter split the input: their lengths sum to its length and their multisets to its multiset. |

## Left out

- The `gh_api` import and `get_pulls_list`: fetching pull requests is network I/O. The model starts from a sequence of records.
- `datetime.strptime` with the format `%Y-%m-%dT%H:%M:%SZ`: the caller supplies it as the `Parser` parameter. The model does not decide which strings match the format.
- `datetime.now()`: the clock reading is the `today` parameter of `GhTools.MonthlyData`.
- pandas: data frames are sequences of rows, boolean masks are `Filter`, and the returned frames are sequences of `TableRow` keyed by date. Column dtypes, the index object and `NaT` handling are not modelled. A missing close time compares false, as `NaT` does.
- GhTools.Monthly: when no record survives the filter, the model returns tables of zero counts, one row per visited month. In pandas, the frame built from an empty list has object-typed columns. The selection `month_prs[month_prs['merged']]` on line 77 is then read as a list of column labels, not as a boolean mask, so `core_non_core` could raise `KeyError: 'user'` on line 47. This dtype behaviour is not modelled.
- The `df.head()` after `return` in `pulls_to_data_frame` never runs and has no model.
- Microseconds: timestamps of the API format carry whole seconds, and `DateTime` has no sub-second field.
- A `KeyError` for a record without one of the six keys: every record in the model has all six fields.
- GhTools.PullsToDataFrame: the truthiness of the `user` and `milestone` values is modelled as presence. The API never returns an empty object there.
- The idempotence of `_parse_datetime` and `core_non_core` is not stated as a lemma: both are functions in the model, so calling one twice with the same inputs gives the same result by definition.
- `monthly_data` with month arguments outside 1..12 is modelled through the loop guards, as the code does. `GhTools.MonthsSpan` states the inclusive span only for arguments in 1..12.
