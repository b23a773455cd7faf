# Hospital operations dashboard: the aggregation core

`dash1.py` is a Streamlit page. It pulls six hospital feeds (OPD appointments,
admissions, discharges, radiology, operation theatre, bed status) as JSON
arrays of flat records and turns each into a pandas DataFrame. It then shows
tiles and charts over them. This project models the part of the page that
computes those numbers, and proves what each number means:

- **Frames** (`frames.dfy`). A DataFrame built from records: its columns are
  the union of the record keys, and a key a record lacks reads as NaN. The
  module also holds the scalar counts the tiles show (`Series.count()`, the
  size of an equality filter) and `df[col] = values`. Every column lookup can
  raise KeyError, modelled as `Err(MissingColumn(col))`.
- **GroupCounts** (`group_counts.dfy`). `groupby(col).size().reset_index()
  .sort_values(ascending=False)` and `value_counts()`, with the tile total
  `Count.sum()`. A reference predicate, `IsGroupCountOf`, says what a group
  count is: one group per distinct non-null key, each with its row count,
  counts non-increasing. The implementation is a first-seen tally followed by
  an insertion sort, and it is proved to meet that predicate.
- **Ages** (`ages.dfy`). `convert_age` with Python's own `str.strip()`
  (every `str.isspace` character) and `int()`. `int()` accepts surrounding
  whitespace, an optional sign, and digits with single underscores, up to
  4300 digits. Its whitespace is narrower than `strip()`'s: U+001C..U+001F
  are refused, so `"18\x1cA"` survives `strip()` and then makes `int()`
  raise. Also the Adult/Paediatric bracket `x >= 18`, and the pandas
  behaviour these lines depend on.
- **Dashboard** (`dashboard.dfy`). The bed-status frame as a class whose
  array of rows is rewritten in place by the Liver relabelling and the two age
  columns. Also the ICU filter, the OPD count, the admission/discharge counts,
  and `create_columns`.

In four places a reader might expect behaviour the code does not have. The
model follows the code each time:

- Ties among groups with equal counts might be expected in first-seen
  order. The code calls `sort_values`, whose default sort is not stable. The
  model promises only that counts are non-increasing, and
  `GroupCounts.TalliesAgree` shows that two valid results hold the same
  groups.
- An age with a malformed number might be expected to drop out of the
  bracket. In the code `int()` raises ValueError, so `Ages.ConvertAge` gives
  `Err(BadNumber(..))`.
- An age with no recognised unit ("bad") might be expected to drop out of
  the totals. In the code `convert_age` returns None, which pandas makes NaN.
  `NaN >= 18` is false, so the bed counts as Paediatric. The only exception
  is a column where every bed is None: it keeps object dtype and the
  comparison raises TypeError (`Dashboard.NoUsableAgeRaises`).
- A missing column might be expected to give a named error. The code raises
  pandas' KeyError, modelled as `MissingColumn`.

Parsed ages are exact integers, as Python's `int()` returns them. `int()`
itself refuses more than 4300 digits (`Ages.TooManyDigits`). pandas then
stores the AgeInYears column as int64 or float64; the model does not
represent that storage (see "Left out"). Months are compared as `m >= 216`,
which `Ages.IsAdult` proves equal to the script's `m / 12 >= 18` over the
reals.

## Model

| member | source | states |
|---|---|---|
| Frames.FromRecords | dash1.py:86 | `pd.DataFrame(records)`: the rows are the records, and a label is a column exactly when some record has that key |
| Frames.Column | dash1.py:204 | `df[col]` has one cell per row: the row's value, or NaN where the record lacks the key |
| Frames.SeriesCount | dash1.py:204 | `df[col].count()` is Ok exactly when the column exists, KeyError otherwise, and at most the number of rows |
| Frames.FilterCount | dash1.py:277-278 | `df[df[col] == v].shape[0]` is Ok exactly when the column exists, KeyError otherwise, and at most the number of rows; this bounds the overwritten uhid-filtered counts |
| Frames.WithColumn | dash1.py:364-366 | after `df[col] = vals` the frame has the same rows, gains `col`, holds `vals` in it, and every other column is unchanged |
| Frames.TwoValued | dash1.py:368-371 | when every cell is one of two distinct values, their two counts add up to the number of cells |
| Frames.CountPositive | dash1.py:215-218 | a value is counted at least once exactly when some cell holds it |
| Frames.AbsentColumnIsNaN | dash1.py:203-207 | in a well-formed frame a label that is not a column reads NaN in every row and has non-null count 0, so guarding a count on `col in df.columns` hides no cell |
| Frames.AllNullCount | dash1.py:204 | a column of NaN has `count()` 0 |
| Frames.EmptyFeed | dash1.py:132 | the frame of an empty feed has no rows and no columns, so `df[col].count()` raises KeyError |
| GroupCounts.Total | dash1.py:310 | `Count.sum()`: no single group's count exceeds the total (with `GroupTotal`, the total is the non-null count) |
| GroupCounts.Tally | dash1.py:215-218 | the first-seen tally has distinct non-null keys, each with count ≥ 1 equal to its number of cells, and covers every non-null cell |
| GroupCounts.Insert | dash1.py:219 | inserting a group adds exactly that group to the table's multiset of groups |
| GroupCounts.InsertSorted | dash1.py:219 | inserting a group into a table sorted by count keeps it sorted |
| GroupCounts.SortDesc | dash1.py:219 | the sorted table holds the same groups as a multiset, with non-increasing counts |
| GroupCounts.ValueCounts | dash1.py:550 | `value_counts()` of a Series meets `IsGroupCountOf`: a tally with non-increasing counts |
| GroupCounts.GroupCount | dash1.py:304-309 | the groupby chain is Ok exactly when the column exists, KeyError otherwise, and on Ok it is a group count of the column |
| GroupCounts.PermutedTally | dash1.py:219 | any reordering of a tally is still a tally |
| GroupCounts.GroupTotal | dash1.py:310 | the total of the Count column is the number of non-null cells of the grouped column |
| GroupCounts.PanelTotal | dash1.py:432 | each panel's tile total is the non-null count of its column, and so at most the number of rows |
| GroupCounts.TalliesAgree | dash1.py:245-250 | two group counts of one column hold exactly the same groups; only ties can be ordered differently |
| GroupCounts.GroupCountOfNoRows | dash1.py:386-391 | a zero-row frame that has the column gives an empty table; the frame of an empty feed raises KeyError |
| Ages.TrimLeftShape | dash1.py:536 | `lstrip()` removes a prefix made only of whitespace and leaves a result that is empty or starts with a non-space |
| Ages.TrimRightShape | dash1.py:536 | `rstrip()` removes a suffix made only of whitespace and leaves a result that is empty or ends with a non-space |
| Ages.Strip | dash1.py:536 | `strip()` is never longer than its argument and leaves no whitespace at either end |
| Ages.StripPadded | dash1.py:536 | `strip()` of whitespace + core + whitespace is the core, when the core's first and last characters are not spaces |
| Ages.IntTrim | dash1.py:538 | the whitespace `int()` skips is removed from both ends: the result is no longer than the argument and has no such whitespace at either end |
| Ages.ParseInt | dash1.py:538 | `int()` succeeds only on a string that, after its whitespace, is an optional sign then digits and underscores ending in a digit, with no whitespace inside |
| Ages.ShowNat | dash1.py:538 | the decimal form of a natural number is non-empty and all digits |
| Ages.ParseShow | dash1.py:538 | `int()` of the decimal form of any integer of at most 4300 digits gives that integer back |
| Ages.TooManyDigits | dash1.py:538 | `int()` of the decimal form of an integer of more than 4300 digits raises ValueError |
| Ages.ConvertAge | dash1.py:535-542 | a failure happens only when the stripped string ends in "A" or "m" and `int()` refuses what precedes the unit, and it reports that text (with `ConvertAgeUnits`, `ConvertAgeNone`, `ConvertYears` and `ConvertMonths`) |
| Ages.ConvertAgeUnits | dash1.py:535-542 | a number comes back only when the stripped string ends in "A" (years) or "m" (months), and a failure is always a ValueError of `int()` |
| Ages.ConvertAgeNone | dash1.py:537-542 | the result is None exactly when the stripped string is empty or ends in neither unit |
| Ages.ConvertYears | dash1.py:537-538 | any integer of at most 4300 digits followed by "A", with any whitespace padding, converts to that many years |
| Ages.ConvertMonths | dash1.py:539-540 | any integer of at most 4300 digits followed by "m", with any whitespace padding, converts to that many months |
| Ages.OtherSuffixIsNone | dash1.py:541-542 | a last character that is neither "A" nor "m" (nor a space) gives None; the units are case-sensitive |
| Ages.ConvertAgeValue | dash1.py:544 | a cell that is not a string raises AttributeError; a converted cell is NaN or a number |
| Ages.Collect | dash1.py:544 | `apply(convert_age)` gives one converted cell per row, or the failure of the first cell that raises, all cells before it having converted |
| Ages.ConvertAgeColumn | dash1.py:544 | `df["age"].apply(convert_age)` gives one converted cell per row, each the conversion of that row's age, or the failure of the first row whose conversion raises |
| Ages.IsAdult | dash1.py:547 | years are Adult at ≥ 18, months exactly when months / 12 ≥ 18 over the reals, and NaN is never Adult |
| Ages.AgeGroupColumn | dash1.py:546-548 | raises TypeError exactly when the column is non-empty and all None; otherwise each cell is Adult or Paediatric, Adult exactly when `IsAdult` holds |
| Ages.EighteenYearsIsAdult | dash1.py:537-547 | "18A" converts to 18 years, which is Adult |
| Ages.SeventeenYearsIsPaediatric | dash1.py:537-547 | "17A" converts to 17 years, which is Paediatric |
| Ages.SixMonthsIsPaediatric | dash1.py:539-547 | "6m" converts to 6 months, which is Paediatric |
| Ages.MonthsThreshold | dash1.py:540-547 | 216 months is Adult, and every smaller number of months is Paediatric |
| Ages.WrongUnitIsNone | dash1.py:541-542 | "18a", "6M" and "bad" convert to None |
| Ages.BareUnitIsMalformed | dash1.py:537-538 | "A" raises ValueError on `int("")` |
| Ages.DoubleUnderscoreIsMalformed | dash1.py:539-540 | "1__0m" raises ValueError, because `int()` accepts only single underscores between digits |
| Ages.SeparatorBeforeUnitIsMalformed | dash1.py:536-538 | "18\x1cA" raises ValueError on `int("18\x1c")`, because `strip()` removes U+001C but `int()` does not skip it; "18\xa0A" is 18 years |
| Dashboard.Frame.constructor | dash1.py:164 | the frame holds exactly the given table, in a fresh array of rows |
| Dashboard.Frame.AssignColumn | dash1.py:544 | rewrites the rows in place; the new state is the old frame with the column assigned, and it stays well formed |
| Dashboard.Frame.ClassifySpeciality | dash1.py:364-366 | without a speciality column it raises KeyError and changes nothing; otherwise the speciality column becomes the Liver/Non-Liver label of each row |
| Dashboard.Frame.AddAgeColumns | dash1.py:544-548 | the new frame and failure are those of `AgeStep`; a failing AgeGroup step leaves AgeInYears assigned |
| Dashboard.LiverLabel | dash1.py:358-366 | "Liver" exactly when the cell is a string that is one of the three listed departments; otherwise "Non-Liver" |
| Dashboard.LiverLabels | dash1.py:364-366 | the relabelled column has one cell per row, each the label of that row's speciality |
| Dashboard.LiverCounts | dash1.py:368-371 | Ok exactly when the speciality column exists; the two counts together are at most the number of rows |
| Dashboard.LiverSplit | dash1.py:364-371 | after relabelling, Liver + Non-Liver is the number of rows, and Liver is the sum of the three departments' counts |
| Dashboard.LiverPanel | dash1.py:364-371 | on the rewritten frame both counts exist, add up to the bed count, and the Liver count is the beds of the three departments |
| Dashboard.LiverIsExactMatch | dash1.py:358-366 | "Hepatology" is Liver; "Hepatology Clinic", "Cardiology" and NaN are Non-Liver |
| Dashboard.AgeStep | dash1.py:544-548 | the two assignments keep the number of rows, the frame's well-formedness and the age column; KeyError exactly when there is no age column; on success both AgeInYears and AgeGroup are added |
| Dashboard.BracketCounts | dash1.py:550-553 | over a column of bracket labels, Adult + Paediatric is the length, the value_counts total is the length, and every key is a bracket |
| Dashboard.AgeBrackets | dash1.py:544-553 | when the age panel succeeds, each bed is in one bracket, Adult exactly when its converted age is ≥ 18, and the tile total is the bed count |
| Dashboard.AgeStepFailures | dash1.py:536-544 | a bed with a NaN age, or with an age `int()` refuses, makes the panel raise |
| Dashboard.NoUsableAgeRaises | dash1.py:544-548 | when every bed has an age string, each one possibly different, that converts to None, the panel raises TypeError rather than reporting all Paediatric |
| Dashboard.NullsCollect | dash1.py:544 | when every cell converts to None, the apply succeeds and gives a column of NaN |
| Dashboard.UnknownIsNoAge | dash1.py:541-542 | "unknown" converts to None |
| Dashboard.IsIcuWard | dash1.py:333 | only a string cell of at least three characters can contain "ICU" |
| Dashboard.IcuIsCaseSensitive | dash1.py:333 | "MICU" and "ICU-2" match `contains("ICU")`; "Icu Ward" and NaN do not |
| Dashboard.IcuFilter | dash1.py:333 | the filtered ward column holds each ICU ward as often as the original and no other ward, and is no longer than the non-null wards |
| Dashboard.IcuCounts | dash1.py:332-338 | Ok exactly when the ward column exists and holds no NaN; on Ok a group count of the ICU wards |
| Dashboard.IcuGroupIsWardGroup | dash1.py:304-338 | every ICU group is a ward group whose name contains "ICU" |
| Dashboard.WardGroupIsIcuGroup | dash1.py:304-338 | every ward group whose name contains "ICU" is an ICU group |
| Dashboard.IcuWithinWards | dash1.py:304-340 | the ICU chart is exactly the ICU-named ward groups, its total is the filtered row count, and that total is at most the ward total |
| Dashboard.OpdCount | dash1.py:203-207 | 0 without a patientName column; otherwise the same as `df["patientName"].count()`; never more than the number of rows |
| Dashboard.OpdTileRaisesOnEmptyFeed | dash1.py:212 | on the frame of an empty feed the unguarded count raises KeyError, while the guarded count is 0 |
| Dashboard.MovementCounts | dash1.py:277-280 | Ok exactly when both frames have a uhid column, KeyError otherwise; on Ok the reported counts are the two row counts |
| Dashboard.CreateColumns | dash1.py:197-201 | there are `num_columns` slots, and slot i shows `data[i]` when i < len(data) and is empty otherwise |
| Dashboard.MetricsShown | dash1.py:199-201 | such a row of slots shows exactly min(num_columns, len(data)) metrics |
| Dashboard.LiverMetricsRow | dash1.py:197-201 | the Liver panel's call at line 382, two metrics in the default three columns, fills slots 0 and 1 in order and leaves slot 2 empty, so two metrics are shown |

## Left out

- HTTP fetching, status checks, the JSON-decode fallbacks, the date
  parameters, `st.warning`/`st.error` messages, and all rendering
  (`display_header`, Plotly figures, CSS). These are I/O and display.
  Fetching and parsing are represented by the records given to
  `Frames.FromRecords`.
- The IP Occupancy tile (`shape[0]`) on its own. It is the row count, which
  every lemma states as `|t.rows|`.
- Cell values other than strings and NaN (JSON numbers or booleans in a
  feed). Every non-age cell is modelled as a string or NaN.
- GroupCounts.SortDesc: the order among groups with equal counts is not
  modelled, because `sort_values` promises none.
- Ages.ParseInt: non-ASCII Unicode digits, which Python's `int()` also
  accepts, are refused. The 4300-digit limit is the default of
  `sys.get_int_max_str_digits()`; a changed limit is not modelled.
- Ages.ConvertAgeColumn: pandas stores the converted column as int64 or
  float64 (object when a year count exceeds int64). The model keeps exact
  integers instead. Float rounding is monotone and 18 is exact, so the
  bracket is the same; months so large that `int / 12` overflows a float
  are not modelled.
- Ages.IsAdult: floating-point rounding of `m / 12` is not modelled. The
  comparison is made exactly, as `m >= 216`.
- Dashboard.IcuCounts: every cell that is not a string is reported as the
  mask error, including the AttributeError pandas raises when `.str` is used
  on a ward column that is entirely NaN.
- Dashboard.AgeStepFailures: it names the cases in which the age panel
  raises, not which error pandas reports for them. `ConvertAgeColumn` gives
  the error of the first failing cell.
- Dashboard.CreateColumns: `st.columns(0)` raises in Streamlit, so the model
  requires at least one column. That failure is not modelled.
- Isolating one feed's failure from the others and stopping the page on an
  exception are Streamlit's behaviour. The model returns the failure instead.

## Findings

| source | as written | input that shows it | evidently intended | confidence | as-written member | corrected member |
|---|---|---|---|---|---|---|
| dash1.py:212 | the OPD tile recomputes `opd_data["patientName"].count()` without the guard of lines 203-207 | an empty or failed OPD feed: `opd_data` is `pd.DataFrame()` with no columns, so line 212 raises KeyError | show 0, as the guarded count does | not executed | Dashboard.OpdTileRaisesOnEmptyFeed | Dashboard.OpdCount |
