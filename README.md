# Attendance grid, modelled in Dafny

The repository is a small React application. It shows a monthly attendance table of
employees. One row per employee holds an ID, a name, and one cell per calendar day.
An employee record carries its leave days as one comma-separated string of day keys,
such as `"05, 12"`.

The logic behind the table comes in two versions:

- The **month grid** (`src/Components/MCalTable.tsx`) is built for one calendar month.
  Its columns are ID, Name, then one column per day, keyed `"01"`, `"02"`, and so on.
  - A day cell reads `"-"` on a Saturday or Sunday, `"A"` on a leave day, and `"P"` otherwise.
  - The render loop works out a weekend flag and a leave flag for each cell again, to style it.
  - There is also a row of weekday headers.
- The **range grid** (`src/Components/Table.tsx`) walks from a start date to an end date.
  - It emits one column per day-of-month key. A key already seen is skipped.
  - A day cell reads `"A"` on a leave day and is empty otherwise.
  - The range it is given, `new Date(2024, 10, 1)` to `new Date(2024, 10, 31)`, ends on a day
    that November lacks. JavaScript rolls it over to 1 December, so the walk runs 31 times.
    The second `"01"` is dropped, which leaves 30 columns.

Both versions pad every employee record with empty day fields before rendering. The month grid
pads `"01"` to `"31"`. The range grid pads `"00"` to `"31"`.

The Dafny project has five modules:

| module | file | what it holds |
|---|---|---|
| `Calendar` | `calendar.dfy` | JavaScript `Date` arithmetic on whole days: see below |
| `Text` | `text.dfy` | the string operations used: see below |
| `Employees` | `employees.dfy` | employee records, leave tokens, and the padding loop shared by both `formatTableData`s |
| `MonthTable` | `month_table.dfy` | the month grid: `getLastDateOfMonth`, `generateDateColumns`, the `Cell` rule, the render-loop flags, the weekday header row, `formatTableData` |
| `RangeTable` | `range_table.dfy` | the range grid: `generateDateColumns` with its duplicate set, the `Cell` rule, `formatTableData`, the November 2024 range |

`Calendar` models these parts of JavaScript `Date`:

- the day number, using the ECMAScript closed forms for `DayFromYear` and `MakeDay`
- the Gregorian leap-year rule
- `getDay()` as a weekday index, with 0 for Sunday and 6 for Saturday
- `new Date(y, m, d)`, with its roll-over of months and days and its mapping of years 0–99 to 1900–1999
- `setDate`

`Text` models:

- `split` on a one-character separator
- `trim`, using the ECMAScript white-space set
- `toString` of a natural number, exact for the day numbers 0 to 31 the grid converts
- `padStart(2, "0")`
- `parseInt(s, 10)`

Both `generateDateColumns` are methods with their `while` loop. Each is proved equal to the column
list its module defines. For the month grid that list is `MonthColumns`. For the range grid it is
`RangeColumns`, which is the key list of the walked dates after `Dedup` removes repeated keys. The
lemmas then prove what the source promises about those column lists.

`formatTableData` maps over the employee list, and an inner `for` loop fills in the day fields.
Both loops are modelled as methods: `Employees.FormatRows` and `Employees.PadDays`.

The loops in the source step `currentDate` with `setDate(getDate() + 1)` and compare dates with
`<=`. The model compares day numbers instead, which is the same test for dates that all sit at
midnight.

## Model

| member | source | states |
|---|---|---|
| Calendar.NormalizeDay | src/Components/MCalTable.tsx:31 | the date a day-of-month rolls over into is a real date with the same day number as the unnormalised triple |
| Calendar.Normalize | src/Components/MCalTable.tsx:42 | `new Date` field roll-over yields a real date whose day number is ECMAScript `MakeDay` of the fields |
| Calendar.NormalizeUnique | src/Components/MCalTable.tsx:42 | roll-over yields the only real date with that day number |
| Calendar.NormalizeValid | src/Components/MCalTable.tsx:42 | fields already in range come back unchanged |
| Calendar.NewDate | src/Components/MCalTable.tsx:42 | `new Date(y, m, d)`: the real date whose day number is `MakeDay` of the full year, the month and the day, with a two-digit year read as 19xx |
| Calendar.NewDateInMonth | src/Components/MCalTable.tsx:42 | `new Date(y, m, d)` for a day inside the month is that date, with month carried into the year and a two-digit year mapped to 19xx |
| Calendar.DayNumberInjective | src/Components/MCalTable.tsx:46 | two real dates with the same day number are the same date, so comparing day numbers compares dates |
| Calendar.DayFromYearStep | src/Components/MCalTable.tsx:31 | the closed-form start of year y + 1 is that of y plus 365 or 366 days by the leap rule |
| Calendar.YearLength | src/Components/MCalTable.tsx:31 | the twelve month lengths add up to the year's length |
| Calendar.DaysInMonthValues | src/Components/MCalTable.tsx:30-32 | month lengths are 31 or 30 by month, and 29 or 28 for February by the leap rule |
| Calendar.IsLeapYear | src/Components/MCalTable.tsx:30-32 | the Gregorian rule: divisible by 4, and not by 100 unless by 400; `DaysInMonthValues` and `YearLength` use it |
| Calendar.DaysInMonth | src/Components/MCalTable.tsx:30-32 | the length of a zero-based month; `DaysInMonthValues` lists it and `DayZeroOfNextMonth` shows it is what `new Date(y, m + 1, 0).getDate()` returns |
| Calendar.SetDate | src/Components/MCalTable.tsx:69 | `setDate(d)` yields a real date moved by `d - getDate()` days |
| Calendar.SetDateInMonth | src/Components/MCalTable.tsx:69 | `setDate` to a day inside the month changes only the day |
| Calendar.Advance | src/Components/Table.tsx:64 | the date k days on is a real date exactly k day numbers later |
| Calendar.AdvanceStep | src/Components/Table.tsx:64 | one `setDate(getDate() + 1)` takes the k-th date of the walk to the (k+1)-th |
| Calendar.AdvanceInMonth | src/Components/MCalTable.tsx:69 | inside one month, stepping forward only moves the day |
| Calendar.AdvanceWeekDay | src/Components/MCalTable.tsx:48 | the weekday of the next day is the next weekday, cyclically |
| Calendar.WeekDay | src/Components/MCalTable.tsx:48 | `getDay()` is an index from 0 to 6 |
| Calendar.IsWeekend | src/Components/MCalTable.tsx:60 | weekday index 0 (Sunday) or 6 (Saturday), the test the `Cell` and the render loop both apply |
| Calendar.DayZeroOfNextMonth | src/Components/MCalTable.tsx:31 | day 0 of month m + 1 is the last day of month m, across a year end too |
| Calendar.DayAfterLastOfMonth | src/Components/Table.tsx:83 | the day after a month's last day is the 1st of the next month, and 1 January after December |
| Calendar.NovemberFirst2024IsFriday | src/Components/MCalTable.tsx:48 | 1 November 2024 is a Friday (5), and the 2nd a Saturday (6) |
| Text.TrimStart | src/Components/MCalTable.tsx:58 | drops only leading white space, and leaves a string that does not start with white space |
| Text.TrimEnd | src/Components/MCalTable.tsx:58 | drops only trailing white space, and leaves a string that does not end with white space |
| Text.TrimSlice | src/Components/MCalTable.tsx:58 | `trim()` returns a middle slice of its input, and both removed ends are white space |
| Text.TrimEnds | src/Components/MCalTable.tsx:58 | a trimmed string is empty or starts and ends with something other than white space |
| Text.TrimNoop | src/Components/MCalTable.tsx:58 | a string without white space at its ends is its own trim |
| Text.TrimIdempotent | src/Components/MCalTable.tsx:58 | trimming twice is trimming once |
| Text.Trim | src/Components/MCalTable.tsx:58 | `trim()`: leading, then trailing white space removed; `TrimSlice`, `TrimEnds` and `TrimIdempotent` characterise it |
| Text.Split | src/Components/MCalTable.tsx:57 | `split(",")` returns at least one piece |
| Text.SplitNoSeparator | src/Components/MCalTable.tsx:57 | no piece contains the separator |
| Text.JoinSplit | src/Components/MCalTable.tsx:57 | joining the pieces with the separator gives back the string |
| Text.SplitJoin | src/Components/MCalTable.tsx:57 | splitting a join of separator-free pieces gives back those pieces |
| Text.JoinConcat | src/Components/MCalTable.tsx:57 | the join of two lists is the two joins with one separator between them |
| Text.SplitAppend | src/Components/MCalTable.tsx:57 | splitting `a + "," + b` gives the pieces of `a` followed by those of `b` |
| Text.DecimalString | src/Components/MCalTable.tsx:47 | `toString()` of a natural number is a non-empty string of digits, as JavaScript gives for the day numbers 0 to 31 the grid converts |
| Text.DecimalRoundTrip | src/Components/MCalTable.tsx:47 | reading the decimal digits of n gives n back |
| Text.PadStart | src/Components/MCalTable.tsx:47 | the padded string has the requested length, or the input's length if that is longer, ends with the input, and is filled in front |
| Text.DigitPrefix | src/Components/MCalTable.tsx:145 | `parseInt` reads the longest run of leading digits |
| Text.ParseInt | src/Components/MCalTable.tsx:145 | `parseInt(s, 10)`: skip leading white space, an optional sign, then the longest digit run, read exactly; none when there are no digits (NaN); `ParseDecimal`, `ParseDayKey` and `NonDayColumnIds` characterise it |
| Text.DayKeyDigits | src/Components/MCalTable.tsx:47 | the key of a day below 100 is exactly two characters: the tens digit and the units digit |
| Text.DayKey | src/Components/MCalTable.tsx:47 | `getDate().toString().padStart(2, "0")`; `DayKeyDigits`, `DayKeyInjective` and `ParseDayKey` characterise it |
| Text.DayKeyInjective | src/Components/MCalTable.tsx:47 | different days below 100 have different keys |
| Text.ParseDayKey | src/Components/MCalTable.tsx:145 | `parseInt(key, 10)` of a day's key gives the day back |
| Text.ParseDecimal | src/Components/MCalTable.tsx:145 | the model's `parseInt` reads the model's decimal notation of any natural number back exactly; JavaScript agrees on the day numbers the grid converts |
| Text.TrimDayKey | src/Components/MCalTable.tsx:58 | trimming a key leaves it unchanged |
| Employees.LeaveTokens | src/Components/MCalTable.tsx:56-58 | the split-and-trim of a leave string has one token per comma-separated piece |
| Employees.IsLeaveDay | src/Components/MCalTable.tsx:61 | `leaveDays.includes(key)` on the trimmed tokens; `EmptyLeaves`, `AppendToken` and `ExampleLeaves` characterise it |
| Employees.LeaveTokensAppend | src/Components/MCalTable.tsx:56-58 | the tokens of `a + "," + b` are those of `a` followed by those of `b` |
| Employees.EmptyLeaves | src/Components/MCalTable.tsx:56-61 | an empty leave string splits to the one token `""`, and no key is a leave day |
| Employees.AppendToken | src/Components/MCalTable.tsx:56-61 | appending a token that trims to something other than `key` leaves `key`'s leave status as it was; one that trims to `key` makes it a leave day |
| Employees.SingleToken | src/Components/MCalTable.tsx:56-58 | a comma-free string is one token, its trim |
| Employees.PlainToken | src/Components/MCalTable.tsx:56-58 | a comma-free string with no white space at either end is one token, itself |
| Employees.TrimAllAppend | src/Components/MCalTable.tsx:58 | trimming every piece of two concatenated piece lists is trimming each list and concatenating |
| Employees.ExampleLeaves | src/Components/MCalTable.tsx:56-61 | the leave string `"05, 12"` yields the tokens `"05"` and `"12"`: days 05 and 12 are leave days and 01 is not |
| Employees.DayKeysStep | src/Components/MCalTable.tsx:77-79 | one more loop pass adds exactly that day's key |
| Employees.DayKeysCount | src/Components/MCalTable.tsx:77-79 | days lo to hi below 100 have hi - lo + 1 different keys |
| Employees.PadDays | src/Components/MCalTable.tsx:76-81 | the padded record keeps `id`, `name` and `leaves`, and has exactly the day fields lo to hi, all `""` |
| Employees.FormatRows | src/Components/MCalTable.tsx:74-83 | one padded record per employee, in the same order, each padded as `PadDays` states |
| MonthTable.LastDateOfMonth | src/Components/MCalTable.tsx:30-32 | `new Date(year, month + 1, 0)` is the last real day of the month that `new Date(year, month, 1)` falls in |
| MonthTable.LastDayOfMonth | src/Components/MCalTable.tsx:30-32 | for months 0 to 11 the last date is 31 or 30 by month, and 29 or 28 in February by the leap rule |
| MonthTable.GridMonth | src/Components/MCalTable.tsx:42 | the month a `Date` lands in is 0 to 11 |
| MonthTable.MonthColumns | src/Components/MCalTable.tsx:34-72 | ID, Name, then the day columns of the month `new Date(year, month, 1)` falls in; `GenerateDateColumns` equals it and `MonthColumnsShape` describes it |
| MonthTable.GenerateDateColumns | src/Components/MCalTable.tsx:34-72 | the loop's result is ID, Name, then one column per day of the month in calendar order, each keyed by its day and holding its weekday |
| MonthTable.MonthRange | src/Components/MCalTable.tsx:42-43 | the loop runs from day 1 to the last day of one month |
| MonthTable.GridSnoc | src/Components/MCalTable.tsx:52-65 | the grid up to day i + 1 is the grid up to day i followed by day i + 1's column |
| MonthTable.MonthColumnAt | src/Components/MCalTable.tsx:47-48 | column i is keyed with day i - 1, zero-padded, and holds the weekday of `new Date(year, month, i - 1)` |
| MonthTable.MonthColumnsLength | src/Components/MCalTable.tsx:35-46 | there are two columns plus one per day up to `getLastDateOfMonth(...).getDate()` |
| MonthTable.MonthColumnsShape | src/Components/MCalTable.tsx:35-52 | ID, Name, then day columns "01", "02", … in calendar order, each with its own date's weekday |
| MonthTable.MonthKeysDistinct | src/Components/MCalTable.tsx:40-66 | every day key is two characters, and `parseInt` reads column i's key back as i - 1; no two columns share an id, ID and Name included, although the set is never filled |
| MonthTable.ColumnKeysPadded | src/Components/MCalTable.tsx:54 | every day column's accessor is one of the fields "01" to "31" that `formatTableData` adds |
| MonthTable.CellFlagsOfDay | src/Components/MCalTable.tsx:145-156 | for a column keyed with day d, the render loop rebuilds `new Date(year, month, d)` and tests that date's weekday and the key |
| MonthTable.NonDayColumnIds | src/Components/MCalTable.tsx:145-148 | `parseInt` of "id" and "name" is NaN, so those columns get no flags |
| MonthTable.CellFlags | src/Components/MCalTable.tsx:145-156 | the render loop's flags: none for an id `parseInt` rejects, otherwise the weekend test of `new Date(year, month, day)` and the leave test of the id; `RenderFlagsAgree` relates them to the cells |
| MonthTable.CellText | src/Components/MCalTable.tsx:55-63 | the `Cell` rule, weekend before leave: "-", else "A", else "P"; `RenderFlagsAgree`, `EmptyLeavesRow` and `November2024` state what it yields |
| MonthTable.RenderFlagsAgree | src/Components/MCalTable.tsx:55-63 | for every column, the render loop's weekend and leave flags are the ones the column's `Cell` uses. The cell reads "-" exactly on a weekend, "A" exactly on a weekday leave day, and "P" otherwise |
| MonthTable.HeaderMatchesColumns | src/Components/MCalTable.tsx:121-136 | the weekday header row has as many entries as there are day columns, and entry i has the weekday of column i + 2 |
| MonthTable.DayHeaderRow | src/Components/MCalTable.tsx:121-136 | one entry per day up to `endDate.getDate()`, entry i the weekday of day i + 1; `HeaderMatchesColumns` lines it up with the columns |
| MonthTable.EmptyLeavesRow | src/Components/MCalTable.tsx:55-63 | with an empty leave string, weekend cells read "-" and all others "P" |
| MonthTable.UnknownTokenIgnored | src/Components/MCalTable.tsx:56-61 | appending a leave token that names no column (such as "99") changes no cell |
| MonthTable.November2024Columns | src/Components/MCalTable.tsx:34-72 | November 2024 has 30 day columns; the 1st is a Friday and the 2nd a Saturday |
| MonthTable.November2024 | src/Components/MCalTable.tsx:55-63 | with leaves "01,02" in November 2024, the 1st reads "A", and the 2nd reads "-" although it is listed |
| MonthTable.FormatTableData | src/Components/MCalTable.tsx:74-83 | every employee, in order, keeps its fields and gets exactly the 31 fields "01" to "31", all `""` |
| RangeTable.CellText | src/Components/Table.tsx:54-58 | the cell reads "A" exactly on a leave day and "" exactly otherwise; there is no weekend rule |
| RangeTable.EmptyLeavesRow | src/Components/Table.tsx:54-58 | with an empty leave string every day cell of the range grid reads "" |
| RangeTable.AppendedTokenCells | src/Components/Table.tsx:54-58 | appending a comma-free leave token makes the column whose key it trims to read "A" and leaves every other cell as it was |
| RangeTable.RangeLength | src/Components/Table.tsx:45-46 | the loop runs from start to end inclusive: no pass when end is earlier, else end - start + 1 |
| RangeTable.Walk | src/Components/Table.tsx:45-64 | the dates visited are n real dates, the j-th exactly j days after the start |
| RangeTable.WalkExists | src/Components/Table.tsx:64 | stepping one day at a time from a real date gives such a walk |
| RangeTable.WalkAppend | src/Components/Table.tsx:64 | one more step extends the walk |
| RangeTable.WalkUnique | src/Components/Table.tsx:45-64 | a walk is fixed by its start and its length |
| RangeTable.GenerateDateColumns | src/Components/Table.tsx:34-67 | the loop's result is ID, Name, then one column per key of the dates walked from start to end inclusive, after Dedup drops every key already seen |
| RangeTable.RangeColumns | src/Components/Table.tsx:34-67 | ID, Name, then one column per distinct key of the dates from start to end; `GenerateDateColumns` equals it |
| RangeTable.Dedup | src/Components/Table.tsx:43-61 | the keys with every repeat dropped, each key at its first occurrence; `DedupElems`, `DedupDistinct`, `DedupOrder` and `DedupOfDistinct` characterise it |
| RangeTable.DedupAppend | src/Components/Table.tsx:50-61 | one more key is skipped if seen before and added at the end otherwise |
| RangeTable.DedupElems | src/Components/Table.tsx:50-61 | the output keys are exactly the walked keys |
| RangeTable.DedupDistinct | src/Components/Table.tsx:43-61 | no key is emitted twice, and there are never more keys than walked dates |
| RangeTable.DedupOfDistinct | src/Components/Table.tsx:43-61 | the keys pass unchanged exactly when none repeats |
| RangeTable.DedupOrder | src/Components/Table.tsx:45-65 | output keys keep the order in which they first occur |
| RangeTable.FirstIndex | src/Components/Table.tsx:50 | the first place a key occurs |
| RangeTable.KeysInRange | src/Components/Table.tsx:47 | every walked key is one of "01" to "31" |
| RangeTable.DistinctBound | src/Components/Table.tsx:43-61 | distinct keys drawn from a set are no more than the set holds |
| RangeTable.RangeColumnsBound | src/Components/Table.tsx:43-64 | there are at most as many day columns as days in the range, and never more than 31 |
| RangeTable.LongRangeCollapses | src/Components/Table.tsx:45-65 | a range longer than 31 days has fewer day columns than days: some walked key j repeats an earlier one, and the pass that visits it leaves the kept keys as they were |
| RangeTable.RepeatAddsNothing | src/Components/Table.tsx:50-61 | a key met earlier adds nothing to the keys kept so far |
| RangeTable.SingleMonthRange | src/Components/Table.tsx:46-64 | a range inside one month has one column per day, keyed by the day numbers in order |
| RangeTable.SingleDayRange | src/Components/Table.tsx:45-46 | a start equal to the end gives exactly one day column, that day's key |
| RangeTable.EmptyRange | src/Components/Table.tsx:46 | an end earlier than the start gives only ID and Name |
| RangeTable.ColumnKeysPadded | src/Components/Table.tsx:53 | every day column's accessor is one of the fields "00" to "31" that `formatTableData` adds, and none is "00" |
| RangeTable.RollOverRange | src/Components/Table.tsx:45-65 | from the 1st of a month to the 1st of the next, the walk runs one day longer than the month, but its grid is the month's own |
| RangeTable.RepeatedFirstKey | src/Components/Table.tsx:50-61 | a later date keyed like the 1st adds no column |
| RangeTable.RollOverColumns | src/Components/Table.tsx:45-65 | that walk has one column per day of the month, keyed "01" onwards |
| RangeTable.November2024 | src/Components/Table.tsx:82-83 | `new Date(2024, 10, 31)` is 1 December 2024; the loop runs 31 times and yields exactly 30 day columns, "01" to "30" |
| RangeTable.November2024FirstCell | src/Components/Table.tsx:54-58 | in the November 2024 range, 1 November and 1 December both have key "01"; its one column is the first day column, no other column has that key, and it reads "A" when "01" is a leave day |
| RangeTable.FormatTableData | src/Components/Table.tsx:69-78 | every employee, in order, keeps its fields and gets exactly the 32 fields "00" to "31", all `""` |

## Left out

- React rendering is not modelled:
  - JSX
  - `useTable`, `useMemo`, header groups, `getTableProps` and `prepareRow`
  - the CSS class strings
  The model keeps only the values behind them: column keys, weekday indices, the weekend and leave flags, and the cell texts.
- The `Header` and `accessor` of a day column are both the day key. The model keeps the key once, as `ColumnId`.
- `new Date()` at `src/Components/MCalTable.tsx:88-90` reads the wall clock. The year and month are parameters instead.
- `toLocaleString("en-US", { weekday: "short" })` at `src/Components/MCalTable.tsx:123` is locale formatting. It is modelled as the weekday index it names: 0 is Sunday and 6 is Saturday.
- Time zones, daylight-saving time and times of day are not modelled. Dates are whole local calendar days.
- The `Date` range limit (±8.64e15 ms) and Invalid Date are not modelled. Day numbers are unbounded integers.
- JavaScript numbers are doubles: `toString()` switches to exponent notation from 1e21, and `parseInt` rounds above 2^53. `DecimalString`, `ParseInt` and `ParseDecimal` work on exact integers. They agree with JavaScript on the day numbers 0 to 31 the grid converts and on the ids "01" to "31", "id" and "name" it parses.
- Non-integer and NaN arguments to `Date` are not modelled.
- A Dafny `string` is a sequence of Unicode scalar values; a JavaScript string is a sequence of UTF-16 code units. `split(",")`, `trim()` and `includes` agree on the two for well-formed strings, and lone surrogates are not modelled.
- src/Components/OriginalTable.tsx, src/App.tsx and the mock JSON data are not part of this model. They hold no logic of the grid.
- Employees.AppendToken: the appended token must contain no comma. A token with commas is several tokens, each covered by applying the lemma again.
- The copy `new Date(startDate)` at `src/Components/Table.tsx:45` has no counterpart. The model's dates are values, so the caller's start date is never changed, as in the source.
