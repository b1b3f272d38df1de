/** The month-based attendance grid: one column per day of a calendar month,
    whose cells read "-" on weekends, "A" on leave days and "P" otherwise. */
module MonthTable {
  import opened Calendar
  import opened Text
  import opened Employees

  /** A grid column. The ID and Name columns show employee fields; a day column
      keeps what its cell renderer captured: the day key and the weekday index. */
  datatype Column = IdColumn | NameColumn | DayColumn(key: string, dayOfWeek: int)

  /** The column id the table library derives from the accessor. */
  function ColumnId(c: Column): string {
    match c
    case IdColumn => "id"
    case NameColumn => "name"
    case DayColumn(key, _) => key
  }

  /** `getLastDateOfMonth(year, month)`, computed as day 0 of the next month. */
  function LastDateOfMonth(year: int, month: int): (r: Date)
    ensures r == Date(FullYear(year) + month / 12, month % 12,
                      DaysInMonth(FullYear(year) + month / 12, month % 12))
  {
    DayZeroOfNextMonth(FullYear(year), month);
    NewDate(year, month + 1, 0)
  }

  /** For a month index 0 to 11 the last date is the month's own length:
      31 or 30 by month, and 29 or 28 for February by the leap-year rule. */
  lemma LastDayOfMonth(year: int, month: int)
    requires 0 <= month < 12
    ensures var y := FullYear(year); var last := LastDateOfMonth(year, month);
      && last.year == y && last.month == month
      && (month == 1 ==> last.day == (if IsLeapYear(y) then 29 else 28))
      && (month in {3, 5, 8, 10} ==> last.day == 30)
      && (month in {0, 2, 4, 6, 7, 9, 11} ==> last.day == 31)
  {
    DaysInMonthValues(FullYear(year), month);
  }

  /** The year and zero-based month that `new Date(year, month, 1)` falls in. */
  function GridYear(year: int, month: int): int {
    FullYear(year) + month / 12
  }

  function GridMonth(month: int): (m: int)
    ensures 0 <= m < 12
  {
    month % 12
  }

  /** The column the loop builds on date `d`: its zero-padded day number and the
      weekday it captures. */
  function DayColumnOf(d: Date): Column
    requires Valid(d)
  {
    DayColumn(DayKey(d.day), WeekDay(d))
  }

  /** The day columns of days 1 to `k` of month `m` of year `y`, in calendar order. */
  function DayGrid(y: int, m: int, k: nat): (r: seq<Column>)
    requires 0 <= m < 12 && k <= DaysInMonth(y, m)
    ensures |r| == k
  {
    seq(k, i requires 0 <= i < k => DayColumnOf(Date(y, m, i + 1)))
  }

  /** What `generateDateColumns(year, month)` returns: ID, Name, then the day
      columns of the month that `new Date(year, month, 1)` falls in. */
  function MonthColumns(year: int, month: int): seq<Column> {
    var y, m := GridYear(year, month), GridMonth(month);
    [IdColumn, NameColumn] + DayGrid(y, m, DaysInMonth(y, m))
  }

  /** `generateDateColumns(year, month)`: walk the month day by day with
      `setDate(getDate() + 1)` and append a column per day. The duplicate guard is
      kept, but the set it consults is never filled, as in the source. */
  method GenerateDateColumns(year: int, month: int) returns (columns: seq<Column>)
    ensures columns == MonthColumns(year, month)
  {
    columns := [IdColumn, NameColumn];
    var existingColumnHeaders: set<string> := {};
    var startDate, endDate := MonthRange(year, month);
    ghost var y, m := GridYear(year, month), GridMonth(month);
    ghost var n := DaysInMonth(y, m);
    var currentDate := startDate;
    ghost var i := 0;
    while DayNumber(currentDate) <= DayNumber(endDate)
      invariant 0 <= i <= n && Valid(currentDate)
      invariant DayNumber(currentDate) == DayNumber(startDate) + i
      invariant i < n ==> currentDate == Date(y, m, i + 1)
      invariant existingColumnHeaders == {}
      invariant columns == [IdColumn, NameColumn] + DayGrid(y, m, i)
      decreases DayNumber(endDate) - DayNumber(currentDate)
    {
      var dateKey := DayKey(currentDate.day);
      var dayOfWeek := WeekDay(currentDate);
      if dateKey !in existingColumnHeaders {
        GridStep(y, m, i, columns);
        columns := columns + [DayColumn(dateKey, dayOfWeek)];
      }
      if i + 1 < n {
        SetDateInMonth(currentDate, currentDate.day + 1);
      }
      currentDate := SetDate(currentDate, currentDate.day + 1);
      i := i + 1;
    }
  }

  /** Appending the column of day `i + 1` to the grid up to day `i`. */
  lemma GridStep(y: int, m: int, i: nat, columns: seq<Column>)
    requires 0 <= m < 12 && i < DaysInMonth(y, m)
    requires columns == [IdColumn, NameColumn] + DayGrid(y, m, i)
    ensures columns + [DayColumnOf(Date(y, m, i + 1))] == [IdColumn, NameColumn] + DayGrid(y, m, i + 1)
  {
    GridSnoc(y, m, i);
  }

  lemma GridSnoc(y: int, m: int, i: nat)
    requires 0 <= m < 12 && i < DaysInMonth(y, m)
    ensures DayGrid(y, m, i + 1) == DayGrid(y, m, i) + [DayColumnOf(Date(y, m, i + 1))]
  {
    assert DayGrid(y, m, i + 1)[..i] == DayGrid(y, m, i);
  }

  /** The loop's first and last dates, `new Date(year, month, 1)` and
      `getLastDateOfMonth(year, month)`: day 1 and the last day of one month. */
  method MonthRange(year: int, month: int) returns (startDate: Date, endDate: Date)
    ensures var y, m := GridYear(year, month), GridMonth(month);
      && startDate == Date(y, m, 1)
      && endDate == Date(y, m, DaysInMonth(y, m))
  {
    startDate := NewDate(year, month, 1);
    endDate := LastDateOfMonth(year, month);
    NewDateInMonth(year, month, 1);
  }

  /** Column `i` (from 2 on) is the day column of day `i - 1`: key `i - 1`
      zero-padded and the weekday of `new Date(year, month, i - 1)`. */
  lemma MonthColumnAt(year: int, month: int, i: int)
    requires 2 <= i < |MonthColumns(year, month)|
    ensures MonthColumns(year, month)[i] == DayColumn(DayKey(i - 1), WeekDay(NewDate(year, month, i - 1)))
  {
    var y, m := GridYear(year, month), GridMonth(month);
    NewDateInMonth(year, month, i - 1);
    GridColumnAt(y, m, DaysInMonth(y, m), MonthColumns(year, month), i);
  }

  /** One column per day up to the last date of the month, after ID and Name. */
  lemma MonthColumnsLength(year: int, month: int)
    ensures |MonthColumns(year, month)| == 2 + LastDateOfMonth(year, month).day
  {
  }

  lemma GridColumnAt(y: int, m: int, k: nat, cols: seq<Column>, i: int)
    requires 0 <= m < 12 && k <= DaysInMonth(y, m)
    requires cols == [IdColumn, NameColumn] + DayGrid(y, m, k) && 2 <= i < |cols|
    ensures cols[i] == DayColumnOf(Date(y, m, i - 1))
  {
    assert cols[i] == DayGrid(y, m, k)[i - 2];
  }

  /** The grid has ID, Name, and then day columns keyed "01", "02", ... up to the
      last date of the month, each with the weekday of its own date. */
  lemma MonthColumnsShape(year: int, month: int)
    ensures var cols := MonthColumns(year, month);
      && |cols| == 2 + LastDateOfMonth(year, month).day
      && cols[0] == IdColumn && cols[1] == NameColumn
      && forall i | 2 <= i < |cols| ::
           cols[i] == DayColumn(DayKey(i - 1), WeekDay(NewDate(year, month, i - 1)))
  {
    var cols := MonthColumns(year, month);
    MonthColumnsLength(year, month);
    forall i | 2 <= i < |cols|
      ensures cols[i] == DayColumn(DayKey(i - 1), WeekDay(NewDate(year, month, i - 1)))
    {
      MonthColumnAt(year, month, i);
    }
  }

  /** Day keys are two-digit zero-padded day numbers, read back by `parseInt` in
      strictly ascending order, and no column id is repeated, the ID and Name
      columns included, even though the duplicate guard never fires. */
  lemma MonthKeysDistinct(year: int, month: int)
    ensures var cols := MonthColumns(year, month);
      && (forall i | 2 <= i < |cols| ::
            cols[i].DayColumn? && |cols[i].key| == 2 && ParseInt(cols[i].key) == Some(i - 1))
      && (forall i, j | 0 <= i < j < |cols| :: ColumnId(cols[i]) != ColumnId(cols[j]))
  {
    var cols := MonthColumns(year, month);
    MonthColumnsShape(year, month);
    forall i | 2 <= i < |cols|
      ensures cols[i].DayColumn? && |cols[i].key| == 2 && ParseInt(cols[i].key) == Some(i - 1)
      ensures IsDigit(cols[i].key[0])
    {
      DayKeyDigits(i - 1);
      ParseDayKey(i - 1);
    }
    forall i, j | 0 <= i < j < |cols| ensures ColumnId(cols[i]) != ColumnId(cols[j]) {
      if 2 <= i {
        assert ParseInt(ColumnId(cols[i])) != ParseInt(ColumnId(cols[j]));
      } else if j >= 2 {
        assert !IsDigit(ColumnId(cols[i])[0]);
      }
    }
  }

  /** Every day column's accessor names one of the fields "01" to "31" that
      `formatTableData` adds, so no day cell reads a missing field. */
  lemma ColumnKeysPadded(year: int, month: int)
    ensures var cols := MonthColumns(year, month);
      forall i | 2 <= i < |cols| :: cols[i].DayColumn? && cols[i].key in DayKeys(1, 31)
  {
    var cols := MonthColumns(year, month);
    MonthColumnsShape(year, month);
    var y, m := GridYear(year, month), GridMonth(month);
    DaysInMonthValues(y, m);
    forall i | 2 <= i < |cols| ensures cols[i].DayColumn? && cols[i].key in DayKeys(1, 31) {
      var d: nat := i - 1;
      assert 1 <= d <= 31;
    }
  }

  /** The cell renderer of a day column: weekend first, then leave, then present. */
  function CellText(c: Column, leaves: string): string
    requires c.DayColumn?
  {
    var isWeekend := IsWeekend(c.dayOfWeek);
    var isLeaveDay := IsLeaveDay(c.key, leaves);
    if isWeekend then "-" else if isLeaveDay then "A" else "P"
  }

  /** The two styling flags the render loop computes for a cell. */
  datatype Flags = Flags(isWeekend: bool, isLeaveDay: bool)

  /** The render loop's classification of the cell in column `columnId`: columns
      whose id does not parse as a number (ID, Name) get no flags; otherwise the
      date is rebuilt with `new Date(year, month, parseInt(id))`. */
  function CellFlags(year: int, month: int, columnId: string, leaves: string): Option<Flags> {
    match ParseInt(columnId)
    case None => None
    case Some(columnDay) =>
      var cellDate := NewDate(year, month, columnDay);
      Some(Flags(IsWeekend(WeekDay(cellDate)), IsLeaveDay(columnId, leaves)))
  }

  lemma NonDayColumnIds()
    ensures ParseInt(ColumnId(IdColumn)) == None
    ensures ParseInt(ColumnId(NameColumn)) == None
  {
    NotNumber("id");
    NotNumber("name");
  }

  lemma NotNumber(s: string)
    requires s != [] && 'a' <= s[0] <= 'z'
    ensures ParseInt(s) == None
  {
    assert TrimStart(s) == s;
  }

  /** Styling and text agree: for every column of the grid, the render loop's flags
      are those the column's own cell renderer uses, and the cell reads "-" exactly
      on a weekend and "A" exactly on a weekday leave day. */
  lemma RenderFlagsAgree(year: int, month: int, leaves: string)
    ensures var cols := MonthColumns(year, month);
      && CellFlags(year, month, ColumnId(cols[0]), leaves) == None
      && CellFlags(year, month, ColumnId(cols[1]), leaves) == None
      && forall i | 2 <= i < |cols| :: RenderAgrees(year, month, cols[i], leaves)
  {
    var cols := MonthColumns(year, month);
    NonDayColumnIds();
    forall i | 2 <= i < |cols| ensures RenderAgrees(year, month, cols[i], leaves) {
      RenderAt(year, month, leaves, i);
    }
  }

  lemma RenderAt(year: int, month: int, leaves: string, i: int)
    requires 2 <= i < |MonthColumns(year, month)|
    ensures RenderAgrees(year, month, MonthColumns(year, month)[i], leaves)
  {
    MonthColumnsShape(year, month);
    MonthColumnAt(year, month, i);
    CellFlagsOfDay(year, month, i - 1, leaves);
  }

  /** The render loop reads day `d` back from the key and rebuilds its date. */
  lemma CellFlagsOfDay(year: int, month: int, d: nat, leaves: string)
    requires d < 100
    ensures CellFlags(year, month, DayKey(d), leaves)
            == Some(Flags(IsWeekend(WeekDay(NewDate(year, month, d))), IsLeaveDay(DayKey(d), leaves)))
  {
    ParseDayKey(d);
  }

  /** A day column whose render-loop flags match its cell text: the flags
      are the column's own weekend and leave tests, and the text is "-" exactly on
      a weekend and "A" exactly on a weekday leave day. */
  predicate RenderAgrees(year: int, month: int, c: Column, leaves: string) {
    && c.DayColumn?
    && CellFlags(year, month, ColumnId(c), leaves)
       == Some(Flags(IsWeekend(c.dayOfWeek), IsLeaveDay(c.key, leaves)))
    && (CellText(c, leaves) == "-" <==> IsWeekend(c.dayOfWeek))
    && (CellText(c, leaves) == "A" <==> !IsWeekend(c.dayOfWeek) && IsLeaveDay(c.key, leaves))
    && (CellText(c, leaves) == "P" <==> !IsWeekend(c.dayOfWeek) && !IsLeaveDay(c.key, leaves))
  }

  /** The weekday header row: `endDate.getDate()` entries, entry i the weekday of
      day i + 1. */
  function DayHeaderRow(year: int, month: int): seq<int> {
    var n := LastDateOfMonth(year, month).day;
    seq(n, i requires 0 <= i < n => WeekDay(NewDate(year, month, i + 1)))
  }

  /** The header row lines up with the day columns: as many entries, and the same
      weekday (hence the same weekend shading) at each position. */
  lemma HeaderMatchesColumns(year: int, month: int)
    ensures var cols := MonthColumns(year, month); var row := DayHeaderRow(year, month);
      && |row| == |cols| - 2
      && forall i | 2 <= i < |cols| :: cols[i].DayColumn? && cols[i].dayOfWeek == row[i - 2]
  {
    var cols := MonthColumns(year, month);
    var row := DayHeaderRow(year, month);
    MonthColumnsLength(year, month);
    forall i | 2 <= i < |cols| ensures cols[i].DayColumn? && cols[i].dayOfWeek == row[i - 2] {
      HeaderAt(year, month, cols, row, i);
    }
  }

  lemma HeaderAt(year: int, month: int, cols: seq<Column>, row: seq<int>, i: int)
    requires cols == MonthColumns(year, month) && row == DayHeaderRow(year, month)
    requires |row| == |cols| - 2 && 2 <= i < |cols|
    ensures cols[i].DayColumn? && cols[i].dayOfWeek == row[i - 2]
  {
    MonthColumnAt(year, month, i);
    assert row[i - 2] == WeekDay(NewDate(year, month, i - 1));
  }

  /** With no leaves, weekend cells read "-" and all others "P". */
  lemma EmptyLeavesRow(year: int, month: int)
    ensures var cols := MonthColumns(year, month);
      forall i | 2 <= i < |cols| ::
        cols[i].DayColumn? && CellText(cols[i], "") == if IsWeekend(cols[i].dayOfWeek) then "-" else "P"
  {
    var cols := MonthColumns(year, month);
    MonthColumnsShape(year, month);
    forall i | 2 <= i < |cols|
      ensures cols[i].DayColumn? && CellText(cols[i], "") == if IsWeekend(cols[i].dayOfWeek) then "-" else "P"
    {
      EmptyLeaves(cols[i].key);
    }
  }

  /** A leave token that names no column (such as "99") changes no cell. */
  lemma UnknownTokenIgnored(cols: seq<Column>, leaves: string, tok: string)
    requires ',' !in tok
    requires forall i | 0 <= i < |cols| :: ColumnId(cols[i]) != Trim(tok)
    ensures forall i | 0 <= i < |cols| && cols[i].DayColumn? ::
      CellText(cols[i], leaves + [','] + tok) == CellText(cols[i], leaves)
  {
    forall i | 0 <= i < |cols| && cols[i].DayColumn?
      ensures CellText(cols[i], leaves + [','] + tok) == CellText(cols[i], leaves)
    {
      AppendToken(cols[i].key, leaves, tok);
    }
  }

  // The example's literals come in as parameters that a `requires` fixes, so
  // that the verifier does not unfold `Split`, `Trim` or the date arithmetic
  // on them eagerly; the example lemmas below all take their literals so.
  /** November 2024 has 30 day columns; the 1st is a Friday and the 2nd a Saturday. */
  lemma November2024Columns(year: int, month: int)
    requires year == 2024 && month == 10
    ensures var cols := MonthColumns(year, month);
      && |cols| == 32
      && cols[2] == DayColumn(DayKey(1), 5)
      && cols[3] == DayColumn(DayKey(2), 6)
  {
    assert LastDateOfMonth(year, month).day == 30;
    MonthColumnsLength(year, month);
    MonthColumnAt(year, month, 2);
    MonthColumnAt(year, month, 3);
    NewDateInMonth(year, month, 2);
    NovemberFirst2024IsFriday();
  }

  /** With leaves "01,02" in November 2024, the 1st is on leave and reads "A";
      the 2nd is a Saturday and reads "-" although it is listed. */
  lemma November2024(year: int, month: int, leaves: string)
    requires year == 2024 && month == 10 && leaves == "01,02"
    ensures var cols := MonthColumns(year, month);
      && |cols| == 32
      && cols[2] == DayColumn("01", 5) && CellText(cols[2], leaves) == "A"
      && cols[3] == DayColumn("02", 6) && CellText(cols[3], leaves) == "-"
  {
    November2024Columns(year, month);
    var cols := MonthColumns(year, month);
    LeavesOneTwo(leaves);
    November2024First(cols[2], leaves);
    November2024Second(cols[3], leaves);
  }

  /** The 1st, a Friday, is listed and reads "A". */
  lemma November2024First(c: Column, leaves: string)
    requires c == DayColumn(DayKey(1), 5) && IsLeaveDay("01", leaves)
    ensures c == DayColumn("01", 5) && CellText(c, leaves) == "A"
  {
    DayKeyDigits(1);
  }

  /** The 2nd, a Saturday, reads "-". */
  lemma November2024Second(c: Column, leaves: string)
    requires c == DayColumn(DayKey(2), 6)
    ensures c == DayColumn("02", 6) && CellText(c, leaves) == "-"
  {
    DayKeyDigits(2);
  }

  /** The list "01,02" marks day 01. */
  lemma LeavesOneTwo(leaves: string)
    requires leaves == "01,02"
    ensures IsLeaveDay("01", leaves)
  {
    var a, b := leaves[..2], leaves[3..];
    assert leaves == a + [','] + b;
    LeaveTokensAppend(a, b);
    assert a == "01";
    PlainToken(a);
    assert LeaveTokens(leaves)[0] == "01";
  }

  /** `formatTableData`: every employee, in order, with its own fields and the
      31 empty day fields "01" to "31". */
  method FormatTableData(data: seq<Employee>) returns (rows: seq<Row>)
    ensures |rows| == |data|
    ensures forall i | 0 <= i < |data| ::
      rows[i].id == data[i].id && rows[i].name == data[i].name && rows[i].leaves == data[i].leaves
    ensures forall i | 0 <= i < |data| ::
      rows[i].days.Keys == DayKeys(1, 31) && |rows[i].days| == 31
    ensures forall i, k | 0 <= i < |data| && k in rows[i].days :: rows[i].days[k] == ""
  {
    rows := FormatRows(data, 1, 31);
    DayKeysCount(1, 31);
  }
}
