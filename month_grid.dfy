/** `createCalendar` from content/custom-calendar-component/createCalendar.ts:
    the days of one month laid out in rows of seven cells, Sunday first, with
    `null` before the first and after the last day. */
module MonthGrid {
  import opened Prelude
  import opened Dates

  /** A grid cell: a day of the month, or `null`. */
  type Cell = Option<int>

  function Blanks(n: nat): (r: seq<Cell>)
    ensures |r| == n
  {
    if n == 0 then [] else Blanks(n - 1) + [None]
  }

  /** The cells holding days `1..n`, in order. */
  function DayCells(n: nat): (r: seq<Cell>)
    ensures |r| == n
  {
    if n == 0 then [] else DayCells(n - 1) + [Some(n)]
  }

  lemma {:induction false} BlanksAt(n: nat, i: nat)
    requires i < n
    ensures Blanks(n)[i] == None
  {
    if i < n - 1 {
      BlanksAt(n - 1, i);
    }
  }

  lemma {:induction false} DayCellsAt(n: nat, i: nat)
    requires i < n
    ensures DayCells(n)[i] == Some(i + 1)
  {
    if i < n - 1 {
      DayCellsAt(n - 1, i);
    }
  }

  /** The rows of a grid read in row-major order. */
  function Flatten(rows: seq<seq<Cell>>): seq<Cell> {
    if rows == [] then [] else Flatten(rows[..|rows| - 1]) + rows[|rows| - 1]
  }

  /** Cells cut into consecutive rows of seven. */
  function Rows(cells: seq<Cell>): seq<seq<Cell>>
    requires |cells| % 7 == 0
  {
    if cells == [] then [] else Rows(cells[..|cells| - 7]) + [cells[|cells| - 7..]]
  }

  /** Number of `null`s that complete the last row. */
  function Padding(n: nat): (p: nat)
    ensures p < 7 && (n + p) % 7 == 0
  {
    var r := n % 7;
    if r == 0 then 0
    else
      assert n == 7 * (n / 7) + r;
      DivUnique(n + (7 - r), 7, n / 7 + 1, 0);
      7 - r
  }

  /** The month in row-major order: `offset` blanks, the days `1..days`, and blanks to a full row. */
  function MonthCells(offset: nat, days: nat): (r: seq<Cell>)
    ensures |r| == offset + days + Padding(offset + days) && |r| % 7 == 0
  {
    Blanks(offset) + DayCells(days) + Blanks(Padding(offset + days))
  }

  /** The grid `createCalendar({ month, year })` is specified to return. */
  function Grid(month: int, year: int): seq<seq<Cell>> {
    Rows(MonthCells(FirstWeekday(year, month), LastDate(year, month)))
  }

  lemma FlattenPush(rows: seq<seq<Cell>>, row: seq<Cell>)
    ensures Flatten(rows + [row]) == Flatten(rows) + row
  {
    assert (rows + [row])[..|rows|] == rows;
  }

  /** Rows of seven cells are recovered from their row-major reading. */
  lemma {:induction false} RowsOfFlatten(rows: seq<seq<Cell>>)
    requires forall r :: 0 <= r < |rows| ==> |rows[r]| == 7
    ensures |Flatten(rows)| == 7 * |rows|
    ensures Rows(Flatten(rows)) == rows
  {
    if rows != [] {
      var init := rows[..|rows| - 1];
      RowsOfFlatten(init);
      var f := Flatten(rows);
      assert f == Flatten(init) + rows[|rows| - 1];
      assert f[..|f| - 7] == Flatten(init);
      assert f[|f| - 7..] == rows[|rows| - 1];
    }
  }

  /** Cell `c` of row `r` is cell `7 * r + c` of the row-major reading. */
  lemma {:induction false} RowsAt(cells: seq<Cell>, r: int, c: int)
    requires |cells| % 7 == 0
    requires 0 <= r < |cells| / 7 && 0 <= c < 7
    ensures |Rows(cells)| == |cells| / 7
    ensures |Rows(cells)[r]| == 7 && Rows(cells)[r][c] == cells[7 * r + c]
  {
    var n := |cells|;
    var init := cells[..n - 7];
    if r < n / 7 - 1 {
      RowsAt(init, r, c);
    } else {
      RowsLength(init);
    }
  }

  lemma {:induction false} RowsLength(cells: seq<Cell>)
    requires |cells| % 7 == 0
    ensures |Rows(cells)| == |cells| / 7
    ensures forall r :: 0 <= r < |Rows(cells)| ==> |Rows(cells)[r]| == 7
  {
    if cells != [] {
      RowsLength(cells[..|cells| - 7]);
    }
  }

  /** The loops of createCalendar.ts: start with a row of `getDay()` nulls,
      push each day onto the last row (opening a new row when it is full), then
      pad the last row with nulls. The array `days` is kept as its completed
      rows `full` and the row being filled, `last`: `days == full + [last]`. */
  method CreateCalendar(month: int, year: int) returns (days: seq<seq<Cell>>)
    ensures days == Grid(month, year)
  {
    days := LayOut(FirstWeekday(year, month), LastDate(year, month));
  }

  /** The body of createCalendar once `getDay()` of the first and `getDate()`
      of the last day of the month are known. */
  method LayOut(offset: nat, lastDate: nat) returns (days: seq<seq<Cell>>)
    requires offset < 7 && lastDate >= 1
    ensures days == Rows(MonthCells(offset, lastDate))
  {
    var full: seq<seq<Cell>> := [];
    var last := Blanks(offset);
    var i := 1;
    while i <= lastDate
      invariant 1 <= i <= lastDate + 1
      invariant forall r :: 0 <= r < |full| ==> |full[r]| == 7
      invariant |last| <= 7
      invariant i > 1 ==> |last| >= 1
      invariant Flatten(full) + last == Blanks(offset) + DayCells(i - 1)
    {
      if |last| == 7 {
        FlattenPush(full, last);
        full, last := full + [last], [];
      }
      PushCell(Flatten(full), last, Blanks(offset) + DayCells(i - 1), Some(i));
      last := last + [Some(i)];
      i := i + 1;
    }
    ghost var filled := |last|;
    while |last| < 7
      invariant forall r :: 0 <= r < |full| ==> |full[r]| == 7
      invariant 1 <= filled <= |last| <= 7
      invariant Flatten(full) + last == Blanks(offset) + DayCells(lastDate) + Blanks(|last| - filled)
    {
      PushCell(Flatten(full), last, Blanks(offset) + DayCells(lastDate) + Blanks(|last| - filled), None);
      BlanksPush(Blanks(offset) + DayCells(lastDate), |last| - filled);
      last := last + [None];
    }
    days := full + [last];
    LastRowFull(full, last, offset, lastDate, |last| - filled);
  }

  /** After the padding loop: the rows are the month's cells cut into sevens. */
  lemma LastRowFull(full: seq<seq<Cell>>, last: seq<Cell>, offset: nat, lastDate: nat, padding: nat)
    requires forall r :: 0 <= r < |full| ==> |full[r]| == 7
    requires |last| == 7 && padding < 7
    requires Flatten(full) + last == Blanks(offset) + DayCells(lastDate) + Blanks(padding)
    ensures full + [last] == Rows(MonthCells(offset, lastDate))
  {
    PaddedCells(full, last, offset, lastDate, padding);
    RowsOfPush(full, last, MonthCells(offset, lastDate));
  }

  /** Blanks padding the last row to seven are the month's padding. */
  lemma PaddedCells(full: seq<seq<Cell>>, last: seq<Cell>, offset: nat, lastDate: nat, padding: nat)
    requires forall r :: 0 <= r < |full| ==> |full[r]| == 7
    requires |last| == 7 && padding < 7
    requires Flatten(full) + last == Blanks(offset) + DayCells(lastDate) + Blanks(padding)
    ensures Flatten(full) + last == MonthCells(offset, lastDate)
  {
    var cells := Blanks(offset) + DayCells(lastDate) + Blanks(padding);
    RowCount(full, last, cells);
    assert |cells| == offset + lastDate + padding;
    PaddingFits(offset, lastDate, padding, |full| + 1);
  }

  /** Blanks completing the month's cells to whole rows are its padding. */
  lemma PaddingFits(offset: nat, lastDate: nat, padding: nat, rows: nat)
    requires padding < 7 && offset + lastDate + padding == 7 * rows
    ensures MonthCells(offset, lastDate) == Blanks(offset) + DayCells(lastDate) + Blanks(padding)
  {
    PaddingUnique(offset + lastDate, padding, rows);
    MonthCellsPadded(offset, lastDate, padding);
  }

  /** Full rows hold seven cells each. */
  lemma RowCount(full: seq<seq<Cell>>, last: seq<Cell>, cells: seq<Cell>)
    requires forall r :: 0 <= r < |full| ==> |full[r]| == 7
    requires |last| == 7 && Flatten(full) + last == cells
    ensures |cells| == 7 * (|full| + 1)
  {
    FlattenLength(full);
  }

  lemma {:induction false} FlattenLength(rows: seq<seq<Cell>>)
    requires forall r :: 0 <= r < |rows| ==> |rows[r]| == 7
    ensures |Flatten(rows)| == 7 * |rows|
  {
    if rows != [] {
      FlattenLength(rows[..|rows| - 1]);
    }
  }

  lemma MonthCellsPadded(offset: nat, days: nat, padding: nat)
    requires padding == Padding(offset + days)
    ensures MonthCells(offset, days) == Blanks(offset) + DayCells(days) + Blanks(padding)
  {
  }

  /** Completed rows and a full last row whose row-major reading is `cells`
      are `cells` cut into sevens. */
  lemma RowsOfPush(full: seq<seq<Cell>>, last: seq<Cell>, cells: seq<Cell>)
    requires forall r :: 0 <= r < |full| ==> |full[r]| == 7
    requires |last| == 7 && Flatten(full) + last == cells
    ensures |cells| % 7 == 0 && full + [last] == Rows(cells)
  {
    var rows := full + [last];
    assert forall r :: 0 <= r < |rows| ==> |rows[r]| == 7 by {
      forall r | 0 <= r < |rows| ensures |rows[r]| == 7 {
        if r < |full| { assert rows[r] == full[r]; }
      }
    }
    FlattenPush(full, last);
    assert Flatten(rows) == cells;
    RowsOfFlatten(rows);
    DivUnique(|cells|, 7, |rows|, 0);
  }

  /** One more cell on the last row is one more cell in the row-major reading. */
  lemma PushCell(done: seq<Cell>, last: seq<Cell>, cells: seq<Cell>, x: Cell)
    requires done + last == cells
    ensures done + (last + [x]) == cells + [x]
  {
  }

  lemma BlanksPush(cells: seq<Cell>, n: nat)
    ensures cells + Blanks(n + 1) == cells + Blanks(n) + [None]
  {
  }

  /** The only count below seven that completes `n` cells to whole rows. */
  lemma PaddingUnique(n: nat, p: nat, rows: nat)
    requires p < 7 && n + p == 7 * rows
    ensures p == Padding(n)
  {
    var q := n / 7;
    assert n == 7 * q + n % 7;
    if n % 7 == 0 {
      assert p == 7 * (rows - q);
    } else {
      assert p + n % 7 == 7 * (rows - q);
    }
  }

  /** What cell `k` of a month's row-major reading holds, position by position:
      blanks before the first day, then the days, then blanks. */
  function CellAt(offset: nat, days: nat, k: int): Cell {
    if k < offset then None
    else if k < offset + days then Some(k - offset + 1)
    else None
  }

  /** Cell `k` of the month's row-major reading. */
  lemma MonthCellAt(offset: nat, days: nat, k: int)
    requires 0 <= k < |MonthCells(offset, days)|
    ensures MonthCells(offset, days)[k] == CellAt(offset, days, k)
  {
    var p := Padding(offset + days);
    var a, b, c := Blanks(offset), DayCells(days), Blanks(p);
    assert MonthCells(offset, days) == a + b + c;
    CellOfThree(a, b, c, k);
    if k < offset {
      BlanksAt(offset, k);
    } else if k < offset + days {
      DayCellsAt(days, k - offset);
    } else {
      BlanksAt(p, k - offset - days);
    }
  }

  /** Cell `k` of three runs of cells read one after another. */
  lemma CellOfThree(a: seq<Cell>, b: seq<Cell>, c: seq<Cell>, k: int)
    requires 0 <= k < |a| + |b| + |c|
    ensures (a + b + c)[k] == if k < |a| then a[k] else if k < |a| + |b| then b[k - |a|] else c[k - |a| - |b|]
  {
  }

  /** Every month takes four to six rows of seven cells, and its cells are the
      blanks before the first day, the days in order, and the blanks after
      the last day. */
  lemma GridShape(month: int, year: int)
    ensures var offset, days := FirstWeekday(year, month), LastDate(year, month);
            var grid := Grid(month, year);
            && 4 <= |grid| <= 6
            && 7 * |grid| == offset + days + Padding(offset + days)
            && forall r, c :: 0 <= r < |grid| && 0 <= c < 7 ==>
                 |grid[r]| == 7 && grid[r][c] == CellAt(offset, days, 7 * r + c)
  {
    var offset, days := FirstWeekday(year, month), LastDate(year, month);
    RowsLength(MonthCells(offset, days));
    forall r, c | 0 <= r < |Grid(month, year)| && 0 <= c < 7
      ensures |Grid(month, year)[r]| == 7 && Grid(month, year)[r][c] == CellAt(offset, days, 7 * r + c)
    {
      GridCell(month, year, r, c);
    }
  }

  /** Cell `c` of row `r` of the grid. */
  lemma GridCell(month: int, year: int, r: int, c: int)
    requires 0 <= r < |Grid(month, year)| && 0 <= c < 7
    ensures |Grid(month, year)[r]| == 7
    ensures Grid(month, year)[r][c] == CellAt(FirstWeekday(year, month), LastDate(year, month), 7 * r + c)
  {
    var offset, days := FirstWeekday(year, month), LastDate(year, month);
    var cells := MonthCells(offset, days);
    RowsLength(cells);
    RowsAt(cells, r, c);
    MonthCellAt(offset, days, 7 * r + c);
  }

  /** Day `d` of the month sits in the column of its weekday, `getDay()` of
      `new Date(year, month, d)`, in row `(offset + d - 1) / 7`. */
  lemma DayInWeekdayColumn(month: int, year: int, d: int)
    requires 1 <= d <= LastDate(year, month)
    ensures var grid, offset := Grid(month, year), FirstWeekday(year, month);
            var r := (offset + d - 1) / 7;
            0 <= r < |grid| && |grid[r]| == 7 &&
            grid[r][Weekday(DayNumber(year, month, d))] == Some(d)
  {
    var offset, days := FirstWeekday(year, month), LastDate(year, month);
    var k := offset + d - 1;
    var r, c := k / 7, k % 7;
    assert c == Weekday(DayNumber(year, month, d)) by {
      WeekdayOfDay(year, month, d);
    }
    assert r < |Grid(month, year)| by {
      GridRowCount(month, year);
    }
    GridCell(month, year, r, c);
    assert 7 * r + c == k;
  }

  /** The grid has `ceil((offset + days) / 7)` rows: no row is left empty. */
  lemma GridRowCount(month: int, year: int)
    ensures |Grid(month, year)| == (FirstWeekday(year, month) + LastDate(year, month) + 6) / 7
  {
    var offset, days := FirstWeekday(year, month), LastDate(year, month);
    GridShape(month, year);
    var n, p := |Grid(month, year)|, Padding(offset + days);
    DivUnique(offset + days + 6, 7, n, 6 - p);
  }

  /** `null` cells only open the first row (before the first day) and close
      the last row (after the last day). */
  lemma NullsAtEdges(month: int, year: int, r: int, c: int)
    requires 0 <= r < |Grid(month, year)| && 0 <= c < 7
    ensures |Grid(month, year)[r]| == 7
    ensures Grid(month, year)[r][c] == None <==>
              (r == 0 && c < FirstWeekday(year, month)) ||
              (r == |Grid(month, year)| - 1 && c >= 7 - Padding(FirstWeekday(year, month) + LastDate(year, month)))
  {
    var offset, days := FirstWeekday(year, month), LastDate(year, month);
    var n := |Grid(month, year)|;
    GridShape(month, year);
    assert 7 * n == offset + days + Padding(offset + days);
    GridCell(month, year, r, c);
    if r >= 1 {
      assert 7 * r + c >= 7;
    }
    if r < n - 1 {
      assert 7 * r + c < 7 * (n - 1);
    }
    if r == n - 1 {
      assert 7 * r + c == 7 * n - 7 + c;
    }
  }

  /** The values of the non-`null` cells, in order. */
  function Present(cells: seq<Cell>): seq<int> {
    if cells == [] then []
    else Present(cells[..|cells| - 1]) + (if cells[|cells| - 1].Some? then [cells[|cells| - 1].value] else [])
  }

  lemma {:induction false} PresentAppend(a: seq<Cell>, b: seq<Cell>)
    ensures Present(a + b) == Present(a) + Present(b)
    decreases |b|
  {
    if b != [] {
      var b' := b[..|b| - 1];
      assert (a + b)[..|a + b| - 1] == a + b';
      PresentAppend(a, b');
    } else {
      assert a + b == a;
    }
  }

  lemma {:induction false} PresentBlanks(n: nat)
    ensures Present(Blanks(n)) == []
  {
    if n > 0 {
      PresentBlanks(n - 1);
    }
  }

  lemma {:induction false} PresentDayCells(n: nat)
    ensures |Present(DayCells(n))| == n
    ensures forall i :: 0 <= i < n ==> Present(DayCells(n))[i] == i + 1
  {
    if n > 0 {
      PresentDayCells(n - 1);
    }
  }

  lemma {:induction false} FlattenRows(cells: seq<Cell>)
    requires |cells| % 7 == 0
    ensures Flatten(Rows(cells)) == cells
    decreases |cells|
  {
    if cells != [] {
      var init := cells[..|cells| - 7];
      FlattenRows(init);
      FlattenPush(Rows(init), cells[|cells| - 7..]);
    }
  }

  /** Read row by row, the days of the grid are exactly `1, 2, ..., getDate()`
      of the month's last day. */
  lemma DaysInOrder(month: int, year: int)
    ensures var days := Present(Flatten(Grid(month, year)));
            |days| == LastDate(year, month) &&
            forall i :: 0 <= i < |days| ==> days[i] == i + 1
  {
    var offset, days := FirstWeekday(year, month), LastDate(year, month);
    var cells := MonthCells(offset, days);
    assert Flatten(Grid(month, year)) == cells by {
      FlattenRows(cells);
    }
    PresentMonthCells(offset, days);
    PresentDayCells(days);
  }

  /** The blanks around the days carry no value. */
  lemma PresentMonthCells(offset: nat, days: nat)
    ensures Present(MonthCells(offset, days)) == Present(DayCells(days))
  {
    var a, b, c := Blanks(offset), DayCells(days), Blanks(Padding(offset + days));
    PresentAppend(a + b, c);
    PresentAppend(a, b);
    PresentBlanks(offset);
    PresentBlanks(Padding(offset + days));
    calc {
      Present(MonthCells(offset, days));
      Present(a + b + c);
      Present(a + b) + Present(c);
      Present(a) + Present(b) + Present(c);
      [] + Present(b) + [];
      { assert [] + Present(b) + [] == Present(b); }
      Present(b);
    }
  }

  /** October 2024 starts on a Tuesday and has 31 days. */
  lemma October2024()
    ensures FirstWeekday(2024, 9) == 2 && LastDate(2024, 9) == 31
  {
    DaysBeforeMonthTable(2024, 9);
  }

  /** Row `r` of a month's grid, cell by cell. */
  function Row(offset: nat, days: nat, r: int): seq<Cell> {
    [CellAt(offset, days, 7 * r), CellAt(offset, days, 7 * r + 1), CellAt(offset, days, 7 * r + 2),
     CellAt(offset, days, 7 * r + 3), CellAt(offset, days, 7 * r + 4), CellAt(offset, days, 7 * r + 5),
     CellAt(offset, days, 7 * r + 6)]
  }

  /** Row `r` of the grid is exactly `Row(offset, days, r)`. */
  lemma GridRow(month: int, year: int, r: int)
    requires 0 <= r < |Grid(month, year)|
    ensures Grid(month, year)[r] == Row(FirstWeekday(year, month), LastDate(year, month), r)
  {
    var offset, days := FirstWeekday(year, month), LastDate(year, month);
    var row := Row(offset, days, r);
    GridCell(month, year, r, 0);
    GridCell(month, year, r, 1);
    GridCell(month, year, r, 2);
    GridCell(month, year, r, 3);
    GridCell(month, year, r, 4);
    GridCell(month, year, r, 5);
    GridCell(month, year, r, 6);
    assert Grid(month, year)[r] == [row[0], row[1], row[2], row[3], row[4], row[5], row[6]];
  }

  /** A five-row month: the grid is its five rows. */
  lemma FiveRows(month: int, year: int)
    requires FirstWeekday(year, month) + LastDate(year, month) + 6 < 42
    requires 28 < FirstWeekday(year, month) + LastDate(year, month)
    ensures var offset, days := FirstWeekday(year, month), LastDate(year, month);
            Grid(month, year) == [Row(offset, days, 0), Row(offset, days, 1), Row(offset, days, 2),
                                  Row(offset, days, 3), Row(offset, days, 4)]
  {
    GridRowCount(month, year);
    GridRow(month, year, 0);
    GridRow(month, year, 1);
    GridRow(month, year, 2);
    GridRow(month, year, 3);
    GridRow(month, year, 4);
  }

  /** The whole grid of October 2024, row by row. */
  lemma October2024Grid()
    ensures Grid(9, 2024) == [
      [None, None, Some(1), Some(2), Some(3), Some(4), Some(5)],
      [Some(6), Some(7), Some(8), Some(9), Some(10), Some(11), Some(12)],
      [Some(13), Some(14), Some(15), Some(16), Some(17), Some(18), Some(19)],
      [Some(20), Some(21), Some(22), Some(23), Some(24), Some(25), Some(26)],
      [Some(27), Some(28), Some(29), Some(30), Some(31), None, None]]
  {
    October2024();
    FiveRows(9, 2024);
  }

  /** February 2024 starts on a Thursday and has 29 days. */
  lemma February2024()
    ensures FirstWeekday(2024, 1) == 4 && LastDate(2024, 1) == 29
  {
    DaysBeforeMonthTable(2024, 1);
  }

  /** February 2025 starts on a Saturday and has 28 days. */
  lemma February2025()
    ensures FirstWeekday(2025, 1) == 6 && LastDate(2025, 1) == 28
  {
    DaysBeforeMonthTable(2025, 1);
  }

  /** January 1970 starts on a Thursday and has 31 days. */
  lemma January1970()
    ensures FirstWeekday(1970, 0) == 4 && LastDate(1970, 0) == 31
  {
    DaysBeforeMonthTable(1970, 0);
  }

  /** April 2014 starts on a Tuesday and has 30 days. */
  lemma April2014()
    ensures FirstWeekday(2014, 3) == 2 && LastDate(2014, 3) == 30
  {
    DaysBeforeMonthTable(2014, 3);
  }

  /** October 2000 starts on a Sunday and has 31 days. */
  lemma October2000()
    ensures FirstWeekday(2000, 9) == 0 && LastDate(2000, 9) == 31
  {
    DaysBeforeMonthTable(2000, 9);
  }

  /** The whole grid of February 2024, row by row. */
  lemma February2024Grid()
    ensures Grid(1, 2024) == [
      [None, None, None, None, Some(1), Some(2), Some(3)],
      [Some(4), Some(5), Some(6), Some(7), Some(8), Some(9), Some(10)],
      [Some(11), Some(12), Some(13), Some(14), Some(15), Some(16), Some(17)],
      [Some(18), Some(19), Some(20), Some(21), Some(22), Some(23), Some(24)],
      [Some(25), Some(26), Some(27), Some(28), Some(29), None, None]]
  {
    February2024();
    FiveRows(1, 2024);
  }

  /** The whole grid of February 2025, row by row. */
  lemma February2025Grid()
    ensures Grid(1, 2025) == [
      [None, None, None, None, None, None, Some(1)],
      [Some(2), Some(3), Some(4), Some(5), Some(6), Some(7), Some(8)],
      [Some(9), Some(10), Some(11), Some(12), Some(13), Some(14), Some(15)],
      [Some(16), Some(17), Some(18), Some(19), Some(20), Some(21), Some(22)],
      [Some(23), Some(24), Some(25), Some(26), Some(27), Some(28), None]]
  {
    February2025();
    FiveRows(1, 2025);
  }

  /** The whole grid of January 1970, row by row. */
  lemma January1970Grid()
    ensures Grid(0, 1970) == [
      [None, None, None, None, Some(1), Some(2), Some(3)],
      [Some(4), Some(5), Some(6), Some(7), Some(8), Some(9), Some(10)],
      [Some(11), Some(12), Some(13), Some(14), Some(15), Some(16), Some(17)],
      [Some(18), Some(19), Some(20), Some(21), Some(22), Some(23), Some(24)],
      [Some(25), Some(26), Some(27), Some(28), Some(29), Some(30), Some(31)]]
  {
    January1970();
    FiveRows(0, 1970);
  }

  /** The whole grid of April 2014, row by row. */
  lemma April2014Grid()
    ensures Grid(3, 2014) == [
      [None, None, Some(1), Some(2), Some(3), Some(4), Some(5)],
      [Some(6), Some(7), Some(8), Some(9), Some(10), Some(11), Some(12)],
      [Some(13), Some(14), Some(15), Some(16), Some(17), Some(18), Some(19)],
      [Some(20), Some(21), Some(22), Some(23), Some(24), Some(25), Some(26)],
      [Some(27), Some(28), Some(29), Some(30), None, None, None]]
  {
    April2014();
    FiveRows(3, 2014);
  }

  /** The whole grid of October 2000, row by row. */
  lemma October2000Grid()
    ensures Grid(9, 2000) == [
      [Some(1), Some(2), Some(3), Some(4), Some(5), Some(6), Some(7)],
      [Some(8), Some(9), Some(10), Some(11), Some(12), Some(13), Some(14)],
      [Some(15), Some(16), Some(17), Some(18), Some(19), Some(20), Some(21)],
      [Some(22), Some(23), Some(24), Some(25), Some(26), Some(27), Some(28)],
      [Some(29), Some(30), Some(31), None, None, None, None]]
  {
    October2000();
    FiveRows(9, 2000);
  }
}
