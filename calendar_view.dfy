/** The cell predicates of content/custom-calendar-component/CalendarView.tsx:
    which day buttons the month view draws as selected, as range ends, or
    inside the selected or previewed range. */
module CalendarView {
  import opened Prelude
  import opened Calendar
  import opened MonthGrid
  import opened Dates

  /** The props the predicates close over. */
  datatype View = View(month: int, year: int, selectedDays: Option<seq<Day>>, hoverDays: Option<seq<Day>>)

  /** The day a cell holding `day` stands for in the viewed month. */
  function CellDay(v: View, day: int): Day {
    Day(day, v.month, v.year)
  }

  /** `isToday`, with `today` the date of `new Date()` as `getFullYear`,
      `getMonth` and `getDate` read it. */
  function IsToday(v: View, today: Day, day: int): (b: bool)
    ensures b <==> CellDay(v, day) == today
  {
    today.year == v.year && today.month == v.month && today.day == day
  }

  /** `days.find((d) => d.year === year && d.month === month && d.day === day)` */
  function Find(days: seq<Day>, target: Day): (r: Option<Day>)
    ensures r.Some? <==> target in days
    ensures r.Some? ==> r.value == target
  {
    if days == [] then None
    else if days[0].year == target.year && days[0].month == target.month && days[0].day == target.day then Some(days[0])
    else Find(days[1..], target)
  }

  /** `isSelected` */
  function IsSelected(v: View, day: int): (b: bool)
    ensures b <==> v.selectedDays.Some? && CellDay(v, day) in v.selectedDays.value
  {
    v.selectedDays.Some? && Find(v.selectedDays.value, CellDay(v, day)).Some?
  }

  /** The interval test shared by `isBetweenSelected` and `isBetweenHovered`:
      false unless there are exactly two days, else whether the cell's time
      lies between theirs, both ends included. */
  function Between(range: Option<seq<Day>>, cell: Day): bool {
    if range.None? || |range.value| != 2 then false
    else Time(range.value[0]) <= Time(cell) && Time(range.value[1]) >= Time(cell)
  }

  function IsBetweenSelected(v: View, day: int): bool {
    Between(v.selectedDays, CellDay(v, day))
  }

  function IsBetweenHovered(v: View, day: int): bool {
    Between(v.hoverDays, CellDay(v, day))
  }

  /** `isFirstSelected` / `isFirstHovered`: a non-empty list whose first day is the cell. */
  function IsFirst(days: Option<seq<Day>>, cell: Day): (b: bool)
    ensures b <==> days.Some? && |days.value| > 0 && days.value[0] == cell
  {
    if days.None? || |days.value| == 0 then false
    else
      var d := days.value[0];
      d.year == cell.year && d.month == cell.month && d.day == cell.day
  }

  /** `isLastSelected`: exactly two selected days, the second being the cell. */
  function IsLastSelected(v: View, day: int): (b: bool)
    ensures b <==> v.selectedDays.Some? && |v.selectedDays.value| == 2 && v.selectedDays.value[1] == CellDay(v, day)
  {
    if v.selectedDays.None? || |v.selectedDays.value| != 2 then false
    else
      var d := v.selectedDays.value[1];
      d.year == v.year && d.month == v.month && d.day == day
  }

  /** `isLastHovered` checks only that `hoverDays` is non-empty before reading
      `hoverDays[1]`; with a single hover day that read is `undefined` and
      `d.year` throws a `TypeError`. */
  function IsLastHovered(v: View, day: int): (r: Result<bool>)
    ensures r.Err? <==> v.hoverDays.Some? && |v.hoverDays.value| == 1
    ensures r.Ok? ==> (r.value <==> v.hoverDays.Some? && |v.hoverDays.value| >= 2 && v.hoverDays.value[1] == CellDay(v, day))
  {
    if v.hoverDays.None? || |v.hoverDays.value| == 0 then Ok(false)
    else if |v.hoverDays.value| < 2 then Err("TypeError: Cannot read properties of undefined (reading 'year')")
    else
      var d := v.hoverDays.value[1];
      Ok(d.year == v.year && d.month == v.month && d.day == day)
  }

  /** `!!day`: a cell gets a button when it holds a day other than 0. */
  predicate RendersButton(cell: Cell) {
    cell.Some? && cell.value != 0
  }

  /** The view `Calendar` renders for its state. */
  function ViewOf(s: CalendarState): View {
    View(s.month, s.year, s.selectedDays, HoverDays(s))
  }

  /** The range drawn for two clicked days does not depend on the order of
      the clicks: it is every day from the earlier to the later one. */
  lemma BetweenClicked(a: Day, b: Day, cell: Day)
    ensures Between(Some(SortPair(a, b)), cell) <==>
              (Time(a) <= Time(cell) <= Time(b)) || (Time(b) <= Time(cell) <= Time(a))
    ensures Between(Some(SortPair(a, b)), cell) == Between(Some(SortPair(b, a)), cell)
  {
  }

  /** Both ends of a range in time order lie inside it, and the highlighted
      days form an interval without gaps. */
  lemma RangeEndsInside(range: seq<Day>, c1: Day, c2: Day, c3: Day)
    requires |range| == 2 && Time(range[0]) <= Time(range[1])
    ensures Between(Some(range), range[0]) && Between(Some(range), range[1])
    ensures Between(Some(range), c1) && Between(Some(range), c3) && Time(c1) <= Time(c2) <= Time(c3) ==>
              Between(Some(range), c2)
  {
  }

  /** In every view `Calendar` renders, `isLastHovered` does not throw: the
      hover days are either absent or a pair, and the last hovered cell is
      the later of the selected and the hovered day. */
  lemma LastHoveredSafe(s: CalendarState, day: int)
    ensures IsLastHovered(ViewOf(s), day).Ok?
    ensures IsLastHovered(ViewOf(s), day).value <==>
              HoverDays(s).Some? && HoverDays(s).value[1] == Day(day, s.month, s.year)
  {
  }

  /** In every view `Calendar` renders, the hover preview's first and last
      cells are inside the previewed range. */
  lemma HoverEndsInside(s: CalendarState, day: int)
    requires IsFirst(HoverDays(s), CellDay(ViewOf(s), day)) || IsLastHovered(ViewOf(s), day) == Ok(true)
    ensures IsBetweenHovered(ViewOf(s), day)
  {
    var v := ViewOf(s);
    RangeEndsInside(HoverDays(s).value, CellDay(v, day), CellDay(v, day), CellDay(v, day));
  }

  /** Of the day buttons of a `createCalendar` grid, `isToday` holds exactly
      for the one at today's row and weekday column when the view shows a
      month that contains today, and for none otherwise. */
  lemma TodayCell(v: View, today: Day, r: int, c: int)
    requires 0 <= r < |Grid(v.month, v.year)| && 0 <= c < 7
    ensures |Grid(v.month, v.year)[r]| == 7
    ensures var cell := Grid(v.month, v.year)[r][c];
            (cell.Some? && IsToday(v, today, cell.value)) <==>
              && today.month == v.month && today.year == v.year
              && 1 <= today.day <= LastDate(v.year, v.month)
              && r == (FirstWeekday(v.year, v.month) + today.day - 1) / 7
              && c == Weekday(DayNumber(v.year, v.month, today.day))
  {
    var offset := FirstWeekday(v.year, v.month);
    GridCell(v.month, v.year, r, c);
    WeekdayOfDay(v.year, v.month, today.day);
    CellPosition(offset + today.day - 1, r, c);
  }

  /** Row `r`, column `c` of a seven-column grid is cell `k` exactly when
      `r` and `c` are the quotient and remainder of `k` by 7. */
  lemma CellPosition(k: int, r: int, c: int)
    requires 0 <= c < 7
    ensures k == 7 * r + c <==> r == k / 7 && c == k % 7
  {
    if k == 7 * r + c {
      DivUnique(k, 7, r, c);
    }
  }

  /** Every cell of a `createCalendar` grid that holds a day gets a button,
      and no `null` cell does. */
  lemma ButtonsOnDays(month: int, year: int, r: int, c: int)
    requires 0 <= r < |Grid(month, year)| && 0 <= c < 7
    ensures |Grid(month, year)[r]| == 7
    ensures RendersButton(Grid(month, year)[r][c]) <==> Grid(month, year)[r][c].Some?
  {
    GridCell(month, year, r, c);
  }
}
