/** The range picker's state machine from
    content/custom-calendar-component/Calendar.tsx: the first click selects a
    day, the second completes a range, a third starts over; hovering while one
    day is selected previews the range. */
module Calendar {
  import opened Prelude
  import opened Dates

  /** A calendar day as the picker passes it around; `month` is 0-based. */
  datatype Day = Day(day: int, month: int, year: int)

  /** `new Date(d.year, d.month, d.day).getTime()`, up to the local time zone
      offset, which is the same for every day compared. */
  function Time(d: Day): int {
    DayNumber(d.year, d.month, d.day)
  }

  /** `[a, b].sort((a, b) => time(a) - time(b))`: a stable sort of two days. */
  function SortPair(a: Day, b: Day): (r: seq<Day>)
    ensures |r| == 2 && multiset(r) == multiset{a, b}
    ensures Time(r[0]) <= Time(r[1])
    // Stability: days at the same time keep their order.
    ensures Time(a) == Time(b) ==> r == [a, b]
  {
    if Time(a) - Time(b) > 0 then [b, a] else [a, b]
  }

  datatype CalendarState = CalendarState(
    month: int,
    year: int,
    selectedDays: Option<seq<Day>>,
    hoverDay: Option<Day>,
    isDirty: bool)

  datatype CalendarAction = SelectDay(day: Day) | HoverDay(day: Day)

  /** `selectedDays?.length === 1` */
  predicate OneSelected(s: CalendarState) {
    s.selectedDays.Some? && |s.selectedDays.value| == 1
  }

  /** `calendarReducer` */
  function Reduce(prev: CalendarState, action: CalendarAction): (next: CalendarState)
    // The displayed month never changes.
    ensures next.month == prev.month && next.year == prev.year
    // A click with exactly one day selected completes the range: both days, in time order.
    ensures action.SelectDay? && OneSelected(prev) ==>
              && next.selectedDays.Some?
              && |next.selectedDays.value| == 2
              && multiset(next.selectedDays.value) == multiset{prev.selectedDays.value[0], action.day}
              && Time(next.selectedDays.value[0]) <= Time(next.selectedDays.value[1])
    // Any other click starts a new selection of the clicked day alone.
    ensures action.SelectDay? && !OneSelected(prev) ==> next.selectedDays == Some([action.day])
    // A click always drops the hover preview and marks the state dirty.
    ensures action.SelectDay? ==> next.hoverDay == None && next.isDirty
    // Hovering only records the day while exactly one day is selected; otherwise nothing changes.
    ensures action.HoverDay? && OneSelected(prev) ==> next == prev.(hoverDay := Some(action.day))
    ensures action.HoverDay? && !OneSelected(prev) ==> next == prev
  {
    match action
    case SelectDay(day) =>
      if OneSelected(prev) then
        prev.(hoverDay := None, selectedDays := Some(SortPair(prev.selectedDays.value[0], day)), isDirty := true)
      else
        prev.(hoverDay := None, selectedDays := Some([day]), isDirty := true)
    case HoverDay(day) =>
      if OneSelected(prev) then prev.(hoverDay := Some(day)) else prev
  }

  /** The state the picker can be in: a selection, when present, holds one or
      two days; a hover preview only exists while one day is selected; a dirty
      state has a selection. */
  predicate Valid(s: CalendarState) {
    && (s.selectedDays.Some? ==> 1 <= |s.selectedDays.value| <= 2)
    && (s.hoverDay.Some? ==> OneSelected(s))
    && (s.isDirty ==> s.selectedDays.Some?)
  }

  /** `createDefaultState(selectedDates)`, with the date strings already parsed
      into days and `new Date()` given as `today`. */
  function DefaultState(selectedDates: Option<seq<Day>>, today: Day): (s: CalendarState)
    // The first preselected date decides the month shown, else today does.
    ensures selectedDates.Some? && |selectedDates.value| > 0 ==>
              s.month == selectedDates.value[0].month && s.year == selectedDates.value[0].year
    ensures !(selectedDates.Some? && |selectedDates.value| > 0) ==> s.month == today.month && s.year == today.year
    // A single date is selected twice over, so the initial selection never holds exactly one day.
    ensures !OneSelected(s)
    ensures selectedDates.Some? && |selectedDates.value| == 1 ==>
              s.selectedDays == Some([selectedDates.value[0], selectedDates.value[0]])
    ensures selectedDates.Some? && |selectedDates.value| != 1 ==> s.selectedDays == selectedDates
    ensures selectedDates.None? ==> s.selectedDays == None
    ensures s.hoverDay == None && !s.isDirty
  {
    var first := if selectedDates.Some? && |selectedDates.value| > 0 then selectedDates.value[0] else today;
    var selectedDays :=
      if selectedDates.Some? && |selectedDates.value| == 1
      then
        // `selectedDays.push(selectedDays[0])`
        assert selectedDates.value + [selectedDates.value[0]] == [selectedDates.value[0], selectedDates.value[0]];
        Some(selectedDates.value + [selectedDates.value[0]])
      else selectedDates;
    CalendarState(first.month, first.year, selectedDays, None, false)
  }

  /** The initial state is valid whenever the preselection has the declared
      shape, one or two dates. */
  lemma DefaultStateValid(selectedDates: Option<seq<Day>>, today: Day)
    requires selectedDates.Some? ==> 1 <= |selectedDates.value| <= 2
    ensures Valid(DefaultState(selectedDates, today))
  {
  }

  /** Every action keeps the state valid. */
  lemma ReduceValid(s: CalendarState, action: CalendarAction)
    requires Valid(s)
    ensures Valid(Reduce(s, action))
  {
  }

  /** `hoverDays`: the selected day and the hovered day in time order, while
      exactly one day is selected and a day is hovered. */
  function HoverDays(s: CalendarState): (r: Option<seq<Day>>)
    ensures r.Some? <==> s.hoverDay.Some? && OneSelected(s)
    ensures r.Some? ==>
              && |r.value| == 2
              && multiset(r.value) == multiset{s.selectedDays.value[0], s.hoverDay.value}
              && Time(r.value[0]) <= Time(r.value[1])
  {
    if s.hoverDay.None? || !OneSelected(s) then None
    else Some(SortPair(s.selectedDays.value[0], s.hoverDay.value))
  }

  /** Same day, month and year, compared field by field as the effect does. */
  predicate SameDay(a: Day, b: Day) {
    a.day == b.day && a.month == b.month && a.year == b.year
  }

  /** The days the effect passes to `onSelect` (before their ISO formatting),
      or `None` when it does not call it: only a dirty two-day selection is
      reported, as one day when both coincide. */
  function OnSelectDays(s: CalendarState): (r: Option<seq<Day>>)
    ensures r.Some? <==> s.isDirty && s.selectedDays.Some? && |s.selectedDays.value| == 2
    ensures r.Some? ==> r.value == if s.selectedDays.value[0] == s.selectedDays.value[1]
                                   then [s.selectedDays.value[0]]
                                   else s.selectedDays.value
  {
    if s.isDirty && s.selectedDays.Some? && |s.selectedDays.value| == 2 then
      var days := s.selectedDays.value;
      if SameDay(days[0], days[1]) then Some([days[0]]) else Some(days)
    else None
  }

  /** From any state that does not hold exactly one selected day, clicking
      `a` and then `b` reports the range between them, in time order, or the
      single day when both clicks hit the same day. */
  lemma TwoClicks(s: CalendarState, a: Day, b: Day)
    requires !OneSelected(s)
    ensures var after := Reduce(Reduce(s, SelectDay(a)), SelectDay(b));
            && OnSelectDays(Reduce(s, SelectDay(a))) == None
            && (a == b ==> OnSelectDays(after) == Some([a]))
            && (a != b ==> OnSelectDays(after) == Some(SortPair(a, b)))
            && (a != b ==> multiset(OnSelectDays(after).value) == multiset{a, b})
            && after.hoverDay == None
  {
    var first := Reduce(s, SelectDay(a));
    assert first.selectedDays == Some([a]);
    var second := Reduce(first, SelectDay(b));
    assert second.selectedDays == Some(SortPair(a, b));
    if a != b {
      assert SortPair(a, b)[0] != SortPair(a, b)[1];
    }
  }

  /** A third click starts a new selection. */
  lemma ThirdClickRestarts(s: CalendarState, a: Day, b: Day, c: Day)
    requires !OneSelected(s)
    ensures Reduce(Reduce(Reduce(s, SelectDay(a)), SelectDay(b)), SelectDay(c)).selectedDays == Some([c])
  {
  }
}
