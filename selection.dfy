/** The selection and clamping rules of the month/year picker, as pure functions over a
    snapshot of the picker's state.  The classes in module Picker implement these rules
    step by step; the lemmas in module SelectionProperties say what they guarantee. */
module Selection {

  datatype Option<T> = None | Some(value: T)

  /** Wheel layout: a month wheel (component 0) next to a year wheel (component 1), or a
      single year wheel (component 0). */
  datatype Mode = MonthYear | Year

  /** A calendar month as the calendar reports it, 1 = January. */
  type MonthNumber = m: int | 1 <= m <= 12 witness 1

  /** A row of the month wheel, 0 = January. */
  type MonthRow = r: int | 0 <= r < 12

  /** A date as the picker sees it: only the year and the month are ever extracted, in a
      12-month Gregorian calendar whose time zone is fixed to GMT. */
  datatype Date = Date(year: int, month: MonthNumber)

  const MinYear: int := 0
  const MaxYear: int := 10000

  /** Number of month names the month wheel shows. */
  const MonthCount: nat := 12

  /** The rows of the year wheel: the years MinYear through MaxYear, in order. */
  function Years(): seq<int>
  {
    seq(MaxYear - MinYear + 1, i => MinYear + i)
  }

  /** The inclusive upper limit of what may be selected. */
  datatype Bound = Bound(maxYear: int, maxMonth: MonthNumber)

  /** The bound used when no maximum date is set. */
  const Unbounded: Bound := Bound(MaxYear, 12)

  /** The bound a maximum date sets: its own year and month, or the sentinel when absent. */
  function BoundOf(maxDate: Option<Date>): Bound
  {
    match maxDate
    case None => Unbounded
    case Some(d) => Bound(d.year, d.month)
  }

  // ---------------------------------------------------------------- rendering

  /** A month row is greyed out when the selected year is past the bound, or is the bound
      year and the row's month is past the bound month. */
  predicate MonthRowDisabled(selectedYear: int, b: Bound, row: int)
  {
    selectedYear > b.maxYear || (selectedYear == b.maxYear && row + 1 > b.maxMonth)
  }

  /** A year row is greyed out when its year is past the bound year. */
  predicate YearRowDisabled(b: Bound, year: int)
  {
    year > b.maxYear
  }

  function NumberOfComponents(mode: Mode): nat
  {
    if mode == MonthYear then 2 else 1
  }

  /** The month wheel is component 0 in MonthYear mode; every other component is a year
      wheel. */
  predicate IsMonthColumn(mode: Mode, component: int)
  {
    mode == MonthYear && component == 0
  }

  /** The (mode, component) pairs the delegate's switches handle: in Year mode every
      component, in MonthYear mode components 0 and 1. */
  predicate HandledComponent(mode: Mode, component: int)
  {
    mode == Year || component == 0 || component == 1
  }

  function NumberOfRows(mode: Mode, component: int): nat
  {
    if IsMonthColumn(mode, component) then MonthCount else |Years()|
  }

  /** A row the wheel can report as selected in the given component. */
  predicate ValidPick(mode: Mode, row: int, component: int)
  {
    HandledComponent(mode, component) && 0 <= row < NumberOfRows(mode, component)
  }

  // ---------------------------------------------------------------- clamping

  /** The month row accepted when the user selects `row`: the row itself when enabled,
      otherwise the bound month's row.  When the selected year is within the bound this is
      the greatest enabled row not past `row`. */
  function ClampMonth(selectedYear: int, b: Bound, row: MonthRow): (m: MonthRow)
    ensures !MonthRowDisabled(selectedYear, b, row) <==> selectedYear <= b.maxYear && m == row
    ensures selectedYear <= b.maxYear ==>
              m <= row && !MonthRowDisabled(selectedYear, b, m) &&
              forall k :: m < k <= row ==> MonthRowDisabled(selectedYear, b, k)
    ensures selectedYear > b.maxYear ==> m == b.maxMonth - 1
  {
    if MonthRowDisabled(selectedYear, b, row) then b.maxMonth - 1 else row
  }

  /** The year accepted when the user selects `year`: the greatest enabled year not past
      it. */
  function ClampYear(b: Bound, year: int): (y: int)
    ensures y <= year && !YearRowDisabled(b, y)
    ensures y == year <==> !YearRowDisabled(b, year)
    ensures forall k :: y < k <= year ==> YearRowDisabled(b, k)
  {
    if year > b.maxYear then b.maxYear else year
  }

  // ---------------------------------------------------------------- state

  /** Everything the picker and its delegate hold that the rules read or write.
      shownRow0/shownRow1 are the rows the wheel was last told to display in components 0
      and 1; componentReloads counts single-column reloads and allReloads full reloads. */
  datatype PickerState = PickerState(
    mode: Mode,
    maxDate: Option<Date>,
    initDate: Date,
    currentDate: Date,
    bound: Bound,
    selectedYear: int,
    selectedMonth: MonthRow,
    shownRow0: int,
    shownRow1: int,
    componentReloads: nat,
    allReloads: nat)

  /** The selection respects the bound (the month only matters when there is a month
      wheel). */
  predicate InBound(s: PickerState)
  {
    s.selectedYear <= s.bound.maxYear &&
    (s.mode == MonthYear && s.selectedYear == s.bound.maxYear ==>
       s.selectedMonth + 1 <= s.bound.maxMonth)
  }

  /** currentDate and the displayed rows mirror the selection. */
  predicate Mirrored(s: PickerState)
  {
    s.currentDate.year == s.selectedYear &&
    if s.mode == MonthYear then
      s.currentDate.month == s.selectedMonth + 1 &&
      s.shownRow0 == s.selectedMonth && s.shownRow1 == s.selectedYear
    else
      s.shownRow0 == s.selectedYear
  }

  /** The state without the reload counters: what a user can see. */
  function View(s: PickerState): PickerState
  {
    s.(componentReloads := 0, allReloads := 0)
  }

  // ---------------------------------------------------------------- transitions

  /** The delegate's maxDateSelected setter: only the bound changes. */
  function SetMaxDateSelected(s: PickerState, maxDate: Option<Date>): PickerState
  {
    s.(bound := BoundOf(maxDate))
  }

  /** The picker's maxDate setter. */
  function SetMaxDate(s: PickerState, maxDate: Option<Date>): PickerState
  {
    SetMaxDateSelected(s.(maxDate := maxDate), maxDate)
  }

  /** Assigning selectedYear: in MonthYear mode the month wheel is reloaded and the current
      month row is replayed through the month clamp against the new year; currentDate takes
      the new year. */
  function AssignYear(s: PickerState, y: int): PickerState
  {
    if s.mode == MonthYear then
      var m := ClampMonth(y, s.bound, s.selectedMonth);
      s.(selectedYear := y, selectedMonth := m, currentDate := Date(y, m + 1),
         shownRow0 := m, componentReloads := s.componentReloads + 1)
    else
      s.(selectedYear := y, currentDate := s.currentDate.(year := y))
  }

  /** The user selects a row of the month wheel. */
  function SelectMonthRow(s: PickerState, row: MonthRow): PickerState
  {
    var m := ClampMonth(s.selectedYear, s.bound, row);
    s.(selectedMonth := m, currentDate := s.currentDate.(month := m + 1), shownRow0 := m)
  }

  /** The user selects a row of a year wheel: the wheel is moved to the clamped year, then
      the year is assigned. */
  function SelectYearRow(s: PickerState, row: int): PickerState
    requires 0 <= row < |Years()|
  {
    var y := ClampYear(s.bound, Years()[row]);
    AssignYear(if s.mode == MonthYear then s.(shownRow1 := y) else s.(shownRow0 := y), y)
  }

  /** The wheel reports that the user selected `row` in `component`. */
  function DidSelectRow(s: PickerState, row: int, component: int): (t: PickerState)
    requires ValidPick(s.mode, row, component)
    ensures t.mode == s.mode && t.bound == s.bound && t.maxDate == s.maxDate
    ensures t.initDate == s.initDate && t.allReloads == s.allReloads
    ensures IsMonthColumn(s.mode, component) ==>
              t.selectedYear == s.selectedYear && t.componentReloads == s.componentReloads
    ensures !IsMonthColumn(s.mode, component) ==> t.selectedYear <= s.bound.maxYear
  {
    if IsMonthColumn(s.mode, component) then SelectMonthRow(s, row)
    else SelectYearRow(s, row)
  }

  /** selectDate: the date's year and (in MonthYear mode) month are taken as they are and
      displayed; the cascade run by the year assignment is overwritten by the raw month. */
  function SelectDate(s: PickerState, d: Date): PickerState
  {
    if s.mode == MonthYear then
      s.(selectedYear := d.year, selectedMonth := d.month - 1, currentDate := d,
         shownRow0 := d.month - 1, shownRow1 := d.year,
         componentReloads := s.componentReloads + 1)
    else
      s.(selectedYear := d.year, currentDate := s.currentDate.(year := d.year),
         shownRow0 := d.year)
  }

  /** The picker's initDate setter: reload everything, then select the new date. */
  function SetInitDate(s: PickerState, d: Date): PickerState
  {
    SelectDate(s.(initDate := d, allReloads := s.allReloads + 1), d)
  }

  /** The picker's pickerType setter: reload everything, then reselect initDate. */
  function SetPickerType(s: PickerState, mode: Mode): PickerState
  {
    SelectDate(s.(mode := mode, allReloads := s.allReloads + 1), s.initDate)
  }

  /** A layout pass: reload everything, then reselect initDate. */
  function LayoutSubviews(s: PickerState): PickerState
  {
    SelectDate(s.(allReloads := s.allReloads + 1), s.initDate)
  }

  // ---------------------------------------------------------------- event sequences

  datatype Pick = Pick(row: int, component: int)

  predicate ValidPicks(mode: Mode, picks: seq<Pick>)
  {
    forall i :: 0 <= i < |picks| ==> ValidPick(mode, picks[i].row, picks[i].component)
  }

  /** The state after the user makes the given selections one after another. */
  function Replay(s: PickerState, picks: seq<Pick>): (t: PickerState)
    requires ValidPicks(s.mode, picks)
    ensures t.mode == s.mode && t.bound == s.bound
    ensures t.maxDate == s.maxDate && t.initDate == s.initDate
    decreases |picks|
  {
    if picks == [] then s
    else Replay(DidSelectRow(s, picks[0].row, picks[0].component), picks[1..])
  }
}
