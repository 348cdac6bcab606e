/** What the selection rules guarantee: which rows are greyed out, that a user selection
    always lands within the bound, the year-to-month cascade, and what selectDate and the
    maxDate setter do and do not do. */
module SelectionProperties {
  import opened Selection

  // ---------------------------------------------------------------- layout

  /** The year wheel's row index is the year itself. */
  lemma YearRowIsYear(row: int)
    requires 0 <= row < |Years()|
    ensures |Years()| == MaxYear + 1 && Years()[row] == row
  {
  }

  /** MonthYear mode shows the month wheel then the year wheel; Year mode shows one year
      wheel.  Every displayed component is one the callbacks handle, and it has 12 rows when
      it is the month wheel and one row per year otherwise. */
  lemma ColumnLayout(mode: Mode)
    ensures (exists c :: 0 <= c < NumberOfComponents(mode) && IsMonthColumn(mode, c)) <==>
            mode == MonthYear
    ensures !IsMonthColumn(mode, NumberOfComponents(mode) - 1)
    ensures forall c :: 0 <= c < NumberOfComponents(mode) ==>
              HandledComponent(mode, c) &&
              NumberOfRows(mode, c) == if IsMonthColumn(mode, c) then 12 else MaxYear + 1
  {
    if mode == MonthYear {
      assert IsMonthColumn(mode, 0);
    }
  }

  // ---------------------------------------------------------------- greyed-out rows

  /** Below the bound year every month is enabled, in the bound year exactly the months up
      to the bound month are, past it none are. */
  lemma MonthRowsEnabled(selectedYear: int, b: Bound)
    ensures selectedYear < b.maxYear ==>
              forall row :: !MonthRowDisabled(selectedYear, b, row)
    ensures selectedYear == b.maxYear ==>
              forall row :: MonthRowDisabled(selectedYear, b, row) <==> row + 1 > b.maxMonth
    ensures selectedYear > b.maxYear ==>
              forall row :: MonthRowDisabled(selectedYear, b, row)
  {
  }

  /** Without a maximum date nothing on either wheel is greyed out. */
  lemma UnboundedDisablesNothing()
    ensures BoundOf(None) == Unbounded
    ensures forall y, row :: y <= MaxYear && 0 <= row < 12 ==> !MonthRowDisabled(y, Unbounded, row)
    ensures forall row :: 0 <= row < |Years()| ==> !YearRowDisabled(Unbounded, Years()[row])
  {
  }

  // ---------------------------------------------------------------- the bound

  /** Setting maxDate recomputes only the bound: the date's year and month, or the sentinel
      when cleared.  The selection, currentDate and the wheel stay as they were, so a
      selection past the new bound is not corrected. */
  lemma SetMaxDateLeavesSelection(s: PickerState, d: Option<Date>)
    ensures var t := SetMaxDate(s, d);
            t.maxDate == d &&
            (d.None? ==> t.bound.maxYear == MaxYear && t.bound.maxMonth == 12) &&
            (d.Some? ==> t.bound.maxYear == d.value.year && t.bound.maxMonth == d.value.month) &&
            t.selectedYear == s.selectedYear && t.selectedMonth == s.selectedMonth &&
            t.currentDate == s.currentDate &&
            t.shownRow0 == s.shownRow0 && t.shownRow1 == s.shownRow1 &&
            t.componentReloads == s.componentReloads && t.allReloads == s.allReloads
  {
  }

  // ---------------------------------------------------------------- user selections

  /** A month selection keeps the year and accepts the row when it is enabled, the bound
      month otherwise; the wheel and currentDate show the accepted month.  When the year is
      within the bound the accepted month is enabled and the selection stays in bound. */
  lemma MonthPickResult(s: PickerState, row: MonthRow)
    ensures var t := SelectMonthRow(s, row);
            t.selectedYear == s.selectedYear &&
            t.selectedMonth == (if MonthRowDisabled(s.selectedYear, s.bound, row)
                                then s.bound.maxMonth - 1 else row) &&
            t.shownRow0 == t.selectedMonth &&
            t.currentDate == Date(s.currentDate.year, t.selectedMonth + 1)
    ensures InBound(s) ==>
              InBound(SelectMonthRow(s, row)) &&
              !MonthRowDisabled(s.selectedYear, s.bound, SelectMonthRow(s, row).selectedMonth)
  {
  }

  /** After any year selection the year is within the bound, and in MonthYear mode so is the
      month, whatever the state was before. */
  lemma YearPickEstablishesInBound(s: PickerState, row: int)
    requires 0 <= row < |Years()|
    ensures var t := SelectYearRow(s, row);
            InBound(t) && t.selectedYear == ClampYear(s.bound, row) && Mirrored(t)
  {
  }

  /** The cascade run by a year assignment in MonthYear mode: the month wheel is reloaded;
      in the bound year a month past the bound month is pulled down to it and an allowed
      month is kept; below it the month is
      untouched and every month row is enabled again. */
  lemma CascadeRevalidatesMonth(s: PickerState, y: int)
    requires s.mode == MonthYear
    ensures var t := AssignYear(s, y);
            t.selectedYear == y && t.componentReloads == s.componentReloads + 1 &&
            t.shownRow0 == t.selectedMonth && t.currentDate == Date(y, t.selectedMonth + 1) &&
            (y == s.bound.maxYear ==> t.selectedMonth + 1 <= s.bound.maxMonth) &&
            (y == s.bound.maxYear && s.selectedMonth + 1 > s.bound.maxMonth ==>
               t.selectedMonth == s.bound.maxMonth - 1) &&
            (y == s.bound.maxYear && s.selectedMonth + 1 <= s.bound.maxMonth ==>
               t.selectedMonth == s.selectedMonth) &&
            (y < s.bound.maxYear ==>
               t.selectedMonth == s.selectedMonth &&
               forall row :: !MonthRowDisabled(t.selectedYear, t.bound, row))
  {
  }

  /** Selecting the same year row twice leaves what the user sees as selecting it once (only
      the reload count of the month wheel grows). */
  lemma SelectYearRowIdempotent(s: PickerState, row: int)
    requires 0 <= row < |Years()|
    ensures View(SelectYearRow(SelectYearRow(s, row), row)) == View(SelectYearRow(s, row))
  {
  }

  /** Every user selection keeps the selection within the bound. */
  lemma DidSelectRowPreservesInBound(s: PickerState, row: int, component: int)
    requires ValidPick(s.mode, row, component) && InBound(s)
    ensures InBound(DidSelectRow(s, row, component))
  {
    if IsMonthColumn(s.mode, component) {
      MonthPickResult(s, row);
    } else {
      YearPickEstablishesInBound(s, row);
    }
  }

  /** Every user selection keeps currentDate and the wheel in step with the selection. */
  lemma DidSelectRowPreservesMirrored(s: PickerState, row: int, component: int)
    requires ValidPick(s.mode, row, component) && Mirrored(s)
    ensures Mirrored(DidSelectRow(s, row, component))
  {
  }

  /** In Year mode a selection never touches the month or reloads a month wheel. */
  lemma YearModeKeepsMonth(s: PickerState, row: int, component: int)
    requires s.mode == Year && ValidPick(s.mode, row, component)
    ensures var t := DidSelectRow(s, row, component);
            t.selectedMonth == s.selectedMonth && t.componentReloads == s.componentReloads &&
            t.currentDate.month == s.currentDate.month
  {
  }

  // ---------------------------------------------------------------- sequences of selections

  /** Once the selection is within the bound, no sequence of user selections takes it out. */
  lemma {:induction false} ReplayPreservesInBound(s: PickerState, picks: seq<Pick>)
    requires ValidPicks(s.mode, picks) && InBound(s)
    ensures InBound(Replay(s, picks))
    decreases |picks|
  {
    if picks != [] {
      DidSelectRowPreservesInBound(s, picks[0].row, picks[0].component);
      ReplayPreservesInBound(DidSelectRow(s, picks[0].row, picks[0].component), picks[1..]);
    }
  }

  /** Whatever the starting state (a programmatic date past the bound included), the
      selection is within the bound after any sequence of user selections that includes a
      year selection. */
  lemma {:induction false} ReplayAfterYearPick(s: PickerState, picks: seq<Pick>, k: nat)
    requires ValidPicks(s.mode, picks)
    requires k < |picks| && !IsMonthColumn(s.mode, picks[k].component)
    ensures InBound(Replay(s, picks))
    decreases |picks|
  {
    var t := DidSelectRow(s, picks[0].row, picks[0].component);
    if k == 0 {
      YearPickEstablishesInBound(s, picks[0].row);
      ReplayPreservesInBound(t, picks[1..]);
    } else {
      ReplayAfterYearPick(t, picks[1..], k - 1);
    }
  }

  /** currentDate and the wheel stay in step with the selection through any sequence of
      user selections. */
  lemma {:induction false} ReplayPreservesMirrored(s: PickerState, picks: seq<Pick>)
    requires ValidPicks(s.mode, picks) && Mirrored(s)
    ensures Mirrored(Replay(s, picks))
    decreases |picks|
  {
    if picks != [] {
      DidSelectRowPreservesMirrored(s, picks[0].row, picks[0].component);
      ReplayPreservesMirrored(DidSelectRow(s, picks[0].row, picks[0].component), picks[1..]);
    }
  }

  /** In Year mode no sequence of user selections changes the month or reloads a month
      wheel. */
  lemma {:induction false} ReplayYearModeKeepsMonth(s: PickerState, picks: seq<Pick>)
    requires s.mode == Year && ValidPicks(s.mode, picks)
    ensures var t := Replay(s, picks);
            t.selectedMonth == s.selectedMonth && t.componentReloads == s.componentReloads
    decreases |picks|
  {
    if picks != [] {
      YearModeKeepsMonth(s, picks[0].row, picks[0].component);
      ReplayYearModeKeepsMonth(DidSelectRow(s, picks[0].row, picks[0].component), picks[1..]);
    }
  }

  // ---------------------------------------------------------------- selectDate

  /** selectDate takes the date's year (and in MonthYear mode its month) as it is and shows
      it, so currentDate reads back the date; in Year mode currentDate keeps its month and
      no month wheel is reloaded. */
  lemma SelectDateReadsBack(s: PickerState, d: Date)
    ensures var t := SelectDate(s, d);
            t.selectedYear == d.year && Mirrored(t) &&
            (s.mode == MonthYear ==> t.selectedMonth == d.month - 1 && t.currentDate == d) &&
            (s.mode == Year ==>
               t.selectedMonth == s.selectedMonth && t.componentReloads == s.componentReloads &&
               t.currentDate == Date(d.year, s.currentDate.month))
  {
  }

  /** selectDate does not clamp: the result is within the bound exactly when the date is. */
  lemma SelectDateInBoundIff(s: PickerState, d: Date)
    ensures InBound(SelectDate(s, d)) <==>
            d.year < s.bound.maxYear ||
            (d.year == s.bound.maxYear && (s.mode == Year || d.month <= s.bound.maxMonth))
  {
  }

  /** A second layout pass changes nothing a user can see: the reselection of initDate is
      idempotent. */
  lemma LayoutSubviewsIdempotent(s: PickerState)
    ensures View(LayoutSubviews(LayoutSubviews(s))) == View(LayoutSubviews(s))
  {
  }

  // ---------------------------------------------------------------- scenarios

  /** Bound June 2024, MonthYear mode, October selected: choosing 2024 greys out July to
      December and pulls the month back to June. */
  lemma ScenarioBoundYear(s: PickerState)
    requires s.mode == MonthYear && s.bound == Bound(2024, 6) && s.selectedMonth == 9
    ensures var t := SelectYearRow(s, 2024);
            t.selectedYear == 2024 && t.selectedMonth == 5 && t.currentDate == Date(2024, 6) &&
            forall row :: 0 <= row < 12 ==> (MonthRowDisabled(t.selectedYear, t.bound, row) <==> row >= 6)
  {
  }

  /** Bound June 2024, MonthYear mode: choosing 2023 keeps the month and enables every
      month row. */
  lemma ScenarioBelowBoundYear(s: PickerState)
    requires s.mode == MonthYear && s.bound == Bound(2024, 6)
    ensures var t := SelectYearRow(s, 2023);
            t.selectedYear == 2023 && t.selectedMonth == s.selectedMonth &&
            forall row :: !MonthRowDisabled(t.selectedYear, t.bound, row)
  {
  }

  /** Year mode, bound year 2024: choosing 2030 is pulled back to 2024. */
  lemma ScenarioYearModeClamp(s: PickerState)
    requires s.mode == Year && s.bound.maxYear == 2024
    ensures var t := SelectYearRow(s, 2030);
            t.selectedYear == 2024 && t.shownRow0 == 2024 && t.currentDate.year == 2024
  {
  }
}
