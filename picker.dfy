/** The picker widget and its delegate.  The widget owns the wheel (displayed rows, reloads)
    and the public properties; the delegate owns the bound and the selection and reacts to
    the wheel's callbacks.  Each method does what the corresponding setter, property
    observer or callback does, in the same order, and states its effect as a transition of
    Selection.PickerState. */
module Picker {
  import opened Selection

  class MonthYearPicker {
    /** Set once construction is complete; never null afterwards. */
    var pickerDelegate: MonthYearPickerDelegate?
    var maxDate: Option<Date>
    var initDate: Date
    var currentDate: Date
    var pickerType: Mode
    // The wheel widget: the row last selected in each component and the reload counts.
    var selectedRow0: int
    var selectedRow1: int
    var componentReloads: nat
    var allReloads: nat

    ghost predicate Valid()
      reads this, pickerDelegate
    {
      pickerDelegate != null && pickerDelegate.picker == this
    }

    /** The picker and its delegate as one value. */
    function State(): PickerState
      reads this, pickerDelegate
      requires pickerDelegate != null
    {
      PickerState(pickerType, maxDate, initDate, currentDate,
                  Bound(pickerDelegate.maxYearSelectable, pickerDelegate.maxMonthSelectable),
                  pickerDelegate.selectedYear, pickerDelegate.selectedMonth,
                  selectedRow0, selectedRow1, componentReloads, allReloads)
    }

    /** A fresh picker: both properties default to the current date `now`, MonthYear mode,
        no bound, selection (0, 0). */
    constructor (now: Date)
      ensures Valid() && fresh(pickerDelegate)
      ensures State() == PickerState(MonthYear, None, now, now, Unbounded, 0, 0, 0, 0, 0, 0)
    {
      pickerDelegate := null;
      maxDate := None;
      initDate := now;
      currentDate := now;
      pickerType := MonthYear;
      selectedRow0, selectedRow1 := 0, 0;
      componentReloads, allReloads := 0, 0;
      new;
      pickerDelegate := new MonthYearPickerDelegate(this);
    }

    // ---------------------------------------------------------------- wheel commands

    /** Tell the wheel to display `row` in `component`. */
    method SelectRow(row: int, component: int)
      requires component == 0 || component == 1
      modifies this`selectedRow0, this`selectedRow1
      ensures selectedRow0 == if component == 0 then row else old(selectedRow0)
      ensures selectedRow1 == if component == 1 then row else old(selectedRow1)
    {
      if component == 0 {
        selectedRow0 := row;
      } else {
        selectedRow1 := row;
      }
    }

    /** Ask the wheel to re-query the titles of one component. */
    method ReloadComponent(component: int)
      modifies this`componentReloads
      ensures componentReloads == old(componentReloads) + 1
    {
      componentReloads := componentReloads + 1;
    }

    /** Ask the wheel to re-query the component count and every title. */
    method ReloadAllComponents()
      modifies this`allReloads
      ensures allReloads == old(allReloads) + 1
    {
      allReloads := allReloads + 1;
    }

    // ---------------------------------------------------------------- properties

    /** Assigning maxDate hands the date to the delegate, which recomputes the bound. */
    method SetMaxDate(d: Option<Date>)
      requires Valid()
      modifies this`maxDate, pickerDelegate`maxYearSelectable, pickerDelegate`maxMonthSelectable
      ensures Valid() && pickerDelegate == old(pickerDelegate)
      ensures State() == Selection.SetMaxDate(old(State()), d)
      ensures State().bound == BoundOf(d)
    {
      maxDate := d;
      pickerDelegate.SetMaxDateSelected(maxDate);
    }

    /** Assigning initDate reloads the wheel and selects the new date. */
    method SetInitDate(d: Date)
      requires Valid()
      modifies this, pickerDelegate
      ensures Valid() && pickerDelegate == old(pickerDelegate)
      ensures State() == Selection.SetInitDate(old(State()), d)
      ensures Mirrored(State())
    {
      initDate := d;
      ReloadAllComponents();
      pickerDelegate.SelectDate(initDate);
    }

    /** Assigning pickerType reloads the wheel and reselects initDate under the new mode. */
    method SetPickerType(mode: Mode)
      requires Valid()
      modifies this, pickerDelegate
      ensures Valid() && pickerDelegate == old(pickerDelegate)
      ensures State() == Selection.SetPickerType(old(State()), mode)
      ensures Mirrored(State())
    {
      pickerType := mode;
      ReloadAllComponents();
      pickerDelegate.SelectDate(initDate);
    }

    /** A layout pass reloads the wheel and reselects initDate. */
    method LayoutSubviews()
      requires Valid()
      modifies this, pickerDelegate
      ensures Valid() && pickerDelegate == old(pickerDelegate)
      ensures State() == Selection.LayoutSubviews(old(State()))
      ensures Mirrored(State())
    {
      ReloadAllComponents();
      pickerDelegate.SelectDate(initDate);
    }
  }

  class MonthYearPickerDelegate {
    const picker: MonthYearPicker
    var maxYearSelectable: int
    var maxMonthSelectable: MonthNumber
    var selectedMonth: MonthRow
    var selectedYear: int

    ghost predicate Linked()
      reads this, picker
    {
      picker.pickerDelegate == this
    }

    constructor (owner: MonthYearPicker)
      ensures picker == owner
      ensures SelectableBound() == Unbounded
      ensures selectedMonth == 0 && selectedYear == 0
    {
      picker := owner;
      maxYearSelectable := MaxYear;
      maxMonthSelectable := 12;
      selectedMonth := 0;
      selectedYear := 0;
    }

    /** The bound held in maxYearSelectable and maxMonthSelectable. */
    function SelectableBound(): Bound
      reads this
    {
      Bound(maxYearSelectable, maxMonthSelectable)
    }

    // ---------------------------------------------------------------- bound and selection

    /** The maxDateSelected setter: the bound becomes the date's year and month, or the
        sentinel (MaxYear, 12) when the date is absent; the selection is left alone. */
    method SetMaxDateSelected(newValue: Option<Date>)
      requires Linked()
      modifies this`maxYearSelectable, this`maxMonthSelectable
      ensures Linked()
      ensures picker.State() == Selection.SetMaxDateSelected(old(picker.State()), newValue)
      ensures newValue.None? ==> maxYearSelectable == MaxYear && maxMonthSelectable == 12
      ensures newValue.Some? ==>
                maxYearSelectable == newValue.value.year &&
                maxMonthSelectable == newValue.value.month
    {
      if newValue.Some? {
        maxYearSelectable := newValue.value.year;
        maxMonthSelectable := newValue.value.month;
      } else {
        maxYearSelectable := MaxYear;
        maxMonthSelectable := 12;
      }
    }

    /** Assigning selectedMonth, with its observer: currentDate takes the month. */
    method SetSelectedMonth(m: MonthRow)
      requires Linked()
      modifies this`selectedMonth, picker`currentDate
      ensures Linked()
      ensures selectedMonth == m
      ensures picker.currentDate == Date(old(picker.currentDate.year), m + 1)
    {
      selectedMonth := m;
      picker.currentDate := picker.currentDate.(month := selectedMonth + 1);
    }

    /** Assigning selectedYear, with its observer: in MonthYear mode the month component is
        reloaded and the current month row is selected again (and so clamped against the new
        year); then currentDate takes the year. */
    method SetSelectedYear(y: int)
      requires Linked()
      modifies this`selectedYear, this`selectedMonth
      modifies picker`currentDate, picker`selectedRow0, picker`selectedRow1, picker`componentReloads
      ensures Linked()
      ensures picker.State() == AssignYear(old(picker.State()), y)
      decreases 1
    {
      selectedYear := y;
      if picker.pickerType == MonthYear {
        picker.ReloadComponent(0);
        DidSelectRow(selectedMonth, 0);
      }
      picker.currentDate := picker.currentDate.(year := selectedYear);
    }

    /** Select the year and month of `date` as they are, without clamping them against the
        bound, and display them. */
    method SelectDate(date: Date)
      requires Linked()
      modifies this`selectedYear, this`selectedMonth
      modifies picker`currentDate, picker`selectedRow0, picker`selectedRow1, picker`componentReloads
      ensures Linked()
      ensures picker.State() == Selection.SelectDate(old(picker.State()), date)
      ensures selectedYear == date.year
      ensures picker.pickerType == MonthYear ==> selectedMonth == date.month - 1 && picker.currentDate == date
    {
      if picker.pickerType == MonthYear {
        SetSelectedYear(date.year);
        SetSelectedMonth(date.month - 1);
        picker.SelectRow(selectedYear, 1);
        picker.SelectRow(selectedMonth, 0);
      } else {
        SetSelectedYear(date.year);
        picker.SelectRow(selectedYear, 0);
      }
    }

    // ---------------------------------------------------------------- data source

    method NumberOfComponentsInPickerView() returns (n: int)
      ensures n == NumberOfComponents(picker.pickerType)
    {
      if picker.pickerType == MonthYear {
        n := 2;
      } else {
        n := 1;
      }
    }

    method NumberOfRowsInComponent(component: int) returns (n: int)
      ensures n == NumberOfRows(picker.pickerType, component)
    {
      if picker.pickerType == MonthYear {
        n := if component == 0 then MonthCount else |Years()|;
      } else {
        n := |Years()|;
      }
    }

    /** Whether the title of `row` in `component` is drawn in the disabled colour. */
    method IsTitleDisabled(row: int, component: int) returns (disabled: bool)
      requires ValidPick(picker.pickerType, row, component)
      ensures IsMonthColumn(picker.pickerType, component) ==>
                disabled == MonthRowDisabled(selectedYear, SelectableBound(), row)
      ensures !IsMonthColumn(picker.pickerType, component) ==>
                disabled == YearRowDisabled(SelectableBound(), Years()[row])
    {
      if picker.pickerType == MonthYear && component == 0 {
        disabled := selectedYear > maxYearSelectable ||
                    (selectedYear == maxYearSelectable && row + 1 > maxMonthSelectable);
      } else {
        // MonthYear component 1, or any component in Year mode
        var year := Years()[row];
        disabled := year > maxYearSelectable;
      }
    }

    // ---------------------------------------------------------------- delegate

    /** The wheel reports that the user selected `row` in `component`.  A disabled month
        snaps to the bound month; a year past the bound snaps to the bound year.  The wheel
        is moved to the accepted row before the selection is assigned. */
    method DidSelectRow(row: int, component: int)
      requires Linked()
      requires ValidPick(picker.pickerType, row, component)
      modifies this`selectedYear, this`selectedMonth
      modifies picker`currentDate, picker`selectedRow0, picker`selectedRow1, picker`componentReloads
      ensures Linked()
      ensures picker.State() == Selection.DidSelectRow(old(picker.State()), row, component)
      ensures !IsMonthColumn(picker.pickerType, component) ==>
                selectedYear == ClampYear(SelectableBound(), Years()[row]) && selectedYear <= maxYearSelectable
      ensures IsMonthColumn(picker.pickerType, component) ==>
                selectedMonth == ClampMonth(selectedYear, SelectableBound(), row) &&
                picker.selectedRow0 == selectedMonth
      decreases if IsMonthColumn(picker.pickerType, component) then 0 else 2
    {
      if picker.pickerType == MonthYear && component == 0 {
        var month := row;
        var disabled := selectedYear > maxYearSelectable ||
                        (selectedYear == maxYearSelectable && row + 1 > maxMonthSelectable);
        if disabled {
          month := maxMonthSelectable - 1;
        }
        picker.SelectRow(month, 0);
        SetSelectedMonth(month);
      } else if picker.pickerType == MonthYear {
        // component 1: the year wheel
        var year := Years()[row];
        if year > maxYearSelectable {
          year := maxYearSelectable;
        }
        picker.SelectRow(year, 1);
        SetSelectedYear(year);
      } else {
        // Year mode: the only wheel is a year wheel
        var year := Years()[row];
        if year > maxYearSelectable {
          year := maxYearSelectable;
        }
        picker.SelectRow(year, 0);
        SetSelectedYear(year);
      }
    }
  }
}
