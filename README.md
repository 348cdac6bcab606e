# BFMonthYearPicker selection model

A Dafny model of the selection and clamping logic of BFMonthYearPicker. This is a UIKit
picker that shows either a month wheel next to a year wheel (`MonthYear` mode) or a single
year wheel (`Year` mode). An optional maximum date sets an upper bound.

- Rows past the bound are greyed out.
- A user selection past the bound snaps back into range.
- In `MonthYear` mode, every assignment of the selected year reloads the month wheel and
  runs the current month row through the month clamp again (the cascade).

The model has three modules:

- `Selection` (selection.dfy) holds the pure part. It defines dates as (year, month)
  pairs, the bound, the disabled-row predicates, the two clamps and the column layout. It
  also defines a `PickerState` value and one transition function per operation.
- `Picker` (picker.dfy) holds the imperative part: the classes `MonthYearPicker` (the
  widget) and `MonthYearPickerDelegate`.
  - The widget holds `pickerType`, `maxDate`, `initDate`, `currentDate`, the row each
    wheel component was last told to show, and counters for single-column and full reloads.
  - The delegate holds the bound (`maxYearSelectable`, `maxMonthSelectable`) and the
    selection (`selectedYear`, `selectedMonth`).
  - Each setter, property observer and callback is a method. It takes the same steps in the
    same order as the source. Because the year observer calls back into `DidSelectRow`, the
    cascade is a mutual recursion between two methods.
  - The postconditions of the property setters, `SetSelectedYear`, `SelectDate` and
    `DidSelectRow` tie the new `State()` to the matching transition function applied to the
    old state. `SetSelectedMonth` and the wheel commands (`SelectRow`, `ReloadComponent`,
    `ReloadAllComponents`) state the fields they change directly.
- `SelectionProperties` (selection_properties.dfy) proves what the transitions guarantee:
  - the clamping bounds;
  - the cascade;
  - selectDate read-back and its lack of clamping;
  - idempotence of re-selection;
  - invariants kept over any sequence of user selections, proved by induction.

Behaviour of the code that the model keeps as it is:

- `selectDate` does not clamp. It assigns the year first, so the cascade runs against the
  old month. It then overwrites the month with the raw value. A programmatic date past the
  bound therefore stays selected (`SelectDateInBoundIff`). The first later year selection
  brings the selection back in range (`ReplayAfterYearPick`).
- Setting `maxDate` only recomputes the bound. It does not move the selection or reload the
  wheel (`SetMaxDateLeavesSelection`).
- In `Year` mode, `selectDate` and year selections update only the year of `currentDate`.
  Its month stays whatever it was, so `currentDate` reads back only the date's year
  (`SelectDateReadsBack`).
- The year wheel's rows are the years 0 through 10000, so a year is used directly as its
  own row index (`YearRowIsYear`).

## Model

| member | source | states |
|---|---|---|
| Selection.ClampMonth | BFMonthYearPicker/BFMonthYearPicker.swift:179-186 | the accepted row equals the proposed row, with the selected year within the bound, exactly when that row is enabled; when the selected year is within the bound it is the greatest enabled row not past the proposed one; past the bound it is the bound month's row |
| Selection.ClampYear | BFMonthYearPicker/BFMonthYearPicker.swift:187-193 | the accepted year is enabled, not past the proposed year, equals it exactly when it is enabled, and every year strictly between them is disabled |
| Selection.DidSelectRow | BFMonthYearPicker/BFMonthYearPicker.swift:177-203 | a user selection never changes the mode, the bound, maxDate or initDate; a month selection keeps the year and does not reload; a year selection leaves the year within the bound |
| Selection.Replay | BFMonthYearPicker/BFMonthYearPicker.swift:177-203 | any sequence of user selections keeps the mode, the bound, maxDate and initDate |
| SelectionProperties.YearRowIsYear | BFMonthYearPicker/BFMonthYearPicker.swift:62-63 | the year wheel has 10001 rows and row r holds the year r |
| SelectionProperties.ColumnLayout | BFMonthYearPicker/BFMonthYearPicker.swift:147-159 | a month wheel exists exactly in MonthYear mode, the last component is a year wheel, and every shown component is handled and has 12 rows (month) or 10001 rows (year) |
| SelectionProperties.MonthRowsEnabled | BFMonthYearPicker/BFMonthYearPicker.swift:165 | below the bound year no month row is disabled; in the bound year exactly the rows past the bound month are; past it every row is |
| SelectionProperties.UnboundedDisablesNothing | BFMonthYearPicker/BFMonthYearPicker.swift:161-172 | without a maximum date, no month row for any year up to 10000 and no year row is disabled |
| SelectionProperties.SetMaxDateLeavesSelection | BFMonthYearPicker/BFMonthYearPicker.swift:77-87 | setting maxDate sets the bound to the date's year and month, or to (10000, 12) when cleared, and leaves the selection, currentDate, the wheel rows and the reload counts as they were |
| SelectionProperties.MonthPickResult | BFMonthYearPicker/BFMonthYearPicker.swift:179-186 | a month selection keeps the year; it accepts the row if enabled and the bound month's row otherwise; the wheel shows the accepted row and currentDate's month becomes it plus one; a selection within the bound stays within it |
| SelectionProperties.YearPickEstablishesInBound | BFMonthYearPicker/BFMonthYearPicker.swift:187-200 | after a year selection from any state, the year is the clamped year, the selection is within the bound (month included in MonthYear mode), and currentDate and the wheel mirror it |
| SelectionProperties.CascadeRevalidatesMonth | BFMonthYearPicker/BFMonthYearPicker.swift:103-113 | in MonthYear mode a year assignment reloads the month wheel; in the bound year a month past the bound month becomes exactly the bound month's row and an allowed month is kept; below it the month is kept and all month rows are enabled |
| SelectionProperties.SelectYearRowIdempotent | BFMonthYearPicker/BFMonthYearPicker.swift:187-193 | selecting the same year row twice leaves the same visible state as selecting it once |
| SelectionProperties.DidSelectRowPreservesInBound | BFMonthYearPicker/BFMonthYearPicker.swift:177-203 | every user selection keeps a within-bound selection within the bound |
| SelectionProperties.DidSelectRowPreservesMirrored | BFMonthYearPicker/BFMonthYearPicker.swift:96-112 | every user selection keeps currentDate and the displayed rows equal to the selection |
| SelectionProperties.YearModeKeepsMonth | BFMonthYearPicker/BFMonthYearPicker.swift:194-200 | in Year mode a selection leaves selectedMonth, currentDate's month and the reload count unchanged |
| SelectionProperties.ReplayPreservesInBound | BFMonthYearPicker/BFMonthYearPicker.swift:177-203 | no sequence of user selections takes a within-bound selection out of the bound |
| SelectionProperties.ReplayAfterYearPick | BFMonthYearPicker/BFMonthYearPicker.swift:187-200 | from any state, after a sequence of user selections that contains a year selection, the selection is within the bound |
| SelectionProperties.ReplayPreservesMirrored | BFMonthYearPicker/BFMonthYearPicker.swift:96-112 | currentDate and the displayed rows stay equal to the selection through any sequence of user selections |
| SelectionProperties.ReplayYearModeKeepsMonth | BFMonthYearPicker/BFMonthYearPicker.swift:105 | in Year mode no sequence of selections changes selectedMonth or reloads a month wheel |
| SelectionProperties.SelectDateReadsBack | BFMonthYearPicker/BFMonthYearPicker.swift:128-139 | selectDate sets the year to the date's year in both modes and, in MonthYear mode, the month to the date's month, so currentDate equals the date; in Year mode the month and currentDate's month are kept and no month wheel is reloaded; the wheel mirrors the selection |
| SelectionProperties.SelectDateInBoundIff | BFMonthYearPicker/BFMonthYearPicker.swift:128-139 | after selectDate the selection is within the bound exactly when the date is: nothing is clamped |
| SelectionProperties.LayoutSubviewsIdempotent | BFMonthYearPicker/BFMonthYearPicker.swift:53-57 | a second layout pass leaves the same visible state as the first |
| SelectionProperties.ScenarioBoundYear | BFMonthYearPicker/BFMonthYearPicker.swift:179-193 | bound June 2024, October selected: choosing 2024 disables July to December and pulls the month back to June |
| SelectionProperties.ScenarioBelowBoundYear | BFMonthYearPicker/BFMonthYearPicker.swift:103-108 | bound June 2024: choosing 2023 keeps the month and enables every month row |
| SelectionProperties.ScenarioYearModeClamp | BFMonthYearPicker/BFMonthYearPicker.swift:194-200 | Year mode, bound year 2024: choosing 2030 selects and shows 2024 |
| Picker.MonthYearPicker.constructor | BFMonthYearPicker/BFMonthYearPicker.swift:24-39 | a new picker is in MonthYear mode with no maximum date, initDate and currentDate both the given current date, and selection (0, 0) under the unconstrained bound |
| Picker.MonthYearPicker.SetMaxDate | BFMonthYearPicker/BFMonthYearPicker.swift:19-23 | assigning maxDate stores it and sets the delegate's bound from it, changing nothing else |
| Picker.MonthYearPicker.SetInitDate | BFMonthYearPicker/BFMonthYearPicker.swift:25-30 | assigning initDate reloads all components and selects the new date; afterwards currentDate and the wheel mirror the selection |
| Picker.MonthYearPicker.SetPickerType | BFMonthYearPicker/BFMonthYearPicker.swift:34-39 | assigning the mode reloads all components and reselects initDate under the new mode; afterwards currentDate and the wheel mirror the selection |
| Picker.MonthYearPicker.LayoutSubviews | BFMonthYearPicker/BFMonthYearPicker.swift:53-57 | a layout pass reloads all components and reselects initDate |
| Picker.MonthYearPickerDelegate.constructor | BFMonthYearPicker/BFMonthYearPicker.swift:62-66 | a new delegate has the unconstrained bound (10000, 12) and selection (0, 0) |
| Picker.MonthYearPickerDelegate.SetMaxDateSelected | BFMonthYearPicker/BFMonthYearPicker.swift:77-87 | the bound becomes the date's year and month, or (10000, 12) when the date is absent; nothing else changes |
| Picker.MonthYearPickerDelegate.SetSelectedMonth | BFMonthYearPicker/BFMonthYearPicker.swift:96-102 | the month is stored and currentDate's month becomes it plus one, keeping currentDate's year |
| Picker.MonthYearPickerDelegate.SetSelectedYear | BFMonthYearPicker/BFMonthYearPicker.swift:103-113 | the year is stored; in MonthYear mode the month wheel is reloaded and the month clamped against the new year; currentDate takes the year |
| Picker.MonthYearPickerDelegate.SelectDate | BFMonthYearPicker/BFMonthYearPicker.swift:128-141 | the selection takes the date's year (and month in MonthYear mode) unclamped, the wheel shows it, and in MonthYear mode currentDate equals the date |
| Picker.MonthYearPickerDelegate.NumberOfComponentsInPickerView | BFMonthYearPicker/BFMonthYearPicker.swift:147-152 | returns the component count of the current mode: 2 for MonthYear, 1 for Year |
| Picker.MonthYearPickerDelegate.NumberOfRowsInComponent | BFMonthYearPicker/BFMonthYearPicker.swift:154-159 | returns 12 for the month wheel and the number of years for any year wheel |
| Picker.MonthYearPickerDelegate.IsTitleDisabled | BFMonthYearPicker/BFMonthYearPicker.swift:161-175 | a month title is disabled exactly when the month row is disabled for the selected year and bound; a year title is disabled exactly when its year is past the bound year |
| Picker.MonthYearPickerDelegate.DidSelectRow | BFMonthYearPicker/BFMonthYearPicker.swift:177-203 | the new state is the user-selection transition of the old one; a year selection leaves the clamped year, within the bound; a month selection leaves the clamped month, shown on the wheel |

## Left out

- Rendering: title strings, the colour attribute dictionaries, `animated:` flags and the
  widget's drawing. A title is modelled only by whether it is disabled
  (`IsTitleDisabled`). A reload is modelled only as a counter.
- Calendar arithmetic. The source uses the user's current calendar with its time zone fixed
  to GMT. The model assumes a 12-month Gregorian calendar: a date is a (year, month) pair
  with month 1..12, and there are 12 month symbols. Days, other calendar systems and eras
  are not modelled, and the year is a plain integer.
- Month names from the date formatter are locale text. Only their count, 12, is modelled.
- The clock. "Now" is the constructor's parameter.
- `init(coder:)` and the widget wiring are not modelled. The constructors model only the
  default field values and the link between picker and delegate. The source assigns only
  `delegate` (BFMonthYearPicker/BFMonthYearPicker.swift:44, 50) and never sets `dataSource`.
  Read as written, the widget would then never call the two data-source callbacks
  (`NumberOfComponentsInPickerView`, `NumberOfRowsInComponent`). The model includes them as
  the answers the code gives when they are called.
- `minDate` is stored by the source but never read. The computed properties `currentYear`
  and `currentMonth` are never used. None of the three is modelled.
- The `maxDateSelected` getter only returns the picker's `maxDate`, which the model reads
  directly.
- The `default` branches of the title and selection switches cannot be reached for the
  components the wheel reports. They are excluded by the precondition `ValidPick`, which
  also requires the row to lie within its column.
- The widget's handling of a row outside a column. `SelectRow` records whatever row it is
  given. So a programmatic year outside 0..10000, or a bound year below 0, is stored as the
  displayed row unchanged.
