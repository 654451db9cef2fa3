# Mini calendar: a verified model

The mini calendar is a small always-on-top window. It shows one month as a
5 x 7 grid of day labels, with `<` and `>` buttons that step the displayed
month. Each day is coloured from a map stored in a JSON file, keyed by the
date written as `Y-MM-DD`. A day with no entry is neutral grey (`#555555`).
The cell of the real today has a thicker border. It is the only cell with
click bindings that change colours: a left click stores `"green"` under today's key, a right
click stores `"red"`.

This project models that logic in Dafny:

- `gregorian.dfy` (module `Gregorian`): the leap-year rule, month lengths
  (the day count that `calendar.monthrange` returns) and calendar dates.
- `date_keys.dfy` (module `DateKeys`): how the `f"{y}-{m:02d}-{d:02d}"` key is
  formatted. A parser inverts it, and the keys are proved injective from the
  round trip.
- `navigation.dfy` (module `Navigation`): stepping the displayed (year, month)
  pair, checked against a single month index as the reference definition.
- `layout.dfy` (module `Layout`): what one render of the grid shows, as a
  sequence of cells in placement order, with lemmas for each cell's position,
  text, colour, border and clickability.
- `calendar_widget.dfy` (module `CalendarWidget`): the widget state as a class
  `MiniCalendar`. Its fields are the displayed year and month and the colour
  map; the real today is a constant. It has methods for the two buttons, the
  colour update, a click on a cell, and the render loop. The render loop is
  proved equal to `Layout.MonthGrid`.

Years are unbounded integers, as in Python, so navigation can reach year 0 and
negative years. The year field of a key is then written with a leading `-`,
as `f"{y}"` does. Month lengths are modelled for every year, following
`calendar.monthrange` (the 28/29/30/31 table plus the leap day). The real
today is a `datetime.date`, so its year is 1 to 9999. The clock is a
constructor parameter, and so is the colour map read from the data file.

## Model

| member | source | states |
|---|---|---|
| `Gregorian.DaysInMonth` | Downloads/my-scripts/calender/mini-calender.py:114 | the month length of any year and month 1..12 is between 28 and 31 |
| `Gregorian.DaysInMonthByRule` | Downloads/my-scripts/calender/mini-calender.py:114 | February has 29 days exactly in leap years (divisible by 4, not by 100 unless by 400) and 28 otherwise; April, June, September and November have 30; the rest have 31 |
| `DateKeys.NatToString` | Downloads/my-scripts/calender/mini-calender.py:120 | the decimal text of a natural number is non-empty and all digits, has one digit exactly for numbers below 10, and starts with '0' only for 0 (no leading zeros, as `str(n)` prints) |
| `DateKeys.NatToStringRoundTrip` | Downloads/my-scripts/calender/mini-calender.py:120 | reading back the decimal text of n gives n |
| `DateKeys.Pad2` | Downloads/my-scripts/calender/mini-calender.py:120 | a `:02d` field is all digits, at least two long, and exactly two long below 100 |
| `DateKeys.Pad2RoundTrip` | Downloads/my-scripts/calender/mini-calender.py:120 | reading back a zero-filled field gives the number |
| `DateKeys.IntToString` | Downloads/my-scripts/calender/mini-calender.py:120 | the year field is all digits for years >= 0, and a '-' followed by digits for negative years; year 0 is exactly "0" and no other year has a leading zero, so the text is exactly what `f"{y}"` prints |
| `DateKeys.IntToStringRoundTrip` | Downloads/my-scripts/calender/mini-calender.py:120 | parsing the year field gives the year back, for every integer year |
| `DateKeys.DateKey` | Downloads/my-scripts/calender/mini-calender.py:105 | the key of a date with month and day below 100 is 6 characters longer than its year text; its fields are stated by `DateKeyFields` and `DateKeyRoundTrip` |
| `DateKeys.DateKeyFields` | Downloads/my-scripts/calender/mini-calender.py:120 | a key is the year text, '-', two month digits, '-', two day digits |
| `DateKeys.DateKeyRoundTrip` | Downloads/my-scripts/calender/mini-calender.py:120 | parsing a key gives back its year, month and day (month and day below 100) |
| `DateKeys.DateKeyInjective` | Downloads/my-scripts/calender/mini-calender.py:105 | two keys are equal if and only if their dates are equal (any year, month and day below 100) |
| `Navigation.FromMonthIndex` | Downloads/my-scripts/calender/mini-calender.py:66-80 | every month index names a valid month with that index |
| `Navigation.MonthIndexInjective` | Downloads/my-scripts/calender/mini-calender.py:66-80 | two valid months are equal if and only if their indices are |
| `Navigation.FromMonthIndexOfIndex` | Downloads/my-scripts/calender/mini-calender.py:66-80 | going from a valid month to its index and back returns the same month |
| `Navigation.PrevOf` | Downloads/my-scripts/calender/mini-calender.py:66-73 | `<` keeps the month in 1..12 and lowers the month index by exactly 1; the year changes exactly on the January to December wrap, and then by -1 |
| `Navigation.NextOf` | Downloads/my-scripts/calender/mini-calender.py:75-82 | `>` keeps the month in 1..12 and raises the month index by exactly 1; the year changes exactly on the December to January wrap, and then by +1 |
| `Navigation.StepsFollowMonthIndex` | Downloads/my-scripts/calender/mini-calender.py:66-80 | each step equals the month one index back or forward |
| `Navigation.PrevNextInverse` | Downloads/my-scripts/calender/mini-calender.py:66-80 | `>` after `<`, and `<` after `>`, restore the original (year, month) |
| `Navigation.Forward` | Downloads/my-scripts/calender/mini-calender.py:75-82 | any number of `>` presses leaves the month in 1..12 |
| `Navigation.Backward` | Downloads/my-scripts/calender/mini-calender.py:66-73 | any number of `<` presses leaves the month in 1..12 |
| `Navigation.RepeatedSteps` | Downloads/my-scripts/calender/mini-calender.py:66-82 | n presses of `>` raise the month index by n, and n presses of `<` lower it by n |
| `Navigation.TwelveStepsChangeYear` | Downloads/my-scripts/calender/mini-calender.py:66-82 | twelve presses of `>` (or `<`) show the same month of the next (or previous) year |
| `Layout.MonthGrid` | Downloads/my-scripts/calender/mini-calender.py:114-135 | one render has at most 35 cells, all inside the 5 x 7 grid, and at most one of them is clickable |
| `Layout.EveryDayHasOneCell` | Downloads/my-scripts/calender/mini-calender.py:114-135 | a render has exactly one cell per day of the month, at most 35 in all; day d sits at row (d-1)/7 and column (d-1)%7, shows its number and has the colour stored under its key, or `#555555` when there is none (the `data.get` rule of line 121); no cell shows a day past the month's end |
| `Layout.CellPositionsDistinct` | Downloads/my-scripts/calender/mini-calender.py:117-129 | every cell lies inside the 5 x 7 grid and no two cells share a row and column |
| `Layout.ClickableCellIsToday` | Downloads/my-scripts/calender/mini-calender.py:123-134 | the border is 1 or 2; it is 2 exactly on the clickable cell; a cell is clickable exactly when its day, the displayed month and year are today's; at most one cell per render is clickable |
| `Layout.TodayShownIffTodaysMonth` | Downloads/my-scripts/calender/mini-calender.py:124-134 | some cell is clickable if and only if the displayed month and year are today's |
| `Layout.RecolorTouchesOnlyToday` | Downloads/my-scripts/calender/mini-calender.py:104-121 | after storing a colour under today's key, a render of any month differs from before only in the colour of today's cell, which becomes the stored colour |
| `CalendarWidget.MiniCalendar.constructor` | Downloads/my-scripts/calender/mini-calender.py:35-37 | at startup the displayed month and year are today's and the colour map is the stored one |
| `CalendarWidget.MiniCalendar.PrevMonth` | Downloads/my-scripts/calender/mini-calender.py:66-73 | the displayed month becomes `PrevOf` of the old one, stays in 1..12, and the colour map is unchanged |
| `CalendarWidget.MiniCalendar.NextMonth` | Downloads/my-scripts/calender/mini-calender.py:75-82 | the displayed month becomes `NextOf` of the old one, stays in 1..12, and the colour map is unchanged |
| `CalendarWidget.MiniCalendar.ToggleToday` | Downloads/my-scripts/calender/mini-calender.py:104-106 | the map gets the colour under the key of the real today, not of the displayed month; every other entry, present or absent, is unchanged; the displayed month stays valid |
| `CalendarWidget.MiniCalendar.ClickCell` | Downloads/my-scripts/calender/mini-calender.py:131-134 | a left click on the clickable (today's) cell stores "green" under today's key and a right click stores "red"; a click on any other rendered cell changes nothing; the displayed month stays valid |
| `CalendarWidget.MiniCalendar.UpdateCalendar` | Downloads/my-scripts/calender/mini-calender.py:110-135 | the row-by-row, column-by-column loop with its day counter produces exactly `MonthGrid` of the displayed month: one cell per day, with the layout and colour of `Layout.EveryDayHasOneCell` and the border and clickability of `Layout.ClickableCellIsToday` |

## Left out

- The Tk window setup, widget creation and destruction, fonts and padding (mini-calender.py:28-33, :55-57, :63-64, :88-102, :111-112, :127-129) are GUI toolkit calls. A render is modelled as the sequence of cells it would create.
- Window dragging (`start_move`, `on_move`, mini-calender.py:40-52) depends on window-manager geometry queries, so it is not modelled. Its left-click binding on the window also receives left clicks on every cell; the model covers only the colour bindings of today's cell.
- Loading the JSON file at startup and `save()` (mini-calender.py:16-25) are file I/O. The stored map is a constructor parameter, and the write after each colour change is not modelled. The JSON values are modelled as strings; a file holding other JSON is not modelled. Two error paths are left out with this I/O: a stored colour that Tk rejects makes the label creation at :127-128 raise, so a render stops partway; and a failing `save()` (:107) leaves the map updated but skips the redraw at :108, so the old labels and their bindings stay on screen.
- `close_window` and the event loop (mini-calender.py:84-85, :138) are process lifecycle.
- The header text (`update_header`, mini-calender.py:58-60) is a library table lookup of the month name. The redraws that the buttons and `toggle_today` request (:72-73, :81-82, :108) are not calls in the model: a caller gets the new grid by calling `UpdateCalendar` again.
- The first weekday that `calendar.monthrange` returns is ignored by the source, so it is not modelled either.
- `today` is read from the clock once, at startup (mini-calender.py:35). The model keeps it as a constant, so it does not move forward if the window stays open past midnight, just as in the source.
