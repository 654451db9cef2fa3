/** The mini calendar's state: the real today (read once at startup), the
    displayed month and year, and the colour map from date keys to colours.
    The month buttons step the displayed month, a render lays out the grid,
    and a click on today's cell stores a colour under today's key. */
module CalendarWidget {
  import opened Gregorian
  import opened DateKeys
  import opened Navigation
  import opened Layout

  /** The mouse button of a click on a cell: Button-1 or Button-3. */
  datatype Button = Left | Right

  /** Left click marks a day green, right click red. */
  function ButtonColor(b: Button): string {
    match b
    case Left => "green"
    case Right => "red"
  }

  class MiniCalendar {
    const today: Date
    var currentYear: int
    var currentMonth: int
    var data: map<string, string>

    predicate Valid()
      reads this
    {
      ValidDate(today) && 1 <= currentMonth <= 12
    }

    /** The displayed (year, month). */
    function Displayed(): YearMonth
      reads this
    {
      YearMonth(currentYear, currentMonth)
    }

    /** Today's key, from the real today whatever month is displayed. */
    function TodayKey(): string {
      DateKey(today.year, today.month, today.day)
    }

    /** Startup: `today` comes from the clock and `stored` from the data file. */
    constructor (today: Date, stored: map<string, string>)
      requires ValidDate(today)
      ensures Valid()
      ensures this.today == today && Displayed() == YearMonth(today.year, today.month)
      ensures data == stored
    {
      this.today := today;
      currentYear := today.year;
      currentMonth := today.month;
      data := stored;
    }

    method PrevMonth()
      requires Valid()
      modifies this`currentMonth, this`currentYear
      ensures Valid()
      ensures Displayed() == PrevOf(old(Displayed()))
      ensures data == old(data)
    {
      currentMonth := currentMonth - 1;
      if currentMonth < 1 {
        currentMonth := 12;
        currentYear := currentYear - 1;
      }
    }

    method NextMonth()
      requires Valid()
      modifies this`currentMonth, this`currentYear
      ensures Valid()
      ensures Displayed() == NextOf(old(Displayed()))
      ensures data == old(data)
    {
      currentMonth := currentMonth + 1;
      if currentMonth > 12 {
        currentMonth := 1;
        currentYear := currentYear + 1;
      }
    }

    /** Stores `color` under today's key; every other entry stays as it was. */
    method ToggleToday(color: string)
      requires Valid()
      modifies this`data
      ensures Valid()
      ensures data == old(data)[TodayKey() := color]
      ensures TodayKey() in data && data[TodayKey()] == color
      ensures forall k :: k != TodayKey() ==> (k in data <==> k in old(data))
      ensures forall k :: k != TodayKey() && k in old(data) ==> data[k] == old(data)[k]
    {
      data := data[TodayKey() := color];
    }

    /** A click on a rendered cell: only today's cell has click bindings. */
    method ClickCell(cell: Cell, button: Button)
      requires Valid()
      requires cell in MonthGrid(currentYear, currentMonth, today, data)
      modifies this`data
      ensures Valid()
      ensures data == if cell.clickable then old(data)[TodayKey() := ButtonColor(button)] else old(data)
      ensures cell.clickable && button == Left ==> data == old(data)[TodayKey() := "green"]
      ensures cell.clickable && button == Right ==> data == old(data)[TodayKey() := "red"]
    {
      if cell.clickable {
        ToggleToday(ButtonColor(button));
      }
    }

    /** Lays out the displayed month: for each row and column, while days are
        left, the next day's cell. */
    method UpdateCalendar() returns (cells: seq<Cell>)
      requires Valid()
      ensures cells == MonthGrid(currentYear, currentMonth, today, data)
    {
      var monthDays := DaysInMonth(currentYear, currentMonth);
      var dayCounter := 1;
      cells := [];
      for i := 0 to ROWS
        invariant dayCounter == i * COLS + 1
        invariant |cells| == if dayCounter - 1 < monthDays then dayCounter - 1 else monthDays
        invariant forall k :: 0 <= k < |cells| ==> cells[k] == GridCell(currentYear, currentMonth, today, data, k)
      {
        for j := 0 to COLS
          invariant dayCounter == i * COLS + j + 1
          invariant |cells| == if dayCounter - 1 < monthDays then dayCounter - 1 else monthDays
          invariant forall k :: 0 <= k < |cells| ==> cells[k] == GridCell(currentYear, currentMonth, today, data, k)
        {
          if dayCounter <= monthDays {
            var dayStr := DateKey(currentYear, currentMonth, dayCounter);
            var color := if dayStr in data then data[dayStr] else NEUTRAL;
            var border := 1;
            if dayCounter == today.day && currentMonth == today.month && currentYear == today.year {
              border := 2;
            }
            var clickable := dayCounter == today.day && currentMonth == today.month && currentYear == today.year;
            assert i == (dayCounter - 1) / COLS && j == (dayCounter - 1) % COLS;
            cells := cells + [Cell(i, j, dayCounter, NatToString(dayCounter), color, border, clickable)];
          }
          dayCounter := dayCounter + 1;
        }
      }
    }
  }
}
