/** What one render of the month grid shows: a 5 x 7 grid filled in row-major
    order with the days 1 .. month length, day 1 always in the first column.
    Each cell shows its day number and the colour stored under its date key
    (or a neutral grey); the cell of the real today has a thicker border and is
    the only cell with click bindings that change colours. */
module Layout {
  import opened Gregorian
  import opened DateKeys

  const ROWS: nat := 5
  const COLS: nat := 7
  /** Colour of a day with no stored entry. */
  const NEUTRAL: string := "#555555"

  /** One day label of the grid. */
  datatype Cell = Cell(row: nat, col: nat, day: nat, text: string, color: string, border: nat, clickable: bool)

  /** Day `d` of month `m` of year `y` is the real today. */
  predicate IsToday(d: int, m: int, y: int, today: Date) {
    d == today.day && m == today.month && y == today.year
  }

  /** The stored colour for a key, or the neutral default (`data.get(key, "#555555")`). */
  function CellColor(data: map<string, string>, key: string): string {
    if key in data then data[key] else NEUTRAL
  }

  /** The cell the `k`-th grid position shows, counted from 0 in row-major order,
      when the month has at least `k + 1` days. */
  function GridCell(y: int, m: nat, today: Date, data: map<string, string>, k: nat): Cell {
    var d := k + 1;
    Cell(k / COLS, k % COLS, d, NatToString(d), CellColor(data, DateKey(y, m, d)),
         if IsToday(d, m, y, today) then 2 else 1, IsToday(d, m, y, today))
  }

  /** The cells of one render of month `m` of year `y`, in placement order. */
  function MonthGrid(y: int, m: nat, today: Date, data: map<string, string>): (g: seq<Cell>)
    requires 1 <= m <= 12
    ensures |g| <= ROWS * COLS
    ensures forall k :: 0 <= k < |g| ==> g[k].row < ROWS && g[k].col < COLS
    ensures forall i, j :: 0 <= i < |g| && 0 <= j < |g| && g[i].clickable && g[j].clickable ==> i == j
  {
    seq(DaysInMonth(y, m), (k: nat) => GridCell(y, m, today, data, k))
  }

  /** Every day of the month has exactly one cell, at row (d-1)/7 and column (d-1)%7,
      inside the 5 x 7 grid, labelled with its own number and coloured with the
      entry stored under its key, or the neutral grey; no cell shows a day
      past the end of the month. */
  lemma EveryDayHasOneCell(y: int, m: nat, today: Date, data: map<string, string>)
    requires 1 <= m <= 12
    ensures var g := MonthGrid(y, m, today, data);
      && |g| == DaysInMonth(y, m) <= ROWS * COLS
      && (forall d :: 1 <= d <= DaysInMonth(y, m) ==>
            && g[d - 1].day == d
            && g[d - 1].row == (d - 1) / COLS && g[d - 1].col == (d - 1) % COLS
            && g[d - 1].text == NatToString(d)
            && g[d - 1].color == (if DateKey(y, m, d) in data then data[DateKey(y, m, d)] else NEUTRAL))
      && (forall k :: 0 <= k < |g| ==> 1 <= g[k].day <= DaysInMonth(y, m))
      && (forall i, j :: 0 <= i < |g| && 0 <= j < |g| && g[i].day == g[j].day ==> i == j)
  {
  }

  /** Every cell lies inside the grid, and no two cells share a position. */
  lemma CellPositionsDistinct(y: int, m: nat, today: Date, data: map<string, string>)
    requires 1 <= m <= 12
    ensures var g := MonthGrid(y, m, today, data);
      && (forall k :: 0 <= k < |g| ==> g[k].row < ROWS && g[k].col < COLS)
      && (forall i, j :: 0 <= i < |g| && 0 <= j < |g| && g[i].row == g[j].row && g[i].col == g[j].col ==> i == j)
  {
  }

  /** The thick border marks exactly the clickable cells, which are exactly the
      cells of today; so at most one cell of a render is clickable. */
  lemma ClickableCellIsToday(y: int, m: nat, today: Date, data: map<string, string>)
    requires 1 <= m <= 12
    ensures var g := MonthGrid(y, m, today, data);
      && (forall k :: 0 <= k < |g| ==> (g[k].border == 2 <==> g[k].clickable))
      && (forall k :: 0 <= k < |g| ==> (g[k].border == 2 || g[k].border == 1))
      && (forall k :: 0 <= k < |g| ==> (g[k].clickable <==> IsToday(g[k].day, m, y, today)))
      && (forall i, j :: 0 <= i < |g| && 0 <= j < |g| && g[i].clickable && g[j].clickable ==> i == j)
  {
  }

  /** A render has a clickable cell exactly when it shows today's month and year. */
  lemma {:induction false} TodayShownIffTodaysMonth(y: int, m: nat, today: Date, data: map<string, string>)
    requires 1 <= m <= 12 && ValidDate(today)
    ensures var g := MonthGrid(y, m, today, data);
      (exists k :: 0 <= k < |g| && g[k].clickable) <==> (y == today.year && m == today.month)
  {
    var g := MonthGrid(y, m, today, data);
    if y == today.year && m == today.month {
      assert g[today.day - 1].clickable;
    }
  }

  /** Storing `color` under today's key changes the colour of today's cell to
      `color` and nothing else in any render. */
  lemma {:induction false} RecolorTouchesOnlyToday(y: int, m: nat, today: Date, data: map<string, string>, color: string)
    requires 1 <= m <= 12 && ValidDate(today)
    ensures var before, after := MonthGrid(y, m, today, data),
                                 MonthGrid(y, m, today, data[DateKey(today.year, today.month, today.day) := color]);
      && |after| == |before|
      && forall k :: 0 <= k < |before| ==>
           after[k] == before[k].(color := if before[k].clickable then color else before[k].color)
  {
    var before := MonthGrid(y, m, today, data);
    var key := DateKey(today.year, today.month, today.day);
    var after := MonthGrid(y, m, today, data[key := color]);
    forall k | 0 <= k < |before|
      ensures after[k] == before[k].(color := if before[k].clickable then color else before[k].color)
    {
      DateKeyInjective(Date(y, m, k + 1), today);
    }
  }
}
