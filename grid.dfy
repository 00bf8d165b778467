/**
 The month grid of the calendar: seven columns filled row by row with
 startDay blank cells (startDay is the weekday of the 1st, 0 for Sunday)
 followed by one cell for each day 1..daysInMonth. A day cell carries its
 date, is highlighted when that date is a key of the task store, and shows its
 day number.
 */
module Grid {
  import opened Wrappers
  import opened Store

  /** A cell of the grid: a leading placeholder, or the cell of one day. */
  datatype Cell = Blank | DayCell(day: int, key: DateKey, highlighted: bool)

  /** The highlight test: the date is a key of the store. A JavaScript array is
      truthy even when empty, so the test is presence, not non-emptiness. */
  predicate IsHighlighted(m: TaskMap, key: DateKey) {
    key in m
  }

  /** The cell at position index of the grid. */
  function CellAt(year: int, month: int, startDay: nat, m: TaskMap, index: nat): Cell {
    var day := index - startDay + 1;
    if index < startDay then Blank
    else DayCell(day, DateKey(year, month, day), IsHighlighted(m, DateKey(year, month, day)))
  }

  /** The whole grid: startDay + daysInMonth cells, the first startDay blank,
      and cell i from startDay on showing day i - startDay + 1 of the month, a
      day in 1..daysInMonth, highlighted exactly when its date has an entry. */
  function Cells(year: int, month: int, daysInMonth: nat, startDay: nat, m: TaskMap): (cells: seq<Cell>)
    ensures |cells| == startDay + daysInMonth
    ensures forall i :: 0 <= i < |cells| ==> (cells[i].Blank? <==> i < startDay)
    ensures forall i :: startDay <= i < |cells| ==>
      && 1 <= cells[i].day <= daysInMonth
      && cells[i].day == i - startDay + 1
      && cells[i].key == DateKey(year, month, cells[i].day)
      && (cells[i].highlighted <==> cells[i].key in m)
  {
    seq(startDay + daysInMonth, i requires 0 <= i => CellAt(year, month, startDay, m, i))
  }

  /** The text of a cell: the day number when it lies in 1..daysInMonth,
      nothing otherwise (and nothing for a placeholder). */
  function Label(cell: Cell, daysInMonth: nat): Option<int> {
    match cell
    case Blank => None
    case DayCell(day, _, _) => if day > 0 && day <= daysInMonth then Some(day) else None
  }

  /** Every day cell of the grid shows its own day number: the range test on
      the label never fails for the cells the grid produces. */
  lemma EveryDayLabelled(year: int, month: int, daysInMonth: nat, startDay: nat, m: TaskMap, i: nat)
    requires i < startDay + daysInMonth
    ensures var cell := Cells(year, month, daysInMonth, startDay, m)[i];
      Label(cell, daysInMonth) == if i < startDay then None else Some(cell.day)
  {
  }

  /** The day numbers of the day cells of cells, in grid order. */
  function DayNumbers(cells: seq<Cell>): seq<int> {
    if cells == [] then []
    else (if cells[0].DayCell? then [cells[0].day] else []) + DayNumbers(cells[1..])
  }

  /** When k blank cells are followed only by day cells, the days shown are
      those of the day cells, in order. */
  lemma {:induction false} BlanksThenDays(cells: seq<Cell>, k: nat)
    requires k <= |cells|
    requires forall i :: 0 <= i < k ==> cells[i].Blank?
    requires forall i :: k <= i < |cells| ==> cells[i].DayCell?
    ensures |DayNumbers(cells)| == |cells| - k
    ensures forall j :: 0 <= j < |cells| - k ==> DayNumbers(cells)[j] == cells[k + j].day
  {
    if cells != [] {
      var rest := cells[1..];
      if k > 0 {
        BlanksThenDays(rest, k - 1);
        assert DayNumbers(cells) == DayNumbers(rest);
      } else {
        BlanksThenDays(rest, 0);
        assert DayNumbers(cells) == [cells[0].day] + DayNumbers(rest);
      }
    }
  }

  /** The grid shows the days 1, 2, ..., daysInMonth, each once, in order. */
  lemma DaysInOrder(year: int, month: int, daysInMonth: nat, startDay: nat, m: TaskMap)
    ensures DayNumbers(Cells(year, month, daysInMonth, startDay, m)) == seq(daysInMonth, j => j + 1)
  {
    var cells := Cells(year, month, daysInMonth, startDay, m);
    BlanksThenDays(cells, startDay);
  }

  /** Day d sits at position startDay + d - 1 and nowhere else, carrying the
      key of its date. */
  lemma DayPosition(year: int, month: int, daysInMonth: nat, startDay: nat, m: TaskMap, d: int)
    requires 1 <= d <= daysInMonth
    ensures var cells := Cells(year, month, daysInMonth, startDay, m);
      && cells[startDay + d - 1] == DayCell(d, DateKey(year, month, d), DateKey(year, month, d) in m)
      && forall i :: 0 <= i < |cells| && cells[i].DayCell? && cells[i].day == d ==> i == startDay + d - 1
  {
  }

  /** In a valid store the highlight means exactly "has at least one task". */
  lemma HighlightMeansTasks(m: TaskMap, key: DateKey)
    requires Valid(m)
    ensures IsHighlighted(m, key) <==> |TasksOn(m, key)| >= 1
  {
  }

  /** Adding a task to day d highlights d's cell and changes no other
      cell. */
  lemma AddHighlights(year: int, month: int, daysInMonth: nat, startDay: nat, m: TaskMap, d: int, t: Task)
    requires 1 <= d <= daysInMonth
    ensures var before := Cells(year, month, daysInMonth, startDay, m);
      var after := Cells(year, month, daysInMonth, startDay, Add(m, DateKey(year, month, d), t));
      && after[startDay + d - 1].highlighted
      && forall i :: 0 <= i < |after| && i != startDay + d - 1 ==> after[i] == before[i]
  {
  }

  /** Deleting the only task of day d clears d's highlight and changes no
      other cell. */
  lemma DeleteLastUnhighlights(year: int, month: int, daysInMonth: nat, startDay: nat, m: TaskMap, d: int)
    requires 1 <= d <= daysInMonth
    requires DateKey(year, month, d) in m && |m[DateKey(year, month, d)]| == 1
    ensures var before := Cells(year, month, daysInMonth, startDay, m);
      var after := Cells(year, month, daysInMonth, startDay, Delete(m, DateKey(year, month, d), 0));
      && !after[startDay + d - 1].highlighted
      && forall i :: 0 <= i < |after| && i != startDay + d - 1 ==> after[i] == before[i]
  {
  }
}
