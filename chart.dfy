/**
 * The chart pane of the Gantt widget: the canvas size, the time header
 * (one level of unit cells, or day blocks over hour cells in hours mode)
 * and the position of each task's bar and dependency tag.
 */
module GanttChart {
  import opened Calendar
  import opened Text
  import opened GanttUtils

  // ---------------------------------------------------------------------
  // Canvas
  // ---------------------------------------------------------------------

  /** Units shown on the canvas: the window's unit count, but never fewer than one. */
  function TotalUnits(start: Instant, end: Instant, g: Granularity): (n: nat)
    ensures n >= 1
    ensures start < end ==> n == UnitsBetween(start, end, g)
    ensures end <= start + UnitMs(g) ==> n == 1
  {
    var n := UnitsBetween(start, end, g);
    if n > 1 then n else 1
  }

  /** Canvas width in pixels: whole units, at least one unit wide. */
  function CanvasWidth(start: Instant, end: Instant, g: Granularity): (w: nat)
    ensures w == TotalUnits(start, end, g) * UnitWidth(g)
    ensures w >= UnitWidth(g)
    ensures w % UnitWidth(g) == 0
  {
    TotalUnits(start, end, g) * UnitWidth(g)
  }

  // ---------------------------------------------------------------------
  // Time header
  // ---------------------------------------------------------------------

  datatype Cell = Cell(caption: string, width: nat)

  /** A day block of the hours header: its caption and the hour cells under it, from `firstHour`. */
  datatype DayBlock = DayBlock(caption: string, firstHour: nat, hours: nat)

  datatype Header =
    | SingleLevel(cells: seq<Cell>)
    | TwoLevel(days: seq<DayBlock>, hourCells: seq<Cell>)

  /** Total pixel width of a row of cells. */
  function CellsWidth(cells: seq<Cell>): nat
    decreases |cells|
  {
    if |cells| == 0 then 0 else CellsWidth(cells[..|cells| - 1]) + cells[|cells| - 1].width
  }

  /** The first `n` cells of the single-level header: cell `i` labels the `i`-th unit after `start`. */
  function UnitCells(start: Instant, n: nat, g: Granularity): (cells: seq<Cell>)
    ensures |cells| == n
    ensures forall i :: 0 <= i < n ==> cells[i] == UnitCell(start, i, g)
    ensures forall i :: 0 <= i < n ==> cells[i].width == UnitWidth(g)
  {
    if n == 0 then [] else UnitCells(start, n - 1, g) + [UnitCell(start, n - 1, g)]
  }

  /** Cell `i` of the single-level header: the label of the `i`-th unit after `start`, one unit wide. */
  function UnitCell(start: Instant, i: nat, g: Granularity): (c: Cell)
    ensures c.width == UnitWidth(g)
  {
    CellAt(AddUnits(start, i, g), g)
  }

  /** The header cell of the unit that begins at `t`. */
  function CellAt(t: Instant, g: Granularity): (c: Cell)
    ensures c.width == UnitWidth(g)
  {
    Cell(UnitLabel(t, g), UnitWidth(g))
  }

  /** Cells side by side are as wide as their two groups together. */
  lemma {:induction false} CellsWidthAppend(a: seq<Cell>, b: seq<Cell>)
    ensures CellsWidth(a + b) == CellsWidth(a) + CellsWidth(b)
    decreases |b|
  {
    if |b| > 0 {
      var b' := b[..|b| - 1];
      assert (a + b)[..|a + b| - 1] == a + b';
      CellsWidthAppend(a, b');
    } else {
      assert a + b == a;
    }
  }

  /** A row of cells that are all `w` wide is `|cells| * w` wide. */
  lemma {:induction false} UniformCellsWidth(cells: seq<Cell>, w: nat)
    requires forall i :: 0 <= i < |cells| ==> cells[i].width == w
    ensures CellsWidth(cells) == |cells| * w
    decreases |cells|
  {
    if |cells| > 0 {
      var k := |cells| - 1;
      UniformCellsWidth(cells[..k], w);
      MulShift(k, 1, w);
    }
  }

  /** The single-level header is exactly as wide as `n` units. */
  lemma UnitCellsWidth(start: Instant, n: nat, g: Granularity)
    ensures CellsWidth(UnitCells(start, n, g)) == n * UnitWidth(g)
  {
    UniformCellsWidth(UnitCells(start, n, g), UnitWidth(g));
  }

  /** One more cell, labelled at the cursor of the `i`-th unit, extends the header by one unit. */
  lemma UnitCellsStep(start: Instant, i: nat, g: Granularity, cursor: Instant)
    requires cursor == AddUnits(start, i, g)
    ensures UnitCells(start, i + 1, g) == UnitCells(start, i, g) + [CellAt(cursor, g)]
  {
  }

  /**
   * The single-level loop: a cursor starts at the window start and moves one
   * unit per cell, for as many cells as the canvas has units.
   */
  method BuildSingleLevel(start: Instant, end: Instant, g: Granularity) returns (cells: seq<Cell>)
    ensures cells == UnitCells(start, TotalUnits(start, end, g), g)
    ensures CellsWidth(cells) == CanvasWidth(start, end, g)
  {
    var total := TotalUnits(start, end, g);
    var cursor := start;
    cells := [];
    for i := 0 to total
      invariant cursor == AddUnits(start, i, g)
      invariant cells == UnitCells(start, i, g)
    {
      UnitCellsStep(start, i, g, cursor);
      cells := cells + [CellAt(cursor, g)];
      AddUnitsCompose(start, i, 1, g);
      cursor := AddUnits(cursor, 1, g);
    }
    UnitCellsWidth(start, total, g);
  }

  // Hours mode: day blocks clipped at the window end.

  /** `new Date(year, month, date)` from the cursor's own fields: its local midnight. */
  function MidnightOf(c: Instant): Instant {
    LocalDate(GetFullYear(c), GetMonth(c), GetDate(c), 0)
  }

  /** Instants from year 100 on, where `new Date(y, m, d)` takes the year as given. */
  predicate AfterYear99(t: Instant) {
    t >= YearStart(100) * MS_PER_DAY
  }

  lemma AfterYear99Year(t: Instant)
    requires AfterYear99(t)
    ensures GetFullYear(t) > 99
  {
    var d := Day(t);
    CivilYear(d);
    var y := GetFullYear(t);
    assert d >= YearStart(100);
    if y <= 99 {
      YearStartMonotone(y + 1, 100);
    }
  }

  /** Minutes, seconds and milliseconds are all zero. */
  predicate OnTheHour(t: Instant) {
    TimeWithinDay(t) % MS_PER_HOUR == 0
  }

  /** An instant on the hour lies a whole number of hours after the start of its day. */
  lemma OnTheHourShift(t: Instant)
    requires OnTheHour(t)
    ensures t == AddUnits(StartOfDay(t), GetHours(t), Hours)
  {
    var w := TimeWithinDay(t);
    assert w == (w / MS_PER_HOUR) * MS_PER_HOUR;
  }

  /** From year 100 on, the cursor's midnight is the start of its day. */
  lemma MidnightIsStartOfDay(c: Instant)
    requires AfterYear99(c)
    ensures MidnightOf(c) == StartOfDay(c)
  {
    AfterYear99Year(c);
    MakeDayOfCivil(Day(c));
    assert MidnightOf(c) == MakeDate(Day(c), 0);
  }

  /**
   * The next midnight is always after the cursor, even for years 0 to 99,
   * whose `new Date(y, m, d)` lands in 1900 to 1999.
   */
  lemma NextMidnightAfter(c: Instant)
    ensures AddUnits(MidnightOf(c), 1, Days) > c
  {
    var y := GetFullYear(c);
    if 0 <= y <= 99 {
      EarlyMidnightAfter(c);
    } else {
      MakeDayOfCivil(Day(c));
      assert MidnightOf(c) == MakeDate(Day(c), 0);
    }
  }

  /** For years 0 to 99 the midnight lands in 1900 to 1999, which is later still. */
  lemma EarlyMidnightAfter(c: Instant)
    requires 0 <= GetFullYear(c) <= 99
    ensures MidnightOf(c) > c
  {
    var d := MakeDay(1900 + GetFullYear(c), GetMonth(c), GetDate(c));
    EarlyMidnightDay(c);
    MulLe(Day(c) + 1, d, MS_PER_DAY);
    assert MidnightOf(c) == d * MS_PER_DAY;
  }

  lemma EarlyMidnightDay(c: Instant)
    requires 0 <= GetFullYear(c) <= 99
    ensures Day(c) < MakeDay(1900 + GetFullYear(c), GetMonth(c), GetDate(c))
  {
    var y := GetFullYear(c);
    var civil := CivilFromDay(Day(c));
    CivilYear(Day(c));
    DaysBeforeMonthMonotone(1900 + y, 0, civil.month);
    assert civil.month / 12 == 0 && civil.month % 12 == civil.month;
    assert MakeDay(1900 + y, civil.month, civil.date) >= YearStart(1900 + y);
    YearStartMonotone(y + 1, 100);
    YearStartMonotone(100, 1900 + y);
  }

  /** `nextDay`: the midnight one day after the cursor's midnight. */
  function NextMidnight(c: Instant): (r: Instant)
    ensures r > c
  {
    NextMidnightAfter(c);
    AddUnits(MidnightOf(c), 1, Days)
  }

  /** `dayEnd`: the next midnight, or the window end if that comes first. */
  function DayEnd(c: Instant, end: Instant): (r: Instant)
    requires c < end
    ensures c < r <= end
  {
    if NextMidnight(c) < end then NextMidnight(c) else end
  }

  /** The block label: the midnight's date as "YYYY-MM-DD". */
  function BlockLabel(c: Instant): string {
    var m := MidnightOf(c);
    DateText(GetFullYear(m), GetMonth(m) + 1, GetDate(m))
  }

  /**
   * The day blocks as written: each block counts its hour cells from the
   * day's midnight, not from the cursor, and numbers them from "00".
   */
  function HourBlocksAsWritten(c: Instant, end: Instant): seq<DayBlock>
    decreases end - c
  {
    if c >= end then []
    else
      [BlockAsWritten(c, DayEnd(c, end))] + HourBlocksAsWritten(DayEnd(c, end), end)
  }

  /** The block as written for the clipped day from `c` to `dayEnd`: hours counted from the midnight. */
  function BlockAsWritten(c: Instant, dayEnd: Instant): (b: DayBlock)
    ensures b.firstHour == 0 && b.hours == UnitsBetween(MidnightOf(c), dayEnd, Hours)
  {
    DayBlock(BlockLabel(c), 0, UnitsBetween(MidnightOf(c), dayEnd, Hours))
  }

  /**
   * The day blocks as evidently intended: each block counts its hour cells
   * from the cursor and numbers them from the cursor's hour, so the hour
   * cells line up with the canvas units.
   */
  function HourBlocks(c: Instant, end: Instant): seq<DayBlock>
    decreases end - c
  {
    if c >= end then []
    else
      [BlockFrom(c, DayEnd(c, end))] + HourBlocks(DayEnd(c, end), end)
  }

  /** The block for the clipped day from `c` to `dayEnd`, its hours counted from the cursor. */
  function BlockFrom(c: Instant, dayEnd: Instant): (b: DayBlock)
    ensures b.firstHour == GetHours(c) && b.hours == UnitsBetween(c, dayEnd, Hours)
  {
    DayBlock(BlockLabel(c), GetHours(c), UnitsBetween(c, dayEnd, Hours))
  }

  /** The first `h` hour cells of a block, labelled with two-digit hours from its first hour. */
  function BlockCellsUpTo(b: DayBlock, h: nat): (cells: seq<Cell>)
    ensures |cells| == h
    ensures forall i :: 0 <= i < h ==> cells[i] == HourCell(b, i)
    ensures forall i :: 0 <= i < h ==> cells[i].width == UnitWidth(Hours)
  {
    if h == 0 then [] else BlockCellsUpTo(b, h - 1) + [HourCell(b, h - 1)]
  }

  /** Hour cell `i` of a block: its hour as two digits, one hour wide. */
  function HourCell(b: DayBlock, i: nat): (c: Cell)
    ensures c.caption == Pad2(b.firstHour + i)
    ensures c.width == UnitWidth(Hours)
  {
    Cell(Pad2(b.firstHour + i), UnitWidth(Hours))
  }

  /** The hour cells of one block. */
  function BlockCells(b: DayBlock): (cells: seq<Cell>)
    ensures |cells| == b.hours
  {
    BlockCellsUpTo(b, b.hours)
  }

  /** The bottom row of the hours header: every block's hour cells, in order. */
  function HourCells(days: seq<DayBlock>): (cells: seq<Cell>)
    ensures forall i :: 0 <= i < |cells| ==> cells[i].width == UnitWidth(Hours)
    decreases |days|
  {
    if |days| == 0 then [] else HourCells(days[..|days| - 1]) + BlockCells(days[|days| - 1])
  }

  /** Total number of hour cells under a row of day blocks. */
  function TotalHours(days: seq<DayBlock>): nat
    decreases |days|
  {
    if |days| == 0 then 0 else days[0].hours + TotalHours(days[1..])
  }

  lemma {:induction false} TotalHoursAppend(a: seq<DayBlock>, b: DayBlock)
    ensures TotalHours(a + [b]) == TotalHours(a) + b.hours
    decreases |a|
  {
    if |a| > 0 {
      assert (a + [b])[1..] == a[1..] + [b];
      TotalHoursAppend(a[1..], b);
    }
  }

  /** The bottom row has one cell per hour counted in the top row, each one hour wide. */
  lemma {:induction false} HourCellsCount(days: seq<DayBlock>)
    ensures |HourCells(days)| == TotalHours(days)
    ensures CellsWidth(HourCells(days)) == TotalHours(days) * UnitWidth(Hours)
    decreases |days|
  {
    if |days| > 0 {
      var init, last := days[..|days| - 1], days[|days| - 1];
      assert days == init + [last];
      HourCellsCount(init);
      TotalHoursAppend(init, last);
    }
    UniformCellsWidth(HourCells(days), UnitWidth(Hours));
  }

  lemma HourBlocksAsWrittenUnfold(c: Instant, end: Instant)
    requires c < end
    ensures HourBlocksAsWritten(c, end)
            == [BlockAsWritten(c, DayEnd(c, end))] + HourBlocksAsWritten(DayEnd(c, end), end)
  {
  }

  /** One step of the hours loop: the blocks emitted so far and the rest from the new cursor. */
  lemma HourBlocksStep(days: seq<DayBlock>, cursor: Instant, start: Instant, end: Instant)
    requires cursor < end && days + HourBlocksAsWritten(cursor, end) == HourBlocksAsWritten(start, end)
    ensures (days + [BlockAsWritten(cursor, DayEnd(cursor, end))]) + HourBlocksAsWritten(DayEnd(cursor, end), end)
            == HourBlocksAsWritten(start, end)
  {
    HourBlocksAsWrittenUnfold(cursor, end);
    ConcatAssoc(days, [BlockAsWritten(cursor, DayEnd(cursor, end))], HourBlocksAsWritten(DayEnd(cursor, end), end));
  }

  lemma ConcatAssoc<T>(a: seq<T>, b: seq<T>, c: seq<T>)
    ensures a + (b + c) == (a + b) + c
  {
  }

  /** Adding a block adds its hour cells at the end of the bottom row. */
  lemma HourCellsSnoc(days: seq<DayBlock>, block: DayBlock)
    ensures HourCells(days + [block]) == HourCells(days) + BlockCells(block)
  {
    assert (days + [block])[..|days|] == days;
  }

  /** The inner loop of the hours header: one cell per hour of the block, numbered from its first hour. */
  method AppendHourCells(cells: seq<Cell>, block: DayBlock) returns (r: seq<Cell>)
    ensures r == cells + BlockCells(block)
  {
    r := cells;
    for h := 0 to block.hours
      invariant r == cells + BlockCellsUpTo(block, h)
    {
      r := r + [HourCell(block, h)];
    }
  }

  /**
   * The hours-mode loop: a cursor walks from the window start to its end,
   * one clipped day at a time, emitting a day block whose hours are counted
   * from the day's midnight, and that many hour cells numbered from "00".
   */
  method BuildHourBlocks(start: Instant, end: Instant) returns (days: seq<DayBlock>, hourCells: seq<Cell>)
    ensures days == HourBlocksAsWritten(start, end)
    ensures hourCells == HourCells(days)
  {
    var cursor := start;
    days, hourCells := [], [];
    while cursor < end
      invariant days + HourBlocksAsWritten(cursor, end) == HourBlocksAsWritten(start, end)
      invariant hourCells == HourCells(days)
      decreases end - cursor
    {
      var dayEnd := DayEnd(cursor, end);
      var block := BlockAsWritten(cursor, dayEnd);
      HourBlocksStep(days, cursor, start, end);
      HourCellsSnoc(days, block);
      hourCells := AppendHourCells(hourCells, block);
      days := days + [block];
      cursor := dayEnd;
    }
  }

  /** Day blocks hold between 1 and 24 hour cells; a day that does not reach the window end holds 24. */
  lemma HourBlockAsWrittenSize(c: Instant, end: Instant)
    requires c < end && AfterYear99(c)
    ensures var n := UnitsBetween(MidnightOf(c), DayEnd(c, end), Hours);
            1 <= n <= 24 && (NextMidnight(c) <= end ==> n == 24)
  {
    MidnightIsStartOfDay(c);
    UnitsBetweenMonotone(MidnightOf(c), DayEnd(c, end), NextMidnight(c), Hours);
    assert UnitsBetween(MidnightOf(c), NextMidnight(c), Hours) == 24;
  }

  /**
   * Counted from the cursor, a day block holds between 1 and `24 - hour`
   * cells, exactly that many when the day does not reach the window end,
   * and its cells are numbered from the cursor's hour.
   */
  lemma HourBlockSize(c: Instant, end: Instant)
    requires c < end && AfterYear99(c)
    ensures var n := UnitsBetween(c, DayEnd(c, end), Hours);
            1 <= n <= 24 - GetHours(c) && (NextMidnight(c) <= end ==> n == 24 - GetHours(c))
  {
    MidnightIsStartOfDay(c);
    UnitsBetweenMonotone(c, DayEnd(c, end), NextMidnight(c), Hours);
    var w := TimeWithinDay(c);
    assert NextMidnight(c) - c == MS_PER_DAY - w;
    assert UnitsBetween(c, NextMidnight(c), Hours) == 24 - w / MS_PER_HOUR;
  }

  /** The next midnight starts the following day. */
  lemma NextMidnightDay(c: Instant)
    requires AfterYear99(c)
    ensures NextMidnight(c) == StartOfDay(c) + MS_PER_DAY
    ensures Day(NextMidnight(c)) == Day(c) + 1
    ensures StartOfDay(NextMidnight(c)) == NextMidnight(c)
  {
    MidnightIsStartOfDay(c);
    var d := Day(c);
    assert NextMidnight(c) == d * MS_PER_DAY + MS_PER_DAY;
    DayOfMakeDate(d + 1, 0);
    MulShift(d, 1, MS_PER_DAY);
  }

  /** The hours header has one block per calendar day the window touches. */
  lemma {:induction false} HourBlocksCount(c: Instant, end: Instant)
    requires c < end && AfterYear99(c)
    ensures |HourBlocks(c, end)| == Day(end - 1) - Day(c) + 1
    ensures |HourBlocksAsWritten(c, end)| == |HourBlocks(c, end)|
    decreases end - c
  {
    NextMidnightDay(c);
    var next := DayEnd(c, end);
    HourBlocksLengthStep(c, end);
    if next < end {
      HourBlocksCount(next, end);
    } else {
      DayOfRange(end - 1, Day(c));
    }
  }

  /** Each step of the walk emits one block, in both versions. */
  lemma HourBlocksLengthStep(c: Instant, end: Instant)
    requires c < end
    ensures |HourBlocks(c, end)| == 1 + |HourBlocks(DayEnd(c, end), end)|
    ensures |HourBlocksAsWritten(c, end)| == 1 + |HourBlocksAsWritten(DayEnd(c, end), end)|
  {
  }

  /**
   * As written, the hour cells add up to the hours from the first day's
   * midnight to the window end.
   */
  lemma {:induction false} HourBlocksAsWrittenTotal(c: Instant, end: Instant)
    requires c < end && AfterYear99(c)
    ensures TotalHours(HourBlocksAsWritten(c, end)) == UnitsBetween(StartOfDay(c), end, Hours)
    decreases end - c
  {
    var next := DayEnd(c, end);
    if next < end {
      AsWrittenFullDay(c, end);
      HourBlocksAsWrittenTotal(next, end);
      UnitsBetweenAligned(StartOfDay(c), 24, end, Hours);
    } else {
      MidnightIsStartOfDay(c);
      assert HourBlocksAsWritten(c, end) == [BlockAsWritten(c, next)];
    }
  }

  /** A day that ends before the window does holds 24 hour cells as written, and the walk goes on from its midnight. */
  lemma AsWrittenFullDay(c: Instant, end: Instant)
    requires c < end && AfterYear99(c) && DayEnd(c, end) < end
    ensures var next := DayEnd(c, end);
            next == AddUnits(StartOfDay(c), 24, Hours) && AfterYear99(next) && StartOfDay(next) == next
            && TotalHours(HourBlocksAsWritten(c, end)) == 24 + TotalHours(HourBlocksAsWritten(next, end))
  {
    NextMidnightDay(c);
    HourBlockAsWrittenSize(c, end);
    var next := DayEnd(c, end);
    var rest := HourBlocksAsWritten(next, end);
    assert HourBlocksAsWritten(c, end) == [BlockAsWritten(c, next)] + rest;
    assert ([BlockAsWritten(c, next)] + rest)[1..] == rest;
  }


  /** Counted from the cursor, the hour cells add up to the hours of the window. */
  lemma {:induction false} HourBlocksTotal(c: Instant, end: Instant)
    requires c < end && AfterYear99(c) && OnTheHour(c)
    ensures TotalHours(HourBlocks(c, end)) == UnitsBetween(c, end, Hours)
    decreases end - c
  {
    NextMidnightDay(c);
    var next := DayEnd(c, end);
    if next < end {
      var k := 24 - GetHours(c);
      OnTheHourShift(c);
      assert AddUnits(c, k, Hours) == next;
      assert TimeWithinDay(next) == 0;
      HourBlocksTotal(next, end);
      UnitsBetweenAddUnits(c, k, Hours);
      UnitsBetweenAligned(c, k, end, Hours);
    }
  }

  /**
   * As written, a window starting on the hour `h` gets `h` more hour cells
   * than the canvas has units.
   */
  lemma HourHeaderAsWrittenOverflow(start: Instant, end: Instant)
    requires start < end && AfterYear99(start) && OnTheHour(start)
    ensures TotalHours(HourBlocksAsWritten(start, end)) == TotalUnits(start, end, Hours) + GetHours(start)
  {
    HourBlocksAsWrittenTotal(start, end);
    OnTheHourShift(start);
    UnitsBetweenAligned(StartOfDay(start), GetHours(start), end, Hours);
  }

  /**
   * A task from January 1 to January 3 of year `y + 1` gives, in hours mode,
   * the window from December 31 of year `y`, 23:00, to January 3, 01:00:
   * the canvas has 50 hour units, the header as written 73 hour cells.
   */
  lemma HourHeaderAsWrittenExample(y: int, start: Instant, end: Instant)
    requires y > 99 && start == LocalDate(y, 11, 31, 23) && end == LocalDate(y + 1, 0, 3, 1)
    ensures TotalUnits(start, end, Hours) == 50
    ensures TotalHours(HourBlocksAsWritten(start, end)) == 73
  {
    var d := MakeDay(y, 11, 31);
    YearEndDays(y);
    assert start == MakeDate(d, 23) && end == MakeDate(d + 3, 1);
    DayOfMakeDate(d, 23);
    MulShift(d, 3, MS_PER_DAY);
    assert end == AddUnits(start, 50, Hours);
    UnitsBetweenAddUnits(start, 50, Hours);
    MulLe(YearStart(100), d, MS_PER_DAY);
    HourHeaderAsWrittenOverflow(start, end);
  }

  /** January 3 of the next year is three days after December 31, which comes after the year 99. */
  lemma YearEndDays(y: int)
    requires y > 99
    ensures MakeDay(y + 1, 0, 3) == MakeDay(y, 11, 31) + 3
    ensures MakeDay(y, 11, 31) >= YearStart(100)
  {
    assert MakeDay(y, 11, 31) == YearStart(y) + DaysBeforeMonth(y, 11) + 30;
    assert DaysBeforeMonth(y, 12) == DaysBeforeMonth(y, 11) + 31;
    MonthsFillYear(y);
    YearStartStep(y);
    YearStartMonotone(100, y);
  }

  /** Counted from the cursor, an hour-aligned window's hour cells fill the canvas exactly. */
  lemma HourHeaderFillsCanvas(start: Instant, end: Instant)
    requires start < end && AfterYear99(start) && OnTheHour(start)
    ensures |HourCells(HourBlocks(start, end))| == TotalUnits(start, end, Hours)
    ensures CellsWidth(HourCells(HourBlocks(start, end))) == CanvasWidth(start, end, Hours)
  {
    HourBlocksTotal(start, end);
    HourCellsCount(HourBlocks(start, end));
  }

  /** Builds the header of a window: the hours loop in hours mode, the single-level loop otherwise. */
  method BuildHeader(start: Instant, end: Instant, g: Granularity) returns (header: Header)
    ensures header == HeaderFor(start, end, g)
  {
    if g == Hours {
      var days, hourCells := BuildHourBlocks(start, end);
      header := TwoLevel(days, hourCells);
    } else {
      var cells := BuildSingleLevel(start, end, g);
      header := SingleLevel(cells);
    }
  }

  /** The header for a window: hour blocks as written in hours mode, one cell per unit otherwise. */
  function HeaderFor(start: Instant, end: Instant, g: Granularity): Header {
    match g
    case Hours => TwoLevel(HourBlocksAsWritten(start, end), HourCells(HourBlocksAsWritten(start, end)))
    case _ => SingleLevel(UnitCells(start, TotalUnits(start, end, g), g))
  }

  // ---------------------------------------------------------------------
  // Bars
  // ---------------------------------------------------------------------

  datatype Tag = Tag(text: string, left: int, top: int)

  datatype Bar = Bar(left: int, width: int, top: int, height: int, tag: Option<Tag>)

  /** Bar height: eight pixels less than the row, but never under 20. */
  function BarHeight(rowHeight: int): (h: int)
    ensures h >= 20 && h >= rowHeight - 8
    ensures h == 20 || h == rowHeight - 8
  {
    if rowHeight - 8 > 20 then rowHeight - 8 else 20
  }

  /**
   * The bar of task `t` in row `idx`: offset and length in whole units of
   * the window, at least 6 pixels wide, 4 pixels below its row's top, with
   * a tag 6 pixels after it when the task names a dependency.
   */
  function BarFor(timelineStart: Instant, t: Task, idx: nat, rowHeight: int, g: Granularity): (b: Bar)
    ensures b.left == UnitsBetween(timelineStart, t.start, g) * UnitWidth(g) && b.left >= 0
    ensures b.width == Max(UnitsBetween(t.start, t.end, g) * UnitWidth(g), 6) && b.width >= 6
    ensures b.top == idx * rowHeight + 4 && b.height == BarHeight(rowHeight)
    ensures b.tag.Some? <==> t.dependency != ""
    ensures b.tag.Some? ==> b.tag.value.text == t.dependency
                            && b.tag.value.left == b.left + b.width + 6
                            && b.tag.value.top == b.top
  {
    var unitW := UnitWidth(g);
    var offsetUnits := UnitsBetween(timelineStart, t.start, g);
    var lengthUnits := UnitsBetween(t.start, t.end, g);
    var left := offsetUnits * unitW;
    var width := if lengthUnits * unitW > 6 then lengthUnits * unitW else 6;
    var top := idx * rowHeight + 4;
    Bar(left, width, top, BarHeight(rowHeight),
        if t.dependency != "" then Some(Tag(t.dependency, left + width + 6, top)) else None)
  }

  function Bars(timelineStart: Instant, tasks: seq<Task>, rowHeight: int, g: Granularity): (bars: seq<Bar>)
    ensures |bars| == |tasks|
    ensures forall i :: 0 <= i < |tasks| ==> bars[i] == BarFor(timelineStart, tasks[i], i, rowHeight, g)
  {
    seq(|tasks|, i requires 0 <= i < |tasks| => BarFor(timelineStart, tasks[i], i, rowHeight, g))
  }

  /**
   * A bar starting `i` units into the window and ending `j` units into it
   * spans header cells `i` to `j - 1`: its left edge is cell `i`'s left
   * edge and its right edge is cell `j`'s.
   */
  lemma BarAlignsWithCells(timelineStart: Instant, t: Task, idx: nat, rowHeight: int, g: Granularity, i: nat, j: nat)
    requires t.start == AddUnits(timelineStart, i, g) && t.end == AddUnits(timelineStart, j, g) && i < j
    ensures var b := BarFor(timelineStart, t, idx, rowHeight, g);
            b.left == CellsWidth(UnitCells(timelineStart, i, g))
            && b.left + b.width == CellsWidth(UnitCells(timelineStart, j, g))
  {
    var w := UnitWidth(g);
    UnitsBetweenAddUnits(timelineStart, i, g);
    AddUnitsCompose(timelineStart, i, j - i, g);
    var k: nat := j - i;
    UnitsBetweenAddUnits(t.start, k, g);
    assert AddUnits(t.start, k, g) == t.end;
    UnitCellsWidth(timelineStart, i, g);
    UnitCellsWidth(timelineStart, j, g);
    MulLe(1, j - i, w);
    MulShift(i, j - i, w);
  }

  /** A bar stays inside its own row exactly when rows are at least 24 pixels high. */
  lemma BarWithinRow(timelineStart: Instant, t: Task, idx: nat, rowHeight: int, g: Granularity)
    ensures var b := BarFor(timelineStart, t, idx, rowHeight, g);
            idx * rowHeight <= b.top && (b.top + b.height <= (idx + 1) * rowHeight <==> rowHeight >= 24)
  {
  }

  /** A bar lies inside a window of `n` units when its task starts and ends inside it and has at least one unit left after its start. */
  lemma BarWithinCanvas(timelineStart: Instant, timelineEnd: Instant, t: Task, idx: nat, rowHeight: int, g: Granularity)
    requires timelineStart < t.start <= t.end
    requires AddUnits(t.end, 1, g) <= timelineEnd
    ensures var b := BarFor(timelineStart, t, idx, rowHeight, g);
            b.left + b.width <= CanvasWidth(timelineStart, timelineEnd, g)
  {
    var s, e := timelineStart, timelineEnd;
    var w := UnitWidth(g);
    var offset := UnitsBetween(s, t.start, g);
    var len := UnitsBetween(t.start, t.end, g);
    var total := TotalUnits(s, e, g);
    UnitsBetweenPlusUnit(s, t.end, g);
    UnitsBetweenMonotone(s, AddUnits(t.end, 1, g), e, g);
    assert UnitsBetween(s, t.end, g) + 1 <= total;
    if t.start < t.end {
      UnitsBetweenSplit(s, t.start, t.end, g);
      MulLe(1, len, w);
      MulLe(offset + len, total, w);
      MulShift(offset, len, w);
    } else {
      MulLe(offset + 1, total, w);
      MulShift(offset, 1, w);
    }
  }

  // ---------------------------------------------------------------------
  // The chart
  // ---------------------------------------------------------------------

  /**
   * The chart's state: the tasks and granularity it was last given, and the
   * canvas, header and bars built from them for a window.
   */
  class Chart {
    var tasks: seq<Task>
    var granularity: Granularity
    var rowHeight: int
    var canvasWidth: nat
    var canvasHeight: int
    var header: Header
    var bars: seq<Bar>

    /** The canvas, header and bars are the ones for the window from `start` to `end`. */
    predicate Shows(start: Instant, end: Instant)
      reads this
    {
      canvasWidth == CanvasWidth(start, end, granularity)
      && header == HeaderFor(start, end, granularity)
      && bars == Bars(start, tasks, rowHeight, granularity)
    }

    /** `createGanttChart`: the canvas is as tall as the rows, then the timeline and bars are built. */
    constructor(tasks: seq<Task>, granularity: Granularity, rowHeight: int, start: Instant, end: Instant)
      ensures this.tasks == tasks && this.granularity == granularity && this.rowHeight == rowHeight
      ensures canvasHeight == |tasks| * rowHeight
      ensures Shows(start, end)
    {
      this.tasks := tasks;
      this.granularity := granularity;
      this.rowHeight := rowHeight;
      canvasHeight := |tasks| * rowHeight;
      new;
      BuildTimeline(start, end);
      BuildBars(start);
    }

    /** `buildTimeline`: sizes the canvas and rebuilds the header. */
    method BuildTimeline(start: Instant, end: Instant)
      modifies this
      ensures canvasWidth == CanvasWidth(start, end, granularity)
      ensures header == HeaderFor(start, end, granularity)
      ensures unchanged(this`tasks, this`granularity, this`rowHeight, this`canvasHeight, this`bars)
    {
      var g := granularity;
      var h := BuildHeader(start, end, g);
      canvasWidth, header := CanvasWidth(start, end, g), h;
    }

    /** `buildBars`: one bar per task, in task order. */
    method BuildBars(start: Instant)
      modifies this
      ensures bars == Bars(start, tasks, rowHeight, granularity)
      ensures unchanged(this`tasks, this`granularity, this`rowHeight, this`canvasWidth, this`canvasHeight, this`header)
    {
      bars := Bars(start, tasks, rowHeight, granularity);
    }

    /** `refresh`: takes the new tasks and granularity and rebuilds timeline and bars. */
    method Refresh(newTasks: seq<Task>, newGranularity: Granularity, start: Instant, end: Instant)
      modifies this
      ensures tasks == newTasks && granularity == newGranularity
      ensures rowHeight == old(rowHeight) && canvasHeight == old(canvasHeight)
      ensures Shows(start, end)
    {
      tasks := newTasks;
      granularity := newGranularity;
      BuildTimeline(start, end);
      BuildBars(start);
    }
  }
}
