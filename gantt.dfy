/**
 * The `Gantt` coordinator: it owns the task list and the granularity,
 * derives the visible window from the tasks, and keeps the table, the
 * chart and the canvas height in step after every change.
 */
module GanttCoordinator {
  import opened Calendar
  import opened Text
  import opened GanttUtils
  import opened GanttChart
  import opened GanttTable
  import opened GanttDivider

  const DEFAULT_ROW_HEIGHT: int := 32

  /** The minimums the coordinator passes to the divider drag. */
  const PANE_MIN_LEFT: int := 280
  const PANE_MIN_RIGHT: int := 300

  // ---------------------------------------------------------------------
  // The visible window
  // ---------------------------------------------------------------------

  /** The `reduce` of `_getTimelineStart`: the earliest start. */
  function MinStart(tasks: seq<Task>): (m: Instant)
    requires |tasks| > 0
    ensures forall i :: 0 <= i < |tasks| ==> m <= tasks[i].start
    ensures exists i :: 0 <= i < |tasks| && m == tasks[i].start
  {
    if |tasks| == 1 then tasks[0].start
    else
      var m := MinStart(tasks[..|tasks| - 1]);
      var last := tasks[|tasks| - 1].start;
      assert forall i :: 0 <= i < |tasks| - 1 ==> tasks[..|tasks| - 1][i] == tasks[i];
      if last < m then last else m
  }

  /** The `reduce` of `_getTimelineEnd`: the latest end. */
  function MaxEnd(tasks: seq<Task>): (m: Instant)
    requires |tasks| > 0
    ensures forall i :: 0 <= i < |tasks| ==> tasks[i].end <= m
    ensures exists i :: 0 <= i < |tasks| && m == tasks[i].end
  {
    if |tasks| == 1 then tasks[0].end
    else
      var m := MaxEnd(tasks[..|tasks| - 1]);
      var last := tasks[|tasks| - 1].end;
      assert forall i :: 0 <= i < |tasks| - 1 ==> tasks[..|tasks| - 1][i] == tasks[i];
      if last > m then last else m
  }

  /**
   * `_getTimelineStart`: now when there are no tasks, otherwise one unit
   * before the earliest start, so every task starts inside the window.
   */
  function TimelineStart(tasks: seq<Task>, g: Granularity, now: Instant): (s: Instant)
    ensures |tasks| == 0 ==> s == now
    ensures |tasks| > 0 ==> s == MinStart(tasks) - UnitMs(g)
    ensures forall i :: 0 <= i < |tasks| ==> s < tasks[i].start
  {
    if |tasks| == 0 then now else AddUnits(MinStart(tasks), -1, g)
  }

  /**
   * `_getTimelineEnd`: ten units after now when there are no tasks,
   * otherwise one unit after the latest end, so every task ends inside the
   * window.
   */
  function TimelineEnd(tasks: seq<Task>, g: Granularity, now: Instant): (e: Instant)
    ensures |tasks| == 0 ==> e == now + 10 * UnitMs(g) && UnitsBetween(now, e, g) == 10
    ensures |tasks| > 0 ==> e == MaxEnd(tasks) + UnitMs(g)
    ensures forall i :: 0 <= i < |tasks| ==> AddUnits(tasks[i].end, 1, g) <= e
  {
    if |tasks| == 0 then
      UnitsBetweenAddUnits(now, 10, g);
      AddUnits(now, 10, g)
    else AddUnits(MaxEnd(tasks), 1, g)
  }

  /**
   * The window is padded by exactly one unit on each side: the earliest
   * task starts one unit after the window starts and the latest task ends
   * one unit before it ends.
   */
  lemma {:induction false} WindowPadding(tasks: seq<Task>, g: Granularity, now: Instant)
    requires |tasks| > 0
    ensures exists i :: 0 <= i < |tasks| && TimelineStart(tasks, g, now) + UnitMs(g) == tasks[i].start
                        && UnitsBetween(TimelineStart(tasks, g, now), tasks[i].start, g) == 1
    ensures exists j :: 0 <= j < |tasks| && tasks[j].end + UnitMs(g) == TimelineEnd(tasks, g, now)
                        && UnitsBetween(tasks[j].end, TimelineEnd(tasks, g, now), g) == 1
  {
    var lo, hi := MinStart(tasks), MaxEnd(tasks);
    var i :| 0 <= i < |tasks| && lo == tasks[i].start;
    var j :| 0 <= j < |tasks| && hi == tasks[j].end;
    AddUnitsRoundTrip(lo, -1, g);
    UnitsBetweenAddUnits(AddUnits(lo, -1, g), 1, g);
    UnitsBetweenAddUnits(hi, 1, g);
  }

  /**
   * When no task is inverted, every bar of the chart lies inside its
   * canvas.
   */
  lemma BarsInsideWindow(tasks: seq<Task>, g: Granularity, now: Instant, rowHeight: int)
    requires forall i :: 0 <= i < |tasks| ==> tasks[i].start <= tasks[i].end
    ensures var s, e := TimelineStart(tasks, g, now), TimelineEnd(tasks, g, now);
            var bars := Bars(s, tasks, rowHeight, g);
            forall i :: 0 <= i < |bars| ==> 0 <= bars[i].left && bars[i].left + bars[i].width <= CanvasWidth(s, e, g)
  {
    var s, e := TimelineStart(tasks, g, now), TimelineEnd(tasks, g, now);
    forall i | 0 <= i < |tasks|
      ensures var b := BarFor(s, tasks[i], i, rowHeight, g);
              0 <= b.left && b.left + b.width <= CanvasWidth(s, e, g)
    {
      BarWithinCanvas(s, e, tasks[i], i, rowHeight, g);
    }
  }

  /**
   * An inverted task, which normalisation lets through, can put its bar
   * past the end of the canvas: a task starting two days after it ends
   * gets a one-day window and a bar that starts where the canvas ends.
   */
  lemma InvertedTaskLeavesCanvas(t0: Instant, rowHeight: int)
    ensures var tasks := [Task("A", t0 + 2 * MS_PER_DAY, t0, "")];
            var s, e := TimelineStart(tasks, Days, t0), TimelineEnd(tasks, Days, t0);
            var b := Bars(s, tasks, rowHeight, Days)[0];
            b.left + b.width > CanvasWidth(s, e, Days)
  {
    var tasks := [Task("A", t0 + 2 * MS_PER_DAY, t0, "")];
    var s, e := TimelineStart(tasks, Days, t0), TimelineEnd(tasks, Days, t0);
    assert s == t0 + MS_PER_DAY && e == t0 + MS_PER_DAY;
    assert UnitsBetween(s, t0 + 2 * MS_PER_DAY, Days) == 1;
    assert CanvasWidth(s, e, Days) == UnitWidth(Days);
  }

  // ---------------------------------------------------------------------
  // Edits
  // ---------------------------------------------------------------------

  /**
   * What `editTask` may be asked to change: a start or end instant, a name
   * or dependency (`None` for a null or missing value), or any other field.
   */
  datatype Edit = SetStart(at: Instant) | SetEnd(at: Instant)
                | SetName(text: Option<string>) | SetDependency(text: Option<string>)
                | OtherField

  /**
   * The record `editTask` leaves: a new start or end is stored and, when it
   * leaves the end before the start, the end moves to one unit after the
   * start; text fields store the text or ''; other fields change nothing.
   */
  function ApplyEdit(t: Task, e: Edit, g: Granularity): (r: Task)
    ensures (e.SetStart? || e.SetEnd?) ==> r.start <= r.end && r.name == t.name && r.dependency == t.dependency
    ensures e.SetStart? ==> r.start == e.at
                            && (e.at <= t.end ==> r.end == t.end)
                            && (t.end < e.at ==> r.end == AddUnits(e.at, 1, g) && UnitsBetween(r.start, r.end, g) == 1)
    ensures e.SetEnd? ==> r.start == t.start
                          && (t.start <= e.at ==> r.end == e.at)
                          && (e.at < t.start ==> r.end == AddUnits(t.start, 1, g) && UnitsBetween(r.start, r.end, g) == 1)
    ensures e.SetName? ==> r == t.(name := e.text.GetOr(""))
    ensures e.SetDependency? ==> r == t.(dependency := e.text.GetOr(""))
    ensures e.OtherField? ==> r == t
  {
    match e
    case SetStart(at) => FixInverted(t.(start := at), g)
    case SetEnd(at) => FixInverted(t.(end := at), g)
    case SetName(text) => t.(name := text.GetOr(""))
    case SetDependency(text) => t.(dependency := text.GetOr(""))
    case OtherField => t
  }

  /** An end before the start is replaced by the start plus one unit. */
  function FixInverted(t: Task, g: Granularity): (r: Task)
    ensures r.start == t.start && r.name == t.name && r.dependency == t.dependency
    ensures r.start <= r.end
    ensures t.start <= t.end ==> r == t
    ensures t.end < t.start ==> r.end == AddUnits(t.start, 1, g) && UnitsBetween(r.start, r.end, g) == 1
  {
    if t.end < t.start then
      UnitsBetweenAddUnits(t.start, 1, g);
      t.(end := AddUnits(t.start, 1, g))
    else t
  }

  /** `tasks.map(normalizeTask)`. */
  function NormalizeAll(rawTasks: seq<RawTask>, now: Instant): (ts: seq<Task>)
    ensures |ts| == |rawTasks|
    ensures forall i :: 0 <= i < |ts| ==> ts[i] == NormalizeTask(rawTasks[i], now)
  {
    seq(|rawTasks|, i requires 0 <= i < |rawTasks| => NormalizeTask(rawTasks[i], now))
  }

  /** `cloneTasks(tasks.map(normalizeTask))`: the constructor's task list. */
  function InitialTasks(rawTasks: seq<RawTask>, now: Instant): seq<Task> {
    CloneTasks(NormalizeAll(rawTasks, now))
  }

  /** The constructor keeps one normalised record per given task, in order. */
  lemma InitialTasksNormalised(rawTasks: seq<RawTask>, now: Instant)
    ensures var ts := InitialTasks(rawTasks, now);
            |ts| == |rawTasks| && forall i :: 0 <= i < |ts| ==> ts[i] == NormalizeTask(rawTasks[i], now)
  {
  }

  /** A raw `rowHeight` option: a missing or zero height means 32. */
  function RowHeightOr(option: Option<int>): (h: int)
    ensures h != 0
    ensures option.Some? && option.value != 0 ==> h == option.value
    ensures !(option.Some? && option.value != 0) ==> h == DEFAULT_ROW_HEIGHT
  {
    if option.Some? && option.value != 0 then option.value else DEFAULT_ROW_HEIGHT
  }

  // ---------------------------------------------------------------------
  // The coordinator
  // ---------------------------------------------------------------------

  /**
   * The table and the chart the constructor builds (the chart sizes its
   * canvas to the rows itself, as `_layoutHeights` then does again).
   */
  method NewPanes(ts: seq<Task>, g: Granularity, h: int, s: Instant, e: Instant, textWidth: (string, bool) -> real)
    returns (table: Table, chart: Chart)
    ensures fresh(table) && fresh(table.colWidths) && fresh(chart)
    ensures table.Valid() && table.tasks == ts && table.Fitted(g, textWidth)
    ensures chart.tasks == ts && chart.granularity == g && chart.rowHeight == h && chart.canvasHeight == |ts| * h
    ensures chart.Shows(s, e)
  {
    table := new Table(ts, g, textWidth);
    chart := new Chart(ts, g, h, s, e);
  }

  class Gantt {
    var tasks: seq<Task>
    var granularity: Granularity
    const rowHeight: int
    const table: Table
    const chart: Chart
    const divider: DividerDrag
    /** The canvas text measurement the table's autofit uses. */
    const textWidth: (string, bool) -> real

    /**
     * The table and the chart show the coordinator's tasks (the chart also
     * its granularity and row height), the table's widths are sound, and
     * the canvas is as tall as the rows.
     */
    predicate Valid()
      reads this, table, table.colWidths, chart
    {
      table.Valid() && table.tasks == tasks
      && chart.tasks == tasks && chart.granularity == granularity && chart.rowHeight == rowHeight
      && chart.canvasHeight == |tasks| * rowHeight
    }

    /**
     * After a refresh at time `now`: the chart shows the window the tasks
     * span and the table's widths are fitted to the rows.
     */
    predicate Refreshed(now: Instant)
      reads this, table, table.colWidths, chart
    {
      chart.Shows(TimelineStart(tasks, granularity, now), TimelineEnd(tasks, granularity, now))
      && table.Fitted(granularity, textWidth)
    }

    /**
     * The constructor: normalised copies of the given tasks, granularity
     * days and row height 32 unless given, then the table, the chart, the
     * divider (280 and 300 pixel minimums) and the layout.
     */
    constructor(rawTasks: seq<RawTask>, granularity: Option<Granularity>, rowHeight: Option<int>,
                now: Instant, textWidth: (string, bool) -> real)
      ensures Valid() && Refreshed(now)
      ensures tasks == InitialTasks(rawTasks, now)
      ensures this.granularity == granularity.GetOr(Days)
      ensures this.rowHeight == RowHeightOr(rowHeight)
      ensures divider.minLeft == PANE_MIN_LEFT && divider.minRight == PANE_MIN_RIGHT && !divider.dragging
    {
      var ts := InitialTasks(rawTasks, now);
      var g := granularity.GetOr(Days);
      var h := RowHeightOr(rowHeight);
      divider := new DividerDrag(PANE_MIN_LEFT, PANE_MIN_RIGHT, INITIAL_LEFT_WIDTH);
      var s, e := TimelineStart(ts, g, now), TimelineEnd(ts, g, now);
      var tbl, ch := NewPanes(ts, g, h, s, e, textWidth);
      table := tbl;
      chart := ch;
      tasks := ts;
      this.granularity := g;
      this.rowHeight := h;
      this.textWidth := textWidth;
    }

    /** `_layoutHeights`: the canvas becomes as tall as the rows. */
    method LayoutHeights()
      modifies chart
      ensures chart.canvasHeight == |tasks| * rowHeight
      ensures unchanged(chart`tasks, chart`granularity, chart`rowHeight, chart`canvasWidth, chart`header, chart`bars)
    {
      chart.canvasHeight := |tasks| * rowHeight;
    }

    /** The table, the chart and the layout are rebuilt from the current tasks and granularity. */
    method RefreshAll(now: Instant)
      requires table.Valid()
      requires chart.rowHeight == rowHeight
      modifies table, table.colWidths, chart
      ensures Valid() && Refreshed(now)
    {
      table.Refresh(tasks, granularity, textWidth);
      chart.Refresh(tasks, granularity, TimelineStart(tasks, granularity, now), TimelineEnd(tasks, granularity, now));
      LayoutHeights();
    }

    /** `setGranularity`: only the granularity changes; everything is rebuilt. */
    method SetGranularity(g: Granularity, now: Instant)
      requires Valid()
      modifies this, table, table.colWidths, chart
      ensures Valid() && Refreshed(now)
      ensures granularity == g && tasks == old(tasks)
    {
      granularity := g;
      RefreshAll(now);
    }

    /** `addTask`: one normalised task is appended; the others stay as they were. */
    method AddTask(raw: RawTask, now: Instant)
      requires Valid()
      modifies this, table, table.colWidths, chart
      ensures Valid() && Refreshed(now)
      ensures tasks == old(tasks) + [NormalizeTask(raw, now)]
      ensures granularity == old(granularity)
    {
      tasks := tasks + [NormalizeTask(raw, now)];
      RefreshAll(now);
    }

    /**
     * `editTask`: an index outside the list changes nothing and rebuilds
     * nothing; otherwise only that task changes, as `ApplyEdit` says, and
     * everything is rebuilt.
     */
    method EditTask(index: int, e: Edit, now: Instant)
      requires Valid()
      modifies this, table, table.colWidths, chart
      ensures Valid()
      ensures granularity == old(granularity)
      ensures !(0 <= index < |old(tasks)|) ==>
                tasks == old(tasks) && unchanged(table, table.colWidths, chart)
      ensures 0 <= index < |old(tasks)| ==>
                tasks == old(tasks)[index := ApplyEdit(old(tasks)[index], e, granularity)] && Refreshed(now)
    {
      if index < 0 || index >= |tasks| {
        return;
      }
      tasks := tasks[index := ApplyEdit(tasks[index], e, granularity)];
      RefreshAll(now);
    }
  }

  /**
   * A date edit never leaves the edited task inverted, so a list of tasks
   * that are not inverted stays so and its bars stay inside the canvas.
   */
  lemma EditKeepsBarsInside(tasks: seq<Task>, index: nat, e: Edit, g: Granularity, now: Instant, rowHeight: int)
    requires index < |tasks|
    requires forall i :: 0 <= i < |tasks| ==> tasks[i].start <= tasks[i].end
    ensures var edited := tasks[index := ApplyEdit(tasks[index], e, g)];
            var s, end := TimelineStart(edited, g, now), TimelineEnd(edited, g, now);
            var bars := Bars(s, edited, rowHeight, g);
            forall i :: 0 <= i < |bars| ==> bars[i].left + bars[i].width <= CanvasWidth(s, end, g)
  {
    var edited := tasks[index := ApplyEdit(tasks[index], e, g)];
    assert forall i :: 0 <= i < |edited| ==> edited[i].start <= edited[i].end;
    BarsInsideWindow(edited, g, now, rowHeight);
  }
}
