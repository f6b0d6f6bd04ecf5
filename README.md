# Gantt timeline layout engine, modelled in Dafny

This project models the layout core of a two-pane Gantt widget: a task table on
the left, a time-scaled bar chart on the right, and a draggable divider between
them. The model covers:

- the granularity calculus (days, hours, weeks): unit widths, the ceiling unit
  count between two instants, unit shifts, axis and duration labels, and ISO 8601
  week numbers (section 4.1.4 of ISO 8601:2004, week dates);
- the canonical task record: normalisation and cloning;
- the chart geometry: canvas width, the single-level header loop, the hours-mode
  day-block loop, and bar and dependency-tag placement;
- the `Gantt` coordinator: the task list, the granularity, the visible window
  padded by one unit, and `addTask`, `editTask` and `setGranularity`;
- the table's five-slot column-width vector: autofit, the per-column resizer drag,
  `getColumnWidths` and `setColumnWidths`, the date-cell formatter, and the
  empty and regex branches of the flexible date parser;
- the divider drag state machine and its width clamp.

Time model. An instant is a whole number of milliseconds since 1970-01-01T00:00,
on a clock with no daylight-saving changes where local time equals UTC. The
`Calendar` module follows ECMAScript's date operations (DayFromYear, YearFromTime,
MonthFromTime, MakeDay, MakeDate). So `setDate(getDate() + n)`, `setHours(getHours() + n)`
and `new Date(y, m, d, h)` normalise overflowing fields as the language does.
`addUnits` is first written field by field (`AddUnitsByFields`). It is then proved
to equal a plain shift by `n` units (`AddUnitsByFieldsIsShift`). The round-trip
and 24-hour-day properties hold in this clock only.

Modules, one per source file, plus two helpers:
`Calendar` (JavaScript `Date` fields), `Text` (`String(n)`, `padStart`, `Number`,
`\s`), `GanttUtils` (ganttUtils.js), `GanttChart` (ganttChart.js), `GanttTable`
(ganttTable.js), `GanttDivider` (ganttDivider.js), and `GanttCoordinator` (gantt.js).
The chart, the table, the divider drag and the coordinator are classes whose
methods update their fields, as the source's closures and `this` fields are
updated. The calculus, the labels, the window folds and the geometry are functions.

Where the design description and the code disagree, the model follows the code:

- The divider applies the upper clamp last. In a container too narrow for both
  minimums, the left pane ends below its own minimum (`GanttDivider.NarrowContainerBeatsMinimum`).
- The week label pairs the ISO week number with the calendar year, not the ISO
  week-year (`GanttUtils.WeekLabelYearMismatch`). For example, 2024-12-30 reads "W1 2024".
- Date edits are not validated. `Number.isNaN` on a `Date` object is always false,
  so the parser never falls back after the host's lenient parse. An unreadable
  text gives an Invalid Date rather than the previous value (`GanttTable.ParseDateFlexible`).
- Normalisation does not order start and end, so an inverted task can enter
  through the constructor or `addTask` (`GanttUtils.NormalizeKeepsInvertedInterval`).
  Its bar can then extend past the canvas (`GanttCoordinator.InvertedTaskLeavesCanvas`).

## Model

| member | source | states |
|---|---|---|
| GanttUtils.UnitWidth | src/components/ganttUtils.js:9-13 | pixels per unit are 32 for days, 18 for hours and 45 for weeks, all between 18 and 45 |
| GanttUtils.UnitsBetween | src/components/ganttUtils.js:16-38 | 0 whenever end <= start; otherwise n >= 1 with (n-1)·unit < end - start <= n·unit for unit = 3 600 000, 86 400 000 or 604 800 000 ms |
| Calendar.SetDateShift | src/components/ganttUtils.js:44-46 | `setDate(getDate() + n)` moves the instant by exactly n days, across month and year ends |
| Calendar.SetHoursShift | src/components/ganttUtils.js:47-49 | `setHours(getHours() + n)` moves the instant by exactly n hours |
| GanttUtils.AddUnitsByFieldsIsShift | src/components/ganttUtils.js:41-55 | addUnits written on calendar fields equals a shift by n days, n hours or 7n days |
| GanttUtils.AddUnitsRoundTrip | src/components/ganttUtils.js:41-55 | shifting by -n undoes shifting by n, for every granularity |
| GanttUtils.AddUnitsCompose | src/components/ganttUtils.js:41-55 | a shift by i then j is a shift by i + j |
| GanttUtils.UnitsBetweenAddUnits | src/components/ganttUtils.js:16-55 | counting the units of an n-unit shift (n >= 0) gives back n |
| GanttUtils.UnitsBetweenCovers | src/components/ganttUtils.js:16-55 | the ceiling policy: the counted shift reaches end, one unit fewer falls short, and re-counting gives the same count |
| GanttUtils.UnitsBetweenMonotone | src/components/ganttUtils.js:16-38 | the count never shrinks when the end moves later |
| GanttUtils.UnitsBetweenAntitone | src/components/ganttUtils.js:16-38 | the count never grows when the start moves later |
| GanttUtils.UnitsBetweenPlusUnit | src/components/ganttUtils.js:16-38 | one more unit of span adds exactly one to the count |
| GanttUtils.UnitsBetweenSplit | src/components/ganttUtils.js:16-38 | the counts of two adjacent spans add up to at most one more than the count of the whole |
| GanttUtils.UnitsBetweenAligned | src/components/ganttUtils.js:16-55 | cutting a span k whole units after its start splits its count exactly into k plus the rest |
| Text.Pad2Digits | src/components/ganttUtils.js:60 | `String(x).padStart(2,'0')` of a field below 100 is two digits that read back as the field |
| GanttUtils.DayLabelFields | src/components/ganttUtils.js:62-63 | the day label is "<year>-MM-DD" with two-digit month and date that read back as the instant's fields |
| GanttUtils.HourLabelFields | src/components/ganttUtils.js:64-65 | the hour label is the 11 characters "MM-DD HH:00", its fields reading back as month, date and hour |
| GanttUtils.WeekTextInjective | src/components/ganttUtils.js:66-67 | two "W<n> <year>" labels are equal exactly when week and year are equal |
| GanttUtils.WeekLabelYearMismatch | src/components/ganttUtils.js:66-67 | in a leap year starting on a Monday, January 1 and December 30 both read "W1 <year>", though December 30 lies in ISO week 1 of the next year |
| GanttUtils.WeekLabelYearMismatch2024 | src/components/ganttUtils.js:66-67 | 2024-01-01 and 2024-12-30 both read "W1 2024"; the ISO label of 2024-12-30 is "W1 2025" |
| GanttUtils.ThursdayOf | src/components/ganttUtils.js:76-77 | the shift by 4 - dayNum (Sunday counted as 7) lands on a Thursday within 3 days of the date |
| GanttUtils.WeekNumber | src/components/ganttUtils.js:74-80 | from year 101 on, the week number lies in 1..53, and the date's Thursday falls in that 7-day block counted from January 1 of the Thursday's year |
| GanttUtils.WeekNumberDays | src/components/ganttUtils.js:75-78 | from year 101 on, the two `Date.UTC` calls give the date's own day and January 1 of its Thursday's year, and that year holds the Thursday |
| GanttUtils.WeekNumberYear100 | src/components/ganttUtils.js:75-79 | January 1 of year 100 gets a week number below 1, because `Date.UTC` reads the Thursday's year 99 as 1999 |
| GanttUtils.WeekNumberFormula | src/components/ganttUtils.js:78-79 | from year 101 on, the week number is ceil((Thursday - January 1 of its year + 1) / 7) |
| GanttUtils.IsoWeekLabelIdentifiesWeek | src/components/ganttUtils.js:74-80 | from year 101 on, with the ISO week-year, two instants get the same week label exactly when they share the same ISO week |
| GanttUtils.DurationLabel | src/components/ganttUtils.js:83-95 | the label is the count, a space and the Spanish noun; it is singular exactly when the count is 1, and otherwise the noun followed by "s" |
| GanttUtils.DurationLabelCount | src/components/ganttUtils.js:84-87 | the numeral before the space reads back as `unitsBetween` of the task |
| GanttUtils.NormalizeTask | src/components/ganttUtils.js:98-105 | a missing name or dependency becomes ''; a falsy start becomes now; a falsy end becomes now plus one day whatever the granularity |
| GanttUtils.NormalizeZeroStartIsNow | src/components/ganttUtils.js:101 | a start given as the number 0 is falsy and becomes now |
| GanttUtils.NormalizeKeepsInvertedInterval | src/components/ganttUtils.js:98-105 | normalisation does not enforce end >= start |
| GanttUtils.CloneTasks | src/components/ganttUtils.js:108-115 | the copy has the same length and, position by position, the same name, start, end and dependency |
| GanttChart.TotalUnits | src/components/ganttChart.js:49 | the header has max(unitsBetween, 1) units: at least one, and exactly one for a window no longer than a unit |
| GanttChart.CanvasWidth | src/components/ganttChart.js:48-52 | the canvas is `totalUnits` unit widths wide, so a whole number of units and at least one unit |
| GanttChart.UnitCells | src/components/ganttChart.js:106-119 | n cells, cell i being the labelled cell of the unit i units after the start, each one unit wide |
| GanttChart.BuildSingleLevel | src/components/ganttChart.js:101-119 | the loop emits exactly totalUnits cells; cell i is labelled unitLabel(addUnits(start, i, g), g), and the cells fill the canvas width |
| GanttChart.UnitCellsWidth | src/components/ganttChart.js:106-119 | n unit cells are n unit widths wide |
| GanttChart.NextMidnight | src/components/ganttChart.js:69-70 | the next day's midnight is after the cursor, even for years 0 to 99 |
| GanttChart.DayEnd | src/components/ganttChart.js:71 | dayEnd lies strictly after the cursor and no later than the window end, so the hours loop terminates |
| GanttChart.BlockAsWritten | src/components/ganttChart.js:73-93 | as written, a block counts its hours from the day's midnight and numbers its cells from "00" |
| GanttChart.HourBlockAsWrittenSize | src/components/ganttChart.js:69-75 | as written, a block holds 1 to 24 hour cells, and exactly 24 when its day ends before the window does |
| GanttChart.HourBlocksAsWrittenTotal | src/components/ganttChart.js:67-96 | as written, the hour cells add up to the hours from the first day's midnight to the window end |
| GanttChart.HourHeaderAsWrittenOverflow | src/components/ganttChart.js:67-96 | as written, a window starting on hour h gets h more hour cells than the canvas has units |
| GanttChart.HourHeaderAsWrittenExample | src/components/ganttChart.js:67-96 | the window from December 31, 23:00 to January 3, 01:00 has 50 canvas units and 73 header hour cells as written |
| GanttChart.BlockFrom | src/components/ganttChart.js:73-93 | corrected: a block counts and numbers its hours from the cursor |
| GanttChart.HourBlockSize | src/components/ganttChart.js:69-75 | corrected: a block holds 1 to 24 - hour cells, and exactly that many when its day ends before the window does |
| GanttChart.HourBlocksCount | src/components/ganttChart.js:67-96 | the loop emits one block per calendar day the window touches, in both versions |
| GanttChart.HourBlocksTotal | src/components/ganttChart.js:67-96 | corrected: for a window starting on the hour, the hour cells add up to the window's hours |
| GanttChart.HourCell | src/components/ganttChart.js:88-92 | hour cell i of a block is captioned with the block's first hour plus i as two digits, one hour unit wide |
| GanttChart.HourCellsCount | src/components/ganttChart.js:85-93 | the bottom row has one cell per hour counted in the top row, each one hour unit wide |
| GanttChart.HourHeaderFillsCanvas | src/components/ganttChart.js:67-96 | corrected: the hour cells fill the canvas exactly, in count and in width |
| GanttChart.AppendHourCells | src/components/ganttChart.js:85-93 | the inner loop appends exactly the block's hour cells, numbered from its first hour |
| GanttChart.BuildHourBlocks | src/components/ganttChart.js:66-96 | the while loop over clipped days produces the blocks as written (hours counted from each day's midnight, cells numbered from "00") and the bottom row of hour cells |
| GanttChart.BuildHeader | src/components/ganttChart.js:54-122 | in hours mode the as-written day blocks over their hour cells; otherwise one labelled cell per unit of the window |
| GanttChart.BarHeight | src/components/ganttChart.js:135 | the bar height is max(rowHeight - 8, 20) |
| GanttChart.BarFor | src/components/ganttChart.js:131-169 | left is the start's unit offset times the unit width; width is the length in units times the unit width, but at least 6; top is 4 below the row's top; height is BarHeight; a tag exists exactly when the dependency is non-empty, with that text, at left + width + 6 and the bar's top |
| GanttChart.Bars | src/components/ganttChart.js:131 | one bar per task, in task order: bar i is the bar of task i in row i |
| GanttChart.BarAlignsWithCells | src/components/ganttChart.js:142-145 | a task from unit i to unit j of the window spans header cells i to j - 1 exactly |
| GanttChart.BarWithinRow | src/components/ganttChart.js:135-136 | a bar starts below its row's top, and stays within its row exactly when rows are at least 24 px high |
| GanttChart.BarWithinCanvas | src/components/ganttChart.js:142-145 | a task inside the window, with a unit to spare after its end, has its bar inside the canvas |
| GanttChart.Chart.constructor | src/components/ganttChart.js:6-40 | the canvas is as tall as the rows, and the timeline (with the as-written hours header) and bars are built for the window |
| GanttChart.Chart.BuildTimeline | src/components/ganttChart.js:42-123 | sets the canvas width and the header for the window (the as-written blocks in hours mode) and changes nothing else |
| GanttChart.Chart.BuildBars | src/components/ganttChart.js:125-170 | sets the bars for the window start and changes nothing else |
| GanttChart.Chart.Refresh | src/components/ganttChart.js:176-181 | takes the new tasks and granularity and rebuilds the chart, as-written header included, for the window |
| GanttTable.FormatDateCell | src/components/ganttTable.js:136-141 | the text is empty exactly when the value is falsy |
| GanttTable.FormatDateCellFields | src/components/ganttTable.js:136-141 | a present date prints as "<year>-MM-DD HH:00" whose fields read back as the instant's year, month, date and hour |
| GanttTable.HourGroup | src/components/ganttTable.js:211 | the optional hour group captures exactly when white space follows the date |
| GanttTable.MatchDatePattern | src/components/ganttTable.js:211 | a match captures the four-digit year, two-digit month and date, and the optional hour; no match when the prefix or the tail fails |
| GanttTable.PatternWithHour | src/components/ganttTable.js:211-215 | "YYYY-MM-DD HH:MI" matches with the hour captured; the minutes play no part |
| GanttTable.PatternDateOnly | src/components/ganttTable.js:211-215 | "YYYY-MM-DD" matches with no hour |
| GanttTable.PatternMinutesWithoutHour | src/components/ganttTable.js:211 | two digits straight after the date match as minutes and are ignored |
| GanttTable.PatternFields | src/components/ganttTable.js:213-215 | for a valid date after year 99 the built instant has the captured year, month, date and hour, with minutes and seconds 0 |
| GanttTable.ParseDateFlexible | src/components/ganttTable.js:206-219 | empty text gives the fallback or now; text the host reads gives the host's instant; no result only when host parse and pattern both fail; a host failure with a result means the pattern matched |
| GanttTable.ParseEmptyKeepsValue | src/components/ganttTable.js:207 | an emptied cell keeps its previous date |
| GanttTable.ParseFormattedCell | src/components/ganttTable.js:206-215 | a formatted cell that the host cannot parse reads back through the pattern as the instant truncated to its hour |
| GanttTable.CellTextMatches | src/components/ganttTable.js:136-141 | the cell text of a four-digit year matches the parser's pattern with all its fields |
| GanttTable.DragWidth | src/components/ganttTable.js:90-94 | while dragging the width is max(80, startW + dx); with no drag it is unchanged |
| GanttTable.DragIdempotent | src/components/ganttTable.js:91-94 | a repeated move to the same clientX gives the same width |
| GanttTable.DragForgetsEarlierMoves | src/components/ganttTable.js:91-94 | during a drag the width depends on the latest clientX only |
| GanttTable.Released | src/components/ganttTable.js:101-105 | mouseup clears every resizer's dragging flag and keeps its start |
| GanttTable.ReleaseWhenIdle | src/components/ganttTable.js:101-102 | mouseup with no drag in progress changes nothing |
| GanttTable.RunMaxBounds | src/components/ganttTable.js:123-131 | the running maximum is at least every measured width |
| GanttTable.RunMaxAttained | src/components/ganttTable.js:123-131 | the running maximum is the base or one of the measured widths |
| GanttTable.FitWidth | src/components/ganttTable.js:120-134 | every autofit width is at least 80 |
| GanttTable.FitWidthLeast | src/components/ganttTable.js:120-134 | the autofit width is the least whole width that is >= 80 and fits the header and every cell |
| GanttTable.Table.FitColumn | src/components/ganttTable.js:122-132 | the row loop computes ceil(max(80, header width, each cell width)) |
| GanttTable.Table.AutoFit | src/components/ganttTable.js:120-134 | every slot of the width vector becomes its column's autofit width |
| GanttTable.Table.constructor | src/components/ganttTable.js:41-42 | five widths, fitted to the rows, with idle resizers |
| GanttTable.Table.BuildHeader | src/components/ganttTable.js:51-111 | every column gets a fresh resizer that is not dragging |
| GanttTable.Table.MouseDown | src/components/ganttTable.js:82-88 | only that column's resizer starts dragging, recording clientX and the column's width |
| GanttTable.Table.MouseMove | src/components/ganttTable.js:90-99 | each dragging column takes its drag width; other columns keep theirs; no width falls below 80 |
| GanttTable.Table.MouseUp | src/components/ganttTable.js:101-105 | every drag ends; the widths are untouched |
| GanttTable.Table.GetColumnWidths | src/components/ganttTable.js:240 | returns a fresh array with the current widths, so changing it leaves the vector alone |
| GanttTable.Table.SetColumnWidths | src/components/ganttTable.js:241-246 | anything but five widths is ignored; otherwise each width becomes max(80, w) and the header is rebuilt |
| GanttTable.Table.Refresh | src/components/ganttTable.js:227-232 | takes the new rows, refits every column and rebuilds the header |
| GanttDivider.DraggedWidth | src/components/ganttDivider.js:31-35 | the width is min(max(minLeft, start + dx), maxLeft): never above maxLeft, at least minLeft exactly when maxLeft >= minLeft |
| GanttDivider.NarrowContainerBeatsMinimum | src/components/ganttDivider.js:32-35 | in a container too narrow for both minimums the pane ends below minLeft |
| GanttDivider.DividerDrag.constructor | src/components/ganttDivider.js:17-20 | no drag in progress and nothing recorded |
| GanttDivider.DividerDrag.MouseDown | src/components/ganttDivider.js:22-27 | sets dragging and records clientX and the pane's current width |
| GanttDivider.DividerDrag.MouseMove | src/components/ganttDivider.js:29-36 | while dragging the pane width is the clamped width for start width and clientX alone; otherwise nothing changes |
| GanttDivider.DividerDrag.MouseUp | src/components/ganttDivider.js:38-42 | clears dragging and changes nothing else |
| GanttCoordinator.MinStart | src/components/gantt.js:105 | the fold returns the earliest start, which is some task's start |
| GanttCoordinator.MaxEnd | src/components/gantt.js:112 | the fold returns the latest end, which is some task's end |
| GanttCoordinator.TimelineStart | src/components/gantt.js:103-108 | now with no tasks; otherwise exactly one unit before the earliest start, so before every task's start |
| GanttCoordinator.TimelineEnd | src/components/gantt.js:110-115 | now plus exactly 10 units with no tasks; otherwise exactly one unit after the latest end, so at least one unit after every task's end |
| GanttCoordinator.WindowPadding | src/components/gantt.js:103-115 | some task starts exactly one unit after the window start and some task ends exactly one unit before the window end |
| GanttCoordinator.BarsInsideWindow | src/components/gantt.js:103-115 | when no task is inverted every bar lies inside the canvas |
| GanttCoordinator.InvertedTaskLeavesCanvas | src/components/gantt.js:103-115 | a task starting two days after it ends gets a bar past the end of the canvas |
| GanttCoordinator.FixInverted | src/components/gantt.js:142-144 | an end before the start becomes the start plus one unit; otherwise the task is unchanged |
| GanttCoordinator.ApplyEdit | src/components/gantt.js:137-148 | a start or end edit stores the instant and, when the end would fall before the start, sets the end to the start plus one unit; a name or dependency edit stores the text or ''; other fields change nothing |
| GanttCoordinator.EditKeepsBarsInside | src/components/gantt.js:137-148 | an edit keeps a list of non-inverted tasks non-inverted, so its bars stay inside the canvas |
| GanttCoordinator.NormalizeAll | src/components/gantt.js:18 | one normalised task per given task, in order |
| GanttCoordinator.InitialTasksNormalised | src/components/gantt.js:18 | the constructor's task list is the normalised tasks, cloned |
| GanttCoordinator.RowHeightOr | src/components/gantt.js:20 | a missing or zero row height becomes 32 |
| GanttCoordinator.NewPanes | src/components/gantt.js:39-53 | a fitted table and a chart built for the window, over the same tasks |
| GanttCoordinator.Gantt.constructor | src/components/gantt.js:16-86 | granularity defaults to days and row height to 32; divider minimums 280 and 300; panes built and laid out |
| GanttCoordinator.Gantt.LayoutHeights | src/components/gantt.js:98-99 | the canvas height becomes tasks.length · rowHeight |
| GanttCoordinator.Gantt.RefreshAll | src/components/gantt.js:121-123 | the table and the chart are rebuilt from the current tasks and granularity, then the canvas height is reset |
| GanttCoordinator.Gantt.SetGranularity | src/components/gantt.js:119-124 | only the granularity changes; the task list is untouched and everything is rebuilt |
| GanttCoordinator.Gantt.AddTask | src/components/gantt.js:126-132 | exactly one normalised task is appended and the others are untouched |
| GanttCoordinator.Gantt.EditTask | src/components/gantt.js:134-153 | an index out of range changes nothing and rebuilds nothing; otherwise only that task changes, as ApplyEdit says |

## Findings

| source | as written | input that shows it | evidently intended | confidence | as-written member | corrected member |
|---|---|---|---|---|---|---|
| src/components/ganttChart.js:73 | `hoursInDay` counts hours from the day's midnight `currentDay`, not from `cursor`, and the hour cells are numbered from "00" | hours mode, one task from 2024-01-01 00:00 to 2024-01-03 00:00: the window runs from 2023-12-31 23:00 to 2024-01-03 01:00, the canvas has 50 hour units and the header 73 hour cells | count and number the first block's hours from the cursor, so the hour cells line up with the canvas units | high; not executed | GanttChart.HourHeaderAsWrittenExample | GanttChart.HourHeaderFillsCanvas |

The chart class builds its hours header as written (`GanttChart.HourBlocksAsWritten`).
`GanttChart.HourBlocks` and `GanttChart.BlockFrom` define the corrected blocks that `GanttChart.HourHeaderFillsCanvas` is about.

## Left out

- DOM construction, styling, `innerHTML` resets and the `grids.js` table renderer: no layout logic.
- Image and PDF export (`exportAsImage`, `exportAsPDF`): asynchronous calls into external rasterisation and PDF libraries.
- The window resize listener and the vertical scroll sync from table to chart: event wiring only.
- The window listeners that each `buildHeader` adds and never removes. The model keeps one resizer per column of the current header. Stale resizers of earlier headers are not modelled.
- `_layoutHeights` beyond the canvas height. The header, container and scroll heights are browser layout readings.
- Canvas text measurement is the parameter `textWidth` (a real width per text and font). `getBoundingClientRect` readings (pane width, container width, divider width) are integer parameters.
- `Date.now()` and `new Date()` are the parameter `now`.
- Host date parsing (`Date.parse`, `new Date(text)`) is the parameter `hostParse`. Only the empty and regex branches of `parseDateFlexible` are modelled in full.
- Time zones and daylight saving: the clock is DST-free, with local time equal to UTC. `AddUnitsRoundTrip` and the 24-hour day lemmas hold in this clock only.
- Unknown granularity strings (the `default` branches returning 0, the date unchanged, '' or the bare count): granularity is an enumeration.
- GanttCoordinator.ApplyEdit: a start or end edit takes an instant. An Invalid Date from an unreadable cell is not modelled, nor is `String(value)` of a non-string name.
- GanttCoordinator.EditTask: the cell blur handler that trims the text and calls `onEdit` (ganttTable.js:178-186) is not modelled. Edits arrive already typed.
- GanttTable.Table.SetColumnWidths: entries are integers. `Number(w)` of a non-numeric entry (NaN) and fractional widths are not modelled.
- GanttUtils.CloneTasks: records are values, so a missing dependency cannot reach it. Its `?? ''` default is not modelled.
- GanttChart.Chart.BuildBars: the per-task `forEach` is a sequence comprehension (`GanttChart.Bars`), not a loop.
- Years 0 to 99 in `new Date(y, m, d)` and `Date.UTC` are mapped to 1900 to 1999 (`Calendar.FullYear`). The hours-header lemmas assume instants from year 100 on.
- GanttUtils.WeekNumber: the range 1..53 and the Thursday block are promised only from year 101 on. From year 0 to 100 the `Date.UTC` year mapping gives other values (`GanttUtils.WeekNumberYear100`). Negative years, where `Date.UTC` maps nothing, are left out of those promises too.
- Instants are unbounded integers. The `Date` range limit (an instant beyond 8.64e15 ms either side of the epoch is an Invalid Date) is not modelled.
- `clientX` and the `getBoundingClientRect` widths are fractional in the browser. The model reads them as integers.
- GanttUtils.NormalizeTask: a start or end given as text (`new Date(text)`) is not modelled. A raw instant is absent, a millisecond count or a `Date`.
- The default minimums of `enableDividerDrag` (240 and 300) are not modelled. Its one caller passes 280 and 300.
