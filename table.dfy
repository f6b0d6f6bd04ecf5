/**
 * The task table on the left: five columns whose widths live in a
 * five-slot vector that autofit, the column resizers and
 * `setColumnWidths` update in place, plus the date-cell formatter and the
 * date parser that reads an edited cell back.
 */
module GanttTable {
  import opened Calendar
  import opened Text
  import opened GanttUtils

  // ---------------------------------------------------------------------
  // Columns
  // ---------------------------------------------------------------------

  datatype Column = Name | Start | End | Duration | Dependency

  /** `COLUMNS`, in display order. */
  const COLUMNS: seq<Column> := [Name, Start, End, Duration, Dependency]

  const MIN_COL_WIDTH: int := 80

  /** The padding `measureText` adds to a measured text width. */
  const TEXT_PADDING: real := 20.0

  function ColumnLabel(c: Column): string {
    match c
    case Name => "Nombre"
    case Start => "Fecha de inicio"
    case End => "Fecha de término"
    case Duration => "Duración"
    case Dependency => "Dependencia"
  }

  // ---------------------------------------------------------------------
  // Date cells
  // ---------------------------------------------------------------------

  /**
   * `formatDateCell`: empty for a falsy value, otherwise "YYYY-MM-DD HH:00"
   * with the instant's local year, month, date and hour.
   */
  function FormatDateCell(d: RawInstant): (s: string)
    ensures s == [] <==> !d.Truthy()
  {
    if !d.Truthy() then "" else FormatInstant(d.Value())
  }

  /** The cell text of a date that is present. */
  function FormatInstant(t: Instant): string {
    DateCellText(GetFullYear(t), GetMonth(t) + 1, GetDate(t), GetHours(t))
  }

  /** "<date text> HH:00". */
  function DateCellText(year: int, month1: int, date: int, hour: int): string {
    DateText(year, month1, date) + " " + Pad2(hour) + ":00"
  }

  /**
   * `s` is a date text for the given fields, a space, two digits that read
   * back as `hour`, and ":00".
   */
  predicate DateCellReads(s: string, year: int, month1: int, date: int, hour: int) {
    |s| >= 13 && DateTextReads(s[..|s| - 6], year, month1, date)
    && s[|s| - 6] == ' ' && s[|s| - 3..] == ":00"
    && AllDigits(s[|s| - 5..|s| - 3]) && DigitsValue(s[|s| - 5..|s| - 3]) == hour
  }

  lemma CellPieces(dt: string, hh: string)
    requires |hh| == 2
    ensures var s := dt + " " + hh + ":00";
            |s| == |dt| + 6 && s[..|s| - 6] == dt && s[|s| - 6] == ' '
            && s[|s| - 5..|s| - 3] == hh && s[|s| - 3..] == ":00"
  {
  }

  /** A formatted cell reads back as the instant's year, month, date and hour. */
  lemma FormatDateCellFields(t: Instant)
    ensures DateCellReads(FormatDateCell(DateObject(t)), GetFullYear(t), GetMonth(t) + 1, GetDate(t), GetHours(t))
  {
    var y, m, d, h := GetFullYear(t), GetMonth(t) + 1, GetDate(t), GetHours(t);
    FormatDateObject(t, y, m, d, h);
    CellTextReads(y, m, d, h);
  }

  /** The text of a cell with valid fields reads back as those fields. */
  lemma CellTextReads(year: int, month1: int, date: int, hour: int)
    requires 1 <= month1 <= 12 && 1 <= date <= 31 && 0 <= hour < 24
    ensures DateCellReads(DateCellText(year, month1, date, hour), year, month1, date, hour)
  {
    var dt := DateText(year, month1, date);
    var hh := Pad2(hour);
    DateTextFields(year, month1, date);
    Pad2Digits(hour);
    CellPieces(dt, hh);
    assert DateCellText(year, month1, date, hour) == dt + " " + hh + ":00";
  }

  // ---------------------------------------------------------------------
  // The date pattern of `parseDateFlexible`
  // ---------------------------------------------------------------------

  /** The fields the pattern captures: year, month (1-based), date and optional hour. */
  datatype DateMatch = DateMatch(year: nat, month: nat, date: nat, hour: Option<nat>)

  predicate TwoDigits(s: string) { |s| == 2 && AllDigits(s) }

  /** The length of the run of `\s` characters a text starts with. */
  function SpaceRun(s: string): (n: nat)
    ensures n <= |s|
    ensures forall i :: 0 <= i < n ==> IsJsSpace(s[i])
    ensures n == |s| || !IsJsSpace(s[n])
  {
    if s != [] && IsJsSpace(s[0]) then 1 + SpaceRun(s[1..]) else 0
  }

  /** The end of the pattern: an optional colon, then optionally two digits, then the end of the text. */
  predicate TailMatches(s: string) {
    var u := if s != [] && s[0] == ':' then s[1..] else s;
    u == [] || TwoDigits(u)
  }

  /** "YYYY-MM-DD" at the start of a text. */
  predicate DatePrefix(s: string) {
    |s| >= 10 && AllDigits(s[..4]) && s[4] == '-' && TwoDigits(s[5..7]) && s[7] == '-' && TwoDigits(s[8..10])
  }

  /**
   * What follows the date: `Some(Some(h))` when the hour group matches and
   * captures `h`, `Some(None)` when the rest matches without it, `None` when
   * the pattern fails. The hour group is taken exactly when white space
   * comes first, because without it the rest of the pattern cannot start
   * with white space.
   */
  function HourGroup(r: string): (h: Option<Option<nat>>)
    ensures h.Some? && h.value.Some? <==> h.Some? && r != [] && IsJsSpace(r[0])
  {
    if r != [] && IsJsSpace(r[0]) then
      var n := SpaceRun(r);
      if n + 2 <= |r| && TwoDigits(r[n..n + 2]) && TailMatches(r[n + 2..]) then
        Some(Some(DigitsValue(r[n..n + 2])))
      else None
    else if TailMatches(r) then Some(None)
    else None
  }

  /**
   * The pattern `^(\d{4})-(\d{2})-(\d{2})(?:\s+(\d{2}))?:?(\d{2})?$`: the
   * date fields, and the hour when the hour group matches; the minutes are
   * matched and then ignored.
   */
  function MatchDatePattern(s: string): (m: Option<DateMatch>)
    ensures m.Some? ==>
              && DatePrefix(s)
              && m.value.year == DigitsValue(s[..4])
              && m.value.month == DigitsValue(s[5..7])
              && m.value.date == DigitsValue(s[8..10])
              && HourGroup(s[10..]) == Some(m.value.hour)
    ensures m.None? ==> !DatePrefix(s) || HourGroup(s[10..]).None?
  {
    if !DatePrefix(s) then None
    else
      match HourGroup(s[10..])
      case None => None
      case Some(h) => Some(DateMatch(DigitsValue(s[..4]), DigitsValue(s[5..7]), DigitsValue(s[8..10]), h))
  }

  /** A date written as four, two and two digits is a date prefix of any text it starts. */
  lemma DatePrefixPieces(yy: string, mm: string, dd: string, r: string)
    requires |yy| == 4 && AllDigits(yy) && TwoDigits(mm) && TwoDigits(dd)
    ensures var s := yy + "-" + mm + "-" + dd + r;
            DatePrefix(s) && s[..4] == yy && s[5..7] == mm && s[8..10] == dd && s[10..] == r
  {
  }

  /** " HH:MI" is the hour group with the hour captured. */
  lemma HourGroupWithHour(hh: string, mi: string)
    requires TwoDigits(hh) && TwoDigits(mi)
    ensures HourGroup(" " + hh + ":" + mi) == Some(Some(DigitsValue(hh)))
  {
    var r := " " + hh + ":" + mi;
    assert r[1..] == hh + ":" + mi;
    assert SpaceRun(r) == 1 by {
      assert !IsJsSpace(r[1..][0]);
    }
    assert r[1..3] == hh && r[3..] == ":" + mi;
    assert r[3..][1..] == mi;
  }

  /** `new Date(Y, M - 1, D, H || 0, 0, 0)` for the captured fields. */
  function PatternInstant(m: DateMatch): Instant {
    LocalDate(m.year, m.month - 1, m.date, m.hour.GetOr(0))
  }

  /**
   * For a real calendar date after year 99 and an hour of the day, the
   * built instant carries exactly the captured fields, on the hour.
   */
  lemma PatternFields(m: DateMatch)
    requires m.year > 99 && 1 <= m.month <= 12 && 1 <= m.date <= DaysInMonth(m.year, m.month - 1)
    requires m.hour.GetOr(0) < 24
    ensures var t := PatternInstant(m);
            GetFullYear(t) == m.year && GetMonth(t) == m.month - 1 && GetDate(t) == m.date
            && GetHours(t) == m.hour.GetOr(0) && TimeWithinDay(t) % MS_PER_HOUR == 0
  {
    var d := MakeDay(m.year, m.month - 1, m.date);
    CivilFromMakeDay(m.year, m.month - 1, m.date);
    DayOfMakeDate(d, m.hour.GetOr(0));
  }

  /** "YYYY-MM-DD HH:MI" matches with the hour captured; the minutes play no part. */
  lemma PatternWithHour(yy: string, mm: string, dd: string, hh: string, mi: string)
    requires |yy| == 4 && AllDigits(yy) && TwoDigits(mm) && TwoDigits(dd) && TwoDigits(hh) && TwoDigits(mi)
    ensures MatchDatePattern(yy + "-" + mm + "-" + dd + (" " + hh + ":" + mi))
            == Some(DateMatch(DigitsValue(yy), DigitsValue(mm), DigitsValue(dd), Some(DigitsValue(hh))))
  {
    DatePrefixPieces(yy, mm, dd, " " + hh + ":" + mi);
    HourGroupWithHour(hh, mi);
  }

  /** "YYYY-MM-DD" alone matches with no hour, so the hour becomes 0. */
  lemma PatternDateOnly(yy: string, mm: string, dd: string)
    requires |yy| == 4 && AllDigits(yy) && TwoDigits(mm) && TwoDigits(dd)
    ensures MatchDatePattern(yy + "-" + mm + "-" + dd + "")
            == Some(DateMatch(DigitsValue(yy), DigitsValue(mm), DigitsValue(dd), None))
  {
    DatePrefixPieces(yy, mm, dd, "");
  }

  /** Minutes written straight after the date, with no hour, match too and are ignored. */
  lemma PatternMinutesWithoutHour(yy: string, mm: string, dd: string, mi: string)
    requires |yy| == 4 && AllDigits(yy) && TwoDigits(mm) && TwoDigits(dd) && TwoDigits(mi)
    ensures MatchDatePattern(yy + "-" + mm + "-" + dd + mi)
            == Some(DateMatch(DigitsValue(yy), DigitsValue(mm), DigitsValue(dd), None))
  {
    DatePrefixPieces(yy, mm, dd, mi);
  }

  /**
   * `parseDateFlexible`, with the host's `Date.parse` as the parameter
   * `hostParse` (None for NaN). Empty text gives the fallback, or now when
   * the fallback is falsy; text the host reads gives the host's instant;
   * then the pattern; anything else is an Invalid Date (None), since the
   * `Number.isNaN` guard on a `Date` object never holds.
   */
  function ParseDateFlexible(text: string, fallback: RawInstant, now: Instant,
                             hostParse: string -> Option<Instant>): (r: Option<Instant>)
    ensures text == [] ==> r == Some(if fallback.Truthy() then fallback.Value() else now)
    ensures text != [] && hostParse(text).Some? ==> r == hostParse(text)
    ensures r.None? ==> text != [] && hostParse(text).None? && MatchDatePattern(text).None?
    ensures r.Some? && text != [] && hostParse(text).None? ==> MatchDatePattern(text).Some?
  {
    if text == "" then Some(if fallback.Truthy() then fallback.Value() else now)
    else if hostParse(text).Some? then hostParse(text)
    else
      match MatchDatePattern(text)
      case Some(m) => Some(PatternInstant(m))
      case None => hostParse(text)
  }

  /** A cleared cell keeps the value it had. */
  lemma ParseEmptyKeepsValue(t: Instant, now: Instant, hostParse: string -> Option<Instant>)
    ensures ParseDateFlexible("", DateObject(t), now, hostParse) == Some(t)
  {
  }

  /**
   * Reading back a formatted cell that the host does not parse gives the
   * instant truncated to its hour: the cell prints no minutes.
   */
  lemma ParseFormattedCell(t: Instant, fallback: RawInstant, now: Instant, hostParse: string -> Option<Instant>)
    requires 1000 <= GetFullYear(t) <= 9999
    requires hostParse(FormatDateCell(DateObject(t))).None?
    ensures ParseDateFlexible(FormatDateCell(DateObject(t)), fallback, now, hostParse)
            == Some(t - TimeWithinDay(t) % MS_PER_HOUR)
  {
    var text := FormatDateCell(DateObject(t));
    var y, mo, d, h := GetFullYear(t), GetMonth(t), GetDate(t), GetHours(t);
    var m := DateMatch(y, mo + 1, d, Some(h));
    FormattedCellMatches(t);
    ParseMatched(text, fallback, now, hostParse, m);
    PatternInstantOf(m, y, mo, d, h);
    LocalDateOfFields(t);
  }

  lemma PatternInstantOf(m: DateMatch, y: nat, mo: nat, d: nat, h: nat)
    requires m == DateMatch(y, mo + 1, d, Some(h))
    ensures PatternInstant(m) == LocalDate(y, mo, d, h)
  {
  }

  lemma ParseMatched(text: string, fallback: RawInstant, now: Instant, hostParse: string -> Option<Instant>, m: DateMatch)
    requires text != [] && hostParse(text).None? && MatchDatePattern(text) == Some(m)
    ensures ParseDateFlexible(text, fallback, now, hostParse) == Some(PatternInstant(m))
  {
  }

  lemma FormatDateObject(t: Instant, year: int, month1: int, date: int, hour: int)
    requires year == GetFullYear(t) && month1 == GetMonth(t) + 1 && date == GetDate(t) && hour == GetHours(t)
    ensures FormatDateCell(DateObject(t)) == DateCellText(year, month1, date, hour)
  {
    assert FormatDateCell(DateObject(t)) == FormatInstant(t);
  }

  lemma FormattedCellMatches(t: Instant)
    requires 1000 <= GetFullYear(t) <= 9999
    ensures MatchDatePattern(FormatDateCell(DateObject(t)))
            == Some(DateMatch(GetFullYear(t), GetMonth(t) + 1, GetDate(t), Some(GetHours(t))))
  {
    var y, m, d, h := GetFullYear(t), GetMonth(t) + 1, GetDate(t), GetHours(t);
    FormatDateObject(t, y, m, d, h);
    CellTextMatches(y, m, d, h);
  }

  /** The text of a cell with a four-digit year matches the pattern with all its fields. */
  lemma CellTextMatches(year: int, month1: int, date: int, hour: int)
    requires 1000 <= year <= 9999 && 0 <= month1 < 100 && 0 <= date < 100 && 0 <= hour < 100
    ensures MatchDatePattern(DateCellText(year, month1, date, hour)) == Some(DateMatch(year, month1, date, Some(hour)))
  {
    var yy, mm, dd, hh := IntToString(year), Pad2(month1), Pad2(date), Pad2(hour);
    NatToStringLength(year);
    DigitsValueOfNatToString(year);
    Pad2Digits(month1);
    Pad2Digits(date);
    Pad2Digits(hour);
    CellPattern(DateText(year, month1, date), yy, mm, dd, hh);
  }

  lemma CellPattern(dt: string, yy: string, mm: string, dd: string, hh: string)
    requires dt == yy + "-" + mm + "-" + dd
    requires |yy| == 4 && AllDigits(yy) && TwoDigits(mm) && TwoDigits(dd) && TwoDigits(hh)
    ensures MatchDatePattern(dt + " " + hh + ":00")
            == Some(DateMatch(DigitsValue(yy), DigitsValue(mm), DigitsValue(dd), Some(DigitsValue(hh))))
  {
    PatternWithHour(yy, mm, dd, hh, "00");
    CellShape(dt, hh);
  }

  lemma CellShape(dt: string, hh: string)
    ensures dt + " " + hh + ":00" == dt + (" " + hh + ":" + "00")
  {
    assert ":" + "00" == ":00";
  }

  // ---------------------------------------------------------------------
  // Autofit
  // ---------------------------------------------------------------------

  /** The text a cell of `col` shows for task `t` when durations count units of `g`. */
  function CellText(col: Column, t: Task, g: Granularity): string {
    match col
    case Name => t.name
    case Start => FormatDateCell(DateObject(t.start))
    case End => FormatDateCell(DateObject(t.end))
    case Duration => DurationLabel(t.start, t.end, g)
    case Dependency => t.dependency
  }

  /**
   * `measureText`: the width the canvas measures for a text, in the bold
   * header font (`header`) or the body font, plus padding. The canvas
   * itself is the parameter `textWidth`.
   */
  function MeasureText(text: string, header: bool, textWidth: (string, bool) -> real): real {
    textWidth(text, header) + TEXT_PADDING
  }

  /** The measured width of the header of `col`. */
  function HeaderWidth(col: Column, textWidth: (string, bool) -> real): real {
    MeasureText(ColumnLabel(col), true, textWidth)
  }

  /** The measured width of the cell of `col` for task `t`. */
  function CellWidth(col: Column, t: Task, g: Granularity, textWidth: (string, bool) -> real): real {
    MeasureText(CellText(col, t, g), false, textWidth)
  }

  function RealMax(a: real, b: real): real { if a < b then b else a }

  /** `Math.ceil`. */
  function Ceil(x: real): (n: int)
    ensures x <= n as real < x + 1.0
  {
    -((-x).Floor)
  }

  /** The measured widths of the cells of `col`, row by row. */
  function CellWidths(col: Column, tasks: seq<Task>, g: Granularity, textWidth: (string, bool) -> real): seq<real> {
    seq(|tasks|, i requires 0 <= i < |tasks| => CellWidth(col, tasks[i], g, textWidth))
  }

  /** The running maximum autofit keeps: `base`, then raised by each width in turn. */
  function RunMax(base: real, ws: seq<real>): (m: real)
    ensures m >= base
  {
    if ws == [] then base else RealMax(RunMax(base, ws[..|ws| - 1]), ws[|ws| - 1])
  }

  /** Taking one more width raises the running maximum to that width, if it is wider. */
  lemma RunMaxStep(base: real, ws: seq<real>, k: nat)
    requires k < |ws|
    ensures RunMax(base, ws[..k + 1]) == RealMax(RunMax(base, ws[..k]), ws[k])
  {
    assert ws[..k + 1][..k] == ws[..k];
  }

  /** The running maximum is at least every width it was taken over. */
  lemma {:induction false} RunMaxBounds(base: real, ws: seq<real>)
    ensures forall i :: 0 <= i < |ws| ==> RunMax(base, ws) >= ws[i]
  {
    if ws != [] {
      var init := ws[..|ws| - 1];
      RunMaxBounds(base, init);
      assert forall i :: 0 <= i < |init| ==> ws[i] == init[i];
    }
  }

  /** The running maximum is `base` or one of the widths: nothing larger is invented. */
  lemma {:induction false} RunMaxAttained(base: real, ws: seq<real>)
    ensures RunMax(base, ws) == base || exists i :: 0 <= i < |ws| && RunMax(base, ws) == ws[i]
  {
    if ws != [] {
      var init := ws[..|ws| - 1];
      RunMaxAttained(base, init);
      var prev := RunMax(base, init);
      if prev < ws[|ws| - 1] {
        assert RunMax(base, ws) == ws[|ws| - 1];
      } else if prev != base {
        var i :| 0 <= i < |init| && prev == init[i];
        assert RunMax(base, ws) == ws[i];
      }
    }
  }

  /** What autofit starts from for `col`: the minimum, raised to the header's width. */
  function FitBase(col: Column, textWidth: (string, bool) -> real): real {
    RealMax(MIN_COL_WIDTH as real, HeaderWidth(col, textWidth))
  }

  /** The width autofit gives `col`: the ceiling of the widest of minimum, header and cells. */
  function FitWidth(col: Column, tasks: seq<Task>, g: Granularity, textWidth: (string, bool) -> real): (w: int)
    ensures w >= MIN_COL_WIDTH
  {
    Ceil(RunMax(FitBase(col, textWidth), CellWidths(col, tasks, g, textWidth)))
  }

  /**
   * The autofit width is the least whole width that is at least the
   * minimum and fits the header and every cell of the column.
   */
  lemma FitWidthLeast(col: Column, tasks: seq<Task>, g: Granularity, textWidth: (string, bool) -> real, n: int)
    ensures var fits := n >= MIN_COL_WIDTH && n as real >= HeaderWidth(col, textWidth)
                        && forall i :: 0 <= i < |tasks| ==> n as real >= CellWidth(col, tasks[i], g, textWidth);
            fits <==> n >= FitWidth(col, tasks, g, textWidth)
  {
    var ws := CellWidths(col, tasks, g, textWidth);
    var m := RunMax(FitBase(col, textWidth), ws);
    assert forall i :: 0 <= i < |tasks| ==> ws[i] == CellWidth(col, tasks[i], g, textWidth);
    RunMaxBounds(FitBase(col, textWidth), ws);
    RunMaxAttained(FitBase(col, textWidth), ws);
    if n >= FitWidth(col, tasks, g, textWidth) {
      assert n as real >= m;
    }
  }

  // ---------------------------------------------------------------------
  // Column resizers
  // ---------------------------------------------------------------------

  /** The drag state a column's resizer closes over. */
  datatype Resizer = Resizer(dragging: bool, startX: int, startW: int)

  /** The state of a resizer that `buildHeader` has just made. */
  const IDLE: Resizer := Resizer(false, 0, 0)

  function IdleResizers(): (rs: seq<Resizer>)
    ensures |rs| == |COLUMNS| && forall j :: 0 <= j < |rs| ==> !rs[j].dragging
  {
    [IDLE, IDLE, IDLE, IDLE, IDLE]
  }

  /**
   * The width a window `mousemove` at `clientX` leaves in a column: while
   * its resizer drags, the starting width moved by the pointer's travel but
   * no less than the minimum; otherwise the width it had.
   */
  function DragWidth(w: int, r: Resizer, clientX: int): (nw: int)
    ensures r.dragging ==> nw >= MIN_COL_WIDTH && (nw == MIN_COL_WIDTH || nw == r.startW + clientX - r.startX)
    ensures r.dragging ==> nw >= r.startW + clientX - r.startX
    ensures !r.dragging ==> nw == w
  {
    if r.dragging then Max(MIN_COL_WIDTH, r.startW + clientX - r.startX) else w
  }

  /** Moving again to the same place changes nothing. */
  lemma DragIdempotent(w: int, r: Resizer, clientX: int)
    ensures DragWidth(DragWidth(w, r, clientX), r, clientX) == DragWidth(w, r, clientX)
  {
  }

  /** While a drag lasts, the width depends on the latest pointer position alone. */
  lemma DragForgetsEarlierMoves(w: int, r: Resizer, x1: int, x2: int)
    requires r.dragging
    ensures DragWidth(DragWidth(w, r, x1), r, x2) == DragWidth(w, r, x2)
  {
  }

  /** The window `mouseup`: every resizer stops dragging and keeps its start. */
  function Released(rs: seq<Resizer>): (r: seq<Resizer>)
    ensures |r| == |rs|
    ensures forall j :: 0 <= j < |r| ==>
              !r[j].dragging && r[j].startX == rs[j].startX && r[j].startW == rs[j].startW
  {
    seq(|rs|, j requires 0 <= j < |rs| => rs[j].(dragging := false))
  }

  /** A `mouseup` with no drag in progress changes nothing. */
  lemma {:induction false} ReleaseWhenIdle(rs: seq<Resizer>)
    requires forall j :: 0 <= j < |rs| ==> !rs[j].dragging
    ensures Released(rs) == rs
  {
    var r := Released(rs);
    assert forall j :: 0 <= j < |rs| ==> r[j] == rs[j];
  }

  // ---------------------------------------------------------------------
  // The table
  // ---------------------------------------------------------------------

  /**
   * `createGanttTable`: the rows it shows, the column-width vector, and the
   * drag state of the resizers of the current header.
   */
  class Table {
    var tasks: seq<Task>
    const colWidths: array<int>
    var resizers: seq<Resizer>

    /** One width and one resizer per column, and no width below the minimum. */
    predicate Valid()
      reads this, colWidths
    {
      colWidths.Length == |COLUMNS| && |resizers| == |COLUMNS|
      && forall j :: 0 <= j < colWidths.Length ==> colWidths[j] >= MIN_COL_WIDTH
    }

    /** Every width is the autofit width of its column for the current rows. */
    predicate Fitted(g: Granularity, textWidth: (string, bool) -> real)
      reads this, colWidths
    {
      colWidths.Length == |COLUMNS|
      && forall j :: 0 <= j < |COLUMNS| ==> colWidths[j] == FitWidth(COLUMNS[j], tasks, g, textWidth)
    }

    /** The widths start at the minimum, then autofit sets them and the header is built. */
    constructor(tasks: seq<Task>, g: Granularity, textWidth: (string, bool) -> real)
      ensures Valid() && fresh(colWidths)
      ensures this.tasks == tasks
      ensures Fitted(g, textWidth)
      ensures resizers == IdleResizers()
    {
      this.tasks := tasks;
      colWidths := new int[|COLUMNS|](_ => MIN_COL_WIDTH);
      resizers := IdleResizers();
      new;
      AutoFit(g, textWidth);
      BuildHeader();
    }

    /** The autofit width of one column, measured row by row. */
    method FitColumn(col: Column, g: Granularity, textWidth: (string, bool) -> real) returns (w: int)
      ensures w == FitWidth(col, tasks, g, textWidth)
    {
      var ws := CellWidths(col, tasks, g, textWidth);
      var base := FitBase(col, textWidth);
      var maxW := base;
      for k := 0 to |ws|
        invariant maxW == RunMax(base, ws[..k])
      {
        RunMaxStep(base, ws, k);
        maxW := RealMax(maxW, ws[k]);
      }
      assert ws[..|ws|] == ws;
      w := Ceil(maxW);
    }

    /** `autoFitColumns`: each width becomes the autofit width of its column. */
    method AutoFit(g: Granularity, textWidth: (string, bool) -> real)
      requires colWidths.Length == |COLUMNS|
      modifies colWidths
      ensures Fitted(g, textWidth)
    {
      for idx := 0 to |COLUMNS|
        invariant forall j :: 0 <= j < idx ==> colWidths[j] == FitWidth(COLUMNS[j], tasks, g, textWidth)
      {
        var w := FitColumn(COLUMNS[idx], g, textWidth);
        colWidths[idx] := w;
      }
    }

    /** `buildHeader`: every column gets a new resizer that is not dragging. */
    method BuildHeader()
      modifies this
      ensures resizers == IdleResizers()
      ensures unchanged(this`tasks)
    {
      resizers := IdleResizers();
    }

    /** A resizer's `mousedown`: it starts dragging from `clientX` and the column's current width. */
    method MouseDown(idx: int, clientX: int)
      requires Valid() && 0 <= idx < |COLUMNS|
      modifies this
      ensures Valid()
      ensures resizers == old(resizers)[idx := Resizer(true, clientX, colWidths[idx])]
      ensures unchanged(this`tasks)
    {
      resizers := resizers[idx := Resizer(true, clientX, colWidths[idx])];
    }

    /** The window `mousemove`: each dragging resizer sets its own column's width. */
    method MouseMove(clientX: int)
      requires Valid()
      modifies colWidths
      ensures Valid()
      ensures forall j :: 0 <= j < |COLUMNS| ==> colWidths[j] == DragWidth(old(colWidths[j]), resizers[j], clientX)
    {
      for idx := 0 to |COLUMNS|
        invariant forall j :: 0 <= j < idx ==> colWidths[j] == DragWidth(old(colWidths[j]), resizers[j], clientX)
        invariant forall j :: idx <= j < |COLUMNS| ==> colWidths[j] == old(colWidths[j])
      {
        if resizers[idx].dragging {
          colWidths[idx] := Max(MIN_COL_WIDTH, resizers[idx].startW + clientX - resizers[idx].startX);
        }
      }
    }

    /** The window `mouseup`: every drag ends. */
    method MouseUp()
      requires Valid()
      modifies this
      ensures Valid()
      ensures resizers == Released(old(resizers))
      ensures unchanged(this`tasks)
    {
      resizers := Released(resizers);
    }

    /** `getColumnWidths`: a new array holding the current widths. */
    method GetColumnWidths() returns (r: array<int>)
      ensures fresh(r) && r[..] == colWidths[..]
    {
      r := new int[colWidths.Length];
      forall i | 0 <= i < r.Length {
        r[i] := colWidths[i];
      }
    }

    /**
     * `setColumnWidths`: ignored unless given an array of five widths;
     * otherwise each width is clamped to the minimum and the header is
     * rebuilt. `None` stands for a value that is not an array.
     */
    method SetColumnWidths(widths: Option<seq<int>>)
      requires Valid()
      modifies this, colWidths
      ensures Valid()
      ensures unchanged(this`tasks)
      ensures widths.Some? && |widths.value| == |COLUMNS| ==>
                && (forall j :: 0 <= j < |COLUMNS| ==> colWidths[j] == Max(MIN_COL_WIDTH, widths.value[j]))
                && resizers == IdleResizers()
      ensures !(widths.Some? && |widths.value| == |COLUMNS|) ==>
                colWidths[..] == old(colWidths[..]) && resizers == old(resizers)
    {
      if widths.Some? && |widths.value| == |COLUMNS| {
        var ws := widths.value;
        for i := 0 to |COLUMNS|
          invariant forall j :: 0 <= j < i ==> colWidths[j] == Max(MIN_COL_WIDTH, ws[j])
          invariant forall j :: i <= j < |COLUMNS| ==> colWidths[j] == old(colWidths[j])
          invariant tasks == old(tasks)
        {
          colWidths[i] := Max(MIN_COL_WIDTH, ws[i]);
        }
        BuildHeader();
      }
    }

    /** `refresh`: new rows, then autofit and a new header. */
    method Refresh(newTasks: seq<Task>, g: Granularity, textWidth: (string, bool) -> real)
      requires Valid()
      modifies this, colWidths
      ensures Valid()
      ensures tasks == newTasks && Fitted(g, textWidth)
      ensures resizers == IdleResizers()
    {
      tasks := newTasks;
      AutoFit(g, textWidth);
      BuildHeader();
    }
  }
}
