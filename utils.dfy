/**
 * The granularity calculus of the Gantt widget: unit widths, unit counts,
 * unit shifts, axis and duration labels, ISO week numbers, and the
 * canonical task record.
 */
module GanttUtils {
  import opened Calendar
  import opened Text

  datatype Granularity = Days | Hours | Weeks

  /** Pixels per unit on the chart's horizontal scale (`UNIT_WIDTHS`). */
  function UnitWidth(g: Granularity): (w: nat)
    ensures 18 <= w <= 45
  {
    match g
    case Days => 32
    case Hours => 18
    case Weeks => 45
  }

  /** `Math.max` and `Math.min` on integers. */
  function Max(a: int, b: int): int { if a < b then b else a }
  function Min(a: int, b: int): int { if a < b then a else b }

  /** Milliseconds per unit on the DST-free clock. */
  function UnitMs(g: Granularity): (u: int)
    ensures u == MS_PER_HOUR || u == MS_PER_DAY || u == 7 * MS_PER_DAY
  {
    match g
    case Days => MS_PER_DAY
    case Hours => MS_PER_HOUR
    case Weeks => 7 * MS_PER_DAY
  }

  /** `Math.ceil(a / b)` for a positive divisor. */
  function CeilDiv(a: int, b: int): (n: int)
    requires b > 0
  {
    -((-a) / b)
  }

  /** The ceiling quotient of the span by the unit: the fewest whole units that cover it. */
  function UnitsBetween(start: Instant, end: Instant, g: Granularity): (n: nat)
    ensures end <= start ==> n == 0
    ensures end > start ==> n >= 1 && (n - 1) * UnitMs(g) < end - start <= n * UnitMs(g)
  {
    var ms := end - start;
    if ms <= 0 then 0
    else
      match g
      case Days => CeilDiv(ms, 24 * 60 * 60 * 1000)
      case Hours => CeilDiv(ms, 60 * 60 * 1000)
      case Weeks => CeilDiv(ms, 7 * 24 * 60 * 60 * 1000)
  }

  /**
   * `addUnits` as written: moves the date field by `n` days or `7 * n` days,
   * or the hour field by `n` hours.
   */
  function AddUnitsByFields(t: Instant, n: int, g: Granularity): Instant {
    match g
    case Days => SetDate(t, GetDate(t) + n)
    case Hours => SetHours(t, GetHours(t) + n)
    case Weeks => SetDate(t, GetDate(t) + n * 7)
  }

  /** `addUnits` on the DST-free clock: a shift by `n` whole units (see AddUnitsByFieldsIsShift). */
  function AddUnits(t: Instant, n: int, g: Granularity): Instant {
    t + n * UnitMs(g)
  }

  /** Moving the date or hour field by `n` units is a shift by exactly `n` units. */
  lemma AddUnitsByFieldsIsShift(t: Instant, n: int, g: Granularity)
    ensures AddUnitsByFields(t, n, g) == AddUnits(t, n, g)
  {
    match g {
      case Days => DaysByFields(t, n);
      case Hours => SetHoursShift(t, n);
      case Weeks => WeeksByFields(t, n);
    }
  }

  lemma DaysByFields(t: Instant, n: int)
    ensures AddUnitsByFields(t, n, Days) == t + n * MS_PER_DAY
  {
    SetDateShift(t, n);
  }

  lemma WeeksByFields(t: Instant, n: int)
    ensures AddUnitsByFields(t, n, Weeks) == t + n * (7 * MS_PER_DAY)
  {
    SetDateShift(t, n * 7);
  }

  /** Shifting back undoes shifting forward. */
  lemma AddUnitsRoundTrip(t: Instant, n: int, g: Granularity)
    ensures AddUnits(AddUnits(t, n, g), -n, g) == t
  {
    match g {
      case Days =>
      case Hours =>
      case Weeks =>
    }
  }

  /** Shifts compose additively, which is what lets a cursor walk the axis one unit at a time. */
  lemma AddUnitsCompose(t: Instant, i: int, j: int, g: Granularity)
    ensures AddUnits(AddUnits(t, i, g), j, g) == AddUnits(t, i + j, g)
  {
    match g {
      case Days =>
      case Hours =>
      case Weeks =>
    }
  }

  lemma MulLe(a: int, b: int, u: int)
    requires u > 0 && a <= b
    ensures a * u <= b * u
  {
  }

  /** At most one whole number of units brackets a span from above. */
  lemma CeilUnique(x: int, k: int, n: int, u: int)
    requires u > 0
    requires (k - 1) * u < x <= k * u
    requires (n - 1) * u < x <= n * u
    ensures k == n
  {
    if k < n {
      MulLe(k, n - 1, u);
    } else if n < k {
      MulLe(n, k - 1, u);
    }
  }

  /** A span bracketed by `n - 1` and `n` whole units counts `n` units. */
  lemma UnitsBetweenExact(a: Instant, b: Instant, n: int, g: Granularity)
    requires n >= 1 && (n - 1) * UnitMs(g) < b - a <= n * UnitMs(g)
    ensures UnitsBetween(a, b, g) == n
  {
    CeilUnique(b - a, UnitsBetween(a, b, g), n, UnitMs(g));
  }

  /** Counting the units of an `n`-unit shift gives back `n`. */
  lemma UnitsBetweenAddUnits(t: Instant, n: nat, g: Granularity)
    ensures UnitsBetween(t, AddUnits(t, n, g), g) == n
  {
    if n > 0 {
      MulShift(n - 1, 1, UnitMs(g));
      UnitsBetweenExact(t, AddUnits(t, n, g), n, g);
    }
  }

  /**
   * The ceiling policy: the unit count's shift reaches `end` and one unit
   * fewer falls short of it, so re-counting that shift gives the same count.
   */
  lemma UnitsBetweenCovers(start: Instant, end: Instant, g: Granularity)
    requires start <= end
    ensures end <= AddUnits(start, UnitsBetween(start, end, g), g)
    ensures UnitsBetween(start, end, g) > 0 ==> AddUnits(start, UnitsBetween(start, end, g) - 1, g) < end
    ensures UnitsBetween(start, AddUnits(start, UnitsBetween(start, end, g), g), g) == UnitsBetween(start, end, g)
  {
    var n := UnitsBetween(start, end, g);
    UnitsBetweenAddUnits(start, n, g);
    assert AddUnits(start, n, g) == start + n * UnitMs(g);
    if n > 0 {
      assert AddUnits(start, n - 1, g) == start + (n - 1) * UnitMs(g);
    }
  }

  /** Unit counts never shrink when the end moves later. */
  lemma UnitsBetweenMonotone(start: Instant, e1: Instant, e2: Instant, g: Granularity)
    requires e1 <= e2
    ensures UnitsBetween(start, e1, g) <= UnitsBetween(start, e2, g)
  {
    match g {
      case Days =>
      case Hours =>
      case Weeks =>
    }
  }

  /** Unit counts never grow when the start moves later. */
  lemma UnitsBetweenAntitone(s1: Instant, s2: Instant, end: Instant, g: Granularity)
    requires s1 <= s2
    ensures UnitsBetween(s2, end, g) <= UnitsBetween(s1, end, g)
  {
    match g {
      case Days =>
      case Hours =>
      case Weeks =>
    }
  }

  /** One extra unit of span adds exactly one unit to the count. */
  lemma UnitsBetweenPlusUnit(start: Instant, end: Instant, g: Granularity)
    requires start < end
    ensures UnitsBetween(start, end + UnitMs(g), g) == UnitsBetween(start, end, g) + 1
  {
    match g {
      case Days =>
      case Hours =>
      case Weeks =>
    }
  }

  /** Ceilings of two adjacent spans add up to at most one more than the ceiling of the whole. */
  lemma UnitsBetweenSplit(a: Instant, b: Instant, c: Instant, g: Granularity)
    requires a < b < c
    ensures UnitsBetween(a, b, g) + UnitsBetween(b, c, g) <= UnitsBetween(a, c, g) + 1
  {
    match g {
      case Days =>
      case Hours =>
      case Weeks =>
    }
  }

  /**
   * Cutting a span `k` whole units after its start splits its unit count
   * exactly.
   */
  lemma UnitsBetweenAligned(a: Instant, k: nat, c: Instant, g: Granularity)
    requires AddUnits(a, k, g) <= c
    ensures UnitsBetween(a, c, g) == k + UnitsBetween(AddUnits(a, k, g), c, g)
  {
    var b := AddUnits(a, k, g);
    UnitsBetweenAddUnits(a, k, g);
    if b < c {
      var n := UnitsBetween(b, c, g);
      MulShift(k, n, UnitMs(g));
      UnitsBetweenExact(a, c, k + n, g);
    }
  }

  lemma MulShift(k: int, n: int, u: int)
    ensures (k + n - 1) * u == k * u + (n - 1) * u
    ensures (k + n) * u == k * u + n * u
  {
  }

  // ---------------------------------------------------------------------
  // ISO 8601 week numbers (section 4.1.4 of ISO 8601:2004, week dates)
  // ---------------------------------------------------------------------

  /**
   * The Thursday of the Monday-to-Sunday week containing day `d`: the day
   * moved by `4 - dayNum`, where `dayNum` counts Monday as 1 and Sunday as 7.
   */
  function ThursdayOf(d: int): (r: int)
    ensures WeekDay(r) == 4
    ensures r - 3 <= d <= r + 3
  {
    var dayNum := if WeekDay(d) == 0 then 7 else WeekDay(d);
    d + 4 - dayNum
  }

  /**
   * `getWeekNumber`: the week holding the year's first Thursday is week 1,
   * so the week number says which Thursday of its year the date's Thursday is.
   * The source subtracts two `Date.UTC` midnights and divides by a day's
   * milliseconds; here both are day numbers already. `Date.UTC` reads a year
   * from 0 to 99 as 1900 to 1999, so the promises hold from year 101 on
   * (see WeekNumberYear100).
   */
  function WeekNumber(t: Instant): (w: int)
    ensures GetFullYear(t) > 100 ==> 1 <= w <= 53
    ensures GetFullYear(t) > 100 ==>
            var th := ThursdayOf(Day(t));
            YearStart(YearFromDay(th)) + 7 * (w - 1) <= th < YearStart(YearFromDay(th)) + 7 * w
  {
    var d := UtcDay(GetFullYear(t), GetMonth(t), GetDate(t));
    var th := ThursdayOf(d);
    var yearStart := UtcDay(YearFromDay(th), 0, 1);
    WeekNumberDays(t);
    CeilDiv(th - yearStart + 1, 7)
  }

  /**
   * From year 101 on, the two `Date.UTC` calls of `getWeekNumber` give the
   * instant's own day and the first day of its Thursday's year, which
   * holds that Thursday.
   */
  lemma WeekNumberDays(t: Instant)
    ensures GetFullYear(t) > 100 ==>
            var th := ThursdayOf(Day(t));
            var y := YearFromDay(th);
            && UtcDay(GetFullYear(t), GetMonth(t), GetDate(t)) == Day(t)
            && UtcDay(y, 0, 1) == YearStart(y) && YearStart(y) <= th < YearStart(y) + DaysInYear(y)
  {
    if GetFullYear(t) > 100 {
      MakeDayOfCivil(Day(t));
      var th := ThursdayOf(Day(t));
      var y := YearFromDay(th);
      YearFromDaySpan(th);
      YearStartStep(y);
      CivilYear(Day(t));
      YearStartMonotone(101, GetFullYear(t));
      YearStartStep(100);
      if y <= 99 {
        YearStartMonotone(y + 1, 100);
      }
      assert MakeDay(y, 0, 1) == YearStart(y);
    }
  }

  /** The year an ISO week belongs to: that of its Thursday. */
  function IsoWeekYear(t: Instant): int {
    YearFromDay(ThursdayOf(Day(t)))
  }

  // ---------------------------------------------------------------------
  // Labels
  // ---------------------------------------------------------------------

  /** "YYYY-MM-DD": the year as `String` prints it, month and date padded to two digits. */
  function DateText(year: int, month1: int, date: int): string {
    IntToString(year) + "-" + Pad2(month1) + "-" + Pad2(date)
  }

  /** "W<week> <year>". */
  function WeekText(week: int, year: int): string {
    "W" + IntToString(week) + " " + IntToString(year)
  }

  /** "MM-DD HH:00": month, date and hour padded to two digits. */
  function HourText(month1: int, date: int, hour: int): string {
    Pad2(month1) + "-" + Pad2(date) + " " + Pad2(hour) + ":00"
  }

  /**
   * `unitLabel`: "YYYY-MM-DD" for days, "MM-DD HH:00" for hours and
   * "W<week> <year>" for weeks, where the year is the calendar year of the
   * instant (see WeekLabelYearMismatch).
   */
  function UnitLabel(t: Instant, g: Granularity): string {
    match g
    case Days => DateText(GetFullYear(t), GetMonth(t) + 1, GetDate(t))
    case Hours => HourText(GetMonth(t) + 1, GetDate(t), GetHours(t))
    case Weeks => WeekText(WeekNumber(t), GetFullYear(t))
  }

  /** `r` is "<year>-<mm>-<dd>" with two-digit month and date fields that read back as given. */
  predicate DateTextReads(r: string, year: int, month1: int, date: int) {
    |r| >= 7 && r[..|r| - 6] == IntToString(year)
    && r[|r| - 6] == '-' && r[|r| - 3] == '-'
    && AllDigits(r[|r| - 5..|r| - 3]) && DigitsValue(r[|r| - 5..|r| - 3]) == month1
    && AllDigits(r[|r| - 2..]) && DigitsValue(r[|r| - 2..]) == date
  }

  /** `r` is "<mm>-<dd> <hh>:00" with two-digit fields that read back as given. */
  predicate HourTextReads(r: string, month1: int, date: int, hour: int) {
    |r| == 11 && r[2] == '-' && r[5] == ' ' && r[8..] == ":00"
    && AllDigits(r[..2]) && DigitsValue(r[..2]) == month1
    && AllDigits(r[3..5]) && DigitsValue(r[3..5]) == date
    && AllDigits(r[6..8]) && DigitsValue(r[6..8]) == hour
  }

  /** Slicing "<y>-<mm>-<dd>" from the end gives back its three pieces. */
  lemma DatePieces(y: string, mm: string, dd: string)
    requires |y| >= 1 && |mm| == 2 && |dd| == 2
    ensures var r := y + "-" + mm + "-" + dd;
            |r| >= 7 && r[..|r| - 6] == y && r[|r| - 6] == '-' && r[|r| - 3] == '-'
            && r[|r| - 5..|r| - 3] == mm && r[|r| - 2..] == dd
  {
  }

  /** Slicing "<mm>-<dd> <hh>:00" gives back its three pieces. */
  lemma HourPieces(mm: string, dd: string, hh: string)
    requires |mm| == 2 && |dd| == 2 && |hh| == 2
    ensures var r := mm + "-" + dd + " " + hh + ":00";
            |r| == 11 && r[2] == '-' && r[5] == ' ' && r[8..] == ":00"
            && r[..2] == mm && r[3..5] == dd && r[6..8] == hh
  {
  }

  /** A date text reads back as its year, month and date. */
  lemma DateTextFields(year: int, month1: int, date: int)
    requires 1 <= month1 <= 12 && 1 <= date <= 31
    ensures DateTextReads(DateText(year, month1, date), year, month1, date)
  {
    Pad2Digits(month1);
    Pad2Digits(date);
    DatePieces(IntToString(year), Pad2(month1), Pad2(date));
  }

  /** The day label reads back as the instant's year, month and date. */
  lemma DayLabelFields(t: Instant)
    ensures DateTextReads(UnitLabel(t, Days), GetFullYear(t), GetMonth(t) + 1, GetDate(t))
  {
    DateTextFields(GetFullYear(t), GetMonth(t) + 1, GetDate(t));
  }

  /** An hour text is eleven characters that read back as month, date and hour. */
  lemma HourTextFields(month1: int, date: int, hour: int)
    requires 1 <= month1 <= 12 && 1 <= date <= 31 && 0 <= hour < 24
    ensures HourTextReads(HourText(month1, date, hour), month1, date, hour)
  {
    Pad2Digits(month1);
    Pad2Digits(date);
    Pad2Digits(hour);
    HourPieces(Pad2(month1), Pad2(date), Pad2(hour));
  }

  /** The hour label is eleven characters that read back as month, date and hour. */
  lemma HourLabelFields(t: Instant)
    ensures HourTextReads(UnitLabel(t, Hours), GetMonth(t) + 1, GetDate(t), GetHours(t))
  {
    HourTextFields(GetMonth(t) + 1, GetDate(t), GetHours(t));
  }

  /** Week texts are equal exactly when week and year are. */
  lemma WeekTextInjective(w1: int, y1: int, w2: int, y2: int)
    ensures WeekText(w1, y1) == WeekText(w2, y2) <==> w1 == w2 && y1 == y2
  {
    if WeekText(w1, y1) == WeekText(w2, y2) {
      SplitAtSeparator("W", IntToString(w1), ' ', IntToString(y1), IntToString(w2), IntToString(y2));
      IntToStringInjective(w1, w2);
      IntToStringInjective(y1, y2);
    }
  }

  /**
   * The week label as evidently intended: the ISO week number with the
   * ISO week-year, the year of the week's Thursday.
   */
  function IsoWeekLabel(t: Instant): string {
    WeekText(WeekNumber(t), IsoWeekYear(t))
  }

  lemma SameWeekDayWithinWeek(a: int, b: int)
    requires WeekDay(a) == WeekDay(b) && -7 < a - b < 7
    ensures a == b
  {
  }

  /** The week number and the ISO week-year are functions of the week's Thursday alone. */
  lemma WeekNumberByThursday(t1: Instant, t2: Instant)
    requires GetFullYear(t1) > 100 && GetFullYear(t2) > 100
    requires ThursdayOf(Day(t1)) == ThursdayOf(Day(t2))
    ensures WeekNumber(t1) == WeekNumber(t2) && IsoWeekYear(t1) == IsoWeekYear(t2)
  {
    WeekNumberDays(t1);
    WeekNumberDays(t2);
  }

  /** Week number and ISO week-year together pin down the week's Thursday. */
  lemma ThursdayByWeekNumber(t1: Instant, t2: Instant)
    requires GetFullYear(t1) > 100 && GetFullYear(t2) > 100
    requires WeekNumber(t1) == WeekNumber(t2) && IsoWeekYear(t1) == IsoWeekYear(t2)
    ensures ThursdayOf(Day(t1)) == ThursdayOf(Day(t2))
  {
    var a, b := ThursdayOf(Day(t1)), ThursdayOf(Day(t2));
    var ys, w := YearStart(IsoWeekYear(t1)), WeekNumber(t1);
    assert ys + 7 * (w - 1) <= a < ys + 7 * w;
    assert ys + 7 * (w - 1) <= b < ys + 7 * w;
    SameWeekDayWithinWeek(a, b);
  }

  /** Two instants get the same ISO week label exactly when they lie in the same ISO week. */
  lemma IsoWeekLabelIdentifiesWeek(t1: Instant, t2: Instant)
    requires GetFullYear(t1) > 100 && GetFullYear(t2) > 100
    ensures IsoWeekLabel(t1) == IsoWeekLabel(t2) <==> ThursdayOf(Day(t1)) == ThursdayOf(Day(t2))
  {
    WeekTextInjective(WeekNumber(t1), IsoWeekYear(t1), WeekNumber(t2), IsoWeekYear(t2));
    if ThursdayOf(Day(t1)) == ThursdayOf(Day(t2)) {
      WeekNumberByThursday(t1, t2);
    }
    if WeekNumber(t1) == WeekNumber(t2) && IsoWeekYear(t1) == IsoWeekYear(t2) {
      ThursdayByWeekNumber(t1, t2);
    }
  }

  /** The week number counts from the first day of the ISO week-year. */
  lemma WeekNumberFormula(t: Instant)
    requires GetFullYear(t) > 100
    ensures YearStart(IsoWeekYear(t)) <= ThursdayOf(Day(t))
    ensures WeekNumber(t) == CeilDiv(ThursdayOf(Day(t)) - YearStart(IsoWeekYear(t)) + 1, 7)
  {
    YearFromDaySpan(ThursdayOf(Day(t)));
    var w, x := WeekNumber(t), ThursdayOf(Day(t)) - YearStart(IsoWeekYear(t)) + 1;
    assert 7 * (w - 1) < x <= 7 * w;
  }

  /** The fields of local midnight on a valid date of a year after 99 are that date. */
  lemma LocalMidnightFields(y: int, m: int, dt: int)
    requires y > 99 && 0 <= m < 12 && 1 <= dt <= DaysInMonth(y, m)
    ensures var t := LocalDate(y, m, dt, 0);
            Day(t) == MakeDay(y, m, dt) && GetFullYear(t) == y && GetMonth(t) == m && GetDate(t) == dt
  {
    var t := LocalDate(y, m, dt, 0);
    assert t == MakeDate(MakeDay(y, m, dt), 0);
    DayOfMakeDate(MakeDay(y, m, dt), 0);
    CivilFromMakeDay(y, m, dt);
  }

  /** Week number and ISO week-year of an instant whose Thursday is known. */
  lemma WeekOfThursday(t: Instant, th: int, y: int)
    requires GetFullYear(t) > 100
    requires ThursdayOf(Day(t)) == th && YearStart(y) <= th < YearStart(y + 1)
    ensures IsoWeekYear(t) == y && WeekNumber(t) == CeilDiv(th - YearStart(y) + 1, 7)
  {
    YearFromDayUnique(y, th);
    WeekNumberFormula(t);
  }

  /** In a leap year starting on a Monday, January 1 is in week 1 of that year. */
  lemma WeekOfFirstMonday(y: int)
    requires y > 100 && IsLeapYear(y) && WeekDay(YearStart(y)) == 1
    ensures var t := LocalDate(y, 0, 1, 0);
            GetFullYear(t) == y && ThursdayOf(Day(t)) == YearStart(y) + 3
            && WeekNumber(t) == 1 && IsoWeekYear(t) == y
  {
    var t := LocalDate(y, 0, 1, 0);
    LocalMidnightFields(y, 0, 1);
    assert MakeDay(y, 0, 1) == YearStart(y);
    YearStartStep(y);
    WeekOfThursday(t, YearStart(y) + 3, y);
    assert CeilDiv(4, 7) == 1;
  }

  /**
   * In a leap year starting on a Monday, December 30 is a Monday whose
   * Thursday is January 2 of the next year: week 1 of the next year.
   */
  lemma WeekOfLastMonday(y: int)
    requires y > 100 && IsLeapYear(y) && WeekDay(YearStart(y)) == 1
    ensures var t := LocalDate(y, 11, 30, 0);
            GetFullYear(t) == y && ThursdayOf(Day(t)) == YearStart(y + 1) + 1
            && WeekNumber(t) == 1 && IsoWeekYear(t) == y + 1
  {
    var t := LocalDate(y, 11, 30, 0);
    LocalMidnightFields(y, 11, 30);
    LastMondayThursday(y);
    YearStartStep(y + 1);
    WeekOfThursday(t, YearStart(y + 1) + 1, y + 1);
    assert CeilDiv(2, 7) == 1;
  }

  /** December 30 of a leap year starting on a Monday is day 364 of it, and its Thursday is January 2 next. */
  lemma LastMondayThursday(y: int)
    requires IsLeapYear(y) && WeekDay(YearStart(y)) == 1
    ensures MakeDay(y, 11, 30) == YearStart(y) + 364
    ensures ThursdayOf(YearStart(y) + 364) == YearStart(y + 1) + 1
  {
    MonthsFillYear(y);
    assert DaysBeforeMonth(y, 11) == 335;
    WeekDayAfter52Weeks(YearStart(y));
    YearStartStep(y);
  }

  /**
   * Before year 101 the `Date.UTC` year mapping shows through: January 1
   * of year 100 is a Friday whose Thursday lies in year 99, and `Date.UTC`
   * reads that year as 1999, so the week number comes out far below 1.
   */
  lemma WeekNumberYear100()
    ensures var t := LocalDate(100, 0, 1, 0);
            GetFullYear(t) == 100 && WeekNumber(t) < 1
  {
    var t := LocalDate(100, 0, 1, 0);
    LocalMidnightFields(100, 0, 1);
    assert MakeDay(100, 0, 1) == YearStart(100) == -683003;
    assert WeekDay(-683003) == 5 by { assert -683003 + 4 == 7 * -97572 + 5; }
    assert ThursdayOf(Day(t)) == -683004;
    YearStartStep(99);
    YearFromDayUnique(99, -683004);
    assert UtcDay(99, 0, 1) == YearStart(1999) == 10592;
  }

  /**
   * As written, the week label pairs the ISO week number with the calendar
   * year: in a leap year starting on a Monday, January 1 and December 30
   * both read "W1 <year>", though December 30 lies in week 1 of the next year.
   */
  lemma WeekLabelYearMismatch(y: int)
    requires y > 100 && IsLeapYear(y) && WeekDay(YearStart(y)) == 1
    ensures var t1, t2 := LocalDate(y, 0, 1, 0), LocalDate(y, 11, 30, 0);
            && UnitLabel(t1, Weeks) == UnitLabel(t2, Weeks) == WeekText(1, y)
            && ThursdayOf(Day(t1)) != ThursdayOf(Day(t2))
            && IsoWeekLabel(t2) == WeekText(1, y + 1)
  {
    WeekOfFirstMonday(y);
    WeekOfLastMonday(y);
    YearStartStep(y);
  }

  /** 2024 is such a year: "W1 2024" labels both 2024-01-01 and 2024-12-30. */
  lemma WeekLabelYearMismatch2024()
    ensures UnitLabel(LocalDate(2024, 0, 1, 0), Weeks) == UnitLabel(LocalDate(2024, 11, 30, 0), Weeks)
    ensures IsoWeekLabel(LocalDate(2024, 11, 30, 0)) == WeekText(1, 2025)
  {
    var y := 2024;
    assert IsLeapYear(y);
    assert YearStart(y) == 19723;
    assert WeekDay(19723) == 1 by { assert 19723 + 4 == 7 * 2818 + 1; }
    WeekLabelYearMismatch(y);
  }

  /** The Spanish unit noun in the singular. */
  function Noun(g: Granularity): string {
    match g
    case Days => "día"
    case Hours => "hora"
    case Weeks => "semana"
  }

  /**
   * `durationLabel`: the unit count, a space, and the unit noun, plural
   * ("s" appended) for every count but 1.
   */
  function DurationLabel(start: Instant, end: Instant, g: Granularity): (r: string)
    ensures var n := UnitsBetween(start, end, g);
            var k := |NatToString(n)|;
            && k < |r| && r[..k] == NatToString(n) && r[k] == ' '
            && (r[k + 1..] == Noun(g) <==> n == 1)
            && (n != 1 <==> r[|r| - 1] == 's')
            && (n != 1 ==> r[k + 1..] == Noun(g) + "s")
  {
    var n := UnitsBetween(start, end, g);
    NatToString(n) + " " + Noun(g) + (if n != 1 then "s" else "")
  }

  /** The numeral before the space reads back as the unit count. */
  lemma DurationLabelCount(start: Instant, end: Instant, g: Granularity)
    ensures var r := DurationLabel(start, end, g);
            var k := |NatToString(UnitsBetween(start, end, g))|;
            AllDigits(r[..k]) && DigitsValue(r[..k]) == UnitsBetween(start, end, g)
  {
    DigitsValueOfNatToString(UnitsBetween(start, end, g));
  }

  // ---------------------------------------------------------------------
  // Tasks
  // ---------------------------------------------------------------------

  datatype Task = Task(name: string, start: Instant, end: Instant, dependency: string)

  /**
   * A start or end as a caller may supply it: absent, a millisecond count,
   * or a `Date` object. Only the count 0 and absence are falsy.
   */
  datatype RawInstant = Absent | Millis(ms: int) | DateObject(at: Instant) {
    predicate Truthy() {
      DateObject? || (Millis? && ms != 0)
    }
    function Value(): Instant
      requires Truthy()
    {
      if Millis? then ms else at
    }
  }

  datatype RawTask = RawTask(name: Option<string>, start: RawInstant, end: RawInstant, dependency: Option<string>)

  /**
   * `normalizeTask`: missing text becomes empty, a falsy start becomes now
   * and a falsy end becomes now plus one day, whatever the widget's
   * granularity. Nothing orders start and end.
   */
  function NormalizeTask(raw: RawTask, now: Instant): (t: Task)
    ensures t.name == (if raw.name.Some? then raw.name.value else "")
    ensures t.dependency == (if raw.dependency.Some? then raw.dependency.value else "")
    ensures t.start == (if raw.start.Truthy() then raw.start.Value() else now)
    ensures t.end == (if raw.end.Truthy() then raw.end.Value() else now + MS_PER_DAY)
  {
    Task(raw.name.GetOr(""),
         if raw.start.Truthy() then raw.start.Value() else now,
         if raw.end.Truthy() then raw.end.Value() else AddUnits(now, 1, Days),
         raw.dependency.GetOr(""))
  }

  /** A start given as the number 0 counts as missing and becomes now. */
  lemma NormalizeZeroStartIsNow(now: Instant)
    ensures NormalizeTask(RawTask(None, Millis(0), Absent, None), now).start == now
  {
  }

  /** Normalisation keeps an inverted interval as it is. */
  lemma NormalizeKeepsInvertedInterval(now: Instant)
    ensures var t := NormalizeTask(RawTask(Some("A"), DateObject(MS_PER_DAY), DateObject(0), None), now);
            t.end < t.start
  {
  }

  /**
   * `cloneTasks`: a record per task with the same fields, in the same order.
   * With tasks as values the copy shares nothing with the original.
   */
  function CloneTasks(tasks: seq<Task>): (r: seq<Task>)
    ensures |r| == |tasks|
    ensures forall i :: 0 <= i < |r| ==> r[i] == tasks[i]
  {
    seq(|tasks|, i requires 0 <= i < |tasks| =>
      Task(tasks[i].name, tasks[i].start, tasks[i].end, tasks[i].dependency))
  }
}
