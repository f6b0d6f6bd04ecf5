/**
 * The calendar beneath every JavaScript `Date` the Gantt widget handles, on a
 * clock without daylight-saving changes, where local time equals UTC.
 *
 * An instant is a whole number of milliseconds since 1970-01-01T00:00.
 * The definitions follow the date abstract operations of ECMAScript
 * (DayFromYear, YearFromTime, MonthFromTime, DateFromTime, MakeDay, MakeTime,
 * MakeDate), so that the field setters `setDate` and `setHours` and the
 * constructor `new Date(y, m, d, h)` normalise overflowing fields exactly as
 * the language does.
 */
module Calendar {

  type Instant = int

  const MS_PER_HOUR: int := 3600000
  const MS_PER_DAY: int := 86400000

  // ---------------------------------------------------------------------
  // Years
  // ---------------------------------------------------------------------

  predicate IsLeapYear(y: int) {
    y % 4 == 0 && (y % 100 != 0 || y % 400 == 0)
  }

  function DaysInYear(y: int): (n: int)
    ensures n == 365 || n == 366
    ensures n == 366 <==> IsLeapYear(y)
  {
    if IsLeapYear(y) then 366 else 365
  }

  /** ECMAScript's DayFromYear: the day number of January 1 of year `y`. */
  function YearStart(y: int): int {
    365 * (y - 1970) + (y - 1969) / 4 - (y - 1901) / 100 + (y - 1601) / 400
  }

  /** A century year is a leap-rule multiple of 4, and a 400-year multiple is a century year. */
  lemma DivisibilityChain(y: int)
    ensures y % 100 == 0 ==> y % 4 == 0
    ensures y % 400 == 0 ==> y % 100 == 0
  {
    if y % 100 == 0 { assert y == 4 * (25 * (y / 100)); }
    if y % 400 == 0 { assert y == 100 * (4 * (y / 400)); }
  }

  /** Consecutive year starts are one year length apart. */
  lemma YearStartStep(y: int)
    ensures YearStart(y + 1) == YearStart(y) + DaysInYear(y)
  {
    assert (y - 1968) / 4 - (y - 1969) / 4 == if y % 4 == 0 then 1 else 0;
    assert (y - 1900) / 100 - (y - 1901) / 100 == if y % 100 == 0 then 1 else 0;
    assert (y - 1600) / 400 - (y - 1601) / 400 == if y % 400 == 0 then 1 else 0;
    DivisibilityChain(y);
  }

  lemma {:induction false} YearStartMonotone(a: int, b: int)
    requires a <= b
    ensures YearStart(a) <= YearStart(b)
    ensures a < b ==> YearStart(a + 1) <= YearStart(b)
    decreases b - a
  {
    if a < b {
      YearStartStep(a);
      YearStartMonotone(a + 1, b);
    }
  }

  /** Day `d` lies in the year YearFromDay finds. */
  lemma YearFromDaySpan(d: int)
    ensures YearStart(YearFromDay(d)) <= d < YearStart(YearFromDay(d) + 1)
  {
    var y := YearFromDay(d);
    CivilFromDayIn(d);
    YearStartStep(y);
    assert YearStart(y) <= d < YearStart(y) + DaysInYear(y);
  }

  /** Only one year can contain a given day. */
  lemma YearFromDayUnique(y: int, d: int)
    requires YearStart(y) <= d < YearStart(y + 1)
    ensures YearFromDay(d) == y
  {
    var r := YearFromDay(d);
    YearFromDaySpan(d);
    if r < y {
      YearStartMonotone(r, y);
    } else if y < r {
      YearStartMonotone(y, r);
    }
  }

  // ---------------------------------------------------------------------
  // Months and dates (months are 0-based, as `getMonth` returns them)
  // ---------------------------------------------------------------------

  function DaysInMonth(y: int, m: int): (n: int)
    ensures 28 <= n <= 31
  {
    if m == 1 then (if IsLeapYear(y) then 29 else 28)
    else if m == 3 || m == 5 || m == 8 || m == 10 then 30
    else 31
  }

  /** Days of year `y` before the first of month `m`; `m == 12` gives the year length. */
  function DaysBeforeMonth(y: int, m: int): int
    requires 0 <= m <= 12
  {
    if m == 0 then 0 else DaysBeforeMonth(y, m - 1) + DaysInMonth(y, m - 1)
  }

  /** The twelve month lengths add up to the year length. */
  lemma MonthsFillYear(y: int)
    ensures DaysBeforeMonth(y, 12) == DaysInYear(y)
  {
    var leap := if IsLeapYear(y) then 1 else 0;
    assert DaysBeforeMonth(y, 1) == 31;
    assert DaysBeforeMonth(y, 2) == 59 + leap;
    assert DaysBeforeMonth(y, 3) == 90 + leap;
    assert DaysBeforeMonth(y, 4) == 120 + leap;
    assert DaysBeforeMonth(y, 5) == 151 + leap;
    assert DaysBeforeMonth(y, 6) == 181 + leap;
    assert DaysBeforeMonth(y, 7) == 212 + leap;
    assert DaysBeforeMonth(y, 8) == 243 + leap;
    assert DaysBeforeMonth(y, 9) == 273 + leap;
    assert DaysBeforeMonth(y, 10) == 304 + leap;
    assert DaysBeforeMonth(y, 11) == 334 + leap;
  }

  lemma {:induction false} DaysBeforeMonthMonotone(y: int, a: int, b: int)
    requires 0 <= a <= b <= 12
    ensures DaysBeforeMonth(y, a) + 28 * (b - a) <= DaysBeforeMonth(y, b)
    decreases b - a
  {
    if a < b {
      DaysBeforeMonthMonotone(y, a, b - 1);
    }
  }

  function FindMonth(y: int, doy: int, m: int): (r: int)
    requires 0 <= m < 12
    requires DaysBeforeMonth(y, m) <= doy < DaysBeforeMonth(y, 12)
    ensures m <= r < 12
    ensures DaysBeforeMonth(y, r) <= doy < DaysBeforeMonth(y, r + 1)
    decreases 12 - m
  {
    if m == 11 || doy < DaysBeforeMonth(y, m + 1) then m else FindMonth(y, doy, m + 1)
  }

  /** Calendar fields of a day: `month` counts from 0, `date` from 1. */
  datatype Civil = Civil(year: int, month: int, date: int)

  /**
   * ECMAScript's MakeDay: the day number of (year, month, date), where an
   * out-of-range month carries into the year and an out-of-range date
   * simply counts on from the first of the month.
   */
  function MakeDay(year: int, month: int, date: int): int {
    var ym := year + month / 12;
    var mn := month % 12;
    YearStart(ym) + DaysBeforeMonth(ym, mn) + date - 1
  }

  /** The calendar fields of day `d` of year `y`, which starts on day `ys` and holds `d`. */
  function CivilIn(y: int, ys: int, d: int): (c: Civil)
    requires ys <= d < ys + DaysInYear(y)
    ensures c.year == y && 0 <= c.month < 12
    ensures 1 <= c.date <= DaysInMonth(c.year, c.month)
  {
    var doy := d - ys;
    MonthsFillYear(y);
    var m := FindMonth(y, doy, 0);
    Civil(y, m, doy - DaysBeforeMonth(y, m) + 1)
  }

  /**
   * The calendar fields of day `d`, found by walking from year `y`, which
   * starts on day `ys`, to the year that holds `d`: ECMAScript's
   * YearFromTime, the largest year whose start is not after `d`, then the
   * month and date within it.
   */
  function FindCivil(y: int, ys: int, d: int): (c: Civil)
    ensures 0 <= c.month < 12
    ensures 1 <= c.date <= DaysInMonth(c.year, c.month)
    decreases if d >= ys then 0 else 1, if d >= ys then d - ys else ys - d
  {
    if d < ys then FindCivil(y - 1, ys - DaysInYear(y - 1), d)
    else if d >= ys + DaysInYear(y) then FindCivil(y + 1, ys + DaysInYear(y), d)
    else CivilIn(y, ys, d)
  }

  /** The start of the year at which FindCivil's walk stops. */
  function FindYearStart(y: int, ys: int, d: int): int
    decreases if d >= ys then 0 else 1, if d >= ys then d - ys else ys - d
  {
    if d < ys then FindYearStart(y - 1, ys - DaysInYear(y - 1), d)
    else if d >= ys + DaysInYear(y) then FindYearStart(y + 1, ys + DaysInYear(y), d)
    else ys
  }

  /** The walk stops at a year that holds `d`, and reads the fields within it. */
  lemma {:induction false} FindCivilStop(y: int, ys: int, d: int)
    ensures var c, s := FindCivil(y, ys, d), FindYearStart(y, ys, d);
            && s <= d < s + DaysInYear(c.year)
            && c == CivilIn(c.year, s, d)
    decreases if d >= ys then 0 else 1, if d >= ys then d - ys else ys - d
  {
    if d < ys {
      FindCivilStop(y - 1, ys - DaysInYear(y - 1), d);
    } else if d >= ys + DaysInYear(y) {
      FindCivilStop(y + 1, ys + DaysInYear(y), d);
    }
  }

  /** Walking from a true year start keeps the year start true. */
  lemma {:induction false} FindYearStartIsYearStart(y: int, ys: int, d: int)
    requires ys == YearStart(y)
    ensures FindYearStart(y, ys, d) == YearStart(FindCivil(y, ys, d).year)
    decreases if d >= ys then 0 else 1, if d >= ys then d - ys else ys - d
  {
    if d < ys {
      var prev := ys - DaysInYear(y - 1);
      YearStartStep(y - 1);
      FindYearStartIsYearStart(y - 1, prev, d);
      assert FindYearStart(y, ys, d) == FindYearStart(y - 1, prev, d);
      assert FindCivil(y, ys, d) == FindCivil(y - 1, prev, d);
    } else if d >= ys + DaysInYear(y) {
      var next := ys + DaysInYear(y);
      YearStartStep(y);
      FindYearStartIsYearStart(y + 1, next, d);
      assert FindYearStart(y, ys, d) == FindYearStart(y + 1, next, d);
      assert FindCivil(y, ys, d) == FindCivil(y + 1, next, d);
    } else {
      assert FindCivil(y, ys, d) == CivilIn(y, ys, d);
      assert FindYearStart(y, ys, d) == ys;
    }
  }

  /** Walking from a true year start ends at the year whose span holds `d`. */
  lemma FindCivilIn(y: int, ys: int, d: int)
    requires ys == YearStart(y)
    ensures var c := FindCivil(y, ys, d);
            && YearStart(c.year) <= d < YearStart(c.year) + DaysInYear(c.year)
            && c == CivilIn(c.year, YearStart(c.year), d)
  {
    FindCivilStop(y, ys, d);
    FindYearStartIsYearStart(y, ys, d);
  }

  /** Day number to calendar fields; MakeDay undoes it (MakeDayOfCivil). */
  function CivilFromDay(d: int): (c: Civil)
    ensures 0 <= c.month < 12
    ensures 1 <= c.date <= DaysInMonth(c.year, c.month)
  {
    FindCivil(1970, 0, d)
  }

  /** The year that holds day `d`. */
  function YearFromDay(d: int): int {
    CivilFromDay(d).year
  }

  /** The fields of day `d` are those of its day within the year YearFromDay finds. */
  lemma CivilFromDayIn(d: int)
    ensures YearStart(YearFromDay(d)) <= d < YearStart(YearFromDay(d)) + DaysInYear(YearFromDay(d))
    ensures CivilFromDay(d) == CivilIn(YearFromDay(d), YearStart(YearFromDay(d)), d)
  {
    assert YearStart(1970) == 0;
    FindCivilIn(1970, 0, d);
  }

  /** MakeDay undoes CivilFromDay. */
  lemma MakeDayOfCivil(d: int)
    ensures var c := CivilFromDay(d); MakeDay(c.year, c.month, c.date) == d
  {
    CivilFromDayIn(d);
    var y := YearFromDay(d);
    var ys := YearStart(y);
    YearStartStep(y);
    var doy := d - ys;
    MonthsFillYear(y);
    var m := FindMonth(y, doy, 0);
    var dt := doy - DaysBeforeMonth(y, m) + 1;
    assert CivilIn(y, ys, d) == Civil(y, m, dt);
    assert m / 12 == 0 && m % 12 == m;
    assert MakeDay(y, m, dt) == ys + DaysBeforeMonth(y, m) + dt - 1;
  }

  /** The civil year of a day is the year whose span contains it. */
  lemma CivilYear(d: int)
    ensures CivilFromDay(d).year == YearFromDay(d)
    ensures YearStart(CivilFromDay(d).year) <= d < YearStart(CivilFromDay(d).year + 1)
  {
    YearFromDaySpan(d);
  }

  /** Valid calendar fields give a day inside their year, `dt - 1` days after the month starts. */
  lemma MakeDayInYear(y: int, m: int, dt: int)
    requires 0 <= m < 12 && 1 <= dt <= DaysInMonth(y, m)
    ensures MakeDay(y, m, dt) == YearStart(y) + DaysBeforeMonth(y, m) + dt - 1
    ensures YearStart(y) <= MakeDay(y, m, dt) < YearStart(y + 1)
  {
    assert m / 12 == 0 && m % 12 == m;
    assert DaysBeforeMonth(y, m + 1) == DaysBeforeMonth(y, m) + DaysInMonth(y, m);
    YearStartStep(y);
    MonthsFillYear(y);
    DaysBeforeMonthMonotone(y, m + 1, 12);
    DaysBeforeMonthMonotone(y, 0, m);
  }

  /** Only month `m` holds a day of the year between its first day and the next month's. */
  lemma FindMonthUnique(y: int, doy: int, m: int)
    requires 0 <= m < 12 && DaysBeforeMonth(y, m) <= doy < DaysBeforeMonth(y, m + 1)
    ensures DaysBeforeMonth(y, 0) <= doy < DaysBeforeMonth(y, 12)
    ensures FindMonth(y, doy, 0) == m
  {
    DaysBeforeMonthMonotone(y, 0, m);
    DaysBeforeMonthMonotone(y, m + 1, 12);
    var r := FindMonth(y, doy, 0);
    if r < m {
      DaysBeforeMonthMonotone(y, r + 1, m);
    } else if r > m {
      DaysBeforeMonthMonotone(y, m + 1, r);
    }
  }

  /** Valid calendar fields come back unchanged from MakeDay. */
  lemma CivilFromMakeDay(y: int, m: int, dt: int)
    requires 0 <= m < 12 && 1 <= dt <= DaysInMonth(y, m)
    ensures CivilFromDay(MakeDay(y, m, dt)) == Civil(y, m, dt)
  {
    var d := MakeDay(y, m, dt);
    MakeDayInYear(y, m, dt);
    YearFromDayUnique(y, d);
    CivilFromDayIn(d);
    var doy := d - YearStart(y);
    FindMonthUnique(y, doy, m);
    YearStartStep(y);
    assert CivilIn(y, YearStart(y), d) == Civil(y, m, doy - DaysBeforeMonth(y, m) + 1);
  }

  /** Moving the date field by `n` moves the day number by `n`, across month and year ends. */
  lemma MakeDayShift(y: int, m: int, dt: int, n: int)
    ensures MakeDay(y, m, dt + n) == MakeDay(y, m, dt) + n
  {
  }

  /** MakeDay of a civil date's fields with the date moved by `n` is `n` days on. */
  lemma CivilShift(d: int, n: int)
    ensures var c := CivilFromDay(d); MakeDay(c.year, c.month, c.date + n) == d + n
  {
    var c := CivilFromDay(d);
    MakeDayOfCivil(d);
    MakeDayShift(c.year, c.month, c.date, n);
  }

  // ---------------------------------------------------------------------
  // Instants
  // ---------------------------------------------------------------------

  function Day(t: Instant): int { t / MS_PER_DAY }

  function TimeWithinDay(t: Instant): (r: int)
    ensures 0 <= r < MS_PER_DAY
    ensures t == Day(t) * MS_PER_DAY + r
  {
    t % MS_PER_DAY
  }

  function GetFullYear(t: Instant): int { CivilFromDay(Day(t)).year }
  function GetMonth(t: Instant): int { CivilFromDay(Day(t)).month }
  function GetDate(t: Instant): int { CivilFromDay(Day(t)).date }

  function GetHours(t: Instant): (h: int)
    ensures 0 <= h < 24
  {
    TimeWithinDay(t) / MS_PER_HOUR
  }

  /** `getDay`: 0 is Sunday; day 0 (1970-01-01) was a Thursday. */
  function WeekDay(d: int): (w: int)
    ensures 0 <= w < 7
  {
    (d + 4) % 7
  }

  /** Fifty-two weeks on, the weekday is the same. */
  lemma WeekDayAfter52Weeks(d: int)
    ensures WeekDay(d + 364) == WeekDay(d)
  {
    var q := (d + 4) / 7;
    assert d + 364 + 4 == 7 * (q + 52) + (d + 4) % 7;
  }

  /** ECMAScript's MakeDate over MakeDay and MakeTime(hours, 0, 0, 0). */
  function MakeDate(day: int, hours: int): Instant {
    day * MS_PER_DAY + hours * MS_PER_HOUR
  }

  /** An instant built from a day and an hour falls on that day at that hour. */
  lemma DayOfMakeDate(day: int, hours: int)
    requires 0 <= hours < 24
    ensures Day(MakeDate(day, hours)) == day
    ensures TimeWithinDay(MakeDate(day, hours)) == hours * MS_PER_HOUR
  {
    var t := MakeDate(day, hours);
    assert t == day * MS_PER_DAY + hours * MS_PER_HOUR;
    assert 0 <= hours * MS_PER_HOUR < MS_PER_DAY;
  }

  /** `d.setDate(dt)`: replaces the date field, keeping year, month and time of day. */
  function SetDate(t: Instant, dt: int): Instant {
    MakeDay(GetFullYear(t), GetMonth(t), dt) * MS_PER_DAY + TimeWithinDay(t)
  }

  /** `d.setHours(h)`: replaces the hour field, keeping the day, minutes, seconds and milliseconds. */
  function SetHours(t: Instant, h: int): Instant {
    Day(t) * MS_PER_DAY + h * MS_PER_HOUR + TimeWithinDay(t) % MS_PER_HOUR
  }

  /** The year the `Date` constructor and `Date.UTC` use: one from 0 to 99 means 1900 to 1999. */
  function FullYear(year: int): (r: int)
    ensures 0 <= year <= 99 ==> r == 1900 + year
    ensures !(0 <= year <= 99) ==> r == year
  {
    if 0 <= year <= 99 then 1900 + year else year
  }

  /** `new Date(y, m, d)` and `new Date(y, m, d, h, 0, 0)`. */
  function LocalDate(year: int, month: int, date: int, hours: int): Instant {
    MakeDate(MakeDay(FullYear(year), month, date), hours)
  }

  /** `Date.UTC(y, m, d)`, counted in days rather than milliseconds. */
  function UtcDay(year: int, month: int, date: int): int {
    MakeDay(FullYear(year), month, date)
  }

  /** Midnight at the start of the day that contains `t`. */
  function StartOfDay(t: Instant): (r: Instant)
    ensures r <= t < r + MS_PER_DAY
    ensures r % MS_PER_DAY == 0
  {
    Day(t) * MS_PER_DAY
  }

  /** `setDate(getDate() + n)` on the DST-free clock moves by exactly `n` days. */
  lemma SetDateShift(t: Instant, n: int)
    ensures SetDate(t, GetDate(t) + n) == t + n * MS_PER_DAY
  {
    CivilShift(Day(t), n);
  }

  /** `setHours(getHours() + n)` on the DST-free clock moves by exactly `n` hours. */
  lemma SetHoursShift(t: Instant, n: int)
    ensures SetHours(t, GetHours(t) + n) == t + n * MS_PER_HOUR
  {
    MakeDayOfCivil(Day(t));
    var w := TimeWithinDay(t);
    assert w == (w / MS_PER_HOUR) * MS_PER_HOUR + w % MS_PER_HOUR;
  }

  /** An instant within the span of day `d` falls on day `d`. */
  lemma DayOfRange(t: Instant, d: int)
    requires d * MS_PER_DAY <= t < d * MS_PER_DAY + MS_PER_DAY
    ensures Day(t) == d
  {
  }

  /** Rebuilding an instant from its own date fields and hour gives the start of its hour. */
  lemma LocalDateOfFields(t: Instant)
    requires GetFullYear(t) < 0 || GetFullYear(t) > 99
    ensures LocalDate(GetFullYear(t), GetMonth(t), GetDate(t), GetHours(t)) == t - TimeWithinDay(t) % MS_PER_HOUR
  {
    MakeDayOfCivil(Day(t));
    var w := TimeWithinDay(t);
    assert w == (w / MS_PER_HOUR) * MS_PER_HOUR + w % MS_PER_HOUR;
  }
}
