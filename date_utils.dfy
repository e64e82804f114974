/**
 * app/utils/date_utils.py: the Monday-to-Sunday window of a date, the table
 * of week windows offered for a year, and the selection of stored records
 * whose "Fecha" falls in a window.
 */
module DateUtils {
  import opened Wrappers
  import opened Text
  import opened Calendar

  /** A window runs from a Monday to the Sunday six days later. */
  predicate IsWeek(startDate: Date, endDate: Date) {
    Valid(startDate) && Valid(endDate) && Weekday(startDate) == 0 && ToOrdinal(endDate) == ToOrdinal(startDate) + 6
  }

  /** Day b, up to six days after a Monday a, has weekday b - a. */
  lemma WeekdayOffset(a: int, b: int)
    requires (a + 6) % 7 == 0 && a <= b <= a + 6
    ensures (b + 6) % 7 == b - a
  {
    var k := (a + 6) / 7;
    assert b + 6 == 7 * k + (b - a);
  }

  /** Going back weekday(d) days from d lands on a Monday, never before 0001-01-01 (itself a Monday). */
  lemma BackToMonday(d: Date)
    requires Valid(d)
    ensures 1 <= ToOrdinal(d) - Weekday(d) <= ToOrdinal(d) < ToOrdinal(d) - Weekday(d) + 7
    ensures AddDays(d, -Weekday(d)).Success?
    ensures var m := AddDays(d, -Weekday(d)).value; Weekday(m) == 0 && AtMost(m, d)
  {
    OrdinalRange(d);
    var n, w := ToOrdinal(d), Weekday(d);
    assert w == (n + 6) % 7;
    MondayOrdinal(n);
    var r := AddDays(d, -Weekday(d));
    assert r.Success?;
    MondayBefore(d, r.value);
  }

  /** The date weekday(d) days before d is a Monday, on or before d. */
  lemma MondayBefore(d: Date, m: Date)
    requires Valid(d) && Valid(m) && ToOrdinal(m) == ToOrdinal(d) - Weekday(d)
    ensures Weekday(m) == 0 && AtMost(m, d)
  {
    var n := ToOrdinal(d);
    MondayOrdinal(n);
    assert ToOrdinal(m) + 6 == n - (n + 6) % 7 + 6;
    OrderIsOrdinalOrder(m, d);
  }

  /** Ordinal n less its weekday (n + 6) % 7 is the ordinal of a Monday, at least 1 when n is. */
  lemma MondayOrdinal(n: int)
    requires n >= 1
    ensures 1 <= n - (n + 6) % 7 <= n < n - (n + 6) % 7 + 7
    ensures (n - (n + 6) % 7 + 6) % 7 == 0
  {
    var q, w := (n + 6) / 7, (n + 6) % 7;
    assert n + 6 == 7 * q + w && 0 <= w < 7;
    assert q >= 1;
    assert n - w + 6 == 7 * q;
    ModSevenShift(0, q);
  }

  /** The days of the window starting on Monday m are m and the 6 that follow it; day j of it has weekday j. */
  lemma DayOfWeek(m: Date, d: Date)
    requires Valid(m) && Valid(d) && Weekday(m) == 0
    requires ToOrdinal(m) <= ToOrdinal(d) <= ToOrdinal(m) + 6
    ensures Weekday(d) == ToOrdinal(d) - ToOrdinal(m)
  {
    WeekdayOffset(ToOrdinal(m), ToOrdinal(d));
  }

  /**
   * get_week_range(date): the Monday on or before the date and the Sunday
   * after it. Python raises OverflowError when that Sunday is past 9999-12-31.
   */
  function GetWeekRange(date: Date): (r: Result<(Date, Date), DateError>)
    requires Valid(date)
    ensures r.Success? <==> ToOrdinal(date) - Weekday(date) + 6 <= MaxOrdinal
    ensures r.Failure? ==> r.error == OverflowError
    ensures r.Success? ==> IsWeek(r.value.0, r.value.1) && AtMost(r.value.0, date) && AtMost(date, r.value.1)
  {
    BackToMonday(date);
    var startDate := AddDays(date, -Weekday(date)).value;
    match AddDays(startDate, 6)
    case Failure(e) => Failure(e)
    case Success(endDate) =>
      OrderIsOrdinalOrder(date, endDate);
      Success((startDate, endDate))
  }

  /** Every day of a window has that same window. */
  lemma WeekRangeIdempotent(date: Date, other: Date)
    requires Valid(date) && Valid(other) && GetWeekRange(date).Success?
    requires AtMost(GetWeekRange(date).value.0, other) && AtMost(other, GetWeekRange(date).value.1)
    ensures GetWeekRange(other) == GetWeekRange(date)
  {
    var (s, e) := GetWeekRange(date).value;
    OrderIsOrdinalOrder(s, other);
    OrderIsOrdinalOrder(other, e);
    DayOfWeek(s, other);
    BackToMonday(other);
    var r := GetWeekRange(other).value;
    OrderIsOrdinalOrder(r.0, s);
    OrderIsOrdinalOrder(r.1, e);
  }

  /** For a Monday, get_week_range gives the Monday itself and the Sunday six days on. */
  lemma MondayWeekRange(m: Date)
    requires Valid(m) && Weekday(m) == 0 && ToOrdinal(m) + 6 <= MaxOrdinal
    ensures GetWeekRange(m) == Success((m, AddDays(m, 6).value))
  {
    BackToMonday(m);
    var r := GetWeekRange(m).value;
    OrderIsOrdinalOrder(r.0, m);
    OrderIsOrdinalOrder(r.1, AddDays(m, 6).value);
  }

  /** Every day of the window of a Monday has that window. */
  lemma MondayRangeHolds(m: Date, e: Date, d: Date)
    requires Valid(m) && Valid(d) && GetWeekRange(m) == Success((m, e))
    requires ToOrdinal(m) <= ToOrdinal(d) <= ToOrdinal(m) + 6
    ensures GetWeekRange(d) == Success((m, e))
  {
    OrderIsOrdinalOrder(m, d);
    OrderIsOrdinalOrder(d, e);
    WeekRangeIdempotent(m, d);
  }

  /** The ordinal of the Monday of ISO week 1 of year: the week holding 4 January (CPython's _isoweek1monday). */
  function IsoWeek1Monday(year: int): int {
    var firstDay := DaysBeforeYear(year) + 1;
    var firstWeekday := (firstDay + 6) % 7;
    var week1Monday := firstDay - firstWeekday;
    if firstWeekday > 3 then week1Monday + 7 else week1Monday
  }

  /** Week 1 of an ISO year starts on a Monday between 29 December and 4 January. */
  lemma IsoWeek1MondayFacts(year: int)
    ensures (IsoWeek1Monday(year) + 6) % 7 == 0
    ensures DaysBeforeYear(year) - 2 <= IsoWeek1Monday(year) <= DaysBeforeYear(year) + 4
  {
    var firstDay := DaysBeforeYear(year) + 1;
    var week1Monday := firstDay - (firstDay + 6) % 7;
    MondayOrdinalAny(firstDay);
    ModSevenShift(week1Monday + 6, 1);
  }

  /** n less its weekday (n + 6) % 7 is always a Monday, for any integer n. */
  lemma MondayOrdinalAny(n: int)
    ensures n - 6 <= n - (n + 6) % 7 <= n
    ensures (n - (n + 6) % 7 + 6) % 7 == 0
  {
    var q, w := (n + 6) / 7, (n + 6) % 7;
    assert n + 6 == 7 * q + w && 0 <= w < 7;
    assert n - w + 6 == 7 * q;
    ModSevenShift(0, q);
  }

  /** Consecutive ISO years are 52 or 53 weeks long. */
  lemma IsoYearLength(year: int)
    ensures var len := IsoWeek1Monday(year + 1) - IsoWeek1Monday(year); len == 7 * 52 || len == 7 * 53
  {
    YearStep(year);
    IsoWeek1MondayFacts(year);
    IsoWeek1MondayFacts(year + 1);
    MondaysApart(DaysBeforeYear(year), DaysBeforeYear(year + 1), IsoWeek1Monday(year), IsoWeek1Monday(year + 1));
  }

  /** Mondays a and b near the starts lo and hi of a 365- or 366-day year are 52 or 53 weeks apart. */
  lemma MondaysApart(lo: int, hi: int, a: int, b: int)
    requires hi - lo == 365 || hi - lo == 366
    requires lo - 2 <= a <= lo + 4 && hi - 2 <= b <= hi + 4
    requires (a + 6) % 7 == 0 && (b + 6) % 7 == 0
    ensures b - a == 7 * 52 || b - a == 7 * 53
  {
    var qa, qb := (a + 6) / 7, (b + 6) / 7;
    assert a + 6 == 7 * qa && b + 6 == 7 * qb;
    assert b - a == 7 * (qb - qa);
  }

  /** ISO years never run backwards: each one starts at least 52 weeks after the one before. */
  lemma {:induction false} IsoMondaysIncrease(a: int, b: int)
    requires a <= b
    ensures IsoWeek1Monday(a) + 7 * 52 * (b - a) <= IsoWeek1Monday(b)
    decreases b - a
  {
    if a < b {
      var ma, next, mb := IsoWeek1Monday(a), IsoWeek1Monday(a + 1), IsoWeek1Monday(b);
      IsoYearLength(a);
      assert ma + 7 * 52 <= next;
      IsoMondaysIncrease(a + 1, b);
      assert next + 7 * 52 * (b - (a + 1)) <= mb;
    }
  }

  /** Counting back from a Monday the days t lies after it gives t's weekday. */
  lemma OffsetFromMonday(t: int, m: int)
    requires (m + 6) % 7 == 0
    ensures (t - m) % 7 == (t + 6) % 7
  {
    var k := (m + 6) / 7;
    assert m + 6 == 7 * k;
    assert t - m == t + 6 + 7 * (-k);
    ModSevenShift(t + 6, -k);
  }

  /** Day t falls in week w (counted from 0) of an ISO year that starts on Monday m and lasts len days. */
  lemma WeekOf(t: int, m: int, len: int)
    requires (m + 6) % 7 == 0 && (len == 7 * 52 || len == 7 * 53) && m <= t < m + len
    ensures 0 <= (t - m) / 7 <= 52
    ensures (t - m) % 7 == (t + 6) % 7
    ensures m + 7 * ((t - m) / 7) == t - (t + 6) % 7
  {
    OffsetFromMonday(t, m);
    var w := (t - m) / 7;
    assert t - m == 7 * w + (t - m) % 7;
  }

  /**
   * date.isocalendar() as CPython computes it, for the date with ordinal
   * today in the given year: (ISO year, week, weekday), the weekday counted
   * from 1 for Monday. A date before week 1 of its year belongs to the last
   * week of the year before; a date in week 53 or later on or after week 1
   * of the next year belongs to week 1 of that year.
   */
  function IsoPlace(year: int, today: int): (r: (int, int, int))
  {
    var week1Monday := IsoWeek1Monday(year);
    var week, day := (today - week1Monday) / 7, (today - week1Monday) % 7;
    if week < 0 then
      var earlierMonday := IsoWeek1Monday(year - 1);
      (year - 1, (today - earlierMonday) / 7 + 1, (today - earlierMonday) % 7 + 1)
    else if week >= 52 && today >= IsoWeek1Monday(year + 1) then
      (year + 1, 1, day + 1)
    else
      (year, week + 1, day + 1)
  }

  /** date.isocalendar() of a valid date. */
  function IsoCalendar(d: Date): (r: (int, int, int))
    requires Valid(d)
  {
    IsoPlace(d.year, ToOrdinal(d))
  }

  /** get_week_number(date): date.isocalendar()[1]. */
  function GetWeekNumber(date: Date): (n: int)
    requires Valid(date)
    ensures 1 <= n <= 53
  {
    IsoCalendarPlace(date);
    IsoCalendar(date).1
  }

  /**
   * Day t lies in week r.1 of ISO year r.0: r.1 is 1 to 53, t's Monday is
   * r.1 - 1 weeks after the Monday of week 1 of r.0, and t comes before
   * week 1 of the ISO year after.
   */
  ghost predicate InIsoWeek(t: int, r: (int, int, int)) {
    && 1 <= r.1 <= 53
    && IsoWeek1Monday(r.0) + 7 * (r.1 - 1) == t - (t + 6) % 7
    && t < IsoWeek1Monday(r.0 + 1)
  }

  /**
   * For day today of year, isocalendar() gives the ISO week holding it, in
   * year or a neighbour, and the day's weekday plus one.
   */
  lemma IsoPlaceWeek(year: int, today: int, r: (int, int, int))
    requires DaysBeforeYear(year) < today <= DaysBeforeYear(year + 1) && r == IsoPlace(year, today)
    ensures InIsoWeek(today, r) && r.2 == (today + 6) % 7 + 1
    ensures year - 1 <= r.0 <= year + 1
  {
    var e, m, n := IsoWeek1Monday(year - 1), IsoWeek1Monday(year), IsoWeek1Monday(year + 1);
    var later := IsoWeek1Monday(year + 2);
    var lo, hi := DaysBeforeYear(year), DaysBeforeYear(year + 1);
    IsoStartsOf(year);
    IsoPlaceCases(year, today, e, m, n);
    IsoBranches(year, today, lo, hi, e, m, n, later, r);
    IsoPlaceFinish(year, today, e, m, n, later, r);
  }

  /**
   * The ISO years around a calendar year running from day lo + 1 to hi
   * start on the Mondays e, m, n and later, 52 or 53 weeks apart, with m
   * and n near the calendar years' starts.
   */
  ghost predicate IsoStarts(lo: int, hi: int, e: int, m: int, n: int, later: int) {
    && (e + 6) % 7 == 0 && (m + 6) % 7 == 0 && (n + 6) % 7 == 0
    && (m - e == 7 * 52 || m - e == 7 * 53)
    && (n - m == 7 * 52 || n - m == 7 * 53)
    && (later - n == 7 * 52 || later - n == 7 * 53)
    && lo - 2 <= m <= lo + 4 && hi - 2 <= n <= hi + 4
  }

  /** IsoStarts holds around every calendar year. */
  lemma IsoStartsOf(year: int)
    ensures IsoStarts(DaysBeforeYear(year), DaysBeforeYear(year + 1),
      IsoWeek1Monday(year - 1), IsoWeek1Monday(year), IsoWeek1Monday(year + 1), IsoWeek1Monday(year + 2))
  {
    IsoWeek1MondayFacts(year - 1);
    IsoWeek1MondayFacts(year);
    IsoWeek1MondayFacts(year + 1);
    IsoYearLength(year - 1);
    IsoYearLength(year);
    IsoYearLength(year + 1);
  }

  /** The branch facts restated in terms of week 1 of the ISO year r.0 and of the one after it. */
  lemma IsoPlaceFinish(year: int, t: int, e: int, m: int, n: int, later: int, r: (int, int, int))
    requires e == IsoWeek1Monday(year - 1) && m == IsoWeek1Monday(year)
    requires n == IsoWeek1Monday(year + 1) && later == IsoWeek1Monday(year + 2)
    requires r.0 == year - 1 ==> e + 7 * (r.1 - 1) == t - (t + 6) % 7 && t < m
    requires r.0 == year ==> m + 7 * (r.1 - 1) == t - (t + 6) % 7 && t < n
    requires r.0 == year + 1 ==> n + 7 * (r.1 - 1) == t - (t + 6) % 7 && t < later
    requires year - 1 <= r.0 <= year + 1
    requires 1 <= r.1 <= 53
    ensures InIsoWeek(t, r)
  {
    if r.0 == year - 1 {
      assert IsoWeek1Monday(r.0) == e && IsoWeek1Monday(r.0 + 1) == m;
    } else if r.0 == year {
      assert IsoWeek1Monday(r.0) == m && IsoWeek1Monday(r.0 + 1) == n;
    } else {
      assert IsoWeek1Monday(r.0) == n && IsoWeek1Monday(r.0 + 1) == later;
    }
  }

  /** isocalendar() in terms of the Mondays of week 1 of the year, the year before and the year after. */
  lemma IsoPlaceCases(year: int, t: int, e: int, m: int, n: int)
    requires e == IsoWeek1Monday(year - 1) && m == IsoWeek1Monday(year) && n == IsoWeek1Monday(year + 1)
    ensures IsoPlace(year, t) == (
      if (t - m) / 7 < 0 then (year - 1, (t - e) / 7 + 1, (t - e) % 7 + 1)
      else if (t - m) / 7 >= 52 && t >= n then (year + 1, 1, (t - m) % 7 + 1)
      else (year, (t - m) / 7 + 1, (t - m) % 7 + 1))
  {
  }

  /**
   * The three branches of isocalendar() on day t of a calendar year whose
   * ISO years start on the Mondays e (the year before), m, n and later: r lies in the
   * ISO year starting on one of e, m and n, before the next one starts.
   */
  lemma IsoBranches(year: int, t: int, lo: int, hi: int, e: int, m: int, n: int, later: int, r: (int, int, int))
    requires IsoStarts(lo, hi, e, m, n, later) && lo < t <= hi
    requires r == (
      if (t - m) / 7 < 0 then (year - 1, (t - e) / 7 + 1, (t - e) % 7 + 1)
      else if (t - m) / 7 >= 52 && t >= n then (year + 1, 1, (t - m) % 7 + 1)
      else (year, (t - m) / 7 + 1, (t - m) % 7 + 1))
    ensures 1 <= r.1 <= 53 && r.2 == (t + 6) % 7 + 1
    ensures r.0 == year - 1 ==> e + 7 * (r.1 - 1) == t - (t + 6) % 7 && t < m
    ensures r.0 == year ==> m + 7 * (r.1 - 1) == t - (t + 6) % 7 && t < n
    ensures r.0 == year + 1 ==> n + 7 * (r.1 - 1) == t - (t + 6) % 7 && t < later
    ensures year - 1 <= r.0 <= year + 1
  {
    IsoWeekArithmetic(t, lo, hi, e, m, n, later);
  }

  /** The same for a valid date, in the terms of weekday(). */
  lemma IsoCalendarPlace(d: Date)
    requires Valid(d)
    ensures InIsoWeek(ToOrdinal(d), IsoCalendar(d))
    ensures IsoCalendar(d).2 == Weekday(d) + 1 && d.year - 1 <= IsoCalendar(d).0 <= d.year + 1
  {
    var t := ToOrdinal(d);
    assert Weekday(d) == (t + 6) % 7;
    OrdinalRange(d);
    IsoPlaceWeek(d.year, t, IsoCalendar(d));
  }

  /**
   * Friday 2021-01-01 is in week 53 of ISO year 2020, and Monday 2024-12-30
   * starts week 1 of ISO year 2025.
   */
  lemma IsoCalendarExamples()
    ensures IsoCalendar(Date(2021, 1, 1)) == (2020, 53, 5)
    ensures IsoCalendar(Date(2024, 12, 30)) == (2025, 1, 1)
  {
    assert DaysBeforeYear(2020) == 737424 && DaysBeforeYear(2021) == 737790;
    assert IsoWeek1Monday(2020) == 737423 && IsoWeek1Monday(2021) == 737794;
    assert ToOrdinal(Date(2021, 1, 1)) == 737791;
    assert DaysBeforeYear(2024) == 738885 && DaysBeforeYear(2025) == 739251;
    assert IsoWeek1Monday(2024) == 738886 && IsoWeek1Monday(2025) == 739250;
    assert ToOrdinal(Date(2024, 12, 30)) == 739250;
  }

  /** A later ISO year starts no earlier than the one after an earlier year. */
  lemma IsoMondaysOrder(a: int, b: int)
    ensures a < b ==> IsoWeek1Monday(a + 1) <= IsoWeek1Monday(b)
  {
    if a < b {
      IsoMondaysIncrease(a + 1, b);
    }
  }

  /** Two days with the same Monday lie in the same ISO week of the same ISO year. */
  lemma InIsoWeekUnique(t1: int, r1: (int, int, int), t2: int, r2: (int, int, int))
    requires InIsoWeek(t1, r1) && InIsoWeek(t2, r2) && t1 - (t1 + 6) % 7 == t2 - (t2 + 6) % 7
    ensures r1.0 == r2.0 && r1.1 == r2.1
  {
    IsoYearNotBefore(t1, r1, t2, r2);
    IsoYearNotBefore(t2, r2, t1, r1);
  }

  /** A day is not in an earlier ISO year than a day with the same Monday. */
  lemma IsoYearNotBefore(t1: int, r1: (int, int, int), t2: int, r2: (int, int, int))
    requires InIsoWeek(t1, r1) && InIsoWeek(t2, r2) && t1 - (t1 + 6) % 7 == t2 - (t2 + 6) % 7
    ensures r2.0 <= r1.0
  {
    IsoMondaysOrder(r1.0, r2.0);
  }

  /** All the days of one Monday-to-Sunday window have the same week number. */
  lemma WeekNumberOfWindow(date: Date, other: Date)
    requires Valid(date) && Valid(other)
    requires ToOrdinal(other) - Weekday(other) == ToOrdinal(date) - Weekday(date)
    ensures GetWeekNumber(other) == GetWeekNumber(date)
  {
    var t1, t2 := ToOrdinal(date), ToOrdinal(other);
    assert Weekday(date) == (t1 + 6) % 7 && Weekday(other) == (t2 + 6) % 7;
    IsoCalendarPlace(date);
    IsoCalendarPlace(other);
    InIsoWeekUnique(t1, IsoCalendar(date), t2, IsoCalendar(other));
  }

  /**
   * The arithmetic of the three branches of isocalendar() for day t of a
   * year running from lo + 1 to hi whose ISO years start on the Mondays e
   * (the year before), m, n and later.
   */
  lemma IsoWeekArithmetic(t: int, lo: int, hi: int, e: int, m: int, n: int, later: int)
    requires (e + 6) % 7 == 0 && (m + 6) % 7 == 0 && (n + 6) % 7 == 0
    requires m - e == 7 * 52 || m - e == 7 * 53
    requires n - m == 7 * 52 || n - m == 7 * 53
    requires later - n == 7 * 52 || later - n == 7 * 53
    requires lo < t <= hi && lo - 2 <= m <= lo + 4 && hi - 2 <= n <= hi + 4
    ensures (t - m) % 7 == (t + 6) % 7
    ensures t < m ==>
      && 1 <= (t - e) / 7 + 1 <= 53 && e + 7 * ((t - e) / 7) == t - (t + 6) % 7 && (t - e) % 7 == (t + 6) % 7
    ensures m <= t && (t - m) / 7 >= 52 && n <= t ==> n == t - (t + 6) % 7 && t < later
    ensures m <= t && !((t - m) / 7 >= 52 && n <= t) ==>
      && 1 <= (t - m) / 7 + 1 <= 53 && m + 7 * ((t - m) / 7) == t - (t + 6) % 7 && t < n
  {
    OffsetFromMonday(t, m);
    if t < m {
      WeekOf(t, e, m - e);
    } else if (t - m) / 7 >= 52 && n <= t {
      WeekOf(t, n, later - n);
    } else {
      WeekOf(t, m, n - m);
    }
  }

  /** One entry of the week table: (week_start, week_end, label). */
  datatype Week = Week(weekStart: Date, weekEnd: Date, caption: string)

  /** "Semana n (dd/mm - dd/mm)". */
  function Label(n: nat, startDate: Date, endDate: Date): string
    requires Valid(startDate) && Valid(endDate)
  {
    "Semana " + NatToString(n) + " (" + DayMonth(startDate) + " - " + DayMonth(endDate) + ")"
  }

  /** The ordinal of the Monday on or before 1 January of year, where the week table starts. */
  function TableStart(year: int): int
    requires MinYear <= year <= MaxYear
  {
    var jan1 := Date(year, 1, 1);
    ToOrdinal(jan1) - Weekday(jan1)
  }

  lemma ModSevenShift(a: int, i: int)
    ensures (a + 7 * i) % 7 == a % 7
  {
  }

  /**
   * Where the table's windows fall: the first starts at most six days before
   * 1 January and window 52 still starts inside the year.
   */
  lemma TableBounds(year: int)
    requires MinYear <= year <= MaxYear
    ensures 1 <= TableStart(year) <= ToOrdinal(Date(year, 1, 1)) < TableStart(year) + 7
    ensures (TableStart(year) + 6) % 7 == 0
    ensures TableStart(year) + 7 * 52 <= DaysBeforeYear(year + 1) <= MaxOrdinal
  {
    var jan1 := Date(year, 1, 1);
    var n := ToOrdinal(jan1);
    assert n == DaysBeforeYear(year) + 1;
    YearsIncrease(1, year);
    MondayOrdinal(n);
    assert TableStart(year) == n - (n + 6) % 7;
    YearStep(year);
    YearsIncrease(year + 1, MaxYear + 1);
    MaxOrdinalValue();
  }

  /** Before 9999 the Sunday of window 52 is still a representable date. */
  lemma TableFits(year: int)
    requires MinYear <= year < MaxYear
    ensures TableStart(year) + 7 * 52 + 6 <= MaxOrdinal
  {
    var jan1 := Date(year, 1, 1);
    BackToMonday(jan1);
    assert ToOrdinal(jan1) == DaysBeforeYear(year) + 1;
    YearsIncrease(year, year + 2);
    YearsIncrease(year + 2, MaxYear + 1);
  }

  /**
   * 1 January 9999 is a Friday (ordinal 3651695), so the table starts on
   * ordinal 3651691 and the Sunday of window 52 would be ordinal 3652061,
   * two days past date.max.
   */
  lemma LastYearTable()
    ensures TableStart(MaxYear) == 3651691 && MaxOrdinal == 3652059
    ensures TableStart(MaxYear) + 7 * 51 + 6 <= MaxOrdinal < TableStart(MaxYear) + 7 * 52 + 6
  {
    assert DaysBeforeYear(MaxYear) == 3651694;
    assert ToOrdinal(Date(MaxYear, 1, 1)) == 3651695;
    assert Weekday(Date(MaxYear, 1, 1)) == 4;
    assert DaysBeforeYear(MaxYear + 1) == 3652059;
  }

  /** The last window whose Sunday is a representable date: 52 before 9999, 51 in 9999. */
  lemma LastWindow(year: int)
    requires MinYear <= year <= MaxYear
    ensures year < MaxYear ==> TableStart(year) + 7 * 52 + 6 <= MaxOrdinal
    ensures year == MaxYear ==> TableStart(year) + 7 * 51 + 6 <= MaxOrdinal < TableStart(year) + 7 * 52 + 6
  {
    if year < MaxYear {
      TableFits(year);
    } else {
      LastYearTable();
    }
  }

  /** start_date: the Monday on or before 1 January. */
  function FirstMonday(year: int): (d: Date)
    requires MinYear <= year <= MaxYear
    ensures Valid(d) && ToOrdinal(d) == TableStart(year) && Weekday(d) == 0
  {
    var jan1 := Date(year, 1, 1);
    BackToMonday(jan1);
    AddDays(jan1, 0 - Weekday(jan1)).value
  }

  /** Window i of year starts no later than 31 December. */
  predicate StartsInYear(year: int, i: int)
    requires MinYear <= year <= MaxYear
  {
    0 <= i && TableStart(year) + 7 * i <= DaysBeforeYear(year + 1)
  }

  /** Window i of year starts no later than 31 December and its Sunday is a representable date. */
  predicate WindowFits(year: int, i: int)
    requires MinYear <= year <= MaxYear
  {
    StartsInYear(year, i) && TableStart(year) + 7 * i + 6 <= MaxOrdinal
  }

  /** The 53 rounds of the loop start inside the year; only in 9999 does the last one not fit. */
  lemma TableWindowsFit(year: int, i: int)
    requires MinYear <= year <= MaxYear && 0 <= i <= 52
    ensures StartsInYear(year, i)
    ensures WindowFits(year, i) <==> (year < MaxYear || i < 52)
  {
    TableBounds(year);
    LastWindow(year);
  }

  /** week_start of entry i: start_date + 7 i days. */
  function WindowStart(year: int, i: int): (d: Date)
    requires MinYear <= year <= MaxYear && StartsInYear(year, i)
    ensures Valid(d) && ToOrdinal(d) == TableStart(year) + 7 * i && d.year <= year
  {
    TableBounds(year);
    var d := AddDays(FirstMonday(year), 7 * i).value;
    YearAtMost(d, year);
    d
  }

  /** Entry i of the table, computed as the loop body computes it. */
  function WeekAt(year: int, i: int): (w: Week)
    requires MinYear <= year <= MaxYear && WindowFits(year, i)
  {
    var weekStart := WindowStart(year, i);
    var weekEnd := AddDays(weekStart, 6).value;
    Week(weekStart, weekEnd, Label(i + 1, weekStart, weekEnd))
  }

  /**
   * Entry i is the Monday-to-Sunday window 7 i days after start_date, it
   * starts in the year or before it, it is the window get_week_range gives
   * for its own Monday, and its label numbers it i + 1.
   */
  lemma WeekAtShape(year: int, i: int)
    requires MinYear <= year <= MaxYear && WindowFits(year, i)
    ensures var w := WeekAt(year, i);
      IsWeek(w.weekStart, w.weekEnd) && ToOrdinal(w.weekStart) == TableStart(year) + 7 * i &&
      w.weekStart.year <= year && w.caption == Label(i + 1, w.weekStart, w.weekEnd) &&
      GetWeekRange(w.weekStart) == Success((w.weekStart, w.weekEnd))
  {
    var weekStart := WindowStart(year, i);
    TableBounds(year);
    ModSevenShift(TableStart(year) + 6, i);
    assert Weekday(weekStart) == 0;
    MondayWeekRange(weekStart);
  }

  /** One round of the loop: where week_start lands and whether week_end overflows. */
  lemma WindowStep(year: int, week: int)
    requires MinYear <= year <= MaxYear && 0 <= week <= 52
    ensures StartsInYear(year, week)
    ensures AddDays(FirstMonday(year), 7 * week) == Success(WindowStart(year, week))
    ensures AddDays(WindowStart(year, week), 6).Success? <==> WindowFits(year, week)
    ensures WindowFits(year, week) <==> (year < MaxYear || week < 52)
    ensures WindowFits(year, week) ==>
      var weekStart := WindowStart(year, week);
      var weekEnd := AddDays(weekStart, 6).value;
      Week(weekStart, weekEnd, Label(week + 1, weekStart, weekEnd)) == WeekAt(year, week)
  {
    TableWindowsFit(year, week);
    TableBounds(year);
    var weekStart := WindowStart(year, week);
    assert ToOrdinal(weekStart) == TableStart(year) + 7 * week;
    assert AddDays(weekStart, 6).Success? <==> TableStart(year) + 7 * week + 6 <= MaxOrdinal;
  }

  /** The first n entries of the table of year, in the order the loop appends them. */
  function Windows(year: int, n: int): (t: seq<Week>)
    requires MinYear <= year <= MaxYear && 0 <= n
    requires n > 0 ==> WindowFits(year, n - 1)
    ensures |t| == n
    decreases n
  {
    if n == 0 then [] else Windows(year, n - 1) + [WeekAt(year, n - 1)]
  }

  lemma {:induction false} WindowsAt(year: int, n: int, i: int)
    requires MinYear <= year <= MaxYear && 0 <= n
    requires n > 0 ==> WindowFits(year, n - 1)
    requires 0 <= i < n
    ensures WindowFits(year, i) && Windows(year, n)[i] == WeekAt(year, i)
    decreases n
  {
    var shorter := Windows(year, n - 1);
    var last := WeekAt(year, n - 1);
    assert Windows(year, n) == shorter + [last];
    IndexOfAppend(shorter, last, i);
    if i < n - 1 {
      WindowsAt(year, n - 1, i);
    }
  }

  /** Indexing a sequence extended by one element. */
  lemma IndexOfAppend<T>(a: seq<T>, x: T, i: int)
    requires 0 <= i <= |a|
    ensures (a + [x])[i] == if i < |a| then a[i] else x
  {
  }

  /** The table get_weeks_range(year) returns for a year whose windows are all representable. */
  function WeekTable(year: int): (t: seq<Week>)
    requires MinYear <= year < MaxYear
    ensures |t| == 53
  {
    TableWindowsFit(year, 52);
    Windows(year, 53)
  }

  /**
   * get_weeks_range(year). date(year, 1, 1) raises ValueError outside
   * 1..9999 (OverflowError when the year does not fit a C int); in 9999 the Sunday of window 52 is past date.max and Python
   * raises OverflowError; otherwise the loop runs its 53 rounds, because no
   * window ever starts in the next year and the break never fires.
   */
  method GetWeeksRange(year: int) returns (r: Result<seq<Week>, DateError>)
    ensures !(MinYear <= year <= MaxYear) ==> r == Failure(YearError(year))
    ensures year == MaxYear ==> r == Failure(OverflowError)
    ensures MinYear <= year < MaxYear ==> r == Success(WeekTable(year))
  {
    if !(MinYear <= year <= MaxYear) {
      return Failure(YearError(year));
    }
    var startDate := FirstMonday(year);
    var weeks: seq<Week> := [];
    for week := 0 to 53
      invariant |weeks| == week
      invariant year == MaxYear ==> week <= 52
      invariant week > 0 ==> WindowFits(year, week - 1)
      invariant weeks == Windows(year, week)
    {
      WindowStep(year, week);
      var weekStart := AddDays(startDate, 7 * week).value;
      var weekEnd := AddDays(weekStart, 6);
      if weekEnd.Failure? {
        return Failure(weekEnd.error);
      }
      if weekStart.year > year {
        break;
      }
      var caption := Label(week + 1, weekStart, weekEnd.value);
      weeks := weeks + [Week(weekStart, weekEnd.value, caption)];
    }
    assert weeks == WeekTable(year);
    return Success(weeks);
  }

  /** Entry i of the table: see WeekAtShape. */
  lemma WeekTableEntry(year: int, i: int)
    requires MinYear <= year < MaxYear && 0 <= i < 53
    ensures WindowFits(year, i) && WeekTable(year)[i] == WeekAt(year, i)
    ensures var w := WeekTable(year)[i];
      IsWeek(w.weekStart, w.weekEnd) && ToOrdinal(w.weekStart) == TableStart(year) + 7 * i &&
      w.weekStart.year <= year && w.caption == Label(i + 1, w.weekStart, w.weekEnd) &&
      GetWeekRange(w.weekStart) == Success((w.weekStart, w.weekEnd))
  {
    TableWindowsFit(year, 52);
    WindowsAt(year, 53, i);
    WeekAtShape(year, i);
  }

  /** Each window begins on the Monday right after the Sunday that ends the one before it. */
  lemma WeekTableContiguous(year: int, i: int)
    requires MinYear <= year < MaxYear && 0 <= i < 52
    ensures Valid(WeekTable(year)[i].weekEnd)
    ensures AddDays(WeekTable(year)[i].weekEnd, 1) == Success(WeekTable(year)[i + 1].weekStart)
  {
    WeekTableEntry(year, i);
    WeekTableEntry(year, i + 1);
    var t := WeekTable(year);
    OrderIsOrdinalOrder(AddDays(t[i].weekEnd, 1).value, t[i + 1].weekStart);
  }

  /** The first entry is the window of 1 January, as get_week_range gives it. */
  lemma WeekTableFirst(year: int)
    requires MinYear <= year < MaxYear
    ensures GetWeekRange(Date(year, 1, 1)) == Success((WeekTable(year)[0].weekStart, WeekTable(year)[0].weekEnd))
  {
    WeekTableEntry(year, 0);
    FirstWindow(year);
  }

  lemma FirstWindow(year: int)
    requires MinYear <= year <= MaxYear && WindowFits(year, 0)
    ensures GetWeekRange(Date(year, 1, 1)) == Success((WeekAt(year, 0).weekStart, WeekAt(year, 0).weekEnd))
  {
    var weekStart := WindowStart(year, 0);
    var jan1 := Date(year, 1, 1);
    TableBounds(year);
    assert Weekday(weekStart) == 0;
    MondayWeekRange(weekStart);
    MondayRangeHolds(weekStart, AddDays(weekStart, 6).value, jan1);
  }

  /** Some window of the table holds the day d. */
  predicate InTable(t: seq<Week>, d: Date) {
    exists i :: 0 <= i < |t| && AtMost(t[i].weekStart, d) && AtMost(d, t[i].weekEnd)
  }

  /** The first n windows hold exactly the days from start_date to 7 n - 1 days after it. */
  lemma WindowsSpan(year: int, n: int, d: Date)
    requires MinYear <= year <= MaxYear && 0 <= n
    requires n > 0 ==> WindowFits(year, n - 1)
    requires Valid(d)
    ensures InTable(Windows(year, n), d) <==> TableStart(year) <= ToOrdinal(d) < TableStart(year) + 7 * n
  {
    var t := Windows(year, n);
    var start := TableStart(year);
    if start <= ToOrdinal(d) < start + 7 * n {
      var i := (ToOrdinal(d) - start) / 7;
      WindowsAt(year, n, i);
      WeekAtShape(year, i);
      OrderIsOrdinalOrder(t[i].weekStart, d);
      OrderIsOrdinalOrder(d, t[i].weekEnd);
    }
    if InTable(t, d) {
      var i :| 0 <= i < |t| && AtMost(t[i].weekStart, d) && AtMost(d, t[i].weekEnd);
      WindowsAt(year, n, i);
      WeekAtShape(year, i);
      OrderIsOrdinalOrder(t[i].weekStart, d);
      OrderIsOrdinalOrder(d, t[i].weekEnd);
    }
  }

  /** 31 December is the last day of the year: its ordinal is the days before the next year. */
  lemma NewYearsEve(year: int)
    requires MinYear <= year <= MaxYear
    ensures Valid(Date(year, 12, 31)) && ToOrdinal(Date(year, 12, 31)) == DaysBeforeYear(year + 1)
  {
    YearStep(year);
    LastMonth(year);
  }

  /** A leap year whose 1 January is a Sunday. */
  predicate LeapSundayYear(year: int)
    requires MinYear <= year <= MaxYear
  {
    IsLeap(year) && Weekday(Date(year, 1, 1)) == 6
  }

  /**
   * The 53 windows miss a day of the year exactly when the year is a leap
   * year starting on a Sunday, and the day they miss is 31 December.
   */
  lemma WeekTableCoverage(year: int, d: Date)
    requires MinYear <= year < MaxYear && Valid(d) && d.year == year
    ensures InTable(WeekTable(year), d) <==> !(LeapSundayYear(year) && d == Date(year, 12, 31))
  {
    TableWindowsFit(year, 52);
    WindowsSpan(year, 53, d);
    TableBounds(year);
    OrdinalRange(d);
    YearStep(year);
    NewYearsEve(year);
    OrderIsOrdinalOrder(d, Date(year, 12, 31));
    assert ToOrdinal(Date(year, 1, 1)) == DaysBeforeYear(year) + 1;
  }

  /**
   * In a leap year whose 1 January is a Sunday the last window ends on
   * Sunday 30 December and 31 December is in no window the table offers.
   */
  lemma LeapSundayYearMissesDay(year: int)
    requires MinYear <= year < MaxYear && LeapSundayYear(year)
    ensures WeekTable(year)[52].weekEnd == Date(year, 12, 30)
    ensures !InTable(WeekTable(year), Date(year, 12, 31))
  {
    WeekTableEntry(year, 52);
    TableBounds(year);
    YearStep(year);
    NewYearsEve(year);
    assert ToOrdinal(Date(year, 1, 1)) == DaysBeforeYear(year) + 1;
    OrderIsOrdinalOrder(WeekTable(year)[52].weekEnd, Date(year, 12, 30));
    WeekTableCoverage(year, Date(year, 12, 31));
  }

  /** 2012 is such a year: a leap year whose 1 January is a Sunday. */
  lemma LeapSunday2012()
    ensures IsLeap(2012) && Weekday(Date(2012, 1, 1)) == 6
  {
    assert DaysBeforeYear(2012) == 734502;
  }

  /** The number of windows that start on or before 31 December. */
  function WeekCount(year: int): int
    requires MinYear <= year <= MaxYear
  {
    (DaysBeforeYear(year + 1) - TableStart(year)) / 7 + 1
  }

  /** 53 windows start inside a year, 54 in a leap year starting on a Sunday; the last one fits before 9999. */
  lemma WeekCountValue(year: int)
    requires MinYear <= year < MaxYear
    ensures WeekCount(year) == if LeapSundayYear(year) then 54 else 53
    ensures WindowFits(year, WeekCount(year) - 1)
  {
    TableBounds(year);
    YearStep(year);
    assert ToOrdinal(Date(year, 1, 1)) == DaysBeforeYear(year) + 1;
    YearsIncrease(year + 1, year + 2);
    YearsIncrease(year + 2, MaxYear + 1);
  }

  /**
   * The table the loop evidently means to build: every window that starts
   * on or before 31 December, which a loop of 54 rounds with the same break
   * would give.
   */
  function CoveringWeekTable(year: int): (t: seq<Week>)
    requires MinYear <= year < MaxYear
    ensures |t| == WeekCount(year)
  {
    WeekCountValue(year);
    Windows(year, WeekCount(year))
  }

  /** The corrected table holds every day of the year. */
  lemma CoveringWeekTableCovers(year: int, d: Date)
    requires MinYear <= year < MaxYear && Valid(d) && d.year == year
    ensures InTable(CoveringWeekTable(year), d)
  {
    WeekCountValue(year);
    WindowsSpan(year, WeekCount(year), d);
    TableBounds(year);
    OrdinalRange(d);
    assert ToOrdinal(Date(year, 1, 1)) == DaysBeforeYear(year) + 1;
  }

  /**
   * The corrected table starts with the 53 windows get_weeks_range gives and
   * adds a 54th exactly in the years where those miss 31 December.
   */
  lemma CoveringWeekTableExtends(year: int)
    requires MinYear <= year < MaxYear
    ensures |CoveringWeekTable(year)| == 53 || |CoveringWeekTable(year)| == 54
    ensures |CoveringWeekTable(year)| == 54 <==> !InTable(WeekTable(year), Date(year, 12, 31))
    ensures CoveringWeekTable(year)[..53] == WeekTable(year)
  {
    WeekCountValue(year);
    NewYearsEve(year);
    WeekTableCoverage(year, Date(year, 12, 31));
    TableWindowsFit(year, 52);
    var t := Windows(year, 53);
    if WeekCount(year) == 54 {
      assert CoveringWeekTable(year) == t + [WeekAt(year, 53)];
      PrefixOfAppend(t, [WeekAt(year, 53)], 53);
    } else {
      FullPrefix(t);
    }
  }

  /** Cutting a concatenation inside its first part cuts that part. */
  lemma PrefixOfAppend<T>(a: seq<T>, b: seq<T>, k: int)
    requires 0 <= k <= |a|
    ensures (a + b)[..k] == a[..k]
  {
  }

  lemma FullPrefix<T>(a: seq<T>)
    ensures a[..|a|] == a
  {
  }

}
