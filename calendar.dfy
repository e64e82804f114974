/**
 * Python's datetime.date: a proleptic-Gregorian (year, month, day) between
 * MINYEAR = 1 and MAXYEAR = 9999, its ordinal (0001-01-01 is day 1), its
 * weekday (Monday = 0), date + timedelta(days=k), the ordering of dates, and
 * the text forms str(date) and strptime(s, '%Y-%m-%d') that the records use.
 */
module Calendar {
  import opened Wrappers
  import opened Text

  const MinYear := 1
  const MaxYear := 9999

  datatype Date = Date(year: int, month: int, day: int)

  /** The exceptions datetime raises: ValueError for a bad field, OverflowError for arithmetic out of range. */
  datatype DateError = ValueError | OverflowError

  /** The range of a C int, into which date() converts its year before checking it. */
  const IntMin := -0x8000_0000
  const IntMax := 0x7fff_ffff

  /**
   * The error date(year, m, d) raises for a year outside 1..9999: a year that
   * does not fit a C int fails the conversion with OverflowError, any other
   * fails the range check with ValueError.
   */
  function YearError(year: int): (e: DateError)
    requires !(MinYear <= year <= MaxYear)
    ensures e == OverflowError <==> year < IntMin || IntMax < year
  {
    if IntMin <= year <= IntMax then ValueError else OverflowError
  }

  predicate IsLeap(y: int) {
    y % 4 == 0 && (y % 100 != 0 || y % 400 == 0)
  }

  function DaysInYear(y: int): int {
    if IsLeap(y) then 366 else 365
  }

  function DaysInMonth(y: int, m: int): int
    requires 1 <= m <= 12
  {
    if m == 2 then (if IsLeap(y) then 29 else 28)
    else if m == 4 || m == 6 || m == 9 || m == 11 then 30
    else 31
  }

  /** What date(year, month, day) accepts. */
  predicate Valid(d: Date) {
    MinYear <= d.year <= MaxYear && 1 <= d.month <= 12 && 1 <= d.day <= DaysInMonth(d.year, d.month)
  }

  /** Days in the years before y (CPython's _days_before_year). */
  function DaysBeforeYear(y: int): int {
    var p := y - 1;
    365 * p + p / 4 - p / 100 + p / 400
  }

  /** Days in the months of year y before month m (CPython's _days_before_month). */
  function DaysBeforeMonth(y: int, m: int): int
    requires 1 <= m <= 12
  {
    [0, 31, 59, 90, 120, 151, 181, 212, 243, 273, 304, 334][m - 1] + (if m > 2 && IsLeap(y) then 1 else 0)
  }

  /** date.toordinal(). */
  function ToOrdinal(d: Date): int
    requires 1 <= d.month <= 12
  {
    DaysBeforeYear(d.year) + DaysBeforeMonth(d.year, d.month) + d.day
  }

  /** The ordinal of date.max, 9999-12-31. */
  const MaxOrdinal := 3652059

  lemma MaxOrdinalValue()
    ensures MaxOrdinal == DaysBeforeYear(MaxYear + 1)
  {
  }

  lemma DivStep4(p: int)
    ensures (p + 1) / 4 == p / 4 + (if (p + 1) % 4 == 0 then 1 else 0)
  {
  }

  lemma DivStep100(p: int)
    ensures (p + 1) / 100 == p / 100 + (if (p + 1) % 100 == 0 then 1 else 0)
  {
  }

  lemma DivStep400(p: int)
    ensures (p + 1) / 400 == p / 400 + (if (p + 1) % 400 == 0 then 1 else 0)
  {
  }

  /** A multiple of 400 is a multiple of 100, and a multiple of 100 is a multiple of 4. */
  lemma LeapDivisors(y: int)
    ensures y % 400 == 0 ==> y % 100 == 0
    ensures y % 100 == 0 ==> y % 4 == 0
  {
    if y % 400 == 0 {
      var k := y / 400;
      assert y == 100 * (4 * k);
      HundredsMod(4 * k);
    }
    if y % 100 == 0 {
      var k := y / 100;
      assert y == 4 * (25 * k);
      FoursMod(25 * k);
    }
  }

  lemma HundredsMod(k: int)
    ensures (100 * k) % 100 == 0
  {
  }

  lemma FoursMod(k: int)
    ensures (4 * k) % 4 == 0
  {
  }

  /** Consecutive years are DaysInYear apart. */
  lemma YearStep(y: int)
    ensures DaysBeforeYear(y + 1) == DaysBeforeYear(y) + DaysInYear(y)
  {
    var p := y - 1;
    DivStep4(p);
    DivStep100(p);
    DivStep400(p);
    LeapDivisors(y);
    var leapDay := (if y % 4 == 0 then 1 else 0) - (if y % 100 == 0 then 1 else 0) + (if y % 400 == 0 then 1 else 0);
    assert DaysBeforeYear(y + 1) == DaysBeforeYear(y) + 365 + leapDay;
    assert leapDay == (if IsLeap(y) then 1 else 0);
  }

  lemma {:induction false} YearsIncrease(a: int, b: int)
    requires a <= b
    ensures DaysBeforeYear(a) + 365 * (b - a) <= DaysBeforeYear(b)
    decreases b - a
  {
    if a < b {
      YearStep(a);
      YearsIncrease(a + 1, b);
    }
  }

  lemma MonthStep(y: int, m: int)
    requires 1 <= m < 12
    ensures DaysBeforeMonth(y, m + 1) == DaysBeforeMonth(y, m) + DaysInMonth(y, m)
  {
  }

  lemma LastMonth(y: int)
    ensures DaysBeforeMonth(y, 12) + DaysInMonth(y, 12) == DaysInYear(y)
  {
  }

  lemma {:induction false} MonthsIncrease(y: int, a: int, b: int)
    requires 1 <= a < b <= 12
    ensures DaysBeforeMonth(y, a) + DaysInMonth(y, a) <= DaysBeforeMonth(y, b)
    decreases b - a
  {
    MonthStep(y, a);
    if a + 1 < b {
      MonthsIncrease(y, a + 1, b);
    }
  }


  /** The month of year y holding its k-th day, found by walking up from month m. */
  function MonthFrom(y: int, k: int, m: int): (r: int)
    requires 1 <= m <= 12 && DaysBeforeMonth(y, m) < k <= DaysInYear(y)
    ensures m <= r <= 12 && DaysBeforeMonth(y, r) < k <= DaysBeforeMonth(y, r) + DaysInMonth(y, r)
    decreases 12 - m
  {
    if m == 12 then LastMonth(y); m
    else if k <= DaysBeforeMonth(y, m) + DaysInMonth(y, m) then m
    else MonthStep(y, m); MonthFrom(y, k, m + 1)
  }

  /** Years past MAXYEAR start after date.max. */
  lemma PastMaxYear(y: int)
    requires y > MaxYear
    ensures DaysBeforeYear(y) >= MaxOrdinal
  {
    YearsIncrease(MaxYear + 1, y);
  }

  /** The date with ordinal n, found by walking up the years from y. */
  function DateFrom(n: int, y: int): (d: Date)
    requires MinYear <= y && DaysBeforeYear(y) < n <= MaxOrdinal
    ensures Valid(d) && ToOrdinal(d) == n
    decreases n - DaysBeforeYear(y)
  {
    YearStep(y);
    if y > MaxYear then
      PastMaxYear(y); assert false; Date(1, 1, 1)
    else if n <= DaysBeforeYear(y + 1) then
      var k := n - DaysBeforeYear(y);
      var m := MonthFrom(y, k, 1);
      Date(y, m, k - DaysBeforeMonth(y, m))
    else
      DateFrom(n, y + 1)
  }

  /** date.fromordinal(n). */
  function FromOrdinal(n: int): (d: Date)
    requires 1 <= n <= MaxOrdinal
    ensures Valid(d) && ToOrdinal(d) == n
  {
    DateFrom(n, MinYear)
  }

  /** Every valid date has an ordinal inside [1, MaxOrdinal], and its year is fixed by it. */
  lemma OrdinalRange(d: Date)
    requires Valid(d)
    ensures DaysBeforeYear(d.year) < ToOrdinal(d) <= DaysBeforeYear(d.year + 1)
    ensures 1 <= ToOrdinal(d) <= MaxOrdinal
  {
    YearStep(d.year);
    LastMonth(d.year);
    if d.month < 12 {
      MonthsIncrease(d.year, d.month, 12);
    }
    YearsIncrease(MinYear, d.year);
    YearsIncrease(d.year + 1, MaxYear + 1);
  }

  /** A date's year is at most y exactly when its ordinal is at most that of 31 December of y. */
  lemma YearAtMost(d: Date, y: int)
    requires Valid(d)
    ensures d.year <= y <==> ToOrdinal(d) <= DaysBeforeYear(y + 1)
  {
    OrdinalRange(d);
    if d.year <= y {
      YearsIncrease(d.year + 1, y + 1);
    } else {
      YearsIncrease(y + 1, d.year);
    }
  }

  /** Python's date comparison: lexicographic on (year, month, day). */
  predicate Before(a: Date, b: Date) {
    a.year < b.year || (a.year == b.year && (a.month < b.month || (a.month == b.month && a.day < b.day)))
  }

  predicate AtMost(a: Date, b: Date) {
    Before(a, b) || a == b
  }

  lemma {:induction false} BeforeIsOrdinalLess(a: Date, b: Date)
    requires Valid(a) && Valid(b) && Before(a, b)
    ensures ToOrdinal(a) < ToOrdinal(b)
  {
    OrdinalRange(a);
    OrdinalRange(b);
    if a.year < b.year {
      YearsIncrease(a.year + 1, b.year);
    } else if a.month < b.month {
      MonthsIncrease(a.year, a.month, b.month);
    }
  }

  /** Comparing dates is comparing their ordinals. */
  lemma OrderIsOrdinalOrder(a: Date, b: Date)
    requires Valid(a) && Valid(b)
    ensures Before(a, b) <==> ToOrdinal(a) < ToOrdinal(b)
    ensures AtMost(a, b) <==> ToOrdinal(a) <= ToOrdinal(b)
    ensures a == b <==> ToOrdinal(a) == ToOrdinal(b)
  {
    if Before(a, b) {
      BeforeIsOrdinalLess(a, b);
    } else if Before(b, a) {
      BeforeIsOrdinalLess(b, a);
    }
  }

  /** Round trip: date.fromordinal(d.toordinal()) == d. */
  lemma FromToOrdinal(d: Date)
    requires Valid(d)
    ensures 1 <= ToOrdinal(d) <= MaxOrdinal && FromOrdinal(ToOrdinal(d)) == d
  {
    OrdinalRange(d);
    OrderIsOrdinalOrder(d, FromOrdinal(ToOrdinal(d)));
  }

  /** date.weekday(): Monday is 0, Sunday is 6. */
  function Weekday(d: Date): (w: int)
    requires Valid(d)
    ensures 0 <= w < 7
  {
    (ToOrdinal(d) + 6) % 7
  }

  /** d + timedelta(days=k): OverflowError when the result leaves [date.min, date.max]. */
  function AddDays(d: Date, k: int): (r: Result<Date, DateError>)
    requires Valid(d)
    ensures r.Success? <==> 1 <= ToOrdinal(d) + k <= MaxOrdinal
    ensures r.Failure? ==> r.error == OverflowError
    ensures r.Success? ==> Valid(r.value) && ToOrdinal(r.value) == ToOrdinal(d) + k
  {
    var n := ToOrdinal(d) + k;
    if 1 <= n <= MaxOrdinal then Success(FromOrdinal(n)) else Failure(OverflowError)
  }

  /** str(d), that is d.isoformat(): "YYYY-MM-DD". */
  function IsoFormat(d: Date): string {
    ZeroPad(d.year, 4) + "-" + ZeroPad(d.month, 2) + "-" + ZeroPad(d.day, 2)
  }

  /** d.strftime('%d/%m'): the day and the month, each as two digits. */
  function DayMonth(d: Date): string
    requires Valid(d)
  {
    TwoDigits(d.day) + "/" + TwoDigits(d.month)
  }

  /** datetime.strptime(s, '%Y-%m-%d').date() on its zero-padded form; None where it raises ValueError. */
  function ParseIsoDate(s: string): (r: Option<Date>)
    ensures r.Some? ==> Valid(r.value)
  {
    if |s| == 10 && s[4] == '-' && s[7] == '-'
       && IsDigit(s[0]) && IsDigit(s[1]) && IsDigit(s[2]) && IsDigit(s[3])
       && IsDigit(s[5]) && IsDigit(s[6]) && IsDigit(s[8]) && IsDigit(s[9])
    then
      var d := Date(1000 * DigitValue(s[0]) + 100 * DigitValue(s[1]) + 10 * DigitValue(s[2]) + DigitValue(s[3]),
                    10 * DigitValue(s[5]) + DigitValue(s[6]),
                    10 * DigitValue(s[8]) + DigitValue(s[9]));
      if Valid(d) then Some(d) else None
    else None
  }

  /** The decimal digits of a four-digit number put back together ... */
  lemma FourDigits(n: int)
    requires 0 <= n < 10000
    ensures 1000 * (n / 1000) + 100 * (n / 100 % 10) + 10 * (n / 10 % 10) + n % 10 == n
  {
    TensChain(n);
    var q1, q2, q3 := n / 10, n / 100, n / 1000;
    assert n == 10 * q1 + n % 10;
    assert q1 == 10 * q2 + q1 % 10;
    assert q2 == 10 * q3 + q2 % 10;
  }

  /** ... and taken apart again. */
  lemma DigitsOfFour(a: int, b: int, c: int, e: int)
    requires 0 <= a < 10 && 0 <= b < 10 && 0 <= c < 10 && 0 <= e < 10
    ensures var n := 1000 * a + 100 * b + 10 * c + e;
      n / 1000 == a && n / 100 % 10 == b && n / 10 % 10 == c && n % 10 == e
  {
    var n := 1000 * a + 100 * b + 10 * c + e;
    assert n / 10 == 100 * a + 10 * b + c;
    assert n / 100 == 10 * a + b;
  }

  lemma DigitsOfTwo(a: int, b: int)
    requires 0 <= a < 10 && 0 <= b < 10
    ensures (10 * a + b) / 10 == a && (10 * a + b) % 10 == b
  {
  }

  /** The ten characters of str(d), one by one. */
  lemma IsoFormatChars(d: Date)
    requires 0 <= d.year < 10000 && 0 <= d.month < 100 && 0 <= d.day < 100
    ensures IsoFormat(d) == [DigitChar(d.year / 1000), DigitChar(d.year / 100 % 10), DigitChar(d.year / 10 % 10),
                             DigitChar(d.year % 10), '-', DigitChar(d.month / 10), DigitChar(d.month % 10), '-',
                             DigitChar(d.day / 10), DigitChar(d.day % 10)]
  {
    var y := [DigitChar(d.year / 1000), DigitChar(d.year / 100 % 10), DigitChar(d.year / 10 % 10), DigitChar(d.year % 10)];
    var m := [DigitChar(d.month / 10), DigitChar(d.month % 10)];
    var e := [DigitChar(d.day / 10), DigitChar(d.day % 10)];
    ZeroPadFour(d.year);
    ZeroPadTwo(d.month);
    ZeroPadTwo(d.day);
    assert IsoFormat(d) == y + "-" + m + "-" + e;
    JoinFields(y, m, e);
  }

  lemma JoinFields(y: string, m: string, e: string)
    requires |y| == 4 && |m| == 2 && |e| == 2
    ensures y + "-" + m + "-" + e == [y[0], y[1], y[2], y[3], '-', m[0], m[1], '-', e[0], e[1]]
  {
  }

  /** The parser accepts exactly what str(date) prints: printing then parsing gives the date back ... */
  lemma ParseIsoFormat(d: Date)
    requires Valid(d)
    ensures ParseIsoDate(IsoFormat(d)) == Some(d)
  {
    var y0, y1, y2, y3 := d.year / 1000, d.year / 100 % 10, d.year / 10 % 10, d.year % 10;
    var m0, m1, d0, d1 := d.month / 10, d.month % 10, d.day / 10, d.day % 10;
    FourDigits(d.year);
    assert Date(1000 * y0 + 100 * y1 + 10 * y2 + y3, 10 * m0 + m1, 10 * d0 + d1) == d;
    IsoFormatChars(d);
    ParseDigitChars(y0, y1, y2, y3, m0, m1, d0, d1);
  }

  /** Parsing a string made of digits and dashes reads the digits' values. */
  lemma ParseDigitChars(y0: int, y1: int, y2: int, y3: int, m0: int, m1: int, d0: int, d1: int)
    requires 0 <= y0 < 10 && 0 <= y1 < 10 && 0 <= y2 < 10 && 0 <= y3 < 10
    requires 0 <= m0 < 10 && 0 <= m1 < 10 && 0 <= d0 < 10 && 0 <= d1 < 10
    ensures var d := Date(1000 * y0 + 100 * y1 + 10 * y2 + y3, 10 * m0 + m1, 10 * d0 + d1);
      ParseIsoDate([DigitChar(y0), DigitChar(y1), DigitChar(y2), DigitChar(y3), '-',
                    DigitChar(m0), DigitChar(m1), '-', DigitChar(d0), DigitChar(d1)])
      == if Valid(d) then Some(d) else None
  {
    var s := [DigitChar(y0), DigitChar(y1), DigitChar(y2), DigitChar(y3), '-',
              DigitChar(m0), DigitChar(m1), '-', DigitChar(d0), DigitChar(d1)];
    assert DigitValue(s[0]) == y0 && DigitValue(s[1]) == y1 && DigitValue(s[2]) == y2 && DigitValue(s[3]) == y3;
    assert DigitValue(s[5]) == m0 && DigitValue(s[6]) == m1 && DigitValue(s[8]) == d0 && DigitValue(s[9]) == d1;
  }

  /** ... and every accepted string is the printed form of the date it yields. */
  lemma IsoFormatParse(s: string)
    requires ParseIsoDate(s).Some?
    ensures IsoFormat(ParseIsoDate(s).value) == s
  {
    var d := ParseIsoDate(s).value;
    var y0, y1, y2, y3 := DigitValue(s[0]), DigitValue(s[1]), DigitValue(s[2]), DigitValue(s[3]);
    var m0, m1, d0, d1 := DigitValue(s[5]), DigitValue(s[6]), DigitValue(s[8]), DigitValue(s[9]);
    assert d == Date(1000 * y0 + 100 * y1 + 10 * y2 + y3, 10 * m0 + m1, 10 * d0 + d1);
    IsoFormatOfDigits(d, y0, y1, y2, y3, m0, m1, d0, d1);
    AcceptedChars(s);
  }

  /** str(d) spelled out from the digits that make up d's fields. */
  lemma IsoFormatOfDigits(d: Date, y0: int, y1: int, y2: int, y3: int, m0: int, m1: int, d0: int, d1: int)
    requires 0 <= y0 < 10 && 0 <= y1 < 10 && 0 <= y2 < 10 && 0 <= y3 < 10
    requires 0 <= m0 < 10 && 0 <= m1 < 10 && 0 <= d0 < 10 && 0 <= d1 < 10
    requires d == Date(1000 * y0 + 100 * y1 + 10 * y2 + y3, 10 * m0 + m1, 10 * d0 + d1)
    ensures IsoFormat(d) == [DigitChar(y0), DigitChar(y1), DigitChar(y2), DigitChar(y3), '-',
                             DigitChar(m0), DigitChar(m1), '-', DigitChar(d0), DigitChar(d1)]
  {
    DigitsOfFour(y0, y1, y2, y3);
    DigitsOfTwo(m0, m1);
    DigitsOfTwo(d0, d1);
    IsoFormatChars(d);
  }

  /** An accepted string is its ten characters: digits around two dashes. */
  lemma AcceptedChars(s: string)
    requires ParseIsoDate(s).Some?
    ensures |s| == 10 && IsDigit(s[0]) && IsDigit(s[1]) && IsDigit(s[2]) && IsDigit(s[3])
    ensures IsDigit(s[5]) && IsDigit(s[6]) && IsDigit(s[8]) && IsDigit(s[9])
    ensures s == [DigitChar(DigitValue(s[0])), DigitChar(DigitValue(s[1])), DigitChar(DigitValue(s[2])),
                  DigitChar(DigitValue(s[3])), '-', DigitChar(DigitValue(s[5])), DigitChar(DigitValue(s[6])), '-',
                  DigitChar(DigitValue(s[8])), DigitChar(DigitValue(s[9]))]
  {
    assert s == [s[0], s[1], s[2], s[3], s[4], s[5], s[6], s[7], s[8], s[9]];
  }
}
