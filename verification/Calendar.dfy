/** The proleptic Gregorian calendar of `_pydatetime.py`: day ordinals and their inversion, and the
    ISO 8601 week calendar. */
module Calendar {
  import opened Wrappers

  const MINYEAR := 1
  const MAXYEAR := 9999
  const MAXORDINAL := 3652059

  const DAYS_IN_MONTH: seq<int> := [-1, 31, 28, 31, 30, 31, 30, 31, 31, 30, 31, 30, 31]
  const DAYS_BEFORE_MONTH: seq<int> := [-1, 0, 31, 59, 90, 120, 151, 181, 212, 243, 273, 304, 334]

  /** The second table is the running sum of the first, as the loop at import time builds it. */
  lemma TablesAgree()
    ensures |DAYS_IN_MONTH| == |DAYS_BEFORE_MONTH| == 13 && DAYS_BEFORE_MONTH[1] == 0
    ensures forall m :: 1 <= m < 12 ==> DAYS_BEFORE_MONTH[m + 1] == DAYS_BEFORE_MONTH[m] + DAYS_IN_MONTH[m]
  {
  }

  datatype Date = Date(year: int, month: int, day: int)

  predicate IsLeap(year: int) {
    year % 4 == 0 && (year % 100 != 0 || year % 400 == 0)
  }

  function DaysBeforeYear(year: int): int {
    var y := year - 1;
    y * 365 + y / 4 - y / 100 + y / 400
  }

  function DaysInMonth(year: int, month: int): int
    requires 1 <= month <= 12
  {
    if month == 2 && IsLeap(year) then 29 else DAYS_IN_MONTH[month]
  }

  function DaysBeforeMonth(year: int, month: int): int
    requires 1 <= month <= 12
  {
    DAYS_BEFORE_MONTH[month] + if month > 2 && IsLeap(year) then 1 else 0
  }

  predicate ValidDate(d: Date) {
    1 <= d.month <= 12 && 1 <= d.day <= DaysInMonth(d.year, d.month)
  }

  /** `_ymd2ord` */
  function Ymd2Ord(d: Date): int
    requires ValidDate(d)
  {
    DaysBeforeYear(d.year) + DaysBeforeMonth(d.year, d.month) + d.day
  }

  // ---- cycles of years ----

  const DI400Y := 146097
  const DI100Y := 36524
  const DI4Y := 1461

  lemma CycleLengths()
    ensures DI400Y == DaysBeforeYear(401) && DI100Y == DaysBeforeYear(101) && DI4Y == DaysBeforeYear(5)
  {
  }

  /** The year found by taking out 400-, 100-, 4- and 1-year cycles. */
  lemma CyclesToYear(a: int, b: int, c: int, d: int)
    requires 0 <= b <= 3 && 0 <= c <= 24 && 0 <= d <= 3
    ensures var year := 400 * a + 1 + b * 100 + c * 4 + d;
            && DaysBeforeYear(year) == a * DI400Y + b * DI100Y + c * DI4Y + d * 365
            && (IsLeap(year) <==> d == 3 && (c != 24 || b == 3))
  {
    var y := 400 * a + b * 100 + c * 4 + d;
    CycleDivisions(y, a, b, c, d);
    NextBy4(y);
    NextBy100(y);
    NextBy400(y);
  }

  lemma CycleDivisions(y: int, a: int, b: int, c: int, d: int)
    requires 0 <= b <= 3 && 0 <= c <= 24 && 0 <= d <= 3 && y == 400 * a + b * 100 + c * 4 + d
    ensures y / 400 == a && y / 100 == 4 * a + b && y / 4 == 100 * a + 25 * b + c
    ensures y % 400 == b * 100 + c * 4 + d && y % 100 == c * 4 + d && y % 4 == d
  {
  }

  lemma NextBy4(y: int)
    ensures (y + 1) % 4 == if y % 4 == 3 then 0 else y % 4 + 1
  {
    assert y == 4 * (y / 4) + y % 4;
  }

  lemma NextBy100(y: int)
    ensures (y + 1) % 100 == if y % 100 == 99 then 0 else y % 100 + 1
  {
    assert y == 100 * (y / 100) + y % 100;
  }

  lemma NextBy400(y: int)
    ensures (y + 1) % 400 == if y % 400 == 399 then 0 else y % 400 + 1
  {
    assert y == 400 * (y / 400) + y % 400;
  }

  lemma YearCycles(year: int) returns (a: int, b: int, c: int, d: int)
    ensures 0 <= b <= 3 && 0 <= c <= 24 && 0 <= d <= 3 && year == 400 * a + 1 + b * 100 + c * 4 + d
  {
    var r := (year - 1) % 400;
    a := (year - 1) / 400;
    b, r := r / 100, r % 100;
    c, d := r / 4, r % 4;
  }

  lemma YearLength(year: int)
    ensures DaysBeforeYear(year + 1) == DaysBeforeYear(year) + if IsLeap(year) then 366 else 365
  {
    var a, b, c, d := YearCycles(year);
    CyclesToYear(a, b, c, d);
    if d < 3 { CyclesToYear(a, b, c, d + 1); }
    else if c < 24 { CyclesToYear(a, b, c + 1, 0); }
    else if b < 3 { CyclesToYear(a, b + 1, 0, 0); }
    else { CyclesToYear(a + 1, 0, 0, 0); }
  }

  // ---- ordinals count days ----

  /** The day after `d`, by the calendar's own rules. */
  function NextDay(d: Date): Date
    requires ValidDate(d)
  {
    if d.day < DaysInMonth(d.year, d.month) then Date(d.year, d.month, d.day + 1)
    else if d.month < 12 then Date(d.year, d.month + 1, 1)
    else Date(d.year + 1, 1, 1)
  }

  function DayBefore(d: Date): Date
    requires ValidDate(d)
  {
    if d.day > 1 then Date(d.year, d.month, d.day - 1)
    else if d.month > 1 then Date(d.year, d.month - 1, DaysInMonth(d.year, d.month - 1))
    else Date(d.year - 1, 12, 31)
  }

  lemma MonthLength(year: int, month: int)
    requires 1 <= month < 12
    ensures DaysBeforeMonth(year, month + 1) == DaysBeforeMonth(year, month) + DaysInMonth(year, month)
  {
  }

  /** Ordinals go up by one from each day to the next ... */
  lemma OrdinalOfNextDay(d: Date)
    requires ValidDate(d)
    ensures ValidDate(NextDay(d)) && Ymd2Ord(NextDay(d)) == Ymd2Ord(d) + 1
  {
    if d.day == DaysInMonth(d.year, d.month) {
      if d.month < 12 { MonthLength(d.year, d.month); } else { YearLength(d.year); }
    }
  }

  lemma OrdinalOfDayBefore(d: Date)
    requires ValidDate(d)
    ensures ValidDate(DayBefore(d)) && Ymd2Ord(DayBefore(d)) == Ymd2Ord(d) - 1
  {
    if d.day == 1 {
      if d.month > 1 { MonthLength(d.year, d.month - 1); } else { YearLength(d.year - 1); }
    }
  }

  /** ... starting with 1 on 1 January of year 1. */
  lemma FirstOrdinal()
    ensures Ymd2Ord(Date(1, 1, 1)) == 1
  {
  }

  lemma {:induction false} MonthsGrow(year: int, m: int, m': int)
    requires 1 <= m < m' <= 12
    ensures DaysBeforeMonth(year, m) + DaysInMonth(year, m) <= DaysBeforeMonth(year, m')
    decreases m' - m
  {
    MonthLength(year, m' - 1);
    if m < m' - 1 { MonthsGrow(year, m, m' - 1); }
  }

  lemma {:induction false} YearsGrow(y: int, y': int)
    requires y < y'
    ensures DaysBeforeYear(y) + (if IsLeap(y) then 366 else 365) <= DaysBeforeYear(y')
    decreases y' - y
  {
    YearLength(y' - 1);
    if y < y' - 1 { YearsGrow(y, y' - 1); }
  }

  lemma DayOfYearRange(d: Date)
    requires ValidDate(d)
    ensures 1 <= DaysBeforeMonth(d.year, d.month) + d.day <= if IsLeap(d.year) then 366 else 365
  {
    if d.month < 12 { MonthsGrow(d.year, d.month, 12); }
  }

  /** Year, month and day compared as a tuple. */
  predicate Before(a: Date, b: Date) {
    a.year < b.year || (a.year == b.year && (a.month < b.month || (a.month == b.month && a.day < b.day)))
  }

  /** Comparing dates as tuples is comparing their ordinals. */
  lemma OrdinalOrder(a: Date, b: Date)
    requires ValidDate(a) && ValidDate(b)
    ensures Before(a, b) <==> Ymd2Ord(a) < Ymd2Ord(b)
    ensures a == b <==> Ymd2Ord(a) == Ymd2Ord(b)
  {
    if Before(a, b) { BeforeMeansLess(a, b); }
    if Before(b, a) { BeforeMeansLess(b, a); }
    assert Before(a, b) || Before(b, a) || a == b;
  }

  lemma BeforeMeansLess(a: Date, b: Date)
    requires ValidDate(a) && ValidDate(b) && Before(a, b)
    ensures Ymd2Ord(a) < Ymd2Ord(b)
  {
    if a.year < b.year {
      YearsGrow(a.year, b.year);
      DayOfYearRange(a);
      DayOfYearRange(b);
    } else if a.month < b.month {
      MonthsGrow(a.year, a.month, b.month);
    }
  }

  /** Every integer is the ordinal of a date. */
  lemma {:induction false} OrdinalExists(n: int) returns (d: Date)
    ensures ValidDate(d) && Ymd2Ord(d) == n
    decreases if n >= 1 then n - 1 else 1 - n
  {
    if n == 1 {
      d := Date(1, 1, 1);
    } else if n > 1 {
      d := OrdinalExists(n - 1);
      OrdinalOfNextDay(d);
      d := NextDay(d);
    } else {
      d := OrdinalExists(n + 1);
      OrdinalOfDayBefore(d);
      d := DayBefore(d);
    }
  }

  lemma OrdinalIsSurjective(n: int)
    ensures exists d :: ValidDate(d) && Ymd2Ord(d) == n
  {
    var d := OrdinalExists(n);
  }

  /** The date with a given ordinal. */
  ghost function DateOf(n: int): (d: Date)
    ensures ValidDate(d) && Ymd2Ord(d) == n
  {
    OrdinalIsSurjective(n);
    var d :| ValidDate(d) && Ymd2Ord(d) == n;
    d
  }

  lemma DateOfIsInverse(d: Date)
    requires ValidDate(d)
    ensures DateOf(Ymd2Ord(d)) == d
  {
    OrdinalOrder(DateOf(Ymd2Ord(d)), d);
  }

  // ---- the inversion ----

  /** The month estimate `(n + 50) >> 5` for day `n` of the year, counted from zero, is exact or
      one too large. */
  lemma MonthEstimate(year: int, n: int)
    requires 0 <= n < if IsLeap(year) then 366 else 365
    ensures var m := (n + 50) / 32;
            && 1 <= m <= 12
            && (DaysBeforeMonth(year, m) <= n ==> n < DaysBeforeMonth(year, m) + DaysInMonth(year, m))
            && (DaysBeforeMonth(year, m) > n ==> 2 <= m && DaysBeforeMonth(year, m - 1) <= n)
  {
  }

  /** The quotients left after taking out cycles: a fourth century or a fifth year can only be the
      last day of a cycle. */
  lemma CycleQuotients(n: int)
    requires 0 <= n < DI400Y
    ensures var n100, r100 := n / DI100Y, n % DI100Y;
            var n4, r4 := r100 / DI4Y, r100 % DI4Y;
            var n1, r := r4 / 365, r4 % 365;
            && n == n100 * DI100Y + n4 * DI4Y + n1 * 365 + r
            && 0 <= n100 <= 4 && 0 <= n4 <= 24 && 0 <= n1 <= 4 && 0 <= r < 365
            && (n100 == 4 ==> n4 == 0 && n1 == 0 && r == 0)
            && (n1 == 4 ==> r == 0 && (n4 < 24 || n100 == 3))
  {
  }

  /** The quotients by centuries, four years and years of a day of the 400-year cycle. */
  method TakeOutCycles(n0: int) returns (n100: int, n4: int, n1: int, n: int)
    requires 0 <= n0 < DI400Y
    ensures n0 == n100 * DI100Y + n4 * DI4Y + n1 * 365 + n
    ensures 0 <= n100 <= 4 && 0 <= n4 <= 24 && 0 <= n1 <= 4 && 0 <= n < 365
    ensures n100 == 4 ==> n4 == 0 && n1 == 0 && n == 0
    ensures n1 == 4 ==> n == 0 && (n4 < 24 || n100 == 3)
  {
    CycleQuotients(n0);
    n := n0;
    n100, n := n / DI100Y, n % DI100Y;
    n4, n := n / DI4Y, n % DI4Y;
    n1, n := n / 365, n % 365;
  }

  /** `_ord2ymd`, its assertions included. */
  method Ord2Ymd(ordinal: int) returns (d: Date)
    ensures d == DateOf(ordinal)
  {
    var n0 := ordinal - 1;
    var n400 := n0 / DI400Y;
    n0 := n0 % DI400Y;
    var n100, n4, n1, n := TakeOutCycles(n0);
    var year := n400 * 400 + 1 + n100 * 100 + n4 * 4 + n1;
    if n1 == 4 || n100 == 4 {
      assert n == 0;
      LastDayOfCycle(ordinal, n400, n100, n4, n1);
      return Date(year - 1, 12, 31);
    }
    CyclesToYear(n400, n100, n4, n1);
    var leapyear := n1 == 3 && (n4 != 24 || n100 == 3);
    assert leapyear == IsLeap(year);
    var month, day := MonthAndDay(year, leapyear, n);
    d := Date(year, month, day);
    AssembleDate(d, n400 * DI400Y + n100 * DI100Y + n4 * DI4Y + n1 * 365, n, ordinal);
  }

  lemma AssembleDate(d: Date, before: int, n: int, ordinal: int)
    requires ValidDate(d) && DaysBeforeYear(d.year) == before && DaysBeforeMonth(d.year, d.month) + d.day == n + 1
    requires ordinal - 1 == before + n
    ensures d == DateOf(ordinal)
  {
    assert Ymd2Ord(d) == ordinal;
    DateWithOrdinal(d, ordinal);
  }

  lemma DateWithOrdinal(d: Date, ordinal: int)
    requires ValidDate(d) && Ymd2Ord(d) == ordinal
    ensures d == DateOf(ordinal)
  {
    DateOfIsInverse(d);
  }

  /** The end of `_ord2ymd`, from day `n0` of the year, counted from zero. */
  method MonthAndDay(year: int, leapyear: bool, n0: int) returns (month: int, day: int)
    requires leapyear == IsLeap(year) && 0 <= n0 < if leapyear then 366 else 365
    ensures ValidDate(Date(year, month, day)) && DaysBeforeMonth(year, month) + day == n0 + 1
  {
    var n := n0;
    MonthEstimate(year, n);
    month := (n + 50) / 32;
    var preceding := DAYS_BEFORE_MONTH[month] + if month > 2 && leapyear then 1 else 0;
    if preceding > n {
      month := month - 1;
      MonthLength(year, month);
      preceding := preceding - (DAYS_IN_MONTH[month] + if month == 2 && leapyear then 1 else 0);
    }
    n := n - preceding;
    assert 0 <= n < DaysInMonth(year, month);
    day := n + 1;
  }

  /** Where a fourth century or fifth year would start, the next cycle does. */
  lemma DaysBeforeNextCycle(n400: int, n100: int, n4: int, n1: int)
    requires 0 <= n100 <= 4 && 0 <= n4 <= 24 && 0 <= n1 <= 4 && (n1 == 4 || n100 == 4)
    requires n100 == 4 ==> n4 == 0 && n1 == 0
    requires n1 == 4 ==> n4 < 24 || n100 == 3
    ensures DaysBeforeYear(n400 * 400 + 1 + n100 * 100 + n4 * 4 + n1) ==
            n400 * DI400Y + n100 * DI100Y + n4 * DI4Y + n1 * 365 + 1
  {
    if n100 == 4 || n4 == 24 {
      CyclesToYear(n400 + 1, 0, 0, 0);
    } else {
      CyclesToYear(n400, n100, n4 + 1, 0);
    }
  }

  lemma LastDayOfCycle(ordinal: int, n400: int, n100: int, n4: int, n1: int)
    requires 0 <= n100 <= 4 && 0 <= n4 <= 24 && 0 <= n1 <= 4 && (n1 == 4 || n100 == 4)
    requires n100 == 4 ==> n4 == 0 && n1 == 0
    requires n1 == 4 ==> n4 < 24 || n100 == 3
    requires ordinal - 1 == n400 * DI400Y + n100 * DI100Y + n4 * DI4Y + n1 * 365
    ensures Date(n400 * 400 + 1 + n100 * 100 + n4 * 4 + n1 - 1, 12, 31) == DateOf(ordinal)
  {
    DaysBeforeNextCycle(n400, n100, n4, n1);
    var year := n400 * 400 + 1 + n100 * 100 + n4 * 4 + n1;
    YearEnd(year);
    DateWithOrdinal(Date(year - 1, 12, 31), ordinal);
  }

  lemma YearEnd(year: int)
    ensures Ymd2Ord(Date(year - 1, 12, 31)) == DaysBeforeYear(year)
  {
    YearLength(year - 1);
  }

  /** The last representable date. */
  lemma MaxOrdinal()
    ensures Ymd2Ord(Date(MAXYEAR, 12, 31)) == MAXORDINAL
  {
  }

  // ---- ISO weeks ----

  datatype IsoDate = IsoDate(year: int, week: int, day: int)

  datatype IsoError = YearOutOfRange | InvalidWeek | InvalidWeekday

  /** `_isoweek1monday` */
  function IsoWeek1Monday(year: int): int {
    Week1MondayFrom(NewYearsDay(year))
  }

  /** `_ymd2ord(year, 1, 1)` */
  function NewYearsDay(year: int): int {
    DaysBeforeYear(year) + 1
  }

  lemma NewYearsDayIsOrdinal(year: int)
    ensures NewYearsDay(year) == Ymd2Ord(Date(year, 1, 1))
  {
  }

  function Week1MondayFrom(firstday: int): int {
    var firstweekday := (firstday + 6) % 7;
    var week1monday := firstday - firstweekday;
    if firstweekday > 3 then week1monday + 7 else week1monday
  }

  /** `divmod(today - week1monday, 7)`, with week and day counted from one. */
  function WeekDate(year: int, sinceMonday: int): IsoDate {
    IsoDate(year, sinceMonday / 7 + 1, sinceMonday % 7 + 1)
  }

  /** `date.isocalendar` */
  function IsoCalendar(d: Date): IsoDate
    requires ValidDate(d)
  {
    IsoOfDay(d.year, Ymd2Ord(d))
  }

  function IsoOfDay(year: int, today: int): IsoDate {
    IsoCalendarFrom(year, today, IsoWeek1Monday(year - 1), IsoWeek1Monday(year), IsoWeek1Monday(year + 1))
  }

  /** The body of `isocalendar`, given the Mondays of week 1 of the three years it may ask about. */
  function IsoCalendarFrom(year: int, today: int, last: int, this_: int, next: int): IsoDate {
    var iso := WeekDate(year, today - this_);
    if iso.week - 1 < 0 then WeekDate(year - 1, today - last)
    else if iso.week - 1 >= 52 && today >= next then IsoDate(year + 1, 1, iso.day)
    else iso
  }

  /** The week test of `_isoweek_to_gregorian`. */
  predicate WeekAccepted(year: int, week: int) {
    0 < week < 53 ||
    (week == 53 &&
      var firstWeekday := NewYearsDay(year) % 7;
      firstWeekday == 4 || (firstWeekday == 3 && IsLeap(year)))
  }

  predicate Accepted(iso: IsoDate) {
    WeekAccepted(iso.year, iso.week) && 0 < iso.day < 8
  }

  /** The ordinal `_isoweek_to_gregorian` computes. */
  function IsoOrdinal(iso: IsoDate): int {
    IsoWeek1Monday(iso.year) + ((iso.week - 1) * 7 + (iso.day - 1))
  }

  /** The date a week date stands for, or the error it raises. */
  ghost function Gregorian(iso: IsoDate): Result<Date, IsoError> {
    if !(MINYEAR <= iso.year <= MAXYEAR) then Failure(YearOutOfRange)
    else if !WeekAccepted(iso.year, iso.week) then Failure(InvalidWeek)
    else if !(0 < iso.day < 8) then Failure(InvalidWeekday)
    else Success(DateOf(IsoOrdinal(iso)))
  }

  /** `_isoweek_to_gregorian` */
  method IsoWeekToGregorian(year: int, week: int, day: int) returns (result: Result<Date, IsoError>)
    ensures result == Gregorian(IsoDate(year, week, day))
    ensures result.Success? ==> ValidDate(result.value) && IsoCalendar(result.value) == IsoDate(year, week, day)
  {
    if !(MINYEAR <= year <= MAXYEAR) { return Failure(YearOutOfRange); }
    var weekOk := CheckWeek(year, week);
    if !weekOk { return Failure(InvalidWeek); }
    if !(0 < day < 8) { return Failure(InvalidWeekday); }
    var dayOffset := (week - 1) * 7 + (day - 1);
    var day1 := IsoWeek1Monday(year);
    var ordDay := day1 + dayOffset;
    IsoInverse(IsoDate(year, week, day));
    var d := Ord2Ymd(ordDay);
    return Success(d);
  }

  method CheckWeek(year: int, week: int) returns (ok: bool)
    ensures ok == WeekAccepted(year, week)
  {
    ok := true;
    if !(0 < week < 53) {
      var outOfRange := true;
      if week == 53 {
        var firstWeekday := NewYearsDay(year) % 7;
        if firstWeekday == 4 || (firstWeekday == 3 && IsLeap(year)) {
          outOfRange := false;
        }
      }
      ok := !outOfRange;
    }
  }

  /** ISO 8601, section 4.1.4: week 1 is the Monday-to-Sunday week with the year's first Thursday. */
  lemma Week1HasFirstThursday(year: int)
    ensures (IsoWeek1Monday(year) + 6) % 7 == 0
    ensures var newYearsDay := Ymd2Ord(Date(year, 1, 1));
            newYearsDay <= IsoWeek1Monday(year) + 3 < newYearsDay + 7
  {
    NewYearsDayIsOrdinal(year);
    FirstThursday(NewYearsDay(year));
  }

  lemma FirstThursday(firstday: int)
    ensures (Week1MondayFrom(firstday) + 6) % 7 == 0 && firstday <= Week1MondayFrom(firstday) + 3 < firstday + 7
  {
  }

  /** ISO years have 52 or 53 weeks, and week 53 is accepted exactly in the years that have it. */
  lemma IsoYearLength(year: int)
    ensures IsoWeek1Monday(year + 1) - IsoWeek1Monday(year) == if WeekAccepted(year, 53) then 371 else 364
  {
    YearLength(year);
    Week1MondayStep(NewYearsDay(year), NewYearsDay(year + 1), IsLeap(year));
  }

  lemma Week1MondayStep(first: int, next: int, leap: bool)
    requires next == first + if leap then 366 else 365
    ensures Week1MondayFrom(next) - Week1MondayFrom(first) ==
            if first % 7 == 4 || (first % 7 == 3 && leap) then 371 else 364
  {
  }

  lemma {:induction false} IsoYearsGrow(y: int, y': int)
    requires y < y'
    ensures IsoWeek1Monday(y) + 364 <= IsoWeek1Monday(y')
    ensures IsoWeek1Monday(y + 1) <= IsoWeek1Monday(y')
    decreases y' - y
  {
    IsoYearLength(y' - 1);
    IsoYearLength(y);
    if y < y' - 1 { IsoYearsGrow(y, y' - 1); }
  }

  /** A week date is accepted exactly when it lies inside its ISO year. */
  lemma AcceptedMeansInside(iso: IsoDate)
    requires 0 < iso.week && 0 < iso.day < 8
    ensures Accepted(iso) <==> IsoOrdinal(iso) < IsoWeek1Monday(iso.year + 1)
  {
    IsoYearLength(iso.year);
  }

  lemma IsoYearUnique(a: IsoDate, b: IsoDate)
    requires Accepted(a) && Accepted(b) && a.year < b.year
    ensures IsoOrdinal(a) < IsoOrdinal(b)
  {
    AcceptedMeansInside(a);
    IsoYearsGrow(a.year, b.year);
  }

  lemma IsoUnique(a: IsoDate, b: IsoDate)
    requires Accepted(a) && Accepted(b) && IsoOrdinal(a) == IsoOrdinal(b)
    ensures a == b
  {
    if a.year < b.year { IsoYearUnique(a, b); }
    if b.year < a.year { IsoYearUnique(b, a); }
    assert (a.week - b.week) * 7 == b.day - a.day;
  }

  /** `iso` is an acceptable week date and stands for the day with ordinal `ordinal`. */
  predicate IsIsoDateOf(iso: IsoDate, ordinal: int) {
    Accepted(iso) && IsoOrdinal(iso) == ordinal
  }

  /** The week date of an ordinal inside a given ISO year. */
  lemma InsideIsoYear(year: int, today: int)
    requires IsoWeek1Monday(year) <= today < IsoWeek1Monday(year + 1)
    ensures IsIsoDateOf(WeekDate(year, today - IsoWeek1Monday(year)), today)
  {
    var iso := WeekDate(year, today - IsoWeek1Monday(year));
    AcceptedMeansInside(iso);
  }

  /** `today` is not before the ISO year before `year`, nor more than three days into the next one. */
  predicate AroundYear(year: int, today: int) {
    && IsoWeek1Monday(year - 1) <= today < IsoWeek1Monday(year + 1) + 3
    && IsoWeek1Monday(year + 1) + 364 <= IsoWeek1Monday(year + 2)
    && (IsoWeek1Monday(year + 1) - IsoWeek1Monday(year) == 364 || IsoWeek1Monday(year + 1) - IsoWeek1Monday(year) == 371)
  }

  /** How the Mondays of week 1 lie around the days of a calendar year. */
  lemma YearBounds(year: int, today: int)
    requires DaysBeforeYear(year) < today <= DaysBeforeYear(year + 1)
    ensures AroundYear(year, today)
  {
    YearLength(year - 1);
    Week1HasFirstThursday(year - 1);
    Week1HasFirstThursday(year + 1);
    IsoYearLength(year);
    IsoYearLength(year + 1);
  }

  /** The year `isocalendar` settles on is the one whose ISO year `today` lies in. */
  lemma SettlesOnYear(year: int, today: int, last: int, this_: int, next: int, afterNext: int)
    requires last <= today < next + 3 && (next - this_ == 364 || next - this_ == 371) && next + 364 <= afterNext
    ensures IsoCalendarFrom(year, today, last, this_, next) ==
            if today < this_ then WeekDate(year - 1, today - last)
            else if today < next then WeekDate(year, today - this_)
            else WeekDate(year + 1, today - next)
    ensures next <= today ==> today < afterNext
  {
  }

  lemma LiesInYear(iso: IsoDate, year: int, today: int, monday: int)
    requires monday == IsoWeek1Monday(year) && monday <= today < IsoWeek1Monday(year + 1)
    requires iso == WeekDate(year, today - monday)
    ensures IsIsoDateOf(iso, today)
  {
    InsideIsoYear(year, today);
  }

  lemma RoundTripFrom(year: int, today: int)
    requires DaysBeforeYear(year) < today <= DaysBeforeYear(year + 1)
    ensures IsIsoDateOf(IsoOfDay(year, today), today)
  {
    var last, this_, next := IsoWeek1Monday(year - 1), IsoWeek1Monday(year), IsoWeek1Monday(year + 1);
    var iso := IsoCalendarFrom(year, today, last, this_, next);
    YearBounds(year, today);
    SettlesOnYear(year, today, last, this_, next, IsoWeek1Monday(year + 2));
    if today < this_ {
      LiesInYear(iso, year - 1, today, last);
    } else if today < next {
      LiesInYear(iso, year, today, this_);
    } else {
      LiesInYear(iso, year + 1, today, next);
    }
  }

  lemma InCalendarYear(d: Date)
    requires ValidDate(d)
    ensures DaysBeforeYear(d.year) < Ymd2Ord(d) <= DaysBeforeYear(d.year + 1)
  {
    DayOfYearRange(d);
    YearLength(d.year);
  }

  /** From a date to its ISO week date and back. */
  lemma IsoRoundTrip(d: Date)
    requires ValidDate(d)
    ensures IsIsoDateOf(IsoCalendar(d), Ymd2Ord(d))
  {
    InCalendarYear(d);
    RoundTripFrom(d.year, Ymd2Ord(d));
  }

  /** From an accepted ISO week date to a date and back. */
  lemma IsoInverse(iso: IsoDate)
    requires Accepted(iso)
    ensures IsoCalendar(DateOf(IsoOrdinal(iso))) == iso
  {
    var d := DateOf(IsoOrdinal(iso));
    IsoRoundTrip(d);
    IsoUnique(IsoCalendar(d), iso);
  }
}
