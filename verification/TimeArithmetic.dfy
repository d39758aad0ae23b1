/** Integer `timedelta` and `datetime` arithmetic of `_pydatetime.py`: every operation is exact on
    the total number of microseconds. */
module TimeArithmetic {
  import opened Wrappers
  import opened Calendar

  const SECOND := 1_000_000
  const DAY := 86_400_000_000
  const MAXDAYS := 999_999_999

  datatype TimeError = OverflowError | TypeError

  // ---- timedelta ----

  datatype Delta = Delta(days: int, seconds: int, microseconds: int)

  /** The microseconds of a triple, normalized or not. */
  function Total(d: Delta): int {
    (d.days * 86400 + d.seconds) * SECOND + d.microseconds
  }

  predicate Normal(d: Delta) {
    0 <= d.seconds < 86400 && 0 <= d.microseconds < SECOND
  }

  predicate ValidDelta(d: Delta) {
    Normal(d) && -MAXDAYS <= d.days <= MAXDAYS
  }

  /** The normalized triple with a given total. */
  function NormalForm(total: int): (d: Delta)
    ensures Normal(d) && Total(d) == total
  {
    Delta(total / DAY, total % DAY / SECOND, total % SECOND)
  }

  lemma NormalFormIsUnique(a: Delta, b: Delta)
    requires Normal(a) && Normal(b)
    ensures a == b <==> Total(a) == Total(b)
  {
    if Total(a) == Total(b) {
      var s, t := a.days * 86400 + a.seconds, b.days * 86400 + b.seconds;
      assert (s - t) * SECOND == b.microseconds - a.microseconds;
      assert s == t && a.microseconds == b.microseconds;
      assert (a.days - b.days) * 86400 == b.seconds - a.seconds;
    }
  }

  /** The `timedelta` with a given total, if its number of days is not too large. */
  function DeltaOf(total: int): (r: Result<Delta, TimeError>)
    ensures r.Success? ==> ValidDelta(r.value) && Total(r.value) == total
    ensures r.Success? <==> -MAXDAYS * DAY <= total < (MAXDAYS + 1) * DAY
  {
    var d := NormalForm(total);
    if d.days > MAXDAYS || d.days < -MAXDAYS then Failure(OverflowError) else Success(d)
  }

  /** `timedelta.__new__` on integers */
  method NewDelta(days: int, seconds: int, microseconds: int, milliseconds: int, minutes: int, hours: int, weeks: int)
    returns (result: Result<Delta, TimeError>)
    ensures result == DeltaOf(Total(Delta(days + weeks * 7, seconds + minutes * 60 + hours * 3600,
                                          microseconds + milliseconds * 1000)))
  {
    ghost var total := Total(Delta(days + weeks * 7, seconds + minutes * 60 + hours * 3600, microseconds + milliseconds * 1000));
    var days, seconds, microseconds := days + weeks * 7, seconds + minutes * 60 + hours * 3600, microseconds + milliseconds * 1000;
    var d, s, us := days, 0, 0;
    days, seconds := seconds / 86400, seconds % 86400;
    d := d + days;
    s := s + seconds;
    assert total == Total(Delta(d, s, microseconds)) && 0 <= s < 86400;
    seconds, microseconds := microseconds / SECOND, microseconds % SECOND;
    days, seconds := seconds / 86400, seconds % 86400;
    d := d + days;
    s := s + seconds;
    assert total == Total(Delta(d, s, microseconds)) && 0 <= s < 2 * 86400 && 0 <= microseconds < SECOND;
    seconds, us := microseconds / SECOND, microseconds % SECOND;
    s := s + seconds;
    days, s := s / 86400, s % 86400;
    d := d + days;
    NormalFormIsUnique(Delta(d, s, us), NormalForm(total));
    if d > MAXDAYS || d < -MAXDAYS {
      return Failure(OverflowError);
    }
    return Success(Delta(d, s, us));
  }

  method AddDeltas(a: Delta, b: Delta) returns (result: Result<Delta, TimeError>)
    ensures result == DeltaOf(Total(a) + Total(b))
  {
    result := NewDelta(a.days + b.days, a.seconds + b.seconds, a.microseconds + b.microseconds, 0, 0, 0, 0);
  }

  method SubtractDeltas(a: Delta, b: Delta) returns (result: Result<Delta, TimeError>)
    ensures result == DeltaOf(Total(a) - Total(b))
  {
    result := NewDelta(a.days - b.days, a.seconds - b.seconds, a.microseconds - b.microseconds, 0, 0, 0, 0);
  }

  method NegateDelta(a: Delta) returns (result: Result<Delta, TimeError>)
    ensures result == DeltaOf(-Total(a))
  {
    result := NewDelta(-a.days, -a.seconds, -a.microseconds, 0, 0, 0, 0);
  }

  // ---- datetime ----

  /** A datetime, naive or with a fixed offset from UTC. */
  datatype DateTime = DateTime(date: Date, hour: int, minute: int, second: int, microsecond: int, offset: Option<Delta>)

  predicate ValidDateTime(t: DateTime) {
    && ValidDate(t.date) && MINYEAR <= t.date.year <= MAXYEAR
    && 0 <= t.hour < 24 && 0 <= t.minute < 60 && 0 <= t.second < 60 && 0 <= t.microsecond < SECOND
    && (t.offset.Some? ==> ValidOffset(t.offset.value))
  }

  /** Strictly between -24 h and 24 h. */
  predicate ValidOffset(d: Delta) {
    Normal(d) && -DAY < Total(d) < DAY
  }

  function SecondOfDay(t: DateTime): int { t.second + t.minute * 60 + t.hour * 3600 }

  /** Microseconds of local time since the start of day zero. */
  function LocalTotal(t: DateTime): int
    requires ValidDate(t.date)
  {
    Total(Delta(Ymd2Ord(t.date), SecondOfDay(t), t.microsecond))
  }

  /** Microseconds since the same point in UTC; a naive time counts as UTC. */
  function Instant(t: DateTime): int
    requires ValidDate(t.date)
  {
    LocalTotal(t) - if t.offset.Some? then Total(t.offset.value) else 0
  }

  predicate InRange(total: int) { DAY <= total < (MAXORDINAL + 1) * DAY }

  lemma OrdinalInRange(d: Date)
    requires ValidDate(d)
    ensures MINYEAR <= d.year <= MAXYEAR <==> 1 <= Ymd2Ord(d) <= MAXORDINAL
  {
    DayOfYearRange(d);
    if d.year < 1 { YearsGrow(d.year, 1); }
    if 1 < d.year { YearsGrow(1, d.year); }
    if d.year < MAXYEAR { YearsGrow(d.year, MAXYEAR); }
    if MAXYEAR < d.year { YearsGrow(MAXYEAR, d.year); }
    EndYears();
  }

  lemma EndYears()
    ensures DaysBeforeYear(1) == 0 && DaysBeforeYear(MAXYEAR) + 365 == MAXORDINAL && !IsLeap(MAXYEAR)
  {
  }

  lemma TotalInRange(t: DateTime)
    requires ValidDateTime(t)
    ensures InRange(LocalTotal(t))
  {
    OrdinalInRange(t.date);
  }

  /** Hour, minute and second of a second of the day. */
  function ClockOf(seconds: int): (c: (int, int, int))
    requires 0 <= seconds < 86400
    ensures 0 <= c.0 < 24 && 0 <= c.1 < 60 && 0 <= c.2 < 60 && c.2 + c.1 * 60 + c.0 * 3600 == seconds
  {
    (seconds / 3600, seconds % 3600 / 60, seconds % 3600 % 60)
  }

  lemma ClockIsUnique(h: int, m: int, s: int, h': int, m': int, s': int)
    requires 0 <= m < 60 && 0 <= s < 60 && 0 <= m' < 60 && 0 <= s' < 60
    requires s + m * 60 + h * 3600 == s' + m' * 60 + h' * 3600
    ensures h == h' && m == m' && s == s'
  {
  }

  lemma TotalsDetermine(a: DateTime, b: DateTime)
    requires ValidDateTime(a) && ValidDateTime(b) && LocalTotal(a) == LocalTotal(b)
    ensures Ymd2Ord(a.date) == Ymd2Ord(b.date) && SecondOfDay(a) == SecondOfDay(b) && a.microsecond == b.microsecond
  {
    NormalFormIsUnique(Delta(Ymd2Ord(a.date), SecondOfDay(a), a.microsecond), Delta(Ymd2Ord(b.date), SecondOfDay(b), b.microsecond));
  }

  predicate HasLocalTotal(t: DateTime, total: int, offset: Option<Delta>) {
    ValidDateTime(t) && LocalTotal(t) == total && t.offset == offset
  }

  lemma DateTimeExists(total: int, offset: Option<Delta>) returns (t: DateTime)
    requires InRange(total) && (offset.Some? ==> ValidOffset(offset.value))
    ensures HasLocalTotal(t, total, offset)
  {
    var d := NormalForm(total);
    var (hour, minute, second) := ClockOf(d.seconds);
    OrdinalInRange(DateOf(d.days));
    t := DateTime(DateOf(d.days), hour, minute, second, d.microseconds, offset);
  }

  lemma SomeDateTime(total: int, offset: Option<Delta>)
    requires InRange(total) && (offset.Some? ==> ValidOffset(offset.value))
    ensures exists t :: HasLocalTotal(t, total, offset)
  {
    var t := DateTimeExists(total, offset);
  }

  /** The datetime with a given local total. */
  ghost function DateTimeOf(total: int, offset: Option<Delta>): (t: DateTime)
    requires InRange(total) && (offset.Some? ==> ValidOffset(offset.value))
    ensures ValidDateTime(t) && LocalTotal(t) == total && t.offset == offset
  {
    SomeDateTime(total, offset);
    var t :| HasLocalTotal(t, total, offset);
    t
  }

  /** A valid datetime is determined by its local total and offset. */
  lemma DateTimeIsUnique(a: DateTime, b: DateTime)
    requires ValidDateTime(a) && ValidDateTime(b) && a.offset == b.offset
    ensures a == b <==> LocalTotal(a) == LocalTotal(b)
  {
    if LocalTotal(a) == LocalTotal(b) {
      TotalsDetermine(a, b);
      ClockIsUnique(a.hour, a.minute, a.second, b.hour, b.minute, b.second);
      OrdinalOrder(a.date, b.date);
    }
  }

  /** The datetime with a given local total, if it lies in the years 1 to 9999. */
  ghost function DateTimeAt(total: int, offset: Option<Delta>): Result<DateTime, TimeError>
    requires offset.Some? ==> ValidOffset(offset.value)
  {
    if InRange(total) then Success(DateTimeOf(total, offset)) else Failure(OverflowError)
  }

  lemma HasTotal(t: DateTime, total: int)
    requires ValidDateTime(t) && LocalTotal(t) == total
    ensures DateTimeAt(total, t.offset) == Success(t)
  {
    TotalInRange(t);
    DateTimeIsUnique(t, DateTimeOf(total, t.offset));
  }

  /** `datetime + timedelta`: the totals add, and the only error is leaving the years 1 to 9999. */
  ghost function Plus(t: DateTime, delta: int): Result<DateTime, TimeError>
    requires ValidDateTime(t)
  {
    DateTimeAt(LocalTotal(t) + delta, t.offset)
  }

  /** What `__add__` starts from is the local total of the datetime. */
  lemma FieldsAreTotal(t: DateTime)
    requires ValidDateTime(t)
    ensures DeltaOf(Total(Delta(Ymd2Ord(t.date) + 0 * 7, t.second + t.minute * 60 + t.hour * 3600, t.microsecond + 0 * 1000))).Success?
    ensures Total(Delta(Ymd2Ord(t.date) + 0 * 7, t.second + t.minute * 60 + t.hour * 3600, t.microsecond + 0 * 1000)) == LocalTotal(t)
  {
    TotalInRange(t);
  }

  method SinceDayZero(t: DateTime) returns (delta: Delta)
    requires ValidDateTime(t)
    ensures ValidDelta(delta) && Total(delta) == LocalTotal(t)
  {
    FieldsAreTotal(t);
    var result := NewDelta(Ymd2Ord(t.date), t.second, t.microsecond, 0, t.minute, t.hour, 0);
    delta := result.value;
  }

  /** A sum with too many days for a timedelta is out of range for a datetime as well. */
  method AddInRange(a: Delta, b: Delta) returns (sum: Result<Delta, TimeError>)
    ensures sum.Failure? ==> sum.error == OverflowError && !InRange(Total(a) + Total(b))
    ensures sum.Success? ==> Normal(sum.value) && Total(sum.value) == Total(a) + Total(b)
  {
    sum := AddDeltas(a, b);
  }

  /** The datetime put together from the days and seconds of a total. */
  lemma Reassembled(sum: Delta, date: Date, hour: int, minute: int, second: int, offset: Option<Delta>)
    requires Normal(sum) && 0 < sum.days <= MAXORDINAL && date == DateOf(sum.days)
    requires 0 <= hour < 24 && 0 <= minute < 60 && 0 <= second < 60 && second + minute * 60 + hour * 3600 == sum.seconds
    requires offset.Some? ==> ValidOffset(offset.value)
    ensures DateTimeAt(Total(sum), offset) == Success(DateTime(date, hour, minute, second, sum.microseconds, offset))
  {
    OrdinalInRange(date);
    HasTotal(DateTime(date, hour, minute, second, sum.microseconds, offset), Total(sum));
  }

  /** `datetime.__add__` */
  method AddDelta(t: DateTime, other: Delta) returns (result: Result<DateTime, TimeError>)
    requires ValidDateTime(t) && ValidDelta(other)
    ensures result == Plus(t, Total(other))
  {
    var delta := SinceDayZero(t);
    var sum := AddInRange(delta, other);
    if sum.Failure? { return Failure(sum.error); }
    result := FromSum(sum.value, t.offset);
  }

  /** The end of `__add__`: a sum with its days in range becomes a datetime. */
  method FromSum(sum: Delta, offset: Option<Delta>) returns (result: Result<DateTime, TimeError>)
    requires Normal(sum) && (offset.Some? ==> ValidOffset(offset.value))
    ensures result == DateTimeAt(Total(sum), offset)
  {
    var hour, minute, second := SplitSeconds(sum.seconds);
    DaysInRange(sum);
    if 0 < sum.days <= MAXORDINAL {
      var date := Ord2Ymd(sum.days);
      Reassembled(sum, date, hour, minute, second, offset);
      return Success(DateTime(date, hour, minute, second, sum.microseconds, offset));
    }
    return Failure(OverflowError);
  }

  lemma DaysInRange(sum: Delta)
    requires Normal(sum)
    ensures InRange(Total(sum)) <==> 0 < sum.days <= MAXORDINAL
  {
  }

  /** The two `divmod` calls of `__add__`. */
  method SplitSeconds(seconds: int) returns (hour: int, minute: int, second: int)
    requires 0 <= seconds < 86400
    ensures 0 <= hour < 24 && 0 <= minute < 60 && 0 <= second < 60 && second + minute * 60 + hour * 3600 == seconds
  {
    var rem := seconds % 3600;
    hour, minute, second := seconds / 3600, rem / 60, rem % 60;
  }

  /** `datetime - timedelta`, which is `self + -other` */
  method SubtractDelta(t: DateTime, other: Delta) returns (result: Result<DateTime, TimeError>)
    requires ValidDateTime(t) && ValidDelta(other)
    ensures result == Plus(t, -Total(other))
  {
    TotalInRange(t);
    var negated := NegateDelta(other);
    if negated.Failure? { return Failure(negated.error); }
    result := AddDelta(t, negated.value);
  }

  /** `datetime - datetime` */
  method Subtract(a: DateTime, b: DateTime) returns (result: Result<Delta, TimeError>)
    requires ValidDateTime(a) && ValidDateTime(b)
    ensures a.offset.Some? != b.offset.Some? ==> result == Failure(TypeError)
    ensures a.offset.Some? == b.offset.Some? ==>
      result.Success? && ValidDelta(result.value) && Total(result.value) == Instant(a) - Instant(b)
  {
    TotalInRange(a);
    TotalInRange(b);
    var days1, days2 := Ymd2Ord(a.date), Ymd2Ord(b.date);
    var secs1, secs2 := SecondOfDay(a), SecondOfDay(b);
    var base := NewDelta(days1 - days2, secs1 - secs2, a.microsecond - b.microsecond, 0, 0, 0, 0);
    if a.offset == b.offset { return base; }
    if a.offset.None? || b.offset.None? { return Failure(TypeError); }
    result := AddDeltas(base.value, b.offset.value);
    result := SubtractDeltas(result.value, a.offset.value);
  }

  /** `(t + d) - t == d`, whenever `t + d` is in range. */
  lemma AddThenSubtract(t: DateTime, d: Delta)
    requires ValidDateTime(t) && ValidDelta(d) && Plus(t, Total(d)).Success?
    ensures DeltaOf(Instant(Plus(t, Total(d)).value) - Instant(t)) == Success(d)
  {
    NormalFormIsUnique(d, NormalForm(Total(d)));
  }

  /** Adding deltas one after the other is adding their sum, if no step leaves the range. */
  lemma AddIsAssociative(t: DateTime, d: int, e: int)
    requires ValidDateTime(t) && Plus(t, d).Success? && Plus(Plus(t, d).value, e).Success?
    ensures Plus(Plus(t, d).value, e) == Plus(t, d + e)
  {
  }

  // ---- comparison ----

  /** The comparison of `(year, month, day, hour, minute, second, microsecond)` tuples. */
  function CompareFields(a: DateTime, b: DateTime): int {
    if a.date != b.date then (if Before(a.date, b.date) then -1 else 1)
    else if a.hour != b.hour then Sign(a.hour - b.hour)
    else if a.minute != b.minute then Sign(a.minute - b.minute)
    else if a.second != b.second then Sign(a.second - b.second)
    else Sign(a.microsecond - b.microsecond)
  }

  function Sign(x: int): int { if x > 0 then 1 else if x < 0 then -1 else 0 }

  lemma FieldsCompareTotals(a: DateTime, b: DateTime)
    requires ValidDateTime(a) && ValidDateTime(b)
    ensures CompareFields(a, b) == Sign(LocalTotal(a) - LocalTotal(b))
  {
    OrdinalOrder(a.date, b.date);
  }

  /** `datetime._cmp`: chronological order of the instants; comparing a naive with an aware datetime
      is an error, except for equality, where it gives 2. */
  method Compare(a: DateTime, b: DateTime, allowMixed: bool) returns (result: Result<int, TimeError>)
    requires ValidDateTime(a) && ValidDateTime(b)
    ensures a.offset.Some? == b.offset.Some? ==> result == Success(Sign(Instant(a) - Instant(b)))
    ensures a.offset.Some? != b.offset.Some? ==> result == if allowMixed then Success(2) else Failure(TypeError)
  {
    if a.offset == b.offset {
      FieldsCompareTotals(a, b);
      return Success(CompareFields(a, b));
    }
    if a.offset.None? || b.offset.None? {
      return if allowMixed then Success(2) else Failure(TypeError);
    }
    var diff := Subtract(a, b);
    if diff.value.days < 0 { return Success(-1); }
    return Success(if diff.value == Delta(0, 0, 0) then 0 else 1);
  }
}
