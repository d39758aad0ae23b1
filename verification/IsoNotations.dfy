/** What `fromisoformat` makes of the six date notations of ISO 8601: each is read as the day it was
    written for, in front of any time that `isoformat` writes. */
module IsoNotations {
  import opened Bits
  import opened Wrappers
  import opened Chars
  import opened Spelling
  import opened Calendar
  import opened TimeArithmetic
  import opened IsoText

  predicate IsWeekNotation(n: Notation) { !n.DashedDate? && !n.PlainDate? }

  predicate HasWeekday(n: Notation) { n.DashedWeekDay? || n.PlainWeekDay? }

  /** Where the week and the weekday stand. */
  function WeekAt(n: Notation): nat { if n.DashedWeekDay? || n.DashedWeek? then 6 else 5 }
  function WeekdayAt(n: Notation): nat { if n.DashedWeekDay? then 9 else 7 }

  // ---- week dates ----

  function WeekText(n: Notation, year: nat, week: nat, day: nat): string
    requires IsWeekNotation(n)
  {
    JoinedWeek(n, Padded(year, 4), Padded(week, 2), Padded(day, 1))
  }

  function JoinedWeek(n: Notation, y: string, w: string, d: string): string
    requires IsWeekNotation(n)
  {
    match n
    case DashedWeekDay => y + ("-W" + (w + ("-" + d)))
    case DashedWeek => y + ("-W" + w)
    case PlainWeekDay => y + ("W" + (w + d))
    case _ => y + ("W" + w)
  }

  lemma WeekTextParts(n: Notation, year: nat, week: nat, day: nat)
    requires IsWeekNotation(n) && year < 10000 && week < 100 && day < 10
    ensures var s := WeekText(n, year, week, day);
            && |s| == |Template(n)| && Begins(s, n)
            && s[0..4] == Padded(year, 4) && s[WeekAt(n)..WeekAt(n) + 2] == Padded(week, 2)
            && (HasWeekday(n) ==> s[WeekdayAt(n)..WeekdayAt(n) + 1] == Padded(day, 1))
  {
    var y, w, d := Padded(year, 4), Padded(week, 2), Padded(day, 1);
    assert |y| == 4 && |w| == 2 && |d| == 1 && AllDigits(y) && AllDigits(w) && AllDigits(d) by {
      assert Pow(10, 4) == 10000 && Pow(10, 2) == 100 && Pow(10, 1) == 10;
      PaddedIsNumber(year, 4);
      PaddedIsNumber(week, 2);
      PaddedIsNumber(day, 1);
    }
    JoinedParts(n, y, w, d);
  }

  lemma JoinedParts(n: Notation, y: string, w: string, d: string)
    requires IsWeekNotation(n) && |y| == 4 && |w| == 2 && |d| == 1 && AllDigits(y) && AllDigits(w) && AllDigits(d)
    ensures var s := JoinedWeek(n, y, w, d);
            && |s| == |Template(n)| && Begins(s, n) && s[0..4] == y && s[WeekAt(n)..WeekAt(n) + 2] == w
            && (HasWeekday(n) ==> s[WeekdayAt(n)..WeekdayAt(n) + 1] == d)
  {
    JoinedBegins(n, y, w, d);
    var mark := if n.DashedWeekDay? || n.DashedWeek? then "-W" else "W";
    var tail := if n.DashedWeekDay? then "-" + d else if n.PlainWeekDay? then d else "";
    assert JoinedWeek(n, y, w, d) == (y + mark) + (w + tail);
    assert HasWeekday(n) ==> tail[|tail| - 1..] == d;
    FourParts(y, mark, w, tail);
  }

  lemma FourParts(y: string, mark: string, w: string, tail: string)
    ensures var s, k := (y + mark) + (w + tail), |y| + |mark|;
            s[0..|y|] == y && s[k..k + |w|] == w && s[k + |w|..] == tail
  {
  }

  lemma JoinedBegins(n: Notation, y: string, w: string, d: string)
    requires IsWeekNotation(n) && |y| == 4 && |w| == 2 && |d| == 1 && AllDigits(y) && AllDigits(w) && AllDigits(d)
    ensures Begins(JoinedWeek(n, y, w, d), n)
  {
    match n
    case DashedWeekDay =>
    case DashedWeek =>
    case PlainWeekDay =>
    case PlainWeek =>
  }

  lemma WeekNumbersRead(toInt: IntReader, year: nat, week: nat, day: nat)
    requires ReadsDigits(toInt) && year < 10000 && week < 100 && day < 10
    ensures toInt(Padded(year, 4)) == Some(year) && toInt(Padded(week, 2)) == Some(week) && toInt(Padded(day, 1)) == Some(day)
  {
    ReadsFourDigits(toInt, year);
    ReadsTwoDigits(toInt, week);
    assert Pow(10, 1) == 10;
    PaddedIsNumber(day, 1);
  }

  /** The marks of a week notation, where the parser looks for them. */
  lemma WeekMarks(s: string, n: Notation)
    requires IsWeekNotation(n) && Begins(s, n) && |s| == |Template(n)|
    ensures (s[4] == '-') == (n.DashedWeekDay? || n.DashedWeek?)
    ensures s[WeekAt(n) - 1] == 'W'
    ensures n.DashedWeekDay? ==> s[8] == '-'
    ensures n.PlainWeekDay? ==> s[7] != '-'
  {
    var t := Template(n);
    assert t[4] == (if n.DashedWeekDay? || n.DashedWeek? then '-' else 'W') && t[WeekAt(n) - 1] == 'W';
    assert n.DashedWeekDay? ==> t[8] == '-';
    assert n.PlainWeekDay? ==> t[7] == '9';
  }

  /** The week date a notation stands for: without a weekday it is the Monday. */
  function Denoted(n: Notation, iso: IsoDate): IsoDate {
    if HasWeekday(n) then iso else iso.(day := 1)
  }

  lemma WeekFieldsRead(toInt: IntReader, s: string, n: Notation, iso: IsoDate)
    requires IsWeekNotation(n) && Begins(s, n) && |s| == |Template(n)|
    requires MINYEAR <= iso.year <= MAXYEAR && Accepted(iso)
    requires toInt(s[0..4]) == Some(iso.year) && toInt(s[WeekAt(n)..WeekAt(n) + 2]) == Some(iso.week)
    requires HasWeekday(n) ==> toInt(s[WeekdayAt(n)..WeekdayAt(n) + 1]) == Some(iso.day)
    ensures ParseDate(toInt, s) == Success(DateOf(IsoOrdinal(Denoted(n, iso))))
  {
    WeekMarks(s, n);
    assert Slice(s, WeekAt(n), WeekAt(n) + 2) == s[WeekAt(n)..WeekAt(n) + 2];
    if HasWeekday(n) {
      assert Slice(s, WeekdayAt(n), WeekdayAt(n) + 1) == s[WeekdayAt(n)..WeekdayAt(n) + 1];
    }
  }

  /** Every accepted week date of the years 1 to 9999 is read, in all four notations, as the day the
      ISO calendar gives it. */
  lemma WeekDateRead(toInt: IntReader, n: Notation, iso: IsoDate)
    requires ReadsDigits(toInt) && IsWeekNotation(n) && MINYEAR <= iso.year <= MAXYEAR && Accepted(iso)
    ensures ParseDate(toInt, WeekText(n, iso.year, iso.week, iso.day)) == Success(DateOf(IsoOrdinal(Denoted(n, iso))))
    ensures IsoCalendar(DateOf(IsoOrdinal(Denoted(n, iso)))) == Denoted(n, iso)
  {
    WeekTextParts(n, iso.year, iso.week, iso.day);
    WeekNumbersRead(toInt, iso.year, iso.week, iso.day);
    WeekFieldsRead(toInt, WeekText(n, iso.year, iso.week, iso.day), n, iso);
    IsoInverse(Denoted(n, iso));
  }

  // ---- calendar dates ----

  function PlainText(year: nat, month: nat, day: nat): string {
    Padded(year, 4) + (Padded(month, 2) + Padded(day, 2))
  }

  lemma PlainParts(year: nat, month: nat, day: nat)
    requires year < 10000 && month < 100 && day < 100
    ensures var s := PlainText(year, month, day);
            && |s| == 8 && Begins(s, PlainDate)
            && s[0..4] == Padded(year, 4) && s[4..6] == Padded(month, 2) && s[6..8] == Padded(day, 2)
  {
    assert Pow(10, 4) == 10000 && Pow(10, 2) == 100;
    PaddedIsNumber(year, 4);
    PaddedIsNumber(month, 2);
    PaddedIsNumber(day, 2);
  }

  lemma PlainFieldsRead(toInt: IntReader, s: string, d: Date)
    requires |s| == 8 && Begins(s, PlainDate)
    requires toInt(s[0..4]) == Some(d.year) && toInt(s[4..6]) == Some(d.month) && toInt(s[6..8]) == Some(d.day)
    ensures ParseDate(toInt, s) == Success(d)
  {
    var t := Template(PlainDate);
    assert t[4] == '9' && t[6] == '9';
    assert Slice(s, 4, 6) == s[4..6] && Slice(s, 6, 8) == s[6..8];
  }

  lemma PlainDateRead(toInt: IntReader, d: Date)
    requires ReadsDigits(toInt) && ValidDate(d) && MINYEAR <= d.year <= MAXYEAR
    ensures var s := PlainText(d.year, d.month, d.day);
            |s| == 8 && Begins(s, PlainDate) && ParseDate(toInt, s) == Success(d)
  {
    FewDigits(d);
    PlainParts(d.year, d.month, d.day);
    ReadsFourDigits(toInt, d.year);
    ReadsTwoDigits(toInt, d.month);
    ReadsTwoDigits(toInt, d.day);
    PlainFieldsRead(toInt, PlainText(d.year, d.month, d.day), d);
  }

  // ---- all six notations ----

  lemma FirstAndLastMonday()
    ensures Week1MondayFrom(1) == 1 && Week1MondayFrom(MAXORDINAL + 1) > MAXORDINAL
  {
  }

  lemma YearStarts(year: int, days: int)
    requires DaysBeforeYear(year) == days
    ensures IsoWeek1Monday(year) == Week1MondayFrom(days + 1)
  {
  }

  lemma IsoYearLimits()
    ensures IsoWeek1Monday(MINYEAR) == 1 && IsoWeek1Monday(MAXYEAR + 1) > MAXORDINAL
  {
    EndYears();
    YearLength(MAXYEAR);
    YearStarts(MINYEAR, 0);
    YearStarts(MAXYEAR + 1, MAXORDINAL);
    FirstAndLastMonday();
  }

  lemma AcceptedYearInRange(iso: IsoDate, ordinal: int)
    requires IsIsoDateOf(iso, ordinal) && 1 <= ordinal <= MAXORDINAL
    ensures MINYEAR <= iso.year <= MAXYEAR && 1 <= IsoOrdinal(iso.(day := 1)) <= ordinal
  {
    AcceptedMeansInside(iso);
    MondayOfWeek(iso);
    IsoYearLimits();
    MondaysGrow(iso.year + 1, MINYEAR);
    MondaysGrow(MAXYEAR + 1, iso.year);
    MondaysGrow(MINYEAR, iso.year);
  }

  lemma MondayOfWeek(iso: IsoDate)
    requires Accepted(iso)
    ensures IsoWeek1Monday(iso.year) <= IsoOrdinal(iso.(day := 1)) <= IsoOrdinal(iso)
  {
  }

  lemma MondaysGrow(y: int, y': int)
    ensures y <= y' ==> IsoWeek1Monday(y) <= IsoWeek1Monday(y')
  {
    if y < y' { IsoYearsGrow(y, y'); }
  }

  /** The days of the years 1 to 9999 lie in the ISO years 1 to 9999. */
  lemma IsoYearInRange(d: Date)
    requires ValidDate(d) && MINYEAR <= d.year <= MAXYEAR
    ensures MINYEAR <= IsoCalendar(d).year <= MAXYEAR && IsIsoDateOf(IsoCalendar(d), Ymd2Ord(d))
    ensures 1 <= IsoOrdinal(IsoCalendar(d).(day := 1)) <= MAXORDINAL
  {
    IsoRoundTrip(d);
    OrdinalInRange(d);
    AcceptedYearInRange(IsoCalendar(d), Ymd2Ord(d));
  }

  /** A day as written in a notation. */
  function DateText(n: Notation, d: Date): string
    requires ValidDate(d) && MINYEAR <= d.year <= MAXYEAR
  {
    IsoYearInRange(d);
    var iso := IsoCalendar(d);
    match n
    case DashedDate => FormatDate(d)
    case PlainDate => PlainText(d.year, d.month, d.day)
    case _ => WeekText(n, iso.year, iso.week, iso.day)
  }

  /** What is left of a day in a notation: without a weekday, the Monday of its ISO week. */
  ghost function Kept(n: Notation, d: Date): Date
    requires ValidDate(d)
  {
    if n.DashedWeek? || n.PlainWeek? then DateOf(IsoOrdinal(IsoCalendar(d).(day := 1))) else d
  }

  lemma DateTextRead(toInt: IntReader, n: Notation, d: Date)
    requires ReadsDigits(toInt) && ValidDate(d) && MINYEAR <= d.year <= MAXYEAR
    ensures var s := DateText(n, d);
            |s| == |Template(n)| && Begins(s, n) && ParseDate(toInt, s) == Success(Kept(n, d))
  {
    if n.DashedDate? {
      DateRead(toInt, d);
    } else if n.PlainDate? {
      PlainDateRead(toInt, d);
    } else {
      var iso := IsoCalendar(d);
      IsoYearInRange(d);
      WeekTextParts(n, iso.year, iso.week, iso.day);
      WeekDateRead(toInt, n, iso);
      WholeWeekDate(n, d);
    }
  }

  lemma WholeWeekDate(n: Notation, d: Date)
    requires IsWeekNotation(n) && ValidDate(d) && IsIsoDateOf(IsoCalendar(d), Ymd2Ord(d))
    ensures DateOf(IsoOrdinal(Denoted(n, IsoCalendar(d)))) == Kept(n, d)
  {
    DateOfIsInverse(d);
  }

  lemma KeptInRange(n: Notation, d: Date)
    requires ValidDate(d) && MINYEAR <= d.year <= MAXYEAR
    ensures ValidDate(Kept(n, d)) && MINYEAR <= Kept(n, d).year <= MAXYEAR
  {
    if n.DashedWeek? || n.PlainWeek? {
      IsoYearInRange(d);
      OrdinalInRange(Kept(n, d));
    }
  }

  lemma WholeRead(toInt: IntReader, s: string, d: Date)
    requires |s| >= 7 && FindSeparator(s) == Success(|s|) && ParseDate(toInt, s) == Success(d)
    requires ValidDate(d) && MINYEAR <= d.year <= MAXYEAR
    ensures FromIsoFormat(toInt, s) == Success(DateTime(d, 0, 0, 0, 0, None))
  {
    assert Slice(s, 0, |s|) == s && Slice(s, |s| + 1, |s| + |s| + 1) == "";
  }

  /** A day alone is read as its midnight. */
  lemma ReadsDate(toInt: IntReader, n: Notation, d: Date)
    requires ReadsDigits(toInt) && ValidDate(d) && MINYEAR <= d.year <= MAXYEAR
    ensures FromIsoFormat(toInt, DateText(n, d)) == Success(DateTime(Kept(n, d), 0, 0, 0, 0, None))
  {
    DateTextRead(toInt, n, d);
    KeptInRange(n, d);
    DateAlone(DateText(n, d), n);
    WholeRead(toInt, DateText(n, d), Kept(n, d));
  }

  lemma DateAlone(s: string, n: Notation)
    requires Begins(s, n) && |s| == |Template(n)|
    ensures FindSeparator(s) == Success(|s|)
  {
    SeparatorExactly(s, n);
  }

  /** A formatted time starts with two digits and no more. */
  lemma TimeStart(t: DateTime, spec: TimeSpec)
    requires ValidDateTime(t)
    ensures var time := TimeText(t, spec);
            |time| >= 2 && RunAt(time, 0) == 2
  {
    var time := TimeText(t, spec);
    assert Pow(10, 2) == 100;
    PaddedIsNumber(t.hour, 2);
    assert time[0] == Padded(t.hour, 2)[0] && time[1] == Padded(t.hour, 2)[1];
    assert |time| > 2 ==> !IsDigit(time[2]);
  }

  /** In front of a time that starts with two digits, the end of a date is recognised in every
      notation and for every separator, but for a digit behind a dashed weekday. */
  lemma TimeIsRecognised(n: Notation, date: string, sep: char, time: string)
    requires |date| == |Template(n)| && |time| >= 2 && RunAt(time, 0) == 2
    ensures Recognisable(date + ([sep] + time), n) <==> n != DashedWeekDay || !IsDigit(sep)
  {
    var s, k := date + ([sep] + time), |date|;
    assert s[k] == sep && s[k + 1] == time[0] && s[k + 2] == time[1] && s[k + 1..] == time;
    assert |time| > 2 ==> s[k + 3] == time[2];
    assert IsDigit(time[0]) && IsDigit(time[1]) && (|time| > 2 ==> !IsDigit(time[2]));
    RunBehind(s, k, sep);
  }

  lemma RunBehind(s: string, k: nat, sep: char)
    requires k + 3 <= |s| && s[k] == sep && IsDigit(s[k + 1]) && IsDigit(s[k + 2]) && (|s| > k + 3 ==> !IsDigit(s[k + 3]))
    ensures RunAt(s, k) == if IsDigit(sep) then 3 else 0
  {
  }

  /** A time as `isoformat` writes it. */
  function TimeText(t: DateTime, spec: TimeSpec): string
    requires ValidDateTime(t)
  {
    FormatTime(t.hour, t.minute, t.second, t.microsecond, spec) + FormatOffset(t.offset)
  }

  /** Reading a date in any of the six notations, any separator and a time that `isoformat` wrote gives
      that day and what the timespec kept of that time. The one exception is a digit as separator
      behind a dashed weekday. */
  lemma ReadsNotation(toInt: IntReader, n: Notation, t: DateTime, sep: char, spec: TimeSpec)
    requires ReadsDigits(toInt) && ValidDateTime(t)
    ensures var date, time := DateText(n, t.date), TimeText(t, spec);
            && |date + ([sep] + time)| >= 7
            && (FindSeparator(date + ([sep] + time)) == Success(|date|) <==> n != DashedWeekDay || !IsDigit(sep))
            && (n != DashedWeekDay || !IsDigit(sep) ==>
                 FromIsoFormat(toInt, date + ([sep] + time)) == Success(Truncated(t.(date := Kept(n, t.date)), spec)))
  {
    var date, time := DateText(n, t.date), TimeText(t, spec);
    DateTextRead(toInt, n, t.date);
    TimeStart(t, spec);
    StillBegins(date, [sep] + time, n);
    SeparatorExactly(date + ([sep] + time), n);
    TimeIsRecognised(n, date, sep, time);
    if n != DashedWeekDay || !IsDigit(sep) {
      KeptInRange(n, t.date);
      TimeRead(toInt, t, spec);
      PartsRead(toInt, date, sep, time);
      TruncatedFields(t.(date := Kept(n, t.date)), spec);
    }
  }
}
