/** ISO 8601 text of datetimes in `_pydatetime.py`: `isoformat`, `fromisoformat`, and the round trip. */
module IsoText {
  import opened Bits
  import opened Wrappers
  import opened Chars
  import opened Spelling
  import opened Calendar
  import opened TimeArithmetic

  datatype TextError = ValueError | AssertionFailed

  datatype TimeSpec = Auto | Hours | Minutes | Seconds | Milliseconds | Microseconds

  // ---- formatting ----

  /** `'%0*d'` of a number that is not negative. */
  function Padded(n: nat, w: nat): string {
    ZeroFill(Digits(n), w)
  }

  /** The timespec that 'auto' stands for. */
  function Resolve(spec: TimeSpec, us: int): TimeSpec {
    if spec == Auto then (if us != 0 then Microseconds else Seconds) else spec
  }

  /** `_format_time` */
  function FormatTime(hh: nat, mm: nat, ss: nat, us: nat, spec: TimeSpec): string {
    var spec := Resolve(spec, us);
    var h, m, s := Padded(hh, 2), ":" + Padded(mm, 2), ":" + Padded(ss, 2);
    match spec
    case Hours => h
    case Minutes => h + m
    case Milliseconds => h + (m + (s + ("." + Padded(us / 1000, 3))))
    case Microseconds => h + (m + (s + ("." + Padded(us, 6))))
    case _ => h + (m + s)
  }

  /** The absolute value of an offset as hours, minutes, seconds and microseconds. */
  function OffsetFields(off: Delta): (f: (nat, nat, nat, nat))
    requires ValidOffset(off)
    ensures f.0 < 24 && f.1 < 60 && f.2 < 60 && f.3 < SECOND
    ensures ((f.0 * 60 + f.1) * 60 + f.2) * SECOND + f.3 == if off.days < 0 then -Total(off) else Total(off)
  {
    var total := if off.days < 0 then -Total(off) else Total(off);
    var hh, rem := total / (3600 * SECOND), total % (3600 * SECOND);
    var mm, rest := rem / (60 * SECOND), rem % (60 * SECOND);
    (hh, mm, rest / SECOND, rest % SECOND)
  }

  /** `_format_offset` */
  function FormatOffset(off: Option<Delta>): string
    requires off.Some? ==> ValidOffset(off.value)
  {
    if off.None? then ""
    else
      var (hh, mm, ss, us) := OffsetFields(off.value);
      var sign := if off.value.days < 0 then "-" else "+";
      var hm := Padded(hh, 2) + (":" + Padded(mm, 2));
      if us != 0 then sign + (Padded(hh, 2) + (":" + Padded(mm, 2) + (":" + Padded(ss, 2) + ("." + Padded(us, 6)))))
      else if ss != 0 then sign + (Padded(hh, 2) + (":" + Padded(mm, 2) + (":" + Padded(ss, 2))))
      else sign + hm
  }

  function FormatDate(d: Date): string
    requires ValidDate(d) && 0 <= d.year
  {
    Padded(d.year, 4) + ("-" + (Padded(d.month, 2) + ("-" + Padded(d.day, 2))))
  }

  /** `datetime.isoformat` */
  function IsoFormat(t: DateTime, sep: char, spec: TimeSpec): string
    requires ValidDateTime(t)
  {
    FormatDate(t.date) + ([sep] + (FormatTime(t.hour, t.minute, t.second, t.microsecond, spec) + FormatOffset(t.offset)))
  }

  // ---- parsing ----

  /** `s[a:b]` */
  function Slice(s: string, a: nat, b: nat): string
    requires a <= b
  {
    s[if a <= |s| then a else |s|..if b <= |s| then b else |s|]
  }

  /** The built-in `int()` is a parameter of the parser: it reads a text or raises. All that the
      round trip needs to know is that it reads strings of digits. */
  type IntReader = string -> Option<int>

  ghost predicate ReadsDigits(toInt: IntReader) {
    forall s :: s != [] && AllDigits(s) ==> toInt(s) == Some(Number(s))
  }

  const FRACTION_CORRECTION: seq<int> := [100000, 10000, 1000, 100, 10]

  /** One pass of the loop of `_parse_hh_mm_ss_ff`: the number read, where the next one starts, and
      whether the loop ends. */
  function TimeComponent(toInt: IntReader, t: string, pos: nat, comp: nat, hasSep: bool): (r: Result<(int, nat, bool, bool), TextError>)
    ensures r.Success? ==> pos < r.value.1 <= |t|
  {
    if |t| < pos + 2 then Failure(ValueError) else
      var v := toInt(t[pos..pos + 2]);
      if v.None? then Failure(ValueError) else
        var p := pos + 2;
        var hasSep := if comp == 0 then p < |t| && t[p] == ':' else hasSep;
        if p == |t| || comp >= 2 then Success((v.value, p, hasSep, true))
        else if hasSep && t[p] != ':' then Failure(ValueError)
        else Success((v.value, if hasSep then p + 1 else p, hasSep, false))
  }

  /** The rest of the loop, from component `comp` on: the position behind it and the components. */
  function TimeComponents(toInt: IntReader, t: string, pos: nat, comp: nat, hasSep: bool, comps: seq<int>)
    : Result<(nat, seq<int>), TextError>
    requires comp <= 3 && |comps| == 4
    ensures TimeComponents(toInt, t, pos, comp, hasSep, comps).Success? ==>
      |TimeComponents(toInt, t, pos, comp, hasSep, comps).value.1| == 4
    decreases |t| - pos
  {
    if comp == 3 then Success((pos, comps)) else
      match TimeComponent(toInt, t, pos, comp, hasSep)
      case Failure(e) => Failure(e)
      case Success((v, p, sep, done)) =>
        if done then Success((p, comps[comp := v])) else TimeComponents(toInt, t, p, comp + 1, sep, comps[comp := v])
  }

  /** The fraction behind the components: microseconds, further digits ignored. */
  function Fraction(toInt: IntReader, t: string, pos: nat): Result<int, TextError> {
    if pos >= |t| then Success(0)
    else if t[pos] != '.' && t[pos] != ',' then Failure(ValueError)
    else
      var rest := t[pos + 1..];
      var n := if |rest| >= 6 then 6 else |rest|;
      var v := toInt(rest[..n]);
      if v.None? || n == 0 then Failure(ValueError)
      else if !AllDigits(rest[n..]) then Failure(ValueError)
      else Success(if n < 6 then v.value * FRACTION_CORRECTION[n - 1] else v.value)
  }

  /** `_parse_hh_mm_ss_ff` */
  function TimeFields(toInt: IntReader, t: string): (r: Result<seq<int>, TextError>)
    ensures r.Success? ==> |r.value| == 4
  {
    match TimeComponents(toInt, t, 0, 0, false, [0, 0, 0, 0])
    case Failure(e) => Failure(e)
    case Success((pos, comps)) =>
      match Fraction(toInt, t, pos)
      case Failure(e) => Failure(e)
      case Success(us) => Success(comps[3 := us])
  }

  /** `_parse_hh_mm_ss_ff`, filling its list of four components in place. */
  method ParseHhMmSsFf(toInt: IntReader, t: string) returns (result: Result<seq<int>, TextError>)
    ensures result == TimeFields(toInt, t)
  {
    var timeComps := [0, 0, 0, 0];
    var pos, comp, hasSep := 0, 0, false;
    while comp < 3
      invariant 0 <= comp <= 3 && |timeComps| == 4
      invariant TimeComponents(toInt, t, 0, 0, false, [0, 0, 0, 0]) == TimeComponents(toInt, t, pos, comp, hasSep, timeComps)
      decreases 3 - comp
    {
      if |t| < pos + 2 { return Failure(ValueError); }
      var v := toInt(t[pos..pos + 2]);
      if v.None? { return Failure(ValueError); }
      timeComps := timeComps[comp := v.value];
      pos := pos + 2;
      if comp == 0 { hasSep := pos < |t| && t[pos] == ':'; }
      if pos == |t| || comp >= 2 { break; }
      if hasSep && t[pos] != ':' { return Failure(ValueError); }
      if hasSep { pos := pos + 1; }
      comp := comp + 1;
    }
    var us := Fraction(toInt, t, pos);
    if us.Failure? { return Failure(us.error); }
    return Success(timeComps[3 := us.value]);
  }

  /** `_find_isoformat_datetime_separator` */
  function FindSeparator(s: string): Result<nat, TextError>
    requires |s| >= 7
  {
    if |s| == 7 then Success(7)
    else if s[4] == '-' then
      if s[5] == 'W' then
        if |s| > 8 && s[8] == '-' then
          if |s| == 9 then Failure(ValueError)
          else if |s| > 10 && IsDigit(s[10]) then Success(8)
          else Success(10)
        else Success(8)
      else Success(10)
    else if s[4] == 'W' then
      var idx := SpanEnd(s, 7, IsDigit);
      Success(if idx < 9 then idx else if idx % 2 == 0 then 7 else 8)
    else Success(8)
  }

  /** The date notations of ISO 8601: calendar dates, and week dates with or without a weekday. */
  datatype Notation = DashedDate | PlainDate | DashedWeekDay | DashedWeek | PlainWeekDay | PlainWeek

  /** What a notation looks like; every '9' stands for any digit. */
  function Template(n: Notation): string {
    match n
    case DashedDate => "9999-99-99"
    case PlainDate => "99999999"
    case DashedWeekDay => "9999-W99-9"
    case DashedWeek => "9999-W99"
    case PlainWeekDay => "9999W999"
    case PlainWeek => "9999W99"
  }

  predicate Begins(s: string, n: Notation) {
    && |Template(n)| <= |s|
    && forall i :: 0 <= i < |Template(n)| ==> if Template(n)[i] == '9' then IsDigit(s[i]) else s[i] == Template(n)[i]
  }

  /** How many digits stand at `i` in a row. */
  function RunAt(s: string, i: nat): nat
    requires i <= |s|
  {
    SpanEnd(s, i, IsDigit) - i
  }

  /** What has to follow a date for its end to be recognised: anything behind a calendar date, a
      separator that is no digit behind a dashed weekday, no '-' behind a dashed week unless the time
      starts with two characters of which the second is a digit, and no digits behind a plain week
      date unless there is a suitable odd number of them. */
  predicate Recognisable(s: string, n: Notation)
    requires |Template(n)| <= |s|
  {
    match n
    case DashedDate => true
    case PlainDate => true
    case DashedWeekDay => |s| > 10 ==> !IsDigit(s[10])
    case DashedWeek => |s| > 8 && s[8] == '-' ==> |s| > 10 && IsDigit(s[10])
    case PlainWeekDay => RunAt(s, 8) == 0 || RunAt(s, 8) % 2 == 1
    case PlainWeek => RunAt(s, 7) == 0 || (RunAt(s, 7) % 2 == 1 && RunAt(s, 7) > 1)
  }

  /** Exactly when the search finds the end of the date that a text begins with. */
  lemma SeparatorExactly(s: string, n: Notation)
    requires Begins(s, n)
    ensures FindSeparator(s) == Success(|Template(n)|) <==> Recognisable(s, n)
  {
    var t := Template(n);
    assert forall i :: i in {4, 5, 7} && i < |t| ==> if t[i] == '9' then IsDigit(s[i]) else s[i] == t[i];
    if n == DashedWeekDay { assert t[8] == '-' && s[8] == '-'; }
  }

  /** The digit-counting loop of `_find_isoformat_datetime_separator`. */
  method CountDigits(s: string) returns (idx: nat)
    requires |s| >= 7
    ensures idx == SpanEnd(s, 7, IsDigit)
  {
    idx := 7;
    while idx < |s|
      invariant 7 <= idx <= |s| && SpanEnd(s, 7, IsDigit) == SpanEnd(s, idx, IsDigit)
    {
      if !IsDigit(s[idx]) { break; }
      idx := idx + 1;
    }
  }

  /** `_parse_isoformat_date`: year, month and day, not yet checked, or the date of a week date. */
  ghost function ParseDate(toInt: IntReader, s: string): Result<Date, TextError> {
    if |s| != 7 && |s| != 8 && |s| != 10 then Failure(AssertionFailed) else
      var year := toInt(s[0..4]);
      var hasSep := s[4] == '-';
      var pos := if hasSep then 5 else 4;
      if year.None? then Failure(ValueError)
      else if s[pos] == 'W' then ParseWeekDate(toInt, s, year.value, hasSep, pos + 1)
      else ParseMonthDay(toInt, s, year.value, hasSep, pos)
  }

  ghost function ParseWeekDate(toInt: IntReader, s: string, year: int, hasSep: bool, pos: nat): Result<Date, TextError> {
    var week := toInt(Slice(s, pos, pos + 2));
    if week.None? then Failure(ValueError) else
      var p := pos + 2;
      if |s| > p && (s[p] == '-') != hasSep then Failure(ValueError) else
        var day := if |s| > p then toInt(Slice(s, if hasSep then p + 1 else p, if hasSep then p + 2 else p + 1)) else Some(1);
        if day.None? then Failure(ValueError) else
          var d := Gregorian(IsoDate(year, week.value, day.value));
          if d.Failure? then Failure(ValueError) else Success(d.value)
  }

  function ParseMonthDay(toInt: IntReader, s: string, year: int, hasSep: bool, pos: nat): Result<Date, TextError> {
    var month := toInt(Slice(s, pos, pos + 2));
    var p := pos + 2;
    if month.None? || (p < |s| && s[p] == '-') != hasSep then Failure(ValueError) else
      var q := if hasSep then p + 1 else p;
      var day := toInt(Slice(s, q, q + 2));
      if day.None? then Failure(ValueError) else Success(Date(year, month.value, day.value))
  }

  /** One more than the position of the zone's first character, or zero: a '-' anywhere wins over
      any '+', and a '+' over any 'Z'. */
  function ZonePosition(s: string): (k: nat)
    ensures k <= |s|
  {
    if FindChar(s, '-', 0) < |s| then FindChar(s, '-', 0) + 1
    else if FindChar(s, '+', 0) < |s| then FindChar(s, '+', 0) + 1
    else if FindChar(s, 'Z', 0) < |s| then FindChar(s, 'Z', 0) + 1
    else 0
  }

  /** The offset of a zone text and its sign, checked by the `timezone` constructor. */
  function ParseZone(toInt: IntReader, s: string, negative: bool): Result<Option<Delta>, TextError> {
    if |s| == 0 || |s| == 1 || |s| == 3 then Failure(ValueError) else
      match TimeFields(toInt, s)
      case Failure(e) => Failure(e)
      case Success(f) =>
        var total := Total(Delta(0, f[0] * 3600 + f[1] * 60 + f[2], f[3]));
        var off := NormalForm(if negative then -total else total);
        if f == [0, 0, 0, 0] then Success(Some(Delta(0, 0, 0)))
        else if ValidOffset(off) then Success(Some(off))
        else Failure(ValueError)
  }

  /** `_parse_isoformat_time` */
  function ParseTime(toInt: IntReader, s: string): (r: Result<(seq<int>, Option<Delta>), TextError>)
    ensures r.Success? ==> |r.value.0| == 4
  {
    if |s| < 2 then Failure(ValueError) else
      var k := ZonePosition(s);
      match TimeFields(toInt, if k > 0 then s[..k - 1] else s)
      case Failure(e) => Failure(e)
      case Success(f) =>
        if k == |s| && s[|s| - 1] == 'Z' then Success((f, Some(Delta(0, 0, 0))))
        else if k > 0 then
          match ParseZone(toInt, s[k..], s[k - 1] == '-')
          case Failure(e) => Failure(e)
          case Success(off) => Success((f, off))
        else Success((f, None))
  }

  /** `datetime.fromisoformat` */
  ghost function FromIsoFormat(toInt: IntReader, s: string): Result<DateTime, TextError> {
    if |s| < 7 then Failure(ValueError) else
      match FindSeparator(s)
      case Failure(e) => Failure(e)
      case Success(loc) =>
        match ParseDate(toInt, Slice(s, 0, loc))
        case Failure(e) => Failure(e)
        case Success(date) =>
          match ParseTimeOrMidnight(toInt, Slice(s, loc + 1, |s| + loc + 1))
          case Failure(e) => Failure(e)
          case Success(time) =>
            var f := time.0;
            var t := DateTime(date, f[0], f[1], f[2], f[3], time.1);
            if ValidDateTime(t) then Success(t) else Failure(ValueError)
  }

  function ParseTimeOrMidnight(toInt: IntReader, s: string): (r: Result<(seq<int>, Option<Delta>), TextError>)
    ensures r.Success? ==> |r.value.0| == 4
  {
    if s == [] then Success(([0, 0, 0, 0], None)) else ParseTime(toInt, s)
  }

  // ---- the parser as methods ----

  /** `_find_isoformat_datetime_separator`, with its digit-counting loop. */
  method FindDateTimeSeparator(s: string) returns (result: Result<nat, TextError>)
    requires |s| >= 7
    ensures result == FindSeparator(s)
    ensures result == Failure(ValueError) <==> |s| == 9 && s[4] == '-' && s[5] == 'W' && s[8] == '-'
    ensures result.Success? ==> result.value in {7, 8, 10}
    ensures forall n :: Begins(s, n) ==> (result == Success(|Template(n)|) <==> Recognisable(s, n))
  {
    forall n | Begins(s, n) ensures FindSeparator(s) == Success(|Template(n)|) <==> Recognisable(s, n) {
      SeparatorExactly(s, n);
    }
    if |s| == 7 { return Success(7); }
    if s[4] == '-' {
      if s[5] == 'W' {
        if |s| > 8 && s[8] == '-' {
          if |s| == 9 { return Failure(ValueError); }
          if |s| > 10 && IsDigit(s[10]) { return Success(8); }
          return Success(10);
        }
        return Success(8);
      }
      return Success(10);
    }
    if s[4] == 'W' {
      var idx := CountDigits(s);
      if idx < 9 { return Success(idx); }
      return Success(if idx % 2 == 0 then 7 else 8);
    }
    return Success(8);
  }

  /** The week-date branch of `_parse_isoformat_date`. */
  method ParseIsoWeekDate(toInt: IntReader, s: string, year: int, hasSep: bool, start: nat) returns (result: Result<Date, TextError>)
    ensures result == ParseWeekDate(toInt, s, year, hasSep, start)
    ensures result.Success? ==>
      && ValidDate(result.value) && IsoCalendar(result.value).year == year
      && toInt(Slice(s, start, start + 2)) == Some(IsoCalendar(result.value).week)
      && (|s| <= start + 2 ==> IsoCalendar(result.value).day == 1)
      && (|s| > start + 2 ==>
           var at := start + if hasSep then 3 else 2;
           toInt(Slice(s, at, at + 1)) == Some(IsoCalendar(result.value).day))
  {
    var pos := start;
    var week := toInt(Slice(s, pos, pos + 2));
    if week.None? { return Failure(ValueError); }
    pos := pos + 2;
    var day := Some(1);
    if |s| > pos {
      if (s[pos] == '-') != hasSep { return Failure(ValueError); }
      if hasSep { pos := pos + 1; }
      day := toInt(Slice(s, pos, pos + 1));
    }
    if day.None? { return Failure(ValueError); }
    var d := IsoWeekToGregorian(year, week.value, day.value);
    if d.Failure? { return Failure(ValueError); }
    return Success(d.value);
  }

  /** `_parse_isoformat_date` */
  method ParseIsoformatDate(toInt: IntReader, s: string) returns (result: Result<Date, TextError>)
    ensures result == ParseDate(toInt, s)
  {
    if |s| != 7 && |s| != 8 && |s| != 10 { return Failure(AssertionFailed); }
    var year := toInt(s[0..4]);
    if year.None? { return Failure(ValueError); }
    var hasSep := s[4] == '-';
    var pos := if hasSep then 5 else 4;
    if s[pos] == 'W' {
      result := ParseIsoWeekDate(toInt, s, year.value, hasSep, pos + 1);
    } else {
      result := ParseMonthDay(toInt, s, year.value, hasSep, pos);
    }
  }

  /** `_parse_isoformat_time` */
  method ParseIsoformatTime(toInt: IntReader, s: string) returns (result: Result<(seq<int>, Option<Delta>), TextError>)
    ensures result == ParseTime(toInt, s)
  {
    if |s| < 2 { return Failure(ValueError); }
    var k := ZonePosition(s);
    var fields := ParseHhMmSsFf(toInt, if k > 0 then s[..k - 1] else s);
    if fields.Failure? { return Failure(fields.error); }
    if k == |s| && s[|s| - 1] == 'Z' { return Success((fields.value, Some(Delta(0, 0, 0)))); }
    if k == 0 { return Success((fields.value, None)); }
    var zone := ParseZone(toInt, s[k..], s[k - 1] == '-');
    if zone.Failure? { return Failure(zone.error); }
    return Success((fields.value, zone.value));
  }

  /** `datetime.fromisoformat` */
  method FromIsoformat(toInt: IntReader, s: string) returns (result: Result<DateTime, TextError>)
    ensures result == FromIsoFormat(toInt, s)
  {
    if |s| < 7 { return Failure(ValueError); }
    var loc := FindDateTimeSeparator(s);
    if loc.Failure? { return Failure(loc.error); }
    var date := ParseIsoformatDate(toInt, Slice(s, 0, loc.value));
    if date.Failure? { return Failure(date.error); }
    var rest := Slice(s, loc.value + 1, |s| + loc.value + 1);
    var time := ([0, 0, 0, 0], None);
    if rest != [] {
      var parsed := ParseIsoformatTime(toInt, rest);
      if parsed.Failure? { return Failure(parsed.error); }
      time := parsed.value;
    }
    var t := DateTime(date.value, time.0[0], time.0[1], time.0[2], time.0[3], time.1);
    return if ValidDateTime(t) then Success(t) else Failure(ValueError);
  }

  // ---- the round trip ----

  /** What a timespec keeps of a datetime. */
  function Truncated(t: DateTime, spec: TimeSpec): DateTime {
    match Resolve(spec, t.microsecond)
    case Hours => t.(minute := 0, second := 0, microsecond := 0)
    case Minutes => t.(second := 0, microsecond := 0)
    case Milliseconds => t.(microsecond := t.microsecond / 1000 * 1000)
    case Microseconds => t
    case _ => t.(microsecond := 0)
  }

  lemma PaddedIsNumber(n: nat, w: nat)
    requires 0 < w && n < Pow(10, w)
    ensures |Padded(n, w)| == w && AllDigits(Padded(n, w)) && Number(Padded(n, w)) == n
  {
    NumberOfDigits(n);
    DigitsLength(n, w);
    NumberOfZeroFill(Digits(n), w);
  }

  /** What `_parse_hh_mm_ss_ff` should read from a formatted time. */
  function KeptFields(hh: nat, mm: nat, ss: nat, us: nat, spec: TimeSpec): seq<int> {
    match Resolve(spec, us)
    case Hours => [hh, 0, 0, 0]
    case Minutes => [hh, mm, 0, 0]
    case Milliseconds => [hh, mm, ss, us / 1000 * 1000]
    case Microseconds => [hh, mm, ss, us]
    case _ => [hh, mm, ss, 0]
  }

  /** One pass of the component loop over two digits. */
  lemma ComponentRead(toInt: IntReader, t: string, pos: nat, comp: nat, hasSep: bool, comps: seq<int>, v: nat)
    requires pos + 2 <= |t| && t[pos..pos + 2] == Padded(v, 2) && toInt(Padded(v, 2)) == Some(v) && comp < 3 && |comps| == 4
    requires comp > 0 ==> hasSep
    requires pos + 2 < |t| && comp < 2 ==> t[pos + 2] == ':'
    ensures TimeComponents(toInt, t, pos, comp, hasSep, comps) ==
            if pos + 2 == |t| || comp == 2 then Success((pos + 2, comps[comp := v]))
            else TimeComponents(toInt, t, pos + 3, comp + 1, true, comps[comp := v])
  {
  }

  lemma ReadsTwoDigits(toInt: IntReader, v: nat)
    requires ReadsDigits(toInt) && v < 100
    ensures |Padded(v, 2)| == 2 && toInt(Padded(v, 2)) == Some(v)
  {
    assert Pow(10, 2) == 100;
    PaddedIsNumber(v, 2);
  }

  lemma TwoDigits(v: nat)
    requires v < 100
    ensures |Padded(v, 2)| == 2
  {
    assert Pow(10, 2) == 100;
    PaddedIsNumber(v, 2);
  }

  lemma HoursRead(toInt: IntReader, hh: nat)
    requires ReadsDigits(toInt) && hh < 100
    ensures TimeFields(toInt, Padded(hh, 2)) == Success([hh, 0, 0, 0])
  {
    var t := Padded(hh, 2);
    ReadsTwoDigits(toInt, hh);
    assert t[0..2] == t;
    ComponentRead(toInt, t, 0, 0, false, [0, 0, 0, 0], hh);
    assert [0, 0, 0, 0][0 := hh] == [hh, 0, 0, 0];
    assert [hh, 0, 0, 0][3 := 0] == [hh, 0, 0, 0];
  }

  lemma MinutesRead(toInt: IntReader, hh: nat, mm: nat)
    requires ReadsDigits(toInt) && hh < 100 && mm < 100
    ensures TimeFields(toInt, Padded(hh, 2) + (":" + Padded(mm, 2))) == Success([hh, mm, 0, 0])
  {
    var t := Padded(hh, 2) + (":" + Padded(mm, 2));
    ReadsTwoDigits(toInt, hh);
    ReadsTwoDigits(toInt, mm);
    assert t[0..2] == Padded(hh, 2) && t[2] == ':' && t[3..5] == Padded(mm, 2);
    ComponentRead(toInt, t, 0, 0, false, [0, 0, 0, 0], hh);
    assert [0, 0, 0, 0][0 := hh] == [hh, 0, 0, 0];
    ComponentRead(toInt, t, 3, 1, true, [hh, 0, 0, 0], mm);
    assert [hh, 0, 0, 0][1 := mm] == [hh, mm, 0, 0];
    assert [hh, mm, 0, 0][3 := 0] == [hh, mm, 0, 0];
  }

  /** A text that starts with three components. */
  predicate StartsWithTime(t: string, hh: nat, mm: nat, ss: nat) {
    8 <= |t| && t[0..2] == Padded(hh, 2) && t[2] == ':' && t[3..5] == Padded(mm, 2) && t[5] == ':' && t[6..8] == Padded(ss, 2)
  }

  lemma TimeStarts(hh: nat, mm: nat, ss: nat, tail: string)
    requires hh < 100 && mm < 100 && ss < 100
    ensures var t := Padded(hh, 2) + (":" + Padded(mm, 2) + (":" + Padded(ss, 2) + tail));
            StartsWithTime(t, hh, mm, ss) && t[8..] == tail
  {
    TwoDigits(hh);
    TwoDigits(mm);
    TwoDigits(ss);
  }

  lemma SecondsRead(toInt: IntReader, t: string, hh: nat, mm: nat, ss: nat)
    requires StartsWithTime(t, hh, mm, ss)
    requires toInt(Padded(hh, 2)) == Some(hh) && toInt(Padded(mm, 2)) == Some(mm) && toInt(Padded(ss, 2)) == Some(ss)
    ensures TimeComponents(toInt, t, 0, 0, false, [0, 0, 0, 0]) == Success((8, [hh, mm, ss, 0]))
  {
    ComponentRead(toInt, t, 0, 0, false, [0, 0, 0, 0], hh);
    assert [0, 0, 0, 0][0 := hh] == [hh, 0, 0, 0];
    MinutesAndSecondsRead(toInt, t, hh, mm, ss);
  }

  lemma MinutesAndSecondsRead(toInt: IntReader, t: string, hh: nat, mm: nat, ss: nat)
    requires StartsWithTime(t, hh, mm, ss) && toInt(Padded(mm, 2)) == Some(mm) && toInt(Padded(ss, 2)) == Some(ss)
    ensures TimeComponents(toInt, t, 3, 1, true, [hh, 0, 0, 0]) == Success((8, [hh, mm, ss, 0]))
  {
    ComponentRead(toInt, t, 3, 1, true, [hh, 0, 0, 0], mm);
    assert [hh, 0, 0, 0][1 := mm] == [hh, mm, 0, 0];
    ComponentRead(toInt, t, 6, 2, true, [hh, mm, 0, 0], ss);
    assert [hh, mm, 0, 0][2 := ss] == [hh, mm, ss, 0];
  }

  lemma FractionRead(toInt: IntReader, t: string, pos: nat, n: nat, w: nat)
    requires ReadsDigits(toInt) && pos <= |t| && t[pos..] == "." + Padded(n, w) && 0 < w <= 6 && n < Pow(10, w)
    ensures Fraction(toInt, t, pos) == Success(if w < 6 then n * FRACTION_CORRECTION[w - 1] else n)
  {
    PaddedIsNumber(n, w);
    assert |t[pos..]| == w + 1 && t[pos] == t[pos..][0] == '.';
    assert t[pos + 1..] == t[pos..][1..] == Padded(n, w);
    assert Padded(n, w)[..w] == Padded(n, w) && Padded(n, w)[w..] == [];
  }

  /** `_parse_hh_mm_ss_ff` undoes `_format_time`, up to what the timespec dropped. */
  lemma FieldsOfFormatted(toInt: IntReader, hh: nat, mm: nat, ss: nat, us: nat, spec: TimeSpec)
    requires ReadsDigits(toInt) && hh < 100 && mm < 100 && ss < 100 && us < SECOND
    ensures TimeFields(toInt, FormatTime(hh, mm, ss, us, spec)) == Success(KeptFields(hh, mm, ss, us, spec))
  {
    match Resolve(spec, us)
    case Hours => HoursRead(toInt, hh);
    case Minutes => MinutesRead(toInt, hh, mm);
    case Milliseconds =>
      assert Pow(10, 3) == 1000;
      WithFraction(toInt, hh, mm, ss, us / 1000, 3);
    case Microseconds =>
      assert Pow(10, 6) == SECOND;
      WithFraction(toInt, hh, mm, ss, us, 6);
    case _ => WithoutFraction(toInt, hh, mm, ss);
  }

  lemma WithFraction(toInt: IntReader, hh: nat, mm: nat, ss: nat, n: nat, w: nat)
    requires ReadsDigits(toInt) && hh < 100 && mm < 100 && ss < 100 && 0 < w <= 6 && n < Pow(10, w)
    ensures TimeFields(toInt, Padded(hh, 2) + (":" + Padded(mm, 2) + (":" + Padded(ss, 2) + ("." + Padded(n, w))))) ==
            Success([hh, mm, ss, if w < 6 then n * FRACTION_CORRECTION[w - 1] else n])
  {
    var tail := "." + Padded(n, w);
    var t := Padded(hh, 2) + (":" + Padded(mm, 2) + (":" + Padded(ss, 2) + tail));
    ReadsTwoDigits(toInt, hh);
    ReadsTwoDigits(toInt, mm);
    ReadsTwoDigits(toInt, ss);
    TimeStarts(hh, mm, ss, tail);
    SecondsRead(toInt, t, hh, mm, ss);
    FractionRead(toInt, t, 8, n, w);
    var us := if w < 6 then n * FRACTION_CORRECTION[w - 1] else n;
    assert [hh, mm, ss, 0][3 := us] == [hh, mm, ss, us];
  }

  lemma WithoutFraction(toInt: IntReader, hh: nat, mm: nat, ss: nat)
    requires ReadsDigits(toInt) && hh < 100 && mm < 100 && ss < 100
    ensures TimeFields(toInt, Padded(hh, 2) + (":" + Padded(mm, 2) + (":" + Padded(ss, 2)))) == Success([hh, mm, ss, 0])
  {
    var t := Padded(hh, 2) + (":" + Padded(mm, 2) + (":" + Padded(ss, 2) + ""));
    ReadsTwoDigits(toInt, hh);
    ReadsTwoDigits(toInt, mm);
    ReadsTwoDigits(toInt, ss);
    TimeStarts(hh, mm, ss, "");
    SecondsRead(toInt, t, hh, mm, ss);
    assert t == Padded(hh, 2) + (":" + Padded(mm, 2) + (":" + Padded(ss, 2)));
    FieldsFrom(toInt, t, 8, [hh, mm, ss, 0], 0);
    assert [hh, mm, ss, 0][3 := 0] == [hh, mm, ss, 0];
  }

  /** What the loop and the fraction behind it read together. */
  lemma FieldsFrom(toInt: IntReader, t: string, pos: nat, comps: seq<int>, us: int)
    requires |comps| == 4 && TimeComponents(toInt, t, 0, 0, false, [0, 0, 0, 0]) == Success((pos, comps))
    requires Fraction(toInt, t, pos) == Success(us)
    ensures TimeFields(toInt, t) == Success(comps[3 := us])
  {
  }

  predicate NoZoneChars(s: string) {
    forall i :: 0 <= i < |s| ==> s[i] != '-' && s[i] != '+' && s[i] != 'Z'
  }

  lemma FormattedHasNoZone(hh: nat, mm: nat, ss: nat, us: nat, spec: TimeSpec)
    requires hh < 100 && mm < 100 && ss < 100 && us < SECOND
    ensures NoZoneChars(FormatTime(hh, mm, ss, us, spec)) && 2 <= |FormatTime(hh, mm, ss, us, spec)|
  {
    var h, m, s := Padded(hh, 2), ":" + Padded(mm, 2), ":" + Padded(ss, 2);
    TwoDigits(hh);
    DigitsHaveNoZone(hh, 2);
    SeparatedHasNoZone(':', mm, 2);
    SeparatedHasNoZone(':', ss, 2);
    match Resolve(spec, us)
    case Hours =>
    case Minutes => JoinHasNoZone(h, m);
    case Milliseconds =>
      SeparatedHasNoZone('.', us / 1000, 3);
      FourPartsHaveNoZone(h, m, s, "." + Padded(us / 1000, 3));
    case Microseconds =>
      SeparatedHasNoZone('.', us, 6);
      FourPartsHaveNoZone(h, m, s, "." + Padded(us, 6));
    case _ =>
      JoinHasNoZone(m, s);
      JoinHasNoZone(h, m + s);
  }

  lemma FourPartsHaveNoZone(a: string, b: string, c: string, d: string)
    requires NoZoneChars(a) && NoZoneChars(b) && NoZoneChars(c) && NoZoneChars(d)
    ensures NoZoneChars(a + (b + (c + d)))
  {
    JoinHasNoZone(c, d);
    JoinHasNoZone(b, c + d);
    JoinHasNoZone(a, b + (c + d));
  }

  lemma SeparatedHasNoZone(sep: char, n: nat, w: nat)
    requires sep == ':' || sep == '.'
    ensures NoZoneChars([sep] + Padded(n, w))
  {
    DigitsHaveNoZone(n, w);
    JoinHasNoZone([sep], Padded(n, w));
  }

  lemma JoinHasNoZone(s: string, t: string)
    ensures NoZoneChars(s + t) <==> NoZoneChars(s) && NoZoneChars(t)
  {
    assert NoZoneChars(s + t) ==> NoZoneChars(s) by {
      assert forall i :: 0 <= i < |s| ==> (s + t)[i] == s[i];
    }
    assert NoZoneChars(s + t) ==> NoZoneChars(t) by {
      assert forall i :: 0 <= i < |t| ==> (s + t)[|s| + i] == t[i];
    }
  }

  lemma DigitsHaveNoZone(n: nat, w: nat)
    ensures NoZoneChars(Padded(n, w))
  {
    NumberOfDigits(n);
    NumberOfZeroFill(Digits(n), w);
  }

  /** An offset is written as a sign and a time with as many parts as it needs. */
  lemma OffsetIsSignedTime(off: Delta)
    requires ValidOffset(off)
    ensures var (hh, mm, ss, us) := OffsetFields(off);
            var spec := if us != 0 then Microseconds else if ss != 0 then Seconds else Minutes;
            && FormatOffset(Some(off)) == (if off.days < 0 then "-" else "+") + FormatTime(hh, mm, ss, us, spec)
            && KeptFields(hh, mm, ss, us, spec) == [hh, mm, ss, us]
  {
  }

  lemma SignedZonePosition(time: string, sign: char, zone: string)
    requires NoZoneChars(time) && NoZoneChars(zone) && (sign == '+' || sign == '-')
    ensures ZonePosition(time + ([sign] + zone)) == |time| + 1
    ensures ZonePosition(time) == 0
  {
    var s := time + ([sign] + zone);
    assert s[|time|] == sign;
    assert forall i :: 0 <= i < |time| ==> s[i] == time[i];
    assert forall i :: |time| < i < |s| ==> s[i] == zone[i - |time| - 1];
  }

  lemma ZoneRead(toInt: IntReader, off: Delta)
    requires ReadsDigits(toInt) && ValidOffset(off)
    ensures var zone := FormatOffset(Some(off));
            && zone[0] == (if off.days < 0 then '-' else '+') && NoZoneChars(zone[1..])
            && ParseZone(toInt, zone[1..], off.days < 0) == Success(Some(off))
  {
    OffsetIsSignedTime(off);
    var (hh, mm, ss, us) := OffsetFields(off);
    var spec := if us != 0 then Microseconds else if ss != 0 then Seconds else Minutes;
    var time := FormatTime(hh, mm, ss, us, spec);
    assert FormatOffset(Some(off))[1..] == time;
    FormattedHasNoZone(hh, mm, ss, us, spec);
    FieldsOfFormatted(toInt, hh, mm, ss, us, spec);
    ZoneTextLength(hh, mm, ss, us, spec);
    ZoneFromFields(toInt, time, off, hh, mm, ss, us);
  }

  lemma ZoneFromFields(toInt: IntReader, text: string, off: Delta, hh: nat, mm: nat, ss: nat, us: nat)
    requires ValidOffset(off) && (hh, mm, ss, us) == OffsetFields(off)
    requires 5 <= |text| && TimeFields(toInt, text) == Success([hh, mm, ss, us])
    ensures ParseZone(toInt, text, off.days < 0) == Success(Some(off))
  {
    FieldsToOffset(off, hh, mm, ss, us);
  }

  lemma ZoneTextLength(hh: nat, mm: nat, ss: nat, us: nat, spec: TimeSpec)
    requires hh < 100 && mm < 100 && ss < 100 && spec in {Minutes, Seconds, Microseconds}
    ensures 5 <= |FormatTime(hh, mm, ss, us, spec)|
  {
    TwoDigits(hh);
    TwoDigits(mm);
  }

  lemma FieldsToOffset(off: Delta, hh: nat, mm: nat, ss: nat, us: nat)
    requires ValidOffset(off) && (hh, mm, ss, us) == OffsetFields(off)
    ensures var total := Total(Delta(0, hh * 3600 + mm * 60 + ss, us));
            && NormalForm(if off.days < 0 then -total else total) == off
            && (total == 0 ==> off == Delta(0, 0, 0))
  {
    NormalFormIsUnique(off, NormalForm(Total(off)));
    NormalFormIsUnique(off, Delta(0, 0, 0));
  }

  lemma TimeRead(toInt: IntReader, t: DateTime, spec: TimeSpec)
    requires ReadsDigits(toInt) && ValidDateTime(t)
    ensures ParseTime(toInt, FormatTime(t.hour, t.minute, t.second, t.microsecond, spec) + FormatOffset(t.offset)) ==
            Success((KeptFields(t.hour, t.minute, t.second, t.microsecond, spec), t.offset))
  {
    var time := FormatTime(t.hour, t.minute, t.second, t.microsecond, spec);
    var zone := FormatOffset(t.offset);
    FormattedHasNoZone(t.hour, t.minute, t.second, t.microsecond, spec);
    FieldsOfFormatted(toInt, t.hour, t.minute, t.second, t.microsecond, spec);
    if t.offset.None? {
      assert time + zone == time;
      NaiveTimeRead(toInt, time);
    } else {
      ZoneRead(toInt, t.offset.value);
      assert zone == [zone[0]] + zone[1..];
      ZonedTimeRead(toInt, time, zone[0], zone[1..]);
    }
  }

  lemma NaiveTimeRead(toInt: IntReader, time: string)
    requires NoZoneChars(time) && 2 <= |time| && TimeFields(toInt, time).Success?
    ensures ParseTime(toInt, time) == Success((TimeFields(toInt, time).value, None))
  {
    SignedZonePosition(time, '+', "");
  }

  lemma ZonedTimeRead(toInt: IntReader, time: string, sign: char, zone: string)
    requires NoZoneChars(time) && 2 <= |time| && TimeFields(toInt, time).Success?
    requires (sign == '+' || sign == '-') && NoZoneChars(zone) && ParseZone(toInt, zone, sign == '-').Success?
    ensures ParseTime(toInt, time + ([sign] + zone)) ==
            Success((TimeFields(toInt, time).value, ParseZone(toInt, zone, sign == '-').value))
  {
    SignedZonePosition(time, sign, zone);
    var s, k := time + ([sign] + zone), |time| + 1;
    assert s[..k - 1] == time && s[k - 1] == sign && s[k..] == zone;
    assert s[|s| - 1] == if zone == [] then sign else zone[|zone| - 1];
  }

  /** The parts of a formatted date, where the parser looks for them. */
  lemma DateParts(year: nat, month: nat, day: nat)
    requires year < 10000 && month < 100 && day < 100
    ensures var s := Padded(year, 4) + ("-" + (Padded(month, 2) + ("-" + Padded(day, 2))));
            && Begins(s, DashedDate) && |s| == 10
            && s[0..4] == Padded(year, 4) && s[5..7] == Padded(month, 2) && s[8..10] == Padded(day, 2)
  {
    var y, m, d := Padded(year, 4), Padded(month, 2), Padded(day, 2);
    assert |y| == 4 && |m| == 2 && |d| == 2 && AllDigits(y) && AllDigits(m) && AllDigits(d) by {
      assert Pow(10, 4) == 10000 && Pow(10, 2) == 100;
      PaddedIsNumber(year, 4);
      PaddedIsNumber(month, 2);
      PaddedIsNumber(day, 2);
    }
    DashedSlices(y, m, d);
    DashedBegins(y, m, d);
  }

  lemma DashedSlices(y: string, m: string, d: string)
    requires |y| == 4 && |m| == 2 && |d| == 2
    ensures var s := y + ("-" + (m + ("-" + d)));
            |s| == 10 && s[0..4] == y && s[5..7] == m && s[8..10] == d
  {
  }

  lemma DashedBegins(y: string, m: string, d: string)
    requires |y| == 4 && |m| == 2 && |d| == 2 && AllDigits(y) && AllDigits(m) && AllDigits(d)
    ensures Begins(y + ("-" + (m + ("-" + d))), DashedDate)
  {
  }

  lemma FewDigits(d: Date)
    requires ValidDate(d) && MINYEAR <= d.year <= MAXYEAR
    ensures 0 < d.year < 10000 && 0 < d.month < 100 && 0 < d.day < 100
  {
  }

  lemma ReadsFourDigits(toInt: IntReader, v: nat)
    requires ReadsDigits(toInt) && v < 10000
    ensures |Padded(v, 4)| == 4 && toInt(Padded(v, 4)) == Some(v)
  {
    assert Pow(10, 4) == 10000;
    PaddedIsNumber(v, 4);
  }

  lemma NumbersRead(toInt: IntReader, s: string, year: nat, month: nat, day: nat)
    requires ReadsDigits(toInt) && year < 10000 && month < 100 && day < 100 && |s| == 10
    requires s[0..4] == Padded(year, 4) && s[5..7] == Padded(month, 2) && s[8..10] == Padded(day, 2)
    ensures toInt(s[0..4]) == Some(year) && toInt(s[5..7]) == Some(month) && toInt(s[8..10]) == Some(day)
  {
    ReadsFourDigits(toInt, year);
    ReadsTwoDigits(toInt, month);
    ReadsTwoDigits(toInt, day);
  }

  lemma DateRead(toInt: IntReader, d: Date)
    requires ReadsDigits(toInt) && ValidDate(d) && MINYEAR <= d.year <= MAXYEAR
    ensures var s := FormatDate(d);
            |s| == 10 && Begins(s, DashedDate) && ParseDate(toInt, s) == Success(d)
  {
    var s := FormatDate(d);
    FewDigits(d);
    DateParts(d.year, d.month, d.day);
    NumbersRead(toInt, s, d.year, d.month, d.day);
    DashesAt(s);
    MonthDayRead(toInt, s, d);
  }

  lemma DashesAt(s: string)
    requires Begins(s, DashedDate)
    ensures s[4] == '-' && s[7] == '-' && IsDigit(s[5])
  {
    assert Template(DashedDate)[4] == '-' && Template(DashedDate)[7] == '-' && Template(DashedDate)[5] == '9';
  }

  lemma MonthDayRead(toInt: IntReader, s: string, d: Date)
    requires |s| == 10 && s[4] == '-' && s[7] == '-' && s[5] != 'W'
    requires toInt(s[0..4]) == Some(d.year) && toInt(s[5..7]) == Some(d.month) && toInt(s[8..10]) == Some(d.day)
    ensures ParseDate(toInt, s) == Success(d)
  {
    assert Slice(s, 5, 7) == s[5..7] && Slice(s, 8, 10) == s[8..10];
  }

  /** Reading back what `isoformat` wrote, with any separator and any timespec, restores the date,
      the offset, and all of the time that the timespec keeps. */
  lemma ReadsFormatted(toInt: IntReader, t: DateTime, sep: char, spec: TimeSpec)
    requires ReadsDigits(toInt) && ValidDateTime(t)
    ensures FromIsoFormat(toInt, IsoFormat(t, sep, spec)) == Success(Truncated(t, spec))
  {
    DateRead(toInt, t.date);
    TimeRead(toInt, t, spec);
    FormattedHasNoZone(t.hour, t.minute, t.second, t.microsecond, spec);
    TruncatedFields(t, spec);
    var date := FormatDate(t.date);
    var time := FormatTime(t.hour, t.minute, t.second, t.microsecond, spec) + FormatOffset(t.offset);
    StillBegins(date, [sep] + time, DashedDate);
    SeparatorExactly(date + ([sep] + time), DashedDate);
    PartsRead(toInt, date, sep, time);
  }

  lemma StillBegins(date: string, rest: string, n: Notation)
    requires Begins(date, n)
    ensures Begins(date + rest, n)
  {
    assert forall i :: 0 <= i < |date| ==> (date + rest)[i] == date[i];
  }

  /** A date whose end is found, a separator and a time are read separately. */
  lemma PartsRead(toInt: IntReader, date: string, sep: char, time: string)
    requires 7 <= |date + ([sep] + time)| && FindSeparator(date + ([sep] + time)) == Success(|date|) && 2 <= |time|
    requires ParseDate(toInt, date).Success? && ParseTime(toInt, time).Success?
    ensures var d, p := ParseDate(toInt, date).value, ParseTime(toInt, time).value;
            var t := DateTime(d, p.0[0], p.0[1], p.0[2], p.0[3], p.1);
            FromIsoFormat(toInt, date + ([sep] + time)) == if ValidDateTime(t) then Success(t) else Failure(ValueError)
  {
    SlicesOfParts(date, sep, time);
    FromParts(toInt, date + ([sep] + time), |date|, date, time);
  }

  lemma SlicesOfParts(date: string, sep: char, time: string)
    ensures var s := date + ([sep] + time);
            Slice(s, 0, |date|) == date && Slice(s, |date| + 1, |s| + |date| + 1) == time
  {
  }

  lemma FromParts(toInt: IntReader, s: string, loc: nat, date: string, time: string)
    requires 7 <= |s| && FindSeparator(s) == Success(loc) && 2 <= |time|
    requires Slice(s, 0, loc) == date && Slice(s, loc + 1, |s| + loc + 1) == time
    requires ParseDate(toInt, date).Success? && ParseTime(toInt, time).Success?
    ensures var d, p := ParseDate(toInt, date).value, ParseTime(toInt, time).value;
            var t := DateTime(d, p.0[0], p.0[1], p.0[2], p.0[3], p.1);
            FromIsoFormat(toInt, s) == if ValidDateTime(t) then Success(t) else Failure(ValueError)
  {
  }

  lemma TruncatedFields(t: DateTime, spec: TimeSpec)
    requires ValidDateTime(t)
    ensures var f := KeptFields(t.hour, t.minute, t.second, t.microsecond, spec);
            Truncated(t, spec) == DateTime(t.date, f[0], f[1], f[2], f[3], t.offset) && ValidDateTime(Truncated(t, spec))
  {
  }

  /** With the timespecs 'auto' and 'microseconds' nothing is lost. */
  lemma RoundTrip(toInt: IntReader, t: DateTime, sep: char, spec: TimeSpec)
    requires ReadsDigits(toInt) && ValidDateTime(t) && (spec == Auto || spec == Microseconds)
    ensures FromIsoFormat(toInt, IsoFormat(t, sep, spec)) == Success(t)
  {
    ReadsFormatted(toInt, t, sep, spec);
  }

  lemma {:induction false} ComponentErrors(toInt: IntReader, t: string, pos: nat, comp: nat, hasSep: bool, comps: seq<int>)
    requires comp <= 3 && |comps| == 4
    ensures TimeComponents(toInt, t, pos, comp, hasSep, comps) != Failure(AssertionFailed)
    decreases |t| - pos
  {
    if comp < 3 && TimeComponent(toInt, t, pos, comp, hasSep).Success? {
      var (v, p, sep, done) := TimeComponent(toInt, t, pos, comp, hasSep).value;
      if !done { ComponentErrors(toInt, t, p, comp + 1, sep, comps[comp := v]); }
    }
  }

  lemma TimeErrors(toInt: IntReader, t: string)
    ensures ParseTimeOrMidnight(toInt, t) != Failure(AssertionFailed)
  {
    if |t| >= 2 {
      var k := ZonePosition(t);
      ComponentErrors(toInt, if k > 0 then t[..k - 1] else t, 0, 0, false, [0, 0, 0, 0]);
      ComponentErrors(toInt, t[k..], 0, 0, false, [0, 0, 0, 0]);
    }
  }

  lemma DateErrors(toInt: IntReader, s: string)
    ensures ParseDate(toInt, s) == Failure(AssertionFailed) <==> |s| !in {7, 8, 10}
  {
  }

  /** Every text that is not accepted raises `ValueError`, except exactly the nine-character dates
      such as "2020-01-1", which are cut off whole and fail an assertion. */
  lemma ShortDateFailsAssertion(toInt: IntReader, s: string)
    ensures FromIsoFormat(toInt, s) == Failure(AssertionFailed) <==> |s| == 9 && s[4] == '-' && s[5] != 'W'
  {
    if |s| >= 7 && FindSeparator(s).Success? {
      var loc := FindSeparator(s).value;
      assert loc in {7, 8, 10} && (loc == 10 ==> s[4] == '-');
      DateErrors(toInt, Slice(s, 0, loc));
      TimeErrors(toInt, Slice(s, loc + 1, |s| + loc + 1));
    }
  }
}
