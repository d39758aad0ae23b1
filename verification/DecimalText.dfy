/** Conversion between integers and decimal text in `_pylong.py`: divide and conquer in both
    directions over the tables of `compute_powers`, and the round trip. */
module DecimalText {
  import opened Bits
  import opened Chars
  import opened Wrappers
  import opened PowerTable
  import opened Spelling

  // ---- int to text ----

  /** `table` has the powers of `base` that a recursion halving `w` looks up. */
  ghost predicate Covers(table: map<int, int>, w: int, base: int, limit: nat) {
    forall v :: v in Reached(w, limit) ==> v / 2 in table && IsPower(table[v / 2], base, v / 2)
  }

  lemma TableCovers(table: map<int, int>, w: int, base: int, limit: nat)
    requires IsTable(table, w, base, limit)
    ensures Covers(table, w, base, limit)
  {
    forall v | v in Reached(w, limit) ensures v / 2 in table { assert v / 2 in Needed(w, limit); }
  }

  lemma CoversHalves(table: map<int, int>, w: int, base: int, limit: nat)
    requires Covers(table, w, base, limit) && limit < w && 1 <= limit
    ensures w / 2 in table && IsPower(table[w / 2], base, w / 2)
    ensures Covers(table, w / 2, base, limit) && Covers(table, w - w / 2, base, limit)
  {
    assert w in Reached(w, limit);
    assert Reached(w / 2, limit) <= Reached(w, limit);
    assert Reached(w - w / 2, limit) <= Reached(w, limit);
  }

  const DIGLIM := 1000

  /** `inner` of `int_to_decimal_string`. The text has the right value whatever the width estimate; when
      the number fits in `w` digits so does the text, which is what makes each lower half exactly `w2`
      characters wide. */
  function InnerText(n: nat, w: int, pow10: map<int, int>): (s: string)
    requires Covers(pow10, w, 10, DIGLIM)
    ensures IsTextOf(s, n, w)
    decreases w
  {
    if w <= DIGLIM then
      DigitsAreText(n, w);
      Digits(n)
    else
      CoversHalves(pow10, w, 10, DIGLIM);
      var w2 := w / 2;
      PowPositive(10, w2);
      var (hi, lo) := DivMod(n, pow10[w2]);
      var high, low := InnerText(hi, w - w2, pow10), InnerText(lo, w2, pow10);
      JoinHalves(n, w, pow10[w2], hi, lo, high, low);
      high + ZeroFill(low, w2)
  }

  /** The built-in `divmod`. */
  function DivMod(n: nat, p: int): (r: (nat, nat))
    requires 0 < p
    ensures n == r.0 * p + r.1 && r.1 < p
  {
    DivModParts(n, p);
    (n / p, n % p)
  }

  lemma JoinHalves(n: nat, w: int, p: int, hi: nat, lo: nat, high: string, low: string)
    requires DIGLIM < w && p == Pow(10, w / 2) && n == hi * p + lo && lo < p
    requires IsTextOf(high, hi, w - w / 2) && IsTextOf(low, lo, w / 2)
    ensures IsTextOf(high + ZeroFill(low, w / 2), n, w)
  {
    if n < Pow(10, w) {
      PowAdd(10, w / 2, w - w / 2);
      HighBelow(hi, lo, p, Pow(10, w - w / 2));
    }
    JoinTexts(n, w, w / 2, hi, lo, high, low);
  }

  lemma HighBelow(hi: nat, lo: nat, p: int, bound: int)
    requires hi * p + lo < p * bound && 0 < p
    ensures hi < bound
  {
    if bound <= hi { MulMono(bound, hi, p); }
  }

  lemma DigitsAreText(n: nat, w: int)
    requires w <= DIGLIM
    ensures IsTextOf(Digits(n), n, w)
  {
    NumberOfDigits(n);
    if 0 < w && n < Pow(10, w) { DigitsLength(n, w); }
  }

  /** A text with the value of `n`, at most `w` characters long if `n` has at most `w` digits. */
  predicate IsTextOf(s: string, n: nat, w: int) {
    && s != [] && AllDigits(s) && Number(s) == n
    && (0 < w && n < Pow(10, w) ==> |s| <= w)
    && (DIGLIM < w ==> 1 < |s|)
  }

  /** Once the lower half's text is filled up to exactly `w2` characters, the halves just join. */
  lemma JoinTexts(n: nat, w: int, w2: nat, hi: nat, lo: nat, high: string, low: string)
    requires 1 < w && w2 == w / 2 && n == hi * Pow(10, w2) + lo && lo < Pow(10, w2)
    requires n < Pow(10, w) ==> hi < Pow(10, w - w2)
    requires IsTextOf(high, hi, w - w2) && IsTextOf(low, lo, w2)
    ensures |ZeroFill(low, w2)| == w2 && IsTextOf(high + ZeroFill(low, w2), n, w)
  {
    NumberOfZeroFill(low, w2);
    NumberConcat(high, ZeroFill(low, w2));
  }

  /** The last step of the fallback path. */
  lemma StripToCanonical(n: nat, s: string)
    requires s != [] && AllDigits(s) && Number(s) == n
    ensures n != 0 ==> (if s[0] == '0' then StripZeros(s) else s) == Digits(n)
    ensures n == 0 ==> (s == Digits(0) <==> |s| == 1)
  {
    if n != 0 {
      NumberOfStripZeros(s);
      CanonicalIsDigits(if s[0] == '0' then StripZeros(s) else s);
    } else {
      if |s| == 1 { CanonicalIsDigits(s); }
    }
  }

  const BITLIM := 200

  /** `inner` of `int_to_decimal`, a `Decimal` being represented by the integer it denotes. */
  function InnerDecimal(n: nat, w: int, w2pow: map<int, int>): int
    requires Covers(w2pow, w, 2, BITLIM)
    decreases w
  {
    if w <= BITLIM then n else
      CoversHalves(w2pow, w, 2, BITLIM);
      var w2 := w / 2;
      DivModParts(n, Pow2(w2));
      var hi, lo := ShiftRight(n, w2), BitAnd(n, ShiftLeft(1, w2) - 1);
      InnerDecimal(lo, w2, w2pow) + InnerDecimal(hi, w - w2, w2pow) * w2pow[w2]
  }

  lemma {:induction false} InnerDecimalValue(n: nat, w: int, w2pow: map<int, int>)
    requires Covers(w2pow, w, 2, BITLIM)
    ensures InnerDecimal(n, w, w2pow) == n
    decreases w
  {
    if w > BITLIM {
      var w2 := w / 2;
      DivModParts(n, Pow2(w2));
      InnerDecimalHalves(n, w, w2pow);
      InnerDecimalValue(n % Pow2(w2), w2, w2pow);
      InnerDecimalValue(n / Pow2(w2), w - w2, w2pow);
    }
  }

  lemma InnerDecimalHalves(n: nat, w: int, w2pow: map<int, int>)
    requires Covers(w2pow, w, 2, BITLIM) && BITLIM < w
    ensures var w2 := w / 2;
            var p := Pow2(w2);
            && Covers(w2pow, w2, 2, BITLIM) && Covers(w2pow, w - w2, 2, BITLIM) && 0 <= n / p
            && InnerDecimal(n, w, w2pow) == InnerDecimal(n % p, w2, w2pow) + InnerDecimal(n / p, w - w2, w2pow) * p
  {
    CoversHalves(w2pow, w, 2, BITLIM);
    HighAndLow(n, w / 2);
    assert w2pow[w / 2] == Pow2(w / 2) by { Pow2IsPow(w / 2); }
  }

  lemma HighAndLow(n: nat, k: nat)
    ensures 0 <= ShiftRight(n, k) == n / Pow2(k) && BitAnd(n, ShiftLeft(1, k) - 1) == n % Pow2(k)
  {
    DivModParts(n, Pow2(k));
    AndMask(n, k);
  }

  function Abs(n: int): nat { if n < 0 then -n else n }

  /** `int_to_decimal` */
  method IntToDecimal(n: int) returns (result: int)
    ensures result == n
  {
    var nbits := BitLength(Abs(n));
    EvenLimitNeverTrips(nbits, BITLIM);
    var table := ComputePowers(nbits, 2, BITLIM);
    TableCovers(table.value, nbits, 2, BITLIM);
    InnerDecimalValue(Abs(n), nbits, table.value);
    result := InnerDecimal(Abs(n), nbits, table.value);
    if n < 0 { result := -result; }
  }

  /** `v << k` over the whole table of powers of five. */
  method ShiftTable(pow5: map<int, int>, ghost w: int) returns (pow10: map<int, int>)
    requires IsTable(pow5, w, 5, DIGLIM)
    ensures IsTable(pow10, w, 10, DIGLIM)
  {
    pow10 := pow5;
    var rest := pow5.Keys;
    while |rest| > 0
      invariant rest <= pow5.Keys && pow10.Keys == pow5.Keys
      invariant forall k :: k in pow5 ==> IsPower(pow10[k], if k in rest then 5 else 10, k)
      decreases |rest|
    {
      var k := Pick(rest);
      PowFiveShifted(k);
      pow10 := pow10[k := ShiftLeft(pow10[k], k)];
      rest := rest - {k};
    }
  }

  /** `int_to_decimal_string`; `digits` is the estimated number of decimal digits. */
  method IntToDecimalString(n: int, haveDecimal: bool, digits: int) returns (text: string)
    ensures text == Decimal(n) <==> n != 0 || digits <= DIGLIM
    ensures IntOf(text) == Success(n)
  {
    RoundTrip(n);
    if BitLength(Abs(n)) > 450_000 && haveDecimal {
      var d := IntToDecimal(n);
      return Decimal(d);
    }
    var s := FallbackDigits(Abs(n), digits);
    if n == 0 {
      DigitsAreRead(s);
      return s;
    }
    return if n < 0 then "-" + s else s;
  }

  /** The fallback path on the absolute value. */
  method FallbackDigits(n: nat, digits: int) returns (s: string)
    ensures s != [] && AllDigits(s) && Number(s) == n
    ensures s == Digits(n) <==> n != 0 || digits <= DIGLIM
  {
    EvenLimitNeverTrips(digits, DIGLIM);
    var table := ComputePowers(digits, 5, DIGLIM);
    var pow10 := ShiftTable(table.value, digits);
    TableCovers(pow10, digits, 10, DIGLIM);
    s := InnerText(n, digits, pow10);
    StripToCanonical(n, s);
    if s[0] == '0' && n != 0 {
      NumberOfStripZeros(s);
      s := StripZeros(s);
    }
  }

  // ---- text to int ----

  const PARSE_DIGLIM := 2048

  /** `inner` of `_str_to_int_inner` */
  function InnerInt(s: string, a: nat, b: nat, w5pow: map<int, int>): int
    requires a < b <= |s| && AllDigits(s) && Covers(w5pow, b - a, 5, PARSE_DIGLIM)
    decreases b - a
  {
    if b - a <= PARSE_DIGLIM then NumberIn(s, a, b) else
      CoversHalves(w5pow, b - a, 5, PARSE_DIGLIM);
      var mid := (a + b + 1) / 2;
      assert b - mid == (b - a) / 2;
      InnerInt(s, mid, b, w5pow) + ShiftLeft(InnerInt(s, a, mid, w5pow) * w5pow[b - mid], b - mid)
  }

  lemma {:induction false} InnerIntValue(s: string, a: nat, b: nat, w5pow: map<int, int>)
    requires a < b <= |s| && AllDigits(s) && Covers(w5pow, b - a, 5, PARSE_DIGLIM)
    ensures InnerInt(s, a, b, w5pow) == NumberIn(s, a, b)
    decreases b - a
  {
    if b - a > PARSE_DIGLIM {
      CoversHalves(w5pow, b - a, 5, PARSE_DIGLIM);
      var mid := (a + b + 1) / 2;
      var k := b - mid;
      assert k == (b - a) / 2;
      InnerIntValue(s, mid, b, w5pow);
      InnerIntValue(s, a, mid, w5pow);
      ShiftedHigh(NumberIn(s, a, mid), k);
      NumberHalves(s, a, mid, b);
    }
  }

  /** `int(s[a:b])` */
  function NumberIn(s: string, a: nat, b: nat): int
    requires a <= b <= |s| && AllDigits(s)
  {
    Number(s[a..b])
  }

  lemma ShiftedHigh(high: int, k: nat)
    ensures ShiftLeft(high * Pow(5, k), k) == high * Pow(10, k)
  {
    PowFiveShifted(k);
    MulAssoc(high, Pow(5, k), Pow2(k));
  }

  lemma NumberHalves(s: string, a: nat, mid: nat, b: nat)
    requires a <= mid <= b <= |s| && AllDigits(s)
    ensures NumberIn(s, a, b) == NumberIn(s, a, mid) * Pow(10, b - mid) + NumberIn(s, mid, b)
  {
    assert s[a..b] == s[a..mid] + s[mid..b];
    NumberConcat(s[a..mid], s[mid..b]);
  }

  datatype ParseError = ValueError

  /** `_str_to_int_inner`, of a string of digits */
  method StrToIntInner(s: string) returns (result: Result<int, ParseError>)
    requires AllDigits(s)
    ensures result == if s == [] then Failure(ValueError) else Success(Number(s))
  {
    EvenLimitNeverTrips(|s|, PARSE_DIGLIM);
    var table := ComputePowers(|s|, 5, PARSE_DIGLIM);
    TableCovers(table.value, |s|, 5, PARSE_DIGLIM);
    if s == [] {
      return Failure(ValueError);
    }
    InnerIntValue(s, 0, |s|, table.value);
    assert s[0..|s|] == s;
    return Success(InnerInt(s, 0, |s|, table.value));
  }

  predicate IsSign(c: char) { c == '+' || c == '-' }

  /** The groups of `\s*([+-]?)([0-9_]+)\s*` matched at the start of `s`: whether the sign is a
      minus, and the digits and underscores; the second is empty when there is no match. */
  function MatchNumber(s: string): (m: (bool, string))
    ensures forall i :: 0 <= i < |m.1| ==> IsDigitOrUnderscore(m.1[i])
  {
    MatchSigned(s[SpanEnd(s, 0, IsSpace)..])
  }

  /** The groups of `([+-]?)([0-9_]+)`. */
  function MatchSigned(rest: string): (m: (bool, string))
    ensures forall i :: 0 <= i < |m.1| ==> IsDigitOrUnderscore(m.1[i])
  {
    var signed := rest != [] && IsSign(rest[0]);
    var body := if signed then rest[1..] else rest;
    (signed && rest[0] == '-', body[..SpanEnd(body, 0, IsDigitOrUnderscore)])
  }

  /** `str_to_int` */
  method StrToInt(s: string) returns (result: Result<int, ParseError>)
    ensures result == IntOf(s)
  {
    var m := MatchNumber(s);
    result := SignedNumber(m.0, m.1);
  }

  /** `int_from_string` of the digit group, and the sign; no group is no match. */
  method SignedNumber(negative: bool, group: string) returns (result: Result<int, ParseError>)
    requires forall i :: 0 <= i < |group| ==> IsDigitOrUnderscore(group[i])
    ensures result == GroupsValue(negative, group)
  {
    if group == [] {
      return Failure(ValueError);
    }
    OnlyDigitsLeft(group);
    result := StrToIntInner(RemoveUnderscores(group));
    if negative && result.Success? {
      result := Success(-result.value);
    }
  }

  /** What the matched groups stand for: the signed number of the digits, unless there are none. */
  function GroupsValue(negative: bool, group: string): Result<int, ParseError>
    requires forall i :: 0 <= i < |group| ==> IsDigitOrUnderscore(group[i])
  {
    OnlyDigitsLeft(group);
    var digits := RemoveUnderscores(group);
    if digits == [] then Failure(ValueError)
    else Success(if negative then -(Number(digits)) else Number(digits))
  }

  /** The integer a text spells, or the error it raises. */
  function IntOf(s: string): Result<int, ParseError> {
    GroupsValue(MatchNumber(s).0, MatchNumber(s).1)
  }

  lemma SpanOf(s: string, t: string, p: char -> bool)
    requires (forall i :: 0 <= i < |s| ==> p(s[i])) && (t != [] ==> !p(t[0]))
    ensures SpanEnd(s + t, 0, p) == |s|
  {
    var e := SpanEnd(s + t, 0, p);
    assert forall k :: 0 <= k < |s| ==> p((s + t)[k]);
    assert t != [] ==> (s + t)[|s|] == t[0];
  }

  lemma MatchesSpelling(space: string, sign: string, group: string, rest: string)
    requires forall i :: 0 <= i < |space| ==> IsSpace(space[i])
    requires sign == "" || sign == "+" || sign == "-"
    requires forall i :: 0 <= i < |group| ==> IsDigitOrUnderscore(group[i])
    requires group != [] && (rest != [] ==> !IsDigitOrUnderscore(rest[0]))
    ensures MatchNumber(space + (sign + (group + rest))) == (sign == "-", group)
  {
    var tail := sign + (group + rest);
    assert tail[0] == if sign == "" then group[0] else sign[0];
    assert IsDigitOrUnderscore(group[0]);
    SkipsSpace(space, tail);
    MatchesSigned(sign, group, rest);
  }

  lemma MatchesSigned(sign: string, group: string, rest: string)
    requires sign == "" || sign == "+" || sign == "-"
    requires forall i :: 0 <= i < |group| ==> IsDigitOrUnderscore(group[i])
    requires group != [] && (rest != [] ==> !IsDigitOrUnderscore(rest[0]))
    ensures MatchSigned(sign + (group + rest)) == (sign == "-", group)
  {
    var body := group + rest;
    assert IsDigitOrUnderscore(group[0]) && body[0] == group[0];
    assert sign == "" ==> sign + body == body;
    assert sign != "" ==> (sign + body)[1..] == body && (sign + body)[0] == sign[0];
    TakesGroup(group, rest);
  }

  lemma SkipsSpace(space: string, tail: string)
    requires (forall i :: 0 <= i < |space| ==> IsSpace(space[i])) && tail != [] && !IsSpace(tail[0])
    ensures (space + tail)[SpanEnd(space + tail, 0, IsSpace)..] == tail
  {
    SpanOf(space, tail, IsSpace);
  }

  lemma TakesGroup(group: string, rest: string)
    requires forall i :: 0 <= i < |group| ==> IsDigitOrUnderscore(group[i])
    requires rest != [] ==> !IsDigitOrUnderscore(rest[0])
    ensures (group + rest)[..SpanEnd(group + rest, 0, IsDigitOrUnderscore)] == group
  {
    SpanOf(group, rest, IsDigitOrUnderscore);
  }

  /** Any white space, an optional sign and a group of digits and underscores are read as the signed
      number the digits spell, whatever follows the group. */
  lemma ReadsSpelling(space: string, sign: string, group: string, rest: string)
    requires forall i :: 0 <= i < |space| ==> IsSpace(space[i])
    requires sign == "" || sign == "+" || sign == "-"
    requires forall i :: 0 <= i < |group| ==> IsDigitOrUnderscore(group[i])
    requires group != [] && (rest != [] ==> !IsDigitOrUnderscore(rest[0]))
    ensures IntOf(space + (sign + (group + rest))) == GroupsValue(sign == "-", group)
  {
    MatchesSpelling(space, sign, group, rest);
  }

  lemma DecimalMatches(n: int)
    ensures MatchNumber(Decimal(n)) == (n < 0, Digits(Abs(n)))
  {
    var sign := if n < 0 then "-" else "";
    var d := Digits(Abs(n));
    MatchesSpelling("", sign, d, "");
    assert d + "" == d && "" + (sign + d) == sign + d;
  }

  /** Zeros in front make no difference to what digits are read as. */
  lemma DigitsAreRead(s: string)
    requires s != [] && AllDigits(s)
    ensures IntOf(s) == Success(Number(s))
  {
    MatchesSpelling("", "", s, "");
    assert s + "" == s && "" + ("" + s) == s;
    NoUnderscores(s);
  }

  /** `str_to_int(int_to_decimal_string(n)) == n` */
  lemma RoundTrip(n: int)
    ensures IntOf(Decimal(n)) == Success(n)
  {
    DecimalMatches(n);
    NumberOfDigits(Abs(n));
    NoUnderscores(Digits(Abs(n)));
  }
}
