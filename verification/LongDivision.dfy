/** Burnikel-Ziegler recursive division and the base-2**n digit machinery of `_pylong.py`,
    ending in `int_divmod`, proved equal to Python's floor division. */
module LongDivision {
  import opened Bits
  import opened Wrappers

  const DIV_LIMIT := 4000

  predicate HasBits(x: int, n: nat) {
    0 < n && Pow2(n - 1) <= x < Pow2(n)
  }

  /** `q, r` is the quotient and remainder of the natural `a` by the positive `b`. */
  predicate IsDivMod(a: int, b: int, q: int, r: int) {
    a == b * q + r && 0 <= r < b
  }

  // ---- D2n/1n and D3n/2n ----

  lemma QuotientBelow(a: int, b: int, q: int, r: int, bound: int)
    requires 0 < b && IsDivMod(a, b, q, r) && 0 <= a < bound * b
    ensures 0 <= q < bound
  {
    if q < 0 { MulMono(q, -1, b); }
    if bound <= q { MulMono(bound, q, b); }
  }

  /** Both halves of a number, as `>>` and `&` produce them. */
  lemma SplitHalves(x: nat, h: nat)
    ensures 0 <= ShiftRight(x, h)
    ensures x == ShiftRight(x, h) * Pow2(h) + BitAnd(x, Pow2(h) - 1)
    ensures BitAnd(x, Pow2(h) - 1) < Pow2(h)
  {
    AndMask(x, h);
    DivModParts(x, Pow2(h));
  }

  lemma QuotientInRange(x: int, p: int, lo: int, hi: int)
    requires 0 < p && p * lo <= x < p * hi
    ensures lo <= x / p < hi
  {
    DivModParts(x, p);
    if x / p <= lo - 1 { MulMono(x / p, lo - 1, p); MulAdd(lo, -1, p); }
    if hi <= x / p { MulMono(hi, x / p, p); }
  }

  /** The leading half of an exactly `2 * h`-bit number has exactly `h` bits. */
  lemma TopHalfBits(b: nat, h: nat)
    requires 0 < h && HasBits(b, 2 * h)
    ensures HasBits(ShiftRight(b, h), h)
  {
    Pow2Add(h, h);
    Pow2Add(h, h - 1);
    QuotientInRange(b, Pow2(h), Pow2(h - 1), Pow2(h));
  }

  /** What one D3n/2n step knows before correcting: the estimate satisfies the division equation,
      its remainder lies below `b`, and misses the valid range by at most `2 * b`. */
  lemma EstimateBounds(a12: int, a3: int, b: int, b1: int, b2: int, p: int, q: int, r: int)
    requires 1 <= p <= 2 * b1 && 0 <= b2 < p && b == b1 * p + b2
    requires 0 <= a12 < b && 0 <= a3 < p
    requires a12 == b1 * q + r && 0 <= q < p && 0 <= r
    requires r < b1 || q == p - 1
    ensures a12 * p + a3 == b * q + (r * p + a3 - q * b2)
    ensures -2 * b <= r * p + a3 - q * b2 < b
  {
    EstimateEquation(a12, b1, b2, p, q, r);
    MulMono(0, r, p);
    MulMono(q, p, b2);
    MulMono(b2, p, p);
    MulMono(p, 2 * b1, p);
    MulAssoc(2, b1, p);
    MulMono(0, q, b2);
    if r < b1 {
      MulMono(r + 1, b1, p);
      MulAdd(r, 1, p);
    } else {
      MulMono(a12 + 1, b, p);
      MulAdd(a12, 1, p);
      MulAdd(p, -1, b);
    }
  }

  lemma EstimateEquation(a12: int, b1: int, b2: int, p: int, q: int, r: int)
    requires a12 == b1 * q + r
    ensures a12 * p == (b1 * p + b2) * q + r * p - q * b2
  {
    MulAdd(b1 * q, r, p);
    MulAdd(b1 * p, b2, q);
    assert (b1 * q) * p == (b1 * p) * q;
  }

  lemma QuotientBound12(a12: nat, b: nat, b1: nat, b2: nat, p: nat)
    requires 0 < p && b2 < p && b == b1 * p + b2 && a12 < b && a12 / p != b1
    ensures a12 < p * b1
  {
    DivModParts(a12, p);
    var t := a12 / p;
    if b1 < t { MulMono(b1 + 1, t, p); MulAdd(b1, 1, p); }
    if t < b1 { MulMono(t + 1, b1, p); MulAdd(t, 1, p); }
  }

  lemma DividendBelow(a12: int, a3: int, b: int, p: int)
    requires 0 <= a12 < b && 0 <= a3 < p
    ensures 0 <= a12 * p + a3 < p * b
  {
    MulMono(0, a12, p);
    MulMono(a12 + 1, b, p);
    MulAdd(a12, 1, p);
  }

  /** `_div3n2n`. The ghost result counts the passes of the correction loop. */
  method Div3n2n(a12: nat, a3: nat, b: nat, b1: nat, b2: nat, n: nat)
    returns (q: int, r: int, ghost corrections: nat)
    requires HasBits(b1, n) && b2 < Pow2(n) && b == b1 * Pow2(n) + b2
    requires a12 < b && a3 < Pow2(n)
    ensures IsDivMod(a12 * Pow2(n) + a3, b, q, r) && 0 <= q < Pow2(n)
    ensures corrections <= 2
    decreases n, 3
  {
    ghost var a := a12 * Pow2(n) + a3;
    q, r := Estimate(a12, b, b1, b2, n);
    OrIsPlus(r, a3, n);
    EstimateBounds(a12, a3, b, b1, b2, Pow2(n), q, r);
    MulMono(0, r, Pow2(n));
    r := BitOr(ShiftLeft(r, n), a3) - q * b2;
    corrections := 0;
    while r < 0
      invariant a == b * q + r && r < b
      invariant (corrections - 2) * b <= r && (0 < corrections ==> (corrections - 3) * b <= r - b)
      invariant corrections <= 2
      decreases -r
    {
      if corrections >= 2 { MulMono(0, corrections - 2, b); }
      MulAdd(q, -1, b);
      MulAdd(corrections - 2, 1, b);
      q := q - 1;
      r := r + b;
      corrections := corrections + 1;
    }
    DividendBelow(a12, a3, b, Pow2(n));
    QuotientBelow(a, b, q, r, Pow2(n));
  }

  /** The two-way estimate at the head of `_div3n2n`. */
  method Estimate(a12: nat, b: nat, b1: nat, b2: nat, n: nat) returns (q: int, r: int)
    requires HasBits(b1, n) && b2 < Pow2(n) && b == b1 * Pow2(n) + b2 && a12 < b
    ensures a12 == b1 * q + r && 0 <= q < Pow2(n) && 0 <= r
    ensures r < b1 || q == Pow2(n) - 1
    decreases n, 2
  {
    DivModParts(a12, Pow2(n));
    if ShiftRight(a12, n) == b1 {
      q, r := Pow2(n) - 1, a12 - ShiftLeft(b1, n) + b1;
      MulAdd(Pow2(n), -1, b1);
    } else {
      QuotientBound12(a12, b, b1, b2, Pow2(n));
      q, r := Div2n1n(a12, b1, n);
    }
  }

  /** `_div2n1n` */
  method Div2n1n(a: nat, b: nat, n: nat) returns (q: int, r: int)
    requires HasBits(b, n) && a < Pow2(n) * b
    ensures IsDivMod(a, b, q, r) && 0 <= q < Pow2(n)
    decreases n, 1
  {
    if BitLength(a) - n <= DIV_LIMIT {
      q, r := Builtin(a, b);
    } else {
      LongNeedsWideDivisor(a, b, n);
      AndOne(n);
      var pad := BitAnd(n, 1);
      if pad != 0 {
        q, r := PadAndDivide(a, b, n);
      } else {
        q, r := HalveAndDivide(a, b, n / 2);
      }
    }
    QuotientBelow(a, b, q, r, Pow2(n));
  }

  /** The padding branch of `_div2n1n`: an odd width is made even by doubling both operands. */
  method PadAndDivide(a: nat, b: nat, n: nat) returns (q: int, r: int)
    requires 1 < n && n % 2 == 1 && HasBits(b, n) && a < Pow2(n) * b
    ensures IsDivMod(a, b, q, r)
    decreases n, 0
  {
    DoubledBounds(a, b, n);
    q, r := HalveAndDivide(ShiftLeft(a, 1), ShiftLeft(b, 1), (n + 1) / 2);
    UndoPadding(a, b, q, r);
    r := ShiftRight(r, 1);
  }

  /** The built-in `divmod`, on the operands of the base case. */
  method Builtin(a: nat, b: nat) returns (q: int, r: int)
    requires 0 < b
    ensures IsDivMod(a, b, q, r)
  {
    DivModParts(a, b);
    q, r := a / b, a % b;
  }

  /** The two D3n/2n steps of `_div2n1n`, once the width is an even number `2 * half`. */
  method HalveAndDivide(a: nat, b: nat, half: nat) returns (q: int, r: int)
    requires 0 < half && HasBits(b, 2 * half) && a < Pow2(2 * half) * b
    ensures IsDivMod(a, b, q, r)
    decreases half, 4
  {
    var mask := ShiftLeft(1, half) - 1;
    DivisorHalves(b, half);
    DividendQuarters(a, b, half);
    var b1, b2 := ShiftRight(b, half), BitAnd(b, mask);
    var top, a3, a4 := ShiftRight(a, 2 * half), BitAnd(ShiftRight(a, half), mask), BitAnd(a, mask);
    var q1, r1, _ := Div3n2n(top, a3, b, b1, b2, half);
    var q2, r2, _ := Div3n2n(r1, a4, b, b1, b2, half);
    JoinQuotients(a, b, Pow2(half), top * Pow2(half) + a3, q1, r1, a4, q2, r2);
    OrIsPlus(q1, q2, half);
    q, r := BitOr(ShiftLeft(q1, half), q2), r2;
  }

  lemma DivisorHalves(b: nat, h: nat)
    requires 0 < h && HasBits(b, 2 * h)
    ensures HasBits(ShiftRight(b, h), h)
    ensures var b2 := BitAnd(b, ShiftLeft(1, h) - 1); b2 < Pow2(h) && b == ShiftRight(b, h) * Pow2(h) + b2
  {
    SplitHalves(b, h);
    TopHalfBits(b, h);
  }

  lemma DividendQuarters(a: nat, b: nat, h: nat)
    requires a < Pow2(2 * h) * b
    ensures 0 <= ShiftRight(a, 2 * h) < b && 0 <= ShiftRight(a, h)
    ensures var a3, a4 := BitAnd(ShiftRight(a, h), ShiftLeft(1, h) - 1), BitAnd(a, ShiftLeft(1, h) - 1);
            a3 < Pow2(h) && a4 < Pow2(h) && a == (ShiftRight(a, 2 * h) * Pow2(h) + a3) * Pow2(h) + a4
  {
    QuotientInRange(a, Pow2(2 * h), 0, b);
    SplitHalves(a, h);
    SplitHalves(ShiftRight(a, h), h);
    ShiftTwice(a, h);
  }

  /** A dividend more than `DIV_LIMIT` bits longer than its divisor has a divisor of more than
      `DIV_LIMIT` bits, so the recursion always halves a number of at least two. */
  lemma LongNeedsWideDivisor(a: nat, b: nat, n: nat)
    requires HasBits(b, n) && a < Pow2(n) * b && DIV_LIMIT < BitLength(a) - n
    ensures DIV_LIMIT < n
  {
    BelowSquare(a, b, Pow2(n));
    Pow2Add(n, n);
    BitLengthAtMost(a, n + n);
  }

  lemma BelowSquare(a: int, b: int, p: int)
    requires a < p * b && b <= p && 0 <= p
    ensures a < p * p
  {
    MulMono(b, p, p);
  }

  lemma DoubledBounds(a: nat, b: nat, n: nat)
    requires HasBits(b, n) && a < Pow2(n) * b
    ensures HasBits(ShiftLeft(b, 1), n + 1) && 0 <= ShiftLeft(a, 1) < Pow2(n + 1) * ShiftLeft(b, 1)
  {
    assert Pow2(1) == 2;
    MulAssoc(2, Pow2(n), 2 * b);
    assert Pow2(n) * (2 * b) == 2 * (Pow2(n) * b);
    MulMono(0, Pow2(n), b);
  }

  /** Doubling both operands leaves the quotient and doubles the remainder. */
  lemma UndoPadding(a: nat, b: nat, q: int, r: int)
    requires IsDivMod(ShiftLeft(a, 1), ShiftLeft(b, 1), q, r)
    ensures ShiftRight(r, 1) * 2 == r && IsDivMod(a, b, q, ShiftRight(r, 1))
  {
    assert Pow2(1) == 2;
    MulAssoc(2, b, q);
  }

  lemma ShiftTwice(a: nat, h: nat)
    ensures ShiftRight(a, 2 * h) == ShiftRight(ShiftRight(a, h), h)
  {
    Pow2Add(h, h);
    DivNested(a, Pow2(h), Pow2(h));
  }

  lemma JoinQuotients(a: int, b: int, p: int, top: int, q1: int, r1: int, a0: int, q2: int, r2: int)
    requires a == top * p + a0
    requires IsDivMod(top, b, q1, r1)
    requires IsDivMod(r1 * p + a0, b, q2, r2)
    ensures IsDivMod(a, b, q1 * p + q2, r2)
  {
    MulAdd(b * q1, r1, p);
    MulAssoc(b, q1, p);
    MulAdd(q1 * p, q2, b);
  }

  // ---- base-2**n digits ----

  /** The number that little-endian digits stand for. */
  function Value(digits: seq<int>, base: int): int {
    if digits == [] then 0 else digits[0] + base * Value(digits[1..], base)
  }

  predicate InBase(digits: seq<int>, base: int) {
    forall i :: 0 <= i < |digits| ==> 0 <= digits[i] < base
  }

  /** `digits` is the canonical base-2**n form of `a`: digits in range, most significant last and
      non-zero, and no digits at all for zero. */
  predicate IsDigitsOf(digits: seq<int>, n: nat, a: int) {
    && InBase(digits, Pow2(n))
    && (digits != [] ==> digits[|digits| - 1] != 0)
    && Value(digits, Pow2(n)) == a
  }

  lemma ValueSingle(x: int, base: int)
    ensures Value([x], base) == x
  {
    assert [x][1..] == [];
  }

  lemma {:induction false} ValueConcat(low: seq<int>, high: seq<int>, base: int)
    ensures Value(low + high, base) == Value(low, base) + Pow(base, |low|) * Value(high, base)
  {
    if low == [] {
      assert low + high == high;
    } else {
      ValueConcat(low[1..], high, base);
      assert (low + high)[1..] == low[1..] + high;
      var P, h := Pow(base, |low| - 1), Value(high, base);
      MulAdd(Value(low[1..], base), P * h, base);
      MulAssoc(base, P, h);
    }
  }

  lemma {:induction false} ValueRange(digits: seq<int>, base: int)
    requires InBase(digits, base)
    ensures 0 <= Value(digits, base) < Pow(base, |digits|)
  {
    if digits != [] {
      ValueRange(digits[1..], base);
      DividendBelow(Value(digits[1..], base), digits[0], Pow(base, |digits| - 1), base);
    }
  }

  /** Only one digit sequence is canonical for a given number. */
  lemma {:induction false} DigitsAreUnique(s: seq<int>, t: seq<int>, n: nat, a: int)
    requires IsDigitsOf(s, n, a) && IsDigitsOf(t, n, a)
    ensures s == t
  {
    if s == [] || t == [] {
      var u := if s == [] then t else s;
      if u != [] { CanonicalIsPositive(u, Pow2(n)); }
    } else {
      var p := Pow2(n);
      DivModUnique(a, p, Value(s[1..], p), s[0]);
      DivModUnique(a, p, Value(t[1..], p), t[0]);
      DigitsAreUnique(s[1..], t[1..], n, a / p);
      assert s == [s[0]] + s[1..] && t == [t[0]] + t[1..];
    }
  }

  lemma {:induction false} CanonicalIsPositive(u: seq<int>, base: int)
    requires u != [] && InBase(u, base) && u[|u| - 1] != 0
    ensures 0 < Value(u, base)
  {
    if |u| > 1 {
      CanonicalIsPositive(u[1..], base);
      MulMono(1, Value(u[1..], base), base);
    }
  }

  /** `_int2digits`: fills a list of just the right length in place. */
  method Int2Digits(a: nat, n: nat) returns (digits: array<int>)
    requires 0 < n
    ensures fresh(digits) && IsDigitsOf(digits[..], n, a)
  {
    digits := new int[(BitLength(a) + n - 1) / n](_ => 0);
    if a != 0 {
      DigitCount(a, n, digits.Length);
      Int2DigitsInner(digits, n, a, 0, digits.Length);
      assert digits[..] == digits[0..digits.Length];
      TopDigitNonZero(digits[..], Pow2(n), a);
    }
  }

  method Int2DigitsInner(digits: array<int>, n: nat, x: nat, L: nat, R: nat)
    requires 0 < n && L < R <= digits.Length && x < Pow(Pow2(n), R - L)
    modifies digits
    ensures InBase(digits[L..R], Pow2(n)) && Value(digits[L..R], Pow2(n)) == x
    ensures digits[..L] == old(digits[..L]) && digits[R..] == old(digits[R..])
    decreases R - L
  {
    if L + 1 == R {
      digits[L] := x;
      assert digits[L..R] == [x];
      ValueSingle(x, Pow2(n));
      assert Pow(Pow2(n), 1) == Pow2(n);
      return;
    }
    var mid := (L + R) / 2;
    var shift := (mid - L) * n;
    UpperAndLower(x, n, mid - L, R - mid);
    var upper := ShiftRight(x, shift);
    var lower := BitXor(x, ShiftLeft(upper, shift));
    ghost var before := digits[..];
    Int2DigitsInner(digits, n, lower, L, mid);
    ghost var between := digits[..];
    Int2DigitsInner(digits, n, upper, mid, R);
    BothHalves(before, between, digits[..], L, mid, R);
    ValueConcat(between[L..mid], digits[mid..R], Pow2(n));
  }

  /** Filling first `L` to `mid`, then `mid` to `R`, fills `L` to `R` and no more. */
  lemma BothHalves(before: seq<int>, between: seq<int>, after: seq<int>, L: nat, mid: nat, R: nat)
    requires L <= mid <= R <= |before| == |between| == |after|
    requires between[..L] == before[..L] && between[mid..] == before[mid..]
    requires after[..mid] == between[..mid] && after[R..] == between[R..]
    ensures after[..L] == before[..L] && after[R..] == before[R..] && after[L..R] == between[L..mid] + after[mid..R]
  {
    assert after[..L] == after[..mid][..L] && between[..L] == between[..mid][..L];
    assert between[R..] == between[mid..][R - mid..] && before[R..] == before[mid..][R - mid..];
    assert after[L..mid] == after[..mid][L..] && between[L..mid] == between[..mid][L..];
    assert after[L..R] == after[L..mid] + after[mid..R];
  }

  /** The halves of `inner` of `_int2digits`. */
  lemma UpperAndLower(x: nat, n: nat, low: nat, high: nat)
    requires 0 < n && x < Pow(Pow2(n), low + high)
    ensures 0 <= low * n && 0 <= ShiftLeft(ShiftRight(x, low * n), low * n)
    ensures var upper := ShiftRight(x, low * n);
            var lower := BitXor(x, ShiftLeft(upper, low * n));
            && 0 <= upper < Pow(Pow2(n), high) && 0 <= lower < Pow(Pow2(n), low)
            && x == lower + Pow(Pow2(n), low) * upper
  {
    SplitAtShift(x, n, low, high);
    XorClearsTop(x, low * n);
  }

  lemma SplitAtShift(x: nat, n: nat, low: nat, high: nat)
    requires 0 < n && x < Pow(Pow2(n), low + high)
    ensures 0 <= low * n && Pow2(low * n) == Pow(Pow2(n), low)
    ensures 0 <= ShiftRight(x, low * n) < Pow(Pow2(n), high)
    ensures 0 <= x % Pow2(low * n) < Pow(Pow2(n), low)
    ensures x == x % Pow2(low * n) + Pow(Pow2(n), low) * ShiftRight(x, low * n)
  {
    Pow2Times(n, low);
    PowAdd(Pow2(n), low, high);
    QuotientInRange(x, Pow(Pow2(n), low), 0, Pow(Pow2(n), high));
    DivModParts(x, Pow(Pow2(n), low));
  }

  /** The list length `(bits + n - 1) // n`. */
  lemma DigitCount(a: nat, n: nat, count: int)
    requires 0 < n && 0 < a && count == (BitLength(a) + n - 1) / n
    ensures 0 < count && Pow(Pow2(n), count - 1) <= a < Pow(Pow2(n), count)
  {
    BitLengthBounds(a);
    CeilingDivision(BitLength(a), n, count);
    Pow2Times(n, count - 1);
    Pow2Times(n, count);
    Pow2Mono((count - 1) * n, BitLength(a) - 1);
    Pow2Mono(BitLength(a), count * n);
  }

  lemma CeilingDivision(bits: int, n: int, count: int)
    requires 0 < n && 0 < bits && count == (bits + n - 1) / n
    ensures 0 < count && (count - 1) * n < bits <= count * n
  {
    DivModParts(bits + n - 1, n);
    MulAdd(count, -1, n);
    if count <= 0 { MulMono(count, 0, n); }
  }

  lemma TopDigitNonZero(digits: seq<int>, base: int, a: nat)
    requires digits != [] && InBase(digits, base) && Value(digits, base) == a
    requires Pow(base, |digits| - 1) <= a
    ensures digits[|digits| - 1] != 0
  {
    var k := |digits| - 1;
    assert digits == digits[..k] + [digits[k]];
    ValueConcat(digits[..k], [digits[k]], base);
    ValueSingle(digits[k], base);
    ValueRange(digits[..k], base);
  }

  /** `_digits2int` */
  function Digits2Int(digits: seq<int>, n: nat): int {
    if digits == [] then 0 else Digits2IntInner(digits, n, 0, |digits|)
  }

  function Digits2IntInner(digits: seq<int>, n: nat, L: nat, R: nat): int
    requires L < R <= |digits|
    decreases R - L
  {
    if L + 1 == R then digits[L] else
      var mid := (L + R) / 2;
      Pow2Times(n, mid - L);
      var shift := (mid - L) * n;
      ShiftLeft(Digits2IntInner(digits, n, mid, R), shift) + Digits2IntInner(digits, n, L, mid)
  }

  lemma ShiftIsTimes(x: int, n: nat, k: nat)
    ensures 0 <= k * n && ShiftLeft(x, k * n) == Pow(Pow2(n), k) * x
  {
    Pow2Times(n, k);
  }

  lemma {:induction false} Digits2IntInnerValue(digits: seq<int>, n: nat, L: nat, R: nat)
    requires L < R <= |digits|
    ensures Digits2IntInner(digits, n, L, R) == Value(digits[L..R], Pow2(n))
    decreases R - L
  {
    if L + 1 == R {
      assert digits[L..R] == [digits[L]];
      ValueSingle(digits[L], Pow2(n));
    } else {
      var mid := (L + R) / 2;
      var low, high := digits[L..mid], digits[mid..R];
      Digits2IntInnerValue(digits, n, mid, R);
      Digits2IntInnerValue(digits, n, L, mid);
      assert digits[L..R] == low + high;
      ShiftIsTimes(Value(high, Pow2(n)), n, mid - L);
      ValueConcat(low, high, Pow2(n));
    }
  }

  /** `_digits2int` is the inverse of `_int2digits`, in both directions. */
  lemma Digits2IntInverts(digits: seq<int>, n: nat)
    ensures Digits2Int(digits, n) == Value(digits, Pow2(n))
    ensures forall a :: IsDigitsOf(digits, n, a) ==> Digits2Int(digits, n) == a
  {
    if digits != [] {
      Digits2IntInnerValue(digits, n, 0, |digits|);
      assert digits[0..|digits|] == digits;
    }
  }

  // ---- divmod ----

  function Reverse(s: seq<int>): seq<int> {
    if s == [] then [] else Reverse(s[1..]) + [s[0]]
  }

  lemma {:induction false} ReverseAppend(s: seq<int>, x: int)
    ensures Reverse(s + [x]) == [x] + Reverse(s)
  {
    if s == [] {
      assert [x][1..] == [];
    } else {
      ReverseAppend(s[1..], x);
      assert (s + [x])[1..] == s[1..] + [x];
    }
  }

  /** `_divmod_pos`: grade-school division, one base-2**n digit at a time. */
  method DivmodPos(a: nat, b: nat) returns (q: int, r: int)
    requires 0 < b
    ensures IsDivMod(a, b, q, r)
  {
    BitLengthBounds(b);
    var n := BitLength(b);
    var aDigits := Int2Digits(a, n);
    ghost var s := aDigits[..];
    r := 0;
    var qDigits := [];
    var i := aDigits.Length;
    while i > 0
      invariant 0 <= i <= aDigits.Length && aDigits[..] == s
      invariant IsDivMod(Value(s[i..], Pow2(n)), b, Value(Reverse(qDigits), Pow2(n)), r)
    {
      i := i - 1;
      DividendBelow(r, s[i], b, Pow2(n));
      var qDigit, r' := Div2n1n(ShiftLeft(r, n) + aDigits[i], b, n);
      ReverseAppend(qDigits, qDigit);
      assert s[i..][1..] == s[i + 1..] && ([qDigit] + Reverse(qDigits))[1..] == Reverse(qDigits);
      SchoolbookStep(Value(s[i + 1..], Pow2(n)), Value(Reverse(qDigits), Pow2(n)), r, b, Pow2(n), s[i], qDigit, r');
      r := r';
      qDigits := qDigits + [qDigit];
    }
    assert s[0..] == s;
    qDigits := Reverse(qDigits);
    Digits2IntInverts(qDigits, n);
    q := Digits2Int(qDigits, n);
  }

  lemma SchoolbookStep(a: int, q: int, r: int, b: int, p: int, aDigit: int, qDigit: int, r': int)
    requires IsDivMod(a, b, q, r) && IsDivMod(r * p + aDigit, b, qDigit, r')
    ensures IsDivMod(aDigit + p * a, b, qDigit + p * q, r')
  {
    MulAdd(b * q, r, p);
    MulAssoc(b, q, p);
    MulAdd(qDigit, p * q, b);
  }

  datatype ArithmeticError = ZeroDivisionError

  /** Python's `divmod`: the quotient is floored, so a non-zero remainder has the divisor's sign. */
  predicate IsFloorDivMod(a: int, b: int, q: int, r: int) {
    a == b * q + r && (if 0 < b then 0 <= r < b else b < r <= 0)
  }

  lemma FloorDivModUnique(a: int, b: int, q: int, r: int, q': int, r': int)
    requires b != 0 && IsFloorDivMod(a, b, q, r) && IsFloorDivMod(a, b, q', r')
    ensures q == q' && r == r'
  {
    if 0 < b {
      DivModUnique(a, b, q, r);
      DivModUnique(a, b, q', r');
    } else {
      DivModUnique(-a, -b, q, -r);
      DivModUnique(-a, -b, q', -r');
    }
  }

  /** `int_divmod` */
  method IntDivmod(a: int, b: int) returns (result: Result<(int, int), ArithmeticError>)
    ensures b == 0 ==> result == Failure(ZeroDivisionError)
    ensures b != 0 ==> result.Success? && IsFloorDivMod(a, b, result.value.0, result.value.1)
    decreases b < 0, a < 0
  {
    if b == 0 {
      return Failure(ZeroDivisionError);
    } else if b < 0 {
      result := IntDivmod(-a, -b);
      var (q, r) := result.value;
      result := Success((q, -r));
    } else if a < 0 {
      result := IntDivmod(Invert(a), b);
      var (q, r) := result.value;
      MulAdd(q, 1, b);
      result := Success((Invert(q), b + Invert(r)));
    } else {
      var q, r := DivmodPos(a, b);
      result := Success((q, r));
    }
  }

  /** `~x` */
  function Invert(x: int): int { -x - 1 }
}
