/** Python's integer operators on unbounded non-negative integers: powers, shifts, the bitwise
    operators and `bit_length`. The bitwise operators are defined bit by bit, so that "`|` acts
    as addition" and "`&` with a mask is a remainder" are facts to be proved, not definitions. */
module Bits {

  function Pow(base: int, exponent: nat): int {
    if exponent == 0 then 1 else base * Pow(base, exponent - 1)
  }

  function Pow2(exponent: nat): (p: int)
    ensures 1 <= p
  {
    if exponent == 0 then 1 else 2 * Pow2(exponent - 1)
  }

  /** `x << k` */
  function ShiftLeft(x: int, k: nat): int { x * Pow2(k) }

  /** `x >> k` */
  function ShiftRight(x: int, k: nat): int { x / Pow2(k) }

  /** `x.bit_length()` */
  function BitLength(x: nat): nat {
    if x == 0 then 0 else 1 + BitLength(x / 2)
  }

  /** `x & y` */
  function BitAnd(x: nat, y: nat): nat {
    if x == 0 || y == 0 then 0
    else 2 * BitAnd(x / 2, y / 2) + (if x % 2 == 1 && y % 2 == 1 then 1 else 0)
  }

  /** `x | y` */
  function BitOr(x: nat, y: nat): nat
    decreases x + y
  {
    if x == 0 then y
    else if y == 0 then x
    else 2 * BitOr(x / 2, y / 2) + (if x % 2 == 1 || y % 2 == 1 then 1 else 0)
  }

  /** `x ^ y` */
  function BitXor(x: nat, y: nat): nat
    decreases x + y
  {
    if x == 0 then y
    else if y == 0 then x
    else 2 * BitXor(x / 2, y / 2) + (if x % 2 != y % 2 then 1 else 0)
  }

  // ---- multiplication and division ----

  lemma MulMono(a: int, b: int, c: int)
    requires a <= b && 0 <= c
    ensures a * c <= b * c
  {
  }

  lemma MulAdd(a: int, b: int, c: int)
    ensures (a + b) * c == a * c + b * c
    ensures c * (a + b) == a * c + b * c
  {
  }

  lemma MulAssoc(a: int, b: int, c: int)
    ensures (a * b) * c == a * (b * c)
  {
  }

  lemma DivModParts(x: int, b: int)
    requires 0 < b
    ensures x == x / b * b + x % b && 0 <= x % b < b
    ensures 0 <= x ==> 0 <= x / b
  {
    var q := x / b;
    assert x == b * q + x % b;
    if 0 <= x && q <= -1 { MulMono(q, -1, b); }
  }

  /** A quotient and remainder are determined by their defining equation. */
  lemma DivModUnique(a: int, b: int, q: int, r: int)
    requires 0 < b && a == b * q + r && 0 <= r < b
    ensures q == a / b && r == a % b
  {
    var d := q - a / b;
    assert b * d == a % b - r by {
      assert a == b * (a / b) + a % b;
      assert b * d == b * q - b * (a / b);
    }
    if d >= 1 { MulMono(1, d, b); } else if d <= -1 { MulMono(d, -1, b); }
  }

  lemma DivNested(x: int, b: int, c: int)
    requires 0 < b && 0 < c
    ensures 0 < b * c && x / (b * c) == (x / b) / c
    ensures x % (b * c) == x % b + b * ((x / b) % c)
  {
    MulMono(1, b, c);
    var q, r := (x / b) / c, (x / b) % c;
    assert x == b * (c * q + r) + x % b;
    assert b * (c * q + r) == (b * c) * q + b * r;
    MulMono(r, c - 1, b);
    assert (c - 1) * b == b * c - b;
    DivModUnique(x, b * c, q, b * r + x % b);
  }

  // ---- powers ----

  lemma PowAdd(base: int, m: nat, n: nat)
    ensures Pow(base, m + n) == Pow(base, m) * Pow(base, n)
  {
    if m != 0 {
      PowAdd(base, m - 1, n);
      assert base * (Pow(base, m - 1) * Pow(base, n)) == base * Pow(base, m - 1) * Pow(base, n);
    }
  }

  lemma PowPositive(base: int, n: nat)
    requires 1 <= base
    ensures 1 <= Pow(base, n)
  {
    if n != 0 { PowPositive(base, n - 1); MulMono(1, base, Pow(base, n - 1)); }
  }

  lemma Pow2IsPow(n: nat)
    ensures Pow2(n) == Pow(2, n)
  {
  }

  lemma Pow2Add(m: nat, n: nat)
    ensures Pow2(m + n) == Pow2(m) * Pow2(n)
  {
    Pow2IsPow(m); Pow2IsPow(n); Pow2IsPow(m + n);
    PowAdd(2, m, n);
  }

  lemma {:induction false} Pow2Times(n: nat, k: nat)
    ensures 0 <= k * n && Pow2(k * n) == Pow(Pow2(n), k)
  {
    MulMono(0, k, n);
    if k != 0 {
      Pow2Times(n, k - 1);
      MulAdd(1, k - 1, n);
      Pow2Add(n, (k - 1) * n);
    }
  }

  lemma Pow2Mono(m: nat, n: nat)
    requires m <= n
    ensures Pow2(m) <= Pow2(n)
  {
    if m < n { Pow2Mono(m, n - 1); }
  }

  /** `5**k << k == 10**k` */
  lemma {:induction false} PowFiveShifted(k: nat)
    ensures ShiftLeft(Pow(5, k), k) == Pow(10, k)
  {
    if k != 0 {
      PowFiveShifted(k - 1);
      var f, t := Pow(5, k - 1), Pow2(k - 1);
      assert (5 * f) * (2 * t) == 10 * (f * t);
    }
  }

  // ---- bit_length ----

  lemma {:induction false} BitLengthBounds(x: nat)
    requires 0 < x
    ensures 0 < BitLength(x) && Pow2(BitLength(x) - 1) <= x < Pow2(BitLength(x))
  {
    if x >= 2 { BitLengthBounds(x / 2); }
  }

  lemma BitLengthAtMost(x: nat, k: nat)
    requires x < Pow2(k)
    ensures BitLength(x) <= k
  {
    if x != 0 {
      BitLengthBounds(x);
      if k < BitLength(x) { Pow2Mono(k, BitLength(x) - 1); }
    }
  }

  // ---- the bitwise operators ----

  lemma {:induction false} AndMask(x: nat, k: nat)
    ensures BitAnd(x, Pow2(k) - 1) == x % Pow2(k)
  {
    if x != 0 && k != 0 {
      var p := Pow2(k - 1);
      AndMask(x / 2, k - 1);
      assert (Pow2(k) - 1) / 2 == p - 1 && (Pow2(k) - 1) % 2 == 1;
      DivNested(x, 2, p);
    }
  }

  lemma AndOne(x: nat)
    ensures BitAnd(x, 1) == x % 2
  {
    AndMask(x, 1);
  }

  lemma {:induction false} OrIsPlus(x: nat, y: nat, k: nat)
    requires y < Pow2(k)
    ensures 0 <= x * Pow2(k) && BitOr(x * Pow2(k), y) == x * Pow2(k) + y
  {
    MulMono(0, x, Pow2(k));
    if k != 0 && x != 0 && y != 0 {
      var p := Pow2(k - 1);
      assert x * Pow2(k) == 2 * (x * p);
      OrIsPlus(x, y / 2, k - 1);
    }
  }

  lemma XorDouble(x: nat, v: nat)
    ensures BitXor(x, 2 * v) == 2 * BitXor(x / 2, v) + x % 2
  {
  }

  /** Clearing the low bits commutes with halving. */
  lemma ClearLowHalves(x: nat, k: nat)
    requires 0 < k
    ensures 0 <= ShiftLeft(ShiftRight(x / 2, k - 1), k - 1)
    ensures ShiftLeft(ShiftRight(x, k), k) == 2 * ShiftLeft(ShiftRight(x / 2, k - 1), k - 1)
    ensures x % Pow2(k) == 2 * (x / 2 % Pow2(k - 1)) + x % 2
  {
    DivNested(x, 2, Pow2(k - 1));
    DivModParts(x / 2, Pow2(k - 1));
    var q := x / 2 / Pow2(k - 1);
    MulMono(0, q, Pow2(k - 1));
    MulAssoc(2, Pow2(k - 1), q);
  }

  /** `x ^ (x >> k << k)` keeps exactly the low `k` bits. */
  lemma {:induction false} XorClearsTop(x: nat, k: nat)
    ensures 0 <= ShiftLeft(ShiftRight(x, k), k)
    ensures BitXor(x, ShiftLeft(ShiftRight(x, k), k)) == x % Pow2(k)
  {
    if k == 0 {
      XorSelf(x);
    } else {
      ClearLowHalves(x, k);
      XorClearsTop(x / 2, k - 1);
      XorDouble(x, ShiftLeft(ShiftRight(x / 2, k - 1), k - 1));
    }
  }

  lemma {:induction false} XorSelf(x: nat)
    ensures BitXor(x, x) == 0
  {
    if x != 0 { XorSelf(x / 2); }
  }
}
