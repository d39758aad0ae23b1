/** `compute_powers` of `_pylong.py`: exactly which powers the halving recursions need, that the
    table is filled with them in whatever order the worklist is popped, and exactly when its
    internal assertion can trip. */
module PowerTable {
  import opened Bits
  import opened Wrappers

  datatype TableError = AssertionFailed

  /** The widths above `limit` that a recursion halving `w` into `w >> 1` and `w - (w >> 1)` meets. */
  ghost function Reached(w: int, limit: nat): set<int>
    decreases w
  {
    if w <= limit then {}
    else if w == 1 then {1}
    else {w} + Reached(w / 2, limit) + (if w % 2 == 1 then Reached(w / 2 + 1, limit) else {})
  }

  /** The exponents whose powers that recursion looks up. */
  ghost function Needed(w: int, limit: nat): set<int> {
    Halves(Reached(w, limit))
  }

  ghost function Halves(widths: set<int>): set<int> {
    set v | v in widths :: v / 2
  }

  /** Some right shift of `w` is exactly the limit, but only by dropping one-bits. */
  ghost predicate Straddles(w: int, limit: nat) {
    exists i: nat :: ShiftRight(w, i) == limit && w != ShiftLeft(limit, i)
  }

  /** Exactly the calls on which `assert lo in d` fails. */
  ghost predicate Trips(w: int, limit: nat) {
    limit % 2 == 1 && 5 <= limit && Straddles(w, limit)
  }

  /** Every entry of `d` is the power of `base` its key says. */
  ghost predicate HoldsPowers(d: map<int, int>, base: int) {
    forall k :: k in d ==> IsPower(d[k], base, k)
  }

  predicate IsPower(power: int, base: int, k: int) {
    0 <= k && power == Pow(base, k)
  }

  /** `d` holds the power of every needed exponent and nothing else. */
  ghost predicate IsTable(d: map<int, int>, w: int, base: int, limit: nat) {
    d.Keys == Needed(w, limit) && HoldsPowers(d, base)
  }

  // ---- the shape of the reached widths ----

  lemma {:induction false} ReachedAbove(w: int, limit: nat, x: int)
    requires x in Reached(w, limit)
    ensures limit < x <= w
    decreases w
  {
    if w != 1 && x != w {
      if x in Reached(w / 2, limit) { ReachedAbove(w / 2, limit, x); } else { ReachedAbove(w / 2 + 1, limit, x); }
    }
  }

  /** Every halving of a reached width is reached, or is at most the limit. */
  lemma {:induction false} ReachedClosed(w: int, limit: nat, x: int)
    requires x in Reached(w, limit)
    ensures x / 2 in Reached(w, limit) || x / 2 <= limit
    ensures x % 2 == 1 ==> x / 2 + 1 in Reached(w, limit) || x / 2 + 1 <= limit
    decreases w
  {
    if w != 1 && x != w {
      if x in Reached(w / 2, limit) { ReachedClosed(w / 2, limit, x); } else { ReachedClosed(w / 2 + 1, limit, x); }
    }
  }

  /** Any set of widths containing `w` and closed under halving contains all reached widths. */
  lemma {:induction false} ReachedLeast(w: int, limit: nat, s: set<int>)
    requires w in s || w <= limit
    requires forall x :: x in s ==> (x / 2 in s || x / 2 <= limit) && (x % 2 == 1 ==> x / 2 + 1 in s || x / 2 + 1 <= limit)
    ensures Reached(w, limit) <= s
    decreases w
  {
    if w > limit && w != 1 {
      ReachedLeast(w / 2, limit, s);
      if w % 2 == 1 { ReachedLeast(w / 2 + 1, limit, s); }
    }
  }

  /** `x` is `w / 2**i` rounded down or up. */
  predicate Near(x: int, w: int, i: nat) {
    (x - 1) * Pow2(i) < w < (x + 1) * Pow2(i)
  }

  lemma NearDouble(x: int, c: int, w: int, i: nat)
    requires Near(x, c, i) && w - 1 <= 2 * c <= w + 1
    ensures Near(x, w, i + 1)
  {
    assert (x - 1) * Pow2(i + 1) == 2 * ((x - 1) * Pow2(i)) && (x + 1) * Pow2(i + 1) == 2 * ((x + 1) * Pow2(i));
  }

  lemma {:induction false} ReachedLevel(w: int, limit: nat, x: int) returns (i: nat)
    requires x in Reached(w, limit)
    ensures Near(x, w, i)
    decreases w
  {
    if w == 1 || x == w {
      i := 0;
    } else if x in Reached(w / 2, limit) {
      i := ReachedLevel(w / 2, limit, x);
      NearDouble(x, w / 2, w, i);
      i := i + 1;
    } else {
      i := ReachedLevel(w / 2 + 1, limit, x);
      NearDouble(x, w / 2 + 1, w, i);
      i := i + 1;
    }
  }

  /** Of two widths near shifts of the same number, the one from the coarser shift is the smaller. */
  lemma SameOrFinerLevel(x: int, y: int, w: int, i: nat, j: nat)
    requires 1 <= x && Near(x, w, i) && Near(y, w, j) && i <= j
    ensures y <= x + 1
  {
    Pow2Mono(i, j);
    MulMono(Pow2(i), Pow2(j), x + 1);
    if x + 1 <= y - 1 { MulMono(x + 1, y - 1, Pow2(j)); }
  }

  lemma CoarserLevel(x: int, y: int, w: int, i: nat, j: nat)
    requires 1 <= x && Near(x, w, i) && Near(y, w, j) && j < i
    ensures 2 * x <= y + 2
  {
    if y + 1 <= 2 * (x - 1) { BelowCoarser(x - 1, y, w, i, j); }
  }

  lemma Doubled(x: int, j: nat)
    ensures x * Pow2(j + 1) == (2 * x) * Pow2(j)
  {
  }

  /** Two reached widths are neighbours, or one is about half of the other or less. */
  lemma Spread(w: int, limit: nat, x: int, y: int)
    requires x in Reached(w, limit) && y in Reached(w, limit) && x < y
    ensures y == x + 1 || 2 * x <= y + 2
  {
    ReachedAbove(w, limit, x);
    var i := ReachedLevel(w, limit, x);
    var j := ReachedLevel(w, limit, y);
    if i <= j { SameOrFinerLevel(x, y, w, i, j); } else { CoarserLevel(x, y, w, i, j); }
  }

  lemma StraddleFrom(w: int, limit: nat, u: int)
    requires 3 <= limit && limit + 1 in Reached(w, limit)
    requires u in Reached(w, limit) && u / 2 == limit
    ensures Straddles(w, limit)
  {
    var i := ReachedLevel(w, limit, limit + 1);
    var j := ReachedLevel(w, limit, u);
    if i <= j { SameOrFinerLevel(limit + 1, u, w, i, j); }
    BelowCoarser(limit + 1, u, w, i, j);
    ShiftBetween(w, limit, i);
  }

  lemma BelowCoarser(x: int, u: int, w: int, i: nat, j: nat)
    requires j < i && Near(u, w, j) && u + 1 <= 2 * x && 0 <= x
    ensures w < x * Pow2(i)
  {
    Pow2Mono(j + 1, i);
    MulMono(Pow2(j + 1), Pow2(i), x);
    Doubled(x, j);
    MulMono(u + 1, 2 * x, Pow2(j));
  }

  lemma ShiftBetween(w: int, limit: nat, i: nat)
    requires limit * Pow2(i) < w < (limit + 1) * Pow2(i)
    ensures ShiftRight(w, i) == limit && w != ShiftLeft(limit, i)
  {
    MulAdd(limit, 1, Pow2(i));
    DivModUnique(w, Pow2(i), limit, w - limit * Pow2(i));
  }

  /** A needed exponent whose lower neighbour and half are both missing, above a smaller needed
      exponent, exists only when the call trips. */
  lemma MissingHalfTrips(w: int, limit: nat, k: int, first: int)
    requires k in Needed(w, limit) && first in Needed(w, limit) && first < k
    requires k - 1 !in Needed(w, limit) && k / 2 !in Needed(w, limit)
    ensures Trips(w, limit)
  {
    var u :| u in Reached(w, limit) && u / 2 == k;
    var v :| v in Reached(w, limit) && v / 2 == first;
    assert (u / 2) / 2 !in Needed(w, limit) && u / 2 - 1 !in Needed(w, limit);
    MissingBelow(w, limit, u, v);
  }

  lemma MissingBelow(w: int, limit: nat, u: int, v: int)
    requires u in Reached(w, limit) && v in Reached(w, limit) && v / 2 < u / 2
    requires u / 2 - 1 !in Needed(w, limit) && u / 2 / 2 !in Needed(w, limit)
    ensures Trips(w, limit)
  {
    ReachedClosed(w, limit, u);
    ReachedAbove(w, limit, v);
    Spread(w, limit, v, u);
    StraddleFrom(w, limit, u);
  }

  lemma {:induction false} StraddleReaches(w: int, limit: nat, i: nat)
    requires limit * Pow2(i) < w < (limit + 1) * Pow2(i) && 1 <= limit
    ensures 2 * limit + 1 in Reached(w, limit)
    decreases i
  {
    MulMono(1, Pow2(i), limit);
    MulAdd(limit, 1, Pow2(i));
    if i > 1 {
      var p := Pow2(i - 1);
      assert 2 <= p;
      MulAdd(limit, 1, p);
      assert limit * Pow2(i) == 2 * (limit * p) by { Doubled(limit, i - 1); MulAssoc(2, limit, p); }
      if w / 2 > limit * p { StraddleReaches(w / 2, limit, i - 1); } else { StraddleReaches(w / 2 + 1, limit, i - 1); }
    }
  }

  /** When the call trips, the limit itself is the needed exponent it trips on. */
  lemma TripsAtLimit(w: int, limit: nat)
    requires Trips(w, limit)
    ensures limit in Needed(w, limit) && (limit + 1) / 2 in Needed(w, limit)
    ensures limit - 1 !in Needed(w, limit) && limit / 2 !in Needed(w, limit)
  {
    var i: nat :| ShiftRight(w, i) == limit && w != ShiftLeft(limit, i);
    DivModParts(w, Pow2(i));
    MulAdd(limit, 1, Pow2(i));
    StraddleReaches(w, limit, i);
    var u := 2 * limit + 1;
    ReachedClosed(w, limit, u);
    assert limit == u / 2 && limit + 1 in Reached(w, limit);
    if limit - 1 in Needed(w, limit) {
      var v :| v in Reached(w, limit) && v / 2 == limit - 1;
      Spread(w, limit, v, u);
    }
    if limit / 2 in Needed(w, limit) {
      var v :| v in Reached(w, limit) && v / 2 == limit / 2;
      ReachedAbove(w, limit, v);
    }
  }

  /** The limits the module passes are even, so its own calls never trip. */
  lemma EvenLimitNeverTrips(w: int, limit: nat)
    requires limit % 2 == 0
    ensures !Trips(w, limit)
  {
  }

  /** A width and an odd limit on which the assertion does fail. */
  lemma OddLimitTrips()
    ensures Trips(23, 11) && 5 !in Needed(23, 11) && 11 in Needed(23, 11)
  {
    assert Pow2(1) == 2 && ShiftRight(23, 1) == 11 && 23 != ShiftLeft(11, 1);
    TripsAtLimit(23, 11);
  }

  // ---- the procedure ----

  method Minimum(s: set<int>) returns (m: int)
    requires |s| > 0
    ensures m in s && forall x :: x in s ==> m <= x
  {
    m := Pick(s);
    var rest := s - {m};
    while |rest| > 0
      invariant m in s && rest <= s && forall x :: x in s ==> x in rest || m <= x
      decreases |rest|
    {
      var x := Pick(rest);
      if x < m { m := x; }
      rest := rest - {x};
    }
  }

  /** Every width of `s` has been halved, or its halves are at most the limit or still waiting. */
  ghost predicate HalvedInto(s: set<int>, waiting: set<int>, limit: nat) {
    forall x :: x in s ==>
      && (x / 2 in s || x / 2 in waiting || x / 2 <= limit)
      && (x % 2 == 1 ==> x / 2 + 1 in s || x / 2 + 1 in waiting || x / 2 + 1 <= limit)
  }

  lemma HalvesAdd(s: set<int>, x: int)
    ensures Halves(s + {x}) == Halves(s) + {x / 2}
  {
    assert x in s + {x};
    forall k | k in Halves(s) ensures k in Halves(s + {x}) {
      var v :| v in s && v / 2 == k;
      assert v in s + {x};
    }
  }

  /** What halving `x` adds to the worklist: `lo`, and `lo + 1` when `x` is odd. */
  function Children(x: int): set<int> {
    if x % 2 == 1 then {x / 2, x / 2 + 1} else {x / 2}
  }

  ghost predicate ReachedOrSmall(s: set<int>, all: set<int>, limit: nat) {
    forall x :: x in s ==> x in all || x <= limit
  }

  lemma ChildrenReached(w: int, limit: nat, x: int)
    requires x in Reached(w, limit)
    ensures ReachedOrSmall(Children(x), Reached(w, limit), limit)
  {
    ReachedClosed(w, limit, x);
  }

  lemma HalveOne(s: set<int>, rest: set<int>, x: int, limit: nat)
    requires HalvedInto(s, rest + {x}, limit)
    ensures HalvedInto(s + {x}, rest + Children(x), limit)
    ensures x in s || x <= limit ==> HalvedInto(s, rest, limit)
  {
  }

  /** The worklist's invariant: only reached widths are halved, and none gets lost. */
  ghost predicate Collecting(w: int, limit: nat, seen: set<int>, ws: set<int>) {
    && seen <= Reached(w, limit)
    && ReachedOrSmall(ws, Reached(w, limit), limit)
    && HalvedInto(seen, ws, limit)
    && (w in seen || w in ws || w <= limit)
  }

  lemma CollectSkip(w: int, limit: nat, seen: set<int>, ws: set<int>, x: int)
    requires Collecting(w, limit, seen, ws) && x in ws && (x in seen || x <= limit)
    ensures Collecting(w, limit, seen, ws - {x})
  {
    assert ws == ws - {x} + {x};
    HalveOne(seen, ws - {x}, x, limit);
  }

  lemma CollectHalve(w: int, limit: nat, seen: set<int>, ws: set<int>, x: int)
    requires Collecting(w, limit, seen, ws) && x in ws && limit < x
    ensures x in Reached(w, limit) && Collecting(w, limit, seen + {x}, ws - {x} + Children(x))
  {
    assert ws == ws - {x} + {x};
    HalveOne(seen, ws - {x}, x, limit);
    ChildrenReached(w, limit, x);
  }

  /** The worklist loop: `ws.pop()` may return any element. */
  method CollectNeeded(w: int, moreThan: nat) returns (need: set<int>)
    ensures need == Needed(w, moreThan)
  {
    var seen, ws := {}, {w};
    need := {};
    StartCollecting(w, moreThan);
    while |ws| > 0
      invariant Collecting(w, moreThan, seen, ws) && need == Halves(seen)
      decreases Reached(w, moreThan) - seen, |ws|
    {
      var w' := Pick(ws);
      if w' in seen || w' <= moreThan {
        CollectSkip(w, moreThan, seen, ws, w');
        ws := ws - {w'};
      } else {
        CollectHalve(w, moreThan, seen, ws, w');
        HalvesAdd(seen, w');
        seen := seen + {w'};
        need := need + {w' / 2};
        ws := ws - {w'} + Children(w');
      }
    }
    ReachedLeast(w, moreThan, seen);
  }

  lemma StartCollecting(w: int, limit: nat)
    ensures Collecting(w, limit, {}, {w})
  {
  }

  /** The power of `k` is one multiplication or squaring away from that of another member of `need`. */
  ghost predicate Supported(need: set<int>, k: int) {
    k - 1 in need || k / 2 in need
  }

  /** The one power computed with `**`. */
  method FirstPower(base: int, k: int) returns (d: map<int, int>)
    requires 0 <= k
    ensures d.Keys == {k} && HoldsPowers(d, base)
  {
    d := map[k := Pow(base, k)];
  }

  /** The body of the filling loop: one more power from those already in the table. */
  method NextPower(d: map<int, int>, base: int, k: int) returns (power: Option<int>)
    requires 0 < k && HoldsPowers(d, base)
    ensures power.Some? <==> Supported(d.Keys, k)
    ensures power.Some? ==> HoldsPowers(d[k := power.value], base)
  {
    if k - 1 in d {
      return Some(d[k - 1] * base);
    }
    var lo := k / 2;
    var hi := k - lo;
    if lo !in d {
      return None;
    }
    var sq := d[lo] * d[lo];
    PowAdd(base, lo, lo);
    if hi != lo {
      assert hi == lo + 1;
      sq := sq * base;
    }
    return Some(sq);
  }

  /** Some needed exponent other than the smallest has no support. */
  ghost predicate Stuck(need: set<int>) {
    exists k, first {:trigger Supported(need, k), first in need} :: k in need && first in need && first < k && !Supported(need, k)
  }

  ghost predicate Below(low: set<int>, high: set<int>) {
    forall x, y :: x in low && y in high ==> x < y
  }

  /** Taking the least remaining exponent: whether it has support is already decided below it. */
  lemma NextExponent(low: set<int>, high: set<int>, first: int, m: int)
    requires Below(low, high) && first in low && 0 <= first && m in high && forall y :: y in high ==> m <= y
    ensures Below(low + {m}, high - {m}) && first < m
    ensures Supported(low, m) <==> Supported(low + high, m)
    ensures AllSupported(low, low + high, first) && Supported(low, m) ==> AllSupported(low + {m}, low + high, first)
  {
  }

  ghost predicate AllSupported(keys: set<int>, need: set<int>, first: int) {
    forall k {:trigger Supported(need, k)} :: k in keys && k != first ==> Supported(need, k)
  }

  lemma StuckOrNot(need: set<int>, first: int)
    requires first in need && forall k :: k in need ==> first <= k
    ensures AllSupported(need, need, first) ==> !Stuck(need)
    ensures forall k {:trigger Supported(need, k)} :: k in need && first < k && !Supported(need, k) ==> Stuck(need)
  {
  }

  /** The table so far: the powers of all needed exponents but the `rest`, which are larger. */
  ghost predicate Filling(d: map<int, int>, rest: set<int>, need: set<int>, first: int, base: int) {
    && d.Keys + rest == need && first in d && 0 <= first
    && Below(d.Keys, rest)
    && HoldsPowers(d, base)
    && AllSupported(d.Keys, need, first)
  }

  /** One pass of the filling loop: fails on an exponent without support, else stores its power. */
  method FillOne(d: map<int, int>, base: int, this_: int, ghost rest: set<int>, ghost need: set<int>, ghost first: int)
    returns (d': map<int, int>, ok: bool)
    requires Filling(d, rest, need, first, base) && this_ in rest && forall y :: y in rest ==> this_ <= y
    ensures ok <==> Supported(need, this_)
    ensures ok ==> Filling(d', rest - {this_}, need, first, base)
  {
    NextExponent(d.Keys, rest, first, this_);
    var power := NextPower(d, base, this_);
    if power.None? {
      return d, false;
    }
    d' := d[this_ := power.value];
    assert d'.Keys == d.Keys + {this_};
    return d', true;
  }

  /** The filling loop. Iterating over `sorted(need)` takes the least exponent still left each time. */
  method FillTable(need: set<int>, base: int) returns (result: Result<map<int, int>, TableError>)
    requires |need| > 0 && forall k :: k in need ==> 0 <= k
    ensures result.Failure? <==> Stuck(need)
    ensures result.Success? ==> result.value.Keys == need && HoldsPowers(result.value, base)
  {
    var first := Minimum(need);
    StuckOrNot(need, first);
    var d := FirstPower(base, first);
    var rest := need - {first};
    while |rest| > 0
      invariant Filling(d, rest, need, first, base)
      decreases |rest|
    {
      var this_ := Minimum(rest);
      NextExponent(d.Keys, rest, first, this_);
      var ok;
      d, ok := FillOne(d, base, this_, rest, need, first);
      if !ok {
        return Failure(AssertionFailed);
      }
      rest := rest - {this_};
    }
    assert d.Keys == need;
    return Success(d);
  }

  /** `compute_powers` */
  method ComputePowers(w: int, base: int, moreThan: nat) returns (result: Result<map<int, int>, TableError>)
    ensures result.Failure? <==> Trips(w, moreThan)
    ensures result.Success? ==> IsTable(result.value, w, base, moreThan)
  {
    var need := CollectNeeded(w, moreThan);
    StuckMeansTrips(w, moreThan);
    if |need| == 0 {
      return Success(map[]);
    }
    result := FillTable(need, base);
  }

  lemma StuckMeansTrips(w: int, limit: nat)
    ensures Stuck(Needed(w, limit)) <==> Trips(w, limit)
    ensures forall k :: k in Needed(w, limit) ==> 0 <= k
  {
    var need := Needed(w, limit);
    forall v | v in Reached(w, limit) ensures 0 <= v / 2 { ReachedAbove(w, limit, v); }
    if Stuck(need) {
      var k, first :| k in need && first in need && first < k && !Supported(need, k);
      MissingHalfTrips(w, limit, k, first);
    }
    if Trips(w, limit) {
      TripsAtLimit(w, limit);
      assert !Supported(need, limit) && (limit + 1) / 2 < limit;
    }
  }
}
