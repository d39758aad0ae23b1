/** `datetime._mktime` of `_pydatetime.py`: solving `local(u) == t` for a clock that may skip or
    repeat local times. */
module MkTime {
  import opened Wrappers

  const MAX_FOLD_SECONDS := 24 * 3600

  datatype MkTimeError = AssertionFailed

  /** `_mktime`, for the local second `t`; `local` maps POSIX seconds to local seconds. */
  function MkTime(t: int, fold: bool, local: int -> int): Result<int, MkTimeError> {
    var a := local(t) - t;
    var u1 := t - a;
    var t1 := local(u1);
    var probe := u1 + if fold then MAX_FOLD_SECONDS else -MAX_FOLD_SECONDS;
    var b := if t1 == t then local(probe) - probe else t1 - u1;
    if t1 == t && a == b then Success(u1)
    else if t1 != t && a == b then Failure(AssertionFailed)
    else
      var u2 := t - b;
      var t2 := local(u2);
      if t2 == t then Success(u2)
      else if t1 == t then Success(u1)
      else Success(if fold then Min(u1, u2) else Max(u1, u2))
  }

  function Max(x: int, y: int): int { if x > y then x else y }
  function Min(x: int, y: int): int { if x < y then x else y }

  /** `assert a != b` holds for every clock whatsoever. */
  lemma AssertionHolds(t: int, fold: bool, local: int -> int)
    ensures MkTime(t, fold, local).Success?
  {
  }

  // ---- one transition ----

  /** A clock with UTC offset `before` up to second `at` and `after` from then on. */
  datatype Transition = Transition(at: int, before: int, after: int)

  function OffsetAt(c: Transition, u: int): int { if u < c.at then c.before else c.after }

  function ClockOf(c: Transition): int -> int { (u: int) => u + OffsetAt(c, u) }

  /** The seconds at which the clock can show `t`: one for each of the two offsets. */
  lemma Solutions(t: int, c: Transition, u: int)
    ensures ClockOf(c)(u) == t <==> (u == t - c.before && u < c.at) || (u == t - c.after && u >= c.at)
  {
    assert ClockOf(c)(u) == u + OffsetAt(c, u);
  }

  predicate ShownBefore(t: int, c: Transition) { t - c.before < c.at }
  predicate ShownAfter(t: int, c: Transition) { t - c.after >= c.at }

  /** The answer PEP 495 asks for: the only second that shows `t`; the earlier or later of two; and for a
      skipped `t` the second that the offset from before the jump gives for fold 0, from after it for
      fold 1. */
  function Wanted(t: int, fold: bool, c: Transition): int {
    if ShownBefore(t, c) != ShownAfter(t, c) then (if ShownBefore(t, c) then t - c.before else t - c.after)
    else if fold then t - c.after
    else t - c.before
  }

  /** That is the right second among those that show `t`, and the larger or smaller candidate if none does. */
  lemma WantedIsRight(t: int, fold: bool, c: Transition, u: int)
    ensures var w := Wanted(t, fold, c);
            && (ClockOf(c)(u) == t ==> ClockOf(c)(w) == t && (if fold then u <= w else w <= u))
            && (!ShownBefore(t, c) && !ShownAfter(t, c) ==>
                 c.before < c.after &&
                 w == if fold then Min(t - c.before, t - c.after) else Max(t - c.before, t - c.after))
  {
    Solutions(t, c, u);
    Solutions(t, c, Wanted(t, fold, c));
  }

  /** When the wanted one of two seconds is found: the offset in force at `t` itself already gives it, or
      the 24-hour probe from the other one gets across the transition. */
  predicate ProbeReaches(t: int, fold: bool, c: Transition) {
    if fold then OffsetAt(c, t) == c.after || c.at <= t - c.before + MAX_FOLD_SECONDS
    else OffsetAt(c, t) == c.before || t - c.after - MAX_FOLD_SECONDS < c.at
  }

  /** For every local time, fold and transition, exactly when `_mktime` is right: always for a time shown
      once or skipped, whatever the jump, and for a time shown twice if the probe reaches. */
  lemma ExactlyRight(t: int, fold: bool, c: Transition)
    ensures MkTime(t, fold, ClockOf(c)) == Success(Wanted(t, fold, c)) <==>
            (ShownBefore(t, c) && ShownAfter(t, c) ==> ProbeReaches(t, fold, c))
  {
    var local := ClockOf(c);
    var a := OffsetAt(c, t);
    assert local(t) == t + a;
    var u1 := t - a;
    assert local(u1) == u1 + OffsetAt(c, u1);
    var probe := u1 + if fold then MAX_FOLD_SECONDS else -MAX_FOLD_SECONDS;
    assert local(probe) == probe + OffsetAt(c, probe);
    var b := if local(u1) == t then OffsetAt(c, probe) else OffsetAt(c, u1);
    assert local(t - b) == t - b + OffsetAt(c, t - b);
  }

  /** A jump of at most 24 hours is always handled. */
  lemma SmallJumpIsRight(t: int, fold: bool, c: Transition)
    requires -MAX_FOLD_SECONDS <= c.after - c.before <= MAX_FOLD_SECONDS
    ensures MkTime(t, fold, ClockOf(c)) == Success(Wanted(t, fold, c))
  {
    ExactlyRight(t, fold, c);
  }

  /** So the limit on the jump is needed: a clock set back by more can lose the earlier second. */
  lemma LargeJumpMissesEarlier()
    ensures var local := ClockOf(Transition(0, 50000, -50000));
            local(-1000) == 49000 && MkTime(49000, false, local) == Success(99000)
  {
    var c := Transition(0, 50000, -50000);
    assert ClockOf(c)(49000) == -1000 && ClockOf(c)(99000) == 49000 && ClockOf(c)(12600) == -37400;
  }

  // ---- clocks with more transitions ----

  predicate SmallOffset(offset: int) { -MAX_FOLD_SECONDS < offset < MAX_FOLD_SECONDS }

  /** Within two days of `t` the clock goes by `c`; farther away anything may happen. */
  ghost predicate NearbyClock(local: int -> int, t: int, c: Transition) {
    forall u :: t - 2 * MAX_FOLD_SECONDS < u < t + 2 * MAX_FOLD_SECONDS ==> local(u) == ClockOf(c)(u)
  }

  lemma At(local: int -> int, t: int, c: Transition, u: int)
    requires NearbyClock(local, t, c) && t - 2 * MAX_FOLD_SECONDS < u < t + 2 * MAX_FOLD_SECONDS
    ensures local(u) == ClockOf(c)(u) == u + OffsetAt(c, u)
  {
  }

  lemma SameAnswer(t: int, fold: bool, f: int -> int, g: int -> int, u1: int, probe: int, u2: int)
    requires f(t) == g(t) && u1 == t - (g(t) - t) && f(u1) == g(u1)
    requires probe == u1 + (if fold then MAX_FOLD_SECONDS else -MAX_FOLD_SECONDS) && f(probe) == g(probe)
    requires u2 == t - (if g(u1) == t then g(probe) - probe else g(u1) - u1) && f(u2) == g(u2)
    ensures MkTime(t, fold, f) == MkTime(t, fold, g)
  {
  }

  /** With offsets under 24 hours `_mktime` does not look farther away than two days, so everything above
      holds of a clock with one transition near `t`. */
  lemma OnlyNearbyMatters(t: int, fold: bool, local: int -> int, c: Transition)
    requires SmallOffset(c.before) && SmallOffset(c.after) && NearbyClock(local, t, c)
    ensures MkTime(t, fold, local) == MkTime(t, fold, ClockOf(c))
  {
    At(local, t, c, t);
    var u1 := t - OffsetAt(c, t);
    At(local, t, c, u1);
    var probe := u1 + if fold then MAX_FOLD_SECONDS else -MAX_FOLD_SECONDS;
    At(local, t, c, probe);
    var u2 := t - if u1 + OffsetAt(c, u1) == t then OffsetAt(c, probe) else OffsetAt(c, u1);
    At(local, t, c, u2);
    SameAnswer(t, fold, local, ClockOf(c), u1, probe, u2);
  }

  /** If no offset anywhere reaches 24 hours, no second farther away shows `t` either: the answer is the
      right one among all seconds whenever it is found. */
  lemma SolvesNearby(t: int, fold: bool, local: int -> int, c: Transition, u: int)
    requires SmallOffset(c.before) && SmallOffset(c.after) && NearbyClock(local, t, c) && SmallOffset(local(u) - u)
    requires ShownBefore(t, c) && ShownAfter(t, c) ==> ProbeReaches(t, fold, c)
    ensures MkTime(t, fold, local) == Success(Wanted(t, fold, c))
    ensures local(u) == t ==>
      var v := Wanted(t, fold, c);
      local(v) == t && (if fold then u <= v else v <= u)
  {
    OnlyNearbyMatters(t, fold, local, c);
    ExactlyRight(t, fold, c);
    if local(u) == t {
      At(local, t, c, u);
      At(local, t, c, Wanted(t, fold, c));
      WantedIsRight(t, fold, c, u);
    }
  }
}
