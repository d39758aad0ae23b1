/** The rate limit on the Android log: a token bucket over an exact clock in seconds. */
module Logcat {
  const MAX_BYTES_PER_SECOND := 1048576.0
  const BUCKET_SIZE := 131072.0
  const PER_MESSAGE_OVERHEAD := 28

  type Byte = b: int | 0 <= b < 256

  function EncodeByte(b: Byte): seq<Byte> { if b == 0 then [0xC0, 0x80] else [b] }

  /** The bytes handed to the log: every null byte becomes the two bytes C0 80. */
  function Encode(message: seq<Byte>): seq<Byte> {
    if message == [] then [] else EncodeByte(message[0]) + Encode(message[1..])
  }

  lemma EncodeAt(message: seq<Byte>, i: nat)
    requires i < |message|
    ensures Encode(message[i..]) == EncodeByte(message[i]) + Encode(message[i + 1..])
  {
    assert message[i..][1..] == message[i + 1..];
  }

  /** What a reader of "modified UTF-8" sees. */
  function Decode(written: seq<Byte>): seq<Byte> {
    if written == [] then []
    else if |written| >= 2 && written[0] == 0xC0 && written[1] == 0x80 then [0] + Decode(written[2..])
    else [written[0]] + Decode(written[1..])
  }

  /** No null byte is left to cut the message short, and nothing is lost: C0 never occurs in UTF-8. */
  lemma {:induction false} EncodeIsReversible(message: seq<Byte>)
    requires 0xC0 !in message
    ensures 0 !in Encode(message) && Decode(Encode(message)) == message
  {
    if message != [] {
      var rest := Encode(message[1..]);
      EncodeIsReversible(message[1..]);
      var first := EncodeByte(message[0]);
      assert Encode(message) == first + rest && (first + rest)[|first|..] == rest;
      assert message == [message[0]] + message[1..];
    }
  }

  /** `message.replace(b"\x00", b"\xc0\x80")` */
  method Replace(message: seq<Byte>) returns (written: seq<Byte>)
    ensures written == Encode(message)
  {
    written := [];
    var i := 0;
    while i < |message|
      invariant 0 <= i <= |message| && Encode(message) == written + Encode(message[i..])
    {
      ghost var before := written;
      EncodeAt(message, i);
      written := written + EncodeByte(message[i]);
      assert before + (EncodeByte(message[i]) + Encode(message[i + 1..])) == written + Encode(message[i + 1..]);
      i := i + 1;
    }
  }

  function Max(a: real, b: real): real { if a < b then b else a }
  function Min(a: real, b: real): real { if b < a then b else a }

  datatype Bucket = Bucket(level: real, prevWriteTime: real)

  /** The level with what came in since the last write. */
  function Unclamped(b: Bucket, now: real): real {
    b.level + (now - b.prevWriteTime) * MAX_BYTES_PER_SECOND
  }

  /** The level when a write starts, before the message is paid for. */
  function Refilled(b: Bucket, now: real): real {
    Max(0.0, Min(Unclamped(b, now), BUCKET_SIZE))
  }

  function Charged(b: Bucket, now: real, cost: nat): Bucket {
    Bucket(Refilled(b, now) - cost as real, now)
  }

  /** How long the writer is told to sleep before it hands the message over. */
  function Pause(b: Bucket): real {
    if b.level < 0.0 then -b.level / MAX_BYTES_PER_SECOND else 0.0
  }

  class LogcatStream {
    var bucketLevel: real
    var prevWriteTime: real

    function State(): Bucket
      reads this
    {
      Bucket(bucketLevel, prevWriteTime)
    }

    constructor (now: real)
      ensures State() == Bucket(0.0, now)
    {
      bucketLevel, prevWriteTime := 0.0, now;
    }

    /** `write`, up to the call that hands `written` to the log after sleeping for `pause`. The encoded
        message is what is paid for. */
    method Write(now: real, tag: seq<Byte>, message: seq<Byte>) returns (written: seq<Byte>, pause: real)
      modifies this
      ensures written == Encode(message)
      ensures State() == Charged(old(State()), now, PER_MESSAGE_OVERHEAD + |tag| + |Encode(message)|)
      ensures pause == Pause(State())
    {
      written := Replace(message);
      bucketLevel := bucketLevel + (now - prevWriteTime) * MAX_BYTES_PER_SECOND;
      bucketLevel := Max(0.0, Min(bucketLevel, BUCKET_SIZE));
      prevWriteTime := now;
      bucketLevel := bucketLevel - (PER_MESSAGE_OVERHEAD + |tag| + |written|) as real;
      pause := 0.0;
      if bucketLevel < 0.0 {
        pause := -bucketLevel / MAX_BYTES_PER_SECOND;
      }
    }
  }

  /** One write: the clock reading at its start, the bytes paid for, the time of the hand-over. */
  datatype Event = Event(start: real, cost: nat, release: real)

  /** A run of writes from bucket `b`. The lock orders them; a sleep lasts at least as long as asked, and
      the clock does not run backwards from one hand-over to the next start. */
  ghost predicate IsRun(b: Bucket, events: seq<Event>)
    decreases |events|
  {
    events != [] ==>
      var e := events[0];
      var after := Charged(b, e.start, e.cost);
      && e.release >= e.start + Pause(after)
      && (|events| > 1 ==> events[1].start >= e.release)
      && IsRun(after, events[1..])
  }

  function TotalCost(events: seq<Event>): nat {
    if events == [] then 0 else events[0].cost + TotalCost(events[1..])
  }

  /** The bucket after some writes of a run. */
  function After(b: Bucket, events: seq<Event>): Bucket
    decreases |events|
  {
    if events == [] then b else After(Charged(b, events[0].start, events[0].cost), events[1..])
  }

  /** The debt that the resets to zero forgive ... */
  function Forgiven(b: Bucket, events: seq<Event>): real
    decreases |events|
  {
    if events == [] then 0.0
    else Max(0.0, -Unclamped(b, events[0].start)) + Forgiven(Charged(b, events[0].start, events[0].cost), events[1..])
  }

  /** ... and the bytes that a full bucket does not take. */
  function Overflowed(b: Bucket, events: seq<Event>): real
    decreases |events|
  {
    if events == [] then 0.0
    else Max(0.0, Unclamped(b, events[0].start) - BUCKET_SIZE)
         + Overflowed(Charged(b, events[0].start, events[0].cost), events[1..])
  }

  /** What is left in the bucket at the hand-over of the last write. */
  function LeftOver(b: Bucket, events: seq<Event>): real
    requires events != []
  {
    Unclamped(After(b, events), events[|events| - 1].release)
  }

  /** The books balance for any clock and any sleeps: what a block of writes pays is what was there, what
      came in and what was forgiven, less what overflowed and what is left over. */
  lemma {:induction false} Balance(b: Bucket, events: seq<Event>)
    requires events != []
    ensures var after := Charged(b, events[0].start, events[0].cost);
            TotalCost(events) as real ==
              Refilled(b, events[0].start) + MAX_BYTES_PER_SECOND * (events[|events| - 1].release - events[0].start)
              + Forgiven(after, events[1..]) - Overflowed(after, events[1..]) - LeftOver(b, events)
    decreases |events|
  {
    var after, rest := Charged(b, events[0].start, events[0].cost), events[1..];
    assert TotalCost(events) == events[0].cost + TotalCost(rest) && After(b, events) == After(after, rest);
    if rest == [] {
      assert TotalCost(rest) == 0 && After(after, rest) == after;
    } else {
      Balance(after, rest);
      assert rest[|rest| - 1] == events[|events| - 1] && LeftOver(after, rest) == LeftOver(b, events);
      ClampSplits(Unclamped(after, rest[0].start));
    }
  }

  lemma ClampSplits(x: real)
    ensures Max(0.0, Min(x, BUCKET_SIZE)) == x + Max(0.0, -x) - Max(0.0, x - BUCKET_SIZE)
  {
  }

  lemma {:induction false} NeverNegative(b: Bucket, events: seq<Event>)
    ensures Forgiven(b, events) >= 0.0 && Overflowed(b, events) >= 0.0
    decreases |events|
  {
    if events != [] { NeverNegative(Charged(b, events[0].start, events[0].cost), events[1..]); }
  }

  /** Whatever the clock does, a block costs at most the level it started with, the bytes allowed
      during it and the debt forgiven in it, if the last sleep is honoured. */
  lemma CostForAnyClock(b: Bucket, events: seq<Event>)
    requires events != [] && events[|events| - 1].release >= events[|events| - 1].start + Pause(After(b, events))
    ensures TotalCost(events) as real
         <= Refilled(b, events[0].start) + MAX_BYTES_PER_SECOND * (events[|events| - 1].release - events[0].start)
            + Forgiven(Charged(b, events[0].start, events[0].cost), events[1..])
  {
    var after, last := Charged(b, events[0].start, events[0].cost), events[|events| - 1];
    Balance(b, events);
    NeverNegative(after, events[1..]);
    LastWriteTime(b, events);
    assert LeftOver(b, events) >= 0.0;
  }

  lemma {:induction false} LastWriteTime(b: Bucket, events: seq<Event>)
    requires events != []
    ensures After(b, events).prevWriteTime == events[|events| - 1].start
    decreases |events|
  {
    if |events| > 1 {
      LastWriteTime(Charged(b, events[0].start, events[0].cost), events[1..]);
    } else {
      assert events[1..] == [];
    }
  }

  /** In a run, the level is never below zero when the next write starts: the reset to zero happens
      only for a clock that ran backwards or a sleep cut short. */
  lemma NeverReset(b: Bucket, first: Event, next: Event)
    requires IsRun(b, [first, next])
    ensures Unclamped(Charged(b, first.start, first.cost), next.start) >= 0.0
  {
    assert [first, next][1..] == [next];
  }

  lemma {:induction false} NothingForgiven(b: Bucket, events: seq<Event>)
    requires IsRun(b, events) && events != []
    ensures Forgiven(Charged(b, events[0].start, events[0].cost), events[1..]) == 0.0
    ensures events[|events| - 1].release >= events[|events| - 1].start + Pause(After(b, events))
    decreases |events|
  {
    var after := Charged(b, events[0].start, events[0].cost);
    if |events| > 1 {
      NothingForgiven(after, events[1..]);
    } else {
      assert events[1..] == [];
    }
  }

  lemma CostFromStart(b: Bucket, events: seq<Event>)
    requires IsRun(b, events) && events != []
    ensures TotalCost(events) as real
         <= Refilled(b, events[0].start) + MAX_BYTES_PER_SECOND * (events[|events| - 1].release - events[0].start)
  {
    NothingForgiven(b, events);
    CostForAnyClock(b, events);
  }

  lemma {:induction false} RunSplits(b: Bucket, before: seq<Event>, rest: seq<Event>)
    requires IsRun(b, before + rest)
    ensures IsRun(b, before) && IsRun(After(b, before), rest)
    decreases |before|
  {
    if before == [] {
      assert before + rest == rest;
    } else {
      assert (before + rest)[1..] == before[1..] + rest;
      RunSplits(Charged(b, before[0].start, before[0].cost), before[1..], rest);
    }
  }

  /** The rate limit: whatever the messages, any consecutive block of them pays for at most one full
      bucket and the bytes allowed between the start of its first and the hand-over of its last. */
  lemma RateBound(b: Bucket, events: seq<Event>, i: nat, j: nat)
    requires IsRun(b, events) && i <= j < |events|
    ensures TotalCost(events[i..j + 1]) as real
         <= BUCKET_SIZE + MAX_BYTES_PER_SECOND * (events[j].release - events[i].start)
  {
    var block, start := events[i..j + 1], After(b, events[..i]);
    assert block[0] == events[i] && block[|block| - 1] == events[j];
    assert IsRun(start, block) by {
      assert events == events[..i] + events[i..] && events[i..] == block + events[j + 1..];
      RunSplits(b, events[..i], events[i..]);
      RunSplits(start, block, events[j + 1..]);
    }
    CostFromStart(start, block);
    assert Refilled(start, block[0].start) <= BUCKET_SIZE;
  }

  /** The bound on a block, whatever the clock. */
  ghost predicate WithinRate(events: seq<Event>)
    requires events != []
  {
    TotalCost(events) as real <= BUCKET_SIZE + MAX_BYTES_PER_SECOND * (events[|events| - 1].release - events[0].start)
  }

  /** Exactly when a block keeps the bound under any clock and any sleeps: the debt forgiven in it is made
      up for by what the bucket lacked at its start, what overflowed and what is left over. */
  lemma WithinRateExactly(b: Bucket, events: seq<Event>)
    requires events != []
    ensures var after := Charged(b, events[0].start, events[0].cost);
            WithinRate(events) <==>
            Forgiven(after, events[1..]) <=
            (BUCKET_SIZE - Refilled(b, events[0].start)) + Overflowed(after, events[1..]) + LeftOver(b, events)
  {
    Balance(b, events);
  }

  /** In the tight case, two writes from a full bucket with exact sleeps that use up all there is, the
      bound is kept exactly if the clock did not forgive the first write's debt. */
  lemma ForgivenDebt(b: Bucket, first: Event, second: Event)
    requires Refilled(b, first.start) == BUCKET_SIZE
    requires var before := Charged(b, first.start, first.cost);
             var after := Charged(before, second.start, second.cost);
             && Unclamped(before, second.start) <= BUCKET_SIZE && after.level <= 0.0
             && second.release == second.start + Pause(after)
    ensures WithinRate([first, second]) <==> Unclamped(Charged(b, first.start, first.cost), second.start) >= 0.0
  {
    var events := [first, second];
    var before := Charged(b, first.start, first.cost);
    var after := Charged(before, second.start, second.cost);
    assert events[1..] == [second] && [second][1..] == [];
    assert After(after, []) == after && After(before, [second]) == after && After(b, events) == after;
    assert Forgiven(after, []) == 0.0 && Overflowed(after, []) == 0.0;
    WithinRateExactly(b, events);
  }

  /** A clock that steps back does so: it goes back a second between two writes. */
  lemma ClockSteppedBack()
    ensures exists b, first: Event, second: Event ::
              && first.release == first.start + Pause(Charged(b, first.start, first.cost))
              && second.release == second.start + Pause(Charged(Charged(b, first.start, first.cost), second.start, second.cost))
              && second.start < first.release && !WithinRate([first, second])
  {
    var b := Bucket(131072.0, 0.0);
    var first := Event(0.0, 1179648, 1.0);
    var before := Charged(b, 0.0, 1179648);
    assert before == Bucket(-1048576.0, 0.0) && Pause(before) == 1.0;
    var after := Charged(before, 0.0, 28);
    assert after == Bucket(-28.0, 0.0);
    var second := Event(0.0, 28, Pause(after));
    ForgivenDebt(b, first, second);
  }
}
