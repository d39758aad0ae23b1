/** A set of weak references whose removals wait while an iteration is running.

    The garbage collector is part of the model: `dead` holds the objects collected so far, and a
    death is one step that also runs the callback of the reference, if the set still holds it. */
module WeakSets {
  import opened Wrappers

  /** What a caller passes: an object that weak references can point to, or one they cannot. */
  datatype Object = Referable(id: nat) | Unreferable

  predicate Distinct(s: seq<nat>) {
    forall i, j :: 0 <= i < j < |s| ==> s[i] != s[j]
  }

  function Elements(s: seq<nat>): set<nat> {
    set x | x in s
  }

  lemma DropLast(s: seq<nat>)
    requires Distinct(s) && s != []
    ensures Distinct(s[..|s| - 1])
    ensures Elements(s[..|s| - 1]) == Elements(s) - {s[|s| - 1]}
  {
    assert s == s[..|s| - 1] + [s[|s| - 1]];
  }

  lemma Append(s: seq<nat>, x: nat)
    requires Distinct(s) && x !in s
    ensures Distinct(s + [x]) && Elements(s + [x]) == Elements(s) + {x}
  {
    assert s == (s + [x])[..|s|];
  }

  lemma NoneDead(data: set<nat>, dead: set<nat>)
    requires data * dead == {}
    ensures data - dead == data
  {
    assert forall x :: x in data && x in dead ==> x in data * dead;
  }

  lemma {:induction false} DistinctCount(s: seq<nat>)
    requires Distinct(s)
    ensures |Elements(s)| == |s|
  {
    if s != [] {
      DropLast(s);
      DistinctCount(s[..|s| - 1]);
    }
  }

  class WeakSet {
    var data: set<nat>
    var pendingRemovals: seq<nat>
    var iterating: set<nat>
    var dead: set<nat>

    /** The members a caller can still obtain. */
    function Live(): set<nat>
      reads this
    {
      data - dead
    }

    ghost predicate Valid()
      reads this
    {
      && Distinct(pendingRemovals)
      && Elements(pendingRemovals) == data * dead
      && (iterating == {} ==> pendingRemovals == [])
    }

    constructor ()
      ensures Valid() && Live() == {} && iterating == {} && dead == {}
    {
      data, pendingRemovals, iterating, dead := {}, [], {}, {};
    }

    /** One death, with the callback that the set attached to its reference. While an iteration is
        running the set itself is left alone. */
    method Die(item: nat)
      requires Valid() && item !in dead
      modifies this`data, this`pendingRemovals, this`dead
      ensures Valid() && dead == old(dead) + {item} && Live() == old(Live()) - {item}
      ensures data == if iterating == {} then old(data) - {item} else old(data)
    {
      dead := dead + {item};
      if item in data {
        if |iterating| > 0 {
          assert item !in Elements(pendingRemovals);
          Append(pendingRemovals, item);
          pendingRemovals := pendingRemovals + [item];
        } else {
          data := data - {item};
        }
      }
    }

    /** Any number of deaths between two steps of the program. */
    method Collect(doomed: set<nat>)
      requires Valid()
      modifies this`data, this`pendingRemovals, this`dead
      ensures Valid() && dead == old(dead) + doomed && Live() == old(Live()) - doomed
      ensures iterating != {} ==> data == old(data)
    {
      var rest := doomed - dead;
      while |rest| > 0
        invariant Valid() && rest <= doomed && rest !! dead
        invariant dead == old(dead) + (doomed - rest) && Live() == old(Live()) - (doomed - rest)
        invariant iterating != {} ==> data == old(data)
      {
        var item := Pick(rest);
        Die(item);
        rest := rest - {item};
      }
    }

    method CommitRemovals()
      requires Distinct(pendingRemovals) && Elements(pendingRemovals) == data * dead
      modifies this`data, this`pendingRemovals
      ensures Valid() && pendingRemovals == [] && data == old(Live())
    {
      while |pendingRemovals| > 0
        invariant Distinct(pendingRemovals) && Elements(pendingRemovals) == data * dead
        invariant Live() == old(Live())
      {
        DropLast(pendingRemovals);
        var item := pendingRemovals[|pendingRemovals| - 1];
        assert item in Elements(pendingRemovals);
        pendingRemovals := pendingRemovals[..|pendingRemovals| - 1];
        data := data - {item};
      }
      NoneDead(data, dead);
    }

    method EnterIteration(guard: nat)
      requires Valid()
      modifies this`iterating
      ensures Valid() && iterating == old(iterating) + {guard}
    {
      iterating := iterating + {guard};
    }

    /** The last guard to leave clears the set of dead references. */
    method ExitIteration(guard: nat)
      requires Valid() && guard in iterating
      modifies this`data, this`pendingRemovals, this`iterating
      ensures Valid() && iterating == old(iterating) - {guard} && Live() == old(Live())
      ensures data == if iterating == {} then old(Live()) else old(data)
    {
      iterating := iterating - {guard};
      if |iterating| == 0 {
        CommitRemovals();
      }
    }

    method Len() returns (n: nat)
      requires Valid()
      ensures n == |Live()|
    {
      DistinctCount(pendingRemovals);
      assert data == Live() + data * dead && Live() !! data * dead;
      n := |data| - |pendingRemovals|;
    }

    method Contains(item: Object) returns (found: bool)
      requires Valid() && (item.Referable? ==> item.id !in dead)
      ensures found <==> item.Referable? && item.id in Live()
    {
      match item
      case Unreferable => found := false;
      case Referable(id) => found := id in data;
    }

    /** `add`; a value that cannot be referenced weakly raises `TypeError`, after the pending removals
        are committed. */
    method Add(item: Object) returns (result: Result<(), string>)
      requires Valid() && (item.Referable? ==> item.id !in dead)
      modifies this`data, this`pendingRemovals
      ensures Valid() && pendingRemovals == [] && result.Success? == item.Referable?
      ensures Live() == old(Live()) + if item.Referable? then {item.id} else {}
    {
      if |pendingRemovals| > 0 {
        CommitRemovals();
      }
      match item
      case Unreferable =>
        result := Failure("TypeError: cannot create weak reference");
      case Referable(id) =>
        data := data + {id};
        result := Success(());
    }

    method Discard(item: Object) returns (result: Result<(), string>)
      requires Valid() && (item.Referable? ==> item.id !in dead)
      modifies this`data, this`pendingRemovals
      ensures Valid() && pendingRemovals == [] && result.Success? == item.Referable?
      ensures Live() == old(Live()) - if item.Referable? then {item.id} else {}
    {
      if |pendingRemovals| > 0 {
        CommitRemovals();
      }
      match item
      case Unreferable =>
        result := Failure("TypeError: cannot create weak reference");
      case Referable(id) =>
        data := data - {id};
        result := Success(());
    }

    method Remove(item: Object) returns (result: Result<(), string>)
      requires Valid() && (item.Referable? ==> item.id !in dead)
      modifies this`data, this`pendingRemovals
      ensures Valid() && pendingRemovals == []
      ensures result.Success? <==> item.Referable? && item.id in old(Live())
      ensures Live() == old(Live()) - if item.Referable? then {item.id} else {}
    {
      if |pendingRemovals| > 0 {
        CommitRemovals();
      }
      match item
      case Unreferable =>
        result := Failure("TypeError: cannot create weak reference");
      case Referable(id) =>
        if id !in data {
          return Failure("KeyError");
        }
        data := data - {id};
        result := Success(());
    }

    method Clear()
      requires Valid()
      modifies this`data, this`pendingRemovals
      ensures Valid() && data == {} && Live() == {}
    {
      if |pendingRemovals| > 0 {
        CommitRemovals();
      }
      data := {};
    }

    /** `pop`. Once the pending removals are committed no reference in the set is dead, so the retry for
        a dead reference is never taken: the first element popped is returned. */
    method Pop() returns (result: Result<nat, string>)
      requires Valid()
      modifies this`data, this`pendingRemovals
      ensures Valid() && pendingRemovals == []
      ensures result.Failure? <==> old(Live()) == {}
      ensures result.Success? ==> result.value in old(Live()) && Live() == old(Live()) - {result.value}
      ensures result.Failure? ==> Live() == {}
    {
      if |pendingRemovals| > 0 {
        CommitRemovals();
      }
      NoneDead(data, dead);
      if |data| == 0 {
        return Failure("KeyError: pop from empty WeakSet");
      }
      var item := Pick(data);
      assert item !in dead;
      data := data - {item};
      return Success(item);
    }
  }

  /** One run of `__iter__`: the members it has not looked at yet, what it yielded, the contents of the
      set when it started, and who was dead then and at each yield. */
  datatype Generator = Generator(rest: set<nat>, yielded: seq<nat>, snapshot: set<nat>, start: set<nat>, deadAt: seq<set<nat>>)

  /** Every item was alive when it was yielded; deaths are never undone. */
  ghost predicate YieldedAlive(g: Generator, dead: set<nat>) {
    && |g.deadAt| == |g.yielded| && g.start <= dead
    && forall k :: 0 <= k < |g.yielded| ==> g.yielded[k] !in g.deadAt[k] && g.start <= g.deadAt[k] <= dead
  }

  /** Nothing was yielded twice, and what is not ahead was yielded or is dead. */
  ghost predicate OnCourse(g: Generator, dead: set<nat>) {
    && Distinct(g.yielded) && YieldedAlive(g, dead)
    && g.rest <= g.snapshot && Elements(g.yielded) <= g.snapshot - g.rest
    && g.snapshot - g.rest <= Elements(g.yielded) + dead
  }

  lemma MoreDeaths(g: Generator, dead: set<nat>, more: set<nat>)
    requires OnCourse(g, dead) && dead <= more
    ensures OnCourse(g, more)
  {
  }

  lemma LookAt(g: Generator, dead: set<nat>, item: nat)
    requires OnCourse(g, dead) && item in g.rest
    ensures item in dead ==> OnCourse(g.(rest := g.rest - {item}), dead)
    ensures item !in g.yielded
    ensures item !in dead ==>
      OnCourse(g.(rest := g.rest - {item}, yielded := g.yielded + [item], deadAt := g.deadAt + [dead]), dead)
  {
    assert item !in Elements(g.yielded);
    Append(g.yielded, item);
    assert g.snapshot - (g.rest - {item}) == g.snapshot - g.rest + {item};
    var next := g.(rest := g.rest - {item}, yielded := g.yielded + [item], deadAt := g.deadAt + [dead]);
    if item !in dead {
      forall k | 0 <= k < |next.yielded|
        ensures next.yielded[k] !in next.deadAt[k] && next.start <= next.deadAt[k] <= dead
      {
        if k < |g.yielded| { assert next.yielded[k] == g.yielded[k] && next.deadAt[k] == g.deadAt[k]; }
      }
    }
  }

  /** The loop of `__iter__` up to its next `yield`, or its end. */
  method NextAlive(g: Generator, dead: set<nat>) returns (next: Generator, item: Option<nat>)
    requires OnCourse(g, dead)
    ensures OnCourse(next, dead) && next.snapshot == g.snapshot
    ensures item.None? ==> next.rest == {} && next.yielded == g.yielded
    ensures item.Some? ==> item.value in g.rest - dead && item.value !in g.yielded && next.yielded == g.yielded + [item.value]
  {
    next := g;
    while |next.rest| > 0
      invariant OnCourse(next, dead) && next.snapshot == g.snapshot && next.yielded == g.yielded && next.rest <= g.rest
    {
      var candidate := Pick(next.rest);
      LookAt(next, dead, candidate);
      next := next.(rest := next.rest - {candidate});
      if candidate !in dead {
        next := next.(yielded := next.yielded + [candidate], deadAt := next.deadAt + [dead]);
        return next, Some(candidate);
      }
    }
    return next, None;
  }

  /** A completed iteration: every survivor was yielded, and only members that were alive at its start. */
  lemma Completed(g: Generator, dead: set<nat>)
    requires OnCourse(g, dead) && g.rest == {}
    ensures g.snapshot - dead <= Elements(g.yielded) <= g.snapshot - g.start
  {
    assert g.snapshot - {} == g.snapshot;
    forall x | x in Elements(g.yielded) ensures x !in g.start {
      var k :| 0 <= k < |g.yielded| && g.yielded[k] == x;
      assert g.yielded[k] !in g.deadAt[k];
    }
  }

  /** All iterations over one set, by the guard each of them holds. They start, step, end and are given up
      in any order, with deaths in between. */
  class Iterations {
    const items: WeakSet
    var running: map<nat, Generator>
    var finished: map<nat, Generator>

    ghost predicate Valid()
      reads this, items
    {
      && items.Valid() && running.Keys == items.iterating
      && (forall id :: id in running ==> running[id].snapshot == items.data && OnCourse(running[id], items.dead))
      && (forall id :: id in finished ==> finished[id].rest == {} && OnCourse(finished[id], items.dead))
    }

    constructor (items: WeakSet)
      requires items.Valid() && items.iterating == {}
      ensures Valid() && this.items == items && running == finished == map[]
    {
      this.items, running, finished := items, map[], map[];
    }

    /** Deaths while all iterations are suspended: none of them notices, and the set keeps its size. */
    method Collect(doomed: set<nat>)
      requires Valid()
      modifies items`data, items`pendingRemovals, items`dead
      ensures Valid() && items.dead == old(items.dead) + doomed && items.Live() == old(items.Live()) - doomed
      ensures running != map[] ==> items.data == old(items.data)
    {
      ghost var before := items.dead;
      items.Collect(doomed);
      assert running != map[] ==> items.iterating != {} by {
        if running != map[] { assert running.Keys != {}; }
      }
      forall id | id in running ensures running[id].snapshot == items.data && OnCourse(running[id], items.dead) {
        MoreDeaths(running[id], before, items.dead);
      }
      forall id | id in finished ensures OnCourse(finished[id], items.dead) {
        MoreDeaths(finished[id], before, items.dead);
      }
    }

    /** The start of an iteration, up to the interpreter's iterator over the set. */
    method Start(id: nat)
      requires Valid() && id !in running
      modifies this`running, items`iterating
      ensures Valid() && running == old(running)[id := Generator(items.data, [], items.data, items.dead, [])]
    {
      items.EnterIteration(id);
      running := running[id := Generator(items.data, [], items.data, items.dead, [])];
    }

    /** One step of an iteration: a member that is alive and was not yielded before, or the end. At the
        end every member of its set that is still alive was yielded; the last iteration to end leaves no
        dead reference. The interpreter stops an iteration over a set whose size changed, and the
        assertion says that never happens. */
    method Resume(id: nat) returns (item: Option<nat>)
      requires Valid() && id in running
      modifies this, items`data, items`pendingRemovals, items`iterating
      ensures Valid() && items.dead == old(items.dead) && items.Live() == old(items.Live())
      ensures item.Some? ==>
        && items.iterating == old(items.iterating) && items.data == old(items.data) && finished == old(finished)
        && item.value in items.Live() && item.value !in old(running[id].yielded)
        && id in running && running[id].yielded == old(running[id].yielded) + [item.value]
        && running == old(running)[id := running[id]]
      ensures item.None? ==>
        && running == old(running) - {id} && id in finished && finished == old(finished)[id := finished[id]]
        && finished[id].yielded == old(running[id].yielded)
        && finished[id].snapshot == old(items.data) && finished[id].snapshot - items.dead <= Elements(finished[id].yielded)
        && items.data == if running == map[] then items.Live() else old(items.data)
    {
      assert |items.data| == |running[id].snapshot|;
      var g;
      g, item := NextAlive(running[id], items.dead);
      if item.Some? {
        running := running[id := g];
      } else {
        Completed(g, items.dead);
        Leave(id);
        finished := finished[id := g];
      }
    }

    /** An iteration that is given up before its end. */
    method Close(id: nat)
      requires Valid() && id in running
      modifies this`running, items`data, items`pendingRemovals, items`iterating
      ensures Valid() && running == old(running) - {id} && items.Live() == old(items.Live())
      ensures items.data == if running == map[] then items.Live() else old(items.data)
    {
      Leave(id);
    }

    /** The guard's exit, at the end of an iteration or when it is given up. */
    method Leave(id: nat)
      requires Valid() && id in running
      modifies this`running, items`data, items`pendingRemovals, items`iterating
      ensures Valid() && running == old(running) - {id} && items.Live() == old(items.Live())
      ensures items.data == if running == map[] then items.Live() else old(items.data)
    {
      items.ExitIteration(id);
      running := running - {id};
      assert running.Keys == items.iterating;
      assert running != map[] ==> items.iterating != {} by {
        if running != map[] { assert running.Keys != {}; }
      }
    }
  }
}
