/** The thread-local object of `_threading_local.py`: threads stepping through `_patch` in any order,
    with re-entrant accesses, thread deaths and reused thread ids. */
module ThreadLocal {
  import opened Wrappers

  type ThreadId = nat  // id(thread), which a later thread may get again
  type DictId = nat
  type Attributes = map<string, int>

  /** One activation of `_patch`. */
  datatype Frame =
    | Entered  // before get_dict
    | Initializing(dict: DictId)  // created the dictionary, running __init__
    | Ready(dict: DictId)  // waiting for the lock
    | Locked(dict: DictId)  // before installing the dictionary
    | Installed(dict: DictId)  // accessing the attribute

  /** The activations of one thread, innermost first. */
  datatype Stack = Empty | Push(top: Frame, rest: Stack)

  datatype Lock = Free | HeldBy(owner: ThreadId, count: nat)

  datatype State = State(
    stacks: map<ThreadId, Stack>,  // of the threads alive
    dicts: map<ThreadId, DictId>,  // _localimpl.dicts
    heap: map<DictId, Attributes>,  // all dictionaries ever created
    current: Option<DictId>,  // the object's __dict__, if one was installed
    lock: Lock)

  datatype Action =
    | Start(thread: ThreadId)
    | Die(thread: ThreadId)
    | Enter(thread: ThreadId)
    | Find(thread: ThreadId)
    | Create(thread: ThreadId, newDict: DictId)
    | EndInit(thread: ThreadId)
    | AbortInit(thread: ThreadId)
    | Acquire(thread: ThreadId)
    | Install(thread: ThreadId)
    | Read(thread: ThreadId, name: string, seen: Option<int>)
    | Write(thread: ThreadId, name: string, value: int)
    | Delete(thread: ThreadId, name: string)
    | Leave(thread: ThreadId)

  /** The object as `local.__new__` leaves it: only the creating thread has a dictionary. */
  function Initial(creator: ThreadId): State {
    State(map[creator := Empty], map[creator := 0], map[0 := map[]], None, Free)
  }

  function Lookup(d: Attributes, name: string): Option<int> {
    if name in d then Some(d[name]) else None
  }

  /** `s'` is `s` with the innermost activation of thread `t` replaced. */
  function WithTop(s: State, t: ThreadId, top: Frame): State
    requires t in s.stacks && s.stacks[t].Push?
  {
    s.(stacks := s.stacks[t := Push(top, s.stacks[t].rest)])
  }

  ghost predicate TopIs(s: State, t: ThreadId) {
    t in s.stacks && s.stacks[t].Push?
  }

  /** What one step does. Attribute accesses act on whatever dictionary is installed. */
  ghost predicate Next(s: State, a: Action, s': State) {
    var t := a.thread;
    match a
    case Start(_) => t !in s.stacks && s' == s.(stacks := s.stacks[t := Empty])
    case Die(_) =>
      t in s.stacks && s.stacks[t] == Empty && s' == s.(stacks := s.stacks - {t}, dicts := s.dicts - {t})
    case Enter(_) =>
      && t in s.stacks && (s.stacks[t] == Empty || s.stacks[t].top.Initializing? || s.stacks[t].top.Installed?)
      && s' == s.(stacks := s.stacks[t := Push(Entered, s.stacks[t])])
    case Find(_) =>
      TopIs(s, t) && s.stacks[t].top == Entered && t in s.dicts && s' == WithTop(s, t, Ready(s.dicts[t]))
    case Create(_, newDict) =>
      && TopIs(s, t) && s.stacks[t].top == Entered && t !in s.dicts && newDict !in s.heap
      && s' == WithTop(s, t, Initializing(newDict)).(dicts := s.dicts[t := newDict], heap := s.heap[newDict := map[]])
    case EndInit(_) =>
      TopIs(s, t) && s.stacks[t].top.Initializing? && s' == WithTop(s, t, Ready(s.stacks[t].top.dict))
    case AbortInit(_) =>
      TopIs(s, t) && s.stacks[t].top.Initializing? && s' == s.(stacks := s.stacks[t := s.stacks[t].rest])
    case Acquire(_) =>
      && TopIs(s, t) && s.stacks[t].top.Ready? && (s.lock.Free? || s.lock.owner == t)
      && s' == WithTop(s, t, Locked(s.stacks[t].top.dict)).(lock := HeldBy(t, 1 + if s.lock.Free? then 0 else s.lock.count))
    case Install(_) =>
      && TopIs(s, t) && s.stacks[t].top.Locked?
      && s' == WithTop(s, t, Installed(s.stacks[t].top.dict)).(current := Some(s.stacks[t].top.dict))
    case Read(_, name, value) =>
      && TopIs(s, t) && s.stacks[t].top.Installed? && s.current.Some? && s.current.value in s.heap
      && s' == s && value == Lookup(s.heap[s.current.value], name)
    case Write(_, name, value) =>
      && TopIs(s, t) && s.stacks[t].top.Installed? && s.current.Some? && s.current.value in s.heap
      && s' == s.(heap := s.heap[s.current.value := s.heap[s.current.value][name := value]])
    case Delete(_, name) =>
      && TopIs(s, t) && s.stacks[t].top.Installed? && s.current.Some? && s.current.value in s.heap
      && s' == s.(heap := s.heap[s.current.value := s.heap[s.current.value] - {name}])
    case Leave(_) =>
      && TopIs(s, t) && s.stacks[t].top.Installed? && s.lock.HeldBy? && s.lock.count > 0
      && s' == s.(stacks := s.stacks[t := s.stacks[t].rest],
                  lock := if s.lock.count == 1 then Free else HeldBy(s.lock.owner, s.lock.count - 1))
  }

  /** A run of the protocol: a step relation between consecutive states. */
  ghost predicate IsRun(states: seq<State>, actions: seq<Action>, creator: ThreadId) {
    && |states| == |actions| + 1 && states[0] == Initial(creator)
    && forall i :: 0 <= i < |actions| ==> Next(states[i], actions[i], states[i + 1])
  }

  /** What a thread's attributes ought to be: its own writes and deletions since it started. */
  function Expected(history: seq<Action>, t: ThreadId): Attributes {
    if history == [] then map[] else
      var before := Expected(history[..|history| - 1], t);
      match history[|history| - 1]
      case Start(t') => if t' == t then map[] else before
      case Write(t', name, value) => if t' == t then before[name := value] else before
      case Delete(t', name) => if t' == t then before - {name} else before
      case _ => before
  }

  // ---- the invariant ----

  predicate HoldsLock(f: Frame) { f.Locked? || f.Installed? }

  /** How many of the activations hold the lock. */
  function Holds(s: Stack): nat {
    if s.Empty? then 0 else Holds(s.rest) + if HoldsLock(s.top) then 1 else 0
  }

  predicate HasInstalled(s: Stack) {
    s.Push? && (s.top.Installed? || HasInstalled(s.rest))
  }

  /** Every activation that has a dictionary has this one. */
  predicate Carries(s: Stack, dict: Option<DictId>) {
    s.Push? ==> (s.top != Entered ==> dict == Some(s.top.dict)) && Carries(s.rest, dict)
  }

  function DictOf(s: State, t: ThreadId): Option<DictId> {
    if t in s.dicts then Some(s.dicts[t]) else None
  }

  /** What holds of each thread: it has its own dictionary with its own attributes, its activations
      use that dictionary, and it is the lock's owner exactly if it is inside. */
  ghost predicate ThreadOk(s: State, history: seq<Action>, t: ThreadId)
    requires t in s.stacks
  {
    && Carries(s.stacks[t], DictOf(s, t))
    && Holds(s.stacks[t]) == (if s.lock.HeldBy? && s.lock.owner == t then s.lock.count else 0)
    && (HasInstalled(s.stacks[t]) ==> t in s.dicts && s.current == Some(s.dicts[t]))
    && (t !in s.dicts ==> Expected(history, t) == map[])
    && (t in s.dicts ==> s.dicts[t] in s.heap && s.heap[s.dicts[t]] == Expected(history, t))
  }

  ghost predicate Inv(s: State, history: seq<Action>) {
    && (forall t :: t in s.dicts ==> t in s.stacks)
    && (forall t, u :: t in s.dicts && u in s.dicts && t != u ==> s.dicts[t] != s.dicts[u])
    && (s.lock.HeldBy? ==> s.lock.count > 0 && s.lock.owner in s.stacks)
    && (forall t :: t in s.stacks ==> ThreadOk(s, history, t))
  }

  lemma {:induction false} NoDictNoFrames(s: Stack, d: Option<DictId>)
    requires d.None? && Carries(s, d)
    ensures forall d' :: Carries(s, d')
    ensures !HasInstalled(s) && Holds(s) == 0
  {
    if s.Push? { NoDictNoFrames(s.rest, d); }
  }

  lemma {:induction false} InstalledHolds(s: Stack)
    requires HasInstalled(s)
    ensures Holds(s) > 0
  {
    if !s.top.Installed? { InstalledHolds(s.rest); }
  }

  lemma InitialInv(creator: ThreadId)
    ensures Inv(Initial(creator), [])
  {
  }

  /** Only the acting thread's expectation changes. */
  lemma ExpectedStep(history: seq<Action>, a: Action, t: ThreadId)
    ensures (history + [a])[..|history|] == history
    ensures t != a.thread ==> Expected(history + [a], t) == Expected(history, t)
  {
    assert (history + [a])[..|history|] == history;
  }

  /** Thread `t` is where it was: the same activations, the same dictionary, the same attributes in it. */
  ghost predicate Untouched(s: State, s': State, t: ThreadId) {
    && t in s.stacks && t in s'.stacks && s'.stacks[t] == s.stacks[t] && DictOf(s', t) == DictOf(s, t)
    && (t in s.dicts ==> s.dicts[t] in s.heap && s.dicts[t] in s'.heap && s'.heap[s.dicts[t]] == s.heap[s.dicts[t]])
  }

  lemma InstalledIsOwn(s: State, history: seq<Action>, t: ThreadId)
    requires Inv(s, history) && TopIs(s, t) && s.stacks[t].top.Installed?
    ensures t in s.dicts && s.current == Some(s.dicts[t])
  {
    assert ThreadOk(s, history, t) && HasInstalled(s.stacks[t]);
  }

  lemma OthersStep(s: State, a: Action, s': State, history: seq<Action>, t: ThreadId)
    requires Inv(s, history) && Next(s, a, s') && a.thread != t && t in s.stacks
    ensures Untouched(s, s', t)
  {
    assert ThreadOk(s, history, t);
    if a.Write? || a.Delete? { InstalledIsOwn(s, history, a.thread); }
  }

  /** What a step of another thread does to the lock and the installed dictionary does not concern a
      thread that is outside. */
  lemma OtherThreadOk(s: State, a: Action, s': State, history: seq<Action>, t: ThreadId)
    requires Inv(s, history) && Next(s, a, s') && a.thread != t && t in s.stacks
    ensures ThreadOk(s', history + [a], t)
  {
    ExpectedStep(history, a, t);
    OthersStep(s, a, s', history, t);
    NoDictOrDict(s, history, t);
    if a.thread in s.stacks { OthersLock(s, a, s', history, t); }
  }

  lemma OthersLock(s: State, a: Action, s': State, history: seq<Action>, t: ThreadId)
    requires Inv(s, history) && Next(s, a, s') && a.thread != t && t in s.stacks && a.thread in s.stacks
    ensures (s'.lock.HeldBy? && s'.lock.owner == t) == (s.lock.HeldBy? && s.lock.owner == t)
    ensures s.lock.HeldBy? && s.lock.owner == t ==> s'.lock == s.lock && s'.current == s.current
  {
    assert ThreadOk(s, history, a.thread);
    NoDictOrDict(s, history, a.thread);
  }

  lemma OwnThreadOk(s: State, a: Action, s': State, history: seq<Action>, t: ThreadId)
    requires Inv(s, history) && Next(s, a, s') && a.thread == t && t in s'.stacks
    ensures ThreadOk(s', history + [a], t)
  {
    assert (history + [a])[..|history|] == history;
    if t in s.stacks { NoDictOrDict(s, history, t); }
    if a.Create? {
      assert Carries(s.stacks[t], None) && Carries(s.stacks[t].rest, None);
      NoDictNoFrames(s.stacks[t].rest, None);
    }
  }

  lemma NoDictOrDict(s: State, history: seq<Action>, t: ThreadId)
    requires t in s.stacks && ThreadOk(s, history, t)
    ensures t !in s.dicts ==> (forall d :: Carries(s.stacks[t], d)) && !HasInstalled(s.stacks[t]) && Holds(s.stacks[t]) == 0
    ensures HasInstalled(s.stacks[t]) ==> s.lock.HeldBy? && s.lock.owner == t
  {
    if t !in s.dicts { NoDictNoFrames(s.stacks[t], None); }
    if HasInstalled(s.stacks[t]) { InstalledHolds(s.stacks[t]); }
  }

  lemma DictsStayApart(s: State, a: Action, s': State, history: seq<Action>)
    requires Inv(s, history) && Next(s, a, s')
    ensures forall t :: t in s'.dicts ==> t in s'.stacks
    ensures forall t, u :: t in s'.dicts && u in s'.dicts && t != u ==> s'.dicts[t] != s'.dicts[u]
    ensures s'.lock.HeldBy? ==> s'.lock.count > 0 && s'.lock.owner in s'.stacks
  {
    assert forall t :: t in s.dicts ==> ThreadOk(s, history, t);
  }

  lemma NextKeepsInv(s: State, a: Action, s': State, history: seq<Action>)
    requires Inv(s, history) && Next(s, a, s')
    ensures Inv(s', history + [a])
  {
    forall t | t in s'.stacks ensures ThreadOk(s', history + [a], t) {
      if a.thread == t {
        OwnThreadOk(s, a, s', history, t);
      } else {
        OtherThreadOk(s, a, s', history, t);
      }
    }
    DictsStayApart(s, a, s', history);
  }

  /** Every state a run reaches satisfies the invariant. */
  lemma {:induction false} RunInv(states: seq<State>, actions: seq<Action>, creator: ThreadId, i: nat)
    requires IsRun(states, actions, creator) && i <= |actions|
    ensures Inv(states[i], actions[..i])
    decreases i
  {
    if i == 0 {
      InitialInv(creator);
    } else {
      RunInv(states, actions, creator, i - 1);
      NextKeepsInv(states[i - 1], actions[i - 1], states[i], actions[..i - 1]);
      assert actions[..i] == actions[..i - 1] + [actions[i - 1]];
    }
  }

  /** Whatever the interleaving, a read returns the running thread's own last write, and an access
      finds the running thread's own dictionary installed. */
  lemma ReadsOwnWrites(states: seq<State>, actions: seq<Action>, creator: ThreadId, i: nat)
    requires IsRun(states, actions, creator) && i < |actions|
    requires actions[i].Read? || actions[i].Write? || actions[i].Delete?
    ensures var t := actions[i].thread;
            && t in states[i].dicts && states[i].current == Some(states[i].dicts[t])
            && (actions[i].Read? ==> actions[i].seen == Lookup(Expected(actions[..i], t), actions[i].name))
  {
    RunInv(states, actions, creator, i);
    var t := actions[i].thread;
    assert Next(states[i], actions[i], states[i + 1]);
    assert ThreadOk(states[i], actions[..i], t) && HasInstalled(states[i].stacks[t]);
  }

  /** Never are two threads between acquiring and releasing the lock. */
  lemma OneThreadInside(states: seq<State>, actions: seq<Action>, creator: ThreadId, i: nat, t: ThreadId, u: ThreadId)
    requires IsRun(states, actions, creator) && i <= |actions| && t in states[i].stacks && u in states[i].stacks
    requires Holds(states[i].stacks[t]) > 0 && Holds(states[i].stacks[u]) > 0
    ensures t == u
  {
    RunInv(states, actions, creator, i);
    assert ThreadOk(states[i], actions[..i], t) && ThreadOk(states[i], actions[..i], u);
  }

  /** However many steps other threads take, a thread finds its own dictionary with the attributes it
      left there. */
  lemma {:induction false} OthersDoNotInterfere(states: seq<State>, actions: seq<Action>, creator: ThreadId, i: nat, j: nat,
                                                t: ThreadId)
    requires IsRun(states, actions, creator) && i <= j <= |actions| && t in states[i].stacks
    requires forall k :: i <= k < j ==> actions[k].thread != t
    ensures Untouched(states[i], states[j], t)
    decreases j - i
  {
    if i == j {
      RunInv(states, actions, creator, i);
      assert ThreadOk(states[i], actions[..i], t);
    } else {
      OthersDoNotInterfere(states, actions, creator, i, j - 1, t);
      RunInv(states, actions, creator, j - 1);
      OthersStep(states[j - 1], actions[j - 1], states[j], actions[..j - 1], t);
    }
  }

  /** A new thread starts without attributes, even when it gets the id of one that died. */
  lemma NewThreadStartsEmpty(states: seq<State>, actions: seq<Action>, creator: ThreadId, i: nat)
    requires IsRun(states, actions, creator) && i < |actions| && actions[i].Start?
    ensures actions[i].thread !in states[i + 1].dicts
    ensures Expected(actions[..i + 1], actions[i].thread) == map[]
  {
    RunInv(states, actions, creator, i);
    assert actions[..i + 1][..i] == actions[..i];
  }
}
