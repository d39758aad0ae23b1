/** The abstract base class machinery of `_py_abc.py`: `register()`, and the positive and versioned
    negative caches behind `issubclass()` and `isinstance()`. */
module AbcMeta {
  import opened Wrappers
  import opened ClassGraph

  datatype AbcError = TypeError | RuntimeError

  /** A Python class. Only one whose metaclass is `ABCMeta` uses the `_abc_` attributes. */
  class PyClass {
    const isAbc: bool
    const mro: set<PyClass>  // the members of __mro__
    var subclasses: set<PyClass>  // __subclasses__()
    var registry: set<PyClass>
    var cache: set<PyClass>
    var negativeCache: set<PyClass>
    var negativeVersion: nat

    constructor (isAbc: bool, inherited: set<PyClass>, version: nat)
      ensures this.isAbc == isAbc && mro == inherited + {this}
      ensures subclasses == registry == cache == negativeCache == {} && negativeVersion == version
    {
      this.isAbc := isAbc;
      mro := inherited + {this};
      subclasses, registry, cache, negativeCache, negativeVersion := {}, {}, {}, {}, version;
    }

    /** The classes this class's own check goes on to ask; only an ABC looks beyond the MRO. */
    ghost function Successors(): set<PyClass>
      reads this`registry, this`subclasses
    {
      if isAbc then registry + subclasses else {}
    }
  }

  /** What `issubclass(s, c)` means: from `c`, steps to registered classes and to subclasses lead
      to a class that `s` inherits from. */
  ghost predicate IsSubclass(g: Graph<PyClass>, s: PyClass, c: PyClass) {
    exists d :: d in s.mro && Reaches(g, c, d)
  }

  /** The same answer by the recursive walk, without any cache. */
  ghost predicate Walk(g: Graph<PyClass>, s: PyClass, c: PyClass)
    requires Acyclic(g)
    decreases Below(g, c)
  {
    c in s.mro || (c in g && exists d :: d in g[c] && Descends(g, c, d) && Walk(g, s, d))
  }

  ghost predicate Descends(g: Graph<PyClass>, c: PyClass, d: PyClass)
    requires Acyclic(g) && Edge(g, c, d)
    ensures Descends(g, c, d) && Below(g, d) < Below(g, c)
  {
    BelowShrinks(g, c, d);
    true
  }

  lemma {:induction false} WalkIsSubclass(g: Graph<PyClass>, s: PyClass, c: PyClass)
    requires Acyclic(g)
    ensures Walk(g, s, c) <==> IsSubclass(g, s, c)
    decreases Below(g, c)
  {
    if c in g {
      forall d | d in g[c] ensures Walk(g, s, d) <==> IsSubclass(g, s, d) {
        BelowShrinks(g, c, d);
        WalkIsSubclass(g, s, d);
      }
    }
    IsSubclassStep(g, s, c);
  }

  /** One step of the walk: the class itself, or one of its registered classes and subclasses. */
  lemma IsSubclassStep(g: Graph<PyClass>, s: PyClass, c: PyClass)
    ensures IsSubclass(g, s, c) <==> c in s.mro || (c in g && exists d :: d in g[c] && IsSubclass(g, s, d))
  {
    ReachesSelf(g, c);
    if IsSubclass(g, s, c) && c !in s.mro {
      var d :| d in s.mro && Reaches(g, c, d);
      var n: nat :| d in Within(g, c, n);
      FirstEdge(g, c, d, n);
    }
    if c in g && exists d :: d in g[c] && IsSubclass(g, s, d) {
      var d :| d in g[c] && IsSubclass(g, s, d);
      var e :| e in s.mro && Reaches(g, d, e);
      EdgeThenReaches(g, c, d, e);
    }
  }

  /** What a registration changes: exactly the classes inheriting from or registered below the
      registered class become subclasses of everything above the registering one. */
  lemma RegistrationEffect(g: Graph<PyClass>, cls: PyClass, sub: PyClass, s: PyClass, c: PyClass)
    requires cls in g
    ensures IsSubclass(WithEdge(g, cls, sub), s, c) <==> IsSubclass(g, s, c) || (Reaches(g, c, cls) && IsSubclass(g, s, sub))
  {
    var g' := WithEdge(g, cls, sub);
    if IsSubclass(g', s, c) {
      var d :| d in s.mro && Reaches(g', c, d);
      WithEdgeReaches(g, cls, sub, c, d);
    }
    if IsSubclass(g, s, c) {
      var d :| d in s.mro && Reaches(g, c, d);
      WithEdgeReaches(g, cls, sub, c, d);
    }
    if Reaches(g, c, cls) && IsSubclass(g, s, sub) {
      var d :| d in s.mro && Reaches(g, sub, d);
      WithEdgeReaches(g, cls, sub, c, d);
    }
  }

  /** Neither a subclass of the other: an edge between them is new and closes no cycle. */
  lemma NewEdge(g: Graph<PyClass>, cls: PyClass, sub: PyClass)
    requires cls in g && cls in cls.mro && sub in sub.mro && !IsSubclass(g, sub, cls) && !IsSubclass(g, cls, sub)
    ensures !Reaches(g, sub, cls) && WithEdge(g, cls, sub) != g
  {
    IsSubclassStep(g, sub, sub);
    IsSubclassStep(g, sub, cls);
  }

  lemma CacheStaysSound(g: Graph<PyClass>, cls: PyClass, sub: PyClass, cache: set<PyClass>, c: PyClass)
    requires cls in g && forall s :: s in cache ==> IsSubclass(g, s, c)
    ensures forall s :: s in cache ==> IsSubclass(WithEdge(g, cls, sub), s, c)
  {
    forall s | s in cache ensures IsSubclass(WithEdge(g, cls, sub), s, c) { RegistrationEffect(g, cls, sub, s, c); }
  }

  /** Creating a class leaves every answer about the classes there were. */
  lemma LeafKeepsSubclass(g: Graph<PyClass>, k: PyClass, parents: set<PyClass>, s: PyClass, c: PyClass)
    requires k !in g && Closed(g) && Acyclic(g) && c in g && s.mro <= g.Keys
    ensures IsSubclass(WithLeaf(g, k, parents), s, c) <==> IsSubclass(g, s, c)
  {
    WithLeafReaches(g, k, parents);
  }

  class AbcRuntime {
    var invalidationCounter: nat
    ghost var classes: set<PyClass>

    /** The edges the walk follows. */
    ghost function G(): Graph<PyClass>
      reads this`classes, classes`registry, classes`subclasses
    {
      map c | c in classes :: c.Successors()
    }

    ghost predicate WellFormed()
      reads this`classes, classes`registry, classes`subclasses
    {
      && (forall c :: c in classes ==> c.registry <= classes && c.subclasses <= classes && c in c.mro && c.mro <= classes)
      && Closed(G()) && Acyclic(G())
    }

    ghost predicate CachesOk(c: PyClass)
      reads this, classes, c
    {
      && (forall s :: s in c.cache ==> IsSubclass(G(), s, c))
      && c.negativeVersion <= invalidationCounter
      && (c.negativeVersion == invalidationCounter ==> forall s :: s in c.negativeCache ==> !IsSubclass(G(), s, c))
      && c.cache <= classes && c.negativeCache <= classes
    }

    ghost predicate Valid()
      reads this, classes
    {
      WellFormed() && forall c :: c in classes && c.isAbc ==> CachesOk(c)
    }

    constructor ()
      ensures Valid() && classes == {}
    {
      invalidationCounter, classes := 0, {};
    }

    /** Class creation, with the part of `ABCMeta.__new__` that sets up the registry and caches. */
    method NewClass(bases: set<PyClass>, isAbc: bool) returns (k: PyClass)
      requires Valid() && bases <= classes
      modifies this`classes, bases`subclasses
      ensures Valid() && fresh(k) && k.isAbc == isAbc
      ensures classes == old(classes) + {k} && k.mro == (set b, d | b in bases && d in b.mro :: d) + {k}
      ensures G() == WithLeaf(old(G()), k, set b | b in bases && b.isAbc)
      ensures forall s, c :: s in old(classes) && c in old(classes) ==>
        (IsSubclass(G(), s, c) <==> IsSubclass(old(G()), s, c))
    {
      ghost var g := G();
      ghost var parents := set b | b in bases && b.isAbc;
      k := LinkClass(bases, isAbc);
      forall s, c | s in old(classes) && c in old(classes)
        ensures IsSubclass(G(), s, c) <==> IsSubclass(g, s, c)
      {
        LeafKeepsSubclass(g, k, parents, s, c);
      }
      forall c | c in old(classes) && c.isAbc ensures CachesOk(c) {
        assert old(CachesOk(c));
      }
    }

    /** The new class object, known to its bases. */
    method LinkClass(bases: set<PyClass>, isAbc: bool) returns (k: PyClass)
      requires WellFormed() && bases <= classes
      modifies this`classes, bases`subclasses
      ensures WellFormed() && fresh(k) && k.isAbc == isAbc && k.cache == k.negativeCache == {}
      ensures k.negativeVersion == invalidationCounter
      ensures classes == old(classes) + {k} && k.mro == (set b, d | b in bases && d in b.mro :: d) + {k}
      ensures G() == WithLeaf(old(G()), k, set b | b in bases && b.isAbc)
    {
      k := new PyClass(isAbc, set b, d | b in bases && d in b.mro :: d, invalidationCounter);
      forall b | b in bases {
        b.subclasses := b.subclasses + {k};
      }
      classes := classes + {k};
      NewClassFits(k, bases);
    }

    /** The new class closes no cycle and refers to known classes only. */
    twostate lemma NewClassFits(new k: PyClass, bases: set<PyClass>)
      requires old(WellFormed()) && bases <= old(classes) && k !in old(classes) && classes == old(classes) + {k}
      requires k.registry == k.subclasses == {} && k.mro == (set b, d | b in bases && d in b.mro :: d) + {k}
      requires forall x :: x in old(classes) ==>
        x.registry == old(x.registry) && x.subclasses == old(x.subclasses) + (if x in bases then {k} else {})
      ensures WellFormed() && G() == WithLeaf(old(G()), k, set b | b in bases && b.isAbc)
    {
      GraphOfNewClass(k, bases);
      WithLeafReaches(old(G()), k, set b | b in bases && b.isAbc);
      NewClassIsKnown(k, bases);
    }

    twostate lemma NewClassIsKnown(new k: PyClass, bases: set<PyClass>)
      requires old(WellFormed()) && bases <= old(classes) && classes == old(classes) + {k}
      requires k.registry == k.subclasses == {} && k.mro == (set b, d | b in bases && d in b.mro :: d) + {k}
      requires forall x :: x in old(classes) ==>
        x.registry == old(x.registry) && x.subclasses == old(x.subclasses) + (if x in bases then {k} else {})
      ensures forall c :: c in classes ==> c.registry <= classes && c.subclasses <= classes && c in c.mro && c.mro <= classes
    {
    }

    twostate lemma GraphOfNewClass(new k: PyClass, bases: set<PyClass>)
      requires bases <= old(classes) && k !in old(classes) && classes == old(classes) + {k} && k.Successors() == {}
      requires forall x :: x in old(classes) ==>
        x.registry == old(x.registry) && x.subclasses == old(x.subclasses) + (if x in bases then {k} else {})
      ensures G() == WithLeaf(old(G()), k, set b | b in bases && b.isAbc)
    {
      forall x | x in old(classes)
        ensures x.Successors() == if x in bases && x.isAbc then old(x.Successors()) + {k} else old(x.Successors())
      {
        assert x.registry + (x.subclasses + {k}) == (x.registry + x.subclasses) + {k};
      }
      assert G().Keys == old(G()).Keys + {k};
    }

    /** `issubclass(s, c)`: an ABC answers through its metaclass, any other class from the MRO. */
    method IssubclassOf(s: PyClass, c: PyClass) returns (answer: bool)
      requires Valid() && s in classes && c in classes
      modifies classes`cache, classes`negativeCache, classes`negativeVersion
      ensures Valid() && answer == IsSubclass(G(), s, c)
      decreases Below(G(), c), 3
    {
      if c.isAbc {
        answer := SubclassCheck(c, s);
      } else {
        IsSubclassStep(G(), s, c);
        answer := c in s.mro;
      }
    }

    /** `cls._abc_cache.add(s)` */
    method Remember(cls: PyClass, s: PyClass)
      requires Valid() && s in classes && cls in classes && IsSubclass(G(), s, cls)
      modifies cls`cache
      ensures Valid() && cls.cache == old(cls.cache) + {s}
    {
      cls.cache := cls.cache + {s};
      assert G() == old(G());
      forall c | c in classes && c.isAbc ensures CachesOk(c) { assert old(CachesOk(c)); }
    }

    /** `cls._abc_negative_cache.add(s)` */
    method Refuse(cls: PyClass, s: PyClass)
      requires Valid() && s in classes && cls in classes && !IsSubclass(G(), s, cls)
      modifies cls`negativeCache
      ensures Valid() && cls.negativeCache == old(cls.negativeCache) + {s}
    {
      cls.negativeCache := cls.negativeCache + {s};
      assert G() == old(G());
      forall c | c in classes && c.isAbc ensures CachesOk(c) { assert old(CachesOk(c)); }
    }

    /** Replaces a negative cache from before the last registration by an empty one. */
    method Invalidate(cls: PyClass)
      requires Valid() && cls in classes
      modifies cls`negativeCache, cls`negativeVersion
      ensures Valid() && cls.negativeCache == {} && cls.negativeVersion == invalidationCounter
    {
      cls.negativeCache := {};
      cls.negativeVersion := invalidationCounter;
    }

    /** `__subclasscheck__`, with a `__subclasshook__` that returns `NotImplemented`. */
    method SubclassCheck(cls: PyClass, s: PyClass) returns (answer: bool)
      requires Valid() && s in classes && cls in classes && cls.isAbc
      modifies classes`cache, classes`negativeCache, classes`negativeVersion
      ensures Valid() && answer == IsSubclass(G(), s, cls)
      decreases Below(G(), cls), 2
    {
      if s in cls.cache {
        return true;
      }
      if cls.negativeVersion < invalidationCounter {
        Invalidate(cls);
      } else if s in cls.negativeCache {
        return false;
      }
      answer := UncachedCheck(cls, s);
      if answer {
        Remember(cls, s);
      } else {
        Refuse(cls, s);
      }
    }

    /** The part of `__subclasscheck__` below the caches and the hook. */
    method UncachedCheck(cls: PyClass, s: PyClass) returns (answer: bool)
      requires Valid() && s in classes && cls in classes && cls.isAbc
      modifies classes`cache, classes`negativeCache, classes`negativeVersion
      ensures Valid() && answer == IsSubclass(G(), s, cls)
      decreases Below(G(), cls), 1
    {
      IsSubclassStep(G(), s, cls);
      if cls in s.mro {
        return true;
      }
      answer := AnyIssubclass(cls, s, cls.registry);
      if !answer {
        answer := AnyIssubclass(cls, s, cls.subclasses);
      }
    }

    /** One of the two loops of `__subclasscheck__`, over the classes in any order. */
    method AnyIssubclass(cls: PyClass, s: PyClass, candidates: set<PyClass>) returns (found: bool)
      requires Valid() && s in classes && cls in classes && cls.isAbc
      requires candidates <= G()[cls]
      modifies classes`cache, classes`negativeCache, classes`negativeVersion
      ensures Valid() && (found <==> exists d :: d in candidates && IsSubclass(G(), s, d))
      decreases Below(G(), cls), 0
    {
      var rest := candidates;
      while |rest| > 0
        invariant Valid() && rest <= candidates
        invariant forall d :: d in candidates && d !in rest ==> !IsSubclass(G(), s, d)
        decreases |rest|
      {
        var d := Pick(rest);
        BelowShrinks(G(), cls, d);
        var yes := IssubclassOf(s, d);
        if yes { return true; }
        rest := rest - {d};
      }
      return false;
    }

    /** `register`; `arg` is `None` for an argument that is not a class. */
    method Register(cls: PyClass, arg: Option<PyClass>) returns (result: Result<PyClass, AbcError>)
      requires Valid() && cls in classes && cls.isAbc && (arg.Some? ==> arg.value in classes)
      modifies this`invalidationCounter, cls`registry, classes`cache, classes`negativeCache, classes`negativeVersion
      ensures Valid()
      ensures arg.None? ==> result == Failure(TypeError) && G() == old(G())
      ensures arg.Some? ==>
        var sub, g := arg.value, old(G());
        if IsSubclass(g, sub, cls) then result == Success(sub) && G() == g
        else if IsSubclass(g, cls, sub) then result == Failure(RuntimeError) && G() == g
        else result == Success(sub) && G() == WithEdge(g, cls, sub)
      ensures invalidationCounter == old(invalidationCounter) + if G() == old(G()) then 0 else 1
    {
      if arg.None? {
        return Failure(TypeError);
      }
      var sub := arg.value;
      var already := IssubclassOf(sub, cls);
      if already {
        return Success(sub);
      }
      var cycle := IssubclassOf(cls, sub);
      if cycle {
        return Failure(RuntimeError);
      }
      AddRegistration(cls, sub);
      return Success(sub);
    }

    /** The new edge, which closes no cycle. */
    method AddEdge(cls: PyClass, sub: PyClass)
      requires WellFormed() && cls in classes && cls.isAbc && sub in classes && !Reaches(G(), sub, cls)
      modifies cls`registry
      ensures WellFormed() && G() == WithEdge(old(G()), cls, sub)
    {
      ghost var g := G();
      cls.registry := cls.registry + {sub};
      assert cls.Successors() == old(cls.Successors()) + {sub};
      assert G() == WithEdge(g, cls, sub);
      WithEdgeAcyclic(g, cls, sub);
    }

    /** The new edge and the new version. Every positive answer stays right, every negative cache
        becomes out of date, and no cycle is closed. */
    method AddRegistration(cls: PyClass, sub: PyClass)
      requires Valid() && cls in classes && cls.isAbc && sub in classes
      requires !IsSubclass(G(), sub, cls) && !IsSubclass(G(), cls, sub)
      modifies this`invalidationCounter, cls`registry
      ensures Valid() && G() == WithEdge(old(G()), cls, sub) && G() != old(G())
      ensures invalidationCounter == old(invalidationCounter) + 1
    {
      ghost var g := G();
      NewEdge(g, cls, sub);
      AddEdge(cls, sub);
      invalidationCounter := invalidationCounter + 1;
      forall c | c in classes && c.isAbc ensures CachesOk(c) {
        assert old(CachesOk(c));
        CachesOkAfter(g, cls, sub, c);
      }
    }

    /** Positive answers from before a registration stay right; negative ones are out of date. */
    lemma CachesOkAfter(g: Graph<PyClass>, cls: PyClass, sub: PyClass, c: PyClass)
      requires cls in g && G() == WithEdge(g, cls, sub) && forall s :: s in c.cache ==> IsSubclass(g, s, c)
      requires c.negativeVersion < invalidationCounter && c.cache <= classes && c.negativeCache <= classes
      ensures CachesOk(c)
    {
      CacheStaysSound(g, cls, sub, c.cache, c);
    }

    /** `__instancecheck__`, for an instance whose `__class__` is `klass` and whose type is `typ`. */
    method InstanceCheck(cls: PyClass, klass: PyClass, typ: PyClass) returns (answer: bool)
      requires Valid() && cls in classes && cls.isAbc && klass in classes && typ in classes
      modifies classes`cache, classes`negativeCache, classes`negativeVersion
      ensures Valid() && answer == (IsSubclass(G(), klass, cls) || IsSubclass(G(), typ, cls))
    {
      if klass in cls.cache {
        return true;
      }
      if typ == klass {
        if cls.negativeVersion == invalidationCounter && klass in cls.negativeCache {
          return false;
        }
        answer := SubclassCheck(cls, klass);
        return;
      }
      answer := SubclassCheck(cls, klass);
      if !answer {
        answer := SubclassCheck(cls, typ);
      }
    }
  }
}
