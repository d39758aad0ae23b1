/** Reachability in a finite directed graph, given as the set of successors of each node. */
module ClassGraph {

  type Graph<T> = map<T, set<T>>

  ghost predicate Edge<T>(g: Graph<T>, a: T, b: T) {
    a in g && b in g[a]
  }

  ghost predicate Closed<T>(g: Graph<T>) {
    forall a, b :: a in g && b in g[a] ==> b in g
  }

  /** The nodes at most `n` edges away from `a`. */
  ghost function Within<T>(g: Graph<T>, a: T, n: nat): set<T> {
    if n == 0 then {a}
    else
      var near := Within(g, a, n - 1);
      near + set x, y | x in near && x in g && y in g[x] :: y
  }

  ghost predicate Reaches<T>(g: Graph<T>, a: T, b: T) {
    exists n: nat :: b in Within(g, a, n)
  }

  ghost predicate Acyclic<T>(g: Graph<T>) {
    forall a, b :: a in g && b in g[a] ==> !Reaches(g, b, a)
  }

  /** The nodes of `g` that `a` reaches; it shrinks along every edge of an acyclic graph. */
  ghost function Below<T>(g: Graph<T>, a: T): set<T> {
    set b | b in g && Reaches(g, a, b)
  }

  lemma ReachesSelf<T>(g: Graph<T>, a: T)
    ensures Reaches(g, a, a)
  {
    assert a in Within(g, a, 0);
  }

  lemma ReachesThenEdge<T>(g: Graph<T>, a: T, b: T, c: T)
    requires Reaches(g, a, b) && Edge(g, b, c)
    ensures Reaches(g, a, c)
  {
    var n: nat :| b in Within(g, a, n);
    assert c in Within(g, a, n + 1);
  }

  lemma {:induction false} WithinThenReaches<T>(g: Graph<T>, a: T, b: T, c: T, n: nat)
    requires Reaches(g, a, b) && c in Within(g, b, n)
    ensures Reaches(g, a, c)
    decreases n
  {
    if n != 0 {
      if c in Within(g, b, n - 1) {
        WithinThenReaches(g, a, b, c, n - 1);
      } else {
        var p :| p in Within(g, b, n - 1) && p in g && c in g[p];
        WithinThenReaches(g, a, b, p, n - 1);
        ReachesThenEdge(g, a, p, c);
      }
    }
  }

  lemma ReachesTransitive<T>(g: Graph<T>, a: T, b: T, c: T)
    requires Reaches(g, a, b) && Reaches(g, b, c)
    ensures Reaches(g, a, c)
  {
    var n: nat :| c in Within(g, b, n);
    WithinThenReaches(g, a, b, c, n);
  }

  lemma EdgeThenReaches<T>(g: Graph<T>, a: T, b: T, c: T)
    requires Edge(g, a, b) && Reaches(g, b, c)
    ensures Reaches(g, a, c)
  {
    ReachesSelf(g, a);
    ReachesThenEdge(g, a, a, b);
    ReachesTransitive(g, a, b, c);
  }

  /** A path that is not empty starts with an edge. */
  lemma {:induction false} FirstEdge<T>(g: Graph<T>, a: T, c: T, n: nat)
    requires c in Within(g, a, n)
    ensures a == c || exists b :: b in (if a in g then g[a] else {}) && Reaches(g, b, c)
    decreases n
  {
    if n != 0 {
      if c in Within(g, a, n - 1) {
        FirstEdge(g, a, c, n - 1);
      } else {
        var p :| p in Within(g, a, n - 1) && p in g && c in g[p];
        FirstEdge(g, a, p, n - 1);
        if a == p {
          ReachesSelf(g, c);
        } else {
          var b :| b in (if a in g then g[a] else {}) && Reaches(g, b, p);
          ReachesThenEdge(g, b, p, c);
        }
      }
    }
  }

  lemma {:induction false} ReachesInside<T>(g: Graph<T>, a: T, b: T, n: nat)
    requires Closed(g) && a in g && b in Within(g, a, n)
    ensures b in g
    decreases n
  {
    if n != 0 && b !in Within(g, a, n - 1) {
      var p :| p in Within(g, a, n - 1) && p in g && b in g[p];
    } else if n != 0 {
      ReachesInside(g, a, b, n - 1);
    }
  }

  lemma BelowShrinks<T>(g: Graph<T>, a: T, b: T)
    requires Acyclic(g) && Edge(g, a, b)
    ensures Below(g, b) < Below(g, a)
  {
    forall c | c in Below(g, b) ensures c in Below(g, a) { EdgeThenReaches(g, a, b, c); }
    ReachesSelf(g, a);
    assert a in Below(g, a) && a !in Below(g, b);
  }

  // ---- adding an edge ----

  ghost function WithEdge<T>(g: Graph<T>, a: T, b: T): Graph<T>
    requires a in g
  {
    g[a := g[a] + {b}]
  }

  lemma {:induction false} SubgraphReaches<T>(g: Graph<T>, g': Graph<T>, x: T, y: T, n: nat)
    requires forall a :: a in g ==> a in g' && g[a] <= g'[a]
    requires y in Within(g, x, n)
    ensures Reaches(g', x, y)
    decreases n
  {
    if n == 0 {
      ReachesSelf(g', x);
    } else if y in Within(g, x, n - 1) {
      SubgraphReaches(g, g', x, y, n - 1);
    } else {
      var p :| p in Within(g, x, n - 1) && p in g && y in g[p];
      SubgraphReaches(g, g', x, p, n - 1);
      ReachesThenEdge(g', x, p, y);
    }
  }

  lemma {:induction false} WithEdgeOnly<T>(g: Graph<T>, a: T, b: T, x: T, y: T, n: nat)
    requires a in g && y in Within(WithEdge(g, a, b), x, n)
    ensures Reaches(g, x, y) || (Reaches(g, x, a) && Reaches(g, b, y))
    decreases n
  {
    var g' := WithEdge(g, a, b);
    if n == 0 {
      ReachesSelf(g, x);
    } else if y in Within(g', x, n - 1) {
      WithEdgeOnly(g, a, b, x, y, n - 1);
    } else {
      var p :| p in Within(g', x, n - 1) && p in g' && y in g'[p];
      WithEdgeOnly(g, a, b, x, p, n - 1);
      if Edge(g, p, y) {
        if Reaches(g, x, p) { ReachesThenEdge(g, x, p, y); } else { ReachesThenEdge(g, b, p, y); }
      } else {
        assert p == a && y == b;
        ReachesSelf(g, b);
      }
    }
  }

  /** What a new edge makes reachable: exactly what a path may now cross it for. */
  lemma WithEdgeReaches<T>(g: Graph<T>, a: T, b: T, x: T, y: T)
    requires a in g
    ensures Reaches(WithEdge(g, a, b), x, y) <==> Reaches(g, x, y) || (Reaches(g, x, a) && Reaches(g, b, y))
  {
    var g' := WithEdge(g, a, b);
    if Reaches(g', x, y) {
      var n: nat :| y in Within(g', x, n);
      WithEdgeOnly(g, a, b, x, y, n);
    }
    if Reaches(g, x, y) {
      var n: nat :| y in Within(g, x, n);
      SubgraphReaches(g, g', x, y, n);
    }
    if Reaches(g, x, a) && Reaches(g, b, y) {
      var n: nat :| a in Within(g, x, n);
      SubgraphReaches(g, g', x, a, n);
      var m: nat :| y in Within(g, b, m);
      SubgraphReaches(g, g', b, y, m);
      EdgeThenReaches(g', a, b, y);
      ReachesTransitive(g', x, a, y);
    }
  }

  /** A new edge keeps the graph acyclic exactly when its head does not already reach its tail. */
  lemma WithEdgeAcyclic<T>(g: Graph<T>, a: T, b: T)
    requires Acyclic(g) && a in g
    ensures Acyclic(WithEdge(g, a, b)) <==> !Reaches(g, b, a)
  {
    var g' := WithEdge(g, a, b);
    if Reaches(g, b, a) {
      WithEdgeReaches(g, a, b, b, a);
      assert a in g' && b in g'[a];
    } else {
      forall x, y | x in g' && y in g'[x] ensures !Reaches(g', y, x) {
        WithEdgeReaches(g, a, b, y, x);
        if Edge(g, x, y) {
          if Reaches(g, y, a) && Reaches(g, b, x) {
            ReachesThenEdge(g, b, x, y);
            ReachesTransitive(g, b, y, a);
          }
        } else {
          assert x == a && y == b;
        }
      }
    }
  }

  // ---- adding a node ----

  /** `g` with a new node `k` without successors, which becomes a successor of `parents`. */
  ghost function WithLeaf<T>(g: Graph<T>, k: T, parents: set<T>): Graph<T> {
    map x | x in g.Keys + {k} :: if x == k then {} else if x in parents then g[x] + {k} else g[x]
  }

  lemma {:induction false} LeafWithin<T>(g: Graph<T>, k: T, parents: set<T>, x: T, y: T, n: nat)
    requires k !in g && Closed(g) && x in g && y != k
    ensures y in Within(WithLeaf(g, k, parents), x, n) ==> Reaches(g, x, y)
    decreases n
  {
    var g' := WithLeaf(g, k, parents);
    ReachesSelf(g, x);
    if n != 0 && y in Within(g', x, n) && y !in Within(g', x, n - 1) {
      var p :| p in Within(g', x, n - 1) && p in g' && y in g'[p];
      LeafWithin(g, k, parents, x, p, n - 1);
      ReachesThenEdge(g, x, p, y);
    } else if n != 0 {
      LeafWithin(g, k, parents, x, y, n - 1);
    }
  }

  lemma {:induction false} LeafReachesNothing<T>(g: Graph<T>, k: T, parents: set<T>, n: nat)
    requires k !in g
    ensures Within(WithLeaf(g, k, parents), k, n) == {k}
    decreases n
  {
    if n != 0 { LeafReachesNothing(g, k, parents, n - 1); }
  }

  /** A new leaf changes nothing among the old nodes, and closes no cycle. */
  lemma WithLeafReaches<T>(g: Graph<T>, k: T, parents: set<T>)
    requires k !in g && Closed(g) && Acyclic(g)
    ensures var g' := WithLeaf(g, k, parents);
            && Closed(g') && Acyclic(g')
            && (forall x, y :: x in g && y in g ==> (Reaches(g', x, y) <==> Reaches(g, x, y)))
            && (forall y :: y in g ==> !Reaches(g', k, y))
  {
    var g' := WithLeaf(g, k, parents);
    forall x, y | x in g && y in g ensures Reaches(g', x, y) <==> Reaches(g, x, y) {
      if Reaches(g', x, y) {
        var n: nat :| y in Within(g', x, n);
        LeafWithin(g, k, parents, x, y, n);
      }
      if Reaches(g, x, y) {
        var n: nat :| y in Within(g, x, n);
        SubgraphReaches(g, g', x, y, n);
      }
    }
    forall y | y in g ensures !Reaches(g', k, y) {
      if Reaches(g', k, y) {
        var n: nat :| y in Within(g', k, n);
        LeafReachesNothing(g, k, parents, n);
      }
    }
  }
}
