/** Writing the repr of an object graph in `python.exe-gdb.py`: containers may contain themselves,
    a shared set of visited addresses stops the traversal, and the output may be cut off. */
module GdbRepr {
  import opened Wrappers

  import Links = ClassGraph

  type Address = nat

  /** What the debugger finds at an address. The slots of a dict or set may be unused. */
  datatype Object =
    | Atom(text: string)
    | ListObject(items: seq<Address>)
    | TupleObject(items: seq<Address>)
    | DictObject(entries: seq<Option<(Address, Address)>>)
    | SetObject(typeName: string, used: nat, slots: seq<Option<Address>>)

  type Memory = map<Address, Object>

  /** Every address in an object is the address of an object. */
  predicate Closed(m: Memory) {
    forall a :: a in m ==>
      match m[a]
      case Atom(_) => true
      case ListObject(items) => forall b :: b in items ==> b in m
      case TupleObject(items) => forall b :: b in items ==> b in m
      case DictObject(entries) => forall e :: e in entries && e.Some? ==> e.value.0 in m && e.value.1 in m
      case SetObject(_, _, slots) => forall b :: b in slots && b.Some? ==> b.value in m
  }

  const SAFETY_LIMIT := 1000

  /** The elements `safe_range` reaches. */
  function SafePrefix<T>(s: seq<T>): (p: seq<T>)
    ensures p <= s
  {
    if |s| > SAFETY_LIMIT then s[..SAFETY_LIMIT] else s
  }

  /** One thing to write inside a container: a text or another object. */
  datatype Piece = Text(text: string) | Child(address: Address)

  function Separated(items: seq<Address>, first: bool): seq<Piece> {
    if items == [] then []
    else (if first then [] else [Text(", ")]) + [Child(items[0])] + Separated(items[1..], false)
  }

  function SeparatedEntries(entries: seq<Option<(Address, Address)>>, first: bool): seq<Piece> {
    if entries == [] then []
    else if entries[0].None? then SeparatedEntries(entries[1..], first)
    else (if first then [] else [Text(", ")]) + [Child(entries[0].value.0), Text(": "), Child(entries[0].value.1)]
         + SeparatedEntries(entries[1..], false)
  }

  function SeparatedSlots(slots: seq<Option<Address>>, first: bool): seq<Piece> {
    if slots == [] then []
    else if slots[0].None? then SeparatedSlots(slots[1..], first)
    else (if first then [] else [Text(", ")]) + [Child(slots[0].value)] + SeparatedSlots(slots[1..], false)
  }

  /** The body of an object that has not been visited yet. */
  function Body(o: Object): seq<Piece> {
    match o
    case Atom(text) => [Text(text)]
    case ListObject(items) => [Text("[")] + Separated(SafePrefix(items), true) + [Text("]")]
    case TupleObject(items) =>
      [Text("(")] + Separated(SafePrefix(items), true) + [Text(if |items| == 1 then ",)" else ")")]
    case DictObject(entries) => [Text("{")] + SeparatedEntries(SafePrefix(entries), true) + [Text("}")]
    case SetObject(name, used, slots) =>
      if used == 0 then [Text(name), Text("()")]
      else (if name != "set" then [Text(name), Text("(")] else [])
           + [Text("{")] + SeparatedSlots(SafePrefix(slots), true) + [Text("}")]
           + (if name != "set" then [Text(")")] else [])
  }

  /** What is written for a container met again. */
  function Marker(o: Object): string {
    match o
    case ListObject(_) => "[...]"
    case DictObject(_) => "{...}"
    case _ => "(...)"
  }

  // ---- what would be written without a limit ----

  /** The text, the addresses visited afterwards, and the containers whose bodies were written. */
  datatype Rendering = Rendering(text: string, visited: set<Address>, expanded: seq<Address>)

  predicate Children(m: Memory, pieces: seq<Piece>) {
    forall p :: p in pieces && p.Child? ==> p.address in m
  }

  function Render(m: Memory, a: Address, visited: set<Address>): (r: Rendering)
    requires Closed(m) && a in m
    ensures visited <= r.visited
    decreases |m.Keys - visited|, 0
  {
    if m[a].Atom? then Rendering(m[a].text, visited, [])
    else if a in visited then Rendering(Marker(m[a]), visited, [])
    else
      BodyChildren(m, a);
      VisitingShrinks(m.Keys, visited, visited + {a}, a);
      var r := RenderAll(m, Body(m[a]), visited + {a});
      Rendering(r.text, r.visited, [a] + r.expanded)
  }

  function RenderAll(m: Memory, pieces: seq<Piece>, visited: set<Address>): (r: Rendering)
    requires Closed(m) && Children(m, pieces)
    ensures visited <= r.visited
    decreases |m.Keys - visited|, 1 + |pieces|
  {
    if pieces == [] then Rendering("", visited, [])
    else if pieces[0].Text? then
      var r := RenderAll(m, pieces[1..], visited);
      Rendering(pieces[0].text + r.text, r.visited, r.expanded)
    else
      var first := Render(m, pieces[0].address, visited);
      VisitingGrows(m.Keys, visited, first.visited);
      var r := RenderAll(m, pieces[1..], first.visited);
      Rendering(first.text + r.text, r.visited, first.expanded + r.expanded)
  }

  lemma VisitingGrows(all: set<Address>, v: set<Address>, v': set<Address>)
    requires v <= v'
    ensures |all - v'| <= |all - v|
  {
    SubsetSize(all - v', all - v);
  }

  lemma VisitingShrinks(all: set<Address>, v: set<Address>, v': set<Address>, a: Address)
    requires v <= v' && a in all && a !in v && a in v'
    ensures |all - v'| < |all - v|
  {
    SubsetSize(all - v', (all - v) - {a});
  }

  lemma SubsetSize(s: set<Address>, t: set<Address>)
    requires s <= t
    ensures |s| <= |t|
  {
    assert t == s + (t - s);
  }

  lemma {:induction false} SeparatedChildren(m: Memory, items: seq<Address>, first: bool)
    requires forall b :: b in items ==> b in m
    ensures Children(m, Separated(items, first))
    decreases |items|
  {
    if items != [] { SeparatedChildren(m, items[1..], false); }
  }

  lemma {:induction false} EntriesChildren(m: Memory, entries: seq<Option<(Address, Address)>>, first: bool)
    requires forall e :: e in entries && e.Some? ==> e.value.0 in m && e.value.1 in m
    ensures Children(m, SeparatedEntries(entries, first))
    decreases |entries|
  {
    if entries != [] { EntriesChildren(m, entries[1..], first && entries[0].None?); }
  }

  lemma {:induction false} SlotsChildren(m: Memory, slots: seq<Option<Address>>, first: bool)
    requires forall b :: b in slots && b.Some? ==> b.value in m
    ensures Children(m, SeparatedSlots(slots, first))
    decreases |slots|
  {
    if slots != [] { SlotsChildren(m, slots[1..], first && slots[0].None?); }
  }

  lemma BodyChildren(m: Memory, a: Address)
    requires Closed(m) && a in m
    ensures Children(m, Body(m[a]))
  {
    match m[a]
    case Atom(_) =>
    case ListObject(items) => SeparatedChildren(m, SafePrefix(items), true);
    case TupleObject(items) => SeparatedChildren(m, SafePrefix(items), true);
    case DictObject(entries) => EntriesChildren(m, SafePrefix(entries), true);
    case SetObject(_, _, slots) => SlotsChildren(m, SafePrefix(slots), true);
  }

  /** No container's body is written twice, nor one of a container visited before. */
  ghost predicate ExpandedOnce(visited: set<Address>, r: Rendering) {
    && r.visited == visited + (set a | a in r.expanded)
    && (forall a :: a in r.expanded ==> a !in visited)
    && (forall i, j :: 0 <= i < j < |r.expanded| ==> r.expanded[i] != r.expanded[j])
  }

  lemma {:induction false} RenderExpandsOnce(m: Memory, a: Address, visited: set<Address>)
    requires Closed(m) && a in m
    ensures ExpandedOnce(visited, Render(m, a, visited))
    decreases |m.Keys - visited|, 0
  {
    if !m[a].Atom? && a !in visited {
      BodyChildren(m, a);
      VisitingShrinks(m.Keys, visited, visited + {a}, a);
      RenderAllExpandsOnce(m, Body(m[a]), visited + {a});
      SelfExpandedOnce(visited, a, RenderAll(m, Body(m[a]), visited + {a}), Render(m, a, visited));
    }
  }

  lemma {:induction false} RenderAllExpandsOnce(m: Memory, pieces: seq<Piece>, visited: set<Address>)
    requires Closed(m) && Children(m, pieces)
    ensures ExpandedOnce(visited, RenderAll(m, pieces, visited))
    decreases |m.Keys - visited|, 1 + |pieces|
  {
    if pieces != [] {
      if pieces[0].Text? {
        RenderAllExpandsOnce(m, pieces[1..], visited);
      } else {
        var first := Render(m, pieces[0].address, visited);
        RenderExpandsOnce(m, pieces[0].address, visited);
        VisitingGrows(m.Keys, visited, first.visited);
        RenderAllExpandsOnce(m, pieces[1..], first.visited);
        JoinExpandedOnce(visited, first, RenderAll(m, pieces[1..], first.visited), RenderAll(m, pieces, visited));
      }
    }
  }

  lemma SelfExpandedOnce(visited: set<Address>, a: Address, inside: Rendering, whole: Rendering)
    requires ExpandedOnce(visited + {a}, inside) && a !in visited
    requires whole.visited == inside.visited && whole.expanded == [a] + inside.expanded
    ensures ExpandedOnce(visited, whole)
  {
  }

  lemma JoinExpandedOnce(visited: set<Address>, first: Rendering, rest: Rendering, both: Rendering)
    requires ExpandedOnce(visited, first) && ExpandedOnce(first.visited, rest)
    requires both.visited == rest.visited && both.expanded == first.expanded + rest.expanded
    ensures ExpandedOnce(visited, both)
  {
    forall i, j | 0 <= i < j < |both.expanded| ensures both.expanded[i] != both.expanded[j] {
      if i < |first.expanded| <= j {
        assert both.expanded[i] in first.expanded && both.expanded[j] in rest.expanded;
      }
    }
  }

  /** The containers written inside each container's body. */
  ghost function Contents(m: Memory): Links.Graph<Address> {
    map a | a in m && !m[a].Atom? ::
      set p | p in Body(m[a]) && p.Child? && p.address in m && !m[p.address].Atom? :: p.address
  }

  /** Everything inside a newly visited container has been visited as well. */
  ghost predicate LeavesNothingOut(m: Memory, visited: set<Address>, r: Rendering) {
    forall x, c :: x in r.visited && x !in visited && Links.Edge(Contents(m), x, c) ==> c in r.visited
  }

  lemma {:induction false} RenderIsComplete(m: Memory, a: Address, visited: set<Address>)
    requires Closed(m) && a in m
    ensures LeavesNothingOut(m, visited, Render(m, a, visited))
    ensures !m[a].Atom? ==> a in Render(m, a, visited).visited
    decreases |m.Keys - visited|, 0
  {
    if !m[a].Atom? && a !in visited {
      BodyChildren(m, a);
      VisitingShrinks(m.Keys, visited, visited + {a}, a);
      RenderAllIsComplete(m, Body(m[a]), visited + {a});
    }
  }

  lemma {:induction false} RenderAllIsComplete(m: Memory, pieces: seq<Piece>, visited: set<Address>)
    requires Closed(m) && Children(m, pieces)
    ensures LeavesNothingOut(m, visited, RenderAll(m, pieces, visited))
    ensures forall p :: p in pieces && p.Child? && !m[p.address].Atom? ==> p.address in RenderAll(m, pieces, visited).visited
    decreases |m.Keys - visited|, 1 + |pieces|
  {
    if pieces != [] {
      var next := visited;
      if pieces[0].Child? {
        RenderIsComplete(m, pieces[0].address, visited);
        next := Render(m, pieces[0].address, visited).visited;
        VisitingGrows(m.Keys, visited, next);
      }
      RenderAllIsComplete(m, pieces[1..], next);
    }
  }

  lemma {:induction false} RenderIsReachable(m: Memory, a: Address, visited: set<Address>)
    requires Closed(m) && a in m
    ensures forall x :: x in Render(m, a, visited).visited && x !in visited ==> Links.Reaches(Contents(m), a, x)
    decreases |m.Keys - visited|, 0
  {
    if !m[a].Atom? && a !in visited {
      BodyChildren(m, a);
      VisitingShrinks(m.Keys, visited, visited + {a}, a);
      Links.ReachesSelf(Contents(m), a);
      RenderAllIsReachable(m, Body(m[a]), visited + {a}, a);
    }
  }

  lemma {:induction false} RenderAllIsReachable(m: Memory, pieces: seq<Piece>, visited: set<Address>, a: Address)
    requires Closed(m) && Children(m, pieces) && a in m && !m[a].Atom? && forall p :: p in pieces ==> p in Body(m[a])
    ensures forall x :: x in RenderAll(m, pieces, visited).visited && x !in visited ==> Links.Reaches(Contents(m), a, x)
    decreases |m.Keys - visited|, 1 + |pieces|
  {
    if pieces != [] {
      var next := visited;
      if pieces[0].Child? {
        var c := pieces[0].address;
        RenderIsReachable(m, c, visited);
        next := Render(m, c, visited).visited;
        VisitingGrows(m.Keys, visited, next);
        forall x | x in next && x !in visited ensures Links.Reaches(Contents(m), a, x) {
          assert !m[c].Atom?;
          Links.EdgeThenReaches(Contents(m), a, c, x);
        }
      }
      RenderAllIsReachable(m, pieces[1..], next, a);
    }
  }

  lemma {:induction false} StaysInside(g: Links.Graph<Address>, s: set<Address>, a: Address, x: Address, n: nat)
    requires a in s && forall y, c :: y in s && Links.Edge(g, y, c) ==> c in s
    requires x in Links.Within(g, a, n)
    ensures x in s
    decreases n
  {
    if n != 0 && x !in Links.Within(g, a, n - 1) {
      var y :| y in Links.Within(g, a, n - 1) && y in g && x in g[y];
      StaysInside(g, s, a, y, n - 1);
      assert Links.Edge(g, y, x);
    } else if n != 0 {
      StaysInside(g, s, a, x, n - 1);
    }
  }

  /** However the graph shares and cycles, the full text writes out the body of every container that
      can be reached, exactly once, and of nothing else. */
  lemma ExpandsWhatIsReachable(m: Memory, a: Address)
    requires Closed(m) && a in m && !m[a].Atom?
    ensures ExpandedOnce({}, Render(m, a, {}))
    ensures forall x :: x in Render(m, a, {}).expanded <==> Links.Reaches(Contents(m), a, x)
  {
    var r := Render(m, a, {});
    RenderExpandsOnce(m, a, {});
    RenderIsComplete(m, a, {});
    RenderIsReachable(m, a, {});
    forall x | Links.Reaches(Contents(m), a, x) ensures x in r.visited {
      var n: nat :| x in Links.Within(Contents(m), a, n);
      StaysInside(Contents(m), r.visited, a, x, n);
    }
    assert forall x :: x in r.visited <==> x in r.expanded;
  }

  // ---- the text of containers ----

  function Join(sep: string, parts: seq<string>): string {
    if parts == [] then "" else if |parts| == 1 then parts[0] else parts[0] + sep + Join(sep, parts[1..])
  }

  predicate AreObjects(m: Memory, items: seq<Address>) {
    forall b :: b in items ==> b in m
  }

  /** The texts of elements written one after the other, each with what the ones before it visited. */
  function ItemTexts(m: Memory, items: seq<Address>, visited: set<Address>): seq<string>
    requires Closed(m) && AreObjects(m, items)
  {
    if items == [] then []
    else
      var first := Render(m, items[0], visited);
      [first.text] + ItemTexts(m, items[1..], first.visited)
  }

  predicate AreEntries(m: Memory, entries: seq<Option<(Address, Address)>>) {
    forall e :: e in entries && e.Some? ==> e.value.0 in m && e.value.1 in m
  }

  /** The texts of the used entries: first the key, then the value. */
  function EntryTexts(m: Memory, entries: seq<Option<(Address, Address)>>, visited: set<Address>): seq<string>
    requires Closed(m) && AreEntries(m, entries)
  {
    if entries == [] then []
    else if entries[0].None? then EntryTexts(m, entries[1..], visited)
    else
      var key := Render(m, entries[0].value.0, visited);
      var value := Render(m, entries[0].value.1, key.visited);
      [key.text + ": " + value.text] + EntryTexts(m, entries[1..], value.visited)
  }

  /** The used slots of a set, in order. */
  function Used(slots: seq<Option<Address>>): seq<Address> {
    if slots == [] then [] else (if slots[0].Some? then [slots[0].value] else []) + Used(slots[1..])
  }

  /** What separated parts add in front of the `tail`. */
  function Parts(first: bool, parts: seq<string>, tail: string): string {
    (if first || parts == [] then "" else ", ") + Join(", ", parts) + tail
  }

  lemma PartsFirst(first: bool, part: string, parts: seq<string>, tail: string)
    ensures Parts(first, [part] + parts, tail) == (if first then "" else ", ") + (part + Parts(false, parts, tail))
  {
    assert ([part] + parts)[1..] == parts;
  }

  lemma TextFirst(m: Memory, t: string, rest: seq<Piece>, visited: set<Address>)
    requires Closed(m) && Children(m, rest)
    ensures Children(m, [Text(t)] + rest) && RenderAll(m, [Text(t)] + rest, visited).text == t + RenderAll(m, rest, visited).text
  {
    assert ([Text(t)] + rest)[1..] == rest;
  }

  lemma ChildFirst(m: Memory, b: Address, rest: seq<Piece>, visited: set<Address>)
    requires Closed(m) && Children(m, rest) && b in m
    ensures Children(m, [Child(b)] + rest)
    ensures var first := Render(m, b, visited);
            RenderAll(m, [Child(b)] + rest, visited).text == first.text + RenderAll(m, rest, first.visited).text
  {
    assert ([Child(b)] + rest)[1..] == rest;
  }

  /** A part and what separates it from the one before. */
  lemma SeparatorFirst(m: Memory, first: bool, rest: seq<Piece>, visited: set<Address>)
    requires Closed(m) && Children(m, rest)
    ensures var all := if first then rest else [Text(", ")] + rest;
            && Children(m, all)
            && RenderAll(m, all, visited).text == (if first then "" else ", ") + RenderAll(m, rest, visited).text
  {
    if !first { TextFirst(m, ", ", rest, visited); }
  }

  function Pair(k: Address, v: Address, rest: seq<Piece>): seq<Piece> {
    [Child(k)] + ([Text(": ")] + ([Child(v)] + rest))
  }

  lemma PairFirst(m: Memory, k: Address, v: Address, rest: seq<Piece>, visited: set<Address>)
    requires Closed(m) && Children(m, rest) && k in m && v in m
    ensures Children(m, Pair(k, v, rest))
    ensures var key := Render(m, k, visited);
            var value := Render(m, v, key.visited);
            RenderAll(m, Pair(k, v, rest), visited).text ==
            (key.text + ": " + value.text) + RenderAll(m, rest, value.visited).text
  {
    var key := Render(m, k, visited);
    var value := Render(m, v, key.visited);
    ChildFirst(m, v, rest, key.visited);
    TextFirst(m, ": ", [Child(v)] + rest, key.visited);
    ChildFirst(m, k, [Text(": ")] + ([Child(v)] + rest), visited);
    PairIsJoined(key.text, value.text, RenderAll(m, rest, value.visited).text);
  }

  lemma PairIsJoined(k: string, v: string, rest: string)
    ensures k + (": " + (v + rest)) == (k + ": " + v) + rest
  {
  }

  /** Pieces that are only text, so that what was visited before makes no difference. */
  ghost predicate Writes(m: Memory, pieces: seq<Piece>, text: string)
    requires Closed(m)
  {
    Children(m, pieces) && forall v :: RenderAll(m, pieces, v).text == text
  }

  lemma OneText(m: Memory, t: string)
    requires Closed(m)
    ensures Writes(m, [Text(t)], t)
  {
    forall v ensures RenderAll(m, [Text(t)], v).text == t {
      TextFirst(m, t, [], v);
      assert [Text(t)] + [] == [Text(t)];
    }
  }

  lemma TwoTexts(m: Memory, t: string, t': string)
    requires Closed(m)
    ensures Writes(m, [Text(t), Text(t')], t + t')
  {
    OneText(m, t');
    forall v ensures RenderAll(m, [Text(t), Text(t')], v).text == t + t' {
      TextFirst(m, t, [Text(t')], v);
      assert [Text(t)] + [Text(t')] == [Text(t), Text(t')];
    }
  }

  lemma {:induction false} SeparatedText(m: Memory, items: seq<Address>, first: bool, tail: seq<Piece>, end: string,
                                         visited: set<Address>)
    requires Closed(m) && AreObjects(m, items) && Writes(m, tail, end)
    ensures Children(m, Separated(items, first) + tail)
    ensures RenderAll(m, Separated(items, first) + tail, visited).text == Parts(first, ItemTexts(m, items, visited), end)
    decreases |items|
  {
    if items == [] {
      assert Separated(items, first) + tail == tail;
    } else {
      var one := Render(m, items[0], visited);
      var rest := Separated(items[1..], false) + tail;
      SeparatedText(m, items[1..], false, tail, end, one.visited);
      ChildFirst(m, items[0], rest, visited);
      SeparatorFirst(m, first, [Child(items[0])] + rest, visited);
      PartsFirst(first, one.text, ItemTexts(m, items[1..], one.visited), end);
      SeparatedFirst(items, first, tail);
    }
  }

  lemma SeparatedFirst(items: seq<Address>, first: bool, tail: seq<Piece>)
    requires items != []
    ensures var rest := [Child(items[0])] + (Separated(items[1..], false) + tail);
            Separated(items, first) + tail == if first then rest else [Text(", ")] + rest
  {
  }

  lemma {:induction false} EntriesText(m: Memory, entries: seq<Option<(Address, Address)>>, first: bool, tail: seq<Piece>,
                                       end: string, visited: set<Address>)
    requires Closed(m) && AreEntries(m, entries) && Writes(m, tail, end)
    ensures Children(m, SeparatedEntries(entries, first) + tail)
    ensures RenderAll(m, SeparatedEntries(entries, first) + tail, visited).text ==
            Parts(first, EntryTexts(m, entries, visited), end)
    decreases |entries|
  {
    if entries == [] {
      assert SeparatedEntries(entries, first) + tail == tail;
    } else if entries[0].None? {
      EntriesText(m, entries[1..], first, tail, end, visited);
    } else {
      var (k, v) := entries[0].value;
      var key := Render(m, k, visited);
      var value := Render(m, v, key.visited);
      var rest := SeparatedEntries(entries[1..], false) + tail;
      EntriesText(m, entries[1..], false, tail, end, value.visited);
      PairFirst(m, k, v, rest, visited);
      SeparatorFirst(m, first, Pair(k, v, rest), visited);
      PartsFirst(first, key.text + ": " + value.text, EntryTexts(m, entries[1..], value.visited), end);
      EntriesFirst(entries, first, tail);
    }
  }

  lemma EntriesFirst(entries: seq<Option<(Address, Address)>>, first: bool, tail: seq<Piece>)
    requires entries != [] && entries[0].Some?
    ensures var (k, v) := entries[0].value;
            var rest := Pair(k, v, SeparatedEntries(entries[1..], false) + tail);
            SeparatedEntries(entries, first) + tail == if first then rest else [Text(", ")] + rest
  {
  }

  lemma {:induction false} SlotsAreSeparated(slots: seq<Option<Address>>, first: bool)
    ensures SeparatedSlots(slots, first) == Separated(Used(slots), first)
    decreases |slots|
  {
    if slots != [] {
      SlotsAreSeparated(slots[1..], first && slots[0].None?);
      if slots[0].Some? {
        assert Used(slots)[0] == slots[0].value && Used(slots)[1..] == Used(slots[1..]);
      } else {
        assert Used(slots) == Used(slots[1..]);
      }
    }
  }

  lemma {:induction false} UsedAreSlots(slots: seq<Option<Address>>)
    ensures forall b :: b in Used(slots) ==> Some(b) in slots
  {
    if slots != [] { UsedAreSlots(slots[1..]); }
  }

  /** What is written inside each kind of container refers to objects in memory only. */
  lemma InsideIsInMemory(m: Memory, a: Address)
    requires Closed(m) && a in m
    ensures m[a].ListObject? || m[a].TupleObject? ==> AreObjects(m, SafePrefix(m[a].items))
    ensures m[a].DictObject? ==> AreEntries(m, SafePrefix(m[a].entries))
    ensures m[a].SetObject? ==> AreObjects(m, Used(SafePrefix(m[a].slots)))
  {
    if m[a].SetObject? { UsedAreSlots(SafePrefix(m[a].slots)); }
  }

  lemma SequenceBody(o: Object)
    requires o.ListObject? || o.TupleObject?
    ensures var end := if o.ListObject? then "]" else if |o.items| == 1 then ",)" else ")";
            Body(o) == [Text(if o.ListObject? then "[" else "(")] + (Separated(SafePrefix(o.items), true) + [Text(end)])
  {
  }

  lemma DictBody(o: Object)
    requires o.DictObject?
    ensures Body(o) == [Text("{")] + (SeparatedEntries(SafePrefix(o.entries), true) + [Text("}")])
  {
  }

  /** An opening text, separated elements and a closing one. */
  lemma EnclosedText(m: Memory, open: string, items: seq<Address>, tail: seq<Piece>, end: string, seen: set<Address>)
    requires Closed(m) && AreObjects(m, items) && Writes(m, tail, end)
    ensures var all := [Text(open)] + (Separated(items, true) + tail);
            && Children(m, all)
            && RenderAll(m, all, seen).text == open + Join(", ", ItemTexts(m, items, seen)) + end
  {
    SeparatedText(m, items, true, tail, end, seen);
    TextFirst(m, open, Separated(items, true) + tail, seen);
    JoinAssociates(open, Join(", ", ItemTexts(m, items, seen)), end);
  }

  lemma JoinAssociates(a: string, b: string, c: string)
    ensures a + (b + c) == a + b + c && a + ("" + b + c) == a + b + c
  {
  }

  /** A list met for the first time is written as Python does, whatever it contains, itself included:
      the texts of its elements, each knowing what was visited before it. */
  lemma ListText(m: Memory, a: Address, visited: set<Address>)
    requires Closed(m) && a in m && a !in visited && m[a].ListObject?
    ensures AreObjects(m, SafePrefix(m[a].items))
    ensures Render(m, a, visited).text == "[" + Join(", ", ItemTexts(m, SafePrefix(m[a].items), visited + {a})) + "]"
  {
    InsideIsInMemory(m, a);
    OneText(m, "]");
    SequenceBody(m[a]);
    EnclosedText(m, "[", SafePrefix(m[a].items), [Text("]")], "]", visited + {a});
  }

  /** So is a tuple, with its comma behind a single element. */
  lemma TupleText(m: Memory, a: Address, visited: set<Address>)
    requires Closed(m) && a in m && a !in visited && m[a].TupleObject?
    ensures AreObjects(m, SafePrefix(m[a].items))
    ensures Render(m, a, visited).text ==
            "(" + Join(", ", ItemTexts(m, SafePrefix(m[a].items), visited + {a})) + (if |m[a].items| == 1 then ",)" else ")")
  {
    var end := if |m[a].items| == 1 then ",)" else ")";
    InsideIsInMemory(m, a);
    OneText(m, end);
    SequenceBody(m[a]);
    EnclosedText(m, "(", SafePrefix(m[a].items), [Text(end)], end, visited + {a});
  }

  /** And a dict, whose unused entries leave no trace. */
  lemma DictText(m: Memory, a: Address, visited: set<Address>)
    requires Closed(m) && a in m && a !in visited && m[a].DictObject?
    ensures AreEntries(m, SafePrefix(m[a].entries))
    ensures Render(m, a, visited).text == "{" + Join(", ", EntryTexts(m, SafePrefix(m[a].entries), visited + {a})) + "}"
  {
    var entries := SafePrefix(m[a].entries);
    InsideIsInMemory(m, a);
    OneText(m, "}");
    EntriesText(m, entries, true, [Text("}")], "}", visited + {a});
    DictBody(m[a]);
    TextFirst(m, "{", SeparatedEntries(entries, true) + [Text("}")], visited + {a});
    JoinAssociates("{", Join(", ", EntryTexts(m, entries, visited + {a})), "}");
  }

  /** A set is written in braces, any other type of set with its name around them, and an empty one
      as a call. */
  lemma SetText(m: Memory, a: Address, visited: set<Address>)
    requires Closed(m) && a in m && a !in visited && m[a].SetObject?
    ensures AreObjects(m, Used(SafePrefix(m[a].slots)))
    ensures var members := ItemTexts(m, Used(SafePrefix(m[a].slots)), visited + {a});
            var name, braces := m[a].typeName, "{" + Join(", ", members) + "}";
            Render(m, a, visited).text ==
            if m[a].used == 0 then name + "()" else if name != "set" then name + "(" + braces + ")" else braces
  {
    var name, seen, members := m[a].typeName, visited + {a}, Used(SafePrefix(m[a].slots));
    InsideIsInMemory(m, a);
    SetBody(m[a]);
    if m[a].used == 0 {
      TwoTexts(m, name, "()");
    } else if name == "set" {
      OneText(m, "}");
      EnclosedText(m, "{", members, [Text("}")], "}", seen);
    } else {
      TwoTexts(m, "}", ")");
      var braces := [Text("{")] + (Separated(members, true) + [Text("}"), Text(")")]);
      EnclosedText(m, "{", members, [Text("}"), Text(")")], "})", seen);
      TextFirst(m, "(", braces, seen);
      TextFirst(m, name, [Text("(")] + braces, seen);
      WrapInName(name, Join(", ", ItemTexts(m, members, seen)));
    }
  }

  lemma WrapInName(name: string, joined: string)
    ensures name + ("(" + ("{" + joined + "})")) == name + "(" + ("{" + joined + "}") + ")"
  {
  }

  lemma SetBody(o: Object)
    requires o.SetObject?
    ensures var members := Separated(Used(SafePrefix(o.slots)), true);
            Body(o) == if o.used == 0 then [Text(o.typeName), Text("()")]
                       else if o.typeName == "set" then [Text("{")] + (members + [Text("}")])
                       else [Text(o.typeName)] + ([Text("(")] + ([Text("{")] + (members + [Text("}"), Text(")")])))
  {
    SlotsAreSeparated(SafePrefix(o.slots), true);
  }

  /** Leaves are written as they are, and leave no trace in what was visited. */
  lemma {:induction false} LeafTexts(m: Memory, items: seq<Address>, visited: set<Address>)
    requires Closed(m) && AreObjects(m, items) && forall b :: b in items ==> m[b].Atom?
    ensures |ItemTexts(m, items, visited)| == |items|
    ensures forall i :: 0 <= i < |items| ==> ItemTexts(m, items, visited)[i] == m[items[i]].text
  {
    if items != [] { LeafTexts(m, items[1..], visited); }
  }

  /** So are entries of leaves, when none is unused. */
  lemma {:induction false} LeafEntryTexts(m: Memory, entries: seq<Option<(Address, Address)>>, visited: set<Address>)
    requires Closed(m) && AreEntries(m, entries)
    requires forall e :: e in entries ==> e.Some? && m[e.value.0].Atom? && m[e.value.1].Atom?
    ensures |EntryTexts(m, entries, visited)| == |entries|
    ensures forall i :: 0 <= i < |entries| ==>
      EntryTexts(m, entries, visited)[i] == m[entries[i].value.0].text + ": " + m[entries[i].value.1].text
  {
    if entries != [] { LeafEntryTexts(m, entries[1..], visited); }
  }

  // ---- writing with a limit ----

  /** What an output limit makes of a text, and whether it cut anything off; 0 means no limit. */
  function Cut(text: string, maxlen: nat): (string, bool) {
    if maxlen != 0 && |text| > maxlen then (text[..maxlen], true) else (text, false)
  }

  lemma CutStaysCut(text: string, more: string, maxlen: nat)
    ensures Cut(text, maxlen).1 ==> Cut(text + more, maxlen) == Cut(text, maxlen)
  {
    if Cut(text, maxlen).1 { assert (text + more)[..maxlen] == text[..maxlen]; }
  }

  class TruncatedStringIO {
    var val: string
    const maxlen: nat

    constructor (maxlen: nat)
      ensures val == "" && this.maxlen == maxlen
    {
      val, this.maxlen := "", maxlen;
    }

    ghost predicate Valid()
      reads this
    {
      maxlen != 0 ==> |val| <= maxlen
    }

    /** `write`; the result says whether `StringTruncated` is raised. */
    method Write(data: string) returns (truncated: bool)
      requires Valid()
      modifies this
      ensures Valid() && (val, truncated) == Cut(old(val) + data, maxlen)
    {
      if maxlen != 0 && |data| + |val| > maxlen {
        assert val + data[..maxlen - |val|] == (val + data)[..maxlen];
        val := val + data[..maxlen - |val|];
        return true;
      }
      val := val + data;
      return false;
    }
  }

  /** The set of visited addresses that all `write_repr` calls of one traversal share. */
  class VisitedSet {
    var addresses: set<Address>

    constructor ()
      ensures addresses == {}
    {
      addresses := {};
    }
  }

  /** `write_repr` of any object: either all of its text is written and the shared set brought up to
      date, or the traversal ends where the limit is passed. */
  method WriteRepr(m: Memory, a: Address, out: TruncatedStringIO, visited: VisitedSet) returns (truncated: bool)
    requires Closed(m) && a in m && out.Valid()
    modifies out, visited
    ensures out.Valid() && (out.val, truncated) == Cut(old(out.val) + Render(m, a, old(visited.addresses)).text, out.maxlen)
    ensures !truncated ==> visited.addresses == Render(m, a, old(visited.addresses)).visited
    decreases |m.Keys - visited.addresses|, 0
  {
    if m[a].Atom? {
      truncated := out.Write(m[a].text);
      return;
    }
    if a in visited.addresses {
      truncated := out.Write(Marker(m[a]));
      return;
    }
    BodyChildren(m, a);
    VisitingShrinks(m.Keys, visited.addresses, visited.addresses + {a}, a);
    visited.addresses := visited.addresses + {a};
    truncated := WriteBody(m, Body(m[a]), out, visited);
  }

  function RenderPiece(m: Memory, p: Piece, visited: set<Address>): (r: Rendering)
    requires Closed(m) && Children(m, [p])
    ensures visited <= r.visited
  {
    if p.Text? then Rendering(p.text, visited, [])
    else
      assert p in [p];
      Render(m, p.address, visited)
  }

  /** With `val` written and `visited` reached, the pieces from `i` on lead to the text `total` and
      the visited addresses `final`. */
  ghost predicate WrittenTo(m: Memory, pieces: seq<Piece>, i: nat, val: string, visited: set<Address>,
                            total: string, final: set<Address>)
    requires Closed(m) && i <= |pieces|
  {
    && Children(m, pieces[i..])
    && total == val + RenderAll(m, pieces[i..], visited).text
    && final == RenderAll(m, pieces[i..], visited).visited
  }

  lemma WriteStep(m: Memory, pieces: seq<Piece>, i: nat, val: string, visited: set<Address>,
                  total: string, final: set<Address>, maxlen: nat)
    requires Closed(m) && i < |pieces| && WrittenTo(m, pieces, i, val, visited, total, final)
    ensures Children(m, [pieces[i]])
    ensures var one := RenderPiece(m, pieces[i], visited);
            && WrittenTo(m, pieces, i + 1, val + one.text, one.visited, total, final)
            && (Cut(val + one.text, maxlen).1 ==> Cut(total, maxlen) == Cut(val + one.text, maxlen))
  {
    assert pieces[i..][0] == pieces[i] && pieces[i..][1..] == pieces[i + 1..];
    var one := RenderPiece(m, pieces[i], visited);
    var later := RenderAll(m, pieces[i + 1..], one.visited).text;
    assert val + (one.text + later) == (val + one.text) + later;
    CutStaysCut(val + one.text, later, maxlen);
  }

  /** `out.write` of a text, or `write_repr` of an element. */
  method WritePiece(m: Memory, p: Piece, out: TruncatedStringIO, visited: VisitedSet) returns (truncated: bool)
    requires Closed(m) && Children(m, [p]) && out.Valid()
    modifies out, visited
    ensures out.Valid() && (out.val, truncated) == Cut(old(out.val) + RenderPiece(m, p, old(visited.addresses)).text, out.maxlen)
    ensures !truncated ==> visited.addresses == RenderPiece(m, p, old(visited.addresses)).visited
    decreases |m.Keys - visited.addresses|, 1
  {
    match p
    case Text(text) => truncated := out.Write(text);
    case Child(address) =>
      assert p in [p];
      truncated := WriteRepr(m, address, out, visited);
  }

  /** The statements after the cycle check: brackets, separators and elements in order. */
  method WriteBody(m: Memory, pieces: seq<Piece>, out: TruncatedStringIO, visited: VisitedSet) returns (truncated: bool)
    requires Closed(m) && Children(m, pieces) && out.Valid()
    modifies out, visited
    ensures out.Valid() && (out.val, truncated) == Cut(old(out.val) + RenderAll(m, pieces, old(visited.addresses)).text, out.maxlen)
    ensures !truncated ==> visited.addresses == RenderAll(m, pieces, old(visited.addresses)).visited
    decreases |m.Keys - visited.addresses|, 2
  {
    ghost var seen0, total := visited.addresses, out.val + RenderAll(m, pieces, visited.addresses).text;
    ghost var final := RenderAll(m, pieces, visited.addresses).visited;
    assert pieces[0..] == pieces;
    var i := 0;
    while i < |pieces|
      invariant 0 <= i <= |pieces| && out.Valid() && seen0 <= visited.addresses
      invariant WrittenTo(m, pieces, i, out.val, visited.addresses, total, final)
    {
      WriteStep(m, pieces, i, out.val, visited.addresses, total, final, out.maxlen);
      VisitingGrows(m.Keys, seen0, visited.addresses);
      truncated := WritePiece(m, pieces[i], out, visited);
      if truncated { return; }
      i := i + 1;
    }
    assert pieces[i..] == [] && out.val + "" == out.val;
    return false;
  }

  const TRUNCATED := "...(truncated)"

  /** `get_truncated_repr`: the whole text if it fits, else exactly its first `maxlen` characters and
      a marker. */
  method GetTruncatedRepr(m: Memory, a: Address, maxlen: nat) returns (text: string)
    requires Closed(m) && a in m
    ensures var full := Render(m, a, {}).text;
            text == if maxlen != 0 && |full| > maxlen then full[..maxlen] + TRUNCATED else full
  {
    var out := new TruncatedStringIO(maxlen);
    var visited := new VisitedSet();
    var truncated := WriteRepr(m, a, out, visited);
    assert "" + Render(m, a, {}).text == Render(m, a, {}).text;
    return if truncated then out.val + TRUNCATED else out.val;
  }
}
