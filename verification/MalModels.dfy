/** Season chains from sequel and prequel relations: `build_chains`. */
module MalModels {
  import opened Wrappers
  import opened Graphs
  import opened HashOrders
  import opened ListModels
  import opened Sets
  import opened Sorting

  datatype Relation = Relation(node: int, relationType: string)
  type Relations = map<int, seq<Relation>>
  type Adjacency = map<int, set<int>>

  // ------------------------------------------------------- the two graphs

  /** The ordered pair one relation declares, or none when it is skipped. */
  function RelationPair(ids: set<int>, from: int, rel: Relation): Option<(int, int)> {
    if rel.node !in ids || rel.node == from then None
    else if rel.relationType == "sequel" then Some((from, rel.node))
    else if rel.relationType == "prequel" then Some((rel.node, from))
    else None
  }

  ghost function PairsOf(ids: set<int>, from: int, rels: seq<Relation>): Pairs {
    set k | 0 <= k < |rels| && RelationPair(ids, from, rels[k]).Some? :: RelationPair(ids, from, rels[k]).value
  }

  /** Every "comes before" pair the relations declare between entries of the list. */
  ghost function SequelPairs(ids: set<int>, relations: Relations): Pairs {
    set from, p | from in relations && from in ids && p in PairsOf(ids, from, relations[from]) :: p
  }

  /** One entry's relations say that `a` comes right before `b`. */
  ghost predicate Declares(ids: set<int>, from: int, rels: seq<Relation>, a: int, b: int) {
    && a in ids && b in ids && a != b
    && ((from == a && Relation(b, "sequel") in rels) || (from == b && Relation(a, "prequel") in rels))
  }

  /** `b` is listed as a sequel of `a`, or `a` as a prequel of `b`, and both are in the list. */
  ghost predicate ComesBefore(ids: set<int>, relations: Relations, a: int, b: int) {
    && a in ids && b in ids && a != b
    && ((a in relations && Relation(b, "sequel") in relations[a])
        || (b in relations && Relation(a, "prequel") in relations[b]))
  }

  lemma DeclaredByOne(ids: set<int>, from: int, rels: seq<Relation>, a: int, b: int)
    requires from in ids
    ensures (a, b) in PairsOf(ids, from, rels) <==> Declares(ids, from, rels, a, b)
  {
    if from == a && Relation(b, "sequel") in rels && b in ids && a != b {
      var k :| 0 <= k < |rels| && rels[k] == Relation(b, "sequel");
      assert RelationPair(ids, from, rels[k]) == Some((a, b));
    }
    if from == b && Relation(a, "prequel") in rels && a in ids && a != b {
      var k :| 0 <= k < |rels| && rels[k] == Relation(a, "prequel");
      assert RelationPair(ids, from, rels[k]) == Some((a, b));
    }
    if (a, b) in PairsOf(ids, from, rels) {
      var k :| 0 <= k < |rels| && RelationPair(ids, from, rels[k]) == Some((a, b));
      assert rels[k] == Relation(rels[k].node, rels[k].relationType);
    }
  }

  /** The graph the chains are built on has an edge exactly where a sequel or prequel relation says so, from
      the earlier entry to the later. */
  lemma EdgeIffComesBefore(ids: set<int>, relations: Relations, a: int, b: int)
    ensures Edge(SequelPairs(ids, relations), a, b) <==> ComesBefore(ids, relations, a, b)
  {
    hide PairsOf;
    forall from | from in relations && from in ids
      ensures (a, b) in PairsOf(ids, from, relations[from]) <==> Declares(ids, from, relations[from], a, b)
    {
      DeclaredByOne(ids, from, relations[from], a, b);
    }
    if ComesBefore(ids, relations, a, b) {
      var from := if a in relations && Relation(b, "sequel") in relations[a] then a else b;
      assert Declares(ids, from, relations[from], a, b);
    }
  }

  ghost function Undirected(e: Pairs): Pairs {
    e + set p | p in e :: (p.1, p.0)
  }

  ghost predicate Represents(g: Adjacency, e: Pairs) {
    forall a, b :: Edge(e, a, b) <==> a in g && b in g[a]
  }

  function Insert(g: Adjacency, a: int, b: int): Adjacency {
    g[a := (if a in g then g[a] else {}) + {b}]
  }

  lemma InsertRepresents(g: Adjacency, e: Pairs, a: int, b: int)
    requires Represents(g, e)
    ensures Represents(Insert(g, a, b), e + {(a, b)})
  {
    var h, f := Insert(g, a, b), e + {(a, b)};
    forall x, y ensures Edge(f, x, y) <==> x in h && y in h[x] {
      assert Edge(e, x, y) <==> x in g && y in g[x];
    }
  }

  lemma InsertBothWays(g: Adjacency, e: Pairs, a: int, b: int)
    requires Represents(g, Undirected(e))
    ensures Represents(Insert(Insert(g, a, b), b, a), Undirected(e + {(a, b)}))
  {
    InsertRepresents(g, Undirected(e), a, b);
    InsertRepresents(Insert(g, a, b), Undirected(e) + {(a, b)}, b, a);
    assert Undirected(e) + {(a, b)} + {(b, a)} == Undirected(e + {(a, b)});
  }

  lemma UndirectedEdges(e: Pairs)
    ensures Symmetric(Undirected(e))
    ensures forall a, b :: Edge(Undirected(e), a, b) <==> Edge(e, a, b) || Edge(e, b, a)
  {
    forall a, b ensures Edge(Undirected(e), a, b) <==> Edge(e, a, b) || Edge(e, b, a) {
      if Edge(e, b, a) { assert ((b, a).1, (b, a).0) in Undirected(e); }
    }
  }

  lemma SequelPairsAreListed(ids: set<int>, relations: Relations)
    ensures forall a, b :: Edge(SequelPairs(ids, relations), a, b) ==> a in ids && b in ids && a != b
  {
  }

  /** What the relations of the entries in `done` declare. */
  ghost function PairsFrom(ids: set<int>, relations: Relations, done: set<int>): Pairs {
    set from, p | from in done && from in relations && from in ids && p in PairsOf(ids, from, relations[from]) :: p
  }

  /** Fill `precedes` and `links`, visiting the relation map in any order. */
  method BuildGraphs(ids: set<int>, relations: Relations) returns (precedes: Adjacency, links: Adjacency)
    ensures Represents(precedes, SequelPairs(ids, relations))
    ensures Represents(links, Undirected(SequelPairs(ids, relations)))
    ensures forall a, b :: a in precedes && b in precedes[a] <==> ComesBefore(ids, relations, a, b)
    ensures forall a, b :: a in links && b in links[a] <==>
              ComesBefore(ids, relations, a, b) || ComesBefore(ids, relations, b, a)
  {
    precedes, links := map[], map[];
    var todo := relations.Keys;
    ghost var done: set<int> := {};
    ghost var e := PairsFrom(ids, relations, done);
    while todo != {}
      invariant todo + done == relations.Keys
      invariant Represents(precedes, e) && Represents(links, Undirected(e))
      invariant e == PairsFrom(ids, relations, done)
    {
      HasElement(todo);
      var from :| from in todo;
      if from in ids {
        precedes, links := AddRelations(ids, from, relations[from], precedes, links, e);
        e := e + PairsOf(ids, from, relations[from]);
      }
      assert PairsFrom(ids, relations, done + {from}) == e;
      todo, done := todo - {from}, done + {from};
    }
    assert e == SequelPairs(ids, relations);
    GraphsAsDeclared(ids, relations, precedes, links);
  }

  lemma GraphsAsDeclared(ids: set<int>, relations: Relations, precedes: Adjacency, links: Adjacency)
    requires Represents(precedes, SequelPairs(ids, relations))
    requires Represents(links, Undirected(SequelPairs(ids, relations)))
    ensures forall a, b :: a in precedes && b in precedes[a] <==> ComesBefore(ids, relations, a, b)
    ensures forall a, b :: a in links && b in links[a] <==>
              ComesBefore(ids, relations, a, b) || ComesBefore(ids, relations, b, a)
  {
    hide ComesBefore, SequelPairs, Undirected;
    var e := SequelPairs(ids, relations);
    UndirectedEdges(e);
    forall a, b ensures Edge(e, a, b) <==> ComesBefore(ids, relations, a, b) {
      EdgeIffComesBefore(ids, relations, a, b);
    }
    forall a, b ensures a in precedes && b in precedes[a] <==> ComesBefore(ids, relations, a, b) {
      assert Edge(e, a, b) <==> a in precedes && b in precedes[a];
    }
    forall a, b
      ensures a in links && b in links[a] <==> ComesBefore(ids, relations, a, b) || ComesBefore(ids, relations, b, a)
    {
      assert Edge(Undirected(e), a, b) <==> a in links && b in links[a];
      assert Edge(Undirected(e), a, b) <==> Edge(e, a, b) || Edge(e, b, a);
    }
  }

  /** The inner loop: record every relation of one entry in both graphs. */
  method AddRelations(ids: set<int>, from: int, rels: seq<Relation>,
                      precedes0: Adjacency, links0: Adjacency, ghost e0: Pairs)
    returns (precedes: Adjacency, links: Adjacency)
    requires from in ids && Represents(precedes0, e0) && Represents(links0, Undirected(e0))
    ensures forall a, b :: a in precedes && b in precedes[a] <==>
              (a in precedes0 && b in precedes0[a]) || Declares(ids, from, rels, a, b)
    ensures Represents(precedes, e0 + PairsOf(ids, from, rels))
    ensures Represents(links, Undirected(e0 + PairsOf(ids, from, rels)))
  {
    precedes, links := precedes0, links0;
    ghost var e := e0;
    for k := 0 to |rels|
      invariant Represents(precedes, e) && Represents(links, Undirected(e))
      invariant e == e0 + PairsOf(ids, from, rels[..k])
    {
      var pair := RelationPair(ids, from, rels[k]);
      PairsOfNext(ids, from, rels, k);
      if pair.Some? {
        var (before, after) := pair.value;
        InsertRepresents(precedes, e, before, after);
        InsertBothWays(links, e, before, after);
        precedes := Insert(precedes, before, after);
        links := Insert(Insert(links, before, after), after, before);
        e := e + {(before, after)};
      }
    }
    assert rels[..|rels|] == rels;
    forall a, b ensures a in precedes && b in precedes[a] <==>
                        (a in precedes0 && b in precedes0[a]) || Declares(ids, from, rels, a, b)
    {
      DeclaredByOne(ids, from, rels, a, b);
      assert Edge(e, a, b) <==> a in precedes && b in precedes[a];
      assert Edge(e0, a, b) <==> a in precedes0 && b in precedes0[a];
    }
  }

  lemma PairsOfNext(ids: set<int>, from: int, rels: seq<Relation>, k: nat)
    requires k < |rels|
    ensures PairsOf(ids, from, rels[..k + 1]) ==
            PairsOf(ids, from, rels[..k]) +
            (if RelationPair(ids, from, rels[k]).Some? then {RelationPair(ids, from, rels[k]).value} else {})
  {
    var l, r := PairsOf(ids, from, rels[..k + 1]), PairsOf(ids, from, rels[..k]);
    forall p | p in l ensures p in r || RelationPair(ids, from, rels[k]) == Some(p) {
      var i :| 0 <= i < k + 1 && RelationPair(ids, from, rels[..k + 1][i]) == Some(p);
      if i < k { assert rels[..k][i] == rels[i]; }
    }
    forall p | p in r ensures p in l {
      var i :| 0 <= i < k && RelationPair(ids, from, rels[..k][i]) == Some(p);
      assert rels[..k + 1][i] == rels[i];
    }
    if RelationPair(ids, from, rels[k]).Some? { assert rels[..k + 1][k] == rels[k]; }
  }

  // -------------------------------------------------- connected components

  ghost predicate EdgesWithin(e: Pairs, ids: set<int>) {
    forall a, b :: Edge(e, a, b) ==> a in ids && b in ids
  }

  /** A connectivity class of the list: every member reaches exactly the members. */
  ghost predicate IsComponent(e: Pairs, ids: set<int>, c: set<int>) {
    c <= ids && forall a, b :: a in c && b in ids ==> (b in c <==> Connected(e, a, b))
  }

  /** The part of a depth-first visit from `root` that has happened when `seen` is marked, given
      that `before` was marked already, `found` is emitted and `stack` is waiting. */
  ghost predicate Visiting(e: Pairs, root: int, before: set<int>, seen: set<int>, found: seq<int>, stack: seq<int>) {
    && Distinct(found + stack)
    && SetOf(found + stack) !! before
    && seen == before + SetOf(found + stack)
    && root in seen
    && (forall x :: x in found + stack ==> Connected(e, root, x))
    && (forall x, y :: x in found && Edge(e, x, y) ==> y in seen)
  }

  lemma PushKeepsVisiting(before: set<int>, seen: set<int>, found: seq<int>, stack: seq<int>, y: int)
    requires Distinct(found + stack) && SetOf(found + stack) !! before && seen == before + SetOf(found + stack)
    requires y !in seen
    ensures Distinct(found + (stack + [y])) && SetOf(found + (stack + [y])) !! before
    ensures seen + {y} == before + SetOf(found + (stack + [y]))
  {
    assert found + (stack + [y]) == (found + stack) + [y];
    assert forall z :: z in found + stack ==> z in SetOf(found + stack);
    assert SetOf((found + stack) + [y]) == SetOf(found + stack) + {y};
  }

  lemma PopIsSameSequence(found: seq<int>, stack: seq<int>)
    requires stack != [] && Distinct(found + stack)
    ensures var last := stack[|stack| - 1];
            && Distinct((found + [last]) + stack[..|stack| - 1])
            && SetOf((found + [last]) + stack[..|stack| - 1]) == SetOf(found + stack)
  {
    var last, rest := stack[|stack| - 1], stack[..|stack| - 1];
    var p, q := found + stack, (found + [last]) + rest;
    forall i, j | 0 <= i < j < |q| ensures q[i] != q[j] {
      var i' := if i < |found| then i else if i == |found| then |p| - 1 else i - 1;
      var j' := if j < |found| then j else if j == |found| then |p| - 1 else j - 1;
      assert q[i] == p[i'] && q[j] == p[j'];
    }
    assert stack == rest + [last];
    forall x ensures x in q <==> x in p {
      assert x in stack <==> x in rest || x == last;
    }
  }

  /** Depth-first search with an explicit stack from one unseen id. */
  method Explore(g: Adjacency, ghost e: Pairs, ids: set<int>, root: int, seen0: set<int>)
    returns (component: seq<int>, seen: set<int>)
    requires Represents(g, e) && EdgesWithin(e, ids) && Symmetric(e)
    requires root in ids && root !in seen0 && seen0 <= ids && ClosedUnder(e, seen0)
    ensures Distinct(component) && SetOf(component) !! seen0 && root in component
    ensures IsComponent(e, ids, SetOf(component))
    ensures seen == seen0 + SetOf(component) && ClosedUnder(e, seen)
  {
    seen := seen0 + {root};
    var stack := [root];
    component := [];
    ConnectedRefl(e, root);
    while stack != []
      invariant seen <= ids && Visiting(e, root, seen0, seen, component, stack)
      decreases ids - seen, |stack|
    {
      var current := stack[|stack| - 1];
      PopIsSameSequence(component, stack);
      assert current in component + stack;
      ghost var all := component + stack;
      stack := stack[..|stack| - 1];
      component := component + [current];
      assert forall x :: x in component + stack ==> x in SetOf(component + stack) && x in all;
      if current in g {
        stack, seen := PushNeighbours(g, e, ids, root, seen0, component, stack, seen, current);
      }
    }
    assert component + stack == component;
    ExploredIsComponent(e, ids, root, seen0, component);
    assert ClosedUnder(e, seen);
  }

  /** The neighbour loop, in any hash order: mark and push what is still unseen. */
  method PushNeighbours(g: Adjacency, ghost e: Pairs, ids: set<int>, root: int, ghost before: set<int>,
                        ghost found: seq<int>, stack0: seq<int>, seen0: set<int>, current: int)
    returns (stack: seq<int>, seen: set<int>)
    requires Represents(g, e) && EdgesWithin(e, ids) && current in g && Connected(e, root, current)
    requires seen0 <= ids && root in seen0
    requires Distinct(found + stack0) && SetOf(found + stack0) !! before && seen0 == before + SetOf(found + stack0)
    requires forall x :: x in found + stack0 ==> Connected(e, root, x)
    requires current in found && forall x, y :: x in found && x != current && Edge(e, x, y) ==> y in seen0
    ensures seen0 <= seen <= ids && (seen == seen0 ==> stack == stack0)
    ensures Visiting(e, root, before, seen, found, stack)
  {
    stack, seen := stack0, seen0;
    var todo := g[current];
    while todo != {}
      invariant todo <= g[current] && seen0 <= seen <= ids && (seen == seen0 ==> stack == stack0)
      invariant Distinct(found + stack) && SetOf(found + stack) !! before && seen == before + SetOf(found + stack)
      invariant forall x :: x in found + stack ==> Connected(e, root, x)
      invariant forall y :: y in g[current] && y !in todo ==> y in seen
    {
      HasElement(todo);
      var next :| next in todo;
      todo := todo - {next};
      assert Edge(e, current, next);
      if next !in seen {
        PushKeepsVisiting(before, seen, found, stack, next);
        ConnectedStep(e, root, current, next);
        seen, stack := seen + {next}, stack + [next];
      }
    }
  }

  lemma ExploredIsComponent(e: Pairs, ids: set<int>, root: int, before: set<int>, component: seq<int>)
    requires EdgesWithin(e, ids) && Symmetric(e) && ClosedUnder(e, before) && root !in before
    requires Visiting(e, root, before, before + SetOf(component), component, [])
    requires SetOf(component) <= ids
    ensures IsComponent(e, ids, SetOf(component)) && ClosedUnder(e, SetOf(component))
  {
    var c := SetOf(component);
    assert component + [] == component;
    forall a, b | a in c && Edge(e, a, b) ensures b in c {
      assert Edge(e, b, a);
    }
    forall a, b | a in c && b in ids ensures b in c <==> Connected(e, a, b) {
      if b in c {
        ConnectedSym(e, root, a);
        ConnectedTrans(e, a, root, b);
      }
      if Connected(e, a, b) {
        var p :| WalkFromTo(e, p, a, b);
        WalkStaysInside(e, c, p);
      }
    }
  }

  ghost predicate Partition(ids: set<int>, parts: seq<seq<int>>) {
    && (forall i :: 0 <= i < |parts| ==> Distinct(parts[i]) && SetOf(parts[i]) <= ids)
    && (forall i, j :: 0 <= i < j < |parts| ==> SetOf(parts[i]) !! SetOf(parts[j]))
    && (forall x :: x in ids ==> exists i :: 0 <= i < |parts| && x in parts[i])
  }

  /** Nonempty, sorted connectivity classes. */
  ghost predicate AllComponents(e: Pairs, ids: set<int>, components: seq<seq<int>>) {
    forall i :: 0 <= i < |components| ==>
      && components[i] != []
      && SortedByKey(Identity(), components[i])
      && IsComponent(e, ids, SetOf(components[i]))
  }

  /** The connected components, each sorted; ids are taken in any hash order. */
  method Components(g: Adjacency, ghost e: Pairs, ids: set<int>) returns (components: seq<seq<int>>)
    requires Represents(g, e) && EdgesWithin(e, ids) && Symmetric(e)
    ensures Partition(ids, components) && AllComponents(e, ids, components)
  {
    var seen: set<int> := {};
    components := [];
    var todo := ids;
    while todo != {}
      invariant todo <= ids && ids - todo <= seen <= ids && ClosedUnder(e, seen)
      invariant Partition(seen, components) && AllComponents(e, ids, components)
    {
      HasElement(todo);
      var id :| id in todo;
      todo := todo - {id};
      if id !in seen {
        ghost var before := seen;
        var component;
        component, seen := Explore(g, e, ids, id, seen);
        var sorted := SortByKey(Identity(), component);
        SortKeepsSet(component);
        ExtendPartition(before, components, sorted);
        components := components + [sorted];
      }
    }
    assert seen == ids;
  }

  lemma SortKeepsSet(s: seq<int>)
    requires Distinct(s)
    ensures var r := SortByKey(Identity(), s); SortedByKey(Identity(), r) && Distinct(r) && SetOf(r) == SetOf(s)
  {
    var r := SortByKey(Identity(), s);
    SortByKeyIsStableSort(Identity(), s);
    forall x ensures x in r <==> x in s {
      assert x in multiset(r) <==> x in multiset(s);
    }
    forall i, j | 0 <= i < j < |r| ensures r[i] != r[j] {
      DistinctMeansOnce(s, r[i]);
      if r[i] == r[j] { TwiceMeansTwo(r, i, j); }
    }
  }

  lemma {:induction false} DistinctMeansOnce(s: seq<int>, x: int)
    requires Distinct(s)
    ensures multiset(s)[x] <= 1
  {
    if s != [] {
      assert s == [s[0]] + s[1..];
      DistinctMeansOnce(s[1..], x);
      if x == s[0] { assert x !in s[1..]; }
    }
  }

  lemma TwiceMeansTwo(s: seq<int>, i: nat, j: nat)
    requires i < j < |s| && s[i] == s[j]
    ensures multiset(s)[s[i]] >= 2
  {
    assert s == s[..j] + [s[j]] + s[j + 1..];
    assert s[i] == s[..j][i];
  }

  lemma ExtendPartition(ids: set<int>, parts: seq<seq<int>>, p: seq<int>)
    requires Partition(ids, parts) && Distinct(p) && SetOf(p) !! ids
    ensures Partition(ids + SetOf(p), parts + [p])
  {
    var all := parts + [p];
    assert all[|parts|] == p;
    forall x | x in ids + SetOf(p) ensures exists i :: 0 <= i < |all| && x in all[i] {
      if x in ids {
        var i :| 0 <= i < |parts| && x in parts[i];
        assert x in all[i];
      } else {
        assert x in all[|parts|];
      }
    }
  }

  // ------------------------------------------------------------ Kahn's order

  /** Some other remaining entry lists `id` as a successor. */
  predicate HasPredecessor(precedes: Adjacency, remaining: set<int>, id: int) {
    && (exists pred :: pred in precedes && id in precedes[pred])
    && (exists pred :: pred in precedes && id in precedes[pred] && pred in remaining)
  }

  lemma HasPredecessorMeansNotReady(precedes: Adjacency, e: Pairs, remaining: set<int>, id: int)
    requires Represents(precedes, e)
    ensures HasPredecessor(precedes, remaining, id) <==> !Ready(e, remaining, id)
  {
    if !Ready(e, remaining, id) {
      var y :| y in remaining && Edge(e, y, id);
      assert y in precedes && id in precedes[y];
    }
    if HasPredecessor(precedes, remaining, id) {
      var pred :| pred in precedes && id in precedes[pred] && pred in remaining;
      assert Edge(e, pred, id);
    }
  }

  /** The scan for a ready id, in the order the hash set is iterated. */
  method FindReady(precedes: Adjacency, ghost e: Pairs, remaining: set<int>, scan: seq<int>)
    returns (pick: Option<int>)
    requires Represents(precedes, e)
    ensures pick == FirstReady(e, remaining, scan)
  {
    for i := 0 to |scan|
      invariant FirstReady(e, remaining, scan) == FirstReady(e, remaining, scan[i..])
    {
      var id := scan[i];
      HasPredecessorMeansNotReady(precedes, e, remaining, id);
      if !HasPredecessor(precedes, remaining, id) {
        return Some(id);
      }
    }
    return None;
  }

  method Smallest(s: set<int>) returns (m: int)
    requires s != {}
    ensures m == Least(s)
  {
    HasElement(s);
    m :| m in s;
    var todo := s - {m};
    while todo != {}
      invariant todo <= s && m in s
      invariant forall y :: y in s && y !in todo ==> m <= y
    {
      HasElement(todo);
      var y :| y in todo;
      todo := todo - {y};
      if y < m { m := y; }
    }
  }

  /** What is left to emit starts with the next pick. */
  lemma EmitStep(e: Pairs, remaining: set<int>, visit: set<int> -> seq<int>)
    requires remaining != {} && Iterates(visit, remaining)
    ensures Visits(visit(remaining), remaining)
    ensures var id := Pick(e, remaining, visit(remaining));
            && id in remaining && Iterates(visit, remaining - {id})
            && Emitted(e, remaining, visit) == [id] + Emitted(e, remaining - {id}, visit)
  {
  }

  /** Kahn's loop, with the order in which its hash set is iterated. */
  method EmitOrder(component: seq<int>, precedes: Adjacency, ghost e: Pairs, visit: set<int> -> seq<int>)
    returns (ordered: seq<int>)
    requires Represents(precedes, e) && Iterates(visit, SetOf(component))
    ensures ordered == Emitted(e, SetOf(component), visit)
    ensures KahnOrder(e, ordered) && Distinct(ordered) && SetOf(ordered) == SetOf(component)
  {
    hide Represents, Pick, Emitted, Iterates, KahnOrder, Visits;
    var remaining := set x | x in component;
    ordered := [];
    EmittedIsKahn(e, remaining, visit);
    while remaining != {}
      invariant Iterates(visit, remaining)
      invariant Emitted(e, SetOf(component), visit) == ordered + Emitted(e, remaining, visit)
    {
      EmitStep(e, remaining, visit);
      var id := PickNext(precedes, e, remaining, visit(remaining));
      remaining, ordered := remaining - {id}, ordered + [id];
    }
    assert Emitted(e, {}, visit) == [] by { NothingToEmit(e, visit); }
  }

  lemma EmittedAsIs(e: Pairs, visit: set<int> -> seq<int>, order: seq<int>)
    requires Iterates(visit, SetOf(order)) && order == Emitted(e, SetOf(order), visit)
    ensures IsEmitted(e, visit, order)
  {
  }

  lemma AllSubsets(visit: set<int> -> seq<int>, ids: set<int>, s: set<int>)
    requires Iterates(visit, ids) && s <= ids
    ensures Iterates(visit, s)
  {
  }

  lemma NothingToEmit(e: Pairs, visit: set<int> -> seq<int>)
    requires Iterates(visit, {})
    ensures Emitted(e, {}, visit) == []
  {
  }

  /** One round's pick: the first ready id of the scan, or the smallest id. */
  method PickNext(precedes: Adjacency, ghost e: Pairs, remaining: set<int>, scan: seq<int>) returns (id: int)
    requires Represents(precedes, e) && remaining != {} && Visits(scan, remaining)
    ensures id == Pick(e, remaining, scan)
  {
    var pick := FindReady(precedes, e, remaining, scan);
    if pick.Some? { id := pick.value; } else { id := Smallest(remaining); }
  }

  // ------------------------------------------------------------ build_chains

  ghost function IdsOf(es: seq<ListEntry>): set<int> {
    set i | 0 <= i < |es| :: es[i].malId
  }

  /** The row an id is indexed under: the last one that carries it. */
  ghost predicate IsLast(es: seq<ListEntry>, i: nat) {
    i < |es| && forall j :: i < j < |es| ==> es[j].malId != es[i].malId
  }

  ghost predicate IndexesLast(es: seq<ListEntry>, index: map<int, nat>) {
    && index.Keys == IdsOf(es)
    && forall id :: id in index ==> IsLast(es, index[id]) && es[index[id]].malId == id
  }

  ghost predicate AllIndexed(es: seq<ListEntry>, index: map<int, nat>, order: seq<int>) {
    forall k :: 0 <= k < |order| ==> order[k] in index && index[order[k]] < |es|
  }

  /** Episodes of the first `k` seasons of an order, unknown as soon as one count is unknown. */
  ghost function CountBefore(es: seq<ListEntry>, index: map<int, nat>, order: seq<int>, k: nat): Option<int>
    requires k <= |order| && AllIndexed(es, index, order)
  {
    if k == 0 then Some(0)
    else
      match CountBefore(es, index, order, k - 1)
      case None => None
      case Some(o) =>
        match es[index[order[k - 1]]].totalEpisodes
        case None => None
        case Some(t) => Some(o + t)
  }

  ghost predicate IsSmallestOf(order: seq<int>, x: int) {
    x in order && forall y :: y in order ==> x <= y
  }

  /** Row `after` is row `before` placed at position `k` of its chain. */
  ghost predicate Placed(before: ListEntry, after: ListEntry, order: seq<int>, k: nat, offset: Option<int>,
                         markers: Markers)
  {
    && after == before.(franchise := after.franchise,
                        season := markers.season(before.title).GetOr(k + 1),
                        episodeOffset := offset.GetOr(0))
    && IsSmallestOf(order, after.franchise)
  }

  ghost predicate PlacedAt(before: seq<ListEntry>, after: seq<ListEntry>, index: map<int, nat>,
                           order: seq<int>, k: nat, markers: Markers)
    requires AllIndexed(before, index, order) && |after| == |before| && k < |order|
  {
    var row := index[order[k]];
    Placed(before[row], after[row], order, k, CountBefore(before, index, order, k), markers)
  }

  /** The rows of the first `n` members of one order are placed, and no others have changed. */
  ghost predicate OrderWritten(before: seq<ListEntry>, after: seq<ListEntry>, index: map<int, nat>,
                               order: seq<int>, n: nat, markers: Markers)
    requires AllIndexed(before, index, order) && n <= |order|
  {
    && |after| == |before|
    && (forall k :: 0 <= k < n ==> PlacedAt(before, after, index, order, k, markers))
    && (forall i :: 0 <= i < |before| && (before[i].malId !in order[..n] || !IsLast(before, i))
                ==> after[i] == before[i])
  }

  /** The row after its write. */
  function Rewritten(row: ListEntry, franchise: int, position: nat, offset: Option<int>, markers: Markers): ListEntry {
    row.(franchise := franchise,
         season := markers.season(row.title).GetOr(position + 1),
         episodeOffset := offset.GetOr(0))
  }

  lemma RowsDiffer(before: seq<ListEntry>, index: map<int, nat>, order: seq<int>, j: nat, k: nat)
    requires IndexesLast(before, index) && AllIndexed(before, index, order) && Distinct(order) && j < k < |order|
    ensures index[order[j]] != index[order[k]]
  {
    assert before[index[order[j]]].malId == order[j] && before[index[order[k]]].malId == order[k];
  }

  lemma RowUnwritten(before: seq<ListEntry>, index: map<int, nat>, order: seq<int>, n: nat)
    requires IndexesLast(before, index) && AllIndexed(before, index, order) && Distinct(order) && n < |order|
    ensures before[index[order[n]]].malId == order[n] && order[n] !in order[..n] && IsLast(before, index[order[n]])
    ensures order[..n + 1] == order[..n] + [order[n]]
  {
    forall k | 0 <= k < n ensures order[..n][k] != order[n] { assert order[..n][k] == order[k]; }
  }

  lemma PlacedNow(before: seq<ListEntry>, after: seq<ListEntry>, index: map<int, nat>, order: seq<int>, n: nat,
                  franchise: int, markers: Markers)
    requires AllIndexed(before, index, order) && |after| == |before| && n < |order| && IsSmallestOf(order, franchise)
    requires after[index[order[n]]] ==
             Rewritten(before[index[order[n]]], franchise, n, CountBefore(before, index, order, n), markers)
    ensures PlacedAt(before, after, index, order, n, markers)
  {
    hide CountBefore, IsSmallestOf;
  }

  lemma PlacedStill(before: seq<ListEntry>, prior: seq<ListEntry>, after: seq<ListEntry>, index: map<int, nat>,
                    order: seq<int>, k: nat, markers: Markers)
    requires AllIndexed(before, index, order) && |after| == |prior| == |before| && k < |order|
    requires PlacedAt(before, prior, index, order, k, markers) && after[index[order[k]]] == prior[index[order[k]]]
    ensures PlacedAt(before, after, index, order, k, markers)
  {
    hide CountBefore, IsSmallestOf;
  }

  lemma WriteStep(before: seq<ListEntry>, prior: seq<ListEntry>, index: map<int, nat>, order: seq<int>, n: nat,
                  franchise: int, markers: Markers)
    requires IndexesLast(before, index) && AllIndexed(before, index, order) && Distinct(order) && n < |order|
    requires OrderWritten(before, prior, index, order, n, markers) && IsSmallestOf(order, franchise)
    ensures var row, offset := index[order[n]], CountBefore(before, index, order, n);
            && prior[row] == before[row]
            && OrderWritten(before, prior[row := Rewritten(prior[row], franchise, n, offset, markers)], index, order,
                            n + 1, markers)
  {
    hide CountBefore, PlacedAt, Rewritten, IndexesLast, IsLast, IsSmallestOf, Distinct;
    var row := index[order[n]];
    var after := prior[row := Rewritten(prior[row], franchise, n, CountBefore(before, index, order, n), markers)];
    RowUnwritten(before, index, order, n);
    PlacedNow(before, after, index, order, n, franchise, markers);
    forall k | 0 <= k < n ensures PlacedAt(before, after, index, order, k, markers) {
      RowsDiffer(before, index, order, k, n);
      PlacedStill(before, prior, after, index, order, k, markers);
    }
  }

  lemma CountNext(es: seq<ListEntry>, index: map<int, nat>, order: seq<int>, k: nat)
    requires k < |order| && AllIndexed(es, index, order)
    ensures CountBefore(es, index, order, k + 1) ==
            var offset, total := CountBefore(es, index, order, k), es[index[order[k]]].totalEpisodes;
            if offset.Some? && total.Some? then Some(offset.value + total.value) else None
  {
  }

  ghost function ListPairs(es: seq<ListEntry>, relations: Relations): Pairs {
    SequelPairs(IdsOf(es), relations)
  }

  /** What `build_chains` leaves behind, for some emitted order of each component. */
  ghost predicate ChainsBuilt(before: seq<ListEntry>, after: seq<ListEntry>, index: map<int, nat>, relations: Relations,
                              markers: Markers, orders: seq<seq<int>>)
  {
    var e := ListPairs(before, relations);
    && |after| == |before| && IndexesLast(before, index)
    && Partition(IdsOf(before), orders)
    && (forall c :: 0 <= c < |orders| ==>
          && orders[c] != []
          && KahnOrder(e, orders[c])
          && IsComponent(Undirected(e), IdsOf(before), SetOf(orders[c])))
    && (forall c :: 0 <= c < |orders| ==> AllIndexed(before, index, orders[c]))
    && (forall c, k :: 0 <= c < |orders| && 0 <= k < |orders[c]| ==>
          PlacedAt(before, after, index, orders[c], k, markers))
    && (forall i :: 0 <= i < |before| && !IsLast(before, i) ==> after[i] == before[i])
  }

  method IndexById(entries: array<ListEntry>) returns (index: map<int, nat>)
    ensures IndexesLast(entries[..], index)
  {
    index := map[];
    for i := 0 to entries.Length
      invariant IndexesLast(entries[..i], index)
    {
      var id := entries[i].malId;
      ghost var prior := index;
      index := index[id := i];
      forall x | x in index ensures IsLast(entries[..i + 1], index[x]) && entries[..i + 1][index[x]].malId == x {
        if x != id { assert IsLast(entries[..i], prior[x]); }
      }
      assert IdsOf(entries[..i + 1]) == IdsOf(entries[..i]) + {id} by { IdsOfNext(entries[..], i); }
    }
    assert entries[..entries.Length] == entries[..];
  }

  lemma IdsOfNext(es: seq<ListEntry>, i: nat)
    requires i < |es|
    ensures IdsOf(es[..i + 1]) == IdsOf(es[..i]) + {es[i].malId}
  {
    forall x | x in IdsOf(es[..i]) ensures x in IdsOf(es[..i + 1]) {
      var j :| 0 <= j < i && es[..i][j].malId == x;
      assert es[..i + 1][j].malId == x;
    }
    assert es[..i + 1][i] == es[i];
  }

  /** The write loop for one component: franchise, season and offset in place. */
  method WriteOrder(entries: array<ListEntry>, index: map<int, nat>, franchise: int, ordered: seq<int>,
                    markers: Markers)
    requires IndexesLast(entries[..], index) && Distinct(ordered) && IsSmallestOf(ordered, franchise)
    requires AllIndexed(entries[..], index, ordered)
    modifies entries
    ensures OrderWritten(old(entries[..]), entries[..], index, ordered, |ordered|, markers)
  {
    hide OrderWritten, CountBefore, IndexesLast, IsSmallestOf;
    ghost var before := entries[..];
    var offset: Option<int> := Some(0);
    NothingWritten(before, index, ordered, markers);
    for position := 0 to |ordered|
      invariant entries.Length == |before| && offset == CountBefore(before, index, ordered, position)
      invariant OrderWritten(before, entries[..], index, ordered, position, markers)
    {
      var i := index[ordered[position]];
      ghost var prior := entries[..];
      WriteStep(before, prior, index, ordered, position, franchise, markers);
      CountNext(before, index, ordered, position);
      var total := entries[i].totalEpisodes;
      entries[i] := Rewritten(entries[i], franchise, position, offset, markers);
      assert entries[..] == prior[i := entries[i]];
      offset := if offset.Some? && total.Some? then Some(offset.value + total.value) else None;
    }
  }

  lemma NothingWritten(before: seq<ListEntry>, index: map<int, nat>, order: seq<int>, markers: Markers)
    requires AllIndexed(before, index, order)
    ensures OrderWritten(before, before, index, order, 0, markers)
    ensures CountBefore(before, index, order, 0) == Some(0)
  {
  }

  /** Everything but the three chain fields. */
  ghost function Rest(x: ListEntry): ListEntry {
    x.(franchise := 0, season := 0, episodeOffset := 0)
  }

  ghost predicate SameRest(before: seq<ListEntry>, after: seq<ListEntry>) {
    |after| == |before| && forall i :: 0 <= i < |before| ==> Rest(after[i]) == Rest(before[i])
  }

  lemma SameRestSameRows(before: seq<ListEntry>, after: seq<ListEntry>, index: map<int, nat>)
    requires SameRest(before, after) && IndexesLast(before, index)
    ensures IndexesLast(after, index) && IdsOf(after) == IdsOf(before)
    ensures forall i :: 0 <= i < |before| ==> (IsLast(after, i) <==> IsLast(before, i))
  {
    var n := |before|;
    forall i | 0 <= i < n ensures after[i].malId == before[i].malId {
      assert Rest(after[i]).malId == Rest(before[i]).malId;
    }
    assert IdsOf(after) == IdsOf(before);
  }

  lemma {:induction false} SameRestSameCounts(before: seq<ListEntry>, after: seq<ListEntry>, index: map<int, nat>,
                                              order: seq<int>, k: nat)
    requires SameRest(before, after) && AllIndexed(before, index, order) && k <= |order|
    ensures CountBefore(after, index, order, k) == CountBefore(before, index, order, k)
  {
    if k > 0 {
      SameRestSameCounts(before, after, index, order, k - 1);
      var row := index[order[k - 1]];
      assert Rest(after[row]).totalEpisodes == Rest(before[row]).totalEpisodes;
    }
  }

  /** Rows of the first `n` components are placed, the others are as they were. */
  ghost predicate WrittenSoFar(before: seq<ListEntry>, after: seq<ListEntry>, index: map<int, nat>,
                               orders: seq<seq<int>>, markers: Markers)
  {
    && SameRest(before, after)
    && (forall c :: 0 <= c < |orders| ==> AllIndexed(before, index, orders[c]))
    && (forall c, k :: 0 <= c < |orders| && 0 <= k < |orders[c]|
                   ==> PlacedAt(before, after, index, orders[c], k, markers))
    && (forall i :: 0 <= i < |before| ==>
          (IsLast(before, i) ==> forall c :: 0 <= c < |orders| ==> before[i].malId !in orders[c]) ==>
          after[i] == before[i])
  }

  lemma WriteExtends(before: seq<ListEntry>, mid: seq<ListEntry>, after: seq<ListEntry>, index: map<int, nat>,
                     orders: seq<seq<int>>, order: seq<int>, markers: Markers)
    requires IndexesLast(before, index) && WrittenSoFar(before, mid, index, orders, markers)
    requires AllIndexed(mid, index, order) && OrderWritten(mid, after, index, order, |order|, markers)
    requires forall c :: 0 <= c < |orders| ==> SetOf(orders[c]) !! SetOf(order)
    ensures WrittenSoFar(before, after, index, orders + [order], markers)
  {
    SameRestSameRows(before, mid, index);
    assert order[..|order|] == order;
    var all := orders + [order];
    forall i | 0 <= i < |before| ensures Rest(after[i]) == Rest(before[i]) {
      assert Rest(mid[i]) == Rest(before[i]);
      if mid[i].malId in order && IsLast(mid, i) {
        var k :| 0 <= k < |order| && order[k] == mid[i].malId;
        assert PlacedAt(mid, after, index, order, k, markers);
        LastIsIndexed(mid, index, i);
      }
    }
    forall c, k | 0 <= c < |all| && 0 <= k < |all[c]| ensures PlacedAt(before, after, index, all[c], k, markers) {
      var row := index[all[c][k]];
      assert before[row].malId == all[c][k] && mid[row].malId == all[c][k];
      assert all[c][k] in SetOf(all[c]);
      if c < |orders| {
        assert PlacedAt(before, mid, index, orders[c], k, markers);
        assert all[c][k] !in order;
      } else {
        assert PlacedAt(mid, after, index, order, k, markers);
        SameRestSameCounts(before, mid, index, order, k);
        assert forall d :: 0 <= d < |orders| ==> before[row].malId !in SetOf(orders[d]);
        assert mid[row] == before[row];
      }
    }
    forall i | 0 <= i < |before| && (IsLast(before, i) ==> forall c :: 0 <= c < |all| ==> before[i].malId !in all[c])
      ensures after[i] == before[i]
    {
      assert Rest(mid[i]).malId == Rest(before[i]).malId;
      assert all[|orders|] == order;
      if IsLast(before, i) {
        forall c | 0 <= c < |orders| ensures before[i].malId !in orders[c] { assert all[c] == orders[c]; }
      }
    }
  }

  lemma LastIsIndexed(es: seq<ListEntry>, index: map<int, nat>, i: nat)
    requires IndexesLast(es, index) && IsLast(es, i)
    ensures es[i].malId in index && index[es[i].malId] == i
  {
  }

  /** One round of the main loop: order a component and write its rows. */
  method ChainComponent(entries: array<ListEntry>, index: map<int, nat>, precedes: Adjacency, ghost e: Pairs,
                        component: seq<int>, visit: set<int> -> seq<int>, markers: Markers,
                        ghost before: seq<ListEntry>, ghost orders: seq<seq<int>>)
    returns (ghost ordered: seq<int>)
    requires Represents(precedes, e) && IndexesLast(before, index)
    requires component != [] && SortedByKey(Identity(), component) && SetOf(component) <= index.Keys
    requires Iterates(visit, index.Keys)
    requires WrittenSoFar(before, entries[..], index, orders, markers)
    requires forall c :: 0 <= c < |orders| ==> SetOf(orders[c]) !! SetOf(component)
    modifies entries
    ensures KahnOrder(e, ordered) && SetOf(ordered) == SetOf(component) && IsEmitted(e, visit, ordered)
    ensures WrittenSoFar(before, entries[..], index, orders + [ordered], markers)
  {
    hide Represents, Iterates, Emitted, IsEmitted, KahnOrder, OrderWritten, PlacedAt;
    ghost var mid := entries[..];
    AllSubsets(visit, index.Keys, SetOf(component));
    var order := EmitOrder(component, precedes, e, visit);
    ordered := order;
    EmittedAsIs(e, visit, order);
    var franchise := component[0];
    SameRestSameRows(before, mid, index);
    FirstIsSmallest(component, order);
    forall k | 0 <= k < |order| ensures order[k] in index && index[order[k]] < |mid| {
      assert order[k] in SetOf(order);
    }
    WriteOrder(entries, index, franchise, order, markers);
    WriteExtends(before, mid, entries[..], index, orders, order, markers);
  }

  /** The loop over the components. */
  method ChainAll(entries: array<ListEntry>, index: map<int, nat>, precedes: Adjacency, ghost e: Pairs,
                  components: seq<seq<int>>, visit: set<int> -> seq<int>, markers: Markers)
    returns (ghost orders: seq<seq<int>>)
    requires Represents(precedes, e) && IndexesLast(entries[..], index)
    requires Partition(index.Keys, components) && Iterates(visit, index.Keys)
    requires forall c :: 0 <= c < |components| ==> components[c] != [] && SortedByKey(Identity(), components[c])
    modifies entries
    ensures OrdersOf(e, visit, components, orders)
    ensures WrittenSoFar(old(entries[..]), entries[..], index, orders, markers)
  {
    ghost var before := entries[..];
    orders := [];
    for c := 0 to |components|
      invariant OrdersOf(e, visit, components[..c], orders)
      invariant WrittenSoFar(before, entries[..], index, orders, markers)
    {
      NextIsApart(index.Keys, e, visit, components, c, orders);
      ghost var order := ChainComponent(entries, index, precedes, e, components[c], visit, markers, before, orders);
      OrdersOfNext(e, visit, components, c, orders, order);
      orders := orders + [order];
    }
    assert components[..|components|] == components;
  }

  lemma NextIsApart(ids: set<int>, e: Pairs, visit: set<int> -> seq<int>, components: seq<seq<int>>, c: nat,
                    orders: seq<seq<int>>)
    requires Partition(ids, components) && c < |components| && OrdersOf(e, visit, components[..c], orders)
    ensures SetOf(components[c]) <= ids
    ensures forall d :: 0 <= d < |orders| ==> SetOf(orders[d]) !! SetOf(components[c])
  {
    forall d | 0 <= d < |orders| ensures SetOf(orders[d]) !! SetOf(components[c]) {
      assert components[..c][d] == components[d];
    }
  }

  lemma OrdersOfNext(e: Pairs, visit: set<int> -> seq<int>, components: seq<seq<int>>, c: nat,
                     orders: seq<seq<int>>, order: seq<int>)
    requires c < |components| && OrdersOf(e, visit, components[..c], orders)
    requires KahnOrder(e, order) && SetOf(order) == SetOf(components[c]) && IsEmitted(e, visit, order)
    ensures OrdersOf(e, visit, components[..c + 1], orders + [order])
  {
    hide KahnOrder, IsEmitted;
    var all := orders + [order];
    forall d | 0 <= d < c + 1
      ensures KahnOrder(e, all[d]) && IsEmitted(e, visit, all[d]) && SetOf(all[d]) == SetOf(components[..c + 1][d])
    {
      if d < c { assert all[d] == orders[d] && components[..c + 1][d] == components[..c][d]; }
    }
  }

  /** `build_chains`: fill franchise, season and offset of every indexed entry, in place. `visit` is the
      order in which the sets of remaining ids are iterated; every other hash order is a free choice. */
  method BuildChains(entries: array<ListEntry>, relations: Relations, markers: Markers,
                     visit: set<int> -> seq<int>)
    returns (ghost index: map<int, nat>, ghost orders: seq<seq<int>>)
    requires Iterates(visit, IdsOf(entries[..]))
    modifies entries
    ensures forall c :: 0 <= c < |orders| ==> IsEmitted(ListPairs(old(entries[..]), relations), visit, orders[c])
    ensures ChainsBuilt(old(entries[..]), entries[..], index, relations, markers, orders)
  {
    var rows := IndexById(entries);
    index := rows;
    var ids := rows.Keys;
    ghost var before := entries[..];
    ghost var e := ListPairs(before, relations);
    var precedes, links := BuildGraphs(ids, relations);
    SequelPairsAreListed(ids, relations);
    UndirectedEdges(e);
    var components := Components(links, Undirected(e), ids);
    orders := ChainAll(entries, rows, precedes, e, components, visit, markers);
    SameSetsSamePartition(ids, e, visit, components, orders);
  }

  lemma FirstIsSmallest(component: seq<int>, ordered: seq<int>)
    requires component != [] && SortedByKey(Identity(), component) && SetOf(ordered) == SetOf(component)
    ensures IsSmallestOf(ordered, component[0])
  {
    assert component[0] in SetOf(ordered);
    forall y | y in ordered ensures component[0] <= y {
      assert y in SetOf(component);
      var k :| 0 <= k < |component| && component[k] == y;
      assert Identity()(component[0]) <= Identity()(component[k]);
    }
  }

  /** One emitted order for every component. */
  ghost predicate OrdersOf(e: Pairs, visit: set<int> -> seq<int>, parts: seq<seq<int>>, orders: seq<seq<int>>) {
    && |orders| == |parts|
    && forall c :: 0 <= c < |parts| ==>
         KahnOrder(e, orders[c]) && SetOf(orders[c]) == SetOf(parts[c]) && IsEmitted(e, visit, orders[c])
  }

  lemma SameSetsSamePartition(ids: set<int>, e: Pairs, visit: set<int> -> seq<int>, parts: seq<seq<int>>,
                              orders: seq<seq<int>>)
    requires Partition(ids, parts) && OrdersOf(e, visit, parts, orders)
    ensures Partition(ids, orders)
    ensures forall c :: 0 <= c < |parts| && parts[c] != [] ==> orders[c] != []
  {
    forall x | x in ids ensures exists i :: 0 <= i < |orders| && x in orders[i] {
      var i :| 0 <= i < |parts| && x in parts[i];
      assert x in SetOf(orders[i]);
    }
    forall c | 0 <= c < |parts| && parts[c] != [] ensures orders[c] != [] {
      assert parts[c][0] in SetOf(parts[c]);
    }
  }
}
