/**
 The dependency graph of resync/core/advanced_cache.py (lines 138-200).

 The value `Graph` holds what the three dictionaries hold; the class below
 updates them in place and is proved against the functions on `Graph`.
 Reachability is defined independently of any search, by paths.
 */
module DependencyGraph {

  type Key = string

  /** A `Dict[str, Set[str]]`; a missing key means the empty set. */
  type Adjacency = map<Key, set<Key>>

  datatype Graph = Graph(
    dependents: Adjacency,   // key -> the keys that depend on it
    dependencies: Adjacency, // key -> the keys it depends on
    tags: Adjacency)         // tag -> the keys carrying it

  const EMPTY_GRAPH := Graph(map[], map[], map[])

  function Lookup(m: Adjacency, k: Key): set<Key> {
    if k in m then m[k] else {}
  }

  function Elements(ks: seq<Key>): set<Key> {
    set k | k in ks
  }

  /** Adds `v` to the sets of all of `ks`. */
  function AddUnder(m: Adjacency, ks: set<Key>, v: Key): Adjacency {
    map u | u in m.Keys + ks :: Lookup(m, u) + (if u in ks then {v} else {})
  }

  /** Discards `ks` from every set. */
  function DiscardAll(m: Adjacency, ks: set<Key>): Adjacency {
    map u | u in m :: m[u] - ks
  }

  lemma SameAdjacency(m: Adjacency, n: Adjacency)
    requires m.Keys == n.Keys
    requires forall u, v :: u in m ==> (v in m[u] <==> v in n[u])
    ensures m == n
  {
    forall u | u in m ensures m[u] == n[u] {
      assert forall v :: v in m[u] <==> v in n[u];
    }
  }

  lemma AddUnderOne(m: Adjacency, u: Key, v: Key)
    ensures m[u := Lookup(m, u) + {v}] == AddUnder(m, {u}, v)
  {
    SameAdjacency(m[u := Lookup(m, u) + {v}], AddUnder(m, {u}, v));
  }

  lemma AddUnderNothing(m: Adjacency, v: Key)
    ensures AddUnder(m, {}, v) == m
  {
    SameAdjacency(AddUnder(m, {}, v), m);
  }

  lemma AddUnderStep(m: Adjacency, ks: set<Key>, u: Key, v: Key)
    ensures AddUnder(AddUnder(m, ks, v), {u}, v) == AddUnder(m, ks + {u}, v)
  {
    SameAdjacency(AddUnder(AddUnder(m, ks, v), {u}, v), AddUnder(m, ks + {u}, v));
  }

  /** Adds all of `ks` to the set of `u`. */
  function AddAll(m: Adjacency, u: Key, ks: set<Key>): Adjacency {
    if ks == {} then m else m[u := Lookup(m, u) + ks]
  }

  lemma AddAllStep(m: Adjacency, u: Key, ks: set<Key>, k: Key)
    ensures AddAll(AddAll(m, u, ks), u, {k}) == AddAll(m, u, ks + {k})
  {
    var once, all := AddAll(AddAll(m, u, ks), u, {k}), AddAll(m, u, ks + {k});
    assert once.Keys == all.Keys;
    assert once[u] == all[u];
  }

  function WithDependencies(g: Graph, key: Key, deps: set<Key>): Graph {
    Graph(AddUnder(g.dependents, deps, key),
          AddAll(g.dependencies, key, deps),
          g.tags)
  }

  function WithTags(g: Graph, key: Key, tags: set<Key>): Graph {
    g.(tags := AddUnder(g.tags, tags, key))
  }

  /** The graph after every key of `ks` has been removed. */
  function Without(g: Graph, ks: set<Key>): Graph {
    Graph(DiscardAll(g.dependents, ks), g.dependencies - ks, DiscardAll(g.tags, ks))
  }

  /** The two dependency maps describe one relation, read from its two ends. */
  ghost predicate Converse(g: Graph) {
    forall u, v :: v in Lookup(g.dependents, u) <==> u in Lookup(g.dependencies, v)
  }

  lemma ConversePreserved(g: Graph, key: Key, ks: set<Key>)
    requires Converse(g)
    ensures Converse(WithDependencies(g, key, ks))
    ensures Converse(WithTags(g, key, ks))
    ensures Converse(Without(g, ks))
  {
    var added, removed := WithDependencies(g, key, ks), Without(g, ks);
    forall u, v ensures v in Lookup(added.dependents, u) <==> u in Lookup(added.dependencies, v) {
      assert v in Lookup(g.dependents, u) <==> u in Lookup(g.dependencies, v);
    }
    forall u, v ensures v in Lookup(removed.dependents, u) <==> u in Lookup(removed.dependencies, v) {
      assert v in Lookup(g.dependents, u) <==> u in Lookup(g.dependencies, v);
    }
  }

  /** Removing keys deletes exactly the edges whose dependent end is removed. */
  lemma WithoutDropsExactly(g: Graph, ks: set<Key>, u: Key, v: Key)
    ensures v in Lookup(Without(g, ks).dependents, u) <==> v in Lookup(g.dependents, u) && v !in ks
    ensures v in Lookup(Without(g, ks).tags, u) <==> v in Lookup(g.tags, u) && v !in ks
    ensures u in Lookup(Without(g, ks).dependencies, v) <==> u in Lookup(g.dependencies, v) && v !in ks
  {
  }

  lemma WithoutTwice(g: Graph, a: set<Key>, b: set<Key>)
    ensures Without(Without(g, a), b) == Without(g, a + b)
  {
    SameAdjacency(DiscardAll(DiscardAll(g.dependents, a), b), DiscardAll(g.dependents, a + b));
    SameAdjacency(DiscardAll(DiscardAll(g.tags, a), b), DiscardAll(g.tags, a + b));
    assert g.dependencies - a - b == g.dependencies - (a + b);
  }

  lemma WithoutNothing(g: Graph)
    ensures Without(g, {}) == g
  {
    SameAdjacency(DiscardAll(g.dependents, {}), g.dependents);
    SameAdjacency(DiscardAll(g.tags, {}), g.tags);
    assert g.dependencies - {} == g.dependencies;
  }

  lemma WithDependenciesStep(g: Graph, key: Key, deps: set<Key>, d: Key)
    ensures WithDependencies(WithDependencies(g, key, deps), key, {d}) == WithDependencies(g, key, deps + {d})
  {
    AddUnderStep(g.dependents, deps, d, key);
    AddAllStep(g.dependencies, key, deps, d);
  }

  // ----------------------------------------------------------------- runs

  datatype GraphOp = Depend(key: Key, dependsOn: Key) | Tag(key: Key, newTags: seq<Key>) | Forget(key: Key)

  /** The graph after any calls of `add_dependency`, `add_tags` and `remove_key`. */
  ghost function GraphAfter(ops: seq<GraphOp>): Graph {
    if ops == [] then EMPTY_GRAPH else
    var g := GraphAfter(ops[..|ops| - 1]);
    match ops[|ops| - 1]
    case Depend(key, d) => WithDependencies(g, key, {d})
    case Tag(key, tags) => WithTags(g, key, Elements(tags))
    case Forget(key) => Without(g, {key})
  }

  /** Call `i` declared that `v` depends on `u`, or that it has the tag `u`. */
  predicate Declares(op: GraphOp, u: Key, v: Key, asTag: bool) {
    op.key == v && if asTag then op.Tag? && u in op.newTags else op.Depend? && op.dependsOn == u
  }

  /** `v` declared `u`, as a dependency or as a tag, and has not been removed since. */
  ghost predicate Stands(ops: seq<GraphOp>, u: Key, v: Key, asTag: bool) {
    exists i: nat :: StandsFrom(ops, i, u, v, asTag)
  }

  ghost predicate StandsFrom(ops: seq<GraphOp>, i: nat, u: Key, v: Key, asTag: bool) {
    i < |ops| && Declares(ops[i], u, v, asTag) && forall m :: i < m < |ops| ==> ops[m] != Forget(v)
  }

  lemma StandsStep(ops: seq<GraphOp>, u: Key, v: Key, asTag: bool)
    requires ops != []
    ensures var front, last := ops[..|ops| - 1], ops[|ops| - 1];
      Stands(ops, u, v, asTag) <==>
        Declares(last, u, v, asTag) || (last != Forget(v) && Stands(front, u, v, asTag))
  {
    var front, last := ops[..|ops| - 1], ops[|ops| - 1];
    if Declares(last, u, v, asTag) {
      assert StandsFrom(ops, |front|, u, v, asTag);
    } else if last != Forget(v) && Stands(front, u, v, asTag) {
      var i: nat :| StandsFrom(front, i, u, v, asTag);
      assert StandsFrom(ops, i, u, v, asTag);
    } else if Stands(ops, u, v, asTag) {
      var i: nat :| StandsFrom(ops, i, u, v, asTag);
      assert StandsFrom(front, i, u, v, asTag);
    }
  }

  /**
   After any run both dependency maps hold exactly the edges declared since the
   last removal of their dependent end, whatever happened to their other end,
   and the tags hold exactly the keys declared since their removal.
   */
  lemma {:induction false} GraphIsExact(ops: seq<GraphOp>, u: Key, v: Key)
    ensures v in Lookup(GraphAfter(ops).dependents, u) <==> Stands(ops, u, v, false)
    ensures u in Lookup(GraphAfter(ops).dependencies, v) <==> Stands(ops, u, v, false)
    ensures v in Lookup(GraphAfter(ops).tags, u) <==> Stands(ops, u, v, true)
  {
    if ops != [] {
      var front, last := ops[..|ops| - 1], ops[|ops| - 1];
      GraphIsExact(front, u, v);
      StandsStep(ops, u, v, false);
      StandsStep(ops, u, v, true);
      if last.Forget? {
        WithoutDropsExactly(GraphAfter(front), {last.key}, u, v);
      }
    }
  }

  // ---------------------------------------------------------------- paths

  /** A non-empty walk along dependent edges from `a` to `b`. */
  ghost predicate Walk(m: Adjacency, a: Key, p: seq<Key>, b: Key) {
    && |p| >= 2 && p[0] == a && p[|p| - 1] == b
    && forall i, j :: 0 <= i && j == i + 1 && j < |p| ==> p[j] in Lookup(m, p[i])
  }

  ghost predicate Reaches(m: Adjacency, a: Key, b: Key) {
    exists p :: Walk(m, a, p, b)
  }

  ghost predicate Closed(m: Adjacency, s: set<Key>) {
    forall u :: u in s ==> Lookup(m, u) <= s
  }

  /** Every key that occurs as a dependent. */
  function Targets(m: Adjacency): set<Key> {
    set u, v | u in m && v in m[u] :: v
  }

  /** The keys reachable from `a` by a non-empty walk. */
  ghost function Reach(m: Adjacency, a: Key): set<Key> {
    set b | b in Targets(m) && Reaches(m, a, b)
  }

  lemma ReachIff(m: Adjacency, a: Key, b: Key)
    ensures b in Reach(m, a) <==> Reaches(m, a, b)
  {
    if Reaches(m, a, b) {
      var p :| Walk(m, a, p, b);
      assert p[|p| - 1] in Lookup(m, p[|p| - 2]);
    }
  }

  lemma EdgeReaches(m: Adjacency, a: Key, b: Key)
    requires b in Lookup(m, a)
    ensures Reaches(m, a, b)
  {
    assert Walk(m, a, [a, b], b);
  }

  lemma ReachesTransitive(m: Adjacency, a: Key, b: Key, c: Key)
    requires Reaches(m, a, b) && Reaches(m, b, c)
    ensures Reaches(m, a, c)
  {
    var p :| Walk(m, a, p, b);
    var q :| Walk(m, b, q, c);
    var r := p + q[1..];
    forall i, j | 0 <= i && j == i + 1 && j < |r|
      ensures r[j] in Lookup(m, r[i])
    {
      if j < |p| {
        assert p[j] in Lookup(m, p[i]);
      } else {
        assert q[j - |p| + 1] in Lookup(m, q[i - |p| + 1]);
      }
    }
    assert Walk(m, a, r, c);
  }

  /** A walk that starts in a closed set never leaves it. */
  lemma {:induction false} WalkStaysInside(m: Adjacency, s: set<Key>, a: Key, p: seq<Key>, b: Key, i: nat, j: nat)
    requires Walk(m, a, p, b) && Closed(m, s)
    requires i <= j < |p| && p[i] in s
    ensures p[j] in s
    decreases j - i
  {
    if i < j {
      assert p[i + 1] in Lookup(m, p[i]);
      WalkStaysInside(m, s, a, p, b, i + 1, j);
    }
  }

  /** Reach is the least set that holds the direct dependents and is closed. */
  lemma ReachIsLeastClosedSet(m: Adjacency, a: Key)
    ensures Lookup(m, a) <= Reach(m, a) && Closed(m, Reach(m, a))
    ensures forall s :: Lookup(m, a) <= s && Closed(m, s) ==> Reach(m, a) <= s
  {
    forall b | b in Lookup(m, a) ensures b in Reach(m, a) {
      EdgeReaches(m, a, b);
      ReachIff(m, a, b);
    }
    forall u, v | u in Reach(m, a) && v in Lookup(m, u) ensures v in Reach(m, a) {
      EdgeReaches(m, u, v);
      ReachesTransitive(m, a, u, v);
      ReachIff(m, a, v);
    }
    forall s, b | Lookup(m, a) <= s && Closed(m, s) && b in Reach(m, a) ensures b in s {
      var p :| Walk(m, a, p, b);
      assert p[1] in Lookup(m, p[0]);
      WalkStaysInside(m, s, a, p, b, 1, |p| - 1);
    }
  }

  /** A closed ring of edges through `c[0]`. */
  ghost predicate IsCycle(m: Adjacency, c: seq<Key>) {
    && |c| >= 1
    && (forall i, j :: 0 <= i && j == i + 1 && j < |c| ==> c[j] in Lookup(m, c[i]))
    && c[0] in Lookup(m, c[|c| - 1])
  }

  /** The cascade of a key includes the key itself exactly when it lies on a cycle. */
  lemma InOwnReachIffOnCycle(m: Adjacency, a: Key)
    ensures a in Reach(m, a) <==> exists c :: IsCycle(m, c) && c[0] == a
  {
    ReachIff(m, a, a);
    if a in Reach(m, a) {
      var p :| Walk(m, a, p, a);
      assert p[|p| - 1] in Lookup(m, p[|p| - 2]);
      assert IsCycle(m, p[..|p| - 1]);
    }
    forall c | IsCycle(m, c) && c[0] == a ensures a in Reach(m, a) {
      assert Walk(m, a, c + [a], a);
    }
  }

  // ------------------------------------------------------- the cascade search

  /**
   The nested function of `cascade_invalidate` with the two sets it captures.
   The search is recursive, follows dependents in any order and visits each
   key once, so cycles are harmless.
   */
  class CascadeSearch {
    const edges: Adjacency
    var visited: set<Key>
    var toInvalidate: set<Key>

    constructor (edges: Adjacency)
      ensures this.edges == edges && visited == {} && toInvalidate == {}
    {
      this.edges := edges;
      visited, toInvalidate := {}, {};
    }

    method CollectDependents(current: Key, ghost universe: set<Key>)
      requires current in universe && Closed(edges, universe) && visited <= universe
      modifies this
      ensures old(visited) <= visited <= universe && old(toInvalidate) <= toInvalidate
      ensures current in visited && toInvalidate - old(toInvalidate) <= visited
      ensures forall v :: v in visited - old(visited) ==>
        && Lookup(edges, v) <= visited * toInvalidate
        && (v == current || Reaches(edges, current, v))
      ensures forall x :: x in toInvalidate - old(toInvalidate) ==> Reaches(edges, current, x)
      decreases universe - visited
    {
      if current in visited {
        return;
      }
      visited := visited + {current};
      var rest := Lookup(edges, current);
      while rest != {}
        invariant rest <= Lookup(edges, current)
        invariant old(visited) + {current} <= visited <= universe && old(toInvalidate) <= toInvalidate
        invariant forall d :: d in Lookup(edges, current) && d !in rest ==> d in visited && d in toInvalidate
        invariant toInvalidate - old(toInvalidate) <= visited
        invariant forall v :: v in visited - old(visited) - {current} ==>
          Lookup(edges, v) <= visited * toInvalidate && Reaches(edges, current, v)
        invariant forall x :: x in toInvalidate - old(toInvalidate) ==> Reaches(edges, current, x)
        decreases rest
      {
        var dependent :| dependent in rest;
        rest := rest - {dependent};
        EdgeReaches(edges, current, dependent);
        ghost var before, marked := visited, toInvalidate + {dependent};
        toInvalidate := toInvalidate + {dependent};
        CollectDependents(dependent, universe);
        forall v | (v in visited - before && v != dependent) || v in toInvalidate - marked
          ensures Reaches(edges, current, v)
        {
          ReachesTransitive(edges, current, dependent, v);
        }
      }
    }
  }

  // ------------------------------------------------------------ the class

  class CacheDependencyGraph {
    var dependencies: Adjacency         // key -> dependents
    var reverseDependencies: Adjacency  // key -> dependencies
    var tags: Adjacency                 // tag -> keys

    function Model(): Graph
      reads this
    {
      Graph(dependencies, reverseDependencies, tags)
    }

    constructor ()
      ensures Model() == EMPTY_GRAPH
    {
      dependencies, reverseDependencies, tags := map[], map[], map[];
    }

    method AddDependency(key: Key, dependsOn: Key)
      modifies this
      ensures Model() == WithDependencies(old(Model()), key, {dependsOn})
    {
      AddUnderOne(dependencies, dependsOn, key);
      dependencies := dependencies[dependsOn := Lookup(dependencies, dependsOn) + {key}];
      reverseDependencies := reverseDependencies[key := Lookup(reverseDependencies, key) + {dependsOn}];
    }

    method AddTags(key: Key, newTags: seq<Key>)
      modifies this`tags
      ensures Model() == WithTags(old(Model()), key, Elements(newTags))
    {
      AddUnderNothing(tags, key);
      for i := 0 to |newTags|
        invariant tags == AddUnder(old(tags), Elements(newTags[..i]), key)
      {
        assert Elements(newTags[..i + 1]) == Elements(newTags[..i]) + {newTags[i]};
        AddUnderOne(tags, newTags[i], key);
        AddUnderStep(old(tags), Elements(newTags[..i]), newTags[i], key);
        tags := tags[newTags[i] := Lookup(tags, newTags[i]) + {key}];
      }
      assert newTags[..|newTags|] == newTags;
    }

    /** Exactly the keys reachable by a non-empty walk, on any graph. */
    method CascadeInvalidate(key: Key) returns (toInvalidate: set<Key>)
      ensures toInvalidate == Reach(dependencies, key)
    {
      var search := new CascadeSearch(dependencies);
      search.CollectDependents(key, Targets(dependencies) + {key});
      toInvalidate := search.toInvalidate;
      assert Closed(dependencies, search.visited);
      assert Lookup(dependencies, key) <= toInvalidate;
      ReachIsLeastClosedSet(dependencies, key);
      forall x | x in toInvalidate ensures x in Reach(dependencies, key) {
        ReachIff(dependencies, key, x);
      }
    }

    method RemoveKey(key: Key)
      modifies this
      ensures Model() == Without(old(Model()), {key})
    {
      dependencies := DiscardFromAll(dependencies, key);
      if key in reverseDependencies {
        reverseDependencies := reverseDependencies - {key};
      }
      tags := DiscardFromAll(tags, key);
      assert old(reverseDependencies) - {key} == reverseDependencies;
    }

    /** `for s in m.values(): s.discard(key)` */
    static method DiscardFromAll(m: Adjacency, key: Key) returns (r: Adjacency)
      ensures r == DiscardAll(m, {key})
    {
      r := m;
      var todo := m.Keys;
      while todo != {}
        invariant todo <= m.Keys == r.Keys
        invariant forall u :: u in m ==> r[u] == if u in todo then m[u] else m[u] - {key}
        decreases todo
      {
        var u :| u in todo;
        r := r[u := r[u] - {key}];
        todo := todo - {u};
      }
    }
  }
}
