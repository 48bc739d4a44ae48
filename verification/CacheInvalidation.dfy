/**
 Cascading invalidation of resync/core/advanced_cache.py (lines 398-434), on values.

 `Store` is the pair that `invalidate` works on: the cached entries and the
 dependency graph. The main result is that a list of cascading invalidations
 is confluent: what is left, and the sum of the returned counts, depend only
 on the set of keys that were named.
 */
module CacheInvalidation {
  import opened DependencyGraph

  datatype Store<E> = Store(entries: map<Key, E>, graph: Graph)

  /** The keys that `invalidate(key, cascade=True)` drops: `key` and its cascade. */
  ghost function Doomed(g: Graph, key: Key): set<Key> {
    {key} + Reach(g.dependents, key)
  }

  /** The store after the keys of `ks` have left both the cache and the graph. */
  function Purge<E>(s: Store<E>, ks: set<Key>): Store<E> {
    Store(s.entries - ks, Without(s.graph, ks))
  }

  ghost function Invalidate<E>(s: Store<E>, key: Key): Store<E> {
    Purge(s, Doomed(s.graph, key))
  }

  /** How many of `ks` are cached, counted one key at a time. */
  ghost function Cached<E>(m: map<Key, E>, ks: set<Key>): nat
    decreases |ks|
  {
    if ks == {} then 0 else
    var k :| k in ks;
    (if k in m then 1 else 0) + Cached(m, ks - {k})
  }

  /** The count does not depend on the order of counting. */
  lemma {:induction false} CachedOfAny<E>(m: map<Key, E>, ks: set<Key>, k: Key)
    requires k in ks
    ensures Cached(m, ks) == (if k in m then 1 else 0) + Cached(m, ks - {k})
    decreases |ks|
  {
    var x :| x in ks && Cached(m, ks) == (if x in m then 1 else 0) + Cached(m, ks - {x});
    if x != k {
      CachedOfAny(m, ks - {x}, k);
      CachedOfAny(m, ks - {k}, x);
      assert ks - {x} - {k} == ks - {k} - {x};
    }
  }

  lemma {:induction false} CachedIsSize<E>(m: map<Key, E>, ks: set<Key>)
    ensures Cached(m, ks) == |m.Keys * ks|
    decreases |ks|
  {
    if ks == {} {
      assert m.Keys * ks == {};
    } else {
      var k :| k in ks;
      CachedOfAny(m, ks, k);
      CachedIsSize(m, ks - {k});
      assert m.Keys * ks == if k in m then m.Keys * (ks - {k}) + {k} else m.Keys * (ks - {k});
    }
  }

  /** What is dropped is counted by the drop in size. */
  lemma CachedIsDrop<E>(m: map<Key, E>, ks: set<Key>)
    ensures Cached(m, ks) == |m| - |m - ks|
  {
    CachedIsSize(m, ks);
    assert m.Keys == (m - ks).Keys + m.Keys * ks;
  }

  /** What `invalidate` returns: how many doomed keys were cached. */
  ghost function InvalidateCount<E>(s: Store<E>, key: Key): nat {
    Cached(s.entries, Doomed(s.graph, key))
  }

  /** `for k in ks: invalidate(k)` */
  ghost function InvalidateEach<E>(s: Store<E>, ks: seq<Key>): Store<E>
    decreases |ks|
  {
    if ks == [] then s else InvalidateEach(Invalidate(s, ks[0]), ks[1..])
  }

  ghost function CountEach<E>(s: Store<E>, ks: seq<Key>): nat
    decreases |ks|
  {
    if ks == [] then 0 else InvalidateCount(s, ks[0]) + CountEach(Invalidate(s, ks[0]), ks[1..])
  }

  /** Everything that the given keys doom in one graph. */
  ghost function DoomedByAny(g: Graph, ks: set<Key>): set<Key> {
    ks + set k, x | k in ks && x in Reach(g.dependents, k) :: x
  }

  lemma DoomedIsClosed(g: Graph, key: Key)
    ensures Closed(g.dependents, Doomed(g, key))
  {
    ReachIsLeastClosedSet(g.dependents, key);
  }

  lemma WithoutReachesLess(g: Graph, gone: set<Key>, key: Key)
    ensures Reach(Without(g, gone).dependents, key) <= Reach(g.dependents, key)
  {
    var m := Without(g, gone).dependents;
    forall x | x in Reach(m, key) ensures x in Reach(g.dependents, key) {
      var p :| Walk(m, key, p, x);
      assert Walk(g.dependents, key, p, x);
      ReachIff(g.dependents, key, x);
    }
  }

  /**
   The path argument. Keys already gone form a closed set, so a walk to a key
   that is still there meets none of them and has lost no edge.
   */
  lemma RemovedEdgesHideNothing(g: Graph, gone: set<Key>, key: Key)
    requires Closed(g.dependents, gone)
    ensures gone + Doomed(Without(g, gone), key) == gone + Doomed(g, key)
    ensures Closed(g.dependents, gone + Doomed(g, key))
  {
    var m := Without(g, gone).dependents;
    WithoutReachesLess(g, gone, key);
    forall x | x in Reach(g.dependents, key) && x !in gone ensures x in Reach(m, key) {
      var p :| Walk(g.dependents, key, p, x);
      forall i, j | 0 <= i && j == i + 1 && j < |p| ensures p[j] in Lookup(m, p[i]) {
        if p[j] in gone {
          WalkStaysInside(g.dependents, gone, key, p, x, j, |p| - 1);
        }
        assert p[j] in Lookup(g.dependents, p[i]);
      }
      assert Walk(m, key, p, x);
      ReachIff(m, key, x);
    }
    DoomedIsClosed(g, key);
  }

  lemma PurgeTwice<E>(s: Store<E>, a: set<Key>, b: set<Key>)
    ensures Purge(Purge(s, a), b) == Purge(s, a + b)
  {
    WithoutTwice(s.graph, a, b);
    assert s.entries - a - b == s.entries - (a + b);
  }

  lemma PurgeNothing<E>(s: Store<E>)
    ensures Purge(s, {}) == s
  {
    WithoutNothing(s.graph);
    assert s.entries - {} == s.entries;
  }

  lemma DoomedByFirstAndRest(g: Graph, ks: seq<Key>)
    requires ks != []
    ensures DoomedByAny(g, Elements(ks)) == Doomed(g, ks[0]) + DoomedByAny(g, Elements(ks[1..]))
  {
    assert ks == [ks[0]] + ks[1..];
    assert Elements(ks) == {ks[0]} + Elements(ks[1..]);
  }

  /** One more invalidation once a closed set is gone. */
  lemma InvalidateAfterPurge<E>(s: Store<E>, gone: set<Key>, key: Key)
    requires Closed(s.graph.dependents, gone)
    ensures Invalidate(Purge(s, gone), key) == Purge(s, gone + Doomed(s.graph, key))
    ensures Closed(s.graph.dependents, gone + Doomed(s.graph, key))
  {
    RemovedEdgesHideNothing(s.graph, gone, key);
    PurgeTwice(s, gone, Doomed(Without(s.graph, gone), key));
  }

  /** The general step: some closed set is already gone, and a list of keys follows. */
  lemma {:induction false} EachAfterPurge<E>(s: Store<E>, gone: set<Key>, ks: seq<Key>)
    requires Closed(s.graph.dependents, gone)
    ensures InvalidateEach(Purge(s, gone), ks) == Purge(s, gone + DoomedByAny(s.graph, Elements(ks)))
    decreases |ks|
  {
    if ks == [] {
      assert gone + DoomedByAny(s.graph, Elements(ks)) == gone;
    } else {
      var first, rest := Doomed(s.graph, ks[0]), DoomedByAny(s.graph, Elements(ks[1..]));
      InvalidateAfterPurge(s, gone, ks[0]);
      EachAfterPurge(s, gone + first, ks[1..]);
      DoomedByFirstAndRest(s.graph, ks);
      assert gone + (first + rest) == gone + first + rest;
    }
  }

  lemma {:induction false} CountEachIsDrop<E>(s: Store<E>, ks: seq<Key>)
    ensures CountEach(s, ks) == |s.entries| - |InvalidateEach(s, ks).entries|
    decreases |ks|
  {
    if ks != [] {
      CachedIsDrop(s.entries, Doomed(s.graph, ks[0]));
      CountEachIsDrop(Invalidate(s, ks[0]), ks[1..]);
    }
  }

  /** A list of invalidations purges the union of what its keys doom in the first graph. */
  lemma InvalidateEachIsUnion<E>(s: Store<E>, ks: seq<Key>)
    ensures InvalidateEach(s, ks) == Purge(s, DoomedByAny(s.graph, Elements(ks)))
    ensures CountEach(s, ks) == Cached(s.entries, DoomedByAny(s.graph, Elements(ks)))
  {
    assert {} + DoomedByAny(s.graph, Elements(ks)) == DoomedByAny(s.graph, Elements(ks));
    PurgeNothing(s);
    EachAfterPurge(s, {}, ks);
    CountEachIsDrop(s, ks);
    CachedIsDrop(s.entries, DoomedByAny(s.graph, Elements(ks)));
  }

  /**
   Confluence: two lists naming the same keys, in any order and with any
   repetitions, leave the same cache and the same graph and report the same total.
   */
  lemma InvalidationsAreConfluent<E>(s: Store<E>, ks: seq<Key>, ls: seq<Key>)
    requires Elements(ks) == Elements(ls)
    ensures InvalidateEach(s, ks) == InvalidateEach(s, ls)
    ensures CountEach(s, ks) == CountEach(s, ls)
  {
    InvalidateEachIsUnion(s, ks);
    InvalidateEachIsUnion(s, ls);
  }

  /** One call: exactly the key and what it reaches go, every other entry stays as it was. */
  lemma InvalidateExactly<E>(s: Store<E>, key: Key, k: Key)
    ensures var t := Invalidate(s, key);
      && (k in t.entries <==> k in s.entries && k != key && !Reaches(s.graph.dependents, key, k))
      && (k in t.entries ==> t.entries[k] == s.entries[k])
  {
    ReachIff(s.graph.dependents, key, k);
  }

  /** The count is the drop in size. */
  lemma InvalidateCountsDrop<E>(s: Store<E>, key: Key)
    ensures InvalidateCount(s, key) == |s.entries| - |Invalidate(s, key).entries|
  {
    CachedIsDrop(s.entries, Doomed(s.graph, key));
  }

  /** Afterwards nothing depends on the key, nor on anything that went with it. */
  lemma InvalidateIsolates<E>(s: Store<E>, key: Key, k: Key)
    requires k in Doomed(s.graph, key)
    ensures var g := Invalidate(s, key).graph;
      Lookup(g.dependents, k) == {} && Lookup(g.dependencies, k) == {}
  {
    DoomedIsClosed(s.graph, key);
    assert Lookup(s.graph.dependents, k) <= Doomed(s.graph, key);
  }

  /** An immediate second call finds nothing: it returns 0 and changes nothing. */
  lemma SecondCallIsIdle<E>(s: Store<E>, key: Key)
    ensures var t := Invalidate(s, key);
      Invalidate(t, key) == t && InvalidateCount(t, key) == 0
  {
    var t := Invalidate(s, key);
    InvalidationsAreConfluent(s, [key], [key, key]);
    assert [key, key][1..] == [key] && [key][1..] == [];
    assert InvalidateEach(s, [key]) == InvalidateEach(Invalidate(s, key), []);
    assert InvalidateEach(s, [key, key]) == InvalidateEach(t, [key]) == InvalidateEach(Invalidate(t, key), []);
    assert CountEach(s, [key]) == InvalidateCount(s, key) + CountEach(t, []);
    assert CountEach(s, [key, key]) == InvalidateCount(s, key) + CountEach(t, [key]);
    assert CountEach(t, [key]) == InvalidateCount(t, key) + CountEach(Invalidate(t, key), []);
  }

  // --------------------------------------------------- cascades after eviction

  /** A walk that enters none of `gone`. */
  ghost predicate WalkAvoiding(m: Adjacency, gone: set<Key>, a: Key, p: seq<Key>, b: Key) {
    Walk(m, a, p, b) && forall i :: 1 <= i < |p| ==> p[i] !in gone
  }

  /**
   Eviction removes keys that are not closed under dependents. A later cascade
   then reaches exactly what it can reach without entering an evicted key.
   */
  lemma CascadeAfterEviction(g: Graph, gone: set<Key>, a: Key, b: Key)
    ensures Reaches(Without(g, gone).dependents, a, b) <==>
            exists p :: WalkAvoiding(g.dependents, gone, a, p, b)
  {
    var m := Without(g, gone).dependents;
    forall p | Walk(m, a, p, b) ensures WalkAvoiding(g.dependents, gone, a, p, b) {
      forall i | 1 <= i < |p| ensures p[i] in Lookup(g.dependents, p[i - 1]) && p[i] !in gone {
        assert p[i] in Lookup(m, p[i - 1]);
      }
    }
    forall p | WalkAvoiding(g.dependents, gone, a, p, b) ensures Walk(m, a, p, b) {
      forall i, j | 0 <= i && j == i + 1 && j < |p| ensures p[j] in Lookup(m, p[i]) {
        assert p[j] in Lookup(g.dependents, p[i]);
      }
    }
  }

  /** So coherence is not transitive across evictions: losing the middle of a chain saves its end. */
  lemma EvictionShortensCascades()
    ensures var g := Graph(map["a" := {"b"}, "b" := {"c"}], map["b" := {"a"}, "c" := {"b"}], map[]);
      "c" in Doomed(g, "a") && "c" !in Doomed(Without(g, {"b"}), "a")
  {
    var g := Graph(map["a" := {"b"}, "b" := {"c"}], map["b" := {"a"}, "c" := {"b"}], map[]);
    assert Walk(g.dependents, "a", ["a", "b", "c"], "c");
    ReachIff(g.dependents, "a", "c");
    ReachIsLeastClosedSet(Without(g, {"b"}).dependents, "a");
    assert Lookup(Without(g, {"b"}).dependents, "a") == {} && Closed(Without(g, {"b"}).dependents, {});
  }
}
