/**
 What the dependency graph of resync/core/advanced_cache.py holds after whole
 runs of the cache, in terms of the puts and removals of the run alone.
 */
module CacheGraphRuns {
  import opened DependencyGraph
  import opened CacheInvalidation
  import opened AdvancedCache
  import opened CacheRuns

  predicate HasEdge(g: Graph, u: Key, v: Key, asTag: bool) {
    v in Lookup(if asTag then g.tags else g.dependents, u)
  }

  /** The step puts `v` with `u` among its dependencies, or among its tags. */
  predicate PutsWith(op: Op, u: Key, v: Key, asTag: bool) {
    Puts(op, v) && u in (if asTag then op.put.tags else op.put.dependencies)
  }

  /** The step takes `v` from the graph: a put evicts it to make room, a cascade dooms it, or a cleanup drops it. */
  ghost predicate Removes(s: State, op: Op, t: State, v: Key) {
    match op
    case PutOp(p) => exists room :: IsRoom(s, p, t, room) && v in s.entries && v !in room.entries
    case InvalidateOp(key, cascade) => cascade && v in Doomed(s.graph, key)
    case CleanupOp(now) =>
      && v in s.entries
      && var age := now - s.entries[v].createdAt;
         age > s.entries[v].ttl as real || (s.entries[v].hitRate < 0.1 && age > 3600.0)
    case _ => false
  }

  /** `room` is the state between the evictions of a put and its insertion. */
  ghost predicate IsRoom(s: State, p: Put, t: State, room: State) {
    MakeRoom(s, p, room) && t == Inserted(room, p)
  }

  // ------------------------------------------------------------- one step

  /** What evictions take from the graph is exactly what they take from the cache. */
  ghost predicate Shrinks(s: State, t: State) {
    && t.entries == s.entries - (s.entries.Keys - t.entries.Keys) && t.entries.Keys <= s.entries.Keys
    && t.graph == Without(s.graph, s.entries.Keys - t.entries.Keys)
  }

  lemma EvictionShrinks(s: State, now: real, t: State)
    requires EvictStep(s, now, t)
    ensures Shrinks(s, t)
  {
    var victims :| IsEviction(s.entries, victims, now) && t == Evicted(s, victims);
    EvictedShrinks(s, victims);
  }

  lemma EvictedShrinks(s: State, victims: set<Key>)
    requires victims <= s.entries.Keys
    ensures Shrinks(s, Evicted(s, victims))
  {
    KeysTaken(s.entries, victims);
  }

  lemma KeysTaken<E>(m: map<Key, E>, gone: set<Key>)
    requires gone <= m.Keys
    ensures m.Keys - (m - gone).Keys == gone
  {
  }

  lemma ShrinksNot(s: State)
    ensures Shrinks(s, s)
  {
    assert s.entries.Keys - s.entries.Keys == {};
    WithoutNothing(s.graph);
    assert s.entries - {} == s.entries;
  }

  lemma ShrinksTwice(s: State, m: State, t: State)
    requires Shrinks(s, m) && Shrinks(m, t)
    ensures Shrinks(s, t)
  {
    WithoutTwice(s.graph, s.entries.Keys - m.entries.Keys, m.entries.Keys - t.entries.Keys);
    assert s.entries.Keys - m.entries.Keys + (m.entries.Keys - t.entries.Keys) == s.entries.Keys - t.entries.Keys;
  }

  lemma MaybeEvictShrinks(guard: bool, s: State, now: real, t: State)
    requires MaybeEvict(guard, s, now, t)
    ensures Shrinks(s, t)
  {
    if guard {
      EvictionShrinks(s, now, t);
    } else {
      ShrinksNot(s);
    }
  }

  lemma RoomShrinks(s: State, p: Put, room: State)
    requires MakeRoom(s, p, room)
    ensures Shrinks(s, room)
  {
    var m :| MaybeEvict(FullByCount(s), s, p.at, m) && MaybeEvict(FullByBytes(m, p.sizeBytes), m, p.at, room);
    MaybeEvictShrinks(FullByCount(s), s, p.at, m);
    MaybeEvictShrinks(FullByBytes(m, p.sizeBytes), m, p.at, room);
    ShrinksTwice(s, m, room);
  }

  /** How many of `n` entries are left after an eviction, if there is one. */
  function Left(n: nat, guard: bool): nat {
    if guard then n - Tenth(n) else n
  }

  lemma MaybeEvictLeaves(guard: bool, s: State, now: real, t: State)
    requires MaybeEvict(guard, s, now, t)
    ensures |t.entries| == Left(|s.entries|, guard)
    ensures t.stats == s.stats.(evictionCount := t.stats.evictionCount)
  {
    if guard {
      EvictionTakesQuota(s, now, t);
    }
  }

  lemma RoomLeaves(s: State, p: Put, room: State)
    requires MakeRoom(s, p, room)
    ensures |room.entries| == Left(Left(|s.entries|, FullByCount(s)), FullByBytes(s, p.sizeBytes))
  {
    var m :| MaybeEvict(FullByCount(s), s, p.at, m) && MaybeEvict(FullByBytes(m, p.sizeBytes), m, p.at, room);
    MaybeEvictLeaves(FullByCount(s), s, p.at, m);
    MaybeEvictLeaves(FullByBytes(m, p.sizeBytes), m, p.at, room);
  }

  lemma SizeTellsMember<E>(m: map<Key, E>, n: map<Key, E>, k: Key)
    requires |m| == |n| && forall x :: x != k ==> (x in m <==> x in n)
    ensures k in m <==> k in n
  {
    if k in m && k !in n {
      assert n.Keys <= m.Keys - {k};
      SmallerSet(n.Keys, m.Keys - {k});
    } else if k in n && k !in m {
      assert m.Keys <= n.Keys - {k};
      SmallerSet(m.Keys, n.Keys - {k});
    }
  }

  lemma SmallerSet(s: set<Key>, t: set<Key>)
    requires s <= t
    ensures |s| <= |t|
  {
    assert |t - s| == |t| - |s|;
  }

  lemma InsertionKeepsOthers(room: State, p: Put, k: Key)
    requires k != p.key
    ensures k in Inserted(room, p).entries <==> k in room.entries
  {
  }

  /** States tell what a put evicted, even if it was the very key that it puts. */
  lemma RoomIsUnique(s: State, p: Put, t: State, room: State, other: State, k: Key)
    requires IsRoom(s, p, t, room) && IsRoom(s, p, t, other)
    ensures k in room.entries <==> k in other.entries
  {
    forall x | x != p.key ensures x in room.entries <==> x in other.entries {
      InsertionKeepsOthers(room, p, x);
      InsertionKeepsOthers(other, p, x);
    }
    RoomLeaves(s, p, room);
    RoomLeaves(s, p, other);
    SizeTellsMember(room.entries, other.entries, p.key);
  }

  lemma PutEdges(s: State, p: Put, t: State, u: Key, v: Key, asTag: bool)
    requires PutStep(s, p, t)
    ensures HasEdge(t.graph, u, v, asTag) <==>
            PutsWith(PutOp(p), u, v, asTag) || (HasEdge(s.graph, u, v, asTag) && !Removes(s, PutOp(p), t, v))
  {
    var room :| MakeRoom(s, p, room) && t == Inserted(room, p);
    RoomShrinks(s, p, room);
    assert IsRoom(s, p, t, room);
    forall other | IsRoom(s, p, t, other) ensures v in other.entries <==> v in room.entries {
      RoomIsUnique(s, p, t, room, other, v);
    }
    assert Removes(s, PutOp(p), t, v) <==> v in s.entries.Keys - room.entries.Keys;
    WithoutDropsExactly(s.graph, s.entries.Keys - room.entries.Keys, u, v);
    FilingAdds(room.graph, p, u, v, asTag);
  }

  lemma FilingAdds(g: Graph, p: Put, u: Key, v: Key, asTag: bool)
    ensures HasEdge(Filed(g, p), u, v, asTag) <==> PutsWith(PutOp(p), u, v, asTag) || HasEdge(g, u, v, asTag)
  {
  }

  /** A step adds the edges it declares and removes those of the keys it removes, and no others. */
  lemma StepEdges(s: State, op: Op, t: State, u: Key, v: Key, asTag: bool)
    requires Step(s, op, t)
    ensures HasEdge(t.graph, u, v, asTag) <==>
            PutsWith(op, u, v, asTag) || (HasEdge(s.graph, u, v, asTag) && !Removes(s, op, t, v))
  {
    match op
    case PutOp(p) => PutEdges(s, p, t, u, v, asTag);
    case InvalidateOp(key, cascade) =>
      if cascade {
        WithoutDropsExactly(s.graph, Doomed(s.graph, key), u, v);
      }
    case CleanupOp(now) =>
      var gone := set k | k in s.entries && ShouldEvict(s.entries[k], now);
      WithoutDropsExactly(s.graph, gone, u, v);
    case _ =>
  }

  // ------------------------------------------------------------ whole runs

  /** Step `m` put `v` with `u`, and no step from then to `n` removed `v`. */
  ghost predicate StandsFrom(states: seq<State>, ops: seq<Op>, m: nat, n: nat, u: Key, v: Key, asTag: bool)
    requires n <= |ops| < |states|
  {
    m < n && PutsWith(ops[m], u, v, asTag) && Kept(states, ops, m + 1, n, v)
  }

  /** None of the steps from `m` to before `n` removes `v`. */
  ghost predicate Kept(states: seq<State>, ops: seq<Op>, m: nat, n: nat, v: Key)
    requires n <= |ops| < |states|
    decreases n
  {
    n <= m || (Kept(states, ops, m, n - 1, v) && !RemovesAt(states, ops, n - 1, v))
  }

  ghost predicate RemovesAt(states: seq<State>, ops: seq<Op>, j: nat, v: Key)
    requires j < |ops| < |states|
  {
    Removes(states[j], ops[j], states[j + 1], v)
  }

  ghost predicate Stands(states: seq<State>, ops: seq<Op>, n: nat, u: Key, v: Key, asTag: bool)
    requires n <= |ops| < |states|
  {
    exists m: nat :: StandsFrom(states, ops, m, n, u, v, asTag)
  }

  lemma StandsStep(states: seq<State>, ops: seq<Op>, n: nat, u: Key, v: Key, asTag: bool)
    requires n < |ops| < |states|
    ensures Stands(states, ops, n + 1, u, v, asTag) <==>
            PutsWith(ops[n], u, v, asTag) || (Stands(states, ops, n, u, v, asTag) && !RemovesAt(states, ops, n, v))
  {
    if PutsWith(ops[n], u, v, asTag) {
      assert StandsFrom(states, ops, n, n + 1, u, v, asTag);
    } else if Stands(states, ops, n, u, v, asTag) && !RemovesAt(states, ops, n, v) {
      var m: nat :| StandsFrom(states, ops, m, n, u, v, asTag);
      assert StandsFrom(states, ops, m, n + 1, u, v, asTag);
    } else if Stands(states, ops, n + 1, u, v, asTag) {
      var m: nat :| StandsFrom(states, ops, m, n + 1, u, v, asTag);
      assert StandsFrom(states, ops, m, n, u, v, asTag);
    }
  }

  lemma LastStepEdges(states: seq<State>, ops: seq<Op>, n: nat, u: Key, v: Key, asTag: bool)
    requires Run(states, ops) && 0 < n <= |ops|
    ensures HasEdge(states[n].graph, u, v, asTag) <==>
            PutsWith(ops[n - 1], u, v, asTag)
            || (HasEdge(states[n - 1].graph, u, v, asTag) && !RemovesAt(states, ops, n - 1, v))
  {
    assert StepAt(states, ops, n - 1);
    StepEdges(states[n - 1], ops[n - 1], states[n], u, v, asTag);
  }

  /**
   After any run of the cache the graph holds exactly the edges and tags that
   some put declared and whose dependent end no eviction, cleanup or cascade has
   removed since.
   */
  lemma {:induction false} RunGraphIsExact(states: seq<State>, ops: seq<Op>, n: nat, u: Key, v: Key, asTag: bool)
    requires Run(states, ops) && n <= |ops|
    ensures HasEdge(states[n].graph, u, v, asTag) <==> Stands(states, ops, n, u, v, asTag)
  {
    if n > 0 {
      RunGraphIsExact(states, ops, n - 1, u, v, asTag);
      StandsStep(states, ops, n - 1, u, v, asTag);
      LastStepEdges(states, ops, n, u, v, asTag);
    } else {
      assert !Stands(states, ops, n, u, v, asTag);
    }
  }

  /** A walk from `a` to `b` along edges that stand after `n` steps. */
  ghost predicate StandingWalk(states: seq<State>, ops: seq<Op>, n: nat, a: Key, p: seq<Key>, b: Key)
    requires n <= |ops| < |states|
  {
    && |p| >= 2 && p[0] == a && p[|p| - 1] == b
    && forall i, j :: 0 <= i && j == i + 1 && j < |p| ==> Stands(states, ops, n, p[i], p[j], false)
  }

  lemma WalkIffStanding(states: seq<State>, ops: seq<Op>, n: nat, a: Key, p: seq<Key>, b: Key)
    requires Run(states, ops) && n <= |ops|
    ensures Walk(states[n].graph.dependents, a, p, b) <==> StandingWalk(states, ops, n, a, p, b)
  {
    forall i, j | 0 <= i && j == i + 1 && j < |p|
      ensures p[j] in Lookup(states[n].graph.dependents, p[i]) <==> Stands(states, ops, n, p[i], p[j], false)
    {
      RunGraphIsExact(states, ops, n, p[i], p[j], false);
    }
  }

  /**
   What a cascade takes with it, over whole runs: the key, and what a walk leads
   to along dependencies that were declared by a put and have outlasted every
   eviction, cleanup and cascade since.
   */
  lemma CascadeFollowsStanding(states: seq<State>, ops: seq<Op>, n: nat, key: Key, b: Key)
    requires Run(states, ops) && n <= |ops|
    ensures b in Doomed(states[n].graph, key) <==>
            b == key || exists p :: StandingWalk(states, ops, n, key, p, b)
  {
    var m := states[n].graph.dependents;
    ReachIff(m, key, b);
    forall p ensures Walk(m, key, p, b) <==> StandingWalk(states, ops, n, key, p, b) {
      WalkIffStanding(states, ops, n, key, p, b);
    }
  }
}
