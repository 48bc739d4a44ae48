/**
 Whole runs of the cache of resync/core/advanced_cache.py.

 A run is any list of steps from the empty cache. What is proved of runs: the
 graph never forgets what a cached entry declared, the entry limit holds, the
 statistics add up, and no run serves an entry that an invalidation has made
 stale. What can be served beyond the time to live set for it is stated exactly.
 */
module CacheRuns {
  import opened DependencyGraph
  import opened CacheInvalidation
  import opened AdvancedCache
  import opened Wrappers

  /** What the entry under `k` declared is recorded in the graph. */
  ghost predicate Recorded(g: Graph, k: Key, e: Entry) {
    && (forall d :: d in e.dependencies ==> k in Lookup(g.dependents, d))
    && (forall t :: t in e.tags ==> k in Lookup(g.tags, t))
  }

  ghost predicate Coherent(s: State) {
    forall k :: k in s.entries ==> Recorded(s.graph, k, s.entries[k])
  }

  ghost predicate WithinLimit(s: State) {
    s.stats.maxEntries > 0 ==> |s.entries| <= s.stats.maxEntries
  }

  ghost predicate StatsAddUp(st: Stats) {
    && st.hits + st.misses == st.totalRequests
    && st.memoryHits + st.redisHits + st.databaseHits == st.hits
  }

  ghost predicate Sound(s: State) {
    Coherent(s) && Converse(s.graph) && WithinLimit(s) && StatsAddUp(s.stats)
  }

  /** The empty cache, with any limits. */
  ghost predicate Initial(s: State) {
    exists maxEntries, maxBytes ::
      s == State(map[], EMPTY_GRAPH, INITIAL_STATS.(maxEntries := maxEntries, maxMemoryBytes := maxBytes))
  }

  ghost predicate StepAt(states: seq<State>, ops: seq<Op>, i: nat)
    requires i < |ops| && |states| == |ops| + 1
  {
    Step(states[i], ops[i], states[i + 1])
  }

  ghost predicate Run(states: seq<State>, ops: seq<Op>) {
    && |states| == |ops| + 1
    && Initial(states[0])
    && forall i :: 0 <= i < |ops| ==> StepAt(states, ops, i)
  }

  // ------------------------------------------------------ what a step keeps

  /** Dropping entries, with or without the graph, keeps coherence. */
  lemma PurgeKeeps(s: State, gone: set<Key>, t: State)
    requires Coherent(s) && Converse(s.graph)
    requires t.entries == s.entries - gone && (t.graph == s.graph || t.graph == Without(s.graph, gone))
    ensures Coherent(t) && Converse(t.graph)
  {
    ConversePreserved(s.graph, "", gone);
    forall k | k in t.entries ensures Recorded(t.graph, k, t.entries[k]) {
      assert Recorded(s.graph, k, s.entries[k]);
    }
  }

  lemma PurgeShrinks<E>(m: map<Key, E>, gone: set<Key>)
    ensures |m - gone| <= |m|
    ensures gone <= m.Keys ==> |m - gone| == |m| - |gone|
  {
    CachedIsDrop(m, gone);
    CachedIsSize(m, gone);
    assert gone <= m.Keys ==> m.Keys * gone == gone;
  }

  /** One of ten, but at least one if there is any. */
  function Tenth(n: nat): nat {
    if n >= 20 then n / 10 else if n >= 1 then 1 else 0
  }

  lemma QuotaIsTenth(n: nat)
    ensures EvictionQuota(n) == Tenth(n)
  {
  }

  lemma EvictionTakes(s: State, now: real, t: State)
    requires EvictStep(s, now, t)
    ensures |t.entries| == |s.entries| - EvictionQuota(|s.entries|)
    ensures t.stats == s.stats.(evictionCount := s.stats.evictionCount + EvictionQuota(|s.entries|))
  {
    var victims :| IsEviction(s.entries, victims, now) && t == Evicted(s, victims);
    PurgeShrinks(s.entries, victims);
    CachedIsDrop(s.entries, victims);
  }

  lemma EvictionKeeps(s: State, now: real, t: State)
    requires EvictStep(s, now, t) && Coherent(s) && Converse(s.graph)
    ensures Coherent(t) && Converse(t.graph)
  {
    var victims :| IsEviction(s.entries, victims, now) && t == Evicted(s, victims);
    PurgeKeeps(s, victims, t);
  }

  /** An eviction takes exactly the quota, and takes it from the graph as well. */
  lemma EvictionTakesQuota(s: State, now: real, t: State)
    requires EvictStep(s, now, t)
    ensures |t.entries| == |s.entries| - Tenth(|s.entries|)
    ensures t.stats == s.stats.(evictionCount := s.stats.evictionCount + Tenth(|s.entries|))
    ensures Coherent(s) && Converse(s.graph) ==> Coherent(t) && Converse(t.graph)
  {
    EvictionTakes(s, now, t);
    QuotaIsTenth(|s.entries|);
    if Coherent(s) && Converse(s.graph) {
      EvictionKeeps(s, now, t);
    }
  }

  lemma MaybeEvictKeeps(guard: bool, s: State, now: real, t: State)
    requires MaybeEvict(guard, s, now, t)
    ensures |t.entries| <= |s.entries| && t.stats == s.stats.(evictionCount := t.stats.evictionCount)
    ensures guard && |s.entries| > 0 ==> |t.entries| < |s.entries|
    ensures Coherent(s) && Converse(s.graph) ==> Coherent(t) && Converse(t.graph)
  {
    if guard {
      EvictionTakesQuota(s, now, t);
    }
  }

  lemma MakeRoomKeeps(s: State, p: Put, t: State)
    requires MakeRoom(s, p, t) && Coherent(s) && Converse(s.graph) && WithinLimit(s)
    ensures Coherent(t) && Converse(t.graph)
    ensures t.stats == s.stats.(evictionCount := t.stats.evictionCount)
    ensures t.stats.maxEntries > 0 ==> |t.entries| < t.stats.maxEntries
  {
    var m :| MaybeEvict(FullByCount(s), s, p.at, m) && MaybeEvict(FullByBytes(m, p.sizeBytes), m, p.at, t);
    MaybeEvictKeeps(FullByCount(s), s, p.at, m);
    MaybeEvictKeeps(FullByBytes(m, p.sizeBytes), m, p.at, t);
  }

  lemma InsertedKeeps(s: State, p: Put)
    requires Coherent(s) && Converse(s.graph)
    ensures Coherent(Inserted(s, p)) && Converse(Inserted(s, p).graph)
    ensures |Inserted(s, p).entries| <= |s.entries| + 1
  {
    var g := WithDependencies(s.graph, p.key, Elements(p.dependencies));
    ConversePreserved(s.graph, p.key, Elements(p.dependencies));
    ConversePreserved(g, p.key, Elements(p.tags));
    var t := Inserted(s, p);
    assert t.graph == Filed(s.graph, p);
    forall k | k in t.entries ensures Recorded(t.graph, k, t.entries[k]) {
      if k == p.key {
        FilingRecords(s.graph, p);
      } else {
        FilingKeeps(s.graph, p, k, s.entries[k]);
      }
    }
    InsertionGrowsByOne(s.entries, p.key, NewEntry(p));
  }

  lemma FilingRecords(g: Graph, p: Put)
    ensures Recorded(Filed(g, p), p.key, NewEntry(p))
  {
  }

  lemma FilingKeeps(g: Graph, p: Put, k: Key, e: Entry)
    requires Recorded(g, k, e)
    ensures Recorded(Filed(g, p), k, e)
  {
  }

  lemma InsertionGrowsByOne<E>(m: map<Key, E>, k: Key, e: E)
    ensures |m[k := e]| <= |m| + 1
  {
    assert m[k := e].Keys == m.Keys + {k};
  }

  lemma WarmingKeeps(s: State, now: real)
    ensures |AfterWarming(s, now).entries| == |s.entries|
    ensures Coherent(s) ==> Coherent(AfterWarming(s, now))
  {
    var t := AfterWarming(s, now);
    assert t.entries.Keys == s.entries.Keys;
    if Coherent(s) {
      forall k | k in t.entries ensures Recorded(t.graph, k, t.entries[k]) {
        assert Recorded(s.graph, k, s.entries[k]);
      }
    }
  }

  lemma StepKeepsGraph(s: State, op: Op, t: State)
    requires Coherent(s) && Converse(s.graph) && WithinLimit(s) && Step(s, op, t)
    ensures Coherent(t) && Converse(t.graph) && WithinLimit(t)
    ensures t.stats.maxEntries == s.stats.maxEntries
  {
    match op
    case PutOp(p) =>
      var room :| MakeRoom(s, p, room) && t == Inserted(room, p);
      MakeRoomKeeps(s, p, room);
      InsertedKeeps(room, p);
    case LookupOp(key, now) =>
      if key in s.entries && IsExpired(s.entries[key], now) {
        PurgeKeeps(s, {key}, t);
        PurgeShrinks(s.entries, {key});
      } else {
        assert t.entries.Keys == s.entries.Keys;
        assert |t.entries| == |s.entries|;
      }
    case InvalidateOp(key, cascade) =>
      PurgeKeeps(s, Dropped(s.graph, key, cascade), t);
      PurgeShrinks(s.entries, Dropped(s.graph, key, cascade));
    case InvalidateTagOp(tag) =>
      PurgeKeeps(s, Lookup(s.graph.tags, tag), t);
      PurgeShrinks(s.entries, Lookup(s.graph.tags, tag));
    case CleanupOp(now) =>
      var gone := set k | k in s.entries && ShouldEvict(s.entries[k], now);
      PurgeKeeps(s, gone, t);
      PurgeShrinks(s.entries, gone);
    case WarmOp(now) => WarmingKeeps(s, now);
    case ShutdownOp =>
    case HitOp(_, _) =>
    case MissOp(_) =>
  }

  lemma StepKeepsStats(s: State, op: Op, t: State)
    requires Coherent(s) && Converse(s.graph) && WithinLimit(s) && Step(s, op, t) && StatsAddUp(s.stats)
    ensures StatsAddUp(t.stats)
  {
    if op.PutOp? {
      var room :| MakeRoom(s, op.put, room) && t == Inserted(room, op.put);
      MakeRoomKeeps(s, op.put, room);
    }
  }

  /** In every reachable state: coherence, converse maps, the entry limit, consistent statistics. */
  lemma {:induction false} ReachableIsSound(states: seq<State>, ops: seq<Op>, n: nat)
    requires Run(states, ops) && n < |states|
    ensures Sound(states[n])
    ensures states[n].stats.maxEntries == states[0].stats.maxEntries
  {
    if n > 0 {
      assert StepAt(states, ops, n - 1);
      ReachableIsSound(states, ops, n - 1);
      StepKeepsGraph(states[n - 1], ops[n - 1], states[n]);
      StepKeepsStats(states[n - 1], ops[n - 1], states[n]);
    }
  }

  // ------------------------------------------------------- after invalidation

  /** After a cascading invalidation no surviving entry declares a key that went. */
  lemma NothingStaleAfterInvalidate(s: State, key: Key, k: Key, d: Key)
    requires Coherent(s) && k in AfterInvalidate(s, key, true).entries
    requires d in Doomed(s.graph, key)
    ensures d !in AfterInvalidate(s, key, true).entries[k].dependencies
  {
    DoomedIsClosed(s.graph, key);
    assert Lookup(s.graph.dependents, d) <= Doomed(s.graph, key);
  }

  /** After an invalidation by tag no surviving entry carries the tag. */
  lemma NothingTaggedAfterInvalidateTag(s: State, tag: Key, k: Key)
    requires Coherent(s) && k in AfterInvalidateTag(s, tag).entries
    ensures tag !in AfterInvalidateTag(s, tag).entries[k].tags
  {
  }

  /**
   Invalidating a key without the cascade leaves every other entry and the
   whole graph, so a cascade that comes later makes up for it entirely: entries,
   graph and statistics are those of the cascade alone.
   */
  lemma CascadeCompletes(s: State, key: Key)
    ensures var t := AfterInvalidate(s, key, false);
      t.graph == s.graph && forall k :: k in s.entries && k != key ==> k in t.entries && t.entries[k] == s.entries[k]
    ensures AfterInvalidate(AfterInvalidate(s, key, false), key, true) == AfterInvalidate(s, key, true)
  {
    DropAgain(s.entries, key, Doomed(s.graph, key));
    CountAgain(s.entries, key, Doomed(s.graph, key));
  }

  /** The state after cascading invalidations of a list of keys, one after the other. */
  ghost function AfterInvalidateEach(s: State, ks: seq<Key>): State
    decreases |ks|
  {
    if ks == [] then s else AfterInvalidateEach(AfterInvalidate(s, ks[0], true), ks[1..])
  }

  lemma {:induction false} EachIsOnCore(s: State, ks: seq<Key>)
    ensures AfterInvalidateEach(s, ks) == WithCore(s, InvalidateEach(Core(s), ks), CountEach(Core(s), ks))
    decreases |ks|
  {
    if ks != [] {
      EachIsOnCore(AfterInvalidate(s, ks[0], true), ks[1..]);
    }
  }

  /** Confluence of the manager: the order of invalidations changes no entries, no graph and no statistics. */
  lemma ManagerInvalidationsAreConfluent(s: State, ks: seq<Key>, ls: seq<Key>)
    requires Elements(ks) == Elements(ls)
    ensures AfterInvalidateEach(s, ks) == AfterInvalidateEach(s, ls)
  {
    EachIsOnCore(s, ks);
    EachIsOnCore(s, ls);
    InvalidationsAreConfluent(Core(s), ks, ls);
  }

  // ------------------------------------------------------------- freshness

  predicate Puts(op: Op, k: Key) {
    op.PutOp? && op.put.key == k
  }

  /** Step `i` is the latest before `n` that puts `k`. */
  ghost predicate IsLatestPut(ops: seq<Op>, i: nat, n: nat, k: Key) {
    i < n <= |ops| && Puts(ops[i], k) && forall m :: i < m < n ==> !Puts(ops[m], k)
  }

  lemma LatestPutStays(ops: seq<Op>, i: nat, n: nat, k: Key)
    requires IsLatestPut(ops, i, n, k) && n < |ops| && !Puts(ops[n], k)
    ensures IsLatestPut(ops, i, n + 1, k)
  {
  }

  /** The step is one that must not leave an entry like `e` under `k` behind. */
  ghost predicate Spoils(s: State, op: Op, k: Key, e: Entry) {
    match op
    case InvalidateOp(key, cascade) =>
      k == key || (cascade && (k in Doomed(s.graph, key) || !(e.dependencies !! Doomed(s.graph, key))))
    case InvalidateTagOp(tag) => tag in e.tags
    case _ => false
  }

  /** `f` is `e` at a later time: its time to live can only have been extended. */
  ghost predicate SameDeclaration(e: Entry, f: Entry) {
    && e.value == f.value && e.dependencies == f.dependencies && e.tags == f.tags
    && e.createdAt == f.createdAt && e.sizeBytes == f.sizeBytes && e.ttl <= f.ttl
  }

  lemma EvictionKeepsEntries(guard: bool, s: State, now: real, t: State, k: Key)
    requires MaybeEvict(guard, s, now, t) && k in t.entries
    ensures k in s.entries && s.entries[k] == t.entries[k]
  {
  }

  lemma OtherPutKeepsEntry(s: State, p: Put, t: State, k: Key)
    requires PutStep(s, p, t) && k in t.entries && k != p.key
    ensures k in s.entries && s.entries[k] == t.entries[k]
  {
    var room :| MakeRoom(s, p, room) && t == Inserted(room, p);
    var m :| MaybeEvict(FullByCount(s), s, p.at, m) && MaybeEvict(FullByBytes(m, p.sizeBytes), m, p.at, room);
    EvictionKeepsEntries(FullByBytes(m, p.sizeBytes), m, p.at, room, k);
    EvictionKeepsEntries(FullByCount(s), s, p.at, m, k);
  }

  lemma InvalidationSparesUnspoiled(s: State, key: Key, cascade: bool, k: Key)
    requires Coherent(s) && k in AfterInvalidate(s, key, cascade).entries
    ensures !Spoils(s, InvalidateOp(key, cascade), k, s.entries[k])
  {
    if cascade {
      forall d | d in s.entries[k].dependencies ensures d !in Doomed(s.graph, key) {
        if d in Doomed(s.graph, key) {
          NothingStaleAfterInvalidate(s, key, k, d);
        }
      }
    }
  }

  /** An entry that a step did not put was there before, and the step did not spoil it. */
  lemma SurvivorWasThere(s: State, op: Op, t: State, k: Key)
    requires Coherent(s) && Step(s, op, t) && k in t.entries && !Puts(op, k)
    ensures k in s.entries && SameDeclaration(s.entries[k], t.entries[k])
    ensures !Spoils(s, op, k, t.entries[k])
  {
    match op
    case PutOp(p) => OtherPutKeepsEntry(s, p, t, k);
    case InvalidateOp(key, cascade) => InvalidationSparesUnspoiled(s, key, cascade, k);
    case InvalidateTagOp(tag) => NothingTaggedAfterInvalidateTag(s, tag, k);
    case _ =>
  }

  /**
   Freshness over whole runs. Whatever is cached at time `n` comes from the
   latest `set` of its key, say at `i`, and no step since then invalidated the
   key, a key it declared as a dependency, anything these depend on in the
   graph of that moment, or a tag it carries.
   */
  lemma {:induction false} CachedMeansFresh(states: seq<State>, ops: seq<Op>, n: nat, k: Key) returns (i: nat)
    requires Run(states, ops) && n < |states| && k in states[n].entries
    ensures IsLatestPut(ops, i, n, k)
    ensures SameDeclaration(NewEntry(ops[i].put), states[n].entries[k])
    ensures forall m :: i < m < n ==> !Spoils(states[m], ops[m], k, states[n].entries[k])
  {
    assert n > 0;
    var s, op, t := states[n - 1], ops[n - 1], states[n];
    assert StepAt(states, ops, n - 1);
    if Puts(op, k) {
      i := n - 1;
    } else {
      ReachableIsSound(states, ops, n - 1);
      SurvivorWasThere(s, op, t, k);
      i := CachedMeansFresh(states, ops, n - 1, k);
      LatestPutStays(ops, i, n - 1, k);
      forall m | i < m < n
        ensures !Spoils(states[m], ops[m], k, t.entries[k])
      {
        if m < n - 1 {
          assert !Spoils(states[m], ops[m], k, s.entries[k]);
        }
      }
    }
  }

  // --------------------------------------------------------- time to live

  /** Step `m` is a warming pass that extends the time to live of the entry under `k`. */
  ghost predicate ExtendsAt(states: seq<State>, ops: seq<Op>, m: nat, k: Key) {
    && m < |ops| && m < |states|
    && ops[m].WarmOp? && k in states[m].entries && IsExtended(states[m].entries[k], ops[m].now)
  }

  /** The time to live at step `n` of what was put at step `i`: the one set, or the latest extension. */
  ghost function TtlInForce(states: seq<State>, ops: seq<Op>, i: nat, n: nat, k: Key): int
    requires i < n <= |ops| <= |states| && Puts(ops[i], k)
    decreases n
  {
    if n == i + 1 then ops[i].put.ttl
    else if ExtendsAt(states, ops, n - 1, k) then DynamicTtl(states[n - 1].entries[k], ops[n - 1].now)
    else TtlInForce(states, ops, i, n - 1, k)
  }

  lemma StepTtl(s: State, op: Op, t: State, k: Key)
    requires Coherent(s) && Step(s, op, t) && k in t.entries
    ensures Puts(op, k) ==> t.entries[k] == NewEntry(op.put)
    ensures !Puts(op, k) ==> k in s.entries
    ensures !Puts(op, k) ==>
      t.entries[k].ttl ==
      if op.WarmOp? && IsExtended(s.entries[k], op.now) then DynamicTtl(s.entries[k], op.now) else s.entries[k].ttl
  {
    if op.PutOp? && op.put.key != k {
      OtherPutKeepsEntry(s, op.put, t, k);
    } else if !op.PutOp? {
      SurvivorWasThere(s, op, t, k);
    }
  }

  /** The last step of a run, as far as the time to live under `k` goes. */
  lemma LastStepTtl(states: seq<State>, ops: seq<Op>, n: nat, k: Key)
    requires Run(states, ops) && 0 < n < |states| && k in states[n].entries
    ensures Puts(ops[n - 1], k) ==> states[n].entries[k].ttl == ops[n - 1].put.ttl
    ensures !Puts(ops[n - 1], k) ==> k in states[n - 1].entries
    ensures !Puts(ops[n - 1], k) ==>
      states[n].entries[k].ttl ==
      if ExtendsAt(states, ops, n - 1, k) then DynamicTtl(states[n - 1].entries[k], ops[n - 1].now)
      else states[n - 1].entries[k].ttl
  {
    assert StepAt(states, ops, n - 1);
    ReachableIsSound(states, ops, n - 1);
    StepTtl(states[n - 1], ops[n - 1], states[n], k);
  }

  /** In every run an entry's time to live is the one in force. */
  lemma {:induction false} TtlIsExact(states: seq<State>, ops: seq<Op>, i: nat, n: nat, k: Key)
    requires Run(states, ops) && n < |states| && k in states[n].entries && IsLatestPut(ops, i, n, k)
    ensures states[n].entries[k].ttl == TtlInForce(states, ops, i, n, k)
    decreases n
  {
    LastStepTtl(states, ops, n, k);
    if i < n - 1 {
      TtlIsExact(states, ops, i, n - 1, k);
    }
  }

  /** Some warming pass between steps `i` and `n` extends the time to live of the entry under `k`. */
  ghost predicate ExtendedBetween(states: seq<State>, ops: seq<Op>, i: nat, n: nat, k: Key) {
    exists m :: i < m < n && ExtendsAt(states, ops, m, k)
  }

  /** The time to live never shrinks, and it grows exactly when a warming pass extends it. */
  lemma {:induction false} TtlGrowsIff(states: seq<State>, ops: seq<Op>, i: nat, n: nat, k: Key)
    requires Run(states, ops) && n < |states| && k in states[n].entries && IsLatestPut(ops, i, n, k)
    ensures TtlInForce(states, ops, i, n, k) >= ops[i].put.ttl
    ensures TtlInForce(states, ops, i, n, k) > ops[i].put.ttl <==> ExtendedBetween(states, ops, i, n, k)
    decreases n
  {
    if i < n - 1 {
      LastStepTtl(states, ops, n, k);
      TtlGrowsIff(states, ops, i, n - 1, k);
      TtlIsExact(states, ops, i, n - 1, k);
    }
  }

  /** What `get` serves from memory is the value last set for the key, within the time to live in force. */
  lemma HitIsLatestValue(states: seq<State>, ops: seq<Op>, n: nat, k: Key, now: real) returns (i: nat)
    requires Run(states, ops) && n < |states| && Found(states[n], k, now) != Null
    ensures IsLatestPut(ops, i, n, k) && Found(states[n], k, now) == ops[i].put.value
    ensures now - ops[i].put.at <= TtlInForce(states, ops, i, n, k) as real
  {
    i := CachedMeansFresh(states, ops, n, k);
    TtlIsExact(states, ops, i, n, k);
  }

  /** The clock reading that a step takes, if it takes one. */
  function Reading(op: Op): Option<real> {
    match op
    case PutOp(p) => Some(p.at)
    case LookupOp(_, now) => Some(now)
    case CleanupOp(now) => Some(now)
    case WarmOp(now) => Some(now)
    case _ => None
  }

  /** The latest reading of the steps, or 0 before the first. */
  function Clock(ops: seq<Op>): real {
    if ops == [] then 0.0
    else if Reading(ops[|ops| - 1]).Some? then Reading(ops[|ops| - 1]).value
    else Clock(ops[..|ops| - 1])
  }

  /** The clock does not run back. */
  ghost predicate Monotone(ops: seq<Op>) {
    forall i, j :: 0 <= i < j < |ops| ==> InOrder(Reading(ops[i]), Reading(ops[j]))
  }

  predicate InOrder(a: Option<real>, b: Option<real>) {
    a.Some? && b.Some? ==> a.value <= b.value
  }

  /** On a clock that does not run back no reading is later than the latest. */
  lemma {:induction false} ClockIsLatest(ops: seq<Op>, i: nat)
    requires Monotone(ops) && i < |ops| && Reading(ops[i]).Some?
    ensures Reading(ops[i]).value <= Clock(ops)
  {
    var n := |ops| - 1;
    if Reading(ops[n]).Some? {
      assert i < n ==> InOrder(Reading(ops[i]), Reading(ops[n]));
    } else {
      assert ops[..n][i] == ops[i];
      ClockIsLatest(ops[..n], i);
    }
  }

  /**
   At some instant from `clock` on the entry under `k` is served although the
   time to live set at step `i` is over.
   */
  ghost predicate OutlivesSetTtl(states: seq<State>, ops: seq<Op>, i: nat, n: nat, k: Key, clock: real)
    requires n < |states| && k in states[n].entries && i < |ops| && Puts(ops[i], k)
  {
    exists now :: now >= clock && !IsExpired(states[n].entries[k], now) && now - ops[i].put.at > ops[i].put.ttl as real
  }

  /**
   Exactly when a hit can still be older than the time to live that was set: a
   warming pass has extended it since, and the extension is not over yet.
   */
  lemma OutlivesSetTtlIff(states: seq<State>, ops: seq<Op>, i: nat, n: nat, k: Key, clock: real)
    requires Run(states, ops) && n < |states| && k in states[n].entries && IsLatestPut(ops, i, n, k)
    ensures OutlivesSetTtl(states, ops, i, n, k, clock) <==>
            ExtendedBetween(states, ops, i, n, k) && clock - ops[i].put.at <= TtlInForce(states, ops, i, n, k) as real
  {
    TtlIsExact(states, ops, i, n, k);
    TtlGrowsIff(states, ops, i, n, k);
    var j := CachedMeansFresh(states, ops, n, k);
    assert j == i;
    var e := states[n].entries[k];
    var end := ops[i].put.at + e.ttl as real;
    if e.ttl > ops[i].put.ttl && clock <= end {
      assert end >= clock && !IsExpired(e, end) && end - ops[i].put.at > ops[i].put.ttl as real;
    }
  }

  /** On a clock that does not run back: the same with the latest reading of the run. */
  lemma OutlivesFromNowIff(states: seq<State>, ops: seq<Op>, i: nat, n: nat, k: Key)
    requires Run(states, ops) && n < |states| && k in states[n].entries && IsLatestPut(ops, i, n, k)
    ensures OutlivesSetTtl(states, ops, i, n, k, Clock(ops[..n])) <==>
            ExtendedBetween(states, ops, i, n, k) && !IsExpired(states[n].entries[k], Clock(ops[..n]))
  {
    OutlivesSetTtlIff(states, ops, i, n, k, Clock(ops[..n]));
    TtlIsExact(states, ops, i, n, k);
    var j := CachedMeansFresh(states, ops, n, k);
    assert j == i;
  }

  /** Exactly which entries a warming pass extends. */
  lemma ExtendedIff(e: Entry, now: real)
    ensures IsExtended(e, now) <==>
      && e.hitRate > 0.5 && e.accessCount > 10
      && var (often, doubled) := (AccessesPerHour(e, now), e.hitRate > 0.8 && e.accessCount > 100);
         if often < 1.0 then e.ttl < 60
         else if doubled then e.ttl > 0 && (often > 10.0 ==> e.ttl < 86400)
         else often > 10.0 && 2 <= e.ttl < 86400
  {
  }

  /** The base of the dynamic time to live. */
  function BaseTtl(e: Entry): int {
    if e.hitRate > 0.8 && e.accessCount > 100 then 2 * e.ttl
    else if e.hitRate < 0.2 then (if e.ttl < 240 then 60 else e.ttl / 4) else e.ttl
  }

  /** Half as much again, up to a day, and cut to a whole number. */
  function HalfAgain(base: int): int {
    if base > 57600 then 86400 else if base >= 0 then 3 * base / 2 else -(3 * -base / 2)
  }

  lemma HalfAgainIs(base: int)
    ensures Truncated(AtMostDay(base as real * 1.5)) == HalfAgain(base)
  {
    if base <= 57600 {
      if base >= 0 {
        FloorOfHalves(base);
      } else {
        FloorOfHalves(-base);
        assert -(base as real * 1.5) == (-base) as real * 1.5;
      }
    }
  }

  lemma FloorOfHalves(n: int)
    requires n >= 0
    ensures (n as real * 1.5).Floor == 3 * n / 2
  {
    var q, r := 3 * n / 2, 3 * n % 2;
    assert 3 * n == 2 * q + r;
    assert n as real * 1.5 == q as real + r as real / 2.0;
  }

  /**
   The dynamic time to live in full. The base is doubled for what is hit often
   and many times, and a quarter, but at least a minute, for what is rarely hit.
   More than ten accesses an hour make it half as much again, up to a day, and
   less than one an hour make it half, but at least a minute.
   */
  lemma DynamicTtlIs(e: Entry, now: real)
    ensures var often, base := AccessesPerHour(e, now), BaseTtl(e);
      DynamicTtl(e, now) ==
      if often < 1.0 then (if base < 120 then 60 else base / 2)
      else if often <= 10.0 then base
      else HalfAgain(base)
  {
    HalfAgainIs(BaseTtl(e));
  }

  /** Accesses are counted per hour, and for at least one hour. */
  lemma AccessesPerHourIs(e: Entry, now: real)
    ensures now - e.createdAt <= 3600.0 ==> AccessesPerHour(e, now) == e.accessCount as real
    ensures now - e.createdAt > 3600.0 ==>
      AccessesPerHour(e, now) * (now - e.createdAt) == e.accessCount as real * 3600.0
  {
    var age := now - e.createdAt;
    if age > 3600.0 {
      assert AtLeastOne(age / 3600.0) == age / 3600.0;
      assert e.accessCount as real / (age / 3600.0) * (age / 3600.0) == e.accessCount as real;
    }
  }

  /** "k" is put at instant 0 with 300 seconds to live, and `hits` lookups at instant 100 follow. */
  function HotOps(value: Value, hits: nat): seq<Op> {
    if hits == 0 then [PutOp(Put("k", value, 300, [], [], 1, 0.0))]
    else HotOps(value, hits - 1) + [LookupOp("k", 100.0)]
  }

  lemma {:induction false} HotRun(value: Value, hits: nat) returns (states: seq<State>)
    ensures Run(states, HotOps(value, hits)) && |states| == hits + 2 && "k" in states[hits + 1].entries
    ensures var e := states[hits + 1].entries["k"];
      && e.value == value && e.createdAt == 0.0 && e.ttl == 300 && e.accessCount == hits
      && e.hitRate == if hits == 0 then 1.0 else hits as real / (100.0 / 60.0)
  {
    if hits == 0 {
      var s, p := State(map[], EMPTY_GRAPH, INITIAL_STATS), Put("k", value, 300, [], [], 1, 0.0);
      assert MaybeEvict(FullByCount(s), s, p.at, s) && MaybeEvict(FullByBytes(s, p.sizeBytes), s, p.at, s);
      assert Step(s, PutOp(p), Inserted(s, p));
      states := [s, Inserted(s, p)];
    } else {
      states := HotRun(value, hits - 1);
      var next := AfterLookup(states[hits], "k", 100.0);
      RunExtends(states, HotOps(value, hits - 1), LookupOp("k", 100.0), next);
      states := states + [next];
    }
  }

  lemma StepAtOf(states: seq<State>, ops: seq<Op>, i: nat, s: State, op: Op, t: State)
    requires i < |ops| && |states| == |ops| + 1 && Step(s, op, t)
    requires states[i] == s && ops[i] == op && states[i + 1] == t
    ensures StepAt(states, ops, i)
  {
  }

  lemma RunExtends(states: seq<State>, ops: seq<Op>, op: Op, next: State)
    requires Run(states, ops) && Step(states[|ops|], op, next)
    ensures Run(states + [next], ops + [op])
  {
    var states', ops' := states + [next], ops + [op];
    forall i | 0 <= i < |ops'| ensures StepAt(states', ops', i) {
      if i < |ops| {
        assert StepAt(states, ops, i);
        StepAtOf(states', ops', i, states[i], ops[i], states[i + 1]);
      } else {
        StepAtOf(states', ops', i, states[i], op, next);
      }
    }
  }

  /** The run of eleven hits within 100 seconds, and then one warming pass at instant `at`. */
  lemma WarmedRun(value: Value, at: real) returns (states: seq<State>, ops: seq<Op>)
    requires at == 300.0 || at == 1000.0
    ensures ops == HotOps(value, 11) + [WarmOp(at)] && Run(states, ops) && |states| == 14
    ensures Monotone(ops) && Clock(ops) == at
    ensures IsLatestPut(ops, 0, 13, "k") && ops[0].put.ttl == 300 && ops[0].put.at == 0.0
    ensures "k" in states[12].entries && states[12].entries["k"].ttl == 300
    ensures "k" in states[13].entries && states[13].entries["k"].ttl == 450
    ensures states[12].entries["k"].createdAt == states[13].entries["k"].createdAt == 0.0
    ensures states[13].entries["k"].value == value && ExtendsAt(states, ops, 12, "k")
  {
    states := HotRun(value, 11);
    var next := AfterWarming(states[12], at);
    RunExtends(states, HotOps(value, 11), WarmOp(at), next);
    states, ops := states + [next], HotOps(value, 11) + [WarmOp(at)];
    HotOpsPutOnce(value, 11);
    assert ops[12] == WarmOp(at);
    assert DynamicTtl(states[12].entries["k"], at) == 450;
  }

  /**
   The time to live that was set does not bound the age of what is served: a
   warming pass at 300 makes 450 seconds out of 300, so at 400 the value is
   still served.
   */
  lemma WarmedValueOutlivesItsTtl(value: Value) returns (states: seq<State>, ops: seq<Op>)
    ensures ops == HotOps(value, 11) + [WarmOp(300.0)] && Run(states, ops) && Monotone(ops)
    ensures IsLatestPut(ops, 0, 13, "k") && ops[0].put.ttl == 300 && ops[0].put.at == 0.0
    ensures |states| == 14 && Found(states[13], "k", 400.0) == value
  {
    states, ops := WarmedRun(value, 300.0);
  }

  /**
   A pass does not look whether the entry has expired, so an extension can come
   too late: one at 1000 makes 450 seconds out of 300 as well, but nothing older
   than 300 seconds is ever served, before the pass or after it.
   */
  lemma LateExtensionServesNothing(value: Value) returns (states: seq<State>, ops: seq<Op>)
    ensures ops == HotOps(value, 11) + [WarmOp(1000.0)] && Run(states, ops) && Monotone(ops)
    ensures IsLatestPut(ops, 0, 13, "k") && |states| == 14 && "k" in states[13].entries
    ensures ExtendedBetween(states, ops, 0, 13, "k") && !OutlivesSetTtl(states, ops, 0, 13, "k", 1000.0)
    ensures forall now :: 300.0 < now <= 1000.0 ==> Found(states[12], "k", now) == Null
    ensures forall now :: now >= 1000.0 ==> Found(states[13], "k", now) == Null
  {
    states, ops := WarmedRun(value, 1000.0);
    ExtendedTooLate(states, ops, 0, 13, "k", 1000.0);
    NotFoundOnceExpired(states[12], "k");
    NotFoundOnceExpired(states[13], "k");
  }

  lemma ExtendedTooLate(states: seq<State>, ops: seq<Op>, i: nat, n: nat, k: Key, clock: real)
    requires Run(states, ops) && n < |states| && k in states[n].entries && IsLatestPut(ops, i, n, k)
    requires i < n - 1 && ExtendsAt(states, ops, n - 1, k)
    requires clock - ops[i].put.at > states[n].entries[k].ttl as real
    ensures ExtendedBetween(states, ops, i, n, k) && !OutlivesSetTtl(states, ops, i, n, k, clock)
  {
    OutlivesSetTtlIff(states, ops, i, n, k, clock);
    TtlIsExact(states, ops, i, n, k);
  }

  lemma NotFoundOnceExpired(s: State, k: Key)
    requires k in s.entries
    ensures forall now :: now > s.entries[k].createdAt + s.entries[k].ttl as real ==> Found(s, k, now) == Null
  {
  }

  lemma {:induction false} HotOpsPutOnce(value: Value, hits: nat)
    ensures |HotOps(value, hits)| == hits + 1
    ensures HotOps(value, hits)[0] == PutOp(Put("k", value, 300, [], [], 1, 0.0))
    ensures forall m :: 0 < m <= hits ==> HotOps(value, hits)[m] == LookupOp("k", 100.0)
  {
    if hits > 0 {
      HotOpsPutOnce(value, hits - 1);
    }
  }

  // ---------------------------------------------------------------- usage

  /** The step is a lookup that `k` answers from memory. */
  predicate Serves(s: State, op: Op, k: Key) {
    op.LookupOp? && op.key == k && k in s.entries && op.now - s.entries[k].createdAt <= s.entries[k].ttl as real
  }

  /** How often `k` was served between steps `i` and `n`. */
  ghost function TimesServed(states: seq<State>, ops: seq<Op>, i: nat, n: nat, k: Key): nat
    requires n <= |ops| <= |states|
    decreases n
  {
    if n <= i + 1 then 0
    else TimesServed(states, ops, i, n - 1, k) + if Serves(states[n - 1], ops[n - 1], k) then 1 else 0
  }

  /** When `k` was last put or served, if it was put at step `i`. */
  ghost function LastUse(states: seq<State>, ops: seq<Op>, i: nat, n: nat, k: Key): real
    requires i < n <= |ops| <= |states| && Puts(ops[i], k)
    decreases n
  {
    if n == i + 1 then ops[i].put.at
    else if Serves(states[n - 1], ops[n - 1], k) then ops[n - 1].now
    else LastUse(states, ops, i, n - 1, k)
  }

  /** What the run so far says about the usage of `k`. */
  ghost predicate UsageFits(states: seq<State>, ops: seq<Op>, i: nat, n: nat, k: Key, e: Entry)
    requires IsLatestPut(ops, i, n, k) && |ops| <= |states|
  {
    e.accessCount == TimesServed(states, ops, i, n, k) && e.lastAccessed == LastUse(states, ops, i, n, k)
  }

  /** A step creates an entry unused, counts a use when it serves it, and else leaves the figures alone. */
  lemma StepUsage(s: State, op: Op, t: State, k: Key)
    requires Coherent(s) && Step(s, op, t) && k in t.entries
    ensures Puts(op, k) ==> t.entries[k].accessCount == 0 && t.entries[k].lastAccessed == op.put.at
    ensures !Puts(op, k) ==> k in s.entries
    ensures !Puts(op, k) && Serves(s, op, k) ==>
      t.entries[k].accessCount == s.entries[k].accessCount + 1 && t.entries[k].lastAccessed == op.now
    ensures !Puts(op, k) && !Serves(s, op, k) ==>
      t.entries[k].accessCount == s.entries[k].accessCount && t.entries[k].lastAccessed == s.entries[k].lastAccessed
  {
    if op.PutOp? && op.put.key != k {
      OtherPutKeepsEntry(s, op.put, t, k);
    } else if !op.PutOp? {
      SurvivorWasThere(s, op, t, k);
    }
  }

  /** The last step of a run, as far as the usage of `k` goes. */
  lemma LastStepUsage(states: seq<State>, ops: seq<Op>, n: nat, k: Key)
    requires Run(states, ops) && 0 < n < |states| && k in states[n].entries
    ensures Puts(ops[n - 1], k) ==>
      states[n].entries[k].accessCount == 0 && states[n].entries[k].lastAccessed == ops[n - 1].put.at
    ensures !Puts(ops[n - 1], k) ==> k in states[n - 1].entries
    ensures !Puts(ops[n - 1], k) ==>
      && states[n].entries[k].accessCount ==
         states[n - 1].entries[k].accessCount + (if Serves(states[n - 1], ops[n - 1], k) then 1 else 0)
      && states[n].entries[k].lastAccessed ==
         if Serves(states[n - 1], ops[n - 1], k) then ops[n - 1].now else states[n - 1].entries[k].lastAccessed
  {
    assert StepAt(states, ops, n - 1);
    ReachableIsSound(states, ops, n - 1);
    StepUsage(states[n - 1], ops[n - 1], states[n], k);
  }

  /** In every run an entry's access count and last access are exactly those of its life in the cache. */
  lemma {:induction false} UsageIsExact(states: seq<State>, ops: seq<Op>, n: nat, k: Key) returns (i: nat)
    requires Run(states, ops) && n < |states| && k in states[n].entries
    ensures IsLatestPut(ops, i, n, k)
    ensures UsageFits(states, ops, i, n, k, states[n].entries[k])
  {
    assert n > 0;
    LastStepUsage(states, ops, n, k);
    if Puts(ops[n - 1], k) {
      i := n - 1;
    } else {
      i := UsageIsExact(states, ops, n - 1, k);
      LatestPutStays(ops, i, n - 1, k);
      assert TimesServed(states, ops, i, n, k) ==
             TimesServed(states, ops, i, n - 1, k) + if Serves(states[n - 1], ops[n - 1], k) then 1 else 0;
    }
  }

  // --------------------------------------------------------------- latency

  /** The sum of the latencies of the recorded hits, or of the recorded misses. */
  ghost function LatencySum(ops: seq<Op>, hits: bool): real {
    if ops == [] then 0.0 else
    LatencySum(ops[..|ops| - 1], hits) + Latency(ops[|ops| - 1], hits)
  }

  /** How many hits, or misses, are recorded. */
  ghost function RecordedCount(ops: seq<Op>, hits: bool): nat {
    if ops == [] then 0 else
    RecordedCount(ops[..|ops| - 1], hits) +
    if (if hits then ops[|ops| - 1].HitOp? else ops[|ops| - 1].MissOp?) then 1 else 0
  }

  function Latency(op: Op, hits: bool): real {
    match op
    case HitOp(_, latency) => if hits then latency else 0.0
    case MissOp(latency) => if hits then 0.0 else latency
    case _ => 0.0
  }

  lemma NextMeanExact(mean: real, count: nat, sum: real, sample: real)
    requires count > 0 && mean * (count - 1) as real == sum
    ensures NextMean(mean, count, sample) * count as real == sum + sample
  {
    if count > 1 {
      var c := count as real;
      assert (sum + sample) / c * c == sum + sample;
    }
  }

  /** The running means are the means of samples that add up to `hitSum` and `missSum`. */
  ghost predicate MeansOf(st: Stats, hitSum: real, missSum: real) {
    && st.avgHitLatency * st.hits as real == hitSum
    && st.avgMissLatency * st.misses as real == missSum
  }

  lemma RecordingKeepsMeans(st: Stats, layer: Layer, latency: real, hitSum: real, missSum: real)
    requires MeansOf(st, hitSum, missSum)
    ensures MeansOf(HitRecorded(st, layer, latency), hitSum + latency, missSum)
    ensures MeansOf(MissRecorded(st, latency), hitSum, missSum + latency)
  {
    NextMeanExact(st.avgHitLatency, st.hits + 1, hitSum, latency);
    NextMeanExact(st.avgMissLatency, st.misses + 1, missSum, latency);
  }

  /** What a step does to the figures behind the two means. */
  ghost predicate LatencyStep(st: Stats, op: Op, su: Stats) {
    match op
    case HitOp(layer, latency) => su == HitRecorded(st, layer, latency)
    case MissOp(latency) => su == MissRecorded(st, latency)
    case _ =>
      && st.hits == su.hits && st.avgHitLatency == su.avgHitLatency
      && st.misses == su.misses && st.avgMissLatency == su.avgMissLatency
  }

  lemma StepIsLatencyStep(s: State, op: Op, t: State)
    requires Sound(s) && Step(s, op, t)
    ensures LatencyStep(s.stats, op, t.stats)
  {
    if op.PutOp? {
      var room :| MakeRoom(s, op.put, room) && t == Inserted(room, op.put);
      MakeRoomKeeps(s, op.put, room);
    }
  }

  lemma LatencyStepKeepsMeans(st: Stats, op: Op, su: Stats, hitSum: real, missSum: real)
    requires LatencyStep(st, op, su) && MeansOf(st, hitSum, missSum)
    ensures MeansOf(su, hitSum + Latency(op, true), missSum + Latency(op, false))
  {
    if op.HitOp? {
      RecordingKeepsMeans(st, op.layer, op.latency, hitSum, missSum);
    } else if op.MissOp? {
      RecordingKeepsMeans(st, Memory, op.latency, hitSum, missSum);
    }
  }

  /** In every reachable state hits and misses count what was recorded. */
  lemma {:induction false} CountersAreExact(states: seq<State>, ops: seq<Op>, n: nat)
    requires Run(states, ops) && n < |states|
    ensures states[n].stats.hits == RecordedCount(ops[..n], true)
    ensures states[n].stats.misses == RecordedCount(ops[..n], false)
  {
    if n > 0 {
      CountersAreExact(states, ops, n - 1);
      assert ops[..n][..n - 1] == ops[..n - 1];
      LastStepLatency(states, ops, n);
    }
  }

  lemma LastStepLatency(states: seq<State>, ops: seq<Op>, n: nat)
    requires Run(states, ops) && 0 < n < |states|
    ensures LatencyStep(states[n - 1].stats, ops[n - 1], states[n].stats)
  {
    assert StepAt(states, ops, n - 1);
    ReachableIsSound(states, ops, n - 1);
    StepIsLatencyStep(states[n - 1], ops[n - 1], states[n]);
  }

  /**
   In every reachable state the running means are the exact means of all
   recorded latencies: multiplied by the number of records they give the sum.
   */
  lemma LatencyMeansAreExact(states: seq<State>, ops: seq<Op>, n: nat)
    requires Run(states, ops) && n < |states|
    ensures states[n].stats.avgHitLatency * RecordedCount(ops[..n], true) as real == LatencySum(ops[..n], true)
    ensures states[n].stats.avgMissLatency * RecordedCount(ops[..n], false) as real == LatencySum(ops[..n], false)
  {
    MeansFollowSums(states, ops, n);
    CountersAreExact(states, ops, n);
  }

  lemma {:induction false} MeansFollowSums(states: seq<State>, ops: seq<Op>, n: nat)
    requires Run(states, ops) && n < |states|
    ensures MeansOf(states[n].stats, LatencySum(ops[..n], true), LatencySum(ops[..n], false))
  {
    if n > 0 {
      MeansFollowSums(states, ops, n - 1);
      assert ops[..n][..n - 1] == ops[..n - 1];
      LastStepLatency(states, ops, n);
      LatencyStepKeepsMeans(states[n - 1].stats, ops[n - 1], states[n].stats,
                            LatencySum(ops[..n - 1], true), LatencySum(ops[..n - 1], false));
    }
  }
}
