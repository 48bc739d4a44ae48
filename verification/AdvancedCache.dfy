/**
 The memory layer of resync/core/advanced_cache.py: entries, dependency graph,
 ranked eviction and statistics.

 `State` is the value of the whole manager. Every operation is a step between
 states; the class at the end performs the same steps in place, and the
 theorems of CacheRuns.dfy are about every run of such steps. Eviction leaves
 open how equal scores are ordered, so those steps are relations.

 Clock readings, latencies, sizes and fetched values are inputs.
 */
module AdvancedCache {
  import opened DependencyGraph
  import opened CacheInvalidation

  datatype Value = Null | Data(content: string)

  datatype Entry = Entry(
    value: Value,
    ttl: int,
    createdAt: real,
    lastAccessed: real,
    accessCount: nat,
    dependencies: set<Key>,
    tags: set<Key>,
    hitRate: real,
    sizeBytes: nat)

  datatype Stats = Stats(
    hits: nat,
    misses: nat,
    totalRequests: nat,
    currentEntries: nat,
    maxEntries: int,
    memoryUsageBytes: int,
    maxMemoryBytes: int,
    avgHitLatency: real,
    avgMissLatency: real,
    evictionCount: nat,
    invalidationCount: nat,
    memoryHits: nat,
    redisHits: nat,
    databaseHits: nat)

  datatype Layer = Memory | Redis | Database

  datatype State = State(entries: map<Key, Entry>, graph: Graph, stats: Stats)

  const MAX_ENTRIES := 10000
  const MAX_MEMORY_BYTES := 100 * 1024 * 1024

  const INITIAL_STATS :=
    Stats(0, 0, 0, 0, MAX_ENTRIES, 0, MAX_MEMORY_BYTES, 0.0, 0.0, 0, 0, 0, 0, 0)

  /** The arguments of one `set`, with the TTL and the size already worked out. */
  datatype Put = Put(
    key: Key, value: Value, ttl: int, dependencies: seq<Key>, tags: seq<Key>,
    sizeBytes: nat, at: real)

  // ------------------------------------------------------------- entries

  predicate IsExpired(e: Entry, now: real) {
    now - e.createdAt > e.ttl as real
  }

  predicate ShouldEvict(e: Entry, now: real) {
    IsExpired(e, now) || (e.hitRate < 0.1 && now - e.createdAt > 3600.0)
  }

  function AtLeastOne(x: real): real {
    if x < 1.0 then 1.0 else x
  }

  function Touched(e: Entry, now: real): Entry {
    e.(lastAccessed := now, accessCount := e.accessCount + 1,
       hitRate := (e.accessCount + 1) as real / AtLeastOne((now - e.createdAt) / 60.0))
  }

  /** `int()` of a number that need not be whole. */
  function Truncated(x: real): int {
    if x >= 0.0 then x.Floor else -(-x).Floor
  }

  function AccessesPerHour(e: Entry, now: real): real {
    e.accessCount as real / AtLeastOne((now - e.createdAt) / 3600.0)
  }

  /** `calculate_dynamic_ttl`. */
  function DynamicTtl(e: Entry, now: real): int {
    var ttl :=
      if e.hitRate > 0.8 && e.accessCount > 100 then e.ttl * 2
      else if e.hitRate < 0.2 then AtLeastMinute(e.ttl / 4)
      else e.ttl;
    if AccessesPerHour(e, now) > 10.0 then Truncated(AtMostDay(ttl as real * 1.5))
    else if AccessesPerHour(e, now) < 1.0 then AtLeastMinute(ttl / 2)
    else ttl
  }

  function AtLeastMinute(ttl: int): int {
    if ttl < 60 then 60 else ttl
  }

  function AtMostDay(ttl: real): real {
    if ttl > 86400.0 then 86400.0 else ttl
  }

  predicate IsHot(e: Entry) {
    e.hitRate > 0.5 && e.accessCount > 10
  }

  /** A warming pass at `now` gives the entry a longer time to live. */
  predicate IsExtended(e: Entry, now: real) {
    IsHot(e) && DynamicTtl(e, now) > e.ttl
  }

  function Warmed(e: Entry, now: real): Entry {
    if IsExtended(e, now) then e.(ttl := DynamicTtl(e, now)) else e
  }

  function Score(e: Entry, now: real): real {
    (now - e.lastAccessed) * (2.0 - e.hitRate) * (e.sizeBytes as real / 1000.0)
  }

  function NewEntry(p: Put): Entry {
    Entry(p.value, p.ttl, p.at, p.at, 0, Elements(p.dependencies), Elements(p.tags), 1.0, p.sizeBytes)
  }

  ghost function SumSizes(m: map<Key, Entry>): nat
    decreases |m|
  {
    if m == map[] then 0 else
    var k :| k in m;
    m[k].sizeBytes + SumSizes(m - {k})
  }

  /** The sum does not depend on the order of summation. */
  lemma {:induction false} SumSizesOfAny(m: map<Key, Entry>, k: Key)
    requires k in m
    ensures SumSizes(m) == m[k].sizeBytes + SumSizes(m - {k})
    decreases |m|
  {
    var x :| x in m && SumSizes(m) == m[x].sizeBytes + SumSizes(m - {x});
    if x != k {
      SumSizesOfAny(m - {x}, k);
      SumSizesOfAny(m - {k}, x);
      assert m - {x} - {k} == m - {k} - {x};
    }
  }

  // ------------------------------------------------------------ the steps

  /** `max(1, n // 10)`, but no more than there is. */
  function EvictionQuota(n: nat): nat {
    if n == 0 then 0 else if n < 10 then 1 else n / 10
  }

  /** `victims` heads some ranking of the entries by score, highest first. */
  ghost predicate IsEviction(entries: map<Key, Entry>, victims: set<Key>, now: real) {
    && victims <= entries.Keys
    && |victims| == EvictionQuota(|entries|)
    && forall v, k :: v in victims && k in entries && k !in victims ==>
         Score(entries[v], now) >= Score(entries[k], now)
  }

  ghost function Evicted(s: State, victims: set<Key>): State {
    var c := Purge(Core(s), victims);
    State(c.entries, c.graph, s.stats.(evictionCount := s.stats.evictionCount + Cached(s.entries, victims)))
  }

  ghost predicate EvictStep(s: State, now: real, t: State) {
    exists victims :: IsEviction(s.entries, victims, now) && t == Evicted(s, victims)
  }

  ghost predicate MaybeEvict(guard: bool, s: State, now: real, t: State) {
    if guard then EvictStep(s, now, t) else t == s
  }

  predicate FullByCount(s: State) {
    |s.entries| >= s.stats.maxEntries
  }

  predicate FullByBytes(s: State, sizeBytes: nat) {
    s.stats.memoryUsageBytes + sizeBytes > s.stats.maxMemoryBytes
  }

  ghost predicate MakeRoom(s: State, p: Put, t: State) {
    exists m :: MaybeEvict(FullByCount(s), s, p.at, m) && MaybeEvict(FullByBytes(m, p.sizeBytes), m, p.at, t)
  }

  function Filed(g: Graph, p: Put): Graph {
    WithTags(WithDependencies(g, p.key, Elements(p.dependencies)), p.key, Elements(p.tags))
  }

  ghost function Inserted(s: State, p: Put): State {
    var entries := s.entries[p.key := NewEntry(p)];
    State(entries, Filed(s.graph, p),
          s.stats.(currentEntries := |entries|, memoryUsageBytes := SumSizes(entries)))
  }

  ghost predicate PutStep(s: State, p: Put, t: State) {
    exists room :: MakeRoom(s, p, room) && t == Inserted(room, p)
  }

  function Found(s: State, key: Key, now: real): Value {
    if key in s.entries && !IsExpired(s.entries[key], now) then s.entries[key].value else Null
  }

  function AfterLookup(s: State, key: Key, now: real): State {
    if key !in s.entries then s
    else if IsExpired(s.entries[key], now) then s.(entries := s.entries - {key})
    else s.(entries := s.entries[key := Touched(s.entries[key], now)])
  }

  function Core(s: State): Store<Entry> {
    Store(s.entries, s.graph)
  }

  function WithCore(s: State, c: Store<Entry>, invalidated: nat): State {
    State(c.entries, c.graph, s.stats.(invalidationCount := s.stats.invalidationCount + invalidated))
  }

  /** The keys that `invalidate` drops from the cache. */
  ghost function Dropped(g: Graph, key: Key, cascade: bool): set<Key> {
    if cascade then Doomed(g, key) else {key}
  }

  /** What `invalidate` returns. */
  ghost function Invalidated(s: State, key: Key, cascade: bool): nat {
    Cached(s.entries, Dropped(s.graph, key, cascade))
  }

  ghost function AfterInvalidate(s: State, key: Key, cascade: bool): State {
    WithCore(s, if cascade then Invalidate(Core(s), key) else Store(s.entries - {key}, s.graph),
             Invalidated(s, key, cascade))
  }

  /** Entries that carry the tag go; the graph keeps what it recorded about them. */
  ghost function AfterInvalidateTag(s: State, tag: Key): State {
    Untagged(s, Lookup(s.graph.tags, tag))
  }

  ghost function Untagged(s: State, keys: set<Key>): State {
    WithCore(s, Store(s.entries - keys, s.graph), Cached(s.entries, keys))
  }

  ghost function AfterCleanup(s: State, now: real): State {
    Evicted(s, set k | k in s.entries && ShouldEvict(s.entries[k], now))
  }

  function AfterWarming(s: State, now: real): State {
    s.(entries := map k | k in s.entries :: Warmed(s.entries[k], now))
  }

  /** The running mean: `count` is the number of samples including `sample`. */
  function NextMean(mean: real, count: nat, sample: real): real
    requires count > 0
  {
    if count == 1 then sample else (mean * (count - 1) as real + sample) / count as real
  }

  function HitRecorded(st: Stats, layer: Layer, latency: real): Stats {
    st.(hits := st.hits + 1, totalRequests := st.totalRequests + 1,
        avgHitLatency := NextMean(st.avgHitLatency, st.hits + 1, latency),
        memoryHits := if layer == Memory then st.memoryHits + 1 else st.memoryHits,
        redisHits := if layer == Redis then st.redisHits + 1 else st.redisHits,
        databaseHits := if layer == Database then st.databaseHits + 1 else st.databaseHits)
  }

  function MissRecorded(st: Stats, latency: real): Stats {
    st.(misses := st.misses + 1, totalRequests := st.totalRequests + 1,
        avgMissLatency := NextMean(st.avgMissLatency, st.misses + 1, latency))
  }

  datatype Op =
    | PutOp(put: Put)
    | LookupOp(key: Key, now: real)
    | InvalidateOp(key: Key, cascade: bool)
    | InvalidateTagOp(tag: Key)
    | CleanupOp(now: real)
    | WarmOp(now: real)
    | ShutdownOp
    | HitOp(layer: Layer, latency: real)
    | MissOp(latency: real)

  ghost predicate Step(s: State, op: Op, t: State) {
    match op
    case PutOp(p) => PutStep(s, p, t)
    case LookupOp(key, now) => t == AfterLookup(s, key, now)
    case InvalidateOp(key, cascade) => t == AfterInvalidate(s, key, cascade)
    case InvalidateTagOp(tag) => t == AfterInvalidateTag(s, tag)
    case CleanupOp(now) => t == AfterCleanup(s, now)
    case WarmOp(now) => t == AfterWarming(s, now)
    case ShutdownOp => t == s.(entries := map[])
    case HitOp(layer, latency) => t == s.(stats := HitRecorded(s.stats, layer, latency))
    case MissOp(latency) => t == s.(stats := MissRecorded(s.stats, latency))
  }

  /** The key is cached and no older than its time to live. */
  predicate LiveIn(entries: map<Key, Entry>, key: Key, now: real) {
    key in entries && now - entries[key].createdAt <= entries[key].ttl as real
  }

  lemma MakeRoomKeepsStats(s: State, p: Put, room: State)
    requires MakeRoom(s, p, room)
    ensures room.stats == s.stats.(evictionCount := room.stats.evictionCount)
  {
  }

  // -------------------------------------------------------- the manager

  /** What the fetch function of `get` does, when there is one. */
  datatype Fetch = NoFetch | Raises | Fetches(put: Put)

  datatype GetResult = Got(value: Value) | FetchFailed

  /** `get` as a run of at most three steps. */
  ghost predicate GetStep(s: State, key: Key, now: real, fetch: Fetch, latency: real, t: State, r: GetResult) {
    var looked := AfterLookup(s, key, now);
    if Found(s, key, now) != Null then
      Step(looked, HitOp(Memory, latency), t) && r == Got(Found(s, key, now))
    else match fetch
      case NoFetch => Step(looked, MissOp(latency), t) && r == Got(Null)
      case Raises => Step(looked, MissOp(latency), t) && r == FetchFailed
      case Fetches(p) =>
        (exists m :: Step(looked, PutOp(p), m) && Step(m, MissOp(latency), t)) && r == Got(p.value)
  }

  class AdvancedCacheManager {
    var memoryCache: map<Key, Entry>
    var stats: Stats
    const dependencyGraph: CacheDependencyGraph

    function Model(): State
      reads this, dependencyGraph
    {
      State(memoryCache, dependencyGraph.Model(), stats)
    }

    constructor ()
      ensures fresh(dependencyGraph) && Model() == State(map[], EMPTY_GRAPH, INITIAL_STATS)
      ensures stats.maxEntries == 10_000 && stats.maxMemoryBytes == 104_857_600
      ensures stats.hits == stats.misses == stats.totalRequests == stats.evictionCount == stats.invalidationCount == 0
    {
      memoryCache, stats := map[], INITIAL_STATS;
      dependencyGraph := new CacheDependencyGraph();
    }

    method Get(key: Key, now: real, fetch: Fetch, latency: real) returns (r: GetResult)
      requires fetch.Fetches? ==> fetch.put.key == key
      modifies this, dependencyGraph
      ensures GetStep(old(Model()), key, now, fetch, latency, Model(), r)
      ensures LiveIn(old(memoryCache), key, now) && old(memoryCache)[key].value != Null ==>
        && r == Got(old(memoryCache)[key].value) && key in memoryCache
        && stats.hits == old(stats).hits + 1 && stats.memoryHits == old(stats).memoryHits + 1
        && stats.misses == old(stats).misses
      ensures !(LiveIn(old(memoryCache), key, now) && old(memoryCache)[key].value != Null) ==>
        && stats.misses == old(stats).misses + 1 && stats.hits == old(stats).hits
        && match fetch
           case NoFetch => r == Got(Null)
           case Raises => r == FetchFailed
           case Fetches(p) => r == Got(p.value) && key in memoryCache && memoryCache[key].value == p.value
      ensures !LiveIn(old(memoryCache), key, now) && !fetch.Fetches? ==> key !in memoryCache
    {
      var value := GetFromMemory(key, now);
      if value != Null {
        RecordHit(Memory, latency);
        return Got(value);
      }
      match fetch
      case NoFetch =>
        RecordMiss(latency);
        r := Got(Null);
      case Raises =>
        RecordMiss(latency);
        r := FetchFailed;
      case Fetches(p) =>
        Set(p);
        RecordMiss(latency);
        r := Got(p.value);
    }

    method Set(p: Put)
      modifies this, dependencyGraph
      ensures Step(old(Model()), PutOp(p), Model())
      ensures p.key in memoryCache && memoryCache[p.key] ==
        Entry(p.value, p.ttl, p.at, p.at, 0, set d | d in p.dependencies, set t | t in p.tags, 1.0, p.sizeBytes)
      ensures stats.hits == old(stats).hits && stats.misses == old(stats).misses
      ensures stats.currentEntries == |memoryCache|
    {
      ghost var s := Model();
      ghost var room := SetMemoryEntry(p, NewEntry(p));
      MakeRoomKeepsStats(s, p, room);
      FileEntry(p);
      var total := TotalSize(memoryCache);
      stats := stats.(currentEntries := |memoryCache|, memoryUsageBytes := total);
      assert Model() == Inserted(room, p);
    }

    /** The part of `set` that records dependencies and tags. */
    method FileEntry(p: Put)
      modifies dependencyGraph
      ensures dependencyGraph.Model() == Filed(old(dependencyGraph.Model()), p)
    {
      ghost var g := dependencyGraph.Model();
      AddUnderNothing(g.dependents, p.key);
      for i := 0 to |p.dependencies|
        invariant dependencyGraph.Model() == WithDependencies(g, p.key, Elements(p.dependencies[..i]))
      {
        assert Elements(p.dependencies[..i + 1]) == Elements(p.dependencies[..i]) + {p.dependencies[i]};
        WithDependenciesStep(g, p.key, Elements(p.dependencies[..i]), p.dependencies[i]);
        dependencyGraph.AddDependency(p.key, p.dependencies[i]);
      }
      assert p.dependencies[..|p.dependencies|] == p.dependencies;
      dependencyGraph.AddTags(p.key, p.tags);
    }

    method Invalidate(key: Key, cascade: bool) returns (invalidated: nat)
      modifies this, dependencyGraph
      ensures Model() == AfterInvalidate(old(Model()), key, cascade)
      ensures invalidated == Invalidated(old(Model()), key, cascade)
      ensures stats == old(stats).(invalidationCount := old(stats).invalidationCount + invalidated)
      ensures key !in memoryCache
    {
      ghost var c := Core(Model());
      invalidated := Discard(key);
      if cascade {
        var n := InvalidateCascade(key);
        invalidated := invalidated + n;
        DropAgain(c.entries, key, Doomed(c.graph, key));
        CountAgain(c.entries, key, Doomed(c.graph, key));
      }
      stats := stats.(invalidationCount := stats.invalidationCount + invalidated);
    }

    /** `if key in memory_cache: del memory_cache[key]`, counted. */
    method Discard(key: Key) returns (dropped: nat)
      modifies this`memoryCache
      ensures memoryCache == old(memoryCache) - {key}
      ensures dropped == Cached(old(memoryCache), {key}) == if key in old(memoryCache) then 1 else 0
    {
      dropped := 0;
      CachedOfAny(memoryCache, {key}, key);
      assert {key} - {key} == {};
      if key in memoryCache {
        memoryCache := memoryCache - {key};
        dropped := 1;
      } else {
        assert memoryCache == memoryCache - {key};
      }
    }

    /** The cascading part of `invalidate`. */
    method InvalidateCascade(key: Key) returns (invalidated: nat)
      requires key !in memoryCache
      modifies this`memoryCache, dependencyGraph
      ensures memoryCache == old(memoryCache) - Doomed(old(dependencyGraph.Model()), key)
      ensures dependencyGraph.Model() ==
              Without(old(dependencyGraph.Model()), Doomed(old(dependencyGraph.Model()), key))
      ensures invalidated == Cached(old(memoryCache), Doomed(old(dependencyGraph.Model()), key))
    {
      ghost var m, g := memoryCache, dependencyGraph.Model();
      var cascadeKeys := dependencyGraph.CascadeInvalidate(key);
      invalidated := DropEach(cascadeKeys);
      dependencyGraph.RemoveKey(key);
      RemoveEach(cascadeKeys);
      DropAbsent(m, key, cascadeKeys);
      CountAbsent(m, key, cascadeKeys);
      WithoutTwice(g, {key}, cascadeKeys);
    }

    method InvalidateByTag(tag: Key) returns (invalidated: nat)
      modifies this, dependencyGraph
      ensures Model() == AfterInvalidateTag(old(Model()), tag)
      ensures invalidated == Cached(old(memoryCache), Lookup(old(dependencyGraph.tags), tag))
      ensures stats == old(stats).(invalidationCount := old(stats).invalidationCount + invalidated)
      ensures forall k :: k in old(memoryCache) ==>
        (k in memoryCache <==> k !in Lookup(old(dependencyGraph.tags), tag))
    {
      ghost var s := Model();
      var keys := Lookup(dependencyGraph.tags, tag);
      var todo := keys;
      invalidated := 0;
      DropNothing(s.entries, keys);
      while todo != {}
        invariant todo <= keys && memoryCache == s.entries - (keys - todo)
        invariant dependencyGraph.Model() == s.graph
        invariant stats == s.stats.(invalidationCount := s.stats.invalidationCount + invalidated)
        invariant invalidated + Cached(s.entries, todo) == Cached(s.entries, keys)
        decreases todo
      {
        var key :| key in todo;
        DropNext(s.entries, keys, todo, key);
        CachedOfAny(s.entries, todo, key);
        DropOneCount(s.entries, keys - todo, key);
        var n := Invalidate(key, false);
        invalidated := invalidated + n;
        todo := todo - {key};
      }
      assert keys - todo == keys;
    }

    method Cleanup(now: real)
      modifies this, dependencyGraph
      ensures Model() == AfterCleanup(old(Model()), now)
      ensures forall k :: k in old(memoryCache) ==>
        (k in memoryCache <==>
          var e := old(memoryCache)[k];
          LiveIn(old(memoryCache), k, now) && !(e.hitRate < 0.1 && now - e.createdAt > 3600.0))
      ensures forall k :: k in memoryCache ==> k in old(memoryCache) && memoryCache[k] == old(memoryCache)[k]
    {
      var expired := set k | k in memoryCache && ShouldEvict(memoryCache[k], now);
      var n := DropEach(expired);
      stats := stats.(evictionCount := stats.evictionCount + n);
      RemoveEach(expired);
    }

    /** One pass of the warming loop: hot entries get a longer time to live, if it is longer. */
    method Warm(now: real)
      modifies this`memoryCache
      ensures Model() == AfterWarming(old(Model()), now)
    {
      var candidates := set k | k in memoryCache && IsHot(memoryCache[k]);
      var todo := candidates;
      while todo != {}
        invariant todo <= candidates && memoryCache.Keys == old(memoryCache).Keys
        invariant forall k :: k in memoryCache ==>
          memoryCache[k] == if k in todo then old(memoryCache)[k] else Warmed(old(memoryCache)[k], now)
        decreases todo
      {
        var key :| key in todo;
        var entry := memoryCache[key];
        var newTtl := DynamicTtl(entry, now);
        if newTtl > entry.ttl {
          memoryCache := memoryCache[key := entry.(ttl := newTtl)];
        }
        todo := todo - {key};
      }
    }

    method Shutdown()
      modifies this`memoryCache
      ensures Model() == old(Model()).(entries := map[])
    {
      memoryCache := map[];
    }

    method GetFromMemory(key: Key, now: real) returns (value: Value)
      modifies this`memoryCache
      ensures value == Found(old(Model()), key, now)
      ensures Model() == AfterLookup(old(Model()), key, now)
      ensures value == if LiveIn(old(memoryCache), key, now) then old(memoryCache)[key].value else Null
      ensures key in memoryCache <==> LiveIn(old(memoryCache), key, now)
      ensures forall k :: k != key ==>
        (k in memoryCache <==> k in old(memoryCache)) && (k in memoryCache ==> memoryCache[k] == old(memoryCache)[k])
    {
      value := Null;
      if key in memoryCache {
        var entry := memoryCache[key];
        if IsExpired(entry, now) {
          memoryCache := memoryCache - {key};
          return;
        }
        memoryCache := memoryCache[key := Touched(entry, now)];
        value := entry.value;
      }
    }

    /** Inserts the entry after making room; returns the state just before the insertion. */
    method SetMemoryEntry(p: Put, entry: Entry) returns (ghost room: State)
      modifies this, dependencyGraph
      ensures MakeRoom(old(Model()), p, room)
      ensures Model() == room.(entries := room.entries[p.key := entry])
    {
      ghost var s := Model();
      if |memoryCache| >= stats.maxEntries {
        EvictEntries(p.at);
      }
      ghost var m := Model();
      assert MaybeEvict(FullByCount(s), s, p.at, m);
      if stats.memoryUsageBytes + p.sizeBytes > stats.maxMemoryBytes {
        EvictEntries(p.at);
      }
      room := Model();
      assert MaybeEvict(FullByBytes(m, p.sizeBytes), m, p.at, room);
      memoryCache := memoryCache[p.key := entry];
    }

    method EvictEntries(now: real)
      modifies this, dependencyGraph
      ensures EvictStep(old(Model()), now, Model())
    {
      ghost var s := Model();
      var scores := map k | k in memoryCache :: Score(memoryCache[k], now);
      assert scores.Keys == memoryCache.Keys;
      var entries := SortedByScore(scores);
      EvictHead(entries);
      HeadIsEviction(s.entries, now, scores, entries);
    }

    /** The deleting loop of `_evict_entries`, over the sorted keys. */
    method EvictHead(entries: seq<Key>)
      requires Elements(entries) <= memoryCache.Keys
      modifies this, dependencyGraph
      ensures Model() == Evicted(old(Model()), Elements(entries[..EvictionQuota(|entries|)]))
    {
      ghost var s := Model();
      var toEvict := if |entries| / 10 > 1 then |entries| / 10 else 1;
      for i := 0 to toEvict
        invariant Model() == EvictEach(s, Upto(entries, i))
      {
        UptoStep(entries, i);
        if i < |entries| {
          if entries[i] in memoryCache {
            EvictOne(entries[i]);
          }
        }
      }
      assert Upto(entries, toEvict) == entries[..EvictionQuota(|entries|)];
      assert Elements(entries[..EvictionQuota(|entries|)]) <= Elements(entries);
      EvictEachIsEvicted(s, entries[..EvictionQuota(|entries|)]);
    }

    method EvictOne(key: Key)
      requires key in memoryCache
      modifies this, dependencyGraph
      ensures Model() == Evicted(old(Model()), {key})
    {
      CachedOfAny(memoryCache, {key}, key);
      assert {key} - {key} == {};
      memoryCache := memoryCache - {key};
      stats := stats.(evictionCount := stats.evictionCount + 1);
      dependencyGraph.RemoveKey(key);
    }

    method RecordHit(layer: Layer, latency: real)
      modifies this`stats
      ensures stats == HitRecorded(old(stats), layer, latency)
    {
      stats := stats.(hits := stats.hits + 1, totalRequests := stats.totalRequests + 1);
      stats := stats.(avgHitLatency := NextMean(stats.avgHitLatency, stats.hits, latency));
      match layer
      case Memory => stats := stats.(memoryHits := stats.memoryHits + 1);
      case Redis => stats := stats.(redisHits := stats.redisHits + 1);
      case Database => stats := stats.(databaseHits := stats.databaseHits + 1);
    }

    method RecordMiss(latency: real)
      modifies this`stats
      ensures stats == MissRecorded(old(stats), latency)
    {
      stats := stats.(misses := stats.misses + 1, totalRequests := stats.totalRequests + 1);
      stats := stats.(avgMissLatency := NextMean(stats.avgMissLatency, stats.misses, latency));
    }

    /** Deletes the cached ones of `keys`, in any order, and counts them. */
    method DropEach(keys: set<Key>) returns (dropped: nat)
      modifies this`memoryCache
      ensures memoryCache == old(memoryCache) - keys
      ensures dropped == Cached(old(memoryCache), keys)
    {
      var todo := keys;
      dropped := 0;
      DropNothing(memoryCache, keys);
      while todo != {}
        invariant todo <= keys && memoryCache == old(memoryCache) - (keys - todo)
        invariant dropped + Cached(old(memoryCache), todo) == Cached(old(memoryCache), keys)
        decreases todo
      {
        var key :| key in todo;
        DropNext(old(memoryCache), keys, todo, key);
        CachedOfAny(old(memoryCache), todo, key);
        var n := Discard(key);
        dropped := dropped + n;
        todo := todo - {key};
      }
      assert keys - todo == keys;
    }

    /** Removes each of `keys` from the graph, in any order. */
    method RemoveEach(keys: set<Key>)
      modifies dependencyGraph
      ensures dependencyGraph.Model() == Without(old(dependencyGraph.Model()), keys)
    {
      ghost var g := dependencyGraph.Model();
      WithoutNothing(g);
      var todo := keys;
      ghost var done := {};
      while todo != {}
        invariant done + todo == keys
        invariant dependencyGraph.Model() == Without(g, done)
        decreases todo
      {
        var key :| key in todo;
        dependencyGraph.RemoveKey(key);
        WithoutTwice(g, done, {key});
        todo, done := todo - {key}, done + {key};
      }
    }
  }

  /** `entries[..i]`, also for the one turn of the loop past an empty list. */
  ghost function Upto(entries: seq<Key>, i: nat): seq<Key> {
    if i <= |entries| then entries[..i] else entries
  }

  lemma EvictedNothing(s: State)
    ensures Evicted(s, {}) == s
  {
    WithoutNothing(s.graph);
    assert s.entries - {} == s.entries;
  }

  lemma UptoStep(entries: seq<Key>, i: nat)
    ensures Upto(entries, i + 1) == if i < |entries| then Upto(entries, i) + [entries[i]] else Upto(entries, i)
  {
  }

  /** Evicting the keys of a list one at a time. */
  ghost function EvictEach(s: State, ks: seq<Key>): State
    decreases |ks|
  {
    if ks == [] then s else
    var t, key := EvictEach(s, ks[..|ks| - 1]), ks[|ks| - 1];
    if key in t.entries then Evicted(t, {key}) else t
  }

  lemma {:induction false} EvictEachIsEvicted(s: State, ks: seq<Key>)
    requires Elements(ks) <= s.entries.Keys
    ensures EvictEach(s, ks) == Evicted(s, Elements(ks))
    decreases |ks|
  {
    if ks == [] {
      assert Elements(ks) == {};
      EvictedNothing(s);
    } else {
      var front, key := ks[..|ks| - 1], ks[|ks| - 1];
      assert ks == front + [key];
      assert Elements(ks) == Elements(front) + {key};
      EvictEachIsEvicted(s, front);
      EvictedStep(s, Elements(front), key);
      assert key in Elements(front) ==> Elements(ks) == Elements(front);
    }
  }

  lemma EvictedStep(s: State, victims: set<Key>, key: Key)
    ensures Evicted(Evicted(s, victims), {key}) == Evicted(s, victims + {key})
  {
    PurgeTwice(Core(s), victims, {key});
    CountOneMore(s.entries, victims, key);
  }

  /** A key that has left the cache need not be dropped with the others. */
  lemma DropAgain<E>(m: map<Key, E>, key: Key, doomed: set<Key>)
    requires key in doomed
    ensures m - {key} - doomed == m - doomed
  {
  }

  lemma DropAbsent<E>(m: map<Key, E>, key: Key, others: set<Key>)
    requires key !in m
    ensures m - ({key} + others) == m - others
  {
  }

  lemma CountAgain<E>(m: map<Key, E>, key: Key, doomed: set<Key>)
    requires key in doomed
    ensures Cached(m, {key}) + Cached(m - {key}, doomed) == Cached(m, doomed)
  {
    DropAgain(m, key, doomed);
    CachedIsDrop(m, {key});
    CachedIsDrop(m - {key}, doomed);
    CachedIsDrop(m, doomed);
  }

  lemma CountAbsent<E>(m: map<Key, E>, key: Key, others: set<Key>)
    requires key !in m
    ensures Cached(m, {key} + others) == Cached(m, others)
  {
    if key in others {
      assert {key} + others == others;
    } else {
      CachedOfAny(m, {key} + others, key);
      assert {key} + others - {key} == others;
    }
  }

  lemma CountOneMore<E>(m: map<Key, E>, some: set<Key>, key: Key)
    ensures Cached(m, some) + Cached(m - some, {key}) == Cached(m, some + {key})
  {
    CachedOfAny(m - some, {key}, key);
    assert {key} - {key} == {};
    if key in some {
      assert some + {key} == some;
    } else {
      CachedOfAny(m, some + {key}, key);
      assert some + {key} - {key} == some;
    }
  }

  lemma DropOneCount<E>(m: map<Key, E>, some: set<Key>, key: Key)
    requires key !in some
    ensures Cached(m - some, {key}) == if key in m then 1 else 0
  {
    CachedOfAny(m - some, {key}, key);
    assert {key} - {key} == {};
  }

  lemma DropNothing<E>(m: map<Key, E>, keys: set<Key>)
    ensures m - (keys - keys) == m
  {
  }

  lemma DropNext<E>(m: map<Key, E>, keys: set<Key>, todo: set<Key>, key: Key)
    requires key in todo && todo <= keys
    ensures m - (keys - todo) - {key} == m - (keys - (todo - {key}))
  {
  }

  method TotalSize(m: map<Key, Entry>) returns (total: nat)
    ensures total == SumSizes(m)
  {
    var rest := m;
    total := 0;
    while rest != map[]
      invariant total + SumSizes(rest) == SumSizes(m)
      decreases |rest|
    {
      var k :| k in rest;
      SumSizesOfAny(rest, k);
      total := total + rest[k].sizeBytes;
      rest := rest - {k};
    }
  }

  // ------------------------------------------------------------- ranking

  /** `ks` lists keys by score, highest first: each scores at least as high as all not listed before it. */
  ghost predicate Ranking(scores: map<Key, real>, ks: seq<Key>)
    decreases |ks|
  {
    ks == [] ||
    var front, last := ks[..|ks| - 1], ks[|ks| - 1];
    && Ranking(scores, front)
    && last in scores && last !in Elements(front)
    && forall k :: k in scores && k !in Elements(front) ==> scores[last] >= scores[k]
  }

  /** All keys sorted by score, highest first; ties in any order. */
  method SortedByScore(scores: map<Key, real>) returns (ks: seq<Key>)
    ensures Ranking(scores, ks) && Elements(ks) == scores.Keys
  {
    var todo := scores.Keys;
    ks := [];
    while todo != {}
      invariant Sorting(scores, ks, todo)
      decreases todo
    {
      var k := HighestScore(scores, todo);
      SortingNext(scores, ks, todo, k);
      ks, todo := ks + [k], todo - {k};
    }
  }

  ghost predicate Sorting(scores: map<Key, real>, ks: seq<Key>, todo: set<Key>) {
    Ranking(scores, ks) && scores.Keys == Elements(ks) + todo && Elements(ks) !! todo
  }

  lemma SortingNext(scores: map<Key, real>, ks: seq<Key>, todo: set<Key>, k: Key)
    requires Sorting(scores, ks, todo) && k in todo
    requires forall x :: x in todo ==> scores[k] >= scores[x]
    ensures Sorting(scores, ks + [k], todo - {k})
  {
    var r := ks + [k];
    assert r[..|r| - 1] == ks && r[|r| - 1] == k;
    assert Elements(r) == Elements(ks) + {k};
  }

  lemma {:induction false} RankingHead(scores: map<Key, real>, ks: seq<Key>, n: nat)
    requires Ranking(scores, ks) && n <= |ks|
    ensures Ranking(scores, ks[..n])
    decreases |ks|
  {
    if n == |ks| {
      assert ks[..n] == ks;
    } else {
      RankingHead(scores, ks[..|ks| - 1], n);
      assert ks[..|ks| - 1][..n] == ks[..n];
    }
  }

  lemma {:induction false} RankingTop(scores: map<Key, real>, ks: seq<Key>)
    requires Ranking(scores, ks)
    ensures Elements(ks) <= scores.Keys && |Elements(ks)| == |ks|
    ensures forall v, k :: v in Elements(ks) && k in scores && k !in Elements(ks) ==> scores[v] >= scores[k]
    decreases |ks|
  {
    if ks == [] {
      assert Elements(ks) == {};
    } else {
      var front, last := ks[..|ks| - 1], ks[|ks| - 1];
      assert ks == front + [last];
      assert Elements(ks) == Elements(front) + {last};
      RankingTop(scores, front);
    }
  }

  method HighestScore(scores: map<Key, real>, among: set<Key>) returns (k: Key)
    requires among != {} && among <= scores.Keys
    ensures k in among && forall x :: x in among ==> scores[k] >= scores[x]
  {
    k :| k in among;
    var rest := among - {k};
    while rest != {}
      invariant k in among && rest <= among
      invariant forall x :: x in among && x !in rest ==> scores[k] >= scores[x]
      decreases rest
    {
      var x :| x in rest;
      if scores[x] > scores[k] {
        k := x;
      }
      rest := rest - {x};
    }
  }

  /** The head of a ranking is an eviction. */
  lemma HeadIsEviction(m: map<Key, Entry>, now: real, scores: map<Key, real>, ks: seq<Key>)
    requires scores == map k | k in m :: Score(m[k], now)
    requires Ranking(scores, ks) && Elements(ks) == m.Keys
    ensures IsEviction(m, Elements(ks[..EvictionQuota(|ks|)]), now)
  {
    var head := ks[..EvictionQuota(|ks|)];
    RankingTop(scores, ks);
    RankingHead(scores, ks, |head|);
    RankingTop(scores, head);
    forall v, k | v in Elements(head) && k in m && k !in Elements(head)
      ensures Score(m[v], now) >= Score(m[k], now)
    {
      assert scores[v] >= scores[k];
    }
  }
}
