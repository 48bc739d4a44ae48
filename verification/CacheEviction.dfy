/**
 Which entries resync/core/advanced_cache.py evicts, when, and how many, in
 terms of the entries themselves; and what the statistics count over runs.
 */
module CacheEviction {
  import opened Wrappers
  import opened DependencyGraph
  import opened CacheInvalidation
  import opened AdvancedCache
  import opened CacheRuns
  import opened CacheGraphRuns

  // --------------------------------------------------------------- which

  lemma PositiveFactor(a: real, b: real, c: real)
    requires c > 0.0
    ensures a * c >= b * c <==> a >= b
  {
  }

  lemma NegativeFactor(a: real, b: real, c: real)
    requires c < 0.0
    ensures a * c >= b * c <==> a <= b
  {
    PositiveFactor(b, a, -c);
    assert a * c == -(a * -c) && b * c == -(b * -c);
  }

  /** Products that differ in the first factor only. */
  lemma IdleCompares(a: real, b: real, x: real, y: real, p: real, q: real, c: real, d: real)
    requires a == x * p * c && b == y * q * d && p == q && c == d > 0.0
    ensures p > 0.0 ==> (a >= b <==> x >= y)
    ensures p < 0.0 ==> (a >= b <==> x <= y)
    ensures p == 0.0 ==> a == b
  {
    PositiveFactor(x * p, y * p, c);
    if p > 0.0 {
      PositiveFactor(x, y, p);
    } else if p < 0.0 {
      NegativeFactor(x, y, p);
    }
  }

  /** Products that differ in the last factor only. */
  lemma SizeCompares(a: real, b: real, x: real, y: real, p: real, q: real, c: real, d: real)
    requires a == x * p * c && b == y * q * d && p == q > 0.0 && x == y > 0.0
    ensures a >= b <==> c >= d
  {
    var f := x * p;
    assert f > 0.0;
    PositiveFactor(c, d, f);
    assert f * c == c * f && f * d == d * f;
  }

  /** Products that differ in the second factor only. */
  lemma RateCompares(a: real, b: real, x: real, y: real, p: real, q: real, c: real, d: real)
    requires a == x * p * c && b == y * q * d && x == y > 0.0 && c == d > 0.0
    ensures a >= b <==> p >= q
  {
    PositiveFactor(x * p, x * q, c);
    PositiveFactor(p, q, x);
    assert x * p == p * x && x * q == q * x;
  }

  /** The three factors of a score: idleness, how far the hit rate is below 2, and the size in thousands. */
  ghost predicate Factors(e: Entry, now: real, x: real, p: real, c: real) {
    && x == now - e.lastAccessed && p == 2.0 - e.hitRate && c == e.sizeBytes as real / 1000.0
    && Score(e, now) == x * p * c
  }

  lemma HasFactors(e: Entry, now: real) returns (x: real, p: real, c: real)
    ensures Factors(e, now, x, p, c) && (e.sizeBytes > 0 <==> c > 0.0)
  {
    x, p, c := now - e.lastAccessed, 2.0 - e.hitRate, e.sizeBytes as real / 1000.0;
  }

  /** Alike in size and hit rate: the idleness decides, one way below a hit rate of 2 and the other way above. */
  lemma ScoresByIdleness(e: Entry, f: Entry, now: real)
    requires e.sizeBytes == f.sizeBytes > 0 && e.hitRate == f.hitRate
    ensures e.hitRate < 2.0 ==> (Score(e, now) >= Score(f, now) <==> e.lastAccessed <= f.lastAccessed)
    ensures e.hitRate > 2.0 ==> (Score(e, now) >= Score(f, now) <==> e.lastAccessed >= f.lastAccessed)
    ensures e.hitRate == 2.0 ==> Score(e, now) == Score(f, now)
  {
    var x, p, c := HasFactors(e, now);
    var y, q, d := HasFactors(f, now);
    IdleCompares(Score(e, now), Score(f, now), x, y, p, q, c, d);
  }

  /** Alike in idleness and hit rate: the larger scores higher. */
  lemma ScoresBySize(e: Entry, f: Entry, now: real)
    requires e.hitRate == f.hitRate < 2.0 && e.lastAccessed == f.lastAccessed < now
    ensures Score(e, now) >= Score(f, now) <==> e.sizeBytes >= f.sizeBytes
  {
    var x, p, c := HasFactors(e, now);
    var y, q, d := HasFactors(f, now);
    SizeCompares(Score(e, now), Score(f, now), x, y, p, q, c, d);
  }

  /** Alike in idleness and size: the one that is hit more often scores lower. */
  lemma ScoresByRate(e: Entry, f: Entry, now: real)
    requires e.sizeBytes == f.sizeBytes > 0 && e.lastAccessed == f.lastAccessed < now
    ensures Score(e, now) >= Score(f, now) <==> e.hitRate <= f.hitRate
  {
    var x, p, c := HasFactors(e, now);
    var y, q, d := HasFactors(f, now);
    RateCompares(Score(e, now), Score(f, now), x, y, p, q, c, d);
  }

  /**
   Which of two entries goes. Of two alike in size and hit rate, with a hit rate
   below 2 a minute, the one that goes has been idle at least as long; of two
   alike in idleness and hit rate it is at least as large; and of two alike in
   idleness and size it is hit at most as often. At hit rates above 2 the first
   law turns round: the one that goes was used at least as lately.
   */
  lemma EvictionPrefers(s: State, now: real, t: State, v: Key, k: Key)
    requires EvictStep(s, now, t) && v in s.entries && v !in t.entries && k in t.entries
    ensures k in s.entries && t.entries[k] == s.entries[k]
    ensures var e, f := s.entries[v], s.entries[k];
      && (e.sizeBytes == f.sizeBytes > 0 && e.hitRate == f.hitRate < 2.0 ==> e.lastAccessed <= f.lastAccessed)
      && (e.sizeBytes == f.sizeBytes > 0 && e.hitRate == f.hitRate > 2.0 ==> e.lastAccessed >= f.lastAccessed)
      && (e.hitRate == f.hitRate < 2.0 && e.lastAccessed == f.lastAccessed < now ==> e.sizeBytes >= f.sizeBytes)
      && (e.sizeBytes == f.sizeBytes > 0 && e.lastAccessed == f.lastAccessed < now ==> e.hitRate <= f.hitRate)
  {
    var victims :| IsEviction(s.entries, victims, now) && t == Evicted(s, victims);
    assert Score(s.entries[v], now) >= Score(s.entries[k], now);
    var e, f := s.entries[v], s.entries[k];
    if e.sizeBytes == f.sizeBytes > 0 && e.hitRate == f.hitRate {
      ScoresByIdleness(e, f, now);
    }
    if e.hitRate == f.hitRate < 2.0 && e.lastAccessed == f.lastAccessed < now {
      ScoresBySize(e, f, now);
    }
    if e.sizeBytes == f.sizeBytes > 0 && e.lastAccessed == f.lastAccessed < now {
      ScoresByRate(e, f, now);
    }
  }

  /** With this hit rate, eviction takes the longer idle of two entries alike in size. */
  ghost predicate IdleGoFirst(rate: real) {
    forall s, now, t, v, k ::
      EvictStep(s, now, t) && Differ(s, t, v, k) && s.entries[v].hitRate == s.entries[k].hitRate == rate ==>
        s.entries[v].lastAccessed <= s.entries[k].lastAccessed
  }

  /** `v` goes and `k` stays, and both have the same size. */
  predicate Differ(s: State, t: State, v: Key, k: Key) {
    v in s.entries && v !in t.entries && k in t.entries && k in s.entries
    && s.entries[v].sizeBytes == s.entries[k].sizeBytes > 0
  }

  /** The exact condition: it does so if and only if the hit rate is below 2 a minute. */
  lemma IdleGoFirstIff(rate: real)
    ensures IdleGoFirst(rate) <==> rate < 2.0
  {
    if rate < 2.0 {
      forall s, now, t, v, k |
        EvictStep(s, now, t) && Differ(s, t, v, k) && s.entries[v].hitRate == s.entries[k].hitRate == rate
        ensures s.entries[v].lastAccessed <= s.entries[k].lastAccessed
      {
        EvictionPrefers(s, now, t, v, k);
      }
    } else {
      var e := Entry(Null, 300, 0.0, 0.0, 0, {}, {}, rate, 1000);
      var s := State(map["idle" := e, "busy" := e.(lastAccessed := 99.0)], EMPTY_GRAPH, INITIAL_STATS);
      BusyGoes(s, rate);
      var t := Evicted(s, {"busy"});
      assert EvictStep(s, 100.0, t) && Differ(s, t, "busy", "idle");
    }
  }

  lemma BusyGoes(s: State, rate: real)
    requires rate >= 2.0
    requires var e := Entry(Null, 300, 0.0, 0.0, 0, {}, {}, rate, 1000);
      s.entries == map["idle" := e, "busy" := e.(lastAccessed := 99.0)]
    ensures IsEviction(s.entries, {"busy"}, 100.0)
  {
    assert s.entries.Keys == {"idle", "busy"};
    assert |s.entries| == 2;
    ScoresByIdleness(s.entries["busy"], s.entries["idle"], 100.0);
  }

  // ---------------------------------------------------------- when and how many

  /** How many entries a put evicts, by the number of entries and by the bytes that the statistics show. */
  function EvictedFor(s: State, p: Put): nat {
    var byCount := if |s.entries| >= s.stats.maxEntries then Tenth(|s.entries|) else 0;
    byCount + if s.stats.memoryUsageBytes + p.sizeBytes > s.stats.maxMemoryBytes
              then Tenth(|s.entries| - byCount) else 0
  }

  /** A put takes out exactly that many entries, and they are all that its evictions count. */
  lemma PutEvicts(s: State, p: Put, t: State) returns (room: State)
    requires PutStep(s, p, t)
    ensures IsRoom(s, p, t, room) && |room.entries| == |s.entries| - EvictedFor(s, p)
    ensures t.stats.evictionCount == s.stats.evictionCount + EvictedFor(s, p)
  {
    room :| MakeRoom(s, p, room) && t == Inserted(room, p);
    RoomSize(s, p, room);
    RoomCounts(s, p, room);
  }

  lemma RoomSize(s: State, p: Put, room: State)
    requires MakeRoom(s, p, room)
    ensures |room.entries| == |s.entries| - EvictedFor(s, p)
  {
    RoomLeaves(s, p, room);
    LeftIsRest(s, p);
  }

  lemma LeftIsRest(s: State, p: Put)
    ensures Left(Left(|s.entries|, FullByCount(s)), FullByBytes(s, p.sizeBytes)) == |s.entries| - EvictedFor(s, p)
  {
  }

  /** So a put takes out nothing if there is room by both limits. */
  lemma PutSparesAll(s: State, p: Put, t: State, k: Key)
    requires PutStep(s, p, t) && k in s.entries && k != p.key
    requires |s.entries| < s.stats.maxEntries && s.stats.memoryUsageBytes + p.sizeBytes <= s.stats.maxMemoryBytes
    ensures k in t.entries && t.entries[k] == s.entries[k]
  {
    var room :| MakeRoom(s, p, room) && t == Inserted(room, p);
    assert room == s;
  }

  lemma MaybeEvictCounts(guard: bool, s: State, now: real, t: State)
    requires MaybeEvict(guard, s, now, t)
    ensures t.stats.evictionCount == s.stats.evictionCount + if guard then Tenth(|s.entries|) else 0
  {
    if guard {
      EvictionTakesQuota(s, now, t);
    }
  }

  lemma RoomCounts(s: State, p: Put, room: State)
    requires MakeRoom(s, p, room)
    ensures room.stats.evictionCount == s.stats.evictionCount + EvictedFor(s, p)
  {
    var m :| MaybeEvict(FullByCount(s), s, p.at, m) && MaybeEvict(FullByBytes(m, p.sizeBytes), m, p.at, room);
    MaybeEvictLeaves(FullByCount(s), s, p.at, m);
    MaybeEvictCounts(FullByCount(s), s, p.at, m);
    MaybeEvictCounts(FullByBytes(m, p.sizeBytes), m, p.at, room);
    SameBytes(s, m, p.sizeBytes);
    EvictedInTwoParts(s, p);
  }

  lemma SameBytes(s: State, m: State, sizeBytes: nat)
    requires m.stats == s.stats.(evictionCount := m.stats.evictionCount)
    ensures FullByBytes(m, sizeBytes) == FullByBytes(s, sizeBytes)
  {
  }

  lemma EvictedInTwoParts(s: State, p: Put)
    ensures EvictedFor(s, p) ==
            (if FullByCount(s) then Tenth(|s.entries|) else 0) +
            (if FullByBytes(s, p.sizeBytes) then Tenth(Left(|s.entries|, FullByCount(s))) else 0)
  {
  }

  /** A put refreshes the two size statistics: the number of entries, and the sum of their sizes in any order. */
  lemma PutRefreshesSizes(s: State, p: Put, t: State)
    requires PutStep(s, p, t)
    ensures t.stats.currentEntries == |t.entries| && t.stats.memoryUsageBytes == SumSizes(t.entries)
    ensures SumSizes(t.entries) == p.sizeBytes + SumSizes(t.entries - {p.key})
    ensures SumSizes(map[]) == 0
  {
    SumSizesOfAny(t.entries, p.key);
  }

  // ------------------------------------------------------------ the counters

  function Minus(a: State, b: State): int {
    |a.entries| - |b.entries|
  }

  /** By how much the invalidations of a run shrank the cache. */
  ghost function Invalidations(states: seq<State>, ops: seq<Op>, n: nat): int
    requires n <= |ops| < |states|
  {
    if n == 0 then 0 else
    Invalidations(states, ops, n - 1) +
    if ops[n - 1].InvalidateOp? || ops[n - 1].InvalidateTagOp? then Minus(states[n - 1], states[n]) else 0
  }

  /** How many entries the puts and the cleanups of a run evicted. */
  ghost function Evictions(states: seq<State>, ops: seq<Op>, n: nat): int
    requires n <= |ops| < |states|
  {
    if n == 0 then 0 else
    Evictions(states, ops, n - 1) +
    if ops[n - 1].PutOp? then EvictedFor(states[n - 1], ops[n - 1].put)
    else if ops[n - 1].CleanupOp? then Minus(states[n - 1], states[n]) else 0
  }

  lemma StepCounts(s: State, op: Op, t: State)
    requires Step(s, op, t)
    ensures t.stats.invalidationCount == s.stats.invalidationCount +
      if op.InvalidateOp? || op.InvalidateTagOp? then Minus(s, t) else 0
    ensures t.stats.evictionCount == s.stats.evictionCount +
      if op.PutOp? then EvictedFor(s, op.put) else if op.CleanupOp? then Minus(s, t) else 0
  {
    match op
    case PutOp(p) =>
      var room := PutEvicts(s, p, t);
      MakeRoomKeepsStats(s, p, room);
    case InvalidateOp(key, cascade) => CachedIsDrop(s.entries, Dropped(s.graph, key, cascade));
    case InvalidateTagOp(tag) => CachedIsDrop(s.entries, Lookup(s.graph.tags, tag));
    case CleanupOp(now) => CachedIsDrop(s.entries, set k | k in s.entries && ShouldEvict(s.entries[k], now));
    case _ =>
  }

  lemma LastStepCounts(states: seq<State>, ops: seq<Op>, n: nat)
    requires Run(states, ops) && 0 < n <= |ops|
    ensures states[n].stats.invalidationCount == states[n - 1].stats.invalidationCount +
      if ops[n - 1].InvalidateOp? || ops[n - 1].InvalidateTagOp? then Minus(states[n - 1], states[n]) else 0
    ensures states[n].stats.evictionCount == states[n - 1].stats.evictionCount +
      if ops[n - 1].PutOp? then EvictedFor(states[n - 1], ops[n - 1].put)
      else if ops[n - 1].CleanupOp? then Minus(states[n - 1], states[n]) else 0
  {
    assert StepAt(states, ops, n - 1);
    StepCounts(states[n - 1], ops[n - 1], states[n]);
  }

  /** In every run the two counters are the sums over the run: what invalidations took and what was evicted. */
  lemma {:induction false} CountsAreSums(states: seq<State>, ops: seq<Op>, n: nat)
    requires Run(states, ops) && n <= |ops|
    ensures states[n].stats.invalidationCount == Invalidations(states, ops, n)
    ensures states[n].stats.evictionCount == Evictions(states, ops, n)
  {
    if n > 0 {
      CountsAreSums(states, ops, n - 1);
      LastStepCounts(states, ops, n);
    }
  }

  /** What an invalidation returns is what it takes. */
  lemma ReturnedIsTaken(s: State, key: Key, cascade: bool, tag: Key)
    ensures Invalidated(s, key, cascade) == Minus(s, AfterInvalidate(s, key, cascade))
    ensures Cached(s.entries, Lookup(s.graph.tags, tag)) == Minus(s, AfterInvalidateTag(s, tag))
  {
    CachedIsDrop(s.entries, Dropped(s.graph, key, cascade));
    CachedIsDrop(s.entries, Lookup(s.graph.tags, tag));
  }

  /** How many hits of a layer are recorded. */
  function LayerHits(ops: seq<Op>, layer: Layer): nat {
    if ops == [] then 0 else
    LayerHits(ops[..|ops| - 1], layer) +
    if ops[|ops| - 1].HitOp? && ops[|ops| - 1].layer == layer then 1 else 0
  }

  ghost predicate LayersCount(st: Stats, ops: seq<Op>) {
    && st.memoryHits == LayerHits(ops, Memory) && st.redisHits == LayerHits(ops, Redis)
    && st.databaseHits == LayerHits(ops, Database)
  }

  lemma StepLayers(s: State, op: Op, t: State)
    requires Step(s, op, t)
    ensures t.stats.memoryHits == s.stats.memoryHits + if op.HitOp? && op.layer == Memory then 1 else 0
    ensures t.stats.redisHits == s.stats.redisHits + if op.HitOp? && op.layer == Redis then 1 else 0
    ensures t.stats.databaseHits == s.stats.databaseHits + if op.HitOp? && op.layer == Database then 1 else 0
  {
    if op.PutOp? {
      var room :| MakeRoom(s, op.put, room) && t == Inserted(room, op.put);
      MakeRoomKeepsStats(s, op.put, room);
    }
  }

  /** In every run each layer's counter is the number of its recorded hits. */
  lemma {:induction false} LayersAreCounted(states: seq<State>, ops: seq<Op>, n: nat)
    requires Run(states, ops) && n <= |ops|
    ensures LayersCount(states[n].stats, ops[..n])
  {
    if n > 0 {
      LayersAreCounted(states, ops, n - 1);
      LastStepLayers(states, ops, n);
    }
  }

  lemma LastStepLayers(states: seq<State>, ops: seq<Op>, n: nat)
    requires Run(states, ops) && 0 < n <= |ops| && LayersCount(states[n - 1].stats, ops[..n - 1])
    ensures LayersCount(states[n].stats, ops[..n])
  {
    assert StepAt(states, ops, n - 1);
    StepLayers(states[n - 1], ops[n - 1], states[n]);
    assert ops[..n][..n - 1] == ops[..n - 1] && ops[..n][n - 1] == ops[n - 1];
    NextLayers(states[n - 1].stats, ops[..n], states[n].stats);
  }

  lemma NextLayers(st: Stats, ops: seq<Op>, su: Stats)
    requires ops != [] && LayersCount(st, ops[..|ops| - 1])
    requires var op := ops[|ops| - 1];
      && su.memoryHits == st.memoryHits + (if op.HitOp? && op.layer == Memory then 1 else 0)
      && su.redisHits == st.redisHits + (if op.HitOp? && op.layer == Redis then 1 else 0)
      && su.databaseHits == st.databaseHits + (if op.HitOp? && op.layer == Database then 1 else 0)
    ensures LayersCount(su, ops)
  {
  }

  // ------------------------------------------------------- a concrete put

  function Fresh(at: real): Entry {
    Entry(Data("v"), 300, at, at, 0, {}, {}, 1.0, 1000)
  }

  function PutAt(key: Key, at: real): Put {
    Put(key, Data("v"), 300, [], [], 1000, at)
  }

  /** Two entries fill the cache, of which "a" has been idle for 100 seconds and "b" for one. */
  ghost predicate FullOfTwo(s: State) {
    && s.entries.Keys == {"a", "b"} && s.entries["a"] == Fresh(0.0) && s.entries["b"] == Fresh(99.0)
    && s.stats.maxEntries == 2
    && s.stats.memoryUsageBytes == 2000 && s.stats.maxMemoryBytes == 104_857_600
  }

  lemma TwoKeys<E>(m: map<Key, E>)
    requires m.Keys == {"a", "b"}
    ensures |m| == 2
  {
    assert |m| == |m.Keys|;
  }

  lemma OneOfTwo(ks: set<Key>)
    requires ks <= {"a", "b"} && |ks| == 1
    ensures ks == {"a"} || ks == {"b"}
  {
    var k :| k in ks;
    assert |ks - {k}| == 0;
    assert ks == {k};
  }

  /** The only eviction there is. */
  lemma IdleIsVictim(entries: map<Key, Entry>, victims: set<Key>)
    requires entries.Keys == {"a", "b"} && Score(entries["a"], 100.0) > Score(entries["b"], 100.0)
    requires IsEviction(entries, victims, 100.0)
    ensures victims == {"a"}
  {
    TwoKeys(entries);
    OneOfTwo(victims);
    assert "a" in entries;
  }

  lemma IdleScoresMore(s: State)
    requires FullOfTwo(s)
    ensures Score(s.entries["a"], 100.0) > Score(s.entries["b"], 100.0)
  {
    ScoresByIdleness(s.entries["b"], s.entries["a"], 100.0);
  }

  lemma EvictionLeavesBusy(s: State, m: State)
    requires s.entries.Keys == {"a", "b"} && Score(s.entries["a"], 100.0) > Score(s.entries["b"], 100.0)
    requires EvictStep(s, 100.0, m)
    ensures m.entries.Keys == {"b"}
  {
    var victims :| IsEviction(s.entries, victims, 100.0) && m == Evicted(s, victims);
    IdleIsVictim(s.entries, victims);
  }

  /** The first eviction takes place, and the second does not. */
  lemma OneEviction(s: State, p: Put, room: State)
    requires FullOfTwo(s) && p.sizeBytes == 1000 && MakeRoom(s, p, room)
    ensures EvictStep(s, p.at, room)
  {
    TwoKeys(s.entries);
    var m :| MaybeEvict(FullByCount(s), s, p.at, m) && MaybeEvict(FullByBytes(m, p.sizeBytes), m, p.at, room);
    MaybeEvictLeaves(FullByCount(s), s, p.at, m);
  }

  lemma BusyStays(s: State, p: Put, t: State)
    requires FullOfTwo(s) && p.sizeBytes == 1000 && p.at == 100.0 && PutStep(s, p, t)
    ensures t.entries.Keys == {"b"} + {p.key}
  {
    var room :| MakeRoom(s, p, room) && t == Inserted(room, p);
    RoomIsBusy(s, p, room);
    KeysAfterInsertion(room, p);
  }

  lemma RoomIsBusy(s: State, p: Put, room: State)
    requires FullOfTwo(s) && p.sizeBytes == 1000 && p.at == 100.0 && MakeRoom(s, p, room)
    ensures room.entries.Keys == {"b"}
  {
    OneEviction(s, p, room);
    IdleScoresMore(s);
    EvictionLeavesBusy(s, room);
  }

  lemma IdleOneGoes(s: State, t: State)
    requires FullOfTwo(s) && PutStep(s, PutAt("c", 100.0), t)
    ensures t.entries.Keys == {"b", "c"}
  {
    BusyStays(s, PutAt("c", 100.0), t);
  }

  lemma KeysAfterInsertion(room: State, p: Put)
    ensures Inserted(room, p).entries.Keys == room.entries.Keys + {p.key}
  {
  }

  lemma SecondPut(s: State, t: State)
    requires s.entries == map["a" := Fresh(0.0)] && s.stats.maxEntries == 2
    requires s.stats.memoryUsageBytes == 1000 && s.stats.maxMemoryBytes == 104_857_600
    requires PutStep(s, PutAt("b", 99.0), t)
    ensures FullOfTwo(t)
  {
    PutSparesAll(s, PutAt("b", 99.0), t, "a");
    PutRefreshesSizes(s, PutAt("b", 99.0), t);
    var room := PutEvicts(s, PutAt("b", 99.0), t);
    MakeRoomKeepsStats(s, PutAt("b", 99.0), room);
    assert room.entries == s.entries;
    assert t.entries - {"b"} == s.entries;
    SumSizesOfAny(s.entries, "a");
    assert s.entries - {"a"} == map[];
  }

  lemma FirstPut(s: State, t: State)
    requires s.entries == map[] && s.stats.maxEntries == 2
    requires s.stats.memoryUsageBytes == 0 && s.stats.maxMemoryBytes == 104_857_600
    requires PutStep(s, PutAt("a", 0.0), t)
    ensures t.entries == map["a" := Fresh(0.0)] && t.stats.maxEntries == 2
    ensures t.stats.memoryUsageBytes == 1000 && t.stats.maxMemoryBytes == 104_857_600
  {
    PutRefreshesSizes(s, PutAt("a", 0.0), t);
    var room := PutEvicts(s, PutAt("a", 0.0), t);
    MakeRoomKeepsStats(s, PutAt("a", 0.0), room);
    RoomShrinks(s, PutAt("a", 0.0), room);
    assert t.entries - {"a"} == map[];
  }

  /** With room for two, the third put evicts the entry that has been idle longest. */
  method ThreePuts() returns (keys: set<Key>)
    ensures keys == {"b", "c"}
  {
    var cache := new AdvancedCacheManager();
    cache.stats := cache.stats.(maxEntries := 2);
    ghost var s0 := cache.Model();
    cache.Set(PutAt("a", 0.0));
    ghost var s1 := cache.Model();
    FirstPut(s0, s1);
    cache.Set(PutAt("b", 99.0));
    ghost var s2 := cache.Model();
    SecondPut(s1, s2);
    cache.Set(PutAt("c", 100.0));
    IdleOneGoes(s2, cache.Model());
    keys := cache.memoryCache.Keys;
  }
}
