/**
 What the cache of resync/core/advanced_cache.py holds and serves over whole
 runs, in terms of what was put and of the steps that take entries out.
 */
module CacheServing {
  import opened Wrappers
  import opened DependencyGraph
  import opened CacheInvalidation
  import opened AdvancedCache
  import opened CacheRuns
  import opened CacheGraphRuns

  // ------------------------------------------------------- what an entry is

  /** Hits per minute since the put, as of the last hit; 1 before the first, and never less than a minute is counted. */
  function HitsPerMinute(served: nat, at: real, lastUse: real): real {
    if served == 0 then 1.0
    else if lastUse - at <= 60.0 then served as real
    else served as real * 60.0 / (lastUse - at)
  }

  lemma TouchedRate(e: Entry, now: real)
    ensures Touched(e, now).hitRate == HitsPerMinute(e.accessCount + 1, e.createdAt, now)
  {
    var n, d := (e.accessCount + 1) as real, now - e.createdAt;
    if d > 60.0 {
      assert n / (d / 60.0) * (d / 60.0) == n;
      assert n * 60.0 / d * d == n * 60.0;
      assert n / (d / 60.0) * d == n * 60.0;
    }
  }

  lemma StepHitRate(s: State, op: Op, t: State, k: Key)
    requires Coherent(s) && Step(s, op, t) && k in t.entries
    ensures Puts(op, k) ==> t.entries[k].hitRate == 1.0
    ensures !Puts(op, k) ==> k in s.entries
    ensures !Puts(op, k) && Serves(s, op, k) ==>
      t.entries[k].hitRate == HitsPerMinute(s.entries[k].accessCount + 1, s.entries[k].createdAt, op.now)
    ensures !Puts(op, k) && !Serves(s, op, k) ==> t.entries[k].hitRate == s.entries[k].hitRate
  {
    if op.PutOp? && op.put.key != k {
      OtherPutKeepsEntry(s, op.put, t, k);
    } else if !op.PutOp? {
      SurvivorWasThere(s, op, t, k);
      if Serves(s, op, k) {
        TouchedRate(s.entries[k], op.now);
      }
    }
  }

  lemma LastStepHitRate(states: seq<State>, ops: seq<Op>, n: nat, k: Key)
    requires Run(states, ops) && 0 < n < |states| && k in states[n].entries
    ensures Puts(ops[n - 1], k) ==> states[n].entries[k].hitRate == 1.0
    ensures !Puts(ops[n - 1], k) ==> k in states[n - 1].entries
    ensures !Puts(ops[n - 1], k) && Serves(states[n - 1], ops[n - 1], k) ==>
      var e := states[n - 1].entries[k];
      states[n].entries[k].hitRate == HitsPerMinute(e.accessCount + 1, e.createdAt, ops[n - 1].now)
    ensures !Puts(ops[n - 1], k) && !Serves(states[n - 1], ops[n - 1], k) ==>
      states[n].entries[k].hitRate == states[n - 1].entries[k].hitRate
  {
    assert StepAt(states, ops, n - 1);
    ReachableIsSound(states, ops, n - 1);
    StepHitRate(states[n - 1], ops[n - 1], states[n], k);
  }

  lemma {:induction false} HitRateIsExact(states: seq<State>, ops: seq<Op>, n: nat, k: Key) returns (i: nat)
    requires Run(states, ops) && n < |states| && k in states[n].entries
    ensures IsLatestPut(ops, i, n, k)
    ensures states[n].entries[k].hitRate ==
            HitsPerMinute(TimesServed(states, ops, i, n, k), ops[i].put.at, LastUse(states, ops, i, n, k))
  {
    assert n > 0;
    LastStepHitRate(states, ops, n, k);
    if Puts(ops[n - 1], k) {
      i := n - 1;
    } else {
      i := HitRateIsExact(states, ops, n - 1, k);
      LatestPutStays(ops, i, n - 1, k);
      var j := CachedMeansFresh(states, ops, n - 1, k);
      var m := UsageIsExact(states, ops, n - 1, k);
      assert i == j == m;
      assert TimesServed(states, ops, i, n, k) ==
             TimesServed(states, ops, i, n - 1, k) + if Serves(states[n - 1], ops[n - 1], k) then 1 else 0;
    }
  }

  /**
   Every field of a cached entry, in every run: what the latest put of its key
   gave, and figures that follow from how often and when it was served since.
   */
  lemma EntryIsExact(states: seq<State>, ops: seq<Op>, n: nat, k: Key) returns (i: nat)
    requires Run(states, ops) && n < |states| && k in states[n].entries
    ensures IsLatestPut(ops, i, n, k)
    ensures var e, p := states[n].entries[k], ops[i].put;
      && e.value == p.value && e.createdAt == p.at && e.sizeBytes == p.sizeBytes
      && e.dependencies == (set d | d in p.dependencies) && e.tags == (set t | t in p.tags)
      && e.ttl == TtlInForce(states, ops, i, n, k)
      && e.accessCount == TimesServed(states, ops, i, n, k) && e.lastAccessed == LastUse(states, ops, i, n, k)
      && e.hitRate == HitsPerMinute(e.accessCount, p.at, e.lastAccessed)
  {
    i := CachedMeansFresh(states, ops, n, k);
    TtlIsExact(states, ops, i, n, k);
    var j := UsageIsExact(states, ops, n, k);
    var m := HitRateIsExact(states, ops, n, k);
    assert i == j == m;
  }

  // ------------------------------------------------------------- presence

  /** To make room for `p`, step `j` evicts `k`. */
  ghost predicate EvictsAt(states: seq<State>, j: nat, p: Put, k: Key)
    requires j + 1 < |states|
  {
    exists room :: IsRoom(states[j], p, states[j + 1], room) && k !in room.entries
  }

  /**
   Step `j` takes out what step `i` put under `k`: evicts it for another key,
   looks it up when its time is up, invalidates it, a key that it depends on or
   a tag under which it is filed, cleans it up because its time is up or it is
   old and rarely hit, or shuts the cache down.
   */
  ghost predicate DropsAt(states: seq<State>, ops: seq<Op>, i: nat, j: nat, k: Key)
    requires Run(states, ops) && i < j < |ops| && Puts(ops[i], k)
  {
    match ops[j]
    case PutOp(p) => p.key != k && EvictsAt(states, j, p, k)
    case LookupOp(key, now) =>
      key == k && now - ops[i].put.at > TtlInForce(states, ops, i, j, k) as real
    case InvalidateOp(key, cascade) => k == key || (cascade && k in Doomed(states[j].graph, key))
    case InvalidateTagOp(tag) => CacheGraphRuns.Stands(states, ops, j, tag, k, true)
    case CleanupOp(now) =>
      var age := now - ops[i].put.at;
      var rate := HitsPerMinute(TimesServed(states, ops, i, j, k), ops[i].put.at, LastUse(states, ops, i, j, k));
      age > TtlInForce(states, ops, i, j, k) as real || (rate < 0.1 && age > 3600.0)
    case ShutdownOp => true
    case _ => false
  }

  /** No step after `i` and before `n` takes it out. */
  ghost predicate KeptSince(states: seq<State>, ops: seq<Op>, i: nat, n: nat, k: Key)
    requires Run(states, ops) && i < n <= |ops| && Puts(ops[i], k)
    decreases n
  {
    n == i + 1 || (KeptSince(states, ops, i, n - 1, k) && !DropsAt(states, ops, i, n - 1, k))
  }

  /** What one step does to a cached entry, by the fields of the entry. */
  ghost predicate Drops(s: State, op: Op, t: State, k: Key)
    requires k in s.entries
  {
    var e := s.entries[k];
    match op
    case PutOp(p) => p.key != k && exists room :: IsRoom(s, p, t, room) && k !in room.entries
    case LookupOp(key, now) => key == k && now - e.createdAt > e.ttl as real
    case InvalidateOp(key, cascade) => k == key || (cascade && k in Doomed(s.graph, key))
    case InvalidateTagOp(tag) => k in Lookup(s.graph.tags, tag)
    case CleanupOp(now) =>
      now - e.createdAt > e.ttl as real || (e.hitRate < 0.1 && now - e.createdAt > 3600.0)
    case ShutdownOp => true
    case _ => false
  }

  lemma StepKeepsIff(s: State, op: Op, t: State, k: Key)
    requires Step(s, op, t) && k in s.entries && !Puts(op, k)
    ensures k in t.entries <==> !Drops(s, op, t, k)
  {
    match op
    case PutOp(p) => PutKeepsIff(s, p, t, k);
    case _ =>
  }

  lemma PutKeepsIff(s: State, p: Put, t: State, k: Key)
    requires PutStep(s, p, t) && k != p.key
    ensures k in t.entries <==> !exists room :: IsRoom(s, p, t, room) && k !in room.entries
  {
    var room :| MakeRoom(s, p, room) && t == Inserted(room, p);
    assert IsRoom(s, p, t, room);
    InsertionKeepsOthers(room, p, k);
    forall other | IsRoom(s, p, t, other) ensures k in other.entries <==> k in t.entries {
      InsertionKeepsOthers(other, p, k);
    }
  }

  lemma LastStepDrops(states: seq<State>, ops: seq<Op>, i: nat, n: nat, k: Key)
    requires Run(states, ops) && n < |ops| && IsLatestPut(ops, i, n, k)
    requires k in states[n].entries && !Puts(ops[n], k)
    ensures k in states[n + 1].entries <==> !DropsAt(states, ops, i, n, k)
  {
    assert StepAt(states, ops, n);
    StepKeepsIff(states[n], ops[n], states[n + 1], k);
    var m := EntryIsExact(states, ops, n, k);
    assert m == i;
    if ops[n].InvalidateTagOp? {
      RunGraphIsExact(states, ops, n, ops[n].tag, k, true);
    }
  }

  /** What a step did not put and was not there before is not there afterwards. */
  lemma LastStepAddsNothing(states: seq<State>, ops: seq<Op>, n: nat, k: Key)
    requires Run(states, ops) && n < |ops| && k !in states[n].entries && !Puts(ops[n], k)
    ensures k !in states[n + 1].entries
  {
    assert StepAt(states, ops, n);
    ReachableIsSound(states, ops, n);
    if k in states[n + 1].entries {
      SurvivorWasThere(states[n], ops[n], states[n + 1], k);
    }
  }

  lemma LastStepPuts(states: seq<State>, ops: seq<Op>, n: nat, k: Key)
    requires Run(states, ops) && n < |ops| && Puts(ops[n], k)
    ensures k in states[n + 1].entries
  {
    assert StepAt(states, ops, n);
  }

  /** While a key is not put again, it is cached exactly as long as nothing takes it out. */
  lemma {:induction false} CachedWhileKept(states: seq<State>, ops: seq<Op>, i: nat, n: nat, k: Key)
    requires Run(states, ops) && n <= |ops| && IsLatestPut(ops, i, n, k)
    ensures k in states[n].entries <==> KeptSince(states, ops, i, n, k)
    decreases n
  {
    if n == i + 1 {
      LastStepPuts(states, ops, i, k);
    } else {
      CachedWhileKept(states, ops, i, n - 1, k);
      assert !Puts(ops[n - 1], k);
      if k in states[n - 1].entries {
        LastStepDrops(states, ops, i, n - 1, k);
      } else {
        LastStepAddsNothing(states, ops, n - 1, k);
      }
    }
  }

  /**
   Presence over whole runs: a key is cached if and only if it was put and no
   step since the latest put of it takes it out.
   */
  lemma PresentIff(states: seq<State>, ops: seq<Op>, n: nat, k: Key)
    requires Run(states, ops) && n <= |ops|
    ensures k in states[n].entries <==>
            exists i: nat :: IsLatestPut(ops, i, n, k) && KeptSince(states, ops, i, n, k)
  {
    if k in states[n].entries {
      var i := CachedMeansFresh(states, ops, n, k);
      CachedWhileKept(states, ops, i, n, k);
    }
    forall i: nat | IsLatestPut(ops, i, n, k) && KeptSince(states, ops, i, n, k) ensures k in states[n].entries {
      CachedWhileKept(states, ops, i, n, k);
    }
  }

  /**
   And what is served, over whole runs: a lookup of a key at some instant finds
   it alive if and only if the latest put of it has not been taken out since and
   the time to live in force is not over; and then it finds the value that was
   put.
   */
  lemma ServedIff(states: seq<State>, ops: seq<Op>, n: nat, k: Key, now: real)
    requires Run(states, ops) && n <= |ops|
    ensures LiveIn(states[n].entries, k, now) <==>
            exists i: nat ::
              && IsLatestPut(ops, i, n, k) && KeptSince(states, ops, i, n, k)
              && now - ops[i].put.at <= TtlInForce(states, ops, i, n, k) as real
    ensures forall i: nat :: IsLatestPut(ops, i, n, k) && LiveIn(states[n].entries, k, now) ==>
      states[n].entries[k].value == Found(states[n], k, now) == ops[i].put.value
  {
    forall i: nat | IsLatestPut(ops, i, n, k)
      ensures LiveIn(states[n].entries, k, now) <==>
              KeptSince(states, ops, i, n, k) && now - ops[i].put.at <= TtlInForce(states, ops, i, n, k) as real
      ensures LiveIn(states[n].entries, k, now) ==>
              states[n].entries[k].value == Found(states[n], k, now) == ops[i].put.value
    {
      CachedWhileKept(states, ops, i, n, k);
      if k in states[n].entries {
        var m := EntryIsExact(states, ops, n, k);
        assert m == i;
      }
    }
    if LiveIn(states[n].entries, k, now) {
      var i := EntryIsExact(states, ops, n, k);
    }
  }

  /** A value set for 300 seconds is served from memory ten seconds later, as a hit; after 301 seconds it is not. */
  method SetThenGet(later: real) returns (r: GetResult, hits: nat, misses: nat)
    requires later == 10.0 || later == 300.0 || later == 301.0
    ensures later <= 300.0 ==> r == Got(Data("v")) && hits == 1 && misses == 0
    ensures later > 300.0 ==> r == Got(Null) && hits == 0 && misses == 1
  {
    var cache := new AdvancedCacheManager();
    cache.Set(Put("k", Data("v"), 300, [], [], 10, 0.0));
    r := cache.Get("k", later, NoFetch, 0.0);
    hits, misses := cache.stats.hits, cache.stats.misses;
  }
}
