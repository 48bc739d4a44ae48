/**
 The response cache of resync/api/gateway.py (lines 693-719) with the cache
 part of its cleanup pass (lines 759-767), and the running mean of response
 times (lines 394-402).

 The specification is a timed map read off the whole history of stores. Clock
 readings are inputs; cache keys are opaque.
 */
module ResponseCache {
  import opened Wrappers

  datatype Response = Response(status: int, headers: map<string, string>, body: string)

  // -------------------------------------------------------------- in place

  class Cache {
    var cache: map<string, Response>
    var cacheTtl: map<string, real>

    /** Both tables always have the same keys. */
    ghost predicate Valid()
      reads this
    {
      cache.Keys == cacheTtl.Keys
    }

    function Model(): Table
      reads this
    {
      Table(cache, cacheTtl)
    }

    constructor ()
      ensures Valid() && Model() == EMPTY_TABLE
    {
      cache, cacheTtl := map[], map[];
    }

    method GetCachedResponse(key: string, now: real) returns (r: Option<Response>)
      requires Valid()
      modifies this
      ensures Valid()
      ensures r == Hit(old(Model()), key, now) && Model() == AfterLookup(old(Model()), key, now)
    {
      if key in cache && key in cacheTtl {
        if now < cacheTtl[key] {
          return Some(cache[key]);
        }
        cache := cache - {key};
        cacheTtl := cacheTtl - {key};
      }
      r := None;
    }

    method CacheResponse(key: string, response: Response, now: real, ttlSeconds: int)
      requires Valid()
      modifies this
      ensures Valid() && Model() == AfterStore(old(Model()), key, response, now, ttlSeconds)
    {
      cache := cache[key := response];
      cacheTtl := cacheTtl[key := now + ttlSeconds as real];
    }

    method CleanExpired(now: real)
      requires Valid()
      modifies this
      ensures Valid() && Model() == AfterCleanup(old(Model()), now)
    {
      var expired := set k | k in cacheTtl && now > cacheTtl[k];
      var todo := expired;
      while todo != {}
        invariant todo <= expired && Valid()
        invariant cache == old(cache) - (expired - todo) && cacheTtl == old(cacheTtl) - (expired - todo)
        decreases todo
      {
        var key :| key in todo;
        cache := cache - {key};
        cacheTtl := cacheTtl - {key};
        todo := todo - {key};
      }
      assert expired - todo == expired;
    }
  }

  // -------------------------------------------------------------- on values

  datatype Table = Table(bodies: map<string, Response>, expiries: map<string, real>)

  const EMPTY_TABLE := Table(map[], map[])

  function Hit(t: Table, key: string, now: real): Option<Response> {
    if key in t.bodies && key in t.expiries && now < t.expiries[key] then Some(t.bodies[key]) else None
  }

  function AfterLookup(t: Table, key: string, now: real): Table {
    if key in t.bodies && key in t.expiries && now >= t.expiries[key]
    then Table(t.bodies - {key}, t.expiries - {key}) else t
  }

  function AfterStore(t: Table, key: string, r: Response, now: real, ttlSeconds: int): Table {
    Table(t.bodies[key := r], t.expiries[key := now + ttlSeconds as real])
  }

  function AfterCleanup(t: Table, now: real): Table {
    var expired := set k | k in t.expiries && now > t.expiries[k];
    Table(t.bodies - expired, t.expiries - expired)
  }

  datatype Event =
    | Lookup(key: string, at: real)
    | Store(key: string, response: Response, at: real, ttlSeconds: int)
    | CleanupPass(at: real)

  function Apply(t: Table, e: Event): Table {
    match e
    case Lookup(key, now) => AfterLookup(t, key, now)
    case Store(key, r, now, ttl) => AfterStore(t, key, r, now, ttl)
    case CleanupPass(now) => AfterCleanup(t, now)
  }

  function TableAfter(es: seq<Event>): Table {
    if es == [] then EMPTY_TABLE else Apply(TableAfter(es[..|es| - 1]), es[|es| - 1])
  }

  /** The specification: the last response stored under the key, if its time is not up. */
  function Specified(es: seq<Event>, key: string, now: real): Option<Response> {
    if es == [] then None else
    match es[|es| - 1]
    case Store(k, r, at, ttl) =>
      if k == key then (if now < at + ttl as real then Some(r) else None)
      else Specified(es[..|es| - 1], key, now)
    case _ => Specified(es[..|es| - 1], key, now)
  }

  /** Event `i` is the last that stores a response under the key. */
  ghost predicate IsLastStore(es: seq<Event>, i: nat, key: string) {
    && i < |es| && es[i].Store? && es[i].key == key
    && forall m :: i < m < |es| ==> !(es[m].Store? && es[m].key == key)
  }

  predicate Stores(es: seq<Event>, key: string) {
    exists e :: e in es && e.Store? && e.key == key
  }

  function Expiry(e: Event): real
    requires e.Store?
  {
    e.at + e.ttlSeconds as real
  }

  /** The event deletes an entry with the given key and expiry: a lookup at or past it, a cleanup pass past it. */
  predicate Deletes(e: Event, key: string, expiry: real) {
    match e
    case Lookup(k, at) => k == key && at >= expiry
    case Store(_, _, _, _) => false
    case CleanupPass(at) => at > expiry
  }

  /** After event `i` some event deletes what `i` stored. */
  ghost predicate DeletedSince(es: seq<Event>, i: nat)
    requires i < |es| && es[i].Store?
  {
    exists m :: i < m < |es| && Deletes(es[m], es[i].key, Expiry(es[i]))
  }

  lemma {:induction false} NeverStored(es: seq<Event>, key: string, now: real)
    requires !Stores(es, key)
    ensures key !in TableAfter(es).bodies && key !in TableAfter(es).expiries && Specified(es, key, now) == None
  {
    if es != [] {
      assert es[|es| - 1] in es;
      NeverStored(es[..|es| - 1], key, now);
    }
  }

  lemma {:induction false} LastStore(es: seq<Event>, key: string) returns (i: nat)
    requires Stores(es, key)
    ensures IsLastStore(es, i, key)
  {
    i := |es| - 1;
    if !(es[i].Store? && es[i].key == key) {
      i := LastStore(es[..|es| - 1], key);
    }
  }

  /** On any clock the tables hold the last stored response with its expiry, until an event deletes both. */
  lemma {:induction false} TableHoldsLastStore(es: seq<Event>, i: nat, key: string, now: real)
    requires IsLastStore(es, i, key)
    ensures Specified(es, key, now) == if now < Expiry(es[i]) then Some(es[i].response) else None
    ensures var t := TableAfter(es);
      if DeletedSince(es, i) then key !in t.bodies && key !in t.expiries
      else key in t.bodies && key in t.expiries && t.bodies[key] == es[i].response && t.expiries[key] == Expiry(es[i])
  {
    var front, last := es[..|es| - 1], es[|es| - 1];
    if i < |es| - 1 {
      TableHoldsLastStore(front, i, key, now);
      assert DeletedSince(es, i) <==> DeletedSince(front, i) || Deletes(last, key, Expiry(es[i]));
    }
  }

  /**
   Exactly when a lookup returns what the history of stores says, on any clock:
   unless the last response stored under the key is still valid at `now` and an
   event since, on a clock that ran ahead, took it for expired.
   */
  lemma LookupAgreesIff(es: seq<Event>, key: string, now: real)
    ensures Hit(TableAfter(es), key, now) == Specified(es, key, now) <==>
            !exists i: nat :: IsLastStore(es, i, key) && now < Expiry(es[i]) && DeletedSince(es, i)
  {
    if Stores(es, key) {
      var i := LastStore(es, key);
      TableHoldsLastStore(es, i, key, now);
      assert forall j: nat :: IsLastStore(es, j, key) ==> j == i;
    } else {
      NeverStored(es, key, now);
    }
  }

  /** The clock does not run back, and the events end by `now`. */
  ghost predicate MonotoneUntil(es: seq<Event>, now: real) {
    && (forall i, j :: 0 <= i < j < |es| ==> es[i].at <= es[j].at)
    && (forall i :: 0 <= i < |es| ==> es[i].at <= now)
  }

  /** Both tables always have the same keys, on any clock. */
  lemma {:induction false} TablesAgree(es: seq<Event>)
    ensures TableAfter(es).bodies.Keys == TableAfter(es).expiries.Keys
  {
    if es != [] {
      TablesAgree(es[..|es| - 1]);
    }
  }

  /**
   So on a monotone clock the response cache equals a timed map: a lookup
   returns what the history of stores says, and neither the lazy deletion nor
   the cleanup pass can be observed.
   */
  lemma CacheIsTimedMap(es: seq<Event>, key: string, now: real)
    requires MonotoneUntil(es, now)
    ensures TableAfter(es).bodies.Keys == TableAfter(es).expiries.Keys
    ensures Hit(TableAfter(es), key, now) == Specified(es, key, now)
  {
    TablesAgree(es);
    LookupAgreesIff(es, key, now);
  }

  /**
   In numbers: the last response stored under a key is served at every instant
   before its time is up, and at none from then on; a key never stored misses.
   */
  lemma ServedUntilExpiry(es: seq<Event>, key: string, now: real)
    requires MonotoneUntil(es, now)
    ensures forall i: nat :: IsLastStore(es, i, key) ==>
      Hit(TableAfter(es), key, now) ==
      if now < es[i].at + es[i].ttlSeconds as real then Some(es[i].response) else None
    ensures !Stores(es, key) ==> Hit(TableAfter(es), key, now) == None
  {
    CacheIsTimedMap(es, key, now);
    if Stores(es, key) {
      var i := LastStore(es, key);
      TableHoldsLastStore(es, i, key, now);
      assert forall j: nat :: IsLastStore(es, j, key) ==> j == i;
    } else {
      NeverStored(es, key, now);
    }
  }

  /** A response stored for a minute is served just before the minute is up and not at its end. */
  method OneMinute(response: Response) returns (before: Option<Response>, after: Option<Response>)
    ensures before == Some(response) && after == None
  {
    var cache := new Cache();
    cache.CacheResponse("page", response, 0.0, 60);
    before := cache.GetCachedResponse("page", 59.5);
    after := cache.GetCachedResponse("page", 60.0);
  }

  /** A cleanup pass at the very end of the minute keeps it in the tables, a later one does not. */
  method CleanupAtTheEnd(response: Response) returns (kept: bool, keptLater: bool)
    ensures kept && !keptLater
  {
    var cache := new Cache();
    cache.CacheResponse("page", response, 0.0, 60);
    cache.CleanExpired(60.0);
    kept := "page" in cache.cache;
    cache.CleanExpired(60.5);
    keptLater := "page" in cache.cache;
  }

  /** On a clock that runs back a lookup at expiry loses a response that was valid before. */
  lemma BackwardClockLosesResponses(r: Response)
    ensures var es := [Store("k", r, 0.0, 1), Lookup("k", 1.0)];
      Specified(es, "k", 0.5) == Some(r) && Hit(TableAfter(es), "k", 0.5) == None
  {
    var es := [Store("k", r, 0.0, 1), Lookup("k", 1.0)];
    assert Deletes(es[1], "k", Expiry(es[0]));
    TableHoldsLastStore(es, 0, "k", 0.5);
  }

  // ---------------------------------------------------------- running mean

  /** The mean after `count` successes, the latest of which took `time`. */
  function NextMean(mean: real, count: nat, time: real): real
    requires count > 0
  {
    (mean * (count - 1) as real + time) / count as real
  }

  class Metrics {
    var requestsSuccess: nat
    var responseTimeAvg: real

    constructor ()
      ensures requestsSuccess == 0 && responseTimeAvg == 0.0
    {
      requestsSuccess, responseTimeAvg := 0, 0.0;
    }

    method RecordSuccess(time: real)
      modifies this
      ensures requestsSuccess == old(requestsSuccess) + 1
      ensures responseTimeAvg == NextMean(old(responseTimeAvg), requestsSuccess, time)
    {
      requestsSuccess := requestsSuccess + 1;
      responseTimeAvg := NextMean(responseTimeAvg, requestsSuccess, time);
    }
  }

  function MeanOf(times: seq<real>): real {
    if times == [] then 0.0 else NextMean(MeanOf(times[..|times| - 1]), |times|, times[|times| - 1])
  }

  function Total(times: seq<real>): real {
    if times == [] then 0.0 else Total(times[..|times| - 1]) + times[|times| - 1]
  }

  /** The running mean is the mean of all response times. */
  lemma {:induction false} RunningMeanIsMean(times: seq<real>)
    ensures MeanOf(times) * |times| as real == Total(times)
  {
    if times != [] {
      var front, last := times[..|times| - 1], times[|times| - 1];
      RunningMeanIsMean(front);
      var n := |times| as real;
      assert (Total(front) + last) / n * n == Total(front) + last;
    }
  }
}
