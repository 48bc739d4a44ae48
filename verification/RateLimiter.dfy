/**
 The sliding-window rate limiter of resync/api/gateway.py (lines 430-474) and
 the part of its cleanup pass that ages the counters (lines 769-773).

 The limiter keeps, per key, a deque of admission times that it prunes from the
 front and that holds at most 1000 entries. The specification keeps the whole
 history and counts. Clock readings are inputs; a key is whatever the rule's
 key strategy yields.
 */
module RateLimiter {
  import opened Wrappers

  datatype Rule = Rule(limitValue: int, windowSeconds: int, burstLimit: Option<int>, excludePaths: set<string>)

  datatype Decision = Allowed | Denied(retryAfter: int)

  const MAX_DEQUE := 1000
  const CLEANUP_AGE := 3600.0

  function Window(rule: Rule): real {
    rule.windowSeconds as real
  }

  /** The smaller of the limit and a non-zero burst limit. */
  function EffectiveLimit(rule: Rule): int {
    match rule.burstLimit
    case Some(b) => if b != 0 && b < rule.limitValue then b else rule.limitValue
    case None => rule.limitValue
  }

  // ------------------------------------------------------ the deque, on values

  function Prune(q: seq<real>, now: real, window: real): seq<real> {
    if q != [] && now - q[0] > window then Prune(q[1..], now, window) else q
  }

  /** `append` on a deque with `maxlen`. */
  function Push(q: seq<real>, t: real): seq<real> {
    if |q| < MAX_DEQUE then q + [t] else q[1..] + [t]
  }

  function Decide(rule: Rule, count: nat): Decision {
    if count >= rule.limitValue then Denied(rule.windowSeconds)
    else match rule.burstLimit
      case Some(b) => if b != 0 && count >= b then Denied(rule.windowSeconds / 4) else Allowed
      case None => Allowed
  }

  lemma AllowedIffBelowLimit(rule: Rule, count: nat)
    ensures Decide(rule, count) == Allowed <==> count < EffectiveLimit(rule)
  {
  }

  function AfterRequest(rule: Rule, q: seq<real>, now: real): seq<real> {
    var p := Prune(q, now, Window(rule));
    if Decide(rule, |p|) == Allowed then Push(p, now) else p
  }

  /** The cleanup pass drops what is older than an hour. */
  function Aged(q: seq<real>, now: real): seq<real> {
    Prune(q, now, CLEANUP_AGE)
  }

  // -------------------------------------------------------------- in place

  function Queue(counts: map<string, seq<real>>, key: string): seq<real> {
    if key in counts then counts[key] else []
  }

  class Limiter {
    var requestCounts: map<string, seq<real>>

    constructor ()
      ensures requestCounts == map[]
    {
      requestCounts := map[];
    }

    method CheckRateLimits(rule: Rule, path: string, key: string, now: real) returns (d: Decision)
      modifies this
      ensures path in rule.excludePaths ==> d == Allowed && requestCounts == old(requestCounts)
      ensures path !in rule.excludePaths ==>
        var q := Queue(old(requestCounts), key);
        && d == Decide(rule, |Prune(q, now, Window(rule))|)
        && requestCounts == old(requestCounts)[key := AfterRequest(rule, q, now)]
    {
      if path in rule.excludePaths {
        return Allowed;
      }
      var q := Queue(requestCounts, key);
      while q != [] && now - q[0] > Window(rule)
        invariant Prune(q, now, Window(rule)) == Prune(Queue(requestCounts, key), now, Window(rule))
        decreases |q|
      {
        q := q[1..];
      }
      requestCounts := requestCounts[key := q];
      d := Decide(rule, |q|);
      if d == Allowed {
        requestCounts := requestCounts[key := Push(q, now)];
      }
    }

    method CleanOldCounts(now: real)
      modifies this
      ensures requestCounts.Keys == old(requestCounts).Keys
      ensures forall k :: k in requestCounts ==> requestCounts[k] == Aged(old(requestCounts)[k], now)
    {
      var todo := requestCounts.Keys;
      while todo != {}
        invariant todo <= requestCounts.Keys == old(requestCounts).Keys
        invariant forall k :: k in requestCounts ==>
          requestCounts[k] == if k in todo then old(requestCounts)[k] else Aged(old(requestCounts)[k], now)
        decreases todo
      {
        var key :| key in todo;
        var q := requestCounts[key];
        while q != [] && q[0] < now - CLEANUP_AGE
          invariant Aged(q, now) == Aged(requestCounts[key], now)
          decreases |q|
        {
          q := q[1..];
        }
        requestCounts := requestCounts[key := q];
        todo := todo - {key};
      }
    }
  }

  // ---------------------------------------------------- runs over one key

  datatype Event = Request(at: real) | CleanupPass(at: real)

  /** The deque after a list of events. */
  ghost function Deque(rule: Rule, es: seq<Event>): seq<real> {
    if es == [] then [] else
    var q := Deque(rule, es[..|es| - 1]);
    match es[|es| - 1]
    case Request(t) => AfterRequest(rule, q, t)
    case CleanupPass(t) => Aged(q, t)
  }

  /** The decision on a request that comes after a list of events. */
  ghost function DecisionAfter(rule: Rule, es: seq<Event>, now: real): Decision {
    Decide(rule, |Prune(Deque(rule, es), now, Window(rule))|)
  }

  /** The admission times after a list of events: the whole history, nothing pruned. */
  ghost function Admitted(rule: Rule, es: seq<Event>): seq<real> {
    if es == [] then [] else
    var front, last := es[..|es| - 1], es[|es| - 1];
    if last.Request? && DecisionAfter(rule, front, last.at) == Allowed then Admitted(rule, front) + [last.at]
    else Admitted(rule, front)
  }

  /** How many of the times lie in the last `window` seconds before `now`. */
  ghost function Recent(h: seq<real>, now: real, window: real): nat {
    if h == [] then 0 else
    Recent(h[..|h| - 1], now, window) + if now - h[|h| - 1] <= window then 1 else 0
  }

  ghost predicate Sorted(h: seq<real>) {
    forall i, j :: 0 <= i < j < |h| ==> h[i] <= h[j]
  }

  /** The clock does not run back. */
  ghost predicate Monotone(es: seq<Event>) {
    forall i, j :: 0 <= i < j < |es| ==> es[i].at <= es[j].at
  }

  ghost predicate AllRequests(es: seq<Event>) {
    forall e :: e in es ==> e.Request?
  }

  /** Cleanup passes are harmless: there are none, or the window is at most an hour. */
  ghost predicate CleanupSafe(rule: Rule, es: seq<Event>) {
    rule.windowSeconds <= 3600 || AllRequests(es)
  }

  /** `q` is what is left of the history `h` after dropping only times out of every later window. */
  ghost predicate Tracks(q: seq<real>, h: seq<real>, now: real, window: real) {
    && |q| <= |h| && q == h[|h| - |q|..]
    && Sorted(h)
    && (forall i :: 0 <= i < |h| ==> h[i] <= now)
    && (forall i :: 0 <= i < |h| - |q| ==> now - h[i] > window)
  }

  lemma {:induction false} RecentOfSplit(h: seq<real>, stale: nat, now: real, window: real)
    requires stale <= |h|
    requires forall i :: 0 <= i < stale ==> now - h[i] > window
    requires forall i :: stale <= i < |h| ==> now - h[i] <= window
    ensures Recent(h, now, window) == |h| - stale
  {
    if h != [] {
      RecentOfSplit(h[..|h| - 1], if stale < |h| then stale else |h| - 1, now, window);
    }
  }

  /** Pruning at a later time keeps the relation, and leaves exactly the recent times. */
  lemma {:induction false} PruneTracks(q: seq<real>, h: seq<real>, before: real, now: real, window: real, age: real)
    requires Tracks(q, h, before, window) && before <= now && age >= window
    ensures Tracks(Prune(q, now, age), h, now, window)
    ensures age == window ==> |Prune(q, now, age)| == Recent(h, now, window)
    decreases |q|
  {
    if q != [] && now - q[0] > age {
      assert q[0] == h[|h| - |q|];
      PruneOneTracks(q, h, before, now, window);
      PruneTracks(q[1..], h, now, now, window, age);
    } else {
      forall i | 0 <= i < |h| - |q| ensures now - h[i] > window {
        assert before - h[i] > window;
      }
      if age == window {
        forall i | |h| - |q| <= i < |h| ensures now - h[i] <= window {
          assert h[|h| - |q|] == q[0];
        }
        RecentOfSplit(h, |h| - |q|, now, window);
      }
    }
  }

  lemma PruneOneTracks(q: seq<real>, h: seq<real>, before: real, now: real, window: real)
    requires Tracks(q, h, before, window) && before <= now && q != [] && now - q[0] > window
    ensures Tracks(q[1..], h, now, window)
  {
    assert q[0] == h[|h| - |q|];
  }

  lemma AppendTracks(q: seq<real>, h: seq<real>, now: real, window: real)
    requires Tracks(q, h, now, window)
    ensures Tracks(q + [now], h + [now], now, window)
  {
  }

  /** An admitted or denied request keeps the relation, if no admission can overflow the deque. */
  lemma RequestTracks(rule: Rule, q: seq<real>, h: seq<real>, before: real, now: real)
    requires Tracks(q, h, before, Window(rule)) && before <= now && EffectiveLimit(rule) <= MAX_DEQUE
    ensures Decide(rule, |Prune(q, now, Window(rule))|) == Decide(rule, Recent(h, now, Window(rule)))
    ensures Tracks(AfterRequest(rule, q, now),
                   if Decide(rule, |Prune(q, now, Window(rule))|) == Allowed then h + [now] else h, now, Window(rule))
  {
    var p := Prune(q, now, Window(rule));
    PruneTracks(q, h, before, now, Window(rule), Window(rule));
    AllowedIffBelowLimit(rule, |p|);
    if Decide(rule, |p|) == Allowed {
      AppendTracks(p, h, now, Window(rule));
    }
  }

  /**
   The pruned deque refines the full history: after any events on a monotone
   clock, if the effective limit fits the deque and cleanup is safe, the deque
   tracks the history of all admissions.
   */
  lemma {:induction false} DequeTracksHistory(rule: Rule, es: seq<Event>, now: real)
    requires Monotone(es) && CleanupSafe(rule, es) && EffectiveLimit(rule) <= MAX_DEQUE
    requires es != [] ==> es[|es| - 1].at <= now
    ensures Tracks(Deque(rule, es), Admitted(rule, es), now, Window(rule))
    decreases |es|
  {
    if es != [] {
      var front, last := es[..|es| - 1], es[|es| - 1];
      DequeTracksHistory(rule, front, last.at);
      var q, h := Deque(rule, front), Admitted(rule, front);
      if last.Request? {
        RequestTracks(rule, q, h, last.at, last.at);
      } else {
        assert last in es;
        PruneTracks(q, h, last.at, last.at, Window(rule), CLEANUP_AGE);
      }
      NothingPruned(Deque(rule, es), Admitted(rule, es), last.at, now, Window(rule));
    }
  }

  /** So every decision is the one that counting all past admissions in the window would give. */
  lemma DecisionsCountWholeHistory(rule: Rule, es: seq<Event>, now: real)
    requires Monotone(es) && CleanupSafe(rule, es) && EffectiveLimit(rule) <= MAX_DEQUE
    requires es != [] ==> es[|es| - 1].at <= now
    ensures DecisionAfter(rule, es, now) == Decide(rule, Recent(Admitted(rule, es), now, Window(rule)))
    ensures DecisionAfter(rule, es, now) == Allowed <==>
            Recent(Admitted(rule, es), now, Window(rule)) < EffectiveLimit(rule)
  {
    DequeTracksHistory(rule, es, now);
    RequestTracks(rule, Deque(rule, es), Admitted(rule, es), now, now);
    AllowedIffBelowLimit(rule, Recent(Admitted(rule, es), now, Window(rule)));
  }

  lemma NothingPruned(q: seq<real>, h: seq<real>, before: real, now: real, window: real)
    requires Tracks(q, h, before, window) && before <= now
    ensures Tracks(q, h, now, window)
  {
  }

  /** The events without the cleanup passes. */
  ghost function Requests(es: seq<Event>): seq<Event> {
    if es == [] then [] else
    var front, last := es[..|es| - 1], es[|es| - 1];
    if last.Request? then Requests(front) + [last] else Requests(front)
  }

  lemma {:induction false} RequestsAreMonotone(es: seq<Event>)
    requires Monotone(es)
    ensures Monotone(Requests(es)) && forall e :: e in Requests(es) ==> e.Request? && e in es
  {
    if es != [] {
      RequestsAreMonotone(es[..|es| - 1]);
    }
  }

  lemma RequestsEndBy(es: seq<Event>, now: real)
    requires Monotone(es) && (es != [] ==> es[|es| - 1].at <= now)
    ensures Monotone(Requests(es)) && (Requests(es) != [] ==> Requests(es)[|Requests(es)| - 1].at <= now)
    ensures AllRequests(Requests(es))
  {
    RequestsAreMonotone(es);
    var rs := Requests(es);
    if rs != [] {
      assert rs[|rs| - 1] in es;
      var i :| 0 <= i < |es| && es[i] == rs[|rs| - 1];
    }
  }

  lemma CleanupSafeBefore(rule: Rule, es: seq<Event>)
    requires CleanupSafe(rule, es) && es != []
    ensures CleanupSafe(rule, es[..|es| - 1])
  {
    assert forall e :: e in es[..|es| - 1] ==> e in es;
  }

  lemma {:induction false} CleanupKeepsAdmissions(rule: Rule, es: seq<Event>)
    requires Monotone(es) && CleanupSafe(rule, es) && EffectiveLimit(rule) <= MAX_DEQUE
    ensures Admitted(rule, es) == Admitted(rule, Requests(es))
  {
    if es != [] {
      var front, last := es[..|es| - 1], es[|es| - 1];
      CleanupSafeBefore(rule, es);
      CleanupKeepsAdmissions(rule, front);
      if last.Request? {
        RequestsEndBy(front, last.at);
        DecisionsCountWholeHistory(rule, front, last.at);
        DecisionsCountWholeHistory(rule, Requests(front), last.at);
        AdmittedStep(rule, Requests(front), last);
      }
    }
  }

  /** Cleanup passes change no decision: leaving them all out decides the same. */
  lemma CleanupIsInvisible(rule: Rule, es: seq<Event>, now: real)
    requires Monotone(es) && CleanupSafe(rule, es) && EffectiveLimit(rule) <= MAX_DEQUE
    requires es != [] ==> es[|es| - 1].at <= now
    ensures DecisionAfter(rule, es, now) == Allowed <==> DecisionAfter(rule, Requests(es), now) == Allowed
  {
    CleanupKeepsAdmissions(rule, es);
    RequestsEndBy(es, now);
    SameAdmissionsSameDecision(rule, es, Requests(es), now);
  }

  lemma SameAdmissionsSameDecision(rule: Rule, es: seq<Event>, rs: seq<Event>, now: real)
    requires Monotone(es) && CleanupSafe(rule, es) && EffectiveLimit(rule) <= MAX_DEQUE
    requires Monotone(rs) && CleanupSafe(rule, rs) && Admitted(rule, es) == Admitted(rule, rs)
    requires es != [] ==> es[|es| - 1].at <= now
    requires rs != [] ==> rs[|rs| - 1].at <= now
    ensures DecisionAfter(rule, es, now) == DecisionAfter(rule, rs, now)
  {
    DecisionsCountWholeHistory(rule, es, now);
    DecisionsCountWholeHistory(rule, rs, now);
  }

  // --------------------------------------------------------- what is answered

  /** The effective limit in words: a count is below it if it is below the limit and below a burst limit. */
  lemma EffectiveLimitMeans(rule: Rule, count: int)
    ensures count < EffectiveLimit(rule) <==>
      count < rule.limitValue && (rule.burstLimit.Some? && rule.burstLimit.value != 0 ==> count < rule.burstLimit.value)
  {
  }

  /** The admissions not more than `window` seconds before `now`. */
  function InWindow(h: seq<real>, now: real, window: real): set<nat> {
    set i: nat | 0 <= i < |h| && now - h[i] <= window
  }

  lemma {:induction false} RecentIsCount(h: seq<real>, now: real, window: real)
    ensures Recent(h, now, window) == |InWindow(h, now, window)|
  {
    var n := |h| - 1;
    if h == [] {
      assert InWindow(h, now, window) == {};
    } else {
      RecentIsCount(h[..n], now, window);
      InWindowStep(h, now, window);
      assert n !in InWindow(h[..n], now, window);
    }
  }

  lemma InWindowStep(h: seq<real>, now: real, window: real)
    requires h != []
    ensures var n := |h| - 1;
      InWindow(h, now, window) ==
      InWindow(h[..n], now, window) + if now - h[n] <= window then {n} else {}
  {
  }

  /**
   The answers in full, by the admissions of the whole history that lie in the
   window: at the limit a denial for one window, below it but at a burst limit
   a denial for a quarter of the window, else an admission.
   */
  lemma AnswersByHistory(rule: Rule, es: seq<Event>, now: real)
    requires Monotone(es) && CleanupSafe(rule, es) && EffectiveLimit(rule) <= 1000
    requires es != [] ==> es[|es| - 1].at <= now
    ensures var n, d := |InWindow(Admitted(rule, es), now, rule.windowSeconds as real)|, DecisionAfter(rule, es, now);
      var atBurst := rule.burstLimit.Some? && rule.burstLimit.value != 0 && n >= rule.burstLimit.value;
      && (n >= rule.limitValue ==> d == Denied(rule.windowSeconds))
      && (n < rule.limitValue && atBurst ==> d == Denied(rule.windowSeconds / 4))
      && (n < rule.limitValue && !atBurst ==> d == Allowed)
  {
    DecisionsCountWholeHistory(rule, es, now);
    RecentIsCount(Admitted(rule, es), now, Window(rule));
  }

  // ------------------------------------------------------------ the rate bound

  /** Any two admissions that lie within one window have fewer than `limit` admissions between them. */
  ghost predicate Spaced(h: seq<real>, limit: int, window: real) {
    forall i, j :: 0 <= i <= j < |h| && h[j] - h[i] <= window ==> j - i < limit
  }

  /** On a sorted history, a count below the limit means the limit-th latest admission is out of the window. */
  lemma RecentBelowLimitIff(h: seq<real>, now: real, window: real, limit: int)
    requires Sorted(h) && limit > 0
    ensures Recent(h, now, window) < limit <==> |h| < limit || now - h[|h| - limit] > window
  {
    var k := FirstRecent(h, now, window);
    RecentOfSplit(h, k, now, window);
  }

  lemma {:induction false} FirstRecent(h: seq<real>, now: real, window: real) returns (k: nat)
    requires Sorted(h)
    ensures k <= |h| && forall i :: 0 <= i < k ==> now - h[i] > window
    ensures forall i :: k <= i < |h| ==> now - h[i] <= window
  {
    k := |h|;
    while k > 0 && now - h[k - 1] <= window
      invariant 0 <= k <= |h| && forall i :: k <= i < |h| ==> now - h[i] <= window
    {
      k := k - 1;
    }
  }

  lemma AdmittedIsSorted(rule: Rule, es: seq<Event>)
    requires Monotone(es) && CleanupSafe(rule, es) && EffectiveLimit(rule) <= MAX_DEQUE
    ensures Sorted(Admitted(rule, es))
  {
    DequeTracksHistory(rule, es, if es == [] then 0.0 else es[|es| - 1].at);
  }

  /** The limit-th latest admission, if there is one, is more than a window ago. */
  predicate HasRoom(rule: Rule, h: seq<real>, now: real) {
    var limit := EffectiveLimit(rule);
    limit > 0 && (|h| < limit || now - h[|h| - limit] > Window(rule))
  }

  lemma DecideOnHistory(rule: Rule, h: seq<real>, now: real)
    requires Sorted(h)
    ensures Decide(rule, Recent(h, now, Window(rule))) == Allowed <==> HasRoom(rule, h, now)
  {
    AllowedIffBelowLimit(rule, Recent(h, now, Window(rule)));
    if EffectiveLimit(rule) > 0 {
      RecentBelowLimitIff(h, now, Window(rule), EffectiveLimit(rule));
    }
  }

  /**
   When a request is admitted, in full: the rule has a positive effective limit
   L, and there are fewer than L admissions so far or the L-th latest of them
   is more than a window ago.
   */
  lemma AdmittedIff(rule: Rule, es: seq<Event>, now: real)
    requires Monotone(es) && CleanupSafe(rule, es) && EffectiveLimit(rule) <= MAX_DEQUE
    requires es != [] ==> es[|es| - 1].at <= now
    ensures DecisionAfter(rule, es, now) == Allowed <==> HasRoom(rule, Admitted(rule, es), now)
  {
    DecisionsCountWholeHistory(rule, es, now);
    AdmittedIsSorted(rule, es);
    DecideOnHistory(rule, Admitted(rule, es), now);
  }

  /** A key with a positive limit is admitted again once a window has passed without admissions. */
  lemma AdmittedAfterWindow(rule: Rule, es: seq<Event>, denied: real, now: real)
    requires Monotone(es) && CleanupSafe(rule, es) && 0 < EffectiveLimit(rule) <= MAX_DEQUE
    requires es != [] ==> es[|es| - 1].at <= now
    requires forall i :: 0 <= i < |Admitted(rule, es)| ==> Admitted(rule, es)[i] <= denied
    requires now > denied + Window(rule)
    ensures DecisionAfter(rule, es, now) == Allowed
  {
    AdmittedIff(rule, es, now);
  }

  /**
   The time reported with a denial at the limit suffices: without admissions in
   between, every request later than that is admitted, unless the rule admits none.
   */
  lemma LimitRetrySuffices(rule: Rule, es: seq<Event>, denied: real, now: real)
    requires Monotone(es) && CleanupSafe(rule, es) && 0 < EffectiveLimit(rule) <= 1000
    requires es != [] ==> es[|es| - 1].at <= denied
    requires |InWindow(Admitted(rule, es), denied, rule.windowSeconds as real)| >= rule.limitValue
    requires rule.windowSeconds >= 0
    ensures DecisionAfter(rule, es, denied) == Denied(rule.windowSeconds)
    ensures now > denied + rule.windowSeconds as real ==> DecisionAfter(rule, es, now) == Allowed
  {
    AnswersByHistory(rule, es, denied);
    DequeTracksHistory(rule, es, denied);
    if now > denied + rule.windowSeconds as real {
      AdmittedAfterWindow(rule, es, denied, now);
    }
  }

  /** All requests later than `from` are admitted, if there are no admissions before them. */
  ghost predicate AdmittedFrom(rule: Rule, es: seq<Event>, from: real) {
    forall now :: now > from ==> DecisionAfter(rule, es, now) == Allowed
  }

  /**
   The time reported with a denial at a burst limit of b need not suffice. It
   does exactly when the b-th latest admission is a whole window old by then.
   */
  lemma BurstRetrySufficesIff(rule: Rule, es: seq<Event>, denied: real)
    requires Monotone(es) && CleanupSafe(rule, es) && rule.windowSeconds >= 0
    requires es != [] ==> es[|es| - 1].at <= denied
    requires rule.burstLimit.Some? && 0 < rule.burstLimit.value < rule.limitValue && rule.burstLimit.value <= 1000
    requires DecisionAfter(rule, es, denied) != Allowed
    ensures var h, b, retry := Admitted(rule, es), rule.burstLimit.value, denied + (rule.windowSeconds / 4) as real;
      && |h| >= b
      && (AdmittedFrom(rule, es, retry) <==> retry - h[|h| - b] >= rule.windowSeconds as real)
  {
    var h, b, retry := Admitted(rule, es), rule.burstLimit.value, denied + (rule.windowSeconds / 4) as real;
    AdmittedIff(rule, es, denied);
    DequeTracksHistory(rule, es, denied);
    var end := h[|h| - b] + Window(rule);
    if retry - h[|h| - b] >= Window(rule) {
      forall now | now > retry ensures DecisionAfter(rule, es, now) == Allowed {
        AdmittedIff(rule, es, now);
      }
    } else {
      AdmittedIff(rule, es, end);
      assert end > retry && DecisionAfter(rule, es, end) != Allowed;
    }
  }

  /** The rate bound: admissions are spaced, over the whole of every run. */
  lemma {:induction false} AdmissionsAreSpaced(rule: Rule, es: seq<Event>)
    requires Monotone(es) && CleanupSafe(rule, es) && EffectiveLimit(rule) <= MAX_DEQUE
    ensures Sorted(Admitted(rule, es)) && Spaced(Admitted(rule, es), EffectiveLimit(rule), Window(rule))
    decreases |es|
  {
    if es != [] {
      var front, last := es[..|es| - 1], es[|es| - 1];
      CleanupSafeBefore(rule, es);
      AdmissionsAreSpaced(rule, front);
      if last.Request? {
        AdmittedIff(rule, front, last.at);
      }
      DequeTracksHistory(rule, es, last.at);
    }
  }

  ghost function CountIn(h: seq<real>, from: real, to: real): nat {
    if h == [] then 0 else
    CountIn(h[..|h| - 1], from, to) + if from <= h[|h| - 1] <= to then 1 else 0
  }

  lemma {:induction false} CountInAtMost(h: seq<real>, from: real, to: real, k: nat)
    requires k <= |h| && forall i :: 0 <= i < k ==> h[i] < from
    ensures CountIn(h, from, to) <= |h| - k
  {
    if h != [] {
      CountInAtMost(h[..|h| - 1], from, to, if k < |h| then k else |h| - 1);
    }
  }

  /** Spaced admissions keep every closed window at or below the limit. */
  lemma {:induction false} SpacedMeansBounded(h: seq<real>, from: real, window: real, limit: int)
    requires Sorted(h) && Spaced(h, limit, window) && limit >= 0
    ensures CountIn(h, from, from + window) <= limit
    decreases |h|
  {
    if h != [] {
      var last := h[|h| - 1];
      if from <= last <= from + window {
        var k := 0;
        while h[k] < from
          invariant k < |h| && forall i :: 0 <= i < k ==> h[i] < from
          decreases |h| - k
        {
          k := k + 1;
        }
        CountInAtMost(h, from, from + window, k);
      } else {
        SpacedMeansBounded(h[..|h| - 1], from, window, limit);
      }
    }
  }

  ghost predicate Bounded(rule: Rule, es: seq<Event>, from: real) {
    var limit := if EffectiveLimit(rule) > 0 then EffectiveLimit(rule) else 0;
    CountIn(Admitted(rule, es), from, from + Window(rule)) <= limit
  }

  lemma RateIsBounded(rule: Rule, es: seq<Event>, from: real)
    requires Monotone(es) && CleanupSafe(rule, es) && EffectiveLimit(rule) <= MAX_DEQUE
    ensures Bounded(rule, es, from)
  {
    AdmissionsAreSpaced(rule, es);
    var h := Admitted(rule, es);
    if EffectiveLimit(rule) >= 0 {
      SpacedMeansBounded(h, from, Window(rule), EffectiveLimit(rule));
    } else {
      NoneAdmitted(rule, es);
    }
  }

  lemma {:induction false} NoneAdmitted(rule: Rule, es: seq<Event>)
    requires EffectiveLimit(rule) <= 0
    ensures Admitted(rule, es) == []
  {
    if es != [] {
      NoneAdmitted(rule, es[..|es| - 1]);
      AllowedIffBelowLimit(rule, |Prune(Deque(rule, es[..|es| - 1]), es[|es| - 1].at, Window(rule))|);
    }
  }

  // ------------------------------------------------- where the limits stop

  lemma {:induction false} PruneShrinks(q: seq<real>, now: real, window: real)
    ensures |Prune(q, now, window)| <= |q|
  {
    if q != [] && now - q[0] > window {
      PruneShrinks(q[1..], now, window);
    }
  }

  lemma {:induction false} DequeIsCapped(rule: Rule, es: seq<Event>)
    ensures |Deque(rule, es)| <= MAX_DEQUE
  {
    if es != [] {
      DequeIsCapped(rule, es[..|es| - 1]);
      PruneShrinks(Deque(rule, es[..|es| - 1]), es[|es| - 1].at, Window(rule));
      PruneShrinks(Deque(rule, es[..|es| - 1]), es[|es| - 1].at, CLEANUP_AGE);
    }
  }

  /** An effective limit above the deque's capacity is never reached: every request is admitted. */
  lemma AboveCapNothingIsDenied(rule: Rule, es: seq<Event>, now: real)
    requires EffectiveLimit(rule) > MAX_DEQUE
    ensures DecisionAfter(rule, es, now) == Allowed
  {
    DequeIsCapped(rule, es);
    PruneShrinks(Deque(rule, es), now, Window(rule));
    AllowedIffBelowLimit(rule, |Prune(Deque(rule, es), now, Window(rule))|);
  }

  /** `n` requests at instant 0. */
  function Burst(n: nat): seq<Event> {
    seq(n, _ => Request(0.0))
  }

  lemma {:induction false} BurstAboveCap(rule: Rule, n: nat)
    requires EffectiveLimit(rule) > MAX_DEQUE && rule.windowSeconds >= 0
    ensures CountIn(Admitted(rule, Burst(n)), 0.0, Window(rule)) == n
  {
    if n > 0 {
      var es := Burst(n);
      assert es[..n - 1] == Burst(n - 1);
      BurstAboveCap(rule, n - 1);
      AboveCapNothingIsDenied(rule, Burst(n - 1), 0.0);
      var h := Admitted(rule, Burst(n - 1));
      assert (h + [0.0])[..|h|] == h;
    }
  }

  /**
   Exactly when a rule is enforced: for a window that is not negative, the rate
   bound holds over all runs of requests if and only if the effective limit is
   at most the 1000 entries that the deque can hold.
   */
  lemma EnforcedIffWithinCap(rule: Rule)
    requires rule.windowSeconds >= 0
    ensures (forall es, from :: Monotone(es) && AllRequests(es) ==> Bounded(rule, es, from))
            <==> EffectiveLimit(rule) <= 1000
  {
    if EffectiveLimit(rule) <= MAX_DEQUE {
      forall es, from | Monotone(es) && AllRequests(es) ensures Bounded(rule, es, from) {
        RateIsBounded(rule, es, from);
      }
    } else {
      var es := Burst(EffectiveLimit(rule) + 1);
      BurstAboveCap(rule, EffectiveLimit(rule) + 1);
      assert Monotone(es) && AllRequests(es);
      assert !Bounded(rule, es, 0.0);
    }
  }

  lemma {:induction false} BurstWithinLimit(rule: Rule, n: nat)
    requires n <= EffectiveLimit(rule) <= MAX_DEQUE && rule.windowSeconds >= 0
    ensures |Admitted(rule, Burst(n))| == n && |Deque(rule, Burst(n))| == n
    ensures forall i :: 0 <= i < n ==> Admitted(rule, Burst(n))[i] == Deque(rule, Burst(n))[i] == 0.0
  {
    if n > 0 {
      var es := Burst(n);
      assert es[..n - 1] == Burst(n - 1);
      BurstWithinLimit(rule, n - 1);
      AllowedIffBelowLimit(rule, n - 1);
    }
  }

  lemma {:induction false} PruneAll(q: seq<real>, now: real, window: real)
    requires forall i :: 0 <= i < |q| ==> now - q[i] > window
    ensures Prune(q, now, window) == []
  {
    if q != [] {
      PruneAll(q[1..], now, window);
    }
  }

  /**
   With a window above an hour a cleanup pass does change a decision: after a
   full burst and a pass at the very end of the window, one more request is
   admitted although the history says that the limit is reached.
   */
  lemma CleanupForgetsLongWindows(rule: Rule)
    requires rule.windowSeconds > 3600 && 0 < EffectiveLimit(rule) <= MAX_DEQUE
    ensures var es, now := Burst(EffectiveLimit(rule)) + [CleanupPass(Window(rule))], Window(rule);
      && Monotone(es)
      && DecisionAfter(rule, es, now) == Allowed
      && Recent(Admitted(rule, es), now, Window(rule)) >= EffectiveLimit(rule)
  {
    var limit, now := EffectiveLimit(rule), Window(rule);
    var burst := Burst(limit);
    var es := burst + [CleanupPass(now)];
    assert es[..|es| - 1] == burst;
    BurstWithinLimit(rule, limit);
    PruneAll(Deque(rule, burst), now, CLEANUP_AGE);
    AllowedIffBelowLimit(rule, 0);
    RecentOfSplit(Admitted(rule, burst), 0, now, Window(rule));
  }

  /** Cleanup passes change no decision in any run. */
  ghost predicate CleanupNeverShows(rule: Rule) {
    forall es: seq<Event>, now: real {:trigger DecisionAfter(rule, es, now)} ::
      Monotone(es) && (es != [] ==> es[|es| - 1].at <= now) ==>
        (DecisionAfter(rule, es, now) == Allowed <==> DecisionAfter(rule, Requests(es), now) == Allowed)
  }

  /**
   Exactly when cleanup is invisible: the window is at most an hour, or the
   limit is one that admits nothing, or one that the deque never reaches.
   */
  lemma CleanupNeverShowsIff(rule: Rule)
    ensures CleanupNeverShows(rule) <==>
            rule.windowSeconds <= 3600 || EffectiveLimit(rule) <= 0 || EffectiveLimit(rule) > 1000
  {
    var limit := EffectiveLimit(rule);
    if rule.windowSeconds <= 3600 || limit <= 0 || limit > MAX_DEQUE {
      forall es: seq<Event>, now: real | Monotone(es) && (es != [] ==> es[|es| - 1].at <= now)
        ensures DecisionAfter(rule, es, now) == Allowed <==> DecisionAfter(rule, Requests(es), now) == Allowed
      {
        CleanupIsInvisibleFor(rule, es, now);
      }
    } else {
      CleanupForgetsLongWindows(rule);
      var es, now := Burst(limit) + [CleanupPass(Window(rule))], Window(rule);
      RequestsOfBurst(limit, CleanupPass(now));
      RequestsAreMonotone(es);
      DecisionsCountWholeHistory(rule, Burst(limit), now);
      assert es[..|es| - 1] == Burst(limit);
    }
  }

  lemma CleanupIsInvisibleFor(rule: Rule, es: seq<Event>, now: real)
    requires Monotone(es) && (es != [] ==> es[|es| - 1].at <= now)
    requires rule.windowSeconds <= 3600 || EffectiveLimit(rule) <= 0 || EffectiveLimit(rule) > MAX_DEQUE
    ensures DecisionAfter(rule, es, now) == Allowed <==> DecisionAfter(rule, Requests(es), now) == Allowed
  {
    if EffectiveLimit(rule) > MAX_DEQUE {
      AboveCapNothingIsDenied(rule, es, now);
      AboveCapNothingIsDenied(rule, Requests(es), now);
    } else if rule.windowSeconds <= 3600 {
      CleanupIsInvisible(rule, es, now);
    } else {
      AllowedIffBelowLimit(rule, |Prune(Deque(rule, es), now, Window(rule))|);
      AllowedIffBelowLimit(rule, |Prune(Deque(rule, Requests(es)), now, Window(rule))|);
    }
  }

  lemma {:induction false} RequestsOfRequests(es: seq<Event>)
    requires AllRequests(es)
    ensures Requests(es) == es
  {
    if es != [] {
      assert es[|es| - 1] in es;
      RequestsOfRequests(es[..|es| - 1]);
    }
  }

  lemma RequestsOfBurst(n: nat, pass: Event)
    requires pass.CleanupPass?
    ensures Requests(Burst(n) + [pass]) == Burst(n)
  {
    assert (Burst(n) + [pass])[..n] == Burst(n);
    RequestsOfRequests(Burst(n));
  }

  // ---------------------------------------------- when the bound holds at all

  lemma {:induction false} AllCounted(h: seq<real>, from: real, to: real)
    requires forall i :: 0 <= i < |h| ==> from <= h[i] <= to
    ensures CountIn(h, from, to) == |h|
  {
    if h != [] {
      AllCounted(h[..|h| - 1], from, to);
    }
  }

  lemma {:induction false} NoneCounted(h: seq<real>, from: real, to: real)
    requires to < from
    ensures CountIn(h, from, to) == 0
  {
    if h != [] {
      NoneCounted(h[..|h| - 1], from, to);
    }
  }

  /** A full burst, a cleanup pass at the end of a long window, and one request more: all admitted within one window. */
  lemma LongWindowOverflows(rule: Rule) returns (es: seq<Event>)
    requires rule.windowSeconds > 3600 && 0 < EffectiveLimit(rule) <= MAX_DEQUE
    ensures Monotone(es) && !Bounded(rule, es, 0.0)
  {
    var limit, now := EffectiveLimit(rule), Window(rule);
    var front := Burst(limit) + [CleanupPass(now)];
    es := front + [Request(now)];
    CleanupForgetsLongWindows(rule);
    MonotoneExtends(front, Request(now));
    AdmittedStep(rule, front, Request(now));
    AdmittedStep(rule, Burst(limit), CleanupPass(now));
    BurstWithinLimit(rule, limit);
    AllCounted(Admitted(rule, es), 0.0, now);
  }

  lemma MonotoneExtends(es: seq<Event>, e: Event)
    requires Monotone(es) && (es != [] ==> es[|es| - 1].at <= e.at)
    ensures Monotone(es + [e])
  {
  }

  lemma AdmittedStep(rule: Rule, es: seq<Event>, e: Event)
    ensures Admitted(rule, es + [e]) ==
            if e.Request? && DecisionAfter(rule, es, e.at) == Allowed then Admitted(rule, es) + [e.at]
            else Admitted(rule, es)
  {
    assert (es + [e])[..|es|] == es;
  }

  /**
   Exactly when a rule is enforced, over all runs of requests and cleanup
   passes: the effective limit fits the deque, and cleanup is harmless because
   the window is at most an hour or nothing is admitted anyway. (A negative
   window makes every interval empty.)
   */
  lemma EnforcedIff(rule: Rule)
    ensures (forall es, from :: Monotone(es) ==> Bounded(rule, es, from)) <==>
      || rule.windowSeconds < 0
      || (EffectiveLimit(rule) <= 1000 && (rule.windowSeconds <= 3600 || EffectiveLimit(rule) <= 0))
  {
    if rule.windowSeconds < 0 {
      forall es, from | Monotone(es) ensures Bounded(rule, es, from) {
        NoneCounted(Admitted(rule, es), from, from + Window(rule));
      }
    } else if EffectiveLimit(rule) > MAX_DEQUE {
      EnforcedIffWithinCap(rule);
    } else if rule.windowSeconds <= 3600 {
      forall es, from | Monotone(es) ensures Bounded(rule, es, from) {
        RateIsBounded(rule, es, from);
      }
    } else if EffectiveLimit(rule) <= 0 {
      forall es, from | Monotone(es) ensures Bounded(rule, es, from) {
        NoneAdmitted(rule, es);
      }
    } else {
      var es := LongWindowOverflows(rule);
      assert !Bounded(rule, es, 0.0);
    }
  }

  // --------------------------------------------------------- concrete calls

  /** Two requests of one client within a second, and a third one after a minute. */
  method ThreeRequests(rule: Rule) returns (first: Decision, second: Decision, third: Decision)
    requires rule.windowSeconds == 60 && rule.excludePaths == {"/health"}
    requires rule.limitValue == 1 || (rule.limitValue == 10 && rule.burstLimit == Some(1))
    requires rule.limitValue == 1 ==> rule.burstLimit in {None, Some(150)}
    ensures first == third == Allowed
    ensures second == Denied(if rule.limitValue == 1 then 60 else 15)
  {
    var limiter := new Limiter();
    var excluded := limiter.CheckRateLimits(rule, "/health", "client", 0.0);
    assert excluded == Allowed;
    first := limiter.CheckRateLimits(rule, "/", "client", 0.0);
    assert Queue(limiter.requestCounts, "client") == [0.0];
    second := limiter.CheckRateLimits(rule, "/", "client", 1.0);
    assert Queue(limiter.requestCounts, "client") == [0.0];
    var other := limiter.CheckRateLimits(rule, "/", "another", 1.0);
    assert other == Allowed;
    third := limiter.CheckRateLimits(rule, "/", "client", 60.5);
  }
}
