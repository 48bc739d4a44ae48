/**
 The login lockout of resync/api/auth.py (lines 37-175).

 Instants are microseconds, the resolution of the source's clock; the readings
 that a call takes are inputs, and so is whether the credentials are right.
 The specification keeps every failure ever recorded.
 */
module Lockout {

  const MINUTE := 60_000_000
  const LOCKOUT_DURATION := 15 * MINUTE
  const MAX_ATTEMPTS := 5

  // ------------------------------------------------------------ on values

  /** The attempts after the cutoff, in order. */
  function Recent(attempts: seq<int>, now: int): seq<int> {
    if attempts == [] then [] else
    var front, last := Recent(attempts[..|attempts| - 1], now), attempts[|attempts| - 1];
    if last > now - LOCKOUT_DURATION then front + [last] else front
  }

  predicate Locked(attempts: seq<int>, now: int) {
    |Recent(attempts, now)| >= MAX_ATTEMPTS
  }

  function Recorded(attempts: seq<int>, now: int): seq<int> {
    Recent(attempts + [now], now)
  }

  function Oldest(attempts: seq<int>): int
    requires attempts != []
  {
    if |attempts| == 1 then attempts[0]
    else
      var rest := Oldest(attempts[..|attempts| - 1]);
      if attempts[|attempts| - 1] < rest then attempts[|attempts| - 1] else rest
  }

  /** Whole minutes until the oldest attempt leaves the window; `int()` truncates and the result is not negative. */
  function Remaining(attempts: seq<int>, now: int): nat {
    if attempts == [] then 0 else
    var left := Oldest(attempts) + LOCKOUT_DURATION - now;
    if left <= 0 then 0 else left / MINUTE
  }

  function AttemptsOf(table: map<string, seq<int>>, ip: string): seq<int> {
    if ip in table then table[ip] else []
  }

  datatype Message = NoMessage | InvalidCredentials | TooManyAttempts(minutes: nat)

  // -------------------------------------------------------------- in place

  class SecureAuthenticator {
    var failedAttempts: map<string, seq<int>>

    /** All failures and successes so far; the list of each address is what they leave of it. */
    ghost var history: seq<Event>

    ghost predicate Valid()
      reads this
    {
      Follows(failedAttempts, history)
    }

    constructor ()
      ensures Valid() && failedAttempts == map[] && history == []
    {
      failedAttempts, history := map[], [];
    }

    /**
     One call with no other call in between: the check, then the record or the
     reset. On a clock that does not run back it refuses exactly when five
     failures of the address since its last success lie in the last 15 minutes.
     */
    method VerifyCredentials(valid: bool, ip: string, checkedAt: int, reportedAt: int, finishedAt: int)
      returns (ok: bool, message: Message)
      requires Valid()
      modifies this
      ensures Valid()
      ensures MonotoneUntil(old(history), checkedAt) ==>
        (message.TooManyAttempts? <==> |RecentFailures(old(history), ip, checkedAt)| >= 5)
      ensures ok <==> valid && !message.TooManyAttempts?
      ensures history == old(history) +
        if message.TooManyAttempts? then [] else if ok then [Success(ip, finishedAt)] else [Failure(ip, finishedAt)]
      ensures var attempts := AttemptsOf(old(failedAttempts), ip);
        if Locked(attempts, checkedAt) then
          !ok && message == TooManyAttempts(Remaining(attempts, reportedAt)) && failedAttempts == old(failedAttempts)
        else if valid then
          ok && message == NoMessage && failedAttempts == old(failedAttempts) - {ip}
        else
          !ok && message == InvalidCredentials
          && failedAttempts == old(failedAttempts)[ip := Recorded(attempts, finishedAt)]
    {
      RefusesIffFiveRecent(failedAttempts, history, ip, checkedAt);
      var locked := IsLockedOut(ip, checkedAt);
      if locked {
        var minutes := GetLockoutRemaining(ip, reportedAt);
        return false, TooManyAttempts(minutes);
      }
      if !valid {
        FollowsFailure(failedAttempts, history, ip, finishedAt);
        RecordFailedAttempt(ip, finishedAt);
        history := history + [Failure(ip, finishedAt)];
        return false, InvalidCredentials;
      }
      FollowsSuccess(failedAttempts, history, ip, finishedAt);
      ghost var before := failedAttempts;
      if ip in failedAttempts {
        failedAttempts := failedAttempts - {ip};
      }
      assert failedAttempts == before - {ip};
      history := history + [Success(ip, finishedAt)];
      return true, NoMessage;
    }

    method RecordFailedAttempt(ip: string, now: int)
      modifies this`failedAttempts
      ensures failedAttempts == old(failedAttempts)[ip := Recorded(AttemptsOf(old(failedAttempts), ip), now)]
    {
      if ip !in failedAttempts {
        failedAttempts := failedAttempts[ip := []];
      }
      failedAttempts := failedAttempts[ip := failedAttempts[ip] + [now]];
      var kept := KeepRecent(failedAttempts[ip], now);
      failedAttempts := failedAttempts[ip := kept];
    }

    method IsLockedOut(ip: string, now: int) returns (locked: bool)
      ensures locked == Locked(AttemptsOf(failedAttempts, ip), now)
    {
      if ip !in failedAttempts {
        return false;
      }
      var recent := KeepRecent(failedAttempts[ip], now);
      locked := |recent| >= MAX_ATTEMPTS;
    }

    method GetLockoutRemaining(ip: string, now: int) returns (minutes: nat)
      ensures minutes == Remaining(AttemptsOf(failedAttempts, ip), now)
    {
      if ip !in failedAttempts || failedAttempts[ip] == [] {
        return 0;
      }
      var attempts := failedAttempts[ip];
      var oldest := attempts[0];
      assert attempts[..1] == [attempts[0]];
      for i := 1 to |attempts|
        invariant oldest == Oldest(attempts[..i])
      {
        assert attempts[..i + 1][..i] == attempts[..i];
        if attempts[i] < oldest {
          oldest := attempts[i];
        }
      }
      assert attempts[..|attempts|] == attempts;
      var left := oldest + LOCKOUT_DURATION - now;
      minutes := if left <= 0 then 0 else left / MINUTE;
    }

    /** `[a for a in attempts if a > cutoff]` */
    static method KeepRecent(attempts: seq<int>, now: int) returns (kept: seq<int>)
      ensures kept == Recent(attempts, now)
    {
      kept := [];
      for i := 0 to |attempts|
        invariant kept == Recent(attempts[..i], now)
      {
        assert attempts[..i + 1][..i] == attempts[..i];
        if attempts[i] > now - LOCKOUT_DURATION {
          kept := kept + [attempts[i]];
        }
      }
      assert attempts[..|attempts|] == attempts;
    }
  }

  // ------------------------------------------------------- the full history

  datatype Event = Failure(ip: string, at: int) | Success(ip: string, at: int)

  /** The list kept for one address after failures and successes of any addresses. */
  function Kept(es: seq<Event>, ip: string): seq<int> {
    if es == [] then [] else
    var front, last := Kept(es[..|es| - 1], ip), es[|es| - 1];
    if last.ip != ip then front
    else if last.Failure? then Recorded(front, last.at)
    else []
  }

  /** All failures of the address since its last success. */
  function SinceSuccess(es: seq<Event>, ip: string): seq<int> {
    if es == [] then [] else
    var front, last := SinceSuccess(es[..|es| - 1], ip), es[|es| - 1];
    if last.ip != ip then front
    else if last.Failure? then front + [last.at]
    else []
  }

  ghost predicate MonotoneUntil(es: seq<Event>, now: int) {
    && (forall i, j :: 0 <= i < j < |es| ==> es[i].at <= es[j].at)
    && (forall i :: 0 <= i < |es| ==> es[i].at <= now)
  }

  lemma {:induction false} RecentTwice(attempts: seq<int>, a: int, b: int)
    requires a <= b
    ensures Recent(Recent(attempts, a), b) == Recent(attempts, b)
  {
    if attempts != [] {
      var front, last := attempts[..|attempts| - 1], attempts[|attempts| - 1];
      RecentTwice(front, a, b);
      if last > a - LOCKOUT_DURATION {
        var r := Recent(front, a);
        assert (r + [last])[..|r|] == r;
      }
    }
  }

  lemma RecentOfAppend(attempts: seq<int>, t: int, now: int)
    ensures Recent(attempts + [t], now) ==
            if t > now - LOCKOUT_DURATION then Recent(attempts, now) + [t] else Recent(attempts, now)
  {
    assert (attempts + [t])[..|attempts|] == attempts;
  }

  /**
   Lockout agrees with the full history, for calls interleaved in any way: on
   a monotone clock the pruned list has the same recent attempts, so an address
   is locked exactly when at least 5 failures since its last success lie in the
   last 15 minutes.
   */
  lemma {:induction false} LockedByFullHistory(es: seq<Event>, ip: string, now: int)
    requires MonotoneUntil(es, now)
    ensures Recent(Kept(es, ip), now) == Recent(SinceSuccess(es, ip), now)
    ensures Locked(Kept(es, ip), now) <==> |Recent(SinceSuccess(es, ip), now)| >= MAX_ATTEMPTS
  {
    if es != [] {
      var front, last := es[..|es| - 1], es[|es| - 1];
      LockedByFullHistory(front, ip, now);
      if last.ip == ip && last.Failure? {
        LockedByFullHistory(front, ip, last.at);
        RecentTwice(Kept(front, ip) + [last.at], last.at, now);
        RecentOfAppend(Kept(front, ip), last.at, now);
        RecentOfAppend(SinceSuccess(front, ip), last.at, now);
      }
    }
  }

  /** The lists of all addresses are what the events leave of them. */
  ghost predicate Follows(table: map<string, seq<int>>, es: seq<Event>) {
    forall ip :: AttemptsOf(table, ip) == Kept(es, ip)
  }

  lemma FollowsFailure(table: map<string, seq<int>>, es: seq<Event>, ip: string, at: int)
    requires Follows(table, es)
    ensures Follows(table[ip := Recorded(AttemptsOf(table, ip), at)], es + [Failure(ip, at)])
  {
    var t, fs := table[ip := Recorded(AttemptsOf(table, ip), at)], es + [Failure(ip, at)];
    assert fs[..|es|] == es;
    forall x ensures AttemptsOf(t, x) == Kept(fs, x) {
      assert AttemptsOf(table, x) == Kept(es, x);
    }
  }

  lemma FollowsSuccess(table: map<string, seq<int>>, es: seq<Event>, ip: string, at: int)
    requires Follows(table, es)
    ensures Follows(table - {ip}, es + [Success(ip, at)])
  {
    var t, fs := table - {ip}, es + [Success(ip, at)];
    assert fs[..|es|] == es;
    forall x ensures AttemptsOf(t, x) == Kept(fs, x) {
      assert AttemptsOf(table, x) == Kept(es, x);
    }
  }

  // ---------------------------------------------------- the lock in numbers

  /** Event `i` is a failure of the address, later than its last success and less than 900 seconds before `now`. */
  predicate IsRecentFailure(es: seq<Event>, ip: string, now: int, i: nat) {
    && i < |es| && es[i].Failure? && es[i].ip == ip && now - es[i].at < 900_000_000
    && forall j :: i < j < |es| ==> !(es[j].Success? && es[j].ip == ip)
  }

  function RecentFailures(es: seq<Event>, ip: string, now: int): set<nat> {
    set i: nat | 0 <= i < |es| && IsRecentFailure(es, ip, now, i)
  }

  lemma RecentFailuresStep(es: seq<Event>, ip: string, now: int)
    requires es != []
    ensures var n := |es| - 1;
      RecentFailures(es, ip, now) ==
      if es[n].ip != ip then RecentFailures(es[..n], ip, now)
      else if es[n].Success? then {}
      else if now - es[n].at < 900_000_000 then RecentFailures(es[..n], ip, now) + {n}
      else RecentFailures(es[..n], ip, now)
  {
    var n := |es| - 1;
    forall i: nat | i < n
      ensures
        IsRecentFailure(es, ip, now, i) <==>
        IsRecentFailure(es[..n], ip, now, i) && !(es[n].Success? && es[n].ip == ip)
    {
      if IsRecentFailure(es[..n], ip, now, i) && !(es[n].Success? && es[n].ip == ip) {
        forall j | i < j < |es| ensures !(es[j].Success? && es[j].ip == ip) {
          assert j < n ==> es[..n][j] == es[j];
        }
      }
      if IsRecentFailure(es, ip, now, i) {
        forall j | i < j < n ensures !(es[..n][j].Success? && es[..n][j].ip == ip) {
          assert es[..n][j] == es[j];
        }
      }
    }
  }

  /** Counting them in the list of failures since the last success is counting them among all events. */
  lemma {:induction false} RecentIsCount(es: seq<Event>, ip: string, now: int)
    ensures |Recent(SinceSuccess(es, ip), now)| == |RecentFailures(es, ip, now)|
  {
    if es == [] {
      assert RecentFailures(es, ip, now) == {};
    } else {
      var n := |es| - 1;
      RecentIsCount(es[..n], ip, now);
      RecentFailuresStep(es, ip, now);
      RecentOfAppend(SinceSuccess(es[..n], ip), es[n].at, now);
      assert n !in RecentFailures(es[..n], ip, now);
    }
  }

  /**
   The lock in numbers: an address is locked exactly when at least five
   failures since its last success lie less than 900 seconds back.
   */
  lemma LockedIffFiveRecent(es: seq<Event>, ip: string, now: int)
    requires MonotoneUntil(es, now)
    ensures Locked(Kept(es, ip), now) <==> |RecentFailures(es, ip, now)| >= 5
  {
    LockedByFullHistory(es, ip, now);
    RecentIsCount(es, ip, now);
  }

  lemma RefusesIffFiveRecent(table: map<string, seq<int>>, es: seq<Event>, ip: string, now: int)
    requires Follows(table, es)
    ensures MonotoneUntil(es, now) ==> (Locked(AttemptsOf(table, ip), now) <==> |RecentFailures(es, ip, now)| >= 5)
  {
    if MonotoneUntil(es, now) {
      LockedIffFiveRecent(es, ip, now);
    }
  }

  // -------------------------------------------------- when a lock ends

  ghost predicate Sorted(ts: seq<int>) {
    ts == [] || (Sorted(ts[..|ts| - 1]) && AllAtMost(ts[..|ts| - 1], ts[|ts| - 1]))
  }

  ghost predicate AllAtMost(ts: seq<int>, t: int) {
    forall i :: 0 <= i < |ts| ==> ts[i] <= t
  }

  lemma {:induction false} InOrder(ts: seq<int>, i: nat, j: nat)
    requires Sorted(ts) && i <= j < |ts|
    ensures ts[i] <= ts[j]
    decreases |ts|
  {
    var front := ts[..|ts| - 1];
    if j < |front| {
      InOrder(front, i, j);
    } else if i < j {
      assert front[i] == ts[i];
    }
  }

  /** Recording at a time no earlier than all keeps the order. */
  lemma AppendKeepsOrder(ts: seq<int>, t: int)
    requires Sorted(ts) && AllAtMost(ts, t)
    ensures Sorted(ts + [t]) && AllAtMost(ts + [t], t)
  {
    assert (ts + [t])[..|ts|] == ts;
  }

  lemma {:induction false} RecentKeepsOrder(ts: seq<int>, now: int, t: int)
    requires Sorted(ts) && AllAtMost(ts, t)
    ensures Sorted(Recent(ts, now)) && AllAtMost(Recent(ts, now), t)
  {
    if ts != [] {
      var front, last := ts[..|ts| - 1], ts[|ts| - 1];
      RecentKeepsOrder(front, now, last);
      if last > now - LOCKOUT_DURATION {
        AppendKeepsOrder(Recent(front, now), last);
      }
    }
  }

  /** How many attempts at the front of a sorted list are no longer recent. */
  lemma {:induction false} StaleCount(ts: seq<int>, now: int) returns (k: nat)
    requires Sorted(ts)
    ensures k <= |ts| && |Recent(ts, now)| == |ts| - k
    ensures k > 0 ==> ts[k - 1] <= now - LOCKOUT_DURATION
    ensures k < |ts| ==> ts[k] > now - LOCKOUT_DURATION
  {
    if ts == [] {
      k := 0;
    } else {
      var front, last := ts[..|ts| - 1], ts[|ts| - 1];
      k := StaleCount(front, now);
      if last <= now - LOCKOUT_DURATION {
        assert k == |front|;
        k := |ts|;
      }
    }
  }

  /** In a sorted list an attempt is recent exactly when it comes after the stale ones. */
  lemma RecentFrom(ts: seq<int>, now: int, k: nat, m: nat)
    requires Sorted(ts) && k <= |ts| && m < |ts|
    requires k > 0 ==> ts[k - 1] <= now - LOCKOUT_DURATION
    requires k < |ts| ==> ts[k] > now - LOCKOUT_DURATION
    ensures now < ts[m] + LOCKOUT_DURATION <==> k <= m
  {
    if k <= m {
      InOrder(ts, k, m);
    } else {
      InOrder(ts, m, k - 1);
    }
  }

  predicate IsRecent(attempt: int, now: int) {
    now < attempt + LOCKOUT_DURATION
  }

  /** Where the recent attempts of a sorted list begin. */
  lemma RecentBegins(ts: seq<int>, now: int) returns (k: nat)
    requires Sorted(ts)
    ensures k <= |ts| && (Locked(ts, now) <==> |ts| - k >= MAX_ATTEMPTS)
    ensures forall m :: 0 <= m < |ts| ==> (IsRecent(ts[m], now) <==> k <= m)
  {
    k := StaleCount(ts, now);
    forall m | 0 <= m < |ts| ensures IsRecent(ts[m], now) <==> k <= m {
      RecentFrom(ts, now, k, m);
    }
  }

  /** In general a lock lasts until the fifth-latest attempt is 15 minutes old. */
  lemma LockedIffFifthLatestIsRecent(ts: seq<int>, now: int)
    requires Sorted(ts)
    ensures Locked(ts, now) <==> |ts| >= 5 && now < ts[|ts| - 5] + 900_000_000
  {
    var k := RecentBegins(ts, now);
    if |ts| >= MAX_ATTEMPTS {
      assert IsRecent(ts[|ts| - MAX_ATTEMPTS], now) <==> k <= |ts| - MAX_ATTEMPTS;
    }
  }

  lemma {:induction false} OldestOfSorted(ts: seq<int>)
    requires Sorted(ts) && ts != []
    ensures Oldest(ts) == ts[0]
  {
    if |ts| > 1 {
      OldestOfSorted(ts[..|ts| - 1]);
      assert ts[..|ts| - 1][0] == ts[0];
    }
  }

  /**
   With at most five attempts in the list, as sequential calls keep it, the
   oldest attempt plus 15 minutes is exactly the first unlocked instant.
   */
  lemma UnlocksWithOldest(ts: seq<int>, now: int)
    requires Sorted(ts) && |ts| == MAX_ATTEMPTS
    ensures Locked(ts, now) <==> now < Oldest(ts) + LOCKOUT_DURATION
  {
    LockedIffFifthLatestIsRecent(ts, now);
    OldestOfSorted(ts);
  }

  /** The oldest attempt is in the list, and none is older. */
  lemma {:induction false} OldestIsLeast(ts: seq<int>)
    requires ts != []
    ensures Oldest(ts) in ts && forall t :: t in ts ==> Oldest(ts) <= t
  {
    if |ts| > 1 {
      OldestIsLeast(ts[..|ts| - 1]);
      assert ts == ts[..|ts| - 1] + [ts[|ts| - 1]];
    }
  }

  /**
   The reported minutes never overshoot the instant 900 seconds after the
   oldest attempt, and fall short of it by less than a minute; from then on they
   are 0, and so they are without attempts.
   */
  lemma ReportedMinutesAreTight(ts: seq<int>, oldest: int, now: int)
    requires oldest in ts && forall t :: t in ts ==> oldest <= t
    ensures var minutes, left := Remaining(ts, now), oldest + 900_000_000 - now;
      && (left > 0 ==> minutes * 60_000_000 <= left < (minutes + 1) * 60_000_000)
      && (left <= 0 ==> minutes == 0)
    ensures Remaining([], now) == 0
  {
    OldestIsLeast(ts);
  }

  // ------------------------------------------------------- calls in flight

  /** One address: its list and the calls that have passed the check and not yet finished. */
  datatype World = World(attempts: seq<int>, inFlight: nat, now: int)

  /** A check, or the end of a call in flight, each at some instant. */
  datatype Step = Check(at: int) | Fail(at: int) | Succeed(at: int)

  predicate Enabled(w: World, s: Step) {
    w.now <= s.at && (s.Check? || w.inFlight > 0)
  }

  function Apply(w: World, s: Step): World
    requires Enabled(w, s)
  {
    match s
    case Check(t) => World(w.attempts, if Locked(w.attempts, t) then w.inFlight else w.inFlight + 1, t)
    case Fail(t) => World(Recorded(w.attempts, t), w.inFlight - 1, t)
    case Succeed(t) => World([], w.inFlight - 1, t)
  }

  ghost predicate Run(ws: seq<World>, steps: seq<Step>) {
    && |ws| == |steps| + 1 && ws[0] == World([], 0, ws[0].now)
    && forall i {:trigger steps[i]} :: 0 <= i < |steps| ==>
         Enabled(ws[i], steps[i]) && ws[i + 1] == Apply(ws[i], steps[i])
  }

  lemma {:induction false} RecentShrinks(ts: seq<int>, a: int, b: int)
    requires a <= b
    ensures |Recent(ts, b)| <= |Recent(ts, a)| <= |ts|
  {
    if ts != [] {
      RecentShrinks(ts[..|ts| - 1], a, b);
    }
  }

  /** With at most `calls` calls at once, what is recent and what may still arrive stay together below 5 + calls. */
  ghost predicate Inv(w: World, calls: nat) {
    var recent := |Recent(w.attempts, w.now)|;
    && (recent >= MAX_ATTEMPTS ==> recent + w.inFlight <= MAX_ATTEMPTS - 1 + calls)
    && |w.attempts| <= MAX_ATTEMPTS - 1 + calls
    && Sorted(w.attempts) && AllAtMost(w.attempts, w.now)
  }

  lemma RecordingKeepsOrder(ts: seq<int>, now: int)
    requires Sorted(ts) && AllAtMost(ts, now)
    ensures Recorded(ts, now) == Recent(ts, now) + [now]
    ensures Sorted(Recorded(ts, now)) && AllAtMost(Recorded(ts, now), now)
  {
    RecentOfAppend(ts, now, now);
    RecentKeepsOrder(ts, now, now);
    AppendKeepsOrder(Recent(ts, now), now);
  }

  lemma StepKeepsInv(w: World, s: Step, calls: nat)
    requires Inv(w, calls) && Enabled(w, s) && w.inFlight <= calls && Apply(w, s).inFlight <= calls
    ensures Inv(Apply(w, s), calls)
  {
    RecentShrinks(w.attempts, w.now, s.at);
    if s.Fail? {
      RecordingKeepsOrder(w.attempts, s.at);
      RecentTwice(w.attempts + [s.at], s.at, s.at);
    }
  }

  ghost predicate AtMostInFlight(ws: seq<World>, calls: nat) {
    forall i :: 0 <= i < |ws| ==> ws[i].inFlight <= calls
  }

  /**
   With at most `calls` calls in flight at once the list never exceeds
   4 + calls entries; for sequential calls that is 5.
   */
  lemma AttemptsAreBounded(ws: seq<World>, steps: seq<Step>, n: nat, calls: nat)
    requires Run(ws, steps) && n < |ws| && AtMostInFlight(ws, calls)
    ensures |ws[n].attempts| <= 4 + calls
  {
    InvHolds(ws, steps, n, calls);
  }

  lemma {:induction false} InvHolds(ws: seq<World>, steps: seq<Step>, n: nat, calls: nat)
    requires Run(ws, steps) && n < |ws|
    requires AtMostInFlight(ws, calls)
    ensures Inv(ws[n], calls)
  {
    if n > 0 {
      InvHolds(ws, steps, n - 1, calls);
      StepKeepsInv(ws[n - 1], steps[n - 1], calls);
    }
  }

  /** `ts` plus one failure, while nothing in `ts` is 15 minutes old. */
  lemma RecordAppends(ts: seq<int>, now: int)
    requires Recent(ts, now) == ts
    ensures Recorded(ts, now) == ts + [now]
  {
    RecentOfAppend(ts, now, now);
  }

  lemma {:induction false} AllRecent(ts: seq<int>, now: int)
    requires forall i :: 0 <= i < |ts| ==> ts[i] > now - LOCKOUT_DURATION
    ensures Recent(ts, now) == ts
  {
    if ts != [] {
      AllRecent(ts[..|ts| - 1], now);
    }
  }

  lemma RunExtends(ws: seq<World>, steps: seq<Step>, s: Step)
    requires Run(ws, steps) && Enabled(ws[|steps|], s)
    ensures Run(ws + [Apply(ws[|steps|], s)], steps + [s])
  {
    var ws', steps' := ws + [Apply(ws[|steps|], s)], steps + [s];
    forall i | 0 <= i < |steps'| ensures Enabled(ws'[i], steps'[i]) && ws'[i + 1] == Apply(ws'[i], steps'[i]) {
      if i < |steps| {
        assert steps'[i] == steps[i];
      }
    }
  }

  // --------------------------------------------------- the bound is attained

  /** `k` failures at instant 0. */
  function Zeros(k: nat): (ts: seq<int>)
    ensures |ts| == k && forall i :: 0 <= i < k ==> ts[i] == 0
  {
    if k == 0 then [] else Zeros(k - 1) + [0]
  }

  /** `k` failures on record and `n` calls in flight, at instant 0. */
  function AtZero(k: nat, n: nat): World {
    World(Zeros(k), n, 0)
  }

  lemma StepsAtZero(k: nat, n: nat)
    ensures k < MAX_ATTEMPTS ==> Apply(AtZero(k, n), Check(0)) == AtZero(k, n + 1)
    ensures n > 0 ==> Apply(AtZero(k, n), Fail(0)) == AtZero(k + 1, n - 1)
  {
    AllRecent(Zeros(k), 0);
    RecordAppends(Zeros(k), 0);
  }

  lemma Extend(ws: seq<World>, steps: seq<Step>, s: Step, calls: nat) returns (ws': seq<World>, steps': seq<Step>)
    requires Run(ws, steps) && AtMostInFlight(ws, calls)
    requires Enabled(ws[|steps|], s) && Apply(ws[|steps|], s).inFlight <= calls
    ensures Run(ws', steps') && AtMostInFlight(ws', calls) && ws'[|steps'|] == Apply(ws[|steps|], s)
  {
    RunExtends(ws, steps, s);
    ws', steps' := ws + [Apply(ws[|steps|], s)], steps + [s];
  }

  /** `k` calls fail one after the other. */
  lemma {:induction false} FailuresInTurn(k: nat) returns (ws: seq<World>, steps: seq<Step>)
    requires k < MAX_ATTEMPTS
    ensures Run(ws, steps) && AtMostInFlight(ws, 1) && ws[|steps|] == AtZero(k, 0)
  {
    if k == 0 {
      ws, steps := [AtZero(0, 0)], [];
    } else {
      ws, steps := FailuresInTurn(k - 1);
      StepsAtZero(k - 1, 0);
      ws, steps := Extend(ws, steps, Check(0), 1);
      StepsAtZero(k - 1, 1);
      ws, steps := Extend(ws, steps, Fail(0), 1);
    }
  }

  /** After four failures `n` calls pass the check at once. */
  lemma {:induction false} ChecksAtOnce(n: nat, calls: nat) returns (ws: seq<World>, steps: seq<Step>)
    requires n <= calls && calls >= 1
    ensures Run(ws, steps) && AtMostInFlight(ws, calls) && ws[|steps|] == AtZero(MAX_ATTEMPTS - 1, n)
  {
    if n == 0 {
      ws, steps := FailuresInTurn(MAX_ATTEMPTS - 1);
    } else {
      ws, steps := ChecksAtOnce(n - 1, calls);
      StepsAtZero(MAX_ATTEMPTS - 1, n - 1);
      ws, steps := Extend(ws, steps, Check(0), calls);
    }
  }

  /** And then `k` of them fail. */
  lemma {:induction false} FailuresAtOnce(calls: nat, k: nat) returns (ws: seq<World>, steps: seq<Step>)
    requires k <= calls && calls >= 1
    ensures Run(ws, steps) && AtMostInFlight(ws, calls)
    ensures ws[|steps|] == AtZero(MAX_ATTEMPTS - 1 + k, calls - k)
  {
    if k == 0 {
      ws, steps := ChecksAtOnce(calls, calls);
    } else {
      ws, steps := FailuresAtOnce(calls, k - 1);
      StepsAtZero(MAX_ATTEMPTS - 1 + k - 1, calls - (k - 1));
      ws, steps := Extend(ws, steps, Fail(0), calls);
    }
  }

  /** With at most `calls` calls in flight, no run leaves more than `most` attempts. */
  ghost predicate NeverExceeds(calls: nat, most: nat) {
    forall ws: seq<World>, steps: seq<Step> ::
      Run(ws, steps) && AtMostInFlight(ws, calls) ==> |ws[|steps|].attempts| <= most
  }

  /**
   4 + calls is the exact bound: no run exceeds it and some run attains it. So
   the list holds at most five attempts in all runs if and only if at most one
   call is in flight at a time.
   */
  lemma BoundIsExact(calls: nat, most: nat)
    requires calls >= 1
    ensures NeverExceeds(calls, most) <==> most >= 4 + calls
  {
    if most >= MAX_ATTEMPTS - 1 + calls {
      forall ws: seq<World>, steps: seq<Step> | Run(ws, steps) && AtMostInFlight(ws, calls)
        ensures |ws[|steps|].attempts| <= most
      {
        AttemptsAreBounded(ws, steps, |steps|, calls);
      }
    } else {
      var ws, steps := FailuresAtOnce(calls, calls);
      assert Run(ws, steps) && |ws[|steps|].attempts| > most;
    }
  }

  /** So for sequential calls a locked list holds exactly five attempts and unlocks with its oldest. */
  lemma SequentialLockEndsWithOldest(ws: seq<World>, steps: seq<Step>, n: nat, now: int)
    requires Run(ws, steps) && n < |ws| && AtMostInFlight(ws, 1)
    requires Locked(ws[n].attempts, ws[n].now)
    ensures |ws[n].attempts| == 5
    ensures Locked(ws[n].attempts, now) <==> now < Oldest(ws[n].attempts) + 900_000_000
  {
    InvHolds(ws, steps, n, 1);
    RecentShrinks(ws[n].attempts, ws[n].now, ws[n].now);
    UnlocksWithOldest(ws[n].attempts, now);
  }

  /** The oldest attempt plus 15 minutes is the end of the lock. */
  ghost predicate OldestTells(ts: seq<int>)
    requires ts != []
  {
    forall now :: Locked(ts, now) <==> now < Oldest(ts) + LOCKOUT_DURATION
  }

  lemma OldestMisleads(ts: seq<int>)
    requires Sorted(ts) && |ts| >= MAX_ATTEMPTS && Oldest(ts) != ts[|ts| - MAX_ATTEMPTS]
    ensures Locked(ts, Oldest(ts) + LOCKOUT_DURATION)
  {
    OldestOfSorted(ts);
    InOrder(ts, 0, |ts| - MAX_ATTEMPTS);
    LockedIffFifthLatestIsRecent(ts, Oldest(ts) + LOCKOUT_DURATION);
  }

  /** In general it tells the end exactly when it is as old as the fifth-latest attempt. */
  lemma OldestTellsIff(ts: seq<int>)
    requires Sorted(ts) && |ts| >= MAX_ATTEMPTS
    ensures OldestTells(ts) <==> Oldest(ts) == ts[|ts| - MAX_ATTEMPTS]
  {
    if Oldest(ts) == ts[|ts| - MAX_ATTEMPTS] {
      forall now ensures Locked(ts, now) <==> now < Oldest(ts) + LOCKOUT_DURATION {
        LockedIffFifthLatestIsRecent(ts, now);
      }
    } else {
      OldestMisleads(ts);
    }
  }

  /** `n` calls pass the check at instant 0. */
  lemma {:induction false} ChecksPass(n: nat) returns (ws: seq<World>, steps: seq<Step>)
    ensures Run(ws, steps) && |steps| == n && ws[n] == World([], n, 0)
  {
    if n == 0 {
      ws, steps := [World([], 0, 0)], [];
    } else {
      ws, steps := ChecksPass(n - 1);
      RunExtends(ws, steps, Check(0));
      ws, steps := ws + [Apply(ws[n - 1], Check(0))], steps + [Check(0)];
    }
  }

  /** `k` instants, one second apart. */
  function Seconds(k: nat): (ts: seq<int>)
    ensures |ts| == k && forall i :: 0 <= i < k ==> ts[i] == i * 1_000_000
  {
    if k == 0 then [] else Seconds(k - 1) + [(k - 1) * 1_000_000]
  }

  lemma {:induction false} SecondsInOrder(k: nat)
    ensures Sorted(Seconds(k)) && AllAtMost(Seconds(k), k * 1_000_000)
  {
    if k > 0 {
      SecondsInOrder(k - 1);
      AppendKeepsOrder(Seconds(k - 1), (k - 1) * 1_000_000);
    }
  }

  lemma RecordNextSecond(k: nat)
    requires k < 60
    ensures Recorded(Seconds(k), k * 1_000_000) == Seconds(k + 1)
  {
    AllRecent(Seconds(k), k * 1_000_000);
    RecordAppends(Seconds(k), k * 1_000_000);
  }

  /** `n` calls pass the check at instant 0, and then `k` of them fail, one second apart. */
  lemma {:induction false} ConcurrentFailures(n: nat, k: nat) returns (ws: seq<World>, steps: seq<Step>)
    requires k <= n && k <= 60
    ensures Run(ws, steps) && |steps| == n + k
    ensures ws[n + k] == World(Seconds(k), n - k, if k == 0 then 0 else (k - 1) * 1_000_000)
  {
    if k == 0 {
      ws, steps := ChecksPass(n);
    } else {
      ws, steps := ConcurrentFailures(n, k - 1);
      var s := Fail((k - 1) * 1_000_000);
      RecordNextSecond(k - 1);
      RunExtends(ws, steps, s);
      ws, steps := ws + [Apply(ws[n + k - 1], s)], steps + [s];
    }
  }

  /**
   Six concurrent calls make a list of six, and then the oldest attempt says
   too little: 15 minutes after it the address is still locked although the
   reported time is up.
   */
  lemma ConcurrentCallsOutlastTheReport() returns (ws: seq<World>, steps: seq<Step>)
    ensures Run(ws, steps) && |ws| == 13
    ensures var ts := ws[12].attempts;
      |ts| == 6 && ts[0] == 0 && Locked(ts, 900_000_000) && Remaining(ts, 900_000_000) == 0
  {
    ws, steps := ConcurrentFailures(6, 6);
    SecondsInOrder(6);
    LockedIffFifthLatestIsRecent(ws[12].attempts, LOCKOUT_DURATION);
    OldestOfSorted(ws[12].attempts);
  }

  // --------------------------------------------------------- concrete calls

  /** `k` failures of "ip" at instant 0. */
  function Failures(k: nat): (es: seq<Event>)
    ensures |es| == k && forall i :: 0 <= i < k ==> es[i] == Failure("ip", 0)
  {
    seq(k, _ => Failure("ip", 0))
  }

  lemma {:induction false} FailuresCount(k: nat, now: int)
    requires 0 <= now < 900_000_000
    ensures |RecentFailures(Failures(k), "ip", now)| == k
  {
    if k == 0 {
      assert RecentFailures(Failures(k), "ip", now) == {};
    } else {
      FailuresCount(k - 1, now);
      assert Failures(k)[..k - 1] == Failures(k - 1);
      RecentFailuresStep(Failures(k), "ip", now);
      assert k - 1 !in RecentFailures(Failures(k - 1), "ip", now);
    }
  }

  lemma FailuresMonotone(k: nat, now: int)
    requires now >= 0
    ensures MonotoneUntil(Failures(k), now)
  {
  }

  method WrongPasswords(failures: nat) returns (auth: SecureAuthenticator)
    requires failures <= 5
    ensures fresh(auth) && auth.Valid() && auth.history == Failures(failures)
    ensures AttemptsOf(auth.failedAttempts, "ip") == Zeros(failures)
  {
    auth := new SecureAuthenticator();
    for i := 0 to failures
      invariant fresh(auth) && auth.Valid() && auth.history == Failures(i)
      invariant AttemptsOf(auth.failedAttempts, "ip") == Zeros(i)
    {
      OneMoreFailure(auth, i);
    }
  }

  method OneMoreFailure(auth: SecureAuthenticator, failures: nat)
    requires failures < 5 && auth.Valid() && auth.history == Failures(failures)
    requires AttemptsOf(auth.failedAttempts, "ip") == Zeros(failures)
    modifies auth
    ensures auth.Valid() && auth.history == Failures(failures + 1)
    ensures AttemptsOf(auth.failedAttempts, "ip") == Zeros(failures + 1)
  {
    FailuresCount(failures, 0);
    FailuresMonotone(failures, 0);
    StepsAtZero(failures, 1);
    var _, _ := auth.VerifyCredentials(false, "ip", 0, 0, 0);
    assert Failures(failures) + [Failure("ip", 0)] == Failures(failures + 1);
  }

  /** `failures` wrong passwords within a minute, and then the right one: it is accepted unless there were five. */
  method RightPasswordAfter(failures: nat) returns (ok: bool, message: Message)
    requires failures <= 5
    ensures failures <= 4 ==> ok && message == NoMessage
    ensures failures == 5 ==> !ok && message == TooManyAttempts(14)
  {
    var auth := WrongPasswords(failures);
    FailuresCount(failures, 60_000_000);
    FailuresMonotone(failures, 60_000_000);
    FourteenMinutesLeft();
    ok, message := auth.VerifyCredentials(true, "ip", 60_000_000, 60_000_000, 60_000_000);
  }

  lemma FourteenMinutesLeft()
    ensures Remaining(Zeros(5), 60_000_000) == 14
  {
    ReportedMinutesAreTight(Zeros(5), 0, 60_000_000);
  }
}
