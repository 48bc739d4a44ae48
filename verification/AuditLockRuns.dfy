/**
 Whole runs of the audit lock: any number of contexts over one store, their
 steps interleaved with clock ticks and administrative deletions.

 Each context operation is one command to the store, so it is one step. A run
 is a list of steps from the empty world; the state before step `i` is a
 function of the steps.
 */
module AuditLockRuns {
  import opened Wrappers
  import opened AuditLock

  type ContextId = nat

  /** `issued` records which context drew each token; no step reads it. */
  datatype World = World(now: int, store: Store, contexts: map<ContextId, Context>, issued: map<Token, ContextId>)

  datatype Op =
    | Tick(ms: nat)
    | Create(ctx: ContextId, memoryId: string, timeout: int)
    | Enter(ctx: ContextId, token: Token)
    | Exit(ctx: ContextId)
    | Release(ctx: ContextId)
    | ForceRelease(memoryId: string)
    | Cleanup(maxAge: int)

  const START := World(0, map[], map[], map[])

  /** Context ids and tokens are fresh; only existing contexts act. */
  predicate Enabled(w: World, op: Op) {
    match op
    case Create(c, id, _) => c !in w.contexts && LockKey(id).Ok?
    case Enter(c, token) => c in w.contexts && token !in w.issued
    case Exit(c) => c in w.contexts
    case Release(c) => c in w.contexts
    case ForceRelease(id) => LockKey(id).Ok?
    case _ => true
  }

  function Apply(w: World, op: Op): World
    requires Enabled(w, op)
  {
    match op
    case Tick(ms) => w.(now := w.now + ms, store := Expire(w.store, w.now + ms))
    case Create(c, id, timeout) =>
      w.(contexts := w.contexts[c := Context(LockKey(id).value, timeout, None, false)])
    case Enter(c, token) =>
      var ctx := w.contexts[c];
      World(w.now, EnterStore(ctx, w.store, w.now, token),
            w.contexts[c := EnterContext(ctx, w.store, token)], w.issued[token := c])
    case Exit(c) => w.(store := ExitStore(w.contexts[c], w.store))
    case Release(c) => w.(store := ReleaseStore(w.contexts[c], w.store))
    case ForceRelease(id) => w.(store := w.store - {LockKey(id).value})
    case Cleanup(maxAge) => w.(store := Cleaned(w.store, w.now, maxAge))
  }

  ghost predicate Run(ws: seq<World>, ops: seq<Op>) {
    && |ws| == |ops| + 1 && ws[0] == START
    && forall i {:trigger ops[i]} :: 0 <= i < |ops| ==> Enabled(ws[i], ops[i]) && ws[i + 1] == Apply(ws[i], ops[i])
  }

  lemma RunExtends(ws: seq<World>, ops: seq<Op>, op: Op)
    requires Run(ws, ops) && Enabled(ws[|ops|], op)
    ensures Run(ws + [Apply(ws[|ops|], op)], ops + [op])
  {
    var ws', ops' := ws + [Apply(ws[|ops|], op)], ops + [op];
    forall j | 0 <= j < |ops'| ensures Enabled(ws'[j], ops'[j]) && ws'[j + 1] == Apply(ws'[j], ops'[j]) {
      if j < |ops| {
        assert ops'[j] == ops[j];
      }
    }
  }

  predicate IsAdmin(op: Op) {
    op.ForceRelease? || op.Cleanup?
  }

  /**
   The step is no administrative deletion of a stored lock. A caller can tell
   beforehand: nobody holds the id to be forced, or every lock has more than
   `maxAge` seconds left.
   */
  predicate Gentle(w: World, op: Op) {
    match op
    case ForceRelease(id) => LockKey(id).Ok? ==> LockKey(id).value !in w.store
    case Cleanup(maxAge) => forall k :: k in w.store ==> TtlSeconds(w.store[k], w.now) > maxAge
    case _ => true
  }

  ghost predicate GentleAt(ws: seq<World>, ops: seq<Op>, n: nat)
    requires Run(ws, ops) && n < |ops|
  {
    Gentle(ws[n], ops[n])
  }

  // ------------------------------------------------------------ invariants

  /** Tokens in use were issued, a context only ever holds tokens it drew, and no entry is expired. */
  ghost predicate Inv(w: World) {
    && (forall c :: c in w.contexts && w.contexts[c].lockValue.Some? ==>
         w.contexts[c].lockValue.value in w.issued && w.issued[w.contexts[c].lockValue.value] == c)
    && (forall k :: k in w.store ==> w.store[k].token in w.issued && w.now < w.store[k].expiry)
  }

  lemma StepKeepsInv(w: World, op: Op)
    requires Inv(w) && Enabled(w, op)
    ensures Inv(Apply(w, op)) && w.now <= Apply(w, op).now
    ensures forall c :: c in w.contexts ==> c in Apply(w, op).contexts
    ensures forall c :: c in w.contexts ==> Apply(w, op).contexts[c].lockKey == w.contexts[c].lockKey
    ensures forall t :: t in w.issued ==> t in Apply(w, op).issued && Apply(w, op).issued[t] == w.issued[t]
  {
  }

  lemma {:induction false} ReachableInv(ws: seq<World>, ops: seq<Op>, n: nat)
    requires Run(ws, ops) && n < |ws|
    ensures Inv(ws[n])
  {
    if n > 0 {
      ReachableInv(ws, ops, n - 1);
      StepKeepsInv(ws[n - 1], ops[n - 1]);
    }
  }

  /** The clock never runs back, contexts keep their key, tokens keep their owner. */
  lemma {:induction false} RunIsMonotone(ws: seq<World>, ops: seq<Op>, m: nat, n: nat)
    requires Run(ws, ops) && m <= n < |ws|
    ensures ws[m].now <= ws[n].now
    ensures forall c :: c in ws[m].contexts ==>
      c in ws[n].contexts && ws[n].contexts[c].lockKey == ws[m].contexts[c].lockKey
    ensures forall t :: t in ws[m].issued ==> t in ws[n].issued && ws[n].issued[t] == ws[m].issued[t]
    decreases n - m
  {
    if m < n {
      RunIsMonotone(ws, ops, m, n - 1);
      ReachableInv(ws, ops, n - 1);
      StepKeepsInv(ws[n - 1], ops[n - 1]);
    }
  }

  // ------------------------------------------------------------- holding

  /** Step `i` obtains the lock. */
  ghost predicate Acquires(ws: seq<World>, ops: seq<Op>, i: nat)
    requires Run(ws, ops)
  {
    i < |ops| && ops[i].Enter? && EnterOutcome(ws[i].contexts[ops[i].ctx], ws[i].store).Ok?
  }

  ghost function KeyAt(ws: seq<World>, ops: seq<Op>, i: nat): string
    requires Run(ws, ops) && i < |ops| && ops[i].Enter?
  {
    ws[i].contexts[ops[i].ctx].lockKey
  }

  ghost function LeaseAt(ws: seq<World>, ops: seq<Op>, i: nat): Lease
    requires Run(ws, ops) && i < |ops| && ops[i].Enter?
  {
    Lease(ops[i].token, ws[i].now + ws[i].contexts[ops[i].ctx].timeout * 1000)
  }

  /** Step `n` is a release, manual or on leaving a context that was once locked. */
  ghost predicate Releases(ws: seq<World>, ops: seq<Op>, n: nat)
    requires Run(ws, ops)
  {
    n < |ops| && (ops[n].Release? || (ops[n].Exit? && ws[n].contexts[ops[n].ctx].locked))
  }

  /** Step `m` is a release by the context of step `i` that still remembers the token of `i`. */
  ghost predicate ReleasesOwn(ws: seq<World>, ops: seq<Op>, i: nat, m: nat)
    requires Run(ws, ops) && i < |ops| && ops[i].Enter?
  {
    && i < m && Releases(ws, ops, m)
    && ops[m].ctx == ops[i].ctx
    && ws[m].contexts[ops[m].ctx].lockValue == Some(ops[i].token)
  }

  /** The instant `x` lies in [acquired at `i`, the earlier of its own release before step `n` and its timeout). */
  ghost predicate HoldsAt(ws: seq<World>, ops: seq<Op>, i: nat, n: nat, x: int)
    requires Run(ws, ops) && n < |ws|
  {
    && Acquires(ws, ops, i)
    && ws[i].now <= x < LeaseAt(ws, ops, i).expiry
    && !exists m: nat :: m < n && ReleasesOwn(ws, ops, i, m) && ws[m].now <= x
  }

  /**
   What one step does to a stored lease: it stays, or its time is up, or an
   administrator deletes it, or a context releases it that holds its token.
   */
  lemma LeaseFate(w: World, op: Op, k: string)
    requires Inv(w) && Enabled(w, op) && k in w.store
    requires Gentle(w, op)
    ensures var v := Apply(w, op);
      || (k in v.store && v.store[k] == w.store[k])
      || v.now >= w.store[k].expiry
      || ((op.Release? || (op.Exit? && w.contexts[op.ctx].locked))
          && w.contexts[op.ctx].lockValue == Some(w.store[k].token) && w.issued[w.store[k].token] == op.ctx)
  {
  }

  lemma AcquiredIsStored(ws: seq<World>, ops: seq<Op>, i: nat)
    requires Run(ws, ops) && Acquires(ws, ops, i)
    ensures KeyAt(ws, ops, i) in ws[i + 1].store && ws[i + 1].store[KeyAt(ws, ops, i)] == LeaseAt(ws, ops, i)
    ensures ops[i].token in ws[i + 1].issued && ws[i + 1].issued[ops[i].token] == ops[i].ctx
  {
    assert ws[i + 1] == Apply(ws[i], ops[i]);
  }

  /** One step of a run keeps the lease of acquisition `i`, if it is gentle and no release of that lease. */
  lemma LeaseStep(ws: seq<World>, ops: seq<Op>, i: nat, n: nat)
    requires Run(ws, ops) && Acquires(ws, ops, i) && i < n < |ops|
    requires GentleAt(ws, ops, n) && !ReleasesOwn(ws, ops, i, n)
    requires KeyAt(ws, ops, i) in ws[n].store && ws[n].store[KeyAt(ws, ops, i)] == LeaseAt(ws, ops, i)
    requires ws[n + 1].now < LeaseAt(ws, ops, i).expiry
    ensures KeyAt(ws, ops, i) in ws[n + 1].store && ws[n + 1].store[KeyAt(ws, ops, i)] == LeaseAt(ws, ops, i)
  {
    ReachableInv(ws, ops, n);
    LeaseFate(ws[n], ops[n], KeyAt(ws, ops, i));
    RunIsMonotone(ws, ops, i + 1, n);
    assert ws[i + 1] == Apply(ws[i], ops[i]);
    assert ws[n].issued[ops[i].token] == ops[i].ctx;
    assert ws[n + 1] == Apply(ws[n], ops[n]);
  }

  /** Unless an administrator deletes it, a lease stays in the store until its own release or its expiry. */
  lemma {:induction false} LeasePersists(ws: seq<World>, ops: seq<Op>, i: nat, n: nat)
    requires Run(ws, ops) && Acquires(ws, ops, i) && i < n < |ws|
    requires forall m: nat :: i < m < n ==> GentleAt(ws, ops, m) && !ReleasesOwn(ws, ops, i, m)
    requires ws[n].now < LeaseAt(ws, ops, i).expiry
    ensures KeyAt(ws, ops, i) in ws[n].store && ws[n].store[KeyAt(ws, ops, i)] == LeaseAt(ws, ops, i)
    decreases n
  {
    if n == i + 1 {
      AcquiredIsStored(ws, ops, i);
    } else {
      RunIsMonotone(ws, ops, n - 1, n);
      LeasePersists(ws, ops, i, n - 1);
      LeaseStep(ws, ops, i, n - 1);
    }
  }

  /**
   Mutual exclusion over whole runs. If no administrative step deletes a stored
   lock, no instant lies in the holding intervals of two acquisitions of one key.
   */
  lemma MutualExclusion(ws: seq<World>, ops: seq<Op>, i: nat, j: nat, x: int)
    requires Run(ws, ops) && forall m: nat :: m < |ops| ==> GentleAt(ws, ops, m)
    requires i < j && Acquires(ws, ops, i) && Acquires(ws, ops, j)
    requires KeyAt(ws, ops, i) == KeyAt(ws, ops, j)
    ensures !(HoldsAt(ws, ops, i, |ops|, x) && HoldsAt(ws, ops, j, |ops|, x))
  {
    if HoldsAt(ws, ops, i, |ops|, x) && ws[j].now <= x {
      forall m: nat | i < m < j ensures !ReleasesOwn(ws, ops, i, m) {
        RunIsMonotone(ws, ops, m, j);
      }
      LeasePersists(ws, ops, i, j);
    }
  }

  /**
   Where a stored lease comes from: the latest acquisition of its key, whose
   context has not released it since. This holds in every run.
   */
  lemma {:induction false} StoredIsLatest(ws: seq<World>, ops: seq<Op>, n: nat, k: string) returns (i: nat)
    requires Run(ws, ops) && n < |ws| && k in ws[n].store
    ensures i < n && Acquires(ws, ops, i) && KeyAt(ws, ops, i) == k && ws[n].store[k] == LeaseAt(ws, ops, i)
    ensures forall m: nat :: i < m < n ==>
      !ReleasesOwn(ws, ops, i, m) && !(Acquires(ws, ops, m) && KeyAt(ws, ops, m) == k)
  {
    assert n > 0;
    var w, op := ws[n - 1], ops[n - 1];
    assert ws[n] == Apply(w, op);
    if op.Enter? && Acquires(ws, ops, n - 1) && KeyAt(ws, ops, n - 1) == k {
      i := n - 1;
    } else {
      assert k in w.store && w.store[k] == ws[n].store[k];
      i := StoredIsLatest(ws, ops, n - 1, k);
      RunIsMonotone(ws, ops, i, n - 1);
      assert !ReleasesOwn(ws, ops, i, n - 1);
    }
  }

  /**
   Acquiring succeeds exactly when nobody holds: if no earlier administrative
   step deletes a stored lock, a context with a positive timeout obtains the
   lock if and only if no earlier acquisition of its key holds at that instant.
   */
  lemma EnterSucceedsIffFree(ws: seq<World>, ops: seq<Op>, n: nat)
    requires Run(ws, ops) && n < |ops| && ops[n].Enter? && ws[n].contexts[ops[n].ctx].timeout > 0
    requires forall m: nat :: m < n ==> GentleAt(ws, ops, m)
    ensures Acquires(ws, ops, n) <==>
      !exists i: nat ::
        i < n && Acquires(ws, ops, i) && KeyAt(ws, ops, i) == KeyAt(ws, ops, n) && HoldsAt(ws, ops, i, n, ws[n].now)
  {
    var k := KeyAt(ws, ops, n);
    if k in ws[n].store {
      var i := StoredIsLatest(ws, ops, n, k);
      ReachableInv(ws, ops, n);
      RunIsMonotone(ws, ops, i, n);
      assert HoldsAt(ws, ops, i, n, ws[n].now);
    }
    forall i: nat | i < n && Acquires(ws, ops, i) && KeyAt(ws, ops, i) == k && HoldsAt(ws, ops, i, n, ws[n].now)
      ensures k in ws[n].store
    {
      forall m: nat | i < m < n ensures !ReleasesOwn(ws, ops, i, m) {
        RunIsMonotone(ws, ops, m, n);
      }
      LeasePersists(ws, ops, i, n);
    }
  }

  // ---------------------------------------------------------- token safety

  /**
   Token safety, in every run: a release deletes an entry only if that entry
   was written by an acquisition of the same context, however often locks have
   expired, been re-acquired or been deleted in between.
   */
  lemma ReleaseDeletesOnlyOwn(ws: seq<World>, ops: seq<Op>, n: nat, k: string) returns (i: nat)
    requires Run(ws, ops) && n < |ops| && (ops[n].Release? || ops[n].Exit?)
    requires k in ws[n].store && k !in ws[n + 1].store
    ensures i < n && Acquires(ws, ops, i) && KeyAt(ws, ops, i) == k
    ensures ws[n].store[k] == LeaseAt(ws, ops, i) && ops[i].ctx == ops[n].ctx
    ensures ReleasesOwn(ws, ops, i, n) && forall m: nat :: i < m < n ==> !ReleasesOwn(ws, ops, i, m)
  {
    assert ws[n + 1] == Apply(ws[n], ops[n]);
    i := StoredIsLatest(ws, ops, n, k);
    ReachableInv(ws, ops, n);
    RunIsMonotone(ws, ops, i + 1, n);
    assert ws[i + 1] == Apply(ws[i], ops[i]);
    assert ws[n].issued[ops[i].token] == ops[i].ctx;
  }

  /** A token that was issued at step `m` is never issued again. */
  lemma TokensAreFresh(ws: seq<World>, ops: seq<Op>, m: nat, i: nat)
    requires Run(ws, ops) && m <= i < |ops| && ops[i].Enter?
    ensures ops[i].token !in ws[m].issued
  {
    RunIsMonotone(ws, ops, m, i);
  }

  /** Without entering again a context remembers the same token. */
  lemma {:induction false} TokenStays(ws: seq<World>, ops: seq<Op>, m: nat, n: nat, c: ContextId)
    requires Run(ws, ops) && m <= n < |ws| && c in ws[m].contexts
    requires forall j :: m <= j < n ==> !(ops[j].Enter? && ops[j].ctx == c)
    ensures c in ws[n].contexts && ws[n].contexts[c].lockValue == ws[m].contexts[c].lockValue
    decreases n - m
  {
    if m < n {
      TokenStays(ws, ops, m, n - 1, c);
      assert ws[n] == Apply(ws[n - 1], ops[n - 1]);
    }
  }

  /**
   Double release, over runs: once a context has released, no later release of
   it, manual or automatic, deletes anything until it enters again, whatever
   the other contexts did to the lock in between.
   */
  lemma DoubleReleaseIsIdle(ws: seq<World>, ops: seq<Op>, m: nat, n: nat)
    requires Run(ws, ops) && m < n < |ops| && Releases(ws, ops, m)
    requires (ops[n].Release? || ops[n].Exit?) && ops[n].ctx == ops[m].ctx
    requires forall j :: m < j < n ==> !(ops[j].Enter? && ops[j].ctx == ops[m].ctx)
    ensures ws[n + 1].store == ws[n].store
  {
    var c := ops[n].ctx;
    TokenStays(ws, ops, m, n, c);
    assert ws[n + 1] == Apply(ws[n], ops[n]);
    var k := ws[n].contexts[c].lockKey;
    if ws[n + 1].store != ws[n].store {
      var i := ReleaseDeletesOnlyOwn(ws, ops, n, k);
      assert ws[m].contexts[c].lockValue == Some(ops[i].token);
      ReachableInv(ws, ops, m);
      if m <= i {
        TokensAreFresh(ws, ops, m, i);
      } else {
        assert ReleasesOwn(ws, ops, i, m);
      }
    }
  }

  // ---------------------------------------------------- distinct memory ids

  /** A context of another key enters, releases or leaves. */
  predicate IsForeign(w: World, op: Op, k: string) {
    (op.Enter? || op.Exit? || op.Release?) && op.ctx in w.contexts && w.contexts[op.ctx].lockKey != k
  }

  /** The first `n` steps of a run without those of contexts of other keys. */
  ghost function OwnSteps(ws: seq<World>, ops: seq<Op>, n: nat, k: string): seq<Op>
    requires Run(ws, ops) && n <= |ops|
  {
    if n == 0 then [] else
    var front := OwnSteps(ws, ops, n - 1, k);
    if IsForeign(ws[n - 1], ops[n - 1], k) then front else front + [ops[n - 1]]
  }

  /** The two worlds look the same to the contexts of key `k`. */
  ghost predicate SameFor(k: string, w: World, v: World) {
    w.now == v.now && v.issued.Keys <= w.issued.Keys
    && SameLease(k, w.store, v.store) && SameContexts(k, w.contexts, v.contexts)
  }

  ghost predicate SameLease(k: string, s: Store, t: Store) {
    (k in s <==> k in t) && (k in s ==> s[k] == t[k])
  }

  ghost predicate SameContexts(k: string, cs: map<ContextId, Context>, ds: map<ContextId, Context>) {
    && cs.Keys == ds.Keys
    && forall c :: c in cs ==> cs[c].lockKey == ds[c].lockKey && (cs[c].lockKey == k ==> cs[c] == ds[c])
  }

  lemma ForeignStepIsUnseen(w: World, op: Op, v: World, k: string)
    requires Enabled(w, op) && IsForeign(w, op, k) && SameFor(k, w, v)
    ensures SameFor(k, Apply(w, op), v)
  {
  }

  lemma OwnStepIsTheSame(w: World, op: Op, v: World, k: string)
    requires Enabled(w, op) && !IsForeign(w, op, k) && SameFor(k, w, v)
    ensures Enabled(v, op) && SameFor(k, Apply(w, op), Apply(v, op))
  {
    OwnStepSameLease(w, op, v, k);
    OwnStepSameContexts(w, op, v, k);
  }

  lemma OwnStepSameLease(w: World, op: Op, v: World, k: string)
    requires Enabled(w, op) && !IsForeign(w, op, k) && SameFor(k, w, v)
    ensures Enabled(v, op) && SameLease(k, Apply(w, op).store, Apply(v, op).store)
  {
  }

  lemma OwnStepSameContexts(w: World, op: Op, v: World, k: string)
    requires Enabled(w, op) && !IsForeign(w, op, k) && SameFor(k, w, v)
    ensures Enabled(v, op) && SameContexts(k, Apply(w, op).contexts, Apply(v, op).contexts)
  {
  }

  /**
   Distinct memory ids never interfere. Leave out all that contexts of other
   ids do in a run: what is left is a run, and it ends with the same lease
   stored under the key and the same fields of each context of the key, so also
   with the same successes and failures to enter.
   */
  lemma {:induction false} OtherKeysUntouched(ws: seq<World>, ops: seq<Op>, n: nat, k: string)
    returns (vs: seq<World>)
    requires Run(ws, ops) && n <= |ops|
    ensures Run(vs, OwnSteps(ws, ops, n, k)) && SameFor(k, ws[n], vs[|vs| - 1])
    ensures forall c :: c in ws[n].contexts && ws[n].contexts[c].lockKey == k ==>
      EnterOutcome(ws[n].contexts[c], ws[n].store) ==
      EnterOutcome(vs[|vs| - 1].contexts[c], vs[|vs| - 1].store)
  {
    if n == 0 {
      vs := [START];
    } else {
      vs := OtherKeysUntouched(ws, ops, n - 1, k);
      var w, op, v := ws[n - 1], ops[n - 1], vs[|vs| - 1];
      assert ws[n] == Apply(w, op);
      if IsForeign(w, op, k) {
        ForeignStepIsUnseen(w, op, v, k);
      } else {
        OwnStepIsTheSame(w, op, v, k);
        RunExtends(vs, OwnSteps(ws, ops, n - 1, k), op);
        vs := vs + [Apply(v, op)];
      }
    }
  }

  // -------------------------------------------------------------- re-entry

  /** Between steps `i` and `n` the context of step `i` enters again, successfully or not. */
  ghost predicate Reentered(ops: seq<Op>, i: nat, n: nat)
    requires i < |ops| && n <= |ops| && ops[i].Enter?
  {
    exists m :: i < m < n && ops[m].Enter? && ops[m].ctx == ops[i].ctx
  }

  /** The context of acquisition `i` stays locked, and remembers the token of `i` exactly until it enters again. */
  lemma {:induction false} RemembersIff(ws: seq<World>, ops: seq<Op>, i: nat, n: nat)
    requires Run(ws, ops) && Acquires(ws, ops, i) && i < n < |ws|
    ensures ops[i].ctx in ws[n].contexts && ws[n].contexts[ops[i].ctx].locked
    ensures ws[n].contexts[ops[i].ctx].lockKey == KeyAt(ws, ops, i)
    ensures ws[n].contexts[ops[i].ctx].lockValue == Some(ops[i].token) <==> !Reentered(ops, i, n)
    decreases n
  {
    assert ws[n] == Apply(ws[n - 1], ops[n - 1]);
    if i < n - 1 {
      RemembersIff(ws, ops, i, n - 1);
      RunIsMonotone(ws, ops, i + 1, n - 1);
      assert ws[i + 1] == Apply(ws[i], ops[i]);
      assert Reentered(ops, i, n) <==>
             Reentered(ops, i, n - 1) || (ops[n - 1].Enter? && ops[n - 1].ctx == ops[i].ctx);
    }
  }

  /**
   Exactly when a release works. While the lease of acquisition `i` is stored,
   a release by its context, manual or automatic, deletes it if and only if
   the context has not entered again since.
   */
  lemma ReleaseOfStoredLeaseIff(ws: seq<World>, ops: seq<Op>, i: nat, n: nat)
    requires Run(ws, ops) && Acquires(ws, ops, i) && i < n < |ops|
    requires (ops[n].Release? || ops[n].Exit?) && ops[n].ctx == ops[i].ctx
    requires KeyAt(ws, ops, i) in ws[n].store && ws[n].store[KeyAt(ws, ops, i)] == LeaseAt(ws, ops, i)
    ensures KeyAt(ws, ops, i) !in ws[n + 1].store <==> !Reentered(ops, i, n)
  {
    RemembersIff(ws, ops, i, n);
    assert ws[n + 1] == Apply(ws[n], ops[n]);
  }

  /**
   The same over runs: before its timeout, and if nothing deleted the lock in
   between, a release frees the lock exactly when the context has not entered
   again since it obtained it.
   */
  lemma ReleaseFreesIff(ws: seq<World>, ops: seq<Op>, i: nat, n: nat)
    requires Run(ws, ops) && Acquires(ws, ops, i) && i < n < |ops|
    requires (ops[n].Release? || ops[n].Exit?) && ops[n].ctx == ops[i].ctx
    requires forall m: nat :: i < m < n ==> GentleAt(ws, ops, m) && !ReleasesOwn(ws, ops, i, m)
    requires ws[n].now < LeaseAt(ws, ops, i).expiry
    ensures KeyAt(ws, ops, i) !in ws[n + 1].store <==> !Reentered(ops, i, n)
  {
    LeasePersists(ws, ops, i, n);
    ReleaseOfStoredLeaseIff(ws, ops, i, n);
  }

  /**
   Entering a held context again forfeits its release for good: whatever it
   does from then on, the lock stays stored until its timeout.
   */
  lemma FailedReentryForfeitsRelease(ws: seq<World>, ops: seq<Op>, i: nat, r: nat, n: nat)
    requires Run(ws, ops) && Acquires(ws, ops, i) && i < r < n < |ws|
    requires ops[r].Enter? && ops[r].ctx == ops[i].ctx
    requires forall m: nat :: i < m < r ==> !ReleasesOwn(ws, ops, i, m)
    requires forall m: nat :: i < m < n ==> GentleAt(ws, ops, m)
    requires ws[n].now < LeaseAt(ws, ops, i).expiry
    ensures KeyAt(ws, ops, i) in ws[n].store && ws[n].store[KeyAt(ws, ops, i)] == LeaseAt(ws, ops, i)
  {
    forall m: nat | r <= m < n ensures !ReleasesOwn(ws, ops, i, m) {
      if r < m {
        RemembersIff(ws, ops, i, m);
      }
    }
    LeasePersists(ws, ops, i, n);
  }

  /**
   Such runs: a context that has just obtained the lock enters again, as when a
   block nests another one on the same object, and the exit of the inner block
   leaves the lock in the store.
   */
  lemma NestedEntryKeepsLock(ws: seq<World>, ops: seq<Op>, token: Token) returns (ws': seq<World>, ops': seq<Op>)
    requires Run(ws, ops) && |ops| > 0 && Acquires(ws, ops, |ops| - 1) && token !in ws[|ops|].issued
    ensures var i := |ops| - 1;
      && Run(ws', ops') && ops' == ops + [Enter(ops[i].ctx, token), Exit(ops[i].ctx)]
      && Acquires(ws', ops', i) && KeyAt(ws', ops', i) in ws'[|ops'|].store
  {
    var i := |ops| - 1;
    var c := ops[i].ctx;
    AcquiredIsStored(ws, ops, i);
    RemembersIff(ws, ops, i, |ops|);
    var entered := Apply(ws[|ops|], Enter(c, token));
    RunExtends(ws, ops, Enter(c, token));
    RunExtends(ws + [entered], ops + [Enter(c, token)], Exit(c));
    ws', ops' := ws + [entered] + [Apply(entered, Exit(c))], ops + [Enter(c, token)] + [Exit(c)];
    assert ops'[i] == ops[i] && ws'[i] == ws[i];
    assert ws'[|ops'|] == Apply(entered, Exit(c));
  }

  /** One of them: the context of "m" that holds leaves the inner of two nested blocks, and still holds. */
  lemma NestedBlocksOnOneObject() returns (ws: seq<World>, ops: seq<Op>)
    ensures Run(ws, ops)
    ensures ops == [Create(1, "m", 5), Create(2, "m", 5), Enter(1, 10), Enter(1, 11), Exit(1)]
    ensures Acquires(ws, ops, 2) && KeyAt(ws, ops, 2) in ws[5].store
  {
    ws, ops := HeldByFirst();
    ws, ops := NestedEntryKeepsLock(ws, ops, 11);
  }

  // -------------------------------------------------------------- cleanup

  /**
   `cleanup_expired_locks` looks at the time a lock has left. So its effect by
   age is upside down: in a run a stored lock survives a cleanup exactly when it
   is young, at least `maxAge` and half a second short of its timeout, and with
   `maxAge` no smaller than the timeout no lock survives.
   */
  lemma CleanupSparesOnlyLongLeases(ws: seq<World>, ops: seq<Op>, i: nat, n: nat)
    requires Run(ws, ops) && Acquires(ws, ops, i) && i < n < |ops| && ops[n].Cleanup?
    requires KeyAt(ws, ops, i) in ws[n].store && ws[n].store[KeyAt(ws, ops, i)] == LeaseAt(ws, ops, i)
    ensures var age, timeout := ws[n].now - ws[i].now, ws[i].contexts[ops[i].ctx].timeout;
      && (KeyAt(ws, ops, i) in ws[n + 1].store <==> age <= (timeout - ops[n].maxAge) * 1000 - 500)
      && (timeout <= ops[n].maxAge ==> KeyAt(ws, ops, i) !in ws[n + 1].store)
  {
    assert ws[n + 1] == Apply(ws[n], ops[n]);
    RunIsMonotone(ws, ops, i, n);
  }

  /** The keys of contexts are the lock keys of ids. */
  lemma {:induction false} KeysComeFromIds(ws: seq<World>, ops: seq<Op>, n: nat, c: ContextId)
    returns (memoryId: string)
    requires Run(ws, ops) && n < |ws| && c in ws[n].contexts
    ensures LockKey(memoryId) == Ok(ws[n].contexts[c].lockKey)
  {
    assert ws[n] == Apply(ws[n - 1], ops[n - 1]);
    if c in ws[n - 1].contexts {
      StepKeepsKeys(ws[n - 1], ops[n - 1], c);
      memoryId := KeysComeFromIds(ws, ops, n - 1, c);
    } else {
      memoryId := ops[n - 1].memoryId;
    }
  }

  lemma StepKeepsKeys(w: World, op: Op, c: ContextId)
    requires Enabled(w, op) && c in w.contexts
    ensures c in Apply(w, op).contexts && Apply(w, op).contexts[c].lockKey == w.contexts[c].lockKey
  {
  }

  /** An administrative step that is not gentle deletes a lock that was stored. */
  lemma UngentleDeletes(w: World, op: Op) returns (k: string)
    requires Enabled(w, op) && !Gentle(w, op)
    ensures IsAdmin(op) && k in w.store && k !in Apply(w, op).store && Apply(w, op).now == w.now
  {
    match op
    case ForceRelease(id) => k := LockKey(id).value;
    case Cleanup(maxAge) => k :| k in w.store && TtlSeconds(w.store[k], w.now) <= maxAge;
  }

  /** What an administrative step deletes is a lock that still holds. */
  lemma UngentleStepHitsHolder(ws: seq<World>, ops: seq<Op>) returns (i: nat)
    requires Run(ws, ops) && |ops| > 0 && !GentleAt(ws, ops, |ops| - 1)
    ensures i < |ops| && HoldsAt(ws, ops, i, |ops|, ws[|ops|].now) && KeyAt(ws, ops, i) !in ws[|ops|].store
  {
    var last := |ops| - 1;
    assert ws[|ops|] == Apply(ws[last], ops[last]);
    var k := UngentleDeletes(ws[last], ops[last]);
    i := StoredIsLatest(ws, ops, last, k);
    ReachableInv(ws, ops, last);
    RunIsMonotone(ws, ops, i, last);
  }

  /** If a deleted lock still holds, the next context of its key to enter holds at the same instant. */
  lemma NextEntryOverlaps(ws: seq<World>, ops: seq<Op>, i: nat, c: ContextId, token: Token)
    returns (ws': seq<World>, ops': seq<Op>)
    requires Run(ws, ops)
    requires HoldsAt(ws, ops, i, |ops|, ws[|ops|].now) && KeyAt(ws, ops, i) !in ws[|ops|].store
    requires Enabled(ws[|ops|], Enter(c, token))
    requires ws[|ops|].contexts[c].lockKey == KeyAt(ws, ops, i) && ws[|ops|].contexts[c].timeout > 0
    ensures ops' == ops + [Enter(c, token)] && Run(ws', ops') && ws <= ws'
    ensures KeyAt(ws', ops', i) == KeyAt(ws', ops', |ops|)
    ensures HoldsAt(ws', ops', i, |ops'|, ws[|ops|].now) && HoldsAt(ws', ops', |ops|, |ops'|, ws[|ops|].now)
  {
    RunExtends(ws, ops, Enter(c, token));
    ops' := ops + [Enter(c, token)];
    ws' := ws + [Apply(ws[|ops|], Enter(c, token))];
    assert ops'[i] == ops[i] && ws'[i] == ws[i];
    forall m: nat | m < |ops'| && ReleasesOwn(ws', ops', i, m) ensures ReleasesOwn(ws, ops, i, m) {
      assert ops'[m] == if m < |ops| then ops[m] else Enter(c, token);
    }
  }

  /**
   The condition is needed. Whenever the last step of a run is an administrative
   one that is not gentle, two contexts hold one key at one instant as soon as
   a new context for that key is created and enters.
   */
  lemma UngentleStepBreaksExclusion(ws: seq<World>, ops: seq<Op>, c: ContextId, token: Token, timeout: int)
    returns (ws': seq<World>, ops': seq<Op>, i: nat, memoryId: string)
    requires Run(ws, ops) && |ops| > 0 && !GentleAt(ws, ops, |ops| - 1)
    requires c !in ws[|ops|].contexts && token !in ws[|ops|].issued && timeout > 0
    ensures ops' == ops + [Create(c, memoryId, timeout), Enter(c, token)] && Run(ws', ops') && ws <= ws'
    ensures i < |ops| && ops'[i].Enter? && ops'[i].ctx != c && KeyAt(ws', ops', i) == KeyAt(ws', ops', |ops| + 1)
    ensures var now := ws[|ops|].now;
      HoldsAt(ws', ops', i, |ops'|, now) && HoldsAt(ws', ops', |ops| + 1, |ops'|, now)
  {
    i := UngentleStepHitsHolder(ws, ops);
    memoryId := KeysComeFromIds(ws, ops, i, ops[i].ctx);
    RunIsMonotone(ws, ops, i, |ops|);
    var create := Create(c, memoryId, timeout);
    RunExtends(ws, ops, create);
    var vs, qs := ws + [Apply(ws[|ops|], create)], ops + [create];
    HoldingCarriesOver(ws, ops, vs, qs, i);
    ws', ops' := NextEntryOverlaps(vs, qs, i, c, token);
  }

  /** A step that is no release leaves a holder holding. */
  lemma HoldingCarriesOver(ws: seq<World>, ops: seq<Op>, vs: seq<World>, qs: seq<Op>, i: nat)
    requires Run(ws, ops) && Run(vs, qs) && ws <= vs && |qs| == |ops| + 1 && ops <= qs && qs[|ops|].Create?
    requires HoldsAt(ws, ops, i, |ops|, ws[|ops|].now)
    ensures HoldsAt(vs, qs, i, |qs|, ws[|ops|].now) && KeyAt(vs, qs, i) == KeyAt(ws, ops, i)
  {
    assert qs[i] == ops[i] && vs[i] == ws[i];
    forall m: nat | m < |qs| && ReleasesOwn(vs, qs, i, m) ensures ReleasesOwn(ws, ops, i, m) {
      assert m < |ops| ==> qs[m] == ops[m] && vs[m] == ws[m];
    }
  }

  /** No instant lies in the holding intervals of two acquisitions of one key. */
  ghost predicate Exclusive(ws: seq<World>, ops: seq<Op>)
    requires Run(ws, ops)
  {
    forall i: nat, j: nat, x ::
      i < j < |ops| && HoldsAt(ws, ops, i, |ops|, x) && HoldsAt(ws, ops, j, |ops|, x) ==>
        KeyAt(ws, ops, i) != KeyAt(ws, ops, j)
  }

  /** `qs` goes on from `ops` without administrative deletions. */
  ghost predicate Continues(ws: seq<World>, ops: seq<Op>, vs: seq<World>, qs: seq<Op>)
    requires Run(ws, ops)
  {
    Run(vs, qs) && ws <= vs && ops <= qs && forall m: nat :: |ops| <= m < |qs| ==> GentleAt(vs, qs, m)
  }

  lemma {:induction false} FreshNumber(s: set<nat>) returns (n: nat)
    ensures forall k :: k in s ==> k < n
  {
    n := 0;
    if s != {} {
      var k :| k in s;
      var m := FreshNumber(s - {k});
      assert forall x :: x in s ==> x == k || x in s - {k};
      n := if k < m then m else k + 1;
    }
  }

  /**
   So gentleness is the exact condition on an administrative step: after steps
   that were gentle, exclusion is safe in every continuation if and only if
   that step is gentle as well.
   */
  lemma ExclusionIsSafeIffGentle(ws: seq<World>, ops: seq<Op>)
    requires Run(ws, ops) && |ops| > 0 && forall m: nat :: m < |ops| - 1 ==> GentleAt(ws, ops, m)
    ensures (forall vs, qs :: Continues(ws, ops, vs, qs) ==> Exclusive(vs, qs)) <==> GentleAt(ws, ops, |ops| - 1)
  {
    if GentleAt(ws, ops, |ops| - 1) {
      forall vs, qs | Continues(ws, ops, vs, qs) ensures Exclusive(vs, qs) {
        ContinuationExcludes(ws, ops, vs, qs);
      }
    } else {
      var c := FreshNumber(ws[|ops|].contexts.Keys);
      var token := FreshNumber(ws[|ops|].issued.Keys);
      var vs, qs, i, memoryId := UngentleStepBreaksExclusion(ws, ops, c, token, 1);
      assert Continues(ws, ops, vs, qs) && !Exclusive(vs, qs);
    }
  }

  lemma ContinuationExcludes(ws: seq<World>, ops: seq<Op>, vs: seq<World>, qs: seq<Op>)
    requires Run(ws, ops) && forall m: nat :: m < |ops| ==> GentleAt(ws, ops, m)
    requires Continues(ws, ops, vs, qs)
    ensures Exclusive(vs, qs)
  {
    forall m: nat | m < |qs| ensures GentleAt(vs, qs, m) {
      if m < |ops| {
        assert GentleAt(ws, ops, m) && vs[m] == ws[m] && qs[m] == ops[m];
      }
    }
    forall i: nat, j: nat, x | i < j < |qs| && HoldsAt(vs, qs, i, |qs|, x) && HoldsAt(vs, qs, j, |qs|, x)
      ensures KeyAt(vs, qs, i) != KeyAt(vs, qs, j)
    {
      if KeyAt(vs, qs, i) == KeyAt(vs, qs, j) {
        MutualExclusion(vs, qs, i, j, x);
      }
    }
  }

  /**
   With the defaults, a maximal age of 60 and a timeout of 5, this is what
   happens: contexts 1 and 2 both hold the lock of "m" at instant 0.
   */
  lemma DefaultCleanupBreaksExclusion() returns (ws: seq<World>, ops: seq<Op>)
    ensures Run(ws, ops) && ops == [Create(1, "m", 5), Create(2, "m", 5), Enter(1, 10), Cleanup(60), Enter(2, 20)]
    ensures KeyAt(ws, ops, 2) == KeyAt(ws, ops, 4)
    ensures HoldsAt(ws, ops, 2, |ops|, 0) && HoldsAt(ws, ops, 4, |ops|, 0)
  {
    ws, ops := HeldByFirst();
    RunExtends(ws, ops, Cleanup(60));
    ws, ops := ws + [Apply(ws[3], Cleanup(60))], ops + [Cleanup(60)];
    ws, ops := NextEntryOverlaps(ws, ops, 2, 2, 20);
  }

  /** Two contexts for "m"; the first has just acquired the lock. */
  lemma HeldByFirst() returns (ws: seq<World>, ops: seq<Op>)
    ensures Run(ws, ops) && ops == [Create(1, "m", 5), Create(2, "m", 5), Enter(1, 10)]
    ensures var key := LockKey("m").value;
      ws[3].store == map[key := Lease(10, 5000)] && ws[3].now == 0 && ws[3].issued == map[10 := 1]
      && 2 in ws[3].contexts && ws[3].contexts[2] == Context(key, 5, None, false)
      && ws[2].now == 0 && ws[2].store == map[]
      && 1 in ws[2].contexts && ws[2].contexts[1] == Context(key, 5, None, false)
  {
    var key := LockKey("m").value;
    var w1 := Apply(START, Create(1, "m", 5));
    var w2 := Apply(w1, Create(2, "m", 5));
    var w3 := Apply(w2, Enter(1, 10));
    ws, ops := [START, w1, w2, w3], [Create(1, "m", 5), Create(2, "m", 5), Enter(1, 10)];
  }
}
