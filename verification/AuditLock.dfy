/**
 The distributed audit lock of resync/core/audit_lock.py.

 `Store` is the part of Redis that the lock uses: a table from lock keys to a
 token and an expiry instant in milliseconds, whose entries vanish at their
 expiry. The classes change a store and their own fields in place; each of
 their methods is proved against a function on values, and AuditLockRuns.dfy
 builds whole runs from the same functions.

 Tokens are numbers; that a fresh one is new is stated where runs are defined.
 */
module AuditLock {
  import opened Wrappers

  type Token = nat

  datatype Lease = Lease(token: Token, expiry: int)

  type Store = map<string, Lease>

  datatype Error = InvalidMemoryId | NotAcquired | InvalidExpiry

  datatype Result<T> = Ok(value: T) | Err(error: Error)

  const LOCK_PREFIX := "audit_lock"

  /** The fields of one `AuditLockContext`. */
  datatype Context = Context(lockKey: string, timeout: int, lockValue: Option<Token>, locked: bool)

  function LockKey(memoryId: string): Result<string> {
    if |memoryId| == 0 then Err(InvalidMemoryId) else Ok(LOCK_PREFIX + ":" + memoryId)
  }

  /** Two memory ids never share a lock key. */
  lemma LockKeysAreDistinct(a: string, b: string)
    requires LockKey(a).Ok? && LockKey(a) == LockKey(b)
    ensures a == b
  {
    var n := |LOCK_PREFIX| + 1;
    assert LockKey(a).value[n..] == a && LockKey(b).value[n..] == b;
  }

  lemma LockKeyIs(memoryId: string)
    ensures LockKey(memoryId) == if memoryId == "" then Err(InvalidMemoryId) else Ok("audit_lock:" + memoryId)
  {
    assert "audit_lock" + ":" == "audit_lock:";
  }

  // --------------------------------------------------- the store's commands

  /** Entries vanish when the clock reaches their expiry. */
  function Expire(store: Store, now: int): Store {
    map k | k in store && now < store[k].expiry :: store[k]
  }

  /** SET with NX and PX. */
  function SetIfAbsent(store: Store, now: int, key: string, token: Token, px: int): Store {
    if key in store then store else store[key := Lease(token, now + px)]
  }

  /** The release script: delete if the stored token is the given one. */
  function CompareAndDelete(store: Store, key: string, token: Token): Store {
    if key in store && store[key].token == token then store - {key} else store
  }

  /** What Redis reports as the time to live: seconds, rounded to the nearest. */
  function TtlSeconds(lease: Lease, now: int): int {
    (lease.expiry - now + 500) / 1000
  }

  /** What `cleanup_expired_locks(max_age)` deletes: all that have no more than `maxAge` left. */
  function Cleaned(store: Store, now: int, maxAge: int): Store {
    map k | k in store && TtlSeconds(store[k], now) > maxAge :: store[k]
  }

  // ------------------------------------------------------ the context's steps

  function EnterOutcome(c: Context, store: Store): Result<()> {
    if c.timeout <= 0 then Err(InvalidExpiry)
    else if c.lockKey in store then Err(NotAcquired)
    else Ok(())
  }

  /** `__aenter__`: the fresh token is remembered even when the lock is not obtained. */
  function EnterContext(c: Context, store: Store, token: Token): Context {
    c.(lockValue := Some(token), locked := c.locked || EnterOutcome(c, store).Ok?)
  }

  function EnterStore(c: Context, store: Store, now: int, token: Token): Store {
    if c.timeout <= 0 then store else SetIfAbsent(store, now, c.lockKey, token, c.timeout * 1000)
  }

  /** `release`, and `__aexit__` of a context that was once locked. */
  function ReleaseStore(c: Context, store: Store): Store {
    if c.lockValue.None? then store else CompareAndDelete(store, c.lockKey, c.lockValue.value)
  }

  function ExitStore(c: Context, store: Store): Store {
    if c.locked then ReleaseStore(c, store) else store
  }

  // -------------------------------------------------------------- in place

  class RedisStore {
    var now: int
    var entries: Store

    constructor (start: int)
      ensures now == start && entries == map[]
    {
      now, entries := start, map[];
    }

    method Advance(ms: nat)
      modifies this
      ensures now == old(now) + ms && entries == Expire(old(entries), now)
    {
      now := now + ms;
      entries := map k | k in entries && now < entries[k].expiry :: entries[k];
    }

    method SetNx(key: string, token: Token, px: int) returns (success: bool)
      requires px > 0
      modifies this`entries
      ensures success <==> key !in old(entries)
      ensures entries == SetIfAbsent(old(entries), now, key, token, px)
    {
      success := key !in entries;
      if success {
        entries := entries[key := Lease(token, now + px)];
      }
    }

    method RunReleaseScript(key: string, token: Token) returns (deleted: nat)
      modifies this`entries
      ensures entries == CompareAndDelete(old(entries), key, token)
      ensures deleted == if entries != old(entries) then 1 else 0
    {
      deleted := 0;
      if key in entries && entries[key].token == token {
        entries := entries - {key};
        deleted := 1;
      }
    }

    method Delete(key: string) returns (deleted: nat)
      modifies this`entries
      ensures entries == old(entries) - {key}
      ensures deleted == if key in old(entries) then 1 else 0
    {
      deleted := if key in entries then 1 else 0;
      ghost var before := entries;
      entries := entries - {key};
      assert key !in before ==> entries == before;
    }
  }

  class AuditLockContext {
    const client: RedisStore
    const lockKey: string
    const timeout: int
    var lockValue: Option<Token>
    var locked: bool

    function Model(): Context
      reads this
    {
      Context(lockKey, timeout, lockValue, locked)
    }

    constructor (client: RedisStore, lockKey: string, timeout: int)
      ensures this.client == client && Model() == Context(lockKey, timeout, None, false)
    {
      this.client, this.lockKey, this.timeout := client, lockKey, timeout;
      lockValue, locked := None, false;
    }

    method Enter(token: Token) returns (r: Result<()>)
      modifies this, client`entries
      ensures r == EnterOutcome(old(Model()), old(client.entries))
      ensures Model() == EnterContext(old(Model()), old(client.entries), token)
      ensures client.entries == EnterStore(old(Model()), old(client.entries), client.now, token)
    {
      lockValue := Some(token);
      if timeout <= 0 {
        return Err(InvalidExpiry);
      }
      var success := client.SetNx(lockKey, token, timeout * 1000);
      if success {
        locked := true;
        r := Ok(());
      } else {
        r := Err(NotAcquired);
      }
    }

    method Exit()
      modifies client`entries
      ensures client.entries == ExitStore(Model(), old(client.entries))
    {
      if locked && lockValue.Some? {
        var _ := ReleaseLock();
      }
    }

    /** Returns whether the script deleted the entry. */
    method ReleaseLock() returns (released: bool)
      modifies client`entries
      ensures client.entries == ReleaseStore(Model(), old(client.entries))
      ensures released <==> client.entries != old(client.entries)
    {
      if lockValue.None? {
        return false;
      }
      var result := client.RunReleaseScript(lockKey, lockValue.value);
      released := result == 1;
    }

    method Release()
      modifies client`entries
      ensures client.entries == ReleaseStore(Model(), old(client.entries))
    {
      var _ := ReleaseLock();
    }
  }

  class DistributedAuditLock {
    const client: RedisStore

    constructor (client: RedisStore)
      ensures this.client == client
    {
      this.client := client;
    }

    method Acquire(memoryId: string, timeout: int) returns (r: Result<AuditLockContext>)
      ensures r.Ok? <==> LockKey(memoryId).Ok?
      ensures r.Ok? ==> fresh(r.value) && r.value.client == client
      ensures r.Ok? ==> r.value.Model() == Context(LockKey(memoryId).value, timeout, None, false)
    {
      match LockKey(memoryId)
      case Err(e) => r := Err(e);
      case Ok(key) =>
        var c := new AuditLockContext(client, key, timeout);
        r := Ok(c);
    }

    method IsLocked(memoryId: string) returns (r: Result<bool>)
      ensures match LockKey(memoryId)
        case Err(e) => r == Err(e)
        case Ok(key) => r == Ok(key in client.entries)
    {
      match LockKey(memoryId)
      case Err(e) => r := Err(e);
      case Ok(key) => r := Ok(key in client.entries);
    }

    method ForceRelease(memoryId: string) returns (r: Result<bool>)
      modifies client`entries
      ensures match LockKey(memoryId)
        case Err(e) => r == Err(e) && client.entries == old(client.entries)
        case Ok(key) => r == Ok(key in old(client.entries)) && client.entries == old(client.entries) - {key}
    {
      match LockKey(memoryId)
      case Err(e) => r := Err(e);
      case Ok(key) =>
        var result := client.Delete(key);
        r := Ok(result == 1);
    }

    /** One pass over all lock keys, at one instant. */
    method CleanupExpiredLocks(maxAge: int) returns (cleaned: nat)
      modifies client`entries
      ensures client.entries == Cleaned(old(client.entries), client.now, maxAge)
      ensures cleaned == |old(client.entries)| - |client.entries|
    {
      ghost var before := client.entries;
      var todo := client.entries.Keys;
      cleaned := 0;
      while todo != {}
        invariant todo <= client.entries.Keys <= before.Keys
        invariant forall k :: k in client.entries ==> client.entries[k] == before[k]
        invariant forall k :: k in before && k !in todo ==>
          (k in client.entries <==> TtlSeconds(before[k], client.now) > maxAge)
        invariant cleaned == |before| - |client.entries|
        decreases todo
      {
        var key :| key in todo;
        if TtlSeconds(client.entries[key], client.now) <= maxAge {
          RemovalCounts(client.entries, key);
          var _ := client.Delete(key);
          cleaned := cleaned + 1;
        }
        todo := todo - {key};
      }
      assert client.entries == Cleaned(before, client.now, maxAge);
    }
  }

  lemma RemovalCounts(m: Store, key: string)
    requires key in m
    ensures |m - {key}| == |m| - 1
  {
    assert (m - {key}).Keys == m.Keys - {key};
  }

  /** A store in which "m" is held for five seconds with token 10. */
  method HeldForFiveSeconds() returns (store: RedisStore, holder: AuditLockContext)
    ensures fresh(store) && fresh(holder) && holder.client == store
    ensures store.now == 0 && store.entries == map["audit_lock:m" := Lease(10, 5000)]
    ensures holder.Model() == Context("audit_lock:m", 5, Some(10), true)
  {
    store := new RedisStore(0);
    holder := new AuditLockContext(store, "audit_lock:m", 5);
    var r := holder.Enter(10);
    assert r == Ok(());
    assert store.entries == map["audit_lock:m" := Lease(10, 5000)];
  }

  /** It can be entered by another context exactly from the fifth second on. */
  method EnterAfter(ms: nat) returns (held: Result<bool>, r: Result<()>)
    ensures held == Ok(ms < 5000)
    ensures r == if ms < 5000 then Err(NotAcquired) else Ok(())
  {
    var store, _ := HeldForFiveSeconds();
    store.Advance(ms);
    var locks := new DistributedAuditLock(store);
    LockKeyIs("m");
    assert "audit_lock:" + "m" == "audit_lock:m";
    held := locks.IsLocked("m");
    var other := new AuditLockContext(store, "audit_lock:m", 5);
    r := other.Enter(20);
  }

  /** Its holder releases it, another context that has failed to enter does not. */
  method ReleaseBy(own: bool) returns (held: Result<bool>)
    ensures held == Ok(!own)
  {
    var store, holder := HeldForFiveSeconds();
    var locks := new DistributedAuditLock(store);
    LockKeyIs("m");
    assert "audit_lock:" + "m" == "audit_lock:m";
    if own {
      holder.Release();
    } else {
      var other := new AuditLockContext(store, "audit_lock:m", 5);
      var r := other.Enter(20);
      assert r == Err(NotAcquired);
      other.Release();
    }
    held := locks.IsLocked("m");
  }

  /** Without a positive timeout nothing is obtained, and without an id there is no lock at all. */
  method Rejected() returns (r: Result<()>, held: Result<bool>)
    ensures r == Err(InvalidExpiry) && held == Err(InvalidMemoryId)
  {
    var store := new RedisStore(0);
    var locks := new DistributedAuditLock(store);
    var timeless := new AuditLockContext(store, "audit_lock:m", 0);
    r := timeless.Enter(30);
    assert store.entries == map[];
    held := locks.IsLocked("");
  }
}
