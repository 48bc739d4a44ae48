# Verified models of resync's stateful components

This Dafny project models six components of resync and proves properties of
them over unbounded runs:

- the dependency-aware memory cache (`DependencyGraph`, `CacheInvalidation`,
  `AdvancedCache`, `CacheRuns`, `CacheGraphRuns`, `CacheServing`, `CacheEviction`),
- the distributed audit lock (`AuditLock`, `AuditLockRuns`),
- the gateway's rate limiter, load balancer, response cache and running mean
  (`RateLimiter`, `LoadBalancer`, `ResponseCache`),
- the dependency injection container (`Container`),
- the login lockout (`Lockout`),
- the alerting state machine (`Alerting`, `AlertingRules`).

`dafny verify dfyconfig.toml` checks everything.

Each component has a class with the fields of the source, updated in place. Its
methods are proved against functions or step relations on values, and the
theorems are about runs of those steps. What the functions mean is stated a
second time without them, in the numbers and fields of the source, and for each
component some concrete calls are followed through its methods. Clock readings, latencies, random
draws, fresh tokens and ids, sizes and fetched values are inputs. Times and
means are exact numbers; lockout times are whole microseconds, as in the source.

## Where the code cannot run as written

The model follows the evident intent in these places.

- `_set_memory_entry` awaits `_evict_entries` while it holds the same
  non-reentrant lock (resync/core/advanced_cache.py:562-571 and :621); eviction
  is part of the insertion step.
- `should_evict` is a property that is called like a method
  (resync/core/advanced_cache.py:58-69 and :690); it is read as the property.
- `get` calls `_set_memory`, which does not exist, on a Redis hit
  (resync/core/advanced_cache.py:331); the Redis layer is not modelled.
- A stray `[misc]` follows the two script calls at
  resync/core/audit_lock.py:281 and :294; it is ignored.
- `RateLimitRule.get_key` calls a method of another class
  (resync/api/gateway.py:142); the limiter key is an input.

## What turned out not to hold

Where the code misses a property, the model keeps the code, states exactly when
the property holds, and gives an input for which it does not.

- A rate limit is not always enforced. The deque of admissions holds 1000
  entries, and the cleanup pass drops what is older than an hour. The bound
  holds over all runs exactly under the condition of `RateLimiter.EnforcedIff`;
  cleanup changes no decision exactly under that of
  `RateLimiter.CleanupNeverShowsIff`.
- The time to live that was set does not bound the age of what the cache
  serves, because the warming loop extends it. From a given instant on a hit can
  outlive it exactly when a warming pass extended it since and the extended time
  is not over by then (`CacheRuns.OutlivesSetTtlIff`); `CacheRuns.ExtendedIff`
  says which entries a pass extends. `CacheRuns.WarmedValueOutlivesItsTtl` is a
  run in which a value is served too late, and
  `CacheRuns.LateExtensionServesNothing` one whose extension comes too late to
  matter.
- `cleanup_expired_locks` compares the time a lock has left with `max_age`,
  although its documentation speaks of age
  (`AuditLockRuns.CleanupSparesOnlyLongLeases`). With the defaults it deletes
  every held lock, and two contexts hold at once
  (`AuditLockRuns.DefaultCleanupBreaksExclusion`). An administrative step leaves
  exclusion safe exactly when it deletes no stored lock
  (`AuditLockRuns.ExclusionIsSafeIffGentle`).
- A context that holds the lock cannot always release it: its release works
  exactly when it has not entered again since it obtained the lock
  (`AuditLockRuns.ReleaseFreesIff`). Otherwise the lock stays until its timeout
  (`AuditLockRuns.FailedReentryForfeitsRelease`). Two nested blocks on one
  context do that: `AuditLockRuns.NestedBlocksOnOneObject`.
- On a clock that runs back the response cache can lose a valid response;
  `ResponseCache.LookupAgreesIff` says exactly when a lookup is right.
- Eviction does not always take the longest idle of entries alike in size and
  hit rate. It does exactly at hit rates below 2 a minute
  (`CacheEviction.IdleGoFirstIff`); above, the order turns round.
- The retry time of a denial at the burst limit need not suffice, unlike that of
  a denial at the limit (`RateLimiter.LimitRetrySuffices`). It does exactly when
  `RateLimiter.BurstRetrySufficesIff` says.
- Evicting the middle of a dependency chain shortens later cascades
  (`CacheInvalidation.EvictionShortensCascades`). What a cascade then reaches is
  stated exactly, for one eviction by `CacheInvalidation.CascadeAfterEviction`
  and over whole runs by `CacheGraphRuns.CascadeFollowsStanding`.
- Resolution need not terminate. It does exactly when following the dependencies
  that are resolved leads to no cycle (`Container.TerminatesIffNoCycle`); a class
  that asks for itself is an input (`Container.SelfReferenceNeverTerminates`).
- Concurrent logins can leave more than five attempts: 4 plus the number of
  calls in flight is the exact bound (`Lockout.BoundIsExact`). Then the reported
  time ends before the lock does; `Lockout.OldestTellsIff` says exactly when.
- The objective check of the alerting system ignores `enabled`, so a disabled
  rule can raise an alert: `Alerting.DisabledRuleRaisesIff` says exactly when.
- The comment at resync/core/advanced_cache.py:627 says that lower scores are
  evicted first; the code evicts the highest, and so does the model.

## Model

| member | source | states |
|---|---|---|
| DependencyGraph.ConversePreserved | resync/core/advanced_cache.py:148-200 | recording dependencies or tags and removing keys keep the forward and reverse maps converse relations |
| DependencyGraph.GraphIsExact | resync/core/advanced_cache.py:148-200 | after any run of additions and removals both dependency maps hold exactly the edges declared since the last removal of their dependent end, and the tags likewise |
| DependencyGraph.ReachIsLeastClosedSet | resync/core/advanced_cache.py:170-186 | reachability by non-empty walks is the least closed set holding the direct dependents |
| DependencyGraph.InOwnReachIffOnCycle | resync/core/advanced_cache.py:170-186 | a key is in its own cascade exactly when it lies on a cycle |
| DependencyGraph.CascadeSearch.CollectDependents | resync/core/advanced_cache.py:175-183 | the depth-first search terminates on any finite graph; every newly visited key has all its dependents collected, and only reachable keys are collected |
| DependencyGraph.CacheDependencyGraph.AddDependency | resync/core/advanced_cache.py:148-151 | both maps gain the one edge |
| DependencyGraph.CacheDependencyGraph.AddTags | resync/core/advanced_cache.py:153-156 | the key joins the set of each listed tag and of no other |
| DependencyGraph.CacheDependencyGraph.CascadeInvalidate | resync/core/advanced_cache.py:170-186 | the result is exactly the keys reachable by a non-empty walk, cycles included |
| DependencyGraph.CacheDependencyGraph.RemoveKey | resync/core/advanced_cache.py:188-200 | the three dictionaries lose the key as dependent, as source of reverse edges and as tagged key |
| CacheInvalidation.RemovedEdgesHideNothing | resync/core/advanced_cache.py:170-200 | edges removed by earlier invalidations never hide a key that was not already removed |
| CacheInvalidation.InvalidateEachIsUnion | resync/core/advanced_cache.py:398-434 | a list of cascading invalidations purges the union of what its keys reach in the first graph, and the counts add up to the cached keys in it |
| CacheInvalidation.InvalidationsAreConfluent | resync/core/advanced_cache.py:398-434 | lists naming the same keys, in any order and with repetitions, leave the same entries, edges and tags and the same total |
| CacheInvalidation.InvalidateExactly | resync/core/advanced_cache.py:407-430 | exactly the key and what it reaches leave the cache; every other entry is unchanged |
| CacheInvalidation.InvalidateCountsDrop | resync/core/advanced_cache.py:405-434 | the returned count is the drop in cache size |
| CacheInvalidation.CachedIsSize | resync/core/advanced_cache.py:409-422 | counting keys one at a time, in any order, counts the cached ones |
| CacheInvalidation.InvalidateIsolates | resync/core/advanced_cache.py:427-430 | afterwards nothing depends on the key or on anything that went with it |
| CacheInvalidation.SecondCallIsIdle | resync/core/advanced_cache.py:398-434 | an immediate second call returns 0 and changes nothing |
| CacheInvalidation.CascadeAfterEviction | resync/core/advanced_cache.py:188-200 | after keys were evicted, a cascade reaches exactly what a walk reaches without entering an evicted key |
| CacheInvalidation.EvictionShortensCascades | resync/core/advanced_cache.py:641-644 | a concrete chain whose end survives once its middle was evicted |
| AdvancedCache.AdvancedCacheManager.constructor | resync/core/advanced_cache.py:215-242 | a new manager is empty, with 10000 entries and 104857600 bytes as limits and all counters at 0 |
| AdvancedCache.AdvancedCacheManager.Get | resync/core/advanced_cache.py:297-350 | a cached value no older than its time to live is returned and counts one hit and no miss; else one miss and no hit, and the result is what the fetch gives, which is then cached; the whole is a run of at most three steps |
| AdvancedCache.AdvancedCacheManager.Set | resync/core/advanced_cache.py:351-396 | a set evicts as the limits demand, inserts the entry with every field as given, files its dependencies and tags, and refreshes the size statistics |
| AdvancedCache.AdvancedCacheManager.Invalidate | resync/core/advanced_cache.py:398-434 | entries, graph, statistics and count are those of one invalidation on values |
| AdvancedCache.AdvancedCacheManager.InvalidateByTag | resync/core/advanced_cache.py:436-445 | exactly the cached keys filed under the tag go, and are counted; the graph stays |
| AdvancedCache.AdvancedCacheManager.GetFromMemory | resync/core/advanced_cache.py:539-558 | the value if the entry is no older than its time to live, else nothing and the entry is gone; other entries stay |
| AdvancedCache.AdvancedCacheManager.SetMemoryEntry | resync/core/advanced_cache.py:560-573 | room is made by at most two evictions, by count and then by bytes, before the entry goes in |
| AdvancedCache.AdvancedCacheManager.EvictEntries | resync/core/advanced_cache.py:619-644 | the quota of entries goes, from cache and graph, and none that goes scores less than one that stays |
| AdvancedCache.AdvancedCacheManager.Cleanup | resync/core/advanced_cache.py:686-697 | an entry stays, unchanged, exactly when it is within its time to live and not both older than an hour and hit less than 0.1 times a minute |
| AdvancedCache.AdvancedCacheManager.Warm | resync/core/advanced_cache.py:709-735 | exactly the hot entries whose dynamic time to live is longer get it; nothing else changes |
| AdvancedCache.AdvancedCacheManager.Shutdown | resync/core/advanced_cache.py:267-293 | all entries go; graph and statistics stay |
| AdvancedCache.AdvancedCacheManager.RecordHit | resync/core/advanced_cache.py:646-665 | one more hit, request and layer hit, and the next running mean |
| AdvancedCache.AdvancedCacheManager.RecordMiss | resync/core/advanced_cache.py:667-678 | one more miss and request, and the next running mean |
| AdvancedCache.TotalSize | resync/core/advanced_cache.py:135-137 | the size is the sum over all entries, in whatever order it is taken |
| AdvancedCache.SortedByScore | resync/core/advanced_cache.py:623-633 | all keys without repetition, none scoring less than a later one |
| AdvancedCache.HeadIsEviction | resync/core/advanced_cache.py:633-640 | the head of such a list has the size of the quota and outranks the rest |
| CacheRuns.EvictionTakesQuota | resync/core/advanced_cache.py:635-644 | an eviction removes exactly the quota, counts it, and keeps coherence |
| CacheRuns.ReachableIsSound | resync/core/advanced_cache.py:351-445 | in every reachable state each cached entry's dependencies and tags are in the graph, the maps are converse, a positive entry limit holds and the statistics add up |
| CacheRuns.NothingStaleAfterInvalidate | resync/core/advanced_cache.py:398-434 | after a cascading invalidation no surviving entry declares a key that went |
| CacheRuns.NothingTaggedAfterInvalidateTag | resync/core/advanced_cache.py:436-445 | after an invalidation by tag no surviving entry carries the tag |
| CacheRuns.CascadeCompletes | resync/core/advanced_cache.py:398-434 | without the cascade every other entry and the whole graph stay, and a later cascade ends in exactly the state of the cascade alone |
| CacheRuns.ManagerInvalidationsAreConfluent | resync/core/advanced_cache.py:398-434 | the order of invalidations changes neither entries, graph nor statistics of the manager |
| CacheRuns.CachedMeansFresh | resync/core/advanced_cache.py:297-445 | in every run a cached entry is the one last set, its time to live at most extended, and no step since invalidated it, a declared dependency, their dependents or a tag of it |
| CacheRuns.HitIsLatestValue | resync/core/advanced_cache.py:320-324 | what is served is the value last set for the key, within the time to live in force: the one set or its latest extension |
| CacheRuns.TtlGrowsIff | resync/core/advanced_cache.py:723-727 | the time to live in force is never below the one set, and above it exactly when a warming pass extended it since |
| CacheRuns.OutlivesSetTtlIff | resync/core/advanced_cache.py:54-56 | from a given instant on a cached value can be served beyond the time to live set for it if and only if a warming pass extended it since and the extended time is not over by then |
| CacheRuns.OutlivesFromNowIff | resync/core/advanced_cache.py:54-56 | the same from the latest clock reading of the run on: it was extended and has not expired by that reading |
| CacheRuns.ExtendedIff | resync/core/advanced_cache.py:71-90 | which hot entries a warming pass extends, by access frequency, hit rate and present time to live |
| CacheRuns.DynamicTtlIs | resync/core/advanced_cache.py:71-90 | the dynamic time to live of any entry, in numbers |
| CacheRuns.AccessesPerHourIs | resync/core/advanced_cache.py:84 | accesses per hour, counted for at least an hour |
| CacheRuns.WarmedValueOutlivesItsTtl | resync/core/advanced_cache.py:709-735 | a concrete run in which a value set for 300 seconds is served at 400 |
| CacheRuns.LateExtensionServesNothing | resync/core/advanced_cache.py:709-735 | a concrete run whose extension comes after expiry, so that nothing is served beyond the set time |
| CacheRuns.UsageIsExact | resync/core/advanced_cache.py:549-554 | in every run an entry's access count and last access are exactly those of its life in the cache |
| CacheRuns.LatencyMeansAreExact | resync/core/advanced_cache.py:646-678 | in every reachable state each running mean times the number of recorded hits or misses is the sum of their latencies |
| CacheRuns.CountersAreExact | resync/core/advanced_cache.py:646-678 | in every reachable state the hit and miss counters are the numbers of recorded hits and misses |
| CacheGraphRuns.RunGraphIsExact | resync/core/advanced_cache.py:148-200 | after any run of the cache the graph holds exactly the edges and tags that a put declared and whose dependent end no eviction, cleanup or cascade removed since |
| CacheGraphRuns.CascadeFollowsStanding | resync/core/advanced_cache.py:398-434 | over whole runs a cascade takes the key and what a walk along such standing edges leads to, and nothing else |
| CacheGraphRuns.RoomIsUnique | resync/core/advanced_cache.py:560-573 | the states before and after a put tell which entries it evicted, even its own key |
| CacheServing.EntryIsExact | resync/core/advanced_cache.py:30-60 | in every run each field of a cached entry is what its latest put gave, or follows from how often and when it was served since, the hit rate included |
| CacheServing.PresentIff | resync/core/advanced_cache.py:351-445 | over whole runs a key is cached if and only if it was put and no step since evicted, expired, invalidated, cleaned up or shut it down |
| CacheServing.ServedIff | resync/core/advanced_cache.py:539-556 | over whole runs a key is found alive if and only if its latest put was not taken out since and its time to live in force is not over, and then with the value put |
| CacheServing.SetThenGet | resync/core/advanced_cache.py:297-350 | set for 300 seconds: a hit with the value at 10 and at 300, a miss at 301 |
| CacheEviction.EvictionPrefers | resync/core/advanced_cache.py:623-644 | of two entries alike in the other two respects the one that goes has been idle longer, is larger or is hit less often, at hit rates below 2 |
| CacheEviction.IdleGoFirstIff | resync/core/advanced_cache.py:626-633 | eviction takes the longer idle of entries alike in size and hit rate if and only if that hit rate is below 2 a minute |
| CacheEviction.PutEvicts | resync/core/advanced_cache.py:560-573 | how many entries a put evicts, by count and by bytes, a tenth each time but at least one |
| CacheEviction.PutSparesAll | resync/core/advanced_cache.py:560-573 | a put evicts nothing if there is room by both limits |
| CacheEviction.PutRefreshesSizes | resync/core/advanced_cache.py:391-396 | a put sets the number of entries and the sum of their sizes |
| CacheEviction.CountsAreSums | resync/core/advanced_cache.py:430-434 | in every run the invalidation counter is what invalidations took, and the eviction counter what puts and cleanups evicted |
| CacheEviction.ReturnedIsTaken | resync/core/advanced_cache.py:398-445 | an invalidation returns how many entries it took |
| CacheEviction.LayersAreCounted | resync/core/advanced_cache.py:659-665 | in every run each layer's counter is the number of its recorded hits |
| CacheEviction.ThreePuts | resync/core/advanced_cache.py:560-573 | with room for two entries the third put evicts the idle one |
| AuditLock.LockKeysAreDistinct | resync/core/audit_lock.py:74-86 | different memory ids have different lock keys |
| AuditLock.LockKeyIs | resync/core/audit_lock.py:74-86 | the key is the prefix, a colon and the id; an empty id is rejected |
| AuditLock.AuditLockContext.Enter | resync/core/audit_lock.py:236-253 | succeeds exactly on an absent key, with the given token and timeout; the token is remembered in any case |
| AuditLock.AuditLockContext.Exit | resync/core/audit_lock.py:255-258 | releases only a context that was once locked |
| AuditLock.AuditLockContext.ReleaseLock | resync/core/audit_lock.py:260-308 | deletes the entry exactly when it holds this context's token |
| AuditLock.AuditLockContext.Release | resync/core/audit_lock.py:325-327 | the same, on request |
| AuditLock.DistributedAuditLock.Acquire | resync/core/audit_lock.py:88-105 | an empty id is rejected, any other gives a fresh unlocked context |
| AuditLock.DistributedAuditLock.IsLocked | resync/core/audit_lock.py:107-123 | tells whether the id's key is stored, or rejects the id |
| AuditLock.DistributedAuditLock.ForceRelease | resync/core/audit_lock.py:125-146 | deletes the id's entry whoever holds it, and says whether there was one |
| AuditLock.DistributedAuditLock.CleanupExpiredLocks | resync/core/audit_lock.py:148-183 | keeps exactly the entries with more than the given seconds left and counts the others |
| AuditLock.EnterAfter | resync/core/audit_lock.py:236-253 | a lock held for five seconds can be entered by another exactly from the fifth second on |
| AuditLock.ReleaseBy | resync/core/audit_lock.py:260-308 | its holder releases it, one that failed to enter does not |
| AuditLock.Rejected | resync/core/audit_lock.py:236-253 | without a positive timeout nothing is obtained |
| AuditLockRuns.MutualExclusion | resync/core/audit_lock.py:236-308 | over whole runs of any number of contexts, two holding intervals of one key never share an instant, if no administrative step deletes a held lock |
| AuditLockRuns.EnterSucceedsIffFree | resync/core/audit_lock.py:236-253 | a context obtains the lock if and only if no earlier acquisition of the key holds at that instant |
| AuditLockRuns.StoredIsLatest | resync/core/audit_lock.py:125-308 | in every run the stored token is that of the latest successful acquisition, which has not been released since |
| AuditLockRuns.ReleaseDeletesOnlyOwn | resync/core/audit_lock.py:255-308 | in every run a release deletes only an entry that the same context wrote |
| AuditLockRuns.DoubleReleaseIsIdle | resync/core/audit_lock.py:255-308 | in every run, after a release no later release of the same context, manual or automatic, changes the store until it enters again |
| AuditLockRuns.OtherKeysUntouched | resync/core/audit_lock.py:236-308 | over runs, leaving out all steps of contexts of other ids leaves a run with the same lease, the same contexts and the same outcomes of entering for this id |
| AuditLockRuns.ReleaseFreesIff | resync/core/audit_lock.py:236-308 | over runs, a release by the holder before its timeout frees the lock if and only if it has not entered again since it obtained it |
| AuditLockRuns.FailedReentryForfeitsRelease | resync/core/audit_lock.py:236-258 | once the holder has entered again, its lock stays stored until the timeout whatever it does |
| AuditLockRuns.NestedEntryKeepsLock | resync/core/audit_lock.py:236-258 | whoever has just obtained the lock, enters again and leaves once still has it in the store |
| AuditLockRuns.NestedBlocksOnOneObject | resync/core/audit_lock.py:236-258 | a concrete run of two nested blocks on one context |
| AuditLockRuns.CleanupSparesOnlyLongLeases | resync/core/audit_lock.py:173-178 | in a run a stored lock survives a cleanup exactly when its age is at most its timeout less the given age and half a second |
| AuditLockRuns.UngentleStepBreaksExclusion | resync/core/audit_lock.py:125-183 | after any administrative step that deletes a stored lock, a new context that enters makes two holders at one instant |
| AuditLockRuns.ExclusionIsSafeIffGentle | resync/core/audit_lock.py:125-183 | exclusion is safe in every continuation of an administrative step if and only if the step deletes no stored lock |
| AuditLockRuns.DefaultCleanupBreaksExclusion | resync/core/audit_lock.py:148-183 | a concrete run with the default age and timeout in which two contexts hold |
| RateLimiter.Limiter.CheckRateLimits | resync/api/gateway.py:443-474 | excluded paths pass; otherwise the decision and the deque of this key follow from pruning, and other keys stay |
| RateLimiter.Limiter.CleanOldCounts | resync/api/gateway.py:769-773 | every deque loses its front entries older than an hour |
| RateLimiter.DequeTracksHistory | resync/api/gateway.py:450-474 | the pruned deque is the history of admissions less what is out of every later window |
| RateLimiter.DecisionsCountWholeHistory | resync/api/gateway.py:461-474 | each decision is the one that counting all past admissions in the window gives |
| RateLimiter.CleanupIsInvisible | resync/api/gateway.py:769-773 | for windows up to an hour, leaving out all cleanup passes changes no decision |
| RateLimiter.AdmittedIff | resync/api/gateway.py:450-474 | a request is admitted exactly when the effective limit L is positive and the L-th latest admission is missing or out of the window |
| RateLimiter.AnswersByHistory | resync/api/gateway.py:461-474 | by the admissions in the window: at the limit a denial for a window, below it but at a burst limit a denial for a quarter of it, else an admission |
| RateLimiter.LimitRetrySuffices | resync/api/gateway.py:464-465 | after a denial at the limit every request later than the reported time is admitted |
| RateLimiter.BurstRetrySufficesIff | resync/api/gateway.py:467-469 | after a denial at a burst limit of b the reported time suffices if and only if the b-th latest admission is a window old by then |
| RateLimiter.ThreeRequests | resync/api/gateway.py:443-474 | concrete calls: admitted, denied for 60 or 15 seconds, admitted after a minute; another key and an excluded path pass |
| RateLimiter.AdmittedAfterWindow | resync/api/gateway.py:454-459 | a denied key is admitted strictly after one window without admissions |
| RateLimiter.RateIsBounded | resync/api/gateway.py:430-474 | no closed interval of window length holds more admissions than the effective limit, in any run |
| RateLimiter.EnforcedIffWithinCap | resync/api/gateway.py:451-472 | without cleanup passes the bound holds over all runs if and only if the effective limit is at most 1000 |
| RateLimiter.EnforcedIff | resync/api/gateway.py:451-472 | over all runs of requests and cleanup passes the bound holds if and only if the limit is at most 1000 and the window at most an hour, apart from rules that admit nothing and negative windows |
| RateLimiter.CleanupForgetsLongWindows | resync/api/gateway.py:769-773 | for every window above an hour a cleanup pass changes some decision |
| RateLimiter.CleanupNeverShowsIff | resync/api/gateway.py:769-773 | cleanup changes no decision in any run if and only if the window is at most an hour, or the limit admits nothing or exceeds 1000 |
| LoadBalancer.Balancer.AddService | resync/api/gateway.py:283-286 | the list of the service grows at its end and every stored index stays in range |
| LoadBalancer.Balancer.SelectServiceEndpoint | resync/api/gateway.py:516-559 | what each strategy selects, with the round-robin index as the only change |
| LoadBalancer.Balancer.LeastLoaded | resync/api/gateway.py:535-540 | the first of the endpoints with fewest connections |
| LoadBalancer.Balancer.PickWeighted | resync/api/gateway.py:548-559 | the first index whose cumulative weight reaches the draw; the fallback is never reached |
| LoadBalancer.RoundRobinCounts | resync/api/gateway.py:530-533 | of m selections on n endpoints each gets m / n turns, and one more exactly if it is next in line |
| LoadBalancer.RoundRobinIsFair | resync/api/gateway.py:530-533 | no endpoint is ever ahead of another by more than one turn |
| LoadBalancer.SelectByTurns | resync/api/gateway.py:530-533 | consecutive calls select the endpoints that are counted |
| LoadBalancer.FourTurns | resync/api/gateway.py:530-533 | three endpoints: the first, second, third and first again |
| LoadBalancer.FirstIdle | resync/api/gateway.py:535-540 | of two endpoints without connections the first |
| LoadBalancer.SomeoneOwns | resync/api/gateway.py:549-559 | every draw in range falls to some endpoint |
| LoadBalancer.WeightedIsProportional | resync/api/gateway.py:542-557 | precisely weight-many of the draws select an endpoint |
| LoadBalancer.WeightedDraw | resync/api/gateway.py:542-559 | weights 2, 0 and 1: the draws 1 and 2 take the first endpoint, 3 the last |
| ResponseCache.Cache.GetCachedResponse | resync/api/gateway.py:693-708 | a hit while the time is not up, else a miss that drops both table entries |
| ResponseCache.Cache.CacheResponse | resync/api/gateway.py:710-719 | both tables get the key's new response and expiry |
| ResponseCache.Cache.CleanExpired | resync/api/gateway.py:759-767 | exactly the keys past their expiry leave both tables |
| ResponseCache.CacheIsTimedMap | resync/api/gateway.py:693-767 | on a monotone clock lookups return what the history of stores says, so lazy deletion and cleanup are not observable |
| ResponseCache.ServedUntilExpiry | resync/api/gateway.py:693-719 | on a monotone clock the last stored response is served at every instant before its time is up and at none from then on |
| ResponseCache.OneMinute | resync/api/gateway.py:693-719 | stored for a minute: served at 59.5 seconds, not at 60 |
| ResponseCache.CleanupAtTheEnd | resync/api/gateway.py:759-767 | a cleanup pass at the very end keeps it, a later one does not |
| ResponseCache.LookupAgreesIff | resync/api/gateway.py:693-767 | on any clock a lookup returns what the history says if and only if the last stored response is not one that is valid now but was deleted by an event that read a later clock |
| ResponseCache.BackwardClockLosesResponses | resync/api/gateway.py:693-708 | a concrete history on which it does not |
| ResponseCache.RunningMeanIsMean | resync/api/gateway.py:394-402 | the running mean is the mean of all response times |
| Container.Container.Register | resync/api_gateway/container.py:52-57 | the registration is stored, a singleton is cached at once, and a container only configured stays so |
| Container.Container.RegisterSingleton | resync/api_gateway/container.py:59-62 | as a registration whose implementation is marked |
| Container.Container.Resolve | resync/api_gateway/container.py:68-93 | for any registrations, the outcome is the one they determine whatever was resolved or failed before, unless constructors nest deeper than the interpreter allows; success returns the cached instance, failure leaves the interface uncached |
| Container.Container.InstantiateWithDependencies | resync/api_gateway/container.py:95-120 | success builds one object with the right arguments, failure builds none for this interface, and nothing but what its parameters need is cached |
| Container.ResolvesIff | resync/api_gateway/container.py:68-120 | for any registrations, an interface resolves exactly when it is given, or every parameter resolves or is defaulted |
| Container.FailureIsExact | resync/api_gateway/container.py:68-120 | for any registrations, which error: not registered, the first parameter that fails, or a missing argument |
| Container.OutcomeIsDepthFree | resync/api_gateway/container.py:68-120 | the outcome does not depend on how deep constructors may nest, once there is one |
| Container.TerminatesIffNoCycle | resync/api_gateway/container.py:68-120 | for any registrations, resolution terminates if and only if the dependencies that are resolved, followed from the interface on, lead to no cycle |
| Container.AcyclicTerminates | resync/api_gateway/container.py:68-120 | so it terminates if no cycle of constructors is in reach, whatever cycles there are elsewhere |
| Container.SelfReferenceNeverTerminates | resync/api_gateway/container.py:84-118 | a class that asks for itself does not resolve at any depth; after a missing dependency without default it fails with a ValueError instead |
| Container.RightArgsStable | resync/api_gateway/container.py:103-118 | later resolutions never change what an object had to be given |
| Container.SoundAfterBuilt | resync/api_gateway/container.py:85-89 | caching a freshly built object keeps every object's dependencies the cached instances |
| Container.BuiltAtMostOnce | resync/api_gateway/container.py:70-89 | no interface is ever built twice |
| Container.BuiltWithCached | resync/api_gateway/container.py:103-118 | a built object was given, for each annotated parameter in order and by name, the instance cached for it, or the default if there is none |
| Container.ServiceWithStore | resync/api_gateway/container.py:68-120 | a class with a registered and a missing dependency, both with defaults: the object built for it and the default |
| Container.ConfiguredIsSound | resync/api_gateway/container.py:47-62 | a container that was only configured is ready for resolution |
| Lockout.SecureAuthenticator.VerifyCredentials | resync/api/auth.py:46-118 | on a monotone clock refuses if and only if 5 failures since the last success lie in the last 900 seconds; otherwise success resets the address and failure is recorded |
| Lockout.SecureAuthenticator.RecordFailedAttempt | resync/api/auth.py:126-141 | the attempt joins the list of its address, and attempts 15 minutes old leave it |
| Lockout.SecureAuthenticator.IsLockedOut | resync/api/auth.py:151-164 | tells whether five attempts are recent |
| Lockout.SecureAuthenticator.GetLockoutRemaining | resync/api/auth.py:166-175 | the whole minutes until the oldest attempt is 15 minutes old, or 0 |
| Lockout.LockedByFullHistory | resync/api/auth.py:46-164 | an address is locked exactly when five of all failures since its last success are recent, for interleaved calls too |
| Lockout.LockedIffFiveRecent | resync/api/auth.py:151-164 | an address is locked if and only if at least 5 failures since its last success lie less than 900 seconds back, counted among all events |
| Lockout.RightPasswordAfter | resync/api/auth.py:46-118 | the right password after four failures is accepted, after five refused with 14 minutes to go |
| Lockout.LockedIffFifthLatestIsRecent | resync/api/auth.py:151-164 | a lock lasts until the fifth-latest attempt is 15 minutes old |
| Lockout.AttemptsAreBounded | resync/api/auth.py:56-141 | with k calls in flight at once the list never exceeds 4 + k entries |
| Lockout.BoundIsExact | resync/api/auth.py:56-141 | 4 + k is attained for every k, so the list has at most five entries in all runs exactly if at most one call is in flight |
| Lockout.SequentialLockEndsWithOldest | resync/api/auth.py:151-175 | for sequential calls a locked list has five entries and unlocks exactly when the oldest is 15 minutes old |
| Lockout.OldestTellsIff | resync/api/auth.py:166-175 | in general the oldest attempt tells the end of the lock exactly when it is as old as the fifth-latest |
| Lockout.ReportedMinutesAreTight | resync/api/auth.py:171-175 | the reported minutes never overshoot the end and miss it by less than a minute |
| Lockout.ConcurrentCallsOutlastTheReport | resync/api/auth.py:56-175 | a concrete run of six concurrent calls that is still locked when the reported time is up |
| Alerting.AlertingSystem.constructor | resync/core/alerting.py:149-160 | a new system has the ten initial rules and no alerts |
| Alerting.AlertingSystem.EvaluateRules | resync/core/alerting.py:231-299 | raises what objectives and then rules ask for, in order, and returns exactly the alerts it appended |
| Alerting.AlertingSystem.FindActiveAlert | resync/core/alerting.py:318-327 | tells whether an unacknowledged alert of the rule and metric is active |
| Alerting.AlertingSystem.AcknowledgeAlert | resync/core/alerting.py:425-437 | the alert with the id moves to the history, marked; true exactly if there was one |
| Alerting.AlertingSystem.AddRule | resync/core/alerting.py:439-441 | the rule comes last |
| Alerting.AlertingSystem.RemoveRule | resync/core/alerting.py:443-445 | the rules of other names stay, in order |
| Alerting.ReachableInv | resync/core/alerting.py:231-445 | in every run active alerts are unacknowledged and distinct in rule and metric, history is acknowledged, and each alert ever created is in exactly one place |
| Alerting.FiringRulesAreActive | resync/core/alerting.py:270-294 | after an evaluation every enabled rule whose condition is met has an active alert |
| Alerting.NewAlertsHaveReasons | resync/core/alerting.py:231-299 | each new alert reports a rule that fires or answers for a missed objective, and was not active before |
| Alerting.ReevaluationIsIdle | resync/core/alerting.py:231-299 | evaluating the same metrics again changes nothing |
| Alerting.SloRequestsIff | resync/config/slo.py:70-100 | objective alerts are asked for exactly by indicators missing or off target that have an objective rule |
| Alerting.RemovedRuleIsSilent | resync/core/alerting.py:443-445 | a removed rule raises no alert |
| Alerting.ActiveAfterEvaluationIff | resync/core/alerting.py:231-299 | a rule has an active alert after an evaluation if and only if it had one, or an enabled rule of its name and metric fires, or it answers for a missed objective |
| Alerting.DisabledRuleRaisesIff | resync/core/alerting.py:237-264 | a disabled rule, alone of its name and metric, raises an alert if and only if it is the first objective rule for an indicator off target |
| Alerting.DisabledObjectiveRuleStillRaises | resync/core/alerting.py:241-264 | a concrete disabled objective rule that raises an alert for a missing metric |
| Alerting.CompliantMetricsAreQuiet | resync/config/slo.py:30-67 | with the initial rules, metrics that meet every objective ask for no alert |
| Alerting.AcknowledgedRuleRaisesAgain | resync/core/alerting.py:425-437 | acknowledging frees the rule, and an evaluation in which it still fires raises it again |
| AlertingRules.SloRuleIsFirst | resync/core/alerting.py:242-251 | the rule that answers for an indicator is the first on it whose name begins with slo_, and there is none only if no rule is such |
| AlertingRules.ThresholdRuleRaisesIff | resync/core/alerting.py:270-294 | an enabled rule alone of its name and metric raises an alert if and only if the value compares with the threshold as its condition says |
| AlertingRules.RulesInOrder | resync/core/alerting.py:270-294 | rules are asked in their order, each on its own |
| AlertingRules.IndicatorsInOrder | resync/core/alerting.py:241-264 | indicators are asked in their order, each on its own |
| AlertingRules.OneIndicator | resync/core/alerting.py:241-264 | an indicator asks its first objective rule if it is missing, with the value 0, or off its target |
| AlertingRules.ObjectivesComeFirst | resync/core/alerting.py:231-299 | alerts of missed objectives come before those of thresholds |
| AlertingRules.FirstThresholdAlerts | resync/core/alerting.py:162-229 | which threshold alerts a new system raises, in numbers |
| AlertingRules.FirstObjectiveAlerts | resync/config/slo.py:30-67 | which objective alerts a new system raises, in numbers: indicator missing or off its target |
| AlertingRules.SlowResponses | resync/core/alerting.py:231-299 | a response time of 600 with the rest on target raises one alert, of its objective |
| AlertingRules.AcknowledgeMovesFirst | resync/core/alerting.py:425-437 | the first alert with the id ends the history, marked, and the others keep their places |
| AlertingRules.RemovalInOrder | resync/core/alerting.py:443-445 | removal keeps the order of the rules |

## Left out

- Redis and network access, the HTTP client, logging and notifications; for the lock, Redis is a table whose entries vanish at their expiry instant.
- The Redis layer of the cache and the TTL policies; `invalidate_by_pattern` and `warm_cache`, which are sequences of steps that are modelled.
- The cache's byte limit as a bound: an insertion evicts at most twice, and the byte statistic is refreshed only by a set.
- AdvancedCache.AdvancedCacheManager.EvictEntries: does not fix which of equal scores goes first, because any order is allowed here; in the source it is the insertion order of the dictionary.
- AdvancedCache.AdvancedCacheManager.Set: is one step, because coherence is a property of completed sets; interleavings at its awaits are not modelled.
- AuditLock.DistributedAuditLock.CleanupExpiredLocks: is one pass at one instant, so nothing happens between its reads and its deletions. A deletion that comes later has the effect of a `ForceRelease` step of `AuditLockRuns`, so what is proved there of every run covers it.
- Alerting.AlertingSystem.EvaluateRules: is one step on one metrics snapshot.
- Connection failures and script errors of the lock, and the format check of its tokens, which every generated token passes.
- Choice of the rate-limit rule and of the key for a request; several rules sharing one key.
- Regular expressions, route matching, authentication, circuit breakers and the rest of the gateway's request pipeline.
- Balance of the least-connections strategy, because selection and counting are separate steps in the source.
- The interpreter's limit on recursion, beyond counting how deep constructors nest in the container; a very long dependency chain would exceed it in the cascade as well.
- Container factories, variadic constructor parameters, disposal, and registration after resolution.
- Sharing of the singleton mark between registrations of one class object.
- Hashing of credentials, delays, tokens and the endpoints of the authentication module.
- Alerting.AlertingSystem.AcknowledgeAlert: treats an alert as a value, so a copy a caller holds does not change when it is acknowledged.
- Notification, escalation and the snapshot of metrics in the alerting system.
