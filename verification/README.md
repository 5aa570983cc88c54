# Counter service: verified model

This project models the core of a multi-tenant counter service that keeps its state in
PostgreSQL, and proves what that core is for: counters that always agree with their operation
ledger, requests that take effect once however often they are retried, a rate limiter that never
lets through more than it promises, caches that do not lie, listings that miss no row, and
conditional writes that lose no update. `dafny verify dfyconfig.toml` checks everything.

## How the model is built

- **Schema, Transactions.** The tables are maps, except that the operations table is the sequence
  of its rows in the order in which they were committed; that order is a device of the model and
  no statement depends on it. A write transaction is an object with its own view; `BeginWrite`
  joins an outer transaction if there is one, and only the owner commits.
- **Ledger, CounterStore, LedgerRuns.** `Ledger` gives each of create, increment and set as one
  serial step and proves what every step keeps. `CounterStore` carries the same requests out
  statement by statement and is proved to do exactly the serial step. `LedgerRuns` interleaves the
  statements of any number of transactions under READ COMMITTED, with row locks, unique-key waits,
  rollbacks and answers lost after the commit. The knowledge a transaction has is tied to its
  locks; a commit changes nothing beyond what its locks name, so every interleaving equals a serial
  run, and the theorems about serial steps carry over to all interleavings.
- **RequestHash.** The byte string that is hashed for a mutation. SHA-256 itself is taken to be
  collision free, so a hash is represented by what was hashed.
- **Idempotency, WrappedHandlers, IdempotencyRuns.** The replay wrapper as one call, first around any
  handler that is a function of the transaction's view, then around the create and metadata
  handlers as they are: they begin and finish scopes of their own on the wrapper's transaction. In
  the interleaved steps a handler begins and finishes such scopes by the same joining rule. The
  advisory lock is an arbitrary function of scope and key, so lock collisions are covered.
- **Json, CanonicalJson, ReplayDecoder, MetadataDocument.** JSON as trees and token streams; the
  canonical body in the request hash; the recursive decoder loops; the depth check of documents.
  The case folding of the canonical form and the one by which decoding matches fields are two
  arbitrary functions; names that match as fields must fold alike.
- **TokenBucket, RateLimiter.** One lane of a bucket as arithmetic, the bucket and limiter objects,
  and runs of requests and cleanup sweeps. Times are nanoseconds.
- **LruModel, MemoryCache, RedisCache.** The in-memory cache as a list of slots; the map and linked
  elements that implement it; the three Redis scripts over a value map and two sorted sets.
- **ReadThrough, CacheRaces.** The service with its cache, with whole calls atomic and with calls
  split into steps.
- **Order, Pagination, Reconciliation.** Sorted listings cut into pages by keyset cursors, and the
  batch loop that compares counters with their operations.
- **MetadataStore, MetadataRuns.** Conditional writes as one step, as a store, and interleaved.

## Findings

- A retried set is answered with its stored result if and only if the distance to the value of
  that moment fits in 64 bits (internal/store/counter.go:276-292 checks before it looks for a
  replay). `Ledger.RetryReplaysIffInRange` gives the exact condition and
  `Ledger.RetriedSetCanOverflow` a family of runs in which the retry is refused.
- docs/api-v2.md:431 says that a cached read may be stale until invalidation or expiry. The code
  gives less: a read that is overtaken by a mutation and its successful invalidation caches the old
  row afterwards, and hits return it until it expires (`CacheRaces.OvertakenReadIsStale`). What
  counts is the store read behind the hit, not the fill and not the invalidation.
  `CacheRaces.HitAfterOneChange`: where one step changes the row, a hit is the current row if and
  only if that read came after the step. `CacheRaces.ClockedHitIsCurrentIff`: where effective
  mutations carry increasing times, a hit is the current row if and only if none took effect since
  that read. Both follow from `CacheRaces.HitIsCurrentIff`, which asks only that a row does not come
  back to an earlier state.
- Redis breaks ties between equal LRU scores by the bytes of the member
  (internal/cache/readcache.go:178-184 pops the lowest), so a set may evict the very key it wrote.
  The contract of `RedisCache.Server.SetScript` says exactly when: if and only if the live values no
  longer fit and every other live key was used in the same microsecond and comes after the written
  key (`RedisCache.NewestGoneIff`). `RedisCache.SetLosesItsOwnKey` shows it at every cache size.

## Conventions

Ids are canonical lower-case text. The first reply to a mutation carries the service's clock and a
replay the stored time, so replies are compared by operation id, delta and value. md5 and SHA-256
are collision free, drawn versions are fresh, and no tenant id is the empty string.

## Model

| member | source | states |
|---|---|---|
| RequestHash.BigEndianRoundTrip | internal/service/counter.go:301-315 | eight big-endian bytes give back the number they encode |
| RequestHash.EncodeLayout | internal/service/counter.go:301-315 | the bytes that recorded hashes depend on: version tag, then kind, tenant and counter each after its length, then the value in two's complement |
| RequestHash.FieldIsPrefixFree | internal/service/counter.go:301-315 | a length-prefixed field and what follows it can be told apart in only one way |
| RequestHash.EncodeIsInjective | internal/service/counter.go:293-315 | for all field lengths, two mutations with the same hashed bytes have the same kind, tenant, counter and signed 64-bit value |
| RequestHash.MutationRequestHash | internal/service/counter.go:301-315 | the loop that feeds the hash writes exactly the injective encoding |
| Transactions.BeginWrite | internal/database/transaction.go:54-72 | joins the outer transaction without owning it, or opens one on the committed state |
| Transactions.Finish | internal/database/transaction.go:54-78 | only the owner commits or rolls back; for a joined transaction nothing happens |
| Ledger.FindMeansKeyed | internal/store/counter.go:350-361 | looking up an operation finds nothing exactly when no row has that tenant and id |
| Ledger.CreateOutcome | internal/store/counter.go:38-84 | a create succeeds exactly when id and label are free, the tenant exists and the initial operation id is free, with the refusals in order; the row carries the requested label, value, maximum and time, and nothing else changes |
| Ledger.NoCounterNoMutation | internal/store/counter.go:165-177 | a mutation of a counter that the tenant does not have is refused and changes nothing |
| Ledger.FreshIncrement | internal/store/counter.go:213-243 | under a new id an increment succeeds if and only if its delta is positive, at most the counter's maximum, and the sum fits in 64 bits; the refusals come in this order; the whole new state is spelled out |
| Ledger.FreshSet | internal/store/counter.go:276-336 | under a new id a set succeeds if and only if the distance fits in 64 bits and a known actor's audit id is free; the whole new state, with the audit id, is spelled out |
| Ledger.HistoryHolds | internal/store/counter.go:38-336 | a counter's history holds exactly its own rows, as often as the table does |
| Ledger.ApplyKeepsLimits | internal/store/counter.go:213-218 | no request changes a counter's maximum or records an increment beyond it |
| Ledger.ApplyWritesOneOperation | internal/store/counter.go:38-336 | every request changes nothing, or writes one settled operation under a new id and moves one counter from its before to its after value |
| Ledger.ChainAddsUp | internal/store/counter.go:38-336 | along an unbroken chain the deltas add up to the value, over unbounded integers, and exactly one operation is the initial value |
| Ledger.StepKeepsChain | internal/store/counter.go:38-336 | one operation extends the chain of its own counter by one step and moves no other chain |
| Ledger.StepKeepsConsistent | internal/store/counter.go:38-336 | one operation keeps all chains, all operation keys unique and every row settled |
| Ledger.ApplyKeepsConsistent | internal/store/counter.go:38-336 | every create, increment and set keeps the ledger consistent |
| Ledger.ResolveIffSameRequest | internal/store/counter.go:350-372 | a stored operation answers a request if and only if that request wrote it; every other one is told that the key was reused, never that it is in progress |
| Ledger.OtherRequestChangesNothing | internal/store/counter.go:153-372 | a different request under a used operation id changes nothing and fails |
| Ledger.RetryReplaysIffInRange | internal/store/counter.go:276-292 | a retry changes nothing and gets the stored result if and only if the range check of a set passes; otherwise it is an overflow |
| Ledger.RetriedSetCanOverflow | internal/store/counter.go:276-292 | on any counter not at the smallest value and for any actor, two sets and a retry of the first show the refusal |
| CounterStore.CompleteReserved | internal/store/counter.go:231-237 | completing by tenant and operation id completes exactly the row that this transaction reserved |
| CounterStore.Store.CreateCounter | internal/store/counter.go:38-84 | alone it is the serial create; inside an outer transaction it commits nothing, answers the same and leaves the writes of a success in that transaction's view |
| CounterStore.Store.IncrementCounter | internal/store/counter.go:153-243 | statement by statement it does the serial increment and every error path leaves the committed state alone; inside an outer transaction it commits nothing and leaves the writes of a success in that transaction's view |
| CounterStore.Store.SetCounterValue | internal/store/counter.go:253-336 | the same for set, alone or joined, with the range check before the replay and the audit row in the same transaction |
| LedgerRuns.StatementKeepsKnowledge | internal/store/counter.go:153-336 | each statement leaves the transaction knowing what its locks guarantee |
| LedgerRuns.StatementTakesOneLock | internal/store/counter.go:165-204 | a statement acquires at most the one lock it asked for |
| LedgerRuns.CommitStaysWithinLocks | internal/store/counter.go:38-336 | a commit agrees with the earlier state on every counter, label, operation and audit id that its locks do not name |
| LedgerRuns.CommitKeepsKnowledge | internal/store/counter.go:165-204 | no commit can falsify what another transaction has read under its own locks |
| LedgerRuns.CommitIsSerial | internal/store/counter.go:38-336 | publishing the private writes at commit time equals the whole request done at that moment |
| LedgerRuns.StopIsSerial | internal/store/counter.go:153-336 | a refusal is the answer of the serial step at that moment |
| LedgerRuns.AnswerIsRecorded | internal/store/counter.go:153-372 | the reply to a mutation is the stored row of that very request, claims a first execution only for a new id, and never reports a pending or incomplete operation |
| LedgerRuns.AnswersStayRecorded | internal/store/counter.go:153-372 | later requests keep every earlier answer true |
| LedgerRuns.ExecuteKeepsInv | internal/store/counter.go:38-336 | a statement of any transaction keeps consistency, lock disjointness, knowledge and truthful answers |
| LedgerRuns.CommitKeepsInv | internal/store/counter.go:38-336 | so does a commit, delivered or not |
| LedgerRuns.RunKeepsInv | internal/store/counter.go:38-336 | so does every run |
| LedgerRuns.IncrementsStayWithinLimits | internal/store/counter.go:213-218 | in every reachable state of every interleaving each recorded increment is positive and at most its counter's maximum |
| LedgerRuns.LedgerIsConserved | internal/store/counter.go:38-336 | in every reachable state of every interleaving each counter's operations, in commit order, form a chain from 0 to its value, add up to it, hold one initial value, and no pending row is committed; the value fits in 64 bits |
| LedgerRuns.InterleavingsAreSerializable | internal/store/counter.go:38-336 | every interleaving ends in the state of its requests executed one after the other |
| LedgerRuns.OperationsTakeEffectOnce | internal/store/counter.go:153-372 | over any run with retries an operation id is written once, two successful replies under it have equal operation id, delta and value and answer the same request, and the later one is a replay |
| LedgerRuns.StepsWriteOneOperation | internal/store/counter.go:38-336 | every step of every run changes nothing or writes one operation and moves one counter by its delta |
| LedgerRuns.WaitingClimbs | internal/store/counter.go:165-330 | a transaction only waits for one that is further in the order of locks |
| LedgerRuns.NoWaitCycle | internal/store/counter.go:165-330 | no chain of waiting transactions returns to its start |
| LedgerRuns.SomeTransactionCanStep | internal/store/counter.go:165-330 | while any transaction is unfinished, some transaction can take a step or commit |
| Idempotency.Open | internal/handlers/idempotency.go:38-91 | an expired record is purged, a live one answers the call, and otherwise the call owns a transaction on the committed state without the record |
| Idempotency.Conclude | internal/handlers/idempotency.go:96-131 | a 2xx answer commits the handler's view together with its record; any other answer rolls both back |
| Idempotency.IdempotentMutation | internal/handlers/idempotency.go:24-132 | a keyed call is one step on the database: replay, conflict, or execution with its record; a malformed key is refused and a call without key passes through |
| Idempotency.EffectsCommitWithTheirRecord | internal/handlers/idempotency.go:38-131 | without a valid record, the handler's database and a record valid for 24 hours are committed together if and only if the status is from 200 to 299 (and a secret can be taken out where one is issued); every other call leaves the database unchanged, and another request under the key gets 409 |
| Idempotency.RetryIsReplayed | internal/handlers/idempotency.go:51-131 | within 24 hours a retry gets the saved status, content type, body and the headers ETag and Cache-Control, without the secret on credential routes, and runs nothing |
| WrappedHandlers.ServeCreate | internal/handlers/counter.go:31-72 | the create handler, alone or joined, has the effect and the answer of the serial create; joined it commits nothing |
| WrappedHandlers.CreateAnswers | internal/handlers/counter.go:56-70 | 404 without the tenant, 409 when id or label is taken, 201 with the counter otherwise; only a 201 changes the database |
| WrappedHandlers.WrappedCreate | internal/handlers/idempotency.go:24-132 | the wrapped create route, whose own transaction joins the wrapper's, is the wrapper's single step with the serial create as handler |
| WrappedHandlers.CreateCommitsWithItsRecord | internal/handlers/idempotency.go:94-131 | the counter of a wrapped create enters the database exactly when its replay record does; otherwise nothing changes |
| WrappedHandlers.ServeMetadata | internal/handlers/metadata.go:32-71 | the metadata handler, alone or joined, checks preconditions and limits and then does the serial write; joined it commits nothing |
| WrappedHandlers.MetadataAnswers | internal/handlers/metadata.go:32-90 | 428 and 400 for the preconditions, 413 and 400 for documents beyond 65536 bytes or 64 levels, then 404, 400, 412, 204, 200 or 201 with ETag and no-store by the outcome of the write; only a 2xx answer changes the database |
| WrappedHandlers.WrappedMetadata | internal/handlers/idempotency.go:24-132 | the wrapped put and delete routes are the wrapper's single step with the serial conditional write as handler |
| WrappedHandlers.MetadataCommitsWithItsRecord | internal/handlers/idempotency.go:94-131 | a wrapped metadata write that is not replayed, passes its checks and finds no fault is committed as the serial write together with its replay record; otherwise nothing changes |
| IdempotencyRuns.InnerKeepsInv | internal/database/transaction.go:54-78 | a scope that a handler begins on the wrapper's transaction never owns it, so finishing it either way leaves the database and the invariant alone |
| IdempotencyRuns.CommitKeepsRecord | internal/handlers/idempotency.go:38-131 | at a commit every earlier record under the key had expired when the transaction began |
| IdempotencyRuns.CommitKeepsInv | internal/handlers/idempotency.go:38-131 | a commit keeps locks exclusive, records sourced and executions a day apart |
| IdempotencyRuns.RunKeepsInv | internal/handlers/idempotency.go:24-132 | so does every run of interleaved calls, for every advisory lock function |
| IdempotencyRuns.ExecutionsAreADayApart | internal/migrations/000008_add_idempotency_requests.up.sql:11 | two committed executions under one scope and key belong to transactions that began at least 24 hours apart |
| IdempotencyRuns.ReplaysRepeatAnExecution | internal/handlers/idempotency.go:51-131 | every replayed answer repeats a committed execution of the same request, without the secret on credential routes |
| IdempotencyRuns.CommitIsServe | internal/handlers/idempotency.go:24-132 | an interleaved execution does what the whole call does in one step at commit time |
| IdempotencyRuns.EndIsServe | internal/handlers/idempotency.go:51-100 | an interleaved call that is replayed, in conflict or refused by its handler is answered as in one step and leaves the database alone |
| IdempotencyRuns.OnlyCommitsChangeTheDatabase | internal/handlers/idempotency.go:24-132 | no other step of a wrapped call changes the database, not even the commit of a scope the handler opened, and each commit adds one execution |
| Json.TokensArePrefixFree | internal/handlers/idempotency.go:176-222 | a document's token stream cannot be confused with another one, whatever follows |
| Json.TokensAreInjective | internal/handlers/idempotency.go:134-172 | different documents have different token streams |
| Json.DocumentPeaksAtDepth | internal/service/metadata.go:34-64 | over the tokens of a document the running depth returns to zero and peaks at the nesting depth |
| MetadataDocument.ValidateMetadata | internal/service/metadata.go:34-64 | the token loop accepts exactly the valid documents of at most 65536 bytes and depth at most 64 |
| CanonicalJson.ReencodingRoundTrip | internal/handlers/idempotency.go:134-172 | re-encoding a decoded value and decoding it again gives the value back |
| CanonicalJson.ReencodingStaysInsensitive | internal/handlers/idempotency.go:134-172 | re-encoding an unambiguous document does not make it ambiguous |
| CanonicalJson.SameValueIffReordered | internal/handlers/idempotency.go:176-222 | unambiguous documents have the same value exactly when they differ in member order only |
| CanonicalJson.LastMemberWins | internal/handlers/idempotency.go:186-210 | of members with the same name the last one gives the value |
| CanonicalJson.SensitiveIffRepeatsSomewhere | internal/handlers/idempotency.go:176-222 | order may matter exactly when some object of the document, however deep, repeats a folded name |
| CanonicalJson.CanonicalEqualIff | internal/handlers/idempotency.go:134-222 | two bodies have the same canonical form exactly when both are free of repeated folded keys and differ in member order only, or both have such keys and are identical |
| CanonicalJson.SameValueDecodesAlike | internal/handlers/idempotency.go:134-222 | unambiguous documents of the same value decode to the same request, with last-wins fields matched by a folding of their own |
| CanonicalJson.SameCanonicalSameRequest | internal/handlers/idempotency.go:134-222 | equal canonical forms always decode to the same request, whatever it is decoded into |
| ReplayDecoder.ReplayJsonValue | internal/handlers/idempotency.go:176-222 | the decoder consumes exactly one value and returns it, and whether a folded name repeats anywhere inside |
| ReplayDecoder.ReplayObject | internal/handlers/idempotency.go:186-210 | the object loop collects the last value of each name and notices every repeated folded name |
| ReplayDecoder.ReplayArray | internal/handlers/idempotency.go:211-221 | the array loop collects the items in order |
| ReplayDecoder.CanonicalBody | internal/handlers/idempotency.go:134-172 | what is hashed of a valid body is its canonical form |
| TokenBucket.IntervalIsQuotient | internal/middleware/ratelimit.go:268-277 | the interval is the window divided by the rate, rounded down but at least a nanosecond: interval * rate <= window < (interval + 1) * rate |
| TokenBucket.RetryAfterIsLeast | internal/middleware/ratelimit.go:243-277 | after a refusal a retry with nothing in between succeeds after that many whole seconds and after no fewer |
| TokenBucket.TakeKeepsRate | internal/middleware/ratelimit.go:168-241 | a request keeps tokens plus allowed requests within the capacity plus the elapsed intervals |
| TokenBucket.FreshLaneKeepsRate | internal/middleware/ratelimit.go:130-155 | replacing a lane that was idle for a whole window by a full one gives nothing away |
| TokenBucket.RefillAddsTicks | internal/middleware/ratelimit.go:203-241 | a lazy refill adds exactly the interval ticks since the lane's own time, capped |
| TokenBucket.CatchingUpComposes | internal/middleware/ratelimit.go:203-241 | refilling now and later equals refilling once later |
| TokenBucket.RefillCatchesUp | internal/middleware/ratelimit.go:203-241 | after a refill the lane holds what the eager bucket holds |
| TokenBucket.TakeDecidesEagerly | internal/middleware/ratelimit.go:168-241 | a request is allowed exactly when the eager bucket has a token, and the lane goes on level with it |
| RateLimiter.Tokens.RefillPost | internal/middleware/ratelimit.go:203-219 | the write lane is refilled as the lane arithmetic says, and only it |
| RateLimiter.Tokens.RefillGet | internal/middleware/ratelimit.go:221-241 | the same for the GET lane, including the bucket whose GET time is still zero |
| RateLimiter.Tokens.AllowRequest | internal/middleware/ratelimit.go:168-201 | a request touches the lane of its own class only; a refusal carries that lane's Retry-After |
| RateLimiter.DeleteAll | internal/middleware/ratelimit.go:130-155 | removes exactly the given keys |
| RateLimiter.Limiter.Lookup | internal/middleware/ratelimit.go:90-115 | finds the client's bucket or makes a full one while there is room |
| RateLimiter.Limiter.AllowLocalRequest | internal/middleware/ratelimit.go:90-120 | serves one client's bucket and leaves all others alone; a new client at a full store waits a minute |
| RateLimiter.Limiter.CollectStale | internal/middleware/ratelimit.go:130-155 | collects exactly the clients in whose bucket neither lane has moved for longer than the age |
| RateLimiter.Limiter.Cleanup | internal/middleware/ratelimit.go:130-155 | forgets exactly those clients |
| RateLimiter.FirstRequest | internal/middleware/ratelimit.go:90-120 | a new client is turned away at 10000 known clients, and else served exactly when its class has an allowance |
| RateLimiter.OthersAreUntouched | internal/middleware/ratelimit.go:90-120 | no request touches the bucket of another client |
| RateLimiter.SweepKeepsTheActive | internal/middleware/ratelimit.go:130-155 | a sweep keeps a bucket, unchanged, exactly when one of its lanes has moved within the age |
| RateLimiter.RequestKeepsBound | internal/middleware/ratelimit.go:90-120 | a request by any client of any class keeps the bound on one client's allowed requests of one class |
| RateLimiter.SweepKeepsBound | internal/middleware/ratelimit.go:130-155 | so does a sweep whose age is at least the window |
| RateLimiter.RunStaysBounded | internal/middleware/ratelimit.go:90-155 | so does every run of requests and sweeps |
| RateLimiter.AllowedIsBounded | internal/middleware/ratelimit.go:90-277 | over every run of requests by any clients with sweeps in between, at most max + (t - t0) / (window / max) requests of a class, in whole numbers, are allowed by t after the first at t0, with one second for a window of zero |
| RateLimiter.NoCapacityNoService | internal/middleware/ratelimit.go:168-277 | a class whose maximum is not positive is never served |
| RateLimiter.LanesStayLevel | internal/middleware/ratelimit.go:168-241 | without sweeps, after any hits of both classes, each lane is level with its own eager bucket |
| RateLimiter.LazyDecidesAsEager | internal/middleware/ratelimit.go:102-241 | every request is decided as by an eager bucket that gains one token per window / max nanoseconds and knows only the allowed requests of its class, so refused requests and the other class never matter |
| RateLimiter.RetryAfterIsExact | internal/middleware/ratelimit.go:200-277 | after any hits, the number returned with a refusal is the least number of seconds after which a retry of that class is allowed |
| LruModel.RunStaysProper | internal/cache/readcache.go:41-122 | in every run each key is cached at most once and at most maxSize keys are |
| LruModel.RunStaysCurrent | internal/cache/readcache.go:65-122 | a slot always holds the latest set of its key that was not deleted |
| LruModel.HitIsLatestSet | internal/cache/readcache.go:65-104 | a hit returns exactly that set, and it is younger than the time to live |
| LruModel.RunKeepsAhead | internal/cache/readcache.go:65-122 | whatever stands in front of a key was used since that key's last use |
| LruModel.KeptKeyHits | internal/cache/readcache.go:65-82 | a key that is not lost and not expired hits with its latest set |
| LruModel.LostOnlyForAReason | internal/cache/readcache.go:65-122 | a key is lost only by a delete, by a get that finds it expired, or after maxSize distinct other keys were used since its last use |
| MemoryCache.NewCache | internal/cache/readcache.go:50-63 | refuses exactly the sizes and lifetimes that are not positive, else an empty cache |
| MemoryCache.Cache.ValidIsProper | internal/cache/readcache.go:41-48 | map and list hold the same keys, once each, at most maxSize |
| MemoryCache.Cache.Get | internal/cache/readcache.go:65-82 | map and list together do what the list model's get does |
| MemoryCache.Cache.Set | internal/cache/readcache.go:84-104 | the same for set, overwriting in place or pushing and evicting from the back |
| MemoryCache.Cache.Evict | internal/cache/readcache.go:100-102 | drops elements from the back of list and map until they fit |
| MemoryCache.Cache.Delete | internal/cache/readcache.go:106-113 | the same for delete |
| MemoryCache.Cache.Remove | internal/cache/readcache.go:115-122 | takes one element out of both map and list |
| MemoryCache.Replay | internal/cache/readcache.go:41-122 | any run of calls leaves map and list as the list model's run says |
| RedisCache.Server.GetScript | internal/cache/readcache.go:152-163 | returns the live value or nothing, loses no live value and keeps the indexes sound |
| RedisCache.Server.Sweep | internal/cache/readcache.go:170-174 | deletes no live value; afterwards the LRU index holds exactly the live keys |
| RedisCache.Server.Evict | internal/cache/readcache.go:178-184 | ends with at most max entries, having evicted only keys that come before every kept one in the order of scores and members |
| RedisCache.Server.SetScript | internal/cache/readcache.go:165-186 | the live values are the earlier ones with the new one, less exactly the first ones in score and member order that do not fit; the written key itself is lost exactly when they do not fit and all others tie with it and come after it |
| RedisCache.NewestGoneIff | internal/cache/readcache.go:178-184 | the eviction loop drops the key used last if and only if one key has to go and all the others tie with it and come after it |
| RedisCache.SetLosesItsOwnKey | internal/cache/readcache.go:165-186 | at every size, a cache filled within one microsecond with later members loses the very key that is set next and keeps the others |
| RedisCache.Server.DeleteScript | internal/cache/readcache.go:188-193 | removes exactly that key from the live values |
| RedisCache.Server.LiveIsBounded | internal/cache/readcache.go:152-193 | live values are all in the LRU index and never more than max entries |
| RedisCache.Replay | internal/cache/readcache.go:152-193 | in every run with a monotone clock each live value is indexed with its own deadline, live values stay within the maximum, and every hit is the latest set, not deleted and not expired |
| ReadThrough.MutationMovesOneRow | internal/service/counter.go:182-273 | a mutation moves no row but the one it invalidates, and none unless it succeeds |
| ReadThrough.ReadStaysCoherent | internal/service/counter.go:128-142 | on a coherent cache a get returns the database row and leaves the cache coherent |
| ReadThrough.MutationInvalidatesItsKey | internal/service/counter.go:182-273 | a successful mutation takes its own key and no other out of the cache; a refused one leaves the cache alone |
| ReadThrough.MutateStaysCoherent | internal/service/counter.go:182-273 | every mutation with its invalidation keeps the cache coherent |
| ReadThrough.RunStaysCoherent | internal/service/counter.go:97-273 | so does every run of whole calls |
| ReadThrough.ReadsAreTransparent | internal/service/counter.go:97-273 | after every run of creates, gets, increments and sets, a get returns exactly the row that the mutations alone leave in the database for that tenant and id, or nothing |
| ReadThrough.MissFillsTheCache | internal/service/counter.go:128-142 | a get that misses and finds the row leaves it in the cache, where the next lookups hit until it expires |
| ReadThrough.ReadsSeeTheLastWrite | internal/service/counter.go:97-273 | after any run, a get that follows a create returns the counter as requested, and one that follows an executed increment or set returns the replied value |
| ReadThrough.Service.Create | internal/service/counter.go:97-126 | the tenant check and the store's create, with the cache left alone, within the outer transaction if there is one |
| ReadThrough.Service.Get | internal/service/counter.go:128-142 | lookup, read and fill on store and cache objects, each at its own time, are the whole call |
| ReadThrough.Service.Increment | internal/service/counter.go:182-216 | mutation and invalidation on store and cache objects are the whole call |
| ReadThrough.Service.Set | internal/service/counter.go:234-265 | the same for set |
| ReadThrough.Service.Invalidate | internal/service/counter.go:267-273 | drops the mutated counter and nothing else from the cache |
| CacheRaces.FlightWasRead | internal/service/counter.go:128-142 | a row about to be cached is the row the database held when its call read it |
| CacheRaces.SlotIsLastFill | internal/service/counter.go:128-142 | a slot holds what the last fill of its key wrote since the last invalidation |
| CacheRaces.HitWasRead | internal/service/counter.go:128-142 | with all calls split into steps, a hit returns a row the database really held when it was read by a call whose fill is younger than the time to live |
| CacheRaces.HitIsCurrentIff | internal/service/counter.go:128-142 | while rows do not come back to an earlier state, a hit is the current row if and only if no step has changed the row since the store read behind the hit |
| CacheRaces.HitAfterOneChange | internal/service/counter.go:128-142 | where exactly one step changes the row, a hit is the current row if and only if the read behind it came after that step |
| CacheRaces.MutationChangesRowIff | internal/service/counter.go:182-273 | a mutation leaves a row as it is unless it takes effect on that very counter, and then stamps it with its own time |
| CacheRaces.ClockedHitIsCurrentIff | internal/service/counter.go:128-142 | where effective mutations carry increasing times, a hit is the current row if and only if no mutation of the counter took effect since the read behind it |
| CacheRaces.QuietHitIsCurrent | internal/service/counter.go:128-142 | whatever the times, a hit is the current row while no mutation of the counter took effect since the read behind it |
| CacheRaces.OvertakenReadIsStale | internal/service/counter.go:128-142 | for every mutation that changes a row there is a run in which its invalidation comes before the fill of an earlier read, and hits stay stale |
| Order.SortedIsAscending | internal/store/counter.go:101-125 | ordering rows lists each exactly once, ascending |
| Order.AscendingIsUnique | internal/store/counter.go:101-125 | an ascending list is determined by its elements |
| Pagination.PageIsPrefix | internal/service/counter.go:144-164 | a page is ascending and beyond its cursor; what it leaves out lies beyond its last row, which is the next cursor, and without a next cursor nothing is left out |
| Pagination.ListIsCut | internal/service/history.go:37-56 | the row asked for in excess only tells whether a next page exists |
| Pagination.CrawlCovers | internal/store/history.go:27-74 | following the cursors over a growing table returns no row twice, in key order, and every row present at the start |
| Pagination.CrawlTerminates | internal/service/counter.go:144-164 | on a fixed table the listing ends and is the whole table in order |
| Pagination.RunOnlyAdds | internal/store/counter.go:38-336 | every interleaved run of the ledger only adds rows to a listing |
| Pagination.ListingHolds | internal/store/counter.go:101-125 | a listing is about exactly the counters of its tenant, or the completed operations of its counter, keyed by creation time and id |
| Pagination.ListingCoversLedger | internal/store/history.go:27-74 | counters ascending and operations descending in creation time and id, listed while any transactions run between the pages, miss no row present at the start and repeat none |
| Reconciliation.RestLiesBeyond | internal/store/history.go:129-171 | the rows beyond a cursor, in order, are the rest of the ordered table |
| Reconciliation.CompletedHolds | internal/store/history.go:129-171 | the rows aggregated for a counter are exactly its completed operations, as often as the table has them |
| Reconciliation.ScannedAll | internal/store/history.go:106-120 | the scanned total is the number of completed operations that belong to some counter |
| Reconciliation.Batch | internal/store/history.go:129-171 | a batch holds the aggregates of the next counters after the cursor |
| Reconciliation.CheckBatch | internal/store/history.go:106-120 | the inner loop adds exactly the batch's counters to the report |
| Reconciliation.CheckAll | internal/store/history.go:87-127 | the outer loop terminates for every batch size and reports each counter once |
| Reconciliation.Reconcile | internal/store/history.go:87-127 | the report counts all counters, all their completed operations, exactly the counters whose completed deltas do not sum to the value, and exactly those without exactly one completed initial operation |
| Reconciliation.LedgerReconciles | internal/store/history.go:87-171 | on every state reachable by interleaved transactions both counts are zero |
| MetadataStore.DecideByTag | internal/handlers/metadata.go:32-51 | a request proceeds on a version exactly when it sends that version's entity tag alone, and to create exactly when it is a PUT with If-None-Match: * alone |
| MetadataStore.FaultsInOrder | internal/store/metadata.go:43-112 | a write is refused, in this order, without its counter, with data that cannot be stored, and when it does not name the current version, and a refused write changes nothing |
| MetadataStore.PutStores | internal/store/metadata.go:56-64 | a successful put stores exactly the given data under the new version and time, keeps the creation time it replaces, and touches nothing else |
| MetadataStore.DeleteRemoves | internal/store/metadata.go:99-111 | a successful delete removes exactly its document |
| MetadataStore.Store.Put | internal/store/metadata.go:43-85 | creates or replaces exactly when the precondition holds, in one transaction or within an outer one |
| MetadataStore.Store.Delete | internal/store/metadata.go:87-112 | deletes exactly the expected version, in one transaction or within an outer one |
| MetadataRuns.CommitKeepsInv | internal/store/metadata.go:43-112 | a commit keeps every other pending write valid, versions unique and the log chained to the table |
| MetadataRuns.RunKeepsInv | internal/store/metadata.go:43-112 | so does every run, interleaved with counter mutations |
| MetadataRuns.CommitIsSerial | internal/store/metadata.go:43-112 | every commit does what its request does as one step at that moment, and consumes exactly the current version; nothing else touches a document |
| MetadataRuns.WritesFormOneChain | internal/store/metadata.go:43-112 | the successful writes of each key form one chain of versions that ends in the stored document |
| MetadataRuns.DocumentIsLastPut | internal/store/metadata.go:43-112 | in every run a stored document holds the data of the last committed put of its key, and a missing one was never written or deleted last |
| MetadataRuns.OneWriterPerVersion | internal/handlers/metadata.go:32-51 | of all writers holding one version at most one succeeds |
| MetadataRuns.VersionNamesOneDocument | internal/migrations/000009_add_counter_metadata.up.sql:1-13 | at any two moments and under any two keys one version names one document, even across delete and recreate |

## Left out

- HTTP routing, authentication, scopes, row-level security, credentials, tenants, health, metrics, configuration, migrations and generated documentation: plumbing, or thin writes that add only easy members.
- The Redis rate limiter: floating point inside a foreign runtime, and its retry value is in milliseconds where the header is in seconds (internal/middleware/redis_ratelimit.go:62). Retry-After is claimed for the local bucket only.
- The unlocked gap between finding a bucket and using it, and the two clock readings in between: one request is one atomic step at one time. Window times and token amounts are unbounded integers, so Duration overflow is not modelled.
- Fallback from the shared to the local limiter, and the Redis cache client's cooldown after an error.
- Row copying in internal/store/history.go:27-74, and the text form of page cursors: a listing is modelled by its keys.
- `created_at` order of operations: the time is taken before the row lock, so the chain is claimed in commit order only.
- Bytes, escapes and number text of JSON; metadata is any text that PostgreSQL may or may not represent as JSONB. The rest of the replay hash (query, content type, precondition headers) is part of an opaque hash.
- Failing commits: a commit whose error reaches the client is covered as a commit whose answer is lost or as a rollback.
- Removal of expired replay records by an operator (docs/deployment.md): the 24 hours are claimed for the code's own steps.
- Redis expiry granularity: a value expires at its microsecond deadline, while Redis rounds to milliseconds. The expiry index, which the sweep does not prune, is not bounded.
- The nil cache and the nil counter: the service is modelled with its cache, and rows are values.
- A metadata statement's existence check and write are one step of the interleaved machine; counters are never removed, so the check cannot become false in between.
- Trimming of white space around the precondition headers.
- The checks of ids and request bodies ahead of the wrapped handlers, and the JSON text of their answers: rendering a row is a parameter.
