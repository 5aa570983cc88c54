/** The counter service in front of the store: reads go through the cache, mutations
    invalidate it. First with whole calls taken as atomic, then with calls split into steps. */
module ReadThrough {
  import opened Common
  import opened Schema
  import opened Ledger
  import LruModel
  import MemoryCache
  import Transactions
  import CounterStore

  type CacheKey = LruModel.CacheKey

  /** SELECT ... FROM counters WHERE id = $1 AND tenant_id = $2 */
  function Row(db: Database, key: CacheKey): Option<CounterRow> {
    if HasCounter(db, key.0, key.1) then Some(db.counters[key.1]) else None
  }

  /** Every cached row is the row of the database. */
  ghost predicate Coherent(db: Database, slots: seq<LruModel.Slot>) {
    forall key :: LruModel.Lookup(slots, key).Some? ==> Row(db, key) == Some(LruModel.Lookup(slots, key).value.row)
  }

  // ---------------------------------------------------------------- whole calls

  /** One call of the service. A read looks at the clock for its lookup and again for its fill; a
      mutation carries what the service hands to the store. */
  datatype Call = Read(key: CacheKey, at: int, filledAt: int) | Mutate(request: Request)

  datatype State = State(db: Database, slots: seq<LruModel.Slot>)

  datatype Answer = Found(row: Option<CounterRow>) | Replied(reply: Reply)

  /** The service looks for the tenant before it asks the store to create a counter. */
  function Mutation(db: Database, r: Request): (Database, Reply) {
    if r.CreateRequest? && r.tenant !in db.tenants then (db, Failed(TenantNotFound)) else Apply(db, r)
  }

  /** The cache after a mutation with this reply. */
  function Invalidated(slots: seq<LruModel.Slot>, r: Request, reply: Reply): seq<LruModel.Slot> {
    if reply.Mutated? then LruModel.Without(slots, (r.tenant, r.counter)) else slots
  }

  /** The cache after a miss that read `row` from the store. */
  function Filled(slots: seq<LruModel.Slot>, key: CacheKey, row: Option<CounterRow>, at: int, max: nat, ttl: int): seq<LruModel.Slot> {
    if row.Some? then LruModel.Set(slots, key, row.value, at + ttl, max) else slots
  }

  function Serve(s: State, call: Call, max: nat, ttl: int): (State, Answer) {
    match call
    case Read(key, at, filledAt) =>
      var (slots, hit) := LruModel.Get(s.slots, key, at);
      if hit.Some? then (State(s.db, slots), Found(hit))
      else
        (State(s.db, Filled(slots, key, Row(s.db, key), filledAt, max, ttl)), Found(Row(s.db, key)))
    case Mutate(r) =>
      var (db, reply) := Mutation(s.db, r);
      (State(db, Invalidated(s.slots, r, reply)), Replied(reply))
  }

  function RunCalls(s: State, calls: seq<Call>, max: nat, ttl: int): State {
    if calls == [] then s else Serve(RunCalls(s, calls[..|calls| - 1], max, ttl), calls[|calls| - 1], max, ttl).0
  }

  /** A mutation moves no row but the one it invalidates, and none at all unless it succeeds. */
  lemma MutationMovesOneRow(db: Database, r: Request, key: CacheKey)
    requires Row(db, key).Some?
    ensures var (db', reply) := Mutation(db, r);
            !(reply.Mutated? && key == (r.tenant, r.counter)) ==> Row(db', key) == Row(db, key)
  {
  }

  lemma ReadStaysCoherent(s: State, key: CacheKey, at: int, filledAt: int, max: nat, ttl: int)
    requires LruModel.Proper(s.slots, max) && max >= 1 && Coherent(s.db, s.slots)
    ensures Serve(s, Read(key, at, filledAt), max, ttl).1 == Found(Row(s.db, key))
    ensures var s' := Serve(s, Read(key, at, filledAt), max, ttl).0; LruModel.Proper(s'.slots, max) && Coherent(s'.db, s'.slots)
  {
    var get := LruModel.DoGet(key, at);
    var slots := LruModel.Step(s.slots, get, max, ttl);
    LruModel.StepKeepsProper(s.slots, get, max, ttl);
    StepStaysCoherent(s.db, s.slots, get, max, ttl);
    if Row(s.db, key).Some? {
      var fill := LruModel.DoSet(key, Row(s.db, key).value, filledAt);
      LruModel.StepKeepsProper(slots, fill, max, ttl);
      StepStaysCoherent(s.db, slots, fill, max, ttl);
    }
  }

  /** Whatever the cache does, it invents no row; a set of the true row keeps it coherent. */
  lemma StepStaysCoherent(db: Database, slots: seq<LruModel.Slot>, e: LruModel.Event, max: nat, ttl: int)
    requires LruModel.Proper(slots, max) && max >= 1 && Coherent(db, slots)
    requires e.DoSet? ==> Row(db, e.key) == Some(e.row)
    ensures Coherent(db, LruModel.Step(slots, e, max, ttl))
  {
    forall key | LruModel.Lookup(LruModel.Step(slots, e, max, ttl), key).Some?
      ensures Row(db, key) == Some(LruModel.Lookup(LruModel.Step(slots, e, max, ttl), key).value.row)
    {
      var was := LruModel.Lookup(slots, key);
      var write := if was.Some? then Some((was.value.row, was.value.expiresAt - ttl)) else None;
      LruModel.NotThere(slots, key);
      LruModel.StepStaysCurrent(slots, e, key, write, max, ttl);
    }
  }

  /** A successful mutation takes its own key, and only it, out of the cache; any other leaves the
      cache alone. */
  lemma MutationInvalidatesItsKey(s: State, r: Request, other: CacheKey, max: nat, ttl: int)
    requires LruModel.Proper(s.slots, max)
    ensures var (s', answer) := Serve(s, Mutate(r), max, ttl);
            && answer.Replied?
            && (!answer.reply.Mutated? ==> s'.slots == s.slots)
            && (answer.reply.Mutated? ==> LruModel.Lookup(s'.slots, (r.tenant, r.counter)).None?)
            && (other != (r.tenant, r.counter) ==> LruModel.Lookup(s'.slots, other) == LruModel.Lookup(s.slots, other))
  {
    LruModel.WithoutRemoves(s.slots, (r.tenant, r.counter));
    if other != (r.tenant, r.counter) {
      LruModel.WithoutOther(s.slots, (r.tenant, r.counter), other);
    }
  }

  lemma MutateStaysCoherent(s: State, r: Request, max: nat, ttl: int)
    requires LruModel.Proper(s.slots, max) && max >= 1 && Coherent(s.db, s.slots)
    ensures var s' := Serve(s, Mutate(r), max, ttl).0; LruModel.Proper(s'.slots, max) && Coherent(s'.db, s'.slots)
  {
    var s' := Serve(s, Mutate(r), max, ttl).0;
    var drop := LruModel.DoDelete((r.tenant, r.counter));
    LruModel.StepKeepsProper(s.slots, drop, max, ttl);
    StepStaysCoherent(s.db, s.slots, drop, max, ttl);
    LruModel.WithoutRemoves(s.slots, drop.key);
    forall key | LruModel.Lookup(s'.slots, key).Some?
      ensures Row(s'.db, key) == Some(LruModel.Lookup(s'.slots, key).value.row)
    {
      MutationMovesOneRow(s.db, r, key);
    }
  }

  lemma {:induction false} RunStaysCoherent(db: Database, calls: seq<Call>, max: nat, ttl: int)
    requires max >= 1
    ensures var s := RunCalls(State(db, []), calls, max, ttl); LruModel.Proper(s.slots, max) && Coherent(s.db, s.slots)
  {
    if calls != [] {
      var earlier, last := calls[..|calls| - 1], calls[|calls| - 1];
      RunStaysCoherent(db, earlier, max, ttl);
      var s := RunCalls(State(db, []), earlier, max, ttl);
      match last {
        case Read(key, at, filledAt) => ReadStaysCoherent(s, key, at, filledAt, max, ttl);
        case Mutate(r) => MutateStaysCoherent(s, r, max, ttl);
      }
    }
  }

  /** The mutations of a run, without its reads. */
  function Writes(calls: seq<Call>): seq<Request> {
    if calls == [] then []
    else
      var rest := Writes(calls[..|calls| - 1]);
      if calls[|calls| - 1].Mutate? then rest + [calls[|calls| - 1].request] else rest
  }

  function MutateAll(db: Database, requests: seq<Request>): Database {
    if requests == [] then db else Mutation(MutateAll(db, requests[..|requests| - 1]), requests[|requests| - 1]).0
  }

  /** After any run of creates, gets, increments and sets, a get answers as a service without a
      cache would: with the row that the mutations alone have left in the database. */
  lemma {:induction false} ReadsAreTransparent(db: Database, calls: seq<Call>, key: CacheKey, at: int, filledAt: int, max: nat, ttl: int)
    requires max >= 1
    ensures var now := MutateAll(db, Writes(calls));
            Serve(RunCalls(State(db, []), calls, max, ttl), Read(key, at, filledAt), max, ttl).1 ==
            Found(if key.1 in now.counters && now.counters[key.1].tenant == key.0 then Some(now.counters[key.1]) else None)
  {
    RunStaysCoherent(db, calls, max, ttl);
    ReadStaysCoherent(RunCalls(State(db, []), calls, max, ttl), key, at, filledAt, max, ttl);
    ReadsLeaveTheDatabase(db, calls, max, ttl);
  }

  /** A get that misses and finds the row leaves it in the cache: until its time to live has passed
      the next lookup hits. */
  lemma MissFillsTheCache(s: State, key: CacheKey, at: int, filledAt: int, later: int, max: nat, ttl: int)
    requires max >= 1 && LruModel.Get(s.slots, key, at).1.None? && Row(s.db, key).Some? && later < filledAt + ttl
    ensures LruModel.Get(Serve(s, Read(key, at, filledAt), max, ttl).0.slots, key, later).1 == Row(s.db, key)
  {
  }

  /** The row that a successful request leaves behind. */
  lemma RowAfterMutation(db: Database, r: Request)
    ensures var (db', reply) := Mutation(db, r);
            && (reply.Created? ==>
                  r.CreateRequest? && Row(db', (r.tenant, r.counter)) == Some(CounterRow(r.tenant, r.name, r.value, r.maxDelta, r.now, r.now)))
            && (reply.Mutated? && !reply.result.replayed ==>
                  && r.counter in db.counters
                  && Row(db', (r.tenant, r.counter)) == Some(db.counters[r.counter].(value := reply.result.value, updatedAt := r.now)))
  {
  }

  /** After any run, a get that follows a create returns the counter as it was asked for, and one
      that follows an executed increment or set returns the value that was replied. */
  lemma ReadsSeeTheLastWrite(db: Database, calls: seq<Call>, r: Request, at: int, filledAt: int, max: nat, ttl: int)
    requires max >= 1
    ensures var s := RunCalls(State(db, []), calls, max, ttl);
            var (s', answer) := Serve(s, Mutate(r), max, ttl);
            var read := Serve(s', Read((r.tenant, r.counter), at, filledAt), max, ttl).1;
            && answer.Replied?
            && (answer.reply.Created? ==>
                  r.CreateRequest? && read == Found(Some(CounterRow(r.tenant, r.name, r.value, r.maxDelta, r.now, r.now))))
            && (answer.reply.Mutated? && !answer.reply.result.replayed ==>
                  && r.counter in s.db.counters
                  && read == Found(Some(s.db.counters[r.counter].(value := answer.reply.result.value, updatedAt := r.now))))
  {
    RunStaysCoherent(db, calls, max, ttl);
    var s := RunCalls(State(db, []), calls, max, ttl);
    MutateStaysCoherent(s, r, max, ttl);
    var (s', answer) := Serve(s, Mutate(r), max, ttl);
    ReadStaysCoherent(s', (r.tenant, r.counter), at, filledAt, max, ttl);
    RowAfterMutation(s.db, r);
    assert s'.db == Mutation(s.db, r).0 && answer == Replied(Mutation(s.db, r).1);
    assert Serve(s', Read((r.tenant, r.counter), at, filledAt), max, ttl).1 == Found(Row(s'.db, (r.tenant, r.counter)));
  }

  lemma {:induction false} ReadsLeaveTheDatabase(db: Database, calls: seq<Call>, max: nat, ttl: int)
    ensures RunCalls(State(db, []), calls, max, ttl).db == MutateAll(db, Writes(calls))
  {
    if calls != [] {
      var earlier, last := calls[..|calls| - 1], calls[|calls| - 1];
      ReadsLeaveTheDatabase(db, earlier, max, ttl);
      if last.Mutate? {
        assert Writes(calls)[..|Writes(calls)| - 1] == Writes(earlier);
      }
    }
  }

  // ---------------------------------------------------------------- the service object

  class Service {
    const store: CounterStore.Store
    const cache: MemoryCache.Cache

    constructor (store: CounterStore.Store, cache: MemoryCache.Cache)
      ensures this.store == store && this.cache == cache
    {
      this.store, this.cache := store, cache;
    }

    ghost function Snapshot(): State
      reads this, store, store.db, cache
    {
      State(store.db.committed, cache.view)
    }

    method Get(key: CacheKey, now: int, filledAt: int) returns (found: Option<CounterRow>)
      requires cache.Valid()
      modifies cache, cache.lru
      ensures cache.Valid()
      ensures (Snapshot(), Found(found)) == Serve(old(Snapshot()), Read(key, now, filledAt), cache.maxSize, cache.ttl)
    {
      found := cache.Get(key, now);
      ghost var slots := cache.view;
      assert (slots, found) == LruModel.Get(old(cache.view), key, now);
      if found.None? {
        found := Load(key, filledAt);
        assert cache.view == Filled(slots, key, Row(old(store.db.committed), key), filledAt, cache.maxSize, cache.ttl);
      }
    }

    /** A miss reads the row and caches it. */
    method Load(key: CacheKey, now: int) returns (found: Option<CounterRow>)
      requires cache.Valid()
      modifies cache, cache.lru
      ensures cache.Valid() && found == Row(store.db.committed, key)
      ensures cache.view == Filled(old(cache.view), key, found, now, cache.maxSize, cache.ttl)
    {
      found := Row(store.db.committed, key);
      if found.Some? {
        cache.Set(key, found.value, now);
      }
    }

    /** Checks the tenant and creates, both within the outer transaction if there is one. */
    method Create(r: Request, outer: Transactions.Tx?) returns (reply: Reply)
      requires r.CreateRequest? && cache.Valid() && (outer != null ==> outer.open)
      modifies store.db, outer
      ensures cache.Valid()
      ensures outer == null ==> (Snapshot(), Replied(reply)) == Serve(old(Snapshot()), Mutate(r), cache.maxSize, cache.ttl)
      ensures outer != null ==> Snapshot() == old(Snapshot()) && outer.open && reply == Mutation(old(outer.view), r).1
      ensures outer != null && reply.Created? ==> outer.view == Mutation(old(outer.view), r).0
    {
      var tenants := if outer != null then outer.view.tenants else store.db.committed.tenants;
      if r.tenant !in tenants {
        return Failed(TenantNotFound);
      }
      reply := store.CreateCounter(r, outer);
    }

    method Invalidate(r: Request, reply: Reply)
      requires cache.Valid()
      modifies cache
      ensures cache.Valid() && cache.view == Invalidated(old(cache.view), r, reply)
    {
      if reply.Mutated? {
        cache.Delete((r.tenant, r.counter));
      }
    }

    method Increment(r: Request) returns (reply: Reply)
      requires r.IncrementRequest? && cache.Valid()
      modifies store.db, cache
      ensures cache.Valid() && (Snapshot(), Replied(reply)) == Serve(old(Snapshot()), Mutate(r), cache.maxSize, cache.ttl)
    {
      reply := store.IncrementCounter(r, null);
      Invalidate(r, reply);
    }

    method Set(r: Request) returns (reply: Reply)
      requires r.SetRequest? && cache.Valid()
      modifies store.db, cache
      ensures cache.Valid() && (Snapshot(), Replied(reply)) == Serve(old(Snapshot()), Mutate(r), cache.maxSize, cache.ttl)
    {
      reply := store.SetCounterValue(r, null);
      Invalidate(r, reply);
    }
  }
}
