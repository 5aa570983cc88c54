/** The operation ledger as one serial step per request: what a create, increment or set
    transaction does to the tables and what it answers, and what every such step keeps. */
module Ledger {
  import opened Common
  import opened Schema
  import RequestHash

  datatype LedgerError =
    | TenantNotFound | CounterConflict | InitialOperationConflict
    | CounterNotFound | DeltaNotPositive | DeltaExceedsMaximum | CounterOverflow
    | IdempotencyKeyReused | OperationInProgress | IncompleteResult | AuditConflict | Unavailable

  datatype MutationResult = MutationResult(
    operationId: string, delta: int64, value: int64, updatedAt: int, replayed: bool)

  datatype Reply = Created | Mutated(result: MutationResult) | Failed(error: LedgerError)

  datatype Request =
    | CreateRequest(counter: string, tenant: string, name: string, value: int64, maxDelta: int64, now: int)
    | IncrementRequest(counter: string, tenant: string, delta: int64, operation: string, hash: string, actor: string, now: int)
    | SetRequest(counter: string, tenant: string, value: int64, operation: string, hash: string, actor: string, now: int)

  /** The id that PostgreSQL derives from md5('counter-initial:' || id); md5 is taken to be
      collision free. A client may still send the same text as an operation id. */
  function InitialOperationId(counter: string): string {
    "counter-initial:" + counter
  }

  /** The service computes the request hash from the request itself. */
  predicate Hashed(r: Request) {
    match r
    case CreateRequest(_, _, _, _, _, _) => true
    case IncrementRequest(counter, tenant, delta, _, hash, _, _) =>
      hash == RequestHash.Encode("increment", tenant, counter, delta)
      && |tenant| < RequestHash.TWO64 && |counter| < RequestHash.TWO64
    case SetRequest(counter, tenant, value, _, hash, _, _) =>
      hash == RequestHash.Encode("set", tenant, counter, value)
      && |tenant| < RequestHash.TWO64 && |counter| < RequestHash.TWO64
  }

  // ---------------------------------------------------------------- statements

  predicate Keyed(row: OperationRow, tenant: string, operation: string) {
    row.tenant == tenant && row.id == operation
  }

  /** SELECT ... FROM counter_operations WHERE tenant_id = $1 AND operation_id = $2 */
  function Find(rows: seq<OperationRow>, tenant: string, operation: string): Option<OperationRow> {
    if rows == [] then None
    else if Keyed(rows[|rows| - 1], tenant, operation) then Some(rows[|rows| - 1])
    else Find(rows[..|rows| - 1], tenant, operation)
  }

  predicate LabelTaken(db: Database, tenant: string, name: string) {
    exists id :: id in db.counters && db.counters[id].tenant == tenant && db.counters[id].name == name
  }

  function NewCounter(r: Request): CounterRow
    requires r.CreateRequest?
  {
    CounterRow(r.tenant, r.name, r.value, r.maxDelta, r.now, r.now)
  }

  function InitialOperation(r: Request): OperationRow
    requires r.CreateRequest?
  {
    OperationRow(r.tenant, r.counter, InitialOperationId(r.counter), InitialValue, r.value,
                 InitialOperationId(r.counter), None, Some(0), Some(r.value), Completed, r.now, Some(r.now))
  }

  /** The row inserted by INSERT ... ON CONFLICT DO NOTHING before the result is known. */
  function PendingOperation(r: Request, delta: int64): OperationRow
    requires !r.CreateRequest?
  {
    OperationRow(r.tenant, r.counter, r.operation, if r.IncrementRequest? then Increment else SetAdjustment,
                 delta, r.hash, Some(r.actor), None, None, Pending, r.now, None)
  }

  function Complete(row: OperationRow, before: int64, after: int64, now: int): OperationRow {
    row.(before := Some(before), after := Some(after), state := Completed, completedAt := Some(now))
  }

  /** resolveExistingOperation: an operation id seen before replays only its own request. */
  function Resolve(existing: OperationRow, r: Request): Reply
    requires !r.CreateRequest?
  {
    if existing.kind != (if r.IncrementRequest? then Increment else SetAdjustment)
       || existing.counter != r.counter
       || (r.IncrementRequest? && existing.delta != r.delta)
       || existing.hash != r.hash then Failed(IdempotencyKeyReused)
    else if existing.state != Completed then Failed(OperationInProgress)
    else if existing.after.None? || existing.completedAt.None? then Failed(IncompleteResult)
    else Mutated(MutationResult(r.operation, existing.delta, existing.after.value, existing.completedAt.value, true))
  }

  // ---------------------------------------------------------------- transactions

  function Create(db: Database, r: Request): (Database, Reply)
    requires r.CreateRequest?
  {
    if r.counter in db.counters || LabelTaken(db, r.tenant, r.name) then (db, Failed(CounterConflict))
    else if r.tenant !in db.tenants then (db, Failed(TenantNotFound))
    else if Find(db.operations, r.tenant, InitialOperationId(r.counter)).Some? then (db, Failed(InitialOperationConflict))
    else (db.(counters := db.counters[r.counter := NewCounter(r)],
              operations := db.operations + [InitialOperation(r)]), Created)
  }

  /** Nothing wrong with this increment on a fresh operation id, or what is wrong. */
  function IncrementFault(current: CounterRow, delta: int64): Option<LedgerError> {
    if delta <= 0 then Some(DeltaNotPositive)
    else if delta > current.maxDelta then Some(DeltaExceedsMaximum)
    else if current.value > MAX_INT64 - delta then Some(CounterOverflow)
    else None
  }

  function Write(db: Database, r: Request, current: CounterRow, delta: int64, after: int64): (Database, Reply)
    requires !r.CreateRequest?
  {
    (db.(counters := db.counters[r.counter := current.(value := after, updatedAt := r.now)],
         operations := db.operations + [Complete(PendingOperation(r, delta), current.value, after, r.now)],
         audit := if r.SetRequest? && r.actor != "" then db.audit + {r.operation} else db.audit),
     Mutated(MutationResult(r.operation, delta, after, r.now, false)))
  }

  function IncrementCounter(db: Database, r: Request): (Database, Reply)
    requires r.IncrementRequest?
  {
    if !HasCounter(db, r.tenant, r.counter) then (db, Failed(CounterNotFound))
    else
      var current := db.counters[r.counter];
      var existing := Find(db.operations, r.tenant, r.operation);
      if existing.Some? then (db, Resolve(existing.value, r))
      else
        var fault := IncrementFault(current, r.delta);
        if fault.Some? then (db, Failed(fault.value))
        else Write(db, r, current, r.delta, current.value + r.delta)
  }

  function SetCounter(db: Database, r: Request): (Database, Reply)
    requires r.SetRequest?
  {
    if !HasCounter(db, r.tenant, r.counter) then (db, Failed(CounterNotFound))
    else
      var current := db.counters[r.counter];
      if !FitsInt64(r.value - current.value) then (db, Failed(CounterOverflow))
      else
        var existing := Find(db.operations, r.tenant, r.operation);
        if existing.Some? then (db, Resolve(existing.value, r))
        else if r.actor != "" && r.operation in db.audit then (db, Failed(AuditConflict))
        else Write(db, r, current, r.value - current.value, r.value)
  }

  function Apply(db: Database, r: Request): (Database, Reply) {
    match r
    case CreateRequest(_, _, _, _, _, _) => Create(db, r)
    case IncrementRequest(_, _, _, _, _, _, _) => IncrementCounter(db, r)
    case SetRequest(_, _, _, _, _, _, _) => SetCounter(db, r)
  }

  // ---------------------------------------------------------------- what each request does

  /** A counter is created exactly when its id and its label are free, its tenant exists and its
      initial operation id is free, checked in this order. The new row carries what was asked
      for, and its first operation leads from zero to the initial value. */
  lemma CreateOutcome(db: Database, r: Request)
    requires r.CreateRequest?
    ensures var (db', reply) := Apply(db, r);
            var taken := r.counter in db.counters
              || exists id :: id in db.counters && db.counters[id].tenant == r.tenant && db.counters[id].name == r.name;
            && (taken ==> reply == Failed(CounterConflict))
            && (!taken && r.tenant !in db.tenants ==> reply == Failed(TenantNotFound))
            && (!taken && r.tenant in db.tenants ==>
                  reply == if Find(db.operations, r.tenant, InitialOperationId(r.counter)).Some? then Failed(InitialOperationConflict)
                           else Created)
            && (!reply.Created? ==> db' == db)
            && (reply.Created? ==>
                  && db'.counters == db.counters[r.counter := CounterRow(r.tenant, r.name, r.value, r.maxDelta, r.now, r.now)]
                  && db'.operations == db.operations + [OperationRow(
                       r.tenant, r.counter, InitialOperationId(r.counter), InitialValue, r.value, InitialOperationId(r.counter),
                       None, Some(0), Some(r.value), Completed, r.now, Some(r.now))]
                  && db' == db.(counters := db'.counters, operations := db'.operations))
  {
  }

  /** The counter is not there for this tenant. */
  lemma NoCounterNoMutation(db: Database, r: Request)
    requires !r.CreateRequest? && !(r.counter in db.counters && db.counters[r.counter].tenant == r.tenant)
    ensures Apply(db, r) == (db, Failed(CounterNotFound))
  {
  }

  /** An increment under a new operation id succeeds exactly when its delta is positive and within
      the counter's maximum and the sum fits in 64 bits; the refusals come in this order. Then the
      counter moves by the delta, the operation is recorded, and nothing else changes. */
  lemma FreshIncrement(db: Database, r: Request)
    requires r.IncrementRequest? && r.counter in db.counters && db.counters[r.counter].tenant == r.tenant
    requires Find(db.operations, r.tenant, r.operation).None?
    ensures var (db', reply) := Apply(db, r);
            var current := db.counters[r.counter];
            && (reply.Mutated? <==> 0 < r.delta <= current.maxDelta && current.value + r.delta <= 0x7fff_ffff_ffff_ffff)
            && (r.delta <= 0 ==> reply == Failed(DeltaNotPositive))
            && (r.delta > 0 && r.delta > current.maxDelta ==> reply == Failed(DeltaExceedsMaximum))
            && (0 < r.delta <= current.maxDelta && !reply.Mutated? ==> reply == Failed(CounterOverflow))
            && (!reply.Mutated? ==> db' == db)
            && (reply.Mutated? ==>
                  && reply.result == MutationResult(r.operation, r.delta, current.value + r.delta, r.now, false)
                  && db'.counters == db.counters[r.counter := current.(value := current.value + r.delta, updatedAt := r.now)]
                  && db'.operations == db.operations + [OperationRow(
                       r.tenant, r.counter, r.operation, Increment, r.delta, r.hash, Some(r.actor),
                       Some(current.value), Some(current.value + r.delta), Completed, r.now, Some(r.now))]
                  && db' == db.(counters := db'.counters, operations := db'.operations))
  {
  }

  /** A set under a new operation id succeeds exactly when the distance fits in 64 bits and the
      audit id of a known actor is free. Then the counter has the value, the distance is recorded
      as an adjustment, the audit table has the id of a known actor, and nothing else changes. */
  lemma FreshSet(db: Database, r: Request)
    requires r.SetRequest? && r.counter in db.counters && db.counters[r.counter].tenant == r.tenant
    requires Find(db.operations, r.tenant, r.operation).None?
    ensures var (db', reply) := Apply(db, r);
            var current := db.counters[r.counter];
            var inRange := -0x8000_0000_0000_0000 <= r.value - current.value <= 0x7fff_ffff_ffff_ffff;
            && (!inRange ==> reply == Failed(CounterOverflow))
            && (inRange && r.actor != "" && r.operation in db.audit ==> reply == Failed(AuditConflict))
            && (reply.Mutated? <==> inRange && (r.actor == "" || r.operation !in db.audit))
            && (!reply.Mutated? ==> db' == db)
            && (reply.Mutated? ==>
                  && reply.result == MutationResult(r.operation, r.value - current.value, r.value, r.now, false)
                  && db'.counters == db.counters[r.counter := current.(value := r.value, updatedAt := r.now)]
                  && db'.operations == db.operations + [OperationRow(
                       r.tenant, r.counter, r.operation, SetAdjustment, r.value - current.value, r.hash, Some(r.actor),
                       Some(current.value), Some(r.value), Completed, r.now, Some(r.now))]
                  && db'.audit == (if r.actor != "" then db.audit + {r.operation} else db.audit)
                  && db' == db.(counters := db'.counters, operations := db'.operations, audit := db'.audit))
  {
  }

  // ---------------------------------------------------------------- what every transaction keeps

  /** The completed operations of one counter, in commit order. */
  function History(rows: seq<OperationRow>, tenant: string, counter: string): seq<OperationRow> {
    if rows == [] then []
    else
      var rest := History(rows[..|rows| - 1], tenant, counter);
      var last := rows[|rows| - 1];
      if last.tenant == tenant && last.counter == counter then rest + [last] else rest
  }

  /** A counter's history holds exactly its rows, as often as the table does. */
  lemma {:induction false} HistoryHolds(rows: seq<OperationRow>, tenant: string, counter: string, row: OperationRow)
    ensures multiset(History(rows, tenant, counter))[row] ==
            if row.tenant == tenant && row.counter == counter then multiset(rows)[row] else 0
  {
    if rows != [] {
      HistoryHolds(rows[..|rows| - 1], tenant, counter, row);
      assert rows == rows[..|rows| - 1] + [rows[|rows| - 1]];
    }
  }

  /** A row whose result is recorded and adds up, over unbounded integers. */
  predicate Settled(row: OperationRow) {
    row.state == Completed && row.before.Some? && row.after.Some? && row.completedAt.Some?
    && row.after.value == row.before.value + row.delta
  }

  /** The rows lead from zero to `value` in unbroken before/after steps; the first one, and
      no other, is the initial value. */
  predicate Chain(rows: seq<OperationRow>, value: int) {
    |rows| > 0
    && var last := rows[|rows| - 1];
       Settled(last) && last.after.value == value
       && (last.kind == InitialValue <==> |rows| == 1)
       && if |rows| == 1 then last.before.value == 0 else Chain(rows[..|rows| - 1], last.before.value)
  }

  function SumDeltas(rows: seq<OperationRow>): int {
    if rows == [] then 0 else SumDeltas(rows[..|rows| - 1]) + rows[|rows| - 1].delta
  }

  function CountInitial(rows: seq<OperationRow>): nat {
    if rows == [] then 0
    else CountInitial(rows[..|rows| - 1]) + if rows[|rows| - 1].kind == InitialValue then 1 else 0
  }

  /** The request hash of a mutation row is the hash of the request that wrote it. */
  predicate RowHashed(row: OperationRow) {
    |row.tenant| < RequestHash.TWO64 && |row.counter| < RequestHash.TWO64
    && row.after.Some?
    && (row.kind == Increment ==> row.hash == RequestHash.Encode("increment", row.tenant, row.counter, row.delta))
    && (row.kind == SetAdjustment ==> row.hash == RequestHash.Encode("set", row.tenant, row.counter, row.after.value))
  }

  ghost predicate RowsInOrder(rows: seq<OperationRow>) {
    && (forall i, j :: 0 <= i < j < |rows| ==> !Keyed(rows[i], rows[j].tenant, rows[j].id))
    && (forall i :: 0 <= i < |rows| ==> Settled(rows[i]))
    && (forall i :: 0 <= i < |rows| && rows[i].kind != InitialValue ==> RowHashed(rows[i]))
  }

  ghost predicate Consistent(db: Database) {
    && RowsInOrder(db.operations)
    && (forall i :: 0 <= i < |db.operations| ==> HasCounter(db, db.operations[i].tenant, db.operations[i].counter))
    && (forall c :: c in db.counters ==>
          Chain(History(db.operations, db.counters[c].tenant, c), db.counters[c].value))
  }

  lemma {:induction false} FindMeansKeyed(rows: seq<OperationRow>, tenant: string, operation: string)
    ensures Find(rows, tenant, operation).None? <==>
            forall i :: 0 <= i < |rows| ==> !(rows[i].tenant == tenant && rows[i].id == operation)
    ensures Find(rows, tenant, operation).Some? ==>
            exists i :: 0 <= i < |rows| && rows[i] == Find(rows, tenant, operation).value
                        && rows[i].tenant == tenant && rows[i].id == operation
  {
    if rows != [] {
      FindMeansKeyed(rows[..|rows| - 1], tenant, operation);
    }
  }

  /** Appending a row never hides or replaces an operation that is already there. */
  lemma FindAppended(rows: seq<OperationRow>, row: OperationRow, tenant: string, operation: string)
    ensures Find(rows + [row], tenant, operation) ==
            if Keyed(row, tenant, operation) then Some(row) else Find(rows, tenant, operation)
  {
    assert (rows + [row])[..|rows|] == rows;
  }

  lemma HistoryAppended(rows: seq<OperationRow>, row: OperationRow, tenant: string, counter: string)
    ensures History(rows + [row], tenant, counter) ==
            if row.tenant == tenant && row.counter == counter then History(rows, tenant, counter) + [row]
            else History(rows, tenant, counter)
  {
    assert (rows + [row])[..|rows|] == rows;
  }

  lemma {:induction false} NoHistory(rows: seq<OperationRow>, tenant: string, counter: string)
    requires forall i :: 0 <= i < |rows| ==> rows[i].counter != counter
    ensures History(rows, tenant, counter) == []
  {
    if rows != [] {
      NoHistory(rows[..|rows| - 1], tenant, counter);
    }
  }

  lemma ChainExtended(rows: seq<OperationRow>, value: int, row: OperationRow)
    requires Chain(rows, value)
    requires Settled(row) && row.before.value == value && row.kind != InitialValue
    ensures Chain(rows + [row], row.after.value)
  {
    assert (rows + [row])[..|rows|] == rows;
  }

  /** Conservation: along a chain the deltas add up to the value, and there is exactly one
      initial-value operation. */
  lemma {:induction false} ChainAddsUp(rows: seq<OperationRow>, value: int)
    requires Chain(rows, value)
    ensures SumDeltas(rows) == value
    ensures CountInitial(rows) == 1
  {
    if |rows| > 1 {
      ChainAddsUp(rows[..|rows| - 1], rows[|rows| - 1].before.value);
    } else {
      assert rows[..0] == [];
    }
  }

  lemma RowsAppended(rows: seq<OperationRow>, row: OperationRow)
    requires RowsInOrder(rows)
    requires Find(rows, row.tenant, row.id).None?
    requires Settled(row) && (row.kind != InitialValue ==> RowHashed(row))
    ensures RowsInOrder(rows + [row])
  {
    FindMeansKeyed(rows, row.tenant, row.id);
  }

  /** `db'` differs from `db` by one settled operation under an id never used before, and by
      the counter that it moves from the operation's before value to its after value. */
  predicate OneOperation(db: Database, db': Database, row: OperationRow) {
    && db'.operations == db.operations + [row] && Find(db.operations, row.tenant, row.id).None?
    && Settled(row)
    && HasCounter(db', row.tenant, row.counter) && db'.counters[row.counter].value == row.after.value
    && db'.counters == db.counters[row.counter := db'.counters[row.counter]]
    && if row.kind == InitialValue then row.counter !in db.counters && row.before == Some(0)
       else HasCounter(db, row.tenant, row.counter) && row.before == Some(db.counters[row.counter].value)
  }

  /** A request changes nothing, or it writes exactly one operation and moves exactly one
      counter by that operation's delta. */
  lemma ApplyWritesOneOperation(db: Database, r: Request)
    ensures var db' := Apply(db, r).0;
            db' == db || (|db'.operations| > |db.operations| && OneOperation(db, db', db'.operations[|db.operations|]))
  {
  }

  /** The chain of the counter that an operation moves grows by one step; no other chain moves. */
  lemma StepKeepsChain(db: Database, db': Database, row: OperationRow, c: string)
    requires Consistent(db) && OneOperation(db, db', row) && c in db'.counters
    ensures Chain(History(db'.operations, db'.counters[c].tenant, c), db'.counters[c].value)
  {
    HistoryAppended(db.operations, row, db'.counters[c].tenant, c);
    if c == row.counter {
      if row.kind == InitialValue {
        NoHistory(db.operations, row.tenant, c);
      } else {
        ChainExtended(History(db.operations, row.tenant, c), row.before.value, row);
      }
    }
  }

  /** One new operation row, together with the counter row that it explains, keeps the ledger
      consistent. */
  lemma StepKeepsConsistent(db: Database, db': Database, row: OperationRow)
    requires Consistent(db) && OneOperation(db, db', row)
    requires RowsInOrder(db'.operations)
    ensures Consistent(db')
  {
    forall c | c in db'.counters
      ensures Chain(History(db'.operations, db'.counters[c].tenant, c), db'.counters[c].value)
    {
      StepKeepsChain(db, db', row, c);
    }
    forall i | 0 <= i < |db'.operations|
      ensures HasCounter(db', db'.operations[i].tenant, db'.operations[i].counter)
    {
      if i < |db.operations| {
        assert db'.operations[i] == db.operations[i];
      }
    }
  }

  lemma ApplyKeepsConsistent(db: Database, r: Request)
    requires Consistent(db) && Hashed(r)
    ensures Consistent(Apply(db, r).0)
  {
    var db' := Apply(db, r).0;
    if db' != db {
      ApplyWritesOneOperation(db, r);
      var row := db'.operations[|db.operations|];
      RowsAppended(db.operations, row);
      StepKeepsConsistent(db, db', row);
    }
  }

  /** Every increment in the table was positive and within the maximum of its counter. */
  ghost predicate WithinLimits(db: Database) {
    forall i :: 0 <= i < |db.operations| && db.operations[i].kind == Increment ==>
      && HasCounter(db, db.operations[i].tenant, db.operations[i].counter)
      && 0 < db.operations[i].delta <= db.counters[db.operations[i].counter].maxDelta
  }

  /** No request changes a counter's maximum, and no increment beyond it gets in. */
  lemma ApplyKeepsLimits(db: Database, r: Request)
    requires WithinLimits(db)
    ensures WithinLimits(Apply(db, r).0)
  {
    var db' := Apply(db, r).0;
    forall i | 0 <= i < |db'.operations| && db'.operations[i].kind == Increment
      ensures HasCounter(db', db'.operations[i].tenant, db'.operations[i].counter)
      ensures 0 < db'.operations[i].delta <= db'.counters[db'.operations[i].counter].maxDelta
    {
      if i < |db.operations| {
        assert db'.operations[i] == db.operations[i];
      }
    }
  }

  // ---------------------------------------------------------------- replay

  /** `row` was written by this very request (its actor and time aside). */
  predicate WrittenBy(row: OperationRow, r: Request) {
    !r.CreateRequest? && row.counter == r.counter && row.tenant == r.tenant && row.id == r.operation
    && if r.IncrementRequest? then row.kind == Increment && row.delta == r.delta
       else row.kind == SetAdjustment && row.after == Some(r.value)
  }

  /** A stored operation answers a request if and only if that request is the one that wrote
      it; the answer is then the stored result, and every other request is told that the key
      was reused. A committed row never reports an operation in progress. */
  lemma ResolveIffSameRequest(row: OperationRow, r: Request)
    requires !r.CreateRequest? && Hashed(r)
    requires Settled(row) && (row.kind != InitialValue ==> RowHashed(row)) && Keyed(row, r.tenant, r.operation)
    ensures Resolve(row, r).Mutated? <==> WrittenBy(row, r)
    ensures WrittenBy(row, r) ==>
              Resolve(row, r) == Mutated(MutationResult(r.operation, row.delta, row.after.value, row.completedAt.value, true))
    ensures !WrittenBy(row, r) ==> Resolve(row, r) == Failed(IdempotencyKeyReused)
  {
    if row.kind == SetAdjustment && r.SetRequest? && row.counter == r.counter && row.hash == r.hash {
      RequestHash.EncodeIsInjective("set", row.tenant, row.counter, row.after.value, "set", r.tenant, r.counter, r.value);
    }
  }

  /** The range check that a set makes before it looks for a replay. */
  predicate InRange(db: Database, r: Request) {
    HasCounter(db, r.tenant, r.counter) && (r.SetRequest? ==> FitsInt64(r.value - db.counters[r.counter].value))
  }

  /** A stored operation keeps any other request with its id from changing anything. */
  lemma OtherRequestChangesNothing(db: Database, row: OperationRow, r: Request)
    requires Consistent(db) && Hashed(r) && !r.CreateRequest?
    requires Find(db.operations, r.tenant, r.operation) == Some(row) && !WrittenBy(row, r)
    ensures Apply(db, r).0 == db && Apply(db, r).1.Failed?
    ensures InRange(db, r) ==> Apply(db, r).1 == Failed(IdempotencyKeyReused)
  {
    FindMeansKeyed(db.operations, r.tenant, r.operation);
    ResolveIffSameRequest(row, r);
  }

  predicate StoredResult(reply: Reply, row: OperationRow) {
    reply.Mutated? && reply.result.replayed && reply.result.operationId == row.id && reply.result.delta == row.delta
    && row.after == Some(reply.result.value) && row.completedAt == Some(reply.result.updatedAt)
  }

  /** A retry of a completed request changes nothing. It gets the stored result back, except
      that a retried set whose distance to the value of that moment does not fit in 64 bits is
      refused as an overflow: the check runs before the replay is looked up. */
  lemma RetryReplaysIffInRange(db: Database, row: OperationRow, r: Request)
    requires Consistent(db) && Hashed(r) && !r.CreateRequest?
    requires Find(db.operations, r.tenant, r.operation) == Some(row) && WrittenBy(row, r)
    ensures Apply(db, r).0 == db
    ensures StoredResult(Apply(db, r).1, row) <==> InRange(db, r)
    ensures !InRange(db, r) ==> r.SetRequest? && Apply(db, r).1 == Failed(CounterOverflow)
  {
    FindMeansKeyed(db.operations, r.tenant, r.operation);
    ResolveIffSameRequest(row, r);
  }

  function SetTo(tenant: string, counter: string, value: int64, operation: string, actor: string): Request {
    SetRequest(counter, tenant, value, operation, RequestHash.Encode("set", tenant, counter, value), actor, 0)
  }

  /** A set under a new operation id that is in range succeeds. */
  lemma FreshSetSucceeds(db: Database, tenant: string, counter: string, value: int64, operation: string, actor: string)
    requires HasCounter(db, tenant, counter) && FitsInt64(value - db.counters[counter].value)
    requires Find(db.operations, tenant, operation).None? && operation !in db.audit
    ensures var (after, reply) := Apply(db, SetTo(tenant, counter, value, operation, actor));
            && reply.Mutated? && HasCounter(after, tenant, counter) && after.counters[counter].value == value
            && (forall other :: other != operation ==> Find(after.operations, tenant, other) == Find(db.operations, tenant, other))
            && after.audit <= db.audit + {operation}
  {
    var after := Apply(db, SetTo(tenant, counter, value, operation, actor)).0;
    forall other | other != operation
      ensures Find(after.operations, tenant, other) == Find(db.operations, tenant, other)
    {
      FindAppended(db.operations, after.operations[|db.operations|], tenant, other);
    }
  }

  /** Such a refusal really happens, whoever the actor is, on any counter that is not at the
      smallest value: set it to zero, then to the smallest value, and retry the first set. */
  lemma RetriedSetCanOverflow(db: Database, tenant: string, counter: string, a: string, b: string, actor: string)
    requires HasCounter(db, tenant, counter) && db.counters[counter].value != MIN_INT64 && a != b
    requires Find(db.operations, tenant, a).None? && Find(db.operations, tenant, b).None?
    requires a !in db.audit && b !in db.audit
    ensures var first, second := SetTo(tenant, counter, 0, a, actor), SetTo(tenant, counter, MIN_INT64, b, actor);
            var (middle, reply) := Apply(db, first);
            var (later, reply') := Apply(middle, second);
            reply.Mutated? && reply'.Mutated? && Apply(later, first) == (later, Failed(CounterOverflow))
  {
    var middle := Apply(db, SetTo(tenant, counter, 0, a, actor)).0;
    FreshSetSucceeds(db, tenant, counter, 0, a, actor);
    assert Find(middle.operations, tenant, b).None? && b !in middle.audit;
    var later := Apply(middle, SetTo(tenant, counter, MIN_INT64, b, actor)).0;
    FreshSetSucceeds(middle, tenant, counter, MIN_INT64, b, actor);
    assert later.counters[counter].value == MIN_INT64 && !FitsInt64(0 - MIN_INT64);
  }
}
