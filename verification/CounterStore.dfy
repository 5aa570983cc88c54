/** The store, statement by statement inside its transaction. Each method is proved to do to
    the database exactly what the serial step of the ledger says, and on every error path to
    leave the committed state alone. */
module CounterStore {
  import opened Common
  import opened Schema
  import opened Ledger
  import opened Transactions

  /** UPDATE counter_operations SET ... WHERE tenant_id = $4 AND operation_id = $5 */
  function CompleteKeyed(rows: seq<OperationRow>, tenant: string, operation: string,
                         before: int64, after: int64, now: int): seq<OperationRow>
  {
    seq(|rows|, i requires 0 <= i < |rows| =>
      if Keyed(rows[i], tenant, operation) then Complete(rows[i], before, after, now) else rows[i])
  }

  /** The update finds the one row that this transaction reserved. */
  lemma CompleteReserved(rows: seq<OperationRow>, pending: OperationRow, before: int64, after: int64, now: int)
    requires Find(rows, pending.tenant, pending.id).None?
    ensures CompleteKeyed(rows + [pending], pending.tenant, pending.id, before, after, now)
         == rows + [Complete(pending, before, after, now)]
  {
    FindMeansKeyed(rows, pending.tenant, pending.id);
  }

  datatype SqlResult = Success | UniqueViolation | ForeignKeyViolation

  class Store {
    const db: Connection

    constructor (db: Connection)
      ensures this.db == db
    {
      this.db := db;
    }

    method InsertCounter(tx: Tx, id: string, row: CounterRow) returns (result: SqlResult)
      modifies tx`view
      ensures result == if id in old(tx.view).counters || LabelTaken(old(tx.view), row.tenant, row.name) then UniqueViolation
                        else if row.tenant !in old(tx.view).tenants then ForeignKeyViolation else Success
      ensures tx.view == if result.Success? then old(tx.view).(counters := old(tx.view).counters[id := row]) else old(tx.view)
    {
      if id in tx.view.counters || LabelTaken(tx.view, row.tenant, row.name) {
        return UniqueViolation;
      }
      if row.tenant !in tx.view.tenants {
        return ForeignKeyViolation;
      }
      tx.view := tx.view.(counters := tx.view.counters[id := row]);
      result := Success;
    }

    method InsertOperation(tx: Tx, row: OperationRow) returns (inserted: bool)
      modifies tx`view
      ensures inserted <==> Find(old(tx.view).operations, row.tenant, row.id).None?
      ensures tx.view == if inserted then old(tx.view).(operations := old(tx.view).operations + [row]) else old(tx.view)
    {
      inserted := Find(tx.view.operations, row.tenant, row.id).None?;
      if inserted {
        tx.view := tx.view.(operations := tx.view.operations + [row]);
      }
    }

    method UpdateCounter(tx: Tx, tenant: string, counter: string, value: int64, now: int)
      requires HasCounter(tx.view, tenant, counter)
      modifies tx`view
      ensures tx.view == old(tx.view).(counters := old(tx.view).counters[counter :=
                           old(tx.view).counters[counter].(value := value, updatedAt := now)])
    {
      tx.view := tx.view.(counters := tx.view.counters[counter := tx.view.counters[counter].(value := value, updatedAt := now)]);
    }

    method CompleteOperation(tx: Tx, tenant: string, operation: string, before: int64, after: int64, now: int)
      modifies tx`view
      ensures tx.view == old(tx.view).(operations :=
                           CompleteKeyed(old(tx.view).operations, tenant, operation, before, after, now))
    {
      tx.view := tx.view.(operations := CompleteKeyed(tx.view.operations, tenant, operation, before, after, now));
    }

    /** Creating a counter records its initial value in the same transaction. Without an outer
        transaction the call is the serial step; inside one it changes nothing that is
        committed, and its writes are complete whenever it reports success. */
    method CreateCounter(r: Request, outer: Tx?) returns (reply: Reply)
      requires r.CreateRequest? && (outer != null ==> outer.open)
      modifies db, outer
      ensures outer == null ==> (db.committed, reply) == Create(old(db.committed), r)
      ensures outer != null ==> db.committed == old(db.committed) && outer.open
      ensures outer != null ==> reply == Create(old(outer.view), r).1
      ensures outer != null && reply.Created? ==> outer.view == Create(old(outer.view), r).0
    {
      var scope := BeginWrite(db, outer);
      var tx := scope.tx;
      var inserted := InsertCounter(tx, r.counter, NewCounter(r));
      if inserted != Success {
        Finish(db, scope, false);
        return Failed(if inserted == ForeignKeyViolation then TenantNotFound else CounterConflict);
      }
      var recorded := InsertOperation(tx, InitialOperation(r));
      if !recorded {
        Finish(db, scope, false);
        return Failed(InitialOperationConflict);
      }
      Finish(db, scope, true);
      reply := Created;
    }

    /** An increment locks the counter, reserves its operation id, checks the limits, updates
        the value and completes the operation; or it replays; or it rolls everything back. */
    method IncrementCounter(r: Request, outer: Tx?) returns (reply: Reply)
      requires r.IncrementRequest? && (outer != null ==> outer.open)
      modifies db, outer
      ensures outer == null ==> (db.committed, reply) == Ledger.IncrementCounter(old(db.committed), r)
      ensures outer != null ==> db.committed == old(db.committed) && outer.open
      ensures outer != null ==> reply == Ledger.IncrementCounter(old(outer.view), r).1
      ensures outer != null && reply.Mutated? ==> outer.view == Ledger.IncrementCounter(old(outer.view), r).0
    {
      var scope := BeginWrite(db, outer);
      var tx := scope.tx;
      ghost var start := tx.view;
      if !HasCounter(tx.view, r.tenant, r.counter) {
        Finish(db, scope, false);
        return Failed(CounterNotFound);
      }
      var current := tx.view.counters[r.counter];
      var inserted := InsertOperation(tx, PendingOperation(r, r.delta));
      if !inserted {
        reply := Resolve(Find(tx.view.operations, r.tenant, r.operation).value, r);
        Finish(db, scope, reply.Mutated?);
        return;
      }
      var fault := IncrementFault(current, r.delta);
      if fault.Some? {
        Finish(db, scope, false);
        return Failed(fault.value);
      }
      var after: int64 := current.value + r.delta;
      UpdateCounter(tx, r.tenant, r.counter, after, r.now);
      CompleteOperation(tx, r.tenant, r.operation, current.value, after, r.now);
      CompleteReserved(start.operations, PendingOperation(r, r.delta), current.value, after, r.now);
      Finish(db, scope, true);
      reply := Mutated(MutationResult(r.operation, r.delta, after, r.now, false));
    }

    /** A set does the same with the difference to the current value as its delta, and leaves
        an audit event when an actor is known. */
    method SetCounterValue(r: Request, outer: Tx?) returns (reply: Reply)
      requires r.SetRequest? && (outer != null ==> outer.open)
      modifies db, outer
      ensures outer == null ==> (db.committed, reply) == SetCounter(old(db.committed), r)
      ensures outer != null ==> db.committed == old(db.committed) && outer.open
      ensures outer != null ==> reply == SetCounter(old(outer.view), r).1
      ensures outer != null && reply.Mutated? ==> outer.view == SetCounter(old(outer.view), r).0
    {
      var scope := BeginWrite(db, outer);
      var tx := scope.tx;
      ghost var start := tx.view;
      if !HasCounter(tx.view, r.tenant, r.counter) {
        Finish(db, scope, false);
        return Failed(CounterNotFound);
      }
      var current := tx.view.counters[r.counter].value;
      if !FitsInt64(r.value - current) {
        Finish(db, scope, false);
        return Failed(CounterOverflow);
      }
      var delta: int64 := r.value - current;
      var inserted := InsertOperation(tx, PendingOperation(r, delta));
      if !inserted {
        reply := Resolve(Find(tx.view.operations, r.tenant, r.operation).value, r);
        Finish(db, scope, reply.Mutated?);
        return;
      }
      UpdateCounter(tx, r.tenant, r.counter, r.value, r.now);
      CompleteOperation(tx, r.tenant, r.operation, current, r.value, r.now);
      CompleteReserved(start.operations, PendingOperation(r, delta), current, r.value, r.now);
      if r.actor != "" {
        if r.operation in tx.view.audit {
          Finish(db, scope, false);
          return Failed(AuditConflict);
        }
        tx.view := tx.view.(audit := tx.view.audit + {r.operation});
      }
      Finish(db, scope, true);
      reply := Mutated(MutationResult(r.operation, delta, r.value, r.now, false));
    }
  }
}
