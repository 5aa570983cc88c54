/** Interleavings of create, increment and set transactions from any number of replicas,
    one SQL statement at a time under READ COMMITTED, with row locks, unique-key waits,
    rollbacks, and commits whose answer is lost on the way to the client. */
module LedgerRuns {
  import opened Common
  import opened Schema
  import opened Ledger

  /** How far a transaction has come. A phase carries the row that was read under lock and
      the writes that no other transaction can see yet. */
  datatype Phase =
    | Start
    | IdReserved
    | NameReserved
    | InitialReserved
    | RowLocked(current: CounterRow, delta: int64)
    | Replaying(current: CounterRow, delta: int64, existing: OperationRow)
    | Reserved(current: CounterRow, pending: OperationRow)
    | CounterUpdated(current: CounterRow, updated: CounterRow, pending: OperationRow)
    | OperationCompleted(current: CounterRow, updated: CounterRow, completed: OperationRow)
    | Audited(current: CounterRow, updated: CounterRow, completed: OperationRow)

  datatype Txn = Txn(request: Request, phase: Phase)

  /** The result of one statement: the transaction goes on, or it rolls back and answers. */
  datatype Outcome = Continue(phase: Phase) | Stop(reply: Reply)

  predicate NeedsAudit(r: Request) {
    r.SetRequest? && r.actor != ""
  }

  /** The next statement of a transaction that is not ready to commit. */
  function Advance(db: Database, t: Txn): Outcome
    requires !Committable(t)
  {
    var r := t.request;
    match t.phase
    case Start =>
      if r.CreateRequest? then
        if r.counter in db.counters then Stop(Failed(CounterConflict)) else Continue(IdReserved)
      else if !HasCounter(db, r.tenant, r.counter) then Stop(Failed(CounterNotFound))
      else
        var current := db.counters[r.counter];
        if r.IncrementRequest? then Continue(RowLocked(current, r.delta))
        else if !FitsInt64(r.value - current.value) then Stop(Failed(CounterOverflow))
        else Continue(RowLocked(current, r.value - current.value))
    case IdReserved =>
      if !r.CreateRequest? || LabelTaken(db, r.tenant, r.name) then Stop(Failed(CounterConflict))
      else if r.tenant !in db.tenants then Stop(Failed(TenantNotFound)) else Continue(NameReserved)
    case NameReserved =>
      if Find(db.operations, r.tenant, InitialOperationId(r.counter)).Some? then Stop(Failed(InitialOperationConflict))
      else Continue(InitialReserved)
    case RowLocked(current, delta) =>
      if r.CreateRequest? then Stop(Failed(Unavailable))
      else
        var existing := Find(db.operations, r.tenant, r.operation);
        if existing.None? then Continue(Reserved(current, PendingOperation(r, delta)))
        else if Resolve(existing.value, r).Mutated? then Continue(Replaying(current, delta, existing.value))
        else Stop(Resolve(existing.value, r))
    case Reserved(current, pending) =>
      if r.SetRequest? then Continue(CounterUpdated(current, current.(value := r.value, updatedAt := r.now), pending))
      else
        var fault := IncrementFault(current, pending.delta);
        if fault.Some? then Stop(Failed(fault.value))
        else Continue(CounterUpdated(current, current.(value := current.value + pending.delta, updatedAt := r.now), pending))
    case CounterUpdated(current, updated, pending) =>
      Continue(OperationCompleted(current, updated, Complete(pending, current.value, updated.value, r.now)))
    case OperationCompleted(current, updated, completed) =>
      if r.SetRequest? && r.operation in db.audit then Stop(Failed(AuditConflict))
      else Continue(Audited(current, updated, completed))
  }

  /** All statements have been executed; only COMMIT is left. */
  predicate Committable(t: Txn) {
    match t.phase
    case InitialReserved | Replaying(_, _, _) | Audited(_, _, _) => true
    case OperationCompleted(_, _, _) => !NeedsAudit(t.request)
    case _ => false
  }

  /** COMMIT publishes the transaction's own writes on top of whatever is committed by then. */
  function Publish(db: Database, t: Txn): (Database, Reply)
    requires Committable(t)
  {
    var r := t.request;
    match t.phase
    case Replaying(_, _, existing) => (db, if r.CreateRequest? then Failed(Unavailable) else Resolve(existing, r))
    case OperationCompleted(_, updated, completed) => PublishMutation(db, r, updated, completed)
    case Audited(_, updated, completed) => PublishMutation(db, r, updated, completed)
    case _ =>
      if r.CreateRequest? then
        (db.(counters := db.counters[r.counter := NewCounter(r)], operations := db.operations + [InitialOperation(r)]), Created)
      else (db, Failed(Unavailable))
  }

  function PublishMutation(db: Database, r: Request, updated: CounterRow, completed: OperationRow): (Database, Reply) {
    (db.(counters := db.counters[r.counter := updated],
         operations := db.operations + [completed],
         audit := if NeedsAudit(r) then db.audit + {r.operation} else db.audit),
     Mutated(MutationResult(completed.id, completed.delta, updated.value, r.now, false)))
  }

  // ---------------------------------------------------------------- locks

  datatype Resource =
    | CounterKey(id: string)
    | NameKey(tenant: string, name: string)
    | RowLock(id: string)
    | OperationKey(tenant: string, id: string)
    | AuditKey(id: string)

  /** Locks are held until the transaction ends. */
  function Holds(t: Txn): set<Resource> {
    var r := t.request;
    match t.phase
    case Start => {}
    case IdReserved => {CounterKey(r.counter)}
    case NameReserved => {CounterKey(r.counter), NameKey(r.tenant, if r.CreateRequest? then r.name else "")}
    case InitialReserved =>
      {CounterKey(r.counter), NameKey(r.tenant, if r.CreateRequest? then r.name else ""),
       OperationKey(r.tenant, InitialOperationId(r.counter))}
    case RowLocked(_, _) | Replaying(_, _, _) => {RowLock(r.counter)}
    case Audited(_, _, _) =>
      {RowLock(r.counter), OperationKey(r.tenant, if r.CreateRequest? then "" else r.operation),
       AuditKey(if r.CreateRequest? then "" else r.operation)}
    case _ => {RowLock(r.counter), OperationKey(r.tenant, if r.CreateRequest? then "" else r.operation)}
  }

  /** The lock that the next statement needs, if it needs one. */
  function Wants(t: Txn): Option<Resource> {
    var r := t.request;
    match t.phase
    case Start => Some(if r.CreateRequest? then CounterKey(r.counter) else RowLock(r.counter))
    case IdReserved => Some(NameKey(r.tenant, if r.CreateRequest? then r.name else ""))
    case NameReserved => Some(OperationKey(r.tenant, InitialOperationId(r.counter)))
    case RowLocked(_, _) => Some(OperationKey(r.tenant, if r.CreateRequest? then "" else r.operation))
    case OperationCompleted(_, _, _) => if NeedsAudit(r) then Some(AuditKey(r.operation)) else None
    case _ => None
  }

  // ---------------------------------------------------------------- the machine

  datatype Answer = Answer(request: Request, reply: Reply)

  /** `answers` is what clients were told, in order. `serial` lists the requests in the order
      in which they committed or were refused. */
  datatype State = State(db: Database, txns: map<nat, Txn>, answers: seq<Answer>, serial: seq<Request>)

  datatype Action =
    | Begin(id: nat, request: Request)
    | Execute(id: nat)
    | Commit(id: nat, delivered: bool)
    | Abort(id: nat)

  ghost predicate WaitsFor(s: State, a: nat, b: nat) {
    a in s.txns && b in s.txns && a != b && Wants(s.txns[a]).Some? && Wants(s.txns[a]).value in Holds(s.txns[b])
  }

  ghost predicate Blocked(s: State, a: nat) {
    exists b :: WaitsFor(s, a, b)
  }

  ghost predicate Enabled(s: State, a: Action) {
    match a
    case Begin(id, request) => id !in s.txns && Hashed(request)
    case Execute(id) => id in s.txns && !Committable(s.txns[id]) && !Blocked(s, id)
    case Commit(id, _) => id in s.txns && Committable(s.txns[id])
    case Abort(id) => id in s.txns
  }

  ghost function Next(s: State, a: Action): State
    requires Enabled(s, a)
  {
    match a
    case Begin(id, request) => s.(txns := s.txns[id := Txn(request, Start)])
    case Execute(id) =>
      var t := s.txns[id];
      (match Advance(s.db, t)
       case Continue(phase) => s.(txns := s.txns[id := t.(phase := phase)])
       case Stop(reply) => State(s.db, s.txns - {id}, s.answers + [Answer(t.request, reply)], s.serial + [t.request]))
    case Commit(id, delivered) =>
      var t := s.txns[id];
      var (db, reply) := Publish(s.db, t);
      State(db, s.txns - {id}, s.answers + [Answer(t.request, if delivered then reply else Failed(Unavailable))],
            s.serial + [t.request])
    case Abort(id) =>
      s.(txns := s.txns - {id}, answers := s.answers + [Answer(s.txns[id].request, Failed(Unavailable))])
  }

  function Empty(tenants: set<string>): Database {
    Database(tenants, map[], [], {}, map[], map[])
  }

  function Initially(tenants: set<string>): State {
    State(Empty(tenants), map[], [], [])
  }

  ghost predicate Feasible(s: State, actions: seq<Action>)
    decreases |actions|
  {
    actions == [] || (Enabled(s, actions[0]) && Feasible(Next(s, actions[0]), actions[1..]))
  }

  ghost function Run(s: State, actions: seq<Action>): State
    requires Feasible(s, actions)
    decreases |actions|
  {
    if actions == [] then s else Run(Next(s, actions[0]), actions[1..])
  }

  // ---------------------------------------------------------------- what every step keeps

  /** What a transaction knows about the committed state, because of the locks it holds. */
  predicate Knows(db: Database, t: Txn) {
    var r := t.request;
    Hashed(r) &&
    match t.phase
    case Start => true
    case IdReserved => r.CreateRequest? && r.counter !in db.counters
    case NameReserved =>
      r.CreateRequest? && r.counter !in db.counters && !LabelTaken(db, r.tenant, r.name) && r.tenant in db.tenants
    case InitialReserved =>
      r.CreateRequest? && r.counter !in db.counters && !LabelTaken(db, r.tenant, r.name) && r.tenant in db.tenants
      && Find(db.operations, r.tenant, InitialOperationId(r.counter)).None?
    case RowLocked(current, delta) => ReadUnderLock(db, r, current, delta)
    case Replaying(current, delta, existing) =>
      ReadUnderLock(db, r, current, delta) && Find(db.operations, r.tenant, r.operation) == Some(existing)
      && Resolve(existing, r).Mutated?
    case Reserved(current, pending) =>
      ReadUnderLock(db, r, current, pending.delta) && Find(db.operations, r.tenant, r.operation).None?
      && pending == PendingOperation(r, pending.delta)
    case CounterUpdated(current, updated, pending) => Decided(db, r, current, updated, pending)
    case OperationCompleted(current, updated, completed) =>
      !r.CreateRequest? && Decided(db, r, current, updated, PendingOperation(r, completed.delta))
      && completed == Complete(PendingOperation(r, completed.delta), current.value, updated.value, r.now)
    case Audited(current, updated, completed) =>
      NeedsAudit(r) && Decided(db, r, current, updated, PendingOperation(r, completed.delta))
      && completed == Complete(PendingOperation(r, completed.delta), current.value, updated.value, r.now)
      && r.operation !in db.audit
  }

  predicate ReadUnderLock(db: Database, r: Request, current: CounterRow, delta: int64) {
    !r.CreateRequest? && HasCounter(db, r.tenant, r.counter) && db.counters[r.counter] == current
    && delta == if r.IncrementRequest? then r.delta else r.value - current.value
  }

  predicate Decided(db: Database, r: Request, current: CounterRow, updated: CounterRow, pending: OperationRow) {
    ReadUnderLock(db, r, current, pending.delta) && Find(db.operations, r.tenant, r.operation).None?
    && pending == PendingOperation(r, pending.delta)
    && (r.IncrementRequest? ==> IncrementFault(current, r.delta).None?)
    && FitsInt64(current.value + pending.delta)
    && updated == current.(value := current.value + pending.delta, updatedAt := r.now)
  }

  /** Every successful answer is the result stored in the operation row of that very request. */
  predicate Recorded(db: Database, a: Answer) {
    a.reply.Mutated? ==>
      !a.request.CreateRequest? && a.reply.result.operationId == a.request.operation
      && var row := Find(db.operations, a.request.tenant, a.request.operation);
         row.Some? && WrittenBy(row.value, a.request)
         && row.value.delta == a.reply.result.delta && row.value.after == Some(a.reply.result.value)
  }

  predicate SameOperation(a: Request, b: Request) {
    !a.CreateRequest? && !b.CreateRequest? && a.tenant == b.tenant && a.operation == b.operation
  }

  predicate BothSucceeded(a: Answer, b: Answer) {
    a.reply.Mutated? && b.reply.Mutated? && SameOperation(a.request, b.request)
  }

  predicate Conclusive(reply: Reply) {
    reply != Failed(OperationInProgress) && reply != Failed(IncompleteResult)
  }

  function Serially(db: Database, requests: seq<Request>): Database {
    if requests == [] then db
    else Apply(Serially(db, requests[..|requests| - 1]), requests[|requests| - 1]).0
  }

  ghost predicate Disjoint(txns: map<nat, Txn>) {
    forall a, b :: a in txns && b in txns && a != b ==> Holds(txns[a]) !! Holds(txns[b])
  }

  ghost predicate TruthfulAnswers(db: Database, answers: seq<Answer>) {
    && (forall i :: 0 <= i < |answers| ==> Recorded(db, answers[i]))
    && (forall i :: 0 <= i < |answers| ==> Conclusive(answers[i].reply))
    && (forall i, j :: 0 <= i < j < |answers| && BothSucceeded(answers[i], answers[j]) ==>
          answers[j].reply.result.replayed)
  }

  ghost predicate Inv(s: State, origin: Database) {
    && Consistent(s.db)
    && (forall id :: id in s.txns ==> Knows(s.db, s.txns[id]))
    && Disjoint(s.txns)
    && TruthfulAnswers(s.db, s.answers)
    && s.db == Serially(origin, s.serial)
  }

  /** The heart of it: because of the locks, publishing the private writes at commit time is
      the same as executing the whole request in one go on the state at that time. */
  lemma CommitIsSerial(db: Database, t: Txn)
    requires Knows(db, t) && Committable(t)
    ensures Publish(db, t) == Apply(db, t.request)
  {
  }

  /** A refusal, too, is the answer of the serial step on the state at that time. */
  lemma StopIsSerial(db: Database, t: Txn)
    requires Knows(db, t) && !Committable(t) && Advance(db, t).Stop?
    ensures (db, Advance(db, t).reply) == Apply(db, t.request)
  {
  }

  lemma StatementKeepsKnowledge(db: Database, t: Txn)
    requires Knows(db, t) && !Committable(t) && Advance(db, t).Continue?
    ensures Knows(db, t.(phase := Advance(db, t).phase))
  {
  }

  lemma StatementTakesOneLock(db: Database, t: Txn)
    requires Knows(db, t) && !Committable(t) && Advance(db, t).Continue?
    ensures Holds(t.(phase := Advance(db, t).phase)) <=
            Holds(t) + if Wants(t).Some? then {Wants(t).value} else {}
  {
  }

  ghost predicate AgreeOnCounters(db: Database, db': Database, held: set<Resource>) {
    && (forall c :: CounterKey(c) !in held ==> (c in db'.counters <==> c in db.counters))
    && (forall c :: RowLock(c) !in held && c in db.counters ==> c in db'.counters && db'.counters[c] == db.counters[c])
  }

  ghost predicate AgreeOnLabels(db: Database, db': Database, held: set<Resource>) {
    forall tenant, name :: NameKey(tenant, name) !in held ==>
      (LabelTaken(db', tenant, name) <==> LabelTaken(db, tenant, name))
  }

  ghost predicate AgreeOnOperations(db: Database, db': Database, held: set<Resource>) {
    forall tenant, id :: OperationKey(tenant, id) !in held || Find(db.operations, tenant, id).Some? ==>
      Find(db'.operations, tenant, id) == Find(db.operations, tenant, id)
  }

  ghost predicate AgreeOnAudit(db: Database, db': Database, held: set<Resource>) {
    forall id :: AuditKey(id) !in held ==> (id in db'.audit <==> id in db.audit)
  }

  /** The two databases agree on everything that is not named by a lock in `held`, and on the
      operation rows of the first one even where it is. */
  ghost predicate Agree(db: Database, db': Database, held: set<Resource>) {
    && db'.tenants == db.tenants && AgreeOnCounters(db, db', held) && AgreeOnLabels(db, db', held)
    && AgreeOnOperations(db, db', held) && AgreeOnAudit(db, db', held)
  }

  /** A commit changes nothing beyond what its locks name. */
  lemma CommitStaysWithinLocks(db: Database, t: Txn)
    requires Knows(db, t) && Committable(t)
    ensures Agree(db, Publish(db, t).0, Holds(t))
  {
    var db' := Publish(db, t).0;
    if db' != db {
      CommitAppendsWithinLocks(db, t);
      assert db'.counters == db.counters[t.request.counter := db'.counters[t.request.counter]];
      LabelsAfter(db, db', t.request.counter);
    }
  }

  lemma CommitAppendsWithinLocks(db: Database, t: Txn)
    requires Knows(db, t) && Committable(t) && Publish(db, t).0 != db
    ensures AgreeOnOperations(db, Publish(db, t).0, Holds(t))
  {
    var db' := Publish(db, t).0;
    var row := db'.operations[|db.operations|];
    assert OperationKey(row.tenant, row.id) in Holds(t) && Find(db.operations, row.tenant, row.id).None?;
    forall tenant, id
      ensures Find(db'.operations, tenant, id) == if Keyed(row, tenant, id) then Some(row) else Find(db.operations, tenant, id)
    {
      FindAppended(db.operations, row, tenant, id);
    }
  }

  /** Writing one counter row gives away at most that row's name, and an update of a row keeps it. */
  lemma LabelsAfter(db: Database, db': Database, counter: string)
    requires counter in db'.counters && db'.counters == db.counters[counter := db'.counters[counter]]
    requires counter in db.counters ==>
               db'.counters[counter].tenant == db.counters[counter].tenant && db'.counters[counter].name == db.counters[counter].name
    ensures forall tenant, name :: LabelTaken(db', tenant, name) <==>
              LabelTaken(db, tenant, name) || (db'.counters[counter].tenant == tenant && db'.counters[counter].name == name)
  {
    forall tenant, name
      ensures LabelTaken(db', tenant, name) <==>
                LabelTaken(db, tenant, name) || (db'.counters[counter].tenant == tenant && db'.counters[counter].name == name)
    {
      if LabelTaken(db, tenant, name) {
        var id :| id in db.counters && db.counters[id].tenant == tenant && db.counters[id].name == name;
        assert id in db'.counters && db'.counters[id].tenant == tenant && db'.counters[id].name == name;
      }
    }
  }

  lemma AgreementKeepsKnowledge(db: Database, db': Database, held: set<Resource>, other: Txn)
    requires Knows(db, other) && Agree(db, db', held) && held !! Holds(other)
    ensures Knows(db', other)
  {
    assert forall lock :: lock in Holds(other) ==> lock !in held;
  }

  /** A commit cannot falsify what another transaction knows: its locks stand in the way. */
  lemma CommitKeepsKnowledge(db: Database, t: Txn, other: Txn)
    requires Knows(db, t) && Committable(t) && Knows(db, other)
    requires Holds(t) !! Holds(other)
    ensures Knows(Publish(db, t).0, other)
  {
    CommitStaysWithinLocks(db, t);
    AgreementKeepsKnowledge(db, Publish(db, t).0, Holds(t), other);
  }

  /** Operation rows are only ever appended under a new key, so recorded answers stay recorded. */
  lemma AnswersStayRecorded(db: Database, r: Request, answers: seq<Answer>)
    requires Consistent(db) && TruthfulAnswers(db, answers)
    ensures TruthfulAnswers(Apply(db, r).0, answers)
  {
    var db' := Apply(db, r).0;
    if db' != db {
      var row := db'.operations[|db.operations|];
      forall i | 0 <= i < |answers|
        ensures Recorded(db', answers[i])
      {
        if answers[i].reply.Mutated? {
          FindAppended(db.operations, row, answers[i].request.tenant, answers[i].request.operation);
        }
      }
    }
  }

  lemma ReplayIsRecorded(db: Database, r: Request)
    requires Consistent(db) && Hashed(r) && !r.CreateRequest? && Find(db.operations, r.tenant, r.operation).Some?
    ensures var reply := Resolve(Find(db.operations, r.tenant, r.operation).value, r);
            Recorded(db, Answer(r, reply)) && (reply.Mutated? ==> reply.result.replayed)
            && Conclusive(reply)
  {
    FindMeansKeyed(db.operations, r.tenant, r.operation);
    ResolveIffSameRequest(Find(db.operations, r.tenant, r.operation).value, r);
  }

  lemma WriteIsRecorded(db: Database, r: Request, current: CounterRow, delta: int64, after: int64)
    requires !r.CreateRequest? && (r.IncrementRequest? ==> delta == r.delta) && (r.SetRequest? ==> after == r.value)
    ensures var (db', reply) := Write(db, r, current, delta, after);
            Recorded(db', Answer(r, reply)) && reply.Mutated?
  {
    FindAppended(db.operations, Complete(PendingOperation(r, delta), current.value, after, r.now), r.tenant, r.operation);
  }

  /** What it means that the serial step answers `r` truthfully: the stored row is the one that
      it reports, and it claims a first execution only when the operation id was new. */
  predicate AnsweredTruly(db: Database, r: Request) {
    var (db', reply) := Apply(db, r);
    Recorded(db', Answer(r, reply)) && Conclusive(reply)
    && (reply.Mutated? && !reply.result.replayed ==> Find(db.operations, r.tenant, r.operation).None?)
  }

  lemma IncrementIsRecorded(db: Database, r: Request)
    requires Consistent(db) && Hashed(r) && r.IncrementRequest?
    ensures AnsweredTruly(db, r)
  {
    if HasCounter(db, r.tenant, r.counter) {
      var current := db.counters[r.counter];
      if Find(db.operations, r.tenant, r.operation).Some? {
        ReplayIsRecorded(db, r);
      } else if IncrementFault(current, r.delta).None? {
        WriteIsRecorded(db, r, current, r.delta, current.value + r.delta);
      }
    }
  }

  lemma SetIsRecorded(db: Database, r: Request)
    requires Consistent(db) && Hashed(r) && r.SetRequest?
    ensures AnsweredTruly(db, r)
  {
    if HasCounter(db, r.tenant, r.counter) && FitsInt64(r.value - db.counters[r.counter].value) {
      var current := db.counters[r.counter];
      if Find(db.operations, r.tenant, r.operation).Some? {
        ReplayIsRecorded(db, r);
      } else {
        WriteIsRecorded(db, r, current, r.value - current.value, r.value);
      }
    }
  }

  lemma AnswerIsRecorded(db: Database, r: Request)
    requires Consistent(db) && Hashed(r)
    ensures AnsweredTruly(db, r)
  {
    match r
    case CreateRequest(_, _, _, _, _, _) =>
    case IncrementRequest(_, _, _, _, _, _, _) => IncrementIsRecorded(db, r);
    case SetRequest(_, _, _, _, _, _, _) => SetIsRecorded(db, r);
  }

  /** Answering `r` with the reply of its serial step keeps the whole list of answers truthful. */
  lemma AnswerKeepsTruthful(db: Database, r: Request, answers: seq<Answer>, delivered: bool)
    requires Consistent(db) && Hashed(r) && TruthfulAnswers(db, answers)
    ensures TruthfulAnswers(Apply(db, r).0,
              answers + [Answer(r, if delivered then Apply(db, r).1 else Failed(Unavailable))])
  {
    AnswersStayRecorded(db, r, answers);
    AnswerIsRecorded(db, r);
  }

  lemma SeriallyAppended(origin: Database, requests: seq<Request>, r: Request)
    ensures Serially(origin, requests + [r]) == Apply(Serially(origin, requests), r).0
  {
    assert (requests + [r])[..|requests|] == requests;
  }

  /** A statement that did not have to wait takes no lock that another transaction holds. */
  lemma StatementStaysDisjoint(s: State, id: nat)
    requires Disjoint(s.txns) && id in s.txns && Knows(s.db, s.txns[id])
    requires Enabled(s, Execute(id)) && Advance(s.db, s.txns[id]).Continue?
    ensures Disjoint(s.txns[id := s.txns[id].(phase := Advance(s.db, s.txns[id]).phase)])
  {
    var t := s.txns[id];
    var t' := t.(phase := Advance(s.db, t).phase);
    StatementTakesOneLock(s.db, t);
    forall a | a in s.txns && a != id
      ensures Holds(s.txns[a]) !! Holds(t')
    {
      assert !WaitsFor(s, id, a) && Holds(s.txns[a]) !! Holds(t);
    }
  }

  lemma ContinueKeepsInv(s: State, id: nat, origin: Database)
    requires Inv(s, origin) && Enabled(s, Execute(id)) && Advance(s.db, s.txns[id]).Continue?
    ensures Inv(Next(s, Execute(id)), origin)
  {
    StatementKeepsKnowledge(s.db, s.txns[id]);
    StatementStaysDisjoint(s, id);
  }

  lemma StopKeepsInv(s: State, id: nat, origin: Database)
    requires Inv(s, origin) && Enabled(s, Execute(id)) && Advance(s.db, s.txns[id]).Stop?
    ensures Inv(Next(s, Execute(id)), origin)
  {
    var t := s.txns[id];
    StopIsSerial(s.db, t);
    AnswerKeepsTruthful(s.db, t.request, s.answers, true);
    SeriallyAppended(origin, s.serial, t.request);
  }

  lemma ExecuteKeepsInv(s: State, id: nat, origin: Database)
    requires Inv(s, origin) && Enabled(s, Execute(id))
    ensures Inv(Next(s, Execute(id)), origin)
  {
    if Advance(s.db, s.txns[id]).Continue? {
      ContinueKeepsInv(s, id, origin);
    } else {
      StopKeepsInv(s, id, origin);
    }
  }

  lemma CommitKeepsInv(s: State, id: nat, delivered: bool, origin: Database)
    requires Inv(s, origin) && Enabled(s, Commit(id, delivered))
    ensures Inv(Next(s, Commit(id, delivered)), origin)
  {
    var t := s.txns[id];
    CommitIsSerial(s.db, t);
    ApplyKeepsConsistent(s.db, t.request);
    AnswerKeepsTruthful(s.db, t.request, s.answers, delivered);
    SeriallyAppended(origin, s.serial, t.request);
    forall a | a in s.txns && a != id
      ensures Knows(Publish(s.db, t).0, s.txns[a])
    {
      CommitKeepsKnowledge(s.db, t, s.txns[a]);
    }
  }

  lemma BeginKeepsInv(s: State, id: nat, request: Request, origin: Database)
    requires Inv(s, origin) && Enabled(s, Begin(id, request))
    ensures Inv(Next(s, Begin(id, request)), origin)
  {
  }

  lemma AbortKeepsInv(s: State, id: nat, origin: Database)
    requires Inv(s, origin) && Enabled(s, Abort(id))
    ensures Inv(Next(s, Abort(id)), origin)
  {
  }

  lemma NextKeepsInv(s: State, a: Action, origin: Database)
    requires Inv(s, origin) && Enabled(s, a)
    ensures Inv(Next(s, a), origin)
  {
    match a
    case Begin(id, request) => BeginKeepsInv(s, id, request, origin);
    case Execute(id) => ExecuteKeepsInv(s, id, origin);
    case Commit(id, delivered) => CommitKeepsInv(s, id, delivered, origin);
    case Abort(id) => AbortKeepsInv(s, id, origin);
  }

  lemma {:induction false} RunKeepsInv(s: State, actions: seq<Action>, origin: Database)
    requires Inv(s, origin) && Feasible(s, actions)
    ensures Inv(Run(s, actions), origin)
    decreases |actions|
  {
    if actions != [] {
      NextKeepsInv(s, actions[0], origin);
      RunKeepsInv(Next(s, actions[0]), actions[1..], origin);
    }
  }

  // ---------------------------------------------------------------- the theorems

  lemma {:induction false} SeriallyWithinLimits(tenants: set<string>, requests: seq<Request>)
    ensures WithinLimits(Serially(Empty(tenants), requests))
  {
    if requests != [] {
      var earlier := requests[..|requests| - 1];
      SeriallyWithinLimits(tenants, earlier);
      ApplyKeepsLimits(Serially(Empty(tenants), earlier), requests[|requests| - 1]);
    }
  }

  /** In every reachable state of every interleaving, each increment in the table was positive and
      at most its counter's maximum. */
  lemma IncrementsStayWithinLimits(tenants: set<string>, actions: seq<Action>, i: nat)
    requires Feasible(Initially(tenants), actions)
    requires var rows := Run(Initially(tenants), actions).db.operations; i < |rows| && rows[i].kind == Increment
    ensures var db := Run(Initially(tenants), actions).db;
            var row := db.operations[i];
            && row.counter in db.counters && db.counters[row.counter].tenant == row.tenant
            && 0 < row.delta <= db.counters[row.counter].maxDelta
  {
    InterleavingsAreSerializable(tenants, actions);
    SeriallyWithinLimits(tenants, Run(Initially(tenants), actions).serial);
  }

  /** In every reachable state of every interleaving, the completed operations of each counter
      form, in commit order, an unbroken chain from zero to its value; they add up to the
      value; exactly one of them is the initial value; and no pending operation is committed. */
  lemma LedgerIsConserved(tenants: set<string>, actions: seq<Action>, counter: string)
    requires Feasible(Initially(tenants), actions)
    requires counter in Run(Initially(tenants), actions).db.counters
    ensures var db := Run(Initially(tenants), actions).db;
            var row := db.counters[counter];
            var history := History(db.operations, row.tenant, counter);
            Chain(history, row.value) && SumDeltas(history) == row.value && CountInitial(history) == 1
            && FitsInt64(row.value)
            && forall i :: 0 <= i < |db.operations| ==> db.operations[i].state == Completed
  {
    RunKeepsInv(Initially(tenants), actions, Empty(tenants));
    var db := Run(Initially(tenants), actions).db;
    var row := db.counters[counter];
    ChainAddsUp(History(db.operations, row.tenant, counter), row.value);
  }

  /** Every interleaving is equivalent to executing the requests one after another in the
      order in which they committed or were refused. */
  lemma InterleavingsAreSerializable(tenants: set<string>, actions: seq<Action>)
    requires Feasible(Initially(tenants), actions)
    ensures var s := Run(Initially(tenants), actions);
            s.db == Serially(Empty(tenants), s.serial) && Consistent(s.db)
  {
    RunKeepsInv(Initially(tenants), actions, Empty(tenants));
  }

  /** Over any run with retries, lost answers and rollbacks: an operation id is written at most
      once; at most one answer under it claims a first execution; all successful answers under
      it were given to the same request and report the same delta and value; and nobody is
      ever told that the operation is in progress. */
  lemma OperationsTakeEffectOnce(tenants: set<string>, actions: seq<Action>, i: nat, j: nat)
    requires Feasible(Initially(tenants), actions)
    requires i < j < |Run(Initially(tenants), actions).answers|
    ensures var s := Run(Initially(tenants), actions);
            var a, b := s.answers[i], s.answers[j];
            && Conclusive(a.reply) && Conclusive(b.reply)
            && (forall k, l :: 0 <= k < l < |s.db.operations| ==>
                  !Keyed(s.db.operations[k], s.db.operations[l].tenant, s.db.operations[l].id))
            && (BothSucceeded(a, b) ==>
                  && b.reply.result.replayed
                  && a.reply.result.operationId == b.reply.result.operationId
                  && a.reply.result.delta == b.reply.result.delta
                  && a.reply.result.value == b.reply.result.value
                  && a.request.counter == b.request.counter
                  && (if a.request.IncrementRequest? then b.request.IncrementRequest? && a.request.delta == b.request.delta
                      else b.request.SetRequest? && a.request.value == b.request.value))
  {
    RunKeepsInv(Initially(tenants), actions, Empty(tenants));
    var s := Run(Initially(tenants), actions);
    assert Recorded(s.db, s.answers[i]) && Recorded(s.db, s.answers[j]);
  }

  /** Whatever happens next in a reachable state: the tables stay as they are, or one operation
      is written under an id never written before and one counter moves by exactly its delta. */
  lemma StepsWriteOneOperation(tenants: set<string>, actions: seq<Action>, a: Action)
    requires Feasible(Initially(tenants), actions) && Enabled(Run(Initially(tenants), actions), a)
    ensures var db, db' := Run(Initially(tenants), actions).db, Next(Run(Initially(tenants), actions), a).db;
            db' == db || (|db'.operations| > |db.operations| && OneOperation(db, db', db'.operations[|db.operations|]))
  {
    RunKeepsInv(Initially(tenants), actions, Empty(tenants));
    var s := Run(Initially(tenants), actions);
    if a.Commit? {
      CommitIsSerial(s.db, s.txns[a.id]);
      ApplyWritesOneOperation(s.db, s.txns[a.id].request);
    }
  }

  // ---------------------------------------------------------------- no deadlock

  /** The order in which locks are taken. */
  function Rank(r: Resource): nat {
    match r
    case CounterKey(_) => 0
    case NameKey(_, _) => 1
    case RowLock(_) => 2
    case OperationKey(_, _) => 3
    case AuditKey(_) => 4
  }

  function WaitRank(t: Txn): int {
    if Wants(t).Some? then Rank(Wants(t).value) else 5
  }

  /** Whoever is waited for is itself waiting for a lock of higher rank, or not waiting. */
  lemma WaitingClimbs(s: State, a: nat, b: nat)
    requires WaitsFor(s, a, b)
    ensures WaitRank(s.txns[a]) < WaitRank(s.txns[b])
  {
  }

  ghost predicate WaitPath(s: State, path: seq<nat>) {
    |path| >= 2 && forall i :: 0 <= i < |path| - 1 ==> WaitsFor(s, path[i], path[i + 1])
  }

  /** The wait-for graph has no cycle. */
  lemma {:induction false} NoWaitCycle(s: State, path: seq<nat>)
    requires WaitPath(s, path)
    ensures path[0] in s.txns && path[|path| - 1] in s.txns
    ensures WaitRank(s.txns[path[0]]) < WaitRank(s.txns[path[|path| - 1]])
    ensures path[0] != path[|path| - 1]
  {
    WaitingClimbs(s, path[0], path[1]);
    if |path| > 2 {
      assert WaitPath(s, path[1..]) by {
        forall i | 0 <= i < |path| - 2
          ensures WaitsFor(s, path[1..][i], path[1..][i + 1])
        {
          assert WaitsFor(s, path[i + 1], path[i + 2]);
        }
      }
      NoWaitCycle(s, path[1..]);
    }
  }

  lemma {:induction false} HighestWaiter(s: State, ids: set<nat>) returns (top: nat)
    requires ids != {} && ids <= s.txns.Keys
    ensures top in ids && forall id :: id in ids ==> WaitRank(s.txns[id]) <= WaitRank(s.txns[top])
  {
    top :| top in ids;
    if ids != {top} {
      var best := HighestWaiter(s, ids - {top});
      if WaitRank(s.txns[top]) < WaitRank(s.txns[best]) {
        top := best;
      }
    }
  }

  /** As long as a transaction is unfinished, some transaction can execute its next statement
      or commit. */
  lemma SomeTransactionCanStep(s: State)
    requires s.txns != map[]
    ensures exists id :: id in s.txns && (Enabled(s, Execute(id)) || Enabled(s, Commit(id, true)))
  {
    var some :| some in s.txns;
    var top := HighestWaiter(s, s.txns.Keys);
    if Blocked(s, top) {
      var b :| WaitsFor(s, top, b);
      WaitingClimbs(s, top, b);
      assert false;
    }
    assert Enabled(s, Execute(top)) || Enabled(s, Commit(top, true));
  }
}
