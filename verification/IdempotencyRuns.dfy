/** Keyed calls from any number of replicas, interleaved statement by statement with each other
    and with arbitrary other transactions. */
module IdempotencyRuns {
  import opened Common
  import opened Schema
  import opened Idempotency
  import Transactions

  /** A call that carries a well-formed key. */
  type KeyedCall = c: Call | c.key.Key? witness Call(Key(""), "", "", false)

  /** Where a call stands. `writes` are the handler's statements so far, not yet visible;
      `carried` tells that the handler's context carries the wrapper's transaction; `inner` is a
      scope that the handler has begun and not yet finished, and whether it owns its transaction. */
  datatype Phase =
    | Waiting
    | Locked
    | Purged
    | Running(writes: Database -> Database, carried: bool, inner: Option<bool>)
    | Saving(writes: Database -> Database, response: Response)

  /** `start` is NOW(): PostgreSQL fixes it when the transaction begins. */
  datatype Txn = Txn(call: KeyedCall, start: int, phase: Phase)

  /** A committed execution of a handler under a key. */
  datatype Execution = Execution(call: KeyedCall, start: int, row: ReplayRow, response: Response)

  datatype Answer = Answer(call: KeyedCall, response: Response)

  datatype State = State(
    db: Database, clock: int, txns: map<nat, Txn>, executions: seq<Execution>, answers: seq<Answer>)

  datatype Action =
    | Begin(id: nat, call: KeyedCall)
    | Lock(id: nat)
    | Purge(id: nat)
    | Look(id: nat)
    | Write(id: nat, write: Database -> Database)
    | InnerBegin(id: nat)
    | InnerFinish(id: nat, commit: bool)
    | Respond(id: nat, response: Response)
    | Commit(id: nat, delivered: bool)
    | Abort(id: nat)
    | Other(write: Database -> Database)
    | Pass(micros: nat)

  function At(call: KeyedCall): (string, string) {
    (call.scope, call.key.uuid)
  }

  predicate HasLock(t: Txn) {
    !t.phase.Waiting?
  }

  /** No handler reads or writes the replay table. */
  ghost predicate KeepsReplays(write: Database -> Database) {
    forall db: Database, replays :: write(db.(replays := replays)) == write(db).(replays := replays)
  }

  lemma ReplaysKept(write: Database -> Database, db: Database)
    requires KeepsReplays(write)
    ensures write(db).replays == db.replays
  {
    assert db.(replays := db.replays) == db;
    assert write(db.(replays := db.replays)) == write(db).(replays := db.replays);
  }

  lemma ComposedKeepsReplays(first: Database -> Database, second: Database -> Database)
    requires KeepsReplays(first) && KeepsReplays(second)
    ensures KeepsReplays(Compose(first, second))
  {
  }

  /** `lockOf` stands for hashtextextended: two keys may share a lock. */
  ghost predicate Enabled(lockOf: ((string, string)) -> int, s: State, a: Action) {
    match a
    case Begin(id, call) => id !in s.txns
    case Lock(id) =>
      id in s.txns && s.txns[id].phase.Waiting?
      && forall other :: other in s.txns && HasLock(s.txns[other]) ==>
           lockOf(At(s.txns[other].call)) != lockOf(At(s.txns[id].call))
    case Purge(id) => id in s.txns && s.txns[id].phase.Locked?
    case Look(id) => id in s.txns && s.txns[id].phase.Purged?
    case Write(id, write) => id in s.txns && s.txns[id].phase.Running? && KeepsReplays(write)
    case InnerBegin(id) => id in s.txns && s.txns[id].phase.Running?
    case InnerFinish(id, _) => id in s.txns && s.txns[id].phase.Running? && s.txns[id].phase.inner.Some?
    case Respond(id, response) => id in s.txns && s.txns[id].phase.Running? && response.replayed.None?
    case Commit(id, _) =>
      id in s.txns && s.txns[id].phase.Saving?
      && Storable(s.txns[id].call, s.txns[id].phase.response)
    case Abort(id) => id in s.txns
    case Other(write) => KeepsReplays(write)
    case Pass(_) => true
  }

  function Compose(first: Database -> Database, second: Database -> Database): Database -> Database {
    db => second(first(db))
  }

  ghost function Ended(s: State, id: nat, response: Response): State
    requires id in s.txns
  {
    s.(txns := s.txns - {id}, answers := s.answers + [Answer(s.txns[id].call, response)])
  }

  ghost function Moved(s: State, id: nat, phase: Phase): State
    requires id in s.txns
  {
    s.(txns := s.txns[id := s.txns[id].(phase := phase)])
  }

  ghost function Next(lockOf: ((string, string)) -> int, s: State, a: Action): State
    requires Enabled(lockOf, s, a)
  {
    match a
    case Begin(id, call) => s.(txns := s.txns[id := Txn(call, s.clock, Waiting)])
    case Lock(id) => Moved(s, id, Locked)
    case Purge(id) => Moved(s, id, Purged)
    case Look(id) =>
      var t := s.txns[id];
      if !Live(s.db.replays, At(t.call), t.start) then Moved(s, id, Running(db => db, true, None))
      else if s.db.replays[At(t.call)].hash != t.call.hash then Ended(s, id, ErrorResponse(409))
      else Ended(s, id, Replay(s.db.replays[At(t.call)]))
    case Write(id, write) =>
      var phase := s.txns[id].phase;
      Moved(s, id, Running(Compose(phase.writes, write), phase.carried, phase.inner))
    case InnerBegin(id) =>
      var phase := s.txns[id].phase;
      Moved(s, id, phase.(inner := Some(Transactions.Owns(phase.carried))))
    case InnerFinish(id, commit) =>
      var phase := s.txns[id].phase;
      Moved(s, id, phase.(inner := None))
        .(db := Transactions.Finished(s.db, phase.writes(s.db), true, phase.inner.value, commit).0)
    case Respond(id, response) =>
      if !Successful(response) then Ended(s, id, response)
      else if !Storable(s.txns[id].call, response) then Ended(s, id, ErrorResponse(500))
      else Moved(s, id, Saving(s.txns[id].phase.writes, response))
    case Commit(id, delivered) =>
      var t := s.txns[id];
      var row := Saved(t.call, t.phase.response, t.start);
      var written := t.phase.writes(s.db);
      Ended(s, id, if delivered then t.phase.response.(replayed := Some(false)) else ErrorResponse(503))
        .(db := written.(replays := written.replays[At(t.call) := row]),
          executions := s.executions + [Execution(t.call, t.start, row, t.phase.response)])
    case Abort(id) => Ended(s, id, ErrorResponse(503))
    case Other(write) => s.(db := write(s.db))
    case Pass(micros) => s.(clock := s.clock + micros)
  }

  function Initially(db: Database): State {
    State(db.(replays := map[]), 0, map[], [], [])
  }

  ghost predicate Feasible(lockOf: ((string, string)) -> int, s: State, actions: seq<Action>)
    decreases |actions|
  {
    actions == [] || (Enabled(lockOf, s, actions[0]) && Feasible(lockOf, Next(lockOf, s, actions[0]), actions[1..]))
  }

  ghost function Run(lockOf: ((string, string)) -> int, s: State, actions: seq<Action>): State
    requires Feasible(lockOf, s, actions)
    decreases |actions|
  {
    if actions == [] then s else Run(lockOf, Next(lockOf, s, actions[0]), actions[1..])
  }

  // ---------------------------------------------------------------- what every step keeps

  /** A call that runs its handler has seen that no live record stands in its way. */
  ghost predicate Cleared(db: Database, t: Txn) {
    && (t.phase.Running? || t.phase.Saving? ==> !Live(db.replays, At(t.call), t.start) && KeepsReplays(t.phase.writes))
    && (t.phase.Running? ==> t.phase.carried && (t.phase.inner.Some? ==> !t.phase.inner.value))
    && (t.phase.Saving? ==>
          Successful(t.phase.response) && Storable(t.call, t.phase.response) && t.phase.response.replayed.None?)
  }

  predicate Clash(lockOf: ((string, string)) -> int, a: Txn, b: Txn) {
    HasLock(a) && HasLock(b) && lockOf(At(a.call)) == lockOf(At(b.call))
  }

  ghost predicate Exclusive(lockOf: ((string, string)) -> int, txns: map<nat, Txn>) {
    forall a, b :: a in txns && b in txns && a != b ==> !Clash(lockOf, txns[a], txns[b])
  }

  /** Every execution stored what it answered, and a record as late as its own is still there. */
  predicate Stored(db: Database, e: Execution) {
    && Storable(e.call, e.response) && e.row == Saved(e.call, e.response, e.start)
    && At(e.call) in db.replays && e.start + DAY <= db.replays[At(e.call)].expiresAt
  }

  ghost predicate Sourced(at: (string, string), row: ReplayRow, executions: seq<Execution>) {
    exists i :: 0 <= i < |executions| && At(executions[i].call) == at && executions[i].row == row
  }

  ghost predicate DayApart(executions: seq<Execution>) {
    forall i, j :: 0 <= i < j < |executions| && At(executions[i].call) == At(executions[j].call) ==>
      executions[i].start + DAY <= executions[j].start
  }

  ghost predicate Recorded(db: Database, executions: seq<Execution>) {
    && (forall i :: 0 <= i < |executions| ==> Stored(db, executions[i]))
    && (forall at :: at in db.replays ==> Sourced(at, db.replays[at], executions))
    && DayApart(executions)
  }

  /** A replayed answer is the stored answer of an execution of the same request. */
  ghost predicate FromExecution(a: Answer, executions: seq<Execution>) {
    a.response.replayed == Some(true) ==>
      exists row :: Sourced(At(a.call), row, executions) && row.hash == a.call.hash && a.response == Replay(row)
  }

  ghost predicate Inv(lockOf: ((string, string)) -> int, s: State) {
    && (forall id :: id in s.txns ==> Cleared(s.db, s.txns[id]))
    && Exclusive(lockOf, s.txns)
    && Recorded(s.db, s.executions)
    && (forall i :: 0 <= i < |s.answers| ==> FromExecution(s.answers[i], s.executions))
  }

  lemma SourcedLater(at: (string, string), row: ReplayRow, executions: seq<Execution>, e: Execution)
    requires Sourced(at, row, executions)
    ensures Sourced(at, row, executions + [e])
  {
    var i :| 0 <= i < |executions| && At(executions[i].call) == at && executions[i].row == row;
    assert (executions + [e])[i] == executions[i];
  }

  lemma LookKeepsInv(lockOf: ((string, string)) -> int, s: State, id: nat)
    requires Inv(lockOf, s) && Enabled(lockOf, s, Look(id))
    ensures Inv(lockOf, Next(lockOf, s, Look(id)))
  {
    var t, s' := s.txns[id], Next(lockOf, s, Look(id));
    if Live(s.db.replays, At(t.call), t.start) && s.db.replays[At(t.call)].hash == t.call.hash {
      var a := s'.answers[|s.answers|];
      assert Sourced(At(a.call), s.db.replays[At(a.call)], s.executions);
      assert FromExecution(a, s.executions);
    }
  }

  /** The new execution waited out every earlier one under its key: their records had expired
      when its transaction began. */
  lemma CommitKeepsRecord(db: Database, t: Txn, executions: seq<Execution>)
    requires Cleared(db, t) && t.phase.Saving? && Recorded(db, executions)
    ensures var row := Saved(t.call, t.phase.response, t.start);
            var written := t.phase.writes(db);
            Recorded(written.(replays := written.replays[At(t.call) := row]),
                     executions + [Execution(t.call, t.start, row, t.phase.response)])
  {
    var row := Saved(t.call, t.phase.response, t.start);
    var written := t.phase.writes(db);
    var db' := written.(replays := written.replays[At(t.call) := row]);
    var e := Execution(t.call, t.start, row, t.phase.response);
    var executions' := executions + [e];
    ReplaysKept(t.phase.writes, db);
    forall i | 0 <= i < |executions'|
      ensures Stored(db', executions'[i])
      ensures i < |executions| && At(executions'[i].call) == At(t.call) ==> executions'[i].start + DAY <= t.start
    {
      if i < |executions| {
        assert Stored(db, executions[i]);
      }
    }
    forall at | at in db'.replays
      ensures Sourced(at, db'.replays[at], executions')
    {
      if at == At(t.call) {
        assert executions'[|executions|] == e;
      } else {
        SourcedLater(at, db.replays[at], executions, e);
      }
    }
  }

  lemma CommitKeepsInv(lockOf: ((string, string)) -> int, s: State, id: nat, delivered: bool)
    requires Inv(lockOf, s) && Enabled(lockOf, s, Commit(id, delivered))
    ensures Inv(lockOf, Next(lockOf, s, Commit(id, delivered)))
  {
    var t, s' := s.txns[id], Next(lockOf, s, Commit(id, delivered));
    CommitKeepsRecord(s.db, t, s.executions);
    ReplaysKept(t.phase.writes, s.db);
    forall other | other in s'.txns
      ensures Cleared(s'.db, s'.txns[other])
    {
      assert Cleared(s.db, s.txns[other]) && !Clash(lockOf, t, s.txns[other]);
    }
    forall i | 0 <= i < |s'.answers|
      ensures FromExecution(s'.answers[i], s'.executions)
    {
      if i < |s.answers| && s.answers[i].response.replayed == Some(true) {
        assert FromExecution(s.answers[i], s.executions);
        var row :| Sourced(At(s.answers[i].call), row, s.executions) && row.hash == s.answers[i].call.hash
                   && s.answers[i].response == Replay(row);
        SourcedLater(At(s.answers[i].call), row, s.executions, s'.executions[|s.executions|]);
      }
    }
  }

  lemma WriteKeepsInv(lockOf: ((string, string)) -> int, s: State, id: nat, write: Database -> Database)
    requires Inv(lockOf, s) && Enabled(lockOf, s, Write(id, write))
    ensures Inv(lockOf, Next(lockOf, s, Write(id, write)))
  {
    ComposedKeepsReplays(s.txns[id].phase.writes, write);
  }

  lemma OtherKeepsInv(lockOf: ((string, string)) -> int, s: State, write: Database -> Database)
    requires Inv(lockOf, s) && Enabled(lockOf, s, Other(write))
    ensures Inv(lockOf, Next(lockOf, s, Other(write)))
  {
    ReplaysKept(write, s.db);
  }

  lemma LockKeepsInv(lockOf: ((string, string)) -> int, s: State, id: nat)
    requires Inv(lockOf, s) && Enabled(lockOf, s, Lock(id))
    ensures Inv(lockOf, Next(lockOf, s, Lock(id)))
  {
  }

  /** The handler's own scopes join the wrapper's transaction, so ending them changes nothing. */
  lemma InnerKeepsInv(lockOf: ((string, string)) -> int, s: State, a: Action)
    requires Inv(lockOf, s) && Enabled(lockOf, s, a) && (a.InnerBegin? || a.InnerFinish?)
    ensures Inv(lockOf, Next(lockOf, s, a)) && Next(lockOf, s, a).db == s.db
  {
    assert Cleared(s.db, s.txns[a.id]);
  }

  lemma RespondKeepsInv(lockOf: ((string, string)) -> int, s: State, id: nat, response: Response)
    requires Inv(lockOf, s) && Enabled(lockOf, s, Respond(id, response))
    ensures Inv(lockOf, Next(lockOf, s, Respond(id, response)))
  {
    assert Cleared(s.db, s.txns[id]);
  }

  lemma NextKeepsInv(lockOf: ((string, string)) -> int, s: State, a: Action)
    requires Inv(lockOf, s) && Enabled(lockOf, s, a)
    ensures Inv(lockOf, Next(lockOf, s, a))
  {
    match a
    case Look(id) => LookKeepsInv(lockOf, s, id);
    case Commit(id, delivered) => CommitKeepsInv(lockOf, s, id, delivered);
    case Lock(id) => LockKeepsInv(lockOf, s, id);
    case Write(id, write) => WriteKeepsInv(lockOf, s, id, write);
    case InnerBegin(_) => InnerKeepsInv(lockOf, s, a);
    case InnerFinish(_, _) => InnerKeepsInv(lockOf, s, a);
    case Respond(id, response) => RespondKeepsInv(lockOf, s, id, response);
    case Other(write) => OtherKeepsInv(lockOf, s, write);
    case _ =>
  }

  lemma {:induction false} RunKeepsInv(lockOf: ((string, string)) -> int, s: State, actions: seq<Action>)
    requires Inv(lockOf, s) && Feasible(lockOf, s, actions)
    ensures Inv(lockOf, Run(lockOf, s, actions))
    decreases |actions|
  {
    if actions != [] {
      NextKeepsInv(lockOf, s, actions[0]);
      RunKeepsInv(lockOf, Next(lockOf, s, actions[0]), actions[1..]);
    }
  }

  // ---------------------------------------------------------------- the theorems

  /** For any interleaving and any hash behind the advisory locks: two committed executions under
      one scope and key belong to transactions that began at least 24 hours apart. */
  lemma ExecutionsAreADayApart(lockOf: ((string, string)) -> int, db: Database, actions: seq<Action>, i: nat, j: nat)
    requires Feasible(lockOf, Initially(db), actions)
    requires var executions := Run(lockOf, Initially(db), actions).executions;
             i < j < |executions| && executions[i].call.scope == executions[j].call.scope
             && executions[i].call.key == executions[j].call.key
    ensures var executions := Run(lockOf, Initially(db), actions).executions;
            executions[i].start + 86_400_000_000 <= executions[j].start
  {
    RunKeepsInv(lockOf, Initially(db), actions);
  }

  /** What a replayed answer owes to an execution. */
  ghost predicate Repeats(a: Answer, e: Execution) {
    && At(e.call) == At(a.call) && e.call.hash == a.call.hash
    && RepeatsAnswer(e.response, a.response, e.call.credential)
    && (e.call.credential ==> a.response.body.Object? && "api_key" !in a.response.body.members)
  }

  lemma ReplayRepeats(a: Answer, db: Database, executions: seq<Execution>)
    requires FromExecution(a, executions) && Recorded(db, executions) && a.response.replayed == Some(true)
    ensures exists k :: 0 <= k < |executions| && Repeats(a, executions[k])
  {
    var row :| Sourced(At(a.call), row, executions) && row.hash == a.call.hash && a.response == Replay(row);
    var k :| 0 <= k < |executions| && At(executions[k].call) == At(a.call) && executions[k].row == row;
    assert Stored(db, executions[k]);
    SavedRepeats(executions[k].call, executions[k].response, executions[k].start);
    assert Repeats(a, executions[k]);
  }

  /** Every replay repeats the status, body and headers of a committed execution of the same
      request, and never carries the secret that a credential route issued. */
  lemma ReplaysRepeatAnExecution(lockOf: ((string, string)) -> int, db: Database, actions: seq<Action>, i: nat)
    requires Feasible(lockOf, Initially(db), actions)
    requires i < |Run(lockOf, Initially(db), actions).answers|
    requires Run(lockOf, Initially(db), actions).answers[i].response.replayed == Some(true)
    ensures var s := Run(lockOf, Initially(db), actions);
            exists k :: 0 <= k < |s.executions| && Repeats(s.answers[i], s.executions[k])
  {
    RunKeepsInv(lockOf, Initially(db), actions);
    var s := Run(lockOf, Initially(db), actions);
    ReplayRepeats(s.answers[i], s.db, s.executions);
  }

  /** What the finished handler would do if it ran in one go on a given database. */
  function AsHandler(t: Txn): Database -> (Database, Response)
    requires t.phase.Saving?
  {
    db => (t.phase.writes(db), t.phase.response)
  }

  /** Publishing the writes and the record at commit time is serving the whole call at that time. */
  lemma CommitIsServe(lockOf: ((string, string)) -> int, s: State, id: nat)
    requires Inv(lockOf, s) && Enabled(lockOf, s, Commit(id, true))
    ensures var t, s' := s.txns[id], Next(lockOf, s, Commit(id, true));
            && Executes(s.db, t.call, t.start, AsHandler(t))
            && (s'.db, s'.answers[|s.answers|].response) == Serve(s.db, t.call, t.start, AsHandler(t))
  {
    var t, s' := s.txns[id], Next(lockOf, s, Commit(id, true));
    var at, row := At(t.call), Saved(t.call, t.phase.response, t.start);
    assert Cleared(s.db, t);
    ReplaysKept(t.phase.writes, s.db);
    var without := s.db.replays - {at};
    assert t.phase.writes(s.db.(replays := without)) == t.phase.writes(s.db).(replays := without);
    assert without[at := row] == s.db.replays[at := row];
  }

  /** A call that is answered from the replay table, or whose handler refuses, is answered as if it
      were served in one go; neither changes the database. */
  lemma EndIsServe(lockOf: ((string, string)) -> int, s: State, a: Action, next: Database -> (Database, Response))
    requires Inv(lockOf, s) && Enabled(lockOf, s, a)
    requires match a
             case Look(id) => Live(s.db.replays, At(s.txns[id].call), s.txns[id].start)
             case Respond(id, response) =>
               !(200 <= response.status <= 299)
               && next(s.db.(replays := s.db.replays - {At(s.txns[id].call)})).1 == response
             case _ => false
    ensures var s' := Next(lockOf, s, a);
            && a.id !in s'.txns && |s'.answers| == |s.answers| + 1
            && (s'.db, s'.answers[|s.answers|].response) == Serve(s.db, s.txns[a.id].call, s.txns[a.id].start, next)
  {
    assert Cleared(s.db, s.txns[a.id]);
  }

  /** In a reachable state, a keyed call changes the database in one way only: by a commit, which
      publishes all of the handler's writes together with the replay record. */
  lemma OnlyCommitsChangeTheDatabase(lockOf: ((string, string)) -> int, db: Database, actions: seq<Action>, a: Action)
    requires Feasible(lockOf, Initially(db), actions) && Enabled(lockOf, Run(lockOf, Initially(db), actions), a)
    ensures var s := Run(lockOf, Initially(db), actions);
            var s' := Next(lockOf, s, a);
            && (!a.Commit? && !a.Other? ==> s'.db == s.db && s'.executions == s.executions)
            && (a.Commit? ==> Executes(s.db, s.txns[a.id].call, s.txns[a.id].start, AsHandler(s.txns[a.id]))
                              && s'.db == Serve(s.db, s.txns[a.id].call, s.txns[a.id].start, AsHandler(s.txns[a.id])).0
                              && |s'.executions| == |s.executions| + 1)
  {
    RunKeepsInv(lockOf, Initially(db), actions);
    if a.InnerBegin? || a.InnerFinish? {
      InnerKeepsInv(lockOf, Run(lockOf, Initially(db), actions), a);
    }
    if a.Commit? {
      CommitIsServe(lockOf, Run(lockOf, Initially(db), actions), a.id);
    }
  }
}
