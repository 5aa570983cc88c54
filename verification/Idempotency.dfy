/** The optional replay wrapper around mutations: one call as it is executed, and what it
    amounts to as a single step on the database. */
module Idempotency {
  import opened Common
  import opened Schema
  import opened Transactions

  /** 24 hours; times are microseconds. */
  const DAY: int := 24 * 60 * 60 * 1_000_000

  datatype Response = Response(
    status: int, contentType: string, body: Body, headers: map<string, string>, replayed: Option<bool>)

  datatype KeyHeader = Absent | Malformed | Key(uuid: string)

  /** A request as the wrapper sees it. The scope names principal, method and path. */
  datatype Call = Call(key: KeyHeader, scope: string, hash: string, credential: bool)

  function ErrorResponse(status: int): Response {
    Response(status, "application/json", Bytes("error"), map[], None)
  }

  predicate Successful(response: Response) {
    200 <= response.status < 300
  }

  /** The ETag and Cache-Control headers that are present. */
  function KeptHeaders(headers: map<string, string>): map<string, string> {
    map name | name in headers && name in {"ETag", "Cache-Control"} && headers[name] != "" :: headers[name]
  }

  /** What is stored of a successful response; an issued secret never is. */
  function Saved(call: Call, response: Response, now: int): ReplayRow
    requires Storable(call, response)
  {
    ReplayRow(call.hash, response.status, response.contentType,
              if call.credential then Object(response.body.members - {"api_key"}) else response.body,
              KeptHeaders(response.headers), now + DAY)
  }

  /** The secret can be taken out: the body of a credential response must be an object. */
  predicate Storable(call: Call, response: Response) {
    call.credential ==> response.body.Object?
  }

  function Replay(row: ReplayRow): Response {
    Response(row.status, row.contentType, row.body, row.headers, Some(true))
  }

  /** A record that this transaction must respect: present and not expired at its start. */
  predicate Live(replays: map<(string, string), ReplayRow>, at: (string, string), now: int) {
    at in replays && now < replays[at].expiresAt
  }

  /** A whole keyed call on the database: `now` is the start of its transaction. */
  function Serve(db: Database, call: Call, now: int, next: Database -> (Database, Response)): (Database, Response)
    requires call.key.Key?
  {
    var at := (call.scope, call.key.uuid);
    if Live(db.replays, at, now) then
      (db, if db.replays[at].hash != call.hash then ErrorResponse(409) else Replay(db.replays[at]))
    else
      var (after, response) := next(db.(replays := db.replays - {at}));
      Concluded(db, after, call, now, response)
  }

  /** What is left once the handler has made `view` of the transaction and answered. */
  function Concluded(committed: Database, view: Database, call: Call, now: int, response: Response): (Database, Response)
    requires call.key.Key?
  {
    var at := (call.scope, call.key.uuid);
    if !Successful(response) then (committed, response)
    else if !Storable(call, response) then (committed, ErrorResponse(500))
    else (view.(replays := view.replays[at := Saved(call, response, now)]), response.(replayed := Some(false)))
  }

  /** The call runs its handler and commits. */
  predicate Executes(db: Database, call: Call, now: int, next: Database -> (Database, Response))
    requires call.key.Key?
  {
    var at := (call.scope, call.key.uuid);
    !Live(db.replays, at, now)
    && var response := next(db.(replays := db.replays - {at})).1;
       Successful(response) && Storable(call, response)
  }

  ghost predicate LeavesReplaysAlone(next: Database -> (Database, Response)) {
    forall db :: next(db).0.replays == db.replays
  }

  /** The start of a call: it is answered from the replay table, or it has a transaction. */
  datatype Opening = Answered(response: Response) | Opened(scope: Scope)

  /** Begins, purges an expired record, and looks for a live one. */
  method Open(db: Connection, call: Call, now: int) returns (opening: Opening)
    requires call.key.Key?
    modifies db
    ensures db.committed == old(db.committed)
    ensures var at := (call.scope, call.key.uuid);
            if Live(db.committed.replays, at, now) then
              opening == Answered(if db.committed.replays[at].hash != call.hash then ErrorResponse(409)
                                  else Replay(db.committed.replays[at]))
            else opening.Opened? && opening.scope.owner && fresh(opening.scope.tx) && opening.scope.tx.open
                 && opening.scope.tx.view == db.committed.(replays := db.committed.replays - {at})
  {
    var at := (call.scope, call.key.uuid);
    var scope := BeginWrite(db, null);
    var tx := scope.tx;
    if at in tx.view.replays && tx.view.replays[at].expiresAt <= now {
      tx.view := tx.view.(replays := tx.view.replays - {at});
    }
    if at in tx.view.replays {
      var saved := tx.view.replays[at];
      Finish(db, scope, false);
      if saved.hash != call.hash {
        return Answered(ErrorResponse(409));
      }
      return Answered(Replay(saved));
    }
    assert tx.view.replays == db.committed.replays - {at};
    opening := Opened(scope);
  }

  /** Saves the record of a successful response and commits, or rolls back. */
  method Conclude(db: Connection, call: Call, now: int, scope: Scope, produced: Response) returns (response: Response)
    requires call.key.Key? && scope.owner && scope.tx.open
    modifies db, scope.tx
    ensures (db.committed, response) == Concluded(old(db.committed), old(scope.tx.view), call, now, produced)
  {
    var at, tx := (call.scope, call.key.uuid), scope.tx;
    if produced.status < 200 || produced.status >= 300 {
      Finish(db, scope, false);
      return produced;
    }
    var body := produced.body;
    if call.credential {
      if !body.Object? {
        Finish(db, scope, false);
        return ErrorResponse(500);
      }
      body := Object(body.members - {"api_key"});
    }
    tx.view := tx.view.(replays := tx.view.replays[at :=
      ReplayRow(call.hash, produced.status, produced.contentType, body, KeptHeaders(produced.headers), now + DAY)]);
    Finish(db, scope, true);
    response := produced.(replayed := Some(false));
  }

  /** The wrapper around any handler whose effect inside a transaction is a function of the
      transaction's view. */
  method IdempotentMutation(db: Connection, call: Call, now: int, next: Database -> (Database, Response))
    returns (response: Response)
    requires LeavesReplaysAlone(next)
    modifies db
    ensures call.key.Key? ==> (db.committed, response) == Serve(old(db.committed), call, now, next)
    ensures call.key.Absent? ==> (db.committed, response) == next(old(db.committed))
    ensures call.key.Malformed? ==> db.committed == old(db.committed) && response.status == 400
  {
    match call.key {
      case Absent =>
        var (after, passed) := next(db.committed);
        db.committed := after;
        return passed;
      case Malformed =>
        return ErrorResponse(400);
      case Key(_) =>
        var opening := Open(db, call, now);
        match opening {
          case Answered(answer) =>
            return answer;
          case Opened(scope) =>
            var (after, produced) := next(scope.tx.view);
            scope.tx.view := after;
            response := Conclude(db, call, now, scope, produced);
        }
    }
  }

  /** A call runs its handler exactly when no record of its scope and key is still valid. The
      handler's database and the record, which is valid for 24 hours, are then committed together
      if and only if the answer has a status from 200 to 299, and on a credential route a body
      from which the secret can be taken out. In every other case the database stays as it was. */
  lemma EffectsCommitWithTheirRecord(db: Database, call: Call, now: int, next: Database -> (Database, Response))
    requires call.key.Key? && LeavesReplaysAlone(next)
    ensures var at := (call.scope, call.key.uuid);
            var (db', response) := Serve(db, call, now, next);
            var (handled, produced) := next(db.(replays := db.replays - {at}));
            var live := at in db.replays && now < db.replays[at].expiresAt;
            var commits := !live && 200 <= produced.status <= 299 && (call.credential ==> produced.body.Object?);
            && (Executes(db, call, now, next) <==> commits)
            && (!commits ==> db' == db)
            && (commits ==>
                  && at in db'.replays
                  && db' == handled.(replays := db.replays[at := db'.replays[at]])
                  && db'.replays[at].expiresAt == now + 86_400_000_000 && db'.replays[at].hash == call.hash
                  && response == produced.(replayed := Some(false)))
            && (live && db.replays[at].hash != call.hash ==> response.status == 409)
            && (!live && !(200 <= produced.status <= 299) ==> response == produced)
            && (!live && !commits && 200 <= produced.status <= 299 ==> response.status == 500)
  {
    var at := (call.scope, call.key.uuid);
    var without := db.replays - {at};
    var db' := Serve(db, call, now, next).0;
    if Executes(db, call, now, next) {
      assert without[at := db'.replays[at]] == db.replays[at := db'.replays[at]];
    }
  }

  /** What a replay owes to the first answer: its status, content type and body, less the secret
      on a credential route, and of its headers those two that are not empty. */
  ghost predicate RepeatsAnswer(first: Response, second: Response, credential: bool) {
    && second.replayed == Some(true) && second.status == first.status && second.contentType == first.contentType
    && (forall name :: name in second.headers <==>
          (name == "ETag" || name == "Cache-Control") && name in first.headers && first.headers[name] != "")
    && (forall name :: name in second.headers ==> second.headers[name] == first.headers[name])
    && if credential then first.body.Object? && second.body == Object(first.body.members - {"api_key"})
       else second.body == first.body
  }

  /** What is stored of an answer replays as that answer. */
  lemma SavedRepeats(call: Call, response: Response, now: int)
    requires Storable(call, response)
    ensures RepeatsAnswer(response, Replay(Saved(call, response, now)), call.credential)
  {
  }

  /** A retry that reaches the wrapper before the record expires gets the first answer again,
      less the secret on credential routes, and does not run the handler. */
  lemma RetryIsReplayed(db: Database, call: Call, now: int, next: Database -> (Database, Response),
                        other: Database, later: int, again: Database -> (Database, Response))
    requires call.key.Key? && Executes(db, call, now, next)
    requires later < now + 86_400_000_000
    requires var at := (call.scope, call.key.uuid);
             at in other.replays && other.replays[at] == Serve(db, call, now, next).0.replays[at]
    ensures Serve(other, call, later, again).0 == other
    ensures RepeatsAnswer(Serve(db, call, now, next).1, Serve(other, call, later, again).1, call.credential)
  {
    SavedRepeats(call, next(db.(replays := db.replays - {(call.scope, call.key.uuid)})).1, now);
  }
}
