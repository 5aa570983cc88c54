/** Real handlers inside the replay wrapper: they open and finish scopes of their own on the
    wrapper's transaction. Each wrapped route is proved to be one step on the database, with the
    serial effect of its handler. The rendering of rows as JSON is a parameter. */
module WrappedHandlers {
  import opened Common
  import opened Schema
  import opened Transactions
  import opened Idempotency
  import Ledger
  import ReadThrough
  import MetadataStore
  import MetadataDocument
  import Json

  // ---------------------------------------------------------------- creating a counter

  function CreateResponse(r: Ledger.Request, reply: Ledger.Reply, render: Ledger.Request -> Body): Response {
    match reply
    case Created => Response(201, "application/json", render(r), map[], None)
    case Failed(TenantNotFound) => ErrorResponse(404)
    case Failed(CounterConflict) => ErrorResponse(409)
    case _ => ErrorResponse(500)
  }

  /** The effect and the answer of the create route as one step. */
  function CreateHandler(r: Ledger.Request, render: Ledger.Request -> Body): Database -> (Database, Response) {
    db => var (after, reply) := ReadThrough.Mutation(db, r); (after, CreateResponse(r, reply, render))
  }

  /** The handler. Inside an outer transaction it commits nothing; what a refused create leaves in
      the transaction's view is not specified, since the answer makes the owner roll back. */
  method ServeCreate(service: ReadThrough.Service, r: Ledger.Request, render: Ledger.Request -> Body, outer: Tx?)
    returns (response: Response)
    requires r.CreateRequest? && service.cache.Valid() && (outer != null ==> outer.open)
    modifies service.store.db, outer
    ensures outer == null ==> (service.store.db.committed, response) == CreateHandler(r, render)(old(service.store.db.committed))
    ensures outer != null ==> service.store.db.committed == old(service.store.db.committed) && outer.open
    ensures outer != null ==> response == CreateHandler(r, render)(old(outer.view)).1
    ensures outer != null && Successful(response) ==> outer.view == CreateHandler(r, render)(old(outer.view)).0
  {
    var reply := service.Create(r, outer);
    response := CreateResponse(r, reply, render);
  }

  /** The create route: the handler's own transaction joins the wrapper's, and what comes out is
      the serial create as the wrapper would serve it in one step. */
  method WrappedCreate(service: ReadThrough.Service, call: Call, now: int, r: Ledger.Request, render: Ledger.Request -> Body)
    returns (response: Response)
    requires r.CreateRequest? && service.cache.Valid()
    modifies service.store.db
    ensures call.key.Key? ==>
              (service.store.db.committed, response) == Serve(old(service.store.db.committed), call, now, CreateHandler(r, render))
    ensures call.key.Absent? ==> (service.store.db.committed, response) == CreateHandler(r, render)(old(service.store.db.committed))
    ensures call.key.Malformed? ==> service.store.db.committed == old(service.store.db.committed) && response.status == 400
  {
    match call.key {
      case Absent =>
        response := ServeCreate(service, r, render, null);
      case Malformed =>
        return ErrorResponse(400);
      case Key(_) =>
        var opening := Open(service.store.db, call, now);
        match opening {
          case Answered(answer) =>
            return answer;
          case Opened(scope) =>
            var produced := ServeCreate(service, r, render, scope.tx);
            response := Conclude(service.store.db, call, now, scope, produced);
        }
    }
  }

  /** What the create route answers. */
  lemma CreateAnswers(r: Ledger.Request, render: Ledger.Request -> Body, db: Database)
    requires r.CreateRequest?
    ensures var response := CreateHandler(r, render)(db).1;
            var taken := r.counter in db.counters
              || exists id :: id in db.counters && db.counters[id].tenant == r.tenant && db.counters[id].name == r.name;
            && (r.tenant !in db.tenants ==> response.status == 404)
            && (r.tenant in db.tenants && taken ==> response.status == 409)
            && (r.tenant in db.tenants && !taken ==>
                  response.status == if Ledger.Find(db.operations, r.tenant, Ledger.InitialOperationId(r.counter)).Some? then 500 else 201)
            && (response.status == 201 ==> response.body == render(r) && r.counter in CreateHandler(r, render)(db).0.counters)
            && (response.status != 201 ==> CreateHandler(r, render)(db).0 == db)
  {
    Ledger.CreateOutcome(db, r);
  }

  lemma CreateLeavesReplays(r: Ledger.Request, render: Ledger.Request -> Body)
    ensures LeavesReplaysAlone(CreateHandler(r, render))
  {
    forall db: Database
      ensures CreateHandler(r, render)(db).0.replays == db.replays
    {
      MutationLeavesReplays(db, r);
    }
  }

  lemma MutationLeavesReplays(db: Database, r: Ledger.Request)
    ensures ReadThrough.Mutation(db, r).0.replays == db.replays
  {
  }

  /** A wrapped create puts its counter into the database exactly when it also puts its replay
      record there. */
  lemma CreateCommitsWithItsRecord(db: Database, call: Call, now: int, r: Ledger.Request, render: Ledger.Request -> Body)
    requires call.key.Key? && r.CreateRequest? && r.counter !in db.counters
    ensures var at := (call.scope, call.key.uuid);
            var db' := Serve(db, call, now, CreateHandler(r, render)).0;
            && (r.counter in db'.counters <==> Executes(db, call, now, CreateHandler(r, render)))
            && (r.counter in db'.counters ==> Live(db'.replays, at, now) && db'.replays[at].expiresAt == now + 86_400_000_000)
            && (r.counter !in db'.counters ==> db' == db)
  {
    CreateLeavesReplays(r, render);
    EffectsCommitWithTheirRecord(db, call, now, CreateHandler(r, render));
  }

  // ---------------------------------------------------------------- metadata documents

  /** A PUT or DELETE on a document. `document` is what the body parses to; `version` and `at` are
      what the database draws if it writes. */
  datatype MetadataCall = MetadataCall(
    verb: MetadataStore.Verb, ifMatch: string, ifNoneMatch: string, tenant: string, counter: string,
    data: string, size: nat, document: Option<Json.Tree>, representable: bool, version: string, at: int)

  const NO_STORE: map<string, string> := map["Cache-Control" := "no-store"]

  /** What the store is asked to do under a precondition. */
  function StoreRequest(c: MetadataCall, p: MetadataStore.Precondition): MetadataStore.Request
    requires c.verb.DeleteVerb? ==> p.MustBe?
  {
    if c.verb.PutVerb? then MetadataStore.Put(c.tenant, c.counter, c.data, c.representable, p)
    else MetadataStore.Delete(c.tenant, c.counter, p.version)
  }

  function MetadataResponse(reply: MetadataStore.Reply, created: bool, render: MetadataRow -> Body): Response {
    match reply
    case Stored(row) =>
      Response(if created then 201 else 200, "application/json", render(row), NO_STORE["ETag" := MetadataStore.ETag(row.version)], None)
    case Deleted => Response(204, "", Bytes(""), NO_STORE, None)
    case CounterNotFound => ErrorResponse(404).(headers := NO_STORE)
    case InvalidMetadata => ErrorResponse(400).(headers := NO_STORE)
    case PreconditionFailed => ErrorResponse(412).(headers := NO_STORE)
  }

  /** The answer that needs no database, if there is one: to a missing or malformed precondition,
      or to a document over the limits. */
  function EarlyStatus(c: MetadataCall): Option<int> {
    match MetadataStore.Decide(c.verb, c.ifMatch, c.ifNoneMatch)
    case PreconditionRequired => Some(428)
    case InvalidPrecondition => Some(400)
    case Proceed(_) =>
      if c.verb.DeleteVerb? then None
      else if c.size > MetadataDocument.MAX_METADATA_BYTES then Some(413)
      else if c.document.None? || Json.Depth(c.document.value) > MetadataDocument.MAX_METADATA_DEPTH then Some(400)
      else None
  }

  /** The effect and the answer of the metadata route as one step. */
  function MetadataHandler(c: MetadataCall, render: MetadataRow -> Body): Database -> (Database, Response) {
    db =>
      var early := EarlyStatus(c);
      if early.Some? then (db, ErrorResponse(early.value).(headers := NO_STORE))
      else
        var p := MetadataStore.Decide(c.verb, c.ifMatch, c.ifNoneMatch).precondition;
        var (after, reply) := MetadataStore.Apply(db, StoreRequest(c, p), c.version, c.at);
        (after, MetadataResponse(reply, p.MustNotExist?, render))
  }

  method ServeMetadata(store: MetadataStore.Store, c: MetadataCall, render: MetadataRow -> Body, outer: Tx?)
    returns (response: Response)
    requires outer != null ==> outer.open
    modifies store.db, outer
    ensures outer == null ==> (store.db.committed, response) == MetadataHandler(c, render)(old(store.db.committed))
    ensures outer != null ==> store.db.committed == old(store.db.committed) && outer.open
    ensures outer != null ==> (outer.view, response) == MetadataHandler(c, render)(old(outer.view))
  {
    var decision := MetadataStore.Decide(c.verb, c.ifMatch, c.ifNoneMatch);
    if decision.PreconditionRequired? {
      return ErrorResponse(428).(headers := NO_STORE);
    }
    if decision.InvalidPrecondition? {
      return ErrorResponse(400).(headers := NO_STORE);
    }
    var reply;
    if c.verb.DeleteVerb? {
      reply := store.Delete(StoreRequest(c, decision.precondition), outer);
    } else {
      var verdict := MetadataDocument.ValidateMetadata(c.size, c.document);
      if verdict.TooLarge? {
        return ErrorResponse(413).(headers := NO_STORE);
      }
      if verdict.Invalid? {
        return ErrorResponse(400).(headers := NO_STORE);
      }
      reply := store.Put(StoreRequest(c, decision.precondition), c.version, c.at, outer);
    }
    response := MetadataResponse(reply, decision.precondition.MustNotExist?, render);
  }

  /** The metadata routes: put and delete join the wrapper's transaction. */
  method WrappedMetadata(store: MetadataStore.Store, call: Call, now: int, c: MetadataCall, render: MetadataRow -> Body)
    returns (response: Response)
    modifies store.db
    ensures call.key.Key? ==> (store.db.committed, response) == Serve(old(store.db.committed), call, now, MetadataHandler(c, render))
    ensures call.key.Absent? ==> (store.db.committed, response) == MetadataHandler(c, render)(old(store.db.committed))
    ensures call.key.Malformed? ==> store.db.committed == old(store.db.committed) && response.status == 400
  {
    match call.key {
      case Absent =>
        response := ServeMetadata(store, c, render, null);
      case Malformed =>
        return ErrorResponse(400);
      case Key(_) =>
        var opening := Open(store.db, call, now);
        match opening {
          case Answered(answer) =>
            return answer;
          case Opened(scope) =>
            var produced := ServeMetadata(store, c, render, scope.tx);
            response := Conclude(store.db, call, now, scope, produced);
        }
    }
  }

  lemma MetadataLeavesReplays(c: MetadataCall, render: MetadataRow -> Body)
    ensures LeavesReplaysAlone(MetadataHandler(c, render))
  {
  }

  /** What the metadata route answers, and when: the missing precondition, the malformed one, the
      limits of 65536 bytes and 64 levels, and then the outcome of the conditional write. */
  lemma MetadataAnswers(c: MetadataCall, render: MetadataRow -> Body, db: Database)
    ensures var response := MetadataHandler(c, render)(db).1;
            var decision := MetadataStore.Decide(c.verb, c.ifMatch, c.ifNoneMatch);
            var put := c.verb.PutVerb?;
            var fits := c.size <= 65536 && c.document.Some? && Json.Depth(c.document.value) <= 64;
            && (decision.PreconditionRequired? ==> response.status == 428)
            && (decision.InvalidPrecondition? ==> response.status == 400)
            && (decision.Proceed? && put && c.size > 65536 ==> response.status == 413)
            && (decision.Proceed? && put && c.size <= 65536 && !fits ==> response.status == 400)
            && (decision.Proceed? && (put ==> fits) ==>
                  var request := StoreRequest(c, decision.precondition);
                  var reply := MetadataStore.Apply(db, request, c.version, c.at).1;
                  && (reply.CounterNotFound? ==> response.status == 404)
                  && (reply.InvalidMetadata? ==> response.status == 400)
                  && (reply.PreconditionFailed? ==> response.status == 412)
                  && (reply.Deleted? ==> response.status == 204)
                  && (reply.Stored? ==>
                        && response.status == (if decision.precondition.MustNotExist? then 201 else 200)
                        && response.body == render(reply.row)
                        && response.headers == map["Cache-Control" := "no-store", "ETag" := "\"" + reply.row.version + "\""]))
            && (!(200 <= response.status <= 299) ==> MetadataHandler(c, render)(db).0 == db)
  {
  }

  /** A wrapped metadata write that is not replayed, carries a good precondition and a document
      within the limits, and finds nothing wrong in the store, is committed together with its
      replay record. (A route that issues secrets would also need a body to take them out of; the
      metadata routes do not issue any.) In every other case the database stays as it was. */
  lemma MetadataCommitsWithItsRecord(db: Database, call: Call, now: int, c: MetadataCall, render: MetadataRow -> Body)
    requires call.key.Key?
    ensures var at := (call.scope, call.key.uuid);
            var db' := Serve(db, call, now, MetadataHandler(c, render)).0;
            var live := at in db.replays && now < db.replays[at].expiresAt;
            if !live && EarlyStatus(c).None? && MetadataStore.Fault(db, Requested(c)).None?
               && (call.credential ==> MetadataHandler(c, render)(db).1.body.Object?) then
              && at in db'.replays && db'.replays[at].expiresAt == now + 86_400_000_000
              && db'.metadata == MetadataStore.Apply(db, Requested(c), c.version, c.at).0.metadata
              && db' == db.(metadata := db'.metadata, replays := db.replays[at := db'.replays[at]])
            else db' == db
  {
    MetadataLeavesReplays(c, render);
    var handler := MetadataHandler(c, render);
    EffectsCommitWithTheirRecord(db, call, now, handler);
    var cleared := db.(replays := db.replays - {(call.scope, call.key.uuid)});
    MetadataAnswers(c, render, cleared);
    SameFault(db, cleared, Requested(c));
  }

  /** What the store is asked to do, if the precondition is good. */
  function Requested(c: MetadataCall): MetadataStore.Request {
    var decision := MetadataStore.Decide(c.verb, c.ifMatch, c.ifNoneMatch);
    if decision.Proceed? then StoreRequest(c, decision.precondition) else MetadataStore.Delete(c.tenant, c.counter, "")
  }

  /** Replay records do not matter to a metadata write. */
  lemma SameFault(db: Database, cleared: Database, r: MetadataStore.Request)
    requires cleared == db.(replays := cleared.replays)
    ensures MetadataStore.Fault(cleared, r) == MetadataStore.Fault(db, r)
    ensures forall version, now ::
              MetadataStore.Apply(cleared, r, version, now).0 == MetadataStore.Apply(db, r, version, now).0.(replays := cleared.replays)
    ensures forall version, now :: MetadataStore.Apply(cleared, r, version, now).1 == MetadataStore.Apply(db, r, version, now).1
  {
  }
}
