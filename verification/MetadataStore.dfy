/** Metadata documents with conditional writes: the preconditions of a request, the write as
    one step on the database, and the store that carries it out in a transaction. */
module MetadataStore {
  import opened Common
  import opened Schema
  import opened Transactions

  // ---------------------------------------------------------------- preconditions of a request

  datatype Verb = PutVerb | DeleteVerb

  datatype Precondition = MustNotExist | MustBe(version: string)

  datatype Decision = Proceed(precondition: Precondition) | PreconditionRequired | InvalidPrecondition

  /** Lower-case hexadecimal digits in groups of 8, 4, 4, 4 and 12. */
  predicate CanonicalUuid(text: string) {
    |text| == 36 && forall i :: 0 <= i < 36 ==>
      if i == 8 || i == 13 || i == 18 || i == 23 then text[i] == '-'
      else '0' <= text[i] <= '9' || 'a' <= text[i] <= 'f'
  }

  function ETag(version: string): string {
    "\"" + version + "\""
  }

  /** If-Match and If-None-Match, trimmed; the empty string stands for an absent header. */
  function Decide(verb: Verb, ifMatch: string, ifNoneMatch: string): Decision {
    var create := verb == PutVerb && ifNoneMatch == "*" && ifMatch == "";
    if ifMatch == "" && ifNoneMatch == "" then PreconditionRequired
    else if create then Proceed(MustNotExist)
    else if ifNoneMatch != "" || |ifMatch| < 2 || ifMatch[0] != '"' || ifMatch[|ifMatch| - 1] != '"' then InvalidPrecondition
    else if !CanonicalUuid(ifMatch[1..|ifMatch| - 1]) then InvalidPrecondition
    else Proceed(MustBe(ifMatch[1..|ifMatch| - 1]))
  }

  /** A request may proceed on a version exactly when it sends back the entity tag of that
      version and nothing else, and to create exactly when it is a PUT that asks for absence. */
  lemma DecideByTag(verb: Verb, ifMatch: string, ifNoneMatch: string, version: string)
    ensures Decide(verb, ifMatch, ifNoneMatch) == Proceed(MustBe(version)) <==>
            && |version| == 36
            && (forall i :: 0 <= i < 36 ==>
                  if i in {8, 13, 18, 23} then version[i] == '-' else version[i] in "0123456789abcdef")
            && ifMatch == "\"" + version + "\"" && ifNoneMatch == ""
    ensures Decide(verb, ifMatch, ifNoneMatch) == Proceed(MustNotExist) <==>
            verb == PutVerb && ifMatch == "" && ifNoneMatch == "*"
    ensures Decide(verb, ifMatch, ifNoneMatch) == PreconditionRequired <==> ifMatch == "" && ifNoneMatch == ""
  {
    assert ETag(version)[1..|ETag(version)| - 1] == version;
    if |ifMatch| >= 2 && ifMatch[0] == '"' && ifMatch[|ifMatch| - 1] == '"' {
      assert ifMatch == ETag(ifMatch[1..|ifMatch| - 1]);
    }
  }

  // ---------------------------------------------------------------- one write as one step

  datatype Request =
    | Put(tenant: string, counter: string, data: string, representable: bool, precondition: Precondition)
    | Delete(tenant: string, counter: string, expected: string)

  datatype Reply = Stored(row: MetadataRow) | Deleted | CounterNotFound | InvalidMetadata | PreconditionFailed

  function KeyOf(r: Request): (string, string) {
    (r.tenant, r.counter)
  }

  /** The version that the request replaces or deletes; a create has none. */
  function Expected(r: Request): Option<string> {
    match r
    case Put(_, _, _, _, MustNotExist) => None
    case Put(_, _, _, _, MustBe(version)) => Some(version)
    case Delete(_, _, expected) => Some(expected)
  }

  /** The version of the document under a key, if there is one. */
  function Current(db: Database, key: (string, string)): Option<string> {
    if key in db.metadata then Some(db.metadata[key].version) else None
  }

  predicate Holds(db: Database, r: Request) {
    Current(db, KeyOf(r)) == Expected(r)
  }

  /** What keeps the request from writing, if anything does. */
  function Fault(db: Database, r: Request): Option<Reply> {
    if !HasCounter(db, r.tenant, r.counter) then Some(CounterNotFound)
    else if r.Put? && !r.representable then Some(InvalidMetadata)
    else if !Holds(db, r) then Some(PreconditionFailed)
    else None
  }

  /** The document that the request leaves behind, under a version drawn for it. */
  function Outcome(db: Database, r: Request, version: string, now: int): Option<MetadataRow> {
    if r.Delete? then None
    else Some(MetadataRow(r.data, version, if KeyOf(r) in db.metadata then db.metadata[KeyOf(r)].createdAt else now, now))
  }

  function Write(db: Database, key: (string, string), row: Option<MetadataRow>): Database {
    db.(metadata := if row.Some? then db.metadata[key := row.value] else db.metadata - {key})
  }

  function Apply(db: Database, r: Request, version: string, now: int): (Database, Reply) {
    var fault := Fault(db, r);
    if fault.Some? then (db, fault.value)
    else
      var row := Outcome(db, r, version, now);
      (Write(db, KeyOf(r), row), if row.Some? then Stored(row.value) else Deleted)
  }

  /** A request is refused, in this order, when its counter is not there for its tenant, when its
      document cannot be stored, and when it does not name the version that is current: a create
      wants none, a replace or delete wants its own. */
  lemma FaultsInOrder(db: Database, r: Request, version: string, now: int)
    ensures var (db', reply) := Apply(db, r, version, now);
            var key := (r.tenant, r.counter);
            var there := r.counter in db.counters && db.counters[r.counter].tenant == r.tenant;
            var storable := r.Put? ==> r.representable;
            var holds := match r
              case Put(_, _, _, _, MustNotExist) => key !in db.metadata
              case Put(_, _, _, _, MustBe(v)) => key in db.metadata && db.metadata[key].version == v
              case Delete(_, _, v) => key in db.metadata && db.metadata[key].version == v;
            && (!there ==> reply == CounterNotFound)
            && (there && !storable ==> reply == InvalidMetadata)
            && (there && storable && !holds ==> reply == PreconditionFailed)
            && (there && storable && holds <==> reply.Stored? || reply.Deleted?)
            && (Fault(db, r).None? <==> there && storable && holds)
            && (!(reply.Stored? || reply.Deleted?) ==> db' == db)
  {
  }

  /** A successful put stores the data it was given under the new version, with the time of the
      write, and keeps the creation time of the document it replaces. No other document and no
      other table changes. */
  lemma PutStores(db: Database, r: Request, version: string, now: int)
    requires r.Put? && Fault(db, r).None?
    ensures var (db', reply) := Apply(db, r, version, now);
            var key := (r.tenant, r.counter);
            && reply.Stored?
            && reply.row.data == r.data && reply.row.version == version && reply.row.updatedAt == now
            && reply.row.createdAt == (if key in db.metadata then db.metadata[key].createdAt else now)
            && db' == db.(metadata := db.metadata[key := reply.row])
  {
  }

  /** A successful delete removes exactly its document. */
  lemma DeleteRemoves(db: Database, r: Request, version: string, now: int)
    requires r.Delete? && Fault(db, r).None?
    ensures Apply(db, r, version, now) == (db.(metadata := db.metadata - {(r.tenant, r.counter)}), Deleted)
  {
  }

  // ---------------------------------------------------------------- the store

  class Store {
    const db: Connection

    constructor (db: Connection)
      ensures this.db == db
    {
      this.db := db;
    }

    /** INSERT ... ON CONFLICT DO NOTHING RETURNING ... */
    method InsertMetadata(tx: Tx, key: (string, string), data: string, version: string, now: int) returns (row: Option<MetadataRow>)
      modifies tx`view
      ensures row.Some? <==> key !in old(tx.view).metadata
      ensures row.Some? ==> row.value == MetadataRow(data, version, now, now) && tx.view == Write(old(tx.view), key, row)
      ensures row.None? ==> tx.view == old(tx.view)
    {
      if key in tx.view.metadata {
        return None;
      }
      row := Some(MetadataRow(data, version, now, now));
      tx.view := tx.view.(metadata := tx.view.metadata[key := row.value]);
    }

    /** UPDATE ... WHERE tenant_id = $1 AND counter_id = $2 AND version = $4 RETURNING ... */
    method UpdateMetadata(tx: Tx, key: (string, string), data: string, expected: string, version: string, now: int)
      returns (row: Option<MetadataRow>)
      modifies tx`view
      ensures row.Some? <==> key in old(tx.view).metadata && old(tx.view).metadata[key].version == expected
      ensures row.Some? ==> row.value == MetadataRow(data, version, old(tx.view).metadata[key].createdAt, now)
                            && tx.view == Write(old(tx.view), key, row)
      ensures row.None? ==> tx.view == old(tx.view)
    {
      if key !in tx.view.metadata || tx.view.metadata[key].version != expected {
        return None;
      }
      row := Some(MetadataRow(data, version, tx.view.metadata[key].createdAt, now));
      tx.view := tx.view.(metadata := tx.view.metadata[key := row.value]);
    }

    /** DELETE ... WHERE tenant_id = $1 AND counter_id = $2 AND version = $3 */
    method DeleteMetadata(tx: Tx, key: (string, string), expected: string) returns (count: nat)
      modifies tx`view
      ensures count == if key in old(tx.view).metadata && old(tx.view).metadata[key].version == expected then 1 else 0
      ensures tx.view == if count == 1 then Write(old(tx.view), key, None) else old(tx.view)
    {
      count := 0;
      if key in tx.view.metadata && tx.view.metadata[key].version == expected {
        count := 1;
        tx.view := tx.view.(metadata := tx.view.metadata - {key});
      }
    }

    /** Creates or replaces a document; inside an outer transaction nothing is committed. */
    method Put(r: Request, version: string, now: int, outer: Tx?) returns (reply: Reply)
      requires r.Put? && (outer != null ==> outer.open)
      modifies db, outer
      ensures outer == null ==> (db.committed, reply) == Apply(old(db.committed), r, version, now)
      ensures outer != null ==> (outer.view, reply) == Apply(old(outer.view), r, version, now)
      ensures outer != null ==> db.committed == old(db.committed) && outer.open
    {
      var scope := BeginWrite(db, outer);
      var tx := scope.tx;
      if !HasCounter(tx.view, r.tenant, r.counter) {
        Finish(db, scope, false);
        return CounterNotFound;
      }
      if !r.representable {
        Finish(db, scope, false);
        return InvalidMetadata;
      }
      var row;
      if r.precondition.MustNotExist? {
        row := InsertMetadata(tx, KeyOf(r), r.data, version, now);
      } else {
        row := UpdateMetadata(tx, KeyOf(r), r.data, r.precondition.version, version, now);
      }
      if row.None? {
        Finish(db, scope, false);
        return PreconditionFailed;
      }
      Finish(db, scope, true);
      reply := Stored(row.value);
    }

    method Delete(r: Request, outer: Tx?) returns (reply: Reply)
      requires r.Delete? && (outer != null ==> outer.open)
      modifies db, outer
      ensures outer == null ==> (db.committed, reply) == Apply(old(db.committed), r, "", 0)
      ensures outer != null ==> (outer.view, reply) == Apply(old(outer.view), r, "", 0)
      ensures outer != null ==> db.committed == old(db.committed) && outer.open
    {
      var scope := BeginWrite(db, outer);
      var tx := scope.tx;
      if !HasCounter(tx.view, r.tenant, r.counter) {
        Finish(db, scope, false);
        return CounterNotFound;
      }
      var count := DeleteMetadata(tx, KeyOf(r), r.expected);
      if count == 0 {
        Finish(db, scope, false);
        return PreconditionFailed;
      }
      Finish(db, scope, true);
      reply := Deleted;
    }
  }
}
