/** The PostgreSQL tables that the modelled code reads and writes. */
module Schema {
  import opened Common

  datatype CounterRow = CounterRow(
    tenant: string, name: string, value: int64, maxDelta: int64, createdAt: int, updatedAt: int)

  datatype Kind = InitialValue | Increment | SetAdjustment

  datatype OperationState = Pending | Completed

  datatype OperationRow = OperationRow(
    tenant: string, counter: string, id: string, kind: Kind, delta: int64, hash: string,
    actor: Option<string>, before: Option<int64>, after: Option<int64>, state: OperationState,
    createdAt: int, completedAt: Option<int>)

  datatype MetadataRow = MetadataRow(data: string, version: string, createdAt: int, updatedAt: int)

  /** A response body: JSON text that is an object, by its raw members, or any other bytes. */
  datatype Body = Object(members: map<string, string>) | Bytes(bytes: string)

  datatype ReplayRow = ReplayRow(
    hash: string, status: int, contentType: string, body: Body, headers: map<string, string>, expiresAt: int)

  /** Counters are keyed by their globally unique id. The operations table is kept as the
      sequence of its rows in the order in which they were committed, so that the commit
      order can be spoken of; no statement of the program depends on that order. */
  datatype Database = Database(
    tenants: set<string>,
    counters: map<string, CounterRow>,
    operations: seq<OperationRow>,
    audit: set<string>,
    metadata: map<(string, string), MetadataRow>,
    replays: map<(string, string), ReplayRow>)

  /** SELECT ... FROM counters WHERE tenant_id = $1 AND id = $2 finds a row. */
  predicate HasCounter(db: Database, tenant: string, counter: string) {
    counter in db.counters && db.counters[counter].tenant == tenant
  }
}
