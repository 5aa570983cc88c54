/** The consistency check over all counters, in keyset batches. */
module Reconciliation {
  import opened Common
  import opened Order
  import opened Schema
  import opened Ledger
  import opened Pagination
  import LedgerRuns

  /** The completed operations that the join finds for one counter. */
  function CompletedRows(rows: seq<OperationRow>, tenant: string, counter: string): seq<OperationRow> {
    if rows == [] then []
    else
      var rest, last := CompletedRows(rows[..|rows| - 1], tenant, counter), rows[|rows| - 1];
      if last.tenant == tenant && last.counter == counter && last.state == Completed then rest + [last] else rest
  }

  /** These are exactly the completed rows of that tenant and counter, as often as the table has them. */
  lemma {:induction false} CompletedHolds(rows: seq<OperationRow>, tenant: string, counter: string, row: OperationRow)
    ensures multiset(CompletedRows(rows, tenant, counter))[row] ==
            if row.tenant == tenant && row.counter == counter && row.state == Completed then multiset(rows)[row] else 0
  {
    if rows != [] {
      CompletedHolds(rows[..|rows| - 1], tenant, counter, row);
      assert rows == rows[..|rows| - 1] + [rows[|rows| - 1]];
    }
  }

  datatype AggregateRow = AggregateRow(
    tenant: string, counter: string, value: int64, totalDelta: int, operationCount: nat, initialCount: nat)

  datatype Report = Report(checked: nat, scanned: nat, mismatches: nat, violations: nat)

  function CounterPairs(db: Database): set<(string, string)> {
    set c | c in db.counters :: (db.counters[c].tenant, c)
  }

  /** The aggregate of one counter: SUM(delta), COUNT(*) and COUNT(*) of initial values. */
  function Aggregate(db: Database, pair: (string, string)): AggregateRow
    requires pair.1 in db.counters
  {
    var rows := CompletedRows(db.operations, pair.0, pair.1);
    AggregateRow(pair.0, pair.1, db.counters[pair.1].value, SumDeltas(rows), |rows|, CountInitial(rows))
  }

  predicate Mismatched(db: Database, pair: (string, string)) {
    pair.1 in db.counters && SumDeltas(CompletedRows(db.operations, pair.0, pair.1)) != db.counters[pair.1].value
  }

  predicate Violating(db: Database, pair: (string, string)) {
    pair.1 in db.counters && CountInitial(CompletedRows(db.operations, pair.0, pair.1)) != 1
  }

  predicate Bad(db: Database, pair: (string, string), violating: bool) {
    if violating then Violating(db, pair) else Mismatched(db, pair)
  }

  /** The counters that do not add up, or that do not have exactly one initial value. */
  function BadCounters(db: Database, violating: bool): set<(string, string)> {
    set pair | pair in CounterPairs(db) && Bad(db, pair, violating)
  }

  /** Every pair names a counter of the table. */
  predicate Known(db: Database, pairs: seq<(string, string)>) {
    forall i :: 0 <= i < |pairs| ==> pairs[i].1 in db.counters
  }

  /** How many completed operations the counters have together. */
  function Scanned(db: Database, pairs: seq<(string, string)>): nat {
    if pairs == [] then 0
    else
      var last := pairs[|pairs| - 1];
      Scanned(db, pairs[..|pairs| - 1]) + |CompletedRows(db.operations, last.0, last.1)|
  }

  function IsBad(db: Database, violating: bool): ((string, string)) -> bool {
    pair => Bad(db, pair, violating)
  }

  function Tally(db: Database, pairs: seq<(string, string)>): Report {
    Report(|pairs|, Scanned(db, pairs), Count(pairs, IsBad(db, false)), Count(pairs, IsBad(db, true)))
  }

  /** All counters, in the order in which the batches visit them. */
  function InOrder(db: Database): seq<(string, string)> {
    PairOrderIsTotal();
    Sorted(CounterPairs(db), PairLess)
  }

  lemma InOrderLists(db: Database)
    ensures forall pair :: pair in InOrder(db) <==> pair in CounterPairs(db)
    ensures Ascending(InOrder(db), PairLess) && Total(PairLess)
    ensures |InOrder(db)| == |db.counters|
    ensures Known(db, InOrder(db))
  {
    PairOrderIsTotal();
    SortedIsAscending(CounterPairs(db), PairLess);
    PairsCount(db, db.counters.Keys);
    forall i | 0 <= i < |InOrder(db)|
      ensures InOrder(db)[i].1 in db.counters
    {
      assert InOrder(db)[i] in CounterPairs(db);
    }
    assert CounterPairs(db) == set c | c in db.counters.Keys :: (db.counters[c].tenant, c);
  }

  lemma {:induction false} PairsCount(db: Database, ids: set<string>)
    requires ids <= db.counters.Keys
    ensures |set c | c in ids :: (db.counters[c].tenant, c)| == |ids|
  {
    if ids != {} {
      var id :| id in ids;
      PairsCount(db, ids - {id});
      var all := set c | c in ids :: (db.counters[c].tenant, c);
      var rest := set c | c in ids - {id} :: (db.counters[c].tenant, c);
      assert all == rest + {(db.counters[id].tenant, id)};
    }
  }

  lemma TailIsGreater<T(!new)>(all: seq<T>, p: nat, keys: set<T>, less: (T, T) -> bool)
    requires Ascending(all, less) && 1 <= p <= |all|
    requires forall a, b :: less(a, b) ==> !less(b, a) && a != b
    requires forall x :: x in all <==> x in keys
    ensures Ascending(all[p..], less)
    ensures forall x :: x in all[p..] <==> x in Beyond(keys, Some(all[p - 1]), less)
  {
    assert forall i :: p <= i < |all| ==> all[p..][i - p] == all[i];
    forall x | x in keys && less(all[p - 1], x)
      ensures x in all[p..]
    {
      var i :| 0 <= i < |all| && all[i] == x;
      assert i >= p;
    }
  }

  lemma TotalIsAsymmetric<T(!new)>(less: (T, T) -> bool)
    requires Total(less)
    ensures forall a, b :: less(a, b) ==> !less(b, a) && a != b
  {
  }

  /** The rest of a sorted table lies beyond each of its rows. */
  lemma RestLiesBeyond<T(!new)>(keys: set<T>, p: nat, less: (T, T) -> bool)
    requires Total(less) && p <= |Sorted(keys, less)|
    ensures var all := Sorted(keys, less);
            var cursor := if p == 0 then None else Some(all[p - 1]);
            Sorted(Beyond(keys, cursor, less), less) == all[p..]
  {
    var all := Sorted(keys, less);
    if p == 0 {
      assert Beyond(keys, None, less) == keys && all[0..] == all;
    } else {
      SortedIsAscending(keys, less);
      TotalIsAsymmetric(less);
      TailIsGreater(all, p, keys, less);
      SortedIsThe(Beyond(keys, Some(all[p - 1]), less), all[p..], less);
    }
  }

  /** Where the loop stands: `p` counters of the list are done, and the last one is the cursor. */
  ghost predicate At(all: seq<(string, string)>, lastTenant: string, lastCounter: string, p: nat) {
    p <= |all| && if p == 0 then lastTenant == "" else lastTenant != "" && (lastTenant, lastCounter) == all[p - 1]
  }

  /** One batch: the aggregates of the next counters in order. An empty tenant id means that there
      is no cursor yet. */
  method Batch(db: Database, lastTenant: string, lastCounter: string, size: nat, ghost p: nat)
    returns (rows: seq<AggregateRow>)
    requires At(InOrder(db), lastTenant, lastCounter, p) && Known(db, InOrder(db))
    ensures |rows| == if |InOrder(db)| - p < size then |InOrder(db)| - p else size
    ensures forall i :: 0 <= i < |rows| ==> rows[i] == Aggregate(db, InOrder(db)[p + i])
  {
    PairOrderIsTotal();
    var cursor := if lastTenant == "" then None else Some((lastTenant, lastCounter));
    var pairs := Select(CounterPairs(db), cursor, size, PairLess);
    ghost var all := InOrder(db);
    assert pairs == if |all| - p <= size then all[p..] else all[p..][..size] by {
      RestLiesBeyond(CounterPairs(db), p, PairLess);
    }
    assert forall i :: 0 <= i < |pairs| ==> pairs[i] == all[p + i];
    rows := seq(|pairs|, i requires 0 <= i < |pairs| => Aggregate(db, pairs[i]));
  }

  /** Adds the rows of one batch to the report. */
  method CheckBatch(db: Database, rows: seq<AggregateRow>, before: Report, ghost all: seq<(string, string)>, ghost p: nat)
    returns (report: Report)
    requires p + |rows| <= |all| && Known(db, all) && before == Tally(db, all[..p])
    requires forall i :: 0 <= i < |rows| ==> rows[i] == Aggregate(db, all[p + i])
    ensures report == Tally(db, all[..p + |rows|])
  {
    report := before;
    for i := 0 to |rows|
      invariant report == Tally(db, all[..p + i])
    {
      assert all[..p + i + 1][..p + i] == all[..p + i];
      var row := rows[i];
      report := report.(checked := report.checked + 1, scanned := report.scanned + row.operationCount);
      if row.totalDelta != row.value {
        report := report.(mismatches := report.mismatches + 1);
      }
      if row.initialCount != 1 {
        report := report.(violations := report.violations + 1);
      }
    }
  }

  lemma CountOfAll(db: Database, violating: bool)
    ensures Count(InOrder(db), IsBad(db, violating)) == |BadCounters(db, violating)|
  {
    var all := InOrder(db);
    assert forall i, j :: 0 <= i < j < |all| ==> all[i] != all[j] by {
      InOrderLists(db);
    }
    CountIsCardinality(all, IsBad(db, violating));
    assert Found(all, IsBad(db, violating)) == BadCounters(db, violating) by {
      InOrderLists(db);
    }
  }

  /** The batches, one after the other, until one comes back empty. */
  method CheckAll(db: Database, size: nat) returns (report: Report)
    requires size >= 1 && Known(db, InOrder(db)) && forall i :: 0 <= i < |InOrder(db)| ==> InOrder(db)[i].0 != ""
    ensures report == Tally(db, InOrder(db))
  {
    report := Report(0, 0, 0, 0);
    var lastTenant, lastCounter := "", "";
    ghost var all, p := InOrder(db), 0;
    while true
      invariant At(all, lastTenant, lastCounter, p)
      invariant report == Tally(db, all[..p])
      decreases |all| - p
    {
      var rows := Batch(db, lastTenant, lastCounter, size, p);
      if |rows| == 0 {
        break;
      }
      report := CheckBatch(db, rows, report, all, p);
      var last := rows[|rows| - 1];
      lastTenant, lastCounter := last.tenant, last.counter;
      p := p + |rows|;
    }
    assert all[..p] == all;
  }

  /** On a store that does not change, the check ends for every batch size, visits each counter
      once, and reports exactly how many counters do not add up and how many do not have exactly
      one initial value. */
  method Reconcile(db: Database, batchSize: int) returns (report: Report)
    requires forall c :: c in db.counters ==> db.counters[c].tenant != ""
    ensures report.checked == |db.counters|
    ensures report.scanned == TotalRows(db.operations, CounterPairs(db))
    ensures report.mismatches == |set pair | pair in CounterPairs(db)
              && SumDeltas(CompletedRows(db.operations, pair.0, pair.1)) != db.counters[pair.1].value|
    ensures report.violations == |set pair | pair in CounterPairs(db)
              && CountInitial(CompletedRows(db.operations, pair.0, pair.1)) != 1|
  {
    var size := batchSize;
    if size < 1 {
      size := 100;
    }
    if size > 1000 {
      size := 1000;
    }
    assert Known(db, InOrder(db)) && |InOrder(db)| == |db.counters|
           && forall i :: 0 <= i < |InOrder(db)| ==> InOrder(db)[i].0 != "" by {
      InOrderLists(db);
      assert forall i :: 0 <= i < |InOrder(db)| ==> InOrder(db)[i] in CounterPairs(db);
    }
    report := CheckAll(db, size);
    CountOfAll(db, false);
    CountOfAll(db, true);
    BadCountersSpelledOut(db);
    ScannedAll(db);
  }

  lemma ScannedAll(db: Database)
    ensures Scanned(db, InOrder(db)) == TotalRows(db.operations, CounterPairs(db))
  {
    InOrderLists(db);
    ScannedCountsEachOnce(db, InOrder(db));
    assert (set pair | pair in InOrder(db)) == CounterPairs(db);
  }

  lemma BadCountersSpelledOut(db: Database)
    ensures BadCounters(db, false) == set pair | pair in CounterPairs(db)
              && SumDeltas(CompletedRows(db.operations, pair.0, pair.1)) != db.counters[pair.1].value
    ensures BadCounters(db, true) == set pair | pair in CounterPairs(db)
              && CountInitial(CompletedRows(db.operations, pair.0, pair.1)) != 1
  {
  }

  /** The scanned total does not depend on the order: each counter's rows are counted once. */
  lemma {:induction false} ScannedCountsEachOnce(db: Database, pairs: seq<(string, string)>)
    requires forall i, j :: 0 <= i < j < |pairs| ==> pairs[i] != pairs[j]
    ensures Scanned(db, pairs) == TotalRows(db.operations, set pair | pair in pairs)
  {
    if pairs == [] {
      NoRows(db.operations);
      assert (set pair | pair in pairs) == {};
    } else {
      var earlier, last := pairs[..|pairs| - 1], pairs[|pairs| - 1];
      assert pairs == earlier + [last] && last !in earlier;
      ScannedCountsEachOnce(db, earlier);
      OneMorePair(db.operations, (set pair | pair in earlier), last);
      assert (set pair | pair in pairs) == (set pair | pair in earlier) + {last};
    }
  }

  /** The number of completed rows that belong to one of the pairs. */
  function TotalRows(rows: seq<OperationRow>, pairs: set<(string, string)>): nat {
    if rows == [] then 0
    else
      var last := rows[|rows| - 1];
      TotalRows(rows[..|rows| - 1], pairs)
      + if last.state == Completed && (last.tenant, last.counter) in pairs then 1 else 0
  }

  lemma {:induction false} NoRows(rows: seq<OperationRow>)
    ensures TotalRows(rows, {}) == 0
  {
    if rows != [] {
      NoRows(rows[..|rows| - 1]);
    }
  }

  lemma {:induction false} OneMorePair(rows: seq<OperationRow>, pairs: set<(string, string)>, pair: (string, string))
    requires pair !in pairs
    ensures TotalRows(rows, pairs + {pair}) == TotalRows(rows, pairs) + |CompletedRows(rows, pair.0, pair.1)|
  {
    if rows != [] {
      OneMorePair(rows[..|rows| - 1], pairs, pair);
    }
  }

  // ---------------------------------------------------------------- the ledger reconciles

  lemma {:induction false} CompletedIsHistory(rows: seq<OperationRow>, tenant: string, counter: string)
    requires forall i :: 0 <= i < |rows| ==> rows[i].state == Completed
    ensures CompletedRows(rows, tenant, counter) == History(rows, tenant, counter)
  {
    if rows != [] {
      CompletedIsHistory(rows[..|rows| - 1], tenant, counter);
    }
  }

  /** Whatever transactions have run, a reconciliation finds nothing to report. */
  lemma LedgerReconciles(tenants: set<string>, actions: seq<LedgerRuns.Action>)
    requires LedgerRuns.Feasible(LedgerRuns.Initially(tenants), actions)
    ensures var db := LedgerRuns.Run(LedgerRuns.Initially(tenants), actions).db;
            BadCounters(db, false) == {} && BadCounters(db, true) == {}
  {
    var db := LedgerRuns.Run(LedgerRuns.Initially(tenants), actions).db;
    forall pair | pair in CounterPairs(db)
      ensures !Mismatched(db, pair) && !Violating(db, pair)
    {
      LedgerRuns.LedgerIsConserved(tenants, actions, pair.1);
      CompletedIsHistory(db.operations, pair.0, pair.1);
    }
  }
}
