/** Keyset pagination: one page of a listing, and a client that follows the cursors while rows are
    being inserted. */
module Pagination {
  import opened Common
  import opened Order
  import opened Schema
  import opened Ledger
  import LedgerRuns

  /** The sort key of a listed row: created_at, then id. */
  datatype Key = Key(createdAt: int, id: string)

  predicate Earlier(a: Key, b: Key) {
    a.createdAt < b.createdAt || (a.createdAt == b.createdAt && StringLess(a.id, b.id))
  }

  predicate Later(a: Key, b: Key) {
    Earlier(b, a)
  }

  lemma KeyOrdersAreTotal()
    ensures Total(Earlier) && Total(Later)
  {
    StringOrderIsTotal();
  }

  /** Counters are listed oldest first, operations newest first. */
  function Direction(ascending: bool): (Key, Key) -> bool {
    if ascending then Earlier else Later
  }

  lemma DirectionIsTotal(ascending: bool)
    ensures Total(Direction(ascending))
  {
    KeyOrdersAreTotal();
  }

  function Beyond<T>(keys: set<T>, cursor: Option<T>, less: (T, T) -> bool): set<T> {
    set k | k in keys && (cursor.Some? ==> less(cursor.value, k))
  }

  /** WHERE key > cursor ORDER BY key LIMIT n */
  function Select<T(==, !new)>(keys: set<T>, cursor: Option<T>, n: nat, less: (T, T) -> bool): seq<T>
    requires Total(less)
  {
    var rows := Sorted(Beyond(keys, cursor, less), less);
    if |rows| <= n then rows else rows[..n]
  }

  datatype Page<T> = Page(rows: seq<T>, next: Option<T>)

  /** The service asks for one row more than the limit, and cuts it off again. */
  function List<T(==, !new)>(keys: set<T>, cursor: Option<T>, limit: nat, less: (T, T) -> bool): Page<T>
    requires Total(less) && limit >= 1
  {
    var rows := Select(keys, cursor, limit + 1, less);
    if |rows| > limit then Page(rows[..limit], Some(rows[limit - 1])) else Page(rows, None)
  }

  /** Follows the cursors: page i is read from `tables[i]`. The flag tells whether the last page
      was reached. */
  function Crawl<T(==, !new)>(tables: seq<set<T>>, cursor: Option<T>, limit: nat, less: (T, T) -> bool): (seq<T>, bool)
    requires Total(less) && limit >= 1
    decreases |tables|
  {
    if tables == [] then ([], false)
    else
      var page := List(tables[0], cursor, limit, less);
      if page.next.None? then (page.rows, true)
      else
        var (rows, done) := Crawl(tables[1..], page.next, limit, less);
        (page.rows + rows, done)
  }

  ghost predicate Growing<T>(tables: seq<set<T>>) {
    forall i, j :: 0 <= i < j < |tables| ==> tables[i] <= tables[j]
  }

  /** What the first `n` elements of an ascending list leave out lies beyond the last of them. */
  lemma PrefixLeavesLater<T(!new)>(all: seq<T>, n: nat, less: (T, T) -> bool)
    requires Ascending(all, less) && 1 <= n <= |all|
    ensures Ascending(all[..n], less)
    ensures forall x :: x in all && x !in all[..n] ==> less(all[n - 1], x)
  {
    assert forall i :: 0 <= i < n ==> all[i] in all[..n];
  }

  /** A page is ascending and beyond its cursor. Whatever it leaves out lies beyond the next cursor,
      which is the page's last row; without a next cursor nothing is left out. */
  lemma PageIsPrefix<T(!new)>(keys: set<T>, cursor: Option<T>, limit: nat, less: (T, T) -> bool)
    requires Total(less) && limit >= 1
    ensures var page := List(keys, cursor, limit, less);
            && Ascending(page.rows, less)
            && (forall x :: x in page.rows ==> x in Beyond(keys, cursor, less))
            && (forall x :: x in Beyond(keys, cursor, less) ==> x in page.rows || x in Beyond(keys, page.next, less))
            && (page.next.None? ==> forall x :: x in Beyond(keys, cursor, less) ==> x in page.rows)
            && (page.next.Some? ==> page.rows != [] && page.rows[|page.rows| - 1] == page.next.value)
  {
    var all := Sorted(Beyond(keys, cursor, less), less);
    SortedIsAscending(Beyond(keys, cursor, less), less);
    ListIsCut(keys, cursor, limit, less);
    if |all| > limit {
      PrefixLeavesLater(all, limit, less);
      assert forall x :: x in all[..limit] ==> x in all;
    }
  }

  /** The row asked for in excess only tells whether there is a next page. */
  lemma ListIsCut<T(!new)>(keys: set<T>, cursor: Option<T>, limit: nat, less: (T, T) -> bool)
    requires Total(less) && limit >= 1
    ensures var all := Sorted(Beyond(keys, cursor, less), less);
            List(keys, cursor, limit, less) == if |all| > limit then Page(all[..limit], Some(all[limit - 1])) else Page(all, None)
  {
    var all := Sorted(Beyond(keys, cursor, less), less);
    if |all| > limit + 1 {
      assert all[..limit + 1][..limit] == all[..limit];
    }
  }

  lemma BeyondFurther<T(!new)>(keys: set<T>, cursor: Option<T>, next: T, less: (T, T) -> bool)
    requires Total(less) && (cursor.Some? ==> less(cursor.value, next))
    ensures Beyond(keys, Some(next), less) <= Beyond(keys, cursor, less)
  {
  }

  lemma JoinedAscends<T(!new)>(a: seq<T>, b: seq<T>, less: (T, T) -> bool)
    requires Total(less) && Ascending(a, less) && Ascending(b, less) && a != []
    requires forall x :: x in b ==> less(a[|a| - 1], x)
    ensures Ascending(a + b, less)
  {
    forall i, j | 0 <= i < j < |a + b|
      ensures less((a + b)[i], (a + b)[j])
    {
      if i < |a| <= j {
        assert (a + b)[j] in b && less(a[|a| - 1], (a + b)[j]);
        assert a[i] == a[|a| - 1] || less(a[i], a[|a| - 1]);
      }
    }
  }

  /** `rows` is a listing from `cursor` on, without repetition and in order: it holds only rows of the
      `last` table and, if it is `done`, all the rows of the `first` one. */
  ghost predicate Covers<T(!new)>(rows: seq<T>, done: bool, first: set<T>, last: set<T>, cursor: Option<T>, less: (T, T) -> bool) {
    && Ascending(rows, less)
    && (forall x :: x in rows ==> x in Beyond(last, cursor, less))
    && (done ==> forall x :: x in Beyond(first, cursor, less) ==> x in rows)
  }

  /** A page and the rest of the listing, which starts at the page's last row, make a listing. */
  lemma JoinCovers<T(!new)>(first: set<T>, second: set<T>, last: set<T>, cursor: Option<T>, limit: nat, rest: seq<T>, done: bool,
                            less: (T, T) -> bool)
    requires Total(less) && limit >= 1 && first <= second && first <= last && List(first, cursor, limit, less).next.Some?
    requires Covers(rest, done, second, last, List(first, cursor, limit, less).next, less)
    ensures Covers(List(first, cursor, limit, less).rows + rest, done, first, last, cursor, less)
  {
    PageIsPrefix(first, cursor, limit, less);
    var page := List(first, cursor, limit, less);
    JoinedAscends(page.rows, rest, less);
    assert page.next.value in page.rows;
    BeyondFurther(last, cursor, page.next.value, less);
  }

  lemma PageCovers<T(!new)>(first: set<T>, last: set<T>, cursor: Option<T>, limit: nat, less: (T, T) -> bool)
    requires Total(less) && limit >= 1 && first <= last
    ensures var page := List(first, cursor, limit, less);
            Covers(page.rows, page.next.None?, first, last, cursor, less)
  {
    PageIsPrefix(first, cursor, limit, less);
  }

  /** Following the cursors to the end returns no row twice, in key order, and returns every row
      that was there at the start, no matter what is inserted between the pages. */
  lemma {:induction false} CrawlCovers<T(!new)>(tables: seq<set<T>>, cursor: Option<T>, limit: nat, less: (T, T) -> bool)
    requires Total(less) && limit >= 1 && Growing(tables) && tables != []
    ensures var (rows, done) := Crawl(tables, cursor, limit, less);
            Covers(rows, done, tables[0], tables[|tables| - 1], cursor, less)
    decreases |tables|
  {
    var page := List(tables[0], cursor, limit, less);
    var first, last := tables[0], tables[|tables| - 1];
    GrowingTail(tables);
    if page.next.Some? && |tables| > 1 {
      var later := tables[1..];
      var (rest, done) := Crawl(later, page.next, limit, less);
      CrawlCovers(later, page.next, limit, less);
      JoinCovers(first, later[0], last, cursor, limit, rest, done, less);
      assert Crawl(tables, cursor, limit, less) == (page.rows + rest, done);
    } else {
      PageCovers(first, last, cursor, limit, less);
      LastPage(tables, cursor, limit, less);
    }
  }

  lemma GrowingTail<T>(tables: seq<set<T>>)
    requires Growing(tables) && tables != []
    ensures tables[0] <= tables[|tables| - 1]
    ensures |tables| > 1 ==>
              var later := tables[1..];
              Growing(later) && tables[0] <= later[0] && later[|later| - 1] == tables[|tables| - 1]
  {
    assert |tables| > 1 ==> tables[0] <= tables[1] && tables[0] <= tables[|tables| - 1];
  }

  /** A listing that ends with its first page, or is broken off after it. */
  lemma LastPage<T(!new)>(tables: seq<set<T>>, cursor: Option<T>, limit: nat, less: (T, T) -> bool)
    requires Total(less) && limit >= 1 && tables != []
    requires List(tables[0], cursor, limit, less).next.None? || |tables| == 1
    ensures var page := List(tables[0], cursor, limit, less);
            Crawl(tables, cursor, limit, less) == (page.rows, page.next.None?)
  {
    var page := List(tables[0], cursor, limit, less);
    assert page.next.Some? ==> tables[1..] == [] && page.rows + [] == page.rows;
  }

  /** On a table that does not change, the listing ends, and is the whole table in order. */
  lemma {:induction false} CrawlTerminates<T(!new)>(table: set<T>, tables: seq<set<T>>, cursor: Option<T>, limit: nat,
                                                     less: (T, T) -> bool)
    requires Total(less) && limit >= 1
    requires |tables| > |Beyond(table, cursor, less)| && forall i :: 0 <= i < |tables| ==> tables[i] == table
    ensures Crawl(tables, cursor, limit, less) == (Sorted(Beyond(table, cursor, less), less), true)
    decreases |tables|
  {
    PageIsPrefix(table, cursor, limit, less);
    var page := List(table, cursor, limit, less);
    if page.next.Some? {
      var last := page.rows[|page.rows| - 1];
      assert last in page.rows;
      assert last in Beyond(table, cursor, less) && last !in Beyond(table, page.next, less);
      assert Beyond(table, page.next, less) <= Beyond(table, cursor, less) - {last};
      SubsetIsNoLarger(Beyond(table, page.next, less), Beyond(table, cursor, less) - {last});
      CrawlTerminates(table, tables[1..], page.next, limit, less);
    }
    CrawlCovers(tables, cursor, limit, less);
    SortedIsAscending(Beyond(table, cursor, less), less);
    AscendingIsUnique(Crawl(tables, cursor, limit, less).0, Sorted(Beyond(table, cursor, less), less), less);
  }

  // ---------------------------------------------------------------- listings of a live ledger

  datatype Listing = Counters(tenant: string) | Operations(tenant: string, counter: string)

  /** The rows that a listing is about: counters of a tenant, or completed operations of a counter. */
  function KeysOf(db: Database, listing: Listing): set<Key> {
    match listing
    case Counters(tenant) =>
      set c | c in db.counters && db.counters[c].tenant == tenant :: Key(db.counters[c].createdAt, c)
    case Operations(tenant, counter) =>
      set i | 0 <= i < |db.operations| && db.operations[i].tenant == tenant && db.operations[i].counter == counter
              && db.operations[i].state == Completed :: Key(db.operations[i].createdAt, db.operations[i].id)
  }

  /** A listing holds exactly the counters of its tenant, or the completed operations of its
      counter. */
  lemma ListingHolds(db: Database, listing: Listing, key: Key)
    ensures listing.Counters? ==>
              (key in KeysOf(db, listing) <==>
               key.id in db.counters && db.counters[key.id].tenant == listing.tenant && db.counters[key.id].createdAt == key.createdAt)
    ensures listing.Operations? ==>
              (key in KeysOf(db, listing) <==>
               exists i :: 0 <= i < |db.operations| && db.operations[i].tenant == listing.tenant
                           && db.operations[i].counter == listing.counter && db.operations[i].state == Completed
                           && db.operations[i].createdAt == key.createdAt && db.operations[i].id == key.id)
  {
  }

  lemma ApplyOnlyAdds(db: Database, r: Request, listing: Listing)
    ensures KeysOf(db, listing) <= KeysOf(Apply(db, r).0, listing)
  {
    var db' := Apply(db, r).0;
    assert forall c :: c in db.counters ==>
      c in db'.counters && db'.counters[c].tenant == db.counters[c].tenant && db'.counters[c].createdAt == db.counters[c].createdAt;
    assert |db.operations| <= |db'.operations| && db'.operations[..|db.operations|] == db.operations;
    assert forall i :: 0 <= i < |db.operations| ==> db'.operations[i] == db.operations[i];
  }

  lemma {:induction false} RunOnlyAdds(s: LedgerRuns.State, actions: seq<LedgerRuns.Action>, origin: Database, listing: Listing)
    requires LedgerRuns.Inv(s, origin) && LedgerRuns.Feasible(s, actions)
    ensures KeysOf(s.db, listing) <= KeysOf(LedgerRuns.Run(s, actions).db, listing)
    decreases |actions|
  {
    if actions != [] {
      var s' := LedgerRuns.Next(s, actions[0]);
      if actions[0].Commit? {
        LedgerRuns.CommitIsSerial(s.db, s.txns[actions[0].id]);
        ApplyOnlyAdds(s.db, s.txns[actions[0].id].request, listing);
      }
      LedgerRuns.NextKeepsInv(s, actions[0], origin);
      RunOnlyAdds(s', actions[1..], origin, listing);
    }
  }

  ghost predicate FeasibleParts(s: LedgerRuns.State, parts: seq<seq<LedgerRuns.Action>>)
    decreases |parts|
  {
    parts == [] || (LedgerRuns.Feasible(s, parts[0]) && FeasibleParts(LedgerRuns.Run(s, parts[0]), parts[1..]))
  }

  /** What successive page requests see when the ledger runs on in between. */
  ghost function Snapshots(s: LedgerRuns.State, parts: seq<seq<LedgerRuns.Action>>, listing: Listing): seq<set<Key>>
    requires FeasibleParts(s, parts)
    decreases |parts|
  {
    [KeysOf(s.db, listing)] + if parts == [] then [] else Snapshots(LedgerRuns.Run(s, parts[0]), parts[1..], listing)
  }

  lemma {:induction false} SnapshotsGrow(s: LedgerRuns.State, parts: seq<seq<LedgerRuns.Action>>, origin: Database, listing: Listing)
    requires LedgerRuns.Inv(s, origin) && FeasibleParts(s, parts)
    ensures Growing(Snapshots(s, parts, listing))
    decreases |parts|
  {
    if parts != [] {
      var s' := LedgerRuns.Run(s, parts[0]);
      RunOnlyAdds(s, parts[0], origin, listing);
      LedgerRuns.RunKeepsInv(s, parts[0], origin);
      SnapshotsGrow(s', parts[1..], origin, listing);
      var rest := Snapshots(s', parts[1..], listing);
      assert rest[0] == KeysOf(s'.db, listing);
      forall j | 0 <= j < |rest|
        ensures KeysOf(s.db, listing) <= rest[j]
      {
        assert rest[0] <= rest[j] || j == 0;
      }
    }
  }

  /** Paging through the counters of a tenant or the history of a counter, while any transactions
      run between the page requests: no row comes twice, counters ascend and operations descend in
      creation time and id, and a listing that reaches its last page has returned every row that
      was there when it began. */
  lemma ListingCoversLedger(tenants: set<string>, before: seq<LedgerRuns.Action>, parts: seq<seq<LedgerRuns.Action>>,
                            listing: Listing, limit: nat)
    requires limit >= 1 && LedgerRuns.Feasible(LedgerRuns.Initially(tenants), before)
    requires FeasibleParts(LedgerRuns.Run(LedgerRuns.Initially(tenants), before), parts)
    ensures Total(Direction(listing.Counters?))
    ensures var s := LedgerRuns.Run(LedgerRuns.Initially(tenants), before);
            var (rows, done) := Crawl(Snapshots(s, parts, listing), None, limit, Direction(listing.Counters?));
            && (forall i, j :: 0 <= i < j < |rows| ==>
                  var first, second := if listing.Counters? then rows[i] else rows[j], if listing.Counters? then rows[j] else rows[i];
                  first.createdAt < second.createdAt || (first.createdAt == second.createdAt && StringLess(first.id, second.id)))
            && (done ==> forall key :: key in KeysOf(s.db, listing) ==> key in rows)
  {
    DirectionIsTotal(listing.Counters?);
    var s := LedgerRuns.Run(LedgerRuns.Initially(tenants), before);
    LedgerRuns.RunKeepsInv(LedgerRuns.Initially(tenants), before, LedgerRuns.Empty(tenants));
    SnapshotsGrow(s, parts, LedgerRuns.Empty(tenants), listing);
    CrawlCovers(Snapshots(s, parts, listing), None, limit, Direction(listing.Counters?));
  }
}
