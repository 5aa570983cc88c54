/** Write transactions and the rule for joining an outer one. */
module Transactions {
  import opened Schema

  /** The committed contents of the database, shared by all transactions. */
  class Connection {
    var committed: Database

    constructor (initial: Database)
      ensures committed == initial
    {
      committed := initial;
    }
  }

  /** A transaction's own view: what it read at the start plus what it has written since. */
  class Tx {
    var view: Database
    var open: bool

    constructor (snapshot: Database)
      ensures view == snapshot && open
    {
      view, open := snapshot, true;
    }
  }

  /** What BeginWrite hands out: the transaction, and whether this call opened it. */
  datatype Scope = Scope(tx: Tx, owner: bool)

  /** Whoever finds a transaction in the context joins it and does not own it. */
  predicate Owns(joined: bool) {
    !joined
  }

  /** The committed state after a scope has ended, and whether its transaction is still open. */
  function Finished(committed: Database, view: Database, open: bool, owner: bool, commit: bool): (Database, bool) {
    if !owner then (committed, open)
    else (if commit && open then view else committed, false)
  }

  /** Joins the transaction carried by the context, or opens one on the committed state. */
  method BeginWrite(db: Connection, outer: Tx?) returns (scope: Scope)
    requires outer != null ==> outer.open
    ensures outer != null ==> scope == Scope(outer, false)
    ensures outer == null ==> scope.owner && fresh(scope.tx) && scope.tx.view == db.committed
    ensures scope.tx.open && scope.owner == Owns(outer != null)
  {
    if outer != null {
      scope := Scope(outer, false);
    } else {
      var tx := new Tx(db.committed);
      scope := Scope(tx, true);
    }
  }

  /** Only the owner commits or rolls back. For a joined transaction this does nothing, so
      the writes of the inner call stand or fall with the outer transaction. */
  method Finish(db: Connection, scope: Scope, commit: bool)
    modifies db, scope.tx
    ensures (db.committed, scope.tx.open)
         == Finished(old(db.committed), old(scope.tx.view), old(scope.tx.open), scope.owner, commit)
    ensures scope.tx.view == old(scope.tx.view)
  {
    if scope.owner {
      if commit && scope.tx.open {
        db.committed := scope.tx.view;
      }
      scope.tx.open := false;
    }
  }
}
