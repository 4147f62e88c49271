/** The transaction lifecycle of `database.rs`, with its fields updated in place. */
module DatabaseLifecycle {
  import opened Prelude
  import opened Values
  import opened Transactions
  import opened Rows
  import opened MvccStore
  import opened MvccProofs
  import opened MvccTheorems

  /** The least active id, as the lifecycle's scan over the active set finds it. */
  method SmallestActive(active: set<TransactionId>, otherwise: TransactionId) returns (m: TransactionId)
    ensures active == {} ==> m == otherwise
    ensures active != {} ==> m in active && forall x :: x in active ==> m <= x
  {
    m := otherwise;
    var todo := active;
    while todo != {}
      invariant todo <= active
      invariant todo == active ==> m == otherwise
      invariant todo != active ==> m in active && forall x :: x in active && x !in todo ==> m <= x
      decreases |todo|
    {
      var x :| x in todo;
      if todo == active || x < m {
        m := x;
      }
      todo := todo - {x};
    }
  }

  /** Undo `t` on every row of every table. */
  method RollbackEach(rows: map<RowId, Chain>, t: TransactionId) returns (undone: map<RowId, Chain>)
    ensures undone == RollbackRows(rows, t)
  {
    undone := map[];
    var todo := rows.Keys;
    while todo != {}
      invariant todo <= rows.Keys && undone.Keys == rows.Keys - todo
      invariant forall r :: r in undone ==> undone[r] == RollbackChain(rows[r], t)
      decreases |todo|
    {
      var r :| r in todo;
      undone := undone[r := RollbackChain(rows[r], t)];
      todo := todo - {r};
    }
  }

  /** Prune every row, dropping those left without versions. */
  method PruneEach(rows: map<RowId, Chain>, oldest: TransactionId) returns (kept: map<RowId, Chain>)
    ensures kept == PruneRows(rows, oldest)
  {
    kept := map[];
    var todo := rows.Keys;
    while todo != {}
      invariant todo <= rows.Keys
      invariant forall r :: r in kept <==> r in rows && r !in todo && PruneChain(rows[r], oldest) != []
      invariant forall r :: r in kept ==> kept[r] == PruneChain(rows[r], oldest)
      decreases |todo|
    {
      var r :| r in todo;
      var chain := PruneChain(rows[r], oldest);
      if chain != [] {
        kept := kept[r := chain];
      }
      todo := todo - {r};
    }
  }

  class Database {
    var rows: map<RowId, Chain>
    var smallestActive: TransactionId
    var lastPossible: TransactionId
    var active: set<TransactionId>
    var nextTransactionId: TransactionId
    var lastRow: RowId
    /** The simple store this database stands for. */
    ghost var store: Spec

    ghost function State(): Db
      reads this
    {
      Db(rows, Snapshot(smallestActive, lastPossible, active), nextTransactionId, lastRow)
    }

    ghost predicate Valid()
      reads this
    {
      Rel(State(), store)
    }

    constructor ()
      ensures Valid() && State() == Init && store == SpecInit
    {
      rows := map[];
      smallestActive, lastPossible, active := 0, 0, {};
      nextTransactionId, lastRow := 1, 0;
      store := SpecInit;
      new;
      StartRelated();
    }

    method CreateTransaction() returns (t: TransactionId)
      modifies this
      ensures State() == Apply(old(State()), Begin) && t == old(nextTransactionId)
      ensures store == SpecApply(old(store), Begin, true)
      ensures old(Valid()) ==> Valid() && t !in old(active)
    {
      if Valid() { Step(State(), store, Begin); }
      t := nextTransactionId;
      nextTransactionId := nextTransactionId + 1;
      active := active + {t};
      store := SpecApply(store, Begin, true);
    }

    method CommitTransaction(t: TransactionId)
      modifies this
      ensures State() == Apply(old(State()), Commit(t))
      ensures old(Valid() && Legal(store, Commit(t))) ==> Valid() && store == SpecApply(old(store), Commit(t), true)
    {
      if Valid() && Legal(store, Commit(t)) { Step(State(), store, Commit(t)); }
      active := active - {t};
      lastPossible := t;
      if active == {} {
        smallestActive := t;
      } else {
        smallestActive := SmallestActive(active, t);
        MinOfUnique(active, smallestActive);
      }
      if Legal(store, Commit(t)) { store := SpecApply(store, Commit(t), true); }
    }

    method RollbackTransaction(t: TransactionId)
      modifies this
      ensures State() == Apply(old(State()), Rollback(t))
      ensures old(Valid() && Legal(store, Rollback(t))) ==> Valid() && store == SpecApply(old(store), Rollback(t), true)
    {
      if Valid() && Legal(store, Rollback(t)) { Step(State(), store, Rollback(t)); }
      active := active - {t};
      rows := RollbackEach(rows, t);
      var smallest := SmallestActive(active, lastPossible);
      if active != {} {
        MinOfUnique(active, smallest);
      }
      smallestActive := smallest;
      if Legal(store, Rollback(t)) { store := SpecApply(store, Rollback(t), true); }
    }

    /** Vacuum's version pruning over every row. */
    method RemoveStrayVersions()
      modifies this
      ensures State() == Apply(old(State()), Prune) && store == old(store)
      ensures old(Valid()) ==> Valid()
    {
      if Valid() { Step(State(), store, Prune); }
      rows := PruneEach(rows, smallestActive);
    }

    /** Reset the watermarks as loading a snapshot file does. */
    method Reload()
      modifies this
      ensures State() == Apply(old(State()), Restart) && store == old(store)
      ensures old(Valid() && Legal(store, Restart)) ==> Valid()
    {
      if Valid() && Legal(store, Restart) { Step(State(), store, Restart); }
      var lastCommitted := if nextTransactionId == 0 then 0 else nextTransactionId - 1;
      smallestActive, lastPossible, active := lastCommitted, lastCommitted, {};
    }

    /** Reading a row through its chain is reading the simple store. */
    method ReadRow(t: TransactionId, r: RowId) returns (d: Option<RowData>)
      requires Valid() && Reader(store, t)
      ensures d == SpecRead(store, t, r)
    {
      ReadsAgree(State(), store, t, r);
      if r in rows {
        d := ReadChain(rows[r], t, Snapshot(smallestActive, lastPossible, active));
      } else {
        d := None;
      }
    }
  }
}
