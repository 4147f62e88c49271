/** Version chains together with one indexed column: completeness of the index and uniqueness. */
module IndexedStore {
  import opened Prelude
  import opened Values
  import opened Transactions
  import opened Rows
  import opened MvccStore
  import opened MvccProofs
  import opened MvccTheorems
  import opened ColumnIndex

  /** The indexed column and its hasher. */
  datatype Config = Config(col: ColumnId, hash: Value -> nat)

  /** The engine, the simple store it stands for, and the column index. */
  datatype Store = Store(w: World, ix: Index)

  const StartStore: Store := Store(Start, EmptyIndex)

  function EntryOf(cf: Config, r: RowId, d: RowData): Entry
    requires cf.col in d
  {
    Entry(Key(d[cf.col], cf.hash), r)
  }

  /** The row an update writes and validates: what the transaction sees, overridden by the new data. */
  function Effective(db: Db, op: Op): RowData
    requires op.Insert? || op.Update?
  {
    if op.Insert? then op.data
    else match Read(db, op.txn, op.row) case None => op.data case Some(d) => d + op.data
  }

  /** No other row under the key shows the transaction the same value. An absent column checks NULL. */
  ghost predicate Accepts(cf: Config, st: Store, op: Op)
    requires op.Insert? || op.Update?
  {
    var d := Effective(st.w.db, op);
    var v := if cf.col in d then d[cf.col] else Null;
    forall r :: Holds(st.ix, Entry(Key(v, cf.hash), r)) && !(op.Update? && r == op.row) ==>
      match Read(st.w.db, op.txn, r)
      case None => true
      case Some(e) => cf.col in e ==> e[cf.col] != v
  }

  ghost function IndexApply(cf: Config, db: Db, ix: Index, op: Op): Index {
    match op
    case Insert(t, r, d) => if cf.col in d then Add(ix, EntryOf(cf, r, d), t) else ix
    case Update(t, r, d) =>
      var e := Effective(db, op);
      if r in db.rows && cf.col in e then Add(ix, EntryOf(cf, r, e), t) else ix
    case Rollback(t) => RollbackIndex(ix, t)
    case Prune => PruneIndex(ix, PruneRows(db.rows, db.snap.smallestActive).Keys)
    case _ => ix
  }

  /** One operation; an insert or update that fails validation changes nothing. */
  ghost function NextStore(cf: Config, st: Store, op: Op): Store
    requires Acts(st.w.sp, op)
  {
    if (op.Insert? || op.Update?) && !Accepts(cf, st, op) then st
    else Store(Next(st.w, op), IndexApply(cf, st.w.db, st.ix, op))
  }

  // ---- Completeness -------------------------------------------------------------------------------

  /** Every version some transaction may still see is found under its value's key. */
  ghost predicate Complete(cf: Config, st: Store) {
    forall r, i :: r in st.w.db.rows && 0 <= i < |st.w.db.rows[r]| ==>
      var v := st.w.db.rows[r][i];
      !Dead(v.header, st.w.sp) && cf.col in v.data ==> Holds(st.ix, EntryOf(cf, r, v.data))
  }

  /** No entry points at a row that is gone. */
  ghost predicate NoDangling(st: Store) {
    forall e :: Holds(st.ix, e) ==> e.row in st.w.db.rows
  }

  /** `t` is not the last to have added an entry that a version of someone else still needs. */
  ghost predicate RollbackSafe(cf: Config, st: Store, t: TransactionId) {
    forall r, i :: r in st.w.db.rows && 0 <= i < |st.w.db.rows[r]| ==>
      var v := st.w.db.rows[r][i];
      !Dead(v.header, st.w.sp) && v.header.createdBy != t && cf.col in v.data ==>
        Get(st.ix.addedBy, EntryOf(cf, r, v.data)) != Some(t)
  }

  ghost predicate StoreOk(cf: Config, st: Store) {
    Related(st.w) && Complete(cf, st) && NoDangling(st)
  }

  /** A row a transaction reads is found under the value it reads. */
  lemma IndexFindsVisible(cf: Config, st: Store, t: TransactionId, r: RowId)
    requires StoreOk(cf, st) && Reader(st.w.sp, t)
    ensures match Read(st.w.db, t, r)
      case None => true
      case Some(d) => cf.col in d ==> Holds(st.ix, EntryOf(cf, r, d))
  {
    var c := ChainOf(st.w.db, r);
    var k := VisibleIndex(c, t, st.w.db.snap);
    assert RowRel(c, st.w.sp, r);
    if k >= 0 {
      VisibleExactly(c[k].header, st.w.db.snap, st.w.sp, r, t);
      assert Classified(c[k].header, st.w.sp, r);
      assert !Dead(c[k].header, st.w.sp);
    }
  }

  lemma StepKeepsIndex(cf: Config, st: Store, op: Op)
    requires StoreOk(cf, st) && Legal(st.w.sp, op)
    requires op.Rollback? ==> RollbackSafe(cf, st, op.txn)
    ensures StoreOk(cf, NextStore(cf, st, op))
  {
    if (op.Insert? || op.Update?) && !Accepts(cf, st, op) {
      return;
    }
    Step(st.w.db, st.w.sp, op);
    match op
    case Insert(_, _, _) => WriteKeepsIndex(cf, st, op);
    case Update(_, _, _) => WriteKeepsIndex(cf, st, op);
    case Delete(_, _) => WriteKeepsIndex(cf, st, op);
    case Rollback(t) => RollbackKeepsIndexIff(cf, st, t);
    case Prune => PruneKeepsIndex(cf, st);
    case Begin =>
    case Commit(t) =>
    case Restart =>
  }

  lemma AddHolds(ix: Index, e: Entry, t: TransactionId)
    ensures forall x :: Holds(Add(ix, e, t), x) <==> Holds(ix, x) || x == e
  {
    forall x ensures Holds(Add(ix, e, t), x) <==> Holds(ix, x) || x == e {
      assert x == Entry(x.key, x.row);
    }
  }

  /** Deleting what a transaction sees never touches a dead version. */
  lemma DeadIsNotStamped(db: Db, sp: Spec, r: RowId, t: TransactionId, i: nat)
    requires Rel(db, sp) && t in sp.pending && r in db.rows && i < |db.rows[r]| && Dead(db.rows[r][i].header, sp)
    ensures MarkDeleted(db.rows[r], t, db.snap)[i] == db.rows[r][i]
  {
    assert RowRel(ChainOf(db, r), sp, r);
    VisibleExactly(db.rows[r][i].header, db.snap, sp, r, t);
  }

  /** Each version after a write is an old one, no less dead than before, or the new one. */
  lemma VersionAfterWrite(db: Db, sp: Spec, op: Op, r: RowId, i: nat)
    requires Rel(db, sp) && Legal(sp, op) && (op.Insert? || op.Update? || op.Delete?)
    requires r in Apply(db, op).rows && i < |Apply(db, op).rows[r]|
    ensures var v := Apply(db, op).rows[r][i];
      || (r in db.rows && i < |db.rows[r]| && v.data == db.rows[r][i].data && (Dead(db.rows[r][i].header, sp) ==> v == db.rows[r][i]))
      || (!op.Delete? && r == op.row && v == NewVersion(op.txn, op.data))
  {
    if r == op.row && !op.Insert? && r in db.rows && i < |db.rows[r]| {
      if Dead(db.rows[r][i].header, sp) { DeadIsNotStamped(db, sp, r, op.txn, i); }
    }
  }

  lemma WriteKeepsIndex(cf: Config, st: Store, op: Op)
    requires StoreOk(cf, st) && Legal(st.w.sp, op) && (op.Insert? || op.Update? || op.Delete?)
    ensures var st' := Store(Next(st.w, op), IndexApply(cf, st.w.db, st.ix, op));
      Complete(cf, st') && NoDangling(st')
  {
    var db, db', sp, sp' := st.w.db, Next(st.w, op).db, st.w.sp, Next(st.w, op).sp;
    var ix' := IndexApply(cf, db, st.ix, op);
    assert forall e :: Holds(st.ix, e) ==> Holds(ix', e) by { GrowingIndex(cf, db, st.ix, op); }
    assert forall e :: Holds(ix', e) ==> Holds(st.ix, e) || e.row in db'.rows by { GrowingIndex(cf, db, st.ix, op); }
    assert sp'.pending.Keys == sp.pending.Keys;
    forall r, i | r in db'.rows && 0 <= i < |db'.rows[r]| && !Dead(db'.rows[r][i].header, sp') && cf.col in db'.rows[r][i].data
      ensures Holds(ix', EntryOf(cf, r, db'.rows[r][i].data))
    {
      VersionAfterWrite(db, sp, op, r, i);
      GrowingIndex(cf, db, st.ix, op);
    }
  }

  /** A write adds at most the entry of the row it writes, and that of its data if it has one. */
  lemma GrowingIndex(cf: Config, db: Db, ix: Index, op: Op)
    requires op.Insert? || op.Update? || op.Delete?
    ensures forall e :: Holds(ix, e) ==> Holds(IndexApply(cf, db, ix, op), e)
    ensures forall e :: Holds(IndexApply(cf, db, ix, op), e) ==> Holds(ix, e) || (!op.Delete? && e.row == op.row && e.row in Apply(db, op).rows)
    ensures !op.Delete? && cf.col in op.data && (op.Insert? || op.row in db.rows) ==>
      Holds(IndexApply(cf, db, ix, op), EntryOf(cf, op.row, op.data))
  {
    if !op.Delete? {
      var d := Effective(db, op);
      if cf.col in d { AddHolds(ix, EntryOf(cf, op.row, d), op.txn); }
    }
  }

  /** Given a complete index, rollback keeps it complete exactly when it is safe. */
  lemma RollbackKeepsIndexIff(cf: Config, st: Store, t: TransactionId)
    requires StoreOk(cf, st) && Legal(st.w.sp, Rollback(t))
    ensures NoDangling(NextStore(cf, st, Rollback(t)))
    ensures Complete(cf, NextStore(cf, st, Rollback(t))) <==> RollbackSafe(cf, st, t)
  {
    var st' := NextStore(cf, st, Rollback(t));
    WithoutHolds(st.ix, set e | e in st.ix.addedBy && st.ix.addedBy[e] == t);
    forall r, i | r in st.w.db.rows && 0 <= i < |st.w.db.rows[r]|
      ensures var v, v' := st.w.db.rows[r][i], st'.w.db.rows[r][i];
        && v'.data == v.data
        && (!Dead(v'.header, st'.w.sp) <==> !Dead(v.header, st.w.sp) && v.header.createdBy != t)
    {
      RollbackDeath(st.w.db, st.w.sp, t, r, i);
    }
  }

  /** Rolling `t` back kills exactly the versions `t` created. */
  lemma RollbackDeath(db: Db, sp: Spec, t: TransactionId, r: RowId, i: nat)
    requires Rel(db, sp) && t in sp.pending && r in db.rows && i < |db.rows[r]|
    ensures var h := RollbackVersion(db.rows[r][i], t).header;
      !Dead(h, SpecApply(sp, Rollback(t), true)) <==> !Dead(db.rows[r][i].header, sp) && h.createdBy != t
  {
    assert RowRel(ChainOf(db, r), sp, r);
    assert Classified(db.rows[r][i].header, sp, r);
    RollbackHeader(db.rows[r][i], sp, r, t);
  }

  lemma PruneKeepsIndex(cf: Config, st: Store)
    requires StoreOk(cf, st)
    ensures Complete(cf, NextStore(cf, st, Prune)) && NoDangling(NextStore(cf, st, Prune))
  {
    var st' := NextStore(cf, st, Prune);
    var alive := st'.w.db.rows.Keys;
    WithoutHolds(st.ix, set k, r | k in st.ix.entries && r in st.ix.entries[k] && r !in alive :: Entry(k, r));
    forall e ensures Holds(st'.ix, e) <==> Holds(st.ix, e) && e.row in alive {
      assert e == Entry(e.key, e.row);
    }
    forall r, i | r in st'.w.db.rows && 0 <= i < |st'.w.db.rows[r]|
      ensures st'.w.db.rows[r][i] in st.w.db.rows[r]
    {
      var at := PruneChainIsSubsequence(st.w.db.rows[r], st.w.db.snap.smallestActive);
    }
  }
}
