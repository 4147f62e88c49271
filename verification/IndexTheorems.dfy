/** The index over whole runs: it stays complete, vacuum is invisible, and UNIQUE holds serially. */
module IndexTheorems {
  import opened Prelude
  import opened Values
  import opened Transactions
  import opened Rows
  import opened MvccStore
  import opened MvccProofs
  import opened MvccTheorems
  import opened ColumnIndex
  import opened IndexedStore

  /** A legal run in which no rollback takes away an entry someone else needs. */
  ghost predicate SafeRun(cf: Config, st: Store, ops: seq<Op>)
    decreases |ops|
  {
    ops == [] ||
    (&& Legal(st.w.sp, ops[0])
     && (ops[0].Rollback? ==> RollbackSafe(cf, st, ops[0].txn))
     && SafeRun(cf, NextStore(cf, st, ops[0]), ops[1..]))
  }

  ghost function RunStore(cf: Config, st: Store, ops: seq<Op>): Store
    requires SafeRun(cf, st, ops)
    decreases |ops|
  {
    if ops == [] then st else RunStore(cf, NextStore(cf, st, ops[0]), ops[1..])
  }

  /** Through any interleaving the index stays complete and never dangles. */
  lemma {:induction false} IndexStaysComplete(cf: Config, st: Store, ops: seq<Op>)
    requires StoreOk(cf, st) && SafeRun(cf, st, ops)
    ensures StoreOk(cf, RunStore(cf, st, ops))
    decreases |ops|
  {
    if ops != [] {
      StepKeepsIndex(cf, st, ops[0]);
      IndexStaysComplete(cf, NextStore(cf, st, ops[0]), ops[1..]);
    }
  }

  lemma StartStoreOk(cf: Config)
    ensures StoreOk(cf, StartStore)
  {
    StartRelated();
  }

  /** The rows of a probe for `v`: those under its key that show the transaction that value. */
  ghost function Probe(cf: Config, st: Store, t: TransactionId, v: Value): iset<RowId> {
    iset r: RowId | Holds(st.ix, Entry(Key(v, cf.hash), r)) && Shows(cf, st.w.db, t, r, v)
  }

  /** The rows a full scan finds for `v`. */
  ghost function Scan(cf: Config, st: Store, t: TransactionId, v: Value): iset<RowId> {
    iset r: RowId | Shows(cf, st.w.db, t, r, v)
  }

  predicate Shows(cf: Config, db: Db, t: TransactionId, r: RowId, v: Value) {
    match Read(db, t, r)
    case None => false
    case Some(d) => cf.col in d && d[cf.col] == v
  }

  /** In every reachable state an index probe finds what a scan finds, whatever the hasher collides. */
  lemma ProbeEqualsScan(cf: Config, ops: seq<Op>, t: TransactionId, v: Value)
    requires SafeRun(cf, StartStore, ops) && Reader(RunStore(cf, StartStore, ops).w.sp, t)
    ensures Probe(cf, RunStore(cf, StartStore, ops), t, v) == Scan(cf, RunStore(cf, StartStore, ops), t, v)
  {
    var st := RunStore(cf, StartStore, ops);
    StartStoreOk(cf);
    IndexStaysComplete(cf, StartStore, ops);
    forall r: RowId ensures r in Probe(cf, st, t, v) <==> r in Scan(cf, st, t, v) {
      IndexFindsVisible(cf, st, t, r);
    }
  }

  /** Vacuum changes no read, keeps the index complete and leaves no entry to a missing row. */
  lemma VacuumIsInvisible(cf: Config, st: Store, t: TransactionId, r: RowId)
    requires StoreOk(cf, st) && Reader(st.w.sp, t)
    ensures var st' := NextStore(cf, st, Prune);
      StoreOk(cf, st') && Read(st'.w.db, t, r) == Read(st.w.db, t, r)
  {
    StepKeepsIndex(cf, st, Prune);
    ReadsAgree(st.w.db, st.w.sp, t, r);
    ReadsAgree(NextStore(cf, st, Prune).w.db, st.w.sp, t, r);
  }

  // ---- Uniqueness ---------------------------------------------------------------------------------

  /** `t` sees no two rows with the same explicit value in the column. */
  ghost predicate SeesUnique(cf: Config, sp: Spec, t: TransactionId) {
    forall a, b, d, e :: SpecRead(sp, t, a) == Some(d) && SpecRead(sp, t, b) == Some(e) ==>
      (cf.col in d && cf.col in e && d[cf.col] == e[cf.col] ==> a == b)
  }

  /** One transaction at a time. */
  ghost predicate Serial(sp: Spec) {
    forall t, u :: t in sp.pending && u in sp.pending ==> t == u
  }

  ghost predicate SerialRun(cf: Config, st: Store, ops: seq<Op>)
    requires SafeRun(cf, st, ops)
    decreases |ops|
  {
    Serial(st.w.sp) && (ops == [] || SerialRun(cf, NextStore(cf, st, ops[0]), ops[1..]))
  }

  ghost predicate AllSeeUnique(cf: Config, sp: Spec) {
    forall t :: Reader(sp, t) ==> SeesUnique(cf, sp, t)
  }

  /** An accepted insert or update cannot create a duplicate in its transaction's view. */
  lemma AcceptedWriteIsUnique(cf: Config, st: Store, op: Op)
    requires StoreOk(cf, st) && Legal(st.w.sp, op) && (op.Insert? || op.Update?)
    requires Accepts(cf, st, op) && SeesUnique(cf, st.w.sp, op.txn)
    ensures SeesUnique(cf, Next(st.w, op).sp, op.txn)
  {
    var sp, sp' := st.w.sp, Next(st.w, op).sp;
    var t, r := op.txn, op.row;
    assert forall x :: x != r ==> SpecRead(sp', t, x) == SpecRead(sp, t, x);
    if sp' != sp && cf.col in op.data {
      assert SpecRead(sp', t, r) == Some(op.data);
      forall x, d | x != r && SpecRead(sp, t, x) == Some(d) && cf.col in d
        ensures d[cf.col] != op.data[cf.col]
      {
        AcceptedDiffers(cf, st, op, x);
      }
    }
  }

  /** Every other row the transaction sees differs from what the validation let through. */
  lemma AcceptedDiffers(cf: Config, st: Store, op: Op, x: RowId)
    requires StoreOk(cf, st) && Legal(st.w.sp, op) && (op.Insert? || op.Update?) && Accepts(cf, st, op)
    requires x != op.row && cf.col in op.data
    ensures match SpecRead(st.w.sp, op.txn, x)
      case None => true
      case Some(d) => cf.col in d ==> d[cf.col] != op.data[cf.col]
  {
    assert Effective(st.w.db, op)[cf.col] == op.data[cf.col];
    ReadsAgree(st.w.db, st.w.sp, op.txn, x);
    IndexFindsVisible(cf, st, op.txn, x);
  }

  /** Reads that only repeat old reads of another reader stay unique. */
  lemma SameReadsUnique(cf: Config, sp: Spec, t: TransactionId, sp': Spec, u: TransactionId)
    requires SeesUnique(cf, sp, t)
    requires forall x: RowId :: SpecRead(sp', u, x).Some? ==> SpecRead(sp', u, x) == SpecRead(sp, t, x)
    ensures SeesUnique(cf, sp', u)
  {
  }

  lemma SerialStep(cf: Config, st: Store, op: Op, t: TransactionId)
    requires StoreOk(cf, st) && Legal(st.w.sp, op) && AllSeeUnique(cf, st.w.sp)
    requires Serial(st.w.sp) && Serial(NextStore(cf, st, op).w.sp) && Reader(NextStore(cf, st, op).w.sp, t)
    ensures SeesUnique(cf, NextStore(cf, st, op).w.sp, t)
  {
    var sp, sp' := st.w.sp, NextStore(cf, st, op).w.sp;
    match op
    case Insert(_, _, _) => SerialWrite(cf, st, op, t);
    case Update(_, _, _) => SerialWrite(cf, st, op, t);
    case Commit(u) =>
      assert t >= sp'.next;
      SameReadsUnique(cf, sp, u, sp', t);
    case Rollback(u) => SameReadsUnique(cf, sp, sp.next, sp', t);
    case Begin => SameReadsUnique(cf, sp, t, sp', t);
    case Delete(_, _) => SameReadsUnique(cf, sp, t, sp', t);
    case Prune =>
    case Restart =>
  }

  lemma SerialWrite(cf: Config, st: Store, op: Op, t: TransactionId)
    requires StoreOk(cf, st) && Legal(st.w.sp, op) && (op.Insert? || op.Update?)
    requires AllSeeUnique(cf, st.w.sp) && Reader(NextStore(cf, st, op).w.sp, t)
    ensures SeesUnique(cf, NextStore(cf, st, op).w.sp, t)
  {
    var sp' := NextStore(cf, st, op).w.sp;
    assert SeesUnique(cf, st.w.sp, t);
    if Accepts(cf, st, op) {
      if t == op.txn {
        AcceptedWriteIsUnique(cf, st, op);
      } else {
        assert forall x :: SpecRead(sp', t, x) == SpecRead(st.w.sp, t, x);
      }
    }
  }

  lemma {:induction false} SerialRunKeepsUnique(cf: Config, st: Store, ops: seq<Op>)
    requires StoreOk(cf, st) && SafeRun(cf, st, ops) && SerialRun(cf, st, ops) && AllSeeUnique(cf, st.w.sp)
    ensures AllSeeUnique(cf, RunStore(cf, st, ops).w.sp)
    decreases |ops|
  {
    if ops != [] {
      forall t: TransactionId | Reader(NextStore(cf, st, ops[0]).w.sp, t)
        ensures SeesUnique(cf, NextStore(cf, st, ops[0]).w.sp, t)
      {
        SerialStep(cf, st, ops[0], t);
      }
      StepKeepsIndex(cf, st, ops[0]);
      SerialRunKeepsUnique(cf, NextStore(cf, st, ops[0]), ops[1..]);
    }
  }

  /** Over every serial run no transaction ever reads one explicit value in two rows. */
  lemma UniqueOverSerialRuns(cf: Config, ops: seq<Op>, t: TransactionId, a: RowId, b: RowId, v: Value)
    requires SafeRun(cf, StartStore, ops) && SerialRun(cf, StartStore, ops)
    requires Reader(RunStore(cf, StartStore, ops).w.sp, t)
    requires Shows(cf, RunStore(cf, StartStore, ops).w.db, t, a, v)
    requires Shows(cf, RunStore(cf, StartStore, ops).w.db, t, b, v)
    ensures a == b
  {
    var st := RunStore(cf, StartStore, ops);
    StartStoreOk(cf);
    SerialRunKeepsUnique(cf, StartStore, ops);
    IndexStaysComplete(cf, StartStore, ops);
    ReadsAgree(st.w.db, st.w.sp, t, a);
    ReadsAgree(st.w.db, st.w.sp, t, b);
    assert SeesUnique(cf, st.w.sp, t);
  }

  // ---- Why rollbacks must be safe -----------------------------------------------------------------

  /** With its entry gone, a row no longer keeps its value from being inserted again. */
  lemma LostEntryAdmitsDuplicate(cf: Config, st: Store, u: TransactionId, r: RowId, d: RowData, r2: RowId)
    requires Related(st.w) && u in st.w.sp.pending && SeesUnique(cf, st.w.sp, u)
    requires cf.col in d && Shows(cf, st.w.db, u, r, d[cf.col]) && !Holds(st.ix, Entry(Key(d[cf.col], cf.hash), r))
    requires r2 > st.w.sp.lastRow
    ensures var op := Insert(u, r2, d);
      && Legal(st.w.sp, op) && Accepts(cf, st, op) && r != r2
      && var db' := NextStore(cf, st, op).w.db;
         Shows(cf, db', u, r, d[cf.col]) && Shows(cf, db', u, r2, d[cf.col])
  {
    var op := Insert(u, r2, d);
    ReadsAgree(st.w.db, st.w.sp, u, r);
    forall x | x != r
      ensures match Read(st.w.db, u, x) case None => true case Some(e) => cf.col in e ==> e[cf.col] != d[cf.col]
    {
      ReadsAgree(st.w.db, st.w.sp, u, x);
    }
    assert Accepts(cf, st, op);
    Step(st.w.db, st.w.sp, op);
    ReadsAgree(Next(st.w, op).db, Next(st.w, op).sp, u, r);
    ReadsAgree(Next(st.w, op).db, Next(st.w, op).sp, u, r2);
  }

  /**
   * When the only active transaction rolls back and was the last to add the entry of a committed
   * row, the next transaction may insert that row's value again and then sees it twice.
   */
  lemma UnsafeRollbackBreaksUnique(cf: Config, st: Store, t: TransactionId, r: RowId, d: RowData, r2: RowId)
    requires StoreOk(cf, st) && SeesUnique(cf, st.w.sp, st.w.sp.next)
    requires st.w.sp.pending.Keys == {t} && r in st.w.sp.base && cf.col in st.w.sp.base[r]
    requires Get(st.ix.addedBy, EntryOf(cf, r, st.w.sp.base[r])) == Some(t)
    requires cf.col in d && d[cf.col] == st.w.sp.base[r][cf.col] && r2 > st.w.sp.lastRow
    ensures var begun := NextStore(cf, NextStore(cf, st, Rollback(t)), Begin);
      var op := Insert(st.w.sp.next, r2, d);
      && Serial(begun.w.sp) && Legal(begun.w.sp, op) && Accepts(cf, begun, op) && r != r2
      && var db' := NextStore(cf, begun, op).w.db;
         Shows(cf, db', op.txn, r, d[cf.col]) && Shows(cf, db', op.txn, r2, d[cf.col])
  {
    var u := st.w.sp.next;
    var rolled := NextStore(cf, st, Rollback(t));
    var begun := NextStore(cf, rolled, Begin);
    Step(st.w.db, st.w.sp, Rollback(t));
    Step(rolled.w.db, rolled.w.sp, Begin);
    WithoutHolds(st.ix, set e | e in st.ix.addedBy && st.ix.addedBy[e] == t);
    assert begun.w.sp.pending.Keys == {u} && begun.w.sp.pending[u] == map[];
    assert forall x :: SpecRead(begun.w.sp, u, x) == SpecRead(st.w.sp, u, x);
    ReadsAgree(begun.w.db, begun.w.sp, u, r);
    LostEntryAdmitsDuplicate(cf, begun, u, r, d, r2);
  }

  /** The situation is easy to reach: rewriting a row with its own value takes its entry over. */
  lemma RewriteTakesEntryOver(cf: Config, st: Store, t: TransactionId, r: RowId, d: RowData)
    requires StoreOk(cf, st) && t in st.w.sp.pending && st.w.sp.pending.Keys == {t} && st.w.sp.pending[t] == map[]
    requires Get(st.w.sp.base, r) == Some(d) && cf.col in d && SeesUnique(cf, st.w.sp, t)
    ensures var op := Update(t, r, d);
      && Legal(st.w.sp, op) && Accepts(cf, st, op)
      && Get(NextStore(cf, st, op).ix.addedBy, EntryOf(cf, r, d)) == Some(t)
      && Get(NextStore(cf, st, op).w.sp.base, r) == Some(d)
  {
    ReadsAgree(st.w.db, st.w.sp, t, r);
    assert d + d == d;
    forall x | x != r
      ensures match Read(st.w.db, t, x) case None => true case Some(e) => cf.col in e ==> e[cf.col] != d[cf.col]
    {
      ReadsAgree(st.w.db, st.w.sp, t, x);
    }
    assert Accepts(cf, st, Update(t, r, d));
  }

  /** An update that leaves the indexed column out checks, and adds again, the value the transaction reads in it. */
  lemma PartialUpdateTakesEntryOver(cf: Config, st: Store, t: TransactionId, r: RowId, d: RowData, changes: RowData)
    requires r in st.w.db.rows && Read(st.w.db, t, r) == Some(d) && cf.col in d && cf.col !in changes
    requires Acts(st.w.sp, Update(t, r, changes))
    ensures Accepts(cf, st, Update(t, r, changes)) <==> Accepts(cf, st, Update(t, r, d))
    ensures Accepts(cf, st, Update(t, r, changes)) ==>
      var ix := NextStore(cf, st, Update(t, r, changes)).ix;
      Holds(ix, EntryOf(cf, r, d)) && Get(ix.addedBy, EntryOf(cf, r, d)) == Some(t)
  {
    assert (d + changes)[cf.col] == d[cf.col] && d + d == d;
  }

  /** A row without the indexed column is validated like one that says NULL there. */
  lemma AbsentChecksNull(cf: Config, st: Store, op: Op)
    requires (op.Insert? || op.Update?) && cf.col !in Effective(st.w.db, op)
    ensures Accepts(cf, st, op) <==> Accepts(cf, st, op.(data := op.data[cf.col := Null]))
  {
    var explicit := op.(data := op.data[cf.col := Null]);
    assert Effective(st.w.db, explicit)[cf.col] == Null;
  }

  /** One more operation at the end of a safe run. */
  lemma {:induction false} SafeOneMore(cf: Config, st: Store, ops: seq<Op>, op: Op)
    requires SafeRun(cf, st, ops) && Legal(RunStore(cf, st, ops).w.sp, op)
    requires op.Rollback? ==> RollbackSafe(cf, RunStore(cf, st, ops), op.txn)
    ensures SafeRun(cf, st, ops + [op]) && RunStore(cf, st, ops + [op]) == NextStore(cf, RunStore(cf, st, ops), op)
    decreases |ops|
  {
    var all := ops + [op];
    if ops == [] {
      assert all[1..] == [];
    } else {
      assert all[0] == ops[0] && all[1..] == ops[1..] + [op];
      SafeOneMore(cf, NextStore(cf, st, ops[0]), ops[1..], op);
    }
  }

  /** One committed row, and transaction 2 just begun. */
  lemma OneRowCommitted(cf: Config, d: RowData)
    ensures var ops := [Begin] + [Insert(1, 1, d)] + [Commit(1)] + [Begin];
      && SafeRun(cf, StartStore, ops)
      && RunStore(cf, StartStore, ops).w.sp == Spec(map[1 := d], map[2 := map[]], 1, 3, 1)
  {
    OneRowInserted(cf, d);
    var ops := [Begin] + [Insert(1, 1, d)];
    var st := RunStore(cf, StartStore, ops);
    SafeOneMore(cf, StartStore, ops, Commit(1));
    assert 1 in st.w.sp.pending[1];
    assert NextStore(cf, st, Commit(1)).w.sp == Spec(map[1 := d], map[], 1, 2, 1);
    SafeOneMore(cf, StartStore, ops + [Commit(1)], Begin);
  }

  lemma OneRowInserted(cf: Config, d: RowData)
    ensures var ops := [Begin] + [Insert(1, 1, d)];
      SafeRun(cf, StartStore, ops) && RunStore(cf, StartStore, ops).w.sp == Spec(map[], map[1 := map[1 := Some(d)]], 0, 2, 1)
  {
    var s1 := NextStore(cf, StartStore, Begin);
    assert s1.w.sp == Spec(map[], map[1 := map[]], 0, 2, 0) && s1.ix == EmptyIndex;
    SafeOneMore(cf, StartStore, [], Begin);
    assert [] + [Begin] == [Begin];
    assert Accepts(cf, s1, Insert(1, 1, d));
    SafeOneMore(cf, StartStore, [Begin], Insert(1, 1, d));
    var own: Writes := map[];
    assert own[1 := Some(d)] == map[1 := Some(d)];
  }

  /**
   * The whole run: transaction 2 rewrites the committed row with its own value and rolls back;
   * transaction 3 may then insert the value again and sees it twice.
   */
  lemma RewriteThenRollbackBreaksUnique(cf: Config, d: RowData)
    requires cf.col in d
    ensures var ops := [Begin] + [Insert(1, 1, d)] + [Commit(1)] + [Begin];
      && SafeRun(cf, StartStore, ops)
      && var st := RunStore(cf, StartStore, ops);
         && Legal(st.w.sp, Update(2, 1, d)) && Accepts(cf, st, Update(2, 1, d))
         && var begun := NextStore(cf, NextStore(cf, NextStore(cf, st, Update(2, 1, d)), Rollback(2)), Begin);
            && Legal(begun.w.sp, Insert(3, 2, d)) && Accepts(cf, begun, Insert(3, 2, d))
            && var db := NextStore(cf, begun, Insert(3, 2, d)).w.db;
               Shows(cf, db, 3, 1, d[cf.col]) && Shows(cf, db, 3, 2, d[cf.col])
  {
    var ops := [Begin] + [Insert(1, 1, d)] + [Commit(1)] + [Begin];
    OneRowCommitted(cf, d);
    StartStoreOk(cf);
    IndexStaysComplete(cf, StartStore, ops);
    var st := RunStore(cf, StartStore, ops);
    RewriteTakesEntryOver(cf, st, 2, 1, d);
    StepKeepsIndex(cf, st, Update(2, 1, d));
    var rewritten := NextStore(cf, st, Update(2, 1, d));
    assert rewritten.w.sp.base == map[1 := d] && rewritten.w.sp.pending.Keys == {2};
    UnsafeRollbackBreaksUnique(cf, rewritten, 2, 1, d, 2);
  }

  // ---- UNIQUE between transactions that are active together -----------------------------------------

  /** Both have written the same explicit value, into different rows. */
  predicate Clash(cf: Config, a: Writes, b: Writes) {
    exists x, y :: x in a && y in b && a[x].Some? && b[y].Some? && cf.col in a[x].value && cf.col in b[y].value
      && a[x].value[cf.col] == b[y].value[cf.col]
  }

  /** What a later transaction reads once `t` and then `u` have committed. */
  lemma ReadAfterBoth(sp: Spec, t: TransactionId, u: TransactionId, x: TransactionId, r: RowId)
    requires t in sp.pending && u in sp.pending && t != u && x !in sp.pending && sp.pending[t].Keys !! sp.pending[u].Keys
    ensures SpecRead(SpecApply(SpecApply(sp, Commit(t), true), Commit(u), true), x, r) ==
      if r in sp.pending[u] then sp.pending[u][r] else if r in sp.pending[t] then sp.pending[t][r] else Get(sp.base, r)
  {
  }

  /**
   * Two transactions that each see the column unique may both commit and keep it so for everyone
   * later if and only if they have not written the same value.
   */
  lemma BothCommitUniqueIff(cf: Config, sp: Spec, t: TransactionId, u: TransactionId, x: TransactionId)
    requires t in sp.pending && u in sp.pending && t != u && x !in sp.pending && sp.pending[t].Keys !! sp.pending[u].Keys
    requires SeesUnique(cf, sp, t) && SeesUnique(cf, sp, u)
    ensures SeesUnique(cf, SpecApply(SpecApply(sp, Commit(t), true), Commit(u), true), x) <==> !Clash(cf, sp.pending[t], sp.pending[u])
  {
    var sp' := SpecApply(SpecApply(sp, Commit(t), true), Commit(u), true);
    forall r: RowId
      ensures SpecRead(sp', x, r) ==
        if r in sp.pending[u] then sp.pending[u][r] else if r in sp.pending[t] then sp.pending[t][r] else Get(sp.base, r)
    {
      ReadAfterBoth(sp, t, u, x, r);
    }
    if Clash(cf, sp.pending[t], sp.pending[u]) {
      ClashShows(cf, sp, sp', t, u, x);
    } else {
      forall a, b, d, e | SpecRead(sp', x, a) == Some(d) && SpecRead(sp', x, b) == Some(e)
        ensures cf.col in d && cf.col in e && d[cf.col] == e[cf.col] ==> a == b
      {
        NoClashUnique(cf, sp, t, u, a, b, d, e);
      }
    }
  }

  lemma ClashShows(cf: Config, sp: Spec, sp': Spec, t: TransactionId, u: TransactionId, x: TransactionId)
    requires t in sp.pending && u in sp.pending && sp.pending[t].Keys !! sp.pending[u].Keys && Clash(cf, sp.pending[t], sp.pending[u])
    requires forall r :: r in sp.pending[t] ==> SpecRead(sp', x, r) == sp.pending[t][r]
    requires forall r :: r in sp.pending[u] ==> SpecRead(sp', x, r) == sp.pending[u][r]
    ensures !SeesUnique(cf, sp', x)
  {
    var a, b :| a in sp.pending[t] && b in sp.pending[u] && sp.pending[t][a].Some? && sp.pending[u][b].Some?
      && cf.col in sp.pending[t][a].value && cf.col in sp.pending[u][b].value
      && sp.pending[t][a].value[cf.col] == sp.pending[u][b].value[cf.col];
    assert SpecRead(sp', x, a) == Some(sp.pending[t][a].value) && SpecRead(sp', x, b) == Some(sp.pending[u][b].value);
  }

  /** Two rows of the merged table are seen together by one of the two transactions, or written by one each. */
  lemma NoClashUnique(cf: Config, sp: Spec, t: TransactionId, u: TransactionId, a: RowId, b: RowId, d: RowData, e: RowData)
    requires t in sp.pending && u in sp.pending && t != u && sp.pending[t].Keys !! sp.pending[u].Keys
    requires SeesUnique(cf, sp, t) && SeesUnique(cf, sp, u) && !Clash(cf, sp.pending[t], sp.pending[u])
    requires Some(d) == if a in sp.pending[u] then sp.pending[u][a] else if a in sp.pending[t] then sp.pending[t][a] else Get(sp.base, a)
    requires Some(e) == if b in sp.pending[u] then sp.pending[u][b] else if b in sp.pending[t] then sp.pending[t][b] else Get(sp.base, b)
    ensures cf.col in d && cf.col in e && d[cf.col] == e[cf.col] ==> a == b
  {
    if a !in sp.pending[u] && b !in sp.pending[u] {
      assert SpecRead(sp, t, a) == Some(d) && SpecRead(sp, t, b) == Some(e);
    } else if a !in sp.pending[t] && b !in sp.pending[t] {
      assert SpecRead(sp, u, a) == Some(d) && SpecRead(sp, u, b) == Some(e);
    }
  }
}
