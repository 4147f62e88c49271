/** What happens when a transaction writes a row that another active transaction has already written. */
module SecondWriter {
  import opened Prelude
  import opened Values
  import opened Transactions
  import opened Rows
  import opened MvccStore
  import opened MvccProofs
  import opened MvccTheorems

  /** `u` has written row `r` and is still active; now `t` writes it too. */
  ghost predicate Contended(sp: Spec, t: TransactionId, u: TransactionId, r: RowId) {
    && t in sp.pending && u in sp.pending && t != u && r in sp.pending[u] && SoleWriter(sp, u, r)
  }

  /** After `t` stamped what it sees: `u` sees its own current version, everyone but `t` the stamped one. */
  lemma StampedVisible(c: Chain, snap: Snapshot, sp: Spec, r: RowId, t: TransactionId, u: TransactionId, x: TransactionId, j: nat)
    requires SnapRel(snap, sp) && ChainOk(c, sp, r) && Contended(sp, t, u, r) && Reader(sp, x) && j < |c|
    ensures var m, k := MarkDeleted(c, t, snap), VisibleIndex(c, t, snap);
      IsVisible(m[j].header, x, snap) <==> (x == u && Fresh(c[j].header, u)) || (j == k && x != t)
    ensures j == VisibleIndex(c, t, snap) <==> Current(c[j].header, sp)
  {
    var k := VisibleIndex(c, t, snap);
    VisibleExactly(c[j].header, snap, sp, r, t);
    VisibleExactly(c[j].header, snap, sp, r, x);
    assert Classified(c[j].header, sp, r);
    if 0 <= k && k != j {
      VisibleExactly(c[k].header, snap, sp, r, t);
      assert Classified(c[k].header, sp, r);
      if j < k { assert Ordered(c[j].header, c[k].header, sp); } else { assert Ordered(c[k].header, c[j].header, sp); }
    }
  }

  /** What each reader finds in the chain after the stamp. */
  lemma StampedRead(c: Chain, snap: Snapshot, sp: Spec, r: RowId, t: TransactionId, u: TransactionId, x: TransactionId)
    requires SnapRel(snap, sp) && RowRel(c, sp, r) && Contended(sp, t, u, r) && Reader(sp, x)
    ensures ReadChain(MarkDeleted(c, t, snap), x, snap) ==
      if x == t then None
      else if x == u && sp.pending[u][r].Some? then sp.pending[u][r]
      else Get(sp.base, r)
  {
    var m, k := MarkDeleted(c, t, snap), VisibleIndex(c, t, snap);
    var i := VisibleIndex(m, x, snap);
    assert |m| == |c| && forall j :: 0 <= j < |m| ==> m[j].data == c[j].data;
    forall j | 0 <= j < |c|
      ensures IsVisible(m[j].header, x, snap) <==> (x == u && Fresh(c[j].header, u)) || (j == k && x != t)
      ensures j == k <==> Current(c[j].header, sp)
    {
      StampedVisible(c, snap, sp, r, t, u, x, j);
    }
    assert WriteShown(c, sp, r, u);
    if x == u && sp.pending[u][r].Some? {
      var f :| 0 <= f < |c| && Fresh(c[f].header, u);
      assert forall j :: f < j < |c| ==> !Ordered(c[f].header, c[j].header, sp);
    }
  }

  /** A version pushed by an active transaction is seen by that transaction alone. */
  lemma PushedRead(c: Chain, snap: Snapshot, sp: Spec, t: TransactionId, d: RowData, x: TransactionId)
    requires SnapRel(snap, sp) && t in sp.pending && Reader(sp, x)
    ensures ReadChain(c + [NewVersion(t, d)], x, snap) == if x == t then Some(d) else ReadChain(c, x, snap)
  {
    var n := c + [NewVersion(t, d)];
    assert n[..|n| - 1] == c;
  }

  predicate WritesRow(op: Op, t: TransactionId, r: RowId) {
    (op.Update? || op.Delete?) && op.txn == t && op.row == r
  }

  /** What each reader finds after the second write. */
  lemma SecondRead(db: Db, sp: Spec, op: Op, t: TransactionId, u: TransactionId, r: RowId, x: TransactionId)
    requires Rel(db, sp) && Contended(sp, t, u, r) && WritesRow(op, t, r) && Reader(sp, x) && r in db.rows
    ensures Read(Apply(db, op), x, r) ==
      if x == t then (if op.Update? then Some(op.data) else None)
      else if x == u && sp.pending[u][r].Some? then sp.pending[u][r]
      else Get(sp.base, r)
  {
    var c := db.rows[r];
    assert RowRel(ChainOf(db, r), sp, r);
    StampedRead(c, db.snap, sp, r, t, u, x);
    if op.Update? { PushedRead(MarkDeleted(c, t, db.snap), db.snap, sp, t, op.data, x); }
  }

  /**
   * Right after a second write to a row, every reader finds what the simple store says if and only if
   * the first writer has not deleted a committed row.
   */
  lemma SecondWriteReadsIff(db: Db, sp: Spec, op: Op, t: TransactionId, u: TransactionId, r: RowId)
    requires Rel(db, sp) && Contended(sp, t, u, r) && WritesRow(op, t, r)
    ensures var db', sp' := Apply(db, op), SpecApply(sp, op, r in db.rows);
      (forall x: TransactionId :: Reader(sp', x) ==> Read(db', x, r) == SpecRead(sp', x, r))
      <==> !(sp.pending[u][r].None? && r in sp.base)
  {
    var db', sp' := Apply(db, op), SpecApply(sp, op, r in db.rows);
    assert RowRel(ChainOf(db, r), sp, r);
    assert r !in sp.pending[t];
    if r in db.rows {
      forall x: TransactionId | Reader(sp', x)
        ensures Read(db', x, r) == SpecRead(sp', x, r) <==> !(x == u && sp.pending[u][r].None? && r in sp.base)
      {
        SecondRead(db, sp, op, t, u, r, x);
      }
      assert Reader(sp', u);
    } else {
      assert db' == db && sp' == sp;
      forall x: TransactionId | Reader(sp, x) ensures Read(db, x, r) == SpecRead(sp, x, r) { ReadsAgree(db, sp, x, r); }
    }
  }

  // ---- In the long run ------------------------------------------------------------------------------

  /** After the run `ops`, if it is legal, reader `x` finds at row `r` what the simple store says. */
  ghost predicate AgreesAfter(w: World, ops: seq<Op>, x: TransactionId, r: RowId) {
    LegalRun(w, ops) && Reader(Run(w, ops).sp, x) ==> Read(Run(w, ops).db, x, r) == SpecRead(Run(w, ops).sp, x, r)
  }

  /** Every legal continuation reads as the simple store. */
  ghost predicate AlwaysAgrees(w: World) {
    forall ops: seq<Op>, x: TransactionId, r: RowId :: AgreesAfter(w, ops, x, r)
  }

  lemma RelatedAlwaysAgrees(w: World)
    requires Related(w)
    ensures AlwaysAgrees(w)
  {
    forall ops: seq<Op>, x: TransactionId, r: RowId ensures AgreesAfter(w, ops, x, r) {
      if LegalRun(w, ops) && Reader(Run(w, ops).sp, x) {
        RunKeepsRelation(w, ops);
        ReadsAgree(Run(w, ops).db, Run(w, ops).sp, x, r);
      }
    }
  }

  /** Where the committed version and the first writer's own version are in a contended chain. */
  lemma ContendedChain(c: Chain, snap: Snapshot, sp: Spec, r: RowId, t: TransactionId, u: TransactionId) returns (k: nat, f: nat)
    requires SnapRel(snap, sp) && RowRel(c, sp, r) && Contended(sp, t, u, r) && r in sp.base && sp.pending[u][r].Some?
    ensures k < f < |c| && k == VisibleIndex(c, t, snap) && Committed(c[k].header, sp) && Fresh(c[f].header, u)
  {
    k :| 0 <= k < |c| && Current(c[k].header, sp);
    StampedVisible(c, snap, sp, r, t, u, u, k);
    assert WriteShown(c, sp, r, u);
    f :| 0 <= f < |c| && Fresh(c[f].header, u);
    assert f < k ==> Ordered(c[f].header, c[k].header, sp);
  }

  /** The chain once `t` has written and rolled back: the committed version is live although `u` replaced it. */
  lemma RolledBackChain(c: Chain, snap: Snapshot, t: TransactionId, u: TransactionId, k: nat, f: nat, pushed: seq<Version>)
    requires k < f < |c| && k == VisibleIndex(c, t, snap) && c[k].header.createdBy != t && Fresh(c[f].header, u) && t != u
    ensures var n := RollbackChain(MarkDeleted(c, t, snap) + pushed, t);
      f < |n| && n[k].header == Header(c[k].header.createdBy, None) && Fresh(n[f].header, u)
  {
    var m := MarkDeleted(c, t, snap) + pushed;
    RollbackAt(m, t, k);
    RollbackAt(m, t, f);
  }

  lemma {:induction false} RollbackAt(c: Chain, t: TransactionId, i: nat)
    requires i < |c|
    ensures |RollbackChain(c, t)| == |c| && RollbackChain(c, t)[i] == RollbackVersion(c[i], t)
  {
  }

  /** Deleting its own version then shows `u` the old one again. */
  lemma DeleterSeesOld(n: Chain, snap: Snapshot, u: TransactionId, k: nat, f: nat, a: TransactionId)
    requires k < f < |n| && n[k].header == Header(a, None) && Fresh(n[f].header, u)
    requires a != u && a <= snap.lastPossible && a !in snap.active
    ensures ReadChain(MarkDeleted(n, u, snap), u, snap).Some?
  {
    var j := VisibleIndex(n, u, snap);
    assert IsVisible(n[f].header, u, snap);
    assert j >= f;
    var m := MarkDeleted(n, u, snap);
    assert m[k] == n[k] && IsVisible(m[k].header, u, snap);
  }

  /**
   * The witness: the second writer rolls back, the first one deletes the row it had updated, and then
   * reads the version it had replaced.
   */
  lemma FirstWriterSeesOld(w: World, op: Op, t: TransactionId, u: TransactionId, r: RowId)
    requires Related(w) && Contended(w.sp, t, u, r) && WritesRow(op, t, r) && r in w.sp.base && w.sp.pending[u][r].Some?
    ensures var ops := [Rollback(t), Delete(u, r)];
      && LegalRun(Next(w, op), ops) && Reader(Run(Next(w, op), ops).sp, u)
      && Read(Run(Next(w, op), ops).db, u, r).Some? && SpecRead(Run(Next(w, op), ops).sp, u, r) == None
  {
    var w1 := Next(w, op);
    var w2 := Next(w1, Rollback(t));
    var w3 := Next(w2, Delete(u, r));
    var ops := [Rollback(t), Delete(u, r)];
    assert RowRel(ChainOf(w.db, r), w.sp, r);
    assert r in w.db.rows;
    WitnessSpec(w, op, t, u, r);
    assert ops[1..] == [Delete(u, r)] && ops[1..][1..] == [];
    assert LegalRun(w3, []) && LegalRun(w2, ops[1..]) && Run(w3, []) == w3 && Run(w2, ops[1..]) == w3;
    WitnessRead(w, op, t, u, r);
  }

  lemma WitnessSpec(w: World, op: Op, t: TransactionId, u: TransactionId, r: RowId)
    requires Related(w) && Contended(w.sp, t, u, r) && WritesRow(op, t, r) && r in w.sp.base && w.sp.pending[u][r].Some? && r in w.db.rows
    ensures var w2 := Next(Next(w, op), Rollback(t));
      && t in Next(w, op).sp.pending && u in w2.sp.pending && w2.sp.pending == w.sp.pending - {t} && Legal(w2.sp, Delete(u, r))
      && SpecRead(Next(w2, Delete(u, r)).sp, u, r) == None && Reader(Next(w2, Delete(u, r)).sp, u)
  {
  }

  lemma WitnessRead(w: World, op: Op, t: TransactionId, u: TransactionId, r: RowId)
    requires Related(w) && Contended(w.sp, t, u, r) && WritesRow(op, t, r) && r in w.sp.base && w.sp.pending[u][r].Some? && r in w.db.rows
    requires u in Next(Next(w, op), Rollback(t)).sp.pending
    ensures Read(Next(Next(Next(w, op), Rollback(t)), Delete(u, r)).db, u, r).Some?
  {
    var c, snap := w.db.rows[r], w.db.snap;
    assert RowRel(ChainOf(w.db, r), w.sp, r);
    var k, f := ContendedChain(c, snap, w.sp, r, t, u);
    var pushed := if op.Update? then [NewVersion(t, op.data)] else [];
    RolledBackChain(c, snap, t, u, k, f, pushed);
    var db2 := Next(Next(w, op), Rollback(t)).db;
    assert MarkDeleted(c, t, snap) + [] == MarkDeleted(c, t, snap);
    assert db2.rows[r] == RollbackChain(MarkDeleted(c, t, snap) + pushed, t);
    DeleterSeesOld(db2.rows[r], db2.snap, u, k, f, c[k].header.createdBy);
  }

  /**
   * Writing a row one sees keeps every legal continuation in agreement with the simple store if and
   * only if no other active transaction has written the row.
   */
  lemma SoleWriterIff(w: World, op: Op, t: TransactionId, r: RowId)
    requires Related(w) && t in w.sp.pending && WritesRow(op, t, r) && SpecRead(w.sp, t, r).Some?
    ensures AlwaysAgrees(Next(w, op)) <==> SoleWriter(w.sp, t, r)
  {
    if SoleWriter(w.sp, t, r) {
      Step(w.db, w.sp, op);
      RelatedAlwaysAgrees(Next(w, op));
    } else {
      var u :| u in w.sp.pending && u != t && r in w.sp.pending[u];
      assert SoleWriter(w.sp, u, r) && r !in w.sp.pending[t];
      SomebodyDisagrees(w, op, t, u, r);
    }
  }

  lemma SomebodyDisagrees(w: World, op: Op, t: TransactionId, u: TransactionId, r: RowId)
    requires Related(w) && Contended(w.sp, t, u, r) && WritesRow(op, t, r) && r in w.sp.base
    ensures !AlwaysAgrees(Next(w, op))
  {
    var w1 := Next(w, op);
    if w.sp.pending[u][r].Some? {
      FirstWriterSeesOld(w, op, t, u, r);
      assert !AgreesAfter(w1, [Rollback(t), Delete(u, r)], u, r);
    } else {
      SecondWriteReadsIff(w.db, w.sp, op, t, u, r);
      var x: TransactionId :| Reader(w1.sp, x) && Read(w1.db, x, r) != SpecRead(w1.sp, x, r);
      assert LegalRun(w1, []) && Run(w1, []) == w1;
      assert !AgreesAfter(w1, [], x, r);
    }
  }

  // ---- A run that loses a deletion ------------------------------------------------------------------

  /** One more operation at the end of a run. */
  lemma {:induction false} RunOneMore(w: World, ops: seq<Op>, op: Op)
    requires LegalRun(w, ops) && Legal(Run(w, ops).sp, op)
    ensures LegalRun(w, ops + [op]) && Run(w, ops + [op]) == Next(Run(w, ops), op)
    decreases |ops|
  {
    var all := ops + [op];
    if ops == [] {
      assert all[1..] == [];
    } else {
      assert all[0] == ops[0] && all[1..] == ops[1..] + [op];
      RunOneMore(Next(w, ops[0]), ops[1..], op);
    }
  }

  /** Row 1 committed by transaction 1. */
  function Inserted(d: RowData): World {
    World(Db(map[1 := [NewVersion(1, d)]], Snapshot(1, 1, {}), 2, 1), Spec(map[1 := d], map[], 1, 2, 1))
  }

  /** Row 1 deleted by transaction 2 while transaction 3 is active too. */
  function Deleting(d: RowData): World {
    World(Db(map[1 := [Stamp(NewVersion(1, d), 2)]], Snapshot(1, 1, {2, 3}), 4, 1),
          Spec(map[1 := d], map[2 := map[1 := None], 3 := map[]], 1, 4, 1))
  }

  lemma InsertedReached(d: RowData)
    ensures var ops := [Begin, Insert(1, 1, d), Commit(1)];
      LegalRun(Start, ops) && Run(Start, ops) == Inserted(d)
  {
    var w1 := Next(Start, Begin);
    var w2 := Next(w1, Insert(1, 1, d));
    assert w1 == World(Db(map[], Snapshot(0, 0, {1}), 2, 0), Spec(map[], map[1 := map[]], 0, 2, 0));
    assert w2 == World(Db(map[1 := [NewVersion(1, d)]], Snapshot(0, 0, {1}), 2, 1), Spec(map[], map[1 := map[1 := Some(d)]], 0, 2, 1));
    assert {1} - {1} == {} && Next(w2, Commit(1)).sp.pending == map[];
    assert Overlay(map[], map[1 := Some(d)]) == map[1 := d];
    RunOneMore(Start, [], Begin);
    RunOneMore(Start, [Begin], Insert(1, 1, d));
    RunOneMore(Start, [Begin, Insert(1, 1, d)], Commit(1));
    assert [] + [Begin] == [Begin] && [Begin] + [Insert(1, 1, d)] == [Begin, Insert(1, 1, d)];
    assert [Begin, Insert(1, 1, d)] + [Commit(1)] == [Begin, Insert(1, 1, d), Commit(1)];
  }

  lemma DeletingFollows(d: RowData)
    ensures var w := Next(Next(Inserted(d), Begin), Begin);
      && w == World(Db(map[1 := [NewVersion(1, d)]], Snapshot(1, 1, {2, 3}), 4, 1), Spec(map[1 := d], map[2 := map[], 3 := map[]], 1, 4, 1))
      && Legal(w.sp, Delete(2, 1)) && Next(w, Delete(2, 1)) == Deleting(d)
  {
    var w1 := Next(Inserted(d), Begin);
    assert w1 == World(Db(map[1 := [NewVersion(1, d)]], Snapshot(1, 1, {2}), 3, 1), Spec(map[1 := d], map[2 := map[]], 1, 3, 1));
    var w := Next(w1, Begin);
    assert w.db.snap.active == {2, 3} && w.sp.pending == map[2 := map[], 3 := map[]];
    assert MarkDeleted([NewVersion(1, d)], 2, w.db.snap) == [Stamp(NewVersion(1, d), 2)];
    var own: Writes := map[];
    assert own[1 := None] == map[1 := None];
  }

  lemma DeletingReached(d: RowData)
    ensures var ops := [Begin, Insert(1, 1, d), Commit(1)] + [Begin] + [Begin] + [Delete(2, 1)];
      LegalRun(Start, ops) && Run(Start, ops) == Deleting(d)
    ensures Related(Deleting(d))
  {
    var ops := [Begin, Insert(1, 1, d), Commit(1)];
    InsertedReached(d);
    DeletingFollows(d);
    RunOneMore(Start, ops, Begin);
    RunOneMore(Start, ops + [Begin], Begin);
    RunOneMore(Start, ops + [Begin] + [Begin], Delete(2, 1));
    StartRelated();
    RunKeepsRelation(Start, ops + [Begin] + [Begin] + [Delete(2, 1)]);
  }

  /** A second deletion overwrites the first: the first deleter sees the row again. */
  lemma SecondDeleteRevivesRow(d: RowData)
    ensures var w := Deleting(d);
      && Related(w) && !Legal(w.sp, Delete(3, 1))
      && Read(w.db, 2, 1) == None
      && Read(Next(w, Delete(3, 1)).db, 2, 1) == Some(d) && SpecRead(Next(w, Delete(3, 1)).sp, 2, 1) == None
  {
    var w := Deleting(d);
    DeletingReached(d);
    assert 1 in w.sp.pending[2];
    ReadsAgree(w.db, w.sp, 2, 1);
    SecondRead(w.db, w.sp, Delete(3, 1), 3, 2, 1, 2);
  }

  /** If the second deleter then rolls back, the first one commits and its deletion never happened. */
  lemma CommittedDeletionIsLost(d: RowData)
    ensures var w := Next(Next(Next(Deleting(d), Delete(3, 1)), Rollback(3)), Commit(2));
      Read(w.db, 4, 1) == Some(d) && SpecRead(w.sp, 4, 1) == None
  {
    SecondUndone(d);
    var w := Next(Undone(d), Commit(2));
    assert w.db.snap.active == {} && w.db.snap.lastPossible == 2 && w.sp.base == map[];
  }

  /** Both have deleted row 1 and transaction 3 was rolled back. */
  function Undone(d: RowData): World {
    World(Db(map[1 := [NewVersion(1, d)]], Snapshot(2, 1, {2}), 4, 1), Spec(map[1 := d], map[2 := map[1 := None]], 1, 4, 1))
  }

  lemma SecondUndone(d: RowData)
    ensures Next(Next(Deleting(d), Delete(3, 1)), Rollback(3)) == Undone(d)
  {
    SecondStamp(d);
    var w := Next(Next(Deleting(d), Delete(3, 1)), Rollback(3));
    assert RollbackChain([Stamp(NewVersion(1, d), 3)], 3) == [NewVersion(1, d)];
    assert w.db.snap.active == {2} && w.sp.pending == map[2 := map[1 := None]];
    MinOfUnique({2}, 2);
  }

  lemma SecondStamp(d: RowData)
    ensures var w := Next(Deleting(d), Delete(3, 1));
      && w.db == Db(map[1 := [Stamp(NewVersion(1, d), 3)]], Snapshot(1, 1, {2, 3}), 4, 1)
      && w.sp == Spec(map[1 := d], map[2 := map[1 := None], 3 := map[1 := None]], 1, 4, 1)
  {
    var w := Deleting(d);
    assert MarkDeleted([Stamp(NewVersion(1, d), 2)], 3, w.db.snap) == [Stamp(NewVersion(1, d), 3)];
    var own: Writes := map[];
    assert own[1 := None] == map[1 := None];
  }

  // ---- A run that loses a deletion although all reads agreed after the second write -----------------

  /** Row 1 updated by transaction 2 and then deleted by transaction 3. */
  function Replacing(d: RowData, e: RowData): World {
    World(Db(map[1 := [Stamp(NewVersion(1, d), 3), NewVersion(2, e)]], Snapshot(1, 1, {2, 3}), 4, 1),
          Spec(map[1 := d], map[2 := map[1 := Some(e)], 3 := map[1 := None]], 1, 4, 1))
  }

  /** Before the deletion. */
  function Updated(d: RowData, e: RowData): World {
    World(Db(map[1 := [Stamp(NewVersion(1, d), 2), NewVersion(2, e)]], Snapshot(1, 1, {2, 3}), 4, 1),
          Spec(map[1 := d], map[2 := map[1 := Some(e)], 3 := map[]], 1, 4, 1))
  }

  lemma UpdatedFollows(d: RowData, e: RowData)
    ensures var w := Next(Next(Inserted(d), Begin), Begin);
      Legal(w.sp, Update(2, 1, e)) && Next(w, Update(2, 1, e)) == Updated(d, e)
  {
    DeletingFollows(d);
    var w := Next(Next(Inserted(d), Begin), Begin);
    var own: Writes := map[];
    assert own[1 := Some(e)] == map[1 := Some(e)];
    assert MarkDeleted([NewVersion(1, d)], 2, w.db.snap) == [Stamp(NewVersion(1, d), 2)];
    assert [Stamp(NewVersion(1, d), 2)] + [NewVersion(2, e)] == Updated(d, e).db.rows[1];
    var w1 := Next(w, Update(2, 1, e));
    assert w1.db.rows == Updated(d, e).db.rows;
    assert w1.sp.pending == map[2 := map[1 := Some(e)], 3 := map[]];
  }

  lemma ReplacingFollows(d: RowData, e: RowData)
    ensures !Legal(Updated(d, e).sp, Delete(3, 1)) && Next(Updated(d, e), Delete(3, 1)) == Replacing(d, e)
  {
    var w := Updated(d, e);
    var c := w.db.rows[1];
    assert c[..1] == [Stamp(NewVersion(1, d), 2)];
    assert VisibleIndex(c[..1], 3, w.db.snap) == 0 && VisibleIndex(c, 3, w.db.snap) == 0;
    assert MarkDeleted(c, 3, w.db.snap) == [Stamp(NewVersion(1, d), 3), NewVersion(2, e)];
    var own: Writes := map[];
    assert own[1 := None] == map[1 := None];
    assert 1 in w.sp.pending[2];
  }

  /** Transaction 2 has committed its update. */
  function HalfCommitted(d: RowData, e: RowData): World {
    World(Db(map[1 := [Stamp(NewVersion(1, d), 3), NewVersion(2, e)]], Snapshot(3, 2, {3}), 4, 1),
          Spec(map[1 := e], map[3 := map[1 := None]], 2, 4, 1))
  }

  lemma FirstCommits(d: RowData, e: RowData)
    ensures Legal(Replacing(d, e).sp, Commit(2)) && Next(Replacing(d, e), Commit(2)) == HalfCommitted(d, e)
  {
    var w := Next(Replacing(d, e), Commit(2));
    assert {2, 3} - {2} == {3};
    MinOfUnique({3}, 3);
    assert w.db.snap == Snapshot(3, 2, {3});
    assert 1 in Replacing(d, e).sp.pending[2];
    assert w.sp.pending == map[3 := map[1 := None]];
    assert w.sp.base == map[1 := e];
  }

  /**
   * All reads agreed after the second write. Both then commit, in id order, and the row that
   * transaction 3 deleted is still there; transaction 3 itself saw it once 2 had committed.
   */
  lemma LaterCommitsLoseDeletion(d: RowData, e: RowData)
    ensures var w := Next(Replacing(d, e), Commit(2));
      && Legal(Replacing(d, e).sp, Commit(2)) && Legal(w.sp, Commit(3))
      && Read(w.db, 3, 1) == Some(e) && SpecRead(w.sp, 3, 1) == None
      && Read(Next(w, Commit(3)).db, 4, 1) == Some(e) && SpecRead(Next(w, Commit(3)).sp, 4, 1) == None
  {
    FirstCommits(d, e);
    var last := Next(HalfCommitted(d, e), Commit(3));
    assert last.db.snap.active == {} && last.db.snap.lastPossible == 3 && last.sp.base == map[];
  }
}
