/** What holds over whole runs of interleaved transactions. */
module MvccTheorems {
  import opened Prelude
  import opened Values
  import opened Transactions
  import opened Rows
  import opened MvccStore
  import opened MvccProofs

  /** The engine next to the simple store it should look like. */
  datatype World = World(db: Db, sp: Spec)

  const Start: World := World(Init, SpecInit)

  ghost function Next(w: World, op: Op): World
    requires Acts(w.sp, op)
  {
    World(Apply(w.db, op), SpecApply(w.sp, op, op.Update? && op.row in w.db.rows))
  }

  ghost predicate LegalRun(w: World, ops: seq<Op>)
    decreases |ops|
  {
    ops == [] || (Legal(w.sp, ops[0]) && LegalRun(Next(w, ops[0]), ops[1..]))
  }

  ghost function Run(w: World, ops: seq<Op>): World
    requires LegalRun(w, ops)
    decreases |ops|
  {
    if ops == [] then w else Run(Next(w, ops[0]), ops[1..])
  }

  ghost predicate Related(w: World) { Rel(w.db, w.sp) }

  // ---- Refinement ---------------------------------------------------------------------------------

  lemma {:induction false} RunKeepsRelation(w: World, ops: seq<Op>)
    requires Related(w) && LegalRun(w, ops)
    ensures Related(Run(w, ops))
    decreases |ops|
  {
    if ops != [] {
      Step(w.db, w.sp, ops[0]);
      RunKeepsRelation(Next(w, ops[0]), ops[1..]);
    }
  }

  lemma StartRelated()
    ensures Related(Start)
  {
    forall r: RowId ensures RowRel(ChainOf(Init, r), SpecInit, r) {}
  }

  /**
   * In every legal interleaved run each transaction sees at most one version of a row, and reads
   * its own latest write or else the latest committed value.
   */
  lemma RunRefinesSimpleStore(ops: seq<Op>, t: TransactionId, r: RowId)
    requires LegalRun(Start, ops) && Reader(Run(Start, ops).sp, t)
    ensures var w := Run(Start, ops);
      && Read(w.db, t, r) == SpecRead(w.sp, t, r)
      && forall i, j :: 0 <= i < j < |ChainOf(w.db, r)| ==>
           !(IsVisible(ChainOf(w.db, r)[i].header, t, w.db.snap)
             && IsVisible(ChainOf(w.db, r)[j].header, t, w.db.snap))
  {
    StartRelated();
    RunKeepsRelation(Start, ops);
    var w := Run(Start, ops);
    ReadsAgree(w.db, w.sp, t, r);
    forall i, j | 0 <= i < j < |ChainOf(w.db, r)|
      ensures !(IsVisible(ChainOf(w.db, r)[i].header, t, w.db.snap)
                && IsVisible(ChainOf(w.db, r)[j].header, t, w.db.snap))
    {
      AtMostOneVisible(w.db, w.sp, t, r, i, j);
    }
  }

  /** The watermark invariants of the snapshot, at every point of every legal run. */
  lemma RunKeepsWatermarks(ops: seq<Op>)
    requires LegalRun(Start, ops)
    ensures var w := Run(Start, ops);
      && (forall t :: t in w.db.snap.active ==> w.db.snap.smallestActive <= t < w.db.next)
      && w.sp.maxWriter <= w.db.snap.lastPossible
      && forall r, i :: r in w.db.rows && 0 <= i < |w.db.rows[r]| ==>
           var h := w.db.rows[r][i].header;
           h.createdBy in w.db.snap.active ==> h.deletedBy.None? || h.deletedBy == Some(h.createdBy)
  {
    StartRelated();
    RunKeepsRelation(Start, ops);
    var w := Run(Start, ops);
    forall r, i | r in w.db.rows && 0 <= i < |w.db.rows[r]|
      ensures var h := w.db.rows[r][i].header;
        h.createdBy in w.db.snap.active ==> h.deletedBy.None? || h.deletedBy == Some(h.createdBy)
    {
      assert RowRel(ChainOf(w.db, r), w.sp, r);
      assert Classified(w.db.rows[r][i].header, w.sp, r);
    }
  }

  // ---- Pruning ------------------------------------------------------------------------------------

  lemma {:induction false} DeadForever(w: World, h: Header, ops: seq<Op>)
    requires Related(w) && LegalRun(w, ops) && Dead(h, w.sp)
    ensures Dead(h, Run(w, ops).sp)
    decreases |ops|
  {
    if ops != [] {
      Step(w.db, w.sp, ops[0]);
      assert Dead(h, Next(w, ops[0]).sp);
      DeadForever(Next(w, ops[0]), h, ops[1..]);
    }
  }

  /** What vacuum removes now, no active or later transaction could see in any continuation. */
  lemma PrunedIsInvisibleForever(w: World, r: RowId, i: nat, ops: seq<Op>, t: TransactionId)
    requires Related(w) && LegalRun(w, ops)
    requires i < |ChainOf(w.db, r)| && !Kept(ChainOf(w.db, r)[i], w.db.snap.smallestActive)
    requires Reader(Run(w, ops).sp, t)
    ensures !IsVisible(ChainOf(w.db, r)[i].header, t, Run(w, ops).db.snap)
  {
    var h := ChainOf(w.db, r)[i].header;
    assert RowRel(ChainOf(w.db, r), w.sp, r);
    assert Dead(h, w.sp) by {
      if !Dead(h, w.sp) { NotDeadIsKept(ChainOf(w.db, r)[i], w.db.snap, w.sp, r); }
    }
    DeadForever(w, h, ops);
    RunKeepsRelation(w, ops);
    VisibleExactly(h, Run(w, ops).db.snap, Run(w, ops).sp, r, t);
  }

  ghost function Exec(db: Db, ops: seq<Op>): Db
    decreases |ops|
  {
    if ops == [] then db else Exec(Apply(db, ops[0]), ops[1..])
  }

  function SpecRun(sp: Spec, ops: seq<Op>): Spec
    requires CarefulRun(sp, ops)
    decreases |ops|
  {
    if ops == [] then sp else SpecRun(SpecApply(sp, ops[0], true), ops[1..])
  }

  /** Statements only touch rows their transaction sees, as the executor's search guarantees. */
  predicate Careful(sp: Spec, op: Op) {
    Legal(sp, op) && (op.Update? || op.Delete? ==> SpecRead(sp, op.txn, op.row).Some?)
  }

  predicate CarefulRun(sp: Spec, ops: seq<Op>)
    decreases |ops|
  {
    ops == [] || (Careful(sp, ops[0]) && CarefulRun(SpecApply(sp, ops[0], true), ops[1..]))
  }

  /** The run with its vacuums left out. */
  function WithoutPrune(ops: seq<Op>): seq<Op> {
    if ops == [] then []
    else (if ops[0].Prune? then [] else [ops[0]]) + WithoutPrune(ops[1..])
  }

  lemma CarefulStep(db: Db, sp: Spec, op: Op)
    requires Rel(db, sp) && Careful(sp, op)
    ensures Rel(Apply(db, op), SpecApply(sp, op, true))
  {
    if op.Update? {
      ReadsAgree(db, sp, op.txn, op.row);
    }
    Step(db, sp, op);
  }

  lemma {:induction false} CarefulRunRefines(db: Db, sp: Spec, ops: seq<Op>)
    requires Rel(db, sp) && CarefulRun(sp, ops)
    ensures Rel(Exec(db, ops), SpecRun(sp, ops))
    decreases |ops|
  {
    if ops != [] {
      CarefulStep(db, sp, ops[0]);
      CarefulRunRefines(Apply(db, ops[0]), SpecApply(sp, ops[0], true), ops[1..]);
    }
  }

  lemma {:induction false} PruneIsSkipped(db: Db, sp: Spec, ops: seq<Op>)
    requires Rel(db, sp) && CarefulRun(sp, ops)
    ensures Rel(Exec(db, WithoutPrune(ops)), SpecRun(sp, ops))
    decreases |ops|
  {
    if ops != [] {
      var rest := WithoutPrune(ops[1..]);
      if ops[0].Prune? {
        assert WithoutPrune(ops) == rest;
        PruneIsSkipped(db, sp, ops[1..]);
      } else {
        var kept := WithoutPrune(ops);
        assert kept == [ops[0]] + rest;
        assert kept[0] == ops[0] && kept[1..] == rest;
        CarefulStep(db, sp, ops[0]);
        PruneIsSkipped(Apply(db, ops[0]), SpecApply(sp, ops[0], true), ops[1..]);
      }
    }
  }

  /** Vacuuming at any points of a run changes no read, then or later. */
  lemma PrunedRunsReadTheSame(db: Db, sp: Spec, ops: seq<Op>, t: TransactionId, r: RowId)
    requires Rel(db, sp) && CarefulRun(sp, ops) && Reader(SpecRun(sp, ops), t)
    ensures Read(Exec(db, ops), t, r) == Read(Exec(db, WithoutPrune(ops)), t, r)
  {
    CarefulRunRefines(db, sp, ops);
    PruneIsSkipped(db, sp, ops);
    ReadsAgree(Exec(db, ops), SpecRun(sp, ops), t, r);
    ReadsAgree(Exec(db, WithoutPrune(ops)), SpecRun(sp, ops), t, r);
  }

  // ---- Rollback -----------------------------------------------------------------------------------

  predicate WritesAs(op: Op, t: TransactionId) {
    (op.Insert? || op.Update? || op.Delete?) && op.txn == t
  }

  /** The run with the writes of `t` left out. */
  function Erase(ops: seq<Op>, t: TransactionId): seq<Op> {
    if ops == [] then []
    else (if WritesAs(ops[0], t) then [] else [ops[0]]) + Erase(ops[1..], t)
  }

  /** Equal but for what `t` has written on the left. */
  predicate Twins(a: Spec, b: Spec, t: TransactionId) {
    && a.base == b.base && a.maxWriter == b.maxWriter && a.next == b.next && b.lastRow <= a.lastRow
    && a.pending.Keys == b.pending.Keys
    && (forall u :: u in a.pending && u != t ==> a.pending[u] == b.pending[u])
    && (t in b.pending ==> b.pending[t] == map[])
  }

  lemma TwinStep(a: Spec, b: Spec, op: Op, t: TransactionId)
    requires Twins(a, b, t) && Careful(a, op) && op != Commit(t)
    ensures WritesAs(op, t) ==> Twins(SpecApply(a, op, true), b, t)
    ensures !WritesAs(op, t) ==> Careful(b, op) && Twins(SpecApply(a, op, true), SpecApply(b, op, true), t)
  {
    if !WritesAs(op, t) {
      assert Legal(b, op) by {
        if op.Update? || op.Delete? {
          assert forall u :: u in b.pending && u != op.txn ==> op.row !in b.pending[u];
        }
      }
    }
  }

  lemma {:induction false} ErasedRun(a: Spec, b: Spec, ops: seq<Op>, t: TransactionId)
    requires Twins(a, b, t) && CarefulRun(a, ops) && Commit(t) !in ops
    ensures CarefulRun(b, Erase(ops, t)) && Twins(SpecRun(a, ops), SpecRun(b, Erase(ops, t)), t)
    decreases |ops|
  {
    if ops != [] {
      assert ops[0] != Commit(t) && Commit(t) !in ops[1..];
      var rest := Erase(ops[1..], t);
      var a' := SpecApply(a, ops[0], true);
      TwinStep(a, b, ops[0], t);
      if WritesAs(ops[0], t) {
        assert Erase(ops, t) == rest;
        ErasedRun(a', b, ops[1..], t);
      } else {
        var e := Erase(ops, t);
        assert e == [ops[0]] + rest;
        assert e[0] == ops[0] && e[1..] == rest;
        ErasedRun(a', SpecApply(b, ops[0], true), ops[1..], t);
      }
    }
  }

  /**
   * A transaction that never commits, whether it was rolled back or is still active, leaves no
   * trace: every other transaction reads what it would have read had `t` written nothing.
   */
  lemma RollbackLeavesNoTrace(db: Db, sp: Spec, ops: seq<Op>, t: TransactionId, u: TransactionId, r: RowId)
    requires Rel(db, sp) && CarefulRun(sp, ops)
    requires t in sp.pending ==> sp.pending[t] == map[]
    requires Commit(t) !in ops
    requires u != t && Reader(SpecRun(sp, ops), u)
    ensures Read(Exec(db, ops), u, r) == Read(Exec(db, Erase(ops, t)), u, r)
  {
    ErasedRun(sp, sp, ops, t);
    CarefulRunRefines(db, sp, ops);
    CarefulRunRefines(db, sp, Erase(ops, t));
    ReadsAgree(Exec(db, ops), SpecRun(sp, ops), u, r);
    ReadsAgree(Exec(db, Erase(ops, t)), SpecRun(sp, Erase(ops, t)), u, r);
  }

  /** Every version `t` created has been deleted by `t` itself, and `t` is over. */
  ghost predicate Buried(w: World, t: TransactionId) {
    && t !in w.sp.pending && t < w.sp.next
    && forall r, i :: r in w.db.rows && 0 <= i < |w.db.rows[r]| && w.db.rows[r][i].header.createdBy == t ==>
         w.db.rows[r][i].header.deletedBy == Some(t)
  }

  lemma BuriedStep(w: World, op: Op, t: TransactionId)
    requires Related(w) && Legal(w.sp, op) && Buried(w, t)
    ensures Buried(Next(w, op), t)
  {
    var w' := Next(w, op);
    forall r, i | r in w'.db.rows && 0 <= i < |w'.db.rows[r]| && w'.db.rows[r][i].header.createdBy == t
      ensures w'.db.rows[r][i].header.deletedBy == Some(t)
    {
      if op.Prune? {
        var at := PruneChainIsSubsequence(w.db.rows[r], w.db.snap.smallestActive);
        assert w'.db.rows[r][i] == w.db.rows[r][at[i]];
      } else if op.Rollback? {
        assert w'.db.rows[r][i] == RollbackVersion(w.db.rows[r][i], op.txn);
      } else if (op.Update? || op.Delete?) && r == op.row {
        var c := w.db.rows[r];
        assert RowRel(ChainOf(w.db, r), w.sp, r);
        var k := VisibleIndex(c, op.txn, w.db.snap);
        if k >= 0 {
          VisibleExactly(c[k].header, w.db.snap, w.sp, r, op.txn);
        }
      }
    }
  }

  lemma {:induction false} BuriedForever(w: World, ops: seq<Op>, t: TransactionId)
    requires Related(w) && LegalRun(w, ops) && Buried(w, t)
    ensures Buried(Run(w, ops), t)
    decreases |ops|
  {
    if ops != [] {
      BuriedStep(w, ops[0], t);
      Step(w.db, w.sp, ops[0]);
      BuriedForever(Next(w, ops[0]), ops[1..], t);
    }
  }

  /** After a rollback no version `t` created is visible to anyone, in any later reachable state. */
  lemma RolledBackNeverVisible(w: World, t: TransactionId, ops: seq<Op>, u: TransactionId, r: RowId, i: nat)
    requires Related(w) && Legal(w.sp, Rollback(t)) && LegalRun(Next(w, Rollback(t)), ops)
    requires Reader(Run(Next(w, Rollback(t)), ops).sp, u)
    requires var db := Run(Next(w, Rollback(t)), ops).db;
      i < |ChainOf(db, r)| && ChainOf(db, r)[i].header.createdBy == t
    ensures var db := Run(Next(w, Rollback(t)), ops).db;
      !IsVisible(ChainOf(db, r)[i].header, u, db.snap)
  {
    var w1 := Next(w, Rollback(t));
    Step(w.db, w.sp, Rollback(t));
    forall x, j | x in w1.db.rows && 0 <= j < |w1.db.rows[x]| && w1.db.rows[x][j].header.createdBy == t
      ensures w1.db.rows[x][j].header.deletedBy == Some(t)
    {
      assert RowRel(ChainOf(w.db, x), w.sp, x);
      RollbackHeader(w.db.rows[x][j], w.sp, x, t);
    }
    BuriedForever(w1, ops, t);
    RunKeepsRelation(w1, ops);
    var w2 := Run(w1, ops);
    assert RowRel(ChainOf(w2.db, r), w2.sp, r);
    VisibleExactly(ChainOf(w2.db, r)[i].header, w2.db.snap, w2.sp, r, u);
  }

  // ---- Restart ------------------------------------------------------------------------------------

  predicate Unwritten(sp: Spec, r: RowId) {
    forall w :: w in sp.pending ==> r !in sp.pending[w]
  }

  /** What row `r` would hold if every unfinished write counted. */
  ghost function Exposed(sp: Spec, r: RowId): Option<RowData> {
    if Unwritten(sp, r) then Get(sp.base, r)
    else
      var w :| w in sp.pending && r in sp.pending[w];
      sp.pending[w][r]
  }

  /** Reloading makes every unfinished write visible, because all ids handed out count as committed. */
  lemma RestartExposesUnfinishedWrites(db: Db, sp: Spec, t: TransactionId, r: RowId)
    requires Rel(db, sp) && t >= sp.next
    ensures Read(Apply(db, Restart), t, r) == Exposed(sp, r)
  {
    var db' := Apply(db, Restart);
    var c := ChainOf(db, r);
    assert ChainOf(db', r) == c && RowRel(c, sp, r);
    forall i | 0 <= i < |c|
      ensures IsVisible(c[i].header, t, db'.snap) <==>
        (Live(c[i].header, sp) || (c[i].header.createdBy in sp.pending && c[i].header.deletedBy.None?))
    {
      assert Classified(c[i].header, sp, r);
    }
    var k := VisibleIndex(c, t, db'.snap);
    if Unwritten(sp, r) {
      assert forall i :: 0 <= i < |c| && Current(c[i].header, sp) ==> IsVisible(c[i].header, t, db'.snap);
      assert k >= 0 ==> Classified(c[k].header, sp, r);
    } else {
      var w :| w in sp.pending && r in sp.pending[w] && Exposed(sp, r) == sp.pending[w][r];
      assert WriteShown(c, sp, r, w) && SoleWriter(sp, w, r);
      assert k >= 0 ==> Classified(c[k].header, sp, r);
    }
  }

  /** A restart preserves what a new transaction reads exactly when no unfinished write changes a row. */
  lemma RestartPreservesReadsIff(db: Db, sp: Spec, t: TransactionId)
    requires Rel(db, sp) && t >= sp.next
    ensures (forall r: RowId :: Read(Apply(db, Restart), t, r) == Read(db, t, r))
      <==> (forall w, r :: w in sp.pending && r in sp.pending[w] ==> sp.pending[w][r] == Get(sp.base, r))
  {
    forall r: RowId
      ensures Read(Apply(db, Restart), t, r) == Exposed(sp, r) && Read(db, t, r) == Get(sp.base, r)
    {
      RestartExposesUnfinishedWrites(db, sp, t, r);
      ReadsAgree(db, sp, t, r);
    }
    forall w, r | w in sp.pending && r in sp.pending[w]
      ensures Exposed(sp, r) == sp.pending[w][r]
    {
      assert SoleWriter(sp, w, r);
    }
  }

  // ---- Commit order -------------------------------------------------------------------------------

  /** The version of row `r` that reader `u` should see once `t` has committed: its own, that of `t`, or the committed one. */
  predicate RightFor(h: Header, sp: Spec, t: TransactionId, u: TransactionId, r: RowId)
    requires t in sp.pending
  {
    if u in sp.pending && r in sp.pending[u] then Fresh(h, u)
    else if r in sp.pending[t] then Fresh(h, t)
    else Current(h, sp)
  }

  /** A finished version whose creator is not above `t` but whose deleter is: the deletion would be undone. */
  predicate Reappears(h: Header, sp: Spec, t: TransactionId, smallest: TransactionId) {
    && h.createdBy !in sp.pending && h.deletedBy.Some? && h.deletedBy.value !in sp.pending
    && h.createdBy <= t < h.deletedBy.value && smallest <= h.deletedBy.value
  }

  /** What a commit by `t` needs of a chain: the right version not above `t`, or else none that reappears. */
  predicate CommitInOrder(c: Chain, sp: Spec, t: TransactionId, u: TransactionId, r: RowId, smallest: TransactionId)
    requires t in sp.pending
  {
    && (forall i :: 0 <= i < |c| && RightFor(c[i].header, sp, t, u, r) && Committed(c[i].header, sp) ==> c[i].header.createdBy <= t)
    && ((exists i :: 0 <= i < |c| && RightFor(c[i].header, sp, t, u, r))
        || forall i :: 0 <= i < |c| ==> !Reappears(c[i].header, sp, t, smallest))
  }

  /** The reader's newest visible version is the right one, or nothing where there is none. */
  predicate SeesRight(c: Chain, sp: Spec, t: TransactionId, u: TransactionId, r: RowId, i: int)
    requires t in sp.pending && -1 <= i < |c|
  {
    if i < 0 then forall j :: 0 <= j < |c| ==> !RightFor(c[j].header, sp, t, u, r) else RightFor(c[i].header, sp, t, u, r)
  }

  /** Who sees what once `t` has committed. */
  lemma VisibleAfterCommit(h: Header, snap: Snapshot, sp: Spec, r: RowId, t: TransactionId, u: TransactionId)
    requires SnapRel(snap, sp) && Classified(h, sp, r) && t in sp.pending && u != t && Reader(sp, u)
    requires forall w :: w in sp.pending && r in sp.pending[w] ==> SoleWriter(sp, w, r)
    ensures var snap' := CommitSnapshot(snap, t);
      IsVisible(h, u, snap') <==>
        || (RightFor(h, sp, t, u, r) && (Committed(h, sp) ==> h.createdBy <= t))
        || Reappears(h, sp, t, snap'.smallestActive)
  {
    forall w | w in sp.pending && w != t ensures CommitSnapshot(snap, t).smallestActive <= w { assert w in snap.active - {t}; }
  }

  /**
   * Exactly when commit may assign `lastPossible` its own id: any other transaction, active or later,
   * sees the right version of a row after `t` commits if and only if `t` is in order there.
   */
  lemma CommitKeepsRowIff(db: Db, sp: Spec, t: TransactionId, u: TransactionId, r: RowId)
    requires Rel(db, sp) && t in sp.pending && u != t && Reader(sp, u)
    ensures var snap' := CommitSnapshot(db.snap, t);
      SeesRight(ChainOf(db, r), sp, t, u, r, VisibleIndex(ChainOf(db, r), u, snap'))
      <==> CommitInOrder(ChainOf(db, r), sp, t, u, r, snap'.smallestActive)
  {
    var snap' := CommitSnapshot(db.snap, t);
    var c := ChainOf(db, r);
    assert RowRel(c, sp, r);
    forall i | 0 <= i < |c|
      ensures IsVisible(c[i].header, u, snap') <==>
        (RightFor(c[i].header, sp, t, u, r) && (Committed(c[i].header, sp) ==> c[i].header.createdBy <= t))
        || Reappears(c[i].header, sp, t, snap'.smallestActive)
      ensures RightFor(c[i].header, sp, t, u, r) ==> !Reappears(c[i].header, sp, t, snap'.smallestActive)
    {
      VisibleAfterCommit(c[i].header, db.snap, sp, r, t, u);
    }
    if i :| 0 <= i < |c| && RightFor(c[i].header, sp, t, u, r) { RightIsNewest(c, sp, t, u, r, i, snap'.smallestActive); }
  }

  /** There is one right version, and nothing after it reappears. */
  lemma RightIsNewest(c: Chain, sp: Spec, t: TransactionId, u: TransactionId, r: RowId, i: nat, smallest: TransactionId)
    requires ChainOk(c, sp, r) && t in sp.pending && i < |c| && RightFor(c[i].header, sp, t, u, r)
    ensures forall j :: 0 <= j < |c| && j != i ==> !RightFor(c[j].header, sp, t, u, r)
    ensures forall j :: i < j < |c| ==> !Reappears(c[j].header, sp, t, smallest)
  {
    forall j | 0 <= j < |c| && j != i
      ensures !RightFor(c[j].header, sp, t, u, r) && (i < j ==> !Reappears(c[j].header, sp, t, smallest))
    {
      if i < j { assert Ordered(c[i].header, c[j].header, sp); } else { assert Ordered(c[j].header, c[i].header, sp); }
    }
  }

  /** Commits out of id order lose data: a reader that commits late hides the newer committed row. */
  lemma LateCommitHidesRow(d: RowData)
    ensures var w := Next(Next(Next(Start, Begin), Begin), Insert(2, 1, d));
      && LegalRun(Start, [Begin, Begin, Insert(2, 1, d), Commit(2)])
      && !Legal(Next(w, Commit(2)).sp, Commit(1))
      && Read(Next(w, Commit(2)).db, 3, 1) == Some(d)
      && Read(Next(Next(w, Commit(2)), Commit(1)).db, 3, 1) == None
  {
    var w1 := Next(Start, Begin);
    var w2 := Next(w1, Begin);
    var w3 := Next(w2, Insert(2, 1, d));
    var w4 := Next(w3, Commit(2));
    var ops := [Begin, Begin, Insert(2, 1, d), Commit(2)];
    assert LegalRun(w4, []);
    assert ops[1..][1..][1..][1..] == [] && ops[1..][1..][1..] == [Commit(2)];
    assert LegalRun(w3, ops[1..][1..][1..]);
    assert LegalRun(w2, ops[1..][1..]);
    assert w3.db.rows[1] == [NewVersion(2, d)];
    assert w3.db.snap.active == {1, 2};
    assert w4.db.snap.active == {1};
    assert Next(w4, Commit(1)).db.snap.active == {};
  }

  // ---- What vacuum reclaims -------------------------------------------------------------------------

  lemma {:induction false} PruneKeepsIff(c: Chain, oldest: TransactionId, v: Version)
    ensures v in PruneChain(c, oldest) <==> v in c && (v.header.deletedBy.None? || v.header.deletedBy.value >= oldest)
    decreases |c|
  {
    if c != [] {
      var front, last := c[..|c| - 1], c[|c| - 1];
      PruneKeepsIff(front, oldest, v);
      assert c == front + [last];
    }
  }

  /** `w` is below every active id but `t`, and below `t` if there is no other. */
  ghost predicate BelowAll(w: TransactionId, active: set<TransactionId>, t: TransactionId) {
    && (forall u :: u in active && u != t ==> w < u)
    && ((forall u :: u in active ==> u == t) ==> w < t)
  }

  /** The next commit and vacuum take away exactly the versions whose deleter is below every id that is then active. */
  lemma ReclaimedIff(db: Db, t: TransactionId, r: RowId, v: Version)
    requires v in ChainOf(db, r)
    ensures v !in ChainOf(Apply(Apply(db, Commit(t)), Prune), r) <==>
      v.header.deletedBy.Some? && BelowAll(v.header.deletedBy.value, db.snap.active, t)
  {
    PruneKeepsIff(db.rows[r], CommitSnapshot(db.snap, t).smallestActive, v);
    if v.header.deletedBy.Some? { BelowAllIff(db.snap, t, v.header.deletedBy.value); }
  }

  lemma BelowAllIff(snap: Snapshot, t: TransactionId, w: TransactionId)
    ensures BelowAll(w, snap.active, t) <==> w < CommitSnapshot(snap, t).smallestActive
  {
    var rest := snap.active - {t};
    assert forall u :: u in rest <==> u in snap.active && u != t;
    assert rest == {} <==> forall u :: u in snap.active ==> u == t;
  }

  /** Vacuum invents no version, and a row none of whose versions is left is gone. */
  lemma NothingInvented(db: Db, t: TransactionId, r: RowId, v: Version)
    ensures v in ChainOf(Apply(Apply(db, Commit(t)), Prune), r) ==> v in ChainOf(db, r)
    ensures (forall x :: x in ChainOf(db, r) ==> x.header.deletedBy.Some? && BelowAll(x.header.deletedBy.value, db.snap.active, t)) ==>
      r !in Apply(Apply(db, Commit(t)), Prune).rows
  {
    var after := Apply(Apply(db, Commit(t)), Prune);
    if r in db.rows {
      PruneKeepsIff(db.rows[r], CommitSnapshot(db.snap, t).smallestActive, v);
      if r in after.rows {
        var x := after.rows[r][0];
        PruneKeepsIff(db.rows[r], CommitSnapshot(db.snap, t).smallestActive, x);
        ReclaimedIff(db, t, r, x);
      }
    }
  }
}
