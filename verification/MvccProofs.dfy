/** Every legal step keeps the relation between the engine and the simple store. */
module MvccProofs {
  import opened Prelude
  import opened Values
  import opened Transactions
  import opened Rows
  import opened MvccStore

  // ---- Visibility in a related state --------------------------------------------------------------

  /** A reader sees its own current version and the committed versions it has not deleted. */
  lemma VisibleExactly(h: Header, snap: Snapshot, sp: Spec, r: RowId, t: TransactionId)
    requires SnapRel(snap, sp) && Classified(h, sp, r) && Reader(sp, t)
    ensures IsVisible(h, t, snap) <==>
      ((t in sp.pending && Fresh(h, t)) || (Current(h, sp) && h.deletedBy != Some(t)))
  {
  }

  lemma ReadRow(c: Chain, snap: Snapshot, sp: Spec, r: RowId, t: TransactionId)
    requires SnapRel(snap, sp) && RowRel(c, sp, r) && Reader(sp, t)
    requires forall u :: u in sp.pending && r in sp.pending[u] ==> SoleWriter(sp, u, r)
    ensures ReadChain(c, t, snap) == SpecRead(sp, t, r)
  {
    var i := VisibleIndex(c, t, snap);
    forall j | 0 <= j < |c|
      ensures IsVisible(c[j].header, t, snap) <==>
        ((t in sp.pending && Fresh(c[j].header, t)) || (Current(c[j].header, sp) && c[j].header.deletedBy != Some(t)))
    {
      VisibleExactly(c[j].header, snap, sp, r, t);
    }
    if t in sp.pending && r in sp.pending[t] {
      assert WriteShown(c, sp, r, t);
      forall j | 0 <= j < |c| && IsVisible(c[j].header, t, snap)
        ensures Fresh(c[j].header, t)
      {
        assert Classified(c[j].header, sp, r);
      }
    } else {
      forall j | 0 <= j < |c| && Current(c[j].header, sp)
        ensures IsVisible(c[j].header, t, snap)
      {
        assert Classified(c[j].header, sp, r);
      }
      forall j | 0 <= j < |c| && IsVisible(c[j].header, t, snap)
        ensures Current(c[j].header, sp)
      {
        assert Classified(c[j].header, sp, r);
      }
    }
  }

  /** Reading the version chains is reading the simple store. */
  lemma ReadsAgree(db: Db, sp: Spec, t: TransactionId, r: RowId)
    requires Rel(db, sp) && Reader(sp, t)
    ensures Read(db, t, r) == SpecRead(sp, t, r)
  {
    assert RowRel(ChainOf(db, r), sp, r);
    ReadRow(ChainOf(db, r), db.snap, sp, r, t);
  }

  /** A transaction sees at most one version of a row. */
  lemma AtMostOneVisible(db: Db, sp: Spec, t: TransactionId, r: RowId, i: nat, j: nat)
    requires Rel(db, sp) && Reader(sp, t)
    requires i < j < |ChainOf(db, r)|
    ensures !(IsVisible(ChainOf(db, r)[i].header, t, db.snap) && IsVisible(ChainOf(db, r)[j].header, t, db.snap))
  {
    var c := ChainOf(db, r);
    assert RowRel(c, sp, r);
    VisibleExactly(c[i].header, db.snap, sp, r, t);
    VisibleExactly(c[j].header, db.snap, sp, r, t);
    assert Ordered(c[i].header, c[j].header, sp);
  }

  // ---- The steps, row by row ----------------------------------------------------------------------

  /** The writer stamps exactly its own current version or the live one, and keeps who is current. */
  lemma MarkedVersion(c: Chain, snap: Snapshot, sp: Spec, r: RowId, t: TransactionId, v: Option<RowData>, i: nat)
    requires SnapRel(snap, sp) && ChainOk(c, sp, r) && t in sp.pending && SoleWriter(sp, t, r) && i < |c|
    ensures var h, sp' := MarkDeleted(c, t, snap)[i].header, Write(sp, t, r, v);
      && h.createdBy == c[i].header.createdBy
      && (c[i].header.deletedBy.Some? ==> h == c[i].header)
      && Classified(h, sp', r) && !Fresh(h, t)
      && Current(h, sp') == Current(c[i].header, sp)
  {
    var k := VisibleIndex(c, t, snap);
    VisibleExactly(c[i].header, snap, sp, r, t);
    if 0 <= k && k != i {
      VisibleExactly(c[k].header, snap, sp, r, t);
      if i < k { assert Ordered(c[i].header, c[k].header, sp); } else { assert Ordered(c[k].header, c[i].header, sp); }
    }
    assert Classified(c[i].header, sp, r);
    assert Write(sp, t, r, v).pending.Keys == sp.pending.Keys;
  }

  /** The chain after a write by its sole writer, before any new version is pushed. */
  lemma MarkedChain(c: Chain, snap: Snapshot, sp: Spec, r: RowId, t: TransactionId, v: Option<RowData>)
    requires SnapRel(snap, sp) && RowRel(c, sp, r) && t in sp.pending && SoleWriter(sp, t, r)
    ensures var m, sp' := MarkDeleted(c, t, snap), Write(sp, t, r, v);
      && ChainOk(m, sp', r) && BaseShown(m, sp', r)
      && forall i :: 0 <= i < |m| ==> !Fresh(m[i].header, t)
  {
    var m, sp' := MarkDeleted(c, t, snap), Write(sp, t, r, v);
    assert sp'.pending.Keys == sp.pending.Keys;
    forall i | 0 <= i < |c|
      ensures Classified(m[i].header, sp', r) && !Fresh(m[i].header, t)
      ensures Current(m[i].header, sp') == Current(c[i].header, sp)
    {
      MarkedVersion(c, snap, sp, r, t, v, i);
    }
    forall i, j | 0 <= i < j < |m|
      ensures Ordered(m[i].header, m[j].header, sp')
    {
      MarkedVersion(c, snap, sp, r, t, v, i);
      MarkedVersion(c, snap, sp, r, t, v, j);
      assert Ordered(c[i].header, c[j].header, sp);
    }
    if r in sp.base {
      var i :| 0 <= i < |c| && Current(c[i].header, sp);
      assert Current(m[i].header, sp');
    }
  }

  /** A write to row `r` leaves every other row's relation alone. */
  lemma WriteFrame(c: Chain, sp: Spec, t: TransactionId, r: RowId, v: Option<RowData>, other: RowId, sp': Spec)
    requires t in sp.pending && other != r && RowRel(c, sp, other)
    requires sp'.pending == Write(sp, t, r, v).pending
    requires sp'.base == sp.base && sp'.maxWriter == sp.maxWriter && sp'.next == sp.next
    ensures RowRel(c, sp', other)
  {
    assert sp'.pending.Keys == sp.pending.Keys;
    assert forall w :: w in sp.pending ==> (other in sp'.pending[w] <==> other in sp.pending[w]);
    assert forall h: Header :: Current(h, sp') == Current(h, sp) && Dead(h, sp') == Dead(h, sp);
    forall i | 0 <= i < |c|
      ensures Classified(c[i].header, sp', other)
    {
      assert Classified(c[i].header, sp, other);
    }
    forall i, j | 0 <= i < j < |c|
      ensures Ordered(c[i].header, c[j].header, sp')
    {
      assert Ordered(c[i].header, c[j].header, sp);
    }
    forall w | w in sp'.pending && other in sp'.pending[w]
      ensures WriteShown(c, sp', other, w)
    {
      assert WriteShown(c, sp, other, w);
    }
  }

  /** The writer's chain after pushing a new version. */
  lemma PushedChain(m: Chain, sp: Spec, r: RowId, t: TransactionId, d: RowData)
    requires t in sp.pending && SoleWriter(sp, t, r) && r in sp.pending[t] && sp.pending[t][r] == Some(d)
    requires ChainOk(m, sp, r) && BaseShown(m, sp, r) && sp.maxWriter < sp.next
    requires forall i :: 0 <= i < |m| ==> !Fresh(m[i].header, t)
    ensures RowRel(m + [NewVersion(t, d)], sp, r)
  {
    var c := m + [NewVersion(t, d)];
    assert Fresh(c[|m|].header, t);
    forall i | 0 <= i < |c|
      ensures Classified(c[i].header, sp, r)
    {
      if i < |m| { assert Classified(m[i].header, sp, r); }
    }
    forall i, j | 0 <= i < j < |c|
      ensures Ordered(c[i].header, c[j].header, sp)
    {
      assert Classified(m[i].header, sp, r);
      if j < |m| { assert Ordered(m[i].header, m[j].header, sp); }
    }
    if r in sp.base {
      var i :| 0 <= i < |m| && Current(m[i].header, sp);
      assert Current(c[i].header, sp);
    }
    assert WriteShown(c, sp, r, t);
  }

  /** Replacing one row's chain by one that fits the new spec keeps the relation. */
  lemma WriteRel(db: Db, sp: Spec, t: TransactionId, r: RowId, v: Option<RowData>, c: Chain, last: RowId)
    requires Rel(db, sp) && t in sp.pending && SoleWriter(sp, t, r) && r <= last && sp.lastRow <= last
    requires RowRel(c, Write(sp, t, r, v), r)
    ensures Rel(db.(rows := db.rows[r := c], lastRow := last), Write(sp, t, r, v).(lastRow := last))
  {
    var db', sp' := db.(rows := db.rows[r := c], lastRow := last), Write(sp, t, r, v).(lastRow := last);
    assert sp'.pending.Keys == sp.pending.Keys;
    SameButCounters(c, Write(sp, t, r, v), sp', r);
    forall x: RowId
      ensures RowRel(ChainOf(db', x), sp', x)
    {
      if x != r {
        assert ChainOf(db', x) == ChainOf(db, x) && RowRel(ChainOf(db, x), sp, x);
        WriteFrame(ChainOf(db, x), sp, t, r, v, x, sp');
      }
    }
    forall u, x | u in sp'.pending && x in sp'.pending[u]
      ensures x <= sp'.lastRow && SoleWriter(sp', u, x)
    {
      if x != r { assert x in sp.pending[u] && SoleWriter(sp, u, x); }
    }
  }

  lemma StepInsert(db: Db, sp: Spec, t: TransactionId, r: RowId, d: RowData)
    requires Rel(db, sp) && Legal(sp, Insert(t, r, d))
    ensures Rel(Apply(db, Insert(t, r, d)), SpecApply(sp, Insert(t, r, d), true))
  {
    assert forall u :: u in sp.pending ==> r !in sp.pending[u];
    assert ChainOf(db, r) == [] && RowRel([], sp, r);
    MarkedChain([], db.snap, sp, r, t, Some(d));
    PushedChain([], Write(sp, t, r, Some(d)), r, t, d);
    assert [] + [NewVersion(t, d)] == [NewVersion(t, d)];
    WriteRel(db, sp, t, r, Some(d), [NewVersion(t, d)], r);
  }

  lemma StepUpdate(db: Db, sp: Spec, t: TransactionId, r: RowId, d: RowData)
    requires Rel(db, sp) && Legal(sp, Update(t, r, d)) && r in db.rows
    ensures Rel(Apply(db, Update(t, r, d)), SpecApply(sp, Update(t, r, d), true))
  {
    var c := db.rows[r];
    assert c == ChainOf(db, r) && RowRel(c, sp, r);
    MarkedChain(c, db.snap, sp, r, t, Some(d));
    var m := MarkDeleted(c, t, db.snap);
    PushedChain(m, Write(sp, t, r, Some(d)), r, t, d);
    WriteRel(db, sp, t, r, Some(d), m + [NewVersion(t, d)], sp.lastRow);
  }

  lemma StepDelete(db: Db, sp: Spec, t: TransactionId, r: RowId)
    requires Rel(db, sp) && Legal(sp, Delete(t, r))
    ensures Rel(Apply(db, Delete(t, r)), SpecApply(sp, Delete(t, r), true))
  {
    var c := ChainOf(db, r);
    assert RowRel(c, sp, r);
    ReadsAgree(db, sp, t, r);
    if SpecRead(sp, t, r).Some? {
      MarkedChain(c, db.snap, sp, r, t, None);
      var m := MarkDeleted(c, t, db.snap);
      assert WriteShown(m, Write(sp, t, r, None), r, t);
      WriteRel(db, sp, t, r, None, m, sp.lastRow);
    } else {
      assert r in db.rows ==> db.rows[r := c] == db.rows;
    }
  }

  lemma SameButCounters(c: Chain, sp: Spec, sp': Spec, r: RowId)
    requires RowRel(c, sp, r) && sp' == sp.(lastRow := sp'.lastRow)
    ensures RowRel(c, sp', r)
  {
    assert forall h: Header :: Current(h, sp') == Current(h, sp);
    forall i | 0 <= i < |c| ensures Classified(c[i].header, sp', r) { assert Classified(c[i].header, sp, r); }
    forall i, j | 0 <= i < j < |c| ensures Ordered(c[i].header, c[j].header, sp') { assert Ordered(c[i].header, c[j].header, sp); }
    forall w | w in sp'.pending && r in sp'.pending[w] ensures WriteShown(c, sp', r, w) { assert WriteShown(c, sp, r, w); }
  }

  lemma BeginRow(c: Chain, sp: Spec, r: RowId)
    requires RowRel(c, sp, r) && sp.maxWriter < sp.next && forall u :: u in sp.pending ==> u < sp.next
    ensures RowRel(c, SpecApply(sp, Begin, true), r)
  {
    var sp' := SpecApply(sp, Begin, true);
    forall i | 0 <= i < |c|
      ensures Classified(c[i].header, sp', r) && Current(c[i].header, sp') == Current(c[i].header, sp)
      ensures c[i].header.createdBy < sp.next
    {
      assert Classified(c[i].header, sp, r);
    }
    forall i, j | 0 <= i < j < |c| ensures Ordered(c[i].header, c[j].header, sp') { assert Ordered(c[i].header, c[j].header, sp); }
    forall w | w in sp'.pending && r in sp'.pending[w] ensures WriteShown(c, sp', r, w) { assert WriteShown(c, sp, r, w); }
  }

  lemma StepBegin(db: Db, sp: Spec)
    requires Rel(db, sp)
    ensures Rel(Apply(db, Begin), SpecApply(sp, Begin, true))
  {
    var db', sp' := Apply(db, Begin), SpecApply(sp, Begin, true);
    forall r: RowId ensures RowRel(ChainOf(db', r), sp', r) {
      assert ChainOf(db', r) == ChainOf(db, r) && RowRel(ChainOf(db, r), sp, r);
      BeginRow(ChainOf(db, r), sp, r);
    }
  }

  lemma StepCommit(db: Db, sp: Spec, t: TransactionId)
    requires Rel(db, sp) && Legal(sp, Commit(t))
    ensures Rel(Apply(db, Commit(t)), SpecApply(sp, Commit(t), true))
  {
    var db', sp' := Apply(db, Commit(t)), SpecApply(sp, Commit(t), true);
    forall r: RowId
      ensures RowRel(ChainOf(db', r), sp', r)
    {
      assert RowRel(ChainOf(db, r), sp, r);
      CommitRow(ChainOf(db, r), sp, r, t);
    }
  }

  lemma CommitRow(c: Chain, sp: Spec, r: RowId, t: TransactionId)
    requires RowRel(c, sp, r) && Legal(sp, Commit(t)) && t < sp.next
    requires forall u :: u in sp.pending && r in sp.pending[u] ==> SoleWriter(sp, u, r)
    ensures RowRel(c, SpecApply(sp, Commit(t), true), r)
  {
    var sp' := SpecApply(sp, Commit(t), true);
    var mine := r in sp.pending[t];
    assert mine ==> WriteShown(c, sp, r, t);
    forall i | 0 <= i < |c|
      ensures Classified(c[i].header, sp', r)
      ensures Current(c[i].header, sp') == if mine then Fresh(c[i].header, t) else Current(c[i].header, sp)
    {
      assert Classified(c[i].header, sp, r);
    }
    forall i, j | 0 <= i < j < |c|
      ensures Ordered(c[i].header, c[j].header, sp')
    {
      assert Ordered(c[i].header, c[j].header, sp);
      assert Classified(c[i].header, sp, r) && Classified(c[j].header, sp, r);
    }
    if r in sp'.base {
      if mine {
        var i :| 0 <= i < |c| && Fresh(c[i].header, t);
        assert Current(c[i].header, sp');
      } else {
        var i :| 0 <= i < |c| && Current(c[i].header, sp);
        assert Current(c[i].header, sp');
      }
    }
    forall w | w in sp'.pending && r in sp'.pending[w] ensures WriteShown(c, sp', r, w) { assert WriteShown(c, sp, r, w); }
  }

  lemma StepRollback(db: Db, sp: Spec, t: TransactionId)
    requires Rel(db, sp) && Legal(sp, Rollback(t))
    ensures Rel(Apply(db, Rollback(t)), SpecApply(sp, Rollback(t), true))
  {
    var db', sp' := Apply(db, Rollback(t)), SpecApply(sp, Rollback(t), true);
    forall r: RowId
      ensures RowRel(ChainOf(db', r), sp', r)
    {
      assert RowRel(ChainOf(db, r), sp, r);
      assert ChainOf(db', r) == RollbackChain(ChainOf(db, r), t);
      RollbackRow(ChainOf(db, r), sp, r, t);
    }
  }

  /** Rolling back `t` keeps the committed version committed and buries what `t` created. */
  lemma RollbackHeader(v: Version, sp: Spec, r: RowId, t: TransactionId)
    requires Classified(v.header, sp, r) && t in sp.pending && t < sp.next
    requires forall u :: u in sp.pending && r in sp.pending[u] ==> SoleWriter(sp, u, r)
    ensures var h, sp' := RollbackVersion(v, t).header, SpecApply(sp, Rollback(t), true);
      && Classified(h, sp', r)
      && h.createdBy == v.header.createdBy
      && Current(h, sp') == Current(v.header, sp)
      && (h.createdBy == t ==> h.deletedBy == Some(t))
      && (h.createdBy != t && h.deletedBy.None? && !Current(h, sp') ==> v.header.deletedBy.None?)
      && (forall w :: w in sp'.pending ==> Fresh(h, w) == Fresh(v.header, w))
  {
    var h, sp' := RollbackVersion(v, t).header, SpecApply(sp, Rollback(t), true);
    if !Dead(v.header, sp) && !Live(v.header, sp) {
      var w :| w in sp.pending && r in sp.pending[w]
               && (Leaving(v.header, sp, w) || Fresh(v.header, w) || Replaced(v.header, w));
      if w == t {
        assert SoleWriter(sp, t, r);
        assert Dead(h, sp') || Live(h, sp');
      } else {
        assert h == v.header && w in sp'.pending && r in sp'.pending[w];
      }
    }
  }

  lemma RollbackRow(c: Chain, sp: Spec, r: RowId, t: TransactionId)
    requires RowRel(c, sp, r) && t in sp.pending && t < sp.next
    requires forall u :: u in sp.pending && r in sp.pending[u] ==> SoleWriter(sp, u, r)
    ensures RowRel(RollbackChain(c, t), SpecApply(sp, Rollback(t), true), r)
  {
    var sp' := SpecApply(sp, Rollback(t), true);
    var c' := RollbackChain(c, t);
    forall i | 0 <= i < |c| ensures Classified(c'[i].header, sp', r) { RollbackHeader(c[i], sp, r, t); }
    forall i, j | 0 <= i < j < |c'| ensures Ordered(c'[i].header, c'[j].header, sp') {
      RollbackOrdered(c[i], c[j], sp, r, t);
    }
    RollbackBase(c, sp, r, t);
    forall w | w in sp'.pending && r in sp'.pending[w] ensures WriteShown(c', sp', r, w) {
      RollbackWrites(c, sp, r, t, w);
    }
  }

  lemma RollbackOrdered(v: Version, later: Version, sp: Spec, r: RowId, t: TransactionId)
    requires Classified(v.header, sp, r) && Classified(later.header, sp, r) && t in sp.pending && t < sp.next
    requires forall u :: u in sp.pending && r in sp.pending[u] ==> SoleWriter(sp, u, r)
    requires Ordered(v.header, later.header, sp)
    ensures Ordered(RollbackVersion(v, t).header, RollbackVersion(later, t).header, SpecApply(sp, Rollback(t), true))
  {
    RollbackHeader(v, sp, r, t);
    RollbackHeader(later, sp, r, t);
  }

  lemma RollbackBase(c: Chain, sp: Spec, r: RowId, t: TransactionId)
    requires ChainOk(c, sp, r) && BaseShown(c, sp, r) && t in sp.pending && t < sp.next
    requires forall u :: u in sp.pending && r in sp.pending[u] ==> SoleWriter(sp, u, r)
    ensures BaseShown(RollbackChain(c, t), SpecApply(sp, Rollback(t), true), r)
  {
    var sp' := SpecApply(sp, Rollback(t), true);
    var c' := RollbackChain(c, t);
    forall i | 0 <= i < |c| ensures Current(c'[i].header, sp') == Current(c[i].header, sp) {
      RollbackHeader(c[i], sp, r, t);
    }
    if r in sp.base {
      var i :| 0 <= i < |c| && Current(c[i].header, sp);
      assert Current(c'[i].header, sp');
    }
  }

  lemma RollbackWrites(c: Chain, sp: Spec, r: RowId, t: TransactionId, w: TransactionId)
    requires ChainOk(c, sp, r) && t in sp.pending && t < sp.next
    requires forall u :: u in sp.pending && r in sp.pending[u] ==> SoleWriter(sp, u, r)
    requires w in sp.pending && w != t && r in sp.pending[w] && WriteShown(c, sp, r, w)
    ensures WriteShown(RollbackChain(c, t), SpecApply(sp, Rollback(t), true), r, w)
  {
    var c' := RollbackChain(c, t);
    forall i | 0 <= i < |c| ensures Fresh(c'[i].header, w) == Fresh(c[i].header, w) {
      RollbackHeader(c[i], sp, r, t);
    }
    if sp.pending[w][r].Some? {
      var i :| 0 <= i < |c| && Fresh(c[i].header, w);
      assert Fresh(c'[i].header, w);
    }
  }

  /** Vacuum drops only dead versions. */
  lemma NotDeadIsKept(v: Version, snap: Snapshot, sp: Spec, r: RowId)
    requires SnapRel(snap, sp) && Classified(v.header, sp, r) && !Dead(v.header, sp)
    ensures Kept(v, snap.smallestActive)
  {
  }

  lemma StepPrune(db: Db, sp: Spec)
    requires Rel(db, sp)
    ensures Rel(Apply(db, Prune), sp)
  {
    var db' := Apply(db, Prune);
    forall r: RowId
      ensures RowRel(ChainOf(db', r), sp, r)
    {
      assert RowRel(ChainOf(db, r), sp, r);
      assert ChainOf(db', r) == PruneChain(ChainOf(db, r), db.snap.smallestActive);
      PruneRow(ChainOf(db, r), db.snap, sp, r);
    }
  }

  /** A version that is not dead survives vacuum. */
  lemma Survives(c: Chain, snap: Snapshot, sp: Spec, r: RowId, i: nat) returns (k: nat)
    requires SnapRel(snap, sp) && i < |c| && Classified(c[i].header, sp, r) && !Dead(c[i].header, sp)
    ensures k < |PruneChain(c, snap.smallestActive)| && PruneChain(c, snap.smallestActive)[k] == c[i]
  {
    NotDeadIsKept(c[i], snap, sp, r);
    k := KeptSurvivesPrune(c, snap.smallestActive, i);
  }

  lemma PruneRow(c: Chain, snap: Snapshot, sp: Spec, r: RowId)
    requires RowRel(c, sp, r) && SnapRel(snap, sp)
    ensures RowRel(PruneChain(c, snap.smallestActive), sp, r)
  {
    var p := PruneChain(c, snap.smallestActive);
    assert ChainOk(p, sp, r) && forall k :: 0 <= k < |p| ==> p[k] in c by {
      var at := PruneChainIsSubsequence(c, snap.smallestActive);
      forall i, j | 0 <= i < j < |p| ensures Ordered(p[i].header, p[j].header, sp) {
        assert Ordered(c[at[i]].header, c[at[j]].header, sp);
      }
    }
    assert BaseShown(p, sp, r) by {
      if r in sp.base {
        var i :| 0 <= i < |c| && Current(c[i].header, sp);
        var k := Survives(c, snap, sp, r, i);
        assert Current(p[k].header, sp);
      }
    }
    forall w | w in sp.pending && r in sp.pending[w]
      ensures WriteShown(p, sp, r, w)
    {
      assert WriteShown(c, sp, r, w);
      if sp.pending[w][r].Some? {
        var i :| 0 <= i < |c| && Fresh(c[i].header, w);
        var k := Survives(c, snap, sp, r, i);
        assert Fresh(p[k].header, w);
      }
    }
  }

  /** One legal operation keeps the relation. */
  lemma Step(db: Db, sp: Spec, op: Op)
    requires Rel(db, sp) && Legal(sp, op)
    ensures Rel(Apply(db, op), SpecApply(sp, op, op.Update? && op.row in db.rows))
  {
    match op
    case Begin => StepBegin(db, sp);
    case Insert(t, r, d) => StepInsert(db, sp, t, r, d);
    case Update(t, r, d) => if r in db.rows { StepUpdate(db, sp, t, r, d); }
    case Delete(t, r) => StepDelete(db, sp, t, r);
    case Commit(t) => StepCommit(db, sp, t);
    case Rollback(t) => StepRollback(db, sp, t);
    case Prune => StepPrune(db, sp);
    case Restart =>
      forall r: RowId ensures RowRel(ChainOf(Apply(db, op), r), sp, r) { assert RowRel(ChainOf(db, r), sp, r); }
  }
}
