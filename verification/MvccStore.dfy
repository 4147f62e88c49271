/**
 * The database as a state machine over interleaved transactions, the simple store it stands for,
 * and the relation between the two that every legal step keeps.
 */
module MvccStore {
  import opened Prelude
  import opened Values
  import opened Transactions
  import opened Rows

  /** Version chains, the shared snapshot and the two id counters. */
  datatype Db = Db(rows: map<RowId, Chain>, snap: Snapshot, next: TransactionId, lastRow: RowId)

  /** One public operation. `Prune` is vacuum's version pruning, `Restart` a save and reload. */
  datatype Op =
    | Begin
    | Insert(txn: TransactionId, row: RowId, data: RowData)
    | Update(txn: TransactionId, row: RowId, data: RowData)
    | Delete(txn: TransactionId, row: RowId)
    | Commit(txn: TransactionId)
    | Rollback(txn: TransactionId)
    | Prune
    | Restart

  const Init: Db := Db(map[], Snapshot(0, 0, {}), 1, 0)

  // ---- What the engine does -------------------------------------------------------------------

  /** Commit moves both watermarks; it assigns `lastPossible` rather than taking a maximum. */
  ghost function CommitSnapshot(s: Snapshot, t: TransactionId): Snapshot {
    var active := s.active - {t};
    Snapshot(if active == {} then t else MinOf(active), t, active)
  }

  ghost function RollbackSnapshot(s: Snapshot, t: TransactionId): Snapshot {
    var active := s.active - {t};
    Snapshot(if active == {} then s.lastPossible else MinOf(active), s.lastPossible, active)
  }

  ghost function RollbackRows(rows: map<RowId, Chain>, t: TransactionId): map<RowId, Chain> {
    map r | r in rows :: RollbackChain(rows[r], t)
  }

  /** Rows whose chain becomes empty disappear. */
  ghost function PruneRows(rows: map<RowId, Chain>, oldest: TransactionId): map<RowId, Chain> {
    map r | r in rows && PruneChain(rows[r], oldest) != [] :: PruneChain(rows[r], oldest)
  }

  /** Reload treats every id handed out so far as committed. */
  ghost function RestartSnapshot(next: TransactionId): Snapshot {
    var last := if next == 0 then 0 else next - 1;
    Snapshot(last, last, {})
  }

  ghost function Apply(db: Db, op: Op): Db {
    match op
    case Begin =>
      db.(snap := db.snap.(active := db.snap.active + {db.next}), next := db.next + 1)
    case Insert(t, r, d) =>
      db.(rows := db.rows[r := [NewVersion(t, d)]], lastRow := r)
    case Update(t, r, d) =>
      if r in db.rows
      then db.(rows := db.rows[r := MarkDeleted(db.rows[r], t, db.snap) + [NewVersion(t, d)]])
      else db
    case Delete(t, r) =>
      if r in db.rows then db.(rows := db.rows[r := MarkDeleted(db.rows[r], t, db.snap)]) else db
    case Commit(t) =>
      db.(snap := CommitSnapshot(db.snap, t))
    case Rollback(t) =>
      db.(rows := RollbackRows(db.rows, t), snap := RollbackSnapshot(db.snap, t))
    case Prune =>
      db.(rows := PruneRows(db.rows, db.snap.smallestActive))
    case Restart =>
      db.(snap := RestartSnapshot(db.next))
  }

  function ChainOf(db: Db, r: RowId): Chain {
    if r in db.rows then db.rows[r] else []
  }

  /** What transaction `t` reads at row `r`. */
  function Read(db: Db, t: TransactionId, r: RowId): Option<RowData> {
    ReadChain(ChainOf(db, r), t, db.snap)
  }

  // ---- What it stands for -----------------------------------------------------------------------

  type Writes = map<RowId, Option<RowData>>

  /**
   * One committed table, plus each active transaction's own unfinished writes.
   * `maxWriter` is the greatest id of a committed transaction that wrote something.
   */
  datatype Spec = Spec(
    base: map<RowId, RowData>,
    pending: map<TransactionId, Writes>,
    maxWriter: TransactionId,
    next: TransactionId,
    lastRow: RowId)

  const SpecInit: Spec := Spec(map[], map[], 0, 1, 0)

  /** Own latest write, or else the latest committed value. */
  function SpecRead(sp: Spec, t: TransactionId, r: RowId): Option<RowData> {
    if t in sp.pending && r in sp.pending[t] then sp.pending[t][r] else Get(sp.base, r)
  }

  function Overlay(base: map<RowId, RowData>, w: Writes): map<RowId, RowData> {
    map r | r in base.Keys + w.Keys && (r in w ==> w[r].Some?) ::
      if r in w then w[r].value else base[r]
  }

  function Write(sp: Spec, t: TransactionId, r: RowId, v: Option<RowData>): Spec
    requires t in sp.pending
  {
    var own: Writes := sp.pending[t];
    var written: Writes := own[r := v];
    sp.(pending := sp.pending[t := written])
  }

  /** The id named by an operation must belong to an active transaction. */
  predicate Acts(sp: Spec, op: Op) {
    match op
    case Insert(t, _, _) => t in sp.pending
    case Update(t, _, _) => t in sp.pending
    case Delete(t, _) => t in sp.pending
    case Commit(t) => t in sp.pending
    case Rollback(t) => t in sp.pending
    case _ => true
  }

  /** `present` says whether the engine still stores the row an update names. */
  function SpecApply(sp: Spec, op: Op, present: bool): Spec
    requires Acts(sp, op)
  {
    match op
    case Begin => sp.(pending := sp.pending[sp.next := map[]], next := sp.next + 1)
    case Insert(t, r, d) => Write(sp, t, r, Some(d)).(lastRow := r)
    case Update(t, r, d) => if present then Write(sp, t, r, Some(d)) else sp
    case Delete(t, r) => if SpecRead(sp, t, r).Some? then Write(sp, t, r, None) else sp
    case Commit(t) =>
      sp.(base := Overlay(sp.base, sp.pending[t]),
          pending := sp.pending - {t},
          maxWriter := if sp.pending[t] == map[] then sp.maxWriter else t)
    case Rollback(t) => sp.(pending := sp.pending - {t})
    case Prune => sp
    case Restart => sp
  }

  /** No other active transaction has written row `r`. */
  predicate SoleWriter(sp: Spec, t: TransactionId, r: RowId) {
    forall u :: u in sp.pending && u != t ==> r !in sp.pending[u]
  }

  /**
   * The run conditions: operations act for active transactions, inserted row ids are new, no two
   * active transactions write one row, each commit id exceeds every committed writer's id, and a
   * restart happens when nothing is active.
   */
  predicate Legal(sp: Spec, op: Op) {
    && Acts(sp, op)
    && match op
       case Insert(t, r, d) => r > sp.lastRow
       case Update(t, r, d) => SoleWriter(sp, t, r)
       case Delete(t, r) => SpecRead(sp, t, r).Some? ==> SoleWriter(sp, t, r)
       case Commit(t) => t > sp.maxWriter
       case Restart => sp.pending == map[]
       case _ => true
  }

  // ---- How they relate ----------------------------------------------------------------------------

  /** Never visible again: rolled back by its creator, or deleted by a committed transaction. */
  predicate Dead(h: Header, sp: Spec) {
    && h.deletedBy.Some?
    && h.createdBy !in sp.pending && h.createdBy < sp.next
    && h.deletedBy.value !in sp.pending && h.deletedBy.value < sp.next
    && (h.deletedBy.value == h.createdBy || h.deletedBy.value <= sp.maxWriter)
  }

  /** Created by a committed transaction. */
  predicate Committed(h: Header, sp: Spec) {
    h.createdBy !in sp.pending && h.createdBy <= sp.maxWriter
  }

  predicate Live(h: Header, sp: Spec) {
    Committed(h, sp) && h.deletedBy.None?
  }

  /** Committed, and being deleted by the active transaction `w`. */
  predicate Leaving(h: Header, sp: Spec, w: TransactionId) {
    Committed(h, sp) && h.deletedBy == Some(w) && w in sp.pending
  }

  /** The current version of the active writer `w`. */
  predicate Fresh(h: Header, w: TransactionId) {
    h.createdBy == w && h.deletedBy.None?
  }

  /** An earlier version of the active writer `w`, replaced by itself. */
  predicate Replaced(h: Header, w: TransactionId) {
    h.createdBy == w && h.deletedBy == Some(w)
  }

  predicate Current(h: Header, sp: Spec) {
    Live(h, sp) || (h.deletedBy.Some? && Leaving(h, sp, h.deletedBy.value))
  }

  /** A version of row `r` is in one of five states; only the writer of `r` may be unfinished. */
  predicate Classified(h: Header, sp: Spec, r: RowId) {
    || Dead(h, sp)
    || (Live(h, sp) && forall w :: w in sp.pending ==> r !in sp.pending[w])
    || (exists w :: w in sp.pending && r in sp.pending[w] && (Leaving(h, sp, w) || Fresh(h, w) || Replaced(h, w)))
  }

  /** Along a chain: a writer's current version is last, and only self-deleted or unfinished
      versions follow the committed one. */
  predicate Ordered(h: Header, later: Header, sp: Spec) {
    && (h.deletedBy.None? ==> h.createdBy !in sp.pending)
    && (Current(h, sp) ==> !Current(later, sp))
    && (Current(h, sp) && later.createdBy !in sp.pending ==> later.deletedBy == Some(later.createdBy))
  }

  predicate ChainOk(c: Chain, sp: Spec, r: RowId) {
    && (forall i :: 0 <= i < |c| ==> Classified(c[i].header, sp, r))
    && (forall i, j :: 0 <= i < j < |c| ==> Ordered(c[i].header, c[j].header, sp))
  }

  /** The committed version of the chain carries the committed value, if there is one. */
  predicate BaseShown(c: Chain, sp: Spec, r: RowId) {
    && (forall i :: 0 <= i < |c| && Current(c[i].header, sp) ==> Get(sp.base, r) == Some(c[i].data))
    && (r in sp.base ==> exists i :: 0 <= i < |c| && Current(c[i].header, sp))
  }

  /** The current version of writer `w`, if any, carries its latest write. */
  predicate WriteShown(c: Chain, sp: Spec, r: RowId, w: TransactionId)
    requires w in sp.pending && r in sp.pending[w]
  {
    && (forall i :: 0 <= i < |c| && Fresh(c[i].header, w) ==> sp.pending[w][r] == Some(c[i].data))
    && (sp.pending[w][r].Some? ==> exists i :: 0 <= i < |c| && Fresh(c[i].header, w))
  }

  predicate RowRel(c: Chain, sp: Spec, r: RowId) {
    && ChainOk(c, sp, r)
    && BaseShown(c, sp, r)
    && forall w :: w in sp.pending && r in sp.pending[w] ==> WriteShown(c, sp, r, w)
  }

  /** The watermarks: `smallestActive` is below every active id, `lastPossible` above every writer. */
  predicate SnapRel(s: Snapshot, sp: Spec) {
    && s.active == sp.pending.Keys
    && (forall t :: t in s.active ==> s.smallestActive <= t < sp.next)
    && s.smallestActive < sp.next
    && sp.maxWriter <= s.lastPossible < sp.next
  }

  ghost predicate Rel(db: Db, sp: Spec) {
    && db.next == sp.next >= 1 && db.lastRow == sp.lastRow
    && SnapRel(db.snap, sp)
    && (forall r :: r in db.rows ==> r <= sp.lastRow)
    && (forall t, r :: t in sp.pending && r in sp.pending[t] ==> r <= sp.lastRow && SoleWriter(sp, t, r))
    && forall r: RowId :: RowRel(ChainOf(db, r), sp, r)
  }

  /** Transactions that may read: the active ones, and any transaction started later. */
  predicate Reader(sp: Spec, t: TransactionId) {
    t in sp.pending || t >= sp.next
  }
}
