/** Whole runs of a table's page cache against the plain map of rows. */
module CacheRuns {
  import opened Prelude
  import opened Values
  import opened Transactions
  import opened Rows
  import opened Pages
  import opened Compaction
  import opened MvccStore
  import opened PageCache
  import opened TableMaintenance

  /** Steps of a table. `Restart` saves everything and starts a new process on the same file. */
  datatype CacheOp =
    | Touch(page: PageId)
    | Evict(page: PageId)
    | Load(page: PageId)
    | Register
    | Reserve(page: PageId)
    | Link(page: PageId, next: PageId)
    | Place(page: PageId, row: RowId, chain: Chain, size: nat)
    | Rewrite(row: RowId, chain: Chain)
    | Save(page: PageId)
    | Flush
    | Restart
    | Rollback(txn: TransactionId)
    | Vacuum(oldest: TransactionId)

  /** A resident page written to the file and kept. */
  function Saved(c: Cache, p: PageId): Cache
    requires p in c.rowSpace
  {
    c.(disk := c.disk[p := c.rowSpace[p]], onDisk := c.onDisk + {p}, diskLocations := c.locations)
  }

  lemma SaveKeeps(c: Cache, p: PageId)
    requires CacheOk(c) && p in c.rowSpace
    ensures CacheOk(Saved(c, p)) && View(Saved(c, p)) == View(c) && (AllMayLeave(c) ==> AllMayLeave(Saved(c, p)))
  {
    var d := Saved(c, p);
    forall r: RowId ensures RowInv(d, r) && Find(d, r) == Find(c, r) { assert RowInv(c, r); }
    ResidentBounded(c, p);
    forall q: PageId ensures PageInv(d, q) && DiskInv(d, q) { assert PageInv(c, q) && DiskInv(c, q); }
    forall q: PageId ensures MayLeave(c, q) ==> MayLeave(d, q) {}
    SameView(c, d);
  }

  /**
   * When a step may happen. A row is placed on a resident page with room or a fresh one. A page leaves
   * memory only if it is written first or its disk copy is current. The steps that walk resident pages
   * find there what concerns them, and a restart finds no leftover rows: exactly what each step needs.
   */
  ghost predicate Allowed(c: Cache, op: CacheOp) {
    match op
    case Touch(p) => p in c.rowSpace
    case Evict(p) => p in c.rowSpace && MayLeave(c, p)
    case Load(p) => Referenced(c.locations, p) && p !in c.rowSpace && p in c.disk
    case Register => true
    case Reserve(p) => p in c.rowSpace && c.rowSpace[p].rows == map[]
    case Link(p, _) => p in c.rowSpace && c.rowSpace[p].dirty
    case Place(p, r, _, size) =>
      && p in c.rowSpace && r > c.nextRow && size > 0
      && (HasRoom(c.rowSpace[p], size) || (c.rowSpace[p].rows == map[] && !c.rowSpace[p].overflow))
    case Rewrite(r, _) => r in c.locations && c.locations[r] in c.rowSpace
    case Save(p) => p in c.rowSpace
    case Flush => true
    case Restart => RestartSafe(c)
    case Rollback(t) => RollbackReaches(c, t)
    case Vacuum(oldest) => VacuumReaches(c, oldest) && c.pageSize >= 1
  }

  ghost function CacheStep(c: Cache, op: CacheOp, rowSize: Chain -> nat): Cache
    requires Allowed(c, op)
  {
    match op
    case Touch(p) => Touched(c, p)
    case Evict(p) => Evicted(c, p)
    case Load(p) => Loaded(c, p)
    case Register => Registered(c)
    case Reserve(p) => Reserved(c, p)
    case Link(p, next) => Linked(c, p, next)
    case Place(p, r, chain, size) => Placed(c, p, r, chain, size)
    case Rewrite(r, chain) => Rewritten(c, r, chain)
    case Save(p) => Saved(c, p)
    case Flush => Flushed(c)
    case Restart => Restarted(Flushed(c))
    case Rollback(t) => RolledBack(c, t)
    case Vacuum(oldest) => Vacuumed(c, oldest, rowSize)
  }

  /** What a step means for the rows: most steps mean nothing. */
  ghost function PlainStep(rows: map<RowId, Chain>, op: CacheOp): map<RowId, Chain> {
    match op
    case Place(_, r, chain, _) => rows[r := chain]
    case Rewrite(r, chain) => rows[r := chain]
    case Rollback(t) => RollbackRows(rows, t)
    case Vacuum(oldest) => PruneRows(rows, oldest)
    case _ => rows
  }

  lemma CacheStepRefines(c: Cache, op: CacheOp, rowSize: Chain -> nat)
    requires CacheOk(c) && Allowed(c, op) && forall row :: rowSize(row) > 0
    ensures CacheOk(CacheStep(c, op, rowSize)) && View(CacheStep(c, op, rowSize)) == PlainStep(View(c), op)
  {
    match op
    case Touch(p) => TouchKeeps(c, p);
    case Evict(p) => EvictKeeps(c, p);
    case Load(p) => LoadKeeps(c, p);
    case Register => RegisterKeeps(c);
    case Reserve(p) => ReserveKeeps(c, p);
    case Link(p, next) => LinkKeeps(c, p, next);
    case Place(p, r, chain, size) => PlaceKeeps(c, p, r, chain, size);
    case Rewrite(r, chain) => RewriteKeeps(c, r, chain);
    case Save(p) => SaveKeeps(c, p);
    case Flush => FlushKeeps(c);
    case Restart => RestartKeeps(c);
    case Rollback(t) =>
      RollbackUndoesIff(c, t);
      RollbackKeeps(c, t);
    case Vacuum(oldest) =>
      VacuumPrunesIff(c, oldest, rowSize);
      VacuumKeepsCache(c, oldest, rowSize);
  }

  /** Pages may leave freely unless a rollback changed a clean saved page: no other step makes a copy stale. */
  lemma StepKeepsLeaving(c: Cache, op: CacheOp, rowSize: Chain -> nat)
    requires CacheOk(c) && AllMayLeave(c) && Allowed(c, op) && forall row :: rowSize(row) > 0
    ensures AllMayLeave(CacheStep(c, op, rowSize)) <==> (op.Rollback? ==> forall p :: !GoesStale(c, op.txn, p))
  {
    match op
    case Touch(p) => TouchKeeps(c, p);
    case Evict(p) => EvictKeeps(c, p);
    case Load(p) => LoadKeeps(c, p);
    case Register => RegisterKeeps(c);
    case Reserve(p) => ReserveKeeps(c, p);
    case Link(p, next) => LinkKeeps(c, p, next);
    case Place(p, r, chain, size) => PlaceKeeps(c, p, r, chain, size);
    case Rewrite(r, chain) => RewriteKeeps(c, r, chain);
    case Save(p) => SaveKeeps(c, p);
    case Flush => FlushKeeps(c);
    case Restart => RestartKeeps(c);
    case Rollback(t) => RollbackKeepsLeavingIff(c, t);
    case Vacuum(oldest) => VacuumKeepsCache(c, oldest, rowSize);
  }

  ghost predicate AllowedRun(c: Cache, ops: seq<CacheOp>, rowSize: Chain -> nat)
    decreases |ops|
  {
    ops == [] || (Allowed(c, ops[0]) && AllowedRun(CacheStep(c, ops[0], rowSize), ops[1..], rowSize))
  }

  ghost function CacheRun(c: Cache, ops: seq<CacheOp>, rowSize: Chain -> nat): Cache
    requires AllowedRun(c, ops, rowSize)
    decreases |ops|
  {
    if ops == [] then c else CacheRun(CacheStep(c, ops[0], rowSize), ops[1..], rowSize)
  }

  ghost function PlainRun(rows: map<RowId, Chain>, ops: seq<CacheOp>): map<RowId, Chain>
    decreases |ops|
  {
    if ops == [] then rows else PlainRun(PlainStep(rows, ops[0]), ops[1..])
  }

  /** Over any run, the table's rows are those of the plain map under the same writes. */
  lemma {:induction false} CacheRunRefinesMap(c: Cache, ops: seq<CacheOp>, rowSize: Chain -> nat)
    requires CacheOk(c) && AllowedRun(c, ops, rowSize) && forall row :: rowSize(row) > 0
    ensures CacheOk(CacheRun(c, ops, rowSize)) && View(CacheRun(c, ops, rowSize)) == PlainRun(View(c), ops)
    decreases |ops|
  {
    if ops != [] {
      CacheStepRefines(c, ops[0], rowSize);
      CacheRunRefinesMap(CacheStep(c, ops[0], rowSize), ops[1..], rowSize);
    }
  }

  // ---- Row order along the pages --------------------------------------------------------------------

  /** Nothing leaves memory, and a new row goes to the last resident page. */
  predicate Quiet(c: Cache, op: CacheOp) {
    !op.Evict? && !op.Restart? && (op.Place? ==> forall p :: p in c.rowSpace ==> p <= op.page)
  }

  lemma QuietStepKeepsOrder(c: Cache, op: CacheOp, rowSize: Chain -> nat)
    requires CacheOk(c) && Allowed(c, op) && Quiet(c, op) && AllResident(c) && Monotone(c.locations)
    requires forall row :: rowSize(row) > 0
    ensures AllResident(CacheStep(c, op, rowSize)) && Monotone(CacheStep(c, op, rowSize).locations)
  {
    match op
    case Place(p, r, _, _) =>
      forall x | x in c.locations ensures x < r && c.locations[x] <= p { assert RowInv(c, x); }
    case Vacuum(oldest) => VacuumKeepsCache(c, oldest, rowSize);
    case _ =>
  }

  ghost predicate QuietRun(c: Cache, ops: seq<CacheOp>, rowSize: Chain -> nat)
    requires AllowedRun(c, ops, rowSize)
    decreases |ops|
  {
    ops == [] || (Quiet(c, ops[0]) && QuietRun(CacheStep(c, ops[0], rowSize), ops[1..], rowSize))
  }

  /** While nothing is evicted, rows stay in id order along the pages. */
  lemma {:induction false} QuietRunKeepsOrder(c: Cache, ops: seq<CacheOp>, rowSize: Chain -> nat)
    requires CacheOk(c) && AllowedRun(c, ops, rowSize) && QuietRun(c, ops, rowSize) && forall row :: rowSize(row) > 0
    requires AllResident(c) && Monotone(c.locations)
    ensures AllResident(CacheRun(c, ops, rowSize)) && Monotone(CacheRun(c, ops, rowSize).locations)
    decreases |ops|
  {
    if ops != [] {
      CacheStepRefines(c, ops[0], rowSize);
      QuietStepKeepsOrder(c, ops[0], rowSize);
      QuietRunKeepsOrder(CacheStep(c, ops[0], rowSize), ops[1..], rowSize);
    }
  }

  // ---- Chains of oversized rows stay closed ---------------------------------------------------------

  /** A continuation, or the head of a chain: no further row may be put on it. */
  predicate Shut(page: Page) {
    page.overflow || (page.used > page.capacity && page.rows.Keys != {})
  }

  lemma ChainPagesAreShut(l: Live, head: PageId, pageSize: nat, span: nat, j: nat)
    requires l.size > pageSize
    ensures Shut(ChainPage(l, head, pageSize, span, j).(dirty := true))
  {
    assert j == 0 ==> l.id in ChainPage(l, head, pageSize, span, j).rows.Keys;
  }

  ghost predicate ShutAt(c: Cache, p: PageId) {
    && p < c.nextPage
    && (p in c.rowSpace ==> Shut(c.rowSpace[p]))
    && (p !in c.rowSpace && p in c.disk && Referenced(c.locations, p) ==> Shut(c.disk[p]))
  }

  lemma RestartReferences(c: Cache, p: PageId)
    requires CacheOk(c) && RestartSafe(c) && Referenced(Restarted(Flushed(c)).locations, p)
    ensures Referenced(c.locations, p)
  {
    var d := Restarted(Flushed(c));
    RestartKeeps(c);
    var r :| r in d.locations && d.locations[r] == p;
    assert RowInv(d, r);
    assert r in View(d) && r in View(c);
    RestartFinds(c, r);
  }

  lemma ShutPlace(c: Cache, p: PageId, q: PageId, r: RowId, row: Chain, size: nat)
    requires CacheOk(c) && Allowed(c, Place(q, r, row, size)) && ShutAt(c, p)
    ensures q != p && ShutAt(Placed(c, q, r, row, size), p)
  {
    assert RowInv(c, r) && q != p;
    ReferencedElsewhere(c.locations, r, q, p);
  }

  /** A resident page that keeps its size, flags and some row stays shut. */
  lemma ShutSame(c: Cache, d: Cache, p: PageId)
    requires ShutAt(c, p) && d.locations == c.locations && d.disk == c.disk && d.nextPage == c.nextPage && d.rowSpace.Keys == c.rowSpace.Keys
    requires p in c.rowSpace ==>
      var a, b := c.rowSpace[p], d.rowSpace[p];
      b.overflow == a.overflow && b.used == a.used && b.capacity == a.capacity && a.rows.Keys <= b.rows.Keys
    ensures ShutAt(d, p)
  {
  }

  lemma ShutEvict(c: Cache, p: PageId, q: PageId)
    requires q in c.rowSpace && MayLeave(c, q) && ShutAt(c, p)
    ensures ShutAt(Evicted(c, q), p)
  {
  }

  lemma ShutRestart(c: Cache, p: PageId)
    requires CacheOk(c) && RestartSafe(c) && ShutAt(c, p)
    ensures ShutAt(Restarted(Flushed(c)), p)
  {
    if Referenced(Restarted(Flushed(c)).locations, p) { RestartReferences(c, p); }
  }

  lemma ShutStep(c: Cache, op: CacheOp, rowSize: Chain -> nat, p: PageId)
    requires CacheOk(c) && Allowed(c, op) && ShutAt(c, p) && !op.Vacuum?
    ensures op.Place? ==> op.page != p
    ensures ShutAt(CacheStep(c, op, rowSize), p)
  {
    match op
    case Place(q, r, row, size) => ShutPlace(c, p, q, r, row, size);
    case Evict(q) => ShutEvict(c, p, q);
    case Restart => ShutRestart(c, p);
    case Link(q, next) => ShutSame(c, Linked(c, q, next), p);
    case Rewrite(r, row) => ShutSame(c, Rewritten(c, r, row), p);
    case Rollback(t) => ShutSame(c, RolledBack(c, t), p);
    case _ =>
  }

  /** Until the table is repacked, no row is ever put on a page of an oversized row's chain. */
  lemma {:induction false} ShutForever(c: Cache, ops: seq<CacheOp>, rowSize: Chain -> nat, p: PageId)
    requires CacheOk(c) && AllowedRun(c, ops, rowSize) && ShutAt(c, p) && forall row :: rowSize(row) > 0
    requires forall i :: 0 <= i < |ops| ==> !ops[i].Vacuum?
    ensures forall i :: 0 <= i < |ops| && ops[i].Place? ==> ops[i].page != p
    decreases |ops|
  {
    if ops != [] {
      var rest := ops[1..];
      ShutStep(c, ops[0], rowSize, p);
      CacheStepRefines(c, ops[0], rowSize);
      ShutForever(CacheStep(c, ops[0], rowSize), rest, rowSize, p);
      forall i | 0 <= i < |ops| && ops[i].Place? ensures ops[i].page != p {
        if i > 0 { assert rest[i - 1] == ops[i]; }
      }
    }
  }

  /** One more step at the end of a run. */
  lemma {:induction false} RunOneMore(c: Cache, ops: seq<CacheOp>, op: CacheOp, rowSize: Chain -> nat)
    requires AllowedRun(c, ops, rowSize) && Allowed(CacheRun(c, ops, rowSize), op)
    ensures AllowedRun(c, ops + [op], rowSize)
    ensures CacheRun(c, ops + [op], rowSize) == CacheStep(CacheRun(c, ops, rowSize), op, rowSize)
    decreases |ops|
  {
    var all := ops + [op];
    if ops == [] {
      assert all[1..] == [];
    } else {
      assert all[0] == ops[0] && all[1..] == ops[1..] + [op];
      RunOneMore(CacheStep(c, ops[0], rowSize), ops[1..], op, rowSize);
    }
  }

  // ---- The insert of an oversized row, as a run -----------------------------------------------------

  /** After the head: register, reserve and link `extra` continuations. */
  function Continuing(head: PageId, extra: nat): seq<CacheOp> {
    if extra == 0 then []
    else Continuing(head, extra - 1) + [Register] + [Reserve(head + extra)] + [Link(head + extra - 1, head + extra)]
  }

  /** The steps of an insert of the row `l` that needs `extra` continuation pages. */
  function InsertingLarge(head: PageId, l: Live, extra: nat): seq<CacheOp> {
    [Register] + [Place(head, l.id, l.row, l.size)] + Continuing(head, extra)
  }

  /** What such a run has built so far. */
  ghost predicate LargeInserted(c: Cache, d: Cache, l: Live, extra: nat) {
    CacheOk(d) && View(d) == View(c)[l.id := l.row] && ChainBuilt(c.nextPage, c.pageSize, d, l, extra)
  }

  /** The chain of `l` from `head` on, all of it resident. */
  predicate ChainBuilt(head: PageId, pageSize: nat, d: Cache, l: Live, extra: nat) {
    && d.nextPage == head + 1 + extra && d.pageSize == pageSize && ChainAt(d.rowSpace, l, head, pageSize, extra + 1)
    && forall p :: head <= p < d.nextPage ==> p in d.rowSpace
  }

  /** Inserting an oversized row is a run of allowed steps that adds the row and builds its closed chain. */
  lemma {:induction false} LargeInsertIsARun(c: Cache, l: Live, extra: nat, rowSize: Chain -> nat)
    requires CacheOk(c) && l.id > c.nextRow && l.size > c.pageSize && forall row :: rowSize(row) > 0
    ensures AllowedRun(c, InsertingLarge(c.nextPage, l, extra), rowSize)
    ensures LargeInserted(c, CacheRun(c, InsertingLarge(c.nextPage, l, extra), rowSize), l, extra)
    decreases extra
  {
    var head := c.nextPage;
    if extra == 0 {
      LargeHead(c, l, rowSize);
      assert InsertingLarge(head, l, 0) == [Register] + [Place(head, l.id, l.row, l.size)];
    } else {
      LargeInsertIsARun(c, l, extra - 1, rowSize);
      var ops := InsertingLarge(head, l, extra - 1);
      var d := CacheRun(c, ops, rowSize);
      ContinuedInserts(c, d, l, extra);
      ThreeMore(c, ops, d, rowSize);
      LargeOps(head, l, extra);
    }
  }

  lemma LargeOps(head: PageId, l: Live, extra: nat)
    requires extra >= 1
    ensures InsertingLarge(head, l, extra) ==
      InsertingLarge(head, l, extra - 1) + [Register] + [Reserve(head + extra)] + [Link(head + extra - 1, head + extra)]
  {
  }

  /** The head page with the row on it. */
  function HeadPlaced(c: Cache, l: Live): Cache {
    Placed(Registered(c), c.nextPage, l.id, l.row, l.size)
  }

  /** One more page registered, reserved and linked. */
  function Continued(d: Cache): Cache
    requires d.nextPage >= 1 && d.nextPage - 1 in d.rowSpace
  {
    Linked(Reserved(Registered(d), d.nextPage), d.nextPage - 1, d.nextPage)
  }

  lemma HeadIsInserted(c: Cache, l: Live)
    requires CacheOk(c) && l.id > c.nextRow && l.size > c.pageSize
    ensures LargeInserted(c, HeadPlaced(c, l), l, 0)
  {
    RegisterKeeps(c);
    PlaceKeeps(Registered(c), c.nextPage, l.id, l.row, l.size);
    HeadChain(HeadPlaced(c, l).rowSpace, l, c.nextPage, c.pageSize);
  }

  lemma HeadChain(pages: map<PageId, Page>, l: Live, head: PageId, pageSize: nat)
    requires head in pages && pages[head] == Append(NewPage(head, pageSize), l.id, l.row, l.size)
    ensures ChainAt(pages, l, head, pageSize, 1)
  {
    assert ChainPageAt(pages, l, head, pageSize, 1, 0);
  }

  lemma LargeHead(c: Cache, l: Live, rowSize: Chain -> nat)
    requires CacheOk(c) && l.id > c.nextRow && l.size > c.pageSize && forall row :: rowSize(row) > 0
    ensures var ops := [Register] + [Place(c.nextPage, l.id, l.row, l.size)];
      AllowedRun(c, ops, rowSize) && LargeInserted(c, CacheRun(c, ops, rowSize), l, 0)
  {
    assert AllowedRun(c, [], rowSize) && CacheRun(c, [], rowSize) == c && [] + [Register] == [Register];
    RunOneMore(c, [], Register, rowSize);
    RunOneMore(c, [Register], Place(c.nextPage, l.id, l.row, l.size), rowSize);
    HeadIsInserted(c, l);
  }

  /** The pages after one more continuation. */
  lemma ContinuedPages(d: Cache)
    requires d.nextPage >= 1 && d.nextPage - 1 in d.rowSpace
    ensures var id, now := d.nextPage, Continued(d).rowSpace;
      && now.Keys == d.rowSpace.Keys + {id} && now[id] == Continuation(id, d.pageSize).(dirty := true)
      && (forall q :: q in now && q != id && q != id - 1 ==> now[q] == d.rowSpace[q])
      && now[id - 1] == d.rowSpace[id - 1].(next := Some(id))
  {
  }

  lemma ContinuedKeeps(d: Cache)
    requires CacheOk(d) && d.nextPage >= 1 && d.nextPage - 1 in d.rowSpace && d.rowSpace[d.nextPage - 1].dirty
    ensures CacheOk(Continued(d)) && View(Continued(d)) == View(d)
  {
    RegisterKeeps(d);
    ReserveKeeps(Registered(d), d.nextPage);
    LinkKeeps(Reserved(Registered(d), d.nextPage), d.nextPage - 1, d.nextPage);
  }

  lemma ContinuedInserts(c: Cache, d: Cache, l: Live, extra: nat)
    requires extra >= 1 && LargeInserted(c, d, l, extra - 1)
    ensures d.nextPage == c.nextPage + extra && d.nextPage - 1 in d.rowSpace && d.rowSpace[d.nextPage - 1].dirty
    ensures LargeInserted(c, Continued(d), l, extra)
  {
    ContinuedChain(c.nextPage, c.pageSize, d, l, extra);
    ContinuedKeeps(d);
  }

  lemma ContinuedChain(head: PageId, pageSize: nat, d: Cache, l: Live, extra: nat)
    requires extra >= 1 && ChainBuilt(head, pageSize, d, l, extra - 1)
    ensures d.nextPage == head + extra && d.nextPage - 1 in d.rowSpace && d.rowSpace[d.nextPage - 1].dirty
    ensures ChainBuilt(head, pageSize, Continued(d), l, extra)
  {
    assert ChainPageAt(d.rowSpace, l, head, pageSize, extra, extra - 1);
    ContinuedPages(d);
    ChainGrows(d.rowSpace, Continued(d).rowSpace, l, head, pageSize, extra);
  }

  lemma ThreeMore(c: Cache, ops: seq<CacheOp>, d: Cache, rowSize: Chain -> nat)
    requires AllowedRun(c, ops, rowSize) && CacheRun(c, ops, rowSize) == d
    requires d.nextPage >= 1 && d.nextPage - 1 in d.rowSpace && d.rowSpace[d.nextPage - 1].dirty
    ensures var all := ops + [Register] + [Reserve(d.nextPage)] + [Link(d.nextPage - 1, d.nextPage)];
      AllowedRun(c, all, rowSize) && CacheRun(c, all, rowSize) == Continued(d)
  {
    RunOneMore(c, ops, Register, rowSize);
    RunOneMore(c, ops + [Register], Reserve(d.nextPage), rowSize);
    RunOneMore(c, ops + [Register] + [Reserve(d.nextPage)], Link(d.nextPage - 1, d.nextPage), rowSize);
  }
}
