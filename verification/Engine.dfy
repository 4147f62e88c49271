/**
 * Transactions over version chains over cached pages. In every run, reading a row through its page is
 * reading the simple store.
 */
module Engine {
  import opened Prelude
  import opened Values
  import opened Transactions
  import opened Rows
  import opened Pages
  import opened MvccStore
  import opened MvccProofs
  import opened MvccTheorems
  import opened PageCache
  import opened TableMaintenance
  import opened Eviction
  import opened Vacuum
  import CacheRuns

  datatype Engine = Engine(cache: Cache, w: World)

  /** Paging on its own, or a database operation; `at` and `size` say where an insert puts its row. */
  datatype EngineOp = Page(step: CacheRuns.CacheOp) | Do(op: Op, at: PageId, size: nat)

  function NewEngine(pageSize: nat): Engine {
    Engine(EmptyCache(pageSize), Start)
  }

  predicate OnlyPaging(step: CacheRuns.CacheOp) {
    step.Touch? || step.Evict? || step.Load? || step.Register? || step.Reserve? || step.Link? || step.Save? || step.Flush?
  }

  /** What an operation does to the pages. */
  ghost function PageWork(e: Engine, x: EngineOp): Option<CacheRuns.CacheOp> {
    match x
    case Page(step) => Some(step)
    case Do(op, at, size) =>
      match op
      case Insert(t, r, d) => Some(CacheRuns.Place(at, r, [NewVersion(t, d)], size))
      case Update(_, r, _) => if r in e.w.db.rows then Some(CacheRuns.Rewrite(r, Apply(e.w.db, op).rows[r])) else None
      case Delete(_, r) => if r in e.w.db.rows then Some(CacheRuns.Rewrite(r, Apply(e.w.db, op).rows[r])) else None
      case Rollback(t) => Some(CacheRuns.Rollback(t))
      case Prune => Some(CacheRuns.Vacuum(e.w.db.snap.smallestActive))
      case Restart => Some(CacheRuns.Restart)
      case _ => None
  }

  ghost predicate EngineAllowed(e: Engine, x: EngineOp) {
    && (x.Page? ==> OnlyPaging(x.step))
    && (x.Do? ==> Legal(e.w.sp, x.op))
    && (PageWork(e, x).Some? ==> CacheRuns.Allowed(e.cache, PageWork(e, x).value))
  }

  ghost function EngineStep(e: Engine, x: EngineOp, rowSize: Chain -> nat): Engine
    requires EngineAllowed(e, x)
  {
    Engine(if PageWork(e, x).Some? then CacheRuns.CacheStep(e.cache, PageWork(e, x).value, rowSize) else e.cache,
           if x.Do? then Next(e.w, x.op) else e.w)
  }

  ghost predicate EngineOk(e: Engine) {
    CacheOk(e.cache) && Related(e.w) && View(e.cache) == e.w.db.rows
  }

  /** The page work of an operation does to the rows what the operation does. */
  lemma PageWorkIsTheOperation(e: Engine, x: EngineOp)
    requires EngineAllowed(e, x)
    ensures var rows := if x.Do? then Next(e.w, x.op).db.rows else e.w.db.rows;
      rows == if PageWork(e, x).Some? then CacheRuns.PlainStep(e.w.db.rows, PageWork(e, x).value) else e.w.db.rows
  {
  }

  lemma EngineStepKeeps(e: Engine, x: EngineOp, rowSize: Chain -> nat)
    requires EngineOk(e) && EngineAllowed(e, x) && forall row :: rowSize(row) > 0
    ensures EngineOk(EngineStep(e, x, rowSize))
  {
    PageWorkIsTheOperation(e, x);
    if PageWork(e, x).Some? { CacheRuns.CacheStepRefines(e.cache, PageWork(e, x).value, rowSize); }
    if x.Do? { Step(e.w.db, e.w.sp, x.op); }
  }

  ghost predicate AllowedRun(e: Engine, xs: seq<EngineOp>, rowSize: Chain -> nat)
    decreases |xs|
  {
    xs == [] || (EngineAllowed(e, xs[0]) && AllowedRun(EngineStep(e, xs[0], rowSize), xs[1..], rowSize))
  }

  ghost function EngineRun(e: Engine, xs: seq<EngineOp>, rowSize: Chain -> nat): Engine
    requires AllowedRun(e, xs, rowSize)
    decreases |xs|
  {
    if xs == [] then e else EngineRun(EngineStep(e, xs[0], rowSize), xs[1..], rowSize)
  }

  lemma {:induction false} EngineRunKeeps(e: Engine, xs: seq<EngineOp>, rowSize: Chain -> nat)
    requires EngineOk(e) && AllowedRun(e, xs, rowSize) && forall row :: rowSize(row) > 0
    ensures EngineOk(EngineRun(e, xs, rowSize))
    decreases |xs|
  {
    if xs != [] {
      EngineStepKeeps(e, xs[0], rowSize);
      EngineRunKeeps(EngineStep(e, xs[0], rowSize), xs[1..], rowSize);
    }
  }

  /** What transaction `t` reads at row `r` by going to the row's page. */
  function ReadThroughPage(e: Engine, t: TransactionId, r: RowId): Option<RowData> {
    match Find(e.cache, r)
    case None => None
    case Some(chain) => ReadChain(chain, t, e.w.db.snap)
  }

  /**
   * From an empty table, after any interleaving of transactions with eviction, loading, flushing,
   * vacuum, rollback and restart: a read through the page is the transaction's own latest write, or
   * else the latest committed value.
   */
  lemma PagedReadsAreSimpleReads(pageSize: nat, xs: seq<EngineOp>, rowSize: Chain -> nat, t: TransactionId, r: RowId)
    requires pageSize >= 1 && AllowedRun(NewEngine(pageSize), xs, rowSize) && forall row :: rowSize(row) > 0
    requires Reader(EngineRun(NewEngine(pageSize), xs, rowSize).w.sp, t)
    ensures var e := EngineRun(NewEngine(pageSize), xs, rowSize);
      ReadThroughPage(e, t, r) == SpecRead(e.w.sp, t, r)
  {
    StartRelated();
    EmptyCacheOk(pageSize);
    EngineRunKeeps(NewEngine(pageSize), xs, rowSize);
    ReadIsSimple(EngineRun(NewEngine(pageSize), xs, rowSize), t, r);
  }

  lemma ReadIsSimple(e: Engine, t: TransactionId, r: RowId)
    requires EngineOk(e) && Reader(e.w.sp, t)
    ensures ReadThroughPage(e, t, r) == SpecRead(e.w.sp, t, r)
  {
    ReadsAgree(e.w.db, e.w.sp, t, r);
    assert RowInv(e.cache, r);
    assert r in View(e.cache) <==> Find(e.cache, r).Some?;
  }

  /**
   * After a whole vacuum, whatever limit it ran under and whatever index pruning looked up, a row that
   * is still there reads as before to every transaction.
   */
  lemma VacuumedRowsReadTheSame(e: Engine, used: nat, probes: seq<RowId>, limit: nat, pageBytes: Page -> nat, rowSize: Chain -> nat,
                                t: TransactionId, r: RowId)
    requires EngineOk(e) && Fit(Held(e.cache, used), limit) && (forall row :: rowSize(row) > 0) && Reader(e.w.sp, t)
    requires r in View(VacuumResult(Held(e.cache, used), e.w.db.snap.smallestActive, probes, limit, pageBytes, rowSize))
    ensures var rows := View(VacuumResult(Held(e.cache, used), e.w.db.snap.smallestActive, probes, limit, pageBytes, rowSize));
      ReadChain(rows[r], t, e.w.db.snap) == Read(e.w.db, t, r)
  {
    var oldest := e.w.db.snap.smallestActive;
    VacuumOutcome(Held(e.cache, used), oldest, probes, limit, pageBytes, rowSize);
    var chain := View(VacuumResult(Held(e.cache, used), oldest, probes, limit, pageBytes, rowSize))[r];
    assert r in e.w.db.rows && (chain == e.w.db.rows[r] || chain == PruneChain(e.w.db.rows[r], oldest));
    PrunedReadsTheSame(e.w, t, r);
  }

  /** A pruned chain reads as the whole one. */
  lemma PrunedReadsTheSame(w: World, t: TransactionId, r: RowId)
    requires Related(w) && Reader(w.sp, t) && r in w.db.rows
    ensures ReadChain(PruneChain(w.db.rows[r], w.db.snap.smallestActive), t, w.db.snap) == Read(w.db, t, r)
  {
    Step(w.db, w.sp, Prune);
    ReadsAgree(w.db, w.sp, t, r);
    ReadsAgree(Apply(w.db, Prune), w.sp, t, r);
  }
}
