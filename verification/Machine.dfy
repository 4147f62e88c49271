/**
 * Everything at once: transactions over version chains, their column indexes, the page cache that
 * holds the rows and the bytes of the file behind it. What the query results assume of a table holds
 * in every state a run reaches.
 */
module Machine {
  import opened Prelude
  import opened Values
  import opened Transactions
  import opened Rows
  import opened Pages
  import opened MvccStore
  import opened MvccProofs
  import opened MvccTheorems
  import opened ColumnIndex
  import opened IndexedStore
  import opened IndexTheorems
  import opened PageCache
  import opened TableMaintenance
  import opened Engine
  import opened SearchExpressions
  import opened AccessPaths
  import opened Joins
  import opened Durable
  import CacheRuns
  import PageBytes
  import PageFile
  import PageRuns

  /** The engine, one index per indexed column, and the page file. */
  datatype State = State(e: Engine, indexes: map<ColumnId, Index>, disk: PageRuns.Disk)

  /** What does not change: the hasher, the row sizes and the serialiser. */
  datatype Setting = Setting(hash: Value -> nat, rowSize: Chain -> nat, codec: PageCodec)

  ghost predicate Usable(s: Setting) {
    PageFile.Faithful(s.codec) && forall row :: s.rowSize(row) > 0
  }

  /** Nothing stored, nothing on disk, an empty index for every indexed column. */
  function Blank(pageSize: nat, indexed: set<ColumnId>): State {
    State(NewEngine(pageSize), map c | c in indexed :: EmptyIndex, PageRuns.Disk([], PageFile.FreshState))
  }

  function StoreAt(m: State, c: ColumnId): Store
    requires c in m.indexes
  {
    Store(m.e.w, m.indexes[c])
  }

  function ConfigOf(s: Setting, c: ColumnId): Config { Config(c, s.hash) }

  /** What every indexed column asks of an operation: writes pass validation, rollbacks are safe. */
  ghost predicate ColumnAllows(s: Setting, m: State, x: EngineOp, c: ColumnId)
    requires c in m.indexes
  {
    x.Do? ==>
      && (x.op.Insert? || x.op.Update? ==> Accepts(ConfigOf(s, c), StoreAt(m, c), x.op))
      && (x.op.Rollback? ==> RollbackSafe(ConfigOf(s, c), StoreAt(m, c), x.op.txn))
  }

  ghost function DiskWork(m: State, x: EngineOp, tmp: PageBytes.File): Option<PageRuns.FileOp<Page>>
    requires EngineAllowed(m.e, x)
  {
    if PageWork(m.e, x).Some? then FileWork(m.e.cache, PageWork(m.e, x).value, tmp) else None
  }

  /** A step: an engine operation, and what a leftover temporary file holds should one be written over. */
  datatype Action = Action(x: EngineOp, tmp: PageBytes.File)

  ghost predicate Allowed(s: Setting, m: State, a: Action) {
    && EngineAllowed(m.e, a.x)
    && (forall c :: c in m.indexes ==> ColumnAllows(s, m, a.x, c))
    && (DiskWork(m, a.x, a.tmp).Some? ==> PageRuns.Writable(s.codec, m.disk, DiskWork(m, a.x, a.tmp).value))
  }

  ghost function IndexStep(s: Setting, m: State, x: EngineOp, c: ColumnId): Index
    requires c in m.indexes
  {
    if x.Do? then IndexApply(ConfigOf(s, c), m.e.w.db, m.indexes[c], x.op) else m.indexes[c]
  }

  ghost function MachineStep(s: Setting, m: State, a: Action): State
    requires Allowed(s, m, a)
  {
    var work := DiskWork(m, a.x, a.tmp);
    State(EngineStep(m.e, a.x, s.rowSize),
          map c | c in m.indexes :: IndexStep(s, m, a.x, c),
          if work.Some? then PageRuns.FileStep(s.codec, m.disk, work.value) else m.disk)
  }

  ghost predicate IndexOk(s: Setting, m: State, c: ColumnId) {
    c in m.indexes ==> StoreOk(ConfigOf(s, c), StoreAt(m, c))
  }

  ghost predicate MachineOk(s: Setting, m: State) {
    EngineOk(m.e) && Backed(s.codec, m.disk, m.e.cache) && forall c: ColumnId :: IndexOk(s, m, c)
  }

  lemma IndexStepKeeps(s: Setting, m: State, a: Action, c: ColumnId)
    requires IndexOk(s, m, c) && Allowed(s, m, a)
    ensures IndexOk(s, MachineStep(s, m, a), c)
  {
    if c in m.indexes {
      assert ColumnAllows(s, m, a.x, c);
      if a.x.Do? {
        StepKeepsIndex(ConfigOf(s, c), StoreAt(m, c), a.x.op);
        assert NextStore(ConfigOf(s, c), StoreAt(m, c), a.x.op) == StoreAt(MachineStep(s, m, a), c);
      }
    }
  }

  lemma MachineStepKeeps(s: Setting, m: State, a: Action)
    requires Usable(s) && MachineOk(s, m) && Allowed(s, m, a)
    ensures MachineOk(s, MachineStep(s, m, a))
  {
    EngineStepKeeps(m.e, a.x, s.rowSize);
    if PageWork(m.e, a.x).Some? {
      StepStaysBacked(s.codec, m.disk, m.e.cache, PageWork(m.e, a.x).value, s.rowSize, a.tmp);
    }
    forall c: ColumnId ensures IndexOk(s, MachineStep(s, m, a), c) { IndexStepKeeps(s, m, a, c); }
  }

  // ---- Whole runs -----------------------------------------------------------------------------------

  ghost predicate AllowedRun(s: Setting, m: State, acts: seq<Action>)
    decreases |acts|
  {
    acts == [] || (Allowed(s, m, acts[0]) && AllowedRun(s, MachineStep(s, m, acts[0]), acts[1..]))
  }

  ghost function Run(s: Setting, m: State, acts: seq<Action>): State
    requires AllowedRun(s, m, acts)
    decreases |acts|
  {
    if acts == [] then m else Run(s, MachineStep(s, m, acts[0]), acts[1..])
  }

  lemma {:induction false} RunKeeps(s: Setting, m: State, acts: seq<Action>)
    requires Usable(s) && MachineOk(s, m) && AllowedRun(s, m, acts)
    ensures MachineOk(s, Run(s, m, acts)) && Run(s, m, acts).indexes.Keys == m.indexes.Keys
    decreases |acts|
  {
    if acts != [] {
      MachineStepKeeps(s, m, acts[0]);
      RunKeeps(s, MachineStep(s, m, acts[0]), acts[1..]);
    }
  }

  lemma BlankOk(s: Setting, pageSize: nat, indexed: set<ColumnId>)
    requires pageSize >= 1
    ensures MachineOk(s, Blank(pageSize, indexed))
  {
    StartRelated();
    EmptyCacheOk(pageSize);
  }

  /** The table a search in this state works on. */
  function TableOf(s: Setting, m: State, columns: map<string, ColumnId>): SearchTable {
    SearchTable(m.e.w, columns, m.indexes, s.hash, m.e.cache.locations)
  }

  lemma OkIsSound(s: Setting, m: State, columns: map<string, ColumnId>)
    requires MachineOk(s, m) && forall n :: n in columns ==> Lower(n) == n
    ensures Sound(TableOf(s, m, columns))
  {
    forall r: RowId ensures r in m.e.cache.locations <==> r in m.e.w.db.rows {
      assert RowInv(m.e.cache, r);
      assert r in View(m.e.cache) <==> r in m.e.w.db.rows;
    }
    assert m.e.cache.locations.Keys == m.e.w.db.rows.Keys;
    forall c | c in m.indexes ensures StoreOk(ConfigOf(s, c), StoreAt(m, c)) { assert IndexOk(s, m, c); }
  }

  /** In every reachable state locations are exact and every index is complete: searches and joins may rely on it. */
  lemma ReachableIsSound(s: Setting, pageSize: nat, indexed: set<ColumnId>, acts: seq<Action>, columns: map<string, ColumnId>)
    requires Usable(s) && pageSize >= 1 && AllowedRun(s, Blank(pageSize, indexed), acts)
    requires forall n :: n in columns ==> Lower(n) == n
    ensures Sound(TableOf(s, Run(s, Blank(pageSize, indexed), acts), columns))
  {
    BlankOk(s, pageSize, indexed);
    RunKeeps(s, Blank(pageSize, indexed), acts);
    OkIsSound(s, Run(s, Blank(pageSize, indexed), acts), columns);
  }

  /**
   * In every reachable state, for a filter that is not an equality with NULL: the planner's path finds
   * the rows of the full scan, and COUNT(*) counts them.
   */
  lemma ReachableSearchesAgree(s: Setting, pageSize: nat, indexed: set<ColumnId>, acts: seq<Action>,
                               columns: map<string, ColumnId>, t: TransactionId, filter: Option<Expr>)
    requires Usable(s) && pageSize >= 1 && AllowedRun(s, Blank(pageSize, indexed), acts)
    requires forall n :: n in columns ==> Lower(n) == n
    requires Reader(Run(s, Blank(pageSize, indexed), acts).e.w.sp, t)
    requires FilterLookup(filter).Some? ==> FilterLookup(filter).value.value != Null
    requires ChoosePath(TableOf(s, Run(s, Blank(pageSize, indexed), acts), columns), filter).Ok?
    ensures var tbl := TableOf(s, Run(s, Blank(pageSize, indexed), acts), columns);
      var planned, scan := SearchIds(tbl, t, filter, Some(ChoosePath(tbl, filter).value)), SearchIds(tbl, t, filter, Some(SeqScan));
      && SameRows(planned, scan)
      && (scan.Ok? ==> CountStar(tbl, t, filter, false) == Ok(|scan.value|))
  {
    var tbl := TableOf(s, Run(s, Blank(pageSize, indexed), acts), columns);
    ReachableIsSound(s, pageSize, indexed, acts, columns);
    ChosenPathSameRowsIff(tbl, t, filter);
    CountIsScanned(tbl, t, filter);
  }

  /** In every reachable state a join on probeable left rows yields the nested loop's rows, or fails as it does. */
  lemma ReachableJoinsAgree(s: Setting, pageSize: nat, indexed: set<ColumnId>, acts: seq<Action>,
                            columns: map<string, ColumnId>, t: TransactionId, current: seq<JoinedRow>, join: Join)
    requires Usable(s) && pageSize >= 1 && AllowedRun(s, Blank(pageSize, indexed), acts)
    requires forall n :: n in columns ==> Lower(n) == n
    requires Reader(Run(s, Blank(pageSize, indexed), acts).e.w.sp, t)
    requires forall i :: 0 <= i < |current| ==> Probeable(TableOf(s, Run(s, Blank(pageSize, indexed), acts), columns), current[i], join)
    ensures var tbl := TableOf(s, Run(s, Blank(pageSize, indexed), acts), columns);
      match JoinAll(tbl, t, current, join)
      case Err(e) => NestedLoops(tbl, t, current, join) == Err(e)
      case Ok(rows) => NestedLoops(tbl, t, current, join).Ok? && multiset(rows) == multiset(NestedLoops(tbl, t, current, join).value)
  {
    ReachableIsSound(s, pageSize, indexed, acts, columns);
    JoinYieldsSameRows(TableOf(s, Run(s, Blank(pageSize, indexed), acts), columns), t, current, join);
  }

  // ---- Order ----------------------------------------------------------------------------------------

  /** Nothing leaves memory and rows are put on the last page. */
  ghost predicate QuietAction(m: State, a: Action) {
    PageWork(m.e, a.x).Some? ==> CacheRuns.Quiet(m.e.cache, PageWork(m.e, a.x).value)
  }

  ghost predicate QuietRun(s: Setting, m: State, acts: seq<Action>)
    requires AllowedRun(s, m, acts)
    decreases |acts|
  {
    acts == [] || (QuietAction(m, acts[0]) && QuietRun(s, MachineStep(s, m, acts[0]), acts[1..]))
  }

  lemma {:induction false} QuietRunKeepsOrder(s: Setting, m: State, acts: seq<Action>)
    requires Usable(s) && MachineOk(s, m) && AllowedRun(s, m, acts) && QuietRun(s, m, acts)
    requires AllResident(m.e.cache) && Monotone(m.e.cache.locations)
    ensures Monotone(Run(s, m, acts).e.cache.locations)
    decreases |acts|
  {
    if acts != [] {
      MachineStepKeeps(s, m, acts[0]);
      if PageWork(m.e, acts[0].x).Some? {
        CacheRuns.QuietStepKeepsOrder(m.e.cache, PageWork(m.e, acts[0].x).value, s.rowSize);
      }
      QuietRunKeepsOrder(s, MachineStep(s, m, acts[0]), acts[1..]);
    }
  }

  /** While nothing was evicted or restarted, the planner's path returns the very sequence of the full scan. */
  lemma QuietSearchesAgree(s: Setting, pageSize: nat, indexed: set<ColumnId>, acts: seq<Action>,
                           columns: map<string, ColumnId>, t: TransactionId, filter: Option<Expr>)
    requires Usable(s) && pageSize >= 1 && AllowedRun(s, Blank(pageSize, indexed), acts)
    requires QuietRun(s, Blank(pageSize, indexed), acts) && forall n :: n in columns ==> Lower(n) == n
    requires Reader(Run(s, Blank(pageSize, indexed), acts).e.w.sp, t)
    requires FilterLookup(filter).Some? ==> FilterLookup(filter).value.value != Null
    requires ChoosePath(TableOf(s, Run(s, Blank(pageSize, indexed), acts), columns), filter).Ok?
    ensures var tbl := TableOf(s, Run(s, Blank(pageSize, indexed), acts), columns);
      SearchIds(tbl, t, filter, Some(ChoosePath(tbl, filter).value)) == SearchIds(tbl, t, filter, Some(SeqScan))
  {
    BlankOk(s, pageSize, indexed);
    QuietRunKeepsOrder(s, Blank(pageSize, indexed), acts);
    ReachableIsSound(s, pageSize, indexed, acts, columns);
    ChosenPathAgrees(TableOf(s, Run(s, Blank(pageSize, indexed), acts), columns), t, filter);
  }

  /**
   * On a column whose values the transaction sees only once, as UNIQUE promises, the planner's path
   * returns the very sequence of the full scan, wherever the rows lie.
   */
  lemma UniqueSearchesAgree(tbl: SearchTable, t: TransactionId, filter: Expr)
    requires Sound(tbl) && Reader(tbl.w.sp, t) && Related(tbl.w) && ChoosePath(tbl, Some(filter)).Ok?
    requires EqualityLookup(filter).Some? && EqualityLookup(filter).value.value != Null
    requires SeesUnique(Config(tbl.columns[Lower(EqualityLookup(filter).value.column)], tbl.hash), tbl.w.sp, t)
    ensures SearchIds(tbl, t, Some(filter), Some(ChoosePath(tbl, Some(filter)).value)) == SearchIds(tbl, t, Some(filter), Some(SeqScan))
  {
    var c := tbl.columns[Lower(EqualityLookup(filter).value.column)];
    forall a, b | a in Hits(tbl, t, Some(filter), tbl.locations.Keys) && b in Hits(tbl, t, Some(filter), tbl.locations.Keys) ensures a == b {
      EqualityTests(tbl, t, filter, a);
      EqualityTests(tbl, t, filter, b);
      ReadsAgree(tbl.w.db, tbl.w.sp, t, a);
      ReadsAgree(tbl.w.db, tbl.w.sp, t, b);
    }
    ChosenPathAgreesIff(tbl, t, Some(filter));
  }

  // ---- Vacuum and the file --------------------------------------------------------------------------

  /**
   * A vacuum of versions, index and pages together: every transaction reads the same through the
   * pages, locations stay exact, and no index entry points at a missing row.
   */
  lemma VacuumIsInvisible(s: Setting, m: State, a: Action, t: TransactionId, r: RowId)
    requires Usable(s) && MachineOk(s, m) && Allowed(s, m, a) && a.x.Do? && a.x.op == Prune && Reader(m.e.w.sp, t)
    ensures var m' := MachineStep(s, m, a);
      && MachineOk(s, m') && ReadThroughPage(m'.e, t, r) == ReadThroughPage(m.e, t, r)
      && m'.e.cache.locations.Keys == m'.e.w.db.rows.Keys
      && forall c :: c in m'.indexes ==> NoDangling(StoreAt(m', c))
  {
    var m' := MachineStep(s, m, a);
    MachineStepKeeps(s, m, a);
    ReadIsSimple(m.e, t, r);
    ReadIsSimple(m'.e, t, r);
    OkIsSound(s, m', map[]);
    forall c | c in m'.indexes ensures NoDangling(StoreAt(m', c)) { assert IndexOk(s, m', c); }
  }

  /** At every point of every run the file opens, and to the pages and locations the cache relies on. */
  lemma FileStaysReadable(s: Setting, pageSize: nat, indexed: set<ColumnId>, acts: seq<Action>, p: PageId)
    requires Usable(s) && pageSize >= 1 && AllowedRun(s, Blank(pageSize, indexed), acts)
    ensures var m := Run(s, Blank(pageSize, indexed), acts);
      && PageFile.Load(s.codec, m.disk.file) == Some(m.disk.st)
      && PageFile.ReadPage(s.codec, m.disk.file, m.disk.st, p) == Some(Get(m.e.cache.disk, p))
      && m.disk.st.index.rows == m.e.cache.diskLocations
  {
    BlankOk(s, pageSize, indexed);
    RunKeeps(s, Blank(pageSize, indexed), acts);
  }
}
