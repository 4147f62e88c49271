/** Flushing, restarting, rolling back and vacuuming a table, judged by the rows it stands for. */
module TableMaintenance {
  import opened Prelude
  import opened Values
  import opened Transactions
  import opened Rows
  import opened Pages
  import opened Compaction
  import opened MvccStore
  import opened PageCache

  /** Every page that holds rows is resident. */
  predicate AllResident(c: Cache) {
    forall r :: r in c.locations ==> c.locations[r] in c.rowSpace
  }

  // ---- Flushing and restarting ----------------------------------------------------------------------

  function Clean(page: Page): Page { page.(dirty := false) }

  function CleanAll(pages: map<PageId, Page>): map<PageId, Page> { map p | p in pages :: Clean(pages[p]) }

  /** Every resident page is written clean; other pages of the file are carried over. */
  function Flushed(c: Cache): Cache {
    var resident := CleanAll(c.rowSpace);
    var disk := c.disk + resident;
    c.(rowSpace := resident, disk := disk, diskLocations := c.locations, onDisk := disk.Keys)
  }

  lemma FlushKeeps(c: Cache)
    requires CacheOk(c)
    ensures CacheOk(Flushed(c)) && View(Flushed(c)) == View(c) && AllMayLeave(Flushed(c))
  {
    var d := Flushed(c);
    forall r: RowId ensures RowInv(d, r) && Find(d, r) == Find(c, r) { assert RowInv(c, r); }
    forall q: PageId ensures PageInv(d, q) { assert PageInv(c, q); }
    forall q: PageId ensures DiskInv(d, q) { FlushedBounded(c, q); }
    SameView(c, d);
  }

  /** Every resident page is in the file and clean, otherwise as it was, and pages that are not resident are left in the file. */
  lemma FlushWrites(c: Cache, p: PageId)
    ensures var f := Flushed(c);
      && (p in c.rowSpace ==> p in f.rowSpace && !f.rowSpace[p].dirty && SamePage(f.rowSpace[p], c.rowSpace[p]) && Get(f.disk, p) == Some(f.rowSpace[p]))
      && (p !in c.rowSpace ==> p !in f.rowSpace && Get(f.disk, p) == Get(c.disk, p))
      && f.locations == f.diskLocations == c.locations && (p in f.onDisk <==> p in f.disk)
  {
  }

  lemma FlushedBounded(c: Cache, q: PageId)
    requires CacheOk(c)
    ensures DiskInv(Flushed(c), q)
  {
    assert DiskInv(c, q);
    if q in c.rowSpace { ResidentBounded(c, q); }
  }

  ghost function PagesWith(disk: map<PageId, Page>, r: RowId): set<PageId> {
    set p | p in disk && r in disk[p].rows
  }

  /** Locations rebuilt by scanning every page of the file in page order, the last page winning. */
  ghost function Rebuilt(disk: map<PageId, Page>): map<RowId, PageId> {
    map r | r in (set p, x | p in disk && x in disk[p].rows :: x) && PagesWith(disk, r) != {} :: MaxOf(PagesWith(disk, r))
  }

  /** A new process: nothing resident; saved locations are used unless there are none. */
  ghost function Restarted(c: Cache): Cache {
    c.(rowSpace := map[], lru := map[], clock := 0, onDisk := c.disk.Keys,
       locations := if c.disk == map[] then map[] else if c.diskLocations == map[] then Rebuilt(c.disk) else c.diskLocations)
  }

  lemma RestartFinds(c: Cache, r: RowId)
    requires CacheOk(c) && c.locations != map[]
    ensures Find(Restarted(Flushed(c)), r) == Find(c, r) && Restarted(Flushed(c)).locations == c.locations
  {
    var r0 :| r0 in c.locations;
    assert RowInv(c, r0) && RowInv(c, r);
    assert c.locations[r0] in Flushed(c).disk;
  }

  /** Some row is located, or no page left in the file still holds rows. */
  predicate RestartSafe(c: Cache) {
    c.locations != map[] || forall p, r :: p in c.disk && p !in c.rowSpace ==> r !in c.disk[p].rows
  }

  /** Flushing and restarting keeps the rows of a table that has any, and of one that left none behind. */
  lemma RestartKeeps(c: Cache)
    requires CacheOk(c) && RestartSafe(c)
    ensures CacheOk(Restarted(Flushed(c))) && View(Restarted(Flushed(c))) == View(c) && AllMayLeave(Restarted(Flushed(c)))
  {
    if c.locations == map[] {
      EmptyRestartKeeps(c);
    } else {
      LocatedRestartKeeps(c);
    }
  }

  lemma EmptyRestartKeeps(c: Cache)
    requires CacheOk(c) && c.locations == map[] && RestartSafe(c)
    ensures CacheOk(Restarted(Flushed(c))) && View(Restarted(Flushed(c))) == View(c)
  {
    var d := Restarted(Flushed(c));
    forall r: RowId ensures r !in d.locations {
      EmptyRestartShows(c, r);
      RebuiltFinds(Flushed(c).disk, r);
    }
    assert d.locations == map[];
    forall q: PageId ensures PageInv(d, q) && DiskInv(d, q) { FlushedBounded(c, q); }
  }

  lemma LocatedRestartKeeps(c: Cache)
    requires CacheOk(c) && c.locations != map[]
    ensures CacheOk(Restarted(Flushed(c))) && View(Restarted(Flushed(c))) == View(c)
  {
    var f := Flushed(c);
    var d := Restarted(f);
    forall r: RowId ensures RowInv(d, r) && Find(d, r) == Find(c, r) {
      RestartFinds(c, r);
      assert RowInv(c, r);
    }
    forall q: PageId ensures PageInv(d, q) {
      RestartFinds(c, 0);
      assert PageInv(c, q);
    }
    forall q: PageId ensures DiskInv(d, q) { FlushedBounded(c, q); }
    RestartFinds(c, 0);
    SameView(c, d);
  }

  /** Locations rebuilt from a file name each row it holds, on a page that holds it. */
  lemma RebuiltFinds(disk: map<PageId, Page>, r: RowId)
    ensures r in Rebuilt(disk) <==> exists p :: p in disk && r in disk[p].rows
    ensures r in Rebuilt(disk) ==> Rebuilt(disk)[r] in disk && r in disk[Rebuilt(disk)[r]].rows
  {
    if p :| p in disk && r in disk[p].rows { assert p in PagesWith(disk, r); }
    if r in Rebuilt(disk) { assert MaxOf(PagesWith(disk, r)) in PagesWith(disk, r); }
  }

  /** With no saved locations, a restart shows every row the file holds. */
  lemma RebuiltShows(f: Cache, r: RowId)
    requires f.diskLocations == map[]
    ensures r in View(Restarted(f)) <==> exists p :: p in f.disk && r in f.disk[p].rows
  {
    RebuiltFinds(f.disk, r);
  }

  /** An emptied table comes back with the rows of every leftover page in its file. */
  lemma EmptyRestartShows(c: Cache, r: RowId)
    requires CacheOk(c) && c.locations == map[]
    ensures r in View(Restarted(Flushed(c))) <==> exists p :: p in c.disk && p !in c.rowSpace && r in c.disk[p].rows
  {
    RebuiltShows(Flushed(c), r);
    forall p | p in c.rowSpace ensures r !in c.rowSpace[p].rows { assert PageInv(c, p); }
    LeftoverRows(c, r);
  }

  lemma LeftoverRows(c: Cache, r: RowId)
    requires forall p :: p in c.rowSpace ==> r !in c.rowSpace[p].rows
    ensures (exists p :: p in Flushed(c).disk && r in Flushed(c).disk[p].rows)
      <==> exists p :: p in c.disk && p !in c.rowSpace && r in c.disk[p].rows
  {
    var disk := Flushed(c).disk;
    if p :| p in c.disk && p !in c.rowSpace && r in c.disk[p].rows { assert p in disk && disk[p] == c.disk[p]; }
    if p :| p in disk && r in disk[p].rows { assert p !in c.rowSpace; }
  }

  /**
   * Restarting preserves reads exactly when some row is located, or no page left in the file still
   * holds rows.
   */
  lemma RestartPreservesViewIff(c: Cache)
    requires CacheOk(c)
    ensures View(Restarted(Flushed(c))) == View(c) <==> RestartSafe(c)
  {
    if RestartSafe(c) {
      RestartKeeps(c);
    } else {
      assert View(c) == map[];
      var p, r :| p in c.disk && p !in c.rowSpace && r in c.disk[p].rows;
      EmptyRestartShows(c, r);
    }
  }

  // ---- Rolling back ---------------------------------------------------------------------------------

  /** Rollback walks the resident pages and does not mark them dirty. */
  ghost function RolledBack(c: Cache, t: TransactionId): Cache {
    c.(rowSpace := map p | p in c.rowSpace :: c.rowSpace[p].(rows := RollbackRows(c.rowSpace[p].rows, t)))
  }

  /** Row `r` in the view `v` before a rollback, in the view `a` after it, and as it should be, `b`. */
  predicate UndoneAt(a: map<RowId, Chain>, b: map<RowId, Chain>, v: map<RowId, Chain>, c: Cache, t: TransactionId, r: RowId) {
    && (r in a <==> r in v) && (r in b <==> r in v) && (r in v ==> r in c.locations)
    && (r in v ==> (a[r] == b[r] <==> c.locations[r] in c.rowSpace || RollbackChain(v[r], t) == v[r]))
  }

  lemma RolledBackRow(c: Cache, t: TransactionId, r: RowId)
    requires CacheOk(c)
    ensures UndoneAt(View(RolledBack(c, t)), RollbackRows(View(c), t), View(c), c, t, r)
  {
    assert RowInv(c, r);
  }

  lemma UndoneIff(a: map<RowId, Chain>, b: map<RowId, Chain>, v: map<RowId, Chain>, c: Cache, t: TransactionId)
    requires v.Keys <= c.locations.Keys && forall r: RowId :: UndoneAt(a, b, v, c, t, r)
    ensures a == b <==> forall r :: r in v && c.locations[r] !in c.rowSpace ==> RollbackChain(v[r], t) == v[r]
  {
    assert forall r :: r in v ==> UndoneAt(a, b, v, c, t, r);
    assert a.Keys == v.Keys by { forall r: RowId ensures r in a <==> r in v { assert UndoneAt(a, b, v, c, t, r); } }
    assert b.Keys == v.Keys by { forall r: RowId ensures r in b <==> r in v { assert UndoneAt(a, b, v, c, t, r); } }
    assert a == b <==> forall r :: r in v ==> a[r] == b[r];
  }

  /** `t` left nothing on evicted pages. */
  ghost predicate RollbackReaches(c: Cache, t: TransactionId) {
    forall r :: r in View(c) && c.locations[r] !in c.rowSpace ==> RollbackChain(View(c)[r], t) == View(c)[r]
  }

  /** Rolling back a table undoes `t` everywhere exactly when `t` left nothing on evicted pages. */
  lemma RollbackUndoesIff(c: Cache, t: TransactionId)
    requires CacheOk(c)
    ensures View(RolledBack(c, t)) == RollbackRows(View(c), t) <==> RollbackReaches(c, t)
  {
    forall r: RowId ensures UndoneAt(View(RolledBack(c, t)), RollbackRows(View(c), t), View(c), c, t, r) {
      RolledBackRow(c, t, r);
    }
    UndoneIff(View(RolledBack(c, t)), RollbackRows(View(c), t), View(c), c, t);
  }

  /** A page the rollback changes while its clean flag says the disk copy is current. */
  predicate GoesStale(c: Cache, t: TransactionId, p: PageId) {
    && p in c.rowSpace && !c.rowSpace[p].dirty && p in c.onDisk && Referenced(c.locations, p)
    && exists r :: r in c.rowSpace[p].rows && RollbackChain(c.rowSpace[p].rows[r], t) != c.rowSpace[p].rows[r]
  }

  /** Rollback keeps the cache sound, whatever it does to disk copies. */
  lemma RollbackKeeps(c: Cache, t: TransactionId)
    requires CacheOk(c)
    ensures CacheOk(RolledBack(c, t))
  {
    var d := RolledBack(c, t);
    forall r: RowId ensures RowInv(d, r) { assert RowInv(c, r); }
    forall p: PageId ensures PageInv(d, p) && DiskInv(d, p) { assert PageInv(c, p) && DiskInv(c, p); }
  }

  lemma RolledBackPage(c: Cache, t: TransactionId, p: PageId)
    requires CacheOk(c) && MayLeave(c, p)
    ensures MayLeave(RolledBack(c, t), p) <==> !GoesStale(c, t, p)
  {
    if p in c.rowSpace {
      var rows := c.rowSpace[p].rows;
      assert RollbackRows(rows, t) == rows <==> forall r :: r in rows ==> RollbackChain(rows[r], t) == rows[r];
    }
  }

  /** Every page may still leave after a rollback exactly when no clean saved page was changed by it. */
  lemma RollbackKeepsLeavingIff(c: Cache, t: TransactionId)
    requires CacheOk(c) && AllMayLeave(c)
    ensures AllMayLeave(RolledBack(c, t)) <==> forall p :: !GoesStale(c, t, p)
  {
    forall p: PageId ensures MayLeave(RolledBack(c, t), p) <==> !GoesStale(c, t, p) { RolledBackPage(c, t, p); }
  }

  /** Evicting a page after a rollback keeps the rows exactly when the rollback did not make it stale. */
  lemma EvictAfterRollbackIff(c: Cache, t: TransactionId, p: PageId)
    requires CacheOk(c) && AllMayLeave(c) && p in c.rowSpace
    ensures View(Evicted(RolledBack(c, t), p)) == View(RolledBack(c, t)) <==> !GoesStale(c, t, p)
  {
    var d := RolledBack(c, t);
    assert MayLeave(c, p) && PageInv(c, p);
    RolledBackPage(c, t, p);
    RollbackKeeps(c, t);
    if GoesStale(c, t, p) {
      var r :| r in c.rowSpace[p].rows && RollbackChain(c.rowSpace[p].rows[r], t) != c.rowSpace[p].rows[r];
      assert RowInv(d, r) && r in View(d) && View(d)[r] == RollbackChain(c.rowSpace[p].rows[r], t);
      assert Find(Evicted(d, p), r) == Some(c.rowSpace[p].rows[r]);
    } else {
      EvictKeeps(d, p);
    }
  }

  // ---- Vacuum ---------------------------------------------------------------------------------------

  /** The chain of row `r` on its resident page; empty if there is none. */
  function HeldRow(c: Cache, r: RowId): Chain {
    if r in c.locations && c.locations[r] in c.rowSpace && r in c.rowSpace[c.locations[r]].rows
    then c.rowSpace[c.locations[r]].rows[r] else []
  }

  /** The rows that repacking drains: those with versions on resident pages. */
  ghost function ResidentRows(c: Cache): map<RowId, Chain> {
    map r | r in c.locations && HeldRow(c, r) != [] :: HeldRow(c, r)
  }

  /** Rows in row order, with their sizes. */
  ghost function LiveOf(rows: map<RowId, Chain>, rowSize: Chain -> nat): (live: seq<Live>)
    ensures |live| == |Sorted(rows.Keys)|
    ensures forall i :: 0 <= i < |live| ==>
      live[i].id == Sorted(rows.Keys)[i] && live[i].id in rows && live[i].row == rows[live[i].id] && live[i].size == rowSize(live[i].row)
  {
    var ids := Sorted(rows.Keys);
    assert forall i :: 0 <= i < |ids| ==> ids[i] in ids;
    seq(|ids|, i requires 0 <= i < |ids| => Live(ids[i], rows[ids[i]], rowSize(rows[ids[i]])))
  }

  /** Versions pruned on resident pages, rows left without any dropped; the dirty flags stay. */
  ghost function VersionsPruned(c: Cache, oldest: TransactionId): Cache {
    c.(rowSpace := map p | p in c.rowSpace :: c.rowSpace[p].(rows := PruneRows(c.rowSpace[p].rows, oldest)))
  }

  /** Page `k` at position `k`. */
  function SpaceOf(pages: seq<Page>): map<PageId, Page> { map k: PageId | 0 <= k < |pages| :: pages[k] }

  /** Page `k` used at moment `k`. */
  function LruOf(pages: map<PageId, Page>): map<PageId, nat> { map k | k in pages :: k }

  /** The cache after its rows were repacked; the file still holds the old pages. */
  ghost function Repacked(c: Cache, packed: Packing): Cache {
    c.(rowSpace := SpaceOf(packed.pages),
       locations := packed.locations,
       onDisk := {},
       lru := LruOf(SpaceOf(packed.pages)),
       clock := |packed.pages|,
       nextPage := |packed.pages|)
  }

  /** The cache with exactly the given rows, repacked. */
  ghost function PackRows(c: Cache, rows: map<RowId, Chain>, rowSize: Chain -> nat): Cache
    requires c.pageSize >= 1
  {
    Repacked(c, Pack(LiveOf(rows, rowSize), c.pageSize))
  }

  /** Prune versions on resident pages and repack what is left. */
  ghost function Vacuumed(c: Cache, oldest: TransactionId, rowSize: Chain -> nat): Cache
    requires c.pageSize >= 1
  {
    PackRows(c, ResidentRows(VersionsPruned(c, oldest)), rowSize)
  }

  lemma RepackedOk(c: Cache, packed: Packing)
    requires c.pageSize >= 1 && Exact(packed) && forall p: PageId :: DiskInv(c, p)
    requires forall k :: 0 <= k < |packed.pages| ==> packed.pages[k].capacity == c.pageSize
    requires forall r :: r in packed.locations ==> r <= c.nextRow
    ensures CacheOk(Repacked(c, packed)) && AllResident(Repacked(c, packed))
    ensures forall r :: r in packed.locations ==> Find(Repacked(c, packed), r) == Get(packed.pages[packed.locations[r]].rows, r)
  {
    var d := Repacked(c, packed);
    forall r: RowId ensures RowInv(d, r) { RepackedRow(c, packed, r); }
    forall r | r in packed.locations ensures Find(d, r) == Get(packed.pages[packed.locations[r]].rows, r) { RepackedRow(c, packed, r); }
    forall p: PageId ensures PageInv(d, p) && DiskInv(d, p) { RepackedPage(c, packed, p); }
  }

  lemma RepackedPage(c: Cache, packed: Packing, p: PageId)
    requires Exact(packed) && DiskInv(c, p)
    requires forall k :: 0 <= k < |packed.pages| ==> packed.pages[k].capacity == c.pageSize
    ensures PageInv(Repacked(c, packed), p) && DiskInv(Repacked(c, packed), p)
  {
    if p >= |packed.pages| { assert !Referenced(packed.locations, p); }
  }

  lemma RepackedRow(c: Cache, packed: Packing, r: RowId)
    requires Exact(packed) && (r in packed.locations ==> r <= c.nextRow)
    ensures RowInv(Repacked(c, packed), r)
    ensures r in packed.locations ==>
      packed.locations[r] < |packed.pages| && Find(Repacked(c, packed), r) == Get(packed.pages[packed.locations[r]].rows, r)
  {
  }

  lemma LiveIncreases(rows: map<RowId, Chain>, rowSize: Chain -> nat)
    requires forall row :: rowSize(row) > 0
    ensures Increasing(LiveOf(rows, rowSize))
  {
  }

  lemma RowIsLive(rows: map<RowId, Chain>, rowSize: Chain -> nat, r: RowId) returns (i: nat)
    requires r in rows
    ensures i < |LiveOf(rows, rowSize)| && LiveOf(rows, rowSize)[i].id == r
  {
    var ids := Sorted(rows.Keys);
    assert r in ids;
    i :| 0 <= i < |ids| && ids[i] == r;
  }

  /** Row `r` in a packing of `live`: with its own chain on the page its location names. */
  predicate PackedRow(packed: Packing, live: seq<Live>, r: RowId) {
    r in packed.locations ==>
      && packed.locations[r] < |packed.pages|
      && exists i :: 0 <= i < |live| && live[i].id == r && Get(packed.pages[packed.locations[r]].rows, r) == Some(live[i].row)
  }

  lemma PackedRowHolds(live: seq<Live>, pageSize: nat, r: RowId)
    requires pageSize >= 1 && Increasing(live)
    ensures PackedRow(Pack(live, pageSize), live, r)
  {
    PackIsExact(live, pageSize);
    var packed := Pack(live, pageSize);
    if r in packed.locations {
      var i :| 0 <= i < |live| && live[i].id == r;
      assert Get(packed.pages[packed.locations[live[i].id]].rows, live[i].id) == Some(live[i].row);
    }
  }

  lemma LiveIsLocated(live: seq<Live>, pageSize: nat, i: nat)
    requires pageSize >= 1 && Increasing(live) && i < |live|
    ensures live[i].id in Pack(live, pageSize).locations
  {
    PackIsExact(live, pageSize);
  }

  /** Row `r` of the cache `d`, if the rows are to be `rows`. */
  ghost predicate ShowsRow(d: Cache, rows: map<RowId, Chain>, r: RowId) {
    (r in d.locations <==> r in rows) && (r in rows ==> Find(d, r) == Some(rows[r]))
  }

  lemma ViewIs(d: Cache, rows: map<RowId, Chain>)
    requires forall r: RowId :: ShowsRow(d, rows, r)
    ensures View(d) == rows
  {
    forall r: RowId ensures r in View(d) <==> r in rows { assert ShowsRow(d, rows, r); }
    assert View(d).Keys == rows.Keys;
    forall r | r in rows ensures View(d)[r] == rows[r] { assert ShowsRow(d, rows, r); }
  }

  /** Row `r` after repacking the sequence `live`. */
  lemma RepackedFinds(c: Cache, live: seq<Live>, r: RowId)
    requires c.pageSize >= 1 && Increasing(live)
    ensures var d := Repacked(c, Pack(live, c.pageSize));
      r in d.locations ==> exists i :: 0 <= i < |live| && live[i].id == r && Find(d, r) == Some(live[i].row)
  {
    PackedRowHolds(live, c.pageSize, r);
  }

  /** Row `r` after repacking. */
  lemma PackedFinds(c: Cache, rows: map<RowId, Chain>, rowSize: Chain -> nat, r: RowId)
    requires c.pageSize >= 1 && forall row :: rowSize(row) > 0
    ensures ShowsRow(PackRows(c, rows, rowSize), rows, r)
  {
    LiveIncreases(rows, rowSize);
    RepackedFinds(c, LiveOf(rows, rowSize), r);
    if r in rows {
      var i := RowIsLive(rows, rowSize, r);
      LiveIsLocated(LiveOf(rows, rowSize), c.pageSize, i);
    }
  }

  /** A repacked table shows exactly the rows packed; it is sound, fully resident and in id order along its pages. */
  lemma PackRowsShows(c: Cache, rows: map<RowId, Chain>, rowSize: Chain -> nat)
    requires c.pageSize >= 1 && (forall row :: rowSize(row) > 0) && forall p: PageId :: DiskInv(c, p)
    requires forall r :: r in rows ==> r <= c.nextRow
    ensures var d := PackRows(c, rows, rowSize);
      CacheOk(d) && AllResident(d) && AllMayLeave(d) && Monotone(d.locations) && View(d) == rows
  {
    var live := LiveOf(rows, rowSize);
    var d := PackRows(c, rows, rowSize);
    forall r: RowId ensures ShowsRow(d, rows, r) { PackedFinds(c, rows, rowSize, r); }
    ViewIs(d, rows);
    assert forall r :: r in d.locations ==> ShowsRow(d, rows, r);
    LiveIncreases(rows, rowSize);
    PackIsExact(live, c.pageSize);
    PackCapacity(live, c.pageSize);
    RepackedOk(c, Pack(live, c.pageSize));
  }

  lemma PrunedHeldRow(c: Cache, oldest: TransactionId, r: RowId)
    ensures HeldRow(VersionsPruned(c, oldest), r) == PruneChain(HeldRow(c, r), oldest)
  {
  }

  /** A vacuumed table is sound, fully resident, in id order along its pages, and shows what was pruned on resident pages. */
  lemma VacuumKeepsCache(c: Cache, oldest: TransactionId, rowSize: Chain -> nat)
    requires CacheOk(c) && forall row :: rowSize(row) > 0
    ensures var d := Vacuumed(c, oldest, rowSize);
      && CacheOk(d) && AllResident(d) && AllMayLeave(d) && Monotone(d.locations)
      && View(d) == ResidentRows(VersionsPruned(c, oldest))
  {
    var rows := ResidentRows(VersionsPruned(c, oldest));
    forall r | r in rows ensures r <= c.nextRow { assert RowInv(c, r); }
    PackRowsShows(c, rows, rowSize);
  }

  lemma {:induction false} PackCapacity(live: seq<Live>, pageSize: nat)
    requires pageSize >= 1
    ensures forall k :: 0 <= k < |Pack(live, pageSize).pages| ==> Pack(live, pageSize).pages[k].capacity == pageSize
    decreases |live|
  {
    if live != [] { PackCapacity(live[..|live| - 1], pageSize); }
  }

  /** Row ids and the pages they are on grow together. */
  predicate Monotone(locations: map<RowId, PageId>) {
    forall a, b :: a in locations && b in locations && a <= b ==> locations[a] <= locations[b]
  }

  /** Row `r` in the view `v` before vacuum, in the view `a` after it, and as it should be, `b`. */
  predicate PrunedAt(a: map<RowId, Chain>, b: map<RowId, Chain>, v: map<RowId, Chain>, c: Cache, oldest: TransactionId, r: RowId) {
    && (r in v ==> r in c.locations)
    && (r in b <==> r in v && PruneChain(v[r], oldest) != [])
    && (r in a <==> r in b && c.locations[r] in c.rowSpace)
    && (r in a ==> a[r] == b[r])
  }

  lemma VacuumedRow(c: Cache, oldest: TransactionId, r: RowId)
    requires CacheOk(c)
    ensures PrunedAt(ResidentRows(VersionsPruned(c, oldest)), PruneRows(View(c), oldest), View(c), c, oldest, r)
  {
    assert RowInv(c, r);
    PrunedHeldRow(c, oldest, r);
  }

  lemma PrunedIff(a: map<RowId, Chain>, b: map<RowId, Chain>, v: map<RowId, Chain>, c: Cache, oldest: TransactionId)
    requires v.Keys <= c.locations.Keys && forall r: RowId :: PrunedAt(a, b, v, c, oldest, r)
    ensures a == b <==> forall r :: r in v && PruneChain(v[r], oldest) != [] ==> c.locations[r] in c.rowSpace
  {
    if forall r :: r in v && PruneChain(v[r], oldest) != [] ==> c.locations[r] in c.rowSpace {
      forall r: RowId ensures r in a <==> r in b { assert PrunedAt(a, b, v, c, oldest, r); }
      assert a.Keys == b.Keys;
      forall r | r in a ensures a[r] == b[r] { assert PrunedAt(a, b, v, c, oldest, r); }
    } else {
      var r :| r in v && PruneChain(v[r], oldest) != [] && c.locations[r] !in c.rowSpace;
      assert PrunedAt(a, b, v, c, oldest, r);
    }
  }

  /** Every row that keeps a version is on a resident page. */
  ghost predicate VacuumReaches(c: Cache, oldest: TransactionId) {
    forall r :: r in View(c) && PruneChain(View(c)[r], oldest) != [] ==> c.locations[r] in c.rowSpace
  }

  /**
   * Vacuum does to the table what pruning does to its rows exactly when every row that keeps a
   * version is on a resident page; otherwise it only loses rows, and never alters one.
   */
  lemma VacuumPrunesIff(c: Cache, oldest: TransactionId, rowSize: Chain -> nat)
    requires CacheOk(c) && forall row :: rowSize(row) > 0
    ensures View(Vacuumed(c, oldest, rowSize)) == PruneRows(View(c), oldest) <==> VacuumReaches(c, oldest)
    ensures forall r :: r in View(Vacuumed(c, oldest, rowSize)) ==>
      r in PruneRows(View(c), oldest) && View(Vacuumed(c, oldest, rowSize))[r] == PruneRows(View(c), oldest)[r]
  {
    VacuumKeepsCache(c, oldest, rowSize);
    ResidentPrunesIff(c, oldest);
  }

  lemma ResidentPrunesIff(c: Cache, oldest: TransactionId)
    requires CacheOk(c)
    ensures var rows, pruned := ResidentRows(VersionsPruned(c, oldest)), PruneRows(View(c), oldest);
      && (rows == pruned <==> VacuumReaches(c, oldest))
      && forall r :: r in rows ==> r in pruned && rows[r] == pruned[r]
  {
    var rows := ResidentRows(VersionsPruned(c, oldest));
    forall r: RowId ensures PrunedAt(rows, PruneRows(View(c), oldest), View(c), c, oldest, r) { VacuumedRow(c, oldest, r); }
    PrunedIff(rows, PruneRows(View(c), oldest), View(c), c, oldest);
    assert forall r :: r in rows ==> PrunedAt(rows, PruneRows(View(c), oldest), View(c), c, oldest, r);
  }
}
