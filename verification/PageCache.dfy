/**
 * A table's page cache as a value (`table.rs`): resident pages, the page file behind them, and row
 * locations. It stands for a plain map of rows, and every cache operation is judged by that map.
 */
module PageCache {
  import opened Prelude
  import opened Values
  import opened Transactions
  import opened Rows
  import opened Pages
  import opened MvccStore

  datatype Cache = Cache(
    rowSpace: map<PageId, Page>,
    locations: map<RowId, PageId>,
    disk: map<PageId, Page>,
    diskLocations: map<RowId, PageId>,
    onDisk: set<PageId>,
    lru: map<PageId, nat>,
    clock: nat,
    nextPage: PageId,
    nextRow: RowId,
    pageSize: nat)

  /** A table without rows, pages or file. */
  function EmptyCache(pageSize: nat): Cache {
    Cache(map[], map[], map[], map[], {}, map[], 0, 0, 0, pageSize)
  }

  lemma EmptyCacheOk(pageSize: nat)
    requires pageSize >= 1
    ensures CacheOk(EmptyCache(pageSize)) && AllMayLeave(EmptyCache(pageSize)) && View(EmptyCache(pageSize)) == map[]
  {
    var c := EmptyCache(pageSize);
    forall r: RowId ensures RowInv(c, r) {}
    forall p: PageId ensures PageInv(c, p) && DiskInv(c, p) {}
  }

  /** The copy of a page that counts: the resident one, or else the one in the file. */
  function Copy(c: Cache, p: PageId): Option<Page> {
    if p in c.rowSpace then Some(c.rowSpace[p]) else Get(c.disk, p)
  }

  /** What reading row `r` through its location finds. */
  function Find(c: Cache, r: RowId): Option<Chain> {
    if r !in c.locations then None
    else match Copy(c, c.locations[r]) case None => None case Some(page) => Get(page.rows, r)
  }

  /** The plain map of rows the table stands for. */
  ghost function View(c: Cache): map<RowId, Chain> {
    map r | r in c.locations && Find(c, r).Some? :: Find(c, r).value
  }

  predicate Referenced(locations: map<RowId, PageId>, p: PageId) {
    exists r :: r in locations && locations[r] == p
  }

  /** A page stored under its own id, holding only rows located on it. */
  predicate PageFits(locations: map<RowId, PageId>, pageSize: nat, p: PageId, page: Page) {
    && page.id == p && page.capacity == pageSize && PageOk(page)
    && forall r :: r in page.rows ==> r in locations && locations[r] == p
  }

  /** Equal up to the dirty flag. */
  predicate SamePage(a: Page, b: Page) { a.(dirty := b.dirty) == b }

  /** A row with a location is found there. */
  predicate RowInv(c: Cache, r: RowId) {
    r in c.locations ==> r <= c.nextRow && c.locations[r] < c.nextPage && Find(c, r).Some?
  }

  /** The copy of a page that counts holds only rows located on it. */
  predicate PageInv(c: Cache, p: PageId) {
    if p in c.rowSpace then
      p < c.nextPage && PageFits(c.locations, c.pageSize, p, c.rowSpace[p])
    else
      Referenced(c.locations, p) ==> p in c.disk && PageFits(c.locations, c.pageSize, p, c.disk[p])
  }

  /** A clean resident page that holds rows and is known to be on disk equals its disk copy: it may leave. */
  predicate MayLeave(c: Cache, p: PageId) {
    p in c.rowSpace && !c.rowSpace[p].dirty && p in c.onDisk && Referenced(c.locations, p) ==>
      p in c.disk && SamePage(c.disk[p], c.rowSpace[p])
  }

  ghost predicate AllMayLeave(c: Cache) { forall p: PageId :: MayLeave(c, p) }

  /** Even a leftover page of the file holds no row beyond the last row id. */
  predicate DiskInv(c: Cache, p: PageId) {
    p in c.disk ==> forall r :: r in c.disk[p].rows ==> r <= c.nextRow
  }

  /** The LRU map tracks exactly the resident pages, each with its own moment. */
  ghost predicate Tracked(c: Cache) {
    && c.lru.Keys == c.rowSpace.Keys
    && (forall p :: p in c.lru ==> c.lru[p] < c.clock)
    && (forall p: PageId, q: PageId :: OwnMoment(c.lru, p, q))
  }

  predicate OwnMoment(lru: map<PageId, nat>, p: PageId, q: PageId) {
    p in lru && q in lru && lru[p] == lru[q] ==> p == q
  }

  ghost predicate CacheOk(c: Cache) {
    && c.pageSize >= 1 && Tracked(c)
    && (forall r: RowId :: RowInv(c, r))
    && (forall p: PageId :: PageInv(c, p))
    && (forall p: PageId :: DiskInv(c, p))
  }

  /** A resident page holds no row beyond the last row id. */
  lemma ResidentBounded(c: Cache, p: PageId)
    requires CacheOk(c) && p in c.rowSpace
    ensures forall r :: r in c.rowSpace[p].rows ==> r <= c.nextRow
  {
    assert PageInv(c, p);
    forall r | r in c.rowSpace[p].rows ensures r <= c.nextRow { assert RowInv(c, r); }
  }

  lemma SameView(c: Cache, d: Cache)
    requires c.locations == d.locations && forall r :: r in c.locations ==> Find(c, r) == Find(d, r)
    ensures View(c) == View(d)
  {
  }

  lemma ViewWritten(c: Cache, d: Cache, r: RowId, row: Chain)
    requires d.locations.Keys == c.locations.Keys + {r}
    requires forall x: RowId :: x in d.locations ==> Find(d, x) == if x == r then Some(row) else Find(c, x)
    ensures View(d) == View(c)[r := row]
  {
    assert View(d).Keys == View(c).Keys + {r} by {
      forall x: RowId ensures x in View(d) <==> x in View(c) || x == r {}
    }
  }

  // ---- Touching, evicting, loading ------------------------------------------------------------------

  function Touched(c: Cache, p: PageId): Cache {
    c.(lru := c.lru[p := c.clock], clock := c.clock + 1)
  }

  /** A dirty page, or one not known to be on disk, is written before it leaves. */
  function Evicted(c: Cache, p: PageId): Cache
    requires p in c.rowSpace
  {
    var page := c.rowSpace[p];
    var out := c.(rowSpace := c.rowSpace - {p}, lru := c.lru - {p});
    if page.dirty || p !in c.onDisk
    then out.(disk := c.disk[p := page], onDisk := c.onDisk + {p}, diskLocations := c.locations)
    else out
  }

  function Loaded(c: Cache, p: PageId): Cache
    requires p in c.disk
  {
    Touched(c.(rowSpace := c.rowSpace[p := c.disk[p]]), p)
  }

  lemma TouchTracks(c: Cache, space: map<PageId, Page>, p: PageId)
    requires Tracked(c) && space.Keys == c.rowSpace.Keys + {p}
    ensures Tracked(Touched(c.(rowSpace := space), p))
  {
    var lru := c.lru[p := c.clock];
    forall a: PageId, b: PageId ensures OwnMoment(lru, a, b) { assert OwnMoment(c.lru, a, b); }
  }

  lemma EvictTracks(c: Cache, p: PageId)
    requires Tracked(c) && p in c.rowSpace
    ensures Tracked(Evicted(c, p))
  {
    forall a: PageId, b: PageId ensures OwnMoment(c.lru - {p}, a, b) { assert OwnMoment(c.lru, a, b); }
  }

  lemma TouchKeeps(c: Cache, p: PageId)
    requires CacheOk(c) && p in c.rowSpace
    ensures CacheOk(Touched(c, p)) && View(Touched(c, p)) == View(c) && (AllMayLeave(c) ==> AllMayLeave(Touched(c, p)))
  {
    var d := Touched(c, p);
    TouchTracks(c, c.rowSpace, p);
    forall r: RowId ensures RowInv(d, r) && Find(d, r) == Find(c, r) { assert RowInv(c, r); }
    forall q: PageId ensures PageInv(d, q) && DiskInv(d, q) { assert PageInv(c, q) && DiskInv(c, q); }
    forall q: PageId ensures MayLeave(c, q) ==> MayLeave(d, q) {}
    SameView(c, d);
  }

  lemma EvictKeeps(c: Cache, p: PageId)
    requires CacheOk(c) && p in c.rowSpace && MayLeave(c, p)
    ensures CacheOk(Evicted(c, p)) && View(Evicted(c, p)) == View(c) && (AllMayLeave(c) ==> AllMayLeave(Evicted(c, p)))
  {
    var d := Evicted(c, p);
    EvictTracks(c, p);
    ResidentBounded(c, p);
    forall r: RowId ensures RowInv(d, r) && Find(d, r) == Find(c, r) { EvictedRow(c, p, r); }
    forall q: PageId ensures PageInv(d, q) && DiskInv(d, q) { assert PageInv(c, q) && DiskInv(c, q); }
    forall q: PageId ensures MayLeave(c, q) ==> MayLeave(d, q) {}
    SameView(c, d);
  }

  lemma EvictedRow(c: Cache, p: PageId, r: RowId)
    requires CacheOk(c) && p in c.rowSpace && MayLeave(c, p)
    ensures RowInv(Evicted(c, p), r) && Find(Evicted(c, p), r) == Find(c, r)
  {
    assert PageInv(c, p) && RowInv(c, r);
    if r in c.locations && c.locations[r] == p { assert Referenced(c.locations, p); }
  }

  lemma LoadKeeps(c: Cache, p: PageId)
    requires CacheOk(c) && Referenced(c.locations, p) && p !in c.rowSpace
    ensures p in c.disk && CacheOk(Loaded(c, p)) && View(Loaded(c, p)) == View(c) && (AllMayLeave(c) ==> AllMayLeave(Loaded(c, p)))
  {
    assert PageInv(c, p);
    var d := Loaded(c, p);
    TouchTracks(c, c.rowSpace[p := c.disk[p]], p);
    var r0 :| r0 in c.locations && c.locations[r0] == p;
    assert RowInv(c, r0);
    forall r: RowId ensures RowInv(d, r) && Find(d, r) == Find(c, r) { assert RowInv(c, r); }
    forall q: PageId ensures PageInv(d, q) && DiskInv(d, q) { assert PageInv(c, q) && DiskInv(c, q); }
    forall q: PageId ensures MayLeave(c, q) ==> MayLeave(d, q) {}
    SameView(c, d);
  }

  // ---- Writing rows ---------------------------------------------------------------------------------

  /** A fresh empty page at the next id, most recently used. */
  function Registered(c: Cache): Cache {
    Touched(c.(rowSpace := c.rowSpace[c.nextPage := NewPage(c.nextPage, c.pageSize)], nextPage := c.nextPage + 1), c.nextPage)
  }

  /** The new row `r` on resident page `p`. */
  function Placed(c: Cache, p: PageId, r: RowId, row: Chain, size: nat): Cache
    requires p in c.rowSpace
  {
    c.(rowSpace := c.rowSpace[p := Append(c.rowSpace[p], r, row, size)], locations := c.locations[r := p], nextRow := r)
  }

  /** An existing row changed on its resident page. */
  function Rewritten(c: Cache, r: RowId, row: Chain): Cache
    requires r in c.locations && c.locations[r] in c.rowSpace
  {
    var p := c.locations[r];
    c.(rowSpace := c.rowSpace[p := c.rowSpace[p].(rows := c.rowSpace[p].rows[r := row], dirty := true)])
  }

  lemma RegisterKeeps(c: Cache)
    requires CacheOk(c)
    ensures CacheOk(Registered(c)) && View(Registered(c)) == View(c) && !Referenced(c.locations, c.nextPage)
    ensures AllMayLeave(c) ==> AllMayLeave(Registered(c))
  {
    var d := Registered(c);
    TouchTracks(c, c.rowSpace[c.nextPage := NewPage(c.nextPage, c.pageSize)], c.nextPage);
    forall r | r in c.locations ensures c.locations[r] != c.nextPage { assert RowInv(c, r); }
    assert PageInv(c, c.nextPage);
    forall r: RowId ensures RowInv(d, r) && Find(d, r) == Find(c, r) { assert RowInv(c, r); }
    forall q: PageId ensures PageInv(d, q) && DiskInv(d, q) { assert PageInv(c, q) && DiskInv(c, q); }
    forall q: PageId ensures MayLeave(c, q) ==> MayLeave(d, q) {}
    SameView(c, d);
  }

  lemma PlaceKeeps(c: Cache, p: PageId, r: RowId, row: Chain, size: nat)
    requires CacheOk(c) && p in c.rowSpace && r > c.nextRow && size > 0
    requires HasRoom(c.rowSpace[p], size) || (c.rowSpace[p].rows == map[] && !c.rowSpace[p].overflow)
    ensures CacheOk(Placed(c, p, r, row, size))
    ensures View(Placed(c, p, r, row, size)) == View(c)[r := row]
    ensures AllMayLeave(c) ==> AllMayLeave(Placed(c, p, r, row, size))
  {
    var d := Placed(c, p, r, row, size);
    forall x: RowId ensures RowInv(d, x) && Find(d, x) == if x == r then Some(row) else Find(c, x) {
      PlacedRow(c, p, r, row, size, x);
    }
    ViewWritten(c, d, r, row);
    forall q: PageId ensures PageInv(d, q) && DiskInv(d, q) {
      PlacedPage(c, p, r, row, size, q);
      assert DiskInv(c, q);
    }
    forall q: PageId ensures MayLeave(c, q) ==> MayLeave(d, q) { PlacedPage(c, p, r, row, size, q); }
  }

  lemma PlacedRow(c: Cache, p: PageId, r: RowId, row: Chain, size: nat, x: RowId)
    requires CacheOk(c) && p in c.rowSpace && r > c.nextRow
    ensures var d := Placed(c, p, r, row, size);
      RowInv(d, x) && Find(d, x) == if x == r then Some(row) else Find(c, x)
  {
    assert RowInv(c, x) && RowInv(c, r) && PageInv(c, p);
  }

  lemma PlacedPage(c: Cache, p: PageId, r: RowId, row: Chain, size: nat, q: PageId)
    requires CacheOk(c) && p in c.rowSpace && r > c.nextRow && size > 0
    requires HasRoom(c.rowSpace[p], size) || (c.rowSpace[p].rows == map[] && !c.rowSpace[p].overflow)
    ensures PageInv(Placed(c, p, r, row, size), q) && (MayLeave(c, q) ==> MayLeave(Placed(c, p, r, row, size), q))
  {
    assert RowInv(c, r) && PageInv(c, q);
    if q == p {
      AppendFits(c.locations, c.pageSize, c.rowSpace[p], r, row, size);
    } else {
      ReferencedElsewhere(c.locations, r, p, q);
      if q in c.rowSpace {
        FitsElsewhere(c.locations, r, p, q, c.pageSize, c.rowSpace[q]);
      } else if Referenced(c.locations, q) {
        FitsElsewhere(c.locations, r, p, q, c.pageSize, c.disk[q]);
      }
    }
  }

  lemma AppendFits(locations: map<RowId, PageId>, pageSize: nat, page: Page, r: RowId, row: Chain, size: nat)
    requires PageFits(locations, pageSize, page.id, page) && r !in locations && size > 0
    requires HasRoom(page, size) || (page.rows == map[] && !page.overflow)
    ensures PageFits(locations[r := page.id], pageSize, page.id, Append(page, r, row, size))
  {
  }

  /** Locating a new row on `p` does not change which other pages are referenced. */
  lemma ReferencedElsewhere(locations: map<RowId, PageId>, r: RowId, p: PageId, q: PageId)
    requires r !in locations && q != p
    ensures Referenced(locations[r := p], q) <==> Referenced(locations, q)
  {
    if Referenced(locations, q) {
      var x :| x in locations && locations[x] == q;
      assert x in locations[r := p] && locations[r := p][x] == q;
    }
  }

  /** Nor what fits them. */
  lemma FitsElsewhere(locations: map<RowId, PageId>, r: RowId, p: PageId, q: PageId, pageSize: nat, page: Page)
    requires r !in locations && PageFits(locations, pageSize, q, page)
    ensures PageFits(locations[r := p], pageSize, q, page)
  {
  }

  lemma RewriteKeeps(c: Cache, r: RowId, row: Chain)
    requires CacheOk(c) && r in c.locations && c.locations[r] in c.rowSpace
    ensures CacheOk(Rewritten(c, r, row)) && View(Rewritten(c, r, row)) == View(c)[r := row]
    ensures AllMayLeave(c) ==> AllMayLeave(Rewritten(c, r, row))
  {
    var d := Rewritten(c, r, row);
    assert RowInv(c, r);
    forall x: RowId ensures RowInv(d, x) && Find(d, x) == if x == r then Some(row) else Find(c, x) { assert RowInv(c, x); }
    ViewWritten(c, d, r, row);
    forall q: PageId ensures PageInv(d, q) && DiskInv(d, q) { assert PageInv(c, q) && DiskInv(c, q); }
    forall q: PageId ensures MayLeave(c, q) ==> MayLeave(d, q) {}
  }

  /** A resident page relabelled in place, its rows kept; used to reserve and link continuations. */
  function Relabelled(c: Cache, p: PageId, page: Page): Cache {
    c.(rowSpace := c.rowSpace[p := page])
  }

  /** A fresh page made a continuation. */
  function Reserved(c: Cache, p: PageId): Cache
    requires p in c.rowSpace
  {
    Relabelled(c, p, c.rowSpace[p].(overflow := true, used := c.rowSpace[p].capacity, dirty := true))
  }

  /** A page linked to the next one of its chain; the dirty flag is not touched. */
  function Linked(c: Cache, p: PageId, next: PageId): Cache
    requires p in c.rowSpace
  {
    Relabelled(c, p, c.rowSpace[p].(next := Some(next)))
  }

  lemma RelabelKeeps(c: Cache, p: PageId, page: Page)
    requires CacheOk(c) && p in c.rowSpace && page.rows == c.rowSpace[p].rows && page.dirty && PageOk(page)
    requires page.id == c.rowSpace[p].id && page.capacity == c.rowSpace[p].capacity
    ensures CacheOk(Relabelled(c, p, page)) && View(Relabelled(c, p, page)) == View(c)
    ensures AllMayLeave(c) ==> AllMayLeave(Relabelled(c, p, page))
  {
    var d := Relabelled(c, p, page);
    forall r: RowId ensures RowInv(d, r) && Find(d, r) == Find(c, r) { assert RowInv(c, r); }
    forall q: PageId ensures PageInv(d, q) && DiskInv(d, q) { assert PageInv(c, q) && DiskInv(c, q); }
    forall q: PageId ensures MayLeave(c, q) ==> MayLeave(d, q) {}
    SameView(c, d);
  }

  /** The new row `r` located on a page that does not hold it. */
  function Misplaced(c: Cache, p: PageId, r: RowId): Cache {
    c.(locations := c.locations[r := p], nextRow := r)
  }

  /** A row located on a page that left before the row was put on it cannot be found. */
  lemma MisplacedIsLost(c: Cache, p: PageId, r: RowId)
    requires CacheOk(c) && p !in c.rowSpace && r > c.nextRow
    ensures View(Misplaced(c, p, r)) == View(c) && Find(Misplaced(c, p, r), r) == None
  {
    var d := Misplaced(c, p, r);
    assert DiskInv(c, p) && RowInv(c, r);
    assert Find(d, r) == None;
    forall x | x in c.locations ensures Find(d, x) == Find(c, x) {}
    assert View(d).Keys == View(c).Keys;
  }

  lemma ReserveKeeps(c: Cache, p: PageId)
    requires CacheOk(c) && p in c.rowSpace && c.rowSpace[p].rows == map[]
    ensures CacheOk(Reserved(c, p)) && View(Reserved(c, p)) == View(c) && (AllMayLeave(c) ==> AllMayLeave(Reserved(c, p)))
  {
    RelabelKeeps(c, p, c.rowSpace[p].(overflow := true, used := c.rowSpace[p].capacity, dirty := true));
  }

  lemma LinkKeeps(c: Cache, p: PageId, next: PageId)
    requires CacheOk(c) && p in c.rowSpace && c.rowSpace[p].dirty
    ensures CacheOk(Linked(c, p, next)) && View(Linked(c, p, next)) == View(c) && (AllMayLeave(c) ==> AllMayLeave(Linked(c, p, next)))
  {
    assert PageInv(c, p);
    RelabelKeeps(c, p, c.rowSpace[p].(next := Some(next)));
  }
}
