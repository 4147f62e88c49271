/**
 * A table's pages, cache and row locations, changed in place (`table.rs`). Every operation is tied
 * to a function on `Cache` or to the plain map of rows that the cache stands for.
 */
module PagedTable {
  import opened Prelude
  import opened Values
  import opened Transactions
  import opened Rows
  import opened Pages
  import opened Compaction
  import opened MvccStore
  import opened PageCache
  import opened TableMaintenance
  import opened CacheRuns
  import opened Eviction
  import opened Vacuum
  import DatabaseLifecycle

  datatype TableError = RowNotFound(row: RowId)

  /** Whether the last resident page takes a row of `size` bytes. */
  ghost predicate TailHasRoom(c: Cache, size: nat) {
    c.rowSpace != map[] && HasRoom(c.rowSpace[MaxOf(c.rowSpace.Keys)], size)
  }

  /** Whether a page opened now is still resident when it has been registered. */
  ghost predicate OpensPage(c: Cache, used: nat, limit: nat, pageBytes: Page -> nat)
    requires Tracked(c)
  {
    Spares(Registered(c), (used + pageBytes(NewPage(c.nextPage, c.pageSize))) % TWO64, limit, pageBytes, c.nextPage)
  }

  /** What registering a page and then evicting leaves of the resident pages. */
  lemma RegisteredLeft(c: Cache, now: Cache)
    requires Without(Registered(c), now)
    ensures c.nextPage in now.rowSpace ==> now.rowSpace[c.nextPage] == NewPage(c.nextPage, c.pageSize)
    ensures forall q :: q in now.rowSpace && q != c.nextPage ==> q in c.rowSpace && now.rowSpace[q] == c.rowSpace[q]
    ensures now.nextPage == c.nextPage + 1 && now.locations == c.locations && now.nextRow == c.nextRow
    ensures now == Registered(c) ==> now.rowSpace.Keys == c.rowSpace.Keys + {c.nextPage}
  {
  }

  /** What a whole registration leaves: the fresh page if it opens, then the most recently used. */
  lemma RegisterFacts(c: Cache, used: nat, shown: nat, now: Cache, left: nat, limit: nat, pageBytes: Page -> nat)
    requires Tracked(c) && shown == (used + pageBytes(NewPage(c.nextPage, c.pageSize))) % TWO64
    requires Shed(Registered(c), shown, now, left, None, limit, pageBytes) && Settled(now, left, None, limit)
    requires limit == 0 ==> now == Registered(c)
    ensures c.nextPage in now.rowSpace <==> OpensPage(c, used, limit, pageBytes)
    ensures c.nextPage in now.rowSpace ==> Newest(now.lru, c.nextPage)
  {
    SurvivesIff(Registered(c), shown, now, left, limit, pageBytes, c.nextPage);
    UsedNow(c, c.nextPage);
  }

  /** Pages after a fresh page `id` became a continuation and `previous` was linked to it. */
  lemma LinkedPages(before: map<PageId, Page>, grown: map<PageId, Page>, now: map<PageId, Page>, previous: PageId, id: PageId, pageSize: nat)
    requires previous != id && (forall q :: q in grown && q != id ==> q in before && grown[q] == before[q])
    requires var reserved := if id in grown then grown[id := Continuation(id, pageSize).(dirty := true)] else grown;
      now == if previous in reserved then reserved[previous := reserved[previous].(next := Some(id))] else reserved
    ensures now.Keys == grown.Keys
    ensures id in now ==> now[id] == Continuation(id, pageSize).(dirty := true)
    ensures forall q :: q in now && q != id ==> q in before
    ensures forall q :: q in now && q != id && q != previous ==> now[q] == before[q]
    ensures previous in now ==> now[previous] == before[previous].(next := Some(id))
  {
  }

  lemma SpanOfLarge(size: nat, pageSize: nat)
    requires 1 <= pageSize < size
    ensures Span(size, pageSize) >= 2
  {
  }

  /** On an empty table the first row is stored exactly when an empty page is within the limit. */
  lemma FirstPageOpensIff(c: Cache, limit: nat, pageBytes: Page -> nat)
    requires Tracked(c) && c.rowSpace == map[]
    ensures OpensPage(c, 0, limit, pageBytes) <==> limit == 0 || pageBytes(NewPage(c.nextPage, c.pageSize)) % TWO64 <= limit
  {
    var d, used := Registered(c), pageBytes(NewPage(c.nextPage, c.pageSize)) % TWO64;
    assert CounterAfter(used, {}, d.rowSpace, pageBytes) == used;
    assert Oldest({}, d.lru, None);
    forall f: set<PageId> | Oldest(f, d.lru, None) && c.nextPage !in f ensures f == {} {
      assert f <= {c.nextPage};
    }
  }

  // ---- Walking pages and rows -------------------------------------------------------------------

  /** The rows of resident page `p` are those located on it. */
  lemma RowsOfPage(c: Cache, p: PageId, r: RowId)
    requires CacheOk(c) && p in c.rowSpace
    ensures r in c.rowSpace[p].rows <==> r in c.locations && c.locations[r] == p
    ensures r in c.rowSpace[p].rows ==> Find(c, r) == Some(c.rowSpace[p].rows[r])
  {
    assert PageInv(c, p) && RowInv(c, r);
  }

  /** Where the drained row `r` stands once the pages `todo` are still to come. */
  ghost predicate Drained(c: Cache, todo: set<PageId>, live: map<RowId, Chain>, r: RowId) {
    && (r in live <==> r in c.locations && HeldRow(c, r) != [] && c.locations[r] !in todo)
    && (r in live ==> live[r] == HeldRow(c, r))
  }

  /** The rows of a page that have versions. */
  function WithVersions(rows: map<RowId, Chain>): map<RowId, Chain> { map r | r in rows && rows[r] != [] :: rows[r] }

  lemma DrainPage(c: Cache, todo: set<PageId>, live: map<RowId, Chain>, p: PageId, r: RowId)
    requires RowsLocated(c) && p in todo && p in c.rowSpace && Drained(c, todo, live, r)
    ensures Drained(c, todo - {p}, live + WithVersions(c.rowSpace[p].rows), r)
  {
  }

  /** Take the rows with versions out of every resident page. */
  method DrainPages(ghost c: Cache, rowSpace: map<PageId, Page>) returns (live: map<RowId, Chain>)
    requires RowsLocated(c) && c.rowSpace == rowSpace
    ensures live == ResidentRows(c)
  {
    live := map[];
    var todo := rowSpace.Keys;
    while todo != {}
      invariant todo <= rowSpace.Keys && forall r: RowId :: Drained(c, todo, live, r)
    {
      var p :| p in todo;
      forall r: RowId ensures Drained(c, todo - {p}, live + WithVersions(rowSpace[p].rows), r) { DrainPage(c, todo, live, p, r); }
      live := live + WithVersions(rowSpace[p].rows);
      todo := todo - {p};
    }
    AllDrained(c, live);
  }

  lemma AllDrained(c: Cache, live: map<RowId, Chain>)
    requires forall r: RowId :: Drained(c, {}, live, r)
    ensures live == ResidentRows(c)
  {
    forall r: RowId ensures r in live <==> r in ResidentRows(c) { assert Drained(c, {}, live, r); }
    assert live.Keys == ResidentRows(c).Keys;
    forall r | r in live ensures live[r] == ResidentRows(c)[r] { assert Drained(c, {}, live, r); }
  }

  /** The drained rows in row order, with their sizes. */
  method CollectLive(rows: map<RowId, Chain>, rowSize: Chain -> nat) returns (live: seq<Live>)
    ensures live == LiveOf(rows, rowSize)
  {
    var ids := SortIds(rows.Keys);
    live := MeasureRows(rows, rowSize, ids);
    MeasuredIsLive(rows, rowSize, live);
  }

  method MeasureRows(rows: map<RowId, Chain>, rowSize: Chain -> nat, ids: seq<RowId>) returns (live: seq<Live>)
    requires forall i :: 0 <= i < |ids| ==> ids[i] in rows
    ensures |live| == |ids|
    ensures forall i :: 0 <= i < |ids| ==> live[i] == Live(ids[i], rows[ids[i]], rowSize(rows[ids[i]]))
  {
    live := [];
    for i := 0 to |ids|
      invariant |live| == i
      invariant forall j :: 0 <= j < i ==> live[j] == Live(ids[j], rows[ids[j]], rowSize(rows[ids[j]]))
    {
      live := live + [Live(ids[i], rows[ids[i]], rowSize(rows[ids[i]]))];
    }
  }

  lemma MeasuredIsLive(rows: map<RowId, Chain>, rowSize: Chain -> nat, live: seq<Live>)
    requires var ids := Sorted(rows.Keys);
      |live| == |ids| && forall i :: 0 <= i < |ids| ==> ids[i] in rows && live[i] == Live(ids[i], rows[ids[i]], rowSize(rows[ids[i]]))
    ensures live == LiveOf(rows, rowSize)
  {
    var expected := LiveOf(rows, rowSize);
    forall i | 0 <= i < |live| ensures live[i] == expected[i] {}
  }

  method PrunePages(pages: map<PageId, Page>, oldest: TransactionId) returns (pruned: map<PageId, Page>)
    ensures pruned == map p | p in pages :: pages[p].(rows := PruneRows(pages[p].rows, oldest))
  {
    pruned := map[];
    var todo := pages.Keys;
    while todo != {}
      invariant todo <= pages.Keys && pruned.Keys == pages.Keys - todo
      invariant forall p :: p in pruned ==> pruned[p] == pages[p].(rows := PruneRows(pages[p].rows, oldest))
    {
      var p :| p in todo;
      var rows := DatabaseLifecycle.PruneEach(pages[p].rows, oldest);
      pruned := pruned[p := pages[p].(rows := rows)];
      todo := todo - {p};
    }
  }

  /** The pages of the given rows, skipping rows without a location. */
  method PagesOf(locations: map<RowId, PageId>, probes: seq<RowId>) returns (pages: seq<PageId>)
    ensures pages == ProbedPages(locations, probes)
  {
    pages := [];
    for i := 0 to |probes|
      invariant pages + ProbedPages(locations, probes[i..]) == ProbedPages(locations, probes)
    {
      assert probes[i..][0] == probes[i] && probes[i..][1..] == probes[i + 1..];
      if probes[i] in locations {
        pages := pages + [locations[probes[i]]];
      }
    }
  }

  method CleanPages(pages: map<PageId, Page>) returns (clean: map<PageId, Page>)
    ensures clean == CleanAll(pages)
  {
    clean := map[];
    var todo := pages.Keys;
    while todo != {}
      invariant todo <= pages.Keys && clean.Keys == pages.Keys - todo
      invariant forall p :: p in clean ==> clean[p] == Clean(pages[p])
    {
      var p :| p in todo;
      clean := clean[p := pages[p].(dirty := false)];
      todo := todo - {p};
    }
  }

  lemma SpaceGrows(pages: seq<Page>, n: nat)
    requires n < |pages|
    ensures SpaceOf(pages[..n + 1]) == SpaceOf(pages[..n])[n := pages[n]]
    ensures LruOf(SpaceOf(pages[..n + 1])) == LruOf(SpaceOf(pages[..n]))[n := n]
  {
  }

  /** Bytes of a sequence of pages together. */
  function BytesOf(pages: seq<Page>, pageBytes: Page -> nat): nat {
    if pages == [] then 0 else BytesOf(pages[..|pages| - 1], pageBytes) + pageBytes(pages[|pages| - 1])
  }

  /** A number as 64 bits hold it at most. */
  function Saturated(n: nat): nat { if n < TWO64 then n else TWO64 - 1 }

  /** The page map, the LRU map and the saturating byte count over a new sequence of pages. */
  method RebuildRuntime(pages: seq<Page>, pageBytes: Page -> nat) returns (space: map<PageId, Page>, lru: map<PageId, nat>, used: nat)
    ensures space == SpaceOf(pages) && lru == LruOf(SpaceOf(pages))
    ensures used == Saturated(BytesOf(pages, pageBytes))
  {
    space, lru, used := map[], map[], 0;
    for seen := 0 to |pages|
      invariant used == Saturated(BytesOf(pages[..seen], pageBytes))
      invariant space == SpaceOf(pages[..seen]) && lru == LruOf(space)
    {
      SpaceGrows(pages, seen);
      assert pages[..seen + 1][..seen] == pages[..seen];
      var total := used + pageBytes(pages[seen]);
      used := Saturated(total);
      space, lru := space[seen := pages[seen]], lru[seen := seen];
    }
    assert pages[..|pages|] == pages;
  }

  /** What a vacuum leaves. */
  lemma VacuumFacts(h: Held, oldest: TransactionId, probes: seq<RowId>, limit: nat, pageBytes: Page -> nat, rowSize: Chain -> nat)
    requires Fit(h, limit) && forall row :: rowSize(row) > 0
    ensures var d, v := VacuumResult(h, oldest, probes, limit, pageBytes, rowSize), View(h.cache);
      && CacheOk(d) && AllMayLeave(d) && AllResident(d) && Monotone(d.locations)
      && (forall r :: r in View(d) ==> r in v && (View(d)[r] == v[r] || View(d)[r] == PruneChain(v[r], oldest)))
      && (View(d) == PruneRows(v, oldest) <==> VacuumCompletes(h, oldest, probes, limit, pageBytes))
      && (limit == 0 || AllResident(h.cache) ==> View(d) == PruneRows(v, oldest))
      && d.diskLocations == d.locations && d.onDisk == d.disk.Keys
      && forall p :: p in d.rowSpace ==> !d.rowSpace[p].dirty && p in d.disk && d.disk[p] == d.rowSpace[p]
  {
    HalfWay(h, oldest, probes, limit, pageBytes);
    VacuumOutcome(h, oldest, probes, limit, pageBytes, rowSize);
    if limit == 0 || AllResident(h.cache) { VacuumCompletesResident(h, oldest, probes, limit, pageBytes); }
  }

  /** What rolling back the resident pages leaves. */
  lemma RollbackFacts(c: Cache, t: TransactionId)
    requires CacheOk(c)
    ensures CacheOk(RolledBack(c, t))
    ensures View(RolledBack(c, t)) == RollbackRows(View(c), t) <==> RollbackReaches(c, t)
    ensures AllMayLeave(c) ==> (AllMayLeave(RolledBack(c, t)) <==> forall p :: !GoesStale(c, t, p))
  {
    RollbackKeeps(c, t);
    RollbackUndoesIff(c, t);
    if AllMayLeave(c) { RollbackKeepsLeavingIff(c, t); }
  }

  method RollbackPages(pages: map<PageId, Page>, t: TransactionId) returns (undone: map<PageId, Page>)
    ensures undone == map p | p in pages :: pages[p].(rows := RollbackRows(pages[p].rows, t))
  {
    undone := map[];
    var todo := pages.Keys;
    while todo != {}
      invariant todo <= pages.Keys && undone.Keys == pages.Keys - todo
      invariant forall p :: p in undone ==> undone[p] == pages[p].(rows := RollbackRows(pages[p].rows, t))
    {
      var p :| p in todo;
      var rows := DatabaseLifecycle.RollbackEach(pages[p].rows, t);
      undone := undone[p := pages[p].(rows := rows)];
      todo := todo - {p};
    }
  }

  class Table {
    const pageSize: nat
    const limit: nat
    const rowSize: Chain -> nat
    const pageBytes: Page -> nat

    var rowSpace: map<PageId, Page>
    var rowLocations: map<RowId, PageId>
    var disk: map<PageId, Page>
    var diskLocations: map<RowId, PageId>
    var onDisk: set<PageId>
    var lru: map<PageId, nat>
    var lruCounter: nat
    var memoryUsed: nat
    var nextPageId: PageId
    var nextRowId: RowId

    function Snap(): Cache
      reads this
    {
      Cache(rowSpace, rowLocations, disk, diskLocations, onDisk, lru, lruCounter, nextPageId, nextRowId, pageSize)
    }

    /** The plain map of rows this table stands for. */
    ghost function Contents(): map<RowId, Chain>
      reads this
    {
      View(Snap())
    }

    ghost predicate Sound()
      reads this
    {
      CacheOk(Snap()) && memoryUsed < TWO64 && forall row :: rowSize(row) > 0
    }

    /** Sound, and where pages may be evicted, fit for it. */
    ghost predicate Valid()
      reads this
    {
      Sound() && (limit > 0 ==> AllMayLeave(Snap()))
    }

    constructor (pageSize: nat, limit: nat, rowSize: Chain -> nat, pageBytes: Page -> nat)
      requires pageSize >= 1 && forall row :: rowSize(row) > 0
      ensures Valid() && Contents() == map[]
      ensures this.pageSize == pageSize && this.limit == limit && this.rowSize == rowSize && this.pageBytes == pageBytes
    {
      this.pageSize, this.limit, this.rowSize, this.pageBytes := pageSize, limit, rowSize, pageBytes;
      rowSpace, rowLocations, disk, diskLocations, onDisk := map[], map[], map[], map[], {};
      lru, lruCounter, memoryUsed, nextPageId, nextRowId := map[], 0, 0, 0, 0;
    }

    // ---- Eviction ---------------------------------------------------------------------------------

    method TouchPage(p: PageId)
      modifies this`lru, this`lruCounter
      ensures Snap() == Touched(old(Snap()), p)
    {
      lru := lru[p := lruCounter];
      lruCounter := lruCounter + 1;
    }

    method PickVictim(pinned: Option<PageId>) returns (v: Option<PageId>)
      requires lru.Keys == rowSpace.Keys
      ensures v.None? ==> forall p :: p in rowSpace ==> Some(p) == pinned
      ensures v.Some? ==> v.value in rowSpace && IsVictim(v.value, lru, pinned)
    {
      v := None;
      var todo := rowSpace.Keys;
      while todo != {}
        invariant todo <= rowSpace.Keys
        invariant v.None? ==> forall p :: p in rowSpace && p !in todo ==> Some(p) == pinned
        invariant v.Some? ==> v.value in rowSpace && v != pinned
        invariant v.Some? ==> forall q: PageId :: q !in todo ==> NotNewer(v.value, lru, pinned, q)
      {
        var p :| p in todo;
        if Some(p) != pinned && (v.None? || lru[p] < lru[v.value]) {
          v := Some(p);
        }
        todo := todo - {p};
      }
    }

    method FlushAndEvict(p: PageId)
      requires p in rowSpace
      modifies this
      ensures Snap() == Evicted(old(Snap()), p)
      ensures memoryUsed == (old(memoryUsed) - pageBytes(old(rowSpace)[p])) % TWO64
    {
      var page := rowSpace[p];
      rowSpace := rowSpace - {p};
      if page.dirty || p !in onDisk {
        disk := disk[p := page];
        diskLocations := rowLocations;
        onDisk := onDisk + {p};
      }
      memoryUsed := (memoryUsed - pageBytes(page)) % TWO64;
      lru := lru - {p};
    }

    /** The cache and its byte counter. */
    ghost function Memory(): Held
      reads this
    {
      Held(Snap(), memoryUsed)
    }

    /** The eviction loop, whatever the pages hold. */
    method Settle(pinned: Option<PageId>)
      requires Tracked(Snap())
      modifies this
      ensures Memory() == ShedAll(old(Memory()), pinned, limit, pageBytes) && Tracked(Snap())
    {
      if limit == 0 {
        return;
      }
      ghost var before := Memory();
      var more := true;
      while more && memoryUsed > limit
        invariant Tracked(Snap()) && ShedAll(Memory(), pinned, limit, pageBytes) == ShedAll(before, pinned, limit, pageBytes)
        invariant !more ==> Moments(lru, pinned) == {}
        decreases rowSpace.Keys, more
      {
        more := EvictOne(pinned);
      }
    }

    /** One round of the eviction loop, if there is a page to evict. */
    method EvictOne(pinned: Option<PageId>) returns (more: bool)
      requires Tracked(Snap())
      modifies this
      ensures Tracked(Snap()) && (more <==> old(Moments(lru, pinned)) != {})
      ensures if more then Memory() == EvictVictim(old(Memory()), pinned, pageBytes) && rowSpace.Keys < old(rowSpace).Keys
              else Memory() == old(Memory())
    {
      NobodyLeft(lru, pinned);
      var victim := PickVictim(pinned);
      more := victim.Some?;
      if more {
        VictimUnique(lru, pinned, victim.value);
        EvictTracks(Snap(), victim.value);
        FlushAndEvict(victim.value);
      }
    }

    /** Evict until the counter is within the limit or only the pinned page is left. */
    method MaybeEvict(pinned: Option<PageId>)
      requires Valid()
      modifies this
      ensures Valid() && Contents() == old(Contents())
      ensures Memory() == ShedAll(old(Memory()), pinned, limit, pageBytes)
      ensures Shed(old(Snap()), old(memoryUsed), Snap(), memoryUsed, pinned, limit, pageBytes)
      ensures Settled(Snap(), memoryUsed, pinned, limit)
      ensures limit == 0 ==> Snap() == old(Snap()) && memoryUsed == old(memoryUsed)
    {
      ghost var before, used := Snap(), memoryUsed;
      ShedNothing(before, used, pinned, limit, pageBytes);
      if limit > 0 { ShedAllKeeps(before, used, Memory(), pinned, limit, pageBytes); }
      Settle(pinned);
    }

    /** Touch a page or load it, whatever it holds. */
    method BringIn(p: PageId)
      requires Tracked(Snap())
      modifies this
      ensures Memory() == BroughtIn(old(Memory()), p, limit, pageBytes) && Tracked(Snap())
    {
      if p in rowSpace {
        TouchTracks(Snap(), rowSpace, p);
        TouchPage(p);
      } else if p in disk {
        LoadPage(p);
        Settle(Some(p));
      }
    }

    method LoadPage(p: PageId)
      requires Tracked(Snap()) && p !in rowSpace && p in disk
      modifies this
      ensures Memory() == Held(Loaded(old(Snap()), p), (old(memoryUsed) + pageBytes(old(disk)[p])) % TWO64) && Tracked(Snap())
    {
      TouchTracks(Snap(), rowSpace[p := disk[p]], p);
      ghost var loaded := Loaded(Snap(), p);
      var page := disk[p];
      rowSpace := rowSpace[p := page];
      memoryUsed := (memoryUsed + pageBytes(page)) % TWO64;
      TouchPage(p);
      assert Snap() == loaded;
    }

    method EnsureResident(p: PageId)
      requires Valid() && Referenced(rowLocations, p)
      modifies this
      ensures Valid() && Contents() == old(Contents()) && Memory() == BroughtIn(old(Memory()), p, limit, pageBytes)
      ensures p in rowSpace && Some(rowSpace[p]) == old(Copy(Snap(), p))
      ensures rowLocations == old(rowLocations) && nextPageId == old(nextPageId) && nextRowId == old(nextRowId)
      ensures limit == 0 ==> old(rowSpace).Keys <= rowSpace.Keys
      ensures p in old(rowSpace) ==> rowSpace == old(rowSpace)
    {
      BroughtInKeeps(Memory(), p, limit, pageBytes);
      BringIn(p);
    }

    // ---- Rows -------------------------------------------------------------------------------------

    /** Make the page of row `r` resident. */
    method PageForRow(r: RowId) returns (p: Result<PageId, TableError>)
      requires Valid()
      modifies this
      ensures Valid() && Contents() == old(Contents())
      ensures p.Err? <==> r !in old(Contents())
      ensures p.Err? ==> p.error == RowNotFound(r)
      ensures p.Ok? ==> r in rowLocations && p.value == rowLocations[r] && p.value in rowSpace
      ensures p.Ok? ==> Get(rowSpace[p.value].rows, r) == Some(old(Contents())[r]) && Newest(lru, p.value)
    {
      assert RowInv(Snap(), r);
      if r !in rowLocations {
        return Err(RowNotFound(r));
      }
      var page := rowLocations[r];
      assert Referenced(rowLocations, page);
      assert PageInv(Snap(), page);
      JustUsed(Memory(), page, limit, pageBytes);
      EnsureResident(page);
      p := Ok(page);
    }

    method GetRow(r: RowId) returns (row: Result<Chain, TableError>)
      requires Valid()
      modifies this
      ensures Valid() && Contents() == old(Contents())
      ensures row == if r in old(Contents()) then Ok(old(Contents())[r]) else Err(RowNotFound(r))
    {
      var p := PageForRow(r);
      if p.Err? {
        return Err(p.error);
      }
      row := Ok(rowSpace[p.value].rows[r]);
    }

    /** Put a changed chain back on its page. */
    method StoreRow(p: PageId, r: RowId, row: Chain)
      requires Valid() && r in rowLocations && rowLocations[r] == p && p in rowSpace
      modifies this
      ensures Valid() && Contents() == old(Contents())[r := row]
    {
      RewriteKeeps(Snap(), r, row);
      ghost var done := Rewritten(Snap(), r, row);
      rowSpace := rowSpace[p := rowSpace[p].(rows := rowSpace[p].rows[r := row], dirty := true)];
      assert Snap() == done;
    }

    method DeleteRow(r: RowId, t: TransactionId, snap: Snapshot) returns (done: Result<(), TableError>)
      requires Valid()
      modifies this
      ensures Valid() && done == if r in old(Contents()) then Ok(()) else Err(RowNotFound(r))
      ensures forall next, last :: Contents() == Apply(Db(old(Contents()), snap, next, last), Delete(t, r)).rows
    {
      var p := PageForRow(r);
      if p.Err? {
        return Err(p.error);
      }
      StoreRow(p.value, r, MarkDeleted(rowSpace[p.value].rows[r], t, snap));
      done := Ok(());
    }

    method UpdateRow(r: RowId, data: RowData, t: TransactionId, snap: Snapshot) returns (done: Result<(), TableError>)
      requires Valid()
      modifies this
      ensures Valid() && done == if r in old(Contents()) then Ok(()) else Err(RowNotFound(r))
      ensures forall next, last :: Contents() == Apply(Db(old(Contents()), snap, next, last), Update(t, r, data)).rows
    {
      var p := PageForRow(r);
      if p.Err? {
        return Err(p.error);
      }
      StoreRow(p.value, r, MarkDeleted(rowSpace[p.value].rows[r], t, snap) + [NewVersion(t, data)]);
      done := Ok(());
    }

    // ---- Inserting --------------------------------------------------------------------------------

    /** A fresh page. The eviction that follows may already take it away again. */
    method RegisterPage() returns (p: PageId)
      requires Valid()
      modifies this
      ensures Valid() && Contents() == old(Contents())
      ensures p == old(nextPageId) && nextPageId == p + 1
      ensures rowLocations == old(rowLocations) && nextRowId == old(nextRowId)
      ensures !Referenced(rowLocations, p)
      ensures p in rowSpace <==> old(OpensPage(Snap(), memoryUsed, limit, pageBytes))
      ensures p in rowSpace ==> rowSpace[p] == NewPage(p, pageSize) && Newest(lru, p)
      ensures forall q :: q in rowSpace && q != p ==> q in old(rowSpace) && rowSpace[q] == old(rowSpace)[q]
      ensures limit == 0 ==> rowSpace.Keys == old(rowSpace).Keys + {p}
    {
      ghost var before, used := Snap(), memoryUsed;
      p := AddPage();
      ghost var shown := memoryUsed;
      MaybeEvict(None);
      RegisteredLeft(before, Snap());
      RegisterFacts(before, used, shown, Snap(), memoryUsed, limit, pageBytes);
    }

    /** A fresh empty page, counted and most recently used. */
    method AddPage() returns (p: PageId)
      requires Valid()
      modifies this
      ensures Valid() && Contents() == old(Contents()) && p == old(nextPageId) && !Referenced(rowLocations, p)
      ensures Snap() == Registered(old(Snap())) && memoryUsed == (old(memoryUsed) + pageBytes(NewPage(p, pageSize))) % TWO64
    {
      RegisterKeeps(Snap());
      ghost var registered := Registered(Snap());
      p := nextPageId;
      nextPageId := nextPageId + 1;
      var page := NewPage(p, pageSize);
      rowSpace := rowSpace[p := page];
      memoryUsed := (memoryUsed + pageBytes(page)) % TWO64;
      TouchPage(p);
      assert Snap() == registered;
    }

    /** The last resident page. */
    method TailPage() returns (p: Option<PageId>)
      ensures p == if rowSpace == map[] then None else Some(MaxOf(rowSpace.Keys))
    {
      p := None;
      var todo := rowSpace.Keys;
      while todo != {}
        invariant todo <= rowSpace.Keys && (p.None? ==> todo == rowSpace.Keys)
        invariant p.Some? ==> p.value in rowSpace && forall q :: q in rowSpace && q !in todo ==> q <= p.value
      {
        var q :| q in todo;
        if p.None? || p.value < q {
          p := Some(q);
        }
        todo := todo - {q};
      }
    }

    /** Append the row to page `p` if it is still resident, and record where the row is. */
    method PlaceRow(p: PageId, r: RowId, row: Chain, size: nat)
      modifies this`rowSpace, this`rowLocations, this`nextRowId
      ensures Snap() == if p in old(rowSpace) then Placed(old(Snap()), p, r, row, size) else Misplaced(old(Snap()), p, r)
    {
      if p in rowSpace {
        rowSpace := rowSpace[p := Append(rowSpace[p], r, row, size)];
      }
      rowLocations := rowLocations[r := p];
      nextRowId := r;
    }

    /** A row that fits a page goes to the tail page or a fresh one. */
    method InsertIntoPage(r: RowId, row: Chain, size: nat) returns (stored: bool)
      requires Valid() && r == nextRowId + 1 && size > 0
      modifies this
      ensures stored <==> old(TailHasRoom(Snap(), size) || OpensPage(Snap(), memoryUsed, limit, pageBytes))
      ensures nextRowId == r && r in rowLocations && Contents() == if stored then old(Contents())[r := row] else old(Contents())
      ensures rowLocations == old(rowLocations)[r := if old(TailHasRoom(Snap(), size)) then MaxOf(old(rowSpace).Keys) else old(nextPageId)]
      ensures stored ==> Newest(lru, rowLocations[r])
      ensures if stored then Valid() else Find(Snap(), r) == None
    {
      var tail := TailPage();
      if tail.Some? && HasRoom(rowSpace[tail.value], size) {
        PlaceKeeps(Snap(), tail.value, r, row, size);
        PlaceRow(tail.value, r, row, size);
        TouchKeeps(Snap(), tail.value);
        UsedNow(Snap(), tail.value);
        TouchPage(tail.value);
        return true;
      }
      stored := InsertOnNewPage(r, row, size);
    }

    /** A row on a page of its own, unless that page is evicted as soon as it is registered. */
    method InsertOnNewPage(r: RowId, row: Chain, size: nat) returns (stored: bool)
      requires Valid() && r == nextRowId + 1 && size > 0
      modifies this
      ensures stored <==> old(OpensPage(Snap(), memoryUsed, limit, pageBytes))
      ensures nextRowId == r && r in rowLocations && Contents() == if stored then old(Contents())[r := row] else old(Contents())
      ensures rowLocations == old(rowLocations)[r := old(nextPageId)] && (stored ==> Newest(lru, rowLocations[r]))
      ensures if stored then Valid() else Find(Snap(), r) == None
    {
      var p := RegisterPage();
      stored := p in rowSpace;
      if stored {
        PlaceKeeps(Snap(), p, r, row, size);
      } else {
        MisplacedIsLost(Snap(), p, r);
      }
      PlaceRow(p, r, row, size);
    }

    /** A row larger than a page: a head page holding it, then linked continuation pages. */
    method InsertOverflow(r: RowId, row: Chain, size: nat) returns (stored: bool)
      requires Valid() && r == nextRowId + 1 && size > pageSize
      modifies this
      ensures stored <==> old(OpensPage(Snap(), memoryUsed, limit, pageBytes))
      ensures nextRowId == r && r in rowLocations && rowLocations[r] == old(nextPageId)
      ensures nextPageId == old(nextPageId) + Span(size, pageSize)
      ensures ChainAt(rowSpace, Live(r, row, size), old(nextPageId), pageSize, Span(size, pageSize))
      ensures limit == 0 ==> forall p :: old(nextPageId) <= p < nextPageId ==> p in rowSpace
      ensures Contents() == if stored then old(Contents())[r := row] else old(Contents())
      ensures if stored then Valid() else Find(Snap(), r) == None
    {
      var head := OpenHead(r, row, size);
      stored := head in rowSpace;
      SpanOfLarge(size, pageSize);
      ExtendChain(Live(r, row, size), head, Span(size, pageSize) - 1);
      if !stored {
        LoseRow(head, r, row, size);
      }
    }

    /** Record a location on a page that has left. */
    method LoseRow(p: PageId, r: RowId, row: Chain, size: nat)
      requires Valid() && p !in rowSpace && r > nextRowId
      modifies this`rowSpace, this`rowLocations, this`nextRowId
      ensures rowSpace == old(rowSpace) && rowLocations == old(rowLocations)[r := p] && nextRowId == r
      ensures Contents() == old(Contents()) && Find(Snap(), r) == None
    {
      MisplacedIsLost(Snap(), p, r);
      PlaceRow(p, r, row, size);
    }

    /** The head page of a chain, with the row on it unless it is gone already. */
    method OpenHead(r: RowId, row: Chain, size: nat) returns (head: PageId)
      requires Valid() && r == nextRowId + 1 && size > pageSize
      modifies this
      ensures Valid() && head == old(nextPageId) && nextPageId == head + 1
      ensures head in rowSpace <==> old(OpensPage(Snap(), memoryUsed, limit, pageBytes))
      ensures ChainPageAt(rowSpace, Live(r, row, size), head, pageSize, 1, 0)
      ensures limit == 0 ==> head in rowSpace
      ensures head in rowSpace ==> nextRowId == r && r in rowLocations && rowLocations[r] == head && Contents() == old(Contents())[r := row]
      ensures head !in rowSpace ==> nextRowId == old(nextRowId) && Contents() == old(Contents())
    {
      head := RegisterPage();
      if head in rowSpace {
        PlaceKeeps(Snap(), head, r, row, size);
        PlaceRow(head, r, row, size);
      }
    }

    /** Register `extra` continuation pages after the newest page, each linked from the one before. */
    method ExtendChain(ghost l: Live, head: PageId, extra: nat)
      requires Valid() && nextPageId == head + 1 && ChainPageAt(rowSpace, l, head, pageSize, 1, 0)
      modifies this
      ensures Valid() && Contents() == old(Contents()) && nextPageId == old(nextPageId) + extra
      ensures rowLocations == old(rowLocations) && nextRowId == old(nextRowId)
      ensures head !in old(rowSpace) ==> head !in rowSpace
      ensures ChainAt(rowSpace, l, head, pageSize, extra + 1)
      ensures limit == 0 && head in old(rowSpace) ==> forall p :: head <= p < nextPageId ==> p in rowSpace
    {
      var previous := head;
      for j := 0 to extra
        invariant Valid() && Contents() == old(Contents()) && nextPageId == head + 1 + j && previous == head + j
        invariant rowLocations == old(rowLocations) && nextRowId == old(nextRowId)
        invariant head !in old(rowSpace) ==> head !in rowSpace
        invariant ChainAt(rowSpace, l, head, pageSize, j + 1)
        invariant limit == 0 && head in old(rowSpace) ==> forall p :: head <= p < nextPageId ==> p in rowSpace
      {
        ghost var before := rowSpace;
        assert ChainPageAt(rowSpace, l, head, pageSize, j + 1, j);
        previous := AddContinuation(previous);
        ChainGrows(before, rowSpace, l, head, pageSize, j + 1);
      }
    }

    method AddContinuation(previous: PageId) returns (id: PageId)
      requires Valid() && previous < nextPageId && (previous in rowSpace ==> rowSpace[previous].dirty)
      modifies this
      ensures Valid() && Contents() == old(Contents()) && id == old(nextPageId) && nextPageId == id + 1
      ensures rowLocations == old(rowLocations) && nextRowId == old(nextRowId)
      ensures id in rowSpace ==> rowSpace[id] == Continuation(id, pageSize).(dirty := true)
      ensures forall q :: q in rowSpace && q != id ==> q in old(rowSpace)
      ensures forall q :: q in rowSpace && q != id && q != previous ==> rowSpace[q] == old(rowSpace)[q]
      ensures previous in rowSpace ==> rowSpace[previous] == old(rowSpace)[previous].(next := Some(id))
      ensures limit == 0 ==> rowSpace.Keys == old(rowSpace).Keys + {id}
    {
      id := RegisterPage();
      ghost var grown := rowSpace;
      ReservePage(id);
      LinkPage(previous, id);
      LinkedPages(old(rowSpace), grown, rowSpace, previous, id, pageSize);
    }

    /** Mark a fresh page as a continuation; nothing happens to a page that has already left. */
    method ReservePage(p: PageId)
      requires Valid() && (p in rowSpace ==> rowSpace[p] == NewPage(p, pageSize))
      modifies this`rowSpace
      ensures Valid() && Contents() == old(Contents())
      ensures rowSpace == if p in old(rowSpace) then old(rowSpace)[p := Continuation(p, pageSize).(dirty := true)] else old(rowSpace)
    {
      if p in rowSpace {
        RelabelKeeps(Snap(), p, Continuation(p, pageSize).(dirty := true));
        ghost var done := Relabelled(Snap(), p, Continuation(p, pageSize).(dirty := true));
        rowSpace := rowSpace[p := rowSpace[p].(overflow := true, used := rowSpace[p].capacity, dirty := true)];
        assert Snap() == done;
      }
    }

    method LinkPage(p: PageId, id: PageId)
      requires Valid() && (p in rowSpace ==> rowSpace[p].dirty)
      modifies this`rowSpace
      ensures Valid() && Contents() == old(Contents())
      ensures rowSpace == if p in old(rowSpace) then old(rowSpace)[p := old(rowSpace)[p].(next := Some(id))] else old(rowSpace)
    {
      if p in rowSpace {
        assert PageInv(Snap(), p);
        RelabelKeeps(Snap(), p, rowSpace[p].(next := Some(id)));
        ghost var done := Relabelled(Snap(), p, rowSpace[p].(next := Some(id)));
        rowSpace := rowSpace[p := rowSpace[p].(next := Some(id))];
        assert Snap() == done;
      }
    }

    /**
     * The row is stored exactly when the tail page takes it or a page opened for it survives its own
     * registration; otherwise the row has a location and no page holds it.
     */
    method InsertRow(data: RowData, t: TransactionId, snap: Snapshot) returns (r: RowId, stored: bool)
      requires Valid()
      modifies this
      ensures r == old(nextRowId) + 1 && nextRowId == r && r in rowLocations
      ensures var size := rowSize([NewVersion(t, data)]);
        stored <==> old((size <= pageSize && TailHasRoom(Snap(), size)) || OpensPage(Snap(), memoryUsed, limit, pageBytes))
      ensures stored ==> Valid() && Db(Contents(), snap, 0, r) == Apply(Db(old(Contents()), snap, 0, old(nextRowId)), Insert(t, r, data))
      ensures !stored ==> Contents() == old(Contents())
    {
      r := nextRowId + 1;
      var row := [NewVersion(t, data)];
      var size := rowSize(row);
      if size > pageSize {
        stored := InsertOverflow(r, row, size);
      } else {
        stored := InsertIntoPage(r, row, size);
      }
    }

    // ---- Maintenance ------------------------------------------------------------------------------

    /** Write dirty pages; they stay marked dirty. */
    method PersistDirty()
      requires Valid()
      modifies this`disk, this`diskLocations, this`onDisk
      ensures Valid() && Contents() == old(Contents())
      ensures forall p :: p in rowSpace && rowSpace[p].dirty ==> p in onDisk && p in disk && disk[p] == rowSpace[p]
      ensures forall p :: !(p in rowSpace && rowSpace[p].dirty) ==> Get(disk, p) == old(Get(disk, p))
      ensures (exists p :: p in rowSpace && rowSpace[p].dirty) ==> diskLocations == rowLocations
    {
      var todo := rowSpace.Keys;
      while todo != {}
        invariant todo <= rowSpace.Keys && Valid() && Contents() == old(Contents())
        invariant forall p :: p in rowSpace && p !in todo && rowSpace[p].dirty ==> p in onDisk && p in disk && disk[p] == rowSpace[p]
        invariant forall p :: !(p in rowSpace && rowSpace[p].dirty) ==> Get(disk, p) == old(Get(disk, p))
        invariant (exists p :: p in rowSpace && p !in todo && rowSpace[p].dirty) ==> diskLocations == rowLocations
      {
        var p :| p in todo;
        if rowSpace[p].dirty {
          SavePage(p);
        }
        todo := todo - {p};
      }
    }

    method SavePage(p: PageId)
      requires Valid() && p in rowSpace
      modifies this`disk, this`diskLocations, this`onDisk
      ensures Valid() && Contents() == old(Contents())
      ensures disk == old(disk)[p := rowSpace[p]] && diskLocations == rowLocations && onDisk == old(onDisk) + {p}
    {
      SaveKeeps(Snap(), p);
      ghost var saved := Saved(Snap(), p);
      disk, diskLocations, onDisk := disk[p := rowSpace[p]], rowLocations, onDisk + {p};
      assert Snap() == saved;
    }

    /** Rewrite the file: pages not in memory as they are, resident pages clean. */
    method FlushAll()
      modifies this`rowSpace, this`disk, this`diskLocations, this`onDisk
      ensures Snap() == Flushed(old(Snap()))
      ensures old(Sound()) ==> Valid() && Contents() == old(Contents())
    {
      if CacheOk(Snap()) { FlushKeeps(Snap()); }
      rowSpace := CleanPages(rowSpace);
      disk := disk + rowSpace;
      diskLocations, onDisk := rowLocations, disk.Keys;
    }

    /** Undo a transaction on the resident pages, without marking them dirty. */
    method RollbackTransaction(t: TransactionId)
      modifies this`rowSpace
      ensures Snap() == RolledBack(old(Snap()), t)
      ensures old(Sound()) ==> Sound() && (Contents() == RollbackRows(old(Contents()), t) <==> old(RollbackReaches(Snap(), t)))
      ensures old(Valid()) ==> (Valid() <==> limit == 0 || forall p :: !GoesStale(old(Snap()), t, p))
    {
      if CacheOk(Snap()) { RollbackFacts(Snap(), t); }
      rowSpace := RollbackPages(rowSpace, t);
    }

    /** Load every page that holds rows, in page order. They all stay without a limit, or if none was missing. */
    method MaterializeAll()
      requires Valid()
      modifies this
      ensures Memory() == Materialised(old(Memory()), limit, pageBytes)
      ensures Valid() && Contents() == old(Contents()) && rowLocations == old(rowLocations) && nextRowId == old(nextRowId)
      ensures limit == 0 || old(AllResident(Snap())) ==> AllResident(Snap())
    {
      MaterialisedKeeps(Memory(), limit, pageBytes);
      var ids := SortIds(rowLocations.Values);
      BringInEach(ids);
    }

    method BringInEach(ids: seq<PageId>)
      requires Tracked(Snap())
      modifies this
      ensures Memory() == BroughtInAll(old(Memory()), ids, limit, pageBytes) && Tracked(Snap())
    {
      ghost var before := Memory();
      for i := 0 to |ids|
        invariant Tracked(Snap()) && BroughtInAll(Memory(), ids[i..], limit, pageBytes) == BroughtInAll(before, ids, limit, pageBytes)
      {
        assert ids[i..][0] == ids[i] && ids[i..][1..] == ids[i + 1..];
        BringIn(ids[i]);
      }
    }

    /** Drop versions no transaction needs on resident pages, and rows left without any. */
    method PruneVersions(oldest: TransactionId)
      modifies this`rowSpace
      ensures Snap() == VersionsPruned(old(Snap()), oldest)
    {
      rowSpace := PrunePages(rowSpace, oldest);
    }

    /** The page traffic of index pruning, which looks up the rows of its entries one by one. */
    method LookUpRows(probes: seq<RowId>)
      requires Tracked(Snap())
      modifies this
      ensures Memory() == BroughtInAll(old(Memory()), ProbedPages(old(rowLocations), probes), limit, pageBytes) && Tracked(Snap())
    {
      var pages := PagesOf(rowLocations, probes);
      BringInEach(pages);
    }

    /** Repack the rows of the resident pages into fresh pages. */
    method Compact()
      requires RowsLocated(Snap()) && pageSize >= 1
      modifies this
      ensures Snap() == PackRows(old(Snap()), ResidentRows(old(Snap())), rowSize) && memoryUsed < TWO64
    {
      var rows := DrainPages(Snap(), rowSpace);
      var live := CollectLive(rows, rowSize);
      var packed := Repack(live, pageSize);
      InstallPages(packed);
    }

    /** Replace the pages and rebuild the runtime state over them. */
    method InstallPages(packed: Packing)
      modifies this
      ensures Snap() == Repacked(old(Snap()), packed) && memoryUsed == Saturated(BytesOf(packed.pages, pageBytes))
    {
      ghost var done := Repacked(Snap(), packed);
      rowSpace, lru, memoryUsed := RebuildRuntime(packed.pages, pageBytes);
      lruCounter := |packed.pages|;
      rowLocations, onDisk, nextPageId := packed.locations, {}, |packed.pages|;
      assert Snap() == done;
    }

    /**
     * Full vacuum, with the rows index pruning looks up on the way. The rows are exactly the pruned
     * rows if and only if every row was resident and pruned when repacking started, as it always is
     * without a memory limit or with every page resident. No row is invented, and one that is there is
     * as it was or pruned. The rows lie in id order along the pages and the file agrees.
     */
    method Vacuum(oldest: TransactionId, probes: seq<RowId>)
      requires Valid()
      modifies this
      ensures Snap() == VacuumResult(old(Memory()), oldest, probes, limit, pageBytes, rowSize)
      ensures Valid() && AllResident(Snap()) && Monotone(rowLocations)
      ensures Contents() == PruneRows(old(Contents()), oldest) <==> old(VacuumCompletes(Memory(), oldest, probes, limit, pageBytes))
      ensures limit == 0 || old(AllResident(Snap())) ==> Contents() == PruneRows(old(Contents()), oldest)
      ensures forall r :: r in Contents() ==>
        r in old(Contents()) && (Contents()[r] == old(Contents())[r] || Contents()[r] == PruneChain(old(Contents())[r], oldest))
      ensures diskLocations == rowLocations && onDisk == disk.Keys
      ensures forall p :: p in rowSpace ==> !rowSpace[p].dirty && p in disk && disk[p] == rowSpace[p]
    {
      VacuumFacts(Memory(), oldest, probes, limit, pageBytes, rowSize);
      RunVacuum(oldest, probes);
    }

    method RunVacuum(oldest: TransactionId, probes: seq<RowId>)
      requires Valid()
      modifies this
      ensures Snap() == VacuumResult(old(Memory()), oldest, probes, limit, pageBytes, rowSize) && memoryUsed < TWO64
    {
      PruneResident(oldest, probes);
      Compact();
      FlushAll();
    }

    /** The first half of a vacuum: load, prune versions, and let index pruning look rows up. */
    method PruneResident(oldest: TransactionId, probes: seq<RowId>)
      requires Valid()
      modifies this
      ensures Memory() == BeforeRepacking(old(Memory()), oldest, probes, limit, pageBytes) && RowsLocated(Snap())
    {
      HalfWay(Memory(), oldest, probes, limit, pageBytes);
      MaterializeAll();
      PruneVersions(oldest);
      LookUpRows(probes);
    }

    /** A new process on the same file: nothing resident, locations as saved or else rebuilt. */
    method RestoreFromDisk()
      modifies this
      ensures Snap() == Restarted(old(Snap())) && memoryUsed == 0
    {
      onDisk := disk.Keys;
      if disk == map[] {
        rowLocations := map[];
      } else if diskLocations != map[] {
        rowLocations := diskLocations;
      } else {
        rowLocations := RebuildLocations(disk);
      }
      rowSpace, lru, lruCounter, memoryUsed := map[], map[], 0, 0;
    }
  }

  /** Scan the file's pages in page order, a later page overriding an earlier one. */
  method RebuildLocations(disk: map<PageId, Page>) returns (locations: map<RowId, PageId>)
    ensures locations == Rebuilt(disk)
  {
    var ids := SortIds(disk.Keys);
    locations := ScanPages(disk, ids);
    assert Elements(ids) == disk.Keys;
    ScanRebuilds(disk, ids);
  }

  method ScanPages(disk: map<PageId, Page>, ids: seq<PageId>) returns (locations: map<RowId, PageId>)
    requires forall i :: 0 <= i < |ids| ==> ids[i] in disk
    ensures locations == ScanOf(disk, ids)
  {
    locations := map[];
    for i := 0 to |ids|
      invariant locations == ScanOf(disk, ids[..i])
    {
      assert ids[..i + 1][..i] == ids[..i];
      locations := locations + RowsOn(disk[ids[i]], ids[i]);
    }
    assert ids[..|ids|] == ids;
  }

  function RowsOn(page: Page, p: PageId): map<RowId, PageId> { map r | r in page.rows :: p }

  function ScanOf(disk: map<PageId, Page>, ids: seq<PageId>): map<RowId, PageId> {
    if ids == [] then map[]
    else
      var p := ids[|ids| - 1];
      ScanOf(disk, ids[..|ids| - 1]) + (if p in disk then RowsOn(disk[p], p) else map[])
  }

  /** Scanning all pages in ascending order locates each row on the last page that holds it. */
  lemma ScanRebuilds(disk: map<PageId, Page>, ids: seq<PageId>)
    requires Ascending(ids) && Elements(ids) == disk.Keys
    ensures ScanOf(disk, ids) == Rebuilt(disk)
  {
    forall r: RowId ensures AgreeAt(ScanOf(disk, ids), Rebuilt(disk), r) { ScanRebuildsAt(disk, ids, r); }
    SameMap(ScanOf(disk, ids), Rebuilt(disk));
  }

  predicate AgreeAt(a: map<RowId, PageId>, b: map<RowId, PageId>, r: RowId) {
    (r in a <==> r in b) && (r in a ==> a[r] == b[r])
  }

  lemma SameMap(a: map<RowId, PageId>, b: map<RowId, PageId>)
    requires forall r: RowId :: AgreeAt(a, b, r)
    ensures a == b
  {
    forall r: RowId ensures r in a <==> r in b { assert AgreeAt(a, b, r); }
    assert a.Keys == b.Keys;
    forall r | r in a ensures a[r] == b[r] { assert AgreeAt(a, b, r); }
  }

  lemma ScanRebuildsAt(disk: map<PageId, Page>, ids: seq<PageId>, r: RowId)
    requires Ascending(ids) && Elements(ids) == disk.Keys
    ensures AgreeAt(ScanOf(disk, ids), Rebuilt(disk), r)
  {
    ScanLocates(disk, ids, r);
    ScannedAll(disk, Elements(ids), ScanOf(disk, ids), r);
  }

  /** After the pages `seen`, row `r` is located on the last of them that holds it. */
  ghost predicate Scanned(disk: map<PageId, Page>, seen: set<PageId>, locations: map<RowId, PageId>, r: RowId) {
    && (r in locations ==> locations[r] in seen && locations[r] in disk && r in disk[locations[r]].rows)
    && (forall p :: p in seen && p in disk && r in disk[p].rows ==> r in locations && p <= locations[r])
  }

  lemma {:induction false} ScanLocates(disk: map<PageId, Page>, ids: seq<PageId>, r: RowId)
    requires Ascending(ids)
    ensures Scanned(disk, Elements(ids), ScanOf(disk, ids), r)
    decreases |ids|
  {
    if ids != [] {
      var front, p := ids[..|ids| - 1], ids[|ids| - 1];
      ScanLocates(disk, front, r);
      assert ids == front + [p] && Elements(ids) == Elements(front) + {p};
    }
  }

  lemma ScannedAll(disk: map<PageId, Page>, ids: set<PageId>, locations: map<RowId, PageId>, r: RowId)
    requires Scanned(disk, ids, locations, r) && ids == disk.Keys
    ensures r in locations <==> r in Rebuilt(disk)
    ensures r in locations ==> locations[r] == Rebuilt(disk)[r]
  {
    RebuiltFinds(disk, r);
    if r in locations {
      assert locations[r] in PagesWith(disk, r) && MaxOf(PagesWith(disk, r)) in PagesWith(disk, r);
    }
  }
}
