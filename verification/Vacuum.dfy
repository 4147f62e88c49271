/**
 * A whole vacuum of a table (`Table::prune`): load every page, prune versions on the resident ones,
 * let index pruning look rows up, repack what is resident, and flush. Under a memory limit the loads
 * evict pages, before and after they were pruned.
 */
module Vacuum {
  import opened Prelude
  import opened Values
  import opened Transactions
  import opened Rows
  import opened Pages
  import opened MvccStore
  import opened PageCache
  import opened Eviction
  import opened TableMaintenance

  // ---- Bringing pages in ----------------------------------------------------------------------------

  /** Touch a resident page, or load it and evict others for it. */
  ghost function BroughtIn(h: Held, p: PageId, limit: nat, pageBytes: Page -> nat): (r: Held)
    requires h.cache.lru.Keys == h.cache.rowSpace.Keys
    ensures r.cache.lru.Keys == r.cache.rowSpace.Keys
  {
    if p in h.cache.rowSpace then Held(Touched(h.cache, p), h.used)
    else if p in h.cache.disk then
      ShedAll(Held(Loaded(h.cache, p), (h.used + pageBytes(h.cache.disk[p])) % TWO64), Some(p), limit, pageBytes)
    else h
  }

  ghost function BroughtInAll(h: Held, ps: seq<PageId>, limit: nat, pageBytes: Page -> nat): (r: Held)
    requires h.cache.lru.Keys == h.cache.rowSpace.Keys
    ensures r.cache.lru.Keys == r.cache.rowSpace.Keys
    decreases |ps|
  {
    if ps == [] then h else BroughtInAll(BroughtIn(h, ps[0], limit, pageBytes), ps[1..], limit, pageBytes)
  }

  /** Sound, and fit for eviction where the limit asks for it. */
  ghost predicate Fit(h: Held, limit: nat) {
    CacheOk(h.cache) && h.used < TWO64 && (limit > 0 ==> AllMayLeave(h.cache))
  }

  /** The same rows at the same places. */
  ghost predicate SameTable(c: Cache, d: Cache) {
    && View(d) == View(c) && d.locations == c.locations && d.nextRow == c.nextRow && d.nextPage == c.nextPage && d.pageSize == c.pageSize
  }

  /** What bringing page `p` in leaves. */
  ghost predicate Brought(h: Held, r: Held, p: PageId, limit: nat) {
    && Fit(r, limit) && SameTable(h.cache, r.cache) && p in r.cache.rowSpace && Some(r.cache.rowSpace[p]) == Copy(h.cache, p)
    && (limit == 0 ==> h.cache.rowSpace.Keys <= r.cache.rowSpace.Keys)
  }

  lemma BroughtInKeeps(h: Held, p: PageId, limit: nat, pageBytes: Page -> nat)
    requires Fit(h, limit) && Referenced(h.cache.locations, p)
    ensures Brought(h, BroughtIn(h, p, limit, pageBytes), p, limit)
  {
    if p in h.cache.rowSpace {
      TouchedIn(h, p, limit);
    } else {
      LoadedIn(h, p, limit, pageBytes);
    }
  }

  lemma TouchedIn(h: Held, p: PageId, limit: nat)
    requires Fit(h, limit) && p in h.cache.rowSpace
    ensures Brought(h, Held(Touched(h.cache, p), h.used), p, limit)
  {
    TouchKeeps(h.cache, p);
  }

  lemma LoadedIn(h: Held, p: PageId, limit: nat, pageBytes: Page -> nat)
    requires Fit(h, limit) && Referenced(h.cache.locations, p) && p !in h.cache.rowSpace
    ensures p in h.cache.disk
    ensures Brought(h, ShedAll(Held(Loaded(h.cache, p), (h.used + pageBytes(h.cache.disk[p])) % TWO64), Some(p), limit, pageBytes), p, limit)
  {
    LoadKeeps(h.cache, p);
    var loaded, used := Loaded(h.cache, p), (h.used + pageBytes(h.cache.disk[p])) % TWO64;
    assert SameTable(h.cache, loaded) && Some(loaded.rowSpace[p]) == Copy(h.cache, p);
    if limit > 0 {
      PinnedShed(loaded, used, p, limit, pageBytes);
    } else {
      assert ShedAll(Held(loaded, used), Some(p), limit, pageBytes) == Held(loaded, used);
    }
  }

  /** Evicting around a pinned page keeps the table, and that page as it is. */
  lemma PinnedShed(c: Cache, used: nat, p: PageId, limit: nat, pageBytes: Page -> nat)
    requires Fit(Held(c, used), limit) && limit > 0 && p in c.rowSpace
    ensures var r := ShedAll(Held(c, used), Some(p), limit, pageBytes);
      Fit(r, limit) && SameTable(c, r.cache) && p in r.cache.rowSpace && r.cache.rowSpace[p] == c.rowSpace[p]
  {
    ShedNothing(c, used, Some(p), limit, pageBytes);
    ShedAllKeeps(c, used, Held(c, used), Some(p), limit, pageBytes);
  }

  lemma {:induction false} BroughtInAllKeeps(h: Held, ps: seq<PageId>, limit: nat, pageBytes: Page -> nat)
    requires Fit(h, limit) && forall i :: 0 <= i < |ps| ==> Referenced(h.cache.locations, ps[i])
    ensures var r := BroughtInAll(h, ps, limit, pageBytes);
      && Fit(r, limit) && SameTable(h.cache, r.cache)
      && (limit == 0 ==> h.cache.rowSpace.Keys <= r.cache.rowSpace.Keys && forall i :: 0 <= i < |ps| ==> ps[i] in r.cache.rowSpace)
    decreases |ps|
  {
    if ps != [] {
      BroughtInKeeps(h, ps[0], limit, pageBytes);
      var rest := ps[1..];
      BroughtInAllKeeps(BroughtIn(h, ps[0], limit, pageBytes), rest, limit, pageBytes);
      assert forall i :: 1 <= i < |ps| ==> ps[i] == rest[i - 1];
    }
  }

  /** Pages that are all there are only touched. */
  lemma {:induction false} OnlyTouched(h: Held, ps: seq<PageId>, limit: nat, pageBytes: Page -> nat)
    requires h.cache.lru.Keys == h.cache.rowSpace.Keys && forall i :: 0 <= i < |ps| ==> ps[i] in h.cache.rowSpace
    ensures var r := BroughtInAll(h, ps, limit, pageBytes);
      r.cache.rowSpace == h.cache.rowSpace && r.cache.locations == h.cache.locations
    decreases |ps|
  {
    if ps != [] { OnlyTouched(BroughtIn(h, ps[0], limit, pageBytes), ps[1..], limit, pageBytes); }
  }

  // ---- Materialising --------------------------------------------------------------------------------

  /** Every page that holds rows brought in, in page order. */
  ghost function Materialised(h: Held, limit: nat, pageBytes: Page -> nat): (r: Held)
    requires h.cache.lru.Keys == h.cache.rowSpace.Keys
    ensures r.cache.lru.Keys == r.cache.rowSpace.Keys
  {
    BroughtInAll(h, Sorted(h.cache.locations.Values), limit, pageBytes)
  }

  lemma LocatedIsReferenced(locations: map<RowId, PageId>)
    ensures forall i :: 0 <= i < |Sorted(locations.Values)| ==> Referenced(locations, Sorted(locations.Values)[i])
  {
    var ps := Sorted(locations.Values);
    forall i | 0 <= i < |ps| ensures Referenced(locations, ps[i]) { assert ps[i] in ps; }
  }

  lemma MaterialisedKeeps(h: Held, limit: nat, pageBytes: Page -> nat)
    requires Fit(h, limit)
    ensures var r := Materialised(h, limit, pageBytes);
      && Fit(r, limit) && SameTable(h.cache, r.cache)
      && (limit == 0 || AllResident(h.cache) ==> AllResident(r.cache))
  {
    var ps, r := Sorted(h.cache.locations.Values), Materialised(h, limit, pageBytes);
    LocatedIsReferenced(h.cache.locations);
    BroughtInAllKeeps(h, ps, limit, pageBytes);
    if AllResident(h.cache) {
      forall i | 0 <= i < |ps| ensures ps[i] in h.cache.rowSpace { assert Referenced(h.cache.locations, ps[i]); }
      OnlyTouched(h, ps, limit, pageBytes);
    } else if limit == 0 {
      forall x | x in h.cache.locations ensures h.cache.locations[x] in r.cache.rowSpace {
        assert h.cache.locations[x] in h.cache.locations.Values && h.cache.locations[x] in ps;
      }
    }
  }

  // ---- Between pruning and repacking ----------------------------------------------------------------

  /** The pages index pruning asks for, one per row it looks up. */
  function ProbedPages(locations: map<RowId, PageId>, probes: seq<RowId>): seq<PageId> {
    if probes == [] then []
    else (if probes[0] in locations then [locations[probes[0]]] else []) + ProbedPages(locations, probes[1..])
  }

  lemma {:induction false} ProbedIsReferenced(locations: map<RowId, PageId>, probes: seq<RowId>)
    ensures forall i :: 0 <= i < |ProbedPages(locations, probes)| ==> Referenced(locations, ProbedPages(locations, probes)[i])
    decreases |probes|
  {
    if probes != [] { ProbedIsReferenced(locations, probes[1..]); }
  }

  /** What repacking finds in memory. */
  ghost function BeforeRepacking(h: Held, oldest: TransactionId, probes: seq<RowId>, limit: nat, pageBytes: Page -> nat): (r: Held)
    requires h.cache.lru.Keys == h.cache.rowSpace.Keys
    ensures r.cache.lru.Keys == r.cache.rowSpace.Keys
  {
    var m := Materialised(h, limit, pageBytes);
    BroughtInAll(Held(VersionsPruned(m.cache, oldest), m.used), ProbedPages(m.cache.locations, probes), limit, pageBytes)
  }

  /** Rows of page `p` as they were in `c`, or pruned. */
  ghost predicate HalfRows(c: Cache, oldest: TransactionId, p: PageId, rows: map<RowId, Chain>) {
    Copy(c, p).Some? && (rows == Copy(c, p).value.rows || rows == PruneRows(Copy(c, p).value.rows, oldest))
  }

  /** Wherever page `p` may be read from, its rows are those of `c` or pruned. */
  ghost predicate HalfPage(c: Cache, oldest: TransactionId, limit: nat, d: Cache, p: PageId) {
    && (p in d.rowSpace ==> HalfRows(c, oldest, p, d.rowSpace[p].rows) && (p in c.rowSpace || Referenced(c.locations, p)))
    && (Referenced(c.locations, p) && (p !in d.rowSpace || (limit > 0 && !d.rowSpace[p].dirty && p in d.onDisk)) ==>
         p in d.disk && HalfRows(c, oldest, p, d.disk[p].rows))
    && DiskInv(d, p)
  }

  ghost predicate HalfPruned(c: Cache, oldest: TransactionId, limit: nat, d: Cache) {
    && d.locations == c.locations && d.nextRow == c.nextRow && d.pageSize == c.pageSize && d.lru.Keys == d.rowSpace.Keys
    && forall p: PageId :: HalfPage(c, oldest, limit, d, p)
  }

  lemma HalfBounded(c: Cache, oldest: TransactionId, p: PageId, rows: map<RowId, Chain>)
    requires CacheOk(c) && HalfRows(c, oldest, p, rows)
    ensures forall r :: r in rows ==> r <= c.nextRow
  {
    if p in c.rowSpace { ResidentBounded(c, p); } else { assert DiskInv(c, p); }
  }

  lemma HalfStart(c: Cache, oldest: TransactionId, limit: nat)
    requires CacheOk(c) && (limit > 0 ==> AllMayLeave(c))
    ensures HalfPruned(c, oldest, limit, VersionsPruned(c, oldest))
  {
    var d := VersionsPruned(c, oldest);
    forall p: PageId ensures HalfPage(c, oldest, limit, d, p) {
      assert PageInv(c, p) && DiskInv(c, p) && (limit > 0 ==> MayLeave(c, p));
    }
  }

  lemma HalfEvict(c: Cache, oldest: TransactionId, limit: nat, d: Cache, q: PageId)
    requires CacheOk(c) && HalfPruned(c, oldest, limit, d) && q in d.rowSpace && limit > 0
    ensures HalfPruned(c, oldest, limit, Evicted(d, q))
  {
    assert HalfPage(c, oldest, limit, d, q);
    HalfBounded(c, oldest, q, d.rowSpace[q].rows);
    forall p: PageId ensures HalfPage(c, oldest, limit, Evicted(d, q), p) { assert HalfPage(c, oldest, limit, d, p); }
  }

  lemma HalfTouch(c: Cache, oldest: TransactionId, limit: nat, d: Cache, q: PageId)
    requires HalfPruned(c, oldest, limit, d) && q in d.rowSpace
    ensures HalfPruned(c, oldest, limit, Touched(d, q))
  {
    forall p: PageId ensures HalfPage(c, oldest, limit, Touched(d, q), p) { assert HalfPage(c, oldest, limit, d, p); }
  }

  lemma HalfLoad(c: Cache, oldest: TransactionId, limit: nat, d: Cache, q: PageId)
    requires HalfPruned(c, oldest, limit, d) && q !in d.rowSpace && Referenced(c.locations, q)
    ensures q in d.disk && HalfPruned(c, oldest, limit, Loaded(d, q))
  {
    assert HalfPage(c, oldest, limit, d, q);
    forall p: PageId ensures HalfPage(c, oldest, limit, Loaded(d, q), p) { assert HalfPage(c, oldest, limit, d, p); }
  }

  lemma {:induction false} HalfShed(c: Cache, oldest: TransactionId, h: Held, pinned: Option<PageId>, limit: nat, pageBytes: Page -> nat)
    requires CacheOk(c) && HalfPruned(c, oldest, limit, h.cache)
    ensures HalfPruned(c, oldest, limit, ShedAll(h, pinned, limit, pageBytes).cache)
    decreases h.cache.rowSpace.Keys
  {
    if limit > 0 && h.used > limit && Moments(h.cache.lru, pinned) != {} {
      HalfEvict(c, oldest, limit, h.cache, Victim(h.cache.lru, pinned));
      HalfShed(c, oldest, EvictVictim(h, pinned, pageBytes), pinned, limit, pageBytes);
    }
  }

  lemma {:induction false} HalfBroughtInAll(c: Cache, oldest: TransactionId, h: Held, ps: seq<PageId>, limit: nat, pageBytes: Page -> nat)
    requires CacheOk(c) && HalfPruned(c, oldest, limit, h.cache) && forall i :: 0 <= i < |ps| ==> Referenced(c.locations, ps[i])
    ensures HalfPruned(c, oldest, limit, BroughtInAll(h, ps, limit, pageBytes).cache)
    decreases |ps|
  {
    if ps != [] {
      var p := ps[0];
      if p in h.cache.rowSpace {
        HalfTouch(c, oldest, limit, h.cache, p);
      } else {
        HalfLoad(c, oldest, limit, h.cache, p);
        HalfShed(c, oldest, Held(Loaded(h.cache, p), (h.used + pageBytes(h.cache.disk[p])) % TWO64), Some(p), limit, pageBytes);
      }
      HalfBroughtInAll(c, oldest, BroughtIn(h, p, limit, pageBytes), ps[1..], limit, pageBytes);
    }
  }

  // ---- The outcome ----------------------------------------------------------------------------------

  /** The table after a vacuum. */
  ghost function VacuumResult(h: Held, oldest: TransactionId, probes: seq<RowId>, limit: nat, pageBytes: Page -> nat, rowSize: Chain -> nat): Cache
    requires h.cache.lru.Keys == h.cache.rowSpace.Keys && h.cache.pageSize >= 1
  {
    var c := BeforeRepacking(h, oldest, probes, limit, pageBytes).cache;
    if c.pageSize >= 1 then Flushed(PackRows(c, ResidentRows(c), rowSize)) else c
  }

  /** When repacking starts, every row is on its resident page and pruned. */
  ghost predicate VacuumCompletes(h: Held, oldest: TransactionId, probes: seq<RowId>, limit: nat, pageBytes: Page -> nat)
    requires h.cache.lru.Keys == h.cache.rowSpace.Keys
  {
    var c := BeforeRepacking(h, oldest, probes, limit, pageBytes).cache;
    forall r :: r in View(h.cache) ==> HeldRow(c, r) == PruneChain(View(h.cache)[r], oldest)
  }

  /** A row held half-way is as it was, or pruned, or not held. */
  lemma HalfHeld(c: Cache, oldest: TransactionId, limit: nat, d: Cache, r: RowId)
    requires CacheOk(c) && HalfPruned(c, oldest, limit, d)
    ensures HeldRow(d, r) != [] ==>
      r in View(c) && (HeldRow(d, r) == View(c)[r] || HeldRow(d, r) == PruneChain(View(c)[r], oldest))
  {
    if HeldRow(d, r) != [] {
      assert RowInv(c, r);
      assert HalfPage(c, oldest, limit, d, c.locations[r]);
    }
  }

  lemma HalfPrunedHolds(h: Held, oldest: TransactionId, probes: seq<RowId>, limit: nat, pageBytes: Page -> nat)
    requires Fit(h, limit)
    ensures HalfPruned(Materialised(h, limit, pageBytes).cache, oldest, limit, BeforeRepacking(h, oldest, probes, limit, pageBytes).cache)
  {
    var m := Materialised(h, limit, pageBytes);
    MaterialisedKeeps(h, limit, pageBytes);
    HalfStart(m.cache, oldest, limit);
    ProbedIsReferenced(m.cache.locations, probes);
    HalfBroughtInAll(m.cache, oldest, Held(VersionsPruned(m.cache, oldest), m.used), ProbedPages(m.cache.locations, probes), limit, pageBytes);
  }

  /** Rows of a resident page are located on it, also half-way. */
  lemma HalfLocated(m: Cache, oldest: TransactionId, limit: nat, c: Cache, p: PageId, r: RowId)
    requires CacheOk(m) && HalfPruned(m, oldest, limit, c) && p in c.rowSpace && r in c.rowSpace[p].rows
    ensures r in m.locations && m.locations[r] == p
  {
    assert HalfPage(m, oldest, limit, c, p) && PageInv(m, p);
  }

  /** Rows of resident pages are located on them. */
  predicate RowsLocated(c: Cache) {
    forall p, r :: p in c.rowSpace && r in c.rowSpace[p].rows ==> r in c.locations && c.locations[r] == p
  }

  lemma HalfWay(h: Held, oldest: TransactionId, probes: seq<RowId>, limit: nat, pageBytes: Page -> nat)
    requires Fit(h, limit)
    ensures var c := BeforeRepacking(h, oldest, probes, limit, pageBytes).cache;
      RowsLocated(c) && c.pageSize == h.cache.pageSize
  {
    var m, c := Materialised(h, limit, pageBytes).cache, BeforeRepacking(h, oldest, probes, limit, pageBytes).cache;
    MaterialisedKeeps(h, limit, pageBytes);
    HalfPrunedHolds(h, oldest, probes, limit, pageBytes);
    forall p, r | p in c.rowSpace && r in c.rowSpace[p].rows ensures r in c.locations && c.locations[r] == p {
      HalfLocated(m, oldest, limit, c, p, r);
    }
  }

  /**
   * A vacuum leaves a sound, fully resident table in id order along its pages. No row is invented,
   * and one that is there is as it was or pruned. The rows are exactly the pruned rows if and only if
   * every row was resident and pruned when repacking started.
   */
  lemma VacuumOutcome(h: Held, oldest: TransactionId, probes: seq<RowId>, limit: nat, pageBytes: Page -> nat, rowSize: Chain -> nat)
    requires Fit(h, limit) && forall row :: rowSize(row) > 0
    ensures var d, v := VacuumResult(h, oldest, probes, limit, pageBytes, rowSize), View(h.cache);
      && CacheOk(d) && AllMayLeave(d) && AllResident(d) && Monotone(d.locations)
      && View(d) == ResidentRows(BeforeRepacking(h, oldest, probes, limit, pageBytes).cache)
      && (forall r :: r in View(d) ==> r in v && (View(d)[r] == v[r] || View(d)[r] == PruneChain(v[r], oldest)))
      && (View(d) == PruneRows(v, oldest) <==> VacuumCompletes(h, oldest, probes, limit, pageBytes))
  {
    var m := Materialised(h, limit, pageBytes);
    var c := BeforeRepacking(h, oldest, probes, limit, pageBytes).cache;
    MaterialisedKeeps(h, limit, pageBytes);
    HalfPrunedHolds(h, oldest, probes, limit, pageBytes);
    RepackedOutcome(m.cache, oldest, limit, c, rowSize);
    ResidentIsPrunedIff(m.cache, oldest, limit, c);
  }

  lemma RepackedOutcome(m: Cache, oldest: TransactionId, limit: nat, c: Cache, rowSize: Chain -> nat)
    requires CacheOk(m) && HalfPruned(m, oldest, limit, c) && forall row :: rowSize(row) > 0
    ensures c.pageSize >= 1
    ensures var d := Flushed(PackRows(c, ResidentRows(c), rowSize));
      && CacheOk(d) && AllMayLeave(d) && AllResident(d) && Monotone(d.locations) && View(d) == ResidentRows(c)
      && forall r :: r in View(d) ==> r in View(m) && (View(d)[r] == View(m)[r] || View(d)[r] == PruneChain(View(m)[r], oldest))
  {
    var rows := ResidentRows(c);
    forall r | r in rows
      ensures r <= c.nextRow && r in View(m) && (rows[r] == View(m)[r] || rows[r] == PruneChain(View(m)[r], oldest))
    {
      HalfHeld(m, oldest, limit, c, r);
      assert RowInv(m, r);
    }
    forall p: PageId ensures DiskInv(c, p) { assert HalfPage(m, oldest, limit, c, p); }
    PackRowsShows(c, rows, rowSize);
    FlushKeeps(PackRows(c, rows, rowSize));
  }

  lemma ResidentIsPrunedIff(m: Cache, oldest: TransactionId, limit: nat, c: Cache)
    requires CacheOk(m) && c.locations == m.locations
    ensures ResidentRows(c) == PruneRows(View(m), oldest) <==> forall r :: r in View(m) ==> HeldRow(c, r) == PruneChain(View(m)[r], oldest)
  {
    forall r: RowId ensures DoneAt(ResidentRows(c), PruneRows(View(m), oldest), m, c, oldest, r) { assert RowInv(m, r); }
    DoneIff(ResidentRows(c), PruneRows(View(m), oldest), m, c, oldest);
  }

  /** Row `r` among the drained rows `a` and among the pruned rows `b`. */
  ghost predicate DoneAt(a: map<RowId, Chain>, b: map<RowId, Chain>, m: Cache, c: Cache, oldest: TransactionId, r: RowId) {
    && (r in a ==> r in View(m) && a[r] == HeldRow(c, r) != []) && (r in View(m) && HeldRow(c, r) != [] ==> r in a)
    && (r in b ==> r in View(m) && b[r] == PruneChain(View(m)[r], oldest) != []) && (r in View(m) && PruneChain(View(m)[r], oldest) != [] ==> r in b)
  }

  lemma DoneIff(a: map<RowId, Chain>, b: map<RowId, Chain>, m: Cache, c: Cache, oldest: TransactionId)
    requires forall r: RowId :: DoneAt(a, b, m, c, oldest, r)
    ensures a == b <==> forall r :: r in View(m) ==> HeldRow(c, r) == PruneChain(View(m)[r], oldest)
  {
    if forall r :: r in View(m) ==> HeldRow(c, r) == PruneChain(View(m)[r], oldest) {
      forall r: RowId ensures r in a <==> r in b { assert DoneAt(a, b, m, c, oldest, r); }
      assert a.Keys == b.Keys;
      forall r | r in a ensures a[r] == b[r] { assert DoneAt(a, b, m, c, oldest, r); }
    }
    if a == b {
      forall r | r in View(m) ensures HeldRow(c, r) == PruneChain(View(m)[r], oldest) { assert DoneAt(a, b, m, c, oldest, r); }
    }
  }

  // ---- When it completes ----------------------------------------------------------------------------

  lemma HeldIsViewed(c: Cache, r: RowId)
    requires CacheOk(c) && r in View(c)
    ensures HeldRow(c, r) == if c.locations[r] in c.rowSpace then View(c)[r] else []
  {
  }

  /** Without indexes, a vacuum completes exactly when every row that keeps a version is resident once all pages were asked for. */
  lemma VacuumReachesIff(h: Held, oldest: TransactionId, limit: nat, pageBytes: Page -> nat)
    requires Fit(h, limit)
    ensures VacuumCompletes(h, oldest, [], limit, pageBytes) <==> VacuumReaches(Materialised(h, limit, pageBytes).cache, oldest)
  {
    var m := Materialised(h, limit, pageBytes).cache;
    MaterialisedKeeps(h, limit, pageBytes);
    assert ProbedPages(m.locations, []) == [];
    forall r | r in View(m)
      ensures HeldRow(VersionsPruned(m, oldest), r) == if m.locations[r] in m.rowSpace then PruneChain(View(m)[r], oldest) else []
    {
      PrunedHeldRow(m, oldest, r);
      HeldIsViewed(m, r);
    }
  }

  /** Without a limit, or with every page resident beforehand, a vacuum always completes. */
  lemma VacuumCompletesResident(h: Held, oldest: TransactionId, probes: seq<RowId>, limit: nat, pageBytes: Page -> nat)
    requires Fit(h, limit) && (limit == 0 || AllResident(h.cache))
    ensures VacuumCompletes(h, oldest, probes, limit, pageBytes)
  {
    var m := Materialised(h, limit, pageBytes);
    var d := VersionsPruned(m.cache, oldest);
    MaterialisedKeeps(h, limit, pageBytes);
    ProbedIsReferenced(m.cache.locations, probes);
    var ps := ProbedPages(m.cache.locations, probes);
    forall i | 0 <= i < |ps| ensures ps[i] in d.rowSpace { assert Referenced(m.cache.locations, ps[i]); }
    OnlyTouched(Held(d, m.used), ps, limit, pageBytes);
    var c := BeforeRepacking(h, oldest, probes, limit, pageBytes).cache;
    forall r | r in View(h.cache) ensures HeldRow(c, r) == PruneChain(View(h.cache)[r], oldest) {
      PrunedHeldRow(m.cache, oldest, r);
      HeldIsViewed(m.cache, r);
    }
  }

  // ---- Being used -----------------------------------------------------------------------------------

  /** Page `p` was used after every other tracked page. */
  ghost predicate Newest(lru: map<PageId, nat>, p: PageId) {
    p in lru && forall q :: q in lru && q != p ==> lru[q] < lru[p]
  }

  /** Eviction leaves the moments of the pages that stay, and never takes the pinned page. */
  lemma {:induction false} ShedAllMoments(h: Held, p: PageId, limit: nat, pageBytes: Page -> nat)
    requires h.cache.lru.Keys == h.cache.rowSpace.Keys
    ensures var r := ShedAll(h, Some(p), limit, pageBytes);
      (forall q :: q in r.cache.lru ==> q in h.cache.lru && r.cache.lru[q] == h.cache.lru[q]) && (p in h.cache.lru ==> p in r.cache.lru)
    decreases h.cache.rowSpace.Keys
  {
    if limit != 0 && h.used > limit && Moments(h.cache.lru, Some(p)) != {} {
      ShedAllMoments(EvictVictim(h, Some(p), pageBytes), p, limit, pageBytes);
    }
  }

  /** After `before`, page `p` was used, and the others that stay were not. */
  ghost predicate UsedLast(before: map<PageId, nat>, after: map<PageId, nat>, p: PageId) {
    Newest(after, p) && forall q :: q in after && q != p ==> q in before && after[q] == before[q]
  }

  lemma UsedThenShed(c: Cache, used: nat, p: PageId, limit: nat, pageBytes: Page -> nat)
    requires Tracked(c) && p !in c.rowSpace && p in c.disk
    ensures UsedLast(c.lru, ShedAll(Held(Loaded(c, p), used), Some(p), limit, pageBytes).cache.lru, p)
  {
    UsedNow(c, p);
    NewestStays(Held(Loaded(c, p), used), p, limit, pageBytes);
    StillLast(c.lru, Loaded(c, p).lru, ShedAll(Held(Loaded(c, p), used), Some(p), limit, pageBytes).cache.lru, p);
  }

  /** The page just asked for, resident or not, is the most recently used; the others that stay keep their order. */
  lemma JustUsed(h: Held, p: PageId, limit: nat, pageBytes: Page -> nat)
    requires Tracked(h.cache) && (p in h.cache.rowSpace || p in h.cache.disk)
    ensures UsedLast(h.cache.lru, BroughtIn(h, p, limit, pageBytes).cache.lru, p)
  {
    UsedNow(h.cache, p);
    if p !in h.cache.rowSpace {
      var shown := (h.used + pageBytes(h.cache.disk[p])) % TWO64;
      BroughtInSheds(h, p, limit, pageBytes, shown, BroughtIn(h, p, limit, pageBytes));
      UsedThenShed(h.cache, shown, p, limit, pageBytes);
    }
  }

  lemma StillLast(before: map<PageId, nat>, used: map<PageId, nat>, after: map<PageId, nat>, p: PageId)
    requires UsedLast(before, used, p) && Newest(after, p) && forall q :: q in after ==> q in used && after[q] == used[q]
    ensures UsedLast(before, after, p)
  {
  }

  lemma NewestStays(h: Held, p: PageId, limit: nat, pageBytes: Page -> nat)
    requires h.cache.lru.Keys == h.cache.rowSpace.Keys && Newest(h.cache.lru, p)
    ensures var lru := ShedAll(h, Some(p), limit, pageBytes).cache.lru;
      Newest(lru, p) && forall q :: q in lru ==> q in h.cache.lru && lru[q] == h.cache.lru[q]
  {
    ShedAllMoments(h, p, limit, pageBytes);
  }

  lemma UsedNow(c: Cache, p: PageId)
    requires Tracked(c)
    ensures UsedLast(c.lru, c.lru[p := c.clock], p)
  {
  }

  /** So it is the next to be evicted only if there is no other. */
  lemma JustUsedIsSpared(h: Held, p: PageId, q: PageId, limit: nat, pageBytes: Page -> nat)
    requires Tracked(h.cache) && (p in h.cache.rowSpace || p in h.cache.disk)
    requires q != p && q in BroughtIn(h, p, limit, pageBytes).cache.lru
    ensures var lru := BroughtIn(h, p, limit, pageBytes).cache.lru;
      Moments(lru, None) != {} && Victim(lru, None) != p
  {
    var lru := BroughtIn(h, p, limit, pageBytes).cache.lru;
    JustUsed(h, p, limit, pageBytes);
    assert lru[q] in Moments(lru, None);
    assert NotNewer(Victim(lru, None), lru, None, q);
  }

  /** The bytes of page `p` were added to the counter, those of the pages that went taken off, until the limit was met or no other page left. */
  ghost predicate Counted(h: Held, r: Held, p: PageId, limit: nat, pageBytes: Page -> nat)
    requires p in h.cache.disk
  {
    && r.used == (h.used + pageBytes(h.cache.disk[p]) - TotalBytes(h.cache.rowSpace.Keys - r.cache.rowSpace.Keys, h.cache.rowSpace, pageBytes)) % TWO64
    && (r.used <= limit || r.cache.rowSpace.Keys == {p})
  }

  lemma BroughtInCounts(h: Held, p: PageId, limit: nat, pageBytes: Page -> nat, r: Held)
    requires Fit(h, limit) && limit > 0 && Referenced(h.cache.locations, p) && p !in h.cache.rowSpace
    requires r == BroughtIn(h, p, limit, pageBytes)
    ensures p in h.cache.disk && Counted(h, r, p, limit, pageBytes)
  {
    assert PageInv(h.cache, p);
    var shown := (h.used + pageBytes(h.cache.disk[p])) % TWO64;
    BroughtInSheds(h, p, limit, pageBytes, shown, r);
    LoadedShed(h.cache, shown, p, limit, pageBytes, r);
    LoadedCounts(h, shown, p, r, limit, pageBytes);
  }

  lemma BroughtInSheds(h: Held, p: PageId, limit: nat, pageBytes: Page -> nat, shown: nat, r: Held)
    requires h.cache.lru.Keys == h.cache.rowSpace.Keys && p !in h.cache.rowSpace && p in h.cache.disk
    requires r == BroughtIn(h, p, limit, pageBytes) && shown == (h.used + pageBytes(h.cache.disk[p])) % TWO64
    ensures r == ShedAll(Held(Loaded(h.cache, p), shown), Some(p), limit, pageBytes)
  {
  }

  lemma LoadedShed(c: Cache, used: nat, p: PageId, limit: nat, pageBytes: Page -> nat, r: Held)
    requires CacheOk(c) && AllMayLeave(c) && limit > 0 && used < TWO64 && Referenced(c.locations, p) && p !in c.rowSpace && p in c.disk
    requires r == ShedAll(Held(Loaded(c, p), used), Some(p), limit, pageBytes)
    ensures Shed(Loaded(c, p), used, r.cache, r.used, Some(p), limit, pageBytes) && Settled(r.cache, r.used, Some(p), limit)
    ensures p in r.cache.rowSpace
  {
    LoadKeeps(c, p);
    ShedNothing(Loaded(c, p), used, Some(p), limit, pageBytes);
    ShedAllKeeps(Loaded(c, p), used, Held(Loaded(c, p), used), Some(p), limit, pageBytes);
  }

  lemma LoadedCounts(h: Held, shown: nat, p: PageId, r: Held, limit: nat, pageBytes: Page -> nat)
    requires h.cache.lru.Keys == h.cache.rowSpace.Keys && p in h.cache.disk && p !in h.cache.rowSpace && limit > 0
    requires shown == (h.used + pageBytes(h.cache.disk[p])) % TWO64
    requires Shed(Loaded(h.cache, p), shown, r.cache, r.used, Some(p), limit, pageBytes)
    requires Settled(r.cache, r.used, Some(p), limit) && p in r.cache.rowSpace
    ensures Counted(h, r, p, limit, pageBytes)
  {
    var gone := Gone(Loaded(h.cache, p), r.cache);
    assert gone == h.cache.rowSpace.Keys - r.cache.rowSpace.Keys;
    SameTotal(gone, Loaded(h.cache, p).rowSpace, h.cache.rowSpace, pageBytes);
    SubMod(h.used + pageBytes(h.cache.disk[p]), TotalBytes(gone, h.cache.rowSpace, pageBytes));
  }

  lemma {:induction false} SameTotal(ids: set<PageId>, pages: map<PageId, Page>, others: map<PageId, Page>, pageBytes: Page -> nat)
    requires ids <= pages.Keys && ids <= others.Keys && forall p :: p in ids ==> pages[p] == others[p]
    ensures TotalBytes(ids, pages, pageBytes) == TotalBytes(ids, others, pageBytes)
    decreases |ids|
  {
    if ids != {} {
      var x :| x in ids;
      TotalBytesRemove(ids, pages, pageBytes, x);
      TotalBytesRemove(ids, others, pageBytes, x);
      SameTotal(ids - {x}, pages, others, pageBytes);
    }
  }
}
