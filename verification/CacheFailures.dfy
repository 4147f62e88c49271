/** Short runs of a table in which rollback, vacuum or restart does not do what it should. */
module CacheFailures {
  import opened Prelude
  import opened Values
  import opened Transactions
  import opened Rows
  import opened Pages
  import opened Compaction
  import opened MvccStore
  import opened PageCache
  import opened TableMaintenance
  import opened CacheRuns
  import opened Eviction
  import opened Vacuum

  /** A table with one page and one row on it. */
  function OneRow(pageSize: nat, row: Chain): Cache {
    Placed(Registered(EmptyCache(pageSize)), 0, 1, row, 1)
  }

  function Inserting(row: Chain): seq<CacheOp> { [Register, Place(0, 1, row, 1)] }

  lemma OneRowReached(pageSize: nat, row: Chain, rowSize: Chain -> nat)
    requires pageSize >= 1
    ensures AllowedRun(EmptyCache(pageSize), Inserting(row), rowSize)
    ensures CacheRun(EmptyCache(pageSize), Inserting(row), rowSize) == OneRow(pageSize, row)
    ensures CacheOk(OneRow(pageSize, row)) && AllMayLeave(OneRow(pageSize, row)) && View(OneRow(pageSize, row)) == map[1 := row]
  {
    var c, d := EmptyCache(pageSize), OneRow(pageSize, row);
    assert AllowedRun(c, [], rowSize) && CacheRun(c, [], rowSize) == c;
    RunOneMore(c, [], Register, rowSize);
    assert [] + [Register] == [Register];
    RunOneMore(c, [Register], Place(0, 1, row, 1), rowSize);
    assert [Register] + [Place(0, 1, row, 1)] == Inserting(row);
    EmptyCacheOk(pageSize);
    RegisterKeeps(c);
    PlaceKeeps(Registered(c), 0, 1, row, 1);
  }

  /** A row inserted by `t` on a page that was evicted survives the rollback of `t`. */
  lemma RollbackMissesEvictedPage(pageSize: nat, t: TransactionId, d: RowData, rowSize: Chain -> nat)
    requires pageSize >= 1
    ensures var row := [NewVersion(t, d)];
      var run := Inserting(row) + [Evict(0)];
      && AllowedRun(EmptyCache(pageSize), run, rowSize)
      && var c := CacheRun(EmptyCache(pageSize), run, rowSize);
         View(RolledBack(c, t)) == map[1 := row] && RollbackRows(map[1 := row], t) != map[1 := row]
  {
    var row := [NewVersion(t, d)];
    OneRowReached(pageSize, row, rowSize);
    RunOneMore(EmptyCache(pageSize), Inserting(row), Evict(0), rowSize);
    var c := Evicted(OneRow(pageSize, row), 0);
    assert Find(RolledBack(c, t), 1) == Some(row) && RolledBack(c, t).locations.Keys == {1};
    assert View(RolledBack(c, t)) == map[1 := row];
    assert RollbackRows(map[1 := row], t)[1] == RollbackChain(row, t) && RollbackChain(row, t)[0] != row[0];
  }

  /** A row flushed before `t` is rolled back comes back when its page leaves memory afterwards. */
  lemma EvictionRevivesRolledBackRow(pageSize: nat, t: TransactionId, d: RowData, rowSize: Chain -> nat)
    requires pageSize >= 1
    ensures var row := [NewVersion(t, d)];
      var run := Inserting(row) + [Flush] + [CacheOp.Rollback(t)];
      && AllowedRun(EmptyCache(pageSize), run, rowSize)
      && var c := CacheRun(EmptyCache(pageSize), run, rowSize);
         && 0 in c.rowSpace && View(c) == RollbackRows(map[1 := row], t)
         && View(Evicted(c, 0)) == map[1 := row] && View(Evicted(c, 0)) != View(c)
  {
    var row := [NewVersion(t, d)];
    var one := OneRow(pageSize, row);
    OneRowReached(pageSize, row, rowSize);
    RunOneMore(EmptyCache(pageSize), Inserting(row), Flush, rowSize);
    FlushKeeps(one);
    var f := Flushed(one);
    assert RollbackReaches(f, t) && RollbackChain(row, t)[0] != row[0];
    RunOneMore(EmptyCache(pageSize), Inserting(row) + [Flush], CacheOp.Rollback(t), rowSize);
    SavedRowRevives(f, t, row);
  }

  lemma SavedRowRevives(f: Cache, t: TransactionId, row: Chain)
    requires f.locations == map[1 := 0] && RollbackChain(row, t) != row
    requires 0 in f.rowSpace && !f.rowSpace[0].dirty && 0 in f.onDisk && 0 in f.disk && f.disk[0] == f.rowSpace[0]
    requires Get(f.rowSpace[0].rows, 1) == Some(row)
    ensures var c := RolledBack(f, t);
      && View(c) == RollbackRows(map[1 := row], t)
      && View(Evicted(c, 0)) == map[1 := row] && View(Evicted(c, 0)) != View(c)
  {
    var c, undone := RolledBack(f, t), RollbackChain(row, t);
    SavedRowFinds(f, t, row);
    OnlyRow(c, undone);
    OnlyRow(Evicted(c, 0), row);
    assert RollbackRows(map[1 := row], t) == map[1 := undone];
    assert map[1 := undone][1] != map[1 := row][1];
  }

  lemma SavedRowFinds(f: Cache, t: TransactionId, row: Chain)
    requires f.locations == map[1 := 0] && 0 in f.rowSpace && !f.rowSpace[0].dirty && 0 in f.onDisk && 0 in f.disk
    requires f.disk[0] == f.rowSpace[0] && Get(f.rowSpace[0].rows, 1) == Some(row)
    ensures Find(RolledBack(f, t), 1) == Some(RollbackChain(row, t))
    ensures Find(Evicted(RolledBack(f, t), 0), 1) == Some(row) && Evicted(RolledBack(f, t), 0).locations == f.locations
  {
  }

  /** A table with one located row shows that row. */
  lemma OnlyRow(c: Cache, row: Chain)
    requires c.locations == map[1 := 0] && Find(c, 1) == Some(row)
    ensures View(c) == map[1 := row]
  {
  }

  // ---- Vacuum under a limit that admits one page ----------------------------------------------------

  /** Every page weighs ten bytes, and ten bytes are allowed. */
  const ROOM: nat := 10

  function TenBytes(): Page -> nat { (_: Page) => ROOM }

  /** With room for one page, bringing another one in evicts the one that was there. */
  lemma OneRoom(h: Held, q: PageId, p: PageId)
    requires h.cache.lru.Keys == h.cache.rowSpace.Keys == {q} && h.used == ROOM && p != q && p in h.cache.disk
    requires q in h.cache.disk || h.cache.rowSpace[q].dirty || q !in h.cache.onDisk
    ensures var r := BroughtIn(h, p, ROOM, TenBytes());
      r.cache.rowSpace.Keys == {p} && r.used == ROOM && r.cache.locations == h.cache.locations && q in r.cache.disk && p in r.cache.disk
  {
    var loaded := Held(Loaded(h.cache, p), 2 * ROOM);
    OtherLeaves(loaded, q, p);
  }

  /** Of two pages, one of them pinned, the other one leaves and the counter is within the limit. */
  lemma OtherLeaves(h: Held, q: PageId, p: PageId)
    requires h.cache.lru.Keys == h.cache.rowSpace.Keys == {q, p} && p != q && h.used == 2 * ROOM
    ensures ShedAll(h, Some(p), ROOM, TenBytes()) == Held(Evicted(h.cache, q), ROOM)
    ensures Evicted(h.cache, q).rowSpace.Keys == {p}
  {
    OnlyVictim(h.cache.lru, p, q);
    var left := EvictVictim(h, Some(p), TenBytes());
    assert left == Held(Evicted(h.cache, q), ROOM);
    assert left.cache.rowSpace.Keys == {p};
    assert ShedAll(left, Some(p), ROOM, TenBytes()) == left;
  }

  /** Of two pages, one of them pinned, the other one is the victim. */
  lemma OnlyVictim(lru: map<PageId, nat>, p: PageId, q: PageId)
    requires lru.Keys == {q, p} && p != q
    ensures Moments(lru, Some(p)) != {} && Victim(lru, Some(p)) == q
  {
    assert lru[q] in Moments(lru, Some(p));
  }

  /** Two full pages with a row each; the first one has left memory. */
  function TwoRows(a: Chain, b: Chain): Cache {
    Evicted(Placed(Registered(OneRow(1, a)), 1, 2, b, 1), 0)
  }

  lemma TwoRowsReached(a: Chain, b: Chain, rowSize: Chain -> nat)
    ensures var run := Inserting(a) + [Register] + [Place(1, 2, b, 1)] + [Evict(0)];
      AllowedRun(EmptyCache(1), run, rowSize) && CacheRun(EmptyCache(1), run, rowSize) == TwoRows(a, b)
    ensures CacheOk(TwoRows(a, b)) && AllMayLeave(TwoRows(a, b)) && View(TwoRows(a, b)) == map[1 := a, 2 := b]
  {
    var c := OneRow(1, a);
    OneRowReached(1, a, rowSize);
    RunOneMore(EmptyCache(1), Inserting(a), Register, rowSize);
    RegisterKeeps(c);
    RunOneMore(EmptyCache(1), Inserting(a) + [Register], Place(1, 2, b, 1), rowSize);
    PlaceKeeps(Registered(c), 1, 2, b, 1);
    RunOneMore(EmptyCache(1), Inserting(a) + [Register] + [Place(1, 2, b, 1)], Evict(0), rowSize);
    EvictKeeps(Placed(Registered(c), 1, 2, b, 1), 0);
    assert map[1 := a][2 := b] == map[1 := a, 2 := b];
  }

  /** Asking for both pages leaves the second one alone in memory. */
  lemma OnlySecondStays(h: Held)
    requires h.cache.lru.Keys == h.cache.rowSpace.Keys == {1} && h.used == ROOM && h.cache.locations == map[1 := 0, 2 := 1]
    requires 0 in h.cache.disk && (1 in h.cache.disk || h.cache.rowSpace[1].dirty || 1 !in h.cache.onDisk)
    ensures var m := Materialised(h, ROOM, TenBytes());
      m.cache.rowSpace.Keys == {1} && m.cache.locations == h.cache.locations
  {
    OneRoom(h, 1, 0);
    var first := BroughtIn(h, 0, ROOM, TenBytes());
    OneRoom(first, 0, 1);
    TwoPages(h.cache.locations);
    BroughtInTwo(h, 0, 1);
  }

  lemma TwoPages(locations: map<RowId, PageId>)
    requires locations == map[1 := 0, 2 := 1]
    ensures Sorted(locations.Values) == [0, 1]
  {
    assert locations[1] == 0 && locations[2] == 1;
    assert locations.Values == {0, 1};
    var xs := Sorted({0, 1});
    assert Elements([0, 1]) == {0, 1} == Elements(xs);
    AscendingUnique(xs, [0, 1]);
  }

  lemma BroughtInTwo(h: Held, p: PageId, q: PageId)
    requires h.cache.lru.Keys == h.cache.rowSpace.Keys
    ensures BroughtInAll(h, [p, q], ROOM, TenBytes()) == BroughtIn(BroughtIn(h, p, ROOM, TenBytes()), q, ROOM, TenBytes())
  {
    var ps := [p, q];
    assert ps[1..] == [q] && [q][1..] == [];
    var first := BroughtIn(h, p, ROOM, TenBytes());
    assert BroughtInAll(first, [q], ROOM, TenBytes()) == BroughtIn(first, q, ROOM, TenBytes());
  }

  /**
   * A vacuum in which the pages it loads push each other out: with room for one page, the row on the
   * other one is gone.
   */
  lemma VacuumLosesRow(a: Chain, b: Chain, oldest: TransactionId, rowSize: Chain -> nat)
    requires PruneChain(a, oldest) != [] && forall chain :: rowSize(chain) > 0
    ensures var run := Inserting(a) + [Register] + [Place(1, 2, b, 1)] + [Evict(0)];
      && AllowedRun(EmptyCache(1), run, rowSize)
      && var h := Held(CacheRun(EmptyCache(1), run, rowSize), ROOM);
         && Fit(h, ROOM) && 1 in PruneRows(View(h.cache), oldest)
         && 1 !in View(VacuumResult(h, oldest, [], ROOM, TenBytes(), rowSize))
  {
    var h := Held(TwoRows(a, b), ROOM);
    TwoRowsReached(a, b, rowSize);
    assert h.cache.rowSpace.Keys == {1} && h.cache.locations == map[1 := 0, 2 := 1];
    FirstIsLost(h, oldest, rowSize);
  }

  lemma FirstIsLost(h: Held, oldest: TransactionId, rowSize: Chain -> nat)
    requires Fit(h, ROOM) && h.cache.rowSpace.Keys == {1} && h.used == ROOM && h.cache.locations == map[1 := 0, 2 := 1]
    requires 0 in h.cache.disk && (1 in h.cache.disk || h.cache.rowSpace[1].dirty || 1 !in h.cache.onDisk) && forall chain :: rowSize(chain) > 0
    ensures 1 !in View(VacuumResult(h, oldest, [], ROOM, TenBytes(), rowSize))
  {
    OnlySecondStays(h);
    NothingLookedUp(h, oldest);
    NotResident(VersionsPruned(Materialised(h, ROOM, TenBytes()).cache, oldest), 1);
    VacuumShows(h, oldest, rowSize);
  }

  lemma NotResident(c: Cache, r: RowId)
    requires r in c.locations && c.locations[r] !in c.rowSpace
    ensures r !in ResidentRows(c)
  {
  }

  lemma VacuumShows(h: Held, oldest: TransactionId, rowSize: Chain -> nat)
    requires Fit(h, ROOM) && forall chain :: rowSize(chain) > 0
    ensures View(VacuumResult(h, oldest, [], ROOM, TenBytes(), rowSize)) == ResidentRows(BeforeRepacking(h, oldest, [], ROOM, TenBytes()).cache)
  {
    VacuumOutcome(h, oldest, [], ROOM, TenBytes(), rowSize);
  }

  lemma NothingLookedUp(h: Held, oldest: TransactionId)
    requires h.cache.lru.Keys == h.cache.rowSpace.Keys
    ensures BeforeRepacking(h, oldest, [], ROOM, TenBytes()).cache == VersionsPruned(Materialised(h, ROOM, TenBytes()).cache, oldest)
  {
    assert ProbedPages(Materialised(h, ROOM, TenBytes()).cache.locations, []) == [];
  }

  // ---- Restart after the last row was vacuumed away -------------------------------------------------

  /**
   * A row is saved, deleted by a transaction that commits, and vacuumed away; it was the last one.
   * After a restart every new transaction reads it again.
   */
  lemma EmptiedTableComesBack(pageSize: nat, d: RowData, rowSize: Chain -> nat, next: TransactionId, t: TransactionId)
    requires pageSize >= 1 && (forall chain :: rowSize(chain) > 0) && t >= next >= 3
    ensures var row := [NewVersion(1, d)];
      var run := Inserting(row) + [Flush] + [Rewrite(1, [Stamp(NewVersion(1, d), 2)])] + [Vacuum(3)];
      && AllowedRun(EmptyCache(pageSize), run, rowSize)
      && var c := CacheRun(EmptyCache(pageSize), run, rowSize);
         && View(c) == map[] && 1 in View(Restarted(Flushed(c)))
         && ReadChain(View(Restarted(Flushed(c)))[1], t, RestartSnapshot(next)) == Some(d)
  {
    var row, dead := [NewVersion(1, d)], [Stamp(NewVersion(1, d), 2)];
    DeadRowSaved(pageSize, row, dead, rowSize);
    var g := Rewritten(Flushed(OneRow(pageSize, row)), 1, dead);
    NothingKept(d);
    assert VacuumReaches(g, 3);
    RunOneMore(EmptyCache(pageSize), Inserting(row) + [Flush] + [Rewrite(1, dead)], Vacuum(3), rowSize);
    EmptiedRestart(g, dead, row, rowSize);
    ReadsAgain(d, t, next);
  }

  lemma NothingKept(d: RowData)
    ensures PruneChain([Stamp(NewVersion(1, d), 2)], 3) == []
  {
    var dead := [Stamp(NewVersion(1, d), 2)];
    assert dead[..0] == [];
  }

  lemma ReadsAgain(d: RowData, t: TransactionId, next: TransactionId)
    requires t >= next >= 3
    ensures ReadChain([NewVersion(1, d)], t, RestartSnapshot(next)) == Some(d)
  {
  }

  /** The file holds the row as it was, memory the deleted one. */
  lemma DeadRowSaved(pageSize: nat, row: Chain, dead: Chain, rowSize: Chain -> nat)
    requires pageSize >= 1
    ensures var run, g := Inserting(row) + [Flush] + [Rewrite(1, dead)], Rewritten(Flushed(OneRow(pageSize, row)), 1, dead);
      && AllowedRun(EmptyCache(pageSize), run, rowSize) && CacheRun(EmptyCache(pageSize), run, rowSize) == g
      && CacheOk(g) && View(g) == map[1 := dead] && g.disk.Keys == {0} && Get(g.disk[0].rows, 1) == Some(row)
  {
    var f := Flushed(OneRow(pageSize, row));
    OneRowReached(pageSize, row, rowSize);
    RunOneMore(EmptyCache(pageSize), Inserting(row), Flush, rowSize);
    FlushKeeps(OneRow(pageSize, row));
    RunOneMore(EmptyCache(pageSize), Inserting(row) + [Flush], Rewrite(1, dead), rowSize);
    RewriteKeeps(f, 1, dead);
    assert map[1 := row][1 := dead] == map[1 := dead];
  }

  lemma EmptiedRestart(f: Cache, dead: Chain, row: Chain, rowSize: Chain -> nat)
    requires CacheOk(f) && View(f) == map[1 := dead] && PruneChain(dead, 3) == [] && forall chain :: rowSize(chain) > 0
    requires f.disk.Keys == {0} && Get(f.disk[0].rows, 1) == Some(row)
    ensures var c := Vacuumed(f, 3, rowSize);
      View(c) == map[] && 1 in View(Restarted(Flushed(c))) && View(Restarted(Flushed(c)))[1] == row
  {
    VacuumKeepsCache(f, 3, rowSize);
    EmptiedPages(f, dead, rowSize);
    LeftoverComesBack(Vacuumed(f, 3, rowSize), row);
  }

  lemma EmptiedPages(f: Cache, dead: Chain, rowSize: Chain -> nat)
    requires CacheOk(f) && View(f) == map[1 := dead] && PruneChain(dead, 3) == [] && forall chain :: rowSize(chain) > 0
    ensures Vacuumed(f, 3, rowSize).locations == map[] && Vacuumed(f, 3, rowSize).rowSpace == map[]
  {
    var rows := ResidentRows(VersionsPruned(f, 3));
    forall r: RowId ensures r !in rows { NotHeld(f, dead, r); }
    assert rows == map[];
    var none: set<RowId> := {};
    assert rows.Keys == none && Sorted(none) == [];
    assert LiveOf(rows, rowSize) == [];
  }

  lemma NotHeld(f: Cache, dead: Chain, r: RowId)
    requires CacheOk(f) && View(f) == map[1 := dead] && PruneChain(dead, 3) == []
    ensures HeldRow(VersionsPruned(f, 3), r) == []
  {
    PrunedHeldRow(f, 3, r);
    assert RowInv(f, r);
    if r in View(f) { HeldIsViewed(f, r); }
  }

  /** An empty table with one leftover page shows that page's rows after a restart. */
  lemma LeftoverComesBack(c: Cache, row: Chain)
    requires CacheOk(c) && c.locations == map[] && c.rowSpace == map[] && c.disk.Keys == {0} && Get(c.disk[0].rows, 1) == Some(row)
    ensures View(c) == map[] && 1 in View(Restarted(Flushed(c))) && View(Restarted(Flushed(c)))[1] == row
  {
    EmptyRestartShows(c, 1);
    assert Flushed(c).disk == c.disk;
    RebuiltFinds(c.disk, 1);
  }
}
