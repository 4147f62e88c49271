/** Reachable tables on which the index path, a join probe or UNIQUE does not do what it should. */
module SearchFailures {
  import opened Prelude
  import opened Values
  import opened Transactions
  import opened Rows
  import opened MvccStore
  import opened MvccTheorems
  import opened ColumnIndex
  import opened IndexedStore
  import opened IndexTheorems
  import opened SearchExpressions
  import opened AccessPaths
  import opened Joins
  import opened ScanOrder
  import opened Pages
  import opened PageCache
  import CacheRuns

  /** Row 1 lacks column 7, row 2 has an explicit NULL there. */
  function NullRun(): seq<Op> { [Begin, Insert(1, 1, map[]), Insert(1, 2, map[7 := Null])] }

  function NullStore(): Store {
    Store(World(Db(map[1 := [NewVersion(1, map[])], 2 := [NewVersion(1, map[7 := Null])]], Snapshot(0, 0, {1}), 2, 2),
                Spec(map[], map[1 := map[1 := Some(map[]), 2 := Some(map[7 := Null])]], 0, 2, 2)),
          Index(map[0 := {2}], map[Entry(0, 2) := 1]))
  }

  lemma NullStoreReached(hash: Value -> nat)
    ensures var cf := Config(7, hash);
      SafeRun(cf, StartStore, NullRun()) && RunStore(cf, StartStore, NullRun()) == NullStore() && StoreOk(cf, NullStore())
  {
    var cf, ops := Config(7, hash), NullRun();
    var s1 := NextStore(cf, StartStore, ops[0]);
    assert s1 == Store(World(Db(map[], Snapshot(0, 0, {1}), 2, 0), Spec(map[], map[1 := map[]], 0, 2, 0)), EmptyIndex);
    assert Accepts(cf, s1, ops[1]);
    var s2 := NextStore(cf, s1, ops[1]);
    var none: RowData := map[];
    var own: Writes := map[];
    assert own[1 := Some(none)] == map[1 := Some(none)];
    assert s2.ix == EmptyIndex;
    assert s2.w.db == Db(map[1 := [NewVersion(1, none)]], Snapshot(0, 0, {1}), 2, 1);
    assert s2.w.sp.pending == map[1 := map[1 := Some(none)]];
    assert Accepts(cf, s2, ops[2]);
    var s3 := NextStore(cf, s2, ops[2]);
    var nobody: set<RowId> := {};
    assert nobody + {2} == {2} && Key(Null, hash) == 0;
    assert s3.ix == Index(map[0 := {2}], map[Entry(0, 2) := 1]);
    assert s3.w == NullStore().w;
    assert ops[1..] == [ops[1], ops[2]] && ops[1..][1..] == [ops[2]] && ops[1..][1..][1..] == [];
    assert SafeRun(cf, s3, []) && SafeRun(cf, s2, ops[1..][1..]) && SafeRun(cf, s1, ops[1..]);
    assert RunStore(cf, s3, []) == s3 && RunStore(cf, s2, ops[1..][1..]) == s3 && RunStore(cf, s1, ops[1..]) == s3;
    StartStoreOk(cf);
    IndexStaysComplete(cf, StartStore, ops);
  }

  function NullTable(hash: Value -> nat): SearchTable {
    SearchTable(NullStore().w, map["c" := 7], map[7 := NullStore().ix], hash, map[1 := 0, 2 := 0])
  }

  /** `c = NULL` finds row 1 by a scan and not through the index. */
  lemma NullLookupMissesRow(hash: Value -> nat)
    ensures var tbl, filter := NullTable(hash), Comparison(Column("c"), Equal, Literal(Null));
      var byIndex, byScan := SearchIds(tbl, 1, Some(filter), Some(IndexEquality(Lookup("c", Null)))), SearchIds(tbl, 1, Some(filter), Some(SeqScan));
      && Sound(tbl) && Reader(tbl.w.sp, 1) && byIndex.Ok? && byScan.Ok? && 1 in Elements(byScan.value) && 1 !in Elements(byIndex.value)
  {
    var tbl, filter := NullTable(hash), Comparison(Column("c"), Equal, Literal(Null));
    NullTableSound(hash);
    NullCandidates(hash);
    LackingRowIsMissed(tbl, 1, filter, 1, {2});
  }

  /** A row that lacks the column and is not under the NULL key is found by the scan alone. */
  lemma LackingRowIsMissed(tbl: SearchTable, t: TransactionId, filter: Expr, r: RowId, ids: set<RowId>)
    requires Sound(tbl) && Reader(tbl.w.sp, t) && EqualityLookup(filter).Some? && KeyIndexed(tbl, EqualityLookup(filter).value)
    requires var l := EqualityLookup(filter).value;
      l.value == Null && r in tbl.locations && LacksColumn(tbl, t, r, tbl.columns[l.column]) && Candidates(tbl, t, l) == Ok(Some(ids)) && r !in ids
    ensures var byIndex, byScan := SearchIds(tbl, t, Some(filter), Some(IndexEquality(EqualityLookup(filter).value))), SearchIds(tbl, t, Some(filter), Some(SeqScan));
      byIndex.Ok? && byScan.Ok? && r in Elements(byScan.value) && r !in Elements(byIndex.value)
  {
    PathResults(tbl, t, filter);
    LackingIsHit(tbl, t, filter, r);
    MatchingWithin(tbl, t, Some(filter), ids);
  }

  lemma NullTableSound(hash: Value -> nat)
    ensures Sound(NullTable(hash)) && Reader(NullTable(hash).w.sp, 1)
  {
    NullStoreReached(hash);
    assert Lower("c") == "c";
  }

  lemma NullCandidates(hash: Value -> nat)
    ensures var tbl := NullTable(hash);
      && KeyIndexed(tbl, Lookup("c", Null)) && Bucket(tbl, Lookup("c", Null)) == {2} && Candidates(tbl, 1, Lookup("c", Null)) == Ok(Some({2}))
      && LacksColumn(tbl, 1, 1, 7)
  {
    var tbl := NullTable(hash);
    assert Bucket(tbl, Lookup("c", Null)) == {2} && {2} - tbl.locations.Keys == {};
    assert Read(tbl.w.db, 1, 2) == Some(map[7 := Null]) && Read(tbl.w.db, 1, 1) == Some(map[]);
    var found := Candidates(tbl, 1, Lookup("c", Null));
    assert found.Ok? && found.value.Some?;
    assert found.value.value == {2};
  }

  lemma MatchingWithin(tbl: SearchTable, t: TransactionId, filter: Option<Expr>, ids: set<RowId>)
    requires Matching(tbl, t, filter, Sorted(ids)).Ok?
    ensures forall r :: r in Elements(Matching(tbl, t, filter, Sorted(ids)).value) ==> r in ids
  {
    var found := Matching(tbl, t, filter, Sorted(ids)).value;
    var at := MatchingIsSubsequence(tbl, t, filter, Sorted(ids));
    forall r | r in Elements(found) ensures r in ids {
      var k :| 0 <= k < |found| && found[k] == r;
      assert Sorted(ids)[at[k]] in Sorted(ids);
    }
  }

  // ---- A join probe with NULL -----------------------------------------------------------------------

  /** A left row whose column `x` is NULL. */
  function NullLeft(): JoinedRow { [Binding("l", 1, map["x" := 0], map[])] }

  function NullJoin(): Join {
    Join(Inner, "r", Some(Comparison(QualifiedColumn("l", "x"), Equal, QualifiedColumn("r", "c"))), None)
  }

  /** The probe looks for NULL in column `c`. */
  lemma NullProbe()
    ensures ProbeOf(NullLeft(), NullJoin()) == Some(Lookup("c", Null)) && FreshAlias(NullLeft(), NullJoin())
  {
    assert Lower("r") == "r" && Lower("l") == "l" && Lower("x") == "x" && Lower("c") == "c";
    assert "l"[0] != "r"[0];
    NewBindingNames([], NullLeft()[0], "l", "x");
    assert [] + [NullLeft()[0]] == NullLeft();
  }

  /** Row `r` lacks the column looked up for NULL, and is not under the NULL key. */
  ghost predicate Hides(tbl: SearchTable, t: TransactionId, l: Lookup, r: RowId) {
    && Sound(tbl) && Reader(tbl.w.sp, t) && 0 !in tbl.locations && l.column in tbl.columns && l.value == Null
    && KeyIndexed(tbl, l) && r !in Bucket(tbl, l) && r in tbl.locations && LacksColumn(tbl, t, r, tbl.columns[l.column])
  }

  lemma NullTableHides(hash: Value -> nat)
    ensures Hides(NullTable(hash), 1, Lookup("c", Null), 1)
  {
    NullTableSound(hash);
    NullCandidates(hash);
  }

  /** Such a row is joined by the nested loop alone: joining on equality with NULL, the probe disagrees with it. */
  lemma NullProbeMissesRow(tbl: SearchTable, t: TransactionId, partial: JoinedRow, join: Join, l: Lookup, r: RowId)
    requires Hides(tbl, t, l, r) && FreshAlias(partial, join) && ProbeOf(partial, join) == Some(l)
    ensures JoinOne(tbl, t, partial, join) != NestedLoop(tbl, t, partial, join)
  {
    assert !NullsProbed(tbl, t, l);
    ProbeEqualsNestedLoopIff(tbl, t, partial, join);
  }

  // ---- Two active transactions insert the same value ------------------------------------------------

  const V: Value := Bool(true)

  const NONE: RowData := map[]
  const SAME: RowData := map[7 := V]

  /** Row 1 without the column and row 2 by transaction 1, row 3 with the same value by transaction 2. */
  function TwinWorld(): World {
    World(Db(map[1 := [NewVersion(1, NONE)], 2 := [NewVersion(1, SAME)], 3 := [NewVersion(2, SAME)]], Snapshot(0, 0, {1, 2}), 3, 3),
          Spec(map[], map[1 := map[1 := Some(NONE), 2 := Some(SAME)], 2 := map[3 := Some(SAME)]], 0, 3, 3))
  }

  function TwinIndex(): Index { Index(map[1 := {2, 3}], map[Entry(1, 2) := 1, Entry(1, 3) := 2]) }

  function TwinOps(): seq<Op> { [Begin] + [Begin] + [Insert(1, 1, NONE)] + [Insert(1, 2, SAME)] + [Insert(2, 3, SAME)] }

  lemma FirstTwin(cf: Config)
    requires cf.col == 7
    ensures var ops := [Begin] + [Begin] + [Insert(1, 1, NONE)] + [Insert(1, 2, SAME)];
      && SafeRun(cf, StartStore, ops)
      && RunStore(cf, StartStore, ops) == Store(
           World(Db(map[1 := [NewVersion(1, NONE)], 2 := [NewVersion(1, SAME)]], Snapshot(0, 0, {1, 2}), 3, 2),
                 Spec(map[], map[1 := map[1 := Some(NONE), 2 := Some(SAME)], 2 := map[]], 0, 3, 2)),
           Index(map[1 := {2}], map[Entry(1, 2) := 1]))
  {
    SafeOneMore(cf, StartStore, [], Begin);
    assert [] + [Begin] == [Begin];
    SafeOneMore(cf, StartStore, [Begin], Begin);
    var s2 := RunStore(cf, StartStore, [Begin] + [Begin]);
    assert s2 == Store(World(Db(map[], Snapshot(0, 0, {1, 2}), 3, 0), Spec(map[], map[1 := map[], 2 := map[]], 0, 3, 0)), EmptyIndex);
    assert Accepts(cf, s2, Insert(1, 1, NONE));
    SafeOneMore(cf, StartStore, [Begin] + [Begin], Insert(1, 1, NONE));
    var s3 := NextStore(cf, s2, Insert(1, 1, NONE));
    var own: Writes := map[];
    assert own[1 := Some(NONE)] == map[1 := Some(NONE)];
    assert s3.ix == EmptyIndex && s3.w.sp.pending == map[1 := map[1 := Some(NONE)], 2 := map[]];
    assert Accepts(cf, s3, Insert(1, 2, SAME));
    SafeOneMore(cf, StartStore, [Begin] + [Begin] + [Insert(1, 1, NONE)], Insert(1, 2, SAME));
    var s4 := NextStore(cf, s3, Insert(1, 2, SAME));
    var nobody: set<RowId> := {};
    assert nobody + {2} == {2} && Key(V, cf.hash) == 1;
    assert s4.ix == Index(map[1 := {2}], map[Entry(1, 2) := 1]);
    assert s4.w.sp.pending == map[1 := map[1 := Some(NONE), 2 := Some(SAME)], 2 := map[]];
  }

  /** The second transaction does not see the first one's row, so its insert of the same value is accepted. */
  lemma SecondTwin(cf: Config)
    requires cf.col == 7
    ensures SafeRun(cf, StartStore, TwinOps()) && RunStore(cf, StartStore, TwinOps()) == Store(TwinWorld(), TwinIndex())
  {
    FirstTwin(cf);
    var ops := [Begin] + [Begin] + [Insert(1, 1, NONE)] + [Insert(1, 2, SAME)];
    var st := RunStore(cf, StartStore, ops);
    assert Read(st.w.db, 2, 2) == None;
    assert Accepts(cf, st, Insert(2, 3, SAME));
    SafeOneMore(cf, StartStore, ops, Insert(2, 3, SAME));
    var next := NextStore(cf, st, Insert(2, 3, SAME));
    assert {2} + {3} == {2, 3} && Key(V, cf.hash) == 1;
    assert next.ix == TwinIndex();
    var own: Writes := map[];
    assert own[3 := Some(SAME)] == map[3 := Some(SAME)];
    assert next.w.sp.pending == TwinWorld().sp.pending && next.w.db.rows == TwinWorld().db.rows;
  }

  /** Both have committed. */
  function TwinsCommitted(): World {
    World(Db(TwinWorld().db.rows, Snapshot(2, 2, {}), 3, 3), Spec(map[1 := NONE, 2 := SAME, 3 := SAME], map[], 2, 3, 3))
  }

  lemma TwinsCommit(cf: Config)
    requires cf.col == 7
    ensures var ops := TwinOps() + [Commit(1)] + [Commit(2)];
      SafeRun(cf, StartStore, ops) && RunStore(cf, StartStore, ops) == Store(TwinsCommitted(), TwinIndex()) && StoreOk(cf, Store(TwinsCommitted(), TwinIndex()))
  {
    SecondTwin(cf);
    FirstTwinCommits(cf);
    SecondTwinCommits(cf);
    SafeOneMore(cf, StartStore, TwinOps(), Commit(1));
    SafeOneMore(cf, StartStore, TwinOps() + [Commit(1)], Commit(2));
    StartStoreOk(cf);
    IndexStaysComplete(cf, StartStore, TwinOps() + [Commit(1)] + [Commit(2)]);
  }

  /** Transaction 1 has committed. */
  function HalfCommitted(): World {
    World(Db(TwinWorld().db.rows, Snapshot(2, 1, {2}), 3, 3), Spec(map[1 := NONE, 2 := SAME], map[2 := map[3 := Some(SAME)]], 1, 3, 3))
  }

  lemma FirstTwinCommits(cf: Config)
    ensures var st := Store(TwinWorld(), TwinIndex());
      Legal(st.w.sp, Commit(1)) && NextStore(cf, st, Commit(1)) == Store(HalfCommitted(), TwinIndex())
  {
    var w, now := TwinWorld(), Next(TwinWorld(), Commit(1));
    assert {1, 2} - {1} == {2};
    MinOfUnique({2}, 2);
    assert now.db.snap == Snapshot(2, 1, {2});
    assert 1 in w.sp.pending[1] && now.sp.pending == map[2 := map[3 := Some(SAME)]];
    assert now.sp.base == map[1 := NONE, 2 := SAME];
  }

  lemma SecondTwinCommits(cf: Config)
    ensures var st := Store(HalfCommitted(), TwinIndex());
      Legal(st.w.sp, Commit(2)) && NextStore(cf, st, Commit(2)) == Store(TwinsCommitted(), TwinIndex())
  {
    var w, now := HalfCommitted(), Next(HalfCommitted(), Commit(2));
    assert {2} - {2} == {} && 3 in w.sp.pending[2];
    assert now.sp.pending == map[];
    assert now.sp.base == map[1 := NONE, 2 := SAME, 3 := SAME];
  }

  lemma TwinReads()
    ensures Read(TwinsCommitted().db, 3, 2) == Some(SAME) && Read(TwinsCommitted().db, 3, 3) == Some(SAME)
  {
  }

  /** UNIQUE does not hold between transactions that are active together. */
  lemma TwoInsertersBreakUnique(cf: Config)
    requires cf.col == 7
    ensures var ops := TwinOps() + [Commit(1)] + [Commit(2)];
      && SafeRun(cf, StartStore, ops)
      && var db := RunStore(cf, StartStore, ops).w.db;
         Shows(cf, db, 3, 2, V) && Shows(cf, db, 3, 3, V)
  {
    TwinsCommit(cf);
    TwinReads();
  }

  // ---- The later row on the earlier page ------------------------------------------------------------

  function Steps(): seq<CacheRuns.CacheOp> {
    [CacheRuns.Register] + [CacheRuns.Place(0, 1, [NewVersion(1, NONE)], 1)] + [CacheRuns.Register]
    + [CacheRuns.Place(1, 2, [NewVersion(1, SAME)], 2)] + [CacheRuns.Evict(1)] + [CacheRuns.Place(0, 3, [NewVersion(2, SAME)], 1)]
  }

  /** Pages of two bytes: row 2 needs a page of its own, which leaves; row 3 goes to the page that is there. */
  lemma StepsReached(rowSize: Chain -> nat)
    ensures CacheRuns.AllowedRun(EmptyCache(2), Steps(), rowSize)
    ensures CacheRuns.CacheRun(EmptyCache(2), Steps(), rowSize).locations == map[1 := 0, 2 := 1, 3 := 0]
    ensures View(CacheRuns.CacheRun(EmptyCache(2), Steps(), rowSize)) == TwinsCommitted().db.rows
  {
    var c0 := EmptyCache(2);
    var a, b, c := [NewVersion(1, NONE)], [NewVersion(1, SAME)], [NewVersion(2, SAME)];
    EmptyCacheOk(2);
    CacheRuns.RunOneMore(c0, [], CacheRuns.Register, rowSize);
    assert [] + [CacheRuns.Register] == [CacheRuns.Register];
    RegisterKeeps(c0);
    CacheRuns.RunOneMore(c0, [CacheRuns.Register], CacheRuns.Place(0, 1, a, 1), rowSize);
    var c2 := Placed(Registered(c0), 0, 1, a, 1);
    PlaceKeeps(Registered(c0), 0, 1, a, 1);
    var ops := [CacheRuns.Register] + [CacheRuns.Place(0, 1, a, 1)];
    CacheRuns.RunOneMore(c0, ops, CacheRuns.Register, rowSize);
    RegisterKeeps(c2);
    SecondHalf(c2, ops, rowSize);
  }

  lemma SecondHalf(c2: Cache, ops: seq<CacheRuns.CacheOp>, rowSize: Chain -> nat)
    requires c2 == Placed(Registered(EmptyCache(2)), 0, 1, [NewVersion(1, NONE)], 1) && CacheOk(c2) && View(c2) == map[][1 := [NewVersion(1, NONE)]]
    requires ops == [CacheRuns.Register] + [CacheRuns.Place(0, 1, [NewVersion(1, NONE)], 1)]
    requires CacheRuns.AllowedRun(EmptyCache(2), ops + [CacheRuns.Register], rowSize)
    requires CacheRuns.CacheRun(EmptyCache(2), ops + [CacheRuns.Register], rowSize) == Registered(c2)
    requires CacheOk(Registered(c2)) && View(Registered(c2)) == View(c2)
    ensures CacheRuns.AllowedRun(EmptyCache(2), Steps(), rowSize)
    ensures CacheRuns.CacheRun(EmptyCache(2), Steps(), rowSize).locations == map[1 := 0, 2 := 1, 3 := 0]
    ensures View(CacheRuns.CacheRun(EmptyCache(2), Steps(), rowSize)) == TwinsCommitted().db.rows
  {
    var c0, b, c := EmptyCache(2), [NewVersion(1, SAME)], [NewVersion(2, SAME)];
    var more := ops + [CacheRuns.Register];
    var c4 := Placed(Registered(c2), 1, 2, b, 2);
    LastStepsKeep(c2);
    CacheRuns.RunOneMore(c0, more, CacheRuns.Place(1, 2, b, 2), rowSize);
    CacheRuns.RunOneMore(c0, more + [CacheRuns.Place(1, 2, b, 2)], CacheRuns.Evict(1), rowSize);
    CacheRuns.RunOneMore(c0, more + [CacheRuns.Place(1, 2, b, 2)] + [CacheRuns.Evict(1)], CacheRuns.Place(0, 3, c, 1), rowSize);
  }

  lemma LastStepsKeep(c2: Cache)
    requires c2 == Placed(Registered(EmptyCache(2)), 0, 1, [NewVersion(1, NONE)], 1) && CacheOk(Registered(c2))
    requires View(Registered(c2)) == map[][1 := [NewVersion(1, NONE)]]
    ensures var c4 := Placed(Registered(c2), 1, 2, [NewVersion(1, SAME)], 2);
      && 1 in c4.rowSpace && MayLeave(c4, 1)
      && var last := Placed(Evicted(c4, 1), 0, 3, [NewVersion(2, SAME)], 1);
         last.locations == map[1 := 0, 2 := 1, 3 := 0] && View(last) == TwinsCommitted().db.rows
  {
    var b, c := [NewVersion(1, SAME)], [NewVersion(2, SAME)];
    var c4 := Placed(Registered(c2), 1, 2, b, 2);
    PlaceKeeps(Registered(c2), 1, 2, b, 2);
    EvictKeeps(c4, 1);
    PlaceKeeps(Evicted(c4, 1), 0, 3, c, 1);
    assert map[1 := [NewVersion(1, NONE)]][2 := b][3 := c] == TwinsCommitted().db.rows;
  }

  function TwinTable(hash: Value -> nat): SearchTable {
    SearchTable(TwinsCommitted(), map["c" := 7], map[7 := TwinIndex()], hash, map[1 := 0, 2 := 1, 3 := 0])
  }

  lemma TwinTableSound(hash: Value -> nat)
    ensures Sound(TwinTable(hash)) && Reader(TwinTable(hash).w.sp, 3)
  {
    TwinsCommit(Config(7, hash));
    assert Lower("c") == "c";
  }

  /** The rows the index finds are those of the scan, in another order. */
  lemma IndexOrderDiffers(hash: Value -> nat)
    ensures var tbl, filter := TwinTable(hash), Comparison(Column("c"), Equal, Literal(V));
      var byIndex, byScan := SearchIds(tbl, 3, Some(filter), Some(IndexEquality(Lookup("c", V)))), SearchIds(tbl, 3, Some(filter), Some(SeqScan));
      && Sound(tbl) && Reader(tbl.w.sp, 3) && byIndex.Ok? && byScan.Ok?
      && Elements(byIndex.value) == Elements(byScan.value) && byIndex != byScan
  {
    var tbl, filter := TwinTable(hash), Comparison(Column("c"), Equal, Literal(V));
    TwinTableSound(hash);
    TwinReads();
    EqualityTests(tbl, 3, filter, 2);
    EqualityTests(tbl, 3, filter, 3);
    OrderMatters(tbl, 3, filter, 2, 3);
  }

  /** Two hits whose ids and pages are in opposite order are found in different orders. */
  lemma OrderMatters(tbl: SearchTable, t: TransactionId, filter: Expr, a: RowId, b: RowId)
    requires Sound(tbl) && Reader(tbl.w.sp, t) && EqualityLookup(filter).Some? && KeyIndexed(tbl, EqualityLookup(filter).value)
    requires EqualityLookup(filter).value.value != Null && a in tbl.locations && b in tbl.locations && a < b && tbl.locations[b] < tbl.locations[a]
    requires Tests(tbl, t, Some(filter), a) == Ok(true) && Tests(tbl, t, Some(filter), b) == Ok(true)
    ensures var byIndex, byScan := SearchIds(tbl, t, Some(filter), Some(IndexEquality(EqualityLookup(filter).value))), SearchIds(tbl, t, Some(filter), Some(SeqScan));
      byIndex.Ok? && byScan.Ok? && Elements(byIndex.value) == Elements(byScan.value) && byIndex != byScan
  {
    IndexFindsSameRowsIff(tbl, t, filter);
    IndexAgreesIff(tbl, t, filter);
    assert a in Hits(tbl, t, Some(filter), tbl.locations.Keys) && b in Hits(tbl, t, Some(filter), tbl.locations.Keys);
  }
}
