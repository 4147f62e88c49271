/** Single-table search: the index path and the full scan (`plan/optimize.rs`, `Table::search`). */
module AccessPaths {
  import opened Prelude
  import opened Values
  import opened Transactions
  import opened Rows
  import opened Pages
  import opened MvccStore
  import opened MvccTheorems
  import opened ColumnIndex
  import opened IndexedStore
  import opened TableMaintenance
  import opened SearchExpressions
  import opened ScanOrder
  import opened RowOrder

  /** A table as search sees it: rows, visible columns, their indexes and row locations. */
  datatype SearchTable = SearchTable(
    w: World,
    columns: map<string, ColumnId>,
    indexes: map<ColumnId, Index>,
    hash: Value -> nat,
    locations: map<RowId, PageId>)

  datatype AccessPath = SeqScan | IndexEquality(lookup: Lookup)

  /** Locations are exact, column names are lower case, every index is complete and never dangles. */
  ghost predicate Sound(tbl: SearchTable) {
    && tbl.locations.Keys == tbl.w.db.rows.Keys
    && (forall n :: n in tbl.columns ==> Lower(n) == n)
    && (forall c :: c in tbl.indexes ==> StoreOk(Config(c, tbl.hash), Store(tbl.w, tbl.indexes[c])))
  }

  // ---- Evaluation of rows ---------------------------------------------------------------------------

  /** The value of a column in a row; an absent one is NULL. */
  function Field(d: RowData, c: ColumnId): Value { if c in d then d[c] else Null }

  function RowContext(columns: map<string, ColumnId>, d: RowData): Context {
    map n | n in columns :: Bare(n) := Field(d, columns[n])
  }

  /** Whether the transaction sees the row and the row satisfies the filter. */
  function Tests(tbl: SearchTable, t: TransactionId, filter: Option<Expr>, r: RowId): Result<bool, QueryError> {
    match Read(tbl.w.db, t, r)
    case None => Ok(false)
    case Some(d) => if filter.None? then Ok(true) else Evaluate(filter.value, RowContext(tbl.columns, d))
  }

  /** The rows of `ids` that pass, in order, up to the first error. */
  function Matching(tbl: SearchTable, t: TransactionId, filter: Option<Expr>, ids: seq<RowId>): Result<seq<RowId>, QueryError> {
    if ids == [] then Ok([])
    else
      var front := Matching(tbl, t, filter, ids[..|ids| - 1]);
      if front.Err? then front
      else
        var hit := Tests(tbl, t, filter, ids[|ids| - 1]);
        if hit.Err? then Err(hit.error) else Ok(if hit.value then front.value + [ids[|ids| - 1]] else front.value)
  }

  lemma {:induction false} FirstErrorStays(tbl: SearchTable, t: TransactionId, filter: Option<Expr>, ids: seq<RowId>, i: nat)
    requires i <= |ids| && Matching(tbl, t, filter, ids[..i]).Err?
    ensures Matching(tbl, t, filter, ids) == Matching(tbl, t, filter, ids[..i])
    decreases |ids|
  {
    if i < |ids| {
      assert ids[..|ids| - 1][..i] == ids[..i];
      FirstErrorStays(tbl, t, filter, ids[..|ids| - 1], i);
    } else {
      assert ids[..i] == ids;
    }
  }

  lemma MatchingNext(tbl: SearchTable, t: TransactionId, filter: Option<Expr>, ids: seq<RowId>, i: nat)
    requires i < |ids| && Matching(tbl, t, filter, ids[..i]).Ok?
    ensures var rows, hit := Matching(tbl, t, filter, ids[..i]).value, Tests(tbl, t, filter, ids[i]);
      if hit.Err? then Matching(tbl, t, filter, ids) == Err(hit.error)
      else Matching(tbl, t, filter, ids[..i + 1]) == Ok(if hit.value then rows + [ids[i]] else rows)
  {
    assert ids[..i + 1][..i] == ids[..i];
    if Tests(tbl, t, filter, ids[i]).Err? { FirstErrorStays(tbl, t, filter, ids, i + 1); }
  }

  method MatchRows(tbl: SearchTable, t: TransactionId, filter: Option<Expr>, ids: seq<RowId>) returns (found: Result<seq<RowId>, QueryError>)
    ensures found == Matching(tbl, t, filter, ids)
  {
    var rows: seq<RowId> := [];
    for i := 0 to |ids|
      invariant Matching(tbl, t, filter, ids[..i]) == Ok(rows)
    {
      MatchingNext(tbl, t, filter, ids, i);
      var hit := Tests(tbl, t, filter, ids[i]);
      if hit.Err? {
        return Err(hit.error);
      }
      if hit.value {
        rows := rows + [ids[i]];
      }
    }
    assert ids[..|ids|] == ids;
    found := Ok(rows);
  }

  /** The rows of `ids` that pass. */
  ghost function Hits(tbl: SearchTable, t: TransactionId, filter: Option<Expr>, ids: set<RowId>): set<RowId> {
    set r | r in ids && Tests(tbl, t, filter, r) == Ok(true)
  }

  lemma HitsSnoc(tbl: SearchTable, t: TransactionId, filter: Option<Expr>, ids: set<RowId>, r: RowId)
    ensures Hits(tbl, t, filter, ids + {r}) ==
      Hits(tbl, t, filter, ids) + if Tests(tbl, t, filter, r) == Ok(true) then {r} else {}
  {
  }

  /** Without errors, exactly the passing rows are returned. */
  lemma {:induction false} MatchingIsHits(tbl: SearchTable, t: TransactionId, filter: Option<Expr>, ids: seq<RowId>)
    requires forall r :: r in ids ==> Tests(tbl, t, filter, r).Ok?
    ensures Matching(tbl, t, filter, ids).Ok?
    ensures Elements(Matching(tbl, t, filter, ids).value) == Hits(tbl, t, filter, Elements(ids))
    decreases |ids|
  {
    if ids != [] {
      var front, r := ids[..|ids| - 1], ids[|ids| - 1];
      assert ids == front + [r];
      MatchingIsHits(tbl, t, filter, front);
      var kept := Matching(tbl, t, filter, front).value;
      ElementsSnoc(front, r);
      ElementsSnoc(kept, r);
      HitsSnoc(tbl, t, filter, Elements(front), r);
    }
  }

  /** A search keeps the order of the rows it goes through and repeats none. */
  lemma {:induction false} MatchingIsSubsequence(tbl: SearchTable, t: TransactionId, filter: Option<Expr>, ids: seq<RowId>) returns (at: seq<nat>)
    requires Matching(tbl, t, filter, ids).Ok?
    ensures Subsequence(Matching(tbl, t, filter, ids).value, ids, at)
    decreases |ids|
  {
    at := [];
    if ids != [] {
      var front, r := ids[..|ids| - 1], ids[|ids| - 1];
      MatchingLast(tbl, t, filter, ids, front, r);
      at := MatchingIsSubsequence(tbl, t, filter, front);
      SubsequenceSnoc(Matching(tbl, t, filter, front).value, front, at, r);
      if Matching(tbl, t, filter, ids).value != Matching(tbl, t, filter, front).value {
        at := at + [|front|];
      }
    }
  }

  lemma MatchingLast(tbl: SearchTable, t: TransactionId, filter: Option<Expr>, ids: seq<RowId>, front: seq<RowId>, r: RowId)
    requires ids != [] && front == ids[..|ids| - 1] && r == ids[|ids| - 1] && Matching(tbl, t, filter, ids).Ok?
    ensures ids == front + [r] && Matching(tbl, t, filter, front).Ok?
    ensures var kept := Matching(tbl, t, filter, front).value;
      Matching(tbl, t, filter, ids).value == kept || Matching(tbl, t, filter, ids).value == kept + [r]
  {
  }

  /** What a search over all rows returns is in scan order, without repetitions. */
  lemma ScannedInOrder(tbl: SearchTable, t: TransactionId, filter: Option<Expr>)
    requires Matching(tbl, t, filter, ScanAll(tbl.locations)).Ok?
    ensures var found := Matching(tbl, t, filter, ScanAll(tbl.locations)).value;
      InScanOrder(tbl.locations, found) && Distinct(found)
  {
    var all := ScanAll(tbl.locations);
    var at := MatchingIsSubsequence(tbl, t, filter, all);
    ScanAllInOrder(tbl.locations);
    SubsequenceInOrder(tbl.locations, Matching(tbl, t, filter, all).value, all, at);
    SubsequenceDistinct(Matching(tbl, t, filter, all).value, all, at);
  }

  /** What a search over a sorted set of rows returns is in id order. */
  lemma SortedAscends(tbl: SearchTable, t: TransactionId, filter: Option<Expr>, ids: set<RowId>)
    requires Matching(tbl, t, filter, Sorted(ids)).Ok?
    ensures var found := Matching(tbl, t, filter, Sorted(ids)).value;
      Ascending(found) && Distinct(found)
  {
    var at := MatchingIsSubsequence(tbl, t, filter, Sorted(ids));
    SubsequenceAscends(Matching(tbl, t, filter, Sorted(ids)).value, Sorted(ids), at);
  }

  // ---- The two paths --------------------------------------------------------------------------------

  /** The rows under the literal's key, if the column has an index that knows the key. */
  ghost function Candidates(tbl: SearchTable, t: TransactionId, l: Lookup): Result<Option<set<RowId>>, QueryError> {
    if !KeyIndexed(tbl, l) then Ok(None)
    else
      var ids := Bucket(tbl, l);
      var missing := ids - tbl.locations.Keys;
      if missing == {} then Ok(Some(set r | r in ids && Read(tbl.w.db, t, r).Some?)) else Err(NoSuchRow(MinOf(missing)))
  }

  /** The lookup's column, spelled as stored, has an index with an entry for the value's key. */
  predicate KeyIndexed(tbl: SearchTable, l: Lookup) {
    && l.column in tbl.columns && tbl.columns[l.column] in tbl.indexes
    && Key(l.value, tbl.hash) in tbl.indexes[tbl.columns[l.column]].entries
  }

  function Bucket(tbl: SearchTable, l: Lookup): set<RowId>
    requires KeyIndexed(tbl, l)
  {
    tbl.indexes[tbl.columns[l.column]].entries[Key(l.value, tbl.hash)]
  }

  ghost function PathCandidates(tbl: SearchTable, t: TransactionId, filter: Option<Expr>, path: Option<AccessPath>): Result<Option<set<RowId>>, QueryError> {
    match path
    case Some(SeqScan) => Ok(None)
    case Some(IndexEquality(l)) => Candidates(tbl, t, l)
    case None =>
      if filter.Some? && EqualityLookup(filter.value).Some? then Candidates(tbl, t, EqualityLookup(filter.value).value)
      else Ok(None)
  }

  /** The row ids a search returns, before ordering and limits. */
  ghost function SearchIds(tbl: SearchTable, t: TransactionId, filter: Option<Expr>, path: Option<AccessPath>): Result<seq<RowId>, QueryError> {
    match PathCandidates(tbl, t, filter, path)
    case Err(e) => Err(e)
    case Ok(None) => Matching(tbl, t, filter, ScanAll(tbl.locations))
    case Ok(Some(ids)) => Matching(tbl, t, filter, Sorted(ids))
  }

  /** The planner's choice: an index if the filter is one equality on an indexed column. */
  function ChoosePath(tbl: SearchTable, filter: Option<Expr>): Result<AccessPath, QueryError> {
    if filter.None? || EqualityLookup(filter.value).None? then Ok(SeqScan)
    else
      var l := EqualityLookup(filter.value).value;
      if Lower(l.column) !in tbl.columns then Err(UnknownColumn)
      else if tbl.columns[Lower(l.column)] in tbl.indexes then Ok(IndexEquality(l)) else Ok(SeqScan)
  }

  /** What the index cannot know: rows that lack the column count as NULL but were never indexed. */
  ghost predicate NullsIndexed(tbl: SearchTable, t: TransactionId, l: Lookup) {
    l.value == Null && KeyIndexed(tbl, l) ==>
      forall r :: r in tbl.locations && LacksColumn(tbl, t, r, tbl.columns[l.column]) ==> r in Bucket(tbl, l)
  }

  predicate LacksColumn(tbl: SearchTable, t: TransactionId, r: RowId, c: ColumnId) {
    match Read(tbl.w.db, t, r)
    case None => false
    case Some(d) => c !in d
  }

  /** An equality on a visible column evaluates without error, to whether the field has the value. */
  lemma EqualityTests(tbl: SearchTable, t: TransactionId, filter: Expr, r: RowId)
    requires EqualityLookup(filter).Some? && Lower(EqualityLookup(filter).value.column) in tbl.columns
    ensures var l := EqualityLookup(filter).value;
      Tests(tbl, t, Some(filter), r) ==
        match Read(tbl.w.db, t, r)
        case None => Ok(false)
        case Some(d) => Ok(Field(d, tbl.columns[Lower(l.column)]) == l.value)
  {
    match Read(tbl.w.db, t, r)
    case None =>
    case Some(d) => LookupIsTheCondition(filter, RowContext(tbl.columns, d));
  }

  /** A passing row is under the key, unless it passes by lacking the column. */
  lemma HitIsCandidate(tbl: SearchTable, t: TransactionId, filter: Expr, r: RowId)
    requires Sound(tbl) && Reader(tbl.w.sp, t) && EqualityLookup(filter).Some? && KeyIndexed(tbl, EqualityLookup(filter).value)
    ensures var l := EqualityLookup(filter).value;
      Tests(tbl, t, Some(filter), r) == Ok(true) ==>
        r in Bucket(tbl, l) || (l.value == Null && LacksColumn(tbl, t, r, tbl.columns[l.column]))
  {
    var l := EqualityLookup(filter).value;
    var c := tbl.columns[l.column];
    EqualityTests(tbl, t, filter, r);
    IndexFindsVisible(Config(c, tbl.hash), Store(tbl.w, tbl.indexes[c]), t, r);
  }

  lemma LackingIsHit(tbl: SearchTable, t: TransactionId, filter: Expr, r: RowId)
    requires Sound(tbl) && EqualityLookup(filter).Some? && KeyIndexed(tbl, EqualityLookup(filter).value)
    requires EqualityLookup(filter).value.value == Null && LacksColumn(tbl, t, r, tbl.columns[EqualityLookup(filter).value.column])
    ensures Tests(tbl, t, Some(filter), r) == Ok(true)
  {
    EqualityTests(tbl, t, filter, r);
  }

  /** The hits among the candidates are all hits exactly when NULL lookups are covered. */
  lemma CandidateHitsIff(tbl: SearchTable, t: TransactionId, filter: Expr, ids: set<RowId>)
    requires Sound(tbl) && Reader(tbl.w.sp, t) && EqualityLookup(filter).Some? && KeyIndexed(tbl, EqualityLookup(filter).value)
    requires forall r: RowId :: r in ids <==> r in Bucket(tbl, EqualityLookup(filter).value) && Read(tbl.w.db, t, r).Some?
    ensures Bucket(tbl, EqualityLookup(filter).value) <= tbl.locations.Keys ==>
      (Hits(tbl, t, Some(filter), ids) == Hits(tbl, t, Some(filter), tbl.locations.Keys) <==> NullsIndexed(tbl, t, EqualityLookup(filter).value))
  {
    var l := EqualityLookup(filter).value;
    var some, all := Hits(tbl, t, Some(filter), ids), Hits(tbl, t, Some(filter), tbl.locations.Keys);
    if NullsIndexed(tbl, t, l) {
      forall r | r in all ensures r in ids { HitIsCandidate(tbl, t, filter, r); }
      assert Bucket(tbl, l) <= tbl.locations.Keys ==> some == all;
    } else {
      var r :| r in tbl.locations && LacksColumn(tbl, t, r, tbl.columns[l.column]) && r !in Bucket(tbl, l);
      LackingIsHit(tbl, t, filter, r);
      assert r in all && r !in some;
    }
  }

  lemma BucketIsLocated(tbl: SearchTable, l: Lookup)
    requires Sound(tbl) && KeyIndexed(tbl, l)
    ensures Bucket(tbl, l) <= tbl.locations.Keys
  {
    var c := tbl.columns[l.column];
    var st := Store(tbl.w, tbl.indexes[c]);
    assert StoreOk(Config(c, tbl.hash), st);
    forall r | r in Bucket(tbl, l) ensures r in tbl.locations {
      assert Holds(st.ix, Entry(Key(l.value, tbl.hash), r));
    }
  }

  /** What each path returns for an equality on a column whose index knows the key. */
  lemma PathResults(tbl: SearchTable, t: TransactionId, filter: Expr)
    requires Sound(tbl) && Reader(tbl.w.sp, t) && EqualityLookup(filter).Some? && KeyIndexed(tbl, EqualityLookup(filter).value)
    ensures var l := EqualityLookup(filter).value;
      var byIndex, byScan := SearchIds(tbl, t, Some(filter), Some(IndexEquality(l))), SearchIds(tbl, t, Some(filter), Some(SeqScan));
      && byIndex.Ok? && byScan.Ok? && Ascending(byIndex.value) && Distinct(byIndex.value)
      && Elements(byScan.value) == Hits(tbl, t, Some(filter), tbl.locations.Keys)
      && (Elements(byIndex.value) == Elements(byScan.value) <==> NullsIndexed(tbl, t, l))
  {
    var l := EqualityLookup(filter).value;
    BucketIsLocated(tbl, l);
    var ids := Candidates(tbl, t, l).value.value;
    forall r: RowId ensures Tests(tbl, t, Some(filter), r).Ok? { EqualityTests(tbl, t, filter, r); }
    MatchingIsHits(tbl, t, Some(filter), Sorted(ids));
    SortedAscends(tbl, t, Some(filter), ids);
    MatchingIsHits(tbl, t, Some(filter), ScanAll(tbl.locations));
    assert Elements(Sorted(ids)) == ids;
    SameMembers(tbl.locations);
    CandidateHitsIff(tbl, t, filter, ids);
  }

  /** Both paths return the same rows exactly when the literal is not NULL or NULL is covered. */
  lemma IndexFindsSameRowsIff(tbl: SearchTable, t: TransactionId, filter: Expr)
    requires Sound(tbl) && Reader(tbl.w.sp, t) && EqualityLookup(filter).Some? && KeyIndexed(tbl, EqualityLookup(filter).value)
    ensures var l := EqualityLookup(filter).value;
      var byIndex, byScan := SearchIds(tbl, t, Some(filter), Some(IndexEquality(l))), SearchIds(tbl, t, Some(filter), Some(SeqScan));
      byIndex.Ok? && byScan.Ok? && (Elements(byIndex.value) == Elements(byScan.value) <==> NullsIndexed(tbl, t, l))
  {
    PathResults(tbl, t, filter);
  }

  /** When the index path keeps the order of the scan as well: the rows found lie in id order along the pages. */
  ghost predicate HitsInOrder(tbl: SearchTable, t: TransactionId, filter: Expr, l: Lookup) {
    KeyIndexed(tbl, l) ==> MonotoneOn(tbl.locations, Hits(tbl, t, Some(filter), tbl.locations.Keys))
  }

  /** Both paths return the same sequence exactly when, besides, the rows found lie in id order along the pages. */
  lemma IndexAgreesIff(tbl: SearchTable, t: TransactionId, filter: Expr)
    requires Sound(tbl) && Reader(tbl.w.sp, t) && EqualityLookup(filter).Some?
    ensures var l := EqualityLookup(filter).value;
      SearchIds(tbl, t, Some(filter), Some(IndexEquality(l))) == SearchIds(tbl, t, Some(filter), Some(SeqScan))
      <==> NullsIndexed(tbl, t, l) && HitsInOrder(tbl, t, filter, l)
  {
    var l := EqualityLookup(filter).value;
    if KeyIndexed(tbl, l) {
      PathResults(tbl, t, filter);
      ScannedInOrder(tbl, t, Some(filter));
      var byIndex, byScan := SearchIds(tbl, t, Some(filter), Some(IndexEquality(l))), SearchIds(tbl, t, Some(filter), Some(SeqScan));
      InOrderAscendsIff(tbl.locations, byScan.value);
      if Ascending(byScan.value) && Elements(byIndex.value) == Elements(byScan.value) {
        AscendingUnique(byIndex.value, byScan.value);
      }
    }
  }

  /** The equality a filter consists of, if it does. */
  function FilterLookup(filter: Option<Expr>): Option<Lookup> {
    if filter.None? then None else EqualityLookup(filter.value)
  }

  /** NULL is covered where the filter is an equality with it; for any other literal this holds by itself. */
  ghost predicate Covered(tbl: SearchTable, t: TransactionId, filter: Option<Expr>) {
    FilterLookup(filter).Some? ==> NullsIndexed(tbl, t, FilterLookup(filter).value)
  }

  /** The same error, or the same rows without repetitions, in whatever order. */
  predicate SameRows(a: Result<seq<RowId>, QueryError>, b: Result<seq<RowId>, QueryError>) {
    if a.Err? || b.Err? then a == b
    else Distinct(a.value) && Distinct(b.value) && Elements(a.value) == Elements(b.value) && |a.value| == |b.value|
  }

  /** A search without an explicit path goes where the planner would. */
  lemma DefaultIsPlanned(tbl: SearchTable, t: TransactionId, filter: Option<Expr>)
    requires Sound(tbl) && ChoosePath(tbl, filter).Ok?
    ensures SearchIds(tbl, t, filter, None) == SearchIds(tbl, t, filter, Some(ChoosePath(tbl, filter).value))
  {
  }

  /** Whatever path the planner chooses, the rows are those of the full scan exactly when NULL is covered. */
  lemma ChosenPathSameRowsIff(tbl: SearchTable, t: TransactionId, filter: Option<Expr>)
    requires Sound(tbl) && Reader(tbl.w.sp, t) && ChoosePath(tbl, filter).Ok?
    ensures SameRows(SearchIds(tbl, t, filter, Some(ChoosePath(tbl, filter).value)), SearchIds(tbl, t, filter, Some(SeqScan)))
      <==> Covered(tbl, t, filter)
  {
    var planned, scan := SearchIds(tbl, t, filter, Some(ChoosePath(tbl, filter).value)), SearchIds(tbl, t, filter, Some(SeqScan));
    if scan.Ok? { ScannedInOrder(tbl, t, filter); }
    if FilterLookup(filter).Some? && KeyIndexed(tbl, FilterLookup(filter).value) {
      PathResults(tbl, t, filter.value);
      DistinctSize(planned.value);
      DistinctSize(scan.value);
    } else {
      assert planned == scan;
    }
  }

  /** The planner refuses exactly an equality on a column that is not there, and on every visible row a scan would refuse it too. */
  lemma PlannerRefusesIff(tbl: SearchTable, t: TransactionId, filter: Option<Expr>, r: RowId)
    ensures ChoosePath(tbl, filter).Err? <==> FilterLookup(filter).Some? && Lower(FilterLookup(filter).value.column) !in tbl.columns
    ensures ChoosePath(tbl, filter).Err? ==>
      ChoosePath(tbl, filter).error == UnknownColumn && Tests(tbl, t, filter, r) == if Read(tbl.w.db, t, r).Some? then Err(UnknownColumn) else Ok(false)
  {
    if FilterLookup(filter).Some? && Read(tbl.w.db, t, r).Some? {
      LookupIsTheCondition(filter.value, RowContext(tbl.columns, Read(tbl.w.db, t, r).value));
    }
  }

  /** And the sequence is the scan's exactly when, besides, the rows found lie in id order along the pages. */
  lemma ChosenPathAgreesIff(tbl: SearchTable, t: TransactionId, filter: Option<Expr>)
    requires Sound(tbl) && Reader(tbl.w.sp, t) && ChoosePath(tbl, filter).Ok?
    ensures SearchIds(tbl, t, filter, Some(ChoosePath(tbl, filter).value)) == SearchIds(tbl, t, filter, Some(SeqScan))
      <==> Covered(tbl, t, filter) && (FilterLookup(filter).Some? ==> HitsInOrder(tbl, t, filter.value, FilterLookup(filter).value))
  {
    if FilterLookup(filter).Some? { IndexAgreesIff(tbl, t, filter.value); }
  }

  /** For a literal other than NULL, with all rows in id order along the pages, the planner's choice is invisible. */
  lemma ChosenPathAgrees(tbl: SearchTable, t: TransactionId, filter: Option<Expr>)
    requires Sound(tbl) && Reader(tbl.w.sp, t) && Monotone(tbl.locations) && ChoosePath(tbl, filter).Ok?
    requires FilterLookup(filter).Some? ==> FilterLookup(filter).value.value != Null
    ensures SearchIds(tbl, t, filter, Some(ChoosePath(tbl, filter).value)) == SearchIds(tbl, t, filter, Some(SeqScan))
  {
    ChosenPathAgreesIff(tbl, t, filter);
  }

  // ---- COUNT(*) -------------------------------------------------------------------------------------

  /** How many rows of `ids` pass, up to the first error. */
  function Counting(tbl: SearchTable, t: TransactionId, filter: Option<Expr>, ids: seq<RowId>): Result<nat, QueryError> {
    if ids == [] then Ok(0)
    else
      var front := Counting(tbl, t, filter, ids[..|ids| - 1]);
      if front.Err? then front
      else
        var hit := Tests(tbl, t, filter, ids[|ids| - 1]);
        if hit.Err? then Err(hit.error) else Ok(if hit.value then front.value + 1 else front.value)
  }

  lemma {:induction false} CountErrorStays(tbl: SearchTable, t: TransactionId, filter: Option<Expr>, ids: seq<RowId>, i: nat)
    requires i <= |ids| && Counting(tbl, t, filter, ids[..i]).Err?
    ensures Counting(tbl, t, filter, ids) == Counting(tbl, t, filter, ids[..i])
    decreases |ids|
  {
    if i < |ids| {
      assert ids[..|ids| - 1][..i] == ids[..i];
      CountErrorStays(tbl, t, filter, ids[..|ids| - 1], i);
    } else {
      assert ids[..i] == ids;
    }
  }

  lemma CountingNext(tbl: SearchTable, t: TransactionId, filter: Option<Expr>, ids: seq<RowId>, i: nat)
    requires i < |ids| && Counting(tbl, t, filter, ids[..i]).Ok?
    ensures var n, hit := Counting(tbl, t, filter, ids[..i]).value, Tests(tbl, t, filter, ids[i]);
      if hit.Err? then Counting(tbl, t, filter, ids) == Err(hit.error)
      else Counting(tbl, t, filter, ids[..i + 1]) == Ok(if hit.value then n + 1 else n)
  {
    assert ids[..i + 1][..i] == ids[..i];
    if Tests(tbl, t, filter, ids[i]).Err? { CountErrorStays(tbl, t, filter, ids, i + 1); }
  }

  method CountRows(tbl: SearchTable, t: TransactionId, filter: Option<Expr>, ids: seq<RowId>) returns (counted: Result<nat, QueryError>)
    ensures counted == Counting(tbl, t, filter, ids)
  {
    var count := 0;
    for i := 0 to |ids|
      invariant Counting(tbl, t, filter, ids[..i]) == Ok(count)
    {
      CountingNext(tbl, t, filter, ids, i);
      var hit := Tests(tbl, t, filter, ids[i]);
      if hit.Err? {
        return Err(hit.error);
      }
      if hit.value {
        count := count + 1;
      }
    }
    assert ids[..|ids|] == ids;
    counted := Ok(count);
  }

  /** COUNT(*) has its own choice of candidates and its own loop, and refuses ORDER BY. */
  ghost function CountStar(tbl: SearchTable, t: TransactionId, filter: Option<Expr>, ordered: bool): Result<nat, QueryError> {
    if ordered then Err(OrderedCount)
    else match PathCandidates(tbl, t, filter, None)
      case Err(e) => Err(e)
      case Ok(None) => Counting(tbl, t, filter, ScanAll(tbl.locations))
      case Ok(Some(ids)) => Counting(tbl, t, filter, Sorted(ids))
  }

  lemma {:induction false} CountingIsLength(tbl: SearchTable, t: TransactionId, filter: Option<Expr>, ids: seq<RowId>)
    ensures match Matching(tbl, t, filter, ids)
      case Err(e) => Counting(tbl, t, filter, ids) == Err(e)
      case Ok(found) => Counting(tbl, t, filter, ids) == Ok(|found|)
    decreases |ids|
  {
    if ids != [] {
      var front, hit := ids[..|ids| - 1], Tests(tbl, t, filter, ids[|ids| - 1]);
      CountingIsLength(tbl, t, filter, front);
      if Matching(tbl, t, filter, front).Ok? && hit.Ok? {
        var found := Matching(tbl, t, filter, front).value;
        assert Matching(tbl, t, filter, ids) == Ok(if hit.value then found + [ids[|ids| - 1]] else found);
      }
    }
  }

  /** COUNT(*) is the length of the planned search's unlimited result, and fails as that search does. */
  lemma CountIsLength(tbl: SearchTable, t: TransactionId, filter: Option<Expr>)
    requires Sound(tbl) && ChoosePath(tbl, filter).Ok?
    ensures match SearchIds(tbl, t, filter, Some(ChoosePath(tbl, filter).value))
      case Err(e) => CountStar(tbl, t, filter, false) == Err(e)
      case Ok(found) => CountStar(tbl, t, filter, false) == Ok(|found|)
  {
    DefaultIsPlanned(tbl, t, filter);
    match PathCandidates(tbl, t, filter, None)
    case Err(_) =>
    case Ok(None) => CountingIsLength(tbl, t, filter, ScanAll(tbl.locations));
    case Ok(Some(ids)) => CountingIsLength(tbl, t, filter, Sorted(ids));
  }

  /** Where NULL is covered, COUNT(*) through an index is also the number of rows a full scan finds. */
  lemma CountIsScanned(tbl: SearchTable, t: TransactionId, filter: Option<Expr>)
    requires Sound(tbl) && Reader(tbl.w.sp, t) && ChoosePath(tbl, filter).Ok? && Covered(tbl, t, filter)
    ensures match SearchIds(tbl, t, filter, Some(SeqScan))
      case Err(e) => CountStar(tbl, t, filter, false) == Err(e)
      case Ok(found) => CountStar(tbl, t, filter, false) == Ok(|found|)
  {
    CountIsLength(tbl, t, filter);
    ChosenPathSameRowsIff(tbl, t, filter);
  }

  // ---- The operations -------------------------------------------------------------------------------

  method FindCandidates(tbl: SearchTable, t: TransactionId, filter: Option<Expr>, path: Option<AccessPath>)
    returns (candidates: Result<Option<set<RowId>>, QueryError>)
    ensures candidates == PathCandidates(tbl, t, filter, path)
  {
    candidates := Ok(None);
    match path {
      case Some(SeqScan) =>
      case Some(IndexEquality(l)) => candidates := LookupCandidates(tbl, t, l);
      case None =>
        if filter.Some? && EqualityLookup(filter.value).Some? {
          candidates := LookupCandidates(tbl, t, EqualityLookup(filter.value).value);
        }
    }
  }

  method Count(tbl: SearchTable, t: TransactionId, filter: Option<Expr>, ordered: bool) returns (counted: Result<nat, QueryError>)
    ensures counted == CountStar(tbl, t, filter, ordered) && (ordered ==> counted == Err(OrderedCount))
  {
    if ordered {
      return Err(OrderedCount);
    }
    var candidates := FindCandidates(tbl, t, filter, None);
    if candidates.Err? {
      return Err(candidates.error);
    }
    var ids;
    if candidates.value.Some? {
      ids := SortIds(candidates.value.value);
    } else {
      ids := CollectScan(tbl.locations);
    }
    counted := CountRows(tbl, t, filter, ids);
  }

  method LookupCandidates(tbl: SearchTable, t: TransactionId, l: Lookup) returns (found: Result<Option<set<RowId>>, QueryError>)
    ensures found == Candidates(tbl, t, l)
  {
    if !KeyIndexed(tbl, l) {
      return Ok(None);
    }
    var ids := SortIds(Bucket(tbl, l));
    var visible, n := VisibleOf(tbl, t, ids);
    if n < |ids| {
      FirstMissing(ids, n, Bucket(tbl, l), tbl.locations.Keys);
      return Err(NoSuchRow(ids[n]));
    }
    AllLocated(ids, Bucket(tbl, l), tbl.locations.Keys);
    assert Elements(ids) == Bucket(tbl, l);
    found := Ok(Some(visible));
  }

  /** The visible rows among the first `n` of `ids`; row `n`, if there is one, has no location. */
  method VisibleOf(tbl: SearchTable, t: TransactionId, ids: seq<RowId>) returns (visible: set<RowId>, n: nat)
    ensures n <= |ids| && (forall j :: 0 <= j < n ==> ids[j] in tbl.locations) && (n < |ids| ==> ids[n] !in tbl.locations)
    ensures n == |ids| ==> visible == set r | r in Elements(ids) && Read(tbl.w.db, t, r).Some?
  {
    visible, n := {}, 0;
    while n < |ids| && ids[n] in tbl.locations
      invariant n <= |ids| && forall j :: 0 <= j < n ==> ids[j] in tbl.locations
      invariant visible == set r | r in Elements(ids[..n]) && Read(tbl.w.db, t, r).Some?
    {
      assert ids[..n + 1] == ids[..n] + [ids[n]];
      ElementsSnoc(ids[..n], ids[n]);
      if Read(tbl.w.db, t, ids[n]).Some? {
        visible := visible + {ids[n]};
      }
      n := n + 1;
    }
    assert ids[..|ids|] == ids;
  }

  lemma AllLocated(ids: seq<RowId>, bucket: set<RowId>, located: set<RowId>)
    requires ids == Sorted(bucket) && forall j :: 0 <= j < |ids| ==> ids[j] in located
    ensures bucket - located == {}
  {
    forall r | r in bucket ensures r in located { assert r in ids; }
  }

  lemma FirstMissing(ids: seq<RowId>, i: nat, bucket: set<RowId>, located: set<RowId>)
    requires ids == Sorted(bucket) && i < |ids| && ids[i] !in located && forall j :: 0 <= j < i ==> ids[j] in located
    ensures ids[i] in bucket - located && MinOf(bucket - located) == ids[i]
  {
    assert ids[i] in ids;
    forall r | r in bucket - located ensures ids[i] <= r {
      assert r in ids;
      var j :| 0 <= j < |ids| && ids[j] == r;
    }
    MinOfUnique(bucket - located, ids[i]);
  }

  /** How many of `n` rows are left after OFFSET and LIMIT. */
  function Shown(n: nat, offset: nat, limit: Option<nat>): nat {
    var left := if offset <= n then n - offset else 0;
    if limit.Some? && limit.value < left then limit.value else left
  }

  /** One ORDER BY item, by column name. */
  datatype OrderBy = OrderBy(column: string, descending: bool)

  /** The ORDER BY columns; one that is not visible is an error. */
  function OrderKeys(tbl: SearchTable, order: seq<OrderBy>): (keys: Result<seq<SortKey>, QueryError>)
    ensures keys.Err? <==> exists i :: 0 <= i < |order| && order[i].column !in tbl.columns
    ensures keys.Err? ==> keys.error == UnknownColumn
    ensures keys.Ok? ==> |keys.value| == |order|
    ensures keys.Ok? ==> forall i :: 0 <= i < |order| ==> keys.value[i] == SortKey(tbl.columns[order[i].column], order[i].descending)
  {
    if order == [] then Ok([])
    else
      var front := OrderKeys(tbl, order[..|order| - 1]);
      var last := order[|order| - 1];
      if front.Err? then front
      else if last.column !in tbl.columns then Err(UnknownColumn)
      else Ok(front.value + [SortKey(tbl.columns[last.column], last.descending)])
  }

  /** The rows with the data the transaction reads. */
  function WithData(tbl: SearchTable, t: TransactionId, ids: seq<RowId>): (hits: seq<Hit>)
    ensures |hits| == |ids|
    ensures forall i :: 0 <= i < |ids| ==> hits[i].row == ids[i] && Read(tbl.w.db, t, ids[i]) in {None, Some(hits[i].data)}
  {
    seq(|ids|, i requires 0 <= i < |ids| => Hit(ids[i], match Read(tbl.w.db, t, ids[i]) case None => map[] case Some(d) => d))
  }

  /** A search through the given path: the rows found, arranged by ORDER BY; OFFSET then skips that many, and LIMIT bounds what follows. */
  method Search(tbl: SearchTable, t: TransactionId, filter: Option<Expr>, path: Option<AccessPath>, order: seq<OrderBy>, offset: nat, limit: Option<nat>)
    returns (found: Result<seq<Hit>, QueryError>)
    ensures match OrderKeys(tbl, order)
      case Err(e) => found == Err(e)
      case Ok(keys) =>
        match SearchIds(tbl, t, filter, path)
        case Err(e) => found == Err(e)
        case Ok(ids) =>
          var all := Arranged(WithData(tbl, t, ids), keys);
          && found.Ok? && |found.value| == Shown(|all|, offset, limit)
          && forall i :: 0 <= i < |found.value| ==> found.value[i] == all[offset + i]
  {
    var keys := OrderKeys(tbl, order);
    if keys.Err? {
      return Err(keys.error);
    }
    var candidates := FindCandidates(tbl, t, filter, path);
    if candidates.Err? {
      return Err(candidates.error);
    }
    var ids;
    if candidates.value.Some? {
      ids := SortIds(candidates.value.value);
    } else {
      ids := CollectScan(tbl.locations);
    }
    var matched := MatchRows(tbl, t, filter, ids);
    if matched.Err? {
      return Err(matched.error);
    }
    var all := Arranged(WithData(tbl, t, matched.value), keys.value);
    var rest := if offset <= |all| then all[offset..] else [];
    found := Ok(if limit.Some? && limit.value < |rest| then rest[..limit.value] else rest);
  }

  // ---- What a search means --------------------------------------------------------------------------

  /** The row is stored, the transaction sees it, and the filter, if there is one, is true of it. */
  ghost predicate Meets(tbl: SearchTable, t: TransactionId, filter: Option<Expr>, r: RowId) {
    && r in tbl.locations
    && match Read(tbl.w.db, t, r)
       case None => false
       case Some(d) => filter.Some? ==> Evaluate(filter.value, RowContext(tbl.columns, d)) == Ok(true)
  }

  /** A full scan that succeeds returns exactly the rows that meet the filter, each once; without a filter it always succeeds. */
  lemma ScanReturnsExactly(tbl: SearchTable, t: TransactionId, filter: Option<Expr>)
    ensures var found := SearchIds(tbl, t, filter, Some(SeqScan));
      && (found.Ok? ==> Distinct(found.value) && forall r: RowId :: r in found.value <==> Meets(tbl, t, filter, r))
      && (filter.None? ==> found.Ok?)
  {
    var all := ScanAll(tbl.locations);
    var found := SearchIds(tbl, t, filter, Some(SeqScan));
    if filter.None? { MatchingIsHits(tbl, t, filter, all); }
    if found.Ok? {
      ScannedInOrder(tbl, t, filter);
      forall r: RowId ensures r in found.value <==> Meets(tbl, t, filter, r) {
        KeptIff(tbl, t, filter, all, r);
        ScanMeetsAll(tbl.locations, r);
      }
    }
  }

  lemma {:induction false} KeptIff(tbl: SearchTable, t: TransactionId, filter: Option<Expr>, ids: seq<RowId>, r: RowId)
    requires Matching(tbl, t, filter, ids).Ok?
    ensures r in Matching(tbl, t, filter, ids).value <==> r in ids && Tests(tbl, t, filter, r) == Ok(true)
    decreases |ids|
  {
    if ids != [] {
      var front, last := ids[..|ids| - 1], ids[|ids| - 1];
      assert ids == front + [last];
      KeptIff(tbl, t, filter, front, r);
    }
  }

  /** The names a condition may use: the visible columns, an absent one standing for NULL. */
  lemma RowNames(columns: map<string, ColumnId>, d: RowData, name: string)
    requires forall n :: n in columns ==> Lower(n) == n
    ensures Resolve(RowContext(columns, d), None, name) ==
      if Lower(name) !in columns then Err(UnknownColumn)
      else Ok(if columns[Lower(name)] in d then d[columns[Lower(name)]] else Null)
  {
  }

  /** Going through rows fails with the failure of the first row on which the filter fails, if there is one, and otherwise not. */
  lemma FirstFailure(tbl: SearchTable, t: TransactionId, filter: Option<Expr>, ids: seq<RowId>, i: nat)
    requires i <= |ids| && forall j :: 0 <= j < i ==> Tests(tbl, t, filter, ids[j]).Ok?
    ensures i < |ids| && Tests(tbl, t, filter, ids[i]).Err? ==> Matching(tbl, t, filter, ids) == Err(Tests(tbl, t, filter, ids[i]).error)
    ensures i == |ids| ==> Matching(tbl, t, filter, ids).Ok?
  {
    MatchingIsHits(tbl, t, filter, ids[..i]);
    if i < |ids| { MatchingNext(tbl, t, filter, ids, i); } else { assert ids[..i] == ids; }
  }
}
