/** Joins (`query.rs`): probing the right table's index against going through all of its rows. */
module Joins {
  import opened Prelude
  import opened Values
  import opened Transactions
  import opened Rows
  import opened Pages
  import opened MvccStore
  import opened MvccTheorems
  import opened TableMaintenance
  import opened SearchExpressions
  import opened ScanOrder
  import opened AccessPaths

  /** One table's row inside a joined row. */
  datatype Binding = Binding(alias: string, row: RowId, columns: map<string, ColumnId>, data: RowData)

  type JoinedRow = seq<Binding>

  datatype JoinType = Inner | LeftOuter | Cross

  datatype Join = Join(kind: JoinType, alias: string, on: Option<Expr>, shared: Option<seq<string>>)

  // ---- Names in a joined row ------------------------------------------------------------------------

  function Owners(joined: JoinedRow, column: string): nat {
    if joined == [] then 0
    else Owners(joined[..|joined| - 1], column) + if column in joined[|joined| - 1].columns then 1 else 0
  }

  function Qualified(b: Binding): Context {
    map n | n in b.columns :: Of(Lower(b.alias), n) := Field(b.data, b.columns[n])
  }

  /** Unqualified names, offered only when a single table has the column. */
  function Unqualified(all: JoinedRow, b: Binding): Context {
    map n | n in b.columns && Owners(all, n) == 1 :: Bare(n) := Field(b.data, b.columns[n])
  }

  function ContextOver(all: JoinedRow, joined: JoinedRow): Context {
    if joined == [] then map[]
    else
      var b := joined[|joined| - 1];
      ContextOver(all, joined[..|joined| - 1]) + Qualified(b) + Unqualified(all, b)
  }

  function ContextOf(joined: JoinedRow): Context { ContextOver(joined, joined) }

  method BuildRowContext(joined: JoinedRow) returns (ctx: Context)
    ensures ctx == ContextOf(joined)
  {
    ctx := map[];
    for i := 0 to |joined|
      invariant ctx == ContextOver(joined, joined[..i])
    {
      assert joined[..i + 1][..i] == joined[..i];
      ctx := ctx + Qualified(joined[i]) + Unqualified(joined, joined[i]);
    }
    assert joined[..|joined|] == joined;
  }

  /** Qualified names do not depend on which unqualified ones are ambiguous. */
  lemma {:induction false} QualifiedStable(a: JoinedRow, b: JoinedRow, joined: JoinedRow, table: string, n: string)
    ensures Get(ContextOver(a, joined), Of(table, n)) == Get(ContextOver(b, joined), Of(table, n))
    decreases |joined|
  {
    if joined != [] { QualifiedStable(a, b, joined[..|joined| - 1], table, n); }
  }

  /** A new table answers to its own alias and leaves every other alias alone. */
  lemma NewBindingNames(partial: JoinedRow, b: Binding, table: string, n: string)
    ensures table != Lower(b.alias) ==> Get(ContextOf(partial + [b]), Of(table, n)) == Get(ContextOf(partial), Of(table, n))
    ensures table == Lower(b.alias) && n in b.columns ==> Get(ContextOf(partial + [b]), Of(table, n)) == Some(Field(b.data, b.columns[n]))
  {
    var all := partial + [b];
    LastBinding(all, partial, b);
    QualifiedStable(all, partial, partial, table, n);
    OwnNames(ContextOver(all, partial), all, b, table, n);
  }

  lemma LastBinding(all: JoinedRow, partial: JoinedRow, b: Binding)
    requires all == partial + [b]
    ensures ContextOf(all) == ContextOver(all, partial) + Qualified(b) + Unqualified(all, b)
  {
    assert all[..|all| - 1] == partial;
  }

  lemma OwnNames(front: Context, all: JoinedRow, b: Binding, table: string, n: string)
    ensures var ctx := front + Qualified(b) + Unqualified(all, b);
      && (table != Lower(b.alias) ==> Get(ctx, Of(table, n)) == Get(front, Of(table, n)))
      && (table == Lower(b.alias) && n in b.columns ==> Get(ctx, Of(table, n)) == Some(Field(b.data, b.columns[n])))
  {
    assert Of(table, n) !in Unqualified(all, b);
    assert Of(table, n) in Qualified(b) <==> table == Lower(b.alias) && n in b.columns;
  }

  /** Only aliases of bound tables qualify anything. */
  lemma {:induction false} BoundAlias(all: JoinedRow, joined: JoinedRow, table: string, n: string) returns (i: nat)
    requires Of(table, n) in ContextOver(all, joined)
    ensures i < |joined| && Lower(joined[i].alias) == table
    decreases |joined|
  {
    i := |joined| - 1;
    if Lower(joined[i].alias) != table {
      assert Of(table, n) !in Qualified(joined[i]) && Of(table, n) !in Unqualified(all, joined[i]);
      i := BoundAlias(all, joined[..|joined| - 1], table, n);
    }
  }

  // ---- Joining one left row -------------------------------------------------------------------------

  /** USING: the last two tables agree on every column named. */
  function SharedMatch(left: Binding, right: Binding, columns: seq<string>): Result<bool, QueryError> {
    if columns == [] then Ok(true)
    else if columns[0] !in left.columns || columns[0] !in right.columns then Err(UnknownColumn)
    else if Field(left.data, left.columns[columns[0]]) != Field(right.data, right.columns[columns[0]]) then Ok(false)
    else SharedMatch(left, right, columns[1..])
  }

  function JoinMatches(joined: JoinedRow, join: Join): Result<bool, QueryError> {
    if join.kind.Cross? then Ok(true)
    else if join.on.Some? then Evaluate(join.on.value, ContextOf(joined))
    else if join.shared.None? then Err(MissingJoinCondition)
    else if |joined| < 2 then Err(InvalidJoin)
    else SharedMatch(joined[|joined| - 2], joined[|joined| - 1], join.shared.value)
  }

  function RightBinding(tbl: SearchTable, join: Join, r: RowId, d: RowData): Binding {
    Binding(join.alias, r, tbl.columns, d)
  }

  /** Whether the transaction sees right row `r` and it joins with the left row. */
  function JoinTests(tbl: SearchTable, t: TransactionId, partial: JoinedRow, join: Join, r: RowId): Result<bool, QueryError> {
    match Read(tbl.w.db, t, r)
    case None => Ok(false)
    case Some(d) => JoinMatches(partial + [RightBinding(tbl, join, r, d)], join)
  }

  /** The rows of `ids` that join, in order, up to the first error. */
  function JoinHits(tbl: SearchTable, t: TransactionId, partial: JoinedRow, join: Join, ids: seq<RowId>): Result<seq<RowId>, QueryError> {
    if ids == [] then Ok([])
    else
      var front := JoinHits(tbl, t, partial, join, ids[..|ids| - 1]);
      if front.Err? then front
      else
        var hit := JoinTests(tbl, t, partial, join, ids[|ids| - 1]);
        if hit.Err? then Err(hit.error) else Ok(if hit.value then front.value + [ids[|ids| - 1]] else front.value)
  }

  function Extended(tbl: SearchTable, t: TransactionId, partial: JoinedRow, join: Join, r: RowId): JoinedRow {
    partial + [RightBinding(tbl, join, r, match Read(tbl.w.db, t, r) case None => map[] case Some(d) => d)]
  }

  function Glue(tbl: SearchTable, t: TransactionId, partial: JoinedRow, join: Join, ids: seq<RowId>): (rows: seq<JoinedRow>)
    ensures |rows| == |ids| && forall i :: 0 <= i < |ids| ==> rows[i] == Extended(tbl, t, partial, join, ids[i])
  {
    seq(|ids|, i requires 0 <= i < |ids| => Extended(tbl, t, partial, join, ids[i]))
  }

  lemma GlueSnoc(tbl: SearchTable, t: TransactionId, partial: JoinedRow, join: Join, ids: seq<RowId>, r: RowId)
    ensures Glue(tbl, t, partial, join, ids + [r]) == Glue(tbl, t, partial, join, ids) + [Extended(tbl, t, partial, join, r)]
  {
  }

  /** The right side of a left row without a match. */
  function Padded(tbl: SearchTable, partial: JoinedRow, join: Join): JoinedRow {
    partial + [RightBinding(tbl, join, 0, map[])]
  }

  /** The joined rows of one left row, padded for LEFT OUTER if there are none. */
  function Finish(tbl: SearchTable, t: TransactionId, partial: JoinedRow, join: Join, hits: seq<RowId>): seq<JoinedRow> {
    if hits == [] && join.kind.LeftOuter? then [Padded(tbl, partial, join)] else Glue(tbl, t, partial, join, hits)
  }

  function Block(tbl: SearchTable, t: TransactionId, partial: JoinedRow, join: Join, ids: seq<RowId>): Result<seq<JoinedRow>, QueryError> {
    match JoinHits(tbl, t, partial, join, ids)
    case Err(e) => Err(e)
    case Ok(hits) => Ok(Finish(tbl, t, partial, join, hits))
  }

  /** The rows whose column is present and equal to the value. */
  function Showing(tbl: SearchTable, t: TransactionId, c: ColumnId, v: Value, ids: seq<RowId>): seq<RowId> {
    if ids == [] then []
    else
      var front := Showing(tbl, t, c, v, ids[..|ids| - 1]);
      match Read(tbl.w.db, t, ids[|ids| - 1])
      case None => front
      case Some(d) => if c in d && d[c] == v then front + [ids[|ids| - 1]] else front
  }

  /** `lookup_rows_by_column_value`: the index if it knows the key, otherwise a filtered scan. */
  ghost function LookupRows(tbl: SearchTable, t: TransactionId, l: Lookup): Result<seq<RowId>, QueryError>
    requires l.column in tbl.columns
  {
    match Candidates(tbl, t, l)
    case Err(e) => Err(e)
    case Ok(None) => Ok(Showing(tbl, t, tbl.columns[l.column], l.value, ScanAll(tbl.locations)))
    case Ok(Some(ids)) => Ok(Sorted(ids))
  }

  /** The probe of a left row: right column in lower case, and the left row's value. */
  function ProbeOf(partial: JoinedRow, join: Join): Option<Lookup> {
    if join.kind.Cross? || join.on.None? then None
    else match JoinEqualityLookup(join.on.value, ContextOf(partial), join.alias)
      case None => None
      case Some(l) => Some(Lookup(Lower(l.column), l.value))
  }

  ghost function JoinOne(tbl: SearchTable, t: TransactionId, partial: JoinedRow, join: Join): Result<seq<JoinedRow>, QueryError> {
    match ProbeOf(partial, join)
    case None => Block(tbl, t, partial, join, ScanAll(tbl.locations))
    case Some(l) =>
      if l.column !in tbl.columns then Err(UnknownColumn)
      else match LookupRows(tbl, t, l)
        case Err(e) => Err(e)
        case Ok(ids) => Block(tbl, t, partial, join, ids)
  }

  /** The plain nested loop over all right rows. */
  ghost function NestedLoop(tbl: SearchTable, t: TransactionId, partial: JoinedRow, join: Join): Result<seq<JoinedRow>, QueryError> {
    Block(tbl, t, partial, join, ScanAll(tbl.locations))
  }

  // ---- Probe against nested loop --------------------------------------------------------------------

  /** No table already joined answers to the right alias, in any spelling. */
  predicate FreshAlias(partial: JoinedRow, join: Join) {
    forall i :: 0 <= i < |partial| ==> Lower(partial[i].alias) != Lower(join.alias)
  }

  function EqualityOn(l: Lookup): Expr { Comparison(Column(l.column), Equal, Literal(l.value)) }

  /** In an extended row, the left side of a probed condition still has the probe value. */
  lemma ProbeSides(partial: JoinedRow, join: Join, b: Binding)
    requires FreshAlias(partial, join) && ProbeOf(partial, join).Some? && b.alias == join.alias
    requires ProbeOf(partial, join).value.column in b.columns
    ensures join.on.value.Comparison? && join.on.value.op.Equal?
    ensures var ctx, l := ContextOf(partial + [b]), ProbeOf(partial, join).value;
      && ResolveValue(join.on.value.left, ctx) == Ok(l.value)
      && ResolveValue(join.on.value.right, ctx) == Ok(Field(b.data, b.columns[l.column]))
  {
    var on := join.on.value;
    var table, column := Lower(on.left.table), Lower(on.left.column);
    var i := BoundAlias(partial, partial, table, column);
    NewBindingNames(partial, b, table, column);
    NewBindingNames(partial, b, Lower(on.right.table), Lower(on.right.column));
  }

  /** For a probed left row, joining right row `r` means its column equals the probe value. */
  lemma ProbeIsEquality(tbl: SearchTable, t: TransactionId, partial: JoinedRow, join: Join, r: RowId)
    requires FreshAlias(partial, join) && ProbeOf(partial, join).Some? && ProbeOf(partial, join).value.column in tbl.columns
    requires forall n :: n in tbl.columns ==> Lower(n) == n
    ensures JoinTests(tbl, t, partial, join, r) == Tests(tbl, t, Some(EqualityOn(ProbeOf(partial, join).value)), r)
  {
    EqualityTests(tbl, t, EqualityOn(ProbeOf(partial, join).value), r);
    if Read(tbl.w.db, t, r).Some? {
      ProbeSides(partial, join, RightBinding(tbl, join, r, Read(tbl.w.db, t, r).value));
    }
  }

  lemma {:induction false} ProbeHitsAreMatches(tbl: SearchTable, t: TransactionId, partial: JoinedRow, join: Join, ids: seq<RowId>)
    requires FreshAlias(partial, join) && ProbeOf(partial, join).Some? && ProbeOf(partial, join).value.column in tbl.columns
    requires forall n :: n in tbl.columns ==> Lower(n) == n
    ensures JoinHits(tbl, t, partial, join, ids) == Matching(tbl, t, Some(EqualityOn(ProbeOf(partial, join).value)), ids)
    decreases |ids|
  {
    if ids != [] {
      ProbeHitsAreMatches(tbl, t, partial, join, ids[..|ids| - 1]);
      ProbeIsEquality(tbl, t, partial, join, ids[|ids| - 1]);
    }
  }

  /** Rows that lack the right column join with NULL; only the index may know about them. */
  ghost predicate NullsProbed(tbl: SearchTable, t: TransactionId, l: Lookup)
    requires l.column in tbl.columns
  {
    l.value == Null ==>
      forall r :: r in tbl.locations && LacksColumn(tbl, t, r, tbl.columns[l.column]) ==> KeyIndexed(tbl, l) && r in Bucket(tbl, l)
  }

  predicate Passes(tbl: SearchTable, t: TransactionId, filter: Option<Expr>, r: RowId) {
    Tests(tbl, t, filter, r) == Ok(true)
  }

  predicate PassesAt(tbl: SearchTable, t: TransactionId, filter: Option<Expr>, ids: seq<RowId>, i: nat) {
    i < |ids| ==> Passes(tbl, t, filter, ids[i])
  }

  /** Rows that all pass are all kept. */
  lemma {:induction false} AllPass(tbl: SearchTable, t: TransactionId, filter: Option<Expr>, ids: seq<RowId>, k: nat)
    requires k <= |ids| && forall i: nat :: PassesAt(tbl, t, filter, ids, i)
    ensures Matching(tbl, t, filter, ids[..k]) == Ok(ids[..k])
    decreases k
  {
    if k == 0 {
      assert ids[..k] == [];
    } else {
      AllPass(tbl, t, filter, ids, k - 1);
      assert PassesAt(tbl, t, filter, ids, k - 1);
      OneMorePasses(tbl, t, filter, ids, k - 1);
    }
  }

  lemma OneMorePasses(tbl: SearchTable, t: TransactionId, filter: Option<Expr>, ids: seq<RowId>, n: nat)
    requires n < |ids| && Matching(tbl, t, filter, ids[..n]) == Ok(ids[..n]) && Passes(tbl, t, filter, ids[n])
    ensures Matching(tbl, t, filter, ids[..n + 1]) == Ok(ids[..n + 1])
  {
    MatchingNext(tbl, t, filter, ids, n);
    assert ids[..n] + [ids[n]] == ids[..n + 1];
  }

  lemma {:induction false} ShowingPasses(tbl: SearchTable, t: TransactionId, l: Lookup, ids: seq<RowId>, r: RowId)
    requires l.column in tbl.columns && Lower(l.column) == l.column && r in Showing(tbl, t, tbl.columns[l.column], l.value, ids)
    ensures Tests(tbl, t, Some(EqualityOn(l)), r) == Ok(true)
    decreases |ids|
  {
    var front := ids[..|ids| - 1];
    if r in Showing(tbl, t, tbl.columns[l.column], l.value, front) {
      ShowingPasses(tbl, t, l, front, r);
    } else {
      EqualityTests(tbl, t, EqualityOn(l), r);
    }
  }

  /** Filtering what a filtered scan already found changes nothing. */
  lemma ShowingMatches(tbl: SearchTable, t: TransactionId, l: Lookup, ids: seq<RowId>)
    requires l.column in tbl.columns && Lower(l.column) == l.column
    ensures Matching(tbl, t, Some(EqualityOn(l)), Showing(tbl, t, tbl.columns[l.column], l.value, ids)) ==
      Ok(Showing(tbl, t, tbl.columns[l.column], l.value, ids))
  {
    var shown := Showing(tbl, t, tbl.columns[l.column], l.value, ids);
    forall i: nat ensures PassesAt(tbl, t, Some(EqualityOn(l)), shown, i) {
      if i < |shown| {
        assert shown[i] in shown;
        ShowingPasses(tbl, t, l, ids, shown[i]);
      }
    }
    AllPass(tbl, t, Some(EqualityOn(l)), shown, |shown|);
    assert shown[..|shown|] == shown;
  }

  lemma {:induction false} ShowingIsMatching(tbl: SearchTable, t: TransactionId, l: Lookup, ids: seq<RowId>)
    requires l.column in tbl.columns && Lower(l.column) == l.column
    requires l.value == Null ==> forall r :: r in ids ==> !LacksColumn(tbl, t, r, tbl.columns[l.column])
    ensures Matching(tbl, t, Some(EqualityOn(l)), ids) == Ok(Showing(tbl, t, tbl.columns[l.column], l.value, ids))
    decreases |ids|
  {
    if ids != [] {
      var front, r := ids[..|ids| - 1], ids[|ids| - 1];
      ShowingIsMatching(tbl, t, l, front);
      EqualityTests(tbl, t, EqualityOn(l), r);
      assert r in ids;
    }
  }

  lemma {:induction false} ShowingHasColumn(tbl: SearchTable, t: TransactionId, c: ColumnId, v: Value, ids: seq<RowId>, r: RowId)
    requires r in Showing(tbl, t, c, v, ids)
    ensures !LacksColumn(tbl, t, r, c)
    decreases |ids|
  {
    if ids != [] && r in Showing(tbl, t, c, v, ids[..|ids| - 1]) { ShowingHasColumn(tbl, t, c, v, ids[..|ids| - 1], r); }
  }

  /** The rows the probe finds and keeps are those the scan would keep, exactly when NULL is covered. */
  lemma LookupMatchesIff(tbl: SearchTable, t: TransactionId, l: Lookup)
    requires Sound(tbl) && Reader(tbl.w.sp, t) && l.column in tbl.columns
    ensures LookupRows(tbl, t, l).Ok?
    ensures var some, all := Matching(tbl, t, Some(EqualityOn(l)), LookupRows(tbl, t, l).value), Matching(tbl, t, Some(EqualityOn(l)), ScanAll(tbl.locations));
      && some.Ok? && all.Ok? && Distinct(some.value) && Distinct(all.value)
      && (Elements(some.value) == Elements(all.value) <==> NullsProbed(tbl, t, l))
      && (some == all <==> NullsProbed(tbl, t, l) && HitsInOrder(tbl, t, EqualityOn(l), l))
  {
    EqualityNeverFails(tbl, t, l, ScanAll(tbl.locations));
    ScannedInOrder(tbl, t, Some(EqualityOn(l)));
    if KeyIndexed(tbl, l) {
      IndexedMatchesIff(tbl, t, l);
    } else {
      UnindexedMatchesIff(tbl, t, l);
    }
  }

  lemma IndexedMatchesIff(tbl: SearchTable, t: TransactionId, l: Lookup)
    requires Sound(tbl) && Reader(tbl.w.sp, t) && KeyIndexed(tbl, l)
    ensures LookupRows(tbl, t, l).Ok?
    ensures var some, all := Matching(tbl, t, Some(EqualityOn(l)), LookupRows(tbl, t, l).value), Matching(tbl, t, Some(EqualityOn(l)), ScanAll(tbl.locations));
      && some.Ok? && all.Ok? && Distinct(some.value)
      && (Elements(some.value) == Elements(all.value) <==> NullsIndexed(tbl, t, l))
      && (some == all <==> NullsIndexed(tbl, t, l) && HitsInOrder(tbl, t, EqualityOn(l), l))
  {
    BucketIsLocated(tbl, l);
    PathResults(tbl, t, EqualityOn(l));
    IndexAgreesIff(tbl, t, EqualityOn(l));
  }

  lemma UnindexedMatchesIff(tbl: SearchTable, t: TransactionId, l: Lookup)
    requires Sound(tbl) && l.column in tbl.columns && !KeyIndexed(tbl, l)
    ensures LookupRows(tbl, t, l).Ok?
    ensures var some, all := Matching(tbl, t, Some(EqualityOn(l)), LookupRows(tbl, t, l).value), Matching(tbl, t, Some(EqualityOn(l)), ScanAll(tbl.locations));
      && some.Ok? && all.Ok? && Distinct(some.value)
      && (NullsProbed(tbl, t, l) ==> some == all) && (!NullsProbed(tbl, t, l) ==> Elements(some.value) != Elements(all.value))
  {
    var all := ScanAll(tbl.locations);
    ShowingMatches(tbl, t, l, all);
    ShowingDistinct(tbl, t, tbl.columns[l.column], l.value);
    EqualityNeverFails(tbl, t, l, all);
    if NullsProbed(tbl, t, l) {
      ShowingAll(tbl, t, l);
    } else {
      ShowingMisses(tbl, t, l);
    }
  }

  lemma ShowingDistinct(tbl: SearchTable, t: TransactionId, c: ColumnId, v: Value)
    ensures Distinct(Showing(tbl, t, c, v, ScanAll(tbl.locations)))
  {
    var all := ScanAll(tbl.locations);
    var at := ShowingIsSubsequence(tbl, t, c, v, all);
    ScanAllInOrder(tbl.locations);
    SubsequenceDistinct(Showing(tbl, t, c, v, all), all, at);
  }

  lemma ShowingAll(tbl: SearchTable, t: TransactionId, l: Lookup)
    requires Sound(tbl) && l.column in tbl.columns && !KeyIndexed(tbl, l) && NullsProbed(tbl, t, l)
    ensures Matching(tbl, t, Some(EqualityOn(l)), ScanAll(tbl.locations)) == Ok(Showing(tbl, t, tbl.columns[l.column], l.value, ScanAll(tbl.locations)))
  {
    var all := ScanAll(tbl.locations);
    forall r | r in all ensures l.value == Null ==> !LacksColumn(tbl, t, r, tbl.columns[l.column]) { ScanMeetsAll(tbl.locations, r); }
    ShowingIsMatching(tbl, t, l, all);
  }

  lemma ShowingMisses(tbl: SearchTable, t: TransactionId, l: Lookup)
    requires Sound(tbl) && l.column in tbl.columns && !KeyIndexed(tbl, l) && !NullsProbed(tbl, t, l)
    ensures var found := Matching(tbl, t, Some(EqualityOn(l)), ScanAll(tbl.locations));
      found.Ok? && Elements(Showing(tbl, t, tbl.columns[l.column], l.value, ScanAll(tbl.locations))) != Elements(found.value)
  {
    var c, all := tbl.columns[l.column], ScanAll(tbl.locations);
    var r :| r in tbl.locations && LacksColumn(tbl, t, r, c);
    LackingIsFound(tbl, t, l, r);
    NotShown(tbl, t, c, l.value, all, r);
    var shown, found := Showing(tbl, t, c, l.value, all), Matching(tbl, t, Some(EqualityOn(l)), all).value;
    assert r in Elements(found) && r !in Elements(shown);
  }

  lemma NotShown(tbl: SearchTable, t: TransactionId, c: ColumnId, v: Value, ids: seq<RowId>, r: RowId)
    requires LacksColumn(tbl, t, r, c)
    ensures r !in Showing(tbl, t, c, v, ids)
  {
    if r in Showing(tbl, t, c, v, ids) { ShowingHasColumn(tbl, t, c, v, ids, r); }
  }

  lemma {:induction false} ShowingIsSubsequence(tbl: SearchTable, t: TransactionId, c: ColumnId, v: Value, ids: seq<RowId>) returns (at: seq<nat>)
    ensures Subsequence(Showing(tbl, t, c, v, ids), ids, at)
    decreases |ids|
  {
    at := [];
    if ids != [] {
      var front, r := ids[..|ids| - 1], ids[|ids| - 1];
      at := ShowingIsSubsequence(tbl, t, c, v, front);
      assert ids == front + [r];
      SubsequenceSnoc(Showing(tbl, t, c, v, front), front, at, r);
      if Showing(tbl, t, c, v, ids) != Showing(tbl, t, c, v, front) {
        at := at + [|front|];
      }
    }
  }

  lemma LackingIsFound(tbl: SearchTable, t: TransactionId, l: Lookup, r: RowId)
    requires Sound(tbl) && l.column in tbl.columns && l.value == Null
    requires r in tbl.locations && LacksColumn(tbl, t, r, tbl.columns[l.column])
    ensures var found := Matching(tbl, t, Some(EqualityOn(l)), ScanAll(tbl.locations));
      found.Ok? && r in found.value
  {
    var filter, all := EqualityOn(l), ScanAll(tbl.locations);
    EqualityNeverFails(tbl, t, l, all);
    ScanMeetsAll(tbl.locations, r);
    LackingPasses(tbl, t, l, r);
    assert r in Hits(tbl, t, Some(filter), Elements(all));
  }

  lemma LackingPasses(tbl: SearchTable, t: TransactionId, l: Lookup, r: RowId)
    requires l.column in tbl.columns && Lower(l.column) == l.column && l.value == Null && LacksColumn(tbl, t, r, tbl.columns[l.column])
    ensures Passes(tbl, t, Some(EqualityOn(l)), r)
  {
    EqualityTests(tbl, t, EqualityOn(l), r);
  }

  lemma EqualityNeverFails(tbl: SearchTable, t: TransactionId, l: Lookup, ids: seq<RowId>)
    requires Sound(tbl) && l.column in tbl.columns
    ensures var found := Matching(tbl, t, Some(EqualityOn(l)), ids);
      found.Ok? && Elements(found.value) == Hits(tbl, t, Some(EqualityOn(l)), Elements(ids))
  {
    var filter := EqualityOn(l);
    forall x: RowId ensures Tests(tbl, t, Some(filter), x).Ok? { EqualityTests(tbl, t, filter, x); }
    MatchingIsHits(tbl, t, Some(filter), ids);
  }

  /** What is needed for a probe to keep the nested loop's order too. */
  ghost predicate ProbeInOrder(tbl: SearchTable, t: TransactionId, partial: JoinedRow, join: Join)
    requires ProbeOf(partial, join).Some?
  {
    HitsInOrder(tbl, t, EqualityOn(ProbeOf(partial, join).value), ProbeOf(partial, join).value)
  }

  /** A probe joins the nested loop's right rows exactly when NULL is covered, and in its order under the exact condition. */
  lemma ProbeJoinsSameRowsIff(tbl: SearchTable, t: TransactionId, partial: JoinedRow, join: Join)
    requires Sound(tbl) && Reader(tbl.w.sp, t) && FreshAlias(partial, join)
    requires ProbeOf(partial, join).Some? && ProbeOf(partial, join).value.column in tbl.columns
    ensures var l := ProbeOf(partial, join).value;
      && LookupRows(tbl, t, l).Ok?
      && var some, all := JoinHits(tbl, t, partial, join, LookupRows(tbl, t, l).value), JoinHits(tbl, t, partial, join, ScanAll(tbl.locations));
         && some.Ok? && all.Ok? && Distinct(some.value) && Distinct(all.value)
         && (Elements(some.value) == Elements(all.value) <==> NullsProbed(tbl, t, l))
         && (some == all <==> NullsProbed(tbl, t, l) && ProbeInOrder(tbl, t, partial, join))
  {
    var l := ProbeOf(partial, join).value;
    LookupMatchesIff(tbl, t, l);
    ProbeHitsAreMatches(tbl, t, partial, join, LookupRows(tbl, t, l).value);
    ProbeHitsAreMatches(tbl, t, partial, join, ScanAll(tbl.locations));
  }

  /** When a left row may be probed: the right column exists and the value looked up is not NULL. */
  predicate Probeable(tbl: SearchTable, partial: JoinedRow, join: Join) {
    && FreshAlias(partial, join)
    && (ProbeOf(partial, join).Some? ==>
         ProbeOf(partial, join).value.column in tbl.columns && ProbeOf(partial, join).value.value != Null)
  }

  /** The same right rows joined to one left row, in whatever order, or the same error. */
  ghost predicate SameBlock(tbl: SearchTable, t: TransactionId, partial: JoinedRow, join: Join,
                            a: Result<seq<JoinedRow>, QueryError>, b: Result<seq<JoinedRow>, QueryError>) {
    a == b ||
    exists xs: seq<RowId>, ys: seq<RowId> ::
      && Distinct(xs) && Distinct(ys) && Elements(xs) == Elements(ys)
      && a == Ok(Finish(tbl, t, partial, join, xs)) && b == Ok(Finish(tbl, t, partial, join, ys))
  }

  /** One right row taken out of a sequence of them. */
  function Dropped(ys: seq<RowId>, j: nat): seq<RowId>
    requires j < |ys|
  {
    ys[..j] + ys[j + 1..]
  }

  lemma DroppedElements(ys: seq<RowId>, j: nat)
    requires j < |ys| && Distinct(ys)
    ensures Distinct(Dropped(ys, j)) && Elements(Dropped(ys, j)) == Elements(ys) - {ys[j]}
  {
    var rest := Dropped(ys, j);
    forall i | 0 <= i < |rest| ensures rest[i] == ys[if i < j then i else i + 1] {}
    forall y | y in ys && y != ys[j] ensures y in rest {
      var i :| 0 <= i < |ys| && ys[i] == y;
      assert rest[if i < j then i else i - 1] == y;
    }
  }

  lemma GlueDropped(tbl: SearchTable, t: TransactionId, partial: JoinedRow, join: Join, ys: seq<RowId>, j: nat)
    requires j < |ys|
    ensures multiset(Glue(tbl, t, partial, join, ys)) == multiset(Glue(tbl, t, partial, join, Dropped(ys, j))) + multiset{Extended(tbl, t, partial, join, ys[j])}
  {
    var before, after := ys[..j], ys[j + 1..];
    assert ys == before + ([ys[j]] + after);
    GlueAppend(tbl, t, partial, join, before, after);
    GlueAppend(tbl, t, partial, join, before, [ys[j]] + after);
    GlueAppend(tbl, t, partial, join, [ys[j]], after);
    assert Glue(tbl, t, partial, join, [ys[j]]) == [Extended(tbl, t, partial, join, ys[j])];
  }

  lemma {:induction false} GlueAppend(tbl: SearchTable, t: TransactionId, partial: JoinedRow, join: Join, xs: seq<RowId>, ys: seq<RowId>)
    ensures Glue(tbl, t, partial, join, xs + ys) == Glue(tbl, t, partial, join, xs) + Glue(tbl, t, partial, join, ys)
    decreases |ys|
  {
    if ys == [] {
      assert xs + ys == xs;
    } else {
      var front, y := ys[..|ys| - 1], ys[|ys| - 1];
      assert ys == front + [y] && xs + ys == (xs + front) + [y];
      GlueAppend(tbl, t, partial, join, xs, front);
      GlueSnoc(tbl, t, partial, join, xs + front, y);
      GlueSnoc(tbl, t, partial, join, front, y);
    }
  }

  /** The same right rows in two orders give the same joined rows. */
  lemma {:induction false} GlueAnyOrder(tbl: SearchTable, t: TransactionId, partial: JoinedRow, join: Join, xs: seq<RowId>, ys: seq<RowId>)
    requires Distinct(xs) && Distinct(ys) && Elements(xs) == Elements(ys)
    ensures multiset(Glue(tbl, t, partial, join, xs)) == multiset(Glue(tbl, t, partial, join, ys))
    decreases |xs|
  {
    DistinctSize(xs);
    DistinctSize(ys);
    if xs != [] {
      assert xs[0] in Elements(ys);
      var j :| 0 <= j < |ys| && ys[j] == xs[0];
      DroppedElements(xs, 0);
      DroppedElements(ys, j);
      GlueAnyOrder(tbl, t, partial, join, Dropped(xs, 0), Dropped(ys, j));
      GlueDropped(tbl, t, partial, join, xs, 0);
      GlueDropped(tbl, t, partial, join, ys, j);
    }
  }

  /** Wherever its rows lie, the probe branch yields the nested loop's rows. */
  lemma ProbeYieldsSameRows(tbl: SearchTable, t: TransactionId, partial: JoinedRow, join: Join)
    requires Sound(tbl) && Reader(tbl.w.sp, t) && Probeable(tbl, partial, join)
    ensures SameBlock(tbl, t, partial, join, JoinOne(tbl, t, partial, join), NestedLoop(tbl, t, partial, join))
    ensures match JoinOne(tbl, t, partial, join)
      case Err(e) => NestedLoop(tbl, t, partial, join) == Err(e)
      case Ok(rows) => NestedLoop(tbl, t, partial, join).Ok? && multiset(rows) == multiset(NestedLoop(tbl, t, partial, join).value)
  {
    if ProbeOf(partial, join).Some? {
      var l := ProbeOf(partial, join).value;
      ProbeJoinsSameRowsIff(tbl, t, partial, join);
      var xs, ys := JoinHits(tbl, t, partial, join, LookupRows(tbl, t, l).value).value, JoinHits(tbl, t, partial, join, ScanAll(tbl.locations)).value;
      DistinctSize(xs);
      DistinctSize(ys);
      GlueAnyOrder(tbl, t, partial, join, xs, ys);
      assert JoinOne(tbl, t, partial, join) == Ok(Finish(tbl, t, partial, join, xs));
      assert NestedLoop(tbl, t, partial, join) == Ok(Finish(tbl, t, partial, join, ys));
    }
  }

  /** The probe branch yields the nested loop's rows in the same order if the rows it finds lie in id order along the pages. */
  lemma ProbeEqualsNestedLoop(tbl: SearchTable, t: TransactionId, partial: JoinedRow, join: Join)
    requires Sound(tbl) && Reader(tbl.w.sp, t) && Probeable(tbl, partial, join)
    requires ProbeOf(partial, join).Some? ==> ProbeInOrder(tbl, t, partial, join)
    ensures JoinOne(tbl, t, partial, join) == NestedLoop(tbl, t, partial, join)
  {
    if ProbeOf(partial, join).Some? { ProbeJoinsSameRowsIff(tbl, t, partial, join); }
  }

  /** Padding aside, different right rows give different joined rows. */
  lemma FinishInjective(tbl: SearchTable, t: TransactionId, partial: JoinedRow, join: Join, xs: seq<RowId>, ys: seq<RowId>)
    requires 0 !in xs && 0 !in ys
    ensures Finish(tbl, t, partial, join, xs) == Finish(tbl, t, partial, join, ys) <==> xs == ys
  {
    var a: seq<JoinedRow>, b: seq<JoinedRow> := Finish(tbl, t, partial, join, xs), Finish(tbl, t, partial, join, ys);
    FinishRows(tbl, t, partial, join, xs);
    FinishRows(tbl, t, partial, join, ys);
    if a == b {
      assert xs != [] ==> a != [] && a[0][|partial|].row == xs[0] && xs[0] in xs;
      assert ys != [] ==> b != [] && b[0][|partial|].row == ys[0] && ys[0] in ys;
      assert xs == [] && a != [] ==> a[0][|partial|].row == 0;
      assert ys == [] && b != [] ==> b[0][|partial|].row == 0;
      forall i | 0 <= i < |xs| ensures xs[i] == ys[i] { assert a[i][|partial|].row == xs[i]; }
    }
  }

  /** The right row ids of a block; 0 is the padding. */
  lemma FinishRows(tbl: SearchTable, t: TransactionId, partial: JoinedRow, join: Join, hits: seq<RowId>)
    ensures var rows: seq<JoinedRow> := Finish(tbl, t, partial, join, hits);
      && |rows| == (if hits == [] && join.kind.LeftOuter? then 1 else |hits|)
      && forall i :: 0 <= i < |rows| ==> |rows[i]| == |partial| + 1 && rows[i][|partial|].row == if hits == [] then 0 else hits[i]
  {
  }

  lemma HitsAreRows(tbl: SearchTable, t: TransactionId, partial: JoinedRow, join: Join, ids: seq<RowId>, r: RowId)
    requires JoinHits(tbl, t, partial, join, ids).Ok? && r in JoinHits(tbl, t, partial, join, ids).value
    ensures r in tbl.w.db.rows
  {
    HitsAreJoinSet(tbl, t, partial, join, ids);
  }

  /** The exact condition: NULL is covered, and the rows an index finds lie in id order along the pages. */
  lemma ProbeEqualsNestedLoopIff(tbl: SearchTable, t: TransactionId, partial: JoinedRow, join: Join)
    requires Sound(tbl) && Reader(tbl.w.sp, t) && FreshAlias(partial, join) && 0 !in tbl.locations
    requires ProbeOf(partial, join).Some? && ProbeOf(partial, join).value.column in tbl.columns
    ensures JoinOne(tbl, t, partial, join) == NestedLoop(tbl, t, partial, join)
      <==> NullsProbed(tbl, t, ProbeOf(partial, join).value) && ProbeInOrder(tbl, t, partial, join)
  {
    var l := ProbeOf(partial, join).value;
    ProbeJoinsSameRowsIff(tbl, t, partial, join);
    var some, all := LookupRows(tbl, t, l).value, ScanAll(tbl.locations);
    var xs, ys := JoinHits(tbl, t, partial, join, some).value, JoinHits(tbl, t, partial, join, all).value;
    assert 0 !in xs by { if 0 in xs { HitsAreRows(tbl, t, partial, join, some, 0); } }
    assert 0 !in ys by { if 0 in ys { HitsAreRows(tbl, t, partial, join, all, 0); } }
    FinishInjective(tbl, t, partial, join, xs, ys);
  }

  // ---- All left rows --------------------------------------------------------------------------------

  ghost function JoinAll(tbl: SearchTable, t: TransactionId, current: seq<JoinedRow>, join: Join): Result<seq<JoinedRow>, QueryError> {
    if current == [] then Ok([])
    else
      var front := JoinAll(tbl, t, current[..|current| - 1], join);
      if front.Err? then front
      else
        var block := JoinOne(tbl, t, current[|current| - 1], join);
        if block.Err? then block else Ok(front.value + block.value)
  }

  lemma {:induction false} JoinErrorStays(tbl: SearchTable, t: TransactionId, current: seq<JoinedRow>, join: Join, i: nat)
    requires i <= |current| && JoinAll(tbl, t, current[..i], join).Err?
    ensures JoinAll(tbl, t, current, join) == JoinAll(tbl, t, current[..i], join)
    decreases |current|
  {
    if i < |current| {
      assert current[..|current| - 1][..i] == current[..i];
      JoinErrorStays(tbl, t, current[..|current| - 1], join, i);
    } else {
      assert current[..i] == current;
    }
  }

  /** The plain nested loop over all left rows, up to the first error. */
  ghost function NestedLoops(tbl: SearchTable, t: TransactionId, current: seq<JoinedRow>, join: Join): Result<seq<JoinedRow>, QueryError> {
    if current == [] then Ok([])
    else
      var front := NestedLoops(tbl, t, current[..|current| - 1], join);
      if front.Err? then front
      else
        var block := NestedLoop(tbl, t, current[|current| - 1], join);
        if block.Err? then block else Ok(front.value + block.value)
  }

  /** A whole join is the nested loop: the same rows in the same order, or the same error. */
  lemma {:induction false} JoinIsNestedLoop(tbl: SearchTable, t: TransactionId, current: seq<JoinedRow>, join: Join)
    requires Sound(tbl) && Reader(tbl.w.sp, t)
    requires forall i :: 0 <= i < |current| ==> Probeable(tbl, current[i], join)
    requires forall i :: 0 <= i < |current| && ProbeOf(current[i], join).Some? ==> ProbeInOrder(tbl, t, current[i], join)
    ensures JoinAll(tbl, t, current, join) == NestedLoops(tbl, t, current, join)
    decreases |current|
  {
    if current != [] {
      JoinIsNestedLoop(tbl, t, current[..|current| - 1], join);
      ProbeEqualsNestedLoop(tbl, t, current[|current| - 1], join);
    }
  }

  /** Wherever the right rows lie: the join fails exactly as the nested loop does, and yields the same rows. */
  lemma {:induction false} JoinYieldsSameRows(tbl: SearchTable, t: TransactionId, current: seq<JoinedRow>, join: Join)
    requires Sound(tbl) && Reader(tbl.w.sp, t)
    requires forall i :: 0 <= i < |current| ==> Probeable(tbl, current[i], join)
    ensures match JoinAll(tbl, t, current, join)
      case Err(e) => NestedLoops(tbl, t, current, join) == Err(e)
      case Ok(rows) => NestedLoops(tbl, t, current, join).Ok? && multiset(rows) == multiset(NestedLoops(tbl, t, current, join).value)
    decreases |current|
  {
    if current != [] {
      JoinYieldsSameRows(tbl, t, current[..|current| - 1], join);
      ProbeYieldsSameRows(tbl, t, current[|current| - 1], join);
    }
  }

  // ---- LEFT OUTER -----------------------------------------------------------------------------------

  /** The right rows that join with a left row. */
  ghost function JoinSet(tbl: SearchTable, t: TransactionId, partial: JoinedRow, join: Join): set<RowId> {
    set r | r in tbl.locations && JoinTests(tbl, t, partial, join, r) == Ok(true)
  }

  lemma HitsAreJoinSet(tbl: SearchTable, t: TransactionId, partial: JoinedRow, join: Join, ids: seq<RowId>)
    requires JoinHits(tbl, t, partial, join, ids).Ok?
    ensures forall r :: r in JoinHits(tbl, t, partial, join, ids).value <==> r in ids && JoinTests(tbl, t, partial, join, r) == Ok(true)
  {
    forall r ensures r in JoinHits(tbl, t, partial, join, ids).value <==> r in ids && JoinTests(tbl, t, partial, join, r) == Ok(true) {
      HitIff(tbl, t, partial, join, ids, r);
    }
  }

  lemma {:induction false} HitIff(tbl: SearchTable, t: TransactionId, partial: JoinedRow, join: Join, ids: seq<RowId>, r: RowId)
    requires JoinHits(tbl, t, partial, join, ids).Ok?
    ensures r in JoinHits(tbl, t, partial, join, ids).value <==> r in ids && JoinTests(tbl, t, partial, join, r) == Ok(true)
    decreases |ids|
  {
    if ids != [] {
      var front, last := ids[..|ids| - 1], ids[|ids| - 1];
      HitIff(tbl, t, partial, join, front, r);
      assert ids == front + [last];
    }
  }

  lemma {:induction false} HitsDistinct(tbl: SearchTable, t: TransactionId, partial: JoinedRow, join: Join, ids: seq<RowId>)
    requires JoinHits(tbl, t, partial, join, ids).Ok? && Distinct(ids)
    ensures Distinct(JoinHits(tbl, t, partial, join, ids).value)
    decreases |ids|
  {
    if ids != [] {
      var front, r := ids[..|ids| - 1], ids[|ids| - 1];
      HitsDistinct(tbl, t, partial, join, front);
      HitsAreJoinSet(tbl, t, partial, join, front);
      var kept := JoinHits(tbl, t, partial, join, front).value;
      forall i | 0 <= i < |kept| ensures kept[i] != r { assert kept[i] in kept; }
    }
  }

  /**
   * LEFT OUTER keeps a left row once per joining right row, in scan order, or exactly once with an
   * empty right side if there is none.
   */
  lemma OuterKeepsLeftRow(tbl: SearchTable, t: TransactionId, partial: JoinedRow, join: Join) returns (hits: seq<RowId>)
    requires join.kind.LeftOuter? && NestedLoop(tbl, t, partial, join).Ok?
    ensures Distinct(hits) && forall r :: r in hits <==> r in JoinSet(tbl, t, partial, join)
    ensures NestedLoop(tbl, t, partial, join).value ==
      if JoinSet(tbl, t, partial, join) == {} then [Padded(tbl, partial, join)] else Glue(tbl, t, partial, join, hits)
  {
    var all := ScanAll(tbl.locations);
    hits := JoinHits(tbl, t, partial, join, all).value;
    HitsAreJoinSet(tbl, t, partial, join, all);
    ScanAllInOrder(tbl.locations);
    HitsDistinct(tbl, t, partial, join, all);
    forall r ensures r in hits <==> r in JoinSet(tbl, t, partial, join) { ScanMeetsAll(tbl.locations, r); }
    assert hits != [] ==> hits[0] in hits;
  }

  /** The same of the operation itself, probed or not, wherever the right rows lie. */
  lemma OuterJoinKeepsLeftRow(tbl: SearchTable, t: TransactionId, partial: JoinedRow, join: Join) returns (hits: seq<RowId>)
    requires Sound(tbl) && Reader(tbl.w.sp, t) && Probeable(tbl, partial, join) && join.kind.LeftOuter? && JoinOne(tbl, t, partial, join).Ok?
    ensures Distinct(hits) && forall r :: r in hits <==> r in JoinSet(tbl, t, partial, join)
    ensures JoinOne(tbl, t, partial, join).value ==
      if JoinSet(tbl, t, partial, join) == {} then [Padded(tbl, partial, join)] else Glue(tbl, t, partial, join, hits)
  {
    ProbeYieldsSameRows(tbl, t, partial, join);
    var all := OuterKeepsLeftRow(tbl, t, partial, join);
    if ProbeOf(partial, join).Some? {
      ProbeJoinsSameRowsIff(tbl, t, partial, join);
      hits := JoinHits(tbl, t, partial, join, LookupRows(tbl, t, ProbeOf(partial, join).value).value).value;
      ScannedHits(tbl, t, partial, join);
      var scanned := JoinHits(tbl, t, partial, join, ScanAll(tbl.locations)).value;
      forall r: RowId ensures r in hits <==> r in JoinSet(tbl, t, partial, join) {
        assert r in hits <==> r in Elements(hits);
        assert r in scanned <==> r in Elements(scanned);
      }
      assert hits != [] ==> hits[0] in hits;
    } else {
      hits := all;
    }
  }

  lemma ScannedHits(tbl: SearchTable, t: TransactionId, partial: JoinedRow, join: Join)
    requires JoinHits(tbl, t, partial, join, ScanAll(tbl.locations)).Ok?
    ensures forall r: RowId :: r in JoinHits(tbl, t, partial, join, ScanAll(tbl.locations)).value <==> r in JoinSet(tbl, t, partial, join)
  {
    var all := ScanAll(tbl.locations);
    HitsAreJoinSet(tbl, t, partial, join, all);
    forall r: RowId ensures r in all <==> r in tbl.locations { ScanMeetsAll(tbl.locations, r); }
  }

  // ---- What a join means ----------------------------------------------------------------------------

  /** Both tables have the column named. */
  predicate InBoth(left: Binding, right: Binding, column: string) { column in left.columns && column in right.columns }

  /** Both tables have the column, and its fields are equal; two absent ones are, both being NULL. */
  predicate AgreesOn(left: Binding, right: Binding, column: string) {
    && InBoth(left, right, column)
    && (if left.columns[column] in left.data then left.data[left.columns[column]] else Null)
       == (if right.columns[column] in right.data then right.data[right.columns[column]] else Null)
  }

  /** The first named column, if any, on which the two do not agree. */
  ghost predicate FirstApart(left: Binding, right: Binding, columns: seq<string>, i: nat) {
    i < |columns| && !AgreesOn(left, right, columns[i]) && forall j :: 0 <= j < i ==> AgreesOn(left, right, columns[j])
  }

  /** USING goes by the first column on which the tables do not agree: no match if both have it, an error if one lacks it. */
  lemma {:induction false} SharedMatchIff(left: Binding, right: Binding, columns: seq<string>)
    ensures SharedMatch(left, right, columns) == Ok(true) <==> forall c :: c in columns ==> AgreesOn(left, right, c)
    ensures SharedMatch(left, right, columns) == Ok(false) <==>
      exists i: nat :: FirstApart(left, right, columns, i) && InBoth(left, right, columns[i])
    ensures SharedMatch(left, right, columns).Err? ==> SharedMatch(left, right, columns) == Err(UnknownColumn)
    ensures SharedMatch(left, right, columns) == Err(UnknownColumn) <==>
      exists i: nat :: FirstApart(left, right, columns, i) && !InBoth(left, right, columns[i])
    decreases |columns|
  {
    if columns != [] {
      var rest := columns[1..];
      SharedMatchIff(left, right, rest);
      assert columns == [columns[0]] + rest;
      if AgreesOn(left, right, columns[0]) {
        forall i: nat ensures FirstApart(left, right, columns, i + 1) <==> FirstApart(left, right, rest, i) {
          NextApart(left, right, columns, i);
        }
        assert !FirstApart(left, right, columns, 0);
        SameApart(left, right, columns, rest);
      } else {
        assert FirstApart(left, right, columns, 0) && forall i: nat :: FirstApart(left, right, columns, i) ==> i == 0;
      }
    }
  }

  lemma SameApart(left: Binding, right: Binding, columns: seq<string>, rest: seq<string>)
    requires columns != [] && rest == columns[1..] && !FirstApart(left, right, columns, 0)
    requires forall i: nat :: FirstApart(left, right, columns, i + 1) <==> FirstApart(left, right, rest, i)
    ensures (exists i: nat :: FirstApart(left, right, columns, i) && InBoth(left, right, columns[i]))
      <==> exists i: nat :: FirstApart(left, right, rest, i) && InBoth(left, right, rest[i])
    ensures (exists i: nat :: FirstApart(left, right, columns, i) && !InBoth(left, right, columns[i]))
      <==> exists i: nat :: FirstApart(left, right, rest, i) && !InBoth(left, right, rest[i])
  {
    forall i: nat | FirstApart(left, right, columns, i) ensures i > 0 && FirstApart(left, right, rest, i - 1) {
      assert i > 0 && FirstApart(left, right, columns, (i - 1) + 1);
    }
  }

  lemma NextApart(left: Binding, right: Binding, columns: seq<string>, i: nat)
    requires columns != [] && AgreesOn(left, right, columns[0])
    ensures FirstApart(left, right, columns, i + 1) <==> FirstApart(left, right, columns[1..], i)
  {
    assert forall j :: 0 < j < |columns| ==> columns[j] == columns[1..][j - 1];
  }

  /**
   * What joins two tables: nothing for a cross join, the ON condition, or that the last two tables
   * agree on every USING column.
   */
  ghost predicate Qualifies(joined: JoinedRow, join: Join) {
    match join.kind
    case Cross => true
    case _ =>
      if join.on.Some? then Evaluate(join.on.value, ContextOf(joined)) == Ok(true)
      else
        && join.shared.Some? && |joined| >= 2
        && forall c :: c in join.shared.value ==> AgreesOn(joined[|joined| - 2], joined[|joined| - 1], c)
  }

  lemma MatchesIff(joined: JoinedRow, join: Join)
    ensures JoinMatches(joined, join) == Ok(true) <==> Qualifies(joined, join)
  {
    if !join.kind.Cross? && join.on.None? && join.shared.Some? && |joined| >= 2 {
      SharedMatchIff(joined[|joined| - 2], joined[|joined| - 1], join.shared.value);
    }
  }

  /** An inner or left outer USING join of tables that have every named column: agreement on all of them, and no error. */
  lemma UsingMatches(joined: JoinedRow, join: Join)
    requires !join.kind.Cross? && join.on.None? && join.shared.Some? && |joined| >= 2
    requires forall c :: c in join.shared.value ==> InBoth(joined[|joined| - 2], joined[|joined| - 1], c)
    ensures JoinMatches(joined, join).Ok?
    ensures JoinMatches(joined, join).value <==> forall c :: c in join.shared.value ==> AgreesOn(joined[|joined| - 2], joined[|joined| - 1], c)
  {
    var left, right := joined[|joined| - 2], joined[|joined| - 1];
    SharedMatchIff(left, right, join.shared.value);
    assert forall i: nat :: FirstApart(left, right, join.shared.value, i) ==> join.shared.value[i] in join.shared.value;
  }

  /** The stored right row `r`, seen by the transaction, joins with the left row. */
  ghost predicate Joins(tbl: SearchTable, t: TransactionId, partial: JoinedRow, join: Join, r: RowId) {
    && r in tbl.locations
    && match Read(tbl.w.db, t, r)
       case None => false
       case Some(d) => Qualifies(partial + [Binding(join.alias, r, tbl.columns, d)], join)
  }

  /** The left row beside right row `r` as the transaction sees it. */
  ghost predicate Beside(tbl: SearchTable, t: TransactionId, partial: JoinedRow, join: Join, r: RowId, row: JoinedRow) {
    Read(tbl.w.db, t, r).Some? && row == partial + [Binding(join.alias, r, tbl.columns, Read(tbl.w.db, t, r).value)]
  }

  lemma JoinSetIff(tbl: SearchTable, t: TransactionId, partial: JoinedRow, join: Join, r: RowId)
    ensures r in JoinSet(tbl, t, partial, join) <==> Joins(tbl, t, partial, join, r)
  {
    match Read(tbl.w.db, t, r)
    case None =>
    case Some(d) => MatchesIff(partial + [RightBinding(tbl, join, r, d)], join);
  }

  /**
   * What a nested loop yields for one left row: the left row beside each right row that joins with it,
   * once each. If there is none, LEFT OUTER yields it beside a row 0 that has no fields, the others nothing.
   */
  lemma NestedLoopYields(tbl: SearchTable, t: TransactionId, partial: JoinedRow, join: Join) returns (hits: seq<RowId>)
    requires NestedLoop(tbl, t, partial, join).Ok?
    ensures Distinct(hits) && forall r: RowId :: r in hits <==> Joins(tbl, t, partial, join, r)
    ensures var rows := NestedLoop(tbl, t, partial, join).value;
      if hits == [] && join.kind.LeftOuter? then rows == [partial + [Binding(join.alias, 0, tbl.columns, map[])]]
      else |rows| == |hits| && forall i :: 0 <= i < |hits| ==> Beside(tbl, t, partial, join, hits[i], rows[i])
  {
    var all := ScanAll(tbl.locations);
    hits := JoinHits(tbl, t, partial, join, all).value;
    ScanAllInOrder(tbl.locations);
    HitsDistinct(tbl, t, partial, join, all);
    ScannedHits(tbl, t, partial, join);
    forall r: RowId ensures r in hits <==> Joins(tbl, t, partial, join, r) { JoinSetIff(tbl, t, partial, join, r); }
    forall i | 0 <= i < |hits| ensures Beside(tbl, t, partial, join, hits[i], Extended(tbl, t, partial, join, hits[i])) {
      assert hits[i] in hits;
    }
  }

  /** A probe for a column the right table lacks is refused, as the condition itself is on every visible right row. */
  lemma ProbeRefuses(tbl: SearchTable, t: TransactionId, partial: JoinedRow, join: Join, r: RowId)
    requires FreshAlias(partial, join) && ProbeOf(partial, join).Some? && ProbeOf(partial, join).value.column !in tbl.columns
    ensures JoinOne(tbl, t, partial, join) == Err(UnknownColumn)
    ensures Read(tbl.w.db, t, r).Some? ==> JoinTests(tbl, t, partial, join, r) == Err(UnknownColumn)
  {
    if Read(tbl.w.db, t, r).Some? {
      LackingSide(partial, join, RightBinding(tbl, join, r, Read(tbl.w.db, t, r).value));
    }
  }

  lemma LackingSide(partial: JoinedRow, join: Join, b: Binding)
    requires FreshAlias(partial, join) && ProbeOf(partial, join).Some? && b.alias == join.alias
    requires ProbeOf(partial, join).value.column !in b.columns
    ensures Evaluate(join.on.value, ContextOf(partial + [b])) == Err(UnknownColumn)
  {
    var on := join.on.value;
    var all := partial + [b];
    var i := BoundAlias(partial, partial, Lower(on.left.table), Lower(on.left.column));
    NewBindingNames(partial, b, Lower(on.left.table), Lower(on.left.column));
    if Of(Lower(on.right.table), Lower(on.right.column)) in ContextOf(all) {
      LastBinding(all, partial, b);
      assert Of(Lower(on.right.table), Lower(on.right.column)) !in Qualified(b) && Of(Lower(on.right.table), Lower(on.right.column)) !in Unqualified(all, b);
      var k := BoundAlias(all, partial, Lower(on.right.table), Lower(on.right.column));
    }
  }

  /** The visible right row `r` shows what the last table of the left row shows in every named column. */
  ghost predicate SharesAll(tbl: SearchTable, t: TransactionId, left: Binding, columns: seq<string>, r: RowId)
    requires forall c :: c in columns ==> c in left.columns && c in tbl.columns
  {
    && r in tbl.locations
    && match Read(tbl.w.db, t, r)
       case None => false
       case Some(d) => forall c :: c in columns ==> Field(left.data, left.columns[c]) == Field(d, tbl.columns[c])
  }

  /** An inner or left outer USING join on columns both tables have never fails, and joins exactly the rows that share them all. */
  lemma UsingYields(tbl: SearchTable, t: TransactionId, partial: JoinedRow, join: Join)
    requires !join.kind.Cross? && join.on.None? && join.shared.Some? && partial != []
    requires forall c :: c in join.shared.value ==> c in partial[|partial| - 1].columns && c in tbl.columns
    ensures JoinOne(tbl, t, partial, join) == NestedLoop(tbl, t, partial, join) && NestedLoop(tbl, t, partial, join).Ok?
    ensures forall r: RowId :: Joins(tbl, t, partial, join, r) <==> SharesAll(tbl, t, partial[|partial| - 1], join.shared.value, r)
  {
    UsingNeverFails(tbl, t, partial, join, ScanAll(tbl.locations));
    forall r: RowId ensures Joins(tbl, t, partial, join, r) <==> SharesAll(tbl, t, partial[|partial| - 1], join.shared.value, r) {
      UsingJoins(tbl, t, partial, join, r);
    }
  }

  lemma UsingJoins(tbl: SearchTable, t: TransactionId, partial: JoinedRow, join: Join, r: RowId)
    requires !join.kind.Cross? && join.on.None? && join.shared.Some? && partial != []
    requires forall c :: c in join.shared.value ==> c in partial[|partial| - 1].columns && c in tbl.columns
    ensures Joins(tbl, t, partial, join, r) <==> SharesAll(tbl, t, partial[|partial| - 1], join.shared.value, r)
    ensures JoinTests(tbl, t, partial, join, r).Ok?
  {
    match Read(tbl.w.db, t, r)
    case None =>
    case Some(d) =>
      var right := Binding(join.alias, r, tbl.columns, d);
      var joined := partial + [right];
      assert joined[|joined| - 2] == partial[|partial| - 1] && joined[|joined| - 1] == right;
      UsingMatches(joined, join);
  }

  lemma {:induction false} UsingNeverFails(tbl: SearchTable, t: TransactionId, partial: JoinedRow, join: Join, ids: seq<RowId>)
    requires !join.kind.Cross? && join.on.None? && join.shared.Some? && partial != []
    requires forall c :: c in join.shared.value ==> c in partial[|partial| - 1].columns && c in tbl.columns
    ensures JoinHits(tbl, t, partial, join, ids).Ok?
    decreases |ids|
  {
    if ids != [] {
      UsingNeverFails(tbl, t, partial, join, ids[..|ids| - 1]);
      UsingJoins(tbl, t, partial, join, ids[|ids| - 1]);
    }
  }

  /** A cross join never fails: a left row meets every right row the transaction sees. */
  lemma CrossMeetsAll(tbl: SearchTable, t: TransactionId, partial: JoinedRow, join: Join)
    requires join.kind.Cross?
    ensures JoinOne(tbl, t, partial, join) == NestedLoop(tbl, t, partial, join)
    ensures NestedLoop(tbl, t, partial, join).Ok?
    ensures forall r: RowId :: Joins(tbl, t, partial, join, r) <==> r in tbl.locations && Read(tbl.w.db, t, r).Some?
  {
    NeverFails(tbl, t, partial, join, ScanAll(tbl.locations));
  }

  lemma {:induction false} NeverFails(tbl: SearchTable, t: TransactionId, partial: JoinedRow, join: Join, ids: seq<RowId>)
    requires join.kind.Cross?
    ensures JoinHits(tbl, t, partial, join, ids).Ok?
    decreases |ids|
  {
    if ids != [] { NeverFails(tbl, t, partial, join, ids[..|ids| - 1]); }
  }

  /** Left rows are joined one after the other: the rows of a longer left side begin with those of a shorter one. */
  lemma {:induction false} LeftRowsInOrder(tbl: SearchTable, t: TransactionId, current: seq<JoinedRow>, more: seq<JoinedRow>, join: Join)
    requires JoinAll(tbl, t, current + more, join).Ok?
    ensures JoinAll(tbl, t, current, join).Ok? && JoinAll(tbl, t, more, join).Ok?
    ensures JoinAll(tbl, t, current + more, join).value == JoinAll(tbl, t, current, join).value + JoinAll(tbl, t, more, join).value
    decreases |more|
  {
    if more == [] {
      assert current + more == current;
    } else {
      var front, last := more[..|more| - 1], more[|more| - 1];
      assert current + more == (current + front) + [last] && more == front + [last];
      LastLeftRow(tbl, t, current + front, last, join);
      LeftRowsInOrder(tbl, t, current, front, join);
      MoreLeftRows(tbl, t, current, front, last, join);
    }
  }

  lemma MoreLeftRows(tbl: SearchTable, t: TransactionId, current: seq<JoinedRow>, front: seq<JoinedRow>, last: JoinedRow, join: Join)
    requires JoinAll(tbl, t, current, join).Ok? && JoinAll(tbl, t, front, join).Ok? && JoinOne(tbl, t, last, join).Ok?
    requires JoinAll(tbl, t, current + front, join) == Ok(JoinAll(tbl, t, current, join).value + JoinAll(tbl, t, front, join).value)
    ensures JoinAll(tbl, t, front + [last], join).Ok?
    ensures JoinAll(tbl, t, (current + front) + [last], join) == Ok(JoinAll(tbl, t, current, join).value + JoinAll(tbl, t, front + [last], join).value)
  {
    var a, b, c := JoinAll(tbl, t, current, join).value, JoinAll(tbl, t, front, join).value, JoinOne(tbl, t, last, join).value;
    LastLeftRow(tbl, t, current + front, last, join);
    LastLeftRow(tbl, t, front, last, join);
    Regroup(a, b, c);
  }

  lemma Regroup(a: seq<JoinedRow>, b: seq<JoinedRow>, c: seq<JoinedRow>)
    ensures (a + b) + c == a + (b + c)
  {
  }

  lemma LastLeftRow(tbl: SearchTable, t: TransactionId, front: seq<JoinedRow>, last: JoinedRow, join: Join)
    ensures JoinAll(tbl, t, front + [last], join).Ok? ==> JoinAll(tbl, t, front, join).Ok? && JoinOne(tbl, t, last, join).Ok?
    ensures JoinAll(tbl, t, front, join).Ok? && JoinOne(tbl, t, last, join).Ok? ==>
      JoinAll(tbl, t, front + [last], join) == Ok(JoinAll(tbl, t, front, join).value + JoinOne(tbl, t, last, join).value)
  {
    var all := front + [last];
    assert all[..|all| - 1] == front && all[|all| - 1] == last;
  }

  // ---- Unqualified names ----------------------------------------------------------------------------

  lemma {:induction false} OwnersIff(joined: JoinedRow, n: string)
    ensures Owners(joined, n) == 0 <==> forall i :: 0 <= i < |joined| ==> n !in joined[i].columns
    ensures Owners(joined, n) == 1 <==> exists i :: SoleOwner(joined, n, i)
    decreases |joined|
  {
    if joined != [] {
      var front, last := joined[..|joined| - 1], |joined| - 1;
      OwnersIff(front, n);
      if n in joined[last].columns {
        assert Owners(front, n) == 0 ==> SoleOwner(joined, n, last);
        assert forall i :: SoleOwner(joined, n, i) ==> i == last;
      } else {
        forall i: nat ensures SoleOwner(joined, n, i) <==> SoleOwner(front, n, i) {
          if SoleOwner(joined, n, i) { assert i < last; }
        }
      }
    }
  }

  /** Table `i` alone has the column. */
  ghost predicate SoleOwner(joined: JoinedRow, n: string, i: nat) {
    i < |joined| && forall j :: 0 <= j < |joined| ==> (n in joined[j].columns <==> j == i)
  }

  lemma {:induction false} BareFrom(all: JoinedRow, k: nat, n: string)
    requires k <= |all|
    ensures forall i: nat :: SoleOwner(all, n, i) && i < k ==> Get(ContextOver(all, all[..k]), Bare(n)) == Some(Field(all[i].data, all[i].columns[n]))
    ensures (forall i: nat :: !SoleOwner(all, n, i)) ==> Bare(n) !in ContextOver(all, all[..k])
    decreases k
  {
    if k > 0 {
      BareFrom(all, k - 1, n);
      assert all[..k][..k - 1] == all[..k - 1];
      OwnersIff(all, n);
      assert Bare(n) !in Qualified(all[k - 1]);
    }
  }

  /** A bare name stands for the column of the one table that has it, and for nothing if several have it, or none. */
  lemma BareNames(joined: JoinedRow, n: string)
    ensures forall i: nat :: SoleOwner(joined, n, i) ==> Get(ContextOf(joined), Bare(n)) == Some(Field(joined[i].data, joined[i].columns[n]))
    ensures (forall i: nat :: !SoleOwner(joined, n, i)) ==> Bare(n) !in ContextOf(joined)
  {
    BareFrom(joined, |joined|, n);
    assert joined[..|joined|] == joined;
  }

  // ---- The operations -------------------------------------------------------------------------------

  lemma {:induction false} HitErrorStays(tbl: SearchTable, t: TransactionId, partial: JoinedRow, join: Join, ids: seq<RowId>, i: nat)
    requires i <= |ids| && JoinHits(tbl, t, partial, join, ids[..i]).Err?
    ensures JoinHits(tbl, t, partial, join, ids) == JoinHits(tbl, t, partial, join, ids[..i])
    decreases |ids|
  {
    if i < |ids| {
      assert ids[..|ids| - 1][..i] == ids[..i];
      HitErrorStays(tbl, t, partial, join, ids[..|ids| - 1], i);
    } else {
      assert ids[..i] == ids;
    }
  }

  /** Extend one left row by each of the given right rows that joins with it. */
  method JoinCandidates(tbl: SearchTable, t: TransactionId, partial: JoinedRow, join: Join, ids: seq<RowId>)
    returns (rows: Result<seq<JoinedRow>, QueryError>)
    ensures rows == Block(tbl, t, partial, join, ids)
  {
    var next: seq<JoinedRow> := [];
    ghost var hits: seq<RowId> := [];
    for i := 0 to |ids|
      invariant JoinHits(tbl, t, partial, join, ids[..i]) == Ok(hits) && next == Glue(tbl, t, partial, join, hits)
    {
      assert ids[..i + 1][..i] == ids[..i];
      var seen := Read(tbl.w.db, t, ids[i]);
      if seen.Some? {
        var candidate := partial + [RightBinding(tbl, join, ids[i], seen.value)];
        var matches := JoinMatches(candidate, join);
        if matches.Err? {
          HitErrorStays(tbl, t, partial, join, ids, i + 1);
          return Err(matches.error);
        }
        if matches.value {
          GlueSnoc(tbl, t, partial, join, hits, ids[i]);
          next := next + [candidate];
          hits := hits + [ids[i]];
        }
      }
    }
    assert ids[..|ids|] == ids;
    if next == [] && join.kind.LeftOuter? {
      next := [partial + [RightBinding(tbl, join, 0, map[])]];
    }
    rows := Ok(next);
  }

  lemma ShowingNext(tbl: SearchTable, t: TransactionId, c: ColumnId, v: Value, ids: seq<RowId>, i: nat)
    requires i < |ids|
    ensures var front, seen := Showing(tbl, t, c, v, ids[..i]), Read(tbl.w.db, t, ids[i]);
      Showing(tbl, t, c, v, ids[..i + 1]) == if seen.Some? && c in seen.value && seen.value[c] == v then front + [ids[i]] else front
  {
    assert ids[..i + 1][..i] == ids[..i];
  }

  method ShowingRows(tbl: SearchTable, t: TransactionId, c: ColumnId, v: Value, ids: seq<RowId>) returns (rows: seq<RowId>)
    ensures rows == Showing(tbl, t, c, v, ids)
  {
    rows := [];
    for i := 0 to |ids|
      invariant rows == Showing(tbl, t, c, v, ids[..i])
    {
      ShowingNext(tbl, t, c, v, ids, i);
      var seen := Read(tbl.w.db, t, ids[i]);
      if seen.Some? && c in seen.value && seen.value[c] == v {
        rows := rows + [ids[i]];
      }
    }
    assert ids[..|ids|] == ids;
  }

  method LookupRowsByColumnValue(tbl: SearchTable, t: TransactionId, l: Lookup) returns (rows: Result<seq<RowId>, QueryError>)
    requires l.column in tbl.columns
    ensures rows == LookupRows(tbl, t, l)
  {
    var found := LookupCandidates(tbl, t, l);
    if found.Err? {
      return Err(found.error);
    }
    var ids;
    if found.value.Some? {
      ids := SortIds(found.value.value);
    } else {
      var all := CollectScan(tbl.locations);
      ids := ShowingRows(tbl, t, tbl.columns[l.column], l.value, all);
    }
    rows := Ok(ids);
  }

  method JoinLeftRow(tbl: SearchTable, t: TransactionId, partial: JoinedRow, join: Join) returns (rows: Result<seq<JoinedRow>, QueryError>)
    ensures rows == JoinOne(tbl, t, partial, join)
  {
    var probe := ProbeOf(partial, join);
    var ids;
    if probe.Some? {
      if probe.value.column !in tbl.columns {
        return Err(UnknownColumn);
      }
      var found := LookupRowsByColumnValue(tbl, t, probe.value);
      if found.Err? {
        return Err(found.error);
      }
      ids := found.value;
    } else {
      ids := CollectScan(tbl.locations);
    }
    rows := JoinCandidates(tbl, t, partial, join, ids);
  }

  method ApplyJoin(tbl: SearchTable, t: TransactionId, current: seq<JoinedRow>, join: Join) returns (next: Result<seq<JoinedRow>, QueryError>)
    ensures next == JoinAll(tbl, t, current, join)
  {
    var rows: seq<JoinedRow> := [];
    for i := 0 to |current|
      invariant JoinAll(tbl, t, current[..i], join) == Ok(rows)
    {
      assert current[..i + 1][..i] == current[..i];
      var block := JoinLeftRow(tbl, t, current[i], join);
      if block.Err? {
        JoinErrorStays(tbl, t, current, join, i + 1);
        return block;
      }
      rows := rows + block.value;
    }
    assert current[..|current|] == current;
    next := Ok(rows);
  }
}
