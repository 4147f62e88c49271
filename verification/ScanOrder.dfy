/** The order in which a full scan meets rows: pages ascending, rows ascending within a page. */
module ScanOrder {
  import opened Prelude
  import opened Values
  import opened Pages
  import opened TableMaintenance

  ghost function RowsAt(locations: map<RowId, PageId>, p: PageId): set<RowId> {
    set r | r in locations && locations[r] == p
  }

  ghost function ScanOf(locations: map<RowId, PageId>, pages: seq<PageId>): seq<RowId> {
    if pages == [] then []
    else ScanOf(locations, pages[..|pages| - 1]) + Sorted(RowsAt(locations, pages[|pages| - 1]))
  }

  ghost function ScanAll(locations: map<RowId, PageId>): seq<RowId> {
    ScanOf(locations, Sorted(locations.Values))
  }

  lemma {:induction false} ScanMembers(locations: map<RowId, PageId>, pages: seq<PageId>, r: RowId)
    ensures r in ScanOf(locations, pages) <==> r in locations && locations[r] in pages
    decreases |pages|
  {
    if pages != [] {
      var front, p := pages[..|pages| - 1], pages[|pages| - 1];
      ScanMembers(locations, front, r);
      assert pages == front + [p];
      assert r in Sorted(RowsAt(locations, p)) <==> r in RowsAt(locations, p);
    }
  }

  /** A full scan meets every row. */
  lemma ScanMeetsAll(locations: map<RowId, PageId>, r: RowId)
    ensures r in ScanAll(locations) <==> r in locations
  {
    ScanMembers(locations, Sorted(locations.Values), r);
  }

  /** A scan meets row `a` before row `b`. */
  predicate MetBefore(locations: map<RowId, PageId>, a: RowId, b: RowId) {
    a in locations && b in locations && (locations[a] < locations[b] || (locations[a] == locations[b] && a < b))
  }

  predicate InScanOrder(locations: map<RowId, PageId>, xs: seq<RowId>) {
    forall i, j :: 0 <= i < j < |xs| ==> MetBefore(locations, xs[i], xs[j])
  }

  lemma {:induction false} ScanInOrder(locations: map<RowId, PageId>, pages: seq<PageId>)
    requires Ascending(pages)
    ensures InScanOrder(locations, ScanOf(locations, pages))
    decreases |pages|
  {
    if pages != [] {
      var front, p := pages[..|pages| - 1], pages[|pages| - 1];
      ScanInOrder(locations, front);
      var a, b := ScanOf(locations, front), Sorted(RowsAt(locations, p));
      forall j | 0 <= j < |b| ensures b[j] in locations && locations[b[j]] == p { assert b[j] in b; }
      forall i | 0 <= i < |a| ensures a[i] in locations && locations[a[i]] < p {
        ScanMembers(locations, front, a[i]);
        assert a[i] in a;
        EarlierPage(front, p, pages, locations[a[i]]);
      }
      OrderAppend(locations, a, b, p);
    }
  }

  lemma OrderAppend(locations: map<RowId, PageId>, a: seq<RowId>, b: seq<RowId>, p: PageId)
    requires InScanOrder(locations, a) && Ascending(b)
    requires forall i :: 0 <= i < |a| ==> a[i] in locations && locations[a[i]] < p
    requires forall j :: 0 <= j < |b| ==> b[j] in locations && locations[b[j]] == p
    ensures InScanOrder(locations, a + b)
  {
  }

  /** A scan never meets a row twice. */
  lemma InOrderIsDistinct(locations: map<RowId, PageId>, xs: seq<RowId>)
    requires InScanOrder(locations, xs)
    ensures Distinct(xs)
  {
    forall i, j | 0 <= i < j < |xs| ensures xs[i] != xs[j] { assert MetBefore(locations, xs[i], xs[j]); }
  }

  lemma ScanAllInOrder(locations: map<RowId, PageId>)
    ensures InScanOrder(locations, ScanAll(locations)) && Distinct(ScanAll(locations))
  {
    ScanInOrder(locations, Sorted(locations.Values));
    InOrderIsDistinct(locations, ScanAll(locations));
  }

  lemma SubsequenceInOrder(locations: map<RowId, PageId>, xs: seq<RowId>, ys: seq<RowId>, at: seq<nat>)
    requires Subsequence(xs, ys, at) && InScanOrder(locations, ys)
    ensures InScanOrder(locations, xs)
  {
    forall i, j | 0 <= i < j < |xs| ensures MetBefore(locations, xs[i], xs[j]) {
      assert at[i] < at[j];
      assert MetBefore(locations, ys[at[i]], ys[at[j]]);
    }
  }

  /** Among the rows `s`, row ids and the pages they are on grow together. */
  predicate MonotoneOn(locations: map<RowId, PageId>, s: set<RowId>) {
    forall a, b :: a in s && b in s && a < b ==> a in locations && b in locations && locations[a] <= locations[b]
  }

  lemma AscendingPositions(xs: seq<RowId>, i: nat, j: nat)
    requires Ascending(xs) && i < |xs| && j < |xs| && xs[i] < xs[j]
    ensures i < j
  {
  }

  /** Rows in scan order are in id order exactly when their ids and pages grow together. */
  lemma InOrderAscendsIff(locations: map<RowId, PageId>, xs: seq<RowId>)
    requires InScanOrder(locations, xs)
    ensures Ascending(xs) <==> MonotoneOn(locations, Elements(xs))
  {
    if Ascending(xs) {
      forall a, b | a in Elements(xs) && b in Elements(xs) && a < b ensures a in locations && b in locations && locations[a] <= locations[b] {
        var i :| 0 <= i < |xs| && xs[i] == a;
        var j :| 0 <= j < |xs| && xs[j] == b;
        AscendingPositions(xs, i, j);
        assert MetBefore(locations, xs[i], xs[j]);
      }
    }
    if MonotoneOn(locations, Elements(xs)) {
      forall i, j | 0 <= i < j < |xs| ensures xs[i] < xs[j] {
        assert MetBefore(locations, xs[i], xs[j]) && xs[i] in Elements(xs) && xs[j] in Elements(xs);
      }
    }
  }

  lemma EarlierPage(front: seq<PageId>, p: PageId, pages: seq<PageId>, q: PageId)
    requires Ascending(pages) && pages == front + [p] && q in front
    ensures q < p
  {
    var i :| 0 <= i < |front| && front[i] == q;
    assert pages[i] == q && pages[|front|] == p;
  }

  /** A full scan meets rows in id order exactly when later rows are never on earlier pages. */
  lemma ScanIsSortedIff(locations: map<RowId, PageId>)
    ensures ScanAll(locations) == Sorted(locations.Keys) <==> Monotone(locations)
  {
    ScanAllInOrder(locations);
    SameMembers(locations);
    InOrderAscendsIff(locations, ScanAll(locations));
    assert MonotoneOn(locations, locations.Keys) <==> Monotone(locations);
    if Monotone(locations) { AscendingUnique(ScanAll(locations), Sorted(locations.Keys)); }
  }

  lemma SameMembers(locations: map<RowId, PageId>)
    ensures Elements(ScanAll(locations)) == Elements(Sorted(locations.Keys)) == locations.Keys
  {
    forall r: RowId ensures r in ScanAll(locations) <==> r in Sorted(locations.Keys) { ScanMeetsAll(locations, r); }
  }

  /** The rows of a table in the order a full scan meets them. */
  method CollectScan(locations: map<RowId, PageId>) returns (ids: seq<RowId>)
    ensures ids == ScanAll(locations)
  {
    var pages := SortIds(locations.Values);
    ids := CollectPages(locations, pages);
  }

  method CollectPages(locations: map<RowId, PageId>, pages: seq<PageId>) returns (ids: seq<RowId>)
    ensures ids == ScanOf(locations, pages)
  {
    ids := [];
    for i := 0 to |pages|
      invariant ids == ScanOf(locations, pages[..i])
    {
      assert pages[..i + 1][..i] == pages[..i];
      var rows := SortIds(set r | r in locations && locations[r] == pages[i]);
      ids := ids + rows;
    }
    assert pages[..|pages|] == pages;
  }
}
