/** Repacking of a table's rows into fresh pages (`Table::compact`). */
module Compaction {
  import opened Prelude
  import opened Values
  import opened Rows
  import opened Pages

  /** A surviving row and its size in bytes. */
  datatype Live = Live(id: RowId, row: Chain, size: nat)

  /** New pages, page `k` at position `k`, and where each row went. */
  datatype Packing = Packing(pages: seq<Page>, locations: map<RowId, PageId>)

  predicate Increasing(live: seq<Live>) {
    && (forall i :: 0 <= i < |live| ==> live[i].size > 0)
    && (forall i, j :: 0 <= i < j < |live| ==> live[i].id < live[j].id)
  }

  /** Page `j` of the chain of an oversized row: the head, or a continuation, linked to the next. */
  function ChainPage(l: Live, head: PageId, pageSize: nat, span: nat, j: nat): Page {
    var page := if j == 0 then Append(NewPage(head, pageSize), l.id, l.row, l.size) else Continuation(head + j, pageSize);
    page.(next := if j + 1 < span then Some(head + j + 1) else None)
  }

  function ChainOf(l: Live, head: PageId, pageSize: nat, span: nat): (pages: seq<Page>)
    ensures |pages| == span && forall j :: 0 <= j < span ==> pages[j] == ChainPage(l, head, pageSize, span, j)
  {
    seq(span, j requires 0 <= j < span => ChainPage(l, head, pageSize, span, j))
  }

  /** Where one row goes: an own chain, the last page if it has room, or a new page. */
  function PackOne(p: Packing, l: Live, pageSize: nat): Packing
    requires pageSize >= 1
  {
    var n := |p.pages|;
    if l.size > pageSize then
      assert Span(l.size, pageSize) >= 1;
      Packing(p.pages + ChainOf(l, n, pageSize, Span(l.size, pageSize)), p.locations[l.id := n])
    else if n > 0 && HasRoom(p.pages[n - 1], l.size) then
      Packing(p.pages[n - 1 := Append(p.pages[n - 1], l.id, l.row, l.size)], p.locations[l.id := n - 1])
    else
      Packing(p.pages + [Append(NewPage(n, pageSize), l.id, l.row, l.size)], p.locations[l.id := n])
  }

  function Pack(live: seq<Live>, pageSize: nat): Packing
    requires pageSize >= 1
  {
    if live == [] then Packing([], map[])
    else PackOne(Pack(live[..|live| - 1], pageSize), live[|live| - 1], pageSize)
  }

  method Repack(live: seq<Live>, pageSize: nat) returns (p: Packing)
    requires pageSize >= 1
    ensures p == Pack(live, pageSize)
  {
    var pages: seq<Page> := [];
    var locations: map<RowId, PageId> := map[];
    var i := 0;
    while i < |live|
      invariant 0 <= i <= |live|
      invariant Packing(pages, locations) == Pack(live[..i], pageSize)
    {
      var l := live[i];
      assert live[..i + 1][..i] == live[..i];
      var head := |pages|;
      if l.size > pageSize {
        var chain := BuildChain(l, head, pageSize);
        pages := pages + chain;
        locations := locations[l.id := head];
      } else if head > 0 && HasRoom(pages[head - 1], l.size) {
        pages := pages[head - 1 := Append(pages[head - 1], l.id, l.row, l.size)];
        locations := locations[l.id := head - 1];
      } else {
        pages := pages + [Append(NewPage(head, pageSize), l.id, l.row, l.size)];
        locations := locations[l.id := head];
      }
      i := i + 1;
    }
    assert live[..i] == live;
    p := Packing(pages, locations);
  }

  /** Allocate the head, then the continuations, linking each page as its successor appears. */
  method BuildChain(l: Live, head: PageId, pageSize: nat) returns (chain: seq<Page>)
    requires pageSize >= 1 && l.size > pageSize
    ensures chain == ChainOf(l, head, pageSize, Span(l.size, pageSize))
  {
    chain := [Append(NewPage(head, pageSize), l.id, l.row, l.size)];
    var extra := Span(l.size, pageSize) - 1;
    var j := 0;
    while j < extra
      invariant 0 <= j <= extra && chain == ChainOf(l, head, pageSize, j + 1)
    {
      var id := head + j + 1;
      chain := chain[j := chain[j].(next := Some(id))] + [Continuation(id, pageSize)];
      j := j + 1;
    }
  }

  // ---- Rows are where the packing says ------------------------------------------------------------

  /** Page `k` has id `k`; every row is on exactly the page its location names. */
  predicate Exact(p: Packing) {
    && (forall k :: 0 <= k < |p.pages| ==> p.pages[k].id == k && PageOk(p.pages[k]))
    && (forall r :: r in p.locations ==> p.locations[r] < |p.pages| && r in p.pages[p.locations[r]].rows)
    && (forall k, r :: 0 <= k < |p.pages| && r in p.pages[k].rows ==> r in p.locations && p.locations[r] == k)
  }

  /** The packing holds the live rows, in id order along the pages. */
  predicate Carries(p: Packing, live: seq<Live>) {
    && (forall i :: 0 <= i < |live| ==>
         live[i].id in p.locations && p.locations[live[i].id] < |p.pages|
         && Get(p.pages[p.locations[live[i].id]].rows, live[i].id) == Some(live[i].row))
    && (forall r :: r in p.locations ==> exists i :: 0 <= i < |live| && live[i].id == r)
    && (forall a, b :: a in p.locations && b in p.locations && a <= b ==> p.locations[a] <= p.locations[b])
  }

  /** What one step does: one page gains the row, other old pages stay, other new ones are empty. */
  predicate Extends(p: Packing, q: Packing, l: Live, h: nat) {
    && h < |q.pages| && |p.pages| - 1 <= h <= |p.pages| <= |q.pages|
    && q.locations == p.locations[l.id := h]
    && (forall k :: 0 <= k < |p.pages| && k != h ==> q.pages[k] == p.pages[k])
    && (forall k :: |p.pages| <= k < |q.pages| && k != h ==> q.pages[k].rows == map[])
    && q.pages[h].rows == (if h < |p.pages| then p.pages[h].rows else map[])[l.id := l.row]
  }

  lemma PackOneExtends(p: Packing, l: Live, pageSize: nat) returns (h: nat)
    requires pageSize >= 1 && l.size > 0
    requires forall k :: 0 <= k < |p.pages| ==> p.pages[k].id == k && PageOk(p.pages[k])
    ensures Extends(p, PackOne(p, l, pageSize), l, h)
    ensures var q := PackOne(p, l, pageSize);
      forall k :: 0 <= k < |q.pages| ==> q.pages[k].id == k && PageOk(q.pages[k])
  {
    var n := |p.pages|;
    h := if l.size <= pageSize && n > 0 && HasRoom(p.pages[n - 1], l.size) then n - 1 else n;
    var q := PackOne(p, l, pageSize);
    if l.size > pageSize {
      var span := Span(l.size, pageSize);
      forall k | n <= k < |q.pages| ensures q.pages[k] == ChainPage(l, n, pageSize, span, k - n) {
        assert q.pages[k] == ChainOf(l, n, pageSize, span)[k - n];
      }
    }
  }

  lemma ExtendsExact(p: Packing, q: Packing, l: Live, h: nat)
    requires Extends(p, q, l, h) && Exact(p) && l.id !in p.locations
    requires forall k :: 0 <= k < |q.pages| ==> q.pages[k].id == k && PageOk(q.pages[k])
    ensures Exact(q)
  {
    forall k, r | 0 <= k < |q.pages| && r in q.pages[k].rows
      ensures r in q.locations && q.locations[r] == k
    {
      if k < |p.pages| && r != l.id { assert r in p.pages[k].rows; }
    }
    forall r | r in q.locations
      ensures q.locations[r] < |q.pages| && r in q.pages[q.locations[r]].rows
    {
      if r != l.id { assert r in p.pages[p.locations[r]].rows; }
    }
  }

  /** Rows packed so far have smaller ids than the next one. */
  lemma PackedIdsAreSmaller(p: Packing, live: seq<Live>, r: RowId)
    requires live != [] && Increasing(live) && Carries(p, live[..|live| - 1]) && r in p.locations
    ensures r < live[|live| - 1].id && exists i :: 0 <= i < |live| && live[i].id == r
  {
    var n := |live| - 1;
    var i :| 0 <= i < n && live[..n][i].id == r;
    assert live[i].id == r;
  }

  lemma ExtendsCarries(p: Packing, q: Packing, live: seq<Live>, h: nat)
    requires live != [] && Extends(p, q, live[|live| - 1], h) && Increasing(live) && Exact(p)
    requires Carries(p, live[..|live| - 1])
    ensures Carries(q, live) && live[|live| - 1].id !in p.locations
  {
    var n := |live| - 1;
    var l := live[n];
    forall r | r in p.locations
      ensures r < l.id && p.locations[r] <= h && q.locations[r] == p.locations[r]
      ensures exists i :: 0 <= i < |live| && live[i].id == r
    {
      PackedIdsAreSmaller(p, live, r);
    }
    assert live[n].id == l.id;
    forall i | 0 <= i < |live|
      ensures live[i].id in q.locations && q.locations[live[i].id] < |q.pages|
              && Get(q.pages[q.locations[live[i].id]].rows, live[i].id) == Some(live[i].row)
    {
      if i < n { ExtendsKeepsRow(p, q, live, h, i); }
    }
  }

  lemma ExtendsKeepsRow(p: Packing, q: Packing, live: seq<Live>, h: nat, i: nat)
    requires live != [] && Extends(p, q, live[|live| - 1], h) && Increasing(live)
    requires Carries(p, live[..|live| - 1]) && i < |live| - 1
    ensures live[i].id in q.locations && q.locations[live[i].id] < |q.pages|
    ensures Get(q.pages[q.locations[live[i].id]].rows, live[i].id) == Some(live[i].row)
  {
    assert live[..|live| - 1][i] == live[i] && live[i].id < live[|live| - 1].id;
    var k := p.locations[live[i].id];
    assert Get(p.pages[k].rows, live[i].id) == Some(live[i].row);
  }

  /** Compaction keeps every live row, on exactly the page its location names, in id order. */
  lemma {:induction false} PackIsExact(live: seq<Live>, pageSize: nat)
    requires pageSize >= 1 && Increasing(live)
    ensures Exact(Pack(live, pageSize)) && Carries(Pack(live, pageSize), live)
    decreases |live|
  {
    if live != [] {
      var n := |live| - 1;
      var p, l := Pack(live[..n], pageSize), live[n];
      PackIsExact(live[..n], pageSize);
      var h := PackOneExtends(p, l, pageSize);
      ExtendsCarries(p, PackOne(p, l, pageSize), live, h);
      ExtendsExact(p, PackOne(p, l, pageSize), l, h);
    }
  }

  // ---- Space --------------------------------------------------------------------------------------

  function TotalUsed(pages: seq<Page>): nat {
    if pages == [] then 0 else TotalUsed(pages[..|pages| - 1]) + pages[|pages| - 1].used
  }

  function TotalSize(live: seq<Live>): nat {
    if live == [] then 0 else TotalSize(live[..|live| - 1]) + live[|live| - 1].size
  }

  /** No page could have taken the first row of the next one. */
  predicate Dense(pages: seq<Page>, pageSize: nat) {
    && (forall k :: 0 <= k < |pages| ==> !pages[k].overflow && pages[k].capacity == pageSize && pages[k].used > 0)
    && (forall k :: 0 < k < |pages| ==> pages[k - 1].used + pages[k].used > pageSize)
  }

  predicate NoOversized(live: seq<Live>, pageSize: nat) {
    forall i :: 0 <= i < |live| ==> live[i].size <= pageSize
  }

  lemma PackOneIsDense(p: Packing, l: Live, pageSize: nat)
    requires pageSize >= 1 && 0 < l.size <= pageSize && Dense(p.pages, pageSize)
    ensures Dense(PackOne(p, l, pageSize).pages, pageSize)
  {
  }

  lemma TotalAppend(pages: seq<Page>, page: Page)
    ensures TotalUsed(pages + [page]) == TotalUsed(pages) + page.used
  {
    assert (pages + [page])[..|pages|] == pages;
  }

  lemma TotalReplaceLast(pages: seq<Page>, page: Page)
    requires pages != []
    ensures TotalUsed(pages[|pages| - 1 := page]) == TotalUsed(pages) - pages[|pages| - 1].used + page.used
  {
    assert pages[|pages| - 1 := page][..|pages| - 1] == pages[..|pages| - 1];
  }

  lemma PackOneAddsSize(p: Packing, l: Live, pageSize: nat)
    requires pageSize >= 1 && l.size <= pageSize
    ensures TotalUsed(PackOne(p, l, pageSize).pages) == TotalUsed(p.pages) + l.size
  {
    var n := |p.pages|;
    if n > 0 && HasRoom(p.pages[n - 1], l.size) {
      TotalReplaceLast(p.pages, Append(p.pages[n - 1], l.id, l.row, l.size));
    } else {
      TotalAppend(p.pages, Append(NewPage(n, pageSize), l.id, l.row, l.size));
    }
  }

  lemma {:induction false} PackIsDense(live: seq<Live>, pageSize: nat)
    requires pageSize >= 1 && Increasing(live) && NoOversized(live, pageSize)
    ensures Dense(Pack(live, pageSize).pages, pageSize)
    ensures TotalUsed(Pack(live, pageSize).pages) == TotalSize(live)
    decreases |live|
  {
    if live != [] {
      var n := |live| - 1;
      PackIsDense(live[..n], pageSize);
      PackOneIsDense(Pack(live[..n], pageSize), live[n], pageSize);
      PackOneAddsSize(Pack(live[..n], pageSize), live[n], pageSize);
    }
  }

  lemma HalfStep(n: nat, pageSize: nat)
    requires n >= 2
    ensures n / 2 * pageSize == (n - 2) / 2 * pageSize + pageSize
  {
    assert n / 2 == (n - 2) / 2 + 1;
  }

  lemma TotalOfLastTwo(pages: seq<Page>)
    requires |pages| >= 2
    ensures TotalUsed(pages) == TotalUsed(pages[..|pages| - 2]) + pages[|pages| - 2].used + pages[|pages| - 1].used
  {
    assert pages[..|pages| - 1][..|pages| - 2] == pages[..|pages| - 2];
  }

  lemma {:induction false} DenseIsHalfFull(pages: seq<Page>, pageSize: nat)
    requires Dense(pages, pageSize) && pages != []
    ensures TotalUsed(pages) > |pages| / 2 * pageSize
    decreases |pages|
  {
    var n := |pages|;
    if n == 1 {
      assert pages[..0] == [] && TotalUsed(pages) == pages[0].used;
    } else {
      TotalOfLastTwo(pages);
      HalfStep(n, pageSize);
      if n >= 3 { DenseIsHalfFull(pages[..n - 2], pageSize); }
    }
  }

  /** Without oversized rows, compaction loses no bytes and keeps `n` pages more than half full. */
  lemma CompactionSpaceBound(live: seq<Live>, pageSize: nat)
    requires pageSize >= 1 && Increasing(live) && NoOversized(live, pageSize) && live != []
    ensures TotalUsed(Pack(live, pageSize).pages) == TotalSize(live)
    ensures TotalSize(live) > |Pack(live, pageSize).pages| / 2 * pageSize
  {
    PackIsDense(live, pageSize);
    DenseIsHalfFull(Pack(live, pageSize).pages, pageSize);
  }

  // ---- Chains -------------------------------------------------------------------------------------

  /** An oversized row owns consecutive pages from `head`: alone on the head, then linked continuations. */
  predicate OwnsChain(pages: seq<Page>, l: Live, head: nat, pageSize: nat)
    requires pageSize >= 1
  {
    var span := Span(l.size, pageSize);
    head + span <= |pages| && forall k :: head <= k < head + span ==> pages[k] == ChainPage(l, head, pageSize, span, k - head)
  }

  /** No page of an oversized row's chain takes a further row. */
  lemma ChainIsClosed(l: Live, head: nat, pageSize: nat, j: nat, size: nat)
    requires pageSize >= 1 && l.size > pageSize && j < Span(l.size, pageSize)
    ensures !HasRoom(ChainPage(l, head, pageSize, Span(l.size, pageSize), j), size)
  {
  }

  lemma PackOneKeepsChain(p: Packing, l: Live, pageSize: nat, o: Live, head: nat)
    requires pageSize >= 1 && o.size > pageSize && OwnsChain(p.pages, o, head, pageSize)
    ensures OwnsChain(PackOne(p, l, pageSize).pages, o, head, pageSize)
  {
    var q, n, span := PackOne(p, l, pageSize).pages, |p.pages|, Span(o.size, pageSize);
    forall k | head <= k < head + span ensures q[k] == ChainPage(o, head, pageSize, span, k - head) {
      ChainIsClosed(o, head, pageSize, k - head, l.size);
    }
  }

  /** Every oversized row keeps a chain of exactly the pages it spans, whatever is packed later. */
  lemma {:induction false} OversizedRowsOwnChains(live: seq<Live>, pageSize: nat, i: nat)
    requires pageSize >= 1 && Increasing(live) && i < |live| && live[i].size > pageSize
    ensures live[i].id in Pack(live, pageSize).locations
    ensures OwnsChain(Pack(live, pageSize).pages, live[i], Pack(live, pageSize).locations[live[i].id], pageSize)
    decreases |live|
  {
    var n := |live| - 1;
    var p, q := Pack(live[..n], pageSize), Pack(live, pageSize);
    if i < n {
      OversizedRowsOwnChains(live[..n], pageSize, i);
      assert live[i].id < live[n].id;
      PackOneKeepsChain(p, live[n], pageSize, live[i], p.locations[live[i].id]);
    } else {
      var span := Span(live[n].size, pageSize);
      forall k | |p.pages| <= k < |p.pages| + span
        ensures q.pages[k] == ChainPage(live[n], |p.pages|, pageSize, span, k - |p.pages|)
      {
        assert q.pages[k] == ChainOf(live[n], |p.pages|, pageSize, span)[k - |p.pages|];
      }
    }
  }

  /** Those pages of an oversized row's chain of `span` pages that are resident are as the chain has them, dirty. */
  predicate ChainAt(pages: map<PageId, Page>, l: Live, head: PageId, pageSize: nat, span: nat) {
    forall j :: 0 <= j < span ==> ChainPageAt(pages, l, head, pageSize, span, j)
  }

  predicate ChainPageAt(pages: map<PageId, Page>, l: Live, head: PageId, pageSize: nat, span: nat, j: nat) {
    head + j in pages ==> pages[head + j] == ChainPage(l, head, pageSize, span, j).(dirty := true)
  }

  /** Linking one more continuation makes a chain one page longer. */
  lemma ChainGrows(before: map<PageId, Page>, now: map<PageId, Page>, l: Live, head: PageId, pageSize: nat, span: nat)
    requires span >= 1 && ChainAt(before, l, head, pageSize, span)
    requires forall q :: q in now && q != head + span ==> q in before
    requires forall q :: q in now && q != head + span && q != head + span - 1 ==> now[q] == before[q]
    requires head + span in now ==> now[head + span] == Continuation(head + span, pageSize).(dirty := true)
    requires head + span - 1 in now ==> now[head + span - 1] == before[head + span - 1].(next := Some(head + span))
    ensures ChainAt(now, l, head, pageSize, span + 1)
  {
    var longer := span + 1;
    forall j | 0 <= j < longer ensures ChainPageAt(now, l, head, pageSize, longer, j) {
      assert j < span ==> ChainPageAt(before, l, head, pageSize, span, j);
    }
  }
}
