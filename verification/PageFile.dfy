/** The append-only page file of `page_store.rs`: its writes, what reopening finds, and crashes. */
module PageFile {
  import opened Prelude
  import opened PageBytes

  type PageId = nat
  type RowId = nat

  const TWO32: nat := 0x1_0000_0000

  datatype Location = Location(offset: nat, length: nat)

  datatype DiskIndex = DiskIndex(pages: map<PageId, Location>, rows: map<RowId, PageId>)

  const EmptyIndex: DiskIndex := DiskIndex(map[], map[])

  /** The serialiser, of which only round trips and non-empty output are assumed. */
  datatype Codec<!P(!new)> = Codec(
    encode: P -> seq<Byte>,
    decode: seq<Byte> -> Option<P>,
    encodeIndex: DiskIndex -> seq<Byte>,
    decodeIndex: seq<Byte> -> Option<DiskIndex>,
    decodeLegacy: seq<Byte> -> Option<map<PageId, Location>>)

  ghost predicate Faithful<P(!new)>(c: Codec<P>) {
    && (forall p: P :: c.encode(p) != [] && c.decode(c.encode(p)) == Some(p))
    && (forall x: DiskIndex :: c.encodeIndex(x) != [] && c.decodeIndex(c.encodeIndex(x)) == Some(x))
  }

  /** What the store keeps in memory about the file. */
  datatype State = State(index: DiskIndex, header: Header)

  const FreshState: State := State(EmptyIndex, Header(HEADER_SIZE, 0, HEADER_SIZE))

  // ---- Opening and reading ------------------------------------------------------------------------

  /** No bytes mean an empty index; otherwise the current form is tried before the legacy one. */
  function DecodeIndex<P(!new)>(c: Codec<P>, bytes: seq<Byte>): Option<DiskIndex> {
    if bytes == [] then Some(EmptyIndex)
    else
      match c.decodeIndex(bytes)
      case Some(x) => Some(x)
      case None =>
        match c.decodeLegacy(bytes)
        case Some(pages) => Some(DiskIndex(pages, map[]))
        case None => None
  }

  /** Reopening a file; None is an error. An empty or missing file is a fresh store. */
  function Load<P(!new)>(c: Codec<P>, f: File): Option<State> {
    if |f| == 0 then Some(FreshState)
    else
      match ReadHeader(f)
      case Found(h) =>
        (match if h.indexLength == 0 then Some([]) else ReadAt(f, h.indexOffset, h.indexLength)
         case None => None
         case Some(bytes) =>
           match DecodeIndex(c, bytes)
           case None => None
           case Some(x) => Some(State(x, h)))
      case _ => None
  }

  /** Reading one page; None is an error, Some(None) a page that is not in the file. */
  function ReadPage<P(!new)>(c: Codec<P>, f: File, st: State, p: PageId): Option<Option<P>> {
    if p !in st.index.pages then Some(None)
    else
      match ReadAt(f, st.index.pages[p].offset, st.index.pages[p].length)
      case None => None
      case Some(bytes) => (match c.decode(bytes) case None => None case Some(page) => Some(Some(page)))
  }

  /** The file holds exactly the pages `m`. */
  ghost predicate Holds<P(!new)>(c: Codec<P>, f: File, st: State, m: map<PageId, P>) {
    && st.index.pages.Keys == m.Keys
    && forall p :: p in m ==> ReadPage(c, f, st, p) == Some(Some(m[p]))
  }

  /** Everything live lies between the header and `appendOffset`, and records do not overlap. */
  ghost predicate Laid(st: State, size: nat) {
    && HEADER_SIZE <= st.header.indexOffset
    && st.header.indexOffset + st.header.indexLength <= st.header.appendOffset <= size
    && (forall p :: p in st.index.pages ==>
         HEADER_SIZE <= st.index.pages[p].offset
         && st.index.pages[p].offset + st.index.pages[p].length <= st.header.appendOffset)
    && (forall p, q :: p in st.index.pages && q in st.index.pages && p != q ==>
         Apart(st.index.pages[p], st.index.pages[q]))
  }

  predicate Apart(a: Location, b: Location) {
    a.offset + a.length <= b.offset || b.offset + b.length <= a.offset
  }

  /** A file and the in-memory state that describes it, standing for the page map `m`. */
  ghost predicate StoreOk<P(!new)>(c: Codec<P>, f: File, st: State, m: map<PageId, P>) {
    && Load(c, f) == Some(st)
    && Holds(c, f, st, m)
    && (if |f| == 0 then st == FreshState else Laid(st, |f|))
  }

  /** A file whose index is in the older form, pages without row locations, opens to those pages. */
  lemma LegacyOpens<P(!new)>(c: Codec<P>, h: Header, f: File, pages: map<PageId, Location>, p: PageId, page: P)
    requires ReadHeader(f) == Found(h) && h.indexLength > 0 && h.indexOffset + h.indexLength <= |f|
    requires c.decodeIndex(f[h.indexOffset..h.indexOffset + h.indexLength]) == None
    requires c.decodeLegacy(f[h.indexOffset..h.indexOffset + h.indexLength]) == Some(pages)
    requires p in pages && pages[p].offset + pages[p].length <= |f|
    requires c.decode(f[pages[p].offset..pages[p].offset + pages[p].length]) == Some(page)
    ensures Load(c, f).Some? && Load(c, f).value.index.rows == map[] && Load(c, f).value.index.pages == pages
    ensures ReadPage(c, f, Load(c, f).value, p) == Some(Some(page))
  {
    assert f != [];
  }

  /** Opening fails exactly for a file with bytes but without a good header, or whose index cannot be read or decoded. */
  lemma OpensIff<P(!new)>(c: Codec<P>, f: File)
    ensures Load(c, f).Some? <==>
      f == [] || (ReadHeader(f).Found? &&
        var h := ReadHeader(f).header;
        h.indexLength == 0 || (h.indexOffset + h.indexLength <= |f| &&
          var bytes := f[h.indexOffset..h.indexOffset + h.indexLength];
          c.decodeIndex(bytes).Some? || c.decodeLegacy(bytes).Some?))
  {
  }

  // ---- Appending records --------------------------------------------------------------------------

  datatype Record = Record(id: PageId, bytes: seq<Byte>)

  datatype Write = Write(offset: nat, bytes: seq<Byte>)

  /** Apply writes in order. */
  function ApplyAll(f: File, ws: seq<Write>): File
    decreases |ws|
  {
    if ws == [] then f
    else
      var n := |ws| - 1;
      WriteAt(ApplyAll(f, ws[..n]), ws[n].offset, ws[n].bytes)
  }

  /** Each write starts after the ones before it end. */
  predicate Chained(ws: seq<Write>) {
    && (forall i :: 0 <= i < |ws| ==> ws[i].bytes != [])
    && (forall i, j :: 0 <= i < j < |ws| ==> ws[i].offset + |ws[i].bytes| <= ws[j].offset)
  }

  lemma {:induction false} FrontKept(f: File, ws: seq<Write>, n: nat)
    requires forall i :: 0 <= i < |ws| ==> ws[i].offset >= n && ws[i].bytes != []
    requires ws != [] || n <= |f|
    ensures |ApplyAll(f, ws)| >= n && |ApplyAll(f, ws)| >= |f|
    ensures ApplyAll(f, ws)[..n] == Front(f, n)
    decreases |ws|
  {
    if ws != [] {
      var k := |ws| - 1;
      if k > 0 { FrontKept(f, ws[..k], n); } else { assert ws[..k] == []; }
      WriteKeepsFront(ApplyAll(f, ws[..k]), ws[k].offset, ws[k].bytes, n);
    }
  }

  lemma {:induction false} ReadBack(f: File, ws: seq<Write>, i: nat)
    requires Chained(ws) && i < |ws|
    ensures ReadAt(ApplyAll(f, ws), ws[i].offset, |ws[i].bytes|) == Some(ws[i].bytes)
    decreases |ws|
  {
    var k := |ws| - 1;
    var before := ApplyAll(f, ws[..k]);
    if i == k {
      WriteThenRead(before, ws[k].offset, ws[k].bytes);
    } else {
      ReadBack(f, ws[..k], i);
      var start, stop := ws[i].offset, ws[i].offset + |ws[i].bytes|;
      WriteKeepsFront(before, ws[k].offset, ws[k].bytes, stop);
      assert ApplyAll(f, ws)[start..stop] == ApplyAll(f, ws)[..stop][start..stop];
      assert before[start..stop] == before[..stop][start..stop];
    }
  }

  /** Where record `i` starts when the records are laid end to end from `offset`. */
  function StartOf(recs: seq<Record>, offset: nat, i: nat): nat
    requires i <= |recs|
  {
    if i == 0 then offset else StartOf(recs, offset, i - 1) + |recs[i - 1].bytes|
  }

  function EndOf(recs: seq<Record>, offset: nat): nat { StartOf(recs, offset, |recs|) }

  function RecordWrites(recs: seq<Record>, offset: nat): seq<Write> {
    seq(|recs|, i requires 0 <= i < |recs| => Write(StartOf(recs, offset, i), recs[i].bytes))
  }

  /** The page index after the records are added; a record length is kept in 32 bits. */
  function Placed(pages: map<PageId, Location>, recs: seq<Record>, offset: nat): map<PageId, Location> {
    if recs == [] then pages
    else
      var n := |recs| - 1;
      Placed(pages, recs[..n], offset)[recs[n].id := Location(StartOf(recs, offset, n), |recs[n].bytes| % TWO32)]
  }

  predicate DistinctIds(recs: seq<Record>) {
    forall i, j :: 0 <= i < j < |recs| ==> recs[i].id != recs[j].id
  }

  predicate Sized(recs: seq<Record>) {
    forall i :: 0 <= i < |recs| ==> 0 < |recs[i].bytes| < TWO32
  }

  lemma {:induction false} StartsIncrease(recs: seq<Record>, offset: nat, i: nat, j: nat)
    requires i <= j <= |recs|
    ensures offset <= StartOf(recs, offset, i) <= StartOf(recs, offset, j)
    ensures i < j ==> StartOf(recs, offset, i) + |recs[i].bytes| <= StartOf(recs, offset, j)
    decreases j
  {
    if i < j {
      StartsIncrease(recs, offset, i, j - 1);
    } else if j > 0 {
      StartsIncrease(recs, offset, i - 1, j - 1);
    }
  }

  lemma {:induction false} StartOfPrefix(recs: seq<Record>, n: nat, offset: nat, i: nat)
    requires i <= n <= |recs|
    ensures StartOf(recs[..n], offset, i) == StartOf(recs, offset, i)
    decreases i
  {
    if i > 0 { StartOfPrefix(recs, n, offset, i - 1); }
  }

  function Ids(recs: seq<Record>): set<PageId> {
    set i | 0 <= i < |recs| :: recs[i].id
  }

  lemma {:induction false} PlacedNew(pages: map<PageId, Location>, recs: seq<Record>, offset: nat, i: nat)
    requires DistinctIds(recs) && i < |recs|
    ensures recs[i].id in Placed(pages, recs, offset)
    ensures Placed(pages, recs, offset)[recs[i].id] == Location(StartOf(recs, offset, i), |recs[i].bytes| % TWO32)
    decreases |recs|
  {
    var n := |recs| - 1;
    if i < n {
      PlacedNew(pages, recs[..n], offset, i);
      StartOfPrefix(recs, n, offset, i);
    }
  }

  lemma {:induction false} PlacedOld(pages: map<PageId, Location>, recs: seq<Record>, offset: nat)
    ensures Placed(pages, recs, offset).Keys == pages.Keys + Ids(recs)
    ensures forall p :: p in pages && p !in Ids(recs) ==> Placed(pages, recs, offset)[p] == pages[p]
    decreases |recs|
  {
    if recs != [] {
      var n := |recs| - 1;
      PlacedOld(pages, recs[..n], offset);
      assert Ids(recs) == Ids(recs[..n]) + {recs[n].id} by {
        forall p | p in Ids(recs) ensures p in Ids(recs[..n]) + {recs[n].id} {
          var i :| 0 <= i < |recs| && recs[i].id == p;
          if i < n { assert recs[..n][i].id == p; }
        }
        forall p | p in Ids(recs[..n]) ensures p in Ids(recs) {
          var i :| 0 <= i < n && recs[..n][i].id == p;
          assert recs[i].id == p;
        }
      }
    }
  }

  lemma RecordsChained(recs: seq<Record>, offset: nat)
    requires Sized(recs)
    ensures Chained(RecordWrites(recs, offset))
    ensures forall i :: 0 <= i < |recs| ==>
      offset <= StartOf(recs, offset, i) && StartOf(recs, offset, i) + |recs[i].bytes| <= EndOf(recs, offset)
  {
    forall i, j | 0 <= i < j <= |recs|
      ensures offset <= StartOf(recs, offset, i) && StartOf(recs, offset, i) + |recs[i].bytes| <= StartOf(recs, offset, j)
    {
      StartsIncrease(recs, offset, i, j);
    }
  }

  // ---- Merging ------------------------------------------------------------------------------------

  /** The state after appending records at `offset` to an index and writing the index and header. */
  function Appended<P(!new)>(c: Codec<P>, pages: map<PageId, Location>, recs: seq<Record>, offset: nat, rows: map<RowId, PageId>): State {
    var index := DiskIndex(Placed(pages, recs, offset), rows);
    var stop := EndOf(recs, offset);
    var length := |c.encodeIndex(index)|;
    State(index, Header(stop, length, stop + length))
  }

  /** The body of a merge: the records, then the index, all past `offset`. */
  function BodyWrites<P(!new)>(c: Codec<P>, pages: map<PageId, Location>, recs: seq<Record>, offset: nat, rows: map<RowId, PageId>): seq<Write> {
    RecordWrites(recs, offset)
    + [Write(EndOf(recs, offset), c.encodeIndex(Appended(c, pages, recs, offset, rows).index))]
  }

  /** The body, then the header in one write. */
  function MergeWrites<P(!new)>(c: Codec<P>, pages: map<PageId, Location>, recs: seq<Record>, offset: nat, rows: map<RowId, PageId>): seq<Write> {
    BodyWrites(c, pages, recs, offset, rows) + [Write(0, HeaderBytes(Appended(c, pages, recs, offset, rows).header))]
  }

  lemma BodyChained<P(!new)>(c: Codec<P>, pages: map<PageId, Location>, recs: seq<Record>, offset: nat, rows: map<RowId, PageId>)
    requires Faithful(c) && Sized(recs)
    ensures Chained(BodyWrites(c, pages, recs, offset, rows))
    ensures forall i :: 0 <= i <= |recs| ==> BodyWrites(c, pages, recs, offset, rows)[i].offset >= offset
  {
    RecordsChained(recs, offset);
    StartsIncrease(recs, offset, 0, |recs|);
    var index := Appended(c, pages, recs, offset, rows).index;
    assert c.encodeIndex(index) != [];
    var ws, body := RecordWrites(recs, offset), BodyWrites(c, pages, recs, offset, rows);
    forall i, j | 0 <= i < j < |body| ensures body[i].offset + |body[i].bytes| <= body[j].offset {
      if j < |ws| { assert ws[i].offset + |ws[i].bytes| <= ws[j].offset; }
    }
  }

  /**
   * A merge leaves no gaps: its records lie end to end from the append offset, which is 33 for a fresh
   * store, the index follows them, and the next merge appends behind it.
   */
  lemma MergeTiles<P(!new)>(c: Codec<P>, pages: map<PageId, Location>, recs: seq<Record>, offset: nat, rows: map<RowId, PageId>, i: nat)
    requires Sized(recs) && DistinctIds(recs) && i < |recs|
    ensures var st := Appended(c, pages, recs, offset, rows);
      && recs[i].id in st.index.pages
      && var loc := st.index.pages[recs[i].id];
         && loc.length == |recs[i].bytes|
         && (i == 0 ==> loc.offset == offset)
         && (i > 0 ==> recs[i - 1].id in st.index.pages
                       && loc.offset == st.index.pages[recs[i - 1].id].offset + st.index.pages[recs[i - 1].id].length)
         && (i == |recs| - 1 ==> st.header.indexOffset == loc.offset + loc.length)
         && st.header.appendOffset == st.header.indexOffset + st.header.indexLength
    ensures FreshState.header.appendOffset == 33 && FreshState.index.pages == map[]
  {
    PlacedNew(pages, recs, offset, i);
    if i > 0 { PlacedNew(pages, recs, offset, i - 1); }
  }

  /** Rewriting the header leaves everything after it readable as before. */
  lemma HeaderPatch(b: File, h: Header, k: nat, n: nat)
    requires HEADER_SIZE <= |b| && HEADER_SIZE <= k
    ensures WriteAt(b, 0, HeaderBytes(h)) == HeaderBytes(h) + b[HEADER_SIZE..]
    ensures ReadAt(WriteAt(b, 0, HeaderBytes(h)), k, n) == ReadAt(b, k, n)
  {
    var g := WriteAt(b, 0, HeaderBytes(h));
    assert Front(b, 0) == [];
    assert g == HeaderBytes(h) + b[HEADER_SIZE..];
    if k + n <= |b| { assert g[k..k + n] == b[k..k + n]; }
  }

  /** A merge is its body followed by one header write. */
  lemma MergeIsPatchedBody<P(!new)>(c: Codec<P>, f: File, pages: map<PageId, Location>, recs: seq<Record>, offset: nat, rows: map<RowId, PageId>)
    ensures ApplyAll(f, MergeWrites(c, pages, recs, offset, rows)) ==
      WriteAt(ApplyAll(f, BodyWrites(c, pages, recs, offset, rows)), 0, HeaderBytes(Appended(c, pages, recs, offset, rows).header))
  {
    var body := BodyWrites(c, pages, recs, offset, rows);
    var all := MergeWrites(c, pages, recs, offset, rows);
    assert |all| == |body| + 1 && all[..|body|] == body;
  }

  lemma SameFront(f: File, b: File, k: nat, n: nat)
    requires k + n <= |f| && k + n <= |b| && b[..k + n] == f[..k + n]
    ensures ReadAt(b, k, n) == ReadAt(f, k, n)
  {
    assert b[k..k + n] == b[..k + n][k..];
    assert f[k..k + n] == f[..k + n][k..];
  }

  lemma WritesKeepRead(f: File, ws: seq<Write>, k: nat, n: nat)
    requires forall i :: 0 <= i < |ws| ==> ws[i].offset >= k + n && ws[i].bytes != []
    requires k + n <= |f|
    ensures |ApplyAll(f, ws)| >= k + n && ReadAt(ApplyAll(f, ws), k, n) == ReadAt(f, k, n)
  {
    FrontKept(f, ws, k + n);
    SameFront(f, ApplyAll(f, ws), k, n);
  }

  /** After a merge, bytes that were in the file between the header and `offset` read as before. */
  lemma MergedReadsOld<P(!new)>(c: Codec<P>, f: File, pages: map<PageId, Location>, recs: seq<Record>, offset: nat, rows: map<RowId, PageId>, k: nat, n: nat)
    requires Faithful(c) && Sized(recs) && HEADER_SIZE <= k && k + n <= offset && k + n <= |f|
    ensures ReadAt(ApplyAll(f, MergeWrites(c, pages, recs, offset, rows)), k, n) == ReadAt(f, k, n)
  {
    var body := BodyWrites(c, pages, recs, offset, rows);
    assert forall i :: 0 <= i < |body| ==> body[i].offset >= k + n && body[i].bytes != [] by {
      BodyChained(c, pages, recs, offset, rows);
    }
    WritesKeepRead(f, body, k, n);
    MergeIsPatchedBody(c, f, pages, recs, offset, rows);
    HeaderPatch(ApplyAll(f, body), Appended(c, pages, recs, offset, rows).header, k, n);
  }

  /** After a merge, every new record can be read back. */
  lemma MergedReadsNew<P(!new)>(c: Codec<P>, f: File, pages: map<PageId, Location>, recs: seq<Record>, offset: nat, rows: map<RowId, PageId>, i: nat)
    requires Faithful(c) && Sized(recs) && HEADER_SIZE <= offset && i < |recs|
    ensures ReadAt(ApplyAll(f, MergeWrites(c, pages, recs, offset, rows)), StartOf(recs, offset, i), |recs[i].bytes|) == Some(recs[i].bytes)
  {
    var body := BodyWrites(c, pages, recs, offset, rows);
    BodyChained(c, pages, recs, offset, rows);
    FrontKept(f, body, offset);
    MergeIsPatchedBody(c, f, pages, recs, offset, rows);
    assert body[i] == Write(StartOf(recs, offset, i), recs[i].bytes);
    ReadBack(f, body, i);
    HeaderPatch(ApplyAll(f, body), Appended(c, pages, recs, offset, rows).header, StartOf(recs, offset, i), |recs[i].bytes|);
  }

  /** Once the header points at the encoded index, the file opens to the new state. */
  lemma PatchedLoads<P(!new)>(c: Codec<P>, b: File, st: State)
    requires Faithful(c) && Fits(st.header) && HEADER_SIZE <= |b| && HEADER_SIZE <= st.header.indexOffset
    requires st.header.indexLength == |c.encodeIndex(st.index)|
    requires ReadAt(b, st.header.indexOffset, st.header.indexLength) == Some(c.encodeIndex(st.index))
    ensures Load(c, WriteAt(b, 0, HeaderBytes(st.header))) == Some(st)
  {
    HeaderPatch(b, st.header, st.header.indexOffset, st.header.indexLength);
    HeaderRoundTrip(st.header, b[HEADER_SIZE..]);
    var bytes := c.encodeIndex(st.index);
    assert bytes != [] && c.decodeIndex(bytes) == Some(st.index);
    assert DecodeIndex(c, bytes) == Some(st.index);
  }

  /** After a merge the file opens to the new state. */
  lemma MergedLoads<P(!new)>(c: Codec<P>, f: File, pages: map<PageId, Location>, recs: seq<Record>, offset: nat, rows: map<RowId, PageId>)
    requires Faithful(c) && Sized(recs) && offset >= HEADER_SIZE
    requires Fits(Appended(c, pages, recs, offset, rows).header)
    ensures var g, st := ApplyAll(f, MergeWrites(c, pages, recs, offset, rows)), Appended(c, pages, recs, offset, rows);
      Load(c, g) == Some(st) && st.header.appendOffset <= |g|
  {
    var body := BodyWrites(c, pages, recs, offset, rows);
    var st := Appended(c, pages, recs, offset, rows);
    var b := ApplyAll(f, body);
    BodyChained(c, pages, recs, offset, rows);
    FrontKept(f, body, offset);
    ReadBack(f, body, |recs|);
    MergeIsPatchedBody(c, f, pages, recs, offset, rows);
    StartsIncrease(recs, offset, 0, |recs|);
    PatchedLoads(c, b, st);
    HeaderPatch(b, st.header, HEADER_SIZE, 0);
  }

  // ---- A merge keeps the store --------------------------------------------------------------------

  function RecordsOf<P(!new)>(c: Codec<P>, updates: seq<(PageId, P)>): seq<Record> {
    seq(|updates|, i requires 0 <= i < |updates| => Record(updates[i].0, c.encode(updates[i].1)))
  }

  function UpdateAll<P>(m: map<PageId, P>, updates: seq<(PageId, P)>): map<PageId, P> {
    if updates == [] then m
    else UpdateAll(m, updates[..|updates| - 1])[updates[|updates| - 1].0 := updates[|updates| - 1].1]
  }

  lemma {:induction false} UpdateAllAt<P>(m: map<PageId, P>, updates: seq<(PageId, P)>, p: PageId)
    requires forall i, j :: 0 <= i < j < |updates| ==> updates[i].0 != updates[j].0
    ensures p in UpdateAll(m, updates) <==> p in m || exists i :: 0 <= i < |updates| && updates[i].0 == p
    ensures forall i :: 0 <= i < |updates| && updates[i].0 == p ==> UpdateAll(m, updates)[p] == updates[i].1
    ensures p in m && (forall i :: 0 <= i < |updates| ==> updates[i].0 != p) ==> UpdateAll(m, updates)[p] == m[p]
    decreases |updates|
  {
    if updates != [] {
      var n := |updates| - 1;
      UpdateAllAt(m, updates[..n], p);
      if i :| 0 <= i < n && updates[i].0 == p { assert updates[..n][i] == updates[i]; }
    }
  }

  /** Old records lie between the header and `offset`, pairwise apart. */
  predicate Below(pages: map<PageId, Location>, offset: nat) {
    && (forall p :: p in pages ==> HEADER_SIZE <= pages[p].offset && pages[p].offset + pages[p].length <= offset)
    && (forall p, q :: p in pages && q in pages && p != q ==> Apart(pages[p], pages[q]))
  }

  /** A placed page is an old one, untouched, or one of the records. */
  lemma PlacedCases(pages: map<PageId, Location>, recs: seq<Record>, offset: nat, p: PageId) returns (i: int)
    requires Sized(recs) && DistinctIds(recs) && p in Placed(pages, recs, offset)
    ensures -1 <= i < |recs|
    ensures i == -1 ==> p in pages && p !in Ids(recs) && Placed(pages, recs, offset)[p] == pages[p]
    ensures i >= 0 ==> recs[i].id == p && Placed(pages, recs, offset)[p] == Location(StartOf(recs, offset, i), |recs[i].bytes|)
  {
    PlacedOld(pages, recs, offset);
    if p in Ids(recs) {
      i :| 0 <= i < |recs| && recs[i].id == p;
      PlacedNew(pages, recs, offset, i);
    } else {
      i := -1;
    }
  }

  lemma PlacedBelow(pages: map<PageId, Location>, recs: seq<Record>, offset: nat)
    requires Sized(recs) && DistinctIds(recs) && HEADER_SIZE <= offset && Below(pages, offset)
    ensures Below(Placed(pages, recs, offset), EndOf(recs, offset))
  {
    var pages' := Placed(pages, recs, offset);
    StartsIncrease(recs, offset, 0, |recs|);
    forall p | p in pages'
      ensures HEADER_SIZE <= pages'[p].offset && pages'[p].offset + pages'[p].length <= EndOf(recs, offset)
    {
      var i := PlacedCases(pages, recs, offset, p);
      if i >= 0 { StartsIncrease(recs, offset, i, |recs|); }
    }
    forall p, q | p in pages' && q in pages' && p != q
      ensures Apart(pages'[p], pages'[q])
    {
      PlacedApart(pages, recs, offset, p, q);
    }
  }

  lemma PlacedApart(pages: map<PageId, Location>, recs: seq<Record>, offset: nat, p: PageId, q: PageId)
    requires Sized(recs) && DistinctIds(recs) && Below(pages, offset) && p != q
    requires p in Placed(pages, recs, offset) && q in Placed(pages, recs, offset)
    ensures Apart(Placed(pages, recs, offset)[p], Placed(pages, recs, offset)[q])
  {
    var i := PlacedCases(pages, recs, offset, p);
    var j := PlacedCases(pages, recs, offset, q);
    if i >= 0 { StartsIncrease(recs, offset, i, |recs|); }
    if j >= 0 { StartsIncrease(recs, offset, j, |recs|); }
    if 0 <= i < j { StartsIncrease(recs, offset, i, j); }
    if 0 <= j < i { StartsIncrease(recs, offset, j, i); }
  }

  /** Appending the updated pages and publishing the header stands for updating the page map. */
  lemma MergeRefines<P(!new)>(c: Codec<P>, f: File, st: State, m: map<PageId, P>, updates: seq<(PageId, P)>, rows: map<RowId, PageId>)
    requires Faithful(c) && StoreOk(c, f, st, m)
    requires Sized(RecordsOf(c, updates)) && DistinctIds(RecordsOf(c, updates))
    requires Fits(Appended(c, st.index.pages, RecordsOf(c, updates), st.header.appendOffset, rows).header)
    ensures var recs, offset := RecordsOf(c, updates), st.header.appendOffset;
      StoreOk(c, ApplyAll(f, MergeWrites(c, st.index.pages, recs, offset, rows)),
              Appended(c, st.index.pages, recs, offset, rows), UpdateAll(m, updates))
  {
    var recs, offset := RecordsOf(c, updates), st.header.appendOffset;
    var pages, pages' := st.index.pages, Placed(st.index.pages, recs, offset);
    var g, st' := ApplyAll(f, MergeWrites(c, pages, recs, offset, rows)), Appended(c, pages, recs, offset, rows);
    assert Below(pages, offset);
    MergedLoads(c, f, pages, recs, offset, rows);
    PlacedBelow(pages, recs, offset);
    StartsIncrease(recs, offset, 0, |recs|);
    assert Laid(st', |g|);
    forall p
      ensures p in pages' <==> p in UpdateAll(m, updates)
    {
      MergedKeys(c, pages, m, updates, offset, p);
    }
    forall p | p in pages'
      ensures ReadPage(c, g, st', p) == Some(Some(UpdateAll(m, updates)[p]))
    {
      MergedPage(c, f, st, m, updates, rows, p);
    }
  }

  lemma MergedKeys<P(!new)>(c: Codec<P>, pages: map<PageId, Location>, m: map<PageId, P>, updates: seq<(PageId, P)>, offset: nat, p: PageId)
    requires pages.Keys == m.Keys && DistinctIds(RecordsOf(c, updates))
    ensures p in Placed(pages, RecordsOf(c, updates), offset) <==> p in UpdateAll(m, updates)
  {
    var recs := RecordsOf(c, updates);
    PlacedOld(pages, recs, offset);
    assert forall i :: 0 <= i < |updates| ==> updates[i].0 == recs[i].id;
    UpdateAllAt(m, updates, p);
    if i :| 0 <= i < |updates| && updates[i].0 == p { assert recs[i].id in Ids(recs); }
    if p in Ids(recs) {
      var i :| 0 <= i < |recs| && recs[i].id == p;
      assert updates[i].0 == p;
    }
  }

  lemma MergedPage<P(!new)>(c: Codec<P>, f: File, st: State, m: map<PageId, P>, updates: seq<(PageId, P)>, rows: map<RowId, PageId>, p: PageId)
    requires Faithful(c) && StoreOk(c, f, st, m)
    requires Sized(RecordsOf(c, updates)) && DistinctIds(RecordsOf(c, updates))
    requires p in Placed(st.index.pages, RecordsOf(c, updates), st.header.appendOffset)
    requires p in UpdateAll(m, updates)
    ensures var recs, offset := RecordsOf(c, updates), st.header.appendOffset;
      ReadPage(c, ApplyAll(f, MergeWrites(c, st.index.pages, recs, offset, rows)),
               Appended(c, st.index.pages, recs, offset, rows), p) == Some(Some(UpdateAll(m, updates)[p]))
  {
    var recs, offset := RecordsOf(c, updates), st.header.appendOffset;
    var i := PlacedCases(st.index.pages, recs, offset, p);
    if i >= 0 {
      MergedReadsNew(c, f, st.index.pages, recs, offset, rows, i);
      UpdatedTo(c, m, updates, i);
      assert c.decode(c.encode(updates[i].1)) == Some(updates[i].1);
    } else {
      var loc := st.index.pages[p];
      assert ReadPage(c, f, st, p) == Some(Some(m[p]));
      MergedReadsOld(c, f, st.index.pages, recs, offset, rows, loc.offset, loc.length);
      NotUpdated(c, m, updates, p);
    }
  }

  lemma UpdatedTo<P(!new)>(c: Codec<P>, m: map<PageId, P>, updates: seq<(PageId, P)>, i: nat)
    requires DistinctIds(RecordsOf(c, updates)) && i < |updates|
    ensures updates[i].0 in UpdateAll(m, updates) && UpdateAll(m, updates)[updates[i].0] == updates[i].1
  {
    var recs := RecordsOf(c, updates);
    assert forall j :: 0 <= j < |updates| ==> updates[j].0 == recs[j].id;
    UpdateAllAt(m, updates, updates[i].0);
  }

  lemma NotUpdated<P(!new)>(c: Codec<P>, m: map<PageId, P>, updates: seq<(PageId, P)>, p: PageId)
    requires DistinctIds(RecordsOf(c, updates)) && p !in Ids(RecordsOf(c, updates)) && p in m
    ensures p in UpdateAll(m, updates) && UpdateAll(m, updates)[p] == m[p]
  {
    var recs := RecordsOf(c, updates);
    assert forall j :: 0 <= j < |updates| ==> updates[j].0 == recs[j].id && recs[j].id in Ids(recs);
    UpdateAllAt(m, updates, p);
  }
}
