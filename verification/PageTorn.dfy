/** A crash inside the header write, which the store makes in five pieces. */
module PageTorn {
  import opened Prelude
  import opened PageBytes
  import opened PageFile
  import opened PageCrash

  /** The pieces in the order they are written. */
  function Pieces(h: Header): seq<seq<Byte>> {
    [MAGIC, ToLe(FORMAT, 4), ToLe(h.indexOffset, 8), ToLe(h.indexLength, 8), ToLe(h.appendOffset, 8)]
  }

  function Glued(pieces: seq<seq<Byte>>): seq<Byte> {
    if pieces == [] then [] else Glued(pieces[..|pieces| - 1]) + pieces[|pieces| - 1]
  }

  /** The file `b` after the first `j` pieces of the new header. */
  function TornFile(b: File, h: Header, j: nat): File
    requires j <= 5
  {
    WriteAt(b, 0, Glued(Pieces(h)[..j]))
  }

  /** What such a header says: new fields before old ones. */
  function TornHeader(was: Header, now: Header, j: nat): Header {
    Header(if j >= 3 then now.indexOffset else was.indexOffset,
           if j >= 4 then now.indexLength else was.indexLength,
           if j >= 5 then now.appendOffset else was.appendOffset)
  }

  lemma {:induction false} LeInverse(s: seq<Byte>)
    ensures ToLe(FromLe(s), |s|) == s
    decreases |s|
  {
    if s != [] {
      LeInverse(s[1..]);
      assert FromLe(s) % 256 == s[0] && FromLe(s) / 256 == FromLe(s[1..]);
      assert s == [s[0]] + s[1..];
    }
  }

  /** A file with a header begins with exactly the bytes of that header. */
  lemma HeaderIsItsBytes(f: File, h: Header)
    requires ReadHeader(f) == Found(h)
    ensures |f| >= HEADER_SIZE && f[..HEADER_SIZE] == HeaderBytes(h)
  {
    LeInverse(f[5..9]);
    LeInverse(f[9..17]);
    LeInverse(f[17..25]);
    LeInverse(f[25..33]);
    assert f[..HEADER_SIZE] == f[..5] + f[5..9] + f[9..17] + f[17..25] + f[25..33];
  }

  /** Bytes covered by the first `j` pieces. */
  function Covered(j: nat): nat
    requires j <= 5
  {
    if j == 0 then 0 else if j == 1 then 5 else 9 + 8 * (j - 2)
  }

  lemma GluedPieces(h: Header, j: nat)
    requires j <= 5
    ensures Glued(Pieces(h)[..j]) == HeaderBytes(h)[..Covered(j)]
  {
    var p := Pieces(h);
    assert p[..0] == [] && Glued(p[..0]) == [];
    assert p[..1][..0] == p[..0] && Glued(p[..1]) == MAGIC;
    assert p[..2][..1] == p[..1] && Glued(p[..2]) == MAGIC + ToLe(FORMAT, 4);
    assert p[..3][..2] == p[..2] && Glued(p[..3]) == MAGIC + ToLe(FORMAT, 4) + ToLe(h.indexOffset, 8);
    assert p[..4][..3] == p[..3] && Glued(p[..4]) == MAGIC + ToLe(FORMAT, 4) + ToLe(h.indexOffset, 8) + ToLe(h.indexLength, 8);
    assert p[..5][..4] == p[..4];
  }

  lemma MixedBytes(was: Header, now: Header, j: nat)
    requires j <= 5
    ensures HeaderBytes(TornHeader(was, now, j)) == HeaderBytes(now)[..Covered(j)] + HeaderBytes(was)[Covered(j)..]
  {
  }

  lemma PatchFront(b: File, x: seq<Byte>, y: seq<Byte>, n: nat)
    requires |b| >= HEADER_SIZE == |x| == |y| && b[..HEADER_SIZE] == x && n <= HEADER_SIZE
    ensures WriteAt(b, 0, y[..n]) == y[..n] + x[n..] + b[HEADER_SIZE..]
  {
    assert Front(b, 0) == [];
    assert b == x + b[HEADER_SIZE..];
  }

  /** A torn header is a whole header made of new and old fields. */
  lemma TornIsMixed(b: File, was: Header, now: Header, j: nat)
    requires |b| >= HEADER_SIZE && b[..HEADER_SIZE] == HeaderBytes(was) && j <= 5
    ensures TornFile(b, now, j) == WriteAt(b, 0, HeaderBytes(TornHeader(was, now, j)))
  {
    var mixed := HeaderBytes(TornHeader(was, now, j));
    GluedPieces(now, j);
    MixedBytes(was, now, j);
    PatchFront(b, HeaderBytes(was), HeaderBytes(now), Covered(j));
    PatchFront(b, HeaderBytes(was), mixed, HEADER_SIZE);
    assert mixed[..HEADER_SIZE] == mixed && HeaderBytes(was)[HEADER_SIZE..] == [];
  }

  // ---- What reopening finds -------------------------------------------------------------------------

  /** The file of a merge that stopped after `j` pieces of its header. */
  function TornMerge<P(!new)>(c: Codec<P>, f: File, st: State, updates: seq<(PageId, P)>, rows: map<RowId, PageId>, j: nat): File
    requires j <= 5
  {
    var recs, offset := RecordsOf(c, updates), st.header.appendOffset;
    TornFile(ApplyAll(f, BodyWrites(c, st.index.pages, recs, offset, rows)), Appended(c, st.index.pages, recs, offset, rows).header, j)
  }

  function MergedState<P(!new)>(c: Codec<P>, st: State, updates: seq<(PageId, P)>, rows: map<RowId, PageId>): State {
    Appended(c, st.index.pages, RecordsOf(c, updates), st.header.appendOffset, rows)
  }

  ghost predicate MayMerge<P(!new)>(c: Codec<P>, f: File, st: State, m: map<PageId, P>, updates: seq<(PageId, P)>, rows: map<RowId, PageId>) {
    && Faithful(c) && StoreOk(c, f, st, m) && |f| > 0 && updates != []
    && Sized(RecordsOf(c, updates)) && DistinctIds(RecordsOf(c, updates)) && Fits(MergedState(c, st, updates, rows).header)
  }

  /** The body of a merge leaves the bytes before the append offset alone, so the old state still opens. */
  lemma BodyKeepsStore<P(!new)>(c: Codec<P>, f: File, st: State, m: map<PageId, P>, updates: seq<(PageId, P)>, rows: map<RowId, PageId>)
    requires MayMerge(c, f, st, m, updates, rows)
    ensures var b := ApplyAll(f, BodyWrites(c, st.index.pages, RecordsOf(c, updates), st.header.appendOffset, rows));
      StoreOk(c, b, st, m) && |b| >= HEADER_SIZE && b[..HEADER_SIZE] == HeaderBytes(st.header)
  {
    var recs, offset := RecordsOf(c, updates), st.header.appendOffset;
    var body := BodyWrites(c, st.index.pages, recs, offset, rows);
    BodyChained(c, st.index.pages, recs, offset, rows);
    FrontKept(f, body, offset);
    SamePrefixSameStore(c, f, ApplyAll(f, body), st, m);
    HeaderIsItsBytes(ApplyAll(f, body), st.header);
  }

  /** The new index lies wholly beyond the old append offset. */
  lemma NewIndexBeyond<P(!new)>(c: Codec<P>, f: File, st: State, m: map<PageId, P>, updates: seq<(PageId, P)>, rows: map<RowId, PageId>)
    requires MayMerge(c, f, st, m, updates, rows)
    ensures var now := MergedState(c, st, updates, rows).header;
      st.header.indexOffset <= st.header.appendOffset < now.indexOffset < now.appendOffset
  {
    var recs := RecordsOf(c, updates);
    StartsIncrease(recs, st.header.appendOffset, 0, |recs|);
    assert |c.encodeIndex(MergedState(c, st, updates, rows).index)| > 0;
  }

  /**
   * A header torn after any number of its five pieces: the old state is found exactly after at most
   * two pieces, the new one exactly after all five.
   */
  lemma TornHeaderOpensIff<P(!new)>(c: Codec<P>, f: File, st: State, m: map<PageId, P>, updates: seq<(PageId, P)>, rows: map<RowId, PageId>, j: nat)
    requires MayMerge(c, f, st, m, updates, rows) && j <= 5
    ensures var g, st' := TornMerge(c, f, st, updates, rows, j), MergedState(c, st, updates, rows);
      && (Load(c, g) == Some(st) <==> j <= 2) && (j <= 2 ==> StoreOk(c, g, st, m))
      && (Load(c, g) == Some(st') <==> j == 5) && (j == 5 ==> StoreOk(c, g, st', UpdateAll(m, updates)))
  {
    var recs, offset := RecordsOf(c, updates), st.header.appendOffset;
    var b := ApplyAll(f, BodyWrites(c, st.index.pages, recs, offset, rows));
    var g, st' := TornMerge(c, f, st, updates, rows, j), MergedState(c, st, updates, rows);
    var torn := TornHeader(st.header, st'.header, j);
    BodyKeepsStore(c, f, st, m, updates, rows);
    NewIndexBeyond(c, f, st, m, updates, rows);
    TornIsMixed(b, st.header, st'.header, j);
    TornLoads(c, b, torn);
    if j <= 2 {
      assert torn == st.header;
      SameBytes(b, st.header);
    }
    if j == 5 {
      assert torn == st'.header;
      MergeIsPatchedBody(c, f, st.index.pages, recs, offset, rows);
      MergeRefines(c, f, st, m, updates, rows);
    }
  }

  /** A file opens, if it does, with the header that was written on it. */
  lemma TornLoads<P(!new)>(c: Codec<P>, b: File, torn: Header)
    requires |b| >= HEADER_SIZE && Fits(torn)
    ensures var g := WriteAt(b, 0, HeaderBytes(torn));
      Load(c, g).Some? ==> Load(c, g).value.header == torn
  {
    HeaderPatch(b, torn, HEADER_SIZE, 0);
    HeaderRoundTrip(torn, b[HEADER_SIZE..]);
  }

  lemma SameBytes(b: File, h: Header)
    requires |b| >= HEADER_SIZE && b[..HEADER_SIZE] == HeaderBytes(h)
    ensures WriteAt(b, 0, HeaderBytes(h)) == b
  {
    HeaderPatch(b, h, HEADER_SIZE, 0);
    assert b == b[..HEADER_SIZE] + b[HEADER_SIZE..];
  }

  /**
   * In between, after four pieces, or after three if both indexes are equally long: the file opens to
   * the new pages under the old append offset, so live bytes lie where the next merge will write.
   */
  lemma TornHeaderEndangers<P(!new)>(c: Codec<P>, f: File, st: State, m: map<PageId, P>, updates: seq<(PageId, P)>, rows: map<RowId, PageId>, j: nat)
    requires MayMerge(c, f, st, m, updates, rows)
    requires j == 4 || (j == 3 && st.header.indexLength == MergedState(c, st, updates, rows).header.indexLength)
    ensures var g, st' := TornMerge(c, f, st, updates, rows, j), MergedState(c, st, updates, rows);
      var torn := State(st'.index, TornHeader(st.header, st'.header, j));
      && Load(c, g) == Some(torn) && Holds(c, g, torn, UpdateAll(m, updates)) && !Laid(torn, |g|)
  {
    var recs, offset := RecordsOf(c, updates), st.header.appendOffset;
    var b := ApplyAll(f, BodyWrites(c, st.index.pages, recs, offset, rows));
    var g, st' := TornMerge(c, f, st, updates, rows, j), MergedState(c, st, updates, rows);
    var torn := State(st'.index, TornHeader(st.header, st'.header, j));
    BodyKeepsStore(c, f, st, m, updates, rows);
    NewIndexBeyond(c, f, st, m, updates, rows);
    TornIsMixed(b, st.header, st'.header, j);
    MergeRefines(c, f, st, m, updates, rows);
    MergeIsPatchedBody(c, f, st.index.pages, recs, offset, rows);
    var whole := WriteAt(b, 0, HeaderBytes(st'.header));
    SameReads(c, b, st', UpdateAll(m, updates), torn.header, whole);
  }

  /** Two headers on one body: what lies past the header reads the same. */
  lemma SameReads<P(!new)>(c: Codec<P>, b: File, st': State, m': map<PageId, P>, torn: Header, whole: File)
    requires Faithful(c) && |b| >= HEADER_SIZE && Fits(torn) && Fits(st'.header) && whole == WriteAt(b, 0, HeaderBytes(st'.header))
    requires StoreOk(c, whole, st', m') && torn.indexOffset == st'.header.indexOffset && torn.indexLength == st'.header.indexLength
    ensures var g := WriteAt(b, 0, HeaderBytes(torn));
      Load(c, g) == Some(State(st'.index, torn)) && Holds(c, g, State(st'.index, torn), m')
  {
    var g := WriteAt(b, 0, HeaderBytes(torn));
    assert |whole| > 0 by { HeaderPatch(b, st'.header, HEADER_SIZE, 0); }
    forall k: nat, n: nat | k >= HEADER_SIZE ensures ReadAt(g, k, n) == ReadAt(whole, k, n) {
      HeaderPatch(b, torn, k, n);
      HeaderPatch(b, st'.header, k, n);
    }
    HeaderPatch(b, torn, HEADER_SIZE, 0);
    HeaderRoundTrip(torn, b[HEADER_SIZE..]);
    HeaderPatch(b, st'.header, HEADER_SIZE, 0);
    HeaderRoundTrip(st'.header, b[HEADER_SIZE..]);
    forall p | p in m' ensures ReadPage(c, g, State(st'.index, torn), p) == Some(Some(m'[p])) {
      assert ReadPage(c, whole, st', p) == Some(Some(m'[p]));
    }
  }
}
