/** Crashes during a merge, and the rewriting of a page file as a compact one. */
module PageCrash {
  import opened Prelude
  import opened PageBytes
  import opened PageFile

  // ---- Crashes ------------------------------------------------------------------------------------

  /** The file when the first `k` writes are done and `torn` bytes of the next one. */
  function CrashFile(f: File, ws: seq<Write>, k: nat, torn: nat): File
    requires k < |ws| && torn <= |ws[k].bytes|
  {
    WriteAt(ApplyAll(f, ws[..k]), ws[k].offset, ws[k].bytes[..torn])
  }

  /** Bytes past `appendOffset` do not matter to a store. */
  lemma SamePrefixSameStore<P(!new)>(c: Codec<P>, f: File, g: File, st: State, m: map<PageId, P>)
    requires StoreOk(c, f, st, m) && |f| > 0
    requires |g| >= st.header.appendOffset && g[..st.header.appendOffset] == f[..st.header.appendOffset]
    ensures StoreOk(c, g, st, m)
  {
    var n, h := st.header.appendOffset, st.header;
    assert f[..HEADER_SIZE] == f[..n][..HEADER_SIZE] && g[..HEADER_SIZE] == g[..n][..HEADER_SIZE];
    SameHeader(f, g);
    forall k: nat, l: nat | k + l <= n ensures ReadAt(g, k, l) == ReadAt(f, k, l) {
      assert f[..k + l] == f[..n][..k + l] && g[..k + l] == g[..n][..k + l];
      SameFront(f, g, k, l);
    }
    assert ReadAt(g, h.indexOffset, h.indexLength) == ReadAt(f, h.indexOffset, h.indexLength);
    forall p | p in m ensures ReadPage(c, g, st, p) == Some(Some(m[p])) {
      assert ReadPage(c, f, st, p) == Some(Some(m[p]));
    }
  }

  /** Nothing a crash leaves behind, short of the header, touches the bytes before `offset`. */
  lemma CrashKeepsFront(f: File, ws: seq<Write>, k: nat, torn: nat, offset: nat)
    requires k < |ws| && torn <= |ws[k].bytes|
    requires forall i :: 0 <= i < |ws| ==> ws[i].offset >= offset && ws[i].bytes != []
    ensures var g := CrashFile(f, ws, k, torn);
      && |g| >= |f|
      && (k > 0 || torn > 0 || offset <= |f| ==> |g| >= offset && g[..offset] == Front(f, offset))
      && (k == 0 && torn == 0 ==> g == f)
  {
    var bits := ws[k].bytes[..torn];
    if torn == 0 {
      if k > 0 || offset <= |f| { FrontKept(f, ws[..k], offset); }
      assert bits == [];
      if k == 0 { assert ws[..k] == []; }
      if k > 0 { FrontKept(f, ws[..k], 0); }
    } else {
      var ws' := ws[..k] + [Write(ws[k].offset, bits)];
      assert ws'[..k] == ws[..k] && ApplyAll(f, ws') == CrashFile(f, ws, k, torn);
      FrontKept(f, ws', offset);
    }
  }

  /**
   * A merge interrupted anywhere before its header write: a file that had a header opens to exactly
   * the old pages; a file that was empty opens only if nothing was written yet.
   */
  lemma MergeIsCrashAtomic<P(!new)>(c: Codec<P>, f: File, st: State, m: map<PageId, P>, updates: seq<(PageId, P)>,
                                    rows: map<RowId, PageId>, k: nat, torn: nat)
    requires Faithful(c) && StoreOk(c, f, st, m) && Sized(RecordsOf(c, updates))
    requires var body := BodyWrites(c, st.index.pages, RecordsOf(c, updates), st.header.appendOffset, rows);
      k < |body| && torn <= |body[k].bytes|
    ensures var g := CrashFile(f, BodyWrites(c, st.index.pages, RecordsOf(c, updates), st.header.appendOffset, rows), k, torn);
      && (|f| > 0 || g == f ==> StoreOk(c, g, st, m))
      && (Load(c, g) == Some(st) <==> |f| > 0 || g == f)
  {
    var recs, offset := RecordsOf(c, updates), st.header.appendOffset;
    var body := BodyWrites(c, st.index.pages, recs, offset, rows);
    var g := CrashFile(f, body, k, torn);
    BodyChained(c, st.index.pages, recs, offset, rows);
    CrashKeepsFront(f, body, k, torn, offset);
    if |f| > 0 {
      SamePrefixSameStore(c, f, g, st, m);
    } else if g != f {
      assert g[..offset][..5] == g[..5];
      assert g[0] == g[..offset][0] == 0;
      assert g[..5][0] != MAGIC[0];
    }
  }

  /** A record is read back whole exactly when its length fits the 32 bits kept for it. */
  lemma RecordReadsBackIff(f: File, offset: nat, bytes: seq<Byte>)
    requires bytes != []
    ensures ReadAt(WriteAt(f, offset, bytes), offset, |bytes| % TWO32) == Some(bytes) <==> |bytes| < TWO32
  {
    WriteThenRead(f, offset, bytes);
    var got := ReadAt(WriteAt(f, offset, bytes), offset, |bytes| % TWO32);
    assert |bytes| >= TWO32 ==> |bytes| % TWO32 < |bytes|;
    assert got.Some? ==> |got.value| == |bytes| % TWO32;
  }

  // ---- Compact files ------------------------------------------------------------------------------

  const BLANK: Header := Header(HEADER_SIZE, 0, HEADER_SIZE)

  /** A compact file written over whatever a temporary file of that name held. */
  function CompactFile<P(!new)>(c: Codec<P>, tmp: File, pages: seq<(PageId, P)>, rows: map<RowId, PageId>): File {
    ApplyAll(WriteAt(tmp, 0, HeaderBytes(BLANK)), MergeWrites(c, map[], RecordsOf(c, pages), HEADER_SIZE, rows))
  }

  function CompactState<P(!new)>(c: Codec<P>, pages: seq<(PageId, P)>, rows: map<RowId, PageId>): State {
    Appended(c, map[], RecordsOf(c, pages), HEADER_SIZE, rows)
  }

  /** A compact file holds exactly the given pages, whatever was in the temporary file. */
  lemma CompactRefines<P(!new)>(c: Codec<P>, tmp: File, pages: seq<(PageId, P)>, rows: map<RowId, PageId>)
    requires Faithful(c) && Sized(RecordsOf(c, pages)) && DistinctIds(RecordsOf(c, pages))
    requires Fits(CompactState(c, pages, rows).header)
    ensures StoreOk(c, CompactFile(c, tmp, pages, rows), CompactState(c, pages, rows), UpdateAll(map[], pages))
  {
    BlankOpens(c, tmp);
    MergeRefines(c, WriteAt(tmp, 0, HeaderBytes(BLANK)), State(EmptyIndex, BLANK), map[], pages, rows);
  }

  lemma BlankFits()
    ensures Fits(BLANK)
  {
    assert Pow256(1) == 256;
    assert Pow256(8) == 256 * Pow256(7) && Pow256(7) > 0;
  }

  /** A blank header over anything opens to no pages. */
  lemma BlankOpens<P(!new)>(c: Codec<P>, tmp: File)
    ensures StoreOk(c, WriteAt(tmp, 0, HeaderBytes(BLANK)), State(EmptyIndex, BLANK), map[])
  {
    var f := WriteAt(tmp, 0, HeaderBytes(BLANK));
    var rest := if HEADER_SIZE < |tmp| then tmp[HEADER_SIZE..] else [];
    BlankBytes(tmp, rest);
    BlankFits();
    HeaderRoundTrip(BLANK, rest);
  }

  lemma BlankBytes(tmp: File, rest: File)
    requires rest == if HEADER_SIZE < |tmp| then tmp[HEADER_SIZE..] else []
    ensures WriteAt(tmp, 0, HeaderBytes(BLANK)) == HeaderBytes(BLANK) + rest
  {
    assert Front(tmp, 0) == [];
  }

  /** A compact file has no gaps: record `i` starts where the one before ends, and the index follows. */
  lemma CompactTiles<P(!new)>(c: Codec<P>, pages: seq<(PageId, P)>, rows: map<RowId, PageId>, i: nat)
    requires Sized(RecordsOf(c, pages)) && DistinctIds(RecordsOf(c, pages)) && i < |pages|
    ensures var st := CompactState(c, pages, rows);
      && pages[i].0 in st.index.pages
      && var loc := st.index.pages[pages[i].0];
         && loc.length == |c.encode(pages[i].1)|
         && (i == 0 ==> loc.offset == HEADER_SIZE)
         && (i > 0 ==> pages[i - 1].0 in st.index.pages
                       && loc.offset == st.index.pages[pages[i - 1].0].offset + st.index.pages[pages[i - 1].0].length)
         && (i == |pages| - 1 ==> st.header.indexOffset == loc.offset + loc.length)
         && st.header.appendOffset == st.header.indexOffset + st.header.indexLength
  {
    var recs := RecordsOf(c, pages);
    PlacedNew(map[], recs, HEADER_SIZE, i);
    if i > 0 { PlacedNew(map[], recs, HEADER_SIZE, i - 1); }
  }
}
