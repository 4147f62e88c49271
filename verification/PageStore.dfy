/** The page store object: a file and its in-memory index, standing for a map of pages. */
module PageStore {
  import opened Prelude
  import opened PageBytes
  import opened PageFile
  import opened PageCrash

  /** Write each page record where the previous one ended and note where it went. */
  method AppendPages<P(!new)>(codec: Codec<P>, start: File, pages: map<PageId, Location>, updates: seq<(PageId, P)>, offset: nat)
    returns (file: File, index: map<PageId, Location>, stop: nat)
    ensures file == ApplyAll(start, RecordWrites(RecordsOf(codec, updates), offset))
    ensures index == Placed(pages, RecordsOf(codec, updates), offset)
    ensures stop == EndOf(RecordsOf(codec, updates), offset)
  {
    ghost var recs := RecordsOf(codec, updates);
    ghost var writes := RecordWrites(recs, offset);
    file, index, stop := start, pages, offset;
    var i := 0;
    while i < |updates|
      invariant 0 <= i <= |updates|
      invariant Appending(recs, offset, start, pages, i, file, index, stop)
    {
      var bytes := codec.encode(updates[i].1);
      assert recs[i] == Record(updates[i].0, bytes);
      AppendOne(recs, offset, start, pages, i, file, index, stop);
      file := WriteAt(file, stop, bytes);
      index := index[updates[i].0 := Location(stop, |bytes| % TWO32)];
      stop := stop + |bytes|;
      i := i + 1;
    }
    assert writes[..i] == writes && recs[..i] == recs;
  }

  /** The first `i` records have been written and placed. */
  predicate Appending(recs: seq<Record>, offset: nat, start: File, pages: map<PageId, Location>, i: nat,
                      file: File, index: map<PageId, Location>, stop: nat)
    requires i <= |recs|
  {
    && stop == StartOf(recs, offset, i)
    && file == ApplyAll(start, RecordWrites(recs, offset)[..i])
    && index == Placed(pages, recs[..i], offset)
  }

  lemma AppendOne(recs: seq<Record>, offset: nat, start: File, pages: map<PageId, Location>, i: nat,
                  file: File, index: map<PageId, Location>, stop: nat)
    requires i < |recs| && Appending(recs, offset, start, pages, i, file, index, stop)
    ensures Appending(recs, offset, start, pages, i + 1, WriteAt(file, stop, recs[i].bytes),
                      index[recs[i].id := Location(stop, |recs[i].bytes| % TWO32)], stop + |recs[i].bytes|)
  {
    var ws := RecordWrites(recs, offset);
    assert ws[..i + 1][..i] == ws[..i] && ws[..i + 1][i] == Write(stop, recs[i].bytes);
    assert recs[..i + 1][..i] == recs[..i];
    StartOfPrefix(recs, i + 1, offset, i);
  }

  /** Append the pages and the index, then publish the header. */
  method Publish<P(!new)>(codec: Codec<P>, start: File, pages: map<PageId, Location>, updates: seq<(PageId, P)>, offset: nat, rows: map<RowId, PageId>)
    returns (file: File, index: map<PageId, Location>, header: Header)
    ensures file == ApplyAll(start, MergeWrites(codec, pages, RecordsOf(codec, updates), offset, rows))
    ensures State(DiskIndex(index, rows), header) == Appended(codec, pages, RecordsOf(codec, updates), offset, rows)
  {
    ghost var recs := RecordsOf(codec, updates);
    ghost var st := Appended(codec, pages, recs, offset, rows);
    BodyIsPatched(codec, start, pages, recs, offset, rows);
    MergeIsPatchedBody(codec, start, pages, recs, offset, rows);
    var stop;
    file, index, stop := AppendPages(codec, start, pages, updates, offset);
    assert DiskIndex(index, rows) == st.index;
    var indexBytes := codec.encodeIndex(DiskIndex(index, rows));
    header := Header(stop, |indexBytes|, stop + |indexBytes|);
    assert header == st.header;
    file := WriteAt(file, stop, indexBytes);
    assert file == ApplyAll(start, BodyWrites(codec, pages, recs, offset, rows));
    file := WriteAt(file, 0, HeaderBytes(header));
  }

  lemma BodyIsPatched<P(!new)>(c: Codec<P>, f: File, pages: map<PageId, Location>, recs: seq<Record>, offset: nat, rows: map<RowId, PageId>)
    ensures ApplyAll(f, BodyWrites(c, pages, recs, offset, rows)) ==
      WriteAt(ApplyAll(f, RecordWrites(recs, offset)), EndOf(recs, offset), c.encodeIndex(Appended(c, pages, recs, offset, rows).index))
  {
    var ws, body := RecordWrites(recs, offset), BodyWrites(c, pages, recs, offset, rows);
    assert |body| == |ws| + 1 && body[..|ws|] == ws;
  }

  class Store<P(!new)> {
    const codec: Codec<P>
    var file: File
    var index: map<PageId, Location>
    var rowLocations: map<RowId, PageId>
    var header: Header
    var loaded: bool
    /** The last page written under each id. */
    ghost var pages: map<PageId, P>

    ghost function State(): PageFile.State
      reads this
    {
      PageFile.State(DiskIndex(index, rowLocations), header)
    }

    ghost predicate Valid()
      reads this
    {
      && Faithful(codec)
      && if loaded then StoreOk(codec, file, State(), pages)
         else Load(codec, file).Some? && StoreOk(codec, file, Load(codec, file).value, pages)
    }

    /** Open whatever the file holds, lazily. */
    constructor (codec: Codec<P>, file: File, ghost pages: map<PageId, P>)
      requires Faithful(codec) && Load(codec, file).Some? && StoreOk(codec, file, Load(codec, file).value, pages)
      ensures Valid() && this.codec == codec && this.file == file && this.pages == pages && !loaded
    {
      this.codec, this.file, this.pages := codec, file, pages;
      index, rowLocations, header, loaded := map[], map[], Header(0, 0, 0), false;
    }

    method LoadState()
      requires Valid()
      modifies this
      ensures Valid() && loaded && file == old(file) && pages == old(pages)
    {
      if !loaded {
        var st := Load(codec, file).value;
        index, rowLocations, header := st.index.pages, st.index.rows, st.header;
        loaded := true;
      }
    }

    /** The page stored under `p` is the last one written there. */
    method ReadPage(p: PageId) returns (page: Option<P>)
      requires Valid()
      modifies this
      ensures Valid() && file == old(file) && pages == old(pages)
      ensures page == Get(pages, p)
    {
      LoadState();
      if p !in index {
        return None;
      }
      assert PageFile.ReadPage(codec, file, State(), p) == Some(Some(pages[p]));
      var bytes := ReadAt(file, index[p].offset, index[p].length);
      return codec.decode(bytes.value);
    }

    /** Append pages, then the index, then publish the header. */
    method MergePages(updates: seq<(PageId, P)>, rows: map<RowId, PageId>)
      requires Valid() && Sized(RecordsOf(codec, updates)) && DistinctIds(RecordsOf(codec, updates))
      requires Load(codec, file).Some?
      requires var st := Load(codec, file).value;
        Fits(Appended(codec, st.index.pages, RecordsOf(codec, updates), st.header.appendOffset, rows).header)
      modifies this
      ensures Valid() && pages == UpdateAll(old(pages), updates)
      ensures updates != [] ==> loaded && rowLocations == rows
      ensures var st := Load(codec, old(file)).value;
        file == if updates == [] then old(file)
                else ApplyAll(old(file), MergeWrites(codec, st.index.pages, RecordsOf(codec, updates), st.header.appendOffset, rows))
    {
      if updates == [] {
        return;
      }
      LoadState();
      MergeLoaded(updates, rows);
    }

    method MergeLoaded(updates: seq<(PageId, P)>, rows: map<RowId, PageId>)
      requires Valid() && loaded && Sized(RecordsOf(codec, updates)) && DistinctIds(RecordsOf(codec, updates))
      requires Fits(Appended(codec, index, RecordsOf(codec, updates), header.appendOffset, rows).header)
      modifies this
      ensures Valid() && loaded && pages == UpdateAll(old(pages), updates) && rowLocations == rows
      ensures file == ApplyAll(old(file), MergeWrites(codec, old(index), RecordsOf(codec, updates), old(header).appendOffset, rows))
    {
      ghost var st := State();
      var offset := if header.appendOffset < HEADER_SIZE then HEADER_SIZE else header.appendOffset;
      assert offset == st.header.appendOffset;
      MergeRefines(codec, file, st, pages, updates, rows);
      file, index, header := Publish(codec, file, index, updates, offset, rows);
      rowLocations := rows;
      pages := UpdateAll(pages, updates);
    }

    /** Replace the file by a compact one, written over any leftover temporary file. */
    method WriteAll(all: seq<(PageId, P)>, rows: map<RowId, PageId>, tmp: File)
      requires Valid() && Sized(RecordsOf(codec, all)) && DistinctIds(RecordsOf(codec, all))
      requires Fits(CompactState(codec, all, rows).header)
      modifies this
      ensures Valid() && loaded && pages == UpdateAll(map[], all) && rowLocations == rows
      ensures file == CompactFile(codec, tmp, all, rows)
    {
      CompactRefines(codec, tmp, all, rows);
      var blank := WriteAt(tmp, 0, HeaderBytes(Header(HEADER_SIZE, 0, HEADER_SIZE)));
      file, index, header := Publish(codec, blank, map[], all, HEADER_SIZE, rows);
      rowLocations, loaded := rows, true;
      pages := UpdateAll(map[], all);
    }
  }
}
