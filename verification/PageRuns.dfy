/** Whole histories of a page file: merges, merges cut short by a crash, and compact rewrites. */
module PageRuns {
  import opened Prelude
  import opened PageBytes
  import opened PageFile
  import opened PageCrash

  /** `Crash` is a merge that stopped inside write `k`, after `torn` bytes of it, and a reopening. */
  datatype FileOp<P> =
    | Merge(updates: seq<(PageId, P)>, rows: map<RowId, PageId>)
    | Crash(updates: seq<(PageId, P)>, rows: map<RowId, PageId>, k: nat, torn: nat)
    | Compact(pages: seq<(PageId, P)>, rows: map<RowId, PageId>, tmp: File)

  datatype Disk = Disk(file: File, st: State)

  function Body<P(!new)>(c: Codec<P>, d: Disk, updates: seq<(PageId, P)>, rows: map<RowId, PageId>): seq<Write> {
    BodyWrites(c, d.st.index.pages, RecordsOf(c, updates), d.st.header.appendOffset, rows)
  }

  /** Records are non-empty and shorter than 2^32, ids distinct, offsets fit; a crash happens before the header write. */
  ghost predicate Writable<P(!new)>(c: Codec<P>, d: Disk, op: FileOp<P>) {
    match op
    case Merge(updates, rows) =>
      && Sized(RecordsOf(c, updates)) && DistinctIds(RecordsOf(c, updates))
      && Fits(Appended(c, d.st.index.pages, RecordsOf(c, updates), d.st.header.appendOffset, rows).header)
    case Crash(updates, rows, k, torn) =>
      && Sized(RecordsOf(c, updates)) && |d.file| > 0
      && k < |Body(c, d, updates, rows)| && torn <= |Body(c, d, updates, rows)[k].bytes|
    case Compact(pages, rows, _) =>
      && Sized(RecordsOf(c, pages)) && DistinctIds(RecordsOf(c, pages)) && Fits(CompactState(c, pages, rows).header)
  }

  function FileStep<P(!new)>(c: Codec<P>, d: Disk, op: FileOp<P>): Disk
    requires op.Crash? ==> op.k < |Body(c, d, op.updates, op.rows)| && op.torn <= |Body(c, d, op.updates, op.rows)[op.k].bytes|
  {
    match op
    case Merge(updates, rows) =>
      if updates == [] then d
      else
        var recs := RecordsOf(c, updates);
        Disk(ApplyAll(d.file, MergeWrites(c, d.st.index.pages, recs, d.st.header.appendOffset, rows)),
             Appended(c, d.st.index.pages, recs, d.st.header.appendOffset, rows))
    case Crash(updates, rows, k, torn) => Disk(CrashFile(d.file, Body(c, d, updates, rows), k, torn), d.st)
    case Compact(pages, rows, tmp) => Disk(CompactFile(c, tmp, pages, rows), CompactState(c, pages, rows))
  }

  /** What a step means for the page map: an interrupted merge means nothing. */
  function MapStep<P>(m: map<PageId, P>, op: FileOp<P>): map<PageId, P> {
    match op
    case Merge(updates, _) => UpdateAll(m, updates)
    case Crash(_, _, _, _) => m
    case Compact(pages, _, _) => UpdateAll(map[], pages)
  }

  lemma FileStepRefines<P(!new)>(c: Codec<P>, d: Disk, m: map<PageId, P>, op: FileOp<P>)
    requires Faithful(c) && StoreOk(c, d.file, d.st, m) && Writable(c, d, op)
    ensures StoreOk(c, FileStep(c, d, op).file, FileStep(c, d, op).st, MapStep(m, op))
  {
    match op
    case Merge(updates, rows) => if updates != [] { MergeRefines(c, d.file, d.st, m, updates, rows); }
    case Crash(updates, rows, k, torn) => MergeIsCrashAtomic(c, d.file, d.st, m, updates, rows, k, torn);
    case Compact(pages, rows, tmp) => CompactRefines(c, tmp, pages, rows);
  }

  ghost predicate WritableRun<P(!new)>(c: Codec<P>, d: Disk, ops: seq<FileOp<P>>)
    decreases |ops|
  {
    ops == [] || (Writable(c, d, ops[0]) && WritableRun(c, FileStep(c, d, ops[0]), ops[1..]))
  }

  ghost function FileRun<P(!new)>(c: Codec<P>, d: Disk, ops: seq<FileOp<P>>): Disk
    requires WritableRun(c, d, ops)
    decreases |ops|
  {
    if ops == [] then d else FileRun(c, FileStep(c, d, ops[0]), ops[1..])
  }

  function MapRun<P>(m: map<PageId, P>, ops: seq<FileOp<P>>): map<PageId, P>
    decreases |ops|
  {
    if ops == [] then m else MapRun(MapStep(m, ops[0]), ops[1..])
  }

  lemma {:induction false} FileRunKeeps<P(!new)>(c: Codec<P>, d: Disk, m: map<PageId, P>, ops: seq<FileOp<P>>)
    requires Faithful(c) && StoreOk(c, d.file, d.st, m) && WritableRun(c, d, ops)
    ensures StoreOk(c, FileRun(c, d, ops).file, FileRun(c, d, ops).st, MapRun(m, ops))
    decreases |ops|
  {
    if ops != [] {
      FileStepRefines(c, d, m, ops[0]);
      FileRunKeeps(c, FileStep(c, d, ops[0]), MapStep(m, ops[0]), ops[1..]);
    }
  }

  /**
   * From a file that does not exist, after any history with any number of crashes: the file opens,
   * every page reads back as last written by a completed operation, and live records lie apart
   * between the header and the append offset.
   */
  lemma FileRunRefinesMap<P(!new)>(c: Codec<P>, ops: seq<FileOp<P>>, p: PageId)
    requires Faithful(c) && WritableRun(c, Disk([], FreshState), ops)
    ensures var d := FileRun(c, Disk([], FreshState), ops);
      && Load(c, d.file) == Some(d.st)
      && ReadPage(c, d.file, d.st, p) == Some(Get(MapRun(map[], ops), p))
      && (|d.file| > 0 ==> Laid(d.st, |d.file|))
  {
    var start: map<PageId, P> := map[];
    assert StoreOk(c, [], FreshState, start);
    FileRunKeeps(c, Disk([], FreshState), start, ops);
  }
}
