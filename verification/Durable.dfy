/** The page file behind a table's cache: every write of the cache is an operation on the bytes of a file. */
module Durable {
  import opened Prelude
  import opened Values
  import opened Pages
  import opened Rows
  import opened PageCache
  import opened TableMaintenance
  import CacheRuns
  import PageBytes
  import PageFile
  import PageCrash
  import PageRuns

  type PageCodec = PageFile.Codec<Page>

  /** The file opens to the pages and row locations the cache takes to be on disk. */
  ghost predicate Backed(codec: PageCodec, d: PageRuns.Disk, c: Cache) {
    PageFile.StoreOk(codec, d.file, d.st, c.disk) && d.st.index.rows == c.diskLocations
  }

  /** The pages of a map in page order. */
  ghost function InOrder(pages: map<PageId, Page>): (s: seq<(PageId, Page)>)
    ensures |s| == |Sorted(pages.Keys)|
    ensures forall i :: 0 <= i < |s| ==> s[i].0 == Sorted(pages.Keys)[i] && s[i].0 in pages && s[i].1 == pages[s[i].0]
  {
    var ids := Sorted(pages.Keys);
    assert forall i :: 0 <= i < |ids| ==> ids[i] in ids;
    seq(|ids|, i requires 0 <= i < |ids| => (ids[i], pages[ids[i]]))
  }

  /** What a cache step does to the file, given what a leftover temporary file holds. */
  ghost function FileWork(c: Cache, op: CacheRuns.CacheOp, tmp: PageBytes.File): Option<PageRuns.FileOp<Page>>
    requires CacheRuns.Allowed(c, op)
  {
    match op
    case Evict(p) =>
      if c.rowSpace[p].dirty || p !in c.onDisk then Some(PageRuns.Merge([(p, c.rowSpace[p])], c.locations)) else None
    case Save(p) => Some(PageRuns.Merge([(p, c.rowSpace[p])], c.locations))
    case Flush => Some(PageRuns.Compact(InOrder(Flushed(c).disk), c.locations, tmp))
    case Restart => Some(PageRuns.Compact(InOrder(Flushed(c).disk), c.locations, tmp))
    case _ => None
  }

  lemma {:induction false} UpdateAllIs(pages: map<PageId, Page>, s: seq<(PageId, Page)>, p: PageId)
    requires forall i :: 0 <= i < |s| ==> s[i].0 in pages && s[i].1 == pages[s[i].0]
    ensures var m := PageFile.UpdateAll(map[], s);
      && (p in m <==> exists i :: 0 <= i < |s| && s[i].0 == p)
      && (p in m ==> p in pages && m[p] == pages[p])
    decreases |s|
  {
    if s != [] {
      var n := |s| - 1;
      UpdateAllIs(pages, s[..n], p);
      if i :| 0 <= i < n && s[i].0 == p { assert s[..n][i].0 == p; }
    }
  }

  /** Writing all pages of a map in order stands for that map. */
  lemma InOrderIsAll(pages: map<PageId, Page>)
    ensures PageFile.UpdateAll(map[], InOrder(pages)) == pages
  {
    var m := PageFile.UpdateAll(map[], InOrder(pages));
    forall p: PageId ensures p in m <==> p in pages { InOrderAt(pages, p); }
    assert m.Keys == pages.Keys;
    forall p | p in m ensures m[p] == pages[p] { InOrderAt(pages, p); }
  }

  lemma InOrderAt(pages: map<PageId, Page>, p: PageId)
    ensures var m := PageFile.UpdateAll(map[], InOrder(pages));
      (p in m <==> p in pages) && (p in m ==> m[p] == pages[p])
  {
    var s, ids := InOrder(pages), Sorted(pages.Keys);
    UpdateAllIs(pages, s, p);
    if p in pages {
      assert p in ids;
      var i :| 0 <= i < |ids| && ids[i] == p;
      assert s[i].0 == p;
    }
  }

  lemma MergeOneIs(m: map<PageId, Page>, p: PageId, page: Page)
    ensures PageFile.UpdateAll(m, [(p, page)]) == m[p := page]
  {
    var s := [(p, page)];
    assert s[..0] == [] && PageFile.UpdateAll(m, s[..0]) == m;
  }

  /** Every cache step keeps the file in agreement, by the file operation it issues or by none. */
  lemma StepStaysBacked(codec: PageCodec, d: PageRuns.Disk, c: Cache, op: CacheRuns.CacheOp, rowSize: Chain -> nat, tmp: PageBytes.File)
    requires PageFile.Faithful(codec) && Backed(codec, d, c) && CacheRuns.Allowed(c, op)
    requires FileWork(c, op, tmp).Some? ==> PageRuns.Writable(codec, d, FileWork(c, op, tmp).value)
    ensures var work := FileWork(c, op, tmp);
      Backed(codec, if work.Some? then PageRuns.FileStep(codec, d, work.value) else d, CacheRuns.CacheStep(c, op, rowSize))
  {
    var work := FileWork(c, op, tmp);
    if work.Some? { PageRuns.FileStepRefines(codec, d, c.disk, work.value); }
    match op
    case Evict(p) => MergeOneIs(c.disk, p, c.rowSpace[p]);
    case Save(p) => MergeOneIs(c.disk, p, c.rowSpace[p]);
    case Flush => InOrderIsAll(Flushed(c).disk);
    case Restart => InOrderIsAll(Flushed(c).disk);
    case _ =>
  }
}
