/** Pages of a table (`table.rs`): size-bounded containers that only ever grow at the end. */
module Pages {
  import opened Prelude
  import opened Values
  import opened Rows

  type PageId = nat

  datatype Page = Page(
    id: PageId,
    capacity: nat,
    used: nat,
    rows: map<RowId, Chain>,
    next: Option<PageId>,
    overflow: bool,
    dirty: bool)

  function NewPage(id: PageId, capacity: nat): Page {
    Page(id, capacity, 0, map[], None, false, false)
  }

  /** Whether a row of `size` bytes may still be appended. */
  predicate HasRoom(p: Page, size: nat) {
    !p.overflow && p.used + size <= p.capacity
  }

  function Append(p: Page, r: RowId, row: Chain, size: nat): Page {
    p.(used := p.used + size, rows := p.rows[r := row], dirty := true)
  }

  /** A continuation of an oversized row: reserved, holding nothing. */
  function Continuation(id: PageId, capacity: nat): Page {
    NewPage(id, capacity).(overflow := true, used := capacity)
  }

  /** Continuations hold no rows, and a row larger than a page is alone on its page. */
  predicate PageOk(p: Page) {
    && (p.overflow ==> p.rows == map[] && p.used >= p.capacity)
    && (p.used > p.capacity ==> forall a, b :: a in p.rows && b in p.rows ==> a == b)
  }

  /** Pages a row of `size` bytes spans. */
  function Span(size: nat, pageSize: nat): nat
    requires pageSize >= 1
  {
    (size + pageSize - 1) / pageSize
  }

  /** That is the size in pages, rounded up. */
  lemma SpanIsCeiling(size: nat, pageSize: nat)
    requires pageSize >= 1 && size >= 1
    ensures Span(size, pageSize) >= 1 && (Span(size, pageSize) - 1) * pageSize < size <= Span(size, pageSize) * pageSize
  {
    var n := size + pageSize - 1;
    assert n == (n / pageSize) * pageSize + n % pageSize;
    assert (n / pageSize - 1) * pageSize == (n / pageSize) * pageSize - pageSize;
  }
}
