/** LRU eviction: which pages leave, in which order, and when it stops. */
module Eviction {
  import opened Prelude
  import opened Values
  import opened Rows
  import opened Pages
  import opened PageCache

  /** `ids` are the least recently used pages, the pinned page aside. */
  ghost predicate Oldest(ids: set<PageId>, lru: map<PageId, nat>, pinned: Option<PageId>) {
    && ids <= lru.Keys && (pinned.Some? ==> pinned.value !in ids)
    && forall a: PageId, b: PageId :: Older(ids, lru, pinned, a, b)
  }

  predicate Older(ids: set<PageId>, lru: map<PageId, nat>, pinned: Option<PageId>, a: PageId, b: PageId)
    requires ids <= lru.Keys
  {
    a in ids && b in lru && b !in ids && Some(b) != pinned ==> lru[a] < lru[b]
  }

  ghost function TotalBytes(ids: set<PageId>, pages: map<PageId, Page>, pageBytes: Page -> nat): nat
    requires ids <= pages.Keys
  {
    if ids == {} then 0
    else
      var p :| p in ids;
      pageBytes(pages[p]) + TotalBytes(ids - {p}, pages, pageBytes)
  }

  lemma {:induction false} TotalBytesRemove(ids: set<PageId>, pages: map<PageId, Page>, pageBytes: Page -> nat, x: PageId)
    requires ids <= pages.Keys && x in ids
    ensures TotalBytes(ids, pages, pageBytes) == pageBytes(pages[x]) + TotalBytes(ids - {x}, pages, pageBytes)
    decreases |ids|
  {
    var p :| p in ids && TotalBytes(ids, pages, pageBytes) == pageBytes(pages[p]) + TotalBytes(ids - {p}, pages, pageBytes);
    if p != x {
      TotalBytesRemove(ids - {p}, pages, pageBytes, x);
      assert ids - {p} - {x} == ids - {x} - {p};
      TotalBytesRemove(ids - {x}, pages, pageBytes, p);
    }
  }

  /** What the 64-bit counter shows once the pages `ids` have been taken off it. */
  ghost function CounterAfter(used: nat, ids: set<PageId>, pages: map<PageId, Page>, pageBytes: Page -> nat): nat
    requires ids <= pages.Keys
  {
    (used - TotalBytes(ids, pages, pageBytes)) % TWO64
  }

  /** Every smaller choice of least recently used pages would have left the counter above the limit. */
  ghost predicate NoneSooner(ids: set<PageId>, lru: map<PageId, nat>, pages: map<PageId, Page>,
                             pinned: Option<PageId>, used: nat, limit: nat, pageBytes: Page -> nat)
    requires lru.Keys == pages.Keys
  {
    forall f: set<PageId> :: Oldest(f, lru, pinned) && f < ids ==> CounterAfter(used, f, pages, pageBytes) > limit
  }

  /** A page not used more recently than any other unpinned resident page. */
  ghost predicate IsVictim(v: PageId, lru: map<PageId, nat>, pinned: Option<PageId>) {
    v in lru && Some(v) != pinned && forall q: PageId :: NotNewer(v, lru, pinned, q)
  }

  predicate NotNewer(v: PageId, lru: map<PageId, nat>, pinned: Option<PageId>, q: PageId)
    requires v in lru
  {
    q in lru && Some(q) != pinned ==> lru[v] <= lru[q]
  }

  /** Two sets of least recently used pages are nested: eviction has no choice. */
  lemma OldestNested(f: set<PageId>, g: set<PageId>, lru: map<PageId, nat>, pinned: Option<PageId>)
    requires Oldest(f, lru, pinned) && Oldest(g, lru, pinned)
    ensures f <= g || g <= f
  {
    if !(f <= g) {
      var a :| a in f && a !in g;
      forall b | b in g ensures b in f {
        assert Older(g, lru, pinned, b, a) && Older(f, lru, pinned, a, b);
      }
    }
  }

  lemma OldestGrows(ids: set<PageId>, lru: map<PageId, nat>, rest: map<PageId, nat>, pinned: Option<PageId>, v: PageId)
    requires Oldest(ids, lru, pinned) && rest == lru - ids && IsVictim(v, rest, pinned)
    requires forall p: PageId, q: PageId :: OwnMoment(lru, p, q)
    ensures Oldest(ids + {v}, lru, pinned)
  {
    forall a: PageId, b: PageId ensures Older(ids + {v}, lru, pinned, a, b) {
      assert Older(ids, lru, pinned, a, b) && NotNewer(v, rest, pinned, b) && OwnMoment(lru, v, b);
    }
  }

  lemma NoneSoonerGrows(ids: set<PageId>, lru: map<PageId, nat>, pages: map<PageId, Page>,
                        pinned: Option<PageId>, used: nat, limit: nat, pageBytes: Page -> nat, v: PageId)
    requires lru.Keys == pages.Keys && NoneSooner(ids, lru, pages, pinned, used, limit, pageBytes)
    requires Oldest(ids, lru, pinned) && v !in ids && CounterAfter(used, ids, pages, pageBytes) > limit
    ensures NoneSooner(ids + {v}, lru, pages, pinned, used, limit, pageBytes)
  {
    forall f: set<PageId> | Oldest(f, lru, pinned) && f < ids + {v} ensures CounterAfter(used, f, pages, pageBytes) > limit {
      OldestNested(f, ids, lru, pinned);
      ProperBelow(f, ids, v);
    }
  }

  lemma ProperBelow(f: set<PageId>, ids: set<PageId>, v: PageId)
    requires f < ids + {v} && (f <= ids || ids <= f)
    ensures f == ids || f < ids
  {
  }

  lemma CounterStep(ids: set<PageId>, pages: map<PageId, Page>, v: PageId, used: nat, pageBytes: Page -> nat)
    requires ids <= pages.Keys && v in pages && v !in ids
    ensures (CounterAfter(used, ids, pages, pageBytes) - pageBytes(pages[v])) % TWO64 == CounterAfter(used, ids + {v}, pages, pageBytes)
  {
    TotalBytesRemove(ids + {v}, pages, pageBytes, v);
    assert ids + {v} - {v} == ids;
    SubMod(used - TotalBytes(ids, pages, pageBytes), pageBytes(pages[v]));
  }

  lemma SubMod(a: int, b: int)
    ensures (a % TWO64 - b) % TWO64 == (a - b) % TWO64
  {
    var q := a / TWO64;
    assert a == q * TWO64 + a % TWO64;
    ModShift(a % TWO64 - b, q);
  }

  lemma ModShift(x: int, q: int)
    ensures (x + q * TWO64) % TWO64 == x % TWO64
  {
    var y := x + q * TWO64;
    assert y == (x / TWO64 + q) * TWO64 + x % TWO64;
  }

  // ---- What a whole eviction loop leaves ------------------------------------------------------------

  /** The pages `gone` are a right choice, and `left` is what the counter then shows. */
  ghost predicate Choice(gone: set<PageId>, lru: map<PageId, nat>, pages: map<PageId, Page>, used: nat, left: nat,
                         pinned: Option<PageId>, limit: nat, pageBytes: Page -> nat) {
    && lru.Keys == pages.Keys && Oldest(gone, lru, pinned) && left == CounterAfter(used, gone, pages, pageBytes)
    && NoneSooner(gone, lru, pages, pinned, used, limit, pageBytes)
  }

  function Gone(before: Cache, now: Cache): set<PageId> { before.rowSpace.Keys - now.rowSpace.Keys }

  /** `now` is `before` without some resident pages. */
  predicate Without(before: Cache, now: Cache) {
    && now.rowSpace == before.rowSpace - Gone(before, now) && now.lru == before.lru - Gone(before, now)
    && now.locations == before.locations && now.clock == before.clock && now.pageSize == before.pageSize
    && now.nextPage == before.nextPage && now.nextRow == before.nextRow
  }

  /**
   * `now` is `before` without its least recently used pages, no more of them than it took to bring
   * the counter from `used` down to the limit.
   */
  ghost predicate Shed(before: Cache, used: nat, now: Cache, left: nat, pinned: Option<PageId>, limit: nat, pageBytes: Page -> nat) {
    Without(before, now) && Choice(Gone(before, now), before.lru, before.rowSpace, used, left, pinned, limit, pageBytes)
  }

  /** The loop is over. */
  predicate Settled(c: Cache, used: nat, pinned: Option<PageId>, limit: nat) {
    limit == 0 || used <= limit || forall p :: p in c.rowSpace ==> Some(p) == pinned
  }

  lemma ShedNothing(c: Cache, used: nat, pinned: Option<PageId>, limit: nat, pageBytes: Page -> nat)
    requires c.lru.Keys == c.rowSpace.Keys && used < TWO64
    ensures Shed(c, used, c, used, pinned, limit, pageBytes)
  {
    assert c.rowSpace.Keys - c.rowSpace.Keys == {};
    assert c.rowSpace - {} == c.rowSpace && c.lru - {} == c.lru;
  }

  lemma EvictedWithout(before: Cache, now: Cache, v: PageId)
    requires Without(before, now) && v in now.rowSpace
    ensures Without(before, Evicted(now, v)) && Gone(before, Evicted(now, v)) == Gone(before, now) + {v}
    ensures now.rowSpace[v] == before.rowSpace[v] && v !in Gone(before, now)
  {
    var gone, out := Gone(before, now), Evicted(now, v);
    assert out.rowSpace == before.rowSpace - (gone + {v});
    assert Gone(before, out) == gone + {v};
    assert out.lru == before.lru - (gone + {v});
  }

  lemma ChoiceGrows(gone: set<PageId>, lru: map<PageId, nat>, rest: map<PageId, nat>, pages: map<PageId, Page>, used: nat, left: nat,
                    pinned: Option<PageId>, limit: nat, pageBytes: Page -> nat, v: PageId)
    requires Choice(gone, lru, pages, used, left, pinned, limit, pageBytes) && left > limit
    requires rest == lru - gone && IsVictim(v, rest, pinned)
    requires forall p: PageId, q: PageId :: OwnMoment(lru, p, q)
    ensures Choice(gone + {v}, lru, pages, used, (left - pageBytes(pages[v])) % TWO64, pinned, limit, pageBytes)
  {
    OldestGrows(gone, lru, rest, pinned, v);
    NoneSoonerGrows(gone, lru, pages, pinned, used, limit, pageBytes, v);
    CounterStep(gone, pages, v, used, pageBytes);
  }

  /** One more round of the loop. */
  lemma ShedOneMore(before: Cache, used: nat, now: Cache, left: nat, pinned: Option<PageId>, limit: nat, pageBytes: Page -> nat, v: PageId)
    requires Shed(before, used, now, left, pinned, limit, pageBytes) && left > limit && Tracked(before)
    requires IsVictim(v, now.lru, pinned) && v in now.rowSpace
    ensures Shed(before, used, Evicted(now, v), (left - pageBytes(now.rowSpace[v])) % TWO64, pinned, limit, pageBytes)
  {
    EvictedWithout(before, now, v);
    ChoiceGrows(Gone(before, now), before.lru, now.lru, before.rowSpace, used, left, pinned, limit, pageBytes, v);
  }

  /** Dropping some of the least recently used pages, but not `n`, is enough to meet the limit. */
  ghost predicate Spares(c: Cache, used: nat, limit: nat, pageBytes: Page -> nat, n: PageId)
    requires c.lru.Keys == c.rowSpace.Keys
  {
    limit == 0 || exists f: set<PageId> :: Oldest(f, c.lru, None) && n !in f && CounterAfter(used, f, c.rowSpace, pageBytes) <= limit
  }

  /** An unpinned page survives exactly when less recently used ones suffice. */
  lemma SurvivesIff(before: Cache, used: nat, now: Cache, left: nat, limit: nat, pageBytes: Page -> nat, n: PageId)
    requires Shed(before, used, now, left, None, limit, pageBytes) && Settled(now, left, None, limit) && n in before.rowSpace
    requires limit == 0 ==> now == before
    ensures n in now.rowSpace <==> Spares(before, used, limit, pageBytes, n)
  {
    var gone := Gone(before, now);
    if limit > 0 && Spares(before, used, limit, pageBytes, n) {
      var f: set<PageId> :| Oldest(f, before.lru, None) && n !in f && CounterAfter(used, f, before.rowSpace, pageBytes) <= limit;
      OldestNested(f, gone, before.lru, None);
    }
  }

  /** What the eviction loop keeps. */
  ghost predicate Shedding(before: Cache, used: nat, now: Cache, left: nat, pinned: Option<PageId>, limit: nat, pageBytes: Page -> nat) {
    CacheOk(now) && AllMayLeave(now) && left < TWO64 && View(now) == View(before) && Shed(before, used, now, left, pinned, limit, pageBytes)
  }

  lemma ShedRound(before: Cache, used: nat, now: Cache, left: nat, pinned: Option<PageId>, limit: nat, pageBytes: Page -> nat, v: PageId)
    requires Tracked(before) && Shedding(before, used, now, left, pinned, limit, pageBytes) && left > limit
    requires IsVictim(v, now.lru, pinned) && v in now.rowSpace
    ensures Shedding(before, used, Evicted(now, v), (left - pageBytes(now.rowSpace[v])) % TWO64, pinned, limit, pageBytes)
    ensures Evicted(now, v).rowSpace.Keys < now.rowSpace.Keys
  {
    assert MayLeave(now, v);
    EvictKeeps(now, v);
    ShedOneMore(before, used, now, left, pinned, limit, pageBytes, v);
  }

  // ---- The loop as a function -----------------------------------------------------------------------

  /** A cache and the 64-bit counter of its bytes. */
  datatype Held = Held(cache: Cache, used: nat)

  /** When the pages that may be evicted were last used. */
  ghost function Moments(lru: map<PageId, nat>, pinned: Option<PageId>): set<nat> {
    set p | p in lru && Some(p) != pinned :: lru[p]
  }

  ghost function Victim(lru: map<PageId, nat>, pinned: Option<PageId>): (v: PageId)
    requires Moments(lru, pinned) != {}
    ensures IsVictim(v, lru, pinned)
  {
    var v :| v in lru && Some(v) != pinned && lru[v] == MinOf(Moments(lru, pinned));
    assert forall q :: q in lru && Some(q) != pinned ==> lru[q] in Moments(lru, pinned);
    v
  }

  lemma VictimUnique(lru: map<PageId, nat>, pinned: Option<PageId>, v: PageId)
    requires IsVictim(v, lru, pinned) && forall p: PageId, q: PageId :: OwnMoment(lru, p, q)
    ensures Moments(lru, pinned) != {} && Victim(lru, pinned) == v
  {
    assert lru[v] in Moments(lru, pinned);
    var w := Victim(lru, pinned);
    assert NotNewer(v, lru, pinned, w) && NotNewer(w, lru, pinned, v) && OwnMoment(lru, v, w);
  }

  ghost function EvictVictim(h: Held, pinned: Option<PageId>, pageBytes: Page -> nat): Held
    requires h.cache.lru.Keys == h.cache.rowSpace.Keys && Moments(h.cache.lru, pinned) != {}
  {
    var v := Victim(h.cache.lru, pinned);
    Held(Evicted(h.cache, v), (h.used - pageBytes(h.cache.rowSpace[v])) % TWO64)
  }

  /** Evict the least recently used unpinned page until the counter is within the limit. */
  ghost function ShedAll(h: Held, pinned: Option<PageId>, limit: nat, pageBytes: Page -> nat): (r: Held)
    requires h.cache.lru.Keys == h.cache.rowSpace.Keys
    ensures r.cache.lru.Keys == r.cache.rowSpace.Keys
    decreases h.cache.rowSpace.Keys
  {
    if limit == 0 || h.used <= limit || Moments(h.cache.lru, pinned) == {} then h
    else ShedAll(EvictVictim(h, pinned, pageBytes), pinned, limit, pageBytes)
  }

  lemma EvictVictimKeeps(before: Cache, used: nat, h: Held, pinned: Option<PageId>, limit: nat, pageBytes: Page -> nat)
    requires Tracked(before) && Shedding(before, used, h.cache, h.used, pinned, limit, pageBytes) && h.used > limit
    requires h.cache.lru.Keys == h.cache.rowSpace.Keys && Moments(h.cache.lru, pinned) != {}
    ensures var n := EvictVictim(h, pinned, pageBytes);
      Shedding(before, used, n.cache, n.used, pinned, limit, pageBytes) && n.cache.rowSpace.Keys < h.cache.rowSpace.Keys
  {
    ShedRound(before, used, h.cache, h.used, pinned, limit, pageBytes, Victim(h.cache.lru, pinned));
  }

  /** What the loop leaves of a sound cache whose pages may leave. */
  lemma {:induction false} ShedAllKeeps(before: Cache, used: nat, h: Held, pinned: Option<PageId>, limit: nat, pageBytes: Page -> nat)
    requires Tracked(before) && Shedding(before, used, h.cache, h.used, pinned, limit, pageBytes) && limit > 0
    ensures var r := ShedAll(h, pinned, limit, pageBytes);
      Shedding(before, used, r.cache, r.used, pinned, limit, pageBytes) && Settled(r.cache, r.used, pinned, limit)
    decreases h.cache.rowSpace.Keys
  {
    if h.used > limit {
      if Moments(h.cache.lru, pinned) == {} {
        NobodyLeft(h.cache.lru, pinned);
      } else {
        EvictVictimKeeps(before, used, h, pinned, limit, pageBytes);
        ShedAllKeeps(before, used, EvictVictim(h, pinned, pageBytes), pinned, limit, pageBytes);
      }
    }
  }

  lemma NobodyLeft(lru: map<PageId, nat>, pinned: Option<PageId>)
    ensures Moments(lru, pinned) == {} <==> forall p :: p in lru ==> Some(p) == pinned
  {
    forall p | p in lru && Some(p) != pinned ensures Moments(lru, pinned) != {} { assert lru[p] in Moments(lru, pinned); }
  }
}
