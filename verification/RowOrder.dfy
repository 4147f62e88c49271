/** ORDER BY (`Table::search`): rows arranged by several columns, ties staying in the order they were found. */
module RowOrder {
  import opened Prelude
  import opened Values
  import opened SearchExpressions
  import opened Conditions

  /** One ORDER BY column. */
  datatype SortKey = SortKey(column: ColumnId, descending: bool)

  /** A row found, with the data the transaction reads. */
  datatype Hit = Hit(row: RowId, data: RowData)

  /** What a row shows in a column; nothing counts as NULL. */
  function At(h: Hit, k: SortKey): Value { if k.column in h.data then h.data[k.column] else Null }

  /** Whether `a` must come before `b`: decided by the first column in which they differ. */
  predicate Before(a: Hit, b: Hit, keys: seq<SortKey>) {
    if keys == [] then false
    else
      var x, y := At(a, keys[0]), At(b, keys[0]);
      if x == y then Before(a, b, keys[1..])
      else if keys[0].descending then Less(y, x) else Less(x, y)
  }

  /** The row put into an arranged sequence, behind the rows that must come before it. */
  function Inserted(x: Hit, ys: seq<Hit>, keys: seq<SortKey>): seq<Hit> {
    if ys != [] && Before(ys[0], x, keys) then [ys[0]] + Inserted(x, ys[1..], keys) else [x] + ys
  }

  /** The stable arrangement. */
  function Arranged(xs: seq<Hit>, keys: seq<SortKey>): seq<Hit> {
    if xs == [] then [] else Inserted(xs[0], Arranged(xs[1..], keys), keys)
  }

  /** Without ORDER BY rows stay as found. */
  lemma {:induction false} Unordered(xs: seq<Hit>)
    ensures Arranged(xs, []) == xs
    decreases |xs|
  {
    if xs != [] { Unordered(xs[1..]); }
  }

  // ---- The order ------------------------------------------------------------------------------------

  /** `a` and `b` show the same in the first `k` columns, and in column `k` the one that sorts first. */
  ghost predicate DecidedAt(a: Hit, b: Hit, keys: seq<SortKey>, k: nat) {
    && k < |keys| && (forall j :: 0 <= j < k ==> At(a, keys[j]) == At(b, keys[j]))
    && Compare(if keys[k].descending then GreaterThan else LessThan, At(a, keys[k]), At(b, keys[k]))
  }

  lemma {:induction false} BeforeIff(a: Hit, b: Hit, keys: seq<SortKey>)
    ensures Before(a, b, keys) <==> exists k: nat :: DecidedAt(a, b, keys, k)
    decreases |keys|
  {
    if keys != [] {
      var rest := keys[1..];
      OrderIsTotal(At(a, keys[0]), At(b, keys[0]));
      if At(a, keys[0]) == At(b, keys[0]) {
        BeforeIff(a, b, rest);
        forall k: nat ensures DecidedAt(a, b, keys, k + 1) <==> DecidedAt(a, b, rest, k) {
          assert forall j :: 0 < j < |keys| ==> keys[j] == rest[j - 1];
        }
        if k: nat :| DecidedAt(a, b, keys, k) { assert DecidedAt(a, b, rest, k - 1); }
      } else {
        assert Before(a, b, keys) ==> DecidedAt(a, b, keys, 0);
      }
    }
  }

  lemma {:induction false} BeforeIsOneWay(a: Hit, b: Hit, keys: seq<SortKey>)
    ensures !(Before(a, b, keys) && Before(b, a, keys))
    decreases |keys|
  {
    if keys != [] {
      OrderIsTotal(At(a, keys[0]), At(b, keys[0]));
      BeforeIsOneWay(a, b, keys[1..]);
    }
  }

  /** Not having to come after is transitive. */
  lemma {:induction false} NotAfterIsTransitive(a: Hit, b: Hit, c: Hit, keys: seq<SortKey>)
    requires !Before(b, a, keys) && !Before(c, b, keys)
    ensures !Before(c, a, keys)
    decreases |keys|
  {
    if keys != [] {
      var x, y, z := At(a, keys[0]), At(b, keys[0]), At(c, keys[0]);
      OrderIsTotal(x, y);
      OrderIsTotal(y, z);
      OrderIsTotal(x, z);
      if x == y == z {
        NotAfterIsTransitive(a, b, c, keys[1..]);
      } else if Less(x, y) && Less(y, z) {
        ComparisonIsTransitive(x, y, z);
      } else if Less(z, y) && Less(y, x) {
        ComparisonIsTransitive(z, y, x);
      }
    }
  }

  // ---- The arrangement ------------------------------------------------------------------------------

  /** Row `p` of the rows found must come before row `q`, or need not come after it and was found first. */
  ghost predicate Sooner(xs: seq<Hit>, keys: seq<SortKey>, p: nat, q: nat)
    requires p < |xs| && q < |xs|
  {
    Before(xs[p], xs[q], keys) || (!Before(xs[q], xs[p], keys) && p < q)
  }

  /** `at` lists every position of `xs` once, sooner rows first. */
  ghost predicate InTurn(xs: seq<Hit>, keys: seq<SortKey>, at: seq<nat>) {
    && |at| == |xs| && Distinct(at) && (forall k :: 0 <= k < |at| ==> at[k] < |xs|)
    && forall k, l :: 0 <= k < l < |at| ==> Sooner(xs, keys, at[k], at[l])
  }

  /** `ys` is `xs` taken at the positions `at`. */
  predicate TakenAt(ys: seq<Hit>, xs: seq<Hit>, at: seq<nat>) {
    |ys| == |at| && forall k :: 0 <= k < |at| ==> at[k] < |xs| && ys[k] == xs[at[k]]
  }

  /** Inserting puts the row at some place: the rows before it must come before it, the next one need not. */
  lemma {:induction false} InsertedAt(x: Hit, ys: seq<Hit>, keys: seq<SortKey>) returns (k: nat)
    ensures k <= |ys| && Inserted(x, ys, keys) == ys[..k] + [x] + ys[k..]
    ensures (forall i :: 0 <= i < k ==> Before(ys[i], x, keys)) && (k < |ys| ==> !Before(ys[k], x, keys))
    decreases |ys|
  {
    k := 0;
    if ys != [] && Before(ys[0], x, keys) {
      var j := InsertedAt(x, ys[1..], keys);
      k := j + 1;
      assert ys[..k] == [ys[0]] + ys[1..][..j] && ys[k..] == ys[1..][j..];
    }
  }

  /** Positions in the rest of a sequence, seen from the whole. */
  function Shifted(at: seq<nat>): (r: seq<nat>)
    ensures |r| == |at| && forall i :: 0 <= i < |at| ==> r[i] == at[i] + 1
  {
    seq(|at|, i requires 0 <= i < |at| => at[i] + 1)
  }

  lemma ShiftedSooner(xs: seq<Hit>, keys: seq<SortKey>, p: nat, q: nat)
    requires p + 1 < |xs| && q + 1 < |xs|
    ensures Sooner(xs, keys, p + 1, q + 1) <==> Sooner(xs[1..], keys, p, q)
  {
  }

  /** Place `i` of a sequence, before another element was put in at place `k`. */
  function Place(i: nat, k: nat): nat
    requires i != k
  {
    if i < k then i else i - 1
  }

  /** ORDER BY returns every row found once, in the order of the columns, and ties in the order found. */
  lemma {:induction false} ArrangedInTurn(xs: seq<Hit>, keys: seq<SortKey>) returns (at: seq<nat>)
    ensures InTurn(xs, keys, at) && TakenAt(Arranged(xs, keys), xs, at)
    decreases |xs|
  {
    at := [];
    if xs != [] {
      var rest, ys := xs[1..], Arranged(xs[1..], keys);
      var before := ArrangedInTurn(rest, keys);
      var k := InsertedAt(xs[0], ys, keys);
      at := Shifted(before)[..k] + [0] + Shifted(before)[k..];
      HeadInTurn(xs, keys, ys, before, k, at);
      HeadTaken(xs, ys, before, k, at);
    }
  }

  /** Where the first row goes among the arranged others. */
  lemma HeadInTurn(xs: seq<Hit>, keys: seq<SortKey>, ys: seq<Hit>, before: seq<nat>, k: nat, at: seq<nat>)
    requires xs != [] && InTurn(xs[1..], keys, before) && TakenAt(ys, xs[1..], before) && k <= |before|
    requires (forall i :: 0 <= i < k ==> Before(ys[i], xs[0], keys)) && (k < |ys| ==> !Before(ys[k], xs[0], keys))
    requires at == Shifted(before)[..k] + [0] + Shifted(before)[k..]
    ensures InTurn(xs, keys, at)
  {
    forall i | 0 <= i < |at| ensures at[i] == if i == k then 0 else before[Place(i, k)] + 1 {}
    forall i, j | 0 <= i < j < |at| ensures Sooner(xs, keys, at[i], at[j]) && at[i] != at[j] {
      PairInTurn(xs, keys, ys, before, k, i, j);
    }
  }

  lemma HeadTaken(xs: seq<Hit>, ys: seq<Hit>, before: seq<nat>, k: nat, at: seq<nat>)
    requires xs != [] && TakenAt(ys, xs[1..], before) && k <= |before|
    requires at == Shifted(before)[..k] + [0] + Shifted(before)[k..]
    ensures TakenAt(ys[..k] + [xs[0]] + ys[k..], xs, at)
  {
  }

  lemma PairInTurn(xs: seq<Hit>, keys: seq<SortKey>, ys: seq<Hit>, before: seq<nat>, k: nat, i: nat, j: nat)
    requires xs != [] && InTurn(xs[1..], keys, before) && TakenAt(ys, xs[1..], before) && k <= |before|
    requires (forall i :: 0 <= i < k ==> Before(ys[i], xs[0], keys)) && (k < |ys| ==> !Before(ys[k], xs[0], keys))
    requires i < j <= |before|
    ensures var p, q := if i == k then 0 else before[Place(i, k)] + 1, if j == k then 0 else before[Place(j, k)] + 1;
      p < |xs| && q < |xs| && Sooner(xs, keys, p, q) && p != q
  {
    if i != k && j != k {
      assert Sooner(xs[1..], keys, before[Place(i, k)], before[Place(j, k)]);
      ShiftedSooner(xs, keys, before[Place(i, k)], before[Place(j, k)]);
    } else if j == k {
      SoonerThanHead(xs, keys, ys, before, i);
    } else {
      LaterIsNotBefore(xs, keys, ys, before, k, j - 1);
      HeadIsSooner(xs, keys, ys, before, j - 1);
    }
  }

  lemma SoonerThanHead(xs: seq<Hit>, keys: seq<SortKey>, ys: seq<Hit>, before: seq<nat>, i: nat)
    requires xs != [] && TakenAt(ys, xs[1..], before) && i < |before| && Before(ys[i], xs[0], keys)
    ensures before[i] + 1 < |xs| && Sooner(xs, keys, before[i] + 1, 0)
  {
    assert ys[i] == xs[before[i] + 1];
  }

  lemma HeadIsSooner(xs: seq<Hit>, keys: seq<SortKey>, ys: seq<Hit>, before: seq<nat>, j: nat)
    requires xs != [] && TakenAt(ys, xs[1..], before) && j < |before| && !Before(ys[j], xs[0], keys)
    ensures before[j] + 1 < |xs| && Sooner(xs, keys, 0, before[j] + 1)
  {
    assert ys[j] == xs[before[j] + 1];
  }

  lemma LaterIsNotBefore(xs: seq<Hit>, keys: seq<SortKey>, ys: seq<Hit>, before: seq<nat>, k: nat, j: nat)
    requires xs != [] && InTurn(xs[1..], keys, before) && TakenAt(ys, xs[1..], before) && k <= j < |ys|
    requires !Before(ys[k], xs[0], keys)
    ensures !Before(ys[j], xs[0], keys)
  {
    if k < j {
      assert Sooner(xs[1..], keys, before[k], before[j]);
      BeforeIsOneWay(ys[k], ys[j], keys);
      NotAfterIsTransitive(xs[0], ys[k], ys[j], keys);
    }
  }

  /** There is only one such arrangement. */
  lemma OnlyArrangement(xs: seq<Hit>, keys: seq<SortKey>, ys: seq<Hit>, at: seq<nat>)
    requires InTurn(xs, keys, at) && TakenAt(ys, xs, at)
    ensures ys == Arranged(xs, keys)
  {
    var own := ArrangedInTurn(xs, keys);
    AllPositions(at, |xs|);
    AllPositions(own, |xs|);
    SameTurns(xs, keys, at, own);
  }

  lemma AllPositions(at: seq<nat>, n: nat)
    requires |at| == n && Distinct(at) && forall k :: 0 <= k < n ==> at[k] < n
    ensures Elements(at) == UpTo(n)
  {
    DistinctSize(at);
    SubsetOfSameSize(Elements(at), UpTo(n));
  }

  function UpTo(n: nat): (s: set<nat>)
    ensures |s| == n && forall p: nat :: p in s <==> p < n
  {
    if n == 0 then {} else UpTo(n - 1) + {n - 1}
  }

  lemma SubsetOfSameSize(a: set<nat>, b: set<nat>)
    requires a <= b && |a| == |b|
    ensures a == b
  {
    assert b == a + (b - a);
  }

  /** Two lists of the same positions, both with sooner rows first, are the same list. */
  lemma {:induction false} SameTurns(xs: seq<Hit>, keys: seq<SortKey>, at: seq<nat>, bt: seq<nat>)
    requires Distinct(at) && Distinct(bt) && Elements(at) == Elements(bt)
    requires forall k :: 0 <= k < |at| ==> at[k] < |xs|
    requires forall k :: 0 <= k < |bt| ==> bt[k] < |xs|
    requires forall k, l :: 0 <= k < l < |at| ==> Sooner(xs, keys, at[k], at[l])
    requires forall k, l :: 0 <= k < l < |bt| ==> Sooner(xs, keys, bt[k], bt[l])
    ensures at == bt
    decreases |at|
  {
    DistinctSize(at);
    DistinctSize(bt);
    if at != [] {
      SameFirst(xs, keys, at, bt);
      TailElements(at);
      TailElements(bt);
      SameTurns(xs, keys, at[1..], bt[1..]);
    }
  }

  lemma SameFirst(xs: seq<Hit>, keys: seq<SortKey>, at: seq<nat>, bt: seq<nat>)
    requires at != [] && bt != [] && Elements(at) == Elements(bt)
    requires forall k :: 0 <= k < |at| ==> at[k] < |xs|
    requires forall k :: 0 <= k < |bt| ==> bt[k] < |xs|
    requires forall k, l :: 0 <= k < l < |at| ==> Sooner(xs, keys, at[k], at[l])
    requires forall k, l :: 0 <= k < l < |bt| ==> Sooner(xs, keys, bt[k], bt[l])
    ensures at[0] == bt[0]
  {
    assert at[0] in Elements(bt) && bt[0] in Elements(at);
    var j :| 0 <= j < |bt| && bt[j] == at[0];
    var i :| 0 <= i < |at| && at[i] == bt[0];
    if i > 0 && j > 0 {
      assert Sooner(xs, keys, at[0], at[i]) && Sooner(xs, keys, bt[0], bt[j]);
      BeforeIsOneWay(xs[at[0]], xs[bt[0]], keys);
    }
  }

  lemma TailElements(at: seq<nat>)
    requires at != [] && Distinct(at)
    ensures Distinct(at[1..]) && Elements(at[1..]) == Elements(at) - {at[0]}
  {
    forall x | x in at && x != at[0] ensures x in at[1..] {
      var i :| 0 <= i < |at| && at[i] == x;
      assert at[1..][i - 1] == x;
    }
    forall x | x in at[1..] ensures x in at && x != at[0] {
      var i :| 0 <= i < |at[1..]| && at[1..][i] == x;
      assert at[i + 1] == x;
    }
  }
}
