/** Small shared vocabulary: optional values, results, and minima of finite sets. */
module Prelude {

  datatype Option<+T> = None | Some(value: T)

  datatype Result<+T, +E> = Ok(value: T) | Err(error: E)

  /** The value stored under `k`, if any. */
  function Get<K, V>(m: map<K, V>, k: K): Option<V> {
    if k in m then Some(m[k]) else None
  }

  /** The least element of a non-empty finite set. */
  ghost function MinOf(s: set<nat>): (m: nat)
    requires s != {}
    ensures m in s && forall x :: x in s ==> m <= x
  {
    var x :| x in s;
    if s == {x} then x
    else
      assert s == (s - {x}) + {x};
      var rest := MinOf(s - {x});
      if rest < x then rest else x
  }

  /** A set has only one least element. */
  lemma MinOfUnique(s: set<nat>, m: nat)
    requires m in s && forall x :: x in s ==> m <= x
    ensures MinOf(s) == m
  {
  }

  /** The greatest element of a non-empty finite set. */
  ghost function MaxOf(s: set<nat>): (m: nat)
    requires s != {}
    ensures m in s && forall x :: x in s ==> x <= m
  {
    var x :| x in s;
    if s == {x} then x
    else
      assert s == (s - {x}) + {x};
      var rest := MaxOf(s - {x});
      if rest > x then rest else x
  }

  predicate Ascending(xs: seq<nat>) {
    forall i, j :: 0 <= i < j < |xs| ==> xs[i] < xs[j]
  }

  /** The elements of a set in ascending order, as an ordered map or set iterates over them. */
  ghost function Sorted(s: set<nat>): (xs: seq<nat>)
    ensures Ascending(xs) && forall x :: x in xs <==> x in s
  {
    if s == {} then []
    else
      var m := MinOf(s);
      var rest := Sorted(s - {m});
      assert forall i :: 0 <= i < |rest| ==> rest[i] in s - {m};
      [m] + rest
  }

  function Elements(xs: seq<nat>): set<nat> { set x | x in xs }

  lemma ElementsSnoc(xs: seq<nat>, x: nat)
    ensures Elements(xs + [x]) == Elements(xs) + {x}
  {
  }

  lemma {:induction false} AscendingSize(xs: seq<nat>)
    requires Ascending(xs)
    ensures |Elements(xs)| == |xs|
    decreases |xs|
  {
    if xs != [] {
      AscendingSize(xs[1..]);
      assert Elements(xs) == {xs[0]} + Elements(xs[1..]) by {
        forall x | x in xs ensures x == xs[0] || x in xs[1..] {
          var i :| 0 <= i < |xs| && xs[i] == x;
          if i > 0 { assert xs[1..][i - 1] == x; }
        }
      }
    }
  }

  lemma AscendingHead(xs: seq<nat>)
    requires Ascending(xs) && xs != []
    ensures xs[0] in Elements(xs)
    ensures xs[0] == MinOf(Elements(xs)) && Elements(xs[1..]) == Elements(xs) - {xs[0]}
  {
    forall x | x in xs ensures xs[0] <= x && (x == xs[0] || x in xs[1..]) {
      var i :| 0 <= i < |xs| && xs[i] == x;
      if i > 0 { assert xs[1..][i - 1] == x; }
    }
    assert xs[0] in xs;
    MinOfUnique(Elements(xs), xs[0]);
  }

  /** Only one ascending sequence has a given set of elements. */
  lemma {:induction false} AscendingUnique(xs: seq<nat>, ys: seq<nat>)
    requires Ascending(xs) && Ascending(ys) && Elements(xs) == Elements(ys)
    ensures xs == ys
    decreases |xs|
  {
    AscendingSize(xs);
    AscendingSize(ys);
    if xs != [] {
      AscendingHead(xs);
      AscendingHead(ys);
      AscendingUnique(xs[1..], ys[1..]);
    }
  }

  predicate Distinct(xs: seq<nat>) { forall i, j :: 0 <= i < j < |xs| ==> xs[i] != xs[j] }

  /** A sequence without repetitions is as long as its set of elements is large. */
  lemma {:induction false} DistinctSize(xs: seq<nat>)
    requires Distinct(xs)
    ensures |Elements(xs)| == |xs|
    decreases |xs|
  {
    if xs != [] {
      var front, x := xs[..|xs| - 1], xs[|xs| - 1];
      assert xs == front + [x];
      DistinctSize(front);
      ElementsSnoc(front, x);
    }
  }

  /** `xs` is `ys` at the increasing positions `at`. */
  predicate Subsequence(xs: seq<nat>, ys: seq<nat>, at: seq<nat>) {
    && |at| == |xs| && Ascending(at)
    && (forall k :: 0 <= k < |xs| ==> at[k] < |ys| && xs[k] == ys[at[k]])
  }

  lemma SubsequenceAscends(xs: seq<nat>, ys: seq<nat>, at: seq<nat>)
    requires Subsequence(xs, ys, at) && Ascending(ys)
    ensures Ascending(xs)
  {
    forall i, j | 0 <= i < j < |xs| ensures xs[i] < xs[j] { assert at[i] < at[j]; }
  }

  lemma SubsequenceDistinct(xs: seq<nat>, ys: seq<nat>, at: seq<nat>)
    requires Subsequence(xs, ys, at) && Distinct(ys)
    ensures Distinct(xs)
  {
    forall i, j | 0 <= i < j < |xs| ensures xs[i] != xs[j] { assert at[i] < at[j]; }
  }

  /** One element more at the end of `ys`, kept or not. */
  lemma SubsequenceSnoc(xs: seq<nat>, ys: seq<nat>, at: seq<nat>, y: nat)
    requires Subsequence(xs, ys, at)
    ensures Subsequence(xs, ys + [y], at) && Subsequence(xs + [y], ys + [y], at + [|ys|])
  {
  }

  /** A set's elements in ascending order, by repeatedly taking the least. */
  method SortIds(ids: set<nat>) returns (xs: seq<nat>)
    ensures xs == Sorted(ids)
  {
    xs := [];
    var todo := ids;
    while todo != {}
      invariant todo <= ids && Ascending(xs) && forall x :: x in xs <==> x in ids && x !in todo
      invariant forall x, y :: x in xs && y in todo ==> x < y
    {
      ghost var least := MinOf(todo);
      var x :| x in todo && forall y :: y in todo ==> x <= y;
      assert forall i :: 0 <= i < |xs| ==> xs[i] in xs;
      xs := xs + [x];
      todo := todo - {x};
    }
    assert Elements(xs) == Elements(Sorted(ids));
    AscendingUnique(xs, Sorted(ids));
  }
}
