/** What conditions mean, on the values themselves: which value is smaller, and what AND, OR and NOT say. */
module Conditions {
  import opened Prelude
  import opened Values
  import opened SearchExpressions

  // ---- Comparing values -----------------------------------------------------------------------------

  /** What an operator says of two numbers. */
  predicate Numerically(op: Operator, m: int, n: int) {
    match op
    case Equal => m == n
    case NotEqual => m != n
    case GreaterThan => m > n
    case LessThan => m < n
    case GreaterThanOrEqual => m >= n
    case LessThanOrEqual => m <= n
  }

  lemma SingletonsCompare(m: int, n: int)
    ensures LessSeq([m], [n]) <==> m < n
  {
    assert [m][1..] == [] && [n][1..] == [];
  }

  /** Integers of one type compare as numbers. */
  lemma IntegersCompare(op: Operator, ty: IntType, m: int, n: int)
    ensures Compare(op, Int(ty, m), Int(ty, n)) <==> Numerically(op, m, n)
  {
    SingletonsCompare(m, n);
    SingletonsCompare(n, m);
  }

  lemma TimestampsCompare(op: Operator, m: int, n: int)
    ensures Compare(op, Timestamp(m), Timestamp(n)) <==> Numerically(op, m, n)
  {
    SingletonsCompare(m, n);
    SingletonsCompare(n, m);
  }

  /** False is below true. */
  lemma BooleansCompare(op: Operator, a: bool, b: bool)
    ensures Compare(op, Bool(a), Bool(b)) <==> Numerically(op, if a then 1 else 0, if b then 1 else 0)
  {
    SingletonsCompare(if a then 1 else 0, if b then 1 else 0);
    SingletonsCompare(if b then 1 else 0, if a then 1 else 0);
  }

  /** A proper prefix, or smaller at the first place where the two differ. */
  ghost predicate Precedes(a: seq<int>, b: seq<int>) {
    || (|a| < |b| && a == b[..|a|])
    || exists i :: 0 <= i < |a| && i < |b| && a[..i] == b[..i] && a[i] < b[i]
  }

  /** The order of dictionaries, however the comparison finds it. */
  lemma {:induction false} LessSeqIff(a: seq<int>, b: seq<int>)
    ensures LessSeq(a, b) <==> Precedes(a, b)
    decreases |a|
  {
    if a == [] {
      assert b != [] ==> b[..0] == [];
    } else if b != [] {
      if a[0] == b[0] {
        LessSeqIff(a[1..], b[1..]);
        PrecedesTail(a, b);
      } else {
        assert a[..0] == b[..0];
        forall i | 0 < i < |a| && i < |b| ensures a[..i] != b[..i] { assert a[..i][0] != b[..i][0]; }
        assert |a| < |b| ==> b[..|a|][0] != a[0];
      }
    }
  }

  lemma PrecedesTail(a: seq<int>, b: seq<int>)
    requires a != [] && b != [] && a[0] == b[0]
    ensures Precedes(a, b) <==> Precedes(a[1..], b[1..])
  {
    var x, y := a[1..], b[1..];
    assert a == [a[0]] + x && b == [b[0]] + y;
    forall i | 0 <= i < |x| && i < |y| ensures x[..i] == y[..i] <==> a[..i + 1] == b[..i + 1] {
      assert a[..i + 1] == [a[0]] + x[..i] && b[..i + 1] == [b[0]] + y[..i];
    }
    assert |a| < |b| ==> b[..|a|] == [b[0]] + y[..|x|];
    if i :| 0 <= i < |x| && i < |y| && x[..i] == y[..i] && x[i] < y[i] { assert a[i + 1] < b[i + 1]; }
    if i :| 0 <= i < |a| && i < |b| && a[..i] == b[..i] && a[i] < b[i] { assert x[i - 1] < y[i - 1]; }
  }

  function Codes(s: string): (r: seq<int>)
    ensures |r| == |s| && forall i :: 0 <= i < |s| ==> r[i] == s[i] as int
  {
    seq(|s|, i requires 0 <= i < |s| => s[i] as int)
  }

  /** A text is below another if it is a proper prefix of it, or smaller at the first character that differs. */
  ghost predicate TextBelow(a: string, b: string) {
    || (|a| < |b| && a == b[..|a|])
    || exists i :: 0 <= i < |a| && i < |b| && a[..i] == b[..i] && a[i] < b[i]
  }

  lemma SameCodes(a: string, b: string)
    ensures Codes(a) == Codes(b) <==> a == b
  {
    assert Codes(a) == Codes(b) ==> forall i :: 0 <= i < |a| ==> Codes(a)[i] == Codes(b)[i];
  }

  lemma CodesPrecede(a: string, b: string)
    ensures Precedes(Codes(a), Codes(b)) <==> TextBelow(a, b)
  {
    var x, y := Codes(a), Codes(b);
    forall i, j | 0 <= i <= |a| && 0 <= j <= |b| ensures x[..i] == y[..j] <==> a[..i] == b[..j] {
      assert x[..i] == Codes(a[..i]) && y[..j] == Codes(b[..j]);
      SameCodes(a[..i], b[..j]);
    }
    assert x[..|a|] == x && a[..|a|] == a;
    if i :| 0 <= i < |a| && i < |b| && a[..i] == b[..i] && a[i] < b[i] { assert x[..i] == y[..i] && x[i] < y[i]; }
  }

  lemma TextLess(a: string, b: string)
    ensures Less(Text(a), Text(b)) <==> TextBelow(a, b)
  {
    assert Content(Text(a)) == Codes(a) && Content(Text(b)) == Codes(b);
    LessSeqIff(Codes(a), Codes(b));
    CodesPrecede(a, b);
  }

  lemma TextsCompare(a: string, b: string)
    ensures Compare(LessThan, Text(a), Text(b)) <==> TextBelow(a, b)
    ensures Compare(GreaterThan, Text(a), Text(b)) <==> TextBelow(b, a)
    ensures Compare(LessThanOrEqual, Text(a), Text(b)) <==> a == b || TextBelow(a, b)
    ensures Compare(GreaterThanOrEqual, Text(a), Text(b)) <==> a == b || TextBelow(b, a)
  {
    TextLess(a, b);
    TextLess(b, a);
  }

  lemma BytesCompare(a: seq<nat>, b: seq<nat>)
    ensures Compare(LessThan, Bytes(a), Bytes(b)) <==> Precedes(a, b)
    ensures Compare(GreaterThan, Bytes(a), Bytes(b)) <==> Precedes(b, a)
  {
    assert Content(Bytes(a)) == a && Content(Bytes(b)) == b;
    LessSeqIff(a, b);
    LessSeqIff(b, a);
  }

  /** NULL equals only itself and is below everything else. */
  lemma NullIsLeast(v: Value)
    ensures Compare(Equal, Null, v) <==> v == Null
    ensures Compare(LessThan, Null, v) <==> v != Null
    ensures !Compare(LessThan, v, Null)
  {
  }

  lemma {:induction false} LessSeqTransitive(a: seq<int>, b: seq<int>, c: seq<int>)
    requires LessSeq(a, b) && LessSeq(b, c)
    ensures LessSeq(a, c)
    decreases |a|
  {
    if a != [] && a[0] == b[0] == c[0] { LessSeqTransitive(a[1..], b[1..], c[1..]); }
  }

  lemma ComparisonIsTransitive(a: Value, b: Value, c: Value)
    requires Compare(LessThan, a, b) && Compare(LessThan, b, c)
    ensures Compare(LessThan, a, c)
  {
    if Kind(a) == Kind(b) == Kind(c) { LessSeqTransitive(Content(a), Content(b), Content(c)); }
  }

  /** A representative of every kind of value, in the order of the kinds: unsigned, signed, text, booleans, bytes, timestamps. */
  function InKindOrder(n: int, s: string, b: bool, bs: seq<nat>): seq<Value> {
    [Null, Int(U8, n), Int(U16, n), Int(U32, n), Int(U64, n), Int(U128, n), Int(I8, n), Int(I16, n), Int(I32, n), Int(I64, n),
     Int(I128, n), Text(s), Bool(b), Bytes(bs), Timestamp(n)]
  }

  /** Values of different kinds compare by kind alone, whatever they hold; integers of different types too. */
  lemma KindsCompare(n: int, s: string, b: bool, bs: seq<nat>, n': int, s': string, b': bool, bs': seq<nat>, i: nat, j: nat)
    requires i < j < 15
    ensures var low, high := InKindOrder(n, s, b, bs)[i], InKindOrder(n', s', b', bs')[j];
      Compare(LessThan, low, high) && !Compare(LessThan, high, low)
  {
    KindAt(n, s, b, bs, i);
    KindAt(n', s', b', bs', j);
  }

  lemma KindAt(n: int, s: string, b: bool, bs: seq<nat>, i: nat)
    requires i < 15
    ensures Kind(InKindOrder(n, s, b, bs)[i]) == i
  {
  }

  // ---- Evaluating conditions ------------------------------------------------------------------------

  /** A column compared with a literal integer compares the row's number with it. */
  lemma ColumnComparison(name: string, op: Operator, ty: IntType, k: int, ctx: Context, m: int)
    requires Get(ctx, Bare(Lower(name))) == Some(Int(ty, m))
    ensures Evaluate(Comparison(Column(name), op, Literal(Int(ty, k))), ctx) == Ok(Numerically(op, m, k))
    ensures Evaluate(Comparison(Literal(Int(ty, k)), op, Column(name)), ctx) == Ok(Numerically(op, k, m))
  {
    IntegersCompare(op, ty, m, k);
    IntegersCompare(op, ty, k, m);
  }

  /** A comparison compares what its sides stand for, left with right, and fails as the first of them that fails. */
  lemma ComparisonMeans(left: Expr, op: Operator, right: Expr, ctx: Context)
    ensures var a, b := ResolveValue(left, ctx), ResolveValue(right, ctx);
      Evaluate(Comparison(left, op, right), ctx) ==
        if a.Ok? && b.Ok? then Ok(Compare(op, a.value, b.value)) else Err(if a.Err? then a.error else b.error)
  {
  }

  /** As a condition a value must be a boolean; as a side of a comparison a condition must not stand. */
  lemma AtomsMean(v: Value, name: string, p: Expr, op: Operator, q: Expr, ctx: Context)
    ensures forall b: bool :: Evaluate(Literal(v), ctx) == Ok(b) <==> v == Bool(b)
    ensures forall b: bool :: Evaluate(Column(name), ctx) == Ok(b) <==> Get(ctx, Bare(Lower(name))) == Some(Bool(b))
    ensures Bare(Lower(name)) !in ctx ==> Evaluate(Column(name), ctx) == Err(UnknownColumn)
    ensures p.And? || p.Or? || p.Not? || p.Comparison? ==> Evaluate(Comparison(p, op, q), ctx) == Err(NotScalar)
  {
  }

  /** AND and OR say what their operands say; a side that is not needed cannot make them fail. */
  lemma ConnectivesMean(p: Expr, q: Expr, ctx: Context)
    ensures Evaluate(And(p, q), ctx) == Ok(true) <==> Evaluate(p, ctx) == Ok(true) && Evaluate(q, ctx) == Ok(true)
    ensures Evaluate(And(p, q), ctx) == Ok(false) <==>
      Evaluate(p, ctx) == Ok(false) || (Evaluate(p, ctx) == Ok(true) && Evaluate(q, ctx) == Ok(false))
    ensures Evaluate(Or(p, q), ctx) == Ok(true) <==>
      Evaluate(p, ctx) == Ok(true) || (Evaluate(p, ctx) == Ok(false) && Evaluate(q, ctx) == Ok(true))
    ensures Evaluate(Or(p, q), ctx) == Ok(false) <==> Evaluate(p, ctx) == Ok(false) && Evaluate(q, ctx) == Ok(false)
    ensures Evaluate(Not(p), ctx) == Ok(true) <==> Evaluate(p, ctx) == Ok(false)
    ensures Evaluate(Not(p), ctx) == Ok(false) <==> Evaluate(p, ctx) == Ok(true)
    ensures Evaluate(p, ctx).Err? ==> Evaluate(And(p, q), ctx) == Evaluate(Or(p, q), ctx) == Evaluate(Not(p), ctx) == Evaluate(p, ctx)
  {
  }

  /** De Morgan, with errors: the two sides of the law succeed together and say the same. */
  lemma DeMorgan(p: Expr, q: Expr, ctx: Context)
    ensures Evaluate(Not(And(p, q)), ctx) == Evaluate(Or(Not(p), Not(q)), ctx)
    ensures Evaluate(Not(Or(p, q)), ctx) == Evaluate(And(Not(p), Not(q)), ctx)
  {
  }
}
