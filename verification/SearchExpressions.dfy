/** WHERE and ON conditions (`search.rs`): evaluation over one row and recognition of equality lookups. */
module SearchExpressions {
  import opened Prelude
  import opened Values

  datatype Operator = Equal | NotEqual | GreaterThan | LessThan | GreaterThanOrEqual | LessThanOrEqual

  datatype Expr =
    | Column(name: string)
    | QualifiedColumn(table: string, column: string)
    | Literal(value: Value)
    | Comparison(left: Expr, op: Operator, right: Expr)
    | And(left: Expr, right: Expr)
    | Or(left: Expr, right: Expr)
    | Not(inner: Expr)

  /** A name under which a row context offers a value; both parts are lower case. */
  datatype Name = Bare(column: string) | Of(table: string, column: string)

  type Context = map<Name, Value>

  datatype QueryError =
    | UnknownColumn
    | NotScalar
    | NotBoolean
    | NoSuchRow(row: RowId)
    | MissingJoinCondition
    | InvalidJoin
    | OrderedCount

  /** The derived order on values: by kind, then by content. */
  function Kind(v: Value): nat {
    match v
    case Null => 0
    case Int(ty, _) => 1 + Width(ty)
    case Text(_) => 11
    case Bool(_) => 12
    case Bytes(_) => 13
    case Timestamp(_) => 14
  }

  function Width(ty: IntType): nat {
    match ty
    case U8 => 0 case U16 => 1 case U32 => 2 case U64 => 3 case U128 => 4
    case I8 => 5 case I16 => 6 case I32 => 7 case I64 => 8 case I128 => 9
  }

  predicate LessSeq(a: seq<int>, b: seq<int>) {
    b != [] && (a == [] || a[0] < b[0] || (a[0] == b[0] && LessSeq(a[1..], b[1..])))
  }

  /** Content of a value as a sequence of numbers compared lexicographically. */
  function Content(v: Value): seq<int> {
    match v
    case Null => []
    case Int(_, n) => [n]
    case Text(s) => seq(|s|, i requires 0 <= i < |s| => s[i] as int)
    case Bool(b) => [if b then 1 else 0]
    case Bytes(bs) => seq(|bs|, i requires 0 <= i < |bs| => bs[i])
    case Timestamp(n) => [n]
  }

  predicate Less(a: Value, b: Value) {
    Kind(a) < Kind(b) || (Kind(a) == Kind(b) && LessSeq(Content(a), Content(b)))
  }

  predicate Compare(op: Operator, a: Value, b: Value) {
    match op
    case Equal => a == b
    case NotEqual => a != b
    case GreaterThan => Less(b, a)
    case LessThan => Less(a, b)
    case GreaterThanOrEqual => a == b || Less(b, a)
    case LessThanOrEqual => a == b || Less(a, b)
  }

  function Resolve(ctx: Context, table: Option<string>, column: string): Result<Value, QueryError> {
    var name := if table.Some? then Of(Lower(table.value), Lower(column)) else Bare(Lower(column));
    if name in ctx then Ok(ctx[name]) else Err(UnknownColumn)
  }

  function ResolveValue(e: Expr, ctx: Context): Result<Value, QueryError> {
    match e
    case Literal(v) => Ok(v)
    case Column(name) => Resolve(ctx, None, name)
    case QualifiedColumn(table, column) => Resolve(ctx, Some(table), column)
    case _ => Err(NotScalar)
  }

  function ToBoolean(v: Value): Result<bool, QueryError> {
    if v.Bool? then Ok(v.b) else Err(NotBoolean)
  }

  /** Whether the row satisfies the condition; AND and OR skip their right side as usual. */
  function Evaluate(e: Expr, ctx: Context): Result<bool, QueryError> {
    match e
    case Literal(v) => ToBoolean(v)
    case Column(_) =>
      var v := ResolveValue(e, ctx);
      if v.Err? then Err(v.error) else ToBoolean(v.value)
    case QualifiedColumn(_, _) =>
      var v := ResolveValue(e, ctx);
      if v.Err? then Err(v.error) else ToBoolean(v.value)
    case Comparison(left, op, right) =>
      var a, b := ResolveValue(left, ctx), ResolveValue(right, ctx);
      if a.Err? then Err(a.error) else if b.Err? then Err(b.error) else Ok(Compare(op, a.value, b.value))
    case And(left, right) =>
      var a := Evaluate(left, ctx);
      if a.Err? || !a.value then a else Evaluate(right, ctx)
    case Or(left, right) =>
      var a := Evaluate(left, ctx);
      if a.Err? || a.value then a else Evaluate(right, ctx)
    case Not(inner) =>
      var a := Evaluate(inner, ctx);
      if a.Err? then a else Ok(!a.value)
  }

  /** A column and the value it is compared with. */
  datatype Lookup = Lookup(column: string, value: Value)

  /** The column name and literal of a condition that is a single equality between the two. */
  function EqualityLookup(e: Expr): Option<Lookup> {
    match e
    case Comparison(Column(name), Equal, Literal(v)) => Some(Lookup(name, v))
    case Comparison(Literal(v), Equal, Column(name)) => Some(Lookup(name, v))
    case _ => None
  }

  /** For `l.a = right.b` with `l.a` bound in the context: the right column and the value it must have. */
  function JoinEqualityLookup(e: Expr, ctx: Context, rightAlias: string): Option<Lookup> {
    match e
    case Comparison(QualifiedColumn(table, column), Equal, QualifiedColumn(other, otherColumn)) =>
      if Lower(other) != Lower(rightAlias) then None
      else
        var v := Resolve(ctx, Some(table), column);
        if v.Err? then None else Some(Lookup(otherColumn, v.value))
    case _ => None
  }

  /** A recognised lookup says exactly what the condition says: the column is there and has the value. */
  lemma LookupIsTheCondition(e: Expr, ctx: Context)
    requires EqualityLookup(e).Some?
    ensures var l := EqualityLookup(e).value;
      Evaluate(e, ctx) ==
        if Bare(Lower(l.column)) in ctx then Ok(ctx[Bare(Lower(l.column))] == l.value) else Err(UnknownColumn)
  {
  }

  /** A single equality between a column and a literal is recognised whichever side the column is on, and nothing else is. */
  lemma RecognisedIff(e: Expr, name: string, v: Value)
    ensures EqualityLookup(e) == Some(Lookup(name, v)) <==>
      e == Comparison(Column(name), Equal, Literal(v)) || e == Comparison(Literal(v), Equal, Column(name))
  {
  }

  /** Content determines the value within a kind, so `<=` and `>=` are what `<` and `==` make them. */
  lemma {:induction false} LessSeqTotal(a: seq<int>, b: seq<int>)
    ensures LessSeq(a, b) || a == b || LessSeq(b, a)
    ensures !(LessSeq(a, b) && LessSeq(b, a)) && !(a == b && LessSeq(a, b))
    decreases |a|
  {
    if a != [] && b != [] && a[0] == b[0] {
      LessSeqTotal(a[1..], b[1..]);
      assert a == [a[0]] + a[1..] && b == [b[0]] + b[1..];
    }
  }

  /** The order on values is total: exactly one of less, equal and greater holds. */
  lemma OrderIsTotal(a: Value, b: Value)
    ensures Less(a, b) || a == b || Less(b, a)
    ensures !(Less(a, b) && Less(b, a)) && !(a == b && Less(a, b))
  {
    LessSeqTotal(Content(a), Content(b));
    if Kind(a) == Kind(b) && Content(a) == Content(b) { SameContent(a, b); }
  }

  /** Each comparison is the negation of its opposite, on values of any kinds. */
  lemma ComparisonsComplement(a: Value, b: Value)
    ensures Compare(GreaterThan, a, b) <==> !Compare(LessThanOrEqual, a, b)
    ensures Compare(LessThan, a, b) <==> !Compare(GreaterThanOrEqual, a, b)
    ensures Compare(Equal, a, b) <==> !Compare(NotEqual, a, b)
    ensures Compare(LessThan, a, b) <==> Compare(GreaterThan, b, a)
  {
    OrderIsTotal(a, b);
  }

  lemma SameContent(a: Value, b: Value)
    requires Kind(a) == Kind(b) && Content(a) == Content(b)
    ensures a == b
  {
    match a
    case Text(s) =>
      assert forall i :: 0 <= i < |s| ==> s[i] as int == Content(a)[i] == Content(b)[i] == b.s[i] as int;
    case Bytes(bs) =>
      assert forall i :: 0 <= i < |bs| ==> bs[i] == Content(a)[i] == Content(b)[i] == b.bs[i];
    case _ =>
  }
}
