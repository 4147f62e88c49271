/** Stored values, row payloads and the index key of a value. Floats are not modelled. */
module Values {

  datatype IntType = U8 | U16 | U32 | U64 | U128 | I8 | I16 | I32 | I64 | I128

  datatype Value =
    | Null
    | Int(ty: IntType, n: int)
    | Text(s: string)
    | Bool(b: bool)
    | Bytes(bs: seq<nat>)
    | Timestamp(micros: int)

  type ColumnId = nat
  type RowId = nat
  type RowData = map<ColumnId, Value>

  const TWO64: int := 0x1_0000_0000_0000_0000

  /** The 64-bit index key of a value; 128-bit integers, text and bytes go through the hasher. */
  function Key(v: Value, hash: Value -> nat): nat {
    match v
    case Null => 0
    case Int(ty, n) => if ty == U128 || ty == I128 then hash(v) else n % TWO64
    case Text(_) => hash(v)
    case Bool(b) => if b then 1 else 0
    case Bytes(_) => hash(v)
    case Timestamp(n) => n % TWO64
  }

  /** ASCII lower case, as names and boolean words are compared. */
  function LowerChar(c: char): char {
    if 'A' <= c <= 'Z' then c + ('a' - 'A') else c
  }

  function Lower(s: string): (l: string)
    ensures |l| == |s| && forall i :: 0 <= i < |s| ==> l[i] == LowerChar(s[i])
  {
    seq(|s|, i requires 0 <= i < |s| => LowerChar(s[i]))
  }

  /** Numbers of one type that fit 64 bits, booleans and NULL have keys of their own: under a key there is only one value. */
  lemma KeysAreExact(ty: IntType, m: int, n: int, low: int, hash: Value -> nat)
    requires low <= m < low + TWO64 && low <= n < low + TWO64
    ensures ty != U128 && ty != I128 ==> (Key(Int(ty, m), hash) == Key(Int(ty, n), hash) <==> m == n)
    ensures Key(Timestamp(m), hash) == Key(Timestamp(n), hash) <==> m == n
    ensures Key(Bool(true), hash) != Key(Bool(false), hash)
  {
    if m % TWO64 == n % TWO64 {
      var d := m / TWO64 - n / TWO64;
      assert m - n == d * TWO64;
      assert d == 0;
    }
  }
}
