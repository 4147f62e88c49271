/** Rendering and parsing of single COPY values (`format_copy_value`, `parse_copy_value`). */
module CopyValues {
  import opened Prelude
  import opened Values

  datatype ColumnType = NullType | IntType_(ty: IntType) | TextType | BoolType

  datatype CopyError =
    | BinaryUnsupported
    | FieldCount(found: nat, expected: nat)
    | BadBoolean(text: string)
    | BadInteger(text: string)

  // ---- Decimal numbers ----------------------------------------------------------------------------

  function Digit(n: nat): char
    requires n < 10
  {
    ('0' as int + n) as char
  }

  predicate IsDigit(c: char) { '0' <= c <= '9' }

  function Decimal(n: nat): (s: string)
    ensures |s| >= 1 && forall i :: 0 <= i < |s| ==> IsDigit(s[i])
  {
    if n < 10 then [Digit(n)] else Decimal(n / 10) + [Digit(n % 10)]
  }

  function ParseDigits(s: string): Option<nat> {
    if s == [] then Some(0)
    else
      var c := s[|s| - 1];
      match ParseDigits(s[..|s| - 1])
      case Some(n) => if IsDigit(c) then Some(n * 10 + (c as int - '0' as int)) else None
      case None => None
  }

  lemma {:induction false} DecimalParses(n: nat)
    ensures ParseDigits(Decimal(n)) == Some(n)
  {
    var s := Decimal(n);
    if n < 10 {
      assert s[..0] == [];
    } else {
      DecimalParses(n / 10);
      assert s[..|s| - 1] == Decimal(n / 10);
    }
  }

  predicate AllDigits(s: string) { forall i :: 0 <= i < |s| ==> IsDigit(s[i]) }

  function Pow10(k: nat): nat { if k == 0 then 1 else 10 * Pow10(k - 1) }

  /** The number digits stand for: the first of `n` digits counts 10^(n-1) times. */
  function PlaceValue(s: string): nat
    requires AllDigits(s)
  {
    if s == [] then 0
    else
      assert IsDigit(s[0]);
      (s[0] as int - '0' as int) * Pow10(|s| - 1) + PlaceValue(s[1..])
  }

  lemma {:induction false} PlaceValueSnoc(s: string, c: char)
    requires AllDigits(s + [c]) && AllDigits(s) && IsDigit(c)
    ensures PlaceValue(s + [c]) == 10 * PlaceValue(s) + (c as int - '0' as int)
    decreases |s|
  {
    if s == [] {
      assert (s + [c])[1..] == [];
    } else {
      assert (s + [c])[1..] == s[1..] + [c];
      PlaceValueSnoc(s[1..], c);
      TenTimes(s[0] as int - '0' as int, |s|);
    }
  }

  lemma TenTimes(d: int, k: nat)
    requires k > 0
    ensures d * Pow10(k) == 10 * (d * Pow10(k - 1))
  {
  }

  /** Digits are read by their places, and nothing but digits is read. */
  lemma {:induction false} DigitsMean(s: string)
    ensures ParseDigits(s) == if AllDigits(s) then Some(PlaceValue(s)) else None
    decreases |s|
  {
    if s != [] {
      var front, c := s[..|s| - 1], s[|s| - 1];
      assert s == front + [c];
      DigitsMean(front);
      if AllDigits(s) {
        assert IsDigit(c) && AllDigits(front);
        PlaceValueSnoc(front, c);
      } else if AllDigits(front) {
        assert !IsDigit(c);
      }
    }
  }

  /** A printed number has the value of its digits, and no leading zero. */
  lemma {:induction false} DecimalMeans(n: nat)
    ensures AllDigits(Decimal(n)) && PlaceValue(Decimal(n)) == n
    ensures |Decimal(n)| > 1 ==> Decimal(n)[0] != '0'
    ensures n > 0 ==> Decimal(n)[0] != '0'
  {
    DecimalParses(n);
    DigitsMean(Decimal(n));
    if n >= 10 { DecimalMeans(n / 10); }
  }

  function Signed(ty: IntType): bool { ty in {I8, I16, I32, I64, I128} }

  function Bits(ty: IntType): nat {
    match ty
    case U8 => 8 case I8 => 8
    case U16 => 16 case I16 => 16
    case U32 => 32 case I32 => 32
    case U64 => 64 case I64 => 64
    case U128 => 128 case I128 => 128
  }

  function Pow2(n: nat): nat { if n == 0 then 1 else 2 * Pow2(n - 1) }

  predicate InRange(n: int, ty: IntType) {
    if Signed(ty) then -(Pow2(Bits(ty) - 1) as int) <= n < Pow2(Bits(ty) - 1) else 0 <= n < Pow2(Bits(ty))
  }

  function IntText(n: int): string {
    if n < 0 then "-" + Decimal(-n) else Decimal(n)
  }

  /** Sign, digits, range: a minus sign is only read for signed types, a plus sign for all. */
  function ParseInt(s: string, ty: IntType): Option<int> {
    if s == [] || s == "+" || s == "-" then None
    else
      var minus := Signed(ty) && s[0] == '-';
      match ParseDigits(if minus || s[0] == '+' then s[1..] else s)
      case None => None
      case Some(m) =>
        var n: int := if minus then -(m as int) else m;
        if InRange(n, ty) then Some(n) else None
  }

  lemma IntRoundTrip(n: int, ty: IntType)
    requires InRange(n, ty)
    ensures ParseInt(IntText(n), ty) == Some(n)
  {
    var m := if n < 0 then -n else n;
    DecimalParses(m);
    assert IsDigit(Decimal(m)[0]);
    if n < 0 {
      assert IntText(n)[1..] == Decimal(m);
    }
  }

  /** `ds` are the digits of `s`, perhaps after a sign, a minus only for signed types, and `n` is their value. */
  predicate SpelledBy(s: string, ty: IntType, n: int, ds: string) {
    && ds != [] && AllDigits(ds)
    && if Signed(ty) && s == "-" + ds then n + PlaceValue(ds) == 0 else (s == ds || s == "+" + ds) && n == PlaceValue(ds)
  }

  ghost predicate Spells(s: string, ty: IntType, n: int) { exists ds: string :: SpelledBy(s, ty, n, ds) }

  /** What follows the sign. */
  function Unsigned(s: string, ty: IntType): string
    requires s != []
  {
    if (Signed(ty) && s[0] == '-') || s[0] == '+' then s[1..] else s
  }

  lemma SpelledIff(s: string, ty: IntType, n: int, ds: string)
    requires s != []
    ensures SpelledBy(s, ty, n, ds) <==>
      && ds == Unsigned(s, ty) && ds != [] && AllDigits(ds)
      && n == if Signed(ty) && s[0] == '-' then -(PlaceValue(ds) as int) else PlaceValue(ds)
  {
    assert s == [s[0]] + s[1..];
    if SpelledBy(s, ty, n, ds) {
      assert IsDigit(ds[0]);
      assert s == "+" + ds || s == "-" + ds ==> s[1..] == ds;
    }
  }

  /** Exactly the texts that spell a number in range are read, as that number. */
  lemma IntegerReadsIff(s: string, ty: IntType, n: int)
    ensures ParseInt(s, ty) == Some(n) <==> Spells(s, ty, n) && InRange(n, ty)
  {
    if s != [] {
      ParsedIff(s, ty, n);
      SpelledIff(s, ty, n, Unsigned(s, ty));
      if ds: string :| SpelledBy(s, ty, n, ds) { SpelledIff(s, ty, n, ds); }
    }
  }

  lemma ParsedIff(s: string, ty: IntType, n: int)
    requires s != []
    ensures ParseInt(s, ty) == Some(n) <==>
      var ds := Unsigned(s, ty);
      && ds != [] && AllDigits(ds) && InRange(n, ty)
      && n == if Signed(ty) && s[0] == '-' then -(PlaceValue(ds) as int) else PlaceValue(ds)
  {
    DigitsMean(Unsigned(s, ty));
    assert |s| == 1 ==> s == [s[0]];
    assert s == "-" && !Signed(ty) ==> Unsigned(s, ty) == s && !IsDigit(s[0]);
  }

  lemma {:induction false} Pow2Sum(a: nat, b: nat)
    ensures Pow2(a + b) == Pow2(a) * Pow2(b)
    decreases a
  {
    if a > 0 {
      Pow2Sum(a - 1, b);
      assert Pow2(a + b) == 2 * (Pow2(a - 1) * Pow2(b)) == (2 * Pow2(a - 1)) * Pow2(b);
    }
  }

  lemma Powers()
    ensures Pow2(7) == 0x80 && Pow2(8) == 0x100 && Pow2(15) == 0x8000 && Pow2(16) == 0x1_0000
    ensures Pow2(31) == 0x8000_0000 && Pow2(32) == 0x1_0000_0000
    ensures Pow2(63) == 0x8000_0000_0000_0000 && Pow2(64) == TWO64
    ensures Pow2(127) == 0x8000_0000_0000_0000 * TWO64 && Pow2(128) == TWO64 * TWO64
  {
    assert Pow2(7) == 0x80 && Pow2(8) == 0x100;
    Pow2Sum(7, 8);
    Pow2Sum(8, 8);
    Pow2Sum(15, 16);
    Pow2Sum(16, 16);
    Pow2Sum(31, 32);
    Pow2Sum(32, 32);
    Pow2Sum(63, 64);
    Pow2Sum(64, 64);
  }

  /** The ranges of the ten integer types. */
  lemma Ranges(n: int)
    ensures InRange(n, U8) <==> 0 <= n < 0x100
    ensures InRange(n, U16) <==> 0 <= n < 0x1_0000
    ensures InRange(n, U32) <==> 0 <= n < 0x1_0000_0000
    ensures InRange(n, U64) <==> 0 <= n < TWO64
    ensures InRange(n, U128) <==> 0 <= n < TWO64 * TWO64
    ensures InRange(n, I8) <==> -0x80 <= n < 0x80
    ensures InRange(n, I16) <==> -0x8000 <= n < 0x8000
    ensures InRange(n, I32) <==> -0x8000_0000 <= n < 0x8000_0000
    ensures InRange(n, I64) <==> -0x8000_0000_0000_0000 <= n < 0x8000_0000_0000_0000
    ensures InRange(n, I128) <==> -0x8000_0000_0000_0000 * TWO64 <= n < 0x8000_0000_0000_0000 * TWO64
  {
    Powers();
  }

  // ---- Values -------------------------------------------------------------------------------------

  /** The unescaped text of a value that is not NULL. */
  function Render(v: Value): string
    requires v.Bool? || v.Int? || v.Text?
  {
    match v
    case Bool(b) => if b then "t" else "f"
    case Int(_, n) => IntText(n)
    case Text(s) => s
  }

  function ParseValue(text: string, ty: ColumnType, nullString: string): Result<Value, CopyError> {
    if text == nullString then Ok(Null)
    else
      match ty
      case NullType => Ok(Null)
      case TextType => Ok(Text(text))
      case BoolType =>
        var low := Lower(text);
        if low in {"t", "true", "yes", "1"} then Ok(Bool(true))
        else if low in {"f", "false", "no", "0"} then Ok(Bool(false))
        else Err(BadBoolean(text))
      case IntType_(it) =>
        match ParseInt(text, it)
        case Some(n) => Ok(Int(it, n))
        case None => Err(BadInteger(text))
  }

  /** A value a column of type `ty` may hold, NULL aside. */
  predicate HasType(v: Value, ty: ColumnType) {
    match ty
    case NullType => false
    case TextType => v.Text?
    case BoolType => v.Bool?
    case IntType_(it) => v.Int? && v.ty == it && InRange(v.n, it)
  }

  /** A value survives rendering and parsing exactly when its text is not the null string. */
  lemma ValueRoundTripIff(v: Value, ty: ColumnType, nullString: string)
    requires HasType(v, ty)
    ensures ParseValue(Render(v), ty, nullString) == Ok(v) <==> Render(v) != nullString
  {
    match v
    case Int(it, n) => IntRoundTrip(n, it);
    case Bool(b) =>
      assert Lower("t") == "t" && Lower("f") == "f";
    case Text(_) =>
  }

  /** Equal but for upper case letters in `text`. */
  predicate SameWord(text: string, word: string) {
    |text| == |word| && forall i :: 0 <= i < |word| ==>
      text[i] == word[i] || ('a' <= word[i] <= 'z' && text[i] as int == word[i] as int - 32)
  }

  /** What a field of a boolean column reads as: four words each, in any case, and an error for everything else. */
  lemma BooleanWords(text: string, nullString: string)
    requires text != nullString
    ensures ParseValue(text, BoolType, nullString) ==
      if SameWord(text, "t") || SameWord(text, "true") || SameWord(text, "yes") || SameWord(text, "1") then Ok(Bool(true))
      else if SameWord(text, "f") || SameWord(text, "false") || SameWord(text, "no") || SameWord(text, "0") then Ok(Bool(false))
      else Err(BadBoolean(text))
  {
    SameWordIff(text, "t");
    SameWordIff(text, "true");
    SameWordIff(text, "yes");
    SameWordIff(text, "1");
    SameWordIff(text, "f");
    SameWordIff(text, "false");
    SameWordIff(text, "no");
    SameWordIff(text, "0");
  }

  lemma SameWordIff(text: string, word: string)
    requires forall i :: 0 <= i < |word| ==> !('A' <= word[i] <= 'Z')
    ensures SameWord(text, word) <==> Lower(text) == word
  {
    if Lower(text) == word { forall i | 0 <= i < |word| ensures word[i] == LowerChar(text[i]) { assert Lower(text)[i] == word[i]; } }
  }

  /** Other columns: NULL for the null string whatever the type, integers as they are spelt, texts as they are. */
  lemma FieldReads(text: string, ty: ColumnType, nullString: string)
    ensures text == nullString || ty == NullType ==> ParseValue(text, ty, nullString) == Ok(Null)
    ensures text != nullString && ty == TextType ==> ParseValue(text, ty, nullString) == Ok(Text(text))
    ensures text != nullString && ty.IntType_? ==>
      forall n: int :: ParseValue(text, ty, nullString) == Ok(Int(ty.ty, n)) <==> Spells(text, ty.ty, n) && InRange(n, ty.ty)
  {
    if text != nullString && ty.IntType_? {
      forall n: int ensures ParseValue(text, ty, nullString) == Ok(Int(ty.ty, n)) <==> Spells(text, ty.ty, n) && InRange(n, ty.ty) {
        IntegerReadsIff(text, ty.ty, n);
      }
    }
  }

  /** What a value is written as before escaping: `t` or `f`, the decimal digits after a minus if negative, the text itself. */
  lemma Rendered(v: Value)
    requires v.Bool? || v.Int? || v.Text?
    ensures v == Bool(true) ==> Render(v) == "t"
    ensures v == Bool(false) ==> Render(v) == "f"
    ensures v.Text? ==> Render(v) == v.s
    ensures v.Int? && v.n >= 0 ==> AllDigits(Render(v)) && PlaceValue(Render(v)) == v.n && (v.n > 0 ==> Render(v)[0] != '0')
    ensures v.Int? && v.n < 0 ==> Render(v)[0] == '-' && AllDigits(Render(v)[1..]) && PlaceValue(Render(v)[1..]) == -v.n && Render(v)[1] != '0'
  {
    if v.Int? {
      DecimalMeans(if v.n < 0 then -v.n else v.n);
      if v.n < 0 { assert Render(v)[1..] == Decimal(-v.n); }
    }
  }
}
