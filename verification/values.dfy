/** JavaScript values as the attribute layer sees them, and the per-type
    coercions (`string`, `integer`, `boolean`) applied on every read and write. */
module Values {
  import opened Wrappers

  /** A closed JavaScript value domain. `NaN` is what the numeric conversion
      yields for a string that is not a numeral. */
  datatype JsValue = Str(s: string) | Int(i: int) | Bool(b: bool) | Null | NaN

  /** The type tag of a declared attribute. */
  datatype AttrType = StringType | IntegerType | BooleanType

  // ---------------------------------------------------------------------------
  // Decimal numerals

  predicate IsDigit(c: char) {
    '0' <= c <= '9'
  }

  function DigitValue(c: char): (d: nat)
    requires IsDigit(c)
    ensures d < 10
  {
    (c as int) - ('0' as int)
  }

  function DigitChar(d: nat): (c: char)
    requires d < 10
    ensures IsDigit(c) && DigitValue(c) == d
  {
    (('0' as int) + d) as char
  }

  predicate AllDigits(s: string) {
    forall i :: 0 <= i < |s| ==> IsDigit(s[i])
  }

  /** A decimal numeral: one or more digits, optionally preceded by '-'. */
  predicate IsNumeral(s: string) {
    (|s| > 0 && AllDigits(s)) || (|s| > 1 && s[0] == '-' && AllDigits(s[1..]))
  }

  function ParseNat(s: string): nat
    requires AllDigits(s)
  {
    if |s| == 0 then 0 else ParseNat(s[..|s| - 1]) * 10 + DigitValue(s[|s| - 1])
  }

  /** The value a numeral denotes. */
  function ParseInt(s: string): int
    requires IsNumeral(s)
  {
    if |s| > 0 && AllDigits(s) then ParseNat(s) else 0 - (ParseNat(s[1..]) as int)
  }

  /** Shortest decimal representation of a natural number. */
  function NatToString(n: nat): (s: string)
    ensures |s| > 0 && AllDigits(s)
    ensures n > 0 ==> s[0] != '0'
  {
    if n < 10 then [DigitChar(n)] else NatToString(n / 10) + [DigitChar(n % 10)]
  }

  /** Decimal representation of an integer, with a leading '-' when negative. */
  function IntToString(i: int): (s: string)
    ensures IsNumeral(s)
    ensures i < 0 <==> s[0] == '-'
  {
    if i < 0 then "-" + NatToString(-i) else NatToString(i)
  }

  lemma {:induction false} ParseNatToString(n: nat)
    ensures ParseNat(NatToString(n)) == n
  {
    var s := NatToString(n);
    if n < 10 {
      assert s[..|s| - 1] == [];
    } else {
      assert s[..|s| - 1] == NatToString(n / 10);
      ParseNatToString(n / 10);
    }
  }

  /** Printing an integer and parsing it back gives the integer. */
  lemma ParseIntToString(i: int)
    ensures ParseInt(IntToString(i)) == i
  {
    var s := IntToString(i);
    if i < 0 {
      assert s[1..] == NatToString(-i);
      assert !AllDigits(s) by { assert !IsDigit(s[0]); }
      ParseNatToString(-i);
    } else {
      ParseNatToString(i);
    }
  }

  // ---------------------------------------------------------------------------
  // Conversions

  /** The JavaScript string conversion, restricted to this value domain. */
  function ToStringValue(v: JsValue): string {
    match v
    case Str(s) => s
    case Int(i) => IntToString(i)
    case Bool(b) => if b then "true" else "false"
    case Null => "null"
    case NaN => "NaN"
  }

  /** The JavaScript numeric conversion, restricted to integral values. */
  function ToNumber(v: JsValue): JsValue {
    match v
    case Str(s) => if IsNumeral(s) then Int(ParseInt(s)) else NaN
    case Int(i) => Int(i)
    case Bool(b) => Int(if b then 1 else 0)
    case Null => Int(0)
    case NaN => NaN
  }

  /** The JavaScript truthiness conversion. */
  function ToBoolean(v: JsValue): bool {
    match v
    case Str(s) => s != ""
    case Int(i) => i != 0
    case Bool(b) => b
    case Null => false
    case NaN => false
  }

  /** True when `v` already has the shape an attribute of type `t` holds. */
  predicate Conforms(t: AttrType, v: JsValue) {
    match t
    case StringType => v.Str?
    case IntegerType => v.Int? || v.NaN?
    case BooleanType => v.Bool?
  }

  /** Coerce a raw value to an attribute type: the same conversion is used
      when data is loaded and when an attribute is set. */
  function Coerce(t: AttrType, v: JsValue): (r: JsValue)
    ensures Conforms(t, r)
    ensures Conforms(t, v) ==> r == v
    ensures t == StringType ==> r == Str(ToStringValue(v))
    ensures t == BooleanType ==> (r == Bool(true) <==> ToBoolean(v))
    ensures t == IntegerType && v.Str? ==> (r.Int? <==> IsNumeral(v.s))
  {
    match t
    case StringType => Str(ToStringValue(v))
    case IntegerType => ToNumber(v)
    case BooleanType => Bool(ToBoolean(v))
  }

  /** Coercion is idempotent, so coercing on write and again on read gives the
      same value as coercing once. */
  lemma CoerceIdempotent(t: AttrType, v: JsValue)
    ensures Coerce(t, Coerce(t, v)) == Coerce(t, v)
  {
  }

  /** An integer survives a trip through a string attribute and back. */
  lemma IntegerStringRoundTrip(i: int)
    ensures Coerce(IntegerType, Coerce(StringType, Int(i))) == Int(i)
  {
    ParseIntToString(i);
  }

  lemma OneAndZeroNumerals()
    ensures IntToString(1) == "1" && IntToString(0) == "0"
    ensures IsNumeral("1") && ParseInt("1") == 1
    ensures IsNumeral("0") && ParseInt("0") == 0
  {
    assert "1"[..0] == [];
    assert "0"[..0] == [];
  }

  /** The coercion table the attribute tests exercise. */
  lemma CoercionTable()
    ensures Coerce(StringType, Str("Scumbag Tom")) == Str("Scumbag Tom")
    ensures Coerce(StringType, Int(1)) == Str("1")
    ensures Coerce(StringType, Null) == Str("null")
    ensures Coerce(IntegerType, Str("1")) == Int(1)
    ensures Coerce(IntegerType, Str("0")) == Int(0)
    ensures Coerce(IntegerType, Int(1)) == Int(1)
    ensures Coerce(IntegerType, Int(0)) == Int(0)
    ensures Coerce(IntegerType, Null) == Int(0)
    ensures Coerce(IntegerType, Bool(true)) == Int(1)
    ensures Coerce(IntegerType, Bool(false)) == Int(0)
    ensures Coerce(BooleanType, Str("1")) == Bool(true)
    ensures Coerce(BooleanType, Str("")) == Bool(false)
    ensures Coerce(BooleanType, Int(1)) == Bool(true)
    ensures Coerce(BooleanType, Int(0)) == Bool(false)
    ensures Coerce(BooleanType, Null) == Bool(false)
    ensures Coerce(BooleanType, Bool(true)) == Bool(true)
    ensures Coerce(BooleanType, Bool(false)) == Bool(false)
  {
    OneAndZeroNumerals();
  }
}
