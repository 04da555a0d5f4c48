/**
  The JavaScript primitive values that configuration objects and parsed
  command-line arguments hold, with the coercions the `test` command relies
  on: truthiness (`x || undefined`, `Boolean(x)`), the global `isFinite`,
  loose equality with 1 (`workers != 1`) and template-string conversion
  (`${x}`).

  Numbers are integers plus NaN and the two infinities; fractional numbers
  are not modelled.
 */
module JsValues {
  import opened Wrappers

  datatype JsValue =
    | Undefined
    | Null
    | Bool(b: bool)
    | Num(n: int)
    | NaN
    | Infinity(negative: bool)
    | Str(s: string)

  /** ECMAScript ToBoolean. */
  predicate Truthy(v: JsValue) {
    match v
    case Undefined => false
    case Null => false
    case Bool(b) => b
    case Num(n) => n != 0
    case NaN => false
    case Infinity(_) => true
    case Str(s) => s != ""
  }

  /** A property value other than `undefined`: the key is rendered on the command line. */
  predicate Present(v: JsValue) {
    v != Undefined
  }

  /** `v || undefined` */
  function OrUndefined(v: JsValue): (r: JsValue)
    ensures Present(r) <==> Truthy(v)
    ensures Present(r) ==> r == v
  {
    if Truthy(v) then v else Undefined
  }

  /** `Boolean(v) || undefined` */
  function TrueOrUndefined(v: JsValue): (r: JsValue)
    ensures Present(r) <==> Truthy(v)
    ensures Present(r) ==> r == Bool(true)
  {
    if Truthy(v) then Bool(true) else Undefined
  }

  // ---------------------------------------------------------------------
  // Decimal digits

  predicate IsDigit(c: char) {
    '0' <= c <= '9'
  }

  predicate AllDigits(s: string) {
    forall i :: 0 <= i < |s| ==> IsDigit(s[i])
  }

  function DigitValue(c: char): (d: nat)
    requires IsDigit(c)
    ensures d < 10
  {
    (c as int) - ('0' as int)
  }

  function DigitChar(d: nat): (c: char)
    requires d < 10
    ensures IsDigit(c) && DigitValue(c) == d
  {
    ('0' as int + d) as char
  }

  /** The shortest decimal numeral of `n`, most significant digit first. */
  function NatToDecimal(n: nat): (s: string)
    ensures |s| > 0 && AllDigits(s)
    ensures |s| > 1 ==> s[0] != '0'
    decreases n
  {
    if n < 10 then [DigitChar(n)] else NatToDecimal(n / 10) + [DigitChar(n % 10)]
  }

  /** The value of a numeral, read most significant digit first. */
  function DigitsValue(s: string): nat
    requires AllDigits(s)
    decreases |s|
  {
    if s == [] then 0 else 10 * DigitsValue(s[..|s| - 1]) + DigitValue(s[|s| - 1])
  }

  lemma {:induction false} DecimalRoundTrip(n: nat)
    ensures DigitsValue(NatToDecimal(n)) == n
    decreases n
  {
    if n >= 10 {
      DecimalRoundTrip(n / 10);
      var s := NatToDecimal(n);
      assert s[..|s| - 1] == NatToDecimal(n / 10);
    }
  }

  /**
    `String(n)` for an integer `n` of magnitude below 10^21, where
    ECMAScript's Number::toString writes every digit.
   */
  function IntToDecimal(n: int): string {
    if n < 0 then "-" + NatToDecimal(-n) else NatToDecimal(n)
  }

  /**
    ECMAScript ToNumber applied to a string, restricted to the numerals the
    model recognises: the empty string is 0, an optional sign followed by
    decimal digits is that integer, anything else is NaN (None).
   */
  function StringToNumber(s: string): Option<int> {
    if s == "" then Some(0)
    else if (s[0] == '-' || s[0] == '+') && |s| > 1 && AllDigits(s[1..]) then
      var magnitude: int := DigitsValue(s[1..]);
      Some(if s[0] == '-' then -magnitude else magnitude)
    else if AllDigits(s) then Some(DigitsValue(s))
    else None
  }

  /** Reading back what `String(n)` printed gives `n` again. */
  lemma NumberStringRoundTrip(n: int)
    ensures StringToNumber(IntToDecimal(n)) == Some(n)
  {
    var s := IntToDecimal(n);
    if n < 0 {
      DecimalRoundTrip(-n);
      assert s[1..] == NatToDecimal(-n);
    } else {
      DecimalRoundTrip(n);
      assert IsDigit(s[0]);
    }
  }

  /**
    ECMAScript ToNumber of a primitive when the result is a finite number:
    `undefined` is NaN, `null` and `false` are 0, `true` is 1, a string is
    read as a numeral; NaN and the infinities have no finite value.
   */
  function FiniteNumber(v: JsValue): Option<int> {
    match v
    case Undefined => None
    case Null => Some(0)
    case Bool(b) => Some(if b then 1 else 0)
    case Num(n) => Some(n)
    case NaN => None
    case Infinity(_) => None
    case Str(s) => StringToNumber(s)
  }

  /** The global `isFinite(v)`, which first converts `v` with ToNumber. */
  predicate IsFinite(v: JsValue): (r: bool)
    ensures r <==> FiniteNumber(v).Some?
  {
    match v
    case Undefined => false
    case Null => true
    case Bool(_) => true
    case Num(_) => true
    case NaN => false
    case Infinity(_) => false
    case Str(s) => StringToNumber(s).Some?
  }

  /** `v == 1` with JavaScript's loose equality; `v != 1` is its negation. */
  predicate LooseEqualsOne(v: JsValue): (r: bool)
    ensures r <==> FiniteNumber(v) == Some(1)
  {
    match v
    case Bool(b) => b
    case Num(n) => n == 1
    case Str(s) => StringToNumber(s) == Some(1)
    case _ => false
  }

  /** `${v}`: ECMAScript ToString of a primitive. */
  function TemplateString(v: JsValue): string {
    match v
    case Undefined => "undefined"
    case Null => "null"
    case Bool(b) => if b then "true" else "false"
    case Num(n) => IntToDecimal(n)
    case NaN => "NaN"
    case Infinity(negative) => if negative then "-Infinity" else "Infinity"
    case Str(s) => s
  }

  /** Only `true` and the string "true" are written as "true" by a template string. */
  lemma TemplateStringIsTrue(v: JsValue)
    ensures TemplateString(v) == "true" <==> v == Bool(true) || v == Str("true")
  {
    if v.Num? {
      var s := TemplateString(v);
      assert s[0] == '-' || IsDigit(s[0]);
      assert "true"[0] == 't';
    }
  }
}
