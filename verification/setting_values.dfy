/** Dynamically typed setting values and the Python conversions the setting
    definitions apply to them. */
module SettingValues {
  import opened Common

  /** A JSON-compatible scalar as Python holds it. */
  datatype Value =
    | NoneVal
    | BoolVal(b: bool)
    | IntVal(i: int)
    | FloatVal(r: real)
    | StrVal(s: string)

  /** `isinstance(v, int)`: a bool is an int in Python. */
  predicate IsInt(v: Value) {
    v.BoolVal? || v.IntVal?
  }

  /** `isinstance(v, (int, float))`. */
  predicate IsNumber(v: Value) {
    IsInt(v) || v.FloatVal?
  }

  /** The numeric value of a number, with `False` as 0 and `True` as 1. */
  function NumberOf(v: Value): (n: real)
    requires IsNumber(v)
    ensures v.IntVal? ==> n == v.i as real
    ensures v.FloatVal? ==> n == v.r
    ensures v.BoolVal? ==> n == if v.b then 1.0 else 0.0
  {
    match v
    case BoolVal(b) => if b then 1.0 else 0.0
    case IntVal(i) => i as real
    case FloatVal(r) => r
  }

  /** Python `==` between two values: numbers compare by value across bool,
      int and float; other values only equal values of their own kind. */
  predicate PyEq(a: Value, b: Value) {
    if IsNumber(a) && IsNumber(b) then NumberOf(a) == NumberOf(b)
    else a == b
  }

  /** Python `==` is an equivalence relation on these values. */
  lemma PyEqIsEquivalence(a: Value, b: Value, c: Value)
    ensures PyEq(a, a)
    ensures PyEq(a, b) ==> PyEq(b, a)
    ensures PyEq(a, b) && PyEq(b, c) ==> PyEq(a, c)
  {
  }

  /** `bool(v)`. */
  predicate Truthy(v: Value) {
    match v
    case NoneVal => false
    case BoolVal(b) => b
    case IntVal(i) => i != 0
    case FloatVal(r) => r != 0.0
    case StrVal(s) => s != ""
  }

  /** Python `==` never tells apart values of different truthiness. */
  lemma PyEqKeepsTruthiness(a: Value, b: Value)
    requires PyEq(a, b)
    ensures Truthy(a) == Truthy(b)
  {
  }

  /** The exceptions a failed conversion raises. */
  datatype ConversionError = ValueError | TypeError

  /** The string conversions of the Python runtime: `int(s)` and `float(s)`
      on strings (None when they raise ValueError) and `repr` of a float. */
  datatype Conversions = Conversions(
    parseInt: string -> Option<int>,
    parseFloat: string -> Option<real>,
    floatText: real -> string)

  /** `int(r)` on a float: truncation toward zero. */
  function Trunc(r: real): (i: int)
    ensures r >= 0.0 ==> 0 <= i && i as real <= r < i as real + 1.0
    ensures r < 0.0 ==> i <= 0 && i as real - 1.0 < r <= i as real
  {
    if r >= 0.0 then r.Floor else -((-r).Floor)
  }

  /** `int(v)`. */
  function ToInt(conv: Conversions, v: Value): (r: Result<Value, ConversionError>)
    ensures r.Success? ==> r.value.IntVal?
    ensures IsNumber(v) ==> r.Success? && r.value.i == Trunc(NumberOf(v))
    ensures v.NoneVal? ==> r == Failure(TypeError)
    ensures v.StrVal? ==>
      r == (if conv.parseInt(v.s).Some? then Success(IntVal(conv.parseInt(v.s).value)) else Failure(ValueError))
  {
    match v
    case NoneVal => Failure(TypeError)
    case BoolVal(b) => Success(IntVal(if b then 1 else 0))
    case IntVal(i) => Success(IntVal(i))
    case FloatVal(r) => Success(IntVal(Trunc(r)))
    case StrVal(s) =>
      match conv.parseInt(s)
      case Some(i) => Success(IntVal(i))
      case None => Failure(ValueError)
  }

  /** `float(v)`. */
  function ToFloat(conv: Conversions, v: Value): (r: Result<Value, ConversionError>)
    ensures r.Success? ==> r.value.FloatVal?
    ensures IsNumber(v) ==> r == Success(FloatVal(NumberOf(v)))
    ensures v.NoneVal? ==> r == Failure(TypeError)
    ensures v.StrVal? ==>
      r == (if conv.parseFloat(v.s).Some? then Success(FloatVal(conv.parseFloat(v.s).value)) else Failure(ValueError))
  {
    match v
    case NoneVal => Failure(TypeError)
    case StrVal(s) =>
      (match conv.parseFloat(s)
       case Some(x) => Success(FloatVal(x))
       case None => Failure(ValueError))
    case _ => Success(FloatVal(NumberOf(v)))
  }

  /** A decimal digit. */
  function Digit(d: nat): (c: char)
    requires d < 10
    ensures '0' <= c <= '9' && (c - '0') as nat == d
  {
    '0' + d as char
  }

  /** The decimal digits of a natural number, most significant first. */
  function Digits(n: nat): (s: string)
    ensures s != []
    ensures AllDigits(s)
    ensures s[0] == '0' ==> s == "0"
    ensures n == 0 <==> s == "0"
    decreases n
  {
    if n < 10 then [Digit(n)] else Digits(n / 10) + [Digit(n % 10)]
  }

  /** `str(i)` for an int. */
  function IntText(i: int): (s: string)
    ensures s != []
    ensures i < 0 <==> s[0] == '-'
    ensures IsCanonicalIntText(s)
  {
    assert i < 0 ==> ("-" + Digits(-i))[1..] == Digits(-i);
    if i < 0 then "-" + Digits(-i) else Digits(i)
  }

  /** `str(v)`. */
  function ToStr(conv: Conversions, v: Value): (s: string)
    ensures v.StrVal? ==> s == v.s
    ensures v.NoneVal? ==> s == "None"
    ensures v.BoolVal? ==> s == if v.b then "True" else "False"
    ensures v.IntVal? ==> IsIntText(s) && IntTextValue(s) == v.i
    ensures v.IntVal? ==> IsCanonicalIntText(s)
  {
    match v
    case NoneVal => "None"
    case BoolVal(b) => if b then "True" else "False"
    case IntVal(i) => IntTextRoundTrip(i); IntText(i)
    case FloatVal(r) => conv.floatText(r)
    case StrVal(s) => s
  }

  /** The number a string of decimal digits denotes. */
  function DecimalValue(s: string): nat
    requires AllDigits(s)
    decreases |s|
  {
    if s == [] then 0 else 10 * DecimalValue(s[..|s| - 1]) + (s[|s| - 1] - '0') as nat
  }

  /** Reading back the digits of a natural number gives the number. */
  lemma {:induction false} DigitsRoundTrip(n: nat)
    ensures DecimalValue(Digits(n)) == n
    decreases n
  {
    var s := Digits(n);
    if n >= 10 {
      DigitsRoundTrip(n / 10);
      assert s[..|s| - 1] == Digits(n / 10);
    }
  }

  predicate AllDigits(s: string) {
    forall i :: 0 <= i < |s| ==> '0' <= s[i] <= '9'
  }

  /** The shape of Python's decimal int literal: an optional minus sign and
      at least one digit. */
  predicate IsIntText(s: string) {
    if s != [] && s[0] == '-' then s[1..] != [] && AllDigits(s[1..]) else s != [] && AllDigits(s)
  }

  /** Python's own spelling of an int: no leading zero (other than "0"
      itself) and no "-0". */
  predicate IsCanonicalIntText(s: string) {
    && IsIntText(s)
    && var d := if s[0] == '-' then s[1..] else s;
       (d[0] == '0' ==> d == "0") && (s[0] == '-' ==> d != "0")
  }

  /** The int a decimal int literal denotes. */
  function IntTextValue(s: string): int
    requires IsIntText(s)
  {
    if s[0] == '-' then -(DecimalValue(s[1..]) as int) else DecimalValue(s) as int
  }

  /** `str` of an int is a decimal literal that denotes the int. */
  lemma IntTextRoundTrip(i: int)
    ensures IsIntText(IntText(i)) && IntTextValue(IntText(i)) == i
  {
    var s := IntText(i);
    if i < 0 {
      assert s[1..] == Digits(-i);
      DigitsRoundTrip(-i);
    } else {
      DigitsRoundTrip(i);
    }
  }

  /** A leading digit bounds the value from below. */
  lemma {:induction false} DecimalValueAtLeastLead(s: string)
    requires AllDigits(s) && s != []
    ensures DecimalValue(s) >= (s[0] - '0') as nat
    decreases |s|
  {
    if |s| > 1 {
      DecimalValueAtLeastLead(s[..|s| - 1]);
    }
  }

  /** A digit string without a leading zero is the spelling of its value. */
  lemma {:induction false} DigitsOfValue(s: string)
    requires AllDigits(s) && s != [] && (s[0] == '0' ==> s == "0")
    ensures Digits(DecimalValue(s)) == s
    decreases |s|
  {
    if |s| > 1 {
      var front := s[..|s| - 1];
      assert front[0] == s[0];
      DecimalValueAtLeastLead(front);
      DigitsOfValue(front);
    }
  }

  /** Only one canonical literal denotes a given int, so `str(i)` is pinned
      by being canonical and reading back as `i`. */
  lemma CanonicalIntTextUnique(s: string, i: int)
    requires IsCanonicalIntText(s) && IntTextValue(s) == i
    ensures s == IntText(i)
  {
    if s[0] == '-' {
      var d := s[1..];
      DecimalValueAtLeastLead(d);
      DigitsOfValue(d);
      assert s == "-" + d;
    } else {
      DigitsOfValue(s);
    }
  }
}
