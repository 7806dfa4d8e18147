/** Typed setting definitions: metadata, per-kind validation, and the
    conversion applied when a value is serialised or deserialised. */
module SettingDefinitions {
  import opened Common
  import opened SettingValues

  /** The declared type tag. It is descriptive only: behaviour follows the
      definition's `Kind`. */
  datatype SettingType = IntegerType | FloatType | BooleanType | StringType | SliderType

  datatype Metadata = Metadata(
    key: string,
    displayName: string,
    description: string,
    settingType: SettingType,
    defaultValue: Value,
    minValue: Option<real>,
    maxValue: Option<real>,
    step: Option<real>)

  /** Which definition class a setting is. */
  datatype Kind = IntegerKind | FloatKind | BooleanKind | StringKind | SliderKind

  datatype Definition = Definition(kind: Kind, metadata: Metadata)

  /** What every constructed definition satisfies: a slider has both bounds. */
  predicate WellFormed(d: Definition) {
    d.kind == SliderKind ==> d.metadata.minValue.Some? && d.metadata.maxValue.Some?
  }

  const SliderBoundsMessage: string := "Slider setting requires min_value and max_value"

  /** Building a definition of the given kind; only a slider can be refused. */
  function NewDefinition(kind: Kind, metadata: Metadata): (r: Result<Definition, string>)
    ensures r.Success? <==> (kind == SliderKind ==> metadata.minValue.Some? && metadata.maxValue.Some?)
    ensures r.Success? ==> r.value == Definition(kind, metadata) && WellFormed(r.value)
    ensures r.Failure? ==> r.error == SliderBoundsMessage
  {
    if kind == SliderKind && (metadata.minValue.None? || metadata.maxValue.None?) then
      Failure(SliderBoundsMessage)
    else
      Success(Definition(kind, metadata))
  }

  /** A number respects a bound that is present; an absent bound holds. */
  predicate AtLeast(n: real, bound: Option<real>) {
    bound.None? || bound.value <= n
  }

  predicate AtMost(n: real, bound: Option<real>) {
    bound.None? || n <= bound.value
  }

  /** Whether a value is acceptable for a definition. Integer settings accept
      None and ints (bools included) within present bounds; float settings
      numbers within present bounds; sliders numbers within their inclusive
      bounds; boolean and string settings values of their own type. */
  predicate Validate(d: Definition, v: Value)
    requires WellFormed(d)
  {
    var md := d.metadata;
    match d.kind
    case IntegerKind =>
      v.NoneVal? || (IsInt(v) && AtLeast(NumberOf(v), md.minValue) && AtMost(NumberOf(v), md.maxValue))
    case FloatKind =>
      IsNumber(v) && AtLeast(NumberOf(v), md.minValue) && AtMost(NumberOf(v), md.maxValue)
    case SliderKind =>
      IsNumber(v) && md.minValue.value <= NumberOf(v) <= md.maxValue.value
    case BooleanKind => v.BoolVal?
    case StringKind => v.StrVal?
  }

  /** The conversion a definition applies both when serialising a stored value
      and when deserialising a loaded one: `int` (keeping None) for integer
      settings, `float` for float settings and sliders, truthiness for
      booleans and `str` for strings. */
  function Convert(conv: Conversions, d: Definition, v: Value): (r: Result<Value, ConversionError>)
    ensures d.kind == IntegerKind ==> (r.Success? ==> r.value.NoneVal? || r.value.IntVal?)
    ensures d.kind in {FloatKind, SliderKind} ==> (r.Success? ==> r.value.FloatVal?)
    ensures d.kind == BooleanKind ==> r == Success(BoolVal(Truthy(v)))
    ensures d.kind == StringKind ==> r.Success? && r.value.StrVal?
    ensures d.kind in {BooleanKind, StringKind} ==> r.Success?
    ensures d.kind == IntegerKind && (v.NoneVal? || IsNumber(v)) ==> r.Success? && PyEq(r.value, if v.NoneVal? then v else IntVal(Trunc(NumberOf(v))))
    ensures d.kind == IntegerKind && IsNumber(v) ==> r == Success(IntVal(Trunc(NumberOf(v))))
    ensures d.kind == IntegerKind && v.StrVal? ==>
      r == (if conv.parseInt(v.s).Some? then Success(IntVal(conv.parseInt(v.s).value)) else Failure(ValueError))
    ensures d.kind in {FloatKind, SliderKind} && IsNumber(v) ==> r == Success(FloatVal(NumberOf(v)))
    ensures d.kind in {FloatKind, SliderKind} && v.NoneVal? ==> r == Failure(TypeError)
    ensures d.kind in {FloatKind, SliderKind} && v.StrVal? ==>
      r == (if conv.parseFloat(v.s).Some? then Success(FloatVal(conv.parseFloat(v.s).value)) else Failure(ValueError))
    ensures d.kind == StringKind && v.StrVal? ==> r == Success(v)
    ensures d.kind == StringKind && v.NoneVal? ==> r == Success(StrVal("None"))
    ensures d.kind == StringKind && v.BoolVal? ==> r == Success(StrVal(if v.b then "True" else "False"))
    ensures d.kind == StringKind && v.IntVal? ==> r.value.StrVal? && IsIntText(r.value.s) && IntTextValue(r.value.s) == v.i
    ensures d.kind == StringKind && v.IntVal? ==> IsCanonicalIntText(r.value.s)
  {
    match d.kind
    case IntegerKind => if v.NoneVal? then Success(v) else ToInt(conv, v)
    case FloatKind => ToFloat(conv, v)
    case SliderKind => ToFloat(conv, v)
    case BooleanKind => Success(BoolVal(Truthy(v)))
    case StringKind => Success(StrVal(ToStr(conv, v)))
  }

  /** A valid value survives conversion: the result is equal to it under
      Python `==` (identical for booleans and strings), still valid, and
      left alone by converting it again. So a valid value survives a
      serialise/deserialise round trip, whatever the string conversions do. */
  lemma ValidValueRoundTrip(conv: Conversions, d: Definition, v: Value)
    requires WellFormed(d) && Validate(d, v)
    ensures var r := Convert(conv, d, v);
      && r.Success?
      && PyEq(r.value, v)
      && Validate(d, r.value)
      && Convert(conv, d, r.value) == r
      && (d.kind in {BooleanKind, StringKind} ==> r.value == v)
  {
  }

  /** Conversion is idempotent on whatever it produces, valid or not. */
  lemma ConvertIdempotent(conv: Conversions, d: Definition, v: Value)
    requires Convert(conv, d, v).Success?
    ensures Convert(conv, d, Convert(conv, d, v).value) == Convert(conv, d, v)
  {
  }

  /** The bounds checks are inclusive at both ends. */
  lemma BoundsAreInclusive(d: Definition, lo: real, hi: real)
    requires d.metadata.minValue == Some(lo) && d.metadata.maxValue == Some(hi) && lo <= hi
    requires d.kind in {FloatKind, SliderKind}
    ensures WellFormed(d)
    ensures Validate(d, FloatVal(lo)) && Validate(d, FloatVal(hi))
    ensures !Validate(d, FloatVal(lo - 1.0)) && !Validate(d, FloatVal(hi + 1.0))
  {
  }

  /** Booleans count as integers: `True` is a valid integer setting value
      exactly when 1 lies within the bounds. */
  lemma BoolIsValidInteger(d: Definition)
    requires d.kind == IntegerKind
    ensures WellFormed(d)
    ensures Validate(d, BoolVal(true)) <==> AtLeast(1.0, d.metadata.minValue) && AtMost(1.0, d.metadata.maxValue)
    ensures Convert(Conversions(_ => None, _ => None, _ => ""), d, BoolVal(true)) == Success(IntVal(1))
  {
  }

  /** An integer setting accepts None and exactly those ints that a float
      setting with the same bounds accepts. */
  lemma IntegerIsBoundedFloatOverInts(md: Metadata, v: Value)
    ensures WellFormed(Definition(IntegerKind, md)) && WellFormed(Definition(FloatKind, md))
    ensures Validate(Definition(IntegerKind, md), v)
      <==> v.NoneVal? || (IsInt(v) && Validate(Definition(FloatKind, md), v))
  {
  }

  /** A slider accepts exactly what a float setting with the same, present,
      bounds accepts. */
  lemma SliderIsBoundedFloat(md: Metadata, v: Value)
    requires md.minValue.Some? && md.maxValue.Some?
    ensures WellFormed(Definition(SliderKind, md))
    ensures Validate(Definition(SliderKind, md), v) <==> Validate(Definition(FloatKind, md), v)
  {
  }
}
