/** Lookup, defaults and validation over an already parsed settings schema:
    a list of categories, each a list of setting entries. */
module SettingsSchema {
  import opened Common
  import opened SettingValues
  import SettingDefinitions

  /** One setting entry of the schema. A field read with a plain lookup is
      `NoneVal` when absent; `defaultValue` also records whether the entry has
      a "default" field at all. */
  datatype SchemaSetting = SchemaSetting(
    key: Value,
    kind: Value,
    defaultValue: Option<Value>,
    min: Value,
    max: Value,
    options: seq<Value>)

  datatype Category = Category(key: Value, settings: seq<SchemaSetting>)

  datatype Schema = Schema(categories: seq<Category>)

  /** Python `==` against a string is plain equality, so key comparisons
      below are written as `==` on values. */
  lemma PyEqWithString(x: Value, key: string)
    ensures PyEq(x, StrVal(key)) <==> x == StrVal(key)
  {
  }

  /** The first category whose key equals `key`. */
  function GetCategory(schema: Schema, key: string): (r: Option<Category>)
    ensures r.None? <==> forall i :: 0 <= i < |schema.categories| ==> schema.categories[i].key != StrVal(key)
    ensures r.Some? ==> exists i ::
      && 0 <= i < |schema.categories| && r.value == schema.categories[i] && r.value.key == StrVal(key)
      && forall j :: 0 <= j < i ==> schema.categories[j].key != StrVal(key)
    decreases |schema.categories|
  {
    if schema.categories == [] then None
    else if schema.categories[0].key == StrVal(key) then Some(schema.categories[0])
    else
      var rest := Schema(schema.categories[1..]);
      var r := GetCategory(rest, key);
      assert forall i :: 1 <= i < |schema.categories| ==> schema.categories[i] == rest.categories[i - 1];
      if r.Some? then
        var i :| 0 <= i < |rest.categories| && r.value == rest.categories[i] && r.value.key == StrVal(key)
          && forall j :: 0 <= j < i ==> rest.categories[j].key != StrVal(key);
        assert forall j :: 0 <= j < i + 1 ==> schema.categories[j].key != StrVal(key);
        r
      else r
  }

  /** Every setting entry, category by category, in schema order. */
  function AllSettings(categories: seq<Category>): (r: seq<SchemaSetting>)
    ensures forall c, x :: c in categories && x in c.settings ==> x in r
    ensures forall x :: x in r ==> exists c :: c in categories && x in c.settings
    decreases |categories|
  {
    if categories == [] then [] else categories[0].settings + AllSettings(categories[1..])
  }

  /** No entry of `all` has key `key`. */
  predicate NoneWithKey(all: seq<SchemaSetting>, key: string) {
    forall i :: 0 <= i < |all| ==> all[i].key != StrVal(key)
  }

  /** `x` is the first entry of `all` with key `key`. */
  predicate IsFirstWithKey(all: seq<SchemaSetting>, key: string, x: SchemaSetting) {
    exists i :: 0 <= i < |all| && all[i] == x && x.key == StrVal(key) && NoneWithKey(all[..i], key)
  }

  /** The first setting entry, across all categories, whose key equals `key`. */
  function GetSettingDefinition(schema: Schema, key: string): (r: Option<SchemaSetting>)
    ensures r.None? <==> NoneWithKey(AllSettings(schema.categories), key)
    ensures r.Some? ==> IsFirstWithKey(AllSettings(schema.categories), key, r.value)
  {
    FirstWithKey(AllSettings(schema.categories), key)
  }

  function FirstWithKey(all: seq<SchemaSetting>, key: string): (r: Option<SchemaSetting>)
    ensures r.None? <==> NoneWithKey(all, key)
    ensures r.Some? ==> IsFirstWithKey(all, key, r.value)
    decreases |all|
  {
    if all == [] then None
    else if all[0].key == StrVal(key) then
      assert all[..0] == [];
      Some(all[0])
    else
      var r := FirstWithKey(all[1..], key);
      assert NoneWithKey(all, key) <==> NoneWithKey(all[1..], key) by {
        assert forall i :: 1 <= i < |all| ==> all[i] == all[1..][i - 1];
      }
      if r.Some? then
        var i :| 0 <= i < |all[1..]| && all[1..][i] == r.value && r.value.key == StrVal(key) && NoneWithKey(all[1..][..i], key);
        assert all[..i + 1] == [all[0]] + all[1..][..i];
        r
      else r
  }

  /** The "default" field of the key's definition; None when the key is not
      defined or its definition has no default. */
  function GetDefaultValue(schema: Schema, key: string): (v: Value)
    ensures GetSettingDefinition(schema, key).None? ==> v == NoneVal
    ensures GetSettingDefinition(schema, key).Some? && GetSettingDefinition(schema, key).value.defaultValue.Some? ==>
      v == GetSettingDefinition(schema, key).value.defaultValue.value
    ensures GetSettingDefinition(schema, key).Some? && GetSettingDefinition(schema, key).value.defaultValue.None? ==>
      v == NoneVal
  {
    match GetSettingDefinition(schema, key)
    case None => NoneVal
    case Some(d) => if d.defaultValue.Some? then d.defaultValue.value else NoneVal
  }

  /** An entry contributes a default for `k`: its key is `k`, the key is
      truthy and the entry has a "default" field. */
  predicate Contributes(x: SchemaSetting, k: Value) {
    Truthy(x.key) && x.defaultValue.Some? && x.key == k
  }

  predicate SomeContributes(all: seq<SchemaSetting>, k: Value) {
    exists i :: 0 <= i < |all| && Contributes(all[i], k)
  }

  /** The defaults of the listed entries, a later entry overriding an earlier
      one with the same key. */
  function DefaultsOf(all: seq<SchemaSetting>): (r: map<Value, Value>)
    ensures forall k :: k in r <==> SomeContributes(all, k)
    decreases |all|
  {
    if all == [] then map[]
    else
      var n := |all|;
      var front := all[..n - 1];
      assert forall k :: SomeContributes(all, k) <==> SomeContributes(front, k) || Contributes(all[n - 1], k) by {
        assert forall i :: 0 <= i < n - 1 ==> front[i] == all[i];
      }
      var r := DefaultsOf(front);
      if Truthy(all[n - 1].key) && all[n - 1].defaultValue.Some? then r[all[n - 1].key := all[n - 1].defaultValue.value] else r
  }

  /** Every default in the schema, keyed by setting key. */
  function GetAllDefaults(schema: Schema): (r: map<Value, Value>)
    ensures forall k :: k in r <==> SomeContributes(AllSettings(schema.categories), k)
  {
    DefaultsOf(AllSettings(schema.categories))
  }

  /** No entry after position `i` contributes a default for `k`. */
  predicate NoneContributesAfter(all: seq<SchemaSetting>, i: int, k: Value) {
    forall j :: 0 <= j < |all| && i < j ==> !Contributes(all[j], k)
  }

  /** The last entry's default overrides those collected before it. */
  lemma DefaultsOfStep(all: seq<SchemaSetting>, k: Value)
    requires all != []
    ensures var last := all[|all| - 1];
      && (Contributes(last, k) ==> DefaultsOf(all)[k] == last.defaultValue.value)
      && (!Contributes(last, k) && k in DefaultsOf(all[..|all| - 1]) ==>
            DefaultsOf(all)[k] == DefaultsOf(all[..|all| - 1])[k])
  {
  }

  lemma NoneContributesAfterExtend(all: seq<SchemaSetting>, i: int, k: Value)
    requires all != [] && 0 <= i < |all| - 1
    requires NoneContributesAfter(all[..|all| - 1], i, k) && !Contributes(all[|all| - 1], k)
    ensures NoneContributesAfter(all, i, k)
  {
    var front := all[..|all| - 1];
    forall j | 0 <= j < |all| && i < j ensures !Contributes(all[j], k) {
      if j < |all| - 1 { assert all[j] == front[j]; }
    }
  }

  /** Entry `i` contributes a default for `k`, no later entry does, and the
      collected defaults map `k` to entry `i`'s default. */
  predicate CollectedFrom(all: seq<SchemaSetting>, k: Value, i: int) {
    && 0 <= i < |all| && Contributes(all[i], k)
    && k in DefaultsOf(all)
    && DefaultsOf(all)[k] == all[i].defaultValue.value
    && NoneContributesAfter(all, i, k)
  }

  /** A collected default comes from the last entry that contributes one for
      its key. */
  lemma {:induction false} DefaultsOfLastWins(all: seq<SchemaSetting>, k: Value)
    requires k in DefaultsOf(all)
    ensures exists i :: CollectedFrom(all, k, i)
    decreases |all|
  {
    var n := |all|;
    if Contributes(all[n - 1], k) {
      CollectedFromLast(all, k);
    } else {
      CollectedBefore(all, k);
      DefaultsOfLastWins(all[..n - 1], k);
      var i :| CollectedFrom(all[..n - 1], k, i);
      CollectedFromEarlier(all, k, i);
    }
  }

  /** A key the last entry contributes is collected from the last entry. */
  lemma CollectedFromLast(all: seq<SchemaSetting>, k: Value)
    requires all != [] && Contributes(all[|all| - 1], k)
    ensures CollectedFrom(all, k, |all| - 1)
  {
    DefaultsOfStep(all, k);
  }

  /** A collected key the last entry does not contribute was collected
      before it. */
  lemma CollectedBefore(all: seq<SchemaSetting>, k: Value)
    requires all != [] && k in DefaultsOf(all) && !Contributes(all[|all| - 1], k)
    ensures k in DefaultsOf(all[..|all| - 1])
  {
    var front := all[..|all| - 1];
    var i0 :| 0 <= i0 < |all| && Contributes(all[i0], k);
    assert i0 < |all| - 1 && front[i0] == all[i0];
  }

  /** A key the last entry leaves alone keeps the entry it was collected from. */
  lemma CollectedFromEarlier(all: seq<SchemaSetting>, k: Value, i: int)
    requires all != [] && !Contributes(all[|all| - 1], k)
    requires CollectedFrom(all[..|all| - 1], k, i)
    ensures CollectedFrom(all, k, i)
  {
    var front := all[..|all| - 1];
    DefaultsOfStep(all, k);
    assert all[i] == front[i];
    NoneContributesAfterExtend(all, i, k);
  }

  /** When one entry alone carries a key, the bulk defaults and the single
      lookup agree on its default. */
  lemma DefaultsAgreeForUniqueKey(schema: Schema, key: string)
    requires var all := AllSettings(schema.categories);
      exists i :: 0 <= i < |all| && all[i].key == StrVal(key) && all[i].defaultValue.Some?
        && forall j :: 0 <= j < |all| && j != i ==> all[j].key != StrVal(key)
    requires key != ""
    ensures StrVal(key) in GetAllDefaults(schema)
    ensures GetAllDefaults(schema)[StrVal(key)] == GetDefaultValue(schema, key)
  {
    var all := AllSettings(schema.categories);
    var i :| 0 <= i < |all| && all[i].key == StrVal(key) && all[i].defaultValue.Some?
      && forall j :: 0 <= j < |all| && j != i ==> all[j].key != StrVal(key);
    assert Contributes(all[i], StrVal(key));
    DefaultsOfLastWins(all, StrVal(key));
    var r := GetSettingDefinition(schema, key);
    assert !NoneWithKey(all, key);
    assert r.Some? && r.value == all[i];
  }

  const Checkbox: Value := StrVal("checkbox")
  const Slider: Value := StrVal("slider")
  const Spinbox: Value := StrVal("spinbox")
  const Select: Value := StrVal("select")
  const Text: Value := StrVal("text")

  /** A number checked against one bound of a schema entry: `None` skips the
      check, a number compares, anything else raises TypeError. */
  function WithinBound(v: Value, bound: Value, lower: bool): (r: Result<bool, ConversionError>)
    requires IsNumber(v)
    ensures bound.NoneVal? ==> r == Success(true)
    ensures IsNumber(bound) ==> r == Success(if lower then NumberOf(bound) <= NumberOf(v) else NumberOf(v) <= NumberOf(bound))
    ensures !bound.NoneVal? && !IsNumber(bound) ==> r == Failure(TypeError)
  {
    if bound.NoneVal? then Success(true)
    else if !IsNumber(bound) then Failure(TypeError)
    else if lower then Success(!(NumberOf(v) < NumberOf(bound)))
    else Success(!(NumberOf(v) > NumberOf(bound)))
  }

  /** Whether `v` is acceptable for the setting `key`, by the entry's type:
      a checkbox takes a bool, a slider or spinbox a number within its present
      bounds, a select one of its options, a text field a string, and any
      other type anything. An undefined key is refused. */
  function ValidateSettingValue(schema: Schema, key: string, v: Value): (r: Result<bool, ConversionError>)
    ensures GetSettingDefinition(schema, key).None? ==> r == Success(false)
    ensures r.Failure? ==> r.error == TypeError
    ensures r.Success? && r.value && GetSettingDefinition(schema, key).Some? ==>
      var d := GetSettingDefinition(schema, key).value;
      && (d.kind == Checkbox ==> v.BoolVal?)
      && (d.kind == Text ==> v.StrVal?)
      && (d.kind == Select ==> exists o :: o in d.options && PyEq(v, o))
      && (d.kind in {Slider, Spinbox} ==> IsNumber(v))
    ensures GetSettingDefinition(schema, key).Some? ==>
      var d := GetSettingDefinition(schema, key).value;
      && (d.kind == Checkbox ==> r == Success(v.BoolVal?))
      && (d.kind == Select ==> r == Success(exists o :: o in d.options && PyEq(v, o)))
      && (d.kind == Text ==> r == Success(v.StrVal?))
      && (d.kind !in {Checkbox, Slider, Spinbox, Select, Text} ==> r == Success(true))
    ensures GetSettingDefinition(schema, key).Some? && GetSettingDefinition(schema, key).value.kind in {Slider, Spinbox} ==>
      var d := GetSettingDefinition(schema, key).value;
      && (!IsNumber(v) ==> r == Success(false))
      && (IsNumber(v) ==>
            && (r == Success(true) <==> WithinBound(v, d.min, true) == Success(true) && WithinBound(v, d.max, false) == Success(true))
            && (WithinBound(v, d.min, true).Failure? ==> r == Failure(TypeError))
            && (WithinBound(v, d.min, true) == Success(false) ==> r == Success(false))
            && (WithinBound(v, d.min, true) == Success(true) ==> r == WithinBound(v, d.max, false)))
  {
    match GetSettingDefinition(schema, key)
    case None => Success(false)
    case Some(d) =>
      if d.kind == Checkbox then Success(v.BoolVal?)
      else if d.kind == Slider || d.kind == Spinbox then
        if !IsNumber(v) then Success(false)
        else
          match WithinBound(v, d.min, true)
          case Failure(e) => Failure(e)
          case Success(aboveMin) =>
            if !aboveMin then Success(false) else WithinBound(v, d.max, false)
      else if d.kind == Select then Success(exists o :: o in d.options && PyEq(v, o))
      else if d.kind == Text then Success(v.StrVal?)
      else Success(true)
  }

  /** With numeric bounds, a schema slider or spinbox validates exactly as a
      slider setting with the same bounds does. */
  lemma SchemaSliderMatchesSliderSetting(schema: Schema, key: string, v: Value, md: SettingDefinitions.Metadata)
    requires GetSettingDefinition(schema, key).Some?
    requires var d := GetSettingDefinition(schema, key).value;
      d.kind in {Slider, Spinbox} && IsNumber(d.min) && IsNumber(d.max)
      && md.minValue == Some(NumberOf(d.min)) && md.maxValue == Some(NumberOf(d.max))
    ensures SettingDefinitions.WellFormed(SettingDefinitions.Definition(SettingDefinitions.SliderKind, md))
    ensures ValidateSettingValue(schema, key, v)
      == Success(SettingDefinitions.Validate(SettingDefinitions.Definition(SettingDefinitions.SliderKind, md), v))
  {
  }

  /** With bounds that are each absent or numeric, a schema slider or spinbox
      validates exactly as a float setting with the same present bounds. */
  lemma SchemaRangeMatchesFloatSetting(schema: Schema, key: string, v: Value, md: SettingDefinitions.Metadata)
    requires GetSettingDefinition(schema, key).Some?
    requires var d := GetSettingDefinition(schema, key).value;
      && d.kind in {Slider, Spinbox}
      && (d.min.NoneVal? || IsNumber(d.min)) && (d.max.NoneVal? || IsNumber(d.max))
      && md.minValue == (if d.min.NoneVal? then None else Some(NumberOf(d.min)))
      && md.maxValue == (if d.max.NoneVal? then None else Some(NumberOf(d.max)))
    ensures SettingDefinitions.WellFormed(SettingDefinitions.Definition(SettingDefinitions.FloatKind, md))
    ensures ValidateSettingValue(schema, key, v)
      == Success(SettingDefinitions.Validate(SettingDefinitions.Definition(SettingDefinitions.FloatKind, md), v))
  {
  }

  /** A schema checkbox validates as a boolean setting and a text field as a
      string setting. */
  lemma SchemaFieldsMatchSettingKinds(schema: Schema, key: string, v: Value, md: SettingDefinitions.Metadata)
    requires GetSettingDefinition(schema, key).Some?
    requires GetSettingDefinition(schema, key).value.kind in {Checkbox, Text}
    ensures var kind :=
      if GetSettingDefinition(schema, key).value.kind == Checkbox then SettingDefinitions.BooleanKind
      else SettingDefinitions.StringKind;
      && SettingDefinitions.WellFormed(SettingDefinitions.Definition(kind, md))
      && ValidateSettingValue(schema, key, v) == Success(SettingDefinitions.Validate(SettingDefinitions.Definition(kind, md), v))
  {
  }

  /** Select membership uses Python `==`: an option 1 admits `True` and 1.0. */
  lemma SelectAdmitsEqualNumbers(schema: Schema, key: string)
    requires GetSettingDefinition(schema, key).Some?
    requires var d := GetSettingDefinition(schema, key).value; d.kind == Select && IntVal(1) in d.options
    ensures ValidateSettingValue(schema, key, BoolVal(true)) == Success(true)
    ensures ValidateSettingValue(schema, key, FloatVal(1.0)) == Success(true)
  {
    assert PyEq(BoolVal(true), IntVal(1)) && PyEq(FloatVal(1.0), IntVal(1));
  }

  /** A bound that is neither null nor a number makes validating any number
      raise TypeError. */
  lemma NonNumericBoundRaises(schema: Schema, key: string, v: Value)
    requires GetSettingDefinition(schema, key).Some?
    requires var d := GetSettingDefinition(schema, key).value; d.kind == Slider && d.min.StrVal?
    requires IsNumber(v)
    ensures ValidateSettingValue(schema, key, v) == Failure(TypeError)
  {
  }
}
