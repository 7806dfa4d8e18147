/** The settings store: groups of definitions and the current value of every
    defined key. */
module SettingsStore {
  import opened Common
  import opened SettingValues
  import opened SettingDefinitions

  datatype Group = Group(name: string, displayName: string, description: string, settings: map<string, Definition>)

  /** The groups, in the order of the dictionary that holds them, and the
      current value of each key. */
  datatype Settings = Settings(groups: seq<Group>, values: map<string, Value>) {
    /** Every definition was constructed, and exactly the defined keys hold
        values. */
    predicate Valid() {
      GroupsWellFormed(groups) && values.Keys == DefinedKeys(groups)
    }
  }

  predicate GroupsWellFormed(groups: seq<Group>) {
    forall i, k :: 0 <= i < |groups| && k in groups[i].settings ==> WellFormed(groups[i].settings[k])
  }

  /** Some group defines `key`. */
  predicate Defines(groups: seq<Group>, key: string) {
    exists i :: 0 <= i < |groups| && key in groups[i].settings
  }

  /** The keys some group defines. */
  function DefinedKeys(groups: seq<Group>): (r: set<string>)
    ensures forall k :: k in r <==> Defines(groups, k)
    decreases |groups|
  {
    if groups == [] then {}
    else
      forall k ensures Defines(groups, k) <==> Defines(groups[..|groups| - 1], k) || k in groups[|groups| - 1].settings {
        DefinesSnoc(groups, k);
      }
      DefinedKeys(groups[..|groups| - 1]) + groups[|groups| - 1].settings.Keys
  }

  lemma DefinesSnoc(groups: seq<Group>, k: string)
    requires groups != []
    ensures Defines(groups, k) <==> Defines(groups[..|groups| - 1], k) || k in groups[|groups| - 1].settings
  {
    var front := groups[..|groups| - 1];
    if Defines(front, k) {
      var i :| 0 <= i < |front| && k in front[i].settings;
      assert groups[i] == front[i];
    }
    if Defines(groups, k) && k !in groups[|groups| - 1].settings {
      var i :| 0 <= i < |groups| && k in groups[i].settings;
      assert front[i] == groups[i];
    }
  }

  /** The definition of `key` in the first group that has one. */
  function FindDefinition(groups: seq<Group>, key: string): (r: Option<Definition>)
    ensures r.None? <==> !Defines(groups, key)
    ensures r.Some? ==> exists i ::
      && 0 <= i < |groups| && key in groups[i].settings && r.value == groups[i].settings[key]
      && forall j :: 0 <= j < i ==> key !in groups[j].settings
    ensures GroupsWellFormed(groups) && r.Some? ==> WellFormed(r.value)
    decreases |groups|
  {
    if groups == [] then None
    else if key in groups[0].settings then Some(groups[0].settings[key])
    else
      var r := FindDefinition(groups[1..], key);
      assert Defines(groups, key) ==> Defines(groups[1..], key) by {
        if Defines(groups, key) {
          var i :| 0 <= i < |groups| && key in groups[i].settings;
          assert i > 0 && key in groups[1..][i - 1].settings;
        }
      }
      assert r.Some? ==> exists i ::
        && 0 <= i < |groups| && key in groups[i].settings && r.value == groups[i].settings[key]
        && forall j :: 0 <= j < i ==> key !in groups[j].settings
      by {
        if r.Some? {
          var i :| 0 <= i < |groups[1..]| && key in groups[1..][i].settings && r.value == groups[1..][i].settings[key]
            && forall j :: 0 <= j < i ==> key !in groups[1..][j].settings;
          assert forall j :: 0 <= j < i + 1 ==> key !in groups[j].settings by {
            forall j | 0 <= j < i + 1 ensures key !in groups[j].settings {
              if j > 0 { assert groups[j] == groups[1..][j - 1]; }
            }
          }
        }
      }
      r
  }

  /** The defaults of one group, keyed as the group's dictionary keys them. */
  function GroupDefaults(g: Group): (r: map<string, Value>)
    ensures r.Keys == g.settings.Keys
  {
    map k | k in g.settings :: g.settings[k].metadata.defaultValue
  }

  /** The initial values: each group's defaults in turn, so that a key defined
      in several groups takes the default of the last of them. */
  function LoadDefaults(groups: seq<Group>): (r: map<string, Value>)
    ensures r.Keys == DefinedKeys(groups)
    decreases |groups|
  {
    if groups == [] then map[]
    else
      LoadDefaults(groups[..|groups| - 1]) + GroupDefaults(groups[|groups| - 1])
  }

  /** No group after position `i` defines `k`. */
  predicate NoneAfter(groups: seq<Group>, i: int, k: string) {
    forall j :: 0 <= j < |groups| && i < j ==> k !in groups[j].settings
  }

  /** Group `i` defines `k`, no later group does, and loading the defaults
      gives `k` the default of group `i`. */
  predicate LoadedFrom(groups: seq<Group>, k: string, i: int) {
    && 0 <= i < |groups| && k in groups[i].settings
    && k in LoadDefaults(groups)
    && LoadDefaults(groups)[k] == groups[i].settings[k].metadata.defaultValue
    && NoneAfter(groups, i, k)
  }

  /** Each key starts at the default its last defining group gives it. */
  lemma {:induction false} LoadDefaultsLastWins(groups: seq<Group>, k: string)
    requires Defines(groups, k)
    ensures exists i :: LoadedFrom(groups, k, i)
    decreases |groups|
  {
    var n := |groups|;
    DefinesSnoc(groups, k);
    if k in groups[n - 1].settings {
      LoadedFromLast(groups, k);
    } else {
      LoadDefaultsLastWins(groups[..n - 1], k);
      var i :| LoadedFrom(groups[..n - 1], k, i);
      LoadedFromEarlier(groups, k, i);
    }
  }

  /** A key the last group defines is loaded from the last group. */
  lemma LoadedFromLast(groups: seq<Group>, k: string)
    requires groups != [] && k in groups[|groups| - 1].settings
    ensures LoadedFrom(groups, k, |groups| - 1)
  {
    LoadDefaultsStep(groups, k);
  }

  /** A key the last group leaves alone keeps the group it was loaded from. */
  lemma LoadedFromEarlier(groups: seq<Group>, k: string, i: int)
    requires groups != [] && k !in groups[|groups| - 1].settings
    requires LoadedFrom(groups[..|groups| - 1], k, i)
    ensures LoadedFrom(groups, k, i)
  {
    var front := groups[..|groups| - 1];
    LoadDefaultsStep(groups, k);
    assert groups[i] == front[i];
    NoneAfterExtend(groups, i, k);
  }

  lemma NoneAfterExtend(groups: seq<Group>, i: int, k: string)
    requires groups != [] && 0 <= i < |groups| - 1
    requires NoneAfter(groups[..|groups| - 1], i, k) && k !in groups[|groups| - 1].settings
    ensures NoneAfter(groups, i, k)
  {
    var front := groups[..|groups| - 1];
    forall j | i < j < |groups| ensures k !in groups[j].settings {
      if j < |groups| - 1 { assert groups[j] == front[j]; }
    }
  }

  /** The last group's defaults override those loaded before it. */
  lemma LoadDefaultsStep(groups: seq<Group>, k: string)
    requires groups != []
    ensures var last := groups[|groups| - 1];
      && (k in last.settings ==> LoadDefaults(groups)[k] == last.settings[k].metadata.defaultValue)
      && (k !in last.settings && k in LoadDefaults(groups[..|groups| - 1]) ==>
            LoadDefaults(groups)[k] == LoadDefaults(groups[..|groups| - 1])[k])
  {
  }

  /** A store holding every defined key at its default. */
  function NewSettings(groups: seq<Group>): (s: Settings)
    requires GroupsWellFormed(groups)
    ensures s.Valid() && s.groups == groups
    ensures s.values == LoadDefaults(groups)
  {
    Settings(groups, LoadDefaults(groups))
  }

  /** The value of `key`, None when it has none. */
  function GetValue(s: Settings, key: string): (v: Value)
    ensures key in s.values ==> v == s.values[key]
    ensures key !in s.values ==> v == NoneVal
  {
    if key in s.values then s.values[key] else NoneVal
  }

  /** A key no group defines reads as None. */
  lemma UndefinedKeyReadsNone(s: Settings, key: string)
    requires s.Valid() && !Defines(s.groups, key)
    ensures GetValue(s, key) == NoneVal
  {
  }

  /** `set_value` would take `v` for `key`: the key is defined and its
      definition validates the value. */
  predicate Accepts(groups: seq<Group>, key: string, v: Value)
    requires GroupsWellFormed(groups)
  {
    var d := FindDefinition(groups, key);
    d.Some? && Validate(d.value, v)
  }

  /** Storing a value that the key's definition accepts; otherwise nothing
      changes and the answer is false. */
  function SetValue(s: Settings, key: string, v: Value): (r: (bool, Settings))
    requires GroupsWellFormed(s.groups)
    ensures r.0 <==> Accepts(s.groups, key, v)
    ensures r.0 ==> r.1 == s.(values := s.values[key := v])
    ensures !r.0 ==> r.1 == s
  {
    if Accepts(s.groups, key, v) then (true, s.(values := s.values[key := v])) else (false, s)
  }

  /** A key no group defines, or a value its definition refuses, is turned
      down and changes nothing. */
  lemma SetValueRefusals(s: Settings, key: string, v: Value)
    requires GroupsWellFormed(s.groups)
    ensures !Defines(s.groups, key) ==> SetValue(s, key, v) == (false, s)
    ensures Defines(s.groups, key) && !Validate(FindDefinition(s.groups, key).value, v) ==> SetValue(s, key, v) == (false, s)
    ensures Defines(s.groups, key) && Validate(FindDefinition(s.groups, key).value, v) ==> SetValue(s, key, v).0
  {
  }

  /** A successful set is read back, keeps the store valid and leaves every
      other key as it was. */
  lemma SetValueThenGet(s: Settings, key: string, v: Value, other: string)
    requires s.Valid()
    requires SetValue(s, key, v).0
    requires other != key
    ensures var t := SetValue(s, key, v).1;
      && t.Valid()
      && GetValue(t, key) == v
      && GetValue(t, other) == GetValue(s, other)
  {
  }

  /** No two entries share a key, as in a dictionary. */
  predicate DistinctKeys(items: seq<(string, Value)>) {
    forall i, j :: 0 <= i < j < |items| ==> items[i].0 != items[j].0
  }

  /** The keys of a list of entries. */
  function KeysOf(items: seq<(string, Value)>): (r: set<string>)
    ensures forall k :: k in r <==> exists i :: 0 <= i < |items| && items[i].0 == k
    decreases |items|
  {
    if items == [] then {}
    else
      var front := items[..|items| - 1];
      assert forall i :: 0 <= i < |front| ==> front[i] == items[i];
      KeysOf(front) + {items[|items| - 1].0}
  }

  /** `set_value` on each entry of a dictionary, in order, collecting the
      answers by key. */
  function UpdateValues(s: Settings, items: seq<(string, Value)>): (r: (map<string, bool>, Settings))
    requires GroupsWellFormed(s.groups)
    ensures r.1.groups == s.groups
    decreases |items|
  {
    if items == [] then (map[], s)
    else
      var n := |items|;
      var prev := UpdateValues(s, items[..n - 1]);
      var (ok, t) := SetValue(prev.1, items[n - 1].0, items[n - 1].1);
      (prev.0[items[n - 1].0 := ok], t)
  }

  /** There is one answer per key of the dictionary, and no other. */
  lemma {:induction false} UpdateValuesAnswersKeys(s: Settings, items: seq<(string, Value)>)
    requires GroupsWellFormed(s.groups)
    ensures UpdateValues(s, items).0.Keys == KeysOf(items)
    decreases |items|
  {
    if items != [] {
      UpdateValuesAnswersKeys(s, items[..|items| - 1]);
    }
  }

  /** Two maps agree at `k`: both lack it or both hold the same value. */
  predicate SameAt(a: map<string, Value>, b: map<string, Value>, k: string) {
    (k in a <==> k in b) && (k in a ==> a[k] == b[k])
  }

  /** For a dictionary, an entry's answer is whether its definition accepts
      its value, and the value is stored exactly when accepted. */
  lemma {:induction false} UpdateValuesEntry(s: Settings, items: seq<(string, Value)>, i: int)
    requires GroupsWellFormed(s.groups) && DistinctKeys(items) && 0 <= i < |items|
    ensures UpdateOutcome(s, UpdateValues(s, items), items[i].0, items[i].1)
    decreases |items|
  {
    var n := |items|;
    var front := items[..n - 1];
    var k := items[i].0;
    if i < n - 1 {
      DistinctKeysFront(items, i);
      UpdateValuesEntry(s, front, i);
      UpdateValuesEarlier(s, items, k, items[i].1);
    } else {
      UpdateValuesLast(s, items);
    }
  }

  /** Dropping the last entry keeps the keys distinct, and the last key
      differs from every other. */
  lemma DistinctKeysFront(items: seq<(string, Value)>, i: int)
    requires DistinctKeys(items) && 0 <= i < |items| - 1
    ensures DistinctKeys(items[..|items| - 1])
    ensures items[..|items| - 1][i] == items[i]
    ensures items[|items| - 1].0 != items[i].0
  {
  }

  /** An entry's outcome survives the entries after it, whose keys differ. */
  lemma UpdateValuesEarlier(s: Settings, items: seq<(string, Value)>, k: string, v: Value)
    requires GroupsWellFormed(s.groups) && items != [] && items[|items| - 1].0 != k
    requires UpdateOutcome(s, UpdateValues(s, items[..|items| - 1]), k, v)
    ensures UpdateOutcome(s, UpdateValues(s, items), k, v)
  {
    UpdateValuesStep(s, items, k);
    UpdateOutcomeCarries(s, UpdateValues(s, items[..|items| - 1]), UpdateValues(s, items), k, v);
  }

  /** An outcome for `k` survives a step that leaves `k` alone. */
  lemma UpdateOutcomeCarries(s: Settings, prev: (map<string, bool>, Settings), r: (map<string, bool>, Settings), k: string, v: Value)
    requires GroupsWellFormed(s.groups) && UpdateOutcome(s, prev, k, v)
    requires k in prev.0 ==> k in r.0 && r.0[k] == prev.0[k]
    requires SameAt(r.1.values, prev.1.values, k)
    ensures UpdateOutcome(s, r, k, v)
  {
  }

  /** The last entry's outcome, when no earlier entry shares its key. */
  lemma UpdateValuesLast(s: Settings, items: seq<(string, Value)>)
    requires GroupsWellFormed(s.groups) && DistinctKeys(items) && items != []
    ensures UpdateOutcome(s, UpdateValues(s, items), items[|items| - 1].0, items[|items| - 1].1)
  {
    var n := |items|;
    var front := items[..n - 1];
    var (k, v) := items[n - 1];
    assert k !in KeysOf(front) by {
      assert forall j :: 0 <= j < n - 1 ==> front[j].0 != k;
    }
    UpdateValuesOthers(s, front, k);
    var prev := UpdateValues(s, front);
    var step := SetValue(prev.1, k, v);
    assert UpdateValues(s, items) == (prev.0[k := step.0], step.1);
  }

  /** What `set_value(k, v)` has left in the collected answers and the store
      `r`, starting from `s`. */
  predicate UpdateOutcome(s: Settings, r: (map<string, bool>, Settings), k: string, v: Value)
    requires GroupsWellFormed(s.groups)
  {
    && k in r.0
    && r.0[k] == Accepts(s.groups, k, v)
    && (r.0[k] ==> k in r.1.values && r.1.values[k] == v)
    && (!r.0[k] ==> SameAt(r.1.values, s.values, k))
  }

  /** An entry with another key does not disturb `k`. */
  lemma UpdateValuesStep(s: Settings, items: seq<(string, Value)>, k: string)
    requires GroupsWellFormed(s.groups) && items != [] && items[|items| - 1].0 != k
    ensures var prev := UpdateValues(s, items[..|items| - 1]);
      var r := UpdateValues(s, items);
      && (k in prev.0 ==> k in r.0 && r.0[k] == prev.0[k])
      && SameAt(r.1.values, prev.1.values, k)
  {
  }

  /** Keys that are not in the dictionary keep their values. */
  lemma {:induction false} UpdateValuesOthers(s: Settings, items: seq<(string, Value)>, k: string)
    requires GroupsWellFormed(s.groups) && k !in KeysOf(items)
    ensures SameAt(UpdateValues(s, items).1.values, s.values, k)
    decreases |items|
  {
    if items != [] {
      UpdateValuesOthers(s, items[..|items| - 1], k);
    }
  }

  /** Updating never invalidates the store. */
  lemma {:induction false} UpdateValuesKeepsValid(s: Settings, items: seq<(string, Value)>)
    requires s.Valid()
    ensures UpdateValues(s, items).1.Valid()
    decreases |items|
  {
    if items != [] {
      UpdateValuesKeepsValid(s, items[..|items| - 1]);
    }
  }

  /** Every defined key holds a value its definition accepts. */
  predicate ValuesValid(s: Settings)
    requires GroupsWellFormed(s.groups)
  {
    forall k :: k in s.values && Defines(s.groups, k) ==> Validate(FindDefinition(s.groups, k).value, s.values[k])
  }

  /** Every stored value of a defined key converted by its definition, or
      None when a conversion raises. */
  function Serialize(conv: Conversions, s: Settings): (r: Option<map<string, Value>>)
    ensures r.Some? ==> r.value.Keys == set k | k in s.values && Defines(s.groups, k)
    ensures r.Some? ==> forall k :: k in r.value ==>
      Convert(conv, FindDefinition(s.groups, k).value, s.values[k]) == Success(r.value[k])
    ensures r.None? <==>
      (exists k :: k in s.values && Defines(s.groups, k) && Convert(conv, FindDefinition(s.groups, k).value, s.values[k]).Failure?)
  {
    if forall k :: k in s.values && Defines(s.groups, k) ==> Convert(conv, FindDefinition(s.groups, k).value, s.values[k]).Success? then
      Some(map k | k in s.values && Defines(s.groups, k) :: Convert(conv, FindDefinition(s.groups, k).value, s.values[k]).value)
    else None
  }

  /** The value a serialised entry yields for its key, if any: none for an
      undefined key, a conversion that raises or a value that does not
      validate. */
  function Decoded(conv: Conversions, groups: seq<Group>, key: string, sv: Value): (r: Option<Value>)
    requires GroupsWellFormed(groups)
    ensures r.Some? ==> Accepts(groups, key, r.value)
    ensures r.Some? ==> Convert(conv, FindDefinition(groups, key).value, sv) == Success(r.value)
    ensures r.Some? <==>
      && Defines(groups, key)
      && Convert(conv, FindDefinition(groups, key).value, sv).Success?
      && Validate(FindDefinition(groups, key).value, Convert(conv, FindDefinition(groups, key).value, sv).value)
  {
    match FindDefinition(groups, key)
    case None => None
    case Some(d) =>
      match Convert(conv, d, sv)
      case Failure(_) => None
      case Success(v) => if Validate(d, v) then Some(v) else None
  }

  /** Loading a serialised dictionary, entry by entry; an entry that yields
      nothing is skipped. */
  function Deserialize(conv: Conversions, s: Settings, items: seq<(string, Value)>): (r: Settings)
    requires GroupsWellFormed(s.groups)
    ensures r.groups == s.groups
    decreases |items|
  {
    if items == [] then s
    else
      var n := |items|;
      var t := Deserialize(conv, s, items[..n - 1]);
      var d := Decoded(conv, s.groups, items[n - 1].0, items[n - 1].1);
      if d.Some? then t.(values := t.values[items[n - 1].0 := d.value]) else t
  }

  /** For a dictionary, an entry's key takes the value the entry yields, or
      keeps its own when the entry yields nothing. */
  lemma {:induction false} DeserializeEntry(conv: Conversions, s: Settings, items: seq<(string, Value)>, i: int)
    requires GroupsWellFormed(s.groups) && DistinctKeys(items) && 0 <= i < |items|
    ensures DeserializeOutcome(conv, s, Deserialize(conv, s, items), items[i].0, items[i].1)
    decreases |items|
  {
    var n := |items|;
    var front := items[..n - 1];
    var k := items[i].0;
    if i < n - 1 {
      DistinctKeysFront(items, i);
      DeserializeEntry(conv, s, front, i);
      DeserializeStep(conv, s, items, k);
    } else {
      DeserializeLast(conv, s, items);
    }
  }

  /** The last entry's outcome, when no earlier entry shares its key. */
  lemma DeserializeLast(conv: Conversions, s: Settings, items: seq<(string, Value)>)
    requires GroupsWellFormed(s.groups) && DistinctKeys(items) && items != []
    ensures DeserializeOutcome(conv, s, Deserialize(conv, s, items), items[|items| - 1].0, items[|items| - 1].1)
  {
    var n := |items|;
    var front := items[..n - 1];
    var k := items[n - 1].0;
    assert k !in KeysOf(front) by {
      assert forall j :: 0 <= j < n - 1 ==> front[j].0 != k;
    }
    DeserializeOthers(conv, s, front, k);
  }

  /** What loading the entry `(k, sv)` has left in the store `r`, starting
      from `s`. */
  predicate DeserializeOutcome(conv: Conversions, s: Settings, r: Settings, k: string, sv: Value)
    requires GroupsWellFormed(s.groups)
  {
    var d := Decoded(conv, s.groups, k, sv);
    && (d.Some? ==> k in r.values && r.values[k] == d.value)
    && (d.None? ==> SameAt(r.values, s.values, k))
  }

  /** An entry with another key does not disturb `k`. */
  lemma DeserializeStep(conv: Conversions, s: Settings, items: seq<(string, Value)>, k: string)
    requires GroupsWellFormed(s.groups) && items != [] && items[|items| - 1].0 != k
    ensures SameAt(Deserialize(conv, s, items).values, Deserialize(conv, s, items[..|items| - 1]).values, k)
  {
  }

  /** Keys that are not in the dictionary are untouched. */
  lemma {:induction false} DeserializeOthers(conv: Conversions, s: Settings, items: seq<(string, Value)>, k: string)
    requires GroupsWellFormed(s.groups) && k !in KeysOf(items)
    ensures SameAt(Deserialize(conv, s, items).values, s.values, k)
    decreases |items|
  {
    if items != [] {
      DeserializeOthers(conv, s, items[..|items| - 1], k);
    }
  }

  /** Storing a value a key's definition accepts keeps the store valid and
      every value acceptable. */
  lemma StoreAcceptedKeepsValid(t: Settings, key: string, v: Value)
    requires t.Valid() && ValuesValid(t) && Accepts(t.groups, key, v)
    ensures var t' := t.(values := t.values[key := v]); t'.Valid() && ValuesValid(t')
  {
    var t' := t.(values := t.values[key := v]);
    assert Defines(t.groups, key);
    assert t'.values.Keys == t.values.Keys;
    forall k | k in t'.values && Defines(t.groups, k)
      ensures Validate(FindDefinition(t.groups, k).value, t'.values[k])
    {
      if k != key {
        assert t'.values[k] == t.values[k];
      }
    }
  }

  /** Loading never invalidates the store nor stores an unacceptable value. */
  lemma {:induction false} DeserializeKeepsValid(conv: Conversions, s: Settings, items: seq<(string, Value)>)
    requires s.Valid() && ValuesValid(s)
    ensures Deserialize(conv, s, items).Valid() && ValuesValid(Deserialize(conv, s, items))
    decreases |items|
  {
    if items != [] {
      var n := |items|;
      DeserializeKeepsValid(conv, s, items[..n - 1]);
      var t := Deserialize(conv, s, items[..n - 1]);
      var d := Decoded(conv, s.groups, items[n - 1].0, items[n - 1].1);
      if d.Some? {
        StoreAcceptedKeepsValid(t, items[n - 1].0, d.value);
      }
    }
  }

  /** `items` lists the entries of `m`, each once. */
  predicate Enumerates(items: seq<(string, Value)>, m: map<string, Value>) {
    && DistinctKeys(items)
    && (forall i :: 0 <= i < |items| ==> items[i].0 in m && m[items[i].0] == items[i].1)
    && (forall k :: k in m ==> exists i :: 0 <= i < |items| && items[i].0 == k)
  }

  /** Saving a store whose values are all acceptable cannot raise, and
      loading what was saved, in any entry order, into a store with the same
      groups gives every key a value equal (under Python `==`) to the saved
      one, which serialises exactly as before. */
  lemma SerializeRoundTrip(conv: Conversions, s: Settings, t: Settings, items: seq<(string, Value)>, k: string)
    requires s.Valid() && ValuesValid(s)
    requires t.Valid() && t.groups == s.groups
    requires Serialize(conv, s).Some? ==> Enumerates(items, Serialize(conv, s).value)
    requires k in s.values
    ensures Serialize(conv, s).Some?
    ensures var r := Deserialize(conv, t, items);
      && k in r.values
      && PyEq(r.values[k], s.values[k])
      && Convert(conv, FindDefinition(s.groups, k).value, r.values[k]) == Convert(conv, FindDefinition(s.groups, k).value, s.values[k])
  {
    forall k' | k' in s.values && Defines(s.groups, k')
      ensures Convert(conv, FindDefinition(s.groups, k').value, s.values[k']).Success?
    {
      ValidValueRoundTrip(conv, FindDefinition(s.groups, k').value, s.values[k']);
    }
    var m := Serialize(conv, s).value;
    assert k in m;
    var i :| 0 <= i < |items| && items[i].0 == k;
    var d := FindDefinition(s.groups, k).value;
    ValidValueRoundTrip(conv, d, s.values[k]);
    assert Decoded(conv, s.groups, k, items[i].1) == Some(m[k]);
    DeserializeEntry(conv, t, items, i);
  }
}
