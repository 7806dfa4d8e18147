/** The application's concrete settings: one fuzzy-search group. */
module AppSettings {
  import opened Common
  import opened SettingValues
  import opened SettingDefinitions
  import opened SettingsStore

  const MaxSubstitutionsKey: string := "fuzzy_search.max_substitutions"
  const MaxInsertionsKey: string := "fuzzy_search.max_insertions"
  const MaxDeletionsKey: string := "fuzzy_search.max_deletions"
  const MaxLDistKey: string := "fuzzy_search.max_l_dist"
  const CaseSensitiveKey: string := "fuzzy_search.case_sensitive"

  /** An integer setting bounded to [0, 10]. */
  function BoundedCount(key: string, displayName: string, description: string, default: Value): (d: Definition)
    ensures d.kind == IntegerKind && d.metadata.key == key && d.metadata.defaultValue == default
    ensures d.metadata.minValue == Some(0.0) && d.metadata.maxValue == Some(10.0)
  {
    Definition(IntegerKind, Metadata(key, displayName, description, IntegerType, default, Some(0.0), Some(10.0), None))
  }

  /** The fuzzy-search group with its five settings. */
  function FuzzySearchGroup(): (g: Group)
    ensures g.name == "fuzzy_search"
  {
    Group("fuzzy_search", "Fuzzy Search", GroupDescription,
      map[
        MaxSubstitutionsKey := BoundedCount(MaxSubstitutionsKey, "Maximum Substitutions", SubstitutionsDescription, NoneVal),
        MaxInsertionsKey := BoundedCount(MaxInsertionsKey, "Maximum Insertions", InsertionsDescription, NoneVal),
        MaxDeletionsKey := BoundedCount(MaxDeletionsKey, "Maximum Deletions", DeletionsDescription, NoneVal),
        MaxLDistKey := BoundedCount(MaxLDistKey, "Maximum Levenshtein Distance", LDistDescription, IntVal(1)),
        CaseSensitiveKey := Definition(BooleanKind, Metadata(CaseSensitiveKey, "Case Sensitive",
          CaseSensitiveDescription, BooleanType, BoolVal(false), None, None, None))
      ])
  }

  const GroupDescription: string := "Settings for fuzzy text search functionality"
  const SubstitutionsDescription: string :=
    "Maximum number of character substitutions allowed in fuzzy search. Set to None for unlimited."
  const InsertionsDescription: string :=
    "Maximum number of character insertions allowed in fuzzy search. Set to None for unlimited."
  const DeletionsDescription: string :=
    "Maximum number of character deletions allowed in fuzzy search. Set to None for unlimited."
  const LDistDescription: string :=
    "Maximum Levenshtein distance allowed in fuzzy search. Lower values mean stricter matching."
  const CaseSensitiveDescription: string := "Whether fuzzy search should be case sensitive or not."

  /** The store the application starts from. */
  function CreateAppSettings(): (s: Settings)
    ensures s.Valid()
    ensures |s.groups| == 1 && s.groups[0].name == "fuzzy_search"
    ensures s.groups[0].settings.Keys == {MaxSubstitutionsKey, MaxInsertionsKey, MaxDeletionsKey, MaxLDistKey, CaseSensitiveKey}
  {
    var groups := [FuzzySearchGroup()];
    assert GroupsWellFormed(groups);
    NewSettings(groups)
  }

  /** Looking a key up in a single group finds the group's own definition. */
  lemma SingleGroupLookup(g: Group, k: string)
    ensures FindDefinition([g], k) == if k in g.settings then Some(g.settings[k]) else None
    ensures LoadDefaults([g]) == GroupDefaults(g)
  {
    assert [g][..0] == [];
    assert [g][1..] == [];
  }

  /** The kind, default and bounds of each fuzzy-search setting. */
  lemma FuzzySearchDefinitions()
    ensures var m := FuzzySearchGroup().settings;
      && m.Keys == {MaxSubstitutionsKey, MaxInsertionsKey, MaxDeletionsKey, MaxLDistKey, CaseSensitiveKey}
      && (forall k :: k in m && k != CaseSensitiveKey ==>
            && m[k].kind == IntegerKind
            && m[k].metadata.minValue == Some(0.0) && m[k].metadata.maxValue == Some(10.0)
            && m[k].metadata.defaultValue == if k == MaxLDistKey then IntVal(1) else NoneVal)
      && m[CaseSensitiveKey].kind == BooleanKind
      && m[CaseSensitiveKey].metadata.defaultValue == BoolVal(false)
  {
  }

  /** The starting values: the Levenshtein bound is 1, search is case
      insensitive, and the three edit-kind bounds are unset. */
  lemma AppSettingsDefaults()
    ensures var s := CreateAppSettings();
      && GetValue(s, MaxLDistKey) == IntVal(1)
      && GetValue(s, CaseSensitiveKey) == BoolVal(false)
      && GetValue(s, MaxSubstitutionsKey) == NoneVal
      && GetValue(s, MaxInsertionsKey) == NoneVal
      && GetValue(s, MaxDeletionsKey) == NoneVal
  {
    SingleGroupLookup(FuzzySearchGroup(), "");
    FuzzySearchDefinitions();
  }

  /** Every starting value is one its own definition accepts. */
  lemma AppDefaultsAreValid()
    ensures ValuesValid(CreateAppSettings())
  {
    var s := CreateAppSettings();
    var g := FuzzySearchGroup();
    forall k | k in s.values && Defines(s.groups, k)
      ensures Validate(FindDefinition(s.groups, k).value, s.values[k])
    {
      SingleGroupLookup(g, k);
      DefaultIsValid(k);
    }
  }

  lemma DefaultIsValid(k: string)
    requires k in FuzzySearchGroup().settings
    ensures WellFormed(FuzzySearchGroup().settings[k])
    ensures Validate(FuzzySearchGroup().settings[k], FuzzySearchGroup().settings[k].metadata.defaultValue)
  {
    FuzzySearchDefinitions();
  }

  /** So the starting store serialises without raising. */
  lemma AppDefaultsSerialize(conv: Conversions)
    ensures Serialize(conv, CreateAppSettings()).Some?
  {
    var s := CreateAppSettings();
    AppDefaultsAreValid();
    forall k | k in s.values && Defines(s.groups, k)
      ensures Convert(conv, FindDefinition(s.groups, k).value, s.values[k]).Success?
    {
      ValidValueRoundTrip(conv, FindDefinition(s.groups, k).value, s.values[k]);
    }
  }

  /** The count settings accept exactly None and the ints (bools included)
      from 0 to 10. */
  lemma CountBoundsAreZeroToTen(k: string, v: Value)
    requires k in {MaxSubstitutionsKey, MaxInsertionsKey, MaxDeletionsKey, MaxLDistKey}
    ensures Accepts(CreateAppSettings().groups, k, v) <==> v.NoneVal? || (IsInt(v) && 0.0 <= NumberOf(v) <= 10.0)
  {
    FuzzySearchDefinitions();
    SingleGroupLookup(FuzzySearchGroup(), k);
  }

  /** Case sensitivity accepts booleans only. */
  lemma CaseSensitiveIsBoolean(v: Value)
    ensures Accepts(CreateAppSettings().groups, CaseSensitiveKey, v) <==> v.BoolVal?
  {
    FuzzySearchDefinitions();
    SingleGroupLookup(FuzzySearchGroup(), CaseSensitiveKey);
  }
}
