# clip_flow core in Dafny

A model of the core of clip_flow, a clipboard-history desktop tool, with
proofs about it. The model covers:

- **Clipboard domain** (`clipboard.dfy`, module `Clipboard`). A `ClipboardItem`
  never has empty content, and `preview` flattens and truncates it. A
  `ClipboardHistory` is bounded and lists the most recent item first. Adding a
  text moves it to the front, drops any older entry with the same content and
  cuts the tail to `max_items`. The history can also be cleared, have an entry
  removed by index, and be projected to its list of contents.
- **Search adapters** (`search.dfy`, with `text.dfy`, `levenshtein.dfy` and
  `seqs.dfy`).
  - The simple adapter keeps the items whose content contains the query,
    compared case-sensitively or after lower-casing.
  - The fuzzy adapter does the same for queries of at most two characters.
    For longer queries it accepts an item when some stretch of the content is
    within Levenshtein distance `max_l_dist` of the query.
  - Either way, a search is an order-preserving filter.
- **Orchestration** (`clipboard_service.dfy`, `app_service.dfy`).
  - The clipboard service holds the full history and the list the UI
    displays. Copy and delete indices refer to the displayed list, and a
    delete removes the first history item with the displayed content.
  - Every port call a handler makes (storage, UI, clipboard) is returned as
    an `Effect`, in order. The history loaded at start-up arrives as a
    parameter instead, and callback registration is not recorded. A
    `PortView` replays these effects to give what storage last saved, what
    the UI last showed and what the clipboard last received.
  - The application service is a start/stop machine guarded by a running flag.
- **Settings** (`setting_values.dfy`, `setting_definitions.dfy`,
  `settings.dfy`, `app_settings.dfy`, `settings_schema.dfy`).
  - Python values are a sum type `None | Bool | Int | Float | Str`. A bool is
    an int, as `isinstance(True, int)` holds in Python, and `PyEq` is Python
    `==`.
  - The five typed setting definitions each validate and convert values.
  - The `Settings` store covers defaults, get, set, update, serialise and
    deserialise.
  - `create_app_settings` builds the application's one fuzzy-search group.
  - The schema adapter does lookup, defaults and per-type validation over an
    already parsed schema.

Python exceptions become `Result` values (`Failure(ValueError)`,
`Failure(TypeError)`, or the constructor's message). Dictionaries whose
iteration order can change the outcome (the inputs of `update_values` and
`deserialize`, whose per-key answers are collected in order) are sequences of
key/value pairs with distinct keys. The stored values and each group's
settings are `map`s: `serialize` and `_load_defaults` iterate them, but the
result does not depend on the order in which they do. The settings groups
form a sequence, in the order of the dictionary that holds them.

Where the code departs from the documented design, the model follows the
code, with one exception: each handler runs as one uninterrupted step,
although the code does not serialise the polling thread against the UI
thread (see "## Left out").

- A clipboard change, a clear or a successful delete resets the displayed
  list to the full history. The active search query is not applied again
  (`src/application/clipboard_service.py:111-114`). `ChangeIgnoresActiveQuery`
  shows this on a concrete input.
- `AppService.stop` shuts the UI down twice: once through
  `ClipboardService.stop` and once directly.
- Loading defaults lets the last group that defines a key win. Looking up a
  definition for `set_value`, `serialize` and `deserialize` lets the first
  group win. Defaults are stored without being validated.
- `serialize` can raise when a stored value does not convert. The model
  returns `None` then.
- `preview` with a `max_length` below 3 slices from the end. The result is
  then longer than `max_length` (`PreviewOvershootsSmallLimit`). The model
  keeps this behaviour.

## Model

| member | source | states |
|---|---|---|
| Clipboard.NewItem | src/domain/clipboard/clipboard_item.py:10-12 | building an item succeeds exactly when the content is non-empty, and then keeps content and time |
| Clipboard.Flatten | src/domain/clipboard/clipboard_item.py:15 | the flattened text has the same length, contains no line break, turns every `\n`/`\r` into a space and keeps every other character |
| Clipboard.Preview | src/domain/models.py:15-19 | the preview has no line break; a short enough text is returned flattened and whole; with `max_length >= 3` a longer one has exactly `max_length` characters, ends in "..." and starts with the flattened text; below 3 its length follows Python's negative slice |
| Clipboard.PreviewOvershootsSmallLimit | src/domain/clipboard/clipboard_item.py:16-17 | with `max_length` 2 a six-letter text previews as eight characters, longer than the limit |
| Clipboard.NewHistory | src/domain/clipboard/clipboard_history.py:13-16 | construction fails exactly when `max_items <= 0`; otherwise the history is valid and holds the first `max_items` of the given items |
| Clipboard.EnforceLimit | src/domain/clipboard/clipboard_history.py:41-43 | the kept items are a prefix of the input of length `min(len, max_items)` |
| Clipboard.AddItem | src/domain/clipboard/clipboard_history.py:18-27 | an empty text changes nothing; otherwise the new item is first, no later item has its content, the rest are the other items in their old order cut to the capacity, and the history stays valid |
| Clipboard.WithoutIsSubsequence | src/domain/clipboard/clipboard_history.py:22 | dropping the entries with the added content keeps the remaining items in their relative order |
| Clipboard.AddItemKeepsDistinct | src/domain/clipboard/clipboard_history.py:22-25 | if contents were pairwise distinct before adding, they still are |
| Clipboard.AddAbsent | src/domain/clipboard/clipboard_history.py:22-27 | adding a text not in the history puts it in front of all items, evicting the oldest item when the history is full |
| Clipboard.AddTwiceKeepsOneEntry | src/domain/models.py:32-41 | adding the same text twice leaves one entry for it, at the front, with the second time |
| Clipboard.EvictionScenario | src/domain/models.py:32-41 | with capacity 3, copying "a", "b", "c", "d" leaves "d", "c", "b" |
| Clipboard.RecopyScenario | src/domain/models.py:36-39 | copying an older text again moves it to the front without a duplicate |
| Clipboard.Clear | src/domain/clipboard/clipboard_history.py:29-30 | clearing empties the items and keeps the capacity |
| Clipboard.RemoveItemByIndex | src/domain/clipboard/clipboard_history.py:32-36 | the answer is true exactly for an index in range; then exactly that item is gone, otherwise nothing changes |
| Clipboard.RemoveItemKeepsOrder | src/domain/models.py:46-50 | after a removal the remaining items keep their order and, as a multiset, only the removed item is missing |
| Clipboard.RemoveItemKeepsInvariant | src/domain/clipboard/clipboard_history.py:32-36 | removal keeps the history valid and keeps contents distinct |
| Clipboard.ContentList | src/domain/clipboard/clipboard_history.py:38-39 | the content list has one entry per item, each the content of the item at the same position |
| Clipboard.ContentListMembership | src/domain/models.py:52-53 | a text is in the content list exactly when some item carries it |
| Search.Normalize | src/adapters/simple_search_adapter.py:28-29 | the compared text keeps its length; it is verbatim in case-sensitive mode and the lower-cased text otherwise |
| Search.IsMatch | src/adapters/fuzzy_search_adapter.py:26-39 | an empty query always matches; the simple adapter and fuzzy queries of at most two characters match exactly when the normalised query occurs in the normalised content; longer fuzzy queries match exactly when some stretch of the content is within `max_l_dist` edits |
| Search.Search | src/adapters/simple_search_adapter.py:14-22 | an empty query returns the items unchanged; otherwise the result holds exactly the matching items, each as often as in the input, and is never longer |
| Search.SearchKeepsOrder | src/adapters/fuzzy_search_adapter.py:16-24 | a search result is a subsequence of the searched items |
| Search.ExactOccurrenceMatches | src/adapters/fuzzy_search_adapter.py:30-39 | an exact occurrence of the normalised query matches under either adapter, whatever the tolerance |
| Search.FuzzyAcceptsSimpleMatches | src/adapters/fuzzy_search_adapter.py:26-39 | the fuzzy adapter accepts every item the simple adapter accepts in the same case mode |
| Search.FuzzyZeroIsSimple | src/adapters/fuzzy_search_adapter.py:33-39 | with `max_l_dist` 0 the fuzzy adapter matches exactly what the simple adapter matches |
| Search.InsensitiveAcceptsSensitiveMatches | src/adapters/simple_search_adapter.py:24-31 | on ASCII text, turning case sensitivity off never loses a match, for either adapter |
| Search.ZeroToleranceRejectsTypo | src/adapters/fuzzy_search_adapter.py:36-39 | with tolerance 0, "Helo" does not match "Hello" |
| Search.ShortQueriesAreExact | tests/adapters/test_fuzzy_search_adapter.py:67-71 | with the default adapter "H" and "He" match "Hello World" and "XY" does not |
| Search.ExactLongQueryMatches | tests/adapters/test_fuzzy_search_adapter.py:73-75 | "Hello" matches "Hello World" |
| Search.MissingLetterMatches | tests/adapters/test_fuzzy_search_adapter.py:78-80 | "Helo", one letter short, matches "Hello World" |
| Search.MissingInnerLetterMatches | tests/adapters/test_fuzzy_search_adapter.py:81 | "Wrld", one letter short, matches "Hello World" |
| Search.WrongLetterMatches | tests/adapters/test_fuzzy_search_adapter.py:82 | "Hxllo", one letter wrong, matches "Hello World" |
| Search.HexoIsTooFar | tests/adapters/test_fuzzy_search_adapter.py:84-87 | "Hexo" is two edits from every stretch of "Hello" and does not match |
| ClipboardService.NewService | src/application/clipboard_service.py:13-31 | a new service has an empty history of capacity 1000 and an empty displayed list, and satisfies the service invariant |
| ClipboardService.UpdateUiDisplay | src/application/clipboard_service.py:111-114 | the full content list becomes the displayed list and is the one list shown |
| ClipboardService.StartMonitoring | src/application/clipboard_service.py:47-56 | the loaded history replaces the old one; monitoring starts, then its full list is shown and displayed |
| ClipboardService.Start | src/application/clipboard_service.py:35-45 | as start-monitoring, followed by entering the UI loop |
| ClipboardService.Stop | src/application/clipboard_service.py:58-61 | monitoring stops, then the UI shuts down; the state is unchanged |
| ClipboardService.OnClipboardChange | src/application/clipboard_service.py:63-68 | an empty text calls no port and changes nothing; otherwise the text is added, the new history saved and its full list shown and displayed, starting with the text |
| ClipboardService.OnCopyItem | src/application/clipboard_service.py:70-76 | an index into the displayed list writes that entry to the clipboard; any other index writes nothing; the state never changes |
| ClipboardService.OnSearch | src/application/clipboard_service.py:78-82 | the displayed list becomes the contents of the search result, a subsequence of the full list, and is the one list shown; an empty query displays the full list |
| ClipboardService.OnClearHistory | src/application/clipboard_service.py:84-89 | the history is emptied with its capacity kept; storage is cleared, the empty list shown, then the message sent |
| ClipboardService.FirstIndexOf | src/application/clipboard_service.py:95-100 | the index of the first item with the content, or -1 exactly when no item has it |
| ClipboardService.OnDeleteItem | src/application/clipboard_service.py:91-109 | an index outside the displayed list, or a text no longer in the history, changes nothing; otherwise exactly the first history item with that text is removed, then the history is saved and its full list shown and displayed |
| ClipboardService.ChangeKeepsMirror | src/application/clipboard_service.py:63-68 | after a change, storage holds the history and the UI shows the displayed list, if they did before |
| ClipboardService.CopyKeepsMirror | src/application/clipboard_service.py:70-76 | a copy keeps storage and UI in step with the service |
| ClipboardService.SearchKeepsMirror | src/application/clipboard_service.py:78-81 | after a search, the UI shows exactly the displayed list |
| ClipboardService.ClearKeepsMirror | src/application/clipboard_service.py:84-88 | after a clear, storage and UI are both empty, like the service |
| ClipboardService.DeleteKeepsMirror | src/application/clipboard_service.py:102-104 | after a delete, storage holds the shortened history and the UI shows the displayed list |
| ClipboardService.HandlersKeepInvariant | src/application/clipboard_service.py:63-89 | change, copy and clear keep the history valid and every displayed entry backed by a history item |
| ClipboardService.SearchKeepsInvariant | src/application/clipboard_service.py:78-81 | a search keeps the history valid and displays only texts the history holds |
| ClipboardService.DeleteKeepsInvariant | src/application/clipboard_service.py:91-109 | a delete keeps the history valid and every displayed entry backed by a history item |
| ClipboardService.DeleteWithValidIndexRemovesOne | src/application/clipboard_service.py:92-102 | while the displayed list is backed by the history, a delete at a valid index removes exactly one item |
| ClipboardService.ChangeIgnoresActiveQuery | src/application/clipboard_service.py:111-114 | after a search for "x", copying "y" displays "y" and "x" although "y" does not match the query |
| ClipboardService.DeleteThroughFilteredView | src/application/clipboard_service.py:91-102 | deleting entry 1 of the filtered list ["x", "y"] over history ["z", "x", "y"] removes "y", leaving ["z", "x"] |
| AppService.NewApp | src/application/app_service.py:10-25 | a new application is not running and wraps a fresh clipboard service |
| AppService.Start | src/application/app_service.py:27-38 | starting while running does nothing; otherwise the flag is set, monitoring starts, the loaded history is shown, the window hidden and the UI loop entered, in that order |
| AppService.Stop | src/application/app_service.py:40-47 | stopping while stopped does nothing; otherwise the flag is cleared, monitoring stops and the UI is shut down twice |
| AppService.StartTwiceStartsOnce | src/application/app_service.py:28-29 | a second start calls no port and changes nothing |
| AppService.StopThenStartRestarts | src/application/app_service.py:27-47 | after start and stop, another stop is silent and another start performs the full start sequence again |
| AppService.StopShutsUiDownTwice | src/application/app_service.py:45-47 | one stop of a running application shuts the UI down exactly twice |
| SettingValues.Trunc | src/domain/settings/integer_setting.py:22 | `int` of a float truncates toward zero: the result lies within one of the float, on the zero side |
| SettingValues.ToInt | src/domain/settings/integer_setting.py:21-25 | `int(v)` truncates numbers (bools as 0/1), parses strings or raises ValueError, and raises TypeError on None |
| SettingValues.ToFloat | src/domain/settings/float_setting.py:19-23 | `float(v)` keeps the value of numbers, parses strings or raises ValueError, and raises TypeError on None |
| SettingValues.ToStr | src/domain/settings/string_setting.py:10-14 | `str(v)` is the identity on strings, "None" for None, "True"/"False" for bools, and for an int the canonical decimal literal (no leading zero, no "-0") that reads back as that int |
| SettingValues.CanonicalIntTextUnique | src/domain/settings/string_setting.py:10-11 | only one canonical decimal literal denotes a given int, so being canonical and reading back as `i` determines `str(i)` |
| SettingValues.IntTextRoundTrip | src/domain/settings/string_setting.py:10-11 | `str` of an int is a decimal literal that reads back as the same int |
| SettingDefinitions.NewDefinition | src/domain/settings/slider_setting.py:8-11 | only a slider without both bounds is refused, with the slider message; any built definition is well formed |
| SettingDefinitions.Convert | src/domain/settings_models.py:59-124 | integer settings keep None, truncate numbers toward zero (bools as 0/1), parse strings or raise ValueError; float settings and sliders keep the value of numbers, parse strings or raise ValueError, and raise TypeError on None; booleans give the value's truthiness and never fail; strings never fail, keep a string, give "None" and "True"/"False", and turn an int into its canonical decimal text, which reads back as that int |
| SettingDefinitions.ValidValueRoundTrip | src/domain/settings_models.py:44-124 | a valid value converts without raising to a value equal to it under Python `==`, identical for booleans and strings, still valid, and fixed by a second conversion |
| SettingDefinitions.ConvertIdempotent | src/domain/settings/boolean_setting.py:10-14 | converting what a conversion produced gives the same result again |
| SettingDefinitions.BoundsAreInclusive | src/domain/settings/float_setting.py:11-17 | float settings and sliders accept both bounds and reject values beyond either |
| SettingDefinitions.BoolIsValidInteger | src/domain/settings/integer_setting.py:10-25 | `True` is a valid integer value exactly when 1 is within the bounds, and converts to 1 |
| SettingDefinitions.IntegerIsBoundedFloatOverInts | src/domain/settings/integer_setting.py:7-19 | an integer setting accepts exactly None and the ints, bools included, that a float setting with the same bounds accepts |
| SettingDefinitions.SliderIsBoundedFloat | src/domain/settings/slider_setting.py:13-17 | a slider accepts exactly the numbers a float setting with the same present bounds accepts |
| SettingsStore.FindDefinition | src/domain/settings/settings.py:44-48 | lookup finds a definition exactly when some group defines the key, and then it is the one from the first such group |
| SettingsStore.LoadDefaults | src/domain/settings/settings.py:13-16 | the initial values are keyed by exactly the defined keys |
| SettingsStore.LoadDefaultsLastWins | src/domain/settings_models.py:141-144 | each defined key starts at the default of the last group that defines it |
| SettingsStore.NewSettings | src/domain/settings/settings.py:8-11 | a new store keeps the groups, is valid, and holds for every key the loaded default (by `LoadDefaultsLastWins`, that of the last group defining it) |
| SettingsStore.GetValue | src/domain/settings/settings.py:18-19 | a stored key reads its value and any other key reads None |
| SettingsStore.UndefinedKeyReadsNone | src/domain/settings_models.py:146-147 | in a valid store a key no group defines reads as None |
| SettingsStore.SetValue | src/domain/settings/settings.py:21-30 | the answer is true exactly when some group defines the key and its definition validates the value; then only that key changes, otherwise nothing does |
| SettingsStore.SetValueRefusals | src/domain/settings_models.py:149-155 | an undefined key or a value its definition refuses is turned down with no change, and a valid value is taken |
| SettingsStore.SetValueThenGet | src/domain/settings_models.py:157-158 | after a successful set the key reads the new value, other keys read as before and the store stays valid |
| SettingsStore.UpdateValuesAnswersKeys | src/domain/settings/settings.py:35-39 | `update_values` answers for exactly the keys it was given |
| SettingsStore.UpdateValuesEntry | src/domain/settings_models.py:163-167 | for each entry the answer is whether its definition accepts its value; an accepted value is stored and a refused one leaves the key as it was |
| SettingsStore.UpdateValuesOthers | src/domain/settings/settings.py:35-39 | keys not in the update keep their values |
| SettingsStore.UpdateValuesKeepsValid | src/domain/settings/settings.py:35-39 | updating keeps the store valid |
| SettingsStore.Serialize | src/domain/settings/settings.py:50-56 | the result, if no conversion raises, holds exactly the stored keys that have a definition, each converted by its definition; it is absent exactly when some conversion raises |
| SettingsStore.Decoded | src/domain/settings/settings.py:59-65 | a loaded entry yields a value exactly when its key is defined, its definition converts it without raising and accepts the result, and the value is that conversion |
| SettingsStore.DeserializeEntry | src/domain/settings/settings.py:58-67 | each loaded key takes the value its entry yields, or keeps its old value when the key is undefined or conversion or validation fails |
| SettingsStore.DeserializeOthers | src/domain/settings_models.py:186-195 | keys missing from the loaded data keep their values |
| SettingsStore.DeserializeKeepsValid | src/domain/settings/settings.py:58-67 | loading keeps the store valid and never stores a value its definition refuses |
| SettingsStore.StoreAcceptedKeepsValid | src/domain/settings/settings.py:29 | storing a value the key's definition accepts keeps the store valid and all its values acceptable |
| SettingsStore.SerializeRoundTrip | src/domain/settings_models.py:178-195 | saving a store whose values are all acceptable cannot raise; loading the saved data, in any order, into a store with the same groups gives each key a value Python-equal to the saved one that serialises identically |
| AppSettings.CreateAppSettings | src/domain/settings/app_settings.py:9-85 | the application store is valid and has one group "fuzzy_search" with exactly the five fuzzy-search keys |
| AppSettings.FuzzySearchDefinitions | src/domain/settings/app_settings.py:10-66 | the four count settings are integers bounded to [0, 10], max_l_dist defaulting to 1 and the others to None; case_sensitive is boolean and defaults to false |
| AppSettings.AppSettingsDefaults | src/domain/settings/app_settings.py:46-66 | the store starts with max_l_dist 1, case_sensitive false and the three edit-kind bounds None |
| AppSettings.AppDefaultsAreValid | src/domain/settings/app_settings.py:10-44 | every starting value is accepted by its own definition, None included |
| AppSettings.AppDefaultsSerialize | src/domain/settings/app_settings.py:68-85 | the starting store serialises without raising |
| AppSettings.CountBoundsAreZeroToTen | src/domain/settings/app_settings.py:46-56 | a count setting accepts exactly None and the ints, bools included, from 0 to 10 |
| AppSettings.CaseSensitiveIsBoolean | src/domain/settings/app_settings.py:58-66 | case_sensitive accepts booleans and nothing else |
| SettingsSchema.GetCategory | src/adapters/settings/json_settings_schema_adapter.py:41-45 | the result is absent exactly when no category has the key, and otherwise it is the first one that does |
| SettingsSchema.GetSettingDefinition | src/adapters/settings/json_settings_schema_adapter.py:47-52 | the result is absent exactly when no entry of any category has the key, and otherwise it is the first such entry in schema order |
| SettingsSchema.GetDefaultValue | src/adapters/settings/json_settings_schema_adapter.py:54-58 | an undefined key gives None; a defined key gives its entry's "default" when the entry has one and None when it has none |
| SettingsSchema.GetAllDefaults | src/adapters/settings/json_settings_schema_adapter.py:60-77 | a key appears exactly when some entry with that truthy key has a "default" field |
| SettingsSchema.DefaultsOfLastWins | src/adapters/settings/json_settings_schema_adapter.py:70-74 | each collected default comes from the last entry that gives one for its key |
| SettingsSchema.DefaultsAgreeForUniqueKey | src/adapters/settings/json_settings_schema_adapter.py:54-77 | for a key held by one entry with a default, the bulk defaults and the single lookup agree |
| SettingsSchema.WithinBound | src/adapters/settings/json_settings_schema_adapter.py:93-96 | a null bound passes, a numeric bound compares inclusively, and any other bound raises TypeError |
| SettingsSchema.ValidateSettingValue | src/adapters/settings/json_settings_schema_adapter.py:79-104 | an undefined key is refused; a checkbox accepts exactly the bools, a text field exactly the strings, a select exactly the values Python-equal to an option, and an entry of any other type everything; a slider or spinbox refuses non-numbers and accepts a number exactly when it is within both present bounds, the lower bound checked first, and raises TypeError when the bound it reaches is not a number; nothing else raises |
| SettingsSchema.SchemaSliderMatchesSliderSetting | src/adapters/settings/json_settings_schema_adapter.py:88-97 | with numeric bounds, a schema slider or spinbox accepts exactly what a slider setting with the same bounds accepts |
| SettingsSchema.SchemaRangeMatchesFloatSetting | src/adapters/settings/json_settings_schema_adapter.py:88-97 | with each bound absent or numeric, a schema slider or spinbox accepts exactly what a float setting with the same present bounds accepts |
| SettingsSchema.SchemaFieldsMatchSettingKinds | src/adapters/settings/json_settings_schema_adapter.py:86-102 | a schema checkbox accepts exactly what a boolean setting accepts, and a text field exactly what a string setting accepts |
| SettingsSchema.SelectAdmitsEqualNumbers | src/adapters/settings/json_settings_schema_adapter.py:98-100 | a select with option 1 accepts `True` and `1.0` |
| SettingsSchema.NonNumericBoundRaises | src/adapters/settings/json_settings_schema_adapter.py:91-94 | a string bound makes validating any number raise TypeError |

## Left out

- Clipboard polling (`pyperclip_adapter.py`) is threads, sleeping and OS access. A clipboard change is an input event of `OnClipboardChange`.
- Storage adapters (JSON file, SQLite) are file I/O. Loading is a `loaded` parameter holding any valid history, and saving is the `HistorySaved` effect. The SQLite re-sort on load is not modelled.
- UI adapters, the system tray, the settings window and JavaScript bridge are widgets, threads and dialogs. The UI is the `HistoryShown`, `MessageShown`, `WindowHidden`, `UiRun` and `UiShutdown` effects. Callback registration in the service constructor is not modelled.
- The settings persistence adapters and `settings_service.py` are file I/O and delegation to `Settings`, which is modelled directly. Schema file loading and path resolution are left out: the schema is taken as already parsed.
- The JSON schema adapter does not implement the port's abstract `get_schema` (`src/ports/settings_schema_port.py:30-31`), so as written the class cannot be instantiated and `src/adapters/ui/settings_window.py:21` would raise TypeError. The `SettingsSchema` members model the adapter's methods as if it could be built; `get_schema` itself is not modelled.
- Container wiring, logging, paths, assets and build scripts have no behaviour worth modelling. The container passes a `settings_service` keyword that the fuzzy adapter's constructor does not accept. The constructor is modelled as written.
- `datetime.now()` is a `Timestamp` parameter.
- ClipboardService.OnClipboardChange and ClipboardService.OnDeleteItem: every handler is one atomic step, so handlers never interleave. In the code, clipboard changes arrive on the polling thread (`src/adapters/pyperclip_adapter.py:39-42`) while copy, search, clear and delete run on the UI thread, with no lock between them. A change can then land inside a delete: with history ["a", "x", "b"], deleting the displayed "x" resolves index 1 (`src/application/clipboard_service.py:96-100`); if "n" is added before the removal at line 102, index 1 now holds "a", which is removed instead. Such lost or wrong updates are not modelled.
- Settings values loaded from JSON can also be lists or objects; these lie outside the `Value` sum type. `deserialize` would store `str([1])` for a string setting or `bool([])` for a boolean setting, which the model does not cover.
- Search.IsMatch: the fuzzy adapter calls the external `fuzzysearch.find_near_matches`. It is replaced by the predicate "some substring of the content is within Levenshtein distance `max_l_dist` of the query", which is the library's documented meaning, not its algorithm. `max_l_dist` is a natural number in the model: the adapter's constructor accepts a negative value, and the library then raises on every query longer than two characters. That error path is not modelled.
- Text.Lower: `str.lower()` is modelled on the ASCII letters only. Unicode case mapping is left out.
- Search.InsensitiveAcceptsSensitiveMatches: holds for the ASCII lower-casing of the model only. Python's context-sensitive rules (the final sigma) can make a case-sensitive match fail case-insensitively: "Σ" occurs in "ΑΣ" but "σ" does not occur in "ας".
- SettingValues.ToInt: string parsing by `int()` and `float()`, and `repr` of a float, are the function parameters of `Conversions`, not modelled. Floats are reals, so NaN, infinities, rounding and the OverflowError of `int(inf)` are left out.
- SettingsSchema.GetAllDefaults: the result is keyed by schema values, so keys that Python would merge in one dictionary entry (`1`, `1.0`, `True`) stay apart. The statement holds for string keys, the only kind a schema uses.
- SettingsSchema.ValidateSettingValue: an `options` field that is not a list is not modelled; options are always a sequence of values.
- SettingsStore.UpdateValuesEntry: the dictionary passed in is a sequence of key/value pairs with distinct keys. This is what iterating a Python dictionary gives.
- SettingsStore.Serialize: the check that a stored key has a definition is made with `Defines`. In a valid store every stored key is defined, so the filter never drops anything.
- Plain declarations (ports, `setting_metadata.py`, `setting_type.py`, `settings_group.py`, `setting_definition.py`) are datatypes only.
- `get_all_values`, `get_groups` and `get_categories` return internal state unchanged and have no separate member.
