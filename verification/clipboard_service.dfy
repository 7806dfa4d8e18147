/** The orchestrator wiring history, storage, search and UI. Every port call
    is recorded as an `Effect`; a handler returns the new service state and
    the calls it made, in order. */
module ClipboardService {
  import opened Text
  import opened Seqs
  import opened Clipboard
  import opened Search

  /** One call the service makes on a port. */
  datatype Effect =
    | HistorySaved(snapshot: History)
    | StorageCleared
    | HistoryShown(contents: seq<string>)
    | MessageShown(text: string)
    | ClipboardWritten(content: string)
    | MonitoringStarted
    | MonitoringStopped
    | UiRun
    | UiShutdown
    | WindowHidden

  /** The full history, the list the UI currently displays (indices of copy
      and delete requests refer to it) and the configured search port. */
  datatype Service = Service(history: History, displayed: seq<string>, matcher: Matcher) {
    predicate Valid() {
      history.Valid()
    }

    /** Every displayed text is the content of some history item. */
    predicate DisplayBacked() {
      forall c :: c in displayed ==> c in ContentList(history)
    }
  }

  datatype Step = Step(service: Service, effects: seq<Effect>)

  const ClearedMessage: string := "Clipboard history cleared!"

  /** A fresh service: empty history of default capacity, nothing displayed. */
  function NewService(matcher: Matcher): (s: Service)
    ensures s.Valid() && s.DisplayBacked()
    ensures s.history.items == [] && s.history.maxItems == DefaultMaxItems
    ensures s.displayed == [] && s.matcher == matcher
  {
    Service(History([], DefaultMaxItems), [], matcher)
  }

  /** Showing the full history, which also becomes the displayed list. */
  function UpdateUiDisplay(s: Service): (r: Step)
    ensures r.service.history == s.history && r.service.matcher == s.matcher
    ensures r.service.displayed == ContentList(s.history)
    ensures r.effects == [HistoryShown(r.service.displayed)]
    ensures r.service.DisplayBacked()
  {
    var contents := ContentList(s.history);
    Step(s.(displayed := contents), [HistoryShown(contents)])
  }

  /** Loading the stored history and starting to monitor the clipboard,
      without entering the UI loop. */
  function StartMonitoring(s: Service, loaded: History): (r: Step)
    requires loaded.Valid()
    ensures r.service.Valid() && r.service.DisplayBacked()
    ensures r.service.history == loaded && r.service.displayed == ContentList(loaded)
    ensures r.effects == [MonitoringStarted, HistoryShown(ContentList(loaded))]
  {
    var shown := UpdateUiDisplay(s.(history := loaded));
    Step(shown.service, [MonitoringStarted] + shown.effects)
  }

  /** Loading the stored history, starting monitoring, showing the history
      and entering the UI loop. */
  function Start(s: Service, loaded: History): (r: Step)
    requires loaded.Valid()
    ensures r.service.Valid() && r.service.DisplayBacked()
    ensures r.service.history == loaded && r.service.displayed == ContentList(loaded)
    ensures r.effects == [MonitoringStarted, HistoryShown(ContentList(loaded)), UiRun]
  {
    var started := StartMonitoring(s, loaded);
    Step(started.service, started.effects + [UiRun])
  }

  /** Stopping monitoring and shutting the UI down. */
  function Stop(s: Service): (r: Step)
    ensures r.service == s
    ensures r.effects == [MonitoringStopped, UiShutdown]
  {
    Step(s, [MonitoringStopped, UiShutdown])
  }

  /** A new clipboard text: record it, save the history, show the full list.
      An empty text is ignored. The active query is not re-applied. */
  function OnClipboardChange(s: Service, content: string, now: Timestamp): (r: Step)
    requires s.Valid()
    ensures content == "" ==> r == Step(s, [])
    ensures content != "" ==>
      var h := AddItem(s.history, content, now);
      && r.service == s.(history := h, displayed := ContentList(h))
      && r.effects == [HistorySaved(h), HistoryShown(ContentList(h))]
      && ContentList(h)[0] == content
  {
    if content == "" then Step(s, [])
    else
      var h := AddItem(s.history, content, now);
      var shown := UpdateUiDisplay(s.(history := h));
      Step(shown.service, [HistorySaved(h)] + shown.effects)
  }

  /** Copying the displayed entry at `index` back to the clipboard. */
  function OnCopyItem(s: Service, index: int): (r: Step)
    ensures r.service == s
    ensures 0 <= index < |s.displayed| ==> r.effects == [ClipboardWritten(s.displayed[index])]
    ensures !(0 <= index < |s.displayed|) ==> r.effects == []
  {
    if 0 <= index < |s.displayed| then Step(s, [ClipboardWritten(s.displayed[index])])
    else Step(s, [])
  }

  /** Filtering the full history with the search port and showing the result. */
  function OnSearch(s: Service, query: string): (r: Step)
    ensures r.service.history == s.history && r.service.matcher == s.matcher
    ensures r.service.displayed == Contents(Search.Search(s.matcher, s.history.items, query))
    ensures r.effects == [HistoryShown(r.service.displayed)]
    ensures query == "" ==> r.service.displayed == ContentList(s.history)
    ensures IsSubsequence(r.service.displayed, ContentList(s.history))
  {
    var found := Search.Search(s.matcher, s.history.items, query);
    SearchKeepsOrder(s.matcher, s.history.items, query);
    ContentsKeepSubsequence(found, s.history.items);
    var contents := Contents(found);
    Step(s.(displayed := contents), [HistoryShown(contents)])
  }

  /** Emptying history and storage, showing the empty list, telling the user. */
  function OnClearHistory(s: Service): (r: Step)
    ensures r.service.history == Clear(s.history) && r.service.matcher == s.matcher
    ensures r.service.displayed == []
    ensures r.effects == [StorageCleared, HistoryShown([]), MessageShown(ClearedMessage)]
  {
    var h := Clear(s.history);
    var shown := UpdateUiDisplay(s.(history := h));
    Step(shown.service, [StorageCleared] + shown.effects + [MessageShown(ClearedMessage)])
  }

  /** The position of the first item carrying `content`, or -1. */
  function FirstIndexOf(items: seq<Item>, content: string): (r: int)
    ensures -1 <= r < |items|
    ensures r == -1 <==> forall i :: 0 <= i < |items| ==> items[i].content != content
    ensures r >= 0 ==> items[r].content == content
    ensures r >= 0 ==> forall i :: 0 <= i < r ==> items[i].content != content
    decreases |items|
  {
    if items == [] then -1
    else if items[0].content == content then 0
    else
      var k := FirstIndexOf(items[1..], content);
      if k == -1 then -1 else k + 1
  }

  /** Some item carries `content`. */
  predicate HasContent(items: seq<Item>, content: string) {
    exists i :: 0 <= i < |items| && items[i].content == content
  }

  /** Deleting the displayed entry at `index`: the first history item with that
      content is removed, the history saved and the full list shown. A bad
      index or a content no longer in the history changes nothing. */
  function OnDeleteItem(s: Service, index: int): (r: Step)
    requires s.Valid()
    ensures !(0 <= index < |s.displayed|) ==> r == Step(s, [])
    ensures 0 <= index < |s.displayed| && !HasContent(s.history.items, s.displayed[index]) ==> r == Step(s, [])
    ensures 0 <= index < |s.displayed| && HasContent(s.history.items, s.displayed[index]) ==>
      var items := s.history.items;
      exists k ::
        && 0 <= k < |items|
        && items[k].content == s.displayed[index]
        && (forall i :: 0 <= i < k ==> items[i].content != s.displayed[index])
        && r.service.history == s.history.(items := items[..k] + items[k + 1..])
        && r.service.displayed == ContentList(r.service.history)
        && r.effects == [HistorySaved(r.service.history), HistoryShown(r.service.displayed)]
  {
    if 0 <= index < |s.displayed| then
      var target := s.displayed[index];
      var actual := FirstIndexOf(s.history.items, target);
      var removal := RemoveItemByIndex(s.history, actual);
      if actual != -1 && removal.0 then
        var shown := UpdateUiDisplay(s.(history := removal.1));
        Step(shown.service, [HistorySaved(removal.1)] + shown.effects)
      else Step(s, [])
    else Step(s, [])
  }

  /** The storage and UI as the service last left them: the items last
      saved, the list last shown, the text last written to the clipboard. */
  datatype PortView = PortView(stored: seq<Item>, shown: seq<string>, clipboard: string)

  /** The port view after one call. */
  function Perform(v: PortView, e: Effect): PortView {
    match e
    case HistorySaved(h) => v.(stored := h.items)
    case StorageCleared => v.(stored := [])
    case HistoryShown(contents) => v.(shown := contents)
    case ClipboardWritten(c) => v.(clipboard := c)
    case _ => v
  }

  /** The port view after the calls in `effects`, in order. */
  function Apply(v: PortView, effects: seq<Effect>): PortView
    decreases |effects|
  {
    if effects == [] then v else Apply(Perform(v, effects[0]), effects[1..])
  }

  /** Storage holds the in-memory history and the UI shows the displayed list. */
  predicate Mirrors(v: PortView, s: Service) {
    v.stored == s.history.items && v.shown == s.displayed
  }

  /** Running two batches of calls is running their concatenation. */
  lemma {:induction false} ApplyConcat(v: PortView, a: seq<Effect>, b: seq<Effect>)
    ensures Apply(v, a + b) == Apply(Apply(v, a), b)
    decreases |a|
  {
    if a == [] {
      assert a + b == b;
    } else {
      assert (a + b)[0] == a[0] && (a + b)[1..] == a[1..] + b;
      ApplyConcat(Perform(v, a[0]), a[1..], b);
    }
  }

  /** A recorded clipboard change leaves storage and UI mirroring the service. */
  lemma ChangeKeepsMirror(v: PortView, s: Service, content: string, now: Timestamp)
    requires s.Valid() && Mirrors(v, s)
    ensures var r := OnClipboardChange(s, content, now); Mirrors(Apply(v, r.effects), r.service)
  {
    var r := OnClipboardChange(s, content, now);
    if content != "" {
      ApplyConcat(v, [r.effects[0]], [r.effects[1]]);
      assert r.effects == [r.effects[0]] + [r.effects[1]];
    }
  }

  /** Copying an entry changes neither storage nor the shown list. */
  lemma CopyKeepsMirror(v: PortView, s: Service, index: int)
    requires Mirrors(v, s)
    ensures var r := OnCopyItem(s, index); Mirrors(Apply(v, r.effects), r.service)
  {
  }

  /** A search shows exactly the list it records as displayed. */
  lemma SearchKeepsMirror(v: PortView, s: Service, query: string)
    requires Mirrors(v, s)
    ensures var r := OnSearch(s, query); Mirrors(Apply(v, r.effects), r.service)
  {
  }

  /** Clearing empties storage and the shown list alike. */
  lemma ClearKeepsMirror(v: PortView, s: Service)
    requires Mirrors(v, s)
    ensures var r := OnClearHistory(s); Mirrors(Apply(v, r.effects), r.service)
  {
    var r := OnClearHistory(s);
    ApplyConcat(v, [r.effects[0]], [r.effects[1], r.effects[2]]);
    ApplyConcat(Apply(v, [r.effects[0]]), [r.effects[1]], [r.effects[2]]);
    assert r.effects == [r.effects[0]] + [r.effects[1], r.effects[2]];
    assert [r.effects[1], r.effects[2]] == [r.effects[1]] + [r.effects[2]];
  }

  /** A delete saves and shows the shortened history, or does nothing. */
  lemma DeleteKeepsMirror(v: PortView, s: Service, index: int)
    requires s.Valid() && Mirrors(v, s)
    ensures var r := OnDeleteItem(s, index); Mirrors(Apply(v, r.effects), r.service)
  {
    var r := OnDeleteItem(s, index);
    if r.effects != [] {
      ApplyConcat(v, [r.effects[0]], [r.effects[1]]);
      assert r.effects == [r.effects[0]] + [r.effects[1]];
    }
  }

  /** Recording a text, copying an entry and clearing keep the history
      valid and the displayed list backed by it. */
  lemma HandlersKeepInvariant(s: Service, content: string, now: Timestamp, index: int)
    requires s.Valid() && s.DisplayBacked()
    ensures var r := OnClipboardChange(s, content, now); r.service.Valid() && r.service.DisplayBacked()
    ensures var r := OnCopyItem(s, index); r.service.Valid() && r.service.DisplayBacked()
    ensures var r := OnClearHistory(s); r.service.Valid() && r.service.DisplayBacked()
  {
  }

  /** A search keeps the history valid and shows only history contents. */
  lemma SearchKeepsInvariant(s: Service, query: string)
    requires s.Valid() && s.DisplayBacked()
    ensures var r := OnSearch(s, query); r.service.Valid() && r.service.DisplayBacked()
  {
    var r := OnSearch(s, query);
    forall c | c in r.service.displayed ensures c in ContentList(s.history) {
      var k :| 0 <= k < |r.service.displayed| && r.service.displayed[k] == c;
      SubsequenceMembers(r.service.displayed, ContentList(s.history), k);
    }
  }

  /** A delete keeps the history valid and the displayed list backed by it. */
  lemma DeleteKeepsInvariant(s: Service, index: int)
    requires s.Valid() && s.DisplayBacked()
    ensures var r := OnDeleteItem(s, index); r.service.Valid() && r.service.DisplayBacked()
  {
    if 0 <= index < |s.displayed| && HasContent(s.history.items, s.displayed[index]) {
      var k := FirstIndexOf(s.history.items, s.displayed[index]);
      RemoveItemKeepsInvariant(s.history, k);
    }
  }

  /** While the displayed list is backed by the history, a delete with a
      valid index always finds its entry and removes exactly one item. */
  lemma DeleteWithValidIndexRemovesOne(s: Service, index: int)
    requires s.Valid() && s.DisplayBacked()
    requires 0 <= index < |s.displayed|
    ensures |OnDeleteItem(s, index).service.history.items| == |s.history.items| - 1
  {
    ContentListMembership(s.history, s.displayed[index]);
  }

  /** A new clipboard text shows the whole history even while a query is
      active: a text the query rejects is displayed anyway. */
  lemma ChangeIgnoresActiveQuery(t: Timestamp)
    ensures
      var s0 := Service(History([Item("x", t)], DefaultMaxItems), ["x"], DefaultSimple);
      var searched := OnSearch(s0, "x").service;
      var changed := OnClipboardChange(searched, "y", t).service;
      !IsMatch(DefaultSimple, Item("y", t), "x") && changed.displayed == ["y", "x"]
  {
    var s0 := Service(History([Item("x", t)], DefaultMaxItems), ["x"], DefaultSimple);
    assert Lower("x") == "x" && Lower("y") == "y";
    assert !IsSubstring("x", "y") by {
      assert "y"[0..1] == "y";
      forall i | 0 <= i <= 0 ensures !OccursAt("x", "y", i) {}
    }
    var searched := OnSearch(s0, "x").service;
    assert searched.history == s0.history;
    AddAbsent(searched.history, "y", t);
  }

  /** Deleting the second displayed entry of a filtered view removes that
      text from the full history, not the second history item. */
  lemma DeleteThroughFilteredView(t: Timestamp)
    ensures
      var s := Service(History([Item("z", t), Item("x", t), Item("y", t)], DefaultMaxItems), ["x", "y"], DefaultFuzzy);
      ContentList(OnDeleteItem(s, 1).service.history) == ["z", "x"]
  {
    var items := [Item("z", t), Item("x", t), Item("y", t)];
    var s := Service(History(items, DefaultMaxItems), ["x", "y"], DefaultFuzzy);
    assert FirstIndexOf(items, "y") == 2 by {
      assert items[1..] == [Item("x", t), Item("y", t)];
      assert items[1..][1..] == [Item("y", t)];
    }
    assert items[..2] + items[3..] == [Item("z", t), Item("x", t)];
  }
}
