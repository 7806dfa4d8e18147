/** The application entry point: a running flag around the clipboard service,
    which makes start and stop idempotent. */
module AppService {
  import opened Clipboard
  import opened Search
  import CS = ClipboardService

  datatype App = App(running: bool, service: CS.Service)

  datatype AppStep = AppStep(app: App, effects: seq<CS.Effect>)

  /** A stopped application around a fresh clipboard service. */
  function NewApp(matcher: Matcher): (a: App)
    ensures !a.running && a.service == CS.NewService(matcher)
  {
    App(false, CS.NewService(matcher))
  }

  /** Starting: when not yet running, load the history and monitor the
      clipboard, hide the window, then enter the UI loop. */
  function Start(a: App, loaded: History): (r: AppStep)
    requires loaded.Valid()
    ensures a.running ==> r == AppStep(a, [])
    ensures !a.running ==>
      && r.app.running
      && r.app.service.history == loaded
      && r.app.service.displayed == ContentList(loaded)
      && r.effects == [CS.MonitoringStarted, CS.HistoryShown(ContentList(loaded)), CS.WindowHidden, CS.UiRun]
  {
    if a.running then AppStep(a, [])
    else
      var started := CS.StartMonitoring(a.service, loaded);
      AppStep(App(true, started.service), started.effects + [CS.WindowHidden, CS.UiRun])
  }

  /** Stopping: when running, stop the clipboard service (which stops
      monitoring and shuts the UI down) and shut the UI down once more. */
  function Stop(a: App): (r: AppStep)
    ensures !a.running ==> r == AppStep(a, [])
    ensures a.running ==>
      && r.app == a.(running := false)
      && r.effects == [CS.MonitoringStopped, CS.UiShutdown, CS.UiShutdown]
  {
    if !a.running then AppStep(a, [])
    else
      var stopped := CS.Stop(a.service);
      AppStep(App(false, stopped.service), stopped.effects + [CS.UiShutdown])
  }

  /** A second start of a running application calls no port, whatever
      history storage would now return. */
  lemma StartTwiceStartsOnce(a: App, loaded: History, reloaded: History)
    requires loaded.Valid() && reloaded.Valid()
    ensures var first := Start(a, loaded);
      Start(first.app, reloaded) == AppStep(first.app, [])
  {
  }

  /** Stopping a stopped application, and starting after a stop, behave as if
      the application had just been built: stop is silent and start runs in
      full. */
  lemma StopThenStartRestarts(a: App, loaded: History, reloaded: History)
    requires loaded.Valid() && reloaded.Valid()
    ensures
      var started := Start(a, loaded);
      var stopped := Stop(started.app);
      && !stopped.app.running
      && Stop(stopped.app).effects == []
      && Start(stopped.app, reloaded).effects
           == [CS.MonitoringStarted, CS.HistoryShown(ContentList(reloaded)), CS.WindowHidden, CS.UiRun]
  {
  }

  /** One run of the application shuts the UI down twice on stop. */
  lemma StopShutsUiDownTwice(a: App)
    requires a.running
    ensures multiset(Stop(a).effects)[CS.UiShutdown] == 2
  {
    assert Stop(a).effects == [CS.MonitoringStopped] + [CS.UiShutdown] + [CS.UiShutdown];
  }
}
