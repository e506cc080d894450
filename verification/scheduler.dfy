/**
 The background worker (background.js): an alarm registry kept by the host,
 the handlers that arm and clear its two alarms, the message dispatch from
 the popup, and the two periodic jobs the alarms trigger. Storage reads, tab
 queries and the outcomes of host calls are inputs; what a handler asks of
 the host is its result.
 */
module Scheduler {
  import opened Basics
  import opened Tabs
  import opened Archive

  /** The timing of one alarm, in minutes. */
  datatype Alarm = Alarm(delayInMinutes: real, periodInMinutes: real)

  /** The host's alarms, by name. */
  type Registry = map<string, Alarm>

  const AutoCleanupAlarm: string := "autoCleanup"
  const ArchiveCleanupAlarm: string := "archiveCleanup"

  /** The auto-cleanup check never runs less often than every 30 minutes. */
  const MaxCheckInterval: real := 30.0
  /** The archive cleanup runs hourly. */
  const ArchiveIntervalMinutes: real := 60.0
  /** The threshold used when none is stored. */
  const DefaultInactiveMinutes: int := 60

  /** `chrome.alarms.clear(name)` */
  function ClearAlarm(reg: Registry, name: string): (r: Registry)
    ensures name !in r
    ensures forall k :: k != name ==> (k in r <==> k in reg)
    ensures forall k :: k in r ==> r[k] == reg[k]
  {
    reg - {name}
  }

  /** `chrome.alarms.create(name, alarm)`, which replaces an alarm of the
      same name. */
  function CreateAlarm(reg: Registry, name: string, alarm: Alarm): (r: Registry)
    ensures r.Keys == reg.Keys + {name}
    ensures r[name] == alarm
    ensures forall k :: k in reg && k != name ==> r[k] == reg[k]
  {
    reg[name := alarm]
  }

  /** `Math.min(inactiveMinutes / 4, 30)`: check a quarter of the threshold
      apart, but at least every 30 minutes. */
  function Cadence(inactiveMinutes: int): (c: real)
    ensures c <= MaxCheckInterval
    ensures c <= inactiveMinutes as real / 4.0
    ensures c == inactiveMinutes as real / 4.0 || c == MaxCheckInterval
  {
    var quarter := inactiveMinutes as real / 4.0;
    if quarter < MaxCheckInterval then quarter else MaxCheckInterval
  }

  /** Below two hours the cadence is exactly a quarter of the threshold;
      from two hours on it is 30 minutes. */
  lemma CadenceRegimes(inactiveMinutes: int)
    ensures inactiveMinutes <= 120 ==> Cadence(inactiveMinutes) == inactiveMinutes as real / 4.0
    ensures inactiveMinutes >= 120 ==> Cadence(inactiveMinutes) == 30.0
  {
  }

  /** `setupAutoCleanup`: clear, then re-create the auto-cleanup alarm with
      delay and period both equal to the cadence. */
  function SetupAutoCleanup(reg: Registry, inactiveMinutes: int): (r: Registry)
    ensures r.Keys == reg.Keys + {AutoCleanupAlarm}
    ensures r[AutoCleanupAlarm].delayInMinutes == r[AutoCleanupAlarm].periodInMinutes == Cadence(inactiveMinutes)
    ensures forall k :: k in reg && k != AutoCleanupAlarm ==> r[k] == reg[k]
  {
    var c := Cadence(inactiveMinutes);
    CreateAlarm(ClearAlarm(reg, AutoCleanupAlarm), AutoCleanupAlarm, Alarm(c, c))
  }

  /** `setupArchiveCleanup`: the archive alarm, hourly, first after an hour. */
  function SetupArchiveCleanup(reg: Registry): (r: Registry)
    ensures r.Keys == reg.Keys + {ArchiveCleanupAlarm}
    ensures r[ArchiveCleanupAlarm] == Alarm(60.0, 60.0)
    ensures forall k :: k in reg && k != ArchiveCleanupAlarm ==> r[k] == reg[k]
  {
    CreateAlarm(ClearAlarm(reg, ArchiveCleanupAlarm), ArchiveCleanupAlarm,
                Alarm(ArchiveIntervalMinutes, ArchiveIntervalMinutes))
  }

  /** Only the last set-up counts: arming again replaces the earlier alarm,
      and arming twice alike is the same as arming once. */
  lemma LastSetupWins(reg: Registry, first: int, second: int)
    ensures SetupAutoCleanup(SetupAutoCleanup(reg, first), second) == SetupAutoCleanup(reg, second)
  {
    var a := SetupAutoCleanup(SetupAutoCleanup(reg, first), second);
    var b := SetupAutoCleanup(reg, second);
    assert a.Keys == b.Keys;
    forall k | k in a ensures a[k] == b[k] {
    }
  }

  lemma SetupIdempotent(reg: Registry, inactiveMinutes: int)
    ensures SetupAutoCleanup(SetupAutoCleanup(reg, inactiveMinutes), inactiveMinutes)
              == SetupAutoCleanup(reg, inactiveMinutes)
  {
    LastSetupWins(reg, inactiveMinutes, inactiveMinutes);
  }

  /** A message from the popup. `time` is the threshold in minutes; it is
      read only by `enableAutoCleanup`. */
  datatype Message = Message(action: string, time: int)

  /** The message handler: enable re-arms with the message's threshold,
      disable clears the auto-cleanup alarm, anything else is ignored. */
  function OnMessage(reg: Registry, message: Message): (r: Registry)
    ensures message.action == "enableAutoCleanup" ==>
              && r.Keys == reg.Keys + {AutoCleanupAlarm}
              && r[AutoCleanupAlarm] == Alarm(Cadence(message.time), Cadence(message.time))
    ensures message.action == "disableAutoCleanup" ==> r.Keys == reg.Keys - {AutoCleanupAlarm}
    ensures message.action != "enableAutoCleanup" && message.action != "disableAutoCleanup" ==> r == reg
    ensures forall k :: k in reg && k != AutoCleanupAlarm ==> k in r && r[k] == reg[k]
  {
    if message.action == "enableAutoCleanup" then SetupAutoCleanup(reg, message.time)
    else if message.action == "disableAutoCleanup" then ClearAlarm(reg, AutoCleanupAlarm)
    else reg
  }

  /** Disabling undoes any earlier enabling. */
  lemma DisableUndoesEnable(reg: Registry, time: int)
    ensures OnMessage(OnMessage(reg, Message("enableAutoCleanup", time)), Message("disableAutoCleanup", 0))
              == ClearAlarm(reg, AutoCleanupAlarm)
  {
    var a := OnMessage(OnMessage(reg, Message("enableAutoCleanup", time)), Message("disableAutoCleanup", 0));
    var b := ClearAlarm(reg, AutoCleanupAlarm);
    assert a.Keys == b.Keys;
  }

  /** The two settings the worker reads from sync storage; `None` stands for
      a missing value (for the threshold also for `null` and `NaN`). */
  datatype StoredSettings = StoredSettings(autoCleanup: Option<bool>, inactiveTime: Option<int>)

  /** `result.autoCleanup` read as a condition. */
  predicate Enabled(settings: StoredSettings) {
    settings.autoCleanup == Some(true)
  }

  /** `result.inactiveTime || 60`: a missing or zero threshold means an hour. */
  function EffectiveMinutes(stored: Option<int>): (m: int)
    ensures m != 0
    ensures stored.Some? && stored.value != 0 ==> m == stored.value
    ensures m == 60 <==> stored == None || stored == Some(0) || stored == Some(60)
  {
    match stored
    case Some(v) => if v != 0 then v else DefaultInactiveMinutes
    case None => DefaultInactiveMinutes
  }

  /** `onInstalled`: always arm the archive alarm; arm auto-cleanup too when
      the stored settings enable it. */
  function OnInstalled(reg: Registry, settings: Reply<StoredSettings>): (r: Registry)
    ensures r.Keys == reg.Keys + {ArchiveCleanupAlarm} + (if settings.Ok? && Enabled(settings.value) then {AutoCleanupAlarm} else {})
    ensures r[ArchiveCleanupAlarm] == Alarm(60.0, 60.0)
    ensures settings.Ok? && Enabled(settings.value) ==>
              var c := Cadence(EffectiveMinutes(settings.value.inactiveTime));
              r[AutoCleanupAlarm] == Alarm(c, c)
    ensures forall k :: k in reg && k != ArchiveCleanupAlarm && !(k == AutoCleanupAlarm && settings.Ok? && Enabled(settings.value)) ==> r[k] == reg[k]
  {
    var armed := SetupArchiveCleanup(reg);
    match settings
    case Ok(s) =>
      if Enabled(s) then SetupAutoCleanup(armed, EffectiveMinutes(s.inactiveTime)) else armed
    case HostError => armed
  }

  /** The storage callback of `onInstalled` may run before or after
      `setupArchiveCleanup`; the registry comes out the same either way. */
  lemma InstallOrderIrrelevant(reg: Registry, inactiveMinutes: int)
    ensures SetupArchiveCleanup(SetupAutoCleanup(reg, inactiveMinutes))
              == SetupAutoCleanup(SetupArchiveCleanup(reg), inactiveMinutes)
  {
    var a := SetupArchiveCleanup(SetupAutoCleanup(reg, inactiveMinutes));
    var b := SetupAutoCleanup(SetupArchiveCleanup(reg), inactiveMinutes);
    assert a.Keys == b.Keys;
  }

  /** What one auto-cleanup tick asks of the host: the registry afterwards,
      the ids it asks to close, and the count it notifies about. */
  datatype TickEffect = TickEffect(registry: Registry, closed: Option<seq<TabId>>, notified: Option<nat>)

  /** `performAutoCleanup`, with the settings read, the clock, the tab query
      and the outcome of `tabs.remove` as inputs. A throwing filter callback
      ends the tick before anything is closed. */
  function AutoCleanupTick(reg: Registry, settings: Reply<StoredSettings>, now: int,
                           query: Reply<seq<Tab>>, removeOk: bool): (e: TickEffect)
    ensures settings.HostError? ==> e == TickEffect(reg, None, None)
    ensures settings.Ok? && !Enabled(settings.value) ==> e == TickEffect(ClearAlarm(reg, AutoCleanupAlarm), None, None)
    ensures settings.Ok? && Enabled(settings.value) ==> e.registry == reg
    ensures e.closed.Some? ==>
              && settings.Ok? && Enabled(settings.value) && query.Ok?
              && var selected := Classify(query.value, EffectiveMinutes(settings.value.inactiveTime), now);
              && selected.Returned?
              && e.closed.value == Ids(selected.value)
              && |e.closed.value| > 0
    ensures settings.Ok? && Enabled(settings.value) && query.Ok? ==>
              var selected := Classify(query.value, EffectiveMinutes(settings.value.inactiveTime), now);
              (e.closed.Some? <==> selected.Returned? && |selected.value| > 0)
    ensures e.notified.Some? <==> e.closed.Some? && removeOk
    ensures e.notified.Some? ==> e.notified.value == |e.closed.value|
  {
    match settings
    case HostError => TickEffect(reg, None, None)
    case Ok(s) =>
      if !Enabled(s) then TickEffect(ClearAlarm(reg, AutoCleanupAlarm), None, None)
      else
        match query
        case HostError => TickEffect(reg, None, None)
        case Ok(tabs) =>
          match Classify(tabs, EffectiveMinutes(s.inactiveTime), now)
          case Threw => TickEffect(reg, None, None)
          case Returned(inactive) =>
            if |inactive| > 0 then
              TickEffect(reg, Some(Ids(inactive)), if removeOk then Some(|inactive|) else None)
            else TickEffect(reg, None, None)
  }

  /** Both call sites apply one rule: with the same tabs, threshold and
      clock, the tick closes exactly the tabs the popup would list, and
      closes nothing when the popup would list none. */
  lemma SameSelectionAtBothSites(reg: Registry, inactiveTime: Option<int>, now: int, tabs: seq<Tab>, removeOk: bool)
    requires GetInactiveTabs(Ok(tabs), Some(EffectiveMinutes(inactiveTime)), now).Returned?
    ensures
      var listed := GetInactiveTabs(Ok(tabs), Some(EffectiveMinutes(inactiveTime)), now).value;
      var e := AutoCleanupTick(reg, Ok(StoredSettings(Some(true), inactiveTime)), now, Ok(tabs), removeOk);
      && (e.closed.Some? <==> |listed| > 0)
      && (e.closed.Some? ==> e.closed.value == Ids(listed))
  {
  }

  /** A tick that finds auto-cleanup switched off closes nothing and leaves
      no auto-cleanup alarm behind, so no further tick follows. */
  lemma DisabledTickStopsItself(reg: Registry, settings: StoredSettings, now: int, query: Reply<seq<Tab>>, removeOk: bool)
    requires !Enabled(settings)
    ensures
      var e := AutoCleanupTick(reg, Ok(settings), now, query, removeOk);
      e.closed.None? && e.notified.None? && AutoCleanupAlarm !in e.registry
  {
  }

  /** What an alarm sets off. */
  datatype Reaction =
    | AutoTick(tick: TickEffect)
    | ArchiveTick(cleanup: CleanupEffect)
    | Ignored

  /** `onAlarm`: dispatch on the alarm's name. The inputs of both jobs are
      supplied; only the chosen job reads its own. */
  function OnAlarm(reg: Registry, name: string,
                   settings: Reply<StoredSettings>, now: int, query: Reply<seq<Tab>>, removeOk: bool,
                   archive: Reply<Option<seq<ArchivedTab>>>, writeOk: bool): (r: Reaction)
    ensures r.AutoTick? <==> name == AutoCleanupAlarm
    ensures r.ArchiveTick? <==> name == ArchiveCleanupAlarm
    ensures r.AutoTick? ==> r.tick == AutoCleanupTick(reg, settings, now, query, removeOk)
    ensures r.ArchiveTick? ==> r.cleanup == ArchiveCleanup(archive, now, writeOk)
  {
    if name == AutoCleanupAlarm then AutoTick(AutoCleanupTick(reg, settings, now, query, removeOk))
    else if name == ArchiveCleanupAlarm then ArchiveTick(ArchiveCleanup(archive, now, writeOk))
    else Ignored
  }

  /** One event the worker handles, carrying the host's answers to the calls
      the handler makes. */
  datatype Event =
    | Installed(settings: Reply<StoredSettings>)
    | Received(message: Message)
    | Fired(name: string, settings: Reply<StoredSettings>, now: int, query: Reply<seq<Tab>>,
            removeOk: bool, archive: Reply<Option<seq<ArchivedTab>>>, writeOk: bool)

  /** The registry after one event. */
  function Step(reg: Registry, ev: Event): Registry {
    match ev
    case Installed(settings) => OnInstalled(reg, settings)
    case Received(message) => OnMessage(reg, message)
    case Fired(name, settings, now, query, removeOk, archive, writeOk) =>
      match OnAlarm(reg, name, settings, now, query, removeOk, archive, writeOk)
      case AutoTick(tick) => tick.registry
      case ArchiveTick(_) => reg
      case Ignored => reg
  }

  /** The registry after a sequence of events, in order. */
  function Run(reg: Registry, events: seq<Event>): Registry
    decreases |events|
  {
    if |events| == 0 then reg else Run(Step(reg, events[0]), events[1..])
  }

  /** Every alarm waits one period before it first fires. */
  predicate DelayIsPeriod(reg: Registry) {
    forall k :: k in reg ==> reg[k].delayInMinutes == reg[k].periodInMinutes
  }

  /** The worker only ever knows its two alarms. */
  predicate KnownAlarms(reg: Registry) {
    forall k :: k in reg ==> k == AutoCleanupAlarm || k == ArchiveCleanupAlarm
  }

  predicate WellFormed(reg: Registry) {
    DelayIsPeriod(reg) && KnownAlarms(reg)
  }

  lemma StepKeepsWellFormed(reg: Registry, ev: Event)
    requires WellFormed(reg)
    ensures WellFormed(Step(reg, ev))
  {
  }

  /** Whatever happens, the registry holds only the two alarms, each with
      its delay equal to its period. */
  lemma {:induction false} RunKeepsWellFormed(reg: Registry, events: seq<Event>)
    requires WellFormed(reg)
    ensures WellFormed(Run(reg, events))
    decreases |events|
  {
    if |events| > 0 {
      StepKeepsWellFormed(reg, events[0]);
      RunKeepsWellFormed(Step(reg, events[0]), events[1..]);
    }
  }

  /** Once armed, the hourly archive alarm is never removed or changed. */
  lemma {:induction false} ArchiveStaysArmed(reg: Registry, events: seq<Event>)
    requires ArchiveCleanupAlarm in reg && reg[ArchiveCleanupAlarm] == Alarm(60.0, 60.0)
    ensures
      var r := Run(reg, events);
      ArchiveCleanupAlarm in r && r[ArchiveCleanupAlarm] == Alarm(60.0, 60.0)
    decreases |events|
  {
    if |events| > 0 {
      ArchiveStaysArmed(Step(reg, events[0]), events[1..]);
    }
  }

  /** Scenario: installing with auto-cleanup on and no stored threshold
      arms a 15-minute check and the hourly archive cleanup. */
  lemma FreshInstall()
    ensures OnInstalled(map[], Ok(StoredSettings(Some(true), None)))
              == map[ArchiveCleanupAlarm := Alarm(60.0, 60.0), AutoCleanupAlarm := Alarm(15.0, 15.0)]
  {
    var r := OnInstalled(map[], Ok(StoredSettings(Some(true), None)));
    var expected := map[ArchiveCleanupAlarm := Alarm(60.0, 60.0), AutoCleanupAlarm := Alarm(15.0, 15.0)];
    assert r.Keys == expected.Keys;
  }

  /** Scenario: a 200-minute threshold is checked every 30 minutes. */
  lemma LongThresholdCadence()
    ensures Cadence(200) == 30.0
    ensures Cadence(60) == 15.0
  {
  }
}
