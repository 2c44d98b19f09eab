/**
 Task reminders: an hourly cron over applications that stay in a state, with one log row per
 application in place of the history of all reminders.
 */
module Reminders {
  import opened Wrappers

  /** The one row kept per application: the stay it was sent for and when. */
  datatype LogRow = LogRow(event: string, remindedAt: int)

  /** The thresholds of one cron run; without `repeat` one reminder per stay. */
  datatype Config = Config(after: int, repeat: Option<int>)

  /** What the cron reads of one application: its latest status event and who can act. */
  datatype View = View(id: string, event: string, enteredAt: int, actionable: bool, hasRecipients: bool)

  predicate Reminded(log: Option<LogRow>, event: string, now: int, repeat: Option<int>) {
    && log.Some?
    && log.value.event == event
    && (repeat.None? || log.value.remindedAt > now - repeat.value)
  }

  predicate IsDue(log: Option<LogRow>, v: View, now: int, config: Config) {
    v.enteredAt <= now - config.after && v.actionable && !Reminded(log, v.event, now, config.repeat)
  }

  /** The row after one cron run: written whenever there is somebody to remind. */
  function NextRow(log: Option<LogRow>, v: View, now: int, config: Config): Option<LogRow> {
    if IsDue(log, v, now, config) && v.hasRecipients then Some(LogRow(v.event, now)) else log
  }

  class TaskReminders {
    var logs: map<string, LogRow>

    constructor ()
      ensures logs == map[]
    {
      logs := map[];
    }

    function RowOf(id: string): Option<LogRow>
      reads this
    {
      if id in logs then Some(logs[id]) else None
    }

    /** Insert the row of an application or overwrite it; without recipients nothing is written. */
    method RemindOne(v: View, now: int) returns (written: bool)
      modifies this
      ensures written == v.hasRecipients
      ensures logs == if written then old(logs)[v.id := LogRow(v.event, now)] else old(logs)
    {
      if !v.hasRecipients {
        return false;
      }
      logs := logs[v.id := LogRow(v.event, now)];
      return true;
    }

    /** One cron run: the due applications are found first, then reminded one by one. */
    method ProcessTaskReminders(views: seq<View>, now: int, config: Config)
      requires forall i, j :: 0 <= i < j < |views| ==> views[i].id != views[j].id
      modifies this
      ensures forall i :: 0 <= i < |views| ==> RowOf(views[i].id) == NextRow(old(RowOf(views[i].id)), views[i], now, config)
      ensures forall id :: (forall i :: 0 <= i < |views| ==> views[i].id != id) ==> RowOf(id) == old(RowOf(id))
    {
      var due: seq<bool> := seq(|views|, i requires 0 <= i < |views| reads this => IsDue(RowOf(views[i].id), views[i], now, config));
      for n := 0 to |views|
        invariant forall i :: 0 <= i < n ==> RowOf(views[i].id) == NextRow(old(RowOf(views[i].id)), views[i], now, config)
        invariant forall i :: n <= i < |views| ==> RowOf(views[i].id) == old(RowOf(views[i].id))
        invariant forall id :: (forall i :: 0 <= i < |views| ==> views[i].id != id) ==> RowOf(id) == old(RowOf(id))
      {
        if due[n] {
          var written := RemindOne(views[n], now);
        }
      }
    }
  }

  // -- one application over a whole run ----------------------------------------------------------------

  datatype Happening =
    | StatusChange(event: string, at: int)
    | Cron(now: int, config: Config, actionable: bool, hasRecipients: bool)

  /** A sent reminder as a full history would hold it. */
  datatype Reminder = Reminder(event: string, enteredAt: int, sentAt: int, config: Config)

  datatype App = App(event: string, enteredAt: int, log: Option<LogRow>)

  function ViewOf(app: App, h: Happening): View
    requires h.Cron?
  {
    View("", app.event, app.enteredAt, h.actionable, h.hasRecipients)
  }

  function AppAfter(app: App, h: Happening): App {
    match h
    case StatusChange(event, at) => App(event, at, app.log)
    case Cron(now, config, _, _) => app.(log := NextRow(app.log, ViewOf(app, h), now, config))
  }

  /** Some reminder of this stay still counts. */
  predicate RemindedEver(history: seq<Reminder>, event: string, now: int, repeat: Option<int>) {
    exists i :: 0 <= i < |history| && history[i].event == event && (repeat.None? || history[i].sentAt > now - repeat.value)
  }

  /** Whether the cron sends, judged by the full history instead of the log row. */
  predicate SendsByHistory(app: App, history: seq<Reminder>, h: Happening)
    requires h.Cron?
  {
    && app.enteredAt <= h.now - h.config.after && h.actionable
    && !RemindedEver(history, app.event, h.now, h.config.repeat)
    && h.hasRecipients
  }

  predicate SendsByLog(app: App, h: Happening)
    requires h.Cron?
  {
    IsDue(app.log, ViewOf(app, h), h.now, h.config) && h.hasRecipients
  }

  function HistoryAfter(app: App, history: seq<Reminder>, h: Happening): seq<Reminder> {
    if h.Cron? && SendsByLog(app, h) then history + [Reminder(app.event, app.enteredAt, h.now, h.config)] else history
  }

  /** A status event nobody was reminded of, and a clock of the cron that does not run backwards. */
  ghost predicate MayHappen(app: App, history: seq<Reminder>, h: Happening) {
    match h
    case StatusChange(event, at) =>
      event != app.event && at > app.enteredAt && forall i :: 0 <= i < |history| ==> history[i].event != event
    case Cron(now, _, _, _) => forall i :: 0 <= i < |history| ==> history[i].sentAt <= now
  }

  ghost predicate IsRun(app: App, history: seq<Reminder>, run: seq<Happening>)
    decreases |run|
  {
    run != [] ==>
      && MayHappen(app, history, run[0])
      && IsRun(AppAfter(app, run[0]), HistoryAfter(app, history, run[0]), run[1..])
  }

  function HistoryOf(app: App, history: seq<Reminder>, run: seq<Happening>): seq<Reminder>
    decreases |run|
  {
    if run == [] then history else HistoryOf(AppAfter(app, run[0]), HistoryAfter(app, history, run[0]), run[1..])
  }

  /** The row is the last reminder, and once the stay was reminded of, every later reminder is of it. */
  ghost predicate LogMatches(app: App, history: seq<Reminder>) {
    && (history == [] <==> app.log.None?)
    && (history != [] ==> var last := history[|history| - 1]; app.log == Some(LogRow(last.event, last.sentAt)))
    && (forall i, j :: 0 <= i < j < |history| ==> history[i].sentAt <= history[j].sentAt)
    && (forall i, j :: 0 <= i < j < |history| && history[i].event == app.event ==> history[j].event == app.event)
  }

  /** Reminders of one stay keep their distance, and none comes before its stay is old enough. */
  ghost predicate WellSpaced(history: seq<Reminder>) {
    && (forall i, j :: 0 <= i < j < |history| && history[i].event == history[j].event ==>
          history[j].config.repeat.Some? && history[j].sentAt >= history[i].sentAt + history[j].config.repeat.value)
    && (forall i :: 0 <= i < |history| ==> history[i].sentAt >= history[i].enteredAt + history[i].config.after)
  }

  /** One row decides as the whole history does. */
  lemma LogDecidesLikeHistory(app: App, history: seq<Reminder>, h: Happening)
    requires LogMatches(app, history) && h.Cron? && MayHappen(app, history, h)
    ensures SendsByLog(app, h) <==> SendsByHistory(app, history, h)
  {
    if history != [] {
      var last := history[|history| - 1];
      forall i | 0 <= i < |history| && history[i].event == app.event
        ensures last.event == app.event && history[i].sentAt <= last.sentAt
      {
      }
      if Reminded(app.log, app.event, h.now, h.config.repeat) {
        assert last.event == app.event;
        assert RemindedEver(history, app.event, h.now, h.config.repeat);
      }
    }
  }

  lemma HappeningKeepsLog(app: App, history: seq<Reminder>, h: Happening)
    requires LogMatches(app, history) && WellSpaced(history) && MayHappen(app, history, h)
    ensures LogMatches(AppAfter(app, h), HistoryAfter(app, history, h))
    ensures WellSpaced(HistoryAfter(app, history, h))
  {
    if h.Cron? && SendsByLog(app, h) {
      LogDecidesLikeHistory(app, history, h);
      var next := HistoryAfter(app, history, h);
      forall i | 0 <= i < |history| && history[i].event == app.event
        ensures h.config.repeat.Some? && h.now >= history[i].sentAt + h.config.repeat.value
      {
        assert !(h.config.repeat.None? || history[i].sentAt > h.now - h.config.repeat.value);
      }
      assert forall i :: 0 <= i < |history| ==> next[i] == history[i];
    }
  }

  /**
   Over every run, under whatever thresholds each cron finds: the row stands for the whole history, a
   later reminder of one stay comes only in repeat mode and at least `repeat` after each earlier one,
   and none before the stay is `after` old.
   */
  lemma {:induction false} RunsKeepLog(app: App, history: seq<Reminder>, run: seq<Happening>)
    requires LogMatches(app, history) && WellSpaced(history) && IsRun(app, history, run)
    ensures WellSpaced(HistoryOf(app, history, run))
    decreases |run|
  {
    if run != [] {
      HappeningKeepsLog(app, history, run[0]);
      RunsKeepLog(AppAfter(app, run[0]), HistoryAfter(app, history, run[0]), run[1..]);
    }
  }

  /** The history that the full-history rule itself would leave behind. */
  function HistoryByHistory(app: App, history: seq<Reminder>, run: seq<Happening>): seq<Reminder>
    decreases |run|
  {
    if run == [] then history
    else
      var h := run[0];
      var next := if h.Cron? && SendsByHistory(app, history, h)
        then history + [Reminder(app.event, app.enteredAt, h.now, h.config)] else history;
      HistoryByHistory(AppAfter(app, h), next, run[1..])
  }

  /** The cron with one row sends exactly the reminders that the cron with the full history sends. */
  lemma {:induction false} RowRefinesHistory(app: App, history: seq<Reminder>, run: seq<Happening>)
    requires LogMatches(app, history) && WellSpaced(history) && IsRun(app, history, run)
    ensures HistoryOf(app, history, run) == HistoryByHistory(app, history, run)
    decreases |run|
  {
    if run != [] {
      if run[0].Cron? {
        LogDecidesLikeHistory(app, history, run[0]);
      }
      HappeningKeepsLog(app, history, run[0]);
      RowRefinesHistory(AppAfter(app, run[0]), HistoryAfter(app, history, run[0]), run[1..]);
    }
  }
}
