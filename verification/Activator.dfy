/** The checkpoint activator of plugins/riqor/hooks/activator.ts: one session's state file, and runs of the
    three operations on it, each under the session lock. */
module Activator {
  import opened Wrappers

  const MAX_SAFE := 0x1F_FFFF_FFFF_FFFF

  datatype Config = Config(interval: nat, watchdog: nat)

  datatype Phase = Waiting | Reviewing(startedAt: int, deadlineAt: int)

  datatype State = State(
    interval: nat, watchdog: nat, startedAt: int, lastActivityAt: int, lastActivatedAt: int, nextDueAt: int,
    cycle: int, phase: Phase)

  datatype Kind = Block | Completed | Timeout

  datatype Outcome = Nothing | Reported(kind: Kind, cycle: int)

  predicate ValidTime(t: int) {
    0 <= t <= MAX_SAFE
  }

  /** parseState accepts. */
  predicate Accepted(s: State, config: Config) {
    && s.interval == config.interval && s.watchdog == config.watchdog
    && ValidTime(s.startedAt) && ValidTime(s.lastActivityAt) && ValidTime(s.lastActivatedAt) && ValidTime(s.nextDueAt)
    && 0 <= s.cycle <= MAX_SAFE
    && (s.phase.Reviewing? ==> ValidTime(s.phase.startedAt) && ValidTime(s.phase.deadlineAt))
  }

  function Initial(config: Config, now: int): State {
    State(config.interval, config.watchdog, now, now, now, now + config.interval, 0, Waiting)
  }

  /** readState: a state that is not accepted is deleted. */
  function Read(file: Option<State>, config: Config): Option<State> {
    if file.Some? && Accepted(file.value, config) then file else None
  }

  datatype Event = Start(now: int) | Touch(now: int) | Stop(now: int, allowStart: bool)

  function Max(a: int, b: int): int {
    if a < b then b else a
  }

  /** What an operation writes and answers, from the state it reads. */
  function Step(file: Option<State>, e: Event, config: Config): (Option<State>, Outcome) {
    var current := Read(file, config);
    match e
    case Start(now) =>
      (Some(if current.None? then Initial(config, now)
            else current.value.(lastActivityAt := Max(current.value.lastActivityAt, now))), Nothing)
    case Touch(now) =>
      (Some((if current.None? then Initial(config, now) else current.value).(lastActivityAt := now)), Nothing)
    case Stop(now, allowStart) =>
      if current.None? then (Some(Initial(config, now)), Nothing)
      else
        var s := current.value;
        if s.phase.Reviewing? then
          (Some(s.(phase := Waiting, lastActivityAt := now, lastActivatedAt := now, nextDueAt := now + config.interval)),
           Reported(if now > s.phase.deadlineAt then Timeout else Completed, s.cycle))
        else if !allowStart || now < s.nextDueAt then (current, Nothing)
        else
          (Some(s.(phase := Reviewing(now, now + config.watchdog), cycle := s.cycle + 1, lastActivityAt := now)),
           Reported(Block, s.cycle + 1))
  }

  class Checkpoint {
    const config: Config
    var file: Option<State>

    constructor (config: Config)
      ensures this.config == config && file == None
    {
      this.config, file := config, None;
    }

    /** initializeActivator, after its pruning. */
    method Initialize(now: int)
      modifies this
      ensures file == Step(old(file), Start(now), config).0
    {
      var current := Read(file, config);
      if current.Some? {
        file := Some(current.value.(lastActivityAt := Max(current.value.lastActivityAt, now)));
        return;
      }
      file := Some(Initial(config, now));
    }

    /** touchActivator. */
    method Touched(now: int)
      modifies this
      ensures file == Step(old(file), Touch(now), config).0
    {
      var current := Read(file, config);
      var state := if current.Some? then current.value else Initial(config, now);
      file := Some(state.(lastActivityAt := now));
    }

    /** observeActivatorStop. */
    method ObserveStop(now: int, allowStart: bool) returns (outcome: Outcome)
      modifies this
      ensures (file, outcome) == Step(old(file), Stop(now, allowStart), config)
    {
      file := Read(file, config);
      if file.None? {
        file := Some(Initial(config, now));
        return Nothing;
      }
      var s := file.value;
      if s.phase.Reviewing? {
        var timedOut := now > s.phase.deadlineAt;
        file := Some(s.(
          phase := Waiting, lastActivityAt := now, lastActivatedAt := now, nextDueAt := now + config.interval));
        return Reported(if timedOut then Timeout else Completed, s.cycle);
      }
      if !allowStart || now < s.nextDueAt {
        return Nothing;
      }
      file := Some(s.(
        phase := Reviewing(now, now + config.watchdog), cycle := s.cycle + 1, lastActivityAt := now));
      return Reported(Block, s.cycle + 1);
    }
  }

  /** A stored state of another configuration, or with a time or a cycle out of range, counts as none. */
  lemma RefusedIsNone(s: State, e: Event, config: Config)
    requires var times := [s.startedAt, s.lastActivityAt, s.lastActivatedAt, s.nextDueAt, s.cycle]
               + if s.phase.Reviewing? then [s.phase.startedAt, s.phase.deadlineAt] else [];
      s.interval != config.interval || s.watchdog != config.watchdog || exists t :: t in times && !(0 <= t <= MAX_SAFE)
    ensures Step(Some(s), e, config) == Step(None, e, config)
  {
  }

  // ---------------------------------------------------------------- runs

  datatype Report = Report(kind: Kind, cycle: int, at: int)

  /** The file after a run, and what was reported when. */
  function Run(events: seq<Event>, config: Config): (Option<State>, seq<Report>) {
    if events == [] then (None, [])
    else
      var (file, reports) := Run(events[..|events| - 1], config);
      var e := events[|events| - 1];
      var (after, outcome) := Step(file, e, config);
      (after, if outcome.Nothing? then reports else reports + [Report(outcome.kind, outcome.cycle, e.now)])
  }

  /** Clock readings that leave room for the two spans added to them. */
  ghost predicate SafeTimes(events: seq<Event>, config: Config) {
    && |events| <= MAX_SAFE
    && forall k | 0 <= k < |events| :: 0 <= events[k].now <= MAX_SAFE - config.interval - config.watchdog
  }

  ghost predicate ClockForward(events: seq<Event>) {
    forall j, k | 0 <= j < k < |events| :: events[j].now <= events[k].now
  }

  /** The report at k in its turn. */
  ghost predicate Fits(reports: seq<Report>, k: nat, config: Config)
    requires k < |reports|
  {
    var r := reports[k];
    r.cycle == k / 2 + 1 &&
    if k % 2 == 0 then
      r.kind == Block && (k > 0 ==> r.at >= reports[k - 1].at + config.interval)
    else
      r.kind == if r.at > reports[k - 1].at + config.watchdog then Timeout else Completed
  }

  /** Blocks and their ends in turn, numbered 1, 1, 2, 2, ...; an end is a timeout exactly when it is later than its
      block plus the watchdog; a block comes no earlier than one interval after the end before it. */
  ghost predicate Alternates(reports: seq<Report>, config: Config) {
    forall k: nat | k < |reports| :: Fits(reports, k, config)
  }

  /** When the last report was made, or the session began. */
  function LastAt(reports: seq<Report>, begun: int): int {
    if reports == [] then begun else reports[|reports| - 1].at
  }

  /** When the last review ended, or the session began. */
  function LastEnd(reports: seq<Report>, begun: int): int {
    if |reports| < 2 then begun else if |reports| % 2 == 0 then reports[|reports| - 1].at else reports[|reports| - 2].at
  }

  /** What the stored state knows of the run; the next reader accepts it. */
  ghost predicate Tracks(file: Option<State>, reports: seq<Report>, begun: int, config: Config) {
    && file.Some? && Accepted(file.value, config)
    && file.value.startedAt == begun && file.value.lastActivatedAt == LastEnd(reports, begun)
    && file.value.interval == config.interval && file.value.watchdog == config.watchdog
    && file.value.cycle == (|reports| + 1) / 2
    && file.value.phase == (if |reports| % 2 == 0 then Waiting
                            else Reviewing(LastAt(reports, begun), LastAt(reports, begun) + config.watchdog))
    && (|reports| % 2 == 0 ==> file.value.nextDueAt == LastAt(reports, begun) + config.interval)
  }

  predicate SafeTime(now: int, config: Config) {
    0 <= now <= MAX_SAFE - config.interval - config.watchdog
  }

  function Appended(reports: seq<Report>, outcome: Outcome, at: int): seq<Report> {
    if outcome.Nothing? then reports else reports + [Report(outcome.kind, outcome.cycle, at)]
  }

  lemma AlternatesMore(reports: seq<Report>, r: Report, config: Config)
    requires Alternates(reports, config) && Fits(reports + [r], |reports|, config)
    ensures Alternates(reports + [r], config)
  {
    forall k: nat | k < |reports|
      ensures Fits(reports + [r], k, config)
    {
      assert Fits(reports, k, config);
    }
  }

  lemma FirstStepTracks(e: Event, config: Config)
    requires SafeTime(e.now, config)
    ensures var (file, outcome) := Step(None, e, config);
      outcome.Nothing? && Tracks(file, [], e.now, config)
  {
  }

  lemma StopTracks(file: Option<State>, e: Event, reports: seq<Report>, begun: int, config: Config)
    requires Tracks(file, reports, begun, config) && Alternates(reports, config) && e.Stop?
    requires SafeTime(e.now, config) && |reports| < MAX_SAFE
    ensures var (after, outcome) := Step(file, e, config);
      var more := Appended(reports, outcome, e.now);
      Tracks(after, more, begun, config) && Alternates(more, config)
  {
    var (after, outcome) := Step(file, e, config);
    if outcome.Reported? {
      var r := Report(outcome.kind, outcome.cycle, e.now);
      assert (reports + [r])[|reports|] == r;
      assert |reports| > 0 ==> (reports + [r])[|reports| - 1] == reports[|reports| - 1];
      AlternatesMore(reports, r, config);
    }
  }

  lemma OtherTracks(file: Option<State>, e: Event, reports: seq<Report>, begun: int, config: Config)
    requires Tracks(file, reports, begun, config) && !e.Stop? && SafeTime(e.now, config)
    ensures Step(file, e, config).1.Nothing? && Tracks(Step(file, e, config).0, reports, begun, config)
  {
  }

  /** In every run the file is there after the first event and is accepted by the next reader, and the reports
      alternate; touches, session starts and stops that may not start a review change nothing of that. */
  lemma {:induction false} RunAlternates(events: seq<Event>, config: Config)
    requires SafeTimes(events, config)
    ensures var (file, reports) := Run(events, config);
      Alternates(reports, config) && |reports| <= |events|
      && if events == [] then file.None? && reports == [] else Tracks(file, reports, events[0].now, config)
    decreases |events|
  {
    hide Step, Tracks, Alternates;
    if events == [] {
      assert Alternates([], config) by { NoReports(config); }
    } else {
      var n := |events| - 1;
      RunAlternates(events[..n], config);
      var e := events[n];
      var (file, reports) := Run(events[..n], config);
      assert SafeTime(e.now, config);
      if n == 0 {
        FirstStepTracks(e, config);
      } else if e.Stop? {
        StopTracks(file, e, reports, events[0].now, config);
      } else {
        OtherTracks(file, e, reports, events[0].now, config);
      }
    }
  }

  lemma NoReports(config: Config)
    ensures Alternates([], config)
  {
  }

  /** What an event is answered after some reports: a stop ends the review under way, or begins one when it may and is
      due, an interval after the last report or the first event; nothing else is answered. */
  ghost function Answers(reports: seq<Report>, e: Event, begun: int, config: Config): seq<Report> {
    var k := |reports| / 2 + 1;
    if !e.Stop? then []
    else if |reports| % 2 == 1 then
      [Report(if e.now > reports[|reports| - 1].at + config.watchdog then Timeout else Completed, k, e.now)]
    else if e.allowStart && e.now >= LastAt(reports, begun) + config.interval then [Report(Block, k, e.now)]
    else []
  }

  /** After every run that is not empty the next event is answered exactly so. */
  lemma {:induction false} NextAnswer(events: seq<Event>, e: Event, config: Config)
    requires events != [] && SafeTimes(events, config) && SafeTime(e.now, config)
    ensures var reports := Run(events, config).1;
      Run(events + [e], config).1 == reports + Answers(reports, e, events[0].now, config)
  {
    hide Alternates;
    RunAlternates(events, config);
    assert (events + [e])[..|events|] == events;
    var (file, reports) := Run(events, config);
    assert reports + [] == reports;
    assert Tracks(file, reports, events[0].now, config);
  }

  // ---------------------------------------------------------------- how many cycles fit into the time

  /** Reports in order between two times. */
  ghost predicate Between(reports: seq<Report>, first: int, last: int) {
    && (forall j, k | 0 <= j < k < |reports| :: reports[j].at <= reports[k].at)
    && (forall k | 0 <= k < |reports| :: first <= reports[k].at <= last)
  }

  lemma BetweenMore(reports: seq<Report>, outcome: Outcome, first: int, last: int, now: int)
    requires Between(reports, first, last) && first <= last <= now
    ensures Between(Appended(reports, outcome, now), first, now)
  {
  }

  /** The reports of a run come in order, between its first and its last event. */
  lemma {:induction false} ReportsInOrder(events: seq<Event>, config: Config)
    requires ClockForward(events) && events != []
    ensures Between(Run(events, config).1, events[0].now, events[|events| - 1].now)
    decreases |events|
  {
    hide Step, Between;
    var n := |events| - 1;
    var (file, reports) := Run(events[..n], config);
    var outcome := Step(file, events[n], config).1;
    assert Run(events, config).1 == Appended(reports, outcome, events[n].now);
    if n == 0 {
      assert Between([], events[0].now, events[0].now) by { NoneBetween(events[0].now); }
      BetweenMore([], outcome, events[0].now, events[0].now, events[0].now);
    } else {
      ReportsInOrder(events[..n], config);
      BetweenMore(reports, outcome, events[0].now, events[n - 1].now, events[n].now);
    }
  }

  lemma NoneBetween(now: int)
    ensures Between([], now, now)
  {
  }

  /** With a clock that does not go back, the k-th block comes no earlier than k intervals after the first event. */
  lemma {:induction false} BlocksTakeTime(reports: seq<Report>, begun: int, config: Config, k: nat)
    requires Alternates(reports, config) && forall i, j | 0 <= i < j < |reports| :: reports[i].at <= reports[j].at
    requires |reports| > 0 ==> reports[0].at >= begun + config.interval
    requires 2 * k < |reports|
    ensures reports[2 * k].cycle == k + 1 && reports[2 * k].at >= begun + (k + 1) * config.interval
    decreases k
  {
    assert Fits(reports, 2 * k, config);
    if k > 0 {
      BlocksTakeTime(reports, begun, config, k - 1);
      assert reports[2 * (k - 1)].at <= reports[2 * k - 1].at;
      assert (k + 1) * config.interval == k * config.interval + config.interval;
    }
  }

  /** The first block comes no earlier than one interval after the first event. */
  lemma {:induction false} FirstBlockWaits(events: seq<Event>, config: Config)
    requires SafeTimes(events, config)
    ensures Run(events, config).1 != [] ==> Run(events, config).1[0].at >= events[0].now + config.interval
    decreases |events|
  {
    hide Alternates;
    if events != [] {
      var n := |events| - 1;
      FirstBlockWaits(events[..n], config);
      RunAlternates(events[..n], config);
    }
  }

  /** With a clock that does not go back, cycle times interval is at most the time since the session began. */
  lemma {:induction false} CyclesFitTheTime(events: seq<Event>, config: Config)
    requires SafeTimes(events, config) && ClockForward(events) && events != []
    ensures var file := Run(events, config).0;
      file.Some? && Accepted(file.value, config)
      && file.value.cycle * config.interval <= events[|events| - 1].now - file.value.startedAt
      && file.value.startedAt == events[0].now
  {
    var (file, reports) := Run(events, config);
    RunAlternates(events, config);
    ReportsInOrder(events, config);
    FirstBlockWaits(events, config);
    if reports != [] {
      var k := (|reports| - 1) / 2;
      BlocksTakeTime(reports, events[0].now, config, k);
      assert file.value.cycle == k + 1;
      assert reports[2 * k].at <= events[|events| - 1].now;
    } else {
      assert file.value.cycle == 0;
      assert events[0].now <= events[|events| - 1].now;
    }
  }

  /** When the session was last active: the latest of its starts, its touches, and the stops that were answered. */
  ghost function ActiveAt(events: seq<Event>, config: Config): int
    requires events != []
  {
    var n := |events| - 1;
    var now := events[n].now;
    if n == 0 then now
    else
      var before := ActiveAt(events[..n], config);
      match events[n]
      case Start(_) => Max(before, now)
      case Touch(_) => now
      case Stop(_, _) => if Answers(Owed(events[..n], config), events[n], events[0].now, config) == [] then before else now
  }

  lemma {:induction false} RunActiveAt(events: seq<Event>, config: Config)
    requires SafeTimes(events, config) && events != []
    ensures Run(events, config).0.Some? && Run(events, config).0.value.lastActivityAt == ActiveAt(events, config)
    decreases |events|
  {
    hide Alternates, Tracks, Step, Answers;
    var n := |events| - 1;
    RunAlternates(events[..n], config);
    RunIsOwed(events[..n], config);
    assert SafeTime(events[n].now, config);
    var (file, reports) := Run(events[..n], config);
    if n > 0 {
      RunActiveAt(events[..n], config);
      ActiveStep(file, events[n], reports, events[0].now, config);
    } else {
      FirstActive(events[0], config);
    }
  }

  lemma FirstActive(e: Event, config: Config)
    ensures Step(None, e, config).0.Some? && Step(None, e, config).0.value.lastActivityAt == e.now
  {
  }

  lemma ActiveStep(file: Option<State>, e: Event, reports: seq<Report>, begun: int, config: Config)
    requires Tracks(file, reports, begun, config) && SafeTime(e.now, config)
    ensures var after := Step(file, e, config).0;
      after.Some? && after.value.lastActivityAt ==
        if e.Start? then Max(file.value.lastActivityAt, e.now)
        else if e.Touch? then e.now
        else if Answers(reports, e, begun, config) == [] then file.value.lastActivityAt
        else e.now
  {
  }

  // ---------------------------------------------------------------- a session on the object

  /** The reports that a session owes its events. */
  ghost function Owed(events: seq<Event>, config: Config): seq<Report> {
    if |events| < 2 then []
    else
      var n := |events| - 1;
      var reports := Owed(events[..n], config);
      reports + Answers(reports, events[n], events[0].now, config)
  }

  lemma {:induction false} RunIsOwed(events: seq<Event>, config: Config)
    requires SafeTimes(events, config)
    ensures Run(events, config).1 == Owed(events, config)
    decreases |events|
  {
    hide Step, Answers;
    if |events| > 1 {
      var n := |events| - 1;
      RunIsOwed(events[..n], config);
      assert events == events[..n] + [events[n]];
      NextAnswer(events[..n], events[n], config);
    } else if |events| == 1 {
      FirstStepTracks(events[0], config);
      assert events[..0] == [] && Run(events[..0], config) == (None, []);
    }
  }

  /** Any session on a checkpoint: its answers are those owed and alternate, and the state it leaves is accepted by the
      next reader. */
  method Session(c: Checkpoint, events: seq<Event>) returns (reports: seq<Report>)
    requires c.file == None && SafeTimes(events, c.config)
    modifies c
    ensures reports == Owed(events, c.config) && Alternates(reports, c.config)
    ensures events != [] ==> Read(c.file, c.config).Some?
    ensures events != [] && ClockForward(events) ==>
      c.file.value.cycle * c.config.interval <= events[|events| - 1].now - events[0].now
  {
    hide Accepted, Alternates;
    reports := [];
    assert events[..0] == [];
    for k := 0 to |events|
      invariant (c.file, reports) == Run(events[..k], c.config)
    {
      assert events[..k + 1][..k] == events[..k];
      match events[k] {
        case Start(now) => c.Initialize(now);
        case Touch(now) => c.Touched(now);
        case Stop(now, allowStart) =>
          var outcome := c.ObserveStop(now, allowStart);
          if outcome.Reported? {
            reports := reports + [Report(outcome.kind, outcome.cycle, now)];
          }
      }
    }
    assert events[..|events|] == events;
    RunAlternates(events, c.config);
    RunIsOwed(events, c.config);
    if events != [] && ClockForward(events) {
      CyclesFitTheTime(events, c.config);
    }
  }
}
