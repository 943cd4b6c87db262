/** The terminal evidence flag of src/terminal-runtime.ts: the stored state, the validator that reads it
    back, and the two recorders, over any session of events. */
module TerminalSession {
  import opened Wrappers

  datatype Kind = Mutation | Verification | Agent | Other

  datatype Profile = Database | Debugging | Review | Security | Ui | Research | Privacy | Performance | Evolution
    | Focus | Engineering

  /** A classified command. */
  datatype Command = Command(kind: Kind, route: Profile, digest: string)

  datatype Pending = Pending(command: Command, startedAt: real)

  datatype Stored = Stored(
    version: int, sessionDigest: string, evidencePending: bool, commandDigest: string, lastKind: Kind,
    lastExitCode: Option<int>, route: Profile, updatedAt: real, pending: Option<Pending>)

  /** The state file: Unreadable is anything that is not an object with these keys and these types. */
  datatype File = Missing | Unreadable | Holds(value: Stored)

  // ---------------------------------------------------------------- reading

  predicate IsDigest(s: string) {
    |s| == 64 && forall k | 0 <= k < 64 :: 'a' <= s[k] <= 'f' || '0' <= s[k] <= '9'
  }

  predicate ValidPending(p: Pending) {
    IsDigest(p.command.digest) && p.startedAt >= 0.0
  }

  /** A pending command has no exit code yet, is the last command, and keeps the flag set when it is a mutation. */
  predicate PendingAgrees(s: Stored, p: Pending) {
    && s.lastExitCode.None?
    && (p.command.kind == Mutation ==> s.evidencePending)
    && s.lastKind == p.command.kind && s.route == p.command.route
    && s.commandDigest == p.command.digest && s.updatedAt == p.startedAt
  }

  /** parseStoredState accepts. */
  predicate Accepted(s: Stored, session: string) {
    && s.version == 1 && s.sessionDigest == session && IsDigest(s.commandDigest) && s.updatedAt >= 0.0
    && (s.pending.Some? ==> ValidPending(s.pending.value) && PendingAgrees(s, s.pending.value))
  }

  function Blank(session: string, emptyDigest: string, now: real): Stored {
    Stored(1, session, false, emptyDigest, Other, None, Engineering, now, None)
  }

  /** load: nothing pending when there is no file, evidence pending when the file is not acceptable. */
  function Loaded(file: File, session: string, emptyDigest: string, now: real): Stored {
    if file.Missing? then Blank(session, emptyDigest, now)
    else if file.Holds? && Accepted(file.value, session) then file.value
    else Blank(session, emptyDigest, now).(evidencePending := true)
  }

  // ---------------------------------------------------------------- writing

  function Started(current: Stored, c: Command, now: real): Stored {
    current.(
      evidencePending := current.evidencePending || c.kind == Mutation,
      commandDigest := c.digest, lastKind := c.kind, lastExitCode := None, route := c.route, updatedAt := now,
      pending := Some(Pending(c, now)))
  }

  function Ended(current: Stored, p: Pending, exitCode: int, now: real): Stored {
    Stored(
      1, current.sessionDigest,
      if p.command.kind == Mutation then true
      else if p.command.kind == Verification && exitCode == 0 then false
      else current.evidencePending,
      p.command.digest, p.command.kind, Some(exitCode), p.command.route, now, None)
  }

  datatype Transition = Transition(command: Command, exitCode: int, startedAt: real, completedAt: real)

  /** One session's state file and the operations on it, each under the session lock. */
  class Recorder {
    const session: string
    const emptyDigest: string
    var file: File

    constructor (session: string, emptyDigest: string)
      ensures this.session == session && this.emptyDigest == emptyDigest && file == Missing
    {
      this.session, this.emptyDigest, file := session, emptyDigest, Missing;
    }

    /** recordTerminalPreexec. */
    method Preexec(c: Command, now: real)
      modifies this
      ensures file == Step(old(file), Pre(c, now), session, emptyDigest)
    {
      var current := Loaded(file, session, emptyDigest, now);
      file := Holds(Started(current, c, now));
    }

    /** recordTerminalPostexec. */
    method Postexec(exitCode: int, now: real) returns (state: Stored, transition: Option<Transition>)
      modifies this
      ensures file == Step(old(file), Post(exitCode, now), session, emptyDigest)
      ensures transition.Some? <==> Loaded(old(file), session, emptyDigest, now).pending.Some?
      ensures transition.None? ==> state == Loaded(old(file), session, emptyDigest, now)
      ensures transition.Some? ==>
        var p := Loaded(old(file), session, emptyDigest, now).pending.value;
        transition.value == Transition(p.command, exitCode, p.startedAt, now)
        && file == Holds(state)
    {
      var current := Loaded(file, session, emptyDigest, now);
      if current.pending.None? {
        return current, None;
      }
      var p := current.pending.value;
      state := Ended(current, p, exitCode, now);
      file := Holds(state);
      transition := Some(Transition(p.command, exitCode, p.startedAt, now));
    }
  }

  // ---------------------------------------------------------------- sessions

  /** What can happen to the file: the two recorders, content that the validator refuses, and deletion. */
  datatype Event =
    | Pre(command: Command, now: real)
    | Post(exitCode: int, now: real)
    | Spoil(content: File)
    | Delete

  predicate Possible(e: Event, session: string) {
    match e
    case Pre(c, now) => IsDigest(c.digest) && now >= 0.0
    case Post(_, now) => now >= 0.0
    case Spoil(content) => content.Unreadable? || (content.Holds? && !Accepted(content.value, session))
    case Delete => true
  }

  function Step(file: File, e: Event, session: string, emptyDigest: string): File {
    match e
    case Pre(c, now) => Holds(Started(Loaded(file, session, emptyDigest, now), c, now))
    case Post(exitCode, now) =>
      var current := Loaded(file, session, emptyDigest, now);
      if current.pending.None? then file else Holds(Ended(current, current.pending.value, exitCode, now))
    case Spoil(content) => content
    case Delete => Missing
  }

  function Run(events: seq<Event>, session: string, emptyDigest: string): File {
    if events == [] then Missing
    else Step(Run(events[..|events| - 1], session, emptyDigest), events[|events| - 1], session, emptyDigest)
  }

  ghost predicate AllPossible(events: seq<Event>, session: string) {
    forall k | 0 <= k < |events| :: Possible(events[k], session)
  }

  /** What the next reader would see. */
  predicate FlagSet(file: File, session: string) {
    !file.Missing? && (file.Holds? && Accepted(file.value, session) ==> file.value.evidencePending)
  }

  function PendingOf(file: File, session: string): Option<Pending> {
    if file.Holds? && Accepted(file.value, session) then file.value.pending else None
  }

  /** A written state is accepted by the reader's own validator exactly when its time is a valid one. */
  lemma WrittenIsAccepted(file: File, e: Event, session: string, emptyDigest: string)
    requires IsDigest(emptyDigest) && (e.Pre? || e.Post?) && (e.Pre? ==> IsDigest(e.command.digest))
    ensures Step(file, e, session, emptyDigest) == file
         || (Step(file, e, session, emptyDigest).Holds?
             && (Accepted(Step(file, e, session, emptyDigest).value, session) <==> e.now >= 0.0))
  {
  }

  /** Mutations start, and unreadable states appear. */
  predicate Sets(e: Event) {
    (e.Pre? && e.command.kind == Mutation) || e.Spoil?
  }

  /** A verification starts at k and the next thing that happens is its end with exit code 0; or all is deleted. */
  predicate Clears(events: seq<Event>, k: int) {
    || (0 <= k < |events| && events[k].Delete?)
    || (0 <= k < |events| - 1 && events[k].Pre? && events[k].command.kind == Verification
        && events[k + 1].Post? && events[k + 1].exitCode == 0)
  }

  ghost predicate Unverified(events: seq<Event>, i: int) {
    0 <= i < |events| && Sets(events[i]) && forall k | i < k < |events| :: !Clears(events, k)
  }

  ghost predicate SomeUnverified(events: seq<Event>) {
    exists i :: Unverified(events, i)
  }

  /** A command is pending exactly when its start is the last thing that happened. */
  lemma PendingIsLast(events: seq<Event>, session: string, emptyDigest: string)
    requires IsDigest(emptyDigest) && AllPossible(events, session)
    ensures PendingOf(Run(events, session, emptyDigest), session)
         == if events != [] && events[|events| - 1].Pre?
            then Some(Pending(events[|events| - 1].command, events[|events| - 1].now)) else None
  {
    if events != [] {
      var n := |events| - 1;
      var file := Run(events[..n], session, emptyDigest);
      assert Possible(events[n], session);
      if events[n].Pre? || events[n].Post? {
        WrittenIsAccepted(file, events[n], session, emptyDigest);
      }
    }
  }

  /** The last event deletes the state, or ends a verification that the event before it started. */
  predicate JustCleared(events: seq<Event>, k: int)
    requires events != []
  {
    var n := |events| - 1;
    || (k == n && events[n].Delete?)
    || (k == n - 1 >= 0 && events[k].Pre? && events[k].command.kind == Verification
        && events[n].Post? && events[n].exitCode == 0)
  }

  lemma ClearsLater(events: seq<Event>, k: int)
    requires events != []
    ensures Clears(events, k) <==> Clears(events[..|events| - 1], k) || JustCleared(events, k)
  {
  }

  /** How one more event changes whether something is unverified. */
  lemma UnverifiedStep(events: seq<Event>)
    requires events != []
    ensures var n := |events| - 1;
      SomeUnverified(events) <==>
        (if Sets(events[n]) then true
         else if JustCleared(events, n) || JustCleared(events, n - 1) then false
         else SomeUnverified(events[..n]))
  {
    var n := |events| - 1;
    forall k
      ensures Clears(events, k) <==> Clears(events[..n], k) || JustCleared(events, k)
    {
      ClearsLater(events, k);
    }
    if Sets(events[n]) {
      assert Unverified(events, n);
    } else if SomeUnverified(events) {
      var i :| Unverified(events, i);
      assert !Clears(events, n) && (i < n - 1 ==> !Clears(events, n - 1));
      assert Unverified(events[..n], i);
    } else if SomeUnverified(events[..n]) {
      var i :| Unverified(events[..n], i);
      assert !Unverified(events, i);
    }
  }

  /** Over any session, the flag reads as set exactly when some mutation (or spoilt state) was followed neither by
      a verification that started later and ended next with exit code 0, nor by a deletion of the state. */
  lemma {:induction false} FlagIffUnverified(events: seq<Event>, session: string, emptyDigest: string)
    requires IsDigest(emptyDigest) && AllPossible(events, session)
    ensures FlagSet(Run(events, session, emptyDigest), session) <==> SomeUnverified(events)
    decreases |events|
  {
    if events != [] {
      var n := |events| - 1;
      var file := Run(events[..n], session, emptyDigest);
      assert Possible(events[n], session);
      FlagIffUnverified(events[..n], session, emptyDigest);
      UnverifiedStep(events);
      PendingIsLast(events[..n], session, emptyDigest);
      if events[n].Pre? || events[n].Post? {
        WrittenIsAccepted(file, events[n], session, emptyDigest);
      }
    }
  }

  /** The evidence promise: with the flag clear and no deletion, every mutation started before a verification that
      itself started later and ended with exit code 0. */
  lemma ClearMeansVerified(events: seq<Event>, i: nat, session: string, emptyDigest: string) returns (k: nat)
    requires IsDigest(emptyDigest) && AllPossible(events, session) && Delete !in events
    requires !FlagSet(Run(events, session, emptyDigest), session)
    requires i < |events| && Sets(events[i])
    ensures i < k < |events| - 1 && events[k].Pre? && events[k].command.kind == Verification
    ensures events[k + 1].Post? && events[k + 1].exitCode == 0
  {
    FlagIffUnverified(events, session, emptyDigest);
    assert !Unverified(events, i);
    k :| i < k < |events| && Clears(events, k);
  }

  /** The state that a command leaves, under way or ended with an exit code. */
  ghost function Left(c: Command, exitCode: Option<int>, now: real, flag: bool, session: string): Stored {
    Stored(1, session, flag, c.digest, c.kind, exitCode, c.route, now, if exitCode.None? then Some(Pending(c, now)) else None)
  }

  /** The state that a session leaves: after a start the command under way, after its end its exit code, with the flag
      set exactly when something is unverified; an end without a start changes nothing. */
  lemma StoredIs(events: seq<Event>, session: string, emptyDigest: string)
    requires IsDigest(emptyDigest) && AllPossible(events, session) && events != []
    ensures var n := |events| - 1;
      Run(events, session, emptyDigest) ==
        if events[n].Pre? then Holds(Left(events[n].command, None, events[n].now, SomeUnverified(events), session))
        else if events[n].Post? && n > 0 && events[n - 1].Pre? then
          Holds(Left(events[n - 1].command, Some(events[n].exitCode), events[n].now, SomeUnverified(events), session))
        else if events[n].Post? then Run(events[..n], session, emptyDigest)
        else if events[n].Spoil? then events[n].content
        else Missing
  {
    hide SomeUnverified;
    var n := |events| - 1;
    var e := events[n];
    assert Possible(e, session);
    FlagIffUnverified(events, session, emptyDigest);
    PendingIsLast(events[..n], session, emptyDigest);
    if e.Pre? || e.Post? {
      WrittenIsAccepted(Run(events[..n], session, emptyDigest), e, session, emptyDigest);
      SessionKept(Run(events[..n], session, emptyDigest), session, emptyDigest, e.now);
    }
  }

  lemma SessionKept(file: File, session: string, emptyDigest: string, now: real)
    ensures var s := Loaded(file, session, emptyDigest, now);
      s.version == 1 && s.sessionDigest == session && s.pending == PendingOf(file, session)
  {
  }

  /** No content of the file hides a mutation that it says is under way, or clears another session. */
  lemma NoContentClears(s: Stored, session: string)
    requires s.sessionDigest != session || (s.pending.Some? && s.pending.value.command.kind == Mutation)
    ensures FlagSet(Holds(s), session) && FlagSet(Unreadable, session)
  {
  }

  // ---------------------------------------------------------------- a session on the object

  /** The transitions of a session: an end right after a start, with that start's command and time. */
  function Ends(events: seq<Event>): seq<Transition> {
    if events == [] then []
    else
      var n := |events| - 1;
      var before := Ends(events[..n]);
      if events[n].Post? && n > 0 && events[n - 1].Pre? then
        before + [Transition(events[n - 1].command, events[n].exitCode, events[n - 1].now, events[n].now)]
      else before
  }

  /** Any session on a recorder: the flag it leaves is clear exactly when nothing is unverified, and the transitions it
      hands out are exactly the ends right after a start. */
  method Session(r: Recorder, events: seq<Event>) returns (clear: bool, transitions: seq<Transition>)
    requires r.file == Missing && IsDigest(r.emptyDigest) && AllPossible(events, r.session)
    modifies r
    ensures clear <==> !SomeUnverified(events)
    ensures clear <==> !FlagSet(r.file, r.session)
    ensures transitions == Ends(events)
  {
    hide Accepted, Loaded, Started, Ended;
    transitions := [];
    assert events[..0] == [];
    for k := 0 to |events|
      invariant r.file == Run(events[..k], r.session, r.emptyDigest) && transitions == Ends(events[..k])
    {
      assert events[..k + 1][..k] == events[..k];
      assert Possible(events[k], r.session);
      PendingIsLast(events[..k], r.session, r.emptyDigest);
      match events[k] {
        case Pre(c, now) => r.Preexec(c, now);
        case Post(exitCode, now) =>
          LoadedPending(r.file, r.session, r.emptyDigest, now);
          var state, transition := r.Postexec(exitCode, now);
          if transition.Some? {
            transitions := transitions + [transition.value];
          }
        case Spoil(content) => r.file := content;
        case Delete => r.file := Missing;
      }
    }
    assert events[..|events|] == events;
    FlagIffUnverified(events, r.session, r.emptyDigest);
    clear := !FlagSet(r.file, r.session);
  }

  lemma LoadedPending(file: File, session: string, emptyDigest: string, now: real)
    ensures Loaded(file, session, emptyDigest, now).pending == PendingOf(file, session)
  {
  }
}
