/** The event-sourced run of src/assurance/run-store.ts as values: an append-only trace, a mutable run
    record written after it, and the replay that brings the record up to date after a crash. */
module RunTrace {
  import opened Wrappers

  datatype RunStatus = Active | VerificationPending | Completed | Failed | Abandoned

  datatype EventKind =
    | RunStarted
    | CommandCompleted
    | WorkspaceMutated
    | VerificationRequired
    | VerificationCompleted
    | RunCompleted

  datatype EventStatus = Pending | Success | Failure

  datatype CommandKind = Mutation | Verification | Agent | Other

  datatype Metadata =
    | NoMetadata
    | Command(kind: CommandKind, exitCode: int)
    | CommandStarted(startedAt: int)
    | Repository(head: Option<string>, dirty: bool)
    | RepositoryUnavailable

  datatype Event = Event(sequence: nat, kind: EventKind, status: EventStatus, digest: Option<string>, metadata: Metadata)

  /** An event before it has a sequence number, with the status change it carries. */
  datatype Input = Input(kind: EventKind, status: EventStatus, digest: Option<string>, metadata: Metadata,
                         nextStatus: Option<RunStatus>, whenStatus: Option<RunStatus>)

  datatype Run = Run(status: RunStatus, nextSequence: nat)

  datatype Store = Store(trace: seq<Event>, run: Run)

  datatype Error =
    | SequenceGap
    | AheadOfTrace
    | NotWritable
    | StillPending
    | NotActive
    | NoVerification
    | NoProvenance
    | RepositoryChanged

  /** run.json written by createRun, before its first event. */
  const CREATED := Store([], Run(Active, 1))

  // ---------------------------------------------------------------- replay

  predicate Terminal(status: RunStatus) {
    status.Completed? || status.Failed? || status.Abandoned?
  }

  predicate IsBoundary(e: Event) {
    || e.kind.WorkspaceMutated?
    || e.kind.VerificationRequired?
    || (e.kind.CommandCompleted? && e.status.Success? && e.metadata.Command? && e.metadata.kind.Mutation?)
  }

  predicate IsVerified(e: Event) {
    e.kind.VerificationCompleted? && e.status.Success?
  }

  predicate Sequenced(trace: seq<Event>) {
    forall k | 0 <= k < |trace| :: trace[k].sequence == k + 1
  }

  function DeriveOne(status: RunStatus, e: Event): RunStatus {
    if IsBoundary(e) then VerificationPending
    else if e.kind.VerificationCompleted? then Active
    else if e.kind.RunCompleted? then Completed
    else status
  }

  /** The status a replay of the events ends in. */
  function Derived(status: RunStatus, events: seq<Event>): RunStatus {
    if events == [] then status
    else DeriveOne(Derived(status, events[..|events| - 1]), events[|events| - 1])
  }

  function Reconciled(s: Store): Result<Store, Error> {
    if !Sequenced(s.trace) then Result.Failure(SequenceGap)
    else if s.run.nextSequence > |s.trace| + 1 then Result.Failure(AheadOfTrace)
    else if s.run.nextSequence == |s.trace| + 1 then Result.Success(s)
    else Result.Success(Store(s.trace, Run(Derived(s.run.status, s.trace), |s.trace| + 1)))
  }

  // ---------------------------------------------------------------- appending

  function Numbered(i: Input, sequence: nat): Event {
    Event(sequence, i.kind, i.status, i.digest, i.metadata)
  }

  /** The batch an append writes and the record that goes with it. */
  function Built(run: Run, inputs: seq<Input>): (seq<Event>, Run) {
    if inputs == [] then ([], run)
    else
      var (events, r) := Built(run, inputs[..|inputs| - 1]);
      var i := inputs[|inputs| - 1];
      if i.whenStatus.Some? && r.status != i.whenStatus.value then (events, r)
      else (events + [Numbered(i, r.nextSequence)],
            Run(if i.nextStatus.Some? then i.nextStatus.value else r.status, r.nextSequence + 1))
  }

  /** The trace gets the whole batch in one write; a crash after it loses the record write. */
  function Written(s: Store, inputs: seq<Input>, dies: bool): Store {
    var (events, run) := Built(s.run, inputs);
    if events == [] then s else Store(s.trace + events, if dies then s.run else run)
  }

  function Appended(s: Store, inputs: seq<Input>, dies: bool): Result<Store, Error> {
    match Reconciled(s)
    case Failure(error) => Result.Failure(error)
    case Success(r) => if Terminal(r.run.status) then Result.Failure(NotWritable) else Result.Success(Written(r, inputs, dies))
  }

  // ---------------------------------------------------------------- what the terminal writers record

  function StartInputs(): seq<Input> {
    [Input(RunStarted, EventStatus.Success, None, NoMetadata, None, None)]
  }

  function IntentInput(digest: string, startedAt: int): Input {
    Input(VerificationRequired, Pending, Some(digest), CommandStarted(startedAt), Some(VerificationPending), None)
  }

  datatype Transition = Transition(kind: CommandKind, digest: string, startedAt: int, exitCode: int)

  predicate IsMatchingIntent(e: Event, t: Transition) {
    e.kind.VerificationRequired? && e.digest == Some(t.digest) && e.metadata == CommandStarted(t.startedAt)
  }

  predicate IntentIn(events: seq<Event>, t: Transition) {
    exists e | e in events :: IsMatchingIntent(e, t)
  }

  function TransitionInputs(t: Transition, recorded: bool, repository: Metadata): seq<Input> {
    var status := if t.exitCode == 0 then EventStatus.Success else EventStatus.Failure;
    var completed := Input(CommandCompleted, status, Some(t.digest), Command(t.kind, t.exitCode), None, None);
    if t.kind.Mutation? then
      [completed, Input(WorkspaceMutated, status, Some(t.digest), repository, None, None)]
      + (if recorded then [] else [IntentInput(t.digest, t.startedAt)])
    else if t.kind.Verification? && t.exitCode == 0 then
      [completed, Input(VerificationCompleted, EventStatus.Success, Some(t.digest), repository, Some(Active), Some(VerificationPending))]
    else [completed]
  }

  function CompletionInputs(): seq<Input> {
    [Input(RunCompleted, EventStatus.Success, None, NoMetadata, Some(Completed), None)]
  }

  // ---------------------------------------------------------------- completion

  predicate IsHexDigit(c: char) {
    '0' <= c <= '9' || 'a' <= c <= 'f'
  }

  predicate ValidHead(head: Option<string>) {
    head.Some? ==> |head.value| == 40 && forall k | 0 <= k < 40 :: IsHexDigit(head.value[k])
  }

  /** The last successful verification, after every mutation boundary. */
  predicate IsLatestVerification(events: seq<Event>, v: int) {
    && 0 <= v < |events| && IsVerified(events[v])
    && forall k | v < k < |events| :: !IsBoundary(events[k]) && !IsVerified(events[k])
  }

  /** No mutation, or the latest verification follows every mutation and records exactly this head and
      dirty flag. */
  ghost predicate FreshEvidence(events: seq<Event>, head: Option<string>, dirty: bool) {
    || (forall k | 0 <= k < |events| :: !IsBoundary(events[k]))
    || (exists v :: IsLatestVerification(events, v) && events[v].metadata == Repository(head, dirty))
  }

  /** The last index with the property, -1 if there is none. */
  function LastBoundary(events: seq<Event>): (k: int)
    ensures -1 <= k < |events| && (k >= 0 ==> IsBoundary(events[k]))
    ensures forall j | k < j < |events| :: !IsBoundary(events[j])
  {
    if events == [] then -1
    else if IsBoundary(events[|events| - 1]) then |events| - 1
    else LastBoundary(events[..|events| - 1])
  }

  function LastVerified(events: seq<Event>): (k: int)
    ensures -1 <= k < |events| && (k >= 0 ==> IsVerified(events[k]))
    ensures forall j | k < j < |events| :: !IsVerified(events[j])
  {
    if events == [] then -1
    else if IsVerified(events[|events| - 1]) then |events| - 1
    else LastVerified(events[..|events| - 1])
  }

  /** assertFreshCompletionEvidence: None when completion may go on. */
  function EvidenceError(events: seq<Event>, head: Option<string>, dirty: bool): Option<Error> {
    var b := LastBoundary(events);
    var v := LastVerified(events);
    if b < 0 then None
    else if v <= b then Some(NoVerification)
    else if !events[v].metadata.Repository? || !ValidHead(events[v].metadata.head) then Some(NoProvenance)
    else if events[v].metadata != Repository(head, dirty) then Some(RepositoryChanged)
    else None
  }

  /** The gate opens exactly on fresh evidence whose recorded head is well formed. */
  lemma EvidenceGate(events: seq<Event>, head: Option<string>, dirty: bool)
    ensures EvidenceError(events, head, dirty).None? ==> FreshEvidence(events, head, dirty)
    ensures FreshEvidence(events, head, dirty) && ValidHead(head) ==> EvidenceError(events, head, dirty).None?
  {
    var b := LastBoundary(events);
    var v := LastVerified(events);
    if v > b {
      assert IsLatestVerification(events, v);
    }
    if FreshEvidence(events, head, dirty) && b >= 0 {
      var w :| IsLatestVerification(events, w) && events[w].metadata == Repository(head, dirty);
      assert w == v;
    }
  }

  function CompletedBy(s: Store, head: Option<string>, dirty: bool, dies: bool): Result<Store, Error> {
    match Reconciled(s)
    case Failure(error) => Result.Failure(error)
    case Success(r) =>
      if r.run.status.VerificationPending? then Result.Failure(StillPending)
      else if !r.run.status.Active? then Result.Failure(NotActive)
      else
        match EvidenceError(r.trace, head, dirty)
        case Some(error) => Result.Failure(error)
        case None => Result.Success(Written(r, CompletionInputs(), dies))
  }

  // ---------------------------------------------------------------- runs

  /** One locked operation. `seen` is how much of the trace the writer had read when it looked for a
      matching intent; `dies` loses the record write. */
  datatype Op =
    | Start(dies: bool)
    | Read
    | Intend(digest: string, startedAt: int, dies: bool)
    | Finish(transition: Transition, seen: nat, repository: Metadata, dies: bool)
    | Complete(head: Option<string>, dirty: bool, dies: bool)

  function Attempt(s: Store, op: Op): Result<Store, Error> {
    match op
    case Start(dies) => if s.trace == [] then Appended(s, StartInputs(), dies) else Result.Failure(NotWritable)
    case Read => Reconciled(s)
    case Intend(digest, startedAt, dies) => Appended(s, [IntentInput(digest, startedAt)], dies)
    case Finish(t, seen, repository, dies) =>
      var recorded := IntentIn(s.trace[..if seen < |s.trace| then seen else |s.trace|], t);
      Appended(s, TransitionInputs(t, recorded, repository), dies)
    case Complete(head, dirty, dies) => CompletedBy(s, head, dirty, dies)
  }

  /** A refused operation changes nothing, except that the record stays reconciled. */
  function Exec(s: Store, op: Op): Store {
    match Attempt(s, op)
    case Success(t) => t
    case Failure(_) => if op.Start? || Reconciled(s).Failure? then s else Reconciled(s).value
  }

  function RunOf(ops: seq<Op>): Store {
    if ops == [] then CREATED else Exec(RunOf(ops[..|ops| - 1]), ops[|ops| - 1])
  }
}
