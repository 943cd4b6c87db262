/** What every run of the store keeps: completion only on fresh evidence, and a replay that never
    forgets a pending verification. */
module RunSafety {
  import opened Wrappers
  import opened RunTrace

  ghost predicate NotCompleted(events: seq<Event>) {
    forall k | 0 <= k < |events| :: !events[k].kind.RunCompleted?
  }

  /** The record can lag behind the trace, never lead it, and a current record agrees with the replay or
      is less cautious than a pending one. */
  ghost predicate Inv(s: Store) {
    && Sequenced(s.trace)
    && 1 <= s.run.nextSequence <= |s.trace| + 1
    && !s.run.status.Failed? && !s.run.status.Abandoned?
    && (|s.trace| > 0 ==> NotCompleted(s.trace[..|s.trace| - 1]))
    && Derived(s.run.status, s.trace) == Derived(Active, s.trace)
    && (s.run.nextSequence == |s.trace| + 1 ==> Agrees(s.run.status, s.trace))
    && (s.run.status.Completed? ==> s.run.nextSequence == |s.trace| + 1)
  }

  /** A record status against the trace it was written for. */
  ghost predicate Agrees(status: RunStatus, trace: seq<Event>) {
    || status == Derived(Active, trace)
    || (status.Active? && Derived(Active, trace) == VerificationPending)
  }

  lemma {:induction false} DerivedAppend(status: RunStatus, a: seq<Event>, b: seq<Event>)
    ensures Derived(status, a + b) == Derived(Derived(status, a), b)
    decreases |b|
  {
    if b == [] {
      assert a + b == a;
    } else {
      var k := |b| - 1;
      assert (a + b)[..|a + b| - 1] == a + b[..k];
      DerivedAppend(status, a, b[..k]);
    }
  }

  lemma {:induction false} DerivedKinds(status: RunStatus, events: seq<Event>)
    requires status == Active || status == VerificationPending || status == Completed
    ensures Derived(status, events) in {Active, VerificationPending, Completed}
    ensures Derived(status, events) == Completed && status != Completed ==> !NotCompleted(events)
    decreases |events|
  {
    if events != [] {
      var k := |events| - 1;
      DerivedKinds(status, events[..k]);
      assert NotCompleted(events) ==> NotCompleted(events[..k]) && !events[k].kind.RunCompleted?;
    }
  }

  /** Reconciling brings the record up to date once and for all. */
  lemma ReconcileIdempotent(s: Store)
    requires Reconciled(s).Success?
    ensures Reconciled(Reconciled(s).value) == Reconciled(s)
  {
  }

  lemma ReconcileKeepsInv(s: Store)
    requires Inv(s)
    ensures Reconciled(s).Success? && Inv(Reconciled(s).value)
    ensures var r := Reconciled(s).value; r.trace == s.trace && r.run.nextSequence == |s.trace| + 1
    ensures s.run.nextSequence < |s.trace| + 1 ==> Reconciled(s).value.run.status == Derived(Active, s.trace)
  {
    DerivedKinds(Active, s.trace);
    var r := Reconciled(s).value;
    if s.run.nextSequence < |s.trace| + 1 {
      DerivedTwice(s.run.status, s.trace);
    }
  }

  /** Replaying a trace over its own result changes nothing. */
  lemma {:induction false} DerivedTwice(status: RunStatus, events: seq<Event>)
    ensures Derived(Derived(status, events), events) == Derived(status, events)
    decreases |events|
  {
    if events != [] {
      var k := |events| - 1;
      var e := events[k];
      if DeriveOne(Active, e) == Active && DeriveOne(Completed, e) == Completed {
        DerivedTwice(status, events[..k]);
        assert Derived(status, events) == Derived(status, events[..k]);
      }
    }
  }

  // ---------------------------------------------------------------- one batch

  /** The discipline of the terminal writers: only boundaries ask for verification, only a verification of
      a pending run makes it active, and none of them completes it. */
  ghost predicate Disciplined(i: Input) {
    && !i.kind.RunCompleted?
    && if IsBoundary(Numbered(i, 0)) then i.nextStatus.None? || i.nextStatus == Some(VerificationPending)
       else if i.kind.VerificationCompleted? then i.nextStatus == Some(Active) && i.whenStatus == Some(VerificationPending)
       else i.nextStatus.None?
  }

  lemma {:induction false} BuiltAgrees(trace: seq<Event>, run: Run, inputs: seq<Input>)
    requires Sequenced(trace) && run.nextSequence == |trace| + 1 && Agrees(run.status, trace)
    requires run.status.Active? || run.status.VerificationPending?
    requires forall i | i in inputs :: Disciplined(i)
    ensures var (events, r) := Built(run, inputs);
            && Sequenced(trace + events) && r.nextSequence == |trace + events| + 1
            && Agrees(r.status, trace + events) && (r.status.Active? || r.status.VerificationPending?)
            && NotCompleted(events)
    decreases |inputs|
  {
    if inputs == [] {
      assert trace + [] == trace;
    } else {
      var k := |inputs| - 1;
      BuiltAgrees(trace, run, inputs[..k]);
      var (events, r) := Built(run, inputs[..k]);
      var e := Numbered(inputs[k], r.nextSequence);
      assert IsBoundary(e) == IsBoundary(Numbered(inputs[k], 0)) && Disciplined(inputs[k]);
      assert trace + (events + [e]) == (trace + events) + [e];
      DerivedLast(trace + events, e);
    }
  }

  lemma DerivedLast(trace: seq<Event>, e: Event)
    ensures Derived(Active, trace + [e]) == DeriveOne(Derived(Active, trace), e)
  {
    assert (trace + [e])[..|trace|] == trace;
  }

  lemma TransitionDisciplined(t: Transition, recorded: bool, repository: Metadata)
    ensures forall i | i in TransitionInputs(t, recorded, repository) :: Disciplined(i)
  {
  }

  lemma AnchoredStatus(status: RunStatus, trace: seq<Event>)
    requires Agrees(status, trace)
    ensures Derived(status, trace) == Derived(Active, trace)
  {
    DerivedTwice(Active, trace);
  }

  lemma NotCompletedYet(s: Store)
    requires Inv(s) && s.run.nextSequence == |s.trace| + 1 && !s.run.status.Completed?
    ensures NotCompleted(s.trace)
  {
    if s.trace != [] {
      var k := |s.trace| - 1;
      assert forall j | 0 <= j < k :: s.trace[..k][j] == s.trace[j];
      assert s.trace[k].kind.RunCompleted? ==> Derived(Active, s.trace) == Completed;
    }
  }

  lemma AppendKeepsInv(s: Store, inputs: seq<Input>, dies: bool)
    requires Inv(s) && !Terminal(Reconciled(s).value.run.status)
    requires forall i | i in inputs :: Disciplined(i)
    ensures var t := Written(Reconciled(s).value, inputs, dies);
            Inv(t) && NotCompleted(t.trace) && !t.run.status.Completed?
  {
    ReconcileKeepsInv(s);
    var r := Reconciled(s).value;
    NotCompletedYet(r);
    BuiltAgrees(r.trace, r.run, inputs);
    var (events, run) := Built(r.run, inputs);
    DerivedAppend(r.run.status, r.trace, events);
    DerivedAppend(Active, r.trace, events);
    AnchoredStatus(run.status, r.trace + events);
  }

  // ---------------------------------------------------------------- every operation

  lemma BuiltSingle(run: Run, i: Input)
    requires i.whenStatus.None?
    ensures Built(run, [i]) == ([Numbered(i, run.nextSequence)],
                                Run(if i.nextStatus.Some? then i.nextStatus.value else run.status, run.nextSequence + 1))
  {
    var none: seq<Event> := [];
    assert [i][..0] == [];
    assert Built(run, []) == (none, run);
    assert none + [Numbered(i, run.nextSequence)] == [Numbered(i, run.nextSequence)];
  }

  /** What a completion writes. */
  lemma CompletionWrites(s: Store, head: Option<string>, dirty: bool, dies: bool)
    requires Inv(s) && CompletedBy(s, head, dirty, dies).Success?
    ensures var r := Reconciled(s).value; var n := |s.trace|;
      CompletedBy(s, head, dirty, dies).value
      == Store(s.trace + [Numbered(CompletionInputs()[0], n + 1)], if dies then r.run else Run(Completed, n + 2))
    ensures Reconciled(s).value.run.status.Active? && FreshEvidence(s.trace, head, dirty)
  {
    hide Derived, Sequenced, FreshEvidence, EvidenceError, Built;
    ReconcileKeepsInv(s);
    EvidenceGate(s.trace, head, dirty);
    BuiltSingle(Reconciled(s).value.run, CompletionInputs()[0]);
  }

  lemma CompletedReplay(status: RunStatus, trace: seq<Event>, e: Event)
    requires e.kind.RunCompleted?
    ensures Derived(status, trace + [e]) == Completed
  {
    assert (trace + [e])[..|trace|] == trace;
  }

  lemma CompletionKeepsInv(s: Store, head: Option<string>, dirty: bool, dies: bool)
    requires Inv(s) && CompletedBy(s, head, dirty, dies).Success?
    ensures var t := CompletedBy(s, head, dirty, dies).value;
            && Inv(t) && NotCompleted(s.trace) && FreshEvidence(s.trace, head, dirty)
            && t.trace == s.trace + [Numbered(CompletionInputs()[0], |s.trace| + 1)]
            && Reconciled(t).value.run.status == Completed
  {
    CompletionWrites(s, head, dirty, dies);
    hide CompletedBy, FreshEvidence, Derived;
    ReconcileKeepsInv(s);
    var r := Reconciled(s).value;
    NotCompletedYet(r);
    var e := Numbered(CompletionInputs()[0], |s.trace| + 1);
    var t := s.trace + [e];
    assert t[..|t| - 1] == s.trace;
    CompletedReplay(r.run.status, s.trace, e);
    CompletedReplay(Active, s.trace, e);
    CompletedReplay(Completed, s.trace, e);
  }

  lemma ExecKeepsInv(s: Store, op: Op)
    requires Inv(s)
    ensures Inv(Exec(s, op))
  {
    ReconcileKeepsInv(s);
    if op.Complete? {
      if CompletedBy(s, op.head, op.dirty, op.dies).Success? {
        CompletionKeepsInv(s, op.head, op.dirty, op.dies);
      }
    } else if !op.Read? && !Terminal(Reconciled(s).value.run.status) {
      AppendKeepsInv(s, Inputs(s, op), op.dies);
    }
  }

  /** The batch an appending operation offers. */
  function Inputs(s: Store, op: Op): (inputs: seq<Input>)
    requires !op.Complete? && !op.Read?
    ensures forall i | i in inputs :: Disciplined(i)
  {
    match op
    case Start(_) => StartInputs()
    case Intend(digest, startedAt, _) => [IntentInput(digest, startedAt)]
    case Finish(t, seen, repository, _) =>
      TransitionInputs(t, IntentIn(s.trace[..if seen < |s.trace| then seen else |s.trace|], t), repository)
  }

  lemma {:induction false} RunKeepsInv(ops: seq<Op>)
    ensures Inv(RunOf(ops))
    decreases |ops|
  {
    if ops != [] {
      RunKeepsInv(ops[..|ops| - 1]);
      ExecKeepsInv(RunOf(ops[..|ops| - 1]), ops[|ops| - 1]);
    }
  }

  // ---------------------------------------------------------------- main results

  /** Trace numbering over every run and every crash: 1..n without gaps, the record at most one ahead. */
  lemma TraceIsNumbered(ops: seq<Op>)
    ensures Sequenced(RunOf(ops).trace) && 1 <= RunOf(ops).run.nextSequence <= |RunOf(ops).trace| + 1
    ensures Reconciled(RunOf(ops)).Success?
  {
    RunKeepsInv(ops);
    ReconcileKeepsInv(RunOf(ops));
  }

  /** Once the completion is in the trace, no operation adds to it. */
  lemma CompletedStays(s: Store, op: Op)
    requires Inv(s) && !NotCompleted(s.trace)
    ensures Exec(s, op).trace == s.trace && Reconciled(s).value.run.status.Completed?
    ensures Reconciled(Exec(s, op)).Success? && Reconciled(Exec(s, op)).value.run.status.Completed?
  {
    ReconcileKeepsInv(s);
    if !Reconciled(s).value.run.status.Completed? {
      NotCompletedYet(Reconciled(s).value);
    }
  }

  lemma OnlyCompletionCompletes(s: Store, op: Op)
    requires Inv(s) && NotCompleted(s.trace)
    requires Exec(s, op).run.status.Completed? || !NotCompleted(Exec(s, op).trace)
    ensures op.Complete? && CompletedBy(s, op.head, op.dirty, op.dies).Success?
  {
    ReconcileKeepsInv(s);
    DerivedKinds(Active, s.trace);
    if !op.Complete? && !op.Read? && !Terminal(Reconciled(s).value.run.status) {
      AppendKeepsInv(s, Inputs(s, op), op.dies);
    }
  }

  /** A trace that ends in its one completion, taken on fresh evidence for this head and dirty flag. */
  ghost predicate SealedBy(trace: seq<Event>, head: Option<string>, dirty: bool) {
    var n := |trace| - 1;
    && n >= 0 && trace[n] == Numbered(CompletionInputs()[0], n + 1)
    && NotCompleted(trace[..n]) && FreshEvidence(trace[..n], head, dirty)
  }

  lemma CompletionSeals(s: Store, op: Op)
    requires Inv(s) && op.Complete? && CompletedBy(s, op.head, op.dirty, op.dies).Success?
    ensures SealedBy(Exec(s, op).trace, op.head, op.dirty)
    ensures Reconciled(Exec(s, op)).Success? && Reconciled(Exec(s, op)).value.run.status.Completed?
  {
    hide CompletedBy, FreshEvidence, Derived, NotCompleted;
    CompletionKeepsInv(s, op.head, op.dirty, op.dies);
    ReconcileKeepsInv(Exec(s, op));
    var t := Exec(s, op).trace;
    assert t[..|t| - 1] == s.trace;
  }

  /** A run is completed, in its record or in its trace, only by a completion that found fresh evidence;
      its event is the last one, for good. */
  lemma {:induction false} CompletedRunIsVerified(ops: seq<Op>) returns (k: nat)
    requires var s := RunOf(ops); s.run.status.Completed? || !NotCompleted(s.trace)
    ensures k < |ops| && ops[k].Complete? && SealedBy(RunOf(ops).trace, ops[k].head, ops[k].dirty)
    ensures Reconciled(RunOf(ops)).Success? && Reconciled(RunOf(ops)).value.run.status.Completed?
    decreases |ops|
  {
    var n := |ops| - 1;
    var before := RunOf(ops[..n]);
    RunKeepsInv(ops[..n]);
    if !NotCompleted(before.trace) {
      k := CompletedRunIsVerified(ops[..n]);
      CompletedStays(before, ops[n]);
    } else {
      OnlyCompletionCompletes(before, ops[n]);
      CompletionSeals(before, ops[n]);
      k := n;
    }
  }

  /** What a replay makes of `lost` against the record `kept`: the same trace and sequence, and the same
      status or, where the record says active, the pending one. */
  ghost predicate ReplayCovers(kept: Store, lost: Store) {
    && Reconciled(kept).Success? && Reconciled(lost).Success?
    && lost.trace == kept.trace
    && var k, l := Reconciled(kept).value.run, Reconciled(lost).value.run;
       l == k || (k.status.Active? && l == k.(status := VerificationPending))
  }

  lemma CurrentAgrees(s: Store)
    requires Inv(s)
    ensures Reconciled(s).Success? && Agrees(Reconciled(s).value.run.status, s.trace)
    ensures s.run.nextSequence < |s.trace| + 1 ==> Reconciled(s).value.run.status == Derived(Active, s.trace)
    ensures Reconciled(s).value.run.nextSequence == |s.trace| + 1 && Reconciled(s).value.trace == s.trace
  {
    ReconcileKeepsInv(s);
  }

  lemma SameTraceCovered(kept: Store, lost: Store)
    requires Inv(kept) && Inv(lost) && kept.trace == lost.trace
    requires lost == kept || lost.run.nextSequence < |lost.trace| + 1
    ensures ReplayCovers(kept, lost)
  {
    CurrentAgrees(kept);
    CurrentAgrees(lost);
  }

  lemma WrittenTwice(s: Store, inputs: seq<Input>)
    requires s.run.nextSequence == |s.trace| + 1
    ensures var kept, lost := Written(s, inputs, false), Written(s, inputs, true);
            kept.trace == lost.trace && (lost == kept || lost.run.nextSequence < |lost.trace| + 1)
  {
  }

  /** The trace a crash leaves is the trace without the crash, and its record is the same or behind. */
  lemma CrashKeepsTrace(s: Store, op: Op)
    requires Inv(s) && !op.Read?
    ensures var kept, lost := Exec(s, WithCrash(op, false)), Exec(s, WithCrash(op, true));
            kept.trace == lost.trace && (lost == kept || lost.run.nextSequence < |lost.trace| + 1)
  {
    ReconcileKeepsInv(s);
    var r := Reconciled(s).value;
    WrittenTwice(r, if op.Complete? then CompletionInputs() else Inputs(s, op));
  }

  /** A crash that loses a record write loses no caution: the replay gives the same trace and sequence,
      and the status the record would have had or the pending one. */
  lemma LostWriteIsReplayed(ops: seq<Op>, op: Op)
    requires !op.Read?
    ensures ReplayCovers(Exec(RunOf(ops), WithCrash(op, false)), Exec(RunOf(ops), WithCrash(op, true)))
  {
    var s := RunOf(ops);
    RunKeepsInv(ops);
    ExecKeepsInv(s, WithCrash(op, false));
    ExecKeepsInv(s, WithCrash(op, true));
    CrashKeepsTrace(s, op);
    SameTraceCovered(Exec(s, WithCrash(op, false)), Exec(s, WithCrash(op, true)));
  }

  function WithCrash(op: Op, dies: bool): Op
    requires !op.Read?
  {
    match op
    case Start(_) => Start(dies)
    case Intend(digest, startedAt, _) => Intend(digest, startedAt, dies)
    case Finish(t, seen, repository, _) => Finish(t, seen, repository, dies)
    case Complete(head, dirty, _) => Complete(head, dirty, dies)
  }

  // ---------------------------------------------------------------- which runs a session can still complete

  /** An operation of a session that neither mutates nor crashes, and completes only for this head and dirty flag. */
  predicate Harmless(op: Op, head: Option<string>, dirty: bool) {
    match op
    case Start(_) => true
    case Read => true
    case Intend(_, _, _) => false
    case Finish(t, _, _, dies) => !t.kind.Mutation? && !dies
    case Complete(h, d, dies) => h == head && d == dirty && !dies
  }

  /** The record, once reconciled, is active, but the evidence is refused for this head and dirty flag. */
  ghost predicate Stuck(s: Store, head: Option<string>, dirty: bool) {
    && Inv(s) && Reconciled(s).Success? && Reconciled(s).value.run.status.Active?
    && EvidenceError(s.trace, head, dirty).Some?
  }

  function ExecAll(s: Store, ops: seq<Op>): Store {
    if ops == [] then s else Exec(ExecAll(s, ops[..|ops| - 1]), ops[|ops| - 1])
  }

  /** A session of harmless operations that ends with the run completed. */
  ghost predicate CompletesBy(s: Store, ops: seq<Op>, head: Option<string>, dirty: bool) {
    (forall op | op in ops :: Harmless(op, head, dirty)) && ExecAll(s, ops).run.status.Completed?
  }

  /** Two inputs in one batch, the second perhaps conditional. */
  lemma BuiltPair(run: Run, i: Input, j: Input)
    requires i.whenStatus.None?
    ensures var r := Run(if i.nextStatus.Some? then i.nextStatus.value else run.status, run.nextSequence + 1);
            Built(run, [i, j]) ==
            if j.whenStatus.Some? && r.status != j.whenStatus.value then ([Numbered(i, run.nextSequence)], r)
            else ([Numbered(i, run.nextSequence), Numbered(j, r.nextSequence)],
                  Run(if j.nextStatus.Some? then j.nextStatus.value else r.status, r.nextSequence + 1))
  {
    BuiltSingle(run, i);
    assert [i, j][..1] == [i];
    var r := Built(run, [i]).1;
    assert [Numbered(i, run.nextSequence)] + [Numbered(j, r.nextSequence)]
        == [Numbered(i, run.nextSequence), Numbered(j, r.nextSequence)];
  }

  /** The end of a command that is no mutation is one event, and a second one for a verification that succeeded in a
      pending run. */
  lemma EndedCommand(r: Store, t: Transition, seen: nat, repository: Metadata)
    requires r.run.nextSequence == |r.trace| + 1 && Sequenced(r.trace) && !Terminal(r.run.status) && !t.kind.Mutation?
    ensures var i := TransitionInputs(t, false, repository);
      var n := |r.trace| + 1;
      Exec(r, Finish(t, seen, repository, false)) ==
        if t.kind.Verification? && t.exitCode == 0 && r.run.status.VerificationPending? then
          Store(r.trace + [Numbered(i[0], n), Numbered(i[1], n + 1)], Run(Active, n + 2))
        else Store(r.trace + [Numbered(i[0], n)], Run(r.run.status, n + 1))
  {
    var i := TransitionInputs(t, false, repository);
    if |i| == 1 {
      assert i == [i[0]];
      BuiltSingle(r.run, i[0]);
    } else {
      assert i == [i[0], i[1]];
      BuiltPair(r.run, i[0], i[1]);
    }
  }

  lemma SameEvidence(trace: seq<Event>, e: Event, head: Option<string>, dirty: bool)
    requires !IsBoundary(e) && !IsVerified(e)
    ensures EvidenceError(trace + [e], head, dirty) == EvidenceError(trace, head, dirty)
  {
    assert (trace + [e])[..|trace|] == trace;
  }

  /** A store and its reconciled form run alike. */
  lemma RunsReconciled(s: Store, op: Op)
    requires Inv(s) && !op.Start?
    ensures Exec(s, op) == Exec(Reconciled(s).value, op)
    ensures op.Complete? ==> Attempt(s, op) == Attempt(Reconciled(s).value, op)
  {
    ReconcileKeepsInv(s);
    ReconcileIdempotent(s);
  }

  /** A stuck run stays stuck: later verifications are not recorded, because the record is not pending, and completion
      is refused for the same reason. */
  lemma StuckStays(s: Store, op: Op, head: Option<string>, dirty: bool)
    requires Stuck(s, head, dirty) && Harmless(op, head, dirty)
    ensures Stuck(Exec(s, op), head, dirty)
    ensures op.Complete? ==> Attempt(s, op) == Result.Failure(EvidenceError(s.trace, head, dirty).value)
  {
    hide EvidenceError, Derived;
    ReconcileKeepsInv(s);
    ExecKeepsInv(s, op);
    var r := Reconciled(s).value;
    if op.Start? {
      NoEvidenceNeeded(head, dirty);
    } else {
      RunsReconciled(s, op);
      ReconcileIdempotent(s);
      if op.Finish? {
        EndedCommand(r, op.transition, op.seen, op.repository);
        var e := Numbered(TransitionInputs(op.transition, false, op.repository)[0], |s.trace| + 1);
        SameEvidence(s.trace, e, head, dirty);
      }
    }
  }

  lemma NoEvidenceNeeded(head: Option<string>, dirty: bool)
    ensures EvidenceError([], head, dirty).None?
  {
  }

  lemma {:induction false} StuckForGood(s: Store, ops: seq<Op>, head: Option<string>, dirty: bool)
    requires Stuck(s, head, dirty) && forall op | op in ops :: Harmless(op, head, dirty)
    ensures Stuck(ExecAll(s, ops), head, dirty)
    decreases |ops|
  {
    hide Stuck, Exec;
    if ops != [] {
      StuckForGood(s, ops[..|ops| - 1], head, dirty);
      StuckStays(ExecAll(s, ops[..|ops| - 1]), ops[|ops| - 1], head, dirty);
    }
  }

  lemma StuckIsNotCompleted(s: Store, head: Option<string>, dirty: bool)
    requires Stuck(s, head, dirty)
    ensures !s.run.status.Completed?
  {
  }

  lemma CompletionSucceeds(s: Store, head: Option<string>, dirty: bool)
    requires Inv(s) && Reconciled(s).value.run.status.Active? && EvidenceError(s.trace, head, dirty).None?
    ensures Exec(s, Complete(head, dirty, false)).run.status.Completed?
  {
    hide EvidenceError, Derived;
    ReconcileKeepsInv(s);
    BuiltSingle(Reconciled(s).value.run, CompletionInputs()[0]);
  }

  lemma ExecPair(s: Store, a: Op, b: Op)
    ensures ExecAll(s, [a]) == Exec(s, a) && ExecAll(s, [a, b]) == Exec(Exec(s, a), b)
  {
    hide Exec;
    assert [a][..0] == [] && [a, b][..1] == [a];
    assert ExecAll(s, []) == s;
  }

  /** Verifying a pending run for a head and dirty flag, then completing for them, completes it. */
  lemma PendingVerified(s: Store, t: Transition, head: Option<string>, dirty: bool)
    requires Inv(s) && ValidHead(head) && t.kind.Verification? && t.exitCode == 0
    requires Reconciled(s).value.run.status.VerificationPending?
    ensures Exec(Exec(s, Finish(t, 0, Repository(head, dirty), false)), Complete(head, dirty, false)).run.status.Completed?
  {
    hide EvidenceError, Derived;
    var op := Finish(t, 0, Repository(head, dirty), false);
    ReconcileKeepsInv(s);
    ExecKeepsInv(s, op);
    RunsReconciled(s, op);
    EndedCommand(Reconciled(s).value, t, 0, Repository(head, dirty));
    var u := Exec(s, op);
    assert IsLatestVerification(u.trace, |u.trace| - 1);
    EvidenceGate(u.trace, head, dirty);
    CompletionSucceeds(u, head, dirty);
  }

  /** With fresh evidence on an active run, verifying once more does no harm. */
  lemma FreshVerified(s: Store, t: Transition, head: Option<string>, dirty: bool)
    requires Inv(s) && !t.kind.Mutation?
    requires Reconciled(s).value.run.status.Active? && EvidenceError(s.trace, head, dirty).None?
    ensures Exec(Exec(s, Finish(t, 0, Repository(head, dirty), false)), Complete(head, dirty, false)).run.status.Completed?
  {
    hide EvidenceError, Derived;
    var op := Finish(t, 0, Repository(head, dirty), false);
    ReconcileKeepsInv(s);
    ExecKeepsInv(s, op);
    RunsReconciled(s, op);
    EndedCommand(Reconciled(s).value, t, 0, Repository(head, dirty));
    SameEvidence(s.trace, Numbered(TransitionInputs(t, false, Repository(head, dirty))[0], |s.trace| + 1), head, dirty);
    CompletionSucceeds(Exec(s, op), head, dirty);
  }

  /** Exactly when a run can still be completed for a head and dirty flag without another mutation or a crash: when its
      status is verification-pending, or no boundary is in its trace, or the latest verification follows every boundary
      and records exactly this head and dirty flag. And then verifying once and completing does it. */
  lemma CompletableIff(s: Store, t: Transition, head: Option<string>, dirty: bool)
    requires Inv(s) && ValidHead(head) && !Reconciled(s).value.run.status.Completed?
    requires t.kind.Verification? && t.exitCode == 0
    ensures (exists ops :: CompletesBy(s, ops, head, dirty))
       <==> Reconciled(s).value.run.status.VerificationPending? || FreshEvidence(s.trace, head, dirty)
    ensures (exists ops :: CompletesBy(s, ops, head, dirty))
       <==> CompletesBy(s, [Finish(t, 0, Repository(head, dirty), false), Complete(head, dirty, false)], head, dirty)
  {
    hide EvidenceError, Derived, FreshEvidence, Exec;
    ReconcileKeepsInv(s);
    EvidenceGate(s.trace, head, dirty);
    var verify, complete := Finish(t, 0, Repository(head, dirty), false), Complete(head, dirty, false);
    ExecPair(s, verify, complete);
    var status := Reconciled(s).value.run.status;
    if status.VerificationPending? {
      PendingVerified(s, t, head, dirty);
      assert CompletesBy(s, [verify, complete], head, dirty);
    } else if FreshEvidence(s.trace, head, dirty) {
      FreshVerified(s, t, head, dirty);
      assert CompletesBy(s, [verify, complete], head, dirty);
    } else {
      forall ops
        ensures !CompletesBy(s, ops, head, dirty)
      {
        if CompletesBy(s, ops, head, dirty) {
          StuckForGood(s, ops, head, dirty);
          StuckIsNotCompleted(ExecAll(s, ops), head, dirty);
        }
      }
    }
  }

  // ---------------------------------------------------------------- sessions that end stuck

  lemma RunOfNext(ops: seq<Op>, op: Op)
    ensures RunOf(ops + [op]) == Exec(RunOf(ops), op)
  {
    hide Exec;
    assert (ops + [op])[..|ops|] == ops;
  }

  /** A current store that can be written. */
  ghost predicate Current(s: Store) {
    && Sequenced(s.trace) && s.run.nextSequence == |s.trace| + 1
    && (s.run.status.Active? || s.run.status.VerificationPending?)
  }

  lemma IntendRecorded(s: Store, t: Transition)
    requires Current(s)
    ensures var u := Exec(s, Intend(t.digest, t.startedAt, false));
            && Current(u) && u.run.status == VerificationPending && |u.trace| == |s.trace| + 1 && s.trace <= u.trace
            && IsMatchingIntent(u.trace[|s.trace|], t)
  {
    BuiltSingle(s.run, IntentInput(t.digest, t.startedAt));
  }

  lemma BuiltMore(run: Run, inputs: seq<Input>, i: Input)
    requires i.whenStatus.None?
    ensures var (events, r) := Built(run, inputs);
            Built(run, inputs + [i]) == (events + [Numbered(i, r.nextSequence)],
                                         Run(if i.nextStatus.Some? then i.nextStatus.value else r.status, r.nextSequence + 1))
  {
    assert (inputs + [i])[..|inputs|] == inputs;
  }

  /** The record of a command: what ran, and whether it succeeded. */
  ghost predicate Reports(e: Event, t: Transition) {
    && e.kind.CommandCompleted? && e.digest == Some(t.digest) && e.metadata == Command(t.kind, t.exitCode)
    && e.status == if t.exitCode == 0 then EventStatus.Success else EventStatus.Failure
  }

  /** The part of the trace that a writer has read. */
  function SeenTrace(s: Store, seen: nat): seq<Event> {
    s.trace[..if seen < |s.trace| then seen else |s.trace|]
  }

  /** The end of a mutation adds its report, the mutation as a boundary, and where its intent was not read the demand
      for a verification; only then it changes the status, to pending. */
  lemma EndedMutation(s: Store, t: Transition, seen: nat, repository: Metadata)
    requires Current(s) && t.kind.Mutation?
    ensures var u := Exec(s, Finish(t, seen, repository, false));
      var n := |s.trace|;
      var recorded := IntentIn(SeenTrace(s, seen), t);
      && Current(u) && s.trace <= u.trace && |u.trace| == n + (if recorded then 2 else 3)
      && Reports(u.trace[n], t) && u.trace[n + 1].kind.WorkspaceMutated? && u.trace[n + 1].metadata == repository
      && IsBoundary(u.trace[|u.trace| - 1])
      && (!recorded ==> IsMatchingIntent(u.trace[n + 2], t))
      && u.run.status == if recorded then s.run.status else VerificationPending
  {
    var recorded := IntentIn(SeenTrace(s, seen), t);
    var inputs := TransitionInputs(t, recorded, repository);
    var two := TransitionInputs(t, true, repository);
    assert two == [two[0], two[1]];
    BuiltPair(s.run, two[0], two[1]);
    if !recorded {
      assert inputs == two + [IntentInput(t.digest, t.startedAt)];
      BuiltMore(s.run, two, IntentInput(t.digest, t.startedAt));
    }
  }

  /** The end of a mutation whose intent has been read leaves the status as it is and adds a boundary at the end. */
  lemma MutationEnds(s: Store, t: Transition, k: nat, seen: nat, repository: Metadata)
    requires Current(s) && t.kind.Mutation? && k < |s.trace| && k < seen && IsMatchingIntent(s.trace[k], t)
    ensures var u := Exec(s, Finish(t, seen, repository, false));
            && Current(u) && u.run.status == s.run.status && s.trace <= u.trace && u.trace != []
            && IsBoundary(u.trace[|u.trace| - 1])
  {
    assert SeenTrace(s, seen)[k] in SeenTrace(s, seen);
    EndedMutation(s, t, seen, repository);
  }

  lemma StartedRun()
    ensures var s := RunOf([Start(false)]); Current(s) && s.run.status.Active? && |s.trace| == 1
  {
    RunOfNext([], Start(false));
    assert [] + [Start(false)] == [Start(false)];
    BuiltSingle(CREATED.run, StartInputs()[0]);
  }

  /** Start, intent of a mutation, end of a verification, end of the mutation: stuck for every head and dirty flag,
      since no verification follows the last boundary. */
  lemma InterleavedVerificationSticks(mutation: Transition, verification: Transition, seen: nat, repository: Metadata,
                                      after: Metadata, head: Option<string>, dirty: bool)
    requires mutation.kind.Mutation? && verification.kind.Verification? && verification.exitCode == 0 && seen > 1
    ensures var s := RunOf([Start(false), Intend(mutation.digest, mutation.startedAt, false),
                            Finish(verification, 0, repository, false), Finish(mutation, seen, after, false)]);
            Stuck(s, head, dirty) && EvidenceError(s.trace, head, dirty) == Some(NoVerification)
  {
    hide Exec, RunOf, EvidenceError;
    var ops := [Start(false)];
    StartedRun();
    var intend := Intend(mutation.digest, mutation.startedAt, false);
    RunOfNext(ops, intend);
    IntendRecorded(RunOf(ops), mutation);
    var s2 := RunOf(ops + [intend]);
    var verify := Finish(verification, 0, repository, false);
    RunOfNext(ops + [intend], verify);
    EndedCommand(s2, verification, 0, repository);
    var s3 := RunOf(ops + [intend] + [verify]);
    var end := Finish(mutation, seen, after, false);
    RunOfNext(ops + [intend] + [verify], end);
    MutationEnds(s3, mutation, 1, seen, after);
    var all := ops + [intend] + [verify] + [end];
    assert all == [Start(false), intend, verify, end];
    RunKeepsInv(all);
    BoundaryLast(RunOf(all).trace, head, dirty);
  }

  lemma BoundaryLast(trace: seq<Event>, head: Option<string>, dirty: bool)
    requires trace != [] && IsBoundary(trace[|trace| - 1])
    ensures EvidenceError(trace, head, dirty) == Some(NoVerification)
  {
  }

  /** Start, intent and end of a mutation, end of a verification: stuck exactly for the heads and dirty flags that the
      verification did not record, so for all of them when its inspection of the repository failed. */
  lemma VerifiedRunSticksIff(mutation: Transition, verification: Transition, seen: nat, after: Metadata,
                             recorded: Metadata, head: Option<string>, dirty: bool)
    requires mutation.kind.Mutation? && verification.kind.Verification? && verification.exitCode == 0 && seen > 1
    requires ValidHead(head)
    ensures var s := RunOf([Start(false), Intend(mutation.digest, mutation.startedAt, false),
                            Finish(mutation, seen, after, false), Finish(verification, 0, recorded, false)]);
            Stuck(s, head, dirty) <==> recorded != Repository(head, dirty)
  {
    hide Exec, RunOf, EvidenceError;
    var ops := [Start(false)];
    StartedRun();
    var intend := Intend(mutation.digest, mutation.startedAt, false);
    RunOfNext(ops, intend);
    IntendRecorded(RunOf(ops), mutation);
    var s2 := RunOf(ops + [intend]);
    var end := Finish(mutation, seen, after, false);
    RunOfNext(ops + [intend], end);
    MutationEnds(s2, mutation, 1, seen, after);
    var s3 := RunOf(ops + [intend] + [end]);
    var verify := Finish(verification, 0, recorded, false);
    RunOfNext(ops + [intend] + [end], verify);
    EndedCommand(s3, verification, 0, recorded);
    var all := ops + [intend] + [end] + [verify];
    assert all == [Start(false), intend, end, verify];
    RunKeepsInv(all);
    VerificationLast(s3.trace, RunOf(all).trace, recorded, head, dirty);
  }

  lemma VerificationLast(before: seq<Event>, trace: seq<Event>, recorded: Metadata, head: Option<string>, dirty: bool)
    requires before != [] && IsBoundary(before[|before| - 1]) && ValidHead(head)
    requires |trace| == |before| + 2 && before <= trace
    requires IsVerified(trace[|before| + 1]) && trace[|before| + 1].metadata == recorded
    ensures EvidenceError(trace, head, dirty).None? <==> recorded == Repository(head, dirty)
  {
    var v := |before| + 1;
    assert IsBoundary(trace[|before| - 1]);
    assert LastVerified(trace) == v;
    assert FreshEvidence(trace, head, dirty) <==> recorded == Repository(head, dirty) by {
      if recorded == Repository(head, dirty) {
        assert IsLatestVerification(trace, v);
      }
    }
    EvidenceGate(trace, head, dirty);
  }

  // ---------------------------------------------------------------- what the end of a command leaves

  /** Not completed yet. */
  ghost predicate Open(s: Store) {
    Reconciled(s).Success? && !Reconciled(s).value.run.status.Completed?
  }

  lemma CurrentOnceReconciled(s: Store)
    requires Inv(s) && Open(s)
    ensures Reconciled(s).Success? && Current(Reconciled(s).value) && Reconciled(s).value.trace == s.trace
    ensures Inv(Reconciled(s).value)
  {
    ReconcileKeepsInv(s);
    DerivedKinds(Active, s.trace);
  }

  /** The trace after the end of a command: its report, a boundary exactly after a mutation, and a verification exactly
      when one succeeded in a pending run, with what was found of the repository. */
  ghost predicate Continues(before: seq<Event>, after: seq<Event>, t: Transition, pending: bool, repository: Metadata) {
    var n := |before|;
    && before < after && Reports(after[n], t)
    && (t.kind.Mutation? <==> IsBoundary(after[|after| - 1]))
    && (forall k | n < k < |after| && IsVerified(after[k]) :: after[k].metadata == repository)
    && (t.kind.Verification? && t.exitCode == 0 && pending <==> IsVerified(after[|after| - 1]))
  }

  lemma CurrentContinues(s: Store, t: Transition, seen: nat, repository: Metadata)
    requires Current(s)
    ensures Continues(s.trace, Exec(s, Finish(t, seen, repository, false)).trace, t, s.run.status.VerificationPending?, repository)
  {
    hide Exec;
    if t.kind.Mutation? {
      EndedMutation(s, t, seen, repository);
    } else {
      EndedCommand(s, t, seen, repository);
    }
  }

  /** After every run: the end of a command on a live run is reported in the trace, even if the record write is lost. */
  lemma CommandIsReported(ops: seq<Op>, t: Transition, seen: nat, repository: Metadata, dies: bool)
    requires Open(RunOf(ops))
    ensures var s := RunOf(ops);
      Continues(s.trace, Exec(s, Finish(t, seen, repository, dies)).trace, t,
                Reconciled(s).value.run.status.VerificationPending?, repository)
  {
    hide Continues, Exec, Derived;
    var s := RunOf(ops);
    RunKeepsInv(ops);
    CurrentOnceReconciled(s);
    RunsReconciled(s, Finish(t, seen, repository, false));
    CurrentContinues(Reconciled(s).value, t, seen, repository);
    CrashKeepsTrace(s, Finish(t, seen, repository, dies));
  }

  /** After every run: a mutation that ends on a live run without its intent having been read makes the run pending,
      and verifying once and completing then completes it. */
  lemma UnrecordedMutationDemands(ops: seq<Op>, m: Transition, seen: nat, after: Metadata, t: Transition,
                                  head: Option<string>, dirty: bool)
    requires Open(RunOf(ops))
    requires m.kind.Mutation? && forall k | 0 <= k < seen && k < |RunOf(ops).trace| ::
      !(RunOf(ops).trace[k].kind.VerificationRequired? && RunOf(ops).trace[k].digest == Some(m.digest)
        && RunOf(ops).trace[k].metadata == CommandStarted(m.startedAt))
    requires t.kind.Verification? && t.exitCode == 0 && ValidHead(head)
    ensures var u := Exec(RunOf(ops), Finish(m, seen, after, false));
      && u.run.status == VerificationPending
      && CompletesBy(u, [Finish(t, 0, Repository(head, dirty), false), Complete(head, dirty, false)], head, dirty)
  {
    hide Exec, Derived, IntentIn, CompletesBy;
    var s := RunOf(ops);
    RunKeepsInv(ops);
    CurrentOnceReconciled(s);
    var op := Finish(m, seen, after, false);
    NoIntentSeen(s, seen, m);
    RunsReconciled(s, op);
    EndedMutation(Reconciled(s).value, m, seen, after);
    ExecKeepsInv(s, op);
    ReconcileIdempotent(s);
    PendingCompletes(Exec(s, op), t, head, dirty);
  }

  lemma NoIntentSeen(s: Store, seen: nat, m: Transition)
    requires forall k | 0 <= k < seen && k < |s.trace| ::
      !(s.trace[k].kind.VerificationRequired? && s.trace[k].digest == Some(m.digest)
        && s.trace[k].metadata == CommandStarted(m.startedAt))
    ensures !IntentIn(SeenTrace(s, seen), m)
  {
    forall e | e in SeenTrace(s, seen)
      ensures !IsMatchingIntent(e, m)
    {
      var k :| 0 <= k < |SeenTrace(s, seen)| && SeenTrace(s, seen)[k] == e;
      assert s.trace[k] == e;
    }
  }

  lemma PendingCompletes(u: Store, t: Transition, head: Option<string>, dirty: bool)
    requires Inv(u) && Current(u) && u.run.status.VerificationPending? && ValidHead(head)
    requires t.kind.Verification? && t.exitCode == 0
    ensures CompletesBy(u, [Finish(t, 0, Repository(head, dirty), false), Complete(head, dirty, false)], head, dirty)
  {
    hide Exec, Derived;
    CompletableIff(u, t, head, dirty);
  }

  /** After every run: intent, end of the mutation, verification, completion, in this order, complete a live run,
      whatever was read of the trace. */
  lemma OrderedSessionCompletes(ops: seq<Op>, m: Transition, seen: nat, after: Metadata, t: Transition,
                                head: Option<string>, dirty: bool)
    requires Open(RunOf(ops))
    requires m.kind.Mutation? && t.kind.Verification? && t.exitCode == 0 && ValidHead(head)
    ensures var u := Exec(Exec(RunOf(ops), Intend(m.digest, m.startedAt, false)), Finish(m, seen, after, false));
      && u.run.status == VerificationPending
      && CompletesBy(u, [Finish(t, 0, Repository(head, dirty), false), Complete(head, dirty, false)], head, dirty)
  {
    hide Exec, Derived, IntentIn, CompletesBy;
    var s := RunOf(ops);
    RunKeepsInv(ops);
    CurrentOnceReconciled(s);
    var intend, end := Intend(m.digest, m.startedAt, false), Finish(m, seen, after, false);
    RunsReconciled(s, intend);
    IntendRecorded(Reconciled(s).value, m);
    ExecKeepsInv(s, intend);
    EndedMutation(Exec(s, intend), m, seen, after);
    ExecKeepsInv(Exec(s, intend), end);
    PendingCompletes(Exec(Exec(s, intend), end), t, head, dirty);
  }

  /** Each sign of a mutation in the trace, its demand, its record or the report of its success, makes a replay pending
      and refuses the evidence before it. */
  lemma MutationSignRefuses(status: RunStatus, trace: seq<Event>, e: Event, t: Transition, head: Option<string>, dirty: bool)
    requires e.kind.WorkspaceMutated? || e.kind.VerificationRequired? || (Reports(e, t) && t.kind.Mutation? && t.exitCode == 0)
    ensures Derived(status, trace + [e]) == VerificationPending
    ensures EvidenceError(trace + [e], head, dirty) == Some(NoVerification)
  {
    assert (trace + [e])[..|trace|] == trace;
    BoundaryLast(trace + [e], head, dirty);
  }
}
