/** The run store as the program has it: an object whose trace and record its methods rewrite. Each
    method is one locked operation and is proved against the values of RunTrace, so that what RunSafety
    proves of those holds of any sequence of calls. */
module RunStore {
  import opened Wrappers
  import opened RunTrace

  class RunFiles {
    var trace: seq<Event>
    var run: Run

    constructor ()
      ensures Value() == CREATED
    {
      trace, run := [], Run(Active, 1);
    }

    function Value(): Store
      reads this
    {
      Store(trace, run)
    }

    /** deriveRunState: one pass over the events. */
    method Derive() returns (status: RunStatus)
      ensures status == Derived(run.status, trace)
    {
      status := run.status;
      assert trace[..0] == [];
      for index := 0 to |trace|
        invariant status == Derived(run.status, trace[..index])
      {
        var e := trace[index];
        assert trace[..index + 1][..index] == trace[..index];
        if IsBoundary(e) {
          status := VerificationPending;
        } else if e.kind.VerificationCompleted? {
          status := Active;
        } else if e.kind.RunCompleted? {
          status := Completed;
        }
      }
      assert trace[..|trace|] == trace;
    }

    method CheckSequences() returns (ok: bool)
      ensures ok == Sequenced(trace)
    {
      for index := 0 to |trace|
        invariant forall k | 0 <= k < index :: trace[k].sequence == k + 1
      {
        if trace[index].sequence != index + 1 { return false; }
      }
      return true;
    }

    /** reconcileRunState. */
    method Reconcile() returns (error: Option<Error>)
      modifies this`run
      ensures match old(Reconciled(Value()))
              case Success(s) => error.None? && Value() == s
              case Failure(e) => error == Some(e) && run == old(run)
    {
      var ok := CheckSequences();
      if !ok { return Some(SequenceGap); }
      if run.nextSequence > |trace| + 1 { return Some(AheadOfTrace); }
      if run.nextSequence < |trace| + 1 {
        var status := Derive();
        run := Run(status, |trace| + 1);
      }
      return None;
    }

    /** appendEventsLocked: the batch goes to the trace in one write; then the record follows, unless the
        process dies first. */
    method AppendLocked(inputs: seq<Input>, dies: bool)
      modifies this
      ensures Value() == old(Written(Value(), inputs, dies))
    {
      var events: seq<Event> := [];
      var updated := run;
      assert inputs[..0] == [];
      for index := 0 to |inputs|
        invariant trace == old(trace) && run == old(run)
        invariant (events, updated) == Built(run, inputs[..index])
      {
        var input := inputs[index];
        assert inputs[..index + 1][..index] == inputs[..index];
        if input.whenStatus.Some? && updated.status != input.whenStatus.value { continue; }
        events := events + [Numbered(input, updated.nextSequence)];
        updated := Run(if input.nextStatus.Some? then input.nextStatus.value else updated.status, updated.nextSequence + 1);
      }
      assert inputs[..|inputs|] == inputs;
      if events == [] { return; }
      trace := trace + events;
      if !dies {
        run := updated;
      }
    }

    /** appendRunEvents. */
    method Append(inputs: seq<Input>, dies: bool) returns (error: Option<Error>)
      modifies this
      ensures match old(Appended(Value(), inputs, dies))
              case Success(s) => error.None? && Value() == s
              case Failure(e) => error == Some(e) && Value() == old(RefusedValue())
    {
      error := Reconcile();
      if error.Some? { return; }
      if run.status.Completed? || run.status.Failed? || run.status.Abandoned? { return Some(NotWritable); }
      AppendLocked(inputs, dies);
    }

    /** What a refused operation leaves. */
    ghost function RefusedValue(): Store
      reads this
    {
      match Reconciled(Value())
      case Success(s) => s
      case Failure(_) => Value()
    }

    /** createRun: its first event, into an empty trace. */
    method Create(dies: bool) returns (error: Option<Error>)
      requires Value() == CREATED
      modifies this
      ensures Value() == old(Exec(Value(), Start(dies)))
    {
      error := Append(StartInputs(), dies);
    }

    /** recordActiveRunTerminalMutationIntent. */
    method RecordIntent(digest: string, startedAt: int, dies: bool) returns (error: Option<Error>)
      modifies this
      ensures Value() == old(Exec(Value(), Intend(digest, startedAt, dies)))
    {
      error := Append([IntentInput(digest, startedAt)], dies);
    }

    /** recordActiveRunTerminalTransition, with the part of the trace its earlier lookup had read. */
    method RecordTransition(t: Transition, seen: nat, repository: Metadata, dies: bool) returns (error: Option<Error>)
      modifies this
      ensures Value() == old(Exec(Value(), Finish(t, seen, repository, dies)))
    {
      var recorded := false;
      var bound := if seen < |trace| then seen else |trace|;
      for index := 0 to bound
        invariant recorded <==> exists k | 0 <= k < index :: IsMatchingIntent(trace[k], t)
      {
        if IsMatchingIntent(trace[index], t) { recorded := true; }
      }
      assert recorded <==> IntentIn(trace[..bound], t) by {
        if recorded {
          var k :| 0 <= k < bound && IsMatchingIntent(trace[k], t);
          assert trace[..bound][k] == trace[k];
        }
      }
      var status := if t.exitCode == 0 then EventStatus.Success else EventStatus.Failure;
      var events := [Input(CommandCompleted, status, Some(t.digest), Command(t.kind, t.exitCode), None, None)];
      if t.kind.Mutation? {
        events := events + [Input(WorkspaceMutated, status, Some(t.digest), repository, None, None)];
        if !recorded {
          events := events + [IntentInput(t.digest, t.startedAt)];
        }
      } else if t.kind.Verification? && t.exitCode == 0 {
        events := events + [Input(VerificationCompleted, EventStatus.Success, Some(t.digest), repository, Some(Active), Some(VerificationPending))];
      }
      assert events == TransitionInputs(t, recorded, repository);
      error := Append(events, dies);
    }

    static lemma SequencedAt(trace: seq<Event>)
      requires Sequenced(trace)
      ensures forall k | 0 <= k < |trace| :: trace[k].sequence == k + 1
    {
    }

    /** assertFreshCompletionEvidence: the two passes over the trace. */
    method CheckEvidence(head: Option<string>, dirty: bool) returns (error: Option<Error>)
      requires Sequenced(trace)
      ensures error == EvidenceError(trace, head, dirty)
    {
      hide IsBoundary, IsVerified, Sequenced;
      assert forall k | 0 <= k < |trace| :: trace[k].sequence == k + 1 by { SequencedAt(trace); }
      var latest := 0;
      assert trace[..0] == [];
      for index := 0 to |trace|
        invariant latest == LastBoundary(trace[..index]) + 1
      {
        assert trace[..index + 1][..index] == trace[..index];
        if IsBoundary(trace[index]) { latest := trace[index].sequence; }
      }
      assert trace[..|trace|] == trace;
      if latest == 0 { return None; }
      var verification: Option<Event> := None;
      for index := 0 to |trace|
        invariant var v := LastVerified(trace[..index]);
                  verification == if v >= latest then Some(trace[v]) else None
      {
        assert trace[..index + 1][..index] == trace[..index];
        if trace[index].sequence > latest && IsVerified(trace[index]) { verification := Some(trace[index]); }
      }
      if verification.None? { return Some(NoVerification); }
      match verification.value.metadata {
        case Repository(recordedHead, recordedDirty) =>
          if !ValidHead(recordedHead) { return Some(NoProvenance); }
          if recordedHead != head || recordedDirty != dirty { return Some(RepositoryChanged); }
          return None;
        case _ => return Some(NoProvenance);
      }
    }

    /** completeRun. */
    method CompleteRun(head: Option<string>, dirty: bool, dies: bool) returns (error: Option<Error>)
      modifies this
      ensures Value() == old(Exec(Value(), Complete(head, dirty, dies)))
      ensures error.None? <==> old(CompletedBy(Value(), head, dirty, dies)).Success?
    {
      error := Reconcile();
      if error.Some? { return; }
      if run.status == VerificationPending { return Some(StillPending); }
      if run.status != Active { return Some(NotActive); }
      error := CheckEvidence(head, dirty);
      if error.Some? { return; }
      AppendLocked(CompletionInputs(), dies);
    }
  }
}
