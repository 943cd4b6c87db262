/** A whole session on the files of one run, operation by operation, with a crash wherever an operation dies. */
module RunSession {
  import opened RunSafety
  import opened RunStore
  import opened RunTrace
  import opened Wrappers

  lemma EmptyTraceIsCreated(s: Store)
    requires Inv(s) && s.trace == []
    ensures s == CREATED
  {
  }

  /** Any operations on the files of a new run: when they end with the run completed, in its record or in its trace, a
      completion among them found fresh evidence, the trace ends with its event, and the next read says completed. */
  method Serve(files: RunFiles, ops: seq<Op>) returns (completed: bool)
    requires files.Value() == CREATED
    modifies files
    ensures files.Value() == RunOf(ops)
    ensures completed <==> files.run.status.Completed?
    ensures completed || !NotCompleted(files.trace) ==>
      exists k :: 0 <= k < |ops| && ops[k].Complete? && SealedBy(files.trace, ops[k].head, ops[k].dirty)
    ensures completed || !NotCompleted(files.trace) ==>
      Reconciled(files.Value()).Success? && Reconciled(files.Value()).value.run.status.Completed?
  {
    assert ops[..0] == [];
    for k := 0 to |ops|
      invariant files.Value() == RunOf(ops[..k])
    {
      assert ops[..k + 1][..k] == ops[..k];
      RunKeepsInv(ops[..k]);
      ReconcileKeepsInv(files.Value());
      var error;
      match ops[k] {
        case Start(dies) =>
          if files.trace == [] {
            EmptyTraceIsCreated(files.Value());
            error := files.Create(dies);
          }
        case Read => error := files.Reconcile();
        case Intend(digest, startedAt, dies) => error := files.RecordIntent(digest, startedAt, dies);
        case Finish(t, seen, repository, dies) => error := files.RecordTransition(t, seen, repository, dies);
        case Complete(head, dirty, dies) => error := files.CompleteRun(head, dirty, dies);
      }
    }
    assert ops[..|ops|] == ops;
    completed := files.run.status == Completed;
    if files.run.status.Completed? || !NotCompleted(files.trace) {
      ghost var k := CompletedRunIsVerified(ops);
    }
  }
}
