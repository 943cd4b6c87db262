# Riqor models

A Dafny model of the protocols, stores, graph algorithms and hand-written parsers inside Riqor, the local evidence
gate for coding agents, with proofs of what each of them is for. `dafny verify dfyconfig.toml` checks everything.

| modules | what they model |
|---|---|
| TurnLock | the turn-state lock and its recovery, as interleaved file-system steps of any number of processes with crashes and a clock |
| Publication | publishing n files as one generation: temporaries, backups, renames, commit marker, rollback and recovery, dying before or failing at any call |
| RunTrace, RunStore, RunSafety, RunSession | the event-sourced run store: append-only trace, run record, replay, evidence gate and the terminal writers |
| DependencyGraph, CycleDetectors | the depth-first and the peeling cycle detector of the backlog |
| SqlText, SqlNormalizer, SqlProperties, SqlTokens, SqlCoverage | the PostgreSQL normalizer of `graders/sql.ts` and a token grammar for SQL text |
| CanonicalJson, JsonReader, JsonInjectivity | canonical JSON, and a JSON reader that it is measured by |
| ToonFormat, ToonText, ToonCodec, ToonRoundTrip | TOON encoding and decoding |
| TerminalSession | the terminal evidence flag over whole sessions |
| TurnEvidence, Pruning, PruningSafety | the evidence of one turn and the pruning of turn files |
| Activator | the checkpoint activator |
| Windows | interval coalescing, on window objects changed in place |
| ProcessTree | the process-tree walk |
| ShellBlock | installing and removing the managed shell block |
| DiffReader, DiffProperties | the unified-diff reader |
| JpegScanner | the JPEG dimension scanner |
| MemoryLedger, TokenComparison | the bounded per-project memory and the conservative token comparison |
| Wrappers, Decimal, Prefixes, Scanning | shared failure types, decimal numbers and text pieces |

Code that works step by step is a method with the loops and the fields of the original, proved against a function
of the inputs or of the old state; the lemmas are about those functions, so they hold of the methods.

## What the proofs found

Where a promise fails, the model keeps the code and a lemma says exactly when the promise holds.

- Turn lock: a recoverer that dies while its marker is on disk lets two live processes into the protected operation,
  with every other step as assumed (`TurnLock.MarkerCrashBreaksExclusion`); under the assumptions below there is never
  more than one (`TurnLock.AtMostOneInside`).
- Publication: after an attempt that was interrupted anywhere, with everybody dead, the next undisturbed process gets
  the lock exactly when the existence test `Bun.file(path).exists()` is true of directories, or no recovery directory
  was left, or the old lock was already gone (`Publication.Restart`; the parameter `sees` stands for the test's
  answer). Two deaths, just after taking the lock and at the first call of its recovery, reach the case where only the
  test decides (`Publication.InterruptedRecovery`), and without it nobody ever gets through again
  (`Publication.NobodyGetsThrough`).
- Run store: verifying and then completing does not always complete a live run. Without another mutation or a crash
  it can be completed for a head and dirty flag exactly when it is verification-pending, or no mutation boundary is in
  its trace, or the latest verification follows every boundary and records this head and flag
  (`RunSafety.CompletableIff`). A verification that ends between the intent and the end of a mutation, one whose
  inspection of the repository failed, and a repository that changed after the verification all leave it stuck
  (`RunSafety.InterleavedVerificationSticks`, `RunSafety.VerifiedRunSticksIff`).
- SQL: the normal form is free of openers exactly when the preserved literals are harmless, which lower-case words are.
- Canonical JSON: a value has one text in all orders of its keys exactly when no two keys of one object in it are tied
  by the comparison (`JsonInjectivity.OneTextIffUntied`). `localeCompare` ties some canonically equivalent keys.
- TOON: a context survives the round trip exactly when it is `ToonRoundTrip.Faithful`.
- Shell block: installing is idempotent exactly when the last kept line that is not blank is not a marker with
  trailing blanks; with one, the second run refuses the file that the first run wrote.
- Diff reader: three things make it record wrong positions: a header without the old count, which is left out when it
  is one and which the reader does not match; the line `\ No newline at end of file` before an addition, which it counts
  as a line of the file; and added text that opens with `++`, which it does not record. A diff is read right exactly
  when none of them moves an addition (`DiffProperties.AllReadRightIff`).
- Token comparison: with no known control tokens and a missing one, the reported -1 is not a lower bound
  (`TokenComparison.LowerBoundIff`); a positive report always is. Where the value is a bound it is the best one, unless
  no control tokens are known and the candidate used none (`TokenComparison.LeastIff`).

## Assumptions

- TurnLock: creating the lock directory and writing its owner record are one step; live owners and markers stay within
  the hard expiry; a process does not die with its recovery marker on disk; pids are not reused; tokens are unique.
- Publication: one live publisher at a time, so attempts follow each other; a copy, a rename and the removal of the
  lock directory are one step each; a failing call has no effect; the stamps of attempts are unique.
- RunTrace: each locked operation is exclusive; a batch reaches the trace in one write and a crash loses at most the
  record write after it; a writer may have looked for a matching intent in any earlier prefix of the trace.
- TerminalSession, TurnEvidence, Activator: each operation is exclusive under its lock. Pruning: each attempt is, and
  other processes may write and delete between attempts.

## Model

| member | source | states |
|---|---|---|
| TurnLock.ActionKeepsInv | plugins/riqor/hooks/state.ts:91-206 | every step, crash, spawn and tick that the assumptions allow keeps the protocol invariant: holders own the record, markers pin the directory, pending removals are of dead owners |
| TurnLock.AtMostOneInside | plugins/riqor/hooks/state.ts:199-206 | in every permitted interleaving at most one live process is inside the protected operation |
| TurnLock.OwnerRemovedOnlyWhenDead | plugins/riqor/hooks/state.ts:131-197 | an owner record leaves the disk only by its own holder's release or after its process died |
| TurnLock.AbandonedLockIsTaken | plugins/riqor/hooks/state.ts:91-185 | an abandoned lock directory, with or without an owner record and with or without an abandoned marker, is recovered and taken by a live contender that runs undisturbed with an attempt to spare |
| TurnLock.GetsInIff | plugins/riqor/hooks/state.ts:91-185 | a live contender that runs undisturbed with an attempt to spare gets in exactly when the lock is free, or abandoned without a current marker; otherwise it never changes the directory |
| TurnLock.TakeableIff | plugins/riqor/hooks/state.ts:102-106 | without a marker a held lock can be taken exactly when its record is over a day old, or over a minute old and its process dead |
| TurnLock.FreedLockIsTaken | plugins/riqor/hooks/state.ts:91-185 | a lock that is freed under a contender, wherever that stands in its recovery, is taken by it at its next attempt |
| TurnLock.OvertakenBacksOff | plugins/riqor/hooks/state.ts:131-143 | a recoverer that finds another owner, or a current one, takes away its own marker and nothing else |
| TurnLock.OtherMarkerKept | plugins/riqor/hooks/state.ts:112-130 | a recoverer that meets another marker than the one it read leaves the directory as it is |
| TurnLock.ReleaseEnds | plugins/riqor/hooks/state.ts:187-197 | a release removes the record and the directory when the record is its own and no marker is there, the record alone when one is, and nothing when the record is another's |
| TurnLock.LockIsPassedOn | plugins/riqor/hooks/state.ts:187-206 | after every permitted run a holder that runs alone ends with its record gone, the directory gone exactly when there is no marker, and then the next contender that runs alone is inside |
| TurnLock.MarkerCrashBreaksExclusion | plugins/riqor/hooks/state.ts:110-117 | a permitted run, then the death of the process whose marker is on disk, then a permitted run, ends with two live processes inside |
| Publication.RestoreStutters | src/cli.ts:129-132 | putting a backup back leaves the generation the disk stands for unchanged exactly when no commit marker is there or the backup is the published content |
| Publication.CommitSwitches | src/cli.ts:127-127 | writing the commit marker switches that generation to the published files |
| Publication.Workspace.Acquire | src/cli.ts:63-102 | whatever call fails or is the last, the generation is kept; success leaves the published files holding it, nothing of the interrupted attempt, and no recovery directory; undisturbed it succeeds exactly when no live owner stands in the way |
| Publication.Workspace.Recover | src/cli.ts:78-94 | recovery keeps the generation at every call, ends with the lock taken and the interrupted attempt's temporaries and backups gone, and succeeds when undisturbed |
| Publication.Workspace.RollBack | src/cli.ts:128-139 | an in-process rollback, interrupted or failing anywhere, keeps the generation; when it finishes the published files hold it |
| Publication.Workspace.PublishLocked | src/cli.ts:116-144 | the disk stands for the new files once the marker was written and for the old generation until then; success leaves the new files and no leftovers; one failing call before the marker leaves the old files, no lock and no leftovers |
| Publication.Workspace.Publish | src/cli.ts:104-145 | the same for a whole attempt from any earlier interrupted state, whose leftovers and recovery directory it also removes |
| Publication.History | src/cli.ts:63-145 | over any history of interrupted attempts, a finished recovery leaves all files of the last attempt that wrote its marker, never a mixture; undisturbed it finishes exactly when the lock that was left can be taken, so always when all owners are dead and directories are seen |
| Publication.InTurn | src/cli.ts:63-145 | undisturbed attempts one after another, from any disk that the first can lock, all succeed, whoever is alive; the last one's files are published and neither directory is left |
| Publication.Restart | src/cli.ts:63-102 | after an attempt interrupted at any call, with everybody dead, an undisturbed process gets the lock exactly when directories are seen, or no recovery directory was left, or the old lock is gone; then the files are one generation |
| Publication.InterruptedRecovery | src/cli.ts:63-102 | from any free lock, a death after taking it and a death in its recovery: a third process gets through exactly when directories are seen |
| Publication.NobodyGetsThrough | src/cli.ts:63-102 | with both directories left and directories not seen, no sequence of attempts succeeds or changes anything |
| RunTrace.EvidenceGate | src/assurance/run-store.ts:760-794 | the completion check passes exactly on no mutation boundary, or a latest successful verification after all of them that records this head and dirty flag |
| RunSafety.TraceIsNumbered | src/assurance/run-store.ts:446-502 | over every run with crashes sequence numbers are 1..n, the record's next sequence is at most n+1, and reconciling succeeds |
| RunSafety.ReconcileIdempotent | src/assurance/run-store.ts:481-502 | reconciling a second time changes nothing |
| RunSafety.LostWriteIsReplayed | src/assurance/run-store.ts:545-575 | after a crash between trace and record, the replay gives the lost record's sequence and its status, or verification-pending where that was active |
| RunSafety.RunKeepsInv | src/assurance/run-store.ts:460-502 | every run of create, intent, end, complete, read and crash keeps the replayed status at least as cautious as the record |
| RunSafety.CompletedRunIsVerified | src/assurance/run-store.ts:796-833 | a run is completed, in record or trace, only by a completion that found fresh evidence for its head and dirty flag; its event is the last one, for good |
| RunSafety.CompletableIff | src/assurance/run-store.ts:760-833 | some session without mutations or crashes completes a run for a head and dirty flag exactly when it is verification-pending, or has no boundary, or its latest verification follows every boundary and records them; then verifying once and completing does |
| RunSafety.CommandIsReported | src/assurance/terminal-trace.ts:127-185 | after every run, the end of a command on an open run is reported in the trace with its digest, kind, exit code and success, even if the record write is lost; it ends in a boundary exactly for a mutation, in a verification exactly for one that succeeded in a pending run |
| RunSafety.UnrecordedMutationDemands | src/assurance/terminal-trace.ts:158-172 | a mutation that ends on an open run without its intent in the trace read makes it pending, and verifying once and completing then completes it |
| RunSafety.OrderedSessionCompletes | src/assurance/terminal-trace.ts:41-194 | intent, end of the mutation, verification and completion in this order complete every open run |
| RunSafety.MutationSignRefuses | src/assurance/run-store.ts:460-479 | each sign of a mutation, its demand, its record or the report of its success, makes a replay pending and refuses earlier evidence |
| RunSafety.StuckForGood | src/assurance/terminal-trace.ts:103-185 | an active run whose evidence is refused stays so under every such session |
| RunSafety.InterleavedVerificationSticks | src/assurance/terminal-trace.ts:103-185 | start, intent of a mutation, end of a verification, end of the mutation: stuck for every head and flag, for want of a verification |
| RunSafety.VerifiedRunSticksIff | src/assurance/terminal-trace.ts:103-185 | start, intent and end of a mutation, end of a verification: stuck exactly for what the verification did not record, so for everything when its inspection failed |
| RunSession.Serve | src/assurance/run-store.ts:446-833 | any operations on the files of a new run end completed only after a completion that found fresh evidence, sealed by its event, and the next read says so |
| RunStore.RunFiles.Reconcile | src/assurance/run-store.ts:481-502 | the method on the two files equals the replay on values, errors included |
| RunStore.RunFiles.Derive | src/assurance/run-store.ts:460-479 | the loop over the events ends in the replayed status |
| RunStore.RunFiles.CheckSequences | src/assurance/run-store.ts:452-457 | the loop accepts exactly traces numbered 1..n |
| RunStore.RunFiles.Append | src/assurance/run-store.ts:679-693 | reconcile, refuse a finished run, else append; equal to the append on values |
| RunStore.RunFiles.AppendLocked | src/assurance/run-store.ts:545-575 | the batch loop builds the events and the record that the value function names |
| RunStore.RunFiles.RecordTransition | src/assurance/terminal-trace.ts:90-194 | the intent lookup and the branches over kind and exit code write exactly the events of the value function, which `RunSafety.CommandIsReported` and `RunSafety.UnrecordedMutationDemands` describe apart from it |
| RunStore.RunFiles.CheckEvidence | src/assurance/run-store.ts:760-794 | the two loops find the error that the value function names |
| RunStore.RunFiles.CompleteRun | src/assurance/run-store.ts:796-833 | completion equals the completion on values |
| CycleDetectors.DependencyCycles | scripts/backlog-lib.ts:185-202 | the depth-first detector reports nothing exactly when the graph on known ids has no cycle, every trail ends in a real cycle, and every cycle takes the last step of some trail |
| CycleDetectors.InitiativeCycles | scripts/backlog-policy.ts:240-259 | what peeling leaves is exactly the ids that reach a cycle, so it is empty exactly when there is none |
| CycleDetectors.DetectorsAgree | scripts/backlog-lib.ts:185-202 | both detectors complain about the same graphs, and the first one's trails stay within the ids the second names |
| CycleDetectors.PeelingRemainder | scripts/backlog-policy.ts:245-258 | a peeled remainder in which every id depends on another of it is the set of ids that reach a cycle |
| CycleDetectors.GraphLists | scripts/backlog-lib.ts:186-186 | the graph holds the dependencies of the last item with each id, none where they are no list |
| SqlNormalizer.NormalizePostgres | graders/sql.ts:1-60 | the loop ends on every ASCII text and returns the normal form that the specification names |
| SqlProperties.NormalIsClean | graders/sql.ts:1-60 | the normal form holds no quote, comment opener or dollar tag anywhere |
| SqlProperties.NormalShape | graders/sql.ts:59-59 | the normal form has no capital letter, no blank but the space, and never two spaces in a row |
| SqlProperties.NormalIsFixed | graders/sql.ts:1-60 | normalizing twice is normalizing once |
| SqlProperties.CleanIffHarmless | graders/sql.ts:42-43 | all normal forms are clean exactly when the preserved literals put nothing special into their markers |
| SqlProperties.WordsAreHarmless | graders/sql.ts:42-43 | preserved literals made of word characters and blanks are harmless |
| SqlTokens.TokenReads | graders/sql.ts:3-58 | a token of the grammar in its place is read as that token, closed or cut off by the end |
| SqlTokens.HiddenTextIsIgnored | graders/sql.ts:1-60 | two texts that differ only inside comments, dollar strings, quoted names and unpreserved literals, in letter case, and in the kind of blanks have one normal form |
| SqlTokens.EscapeOpensIff | graders/sql.ts:28-32 | an E before a quote opens an escape string unless it ends a word |
| SqlCoverage.EveryTextHasTokens | graders/sql.ts:3-58 | every text is the text of well-formed tokens, so the result above leaves no text out |
| JsonInjectivity.CanonicalSeparates | src/harness.ts:62-72 | equal canonical texts come from values that are the same up to key order, under any key comparison |
| JsonInjectivity.CanonicalIffSame | src/harness.ts:62-72 | for a value without ties the text is equal to another value's exactly when they are the same up to key order, whatever the comparison does elsewhere |
| JsonInjectivity.OneTextIffUntied | src/harness.ts:62-72 | under a comparison with classes of tied keys, all orders of a value's keys give one text exactly when no two keys of one object in it, at any depth, are tied |
| CanonicalJson.TextOfNorm | src/harness.ts:62-72 | sorting while printing is printing the value with sorted keys |
| JsonReader.ReadsBack | src/harness.ts:62-72 | a JSON reader written apart from the printer gives back every printed value, up to what follows it |
| JsonReader.CanonicalReads | src/harness.ts:62-72 | the canonical text of a value reads as the value with its keys sorted at every depth |
| JsonReader.CanonicalIsShortest | src/harness.ts:62-72 | no text without white space that reads so is shorter |
| JsonReader.TextUnique | src/harness.ts:62-72 | printed values are uniquely readable, whatever follows them |
| ToonCodec.EncodeToon | packages/riqor/src/toon-formatter.ts:34-60 | the loops push exactly the lines of the specification |
| ToonCodec.DecodeToon | packages/riqor/src/toon-formatter.ts:65-121 | the line loop ends in the context that the specification reads |
| ToonRoundTrip.RoundTripIff | packages/riqor/src/toon-formatter.ts:34-121 | decoding an encoded context gives it back exactly when it is faithful |
| ToonRoundTrip.DecodedIsClean | packages/riqor/src/toon-formatter.ts:65-121 | nothing decoded from any text holds a newline, and its first line is trimmed |
| ToonRoundTrip.CleanDecodes | packages/riqor/src/toon-formatter.ts:34-121 | what every context without newlines decodes to |
| ToonRoundTrip.NewlinesComeBackSpaced | packages/riqor/src/toon-formatter.ts:50-58 | failure messages with newlines come back with spaces for them, exactly when the context with spaces is faithful |
| ToonRoundTrip.NoHeaderNoFailures | packages/riqor/src/toon-formatter.ts:106-113 | a text without the failures header decodes without failures |
| ToonText.FileReadBackIff | packages/riqor/src/toon-formatter.ts:84-95 | a file line gives its file back exactly when the path is one line and does not end in a blank |
| ToonText.NestedReadBack | packages/riqor/src/toon-formatter.ts:84-95 | counts with a second pair of parentheses are read as well |
| ToonText.FailureReadBackIff | packages/riqor/src/toon-formatter.ts:108-113 | a failure line gives its failure back exactly when the name has no `]:` and both parts are one line, the message trimmed |
| ToonText.TestsReadBack | packages/riqor/src/toon-formatter.ts:96-105 | the tests line always gives its four counts back |
| TerminalSession.Session | src/terminal-runtime.ts:291-353 | any session on the recorder leaves the flag clear exactly when nothing is unverified, and hands out exactly the ends right after a start |
| TerminalSession.WrittenIsAccepted | src/terminal-runtime.ts:162-194 | a written state is accepted by the reader's validator exactly when its time is valid |
| TerminalSession.StoredIs | src/terminal-runtime.ts:291-353 | the whole state that a session leaves: the command under way or its exit code, with the flag set exactly when something is unverified; an end without a start changes nothing |
| TerminalSession.NoContentClears | src/terminal-runtime.ts:162-208 | no content of the file hides a mutation that it says is under way, or clears another session |
| TerminalSession.PendingIsLast | src/terminal-runtime.ts:314-331 | a command is pending exactly when its start is the last thing that happened |
| TerminalSession.FlagIffUnverified | src/terminal-runtime.ts:196-208 | over any session the flag reads as set exactly when some mutation or unreadable state was followed neither by a later verification that ended next with exit 0 nor by a deletion |
| TerminalSession.ClearMeansVerified | src/terminal-runtime.ts:325-329 | with the flag clear and no deletion every mutation started before a verification that started later and ended with exit 0 |
| TurnEvidence.Serve | plugins/riqor/hooks/state.ts:281-327 | in any run on the stored state, whenever the gate lets the turn end the latest change was covered in time, and every refusal names that change and whether it is the first |
| TurnEvidence.GateIsSafe | plugins/riqor/hooks/state.ts:309-323 | when the gate lets a turn end, its latest change was followed by a covering verification not earlier on the clock |
| TurnEvidence.GateIff | plugins/riqor/hooks/state.ts:281-323 | with a clock that does not go back the gate lets the turn end exactly when the latest change was covered |
| TurnEvidence.RefusalSays | plugins/riqor/hooks/state.ts:317-321 | a refusal names the latest change's kind and is the first one exactly when the gate was not asked since that change and its last covering verification |
| Pruning.DataDirectory.Prune | plugins/riqor/hooks/state.ts:372-421 | both passes with the quota counter, under any interference, end in the files of the specification |
| PruningSafety.FirstStepRemoves | plugins/riqor/hooks/state.ts:382-396 | the first pass removes a file exactly when it holds its lock and finds it stale, and touches no other |
| PruningSafety.SecondStepRemoves | plugins/riqor/hooks/state.ts:400-420 | the second pass removes a file exactly when it holds its lock and finds it stale, or unchanged with the quota used up; every other file met, and every locked one, counts |
| PruningSafety.LockedIsLeftAlone | plugins/riqor/hooks/state.ts:333-340 | a file locked in the first pass is left to the others for the whole run, one locked in the second pass for that pass |
| PruningSafety.RankCountsLeft | plugins/riqor/hooks/state.ts:399-419 | the quota counter is the number of candidates locked or left in place so far |
| PruningSafety.RemovedOnlyOverQuota | plugins/riqor/hooks/state.ts:408-417 | a fresh file is removed only unchanged, and after maxFiles candidates that were locked or left |
| PruningSafety.QuietPruning | plugins/riqor/hooks/state.ts:372-421 | undisturbed, exactly the maxFiles most recently modified fresh files are left, ties by key, unchanged |
| Activator.Session | plugins/riqor/hooks/activator.ts:246-308 | any session on the checkpoint gives exactly the answers owed to its events, which alternate; it leaves a state that the next reader accepts, and counts no more cycles than its time allows |
| Activator.RunAlternates | plugins/riqor/hooks/activator.ts:246-308 | in every run the reports alternate block k, then completed or timeout k, for k = 1, 2, ...; a timeout exactly when the end is past the block plus the watchdog; the stored state is always accepted by the reader |
| Activator.NextAnswer | plugins/riqor/hooks/activator.ts:269-308 | after every run: a stop ends the review under way, as a timeout exactly past the watchdog; without one it blocks exactly when allowed and an interval has passed since the last report or the first event; nothing else is answered |
| Activator.RunActiveAt | plugins/riqor/hooks/activator.ts:248-306 | the stored activity time is the latest of the session's starts, its touches and the stops that were answered |
| Activator.RefusedIsNone | plugins/riqor/hooks/activator.ts:90-128 | a stored state of another configuration, or with a time or cycle out of range, counts as none |
| Activator.BlocksTakeTime | plugins/riqor/hooks/activator.ts:282-306 | with a clock that does not go back the k-th block comes no earlier than k intervals after the first event |
| Activator.CyclesFitTheTime | plugins/riqor/hooks/activator.ts:191-203 | cycle times interval is at most the time since the start |
| Windows.Coalesce | references/unfamiliar-repo/src/windows.ts:3-14 | an error exactly when some window is invalid; else new windows, in order with strict gaps, over the same points, the input objects untouched |
| Windows.Reduce | references/unfamiliar-repo/src/windows.ts:8-13 | the reduction that pushes a window or changes the last one's end in place |
| Windows.SeparatedUnique | references/unfamiliar-repo/src/windows.ts:3-14 | separated windows over the same points are the same list |
| Windows.CoalescedIffSamePoints | references/unfamiliar-repo/src/windows.ts:3-14 | results are equal exactly when the inputs cover the same points; so every permutation gives the same list and coalescing is idempotent |
| Windows.FewestWindows | references/unfamiliar-repo/src/windows.ts:3-14 | no list of windows over the same points is shorter |
| ProcessTree.Tree | src/process.ts:4-25 | ends with exactly the pids reachable from the roots, none twice, each but the roots after one of its parents; the tracked set grows to the same list |
| ProcessTree.KillOrder | src/process.ts:64-65 | reversed, every pid that is not a root comes before one of its parents |
| ProcessTree.ChildLists | src/process.ts:9-14 | the child map holds exactly the listing's rows |
| ProcessTree.SecondWalk | src/process.ts:63-65 | a second walk over the same listing adds nothing and keeps the order |
| ShellBlock.RenderManagedBlock | scripts/install-shell-integration.py:28-48 | the line loop and the joined text equal the specification, refusals included, which `ShellBlock.RenderedLines` gives in lines |
| ShellBlock.StripManagedBlock | scripts/uninstall-shell-integration.py:15-33 | the same for removal, with the same refusals; in lines by `ShellBlock.StrippedLinesOf` |
| ShellBlock.AcceptedIff | scripts/install-shell-integration.py:28-44 | the line loop accepts exactly the files made of the owner's lines and whole blocks |
| ShellBlock.KeepsOwned | scripts/install-shell-integration.py:28-44 | of such a file, with any number of blocks anywhere, it keeps exactly the owner's lines in order |
| ShellBlock.RenderedLines | scripts/install-shell-integration.py:28-48 | installing gives the owner's lines without the blank end, a blank line and one block |
| ShellBlock.StrippedLinesOf | scripts/uninstall-shell-integration.py:15-33 | removal gives the owner's lines without the blank end |
| ShellBlock.RenderTwiceIff | scripts/install-shell-integration.py:28-48 | installing twice is installing once exactly when the last kept line that is not blank is no marker with trailing blanks; else the second run refuses |
| ShellBlock.StripRendered | scripts/uninstall-shell-integration.py:15-33 | removing after installing gives what removing from the original gives, the empty file if no line that is not blank was kept, or a refusal under the condition above |
| ShellBlock.RenderStripped | scripts/install-shell-integration.py:28-48 | installing after removing is installing, and removing twice is removing once, under the same condition |
| ShellBlock.MarkerWithBlank | scripts/install-shell-integration.py:32-48 | a start marker with a trailing blank is such a file |
| DiffReader.ParseGitDiffHunks | src/diagnostics/diff-reporter.ts:12-48 | the line loop records what the specification records |
| DiffProperties.HeaderReads | src/diagnostics/diff-reporter.ts:29-32 | a hunk header with both old numbers gives its new start |
| DiffProperties.HeaderAtIff | src/diagnostics/diff-reporter.ts:29-29 | the front of a line is read as a hunk header exactly when it has the pattern's shape, digit by digit, and then as its new start |
| DiffProperties.HeaderWithoutCount | src/diagnostics/diff-reporter.ts:29-32 | one without the old count gives what its section text gives as a header of its own, as a rule nothing |
| DiffProperties.DiffRecovered | src/diagnostics/diff-reporter.ts:12-48 | for printed diffs of any files and hunks without added `++` text whose hunks are lined up, the files are those mentioned and the recorded positions exactly the new positions of added lines |
| DiffProperties.AllReadRightIff | src/diagnostics/diff-reporter.ts:12-48 | for any files with hunks in increasing order, all positions are right exactly when no added text opens with `++` and at every addition the counter, carried over from earlier hunks and files and moved by markers, stands where the hunk says |
| DiffProperties.UnmarkedLinedUp | src/diagnostics/diff-reporter.ts:27-44 | a hunk without markers is lined up exactly when it has the old count, or the counter stands at its start, or it adds nothing |
| DiffProperties.KeptIffAdded | src/diagnostics/diff-reporter.ts:50-61 | against such a diff filtering keeps a diagnostic, as often as it comes, exactly when its line is an added one of its file |
| DiffProperties.FilteredAppended | src/diagnostics/diff-reporter.ts:50-61 | filtering keeps the order |
| JpegScanner.JpegSize | plugins/riqor/skills/chatgpt-codex-plugin-autopilot/scripts/validate_plugin.py:186-211 | ends on every byte sequence with all reads in bounds, and returns what the specification scans |
| JpegScanner.SizeIffLaidOut | plugins/riqor/skills/chatgpt-codex-plugin-autopilot/scripts/validate_plugin.py:186-211 | dimensions are found exactly when the bytes are a start of image, items as the scanner takes them that are no frame header, and a frame header, and they are that header's |
| JpegScanner.LaidOutScans | plugins/riqor/skills/chatgpt-codex-plugin-autopilot/scripts/validate_plugin.py:191-210 | any segments with any payloads and fill bytes before a frame header are skipped |
| MemoryLedger.Ledger.AddEntry | src/cognitive-memory.ts:53-89 | from any stored list, the project keeps its last entries up to the capacity and every other project keeps all of its own |
| MemoryLedger.AddAll | src/cognitive-memory.ts:53-89 | after any interleaving of additions each project holds exactly its last ones |
| MemoryLedger.QueueIsLast | src/cognitive-memory.ts:71-83 | bounding a queue at every addition is bounding it once at the end |
| TokenComparison.LowerBoundIff | src/runner.ts:246-251 | the reported value is a lower bound for every filling of missing control counts exactly when some control tokens are known, none are missing, or the candidate used none |
| TokenComparison.LeastIff | src/runner.ts:246-251 | the reported value is the least over all fillings, attained, exactly when some control tokens are known, or none are missing and the candidate used some |
| TokenComparison.CompleteIsExact | src/runner.ts:246-251 | with every control count known and some tokens it is the true reduction |
| TokenComparison.PositiveIsReal | src/runner.ts:246-251 | a positive reported value is a lower bound for every filling |

## Left out

- Real file system, permissions, symlinks, JSON text of state files, hashing: files are maps or values, digests opaque,
  and content the readers refuse is one case.
- Mutual exclusion of the run-store, terminal and activator locks: only the turn lock is modelled step by step.
- TurnLock: waiting times between attempts, and errors other than the ones that mean "exists" or "is gone".
- Publication: removals and restores that still run after a failed `Promise.all`, and a torn write of the commit
  marker beyond the two cases of `Publication.RestoreStutters`.
- RunStore: `transitionRun`, direct appends by other callers, `completedAt`, the active-run pointer, the limit of
  sixteen events in a batch, and the validation of event fields.
- CycleDetectors: the texts of the errors, reference checks, readiness and work-in-progress limits.
- SqlNormalizer.NormalizePostgres: only ASCII texts; lower-casing and white space of other characters are not modelled.
- JsonInjectivity.CanonicalIffSame: numbers are integers, without exponents, and strings hold no lone surrogates. The
  reader of `JsonReader` takes texts without white space.
- ToonRoundTrip.RoundTripIff: counts are natural numbers of any size, where the original has doubles, and strings
  hold no lone surrogates.
- TerminalSession: the classifiers of commands; a command arrives with its kind, route and digest.
- Activator: deletion of the state by clearing or by pruning.
- Windows: the library sort is an insertion sort on the objects; only its order matters.
- ProcessTree: the `ps` call, and signals.
- ShellBlock: the block's body is any one line that is not a marker, as the installer's own line is.
- DiffProperties.AllReadRightIff: a file is named once, and no header without the old count carries a second header in
  its section text, which could move the counter back; `DiffProperties.DiffRecovered` needs neither. Line numbers are
  of any size.
- JpegScanner: as in the original every marker but the two of the image itself is followed by a length, so restart
  markers before a frame header are outside the layout.
- MemoryLedger: an entry's id, category and time, and two additions at once, which the original does not guard against.
- TokenComparison: floating-point rounding, and the rest of the benchmark comparison.
- Regular-expression classifiers, secret scanners and validators: each judges one text by a list of patterns, and
  backtracking matching is not part of this model beyond the patterns above.
- Installers, doctor and release commands, Markdown rendering and routers: they order calls to the file system and to
  other programs.
- Loop governor, goal orchestrator, lifecycle state machine: counters and tables of allowed states, each held by one
  object. Execution cards: one file each, replaced as a whole.
