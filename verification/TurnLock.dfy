/** The turn-state lock of plugins/riqor/hooks/state.ts: a directory, an owner record and a recovery
    marker, used by any number of processes. Every file-system call is one step; steps of different
    actors interleave freely, processes crash, and the clock moves.

    Two calls are taken as one step: creating the directory together with its first owner record. The
    environment assumptions are in Permitted. */
module TurnLock {
  import opened Wrappers

  const LEASE_MS: nat := 60_000
  const HARD_EXPIRY_MS: nat := 86_400_000
  const ATTEMPTS: nat := 40

  /** The contents of owner.json and of .recovery.json. */
  datatype Record = Record(token: nat, pid: nat, createdAt: nat)

  datatype LockDir = LockDir(mtime: nat, owner: Option<Record>, marker: Option<Record>)

  /** Where one withTurnLock call stands: the file-system call it makes next, with what it has read. */
  datatype Pc =
    | Trying
    | Inspect
    | ReadOwner(mtime: nat)
    | ReadMarker(observed: Option<Record>)
    | ConfirmMarker(observed: Option<Record>, stale: Record)
    | DropMarker(observed: Option<Record>)
    | WriteMarker(observed: Option<Record>)
    | Recheck(observed: Option<Record>, mark: Record)
    | RemoveOwner(mark: Record)
    | ReadMark(mark: Record, cleared: bool)
    | DropMark(mark: Record, cleared: bool)
    | RemoveDir
    | Holding(mine: Record)
    | ReadRelease(mine: Record)
    | RemoveRelease(mine: Record)
    | ReleaseDir
    | Finished
    | TimedOut

  datatype Proc = Proc(pid: nat, attempts: nat, pc: Pc)

  datatype State = State(now: nat, dir: Option<LockDir>, procs: map<nat, Proc>, dead: set<nat>, nextToken: nat)

  datatype Action = Spawn(actor: nat, pid: nat) | Step(actor: nat) | Crash(pid: nat) | Tick(elapsed: nat)

  const INITIAL := State(0, None, map[], {}, 0)

  // ---------------------------------------------------------------- the program

  function Owner(s: State): Option<Record> {
    if s.dir.Some? then s.dir.value.owner else None
  }

  function Marker(s: State): Option<Record> {
    if s.dir.Some? then s.dir.value.marker else None
  }

  function Age(s: State, at: nat): nat {
    if s.now >= at then s.now - at else 0
  }

  /** The lease is over, and the writer is gone or past the hard expiry. */
  predicate Abandoned(s: State, r: Record) {
    Age(s, r.createdAt) > LEASE_MS && (Age(s, r.createdAt) > HARD_EXPIRY_MS || r.pid in s.dead)
  }

  /** recoverAbandonedLock returned; the acquire loop starts its next attempt. */
  function Retry(p: Proc): Proc {
    if p.attempts + 1 < ATTEMPTS then p.(attempts := p.attempts + 1, pc := Trying) else p.(pc := TimedOut)
  }

  /** The marker is gone: on to rmdir if the owner was cleared, else back to the acquire loop. */
  function AfterMark(p: Proc, cleared: bool): Proc {
    if cleared then p.(pc := RemoveDir) else Retry(p)
  }

  function WithoutOwner(s: State): Option<LockDir> {
    if Owner(s).Some? then Some(s.dir.value.(owner := None, mtime := s.now)) else s.dir
  }

  function WithoutMarker(s: State): Option<LockDir> {
    if Marker(s).Some? then Some(s.dir.value.(marker := None, mtime := s.now)) else s.dir
  }

  /** rmdir fails on a directory that still has an entry. */
  function RmDir(s: State): Option<LockDir> {
    if Owner(s).None? && Marker(s).None? then None else s.dir
  }

  /** What one actor's next call does to the disk and to itself. */
  function Act(s: State, p: Proc): (Option<LockDir>, Proc) {
    match p.pc
    case Trying =>
      if s.dir.None? then
        var mine := Record(s.nextToken, p.pid, s.now);
        (Some(LockDir(s.now, Some(mine), None)), p.(pc := Holding(mine)))
      else (s.dir, p.(pc := Inspect))
    case Inspect =>
      if s.dir.None? then (s.dir, Retry(p)) else (s.dir, p.(pc := ReadOwner(s.dir.value.mtime)))
    case ReadOwner(mtime) =>
      var observed := Owner(s);
      var at := if observed.Some? then observed.value.createdAt else mtime;
      if Age(s, at) <= LEASE_MS || (observed.Some? && !Abandoned(s, observed.value))
      then (s.dir, Retry(p))
      else (s.dir, p.(pc := ReadMarker(observed)))
    case ReadMarker(observed) =>
      var stale := Marker(s);
      if stale.Some? && Abandoned(s, stale.value)
      then (s.dir, p.(pc := ConfirmMarker(observed, stale.value)))
      else (s.dir, p.(pc := WriteMarker(observed)))
    case ConfirmMarker(observed, stale) =>
      if Marker(s).Some? && Marker(s).value.token == stale.token
      then (s.dir, p.(pc := DropMarker(observed)))
      else (s.dir, p.(pc := WriteMarker(observed)))
    case DropMarker(observed) => (WithoutMarker(s), p.(pc := WriteMarker(observed)))
    case WriteMarker(observed) =>
      if s.dir.None? || Marker(s).Some? then (s.dir, Retry(p))
      else
        var mark := Record(s.nextToken, p.pid, s.now);
        (Some(s.dir.value.(marker := Some(mark), mtime := s.now)), p.(pc := Recheck(observed, mark)))
    case Recheck(observed, mark) =>
      var current := Owner(s);
      if (observed.Some? && (current.None? || current.value.token != observed.value.token))
         || (current.Some? && !Abandoned(s, current.value))
      then (s.dir, p.(pc := ReadMark(mark, false)))
      else (s.dir, p.(pc := RemoveOwner(mark)))
    case RemoveOwner(mark) => (WithoutOwner(s), p.(pc := ReadMark(mark, true)))
    case ReadMark(mark, cleared) =>
      if Marker(s).Some? && Marker(s).value.token == mark.token
      then (s.dir, p.(pc := DropMark(mark, cleared)))
      else (s.dir, AfterMark(p, cleared))
    case DropMark(_, cleared) => (WithoutMarker(s), AfterMark(p, cleared))
    case RemoveDir => (RmDir(s), Retry(p))
    case Holding(mine) => (s.dir, p.(pc := ReadRelease(mine)))
    case ReadRelease(mine) =>
      if Owner(s).Some? && Owner(s).value.token == mine.token
      then (s.dir, p.(pc := RemoveRelease(mine)))
      else (s.dir, p.(pc := Finished))
    case RemoveRelease(_) => (WithoutOwner(s), p.(pc := ReleaseDir))
    case ReleaseDir => (RmDir(s), p.(pc := Finished))
    case Finished => (s.dir, p)
    case TimedOut => (s.dir, p)
  }

  predicate Enabled(s: State, act: Action) {
    match act
    case Spawn(actor, pid) => actor !in s.procs && pid !in s.dead
    case Step(actor) => actor in s.procs && s.procs[actor].pid !in s.dead
    case Crash(_) => true
    case Tick(_) => true
  }

  function Exec(s: State, act: Action): State
    requires Enabled(s, act)
  {
    match act
    case Spawn(actor, pid) => s.(procs := s.procs[actor := Proc(pid, 0, Trying)])
    case Step(actor) =>
      var (dir, p) := Act(s, s.procs[actor]);
      s.(dir := dir, procs := s.procs[actor := p], nextToken := s.nextToken + 1)
    case Crash(pid) => s.(dead := s.dead + {pid})
    case Tick(elapsed) => s.(now := s.now + elapsed)
  }

  // ---------------------------------------------------------------- the assumptions

  /** Within its hard expiry at the given time. */
  predicate Current(at: nat, r: Record) {
    at <= r.createdAt + HARD_EXPIRY_MS
  }

  /** A process does not die while its recovery marker is on disk, and no live process keeps an owner
      record or a marker past the hard expiry. */
  predicate Permitted(s: State, act: Action) {
    match act
    case Spawn(_, _) => true
    case Step(_) => true
    case Crash(pid) => Marker(s).Some? ==> Marker(s).value.pid != pid
    case Tick(elapsed) =>
      && (Owner(s).Some? && Owner(s).value.pid !in s.dead ==> Current(s.now + elapsed, Owner(s).value))
      && (Marker(s).Some? && Marker(s).value.pid !in s.dead ==> Current(s.now + elapsed, Marker(s).value))
  }

  /** A run: every action is enabled where it happens. */
  predicate IsRun(s: State, acts: seq<Action>)
    decreases |acts|
  {
    acts == [] || (Enabled(s, acts[0]) && IsRun(Exec(s, acts[0]), acts[1..]))
  }

  function Final(s: State, acts: seq<Action>): State
    requires IsRun(s, acts)
    decreases |acts|
  {
    if acts == [] then s else Final(Exec(s, acts[0]), acts[1..])
  }

  /** A run that meets the assumptions at every action. */
  predicate IsPermittedRun(s: State, acts: seq<Action>)
    decreases |acts|
  {
    acts == [] || (Enabled(s, acts[0]) && Permitted(s, acts[0]) && IsPermittedRun(Exec(s, acts[0]), acts[1..]))
  }

  // ---------------------------------------------------------------- safety

  /** Inside the protected operation. */
  ghost predicate Inside(s: State, actor: nat) {
    actor in s.procs && s.procs[actor].pc.Holding? && s.procs[actor].pid !in s.dead
  }

  ghost predicate MutualExclusion(s: State) {
    forall a, b | a in s.procs && b in s.procs && Inside(s, a) && Inside(s, b) :: a == b
  }

  /** The record an actor must find in the owner file. */
  function Held(pc: Pc): Option<Record> {
    match pc
    case Holding(mine) => Some(mine)
    case ReadRelease(mine) => Some(mine)
    case RemoveRelease(mine) => Some(mine)
    case _ => None
  }

  /** The record an actor must find in the recovery marker. */
  function Marked(pc: Pc): Option<Record> {
    match pc
    case Recheck(_, mark) => Some(mark)
    case RemoveOwner(mark) => Some(mark)
    case ReadMark(mark, _) => Some(mark)
    case DropMark(mark, _) => Some(mark)
    case _ => None
  }

  ghost predicate Live(s: State, actor: nat) {
    actor in s.procs && s.procs[actor].pid !in s.dead
  }

  ghost predicate HoldersOwn(s: State) {
    forall a | Live(s, a) && Held(s.procs[a].pc).Some? ::
      Owner(s) == Held(s.procs[a].pc) && Owner(s).value.pid == s.procs[a].pid
  }

  ghost predicate RecoverersPin(s: State) {
    forall a | Live(s, a) && Marked(s.procs[a].pc).Some? :: Marker(s) == Marked(s.procs[a].pc)
  }

  /** Between recheck and removal there is no live owner. */
  ghost predicate RemovalsSafe(s: State) {
    forall a | Live(s, a) && s.procs[a].pc.RemoveOwner? :: Owner(s).Some? ==> Owner(s).value.pid in s.dead
  }

  ghost predicate MarkersKept(s: State) {
    forall a | Live(s, a) :: !s.procs[a].pc.ConfirmMarker? && !s.procs[a].pc.DropMarker?
  }

  ghost predicate TokensApart(s: State) {
    && (forall a | a in s.procs && Held(s.procs[a].pc).Some? :: Held(s.procs[a].pc).value.token < s.nextToken)
    && (forall a | a in s.procs && Marked(s.procs[a].pc).Some? :: Marked(s.procs[a].pc).value.token < s.nextToken)
    && (forall a, b | a in s.procs && b in s.procs && a != b && Held(s.procs[a].pc).Some? && Held(s.procs[b].pc).Some? ::
          Held(s.procs[a].pc).value.token != Held(s.procs[b].pc).value.token)
    && (forall a, b | a in s.procs && b in s.procs && a != b && Marked(s.procs[a].pc).Some? && Marked(s.procs[b].pc).Some? ::
          Marked(s.procs[a].pc).value.token != Marked(s.procs[b].pc).value.token)
  }

  ghost predicate RecordsCurrent(s: State) {
    && (Owner(s).Some? && Owner(s).value.pid !in s.dead ==> Current(s.now, Owner(s).value))
    && (Marker(s).Some? ==> Marker(s).value.pid !in s.dead && Current(s.now, Marker(s).value))
  }

  ghost predicate Inv(s: State) {
    && HoldersOwn(s)
    && RecoverersPin(s)
    && RemovalsSafe(s)
    && MarkersKept(s)
    && TokensApart(s)
    && RecordsCurrent(s)
  }

  lemma StepKeepsHoldersOwn(s: State, actor: nat)
    requires Inv(s) && Live(s, actor)
    ensures HoldersOwn(Exec(s, Step(actor)))
  {
    var t := Exec(s, Step(actor));
    forall a | Live(t, a) && Held(t.procs[a].pc).Some?
      ensures Owner(t) == Held(t.procs[a].pc) && Owner(t).value.pid == t.procs[a].pid
    {
      if a != actor {
        assert Live(s, a);
        assert Owner(s) == Held(s.procs[a].pc);
      }
    }
  }

  lemma StepKeepsRecoverersPin(s: State, actor: nat)
    requires Inv(s) && Live(s, actor)
    ensures RecoverersPin(Exec(s, Step(actor)))
  {
    var t := Exec(s, Step(actor));
    forall a | Live(t, a) && Marked(t.procs[a].pc).Some?
      ensures Marker(t) == Marked(t.procs[a].pc)
    {
      if a != actor {
        assert Live(s, a);
        assert Marker(s) == Marked(s.procs[a].pc);
      }
    }
  }

  lemma StepKeepsRemovalsSafe(s: State, actor: nat)
    requires Inv(s) && Live(s, actor)
    ensures RemovalsSafe(Exec(s, Step(actor)))
  {
    var t := Exec(s, Step(actor));
    forall a | Live(t, a) && t.procs[a].pc.RemoveOwner?
      ensures Owner(t).Some? ==> Owner(t).value.pid in t.dead
    {
      if a != actor {
        assert Live(s, a);
        assert Marker(s) == Marked(s.procs[a].pc);
      }
    }
  }

  lemma StepKeepsTokensApart(s: State, actor: nat)
    requires Inv(s) && Live(s, actor)
    ensures TokensApart(Exec(s, Step(actor)))
  {
    var p := s.procs[actor];
    var q := Act(s, p).1;
    assert Held(q.pc).Some? ==> Held(q.pc) == Held(p.pc) || Held(q.pc).value.token == s.nextToken;
    assert Marked(q.pc).Some? ==> Marked(q.pc) == Marked(p.pc) || Marked(q.pc).value.token == s.nextToken;
  }

  lemma StepKeepsMarkersKept(s: State, actor: nat)
    requires Inv(s) && Live(s, actor)
    ensures MarkersKept(Exec(s, Step(actor)))
  {
    var t := Exec(s, Step(actor));
    assert forall a | Live(t, a) && a != actor :: Live(s, a);
  }

  lemma StepKeepsRecordsCurrent(s: State, actor: nat)
    requires Inv(s) && Live(s, actor)
    ensures RecordsCurrent(Exec(s, Step(actor)))
  {
  }

  /** Every action the assumptions allow keeps the invariant. */
  lemma ActionKeepsInv(s: State, act: Action)
    requires Inv(s) && Enabled(s, act) && Permitted(s, act)
    ensures Inv(Exec(s, act))
  {
    if act.Step? {
      StepKeepsHoldersOwn(s, act.actor);
      StepKeepsRecoverersPin(s, act.actor);
      StepKeepsRemovalsSafe(s, act.actor);
      StepKeepsTokensApart(s, act.actor);
      StepKeepsMarkersKept(s, act.actor);
      StepKeepsRecordsCurrent(s, act.actor);
    } else if act.Spawn? {
      SpawnKeepsInv(s, act);
    } else {
      CrashOrTickKeepsInv(s, act);
    }
  }

  lemma SpawnKeepsInv(s: State, act: Action)
    requires Inv(s) && Enabled(s, act) && act.Spawn?
    ensures Inv(Exec(s, act))
  {
    var t := Exec(s, act);
    assert forall a | Live(t, a) :: a == act.actor || (Live(s, a) && s.procs[a] == t.procs[a]);
  }

  lemma CrashOrTickKeepsInv(s: State, act: Action)
    requires Inv(s) && Permitted(s, act) && (act.Crash? || act.Tick?)
    ensures Inv(Exec(s, act))
  {
    assert forall a | Live(Exec(s, act), a) :: Live(s, a);
  }

  /** The invariant leaves at most one live holder. */
  lemma InvExcludes(s: State)
    requires Inv(s)
    ensures MutualExclusion(s)
  {
    forall a, b | a in s.procs && b in s.procs && Inside(s, a) && Inside(s, b)
      ensures a == b
    {
      assert Live(s, a) && Live(s, b);
    }
  }

  lemma {:induction false} PermittedRunKeepsInv(s: State, acts: seq<Action>)
    requires Inv(s) && IsPermittedRun(s, acts)
    ensures IsRun(s, acts) && Inv(Final(s, acts))
    decreases |acts|
  {
    if acts != [] {
      ActionKeepsInv(s, acts[0]);
      PermittedRunKeepsInv(Exec(s, acts[0]), acts[1..]);
    }
  }

  /** Mutual exclusion over every permitted run. */
  lemma AtMostOneInside(acts: seq<Action>)
    requires IsPermittedRun(INITIAL, acts)
    ensures IsRun(INITIAL, acts) && MutualExclusion(Final(INITIAL, acts))
  {
    PermittedRunKeepsInv(INITIAL, acts);
    InvExcludes(Final(INITIAL, acts));
  }

  lemma StepRemovesDeadOwner(s: State, actor: nat)
    requires Inv(s) && Live(s, actor) && Owner(s).Some? && Owner(Exec(s, Step(actor))) != Owner(s)
    ensures s.procs[actor].pc == RemoveRelease(Owner(s).value) || Owner(s).value.pid in s.dead
  {
  }

  /** An owner record leaves the disk only through its own holder's release or after its process died. */
  lemma OwnerRemovedOnlyWhenDead(acts: seq<Action>, actor: nat)
    requires IsPermittedRun(INITIAL, acts)
    ensures IsRun(INITIAL, acts)
    ensures var s := Final(INITIAL, acts);
            Live(s, actor) && Owner(s).Some? && Owner(Exec(s, Step(actor))) != Owner(s) ==>
              s.procs[actor].pc == RemoveRelease(Owner(s).value) || Owner(s).value.pid in s.dead
  {
    PermittedRunKeepsInv(INITIAL, acts);
    var s := Final(INITIAL, acts);
    if Live(s, actor) && Owner(s).Some? && Owner(Exec(s, Step(actor))) != Owner(s) {
      StepRemovesDeadOwner(s, actor);
    }
  }

  // ---------------------------------------------------------------- recovery makes progress

  /** One actor running n steps on its own. */
  function Solo(s: State, actor: nat, n: nat): (t: State)
    requires Enabled(s, Step(actor))
    ensures Enabled(t, Step(actor))
    decreases n
  {
    if n == 0 then s else Solo(Exec(s, Step(actor)), actor, n - 1)
  }

  lemma {:induction false} SoloSplit(s: State, actor: nat, m: nat, n: nat)
    requires Enabled(s, Step(actor))
    ensures Solo(s, actor, m + n) == Solo(Solo(s, actor, m), actor, n)
    decreases m
  {
    if m > 0 {
      SoloSplit(Exec(s, Step(actor)), actor, m - 1, n);
    }
  }

  /** One more step of a solo run. */
  lemma SoloStep(s: State, actor: nat, n: nat)
    requires Enabled(s, Step(actor)) && n > 0
    ensures Solo(s, actor, n) == Solo(Exec(s, Step(actor)), actor, n - 1)
  {
  }

  /** What a contender must find to recover the lock: an abandoned owner record, or none and a directory not
      changed for a lease. */
  predicate AbandonedDir(s: State, observed: Option<Record>) {
    && s.dir.Some? && Owner(s) == observed
    && if observed.Some? then Abandoned(s, observed.value) else Age(s, s.dir.value.mtime) > LEASE_MS
  }

  /** From the write of its marker to the removed directory. */
  lemma SoloClears(s: State, actor: nat, observed: Option<Record>) returns (n: nat)
    requires Live(s, actor) && s.procs[actor].pc == WriteMarker(observed)
    requires s.dir.Some? && Owner(s) == observed && Marker(s).None?
    requires observed.Some? ==> Abandoned(s, observed.value)
    ensures Solo(s, actor, n).dir == None
    ensures Solo(s, actor, n).procs[actor] == Retry(s.procs[actor])
    ensures Solo(s, actor, n).dead == s.dead
  {
    n := 6;
    var s1 := Exec(s, Step(actor));
    var s2 := Exec(s1, Step(actor));
    assert s2.procs[actor].pc.RemoveOwner?;
    var s3 := Exec(s2, Step(actor));
    var s4 := Exec(s3, Step(actor));
    assert s4.procs[actor].pc.DropMark?;
    var s5 := Exec(s4, Step(actor));
    assert Solo(s3, actor, n - 3) == Solo(s4, actor, n - 4) == Solo(s5, actor, n - 5) == Exec(s5, Step(actor));
    assert Solo(s, actor, n) == Solo(s1, actor, n - 1) == Solo(s2, actor, n - 2) == Solo(s3, actor, n - 3);
  }

  /** Up to the write of the marker, dropping an abandoned one first. */
  lemma SoloReachesMarker(s: State, actor: nat, observed: Option<Record>) returns (n: nat)
    requires Live(s, actor) && s.procs[actor].pc == Trying && AbandonedDir(s, observed)
    requires Marker(s).Some? ==> Abandoned(s, Marker(s).value)
    ensures var t := Solo(s, actor, n);
            && t.procs[actor] == s.procs[actor].(pc := WriteMarker(observed))
            && t.dir.Some? && Owner(t) == observed && Marker(t).None? && t.now == s.now && t.dead == s.dead
  {
    n := if Marker(s).Some? then 6 else 4;
    var s1 := Exec(s, Step(actor));
    var s2 := Exec(s1, Step(actor));
    var s3 := Exec(s2, Step(actor));
    assert s3.procs[actor].pc == ReadMarker(observed);
    var s4 := Exec(s3, Step(actor));
    assert Solo(s, actor, n) == Solo(s1, actor, n - 1) == Solo(s2, actor, n - 2) == Solo(s3, actor, n - 3)
      == Solo(s4, actor, n - 4);
    if Marker(s).Some? {
      var s5 := Exec(s4, Step(actor));
      assert Solo(s4, actor, n - 4) == Solo(s5, actor, n - 5) == Exec(s5, Step(actor));
    }
  }

  lemma SoloTakesFree(s: State, actor: nat) returns (n: nat)
    requires Live(s, actor) && s.procs[actor].pc == Trying && s.dir.None?
    ensures Inside(Solo(s, actor, n), actor)
  {
    n := 1;
    SoloStep(s, actor, n);
  }

  lemma AbandonedLockIsCleared(s: State, actor: nat, observed: Option<Record>) returns (n: nat)
    requires Live(s, actor) && s.procs[actor].pc == Trying && s.procs[actor].attempts + 1 < ATTEMPTS
    requires AbandonedDir(s, observed) && (Marker(s).Some? ==> Abandoned(s, Marker(s).value))
    ensures var u := Solo(s, actor, n);
            Live(u, actor) && u.procs[actor].pc == Trying && u.dir.None?
  {
    var m := SoloReachesMarker(s, actor, observed);
    var t := Solo(s, actor, m);
    var k := SoloClears(t, actor, observed);
    SoloSplit(s, actor, m, k);
    n := m + k;
  }

  /** Running alone it is inside at some point. */
  ghost predicate GetsIn(s: State, actor: nat)
    requires Live(s, actor)
  {
    exists n: nat {:trigger Solo(s, actor, n)} :: Inside(Solo(s, actor, n), actor)
  }

  lemma InsideAfter(s: State, actor: nat, n: nat)
    requires Live(s, actor) && Inside(Solo(s, actor, n), actor)
    ensures GetsIn(s, actor)
  {
  }

  /** An abandoned lock, with or without an owner record and with or without an abandoned marker, is recovered and
      taken by any live contender with an attempt to spare that runs undisturbed. */
  lemma AbandonedLockIsTaken(s: State, actor: nat)
    requires Live(s, actor) && s.procs[actor].pc == Trying && s.procs[actor].attempts + 1 < ATTEMPTS
    requires AbandonedDir(s, Owner(s)) && (Marker(s).Some? ==> Abandoned(s, Marker(s).value))
    ensures GetsIn(s, actor)
  {
    var n := AbandonedLockIsCleared(s, actor, Owner(s));
    var u := Solo(s, actor, n);
    var k := SoloTakesFree(u, actor);
    SoloSplit(s, actor, n, k);
    InsideAfter(s, actor, n + k);
  }

  /** What a contender running alone can take: a free lock, or an abandoned one that no current marker guards. */
  predicate Takeable(s: State) {
    s.dir.None? || (AbandonedDir(s, Owner(s)) && (Marker(s).Some? ==> Abandoned(s, Marker(s).value)))
  }

  /** Where a contender stands that the lock keeps out. */
  ghost predicate KeptOut(s: State, actor: nat) {
    && Live(s, actor) && !Takeable(s)
    && match s.procs[actor].pc {
         case Trying => true
         case Inspect => true
         case ReadOwner(mtime) => mtime == s.dir.value.mtime
         case ReadMarker(observed) => observed == Owner(s) && AbandonedDir(s, observed)
         case WriteMarker(observed) => observed == Owner(s) && AbandonedDir(s, observed)
         case TimedOut => true
         case _ => false
       }
  }

  /** What a contender sees depends on the directory, the clock and who is dead. */
  lemma SameView(s: State, t: State)
    requires t.dir == s.dir && t.now == s.now && t.dead == s.dead
    ensures Takeable(t) == Takeable(s) && AbandonedDir(t, Owner(t)) == AbandonedDir(s, Owner(s))
  {
  }

  lemma StaysKeptOut(s: State, actor: nat)
    requires KeptOut(s, actor)
    ensures KeptOut(Exec(s, Step(actor)), actor) && Exec(s, Step(actor)).dir == s.dir
  {
    var t := Exec(s, Step(actor));
    assert t.dir == s.dir && t.now == s.now && t.dead == s.dead;
    SameView(s, t);
  }

  lemma {:induction false} SoloKeptOut(s: State, actor: nat, n: nat)
    requires KeptOut(s, actor)
    ensures var t := Solo(s, actor, n); t.dir == s.dir && !Inside(t, actor)
    decreases n
  {
    if n > 0 {
      StaysKeptOut(s, actor);
      SoloKeptOut(Exec(s, Step(actor)), actor, n - 1);
    }
  }

  /** A live contender with an attempt to spare that runs undisturbed gets in exactly when the lock is free or abandoned
      without a current marker; otherwise it never changes the directory. */
  lemma GetsInIff(s: State, actor: nat)
    requires Live(s, actor) && s.procs[actor].pc == Trying && s.procs[actor].attempts + 1 < ATTEMPTS
    ensures GetsIn(s, actor) <==> Takeable(s)
    ensures !Takeable(s) ==> forall n: nat :: Solo(s, actor, n).dir == s.dir
  {
    if s.dir.None? {
      var n := SoloTakesFree(s, actor);
      InsideAfter(s, actor, n);
    } else if Takeable(s) {
      AbandonedLockIsTaken(s, actor);
    } else {
      forall n: nat
        ensures Solo(s, actor, n).dir == s.dir && !Inside(Solo(s, actor, n), actor)
      {
        SoloKeptOut(s, actor, n);
      }
    }
  }

  /** Without a marker a held lock can be taken exactly when its record is a day old, or a minute old and its process
      is dead. */
  lemma TakeableIff(s: State)
    requires Owner(s).Some? && Marker(s).None?
    ensures var age := Age(s, Owner(s).value.createdAt);
      Takeable(s) <==> age > 86_400_000 || (age > 60_000 && Owner(s).value.pid in s.dead)
  {
  }

  /** How many steps a contender is from its next attempt, when the directory is gone. */
  function StepsLeft(pc: Pc): nat {
    match pc
    case Trying => 0
    case Inspect => 1
    case WriteMarker(_) => 1
    case RemoveDir => 1
    case ConfirmMarker(_, _) => 2
    case DropMarker(_) => 2
    case DropMark(_, _) => 2
    case ReadMarker(_) => 3
    case ReadMark(_, _) => 3
    case ReadOwner(_) => 4
    case RemoveOwner(_) => 4
    case Recheck(_, _) => 5
    case _ => 6
  }

  /** A lock that is freed under a contender, wherever that stands in its recovery, is taken by it at its next attempt. */
  lemma FreedLockIsTaken(s: State, actor: nat) returns (n: nat)
    requires Live(s, actor) && s.dir.None? && StepsLeft(s.procs[actor].pc) < 6
    requires s.procs[actor].pc == Trying || s.procs[actor].attempts + 1 < ATTEMPTS
    ensures Inside(Solo(s, actor, n), actor)
    decreases StepsLeft(s.procs[actor].pc)
  {
    var t := Exec(s, Step(actor));
    if s.procs[actor].pc == Trying {
      n := SoloTakesFree(s, actor);
    } else {
      assert t.dir.None? && StepsLeft(t.procs[actor].pc) < StepsLeft(s.procs[actor].pc);
      var k := FreedLockIsTaken(t, actor);
      n := k + 1;
      SoloStep(s, actor, n);
    }
  }

  // ---------------------------------------------------------------- a release frees the lock

  /** What a release leaves: no directory when the record is its own and no marker is there, the directory without the
      record when there is a marker, and everything as it was when the record is not its own. */
  function Released(s: State, mine: Record): Option<LockDir> {
    if Owner(s).None? || Owner(s).value.token != mine.token then s.dir
    else if Marker(s).None? then None
    else Some(LockDir(s.now, None, Marker(s)))
  }

  /** A live holder that runs alone ends its operation and its release. */
  lemma ReleaseEnds(s: State, actor: nat) returns (n: nat)
    requires Inside(s, actor)
    ensures var t := Solo(s, actor, n);
      && t.dir == Released(s, s.procs[actor].pc.mine)
      && t.procs == s.procs[actor := s.procs[actor].(pc := Finished)] && t.dead == s.dead && t.now == s.now
  {
    var mine := s.procs[actor].pc.mine;
    n := if Owner(s).Some? && Owner(s).value.token == mine.token then 4 else 2;
    var s1 := Exec(s, Step(actor));
    var s2 := Exec(s1, Step(actor));
    SoloStep(s, actor, n);
    SoloStep(s1, actor, n - 1);
    if n == 4 {
      var s3 := Exec(s2, Step(actor));
      SoloStep(s2, actor, n - 2);
      SoloStep(s3, actor, n - 3);
      assert s2.procs[actor].pc == RemoveRelease(mine) && s3.procs[actor].pc == ReleaseDir;
    }
  }

  /** After every permitted run: a holder that runs alone ends with its record gone, and with the whole directory gone
      exactly when no recoverer has left its marker there; then the next contender that runs alone is inside. */
  lemma LockIsPassedOn(acts: seq<Action>, actor: nat, next: nat) returns (n: nat, k: nat)
    requires IsPermittedRun(INITIAL, acts) && IsRun(INITIAL, acts) && Inside(Final(INITIAL, acts), actor)
    ensures var s := Final(INITIAL, acts);
      var t := Solo(s, actor, n);
      && t.procs[actor].pc.Finished? && Owner(t).None? && (t.dir.None? <==> Marker(s).None?)
      && (Marker(s).None? && next != actor && Live(s, next) && s.procs[next].pc == Trying ==>
            Live(t, next) && Inside(Solo(t, next, k), next))
  {
    hide IsPermittedRun, IsRun, Final, Inv, Solo;
    PermittedRunKeepsInv(INITIAL, acts);
    var s := Final(INITIAL, acts);
    HolderOwns(s, actor);
    n := ReleaseEnds(s, actor);
    var t := Solo(s, actor, n);
    k := 0;
    if Marker(s).None? && next != actor && Live(s, next) && s.procs[next].pc == Trying {
      assert t.procs[next] == s.procs[next];
      k := SoloTakesFree(t, next);
    }
  }

  lemma HolderOwns(s: State, actor: nat)
    requires Inv(s) && Inside(s, actor)
    ensures Owner(s) == Some(s.procs[actor].pc.mine)
  {
    assert Live(s, actor) && Held(s.procs[actor].pc).Some?;
  }

  // ---------------------------------------------------------------- a recovery that was overtaken

  /** A recoverer that finds another owner than it observed, or a current one, takes its own marker away and nothing
      else. */
  lemma OvertakenBacksOff(s: State, actor: nat) returns (n: nat)
    requires Live(s, actor) && s.procs[actor].pc.Recheck? && Marker(s) == Some(s.procs[actor].pc.mark)
    requires var observed := s.procs[actor].pc.observed;
      || (observed.Some? && (Owner(s).None? || Owner(s).value.token != observed.value.token))
      || (Owner(s).Some? && !Abandoned(s, Owner(s).value))
    ensures var t := Solo(s, actor, n);
      t.dir == Some(LockDir(s.now, Owner(s), None)) && t.procs[actor] == Retry(s.procs[actor])
  {
    n := 3;
    var s1 := Exec(s, Step(actor));
    var s2 := Exec(s1, Step(actor));
    SoloStep(s, actor, n);
    SoloStep(s1, actor, n - 1);
    SoloStep(s2, actor, n - 2);
    assert s2.procs[actor].pc.DropMark?;
  }

  /** A recoverer that meets another marker than the one it read leaves the directory as it is. */
  lemma OtherMarkerKept(s: State, actor: nat) returns (n: nat)
    requires Live(s, actor) && s.procs[actor].pc.ConfirmMarker?
    requires Marker(s).Some? && Marker(s).value.token != s.procs[actor].pc.stale.token
    ensures Solo(s, actor, n).dir == s.dir && Solo(s, actor, n).procs[actor] == Retry(s.procs[actor])
  {
    n := 2;
    SoloStep(s, actor, n);
    SoloStep(Exec(s, Step(actor)), actor, n - 1);
  }

  // ---------------------------------------------------------------- the marker assumption is needed

  /** By a run that meets the assumptions at every action. */
  ghost predicate Reaches(s: State, t: State) {
    exists acts :: IsPermittedRun(s, acts) && IsRun(s, acts) && Final(s, acts) == t
  }

  lemma {:induction false} RunJoin(s: State, xs: seq<Action>, ys: seq<Action>)
    requires IsRun(s, xs) && IsRun(Final(s, xs), ys)
    requires IsPermittedRun(s, xs) && IsPermittedRun(Final(s, xs), ys)
    ensures IsRun(s, xs + ys) && Final(s, xs + ys) == Final(Final(s, xs), ys)
    ensures IsPermittedRun(s, xs + ys)
    decreases |xs|
  {
    if xs == [] {
      assert xs + ys == ys;
    } else {
      assert (xs + ys)[1..] == xs[1..] + ys;
      RunJoin(Exec(s, xs[0]), xs[1..], ys);
    }
  }

  lemma Then(s: State, t: State, act: Action)
    requires Reaches(s, t) && Enabled(t, act) && Permitted(t, act)
    ensures Reaches(s, Exec(t, act))
  {
    var acts :| IsPermittedRun(s, acts) && IsRun(s, acts) && Final(s, acts) == t;
    assert IsRun(Exec(t, act), []) && Final(t, [act]) == Final(Exec(t, act), []);
    RunJoin(s, acts, [act]);
  }

  lemma {:induction false} ThenSolo(s: State, t: State, actor: nat, n: nat)
    requires Reaches(s, t) && Enabled(t, Step(actor))
    ensures Reaches(s, Solo(t, actor, n))
    decreases n
  {
    if n > 0 {
      Then(s, t, Step(actor));
      ThenSolo(s, Exec(t, Step(actor)), actor, n - 1);
    }
  }

  /** The owner record of a holder (actor 0) and the marker of a recoverer (actor 1), both to die. */
  const R0 := Record(0, 100, 0)
  const R1 := Record(5, 101, 60_001)

  /** The lock of the dead holder after its lease, with the recoverer at its first attempt. */
  const EXPIRED :=
    State(60_001, Some(LockDir(0, Some(R0), None)),
          map[0 := Proc(100, 0, Holding(R0)), 1 := Proc(101, 0, Trying)], {100}, 1)

  const MARKED :=
    State(60_001, Some(LockDir(60_001, Some(R0), Some(R1))),
          map[0 := Proc(100, 0, Holding(R0)), 1 := Proc(101, 0, Recheck(Some(R0), R1))], {100}, 6)

  /** The same just after the recoverer died. */
  const ORPHANED := MARKED.(dead := {100, 101})

  /** A second lease later: holder and recoverer are dead, actors 2 and 3 contend. */
  function Scene(dir: LockDir, two: Proc, three: Proc, nextToken: nat): State {
    State(120_002, Some(dir),
          map[0 := Proc(100, 0, Holding(R0)), 1 := Proc(101, 0, Recheck(Some(R0), R1)), 2 := two, 3 := three],
          {100, 101}, nextToken)
  }

  const STALE := Scene(LockDir(60_001, Some(R0), Some(R1)), Proc(102, 0, Trying), Proc(103, 0, Trying), 6)
  const CONFIRMING :=
    Scene(LockDir(60_001, Some(R0), Some(R1)), Proc(102, 0, ConfirmMarker(Some(R0), R1)), Proc(103, 0, Trying), 10)
  const DROPPING :=
    Scene(LockDir(60_001, Some(R0), Some(R1)), Proc(102, 0, ConfirmMarker(Some(R0), R1)),
          Proc(103, 0, DropMarker(Some(R0))), 15)
  const REMARKED :=
    Scene(LockDir(120_002, Some(R0), Some(Record(17, 102, 120_002))),
          Proc(102, 0, RemoveOwner(Record(17, 102, 120_002))), Proc(103, 0, DropMarker(Some(R0))), 19)
  const BOTH_REMOVING :=
    Scene(LockDir(120_002, Some(R0), Some(Record(20, 103, 120_002))),
          Proc(102, 0, RemoveOwner(Record(17, 102, 120_002))), Proc(103, 0, RemoveOwner(Record(20, 103, 120_002))), 22)
  const TAKEN :=
    Scene(LockDir(120_002, Some(Record(26, 103, 120_002)), None),
          Proc(102, 0, RemoveOwner(Record(17, 102, 120_002))), Proc(103, 1, Holding(Record(26, 103, 120_002))), 27)
  const TAKEN_TWICE :=
    Scene(LockDir(120_002, Some(Record(30, 102, 120_002)), None),
          Proc(102, 1, Holding(Record(30, 102, 120_002))), Proc(103, 1, Holding(Record(26, 103, 120_002))), 31)

  /** Actor 1 finds the abandoned lock and writes its marker. */
  lemma SoloMarks()
    requires Reaches(INITIAL, EXPIRED)
    ensures Reaches(INITIAL, MARKED)
  {
    hide Reaches, IsRun, IsPermittedRun;
    var n := 5;
    ThenSolo(INITIAL, EXPIRED, 1, n);
    SoloStep(EXPIRED, 1, n);
    var s1 := Exec(EXPIRED, Step(1));
    SoloStep(s1, 1, n - 1);
    var s2 := Exec(s1, Step(1));
    SoloStep(s2, 1, n - 2);
    var s3 := Exec(s2, Step(1));
    SoloStep(s3, 1, n - 3);
    var s4 := Exec(s3, Step(1));
    SoloStep(s4, 1, n - 4);
    var s5 := Exec(s4, Step(1));
    assert s5 == MARKED;
  }

  /** Actor 2 finds the marker of the dead recoverer. */
  lemma SoloConfirms()
    requires Reaches(ORPHANED, STALE)
    ensures Reaches(ORPHANED, CONFIRMING)
  {
    hide Reaches, IsRun, IsPermittedRun;
    var n := 4;
    ThenSolo(ORPHANED, STALE, 2, n);
    SoloStep(STALE, 2, n);
    var s1 := Exec(STALE, Step(2));
    SoloStep(s1, 2, n - 1);
    var s2 := Exec(s1, Step(2));
    SoloStep(s2, 2, n - 2);
    var s3 := Exec(s2, Step(2));
    SoloStep(s3, 2, n - 3);
    var s4 := Exec(s3, Step(2));
    assert s4 == CONFIRMING;
  }

  /** Actor 3 finds and confirms the same marker. */
  lemma SoloDrops()
    requires Reaches(ORPHANED, CONFIRMING)
    ensures Reaches(ORPHANED, DROPPING)
  {
    hide Reaches, IsRun, IsPermittedRun;
    var n := 5;
    ThenSolo(ORPHANED, CONFIRMING, 3, n);
    SoloStep(CONFIRMING, 3, n);
    var s1 := Exec(CONFIRMING, Step(3));
    SoloStep(s1, 3, n - 1);
    var s2 := Exec(s1, Step(3));
    SoloStep(s2, 3, n - 2);
    var s3 := Exec(s2, Step(3));
    SoloStep(s3, 3, n - 3);
    var s4 := Exec(s3, Step(3));
    SoloStep(s4, 3, n - 4);
    var s5 := Exec(s4, Step(3));
    assert s5 == DROPPING;
  }

  /** Actor 2 removes it, writes its own and passes its recheck. */
  lemma SoloRemarks()
    requires Reaches(ORPHANED, DROPPING)
    ensures Reaches(ORPHANED, REMARKED)
  {
    hide Reaches, IsRun, IsPermittedRun;
    var n := 4;
    ThenSolo(ORPHANED, DROPPING, 2, n);
    SoloStep(DROPPING, 2, n);
    var s1 := Exec(DROPPING, Step(2));
    SoloStep(s1, 2, n - 1);
    var s2 := Exec(s1, Step(2));
    SoloStep(s2, 2, n - 2);
    var s3 := Exec(s2, Step(2));
    SoloStep(s3, 2, n - 3);
    var s4 := Exec(s3, Step(2));
    assert s4 == REMARKED;
  }

  /** Actor 3 removes actor 2's marker instead, writes its own and passes its recheck too. */
  lemma SoloUnpins()
    requires Reaches(ORPHANED, REMARKED)
    ensures Reaches(ORPHANED, BOTH_REMOVING)
  {
    hide Reaches, IsRun, IsPermittedRun;
    var n := 3;
    ThenSolo(ORPHANED, REMARKED, 3, n);
    SoloStep(REMARKED, 3, n);
    var s1 := Exec(REMARKED, Step(3));
    SoloStep(s1, 3, n - 1);
    var s2 := Exec(s1, Step(3));
    SoloStep(s2, 3, n - 2);
    var s3 := Exec(s2, Step(3));
    assert s3 == BOTH_REMOVING;
  }

  /** Actor 3 clears the directory and takes the lock. */
  lemma SoloTakes()
    requires Reaches(ORPHANED, BOTH_REMOVING)
    ensures Reaches(ORPHANED, TAKEN)
  {
    hide Reaches, IsRun, IsPermittedRun;
    var n := 5;
    ThenSolo(ORPHANED, BOTH_REMOVING, 3, n);
    SoloStep(BOTH_REMOVING, 3, n);
    var s1 := Exec(BOTH_REMOVING, Step(3));
    SoloStep(s1, 3, n - 1);
    var s2 := Exec(s1, Step(3));
    SoloStep(s2, 3, n - 2);
    var s3 := Exec(s2, Step(3));
    SoloStep(s3, 3, n - 3);
    var s4 := Exec(s3, Step(3));
    SoloStep(s4, 3, n - 4);
    var s5 := Exec(s4, Step(3));
    assert s5 == TAKEN;
  }

  /** Actor 2 removes the live owner record of actor 3 and takes the lock. */
  lemma SoloTakesAgain()
    requires Reaches(ORPHANED, TAKEN)
    ensures Reaches(ORPHANED, TAKEN_TWICE)
  {
    hide Reaches, IsRun, IsPermittedRun;
    var n := 4;
    ThenSolo(ORPHANED, TAKEN, 2, n);
    SoloStep(TAKEN, 2, n);
    var s1 := Exec(TAKEN, Step(2));
    SoloStep(s1, 2, n - 1);
    var s2 := Exec(s1, Step(2));
    SoloStep(s2, 2, n - 2);
    var s3 := Exec(s2, Step(2));
    SoloStep(s3, 2, n - 3);
    var s4 := Exec(s3, Step(2));
    assert s4 == TAKEN_TWICE;
  }

  lemma ReachesExpired()
    ensures Reaches(INITIAL, EXPIRED)
  {
    assert IsRun(INITIAL, []) && Final(INITIAL, []) == INITIAL;
    Then(INITIAL, INITIAL, Spawn(0, 100));
    var s1 := Exec(INITIAL, Spawn(0, 100));
    Then(INITIAL, s1, Step(0));
    var s2 := Exec(s1, Step(0));
    Then(INITIAL, s2, Crash(100));
    var s3 := Exec(s2, Crash(100));
    Then(INITIAL, s3, Tick(60_001));
    var s4 := Exec(s3, Tick(60_001));
    Then(INITIAL, s4, Spawn(1, 101));
    assert Exec(s4, Spawn(1, 101)) == EXPIRED;
  }

  lemma ReachesStale()
    ensures Reaches(ORPHANED, STALE)
  {
    assert IsRun(ORPHANED, []) && IsPermittedRun(ORPHANED, []) && Final(ORPHANED, []) == ORPHANED;
    Then(ORPHANED, ORPHANED, Tick(60_001));
    var s2 := Exec(ORPHANED, Tick(60_001));
    Then(ORPHANED, s2, Spawn(2, 102));
    var s3 := Exec(s2, Spawn(2, 102));
    Then(ORPHANED, s3, Spawn(3, 103));
    assert Exec(s3, Spawn(3, 103)) == STALE;
  }

  lemma ReachesTakenTwice()
    ensures Reaches(INITIAL, MARKED) && Reaches(ORPHANED, TAKEN_TWICE)
  {
    ReachesExpired();
    SoloMarks();
    ReachesStale();
    SoloConfirms();
    SoloDrops();
    SoloRemarks();
    SoloUnpins();
    SoloTakes();
    SoloTakesAgain();
  }

  /** A run in which every action but one meets the assumptions: the crash, in between, of the process whose recovery
      marker is on disk. */
  ghost predicate MarkerCrashRun(before: seq<Action>, pid: nat, after: seq<Action>) {
    && IsPermittedRun(INITIAL, before) && IsRun(INITIAL, before)
    && var s := Final(INITIAL, before);
       && Marker(s).Some? && Marker(s).value.pid == pid
       && IsPermittedRun(Exec(s, Crash(pid)), after) && IsRun(Exec(s, Crash(pid)), after)
  }

  /** That one crash, of a recoverer whose marker is on disk, is enough to let two live actors into the protected
      operation. */
  lemma MarkerCrashBreaksExclusion()
    ensures exists before, pid, after ::
      && MarkerCrashRun(before, pid, after)
      && !MutualExclusion(Final(Exec(Final(INITIAL, before), Crash(pid)), after))
  {
    ReachesTakenTwice();
    var before :| IsPermittedRun(INITIAL, before) && IsRun(INITIAL, before) && Final(INITIAL, before) == MARKED;
    assert Exec(MARKED, Crash(101)) == ORPHANED;
    var after :| IsPermittedRun(ORPHANED, after) && IsRun(ORPHANED, after) && Final(ORPHANED, after) == TAKEN_TWICE;
    assert MarkerCrashRun(before, 101, after);
    assert Inside(TAKEN_TWICE, 2) && Inside(TAKEN_TWICE, 3);
  }
}
