/** Publishing several files as one generation (src/cli.ts): lock, temporaries, backups, renames, commit
    marker, cleanup, and the recovery a later process makes of an interrupted attempt. The process may
    die before any file-system call and any call may fail. */
module Publication {
  import opened Wrappers

  type Content = string

  datatype Path = Final(i: nat) | Temporary(stamp: nat, i: nat) | Backup(stamp: nat, i: nat)

  datatype Owner = Owner(pid: nat, stamp: nat, existed: seq<bool>)

  /** The lock directory: owner.json when readable, and whether the file `committed` is there. */
  datatype Lock = Lock(owner: Option<Owner>, committed: bool)

  /** The recovery directory with the pid in its owner.json, when readable. */
  datatype Recovery = Recovery(pid: Option<nat>)

  datatype Disk = Disk(files: map<Path, Content>, lock: Option<Lock>, recovery: Option<Recovery>)

  /** The contents of the published files, None where a file is absent. */
  type Generation = seq<Option<Content>>

  function At(d: Disk, p: Path): Option<Content> {
    if p in d.files then Some(d.files[p]) else None
  }

  /** What the published paths hold. */
  function Finals(d: Disk, n: nat): Generation {
    seq(n, i requires 0 <= i < n => At(d, Final(i)))
  }

  /** An attempt is under way, or was interrupted, before its commit marker. */
  predicate Pending(d: Disk) {
    d.lock.Some? && d.lock.value.owner.Some? && !d.lock.value.committed
  }

  predicate WellFormed(d: Disk, n: nat) {
    d.lock.Some? && d.lock.value.owner.Some? ==> |d.lock.value.owner.value.existed| == n
  }

  function LogicalAt(d: Disk, n: nat, i: nat): Option<Content>
    requires WellFormed(d, n) && i < n
  {
    if !Pending(d) then At(d, Final(i))
    else
      var owner := d.lock.value.owner.value;
      if !owner.existed[i] then None
      else if Backup(owner.stamp, i) in d.files then At(d, Backup(owner.stamp, i))
      else At(d, Final(i))
  }

  /** The generation the disk stands for: the one before the attempt until its commit marker is there. */
  function Logical(d: Disk, n: nat): Generation
    requires WellFormed(d, n)
  {
    seq(n, i requires 0 <= i < n => LogicalAt(d, n, i))
  }

  /** The published paths hold what the disk stands for. */
  predicate Settled(d: Disk, n: nat) {
    WellFormed(d, n) && Finals(d, n) == Logical(d, n)
  }

  function Published(texts: seq<Content>): Generation {
    seq(|texts|, i requires 0 <= i < |texts| => Some(texts[i]))
  }

  // ---------------------------------------------------------------- the calls

  function Put(d: Disk, p: Path, c: Content): Disk {
    d.(files := d.files[p := c])
  }

  function Removed(d: Disk, p: Path): Disk {
    d.(files := d.files - {p})
  }

  function Renamed(d: Disk, from: Path, to: Path): Disk
    requires from in d.files
  {
    d.(files := (d.files - {from})[to := d.files[from]])
  }

  // ---------------------------------------------------------------- every call but one keeps the generation

  lemma PutTemporaryStutters(d: Disk, n: nat, stamp: nat, i: nat, c: Content)
    requires WellFormed(d, n)
    ensures Logical(Put(d, Temporary(stamp, i), c), n) == Logical(d, n)
    ensures Finals(Put(d, Temporary(stamp, i), c), n) == Finals(d, n)
  {
    var e := Put(d, Temporary(stamp, i), c);
    assert forall k: nat :: At(e, Final(k)) == At(d, Final(k));
  }

  lemma RemoveTemporaryStutters(d: Disk, n: nat, stamp: nat, i: nat)
    requires WellFormed(d, n)
    ensures Logical(Removed(d, Temporary(stamp, i)), n) == Logical(d, n)
    ensures Finals(Removed(d, Temporary(stamp, i)), n) == Finals(d, n)
  {
    var e := Removed(d, Temporary(stamp, i));
    assert forall k: nat :: At(e, Final(k)) == At(d, Final(k));
  }

  /** Once settled, anything but a published file may go, in any order, the lock included. */
  lemma RemoveSettledStutters(d: Disk, n: nat, p: Path)
    requires Settled(d, n) && !p.Final?
    ensures Settled(Removed(d, p), n) && Logical(Removed(d, p), n) == Logical(d, n)
  {
    var e := Removed(d, p);
    assert forall k: nat :: At(e, Final(k)) == At(d, Final(k));
    forall k: nat | k < n
      ensures LogicalAt(e, n, k) == LogicalAt(d, n, k) == At(e, Final(k))
    {
      assert Finals(d, n)[k] == Logical(d, n)[k];
    }
  }

  lemma UnlockSettledStutters(d: Disk, n: nat)
    requires Settled(d, n)
    ensures Settled(d.(lock := None), n) && Logical(d.(lock := None), n) == Logical(d, n)
  {
    assert Logical(d.(lock := None), n) == Finals(d, n);
  }

  /** Writing the owner record claims the present files, provided no backup carries its stamp yet. */
  lemma ClaimStutters(d: Disk, n: nat, owner: Owner)
    requires !Pending(d) && d.lock.Some?
    requires |owner.existed| == n && forall i: nat | i < n :: owner.existed[i] == (Final(i) in d.files)
    requires forall i: nat | i < n :: Backup(owner.stamp, i) !in d.files
    ensures var e := d.(lock := Some(Lock(Some(owner), false)));
            Settled(e, n) && Logical(e, n) == Finals(d, n)
  {
    var e := d.(lock := Some(Lock(Some(owner), false)));
    assert forall k: nat | k < n :: LogicalAt(e, n, k) == At(d, Final(k)) == At(e, Final(k));
  }

  /** The recovery directory says nothing about the generation. */
  lemma RecoveryAside(d: Disk, n: nat, r: Option<Recovery>)
    requires WellFormed(d, n)
    ensures var e := d.(recovery := r); WellFormed(e, n) && Logical(e, n) == Logical(d, n)
  {
    var e := d.(recovery := r);
    assert forall k: nat | k < n :: LogicalAt(e, n, k) == LogicalAt(d, n, k);
  }

  lemma EmptyLockStutters(d: Disk, n: nat)
    requires d.lock.None?
    ensures var e := d.(lock := Some(Lock(None, false))); WellFormed(e, n) && Logical(e, n) == Logical(d, n)
  {
    var e := d.(lock := Some(Lock(None, false)));
    assert forall k: nat | k < n :: LogicalAt(e, n, k) == LogicalAt(d, n, k);
  }

  lemma CopyStutters(d: Disk, n: nat, i: nat)
    requires Settled(d, n) && Pending(d) && i < n && d.lock.value.owner.value.existed[i] && Final(i) in d.files
    ensures var e := Put(d, Backup(d.lock.value.owner.value.stamp, i), d.files[Final(i)]);
            Settled(e, n) && Logical(e, n) == Logical(d, n)
  {
    var e := Put(d, Backup(d.lock.value.owner.value.stamp, i), d.files[Final(i)]);
    forall k: nat | k < n
      ensures LogicalAt(e, n, k) == LogicalAt(d, n, k) == At(e, Final(k))
    {
      assert Finals(d, n)[k] == Logical(d, n)[k];
    }
  }

  /** Replacing a published file keeps the generation when its backup is there. */
  lemma ReplaceStutters(d: Disk, n: nat, i: nat)
    requires WellFormed(d, n) && Pending(d) && i < n
    requires var owner := d.lock.value.owner.value;
             Temporary(owner.stamp, i) in d.files && (owner.existed[i] ==> Backup(owner.stamp, i) in d.files)
    ensures Logical(Renamed(d, Temporary(d.lock.value.owner.value.stamp, i), Final(i)), n) == Logical(d, n)
  {
    var e := Renamed(d, Temporary(d.lock.value.owner.value.stamp, i), Final(i));
    assert forall k: nat | k < n :: LogicalAt(e, n, k) == LogicalAt(d, n, k);
  }

  /** Moving a backup home keeps the generation exactly when no commit marker is there, or it would put
      back what the path already holds. */
  lemma RestoreStutters(d: Disk, n: nat, i: nat)
    requires WellFormed(d, n) && d.lock.Some? && d.lock.value.owner.Some? && i < n
    requires d.lock.value.owner.value.existed[i] && Backup(d.lock.value.owner.value.stamp, i) in d.files
    ensures var b := Backup(d.lock.value.owner.value.stamp, i);
            Logical(Renamed(d, b, Final(i)), n) == Logical(d, n)
            <==> !d.lock.value.committed || At(d, Final(i)) == At(d, b)
  {
    var b := Backup(d.lock.value.owner.value.stamp, i);
    var e := Renamed(d, b, Final(i));
    assert forall k: nat | k < n && k != i :: LogicalAt(e, n, k) == LogicalAt(d, n, k);
    assert Logical(e, n)[i] == LogicalAt(e, n, i) && Logical(d, n)[i] == LogicalAt(d, n, i);
  }

  /** Removing a file the attempt created keeps the generation. */
  lemma UncreateStutters(d: Disk, n: nat, i: nat)
    requires WellFormed(d, n) && Pending(d) && i < n && !d.lock.value.owner.value.existed[i]
    ensures Logical(Removed(d, Final(i)), n) == Logical(d, n)
  {
    var e := Removed(d, Final(i));
    assert forall k: nat | k < n :: LogicalAt(e, n, k) == LogicalAt(d, n, k);
  }

  /** The commit marker is the one call that changes the generation, to all the new files at once. */
  lemma CommitSwitches(d: Disk, n: nat)
    requires WellFormed(d, n) && d.lock.Some?
    ensures var e := d.(lock := Some(d.lock.value.(committed := true)));
            Settled(e, n) && Logical(e, n) == Finals(d, n)
  {
    var e := d.(lock := Some(d.lock.value.(committed := true)));
    assert forall k: nat | k < n :: LogicalAt(e, n, k) == At(d, Final(k)) == At(e, Final(k));
  }

  // ---------------------------------------------------------------- processes

  /** What becomes of one file-system call: it takes effect, it fails without effect, or the process
      dies before it. */
  datatype Outcome = Done | Failed | Died

  datatype Target = File(path: Path) | LockDirectory

  /** The clean-up of an attempt: its temporaries and backups. */
  function Leftovers(stamp: nat, n: nat): set<Target> {
    (set i: nat | 0 <= i < n :: File(Temporary(stamp, i))) + (set i: nat | 0 <= i < n :: File(Backup(stamp, i)))
  }

  /** Every temporary and backup carries one of these stamps. */
  ghost predicate StampsWithin(d: Disk, stamps: set<nat>) {
    forall p | p in d.files && !p.Final? :: p.stamp in stamps
  }

  ghost predicate OnlyFinalsAdded(d: Disk, e: Disk) {
    forall p | p in e.files :: p in d.files || p.Final?
  }

  /** Whether an undisturbed process gets the lock. `sees` tells whether the runtime's file-existence
      test is true of a directory. */
  predicate CanAcquire(d: Disk, alive: nat -> bool, initializing: bool, sees: bool) {
    && (d.recovery.Some? ==>
          if sees then d.recovery.value.pid.Some? ==> !alive(d.recovery.value.pid.value) else d.lock.None?)
    && (d.lock.Some? ==>
          if d.lock.value.owner.Some? then !alive(d.lock.value.owner.value.pid) else !initializing)
  }

  class Workspace {
    const n: nat
    var disk: Disk
    /** The fate of the k-th file-system call. */
    const schedule: nat -> Outcome
    var calls: nat

    constructor (n: nat, disk: Disk, schedule: nat -> Outcome)
      ensures this.n == n && this.disk == disk && this.schedule == schedule && calls == 0
    {
      this.n, this.disk, this.schedule, calls := n, disk, schedule, 0;
    }

    method Call() returns (o: Outcome)
      modifies this`calls
      ensures o == schedule(old(calls)) && calls == old(calls) + 1
    {
      o := schedule(calls);
      calls := calls + 1;
    }

    ghost predicate Undisturbed(from: nat) {
      forall k: nat | k >= from :: schedule(k).Done?
    }

    ghost predicate DoneThenFailed(from: nat) {
      schedule(from).Done? && schedule(from + 1).Failed?
    }

    /** At most one call fails from here on, and the process survives. */
    ghost predicate FailsOnce(from: nat) {
      && (forall k: nat | k >= from :: !schedule(k).Died?)
      && (forall j: nat, k: nat | from <= j < k :: !(schedule(j).Failed? && schedule(k).Failed?))
    }

    ghost predicate Gone(targets: set<Target>)
      reads this
    {
      forall t | t in targets :: if t.File? then t.path !in disk.files else disk.lock.None?
    }

    /** No temporary and no backup of an attempt. */
    ghost predicate NothingLeft(stamp: nat)
      reads this
    {
      forall i: nat | i < n :: Temporary(stamp, i) !in disk.files && Backup(stamp, i) !in disk.files
    }

    lemma LeftoversGone(stamp: nat)
      requires Gone(Leftovers(stamp, n))
      ensures NothingLeft(stamp)
    {
      forall i: nat | i < n
        ensures Temporary(stamp, i) !in disk.files && Backup(stamp, i) !in disk.files
      {
        assert File(Temporary(stamp, i)) in Leftovers(stamp, n) && File(Backup(stamp, i)) in Leftovers(stamp, n);
      }
    }

    /** Promise.all over removals: every one is tried, in any order, and one failure fails the whole. */
    method Clean(targets: set<Target>) returns (o: Outcome)
      requires Settled(disk, n) && forall t | t in targets && t.File? :: !t.path.Final?
      modifies this`disk, this`calls
      ensures Settled(disk, n) && Logical(disk, n) == old(Logical(disk, n))
      ensures disk.files.Keys <= old(disk.files.Keys) && disk.recovery == old(disk.recovery)
      ensures disk.lock == old(disk.lock) || (LockDirectory in targets && disk.lock.None?)
      ensures o.Done? ==> Gone(targets)
      ensures calls >= old(calls) && (old(Undisturbed(calls)) ==> o.Done?)
      ensures old(FailsOnce(calls)) ==> !o.Died? && (o.Failed? ==> Undisturbed(calls))
      ensures schedule(old(calls)).Died? ==> disk == old(disk) && (o.Died? || (o.Done? && calls == old(calls)))
    {
      o := Done;
      var todo := targets;
      while todo != {}
        invariant todo <= targets && calls >= old(calls) && !o.Died?
        invariant Settled(disk, n) && Logical(disk, n) == old(Logical(disk, n))
        invariant disk.files.Keys <= old(disk.files.Keys) && disk.recovery == old(disk.recovery)
        invariant disk.lock == old(disk.lock) || (LockDirectory in targets && disk.lock.None?)
        invariant o.Done? ==> Gone(targets - todo)
        invariant old(Undisturbed(calls)) ==> o.Done?
        invariant old(FailsOnce(calls)) && o.Failed? ==> Undisturbed(calls)
        invariant schedule(old(calls)).Died? ==> disk == old(disk) && calls == old(calls) && o.Done?
        decreases todo
      {
        var t :| t in todo;
        todo := todo - {t};
        var c := Call();
        if c.Died? { return c; }
        if c.Failed? {
          o := c;
        } else if t.File? {
          RemoveSettledStutters(disk, n, t.path);
          disk := Removed(disk, t.path);
        } else {
          UnlockSettledStutters(disk, n);
          disk := disk.(lock := None);
        }
      }
    }

    ghost predicate DoneFor(from: nat, count: nat) {
      forall k: nat | from <= k < from + count :: schedule(k).Done?
    }

    /** A dead process holds the lock, and no recovery is under way. */
    ghost predicate Recoverable(alive: nat -> bool)
      reads this
    {
      && disk.lock.Some? && disk.lock.value.owner.Some? && !alive(disk.lock.value.owner.value.pid)
      && disk.recovery.None?
    }

    /** Nothing is left of the attempt whose lock was on a disk. */
    ghost predicate Swept(d: Disk)
      reads this
    {
      d.lock.Some? && d.lock.value.owner.Some? ==> NothingLeft(d.lock.value.owner.value.stamp)
    }

    /** Put one published file back: from its backup if there is one, away if the attempt created it. */
    method RestoreFile(stale: Owner, index: nat) returns (o: Outcome)
      requires WellFormed(disk, n) && Pending(disk) && disk.lock.value.owner == Some(stale) && index < n
      modifies this`disk, this`calls
      ensures WellFormed(disk, n) && Logical(disk, n) == old(Logical(disk, n))
      ensures disk.recovery == old(disk.recovery) && disk.lock == old(disk.lock)
      ensures forall p | p != Final(index) && p != Backup(stale.stamp, index) :: At(disk, p) == At(old(disk), p)
      ensures Backup(stale.stamp, index) in disk.files ==> Backup(stale.stamp, index) in old(disk).files
      ensures o.Done? ==> At(disk, Final(index)) == LogicalAt(disk, n, index)
      ensures o.Done? && stale.existed[index] ==> Backup(stale.stamp, index) !in disk.files
      ensures (o.Done? && calls == old(calls)) || (o == schedule(old(calls)) && calls == old(calls) + 1)
      ensures !o.Done? || calls == old(calls) ==> disk == old(disk)
    {
      var backup := Backup(stale.stamp, index);
      o := Done;
      if stale.existed[index] && backup in disk.files {
        o := Call();
        if !o.Done? { return; }
        RestoreStutters(disk, n, index);
        disk := Renamed(disk, backup, Final(index));
      } else if !stale.existed[index] {
        o := Call();
        if !o.Done? { return; }
        UncreateStutters(disk, n, index);
        disk := Removed(disk, Final(index));
      }
    }

    /** Roll an interrupted attempt back, file by file. */
    method RestoreFiles(stale: Owner) returns (o: Outcome)
      requires WellFormed(disk, n) && Pending(disk) && disk.lock.value.owner == Some(stale)
      modifies this`disk, this`calls
      ensures WellFormed(disk, n) && Logical(disk, n) == old(Logical(disk, n))
      ensures disk.recovery == old(disk.recovery) && disk.lock == old(disk.lock)
      ensures OnlyFinalsAdded(old(disk), disk)
      ensures o.Done? ==> Settled(disk, n)
      ensures calls >= old(calls) && (old(Undisturbed(calls)) ==> o.Done?)
      ensures old(FailsOnce(calls)) ==> !o.Died? && (o.Failed? ==> Undisturbed(calls))
      ensures schedule(old(calls)).Died? ==> disk == old(disk) && (o.Died? || (o.Done? && calls == old(calls)))
    {
      for index := 0 to n
        invariant schedule(old(calls)).Died? ==> disk == old(disk) && calls == old(calls)
        invariant WellFormed(disk, n) && Logical(disk, n) == old(Logical(disk, n))
        invariant disk.lock == old(disk.lock) && disk.recovery == old(disk.recovery) && calls >= old(calls)
        invariant OnlyFinalsAdded(old(disk), disk)
        invariant forall i: nat | i < index :: At(disk, Final(i)) == Logical(disk, n)[i]
      {
        ghost var before := disk;
        o := RestoreFile(stale, index);
        assert forall p :: p in disk.files <==> At(disk, p).Some?;
        assert forall p :: p in before.files <==> At(before, p).Some?;
        if !o.Done? { return; }
        assert forall i: nat | i < index :: At(disk, Final(i)) == At(before, Final(i));
      }
      o := Done;
    }

    /** The recovery of an interrupted attempt, inside the recovery directory. */
    method Recover() returns (o: Outcome)
      requires WellFormed(disk, n) && disk.lock.Some?
      modifies this`disk, this`calls
      ensures WellFormed(disk, n) && Logical(disk, n) == old(Logical(disk, n))
      ensures disk.recovery == old(disk.recovery) && OnlyFinalsAdded(old(disk), disk)
      ensures o.Done? ==> disk.lock == Some(Lock(None, false)) && Swept(old(disk))
      ensures calls >= old(calls) && (old(Undisturbed(calls)) ==> o.Done?)
      ensures old(FailsOnce(calls)) ==> !o.Died? && (o.Failed? ==> Undisturbed(calls))
      ensures schedule(old(calls)).Died? ==> o.Died? && disk == old(disk)
    {
      var stale := disk.lock.value.owner;
      if stale.Some? && !disk.lock.value.committed {
        o := RestoreFiles(stale.value);
        if !o.Done? { return; }
      }
      assert Settled(disk, n);
      if stale.Some? {
        o := Clean(Leftovers(stale.value.stamp, n));
        if !o.Done? { return; }
        LeftoversGone(stale.value.stamp);
      }
      o := Call();
      if !o.Done? { return; }
      UnlockSettledStutters(disk, n);
      disk := disk.(lock := None);
      o := Call();
      if !o.Done? { return; }
      disk := disk.(lock := Some(Lock(None, false)));
      assert Logical(disk, n) == Finals(disk, n);
    }

    /** acquirePublicationLock: take the lock, recovering an interrupted attempt first. It succeeds
        undisturbed exactly when CanAcquire, and then the published files hold the generation the disk
        stood for. */
    method Acquire(pid: nat, stamp: nat, alive: nat -> bool, initializing: bool, sees: bool)
      returns (o: Outcome, existed: seq<bool>)
      requires WellFormed(disk, n) && forall i: nat | i < n :: Backup(stamp, i) !in disk.files
      modifies this`disk, this`calls
      ensures WellFormed(disk, n) && Logical(disk, n) == old(Logical(disk, n))
      ensures OnlyFinalsAdded(old(disk), disk) && calls >= old(calls)
      ensures o.Done? ==> Settled(disk, n) && disk.lock == Some(Lock(Some(Owner(pid, stamp, existed)), false))
      ensures o.Done? ==> |existed| == n && forall i: nat | i < n :: existed[i] == (Final(i) in disk.files)
      ensures o.Done? ==> Swept(old(disk))
      ensures o.Done? && (sees || old(disk).recovery.None? || old(disk).lock.Some?) ==> disk.recovery.None?
      ensures old(Undisturbed(calls)) ==> (o.Done? <==> CanAcquire(old(disk), alive, initializing, sees))
      ensures old(disk).lock.None? && old(disk).recovery.None? && old(DoneFor(calls, 2)) ==>
        o.Done? && calls == old(calls) + 2 && disk.recovery.None?
      ensures old(disk).lock.None? && old(disk).recovery.None? && schedule(old(calls)).Failed? ==>
        o.Failed? && disk == old(disk)
      ensures old(disk).lock.None? && old(disk).recovery.None? && old(DoneThenFailed(calls)) ==>
        o.Failed? && disk == old(disk).(lock := Some(Lock(None, false)))
      ensures old(Recoverable(alive)) && old(DoneFor(calls, 3)) && schedule(old(calls) + 3).Died? ==>
        o.Died? && disk == old(disk).(recovery := Some(Recovery(Some(pid))))
      ensures !sees && old(disk).lock.Some? && old(disk).recovery.Some? ==> !o.Done? && disk == old(disk)
    {
      hide CanAcquire, Settled, Recoverable;
      existed := [];
      o := Enter(pid, alive, initializing, sees);
      if !o.Done? { return; }
      o, existed := Claim(pid, stamp);
    }

    /** Up to the empty lock directory. */
    method Enter(pid: nat, alive: nat -> bool, initializing: bool, sees: bool) returns (o: Outcome)
      requires WellFormed(disk, n)
      modifies this`disk, this`calls
      ensures WellFormed(disk, n) && Logical(disk, n) == old(Logical(disk, n))
      ensures OnlyFinalsAdded(old(disk), disk) && calls >= old(calls)
      ensures o.Done? ==> disk.lock == Some(Lock(None, false)) && Swept(old(disk))
      ensures o.Done? && (sees || old(disk).recovery.None? || old(disk).lock.Some?) ==> disk.recovery.None?
      ensures old(Undisturbed(calls)) ==> (o.Done? <==> CanAcquire(old(disk), alive, initializing, sees))
      ensures old(disk).lock.None? && old(disk).recovery.None? && schedule(old(calls)).Done? ==>
        o.Done? && calls == old(calls) + 1 && disk == old(disk).(lock := Some(Lock(None, false)))
      ensures old(disk).lock.None? && old(disk).recovery.None? && schedule(old(calls)).Failed? ==>
        o.Failed? && disk == old(disk)
      ensures old(Recoverable(alive)) && old(DoneFor(calls, 3)) && schedule(old(calls) + 3).Died? ==>
        o.Died? && disk == old(disk).(recovery := Some(Recovery(Some(pid))))
      ensures !sees && old(disk).lock.Some? && old(disk).recovery.Some? ==> !o.Done? && disk == old(disk)
    {
      hide Logical;
      if disk.recovery.Some? && sees {
        if disk.recovery.value.pid.Some? && alive(disk.recovery.value.pid.value) { return Failed; }
        o := Call();
        if !o.Done? { return; }
        RecoveryAside(disk, n, None);
        disk := disk.(recovery := None);
      }
      o := Call();
      if o.Died? || (o.Failed? && disk.lock.None?) { return; }
      if disk.lock.None? {
        EmptyLockStutters(disk, n);
        disk := disk.(lock := Some(Lock(None, false)));
      } else {
        o := TakeOver(pid, alive, initializing);
      }
    }

    /** The owner record, with which of the published files exist. */
    method Claim(pid: nat, stamp: nat) returns (o: Outcome, existed: seq<bool>)
      requires disk.lock == Some(Lock(None, false)) && forall i: nat | i < n :: Backup(stamp, i) !in disk.files
      modifies this`disk, this`calls
      ensures WellFormed(disk, n) && Logical(disk, n) == old(Logical(disk, n))
      ensures disk.files == old(disk.files) && disk.recovery == old(disk.recovery) && (!o.Done? ==> disk == old(disk))
      ensures o == schedule(old(calls)) && calls == old(calls) + 1
      ensures o.Done? ==> Settled(disk, n) && disk.lock == Some(Lock(Some(Owner(pid, stamp, existed)), false))
      ensures o.Done? ==> |existed| == n && forall i: nat | i < n :: existed[i] == (Final(i) in disk.files)
    {
      var d := disk;
      existed := seq(n, i requires 0 <= i < n => Final(i) in d.files);
      o := Call();
      if !o.Done? { return; }
      ClaimStutters(disk, n, Owner(pid, stamp, existed));
      assert Logical(disk, n) == Finals(disk, n);
      disk := disk.(lock := Some(Lock(Some(Owner(pid, stamp, existed)), false)));
    }

    /** The recovery directory around a recovery. */
    method TakeOver(pid: nat, alive: nat -> bool, initializing: bool) returns (o: Outcome)
      requires WellFormed(disk, n) && disk.lock.Some?
      modifies this`disk, this`calls
      ensures WellFormed(disk, n) && Logical(disk, n) == old(Logical(disk, n))
      ensures OnlyFinalsAdded(old(disk), disk) && calls >= old(calls)
      ensures o.Done? ==> disk.lock == Some(Lock(None, false)) && disk.recovery.None? && Swept(old(disk))
      ensures old(FailsOnce(calls)) && disk.recovery == Some(Recovery(Some(pid))) && old(disk).recovery.None? ==>
        disk.lock == Some(Lock(None, false))
      ensures old(Undisturbed(calls)) ==>
                (o.Done? <==>
                   && old(disk).recovery.None?
                   && if old(disk).lock.value.owner.Some? then !alive(old(disk).lock.value.owner.value.pid) else !initializing)
      ensures old(Recoverable(alive)) && old(DoneFor(calls, 2)) && schedule(old(calls) + 2).Died? ==>
        o.Died? && disk == old(disk).(recovery := Some(Recovery(Some(pid))))
      ensures old(disk).recovery.Some? ==> !o.Done? && disk == old(disk)
    {
      hide Logical;
      var owner := disk.lock.value.owner;
      if owner.Some? && alive(owner.value.pid) { return Failed; }
      if owner.None? && initializing { return Failed; }
      o := Call();
      if !o.Done? { return; }
      if disk.recovery.Some? { return Failed; }
      RecoveryAside(disk, n, Some(Recovery(None)));
      disk := disk.(recovery := Some(Recovery(None)));
      o := Call();
      if !o.Done? { return; }
      RecoveryAside(disk, n, Some(Recovery(Some(pid))));
      disk := disk.(recovery := Some(Recovery(Some(pid))));
      o := Recover();
      if o.Died? { return; }
      var c := Call();
      if !c.Done? { return c; }
      RecoveryAside(disk, n, None);
      disk := disk.(recovery := None);
    }

    /** The attempt's own lock, before its commit marker. */
    ghost predicate Claimed(owner: Owner)
      reads this
    {
      |owner.existed| == n && disk.lock == Some(Lock(Some(owner), false))
    }

    /** The attempt has not touched the published files yet. */
    ghost predicate Untouched(owner: Owner)
      reads this
    {
      Settled(disk, n) && |owner.existed| == n && forall i: nat | i < n :: owner.existed[i] == (Final(i) in disk.files)
    }

    ghost predicate Prepared(stamp: nat, texts: seq<Content>, from: nat)
      requires |texts| == n
      reads this
    {
      forall i: nat | from <= i < n :: At(disk, Temporary(stamp, i)) == Some(texts[i])
    }

    ghost predicate BackedUp(owner: Owner)
      requires |owner.existed| == n
      reads this
    {
      forall i: nat | i < n && owner.existed[i] :: Backup(owner.stamp, i) in disk.files
    }

    ghost predicate OnlyStampAdded(d: Disk, stamp: nat)
      reads this
    {
      forall p | p in disk.files :: p in d.files || p.Final? || p.stamp == stamp
    }

    method WriteTemporaries(owner: Owner, texts: seq<Content>) returns (o: Outcome)
      requires Claimed(owner) && Untouched(owner) && |texts| == n
      modifies this`disk, this`calls
      ensures Claimed(owner) && Untouched(owner) && Logical(disk, n) == old(Logical(disk, n)) && disk.recovery == old(disk.recovery)
      ensures OnlyStampAdded(old(disk), owner.stamp) && calls >= old(calls) && (old(Undisturbed(calls)) ==> o.Done?)
      ensures o.Done? ==> Prepared(owner.stamp, texts, 0)
      ensures old(FailsOnce(calls)) ==> !o.Died? && (o.Failed? ==> Undisturbed(calls))
      ensures schedule(old(calls)).Died? ==> disk == old(disk) && (o.Died? || (o.Done? && calls == old(calls)))
    {
      for i := 0 to n
        invariant schedule(old(calls)).Died? ==> disk == old(disk) && calls == old(calls)
        invariant Claimed(owner) && Untouched(owner) && Logical(disk, n) == old(Logical(disk, n)) && disk.recovery == old(disk.recovery)
        invariant OnlyStampAdded(old(disk), owner.stamp) && calls >= old(calls)
        invariant forall k: nat | k < i :: At(disk, Temporary(owner.stamp, k)) == Some(texts[k])
      {
        o := Call();
        if !o.Done? { return; }
        PutTemporaryStutters(disk, n, owner.stamp, i, texts[i]);
        disk := Put(disk, Temporary(owner.stamp, i), texts[i]);
      }
      o := Done;
    }

    /** Promise.all over copies: any order, a failure fails the whole. */
    method CopyBackups(owner: Owner, texts: seq<Content>) returns (o: Outcome)
      requires Claimed(owner) && Untouched(owner) && |texts| == n && Prepared(owner.stamp, texts, 0)
      modifies this`disk, this`calls
      ensures Claimed(owner) && Untouched(owner) && Logical(disk, n) == old(Logical(disk, n)) && disk.recovery == old(disk.recovery)
      ensures Prepared(owner.stamp, texts, 0)
      ensures OnlyStampAdded(old(disk), owner.stamp) && calls >= old(calls) && (old(Undisturbed(calls)) ==> o.Done?)
      ensures o.Done? ==> BackedUp(owner)
      ensures old(FailsOnce(calls)) ==> !o.Died? && (o.Failed? ==> Undisturbed(calls))
      ensures schedule(old(calls)).Died? ==> disk == old(disk) && (o.Died? || (o.Done? && calls == old(calls)))
    {
      o := Done;
      var todo := set i: nat | 0 <= i < n && owner.existed[i];
      while todo != {}
        invariant Claimed(owner) && Untouched(owner) && Logical(disk, n) == old(Logical(disk, n)) && disk.recovery == old(disk.recovery)
        invariant Prepared(owner.stamp, texts, 0)
        invariant OnlyStampAdded(old(disk), owner.stamp) && calls >= old(calls) && !o.Died?
        invariant forall i | i in todo :: i < n && owner.existed[i]
        invariant o.Done? ==> forall i: nat | i < n && owner.existed[i] && i !in todo :: Backup(owner.stamp, i) in disk.files
        invariant old(Undisturbed(calls)) ==> o.Done?
        invariant old(FailsOnce(calls)) && o.Failed? ==> Undisturbed(calls)
        invariant schedule(old(calls)).Died? ==> disk == old(disk) && calls == old(calls) && o.Done?
        decreases todo
      {
        var i :| i in todo;
        todo := todo - {i};
        var c := Call();
        if c.Died? { return c; }
        if c.Failed? || Final(i) !in disk.files {
          o := Failed;
        } else {
          CopyStutters(disk, n, i);
          disk := Put(disk, Backup(owner.stamp, i), disk.files[Final(i)]);
        }
      }
    }

    /** The renames and the commit marker. */
    method Replace(owner: Owner, texts: seq<Content>) returns (o: Outcome, marked: bool)
      requires WellFormed(disk, n) && Claimed(owner) && |texts| == n
      requires Prepared(owner.stamp, texts, 0) && BackedUp(owner)
      modifies this`disk, this`calls
      ensures WellFormed(disk, n) && calls >= old(calls) && (old(Undisturbed(calls)) ==> o.Done?)
      ensures OnlyStampAdded(old(disk), owner.stamp) && marked == o.Done? && disk.recovery == old(disk.recovery)
      ensures marked ==> Settled(disk, n) && Logical(disk, n) == Published(texts)
      ensures !marked ==> Claimed(owner) && BackedUp(owner) && Logical(disk, n) == old(Logical(disk, n))
      ensures old(FailsOnce(calls)) ==> !o.Died? && (o.Failed? ==> Undisturbed(calls))
      ensures schedule(old(calls)).Died? ==> o.Died? && disk == old(disk)
    {
      marked := false;
      for i := 0 to n
        invariant schedule(old(calls)).Died? ==> disk == old(disk) && calls == old(calls)
        invariant WellFormed(disk, n) && Claimed(owner) && BackedUp(owner) && calls >= old(calls)
        invariant OnlyStampAdded(old(disk), owner.stamp) && Logical(disk, n) == old(Logical(disk, n)) && disk.recovery == old(disk.recovery)
        invariant Prepared(owner.stamp, texts, i)
        invariant forall k: nat | k < i :: At(disk, Final(k)) == Some(texts[k])
      {
        o := Call();
        if !o.Done? { return; }
        ReplaceStutters(disk, n, i);
        disk := Renamed(disk, Temporary(owner.stamp, i), Final(i));
      }
      o := Call();
      if !o.Done? { return; }
      CommitSwitches(disk, n);
      assert Finals(disk, n) == Published(texts);
      disk := disk.(lock := Some(disk.lock.value.(committed := true)));
      marked := true;
    }

    /** Promise.allSettled over restores: any order, every one is tried. */
    method RollBack(owner: Owner) returns (o: Outcome)
      requires WellFormed(disk, n) && Claimed(owner) && BackedUp(owner)
      modifies this`disk, this`calls
      ensures WellFormed(disk, n) && calls >= old(calls) && Claimed(owner)
      ensures Logical(disk, n) == old(Logical(disk, n)) && OnlyFinalsAdded(old(disk), disk)
      ensures disk.recovery == old(disk.recovery) && (o.Done? ==> Settled(disk, n))
      ensures old(Undisturbed(calls)) ==> o.Done?
    {
      o := Done;
      ghost var kept := Logical(disk, n);
      var todo := set i: nat | 0 <= i < n :: Final(i);
      while todo != {}
        invariant WellFormed(disk, n) && calls >= old(calls) && Claimed(owner) && !o.Died?
        invariant Logical(disk, n) == kept && OnlyFinalsAdded(old(disk), disk) && disk.recovery == old(disk.recovery)
        invariant forall p | p in todo :: p.Final? && p.i < n && (owner.existed[p.i] ==> Backup(owner.stamp, p.i) in disk.files)
        invariant o.Done? ==> forall i: nat | i < n && Final(i) !in todo :: At(disk, Final(i)) == kept[i]
        invariant old(Undisturbed(calls)) ==> o.Done?
        decreases todo
      {
        var p :| p in todo;
        todo := todo - {p};
        var c := Call();
        if c.Died? { return c; }
        if c.Failed? {
          o := Failed;
        } else if owner.existed[p.i] {
          RestoreStutters(disk, n, p.i);
          assert kept[p.i] == LogicalAt(disk, n, p.i);
          disk := Renamed(disk, Backup(owner.stamp, p.i), p);
        } else {
          UncreateStutters(disk, n, p.i);
          assert kept[p.i] == LogicalAt(disk, n, p.i);
          disk := Removed(disk, p);
        }
      }
      if o.Done? {
        assert forall i: nat | i < n :: Finals(disk, n)[i] == kept[i];
      }
    }

    /** After a failed roll-back only the temporaries go; lock and backups stay for a later recovery. */
    method CleanTemporaries(owner: Owner) returns (o: Outcome)
      requires WellFormed(disk, n)
      modifies this`disk, this`calls
      ensures WellFormed(disk, n) && calls >= old(calls) && disk.lock == old(disk.lock) && disk.recovery == old(disk.recovery)
      ensures Logical(disk, n) == old(Logical(disk, n)) && OnlyFinalsAdded(old(disk), disk)
      ensures o.Done? ==> forall i: nat | i < n :: Temporary(owner.stamp, i) !in disk.files
    {
      o := Done;
      for i := 0 to n
        invariant o.Done? ==> forall k: nat | k < i :: Temporary(owner.stamp, k) !in disk.files
        invariant WellFormed(disk, n) && calls >= old(calls) && disk.lock == old(disk.lock) && disk.recovery == old(disk.recovery)
        invariant Logical(disk, n) == old(Logical(disk, n)) && OnlyFinalsAdded(old(disk), disk)
      {
        var c := Call();
        if c.Died? { return c; }
        if c.Failed? {
          o := Failed;
        } else {
          RemoveTemporaryStutters(disk, n, owner.stamp, i);
          disk := Removed(disk, Temporary(owner.stamp, i));
        }
      }
    }

    /** publishEvidence under its lock. Whatever call fails or is the last, the disk stands for the new
        files once the marker was written and for the generation before the attempt until then. */
    method PublishLocked(owner: Owner, texts: seq<Content>) returns (o: Outcome, marked: bool)
      requires Claimed(owner) && Untouched(owner) && |texts| == n
      modifies this`disk, this`calls
      ensures WellFormed(disk, n) && calls >= old(calls) && OnlyStampAdded(old(disk), owner.stamp) && disk.recovery == old(disk.recovery)
      ensures Logical(disk, n) == if marked then Published(texts) else old(Logical(disk, n))
      ensures o.Done? ==> marked && disk.lock.None? && Finals(disk, n) == Published(texts)
      ensures o.Done? ==> NothingLeft(owner.stamp)
      ensures o.Failed? ==> Settled(disk, n) || Claimed(owner)
      ensures old(FailsOnce(calls)) && !marked ==>
        o.Failed? && disk.lock.None? && NothingLeft(owner.stamp) && Finals(disk, n) == old(Logical(disk, n))
      ensures old(Undisturbed(calls)) ==> o.Done?
      ensures schedule(old(calls)).Died? ==> o.Died? && !marked && disk == old(disk)
    {
      marked := false;
      o := WriteTemporaries(owner, texts);
      if o.Died? { return; }
      if o.Done? {
        o := CopyBackups(owner, texts);
        if o.Died? { return; }
      }
      if o.Done? {
        o, marked := Replace(owner, texts);
        if o.Died? { return; }
        if o.Failed? {
          var restored := RollBack(owner);
          if restored.Died? { return restored, marked; }
          if restored.Failed? {
            var cleaned := CleanTemporaries(owner);
            return if cleaned.Died? then Died else Failed, marked;
          }
        }
      }
      var cleaned := Clean(Leftovers(owner.stamp, n) + {LockDirectory});
      if !cleaned.Done? {
        o := cleaned;
      } else {
        assert Gone(Leftovers(owner.stamp, n));
        LeftoversGone(owner.stamp);
      }
    }

    /** publishEvidence: one attempt by one process. */
    method Publish(pid: nat, stamp: nat, texts: seq<Content>, alive: nat -> bool, initializing: bool, sees: bool)
      returns (o: Outcome, marked: bool)
      requires WellFormed(disk, n) && |texts| == n && forall i: nat | i < n :: Backup(stamp, i) !in disk.files
      modifies this`disk, this`calls
      ensures WellFormed(disk, n) && OnlyStampAdded(old(disk), stamp) && calls >= old(calls)
      ensures Logical(disk, n) == if marked then Published(texts) else old(Logical(disk, n))
      ensures o.Done? ==> marked && disk.lock.None? && Finals(disk, n) == Published(texts)
      ensures o.Done? ==> NothingLeft(stamp) && Swept(old(disk))
      ensures o.Done? && (sees || old(disk).recovery.None? || old(disk).lock.Some?) ==> disk.recovery.None?
      ensures old(FailsOnce(calls)) && old(disk).lock.None? && old(disk).recovery.None? && !marked ==>
        && o.Failed? && disk.recovery.None? && Finals(disk, n) == old(Finals(disk, n))
        && (disk.lock.None? || (disk.lock == Some(Lock(None, false)) && old(DoneThenFailed(calls))))
        && (old(DoneFor(calls, 2)) ==> NothingLeft(stamp))
      ensures old(Undisturbed(calls)) ==> (o.Done? <==> CanAcquire(old(disk), alive, initializing, sees))
      ensures old(disk).lock.None? && old(disk).recovery.None? && old(DoneFor(calls, 2)) && schedule(old(calls) + 2).Died? ==>
        o.Died? && !marked && disk.lock.Some? && disk.lock.value.owner.Some? && disk.lock.value.owner.value.pid == pid
        && disk.recovery.None?
      ensures old(Recoverable(alive)) && old(DoneFor(calls, 3)) && schedule(old(calls) + 3).Died? ==>
        o.Died? && disk == old(disk).(recovery := Some(Recovery(Some(pid))))
      ensures !sees && old(disk).lock.Some? && old(disk).recovery.Some? ==> !o.Done? && !marked && disk == old(disk)
    {
      marked := false;
      var existed;
      o, existed := Acquire(pid, stamp, alive, initializing, sees);
      if !o.Done? { return; }
      o, marked := PublishLocked(Owner(pid, stamp, existed), texts);
    }
  }

  // ---------------------------------------------------------------- any history of attempts

  datatype Attempt = Attempt(pid: nat, stamp: nat, texts: seq<Content>, alive: nat -> bool, initializing: bool, sees: bool)

  /** The last marked attempt decides what the disk stands for. */
  ghost function Newest(first: Generation, attempts: seq<Attempt>, marks: seq<bool>): Generation
    requires |attempts| == |marks|
  {
    if attempts == [] then first
    else
      var k := |attempts| - 1;
      if marks[k] then Published(attempts[k].texts) else Newest(first, attempts[..k], marks[..k])
  }

  /** Over any history of publishers, each interrupted at any call or failing at any calls: the disk
      stands for the files of the last attempt that wrote its commit marker, and once a further process
      gets the lock the published paths hold exactly those files. Undisturbed it gets the lock exactly when the disk
      left to it allows, so always when nobody is alive and the existence test is true of directories. */
  method History(w: Workspace, attempts: seq<Attempt>, last: Attempt)
    returns (marks: seq<bool>, left: Disk, start: nat, o: Outcome)
    requires WellFormed(w.disk, w.n) && forall p | p in w.disk.files :: p.Final?
    requires forall k | 0 <= k < |attempts| :: |attempts[k].texts| == w.n && attempts[k].stamp != last.stamp
    requires forall j, k | 0 <= j < k < |attempts| :: attempts[j].stamp != attempts[k].stamp
    modifies w`disk, w`calls
    ensures WellFormed(w.disk, w.n) && |marks| == |attempts|
    ensures Logical(w.disk, w.n) == Newest(old(Logical(w.disk, w.n)), attempts, marks)
    ensures o.Done? ==> Finals(w.disk, w.n) == Newest(old(Logical(w.disk, w.n)), attempts, marks)
    ensures w.Undisturbed(start) ==> (o.Done? <==> CanAcquire(left, last.alive, last.initializing, last.sees))
    ensures w.Undisturbed(start) && last.sees && !last.initializing && (forall pid :: !last.alive(pid)) ==> o.Done?
  {
    marks := [];
    for k := 0 to |attempts|
      invariant WellFormed(w.disk, w.n) && |marks| == k
      invariant StampsWithin(w.disk, set j | 0 <= j < k :: attempts[j].stamp)
      invariant Logical(w.disk, w.n) == Newest(old(Logical(w.disk, w.n)), attempts[..k], marks)
    {
      var a := attempts[k];
      var marked;
      o, marked := w.Publish(a.pid, a.stamp, a.texts, a.alive, a.initializing, a.sees);
      assert attempts[..k + 1][..k] == attempts[..k] && (marks + [marked])[..k] == marks;
      marks := marks + [marked];
    }
    assert attempts[..|attempts|] == attempts;
    left, start := w.disk, w.calls;
    var existed;
    o, existed := w.Acquire(last.pid, last.stamp, last.alive, last.initializing, last.sees);
  }

  /** Undisturbed attempts one after another, from any disk that the first one can lock: all succeed, whoever is still
      alive, the last one's files are published, and neither lock nor recovery directory is left. */
  method InTurn(w: Workspace, attempts: seq<Attempt>) returns (outcomes: seq<Outcome>)
    requires WellFormed(w.disk, w.n) && w.Undisturbed(w.calls) && attempts != []
    requires CanAcquire(w.disk, attempts[0].alive, attempts[0].initializing, attempts[0].sees)
    requires attempts[0].sees || w.disk.recovery.None?
    requires forall k | 0 <= k < |attempts| ::
      |attempts[k].texts| == w.n && forall i: nat | i < w.n :: Backup(attempts[k].stamp, i) !in w.disk.files
    requires forall j, k | 0 <= j < k < |attempts| :: attempts[j].stamp != attempts[k].stamp
    modifies w`disk, w`calls
    ensures |outcomes| == |attempts| && forall k | 0 <= k < |outcomes| :: outcomes[k].Done?
    ensures Finals(w.disk, w.n) == Published(attempts[|attempts| - 1].texts)
    ensures w.disk.lock.None? && w.disk.recovery.None?
  {
    hide Logical, Finals;
    outcomes := [];
    for k := 0 to |attempts|
      invariant WellFormed(w.disk, w.n) && w.calls >= old(w.calls)
      invariant |outcomes| == k && forall j | 0 <= j < k :: outcomes[j].Done?
      invariant forall j, i: nat | k <= j < |attempts| && i < w.n :: Backup(attempts[j].stamp, i) !in w.disk.files
      invariant k == 0 ==> w.disk == old(w.disk)
      invariant k > 0 ==> w.disk.lock.None? && w.disk.recovery.None?
      invariant k > 0 ==> Finals(w.disk, w.n) == Published(attempts[k - 1].texts)
    {
      var a := attempts[k];
      assert forall i: nat | i < w.n :: Backup(a.stamp, i) !in w.disk.files;
      var o, marked := w.Publish(a.pid, a.stamp, a.texts, a.alive, a.initializing, a.sees);
      outcomes := outcomes + [o];
    }
  }

  // ---------------------------------------------------------------- restarting an interrupted recovery

  /** One attempt, from any disk and interrupted at any call, then an undisturbed process when nobody else is alive: it
      gets the lock exactly when the existence test is true of directories, or the first attempt left no recovery
      directory, or it died when the old lock was already gone. */
  method Restart(w: Workspace, first: Attempt, second: Attempt) returns (left: Disk, marked: bool, v: Workspace, o: Outcome)
    requires WellFormed(w.disk, w.n) && |first.texts| == w.n && first.stamp != second.stamp
    requires forall i: nat | i < w.n :: Backup(first.stamp, i) !in w.disk.files && Backup(second.stamp, i) !in w.disk.files
    requires !second.initializing && forall pid :: !second.alive(pid)
    modifies w`disk, w`calls
    ensures left == w.disk && v.n == w.n && WellFormed(v.disk, w.n)
    ensures o.Done? <==> second.sees || left.recovery.None? || left.lock.None?
    ensures o.Done? && (second.sees || left.recovery.None? || left.lock.Some?) ==> v.disk.recovery.None?
    ensures o.Done? ==>
      Finals(v.disk, w.n) == if marked then Published(first.texts) else old(Logical(w.disk, w.n))
  {
    var o1;
    o1, marked := w.Publish(first.pid, first.stamp, first.texts, first.alive, first.initializing, first.sees);
    left := w.disk;
    v := new Workspace(w.n, left, _ => Done);
    var existed;
    o, existed := v.Acquire(second.pid, second.stamp, second.alive, second.initializing, second.sees);
  }

  /** A publisher that dies just after it took the free lock. */
  method DiesHolding(n: nat, disk: Disk, a: Attempt) returns (left: Disk)
    requires disk.lock.None? && disk.recovery.None? && forall p | p in disk.files :: p.Final?
    requires |a.texts| == n
    ensures WellFormed(left, n) && Logical(left, n) == Finals(disk, n)
    ensures left.recovery.None? && left.lock.Some? && left.lock.value.owner.Some? && left.lock.value.owner.value.pid == a.pid
    ensures forall p | p in left.files :: p.Final? || p.stamp == a.stamp
  {
    assert Logical(disk, n) == Finals(disk, n);
    hide Logical, Finals, CanAcquire;
    var w := new Workspace(n, disk, k => if k < 2 then Done else Died);
    var o, marked := w.Publish(a.pid, a.stamp, a.texts, a.alive, a.initializing, a.sees);
    left := w.disk;
  }

  /** A publisher that dies at the first call of the recovery of a dead one. */
  method DiesRecovering(n: nat, disk: Disk, a: Attempt) returns (left: Disk)
    requires WellFormed(disk, n) && |a.texts| == n && forall i: nat | i < n :: Backup(a.stamp, i) !in disk.files
    requires disk.recovery.None? && disk.lock.Some? && disk.lock.value.owner.Some?
    requires !a.alive(disk.lock.value.owner.value.pid)
    ensures left == disk.(recovery := Some(Recovery(Some(a.pid))))
  {
    hide Logical, Finals, CanAcquire, WellFormed;
    var w := new Workspace(n, disk, k => if k < 3 then Done else Died);
    assert w.Recoverable(a.alive) && w.DoneFor(w.calls, 3);
    var o, marked := w.Publish(a.pid, a.stamp, a.texts, a.alive, a.initializing, a.sees);
    left := w.disk;
  }

  /** The failing run: a publisher dies just after it took the lock, and the next one dies at the first call of the
      recovery that it owes. Then an undisturbed process gets the lock exactly when the existence test is true of
      directories. */
  method InterruptedRecovery(n: nat, disk: Disk, first: Attempt, second: Attempt, third: Attempt)
    returns (left: Disk, v: Workspace, o: Outcome)
    requires disk.lock.None? && disk.recovery.None? && forall p | p in disk.files :: p.Final?
    requires |first.texts| == |second.texts| == n
    requires first.stamp != second.stamp && first.stamp != third.stamp
    requires !second.alive(first.pid) && !third.initializing && forall pid :: !third.alive(pid)
    ensures left.lock.Some? && left.recovery == Some(Recovery(Some(second.pid)))
    ensures WellFormed(v.disk, n) && (o.Done? <==> third.sees)
    ensures o.Done? ==> Finals(v.disk, n) == Finals(disk, n)
  {
    var held := DiesHolding(n, disk, first);
    left := DiesRecovering(n, held, second);
    assert Logical(left, n) == Logical(held, n);
    v := new Workspace(n, left, _ => Done);
    var existed;
    o, existed := v.Acquire(third.pid, third.stamp, third.alive, third.initializing, third.sees);
  }

  /** And while the test is not true of directories, no attempt ever gets through again: whatever happens to them, they
      leave the disk as it is. */
  method NobodyGetsThrough(w: Workspace, attempts: seq<Attempt>) returns (outcomes: seq<Outcome>)
    requires WellFormed(w.disk, w.n) && w.disk.lock.Some? && w.disk.recovery.Some?
    requires forall k | 0 <= k < |attempts| ::
      |attempts[k].texts| == w.n && !attempts[k].sees && forall i: nat | i < w.n :: Backup(attempts[k].stamp, i) !in w.disk.files
    modifies w`disk, w`calls
    ensures w.disk == old(w.disk)
    ensures |outcomes| == |attempts| && forall k | 0 <= k < |outcomes| :: !outcomes[k].Done?
  {
    outcomes := [];
    for k := 0 to |attempts|
      invariant w.disk == old(w.disk)
      invariant |outcomes| == k && forall j | 0 <= j < k :: !outcomes[j].Done?
    {
      var a := attempts[k];
      var o, marked := w.Publish(a.pid, a.stamp, a.texts, a.alive, a.initializing, a.sees);
      outcomes := outcomes + [o];
    }
  }
}
