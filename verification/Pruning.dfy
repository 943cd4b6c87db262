/** pruneState of plugins/riqor/hooks/state.ts: two passes over the turn files, each file under its own lock,
    while other processes go on writing and deleting between the steps. A key is the number its 64
    hexadecimal digits spell. */
module Pruning {
  import opened Wrappers

  type Key = int

  /** A turn file: its two times and its modification time; Invalid is whatever the reader refuses. */
  datatype TurnFile = Valid(mutatedAt: real, verifiedAt: Option<real>, modified: real) | Invalid

  type Files = map<Key, TurnFile>

  datatype Limits = Limits(now: real, maxAge: real, maxFiles: nat)

  datatype Candidate = Candidate(key: Key, modifiedAt: real)

  /** What one attempt meets: what the others changed since the last one, whether the lock was free, and the
      clock readings that rewriting an invalid file uses. */
  datatype Moment = Moment(changes: map<Key, Option<TurnFile>>, locked: bool, writtenAt: real, reportedAt: real)

  function Max(a: real, b: real): real {
    if a < b then b else a
  }

  function ModifiedAt(f: TurnFile): real
    requires f.Valid?
  {
    Max(Max(f.mutatedAt, if f.verifiedAt.Some? then f.verifiedAt.value else 0.0), f.modified)
  }

  predicate Stale(modifiedAt: real, limits: Limits) {
    limits.now - modifiedAt > limits.maxAge
  }

  /** The files after the others' changes. */
  function Changed(files: Files, changes: map<Key, Option<TurnFile>>): Files {
    map key | key in files.Keys + changes.Keys && (key in changes ==> changes[key].Some?)
      :: if key in changes then changes[key].value else files[key]
  }

  // ---------------------------------------------------------------- what one locked attempt does

  /** An invalid file is rewritten as a conservative state; the time reported is then the clock's. */
  function Inspected(files: Files, key: Key, m: Moment): (Files, Option<real>) {
    if key !in files then (files, None)
    else if files[key].Invalid? then (files[key := Valid(0.0, None, m.writtenAt)], Some(m.reportedAt))
    else (files, Some(ModifiedAt(files[key])))
  }

  function FirstStep(files: Files, key: Key, m: Moment, limits: Limits): (Files, Option<Candidate>) {
    var seen := Changed(files, m.changes);
    if m.locked then (seen, None)
    else
      match Inspected(seen, key, m)
      case (after, None) => (after, None)
      case (after, Some(modifiedAt)) =>
        if Stale(modifiedAt, limits) then (after - {key}, None) else (after, Some(Candidate(key, modifiedAt)))
  }

  function SecondStep(files: Files, c: Candidate, m: Moment, limits: Limits, rank: nat): (Files, nat) {
    var seen := Changed(files, m.changes);
    if m.locked then (seen, rank + 1)
    else
      match Inspected(seen, c.key, m)
      case (after, None) => (after, rank)
      case (after, Some(modifiedAt)) =>
        if Stale(modifiedAt, limits) then (after - {c.key}, rank)
        else if modifiedAt != c.modifiedAt || rank < limits.maxFiles then (after, rank + 1)
        else (after - {c.key}, rank)
  }

  // ---------------------------------------------------------------- whole passes

  function FirstPass(files: Files, names: seq<Key>, moments: seq<Moment>, limits: Limits): (Files, seq<Candidate>)
    requires |moments| == |names|
  {
    if names == [] then (files, [])
    else
      var n := |names| - 1;
      var (before, candidates) := FirstPass(files, names[..n], moments[..n], limits);
      var (after, found) := FirstStep(before, names[n], moments[n], limits);
      (after, if found.Some? then candidates + [found.value] else candidates)
  }

  function SecondPass(files: Files, candidates: seq<Candidate>, moments: seq<Moment>, limits: Limits): (Files, nat)
    requires |moments| == |candidates|
  {
    if candidates == [] then (files, 0)
    else
      var n := |candidates| - 1;
      var (before, rank) := SecondPass(files, candidates[..n], moments[..n], limits);
      SecondStep(before, candidates[n], moments[n], limits, rank)
  }

  /** Most recently modified first, then by key. */
  predicate Before(a: Candidate, b: Candidate) {
    a.modifiedAt > b.modifiedAt || (a.modifiedAt == b.modifiedAt && a.key < b.key)
  }

  function Insert(sorted: seq<Candidate>, c: Candidate): seq<Candidate> {
    if sorted == [] || !Before(c, sorted[|sorted| - 1]) then sorted + [c]
    else Insert(sorted[..|sorted| - 1], c) + [sorted[|sorted| - 1]]
  }

  /** The library sort. */
  function Sorted(candidates: seq<Candidate>): seq<Candidate> {
    if candidates == [] then []
    else Insert(Sorted(candidates[..|candidates| - 1]), candidates[|candidates| - 1])
  }

  lemma {:induction false} InsertLength(sorted: seq<Candidate>, c: Candidate)
    ensures |Insert(sorted, c)| == |sorted| + 1
    ensures forall d :: d in Insert(sorted, c) <==> d in sorted || d == c
    decreases |sorted|
  {
    if sorted != [] {
      var n := |sorted| - 1;
      InsertLength(sorted[..n], c);
      assert sorted == sorted[..n] + [sorted[n]];
    }
  }

  lemma {:induction false} SortedLength(candidates: seq<Candidate>)
    ensures |Sorted(candidates)| == |candidates|
    ensures forall d :: d in Sorted(candidates) <==> d in candidates
    decreases |candidates|
  {
    if candidates != [] {
      var n := |candidates| - 1;
      SortedLength(candidates[..n]);
      InsertLength(Sorted(candidates[..n]), candidates[n]);
      assert candidates == candidates[..n] + [candidates[n]];
    }
  }

  // ---------------------------------------------------------------- the code

  class DataDirectory {
    var files: Files

    constructor (files: Files)
      ensures this.files == files
    {
      this.files := files;
    }

    /** The body of inspectPruneCandidateUnlocked. */
    method Inspect(key: Key, m: Moment) returns (modifiedAt: Option<real>)
      modifies this
      ensures (files, modifiedAt) == Inspected(old(files), key, m)
    {
      if key !in files {
        return None;
      }
      if files[key].Invalid? {
        files := files[key := Valid(0.0, None, m.writtenAt)];
        return Some(m.reportedAt);
      }
      return Some(ModifiedAt(files[key]));
    }

    /** Both passes, over the names in the directory; the second set of moments goes with the sorted candidates. */
    method Prune(names: seq<Key>, first: seq<Moment>, second: seq<Moment>, limits: Limits)
      requires |first| == |second| == |names|
      modifies this
      ensures var (between, candidates) := FirstPass(old(files), names, first, limits);
        |candidates| <= |names| && |Sorted(candidates)| == |candidates|
        && files == SecondPass(between, Sorted(candidates), second[..|candidates|], limits).0
    {
      hide SecondStep, Inspected, Changed, Stale;
      var candidates: seq<Candidate> := [];
      for k := 0 to |names|
        invariant |candidates| <= k
        invariant (files, candidates) == FirstPass(old(files), names[..k], first[..k], limits)
      {
        assert names[..k + 1][..k] == names[..k] && first[..k + 1][..k] == first[..k];
        var found := FirstAttempt(names[k], first[k], limits);
        if found.Some? {
          candidates := candidates + [found.value];
        }
      }
      assert names[..|names|] == names && first[..|names|] == first;
      var sorted := Sorted(candidates);
      SortedLength(candidates);
      ghost var between := files;
      var rank := 0;
      for k := 0 to |sorted|
        invariant (files, rank) == SecondPass(between, sorted[..k], second[..k], limits)
      {
        assert sorted[..k + 1][..k] == sorted[..k] && second[..k + 1][..k] == second[..k];
        rank := SecondAttempt(sorted[k], second[k], limits, rank);
      }
      assert sorted[..|sorted|] == sorted;
    }

    method FirstAttempt(key: Key, m: Moment, limits: Limits) returns (found: Option<Candidate>)
      modifies this
      ensures (files, found) == FirstStep(old(files), key, m, limits)
    {
      files := Changed(files, m.changes);
      if m.locked {
        return None;
      }
      var modifiedAt := Inspect(key, m);
      if modifiedAt.None? {
        return None;
      }
      if Stale(modifiedAt.value, limits) {
        files := files - {key};
        return None;
      }
      return Some(Candidate(key, modifiedAt.value));
    }

    method SecondAttempt(c: Candidate, m: Moment, limits: Limits, rank: nat) returns (next: nat)
      modifies this
      ensures (files, next) == SecondStep(old(files), c, m, limits, rank)
    {
      files := Changed(files, m.changes);
      if m.locked {
        return rank + 1;
      }
      var modifiedAt := Inspect(c.key, m);
      if modifiedAt.None? {
        return rank;
      }
      if Stale(modifiedAt.value, limits) {
        files := files - {c.key};
        return rank;
      }
      if modifiedAt.value != c.modifiedAt {
        return rank + 1;
      }
      if rank < limits.maxFiles {
        return rank + 1;
      }
      files := files - {c.key};
      return rank;
    }
  }
}
