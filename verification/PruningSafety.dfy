/** What pruning keeps: exactly the newest files when nothing interferes, and every file that is locked or
    was changed meanwhile, whatever interferes. */
module PruningSafety {
  import opened Pruning
  import opened Wrappers

  function At(files: Files, key: Key): Option<TurnFile> {
    if key in files then Some(files[key]) else None
  }

  function TimeOf(files: Files, key: Key, m: Moment): real
    requires key in files
  {
    if files[key].Invalid? then m.reportedAt else ModifiedAt(files[key])
  }

  /** What an attempt under the lock leaves of a file that it keeps: an unreadable one becomes the conservative state,
      never verified, written now. */
  function Repaired(f: TurnFile, m: Moment): TurnFile {
    if f.Invalid? then Valid(0.0, None, m.writtenAt) else f
  }

  /** A file is as old as the latest of its times. */
  lemma LatestTime(f: TurnFile)
    requires f.Valid? && f.mutatedAt >= 0.0
    ensures var t := ModifiedAt(f);
      && t >= f.mutatedAt && t >= f.modified && (f.verifiedAt.Some? ==> t >= f.verifiedAt.value)
      && (t == f.mutatedAt || t == f.modified || Some(t) == f.verifiedAt
          || (f.verifiedAt.Some? && f.verifiedAt.value < 0.0 && t == 0.0))
  {
  }

  // ---------------------------------------------------------------- one attempt, whatever interferes

  /** The first pass removes a file exactly when it holds its lock and finds it stale, and touches no other file. */
  lemma FirstStepRemoves(files: Files, key: Key, m: Moment, limits: Limits)
    ensures var seen := Changed(files, m.changes); var after := FirstStep(files, key, m, limits).0;
      (forall k | k != key :: At(after, k) == At(seen, k))
      && (m.locked ==> after == seen)
      && (key in seen ==> (key !in after <==> !m.locked && limits.now - TimeOf(seen, key, m) > limits.maxAge))
      && (key in after && !m.locked ==> after[key] == Repaired(seen[key], m))
  {
    hide Changed;
  }

  /** The second pass removes a file exactly when it holds its lock and finds it stale, or unchanged with the quota
      used up; every other file that it meets, and every locked one, counts towards the quota. */
  lemma SecondStepRemoves(files: Files, c: Candidate, m: Moment, limits: Limits, rank: nat)
    ensures var seen := Changed(files, m.changes); var (after, next) := SecondStep(files, c, m, limits, rank);
      (forall k | k != c.key :: At(after, k) == At(seen, k))
      && (m.locked ==> after == seen)
      && (c.key in seen ==>
            (c.key !in after <==>
               !m.locked && (limits.now - TimeOf(seen, c.key, m) > limits.maxAge
                             || (TimeOf(seen, c.key, m) == c.modifiedAt && rank >= limits.maxFiles))))
      && (c.key in after && !m.locked ==> after[c.key] == Repaired(seen[c.key], m))
      && (next == rank + 1 <==> m.locked || (c.key in seen && c.key in after))
      && rank <= next <= rank + 1
  {
    hide Changed;
  }

  // ---------------------------------------------------------------- whole runs, whatever interferes

  /** What the others alone would have left. */
  function Others(files: Files, moments: seq<Moment>): Files {
    if moments == [] then files else Changed(Others(files, moments[..|moments| - 1]), moments[|moments| - 1].changes)
  }

  lemma ChangedAt(a: Files, b: Files, changes: map<Key, Option<TurnFile>>, key: Key)
    requires At(a, key) == At(b, key)
    ensures At(Changed(a, changes), key) == At(Changed(b, changes), key)
  {
  }

  ghost predicate LockedFor(names: seq<Key>, moments: seq<Moment>, key: Key)
    requires |names| == |moments|
  {
    forall k | 0 <= k < |names| && names[k] == key :: moments[k].locked
  }

  lemma {:induction false} LockedInFirstPass(files: Files, names: seq<Key>, moments: seq<Moment>, limits: Limits, key: Key)
    requires |names| == |moments| && LockedFor(names, moments, key)
    ensures At(FirstPass(files, names, moments, limits).0, key) == At(Others(files, moments), key)
    ensures forall c | c in FirstPass(files, names, moments, limits).1 :: c.key != key
    decreases |names|
  {
    hide Changed, Stale;
    if names != [] {
      var n := |names| - 1;
      LockedInFirstPass(files, names[..n], moments[..n], limits, key);
      var before := FirstPass(files, names[..n], moments[..n], limits).0;
      FirstStepRemoves(before, names[n], moments[n], limits);
      ChangedAt(before, Others(files, moments[..n]), moments[n].changes, key);
    }
  }

  lemma {:induction false} NotACandidate(files: Files, candidates: seq<Candidate>, moments: seq<Moment>, limits: Limits, key: Key)
    requires |candidates| == |moments|
    requires forall k | 0 <= k < |candidates| && candidates[k].key == key :: moments[k].locked
    ensures At(SecondPass(files, candidates, moments, limits).0, key) == At(Others(files, moments), key)
    decreases |candidates|
  {
    hide Changed, Stale, SecondStep;
    if candidates != [] {
      var n := |candidates| - 1;
      NotACandidate(files, candidates[..n], moments[..n], limits, key);
      var (before, rank) := SecondPass(files, candidates[..n], moments[..n], limits);
      SecondStepRemoves(before, candidates[n], moments[n], limits, rank);
      ChangedAt(before, Others(files, moments[..n]), moments[n].changes, key);
    }
  }

  /** A file whose lock is taken in the first pass is left to the others for the whole run; one whose lock is taken
      in the second pass is left to them during that pass. */
  lemma LockedIsLeftAlone(files: Files, names: seq<Key>, first: seq<Moment>, second: seq<Moment>, limits: Limits, key: Key)
    requires |names| == |first|
    requires var candidates := FirstPass(files, names, first, limits).1; |candidates| == |second|
    ensures LockedFor(names, first, key) ==>
      var (between, candidates) := FirstPass(files, names, first, limits);
      |Sorted(candidates)| == |second|
      && At(SecondPass(between, Sorted(candidates), second, limits).0, key)
         == At(Others(Others(files, first), second), key)
    ensures
      var (between, candidates) := FirstPass(files, names, first, limits);
      |Sorted(candidates)| == |second|
      && ((forall k | 0 <= k < |second| && Sorted(candidates)[k].key == key :: second[k].locked) ==>
            At(SecondPass(between, Sorted(candidates), second, limits).0, key) == At(Others(between, second), key))
  {
    hide SecondPass, Sorted, Changed;
    var (between, candidates) := FirstPass(files, names, first, limits);
    SortedLength(candidates);
    if forall k | 0 <= k < |second| && Sorted(candidates)[k].key == key :: second[k].locked {
      NotACandidate(between, Sorted(candidates), second, limits, key);
    }
    if LockedFor(names, first, key) {
      LockedInFirstPass(files, names, first, limits, key);
      forall k | 0 <= k < |second|
        ensures Sorted(candidates)[k].key != key
      {
        assert Sorted(candidates)[k] in candidates;
      }
      NotACandidate(between, Sorted(candidates), second, limits, key);
      OthersAt(between, Others(files, first), second, key);
    }
  }

  lemma {:induction false} OthersAt(a: Files, b: Files, moments: seq<Moment>, key: Key)
    requires At(a, key) == At(b, key)
    ensures At(Others(a, moments), key) == At(Others(b, moments), key)
    decreases |moments|
  {
    hide Changed;
    if moments != [] {
      var n := |moments| - 1;
      OthersAt(a, b, moments[..n], key);
      ChangedAt(Others(a, moments[..n]), Others(b, moments[..n]), moments[n].changes, key);
    }
  }

  /** The candidate at k was locked, or was met and left in place. */
  ghost predicate Left(files: Files, candidates: seq<Candidate>, moments: seq<Moment>, limits: Limits, k: nat)
    requires k < |candidates| == |moments|
  {
    var (before, rank) := SecondPass(files, candidates[..k], moments[..k], limits);
    var key := candidates[k].key;
    moments[k].locked
    || (key in Changed(before, moments[k].changes)
        && key in SecondStep(before, candidates[k], moments[k], limits, rank).0)
  }

  ghost function LeftBefore(files: Files, candidates: seq<Candidate>, moments: seq<Moment>, limits: Limits, n: nat): set<nat>
    requires n <= |candidates| == |moments|
  {
    set k: nat | k < n && Left(files, candidates, moments, limits, k)
  }

  /** The quota counter is the number of candidates locked or left in place so far. */
  lemma {:induction false} RankCountsLeft(files: Files, candidates: seq<Candidate>, moments: seq<Moment>, limits: Limits, n: nat)
    requires n <= |candidates| == |moments|
    ensures SecondPass(files, candidates[..n], moments[..n], limits).1 == |LeftBefore(files, candidates, moments, limits, n)|
    decreases n
  {
    hide Left, SecondPass;
    if n > 0 {
      var i := n - 1;
      RankCountsLeft(files, candidates, moments, limits, i);
      LeftCounts(files, candidates, moments, limits, i);
      var left, more := LeftBefore(files, candidates, moments, limits, i), LeftBefore(files, candidates, moments, limits, n);
      assert more == if Left(files, candidates, moments, limits, i) then left + {i} else left;
    } else {
      assert candidates[..n] == [] && LeftBefore(files, candidates, moments, limits, n) == {};
      assert SecondPass(files, candidates[..n], moments[..n], limits).1 == 0 by { NothingPassed(files, limits); }
    }
  }

  lemma NothingPassed(files: Files, limits: Limits)
    ensures SecondPass(files, [], [], limits) == (files, 0)
  {
  }

  lemma LeftCounts(files: Files, candidates: seq<Candidate>, moments: seq<Moment>, limits: Limits, i: nat)
    requires i < |candidates| == |moments|
    ensures SecondPass(files, candidates[..i + 1], moments[..i + 1], limits).1
         == SecondPass(files, candidates[..i], moments[..i], limits).1
            + if Left(files, candidates, moments, limits, i) then 1 else 0
  {
    hide SecondStep, Changed;
    assert candidates[..i + 1][..i] == candidates[..i] && moments[..i + 1][..i] == moments[..i];
    var (before, rank) := SecondPass(files, candidates[..i], moments[..i], limits);
    SecondStepRemoves(before, candidates[i], moments[i], limits, rank);
  }

  /** A fresh, unchanged file is removed only when at least maxFiles candidates before it were locked or left. */
  lemma RemovedOnlyOverQuota(files: Files, candidates: seq<Candidate>, moments: seq<Moment>, limits: Limits, k: nat)
    requires k < |candidates| == |moments|
    requires var before := Changed(SecondPass(files, candidates[..k], moments[..k], limits).0, moments[k].changes);
      candidates[k].key in before && !Stale(TimeOf(before, candidates[k].key, moments[k]), limits)
    requires candidates[k].key !in SecondPass(files, candidates[..k + 1], moments[..k + 1], limits).0
    ensures !moments[k].locked
    ensures TimeOf(Changed(SecondPass(files, candidates[..k], moments[..k], limits).0, moments[k].changes),
                   candidates[k].key, moments[k]) == candidates[k].modifiedAt
    ensures |LeftBefore(files, candidates, moments, limits, k)| >= limits.maxFiles
  {
    hide SecondStep, Changed;
    assert candidates[..k + 1][..k] == candidates[..k] && moments[..k + 1][..k] == moments[..k];
    var (before, rank) := SecondPass(files, candidates[..k], moments[..k], limits);
    SecondStepRemoves(before, candidates[k], moments[k], limits, rank);
    RankCountsLeft(files, candidates, moments, limits, k);
  }

  // ---------------------------------------------------------------- runs without interference

  predicate Quiet(m: Moment) {
    m.changes == map[] && !m.locked
  }

  ghost predicate AllQuiet(moments: seq<Moment>) {
    forall k | 0 <= k < |moments| :: Quiet(moments[k])
  }

  ghost predicate AllValid(files: Files) {
    forall key | key in files :: files[key].Valid?
  }

  lemma QuietChanges(files: Files)
    ensures Changed(files, map[]) == files
  {
  }

  predicate Fresh(files: Files, key: Key, limits: Limits)
    requires key in files && files[key].Valid?
  {
    !Stale(ModifiedAt(files[key]), limits)
  }

  function CandidateOf(files: Files, key: Key): Candidate
    requires key in files && files[key].Valid?
  {
    Candidate(key, ModifiedAt(files[key]))
  }

  ghost predicate DistinctKeys(candidates: seq<Candidate>) {
    forall i, j | 0 <= i < j < |candidates| :: candidates[i].key != candidates[j].key
  }

  ghost predicate Distinct(names: seq<Key>) {
    forall i, j | 0 <= i < j < |names| :: names[i] != names[j]
  }

  function WithoutStale(files: Files, names: seq<Key>, limits: Limits): Files
    requires forall key | key in files :: files[key].Valid?
  {
    map key | key in files && !(key in names && Stale(ModifiedAt(files[key]), limits)) :: files[key]
  }

  lemma QuietFirstStep(files: Files, key: Key, m: Moment, limits: Limits)
    requires Quiet(m) && AllValid(files)
    ensures FirstStep(files, key, m, limits) ==
      if key !in files then (files, None)
      else if Fresh(files, key, limits) then (files, Some(CandidateOf(files, key)))
      else (files - {key}, None)
  {
    hide Stale, ModifiedAt, Changed;
    QuietChanges(files);
  }

  /** The candidates for a list of names. */
  ghost predicate ListsFresh(files: Files, names: seq<Key>, candidates: seq<Candidate>, limits: Limits)
    requires AllValid(files)
  {
    && DistinctKeys(candidates)
    && forall c :: c in candidates <==>
         c.key in names && c.key in files && Fresh(files, c.key, limits) && c == CandidateOf(files, c.key)
  }

  lemma ListsOneMore(files: Files, names: seq<Key>, candidates: seq<Candidate>, limits: Limits, key: Key)
    requires AllValid(files) && ListsFresh(files, names, candidates, limits) && key !in names
    ensures ListsFresh(files, names + [key],
      if key in files && Fresh(files, key, limits) then candidates + [CandidateOf(files, key)] else candidates, limits)
  {
    hide Fresh;
    assert forall c | c in candidates :: c.key != key;
  }

  lemma DropsOneMore(files: Files, names: seq<Key>, limits: Limits, key: Key)
    requires AllValid(files)
    ensures WithoutStale(files, names + [key], limits) ==
      if key in files && !Fresh(files, key, limits) then WithoutStale(files, names, limits) - {key}
      else WithoutStale(files, names, limits)
  {
    hide Stale, ModifiedAt;
  }

  /** Undisturbed, the first pass drops the stale files and lists the others. */
  lemma {:induction false} QuietFirstPass(files: Files, names: seq<Key>, moments: seq<Moment>, limits: Limits)
    requires |names| == |moments| && AllQuiet(moments) && AllValid(files) && Distinct(names)
    ensures FirstPass(files, names, moments, limits).0 == WithoutStale(files, names, limits)
    ensures ListsFresh(files, names, FirstPass(files, names, moments, limits).1, limits)
    decreases |names|
  {
    hide Stale, ModifiedAt, FirstStep, ListsFresh;
    if names == [] {
      assert ListsFresh(files, [], [], limits) by { NothingListed(files, limits); }
    } else {
      var n, key := |names| - 1, names[|names| - 1];
      QuietFirstPass(files, names[..n], moments[..n], limits);
      assert names == names[..n] + [key];
      var (before, candidates) := FirstPass(files, names[..n], moments[..n], limits);
      QuietFirstStep(before, key, moments[n], limits);
      ListsOneMore(files, names[..n], candidates, limits, key);
      DropsOneMore(files, names[..n], limits, key);
    }
  }

  lemma NothingListed(files: Files, limits: Limits)
    requires AllValid(files)
    ensures ListsFresh(files, [], [], limits) && WithoutStale(files, [], limits) == files
  {
  }

  // ---------------------------------------------------------------- sorting

  ghost predicate InOrder(candidates: seq<Candidate>) {
    forall i, j | 0 <= i < j < |candidates| :: Before(candidates[i], candidates[j])
  }

  lemma {:induction false} InsertOrders(sorted: seq<Candidate>, c: Candidate)
    requires InOrder(sorted) && forall d | d in sorted :: d.key != c.key
    ensures InOrder(Insert(sorted, c))
    decreases |sorted|
  {
    if sorted != [] {
      var n := |sorted| - 1;
      var last := sorted[n];
      if Before(c, last) {
        InsertOrders(sorted[..n], c);
        InsertLength(sorted[..n], c);
        var r := Insert(sorted[..n], c);
        forall i | 0 <= i < |r|
          ensures Before(r[i], last)
        {
          assert r[i] in r;
        }
      } else {
        assert Before(last, c);
      }
    }
  }

  lemma {:induction false} SortedInOrder(candidates: seq<Candidate>)
    requires DistinctKeys(candidates)
    ensures InOrder(Sorted(candidates))
    decreases |candidates|
  {
    if candidates != [] {
      var n := |candidates| - 1;
      SortedInOrder(candidates[..n]);
      SortedLength(candidates[..n]);
      InsertOrders(Sorted(candidates[..n]), candidates[n]);
    }
  }

  /** A candidate's place in the order is the number of candidates before it. */
  lemma PlaceCounts(sorted: seq<Candidate>, k: nat)
    requires InOrder(sorted) && k < |sorted|
    ensures |set d | d in sorted && Before(d, sorted[k])| == k
  {
    assert (set d | d in sorted && Before(d, sorted[k])) == Members(sorted[..k]);
    MembersSize(sorted[..k]);
  }

  ghost function Members(candidates: seq<Candidate>): set<Candidate> {
    set d | d in candidates
  }

  lemma {:induction false} MembersSize(sorted: seq<Candidate>)
    requires InOrder(sorted)
    ensures |Members(sorted)| == |sorted|
    decreases |sorted|
  {
    if sorted != [] {
      var n := |sorted| - 1;
      MembersSize(sorted[..n]);
      assert sorted == sorted[..n] + [sorted[n]];
      assert sorted[n] !in sorted[..n];
      assert Members(sorted) == Members(sorted[..n]) + {sorted[n]};
    }
  }

  // ---------------------------------------------------------------- the second pass undisturbed

  function OverQuota(sorted: seq<Candidate>, maxFiles: nat): set<Key> {
    set k | maxFiles <= k < |sorted| :: sorted[k].key
  }

  lemma {:induction false} QuietSecondPass(files: Files, sorted: seq<Candidate>, moments: seq<Moment>, limits: Limits)
    requires |sorted| == |moments| && AllQuiet(moments) && DistinctKeys(sorted)
    requires AllValid(files)
    requires forall c | c in sorted :: c.key in files && Fresh(files, c.key, limits) && c == CandidateOf(files, c.key)
    ensures var (after, rank) := SecondPass(files, sorted, moments, limits);
      after == files - OverQuota(sorted, limits.maxFiles)
      && rank == if |sorted| <= limits.maxFiles then |sorted| else limits.maxFiles
    decreases |sorted|
  {
    hide Stale, ModifiedAt, Changed;
    if sorted == [] {
      assert files - {} == files;
    } else {
      var n := |sorted| - 1;
      QuietSecondPass(files, sorted[..n], moments[..n], limits);
      var (before, rank) := SecondPass(files, sorted[..n], moments[..n], limits);
      assert Quiet(moments[n]);
      QuietChanges(before);
      var c := sorted[n];
      assert c in sorted;
      assert c.key !in OverQuota(sorted[..n], limits.maxFiles);
      assert c.key in before && before[c.key] == files[c.key];
      QuotaStep(sorted, limits.maxFiles);
    }
  }

  lemma QuotaStep(sorted: seq<Candidate>, maxFiles: nat)
    requires sorted != []
    ensures var n := |sorted| - 1;
      OverQuota(sorted, maxFiles) ==
        if n < maxFiles then OverQuota(sorted[..n], maxFiles) else OverQuota(sorted[..n], maxFiles) + {sorted[n].key}
  {
    var n := |sorted| - 1;
    assert forall k | 0 <= k < n :: sorted[..n][k] == sorted[k];
    if n < maxFiles {
      assert OverQuota(sorted, maxFiles) == {} == OverQuota(sorted[..n], maxFiles);
    } else {
      forall key
        ensures key in OverQuota(sorted, maxFiles) <==> key in OverQuota(sorted[..n], maxFiles) + {sorted[n].key}
      {
        if key in OverQuota(sorted[..n], maxFiles) {
          var k :| maxFiles <= k < n && sorted[..n][k].key == key;
          assert sorted[k].key == key;
        }
        if key in OverQuota(sorted, maxFiles) && key != sorted[n].key {
          var k :| maxFiles <= k < n && sorted[k].key == key;
          assert sorted[..n][k].key == key;
        }
      }
    }
  }

  // ---------------------------------------------------------------- what is left

  /** The fresh files that were modified after this one, or then too and have a smaller key. */
  ghost function NewerFiles(files: Files, key: Key, limits: Limits): set<Key>
    requires AllValid(files) && key in files
  {
    set k | k in files && Fresh(files, k, limits)
            && (ModifiedAt(files[k]) > ModifiedAt(files[key])
                || (ModifiedAt(files[k]) == ModifiedAt(files[key]) && k < key))
  }

  ghost function CandidatesBefore(sorted: seq<Candidate>, c: Candidate): set<Candidate> {
    set d | d in sorted && Before(d, c)
  }

  lemma SomeMember<T>(s: set<T>) returns (x: T)
    requires s != {}
    ensures x in s
  {
    x :| x in s;
  }

  lemma {:induction false} KeysSize(keys: set<Key>, candidates: set<Candidate>, files: Files)
    requires AllValid(files) && forall k | k in keys :: k in files
    requires forall c :: c in candidates <==> c.key in keys && c == CandidateOf(files, c.key)
    ensures |keys| == |candidates|
    decreases |keys|
  {
    hide ModifiedAt;
    if keys != {} {
      var k := SomeMember(keys);
      var c := CandidateOf(files, k);
      assert c in candidates;
      KeysSize(keys - {k}, candidates - {c}, files);
    } else {
      assert candidates == {};
    }
  }

  lemma NewerCount(files: Files, key: Key, limits: Limits, sorted: seq<Candidate>)
    requires AllValid(files) && key in files
    requires forall c :: c in sorted <==> c.key in files && Fresh(files, c.key, limits) && c == CandidateOf(files, c.key)
    ensures |NewerFiles(files, key, limits)| == |CandidatesBefore(sorted, CandidateOf(files, key))|
  {
    hide ModifiedAt, Stale;
    KeysSize(NewerFiles(files, key, limits), CandidatesBefore(sorted, CandidateOf(files, key)), files);
  }

  /** Undisturbed, on valid files, pruning leaves exactly the fresh files with fewer than maxFiles fresh files
      before them, most recent first and ties by key, and leaves them as they were. */
  lemma QuietPruning(files: Files, names: seq<Key>, first: seq<Moment>, second: seq<Moment>, limits: Limits)
    requires |names| == |first| && AllQuiet(first) && AllQuiet(second) && AllValid(files) && Distinct(names)
    requires forall key | key in files :: key in names
    requires |FirstPass(files, names, first, limits).1| == |second|
    ensures var (between, candidates) := FirstPass(files, names, first, limits);
      |Sorted(candidates)| == |second| &&
      var after := SecondPass(between, Sorted(candidates), second, limits).0;
      (forall key | key in files ::
         key in after <==> Fresh(files, key, limits) && |NewerFiles(files, key, limits)| < limits.maxFiles)
      && (forall key | key in after :: key in files && after[key] == files[key])
  {
    hide Stale, ModifiedAt, FirstPass, SecondPass, Sorted, Before;
    var (between, candidates) := FirstPass(files, names, first, limits);
    QuietFirstPass(files, names, first, limits);
    SortedLength(candidates);
    SortedInOrder(candidates);
    var sorted := Sorted(candidates);
    SortedDistinct(sorted);
    QuietSecondPass(between, sorted, second, limits);
    var after := SecondPass(between, sorted, second, limits).0;
    forall key | key in files
      ensures key in after <==> Fresh(files, key, limits) && |NewerFiles(files, key, limits)| < limits.maxFiles
    {
      if Fresh(files, key, limits) {
        assert CandidateOf(files, key) in sorted;
        var k :| 0 <= k < |sorted| && sorted[k] == CandidateOf(files, key);
        PlaceCounts(sorted, k);
        NewerCount(files, key, limits, sorted);
        assert CandidatesBefore(sorted, sorted[k]) == set d | d in sorted && Before(d, sorted[k]);
        assert key in OverQuota(sorted, limits.maxFiles) <==> limits.maxFiles <= k;
      }
    }
  }

  lemma SortedDistinct(sorted: seq<Candidate>)
    requires InOrder(sorted) && forall c, d | c in sorted && d in sorted && c.key == d.key :: c == d
    ensures DistinctKeys(sorted)
  {
    forall i, j | 0 <= i < j < |sorted|
      ensures sorted[i].key != sorted[j].key
    {
      assert Before(sorted[i], sorted[j]);
      assert sorted[i] in sorted && sorted[j] in sorted;
    }
  }
}
