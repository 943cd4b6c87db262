/** The evidence of one turn, plugins/riqor/hooks/state.ts: recordMutation, recordVerification, clearTurn and
    consumeEvidenceGate, each under the turn lock, over any run. */
module TurnEvidence {
  import opened Wrappers

  datatype Kind = Code | Docs | Configuration | Unknown

  datatype Scope = CodeScope | DocsScope

  datatype Turn = Turn(kind: Kind, mutatedAt: real, verifiedAt: Option<real>, blockedOnce: bool)

  /** Unreadable is anything that the reader refuses. */
  datatype File = Missing | Unreadable | Holds(turn: Turn)

  const CONSERVATIVE := Turn(Unknown, 0.0, None, false)

  function Read(file: File): Option<Turn> {
    match file
    case Missing => None
    case Unreadable => Some(CONSERVATIVE)
    case Holds(turn) => Some(turn)
  }

  predicate Covers(kind: Kind, scope: Scope) {
    scope == CodeScope || kind == Docs
  }

  datatype Answer = Free | Pending(firstBlock: bool, kind: Kind)

  predicate Verified(t: Turn) {
    t.verifiedAt.Some? && t.verifiedAt.value >= t.mutatedAt
  }

  datatype Event = Mutate(kind: Kind, now: real) | Verify(scope: Scope, now: real) | Consume | Clear | Spoil

  function Step(file: File, e: Event): File {
    match e
    case Mutate(kind, now) => Holds(Turn(kind, now, None, false))
    case Verify(scope, now) =>
      (match Read(file)
       case None => file
       case Some(t) => if Covers(t.kind, scope) then Holds(t.(verifiedAt := Some(now), blockedOnce := false)) else file)
    case Consume =>
      (match Read(file)
       case None => file
       case Some(t) => if Verified(t) then Missing else if t.blockedOnce then file else Holds(t.(blockedOnce := true)))
    case Clear => Missing
    case Spoil => Unreadable
  }

  function Gate(file: File): Answer {
    match Read(file)
    case None => Free
    case Some(t) => if Verified(t) then Free else Pending(!t.blockedOnce, t.kind)
  }

  class TurnState {
    var file: File

    constructor ()
      ensures file == Missing
    {
      file := Missing;
    }

    method RecordMutation(kind: Kind, now: real)
      modifies this
      ensures file == Step(old(file), Mutate(kind, now))
    {
      file := Holds(Turn(kind, now, None, false));
    }

    method RecordVerification(now: real, scope: Scope)
      modifies this
      ensures file == Step(old(file), Verify(scope, now))
    {
      var current := Read(file);
      if current.None? || !Covers(current.value.kind, scope) {
        return;
      }
      file := Holds(current.value.(verifiedAt := Some(now), blockedOnce := false));
    }

    method ClearTurn()
      modifies this
      ensures file == Step(old(file), Clear)
    {
      file := Missing;
    }

    method ConsumeEvidenceGate() returns (answer: Answer)
      modifies this
      ensures file == Step(old(file), Consume) && answer == Gate(old(file))
    {
      var current := Read(file);
      if current.None? {
        return Free;
      }
      var t := current.value;
      if t.verifiedAt.Some? && t.verifiedAt.value >= t.mutatedAt {
        file := Missing;
        return Free;
      }
      if !t.blockedOnce {
        file := Holds(t.(blockedOnce := true));
        return Pending(true, t.kind);
      }
      return Pending(false, t.kind);
    }
  }

  // ---------------------------------------------------------------- runs

  function Run(events: seq<Event>): File {
    if events == [] then Missing else Step(Run(events[..|events| - 1]), events[|events| - 1])
  }

  /** A mutation, or a state that can no longer be read and counts as one at time zero. */
  predicate Changes(e: Event) {
    e.Mutate? || e.Spoil?
  }

  function KindOf(e: Event): Kind
    requires Changes(e)
  {
    if e.Mutate? then e.kind else Unknown
  }

  function TimeOf(e: Event): real
    requires Changes(e)
  {
    if e.Mutate? then e.now else 0.0
  }

  /** The latest change, with no clearing after it. */
  predicate Latest(events: seq<Event>, i: int) {
    0 <= i < |events| && Changes(events[i]) && forall k | i < k < |events| :: !Changes(events[k]) && !events[k].Clear?
  }

  /** A verification after the change at i, of a scope that covers its kind. */
  predicate CoveredBy(events: seq<Event>, i: int, j: int)
    requires 0 <= i < |events| && Changes(events[i])
  {
    i < j < |events| && events[j].Verify? && (events[j].scope == CodeScope || KindOf(events[i]) == Docs)
  }

  ghost predicate Covered(events: seq<Event>, i: int)
    requires 0 <= i < |events| && Changes(events[i])
  {
    exists j :: CoveredBy(events, i, j)
  }

  /** A covering verification not earlier, on the clock, than the change. */
  ghost predicate CoveredInTime(events: seq<Event>, i: int)
    requires 0 <= i < |events| && Changes(events[i])
  {
    exists j :: CoveredBy(events, i, j) && events[j].now >= TimeOf(events[i])
  }

  /** The gate was asked after the change at i and after every verification that covers it. */
  predicate AskedAt(events: seq<Event>, i: int, c: int)
    requires 0 <= i < |events| && Changes(events[i])
  {
    i < c < |events| && events[c].Consume? && forall j | c < j < |events| :: !CoveredBy(events, i, j)
  }

  ghost predicate Asked(events: seq<Event>, i: int)
    requires 0 <= i < |events| && Changes(events[i])
  {
    exists c :: AskedAt(events, i, c)
  }

  /** The turn says what the run did since the change at i. */
  ghost predicate Describes(t: Turn, events: seq<Event>, i: int) {
    && Latest(events, i) && t.kind == KindOf(events[i]) && t.mutatedAt == TimeOf(events[i])
    && (t.verifiedAt.None? <==> !Covered(events, i))
    && (t.verifiedAt.Some? ==> exists j :: CoveredBy(events, i, j) && events[j].now == t.verifiedAt.value)
    && (t.blockedOnce <==> Asked(events, i))
  }

  /** Either a turn is stored that describes the latest change, or that change was verified in time. */
  ghost predicate Follows(file: File, events: seq<Event>) {
    match Read(file)
    case None => forall i | Latest(events, i) :: CoveredInTime(events, i)
    case Some(t) => exists i :: Describes(t, events, i)
  }

  lemma OneMore(events: seq<Event>, i: int, j: int)
    requires events != [] && 0 <= i < |events| - 1 && Changes(events[i])
    ensures var n := |events| - 1;
      (Latest(events, i) <==> Latest(events[..n], i) && !Changes(events[n]) && !events[n].Clear?)
      && (CoveredBy(events, i, j) <==> CoveredBy(events[..n], i, j) || (j == n && CoveredBy(events, i, n)))
  {
  }

  /** Coverage and questions after one more event. */
  lemma OneMoreCovers(events: seq<Event>, i: int)
    requires events != [] && 0 <= i < |events| - 1 && Changes(events[i])
    ensures var n := |events| - 1;
      (Covered(events, i) <==> Covered(events[..n], i) || CoveredBy(events, i, n))
      && (CoveredInTime(events[..n], i) ==> CoveredInTime(events, i))
      && (Asked(events, i) <==> events[n].Consume? || (Asked(events[..n], i) && !CoveredBy(events, i, n)))
  {
    var n := |events| - 1;
    forall j
      ensures CoveredBy(events, i, j) <==> CoveredBy(events[..n], i, j) || (j == n && CoveredBy(events, i, n))
    {
      OneMore(events, i, j);
    }
    if CoveredInTime(events[..n], i) {
      var j :| CoveredBy(events[..n], i, j) && events[..n][j].now >= TimeOf(events[i]);
      assert CoveredBy(events, i, j);
    }
    if events[n].Consume? {
      assert AskedAt(events, i, n);
    } else if Asked(events[..n], i) && !CoveredBy(events, i, n) {
      var c :| AskedAt(events[..n], i, c);
      assert AskedAt(events, i, c);
    } else if Asked(events, i) {
      var c :| AskedAt(events, i, c);
      assert !CoveredBy(events, i, n);
      assert AskedAt(events[..n], i, c);
    }
  }

  /** One more event that changes and clears nothing, with a turn stored. */
  lemma StoredStep(events: seq<Event>, t: Turn, i: int)
    requires events != [] && Describes(t, events[..|events| - 1], i)
    requires !Changes(events[|events| - 1]) && !events[|events| - 1].Clear?
    ensures Follows(Step(Holds(t), events[|events| - 1]), events)
  {
    hide Asked, Covered;
    var n := |events| - 1;
    var e := events[n];
    InRange(events[..n], i);
    OneMore(events, i, n);
    OneMoreCovers(events, i);
    LastCovers(events, i);
    if t.verifiedAt.Some? {
      var j :| CoveredBy(events[..n], i, j) && events[..n][j].now == t.verifiedAt.value;
      OneMore(events, i, j);
      InRangeCovered(events[..n], i, j);
      assert CoveredBy(events, i, j) && events[j].now == t.verifiedAt.value;
    }
    var file := Step(Holds(t), e);
    if file.Missing? {
      forall k | Latest(events, k)
        ensures CoveredInTime(events, k)
      {
        LatestIsUnique(events, i, k);
      }
    } else {
      assert Describes(file.turn, events, i);
    }
  }

  lemma InRange(events: seq<Event>, i: int)
    requires Latest(events, i)
    ensures 0 <= i < |events| && Changes(events[i])
  {
  }

  lemma InRangeCovered(events: seq<Event>, i: int, j: int)
    requires 0 <= i < |events| && Changes(events[i]) && CoveredBy(events, i, j)
    ensures i < j < |events| && events[j].Verify?
  {
  }

  lemma LastCovers(events: seq<Event>, i: int)
    requires events != [] && 0 <= i < |events| - 1 && Changes(events[i])
    ensures var e := events[|events| - 1];
      CoveredBy(events, i, |events| - 1) <==> e.Verify? && Covers(KindOf(events[i]), e.scope)
  {
  }

  lemma LatestIsUnique(events: seq<Event>, i: int, k: int)
    requires Latest(events, i) && Latest(events, k)
    ensures i == k
  {
  }

  lemma {:induction false} RunFollows(events: seq<Event>)
    ensures Follows(Run(events), events)
    decreases |events|
  {
    hide Describes, CoveredInTime;
    if events != [] {
      var n := |events| - 1;
      var e := events[n];
      RunFollows(events[..n]);
      var file := Run(events[..n]);
      if Changes(e) {
        JustChanged(events);
      } else if !e.Clear? {
        if Read(file).Some? {
          var i :| Describes(Read(file).value, events[..n], i);
          StoredStep(events, Read(file).value, i);
          assert Read(Step(file, e)) == Read(Step(Holds(Read(file).value), e));
        } else {
          forall i | Latest(events, i)
            ensures CoveredInTime(events, i)
          {
            assert Latest(events[..n], i);
            OneMoreCovers(events, i);
          }
        }
      }
    }
  }

  lemma JustChanged(events: seq<Event>)
    requires events != [] && Changes(events[|events| - 1])
    ensures Describes(Read(Step(Missing, events[|events| - 1])).value, events, |events| - 1)
  {
  }

  ghost predicate ForwardClock(events: seq<Event>) {
    && (forall k | 0 <= k < |events| && (events[k].Mutate? || events[k].Verify?) :: events[k].now >= 0.0)
    && forall j, k | 0 <= j < k < |events| && events[j].Mutate? && events[k].Verify? :: events[j].now <= events[k].now
  }

  /** Whenever the gate lets a turn end, its latest change was followed by a verification whose scope covers it and
      whose time is not before it, whatever the clock does. */
  lemma GateIsSafe(events: seq<Event>, i: int)
    requires Gate(Run(events)).Free? && Latest(events, i)
    ensures CoveredInTime(events, i)
  {
    hide Run;
    RunFollows(events);
    var file := Run(events);
    if Read(file).Some? {
      var t := Read(file).value;
      var k :| Describes(t, events, k);
      LatestIsUnique(events, i, k);
      var j :| CoveredBy(events, k, j) && events[j].now == t.verifiedAt.value;
    }
  }

  /** With a clock that does not go back, the gate lets the turn end exactly when its latest change, if there is one
      since the last clearing, was followed by a covering verification. */
  lemma GateIff(events: seq<Event>)
    requires ForwardClock(events)
    ensures Gate(Run(events)).Free? <==> forall i | Latest(events, i) :: Covered(events, i)
  {
    hide Run;
    RunFollows(events);
    var file := Run(events);
    if Gate(file).Free? {
      forall i | Latest(events, i)
        ensures Covered(events, i)
      {
        GateIsSafe(events, i);
        var j :| CoveredBy(events, i, j) && events[j].now >= TimeOf(events[i]);
        assert CoveredBy(events, i, j);
      }
    } else {
      var t := Read(file).value;
      var i :| Describes(t, events, i);
      assert t.verifiedAt.None?;
    }
  }

  /** What a refusal says: the kind of the latest change, and that it is the first refusal exactly when the gate was
      not asked since that change and since the last verification that covers it. */
  lemma RefusalSays(events: seq<Event>) returns (i: int)
    requires Gate(Run(events)).Pending?
    ensures Latest(events, i) && Gate(Run(events)) == Pending(!Asked(events, i), KindOf(events[i]))
  {
    hide Run;
    RunFollows(events);
    i :| Describes(Read(Run(events)).value, events, i);
  }

  // ---------------------------------------------------------------- a turn on the object

  /** Any run on the stored state: every time the gate is asked and lets the turn end, the latest change was covered in
      time; and every refusal names the latest change and says whether it is the first since it was last covered. */
  method Serve(t: TurnState, events: seq<Event>) returns (answers: seq<Option<Answer>>)
    requires t.file == Missing
    modifies t
    ensures |answers| == |events| && forall k | 0 <= k < |events| :: answers[k].Some? <==> events[k].Consume?
    ensures forall k, i | 0 <= k < |events| && answers[k] == Some(Free) && Latest(events[..k], i) ::
      CoveredInTime(events[..k], i)
    ensures forall k | 0 <= k < |events| && answers[k].Some? && answers[k].value.Pending? ::
      Refused(events[..k], answers[k].value)
  {
    hide Gate;
    answers := [];
    assert events[..0] == [];
    for k := 0 to |events|
      invariant t.file == Run(events[..k])
      invariant |answers| == k && forall j | 0 <= j < k :: answers[j].Some? <==> events[j].Consume?
      invariant forall j | 0 <= j < k && answers[j].Some? :: answers[j].value == Gate(Run(events[..j]))
    {
      assert events[..k + 1][..k] == events[..k];
      match events[k] {
        case Mutate(kind, now) =>
          t.RecordMutation(kind, now);
          answers := answers + [None];
        case Verify(scope, now) =>
          t.RecordVerification(now, scope);
          answers := answers + [None];
        case Consume =>
          var answer := t.ConsumeEvidenceGate();
          answers := answers + [Some(answer)];
        case Clear =>
          t.ClearTurn();
          answers := answers + [None];
        case Spoil =>
          t.file := Unreadable;
          answers := answers + [None];
      }
    }
    forall k, i | 0 <= k < |events| && answers[k] == Some(Free) && Latest(events[..k], i)
      ensures CoveredInTime(events[..k], i)
    {
      GateIsSafe(events[..k], i);
    }
    forall k | 0 <= k < |events| && answers[k].Some? && answers[k].value.Pending?
      ensures Refused(events[..k], answers[k].value)
    {
      var i := RefusalSays(events[..k]);
    }
  }

  /** A refusal that says what the run did. */
  ghost predicate Refused(events: seq<Event>, answer: Answer) {
    exists i :: Latest(events, i) && answer == Pending(!Asked(events, i), KindOf(events[i]))
  }
}
