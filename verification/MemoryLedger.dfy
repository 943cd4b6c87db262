/** The memory ledger of src/cognitive-memory.ts: one stored list, in which every project keeps a bounded queue. */
module MemoryLedger {
  import opened Wrappers

  datatype Entry = Entry(project: string, title: string, pattern: string)

  /** The front of a text, all of it when it is short enough. */
  function Clipped(s: string, n: nat): (t: string)
    ensures t <= s && |t| <= n && (|t| == n || t == s)
  {
    if |s| > n then s[..n] else s
  }

  /** A project's own entries, oldest first. */
  function Of(entries: seq<Entry>, project: string): seq<Entry> {
    if entries == [] then []
    else
      var rest := Of(entries[..|entries| - 1], project);
      if entries[|entries| - 1].project == project then rest + [entries[|entries| - 1]] else rest
  }

  /** The last n of a list; none when n is not positive. */
  function Last(s: seq<Entry>, n: int): (t: seq<Entry>)
    ensures n >= |s| ==> t == s
  {
    if n <= 0 then [] else if n >= |s| then s else s[|s| - n..]
  }

  lemma {:induction false} OfAppended(a: seq<Entry>, b: seq<Entry>, project: string)
    ensures Of(a + b, project) == Of(a, project) + Of(b, project)
    decreases |b|
  {
    if b == [] {
      assert a + b == a;
    } else {
      assert (a + b)[..|a + b| - 1] == a + b[..|b| - 1];
      OfAppended(a, b[..|b| - 1], project);
    }
  }

  class Ledger {
    const maxCapacity: int
    var stored: Option<seq<Entry>>

    constructor (maxCapacity: int)
      ensures this.maxCapacity == maxCapacity && stored == None
    {
      this.maxCapacity, stored := maxCapacity, None;
    }

    /** What loadEntries gives: nothing when the file is missing or is no list. */
    function Entries(): seq<Entry>
      reads this
    {
      if stored.Some? then stored.value else []
    }

    /** addEntry: the project's queue takes the entry and drops its oldest over the capacity, and the other projects'
        queues stay as they are, whatever was stored. */
    method AddEntry(project: string, title: string, pattern: string) returns (entry: Entry)
      modifies this
      ensures stored.Some? && entry == Entry(project, Clipped(title, 200), Clipped(pattern, 1000))
      ensures Of(Entries(), project) == Last(Of(old(Entries()), project) + [entry], maxCapacity)
      ensures forall other | other != project :: Of(Entries(), other) == Of(old(Entries()), other)
    {
      entry := Entry(project, Clipped(title, 200), Clipped(pattern, 1000));
      var updated := Entries() + [entry];
      assert updated[..|updated| - 1] == Entries();
      var count := Count(updated, project);
      if count > maxCapacity {
        var pruned := Prune(updated, project, count - maxCapacity);
        stored := Some(pruned);
      } else {
        stored := Some(updated);
      }
    }
  }

  method Count(entries: seq<Entry>, project: string) returns (count: nat)
    ensures count == |Of(entries, project)|
  {
    count := 0;
    for k := 0 to |entries|
      invariant count == |Of(entries[..k], project)|
    {
      assert entries[..k + 1][..k] == entries[..k];
      if entries[k].project == project {
        count := count + 1;
      }
    }
    assert entries[..|entries|] == entries;
  }

  /** The filter that drops a project's first entries. */
  method Prune(entries: seq<Entry>, project: string, overflow: nat) returns (kept: seq<Entry>)
    requires overflow > 0
    ensures Of(kept, project) == Last(Of(entries, project), |Of(entries, project)| - overflow)
    ensures forall other | other != project :: Of(kept, other) == Of(entries, other)
  {
    kept := [];
    var removed := 0;
    for k := 0 to |entries|
      invariant removed <= overflow && removed <= |Of(entries[..k], project)|
      invariant removed < overflow ==> removed == |Of(entries[..k], project)|
      invariant Of(kept, project) == Of(entries[..k], project)[removed..]
      invariant forall other | other != project :: Of(kept, other) == Of(entries[..k], other)
    {
      assert entries[..k + 1][..k] == entries[..k];
      if entries[k].project == project && removed < overflow {
        removed := removed + 1;
      } else {
        assert (kept + [entries[k]])[..|kept|] == kept;
        kept := kept + [entries[k]];
      }
    }
    assert entries[..|entries|] == entries;
  }

  // ---------------------------------------------------------------- runs of additions, in any interleaving

  /** What one addition makes of a project's queue. */
  function Queued(queue: seq<Entry>, added: Entry, capacity: int): seq<Entry> {
    Last(queue + [added], capacity)
  }

  /** A project's queue after additions to any projects, as the additions say it one by one. */
  function QueueAfter(additions: seq<Entry>, project: string, capacity: int): seq<Entry> {
    if additions == [] then []
    else
      var before := QueueAfter(additions[..|additions| - 1], project, capacity);
      var added := additions[|additions| - 1];
      if added.project == project then Queued(before, added, capacity) else before
  }

  lemma LastOfNothing(n: int)
    ensures Last([], n) == []
  {
  }

  lemma LastMore(s: seq<Entry>, x: Entry, n: int)
    ensures Last(Last(s, n) + [x], n) == Last(s + [x], n)
  {
  }

  /** After any interleaving of additions each project holds exactly the last ones of its own, up to the capacity. */
  lemma {:induction false} QueueIsLast(additions: seq<Entry>, project: string, capacity: int)
    ensures QueueAfter(additions, project, capacity) == Last(Of(additions, project), capacity)
    decreases |additions|
  {
    if additions == [] {
      LastOfNothing(capacity);
    } else {
      hide Last;
      var n := |additions| - 1;
      QueueIsLast(additions[..n], project, capacity);
      LastMore(Of(additions[..n], project), additions[n], capacity);
    }
  }

  /** The entries as they are stored. */
  function Stored(additions: seq<Entry>): seq<Entry> {
    seq(|additions|, k requires 0 <= k < |additions| =>
      Entry(additions[k].project, Clipped(additions[k].title, 200), Clipped(additions[k].pattern, 1000)))
  }

  method AddAll(ledger: Ledger, additions: seq<Entry>)
    requires ledger.Entries() == []
    modifies ledger
    ensures forall project :: Of(ledger.Entries(), project) == Last(Of(Stored(additions), project), ledger.maxCapacity)
  {
    hide Clipped;
    ghost var all := Stored(additions);
    for k := 0 to |additions|
      invariant forall project ::
        Of(ledger.Entries(), project) == QueueAfter(all[..k], project, ledger.maxCapacity)
    {
      var a := additions[k];
      assert all[..k + 1][..k] == all[..k];
      var entry := ledger.AddEntry(a.project, a.title, a.pattern);
    }
    assert all[..|all|] == all;
    forall project
      ensures Of(ledger.Entries(), project) == Last(Of(all, project), ledger.maxCapacity)
    {
      QueueIsLast(all, project, ledger.maxCapacity);
    }
  }
}
