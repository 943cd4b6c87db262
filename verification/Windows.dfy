/** coalesceWindows of references/unfamiliar-repo/src/windows.ts, on window objects that it copies and
    then changes in place; a window stands for the integers from its start up to but not including its end. */
module Windows {
  import opened Wrappers

  /** A number as the validity test sees it; fractions, infinities and NaN are NotInteger. */
  datatype Number = Integer(value: int) | NotInteger

  datatype Span = Span(start: int, end: int)

  predicate Within(p: int, s: Span) {
    s.start <= p < s.end
  }

  ghost predicate Covered(spans: seq<Span>, p: int) {
    exists k :: 0 <= k < |spans| && Within(p, spans[k])
  }

  ghost predicate SamePoints(a: seq<Span>, b: seq<Span>) {
    forall p :: Covered(a, p) <==> Covered(b, p)
  }

  /** In order, none empty, and a point missing between any two neighbours. */
  ghost predicate Separated(spans: seq<Span>) {
    && (forall k | 0 <= k < |spans| :: spans[k].start < spans[k].end)
    && (forall j, k | 0 <= j < k < |spans| :: spans[j].end < spans[k].start)
  }

  // ---------------------------------------------------------------- what separation and coverage determine

  lemma TailPoints(a: seq<Span>, p: int)
    requires Separated(a) && a != []
    ensures Covered(a[1..], p) <==> Covered(a, p) && a[0].end < p
  {
    if Covered(a[1..], p) {
      var k :| 0 <= k < |a[1..]| && Within(p, a[1..][k]);
      assert Within(p, a[k + 1]);
    }
    if Covered(a, p) && a[0].end < p {
      var k :| 0 <= k < |a| && Within(p, a[k]);
      assert a[1..][k - 1] == a[k];
    }
  }

  lemma FirstPoints(a: seq<Span>)
    requires Separated(a) && a != []
    ensures Covered(a, a[0].start) && !Covered(a, a[0].end)
    ensures forall p | p < a[0].start :: !Covered(a, p)
    ensures forall p | Within(p, a[0]) :: Covered(a, p)
  {
    assert Within(a[0].start, a[0]);
  }

  /** A list of separated windows is the only one that covers its points. */
  lemma {:induction false} SeparatedUnique(a: seq<Span>, b: seq<Span>)
    requires Separated(a) && Separated(b) && SamePoints(a, b)
    ensures a == b
    decreases |a|
  {
    if a == [] {
      if b != [] {
        FirstPoints(b);
      }
    } else {
      FirstPoints(a);
      if b != [] {
        FirstPoints(b);
        assert Covered(a, b[0].start) && Covered(b, a[0].start);
        assert !Covered(b, a[0].end) && !Covered(a, b[0].end);
        assert a[0] == b[0];
        forall p
          ensures Covered(a[1..], p) <==> Covered(b[1..], p)
        {
          TailPoints(a, p);
          TailPoints(b, p);
        }
        SeparatedUnique(a[1..], b[1..]);
      }
    }
  }

  /** Two inputs have the same coalesced list exactly when they cover the same points; so coalescing again, or
      coalescing a reordered input, changes nothing. */
  lemma CoalescedIffSamePoints(a: seq<Span>, b: seq<Span>, ra: seq<Span>, rb: seq<Span>)
    requires Separated(ra) && SamePoints(ra, a)
    requires Separated(rb) && SamePoints(rb, b)
    ensures ra == rb <==> SamePoints(a, b)
    ensures multiset(a) == multiset(b) ==> ra == rb
    ensures b == ra ==> rb == ra
  {
    if SamePoints(a, b) {
      SeparatedUnique(ra, rb);
    }
    if b == ra {
      SeparatedUnique(ra, rb);
    }
    if multiset(a) == multiset(b) {
      forall p
        ensures Covered(a, p) <==> Covered(b, p)
      {
        Reordered(a, b, p);
        Reordered(b, a, p);
      }
      SeparatedUnique(ra, rb);
    }
  }

  lemma Reordered(a: seq<Span>, b: seq<Span>, p: int)
    requires multiset(a) == multiset(b)
    ensures Covered(a, p) ==> Covered(b, p)
  {
    if Covered(a, p) {
      var k :| 0 <= k < |a| && Within(p, a[k]);
      assert a[k] in multiset(b);
      var j :| 0 <= j < |b| && b[j] == a[k];
    }
  }

  ghost predicate CrossesGap(r: seq<Span>, s: Span) {
    exists k :: 0 <= k < |r| - 1 && Within(r[k].end, s)
  }

  /** No list of windows covering the same points is shorter. */
  lemma FewestWindows(r: seq<Span>, l: seq<Span>)
    requires Separated(r) && SamePoints(r, l)
    ensures |r| <= |l|
  {
    forall j | 0 <= j < |l|
      ensures !CrossesGap(r, l[j])
    {
      if CrossesGap(r, l[j]) {
        var k :| 0 <= k < |r| - 1 && Within(r[k].end, l[j]);
        assert Covered(l, r[k].end);
        assert false;
      }
    }
    NoMoreThan(r, l);
  }

  lemma NotAcross(r: seq<Span>, s: Span, k: nat, n: nat, p: int)
    requires Separated(r) && k < n < |r| && Within(p, r[k]) && Within(r[n].start, s) && !CrossesGap(r, s)
    ensures !Within(p, s)
  {
    assert !Within(r[k].end, s);
  }

  lemma {:induction false} NoMoreThan(r: seq<Span>, l: seq<Span>)
    requires Separated(r) && (forall p | Covered(r, p) :: Covered(l, p))
    requires forall j | 0 <= j < |l| :: !CrossesGap(r, l[j])
    ensures |r| <= |l|
    decreases |r|
  {
    if r != [] {
      var n := |r| - 1;
      assert Within(r[n].start, r[n]);
      assert Covered(l, r[n].start);
      var i :| 0 <= i < |l| && Within(r[n].start, l[i]);
      var rest := l[..i] + l[i + 1..];
      forall p | Covered(r[..n], p)
        ensures Covered(rest, p)
      {
        var k :| 0 <= k < n && Within(p, r[..n][k]);
        assert Within(p, r[k]) && Covered(r, p);
        var j :| 0 <= j < |l| && Within(p, l[j]);
        NotAcross(r, l[i], k, n, p);
        assert rest[if j < i then j else j - 1] == l[j];
      }
      forall j | 0 <= j < |rest|
        ensures !CrossesGap(r[..n], rest[j])
      {
        assert rest[j] == l[if j < i then j else j + 1];
      }
      NoMoreThan(r[..n], rest);
    }
  }

  // ---------------------------------------------------------------- one step of the reduction

  lemma AppendedPoints(m: seq<Span>, s: Span, p: int)
    ensures Covered(m + [s], p) <==> Covered(m, p) || Within(p, s)
  {
    if Covered(m, p) {
      var k :| 0 <= k < |m| && Within(p, m[k]);
      assert (m + [s])[k] == m[k];
    }
    if Within(p, s) {
      assert (m + [s])[|m|] == s;
    }
  }

  function Max(a: int, b: int): int {
    if a < b then b else a
  }

  /** The last window grown up to an end, if it does not reach it already. */
  function Grown(m: seq<Span>, end: int): seq<Span>
    requires m != []
  {
    m[..|m| - 1] + [Span(m[|m| - 1].start, Max(m[|m| - 1].end, end))]
  }

  /** What the reduction has made of the first k windows. */
  ghost predicate Progress(m: seq<Span>, spans: seq<Span>, k: nat) {
    && k <= |spans| && Separated(m) && SamePoints(m, spans[..k])
    && forall i, j | 0 <= i < |m| && k <= j < |spans| :: m[i].start <= spans[j].start
  }

  lemma SameStep(m: seq<Span>, done: seq<Span>, s: Span)
    requires SamePoints(m, done)
    ensures SamePoints(m + [s], done + [s])
  {
    forall p
      ensures Covered(m + [s], p) <==> Covered(done + [s], p)
    {
      AppendedPoints(m, s, p);
      AppendedPoints(done, s, p);
    }
  }

  lemma PushStep(m: seq<Span>, spans: seq<Span>, k: nat)
    requires k < |spans| && Ordered(spans) && Progress(m, spans, k)
    requires spans[k].start < spans[k].end && (m == [] || m[|m| - 1].end < spans[k].start)
    ensures Progress(m + [spans[k]], spans, k + 1)
  {
    assert spans[..k + 1] == spans[..k] + [spans[k]];
    SameStep(m, spans[..k], spans[k]);
  }

  lemma GrowStep(m: seq<Span>, spans: seq<Span>, k: nat)
    requires k < |spans| && Ordered(spans) && Progress(m, spans, k)
    requires m != [] && spans[k].start <= m[|m| - 1].end
    ensures Progress(Grown(m, spans[k].end), spans, k + 1)
  {
    var n, s, g := |m| - 1, spans[k], Grown(m, spans[k].end);
    assert m == m[..n] + [m[n]] && spans[..k + 1] == spans[..k] + [s];
    SameStep(m, spans[..k], s);
    forall p
      ensures Covered(g, p) <==> Covered(m + [s], p)
    {
      AppendedPoints(m[..n], g[n], p);
      AppendedPoints(m[..n], m[n], p);
      AppendedPoints(m, s, p);
    }
  }

  ghost predicate Ordered(spans: seq<Span>) {
    forall i, j | 0 <= i < j < |spans| :: spans[i].start <= spans[j].start
  }

  // ---------------------------------------------------------------- the objects

  class Window {
    var start: Number
    var end: Number

    constructor (start: Number, end: Number)
      ensures this.start == start && this.end == end
    {
      this.start, this.end := start, end;
    }

    predicate Valid()
      reads this
    {
      start.Integer? && end.Integer? && start.value < end.value
    }

    function AsSpan(): Span
      reads this
      requires Valid()
    {
      Span(start.value, end.value)
    }
  }

  ghost predicate AllValid(ws: seq<Window>)
    reads ws
  {
    forall k | 0 <= k < |ws| :: ws[k].Valid()
  }

  ghost function Spans(ws: seq<Window>): (s: seq<Span>)
    reads ws
    requires AllValid(ws)
    ensures |s| == |ws| && forall k | 0 <= k < |ws| :: s[k] == ws[k].AsSpan()
  {
    seq(|ws|, k requires 0 <= k < |ws| reads ws requires AllValid(ws) => ws[k].AsSpan())
  }

  ghost predicate Distinct(ws: seq<Window>) {
    forall i, j | 0 <= i < j < |ws| :: ws[i] != ws[j]
  }

  method Insert(sorted: seq<Window>, w: Window) returns (r: seq<Window>)
    requires AllValid(sorted) && Ordered(Spans(sorted)) && Distinct(sorted) && w.Valid() && w !in sorted
    ensures Distinct(r) && forall v :: v in r <==> v in sorted || v == w
    ensures AllValid(r) && Ordered(Spans(r))
  {
    ghost var spans := Spans(sorted);
    var i := |sorted|;
    while i > 0 && w.start.value < sorted[i - 1].start.value
      invariant 0 <= i <= |sorted|
      invariant forall j | i <= j < |sorted| :: w.start.value < spans[j].start
    {
      i := i - 1;
    }
    r := sorted[..i] + [w] + sorted[i..];
    InsertedDistinct(sorted, w, i);
    assert Spans(r) == spans[..i] + [w.AsSpan()] + spans[i..];
    InsertedOrder(spans, w.AsSpan(), i);
  }

  lemma InsertedDistinct(sorted: seq<Window>, w: Window, i: nat)
    requires Distinct(sorted) && w !in sorted && i <= |sorted|
    ensures Distinct(sorted[..i] + [w] + sorted[i..])
    ensures forall v :: v in sorted[..i] + [w] + sorted[i..] <==> v in sorted || v == w
  {
    var r := sorted[..i] + [w] + sorted[i..];
    assert forall j | 0 <= j < |r| :: r[j] == if j < i then sorted[j] else if j == i then w else sorted[j - 1];
    assert sorted == sorted[..i] + sorted[i..];
  }

  lemma InsertedOrder(spans: seq<Span>, s: Span, i: nat)
    requires Ordered(spans) && i <= |spans| && (forall j | i <= j < |spans| :: s.start < spans[j].start)
    requires i > 0 ==> spans[i - 1].start <= s.start
    ensures Ordered(spans[..i] + [s] + spans[i..])
  {
    assert forall j | 0 <= j < i :: spans[j].start <= spans[i - 1].start;
  }

  /** The library sort, by start. */
  method SortByStart(ws: seq<Window>) returns (sorted: seq<Window>)
    requires AllValid(ws) && Distinct(ws)
    ensures Distinct(sorted) && (forall w :: w in sorted <==> w in ws)
    ensures AllValid(sorted) && Ordered(Spans(sorted))
  {
    sorted := [];
    for k := 0 to |ws|
      invariant Distinct(sorted) && (forall w :: w in sorted <==> w in ws[..k])
      invariant AllValid(sorted) && Ordered(Spans(sorted))
    {
      assert ws[k] !in ws[..k];
      sorted := Insert(sorted, ws[k]);
    }
    assert ws[..|ws|] == ws;
  }

  method Copies(windows: seq<Window>) returns (copies: seq<Window>)
    requires AllValid(windows)
    ensures Distinct(copies) && forall w | w in copies :: fresh(w)
    ensures AllValid(copies) && Spans(copies) == Spans(windows)
  {
    copies := [];
    for k := 0 to |windows|
      invariant |copies| == k && Distinct(copies) && forall w | w in copies :: fresh(w)
      invariant AllValid(copies) && forall j | 0 <= j < k :: Spans(copies)[j] == windows[j].AsSpan()
    {
      var copy := new Window(windows[k].start, windows[k].end);
      assert copy !in copies;
      copies := copies + [copy];
    }
  }

  /** Without valid windows an error; else separated windows, all of them new, over the same points. */
  method Coalesce(windows: seq<Window>) returns (r: Option<seq<Window>>)
    ensures r.Some? <==> AllValid(windows)
    ensures r.Some? ==> (forall w | w in r.value :: fresh(w)) && AllValid(r.value)
    ensures r.Some? ==> Separated(Spans(r.value)) && SamePoints(Spans(r.value), Spans(windows))
  {
    hide Separated, SamePoints;
    for k := 0 to |windows|
      invariant forall j | 0 <= j < k :: windows[j].Valid()
    {
      if !windows[k].Valid() {
        return None;
      }
    }
    var copies := Copies(windows);
    var sorted := SortByStart(copies);
    SameWindows(sorted, copies);
    assert forall j | 0 <= j < |sorted| :: sorted[j] in copies && fresh(sorted[j]);
    assert forall k | 0 <= k < |windows| :: windows[k] !in sorted;
    ghost var spans := Spans(sorted);
    var merged := Reduce(sorted);
    SamePointsTogether(Spans(merged), spans, Spans(windows));
    r := Some(merged);
  }

  lemma SamePointsTogether(a: seq<Span>, b: seq<Span>, c: seq<Span>)
    requires SamePoints(a, b) && SamePoints(b, c)
    ensures SamePoints(a, c)
  {
  }

  lemma SameWindows(a: seq<Window>, b: seq<Window>)
    requires AllValid(a) && AllValid(b) && forall w :: w in a <==> w in b
    ensures SamePoints(Spans(a), Spans(b))
  {
    forall p
      ensures Covered(Spans(a), p) <==> Covered(Spans(b), p)
    {
      if Covered(Spans(a), p) {
        var k :| 0 <= k < |a| && Within(p, Spans(a)[k]);
        assert a[k] in b;
        var j :| 0 <= j < |b| && b[j] == a[k];
        assert Within(p, Spans(b)[j]);
      }
      if Covered(Spans(b), p) {
        var k :| 0 <= k < |b| && Within(p, Spans(b)[k]);
        assert b[k] in a;
        var j :| 0 <= j < |a| && a[j] == b[k];
        assert Within(p, Spans(a)[j]);
      }
    }
  }

  /** The end of the last window pushed is changed in place. */
  method Grow(merged: seq<Window>, end: int)
    requires AllValid(merged) && Distinct(merged) && merged != []
    modifies merged[|merged| - 1]
    ensures AllValid(merged)
    ensures Spans(merged) == Grown(old(Spans(merged)), end)
  {
    var previous := merged[|merged| - 1];
    previous.end := Integer(Max(previous.end.value, end));
  }

  /** The loop of the reduction: the windows pushed are none of those still to come. */
  ghost predicate Reducing(sorted: seq<Window>, merged: seq<Window>, spans: seq<Span>, k: nat)
    reads sorted, merged
  {
    && k <= |sorted| == |spans| && AllValid(sorted) && AllValid(merged) && Distinct(merged)
    && (forall w | w in merged :: w in sorted && w !in sorted[k..])
    && (forall j | k <= j < |sorted| :: sorted[j].AsSpan() == spans[j])
    && Progress(Spans(merged), spans, k)
  }

  method Step(sorted: seq<Window>, merged: seq<Window>, ghost spans: seq<Span>, k: nat) returns (next: seq<Window>)
    requires Reducing(sorted, merged, spans, k) && k < |sorted| && Distinct(sorted) && Ordered(spans)
    modifies merged
    ensures Reducing(sorted, next, spans, k + 1)
  {
    hide Progress, Ordered, Separated, SamePoints, Grown;
    var window := sorted[k];
    assert window in sorted[k..] && forall w | w in sorted[k + 1..] :: w in sorted[k..] && w != window;
    if |merged| == 0 || merged[|merged| - 1].end.value < window.start.value {
      PushStep(Spans(merged), spans, k);
      next := merged + [window];
      assert Spans(next) == Spans(merged) + [spans[k]];
    } else {
      assert merged[|merged| - 1] in merged;
      GrowStep(Spans(merged), spans, k);
      Grow(merged, window.end.value);
      next := merged;
    }
  }

  /** The reduction: push a window, or move the end of the last one pushed. */
  method Reduce(sorted: seq<Window>) returns (merged: seq<Window>)
    requires AllValid(sorted) && Distinct(sorted) && Ordered(Spans(sorted))
    modifies sorted
    ensures AllValid(merged) && forall w | w in merged :: w in sorted
    ensures Separated(Spans(merged)) && SamePoints(Spans(merged), old(Spans(sorted)))
  {
    merged := [];
    ghost var spans := Spans(sorted);
    assert spans[..0] == [] == Spans(merged) && Progress([], spans, 0);
    hide Progress, Ordered, Separated, SamePoints;
    for k := 0 to |sorted|
      invariant Reducing(sorted, merged, spans, k)
    {
      assert forall j | 0 <= j < |merged| :: merged[j] in sorted;
      merged := Step(sorted, merged, spans, k);
    }
    AllReduced(Spans(merged), spans);
  }

  lemma AllReduced(m: seq<Span>, spans: seq<Span>)
    requires Progress(m, spans, |spans|)
    ensures Separated(m) && SamePoints(m, spans)
  {
    assert spans[..|spans|] == spans;
  }
}
