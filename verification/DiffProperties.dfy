/** Reading a printed diff recovers its edit script, and what the reader gets wrong otherwise. */
module DiffProperties {
  import opened Decimal
  import opened DiffReader
  import opened Prefixes
  import opened Scanning
  import opened Wrappers

  // ---------------------------------------------------------------- hunk headers

  lemma NewCountSkipped(count: Option<nat>, rest: string)
    requires rest != "" && !IsDigit(rest[0]) && rest[0] != ','
    ensures SkipNewCount(CountText(count) + rest) == rest
  {
    hide TakeNat, TakeText, NatText;
    if count.Some? {
      assert CountText(count) + rest == "," + (NatText(count.value) + rest);
      TakesText(",", NatText(count.value) + rest);
      TakesNat(count.value, rest);
    } else {
      assert CountText(count) + rest == rest;
      assert TakeText(rest, ",").None? by { NotTaken(rest, ","); }
    }
  }

  lemma NotTaken(s: string, p: string)
    requires p != "" && (s == "" || s[0] != p[0])
    ensures TakeText(s, p).None?
  {
  }

  lemma CountTextStart(count: Option<nat>, rest: string)
    requires rest != "" && !IsDigit(rest[0])
    ensures CountText(count) + rest != "" && !IsDigit((CountText(count) + rest)[0])
    ensures (CountText(count) + rest)[0] == if count.Some? then ',' else rest[0]
  {
  }

  /** What follows the old start of a header, as the pattern reads it. */
  lemma HeaderTail(h: Hunk)
    ensures var rest := CountText(h.newCount) + (" @@" + h.section);
      HeaderLine(h) == "@@ -" + (NatText(h.oldStart) + (CountText(h.oldCount) + (" +" + (NatText(h.newStart) + rest))))
      && rest != "" && !IsDigit(rest[0]) && StartsWith(SkipNewCount(rest), " @@")
  {
    hide NatText;
    var end := " @@" + h.section;
    CountTextStart(h.newCount, end);
    NewCountSkipped(h.newCount, end);
    TakesText(" @@", h.section);
  }

  /** With both old numbers a header gives its new start. */
  lemma HeaderReads(h: Hunk)
    requires h.oldCount.Some?
    ensures HeaderStart(HeaderLine(h)) == Some(h.newStart)
  {
    HeaderTail(h);
    hide TakeNat, TakeText, NatText, SkipNewCount;
    var rest := CountText(h.newCount) + (" @@" + h.section);
    var f := NatText(h.newStart) + rest;
    var e := " +" + f;
    var d := NatText(h.oldCount.value) + e;
    var c := "," + d;
    assert CountText(h.oldCount) + e == c;
    TakesText("@@ -", NatText(h.oldStart) + c);
    TakesNat(h.oldStart, c);
    TakesText(",", d);
    TakesNat(h.oldCount.value, e);
    TakesText(" +", f);
    TakesNat(h.newStart, rest);
  }

  ghost predicate Digits(s: string) {
    s != "" && forall k | 0 <= k < |s| :: IsDigit(s[k])
  }

  /** A header as the pattern has it: digits, perhaps with zeros in front, for both old numbers and the new start, and
      perhaps a new count. */
  ghost predicate IsHeader(s: string, a: string, b: string, c: string, d: Option<string>, tail: string) {
    && Digits(a) && Digits(b) && Digits(c) && (d.Some? ==> Digits(d.value))
    && s == "@@ -" + (a + ("," + (b + (" +" + (c + ((if d.Some? then "," + d.value else "") + (" @@" + tail)))))))
  }

  lemma TakesDigits(digits: string, rest: string)
    requires Digits(digits) && (rest == "" || !IsDigit(rest[0]))
    ensures TakeNat(digits + rest) == Some((NatValue(digits), rest))
  {
    DigitsRun(digits, rest);
    var s := digits + rest;
    assert s[..|digits|] == digits && s[|digits|..] == rest;
  }

  lemma CountSkipped(d: Option<string>, end: string)
    requires (d.Some? ==> Digits(d.value)) && end != "" && !IsDigit(end[0]) && end[0] != ','
    ensures SkipNewCount((if d.Some? then "," + d.value else "") + end) == end
  {
    hide TakeNat, TakeText;
    if d.Some? {
      assert "," + d.value + end == "," + (d.value + end);
      TakesText(",", d.value + end);
      TakesDigits(d.value, end);
    } else {
      assert "" + end == end;
      NotTaken(end, ",");
    }
  }

  lemma HeaderMatches(s: string, a: string, b: string, c: string, d: Option<string>, tail: string)
    requires IsHeader(s, a, b, c, d, tail)
    ensures HeaderAt(s) == Some(NatValue(c))
  {
    hide TakeNat, TakeText, SkipNewCount, NatValue;
    var end := " @@" + tail;
    var f := (if d.Some? then "," + d.value else "") + end;
    CountSkipped(d, end);
    TakesText(" @@", tail);
    var z := c + f;
    var y := b + (" +" + z);
    var x := a + ("," + y);
    TakesText("@@ -", x);
    TakesDigits(a, "," + y);
    TakesText(",", y);
    TakesDigits(b, " +" + z);
    TakesText(" +", z);
    TakesDigits(c, f);
  }

  lemma MatchedHeader(s: string) returns (a: string, b: string, c: string, d: Option<string>, tail: string)
    requires HeaderAt(s).Some?
    ensures IsHeader(s, a, b, c, d, tail)
  {
    hide TakeNat, TakeText, SkipNewCount;
    var x := TakeText(s, "@@ -").value;
    TakenText(s, "@@ -");
    a := TakenNat(x);
    var x1 := TakeNat(x).value.1;
    TakenText(x1, ",");
    var y := TakeText(x1, ",").value;
    b := TakenNat(y);
    var y1 := TakeNat(y).value.1;
    TakenText(y1, " +");
    var z := TakeText(y1, " +").value;
    c := TakenNat(z);
    var f := TakeNat(z).value.1;
    var end := SkipNewCount(f);
    d := CountBefore(f);
    TakesFront(end, " @@");
    tail := end[3..];
  }

  lemma TakesFront(s: string, p: string)
    requires StartsWith(s, p)
    ensures s == p + s[|p|..]
  {
  }

  lemma CountBefore(f: string) returns (d: Option<string>)
    ensures d.Some? ==> Digits(d.value)
    ensures f == (if d.Some? then "," + d.value else "") + SkipNewCount(f)
  {
    hide TakeNat, TakeText;
    d := None;
    assert "" + f == f;
    if TakeText(f, ",").Some? {
      TakenText(f, ",");
      var t := TakeText(f, ",").value;
      if TakeNat(t).Some? {
        var digits := TakenNat(t);
        d := Some(digits);
        assert "," + digits + TakeNat(t).value.1 == f;
      }
    }
  }

  /** The front of a text is read as a header exactly when it is one, and then as its new start. */
  lemma HeaderAtIff(s: string)
    ensures HeaderAt(s).Some? <==> exists a, b, c, d, tail :: IsHeader(s, a, b, c, d, tail)
    ensures forall a, b, c, d, tail | IsHeader(s, a, b, c, d, tail) :: HeaderAt(s) == Some(NatValue(c))
  {
    hide HeaderAt;
    if HeaderAt(s).Some? {
      var a, b, c, d, tail := MatchedHeader(s);
    }
    forall a, b, c, d, tail | IsHeader(s, a, b, c, d, tail)
      ensures HeaderAt(s) == Some(NatValue(c))
    {
      HeaderMatches(s, a, b, c, d, tail);
    }
  }

  /** A text without a sign in front of another hides no header. */
  lemma {:induction false} NoSignSkipped(a: string, rest: string)
    requires '@' !in a
    ensures HeaderStart(a + rest) == HeaderStart(rest)
    decreases |a|
  {
    if a == "" {
      assert a + rest == rest;
    } else {
      hide TakeNat, SkipNewCount;
      NotTaken(a + rest, "@@ -");
      assert (a + rest)[1..] == a[1..] + rest;
      NoSignSkipped(a[1..], rest);
    }
  }

  lemma OpeningFails(h: Hunk)
    requires h.oldCount.None?
    ensures HeaderAt(HeaderLine(h)).None?
  {
    HeaderTail(h);
    hide TakeNat, TakeText, NatText, SkipNewCount;
    var e := " +" + (NatText(h.newStart) + (CountText(h.newCount) + (" @@" + h.section)));
    assert CountText(h.oldCount) + e == e;
    TakesText("@@ -", NatText(h.oldStart) + e);
    TakesNat(h.oldStart, e);
    NotTaken(e, ",");
  }

  /** What stands between the opening and the closing signs of a header without the old count. */
  function HeaderMiddle(h: Hunk): string {
    " -" + (NatText(h.oldStart) + (" +" + (NatText(h.newStart) + (CountText(h.newCount) + " "))))
  }

  lemma MiddleOf(h: Hunk)
    requires h.oldCount.None?
    ensures HeaderLine(h) == "@@" + (HeaderMiddle(h) + ("@@" + h.section))
    ensures '@' !in HeaderMiddle(h) && HeaderMiddle(h)[0] == ' '
  {
    hide NatText;
    NumbersHaveNoSign(h);
    assert CountText(h.oldCount) == "";
    assert HeaderLine(h) == "@@" + (HeaderMiddle(h) + ("@@" + h.section));
  }

  /** A header without the old count is not read: only its closing signs and its section text are searched, as a
      header of their own. */
  lemma HeaderWithoutCount(h: Hunk)
    requires h.oldCount.None?
    ensures HeaderStart(HeaderLine(h)) == HeaderStart("@@" + h.section)
  {
    OpeningFails(h);
    MiddleOf(h);
    hide HeaderAt, HeaderMiddle, HeaderLine;
    var s, rest := HeaderLine(h), "@@" + h.section;
    var t := s[1..];
    assert t[0] == '@' && t[1..] == HeaderMiddle(h) + rest;
    assert t[1] == ' ';
    SecondSignFails(t);
    NoSignSkipped(HeaderMiddle(h), rest);
    assert HeaderStart(t) == HeaderStart(t[1..]);
  }

  lemma SecondSignFails(s: string)
    requires |s| > 1 && s[1] != '@'
    ensures HeaderAt(s).None?
  {
    hide TakeNat, SkipNewCount;
    DiffersFrom(s, "@@ -", 1);
  }

  lemma NumbersHaveNoSign(h: Hunk)
    ensures '@' !in NatText(h.oldStart) && '@' !in NatText(h.newStart) && '@' !in CountText(h.newCount)
  {
    NatTextDigits(h.oldStart);
    NatTextDigits(h.newStart);
    if h.newCount.Some? {
      NatTextDigits(h.newCount.value);
    }
  }

  lemma HeaderOpens(h: Hunk)
    ensures StartsWith(HeaderLine(h), "@@ ") && !StartsWith(HeaderLine(h), "+++ b/")
  {
    hide NatText;
    var s := HeaderLine(h);
    assert s[..3] == "@@ ";
    DiffersFrom(s, "+++ b/", 0);
  }

  // ---------------------------------------------------------------- reading the parts of a diff

  lemma {:induction false} ReadAppended(r: Reading, a: seq<string>, b: seq<string>)
    ensures ReadLines(r, a + b) == ReadLines(ReadLines(r, a), b)
    decreases |b|
  {
    hide ReadLine;
    if b == [] {
      assert a + b == a;
    } else {
      assert (a + b)[..|a + b| - 1] == a + b[..|b| - 1];
      ReadAppended(r, a, b[..|b| - 1]);
    }
  }

  lemma ReadOne(r: Reading, line: string)
    ensures ReadLines(r, [line]) == ReadLine(r, line)
  {
    hide ReadLine;
    assert [line][..0] == [] && ReadLines(r, []) == r;
  }

  /** A file is being read. */
  ghost predicate Reads(r: Reading, path: string) {
    path != "" && r.current == Some(path) && path in r.files
  }

  predicate Plus(c: Change) {
    c.Add? && StartsWith(c.text, "++")
  }

  lemma ReadChange(r: Reading, path: string, c: Change)
    requires Reads(r, path) && !Plus(c)
    ensures ReadLine(r, ChangeLine(c)) ==
      match c {
        case Keep(_) => r.(line := r.line + 1)
        case Add(_) => r.(files := r.files[path := r.files[path] + {r.line}], line := r.line + 1)
        case Delete(_) => r
        case NoNewline => r.(line := r.line + 1)
      }
  {
    hide StartsWith, HeaderStart, Trim;
    var line := ChangeLine(c);
    if c.Add? {
      assert line == "+" + c.text;
      TakesText("+", c.text);
      PlusText(c.text);
      PlusesOpen(line);
      DiffersFrom(line, "@@ ", 0);
    } else {
      DiffersFrom(line, "+++ b/", 0);
      DiffersFrom(line, "@@ ", 0);
      DiffersFrom(line, "+", 0);
      if c.Delete? {
        TakesText("-", c.text);
      } else {
        DiffersFrom(line, "-", 0);
      }
    }
  }

  lemma PlusText(text: string)
    ensures StartsWith("+" + text, "+++") <==> StartsWith(text, "++")
  {
    var line := "+" + text;
    if |text| >= 2 {
      assert line[..3] == "+" + text[..2];
      assert "+++" == "+" + "++";
      assert line[..3] == "+++" ==> line[..3][1..] == "++";
      assert ("+" + text[..2])[1..] == text[..2];
    }
  }

  lemma PlusesOpen(line: string)
    ensures StartsWith(line, "+++ b/") ==> StartsWith(line, "+++")
  {
    if StartsWith(line, "+++ b/") {
      assert line[..3] == line[..6][..3] == "+++";
    }
  }

  lemma AddedAppended(changes: seq<Change>, start: nat)
    requires changes != []
    ensures var n := |changes| - 1;
      AddedAt(changes, start) == AddedAt(changes[..n], start)
        + if changes[n].Add? then {start + |NewLines(changes[..n])|} else {}
  {
    var n := |changes| - 1;
    var before, after := NewLines(changes[..n]), NewLines(changes);
    assert before <= after;
    assert forall k | 0 <= k < |before| :: after[k] == before[k];
    if changes[n].Add? {
      assert after[|before|] == changes[n];
      assert start + |before| in AddedAt(changes, start);
    }
  }

  // ---------------------------------------------------------------- where the counter stands

  /** How far the lines of a hunk move the counter: markers do, deleted lines do not. */
  function Moves(changes: seq<Change>): nat {
    if changes == [] then 0
    else Moves(changes[..|changes| - 1]) + if changes[|changes| - 1].Delete? then 0 else 1
  }

  function Markers(changes: seq<Change>): nat {
    if changes == [] then 0
    else Markers(changes[..|changes| - 1]) + if changes[|changes| - 1].NoNewline? then 1 else 0
  }

  lemma {:induction false} MovesAre(changes: seq<Change>)
    ensures Moves(changes) == |NewLines(changes)| + Markers(changes)
    decreases |changes|
  {
    if changes != [] {
      MovesAre(changes[..|changes| - 1]);
    }
  }

  /** The counter at the first line of a hunk, when it stood at `c` before the header. */
  function StartRead(h: Hunk, c: nat): nat {
    if h.oldCount.Some? then h.newStart
    else match HeaderStart("@@" + h.section) case Some(start) => start case None => c
  }

  function CounterAfter(hunks: seq<Hunk>, c: nat): nat {
    if hunks == [] then c
    else
      var h := hunks[|hunks| - 1];
      StartRead(h, CounterAfter(hunks[..|hunks| - 1], c)) + Moves(h.changes)
  }

  /** Lines before a file's header move it too, once a file is being read. */
  function PreambleMoves(lines: seq<string>): nat {
    if lines == [] then 0
    else PreambleMoves(lines[..|lines| - 1]) + if StartsWith(lines[|lines| - 1], "-") then 0 else 1
  }

  /** The counter before the first hunk of the last file. */
  function CounterBefore(files: seq<FileDiff>): nat
    requires files != []
    decreases |files|, 0
  {
    var n := |files| - 1;
    CounterAfterFiles(files[..n]) + if n == 0 then 0 else PreambleMoves(files[n].preamble)
  }

  function CounterAfterFiles(files: seq<FileDiff>): nat
    decreases |files|, 1
  {
    if files == [] then 0 else CounterAfter(files[|files| - 1].hunks, CounterBefore(files))
  }

  // ---------------------------------------------------------------- what the reader records, in order

  /** The counter at each added line. */
  function RecordedAt(changes: seq<Change>, start: nat): seq<nat> {
    if changes == [] then []
    else
      var n := |changes| - 1;
      RecordedAt(changes[..n], start) + if changes[n].Add? then [start + Moves(changes[..n])] else []
  }

  function HunksRecorded(hunks: seq<Hunk>, c: nat): seq<nat> {
    if hunks == [] then []
    else
      var n := |hunks| - 1;
      HunksRecorded(hunks[..n], c) + RecordedAt(hunks[n].changes, StartRead(hunks[n], CounterAfter(hunks[..n], c)))
  }

  ghost function Elements(s: seq<nat>): set<nat> {
    set x | x in s
  }

  function Of(files: Recorded, path: string): set<nat> {
    if path in files then files[path] else {}
  }

  ghost function FilesRecorded(files: seq<FileDiff>): Recorded {
    if files == [] then map[]
    else
      var n := |files| - 1;
      var before := FilesRecorded(files[..n]);
      before[files[n].path := Of(before, files[n].path) + Elements(HunksRecorded(files[n].hunks, CounterBefore(files)))]
  }

  ghost function Record(r: Reading, path: string, positions: seq<nat>, line: nat): Reading
    requires path in r.files
  {
    r.(files := r.files[path := r.files[path] + Elements(positions)], line := line)
  }

  lemma RecordNone(r: Reading, path: string)
    requires path in r.files
    ensures Record(r, path, [], r.line) == r
  {
    assert r.files[path] + Elements([]) == r.files[path];
  }

  lemma RecordTwice(r: Reading, path: string, a: seq<nat>, b: seq<nat>, m: nat, n: nat)
    requires path in r.files
    ensures Record(Record(r, path, a, m), path, b, n) == Record(r, path, a + b, n)
  {
    assert r.files[path] + Elements(a) + Elements(b) == r.files[path] + Elements(a + b);
  }

  lemma ReadChangeRecords(r: Reading, path: string, c: Change)
    requires Reads(r, path) && !Plus(c)
    ensures ReadLine(r, ChangeLine(c))
         == Record(r, path, if c.Add? then [r.line] else [], r.line + if c.Delete? then 0 else 1)
  {
    hide ReadLine, ChangeLine, Plus;
    ReadChange(r, path, c);
    assert Elements([r.line]) == {r.line};
    RecordNone(r, path);
  }

  lemma {:induction false} ReadChanges(r: Reading, path: string, changes: seq<Change>)
    requires Reads(r, path) && forall c | c in changes :: !Plus(c)
    ensures ReadLines(r, ChangeLines(changes))
         == Record(r, path, RecordedAt(changes, r.line), r.line + Moves(changes))
    decreases |changes|
  {
    hide ReadLine, ChangeLine, Plus;
    if changes == [] {
      RecordNone(r, path);
      assert ChangeLines(changes) == [];
    } else {
      var n := |changes| - 1;
      assert ChangeLines(changes)[..n] == ChangeLines(changes[..n]);
      ReadChanges(r, path, changes[..n]);
      var s := Record(r, path, RecordedAt(changes[..n], r.line), r.line + Moves(changes[..n]));
      ReadChangeRecords(s, path, changes[n]);
      hide Record;
      RecordTwice(r, path, RecordedAt(changes[..n], r.line), if changes[n].Add? then [s.line] else [],
                  s.line, s.line + if changes[n].Delete? then 0 else 1);
    }
  }

  lemma ReadHeader(r: Reading, h: Hunk)
    ensures ReadLine(r, HeaderLine(h)) == r.(line := StartRead(h, r.line))
  {
    hide StartsWith, HeaderStart, Trim, HeaderLine;
    HeaderOpens(h);
    if h.oldCount.Some? {
      HeaderReads(h);
    } else {
      HeaderWithoutCount(h);
    }
  }

  lemma ReadHunk(r: Reading, path: string, h: Hunk)
    requires Reads(r, path) && forall c | c in h.changes :: !Plus(c)
    ensures var start := StartRead(h, r.line);
      ReadLines(r, [HeaderLine(h)] + ChangeLines(h.changes))
      == Record(r, path, RecordedAt(h.changes, start), start + Moves(h.changes))
  {
    hide ReadLine, HeaderLine, ChangeLine, Plus, StartRead, ReadLines, RecordedAt, Moves;
    ReadAppended(r, [HeaderLine(h)], ChangeLines(h.changes));
    ReadOne(r, HeaderLine(h));
    ReadHeader(r, h);
    ReadChanges(r.(line := StartRead(h, r.line)), path, h.changes);
  }

  ghost predicate NoPlus(hunks: seq<Hunk>) {
    forall h | h in hunks :: forall c | c in h.changes :: !Plus(c)
  }

  lemma {:induction false} ReadHunks(r: Reading, path: string, hunks: seq<Hunk>)
    requires Reads(r, path) && NoPlus(hunks)
    ensures ReadLines(r, HunkLines(hunks)) == Record(r, path, HunksRecorded(hunks, r.line), CounterAfter(hunks, r.line))
    decreases |hunks|
  {
    hide ReadLine, HeaderLine, ChangeLines, StartRead, RecordedAt, Moves, Plus;
    if hunks == [] {
      RecordNone(r, path);
    } else {
      var n := |hunks| - 1;
      ReadHunks(r, path, hunks[..n]);
      var c := CounterAfter(hunks[..n], r.line);
      var s := Record(r, path, HunksRecorded(hunks[..n], r.line), c);
      ReadAppended(r, HunkLines(hunks[..n]), [HeaderLine(hunks[n])] + ChangeLines(hunks[n].changes));
      assert ReadLines(r, HunkLines(hunks)) == ReadLines(s, [HeaderLine(hunks[n])] + ChangeLines(hunks[n].changes));
      ReadHunk(s, path, hunks[n]);
      hide Record;
      var start := StartRead(hunks[n], c);
      RecordTwice(r, path, HunksRecorded(hunks[..n], r.line), RecordedAt(hunks[n].changes, start), c,
                  start + Moves(hunks[n].changes));
    }
  }

  /** Lines before a file's header: none opens with a plus sign or with two signs. */
  ghost predicate PlainPreamble(lines: seq<string>) {
    forall line | line in lines :: Clean(line) && !StartsWith(line, "+") && !StartsWith(line, "@@ ")
  }

  predicate IsReading(r: Reading) {
    r.current.Some? && r.current.value != "" && r.current.value in r.files
  }

  lemma ReadPreambleLine(r: Reading, line: string)
    requires !StartsWith(line, "+") && !StartsWith(line, "@@ ")
    ensures ReadLine(r, line) == r.(line := r.line + if IsReading(r) && !StartsWith(line, "-") then 1 else 0)
  {
    hide HeaderStart, Trim;
  }

  lemma {:induction false} ReadPreamble(r: Reading, lines: seq<string>)
    requires PlainPreamble(lines)
    ensures ReadLines(r, lines) == r.(line := r.line + if IsReading(r) then PreambleMoves(lines) else 0)
    decreases |lines|
  {
    hide ReadLine, StartsWith;
    if lines != [] {
      var n := |lines| - 1;
      ReadPreamble(r, lines[..n]);
      assert lines[n] in lines;
      ReadPreambleLine(ReadLines(r, lines[..n]), lines[n]);
    }
  }

  /** A path that a header line carries: not empty, trimmed. */
  ghost predicate PlainPath(path: string) {
    path != "" && Trim(path) == path && Clean(path)
  }

  lemma ReadPathLine(r: Reading, f: FileDiff)
    requires PlainPath(f.path) && Spaces(f.blanks)
    ensures ReadLine(r, PathLine(f))
         == r.(current := Some(f.path), files := if f.path in r.files then r.files else r.files[f.path := {}])
  {
    hide Trim, HeaderStart;
    TakesText("+++ b/", f.path + f.blanks);
    var pre, post := TrimParts(f.path);
    assert "" + (f.path + f.blanks) == f.path + f.blanks;
    TrimIs("", f.path, f.blanks);
  }

  /** A file that is printed line by line as it stands. */
  ghost predicate Printable(f: FileDiff) {
    && PlainPreamble(f.preamble) && PlainPath(f.path) && Spaces(f.blanks) && Clean(f.blanks)
    && forall h | h in f.hunks :: CleanHunk(h)
  }

  ghost predicate CleanHunk(h: Hunk) {
    Clean(h.section) && forall c | c in h.changes && !c.NoNewline? :: Clean(c.text)
  }

  lemma ReadFile(r: Reading, f: FileDiff)
    requires Printable(f) && NoPlus(f.hunks)
    ensures var c := r.line + if IsReading(r) then PreambleMoves(f.preamble) else 0;
      ReadLines(r, LinesOf(f))
      == Reading(r.files[f.path := Of(r.files, f.path) + Elements(HunksRecorded(f.hunks, c))], Some(f.path),
                 CounterAfter(f.hunks, c))
  {
    hide ReadLine, HunkLines, HunksRecorded, CounterAfter, CleanHunk, ReadLines, NoPlus, PreambleMoves;
    ReadAppended(r, f.preamble, [PathLine(f)] + HunkLines(f.hunks));
    ReadPreamble(r, f.preamble);
    var s := ReadLines(r, f.preamble);
    ReadAppended(s, [PathLine(f)], HunkLines(f.hunks));
    ReadOne(s, PathLine(f));
    ReadPathLine(s, f);
    ReadHunks(ReadLine(s, PathLine(f)), f.path, f.hunks);
  }

  /** The reader after some files. */
  ghost function After(files: seq<FileDiff>): Reading {
    Reading(FilesRecorded(files), if files == [] then None else Some(files[|files| - 1].path), CounterAfterFiles(files))
  }

  lemma AfterReads(files: seq<FileDiff>)
    requires forall f | f in files :: PlainPath(f.path)
    ensures IsReading(After(files)) <==> files != []
  {
    hide HunksRecorded, CounterBefore, CounterAfter, Elements, Trim;
    if files != [] {
      assert PlainPath(files[|files| - 1].path);
    }
  }

  lemma AfterStep(files: seq<FileDiff>)
    requires files != [] && forall f | f in files :: PlainPath(f.path)
    ensures var n := |files| - 1;
      var f, s := files[n], After(files[..n]);
      var c := s.line + if IsReading(s) then PreambleMoves(f.preamble) else 0;
      After(files) == Reading(s.files[f.path := Of(s.files, f.path) + Elements(HunksRecorded(f.hunks, c))], Some(f.path),
                              CounterAfter(f.hunks, c))
  {
    hide HunksRecorded, CounterAfter, PreambleMoves, PlainPath, Elements, IsReading;
    AfterReads(files[..|files| - 1]);
  }

  lemma ReadNothing()
    ensures ReadLines(NOTHING_READ, []) == After([])
  {
  }

  lemma {:induction false} ReadFiles(files: seq<FileDiff>)
    requires forall f | f in files :: Printable(f) && NoPlus(f.hunks)
    ensures ReadLines(NOTHING_READ, FileLines(files)) == After(files)
    decreases |files|
  {
    hide ReadLines, LinesOf, HunksRecorded, CounterAfter, NoPlus, PreambleMoves, CleanHunk, Elements, After, IsReading,
      PlainPreamble, PlainPath;
    if files == [] {
      ReadNothing();
    } else {
      var n := |files| - 1;
      var f := files[n];
      assert f in files;
      ReadFiles(files[..n]);
      ReadAppended(NOTHING_READ, FileLines(files[..n]), LinesOf(f));
      hide Printable;
      ReadFile(After(files[..n]), f);
      assert forall g | g in files :: PlainPath(g.path) by { PathsArePlain(files); }
      AfterStep(files);
    }
  }

  lemma PathsArePlain(files: seq<FileDiff>)
    requires forall f | f in files :: Printable(f)
    ensures forall f | f in files :: PlainPath(f.path)
  {
    hide PlainPath, CleanHunk;
  }

  // ---------------------------------------------------------------- the printed text

  ghost predicate CleanLines(lines: seq<string>) {
    forall k | 0 <= k < |lines| :: Clean(lines[k])
  }

  lemma NumberIsClean(n: nat)
    ensures Clean(NatText(n))
  {
    NatTextDigits(n);
  }

  lemma CountIsClean(count: Option<nat>)
    ensures Clean(CountText(count))
  {
    hide NatText;
    if count.Some? {
      NumberIsClean(count.value);
    }
  }

  lemma HeaderIsClean(h: Hunk)
    requires Clean(h.section)
    ensures Clean(HeaderLine(h))
  {
    hide NatText, CountText;
    NumberIsClean(h.oldStart);
    NumberIsClean(h.newStart);
    CountIsClean(h.oldCount);
    CountIsClean(h.newCount);
  }

  lemma {:induction false} HunkLinesClean(hunks: seq<Hunk>)
    requires forall h | h in hunks :: CleanHunk(h)
    ensures CleanLines(HunkLines(hunks))
    decreases |hunks|
  {
    hide HeaderLine, Clean;
    if hunks != [] {
      var n := |hunks| - 1;
      HunkLinesClean(hunks[..n]);
      assert CleanHunk(hunks[n]);
      HeaderIsClean(hunks[n]);
      forall c | c in hunks[n].changes
        ensures Clean(ChangeLine(c))
      {
        ChangeIsClean(c);
      }
    }
  }

  lemma ChangeIsClean(c: Change)
    requires c.NoNewline? || Clean(c.text)
    ensures Clean(ChangeLine(c))
  {
  }

  lemma PathLineIsClean(f: FileDiff)
    requires Clean(f.path) && Clean(f.blanks)
    ensures Clean(PathLine(f))
  {
  }

  lemma {:induction false} FileLinesClean(files: seq<FileDiff>)
    requires forall f | f in files :: Printable(f)
    ensures CleanLines(FileLines(files))
    decreases |files|
  {
    hide HunkLines, Clean, CleanHunk;
    if files != [] {
      var n := |files| - 1;
      var f := files[n];
      FileLinesClean(files[..n]);
      assert Printable(f);
      HunkLinesClean(f.hunks);
      PathLineIsClean(f);
    }
  }

  lemma ReadPrinted(files: seq<FileDiff>)
    requires forall f | f in files :: Printable(f)
    ensures Read(Printed(files)) == ReadLines(NOTHING_READ, FileLines(files)).files
  {
    hide ReadLine, SplitLines, JoinLines, Printable;
    FileLinesClean(files);
    if FileLines(files) == [] {
      EmptyText();
    } else {
      JoinedLinesSplit(FileLines(files));
    }
  }

  lemma EmptyText()
    ensures Read(JoinLines([])) == ReadLines(NOTHING_READ, []).files
  {
    assert SplitLines("") == [""];
    ReadOne(NOTHING_READ, "");
  }

  // ---------------------------------------------------------------- the added positions, in order

  function PositionsAt(changes: seq<Change>, start: nat): seq<nat> {
    if changes == [] then []
    else
      var n := |changes| - 1;
      PositionsAt(changes[..n], start) + if changes[n].Add? then [start + |NewLines(changes[..n])|] else []
  }

  function HunksPositions(hunks: seq<Hunk>): seq<nat> {
    if hunks == [] then []
    else
      var n := |hunks| - 1;
      HunksPositions(hunks[..n]) + PositionsAt(hunks[n].changes, hunks[n].newStart)
  }

  lemma {:induction false} PositionsAre(changes: seq<Change>, start: nat)
    ensures Elements(PositionsAt(changes, start)) == AddedAt(changes, start)
    decreases |changes|
  {
    hide AddedAt;
    if changes == [] {
      NothingAdded(start);
    } else {
      PositionsAre(changes[..|changes| - 1], start);
      AddedAppended(changes, start);
    }
  }

  lemma NothingAdded(start: nat)
    ensures AddedAt([], start) == {}
  {
  }

  lemma {:induction false} HunksPositionsAre(hunks: seq<Hunk>, position: nat)
    ensures position in HunksPositions(hunks)
       <==> exists k :: 0 <= k < |hunks| && position in AddedAt(hunks[k].changes, hunks[k].newStart)
    decreases |hunks|
  {
    hide AddedAt, PositionsAt;
    if hunks != [] {
      var n := |hunks| - 1;
      HunksPositionsAre(hunks[..n], position);
      PositionsAre(hunks[n].changes, hunks[n].newStart);
      assert position in Elements(PositionsAt(hunks[n].changes, hunks[n].newStart))
        <==> position in PositionsAt(hunks[n].changes, hunks[n].newStart);
      assert forall k | 0 <= k < n :: hunks[..n][k] == hunks[k];
      if k :| 0 <= k < |hunks| && position in AddedAt(hunks[k].changes, hunks[k].newStart) {
        assert k < n ==> position in AddedAt(hunks[..n][k].changes, hunks[..n][k].newStart);
      }
    }
  }

  lemma FilePositionsAre(f: FileDiff, position: nat)
    ensures position in HunksPositions(f.hunks) <==> AddedIn(f, position)
  {
    HunksPositionsAre(f.hunks, position);
  }

  // ---------------------------------------------------------------- when every addition is where the counter stands

  /** At every addition the counter, moved by the markers before it, agrees with the start that the hunk states. */
  ghost predicate LinedUp(changes: seq<Change>, start: nat, newStart: nat) {
    forall k | 0 <= k < |changes| && changes[k].Add? :: start + Markers(changes[..k]) == newStart
  }

  ghost predicate HunksLinedUp(hunks: seq<Hunk>, c: nat) {
    forall k | 0 <= k < |hunks| ::
      LinedUp(hunks[k].changes, StartRead(hunks[k], CounterAfter(hunks[..k], c)), hunks[k].newStart)
  }

  ghost predicate FilesLinedUp(files: seq<FileDiff>) {
    forall k | 0 <= k < |files| :: HunksLinedUp(files[k].hunks, CounterBefore(files[..k + 1]))
  }

  /** Without markers a hunk is lined up when its header has the old count, or the counter happens to stand where it
      starts, or it adds nothing. */
  lemma UnmarkedLinedUp(h: Hunk, c: nat)
    requires NoNewline !in h.changes && HeaderStart("@@" + h.section).None?
    ensures LinedUp(h.changes, StartRead(h, c), h.newStart)
       <==> h.oldCount.Some? || c == h.newStart || forall x | x in h.changes :: !x.Add?
  {
    hide HeaderStart;
    forall k | 0 <= k < |h.changes|
      ensures Markers(h.changes[..k]) == 0
    {
      NoMarkers(h.changes[..k]);
    }
    if x :| x in h.changes && x.Add? {
      var k :| 0 <= k < |h.changes| && h.changes[k] == x;
    }
  }

  lemma {:induction false} NoMarkers(changes: seq<Change>)
    requires NoNewline !in changes
    ensures Markers(changes) == 0
    decreases |changes|
  {
    if changes != [] {
      NoMarkers(changes[..|changes| - 1]);
    }
  }

  lemma {:induction false} LinedUpIff(changes: seq<Change>, start: nat, newStart: nat)
    ensures |RecordedAt(changes, start)| == |PositionsAt(changes, newStart)|
    ensures RecordedAt(changes, start) == PositionsAt(changes, newStart) <==> LinedUp(changes, start, newStart)
    decreases |changes|
  {
    if changes != [] {
      var n := |changes| - 1;
      LinedUpIff(changes[..n], start, newStart);
      MovesAre(changes[..n]);
      LinedUpFront(changes, start, newStart);
      hide LinedUp;
      var a, b := RecordedAt(changes[..n], start), PositionsAt(changes[..n], newStart);
      if changes[n].Add? {
        SameParts(a, [start + Moves(changes[..n])], b, [newStart + |NewLines(changes[..n])|]);
      } else {
        SameParts(a, [], b, []);
      }
    }
  }

  lemma LinedUpFront(changes: seq<Change>, start: nat, newStart: nat)
    requires changes != []
    ensures var n := |changes| - 1;
      LinedUp(changes, start, newStart)
      <==> LinedUp(changes[..n], start, newStart) && (changes[n].Add? ==> start + Markers(changes[..n]) == newStart)
  {
    hide Markers;
    var n := |changes| - 1;
    assert forall k | 0 <= k < n :: changes[..n][k] == changes[k] && changes[..n][..k] == changes[..k];
    if LinedUp(changes[..n], start, newStart) && (changes[n].Add? ==> start + Markers(changes[..n]) == newStart) {
      forall k | 0 <= k < |changes| && changes[k].Add?
        ensures start + Markers(changes[..k]) == newStart
      {
        if k < n {
          assert changes[..n][k].Add?;
        }
      }
    }
    if LinedUp(changes, start, newStart) {
      forall k | 0 <= k < n && changes[..n][k].Add?
        ensures start + Markers(changes[..n][..k]) == newStart
      {
        assert changes[k].Add?;
      }
    }
  }

  lemma SameParts(a: seq<nat>, x: seq<nat>, b: seq<nat>, y: seq<nat>)
    requires |a| == |b|
    ensures a + x == b + y <==> a == b && x == y
  {
    if a + x == b + y {
      assert a == (a + x)[..|a|] == (b + y)[..|b|] == b;
      assert x == (a + x)[|a|..] == (b + y)[|b|..] == y;
    }
  }

  lemma {:induction false} HunksLinedUpIff(hunks: seq<Hunk>, c: nat)
    ensures |HunksRecorded(hunks, c)| == |HunksPositions(hunks)|
    ensures HunksRecorded(hunks, c) == HunksPositions(hunks) <==> HunksLinedUp(hunks, c)
    decreases |hunks|
  {
    hide LinedUp, RecordedAt, PositionsAt, StartRead, CounterAfter;
    if hunks != [] {
      var n := |hunks| - 1;
      HunksLinedUpIff(hunks[..n], c);
      var h, start := hunks[n], StartRead(hunks[n], CounterAfter(hunks[..n], c));
      LinedUpIff(h.changes, start, h.newStart);
      HunksLinedUpFront(hunks, c);
      hide HunksLinedUp;
      SameParts(HunksRecorded(hunks[..n], c), RecordedAt(h.changes, start),
                HunksPositions(hunks[..n]), PositionsAt(h.changes, h.newStart));
    }
  }

  lemma HunksLinedUpFront(hunks: seq<Hunk>, c: nat)
    requires hunks != []
    ensures var n := |hunks| - 1;
      HunksLinedUp(hunks, c)
      <==> HunksLinedUp(hunks[..n], c)
           && LinedUp(hunks[n].changes, StartRead(hunks[n], CounterAfter(hunks[..n], c)), hunks[n].newStart)
  {
    hide LinedUp, StartRead, CounterAfter;
    var n := |hunks| - 1;
    assert forall k | 0 <= k < n :: hunks[..n][k] == hunks[k] && hunks[..n][..k] == hunks[..k];
  }

  lemma FilesLinedUpFront(files: seq<FileDiff>)
    requires FilesLinedUp(files) && files != []
    ensures FilesLinedUp(files[..|files| - 1]) && HunksLinedUp(files[|files| - 1].hunks, CounterBefore(files))
  {
    hide HunksLinedUp, CounterBefore;
    var n := |files| - 1;
    assert files[..n + 1] == files;
    forall k | 0 <= k < n
      ensures HunksLinedUp(files[..n][k].hunks, CounterBefore(files[..n][..k + 1]))
    {
      assert files[..n][k] == files[k] && files[..n][..k + 1] == files[..k + 1];
    }
  }

  lemma {:induction false} FilesRecordedMember(files: seq<FileDiff>, path: string, position: nat)
    requires FilesLinedUp(files)
    ensures path in FilesRecorded(files) <==> Mentions(files, path)
    ensures position in Of(FilesRecorded(files), path) <==> Added(files, path, position)
    decreases |files|
  {
    hide HunksRecorded, HunksPositions, AddedIn, FilesLinedUp, HunksLinedUp, CounterBefore;
    if files != [] {
      var n := |files| - 1;
      FilesLinedUpFront(files);
      FilesRecordedMember(files[..n], path, position);
      HunksLinedUpIff(files[n].hunks, CounterBefore(files));
      FilePositionsAre(files[n], position);
      AddedFront(files, path, position);
      hide Added, Mentions;
    }
  }

  lemma AddedFront(files: seq<FileDiff>, path: string, position: nat)
    requires files != []
    ensures var n := |files| - 1;
      && (Mentions(files, path) <==> Mentions(files[..n], path) || files[n].path == path)
      && (Added(files, path, position)
          <==> Added(files[..n], path, position) || (files[n].path == path && AddedIn(files[n], position)))
  {
    hide AddedIn;
    var n := |files| - 1;
    assert forall k | 0 <= k < n :: files[..n][k] == files[k];
    if k :| 0 <= k < |files| && files[k].path == path {
      assert k < n ==> files[..n][k].path == path;
    }
    if k :| 0 <= k < |files| && files[k].path == path && AddedIn(files[k], position) {
      assert k < n ==> files[..n][k].path == path && AddedIn(files[..n][k], position);
    }
    if k :| 0 <= k < n && files[..n][k].path == path {
      assert files[k].path == path;
    }
    if k :| 0 <= k < n && files[..n][k].path == path && AddedIn(files[..n][k], position) {
      assert files[k].path == path && AddedIn(files[k], position);
    }
  }

  // ---------------------------------------------------------------- diffs that are read right

  ghost predicate ReadRight(files: seq<FileDiff>) {
    var read := Read(Printed(files));
    forall path, position: nat :: position in Of(read, path) <==> Added(files, path, position)
  }

  /** Any printed diff that is lined up and in which no added text opens with two plus signs: the reader's map has
      exactly the files mentioned, and for each exactly the new positions of its added lines. */
  lemma DiffRecovered(files: seq<FileDiff>, path: string, position: nat)
    requires (forall f | f in files :: Printable(f) && NoPlus(f.hunks)) && FilesLinedUp(files)
    ensures path in Read(Printed(files)) <==> Mentions(files, path)
    ensures position in Of(Read(Printed(files)), path) <==> Added(files, path, position)
  {
    hide Printable, NoPlus, Read, Printed, FilesRecorded, ReadLines, FilesLinedUp, Added, Mentions;
    ReadPrinted(files);
    ReadFiles(files);
    FilesRecordedMember(files, path, position);
  }

  // ---------------------------------------------------------------- filtering

  /** Filtering keeps the diagnostics on recorded lines, as often as they come and in their order. */
  lemma {:induction false} FilteredKeeps(diagnostics: seq<Diagnostic>, files: Recorded, d: Diagnostic)
    ensures multiset(Filtered(diagnostics, files))[d]
         == if OnRecordedLine(d, files) then multiset(diagnostics)[d] else 0
    decreases |diagnostics|
  {
    hide OnRecordedLine;
    if diagnostics != [] {
      var rest := diagnostics[1..];
      assert diagnostics == [diagnostics[0]] + rest;
      FilteredKeeps(rest, files, d);
    }
  }

  lemma FilteredFirst(a: seq<Diagnostic>, files: Recorded)
    requires a != []
    ensures Filtered(a, files) == (if OnRecordedLine(a[0], files) then [a[0]] else []) + Filtered(a[1..], files)
  {
  }

  lemma {:induction false} FilteredAppended(a: seq<Diagnostic>, b: seq<Diagnostic>, files: Recorded)
    ensures Filtered(a + b, files) == Filtered(a, files) + Filtered(b, files)
    decreases |a|
  {
    if a == [] {
      assert a + b == b;
    } else {
      hide OnRecordedLine;
      FilteredAppended(a[1..], b, files);
      assert (a + b)[1..] == a[1..] + b;
      var first := if OnRecordedLine(a[0], files) then [a[0]] else [];
      FilteredFirst(a, files);
      FilteredFirst(a + b, files);
      hide Filtered;
      assert first + (Filtered(a[1..], files) + Filtered(b, files)) == first + Filtered(a[1..], files) + Filtered(b, files);
    }
  }

  /** Against a printed diff, a diagnostic is kept exactly when its line is an added one of its file. */
  lemma KeptIffAdded(diagnostics: seq<Diagnostic>, files: seq<FileDiff>, d: Diagnostic)
    requires (forall f | f in files :: Printable(f) && NoPlus(f.hunks)) && FilesLinedUp(files)
    ensures multiset(Filtered(diagnostics, Read(Printed(files))))[d]
         == if Added(files, Normalized(d.file), d.line) then multiset(diagnostics)[d] else 0
  {
    hide Printable, NoPlus, FilesLinedUp, Read, Printed, Added, Mentions;
    FilteredKeeps(diagnostics, Read(Printed(files)), d);
    DiffRecovered(files, Normalized(d.file), d.line);
  }

  // ---------------------------------------------------------------- a lined-up order is the only one

  ghost predicate Increasing(s: seq<nat>) {
    forall i, j | 0 <= i < j < |s| :: s[i] < s[j]
  }

  /** Each recorded number is above every one before it or above the position that belongs to that one. */
  ghost predicate Jumps(r: seq<nat>, t: seq<nat>) {
    |r| == |t| && forall i, j | 0 <= i < j < |r| :: r[i] < r[j] || t[i] < r[j]
  }

  /** Numbers that jump and are, in any order, the increasing ones are these in their order. */
  lemma {:induction false} JumpsAgree(r: seq<nat>, t: seq<nat>)
    requires Jumps(r, t) && Increasing(t) && forall x :: x in r <==> x in t
    ensures r == t
    decreases |r|
  {
    if r != [] {
      assert t[0] in r && r[0] in t;
      var j :| 0 <= j < |r| && r[j] == t[0];
      var i :| 0 <= i < |t| && t[i] == r[0];
      assert j == 0;
      forall x
        ensures x in r[1..] <==> x in t[1..]
      {
        RestMember(r, t, x);
      }
      JumpsAgree(r[1..], t[1..]);
      assert r == [r[0]] + r[1..] && t == [t[0]] + t[1..];
    }
  }

  lemma RestMember(r: seq<nat>, t: seq<nat>, x: nat)
    requires Jumps(r, t) && Increasing(t) && (forall x :: x in r <==> x in t) && r != [] && r[0] == t[0]
    ensures x in r[1..] <==> x in t[1..]
  {
    if x in r[1..] {
      var k :| 1 <= k < |r| && r[k] == x;
      assert x in t && x != t[0];
      var m :| 0 <= m < |t| && t[m] == x;
      assert t[1..][m - 1] == x;
    }
    if x in t[1..] {
      var k :| 1 <= k < |t| && t[k] == x;
      assert x in r && t[0] < x;
      var m :| 0 <= m < |r| && r[m] == x;
      assert r[1..][m - 1] == x;
    }
  }

  /** Hunks in increasing order that do not overlap in the new version. */
  ghost predicate InOrder(hunks: seq<Hunk>) {
    forall j, k | 0 <= j < k < |hunks| :: hunks[j].newStart + |NewLines(hunks[j].changes)| <= hunks[k].newStart
  }

  /** No header without the old count carries a second header in its section text. */
  ghost predicate OneHeaderEach(hunks: seq<Hunk>) {
    forall h | h in hunks && h.oldCount.None? :: HeaderStart("@@" + h.section).None?
  }

  lemma {:induction false} RecordedRises(changes: seq<Change>, start: nat)
    ensures Increasing(RecordedAt(changes, start))
    ensures forall x | x in RecordedAt(changes, start) :: start <= x < start + Moves(changes)
    decreases |changes|
  {
    if changes != [] {
      var front := changes[..|changes| - 1];
      RecordedRises(front, start);
      RisesOn(RecordedAt(front, start), [start + Moves(front)], start + Moves(front));
    }
  }

  lemma {:induction false} PositionsRise(changes: seq<Change>, start: nat)
    ensures Increasing(PositionsAt(changes, start))
    ensures forall x | x in PositionsAt(changes, start) :: start <= x < start + |NewLines(changes)|
    decreases |changes|
  {
    if changes != [] {
      var front := changes[..|changes| - 1];
      PositionsRise(front, start);
      RisesOn(PositionsAt(front, start), [start + |NewLines(front)|], start + |NewLines(front)|);
    }
  }

  ghost predicate AllBelow(s: seq<nat>, m: nat) {
    forall x | x in s :: x < m
  }

  lemma {:induction false} HunksPositionsRise(hunks: seq<Hunk>, m: nat)
    requires InOrder(hunks)
    requires forall k | 0 <= k < |hunks| :: hunks[k].newStart + |NewLines(hunks[k].changes)| <= m
    ensures Increasing(HunksPositions(hunks)) && AllBelow(HunksPositions(hunks), m)
    decreases |hunks|
  {
    hide NewLines, PositionsAt;
    if hunks != [] {
      var n := |hunks| - 1;
      HunksPositionsRise(hunks[..n], hunks[n].newStart);
      PositionsRise(hunks[n].changes, hunks[n].newStart);
      RisesOn(HunksPositions(hunks[..n]), PositionsAt(hunks[n].changes, hunks[n].newStart), hunks[n].newStart);
    }
  }

  lemma RisesOn(a: seq<nat>, b: seq<nat>, m: nat)
    requires Increasing(a) && Increasing(b) && AllBelow(a, m) && forall x | x in b :: m <= x
    ensures Increasing(a + b)
  {
    forall i, j | 0 <= i < j < |a + b|
      ensures (a + b)[i] < (a + b)[j]
    {
      if i < |a| <= j {
        assert a[i] in a && b[j - |a|] in b;
      }
    }
  }

  /** The counter has passed each recorded number or the position that belongs to it. */
  ghost predicate Past(r: seq<nat>, t: seq<nat>, c: nat) {
    |r| == |t| && forall i | 0 <= i < |r| :: r[i] < c || t[i] < c
  }

  lemma JumpsOn(r: seq<nat>, t: seq<nat>, x: seq<nat>, y: seq<nat>, c: nat, d: nat)
    requires Jumps(r, t) && Past(r, t, c) && Increasing(x) && |x| == |y| && c <= d
    requires forall e | e in x :: c <= e < d
    ensures Jumps(r + x, t + y) && Past(r + x, t + y, d)
  {
    var a, b := r + x, t + y;
    forall j | 0 <= j < |x|
      ensures c <= x[j] < d
    {
      assert x[j] in x;
    }
    forall i, j | 0 <= i < j < |a|
      ensures a[i] < a[j] || b[i] < a[j]
    {
      if i < |r| <= j {
        assert c <= x[j - |r|];
      }
    }
  }

  lemma {:induction false} HunksJump(hunks: seq<Hunk>, c: nat)
    requires InOrder(hunks) && OneHeaderEach(hunks)
    ensures Jumps(HunksRecorded(hunks, c), HunksPositions(hunks))
    ensures Past(HunksRecorded(hunks, c), HunksPositions(hunks), CounterAfter(hunks, c))
    decreases |hunks|
  {
    hide NewLines, PositionsAt, RecordedAt, Jumps, Moves, HeaderStart;
    if hunks == [] {
      NoJumps();
    } else {
      var n := |hunks| - 1;
      var h, before := hunks[n], CounterAfter(hunks[..n], c);
      HunksJump(hunks[..n], c);
      var r, t := HunksRecorded(hunks[..n], c), HunksPositions(hunks[..n]);
      HunksPositionsRise(hunks[..n], h.newStart);
      var start := StartRead(h, before);
      assert start == if h.oldCount.Some? then h.newStart else before by {
        assert h in hunks;
      }
      assert Past(r, t, start) by {
        assert forall i | 0 <= i < |t| :: t[i] in t;
      }
      RecordedRises(h.changes, start);
      LinedUpIff(h.changes, start, h.newStart);
      JumpsOn(r, t, RecordedAt(h.changes, start), PositionsAt(h.changes, h.newStart), start, start + Moves(h.changes));
    }
  }

  lemma NoJumps()
    ensures Jumps([], [])
  {
  }

  /** A bound above all hunks. */
  lemma {:induction false} HunksEnd(hunks: seq<Hunk>) returns (m: nat)
    ensures forall k | 0 <= k < |hunks| :: hunks[k].newStart + |NewLines(hunks[k].changes)| <= m
    decreases |hunks|
  {
    if hunks == [] {
      m := 0;
    } else {
      var n := |hunks| - 1;
      m := HunksEnd(hunks[..n]);
      assert forall k | 0 <= k < n :: hunks[..n][k] == hunks[k];
      var end := hunks[n].newStart + |NewLines(hunks[n].changes)|;
      m := if m < end then end else m;
    }
  }

  lemma OrderedPositions(hunks: seq<Hunk>)
    requires InOrder(hunks)
    ensures Increasing(HunksPositions(hunks))
  {
    var m := HunksEnd(hunks);
    HunksPositionsRise(hunks, m);
  }

  /** The right set of positions for a file means that every hunk is lined up. */
  lemma SetTellsOrder(hunks: seq<Hunk>, c: nat)
    requires InOrder(hunks) && OneHeaderEach(hunks)
    requires Elements(HunksRecorded(hunks, c)) == Elements(HunksPositions(hunks))
    ensures HunksLinedUp(hunks, c)
  {
    hide HunksRecorded, HunksPositions, HunksLinedUp, InOrder, OneHeaderEach, Jumps, Increasing;
    HunksJump(hunks, c);
    OrderedPositions(hunks);
    var r, t := HunksRecorded(hunks, c), HunksPositions(hunks);
    forall x
      ensures x in r <==> x in t
    {
      assert x in Elements(r) <==> x in Elements(t);
    }
    JumpsAgree(r, t);
    HunksLinedUpIff(hunks, c);
  }

  ghost predicate DistinctPaths(files: seq<FileDiff>) {
    forall j, k | 0 <= j < k < |files| :: files[j].path != files[k].path
  }

  /** With distinct paths the map has for each file what its own hunks record. */
  lemma {:induction false} FileRecorded(files: seq<FileDiff>, k: nat)
    requires DistinctPaths(files) && k < |files|
    ensures Of(FilesRecorded(files), files[k].path)
         == Elements(HunksRecorded(files[k].hunks, CounterBefore(files[..k + 1])))
    decreases |files|
  {
    hide HunksRecorded, CounterBefore, Elements;
    var n := |files| - 1;
    if k == n {
      assert files[..k + 1] == files;
      NotYetRecorded(files[..n], files[n].path);
      assert {} + Elements(HunksRecorded(files[n].hunks, CounterBefore(files)))
          == Elements(HunksRecorded(files[n].hunks, CounterBefore(files)));
    } else {
      assert files[..n][k] == files[k] && files[..n][..k + 1] == files[..k + 1];
      FileRecorded(files[..n], k);
    }
  }

  lemma {:induction false} NotYetRecorded(files: seq<FileDiff>, path: string)
    requires forall f | f in files :: f.path != path
    ensures Of(FilesRecorded(files), path) == {}
    decreases |files|
  {
    hide HunksRecorded, CounterBefore, Elements;
    if files != [] {
      NotYetRecorded(files[..|files| - 1], path);
    }
  }

  lemma OnlyAddedIn(files: seq<FileDiff>, k: nat, position: nat)
    requires DistinctPaths(files) && k < |files|
    ensures Added(files, files[k].path, position) <==> AddedIn(files[k], position)
  {
    hide AddedIn;
    if j :| 0 <= j < |files| && files[j].path == files[k].path && AddedIn(files[j], position) {
      assert j == k;
    }
  }

  lemma RightIsLinedUp(files: seq<FileDiff>)
    requires forall f | f in files :: Printable(f) && NoPlus(f.hunks) && InOrder(f.hunks) && OneHeaderEach(f.hunks)
    requires DistinctPaths(files) && ReadRight(files)
    ensures FilesLinedUp(files)
  {
    hide Printable, NoPlus, InOrder, OneHeaderEach, Read, Printed, FilesRecorded, ReadLines, HunksRecorded,
      HunksPositions, HunksLinedUp, CounterBefore, DistinctPaths, Added, AddedIn;
    ReadPrinted(files);
    ReadFiles(files);
    forall k | 0 <= k < |files|
      ensures HunksLinedUp(files[k].hunks, CounterBefore(files[..k + 1]))
    {
      var f, c := files[k], CounterBefore(files[..k + 1]);
      assert f in files;
      FileRecorded(files, k);
      forall x: nat
        ensures x in Elements(HunksRecorded(f.hunks, c)) <==> x in Elements(HunksPositions(f.hunks))
      {
        assert x in Of(Read(Printed(files)), f.path) <==> Added(files, f.path, x);
        OnlyAddedIn(files, k, x);
        FilePositionsAre(f, x);
      }
      SetTellsOrder(f.hunks, c);
    }
  }

  // ---------------------------------------------------------------- an added text of two plus signs is always lost

  ghost function Pairs(m: Recorded): set<(string, nat)> {
    set path, x | path in m && x in m[path] :: (path, x)
  }

  predicate AddsLine(line: string) {
    StartsWith(line, "+") && !StartsWith(line, "+++")
  }

  function AddingLines(lines: seq<string>): nat {
    if lines == [] then 0
    else AddingLines(lines[..|lines| - 1]) + if AddsLine(lines[|lines| - 1]) then 1 else 0
  }

  lemma {:induction false} AddingAppended(a: seq<string>, b: seq<string>)
    ensures AddingLines(a + b) == AddingLines(a) + AddingLines(b)
    decreases |b|
  {
    hide AddsLine;
    if b == [] {
      assert a + b == a;
    } else {
      assert (a + b)[..|a + b| - 1] == a + b[..|b| - 1];
      AddingAppended(a, b[..|b| - 1]);
    }
  }

  lemma {:induction false} SubsetSize<T>(a: set<T>, b: set<T>)
    requires a <= b
    ensures |a| <= |b|
    decreases |a|
  {
    if x :| x in a {
      SubsetSize(a - {x}, b - {x});
    }
  }

  /** A line adds at most one pair to the map, and only an adding one does. */
  lemma LinePairs(r: Reading, line: string)
    ensures |Pairs(ReadLine(r, line).files)| <= |Pairs(r.files)| + if AddsLine(line) then 1 else 0
  {
    hide StartsWith, HeaderStart, Trim;
    var after := ReadLine(r, line).files;
    if after != r.files && AddsLine(line) {
      SubsetSize(Pairs(after), Pairs(r.files) + {(if r.current.Some? then r.current.value else "", r.line)});
    } else {
      SubsetSize(Pairs(after), Pairs(r.files));
    }
  }

  lemma {:induction false} LinesPairs(lines: seq<string>)
    ensures |Pairs(ReadLines(NOTHING_READ, lines).files)| <= AddingLines(lines)
    decreases |lines|
  {
    hide ReadLine, AddsLine, Pairs;
    if lines == [] {
      NoPairs();
    } else {
      var n := |lines| - 1;
      LinesPairs(lines[..n]);
      LinePairs(ReadLines(NOTHING_READ, lines[..n]), lines[n]);
    }
  }

  lemma NoPairs()
    ensures |Pairs(map[])| == 0
  {
    assert Pairs(map[]) == {};
  }

  function Adds(changes: seq<Change>): nat {
    if changes == [] then 0
    else Adds(changes[..|changes| - 1]) + if changes[|changes| - 1].Add? then 1 else 0
  }

  function HunksAdds(hunks: seq<Hunk>): nat {
    if hunks == [] then 0 else HunksAdds(hunks[..|hunks| - 1]) + Adds(hunks[|hunks| - 1].changes)
  }

  function FilesAdds(files: seq<FileDiff>): nat {
    if files == [] then 0 else FilesAdds(files[..|files| - 1]) + HunksAdds(files[|files| - 1].hunks)
  }

  lemma ChangeAdds(c: Change)
    ensures AddsLine(ChangeLine(c)) <==> c.Add? && !Plus(c)
  {
    if c.Add? {
      TakesText("+", c.text);
      PlusText(c.text);
    } else {
      DiffersFrom(ChangeLine(c), "+", 0);
    }
  }

  lemma {:induction false} ChangesAdd(changes: seq<Change>)
    ensures AddingLines(ChangeLines(changes)) <= Adds(changes)
    ensures AddingLines(ChangeLines(changes)) == Adds(changes) <==> forall c | c in changes :: !Plus(c)
    decreases |changes|
  {
    hide AddsLine, ChangeLine;
    if changes == [] {
      assert ChangeLines(changes) == [];
    } else {
      var n := |changes| - 1;
      assert ChangeLines(changes)[..n] == ChangeLines(changes[..n]);
      ChangesAdd(changes[..n]);
      ChangeAdds(changes[n]);
      assert forall c :: c in changes <==> c in changes[..n] || c == changes[n];
    }
  }

  lemma OneLineAdds(line: string)
    ensures AddingLines([line]) == if AddsLine(line) then 1 else 0
  {
    hide AddsLine;
    assert [line][..0] == [] && AddingLines([]) == 0;
  }

  lemma {:induction false} HunksAdd(hunks: seq<Hunk>)
    ensures AddingLines(HunkLines(hunks)) <= HunksAdds(hunks)
    ensures AddingLines(HunkLines(hunks)) == HunksAdds(hunks) <==> NoPlus(hunks)
    decreases |hunks|
  {
    hide AddsLine, ChangeLines, HeaderLine, AddingLines, Adds, Plus;
    if hunks == [] {
      OneEmpty();
    } else {
      var n := |hunks| - 1;
      var h := hunks[n];
      HunksAdd(hunks[..n]);
      AddingAppended(HunkLines(hunks[..n]), [HeaderLine(h)] + ChangeLines(h.changes));
      AddingAppended([HeaderLine(h)], ChangeLines(h.changes));
      OneLineAdds(HeaderLine(h));
      HeaderAddsNothing(h);
      ChangesAdd(h.changes);
      assert forall g :: g in hunks <==> g in hunks[..n] || g == h;
    }
  }

  lemma OneEmpty()
    ensures AddingLines([]) == 0
  {
  }

  lemma HeaderAddsNothing(h: Hunk)
    ensures !AddsLine(HeaderLine(h))
  {
    DiffersFrom(HeaderLine(h), "+", 0);
  }

  lemma {:induction false} PreambleAdds(lines: seq<string>)
    requires PlainPreamble(lines)
    ensures AddingLines(lines) == 0
    decreases |lines|
  {
    hide StartsWith;
    if lines != [] {
      PreambleAdds(lines[..|lines| - 1]);
      assert lines[|lines| - 1] in lines;
    }
  }

  lemma PathLineAddsNothing(f: FileDiff)
    ensures !AddsLine(PathLine(f))
  {
    TakesText("+++ b/", f.path + f.blanks);
    PlusesOpen(PathLine(f));
  }

  lemma {:induction false} FilesAdd(files: seq<FileDiff>)
    requires forall f | f in files :: Printable(f)
    ensures AddingLines(FileLines(files)) <= FilesAdds(files)
    ensures AddingLines(FileLines(files)) == FilesAdds(files) <==> forall f | f in files :: NoPlus(f.hunks)
    decreases |files|
  {
    hide AddsLine, HunkLines, AddingLines, HunksAdds, NoPlus, PlainPreamble, CleanHunk;
    if files == [] {
      OneEmpty();
    } else {
      var n := |files| - 1;
      var f := files[n];
      FilesAdd(files[..n]);
      assert Printable(f);
      AddingAppended(FileLines(files[..n]), LinesOf(f));
      AddingAppended(f.preamble, [PathLine(f)] + HunkLines(f.hunks));
      AddingAppended([PathLine(f)], HunkLines(f.hunks));
      PreambleAdds(f.preamble);
      OneLineAdds(PathLine(f));
      PathLineAddsNothing(f);
      HunksAdd(f.hunks);
      assert forall g :: g in files <==> g in files[..n] || g == f;
    }
  }

  // ---------------------------------------------------------------- how many pairs a diff adds

  lemma {:induction false} IncreasingSize(s: seq<nat>)
    requires Increasing(s)
    ensures |Elements(s)| == |s|
    decreases |s|
  {
    if s == [] {
      assert Elements(s) == {};
    } else {
      var n := |s| - 1;
      IncreasingSize(s[..n]);
      assert Elements(s) == Elements(s[..n]) + {s[n]};
      assert s[n] !in s[..n];
    }
  }

  lemma {:induction false} PositionsCount(changes: seq<Change>, start: nat)
    ensures |PositionsAt(changes, start)| == Adds(changes)
    decreases |changes|
  {
    if changes != [] {
      PositionsCount(changes[..|changes| - 1], start);
    }
  }

  lemma {:induction false} HunksPositionsCount(hunks: seq<Hunk>)
    ensures |HunksPositions(hunks)| == HunksAdds(hunks)
    decreases |hunks|
  {
    hide PositionsAt, Adds;
    if hunks != [] {
      HunksPositionsCount(hunks[..|hunks| - 1]);
      PositionsCount(hunks[|hunks| - 1].changes, hunks[|hunks| - 1].newStart);
    }
  }

  ghost function Labelled(path: string, s: set<nat>): set<(string, nat)> {
    set x | x in s :: (path, x)
  }

  lemma {:induction false} LabelledSize(path: string, s: set<nat>)
    ensures |Labelled(path, s)| == |s|
    decreases |s|
  {
    if x :| x in s {
      LabelledSize(path, s - {x});
      assert Labelled(path, s) == Labelled(path, s - {x}) + {(path, x)};
    } else {
      assert Labelled(path, s) == {};
    }
  }

  ghost function AddedPairs(files: seq<FileDiff>): set<(string, nat)> {
    if files == [] then {}
    else
      var n := |files| - 1;
      AddedPairs(files[..n]) + Labelled(files[n].path, Elements(HunksPositions(files[n].hunks)))
  }

  lemma {:induction false} AddedPairsAre(files: seq<FileDiff>, path: string, position: nat)
    ensures (path, position) in AddedPairs(files) <==> Added(files, path, position)
    decreases |files|
  {
    hide HunksPositions;
    if files != [] {
      var n := |files| - 1;
      AddedPairsAre(files[..n], path, position);
      AddedFront(files, path, position);
      FilePositionsAre(files[n], position);
      hide Added, AddedIn;
    }
  }

  lemma {:induction false} AddedPairsSize(files: seq<FileDiff>)
    requires DistinctPaths(files) && forall f | f in files :: InOrder(f.hunks)
    ensures |AddedPairs(files)| == FilesAdds(files)
    ensures forall p | p in AddedPairs(files) :: exists f :: f in files && f.path == p.0
    decreases |files|
  {
    hide HunksPositions, HunksAdds, InOrder, Elements, Increasing;
    if files != [] {
      var n := |files| - 1;
      var f := files[n];
      var labelled := Labelled(f.path, Elements(HunksPositions(f.hunks)));
      AddedPairsSize(files[..n]);
      OrderedPositions(f.hunks);
      IncreasingSize(HunksPositions(f.hunks));
      HunksPositionsCount(f.hunks);
      LabelledSize(f.path, Elements(HunksPositions(f.hunks)));
      assert AddedPairs(files[..n]) !! labelled;
    }
  }

  /** A diff that is read right loses no added line. */
  lemma RightHasNoPlus(files: seq<FileDiff>)
    requires (forall f | f in files :: Printable(f) && InOrder(f.hunks)) && DistinctPaths(files) && ReadRight(files)
    ensures forall f | f in files :: NoPlus(f.hunks)
  {
    hide Printable, InOrder, DistinctPaths, NoPlus, ReadLines, FileLines, Read, Printed, Added, AddedPairs;
    ReadPrinted(files);
    var read := Read(Printed(files));
    forall p: (string, nat)
      ensures p in AddedPairs(files) <==> p in Pairs(read)
    {
      AddedPairsAre(files, p.0, p.1);
      assert p.1 in Of(read, p.0) <==> Added(files, p.0, p.1);
    }
    assert AddedPairs(files) == Pairs(read);
    AddedPairsSize(files);
    LinesPairs(FileLines(files));
    FilesAdd(files);
  }

  /** The reader's positions are right for every file of a diff exactly when no added text opens with two plus signs
      and, at every addition, the counter stands where the hunk says: its header has the old count and no marker comes
      before the addition, or the counter happens to agree. */
  lemma AllReadRightIff(files: seq<FileDiff>)
    requires forall f | f in files :: Printable(f) && InOrder(f.hunks) && OneHeaderEach(f.hunks)
    requires DistinctPaths(files)
    ensures ReadRight(files) <==> (forall f | f in files :: NoPlus(f.hunks)) && FilesLinedUp(files)
  {
    hide Printable, InOrder, OneHeaderEach, DistinctPaths, NoPlus, FilesLinedUp, Added;
    if ReadRight(files) {
      RightHasNoPlus(files);
      RightIsLinedUp(files);
    }
    if (forall f | f in files :: NoPlus(f.hunks)) && FilesLinedUp(files) {
      hide Read, Printed;
      forall path, position: nat
        ensures position in Of(Read(Printed(files)), path) <==> Added(files, path, position)
      {
        DiffRecovered(files, path, position);
      }
    }
  }
}
