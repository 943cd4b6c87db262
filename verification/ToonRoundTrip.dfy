/** Which contexts survive encodeToon followed by decodeToon: exactly the faithful ones. */
module ToonRoundTrip {
  import opened Decimal
  import opened Prefixes
  import opened Scanning
  import opened ToonFormat
  import opened ToonText
  import opened Wrappers

  ghost predicate PlainPath(path: string) {
    OneLine(path) && (path == "" || !IsSpace(path[|path| - 1]))
  }

  ghost predicate PlainTests(t: Summary) {
    && (t.failures.Some? ==> t.failures.value != [])
    && (t.failures.Some? ==> forall k | 0 <= k < |t.failures.value| :: PlainFailure(t.failures.value[k]))
  }

  /** What a caller can check before encoding. */
  ghost predicate Faithful(c: Context) {
    && Clean(c.task) && Trim(c.task) == c.task
    && (forall k | 0 <= k < |c.files| :: PlainPath(c.files[k].path))
    && (c.tests.Some? ==> PlainTests(c.tests.value))
  }

  // ---------------------------------------------------------------- nothing decoded holds a newline

  ghost predicate CleanFailures(failures: seq<TestFailure>) {
    forall k | 0 <= k < |failures| :: Clean(failures[k].name) && Clean(failures[k].message)
  }

  ghost predicate CleanFiles(files: seq<FileChange>) {
    forall k | 0 <= k < |files| :: Clean(files[k].path)
  }

  ghost predicate CleanReading(r: Reading) {
    && Clean(r.task) && Trim(r.task) == r.task && CleanFiles(r.files) && CleanFailures(r.failures)
    && (r.tests.Some? ==> r.tests.value.failures.None?)
  }

  ghost predicate CleanContext(c: Context) {
    && Clean(c.task) && Trim(c.task) == c.task && CleanFiles(c.files)
    && (c.tests.Some? && c.tests.value.failures.Some? ==> CleanFailures(c.tests.value.failures.value))
  }

  lemma FailureIsClean(s: string)
    requires Clean(s) && ParseFailure(s).Some?
    ensures Clean(ParseFailure(s).value.name) && Clean(ParseFailure(s).value.message)
  {
    hide NameLength;
    var m := NameLength(s, 0).value;
    TakenText(s[m..], "]:");
  }

  lemma LineKeepsClean(r: Reading, line: string)
    requires CleanReading(r) && Clean(line)
    ensures CleanReading(ReadLine(r, line))
  {
    hide Trim, ParseTests, ParseFailure, ParseCount, PathLength;
    TrimKeepsClean(line);
    var t := Trim(line);
    if |t| >= 6 {
      TrimKeepsClean(t[6..]);
      TrimTwice(t[6..]);
    }
    if |t| >= 3 && ParseFailure(t[3..]).Some? {
      FailureIsClean(t[3..]);
    }
    if |t| >= 7 {
      NoFailuresYet(Trim(t[7..]));
    }
  }

  lemma NoFailuresYet(s: string)
    ensures ParseTests(s).Some? ==> ParseTests(s).value.failures.None?
  {
    hide TakeNat, TakeText, TakeSpaces;
  }

  lemma {:induction false} LinesKeepClean(r: Reading, lines: seq<string>)
    requires CleanReading(r) && forall k | 0 <= k < |lines| :: Clean(lines[k])
    ensures CleanReading(ReadLines(r, lines))
    decreases |lines|
  {
    hide ReadLine;
    if lines != [] {
      var n := |lines| - 1;
      LinesKeepClean(r, lines[..n]);
      LineKeepsClean(ReadLines(r, lines[..n]), lines[n]);
    }
  }

  /** Whatever the text, no decoded string holds a newline, and the first one is trimmed. */
  lemma DecodedIsClean(text: string)
    ensures CleanContext(Decoded(text))
  {
    hide ReadLines, SplitLines;
    SplitIsClean(text);
    assert Trim("") == "" by {
      assert TrimStart("") == "";
    }
    LinesKeepClean(UNREAD, SplitLines(text));
  }

  // ---------------------------------------------------------------- reading an encoding line by line

  lemma {:induction false} ReadAppended(r: Reading, a: seq<string>, b: seq<string>)
    ensures ReadLines(r, a + b) == ReadLines(ReadLines(r, a), b)
    decreases |b|
  {
    hide ReadLine;
    if b == [] {
      assert a + b == a;
    } else {
      assert (a + b)[..|a + b| - 1] == a + b[..|b| - 1];
      ReadAppended(r, a, b[..|b| - 1]);
    }
  }

  lemma ReadOne(r: Reading, line: string)
    ensures ReadLines(r, [line]) == ReadLine(r, line)
  {
    hide ReadLine;
    assert [line][..0] == [] && ReadLines(r, []) == r;
  }

  lemma TrimTask(task: string)
    requires Trim(task) == task
    ensures Trim("@task: " + task) == if task == "" then "@task:" else "@task: " + task
    ensures Trim(" " + task) == task
  {
    hide Trim;
    var pre, post := TrimParts(task);
    assert " " + task == " " + (task + "");
    TrimIs(" ", task, "");
    if task == "" {
      assert "@task: " + task == "" + ("@task:" + " ");
      TrimIs("", "@task:", " ");
    } else {
      assert |task| == |pre| + |task| + |post|;
      var line := "@task: " + task;
      assert line == "" + (line + "") && line[|line| - 1] == task[|task| - 1];
      TrimIs("", line, "");
    }
  }

  /** The first line gives the trimmed task. */
  lemma ReadTask(r: Reading, task: string)
    ensures ReadLine(r, "@task: " + Trim(task)) == r.(task := Trim(task))
  {
    hide Trim;
    var t := Trim(task);
    TrimTwice(task);
    TrimTask(t);
    var line := Trim("@task: " + t);
    assert line[..6] == "@task:";
    if t == "" {
      assert line[6..] == "";
      assert "" + ("" + "") == "";
      TrimIs("", "", "");
    } else {
      assert line[6..] == " " + t;
    }
  }

  /** A line that no pattern of the decoder starts. */
  lemma ReadNothing(r: Reading, line: string)
    requires |line| > 2 && line[..3] == "@fi" && !IsSpace(line[|line| - 1])
    ensures ReadLine(r, line) == r
  {
    hide Trim, StartsWith;
    assert line == "" + (line + "");
    TrimIs("", line, "");
    assert line[0] == '@' && line[1] == 'f' && line[2] == 'i';
    DiffersFrom(line, "@task:", 1);
    DiffersFrom(line, "~ ", 0);
    DiffersFrom(line, "+ ", 0);
    DiffersFrom(line, "- ", 0);
    DiffersFrom(line, "@tests:", 1);
    DiffersFrom(line, "@failures:", 2);
    DiffersFrom(line, "! [", 0);
  }

  /** The second line tells the decoder nothing. */
  lemma ReadHeader(r: Reading, n: nat)
    ensures ReadLine(r, FilesHeader(n)) == r
  {
    hide NatText, ReadLine;
    var line := FilesHeader(n);
    assert line[|line| - 1] in {'e', ':'};
    ReadNothing(r, line);
  }

  lemma FileLineTrimmed(f: FileChange)
    ensures Trim(FileLine(f)) == [Symbol(f.status)] + (" " + FileText(f))
  {
    hide Trim, NatText;
    var core := [Symbol(f.status)] + (" " + FileText(f));
    assert FileLine(f) == "  " + (core + "");
    assert core[|core| - 1] == ')';
    TrimIs("  ", core, "");
  }

  lemma ReadFile(r: Reading, f: FileChange)
    ensures ReadLine(r, FileLine(f)) == r.(files := r.files + [ParseFile(f.status, FileText(f))])
  {
    hide Trim, ParseFile, FileText, FileLine;
    FileLineTrimmed(f);
    var line := Trim(FileLine(f));
    assert line[0] == Symbol(f.status) && line[1] == ' ' && line[2..] == FileText(f);
    assert !StartsWith(line, "@task:") by {
      assert "@task:"[0] == '@';
    }
    assert line[..2] == [Symbol(f.status), ' '];
  }

  function FileBack(f: FileChange): FileChange {
    ParseFile(f.status, FileText(f))
  }

  function FilesBack(files: seq<FileChange>): seq<FileChange> {
    seq(|files|, k requires 0 <= k < |files| => FileBack(files[k]))
  }

  lemma {:induction false} ReadFiles(r: Reading, files: seq<FileChange>)
    ensures ReadLines(r, FileLines(files)) == r.(files := r.files + FilesBack(files))
    decreases |files|
  {
    hide ReadLine, FileLine, ParseFile, FileText, FilesBack;
    if files == [] {
      NoFilesBack(r);
    } else {
      var n := |files| - 1;
      assert FileLines(files)[..n] == FileLines(files[..n]);
      ReadFiles(r, files[..n]);
      ReadFile(r.(files := r.files + FilesBack(files[..n])), files[n]);
      FilesBackStep(r.files, files);
    }
  }

  lemma NoFilesBack(r: Reading)
    ensures FileLines([]) == [] && r.files + FilesBack([]) == r.files
  {
  }

  lemma FilesBackStep(before: seq<FileChange>, files: seq<FileChange>)
    requires files != []
    ensures before + FilesBack(files[..|files| - 1]) + [FileBack(files[|files| - 1])] == before + FilesBack(files)
  {
    hide FileBack;
  }

  lemma ReadTests(r: Reading, t: Summary)
    ensures ReadLine(r, "@tests: " + TestsText(t)) == r.(tests := Some(t.(failures := None)))
  {
    hide Trim, ParseTests, TestsText;
    hide StartsWith;
    var s := TestsText(t);
    TestsEnds(t);
    var line := "@tests: " + s;
    assert line == "" + (line + "") && line[|line| - 1] == s[|s| - 1];
    TrimIs("", line, "");
    assert line[7..] == " " + (s + "");
    TrimIs(" ", s, "");
    TestsReadBack(t);
    assert line == "@tests:" + line[7..];
    TakesText("@tests:", line[7..]);
    DiffersFrom(line, "@task:", 2);
    DiffersFrom(line, "~ ", 0);
    DiffersFrom(line, "+ ", 0);
    DiffersFrom(line, "- ", 0);
  }

  lemma TestsEnds(t: Summary)
    ensures TestsText(t) != "" && !IsSpace(TestsText(t)[0]) && TestsText(t)[|TestsText(t)| - 1] == ')'
  {
    hide NatText;
    NatTextDigits(t.passed);
    assert TestsText(t)[0] == NatText(t.passed)[0];
  }

  lemma ReadMark(r: Reading)
    ensures ReadLine(r, "@failures:") == r.(inFailures := true)
  {
    hide Trim;
    hide StartsWith;
    var line := "@failures:";
    assert line == "" + (line + "") == line + "";
    TrimIs("", line, "");
    TakesText(line, "");
    DiffersFrom(line, "@task:", 1);
    DiffersFrom(line, "~ ", 0);
    DiffersFrom(line, "+ ", 0);
    DiffersFrom(line, "- ", 0);
    DiffersFrom(line, "@tests:", 1);
  }

  lemma MessageKept(message: string)
    requires Clean(message)
    ensures SingleLine(message) == message
  {
  }

  lemma FailureLineParts(f: TestFailure, rest: string, post: string)
    requires " " + f.message == rest + post && SingleLine(f.message) == f.message
    ensures FailureLine(f) == "  " + ("! [" + (f.name + ("]:" + rest)) + post)
  {
    assert "]: " + f.message == "]:" + (" " + f.message);
  }

  lemma CoreEnds(name: string, rest: string)
    requires rest != "" ==> !IsSpace(rest[|rest| - 1])
    ensures var core := "! [" + (name + ("]:" + rest)); !IsSpace(core[0]) && !IsSpace(core[|core| - 1])
  {
    var core := "! [" + (name + ("]:" + rest));
    assert core[|core| - 1] == if rest == "" then ':' else rest[|rest| - 1];
  }

  lemma FailureLineTrimmed(f: TestFailure)
    requires Clean(f.message)
    ensures Trim(FailureLine(f)) == "! [" + FailureText(f)
  {
    var tail := " " + f.message;
    var rest := TrimEnd(tail);
    hide Trim, TrimEnd;
    var post := tail[|rest|..];
    MessageKept(f.message);
    assert tail == rest + post;
    assert Spaces(post);
    var core := "! [" + (f.name + ("]:" + rest));
    assert core == "! [" + FailureText(f);
    FailureLineParts(f, rest, post);
    CoreEnds(f.name, rest);
    hide FailureLine, FailureText;
    TrimIs("  ", core, post);
  }

  function FailureBack(f: TestFailure): seq<TestFailure> {
    match ParseFailure(FailureText(f))
    case Some(g) => [g]
    case None => []
  }

  lemma ReadFailure(r: Reading, f: TestFailure)
    requires r.inFailures && Clean(f.message)
    ensures ReadLine(r, FailureLine(f)) == r.(failures := r.failures + FailureBack(f))
  {
    hide Trim, ParseFailure, FailureText, FailureLine, StartsWith;
    FailureLineTrimmed(f);
    var line := Trim(FailureLine(f));
    TakesText("! [", FailureText(f));
    assert line[0] == '!';
    DiffersFrom(line, "@task:", 0);
    DiffersFrom(line, "~ ", 0);
    DiffersFrom(line, "+ ", 0);
    DiffersFrom(line, "- ", 0);
    DiffersFrom(line, "@tests:", 0);
    DiffersFrom(line, "@failures:", 0);
  }

  function FailuresBack(failures: seq<TestFailure>): seq<TestFailure> {
    if failures == [] then []
    else FailuresBack(failures[..|failures| - 1]) + FailureBack(failures[|failures| - 1])
  }

  lemma {:induction false} ReadFailures(r: Reading, failures: seq<TestFailure>)
    requires r.inFailures && CleanFailures(failures)
    ensures ReadLines(r, FailureLines(failures)) == r.(failures := r.failures + FailuresBack(failures))
    decreases |failures|
  {
    hide ReadLine, FailureLine, FailureBack;
    if failures == [] {
      assert FailureLines(failures) == [] && r.failures + FailuresBack(failures) == r.failures;
    } else {
      var n := |failures| - 1;
      assert FailureLines(failures)[..n] == FailureLines(failures[..n]);
      ReadFailures(r, failures[..n]);
      var s := r.(failures := r.failures + FailuresBack(failures[..n]));
      ReadFailure(s, failures[n]);
      assert s.failures + FailureBack(failures[n]) == r.failures + FailuresBack(failures);
    }
  }

  function TestsBack(t: Summary): Summary {
    var failures := if t.failures.None? then [] else FailuresBack(t.failures.value);
    t.(failures := if failures == [] then None else Some(failures))
  }

  lemma ReadTestsLines(r: Reading, tests: Option<Summary>)
    requires r.tests.None? && r.failures == [] && !r.inFailures
    requires tests.Some? && tests.value.failures.Some? ==> CleanFailures(tests.value.failures.value)
    ensures ContextOf(ReadLines(r, TestsLines(tests)))
         == Context(r.task, r.files, if tests.None? then None else Some(TestsBack(tests.value)))
  {
    hide ReadLine, FailureBack, TestsText, FailureLine;
    if tests.Some? {
      var t := tests.value;
      var first := "@tests: " + TestsText(t);
      ReadOne(r, first);
      ReadTests(r, t);
      var s := ReadLines(r, [first]);
      if t.failures.Some? && t.failures.value != [] {
        ReadAppended(r, [first], ["@failures:"] + FailureLines(t.failures.value));
        ReadAppended(s, ["@failures:"], FailureLines(t.failures.value));
        ReadOne(s, "@failures:");
        ReadMark(s);
        var u := ReadLines(s, ["@failures:"]);
        ReadFailures(u, t.failures.value);
        assert u.failures + FailuresBack(t.failures.value) == FailuresBack(t.failures.value);
      } else {
        assert TestsLines(tests) == [first];
      }
    }
  }

  // ---------------------------------------------------------------- the encoding of a clean context

  lemma EncodedLinesClean(c: Context)
    requires CleanContext(c)
    ensures forall k | 0 <= k < |EncodedLines(c)| :: Clean(EncodedLines(c)[k])
  {
    hide NatText, Trim;
    TrimKeepsClean(c.task);
    NatTextDigits(|c.files|);
    assert forall k | 0 <= k < |FileLines(c.files)| :: Clean(FileLines(c.files)[k]) by {
      forall k | 0 <= k < |c.files|
        ensures Clean(FileLine(c.files[k]))
      {
        NatTextDigits(c.files[k].additions);
        NatTextDigits(c.files[k].deletions);
      }
    }
    TestsLinesClean(c.tests);
  }

  lemma TestsLinesClean(tests: Option<Summary>)
    requires tests.Some? && tests.value.failures.Some? ==> CleanFailures(tests.value.failures.value)
    ensures forall k | 0 <= k < |TestsLines(tests)| :: Clean(TestsLines(tests)[k])
  {
    hide TestsText, FailureLine;
    if tests.Some? {
      TestsTextIsClean(tests.value);
      if tests.value.failures.Some? {
        forall k | 0 <= k < |tests.value.failures.value|
          ensures Clean(FailureLine(tests.value.failures.value[k]))
        {
          FailureLineIsClean(tests.value.failures.value[k]);
        }
      }
    }
  }

  lemma TestsTextIsClean(t: Summary)
    ensures Clean(TestsText(t))
  {
    hide NatText;
    NatTextDigits(t.passed);
    NatTextDigits(t.failed);
    NatTextDigits(t.skipped);
    NatTextDigits(t.total);
  }

  lemma FailureLineIsClean(f: TestFailure)
    requires Clean(f.name)
    ensures Clean(FailureLine(f))
  {
  }

  /** What a context without newlines decodes to. */
  lemma CleanDecodes(c: Context)
    requires CleanContext(c)
    ensures Decoded(Encoded(c))
         == Context(c.task, FilesBack(c.files), if c.tests.None? then None else Some(TestsBack(c.tests.value)))
  {
    hide ReadLine, FileLine, TestsLines, FailureBack, FileBack, FilesHeader, SplitLines, JoinLines, TestsBack, Trim;
    EncodedLinesClean(c);
    var lines := EncodedLines(c);
    JoinedLinesSplit(lines);
    var task, header, files, tests :=
      "@task: " + Trim(c.task), FilesHeader(|c.files|), FileLines(c.files), TestsLines(c.tests);
    assert lines == [task] + ([header] + (files + tests));
    ReadAppended(UNREAD, [task], [header] + (files + tests));
    ReadOne(UNREAD, task);
    ReadTask(UNREAD, c.task);
    var r := UNREAD.(task := c.task);
    ReadAppended(r, [header], files + tests);
    ReadOne(r, header);
    ReadHeader(r, |c.files|);
    ReadAppended(r, files, tests);
    ReadFiles(r, c.files);
    assert [] + FilesBack(c.files) == FilesBack(c.files);
    ReadTestsLines(r.(files := FilesBack(c.files)), c.tests);
  }

  // ---------------------------------------------------------------- the parts that come back

  lemma FilesBackIff(files: seq<FileChange>)
    ensures FilesBack(files) == files <==> forall k | 0 <= k < |files| :: PlainPath(files[k].path)
  {
    hide ParseFile, FileText;
    forall k | 0 <= k < |files|
      ensures FileBack(files[k]) == files[k] <==> PlainPath(files[k].path)
    {
      FileReadBackIff(files[k]);
    }
    if FilesBack(files) == files {
      forall k | 0 <= k < |files|
        ensures PlainPath(files[k].path)
      {
        assert FilesBack(files)[k] == FileBack(files[k]);
      }
    }
  }

  lemma {:induction false} FailuresBackIff(failures: seq<TestFailure>)
    ensures |FailuresBack(failures)| <= |failures|
    ensures FailuresBack(failures) == failures <==> forall k | 0 <= k < |failures| :: PlainFailure(failures[k])
    decreases |failures|
  {
    hide ParseFailure, FailureText, PlainFailure;
    if failures != [] {
      var n := |failures| - 1;
      var rest, last := FailuresBack(failures[..n]), FailureBack(failures[n]);
      FailuresBackIff(failures[..n]);
      FailureReadBackIff(failures[n]);
      if FailuresBack(failures) == failures {
        assert |last| == 1 && rest + last == failures;
        assert (rest + last)[..n] == rest && (rest + last)[n] == last[0];
        forall k | 0 <= k < |failures|
          ensures PlainFailure(failures[k])
        {
          assert k < n ==> failures[..n][k] == failures[k];
        }
      }
      if forall k | 0 <= k < |failures| :: PlainFailure(failures[k]) {
        assert failures == failures[..n] + [failures[n]];
      }
    }
  }

  lemma TestsBackIff(t: Summary)
    ensures TestsBack(t) == t <==> PlainTests(t)
  {
    hide FailureBack, PlainFailure;
    if t.failures.Some? {
      FailuresBackIff(t.failures.value);
    }
  }

  lemma OneLineIsClean(s: string)
    requires OneLine(s)
    ensures Clean(s)
  {
  }

  lemma PlainIsClean(c: Context)
    requires Faithful(c)
    ensures CleanContext(c)
  {
    hide OneLine, Clean, Trim, IsSpace;
    forall k | 0 <= k < |c.files|
      ensures Clean(c.files[k].path)
    {
      OneLineIsClean(c.files[k].path);
    }
    if c.tests.Some? && c.tests.value.failures.Some? {
      PlainFailuresAreClean(c.tests.value.failures.value);
    }
  }

  lemma PlainFailuresAreClean(failures: seq<TestFailure>)
    requires forall k | 0 <= k < |failures| :: PlainFailure(failures[k])
    ensures CleanFailures(failures)
  {
    hide OneLine, Clean, Trim, IsSpace;
    forall k | 0 <= k < |failures|
      ensures Clean(failures[k].name) && Clean(failures[k].message)
    {
      assert PlainFailure(failures[k]);
      OneLineIsClean(failures[k].name);
      OneLineIsClean(failures[k].message);
    }
  }

  /** The round trip, on every context: decoding an encoding gives the context back exactly when it is faithful. */
  lemma RoundTripIff(c: Context)
    ensures Decoded(Encoded(c)) == c <==> Faithful(c)
  {
    hide Encoded, Decoded, TestsBack, FilesBack, PlainTests, PlainPath;
    if Decoded(Encoded(c)) == c {
      DecodedIsClean(Encoded(c));
    }
    if Faithful(c) {
      PlainIsClean(c);
    }
    if CleanContext(c) {
      CleanDecodes(c);
      FilesBackIff(c.files);
      if c.tests.Some? {
        TestsBackIff(c.tests.value);
      }
    }
  }

  /** The message with spaces for its newlines. */
  ghost predicate Spaced(message: string, spaced: string) {
    |spaced| == |message| && forall k | 0 <= k < |message| :: spaced[k] == if message[k] == '\n' then ' ' else message[k]
  }

  ghost predicate AllSpaced(failures: seq<TestFailure>, spaced: seq<TestFailure>) {
    && |failures| == |spaced|
    && forall k | 0 <= k < |failures| ::
         failures[k].name == spaced[k].name && Spaced(failures[k].message, spaced[k].message)
  }

  lemma SpacedLine(f: TestFailure, spaced: string)
    requires Spaced(f.message, spaced)
    ensures FailureLine(f) == FailureLine(f.(message := spaced))
  {
    assert SingleLine(f.message) == spaced == SingleLine(spaced);
  }

  /** Messages with newlines come back with spaces instead, under the same condition on the rest. */
  lemma NewlinesComeBackSpaced(c: Context, t: Summary, failures: seq<TestFailure>, spaced: seq<TestFailure>)
    requires c.tests == Some(t.(failures := Some(failures))) && AllSpaced(failures, spaced)
    ensures var d := c.(tests := Some(t.(failures := Some(spaced))));
      Decoded(Encoded(c)) == d <==> Faithful(d)
  {
    hide FailureLine, FileLine, JoinLines, NatText, Trim, Faithful, Decoded, Spaced;
    var d := c.(tests := Some(t.(failures := Some(spaced))));
    forall k | 0 <= k < |failures|
      ensures FailureLine(failures[k]) == FailureLine(spaced[k])
    {
      SpacedLine(failures[k], spaced[k].message);
      assert failures[k].(message := spaced[k].message) == spaced[k];
    }
    assert FailureLines(failures) == FailureLines(spaced);
    assert TestsLines(c.tests) == TestsLines(d.tests);
    assert EncodedLines(c) == EncodedLines(d);
    RoundTripIff(d);
  }

  // ---------------------------------------------------------------- failures come after their header

  lemma {:induction false} NoneBeforeHeader(lines: seq<string>)
    requires forall k | 0 <= k < |lines| :: !StartsWith(Trim(lines[k]), "@failures:")
    ensures var r := ReadLines(UNREAD, lines);
      !r.inFailures && r.failures == [] && (r.tests.Some? ==> r.tests.value.failures.None?)
    decreases |lines|
  {
    hide Trim, ParseFile, ParseTests, ParseFailure, StartsWith;
    if lines != [] {
      var n := |lines| - 1;
      NoneBeforeHeader(lines[..n]);
      var line := Trim(lines[n]);
      if |line| >= 7 {
        NoFailuresYet(Trim(line[7..]));
      }
      TestsLineLong(line);
    }
  }

  lemma TestsLineLong(line: string)
    ensures StartsWith(line, "@tests:") ==> |line| >= 7
  {
  }

  /** A text without the header of the failures decodes without failures, whatever its lines look like. */
  lemma NoHeaderNoFailures(text: string)
    requires forall k | 0 <= k < |SplitLines(text)| :: !StartsWith(Trim(SplitLines(text)[k]), "@failures:")
    ensures Decoded(text).tests.Some? ==> Decoded(text).tests.value.failures.None?
  {
    hide Trim, SplitLines, ReadLines;
    NoneBeforeHeader(SplitLines(text));
  }
}
