/** The TOON text of packages/riqor/src/toon-formatter.ts: what each line is written as, and how the
    decoder's patterns read it. */
module ToonFormat {
  import opened Decimal
  import opened Prefixes
  import opened Scanning
  import opened Wrappers

  datatype Status = Modified | Added | Deleted

  datatype FileChange = FileChange(path: string, status: Status, additions: nat, deletions: nat)

  datatype TestFailure = TestFailure(name: string, message: string)

  datatype Summary = Summary(passed: nat, failed: nat, skipped: nat, total: nat, failures: Option<seq<TestFailure>>)

  datatype Context = Context(task: string, files: seq<FileChange>, tests: Option<Summary>)

  // ---------------------------------------------------------------- characters

  /** What a dot in a pattern does not match. */
  predicate IsTerminator(c: char) {
    c == '\n' || c == '\r' || c as int == 0x2028 || c as int == 0x2029
  }

  predicate OneLine(s: string) {
    forall k | 0 <= k < |s| :: !IsTerminator(s[k])
  }

  // ---------------------------------------------------------------- writing

  function Symbol(status: Status): char {
    match status
    case Added => '+'
    case Deleted => '-'
    case Modified => '~'
  }

  function CountText(additions: nat, deletions: nat): string {
    " (+" + (NatText(additions) + ("/-" + (NatText(deletions) + ")")))
  }

  function FileLine(f: FileChange): string {
    "  " + ([Symbol(f.status)] + (" " + (f.path + CountText(f.additions, f.deletions))))
  }

  function TestsText(t: Summary): string {
    NatText(t.passed) + ("P/" + (NatText(t.failed) + ("F/" + (NatText(t.skipped) + ("S (total:" + (NatText(t.total) + ")"))))))
  }

  /** Newlines become spaces. */
  function SingleLine(s: string): string {
    seq(|s|, k requires 0 <= k < |s| => if s[k] == '\n' then ' ' else s[k])
  }

  function FailureLine(f: TestFailure): string {
    "  ! [" + (f.name + ("]: " + SingleLine(f.message)))
  }

  function FileLines(files: seq<FileChange>): seq<string> {
    seq(|files|, k requires 0 <= k < |files| => FileLine(files[k]))
  }

  function FailureLines(failures: seq<TestFailure>): seq<string> {
    seq(|failures|, k requires 0 <= k < |failures| => FailureLine(failures[k]))
  }

  function FilesHeader(n: nat): string {
    if n == 0 then "@files: none" else "@files[" + (NatText(n) + "]:")
  }

  function TestsLines(tests: Option<Summary>): seq<string> {
    if tests.None? then []
    else
      ["@tests: " + TestsText(tests.value)]
      + if tests.value.failures.None? || tests.value.failures.value == [] then []
        else ["@failures:"] + FailureLines(tests.value.failures.value)
  }

  function EncodedLines(c: Context): seq<string> {
    ["@task: " + Trim(c.task)] + ([FilesHeader(|c.files|)] + (FileLines(c.files) + TestsLines(c.tests)))
  }

  /** encodeToon. */
  function Encoded(c: Context): string {
    JoinLines(EncodedLines(c))
  }

  // ---------------------------------------------------------------- reading

  /** One or more spaces. */
  function TakeSpaces(s: string): Option<string> {
    if SpaceRun(s) == 0 then None else Some(s[SpaceRun(s)..])
  }

  /** The counts after a path; `nested` is the first of the two patterns, with a second parenthesis. */
  function ParseCount(s: string, nested: bool): Option<(nat, nat)> {
    var t :- TakeSpaces(s);
    var u :- TakeText(t, "(+");
    var (additions, v) :- TakeNat(u);
    var w :- TakeText(v, if nested then "/-(" else "/-");
    var (deletions, x) :- TakeNat(w);
    if x == (if nested then "))" else ")") then Some((additions, deletions)) else None
  }

  /** The shortest one-line path from length m on that counts follow. */
  function PathLength(s: string, m: nat, nested: bool): (r: Option<nat>)
    requires m <= |s|
    ensures r.Some? ==> m <= r.value <= |s| && ParseCount(s[r.value..], nested).Some?
    decreases |s| - m
  {
    if ParseCount(s[m..], nested).Some? then Some(m)
    else if m < |s| && !IsTerminator(s[m]) then PathLength(s, m + 1, nested)
    else None
  }

  function ParseFile(status: Status, s: string): FileChange {
    match PathLength(s, 0, true)
    case Some(m) =>
      var (additions, deletions) := ParseCount(s[m..], true).value;
      FileChange(s[..m], status, additions, deletions)
    case None =>
      match PathLength(s, 0, false)
      case Some(m) =>
        var (additions, deletions) := ParseCount(s[m..], false).value;
        FileChange(s[..m], status, additions, deletions)
      case None => FileChange(s, status, 0, 0)
  }

  function ParseTests(s: string): Option<Summary> {
    var (passed, t) :- TakeNat(s);
    var u :- TakeText(t, "P/");
    var (failed, v) :- TakeNat(u);
    var w :- TakeText(v, "F/");
    var (skipped, x) :- TakeNat(w);
    var y :- TakeText(x, "S");
    var z :- TakeSpaces(y);
    var a :- TakeText(z, "(total:");
    var (total, b) :- TakeNat(a);
    if b == ")" then Some(Summary(passed, failed, skipped, total, None)) else None
  }

  /** The one-line message when the name ends here. */
  function MessageAt(s: string): Option<string> {
    var t :- TakeText(s, "]:");
    if OneLine(TrimStart(t)) then Some(TrimStart(t)) else None
  }

  /** The shortest one-line name from length m on that a message follows. */
  function NameLength(s: string, m: nat): (r: Option<nat>)
    requires m <= |s|
    ensures r.Some? ==> m <= r.value <= |s| && MessageAt(s[r.value..]).Some?
    decreases |s| - m
  {
    if MessageAt(s[m..]).Some? then Some(m)
    else if m < |s| && !IsTerminator(s[m]) then NameLength(s, m + 1)
    else None
  }

  function ParseFailure(s: string): Option<TestFailure> {
    match NameLength(s, 0)
    case Some(m) => Some(TestFailure(s[..m], MessageAt(s[m..]).value))
    case None => None
  }

  /** The variables of the decoding loop. */
  datatype Reading = Reading(task: string, files: seq<FileChange>, tests: Option<Summary>, inFailures: bool, failures: seq<TestFailure>)

  const UNREAD := Reading("", [], None, false, [])

  function StatusOf(symbol: char): Status {
    if symbol == '+' then Added else if symbol == '-' then Deleted else Modified
  }

  function ReadLine(r: Reading, rawLine: string): Reading {
    var line := Trim(rawLine);
    if StartsWith(line, "@task:") then r.(task := Trim(line[6..]))
    else if StartsWith(line, "~ ") || StartsWith(line, "+ ") || StartsWith(line, "- ") then
      r.(files := r.files + [ParseFile(StatusOf(line[0]), line[2..])])
    else if StartsWith(line, "@tests:") then
      match ParseTests(Trim(line[7..]))
      case Some(t) => r.(tests := Some(t))
      case None => r
    else if StartsWith(line, "@failures:") then r.(inFailures := true)
    else if r.inFailures && StartsWith(line, "! [") then
      match ParseFailure(line[3..])
      case Some(f) => r.(failures := r.failures + [f])
      case None => r
    else r
  }

  function ReadLines(r: Reading, lines: seq<string>): Reading {
    if lines == [] then r else ReadLine(ReadLines(r, lines[..|lines| - 1]), lines[|lines| - 1])
  }

  function ContextOf(r: Reading): Context {
    Context(r.task, r.files,
            if r.tests.Some? && r.failures != [] then Some(r.tests.value.(failures := Some(r.failures))) else r.tests)
  }

  /** decodeToon. */
  function Decoded(text: string): Context {
    ContextOf(ReadLines(UNREAD, SplitLines(text)))
  }
}
