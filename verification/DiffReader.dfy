/** The diff reader of src/diagnostics/diff-reporter.ts and the diffs it is meant for. */
module DiffReader {
  import opened Decimal
  import opened Prefixes
  import opened Scanning
  import opened Wrappers

  type Recorded = map<string, set<nat>>

  /** The variables of the reading loop. */
  datatype Reading = Reading(files: Recorded, current: Option<string>, line: nat)

  const NOTHING_READ := Reading(map[], None, 0)

  // ---------------------------------------------------------------- the hunk header pattern

  function SkipNewCount(s: string): string {
    match TakeText(s, ",")
    case Some(t) => (match TakeNat(t) case Some((_, u)) => u case None => s)
    case None => s
  }

  /** The pattern at the front of a text: both old numbers, the new start, perhaps a new count. */
  function HeaderAt(s: string): Option<nat> {
    var a :- TakeText(s, "@@ -");
    var (_, b) :- TakeNat(a);
    var c :- TakeText(b, ",");
    var (_, d) :- TakeNat(c);
    var e :- TakeText(d, " +");
    var (start, f) :- TakeNat(e);
    if StartsWith(SkipNewCount(f), " @@") then Some(start) else None
  }

  /** The pattern is not anchored: its first match anywhere in the line. */
  function HeaderStart(s: string): Option<nat> {
    if HeaderAt(s).Some? then HeaderAt(s)
    else if s == "" then None
    else HeaderStart(s[1..])
  }

  // ---------------------------------------------------------------- reading

  function ReadLine(r: Reading, line: string): Reading {
    if StartsWith(line, "+++ b/") then
      var file := Trim(line[6..]);
      r.(current := Some(file), files := if file in r.files then r.files else r.files[file := {}])
    else if StartsWith(line, "@@ ") then
      match HeaderStart(line)
      case Some(start) => r.(line := start)
      case None => r
    else if r.current.Some? && r.current.value != "" && r.current.value in r.files then
      if StartsWith(line, "+") && !StartsWith(line, "+++") then
        r.(files := r.files[r.current.value := r.files[r.current.value] + {r.line}], line := r.line + 1)
      else if !StartsWith(line, "-") then r.(line := r.line + 1)
      else r
    else r
  }

  function ReadLines(r: Reading, lines: seq<string>): Reading {
    if lines == [] then r else ReadLine(ReadLines(r, lines[..|lines| - 1]), lines[|lines| - 1])
  }

  /** parseGitDiffHunks. */
  function Read(text: string): Recorded {
    ReadLines(NOTHING_READ, SplitLines(text)).files
  }

  method ParseGitDiffHunks(text: string) returns (files: Recorded)
    ensures files == Read(text)
  {
    hide HeaderStart, Trim, SplitLines;
    var lines := SplitLines(text);
    files := map[];
    var current: Option<string> := None;
    var newLine := 0;
    for k := 0 to |lines|
      invariant Reading(files, current, newLine) == ReadLines(NOTHING_READ, lines[..k])
    {
      assert lines[..k + 1][..k] == lines[..k];
      var line := lines[k];
      if StartsWith(line, "+++ b/") {
        var file := Trim(line[6..]);
        current := Some(file);
        if file !in files {
          files := files[file := {}];
        }
      } else if StartsWith(line, "@@ ") {
        var start := HeaderStart(line);
        if start.Some? {
          newLine := start.value;
        }
      } else if current.Some? && current.value != "" && current.value in files {
        if StartsWith(line, "+") && !StartsWith(line, "+++") {
          files := files[current.value := files[current.value] + {newLine}];
          newLine := newLine + 1;
        } else if !StartsWith(line, "-") {
          newLine := newLine + 1;
        }
      }
    }
    assert lines[..|lines|] == lines;
  }

  // ---------------------------------------------------------------- diagnostics

  datatype Diagnostic = Diagnostic(file: string, line: nat, message: string)

  /** The path with slashes. */
  function Normalized(path: string): (r: string)
    ensures |r| == |path| && '\\' !in r
    ensures forall k | 0 <= k < |r| && r[k] != '/' :: path[k] == r[k]
    ensures forall k | 0 <= k < |r| && r[k] == '/' :: path[k] == '/' || path[k] == '\\'
  {
    seq(|path|, k requires 0 <= k < |path| => if path[k] == '\\' then '/' else path[k])
  }

  predicate OnRecordedLine(d: Diagnostic, files: Recorded) {
    Normalized(d.file) in files && d.line in files[Normalized(d.file)]
  }

  /** filterDiagnosticsByDiff. */
  function Filtered(diagnostics: seq<Diagnostic>, files: Recorded): seq<Diagnostic> {
    if diagnostics == [] then []
    else (if OnRecordedLine(diagnostics[0], files) then [diagnostics[0]] else []) + Filtered(diagnostics[1..], files)
  }

  // ---------------------------------------------------------------- diffs as they are printed

  /** A line of a hunk: a kept, an added or a deleted line, or the marker after a line that ends its file without a
      newline, which is no line of either version. */
  datatype Change = Keep(text: string) | Add(text: string) | Delete(text: string) | NoNewline

  /** A count of one may be left out of a range. */
  datatype Hunk = Hunk(
    oldStart: nat, oldCount: Option<nat>, newStart: nat, newCount: Option<nat>, section: string, changes: seq<Change>)

  /** Blanks may follow the path in its header: a tab after a path with spaces, a carriage return. */
  datatype FileDiff = FileDiff(preamble: seq<string>, path: string, blanks: string, hunks: seq<Hunk>)

  function CountText(count: Option<nat>): string {
    if count.Some? then "," + NatText(count.value) else ""
  }

  function HeaderLine(h: Hunk): string {
    "@@ -" + (NatText(h.oldStart) + (CountText(h.oldCount)
      + (" +" + (NatText(h.newStart) + (CountText(h.newCount) + (" @@" + h.section))))))
  }

  function ChangeLine(c: Change): string {
    match c
    case Keep(text) => " " + text
    case Add(text) => "+" + text
    case Delete(text) => "-" + text
    case NoNewline => "\\ No newline at end of file"
  }

  function ChangeLines(changes: seq<Change>): seq<string> {
    seq(|changes|, k requires 0 <= k < |changes| => ChangeLine(changes[k]))
  }

  function HunkLines(hunks: seq<Hunk>): seq<string> {
    if hunks == [] then []
    else
      HunkLines(hunks[..|hunks| - 1])
      + ([HeaderLine(hunks[|hunks| - 1])] + ChangeLines(hunks[|hunks| - 1].changes))
  }

  function PathLine(f: FileDiff): string {
    "+++ b/" + (f.path + f.blanks)
  }

  function LinesOf(f: FileDiff): seq<string> {
    f.preamble + ([PathLine(f)] + HunkLines(f.hunks))
  }

  function FileLines(files: seq<FileDiff>): seq<string> {
    if files == [] then [] else FileLines(files[..|files| - 1]) + LinesOf(files[|files| - 1])
  }

  function Printed(files: seq<FileDiff>): string {
    JoinLines(FileLines(files))
  }

  // ---------------------------------------------------------------- what a diff says

  /** The new version of the hunk: what is kept and what is added, in order. */
  function NewLines(changes: seq<Change>): seq<Change> {
    if changes == [] then []
    else
      var rest := NewLines(changes[..|changes| - 1]);
      var last := changes[|changes| - 1];
      if last.Delete? || last.NoNewline? then rest else rest + [last]
  }

  /** The positions of the added lines when the new version starts at a position. */
  function AddedAt(changes: seq<Change>, start: nat): set<nat> {
    set k | 0 <= k < |NewLines(changes)| && NewLines(changes)[k].Add? :: start + k
  }

  ghost predicate AddedIn(f: FileDiff, position: nat) {
    exists k :: 0 <= k < |f.hunks| && position in AddedAt(f.hunks[k].changes, f.hunks[k].newStart)
  }

  ghost predicate Added(files: seq<FileDiff>, path: string, position: nat) {
    exists k :: 0 <= k < |files| && files[k].path == path && AddedIn(files[k], position)
  }

  ghost predicate Mentions(files: seq<FileDiff>, path: string) {
    exists k :: 0 <= k < |files| && files[k].path == path
  }
}
