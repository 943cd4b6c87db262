/** encodeToon and decodeToon of packages/riqor/src/toon-formatter.ts as the loops they are. */
module ToonCodec {
  import opened Decimal
  import opened Prefixes
  import opened Scanning
  import opened ToonFormat
  import opened Wrappers

  method EncodeToon(c: Context) returns (text: string)
    ensures text == Encoded(c)
  {
    hide FileLine, FailureLine, JoinLines, TestsText, NatText, Trim;
    var lines := ["@task: " + Trim(c.task)];
    if |c.files| > 0 {
      lines := lines + ["@files[" + (NatText(|c.files|) + "]:")];
      ghost var start := lines;
      for k := 0 to |c.files|
        invariant lines == start + FileLines(c.files[..k])
      {
        lines := lines + [FileLine(c.files[k])];
        assert FileLines(c.files[..k + 1]) == FileLines(c.files[..k]) + [FileLine(c.files[k])];
      }
      assert c.files[..|c.files|] == c.files;
    } else {
      lines := lines + ["@files: none"];
      assert FileLines(c.files) == [];
    }
    assert lines == ["@task: " + Trim(c.task)] + ([FilesHeader(|c.files|)] + FileLines(c.files));
    ghost var before := lines;
    if c.tests.Some? {
      var t := c.tests.value;
      lines := lines + ["@tests: " + TestsText(t)];
      if t.failures.Some? && |t.failures.value| > 0 {
        lines := lines + ["@failures:"];
        ghost var start := lines;
        for k := 0 to |t.failures.value|
          invariant lines == start + FailureLines(t.failures.value[..k])
        {
          var f := t.failures.value[k];
          lines := lines + [FailureLine(f)];
          assert FailureLines(t.failures.value[..k + 1]) == FailureLines(t.failures.value[..k]) + [FailureLine(f)];
        }
        assert t.failures.value[..|t.failures.value|] == t.failures.value;
      }
    }
    assert lines == before + TestsLines(c.tests);
    assert lines == EncodedLines(c);
    text := JoinLines(lines);
  }

  method DecodeToon(text: string) returns (c: Context)
    ensures c == Decoded(text)
  {
    hide ParseFile, ParseTests, ParseFailure, Trim, SplitLines;
    var lines := SplitLines(text);
    var task, files, failures := "", [], [];
    var testSummary: Option<Summary> := None;
    var inFailures := false;
    for k := 0 to |lines|
      invariant Reading(task, files, testSummary, inFailures, failures) == ReadLines(UNREAD, lines[..k])
    {
      assert lines[..k + 1][..k] == lines[..k];
      var line := Trim(lines[k]);
      if StartsWith(line, "@task:") {
        task := Trim(line[6..]);
      } else if StartsWith(line, "~ ") || StartsWith(line, "+ ") || StartsWith(line, "- ") {
        var status := if line[0] == '+' then Added else if line[0] == '-' then Deleted else Modified;
        files := files + [ParseFile(status, line[2..])];
      } else if StartsWith(line, "@tests:") {
        var parsed := ParseTests(Trim(line[7..]));
        if parsed.Some? {
          testSummary := parsed;
        }
      } else if StartsWith(line, "@failures:") {
        inFailures := true;
      } else if inFailures && StartsWith(line, "! [") {
        var parsed := ParseFailure(line[3..]);
        if parsed.Some? {
          failures := failures + [parsed.value];
        }
      }
    }
    assert lines[..|lines|] == lines;
    if testSummary.Some? && |failures| > 0 {
      testSummary := Some(testSummary.value.(failures := Some(failures)));
    }
    c := Context(task, files, testSummary);
  }
}
