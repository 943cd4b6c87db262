/** How the pieces of TOON text are read back: counts, file lines and failure lines. */
module ToonText {
  import opened Decimal
  import opened Scanning
  import opened ToonFormat
  import opened Wrappers

  // ---------------------------------------------------------------- counts

  ghost predicate NoSpaces(s: string) {
    forall k | 0 <= k < |s| :: !IsSpace(s[k])
  }

  lemma TakesSpace(rest: string)
    requires rest != "" && !IsSpace(rest[0])
    ensures TakeSpaces(" " + rest) == Some(rest) && SpaceRun(" " + rest) == 1
  {
    assert (" " + rest)[..1] == " " && (" " + rest)[1..] == rest;
    SpaceRunIs(" " + rest, 1);
  }

  lemma TakenNatHasNoSpaces(s: string)
    requires TakeNat(s).Some? && NoSpaces(TakeNat(s).value.1)
    ensures NoSpaces(s)
  {
    var digits := TakenNat(s);
  }

  lemma TakenTextHasNoSpaces(s: string, p: string)
    requires TakeText(s, p).Some? && NoSpaces(p) && NoSpaces(TakeText(s, p).value)
    ensures NoSpaces(s)
  {
    TakenText(s, p);
  }

  lemma CountTail(s: string, nested: bool)
    requires ParseCount(s, nested).Some?
    ensures 0 < SpaceRun(s) && NoSpaces(s[SpaceRun(s)..])
  {
    hide TakeNat, TakeText;
    var t := TakeSpaces(s).value;
    var u := TakeText(t, "(+").value;
    var v := TakeNat(u).value.1;
    var w := TakeText(v, if nested then "/-(" else "/-").value;
    TakenNatHasNoSpaces(w);
    TakenTextHasNoSpaces(v, if nested then "/-(" else "/-");
    TakenNatHasNoSpaces(u);
    TakenTextHasNoSpaces(t, "(+");
  }

  /** Text that counts were read from is spaces, then no space any more. */
  lemma CountShape(s: string, nested: bool)
    requires ParseCount(s, nested).Some?
    ensures 0 < SpaceRun(s) && forall k | SpaceRun(s) <= k < |s| :: !IsSpace(s[k])
  {
    hide ParseCount;
    CountTail(s, nested);
    forall k | SpaceRun(s) <= k < |s|
      ensures !IsSpace(s[k])
    {
      assert s[SpaceRun(s)..][k - SpaceRun(s)] == s[k];
    }
  }

  /** The nested pattern ends in two parentheses. */
  lemma NestedCountEnd(s: string)
    requires ParseCount(s, true).Some?
    ensures |s| >= 2 && s[|s| - 2] == ')'
  {
    hide TakeNat, TakeText;
    var t := TakeSpaces(s).value;
    var u := TakeText(t, "(+").value;
    TakenText(t, "(+");
    var a := TakenNat(u);
    var v := TakeNat(u).value.1;
    TakenText(v, "/-(");
    var w := TakeText(v, "/-(").value;
    var d := TakenNat(w);
  }

  /** Counts are read the same after any number of spaces. */
  lemma CountAfterSpaces(s: string, t: string)
    requires SpaceRun(s) > 0 && SpaceRun(t) > 0 && s[SpaceRun(s)..] == t[SpaceRun(t)..]
    ensures ParseCount(s, false) == ParseCount(t, false)
  {
  }

  /** Counts as the encoder writes them, or with the second pair of parentheses that the decoder tries first. */
  function Counts(additions: nat, deletions: nat, nested: bool): string {
    if nested then " (+" + (NatText(additions) + ("/-(" + (NatText(deletions) + "))"))) else CountText(additions, deletions)
  }

  lemma CountReads(additions: nat, deletions: nat, nested: bool)
    ensures var t := Counts(additions, deletions, nested);
      ParseCount(t, nested) == Some((additions, deletions)) && SpaceRun(t) == 1 && |t| > 1
  {
    hide TakeNat, TakeText, NatText;
    var close, open := if nested then "))" else ")", if nested then "/-(" else "/-";
    var last := NatText(deletions) + close;
    var middle := open + last;
    var u := NatText(additions) + middle;
    var s := Counts(additions, deletions, nested);
    assert s == " " + ("(+" + u);
    assert s[..1] == " ";
    SpaceRunIs(s, 1);
    assert s[1..] == "(+" + u;
    TakesText("(+", u);
    TakesNat(additions, middle);
    TakesText(open, last);
    TakesNat(deletions, close);
  }

  // ---------------------------------------------------------------- file lines

  function FileText(f: FileChange): string {
    f.path + CountText(f.additions, f.deletions)
  }

  lemma CountEnd(f: FileChange)
    ensures |FileText(f)| >= 2 && IsDigit(FileText(f)[|FileText(f)| - 2])
  {
    NatTextDigits(f.deletions);
    var digits := NatText(f.deletions);
    assert FileText(f)[|FileText(f)| - 2] == digits[|digits| - 1];
  }

  lemma {:induction false} NoNestedCount(f: FileChange, m: nat)
    requires m <= |FileText(f)|
    ensures PathLength(FileText(f), m, true).None?
    decreases |FileText(f)| - m
  {
    hide ParseCount, TakeNat;
    var s := FileText(f);
    if ParseCount(s[m..], true).Some? {
      NestedCountEnd(s[m..]);
      CountEnd(f);
      assert false;
    }
    if m < |s| {
      NoNestedCount(f, m + 1);
    }
  }

  lemma NoCountInside(f: FileChange, m: nat, nested: bool)
    requires m < |f.path| && ParseCount((f.path + Counts(f.additions, f.deletions, nested))[m..], nested).Some?
    ensures IsSpace(f.path[|f.path| - 1])
  {
    hide ParseCount, Counts;
    var counts := Counts(f.additions, f.deletions, nested);
    var s := f.path + counts;
    CountReads(f.additions, f.deletions, nested);
    CountShape(s[m..], nested);
    CountShape(counts, nested);
    var t := s[m..];
    assert t[|f.path| - m] == counts[0];
    assert t[|f.path| - 1 - m] == f.path[|f.path| - 1];
  }

  lemma {:induction false} PathFound(f: FileChange, m: nat, nested: bool)
    requires OneLine(f.path) && (f.path == "" || !IsSpace(f.path[|f.path| - 1]))
    requires m <= |f.path|
    ensures PathLength(f.path + Counts(f.additions, f.deletions, nested), m, nested) == Some(|f.path|)
    decreases |f.path| - m
  {
    hide ParseCount, Counts;
    var counts := Counts(f.additions, f.deletions, nested);
    var s := f.path + counts;
    CountReads(f.additions, f.deletions, nested);
    if m == |f.path| {
      assert s[m..] == counts;
    } else {
      if ParseCount(s[m..], nested).Some? {
        NoCountInside(f, m, nested);
        assert false;
      }
      PathFound(f, m + 1, nested);
    }
  }

  /** With the second pair of parentheses a file is read as well. */
  lemma NestedReadBack(f: FileChange)
    requires OneLine(f.path) && (f.path == "" || !IsSpace(f.path[|f.path| - 1]))
    ensures ParseFile(f.status, f.path + Counts(f.additions, f.deletions, true)) == f
  {
    hide ParseCount, Counts;
    var nested := true;
    var counts := Counts(f.additions, f.deletions, nested);
    var s := f.path + counts;
    PathFound(f, 0, nested);
    CountReads(f.additions, f.deletions, nested);
    assert s[|f.path|..] == counts && s[..|f.path|] == f.path;
  }

  /** The path found is one line, and no shorter path is followed by counts. */
  lemma {:induction false} PathIsShortest(s: string, m: nat, k: nat)
    requires m <= k <= |s| && PathLength(s, m, false).Some? && k < PathLength(s, m, false).value
    ensures !IsTerminator(s[k]) && ParseCount(s[k..], false).None?
    decreases k - m
  {
    hide ParseCount;
    if m < k {
      PathIsShortest(s, m + 1, k);
    }
  }

  /** A printed file line gives its file back exactly when the path is one line and does not end in a space. */
  lemma FileReadBackIff(f: FileChange)
    ensures ParseFile(f.status, FileText(f)) == f
       <==> OneLine(f.path) && (f.path == "" || !IsSpace(f.path[|f.path| - 1]))
  {
    hide ParseCount, CountText, TakeNat;
    var s, counts := FileText(f), CountText(f.additions, f.deletions);
    var nested := false;
    NoNestedCount(f, 0);
    CountReads(f.additions, f.deletions, nested);
    assert s[|f.path|..] == counts && s[..|f.path|] == f.path;
    if OneLine(f.path) && (f.path == "" || !IsSpace(f.path[|f.path| - 1])) {
      PathFound(f, 0, nested);
    } else if ParseFile(f.status, s) == f {
      var m := PathLength(s, 0, false);
      assert m == Some(|f.path|);
      forall k | 0 <= k < |f.path|
        ensures !IsTerminator(f.path[k])
      {
        PathIsShortest(s, 0, k);
        assert s[k] == f.path[k];
      }
      var n := |f.path| - 1;
      PathIsShortest(s, 0, n);
      var t := s[n..];
      assert t[1..] == counts;
      assert t[2..] == counts[1..];
      assert t[1] == counts[0] && t[2] == counts[1];
      SpaceRunIs(t, 2);
      CountAfterSpaces(t, counts);
      assert false;
    }
  }

  // ---------------------------------------------------------------- the tests line

  lemma TestsReadBack(t: Summary)
    ensures ParseTests(TestsText(t)) == Some(t.(failures := None))
  {
    hide TakeNat, TakeText, TakeSpaces, NatText;
    var g := NatText(t.total) + ")";
    var f := "(total:" + g;
    var e := "S" + (" " + f);
    var d := NatText(t.skipped) + e;
    var c := "F/" + d;
    var b := NatText(t.failed) + c;
    assert "S (total:" + g == e;
    TakesNat(t.passed, "P/" + b);
    TakesText("P/", b);
    TakesNat(t.failed, c);
    TakesText("F/", d);
    TakesNat(t.skipped, e);
    TakesText("S", " " + f);
    TakesSpace(f);
    TakesText("(total:", g);
    TakesNat(t.total, ")");
  }

  // ---------------------------------------------------------------- failure lines

  ghost predicate Divides(s: string, k: int) {
    0 <= k < |s| - 1 && s[k] == ']' && s[k + 1] == ':'
  }

  /** A failure that its line gives back: no `]:` in the name, one line, message trimmed. */
  ghost predicate PlainFailure(f: TestFailure) {
    && OneLine(f.name) && OneLine(f.message) && Trim(f.message) == f.message
    && forall k {:trigger Divides(f.name, k)} :: !Divides(f.name, k)
  }

  function FailureText(f: TestFailure): string {
    f.name + ("]:" + TrimEnd(" " + f.message))
  }

  lemma MessageAfter(s: string, rest: string)
    requires s == "]:" + rest
    ensures MessageAt(s) == if OneLine(TrimStart(rest)) then Some(TrimStart(rest)) else None
  {
    TakesText("]:", rest);
  }

  lemma MessageNeedsMark(s: string, k: nat)
    requires k <= |s| && MessageAt(s[k..]).Some?
    ensures Divides(s, k)
  {
    TakenText(s[k..], "]:");
    assert s[k..][0] == s[k] && s[k..][1] == s[k + 1];
  }

  lemma MessageIsTrimmed(pre: string, t: string, post: string)
    requires Spaces(pre) && Spaces(post) && t != "" && !IsSpace(t[0]) && !IsSpace(t[|t| - 1])
    ensures TrimStart(TrimEnd(" " + (pre + (t + post)))) == t
  {
    hide TrimEnd, SpaceRun;
    var head := " " + pre + t;
    assert " " + (pre + (t + post)) == head + post;
    assert head[|head| - 1] == t[|t| - 1];
    TrimEndIs(head, post);
    var n := |pre| + 1;
    assert head[..n] == " " + pre && head[n] == t[0] && head[n..] == t;
    assert Spaces(head[..n]);
    SpaceRunIs(head, n);
  }

  /** Leading and trailing spaces of a message are lost, nothing else. */
  lemma MessageTrimmed(message: string)
    ensures TrimStart(TrimEnd(" " + message)) == Trim(message)
  {
    hide TrimEnd, Trim;
    var pre, post := TrimParts(message);
    if Trim(message) == "" {
      assert Spaces(" " + message);
      TrimEndIs("", " " + message);
      assert "" + (" " + message) == " " + message;
    } else {
      MessageIsTrimmed(pre, Trim(message), post);
    }
  }

  lemma MarkIsInName(f: TestFailure, m: nat)
    requires m < |f.name| && Divides(FailureText(f), m)
    ensures Divides(f.name, m)
  {
    assert FailureText(f)[|f.name|] == ']';
  }

  lemma {:induction false} NameFound(f: TestFailure, m: nat)
    requires PlainFailure(f) && m <= |f.name|
    ensures NameLength(FailureText(f), m) == Some(|f.name|)
    decreases |f.name| - m
  {
    hide MessageAt, Trim, TrimStart;
    var s, tail := FailureText(f), "]:" + TrimEnd(" " + f.message);
    MessageTrimmed(f.message);
    MessageAfter(tail, TrimEnd(" " + f.message));
    if m == |f.name| {
      assert s[m..] == tail;
    } else {
      if MessageAt(s[m..]).Some? {
        MessageNeedsMark(s, m);
        MarkIsInName(f, m);
        assert false;
      }
      NameFound(f, m + 1);
    }
  }

  lemma TailIsOneLine(name: string, message: string, k: nat)
    requires OneLine(name) && OneLine(message) && k <= |name|
    ensures OneLine(TrimStart(name[k..] + ("]:" + TrimEnd(" " + message))))
  {
    var rest := TrimEnd(" " + message);
    assert OneLine(rest) by {
      assert rest <= " " + message;
    }
    var t := name[k..] + ("]:" + rest);
    assert OneLine(t);
  }

  /** The name found is one line, and no shorter name is followed by a message. */
  lemma {:induction false} NameIsShortest(s: string, m: nat, k: nat)
    requires m <= k <= |s| && NameLength(s, m).Some? && k < NameLength(s, m).value
    ensures !IsTerminator(s[k]) && MessageAt(s[k..]).None?
    decreases k - m
  {
    hide MessageAt;
    if m < k {
      NameIsShortest(s, m + 1, k);
    }
  }

  lemma ReadBackIsPlain(f: TestFailure)
    requires ParseFailure(FailureText(f)) == Some(f)
    ensures PlainFailure(f)
  {
    hide Trim, TrimStart, MessageAt, TrimEnd;
    var s, rest := FailureText(f), TrimEnd(" " + f.message);
    MessageTrimmed(f.message);
    MessageAfter("]:" + rest, rest);
    assert s[|f.name|..] == "]:" + rest && s[..|f.name|] == f.name;
    assert NameLength(s, 0) == Some(|f.name|);
    forall k {:trigger IsTerminator(f.name[k])} | 0 <= k < |f.name|
      ensures !IsTerminator(f.name[k])
    {
      NameIsShortest(s, 0, k);
      assert s[k] == f.name[k];
    }
    TrimTwice(f.message);
    forall k {:trigger Divides(f.name, k)}
      ensures !Divides(f.name, k)
    {
      if Divides(f.name, k) {
        EarlierMark(f, k);
        NameIsShortest(s, 0, k);
        assert false;
      }
    }
  }

  /** A mark inside the name would have been taken for its end. */
  lemma EarlierMark(f: TestFailure, k: nat)
    requires OneLine(f.name) && OneLine(f.message) && Divides(f.name, k)
    ensures MessageAt(FailureText(f)[k..]).Some?
  {
    hide TrimEnd, TrimStart, OneLine;
    var s, rest := FailureText(f), TrimEnd(" " + f.message);
    assert s[k..] == "]:" + (f.name[k + 2..] + ("]:" + rest));
    TailIsOneLine(f.name, f.message, k + 2);
    MessageAfter(s[k..], f.name[k + 2..] + ("]:" + rest));
  }

  /** A printed failure line gives its failure back exactly when the failure is plain. */
  lemma FailureReadBackIff(f: TestFailure)
    ensures ParseFailure(FailureText(f)) == Some(f) <==> PlainFailure(f)
  {
    hide Trim, TrimStart, MessageAt, TrimEnd;
    var s, rest := FailureText(f), TrimEnd(" " + f.message);
    if PlainFailure(f) {
      NameFound(f, 0);
      MessageTrimmed(f.message);
      MessageAfter("]:" + rest, rest);
      assert s[|f.name|..] == "]:" + rest && s[..|f.name|] == f.name;
    } else if ParseFailure(s) == Some(f) {
      ReadBackIsPlain(f);
      assert false;
    }
  }
}
