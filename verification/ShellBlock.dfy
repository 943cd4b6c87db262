/** The managed block that scripts/install-shell-integration.py writes into a shell file and
    scripts/uninstall-shell-integration.py takes out again. */
module ShellBlock {
  import opened Wrappers

  const START := "# >>> codex-self-improvement >>>"
  const END := "# <<< codex-self-improvement <<<"

  // ---------------------------------------------------------------- lines and blanks

  /** Where splitlines ends a line. */
  predicate IsBreak(c: char) {
    var n := c as int;
    10 <= n <= 13 || 0x1C <= n <= 0x1E || n == 0x85 || n == 0x2028 || n == 0x2029
  }

  /** What rstrip removes. */
  predicate IsBlank(c: char) {
    var n := c as int;
    || 9 <= n <= 13 || 0x1C <= n <= 0x20 || n == 0x85 || n == 0xA0 || n == 0x1680 || 0x2000 <= n <= 0x200A
    || n == 0x2028 || n == 0x2029 || n == 0x202F || n == 0x205F || n == 0x3000
  }

  function LineRun(s: string): (n: nat)
    ensures n <= |s|
  {
    if s == "" || IsBreak(s[0]) then 0 else 1 + LineRun(s[1..])
  }

  /** A carriage return and the newline after it end a line together. */
  function BreakWidth(s: string, n: nat): (w: nat)
    requires n < |s|
    ensures 1 <= w <= |s| - n
  {
    if s[n] == '\r' && n + 1 < |s| && s[n + 1] == '\n' then 2 else 1
  }

  function AfterLine(s: string): (rest: string)
    requires LineRun(s) < |s|
    ensures |rest| < |s|
  {
    s[LineRun(s) + BreakWidth(s, LineRun(s))..]
  }

  function SplitLines(s: string): (lines: seq<string>)
    decreases |s|
  {
    if s == "" then []
    else
      if LineRun(s) == |s| then [s] else [s[..LineRun(s)]] + SplitLines(AfterLine(s))
  }

  function Join(lines: seq<string>): string {
    if lines == [] then ""
    else if |lines| == 1 then lines[0]
    else lines[0] + ("\n" + Join(lines[1..]))
  }

  function RStrip(s: string): (t: string)
    ensures t <= s && (t != "" ==> !IsBlank(t[|t| - 1])) && forall k | |t| <= k < |s| :: IsBlank(s[k])
  {
    if s != "" && IsBlank(s[|s| - 1]) then RStrip(s[..|s| - 1]) else s
  }

  // ---------------------------------------------------------------- the two scripts

  /** The lines outside the markers; None where the scripts raise. */
  function Kept(lines: seq<string>, skipping: bool): Option<seq<string>> {
    if lines == [] then if skipping then None else Some([])
    else if lines[0] == START then if skipping then None else Kept(lines[1..], true)
    else if lines[0] == END then if skipping then Kept(lines[1..], false) else None
    else if skipping then Kept(lines[1..], true)
    else
      match Kept(lines[1..], false)
      case None => None
      case Some(rest) => Some([lines[0]] + rest)
  }

  function KeptLines(original: string): Option<seq<string>> {
    Kept(SplitLines(original), false)
  }

  function Block(body: string): string {
    START + ("\n" + (body + ("\n" + END)))
  }

  /** render_managed_block, on the block around a body. */
  function Rendered(original: string, body: string): Option<string> {
    match KeptLines(original)
    case None => None
    case Some(lines) =>
      var text := RStrip(Join(lines));
      Some((if text != "" then text + "\n\n" else "") + (Block(body) + "\n"))
  }

  /** strip_managed_block. */
  function Stripped(original: string): Option<string> {
    match KeptLines(original)
    case None => None
    case Some(lines) => Some(RStrip(Join(lines)) + if lines != [] then "\n" else "")
  }

  lemma KeptStep(lines: seq<string>, k: nat)
    requires k < |lines|
    ensures lines[k..][1..] == lines[k + 1..] && lines[k..][0] == lines[k]
  {
  }

  /** The line loop that both scripts run. */
  method KeepLines(original: string) returns (output: Option<seq<string>>)
    ensures output == KeptLines(original)
  {
    var lines := SplitLines(original);
    var kept: seq<string> := [];
    var skipping := false;
    assert lines[0..] == lines && forall rest: seq<string> :: [] + rest == rest;
    for k := 0 to |lines|
      invariant Kept(lines, false) == match Kept(lines[k..], skipping) {
        case None => None
        case Some(rest) => Some(kept + rest)
      }
    {
      KeptStep(lines, k);
      if lines[k] == START {
        if skipping {
          return None;
        }
        skipping := true;
      } else if lines[k] == END {
        if !skipping {
          return None;
        }
        skipping := false;
      } else if !skipping {
        ghost var before := kept;
        kept := kept + [lines[k]];
        assert forall rest: seq<string> :: before + ([lines[k]] + rest) == kept + rest;
      }
    }
    assert lines[|lines|..] == [];
    if skipping {
      return None;
    }
    assert kept + [] == kept;
    return Some(kept);
  }

  method RenderManagedBlock(original: string, body: string) returns (r: Option<string>)
    ensures r == Rendered(original, body)
  {
    var output := KeepLines(original);
    if output.None? {
      return None;
    }
    var text := RStrip(Join(output.value));
    r := Some((if text != "" then text + "\n\n" else "") + (Block(body) + "\n"));
  }

  method StripManagedBlock(original: string) returns (r: Option<string>)
    ensures r == Stripped(original)
  {
    var output := KeepLines(original);
    if output.None? {
      return None;
    }
    r := Some(RStrip(Join(output.value)) + (if output.value != [] then "\n" else ""));
  }

  // ---------------------------------------------------------------- splitting what was joined

  ghost predicate Unbroken(s: string) {
    forall k | 0 <= k < |s| :: !IsBreak(s[k])
  }

  ghost predicate EndsUnbroken(t: string) {
    t != "" && !IsBreak(t[|t| - 1])
  }

  lemma {:induction false} LineRunShape(s: string)
    ensures Unbroken(s[..LineRun(s)]) && (LineRun(s) < |s| ==> IsBreak(s[LineRun(s)]))
    decreases |s|
  {
    hide IsBreak;
    if s != "" && !IsBreak(s[0]) {
      LineRunShape(s[1..]);
      var n := LineRun(s[1..]);
      assert s[1..][..n] == s[1..n + 1];
      forall k | 0 <= k < n + 1
        ensures !IsBreak(s[k])
      {
        assert k > 0 ==> s[k] == s[1..][..n][k - 1];
      }
    }
  }

  lemma {:induction false} UnbrokenRun(a: string, b: string)
    requires Unbroken(a) && (b == "" || IsBreak(b[0]))
    ensures LineRun(a + b) == |a|
    decreases |a|
  {
    if a == "" {
      assert a + b == b;
    } else {
      assert (a + b)[1..] == a[1..] + b;
      UnbrokenRun(a[1..], b);
    }
  }

  lemma UnbrokenIsOneLine(t: string)
    requires Unbroken(t) && t != ""
    ensures SplitLines(t) == [t]
  {
    assert t + "" == t;
    UnbrokenRun(t, "");
  }

  /** One line break: a carriage return and newline, or one break that is not the start of such a pair. */
  ghost predicate OneBreak(b: string, rest: string) {
    b == "\r\n" || (|b| == 1 && IsBreak(b[0]) && !(b == "\r" && rest != "" && rest[0] == '\n'))
  }

  lemma SplitStep(s: string, n: nat)
    requires n < |s| && LineRun(s) == n
    ensures SplitLines(s) == [s[..n]] + SplitLines(s[n + BreakWidth(s, n)..])
  {
    hide IsBreak, BreakWidth, LineRun;
    assert AfterLine(s) == s[n + BreakWidth(s, n)..];
  }

  lemma NewlineBreaks()
    ensures IsBreak('\n') && IsBreak('\r')
  {
  }

  lemma BreakWidthIs(a: string, b: string, rest: string)
    requires OneBreak(b, rest)
    ensures BreakWidth(a + (b + rest), |a|) == |b|
  {
    hide IsBreak;
    var s := a + (b + rest);
    assert s[|a|] == b[0];
    if |b| == 2 {
      assert s[|a| + 1] == b[1];
    } else if rest != "" {
      assert s[|a| + 1] == rest[0];
    }
  }

  lemma BrokenAt(a: string, b: string, rest: string)
    requires Unbroken(a) && OneBreak(b, rest)
    ensures SplitLines(a + (b + rest)) == [a] + SplitLines(rest)
  {
    hide IsBreak, SplitLines, BreakWidth, LineRun;
    var s := a + (b + rest);
    NewlineBreaks();
    assert (b + rest)[0] == b[0];
    UnbrokenRun(a, b + rest);
    SplitStep(s, |a|);
    BreakWidthIs(a, b, rest);
    assert s[..|a|] == a && s[|a| + |b|..] == rest;
  }

  lemma FirstLine(a: string, rest: string)
    requires Unbroken(a)
    ensures SplitLines(a + ("\n" + rest)) == [a] + SplitLines(rest)
  {
    hide SplitLines;
    BrokenAt(a, "\n", rest);
  }

  lemma BreakParts(t: string) returns (a: string, b: string, u: string)
    requires EndsUnbroken(t) && LineRun(t) < |t|
    ensures t == a + (b + u) && Unbroken(a) && OneBreak(b, u) && EndsUnbroken(u) && |u| < |t|
  {
    hide IsBreak, LineRun;
    NewlineBreaks();
    LineRunShape(t);
    var n := LineRun(t);
    var w := BreakWidth(t, n);
    a, b, u := t[..n], t[n..n + w], t[n + w..];
    assert n + w < |t|;
    assert u[|u| - 1] == t[|t| - 1] && u[0] == t[n + w];
  }

  lemma {:induction false} SplitAppended(t: string, rest: string)
    requires EndsUnbroken(t)
    ensures SplitLines(t + ("\n" + rest)) == SplitLines(t) + SplitLines(rest)
    decreases |t|
  {
    hide SplitLines, IsBreak;
    LineRunShape(t);
    if LineRun(t) == |t| {
      assert t[..|t|] == t;
      FirstLine(t, rest);
      UnbrokenIsOneLine(t);
    } else {
      var a, b, u := BreakParts(t);
      assert t + ("\n" + rest) == a + (b + (u + ("\n" + rest)));
      BrokenAt(a, b, u);
      BrokenAt(a, b, u + ("\n" + rest));
      SplitAppended(u, rest);
      assert [a] + SplitLines(u) + SplitLines(rest) == [a] + (SplitLines(u) + SplitLines(rest));
    }
  }

  ghost predicate AllUnbroken(lines: seq<string>) {
    forall k | 0 <= k < |lines| :: Unbroken(lines[k])
  }

  ghost predicate NoMarkers(lines: seq<string>) {
    forall k | 0 <= k < |lines| :: lines[k] != START && lines[k] != END
  }

  lemma {:induction false} SplitUnbroken(s: string)
    ensures AllUnbroken(SplitLines(s))
    decreases |s|
  {
    hide Unbroken, LineRun, AfterLine;
    if s != "" {
      LineRunShape(s);
      if LineRun(s) < |s| {
        SplitUnbroken(AfterLine(s));
      } else {
        assert s[..LineRun(s)] == s;
      }
    }
  }

  lemma {:induction false} KeptIsPlain(lines: seq<string>, skipping: bool)
    requires AllUnbroken(lines) && Kept(lines, skipping).Some?
    ensures AllUnbroken(Kept(lines, skipping).value) && NoMarkers(Kept(lines, skipping).value)
    decreases |lines|
  {
    hide Unbroken;
    if lines != [] {
      var next := if lines[0] == START then true else if lines[0] == END then false else skipping;
      KeptIsPlain(lines[1..], next);
    }
  }

  lemma {:induction false} KeptAppended(a: seq<string>, b: seq<string>)
    requires NoMarkers(a)
    ensures Kept(a + b, false) == match Kept(b, false) { case None => None case Some(rest) => Some(a + rest) }
    decreases |a|
  {
    if a == [] {
      assert a + b == b && forall rest: seq<string> :: a + rest == rest;
    } else {
      assert (a + b)[1..] == a[1..] + b && (a + b)[0] == a[0];
      KeptAppended(a[1..], b);
      assert forall rest: seq<string> :: [a[0]] + (a[1..] + rest) == a + rest;
    }
  }

  // ---------------------------------------------------------------- files with blocks in them

  /** A shell file in pieces: lines of its owner, and managed blocks. */
  datatype Piece = Line(line: string) | Managed(inside: seq<string>)

  ghost predicate Proper(pieces: seq<Piece>) {
    forall p | p in pieces :: if p.Line? then p.line != START && p.line != END else NoMarkers(p.inside)
  }

  function PieceLines(p: Piece): seq<string> {
    match p
    case Line(line) => [line]
    case Managed(inside) => [START] + (inside + [END])
  }

  function Laid(pieces: seq<Piece>): seq<string> {
    if pieces == [] then [] else PieceLines(pieces[0]) + Laid(pieces[1..])
  }

  /** The owner's lines, in order. */
  function Owned(pieces: seq<Piece>): seq<string> {
    if pieces == [] then [] else (if pieces[0].Line? then [pieces[0].line] else []) + Owned(pieces[1..])
  }

  lemma {:induction false} SkipsInside(inside: seq<string>, rest: seq<string>)
    requires NoMarkers(inside)
    ensures Kept(inside + ([END] + rest), true) == Kept(rest, false)
    decreases |inside|
  {
    var lines := inside + ([END] + rest);
    if inside == [] {
      MarkersDiffer();
      assert lines == [END] + rest && lines[1..] == rest;
    } else {
      assert lines[0] == inside[0] && lines[1..] == inside[1..] + ([END] + rest);
      SkipsInside(inside[1..], rest);
    }
  }

  lemma PieceKept(p: Piece, rest: seq<string>)
    requires Proper([p]) && Kept(rest, false).Some?
    ensures Kept(PieceLines(p) + rest, false) == Some((if p.Line? then [p.line] else []) + Kept(rest, false).value)
  {
    assert p in [p];
    var lines := PieceLines(p) + rest;
    match p
    case Line(line) =>
      assert lines[0] == line && lines[1..] == rest;
    case Managed(inside) =>
      assert lines == [START] + (inside + ([END] + rest));
      assert lines[0] == START && lines[1..] == inside + ([END] + rest);
      SkipsInside(inside, rest);
      assert [] + Kept(rest, false).value == Kept(rest, false).value;
  }

  /** Of any file in pieces the line loop keeps exactly the owner's lines, before, between and after the blocks. */
  lemma {:induction false} KeepsOwned(pieces: seq<Piece>)
    requires Proper(pieces)
    ensures Kept(Laid(pieces), false) == Some(Owned(pieces))
    decreases |pieces|
  {
    hide Kept, PieceLines;
    if pieces == [] {
      NothingKept();
    } else {
      assert pieces[0] in pieces;
      KeepsOwned(pieces[1..]);
      PieceKept(pieces[0], Laid(pieces[1..]));
    }
  }

  lemma NothingKept()
    ensures Kept([], false) == Some([])
  {
  }

  /** Where the next end marker is. */
  lemma {:induction false} InsideUntil(lines: seq<string>) returns (inside: seq<string>, rest: seq<string>)
    requires Kept(lines, true).Some?
    ensures lines == inside + ([END] + rest) && NoMarkers(inside) && Kept(rest, false) == Kept(lines, true)
    decreases |lines|
  {
    if lines[0] == END {
      inside, rest := [], lines[1..];
      MarkersDiffer();
    } else {
      inside, rest := InsideUntil(lines[1..]);
      inside := [lines[0]] + inside;
    }
  }

  lemma {:induction false} InPieces(lines: seq<string>) returns (pieces: seq<Piece>)
    requires Kept(lines, false).Some?
    ensures Proper(pieces) && Laid(pieces) == lines
    decreases |lines|
  {
    pieces := [];
    if lines != [] {
      if lines[0] == START {
        var inside, rest := InsideUntil(lines[1..]);
        var more := InPieces(rest);
        pieces := [Managed(inside)] + more;
        assert lines == [START] + lines[1..];
        assert pieces[1..] == more && PieceLines(pieces[0]) + Laid(more) == [START] + (inside + ([END] + rest));
      } else {
        var more := InPieces(lines[1..]);
        pieces := [Line(lines[0])] + more;
        assert pieces[1..] == more && lines == [lines[0]] + lines[1..];
      }
    }
  }

  /** The line loop accepts exactly the files that are lines and whole blocks. */
  lemma AcceptedIff(lines: seq<string>)
    ensures Kept(lines, false).Some? <==> exists pieces :: Proper(pieces) && Laid(pieces) == lines
  {
    if Kept(lines, false).Some? {
      var pieces := InPieces(lines);
    }
    if pieces :| Proper(pieces) && Laid(pieces) == lines {
      KeepsOwned(pieces);
    }
  }

  function LastLine(t: string): string {
    var lines := SplitLines(t);
    if lines == [] then "" else lines[|lines| - 1]
  }

  /** A text cut from joined lines, not inside a line break, splits into those lines with the last one cut. */
  lemma {:induction false} CutLines(out: seq<string>, t: string)
    requires AllUnbroken(out) && t <= Join(out) && EndsUnbroken(t)
    ensures SplitLines(t) != [] && |SplitLines(t)| <= |out|
    ensures var n := |SplitLines(t)| - 1; SplitLines(t)[..n] == out[..n]
    ensures Join(SplitLines(t)) == t
    decreases |out|
  {
    hide SplitLines, Join, IsBreak;
    JoinedFirst(out);
    if |t| <= |out[0]| {
      assert t == Join(out)[..|t|] == out[0][..|t|];
      UnbrokenIsOneLine(t);
      JoinOne(t);
    } else {
      CutRest(out, t);
      var u := t[|out[0]| + 1..];
      CutLines(out[1..], u);
      FirstLine(out[0], u);
      var lines := SplitLines(u);
      JoinMore(out[0], lines);
      assert ([out[0]] + lines)[..|lines|] == [out[0]] + lines[..|lines| - 1];
      assert out[..|lines|] == [out[0]] + out[1..][..|lines| - 1];
    }
  }

  lemma JoinedFirst(out: seq<string>)
    requires Join(out) != ""
    ensures out != [] && out[0] <= Join(out)
  {
  }

  lemma JoinOne(t: string)
    ensures Join([t]) == t
  {
  }

  lemma JoinMore(a: string, lines: seq<string>)
    requires lines != []
    ensures Join([a] + lines) == a + ("\n" + Join(lines))
  {
    assert ([a] + lines)[1..] == lines;
  }

  lemma CutRest(out: seq<string>, t: string)
    requires out != [] && AllUnbroken(out) && t <= Join(out) && EndsUnbroken(t) && |t| > |out[0]|
    ensures |out| > 1 && |t| > |out[0]| + 1
    ensures var u := t[|out[0]| + 1..];
      t == out[0] + ("\n" + u) && u <= Join(out[1..]) && EndsUnbroken(u)
  {
    var n := |out[0]|;
    var j := out[0] + ("\n" + Join(out[1..]));
    assert |out| > 1 && j == Join(out);
    assert t[n] == j[n] == '\n';
    assert t == j[..|t|];
    assert t[..n] == out[0];
    assert t[n + 1..] == Join(out[1..])[..|t| - n - 1];
  }

  // ---------------------------------------------------------------- install and uninstall

  /** The kept text, and whether its last line is a marker once its trailing blanks are gone. */
  function KeptText(original: string): string
    requires KeptLines(original).Some?
  {
    RStrip(Join(KeptLines(original).value))
  }

  predicate EndsInMarker(original: string)
    requires KeptLines(original).Some?
  {
    LastLine(KeptText(original)) in [START, END]
  }

  lemma BreaksAreBlank(t: string)
    requires t != "" && !IsBlank(t[|t| - 1])
    ensures EndsUnbroken(t)
  {
  }

  /** The lines of the kept text: none but perhaps the last is a marker, and joining them gives the text. */
  lemma KeptTextLines(original: string)
    requires KeptLines(original).Some? && KeptText(original) != ""
    ensures var t := KeptText(original); var lines := SplitLines(t);
      EndsUnbroken(t) && lines != [] && NoMarkers(lines[..|lines| - 1]) && Join(lines) == t && RStrip(t) == t
  {
    hide SplitLines, Kept, Join, IsBlank, IsBreak;
    var t, out := KeptText(original), KeptLines(original).value;
    SplitUnbroken(original);
    KeptIsPlain(SplitLines(original), false);
    BreaksAreBlank(t);
    CutLines(out, t);
    var n := |SplitLines(t)| - 1;
    assert NoMarkers(out[..n]);
    assert RStrip(t) == t;
  }

  /** What the line loop keeps of the kept text with more lines after it, unless the text ends in a marker. */
  lemma KeptAgain(original: string, rest: string)
    requires KeptLines(original).Some? && KeptText(original) != "" && !EndsInMarker(original)
    ensures var t := KeptText(original);
      KeptLines(t + ("\n" + rest)) == match Kept(SplitLines(rest), false) {
        case None => None
        case Some(more) => Some(SplitLines(t) + more)
      }
  {
    hide SplitLines, Kept;
    var t := KeptText(original);
    KeptTextLines(original);
    SplitAppended(t, rest);
    assert NoMarkers(SplitLines(t));
    KeptAppended(SplitLines(t), SplitLines(rest));
  }

  lemma MarkersDiffer()
    ensures START != END && START != "" && END != ""
  {
    assert START[2] == '>' && END[2] == '<';
  }

  /** More lines that end no block: none, a blank one, or a blank one and then a start marker. */
  ghost predicate Unclosed(more: seq<string>) {
    more == [] || more == [""] || (|more| > 1 && more[0] == "" && more[1] == START)
  }

  /** If the kept text ends in a marker, the line loop refuses it with such lines after it. */
  lemma MarkerRefused(original: string, rest: string)
    requires KeptLines(original).Some? && KeptText(original) != "" && EndsInMarker(original)
    requires Unclosed(SplitLines(rest))
    ensures KeptLines(KeptText(original) + ("\n" + rest)).None?
  {
    hide SplitLines, Kept, IsBreak, Unclosed;
    var t, more := KeptText(original), SplitLines(rest);
    KeptTextLines(original);
    SplitAppended(t, rest);
    var lines := SplitLines(t);
    var n := |lines| - 1;
    assert lines + more == lines[..n] + ([lines[n]] + more);
    KeptAppended(lines[..n], [lines[n]] + more);
    RefusedTail(lines[n], more);
  }

  lemma RefusedTail(marker: string, more: seq<string>)
    requires marker in [START, END] && Unclosed(more)
    ensures Kept([marker] + more, false).None?
  {
    MarkersDiffer();
    assert ([marker] + more)[1..] == more;
    if |more| > 1 {
      assert more[1..][0] == START;
      assert Kept(more, true) == Kept(more[1..], true) == None;
    } else if |more| == 1 {
      assert more[0] == "" && more[1..] == [];
      assert Kept(more, true) == Kept([], true) == None;
    }
  }

  /** A body the block can carry: one line, not a marker. */
  ghost predicate PlainBody(body: string) {
    Unbroken(body) && body != "" && body != START && body != END
  }

  lemma MarkersUnbroken()
    ensures Unbroken(START) && Unbroken(END)
  {
  }

  lemma BlockLines(body: string)
    requires PlainBody(body)
    ensures SplitLines(Block(body) + "\n") == [START, body, END]
  {
    MarkersUnbroken();
    hide SplitLines;
    assert Block(body) + "\n" == START + ("\n" + (body + ("\n" + (END + ("\n" + "")))));
    FirstLine(START, body + ("\n" + (END + ("\n" + ""))));
    FirstLine(body, END + ("\n" + ""));
    FirstLine(END, "");
    NoLines();
  }

  lemma NoLines()
    ensures SplitLines("") == [] && Unbroken("")
  {
  }

  lemma BlockKept(body: string)
    requires PlainBody(body)
    ensures Kept([START, body, END], false) == Some([])
  {
    MarkersDiffer();
    assert [START, body, END][1..] == [body, END] && [body, END][1..] == [END] && [END][1..] == [];
    assert Kept([END], true) == Kept([], false) == Some([]);
    assert Kept([body, END], true) == Kept([END], true);
  }

  lemma {:induction false} JoinBlankLast(lines: seq<string>)
    requires lines != []
    ensures Join(lines + [""]) == Join(lines) + "\n"
    decreases |lines|
  {
    if |lines| == 1 {
      assert (lines + [""])[1..] == [""] && Join([""]) == "";
      assert Join(lines + [""]) == lines[0] + ("\n" + "") == lines[0] + "\n";
    } else {
      assert (lines + [""])[1..] == lines[1..] + [""];
      JoinBlankLast(lines[1..]);
      assert lines[0] + ("\n" + (Join(lines[1..]) + "\n")) == lines[0] + ("\n" + Join(lines[1..])) + "\n";
    }
  }

  lemma StripNewline(t: string)
    ensures RStrip(t + "\n") == RStrip(t)
  {
    assert (t + "\n")[..|t|] == t;
  }

  /** What is kept of a rendered file. */
  lemma RenderedKeeps(original: string, body: string)
    requires PlainBody(body) && KeptLines(original).Some?
    ensures var t := KeptText(original); var r := Rendered(original, body).value;
      KeptLines(r) == if EndsInMarker(original) then None else Some(if t == "" then [] else SplitLines(t) + [""])
  {
    hide SplitLines, Kept, Block, KeptText, LastLine;
    var t, text := KeptText(original), Block(body) + "\n";
    BlockLines(body);
    BlockKept(body);
    if t == "" {
      NoMarkerInNothing(original);
      RenderedFrom(original, body);
      assert "" + text == text;
    } else {
      RenderedFrom(original, body);
      var rest := "\n" + text;
      assert t + "\n\n" + text == t + ("\n" + rest);
      NoLines();
      FirstLine("", text);
      assert "" + ("\n" + text) == rest;
      var more := SplitLines(rest);
      assert more == [""] + [START, body, END];
      if EndsInMarker(original) {
        assert more[0] == "" && more[1] == START;
        MarkerRefused(original, rest);
      } else {
        KeptAgain(original, rest);
        MarkersDiffer();
        KeptAppended([""], [START, body, END]);
        assert SplitLines(t) + ([""] + []) == SplitLines(t) + [""];
      }
    }
  }

  lemma NoMarkerInNothing(original: string)
    requires KeptLines(original).Some? && KeptText(original) == ""
    ensures !EndsInMarker(original)
  {
    MarkersDiffer();
    NoLines();
  }

  lemma RenderedFrom(original: string, body: string)
    requires KeptLines(original).Some?
    ensures var t := KeptText(original);
      Rendered(original, body) == Some((if t != "" then t + "\n\n" else "") + (Block(body) + "\n"))
  {
  }

  /** The text kept of a rendered file is the text kept of the original. */
  lemma RenderedText(original: string, body: string)
    requires PlainBody(body) && KeptLines(original).Some? && !EndsInMarker(original)
    ensures KeptLines(Rendered(original, body).value).Some?
    ensures KeptText(Rendered(original, body).value) == KeptText(original)
  {
    RenderedKeeps(original, body);
    hide SplitLines, Kept, Block, LastLine, EndsInMarker;
    var t := KeptText(original);
    if t != "" {
      KeptTextLines(original);
      JoinBlankLast(SplitLines(t));
      StripNewline(t);
    }
  }

  lemma {:induction false} RStripSum(a: string, b: string)
    ensures RStrip(a + b) == if RStrip(b) == "" then RStrip(a) else a + RStrip(b)
    decreases |b|
  {
    hide IsBlank;
    if b == "" {
      assert a + b == a;
    } else {
      var n := |b| - 1;
      assert (a + b)[..|a + b| - 1] == a + b[..n] && (a + b)[|a + b| - 1] == b[n];
      RStripSum(a, b[..n]);
    }
  }

  /** Lines without the blank end: the last line that is not blank is trimmed, those after it go. */
  function Trimmed(lines: seq<string>): seq<string> {
    if lines == [] then []
    else
      var rest := Trimmed(lines[1..]);
      if rest != [] then [lines[0]] + rest else if RStrip(lines[0]) != "" then [RStrip(lines[0])] else []
  }

  lemma SplitNothingIff(t: string)
    ensures SplitLines(t) == [] <==> t == ""
  {
  }

  lemma RStripUnbroken(a: string)
    requires Unbroken(a)
    ensures Unbroken(RStrip(a))
  {
  }

  lemma NewlineStripped()
    ensures RStrip("\n") == "" && RStrip("") == ""
  {
    assert "\n"[..0] == "";
  }

  /** The lines of a joined text once its blank end is gone. */
  lemma {:induction false} StrippedLines(out: seq<string>)
    requires AllUnbroken(out)
    ensures SplitLines(RStrip(Join(out))) == Trimmed(out)
    decreases |out|
  {
    hide SplitLines, IsBreak, RStrip;
    NoLines();
    NewlineStripped();
    if out != [] {
      var a := out[0];
      SplitNothingIff(RStrip(a));
      RStripUnbroken(a);
      if RStrip(a) != "" {
        UnbrokenIsOneLine(RStrip(a));
      }
      if |out| == 1 {
        assert Trimmed(out[1..]) == [];
      } else {
        var v := Join(out[1..]);
        StrippedLines(out[1..]);
        SplitNothingIff(RStrip(v));
        RStripSum("\n", v);
        RStripSum(a, "\n" + v);
        FirstLine(a, RStrip(v));
      }
    }
  }

  /** Installing into a file in pieces: the owner's lines without the blank end, a blank line, and one block. */
  lemma RenderedLines(original: string, pieces: seq<Piece>, body: string)
    requires PlainBody(body) && Proper(pieces) && SplitLines(original) == Laid(pieces)
    ensures Rendered(original, body).Some?
    ensures var lines := Trimmed(Owned(pieces));
      SplitLines(Rendered(original, body).value)
      == (if lines == [] then [] else lines + [""]) + [START, body, END]
  {
    hide SplitLines, Kept, Block, RStrip, Join, Trimmed;
    PiecesKept(original, pieces);
    var t, text := RStrip(Join(Owned(pieces))), Block(body) + "\n";
    BlockLines(body);
    RenderedFrom(original, body);
    StrippedLines(Owned(pieces));
    SplitNothingIff(t);
    if t == "" {
      assert "" + text == text;
    } else {
      StrippedEnds(Join(Owned(pieces)));
      NoLines();
      FirstLine("", text);
      SplitAppended(t, "\n" + text);
      assert "" + ("\n" + text) == "\n" + text && t + "\n\n" + text == t + ("\n" + ("\n" + text));
      assert SplitLines(t) + ([""] + [START, body, END]) == SplitLines(t) + [""] + [START, body, END];
    }
  }

  lemma StrippedEnds(s: string)
    requires RStrip(s) != ""
    ensures EndsUnbroken(RStrip(s))
  {
    BreaksAreBlank(RStrip(s));
  }

  lemma PiecesKept(original: string, pieces: seq<Piece>)
    requires Proper(pieces) && SplitLines(original) == Laid(pieces)
    ensures KeptLines(original) == Some(Owned(pieces)) && AllUnbroken(Owned(pieces))
    ensures KeptText(original) == RStrip(Join(Owned(pieces)))
  {
    hide SplitLines, Kept, RStrip, Join;
    KeepsOwned(pieces);
    SplitUnbroken(original);
    KeptIsPlain(SplitLines(original), false);
  }

  /** Uninstalling from a file in pieces: the owner's lines without the blank end, or one empty line of blank ones. */
  lemma StrippedLinesOf(original: string, pieces: seq<Piece>)
    requires Proper(pieces) && SplitLines(original) == Laid(pieces)
    ensures Stripped(original).Some?
    ensures var lines := Trimmed(Owned(pieces));
      SplitLines(Stripped(original).value) == if lines == [] && Owned(pieces) != [] then [""] else lines
  {
    hide SplitLines, Kept, RStrip, Join, Trimmed;
    PiecesKept(original, pieces);
    StrippedFrom(original);
    StrippedLines(Owned(pieces));
    NoLines();
    var t := RStrip(Join(Owned(pieces)));
    SplitNothingIff(t);
    if t == "" {
      FirstLine("", "");
      assert "" + ("\n" + "") == "" + "\n" && "" + "" == "" && [""] + [] == [""];
    } else {
      StrippedEnds(Join(Owned(pieces)));
      SplitAppended(t, "");
      assert t + "\n" == t + ("\n" + "") && SplitLines(t) + [] == SplitLines(t) && t + "" == t;
    }
  }

  /** Installing twice is installing once, exactly when the last kept line that is not blank is no marker with
      trailing blanks; with one, the second run refuses the file that the first run wrote. */
  lemma RenderTwiceIff(original: string, body: string)
    requires PlainBody(body) && Rendered(original, body).Some?
    ensures Rendered(Rendered(original, body).value, body) == Rendered(original, body) <==> !EndsInMarker(original)
    ensures Rendered(Rendered(original, body).value, body).None? <==> EndsInMarker(original)
  {
    hide SplitLines, Kept, Block, LastLine, EndsInMarker, KeptText;
    var r := Rendered(original, body).value;
    RenderedKeeps(original, body);
    if !EndsInMarker(original) {
      RenderedText(original, body);
      RenderedFrom(original, body);
      RenderedFrom(r, body);
    }
  }

  lemma StrippedFrom(original: string)
    requires KeptLines(original).Some?
    ensures Stripped(original) == Some(KeptText(original) + if KeptLines(original).value != [] then "\n" else "")
    ensures KeptLines(original).value == [] ==> KeptText(original) == ""
  {
  }

  /** Uninstalling after installing gives what uninstalling the original would have given, or the empty file when
      no line that is not blank was kept; unless the original ends in a marker, which is refused. */
  lemma StripRendered(original: string, body: string)
    requires PlainBody(body) && Rendered(original, body).Some?
    ensures Stripped(Rendered(original, body).value)
         == if EndsInMarker(original) then None
            else if KeptText(original) == "" then Some("")
            else Stripped(original)
  {
    hide SplitLines, Kept, Block, LastLine, EndsInMarker, KeptText;
    RenderedKeeps(original, body);
    if !EndsInMarker(original) {
      RenderedText(original, body);
      StrippedFrom(Rendered(original, body).value);
      StrippedFrom(original);
      var t := KeptText(original);
      assert t + "" == t && SplitLines(t) + [""] != [];
    }
  }

  lemma StrippedKeeps(original: string)
    requires KeptLines(original).Some?
    ensures var t := KeptText(original);
      KeptLines(Stripped(original).value) ==
        if EndsInMarker(original) then None
        else if t != "" then Some(SplitLines(t))
        else if KeptLines(original).value == [] then Some([]) else Some([""])
  {
    hide SplitLines, Kept, KeptText, LastLine;
    var t := KeptText(original);
    StrippedFrom(original);
    NoLines();
    assert Kept([], false) == Some([]) && Kept([""], false) == Some([""]) by { SmallKept(); }
    if t == "" {
      NoMarkerInNothing(original);
      FirstLine("", "");
      assert "" + ("\n" + "") == "" + "\n";
      assert [""] + [] == [""] && "" + "" == "";
    } else {
      assert t + "\n" == t + ("\n" + "");
      if EndsInMarker(original) {
        MarkerRefused(original, "");
      } else {
        KeptAgain(original, "");
        assert SplitLines(t) + [] == SplitLines(t);
      }
    }
  }

  lemma SmallKept()
    ensures Kept([], false) == Some([]) && Kept([""], false) == Some([""])
  {
    MarkersDiffer();
    assert [""][1..] == [] && [""][0] == "";
    assert Kept([""][1..], false) == Some([]) && [""] + [] == [""];
  }

  /** Installing after uninstalling is installing, and uninstalling twice is uninstalling once, under the same
      condition. */
  lemma RenderStripped(original: string, body: string)
    requires PlainBody(body) && Stripped(original).Some?
    ensures Rendered(Stripped(original).value, body)
         == if EndsInMarker(original) then None else Rendered(original, body)
    ensures Stripped(Stripped(original).value) == if EndsInMarker(original) then None else Stripped(original)
  {
    StrippedKeeps(original);
    if !EndsInMarker(original) {
      var s := Stripped(original).value;
      assert KeptText(s) == KeptText(original) by {
        if KeptText(original) != "" {
          KeptTextLines(original);
        }
      }
      hide SplitLines, Kept, Block, LastLine, EndsInMarker, KeptText;
      RenderedFrom(s, body);
      RenderedFrom(original, body);
      StrippedFrom(s);
      StrippedFrom(original);
    }
  }

  /** The failing family is not empty: a start marker with a blank after it is kept as text by the first run and
      written back as a marker. */
  lemma MarkerWithBlank(body: string) returns (original: string)
    requires PlainBody(body)
    ensures original == START + " "
    ensures Rendered(original, body).Some? && Rendered(Rendered(original, body).value, body).None?
  {
    hide Kept, Block;
    original := START + " ";
    MarkersUnbroken();
    UnbrokenIsOneLine(original);
    assert |original| == |START| + 1 && |END| == |START|;
    assert Kept([original], false) == Some([original]) by { OneKept(original); }
    assert original[..|START|] == START;
    assert START[|START| - 1] == '>';
    assert KeptText(original) == START;
    MarkersDiffer();
    UnbrokenIsOneLine(START);
    assert EndsInMarker(original);
    RenderTwiceIff(original, body);
  }

  lemma OneKept(line: string)
    requires line != START && line != END
    ensures Kept([line], false) == Some([line])
  {
    assert [line][1..] == [] && [line] + [] == [line];
  }
}
