/** normalizePostgres as the program has it: one loop over an index, with inner loops for comments,
    literals and quoted identifiers, proved to compute the normal form of SqlText. */
module SqlNormalizer {
  import opened SqlText

  lemma Joined(a: string, b: string, c: string)
    ensures a + (b + c) == a + b + c && a + "" == a
  {
  }

  lemma TailOf(s: string, i: nat, n: nat)
    requires i + n <= |s|
    ensures s[i..][n..] == s[i + n..] && s[..i] + s[i..][..n] == s[..i + n]
  {
  }

  lemma CommentAt(s: string, i: nat, depth: nat)
    requires i <= |s|
    ensures CommentLength(s[i..], depth) ==
      if i == |s| || depth == 0 then 0
      else if Pair(s[i..], '/', '*') then 2 + CommentLength(s[i + 2..], depth + 1)
      else if Pair(s[i..], '*', '/') then 2 + CommentLength(s[i + 2..], depth - 1)
      else 1 + CommentLength(s[i + 1..], depth)
  {
    if i < |s| {
      TailOf(s, i, 1);
    }
    if i + 1 < |s| {
      TailOf(s, i, 2);
    }
  }

  method SkipComment(source: string, start: nat) returns (index: nat)
    requires start <= |source|
    ensures start <= index <= |source| && index == start + CommentLength(source[start..], 1)
  {
    hide CommentLength;
    index := start;
    var depth: nat := 1;
    while index < |source| && depth > 0
      invariant start <= index <= |source|
      invariant index - start + CommentLength(source[index..], depth) == CommentLength(source[start..], 1)
      decreases |source| - index
    {
      CommentAt(source, index, depth);
      if Pair(source[index..], '/', '*') {
        depth, index := depth + 1, index + 2;
      } else if Pair(source[index..], '*', '/') {
        depth, index := depth - 1, index + 2;
      } else {
        index := index + 1;
      }
    }
    CommentAt(source, index, depth);
  }

  lemma LiteralAt(s: string, i: nat, escapes: bool)
    requires i <= |s|
    ensures var two := TwoForOne(s[i..], escapes);
      && (two ==> i + 2 <= |s|)
      && LiteralLength(s[i..], escapes) ==
         (if i == |s| then 0
          else if two then 2 + LiteralLength(s[i + 2..], escapes)
          else if s[i] == '\'' then 1
          else 1 + LiteralLength(s[i + 1..], escapes))
      && LiteralValue(s[i..], escapes) ==
         (if i == |s| then ""
          else if two then [s[i + 1]] + LiteralValue(s[i + 2..], escapes)
          else if s[i] == '\'' then ""
          else [s[i]] + LiteralValue(s[i + 1..], escapes))
  {
    if i < |s| {
      TailOf(s, i, 1);
    }
    if i + 1 < |s| {
      TailOf(s, i, 2);
    }
  }

  method ReadLiteral(source: string, start: nat, escapes: bool) returns (index: nat, value: string)
    requires start <= |source|
    ensures start <= index <= |source| && index == start + LiteralLength(source[start..], escapes)
    ensures value == LiteralValue(source[start..], escapes)
  {
    hide LiteralLength, LiteralValue;
    index, value := start, "";
    Joined("", LiteralValue(source[start..], escapes), "");
    while index < |source|
      invariant start <= index <= |source|
      invariant index - start + LiteralLength(source[index..], escapes) == LiteralLength(source[start..], escapes)
      invariant value + LiteralValue(source[index..], escapes) == LiteralValue(source[start..], escapes)
    {
      LiteralAt(source, index, escapes);
      if (escapes && source[index] == '\\' && index + 1 < |source|)
         || (source[index] == '\'' && index + 1 < |source| && source[index + 1] == '\'') {
        Joined(value, [source[index + 1]], LiteralValue(source[index + 2..], escapes));
        value := value + [source[index + 1]];
        index := index + 2;
      } else if source[index] == '\'' {
        Joined(value, "", "");
        index := index + 1;
        return;
      } else {
        Joined(value, [source[index]], LiteralValue(source[index + 1..], escapes));
        value := value + [source[index]];
        index := index + 1;
      }
    }
    LiteralAt(source, index, escapes);
    Joined(value, "", "");
  }

  lemma QuotedAt(s: string, i: nat)
    requires i <= |s|
    ensures QuotedLength(s[i..]) ==
      if i == |s| then 0
      else if s[i] == '"' && i + 1 < |s| && s[i + 1] == '"' then 2 + QuotedLength(s[i + 2..])
      else if s[i] == '"' then 1
      else 1 + QuotedLength(s[i + 1..])
  {
    if i < |s| {
      TailOf(s, i, 1);
    }
    if i + 1 < |s| {
      TailOf(s, i, 2);
    }
  }

  method SkipQuoted(source: string, start: nat) returns (index: nat)
    requires start <= |source|
    ensures start <= index <= |source| && index == start + QuotedLength(source[start..])
  {
    hide QuotedLength;
    index := start;
    while index < |source|
      invariant start <= index <= |source|
      invariant index - start + QuotedLength(source[index..]) == QuotedLength(source[start..])
    {
      QuotedAt(source, index);
      if source[index] == '"' && index + 1 < |source| && source[index + 1] == '"' {
        index := index + 2;
      } else if source[index] == '"' {
        index := index + 1;
        return;
      } else {
        index := index + 1;
      }
    }
    QuotedAt(source, index);
  }

  /** One turn of the main loop: the token at the index. */
  method Turn(source: string, start: nat, preserved: set<string>) returns (index: nat, piece: string)
    requires start < |source|
    ensures start < index <= |source| && (index - start, piece) == Lexeme(source[..start], source[start..], preserved)
  {
    hide Find, TagLength, DollarLength, CommentLength, LiteralLength, LiteralValue, QuotedLength, LiteralPiece;
    var rest := source[start..];
    if Pair(rest, '-', '-') {
      index := start + 2 + Find(rest[2..], "\n");
      piece := if index < |source| then "\n" else "";
      return;
    }
    if Pair(rest, '/', '*') {
      assert rest[2..] == source[start + 2..];
      index := SkipComment(source, start + 2);
      return index, " ";
    }
    if TagLength(rest) > 0 {
      var n := DollarLength(rest);
      return start + n, " ";
    }
    index := start;
    var escapeString := false;
    if OpensEscape(source[..start], rest) {
      escapeString := true;
      index := index + 1;
    }
    if source[index] == '\'' {
      var value;
      assert source[index + 1..] == rest[index + 1 - start..];
      index, value := ReadLiteral(source, index + 1, escapeString);
      return index, LiteralPiece(value, preserved);
    }
    if source[index] == '"' {
      assert source[index + 1..] == rest[1..];
      index := SkipQuoted(source, index + 1);
      return index, " __quoted__ ";
    }
    return index + 1, [source[index]];
  }

  lemma CollapseStep(s: string, i: nat)
    requires i < |s|
    ensures var n := BlankRun(s[i..]);
            if IsBlank(s[i]) then i + n <= |s| && n > 0 && Collapse(s[i..]) == " " + Collapse(s[i + n..])
            else Collapse(s[i..]) == [s[i]] + Collapse(s[i + 1..])
  {
    hide IsBlank;
    var t := s[i..];
    var n := BlankRun(t);
    assert t[0] == s[i];
    if IsBlank(s[i]) {
      assert n > 0;
      TailOf(s, i, n);
    } else {
      TailOf(s, i, 1);
    }
  }

  method CollapseBlanks(s: string) returns (t: string)
    ensures t == Collapse(s)
  {
    t := "";
    var index := 0;
    assert s[0..] == s;
    Joined("", Collapse(s), "");
    while index < |s|
      invariant 0 <= index <= |s|
      invariant t + Collapse(s[index..]) == Collapse(s)
    {
      CollapseStep(s, index);
      if IsBlank(s[index]) {
        var n := BlankRun(s[index..]);
        Joined(t, " ", Collapse(s[index + n..]));
        t := t + " ";
        index := index + n;
      } else {
        Joined(t, [s[index]], Collapse(s[index + 1..]));
        t := t + [s[index]];
        index := index + 1;
      }
    }
    Joined(t, "", "");
  }

  lemma PiecesStep(s: string, i: nat, next: nat, piece: string, preserved: set<string>)
    requires i < next <= |s| && (next - i, piece) == Lexeme(s[..i], s[i..], preserved)
    ensures Pieces(s[..i], s[i..], preserved) == piece + Pieces(s[..next], s[next..], preserved)
  {
    hide Lexeme;
    TailOf(s, i, next - i);
  }

  method NextPiece(source: string, start: nat, preserved: set<string>) returns (index: nat, piece: string)
    requires start < |source|
    ensures start < index <= |source|
    ensures Pieces(source[..start], source[start..], preserved) == piece + Pieces(source[..index], source[index..], preserved)
  {
    index, piece := Turn(source, start, preserved);
    PiecesStep(source, start, index, piece, preserved);
  }

  /** normalizePostgres. */
  method NormalizePostgres(source: string, preserved: set<string>) returns (normal: string)
    requires IsAscii(source)
    ensures normal == Normal(source, preserved)
  {
    var output := "";
    var index := 0;
    assert source[0..] == source && source[..0] == "";
    Joined("", Pieces("", source, preserved), "");
    while index < |source|
      invariant 0 <= index <= |source|
      invariant output + Pieces(source[..index], source[index..], preserved) == Pieces("", source, preserved)
    {
      var next, piece := NextPiece(source, index, preserved);
      Joined(output, piece, Pieces(source[..next], source[next..], preserved));
      output := output + piece;
      index := next;
    }
    Joined(output, "", "");
    normal := CollapseBlanks(Lower(output));
  }
}
