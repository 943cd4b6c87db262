/** The token grammar of SqlTokens leaves nothing out: every text is the text of well-formed tokens. */
module SqlCoverage {
  import opened Prefixes
  import opened SqlProperties
  import opened SqlText
  import opened SqlTokens
  import opened Wrappers

  // ---------------------------------------------------------------- block comments

  /** The inside of a comment up to its end, and what follows; None when it does not end. */
  function ParseComment(s: string): (r: Option<(Comment, string)>)
    ensures r.Some? ==> |r.value.1| < |s|
    decreases |s|
  {
    if s == "" then None
    else if Pair(s, '*', '/') then Some((End, s[2..]))
    else if Pair(s, '/', '*') then
      match ParseComment(s[2..])
      case None => None
      case Some((inner, more)) =>
        match ParseComment(more)
        case None => None
        case Some((tail, rest)) => Some((Nested(inner, tail), rest))
    else
      match ParseComment(s[1..])
      case None => None
      case Some((tail, rest)) => Some((Text(s[0], tail), rest))
  }

  lemma CommentLong(c: Comment)
    ensures |CommentText(c)| >= 2
  {
  }

  lemma {:induction false} CommentParsed(s: string)
    requires ParseComment(s).Some?
    ensures var (c, rest) := ParseComment(s).value; CommentOk(c) && s == CommentText(c) + rest
    decreases |s|
  {
    if Pair(s, '*', '/') {
      assert s == "*/" + s[2..];
    } else if Pair(s, '/', '*') {
      CommentParsed(s[2..]);
      var (inner, more) := ParseComment(s[2..]).value;
      CommentParsed(more);
      var (tail, rest) := ParseComment(more).value;
      assert s == "/*" + s[2..];
      assert s == "/*" + (CommentText(inner) + CommentText(tail)) + rest;
    } else {
      CommentParsed(s[1..]);
      var (tail, rest) := ParseComment(s[1..]).value;
      assert s == [s[0]] + s[1..];
      CommentLong(tail);
      assert s[1] == CommentText(tail)[0];
    }
  }

  lemma {:induction false} CommentOpen(s: string, depth: nat)
    requires ParseComment(s).None?
    ensures CommentLength(s, depth + 1) == |s|
    decreases |s|
  {
    hide CommentLength, CommentText, CommentOk;
    if s == "" {
      CommentLengthEmpty(depth + 1);
    } else if Pair(s, '/', '*') {
      CommentStep(s, s[2..], depth + 1);
      if ParseComment(s[2..]).None? {
        CommentOpen(s[2..], depth + 1);
      } else {
        CommentParsed(s[2..]);
        var (inner, more) := ParseComment(s[2..]).value;
        CommentReads(inner, more, depth + 1);
        CommentOpen(more, depth);
      }
    } else {
      CommentStep(s, s[1..], depth + 1);
      CommentOpen(s[1..], depth);
    }
  }

  lemma CommentLengthEmpty(depth: nat)
    ensures CommentLength("", depth) == 0
  {
  }

  // ---------------------------------------------------------------- literals and quoted names

  function ParseUnits(s: string, escapes: bool): (r: Option<(seq<Unit>, string)>)
    ensures r.Some? ==> |r.value.1| < |s|
    decreases |s|
  {
    if s == "" then None
    else if TwoForOne(s, escapes) then
      match ParseUnits(s[2..], escapes)
      case None => None
      case Some((tail, rest)) => Some(([if s[0] == '\'' then DoubledQuote else Escaped(s[1])] + tail, rest))
    else if s[0] == '\'' then Some(([], s[1..]))
    else
      match ParseUnits(s[1..], escapes)
      case None => None
      case Some((tail, rest)) => Some(([One(s[0])] + tail, rest))
  }

  lemma {:induction false} UnitsParsed(s: string, escapes: bool)
    requires ParseUnits(s, escapes).Some?
    ensures var (units, rest) := ParseUnits(s, escapes).value;
      UnitsOk(units, escapes) && s == UnitsText(units) + rest && (rest == "" || rest[0] != '\'')
    decreases |s|
  {
    hide UnitsText, UnitsOk;
    if TwoForOne(s, escapes) {
      UnitsParsed(s[2..], escapes);
      var (tail, rest) := ParseUnits(s[2..], escapes).value;
      var u := if s[0] == '\'' then DoubledQuote else Escaped(s[1]);
      UnitsPrepended(u, tail, rest, escapes);
      assert s == UnitText(u) + s[2..];
    } else if s[0] != '\'' {
      UnitsParsed(s[1..], escapes);
      var (tail, rest) := ParseUnits(s[1..], escapes).value;
      UnitsPrepended(One(s[0]), tail, rest, escapes);
      assert s == [s[0]] + s[1..];
    } else {
      NoUnits(escapes);
      assert s == "'" + s[1..];
    }
  }

  lemma NoUnits(escapes: bool)
    ensures UnitsText([]) == "'" && UnitsOk([], escapes)
  {
  }

  function UnitText(u: Unit): string {
    match u
    case One(c) => [c]
    case DoubledQuote => "''"
    case Escaped(c) => ['\\', c]
  }

  lemma UnitsPrepended(u: Unit, tail: seq<Unit>, rest: string, escapes: bool)
    ensures UnitsText([u] + tail) + rest == UnitText(u) + (UnitsText(tail) + rest)
    ensures UnitOk(u, escapes) && UnitsOk(tail, escapes) ==> UnitsOk([u] + tail, escapes)
  {
    assert ([u] + tail)[1..] == tail;
  }

  lemma {:induction false} UnitsOpen(s: string, escapes: bool)
    requires ParseUnits(s, escapes).None?
    ensures LiteralLength(s, escapes) == |s|
    decreases |s|
  {
    if s != "" {
      UnitsOpen(if TwoForOne(s, escapes) then s[2..] else s[1..], escapes);
    }
  }

  function ParseName(s: string): (r: Option<(string, string)>)
    ensures r.Some? ==> |r.value.1| < |s|
    decreases |s|
  {
    if s == "" then None
    else if s[0] == '"' && !Pair(s, '"', '"') then Some(("", s[1..]))
    else
      match ParseName(if s[0] == '"' then s[2..] else s[1..])
      case None => None
      case Some((tail, rest)) => Some(([s[0]] + tail, rest))
  }

  lemma {:induction false} NameParsed(s: string)
    requires ParseName(s).Some?
    ensures var (name, rest) := ParseName(s).value; s == NameText(name) + rest && (rest == "" || rest[0] != '"')
    decreases |s|
  {
    if s[0] == '"' && !Pair(s, '"', '"') {
      assert s == "\"" + s[1..];
    } else {
      var n := if s[0] == '"' then 2 else 1;
      NameParsed(s[n..]);
      var (tail, rest) := ParseName(s[n..]).value;
      assert ([s[0]] + tail)[1..] == tail;
      assert s == s[..n] + s[n..];
    }
  }

  lemma {:induction false} NameOpen(s: string)
    requires ParseName(s).None?
    ensures QuotedLength(s) == |s|
    decreases |s|
  {
    if s != "" {
      NameOpen(if s[0] == '"' then s[2..] else s[1..]);
    }
  }

  // ---------------------------------------------------------------- dollar strings

  lemma TagParts(s: string) returns (name: string)
    requires TagLength(s) > 0
    ensures IsTagName(name) && s[..TagLength(s)] == TagText(name)
  {
    var n := IdentRun(s[1..]);
    name := s[1..n + 1];
    assert s[1..][..n] == name;
  }

  lemma FindIs(t: string, p: string, k: nat)
    requires k < |t| && StartsWith(t[k..], p) && forall j | 0 <= j < k :: !StartsWith(t[j..], p)
    ensures Find(t, p) == k
  {
    hide Find, StartsWith;
  }

  lemma FoundBefore(s: string, p: string)
    requires p != "" && Find(s, p) < |s|
    ensures var k := Find(s, p); k + |p| <= |s| && Find(s[..k] + p, p) == k && s == s[..k] + (p + s[k + |p|..])
  {
    hide Find;
    var k := Find(s, p);
    var t := s[..k] + p;
    assert s[k..][..|p|] == p;
    assert s == s[..k] + s[k..] && s[k..] == p + s[k + |p|..];
    assert t[k..] == p;
    forall j | 0 <= j < k
      ensures !StartsWith(t[j..], p)
    {
      NotEarlier(s, t, p, j);
    }
    FindIs(t, p, k);
  }

  lemma NotEarlier(s: string, t: string, p: string, j: nat)
    requires j <= |t| <= |s| && t == s[..|t|] && !StartsWith(s[j..], p)
    ensures !StartsWith(t[j..], p)
  {
    if |p| <= |t| - j {
      assert t[j..][..|p|] == s[j..][..|p|];
    }
  }

  // ---------------------------------------------------------------- the token at the front of any text

  /** Some token stands at the front of every text. */
  ghost predicate Starts(before: string, t: Token, s: string, rest: string) {
    TokenOk(before, t, rest) && s == TokenText(t) + rest && |rest| < |s|
  }

  lemma LineStarts(before: string, s: string) returns (t: Token, rest: string)
    requires Pair(s, '-', '-')
    ensures Starts(before, t, s, rest)
  {
    var n := Find(s[2..], "\n");
    var line := s[2..][..n];
    t, rest := LineComment(line), s[2..][n..];
    forall j | 0 <= j < n
      ensures line[j] != '\n'
    {
      assert s[2..][j..][..1] == [line[j]];
    }
    assert rest != "" ==> rest[..1] == "\n";
    assert s == "--" + s[2..] && s[2..] == line + rest;
  }

  lemma BlockStarts(before: string, s: string) returns (t: Token, rest: string)
    requires Pair(s, '/', '*')
    ensures Starts(before, t, s, rest)
  {
    hide CommentText, CommentOk, CommentLength;
    assert s == "/*" + s[2..];
    if ParseComment(s[2..]).Some? {
      CommentParsed(s[2..]);
      var (inside, after) := ParseComment(s[2..]).value;
      t, rest := BlockComment(inside), after;
    } else {
      CommentOpen(s[2..], 0);
      t, rest := OpenComment(s[2..]), "";
      assert s + "" == s;
    }
  }

  lemma DollarStarts(before: string, s: string) returns (t: Token, rest: string)
    requires TagLength(s) > 0
    ensures Starts(before, t, s, rest)
  {
    hide Find, TagLength, IsTagName;
    var name := TagParts(s);
    var tag := TagText(name);
    var body := s[|tag|..];
    assert s == tag + body;
    var k := Find(body, tag);
    if k < |body| {
      FoundBefore(body, tag);
      hide TagText;
      t, rest := DollarString(name, body[..k]), body[k + |tag|..];
      DollarTextJoins(tag, body[..k], rest);
    } else {
      t, rest := OpenDollar(name, body), "";
      assert s + "" == s;
    }
  }

  lemma LiteralStarts(before: string, s: string, opener: string) returns (t: Token, rest: string)
    requires OpenerOk(before, opener) && |s| > |opener| && s[..|opener| + 1] == opener + "'"
    ensures Starts(before, t, s, rest)
  {
    hide UnitsText, UnitsOk, LiteralLength, OpensEscape, ParseUnits, OpenerOk;
    var text := s[|opener| + 1..];
    var escapes := opener != "";
    assert s == opener + "'" + text;
    if ParseUnits(text, escapes).Some? {
      UnitsParsed(text, escapes);
      var (units, after) := ParseUnits(text, escapes).value;
      t, rest := Literal(opener, units), after;
      LiteralTextJoins(opener, UnitsText(units), after);
    } else {
      UnitsOpen(text, escapes);
      t, rest := OpenLiteral(opener, text), "";
      LiteralTextJoins(opener, text, "");
    }
  }

  lemma DollarTextJoins(tag: string, body: string, rest: string)
    ensures tag + (body + (tag + rest)) == tag + (body + tag) + rest
  {
  }

  lemma LiteralTextJoins(opener: string, text: string, rest: string)
    ensures opener + "'" + (text + rest) == opener + ("'" + text) + rest
    ensures text + "" == text
  {
  }

  lemma NameStarts(before: string, s: string) returns (t: Token, rest: string)
    requires s != "" && s[0] == '"'
    ensures Starts(before, t, s, rest)
  {
    hide NameText, QuotedLength;
    var text := s[1..];
    assert s == "\"" + text;
    if ParseName(text).Some? {
      NameParsed(text);
      var (name, after) := ParseName(text).value;
      t, rest := QuotedName(name), after;
    } else {
      NameOpen(text);
      t, rest := OpenName(text), "";
      assert s + "" == s;
    }
  }

  lemma TokenStarts(before: string, s: string) returns (t: Token, rest: string)
    requires s != ""
    ensures Starts(before, t, s, rest)
  {
    hide Starts;
    if Pair(s, '-', '-') {
      t, rest := LineStarts(before, s);
    } else if Pair(s, '/', '*') {
      t, rest := BlockStarts(before, s);
    } else if TagLength(s) > 0 {
      t, rest := DollarStarts(before, s);
    } else if OpensEscape(before, s) {
      OpensBoth(before, s);
      t, rest := LiteralStarts(before, s, [s[0]]);
    } else if s[0] == '\'' {
      assert s[..1] == "" + "'";
      t, rest := LiteralStarts(before, s, "");
    } else if s[0] == '"' {
      t, rest := NameStarts(before, s);
    } else {
      t, rest := Plain(s[0]), s[1..];
      assert [s[0]] + rest == s;
      assert Starts(before, t, s, rest) by { PlainStarts(before, s); }
    }
  }

  lemma OpensBoth(before: string, s: string)
    requires OpensEscape(before, s)
    ensures OpenerOk(before, [s[0]]) && s[..2] == [s[0]] + "'"
  {
  }

  lemma PlainStarts(before: string, s: string)
    requires s != "" && !Special(s) && !OpensEscape(before, s)
    ensures Starts(before, Plain(s[0]), s, s[1..])
  {
    assert [s[0]] + s[1..] == s;
  }

  /** Every text is the text of a well-formed token list. */
  lemma {:induction false} EveryTextHasTokens(before: string, s: string) returns (ts: seq<Token>)
    ensures WellFormed(before, ts) && TextOf(ts) == s
    decreases |s|
  {
    hide TokenOk, TokenText;
    if s == "" {
      ts := [];
    } else {
      var t, rest := TokenStarts(before, s);
      var more := EveryTextHasTokens(before + TokenText(t), rest);
      ts := [t] + more;
      assert ts[1..] == more;
    }
  }
}
