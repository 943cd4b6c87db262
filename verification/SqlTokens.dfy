/** SQL text as a list of lexical tokens, printed by a grammar of its own, and what the normalizer makes of
    every such text: hidden text leaves no trace. */
module SqlTokens {
  import opened Prefixes
  import opened SqlProperties
  import opened SqlText

  /** The inside of a block comment; comments nest. */
  datatype Comment = End | Text(c: char, rest: Comment) | Nested(inner: Comment, rest: Comment)

  /** One character of a literal as written. */
  datatype Unit = One(c: char) | DoubledQuote | Escaped(c: char)

  /** The last four stand at the end of a text that ends inside a token. */
  datatype Token =
    | LineComment(line: string)
    | BlockComment(inside: Comment)
    | DollarString(name: string, body: string)
    | Literal(opener: string, units: seq<Unit>)
    | QuotedName(name: string)
    | Plain(c: char)
    | OpenComment(text: string)
    | OpenDollar(name: string, text: string)
    | OpenLiteral(opener: string, text: string)
    | OpenName(text: string)

  // ---------------------------------------------------------------- the grammar

  function CommentText(c: Comment): string {
    match c
    case End => "*/"
    case Text(ch, rest) => [ch] + CommentText(rest)
    case Nested(inner, rest) => "/*" + (CommentText(inner) + CommentText(rest))
  }

  /** No stray opener or closer among the plain characters. */
  predicate CommentOk(c: Comment) {
    match c
    case End => true
    case Text(ch, rest) => CommentOk(rest) && !Pair([ch] + CommentText(rest), '/', '*') && !Pair([ch] + CommentText(rest), '*', '/')
    case Nested(inner, rest) => CommentOk(inner) && CommentOk(rest)
  }

  function UnitsText(units: seq<Unit>): string {
    if units == [] then "'"
    else
      (match units[0]
       case One(c) => [c]
       case DoubledQuote => "''"
       case Escaped(c) => ['\\', c])
      + UnitsText(units[1..])
  }

  function UnitsValue(units: seq<Unit>): string {
    if units == [] then ""
    else (if units[0].DoubledQuote? then ['\''] else [units[0].c]) + UnitsValue(units[1..])
  }

  predicate UnitOk(u: Unit, escapes: bool) {
    match u
    case One(c) => c != '\'' && (escapes ==> c != '\\')
    case DoubledQuote => true
    case Escaped(_) => escapes
  }

  predicate UnitsOk(units: seq<Unit>, escapes: bool) {
    forall k | 0 <= k < |units| :: UnitOk(units[k], escapes)
  }

  function NameText(name: string): string {
    if name == "" then "\"" else (if name[0] == '"' then "\"\"" else [name[0]]) + NameText(name[1..])
  }

  function TagText(name: string): string {
    "$" + name + "$"
  }

  predicate IsTagName(name: string) {
    (forall k | 0 <= k < |name| :: IsIdent(name[k])) && (name != "" ==> !('0' <= name[0] <= '9'))
  }

  function TokenText(t: Token): string {
    match t
    case LineComment(body) => "--" + body
    case BlockComment(body) => "/*" + CommentText(body)
    case DollarString(name, body) => TagText(name) + (body + TagText(name))
    case Literal(opener, units) => opener + ("'" + UnitsText(units))
    case QuotedName(name) => "\"" + NameText(name)
    case Plain(c) => [c]
    case OpenComment(text) => "/*" + text
    case OpenDollar(name, text) => TagText(name) + text
    case OpenLiteral(opener, text) => opener + ("'" + text)
    case OpenName(text) => "\"" + text
  }

  predicate OpenerOk(before: string, opener: string) {
    opener == "" || ((opener == "e" || opener == "E") && OpensEscape(before, opener + "'"))
  }

  /** A token in its place: what stands before it, and what follows. */
  predicate TokenOk(before: string, t: Token, rest: string) {
    match t
    case LineComment(body) => '\n' !in body && (rest == "" || rest[0] == '\n')
    case BlockComment(body) => CommentOk(body)
    case DollarString(name, body) => IsTagName(name) && Find(body + TagText(name), TagText(name)) == |body|
    case Literal(opener, units) =>
      && UnitsOk(units, opener != "") && (rest == "" || rest[0] != '\'')
      && OpenerOk(before, opener)
    case QuotedName(name) => rest == "" || rest[0] != '"'
    case Plain(c) => !Special([c] + rest) && !OpensEscape(before, [c] + rest)
    case OpenComment(text) => rest == "" && CommentLength(text, 1) == |text|
    case OpenDollar(name, text) => rest == "" && IsTagName(name) && Find(text, TagText(name)) == |text|
    case OpenLiteral(opener, text) =>
      rest == "" && OpenerOk(before, opener) && LiteralLength(text, opener != "") == |text|
    case OpenName(text) => rest == "" && QuotedLength(text) == |text|
  }

  function TextOf(ts: seq<Token>): string {
    if ts == [] then "" else TokenText(ts[0]) + TextOf(ts[1..])
  }

  predicate WellFormed(before: string, ts: seq<Token>)
    decreases |ts|
  {
    ts == [] || (TokenOk(before, ts[0], TextOf(ts[1..])) && WellFormed(before + TokenText(ts[0]), ts[1..]))
  }

  // ---------------------------------------------------------------- what a token becomes

  function Rendered(t: Token, rest: string, preserved: set<string>): string {
    match t
    case LineComment(_) => if rest == "" then "" else "\n"
    case BlockComment(_) => " "
    case DollarString(_, _) => " "
    case Literal(_, units) => LiteralPiece(UnitsValue(units), preserved)
    case QuotedName(_) => " __quoted__ "
    case Plain(c) => [c]
    case OpenComment(_) => " "
    case OpenDollar(_, _) => " "
    case OpenLiteral(opener, text) => LiteralPiece(LiteralValue(text, opener != ""), preserved)
    case OpenName(_) => " __quoted__ "
  }

  function RenderedAll(ts: seq<Token>, preserved: set<string>): string {
    if ts == [] then "" else Rendered(ts[0], TextOf(ts[1..]), preserved) + RenderedAll(ts[1..], preserved)
  }

  // ---------------------------------------------------------------- every token is read back

  lemma CommentStep(s: string, t: string, depth: nat)
    requires depth > 0
    ensures |s| > 1 && Pair(s, '/', '*') && s[2..] == t ==> CommentLength(s, depth) == 2 + CommentLength(t, depth + 1)
    ensures |s| > 1 && Pair(s, '*', '/') && s[2..] == t ==> CommentLength(s, depth) == 2 + CommentLength(t, depth - 1)
    ensures s != "" && !Pair(s, '/', '*') && !Pair(s, '*', '/') && s[1..] == t ==> CommentLength(s, depth) == 1 + CommentLength(t, depth)
  {
  }

  lemma {:induction false} CommentReads(c: Comment, rest: string, depth: nat)
    requires CommentOk(c)
    ensures CommentLength(CommentText(c) + rest, depth + 1) == |CommentText(c)| + CommentLength(rest, depth)
    decreases c
  {
    hide CommentLength;
    var s := CommentText(c) + rest;
    match c
    case End =>
      assert s[2..] == rest;
      CommentStep(s, rest, depth + 1);
    case Text(ch, tail) =>
      var t := CommentText(tail);
      CommentReads(tail, rest, depth);
      assert s[1..] == t + rest && |t| >= 2 && s[1] == ([ch] + t)[1];
      CommentStep(s, t + rest, depth + 1);
    case Nested(inner, tail) =>
      var t := CommentText(tail) + rest;
      assert s[2..] == CommentText(inner) + t;
      CommentStep(s, CommentText(inner) + t, depth + 1);
      CommentReads(inner, t, depth + 1);
      CommentReads(tail, rest, depth);
  }

  lemma LiteralStep(s: string, t: string, escapes: bool)
    ensures TwoForOne(s, escapes) && s[2..] == t ==>
      LiteralLength(s, escapes) == 2 + LiteralLength(t, escapes)
      && LiteralValue(s, escapes) == [s[1]] + LiteralValue(t, escapes)
    ensures s != "" && !TwoForOne(s, escapes) && s[0] != '\'' && s[1..] == t ==>
      LiteralLength(s, escapes) == 1 + LiteralLength(t, escapes)
      && LiteralValue(s, escapes) == [s[0]] + LiteralValue(t, escapes)
    ensures s != "" && !TwoForOne(s, escapes) && s[0] == '\'' ==>
      LiteralLength(s, escapes) == 1 && LiteralValue(s, escapes) == ""
  {
  }

  lemma {:induction false} UnitsRead(units: seq<Unit>, escapes: bool, rest: string)
    requires UnitsOk(units, escapes) && (rest == "" || rest[0] != '\'')
    ensures LiteralLength(UnitsText(units) + rest, escapes) == |UnitsText(units)|
    ensures LiteralValue(UnitsText(units) + rest, escapes) == UnitsValue(units)
    decreases |units|
  {
    hide LiteralLength, LiteralValue;
    var s := UnitsText(units) + rest;
    if units == [] {
      assert s[0] == '\'' && (|s| > 1 ==> s[1] == rest[0]);
      LiteralStep(s, "", escapes);
    } else {
      var tail := UnitsText(units[1..]) + rest;
      UnitsRead(units[1..], escapes, rest);
      assert UnitOk(units[0], escapes);
      if units[0].One? {
        assert s[0] == units[0].c && s[1..] == tail;
      } else {
        assert s[2..] == tail;
      }
      LiteralStep(s, tail, escapes);
    }
  }

  lemma {:induction false} NameReads(name: string, rest: string)
    requires rest == "" || rest[0] != '"'
    ensures QuotedLength(NameText(name) + rest) == |NameText(name)|
    decreases |name|
  {
    var s := NameText(name) + rest;
    if name == "" {
      assert s[0] == '"' && (|s| > 1 ==> s[1] == rest[0]);
    } else {
      NameReads(name[1..], rest);
      var tail := NameText(name[1..]) + rest;
      if name[0] == '"' {
        assert s[2..] == tail;
      } else {
        assert s[0] == name[0] && s[1..] == tail;
      }
    }
  }

  lemma {:induction false} NameRun(name: string, rest: string)
    requires (forall k | 0 <= k < |name| :: IsIdent(name[k])) && (rest == "" || !IsIdent(rest[0]))
    ensures IdentRun(name + rest) == |name|
    decreases |name|
  {
    if name == "" {
      assert name + rest == rest;
    } else {
      assert (name + rest)[1..] == name[1..] + rest;
      NameRun(name[1..], rest);
    }
  }

  lemma TagReads(name: string, rest: string)
    requires IsTagName(name)
    ensures TagLength(TagText(name) + rest) == |TagText(name)|
  {
    var s := TagText(name) + rest;
    assert s[1..] == name + ("$" + rest);
    NameRun(name, "$" + rest);
  }

  /** The first occurrence of a pattern does not move when text is added after it. */
  lemma FindStays(s: string, p: string, rest: string)
    requires Find(s, p) < |s|
    ensures Find(s + rest, p) == Find(s, p)
  {
    var k := Find(s, p);
    forall j | 0 <= j <= k
      ensures StartsWith((s + rest)[j..], p) == StartsWith(s[j..], p)
    {
      assert (s + rest)[j..][..|p|] == s[j..][..|p|];
    }
  }

  lemma DollarLengthIs(s: string, tag: string)
    requires tag != "" && TagLength(s) == |tag| && s[..|tag|] == tag
    ensures var k := Find(s[|tag|..], tag);
      DollarLength(s) == if k < |s| - |tag| then |tag| + k + |tag| else |s|
  {
    hide Find, TagLength;
  }

  lemma DollarReads(name: string, body: string, rest: string)
    requires IsTagName(name) && Find(body + TagText(name), TagText(name)) == |body|
    ensures var s := TagText(name) + (body + TagText(name)) + rest;
            TagLength(s) > 0 && DollarLength(s) == 2 * |TagText(name)| + |body|
  {
    hide Find, TagLength, IsTagName, DollarLength;
    var tag := TagText(name);
    var s := tag + (body + tag) + rest;
    var t := body + tag + rest;
    assert s == tag + t;
    TagReads(name, t);
    assert s[..|tag|] == tag && s[|tag|..] == t;
    FindStays(body + tag, tag, rest);
    DollarLengthIs(s, tag);
  }

  lemma NewlineFound(body: string, rest: string)
    requires '\n' !in body && (rest == "" || rest[0] == '\n')
    ensures Find(body + rest, "\n") == |body|
  {
    var s := body + rest;
    forall j | 0 <= j < |body|
      ensures !StartsWith(s[j..], "\n")
    {
      assert s[j..][0] == body[j];
    }
    if rest != "" {
      assert s[|body|..][..1] == "\n";
    }
  }

  lemma PlainLiteralReads(before: string, s: string, units: seq<Unit>, rest: string, preserved: set<string>)
    requires UnitsOk(units, false) && (rest == "" || rest[0] != '\'')
    requires |s| > 0 && s[0] == '\'' && s[1..] == UnitsText(units) + rest
    ensures Lexeme(before, s, preserved) == (1 + |UnitsText(units)|, LiteralPiece(UnitsValue(units), preserved))
  {
    hide Lexeme, LiteralLength, LiteralValue, LiteralPiece;
    UnitsRead(units, false, rest);
    LexemeOfLiteral(before, s, preserved);
  }

  lemma EscapeLiteralReads(before: string, s: string, units: seq<Unit>, rest: string, preserved: set<string>)
    requires UnitsOk(units, true) && (rest == "" || rest[0] != '\'')
    requires OpensEscape(before, s) && s[2..] == UnitsText(units) + rest
    ensures Lexeme(before, s, preserved) == (2 + |UnitsText(units)|, LiteralPiece(UnitsValue(units), preserved))
  {
    hide Lexeme, LiteralLength, LiteralValue, LiteralPiece;
    UnitsRead(units, true, rest);
    LexemeOfEscape(before, s, preserved);
  }

  lemma LiteralReads(before: string, t: Token, rest: string, preserved: set<string>)
    requires t.Literal? && TokenOk(before, t, rest)
    ensures Lexeme(before, TokenText(t) + rest, preserved) == (|TokenText(t)|, Rendered(t, rest, preserved))
  {
    hide Lexeme, LiteralPiece, UnitsText, UnitsValue, UnitsOk, OpensEscape;
    var s := TokenText(t) + rest;
    LiteralParts(t, rest);
    if t.opener == "" {
      PlainLiteralReads(before, s, t.units, rest, preserved);
    } else {
      StillOpens(before, t.opener + "'", s);
      EscapeLiteralReads(before, s, t.units, rest, preserved);
    }
  }

  lemma LiteralParts(t: Token, rest: string)
    requires t.Literal? && (t.opener == "" || t.opener == "e" || t.opener == "E")
    ensures var s := TokenText(t) + rest; var n := |t.opener|;
      |s| > n && s[n] == '\'' && s[n + 1..] == UnitsText(t.units) + rest && s[..n + 1] == t.opener + "'"
      && |TokenText(t)| == n + 1 + |UnitsText(t.units)|
  {
    hide UnitsText;
  }

  lemma StillOpens(before: string, opener: string, s: string)
    requires OpensEscape(before, opener) && |opener| == 2 && |s| >= 2 && s[..2] == opener
    ensures OpensEscape(before, s)
  {
    assert s[0] == opener[0] && s[1] == opener[1];
  }

  lemma LexemeOfEscape(before: string, s: string, preserved: set<string>)
    requires OpensEscape(before, s)
    ensures Lexeme(before, s, preserved) == (2 + LiteralLength(s[2..], true), LiteralPiece(LiteralValue(s[2..], true), preserved))
  {
  }

  lemma DollarTokenReads(before: string, t: Token, rest: string, preserved: set<string>)
    requires t.DollarString? && TokenOk(before, t, rest)
    ensures Lexeme(before, TokenText(t) + rest, preserved) == (|TokenText(t)|, Rendered(t, rest, preserved))
  {
    hide Lexeme, DollarLength, TagLength;
    DollarReads(t.name, t.body, rest);
    LexemeOfDollar(before, TokenText(t) + rest, preserved);
  }

  lemma LexemeOfDollar(before: string, s: string, preserved: set<string>)
    requires TagLength(s) > 0
    ensures Lexeme(before, s, preserved) == (DollarLength(s), " ")
  {
  }

  lemma LexemeOfLine(before: string, s: string, preserved: set<string>)
    requires Pair(s, '-', '-')
    ensures var n := 2 + Find(s[2..], "\n"); Lexeme(before, s, preserved) == (n, if n < |s| then "\n" else "")
  {
    hide Find;
  }

  lemma LexemeOfBlock(before: string, s: string, preserved: set<string>)
    requires Pair(s, '/', '*')
    ensures Lexeme(before, s, preserved) == (2 + CommentLength(s[2..], 1), " ")
  {
    hide CommentLength;
  }

  lemma NoCommentLeft(rest: string)
    ensures CommentLength(rest, 0) == 0
  {
  }

  lemma CommentTokenReads(before: string, t: Token, rest: string, preserved: set<string>)
    requires (t.LineComment? || t.BlockComment?) && TokenOk(before, t, rest)
    ensures Lexeme(before, TokenText(t) + rest, preserved) == (|TokenText(t)|, Rendered(t, rest, preserved))
  {
    hide Lexeme, CommentOk, CommentText, CommentLength, Find;
    var s := TokenText(t) + rest;
    if t.LineComment? {
      assert s[2..] == t.line + rest;
      NewlineFound(t.line, rest);
      LexemeOfLine(before, s, preserved);
    } else {
      assert s[2..] == CommentText(t.inside) + rest;
      CommentReads(t.inside, rest, 0);
      assert CommentLength(rest, 0) == 0 by { NoCommentLeft(rest); }
      LexemeOfBlock(before, s, preserved);
    }
  }

  lemma OpenTokenReads(before: string, t: Token, rest: string, preserved: set<string>)
    requires (t.OpenComment? || t.OpenDollar? || t.OpenLiteral? || t.OpenName?) && TokenOk(before, t, rest)
    ensures Lexeme(before, TokenText(t) + rest, preserved) == (|TokenText(t)|, Rendered(t, rest, preserved))
  {
    hide Lexeme, CommentLength, Find, LiteralLength, LiteralValue, LiteralPiece, QuotedLength, TagLength;
    var s := TokenText(t);
    assert s + rest == s;
    match t
    case OpenComment(text) =>
      assert s[2..] == text;
      LexemeOfBlock(before, s, preserved);
    case OpenDollar(name, text) =>
      TagReads(name, text);
      assert s[..|TagText(name)|] == TagText(name) && s[|TagText(name)|..] == text;
      LexemeOfDollar(before, s, preserved);
    case OpenLiteral(opener, text) =>
      assert s[|opener| + 1..] == text;
      if opener == "" {
        LexemeOfLiteral(before, s, preserved);
      } else {
        assert s[..2] == opener + "'";
        StillOpens(before, opener + "'", s);
        LexemeOfEscape(before, s, preserved);
      }
    case OpenName(text) =>
      assert s[1..] == text;
      LexemeOfName(before, s, preserved);
  }

  lemma LexemeOfName(before: string, s: string, preserved: set<string>)
    requires s != "" && s[0] == '"'
    ensures Lexeme(before, s, preserved) == (1 + QuotedLength(s[1..]), " __quoted__ ")
  {
    hide QuotedLength;
  }

  lemma NameTokenReads(before: string, t: Token, rest: string, preserved: set<string>)
    requires t.QuotedName? && TokenOk(before, t, rest)
    ensures Lexeme(before, TokenText(t) + rest, preserved) == (|TokenText(t)|, Rendered(t, rest, preserved))
  {
    assert TokenText(t) == "\"" + NameText(t.name) && Rendered(t, rest, preserved) == " __quoted__ ";
    assert rest == "" || rest[0] != '"';
    hide Lexeme, NameText, QuotedLength, TokenText, TokenOk, Rendered;
    var s := TokenText(t) + rest;
    NameReads(t.name, rest);
    assert s[0] == '"' && s[1..] == NameText(t.name) + rest;
    LexemeOfName(before, s, preserved);
  }

  lemma PlainTokenReads(before: string, t: Token, rest: string, preserved: set<string>)
    requires t.Plain? && TokenOk(before, t, rest)
    ensures Lexeme(before, TokenText(t) + rest, preserved) == (|TokenText(t)|, Rendered(t, rest, preserved))
  {
    hide TagLength, Find, DollarLength, CommentLength, LiteralLength, LiteralValue, QuotedLength, LiteralPiece;
    var s := TokenText(t) + rest;
    assert s == [t.c] + rest;
  }

  /** A token in its place is read as that token. */
  lemma TokenReads(before: string, t: Token, rest: string, preserved: set<string>)
    requires TokenOk(before, t, rest)
    ensures Lexeme(before, TokenText(t) + rest, preserved) == (|TokenText(t)|, Rendered(t, rest, preserved))
  {
    hide Lexeme, TokenOk, TokenText, Rendered;
    match t
    case LineComment(_) => CommentTokenReads(before, t, rest, preserved);
    case BlockComment(_) => CommentTokenReads(before, t, rest, preserved);
    case DollarString(_, _) => DollarTokenReads(before, t, rest, preserved);
    case Literal(_, _) => LiteralReads(before, t, rest, preserved);
    case QuotedName(_) => NameTokenReads(before, t, rest, preserved);
    case Plain(_) => PlainTokenReads(before, t, rest, preserved);
    case _ => OpenTokenReads(before, t, rest, preserved);
  }

  /** The normalizer reads a well-formed text back token by token. */
  lemma {:induction false} TextReads(before: string, ts: seq<Token>, preserved: set<string>)
    requires WellFormed(before, ts)
    ensures Pieces(before, TextOf(ts), preserved) == RenderedAll(ts, preserved)
    decreases |ts|
  {
    hide Lexeme;
    if ts != [] {
      var s := TextOf(ts);
      var n := |TokenText(ts[0])|;
      TokenReads(before, ts[0], TextOf(ts[1..]), preserved);
      assert s[..n] == TokenText(ts[0]) && s[n..] == TextOf(ts[1..]);
      TextReads(before + TokenText(ts[0]), ts[1..], preserved);
    }
  }

  // ---------------------------------------------------------------- hidden text leaves no trace

  /** Equal but for the case of letters and the kind of blanks, or hidden the same way, closed or not: two line comments;
      two block comments or dollar strings, which all become one space; two quoted names; or two literals that are not
      preserved. */
  predicate SameOutside(t: Token, u: Token, preserved: set<string>) {
    || (t.Plain? && u.Plain? && AlikeChar(t.c, u.c))
    || (t.LineComment? && u.LineComment?)
    || (IsBlock(t) && IsBlock(u))
    || (IsName(t) && IsName(u))
    || (IsLiteral(t) && IsLiteral(u)
        && (Lower(ValueOf(t)) == Lower(ValueOf(u)) || (IsHidden(t, preserved) && IsHidden(u, preserved))))
  }

  /** The same letter in either case, or two blanks. */
  predicate AlikeChar(c: char, d: char) {
    c == d || (IsBlank(c) && IsBlank(d)) || ('A' <= c <= 'Z' && d == c + 32 as char) || ('A' <= d <= 'Z' && c == d + 32 as char)
  }

  predicate IsLiteral(t: Token) {
    t.Literal? || t.OpenLiteral?
  }

  function ValueOf(t: Token): string
    requires IsLiteral(t)
  {
    if t.Literal? then UnitsValue(t.units) else LiteralValue(t.text, t.opener != "")
  }

  predicate IsBlock(t: Token) {
    t.BlockComment? || t.OpenComment? || t.DollarString? || t.OpenDollar?
  }

  predicate IsName(t: Token) {
    t.QuotedName? || t.OpenName?
  }

  /** A literal that is not preserved. */
  predicate IsHidden(t: Token, preserved: set<string>) {
    IsLiteral(t) && Lower(ValueOf(t)) !in preserved
  }

  lemma TextEmpty(ts: seq<Token>)
    ensures TextOf(ts) == "" <==> ts == []
  {
    if ts != [] {
      assert |TokenText(ts[0])| > 0;
    }
  }

  lemma SameRendered(t: Token, u: Token, after: string, other: string, preserved: set<string>)
    requires SameOutside(t, u, preserved) && (after == "" <==> other == "")
    ensures Alike(Rendered(t, after, preserved), Rendered(u, other, preserved))
  {
    hide UnitsValue, LiteralValue, Lower;
    if IsLiteral(t) {
      LiteralRendered(t, after, preserved);
      LiteralRendered(u, other, preserved);
    }
  }

  lemma LiteralRendered(t: Token, after: string, preserved: set<string>)
    requires IsLiteral(t)
    ensures Rendered(t, after, preserved) == LiteralPiece(ValueOf(t), preserved)
  {
    hide UnitsValue, LiteralValue, LiteralPiece;
  }

  ghost predicate Alike(a: string, b: string) {
    |a| == |b| && forall k | 0 <= k < |a| :: AlikeChar(a[k], b[k])
  }

  lemma AlikeJoin(a: string, b: string, x: string, y: string)
    requires Alike(a, b) && Alike(x, y)
    ensures Alike(a + x, b + y)
  {
  }

  lemma AlikeRuns(a: string, b: string)
    requires Alike(a, b)
    ensures Alike(Lower(a), Lower(b)) && BlankRun(a) == BlankRun(b)
  {
    hide AlikeChar;
    var n := BlankRun(a);
    forall k | 0 <= k < |a|
      ensures IsBlank(a[k]) <==> IsBlank(b[k])
      ensures AlikeChar(LowerChar(a[k]), LowerChar(b[k]))
    {
      AlikeBlanks(a[k], b[k]);
    }
    BlankRunSettled(b, n);
  }

  lemma AlikeBlanks(c: char, d: char)
    requires AlikeChar(c, d)
    ensures IsBlank(c) <==> IsBlank(d)
    ensures LowerChar(c) == LowerChar(d) || (IsBlank(c) && IsBlank(d) && LowerChar(c) == c && LowerChar(d) == d)
    ensures AlikeChar(LowerChar(c), LowerChar(d))
  {
  }

  /** Letter case and the kind of blanks do not reach the normal form. */
  lemma {:induction false} AlikeCollapse(a: string, b: string)
    requires Alike(a, b)
    ensures Collapse(Lower(a)) == Collapse(Lower(b))
    decreases |a|
  {
    hide AlikeChar, IsBlank, LowerChar;
    if a != "" {
      var x, y := Lower(a), Lower(b);
      AlikeBlanks(a[0], b[0]);
      AlikeRuns(a, b);
      AlikeRuns(x, y);
      AlikeBlanks(x[0], y[0]);
      var n := if IsBlank(x[0]) then BlankRun(x) else 1;
      AlikeCollapse(a[n..], b[n..]);
      assert Lower(a[n..]) == x[n..] && Lower(b[n..]) == y[n..];
    }
  }

  lemma {:induction false} SameRendering(ts: seq<Token>, us: seq<Token>, preserved: set<string>)
    requires |ts| == |us| && forall k | 0 <= k < |ts| :: SameOutside(ts[k], us[k], preserved)
    ensures Alike(RenderedAll(ts, preserved), RenderedAll(us, preserved))
    decreases |ts|
  {
    hide SameOutside, Rendered, AlikeChar;
    if ts != [] {
      SameRendering(ts[1..], us[1..], preserved);
      SameRendered(ts[0], us[0], TextOf(ts[1..]), TextOf(us[1..]), preserved) by {
        TextEmpty(ts[1..]);
        TextEmpty(us[1..]);
      }
      AlikeJoin(Rendered(ts[0], TextOf(ts[1..]), preserved), Rendered(us[0], TextOf(us[1..]), preserved),
                RenderedAll(ts[1..], preserved), RenderedAll(us[1..], preserved));
    }
  }

  /** Two texts that differ only inside comments, dollar strings, quoted names and unpreserved literals, in the case of
      letters, also in preserved literals, and in the kind of blanks have one normal form. */
  lemma HiddenTextIsIgnored(ts: seq<Token>, us: seq<Token>, preserved: set<string>)
    requires WellFormed("", ts) && WellFormed("", us)
    requires |ts| == |us| && forall k | 0 <= k < |ts| :: SameOutside(ts[k], us[k], preserved)
    ensures Normal(TextOf(ts), preserved) == Normal(TextOf(us), preserved)
  {
    TextReads("", ts, preserved);
    TextReads("", us, preserved);
    SameRendering(ts, us, preserved);
    AlikeCollapse(RenderedAll(ts, preserved), RenderedAll(us, preserved));
  }

  /** An E before a quote opens an escape string unless it ends a word. */
  lemma EscapeOpensIff(before: string, s: string, preserved: set<string>)
    requires |s| > 1 && (s[0] == 'e' || s[0] == 'E') && s[1] == '\''
    ensures var inWord := before != "" && (IsIdent(before[|before| - 1]) || before[|before| - 1] == '$');
      Lexeme(before, s, preserved) ==
        if inWord then (1, [s[0]])
        else (2 + LiteralLength(s[2..], true), LiteralPiece(LiteralValue(s[2..], true), preserved))
  {
    hide LiteralLength, LiteralValue, LiteralPiece;
  }
}
