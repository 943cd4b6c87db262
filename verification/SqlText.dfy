/** The normal form of graders/sql.ts on ASCII text, token by token from the front. The lexical rules are
    those of the PostgreSQL documentation, sections 4.1.1, 4.1.2 and 4.1.5. */
module SqlText {
  import opened Prefixes

  predicate IsAscii(s: string) {
    forall k | 0 <= k < |s| :: s[k] < 128 as char
  }

  // ---------------------------------------------------------------- characters

  predicate IsBlank(c: char) {
    c == ' ' || '\t' <= c <= '\r'
  }

  predicate IsLetter(c: char) {
    'a' <= c <= 'z' || 'A' <= c <= 'Z'
  }

  predicate IsIdent(c: char) {
    IsLetter(c) || '0' <= c <= '9' || c == '_'
  }

  function LowerChar(c: char): char {
    if 'A' <= c <= 'Z' then c + 32 as char else c
  }

  function Lower(s: string): (t: string)
    ensures |t| == |s| && forall k | 0 <= k < |s| :: t[k] == LowerChar(s[k])
  {
    seq(|s|, k requires 0 <= k < |s| => LowerChar(s[k]))
  }

  function BlankRun(s: string): (n: nat)
    ensures n <= |s| && forall k | 0 <= k < n :: IsBlank(s[k])
    ensures n < |s| ==> !IsBlank(s[n])
  {
    if s == "" || !IsBlank(s[0]) then 0 else 1 + BlankRun(s[1..])
  }

  /** Every run of blanks as one space. */
  function Collapse(s: string): string
    decreases |s|
  {
    if s == "" then ""
    else if IsBlank(s[0]) then " " + Collapse(s[BlankRun(s)..])
    else [s[0]] + Collapse(s[1..])
  }

  // ---------------------------------------------------------------- tokens

  /** A dollar-quoted string, from its tag to after the next occurrence of the tag. */
  function DollarLength(s: string): (n: nat)
    requires TagLength(s) > 0
    ensures TagLength(s) <= n <= |s|
  {
    var tag := s[..TagLength(s)];
    var body := s[|tag|..];
    var k := Find(body, tag);
    assert k < |body| ==> k + |tag| <= |body|;
    if k < |body| then |tag| + k + |tag| else |s|
  }

  /** The first occurrence of a non-empty pattern, |s| if there is none. */
  function Find(s: string, p: string): (k: nat)
    ensures k <= |s| && (k < |s| ==> StartsWith(s[k..], p))
    ensures forall j | 0 <= j < k :: !StartsWith(s[j..], p)
  {
    if s == "" then 0
    else if StartsWith(s, p) then 0
    else
      var k := 1 + Find(s[1..], p);
      assert forall j | 0 < j < k :: s[j..] == s[1..][j - 1..];
      assert k < |s| ==> s[k..] == s[1..][k - 1..];
      k
  }

  function IdentRun(s: string): (n: nat)
    ensures n <= |s| && forall k | 0 <= k < n :: IsIdent(s[k])
    ensures n < |s| ==> !IsIdent(s[n])
  {
    if s == "" || !IsIdent(s[0]) then 0 else 1 + IdentRun(s[1..])
  }

  /** The length of the dollar tag at the front, 0 if there is none. */
  function TagLength(s: string): (n: nat)
    ensures n <= |s| && n != 1
  {
    if s == "" || s[0] != '$' then 0
    else
      var n := IdentRun(s[1..]);
      if n + 1 < |s| && s[n + 1] == '$' && (n == 0 || !('0' <= s[1] <= '9')) then n + 2 else 0
  }

  /** Two given characters at the front. */
  predicate Pair(s: string, a: char, b: char) {
    |s| > 1 && s[0] == a && s[1] == b
  }

  /** From inside a block comment to its end. */
  function CommentLength(s: string, depth: nat): (n: nat)
    ensures n <= |s|
    decreases |s|
  {
    if s == "" || depth == 0 then 0
    else if Pair(s, '/', '*') then 2 + CommentLength(s[2..], depth + 1)
    else if Pair(s, '*', '/') then 2 + CommentLength(s[2..], depth - 1)
    else 1 + CommentLength(s[1..], depth)
  }

  /** A character of a literal written as two: an escape, or a doubled quote. */
  predicate TwoForOne(s: string, escapes: bool) {
    |s| > 1 && ((escapes && s[0] == '\\') || Pair(s, '\'', '\''))
  }

  /** From after the opening quote of a literal to after the closing one. */
  function LiteralLength(s: string, escapes: bool): (n: nat)
    ensures n <= |s|
    decreases |s|
  {
    if s == "" then 0
    else if TwoForOne(s, escapes) then 2 + LiteralLength(s[2..], escapes)
    else if s[0] == '\'' then 1
    else 1 + LiteralLength(s[1..], escapes)
  }

  /** The value read on the way. */
  function LiteralValue(s: string, escapes: bool): string
    decreases |s|
  {
    if s == "" then ""
    else if TwoForOne(s, escapes) then [s[1]] + LiteralValue(s[2..], escapes)
    else if s[0] == '\'' then ""
    else [s[0]] + LiteralValue(s[1..], escapes)
  }

  function QuotedLength(s: string): (n: nat)
    ensures n <= |s|
    decreases |s|
  {
    if s == "" then 0
    else if Pair(s, '"', '"') then 2 + QuotedLength(s[2..])
    else if s[0] == '"' then 1
    else 1 + QuotedLength(s[1..])
  }

  /** A letter E that opens an escape string: next comes a quote, and it does not end a word. */
  predicate OpensEscape(before: string, s: string) {
    |s| > 1 && (s[0] == 'e' || s[0] == 'E') && s[1] == '\''
    && (before == "" || !(IsIdent(before[|before| - 1]) || before[|before| - 1] == '$'))
  }

  function LiteralPiece(value: string, preserved: set<string>): string {
    if Lower(value) in preserved then " __literal_" + Lower(value) + "__ " else " __literal__ "
  }

  /** How far the token at the front reaches, and what it becomes. */
  function Lexeme(before: string, s: string, preserved: set<string>): (r: (nat, string))
    requires s != ""
    ensures 0 < r.0 <= |s|
  {
    if Pair(s, '-', '-') then
      var n := 2 + Find(s[2..], "\n");
      (n, if n < |s| then "\n" else "")
    else if Pair(s, '/', '*') then (2 + CommentLength(s[2..], 1), " ")
    else if TagLength(s) > 0 then (DollarLength(s), " ")
    else if OpensEscape(before, s) then
      (2 + LiteralLength(s[2..], true), LiteralPiece(LiteralValue(s[2..], true), preserved))
    else if s[0] == '\'' then
      (1 + LiteralLength(s[1..], false), LiteralPiece(LiteralValue(s[1..], false), preserved))
    else if s[0] == '"' then (1 + QuotedLength(s[1..]), " __quoted__ ")
    else (1, [s[0]])
  }

  /** The text of a source after `before`, token by token. */
  function Pieces(before: string, s: string, preserved: set<string>): string
    decreases |s|
  {
    if s == "" then ""
    else
      var (n, piece) := Lexeme(before, s, preserved);
      piece + Pieces(before + s[..n], s[n..], preserved)
  }

  function Normal(source: string, preserved: set<string>): string {
    Collapse(Lower(Pieces("", source, preserved)))
  }
}
