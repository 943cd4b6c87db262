/** Pieces of text that the hand-written parsers share: trimming, lines, fixed text and numbers. */
module Scanning {
  import opened Decimal
  import opened Prefixes
  import opened Wrappers

  // ---------------------------------------------------------------- characters and trimming

  /** White space: what trim removes. */
  predicate IsSpace(c: char) {
    var n := c as int;
    || 9 <= n <= 13 || n == 0x20 || n == 0xA0 || n == 0x1680 || 0x2000 <= n <= 0x200A
    || n == 0x2028 || n == 0x2029 || n == 0x202F || n == 0x205F || n == 0x3000 || n == 0xFEFF
  }

  function SpaceRun(s: string): (n: nat)
    ensures n <= |s| && (forall k | 0 <= k < n :: IsSpace(s[k])) && (n < |s| ==> !IsSpace(s[n]))
  {
    if s == "" || !IsSpace(s[0]) then 0 else 1 + SpaceRun(s[1..])
  }

  function TrimStart(s: string): string {
    s[SpaceRun(s)..]
  }

  function TrimEnd(s: string): (t: string)
    ensures t <= s && (t != "" ==> !IsSpace(t[|t| - 1]))
    ensures forall k | |t| <= k < |s| :: IsSpace(s[k])
  {
    if s != "" && IsSpace(s[|s| - 1]) then TrimEnd(s[..|s| - 1]) else s
  }

  function Trim(s: string): string {
    TrimEnd(TrimStart(s))
  }

  // ---------------------------------------------------------------- lines

  function JoinLines(lines: seq<string>): string {
    if lines == [] then ""
    else if |lines| == 1 then lines[0]
    else lines[0] + ("\n" + JoinLines(lines[1..]))
  }

  function LineRun(s: string): (n: nat)
    ensures n <= |s| && (forall k | 0 <= k < n :: s[k] != '\n') && (n < |s| ==> s[n] == '\n')
  {
    if s == "" || s[0] == '\n' then 0 else 1 + LineRun(s[1..])
  }

  function SplitLines(s: string): (lines: seq<string>)
    ensures lines != []
    decreases |s|
  {
    var n := LineRun(s);
    if n == |s| then [s] else [s[..n]] + SplitLines(s[n + 1..])
  }

  // ---------------------------------------------------------------- fixed text and numbers

  function TakeText(s: string, p: string): Option<string> {
    if StartsWith(s, p) then Some(s[|p|..]) else None
  }

  /** One or more digits. */
  function TakeNat(s: string): Option<(nat, string)> {
    var n := DigitRun(s);
    if n == 0 then None
    else
      assert forall k | 0 <= k < n :: s[..n][k] == s[k];
      Some((NatValue(s[..n]), s[n..]))
  }

  ghost predicate Spaces(s: string) {
    forall k | 0 <= k < |s| :: IsSpace(s[k])
  }

  ghost predicate Clean(s: string) {
    '\n' !in s
  }

  // ---------------------------------------------------------------- about trimming

  lemma {:induction false} SpaceRunIs(s: string, n: nat)
    requires n <= |s| && Spaces(s[..n]) && (n < |s| ==> !IsSpace(s[n]))
    ensures SpaceRun(s) == n
  {
  }

  lemma {:induction false} TrimEndIs(s: string, post: string)
    requires Spaces(post) && (s != "" ==> !IsSpace(s[|s| - 1]))
    ensures TrimEnd(s + post) == s
    decreases |post|
  {
    if post == "" {
      assert s + post == s;
    } else {
      assert (s + post)[..|s + post| - 1] == s + post[..|post| - 1];
      TrimEndIs(s, post[..|post| - 1]);
    }
  }

  lemma {:induction false} TrimIs(pre: string, core: string, post: string)
    requires Spaces(pre) && Spaces(post)
    requires core != "" ==> !IsSpace(core[0]) && !IsSpace(core[|core| - 1])
    ensures Trim(pre + (core + post)) == core
  {
    var s := pre + (core + post);
    if core == "" {
      assert s[..|s|] == s && Spaces(s);
      SpaceRunIs(s, |s|);
      assert TrimStart(s) == "" == TrimEnd("");
    } else {
      assert s[..|pre|] == pre;
      SpaceRunIs(s, |pre|);
      assert TrimStart(s) == core + post;
      TrimEndIs(core, post);
    }
  }

  /** Every text is spaces around its trimmed middle. */
  lemma {:induction false} TrimParts(s: string) returns (pre: string, post: string)
    ensures s == pre + (Trim(s) + post) && Spaces(pre) && Spaces(post)
    ensures Trim(s) != "" ==> !IsSpace(Trim(s)[0]) && !IsSpace(Trim(s)[|Trim(s)| - 1])
  {
    var t := TrimStart(s);
    pre, post := s[..SpaceRun(s)], t[|TrimEnd(t)|..];
    assert t == TrimEnd(t) + post;
  }

  lemma {:induction false} TrimTwice(s: string)
    ensures Trim(Trim(s)) == Trim(s)
  {
    var pre, post := TrimParts(s);
    var t := Trim(s);
    assert "" + (t + "") == t;
    TrimIs("", t, "");
  }

  lemma TrimKeepsClean(s: string)
    requires Clean(s)
    ensures Clean(Trim(s))
  {
    var pre, post := TrimParts(s);
  }

  // ---------------------------------------------------------------- about lines

  lemma {:induction false} LineRunIs(a: string, b: string)
    requires Clean(a) && (b == "" || b[0] == '\n')
    ensures LineRun(a + b) == |a|
    decreases |a|
  {
    if a == "" {
      assert a + b == b;
    } else {
      assert (a + b)[1..] == a[1..] + b;
      LineRunIs(a[1..], b);
    }
  }

  lemma {:induction false} JoinedLinesSplit(lines: seq<string>)
    requires lines != [] && forall k | 0 <= k < |lines| :: Clean(lines[k])
    ensures SplitLines(JoinLines(lines)) == lines
    decreases |lines|
  {
    if |lines| == 1 {
      assert lines[0] + "" == lines[0];
      LineRunIs(lines[0], "");
    } else {
      var rest := JoinLines(lines[1..]);
      LineRunIs(lines[0], "\n" + rest);
      var s := lines[0] + ("\n" + rest);
      assert s[..|lines[0]|] == lines[0] && s[|lines[0]| + 1..] == rest;
      JoinedLinesSplit(lines[1..]);
    }
  }

  lemma {:induction false} SplitIsClean(s: string)
    ensures forall k | 0 <= k < |SplitLines(s)| :: Clean(SplitLines(s)[k])
    decreases |s|
  {
    var n := LineRun(s);
    if n < |s| {
      SplitIsClean(s[n + 1..]);
    }
  }

  // ---------------------------------------------------------------- about fixed text and numbers

  lemma TakesNat(n: nat, rest: string)
    requires rest == "" || !IsDigit(rest[0])
    ensures TakeNat(NatText(n) + rest) == Some((n, rest))
  {
    NatTextDigits(n);
    DigitsRun(NatText(n), rest);
    var s := NatText(n) + rest;
    assert s[..|NatText(n)|] == NatText(n) && s[|NatText(n)|..] == rest;
  }

  lemma TakesText(p: string, rest: string)
    ensures TakeText(p + rest, p) == Some(rest)
  {
    assert (p + rest)[..|p|] == p && (p + rest)[|p|..] == rest;
  }

  lemma DiffersFrom(s: string, p: string, k: nat)
    requires k < |s| && k < |p| && s[k] != p[k]
    ensures !StartsWith(s, p)
  {
  }

  lemma TakenText(s: string, p: string)
    requires TakeText(s, p).Some?
    ensures s == p + TakeText(s, p).value
  {
  }

  lemma TakenNat(s: string) returns (digits: string)
    requires TakeNat(s).Some?
    ensures s == digits + TakeNat(s).value.1 && digits != "" && forall k | 0 <= k < |digits| :: IsDigit(digits[k])
  {
    digits := s[..DigitRun(s)];
  }
}
