/** What the SQL normal form promises: it is a fixed point, nothing in it opens a comment, a string or a
    quoted name, and hidden text does not reach it. */
module SqlProperties {
  import opened SqlText

  /** A comment opener, a quote or a dollar tag at the front. */
  predicate Special(s: string) {
    s != "" && (Pair(s, '-', '-') || Pair(s, '/', '*') || s[0] == '\'' || s[0] == '"' || TagLength(s) > 0)
  }

  /** Nothing special anywhere. */
  predicate Clean(s: string) {
    s == "" || (!Special(s) && Clean(s[1..]))
  }

  /** Preserved literals that cannot be taken for SQL syntax once they are written out. */
  predicate Harmless(preserved: set<string>) {
    forall w | w in preserved && Lower(w) == w :: Clean(" __literal_" + w + "__ ")
  }

  // ---------------------------------------------------------------- clean texts

  lemma {:induction false} CleanEverywhere(s: string, k: nat)
    requires Clean(s) && k < |s|
    ensures s[k] != '\'' && s[k] != '"' && TagLength(s[k..]) == 0
    ensures k + 1 < |s| ==> !(s[k] == '-' && s[k + 1] == '-') && !(s[k] == '/' && s[k + 1] == '*')
    decreases k
  {
    if k > 0 {
      CleanEverywhere(s[1..], k - 1);
      assert s[1..][k - 1..] == s[k..];
    } else {
      assert s[0..] == s;
    }
  }

  lemma {:induction false} CleanSuffix(s: string, k: nat)
    requires Clean(s) && k <= |s|
    ensures Clean(s[k..])
    decreases k
  {
    if k > 0 {
      CleanSuffix(s[1..], k - 1);
      assert s[1..][k - 1..] == s[k..];
    } else {
      assert s[0..] == s;
    }
  }

  lemma {:induction false} WordsAreClean(s: string)
    requires forall k | 0 <= k < |s| :: IsBlank(s[k]) || IsIdent(s[k])
    ensures Clean(s)
    decreases |s|
  {
    if s != "" {
      WordsAreClean(s[1..]);
    }
  }

  /** Lower-case words are harmless. */
  lemma WordsAreHarmless(preserved: set<string>)
    requires forall w | w in preserved :: forall k | 0 <= k < |w| :: IsIdent(w[k])
    ensures Harmless(preserved)
  {
    forall w | w in preserved && Lower(w) == w
      ensures Clean(" __literal_" + w + "__ ")
    {
      WordsAreClean(" __literal_" + w + "__ ");
    }
  }

  /** The run of identifier characters is settled by the text up to the first other character. */
  lemma IdentRunSettled(s: string, t: string)
    requires IdentRun(s) < |s| && IdentRun(s) < |t| && s[..IdentRun(s) + 1] == t[..IdentRun(s) + 1]
    ensures IdentRun(t) == IdentRun(s)
  {
    var n := IdentRun(s);
    assert forall k | 0 <= k <= n :: s[k] == s[..n + 1][k] == t[k];
  }

  lemma TagSettled(s: string, t: string)
    requires TagLength(s) > 0 && TagLength(s) <= |t| && s[..TagLength(s)] == t[..TagLength(s)]
    ensures TagLength(t) == TagLength(s)
  {
    var n := TagLength(s);
    assert forall k | 0 <= k < n :: s[k] == s[..n][k] == t[k];
    assert s[1..][..n - 1] == s[1..n] && t[1..][..n - 1] == t[1..n];
    assert s[1..n] == s[..n][1..] && t[1..n] == t[..n][1..];
    IdentRunSettled(s[1..], t[1..]);
  }

  lemma TagHasNoBlank(s: string)
    requires TagLength(s) > 0
    ensures forall k | 0 <= k < TagLength(s) :: !IsBlank(s[k])
  {
    var n := IdentRun(s[1..]);
    assert forall k | 0 < k <= n :: s[k] == s[1..][k - 1];
  }

  lemma {:induction false} CleanJoin(a: string, b: string)
    requires Clean(a) && Clean(b) && a != "" && IsBlank(a[|a| - 1])
    ensures Clean(a + b)
    decreases |a|
  {
    var s := a + b;
    if |a| == 1 {
      assert s[1..] == b && s[0] == a[0];
    } else {
      assert s[1..] == a[1..] + b;
      CleanJoin(a[1..], b);
      if TagLength(s) > 0 {
        TagHasNoBlank(s);
        assert s[|a| - 1] == a[|a| - 1];
        assert TagLength(s) <= |a| - 1;
        assert s[..TagLength(s)] == a[..TagLength(s)];
        TagSettled(s, a);
      }
    }
  }

  // ---------------------------------------------------------------- texts copied between blanks

  /** Up to its first blank, t is copied from the front of s. */
  predicate Copies(s: string, t: string) {
    forall k | 0 <= k <= |t| && (forall j | 0 <= j < k :: !IsBlank(t[j])) :: k <= |s| && s[..k] == t[..k]
  }

  lemma CopiedTo(s: string, t: string, k: nat)
    requires Copies(s, t) && k <= |t| && forall j | 0 <= j < k :: !IsBlank(t[j])
    ensures k <= |s| && s[..k] == t[..k] && forall j | 0 <= j < k :: s[j] == t[j]
  {
    assert t[..k] == t[..k];
    assert forall j | 0 <= j < k :: s[..k][j] == s[j];
  }

  lemma CopiesGrow(c: char, s: string, t: string)
    requires Copies(s, t)
    ensures Copies([c] + s, [c] + t)
  {
    var u := [c] + t;
    forall k | 0 <= k <= |u| && (forall j | 0 <= j < k :: !IsBlank(u[j]))
      ensures k <= |s| + 1 && ([c] + s)[..k] == u[..k]
    {
      if k > 0 {
        assert forall j | 0 <= j < k - 1 :: t[j] == u[j + 1];
        CopiedTo(s, t, k - 1);
        assert ([c] + s)[..k] == [c] + s[..k - 1] && u[..k] == [c] + t[..k - 1];
      }
    }
  }

  lemma SpecialCopied(c: char, s: string, t: string)
    requires Copies(s, t) && Special([c] + t)
    ensures Special([c] + s)
  {
    hide TagLength, Copies;
    var u, v := [c] + t, [c] + s;
    CopiesGrow(c, s, t);
    if TagLength(u) > 0 {
      TagHasNoBlank(u);
      CopiedTo(v, u, TagLength(u));
      TagSettled(u, v);
      assert TagLength(v) > 0;
    } else if u[0] == '\'' || u[0] == '"' {
      assert v[0] == u[0];
    } else {
      assert |u| > 1 && !IsBlank(u[0]) && !IsBlank(u[1]);
      CopiedTo(v, u, 2);
      assert |v| > 1 && v[0] == u[0] && v[1] == u[1];
      assert Pair(v, '-', '-') || Pair(v, '/', '*');
    }
  }

  lemma NothingCopied(s: string, t: string)
    requires t == "" || IsBlank(t[0])
    ensures Copies(s, t)
  {
    forall k | 0 <= k <= |t| && (forall j | 0 <= j < k :: !IsBlank(t[j]))
      ensures k <= |s| && s[..k] == t[..k]
    {
      assert s[..0] == t[..0];
    }
  }

  lemma {:induction false} CollapseCopies(s: string)
    ensures Copies(s, Collapse(s))
    decreases |s|
  {
    if s == "" || IsBlank(s[0]) {
      NothingCopied(s, Collapse(s));
    } else {
      CollapseCopies(s[1..]);
      CopiesGrow(s[0], s[1..], Collapse(s[1..]));
      assert [s[0]] + s[1..] == s;
    }
  }

  lemma {:induction false} CollapseClean(s: string)
    requires Clean(s)
    ensures Clean(Collapse(s))
    decreases |s|
  {
    if s != "" {
      if IsBlank(s[0]) {
        var n := BlankRun(s);
        CleanSuffix(s, n);
        CollapseClean(s[n..]);
        assert Collapse(s)[1..] == Collapse(s[n..]);
      } else {
        CollapseClean(s[1..]);
        CollapseCopies(s[1..]);
        assert [s[0]] + s[1..] == s;
        if Special(Collapse(s)) {
          SpecialCopied(s[0], s[1..], Collapse(s[1..]));
        }
        assert Collapse(s)[1..] == Collapse(s[1..]);
      }
    }
  }

  lemma LowerSpecial(s: string)
    ensures Special(Lower(s)) ==> Special(s)
  {
    if TagLength(Lower(s)) > 0 {
      var t := Lower(s);
      assert Lower(s[1..]) == t[1..];
      LowerIdentRun(s[1..]);
    }
  }

  lemma {:induction false} LowerIdentRun(s: string)
    ensures IdentRun(Lower(s)) == IdentRun(s)
    decreases |s|
  {
    if s != "" {
      LowerIdentRun(s[1..]);
      assert Lower(s)[1..] == Lower(s[1..]);
    }
  }

  lemma {:induction false} LowerClean(s: string)
    requires Clean(s)
    ensures Clean(Lower(s))
    decreases |s|
  {
    if s != "" {
      LowerClean(s[1..]);
      LowerSpecial(s);
      assert Lower(s)[1..] == Lower(s[1..]);
    }
  }

  // ---------------------------------------------------------------- the pieces are clean

  /** Clean text that begins and ends with a blank. */
  predicate Delimited(p: string) {
    Clean(p) && p != "" && IsBlank(p[0]) && IsBlank(p[|p| - 1])
  }

  lemma LiteralPieceDelimited(value: string, preserved: set<string>)
    requires Harmless(preserved)
    ensures Delimited(LiteralPiece(value, preserved))
  {
    WordsAreClean(" __literal__ ");
    LowerTwice(value);
  }

  lemma WordsAreDelimited(p: string)
    requires p != "" && IsBlank(p[0]) && IsBlank(p[|p| - 1])
    requires forall k | 0 <= k < |p| :: IsBlank(p[k]) || IsIdent(p[k])
    ensures Delimited(p)
  {
    WordsAreClean(p);
  }

  lemma FixedPiecesDelimited()
    ensures Delimited(" __quoted__ ") && Delimited(" ") && Delimited("\n")
  {
    hide Clean, Delimited;
    WordsAreDelimited(" __quoted__ ");
    WordsAreDelimited(" ");
    WordsAreDelimited("\n");
  }

  /** A token becomes itself when it is plain, and blank-delimited clean text when it is not; only a line
      comment that ends the source becomes nothing. */
  lemma LexemeClean(before: string, s: string, preserved: set<string>)
    requires s != "" && Harmless(preserved)
    ensures var (n, p) := Lexeme(before, s, preserved);
            if p == "" then n == |s|
            else if n == 1 && p == [s[0]] then !Special(s)
            else Delimited(p)
  {
    hide Clean;
    FixedPiecesDelimited();
    if OpensEscape(before, s) {
      LiteralPieceDelimited(LiteralValue(s[2..], true), preserved);
    } else if s[0] == '\'' {
      LiteralPieceDelimited(LiteralValue(s[1..], false), preserved);
    }
  }

  lemma {:induction false} PiecesCopy(before: string, s: string, preserved: set<string>)
    requires Harmless(preserved)
    ensures Copies(s, Pieces(before, s, preserved))
    decreases |s|
  {
    if s != "" {
      var (n, p) := Lexeme(before, s, preserved);
      LexemeClean(before, s, preserved);
      var rest := Pieces(before + s[..n], s[n..], preserved);
      if n == 1 && p == [s[0]] {
        PiecesCopy(before + s[..n], s[n..], preserved);
        CopiesGrow(s[0], s[1..], rest);
        assert [s[0]] + s[1..] == s;
      } else if p != "" {
        assert (p + rest)[0] == p[0];
      }
    }
  }

  lemma {:induction false} PiecesClean(before: string, s: string, preserved: set<string>)
    requires Harmless(preserved)
    ensures Clean(Pieces(before, s, preserved))
    decreases |s|
  {
    if s != "" {
      var (n, p) := Lexeme(before, s, preserved);
      LexemeClean(before, s, preserved);
      var rest := Pieces(before + s[..n], s[n..], preserved);
      PiecesClean(before + s[..n], s[n..], preserved);
      if n == 1 && p == [s[0]] {
        PiecesCopy(before + s[..n], s[n..], preserved);
        assert [s[0]] + s[1..] == s;
        if Special([s[0]] + rest) {
          SpecialCopied(s[0], s[1..], rest);
        }
        assert (p + rest)[1..] == rest;
      } else if p != "" {
        CleanJoin(p, rest);
      }
    }
  }

  /** Clean text is read as it stands. */
  lemma {:induction false} CleanIsRead(before: string, s: string, preserved: set<string>)
    requires Clean(s)
    ensures Pieces(before, s, preserved) == s
    decreases |s|
  {
    if s != "" {
      assert !OpensEscape(before, s) by {
        if |s| > 1 { CleanEverywhere(s, 1); }
      }
      assert Lexeme(before, s, preserved) == (1, [s[0]]);
      CleanIsRead(before + s[..1], s[1..], preserved);
      assert [s[0]] + s[1..] == s;
    }
  }

  // ---------------------------------------------------------------- lower case and single spaces

  lemma LowerJoin(a: string, b: string)
    ensures Lower(a + b) == Lower(a) + Lower(b)
  {
  }

  lemma {:induction false} CollapseLower(s: string)
    ensures Lower(Collapse(s)) == Collapse(Lower(s))
    decreases |s|
  {
    if s != "" {
      var t := Lower(s);
      if IsBlank(s[0]) {
        var n := BlankRun(s);
        BlankRunSettled(t, n);
        CollapseLower(s[n..]);
        assert Lower(s[n..]) == t[n..];
        LowerJoin(" ", Collapse(s[n..]));
        assert Lower(" ") == " ";
      } else {
        CollapseLower(s[1..]);
        assert Lower(s[1..]) == t[1..];
        LowerJoin([s[0]], Collapse(s[1..]));
        assert Lower([s[0]]) == [t[0]];
      }
    }
  }

  lemma {:induction false} BlankRunSettled(s: string, n: nat)
    requires n <= |s| && (forall k | 0 <= k < n :: IsBlank(s[k])) && (n < |s| ==> !IsBlank(s[n]))
    ensures BlankRun(s) == n
    decreases n
  {
    if n > 0 {
      BlankRunSettled(s[1..], n - 1);
    }
  }

  lemma {:induction false} CollapseTwice(s: string)
    ensures Collapse(Collapse(s)) == Collapse(s)
    decreases |s|
  {
    if s != "" {
      var t := Collapse(s);
      if IsBlank(s[0]) {
        var n := BlankRun(s);
        CollapseTwice(s[n..]);
        BlankRunSettled(t, 1);
        assert t[1..] == Collapse(s[n..]);
      } else {
        CollapseTwice(s[1..]);
        assert t[1..] == Collapse(s[1..]);
      }
    }
  }

  lemma LowerTwice(s: string)
    ensures Lower(Lower(s)) == Lower(s)
  {
  }

  // ---------------------------------------------------------------- main results

  /** The normal form has no capital letter, no blank but the space, and never two spaces in a row. */
  lemma NormalShape(source: string, preserved: set<string>)
    ensures var t := Normal(source, preserved);
      && (forall k | 0 <= k < |t| :: !('A' <= t[k] <= 'Z') && !(9 <= t[k] as int <= 13))
      && (forall k | 0 < k < |t| :: t[k - 1] != ' ' || t[k] != ' ')
  {
    hide Pieces;
    var s := Lower(Pieces("", source, preserved));
    assert forall k | 0 <= k < |s| :: !('A' <= s[k] <= 'Z');
    CollapseShape(s);
  }

  lemma {:induction false} CollapseShape(s: string)
    ensures var t := Collapse(s);
      && (s == "" <==> t == "") && (s != "" ==> (IsBlank(s[0]) <==> t[0] == ' '))
      && (forall k | 0 <= k < |t| :: (t[k] in s || t[k] == ' ') && (IsBlank(t[k]) ==> t[k] == ' '))
      && (forall k | 0 < k < |t| :: t[k - 1] != ' ' || t[k] != ' ')
    decreases |s|
  {
    if s != "" {
      var n := if IsBlank(s[0]) then BlankRun(s) else 1;
      CollapseShape(s[n..]);
      var t, u := Collapse(s), Collapse(s[n..]);
      assert t == [t[0]] + u;
      assert forall k | 0 < k < |t| :: t[k] == u[k - 1];
    }
  }


  /** The normal form opens no comment, string, quoted name or dollar quote anywhere. */
  lemma NormalIsClean(source: string, preserved: set<string>)
    requires Harmless(preserved)
    ensures var t := Normal(source, preserved);
            && Clean(t)
            && forall k | 0 <= k < |t| ::
                 && t[k] != '\'' && t[k] != '"' && TagLength(t[k..]) == 0
                 && (k + 1 < |t| ==> !(t[k] == '-' && t[k + 1] == '-') && !(t[k] == '/' && t[k + 1] == '*'))
  {
    PiecesClean("", source, preserved);
    LowerClean(Pieces("", source, preserved));
    CollapseClean(Lower(Pieces("", source, preserved)));
    var t := Normal(source, preserved);
    forall k | 0 <= k < |t|
      ensures t[k] != '\'' && t[k] != '"' && TagLength(t[k..]) == 0
      ensures k + 1 < |t| ==> !(t[k] == '-' && t[k + 1] == '-') && !(t[k] == '/' && t[k + 1] == '*')
    {
      CleanEverywhere(t, k);
    }
  }

  /** Normalizing a normal form changes nothing. */
  lemma NormalIsFixed(source: string, preserved: set<string>)
    requires Harmless(preserved)
    ensures Normal(Normal(source, preserved), preserved) == Normal(source, preserved)
  {
    var u := Lower(Pieces("", source, preserved));
    var t := Collapse(u);
    NormalIsClean(source, preserved);
    CleanIsRead("", t, preserved);
    CollapseLower(u);
    LowerTwice(Pieces("", source, preserved));
    CollapseTwice(u);
  }

  // ---------------------------------------------------------------- harmless literals are needed

  lemma {:induction false} CollapseKeepsSpecial(s: string)
    requires Clean(Collapse(s))
    ensures Clean(s)
    decreases |s|
  {
    if s != "" {
      var t := Collapse(s);
      if IsBlank(s[0]) {
        var n := BlankRun(s);
        assert t[1..] == Collapse(s[n..]);
        CollapseKeepsSpecial(s[n..]);
        BlanksBeforeClean(s, n);
      } else {
        assert t[1..] == Collapse(s[1..]);
        CollapseKeepsSpecial(s[1..]);
        if Special(s) {
          CollapsePrefix(s, if TagLength(s) > 0 then TagLength(s) else if s[0] == '\'' || s[0] == '"' then 1 else 2);
          if TagLength(s) > 0 { TagSettled(s, t); }
        }
      }
    }
  }

  lemma {:induction false} BlanksBeforeClean(s: string, n: nat)
    requires n <= |s| && (forall k | 0 <= k < n :: IsBlank(s[k])) && Clean(s[n..])
    ensures Clean(s)
    decreases n
  {
    if n > 0 {
      var t := s[1..];
      assert t[n - 1..] == s[n..];
      assert forall k | 0 <= k < n - 1 :: t[k] == s[k + 1];
      BlanksBeforeClean(t, n - 1);
      assert IsBlank(s[0]) && !Special(s);
    } else {
      assert s[0..] == s;
    }
  }

  /** A front without blanks survives collapsing. */
  lemma {:induction false} CollapsePrefix(s: string, k: nat)
    requires k <= |s|
    requires TagLength(s) == k || forall j | 0 <= j < k :: !IsBlank(s[j])
    ensures k <= |Collapse(s)| && Collapse(s)[..k] == s[..k] && forall j | 0 <= j < k :: Collapse(s)[j] == s[j]
    decreases k
  {
    if TagLength(s) == k && k > 0 { TagHasNoBlank(s); }
    if k > 0 {
      assert forall j | 0 <= j < k - 1 :: s[1..][j] == s[j + 1];
      CollapsePrefix(s[1..], k - 1);
      assert s[..k] == [s[0]] + s[1..][..k - 1];
    }
  }

  function Doubled(w: string): string {
    if w == "" then "" else (if w[0] == '\'' then "''" else [w[0]]) + Doubled(w[1..])
  }

  lemma {:induction false} DoubledIsRead(w: string)
    ensures LiteralValue(Doubled(w) + "'", false) == w && LiteralLength(Doubled(w) + "'", false) == |Doubled(w)| + 1
    decreases |w|
  {
    if w != "" {
      DoubledIsRead(w[1..]);
      var s := Doubled(w) + "'";
      assert w == [w[0]] + w[1..];
      if w[0] == '\'' {
        assert s[2..] == Doubled(w[1..]) + "'";
      } else {
        assert s[1..] == Doubled(w[1..]) + "'";
      }
    }
  }

  lemma LexemeOfLiteral(before: string, s: string, preserved: set<string>)
    requires s != "" && s[0] == '\''
    ensures Lexeme(before, s, preserved) == (1 + LiteralLength(s[1..], false), LiteralPiece(LiteralValue(s[1..], false), preserved))
  {
  }

  lemma LastPiece(before: string, s: string, preserved: set<string>, p: string)
    requires s != "" && Lexeme(before, s, preserved) == (|s|, p)
    ensures Pieces(before, s, preserved) == p
  {
    hide Lexeme;
    assert s[|s|..] == "";
    assert p + "" == p;
  }

  /** The source that is one literal with this value. */
  function LiteralOf(w: string): string {
    "'" + (Doubled(w) + "'")
  }

  lemma LiteralAlone(w: string, preserved: set<string>)
    ensures Pieces("", LiteralOf(w), preserved) == LiteralPiece(w, preserved)
  {
    hide Lexeme, LiteralLength, LiteralValue;
    var s := LiteralOf(w);
    DoubledIsRead(w);
    assert s[0] == '\'' && s[1..] == Doubled(w) + "'";
    LexemeOfLiteral("", s, preserved);
    LastPiece("", s, preserved, LiteralPiece(w, preserved));
  }

  /** Every normal form is clean exactly when the preserved literals are harmless. */
  lemma CleanIffHarmless(preserved: set<string>)
    ensures (forall source :: Clean(Normal(source, preserved))) <==> Harmless(preserved)
  {
    if Harmless(preserved) {
      forall source ensures Clean(Normal(source, preserved)) { NormalIsClean(source, preserved); }
    }
    if forall source :: Clean(Normal(source, preserved)) {
      forall w | w in preserved && Lower(w) == w
        ensures Clean(" __literal_" + w + "__ ")
      {
        LiteralAlone(w, preserved);
        assert Clean(Normal(LiteralOf(w), preserved));
        LiteralPieceLower(w, preserved);
        CollapseKeepsSpecial(LiteralPiece(w, preserved));
      }
    }
  }

  lemma LiteralPieceLower(w: string, preserved: set<string>)
    requires Lower(w) == w
    ensures Lower(LiteralPiece(w, preserved)) == LiteralPiece(w, preserved)
  {
    LowerJoin(" __literal_" + w, "__ ");
    LowerJoin(" __literal_", w);
  }
}
