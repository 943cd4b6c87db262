/** A reader for JSON texts without white space between tokens, after RFC 8259, sections 2 to 7, and what it makes of
    canonical texts. Numbers are integers without exponents. */
module JsonReader {
  import opened CanonicalJson
  import opened Decimal
  import opened Prefixes
  import opened Scanning
  import opened Wrappers

  // ---------------------------------------------------------------- strings

  function HexValue(c: char): Option<nat> {
    if '0' <= c <= '9' then Some((c - '0') as nat)
    else if 'a' <= c <= 'f' then Some((c - 'a') as nat + 10)
    else if 'A' <= c <= 'F' then Some((c - 'A') as nat + 10)
    else None
  }

  /** Four hexadecimal digits that stand for a character on its own. */
  function ReadUnit(s: string): Option<(char, string)> {
    if |s| < 4 then None
    else
      var a :- HexValue(s[0]);
      var b :- HexValue(s[1]);
      var c :- HexValue(s[2]);
      var d :- HexValue(s[3]);
      var n := ((a * 16 + b) * 16 + c) * 16 + d;
      if n >= 0x1_0000 || 0xD800 <= n < 0xE000 then None else Some((n as char, s[4..]))
  }

  /** What a backslash opens. */
  function ReadEscape(s: string): (r: Option<(char, string)>)
    ensures r.Some? ==> |r.value.1| < |s|
  {
    if s == "" then None
    else
      match s[0]
      case '"' => Some(('"', s[1..]))
      case '\\' => Some(('\\', s[1..]))
      case '/' => Some(('/', s[1..]))
      case 'b' => Some((8 as char, s[1..]))
      case 'f' => Some((12 as char, s[1..]))
      case 'n' => Some(('\n', s[1..]))
      case 'r' => Some(('\r', s[1..]))
      case 't' => Some(('\t', s[1..]))
      case 'u' => ReadUnit(s[1..])
      case _ => None
  }

  function ReadChar(s: string): (r: Option<(char, string)>)
    ensures r.Some? ==> |r.value.1| < |s|
  {
    if s == "" || s[0] < ' ' || s[0] == '"' then None
    else if s[0] == '\\' then ReadEscape(s[1..])
    else Some((s[0], s[1..]))
  }

  /** From after the opening quote of a string to after the closing one. */
  function ReadString(s: string): (r: Option<(string, string)>)
    ensures r.Some? ==> |r.value.1| < |s|
    decreases |s|
  {
    if s != "" && s[0] == '"' then Some(("", s[1..]))
    else
      var (c, rest) :- ReadChar(s);
      var (more, last) :- ReadString(rest);
      Some(([c] + more, last))
  }

  // ---------------------------------------------------------------- values

  function ReadInt(s: string): (r: Option<(int, string)>)
    ensures r.Some? ==> |r.value.1| < |s|
  {
    if s != "" && s[0] == '-' then
      var (n, rest) :- TakeNat(s[1..]);
      var m: int := 0 - n;
      Some((m, rest))
    else
      var (n, rest) :- TakeNat(s);
      Some((n, rest))
  }

  function ReadValue(s: string): (r: Option<(Value, string)>)
    ensures r.Some? ==> |r.value.1| < |s|
    decreases |s|, 1
  {
    if s == "" then None
    else if StartsWith(s, "null") then Some((Null, s[4..]))
    else if StartsWith(s, "true") then Some((Bool(true), s[4..]))
    else if StartsWith(s, "false") then Some((Bool(false), s[5..]))
    else if s[0] == '"' then
      var (text, rest) :- ReadString(s[1..]);
      Some((Str(text), rest))
    else if s[0] == '[' then
      if |s| > 1 && s[1] == ']' then Some((Arr([]), s[2..]))
      else
        var (items, rest) :- ReadItems(s[1..]);
        Some((Arr(items), rest))
    else if s[0] == '{' then
      if |s| > 1 && s[1] == '}' then Some((Obj([]), s[2..]))
      else
        var (entries, rest) :- ReadEntries(s[1..]);
        Some((Obj(entries), rest))
    else
      var (n, rest) :- ReadInt(s);
      Some((Int(n), rest))
  }

  /** The items of an array that has some, to after its closing bracket. */
  function ReadItems(s: string): (r: Option<(seq<Value>, string)>)
    ensures r.Some? ==> |r.value.1| < |s|
    decreases |s|, 2
  {
    var (item, rest) :- ReadValue(s);
    if rest == "" then None
    else if rest[0] == ']' then Some(([item], rest[1..]))
    else if rest[0] == ',' then
      var (more, last) :- ReadItems(rest[1..]);
      Some(([item] + more, last))
    else None
  }

  function ReadEntry(s: string): (r: Option<(Entry, string)>)
    ensures r.Some? ==> |r.value.1| < |s|
    decreases |s|, 2
  {
    if s == "" || s[0] != '"' then None
    else
      var (key, rest) :- ReadString(s[1..]);
      if rest == "" || rest[0] != ':' then None
      else
        var (value, last) :- ReadValue(rest[1..]);
        Some((Entry(key, value), last))
  }

  /** The members of an object that has some, to after its closing brace. */
  function ReadEntries(s: string): (r: Option<(seq<Entry>, string)>)
    ensures r.Some? ==> |r.value.1| < |s|
    decreases |s|, 3
  {
    var (entry, rest) :- ReadEntry(s);
    if rest == "" then None
    else if rest[0] == '}' then Some(([entry], rest[1..]))
    else if rest[0] == ',' then
      var (more, last) :- ReadEntries(rest[1..]);
      Some(([entry] + more, last))
    else None
  }

  /** A whole text. */
  function Parsed(s: string): Option<Value> {
    var (v, rest) :- ReadValue(s);
    if rest == "" then Some(v) else None
  }

  // ---------------------------------------------------------------- reading scalars back

  lemma HexRead(d: nat)
    requires d < 16
    ensures HexValue(HexDigit(d)) == Some(d)
  {
  }

  lemma EscapeCharStarts(c: char)
    ensures EscapeChar(c) != "" && EscapeChar(c)[0] != '"'
  {
  }

  lemma UnitRead(c: char, a: string)
    requires c < ' '
    ensures ReadUnit("00" + [HexDigit(c as int / 16), HexDigit(c as int % 16)] + a) == Some((c, a))
  {
    HexRead(c as int / 16);
    HexRead(c as int % 16);
    var s := "00" + [HexDigit(c as int / 16), HexDigit(c as int % 16)] + a;
    assert s[4..] == a;
    assert HexValue('0') == Some(0);
  }

  lemma CharRead(c: char, a: string)
    ensures ReadChar(EscapeChar(c) + a) == Some((c, a))
  {
    hide ReadUnit, HexDigit;
    var e := EscapeChar(c);
    var s := e + a;
    if |e| == 1 {
      assert s[1..] == a;
    } else if |e| == 2 {
      assert s[1..][1..] == a && s[1..][0] == e[1];
    } else {
      UnitRead(c, a);
      assert s[1..][1..] == "00" + [HexDigit(c as int / 16), HexDigit(c as int % 16)] + a;
    }
  }

  lemma {:induction false} EscapedRead(t: string, a: string)
    ensures ReadString(Escaped(t) + ("\"" + a)) == Some((t, a))
    decreases |t|
  {
    hide ReadChar, EscapeChar;
    var s := Escaped(t) + ("\"" + a);
    if t == "" {
      assert s[0] == '"' && s[1..] == a;
    } else {
      var rest := Escaped(t[1..]) + ("\"" + a);
      assert s == EscapeChar(t[0]) + rest;
      EscapeCharStarts(t[0]);
      CharRead(t[0], rest);
      EscapedRead(t[1..], a);
      assert [t[0]] + t[1..] == t;
    }
  }

  /** What may follow a value: the end, a separator or a closing bracket. */
  predicate Delimits(a: string) {
    a == "" || a[0] == ',' || a[0] == ']' || a[0] == '}'
  }

  lemma IntRead(n: int, a: string)
    requires Delimits(a)
    ensures ReadInt(IntText(n) + a) == Some((n, a))
    ensures IntText(n) != "" && (IntText(n)[0] == '-' || IsDigit(IntText(n)[0]))
  {
    hide TakeNat, NatText;
    if n < 0 {
      assert (IntText(n) + a)[1..] == NatText(-n) + a;
      TakesNat(-n, a);
    } else {
      NatTextDigits(n);
      TakesNat(n, a);
      assert (IntText(n) + a)[0] == NatText(n)[0];
    }
  }

  /** No word opens with another character. */
  lemma NoWord(s: string)
    requires s != "" && s[0] != 'n' && s[0] != 't' && s[0] != 'f'
    ensures !StartsWith(s, "null") && !StartsWith(s, "true") && !StartsWith(s, "false")
  {
    DiffersFrom(s, "null", 0);
    DiffersFrom(s, "true", 0);
    DiffersFrom(s, "false", 0);
  }

  lemma WordRead(v: Value, a: string)
    requires v.Null? || v.Bool?
    ensures ReadValue(Text(v) + a) == Some((v, a))
  {
    var s := Text(v) + a;
    TakesText(Text(v), a);
    if v.Bool? {
      DiffersFrom(s, "null", 0);
      if !v.b {
        DiffersFrom(s, "true", 0);
      }
    }
  }

  lemma NumberRead(n: int, a: string)
    requires Delimits(a)
    ensures ReadValue(Text(Int(n)) + a) == Some((Int(n), a))
  {
    hide IntText, ReadInt;
    var s := Text(Int(n)) + a;
    IntRead(n, a);
    assert s[0] == IntText(n)[0];
    NoWord(s);
  }

  lemma StringRead(t: string, a: string)
    ensures ReadValue(Text(Str(t)) + a) == Some((Str(t), a))
  {
    hide Escaped, ReadString;
    var s := Text(Str(t)) + a;
    assert s[0] == '"' && s[1..] == Escaped(t) + ("\"" + a);
    NoWord(s);
    EscapedRead(t, a);
  }

  // ---------------------------------------------------------------- reading values back

  /** The rest of a joined list: a separator and more, or the closing bracket. */
  function After(parts: seq<string>, close: string): string
    requires parts != []
  {
    if |parts| == 1 then close else "," + (Join(parts[1..]) + close)
  }

  lemma JoinFirst(parts: seq<string>, close: string)
    requires parts != []
    ensures Join(parts) + close == parts[0] + After(parts, close)
  {
  }

  /** The first character of a value closes nothing. */
  lemma TextStarts(v: Value)
    requires Defined(v)
    ensures Text(v) != "" && Text(v)[0] != ']'
  {
    if v.Int? { NatTextDigits(if v.n < 0 then -v.n else v.n); }
  }

  /** Every text of a value is read back as that value, up to what follows it. */
  lemma {:induction false} ReadsBack(v: Value, a: string)
    requires Defined(v) && Delimits(a)
    ensures ReadValue(Text(v) + a) == Some((v, a))
    decreases v
  {
    match v
    case Null => WordRead(v, a);
    case Bool(_) => WordRead(v, a);
    case Int(n) => NumberRead(n, a);
    case Str(t) => StringRead(t, a);
    case Arr(items) =>
      if items != [] {
        ItemsReadBack(items, a);
        ArrayRead(items, a);
      } else {
        EmptyRead(a);
      }
    case Obj(entries) =>
      if entries != [] {
        EntriesReadBack(entries, a);
        ObjectRead(entries, a);
      } else {
        EmptyRead(a);
      }
  }

  lemma EmptyRead(a: string)
    ensures ReadValue(Text(Arr([])) + a) == Some((Arr([]), a)) && ReadValue(Text(Obj([])) + a) == Some((Obj([]), a))
  {
    var s, t := Text(Arr([])) + a, Text(Obj([])) + a;
    assert ItemTexts([]) == [] && EntryTexts([]) == [];
    assert s == "[" + ("]" + a) && t == "{" + ("}" + a);
    assert s[2..] == a && t[2..] == a;
    NoWord(s);
    NoWord(t);
  }

  lemma ArrayRead(items: seq<Value>, a: string)
    requires items != [] && Defined(items[0])
    requires ReadItems(Join(ItemTexts(items)) + ("]" + a)) == Some((items, a))
    ensures ReadValue(Text(Arr(items)) + a) == Some((Arr(items), a))
  {
    hide Join, ItemTexts, ReadItems;
    var s, t := Text(Arr(items)) + a, Join(ItemTexts(items)) + ("]" + a);
    assert s == "[" + t;
    assert s[0] == '[' && s[1..] == t;
    NoWord(s);
    assert t != "" && t[0] != ']' by {
      FirstItem(items, a);
    }
  }

  lemma FirstItem(items: seq<Value>, a: string)
    requires items != [] && Defined(items[0])
    ensures var t := Join(ItemTexts(items)) + ("]" + a); t != "" && t[0] != ']'
  {
    hide Join, Text;
    JoinFirst(ItemTexts(items), "]" + a);
    TextStarts(items[0]);
  }

  lemma ObjectRead(entries: seq<Entry>, a: string)
    requires entries != []
    requires ReadEntries(Join(EntryTexts(entries)) + ("}" + a)) == Some((entries, a))
    ensures ReadValue(Text(Obj(entries)) + a) == Some((Obj(entries), a))
  {
    hide Join, EntryTexts, ReadEntries;
    var s, t := Text(Obj(entries)) + a, Join(EntryTexts(entries)) + ("}" + a);
    assert s == "{" + t;
    assert s[0] == '{' && s[1..] == t;
    NoWord(s);
    assert t != "" && t[0] == '"' by {
      FirstEntry(entries, a);
    }
  }

  lemma FirstEntry(entries: seq<Entry>, a: string)
    requires entries != []
    ensures var t := Join(EntryTexts(entries)) + ("}" + a); t != "" && t[0] == '"'
  {
    hide Join, Text, Escaped;
    JoinFirst(EntryTexts(entries), "}" + a);
    assert EntryTexts(entries)[0][0] == '"';
  }

  lemma {:induction false} ItemsReadBack(items: seq<Value>, a: string)
    requires items != [] && Delimits(a) && forall k | 0 <= k < |items| :: Defined(items[k])
    ensures ReadItems(Join(ItemTexts(items)) + ("]" + a)) == Some((items, a))
    decreases items
  {
    hide ReadValue, Text, Join, Defined;
    var rest := After(ItemTexts(items), "]" + a);
    JoinFirst(ItemTexts(items), "]" + a);
    ReadsBack(items[0], rest);
    if |items| == 1 {
      assert rest[1..] == a && items == [items[0]];
    } else {
      assert ItemTexts(items)[1..] == ItemTexts(items[1..]);
      assert rest[1..] == Join(ItemTexts(items[1..])) + ("]" + a);
      ItemsReadBack(items[1..], a);
      assert items == [items[0]] + items[1..];
    }
  }

  lemma {:induction false} EntryReadBack(e: Entry, a: string)
    requires Defined(e.value) && Delimits(a)
    ensures ReadEntry(StringText(e.key) + (":" + Text(e.value)) + a) == Some((e, a))
    decreases e, 0
  {
    hide ReadValue, Text, ReadString, Escaped, Defined;
    var t := ":" + (Text(e.value) + a);
    var s := StringText(e.key) + (":" + Text(e.value)) + a;
    assert s[0] == '"' && s[1..] == Escaped(e.key) + ("\"" + t);
    EscapedRead(e.key, t);
    assert t[1..] == Text(e.value) + a;
    ReadsBack(e.value, a);
  }

  lemma {:induction false} EntriesReadBack(entries: seq<Entry>, a: string)
    requires entries != [] && Delimits(a) && forall k | 0 <= k < |entries| :: Defined(entries[k].value)
    ensures ReadEntries(Join(EntryTexts(entries)) + ("}" + a)) == Some((entries, a))
    decreases entries, 1
  {
    hide ReadEntry, Text, Join, Defined, StringText;
    var rest := After(EntryTexts(entries), "}" + a);
    JoinFirst(EntryTexts(entries), "}" + a);
    EntryReadBack(entries[0], rest);
    if |entries| == 1 {
      assert rest[1..] == a && entries == [entries[0]];
    } else {
      assert EntryTexts(entries)[1..] == EntryTexts(entries[1..]);
      assert rest[1..] == Join(EntryTexts(entries[1..])) + ("}" + a);
      EntriesReadBack(entries[1..], a);
      assert entries == [entries[0]] + entries[1..];
    }
  }

  /** The canonical text of a value reads back as the value with its keys sorted, at every depth. */
  lemma CanonicalReads(v: Value, before: (string, string) -> bool)
    requires Defined(v)
    ensures Canonical(v, before).Success? && Parsed(Canonical(v, before).value) == Some(Norm(v, before))
  {
    hide CanonicalText, Norm, Text, ReadValue, Defined;
    TextOfNorm(v, before);
    NormDefined(v, before);
    var t := Text(Norm(v, before));
    assert t + "" == t;
    ReadsBack(Norm(v, before), "");
  }

  lemma {:induction false} NormDefined(v: Value, before: (string, string) -> bool)
    requires Defined(v)
    ensures Defined(Norm(v, before))
    decreases v
  {
    match v
    case Arr(items) =>
      forall k | 0 <= k < |items| ensures Defined(Norm(items[k], before)) { NormDefined(items[k], before); }
    case Obj(entries) =>
      var sorted := Sorted(entries, before);
      SortedMembers(entries, before);
      forall k | 0 <= k < |sorted|
        ensures Defined(Norm(v, before).entries[k].value)
      {
        assert sorted[k] in entries;
        NormDefined(sorted[k].value, before);
      }
    case _ =>
  }

  /** So printed values are uniquely readable before any delimiter. */
  lemma TextUnique(v: Value, w: Value, a: string, b: string)
    requires Defined(v) && Defined(w) && Text(v) + a == Text(w) + b && Delimits(a) && Delimits(b)
    ensures v == w && a == b
  {
    ReadsBack(v, a);
    ReadsBack(w, b);
  }

  // ---------------------------------------------------------------- no shorter text reads as the same value

  lemma {:induction false} NatTextShortest(t: string)
    requires t != "" && forall k | 0 <= k < |t| :: IsDigit(t[k])
    ensures |NatText(NatValue(t))| <= |t|
    decreases |t|
  {
    var n := |t| - 1;
    if n > 0 {
      var front := t[..n];
      NatTextShortest(front);
      var v, d := NatValue(front), DigitValue(t[n]);
      assert NatValue(t) == v * 10 + d && (v * 10 + d) / 10 == v;
    } else {
      assert t[..0] == "" && NatValue(t) == DigitValue(t[0]) < 10;
    }
  }

  lemma NatShortest(s: string)
    requires TakeNat(s).Some?
    ensures var (n, rest) := TakeNat(s).value; |NatText(n)| + |rest| <= |s|
  {
    hide NatText, NatValue;
    NatTextShortest(s[..DigitRun(s)]);
  }

  lemma IntShortest(s: string)
    requires ReadInt(s).Some?
    ensures var (n, rest) := ReadInt(s).value; |IntText(n)| + |rest| <= |s|
  {
    hide NatText, TakeNat;
    if s[0] == '-' {
      NatShortest(s[1..]);
      if TakeNat(s[1..]).value.0 == 0 {
        assert IntText(0) == NatText(0);
      }
    } else {
      NatShortest(s);
      var n := TakeNat(s).value.0;
      assert ReadInt(s).value.0 == n && IntText(n) == NatText(n);
    }
  }

  lemma CharShortest(s: string)
    requires ReadChar(s).Some?
    ensures var (c, rest) := ReadChar(s).value; |EscapeChar(c)| + |rest| <= |s|
  {
    hide HexValue;
  }

  lemma {:induction false} StringShortest(s: string)
    requires ReadString(s).Some?
    ensures var (t, rest) := ReadString(s).value; |Escaped(t)| + 1 + |rest| <= |s|
    decreases |s|
  {
    hide ReadChar, EscapeChar;
    if s[0] != '"' {
      CharShortest(s);
      var (c, rest) := ReadChar(s).value;
      StringShortest(rest);
      var t := ReadString(s).value.0;
      assert t[0] == c && t[1..] == ReadString(rest).value.0;
    }
  }

  lemma {:induction false} ValueShortest(s: string)
    requires ReadValue(s).Some?
    ensures var (v, rest) := ReadValue(s).value; Defined(v) && |Text(v)| + |rest| <= |s|
    decreases |s|, 1
  {
    hide Escaped, ReadString, ReadInt, IntText, Join, ReadItems, ReadEntries;
    var v := ReadValue(s).value.0;
    match v
    case Int(n) => IntShortest(s);
    case Str(t) => StringShortest(s[1..]);
    case Arr(items) =>
      if items != [] { ItemsShortest(s[1..]); } else { EmptyShortest(); }
    case Obj(entries) =>
      if entries != [] { EntriesShortest(s[1..]); } else { EmptyShortest(); }
    case _ =>
  }

  lemma EmptyShortest()
    ensures |Text(Arr([]))| == 2 && |Text(Obj([]))| == 2
  {
    assert ItemTexts([]) == [] && EntryTexts([]) == [];
  }

  lemma {:induction false} ItemsShortest(s: string)
    requires ReadItems(s).Some?
    ensures var (items, rest) := ReadItems(s).value;
      (forall k | 0 <= k < |items| :: Defined(items[k])) && |Join(ItemTexts(items))| + 1 + |rest| <= |s|
    decreases |s|, 2
  {
    hide ReadValue, Text, Join, Defined;
    ValueShortest(s);
    var (item, rest) := ReadValue(s).value;
    var items := ReadItems(s).value.0;
    assert items[0] == item;
    if rest[0] == ',' {
      ItemsShortest(rest[1..]);
      assert items[1..] == ReadItems(rest[1..]).value.0;
      JoinedItems(items);
    } else {
      assert items == [item];
      JoinedOne(ItemTexts(items));
    }
  }

  lemma JoinedOne(parts: seq<string>)
    requires |parts| == 1
    ensures Join(parts) == parts[0]
  {
  }

  lemma JoinedItems(items: seq<Value>)
    requires |items| > 1
    ensures |Join(ItemTexts(items))| == |Text(items[0])| + 1 + |Join(ItemTexts(items[1..]))|
  {
    hide Text;
    assert ItemTexts(items)[1..] == ItemTexts(items[1..]);
  }

  lemma {:induction false} EntryShortest(s: string)
    requires ReadEntry(s).Some?
    ensures var (e, rest) := ReadEntry(s).value;
      Defined(e.value) && |StringText(e.key)| + 1 + |Text(e.value)| + |rest| <= |s|
    decreases |s|, 2
  {
    hide ReadValue, ReadString, Text, Escaped, Defined;
    StringShortest(s[1..]);
    var rest := ReadString(s[1..]).value.1;
    ValueShortest(rest[1..]);
  }

  lemma {:induction false} EntriesShortest(s: string)
    requires ReadEntries(s).Some?
    ensures var (entries, rest) := ReadEntries(s).value;
      (forall k | 0 <= k < |entries| :: Defined(entries[k].value)) && |Join(EntryTexts(entries))| + 1 + |rest| <= |s|
    decreases |s|, 3
  {
    hide ReadEntry, Text, Join, Defined, StringText;
    EntryShortest(s);
    var (entry, rest) := ReadEntry(s).value;
    var entries := ReadEntries(s).value.0;
    assert entries[0] == entry;
    if rest[0] == ',' {
      EntriesShortest(rest[1..]);
      assert entries[1..] == ReadEntries(rest[1..]).value.0;
      JoinedEntries(entries);
    } else {
      assert entries == [entry];
      JoinedOne(EntryTexts(entries));
    }
  }

  lemma JoinedEntries(entries: seq<Entry>)
    requires |entries| > 1
    ensures |Join(EntryTexts(entries))|
         == |StringText(entries[0].key)| + 1 + |Text(entries[0].value)| + 1 + |Join(EntryTexts(entries[1..]))|
  {
    hide Text, StringText;
    assert EntryTexts(entries)[1..] == EntryTexts(entries[1..]);
  }

  /** Every text that reads as the value with sorted keys is at least as long as the canonical one. */
  lemma CanonicalIsShortest(v: Value, before: (string, string) -> bool, s: string)
    requires Defined(v) && Parsed(s) == Some(Norm(v, before))
    ensures |Canonical(v, before).value| <= |s|
  {
    hide CanonicalText, Norm, Text, ReadValue, Defined;
    TextOfNorm(v, before);
    ValueShortest(s);
  }
}
