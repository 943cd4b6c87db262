/** Canonical JSON of src/harness.ts: objects with their keys sorted, everything else as JSON.stringify
    writes it; strings follow section 7 of RFC 8259. */
module CanonicalJson {
  import opened Decimal
  import opened Wrappers

  /** A value in memory: an object lists its entries in insertion order. */
  datatype Value =
    | Undefined
    | Null
    | Bool(b: bool)
    | Int(n: int)
    | Str(s: string)
    | Arr(items: seq<Value>)
    | Obj(entries: seq<Entry>)

  datatype Entry = Entry(key: string, value: Value)

  datatype Error = UndefinedValue

  // ---------------------------------------------------------------- scalars

  function IntText(n: int): string {
    if n < 0 then "-" + NatText(-n) else NatText(n)
  }

  function HexDigit(d: nat): char
    requires d < 16
  {
    if d < 10 then '0' + d as char else 'a' + (d - 10) as char
  }

  function EscapeChar(c: char): string {
    if c == '"' then "\\\""
    else if c == '\\' then "\\\\"
    else if c == 8 as char then "\\b"
    else if c == '\t' then "\\t"
    else if c == '\n' then "\\n"
    else if c == 12 as char then "\\f"
    else if c == '\r' then "\\r"
    else if c < ' ' then "\\u00" + [HexDigit(c as int / 16), HexDigit(c as int % 16)]
    else [c]
  }

  function Escaped(s: string): string {
    if s == "" then "" else EscapeChar(s[0]) + Escaped(s[1..])
  }

  function StringText(s: string): string {
    "\"" + (Escaped(s) + "\"")
  }

  // ---------------------------------------------------------------- sorting by key

  /** Insertion into sorted entries, after equal keys: a stable sort by a comparison of keys. */
  function Inserted(e: Entry, sorted: seq<Entry>, before: (string, string) -> bool): (r: seq<Entry>)
    ensures multiset(r) == multiset(sorted) + multiset{e}
  {
    if sorted == [] || before(e.key, sorted[0].key) then [e] + sorted
    else
      assert sorted == [sorted[0]] + sorted[1..];
      [sorted[0]] + Inserted(e, sorted[1..], before)
  }

  function Sorted(entries: seq<Entry>, before: (string, string) -> bool): (r: seq<Entry>)
    ensures multiset(r) == multiset(entries)
  {
    if entries == [] then []
    else
      assert entries == entries[..|entries| - 1] + [entries[|entries| - 1]];
      Inserted(entries[|entries| - 1], Sorted(entries[..|entries| - 1], before), before)
  }

  lemma SortedMembers(entries: seq<Entry>, before: (string, string) -> bool)
    ensures |Sorted(entries, before)| == |entries|
    ensures forall e :: e in Sorted(entries, before) <==> e in entries
  {
    var r := Sorted(entries, before);
    assert |r| == |multiset(r)| == |multiset(entries)|;
    assert forall e :: e in r <==> e in multiset(r);
  }

  // ---------------------------------------------------------------- the program

  function Join(parts: seq<string>): string {
    if parts == [] then ""
    else if |parts| == 1 then parts[0]
    else parts[0] + ("," + Join(parts[1..]))
  }

  /** canonicalJson of a value without undefined. */
  function CanonicalText(v: Value, before: (string, string) -> bool): string
    decreases v
  {
    match v
    case Undefined => ""
    case Null => "null"
    case Bool(b) => if b then "true" else "false"
    case Int(n) => IntText(n)
    case Str(s) => StringText(s)
    case Arr(items) => "[" + (Join(seq(|items|, k requires 0 <= k < |items| => CanonicalText(items[k], before))) + "]")
    case Obj(entries) =>
      var sorted := Sorted(entries, before);
      SortedMembers(entries, before);
      "{" + (Join(seq(|sorted|, k requires 0 <= k < |sorted| =>
                        assert sorted[k] in entries;
                        StringText(sorted[k].key) + (":" + CanonicalText(sorted[k].value, before)))) + "}")
  }

  predicate Defined(v: Value)
    decreases v
  {
    match v
    case Undefined => false
    case Arr(items) => forall k | 0 <= k < |items| :: Defined(items[k])
    case Obj(entries) => forall k | 0 <= k < |entries| :: Defined(entries[k].value)
    case _ => true
  }

  /** canonicalJson, which refuses undefined wherever it occurs. */
  function Canonical(v: Value, before: (string, string) -> bool): Result<string, Error> {
    if Defined(v) then Success(CanonicalText(v, before)) else Failure(UndefinedValue)
  }

  // ---------------------------------------------------------------- sorting and printing apart

  /** The text of a value with the entries of every object in the order they have. */
  function Text(v: Value): string
    decreases v
  {
    match v
    case Undefined => ""
    case Null => "null"
    case Bool(b) => if b then "true" else "false"
    case Int(n) => IntText(n)
    case Str(s) => StringText(s)
    case Arr(items) => "[" + (Join(ItemTexts(items)) + "]")
    case Obj(entries) => "{" + (Join(EntryTexts(entries)) + "}")
  }

  function ItemTexts(items: seq<Value>): (r: seq<string>)
    ensures |r| == |items|
    decreases items
  {
    seq(|items|, k requires 0 <= k < |items| => Text(items[k]))
  }

  function EntryTexts(entries: seq<Entry>): (r: seq<string>)
    ensures |r| == |entries|
    decreases entries
  {
    seq(|entries|, k requires 0 <= k < |entries| => StringText(entries[k].key) + (":" + Text(entries[k].value)))
  }

  /** The value with the entries of every object sorted by key. */
  function Norm(v: Value, before: (string, string) -> bool): Value
    decreases v
  {
    match v
    case Arr(items) => Arr(seq(|items|, k requires 0 <= k < |items| => Norm(items[k], before)))
    case Obj(entries) =>
      var sorted := Sorted(entries, before);
      SortedMembers(entries, before);
      Obj(seq(|sorted|, k requires 0 <= k < |sorted| =>
                assert sorted[k] in entries;
                Entry(sorted[k].key, Norm(sorted[k].value, before))))
    case _ => v
  }

  lemma {:induction false} TextOfNorm(v: Value, before: (string, string) -> bool)
    ensures CanonicalText(v, before) == Text(Norm(v, before))
    decreases v
  {
    match v
    case Arr(items) =>
      var n := Norm(v, before).items;
      var texts := seq(|items|, k requires 0 <= k < |items| => CanonicalText(items[k], before));
      forall k | 0 <= k < |items| ensures texts[k] == ItemTexts(n)[k] { TextOfNorm(items[k], before); }
      assert texts == ItemTexts(n);
    case Obj(entries) =>
      var sorted := Sorted(entries, before);
      SortedMembers(entries, before);
      var n := Norm(v, before).entries;
      var texts := seq(|sorted|, k requires 0 <= k < |sorted| =>
                         assert sorted[k] in entries;
                         StringText(sorted[k].key) + (":" + CanonicalText(sorted[k].value, before)));
      forall k | 0 <= k < |sorted|
        ensures texts[k] == EntryTexts(n)[k]
      {
        assert sorted[k] in entries;
        TextOfNorm(sorted[k].value, before);
      }
      assert texts == EntryTexts(n);
    case _ =>
  }
}
