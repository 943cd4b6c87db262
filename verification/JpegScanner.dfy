/** The JPEG dimension scanner of the plugin validator (validate_plugin.py), against the layout that the scanner
    assumes: markers, segments and frame headers as in sections B.1.1.2, B.1.1.4 and B.2.2 of ITU-T T.81, except that
    every marker but the start and the end of the image has a length, also RSTn and TEM, which have none there. */
module JpegScanner {
  import opened Wrappers

  newtype Byte = n: int | 0 <= n < 256

  /** The start-of-frame markers of table B.1 of ITU-T T.81: 0xC0 to 0xCF without DHT, JPG and DAC. */
  predicate IsFrame(m: Byte) {
    0xC0 <= m <= 0xCF && m != 0xC4 && m != 0xC8 && m != 0xCC
  }

  /** Start and end of image: markers that no length follows. */
  predicate StandsAlone(m: Byte) {
    m == 0xD8 || m == 0xD9
  }

  function Word(s: seq<Byte>): (n: nat)
    requires |s| == 2
    ensures n < 0x1_0000
  {
    s[0] as int * 256 + s[1] as int
  }

  function JunkRun(s: seq<Byte>): (n: nat)
    ensures n <= |s|
  {
    if s == [] || s[0] == 0xFF then 0 else 1 + JunkRun(s[1..])
  }

  function FillRun(s: seq<Byte>): (n: nat)
    ensures n <= |s|
  {
    if s == [] || s[0] != 0xFF then 0 else 1 + FillRun(s[1..])
  }

  /** From a marker on: past it and its segment, or the frame's dimensions, or nothing more. */
  datatype Next = Rest(rest: seq<Byte>) | Frame(width: nat, height: nat) | Over

  function AtMarker(s: seq<Byte>): (r: Next)
    ensures r.Rest? ==> |r.rest| < |s|
  {
    if s == [] then Over
    else if StandsAlone(s[0]) then Rest(s[1..])
    else if |s| < 3 then Over
    else
      var length := Word(s[1..3]);
      if length < 2 || 1 + length > |s| then Over
      else if IsFrame(s[0]) && length >= 7 then Frame(Word(s[6..8]), Word(s[4..6]))
      else Rest(s[1 + length..])
  }

  function SkipToMarker(s: seq<Byte>): (t: seq<Byte>)
    ensures |t| <= |s|
  {
    var a := s[JunkRun(s)..];
    a[FillRun(a)..]
  }

  function Scan(s: seq<Byte>): Option<(nat, nat)>
    decreases |s|
  {
    if |s| < 4 then None
    else
      match AtMarker(SkipToMarker(s))
      case Rest(rest) => Scan(rest)
      case Frame(width, height) => Some((width, height))
      case Over => None
  }

  function Size(data: seq<Byte>): Option<(nat, nat)> {
    if |data| < 4 || data[..2] != [0xFF, 0xD8] then None else Scan(data[2..])
  }

  // ---------------------------------------------------------------- the code

  method SkipBytes(data: seq<Byte>, start: nat) returns (index: nat)
    requires start <= |data|
    ensures start <= index <= |data| && data[index..] == SkipToMarker(data[start..])
  {
    index := start;
    while index < |data| && data[index] != 0xFF
      invariant start <= index <= |data|
      invariant JunkRun(data[start..]) == index - start + JunkRun(data[index..])
    {
      assert data[index..][1..] == data[index + 1..];
      index := index + 1;
    }
    ghost var junk := index;
    assert data[start..][junk - start..] == data[junk..];
    while index < |data| && data[index] == 0xFF
      invariant junk <= index <= |data|
      invariant FillRun(data[junk..]) == index - junk + FillRun(data[index..])
    {
      assert data[index..][1..] == data[index + 1..];
      index := index + 1;
    }
    assert data[junk..][index - junk..] == data[index..];
  }

  /** _jpeg_size: every read is in bounds and the loops end, on any bytes. */
  method JpegSize(data: seq<Byte>) returns (size: Option<(nat, nat)>)
    ensures size == Size(data)
  {
    hide SkipToMarker;
    if |data| < 4 || data[..2] != [0xFF, 0xD8] {
      return None;
    }
    var index := 2;
    var sof: set<Byte> := {0xC0, 0xC1, 0xC2, 0xC3, 0xC5, 0xC6, 0xC7, 0xC9, 0xCA, 0xCB, 0xCD, 0xCE, 0xCF};
    assert forall m: Byte :: m in sof <==> IsFrame(m);
    while index + 4 <= |data|
      invariant 2 <= index <= |data| && Size(data) == Scan(data[index..])
      decreases |data| - index
    {
      ghost var before := data[index..];
      index := SkipBytes(data, index);
      ghost var s := data[index..];
      assert s == SkipToMarker(before);
      if index >= |data| {
        break;
      }
      var marker := data[index];
      index := index + 1;
      if marker == 0xD8 || marker == 0xD9 {
        assert data[index..] == s[1..];
        continue;
      }
      if index + 2 > |data| {
        break;
      }
      assert data[index..index + 2] == s[1..3];
      var length := Word(data[index..index + 2]);
      if length < 2 || index + length > |data| {
        break;
      }
      if marker in sof && length >= 7 {
        assert data[index + 3..index + 5] == s[4..6] && data[index + 5..index + 7] == s[6..8];
        return Some((Word(data[index + 5..index + 7]), Word(data[index + 3..index + 5])));
      }
      index := index + length;
      assert data[index..] == s[1 + length..];
    }
    return None;
  }

  // ---------------------------------------------------------------- the layout of a file

  /** Bytes to skip, a marker after at least one 0xFF, and the segment that the marker opens. */
  datatype Item = Item(junk: seq<Byte>, fills: nat, marker: Byte, segment: Option<seq<Byte>>)

  function Fills(n: nat): (s: seq<Byte>)
    ensures |s| == n && forall k | 0 <= k < n :: s[k] == 0xFF
  {
    if n == 0 then [] else [0xFF] + Fills(n - 1)
  }

  function LengthBytes(n: nat): seq<Byte>
    requires n < 0x1_0000
  {
    [(n / 256) as Byte, (n % 256) as Byte]
  }

  predicate ValidItem(i: Item) {
    && 0xFF !in i.junk && i.marker != 0xFF
    && (i.segment.None? <==> i.marker == 0xD8 || i.marker == 0xD9)
    && (i.segment.Some? ==> |i.segment.value| + 2 < 0x1_0000)
  }

  predicate IsFrameHeader(i: Item) {
    && i.marker in {0xC0, 0xC1, 0xC2, 0xC3, 0xC5, 0xC6, 0xC7, 0xC9, 0xCA, 0xCB, 0xCD, 0xCE, 0xCF}
    && i.segment.Some? && |i.segment.value| >= 5
  }

  function MarkerBytes(i: Item): seq<Byte>
    requires ValidItem(i)
  {
    [i.marker] + if i.segment.None? then [] else LengthBytes(|i.segment.value| + 2) + i.segment.value
  }

  function ItemBytes(i: Item): seq<Byte>
    requires ValidItem(i)
  {
    i.junk + (Fills(1 + i.fills) + MarkerBytes(i))
  }

  function Bytes(items: seq<Item>): seq<Byte>
    requires forall i | i in items :: ValidItem(i)
  {
    if items == [] then [] else ItemBytes(items[0]) + Bytes(items[1..])
  }

  /** A frame header after items that are none, and anything after it. */
  ghost predicate LaidOut(s: seq<Byte>, items: seq<Item>, frame: Item, tail: seq<Byte>) {
    && (forall i | i in items :: ValidItem(i) && !IsFrameHeader(i))
    && ValidItem(frame) && IsFrameHeader(frame)
    && s == Bytes(items) + (ItemBytes(frame) + tail)
  }

  function Dimensions(frame: Item): (nat, nat)
    requires ValidItem(frame) && IsFrameHeader(frame)
  {
    (Word(frame.segment.value[3..5]), Word(frame.segment.value[1..3]))
  }

  // ---------------------------------------------------------------- skipping to a marker

  lemma {:induction false} JunkThen(junk: seq<Byte>, s: seq<Byte>)
    requires 0xFF !in junk && s != [] && s[0] == 0xFF
    ensures JunkRun(junk + s) == |junk|
    decreases |junk|
  {
    if junk == [] {
      assert junk + s == s;
    } else {
      assert (junk + s)[1..] == junk[1..] + s;
      JunkThen(junk[1..], s);
    }
  }

  lemma {:induction false} FillsThen(n: nat, s: seq<Byte>)
    requires s != [] && s[0] != 0xFF
    ensures FillRun(Fills(n) + s) == n
    decreases n
  {
    if n == 0 {
      assert Fills(n) + s == s;
    } else {
      assert (Fills(n) + s)[1..] == Fills(n - 1) + s;
      FillsThen(n - 1, s);
    }
  }

  lemma SkipsToItem(i: Item, rest: seq<Byte>)
    requires ValidItem(i)
    ensures SkipToMarker(ItemBytes(i) + rest) == MarkerBytes(i) + rest
  {
    hide MarkerBytes;
    var m := MarkerBytes(i) + rest;
    assert m[0] == i.marker by { MarkerFirst(i); }
    var f := Fills(1 + i.fills) + m;
    var s := ItemBytes(i) + rest;
    assert s == i.junk + f;
    JunkThen(i.junk, f);
    assert s[|i.junk|..] == f;
    FillsThen(1 + i.fills, m);
    assert f[1 + i.fills..] == m;
  }

  lemma MarkerFirst(i: Item)
    requires ValidItem(i)
    ensures |MarkerBytes(i)| > 0 && MarkerBytes(i)[0] == i.marker
  {
  }

  lemma {:induction false} JunkParts(s: seq<Byte>)
    ensures 0xFF !in s[..JunkRun(s)] && (JunkRun(s) < |s| ==> s[JunkRun(s)] == 0xFF)
    decreases |s|
  {
    if s != [] && s[0] != 0xFF {
      JunkParts(s[1..]);
      assert s[..JunkRun(s)] == [s[0]] + s[1..][..JunkRun(s[1..])];
    }
  }

  lemma {:induction false} FillParts(s: seq<Byte>)
    ensures s[..FillRun(s)] == Fills(FillRun(s)) && (FillRun(s) < |s| ==> s[FillRun(s)] != 0xFF)
    decreases |s|
  {
    if s != [] && s[0] == 0xFF {
      FillParts(s[1..]);
      assert s[..FillRun(s)] == [s[0]] + s[1..][..FillRun(s[1..])];
    }
  }

  // ---------------------------------------------------------------- what a marker opens

  lemma LengthRead(n: nat)
    requires n < 0x1_0000
    ensures Word(LengthBytes(n)) == n
  {
  }

  lemma LengthWritten(s: seq<Byte>)
    requires |s| == 2
    ensures LengthBytes(Word(s)) == s
  {
    var a, b := s[0] as int, s[1] as int;
    assert (a * 256 + b) / 256 == a && (a * 256 + b) % 256 == b;
  }

  lemma AtItem(i: Item, rest: seq<Byte>)
    requires ValidItem(i)
    ensures AtMarker(MarkerBytes(i) + rest) ==
      if IsFrameHeader(i) then Frame(Dimensions(i).0, Dimensions(i).1) else Rest(rest)
  {
    var s := MarkerBytes(i) + rest;
    if i.segment.None? {
      assert s[1..] == rest;
    } else {
      var p := i.segment.value;
      var n := |p| + 2;
      LengthRead(n);
      assert s == [i.marker] + (LengthBytes(n) + (p + rest));
      assert s[1..3] == LengthBytes(n);
      assert s[1 + n..] == rest;
      if IsFrameHeader(i) {
        assert s[6..8] == p[3..5] && s[4..6] == p[1..3];
      }
    }
  }

  /** Whatever the scanner makes of a marker, an item of the layout says the same. */
  lemma ItemAt(s: seq<Byte>, fills: nat, junk: seq<Byte>) returns (i: Item, rest: seq<Byte>)
    requires 0xFF !in junk && s != [] && s[0] != 0xFF && !AtMarker(s).Over?
    ensures ValidItem(i) && i.junk == junk && i.fills == fills && s == MarkerBytes(i) + rest
  {
    if StandsAlone(s[0]) {
      i, rest := Item(junk, fills, s[0], None), s[1..];
    } else {
      var n := Word(s[1..3]);
      i, rest := Item(junk, fills, s[0], Some(s[3..1 + n])), s[1 + n..];
      LengthWritten(s[1..3]);
      assert s == [s[0]] + (s[1..3] + s[3..1 + n]) + rest;
    }
  }

  // ---------------------------------------------------------------- the scan and the layout

  lemma ItemLong(i: Item, rest: seq<Byte>)
    requires ValidItem(i)
    ensures |ItemBytes(i) + rest| >= 2 + |rest|
    ensures IsFrameHeader(i) ==> |ItemBytes(i) + rest| >= 9
  {
  }

  lemma {:induction false} LaidOutScans(s: seq<Byte>, items: seq<Item>, frame: Item, tail: seq<Byte>)
    requires LaidOut(s, items, frame, tail)
    ensures Scan(s) == Some(Dimensions(frame)) && |s| >= 9
    decreases |items|
  {
    hide ItemBytes, MarkerBytes, AtMarker, SkipToMarker, Dimensions;
    if items == [] {
      assert s == ItemBytes(frame) + tail;
      SkipsToItem(frame, tail);
      AtItem(frame, tail);
      ItemLong(frame, tail);
    } else {
      var i := items[0];
      var rest := Bytes(items[1..]) + (ItemBytes(frame) + tail);
      assert s == ItemBytes(i) + rest;
      LaidOutScans(rest, items[1..], frame, tail);
      SkipsToItem(i, rest);
      AtItem(i, rest);
      ItemLong(i, rest);
    }
  }

  lemma SkippedParts(s: seq<Byte>) returns (junk: seq<Byte>, n: nat)
    ensures 0xFF !in junk && s == junk + (Fills(n) + SkipToMarker(s))
    ensures SkipToMarker(s) != [] ==> n > 0 && SkipToMarker(s)[0] != 0xFF
  {
    JunkParts(s);
    junk := s[..JunkRun(s)];
    var a := s[JunkRun(s)..];
    FillParts(a);
    n := FillRun(a);
    assert a == a[..n] + a[n..];
    assert s == junk + a;
  }

  lemma Regrouped(a: seq<Byte>, b: seq<Byte>, c: seq<Byte>, d: seq<Byte>)
    ensures a + (b + (c + d)) == a + (b + c) + d
  {
  }

  lemma ScannedItem(s: seq<Byte>) returns (i: Item, rest: seq<Byte>)
    requires !AtMarker(SkipToMarker(s)).Over?
    ensures ValidItem(i) && s == ItemBytes(i) + rest && SkipToMarker(s) == MarkerBytes(i) + rest
  {
    hide AtMarker, MarkerBytes, SkipToMarker, Fills;
    NothingIsOver();
    var junk, n := SkippedParts(s);
    i, rest := ItemAt(SkipToMarker(s), n - 1, junk);
    Regrouped(junk, Fills(n), MarkerBytes(i), rest);
  }

  lemma NothingIsOver()
    ensures AtMarker([]).Over?
  {
  }

  lemma {:induction false} ScannedIsLaidOut(s: seq<Byte>) returns (items: seq<Item>, frame: Item, tail: seq<Byte>)
    requires Scan(s).Some?
    ensures LaidOut(s, items, frame, tail) && Scan(s) == Some(Dimensions(frame))
    decreases |s|
  {
    hide ItemBytes, MarkerBytes, AtMarker, SkipToMarker, Dimensions, ValidItem, IsFrameHeader;
    var i, rest := ScannedItem(s);
    AtItem(i, rest);
    if IsFrameHeader(i) {
      items, frame, tail := [], i, rest;
      assert s == [] + (ItemBytes(frame) + tail);
    } else {
      var more;
      more, frame, tail := ScannedIsLaidOut(rest);
      items := [i] + more;
      assert items[1..] == more;
      assert s == ItemBytes(i) + (Bytes(more) + (ItemBytes(frame) + tail));
    }
  }

  /** The scanner finds dimensions exactly when the bytes after the start of image are laid out as items up to a
      frame header, and they are that header's. */
  lemma SizeIffLaidOut(data: seq<Byte>, width: nat, height: nat)
    ensures Size(data) == Some((width, height)) <==>
      |data| > 2 && data[..2] == [0xFF, 0xD8]
      && exists items, frame, tail :: LaidOut(data[2..], items, frame, tail) && Dimensions(frame) == (width, height)
  {
    hide Dimensions, Bytes, ItemBytes, ValidItem, IsFrameHeader;
    if Size(data) == Some((width, height)) {
      var items, frame, tail := ScannedIsLaidOut(data[2..]);
      assert LaidOut(data[2..], items, frame, tail);
    }
    if |data| > 2 && data[..2] == [0xFF, 0xD8] {
      if items, frame, tail :| LaidOut(data[2..], items, frame, tail) && Dimensions(frame) == (width, height) {
        LaidOutScans(data[2..], items, frame, tail);
      }
    }
  }
}
