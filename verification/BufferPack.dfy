/**
  The struct codec: values to bytes and back under a format of counted elements. A format is given after
  the regular expression has cut it up; floats are not part of this model.
 */
module BufferPack {
  import opened Bytes
  import opened Options

  /** A raw array, x padding, c one character, an integer of len bytes, s a string, S a string and a zero byte. */
  datatype Kind = Raw | Skip | Char | Int(len: nat, signed: bool) | Text | NulText

  datatype Item = Item(count: nat, kind: Kind)

  /** An array, a character or a string is given by its character codes. */
  datatype Value = Num(n: int) | Str(codes: seq<Byte>)

  const TWO_TO_THE_32: int := 0x1_0000_0000

  predicate Known(kind: Kind) {
    kind.Int? ==> kind.len in {1, 2, 4}
  }

  predicate AllKnown(items: seq<Item>) {
    forall i :: 0 <= i < |items| ==> Known(items[i].kind)
  }

  /** _lenLut */
  function UnitSize(kind: Kind): (s: nat)
  {
    if kind.Int? then kind.len else 1
  }

  // ----- integers -----

  function Min(kind: Kind): int
    requires kind.Int?
  {
    if kind.signed then -(Pow256(kind.len) / 2) else 0
  }

  function Max(kind: Kind): int
    requires kind.Int?
  {
    if kind.signed then Pow256(kind.len) / 2 - 1 else Pow256(kind.len) - 1
  }

  function Clamp(kind: Kind, v: int): int
    requires kind.Int?
  {
    if v < Min(kind) then Min(kind) else if v > Max(kind) then Max(kind) else v
  }

  /** The low len bytes of an integer in two's complement, the least significant first. */
  function LE(v: int, len: nat): (r: seq<Byte>)
    ensures |r| == len
    decreases len
  {
    if len == 0 then [] else [v % 256] + LE(v / 256, len - 1)
  }

  function FromLE(bs: seq<Byte>): (n: nat) {
    if bs == [] then 0 else bs[0] + 256 * FromLE(bs[1..])
  }

  function Reversed(bs: seq<Byte>): (r: seq<Byte>)
    ensures |r| == |bs| && forall i :: 0 <= i < |bs| ==> r[i] == bs[|bs| - 1 - i]
  {
    seq(|bs|, i requires 0 <= i < |bs| => bs[|bs| - 1 - i])
  }

  function Ordered(big: bool, bs: seq<Byte>): (r: seq<Byte>)
    ensures |r| == |bs|
  {
    if big then Reversed(bs) else bs
  }

  function IntBytes(big: bool, kind: Kind, v: int): (r: seq<Byte>)
    requires kind.Int?
    ensures |r| == kind.len
  {
    Ordered(big, LE(Clamp(kind, v), kind.len))
  }

  function BytesInt(big: bool, kind: Kind, bs: seq<Byte>): int
    requires kind.Int? && |bs| == kind.len
  {
    var n := FromLE(Ordered(big, bs));
    if kind.signed && n >= Pow256(kind.len) / 2 then n - Pow256(kind.len) else n
  }

  lemma {:induction false} FromLEOfLE(v: int, len: nat) returns (j: int)
    ensures FromLE(LE(v, len)) == v + j * Pow256(len) && FromLE(LE(v, len)) < Pow256(len)
    decreases len
  {
    if len == 0 {
      j := -v;
    } else {
      j := FromLEOfLE(v / 256, len - 1);
      FromLECons(v, len);
      hide *;
      Carry(v, v / 256, j, Pow256(len - 1), FromLE(LE(v / 256, len - 1)));
    }
  }

  lemma FromLECons(v: int, len: nat)
    requires len > 0
    ensures FromLE(LE(v, len)) == v % 256 + 256 * FromLE(LE(v / 256, len - 1)) && Pow256(len) == 256 * Pow256(len - 1)
  {
    assert LE(v, len)[1..] == LE(v / 256, len - 1);
  }

  lemma Carry(v: int, q: int, j: int, p: int, n: int)
    requires q == v / 256 && n == q + j * p && n < p
    ensures v % 256 + 256 * n == v + j * (256 * p) && v % 256 + 256 * n < 256 * p
  {
    assert 256 * (j * p) == j * (256 * p);
  }

  /** An integer comes back as it was, one out of range as the nearest bound of the type. */
  lemma IntComesBack(big: bool, kind: Kind, v: int)
    requires kind.Int? && Known(kind)
    ensures BytesInt(big, kind, IntBytes(big, kind, v)) == Clamp(kind, v)
  {
    hide FromLE, LE, Pow256, Ordered;
    var c, p := Clamp(kind, v), Pow256(kind.len);
    Pow256Even(kind.len);
    OrderedTwice(big, LE(c, kind.len));
    var j := FromLEOfLE(c, kind.len);
    Wraps(c, p, j);
  }

  lemma OrderedTwice(big: bool, bs: seq<Byte>)
    ensures Ordered(big, Ordered(big, bs)) == bs
  {
  }

  lemma Pow256Even(len: nat)
    requires len > 0
    ensures Pow256(len) == 2 * (Pow256(len) / 2) && Pow256(len) >= 256
  {
    assert Pow256(len) == 256 * Pow256(len - 1);
  }

  lemma Wraps(c: int, p: int, j: int)
    requires -p < c < p && 0 <= c + j * p < p
    ensures c >= 0 ==> j == 0
    ensures c < 0 ==> j == 1
  {
    Multiples(j, p);
  }

  lemma Multiples(j: int, p: int)
    requires p > 0
    ensures j >= 2 ==> j * p >= 2 * p
    ensures j >= 1 ==> j * p >= p
    ensures j <= -1 ==> j * p <= -p
    ensures j <= 0 ==> j * p <= 0
  {
    if j >= 2 { assert (j - 2) * p >= 0; }
    if j >= 1 { assert (j - 1) * p >= 0; }
    if j <= -1 { assert (-j - 1) * p >= 0; }
  }

  // ----- the integers in numbers -----

  /** The bounds of the types b, B, h, H, i (or l) and I (or L). */
  lemma IntBounds()
    ensures Min(Int(1, true)) == -0x80 && Max(Int(1, true)) == 0x7f
    ensures Min(Int(1, false)) == 0 && Max(Int(1, false)) == 0xff
    ensures Min(Int(2, true)) == -0x8000 && Max(Int(2, true)) == 0x7fff
    ensures Min(Int(2, false)) == 0 && Max(Int(2, false)) == 0xffff
    ensures Min(Int(4, true)) == -0x8000_0000 && Max(Int(4, true)) == 0x7fff_ffff
    ensures Min(Int(4, false)) == 0 && Max(Int(4, false)) == 0xffff_ffff
  {
    Powers();
  }

  lemma Powers()
    ensures Pow256(1) == 0x100 && Pow256(2) == 0x1_0000 && Pow256(4) == 0x1_0000_0000
  {
    assert Pow256(3) == 0x100_0000;
  }

  lemma LEValue(v: int, len: nat)
    requires 0 - Pow256(len) < v < Pow256(len)
    ensures FromLE(LE(v, len)) == if v < 0 then v + Pow256(len) else v
  {
    hide *;
    var j := FromLEOfLE(v, len);
    Wraps(v, Pow256(len), j);
  }

  /** The value of little-endian bytes, place by place. */
  lemma PlaceValues(bs: seq<Byte>)
    ensures |bs| == 1 ==> FromLE(bs) == bs[0]
    ensures |bs| == 2 ==> var a: int, b: int := bs[0], bs[1]; FromLE(bs) == a + 0x100 * b
    ensures |bs| == 4 ==>
      var a: int, b: int, c: int, d: int := bs[0], bs[1], bs[2], bs[3];
      FromLE(bs) == a + 0x100 * b + 0x1_0000 * c + 0x100_0000 * d
  {
    if |bs| == 2 {
      assert bs[1..] == [bs[1]] && [bs[1]][1..] == [];
    } else if |bs| == 4 {
      var two := [bs[2], bs[3]];
      assert bs[1..] == [bs[1], bs[2], bs[3]] && [bs[1], bs[2], bs[3]][1..] == two;
      PlaceValues(two);
    }
  }

  lemma Unclamped(kind: Kind, v: int)
    requires kind.Int? && Min(kind) <= v <= Max(kind)
    ensures forall big :: IntBytes(big, kind, v) == Ordered(big, LE(v, kind.len))
    ensures Clamp(kind, v) == v
  {
    hide Min, Max, Ordered, LE;
  }

  /** b and B: a number from -2^7 to 2^7 - 1, or from 0 to 2^8 - 1, is one byte, modulo 2^8, and comes back. */
  lemma ByteExactly(big: bool, signed: bool, v: int)
    requires if signed then -0x80 <= v < 0x80 else 0 <= v < 0x100
    ensures var bs := IntBytes(big, Int(1, signed), v);
      bs[0] == (if v < 0 then v + 0x100 else v) && BytesInt(big, Int(1, signed), bs) == v
  {
    hide LE, FromLE, Pow256, IntBytes, BytesInt, Clamp, Min, Max;
    IntBounds();
    Powers();
    IntComesBack(big, Int(1, signed), v);
    Unclamped(Int(1, signed), v);
    LEValue(v, 1);
    PlaceValues(LE(v, 1));
  }

  /** h and H: from -2^15 to 2^15 - 1, or from 0 to 2^16 - 1, two bytes in either order. */
  lemma ShortExactly(big: bool, signed: bool, v: int)
    requires if signed then -0x8000 <= v < 0x8000 else 0 <= v < 0x1_0000
    ensures var bs := IntBytes(big, Int(2, signed), v);
      var a: int, b: int := bs[0], bs[1];
      && (if big then 0x100 * a + b else a + 0x100 * b) == (if v < 0 then v + 0x1_0000 else v)
      && BytesInt(big, Int(2, signed), bs) == v
  {
    hide LE, FromLE, Pow256, IntBytes, BytesInt, Clamp, Min, Max;
    IntBounds();
    Powers();
    IntComesBack(big, Int(2, signed), v);
    Unclamped(Int(2, signed), v);
    LEValue(v, 2);
    PlaceValues(LE(v, 2));
  }

  /** i, I, l and L: from -2^31 to 2^31 - 1, or from 0 to 2^32 - 1, four bytes in either order. */
  lemma LongExactly(big: bool, signed: bool, v: int)
    requires if signed then -0x8000_0000 <= v < 0x8000_0000 else 0 <= v < 0x1_0000_0000
    ensures var bs := IntBytes(big, Int(4, signed), v);
      var a: int, b: int, c: int, d: int := bs[0], bs[1], bs[2], bs[3];
      && (if big then 0x100_0000 * a + 0x1_0000 * b + 0x100 * c + d else a + 0x100 * b + 0x1_0000 * c + 0x100_0000 * d)
         == (if v < 0 then v + 0x1_0000_0000 else v)
      && BytesInt(big, Int(4, signed), bs) == v
  {
    hide LE, FromLE, Pow256, IntBytes, BytesInt, Clamp, Min, Max;
    IntBounds();
    Powers();
    IntComesBack(big, Int(4, signed), v);
    Unclamped(Int(4, signed), v);
    LEValue(v, 4);
    PlaceValues(LE(v, 4));
  }

  /** A number out of range is written as the nearest one in range. */
  lemma OutOfRange(big: bool, len: nat, signed: bool, v: int)
    requires len in {1, 2, 4}
    ensures var top := if len == 1 then 0x7f else if len == 2 then 0x7fff else 0x7fff_ffff;
      var low, high := if signed then -top - 1 else 0, if signed then top else 2 * top + 1;
      && (v > high ==> IntBytes(big, Int(len, signed), v) == IntBytes(big, Int(len, signed), high))
      && (v < low ==> IntBytes(big, Int(len, signed), v) == IntBytes(big, Int(len, signed), low))
  {
    hide LE, Ordered, Min, Max;
    IntBounds();
  }

  // ----- one element -----

  /** What packTo does with one element: its bytes, or false, or a TypeError where a string is missing. */
  datatype Packing = Done(bytes: seq<Byte>) | Refused | Throws

  /** _EnString, _EnArray: exactly l codes, cut off or filled up with zeros. */
  function Fill(codes: seq<Byte>, l: nat): (r: seq<Byte>)
    ensures |r| == l
    ensures r == codes <==> |codes| == l
  {
    if |codes| >= l then codes[..l] else codes + Zeros(l - |codes|)
  }

  predicate TypedAs(kind: Kind, v: Value) {
    if kind.Int? then v.Num? else v.Str?
  }

  predicate AllTyped(kind: Kind, values: seq<Value>) {
    forall i :: 0 <= i < |values| ==> TypedAs(kind, values[i])
  }

  /** An element of count numbers or characters. */
  predicate Series(kind: Kind) {
    kind.Int? || kind.Char?
  }

  function UnitBytes(big: bool, kind: Kind, v: Value): (r: seq<Byte>)
    requires Series(kind) && TypedAs(kind, v)
    ensures |r| == UnitSize(kind)
  {
    if kind.Int? then IntBytes(big, kind, v.n) else Fill(v.codes, 1)
  }

  function UnitValue(big: bool, kind: Kind, bs: seq<Byte>): Value
    requires Series(kind) && |bs| == UnitSize(kind)
  {
    if kind.Int? then Num(BytesInt(big, kind, bs)) else Str(bs)
  }

  /** What a unit survives: an integer in range, a character that is there. */
  predicate FaithfulUnit(kind: Kind, v: Value)
    requires Series(kind)
  {
    if kind.Int? then v.Num? && Min(kind) <= v.n <= Max(kind) else v.Str? && |v.codes| == 1
  }

  predicate AllFaithful(kind: Kind, values: seq<Value>)
    requires Series(kind)
  {
    forall i :: 0 <= i < |values| ==> FaithfulUnit(kind, values[i])
  }

  lemma UnitComesBack(big: bool, kind: Kind, v: Value)
    requires Series(kind) && Known(kind) && TypedAs(kind, v)
    ensures UnitValue(big, kind, UnitBytes(big, kind, v)) == v <==> FaithfulUnit(kind, v)
  {
    if kind.Int? {
      IntComesBack(big, kind, v.n);
      Pow256Even(kind.len);
      hide IntBytes, BytesInt;
    }
  }

  function Units(big: bool, kind: Kind, values: seq<Value>): (r: seq<Byte>)
    requires Series(kind) && AllTyped(kind, values)
    ensures |r| == |values| * UnitSize(kind)
  {
    if values == [] then []
    else
      assert |values| * UnitSize(kind) == UnitSize(kind) + |values[1..]| * UnitSize(kind);
      UnitBytes(big, kind, values[0]) + Units(big, kind, values[1..])
  }

  function ReadUnits(big: bool, kind: Kind, n: nat, bs: seq<Byte>): (r: seq<Value>)
    requires Series(kind) && |bs| >= n * UnitSize(kind)
    ensures |r| == n
  {
    if n == 0 then []
    else
      var s := UnitSize(kind);
      assert n * s == s + (n - 1) * s && (n - 1) * s >= 0;
      [UnitValue(big, kind, bs[..s])] + ReadUnits(big, kind, n - 1, bs[s..])
  }

  /** Units written one after the other are read back, each as its type lets it through. */
  lemma {:induction false} UnitsComeBack(big: bool, kind: Kind, values: seq<Value>, tail: seq<Byte>)
    requires Series(kind) && Known(kind) && AllTyped(kind, values)
    ensures |Units(big, kind, values) + tail| >= |values| * UnitSize(kind)
    ensures ReadUnits(big, kind, |values|, Units(big, kind, values) + tail) == values <==> AllFaithful(kind, values)
  {
    hide *;
    if values == [] {
      NoUnits(big, kind);
      ReadNone(big, kind, Units(big, kind, []) + tail);
    } else {
      FirstUnit(big, kind, values);
      var first, vs := UnitBytes(big, kind, values[0]), values[1..];
      var bs, rest := Units(big, kind, values) + tail, Units(big, kind, vs) + tail;
      UnitsComeBack(big, kind, vs, tail);
      UnitComesBack(big, kind, values[0]);
      assert bs == first + rest && bs[..|first|] == first && bs[|first|..] == rest;
      ReadNext(big, kind, |values|, bs, |first|);
      FirstAndRest(kind, values);
      assert values == [values[0]] + vs;
    }
  }

  lemma FirstUnit(big: bool, kind: Kind, values: seq<Value>)
    requires Series(kind) && AllTyped(kind, values) && values != []
    ensures TypedAs(kind, values[0]) && AllTyped(kind, values[1..])
    ensures Units(big, kind, values) == UnitBytes(big, kind, values[0]) + Units(big, kind, values[1..])
    ensures |UnitBytes(big, kind, values[0])| == UnitSize(kind) && |Units(big, kind, values)| == |values| * UnitSize(kind)
  {
    hide UnitBytes;
  }

  lemma FirstAndRest(kind: Kind, values: seq<Value>)
    requires Series(kind) && values != []
    ensures AllFaithful(kind, values) <==> FaithfulUnit(kind, values[0]) && AllFaithful(kind, values[1..])
  {
    if FaithfulUnit(kind, values[0]) && AllFaithful(kind, values[1..]) {
      forall i | 0 <= i < |values| ensures FaithfulUnit(kind, values[i]) {
        if i > 0 { assert values[i] == values[1..][i - 1]; }
      }
    }
  }

  // ----- one element -----

  /** How many values an element takes from the list. */
  function Used(item: Item): nat {
    if Series(item.kind) then item.count else if item.kind.Skip? then 0 else 1
  }

  /** The values an element takes, as far as they are there, are of its type. */
  predicate TypedItem(item: Item, values: seq<Value>) {
    forall i :: 0 <= i < Used(item) && i < |values| ==> TypedAs(item.kind, values[i])
  }

  function PackItem(big: bool, item: Item, values: seq<Value>, room: nat): (r: Packing)
    requires TypedItem(item, values)
    ensures r.Done? ==> |r.bytes| <= room && Used(item) <= |values|
  {
    var kind := item.kind;
    if kind.NulText? then
      if values == [] then Throws
      else if |values[0].codes| + 1 > room then Refused
      else Done(values[0].codes + [0])
    else if item.count * UnitSize(kind) > room || Used(item) > |values| then Refused
    else if Series(kind) then Done(Units(big, kind, values[..item.count]))
    else if kind.Skip? then Done(Zeros(item.count))
    else Done(Fill(values[0].codes, item.count))
  }

  /** The values read from the front of the bytes and the bytes used; or undefined; or a search without end. */
  datatype Unpacking = Values(values: seq<Value>, size: nat) | Undefined | Hangs

  /** The first zero byte. */
  function FirstZero(bs: seq<Byte>): (at: Option<nat>)
    ensures at.Some? ==> at.value < |bs| && bs[at.value] == 0 && 0 !in bs[..at.value]
    ensures at.None? ==> 0 !in bs
  {
    if bs == [] then None
    else if bs[0] == 0 then Some(0)
    else match FirstZero(bs[1..])
      case None => None
      case Some(n) => assert bs[..n + 1] == [bs[0]] + bs[1..][..n]; Some(n + 1)
  }

  function UnpackItem(big: bool, item: Item, bs: seq<Byte>): (r: Unpacking)
    ensures r.Values? ==> r.size <= |bs|
  {
    var kind := item.kind;
    if kind.NulText? then
      match FirstZero(bs)
      case None => Hangs
      case Some(n) => Values([Str(bs[..n])], n + 1)
    else if item.count * UnitSize(kind) > |bs| then Undefined
    else if Series(kind) then Values(ReadUnits(big, kind, item.count, bs), item.count * UnitSize(kind))
    else if kind.Skip? then Values([], item.count)
    else Values([Str(bs[..item.count])], item.count)
  }

  /** What an element survives: the right length, integers in range, no zero byte inside a terminated string. */
  predicate FaithfulItem(item: Item, values: seq<Value>) {
    && Used(item) <= |values|
    && if Series(item.kind) then AllFaithful(item.kind, values[..item.count])
       else if item.kind.Skip? then true
       else if item.kind.NulText? then values[0].Str? && 0 !in values[0].codes
       else values[0].Str? && |values[0].codes| == item.count
  }

  lemma SeriesComesBack(big: bool, item: Item, values: seq<Value>, tail: seq<Byte>)
    requires Series(item.kind) && Known(item.kind) && item.count <= |values| && AllTyped(item.kind, values[..item.count])
    ensures var bytes := Units(big, item.kind, values[..item.count]);
      && UnpackItem(big, item, bytes + tail) == Values(ReadUnits(big, item.kind, item.count, bytes + tail), |bytes|)
      && (ReadUnits(big, item.kind, item.count, bytes + tail) == values[..item.count] <==> FaithfulItem(item, values))
  {
    UnitsComeBack(big, item.kind, values[..item.count], tail);
    hide Units, ReadUnits, AllFaithful;
  }

  lemma TextComesBack(big: bool, item: Item, codes: seq<Byte>, tail: seq<Byte>)
    requires item.kind.Raw? || item.kind.Text?
    ensures UnpackItem(big, item, Fill(codes, item.count) + tail) == Values([Str(Fill(codes, item.count))], item.count)
  {
    hide Fill;
    assert (Fill(codes, item.count) + tail)[..item.count] == Fill(codes, item.count);
  }

  lemma NulTextComesBack(big: bool, item: Item, codes: seq<Byte>, tail: seq<Byte>)
    requires item.kind.NulText?
    ensures var r := UnpackItem(big, item, codes + [0] + tail);
      && r.Values? && |r.values| == 1
      && (r.values == [Str(codes)] <==> 0 !in codes)
      && (0 !in codes ==> r.size == |codes| + 1)
  {
    ZeroEnds(codes, tail);
    var bs := codes + [0] + tail;
    var at := FirstZero(bs).value;
    if at == |codes| { assert bs[..at] == codes; }
  }

  /** One element read back: the same values exactly when they are faithful, and then from the same bytes. */
  lemma ItemComesBack(big: bool, item: Item, values: seq<Value>, room: nat, tail: seq<Byte>)
    requires Known(item.kind) && TypedItem(item, values) && PackItem(big, item, values, room).Done?
    ensures var bytes, r := PackItem(big, item, values, room).bytes, UnpackItem(big, item, PackItem(big, item, values, room).bytes + tail);
      && r.Values? && |r.values| == Used(item) <= |values|
      && (r.values == values[..Used(item)] <==> FaithfulItem(item, values))
      && (FaithfulItem(item, values) ==> r.size == |bytes|)
  {
    hide Units, ReadUnits, AllFaithful, Fill, FirstZero;
    if Series(item.kind) {
      SeriesComesBack(big, item, values, tail);
    } else if item.kind.NulText? {
      NulTextComesBack(big, item, values[0].codes, tail);
    } else if !item.kind.Skip? {
      TextComesBack(big, item, values[0].codes, tail);
    }
  }

  lemma {:induction false} ZeroEnds(codes: seq<Byte>, tail: seq<Byte>)
    ensures var at := FirstZero(codes + [0] + tail);
      at.Some? && at.value <= |codes| && (at.value == |codes| <==> 0 !in codes)
  {
    var bs := codes + [0] + tail;
    if codes != [] && codes[0] != 0 {
      ZeroEnds(codes[1..], tail);
      assert bs[1..] == codes[1..] + [0] + tail;
      assert codes == [codes[0]] + codes[1..];
    }
  }

  // ----- whole formats -----

  /** What packTo does, with so much room from the offset on. */
  function PackAll(big: bool, items: seq<Item>, values: seq<Value>, room: nat): (r: Packing)
    requires Typed(items, values)
    ensures r.Done? ==> |r.bytes| <= room
  {
    if items == [] then Done([])
    else
      match PackItem(big, items[0], values, room)
      case Done(b) => Prepend(b, PackAll(big, items[1..], values[Used(items[0])..], room - |b|))
      case Refused => Refused
      case Throws => Throws
  }

  function Prepend(b: seq<Byte>, rest: Packing): Packing {
    if rest.Done? then Done(b + rest.bytes) else rest
  }

  predicate Typed(items: seq<Item>, values: seq<Value>) {
    items != [] ==>
      TypedItem(items[0], values) && (Used(items[0]) <= |values| ==> Typed(items[1..], values[Used(items[0])..]))
  }

  /** What unpack does from the offset on. */
  function UnpackAll(big: bool, items: seq<Item>, bs: seq<Byte>): (r: Unpacking)
    ensures r.Values? ==> r.size <= |bs|
  {
    if items == [] then Values([], 0)
    else
      match UnpackItem(big, items[0], bs)
      case Values(vs, n) => After(vs, n, UnpackAll(big, items[1..], bs[n..]))
      case Undefined => Undefined
      case Hangs => Hangs
  }

  function After(vs: seq<Value>, n: nat, rest: Unpacking): Unpacking {
    if rest.Values? then Values(vs + rest.values, n + rest.size) else rest
  }

  function TotalUsed(items: seq<Item>): nat {
    if items == [] then 0 else Used(items[0]) + TotalUsed(items[1..])
  }

  predicate Faithful(items: seq<Item>, values: seq<Value>) {
    if items == [] then values == []
    else FaithfulItem(items[0], values) && Faithful(items[1..], values[Used(items[0])..])
  }

  lemma PackCons(big: bool, items: seq<Item>, values: seq<Value>, room: nat)
    requires items != [] && Typed(items, values)
    ensures TypedItem(items[0], values)
    ensures var first := PackItem(big, items[0], values, room);
      if first.Done? then
        && Used(items[0]) <= |values| && |first.bytes| <= room && Typed(items[1..], values[Used(items[0])..])
        && (var rest := PackAll(big, items[1..], values[Used(items[0])..], room - |first.bytes|);
            PackAll(big, items, values, room) == if rest.Done? then Done(first.bytes + rest.bytes) else rest)
      else PackAll(big, items, values, room) == first
  {
    hide PackItem;
  }

  lemma UnpackCons(big: bool, items: seq<Item>, b: seq<Byte>, rest: seq<Byte>, values: seq<Value>)
    requires items != [] && UnpackItem(big, items[0], b + rest).Values? && |UnpackItem(big, items[0], b + rest).values| <= |values|
    ensures var first, got := UnpackItem(big, items[0], b + rest), UnpackAll(big, items, b + rest);
      var n := |first.values|;
      && (first.values != values[..n] ==> got.Values? ==> got.values != values)
      && (first.values == values[..n] && first.size == |b| ==>
            var more := UnpackAll(big, items[1..], rest);
            && (got.Values? && got.values == values <==> more.Values? && more.values == values[n..])
            && (more.Values? ==> got.Values? && got.size == |b| + more.size))
  {
    hide UnpackItem;
    var first, got := UnpackItem(big, items[0], b + rest), UnpackAll(big, items, b + rest);
    var n := |first.values|;
    assert (b + rest)[|b|..] == rest;
    if got.Values? {
      assert got.values[..n] == first.values;
      assert values == values[..n] + values[n..];
      assert got.values[n..] == UnpackAll(big, items[1..], (b + rest)[first.size..]).values;
    }
  }

  /** Unpacking what was packed gives the same values exactly when every one of them is faithful to its element. */
  lemma {:induction false} RoundTrip(big: bool, items: seq<Item>, values: seq<Value>, room: nat, tail: seq<Byte>)
    requires AllKnown(items) && Typed(items, values) && |values| == TotalUsed(items)
    requires PackAll(big, items, values, room).Done?
    ensures var bytes := PackAll(big, items, values, room).bytes;
      var r := UnpackAll(big, items, bytes + tail);
      && ((r.Values? && r.values == values) <==> Faithful(items, values))
      && (Faithful(items, values) ==> r.size == |bytes|)
  {
    hide *;
    if items == [] {
      NoItems(big, values, room, tail);
    } else {
      PackCons(big, items, values, room);
      var b, n := PackItem(big, items[0], values, room).bytes, Used(items[0]);
      var more := PackAll(big, items[1..], values[n..], room - |b|).bytes;
      ItemsCons(items, values);
      ItemComesBack(big, items[0], values, room, more + tail);
      RoundTrip(big, items[1..], values[n..], room - |b|, tail);
      UnpackCons(big, items, b, more + tail, values);
      assert b + more + tail == b + (more + tail);
    }
  }

  lemma NoItems(big: bool, values: seq<Value>, room: nat, tail: seq<Byte>)
    requires |values| == TotalUsed([])
    ensures Typed([], values) && PackAll(big, [], values, room) == Done([]) && UnpackAll(big, [], [] + tail) == Values(values, 0)
    ensures Faithful([], values)
  {
  }

  lemma ItemsCons(items: seq<Item>, values: seq<Value>)
    requires items != [] && AllKnown(items) && Used(items[0]) <= |values|
    ensures Known(items[0].kind) && AllKnown(items[1..]) && TotalUsed(items) == Used(items[0]) + TotalUsed(items[1..])
    ensures Faithful(items, values) <==> FaithfulItem(items[0], values) && Faithful(items[1..], values[Used(items[0])..])
  {
    hide FaithfulItem;
  }

  // ----- lengths -----

  /** A calculated length: a number, NaN where a string should be and a number is, an exception where nothing is. */
  datatype Size = Bytes(n: nat) | NotANumber | TypeError

  /** calcLength from value i on. */
  function CalcLen(items: seq<Item>, values: seq<Value>, i: nat): Size {
    if items == [] then Size.Bytes(0)
    else
      var rest := CalcLen(items[1..], values, if items[0].kind.Skip? then i else i + 1);
      if !items[0].kind.NulText? then Plus(Size.Bytes(items[0].count * UnitSize(items[0].kind)), rest)
      else if i >= |values| then TypeError
      else Plus(if values[i].Str? then Size.Bytes(|values[i].codes| + 1) else NotANumber, rest)
  }

  /** sum += n: NaN stays NaN, and an exception ends it all. */
  function Plus(a: Size, b: Size): Size {
    if a.TypeError? || b.TypeError? then TypeError
    else if a.NotANumber? || b.NotANumber? then NotANumber
    else Size.Bytes(a.n + b.n)
  }

  /** What a format takes apart from the characters of its terminated strings. */
  function FixedSize(items: seq<Item>): nat {
    if items == [] then 0
    else (if items[0].kind.NulText? then 1 else items[0].count * UnitSize(items[0].kind)) + FixedSize(items[1..])
  }

  function Codes(values: seq<Value>, i: nat): nat {
    if i < |values| && values[i].Str? then |values[i].codes| else 0
  }

  /** The characters of the strings that packTo writes from value i on, and of those that calcLength measures. */
  function TextPacked(items: seq<Item>, values: seq<Value>, i: nat): nat {
    if items == [] then 0
    else (if items[0].kind.NulText? then Codes(values, i) else 0) + TextPacked(items[1..], values, i + Used(items[0]))
  }

  function TextMeasured(items: seq<Item>, values: seq<Value>, i: nat): nat {
    if items == [] then 0
    else
      (if items[0].kind.NulText? then Codes(values, i) else 0)
      + TextMeasured(items[1..], values, if items[0].kind.Skip? then i else i + 1)
  }

  predicate NoNulText(items: seq<Item>) {
    forall i :: 0 <= i < |items| ==> !items[i].kind.NulText?
  }

  /** No repeat count in front of a terminated string: the position of an element is that of its value. */
  predicate Aligned(items: seq<Item>) {
    items == [] || ((Series(items[0].kind) ==> items[0].count == 1 || NoNulText(items[1..])) && Aligned(items[1..]))
  }

  /** When one element is packed, and how many bytes it takes. */
  lemma ItemLength(big: bool, item: Item, values: seq<Value>, room: nat)
    requires TypedItem(item, values)
    ensures item.kind.NulText? && values != [] ==> values[0].Str?
    ensures PackItem(big, item, values, room).Done? <==>
      && Used(item) <= |values|
      && (if item.kind.NulText? then |values[0].codes| + 1 else item.count * UnitSize(item.kind)) <= room
    ensures PackItem(big, item, values, room).Done? ==>
      |PackItem(big, item, values, room).bytes| == if item.kind.NulText? then |values[0].codes| + 1 else item.count * UnitSize(item.kind)
  {
  }

  /** packTo succeeds exactly when there are values enough and room for all of them, and then writes so much. */
  lemma {:induction false} PackSize(big: bool, items: seq<Item>, all: seq<Value>, j: nat, room: nat)
    requires j <= |all| && Typed(items, all[j..])
    ensures PackAll(big, items, all[j..], room).Done?
      <==> |all| - j >= TotalUsed(items) && FixedSize(items) + TextPacked(items, all, j) <= room
    ensures PackAll(big, items, all[j..], room).Done? ==>
      |PackAll(big, items, all[j..], room).bytes| == FixedSize(items) + TextPacked(items, all, j)
    decreases |items|
  {
    hide PackAll, PackItem, TypedItem, Typed, Prepend, UnitSize;
    if items == [] {
      NothingToPack(big, all[j..], room);
    } else {
      var item, values, n := items[0], all[j..], Used(items[0]);
      PackCons(big, items, values, room);
      ItemLength(big, item, values, room);
      if PackItem(big, item, values, room).Done? {
        assert values[n..] == all[j + n..];
        PackSize(big, items[1..], all, j + n, room - |PackItem(big, item, values, room).bytes|);
      }
    }
  }

  /** calcLength gives what packTo writes exactly when the strings it measures are as long as those packed. */
  lemma {:induction false} CalcLenExact(items: seq<Item>, values: seq<Value>, i: nat, j: nat)
    ensures var size := CalcLen(items, values, i);
      size.Bytes? ==>
        && size.n == FixedSize(items) + TextMeasured(items, values, i)
        && (size.n == FixedSize(items) + TextPacked(items, values, j)
            <==> TextMeasured(items, values, i) == TextPacked(items, values, j))
  {
    if items != [] {
      CalcLenExact(items[1..], values, if items[0].kind.Skip? then i else i + 1, j + Used(items[0]));
    }
  }

  /** Without a repeat count in front of a terminated string they are the same strings. */
  lemma {:induction false} AlignedMeasures(items: seq<Item>, values: seq<Value>, i: nat, j: nat)
    requires Aligned(items) && (i == j || NoNulText(items))
    ensures TextMeasured(items, values, i) == TextPacked(items, values, j)
  {
    if items != [] {
      AlignedMeasures(items[1..], values, if items[0].kind.Skip? then i else i + 1, j + Used(items[0]));
    }
  }

  lemma NothingToPack(big: bool, values: seq<Value>, room: nat)
    ensures Typed([], values) && PackAll(big, [], values, room) == Done([])
  {
  }

  // ----- the codec -----

  /** A format string: its byte order, and its elements. */
  datatype Format = Format(big: bool, items: seq<Item>)

  /** What JavaScript's bitwise operators make of an integer. */
  function ToInt32(n: int): (r: int)
    ensures -TWO_TO_THE_32 / 2 <= r < TWO_TO_THE_32 / 2
  {
    var low := n % TWO_TO_THE_32;
    if low >= TWO_TO_THE_32 / 2 then low - TWO_TO_THE_32 else low
  }

  /** How packing ends: with its array, with false, with an exception, or with what the platform makes of NaN bytes. */
  datatype Reply = Wrote | ReturnedFalse | Threw | Undetermined

  /** The turn at which byte i of an integer is written. */
  function Turn(big: bool, len: nat, i: nat): (k: nat)
    requires i < len
    ensures k < len
  {
    if big then len - 1 - i else i
  }

  /** charCodeAt, with zero for what is not there. */
  function CodeAt(codes: seq<Byte>, i: nat): Byte {
    if i < |codes| then codes[i] else 0
  }

  /** The codec object, with the two variables its functions share. */
  class Codec {
    var bBE: bool
    var el: Kind

    constructor ()
      ensures !bBE
    {
      bBE, el := false, Raw;
    }

    /** _EnInt: a byte at a time, v & 0xff, then v >>= 8. */
    method EnInt(a: array<Byte>, p: nat, v0: int)
      requires el.Int? && Known(el) && p + el.len <= a.Length
      modifies a
      ensures a[..] == old(a[..p]) + IntBytes(bBE, el, v0) + old(a[p + el.len..])
    {
      hide LE, Pow256, Min, Max, ToInt32, Ordered;
      var len: int := el.len;
      var lsb, nsb := if bBE then len - 1 else 0, if bBE then -1 else 1;
      var stop := lsb + nsb * len;
      assert stop == if bBE then -1 else len;
      var v := if v0 < Min(el) then Min(el) else if v0 > Max(el) then Max(el) else v0;
      ghost var bytes := LE(v, el.len);
      ghost var k := 0;
      var i := lsb;
      while i != stop
        invariant 0 <= k <= len && i == (if bBE then len - 1 - k else k)
        invariant LE(v, el.len - k) == bytes[k..]
        invariant forall x :: p <= x < p + len && Turn(bBE, len, x - p) < k ==> a[x] == bytes[Turn(bBE, len, x - p)]
        invariant forall x :: 0 <= x < a.Length && (x < p || x >= p + len) ==> a[x] == old(a[x])
        decreases len - k
      {
        a[p + i] := ToInt32(v) % 256;
        LowByte(v, el.len - k);
        assert bytes[k] == bytes[k..][0] && bytes[k + 1..] == bytes[k..][1..];
        i, v, k := i + nsb, ToInt32(v) / 256, k + 1;
      }
      Placed(a, p, bBE, bytes, old(a[..]));
    }

    /** _DeInt */
    method DeInt(a: seq<Byte>, p: nat) returns (rv: int)
      requires el.Int? && Known(el) && p + el.len <= |a|
      ensures rv == BytesInt(bBE, el, a[p..p + el.len])
    {
      hide FromLE, Pow256;
      var len: int := el.len;
      var lsb, nsb := if bBE then len - 1 else 0, if bBE then -1 else 1;
      var stop := lsb + nsb * len;
      assert stop == if bBE then -1 else len;
      ghost var bytes := Ordered(bBE, a[p..p + len]);
      ghost var k := 0;
      var i: int, f: int := lsb, 1;
      rv := 0;
      NoBytes();
      while i != stop
        invariant 0 <= k <= len && i == if bBE then len - 1 - k else k
        invariant f == Pow256(k) && rv == FromLE(bytes[..k])
        decreases len - k
      {
        FromLESnoc(bytes[..k], bytes[k]);
        assert bytes[..k] + [bytes[k]] == bytes[..k + 1] && bytes[k] == a[p + i];
        rv, i, f, k := rv + a[p + i] * f, i + nsb, f * 256, k + 1;
      }
      assert bytes[..k] == bytes;
      if el.signed && rv >= Pow256(el.len) / 2 { rv := rv - Pow256(el.len); }
    }

    /** _EnString and _EnArray: l codes, zeros where there are none. */
    method EnString(a: array<Byte>, p: nat, l: nat, v: seq<Byte>)
      requires p + l <= a.Length
      modifies a
      ensures a[..] == old(a[..p]) + Fill(v, l) + old(a[p + l..])
    {
      for i := 0 to l
        invariant forall x :: p <= x < p + i ==> a[x] == CodeAt(v, x - p)
        invariant forall x :: 0 <= x < a.Length && (x < p || x >= p + i) ==> a[x] == old(a[x])
      {
        a[p + i] := CodeAt(v, i);
      }
      FillCodes(v, l);
      assert a[p..p + l] == Fill(v, l);
      assert a[..] == a[..p] + a[p..p + l] + a[p + l..];
    }

    /** One unit: _EnInt, or _EnChar, the code of the first character or zero. */
    method EnUnit(a: array<Byte>, p: nat, v: Value)
      requires Series(el) && Known(el) && TypedAs(el, v) && p + UnitSize(el) <= a.Length
      modifies a
      ensures a[..] == old(a[..p]) + UnitBytes(bBE, el, v) + old(a[p + UnitSize(el)..])
    {
      if el.Int? {
        EnInt(a, p, v.n);
      } else {
        EnString(a, p, 1, v.codes);
      }
    }

    /** _PackSeries */
    method PackSeries(n: nat, a: array<Byte>, p: nat, v: seq<Value>, i: nat)
      requires Series(el) && Known(el) && i + n <= |v| && AllTyped(el, v[i..i + n]) && p + n * UnitSize(el) <= a.Length
      modifies a
      ensures a[..] == old(a[..p]) + Units(bBE, el, v[i..i + n]) + old(a[p + n * UnitSize(el)..])
    {
      hide *;
      var s, o := UnitSize(el), 0;
      ghost var was, written: seq<Byte> := a[..], [];
      NoUnits(bBE, el);
      assert v[i..i] == [];
      while o < n
        invariant 0 <= o <= n && |written| == o * s && p + n * s <= a.Length == |was|
        invariant AllTyped(el, v[i..i + o]) && written == Units(bBE, el, v[i..i + o])
        invariant p + |written| <= a.Length && a[..] == was[..p] + written + was[p + |written|..]
      {
        NextUnit(bBE, el, v, i, o, s, n);
        EnUnit(a, p + o * s, v[i + o]);
        Spliced(was, p, written, UnitBytes(bBE, el, v[i + o]), a[..]);
        written := written + UnitBytes(bBE, el, v[i + o]);
        o := o + 1;
      }
    }

    /** What packTo does with one element of the format, at an offset and from a value on. */
    method PackOne(item: Item, a: array<Byte>, p: nat, values: seq<Value>, i: nat) returns (r: Reply, size: nat, used: nat)
      requires Known(item.kind) && p <= a.Length && i <= |values| && TypedItem(item, values[i..])
      modifies this`el, a
      ensures bBE == old(bBE)
      ensures match PackItem(bBE, item, values[i..], a.Length - p)
        case Done(b) => r == Wrote && size == |b| && used == Used(item) && a[..] == old(a[..p]) + b + old(a[p + |b|..])
        case Refused => r == ReturnedFalse && a[..] == old(a[..])
        case Throws => r == Threw && a[..] == old(a[..])
    {
      hide Units, Fill, AllTyped, Known;
      var kind, n := item.kind, item.count;
      size, used := 0, 0;
      if kind.NulText? {
        if i == |values| { return Threw, 0, 0; }
        n := |values[i].codes| + 1;
        FillNul(values[i].codes);
      }
      if p + n * UnitSize(kind) > a.Length { return ReturnedFalse, 0, 0; }
      if kind.Raw? || kind.Text? || kind.NulText? {
        if i + 1 > |values| { return ReturnedFalse, 0, 0; }
        EnString(a, p, n, values[i].codes);
        used := 1;
      } else if Series(kind) {
        el := kind;
        if i + n > |values| { return ReturnedFalse, 0, 0; }
        assert values[i..][..n] == values[i..i + n];
        SeriesTyped(item, values[i..]);
        PackSeries(n, a, p, values, i);
        used := n;
      } else {
        EnString(a, p, n, []);
        FillNothing(n);
      }
      r, size := Wrote, n * UnitSize(kind);
    }

    /** packTo */
    method PackTo(fmt: Format, a: array<Byte>, p: nat, values: seq<Value>) returns (r: Reply)
      requires AllKnown(fmt.items) && Typed(fmt.items, values) && p <= a.Length
      modifies this, a
      ensures match PackAll(fmt.big, fmt.items, values, a.Length - p)
        case Done(bytes) => r == Wrote && a[..] == old(a[..p]) + bytes + old(a[p + |bytes|..])
        case Refused => r == ReturnedFalse && a[..p] == old(a[..p])
        case Throws => r == Threw && a[..p] == old(a[..p])
    {
      hide *;
      bBE := fmt.big;
      var items, k: nat, i: nat, q: nat := fmt.items, 0, 0, p;
      ghost var was, written: seq<Byte>, whole := a[..], [], PackAll(fmt.big, items, values, a.Length - p);
      NothingDone(whole, bBE, items, values, a.Length - p);
      while k < |items|
        invariant 0 <= k <= |items| && i <= |values| && p <= q == p + |written| <= a.Length && bBE == fmt.big
        invariant Halfway(whole, written, bBE, items, k, values, i, a.Length - q)
        invariant a[..] == was[..p] + written + was[q..]
      {
        OneKnown(items, k);
        PackStep(whole, written, bBE, items, k, values, i, a.Length - q);
        var reply, size, used := PackOne(items[k], a, q, values, i);
        var first := PackItem(bBE, items[k], values[i..], a.Length - q);
        if reply != Wrote {
          assert a[..p] == a[..][..p] && was[..p] == old(a[..p]);
          return reply;
        }
        Spliced(was, p, written, first.bytes, a[..]);
        written := written + first.bytes;
        k, i, q := k + 1, i + used, q + size;
      }
      AllDone(whole, written, bBE, items, values, i, a.Length - q);
      r := Wrote;
    }

    /** _UnpackSeries */
    method UnpackSeries(n: nat, a: seq<Byte>, p: nat) returns (rv: seq<Value>)
      requires Series(el) && Known(el) && p + n * UnitSize(el) <= |a|
      ensures rv == ReadUnits(bBE, el, n, a[p..])
    {
      hide *;
      var s := UnitSize(el);
      rv := [];
      var i := 0;
      assert a[p + 0..] == a[p..];
      while i < n
        invariant 0 <= i <= n && i * s >= 0 && p + i * s <= |a| && (n - i) * s <= |a[p + i * s..]|
        invariant rv + ReadUnits(bBE, el, n - i, a[p + i * s..]) == ReadUnits(bBE, el, n, a[p..])
      {
        ReadNext(bBE, el, n - i, a[p + i * s..], s);
        Offsets(i, s, n);
        OffsetsLeft(i, s, n);
        assert a[p + i * s..][..s] == a[p + i * s..p + i * s + s] && a[p + i * s..][s..] == a[p + i * s + s..];
        UnitValues(bBE, el, a[p + i * s..p + i * s + s]);
        var v;
        if el.Int? {
          var number := DeInt(a, p + i * s);
          v := Num(number);
        } else {
          v := Str(a[p + i * s..p + i * s + s]);
        }
        rv, i := rv + [v], i + 1;
      }
      ReadNone(bBE, el, a[p + i * s..]);
    }

    /** What unpack does with one element of the format; the search for a zero byte ends only at one. */
    method UnpackOne(item: Item, a: seq<Byte>, p: nat) returns (r: Unpacking)
      requires Known(item.kind) && p <= |a|
      modifies this`el
      ensures r == UnpackItem(bBE, item, a[p..])
    {
      var kind, n := item.kind, item.count;
      if kind.NulText? {
        n := 0;
        while p + n < |a| && a[p + n] != 0
          invariant p + n <= |a| && forall j :: p <= j < p + n ==> a[j] != 0
          decreases |a| - n
        {
          n := n + 1;
        }
        FirstZeroAt(a[p..], n);
        if p + n == |a| { return Hangs; }
        n := n + 1;
      }
      if p + n * UnitSize(kind) > |a| { return Undefined; }
      if kind.NulText? {
        assert a[p..p + n - 1] == a[p..][..n - 1];
        r := Values([Str(a[p..p + n - 1])], n);
      } else if Series(kind) {
        el := kind;
        var rv := UnpackSeries(n, a, p);
        r := Values(rv, n * UnitSize(kind));
      } else if kind.Skip? {
        r := Values([], n);
      } else {
        assert a[p..p + n] == a[p..][..n];
        r := Values([Str(a[p..p + n])], n);
      }
    }

    /** unpack */
    method Unpack(fmt: Format, a: seq<Byte>, p0: nat) returns (r: Unpacking)
      requires AllKnown(fmt.items) && p0 <= |a|
      modifies this
      ensures r == UnpackAll(fmt.big, fmt.items, a[p0..])
    {
      hide *;
      bBE := fmt.big;
      var items, k: nat, p: nat, rv: seq<Value> := fmt.items, 0, p0, [];
      ghost var whole := UnpackAll(fmt.big, items, a[p0..]);
      assert items[0..] == items;
      AfterNothing(whole);
      while k < |items|
        invariant 0 <= k <= |items| && p0 <= p <= |a| && bBE == fmt.big
        invariant whole == After(rv, p - p0, UnpackAll(bBE, items[k..], a[p..]))
      {
        OneKnown(items, k);
        var one := UnpackOne(items[k], a, p);
        UnpackStep(rv, p - p0, bBE, items[k..], a[p..]);
        if !one.Values? { return one; }
        assert items[k..][1..] == items[k + 1..] && a[p..][one.size..] == a[p + one.size..];
        rv, k, p := rv + one.values, k + 1, p + one.size;
      }
      assert items[k..] == [];
      UnpackedAll(bBE, a[p..], rv, p - p0);
      r := Values(rv, p - p0);
    }

    /** calcLength */
    method CalcLength(items: seq<Item>, values: seq<Value>) returns (sum: Size)
      ensures sum == CalcLen(items, values, 0)
    {
      var i, k := 0, 0;
      sum := Size.Bytes(0);
      assert items[0..] == items;
      while k < |items|
        invariant 0 <= k <= |items| && !sum.TypeError?
        invariant CalcLen(items, values, 0) == Plus(sum, CalcLen(items[k..], values, i))
      {
        var n := Size.Bytes(items[k].count * UnitSize(items[k].kind));
        assert items[k..][1..] == items[k + 1..];
        if items[k].kind.NulText? {
          if i >= |values| { return TypeError; }
          n := if values[i].Str? then Size.Bytes(|values[i].codes| + 1) else NotANumber;
        }
        sum := Plus(sum, n);
        if !items[k].kind.Skip? { i := i + 1; }
        k := k + 1;
      }
    }

    /**
      pack: packTo into a buffer of the calculated length. It succeeds exactly when there are values enough and
      the strings measured are as long as those packed, at least; then the buffer begins with the bytes, and
      is filled when they are just as long. What a buffer of NaN bytes is depends on the platform.
     */
    method Pack(fmt: Format, values: seq<Value>) returns (r: Reply, a: array<Byte>)
      requires AllKnown(fmt.items) && Typed(fmt.items, values)
      modifies this
      ensures fresh(a)
      ensures match CalcLen(fmt.items, values, 0)
        case TypeError => r == Threw
        case NotANumber => r == Undetermined
        case Bytes(n) =>
          var measured, packed := TextMeasured(fmt.items, values, 0), TextPacked(fmt.items, values, 0);
          && a.Length == n && (r == Wrote <==> |values| >= TotalUsed(fmt.items) && packed <= measured)
          && (r == Wrote ==> (var p := PackAll(fmt.big, fmt.items, values, n);
                              p.Done? && p.bytes <= a[..] && (p.bytes == a[..] <==> packed == measured)))
    {
      hide *;
      var sum := CalcLength(fmt.items, values);
      a := new Byte[if sum.Bytes? then sum.n else 0];
      if sum.TypeError? { return Threw, a; }
      if sum.NotANumber? { return Undetermined, a; }
      assert values[0..] == values;
      CalcLenExact(fmt.items, values, 0, 0);
      PackSize(fmt.big, fmt.items, values, 0, a.Length);
      r := PackTo(fmt, a, 0, values);
      if r == Wrote {
        var p := PackAll(fmt.big, fmt.items, values, a.Length);
        assert p.bytes <= a[..];
        if |p.bytes| == a.Length { assert p.bytes == a[..]; }
      }
    }
  }

  lemma NoBytes()
    ensures FromLE([]) == 0 && Pow256(0) == 1
  {
  }

  lemma Placed(a: array<Byte>, p: nat, big: bool, bytes: seq<Byte>, was: seq<Byte>)
    requires |was| == a.Length && p + |bytes| <= a.Length
    requires forall x :: p <= x < p + |bytes| ==> a[x] == bytes[Turn(big, |bytes|, x - p)]
    requires forall x :: 0 <= x < a.Length && (x < p || x >= p + |bytes|) ==> a[x] == was[x]
    ensures a[..] == was[..p] + Ordered(big, bytes) + was[p + |bytes|..]
  {
    assert a[p..p + |bytes|] == Ordered(big, bytes);
    assert a[..] == a[..p] + a[p..p + |bytes|] + a[p + |bytes|..];
  }

  lemma {:induction false} FromLESnoc(bs: seq<Byte>, b: Byte)
    ensures FromLE(bs + [b]) == FromLE(bs) + b * Pow256(|bs|) && Pow256(|bs| + 1) == 256 * Pow256(|bs|)
  {
    if bs == [] {
      assert FromLE([b]) == b + 256 * FromLE([]);
    } else {
      FromLESnoc(bs[1..], b);
      assert (bs + [b])[1..] == bs[1..] + [b];
      ScaleUp(b, Pow256(|bs| - 1), FromLE(bs[1..]));
    }
  }

  lemma ScaleUp(b: int, p: int, n: int)
    ensures 256 * (n + b * p) == 256 * n + b * (256 * p)
  {
  }

  /** What is left of a number after its low byte, though the shift first cuts it to 32 bits. */
  lemma LowByte(v: int, len: nat)
    requires 0 < len <= 4
    ensures ToInt32(v) % 256 == v % 256 && LE(v, len) == [v % 256] + LE(ToInt32(v) / 256, len - 1)
  {
    var j := Cut32(v);
    assert LE(v / 256, len - 1) == LE(v / 256 - j * 0x100_0000, len - 1) by { SameLow(v / 256, j, len - 1); }
  }

  lemma Cut32(v: int) returns (j: int)
    ensures ToInt32(v) == v - j * TWO_TO_THE_32 && ToInt32(v) % 256 == v % 256 && ToInt32(v) / 256 == v / 256 - j * 0x100_0000
  {
    j := if v % TWO_TO_THE_32 >= TWO_TO_THE_32 / 2 then v / TWO_TO_THE_32 + 1 else v / TWO_TO_THE_32;
    hide *;
    CutValue(v, j);
    Borrow(v, j * 0x100_0000);
  }

  lemma CutValue(v: int, j: int)
    requires j == if v % TWO_TO_THE_32 >= TWO_TO_THE_32 / 2 then v / TWO_TO_THE_32 + 1 else v / TWO_TO_THE_32
    ensures ToInt32(v) == v - j * TWO_TO_THE_32 && TWO_TO_THE_32 == 256 * 0x100_0000
  {
  }

  lemma Borrow(v: int, m: int)
    ensures (v - 256 * m) % 256 == v % 256 && (v - 256 * m) / 256 == v / 256 - m
  {
  }

  /** Multiples of 2^24 do not reach the low three bytes. */
  lemma SameLow(v: int, j: int, len: nat)
    requires len <= 3
    ensures LE(v - j * 0x100_0000, len) == LE(v, len)
  {
    if len > 0 {
      assert (v - j * 0x100_0000) / 256 == v / 256 - j * 0x1_0000;
      if len > 1 {
        assert (v / 256 - j * 0x1_0000) / 256 == v / 256 / 256 - j * 0x100;
      }
    }
  }

  lemma NoUnits(big: bool, kind: Kind)
    requires Series(kind)
    ensures AllTyped(kind, []) && AllFaithful(kind, []) && Units(big, kind, []) == []
  {
  }

  lemma NextUnit(big: bool, kind: Kind, v: seq<Value>, i: nat, o: nat, s: nat, n: nat)
    requires Series(kind) && i + n <= |v| && AllTyped(kind, v[i..i + n]) && o < n && s == UnitSize(kind)
    ensures TypedAs(kind, v[i + o]) && AllTyped(kind, v[i..i + o]) && AllTyped(kind, v[i..i + o + 1])
    ensures Units(big, kind, v[i..i + o + 1]) == Units(big, kind, v[i..i + o]) + UnitBytes(big, kind, v[i + o])
    ensures |UnitBytes(big, kind, v[i + o])| == s && (o + 1) * s == o * s + s <= n * s
  {
    hide Units, UnitBytes, UnitSize, TypedAs;
    assert v[i..i + n][o] == v[i + o] && v[i..i + o + 1] == v[i..i + o] + [v[i + o]];
    assert v[i..i + o] == v[i..i + n][..o];
    UnitsSnoc(big, kind, v[i..i + o], v[i + o]);
    Offsets(o, s, n);
  }

  lemma Offsets(o: nat, s: nat, n: nat)
    requires o < n
    ensures (o + 1) * s == o * s + s <= n * s
  {
    var m: nat := n - (o + 1);
    Distribute(o, 1, s);
    Distribute(o + 1, m, s);
  }

  lemma Distribute(a: nat, b: nat, s: nat)
    ensures (a + b) * s == a * s + b * s && b * s >= 0
  {
  }

  lemma {:induction false} UnitsSnoc(big: bool, kind: Kind, vs: seq<Value>, v: Value)
    requires Series(kind) && AllTyped(kind, vs) && TypedAs(kind, v)
    ensures AllTyped(kind, vs + [v]) && Units(big, kind, vs + [v]) == Units(big, kind, vs) + UnitBytes(big, kind, v)
  {
    hide UnitBytes;
    if vs != [] {
      UnitsSnoc(big, kind, vs[1..], v);
      assert (vs + [v])[1..] == vs[1..] + [v];
    }
  }

  /** Writing behind what has been written. */
  lemma Spliced(was: seq<Byte>, p: nat, written: seq<Byte>, more: seq<Byte>, now: seq<Byte>)
    requires p + |written| + |more| <= |was|
    requires var before := was[..p] + written + was[p + |written|..];
      now == before[..p + |written|] + more + before[p + |written| + |more|..]
    ensures now == was[..p] + (written + more) + was[p + |written + more|..]
  {
  }

  lemma {:induction false} FirstZeroAt(bs: seq<Byte>, n: nat)
    requires n <= |bs| && (forall j :: 0 <= j < n ==> bs[j] != 0) && (n < |bs| ==> bs[n] == 0)
    ensures FirstZero(bs) == if n < |bs| then Some(n) else None
  {
    if n > 0 { FirstZeroAt(bs[1..], n - 1); }
  }

  lemma AfterNothing(whole: Unpacking)
    ensures After([], 0, whole) == whole
  {
  }

  lemma UnpackStep(rv: seq<Value>, n: nat, big: bool, items: seq<Item>, bs: seq<Byte>)
    requires items != []
    ensures var one := UnpackItem(big, items[0], bs);
      After(rv, n, UnpackAll(big, items, bs))
        == if one.Values? then After(rv + one.values, n + one.size, UnpackAll(big, items[1..], bs[one.size..])) else one
  {
    hide UnpackItem, UnpackAll;
    var one := UnpackItem(big, items[0], bs);
    UnpackHead(big, items, bs);
    if one.Values? {
      var rest := UnpackAll(big, items[1..], bs[one.size..]);
      if rest.Values? { assert rv + (one.values + rest.values) == rv + one.values + rest.values; }
    }
  }

  lemma UnpackHead(big: bool, items: seq<Item>, bs: seq<Byte>)
    requires items != []
    ensures var one := UnpackItem(big, items[0], bs);
      UnpackAll(big, items, bs) == if one.Values? then After(one.values, one.size, UnpackAll(big, items[1..], bs[one.size..])) else one
  {
    hide UnpackItem, After;
  }

  lemma UnpackedAll(big: bool, bs: seq<Byte>, rv: seq<Value>, n: nat)
    ensures After(rv, n, UnpackAll(big, [], bs)) == Values(rv, n)
  {
  }

  lemma OffsetsLeft(o: nat, s: nat, n: nat)
    requires o < n
    ensures (n - o) * s == s + (n - (o + 1)) * s && n * s == o * s + (n - o) * s
  {
  }

  lemma ReadNext(big: bool, kind: Kind, n: nat, bs: seq<Byte>, s: nat)
    requires Series(kind) && n > 0 && s == UnitSize(kind) && n * s <= |bs|
    ensures s <= |bs| && (n - 1) * s <= |bs[s..]|
    ensures ReadUnits(big, kind, n, bs) == [UnitValue(big, kind, bs[..s])] + ReadUnits(big, kind, n - 1, bs[s..])
  {
    Offsets(0, s, n);
    OffsetsLeft(0, s, n);
    hide UnitValue;
  }

  lemma ReadNone(big: bool, kind: Kind, bs: seq<Byte>)
    requires Series(kind)
    ensures 0 * UnitSize(kind) == 0 && ReadUnits(big, kind, 0, bs) == []
  {
  }

  lemma UnitValues(big: bool, kind: Kind, bs: seq<Byte>)
    requires Series(kind) && |bs| == UnitSize(kind)
    ensures if kind.Int? then kind.len == |bs| && UnitValue(big, kind, bs) == Num(BytesInt(big, kind, bs))
            else UnitValue(big, kind, bs) == Str(bs)
  {
  }

  lemma FillCodes(codes: seq<Byte>, l: nat)
    ensures forall j :: 0 <= j < l ==> Fill(codes, l)[j] == CodeAt(codes, j) == if j < |codes| then codes[j] else 0
  {
  }

  lemma FillNothing(n: nat)
    ensures Fill([], n) == Zeros(n)
  {
  }

  lemma SeriesTyped(item: Item, values: seq<Value>)
    requires Series(item.kind) && TypedItem(item, values) && item.count <= |values|
    ensures AllTyped(item.kind, values[..item.count])
  {
  }

  lemma FillNul(codes: seq<Byte>)
    ensures Fill(codes, |codes| + 1) == codes + [0]
  {
    assert Zeros(1) == [0];
  }

  lemma OneKnown(items: seq<Item>, k: nat)
    requires AllKnown(items) && k < |items|
    ensures Known(items[k].kind)
  {
  }

  /** What has been written, and what remains of the format, make up the whole. */
  ghost predicate Halfway(whole: Packing, written: seq<Byte>, big: bool, items: seq<Item>, k: nat, values: seq<Value>, i: nat, room: nat) {
    && k <= |items| && i <= |values| && Typed(items[k..], values[i..])
    && whole == Prepend(written, PackAll(big, items[k..], values[i..], room))
  }

  lemma NothingDone(whole: Packing, big: bool, items: seq<Item>, values: seq<Value>, room: nat)
    requires Typed(items, values) && whole == PackAll(big, items, values, room)
    ensures Halfway(whole, [], big, items, 0, values, 0, room)
  {
    hide PackAll, Typed;
    assert items[0..] == items && values[0..] == values;
  }

  lemma PackStep(whole: Packing, written: seq<Byte>, big: bool, items: seq<Item>, k: nat, values: seq<Value>, i: nat, room: nat)
    requires Halfway(whole, written, big, items, k, values, i, room) && k < |items|
    ensures i <= |values| && TypedItem(items[k], values[i..])
    ensures var first := PackItem(big, items[k], values[i..], room);
      && (!first.Done? ==> whole == first)
      && (first.Done? ==>
            && i + Used(items[k]) <= |values| && |first.bytes| <= room
            && Halfway(whole, written + first.bytes, big, items, k + 1, values, i + Used(items[k]), room - |first.bytes|))
  {
    hide PackAll, PackItem, Typed, TypedItem, Used;
    PackCons(big, items[k..], values[i..], room);
    var first := PackItem(big, items[k], values[i..], room);
    if first.Done? {
      var next := i + Used(items[k]);
      assert items[k..][1..] == items[k + 1..] && values[i..][Used(items[k])..] == values[next..];
      var rest := PackAll(big, items[k + 1..], values[next..], room - |first.bytes|);
      if rest.Done? { assert written + (first.bytes + rest.bytes) == written + first.bytes + rest.bytes; }
    }
  }

  lemma AllDone(whole: Packing, written: seq<Byte>, big: bool, items: seq<Item>, values: seq<Value>, i: nat, room: nat)
    requires Halfway(whole, written, big, items, |items|, values, i, room)
    ensures whole == Done(written)
  {
  }
}
