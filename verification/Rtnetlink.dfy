/**
  Route netlink messages: how they are put together, and how they are read back into attributes by name.
  Sections 2.2 and 2.3.2 of RFC 3549 give the header and the attribute layout.
 */
module Rtnetlink {
  import opened BufferPack
  import opened Bytes
  import opened Options
  import T = TlvTree

  const NLMSG_HDRLEN: nat := 16
  const NLMSG_DONE: nat := 3
  const RTM_BASE: nat := 16
  const RTM_DELNEIGH: nat := 29
  const RTM_GETNEIGH: nat := 30

  const U8: Item := Item(1, Int(1, false))
  const U16: Item := Item(1, Int(2, false))
  const U32: Item := Item(1, Int(4, false))
  const S32: Item := Item(1, Int(4, true))

  /** The formats are all little-endian. */
  const NLMSG_HDR: seq<Item> := [U32, U16, U16, U32, U32]
  const IFINFOMSG: seq<Item> := [U8, U8, U16, S32, U32, U32]
  const IFADDRMSG: seq<Item> := [U8, U8, U8, U8, U32]
  const RTMSG: seq<Item> := [U8, U8, U8, U8, U8, U8, U8, U8, U32]
  const NDMSG: seq<Item> := [U8, U8, U16, U32, U16, U8, U8]

  const LINK_NAMES: seq<string> := [
    "unspec", "address", "broadcast", "ifname", "mtu", "link", "qdisc", "stats", "cost", "priority", "master",
    "wireless", "protinfo", "txqlen", "map", "weight", "operstate", "linkmode", "linkinfo", "net_ns_pid", "ifalias",
    "num_vf", "vfinfo_list", "stats64", "vf_ports", "port_self", "af_spec", "group", "net_ns_fd", "ext_mask",
    "promiscuity", "num_tx_queues", "num_rx_queues", "carrier", "phys_port_id", "carrier_changes"]
  const ADDR_NAMES: seq<string> := [
    "unspec", "address", "local", "label", "broadcast", "anycast", "cacheinfo", "multicast", "flags"]
  const ROUTE_NAMES: seq<string> := [
    "unspec", "dst", "src", "iif", "oif", "gateway", "priority", "prefsrc", "metrics", "multipath", "protoinfo",
    "flow", "cacheinfo", "session", "mp_algo", "table", "mark", "mfc_stats"]
  const NEIGH_NAMES: seq<string> := [
    "unspec", "dst", "lladdr", "cacheinfo", "probes", "vlan", "port", "vni", "ifindex", "master"]

  /** The beginnings of payload_sizes and rtm_types_name_map, up to RTM_GETNEIGH. */
  const PAYLOAD_SIZES: seq<nat> := [16, 16, 16, 16, 8, 8, 8, 12, 12, 12, 12, 12, 12, 8, 8]
  const TYPE_NAMES: seq<string> := [
    "newLink", "delLink", "getLink", "setLink", "newAddress", "delAddress", "getAddress", "undefined",
    "newRoute", "delRoute", "getRoute", "undefined", "newNeighbor", "delNeighbor", "getNeighbor"]

  /** The template and the attribute names of a message type; None where the type is not supported. */
  function Family(typ: nat): (f: Option<(seq<Item>, seq<string>)>)
    ensures f.Some? ==> RTM_BASE <= typ <= RTM_GETNEIGH
  {
    if 16 <= typ <= 18 then Some((IFINFOMSG, LINK_NAMES))
    else if 20 <= typ <= 22 then Some((IFADDRMSG, ADDR_NAMES))
    else if 24 <= typ <= 26 then Some((RTMSG, ROUTE_NAMES))
    else if 28 <= typ <= 30 then Some((NDMSG, NEIGH_NAMES))
    else None
  }

  // ----- attributes -----

  datatype Attr = Attr(typ: nat, data: seq<Byte>)

  /** A field as the parser gives it: bytes, or ASCII text by its character codes. */
  datatype Field = Slice(data: seq<Byte>) | Name(codes: seq<Byte>)

  predicate Contains(s: string, t: string) {
    t <= s || (s != [] && Contains(s[1..], t))
  }

  /** The test /name|label/. */
  predicate IsText(key: string) {
    Contains(key, "name") || Contains(key, "label")
  }

  /** toString('ascii'): the top bit is dropped. */
  function Ascii(bs: seq<Byte>): (codes: seq<Byte>)
    ensures |codes| == |bs|
  {
    if bs == [] then [] else [bs[0] % 128] + Ascii(bs[1..])
  }

  /** What the parser keeps of an attribute: a text loses its last byte, whatever that is. */
  function Kept(key: string, data: seq<Byte>): Field {
    if IsText(key) then Name(if data == [] then [] else Ascii(data[..|data| - 1])) else Slice(data)
  }

  /** data.slice from 0: never past the end, empty when it ends before it starts. */
  function Clip(bs: seq<Byte>, end: int): seq<Byte> {
    if end <= 0 then [] else if end <= |bs| then bs[..end] else bs
  }

  /** The field read from the bytes behind an attribute header, for a declared length of the whole. */
  function FieldAt(key: string, bs: seq<Byte>, declared: nat): Field {
    var len: int := declared - 4;
    if IsText(key) then Name(Ascii(Clip(bs, len - 1))) else Slice(Clip(bs, len))
  }

  /** How far the parser moves on: four, and the declared rest rounded up to a multiple of four. */
  function Step(declared: nat): (n: nat) {
    var len: int := declared - 4;
    4 + 4 * ((len + 3) / 4)
  }

  /** How parsing ends: with fields by name, with an exception, or never. */
  datatype Outcome = Parsed(fields: map<string, Field>) | Throws | Hangs

  /** The loop of parseAttrs over what is left of the buffer. */
  function ParseFrom(bs: seq<Byte>, names: seq<string>, ret: map<string, Field>): Outcome
    decreases |bs|
  {
    if bs == [] then Parsed(ret)
    else if |bs| < 4 then Outcome.Throws
    else
      var declared, typ := Read16(bs, 0), Read16(bs, 2);
      var now := if typ < |names| then ret[names[typ] := FieldAt(names[typ], bs[4..], declared)] else ret;
      if declared == 0 then Outcome.Hangs
      else if Step(declared) >= |bs| then Parsed(now)
      else ParseFrom(bs[Step(declared)..], names, now)
  }

  /** Whether the walk from attribute to attribute comes to one that declares no length at all. */
  predicate MeetsZero(bs: seq<Byte>)
    decreases |bs|
  {
    |bs| >= 4 && (Read16(bs, 0) == 0 || (Step(Read16(bs, 0)) < |bs| && MeetsZero(bs[Step(Read16(bs, 0))..])))
  }

  /** The loop ends unless it comes to such an attribute. */
  lemma {:induction false} HangsExactly(bs: seq<Byte>, names: seq<string>, ret: map<string, Field>)
    ensures ParseFrom(bs, names, ret).Hangs? <==> MeetsZero(bs)
    decreases |bs|
  {
    if |bs| >= 4 && Read16(bs, 0) != 0 && Step(Read16(bs, 0)) < |bs| {
      var declared, typ := Read16(bs, 0), Read16(bs, 2);
      HangsExactly(bs[Step(declared)..], names, if typ < |names| then ret[names[typ] := FieldAt(names[typ], bs[4..], declared)] else ret);
    }
  }

  /** buildRtattrBuf for one attribute after the other. */
  function Leaves(attrs: seq<Attr>): (ts: seq<T.Tlv>)
    ensures |ts| == |attrs|
  {
    if attrs == [] then [] else [T.Leaf(attrs[0].typ, attrs[0].data)] + Leaves(attrs[1..])
  }

  predicate AttrsFit(attrs: seq<Attr>) {
    forall i :: 0 <= i < |attrs| ==> attrs[i].typ < TWO_TO_THE_16 && T.HEADER + |attrs[i].data| < TWO_TO_THE_16
  }

  /** The fields a list of attributes stands for; a type without a name is passed over. */
  function FieldsOf(attrs: seq<Attr>, names: seq<string>, ret: map<string, Field>): map<string, Field>
    decreases |attrs|
  {
    if attrs == [] then ret
    else
      var a := attrs[0];
      FieldsOf(attrs[1..], names, if a.typ < |names| then ret[names[a.typ] := Kept(names[a.typ], a.data)] else ret)
  }

  lemma {:induction false} AttributesComeBack(attrs: seq<Attr>, names: seq<string>, ret: map<string, Field>)
    requires AttrsFit(attrs)
    ensures ParseFrom(T.PrintAll(Leaves(attrs)), names, ret) == Parsed(FieldsOf(attrs, names, ret))
    decreases |attrs|
  {
    if attrs != [] {
      var a, rest := attrs[0], T.PrintAll(Leaves(attrs[1..]));
      var now := if a.typ < |names| then ret[names[a.typ] := Kept(names[a.typ], a.data)] else ret;
      AttributesComeBack(attrs[1..], names, now);
      OneAttribute(a, rest, names, ret);
      assert Leaves(attrs)[1..] == Leaves(attrs[1..]);
    }
  }

  /** The first attribute of a buffer is read as it was written, and the parser then stands behind its padding. */
  lemma OneAttribute(a: Attr, rest: seq<Byte>, names: seq<string>, ret: map<string, Field>)
    requires a.typ < TWO_TO_THE_16 && T.HEADER + |a.data| < TWO_TO_THE_16
    ensures ParseFrom(T.Print(T.Leaf(a.typ, a.data)) + rest, names, ret)
      == ParseFrom(rest, names, if a.typ < |names| then ret[names[a.typ] := Kept(names[a.typ], a.data)] else ret)
  {
    hide FieldAt, Kept, Zeros, Read16, T.Header;
    var len := T.HEADER + |a.data|;
    var bs := T.Print(T.Leaf(a.typ, a.data)) + rest;
    var behind := a.data + (Zeros(Pad(len)) + rest);
    assert bs == T.Header(len, a.typ) + behind;
    T.HeaderReads(len, a.typ, behind);
    assert bs[4..] == behind;
    StepOverPad(len);
    assert bs[Step(len)..] == rest;
    if a.typ < |names| { FieldComesBack(names[a.typ], a.data, Zeros(Pad(len)) + rest); }
  }

  lemma StepOverPad(len: nat)
    ensures Step(len) == len + Pad(len)
  {
  }

  lemma FieldComesBack(key: string, data: seq<Byte>, tail: seq<Byte>)
    ensures FieldAt(key, data + tail, T.HEADER + |data|) == Kept(key, data)
  {
    var bs := data + tail;
    assert Clip(bs, |data|) == data;
    if data != [] { assert Clip(bs, |data| - 1) == data[..|data| - 1]; }
  }

  ghost predicate Distinct(names: seq<string>) {
    DistinctIn(names, 0, |names|)
  }

  /** The names from lo up to hi differ from all that follow them. */
  ghost predicate DistinctIn(names: seq<string>, lo: nat, hi: nat) {
    forall i, j :: lo <= i < hi && i < j < |names| ==> names[i] != names[j]
  }

  lemma LinkNamesDistinct()
    ensures Distinct(LINK_NAMES)
  {
    LinkNames0();
    LinkNames2();
    LinkNames4();
    LinkNames6();
    LinkNames8();
    LinkNames11();
    LinkNames14();
    LinkNames18();
    LinkNames22();
    hide *;
    Ranges(LINK_NAMES);
  }

  lemma LinkNames0()
    ensures DistinctIn(LINK_NAMES, 0, 2)
  {
  }

  lemma LinkNames2()
    ensures DistinctIn(LINK_NAMES, 2, 4)
  {
  }

  lemma LinkNames4()
    ensures DistinctIn(LINK_NAMES, 4, 6)
  {
  }

  lemma LinkNames6()
    ensures DistinctIn(LINK_NAMES, 6, 8)
  {
  }

  lemma LinkNames8()
    ensures DistinctIn(LINK_NAMES, 8, 11)
  {
  }

  lemma LinkNames11()
    ensures DistinctIn(LINK_NAMES, 11, 14)
  {
  }

  lemma LinkNames14()
    ensures DistinctIn(LINK_NAMES, 14, 18)
  {
  }

  lemma LinkNames18()
    ensures DistinctIn(LINK_NAMES, 18, 22)
  {
  }

  lemma LinkNames22()
    ensures |LINK_NAMES| == 36 && DistinctIn(LINK_NAMES, 22, 36)
  {
  }

  lemma Ranges(names: seq<string>)
    requires |names| == 36
    requires DistinctIn(names, 0, 2)
    requires DistinctIn(names, 2, 4)
    requires DistinctIn(names, 4, 6)
    requires DistinctIn(names, 6, 8)
    requires DistinctIn(names, 8, 11)
    requires DistinctIn(names, 11, 14)
    requires DistinctIn(names, 14, 18)
    requires DistinctIn(names, 18, 22)
    requires DistinctIn(names, 22, 36)
    ensures Distinct(names)
  {
  }

  lemma OtherNamesDistinct()
    ensures Distinct(ADDR_NAMES) && Distinct(ROUTE_NAMES) && Distinct(NEIGH_NAMES)
  {
  }

  /** No table names two attribute types alike. */
  lemma NamesDistinct(typ: nat)
    requires Family(typ).Some?
    ensures Distinct(Family(typ).value.1)
  {
    LinkNamesDistinct();
    OtherNamesDistinct();
    hide Distinct, DistinctIn, LINK_NAMES, ADDR_NAMES, ROUTE_NAMES, NEIGH_NAMES;
  }

  /** Attributes of different types are all found under their names. */
  lemma {:induction false} EveryFieldFound(attrs: seq<Attr>, names: seq<string>, ret: map<string, Field>, i: nat)
    requires Distinct(names) && i < |attrs| && attrs[i].typ < |names|
    requires forall j :: i < j < |attrs| ==> attrs[j].typ != attrs[i].typ
    ensures var key := names[attrs[i].typ];
      key in FieldsOf(attrs, names, ret) && FieldsOf(attrs, names, ret)[key] == Kept(key, attrs[i].data)
    decreases |attrs|
  {
    var a := attrs[0];
    var now := if a.typ < |names| then ret[names[a.typ] := Kept(names[a.typ], a.data)] else ret;
    if i > 0 {
      EveryFieldFound(attrs[1..], names, now, i - 1);
    } else {
      FieldStays(attrs[1..], names, now, a.typ);
    }
  }

  lemma {:induction false} FieldStays(attrs: seq<Attr>, names: seq<string>, ret: map<string, Field>, typ: nat)
    requires Distinct(names) && typ < |names| && names[typ] in ret
    requires forall j :: 0 <= j < |attrs| ==> attrs[j].typ != typ
    ensures names[typ] in FieldsOf(attrs, names, ret) && FieldsOf(attrs, names, ret)[names[typ]] == ret[names[typ]]
    decreases |attrs|
  {
    if attrs != [] {
      var a := attrs[0];
      FieldStays(attrs[1..], names, if a.typ < |names| then ret[names[a.typ] := Kept(names[a.typ], a.data)] else ret, typ);
    }
  }

  // ----- messages -----

  /** A message as parseRtattributes gives it, the empty object, or no result. */
  datatype Reading = Nothing | Message(fields: map<string, Field>, payload: Unpacking, operation: string) | Failed(how: Outcome)

  function Parse(data: seq<Byte>): Reading {
    if |data| < NLMSG_HDRLEN || Read32(data, 0) != |data| || Read16(data, 4) == NLMSG_DONE then Nothing
    else
      var typ := Read16(data, 4);
      if Family(typ).None? then Nothing
      else
        var (items, names) := Family(typ).value;
        var start := NLMSG_HDRLEN + PAYLOAD_SIZES[typ - RTM_BASE];
        var o := if start >= |data| then Parsed(map[]) else ParseFrom(data[start..], names, map[]);
        if o.Parsed? then Message(o.fields, UnpackAll(false, items, data[NLMSG_HDRLEN..]), TYPE_NAMES[typ - RTM_BASE]) else Failed(o)
  }

  /** The integers of a packed header or template, one after the other. */
  function Packed(items: seq<Item>, fields: seq<int>): (bs: seq<Byte>)
    requires |items| == |fields| && forall i :: 0 <= i < |items| ==> items[i].kind.Int?
  {
    if items == [] then [] else IntBytes(false, items[0].kind, fields[0]) + Packed(items[1..], fields[1..])
  }

  function Nums(fields: seq<int>): (vs: seq<Value>)
    ensures |vs| == |fields|
  {
    if fields == [] then [] else [Num(fields[0])] + Nums(fields[1..])
  }

  /** Single integers: one to a field. */
  predicate Plain(items: seq<Item>) {
    forall i :: 0 <= i < |items| ==> items[i].count == 1 && items[i].kind.Int? && Known(items[i].kind)
  }

  function SizeOf(items: seq<Item>): nat {
    if items == [] then 0 else UnitSize(items[0].kind) + SizeOf(items[1..])
  }

  predicate InRange(items: seq<Item>, fields: seq<int>)
    requires Plain(items)
  {
    |items| == |fields| && forall i :: 0 <= i < |items| ==> Min(items[i].kind) <= fields[i] <= Max(items[i].kind)
  }

  /** A header or template is packed field by field, and reads back as it was when the fields are in range. */
  lemma {:induction false} PlainRoundTrip(items: seq<Item>, fields: seq<int>, room: nat, tail: seq<Byte>)
    requires Plain(items) && |items| == |fields| && room >= SizeOf(items)
    ensures Typed(items, Nums(fields)) && PackAll(false, items, Nums(fields), room) == Done(Packed(items, fields))
    ensures |Packed(items, fields)| == SizeOf(items)
    ensures InRange(items, fields) ==> UnpackAll(false, items, Packed(items, fields) + tail) == Values(Nums(fields), SizeOf(items))
  {
    hide *;
    if items == [] {
      NoFields(room, tail);
    } else {
      FieldsCons(items, fields);
      var item, vs, rest := items[0], Nums(fields), Packed(items[1..], fields[1..]) + tail;
      PlainRoundTrip(items[1..], fields[1..], room - UnitSize(item.kind), tail);
      OneField(item, fields[0], vs, room, rest);
      PackFirst(items, vs, room);
      UnpackHead(false, items, Packed(items, fields) + tail);
      assert Packed(items, fields) + tail == IntBytes(false, item.kind, fields[0]) + rest;
      assert (IntBytes(false, item.kind, fields[0]) + rest)[UnitSize(item.kind)..] == rest;
      AfterFirst(Num(fields[0]), UnitSize(item.kind), Nums(fields[1..]), SizeOf(items[1..]));
    }
  }

  lemma NoFields(room: nat, tail: seq<Byte>)
    ensures Typed([], Nums([])) && PackAll(false, [], Nums([]), room) == Done(Packed([], []))
    ensures |Packed([], [])| == SizeOf([]) == 0
    ensures UnpackAll(false, [], Packed([], []) + tail) == Values(Nums([]), SizeOf([]))
  {
  }

  lemma FieldsCons(items: seq<Item>, fields: seq<int>)
    requires Plain(items) && |items| == |fields| > 0
    ensures items[0].count == 1 && items[0].kind.Int? && Known(items[0].kind) && Plain(items[1..])
    ensures forall i :: 0 <= i < |items[1..]| ==> items[1..][i].kind.Int?
    ensures Nums(fields) == [Num(fields[0])] + Nums(fields[1..]) && Nums(fields)[1..] == Nums(fields[1..])
    ensures Packed(items, fields) == IntBytes(false, items[0].kind, fields[0]) + Packed(items[1..], fields[1..])
    ensures |IntBytes(false, items[0].kind, fields[0])| == UnitSize(items[0].kind)
    ensures SizeOf(items) == UnitSize(items[0].kind) + SizeOf(items[1..])
    ensures InRange(items, fields) ==> Min(items[0].kind) <= fields[0] <= Max(items[0].kind) && InRange(items[1..], fields[1..])
  {
    hide IntBytes;
  }

  /** One integer element, packed and read back. */
  lemma OneField(item: Item, v: int, vs: seq<Value>, room: nat, rest: seq<Byte>)
    requires item.count == 1 && item.kind.Int? && Known(item.kind) && vs != [] && vs[0] == Num(v) && room >= UnitSize(item.kind)
    ensures TypedItem(item, vs) && Used(item) == 1 && PackItem(false, item, vs, room) == Done(IntBytes(false, item.kind, v))
    ensures Min(item.kind) <= v <= Max(item.kind) ==>
      UnpackItem(false, item, IntBytes(false, item.kind, v) + rest) == Values([Num(v)], UnitSize(item.kind))
  {
    hide IntBytes, BytesInt, Min, Max, Fill, Pow256;
    assert vs[..1] == [Num(v)];
    ItemComesBack(false, item, vs, room, rest);
  }

  lemma PackFirst(items: seq<Item>, vs: seq<Value>, room: nat)
    requires items != [] && vs != [] && TypedItem(items[0], vs) && Used(items[0]) == 1 && Typed(items[1..], vs[1..])
    ensures Typed(items, vs)
    ensures var first := PackItem(false, items[0], vs, room);
      first.Done? ==>
        && |first.bytes| <= room
        && (var rest := PackAll(false, items[1..], vs[1..], room - |first.bytes|);
            rest.Done? ==> PackAll(false, items, vs, room) == Done(first.bytes + rest.bytes))
  {
    hide PackItem, TypedItem, Used;
  }

  lemma AfterFirst(v: Value, n: nat, vs: seq<Value>, size: nat)
    ensures After([v], n, Values(vs, size)) == Values([v] + vs, n + size)
  {
  }

  /** What a message of a type is made of: the header with the length of the whole, the template, the attributes. */
  function Build(typ: nat, flags: nat, seq_: nat, pid: nat, body: seq<Byte>): seq<Byte> {
    Packed(NLMSG_HDR, [NLMSG_HDRLEN + |body|, typ, flags, seq_, pid]) + body
  }

  /** The parser takes the attributes to begin behind the template exactly where payload_sizes has its length. */
  lemma TemplateSkipped(typ: nat)
    requires Family(typ).Some?
    ensures var items := Family(typ).value.0;
      && Plain(items) && SizeOf(items) in {8, 12, 16}
      && (PAYLOAD_SIZES[typ - RTM_BASE] == SizeOf(items) <==> typ != RTM_DELNEIGH && typ != RTM_GETNEIGH)
      && (typ == RTM_DELNEIGH || typ == RTM_GETNEIGH ==> PAYLOAD_SIZES[typ - RTM_BASE] == 8 && items == NDMSG && SizeOf(items) == 12)
  {
    assert SizeOf(IFINFOMSG) == 16 by { Sizes6(IFINFOMSG); }
    assert SizeOf(IFADDRMSG) == 8 by { Sizes5(IFADDRMSG); }
    assert SizeOf(RTMSG) == 12 by { Sizes9(RTMSG); }
    assert SizeOf(NDMSG) == 12 by { Sizes7(NDMSG); }
  }

  lemma Sizes4(items: seq<Item>)
    requires |items| == 4
    ensures SizeOf(items) == UnitSize(items[0].kind) + UnitSize(items[1].kind) + UnitSize(items[2].kind) + UnitSize(items[3].kind)
  {
    assert SizeOf(items[2..]) == UnitSize(items[2].kind) + UnitSize(items[3].kind) + SizeOf(items[4..]);
  }

  lemma Sizes5(items: seq<Item>)
    requires |items| == 5
    ensures SizeOf(items) == UnitSize(items[0].kind) + UnitSize(items[1].kind) + UnitSize(items[2].kind)
      + UnitSize(items[3].kind) + UnitSize(items[4].kind)
  {
    Sizes4(items[1..]);
  }

  lemma Sizes6(items: seq<Item>)
    requires |items| == 6
    ensures SizeOf(items) == UnitSize(items[0].kind) + UnitSize(items[1].kind) + UnitSize(items[2].kind)
      + UnitSize(items[3].kind) + UnitSize(items[4].kind) + UnitSize(items[5].kind)
  {
    Sizes5(items[1..]);
  }

  lemma Sizes7(items: seq<Item>)
    requires |items| == 7
    ensures SizeOf(items) == UnitSize(items[0].kind) + UnitSize(items[1].kind) + UnitSize(items[2].kind)
      + UnitSize(items[3].kind) + UnitSize(items[4].kind) + UnitSize(items[5].kind) + UnitSize(items[6].kind)
  {
    Sizes6(items[1..]);
  }

  lemma Sizes9(items: seq<Item>)
    requires |items| == 9
    ensures SizeOf(items) == UnitSize(items[0].kind) + UnitSize(items[1].kind) + UnitSize(items[2].kind)
      + UnitSize(items[3].kind) + UnitSize(items[4].kind) + UnitSize(items[5].kind) + UnitSize(items[6].kind)
      + UnitSize(items[7].kind) + UnitSize(items[8].kind)
  {
    Sizes7(items[2..]);
  }

  lemma HeaderShape()
    ensures Plain(NLMSG_HDR) && SizeOf(NLMSG_HDR) == NLMSG_HDRLEN && |NLMSG_HDR| == 5
  {
    Sizes5(NLMSG_HDR);
  }

  /** The two header fields the parser looks at. */
  lemma HeaderReads(total: nat, typ: nat, flags: nat, seq_: nat, pid: nat, body: seq<Byte>)
    requires total < 0x1_0000_0000 && typ < TWO_TO_THE_16
    ensures var bs := Packed(NLMSG_HDR, [total, typ, flags, seq_, pid]) + body;
      && |bs| == NLMSG_HDRLEN + |body| && Read32(bs, 0) == total && Read16(bs, 4) == typ && bs[NLMSG_HDRLEN..] == body
  {
    var fields := [total, typ, flags, seq_, pid];
    HeaderShape();
    PlainRoundTrip(NLMSG_HDR, fields, NLMSG_HDRLEN, []);
    FieldsCons(NLMSG_HDR, fields);
    FieldsCons(NLMSG_HDR[1..], fields[1..]);
    var rest := Packed(NLMSG_HDR[1..][1..], fields[1..][1..]) + body;
    FieldLE(4, total);
    FieldLE(2, typ);
    hide IntBytes, Packed, LE, SizeOf, Plain;
    assert Packed(NLMSG_HDR, fields) + body == LE(total, 4) + (LE(typ, 2) + rest);
    ReadLE4(total, LE(typ, 2) + rest);
    ReadLE2(LE(total, 4), typ, rest);
  }

  lemma PackedHeader(fields: seq<int>)
    requires |fields| == 5 && 0 <= fields[0] < 0x1_0000_0000 && 0 <= fields[1] < TWO_TO_THE_16
    requires 0 <= fields[2] < TWO_TO_THE_16 && 0 <= fields[3] < 0x1_0000_0000 && 0 <= fields[4] < 0x1_0000_0000
    ensures |NLMSG_HDR| == 5 && forall i :: 0 <= i < 5 ==> NLMSG_HDR[i].kind.Int?
    ensures Packed(NLMSG_HDR, fields)
         == LE(fields[0], 4) + (LE(fields[1], 2) + (LE(fields[2], 2) + (LE(fields[3], 4) + LE(fields[4], 4))))
  {
    HeaderShape();
    Powers();
    FieldLE(4, fields[0]);
    FieldLE(2, fields[1]);
    FieldLE(2, fields[2]);
    FieldLE(4, fields[3]);
    FieldLE(4, fields[4]);
    PackedTail(NLMSG_HDR, fields, 0);
    PackedTail(NLMSG_HDR, fields, 1);
    PackedTail(NLMSG_HDR, fields, 2);
    PackedTail(NLMSG_HDR, fields, 3);
    PackedTail(NLMSG_HDR, fields, 4);
    hide IntBytes, LE, Packed, Plain, SizeOf, Pow256;
    assert NLMSG_HDR[0..] == NLMSG_HDR && fields[0..] == fields;
  }

  /** A field and what is behind it. */
  lemma PackedTail(items: seq<Item>, fields: seq<int>, i: nat)
    requires Plain(items) && |items| == |fields| && i < |items|
    ensures Packed(items[i..], fields[i..]) == IntBytes(false, items[i].kind, fields[i]) + Packed(items[i + 1..], fields[i + 1..])
    ensures i + 1 == |items| ==> Packed(items[i..], fields[i..]) == IntBytes(false, items[i].kind, fields[i])
  {
    hide IntBytes;
    assert items[i..][1..] == items[i + 1..] && fields[i..][1..] == fields[i + 1..];
  }

  lemma ReadLong(front: seq<Byte>, v: nat, rest: seq<Byte>)
    requires v < 0x1_0000_0000
    ensures Read32(front + (LE(v, 4) + rest), |front|) == v
  {
    ReadLE4(v, rest);
    assert (front + (LE(v, 4) + rest))[|front|..] == LE(v, 4) + rest;
    hide LE;
  }

  lemma ReadShort(front: seq<Byte>, v: nat, rest: seq<Byte>)
    requires v < TWO_TO_THE_16
    ensures Read16(front + (LE(v, 2) + rest), |front|) == v
  {
    assert LE(v, 2) == [v % 256, v / 256 % 256];
  }

  /**
    The header of a message, byte by byte (section 2.3.2 of RFC 3549): length, type, flags, sequence number and
    port, each where a receiver reads it, and the body behind.
   */
  lemma HeaderLayout(typ: nat, flags: nat, seq_: nat, pid: nat, body: seq<Byte>)
    requires typ < TWO_TO_THE_16 && flags < TWO_TO_THE_16 && seq_ < 0x1_0000_0000 && pid < 0x1_0000_0000
    requires 16 + |body| < 0x1_0000_0000
    ensures var all := Build(typ, flags, seq_, pid, body);
      && |all| == 16 + |body| && all[16..] == body
      && Read32(all, 0) == |all| && Read16(all, 4) == typ && Read16(all, 6) == flags
      && Read32(all, 8) == seq_ && Read32(all, 12) == pid
  {
    var len := NLMSG_HDRLEN + |body|;
    PackedHeader([len, typ, flags, seq_, pid]);
    hide LE, Packed, Read32, Read16;
    var a, b, c, d, e := LE(len, 4), LE(typ, 2), LE(flags, 2), LE(seq_, 4), LE(pid, 4);
    var all := Build(typ, flags, seq_, pid, body);
    Regrouped(a, b, c, d, e, body);
    ReadLong([], len, b + c + d + e + body);
    ReadShort(a, typ, c + d + e + body);
    ReadShort(a + b, flags, d + e + body);
    ReadLong(a + b + c, seq_, e + body);
    ReadLong(a + b + c + d, pid, body);
  }

  lemma Regrouped(a: seq<Byte>, b: seq<Byte>, c: seq<Byte>, d: seq<Byte>, e: seq<Byte>, body: seq<Byte>)
    ensures var all := a + (b + (c + (d + e))) + body;
      && all == [] + (a + (b + c + d + e + body)) && all == a + (b + (c + d + e + body))
      && all == (a + b) + (c + (d + e + body)) && all == (a + b + c) + (d + (e + body))
      && all == (a + b + c + d) + (e + body)
      && (|a + b + c + d + e| == 16 ==> all[16..] == body)
  {
    assert a + (b + (c + (d + e))) == a + b + c + d + e;
  }

  lemma BuildSize(typ: nat, flags: nat, seq_: nat, pid: nat, body: seq<Byte>)
    ensures |Build(typ, flags, seq_, pid, body)| == 16 + |body| && Build(typ, flags, seq_, pid, body)[16..] == body
  {
    HeaderShape();
    PlainRoundTrip(NLMSG_HDR, [NLMSG_HDRLEN + |body|, typ, flags, seq_, pid], 16, []);
    hide Packed, SizeOf, Plain;
  }

  lemma FieldLE(len: nat, v: nat)
    requires len in {1, 2, 4} && v < Pow256(len)
    ensures IntBytes(false, Int(len, false), v) == LE(v, len)
  {
  }

  lemma ReadLE4(v: nat, rest: seq<Byte>)
    requires v < 0x1_0000_0000
    ensures Read32(LE(v, 4) + rest, 0) == v && v < Pow256(4)
  {
    var a, b, c := v / 256, v / 256 / 256, v / 256 / 256 / 256;
    assert LE(v, 4) == [v % 256, a % 256, b % 256, c % 256];
  }

  lemma ReadLE2(first: seq<Byte>, v: nat, rest: seq<Byte>)
    requires |first| == 4 && v < TWO_TO_THE_16
    ensures Read16(first + (LE(v, 2) + rest), 4) == v && v < Pow256(2)
  {
    assert LE(v, 2) == [v % 256, v / 256 % 256];
  }

  /**
    A message of any supported type but RTM_DELNEIGH and RTM_GETNEIGH comes back: the same template fields,
    and the fields its attributes stand for.
   */
  lemma MessageComesBack(typ: nat, flags: nat, seq_: nat, pid: nat, fields: seq<int>, attrs: seq<Attr>)
    requires Family(typ).Some? && typ != RTM_DELNEIGH && typ != RTM_GETNEIGH
    requires Plain(Family(typ).value.0) && InRange(Family(typ).value.0, fields) && AttrsFit(attrs)
    requires NLMSG_HDRLEN + |Packed(Family(typ).value.0, fields)| + |T.PrintAll(Leaves(attrs))| < 0x1_0000_0000
    ensures var (items, names) := Family(typ).value;
      Parse(Build(typ, flags, seq_, pid, Packed(items, fields) + T.PrintAll(Leaves(attrs))))
        == Message(FieldsOf(attrs, names, map[]), Values(Nums(fields), SizeOf(items)), TYPE_NAMES[typ - RTM_BASE])
  {
    var (items, names) := Family(typ).value;
    var tail := T.PrintAll(Leaves(attrs));
    var body := Packed(items, fields) + tail;
    hide *;
    FamilyBounds(typ);
    PlainRoundTrip(items, fields, SizeOf(items), tail);
    TemplateSkipped(typ);
    HeaderReads(NLMSG_HDRLEN + |body|, typ, flags, seq_, pid, body);
    AttributesComeBack(attrs, names, map[]);
    ParseBody(typ, Build(typ, flags, seq_, pid, body), body);
  }

  lemma FamilyBounds(typ: nat)
    requires Family(typ).Some?
    ensures RTM_BASE <= typ < TWO_TO_THE_16 && typ != NLMSG_DONE
    ensures typ - RTM_BASE < |PAYLOAD_SIZES| && typ - RTM_BASE < |TYPE_NAMES|
  {
  }

  lemma NothingLeft(names: seq<string>)
    ensures ParseFrom([], names, map[]) == Parsed(map[])
  {
  }

  lemma ParseBody(typ: nat, data: seq<Byte>, body: seq<Byte>)
    requires Family(typ).Some? && |data| == NLMSG_HDRLEN + |body| && data[NLMSG_HDRLEN..] == body
    requires Read32(data, 0) == |data| && Read16(data, 4) == typ
    requires PAYLOAD_SIZES[typ - RTM_BASE] <= |body|
    ensures var (items, names) := Family(typ).value;
      var o := ParseFrom(body[PAYLOAD_SIZES[typ - RTM_BASE]..], names, map[]);
      Parse(data) == if o.Parsed? then Message(o.fields, UnpackAll(false, items, body), TYPE_NAMES[typ - RTM_BASE]) else Failed(o)
  {
    hide Family, UnpackAll, ParseFrom, Read32, Read16, PAYLOAD_SIZES, TYPE_NAMES;
    FamilyBounds(typ);
    NothingLeft(Family(typ).value.1);
    var size := PAYLOAD_SIZES[typ - RTM_BASE];
    assert data[NLMSG_HDRLEN + size..] == body[size..];
  }

  /** Parsing a message that was put together. */
  lemma ParseBuilt(typ: nat, flags: nat, seq_: nat, pid: nat, body: seq<Byte>)
    requires Family(typ).Some? && NLMSG_HDRLEN + |body| < 0x1_0000_0000
    requires typ - RTM_BASE < |PAYLOAD_SIZES| && typ - RTM_BASE < |TYPE_NAMES| && PAYLOAD_SIZES[typ - RTM_BASE] <= |body|
    ensures var (items, names) := Family(typ).value;
      var o := ParseFrom(body[PAYLOAD_SIZES[typ - RTM_BASE]..], names, map[]);
      Parse(Build(typ, flags, seq_, pid, body))
        == if o.Parsed? then Message(o.fields, UnpackAll(false, items, body), TYPE_NAMES[typ - RTM_BASE]) else Failed(o)
  {
    hide Family, Packed, UnpackAll, ParseFrom, Read32, Read16, PAYLOAD_SIZES, TYPE_NAMES, Parse, NLMSG_HDR;
    FamilyBounds(typ);
    HeaderShape();
    HeaderReads(NLMSG_HDRLEN + |body|, typ, flags, seq_, pid, body);
    ParseBody(typ, Build(typ, flags, seq_, pid, body), body);
  }

  lemma {:induction false} PackedFrom(items: seq<Item>, fields: seq<int>, k: nat)
    requires Plain(items) && |items| == |fields| && k <= |items|
    ensures SizeOf(items[..k]) <= |Packed(items, fields)|
    ensures Packed(items, fields)[SizeOf(items[..k])..] == Packed(items[k..], fields[k..])
  {
    hide *;
    if k == 0 {
      EmptySize();
      assert items[0..] == items && fields[0..] == fields && items[..0] == [];
    } else {
      FieldsCons(items, fields);
      FrontSize(items, k);
      PackedFrom(items[1..], fields[1..], k - 1);
      assert items[1..][k - 1..] == items[k..] && fields[1..][k - 1..] == fields[k..];
    }
  }

  lemma EmptySize()
    ensures SizeOf([]) == 0
  {
  }

  lemma FrontSize(items: seq<Item>, k: nat)
    requires 0 < k <= |items|
    ensures SizeOf(items[..k]) == UnitSize(items[0].kind) + SizeOf(items[1..][..k - 1])
  {
    assert items[..k][1..] == items[1..][..k - 1];
  }

  /**
    In a template for neighbours the parser of those two types takes the state for the length of an attribute,
    and the flags and the type together for its type.
   */
  lemma StateAsLength(fields: seq<int>, tail: seq<Byte>)
    requires Plain(NDMSG) && InRange(NDMSG, fields)
    ensures |Packed(NDMSG, fields)| == 12 && 0 <= fields[4] && 0 <= fields[5] && 0 <= fields[6]
    ensures var left := (Packed(NDMSG, fields) + tail)[8..];
      && |left| == 4 + |tail| && left[4..] == tail
      && Read16(left, 0) == fields[4] && Read16(left, 2) == fields[5] + 256 * fields[6]
  {
    hide *;
    NeighborShape();
    LastFields(fields);
    NeighborBytes(fields);
    var left := (Packed(NDMSG, fields) + tail)[8..];
    assert left == Packed(NDMSG, fields)[8..] + tail;
    ReadFields(fields[4], fields[5], fields[6], tail);
  }

  lemma NeighborBytes(fields: seq<int>)
    requires Plain(NDMSG) && InRange(NDMSG, fields)
    ensures |NDMSG| == |fields| == 7 && (forall i :: 0 <= i < 7 ==> NDMSG[i].kind.Int?) && |Packed(NDMSG, fields)| == 12
    ensures Packed(NDMSG, fields)[8..] == Packed(NDMSG[4..], fields[4..])
  {
    hide Packed, SizeOf;
    NeighborShape();
    PlainRoundTrip(NDMSG, fields, 12, []);
    PackedFrom(NDMSG, fields, 4);
  }

  /** The last three fields of the template for neighbours. */
  lemma LastFields(fields: seq<int>)
    requires Plain(NDMSG) && InRange(NDMSG, fields)
    ensures 0 <= fields[4] < TWO_TO_THE_16 && 0 <= fields[5] < 256 && 0 <= fields[6] < 256
    ensures Packed(NDMSG[4..], fields[4..]) == LE(fields[4], 2) + (LE(fields[5], 1) + LE(fields[6], 1))
  {
    StateField(fields);
    FieldLE(2, fields[4]);
    FieldLE(1, fields[5]);
    FieldLE(1, fields[6]);
    FieldsCons(NDMSG[4..], fields[4..]);
    FieldsCons(NDMSG[5..], fields[5..]);
    FieldsCons(NDMSG[6..], fields[6..]);
    assert NDMSG[4..][1..] == NDMSG[5..] && NDMSG[5..][1..] == NDMSG[6..];
    assert fields[4..][1..] == fields[5..] && fields[5..][1..] == fields[6..];
    assert NDMSG[6..][1..] == [] && fields[6..][1..] == [];
    hide LE, IntBytes;
    assert Packed(NDMSG[6..], fields[6..]) == LE(fields[6], 1);
  }

  lemma ReadFields(state: nat, flags: nat, kind: nat, tail: seq<Byte>)
    requires state < TWO_TO_THE_16 && flags < 256 && kind < 256
    ensures var left := LE(state, 2) + (LE(flags, 1) + LE(kind, 1)) + tail;
      && |left| == 4 + |tail| && left[4..] == tail
      && Read16(left, 0) == state && Read16(left, 2) == flags + 256 * kind
  {
    assert LE(state, 2) == [state % 256, state / 256 % 256] && LE(flags, 1) == [flags] && LE(kind, 1) == [kind];
  }

  lemma NeighborShape()
    ensures |NDMSG| == 7 && SizeOf(NDMSG) == 12 && SizeOf(NDMSG[..4]) == 8
  {
    Sizes7(NDMSG);
    Sizes4(NDMSG[..4]);
  }

  lemma StateField(fields: seq<int>)
    requires Plain(NDMSG) && InRange(NDMSG, fields)
    ensures |fields| == 7 && NDMSG[4] == U16 == Item(1, Int(2, false)) && NDMSG[5] == NDMSG[6] == U8 == Item(1, Int(1, false))
    ensures 0 <= fields[4] < TWO_TO_THE_16 && 0 <= fields[5] < 256 && 0 <= fields[6] < 256
    ensures Pow256(2) == TWO_TO_THE_16 && Pow256(1) == 256
  {
    assert Min(NDMSG[4].kind) <= fields[4] <= Max(NDMSG[4].kind);
    assert Min(NDMSG[5].kind) <= fields[5] <= Max(NDMSG[5].kind);
    assert Min(NDMSG[6].kind) <= fields[6] <= Max(NDMSG[6].kind);
  }

  /** How parsing goes on in such a message: by the state, and by the number read as the type of an attribute. */
  function FromState(state: nat, number: nat, tail: seq<Byte>): Outcome {
    if state == 0 then Outcome.Hangs
    else
      var now := if number < |NEIGH_NAMES| then map[NEIGH_NAMES[number] := FieldAt(NEIGH_NAMES[number], tail, state)] else map[];
      if Step(state) >= 4 + |tail| then Parsed(now) else ParseFrom(tail[Step(state) - 4..], NEIGH_NAMES, now)
  }

  /** What becomes of a message that deletes or asks for a neighbour, whatever its fields and attributes. */
  lemma NeighborReads(typ: nat, flags: nat, seq_: nat, pid: nat, fields: seq<int>, tail: seq<Byte>)
    requires typ == RTM_DELNEIGH || typ == RTM_GETNEIGH
    requires Plain(NDMSG) && InRange(NDMSG, fields)
    requires NLMSG_HDRLEN + |Packed(NDMSG, fields)| + |tail| < 0x1_0000_0000
    ensures 0 <= fields[4] && 0 <= fields[5] && 0 <= fields[6]
    ensures var o := FromState(fields[4], fields[5] + 256 * fields[6], tail);
      Parse(Build(typ, flags, seq_, pid, Packed(NDMSG, fields) + tail))
        == if o.Parsed? then Message(o.fields, Values(Nums(fields), SizeOf(NDMSG)), TYPE_NAMES[typ - RTM_BASE]) else Failed(o)
  {
    StateField(fields);
    NeighborShape();
    hide *;
    NeighborFamily(typ);
    StateAsLength(fields, tail);
    TemplateSkipped(typ);
    FamilyBounds(typ);
    PlainRoundTrip(NDMSG, fields, SizeOf(NDMSG), tail);
    ParseBuilt(typ, flags, seq_, pid, Packed(NDMSG, fields) + tail);
    OneStep((Packed(NDMSG, fields) + tail)[8..], tail);
  }

  lemma NeighborFamily(typ: nat)
    requires typ == RTM_DELNEIGH || typ == RTM_GETNEIGH
    ensures Family(typ) == Some((NDMSG, NEIGH_NAMES))
  {
  }

  lemma OneStep(left: seq<Byte>, tail: seq<Byte>)
    requires |left| == 4 + |tail| && left[4..] == tail
    ensures ParseFrom(left, NEIGH_NAMES, map[]) == FromState(Read16(left, 0), Read16(left, 2), tail)
  {
    hide NEIGH_NAMES, FieldAt, Read16;
    var state := Read16(left, 0);
    if 0 < state && Step(state) < |left| { assert left[Step(state)..] == tail[Step(state) - 4..]; }
  }

  /** With state 0 (NUD_NONE) the message is never parsed to its end. */
  lemma NeighborHangs(typ: nat, flags: nat, seq_: nat, pid: nat, fields: seq<int>, tail: seq<Byte>)
    requires typ == RTM_DELNEIGH || typ == RTM_GETNEIGH
    requires Plain(NDMSG) && InRange(NDMSG, fields) && fields[4] == 0
    requires NLMSG_HDRLEN + |Packed(NDMSG, fields)| + |tail| < 0x1_0000_0000
    ensures Parse(Build(typ, flags, seq_, pid, Packed(NDMSG, fields) + tail)) == Failed(Outcome.Hangs)
  {
    NeighborReads(typ, flags, seq_, pid, fields, tail);
    hide Packed, Parse, Read16, SizeOf, InRange, Plain, FieldAt;
  }

  /**
    With a state from 1 to 4 all attributes are read. The message comes back as one of the other types would
    exactly when the number read as a type has no name, or one of the attributes has that type.
   */
  lemma NeighborComesBack(typ: nat, flags: nat, seq_: nat, pid: nat, fields: seq<int>, attrs: seq<Attr>)
    requires typ == RTM_DELNEIGH || typ == RTM_GETNEIGH
    requires Plain(NDMSG) && InRange(NDMSG, fields) && 1 <= fields[4] <= 4 && AttrsFit(attrs)
    requires NLMSG_HDRLEN + |Packed(NDMSG, fields)| + |T.PrintAll(Leaves(attrs))| < 0x1_0000_0000
    ensures 0 <= fields[5] && 0 <= fields[6]
    ensures var number := fields[5] + 256 * fields[6];
      Parse(Build(typ, flags, seq_, pid, Packed(NDMSG, fields) + T.PrintAll(Leaves(attrs))))
        == Message(FieldsOf(attrs, NEIGH_NAMES, map[]), Values(Nums(fields), SizeOf(NDMSG)), TYPE_NAMES[typ - RTM_BASE])
      <==> number >= |NEIGH_NAMES| || exists i :: 0 <= i < |attrs| && attrs[i].typ == number
  {
    StateField(fields);
    hide *;
    var tail := T.PrintAll(Leaves(attrs));
    NeighborReads(typ, flags, seq_, pid, fields, tail);
    var number: nat := fields[5] + 256 * fields[6];
    var now := SmallState(fields[4], number, tail);
    AttributesComeBack(attrs, NEIGH_NAMES, now);
    OtherNamesDistinct();
    if number < |NEIGH_NAMES| { Overwritten(attrs, NEIGH_NAMES, map[], number, now[NEIGH_NAMES[number]]); }
  }

  lemma SmallState(state: nat, number: nat, tail: seq<Byte>) returns (now: map<string, Field>)
    requires 1 <= state <= 4
    ensures FromState(state, number, tail) == ParseFrom(tail, NEIGH_NAMES, now)
    ensures if number < |NEIGH_NAMES| then exists f :: now == map[NEIGH_NAMES[number] := f] else now == map[]
  {
    hide NEIGH_NAMES, FieldAt;
    now := if number < |NEIGH_NAMES| then map[NEIGH_NAMES[number] := FieldAt(NEIGH_NAMES[number], tail, state)] else map[];
    assert Step(state) == 4 && tail[0..] == tail;
  }

  /** A field that is there beforehand is gone afterwards exactly when an attribute of its type follows. */
  lemma {:induction false} Overwritten(attrs: seq<Attr>, names: seq<string>, ret: map<string, Field>, typ: nat, f: Field)
    requires Distinct(names) && typ < |names| && names[typ] !in ret
    ensures FieldsOf(attrs, names, ret[names[typ] := f]) == FieldsOf(attrs, names, ret)
      <==> exists i :: 0 <= i < |attrs| && attrs[i].typ == typ
    decreases |attrs|
  {
    var key := names[typ];
    if attrs != [] {
      var a, rest := attrs[0], attrs[1..];
      if a.typ == typ {
        assert ret[key := f][key := Kept(key, a.data)] == ret[key := Kept(key, a.data)];
      } else {
        assert (exists i :: 0 <= i < |attrs| && attrs[i].typ == typ) <==> exists i :: 0 <= i < |rest| && rest[i].typ == typ by {
          forall i | 0 <= i < |rest| ensures rest[i] == attrs[i + 1] {}
        }
        if a.typ < |names| {
          var kept := Kept(names[a.typ], a.data);
          assert names[a.typ] != key;
          assert ret[key := f][names[a.typ] := kept] == ret[names[a.typ] := kept][key := f];
          Overwritten(rest, names, ret[names[a.typ] := kept], typ, f);
        } else {
          Overwritten(rest, names, ret, typ, f);
        }
      }
    }
  }

  // ----- the code -----

  const RTATTR: seq<Item> := [U16, U16]

  /** Buffer.concat */
  function Join(bufs: seq<seq<Byte>>): seq<Byte> {
    if bufs == [] then [] else bufs[0] + Join(bufs[1..])
  }

  /** ((len + 3) & ~3): down to a multiple of four, also below zero. */
  function Align(len: int): (r: int) {
    4 * ((len + 3) / 4)
  }

  lemma {:induction false} PlainPacks(items: seq<Item>, fields: seq<int>, values: seq<Value>, i: nat)
    requires Plain(items) && |items| == |fields|
    ensures AllKnown(items) && Aligned(items) && TotalUsed(items) == |items| && CalcLen(items, values, i) == Size.Bytes(SizeOf(items))
    ensures NoNulText(items)
  {
    if items != [] {
      PlainPacks(items[1..], fields[1..], values, i + 1);
    }
  }

  /** pack of a metaObject whose fields are all set. */
  method PackFields(codec: Codec, items: seq<Item>, fields: seq<int>) returns (buf: seq<Byte>)
    requires Plain(items) && |items| == |fields|
    modifies codec
    ensures buf == Packed(items, fields)
  {
    hide *;
    PlainPacks(items, fields, Nums(fields), 0);
    PlainRoundTrip(items, fields, SizeOf(items), []);
    AlignedMeasures(items, Nums(fields), 0, 0);
    var r, a := codec.Pack(Format(false, items), Nums(fields));
    buf := a[..];
  }

  /** buildRtattrBuf: header, data, and zeros up to a multiple of four. */
  method BuildRtattrBuf(codec: Codec, typ: nat, data: seq<Byte>) returns (buf: seq<Byte>)
    modifies codec
    ensures buf == T.Print(T.Leaf(typ, data))
  {
    hide *;
    AttributeShape(typ, data);
    var len: nat := 4;
    var bufs := [data];
    len := len + |data|;
    var rtabuf := PackFields(codec, RTATTR, [len, typ]);
    bufs := [rtabuf] + bufs;
    var pad := Align(len) - len;
    AlignPads(len);
    if pad != 0 {
      bufs := bufs + [Zeros(pad)];
    }
    JoinUp(rtabuf, data, Zeros(Pad(len)));
    buf := Join(bufs);
  }

  lemma AttributeShape(typ: nat, data: seq<Byte>)
    ensures Plain(RTATTR) && |RTATTR| == 2
    ensures T.Print(T.Leaf(typ, data)) == Packed(RTATTR, [4 + |data|, typ]) + data + Zeros(Pad(4 + |data|))
  {
    hide Zeros, Pad;
    ClampedLE(4 + |data|);
    ClampedLE(typ);
    var fields := [4 + |data|, typ];
    FieldsCons(RTATTR, fields);
    FieldsCons(RTATTR[1..], fields[1..]);
    assert Packed(RTATTR[1..][1..], fields[1..][1..]) == [];
  }

  lemma ClampedLE(n: nat)
    ensures IntBytes(false, Int(2, false), n) == LE16(T.Clamp16(n))
  {
    var c := T.Clamp16(n);
    assert Pow256(2) == TWO_TO_THE_16;
    assert LE(c, 2) == [c % 256, c / 256 % 256];
  }

  lemma AlignPads(len: nat)
    ensures Align(len) - len == Pad(len)
  {
  }

  lemma JoinUp(a: seq<Byte>, b: seq<Byte>, c: seq<Byte>)
    ensures Join([a, b]) == a + b && Join([a, b] + [c]) == a + b + c && [a] + [b] == [a, b] && (c == [] ==> a + b + c == a + b)
    ensures Zeros(0) == []
  {
    assert Join([b]) == b && Join([c]) == c && Join([b, c]) == b + c;
    assert [a, b][1..] == [b] && ([a, b] + [c])[1..] == [b, c] && [b, c][1..] == [c];
  }

  /** sendNetlinkCommand, up to the send: the length of the whole goes into the header, and all is joined. */
  method SendNetlinkCommand(codec: Codec, typ: nat, flags: nat, seq_: nat, pid: nat, bufs: seq<seq<Byte>>)
    returns (all: seq<Byte>)
    modifies codec
    ensures all == Build(typ, flags, seq_, pid, Join(bufs))
    ensures |all| == 16 + |Join(bufs)| && all[16..] == Join(bufs)
    ensures
      typ < TWO_TO_THE_16 && flags < TWO_TO_THE_16 && seq_ < 0x1_0000_0000 && pid < 0x1_0000_0000 && |all| < 0x1_0000_0000 ==>
      && Read32(all, 0) == |all| && Read16(all, 4) == typ && Read16(all, 6) == flags
      && Read32(all, 8) == seq_ && Read32(all, 12) == pid
  {
    HeaderShape();
    hide SizeOf, Packed, Plain, Read16, Read32;
    var len := 0;
    assert bufs[0..] == bufs;
    for n := 0 to |bufs|
      invariant len + |Join(bufs[n..])| == |Join(bufs)|
    {
      assert bufs[n..][1..] == bufs[n + 1..];
      len := len + |bufs[n]|;
    }
    var header := PackFields(codec, NLMSG_HDR, [NLMSG_HDRLEN + len, typ, flags, seq_, pid]);
    all := Join([header] + bufs);
    assert ([header] + bufs)[1..] == bufs;
    BuildSize(typ, flags, seq_, pid, Join(bufs));
    if typ < TWO_TO_THE_16 && flags < TWO_TO_THE_16 && seq_ < 0x1_0000_0000 && pid < 0x1_0000_0000 && |all| < 0x1_0000_0000 {
      HeaderLayout(typ, flags, seq_, pid, Join(bufs));
    }
  }

  /** data.slice(from, end) */
  function SliceOf(data: seq<Byte>, from: nat, end: int): (r: seq<Byte>)
    requires from <= |data|
    ensures r == Clip(data[from..], end - from)
  {
    if end <= from then [] else if end <= |data| then data[from..end] else data[from..]
  }

  /** parseAttrs. A turn of the loop that does not move the index is followed by the same turn forever. */
  method ParseAttrs(data: seq<Byte>, attrStart: nat, names: seq<string>) returns (o: Outcome)
    ensures o == if attrStart >= |data| then Parsed(map[]) else ParseFrom(data[attrStart..], names, map[])
  {
    hide Read16, IsText, ParseFrom, FieldAt, Step;
    var ret: map<string, Field>, index := map[], attrStart;
    while index < |data|
      invariant (if attrStart >= |data| then Parsed(map[]) else ParseFrom(data[attrStart..], names, map[]))
        == (if index >= |data| then Parsed(ret) else ParseFrom(data[index..], names, ret))
      decreases |data| - index
    {
      ParseTurn(data, index, names, ret);
      if index + 4 > |data| { return Outcome.Throws; }
      var len: int := Read16(data, index) - 4;
      var attrType := Read16(data, index + 2);
      index := index + 4;
      if attrType < |names| {
        var key := names[attrType];
        FieldRead(key, data, index, len + 4);
        if IsText(key) {
          ret := ret[key := Name(Ascii(SliceOf(data, index, index + len - 1)))];
        } else {
          ret := ret[key := Slice(SliceOf(data, index, index + len))];
        }
      }
      var pad := Align(len) - len;
      if len + pad == -4 { return Outcome.Hangs; }
      index := index + (len + pad);
    }
    o := Parsed(ret);
  }

  lemma FieldRead(key: string, data: seq<Byte>, at: nat, declared: nat)
    requires at <= |data|
    ensures FieldAt(key, data[at..], declared) ==
      if IsText(key) then Name(Ascii(SliceOf(data, at, at + declared - 5))) else Slice(SliceOf(data, at, at + declared - 4))
  {
    hide IsText, Ascii;
  }

  /** One turn of the loop. */
  lemma ParseTurn(data: seq<Byte>, index: nat, names: seq<string>, ret: map<string, Field>)
    requires index < |data|
    ensures index + 4 > |data| ==> ParseFrom(data[index..], names, ret) == Outcome.Throws
    ensures index + 4 <= |data| ==>
      var declared, typ := Read16(data, index), Read16(data, index + 2);
      var now := if typ < |names| then ret[names[typ] := FieldAt(names[typ], data[index + 4..], declared)] else ret;
      var next := index + 4 + Align(declared - 4);
      && (next == index <==> declared == 0) && next >= index
      && ParseFrom(data[index..], names, ret)
        == if next == index then Outcome.Hangs
           else if next >= |data| then Parsed(now) else ParseFrom(data[next..], names, now)
  {
    hide *;
    var bs := data[index..];
    ParseOne(bs, names, ret);
    if index + 4 <= |data| {
      ReadInside(data, index);
      var n := Align(Read16(data, index) - 4) + 4;
      if n <= |bs| { assert bs[n..] == data[index + n..]; }
    }
  }

  lemma ParseOne(bs: seq<Byte>, names: seq<string>, ret: map<string, Field>)
    requires bs != []
    ensures |bs| < 4 ==> ParseFrom(bs, names, ret) == Outcome.Throws
    ensures |bs| >= 4 ==>
      var declared, typ, n := Read16(bs, 0), Read16(bs, 2), Align(Read16(bs, 0) - 4) + 4;
      var now := if typ < |names| then ret[names[typ] := FieldAt(names[typ], bs[4..], declared)] else ret;
      && (n == 0 <==> declared == 0) && n >= 0
      && ParseFrom(bs, names, ret)
        == if n == 0 then Outcome.Hangs else if n >= |bs| then Parsed(now) else ParseFrom(bs[n..], names, now)
  {
    hide Read16, FieldAt;
  }

  lemma ReadInside(data: seq<Byte>, index: nat)
    requires index + 4 <= |data|
    ensures Read16(data[index..], 0) == Read16(data, index) && Read16(data[index..], 2) == Read16(data, index + 2)
    ensures data[index..][4..] == data[index + 4..]
  {
  }

  /** parseRtattributes, of a buffer. */
  method ParseRtattributes(codec: Codec, data: seq<Byte>) returns (r: Reading)
    modifies codec
    ensures r == Parse(data)
  {
    hide UnpackAll, ParseFrom, Read16, Read32, Plain;
    if |data| < NLMSG_HDRLEN { return Nothing; }
    var totalLen := Read32(data, 0);
    if totalLen != |data| { return Nothing; }
    var typ := Read16(data, 4);
    if typ == NLMSG_DONE { return Nothing; }
    var index := NLMSG_HDRLEN;
    if Family(typ).None? { return Nothing; }
    var (items, names) := Family(typ).value;
    FamilyKnown(typ);
    var payload := codec.Unpack(Format(false, items), data, index);
    index := index + PAYLOAD_SIZES[typ - RTM_BASE];
    var o := ParseAttrs(data, index, names);
    if !o.Parsed? { return Failed(o); }
    r := Message(o.fields, payload, TYPE_NAMES[typ - RTM_BASE]);
  }

  lemma FamilyKnown(typ: nat)
    requires Family(typ).Some?
    ensures AllKnown(Family(typ).value.0) && typ - RTM_BASE < |PAYLOAD_SIZES| && typ - RTM_BASE < |TYPE_NAMES|
  {
  }
}
