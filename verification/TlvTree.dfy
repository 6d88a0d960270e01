/**
  Netlink attributes as trees: a leaf carries bytes, a nest carries attributes. Print is the plain
  recursive serializer, Parse reads it back (sections 2.2 and 2.3.2 of RFC 3549 give the layout:
  a little-endian length and type on the hosts this code runs on, padding to four bytes).
 */
module TlvTree {
  import opened Bytes
  import opened Options

  const NLA_F_NESTED: nat := 0x8000
  const HEADER: nat := 4

  datatype Tlv = Leaf(typ: nat, data: seq<Byte>) | Nest(typ: nat, items: seq<Tlv>)

  /** The 16-bit length field of an attribute; the struct packer clamps what does not fit. */
  function Clamp16(n: nat): (r: nat)
    ensures r < TWO_TO_THE_16 && (n < TWO_TO_THE_16 ==> r == n)
  {
    if n < TWO_TO_THE_16 then n else TWO_TO_THE_16 - 1
  }

  function Header(len: nat, typ: nat): (r: seq<Byte>)
    ensures |r| == HEADER
  {
    LE16(len) + LE16(typ)
  }

  function Print(t: Tlv): (bs: seq<Byte>)
    ensures |bs| >= HEADER && |bs| % 4 == 0
    decreases t
  {
    match t
    case Leaf(typ, data) =>
      assert (HEADER + |data| + Pad(HEADER + |data|)) % 4 == 0;
      Header(Clamp16(HEADER + |data|), Clamp16(typ)) + data + Zeros(Pad(HEADER + |data|))
    case Nest(typ, items) =>
      assert (HEADER + |PrintAll(items)|) % 4 == 0;
      Header(HEADER + |PrintAll(items)|, NLA_F_NESTED + typ) + PrintAll(items)
  }

  function PrintAll(ts: seq<Tlv>): (bs: seq<Byte>)
    ensures |bs| % 4 == 0
    decreases ts
  {
    if ts == [] then [] else Print(ts[0]) + PrintAll(ts[1..])
  }

  /** Every length field and every type fits its 16 (15) bits. */
  predicate Fits(t: Tlv)
    decreases t
  {
    && t.typ < NLA_F_NESTED
    && match t
       case Leaf(_, data) => HEADER + |data| < TWO_TO_THE_16
       case Nest(_, items) => HEADER + |PrintAll(items)| < TWO_TO_THE_16 && AllFit(items)
  }

  predicate AllFit(ts: seq<Tlv>)
    decreases ts
  {
    ts == [] || (Fits(ts[0]) && AllFit(ts[1..]))
  }

  /** What a receiver reads: attribute after attribute, a nest where the flag says so. */
  function Parse(bs: seq<Byte>): Option<seq<Tlv>>
    decreases |bs|, 0
  {
    if bs == [] then Some([])
    else if |bs| < HEADER then None
    else
      var len, typ := Read16(bs, 0), Read16(bs, 2);
      if len < HEADER || len + Pad(len) > |bs| then None
      else
        var item := if typ < NLA_F_NESTED then Some(Leaf(typ, bs[HEADER..len])) else ParseNest(typ, bs[HEADER..len]);
        var rest := Parse(bs[len + Pad(len)..]);
        if item.None? || rest.None? then None else Some([item.value] + rest.value)
  }

  function ParseNest(typ: nat, body: seq<Byte>): Option<Tlv>
    requires typ >= NLA_F_NESTED
    decreases |body|, 1
  {
    var items := Parse(body);
    if items.None? then None else Some(Nest(typ - NLA_F_NESTED, items.value))
  }

  lemma HeaderReads(len: nat, typ: nat, body: seq<Byte>)
    requires len < TWO_TO_THE_16 && typ < TWO_TO_THE_16
    ensures Read16(Header(len, typ) + body, 0) == len && Read16(Header(len, typ) + body, 2) == typ
  {
    Read16LE16(len);
    Read16LE16(typ);
  }

  /** What Parse does with an attribute of length len in front of rest. */
  lemma ParseFirst(len: nat, typ: nat, body: seq<Byte>, rest: seq<Byte>)
    requires len == HEADER + |body| < TWO_TO_THE_16 && typ < TWO_TO_THE_16
    ensures var bs := Header(len, typ) + body + Zeros(Pad(len)) + rest;
      Parse(bs) ==
      (var item := if typ < NLA_F_NESTED then Some(Leaf(typ, body)) else ParseNest(typ, body);
       var tail := Parse(rest);
       if item.None? || tail.None? then None else Some([item.value] + tail.value))
  {
    var bs := Header(len, typ) + body + Zeros(Pad(len)) + rest;
    HeaderReads(len, typ, body + Zeros(Pad(len)) + rest);
    assert bs == Header(len, typ) + (body + Zeros(Pad(len)) + rest);
    assert bs[HEADER..len] == body;
    assert bs[len + Pad(len)..] == rest;
    hide ParseNest, Header, Pad, Zeros, Read16;
  }

  /** Reading what was printed gives the trees back, whatever their depth. */
  lemma {:induction false} ParsePrint(ts: seq<Tlv>)
    requires AllFit(ts)
    ensures Parse(PrintAll(ts)) == Some(ts)
    decreases ts
  {
    if ts != [] {
      ParsePrint(ts[1..]);
      var t := ts[0];
      match t
      case Leaf(typ, data) => PrintLeafFirst(typ, data, ts);
      case Nest(typ, items) =>
        ParsePrint(items);
        PrintNestFirst(typ, items, ts);
    }
  }

  lemma PrintLeafFirst(typ: nat, data: seq<Byte>, ts: seq<Tlv>)
    requires ts != [] && ts[0] == Leaf(typ, data) && Fits(ts[0]) && Parse(PrintAll(ts[1..])) == Some(ts[1..])
    ensures Parse(PrintAll(ts)) == Some(ts)
  {
    var len, rest := HEADER + |data|, PrintAll(ts[1..]);
    LeafPrint(typ, data);
    hide *;
    PrintAllFirst(ts);
    ParseFirst(len, typ, data, rest);
    assert ts == [ts[0]] + ts[1..];
  }

  lemma PrintNestFirst(typ: nat, items: seq<Tlv>, ts: seq<Tlv>)
    requires ts != [] && ts[0] == Nest(typ, items) && Fits(ts[0])
    requires Parse(PrintAll(items)) == Some(items) && Parse(PrintAll(ts[1..])) == Some(ts[1..])
    ensures Parse(PrintAll(ts)) == Some(ts)
  {
    hide *;
    var body, rest := PrintAll(items), PrintAll(ts[1..]);
    var len := HEADER + |body|;
    PrintAllFirst(ts);
    NestPrint(typ, items);
    assert ts == [ts[0]] + ts[1..];
    ParseNestOf(NLA_F_NESTED + typ, body, items);
    ParseFirst(len, NLA_F_NESTED + typ, body, rest);
  }

  lemma PrintAllFirst(ts: seq<Tlv>)
    requires ts != []
    ensures PrintAll(ts) == Print(ts[0]) + PrintAll(ts[1..])
  {
    hide Print;
  }

  lemma LeafPrint(typ: nat, data: seq<Byte>)
    requires Fits(Leaf(typ, data))
    ensures var len := HEADER + |data|;
      len < TWO_TO_THE_16 && typ < NLA_F_NESTED < TWO_TO_THE_16
      && Print(Leaf(typ, data)) == Header(len, typ) + data + Zeros(Pad(len))
  {
    hide Header, Pad, Zeros;
  }

  lemma NestPrint(typ: nat, items: seq<Tlv>)
    requires Fits(Nest(typ, items))
    ensures var len := HEADER + |PrintAll(items)|;
      len < TWO_TO_THE_16 && NLA_F_NESTED + typ < TWO_TO_THE_16
      && Print(Nest(typ, items)) == Header(len, NLA_F_NESTED + typ) + PrintAll(items) + Zeros(Pad(len))
  {
    hide Header, PrintAll;
    assert Zeros(Pad(HEADER + |PrintAll(items)|)) == [];
  }

  lemma ParseNestOf(typ: nat, body: seq<Byte>, items: seq<Tlv>)
    requires typ >= NLA_F_NESTED && Parse(body) == Some(items)
    ensures ParseNest(typ, body) == Some(Nest(typ - NLA_F_NESTED, items))
  {
    hide Parse;
  }

  lemma {:induction false} PrintAllOfSum(a: seq<Tlv>, b: seq<Tlv>)
    ensures PrintAll(a + b) == PrintAll(a) + PrintAll(b)
  {
    hide *;
    if a == [] {
      PrintNothing();
      assert a + b == b;
    } else {
      PrintAllOfSum(a[1..], b);
      PrintAllFirst(a);
      PrintAllFirst(a + b);
      assert (a + b)[1..] == a[1..] + b;
    }
  }

  lemma PrintNothing()
    ensures PrintAll([]) == []
  {
  }

  /** No type uses the two flag bits. */
  predicate TypeFits(t: Tlv)
    decreases t
  {
    t.typ < NLA_F_NESTED && (t.Nest? ==> TypesFit(t.items))
  }

  predicate TypesFit(ts: seq<Tlv>)
    decreases ts
  {
    ts == [] || (TypeFits(ts[0]) && TypesFit(ts[1..]))
  }

  /** When the whole fits 16 bits, so does every length inside it. */
  lemma {:induction false} SmallFits(ts: seq<Tlv>)
    requires TypesFit(ts) && |PrintAll(ts)| < TWO_TO_THE_16
    ensures AllFit(ts)
    decreases ts
  {
    if ts != [] {
      PrintAllFirst(ts);
      SmallFits(ts[1..]);
      SmallFitsOne(ts[0]);
    }
  }

  lemma {:induction false} SmallFitsOne(t: Tlv)
    requires TypeFits(t) && |Print(t)| < TWO_TO_THE_16
    ensures Fits(t)
    decreases t
  {
    if t.Nest? { SmallFits(t.items); }
  }

  /**
    An attribute byte by byte: the length of header and data in bytes 0 and 1, the type in 2 and 3, the data, and
    zeros up to a multiple of four.
   */
  lemma LeafLayout(typ: nat, data: seq<Byte>)
    requires typ < 0x1_0000 && 4 + |data| < 0x1_0000
    ensures var bs := Print(Leaf(typ, data));
      && |bs| == (4 + |data| + 3) / 4 * 4 && bs[4..4 + |data|] == data
      && (var a: int, b: int := bs[0], bs[1]; a + 0x100 * b == 4 + |data|)
      && (var a: int, b: int := bs[2], bs[3]; a + 0x100 * b == typ)
      && forall i :: 4 + |data| <= i < |bs| ==> bs[i] == 0
  {
    Read16LE16(4 + |data|);
    Read16LE16(typ);
    hide LE16, Zeros;
  }

  /** A nest: the length of header and contents, the type with its top bit set, the contents. */
  lemma NestLayout(typ: nat, items: seq<Tlv>)
    requires typ < 0x8000 && 4 + |PrintAll(items)| < 0x1_0000
    ensures var bs := Print(Nest(typ, items));
      && bs[4..] == PrintAll(items)
      && (var a: int, b: int := bs[0], bs[1]; a + 0x100 * b == 4 + |PrintAll(items)|)
      && (var a: int, b: int := bs[2], bs[3]; a + 0x100 * b == 0x8000 + typ)
  {
    Read16LE16(4 + |PrintAll(items)|);
    Read16LE16(0x8000 + typ);
    hide LE16, PrintAll;
  }

  /** Two lists of trees never share a serialization. */
  lemma PrintInjective(a: seq<Tlv>, b: seq<Tlv>)
    requires AllFit(a) && AllFit(b) && PrintAll(a) == PrintAll(b)
    ensures a == b
  {
    ParsePrint(a);
    ParsePrint(b);
  }
}
