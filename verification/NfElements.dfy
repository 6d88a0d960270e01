/**
  The elements the rule compiler writes, through the attribute tables and back: each becomes one
  attribute tree, and the receiver decodes the expression that was meant.
 */
module NfElements {
  import opened Bytes
  import opened Numerals
  import opened Options
  import opened TlvTree
  import opened NfAttr
  import opened NfAttributes
  import opened NfTables
  import opened NfRule
  import opened NfVm
  import opened Words

  function Wrapped(name: string, items: seq<Tlv>): Tlv
    requires IsAscii(name)
  {
    Nest(1, [Leaf(1, Ascii(name) + [0]), Nest(2, items)])
  }

  /** The bytes that an expression takes as a list element, attribute headers and padding included. */
  function ExprSize(e: Expr): nat {
    match e
    case Load(_, _, _, _) => 52
    case Mask(_, _, _, _, _) => 68
    case Compare(_, _, data) => 40 + |data| + Pad(4 + |data|)
    case Decide(_, _) => 48
  }

  /** The value v is one list element whose attributes decode to e; it takes so many bytes. */
  ghost predicate Reads(v: Value, e: Expr) {
    exists t :: ReadsAs(v, e, t)
  }

  ghost predicate ReadsAs(v: Value, e: Expr, t: Tlv) {
    TreeOf(NFT, v, LIST, None) == Done([t]) && DecodeElement(t) == Some(e) && |Print(t)| == ExprSize(e)
  }

  // ----- fields -----

  lemma {:induction false} FieldByField(fields: seq<Field>, attrs: CommandObject, exprName: Option<string>, ts: seq<Tlv>)
    requires |fields| == |ts|
    requires forall i :: 0 <= i < |ts| ==> TreeOfField(NFT, fields[i], attrs, exprName) == Done(ts[i])
    ensures TreeOfFields(NFT, fields, attrs, exprName) == Done(ts)
  {
    hide TreeOfField, NFT;
    if ts != [] {
      FieldByField(fields[1..], attrs, exprName, ts[1..]);
      assert ts == [ts[0]] + ts[1..];
    }
  }

  lemma {:induction false} FieldFails(fields: seq<Field>, attrs: CommandObject, exprName: Option<string>, i: nat)
    requires i < |fields| && !TreeOfField(NFT, fields[i], attrs, exprName).Done?
    ensures !TreeOfFields(NFT, fields, attrs, exprName).Done?
  {
    hide TreeOfField, NFT;
    if i > 0 { FieldFails(fields[1..], attrs, exprName, i - 1); }
  }

  lemma NumField(attrs: CommandObject, exprName: Option<string>, key: string, typ: nat, n: nat)
    requires SpecOf(attrs, key) == Some((typ, Number(32))) && n < TWO_TO_THE_53
    ensures TreeOfField(NFT, Field(key, Num(n)), attrs, exprName) == Done(Leaf(typ, BE(n, 4)))
  {
    hide SpecOf, NFT, BE;
    assert 32 in [8, 16, 32];
  }

  lemma SizeOfU32(typ: nat, n: nat)
    ensures |Print(Leaf(typ, BE(n, 4)))| == 8
  {
    hide BE;
    assert Pad(8) == 0;
  }

  // ----- the element around an expression -----

  lemma TextField(attrs: CommandObject, exprName: Option<string>, key: string, typ: nat, s: string)
    requires SpecOf(attrs, key) == Some((typ, Text)) && IsAscii(s)
    ensures TreeOfField(NFT, Field(key, Str(s)), attrs, exprName) == Done(Leaf(typ, Ascii(s) + [0]))
  {
    hide SpecOf, NFT, Ascii;
  }

  lemma DataField(name: string, data: seq<Field>)
    requires name in NFT
    ensures TreeOfField(NFT, Field("data", Obj(data)), EXPR, Some(name))
         == Nesting(2, TreeOf(NFT, Obj(data), NFT[name], None))
  {
    ExprSpecs();
    hide SpecOf, TreeOf, NFT, EXPR, Nesting;
  }

  lemma ElemField(v: Value, exprName: Option<string>)
    requires !v.Null?
    ensures TreeOfField(NFT, Field("elem", v), LIST, exprName) == Nesting(1, TreeOf(NFT, v, EXPR, NameOf(v)))
  {
    ElementSpecs();
    Lookups();
    hide SpecOf, TreeOf, NFT, LIST, EXPR, Nesting, NameOf;
  }

  function Inner(name: string, data: seq<Field>): seq<Field> {
    [Field("name", Str(name)), Field("data", Obj(data))]
  }

  lemma InnerName(name: string, data: seq<Field>)
    ensures NameOf(Obj(Inner(name, data))) == Some(name)
  {
  }

  lemma OneField(f: Field, attrs: CommandObject, exprName: Option<string>)
    ensures TreeOf(NFT, Obj([f]), attrs, exprName) == Then(TreeOfField(NFT, f, attrs, exprName), Done([]))
  {
    var rest := [f][1..];
    assert rest == [] && TreeOfFields(NFT, rest, attrs, exprName) == Done([]);
    hide TreeOfField, NFT, Then;
  }

  lemma ThenNothing(t: Outcome<Tlv>)
    ensures t.Done? ==> Then(t, Done([])) == Done([t.value])
    ensures !t.Done? ==> !Then(t, Done([])).Done?
  {
    if t.Done? { assert [t.value] + [] == [t.value]; }
  }

  /** The element wraps the attributes of its expression, and fails when they do. */
  lemma ElementTree(name: string, data: seq<Field>)
    requires name in NFT && IsAscii(name) && |name| <= 9
    ensures var inner := TreeOf(NFT, Obj(data), NFT[name], None);
      && (!inner.Done? ==> !TreeOf(NFT, Element(name, data), LIST, None).Done?)
      && (inner.Done? && |PrintAll(inner.value)| <= 48 ==>
          TreeOf(NFT, Element(name, data), LIST, None) == Done([Wrapped(name, inner.value)]))
  {
    hide *;
    var inner := TreeOf(NFT, Obj(data), NFT[name], None);
    ElementIs(name, data);
    ExprSpecs();
    InnerName(name, data);
    OneField(Field("elem", Obj(Inner(name, data))), LIST, None);
    ElemField(Obj(Inner(name, data)), None);
    DataField(name, data);
    TextField(EXPR, Some(name), "name", 1, name);
    ThenNothing(Nesting(1, TreeOf(NFT, Obj(Inner(name, data)), EXPR, Some(name))));
    InnerTree(name, data, inner);
  }

  lemma ElementIs(name: string, data: seq<Field>)
    ensures Element(name, data) == Obj([Field("elem", Obj(Inner(name, data)))])
  {
  }

  lemma InnerTree(name: string, data: seq<Field>, inner: Outcome<seq<Tlv>>)
    requires name in NFT && IsAscii(name) && |name| <= 9
    requires TreeOfField(NFT, Field("name", Str(name)), EXPR, Some(name)) == Done(Leaf(1, Ascii(name) + [0]))
    requires TreeOfField(NFT, Field("data", Obj(data)), EXPR, Some(name)) == Nesting(2, inner)
    ensures var whole := TreeOf(NFT, Obj(Inner(name, data)), EXPR, Some(name));
      && (!inner.Done? ==> !Nesting(1, whole).Done?)
      && (inner.Done? && |PrintAll(inner.value)| <= 48 ==> Nesting(1, whole) == Done(Wrapped(name, inner.value)))
  {
    hide TreeOfField, NFT, EXPR, PrintAll, Print, Ascii;
    var fields := Inner(name, data);
    assert TreeOf(NFT, Obj(fields), EXPR, Some(name)) == TreeOfFields(NFT, fields, EXPR, Some(name));
    if inner.Done? && |PrintAll(inner.value)| <= 48 {
      var ts := [Leaf(1, Ascii(name) + [0]), Nest(2, inner.value)];
      FieldByField(fields, EXPR, Some(name), ts);
      WrappedSize(name, inner.value);
    } else if !inner.Done? {
      FieldFails(fields, EXPR, Some(name), 1);
    }
  }

  lemma PairSize(a: Tlv, b: Tlv)
    ensures |PrintAll([a, b])| == |Print(a)| + |Print(b)|
  {
    PrintAllFirst([a, b]);
    PrintAllFirst([b]);
    assert [a, b][1..] == [b] && [b][1..] == [];
    hide Print;
  }

  lemma WrappedSize(name: string, items: seq<Tlv>)
    requires IsAscii(name) && |name| <= 9 && |PrintAll(items)| <= 48
    ensures |PrintAll([Leaf(1, Ascii(name) + [0]), Nest(2, items)])| <= 68
    ensures |Print(Wrapped(name, items))| == 13 + |name| + Pad(5 + |name|) + |PrintAll(items)|
  {
    var a, b := Leaf(1, Ascii(name) + [0]), Nest(2, items);
    PairSize(a, b);
    LeafSize(1, Ascii(name) + [0]);
    assert |Print(b)| == 4 + |PrintAll(items)|;
    hide PrintAll, Ascii;
  }

  lemma LeafSize(typ: nat, data: seq<Byte>)
    ensures |Print(Leaf(typ, data))| == 4 + |data| + Pad(4 + |data|)
  {
  }

  lemma DecodeWrapped(name: string, items: seq<Tlv>)
    requires IsAscii(name)
    ensures DecodeElement(Wrapped(name, items)) == Decode(Ascii(name) + [0], items)
  {
    hide Decode, Ascii;
    var parts := [Leaf(1, Ascii(name) + [0]), Nest(2, items)];
    assert parts[1..] == [Nest(2, items)];
    assert Find(parts, 1) == Some(parts[0]);
    assert Find(parts, 2) == Some(parts[1]);
  }

  // ----- load -----

  function LoadItems(base: nat, offset: nat, len: nat): seq<Tlv> {
    [Leaf(1, BE(1, 4)), Leaf(2, BE(base, 4)), Leaf(3, BE(offset, 4)), Leaf(4, BE(len, 4))]
  }

  lemma Find4(a: Tlv, b: Tlv, c: Tlv, d: Tlv)
    requires a.typ == 1 && b.typ == 2 && c.typ == 3 && d.typ == 4
    ensures var items := [a, b, c, d];
      Find(items, 1) == Some(a) && Find(items, 2) == Some(b) && Find(items, 3) == Some(c) && Find(items, 4) == Some(d)
    ensures |PrintAll([a, b, c, d])| == |Print(a)| + |Print(b)| + |Print(c)| + |Print(d)|
  {
    hide Print;
    PrintAllFirst([a, b, c, d]);
    assert [a, b, c, d][1..] == [b, c, d];
    Find3(b, c, d);
  }

  lemma Find3(b: Tlv, c: Tlv, d: Tlv)
    requires b.typ == 2 && c.typ == 3 && d.typ == 4
    ensures var items := [b, c, d];
      Find(items, 2) == Some(b) && Find(items, 3) == Some(c) && Find(items, 4) == Some(d)
    ensures |PrintAll([b, c, d])| == |Print(b)| + |Print(c)| + |Print(d)|
  {
    hide Print;
    PrintAllFirst([b, c, d]);
    assert [b, c, d][1..] == [c, d] && [c, d][1..] == [d];
    assert Find([d], 4) == Some(d) && Find([c, d], 4) == Some(d) && Find([c, d], 3) == Some(c);
    PairSize(c, d);
  }

  lemma SmallBE(n: nat)
    requires n < TWO_TO_THE_32
    ensures FromBE(BE(n, 4)) == n
  {
    assert Pow256(4) == TWO_TO_THE_32 by {
      assert Pow256(1) == 256 && Pow256(2) == 0x1_0000 && Pow256(3) == 0x100_0000;
    }
    FromBEOfBE(n, 4);
  }

  lemma LoadDecodes(base: nat, offset: nat, len: nat)
    requires base < TWO_TO_THE_32 && offset < TWO_TO_THE_32 && len < TWO_TO_THE_32
    ensures Decode(PAYLOAD_NAME, LoadItems(base, offset, len)) == Some(Load(1, base, offset, len))
    ensures |PrintAll(LoadItems(base, offset, len))| == 32
  {
    SmallBE(1);
    SmallBE(base);
    SmallBE(offset);
    SmallBE(len);
    SizeOfU32(1, 1);
    SizeOfU32(2, base);
    SizeOfU32(3, offset);
    SizeOfU32(4, len);
    hide BE, FromBE, Print, PrintAll, Find;
    Find4(Leaf(1, BE(1, 4)), Leaf(2, BE(base, 4)), Leaf(3, BE(offset, 4)), Leaf(4, BE(len, 4)));
  }

  lemma LoadFields(base: nat, offset: nat, len: nat)
    requires base < TWO_TO_THE_32 && offset < TWO_TO_THE_32 && len < TWO_TO_THE_32
    ensures var data := [Field("DREG", Num(1)), Field("BASE", Num(base)), Field("OFFSET", Num(offset)), Field("LEN", Num(len))];
      TreeOf(NFT, Obj(data), PAYLOAD, None) == Done(LoadItems(base, offset, len))
  {
    PayloadSpecs();
    hide SpecOf, TreeOfField, TreeOfFields, NFT, PAYLOAD;
    NumField(PAYLOAD, None, "DREG", 1, 1);
    NumField(PAYLOAD, None, "BASE", 2, base);
    NumField(PAYLOAD, None, "OFFSET", 3, offset);
    NumField(PAYLOAD, None, "LEN", 4, len);
    FieldByField([Field("DREG", Num(1)), Field("BASE", Num(base)), Field("OFFSET", Num(offset)), Field("LEN", Num(len))],
                 PAYLOAD, None, LoadItems(base, offset, len));
  }

  lemma AsciiIs(s: string, bs: seq<Byte>)
    requires |s| == |bs| && forall i :: 0 <= i < |s| ==> s[i] as nat == bs[i] < 128
    ensures IsAscii(s) && Ascii(s) + [0] == bs + [0]
  {
  }

  lemma Names()
    ensures IsAscii("payload") && Ascii("payload") + [0] == PAYLOAD_NAME
    ensures IsAscii("cmp") && Ascii("cmp") + [0] == CMP_NAME
    ensures IsAscii("bitwise") && Ascii("bitwise") + [0] == BITWISE_NAME
    ensures IsAscii("immediate") && Ascii("immediate") + [0] == IMMEDIATE_NAME
  {
    hide IsAscii, Ascii;
    AsciiIs("payload", [112, 97, 121, 108, 111, 97, 100]);
    AsciiIs("cmp", [99, 109, 112]);
    AsciiIs("bitwise", [98, 105, 116, 119, 105, 115, 101]);
    AsciiIs("immediate", [105, 109, 109, 101, 100, 105, 97, 116, 101]);
  }

  lemma LoadReads(base: nat, offset: nat, len: nat)
    requires base < TWO_TO_THE_32 && offset < TWO_TO_THE_32 && len < TWO_TO_THE_32
    ensures Reads(Payload(base, offset, len), Load(1, base, offset, len))
  {
    Lookups();
    Names();
    LoadFields(base, offset, len);
    LoadDecodes(base, offset, len);
    var data := [Field("DREG", Num(1)), Field("BASE", Num(base)), Field("OFFSET", Num(offset)), Field("LEN", Num(len))];
    var items := LoadItems(base, offset, len);
    assert Payload(base, offset, len) == Element("payload", data);
    hide *;
    ElementTree("payload", data);
    DecodeWrapped("payload", items);
    LoadSize(items, Load(1, base, offset, len));
    ReadsWitness(Payload(base, offset, len), Load(1, base, offset, len), Wrapped("payload", items));
  }

  lemma LoadSize(items: seq<Tlv>, e: Expr)
    requires IsAscii("payload") && e.Load? && |PrintAll(items)| == 32
    ensures |Print(Wrapped("payload", items))| == ExprSize(e)
  {
    hide PrintAll, Print, Wrapped, IsAscii;
    WrappedSize("payload", items);
  }

  lemma MaskSize(items: seq<Tlv>, e: Expr)
    requires IsAscii("bitwise") && e.Mask? && |PrintAll(items)| == 48
    ensures |Print(Wrapped("bitwise", items))| == ExprSize(e)
  {
    hide PrintAll, Print, Wrapped, IsAscii;
    WrappedSize("bitwise", items);
  }

  lemma DecideSize(items: seq<Tlv>, e: Expr)
    requires IsAscii("immediate") && e.Decide? && |PrintAll(items)| == 24
    ensures |Print(Wrapped("immediate", items))| == ExprSize(e)
  {
    hide PrintAll, Print, Wrapped, IsAscii;
    WrappedSize("immediate", items);
  }

  lemma CompareSize(items: seq<Tlv>, e: Expr)
    requires IsAscii("cmp") && e.Compare? && |e.data| <= 4 && |PrintAll(items)| == 24 + |e.data| + Pad(4 + |e.data|)
    ensures |Print(Wrapped("cmp", items))| == ExprSize(e)
  {
    hide PrintAll, Print, Wrapped, IsAscii;
    WrappedSize("cmp", items);
  }

  lemma ReadsWitness(v: Value, e: Expr, t: Tlv)
    requires TreeOf(NFT, v, LIST, None) == Done([t]) && DecodeElement(t) == Some(e) && |Print(t)| == ExprSize(e)
    ensures Reads(v, e)
  {
    hide NFT, TreeOf, LIST, DecodeElement, Print;
    assert ReadsAs(v, e, t);
  }

  // ----- compare -----

  lemma GenericShort(text: string)
    ensures GenericBytes(Str(text)).Done? ==> 1 <= |GenericBytes(Str(text)).value| <= 4
  {
    hide IndexOf, Lower, ParseInt, BE, Numeral;
  }

  lemma NoName(f: Field)
    requires f.key != "name"
    ensures NameOf(Obj([f])) == None
  {
    var rest := [f][1..];
    assert rest == [] && NameIn(rest) == None;
  }

  /** A nest of one attribute. */
  lemma NestField(attrs: CommandObject, exprName: Option<string>, key: string, typ: nat, x: string, f: Field)
    requires SpecOf(attrs, key) == Some((typ, Nested(x))) && x in NFT && f.key != "name"
    ensures var inner := TreeOfField(NFT, f, NFT[x], None);
      var tree := TreeOfField(NFT, Field(key, Obj([f])), attrs, exprName);
      && (inner.Done? && |Print(inner.value)| <= 40 ==> tree == Done(Nest(typ, [inner.value])))
      && (!inner.Done? ==> !tree.Done?)
  {
    var inner := TreeOfField(NFT, f, NFT[x], None);
    NoName(f);
    hide SpecOf, NFT, PrintAll, Print, TreeOf, NameOf;
    assert TreeOfField(NFT, Field(key, Obj([f])), attrs, exprName) == Nesting(typ, TreeOf(NFT, Obj([f]), NFT[x], None));
    hide TreeOfField;
    OneField(f, NFT[x], None);
    ThenNothing(inner);
    if inner.Done? { PrintOne(inner.value); }
  }

  lemma PrintOne(t: Tlv)
    ensures |PrintAll([t])| == |Print(t)|
  {
    PrintAllFirst([t]);
    assert [t][1..] == [];
    hide Print;
  }

  /** A value in its nest; it fails when the generic encoder does. */
  lemma ValueNest(attrs: CommandObject, exprName: Option<string>, key: string, typ: nat, text: string)
    requires SpecOf(attrs, key) == Some((typ, Nested("data")))
    ensures var d := GenericBytes(Str(text));
      var tree := TreeOfField(NFT, Field(key, Obj([Field("VALUE", Str(text))])), attrs, exprName);
      && (d.Done? ==> tree == Done(Nest(typ, [Leaf(1, d.value)])) && |d.value| <= 4)
      && (!d.Done? ==> !tree.Done?)
  {
    Lookups();
    DataSpecs();
    GenericShort(text);
    ValueLeaf(text);
    hide *;
    var f := Field("VALUE", Str(text));
    NestField(attrs, exprName, key, typ, "data", f);
    var d := GenericBytes(Str(text));
    if d.Done? { LeafSize(1, d.value); }
  }

  lemma ValueLeaf(text: string)
    requires SpecOf(DATA, "VALUE") == Some((1, Generic))
    ensures var d := GenericBytes(Str(text));
      var tree := TreeOfField(NFT, Field("VALUE", Str(text)), DATA, None);
      && (d.Done? ==> tree == Done(Leaf(1, d.value)))
      && (!d.Done? ==> !tree.Done?)
  {
    hide SpecOf, NFT, DATA, GenericBytes;
  }

  lemma NestedLeafSize(typ: nat, d: seq<Byte>)
    ensures |PrintAll([Leaf(typ, d)])| == 4 + |d| + Pad(4 + |d|)
  {
    PrintAllFirst([Leaf(typ, d)]);
    assert [Leaf(typ, d)][1..] == [];
    LeafSize(typ, d);
    hide Print;
  }

  function CompareItems(d: seq<Byte>): seq<Tlv> {
    [Leaf(1, BE(1, 4)), Leaf(2, BE(0, 4)), Nest(3, [Leaf(1, d)])]
  }

  lemma CompareDecodes(d: seq<Byte>)
    requires |d| <= 4
    ensures Decode(CMP_NAME, CompareItems(d)) == Some(Compare(1, 0, d))
    ensures |PrintAll(CompareItems(d))| == 24 + |d| + Pad(4 + |d|)
  {
    hide BE, FromBE, PrintAll;
    SmallBE(1);
    SmallBE(0);
    SizeOfU32(1, 1);
    SizeOfU32(2, 0);
    NestedLeafSize(1, d);
    var a, b, c := Leaf(1, BE(1, 4)), Leaf(2, BE(0, 4)), Nest(3, [Leaf(1, d)]);
    assert |Print(c)| == 4 + |PrintAll([Leaf(1, d)])|;
    Find3From1(a, b, c);
    assert Find([Leaf(1, d)], 1) == Some(Leaf(1, d));
    hide Print, Find;
  }

  lemma Find3From1(a: Tlv, b: Tlv, c: Tlv)
    requires a.typ == 1 && b.typ == 2 && c.typ == 3
    ensures Find([a, b, c], 1) == Some(a) && Find([a, b, c], 2) == Some(b) && Find([a, b, c], 3) == Some(c)
    ensures |PrintAll([a, b, c])| == |Print(a)| + |Print(b)| + |Print(c)|
  {
    hide Print;
    PrintAllFirst([a, b, c]);
    assert [a, b, c][1..] == [b, c] && [b, c][1..] == [c];
    assert Find([c], 3) == Some(c) && Find([b, c], 3) == Some(c) && Find([b, c], 2) == Some(b);
    PairSize(b, c);
  }

  function CompareData(text: string): seq<Field> {
    [Field("SREG", Num(1)), Field("OP", Num(0)), Field("DATA", Obj([Field("VALUE", Str(text))]))]
  }

  lemma CompareFields(text: string)
    ensures var d, tree := GenericBytes(Str(text)), TreeOf(NFT, Obj(CompareData(text)), CMP, None);
      && (d.Done? ==> tree == Done(CompareItems(d.value)) && |d.value| <= 4)
      && (!d.Done? ==> !tree.Done?)
  {
    CmpSpecs();
    hide SpecOf, TreeOfField, TreeOfFields, NFT, CMP, GenericBytes;
    NumField(CMP, None, "SREG", 1, 1);
    NumField(CMP, None, "OP", 2, 0);
    ValueNest(CMP, None, "DATA", 3, text);
    if GenericBytes(Str(text)).Done? {
      FieldByField(CompareData(text), CMP, None, CompareItems(GenericBytes(Str(text)).value));
    } else {
      FieldFails(CompareData(text), CMP, None, 2);
    }
  }

  lemma CompareIs(text: string)
    ensures Cmp(text) == Element("cmp", CompareData(text)) && "cmp" in NFT && NFT["cmp"] == CMP && |"cmp"| == 3
  {
    Lookups();
  }

  /** A comparison is with the bytes of the generic encoder; where those are not defined, neither is the message. */
  lemma CompareReads(text: string)
    ensures GenericBytes(Str(text)).Done? ==> Reads(Cmp(text), Compare(1, 0, GenericBytes(Str(text)).value))
    ensures !GenericBytes(Str(text)).Done? ==> !TreeOf(NFT, Cmp(text), LIST, None).Done?
  {
    hide *;
    Names();
    CompareIs(text);
    CompareFields(text);
    ElementTree("cmp", CompareData(text));
    var d := GenericBytes(Str(text));
    if d.Done? {
      var items := CompareItems(d.value);
      CompareDecodes(d.value);
      DecodeWrapped("cmp", items);
      CompareSize(items, Compare(1, 0, d.value));
      ReadsWitness(Cmp(text), Compare(1, 0, d.value), Wrapped("cmp", items));
    }
  }

  // ----- mask -----

  function MaskItems(mask: seq<Byte>, xor: seq<Byte>): seq<Tlv> {
    [Leaf(1, BE(1, 4)), Leaf(2, BE(1, 4)), Leaf(3, BE(4, 4)), Nest(4, [Leaf(1, mask)]), Nest(5, [Leaf(1, xor)])]
  }

  lemma Find5(a: Tlv, b: Tlv, c: Tlv, d: Tlv, e: Tlv)
    requires a.typ == 1 && b.typ == 2 && c.typ == 3 && d.typ == 4 && e.typ == 5
    ensures var items := [a, b, c, d, e];
      && Find(items, 1) == Some(a) && Find(items, 2) == Some(b) && Find(items, 3) == Some(c)
      && Find(items, 4) == Some(d) && Find(items, 5) == Some(e)
    ensures |PrintAll([a, b, c, d, e])| == |Print(a)| + |Print(b)| + |Print(c)| + |Print(d)| + |Print(e)|
  {
    hide Print;
    var items := [a, b, c, d, e];
    assert items[1..] == [b, c, d, e] && items[1..][1..] == [c, d, e];
    PrintAllFirst(items);
    PrintAllFirst([b, c, d, e]);
    Find345(c, d, e);
    hide PrintAll;
    assert Find([b, c, d, e], 5) == Find([c, d, e], 5) && Find([b, c, d, e], 4) == Find([c, d, e], 4);
    assert Find([b, c, d, e], 3) == Find([c, d, e], 3);
  }

  lemma Find345(c: Tlv, d: Tlv, e: Tlv)
    requires c.typ == 3 && d.typ == 4 && e.typ == 5
    ensures Find([c, d, e], 3) == Some(c) && Find([c, d, e], 4) == Some(d) && Find([c, d, e], 5) == Some(e)
    ensures |PrintAll([c, d, e])| == |Print(c)| + |Print(d)| + |Print(e)|
  {
    hide Print;
    PrintAllFirst([c, d, e]);
    assert [c, d, e][1..] == [d, e] && [d, e][1..] == [e];
    assert Find([e], 5) == Some(e) && Find([d, e], 5) == Some(e) && Find([d, e], 4) == Some(d);
    PairSize(d, e);
  }

  lemma MaskDecodes(mask: seq<Byte>, xor: seq<Byte>)
    requires |mask| == |xor| == 4
    ensures Decode(BITWISE_NAME, MaskItems(mask, xor)) == Some(Mask(1, 1, 4, mask, xor))
    ensures |PrintAll(MaskItems(mask, xor))| == 48
  {
    SmallBE(1);
    SmallBE(4);
    SizeOfU32(1, 1);
    SizeOfU32(2, 1);
    SizeOfU32(3, 4);
    NestedLeafSize(1, mask);
    NestedLeafSize(1, xor);
    var a, b, c := Leaf(1, BE(1, 4)), Leaf(2, BE(1, 4)), Leaf(3, BE(4, 4));
    var d, e := Nest(4, [Leaf(1, mask)]), Nest(5, [Leaf(1, xor)]);
    assert |Print(d)| == 12 && |Print(e)| == 12;
    assert Find([Leaf(1, mask)], 1) == Some(Leaf(1, mask)) && Find([Leaf(1, xor)], 1) == Some(Leaf(1, xor));
    hide BE, FromBE, Print, PrintAll, Find;
    Find5(a, b, c, d, e);
  }

  function MaskData(hex: string): seq<Field> {
    [Field("SREG", Num(1)), Field("DREG", Num(1)), Field("LEN", Num(4)),
     Field("MASK", Obj([Field("VALUE", Str("0x" + hex))])), Field("XOR", Obj([Field("VALUE", Str("0x00000000"))]))]
  }

  lemma MaskFields(hex: string, mask: seq<Byte>, xor: seq<Byte>)
    requires GenericBytes(Str("0x" + hex)) == Done(mask) && GenericBytes(Str("0x00000000")) == Done(xor)
    ensures TreeOf(NFT, Obj(MaskData(hex)), BITWISE, None) == Done(MaskItems(mask, xor))
  {
    BitwiseSpecs();
    hide SpecOf, TreeOfField, TreeOfFields, NFT, BITWISE, GenericBytes;
    NumField(BITWISE, None, "SREG", 1, 1);
    NumField(BITWISE, None, "DREG", 2, 1);
    NumField(BITWISE, None, "LEN", 3, 4);
    ValueNest(BITWISE, None, "MASK", 4, "0x" + hex);
    ValueNest(BITWISE, None, "XOR", 5, "0x00000000");
    FieldByField(MaskData(hex), BITWISE, None, MaskItems(mask, xor));
  }

  lemma SmallPowers()
    ensures Pow256(1) == 256 && Pow256(2) == 0x1_0000 && Pow256(4) == TWO_TO_THE_32 < TWO_TO_THE_53
  {
    assert Pow256(3) == 0x100_0000;
  }

  /** The bytes behind 0x and their hexadecimal text. */
  lemma GenericOfHexText(bs: seq<Byte>)
    requires |bs| == 1 || |bs| == 2 || |bs| == 4
    ensures GenericBytes(Str("0x" + HexText(bs))) == Done(bs)
  {
    hide FromBE, BE, GenericBytes, GenericWrite, HexText, ValueOf, AllDigits;
    BytesBelow(bs);
    WriteOfBytes(FromBE(bs), |bs|);
    HexTextValue(bs);
    BEOfFromBE(bs);
    GenericHex(HexText(bs));
  }

  lemma BytesBelow(bs: seq<Byte>)
    requires |bs| == 1 || |bs| == 2 || |bs| == 4
    ensures FromBE(bs) < TWO_TO_THE_53
  {
    SmallPowers();
    FromBEBound(bs);
    hide FromBE, Pow256;
  }

  lemma WriteOfBytes(n: nat, len: nat)
    requires (len == 1 || len == 2 || len == 4) && n < TWO_TO_THE_53
    ensures GenericWrite(Some(n), 2 * len) == Done(BE(n, len))
  {
    hide BE;
  }

  lemma {:induction false} BEZero(len: nat)
    ensures BE(0, len) == Zeros(len)
  {
    if len > 0 { BEZero(len - 1); }
  }

  lemma ZeroText()
    ensures GenericBytes(Str("0x00000000")) == Done(Zeros(4))
  {
    hide GenericBytes, ValueOf, AllDigits, BE, Zeros;
    ZeroesValue(8, 16);
    BEZero(4);
    assert Zeroes(8) == "00000000";
    GenericHex("00000000");
    assert GenericWrite(Some(0), 8) == Done(BE(0, 4));
    assert "0x" + "00000000" == "0x00000000";
  }

  lemma MaskReads(mask: seq<Byte>)
    requires |mask| == 4
    ensures Reads(Bitwise(HexText(mask)), Mask(1, 1, 4, mask, Zeros(4)))
  {
    Lookups();
    Names();
    GenericOfHexText(mask);
    ZeroText();
    var hex, xor := HexText(mask), Zeros(4);
    MaskFields(hex, mask, xor);
    MaskDecodes(mask, xor);
    assert Bitwise(hex) == Element("bitwise", MaskData(hex));
    hide *;
    var items := MaskItems(mask, xor);
    ElementTree("bitwise", MaskData(hex));
    DecodeWrapped("bitwise", items);
    MaskSize(items, Mask(1, 1, 4, mask, xor));
    ReadsWitness(Bitwise(hex), Mask(1, 1, 4, mask, xor), Wrapped("bitwise", items));
  }

  // ----- verdict -----

  function DecideItems(code: nat): seq<Tlv> {
    [Leaf(1, BE(0, 4)), Nest(2, [Nest(2, [Leaf(1, BE(code, 4))])])]
  }

  lemma DecideDecodes(code: nat)
    requires code < TWO_TO_THE_32
    ensures Decode(IMMEDIATE_NAME, DecideItems(code)) == Some(Decide(0, code))
    ensures |PrintAll(DecideItems(code))| == 24
  {
    SmallBE(0);
    SmallBE(code);
    SizeOfU32(1, 0);
    NestedLeafSize(1, BE(code, 4));
    var inner := Nest(2, [Leaf(1, BE(code, 4))]);
    var a, b := Leaf(1, BE(0, 4)), Nest(2, [inner]);
    assert |Print(inner)| == 12;
    assert [inner][1..] == [];
    PrintAllFirst([inner]);
    assert |Print(b)| == 16;
    PairSize(a, b);
    assert [a, b][1..] == [b];
    assert Find([a, b], 1) == Some(a) && Find([a, b], 2) == Some(b) && Find([inner], 2) == Some(inner);
    assert Find(inner.items, 1) == Some(Leaf(1, BE(code, 4)));
    hide BE, FromBE, Print, PrintAll, Find;
  }

  function DecideData(code: nat): seq<Field> {
    [Field("DREG", Num(0)), Field("DATA", Obj([Field("VERDICT", Obj([Field("CODE", Num(code))]))]))]
  }

  lemma DecideFields(code: nat)
    requires code < TWO_TO_THE_32
    ensures TreeOf(NFT, Obj(DecideData(code)), IMMEDIATE, None) == Done(DecideItems(code))
  {
    Lookups();
    ImmediateSpecs();
    var fields := DecideData(code);
    var leaf := Leaf(1, BE(code, 4));
    VerdictNest(code);
    NumField(IMMEDIATE, None, "DREG", 1, 0);
    assert "VERDICT" != "name" by { assert |"VERDICT"| == 7; }
    hide *;
    NestSize(2, leaf);
    SizeOfU32(1, code);
    NestField(IMMEDIATE, None, "DATA", 2, "data", Field("VERDICT", Obj([Field("CODE", Num(code))])));
    DecideTree(code);
  }

  lemma VerdictNest(code: nat)
    requires code < TWO_TO_THE_32
    ensures TreeOfField(NFT, Field("VERDICT", Obj([Field("CODE", Num(code))])), DATA, None)
         == Done(Nest(2, [Leaf(1, BE(code, 4))]))
  {
    Lookups();
    DataSpecs();
    VerdictSpecs();
    assert "CODE" != "name" by { assert "CODE"[0] == 'C'; }
    hide *;
    SizeOfU32(1, code);
    NumField(VERDICT, None, "CODE", 1, code);
    NestField(DATA, None, "VERDICT", 2, "verdict", Field("CODE", Num(code)));
  }

  lemma DecideTree(code: nat)
    requires TreeOfField(NFT, Field("DREG", Num(0)), IMMEDIATE, None) == Done(Leaf(1, BE(0, 4)))
    requires TreeOfField(NFT, Field("DATA", Obj([Field("VERDICT", Obj([Field("CODE", Num(code))]))])), IMMEDIATE, None)
          == Done(Nest(2, [Nest(2, [Leaf(1, BE(code, 4))])]))
    ensures TreeOf(NFT, Obj(DecideData(code)), IMMEDIATE, None) == Done(DecideItems(code))
  {
    hide TreeOfField, TreeOfFields, NFT, IMMEDIATE, BE;
    FieldByField(DecideData(code), IMMEDIATE, None, DecideItems(code));
  }

  lemma NestSize(typ: nat, t: Tlv)
    ensures |Print(Nest(typ, [t]))| == 4 + |Print(t)|
  {
    PrintOne(t);
    assert Print(Nest(typ, [t])) == Header(HEADER + |PrintAll([t])|, NLA_F_NESTED + typ) + PrintAll([t]);
  }

  lemma DecideReads(v: Verdict)
    ensures Reads(Immediate(v), Decide(0, if v.Drop? then NF_DROP else NF_ACCEPT))
  {
    assert Code(v) == if v.Drop? then NF_DROP else NF_ACCEPT;
    Lookups();
    Names();
    var code := Code(v);
    DecideFields(code);
    DecideDecodes(code);
    assert Immediate(v) == Element("immediate", DecideData(code));
    hide *;
    var items := DecideItems(code);
    ElementTree("immediate", DecideData(code));
    DecodeWrapped("immediate", items);
    DecideSize(items, Decide(0, code));
    ReadsWitness(Immediate(v), Decide(0, code), Wrapped("immediate", items));
  }
}
