/**
  NfAttributes: a parameter object becomes a flat list of attribute buffers. A nest is a header buffer
  whose length is raised, after its contents were appended, by the sizes of everything behind it.
  TreeOf says which attribute trees the parameters denote; ParseNfAttrs is proved to lay down exactly
  their serialization.
 */
module NfAttributes {
  import opened Bytes
  import opened Options
  import opened TlvTree
  import opened NfAttr

  /** The nft_x_attributes tables by x. */
  type Tables = map<string, CommandObject>

  predicate TablesFit(tables: Tables) {
    forall x :: x in tables ==> NumbersFit(tables[x])
  }

  // ----- the trees that parameters denote -----

  function Then(first: Outcome<Tlv>, rest: Outcome<seq<Tlv>>): Outcome<seq<Tlv>> {
    match first
    case Throws => Throws
    case Unmodelled => Unmodelled
    case Done(t) => After([t], rest)
  }

  function After(ts: seq<Tlv>, rest: Outcome<seq<Tlv>>): Outcome<seq<Tlv>> {
    if rest.Done? then Done(ts + rest.value) else rest
  }

  /** A nest whose length does not fit 16 bits throws. */
  function Nesting(typ: nat, items: Outcome<seq<Tlv>>): Outcome<Tlv> {
    match items
    case Throws => Throws
    case Unmodelled => Unmodelled
    case Done(ts) => if HEADER + |PrintAll(ts)| < TWO_TO_THE_16 then Done(Nest(typ, ts)) else Throws
  }

  /** a.value.name, as far as it can name a table. */
  function NameOf(v: Value): Option<string> {
    if v.Obj? then NameIn(v.fields) else None
  }

  function NameIn(fields: seq<Field>): Option<string> {
    if fields == [] then None
    else if fields[0].key == "name" then (if fields[0].value.Str? then Some(fields[0].value.s) else None)
    else NameIn(fields[1..])
  }

  /** Object.keys(v) with the values: no table has an index of a text as a key, so a text with characters throws. */
  function FieldsOf(v: Value): Outcome<seq<Field>> {
    match v
    case Null => Throws
    case Num(_) => Done([])
    case Str(s) => if s == [] then Done([]) else Throws
    case Obj(fields) => Done(fields)
  }

  function TreeOf(tables: Tables, params: Value, attrs: CommandObject, exprName: Option<string>): Outcome<seq<Tlv>>
    decreases params
  {
    match params
    case Null => Done([])
    case Num(_) => Done([])
    case Str(s) => if s == [] then Done([]) else Throws
    case Obj(fields) => TreeOfFields(tables, fields, attrs, exprName)
  }

  function TreeOfFields(tables: Tables, fields: seq<Field>, attrs: CommandObject, exprName: Option<string>)
    : Outcome<seq<Tlv>>
    decreases fields
  {
    if fields == [] then Done([])
    else Then(TreeOfField(tables, fields[0], attrs, exprName), TreeOfFields(tables, fields[1..], attrs, exprName))
  }

  function TreeOfField(tables: Tables, f: Field, attrs: CommandObject, exprName: Option<string>): Outcome<Tlv>
    decreases f
  {
    match SpecOf(attrs, f.key)
    case None => Throws
    case Some((typ, spec)) =>
      match spec
      case Nested(x) =>
        if x !in tables || f.value.Null? then Throws
        else Nesting(typ, TreeOf(tables, f.value, tables[x], NameOf(f.value)))
      case List(x) =>
        if f.value.Null? || (f.value.Str? && f.value.s != []) then Throws
        else if !f.value.Obj? then Nesting(typ, Done([]))
        else Nesting(typ, TreeOfElements(tables, f.value.fields, x))
      case Expression =>
        if exprName.None? || exprName.value !in tables then Throws
        else Nesting(typ, TreeOf(tables, f.value, tables[exprName.value], None))
      case _ =>
        match LeafData(spec, f.value)
        case Throws => Throws
        case Unmodelled => Unmodelled
        case Done(data) => Done(Leaf(typ, data))
  }

  /** The elements of a list, one after the other, each read with the table of x. */
  function TreeOfElements(tables: Tables, elems: seq<Field>, x: string): Outcome<seq<Tlv>>
    decreases elems
  {
    if elems == [] then Done([])
    else if x !in tables then Throws
    else
      match TreeOf(tables, elems[0].value, tables[x], None)
      case Throws => Throws
      case Unmodelled => Unmodelled
      case Done(ts) => After(ts, TreeOfElements(tables, elems[1..], x))
  }

  function Ending<T>(o: Outcome<T>): Outcome<()> {
    match o
    case Done(_) => Done(())
    case Throws => Throws
    case Unmodelled => Unmodelled
  }

  // ----- the writer -----

  /** The buffers of the attributes, end to end. */
  ghost function Wire(attributes: seq<Attribute>): seq<Byte>
    reads set a | a in attributes :: a.buffer
  {
    if attributes == [] then [] else attributes[0].buffer[..] + Wire(attributes[1..])
  }

  lemma {:induction false} WireOfSum(a: seq<Attribute>, b: seq<Attribute>)
    ensures Wire(a + b) == Wire(a) + Wire(b)
  {
    if a == [] {
      assert a + b == b;
    } else {
      WireOfSum(a[1..], b);
      assert (a + b)[1..] == a[1..] + b;
    }
  }

  lemma WireOfOne(a: Attribute)
    ensures Wire([a]) == a.buffer[..]
  {
  }

  lemma WireOfNone()
    ensures Wire([]) == []
  {
  }

  function Buffers(attributes: seq<Attribute>): seq<array<Byte>> {
    if attributes == [] then [] else [attributes[0].buffer] + Buffers(attributes[1..])
  }

  lemma {:induction false} BuffersOfSum(a: seq<Attribute>, b: seq<Attribute>)
    ensures Buffers(a + b) == Buffers(a) + Buffers(b)
  {
    if a == [] {
      assert a + b == b;
    } else {
      BuffersOfSum(a[1..], b);
      assert (a + b)[1..] == a[1..] + b;
    }
  }

  class NfAttributes {
    const tables: Tables
    var attributeArray: seq<Attribute>

    constructor (tables: Tables)
      ensures this.tables == tables && attributeArray == []
    {
      this.tables, attributeArray := tables, [];
    }

    /** updateNestHdrLen: false where it throws. */
    method UpdateNestHdrLen(a: Attribute, nstart: nat) returns (ok: bool)
      requires nstart <= |attributeArray| && a.buffer.Length == HEADER
      modifies a.buffer
      ensures var len := old(Read16(a.buffer[..], 0)) + |old(Wire(attributeArray[nstart..]))|;
        && (ok <==> len < TWO_TO_THE_16)
        && a.buffer[..] == (if ok then LE16(len) else old(a.buffer[..2])) + old(a.buffer[2..])
    {
      hide Read16, LE16, Wire;
      ghost var was := a.buffer[..];
      var size, i := 0, nstart;
      WireOfNone();
      assert attributeArray[nstart..i] == [];
      while i < |attributeArray|
        modifies {}
        invariant nstart <= i <= |attributeArray|
        invariant size == |Wire(attributeArray[nstart..i])|
      {
        assert attributeArray[nstart..i + 1] == attributeArray[nstart..i] + [attributeArray[i]];
        WireOfSum(attributeArray[nstart..i], [attributeArray[i]]);
        WireOfOne(attributeArray[i]);
        size := size + attributeArray[i].buffer.Length;
        i := i + 1;
      }
      assert attributeArray[nstart..i] == attributeArray[nstart..] && a.buffer[..] == was;
      ok := a.IncrementNestLength(size);
      assert a.buffer[..] == a.buffer[..2] + a.buffer[2..];
    }

    /** writeAttributes: the buffers, in order, behind those already collected. */
    method WriteAttributes(bufs: seq<array<Byte>>) returns (r: seq<array<Byte>>)
      ensures r == bufs + Buffers(attributeArray)
    {
      r := bufs;
      var i := 0;
      while i < |attributeArray|
        invariant 0 <= i <= |attributeArray|
        invariant r == bufs + Buffers(attributeArray[..i])
      {
        BuffersOfSum(attributeArray[..i], [attributeArray[i]]);
        assert attributeArray[..i + 1] == attributeArray[..i] + [attributeArray[i]];
        r := r + [attributeArray[i].buffer];
        i := i + 1;
      }
      assert attributeArray[..i] == attributeArray;
    }

    /** parseNfAttrs: what it appends is new and serializes the trees of params. */
    method ParseNfAttrs(params: Value, attrs: CommandObject, exprName: Option<string>)
      returns (r: Outcome<()>, ghost added: seq<Attribute>)
      requires TablesFit(tables) && NumbersFit(attrs)
      modifies this`attributeArray
      ensures r == Ending(TreeOf(tables, params, attrs, exprName))
      ensures r.Done? ==>
        && attributeArray == old(attributeArray) + added && (forall a :: a in added ==> fresh(a) && fresh(a.buffer))
        && Wire(added) == PrintAll(TreeOf(tables, params, attrs, exprName).value)
      decreases params, 1
    {
      hide TreeOfFields, TreeOfField, Wire, PrintAll, Print, After;
      TreeOfParams(tables, params, attrs, exprName);
      added := [];
      if params.Null? { return Done(()), []; }
      hide TreeOf;
      var keys := FieldsOf(params);
      if !keys.Done? { return Ending(keys), []; }
      var fields := keys.value;
      ghost var ts: seq<Tlv> := [];
      EmptyParts();
      AfterAfter([], [], TreeOfFields(tables, fields, attrs, exprName));
      assert fields[0..] == fields;
      var i := 0;
      while i < |fields|
        invariant 0 <= i <= |fields|
        invariant attributeArray == old(attributeArray) + added
        invariant forall a :: a in added ==> fresh(a) && fresh(a.buffer)
        invariant Wire(added) == PrintAll(ts)
        invariant TreeOfFields(tables, fields, attrs, exprName)
               == After(ts, TreeOfFields(tables, fields[i..], attrs, exprName))
      {
        ghost var more;
        r, more := ParseField(fields[i], attrs, exprName);
        FieldsStep(tables, fields, i, attrs, exprName, ts);
        if !r.Done? { return; }
        ghost var t := TreeOfField(tables, fields[i], attrs, exprName).value;
        WireOfSum(added, more);
        PrintAllOfSum(ts, [t]);
        added, ts, i := added + more, ts + [t], i + 1;
      }
      assert fields[i..] == [];
      LastFields(tables, attrs, exprName, ts);
      r := Done(());
    }

    /** The body of the forEach of parseNfAttrs. */
    method ParseField(f: Field, attrs: CommandObject, exprName: Option<string>)
      returns (r: Outcome<()>, ghost added: seq<Attribute>)
      requires TablesFit(tables) && NumbersFit(attrs)
      modifies this`attributeArray
      ensures r == Ending(TreeOfField(tables, f, attrs, exprName))
      ensures r.Done? ==>
        && attributeArray == old(attributeArray) + added && (forall a :: a in added ==> fresh(a) && fresh(a.buffer))
        && Wire(added) == PrintAll([TreeOfField(tables, f, attrs, exprName).value])
      decreases f, 0
    {
      hide SpecOf, TreeOf, TreeOfElements, FirstBytes, LeafData, NumbersFit, Wire, PrintAll, Print, Header;
      added := [];
      var made := NewAttribute(f, attrs);
      FirstFacts(attrs, f);
      if !made.Done? { return Ending(made), []; }
      var a := made.value;
      attributeArray := attributeArray + [a];
      var nstart := |attributeArray|;
      ghost var rest: seq<Attribute>;
      match a.spec
      case Nested(x) =>
        if a.value.Null? || x !in tables { return Throws, []; }
        r, rest := ParseNfAttrs(a.value, tables[x], NameOf(a.value));
        if !r.Done? { return; }
        r := CloseNest(a, nstart, rest, TreeOf(tables, a.value, tables[x], NameOf(a.value)).value);
        added := [a] + rest;
      case List(x) =>
        r, rest := ParseElements(a.value, x);
        NoElements(tables, x);
        if !r.Done? { return; }
        r := CloseNest(a, nstart, rest, TreeOfElements(tables, FieldsOf(a.value).value, x).value);
        added := [a] + rest;
      case Expression =>
        if exprName.None? || exprName.value !in tables { return Throws, []; }
        r, rest := ParseNfAttrs(a.value, tables[exprName.value], None);
        if !r.Done? { return; }
        r := CloseNest(a, nstart, rest, TreeOf(tables, a.value, tables[exprName.value], None).value);
        added := [a] + rest;
      case _ =>
        LeafWire(a, f, attrs);
        r, added := Done(()), [a];
    }

    /** The inner forEach of a list. */
    method ParseElements(v: Value, x: string) returns (r: Outcome<()>, ghost added: seq<Attribute>)
      requires TablesFit(tables)
      modifies this`attributeArray
      ensures r == if FieldsOf(v).Done? then Ending(TreeOfElements(tables, FieldsOf(v).value, x)) else Throws
      ensures r.Done? ==>
        && attributeArray == old(attributeArray) + added && (forall a :: a in added ==> fresh(a) && fresh(a.buffer))
        && Wire(added) == PrintAll(TreeOfElements(tables, FieldsOf(v).value, x).value)
      decreases v, 2
    {
      hide TreeOfElements, TreeOf, Wire, PrintAll, Print, After;
      added := [];
      if !FieldsOf(v).Done? { return Throws, []; }
      var elems := FieldsOf(v).value;
      ghost var ts: seq<Tlv> := [];
      EmptyParts();
      AfterAfter([], [], TreeOfElements(tables, elems, x));
      assert elems[0..] == elems;
      var i := 0;
      while i < |elems|
        invariant 0 <= i <= |elems|
        invariant attributeArray == old(attributeArray) + added
        invariant forall a :: a in added ==> fresh(a) && fresh(a.buffer)
        invariant Wire(added) == PrintAll(ts)
        invariant TreeOfElements(tables, elems, x) == After(ts, TreeOfElements(tables, elems[i..], x))
      {
        ElementsStep(tables, elems, i, x, ts);
        if x !in tables { return Throws, []; }
        ghost var more;
        r, more := ParseNfAttrs(elems[i].value, tables[x], None);
        if !r.Done? { return; }
        ghost var us := TreeOf(tables, elems[i].value, tables[x], None).value;
        WireOfSum(added, more);
        PrintAllOfSum(ts, us);
        added, ts, i := added + more, ts + us, i + 1;
      }
      assert elems[i..] == [];
      LastElements(tables, x, ts);
      r := Done(());
    }

    /** The end of a nest: the header is raised by the sizes of what follows it. */
    method CloseNest(a: Attribute, nstart: nat, ghost rest: seq<Attribute>, ghost ts: seq<Tlv>) returns (r: Outcome<()>)
      requires nstart <= |attributeArray| && attributeArray[nstart..] == rest
      requires a.buffer[..] == Header(HEADER, NLA_F_NESTED + a.typeval) && a.typeval < NLA_F_NESTED
      requires Wire(rest) == PrintAll(ts) && forall b :: b in rest ==> b.buffer != a.buffer
      modifies a.buffer
      ensures r == Ending(Nesting(a.typeval, Done(ts)))
      ensures r.Done? ==> Wire([a] + rest) == PrintAll([Nest(a.typeval, ts)])
    {
      var ok := UpdateNestHdrLen(a, nstart);
      r := if ok then Done(()) else Throws;
    }
  }

  lemma FirstFacts(attrs: CommandObject, f: Field)
    requires NumbersFit(attrs)
    ensures SpecOf(attrs, f.key).Some? ==>
      var (typ, spec) := SpecOf(attrs, f.key).value;
      && typ < NLA_F_NESTED
      && (IsNested(spec) ==> FirstBytes(typ, spec, f.value) == Done(Header(HEADER, NLA_F_NESTED + typ)))
      && (!IsNested(spec) ==> Ending(FirstBytes(typ, spec, f.value)) == Ending(LeafData(spec, f.value)))
  {
    hide LeafData;
  }

  /** The leaf attributes of the wire. */
  lemma LeafWire(a: Attribute, f: Field, attrs: CommandObject)
    requires SpecOf(attrs, f.key) == Some((a.typeval, a.spec)) && !IsNested(a.spec)
    requires FirstBytes(a.typeval, a.spec, f.value) == Done(a.buffer[..])
    ensures LeafData(a.spec, f.value).Done?
    ensures Wire([a]) == PrintAll([Leaf(a.typeval, LeafData(a.spec, f.value).value)])
  {
    BuildIsPrint(a.typeval, LeafData(a.spec, f.value).value);
  }

  lemma FieldsStep(tables: Tables, fields: seq<Field>, i: nat, attrs: CommandObject, exprName: Option<string>,
                   ts: seq<Tlv>)
    requires i < |fields|
    ensures var now := After(ts, TreeOfFields(tables, fields[i..], attrs, exprName));
      match TreeOfField(tables, fields[i], attrs, exprName)
      case Throws => now == Throws
      case Unmodelled => now == Unmodelled
      case Done(t) => now == After(ts + [t], TreeOfFields(tables, fields[i + 1..], attrs, exprName))
  {
    assert fields[i..][1..] == fields[i + 1..];
    var rest := TreeOfFields(tables, fields[i + 1..], attrs, exprName);
    if TreeOfField(tables, fields[i], attrs, exprName).Done? {
      AfterAfter(ts, [TreeOfField(tables, fields[i], attrs, exprName).value], rest);
    }
  }

  lemma EmptyParts()
    ensures Wire([]) == [] && PrintAll([]) == []
  {
  }

  lemma TreeOfParams(tables: Tables, params: Value, attrs: CommandObject, exprName: Option<string>)
    ensures params.Null? ==> TreeOf(tables, params, attrs, exprName) == Done([]) && PrintAll([]) == [] && Wire([]) == []
    ensures !params.Null? ==>
      TreeOf(tables, params, attrs, exprName) ==
      if FieldsOf(params).Done? then TreeOfFields(tables, FieldsOf(params).value, attrs, exprName) else Throws
  {
  }

  lemma LastFields(tables: Tables, attrs: CommandObject, exprName: Option<string>, ts: seq<Tlv>)
    ensures After(ts, TreeOfFields(tables, [], attrs, exprName)) == Done(ts)
  {
    assert ts + [] == ts;
  }

  lemma NoElements(tables: Tables, x: string)
    ensures TreeOfElements(tables, [], x) == Done([])
  {
  }

  lemma LastElements(tables: Tables, x: string, ts: seq<Tlv>)
    ensures After(ts, TreeOfElements(tables, [], x)) == Done(ts)
  {
    assert ts + [] == ts;
  }

  lemma AfterAfter(a: seq<Tlv>, b: seq<Tlv>, rest: Outcome<seq<Tlv>>)
    ensures After(a, After(b, rest)) == After(a + b, rest)
    ensures After([], rest) == rest
  {
    if rest.Done? { assert a + (b + rest.value) == (a + b) + rest.value && [] + rest.value == rest.value; }
  }

  lemma ElementsStep(tables: Tables, elems: seq<Field>, i: nat, x: string, ts: seq<Tlv>)
    requires i < |elems|
    ensures var now := After(ts, TreeOfElements(tables, elems[i..], x));
      if x !in tables then now == Throws
      else match TreeOf(tables, elems[i].value, tables[x], None)
        case Throws => now == Throws
        case Unmodelled => now == Unmodelled
        case Done(us) => now == After(ts + us, TreeOfElements(tables, elems[i + 1..], x))
  {
    assert elems[i..][1..] == elems[i + 1..] && elems[i..][0] == elems[i];
    if x in tables && TreeOf(tables, elems[i].value, tables[x], None).Done? {
      AfterAfter(ts, TreeOf(tables, elems[i].value, tables[x], None).value, TreeOfElements(tables, elems[i + 1..], x));
    }
  }

  /** new NfAttributes(command_type, parameters) */
  method NewNfAttributes(tables: Tables, commandType: string, parameters: Value) returns (r: Outcome<NfAttributes>)
    requires TablesFit(tables)
    ensures r.Throws? <==> Message(tables, commandType, parameters).Throws?
    ensures r.Unmodelled? <==> Message(tables, commandType, parameters).Unmodelled?
    ensures r.Done? ==> Wire(r.value.attributeArray) == PrintAll(Message(tables, commandType, parameters).value)
  {
    if commandType !in tables { return Throws; }
    var n := new NfAttributes(tables);
    var end, added := n.ParseNfAttrs(parameters, tables[commandType], None);
    if end.Throws? { return Throws; }
    if end.Unmodelled? { return Unmodelled; }
    assert n.attributeArray == added;
    r := Done(n);
  }

  /** The attribute trees of a whole message. */
  function Message(tables: Tables, commandType: string, parameters: Value): Outcome<seq<Tlv>> {
    if commandType !in tables then Throws else TreeOf(tables, parameters, tables[commandType], None)
  }

  lemma {:induction false} TreeTypesFit(tables: Tables, params: Value, attrs: CommandObject, exprName: Option<string>)
    requires TablesFit(tables) && NumbersFit(attrs) && TreeOf(tables, params, attrs, exprName).Done?
    ensures TypesFit(TreeOf(tables, params, attrs, exprName).value)
    decreases params
  {
    if params.Obj? { FieldsTypesFit(tables, params.fields, attrs, exprName); }
  }

  lemma {:induction false} FieldsTypesFit(tables: Tables, fields: seq<Field>, attrs: CommandObject,
                                          exprName: Option<string>)
    requires TablesFit(tables) && NumbersFit(attrs) && TreeOfFields(tables, fields, attrs, exprName).Done?
    ensures TypesFit(TreeOfFields(tables, fields, attrs, exprName).value)
    decreases fields
  {
    if fields != [] {
      FieldTypesFit(tables, fields[0], attrs, exprName);
      FieldsTypesFit(tables, fields[1..], attrs, exprName);
    }
  }

  lemma {:induction false} FieldTypesFit(tables: Tables, f: Field, attrs: CommandObject, exprName: Option<string>)
    requires TablesFit(tables) && NumbersFit(attrs) && TreeOfField(tables, f, attrs, exprName).Done?
    ensures TypeFits(TreeOfField(tables, f, attrs, exprName).value)
    decreases f
  {
    FirstFacts(attrs, f);
    match SpecOf(attrs, f.key).value.1
    case Nested(x) => TreeTypesFit(tables, f.value, tables[x], NameOf(f.value));
    case List(x) => if f.value.Obj? { ElementsTypesFit(tables, f.value.fields, x); }
    case Expression => TreeTypesFit(tables, f.value, tables[exprName.value], None);
    case _ =>
  }

  lemma {:induction false} ElementsTypesFit(tables: Tables, elems: seq<Field>, x: string)
    requires TablesFit(tables) && TreeOfElements(tables, elems, x).Done?
    ensures TypesFit(TreeOfElements(tables, elems, x).value)
    decreases elems
  {
    if elems != [] {
      TreeTypesFit(tables, elems[0].value, tables[x], None);
      ElementsTypesFit(tables, elems[1..], x);
      TypesFitSum(TreeOf(tables, elems[0].value, tables[x], None).value, TreeOfElements(tables, elems[1..], x).value);
    }
  }

  lemma {:induction false} TypesFitSum(a: seq<Tlv>, b: seq<Tlv>)
    requires TypesFit(a) && TypesFit(b)
    ensures TypesFit(a + b)
  {
    if a == [] {
      assert a + b == b;
    } else {
      TypesFitSum(a[1..], b);
      assert (a + b)[1..] == a[1..] + b;
    }
  }

  /** Whatever the parameters, a receiver of the bytes finds the trees they denote. */
  lemma MessageRecovered(tables: Tables, commandType: string, parameters: Value)
    requires TablesFit(tables) && Message(tables, commandType, parameters).Done?
    requires |PrintAll(Message(tables, commandType, parameters).value)| < TWO_TO_THE_16
    ensures Parse(PrintAll(Message(tables, commandType, parameters).value))
         == Some(Message(tables, commandType, parameters).value)
  {
    TreeTypesFit(tables, parameters, tables[commandType], None);
    SmallFits(Message(tables, commandType, parameters).value);
    ParsePrint(Message(tables, commandType, parameters).value);
  }
}
