/**
  The messages of the commands for tables, chains and rules, as a receiver finds them: which attribute
  carries which name, number or list.
 */
module NfMessages {
  import opened Bytes
  import opened Numerals
  import opened Options
  import opened TlvTree
  import opened Words
  import opened NfAttr
  import opened NfAttributes
  import opened NfElements
  import opened NfTables
  import opened NfRule
  import opened NfRuleMeaning
  import opened NfVm

  // ----- what the tables say of each key -----

  lemma TableSpecs()
    ensures SpecOf(TABLE, "name") == Some((1, Text))
    ensures SpecOf(TABLE, "flags") == Some((2, Number(32)))
    ensures SpecOf(TABLE, "use") == Some((3, Number(32)))
  {
    hide SpecOf;
    NfTables.Found(TABLE, "name", "NAME", 1, Text);
    NfTables.Found(TABLE, "flags", "FLAGS", 2, Number(32));
    NfTables.Found(TABLE, "use", "USE", 3, Number(32));
  }

  lemma ChainSpecs()
    ensures SpecOf(CHAIN, "table") == Some((1, Text))
    ensures SpecOf(CHAIN, "name") == Some((3, Text))
    ensures SpecOf(CHAIN, "hook") == Some((4, Nested("hook")))
    ensures SpecOf(CHAIN, "policy") == Some((5, Number(32)))
    ensures SpecOf(CHAIN, "type") == Some((7, Text))
  {
    hide SpecOf;
    NfTables.Found(CHAIN, "table", "TABLE", 1, Text);
    NfTables.Found(CHAIN, "name", "NAME", 3, Text);
    NfTables.Found(CHAIN, "hook", "HOOK", 4, Nested("hook"));
    NfTables.Found(CHAIN, "policy", "POLICY", 5, Number(32));
    NfTables.Found(CHAIN, "type", "TYPE", 7, Text);
  }

  /** The keys of chains that no command of the grammar uses. */
  lemma OtherChainSpecs()
    ensures SpecOf(CHAIN, "handle") == Some((2, Number(64)))
    ensures SpecOf(CHAIN, "use") == Some((6, Number(32)))
    ensures SpecOf(CHAIN, "counters") == Some((8, Nested("counter")))
  {
    hide SpecOf;
    NfTables.Found(CHAIN, "handle", "HANDLE", 2, Number(64));
    NfTables.Found(CHAIN, "use", "USE", 6, Number(32));
    NfTables.Found(CHAIN, "counters", "COUNTERS", 8, Nested("counter"));
  }

  lemma OtherRuleSpecs()
    ensures SpecOf(RULE, "handle") == Some((3, Number(64)))
    ensures SpecOf(RULE, "compat") == Some((5, Nested("rule")))
    ensures SpecOf(RULE, "position") == Some((6, Number(64)))
  {
    hide SpecOf;
    NfTables.Found(RULE, "handle", "HANDLE", 3, Number(64));
    NfTables.Found(RULE, "compat", "COMPAT", 5, Nested("rule"));
    NfTables.Found(RULE, "position", "POSITION", 6, Number(64));
  }

  lemma OtherSpecs()
    ensures SpecOf(COUNTER, "bytes") == Some((1, Number(64)))
    ensures SpecOf(COUNTER, "packets") == Some((2, Number(64)))
    ensures SpecOf(VERDICT, "chain") == Some((2, Text))
  {
    hide SpecOf;
    NfTables.Found(COUNTER, "bytes", "BYTES", 1, Number(64));
    NfTables.Found(COUNTER, "packets", "PACKETS", 2, Number(64));
    NfTables.Found(VERDICT, "chain", "CHAIN", 2, Text);
  }

  lemma HookSpecs()
    ensures SpecOf(HOOK, "hooknum") == Some((1, Number(32)))
    ensures SpecOf(HOOK, "priority") == Some((2, Number(32)))
  {
    hide SpecOf;
    NfTables.Found(HOOK, "hooknum", "HOOKNUM", 1, Number(32));
    NfTables.Found(HOOK, "priority", "PRIORITY", 2, Number(32));
  }

  lemma CommandTables()
    ensures "table" in NFT && NFT["table"] == TABLE
    ensures "chain" in NFT && NFT["chain"] == CHAIN
    ensures "hook" in NFT && NFT["hook"] == HOOK
  {
  }

  // ----- numbers as text -----

  /** A number given by its decimal digits is written as the number itself. */
  lemma DigitsAsNumber(bits: nat, n: nat)
    requires bits in [8, 16, 32] && n < TWO_TO_THE_53
    ensures NumberBytes(bits, Str(Numeral(n, 10))) == NumberBytes(bits, Num(n)) == Done(BE(n, bits / 8))
  {
    hide BE, Numeral, ValueOf, AllDigits;
    NumeralValue(n, 10);
  }

  /**
    The generic encoder, of a decimal text: the bytes are those of the number, half a byte for each decimal digit
    of the number that the same digits are in base 16.
   */
  lemma GenericDecimal(n: nat)
    ensures AllDigits(Numeral(n, 10), 10) && AllDigits(Numeral(n, 10), 16)
    ensures var wide := ValueOf(Numeral(n, 10), 16);
      wide < TWO_TO_THE_53 ==> GenericBytes(Str(Numeral(n, 10))) == GenericWrite(Some(n), |Numeral(wide, 10)|)
  {
    hide *;
    NumeralValue(n, 10);
    var s := Numeral(n, 10);
    DecimalText(s);
    DigitPrefixOfDigits(s, 10);
    DigitPrefixOfDigits(s, 16);
    DecimalParsed(s);
    GenericOfStr(s);
    if ValueOf(s, 16) < TWO_TO_THE_53 { GenericPlain(s, n, ValueOf(s, 16)); }
  }

  /** Decimal digits are hexadecimal ones, have no case, and no x among them. */
  lemma DecimalText(s: string)
    requires AllDigits(s, 10)
    ensures AllDigits(s, 16) && Lower(s) == s && IndexOf(s, 'x') == None && !("0x" <= s)
  {
    forall i | 0 <= i < |s| ensures LowerChar(s[i]) == s[i] { assert s[i] in s; }
    assert !IsDigit('x', 10);
    if |s| > 1 { assert s[1] in s; }
    hide Lower;
  }

  lemma DecimalParsed(s: string)
    requires s != [] && AllDigits(s, 10) && AllDigits(s, 16) && !("0x" <= s)
    requires DigitPrefix(s, 10) == s && DigitPrefix(s, 16) == s
    ensures ParseInt(s, 10) == Some(ValueOf(s, 10)) && ParseInt(s, 16) == Some(ValueOf(s, 16))
    ensures DigitOf(s[0]).Some?
  {
    assert s[0] in s;
    hide ValueOf, DigitPrefix, DigitOf;
  }

  lemma GenericPlain(low: string, n: nat, wide: nat)
    requires low != [] && DigitOf(low[0]).Some? && IndexOf(low, 'x') == None
    requires ParseInt(low, 10) == Some(n) && ParseInt(low, 16) == Some(wide) && wide < TWO_TO_THE_53
    ensures GenericLower(low) == GenericWrite(Some(n), |Numeral(wide, 10)|)
  {
    hide IndexOf, ParseInt, BE, Numeral, GenericWrite;
  }

  lemma DigitsField(attrs: CommandObject, key: string, typ: nat, n: nat)
    requires SpecOf(attrs, key) == Some((typ, Number(32))) && n < TWO_TO_THE_53
    ensures TreeOfField(NFT, Field(key, Str(Numeral(n, 10))), attrs, None) == Done(Leaf(typ, BE(n, 4)))
  {
    DigitsAsNumber(32, n);
    assert 32 in [8, 16, 32];
    hide SpecOf, NFT, BE, NumberBytes, Numeral;
  }

  // ----- table -----

  /** A table command names the table in attribute 1. */
  lemma TableMessage(name: string)
    requires IsAscii(name)
    ensures Message(NFT, "table", Obj([Field("name", Str(name))])) == Done([Leaf(1, Ascii(name) + [0])])
  {
    hide *;
    CommandTables();
    TableSpecs();
    TextField(TABLE, None, "name", 1, name);
    OneField(Field("name", Str(name)), TABLE, None);
    ThenNothing(Done(Leaf(1, Ascii(name) + [0])));
    MessageWith("table", Obj([Field("name", Str(name))]));
  }

  lemma MessageWith(kind: string, params: Value)
    requires kind in NFT
    ensures Message(NFT, kind, params) == TreeOf(NFT, params, NFT[kind], None)
  {
    hide TreeOf, NFT;
  }

  // ----- chain -----

  /** The parameters of a chain command; the priority is the text of its digits. */
  function ChainParams(table: string, name: string, kind: string, hooknum: nat, priority: nat): seq<Field> {
    [Field("table", Str(table)), Field("name", Str(name)), Field("type", Str(kind)),
     Field("hook", Obj(HookParams(hooknum, priority)))]
  }

  function HookParams(hooknum: nat, priority: nat): seq<Field> {
    [Field("hooknum", Num(hooknum)), Field("priority", Str(Numeral(priority, 10)))]
  }

  lemma HookTrees(hooknum: nat, priority: nat)
    requires hooknum < TWO_TO_THE_32 && priority < TWO_TO_THE_32
    ensures TreeOf(NFT, Obj(HookParams(hooknum, priority)), HOOK, None)
         == Done([Leaf(1, BE(hooknum, 4)), Leaf(2, BE(priority, 4))])
  {
    HookSpecs();
    NumField(HOOK, None, "hooknum", 1, hooknum);
    DigitsField(HOOK, "priority", 2, priority);
    hide *;
    HookFields(hooknum, priority);
    TwoFields(HookParams(hooknum, priority), HOOK, Leaf(1, BE(hooknum, 4)), Leaf(2, BE(priority, 4)));
  }

  lemma HookFields(hooknum: nat, priority: nat)
    ensures var fields := HookParams(hooknum, priority);
      && |fields| == 2 && fields[0] == Field("hooknum", Num(hooknum))
      && fields[1] == Field("priority", Str(Numeral(priority, 10)))
  {
    hide Numeral;
  }

  lemma TwoFields(fields: seq<Field>, attrs: CommandObject, a: Tlv, b: Tlv)
    requires |fields| == 2
    requires TreeOfField(NFT, fields[0], attrs, None) == Done(a)
    requires TreeOfField(NFT, fields[1], attrs, None) == Done(b)
    ensures TreeOf(NFT, Obj(fields), attrs, None) == Done([a, b])
  {
    hide TreeOfField, TreeOfFields, NFT;
    FieldByField(fields, attrs, None, [a, b]);
  }

  lemma HookUnnamed(hooknum: nat, priority: nat)
    ensures NameOf(Obj(HookParams(hooknum, priority))) == None
  {
    hide Numeral;
    var second := Field("priority", Str(Numeral(priority, 10)));
    NoName(second);
    assert HookParams(hooknum, priority)[1..] == [second] && |"hooknum"| == 7;
  }

  lemma HookField(hooknum: nat, priority: nat)
    requires hooknum < TWO_TO_THE_32 && priority < TWO_TO_THE_32
    ensures TreeOfField(NFT, Field("hook", Obj(HookParams(hooknum, priority))), CHAIN, None)
         == Done(Nest(4, [Leaf(1, BE(hooknum, 4)), Leaf(2, BE(priority, 4))]))
  {
    CommandTables();
    ChainSpecs();
    HookTrees(hooknum, priority);
    HookUnnamed(hooknum, priority);
    SizeOfU32(1, hooknum);
    SizeOfU32(2, priority);
    PairSize(Leaf(1, BE(hooknum, 4)), Leaf(2, BE(priority, 4)));
    hide SpecOf, TreeOf, NFT, CHAIN, HOOK, BE, Print, PrintAll, HookParams, NameOf;
  }

  /**
    A chain command, as a receiver reads it: the table in attribute 1, the name in 3, the type in 7, and in
    the nest 4 the hook's number and priority.
   */
  lemma ChainMessage(table: string, name: string, kind: string, hooknum: nat, priority: nat)
    requires IsAscii(table) && IsAscii(name) && IsAscii(kind) && hooknum < TWO_TO_THE_32 && priority < TWO_TO_THE_32
    ensures var m := Message(NFT, "chain", Obj(ChainParams(table, name, kind, hooknum, priority)));
      && m.Done? && |m.value| == 4
      && Data(Find(m.value, 1)) == Ascii(table) + [0] && Data(Find(m.value, 3)) == Ascii(name) + [0]
      && Data(Find(m.value, 7)) == Ascii(kind) + [0]
      && U32(Items(Find(m.value, 4)), 1) == hooknum && U32(Items(Find(m.value, 4)), 2) == priority
  {
    ChainTrees(table, name, kind, hooknum, priority);
    var a, b, c := Leaf(1, Ascii(table) + [0]), Leaf(3, Ascii(name) + [0]), Leaf(7, Ascii(kind) + [0]);
    SmallBE(hooknum);
    SmallBE(priority);
    hide BE, FromBE, Ascii, Message, NFT, ChainParams;
    FindChain(a, b, c, [Leaf(1, BE(hooknum, 4)), Leaf(2, BE(priority, 4))]);
    FindHook(BE(hooknum, 4), BE(priority, 4));
  }

  lemma ChainTrees(table: string, name: string, kind: string, hooknum: nat, priority: nat)
    requires IsAscii(table) && IsAscii(name) && IsAscii(kind) && hooknum < TWO_TO_THE_32 && priority < TWO_TO_THE_32
    ensures Message(NFT, "chain", Obj(ChainParams(table, name, kind, hooknum, priority)))
         == Done([Leaf(1, Ascii(table) + [0]), Leaf(3, Ascii(name) + [0]), Leaf(7, Ascii(kind) + [0]),
                                 Nest(4, [Leaf(1, BE(hooknum, 4)), Leaf(2, BE(priority, 4))])])
  {
    CommandTables();
    ChainSpecs();
    TextField(CHAIN, None, "table", 1, table);
    TextField(CHAIN, None, "name", 3, name);
    TextField(CHAIN, None, "type", 7, kind);
    HookField(hooknum, priority);
    hide *;
    var fields := ChainParams(table, name, kind, hooknum, priority);
    ChainFields(table, name, kind, hooknum, priority);
    FourFields(fields, CHAIN, Leaf(1, Ascii(table) + [0]), Leaf(3, Ascii(name) + [0]), Leaf(7, Ascii(kind) + [0]),
               Nest(4, [Leaf(1, BE(hooknum, 4)), Leaf(2, BE(priority, 4))]));
    MessageWith("chain", Obj(fields));
  }

  lemma ChainFields(table: string, name: string, kind: string, hooknum: nat, priority: nat)
    ensures var fields := ChainParams(table, name, kind, hooknum, priority);
      && |fields| == 4 && fields[0] == Field("table", Str(table)) && fields[1] == Field("name", Str(name))
      && fields[2] == Field("type", Str(kind)) && fields[3] == Field("hook", Obj(HookParams(hooknum, priority)))
  {
    hide HookParams;
  }

  lemma FourFields(fields: seq<Field>, attrs: CommandObject, a: Tlv, b: Tlv, c: Tlv, d: Tlv)
    requires |fields| == 4
    requires TreeOfField(NFT, fields[0], attrs, None) == Done(a)
    requires TreeOfField(NFT, fields[1], attrs, None) == Done(b)
    requires TreeOfField(NFT, fields[2], attrs, None) == Done(c)
    requires TreeOfField(NFT, fields[3], attrs, None) == Done(d)
    ensures TreeOf(NFT, Obj(fields), attrs, None) == Done([a, b, c, d])
  {
    hide TreeOfField, TreeOfFields, NFT;
    FieldByField(fields, attrs, None, [a, b, c, d]);
  }

  lemma FindChain(a: Tlv, b: Tlv, c: Tlv, items: seq<Tlv>)
    requires a.Leaf? && b.Leaf? && c.Leaf? && a.typ == 1 && b.typ == 3 && c.typ == 7
    ensures var m := [a, b, c, Nest(4, items)];
      && Data(Find(m, 1)) == a.data && Data(Find(m, 3)) == b.data && Data(Find(m, 7)) == c.data
      && Items(Find(m, 4)) == items
  {
    var d := Nest(4, items);
    assert [a, b, c, d][1..] == [b, c, d] && [b, c, d][1..] == [c, d] && [c, d][1..] == [d];
    assert Find([d], 4) == Some(d) && Find([c, d], 4) == Some(d) && Find([b, c, d], 4) == Some(d);
    assert Find([c, d], 7) == Some(c) && Find([b, c, d], 7) == Some(c);
  }

  lemma FindHook(x: seq<Byte>, y: seq<Byte>)
    ensures var hook := [Leaf(1, x), Leaf(2, y)]; U32(hook, 1) == FromBE(x) && U32(hook, 2) == FromBE(y)
  {
    hide FromBE;
    var hook := [Leaf(1, x), Leaf(2, y)];
    assert hook[1..] == [Leaf(2, y)];
    assert Find(hook[1..], 2) == Some(Leaf(2, y));
    assert Find(hook, 1) == Some(Leaf(1, x)) && Find(hook, 2) == Some(Leaf(2, y));
    hide Find;
  }

  // ----- rule -----

  /** A rule's message names its table in attribute 1 and its chain in attribute 2; the list in 4 is all there is beside them. */
  lemma RuleNames(rule: Rule)
    requires Grammatical(rule) && Compiles(rule)
    ensures Params(rule).Done? && Message(NFT, "rule", Params(rule).value).Done?
    ensures var m := Message(NFT, "rule", Params(rule).value).value;
      && |m| == 3 && IsAscii(rule.table) && IsAscii(rule.chain)
      && Data(Find(m, 1)) == Ascii(rule.table) + [0] && Data(Find(m, 2)) == Ascii(rule.chain) + [0]
  {
    hide *;
    CompilesIs(rule);
    ParamsElements(rule);
    LettersAscii(rule);
    var vs := RuleElements(rule).value;
    MessageTrees(rule, vs);
    var elements := TreeOfElements(NFT, Indexed(vs, 0), "list");
    FindNames(elements.value, Ascii(rule.table) + [0], Ascii(rule.chain) + [0]);
  }

  lemma LettersAscii(rule: Rule)
    requires Grammatical(rule)
    ensures IsAscii(rule.table) && IsAscii(rule.chain)
  {
  }

  lemma FindNames(items: seq<Tlv>, x: seq<Byte>, y: seq<Byte>)
    ensures var m := [Nest(4, items), Leaf(1, x), Leaf(2, y)]; Data(Find(m, 1)) == x && Data(Find(m, 2)) == y
  {
    var m := [Nest(4, items), Leaf(1, x), Leaf(2, y)];
    assert m[1..] == [Leaf(1, x), Leaf(2, y)] && [Leaf(1, x), Leaf(2, y)][1..] == [Leaf(2, y)];
    assert Find([Leaf(2, y)], 2) == Some(Leaf(2, y)) && Find(m[1..], 2) == Some(Leaf(2, y));
  }
}
