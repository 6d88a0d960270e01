/** The nft_x_attributes tables: the number of each attribute and its specification. */
module NfTables {
  import opened Options
  import opened NfAttr
  import opened NfAttributes

  const HOOK := CommandObject(map["UNSPEC" := 0, "HOOKNUM" := 1, "PRIORITY" := 2],
                              Some([Unknown, Number(32), Number(32)]))

  const TABLE := CommandObject(map["UNSPEC" := 0, "NAME" := 1, "FLAGS" := 2, "USE" := 3],
                               Some([Unknown, Text, Number(32), Number(32)]))

  const CHAIN := CommandObject(
    map["UNSPEC" := 0, "TABLE" := 1, "HANDLE" := 2, "NAME" := 3, "HOOK" := 4, "POLICY" := 5, "USE" := 6, "TYPE" := 7,
        "COUNTERS" := 8],
    Some([Unknown, Text, Number(64), Text, Nested("hook"), Number(32), Number(32), Text, Nested("counter")]))

  // The name of a nested table ends at its second underscore, so rule_compat is looked up as rule.
  const RULE := CommandObject(
    map["UNSPEC" := 0, "TABLE" := 1, "CHAIN" := 2, "HANDLE" := 3, "EXPRESSIONS" := 4, "COMPAT" := 5, "POSITION" := 6,
        "USERDATA" := 7],
    Some([Unknown, Text, Text, Number(64), List("list"), Nested("rule"), Number(64), Unknown]))

  const LIST := CommandObject(map["UNPEC" := 0, "ELEM" := 1], Some([Unknown, Nested("expr")]))

  const EXPR := CommandObject(map["UNSPEC" := 0, "NAME" := 1, "DATA" := 2], Some([Unknown, Text, Expression]))

  const CMP := CommandObject(map["UNSPEC" := 0, "SREG" := 1, "OP" := 2, "DATA" := 3],
                             Some([Unknown, Number(32), Number(32), Nested("data")]))

  const COUNTER := CommandObject(map["UNSPEC" := 0, "BYTES" := 1, "PACKETS" := 2],
                                 Some([Unknown, Number(64), Number(64)]))

  const PAYLOAD := CommandObject(map["UNSPEC" := 0, "DREG" := 1, "BASE" := 2, "OFFSET" := 3, "LEN" := 4],
                                 Some([Unknown, Number(32), Number(32), Number(32), Number(32)]))

  const DATA := CommandObject(map["UNSPEC" := 0, "VALUE" := 1, "VERDICT" := 2],
                              Some([Unknown, Generic, Nested("verdict")]))

  const BITWISE := CommandObject(
    map["UNSPEC" := 0, "SREG" := 1, "DREG" := 2, "LEN" := 3, "MASK" := 4, "XOR" := 5],
    Some([Unknown, Number(32), Number(32), Number(32), Nested("data"), Nested("data")]))

  const VERDICT := CommandObject(map["UNSPEC" := 0, "CODE" := 1, "CHAIN" := 2], Some([Unknown, Number(32), Text]))

  const IMMEDIATE := CommandObject(map["UNSPEC" := 0, "DREG" := 1, "DATA" := 2],
                                   Some([Unknown, Number(32), Nested("data")]))

  const NFT: Tables := map[
    "hook" := HOOK, "table" := TABLE, "chain" := CHAIN, "rule" := RULE, "list" := LIST, "expr" := EXPR, "cmp" := CMP,
    "counter" := COUNTER, "payload" := PAYLOAD, "data" := DATA, "bitwise" := BITWISE, "verdict" := VERDICT,
    "immediate" := IMMEDIATE]

  lemma Lookups()
    ensures "rule" in NFT && NFT["rule"] == RULE
    ensures "list" in NFT && NFT["list"] == LIST
    ensures "expr" in NFT && NFT["expr"] == EXPR
    ensures "cmp" in NFT && NFT["cmp"] == CMP
    ensures "payload" in NFT && NFT["payload"] == PAYLOAD
    ensures "data" in NFT && NFT["data"] == DATA
    ensures "bitwise" in NFT && NFT["bitwise"] == BITWISE
    ensures "verdict" in NFT && NFT["verdict"] == VERDICT
    ensures "immediate" in NFT && NFT["immediate"] == IMMEDIATE
  {
  }

  lemma Found(attrs: CommandObject, key: string, name: string, typ: nat, spec: Spec)
    requires |key| == |name| && forall i :: 0 <= i < |key| ==> UpperChar(key[i]) == name[i]
    requires name in attrs.numbers && attrs.numbers[name] == typ
    requires attrs.specs.Some? && typ < |attrs.specs.value| && attrs.specs.value[typ] == spec
    ensures SpecOf(attrs, key) == Some((typ, spec))
  {
    assert Upper(key) == name;
  }

  lemma RuleSpecs()
    ensures SpecOf(RULE, "expressions") == Some((4, List("list")))
    ensures SpecOf(RULE, "table") == Some((1, Text))
    ensures SpecOf(RULE, "chain") == Some((2, Text))
  {
    hide SpecOf;
    Found(RULE, "expressions", "EXPRESSIONS", 4, List("list"));
    Found(RULE, "table", "TABLE", 1, Text);
    Found(RULE, "chain", "CHAIN", 2, Text);
  }

  lemma ElementSpecs()
    ensures SpecOf(LIST, "elem") == Some((1, Nested("expr")))
  {
    hide SpecOf;
    Found(LIST, "elem", "ELEM", 1, Nested("expr"));
  }

  lemma ExprSpecs()
    ensures SpecOf(EXPR, "name") == Some((1, Text))
    ensures SpecOf(EXPR, "data") == Some((2, Expression))
  {
    hide SpecOf;
    Found(EXPR, "name", "NAME", 1, Text);
    Found(EXPR, "data", "DATA", 2, Expression);
  }

  lemma PayloadSpecs()
    ensures SpecOf(PAYLOAD, "DREG") == Some((1, Number(32)))
    ensures SpecOf(PAYLOAD, "BASE") == Some((2, Number(32)))
    ensures SpecOf(PAYLOAD, "OFFSET") == Some((3, Number(32)))
    ensures SpecOf(PAYLOAD, "LEN") == Some((4, Number(32)))
  {
    hide SpecOf;
    Found(PAYLOAD, "DREG", "DREG", 1, Number(32));
    Found(PAYLOAD, "BASE", "BASE", 2, Number(32));
    Found(PAYLOAD, "OFFSET", "OFFSET", 3, Number(32));
    Found(PAYLOAD, "LEN", "LEN", 4, Number(32));
  }

  lemma CmpSpecs()
    ensures SpecOf(CMP, "SREG") == Some((1, Number(32)))
    ensures SpecOf(CMP, "OP") == Some((2, Number(32)))
    ensures SpecOf(CMP, "DATA") == Some((3, Nested("data")))
  {
    hide SpecOf;
    Found(CMP, "SREG", "SREG", 1, Number(32));
    Found(CMP, "OP", "OP", 2, Number(32));
    Found(CMP, "DATA", "DATA", 3, Nested("data"));
  }

  lemma BitwiseSpecs()
    ensures SpecOf(BITWISE, "SREG") == Some((1, Number(32)))
    ensures SpecOf(BITWISE, "DREG") == Some((2, Number(32)))
    ensures SpecOf(BITWISE, "LEN") == Some((3, Number(32)))
    ensures SpecOf(BITWISE, "MASK") == Some((4, Nested("data")))
    ensures SpecOf(BITWISE, "XOR") == Some((5, Nested("data")))
  {
    hide SpecOf;
    Found(BITWISE, "SREG", "SREG", 1, Number(32));
    Found(BITWISE, "DREG", "DREG", 2, Number(32));
    Found(BITWISE, "LEN", "LEN", 3, Number(32));
    Found(BITWISE, "MASK", "MASK", 4, Nested("data"));
    Found(BITWISE, "XOR", "XOR", 5, Nested("data"));
  }

  lemma DataSpecs()
    ensures SpecOf(DATA, "VALUE") == Some((1, Generic))
    ensures SpecOf(DATA, "VERDICT") == Some((2, Nested("verdict")))
  {
    hide SpecOf;
    Found(DATA, "VALUE", "VALUE", 1, Generic);
    Found(DATA, "VERDICT", "VERDICT", 2, Nested("verdict"));
  }

  lemma VerdictSpecs()
    ensures SpecOf(VERDICT, "CODE") == Some((1, Number(32)))
  {
    hide SpecOf;
    Found(VERDICT, "CODE", "CODE", 1, Number(32));
  }

  lemma ImmediateSpecs()
    ensures SpecOf(IMMEDIATE, "DREG") == Some((1, Number(32)))
    ensures SpecOf(IMMEDIATE, "DATA") == Some((2, Nested("data")))
  {
    hide SpecOf;
    Found(IMMEDIATE, "DREG", "DREG", 1, Number(32));
    Found(IMMEDIATE, "DATA", "DATA", 2, Nested("data"));
  }

  lemma TablesAndChainsFit()
    ensures NumbersFit(HOOK)
    ensures NumbersFit(TABLE)
    ensures NumbersFit(CHAIN)
  {
  }

  lemma RulesFit()
    ensures NumbersFit(RULE)
    ensures NumbersFit(LIST)
    ensures NumbersFit(EXPR)
  {
  }

  lemma LoadsFit()
    ensures NumbersFit(PAYLOAD)
    ensures NumbersFit(COUNTER)
    ensures NumbersFit(DATA)
  {
  }

  lemma OperationsFit()
    ensures NumbersFit(CMP)
    ensures NumbersFit(BITWISE)
  {
  }

  lemma VerdictsFit()
    ensures NumbersFit(VERDICT)
    ensures NumbersFit(IMMEDIATE)
  {
  }

  lemma FitTogether(hook: CommandObject, table: CommandObject, chain: CommandObject, rule: CommandObject,
                    list: CommandObject, expr: CommandObject, cmp: CommandObject, counter: CommandObject,
                    payload: CommandObject, data: CommandObject, bitwise: CommandObject, verdict: CommandObject,
                    immediate: CommandObject)
    requires NumbersFit(hook) && NumbersFit(table) && NumbersFit(chain) && NumbersFit(rule) && NumbersFit(list)
    requires NumbersFit(expr) && NumbersFit(cmp) && NumbersFit(counter) && NumbersFit(payload) && NumbersFit(data)
    requires NumbersFit(bitwise) && NumbersFit(verdict) && NumbersFit(immediate)
    ensures TablesFit(map["hook" := hook, "table" := table, "chain" := chain, "rule" := rule, "list" := list,
                          "expr" := expr, "cmp" := cmp, "counter" := counter, "payload" := payload, "data" := data,
                          "bitwise" := bitwise, "verdict" := verdict, "immediate" := immediate])
  {
    hide NumbersFit;
  }

  lemma NftFits()
    ensures TablesFit(NFT)
  {
    hide TablesFit;
    TablesAndChainsFit();
    RulesFit();
    LoadsFit();
    OperationsFit();
    VerdictsFit();
    hide NumbersFit;
    FitTogether(HOOK, TABLE, CHAIN, RULE, LIST, EXPR, CMP, COUNTER, PAYLOAD, DATA, BITWISE, VERDICT, IMMEDIATE);
  }
}
