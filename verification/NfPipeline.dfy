/**
  From the text of a rule to the verdict on a packet: parser, actions, attribute writer, and on the other
  side the reader of the bytes and the machine that runs them.
 */
module NfPipeline {
  import opened Bytes
  import opened Options
  import opened TlvTree
  import opened NfAttr
  import opened NfAttributes
  import opened NfTables
  import opened NfRule
  import opened NfVm
  import opened NfRuleMeaning
  import opened NfGrammar
  import opened NfParser

  // ----- from the rule to the bytes and back -----

  /** The bytes of the message carry the meaning: a receiver that parses and runs them gives the rule's verdicts. */
  lemma MeaningOnTheWire(rule: Rule, p: Packet, bytes: seq<Byte>)
    requires Grammatical(rule)
    requires Params(rule).Done? && Message(NFT, "rule", Params(rule).value).Done?
    requires bytes == PrintAll(Message(NFT, "rule", Params(rule).value).value) && |bytes| < TWO_TO_THE_16
    ensures Parse(bytes).Some?
    ensures RunRule(Parse(bytes).value, p) == if Matches(rule, p) then Some(if rule.verdict.Drop? then NF_DROP else NF_ACCEPT) else None
  {
    hide *;
    NftFits();
    MessageRecovered(NFT, "rule", Params(rule).value);
    CompilationPreservesMeaning(rule, p);
  }

  /**
    A rule command: the actions of the parser, then the attributes of the message. Its bytes are determined
    exactly when every criterion has bytes to compare and the whole stays in reach of a 16-bit length field.
   */
  method BuildRuleMessage(rule: Rule) returns (r: Outcome<NfAttributes>)
    requires Grammatical(rule)
    ensures r.Done? <==> (forall k :: k in rule.criteria ==> HasBytes(k)) && HEADER + RuleSize(rule) < TWO_TO_THE_16
    ensures r.Throws? <==> Params(rule).Throws? || (Params(rule).Done? && Message(NFT, "rule", Params(rule).value).Throws?)
    ensures r.Done? ==> Compiles(rule) && Wire(r.value.attributeArray) == PrintAll(Message(NFT, "rule", Params(rule).value).value)
  {
    hide *;
    CompilesExactly(rule);
    CompilesIs(rule);
    NftFits();
    var actions := new Actions();
    var params := actions.RuleAction(rule);
    if params.Throws? { return Throws; }
    if params.Unmodelled? { return Unmodelled; }
    r := NewNfAttributes(NFT, "rule", params.value);
  }

  // ----- from the text -----

  lemma CriterionParsed(s: string)
    ensures CriterionP(s).Matched? ==> NfGrammar.Writable(CriterionP(s).value)
  {
    var field := FieldP(s);
    if field.Matched? {
      var rest := field.rest;
      hide FieldP, DecimalP, AfterP, HexP, ThenBlanks;
      if Ipv4P(rest).Matched? {
        assert |OctetsP(rest).value| == 4;
        assert CidrP(OctetsP(rest).rest).value < 100;
      }
    }
  }

  lemma {:induction false} CriteriaParsed(s: string)
    requires CriteriaP(s).Matched?
    ensures forall k :: k in CriteriaP(s).value ==> NfGrammar.Writable(k)
    decreases |s|
  {
    CriterionParsed(s);
    hide CriterionP, NfGrammar.Writable;
    if CriterionP(s).Matched? { CriteriaParsed(CriterionP(s).rest); }
  }

  /** Whatever the parser accepts has the form that the compiler expects. */
  lemma ParsedIsGrammatical(s: string)
    requires RuleP(s).Matched?
    ensures Grammatical(RuleP(s).value) && WritableRule(RuleP(s).value)
  {
    var table := NameP(s);
    var chain := NameP(table.rest);
    NameParsed(s);
    NameParsed(table.rest);
    var protocol := ProtocolP(chain.rest);
    CriteriaParsed(protocol.rest);
    hide NameP, ProtocolP, CriteriaP, ActionP;
  }

  lemma NameParsed(s: string)
    ensures NameP(s).Matched? ==> NameP(s).value != [] && Letters(NameP(s).value)
  {
  }

  /**
    A rule as text: parsed, compiled and laid out as the buffers of a message, exactly when the grammar matches
    all of the text and the bytes of the rule's message are determined. It throws exactly when the grammar does
    not match, an action throws or the message does.
   */
  method CompileText(text: string) returns (r: Outcome<NfAttributes>)
    ensures var p := RuleP(text);
      r.Done? <==>
        && p.Matched? && p.rest == []
        && (forall k :: k in p.value.criteria ==> HasBytes(k)) && HEADER + RuleSize(p.value) < TWO_TO_THE_16
    ensures var p := RuleP(text);
      r.Throws? <==>
        || !(p.Matched? && p.rest == [])
        || Params(p.value).Throws? || (Params(p.value).Done? && Message(NFT, "rule", Params(p.value).value).Throws?)
    ensures r.Done? ==>
      var p := RuleP(text);
      && p.Matched? && Grammatical(p.value) && Compiles(p.value)
      && Wire(r.value.attributeArray) == PrintAll(Message(NFT, "rule", Params(p.value).value).value)
  {
    hide *;
    var rule := ParseRuleText(text);
    if rule.Throws? { return Throws; }
    ParsedIsGrammatical(text);
    r := BuildRuleMessage(rule.value);
  }

  /**
    Every text the parser accepts means what its rule says: the bytes of the message, parsed and run on any
    packet, give the rule's verdict exactly when the packet matches.
   */
  lemma TextMeaning(text: string, p: Packet, bytes: seq<Byte>)
    requires RuleP(text).Matched? && Params(RuleP(text).value).Done?
    requires Message(NFT, "rule", Params(RuleP(text).value).value).Done?
    requires bytes == PrintAll(Message(NFT, "rule", Params(RuleP(text).value).value).value) && |bytes| < TWO_TO_THE_16
    ensures var rule := RuleP(text).value;
      Parse(bytes).Some?
      && RunRule(Parse(bytes).value, p) == if Matches(rule, p) then Some(if rule.verdict.Drop? then NF_DROP else NF_ACCEPT) else None
  {
    hide *;
    ParsedIsGrammatical(text);
    MeaningOnTheWire(RuleP(text).value, p, bytes);
  }

  /**
    A rule written out with any blanks between its words, its numbers in range and its expressions in reach of
    a 16-bit length field: the whole way.
   */
  lemma WrittenRuleMeaning(rule: Rule, gaps: seq<string>, p: Packet)
    requires WritableRule(rule) && GapsFor(rule, gaps)
    requires (forall k :: k in rule.criteria ==> InRange(k)) && HEADER + RuleSize(rule) < TWO_TO_THE_16
    ensures RuleP(RuleText(rule, gaps)) == Matched(rule, [])
    ensures Params(rule).Done? && Message(NFT, "rule", Params(rule).value).Done?
    ensures RunRule(Message(NFT, "rule", Params(rule).value).value, p)
         == if Matches(rule, p) then Some(if rule.verdict.Drop? then NF_DROP else NF_ACCEPT) else None
  {
    hide *;
    RuleRoundTrip(rule, gaps);
    ParsedIsGrammatical(RuleText(rule, gaps));
    InRangeCompiles(rule);
    CompilationPreservesMeaning(rule, p);
  }
}
