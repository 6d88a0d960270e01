/**
  The recursive-descent parser: every method moves currPos over what its production matches, or puts it
  back. Together with the actions of NfRule, a command text becomes the parameters of a message.
 */
module NfParser {
  import opened Numerals
  import opened NfAttr
  import opened NfRule
  import opened NfGrammar

  /** What a parse function returns: a value, peg$FAILED, or an exception of one of its actions. */
  datatype Result<+T> = Got(value: T) | NoMatch | Threw

  class Parser {
    const input: string
    var currPos: nat

    constructor (input: string)
      ensures this.input == input && currPos == 0
    {
      this.input, currPos := input, 0;
    }

    ghost predicate Valid()
      reads this
    {
      currPos <= |input|
    }

    ghost function Rest(): string
      requires Valid()
      reads this
    {
      input[currPos..]
    }

    /** The production was followed: the position is behind what it matched, or where it was at the start. */
    ghost predicate Follows<T>(p: Parsed<T>, r: Result<T>, start: nat)
      reads this
    {
      && Valid()
      && (p.Matched? ==> r == Got(p.value) && Rest() == p.rest)
      && (p.Failed? ==> r == NoMatch && currPos == start)
      && (p.Thrown? ==> r == Threw)
    }

    /** input.substr(currPos, n) === word, and the step over it */
    method Literal(word: string) returns (ok: bool)
      requires Valid()
      modifies this
      ensures Valid() && (ok <==> word <= old(Rest()))
      ensures if ok then Rest() == old(Rest())[|word|..] else currPos == old(currPos)
    {
      ok := currPos + |word| <= |input| && input[currPos..currPos + |word|] == word;
      assert ok <==> word <= Rest();
      if ok { currPos := currPos + |word|; }
    }

    /** peg$parse__ */
    method Blanks0()
      requires Valid()
      modifies this
      ensures Valid() && Rest() == SkipBlanks(old(Rest()))
    {
      while currPos < |input| && IsBlank(input[currPos])
        invariant Valid() && SkipBlanks(Rest()) == SkipBlanks(old(Rest()))
      {
        assert Rest()[1..] == input[currPos + 1..];
        currPos := currPos + 1;
      }
    }

    /** peg$parse_ behind a value: the caller goes back to start when there are no blanks. */
    method ThenBlanks1<T>(v: T, start: nat) returns (r: Result<T>)
      requires Valid() && start <= |input|
      modifies this
      ensures Valid()
      ensures var p := ThenBlanks(v, old(Rest()));
        && (p.Matched? ==> r == Got(v) && Rest() == p.rest)
        && (!p.Matched? ==> r == NoMatch && currPos == start)
    {
      if currPos < |input| && IsBlank(input[currPos]) {
        Blanks0();
        return Got(v);
      }
      currPos := start;
      r := NoMatch;
    }

    /** The letters of table and chain */
    method ParseName() returns (r: Result<string>)
      requires Valid()
      modifies this
      ensures Follows(NameP(old(Rest())), r, old(currPos))
    {
      var name := [];
      while currPos < |input| && IsLetter(input[currPos])
        invariant old(currPos) <= currPos <= |input|
        invariant name == input[old(currPos)..currPos] && Letters(name)
      {
        name := name + [input[currPos]];
        currPos := currPos + 1;
      }
      LetterPrefixOf(name, Rest());
      assert name + Rest() == old(Rest());
      assert old(Rest())[|name|..] == Rest();
      if name == [] { return NoMatch; }
      Blanks0();
      r := Got(name);
    }

    method ParseProtocol() returns (r: Result<Protocol>)
      requires Valid()
      modifies this
      ensures Follows(ProtocolP(old(Rest())), r, old(currPos))
    {
      var s0 := currPos;
      var tcp := Literal("tcp");
      if tcp {
        r := ThenBlanks1(Tcp, s0);
        return;
      }
      var udp := Literal("udp");
      if udp {
        r := ThenBlanks1(Udp, s0);
        return;
      }
      r := NoMatch;
    }

    method ParseTransportHeader() returns (r: Result<Selector>)
      requires Valid()
      modifies this
      ensures Valid() && (r.Got? || r.NoMatch?)
      ensures r.NoMatch? ==> currPos == old(currPos)
      ensures var s := old(Rest());
        var p := if "prot" <= s then ThenBlanks(Prot, s[4..]) else if "dport" <= s then ThenBlanks(Dport, s[5..]) else Failed;
        (r.Got? <==> p.Matched?) && (r.Got? ==> r.value == p.value && Rest() == p.rest)
    {
      var s0 := currPos;
      var prot := Literal("prot");
      if prot {
        r := ThenBlanks1(Prot, s0);
        return;
      }
      var dport := Literal("dport");
      if dport {
        r := ThenBlanks1(Dport, s0);
        return;
      }
      r := NoMatch;
    }

    method ParseField() returns (r: Result<Selector>)
      requires Valid()
      modifies this
      ensures Follows(FieldP(old(Rest())), r, old(currPos))
    {
      var s0 := currPos;
      OneKeyword(Rest());
      r := ParseTransportHeader();
      if r.Got? { return; }
      var saddr := Literal("saddr");
      if saddr {
        r := ThenBlanks1(Saddr, s0);
        return;
      }
      var daddr := Literal("daddr");
      if daddr {
        r := ThenBlanks1(Daddr, s0);
        return;
      }
      r := NoMatch;
    }

    /** One or more digits of a radix */
    method Digits(radix: nat) returns (digits: string)
      requires Valid()
      modifies this
      ensures Valid() && digits == DigitPrefix(old(Rest()), radix) && Rest() == old(Rest())[|digits|..]
    {
      digits := [];
      while currPos < |input| && IsDigit(input[currPos], radix)
        invariant old(currPos) <= currPos <= |input|
        invariant digits == input[old(currPos)..currPos] && AllDigits(digits, radix)
      {
        digits := digits + [input[currPos]];
        currPos := currPos + 1;
      }
      DigitPrefixOf(digits, radix, Rest());
      assert digits + Rest() == old(Rest());
      assert old(Rest())[|digits|..] == Rest();
    }

    method ParseHex() returns (r: Result<nat>)
      requires Valid()
      modifies this
      ensures Follows(HexP(old(Rest())), r, old(currPos))
    {
      var s0 := currPos;
      var prefix := Literal("0x");
      if !prefix { return NoMatch; }
      ghost var after := Rest();
      var digits := Digits(16);
      if digits == [] {
        currPos := s0;
        return NoMatch;
      }
      assert old(Rest())[2 + |digits|..] == after[|digits|..];
      assert digits[0] in digits;
      r := Got(DigitOf(digits[0]).value);
    }

    method ParseDecimal() returns (r: Result<nat>)
      requires Valid()
      modifies this
      ensures Follows(DecimalP(old(Rest())), r, old(currPos))
    {
      ghost var s0 := currPos;
      var digits := Digits(10);
      if digits == [] {
        SamePlace(input, s0, currPos);
        return NoMatch;
      }
      r := Got(ValueOf(digits, 10));
    }

    method ParseNumber() returns (r: Result<Operand>)
      requires Valid()
      modifies this
      ensures Follows(NumberP(old(Rest())), r, old(currPos))
    {
      var s0 := currPos;
      var num := ParseHex();
      if num.NoMatch? { num := ParseDecimal(); }
      if num.NoMatch? { return NoMatch; }
      r := ThenBlanks1(Figure(num.value), s0);
    }

    /** A dot and a decimal number, from wherever the caller stands; start is where it goes back to. */
    method ParseDotted(start: nat) returns (r: Result<nat>)
      requires Valid() && start <= |input|
      modifies this
      ensures Valid()
      ensures var p := AfterP('.', old(Rest()));
        && (p.Matched? ==> r == Got(p.value) && Rest() == p.rest)
        && (!p.Matched? ==> r == NoMatch && currPos == start)
    {
      if currPos < |input| && input[currPos] == '.' {
        assert Rest()[1..] == input[currPos + 1..];
        currPos := currPos + 1;
        r := ParseDecimal();
        if r.Got? { return; }
      }
      currPos := start;
      r := NoMatch;
    }

    method ParseOctets() returns (r: Result<seq<nat>>)
      requires Valid()
      modifies this
      ensures Follows(OctetsP(old(Rest())), r, old(currPos))
    {
      var s0 := currPos;
      var a := ParseDecimal();
      if a.NoMatch? { return NoMatch; }
      var b := ParseDotted(s0);
      if b.NoMatch? { return NoMatch; }
      var c := ParseDotted(s0);
      if c.NoMatch? { return NoMatch; }
      var d := ParseDotted(s0);
      if d.NoMatch? { return NoMatch; }
      r := Got([a.value, b.value, c.value, d.value]);
    }

    method ParseCidr() returns (r: Result<nat>)
      requires Valid()
      modifies this
      ensures Follows(CidrP(old(Rest())), r, old(currPos))
    {
      ghost var s := Rest();
      if currPos + 1 < |input| && input[currPos] == '/' && IsDigit(input[currPos + 1], 10) {
        assert s[0] == input[currPos] && s[1] == input[currPos + 1];
        var value := DigitOf(input[currPos + 1]).value;
        assert s[2..] == input[currPos + 2..];
        currPos := currPos + 2;
        if currPos < |input| && IsDigit(input[currPos], 10) {
          assert s[2] == input[currPos] && s[3..] == input[currPos + 1..];
          value := 10 * value + DigitOf(input[currPos]).value;
          currPos := currPos + 1;
        }
        r := Got(value);
      } else {
        r := NoMatch;
      }
    }

    method ParseIpv4() returns (r: Result<Operand>)
      requires Valid()
      modifies this
      ensures Follows(Ipv4P(old(Rest())), r, old(currPos))
    {
      hide OctetsP, CidrP, ThenBlanks;
      var s0 := currPos;
      var octets := ParseOctets();
      if octets.NoMatch? { return NoMatch; }
      var prefix := ParseCidr();
      if prefix.NoMatch? {
        currPos := s0;
        return NoMatch;
      }
      r := ThenBlanks1(Net(octets.value, prefix.value), s0);
    }

    method ParseValue() returns (r: Result<Operand>)
      requires Valid()
      modifies this
      ensures Follows(ValueP(old(Rest())), r, old(currPos))
    {
      r := ParseNumber();
      if r.Got? { return; }
      r := ParseIpv4();
      if r.Got? { return; }
      r := Threw;
    }

    method ParseCriterion() returns (r: Result<Criterion>)
      requires Valid()
      modifies this
      ensures Follows(CriterionP(old(Rest())), r, old(currPos))
    {
      var s0 := currPos;
      var field := ParseField();
      if field.NoMatch? { return NoMatch; }
      var value := ParseValue();
      if value.Threw? { return Threw; }
      if value.NoMatch? {
        currPos := s0;
        return NoMatch;
      }
      r := Got(Criterion(field.value, value.value));
    }

    /** rule_criteria+ */
    method ParseCriteria() returns (r: Result<seq<Criterion>>)
      requires Valid()
      modifies this
      ensures Valid()
      ensures var p := CriteriaP(old(Rest()));
        && (p.Thrown? ==> r == Threw)
        && (p.Matched? && p.value != [] ==> r == Got(p.value) && Rest() == p.rest)
        && (p.Matched? && p.value == [] ==> r == NoMatch && currPos == old(currPos))
    {
      var s4 := [];
      hide CriterionP, CriteriaP;
      ghost var all := CriteriaP(Rest());
      BehindNothing(all);
      BehindStep([], Rest());
      var s5 := ParseCriterion();
      while s5.Got?
        invariant Valid() && (s4 == [] && s5.NoMatch? ==> currPos == old(currPos))
        invariant s5.Threw? ==> all.Thrown?
        invariant s5.NoMatch? ==> all == Matched(s4, Rest())
        invariant s5.Got? ==> all == Behind(s4 + [s5.value], CriteriaP(Rest()))
        decreases if s5.Got? then |input| - currPos + 1 else 0
      {
        s4 := s4 + [s5.value];
        BehindStep(s4, Rest());
        s5 := ParseCriterion();
      }
      if s5.Threw? { return Threw; }
      r := if s4 == [] then NoMatch else Got(s4);
    }

    method ParseAction() returns (r: Result<Verdict>)
      requires Valid()
      modifies this
      ensures Follows(ActionP(old(Rest())), r, old(currPos))
    {
      var drop := Literal("drop");
      if drop { return Got(Drop); }
      var accept := Literal("accept");
      r := if accept then Got(Accept) else NoMatch;
    }

    /** rule_expression */
    method ParseRule() returns (r: Result<Rule>)
      requires Valid()
      modifies this
      ensures Follows(RuleP(old(Rest())), r, old(currPos))
    {
      hide NameP, ProtocolP, CriteriaP, ActionP;
      var s0 := currPos;
      var table := ParseName();
      if table.NoMatch? { return NoMatch; }
      var chain := ParseName();
      if chain.NoMatch? {
        currPos := s0;
        return NoMatch;
      }
      var protocol := ParseProtocol();
      if protocol.NoMatch? {
        currPos := s0;
        return NoMatch;
      }
      var criteria := ParseCriteria();
      if criteria.Threw? { return Threw; }
      if criteria.NoMatch? {
        currPos := s0;
        return NoMatch;
      }
      var action := ParseAction();
      if action.NoMatch? {
        currPos := s0;
        return NoMatch;
      }
      r := Got(Rule(table.value, chain.value, protocol.value, criteria.value, action.value));
    }
  }

  /** What the keywords of the two headers begin with tells them apart. */
  lemma OneKeyword(s: string)
    ensures "prot" <= s ==> !("dport" <= s) && !("saddr" <= s) && !("daddr" <= s)
    ensures "dport" <= s ==> !("saddr" <= s) && !("daddr" <= s)
  {
    if "prot" <= s { assert s[0] == 'p'; }
    if "dport" <= s { assert s[0] == 'd' && s[1] == 'p'; }
    if "saddr" <= s { assert s[0] == 's'; }
    if "daddr" <= s { assert s[0] == 'd' && s[1] == 'a'; }
  }

  lemma SamePlace(input: string, a: nat, b: nat)
    requires a <= |input| && b <= |input| && input[b..] == input[a..]
    ensures a == b
  {
    assert |input[a..]| == |input| - a;
  }

  ghost function Behind(ks: seq<Criterion>, p: Parsed<seq<Criterion>>): Parsed<seq<Criterion>> {
    if p.Matched? then Matched(ks + p.value, p.rest) else p
  }

  lemma BehindStep(ks: seq<Criterion>, s: string)
    ensures match CriterionP(s)
      case Failed => Behind(ks, CriteriaP(s)) == Matched(ks, s)
      case Thrown => Behind(ks, CriteriaP(s)) == Thrown
      case Matched(k, rest) => Behind(ks, CriteriaP(s)) == Behind(ks + [k], CriteriaP(rest))
  {
    hide CriterionP;
    match CriterionP(s)
    case Matched(k, rest) =>
      if CriteriaP(rest).Matched? {
        assert ks + ([k] + CriteriaP(rest).value) == (ks + [k]) + CriteriaP(rest).value;
      }
    case _ => assert ks + [] == ks;
  }

  lemma BehindNothing(p: Parsed<seq<Criterion>>)
    ensures Behind([], p) == p
  {
    if p.Matched? { assert [] + p.value == p.value; }
  }

  /**
    parse, from rule_expression on: the whole text must be a rule. The action of an address, which throws for
    an octet above 255, runs later here, in RuleAction.
   */
  method ParseRuleText(text: string) returns (r: Outcome<Rule>)
    ensures var p := RuleP(text);
      r == if p.Matched? && p.rest == [] then Done(p.value) else Throws
  {
    var parser := new Parser(text);
    assert text[0..] == text;
    var result := parser.ParseRule();
    if result.Got? && parser.currPos == |text| { return Done(result.value); }
    r := Throws;
  }
}
