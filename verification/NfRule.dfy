/**
  The semantic actions of the rule grammar: a parsed rule becomes the parameter object of a rule
  message, a list of expressions that load a header field, mask it, compare it, and give a verdict.
 */
module NfRule {
  import opened Bytes
  import opened Numerals
  import opened Options
  import opened Words
  import opened NfAttr

  datatype Protocol = Tcp | Udp

  /** The header fields a criterion can name; prot is read, as the grammar has it, from the transport header. */
  datatype Selector = Saddr | Daddr | Dport | Prot

  /** An address with a prefix length, or a number. */
  datatype Operand = Net(octets: seq<nat>, prefix: nat) | Figure(n: nat)

  datatype Criterion = Criterion(field: Selector, value: Operand)

  datatype Verdict = Drop | Accept

  datatype Rule = Rule(table: string, chain: string, protocol: Protocol, criteria: seq<Criterion>, verdict: Verdict)

  /** Four octets and one or two digits of prefix; table and chain names are letters. */
  predicate Grammatical(rule: Rule) {
    && (forall c :: c in rule.table || c in rule.chain ==> 'a' <= c <= 'z' || 'A' <= c <= 'Z')
    && forall k :: k in rule.criteria ==> k.value.Net? ==> |k.value.octets| == 4 && k.value.prefix < 100
  }

  const NETWORK_HEADER: nat := 1
  const TRANSPORT_HEADER: nat := 2

  function Base(f: Selector): nat {
    match f case Saddr => NETWORK_HEADER case Daddr => NETWORK_HEADER case _ => TRANSPORT_HEADER
  }

  function Offset(f: Selector): nat {
    match f case Saddr => 12 case Daddr => 16 case Dport => 2 case Prot => 9
  }

  function Width(f: Selector): nat {
    match f case Dport => 2 case Prot => 1 case _ => 4
  }

  // ----- the objects the actions build -----

  function Element(name: string, data: seq<Field>): Value {
    Obj([Field("elem", Obj([Field("name", Str(name)), Field("data", Obj(data))]))])
  }

  function Payload(base: nat, offset: nat, len: nat): Value {
    Element("payload", [Field("DREG", Num(1)), Field("BASE", Num(base)), Field("OFFSET", Num(offset)),
                        Field("LEN", Num(len))])
  }

  function Cmp(text: string): Value {
    Element("cmp", [Field("SREG", Num(1)), Field("OP", Num(0)), Field("DATA", Obj([Field("VALUE", Str(text))]))])
  }

  function Bitwise(mask: string): Value {
    Element("bitwise", [Field("SREG", Num(1)), Field("DREG", Num(1)), Field("LEN", Num(4)),
                        Field("MASK", Obj([Field("VALUE", Str("0x" + mask))])),
                        Field("XOR", Obj([Field("VALUE", Str("0x00000000"))]))])
  }

  function Code(v: Verdict): nat {
    if v.Drop? then 0 else 1
  }

  function Immediate(v: Verdict): Value {
    Element("immediate", [Field("DREG", Num(0)),
                          Field("DATA", Obj([Field("VERDICT", Obj([Field("CODE", Num(Code(v)))]))]))])
  }

  function ProtocolText(p: Protocol): string {
    if p.Tcp? then "0x06" else "0x11"
  }

  /** The hexadecimal digits of n, filled up to those of the loaded field. */
  function NumberDigits(n: nat, len: nat): string {
    var digits := Numeral(n, 16);
    if |digits| < 2 * len then Zeroes(2 * len - |digits|) + digits else digits
  }

  /** The first byte of a mask of so many ones. */
  function MaskByte(ones: nat): Byte {
    if ones >= 8 then 255
    else
      assert Pow2(8 - ones) <= 256 by { PowersUpTo8(8 - ones); }
      256 - Pow2(8 - ones)
  }

  lemma PowersUpTo8(j: nat)
    requires j <= 8
    ensures Pow2(j) <= 256
  {
    Pow2Monotone(j, 8);
    assert Pow2(8) == 256;
  }

  function MaskBytes(prefix: nat, len: nat): (r: seq<Byte>)
    ensures |r| == len
  {
    if len == 0 then [] else [MaskByte(prefix)] + MaskBytes(if prefix >= 8 then prefix - 8 else 0, len - 1)
  }

  predicate OctetsFit(octets: seq<nat>) {
    forall o :: o in octets ==> o < 256
  }

  /** The expressions of one criterion; an octet above 255 throws. */
  function CriterionElements(k: Criterion): Outcome<seq<Value>> {
    var load := Payload(Base(k.field), Offset(k.field), Width(k.field));
    match k.value
    case Figure(n) => Done([load, Cmp("0x" + NumberDigits(n, Width(k.field)))])
    case Net(octets, prefix) =>
      if OctetsFit(octets) then
        Done([load, Bitwise(HexText(MaskBytes(prefix, 4))), Cmp("0x" + HexText(ToBytes(octets)))])
      else Throws
  }

  function ToBytes(octets: seq<nat>): (bs: seq<Byte>)
    requires OctetsFit(octets)
    ensures |bs| == |octets| && forall i :: 0 <= i < |bs| ==> bs[i] == octets[i]
  {
    if octets == [] then []
    else
      assert octets[0] in octets && forall o :: o in octets[1..] ==> o in octets;
      var first: Byte := octets[0];
      [first] + ToBytes(octets[1..])
  }

  function Join(a: Outcome<seq<Value>>, b: Outcome<seq<Value>>): Outcome<seq<Value>> {
    if !a.Done? then a else if !b.Done? then b else Done(a.value + b.value)
  }

  function CriteriaElements(ks: seq<Criterion>): Outcome<seq<Value>> {
    if ks == [] then Done([]) else Join(CriterionElements(ks[0]), CriteriaElements(ks[1..]))
  }

  function ProtocolElements(p: Protocol): seq<Value> {
    [Payload(NETWORK_HEADER, 9, 1), Cmp(ProtocolText(p))]
  }

  /** An array as an object: its keys are the indices. */
  function Indexed(vs: seq<Value>, from: nat): (fields: seq<Field>)
    ensures |fields| == |vs|
  {
    if vs == [] then [] else [Field(Numeral(from, 10), vs[0])] + Indexed(vs[1..], from + 1)
  }

  /** The parameters of a rule: its expressions in order, then the names of its table and chain. */
  function Params(rule: Rule): Outcome<Value> {
    match CriteriaElements(rule.criteria)
    case Throws => Throws
    case Unmodelled => Unmodelled
    case Done(middle) =>
      var exprs := ProtocolElements(rule.protocol) + middle + [Immediate(rule.verdict)];
      Done(Obj([Field("expressions", Obj(Indexed(exprs, 0))), Field("table", Str(rule.table)),
                Field("chain", Str(rule.chain))]))
  }

  // ----- the actions -----

  function Ones(n: nat): (s: string)
    ensures |s| == n
  {
    if n == 0 then [] else Ones(n - 1) + ['1']
  }

  lemma {:induction false} OnesValue(k: nat)
    ensures AllDigits(Ones(k), 2) && ValueOf(Ones(k), 2) == Pow2(k) - 1
  {
    if k > 0 {
      OnesValue(k - 1);
      assert Ones(k)[..k - 1] == Ones(k - 1);
    }
  }

  lemma {:induction false} ShiftedValue(s: string, z: nat)
    requires AllDigits(s, 2)
    ensures AllDigits(s + Zeroes(z), 2) && ValueOf(s + Zeroes(z), 2) == ValueOf(s, 2) * Pow2(z)
  {
    if z == 0 {
      assert s + Zeroes(0) == s;
    } else {
      ShiftedValue(s, z - 1);
      ZeroDigit();
      assert s + Zeroes(z) == s + Zeroes(z - 1) + [Digit(0)];
      ValueOfAppended(s + Zeroes(z - 1), 0, 2);
      assert Pow2(z) == 2 * Pow2(z - 1);
      hide *;
      DoubledProduct(ValueOf(s, 2), Pow2(z - 1));
    }
  }

  lemma ZeroDigit()
    ensures Digit(0) == '0'
  {
  }

  lemma DoubledProduct(a: nat, b: nat)
    ensures a * (2 * b) == 2 * (a * b)
  {
  }

  /** The eight binary digits of a mask byte read as its value. */
  lemma MaskBits(ones: nat)
    requires ones <= 8
    ensures ParseInt(Ones(ones) + Zeroes(8 - ones), 2) == Some(MaskByte(ones) as nat)
  {
    hide *;
    MaskByteIs(ones);
    OnesValue(ones);
    ShiftedValue(Ones(ones), 8 - ones);
    ParseBinary(Ones(ones) + Zeroes(8 - ones));
    OnesShifted(ones);
  }

  lemma OnesShifted(ones: nat)
    requires ones <= 8
    ensures (Pow2(ones) - 1) * Pow2(8 - ones) == 256 - Pow2(8 - ones)
  {
    Pow2Add(ones, 8 - ones);
    Pow2Of8();
    hide Pow2;
    DistributeSub(Pow2(ones), 1, Pow2(8 - ones));
  }

  lemma Pow2Of8()
    ensures Pow2(8) == 256
  {
  }

  lemma MaskByteIs(ones: nat)
    requires ones <= 8
    ensures MaskByte(ones) == 256 - Pow2(8 - ones)
  {
  }

  lemma ParseBinary(s: string)
    requires s != [] && AllDigits(s, 2)
    ensures ParseInt(s, 2) == Some(ValueOf(s, 2))
  {
    DigitPrefixOfDigits(s, 2);
    hide DigitPrefix, ValueOf, AllDigits;
  }

  lemma MaskOfMany(ones: nat)
    requires ones >= 8
    ensures MaskByte(ones) == MaskByte(8)
  {
  }

  lemma MaskBytesFirst(prefix: nat, len: nat)
    requires len > 0
    ensures MaskBytes(prefix, len) == [MaskByte(prefix)] + MaskBytes(if prefix >= 8 then prefix - 8 else 0, len - 1)
  {
  }

  method MaskFromCidr(mask: nat, len: nat) returns (hex: string)
    ensures hex == HexText(MaskBytes(mask, len))
  {
    hide MaskByte, MaskBytes, ParseInt, Zeroes, Ones, HexText;
    var mbits := new Byte[len](i => 0);
    var left, i := mask, 0;
    assert mbits[..0] == [];
    while i < mbits.Length
      invariant 0 <= i <= len
      invariant mbits[..i] + MaskBytes(left, len - i) == MaskBytes(mask, len)
    {
      var bits;
      ghost var was := left;
      if left >= 8 {
        bits := Ones(8);
        left := left - 8;
        MaskBits(8);
        assert bits == Ones(8) + Zeroes(0);
        MaskOfMany(was);
      } else {
        bits := Ones(left) + Zeroes(8 - left);
        MaskBits(left);
        left := 0;
      }
      MaskBytesFirst(was, len - i);
      mbits[i] := ParseInt(bits, 2).value;
      assert mbits[..i + 1] == mbits[..i] + [MaskByte(was)];
      i := i + 1;
    }
    hex := HexText(mbits[..]);
    assert mbits[..] == mbits[..i] + MaskBytes(left, 0);
  }

  /** The actions share the width of the field read last. */
  class Actions {
    var payloadLen: nat

    constructor ()
      ensures payloadLen == 0
    {
      payloadLen := 0;
    }

    /** network_header and transport_header */
    method Header(f: Selector) returns (e: Value)
      modifies this
      ensures payloadLen == Width(f) && e == Payload(Base(f), Offset(f), Width(f))
    {
      payloadLen := Width(f);
      e := Payload(Base(f), Offset(f), payloadLen);
    }

    /** number */
    method NumberAction(n: nat) returns (e: Value)
      ensures e == Cmp("0x" + NumberDigits(n, payloadLen))
    {
      var numstr := Numeral(n, 16);
      var pad := payloadLen * 2;
      ghost var zeroes := 0;
      while |numstr| < pad
        invariant numstr == Zeroes(zeroes) + Numeral(n, 16)
        invariant zeroes == 0 || |numstr| <= pad
        decreases pad - |numstr|
      {
        ZeroInFront(zeroes);
        assert "0" + numstr == ("0" + Zeroes(zeroes)) + Numeral(n, 16);
        numstr := "0" + numstr;
        zeroes := zeroes + 1;
      }
      assert Zeroes(0) + Numeral(n, 16) == Numeral(n, 16);
      e := Cmp("0x" + numstr);
    }

    /** ipv4: the mask and the address */
    method AddressAction(octets: seq<nat>, prefix: nat) returns (r: Outcome<(Value, Value)>)
      requires |octets| == 4
      ensures r == if OctetsFit(octets)
                   then Done((Bitwise(HexText(MaskBytes(prefix, 4))), Cmp("0x" + HexText(ToBytes(octets)))))
                   else Throws
    {
      var addr := new Byte[4](i => 0);
      var i := 0;
      while i < 4
        invariant 0 <= i <= 4
        invariant forall j :: 0 <= j < i ==> octets[j] == addr[j]
      {
        if octets[i] > 255 {
          assert octets[i] in octets;
          return Throws;
        }
        addr[i] := octets[i];
        i := i + 1;
      }
      assert OctetsFit(octets) && addr[..] == ToBytes(octets);
      var hex := MaskFromCidr(prefix, 4);
      r := Done((Bitwise(hex), Cmp("0x" + HexText(addr[..]))));
    }

    /** rule_criteria, then the loop of rule_expression over what it gave */
    method RuleAction(rule: Rule) returns (r: Outcome<Value>)
      requires Grammatical(rule)
      modifies this
      ensures r == Params(rule)
    {
      hide Payload, Cmp, Bitwise, Immediate, HexText, MaskBytes, ToBytes, NumberDigits, Indexed, CriteriaElements;
      var exprs := ProtocolElements(rule.protocol);
      var i := 0;
      EmptyCriteria(rule.criteria);
      while i < |rule.criteria|
        invariant 0 <= i <= |rule.criteria|
        invariant CriteriaElements(rule.criteria[..i]).Done?
        invariant exprs == ProtocolElements(rule.protocol) + CriteriaElements(rule.criteria[..i]).value
      {
        var k := rule.criteria[i];
        assert k in rule.criteria;
        MoreCriteria(rule.criteria, i);
        var field := Header(k.field);
        match k.value {
          case Figure(n) =>
            var number := NumberAction(n);
            exprs := exprs + [field] + [number];
          case Net(octets, prefix) =>
            var address := AddressAction(octets, prefix);
            if address.Throws? { return Throws; }
            exprs := exprs + [field] + [address.value.0] + [address.value.1];
        }
        i := i + 1;
      }
      assert rule.criteria[..i] == rule.criteria;
      exprs := exprs + [Immediate(rule.verdict)];
      r := Done(Obj([Field("expressions", Obj(Indexed(exprs, 0))), Field("table", Str(rule.table)),
                     Field("chain", Str(rule.chain))]));
    }
  }

  lemma {:induction false} ZeroInFront(n: nat)
    ensures "0" + Zeroes(n) == Zeroes(n + 1)
  {
    if n > 0 { ZeroInFront(n - 1); }
  }

  lemma EmptyCriteria(ks: seq<Criterion>)
    ensures CriteriaElements(ks[..0]) == Done([])
  {
  }

  lemma {:induction false} MoreCriteria(ks: seq<Criterion>, i: nat)
    requires i < |ks| && CriteriaElements(ks[..i]).Done?
    ensures CriterionElements(ks[i]).Done? ==>
      CriteriaElements(ks[..i + 1]) == Done(CriteriaElements(ks[..i]).value + CriterionElements(ks[i]).value)
    ensures CriterionElements(ks[i]).Throws? ==> CriteriaElements(ks).Throws?
  {
    hide CriterionElements;
    var rest := ks[1..];
    if i == 0 {
      assert ks[..1][1..] == [];
      if CriterionElements(ks[0]).Done? {
        var v := CriterionElements(ks[0]).value;
        assert v + [] == v == [] + v;
      }
    } else {
      assert ks[..i][1..] == rest[..i - 1] && ks[..i + 1][1..] == rest[..i];
      MoreCriteria(rest, i - 1);
      if CriterionElements(ks[i]).Done? {
        var first, middle, last :=
          CriterionElements(ks[0]).value, CriteriaElements(rest[..i - 1]).value, CriterionElements(ks[i]).value;
        assert first + (middle + last) == first + middle + last;
      }
    }
  }
}
