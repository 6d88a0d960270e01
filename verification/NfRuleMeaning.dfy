/**
  Compilation preserves meaning: whatever rule the grammar accepts, the message that goes out, run by
  its receiver on a packet, gives the verdict exactly when the packet satisfies the rule.
 */
module NfRuleMeaning {
  import opened Bytes
  import opened Numerals
  import opened Options
  import opened TlvTree
  import opened NfAttr
  import opened NfAttributes
  import opened NfTables
  import opened NfRule
  import opened NfVm
  import opened NfElements
  import opened Words

  // ----- what a rule says about a packet -----

  /** The protocol numbers of ip_proto. */
  function ProtocolNumber(p: Protocol): nat {
    if p.Tcp? then 6 else 17
  }

  /** The packet is long enough to hold the field. */
  predicate Present(f: Selector, p: Packet) {
    Offset(f) + Width(f) <= |HeaderOf(p, Base(f))|
  }

  /** The bytes of a header field. */
  function FieldBytes(f: Selector, p: Packet): (bs: seq<Byte>)
    requires Present(f, p)
    ensures |bs| == Width(f)
  {
    match f
    case Saddr => p.network[12..16]
    case Daddr => p.network[16..20]
    case Dport => p.transport[2..4]
    case Prot => p.transport[9..10]
  }

  /** A number must equal the field; an address must be the field with all bits behind the prefix cleared. */
  predicate Holds(k: Criterion, p: Packet) {
    && Present(k.field, p)
    && match k.value
       case Figure(n) => FromBE(FieldBytes(k.field, p)) == n
       case Net(octets, prefix) =>
         && Width(k.field) == 4 && OctetsFit(octets)
         && Clear(FromBE(FieldBytes(k.field, p)), if prefix < 32 then 32 - prefix else 0) == FromBE(ToBytes(octets))
  }

  predicate Matches(rule: Rule, p: Packet) {
    && |p.network| > 9 && p.network[9] == ProtocolNumber(rule.protocol)
    && forall k :: k in rule.criteria ==> Holds(k, p)
  }

  // ----- masks -----

  lemma {:induction false} FromBEFront(b: Byte, rest: seq<Byte>)
    ensures FromBE([b] + rest) == b * Pow256(|rest|) + FromBE(rest)
  {
    if rest == [] {
      assert [b] + rest == [b] && [b][..0] == [];
    } else {
      var init, last := rest[..|rest| - 1], rest[|rest| - 1];
      FromBEFront(b, init);
      assert ([b] + rest)[..|rest|] == [b] + init;
      FrontStep(b, Pow256(|init|), FromBE(init), last);
    }
  }

  lemma FrontStep(b: nat, w: nat, n: nat, last: nat)
    ensures 256 * (b * w + n) + last == b * (256 * w) + (256 * n + last)
  {
  }

  lemma {:induction false} Pow256IsPow2(k: nat)
    ensures Pow256(k) == Pow2(8 * k)
  {
    if k > 0 {
      Pow256IsPow2(k - 1);
      Pow2Add(8, 8 * (k - 1));
      assert Pow2(8) == 256;
      assert 8 + 8 * (k - 1) == 8 * k;
      hide Pow2;
    }
  }

  lemma MaskedByte(b: Byte, ones: nat)
    ensures And(b, MaskByte(ones)) == Clear(b, if ones < 8 then 8 - ones else 0)
  {
    var j := if ones < 8 then 8 - ones else 0;
    PowersUpTo8(j);
    assert Pow2(8) == 256 && Pow2(0) == 1;
    hide Pow2, And, Clear;
    AndHighOnes(b, 8, j);
  }

  lemma {:induction false} NothingLeft(bs: seq<Byte>)
    ensures AndBytes(bs, MaskBytes(0, |bs|)) == Zeros(|bs|)
  {
    if bs != [] {
      NothingLeft(bs[1..]);
      assert MaskByte(0) == 0 by { assert Pow2(8) == 256; }
      ZerosFront(|bs| - 1);
    }
  }

  lemma {:induction false} ZerosFront(n: nat)
    ensures [0] + Zeros(n) == Zeros(n + 1)
  {
    if n > 0 { ZerosFront(n - 1); }
  }

  lemma {:induction false} ZerosValue(n: nat)
    ensures FromBE(Zeros(n)) == 0
  {
    if n > 0 {
      ZerosValue(n - 1);
      assert Zeros(n)[..n - 1] == Zeros(n - 1);
    }
  }

  /** Masking a field clears the bits behind the prefix of the number it holds. */
  lemma {:induction false} MaskedValue(f: seq<Byte>, prefix: nat)
    ensures FromBE(AndBytes(f, MaskBytes(prefix, |f|)))
         == Clear(FromBE(f), if prefix < 8 * |f| then 8 * |f| - prefix else 0)
  {
    hide *;
    if f == [] {
      MaskedNothing(f, prefix);
    } else {
      var b, rest := f[0], f[1..];
      var next := if prefix >= 8 then prefix - 8 else 0;
      var w, j := 8 * |rest|, if prefix < 8 * |f| then 8 * |f| - prefix else 0;
      MaskedFront(f, prefix);
      MaskedByte(b, prefix);
      FromBEFront(b, rest);
      assert f == [b] + rest;
      FromBEFront(And(b, MaskByte(prefix)), AndBytes(rest, MaskBytes(next, |rest|)));
      FromBEBound(rest);
      Pow256IsPow2(|rest|);
      if prefix >= 8 {
        MaskedValue(rest, next);
        ClearNone(b);
      } else {
        NothingLeft(rest);
        ZerosValue(|rest|);
      }
      ClearMany(b, w, FromBE(rest), j);
    }
  }

  lemma ClearNone(n: nat)
    ensures Clear(n, 0) == n
  {
  }

  lemma MaskedNothing(f: seq<Byte>, prefix: nat)
    requires f == []
    ensures FromBE(AndBytes(f, MaskBytes(prefix, |f|))) == Clear(FromBE(f), 0)
  {
  }

  lemma MaskedFront(f: seq<Byte>, prefix: nat)
    requires f != []
    ensures AndBytes(f, MaskBytes(prefix, |f|))
         == [And(f[0], MaskByte(prefix))]
          + AndBytes(f[1..], MaskBytes(if prefix >= 8 then prefix - 8 else 0, |f| - 1))
  {
    hide And, MaskByte;
  }

  lemma {:induction false} XorNothing(bs: seq<Byte>)
    ensures XorBytes(bs, Zeros(|bs|)) == bs
  {
    if bs != [] {
      ZerosFront(|bs| - 1);
      assert Zeros(|bs|)[1..] == Zeros(|bs| - 1);
      XorNothing(bs[1..]);
      XorZero(bs[0]);
      hide Xor, Zeros;
    }
  }

  lemma {:induction false} XorZero(a: nat)
    ensures Xor(a, 0) == a
  {
    if a != 0 { XorZero(a / 2); }
  }

  lemma SameValue(a: seq<Byte>, b: seq<Byte>)
    requires |a| == |b|
    ensures a == b <==> FromBE(a) == FromBE(b)
  {
    BEOfFromBE(a);
    BEOfFromBE(b);
  }

  // ----- numbers -----

  function Pow16(m: nat): (p: nat)
    ensures p >= 1
  {
    if m == 0 then 1 else 16 * Pow16(m - 1)
  }

  lemma {:induction false} Pow256IsPow16(w: nat)
    ensures Pow256(w) == Pow16(2 * w)
  {
    if w > 0 {
      Pow256IsPow16(w - 1);
      assert Pow16(2 * w) == 16 * Pow16(2 * w - 1);
    }
  }

  /** A number has at most m hexadecimal digits exactly when it is below 16^m. */
  lemma {:induction false} NumeralLength(n: nat, m: nat)
    requires m >= 1
    ensures |Numeral(n, 16)| <= m <==> n < Pow16(m)
    decreases m
  {
    var q, d := NumeralSteps(n, 16);
    if m == 1 {
      assert Pow16(1) == 16;
    } else if n >= 16 {
      NumeralLength(q, m - 1);
    } else {
      Pow16Least(m);
    }
  }

  lemma {:induction false} Pow16Least(m: nat)
    requires m >= 1
    ensures Pow16(m) >= 16
  {
    if m > 1 { Pow16Least(m - 1); }
  }

  lemma DigitsOf(n: nat, len: nat)
    requires len > 0
    ensures AllDigits(NumberDigits(n, len), 16) && ValueOf(NumberDigits(n, len), 16) == n
    ensures NumberDigits(n, len) != []
    ensures |NumberDigits(n, len)| >= 2 * len
    ensures |NumberDigits(n, len)| == 2 * len <==> n < Pow256(len)
  {
    NumeralValue(n, 16);
    NumeralLength(n, 2 * len);
    Pow256IsPow16(len);
    var digits := Numeral(n, 16);
    hide Numeral, AllDigits, ValueOf, Pow256, Pow16;
    if |digits| < 2 * len { PaddedValue(2 * len - |digits|, digits, 16); }
  }

  /** The bytes a number criterion compares with. */
  function NumberData(n: nat, len: nat): Outcome<seq<Byte>> {
    GenericBytes(Str("0x" + NumberDigits(n, len)))
  }

  /** The compared bytes fill the loaded field exactly when the number fits it. */
  lemma NumberFillsField(n: nat, len: nat)
    requires len == 1 || len == 2 || len == 4
    ensures n < Pow256(len) ==> NumberData(n, len) == Done(BE(n, len))
    ensures n >= Pow256(len) ==> !(NumberData(n, len).Done? && |NumberData(n, len).value| == len)
  {
    DigitsOf(n, len);
    GenericHex(NumberDigits(n, len));
    SmallPowers();
    hide NumberDigits, GenericBytes, ValueOf, AllDigits, Pow256, BE;
  }

  /** Comparing with those bytes is comparing with the number, for every number that has bytes at all. */
  lemma ComparesNumber(n: nat, field: seq<Byte>)
    requires |field| == 1 || |field| == 2 || |field| == 4
    requires NumberData(n, |field|).Done?
    ensures field == NumberData(n, |field|).value <==> FromBE(field) == n
  {
    NumberFillsField(n, |field|);
    FromBEBound(field);
    if n < Pow256(|field|) {
      FromBEOfBE(n, |field|);
      SameValue(field, BE(n, |field|));
    }
    hide NumberData, FromBE, BE, Pow256;
  }

  // ----- running one criterion -----

  function LoadOf(f: Selector): Expr {
    Load(1, Base(f), Offset(f), Width(f))
  }

  /** The expressions a receiver decodes. */
  function CriterionExprs(k: Criterion): Outcome<seq<Expr>> {
    match k.value
    case Figure(n) =>
      (match NumberData(n, Width(k.field))
       case Done(d) => Done([LoadOf(k.field), Compare(1, 0, d)])
       case Throws => Throws
       case Unmodelled => Unmodelled)
    case Net(octets, prefix) =>
      if OctetsFit(octets)
      then Done([LoadOf(k.field), Mask(1, 1, 4, MaskBytes(prefix, 4), Zeros(4)), Compare(1, 0, ToBytes(octets))])
      else Throws
  }

  lemma ExecStep(e: Expr, rest: seq<Expr>, p: Packet, regs: Registers)
    requires !e.Decide?
    ensures Exec([e] + rest, p, regs) == if Step(e, p, regs).None? then None else Exec(rest, p, Step(e, p, regs).value)
  {
    hide Step;
    assert ([e] + rest)[0] == e && ([e] + rest)[1..] == rest;
  }

  lemma ExecLoad(f: Selector, rest: seq<Expr>, p: Packet, regs: Registers)
    ensures Exec([LoadOf(f)] + rest, p, regs)
         == if Present(f, p) then Exec(rest, p, regs[1 := FieldBytes(f, p)]) else None
  {
    ExecStep(LoadOf(f), rest, p, regs);
    hide Exec;
  }

  lemma ExecCompare(d: seq<Byte>, rest: seq<Expr>, p: Packet, regs: Registers)
    requires 1 in regs
    ensures Exec([Compare(1, 0, d)] + rest, p, regs) == if regs[1] == d then Exec(rest, p, regs) else None
  {
    ExecStep(Compare(1, 0, d), rest, p, regs);
    hide Exec;
  }

  /** The bitwise expression of an address criterion: no effect but on a field of four bytes. */
  lemma ExecMask(prefix: nat, rest: seq<Expr>, p: Packet, regs: Registers)
    requires 1 in regs
    ensures Exec([Mask(1, 1, 4, MaskBytes(prefix, 4), Zeros(4))] + rest, p, regs)
         == if |regs[1]| == 4 then Exec(rest, p, regs[1 := AndBytes(regs[1], MaskBytes(prefix, 4))]) else None
  {
    ExecStep(Mask(1, 1, 4, MaskBytes(prefix, 4), Zeros(4)), rest, p, regs);
    if |regs[1]| == 4 { XorNothing(AndBytes(regs[1], MaskBytes(prefix, 4))); }
    hide Exec, AndBytes, XorBytes, MaskBytes, Zeros;
  }

  /** A criterion lets exactly the packets through for which it holds. */
  lemma ExecCriterion(k: Criterion, rest: seq<Expr>, p: Packet, regs: Registers) returns (after: Registers)
    requires CriterionExprs(k).Done? && (k.value.Net? ==> |k.value.octets| == 4)
    ensures Exec(CriterionExprs(k).value + rest, p, regs) == if Holds(k, p) then Exec(rest, p, after) else None
  {
    match k.value
    case Figure(n) => after := ExecFigure(k, n, rest, p, regs);
    case Net(octets, prefix) => after := ExecNet(k, octets, prefix, rest, p, regs);
  }

  lemma ExecFigure(k: Criterion, n: nat, rest: seq<Expr>, p: Packet, regs: Registers) returns (after: Registers)
    requires CriterionExprs(k).Done? && k.value == Figure(n)
    ensures Exec(CriterionExprs(k).value + rest, p, regs) == if Holds(k, p) then Exec(rest, p, after) else None
  {
    hide Exec, NumberData, FromBE, FieldBytes, LoadOf, Present;
    var d := NumberData(n, Width(k.field)).value;
    assert CriterionExprs(k).value + rest == [LoadOf(k.field)] + ([Compare(1, 0, d)] + rest);
    ExecLoad(k.field, [Compare(1, 0, d)] + rest, p, regs);
    after := regs;
    if Present(k.field, p) {
      var field := FieldBytes(k.field, p);
      after := regs[1 := field];
      ComparesNumber(n, field);
      ExecCompare(d, rest, p, after);
    }
  }

  lemma NetExprs(k: Criterion, octets: seq<nat>, prefix: nat, rest: seq<Expr>)
    requires CriterionExprs(k).Done? && k.value == Net(octets, prefix)
    ensures OctetsFit(octets)
    ensures CriterionExprs(k).value + rest
         == [LoadOf(k.field)] + ([Mask(1, 1, 4, MaskBytes(prefix, 4), Zeros(4))] + ([Compare(1, 0, ToBytes(octets))] + rest))
  {
    hide LoadOf, MaskBytes, Zeros, ToBytes;
  }

  lemma NetHolds(k: Criterion, octets: seq<nat>, prefix: nat, p: Packet)
    requires k.value == Net(octets, prefix) && OctetsFit(octets) && |octets| == 4
    ensures !Present(k.field, p) || Width(k.field) != 4 ==> !Holds(k, p)
    ensures Present(k.field, p) && Width(k.field) == 4 ==>
      (Holds(k, p) <==> AndBytes(FieldBytes(k.field, p), MaskBytes(prefix, 4)) == ToBytes(octets))
  {
    hide AndBytes, MaskBytes, FromBE, Clear, FieldBytes, ToBytes, Present;
    if Present(k.field, p) && Width(k.field) == 4 {
      var field := FieldBytes(k.field, p);
      MaskedValue(field, prefix);
      SameValue(AndBytes(field, MaskBytes(prefix, 4)), ToBytes(octets));
    }
  }

  lemma ExecNet(k: Criterion, octets: seq<nat>, prefix: nat, rest: seq<Expr>, p: Packet, regs: Registers)
    returns (after: Registers)
    requires CriterionExprs(k).Done? && k.value == Net(octets, prefix) && |octets| == 4
    ensures Exec(CriterionExprs(k).value + rest, p, regs) == if Holds(k, p) then Exec(rest, p, after) else None
  {
    hide *;
    NetExprs(k, octets, prefix, rest);
    NetHolds(k, octets, prefix, p);
    var addr := ToBytes(octets);
    var mask := Mask(1, 1, 4, MaskBytes(prefix, 4), Zeros(4));
    ExecLoad(k.field, [mask] + ([Compare(1, 0, addr)] + rest), p, regs);
    after := regs;
    if Present(k.field, p) {
      var field := FieldBytes(k.field, p);
      after := regs[1 := field];
      ExecMask(prefix, [Compare(1, 0, addr)] + rest, p, after);
      if Width(k.field) == 4 {
        after := after[1 := AndBytes(field, MaskBytes(prefix, 4))];
        ExecCompare(addr, rest, p, after);
      }
    }
  }

  // ----- the whole list -----

  function AllExprs(ks: seq<Criterion>): Outcome<seq<Expr>> {
    if ks == [] then Done([])
    else
      var first, rest := CriterionExprs(ks[0]), AllExprs(ks[1..]);
      if !first.Done? then first else if !rest.Done? then rest else Done(first.value + rest.value)
  }

  predicate AllHold(ks: seq<Criterion>, p: Packet)
  {
    forall k :: k in ks ==> Holds(k, p)
  }

  lemma {:induction false} ExecAll(ks: seq<Criterion>, rest: seq<Expr>, p: Packet, regs: Registers)
    returns (after: Registers)
    requires AllExprs(ks).Done?
    requires forall k :: k in ks ==> (k.value.Net? ==> |k.value.octets| == 4)
    ensures Exec(AllExprs(ks).value + rest, p, regs) == if AllHold(ks, p) then Exec(rest, p, after) else None
  {
    hide AllExprs, Exec, CriterionExprs, Holds;
    AllExprsFirst(ks);
    if ks == [] {
      after := regs;
      assert [] + rest == rest;
    } else {
      AllHoldFirst(ks, p);
      hide AllHold;
      var first, others := CriterionExprs(ks[0]).value, AllExprs(ks[1..]).value;
      assert first + others + rest == first + (others + rest);
      assert ks[0] in ks && forall k :: k in ks[1..] ==> k in ks;
      var middle := ExecCriterion(ks[0], others + rest, p, regs);
      after := ExecAll(ks[1..], rest, p, middle);
    }
  }

  lemma AllExprsFirst(ks: seq<Criterion>)
    ensures ks == [] ==> AllExprs(ks) == Done([])
    ensures ks != [] && AllExprs(ks).Done? ==>
      && CriterionExprs(ks[0]).Done? && AllExprs(ks[1..]).Done?
      && AllExprs(ks).value == CriterionExprs(ks[0]).value + AllExprs(ks[1..]).value
  {
    hide CriterionExprs;
  }

  lemma AllHoldFirst(ks: seq<Criterion>, p: Packet)
    requires ks != []
    ensures AllHold(ks, p) <==> Holds(ks[0], p) && AllHold(ks[1..], p)
  {
    hide Holds;
    assert forall k :: k in ks <==> k == ks[0] || k in ks[1..];
  }

  function ProtocolExprs(p: Protocol): seq<Expr> {
    [Load(1, NETWORK_HEADER, 9, 1), Compare(1, 0, [ProtocolNumber(p)])]
  }

  /** A verdict in the receiver's terms. */
  function Ruling(v: Verdict): nat {
    if v.Drop? then NF_DROP else NF_ACCEPT
  }

  function RuleExprs(rule: Rule): Outcome<seq<Expr>> {
    var middle := AllExprs(rule.criteria);
    if !middle.Done? then middle
    else Done(ProtocolExprs(rule.protocol) + middle.value + [Decide(0, Ruling(rule.verdict))])
  }

  lemma ExecVerdict(code: nat, p: Packet, regs: Registers)
    ensures Exec([Decide(0, code)], p, regs) == Some(code)
  {
  }

  lemma ExecProtocol(proto: Protocol, rest: seq<Expr>, p: Packet) returns (after: Registers)
    ensures Exec(ProtocolExprs(proto) + rest, p, map[])
         == if |p.network| > 9 && p.network[9] == ProtocolNumber(proto) then Exec(rest, p, after) else None
  {
    var load, cmp := Load(1, NETWORK_HEADER, 9, 1), Compare(1, 0, [ProtocolNumber(proto)]);
    assert ProtocolExprs(proto) + rest == [load] + ([cmp] + rest);
    ExecStep(load, [cmp] + rest, p, map[]);
    after := map[];
    if |p.network| > 9 {
      after := map[1 := p.network[9..10]];
      assert p.network[9..10] == [p.network[9]];
      assert Step(load, p, map[]) == Some(after);
      ExecCompare([ProtocolNumber(proto)], rest, p, after);
    }
    hide Exec;
  }

  /** The expressions of a rule give its verdict exactly on the packets it matches. */
  lemma ExecRule(rule: Rule, p: Packet)
    requires Grammatical(rule) && RuleExprs(rule).Done?
    ensures Exec(RuleExprs(rule).value, p, map[])
         == if Matches(rule, p) then Some(if rule.verdict.Drop? then NF_DROP else NF_ACCEPT) else None
  {
    hide Exec, AllExprs, ProtocolExprs, Holds;
    var middle, last := AllExprs(rule.criteria).value, [Decide(0, Ruling(rule.verdict))];
    var head := ProtocolExprs(rule.protocol);
    assert RuleExprs(rule).value == head + (middle + last);
    var after := ExecProtocol(rule.protocol, middle + last, p);
    var done := ExecAll(rule.criteria, last, p, after);
    ExecVerdict(Ruling(rule.verdict), p, done);
  }

  // ----- the elements of the whole list -----

  ghost predicate AllRead(vs: seq<Value>, es: seq<Expr>) {
    |vs| == |es| && forall i :: 0 <= i < |vs| ==> Reads(vs[i], es[i])
  }

  lemma AllReadSum(vs: seq<Value>, es: seq<Expr>, us: seq<Value>, fs: seq<Expr>)
    requires AllRead(vs, es) && AllRead(us, fs)
    ensures AllRead(vs + us, es + fs)
  {
    hide Reads;
  }

  ghost predicate SomeFails(vs: seq<Value>) {
    exists i :: 0 <= i < |vs| && Fails(vs[i])
  }

  ghost predicate Fails(v: Value) {
    !TreeOf(NFT, v, LIST, None).Done?
  }

  lemma CompareReadsOrFails(text: string)
    ensures GenericBytes(Str(text)).Done? ==> Reads(Cmp(text), Compare(1, 0, GenericBytes(Str(text)).value))
    ensures !GenericBytes(Str(text)).Done? ==> Fails(Cmp(text))
  {
    CompareReads(text);
    hide NFT, TreeOf, LIST, GenericBytes, Cmp, Reads;
  }

  lemma FigureReads(f: Selector, n: nat)
    ensures var k := Criterion(f, Figure(n));
      && (CriterionExprs(k).Done? ==> AllRead(CriterionElements(k).value, CriterionExprs(k).value))
      && (!CriterionExprs(k).Done? ==> SomeFails(CriterionElements(k).value))
  {
    hide Reads, Fails, GenericBytes, Cmp, Payload, NumberDigits;
    LoadReads(Base(f), Offset(f), Width(f));
    var text := "0x" + NumberDigits(n, Width(f));
    CompareReadsOrFails(text);
    var load := Payload(Base(f), Offset(f), Width(f));
    assert CriterionElements(Criterion(f, Figure(n))).value == [load, Cmp(text)];
    if !GenericBytes(Str(text)).Done? { assert Fails([load, Cmp(text)][1]); }
  }

  lemma NetReads(f: Selector, octets: seq<nat>, prefix: nat)
    requires |octets| == 4 && OctetsFit(octets)
    ensures var k := Criterion(f, Net(octets, prefix));
      AllRead(CriterionElements(k).value, CriterionExprs(k).value)
  {
    hide Reads, GenericBytes, Cmp, Payload, HexText, MaskBytes, Bitwise, ToBytes, Zeros;
    LoadReads(Base(f), Offset(f), Width(f));
    MaskReads(MaskBytes(prefix, 4));
    GenericOfHexText(ToBytes(octets));
    CompareReads("0x" + HexText(ToBytes(octets)));
  }

  /** The elements of a criterion decode to its expressions; where those are not defined, some element has no tree. */
  lemma CriterionReads(k: Criterion)
    requires k.value.Net? ==> |k.value.octets| == 4
    ensures CriterionExprs(k).Done? ==>
      CriterionElements(k).Done? && AllRead(CriterionElements(k).value, CriterionExprs(k).value)
    ensures !CriterionExprs(k).Done? && CriterionElements(k).Done? ==> SomeFails(CriterionElements(k).value)
  {
    hide AllRead, SomeFails;
    match k.value
    case Figure(n) => FigureReads(k.field, n);
    case Net(octets, prefix) => if OctetsFit(octets) { NetReads(k.field, octets, prefix); }
  }

  lemma {:induction false} CriteriaRead(ks: seq<Criterion>)
    requires forall k :: k in ks ==> (k.value.Net? ==> |k.value.octets| == 4)
    ensures AllExprs(ks).Done? ==>
      CriteriaElements(ks).Done? && AllRead(CriteriaElements(ks).value, AllExprs(ks).value)
    ensures !AllExprs(ks).Done? && CriteriaElements(ks).Done? ==> SomeFails(CriteriaElements(ks).value)
  {
    if ks != [] {
      assert ks[0] in ks && forall k :: k in ks[1..] ==> k in ks;
      CriterionReads(ks[0]);
      CriteriaRead(ks[1..]);
      hide AllRead, SomeFails, CriterionExprs, CriterionElements;
      var first, rest := CriterionElements(ks[0]), CriteriaElements(ks[1..]);
      if AllExprs(ks).Done? {
        AllReadSum(first.value, CriterionExprs(ks[0]).value, rest.value, AllExprs(ks[1..]).value);
      } else if first.Done? && rest.Done? {
        SomeFailsSum(first.value, rest.value);
      }
    }
  }

  lemma SomeFailsSum(vs: seq<Value>, us: seq<Value>)
    ensures SomeFails(vs) || SomeFails(us) ==> SomeFails(vs + us)
  {
    hide Fails;
    if SomeFails(vs) {
      var i :| 0 <= i < |vs| && Fails(vs[i]);
      assert Fails((vs + us)[i]);
    } else if SomeFails(us) {
      var i :| 0 <= i < |us| && Fails(us[i]);
      assert Fails((vs + us)[|vs| + i]);
    }
  }

  /** The elements of a rule, in order. */
  function RuleElements(rule: Rule): Outcome<seq<Value>> {
    match CriteriaElements(rule.criteria)
    case Throws => Throws
    case Unmodelled => Unmodelled
    case Done(middle) => Done(ProtocolElements(rule.protocol) + middle + [Immediate(rule.verdict)])
  }

  lemma ProtocolReads(p: Protocol)
    ensures AllRead(ProtocolElements(p), ProtocolExprs(p))
  {
    hide Reads, GenericBytes, Cmp, Payload, ProtocolText, ProtocolNumber;
    LoadReads(NETWORK_HEADER, 9, 1);
    ProtocolBytes(p);
    CompareReads(ProtocolText(p));
  }

  lemma ProtocolBytes(p: Protocol)
    ensures GenericBytes(Str(ProtocolText(p))) == Done([ProtocolNumber(p)])
  {
    var b: Byte := ProtocolNumber(p);
    assert "0x" + HexText([b]) == ProtocolText(p) by {
      assert HexText([]) == "" && [b][..0] == [];
    }
    GenericOfHexText([b]);
    hide GenericBytes;
  }

  lemma RuleReads(rule: Rule)
    requires Grammatical(rule)
    ensures RuleExprs(rule).Done? ==>
      RuleElements(rule).Done? && AllRead(RuleElements(rule).value, RuleExprs(rule).value)
    ensures !RuleExprs(rule).Done? && RuleElements(rule).Done? ==> SomeFails(RuleElements(rule).value)
  {
    hide Reads, Fails, AllExprs, CriteriaElements, ProtocolElements, ProtocolExprs, Immediate;
    CriteriaRead(rule.criteria);
    ProtocolReads(rule.protocol);
    DecideReads(rule.verdict);
    var head, last := ProtocolElements(rule.protocol), [Immediate(rule.verdict)];
    var es := [Decide(0, Ruling(rule.verdict))];
    assert AllRead(last, es);
    hide AllRead, SomeFails;
    if RuleExprs(rule).Done? {
      var middle, exprs := CriteriaElements(rule.criteria).value, AllExprs(rule.criteria).value;
      AllReadSum(head, ProtocolExprs(rule.protocol), middle, exprs);
      AllReadSum(head + middle, ProtocolExprs(rule.protocol) + exprs, last, es);
    } else if CriteriaElements(rule.criteria).Done? {
      SomeFailsSum(head, CriteriaElements(rule.criteria).value);
      SomeFailsSum(head + CriteriaElements(rule.criteria).value, last);
    }
  }

  // ----- the message -----

  /** The bytes that expressions take as a list. */
  function ListSize(es: seq<Expr>): nat {
    if es == [] then 0 else ExprSize(es[0]) + ListSize(es[1..])
  }

  lemma {:induction false} ListSizeSum(es: seq<Expr>, fs: seq<Expr>)
    ensures ListSize(es + fs) == ListSize(es) + ListSize(fs)
  {
    hide ExprSize;
    if es == [] {
      assert es + fs == fs;
    } else {
      ListSizeSum(es[1..], fs);
      assert (es + fs)[1..] == es[1..] + fs;
    }
  }

  /** Elements that decode one by one make a list that decodes, of just their size. */
  lemma {:induction false} ElementsRead(vs: seq<Value>, es: seq<Expr>, from: nat) returns (ts: seq<Tlv>)
    requires AllRead(vs, es)
    ensures TreeOfElements(NFT, Indexed(vs, from), "list") == Done(ts)
    ensures DecodeAll(ts) == Some(es) && |PrintAll(ts)| == ListSize(es)
  {
    hide NFT, TreeOf, DecodeElement, LIST, Print, ExprSize;
    if vs == [] {
      ts := [];
    } else {
      assert Reads(vs[0], es[0]);
      var t :| ReadsAs(vs[0], es[0], t);
      AllReadRest(vs, es);
      var rest := ElementsRead(vs[1..], es[1..], from + 1);
      ts := [t] + rest;
      FirstElement(vs, from, t, rest);
      assert ts[1..] == rest && es == [es[0]] + es[1..];
      PrintAllFirst(ts);
    }
  }

  lemma AllReadRest(vs: seq<Value>, es: seq<Expr>)
    requires AllRead(vs, es) && vs != []
    ensures AllRead(vs[1..], es[1..])
  {
    hide Reads;
  }

  lemma IndexedFirst(vs: seq<Value>, from: nat)
    requires vs != []
    ensures Indexed(vs, from)[0].value == vs[0] && Indexed(vs, from)[1..] == Indexed(vs[1..], from + 1)
  {
    hide Numeral;
  }

  lemma FirstElement(vs: seq<Value>, from: nat, t: Tlv, rest: seq<Tlv>)
    requires vs != [] && TreeOf(NFT, vs[0], LIST, None) == Done([t])
    requires TreeOfElements(NFT, Indexed(vs[1..], from + 1), "list") == Done(rest)
    ensures TreeOfElements(NFT, Indexed(vs, from), "list") == Done([t] + rest)
  {
    IndexedFirst(vs, from);
    Lookups();
    hide NFT, TreeOf, LIST, Indexed;
  }

  lemma {:induction false} ElementsFail(vs: seq<Value>, from: nat, i: nat)
    requires i < |vs| && Fails(vs[i])
    ensures !TreeOfElements(NFT, Indexed(vs, from), "list").Done?
  {
    IndexedFirst(vs, from);
    Lookups();
    hide NFT, TreeOf, LIST, Indexed;
    if i > 0 { ElementsFail(vs[1..], from + 1, i - 1); }
  }

  /** The trees of a rule message: its expressions, its table and its chain. */
  lemma MessageTrees(rule: Rule, vs: seq<Value>)
    requires Grammatical(rule) && RuleElements(rule) == Done(vs)
    ensures var elements := TreeOfElements(NFT, Indexed(vs, 0), "list");
      var message := Message(NFT, "rule", Params(rule).value);
      && Params(rule).Done?
      && (elements.Done? && HEADER + |PrintAll(elements.value)| < TWO_TO_THE_16 ==>
          message == Done([Nest(4, elements.value), Leaf(1, Ascii(rule.table) + [0]), Leaf(2, Ascii(rule.chain) + [0])]))
      && (elements.Done? && HEADER + |PrintAll(elements.value)| >= TWO_TO_THE_16 ==> message.Throws?)
      && (!elements.Done? ==> !message.Done?)
  {
    hide *;
    RuleSpecs();
    ParamsAre(rule, vs);
    var list := Obj(Indexed(vs, 0));
    var fields := [Field("expressions", list), Field("table", Str(rule.table)), Field("chain", Str(rule.chain))];
    MessageIs(fields);
    TextField(RULE, None, "table", 1, rule.table);
    TextField(RULE, None, "chain", 2, rule.chain);
    ListField(vs);
    var elements := TreeOfElements(NFT, Indexed(vs, 0), "list");
    RuleFields(fields, elements, Leaf(1, Ascii(rule.table) + [0]), Leaf(2, Ascii(rule.chain) + [0]));
  }

  lemma ParamsAre(rule: Rule, vs: seq<Value>)
    requires Grammatical(rule) && RuleElements(rule) == Done(vs)
    ensures IsAscii(rule.table) && IsAscii(rule.chain)
    ensures Params(rule) == Done(Obj([Field("expressions", Obj(Indexed(vs, 0))), Field("table", Str(rule.table)),
                                      Field("chain", Str(rule.chain))]))
  {
    hide CriteriaElements, ProtocolElements, Immediate, Indexed;
  }

  lemma MessageIs(fields: seq<Field>)
    ensures Message(NFT, "rule", Obj(fields)) == TreeOfFields(NFT, fields, RULE, None)
  {
    Lookups();
    hide NFT, TreeOfFields, RULE;
  }

  lemma ListField(vs: seq<Value>)
    ensures TreeOfField(NFT, Field("expressions", Obj(Indexed(vs, 0))), RULE, None)
         == Nesting(4, TreeOfElements(NFT, Indexed(vs, 0), "list"))
  {
    RuleSpecs();
    hide SpecOf, NFT, RULE, Indexed, TreeOfElements, Nesting;
  }

  lemma RuleFields(fields: seq<Field>, elements: Outcome<seq<Tlv>>, a: Tlv, b: Tlv)
    requires |fields| == 3
    requires TreeOfField(NFT, fields[0], RULE, None) == Nesting(4, elements)
    requires TreeOfField(NFT, fields[1], RULE, None) == Done(a) && TreeOfField(NFT, fields[2], RULE, None) == Done(b)
    ensures var message := TreeOfFields(NFT, fields, RULE, None);
      && (elements.Done? && HEADER + |PrintAll(elements.value)| < TWO_TO_THE_16 ==>
          message == Done([Nest(4, elements.value), a, b]))
      && (elements.Done? && HEADER + |PrintAll(elements.value)| >= TWO_TO_THE_16 ==> message.Throws?)
      && (!elements.Done? ==> !message.Done?)
  {
    hide TreeOfField, NFT, RULE, PrintAll;
    if elements.Done? && HEADER + |PrintAll(elements.value)| < TWO_TO_THE_16 {
      FieldByField(fields, RULE, None, [Nest(4, elements.value), a, b]);
    }
  }

  lemma Outside4(items: seq<Tlv>, a: Tlv, b: Tlv)
    ensures Items(Find([Nest(4, items), a, b], 4)) == items
  {
  }

  /**
    Whenever a rule of the grammar compiles to a message at all, running the message on a packet gives the
    rule's verdict if the packet matches the rule, and none otherwise.
   */
  lemma CompilationPreservesMeaning(rule: Rule, p: Packet)
    requires Grammatical(rule)
    requires Params(rule).Done? && Message(NFT, "rule", Params(rule).value).Done?
    ensures RunRule(Message(NFT, "rule", Params(rule).value).value, p)
         == if Matches(rule, p) then Some(if rule.verdict.Drop? then NF_DROP else NF_ACCEPT) else None
  {
    assert RuleElements(rule).Done? by { hide CriteriaElements, ProtocolElements, Immediate, Indexed; }
    hide *;
    var vs := RuleElements(rule).value;
    RuleReads(rule);
    MessageTrees(rule, vs);
    if RuleExprs(rule).Done? {
      var es := RuleExprs(rule).value;
      var ts := ElementsRead(vs, es, 0);
      Outside4(ts, Leaf(1, Ascii(rule.table) + [0]), Leaf(2, Ascii(rule.chain) + [0]));
      ExecRule(rule, p);
      RunIs(Message(NFT, "rule", Params(rule).value).value, p, ts, es);
    } else {
      NoMessage(vs);
      assert false;
    }
  }

  lemma RunIs(message: seq<Tlv>, p: Packet, ts: seq<Tlv>, es: seq<Expr>)
    requires Items(Find(message, 4)) == ts && DecodeAll(ts) == Some(es)
    ensures RunRule(message, p) == Exec(es, p, map[])
  {
    hide Exec, DecodeAll, Find, Items;
  }

  lemma NoMessage(vs: seq<Value>)
    requires SomeFails(vs)
    ensures !TreeOfElements(NFT, Indexed(vs, 0), "list").Done?
  {
    hide Fails, NFT, TreeOfElements, Indexed;
    var i :| 0 <= i < |vs| && Fails(vs[i]);
    ElementsFail(vs, 0, i);
  }

  // ----- which rules compile, and which can match -----

  predicate InRange(k: Criterion) {
    match k.value
    case Figure(n) => n < Pow256(Width(k.field))
    case Net(octets, _) => OctetsFit(octets)
  }

  /** A criterion whose value has bytes: a number of 2, 4 or 8 digits after padding, octets that fit a byte. */
  predicate HasBytes(k: Criterion) {
    match k.value
    case Figure(n) => |NumberDigits(n, Width(k.field))| in {2, 4, 8}
    case Net(octets, _) => OctetsFit(octets)
  }

  lemma InRangeHasBytes(k: Criterion)
    ensures InRange(k) ==> HasBytes(k)
  {
    if k.value.Figure? { DigitsOf(k.value.n, Width(k.field)); }
    hide NumberDigits, Pow256;
  }

  /** The bytes a criterion takes in the list of expressions: load and comparison, and a mask for an address. */
  function CriterionSize(k: Criterion): nat {
    if k.value.Figure? then 96 else 164
  }

  function CriteriaSize(ks: seq<Criterion>): nat {
    if ks == [] then 0 else CriterionSize(ks[0]) + CriteriaSize(ks[1..])
  }

  /** The length of the expression list of a rule: protocol test, criteria, verdict. */
  function RuleSize(rule: Rule): nat {
    96 + CriteriaSize(rule.criteria) + 48
  }

  lemma FigureBytes(n: nat, len: nat)
    requires len == 1 || len == 2 || len == 4
    ensures NumberData(n, len).Done? <==> |NumberDigits(n, len)| in {2, 4, 8}
    ensures NumberData(n, len).Done? ==> |NumberData(n, len).value| in {1, 2, 4}
  {
    hide NumberDigits, GenericBytes, ValueOf, AllDigits, Pow256, BE;
    DigitsOf(n, len);
    GenericHex(NumberDigits(n, len));
    FewDigits(n, len);
  }

  lemma FewDigits(n: nat, len: nat)
    ensures |NumberDigits(n, len)| <= 8 ==> n < TWO_TO_THE_53
  {
    NumeralLength(n, 8);
    assert Pow16(4) == 0x1_0000 && Pow16(8) == 0x1_0000_0000;
    hide Numeral;
  }

  lemma CriterionExprsExactly(k: Criterion)
    requires k.value.Net? ==> |k.value.octets| == 4
    ensures CriterionExprs(k).Done? <==> HasBytes(k)
    ensures CriterionExprs(k).Done? ==> ListSize(CriterionExprs(k).value) == CriterionSize(k)
  {
    hide NumberData, MaskBytes, Zeros, ToBytes, NumberDigits, LoadOf, OctetsFit;
    LoadSizes(k.field);
    match k.value
    case Figure(n) =>
      FigureBytes(n, Width(k.field));
      if NumberData(n, Width(k.field)).Done? { TwoExprs(LoadOf(k.field), NumberData(n, Width(k.field)).value); }
    case Net(octets, prefix) =>
      if OctetsFit(octets) { ThreeExprs(LoadOf(k.field), MaskBytes(prefix, 4), ToBytes(octets)); }
  }

  lemma LoadSizes(f: Selector)
    ensures LoadOf(f).Load? && Width(f) in {1, 2, 4}
  {
  }

  lemma TwoExprs(load: Expr, d: seq<Byte>)
    requires load.Load? && |d| in {1, 2, 4}
    ensures ListSize([load, Compare(1, 0, d)]) == 96
  {
    var c := Compare(1, 0, d);
    assert [load, c] == [load] + [c] && [load, c][1..] == [c] && [c][1..] == [];
    assert ExprSize(c) == 44 && ListSize([c]) == 44;
  }

  lemma OneSize(e: Expr)
    ensures ListSize([e]) == ExprSize(e)
  {
    assert [e][1..] == [];
    hide ExprSize;
  }

  lemma ThreeExprs(load: Expr, mask: seq<Byte>, d: seq<Byte>)
    requires load.Load? && |d| == 4
    ensures ListSize([load, Mask(1, 1, 4, mask, Zeros(4)), Compare(1, 0, d)]) == 164
  {
    var m, c := Mask(1, 1, 4, mask, Zeros(4)), Compare(1, 0, d);
    assert ExprSize(load) == 52 && ExprSize(m) == 68 && ExprSize(c) == 44;
    OneSize(load);
    OneSize(m);
    OneSize(c);
    hide Zeros, ListSize, ExprSize;
    ListSizeSum([load], [m, c]);
    ListSizeSum([m], [c]);
    assert [load] + [m, c] == [load, m, c] && [m] + [c] == [m, c];
  }

  lemma {:induction false} AllExprsExactly(ks: seq<Criterion>)
    requires forall k :: k in ks ==> (k.value.Net? ==> |k.value.octets| == 4)
    ensures AllExprs(ks).Done? <==> forall k :: k in ks ==> HasBytes(k)
    ensures AllExprs(ks).Done? ==> ListSize(AllExprs(ks).value) == CriteriaSize(ks)
  {
    if ks != [] {
      hide HasBytes, CriterionExprs, CriterionSize, ListSize;
      assert ks[0] in ks && forall k :: k in ks[1..] ==> k in ks;
      assert forall k :: k in ks <==> k == ks[0] || k in ks[1..];
      CriterionExprsExactly(ks[0]);
      AllExprsExactly(ks[1..]);
      if AllExprs(ks).Done? { ListSizeSum(CriterionExprs(ks[0]).value, AllExprs(ks[1..]).value); }
    } else {
      assert ListSize([]) == 0;
    }
  }

  lemma RuleExprsExactly(rule: Rule)
    requires Grammatical(rule)
    ensures RuleExprs(rule).Done? <==> forall k :: k in rule.criteria ==> HasBytes(k)
    ensures RuleExprs(rule).Done? ==> ListSize(RuleExprs(rule).value) == RuleSize(rule)
  {
    hide HasBytes, AllExprs, ListSize, CriteriaSize;
    AllExprsExactly(rule.criteria);
    if RuleExprs(rule).Done? {
      var middle, last := AllExprs(rule.criteria).value, [Decide(0, Ruling(rule.verdict))];
      ListSizeSum(ProtocolExprs(rule.protocol) + middle, last);
      ListSizeSum(ProtocolExprs(rule.protocol), middle);
      TwoExprs(Load(1, NETWORK_HEADER, 9, 1), [ProtocolNumber(rule.protocol)]);
      OneExpr(Ruling(rule.verdict));
    }
  }

  lemma OneExpr(code: nat)
    ensures ListSize([Decide(0, code)]) == 48
  {
    assert [Decide(0, code)][1..] == [];
  }

  /** The actions give parameters, and these a message of determined bytes. */
  predicate Compiles(rule: Rule) {
    Params(rule).Done? && Message(NFT, "rule", Params(rule).value).Done?
  }

  /**
    The message of a rule has determined bytes exactly when every value in it has and the list of its
    expressions, of a length that its criteria alone decide, fits the 16 bits of its length field. A number of
    another digit count does not stop the code: it sends what its buffer happened to hold.
   */
  lemma CompilesExactly(rule: Rule)
    requires Grammatical(rule)
    ensures Compiles(rule) <==> (forall k :: k in rule.criteria ==> HasBytes(k)) && HEADER + RuleSize(rule) < TWO_TO_THE_16
  {
    hide *;
    CompilesIs(rule);
    RuleExprsExactly(rule);
    RuleReads(rule);
    ParamsElements(rule);
    if RuleElements(rule).Done? {
      var vs := RuleElements(rule).value;
      MessageTrees(rule, vs);
      if RuleExprs(rule).Done? {
        var ts := ElementsRead(vs, RuleExprs(rule).value, 0);
      } else {
        NoMessage(vs);
      }
    }
  }

  lemma CompilesIs(rule: Rule)
    ensures Compiles(rule) <==> Params(rule).Done? && Message(NFT, "rule", Params(rule).value).Done?
  {
    hide Params, Message, NFT;
  }

  lemma ParamsElements(rule: Rule)
    ensures Params(rule).Done? <==> RuleElements(rule).Done?
  {
    hide CriteriaElements, ProtocolElements, Immediate, Indexed;
  }

  /** With numbers that fit their field and octets that fit a byte, the length decides; too long a list throws. */
  lemma InRangeCompiles(rule: Rule)
    requires Grammatical(rule) && forall k :: k in rule.criteria ==> InRange(k)
    ensures Params(rule).Done?
    ensures HEADER + RuleSize(rule) < TWO_TO_THE_16 ==> Message(NFT, "rule", Params(rule).value).Done?
    ensures HEADER + RuleSize(rule) >= TWO_TO_THE_16 ==> Message(NFT, "rule", Params(rule).value).Throws?
  {
    hide *;
    forall k | k in rule.criteria ensures HasBytes(k) { InRangeHasBytes(k); }
    RuleExprsExactly(rule);
    RuleReads(rule);
    var vs := RuleElements(rule).value;
    var ts := ElementsRead(vs, RuleExprs(rule).value, 0);
    MessageTrees(rule, vs);
  }

  lemma {:induction false} ClearTwice(n: nat, j: nat)
    ensures Clear(Clear(n, j), j) == Clear(n, j)
  {
    if j > 0 { ClearTwice(n / 2, j - 1); }
  }

  /**
    An address with bits set behind its prefix: the criterion holds for no packet. It can hold for some packet
    exactly when the address is the first of its block.
   */
  lemma NetCanMatch(f: Selector, octets: seq<nat>, prefix: nat)
    requires Width(f) == 4 && |octets| == 4 && OctetsFit(octets)
    ensures (exists p: Packet :: Holds(Criterion(f, Net(octets, prefix)), p))
      <==> Clear(FromBE(ToBytes(octets)), if prefix < 32 then 32 - prefix else 0) == FromBE(ToBytes(octets))
  {
    var k := Criterion(f, Net(octets, prefix));
    var addr, j := ToBytes(octets), if prefix < 32 then 32 - prefix else 0;
    hide Clear, FromBE, ToBytes, OctetsFit;
    forall p: Packet | Holds(k, p)
      ensures Clear(FromBE(addr), j) == FromBE(addr)
    {
      ClearTwice(FromBE(FieldBytes(f, p)), j);
    }
    var p := Packet(Zeros(12) + addr + addr, Zeros(4));
    assert p.network[12..16] == addr && p.network[16..20] == addr;
    assert Present(f, p) && FieldBytes(f, p) == addr;
    if Clear(FromBE(addr), j) == FromBE(addr) { assert Holds(k, p); }
  }
}
