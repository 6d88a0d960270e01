/**
  What the expressions of a rule message mean to the packet filter that receives them: each list
  element is read back from its attributes and run on registers.
 */
module NfVm {
  import opened Bytes
  import opened Options
  import opened TlvTree
  import opened Words

  datatype Packet = Packet(network: seq<Byte>, transport: seq<Byte>)

  datatype Expr =
    | Load(dreg: nat, base: nat, offset: nat, len: nat)
    | Mask(sreg: nat, dreg: nat, len: nat, mask: seq<Byte>, xor: seq<Byte>)
    | Compare(sreg: nat, op: nat, data: seq<Byte>)
    | Decide(dreg: nat, code: nat)

  type Registers = map<nat, seq<Byte>>

  /** What a packet filter does with a packet: NF_DROP throws it away, NF_ACCEPT lets it pass. */
  const NF_DROP: nat := 0
  const NF_ACCEPT: nat := 1

  const VERDICT_REGISTER: nat := 0
  const CMP_EQ: nat := 0

  // ----- reading an expression -----

  /** The first attribute of a type. */
  function Find(items: seq<Tlv>, typ: nat): Option<Tlv> {
    if items == [] then None else if items[0].typ == typ then Some(items[0]) else Find(items[1..], typ)
  }

  function Items(t: Option<Tlv>): seq<Tlv> {
    if t.Some? && t.value.Nest? then t.value.items else []
  }

  function Data(t: Option<Tlv>): seq<Byte> {
    if t.Some? && t.value.Leaf? then t.value.data else []
  }

  function U32(items: seq<Tlv>, typ: nat): nat {
    FromBE(Data(Find(items, typ)))
  }

  /** NFTA_DATA_VALUE inside the nest of a type */
  function DataValue(items: seq<Tlv>, typ: nat): seq<Byte> {
    Data(Find(Items(Find(items, typ)), 1))
  }

  /** An expression by its name and its attributes. */
  function Decode(name: seq<Byte>, items: seq<Tlv>): Option<Expr> {
    if name == PAYLOAD_NAME then Some(Load(U32(items, 1), U32(items, 2), U32(items, 3), U32(items, 4)))
    else if name == CMP_NAME then Some(Compare(U32(items, 1), U32(items, 2), DataValue(items, 3)))
    else if name == BITWISE_NAME then
      Some(Mask(U32(items, 1), U32(items, 2), U32(items, 3), DataValue(items, 4), DataValue(items, 5)))
    else if name == IMMEDIATE_NAME then Some(Decide(U32(items, 1), U32(Items(Find(Items(Find(items, 2)), 2)), 1)))
    else None
  }

  const PAYLOAD_NAME: seq<Byte> := [112, 97, 121, 108, 111, 97, 100, 0]
  const CMP_NAME: seq<Byte> := [99, 109, 112, 0]
  const BITWISE_NAME: seq<Byte> := [98, 105, 116, 119, 105, 115, 101, 0]
  const IMMEDIATE_NAME: seq<Byte> := [105, 109, 109, 101, 100, 105, 97, 116, 101, 0]

  function DecodeElement(t: Tlv): Option<Expr> {
    var parts := Items(Some(t));
    Decode(Data(Find(parts, 1)), Items(Find(parts, 2)))
  }

  // ----- running -----

  function AndBytes(a: seq<Byte>, b: seq<Byte>): (r: seq<Byte>)
    requires |a| == |b|
    ensures |r| == |a|
  {
    if a == [] then [] else [And(a[0], b[0])] + AndBytes(a[1..], b[1..])
  }

  function XorByte(a: Byte, b: Byte): Byte {
    Xor(a, b) % 256
  }

  function XorBytes(a: seq<Byte>, b: seq<Byte>): (r: seq<Byte>)
    requires |a| == |b|
    ensures |r| == |a|
  {
    if a == [] then [] else [XorByte(a[0], b[0])] + XorBytes(a[1..], b[1..])
  }

  function HeaderOf(p: Packet, base: nat): seq<Byte> {
    if base == 1 then p.network else if base == 2 then p.transport else []
  }

  /** The registers after an expression; None when the rule does not apply to the packet. */
  function Step(e: Expr, p: Packet, regs: Registers): Option<Registers>
    requires !e.Decide?
  {
    match e
    case Load(dreg, base, offset, len) =>
      var h := HeaderOf(p, base);
      if offset + len <= |h| then Some(regs[dreg := h[offset..offset + len]]) else None
    case Mask(sreg, dreg, len, mask, xor) =>
      if sreg in regs && |regs[sreg]| == len == |mask| == |xor|
      then Some(regs[dreg := XorBytes(AndBytes(regs[sreg], mask), xor)])
      else None
    case Compare(sreg, op, data) => if sreg in regs && op == CMP_EQ && regs[sreg] == data then Some(regs) else None
  }

  /** The verdict of the expressions from some registers on; None when the packet falls through. */
  function Exec(exprs: seq<Expr>, p: Packet, regs: Registers): Option<nat> {
    if exprs == [] then None
    else if exprs[0].Decide? then
      if exprs[0].dreg == VERDICT_REGISTER then Some(exprs[0].code) else Exec(exprs[1..], p, regs)
    else
      match Step(exprs[0], p, regs)
      case None => None
      case Some(after) => Exec(exprs[1..], p, after)
  }

  function DecodeAll(elements: seq<Tlv>): Option<seq<Expr>> {
    if elements == [] then Some([])
    else
      var first, rest := DecodeElement(elements[0]), DecodeAll(elements[1..]);
      if first.None? || rest.None? then None else Some([first.value] + rest.value)
  }

  /** The verdict of a rule message: its expressions are the contents of attribute 4. */
  function RunRule(message: seq<Tlv>, p: Packet): Option<nat> {
    match DecodeAll(Items(Find(message, 4)))
    case None => None
    case Some(exprs) => Exec(exprs, p, map[])
  }

  // ----- masks as arithmetic -----

  /** n with its low j bits cleared. */
  function Clear(n: nat, j: nat): nat {
    if j == 0 then n else 2 * Clear(n / 2, j - 1)
  }

  /** Clearing j bits leaves the first number of the block of 2^j that n lies in. */
  lemma {:induction false} ClearIsBlock(n: nat, j: nat) returns (q: nat)
    ensures Clear(n, j) == q * Pow2(j) && q * Pow2(j) <= n < (q + 1) * Pow2(j)
  {
    if j == 0 {
      q := n;
    } else {
      q := ClearIsBlock(n / 2, j - 1);
      Twice(q, Pow2(j - 1));
      Twice(q + 1, Pow2(j - 1));
    }
  }

  lemma Twice(q: nat, p: nat)
    ensures q * (2 * p) == 2 * (q * p)
  {
  }

  lemma {:induction false} ClearMany(n: nat, w: nat, r: nat, j: nat)
    requires r < Pow2(w)
    ensures j <= w ==> Clear(n * Pow2(w) + r, j) == n * Pow2(w) + Clear(r, j)
    ensures j >= w ==> Clear(n * Pow2(w) + r, j) == Clear(n, j - w) * Pow2(w)
  {
    if w == 0 {
      assert n * Pow2(0) == n;
      assert Clear(n, j) * Pow2(0) == Clear(n, j);
    } else if j > 0 {
      var h := Pow2(w - 1);
      Twice(n, h);
      assert (n * Pow2(w) + r) / 2 == n * h + r / 2;
      ClearMany(n, w - 1, r / 2, j - 1);
      if j >= w { Twice(Clear(n, j - w), h); }
    }
  }

  /** A mask of high ones clears the low bits. */
  lemma {:induction false} AndHighOnes(b: nat, n: nat, j: nat)
    requires j <= n && b < Pow2(n)
    ensures Pow2(j) <= Pow2(n) && And(b, Pow2(n) - Pow2(j)) == Clear(b, j)
  {
    Pow2Monotone(j, n);
    if n > 0 {
      var i := if j == 0 then 0 else j - 1;
      AndHighOnes(b / 2, n - 1, i);
      HalfMask(n, j);
      AndHalves(b, Pow2(n) - Pow2(j));
      hide And, Pow2;
      if j == 0 { assert Clear(b / 2, 0) == b / 2; } else { ClearZero(j - 1); }
    }
  }

  lemma HalfMask(n: nat, j: nat)
    requires 0 < n && j <= n
    ensures var i := if j == 0 then 0 else j - 1;
      Pow2(j) <= Pow2(n) && Pow2(i) <= Pow2(n - 1)
      && (Pow2(n) - Pow2(j)) / 2 == Pow2(n - 1) - Pow2(i)
      && (Pow2(n) - Pow2(j)) % 2 == if j == 0 then 1 else 0
  {
    Pow2Monotone(j, n);
    Pow2Monotone(if j == 0 then 0 else j - 1, n - 1);
  }

  lemma AndHalves(a: nat, b: nat)
    ensures And(a, b) == 2 * And(a / 2, b / 2) + if a % 2 == 1 && b % 2 == 1 then 1 else 0
  {
  }

  lemma {:induction false} ClearZero(j: nat)
    ensures Clear(0, j) == 0
  {
    if j > 0 { ClearZero(j - 1); }
  }
}
