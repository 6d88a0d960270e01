/**
  One attribute of an nftables message: the kinds a specification table can give it, the bytes of its
  payload, and the object that holds its buffer.
 */
module NfAttr {
  import opened Bytes
  import opened Numerals
  import opened Options
  import opened TlvTree

  /** A parameter object, its keys in the order Object.keys lists them; an array has its indices as keys. */
  datatype Value = Null | Num(n: nat) | Str(s: string) | Obj(fields: seq<Field>)

  datatype Field = Field(key: string, value: Value)

  /** The specification strings: s, n/bits, g, r/nft_x_attributes, l/nft_x_attributes, e; anything else is Unknown. */
  datatype Spec = Text | Number(bits: nat) | Generic | Nested(of: string) | List(of: string) | Expression | Unknown

  /** An nft_x_attributes table: what NFTA_X_KEY is for each KEY, and the array NFTA_X_SPEC when there is one. */
  datatype CommandObject = CommandObject(numbers: map<string, nat>, specs: Option<seq<Spec>>)

  /** A result, an exception, or an input whose outcome this model leaves open. */
  datatype Outcome<+T> = Done(value: T) | Throws | Unmodelled

  /** The largest range in which the numbers of JavaScript are exact. */
  const TWO_TO_THE_53: nat := 0x20_0000_0000_0000

  function UpperChar(c: char): char {
    if 'a' <= c <= 'z' then 'A' + (c - 'a') else c
  }

  function Upper(s: string): (r: string)
    ensures |r| == |s| && forall i :: 0 <= i < |s| ==> r[i] == UpperChar(s[i])
  {
    if s == [] then [] else [UpperChar(s[0])] + Upper(s[1..])
  }

  /** getSpec: None where it throws. */
  function SpecOf(attrs: CommandObject, key: string): Option<(nat, Spec)> {
    var name := Upper(key);
    if attrs.specs.None? || name !in attrs.numbers || attrs.numbers[name] >= |attrs.specs.value| then None
    else Some((attrs.numbers[name], attrs.specs.value[attrs.numbers[name]]))
  }

  /** Attribute numbers leave the two flag bits of the type field alone. */
  predicate NumbersFit(attrs: CommandObject) {
    forall name :: name in attrs.numbers ==> attrs.numbers[name] < NLA_F_NESTED
  }

  // ----- payloads -----

  predicate IsAscii(s: string) {
    forall c :: c in s ==> c < 128 as char
  }

  function Ascii(s: string): (bs: seq<Byte>)
    requires IsAscii(s)
    ensures |bs| == |s| && forall i :: 0 <= i < |s| ==> bs[i] == s[i] as nat
  {
    if s == [] then []
    else
      assert s[0] in s && forall c :: c in s[1..] ==> c in s;
      var b: Byte := s[0] as nat;
      [b] + Ascii(s[1..])
  }

  /** getStringBuffer: the text and a zero byte. */
  function TextBytes(v: Value): Outcome<seq<Byte>> {
    match v
    case Str(s) => if IsAscii(s) then Done(Ascii(s) + [0]) else Unmodelled
    case _ => Unmodelled
  }

  /** getNumberBuffer: big-endian, the high bytes cut off (the third argument of the write turns its check off). */
  function NumberBytes(bits: nat, v: Value): Outcome<seq<Byte>> {
    if bits !in [8, 16, 32] then Unmodelled
    else match v
    case Num(n) => if n < TWO_TO_THE_53 then Done(BE(n, bits / 8)) else Unmodelled
    case Str(s) =>
      if s != [] && AllDigits(s, 10) && ValueOf(s, 10) < TWO_TO_THE_53 then Done(BE(ValueOf(s, 10), bits / 8))
      else Unmodelled
    case Null => Throws
    case Obj(_) => Unmodelled
  }

  function IndexOf(s: string, c: char): (i: Option<nat>)
    ensures i.Some? ==> i.value < |s| && s[i.value] == c && c !in s[..i.value]
    ensures i.None? ==> c !in s
  {
    if s == [] then None
    else if s[0] == c then Some(0)
    else match IndexOf(s[1..], c) case None => None case Some(i) => assert s[..i + 1] == [s[0]] + s[1..][..i]; Some(i + 1)
  }

  predicate Writable(nibbles: nat) {
    nibbles == 2 || nibbles == 4 || nibbles == 8
  }

  /** The write of getGenericBuffer: half a byte a digit; NaN is written as zero. */
  function GenericWrite(val: Option<nat>, nibbles: nat): Outcome<seq<Byte>> {
    var n := if val.None? then 0 else val.value;
    if Writable(nibbles) && n < TWO_TO_THE_53 then Done(BE(n, nibbles / 2)) else Unmodelled
  }

  /** getGenericBuffer: hexadecimal when there is an x, and then the digits after it give the length. */
  function GenericBytes(v: Value): Outcome<seq<Byte>> {
    if v.Str? then GenericLower(Lower(v.s)) else Throws
  }

  function GenericLower(low: string): Outcome<seq<Byte>> {
    var x := IndexOf(low, 'x');
    if low != [] && DigitOf(low[0]).None? && low[0] != 'x' then Unmodelled
    else if x.Some? then GenericWrite(ParseInt(low, 16), |low| - (x.value + 1))
    else
      var width := ParseInt(low, 16);
      if width.None? || width.value >= TWO_TO_THE_53 then Unmodelled
      else GenericWrite(ParseInt(low, 10), |Numeral(width.value, 10)|)
  }

  function LeafData(spec: Spec, v: Value): Outcome<seq<Byte>> {
    match spec
    case Text => TextBytes(v)
    case Number(bits) => NumberBytes(bits, v)
    case Generic => GenericBytes(v)
    case _ => Throws
  }

  // ----- buffers -----

  /** rt.buildRtattrBuf */
  function BuildRtattrBuf(typ: nat, data: seq<Byte>): seq<Byte> {
    var len := 4 + |data|;
    var pad := (len + 3) / 4 * 4 - len;
    LE16(Clamp16(len)) + LE16(Clamp16(typ)) + data + Zeros(pad)
  }

  lemma BuildIsPrint(typ: nat, data: seq<Byte>)
    ensures BuildRtattrBuf(typ, data) == Print(Leaf(typ, data))
  {
    var len := 4 + |data|;
    assert (len + 3) / 4 * 4 - len == Pad(len);
  }

  predicate IsNested(spec: Spec) {
    spec.Nested? || spec.List? || spec.Expression?
  }

  /** setBuffer: a nest starts as a header that counts only itself. */
  function FirstBytes(typ: nat, spec: Spec, v: Value): Outcome<seq<Byte>> {
    if IsNested(spec) then Done(Header(HEADER, NLA_F_NESTED + typ))
    else match LeafData(spec, v)
    case Done(data) => Done(BuildRtattrBuf(typ, data))
    case Throws => Throws
    case Unmodelled => Unmodelled
  }

  class Attribute {
    const key: string
    const value: Value
    const typeval: nat
    const spec: Spec
    const buffer: array<Byte>

    constructor (key: string, value: Value, typeval: nat, spec: Spec, bytes: seq<Byte>)
      ensures this.key == key && this.value == value && this.typeval == typeval && this.spec == spec
      ensures fresh(buffer) && buffer[..] == bytes
    {
      this.key, this.value, this.typeval, this.spec := key, value, typeval, spec;
      buffer := new Byte[|bytes|](i requires 0 <= i < |bytes| => bytes[i]);
    }

    /** incrementNestLength: false where writeUInt16LE throws. */
    method IncrementNestLength(size: nat) returns (ok: bool)
      requires buffer.Length == HEADER
      modifies buffer
      ensures ok <==> old(Read16(buffer[..], 0)) + size < TWO_TO_THE_16
      ensures buffer[2..] == old(buffer[2..])
      ensures buffer[..2] == if ok then LE16(old(Read16(buffer[..], 0)) + size) else old(buffer[..2])
    {
      var len := Read16(buffer[..], 0);
      ok := len + size < TWO_TO_THE_16;
      if ok {
        var le := LE16(len + size);
        buffer[0], buffer[1] := le[0], le[1];
      }
    }
  }

  /** new Attribute(params, attrs, key) */
  method NewAttribute(f: Field, attrs: CommandObject) returns (r: Outcome<Attribute>)
    ensures r.Done? ==>
      var found := SpecOf(attrs, f.key);
      && found.Some? && fresh(r.value) && fresh(r.value.buffer)
      && r.value.key == f.key && r.value.value == f.value && (r.value.typeval, r.value.spec) == found.value
      && FirstBytes(found.value.0, found.value.1, f.value) == Done(r.value.buffer[..])
    ensures r.Throws? <==>
      SpecOf(attrs, f.key).None? || FirstBytes(SpecOf(attrs, f.key).value.0, SpecOf(attrs, f.key).value.1, f.value).Throws?
    ensures r.Unmodelled? <==>
      SpecOf(attrs, f.key).Some?
      && FirstBytes(SpecOf(attrs, f.key).value.0, SpecOf(attrs, f.key).value.1, f.value).Unmodelled?
  {
    var found := SpecOf(attrs, f.key);
    if found.None? { return Throws; }
    var bytes := FirstBytes(found.value.0, found.value.1, f.value);
    if bytes.Throws? { return Throws; }
    if bytes.Unmodelled? { return Unmodelled; }
    var a := new Attribute(f.key, f.value, found.value.0, found.value.1, bytes.value);
    r := Done(a);
  }

  // ----- what the generic encoder does with the texts the rule compiler writes -----

  lemma LowerSnoc(s: string, c: char)
    ensures Lower(s + [c]) == Lower(s) + [LowerChar(c)]
  {
    hide Lower, LowerChar;
  }

  lemma LowerDigit(c: char, radix: nat)
    ensures DigitOf(LowerChar(c)) == DigitOf(c) && (IsDigit(LowerChar(c), radix) <==> IsDigit(c, radix))
  {
  }

  lemma SplitLast(s: string, radix: nat)
    requires s != [] && AllDigits(s, radix)
    ensures s == s[..|s| - 1] + [s[|s| - 1]] && AllDigits(s[..|s| - 1], radix) && IsDigit(s[|s| - 1], radix)
  {
    assert s[|s| - 1] in s && forall c :: c in s[..|s| - 1] ==> c in s;
    hide IsDigit;
  }

  lemma {:induction false} LowerDigits(s: string)
    requires AllDigits(s, 16)
    ensures AllDigits(Lower(s), 16) && ValueOf(Lower(s), 16) == ValueOf(s, 16)
  {
    if s != [] {
      hide *;
      var init, c := s[..|s| - 1], s[|s| - 1];
      SplitLast(s, 16);
      LowerDigits(init);
      LowerSnoc(init, c);
      LowerDigit(c, 16);
      ValueOfSnoc(init, c, 16);
      ValueOfSnoc(Lower(init), LowerChar(c), 16);
    }
  }

  lemma LowerPrefixed(digits: string)
    ensures Lower("0x" + digits) == "0x" + Lower(digits)
    ensures IndexOf("0x" + Lower(digits), 'x') == Some(1)
  {
    hide DigitOf;
    var low := "0x" + Lower(digits);
    assert low[1..][0] == 'x';
    hide Lower;
  }

  lemma ParseIntPrefixed(digits: string)
    requires AllDigits(digits, 16) && digits != []
    ensures ParseInt("0x" + digits, 16) == Some(ValueOf(digits, 16))
  {
    DigitPrefixOfDigits(digits, 16);
    hide DigitPrefix, AllDigits, ValueOf;
    assert ("0x" + digits)[2..] == digits;
  }

  /** 0x and digits: their number gives the length, their value the bytes. */
  lemma GenericHex(digits: string)
    requires AllDigits(digits, 16) && digits != []
    ensures GenericBytes(Str("0x" + digits)) == GenericWrite(Some(ValueOf(digits, 16)), |digits|)
  {
    var lower := Lower(digits);
    LowerPrefixed(digits);
    LowerDigits(digits);
    ParseIntPrefixed(lower);
    GenericLowerHex("0x" + lower, ValueOf(digits, 16), |digits|) by {
      hide *;
      assert ("0x" + lower)[0] == '0';
    }
    hide *;
    GenericOfStr("0x" + digits);
  }

  lemma GenericOfStr(s: string)
    ensures GenericBytes(Str(s)) == GenericLower(Lower(s))
  {
    hide GenericLower, Lower;
  }

  lemma GenericLowerHex(low: string, n: nat, nibbles: nat)
    requires |low| == nibbles + 2 && low[0] == '0' && IndexOf(low, 'x') == Some(1) && ParseInt(low, 16) == Some(n)
    ensures GenericLower(low) == GenericWrite(Some(n), nibbles)
  {
    hide IndexOf, ParseInt, BE, Numeral, GenericWrite;
  }
}
