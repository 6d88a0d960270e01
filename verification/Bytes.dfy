/** Byte strings and the two integer layouts the message builders write: little-endian for headers, big-endian for payloads. */
module Bytes {

  type Byte = b: nat | b < 256

  const TWO_TO_THE_16: nat := 0x1_0000

  /** writeUInt16LE of the low 16 bits of n. */
  function LE16(n: nat): (r: seq<Byte>)
    ensures |r| == 2
  {
    var high := n / 256;
    [n % 256, high % 256]
  }

  /** readUInt16LE(at) */
  function Read16(bs: seq<Byte>, at: nat): (n: nat)
    requires at + 2 <= |bs|
    ensures n < TWO_TO_THE_16
  {
    var low: nat, high: nat := bs[at], bs[at + 1];
    low + 256 * high
  }

  /** readUInt32LE(at) */
  function Read32(bs: seq<Byte>, at: nat): (n: nat)
    requires at + 4 <= |bs|
    ensures n < 0x1_0000_0000
  {
    Read16(bs, at) + TWO_TO_THE_16 * Read16(bs, at + 2)
  }

  lemma Read16LE16(n: nat)
    requires n < TWO_TO_THE_16
    ensures Read16(LE16(n), 0) == n
  {
    assert n / 256 < 256;
  }

  function Zeros(n: nat): (r: seq<Byte>)
    ensures |r| == n && forall i :: 0 <= i < n ==> r[i] == 0
  {
    if n == 0 then [] else Zeros(n - 1) + [0]
  }

  /** The number of padding bytes after n bytes: up to the next multiple of four. */
  function Pad(n: nat): (p: nat)
    ensures p < 4 && (n + p) % 4 == 0
  {
    if n % 4 == 0 then 0 else 4 - n % 4
  }

  function Pow256(len: nat): (p: nat)
    ensures p >= 1
  {
    if len == 0 then 1 else 256 * Pow256(len - 1)
  }

  /** The low len bytes of n, the most significant first. */
  function BE(n: nat, len: nat): (r: seq<Byte>)
    ensures |r| == len
  {
    if len == 0 then [] else BE(n / 256, len - 1) + [n % 256]
  }

  function FromBE(bs: seq<Byte>): (n: nat) {
    if bs == [] then 0 else 256 * FromBE(bs[..|bs| - 1]) + bs[|bs| - 1]
  }

  lemma {:induction false} FromBEBound(bs: seq<Byte>)
    ensures FromBE(bs) < Pow256(|bs|)
  {
    if bs != [] { FromBEBound(bs[..|bs| - 1]); }
  }

  lemma {:induction false} FromBEOfBE(n: nat, len: nat)
    requires n < Pow256(len)
    ensures FromBE(BE(n, len)) == n
  {
    if len > 0 {
      assert n / 256 < Pow256(len - 1);
      FromBEOfBE(n / 256, len - 1);
      assert BE(n, len)[..len - 1] == BE(n / 256, len - 1);
    }
  }

  /** A byte string is the big-endian form of exactly one number. */
  lemma {:induction false} BEOfFromBE(bs: seq<Byte>)
    ensures BE(FromBE(bs), |bs|) == bs
  {
    if bs != [] {
      var n := FromBE(bs[..|bs| - 1]);
      BEOfFromBE(bs[..|bs| - 1]);
      assert (256 * n + bs[|bs| - 1]) / 256 == n && (256 * n + bs[|bs| - 1]) % 256 == bs[|bs| - 1];
    }
  }
}
