/**
  The probe sequence of an open-addressing table: double hashing with an odd increment in a table
  whose size is a power of two.
 */
module Probing {
  import opened Words

  /** The macro __ac_inc for a hash k and a mask m. */
  function AcInc(k: Word, m: nat): nat {
    And(Or(Xor(Shr(k, 3), Mod(Shl(k, 3), TWO_TO_THE_32)), 1), m)
  }

  /** Where the d-th step of a probe stands that starts at home. */
  function Slot(home: nat, inc: nat, n: nat, d: nat): (i: nat)
    requires n > 0
    ensures i < n
  {
    Mod(home + d * inc, n)
  }

  /**
    Bit by bit: each bit of the hash is combined with those three places above and below it in 32 bits, the
    lowest bit is set, and the mask is applied.
   */
  lemma AcIncBits(k: Word, m: nat, i: nat)
    requires i < 32
    ensures Bit(AcInc(k, m), i) <==> Bit(m, i) && (i == 0 || Bit(k, i + 3) != (i >= 3 && Bit(k, i - 3)))
  {
    assert Pow2(32) == TWO_TO_THE_32 by { Pow2At31(); }
    var low := Mod(Shl(k, 3), TWO_TO_THE_32);
    BitShl(k, 3, i);
    BitMod(Shl(k, 3), 32, i);
    BitShr(k, 3, i);
    BitXor(Shr(k, 3), low, i);
    BitOr(Xor(Shr(k, 3), low), 1, i);
    BitAnd(Or(Xor(Shr(k, 3), low), 1), m, i);
    if i > 0 { BitZero(i - 1); }
    hide Mod, Shl, Shr, Xor, Or, And, Pow2;
  }

  lemma AcIncOdd(k: Word, m: nat)
    requires m % 2 == 1
    ensures AcInc(k, m) % 2 == 1 && AcInc(k, m) <= m
  {
    var a := Xor(Shr(k, 3), Mod(Shl(k, 3), TWO_TO_THE_32));
    assert Or(a, 1) % 2 == 1;
  }

  /** One pass of the loop `i = (i + inc) & mask` moves to the next slot. */
  lemma SlotNext(home: nat, inc: nat, n: nat, d: nat)
    requires IsPow2(n)
    ensures And(Slot(home, inc, n, d) + inc, n - 1) == Slot(home, inc, n, d + 1)
  {
    var i := Slot(home, inc, n, d);
    AndMask(i + inc, n);
    var q := ModSplit(home + d * inc, n);
    var q' := ModSplit(i + inc, n);
    assert (d + 1) * inc == d * inc + inc;
    assert (q + q') * n == q * n + q' * n;
    ModOf(q + q', Mod(i + inc, n), n);
  }

  lemma SlotZero(home: nat, inc: nat, n: nat)
    requires home < n
    ensures Slot(home, inc, n, 0) == home
  {
  }

  /** Two steps of a probe stand at the same slot only a multiple of the table size apart. */
  lemma SlotRepeats(home: nat, inc: nat, n: nat, d: nat, e: nat) returns (c: nat)
    requires IsPow2(n) && inc % 2 == 1 && d <= e
    requires Slot(home, inc, n, d) == Slot(home, inc, n, e)
    ensures e - d == c * n
  {
    DistributeSub(e, d, inc);
    NatProduct(e - d, inc);
    var q := SameResidue(home + d * inc, home + e * inc, n);
    c := OddCoprime(n, e - d, inc, q);
  }

  lemma SlotsDistinct(home: nat, inc: nat, n: nat, d: nat, e: nat)
    requires IsPow2(n) && inc % 2 == 1 && d < e < d + n
    ensures Slot(home, inc, n, d) != Slot(home, inc, n, e)
  {
    if Slot(home, inc, n, d) == Slot(home, inc, n, e) {
      var c := SlotRepeats(home, inc, n, d, e);
      NoMultipleBetween(c, n, e - d);
      assert false;
    }
  }

  lemma NoMultipleBetween(c: nat, n: nat, m: nat)
    requires 0 < m < n
    ensures m != c * n
  {
    if c >= 1 { assert c * n == n + (c - 1) * n; }
  }

  /** The probe is back home after exactly n steps. */
  lemma SlotReturns(home: nat, inc: nat, n: nat)
    requires home < n
    ensures Slot(home, inc, n, n) == home
  {
    ModOf(inc, home, n);
  }

  ghost function Visited(home: nat, inc: nat, n: nat, d: nat): set<nat>
    requires n > 0
  {
    set e | 0 <= e < d :: Slot(home, inc, n, e)
  }

  lemma {:induction false} VisitedSize(home: nat, inc: nat, n: nat, d: nat)
    requires IsPow2(n) && inc % 2 == 1 && d <= n
    ensures |Visited(home, inc, n, d)| == d
  {
    if d > 0 {
      var s := Slot(home, inc, n, d - 1);
      VisitedSize(home, inc, n, d - 1);
      forall e | 0 <= e < d - 1
        ensures Slot(home, inc, n, e) != s
      {
        SlotsDistinct(home, inc, n, e, d - 1);
      }
      assert Visited(home, inc, n, d) == Visited(home, inc, n, d - 1) + {s};
    }
  }

  function Below(n: nat): set<nat> {
    if n == 0 then {} else Below(n - 1) + {n - 1}
  }

  lemma {:induction false} BelowMembers(n: nat)
    ensures |Below(n)| == n && forall i: nat :: i in Below(n) <==> i < n
  {
    if n > 0 { BelowMembers(n - 1); }
  }

  lemma FullSubset(a: set<nat>, b: set<nat>)
    requires a <= b && |a| == |b|
    ensures a == b
  {
    assert |b - a| == |b| - |a|;
    assert b == a + (b - a);
  }

  /** A probe visits every bucket before it returns to where it started. */
  lemma ProbeVisitsAll(home: nat, inc: nat, n: nat, i: nat) returns (d: nat)
    requires IsPow2(n) && inc % 2 == 1 && i < n
    ensures d < n && Slot(home, inc, n, d) == i
  {
    VisitedSize(home, inc, n, n);
    BelowMembers(n);
    FullSubset(Visited(home, inc, n, n), Below(n));
    assert i in Visited(home, inc, n, n);
    d :| 0 <= d < n && Slot(home, inc, n, d) == i;
  }
}
