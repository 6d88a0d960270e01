/**
  32-bit unsigned words (khint_t, khint32_t) as naturals, with the bitwise operators the C code
  applies to them. The operators are defined bit by bit; shifts are division and multiplication by
  powers of two, and every result that can leave the word is reduced explicitly.
 */
module Words {

  const TWO_TO_THE_31: nat := 0x8000_0000
  const TWO_TO_THE_32: nat := 0x1_0000_0000

  type Word = w: nat | w < TWO_TO_THE_32

  function Or(a: nat, b: nat): (r: nat)
    ensures a <= r <= a + b
    ensures b <= r
  {
    if a == 0 && b == 0 then 0
    else
      var bit := if a % 2 == 1 || b % 2 == 1 then 1 else 0;
      2 * Or(a / 2, b / 2) + bit
  }

  function Xor(a: nat, b: nat): (r: nat) {
    if a == 0 && b == 0 then 0
    else
      var bit := if a % 2 != b % 2 then 1 else 0;
      2 * Xor(a / 2, b / 2) + bit
  }

  function And(a: nat, b: nat): (r: nat)
    ensures r <= b
  {
    if a == 0 || b == 0 then 0
    else
      var bit := if a % 2 == 1 && b % 2 == 1 then 1 else 0;
      2 * And(a / 2, b / 2) + bit
  }

  /** a & ~b */
  function AndNot(a: nat, b: nat): (r: nat)
    ensures r <= a
  {
    if a == 0 then 0
    else
      var bit := if a % 2 == 1 && b % 2 == 0 then 1 else 0;
      2 * AndNot(a / 2, b / 2) + bit
  }

  function Pow2(e: nat): (r: nat)
    ensures r >= 1
  {
    if e == 0 then 1 else 2 * Pow2(e - 1)
  }

  lemma {:induction false} Pow2Add(a: nat, b: nat)
    ensures Pow2(a + b) == Pow2(a) * Pow2(b)
  {
    if a != 0 {
      Pow2Add(a - 1, b);
      assert Pow2(a + b) == 2 * Pow2(a - 1 + b);
      assert 2 * (Pow2(a - 1) * Pow2(b)) == (2 * Pow2(a - 1)) * Pow2(b);
    }
  }

  lemma {:induction false} Pow2Monotone(a: nat, b: nat)
    requires a <= b
    ensures Pow2(a) <= Pow2(b)
  {
    if a < b { Pow2Monotone(a, b - 1); }
  }

  function Shl(a: nat, s: nat): nat {
    a * Pow2(s)
  }

  function Shr(a: nat, s: nat): nat {
    if s == 0 then a else Shr(a / 2, s - 1)
  }

  /** Bit i of a: the truth value of (a >> i) & 1, and of a & (1 << i). */
  predicate Bit(a: nat, i: nat) {
    if i == 0 then a % 2 == 1 else Bit(a / 2, i - 1)
  }

  lemma {:induction false} OrBelow(a: nat, b: nat, e: nat)
    requires a < Pow2(e) && b < Pow2(e)
    ensures Or(a, b) < Pow2(e)
  {
    if e != 0 { OrBelow(a / 2, b / 2, e - 1); }
  }

  lemma {:induction false} BitZero(i: nat)
    ensures !Bit(0, i)
  {
    if i != 0 { BitZero(i - 1); }
  }

  lemma {:induction false} BitOr(a: nat, b: nat, i: nat)
    ensures Bit(Or(a, b), i) <==> Bit(a, i) || Bit(b, i)
  {
    if a == 0 && b == 0 {
      BitZero(i);
    } else if i != 0 {
      BitOr(a / 2, b / 2, i - 1);
    }
  }

  lemma {:induction false} BitAndNot(a: nat, b: nat, i: nat)
    ensures Bit(AndNot(a, b), i) <==> Bit(a, i) && !Bit(b, i)
  {
    if a == 0 {
      BitZero(i);
    } else if i != 0 {
      BitAndNot(a / 2, b / 2, i - 1);
    }
  }

  lemma {:induction false} BitXor(a: nat, b: nat, i: nat)
    ensures Bit(Xor(a, b), i) <==> Bit(a, i) != Bit(b, i)
  {
    if a == 0 && b == 0 {
      BitZero(i);
    } else if i != 0 {
      BitXor(a / 2, b / 2, i - 1);
    }
  }

  lemma {:induction false} BitAnd(a: nat, b: nat, i: nat)
    ensures Bit(And(a, b), i) <==> Bit(a, i) && Bit(b, i)
  {
    if a == 0 || b == 0 {
      BitZero(i);
    } else if i != 0 {
      BitAnd(a / 2, b / 2, i - 1);
    }
  }

  lemma {:induction false} BitShl(a: nat, s: nat, i: nat)
    ensures Bit(Shl(a, s), i) <==> i >= s && Bit(a, i - s)
  {
    if s == 0 {
      assert Shl(a, 0) == a;
    } else {
      assert a * Pow2(s) == 2 * (a * Pow2(s - 1));
      if i > 0 { BitShl(a, s - 1, i - 1); }
    }
  }

  lemma {:induction false} BitShr(a: nat, s: nat, i: nat)
    ensures Bit(Shr(a, s), i) <==> Bit(a, s + i)
  {
    if s != 0 { BitShr(a / 2, s - 1, i); }
  }

  /** The bits of m << s for a mask m of at most two bits. */
  lemma {:induction false} BitShlMask(m: nat, s: nat, i: nat)
    requires m < 4
    ensures Bit(Shl(m, s), i) <==> (i == s && m % 2 == 1) || (i == s + 1 && m >= 2)
  {
    if s == 0 {
      if i >= 2 {
        assert Bit(m, i) == Bit(m / 2 / 2, i - 2);
        BitZero(i - 2);
      }
    } else {
      assert Shl(m, s) == 2 * Shl(m, s - 1);
      if i != 0 { BitShlMask(m, s - 1, i - 1); }
    }
  }

  lemma {:induction false} BitsBelow(a: nat, e: nat, i: nat)
    requires a < Pow2(e) && e <= i
    ensures !Bit(a, i)
  {
    if e == 0 { BitZero(i); } else { BitsBelow(a / 2, e - 1, i - 1); }
  }

  /** A number whose bits are exactly those below e is 2^e - 1. */
  lemma {:induction false} AllOnes(a: nat, e: nat)
    requires forall i: nat :: Bit(a, i) <==> i < e
    ensures a == Pow2(e) - 1
  {
    if e == 0 {
      NoBitsIsZero(a);
    } else {
      assert Bit(a, 0);
      forall i: nat
        ensures Bit(a / 2, i) <==> i < e - 1
      {
        assert Bit(a, i + 1) == Bit(a / 2, i);
      }
      AllOnes(a / 2, e - 1);
    }
  }

  lemma {:induction false} NoBitsIsZero(a: nat)
    requires forall i: nat :: !Bit(a, i)
    ensures a == 0
  {
    if a != 0 {
      assert !Bit(a, 0);
      forall i: nat
        ensures !Bit(a / 2, i)
      {
        assert Bit(a, i + 1) == Bit(a / 2, i);
      }
      NoBitsIsZero(a / 2);
    }
  }

  lemma {:induction false} TopBit(a: nat) returns (e: nat)
    requires a > 0
    ensures Bit(a, e) && Pow2(e) <= a < Pow2(e + 1)
    ensures forall i: nat :: e < i ==> !Bit(a, i)
  {
    if a == 1 {
      e := 0;
    } else {
      e := TopBit(a / 2);
      e := e + 1;
    }
    forall i: nat | e < i
      ensures !Bit(a, i)
    {
      BitsBelow(a, e + 1, i);
    }
  }

  // ----- products -----

  lemma ProductMagnitude(k: int, n: int)
    requires n > 0
    ensures k >= 1 ==> k * n >= n
    ensures k <= -1 ==> k * n <= -n
  {
    if k >= 1 {
      assert (k - 1) * n >= 0;
    } else if k <= -1 {
      assert (-k - 1) * n >= 0;
    }
  }

  lemma NatProduct(a: nat, b: nat)
    ensures a * b >= 0
  {
  }

  lemma DistributeSub(a: int, b: int, n: int)
    ensures (a - b) * n == a * n - b * n
  {
  }

  // ----- kroundup32 -----

  function Smear(y0: nat): nat {
    var y1 := Or(y0, Shr(y0, 1));
    var y2 := Or(y1, Shr(y1, 2));
    var y3 := Or(y2, Shr(y2, 4));
    var y4 := Or(y3, Shr(y3, 8));
    Or(y4, Shr(y4, 16))
  }

  function Decrement(x: Word): Word {
    if x == 0 then TWO_TO_THE_32 - 1 else x - 1
  }

  function Increment(x: nat): nat {
    if x == TWO_TO_THE_32 - 1 then 0 else x + 1
  }

  /** The macro kroundup32: decrement, smear the top bit downwards, increment; on 32 bits. */
  function KRoundUp32(x: Word): nat {
    Increment(Smear(Decrement(x)))
  }

  ghost predicate AnyBit(y: nat, lo: nat, hi: nat) {
    exists j: nat :: lo <= j < hi && Bit(y, j)
  }

  /** Every bit of y is the disjunction of the w bits of y0 from the same place up. */
  ghost predicate Smeared(y: nat, y0: nat, w: nat) {
    forall i: nat :: Bit(y, i) <==> AnyBit(y0, i, i + w)
  }

  lemma SmearStep(y: nat, y0: nat, w: nat)
    requires Smeared(y, y0, w)
    ensures Smeared(Or(y, Shr(y, w)), y0, 2 * w)
  {
    forall i: nat
      ensures Bit(Or(y, Shr(y, w)), i) <==> AnyBit(y0, i, i + 2 * w)
    {
      BitOr(y, Shr(y, w), i);
      BitShr(y, w, i);
      assert Bit(y, w + i) <==> AnyBit(y0, w + i, w + i + w);
      AnyBitSplit(y0, i, i + w, i + 2 * w);
    }
  }

  lemma AnyBitSplit(y: nat, lo: nat, mid: nat, hi: nat)
    requires lo <= mid <= hi
    ensures AnyBit(y, lo, hi) <==> AnyBit(y, lo, mid) || AnyBit(y, mid, hi)
  {
  }

  ghost predicate LeastPow2AtLeast(r: nat, x: nat) {
    IsPow2(r) && x <= r && forall p :: IsPow2(p) && x <= p ==> r <= p
  }

  /** kroundup32 yields the least power of two that is at least x; 0 when x is 0 or no 32-bit power is. */
  lemma KRoundUp32Correct(x: Word)
    ensures x == 0 || x > TWO_TO_THE_31 ==> KRoundUp32(x) == 0
    ensures 1 <= x <= TWO_TO_THE_31 ==> KRoundUp32(x) <= TWO_TO_THE_31 && LeastPow2AtLeast(KRoundUp32(x), x)
  {
    SmearRoundsUp(Decrement(x));
  }

  lemma SmearRoundsUp(y0: nat)
    requires y0 < TWO_TO_THE_32
    ensures y0 >= TWO_TO_THE_31 ==> Smear(y0) + 1 == TWO_TO_THE_32
    ensures y0 < TWO_TO_THE_31 ==> Smear(y0) + 1 <= TWO_TO_THE_31 && LeastPow2AtLeast(Smear(y0) + 1, y0 + 1)
  {
    if y0 == 0 {
      BitsOfZero();
    } else {
      SmearTop(y0);
    }
  }

  lemma BitsOfZero()
    ensures Smear(0) == 0
  {
  }

  lemma SmearTop(y0: nat)
    requires 0 < y0 < TWO_TO_THE_32
    ensures y0 >= TWO_TO_THE_31 ==> Smear(y0) + 1 == TWO_TO_THE_32
    ensures y0 < TWO_TO_THE_31 ==> Smear(y0) + 1 <= TWO_TO_THE_31 && LeastPow2AtLeast(Smear(y0) + 1, y0 + 1)
  {
    var e := TopBit(y0);
    Pow2At31();
    if e >= 32 { Pow2Monotone(32, e); }
    SmearValue(y0, e);
    RoundUpFromTop(y0, e);
  }

  lemma SmearValue(y0: nat, e: nat)
    requires e < 32 && Bit(y0, e) && forall i: nat :: e < i ==> !Bit(y0, i)
    ensures Smear(y0) == Pow2(e + 1) - 1
  {
    var y5 := Smear(y0);
    Smear32(y0);
    forall i: nat
      ensures Bit(y5, i) <==> i < e + 1
    {
      if i <= e { assert i <= e < i + 32 && Bit(y0, e); }
    }
    AllOnes(y5, e + 1);
  }

  lemma Smear32(y0: nat)
    ensures Smeared(Smear(y0), y0, 32)
  {
    var y1 := Or(y0, Shr(y0, 1));
    var y2 := Or(y1, Shr(y1, 2));
    var y3 := Or(y2, Shr(y2, 4));
    var y4 := Or(y3, Shr(y3, 8));
    assert Smeared(y0, y0, 1) by {
      forall i: nat
        ensures Bit(y0, i) <==> AnyBit(y0, i, i + 1)
      {
        assert i <= i < i + 1;
      }
    }
    SmearStep(y0, y0, 1);
    SmearStep(y1, y0, 2);
    SmearStep(y2, y0, 4);
    SmearStep(y3, y0, 8);
    SmearStep(y4, y0, 16);
  }

  lemma Pow2At31()
    ensures Pow2(31) == TWO_TO_THE_31 && Pow2(32) == TWO_TO_THE_32
  {
    assert Pow2(8) == 256;
    Pow2Add(8, 8);
    Pow2Add(16, 8);
    assert Pow2(7) == 128;
    Pow2Add(24, 7);
  }

  lemma RoundUpFromTop(y: nat, e: nat)
    requires Pow2(e) <= y < Pow2(e + 1) && e < 32
    ensures e == 31 <==> y >= TWO_TO_THE_31
    ensures e == 31 ==> Pow2(e + 1) == TWO_TO_THE_32
    ensures e < 31 ==> Pow2(e + 1) <= TWO_TO_THE_31
    ensures LeastPow2AtLeast(Pow2(e + 1), y + 1)
  {
    Pow2At31();
    if e < 31 { Pow2Monotone(e + 1, 31); }
    Pow2IsPow2(e + 1);
    forall p | IsPow2(p) && y < p
      ensures Pow2(e + 1) <= p
    {
      var k := Log2(p);
      if k <= e { Pow2Monotone(k, e); }
      Pow2Monotone(e + 1, k);
    }
  }

  // ----- powers of two -----

  predicate IsPow2(n: nat) {
    n == 1 || (n > 1 && n % 2 == 0 && IsPow2(n / 2))
  }

  lemma {:induction false} Pow2IsPow2(e: nat)
    ensures IsPow2(Pow2(e))
  {
    if e != 0 { Pow2IsPow2(e - 1); }
  }

  lemma {:induction false} Log2(n: nat) returns (e: nat)
    requires IsPow2(n)
    ensures n == Pow2(e)
  {
    if n == 1 { e := 0; } else { e := Log2(n / 2); e := e + 1; }
  }

  // ----- reduction modulo n -----

  /** a mod n by repeated subtraction: the solver unfolds it only where a lemma asks for it. */
  function Mod(a: nat, n: nat): (r: nat)
    requires n > 0
    ensures r < n
  {
    if a < n then a else Mod(a - n, n)
  }

  lemma {:induction false} ModOf(q: nat, r: nat, n: nat)
    requires r < n
    ensures Mod(q * n + r, n) == r
  {
    if q > 0 {
      DistributeSub(q, 1, n);
      NatProduct(q - 1, n);
      ModOf(q - 1, r, n);
      assert q * n + r - n == (q - 1) * n + r;
    }
  }

  lemma {:induction false} ModSplit(a: nat, n: nat) returns (q: nat)
    requires n > 0
    ensures a == q * n + Mod(a, n)
  {
    if a < n {
      q := 0;
    } else {
      q := ModSplit(a - n, n);
      assert (q + 1) * n == q * n + n;
      q := q + 1;
    }
  }

  lemma SameResidue(x: nat, y: nat, n: nat) returns (q: nat)
    requires n > 0 && x <= y && Mod(x, n) == Mod(y, n)
    ensures y - x == q * n
  {
    hide *;
    var a := ModSplit(x, n);
    var b := ModSplit(y, n);
    DistributeSub(b, a, n);
    ProductMagnitude(b - a, n);
    q := b - a;
  }

  /** Masking with n - 1 is reduction modulo a power of two n. */
  lemma {:induction false} AndMask(x: nat, n: nat)
    requires IsPow2(n)
    ensures And(x, n - 1) == Mod(x, n)
  {
    if n == 1 {
      ModOf(x, 0, 1);
    } else if x > 0 {
      assert (n - 1) / 2 == n / 2 - 1;
      AndMask(x / 2, n / 2);
      ModOfHalves(x, n / 2);
    }
  }

  lemma ModOfHalves(x: nat, h: nat)
    requires h > 0
    ensures Mod(x, 2 * h) == 2 * Mod(x / 2, h) + x % 2
  {
    var q := ModSplit(x / 2, h);
    assert q * (2 * h) == 2 * (q * h);
    ModOf(q, 2 * Mod(x / 2, h) + x % 2, 2 * h);
  }

  /** Reduction modulo a power of two keeps the low bits. */
  lemma {:induction false} BitMod(a: nat, e: nat, i: nat)
    ensures Bit(Mod(a, Pow2(e)), i) <==> i < e && Bit(a, i)
  {
    if e == 0 {
      BitZero(i);
    } else {
      ModOfHalves(a, Pow2(e - 1));
      if i > 0 { BitMod(a / 2, e - 1, i - 1); }
    }
  }

  /** If n is a power of two and inc is odd, n divides d * inc only when it divides d. */
  lemma {:induction false} OddCoprime(n: nat, d: nat, inc: nat, q: nat) returns (c: nat)
    requires IsPow2(n) && inc % 2 == 1
    requires d * inc == q * n
    ensures d == c * n
  {
    if n == 1 {
      c := d;
    } else {
      var h := n / 2;
      assert q * n == 2 * (q * h);
      EvenFactor(d, inc, q * h);
      var e := d / 2;
      assert d * inc == 2 * (e * inc);
      c := OddCoprime(h, e, inc, q);
      assert 2 * (c * h) == c * (2 * h);
    }
  }

  lemma OddTimesOdd(a: nat, b: nat)
    ensures (2 * a + 1) * (2 * b + 1) == 2 * (2 * a * b + a + b) + 1
  {
  }

  lemma EvenFactor(d: nat, inc: nat, m: nat)
    requires inc % 2 == 1 && d * inc == 2 * m
    ensures d % 2 == 0
  {
    if d % 2 == 1 {
      OddTimesOdd(d / 2, inc / 2);
      assert false;
    }
  }
}
