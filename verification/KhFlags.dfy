/**
  The bucket flags of khash: two bits per bucket, sixteen buckets to a 32-bit word. The upper bit
  of a pair says "empty", the lower one "deleted"; a bucket with neither is live.
 */
module KhFlags {
  import opened Words

  datatype Flag = Empty | Deleted | Live

  const ALL_EMPTY: Word := 0xaaaa_aaaa

  /** __ac_fsize: the number of flag words of a table of m buckets. */
  function FSize(m: nat): nat {
    if m < 16 then 1 else m / 16
  }

  /** The bit position (i & 0xf) << 1 of a bucket's pair within its word. */
  function Shift(i: nat): (s: nat)
    ensures s <= 30
  {
    2 * (i % 16)
  }

  predicate IsEmpty(words: seq<Word>, i: nat)
    requires i < 16 * |words|
  {
    Bit(words[i / 16], Shift(i) + 1)
  }

  predicate IsDel(words: seq<Word>, i: nat)
    requires i < 16 * |words|
  {
    Bit(words[i / 16], Shift(i))
  }

  predicate IsEither(words: seq<Word>, i: nat)
    requires i < 16 * |words|
  {
    IsEmpty(words, i) || IsDel(words, i)
  }

  function FlagAt(words: seq<Word>, i: nat): Flag
    requires i < 16 * |words|
  {
    if IsEmpty(words, i) then Empty else if IsDel(words, i) then Deleted else Live
  }

  /** No bucket is marked both empty and deleted. */
  ghost predicate Clean(words: seq<Word>) {
    forall i: nat :: i < 16 * |words| ==> !(IsEmpty(words, i) && IsDel(words, i))
  }

  ghost function View(words: seq<Word>, n: nat): (fl: seq<Flag>)
    requires n <= 16 * |words|
    ensures |fl| == n && forall i :: 0 <= i < n ==> fl[i] == FlagAt(words, i)
  {
    seq(n, i requires 0 <= i < n => FlagAt(words, i))
  }

  /** What replacing bucket i's word does to all the flags, given what it does within that word. */
  lemma SetWord(words: seq<Word>, i: nat, w: Word, f: Flag, n: nat)
    requires i < n <= 16 * |words| && Clean(words)
    requires forall b: nat :: b < 32 && b != Shift(i) && b != Shift(i) + 1 ==> (Bit(w, b) <==> Bit(words[i / 16], b))
    requires Bit(w, Shift(i) + 1) <==> f == Empty
    requires Bit(w, Shift(i)) <==> f == Deleted
    ensures var words' := words[i / 16 := w];
            Clean(words') && View(words', n) == View(words, n)[i := f]
  {
    var words' := words[i / 16 := w];
    forall j: nat | j < 16 * |words| && j != i
      ensures IsEmpty(words', j) == IsEmpty(words, j) && IsDel(words', j) == IsDel(words, j)
    {
      if j / 16 == i / 16 {
        assert j % 16 != i % 16;
        assert Shift(j) != Shift(i) && Shift(j) != Shift(i) + 1 && Shift(j) + 1 != Shift(i);
      }
    }
    forall j: nat | j < 16 * |words'|
      ensures !(IsEmpty(words', j) && IsDel(words', j))
    {
      if j != i { assert !(IsEmpty(words, j) && IsDel(words, j)); }
    }
  }

  lemma MaskFits(m: nat, s: nat)
    requires m < 4 && s <= 30
    ensures Shl(m, s) < Pow2(32) == TWO_TO_THE_32
  {
    Pow2At31();
    Pow2Monotone(s, 30);
    assert Pow2(32) == 4 * Pow2(30);
    assert m * Pow2(s) <= 3 * Pow2(s);
  }

  /** __ac_set_isdel_true, on a live bucket. */
  method SetIsDelTrue(flags: array<Word>, i: nat, ghost n: nat)
    requires i < n <= 16 * flags.Length && Clean(flags[..]) && FlagAt(flags[..], i) == Live
    modifies flags
    ensures Clean(flags[..]) && View(flags[..], n) == old(View(flags[..], n))[i := Deleted]
  {
    ghost var words := flags[..];
    var w := flags[i / 16];
    MaskFits(1, Shift(i));
    Pow2At31();
    OrBelow(w, Shl(1, Shift(i)), 32);
    flags[i / 16] := Or(w, Shl(1, Shift(i)));
    forall b: nat
      ensures Bit(flags[i / 16], b) <==> Bit(w, b) || b == Shift(i)
    {
      BitOr(w, Shl(1, Shift(i)), b);
      BitShlMask(1, Shift(i), b);
    }
    SetWord(words, i, flags[i / 16], Deleted, n);
    assert flags[..] == words[i / 16 := flags[i / 16]];
  }

  /** __ac_set_isempty_false, on an empty bucket. */
  method SetIsEmptyFalse(flags: array<Word>, i: nat, ghost n: nat)
    requires i < n <= 16 * flags.Length && Clean(flags[..]) && FlagAt(flags[..], i) == Empty
    modifies flags
    ensures Clean(flags[..]) && View(flags[..], n) == old(View(flags[..], n))[i := Live]
  {
    ClearBits(flags, i, 2, n);
  }

  /** __ac_set_isboth_false. */
  method SetIsBothFalse(flags: array<Word>, i: nat, ghost n: nat)
    requires i < n <= 16 * flags.Length && Clean(flags[..])
    modifies flags
    ensures Clean(flags[..]) && View(flags[..], n) == old(View(flags[..], n))[i := Live]
  {
    ClearBits(flags, i, 3, n);
  }

  method ClearBits(flags: array<Word>, i: nat, m: nat, ghost n: nat)
    requires i < n <= 16 * flags.Length && Clean(flags[..])
    requires m == 3 || (m == 2 && FlagAt(flags[..], i) == Empty)
    modifies flags
    ensures Clean(flags[..]) && View(flags[..], n) == old(View(flags[..], n))[i := Live]
  {
    ghost var words := flags[..];
    var w := flags[i / 16];
    flags[i / 16] := AndNot(w, Shl(m, Shift(i)));
    forall b: nat
      ensures Bit(flags[i / 16], b) <==> Bit(w, b) && !(b == Shift(i) && m == 3) && b != Shift(i) + 1
    {
      BitAndNot(w, Shl(m, Shift(i)), b);
      BitShlMask(m, Shift(i), b);
    }
    assert !(IsEmpty(words, i) && IsDel(words, i));
    SetWord(words, i, flags[i / 16], Live, n);
    assert flags[..] == words[i / 16 := flags[i / 16]];
  }

  function Alternating(k: nat): nat {
    if k == 0 then 0 else 4 * Alternating(k - 1) + 2
  }

  lemma {:induction false} AlternatingBits(k: nat, i: nat)
    requires i < 2 * k
    ensures Bit(Alternating(k), i) <==> i % 2 == 1
  {
    if i >= 2 {
      assert Alternating(k) / 2 / 2 == Alternating(k - 1);
      AlternatingBits(k - 1, i - 2);
    }
  }

  /** Filling the flag words with 0xaa marks every bucket empty. */
  method FillEmpty(flags: array<Word>, ghost n: nat)
    requires n <= 16 * flags.Length
    modifies flags
    ensures Clean(flags[..]) && View(flags[..], n) == seq(n, _ => Empty)
  {
    for k := 0 to flags.Length
      invariant forall j :: 0 <= j < k ==> flags[j] == ALL_EMPTY
    {
      flags[k] := ALL_EMPTY;
    }
    assert Alternating(4) == 0xaa;
    assert Alternating(8) == 0xaaaa;
    assert Alternating(12) == 0xaaaaaa;
    assert Alternating(16) == ALL_EMPTY;
    forall i: nat | i < 16 * flags.Length
      ensures IsEmpty(flags[..], i) && !IsDel(flags[..], i)
    {
      AlternatingBits(16, Shift(i));
      AlternatingBits(16, Shift(i) + 1);
    }
  }

  lemma FSizeCovers(n: nat)
    requires n < 16 || IsPow2(n)
    ensures n <= 16 * FSize(n)
  {
    if n >= 16 {
      assert IsPow2(n / 2) && IsPow2(n / 2 / 2) && IsPow2(n / 2 / 2 / 2);
      assert n % 16 == 0;
    }
  }

  // ----- counting -----

  function Count(fl: seq<Flag>, s: set<Flag>): (c: nat)
    ensures c <= |fl|
  {
    if fl == [] then 0 else Count(fl[1..], s) + if fl[0] in s then 1 else 0
  }

  lemma {:induction false} CountUpdate(fl: seq<Flag>, s: set<Flag>, i: nat, f: Flag)
    requires i < |fl|
    ensures Count(fl[i := f], s) == Count(fl, s) - (if fl[i] in s then 1 else 0) + (if f in s then 1 else 0)
  {
    if i == 0 {
      assert fl[i := f][1..] == fl[1..];
    } else {
      assert fl[i := f][1..] == fl[1..][i - 1 := f];
      CountUpdate(fl[1..], s, i - 1, f);
    }
  }

  lemma {:induction false} CountAll(fl: seq<Flag>, s: set<Flag>)
    requires forall i :: 0 <= i < |fl| ==> fl[i] in s
    ensures Count(fl, s) == |fl|
  {
    if fl != [] { CountAll(fl[1..], s); }
  }

  lemma {:induction false} CountNone(fl: seq<Flag>, s: set<Flag>)
    requires forall i :: 0 <= i < |fl| ==> fl[i] !in s
    ensures Count(fl, s) == 0
  {
    if fl != [] { CountNone(fl[1..], s); }
  }

  lemma {:induction false} CountPositive(fl: seq<Flag>, s: set<Flag>, i: nat)
    requires i < |fl| && fl[i] in s
    ensures Count(fl, s) > 0
  {
    if i != 0 { CountPositive(fl[1..], s, i - 1); }
  }

  lemma {:induction false} CountSubset(fl: seq<Flag>, s: set<Flag>, t: set<Flag>)
    requires s <= t
    ensures Count(fl, s) <= Count(fl, t)
  {
    if fl != [] { CountSubset(fl[1..], s, t); }
  }
}
