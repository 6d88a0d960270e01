/**
  The hash table object of khash.h, with its fields updated in place, and the sequence of operations
  a program runs on it, against the map it stands for.
 */
module KHashTable {
  import opened Words
  import opened Probing
  import opened KhFlags
  import opened KHash

  /** REALLOC of a key or value array. */
  method Realloc<T(0)>(a: array<T>, len: nat) returns (b: array<T>)
    ensures fresh(b) && b.Length == len
    ensures forall i :: 0 <= i < len && i < a.Length ==> b[i] == a[i]
  {
    b := new T[len];
    forall i | 0 <= i < len && i < a.Length {
      b[i] := a[i];
    }
  }

  /** The loop of kh_get. */
  method Lookup<K(==)>(flags: array<Word>, keys: array<K>, ghost fl: seq<Flag>, n: nat, hash: K -> Word, key: K, ghost free: nat)
    returns (x: nat)
    requires IsPow2(n) && |fl| == n && 1 < n <= keys.Length && n <= 16 * flags.Length && fl == View(flags[..], n)
    requires free < n && fl[free] == Empty
    ensures x <= n
    ensures x < n ==> fl[x] == Live && keys[x] == key
    ensures x == n ==> NotFound(fl, hash, keys[..], key)
  {
    hide Slot, IsPow2, View;
    var mask := n - 1;
    var i := And(hash(key), mask);
    var inc := AcInc(hash(key), mask);
    var last := i;
    ghost var d := 0;
    IncOdd(hash, n, key);
    ghost var stop := ProbeMeetsEmpty(fl, last, inc, free);
    SlotZero(last, inc, n);
    while !IsEmpty(flags[..], i) && (IsDel(flags[..], i) || keys[i] != key)
      invariant d <= stop && i == Slot(last, inc, n, d)
      invariant Missed(fl, last, inc, keys[..], key, d)
      decreases stop - d
    {
      SlotNext(last, inc, n, d);
      i := And(i + inc, mask);
      d := d + 1;
      if i == last { return n; }
    }
    x := if IsEither(flags[..], i) then n else i;
    assert Missed(fl, Home(hash, n, key), Inc(hash, n, key), keys[..], key, d);
  }

  /** The loop of kh_put: where the probe for the key ends, and the last deleted bucket it passed (or n). */
  method Search<K(==)>(flags: array<Word>, keys: array<K>, ghost fl: seq<Flag>, n: nat, key: K, home: nat, inc: nat, ghost free: nat)
    returns (i: nat, site: nat, ghost d: nat)
    requires IsPow2(n) && |fl| == n && 1 < n <= keys.Length && n <= 16 * flags.Length && fl == View(flags[..], n)
    requires free < n && fl[free] == Empty && home < n && inc % 2 == 1
    ensures i == Slot(home, inc, n, d) && Missed(fl, home, inc, keys[..], key, d)
    ensures fl[i] == Empty || (fl[i] == Live && keys[i] == key)
    ensures site == n || (site < n && fl[site] == Deleted && Reachable(fl, home, inc, site))
  {
    hide Slot, IsPow2;
    ghost var stop := ProbeMeetsEmpty(fl, home, inc, free);
    SlotZero(home, inc, n);
    i, site, d := home, n, 0;
    var last := i;
    while !IsEmpty(flags[..], i) && (IsDel(flags[..], i) || keys[i] != key)
      invariant d <= stop && i == Slot(home, inc, n, d)
      invariant Missed(fl, home, inc, keys[..], key, d)
      invariant site == n || (site < n && fl[site] == Deleted && Reachable(fl, home, inc, site))
      decreases stop - d
    {
      if IsDel(flags[..], i) {
        site := i;
        MissedReaches(fl, home, inc, keys[..], key, d);
      }
      SlotNext(home, inc, n, d);
      i := And(i + inc, n - 1);
      d := d + 1;
      if i == last { break; }
    }
  }

  /** The search of kh_put: the key's bucket, else the last deleted bucket passed, else the empty one it ends at. */
  method FindSite<K(==)>(flags: array<Word>, keys: array<K>, ghost fl: seq<Flag>, n: nat, hash: K -> Word, key: K, ghost free: nat)
    returns (x: nat)
    requires IsPow2(n) && |fl| == n && 1 < n <= keys.Length && n <= 16 * flags.Length && fl == View(flags[..], n)
    requires free < n && fl[free] == Empty
    ensures x < n
    ensures fl[x] == Live ==> keys[x] == key
    ensures fl[x] != Live ==> KeyReaches(fl, hash, key, x) && NotFound(fl, hash, keys[..], key)
  {
    hide Slot;
    var mask := n - 1;
    var home := And(hash(key), mask);
    var inc := AcInc(hash(key), mask);
    IncOdd(hash, n, key);
    ghost var d := 0;
    if IsEmpty(flags[..], home) {
      x := home;
      SlotZero(home, inc, n);
    } else {
      var i, site;
      i, site, d := Search(flags, keys, fl, n, key, home, inc, free);
      x := if IsEmpty(flags[..], i) && site != n then site else i;
    }
    MissedReaches(fl, home, inc, keys[..], key, d);
    assert fl[x] != Live ==> fl[Slot(home, inc, n, d)] == Empty;
    assert Missed(fl, Home(hash, n, key), Inc(hash, n, key), keys[..], key, d);
  }

  /** The part of kh_resize between preparing the new flags and installing them. */
  method Rehash<K(0), V(0)>(flags: array<Word>, newFlags: array<Word>, keys: array<K>, vals: array<V>, n: nat, nn: nat,
                            hash: K -> Word, ghost m: map<K, V>)
    returns (newKeys: array<K>, newVals: array<V>)
    requires flags != newFlags && keys as object != vals && keys.Length == vals.Length == n
    requires keys as object != flags && keys as object != newFlags && vals as object != flags && vals as object != newFlags
    requires n <= 16 * flags.Length && nn <= 16 * newFlags.Length && IsPow2(nn) && nn > 1
    requires Clean(flags[..]) && Clean(newFlags[..])
    requires Holds(Lives(View(flags[..], n)), keys[..], vals[..], m)
    requires Count(View(flags[..], n), {Live}) < nn
    requires forall i :: 0 <= i < nn ==> View(newFlags[..], nn)[i] == Empty
    modifies flags, newFlags, keys, vals
    ensures keys as object != vals && newKeys as object != newVals
    ensures newKeys as object != newFlags && newVals as object != newFlags
    ensures (newKeys == keys || fresh(newKeys)) && (newVals == vals || fresh(newVals))
    ensures newKeys.Length == newVals.Length == nn
    ensures Clean(newFlags[..])
    ensures var nfl := View(newFlags[..], nn);
            && Holds(Lives(nfl), newKeys[..], newVals[..], m)
            && ProbeInv(nfl, hash, newKeys[..])
            && Count(nfl, {Live}) == Count(nfl, USED) == old(Count(View(flags[..], n), {Live}))
  {
    hide Holds, ProbeInv, Lives, Occ, View, Clean, Rehashing, IsPow2;
    newKeys, newVals := keys, vals;
    if n < nn {
      newKeys := Realloc(keys, nn);
      newVals := Realloc(vals, nn);
    }
    RehashStart(View(flags[..], n), hash, keys[..], vals[..], m, View(newFlags[..], nn), newKeys[..], newVals[..]);
    CountNone(View(newFlags[..], nn), {Live});
    RehashAll(flags, newFlags, newKeys, newVals, n, nn, hash, m);
    ghost var fl, nfl, ks, vs := View(flags[..], n), View(newFlags[..], nn), newKeys[..], newVals[..];
    if n > nn {
      newKeys := Realloc(newKeys, nn);
      newVals := Realloc(newVals, nn);
    }
    RehashEnd(fl, nfl, hash, ks, vs, m, newKeys[..], newVals[..]);
  }

  class Table<K(0, ==), V(0)> {
    ghost var Contents: map<K, V>

    const hash: K -> Word
    var nBuckets: nat
    var size: nat
    var nOccupied: nat
    var upperBound: nat
    var flags: array<Word>
    var keys: array<K>
    var vals: array<V>

    ghost function Repr(): set<object>
      reads this
    {
      {this, flags, keys, vals}
    }

    /** The flags of the buckets. */
    ghost function Flags(): (fl: seq<Flag>)
      requires nBuckets <= 16 * flags.Length
      reads this, flags
    {
      View(flags[..], nBuckets)
    }

    ghost predicate Shape()
      reads this
    {
      && keys as object != vals && keys as object != flags && vals as object != flags
      && keys.Length == vals.Length == nBuckets
      && nBuckets <= 16 * flags.Length
      && (nBuckets == 0 || (IsPow2(nBuckets) && 4 <= nBuckets <= TWO_TO_THE_31))
    }

    ghost predicate Valid()
      reads this, flags, keys, vals
    {
      && Shape()
      && Clean(flags[..])
      && Holds(Lives(Flags()), keys[..], vals[..], Contents)
      && (nBuckets != 0 ==> ProbeInv(Flags(), hash, keys[..]))
      && size == Count(Flags(), {Live})
      && nOccupied == Count(Flags(), USED)
      && upperBound == UpperBound(nBuckets)
      && nOccupied <= upperBound
    }

    /** kh_init */
    constructor (hash: K -> Word)
      ensures Valid() && Contents == map[] && fresh(Repr()) && this.hash == hash && nBuckets == 0
    {
      this.hash := hash;
      nBuckets, size, nOccupied, upperBound := 0, 0, 0, 0;
      flags, keys, vals := new Word[0], new K[0], new V[0];
      Contents := map[];
    }

    /** The live buckets are as many as the entries, and some bucket is empty. */
    lemma SizeIsCardinality()
      requires Valid()
      ensures size == |Contents|
      ensures nBuckets != 0 ==> nOccupied < nBuckets && exists i :: 0 <= i < nBuckets && Flags()[i] == Empty
    {
      if nBuckets != 0 {
        LiveCount(Flags(), keys[..], vals[..], Contents);
        var i := EmptyBucket();
      }
    }

    lemma EmptyBucket() returns (i: nat)
      requires Valid() && nBuckets != 0
      ensures nOccupied < nBuckets && i < nBuckets && Flags()[i] == Empty
    {
      if forall j :: 0 <= j < nBuckets ==> Flags()[j] != Empty {
        CountAll(Flags(), USED);
      }
      i :| i < nBuckets && Flags()[i] == Empty;
    }

    /** kh_get: the bucket of the key, or n_buckets. */
    method Get(key: K) returns (x: nat)
      requires Valid()
      ensures x <= nBuckets
      ensures x < nBuckets <==> key in Contents
      ensures x < nBuckets ==> Flags()[x] == Live && keys[x] == key && vals[x] == Contents[key]
    {
      if nBuckets == 0 { return 0; }
      ghost var free := EmptyBucket();
      x := Lookup(flags, keys, Flags(), nBuckets, hash, key, free);
      if x == nBuckets {
        NotFoundIsAbsent(Flags(), hash, keys[..], vals[..], Contents, key);
      } else {
        assert Lives(Flags())[x];
      }
    }

    /** The table has claimed its last bucket and cannot double within 32 bits. */
    ghost predicate Exhausted()
      reads this
    {
      nOccupied >= upperBound && nBuckets == TWO_TO_THE_31 && nBuckets <= 2 * size
    }

    /**
      kh_resize: unless the requested size is too small for the entries, the table is rehashed to the
      new size; either way it stands for the same map.
     */
    method Resize(newNBuckets: Word)
      requires Valid()
      modifies Repr()
      ensures Valid() && fresh(Repr() - old(Repr()))
      ensures Contents == old(Contents) && size == old(size)
      ensures size >= UpperBound(NewSize(newNBuckets)) ==> nBuckets == old(nBuckets) && nOccupied == old(nOccupied)
      ensures size < UpperBound(NewSize(newNBuckets)) ==> nBuckets == NewSize(newNBuckets) && nOccupied == size
    {
      hide Holds, ProbeInv, Smear, View, Clean, Lives, IsPow2, UpperBound;
      var nn := KRoundUp32(newNBuckets);
      if nn < 4 { nn := 4; }
      NewSizeIsTable(newNBuckets);
      if size < UpperBound(nn) {
        FSizeCovers(nn);
        UpperBoundBelow(nn);
        var newFlags := new Word[FSize(nn)];
        FillEmpty(newFlags, nn);
        var newKeys, newVals := Rehash(flags, newFlags, keys, vals, nBuckets, nn, hash, Contents);
        Install(newFlags, newKeys, newVals, nn);
      }
    }

    /** The end of kh_resize: the new arrays and the bounds that go with them take their places. */
    method Install(newFlags: array<Word>, newKeys: array<K>, newVals: array<V>, nn: nat)
      requires IsPow2(nn) && 4 <= nn <= TWO_TO_THE_31 && nn <= 16 * newFlags.Length
      requires newKeys as object != newVals && newKeys as object != newFlags && newVals as object != newFlags
      requires newKeys.Length == newVals.Length == nn && Clean(newFlags[..])
      requires Holds(Lives(View(newFlags[..], nn)), newKeys[..], newVals[..], Contents)
      requires ProbeInv(View(newFlags[..], nn), hash, newKeys[..])
      requires size == Count(View(newFlags[..], nn), {Live}) == Count(View(newFlags[..], nn), USED) < UpperBound(nn)
      modifies this
      ensures Valid() && Contents == old(Contents) && size == old(size)
      ensures nBuckets == nn && nOccupied == size && Repr() == {this, newFlags, newKeys, newVals}
    {
      hide Holds, ProbeInv, View, Clean, Lives, IsPow2;
      flags, keys, vals := newFlags, newKeys, newVals;
      nBuckets := nn;
      nOccupied := size;
      upperBound := UpperBound(nBuckets);
    }

    /** Before a new entry is placed kh_put makes sure that a bucket can be claimed. */
    method MakeRoom()
      requires Valid() && !Exhausted()
      modifies Repr()
      ensures Valid() && fresh(Repr() - old(Repr()))
      ensures Contents == old(Contents) && size == old(size)
      ensures nOccupied < upperBound
    {
      hide Holds, ProbeInv, Clean, KRoundUp32, NewSize, IsPow2;
      if nOccupied >= upperBound {
        CountSubset(Flags(), {Live}, USED);
        if nBuckets > 2 * size {
          NewSizeSame(nBuckets);
          Resize(nBuckets - 1);
        } else {
          if nBuckets == 0 { NewSizeOne(); } else { NewSizeDoubles(nBuckets); }
          Resize(nBuckets + 1);
        }
      }
    }

    /** Writing a key into a bucket its probe reached. */
    method Place(key: K, x: nat)
      requires Valid() && nBuckets != 0 && nOccupied < upperBound
      requires x < nBuckets && Flags()[x] != Live && key !in Contents && KeyReaches(Flags(), hash, key, x)
      modifies this, flags, keys
      ensures Valid() && Repr() == old(Repr()) && nBuckets == old(nBuckets)
      ensures Flags()[x] == Live && keys[x] == key && Contents == old(Contents)[key := vals[x]]
    {
      ghost var fl, ks := Flags(), keys[..];
      PlaceKeepsProbeInv(fl, hash, ks, key, x);
      HoldsPut(Lives(fl), ks, vals[..], Contents, x, key, vals[x]);
      CountUpdate(fl, {Live}, x, Live);
      CountUpdate(fl, USED, x, Live);
      if IsEmpty(flags[..], x) { nOccupied := nOccupied + 1; }
      size := size + 1;
      keys[x] := key;
      SetIsBothFalse(flags, x, nBuckets);
      Contents := Contents[key := vals[x]];
      assert Lives(Flags()) == Lives(fl)[x := true];
      assert keys[..] == ks[x := key] && vals[..] == vals[..][x := vals[x]];
    }

    /**
      kh_put: the key's bucket and 0 if it is there, else the bucket the key was written to and 1
      (it was empty) or 2 (it was deleted). The value of a new entry is whatever the bucket held.
     */
    method Put(key: K) returns (x: nat, ret: int)
      requires Valid() && !Exhausted()
      modifies Repr()
      ensures Valid() && fresh(Repr() - old(Repr()))
      ensures x < nBuckets && Flags()[x] == Live && keys[x] == key
      ensures ret == 0 <==> key in old(Contents)
      ensures ret == 0 ==> Contents == old(Contents)
      ensures ret != 0 ==> (ret == 1 || ret == 2) && Contents == old(Contents)[key := vals[x]]
    {
      MakeRoom();
      ghost var free := EmptyBucket();
      x := FindSite(flags, keys, Flags(), nBuckets, hash, key, free);
      if IsEither(flags[..], x) {
        NotFoundIsAbsent(Flags(), hash, keys[..], vals[..], Contents, key);
        ret := if IsEmpty(flags[..], x) then 1 else 2;
        Place(key, x);
      } else {
        assert Lives(Flags())[x];
        ret := 0;
      }
    }

    /** kh_value(h, x) = v */
    method SetVal(x: nat, v: V)
      requires Valid() && x < nBuckets && Flags()[x] == Live
      modifies this`Contents, vals
      ensures Valid() && Repr() == old(Repr()) && nBuckets == old(nBuckets)
      ensures Contents == old(Contents)[keys[x] := v]
    {
      ghost var vs := vals[..];
      assert Lives(Flags())[x];
      HoldsOverwrite(Lives(Flags()), keys[..], vs, Contents, x, v);
      vals[x] := v;
      Contents := Contents[keys[x] := v];
      assert vals[..] == vs[x := v];
    }

    /** kh_del: the entry of a live bucket goes; anything else changes nothing. */
    method Del(x: nat)
      requires Valid() && x <= nBuckets
      modifies this, flags
      ensures Valid() && Repr() == old(Repr()) && nBuckets == old(nBuckets)
      ensures Contents == if x < nBuckets && old(Flags()[x]) == Live then old(Contents) - {old(keys[x])} else old(Contents)
    {
      hide Holds, ProbeInv;
      if x != nBuckets && !IsEither(flags[..], x) {
        ghost var fl := Flags();
        DropKeepsProbeInv(fl, hash, keys[..], x);
        CountUpdate(fl, {Live}, x, Deleted);
        CountUpdate(fl, USED, x, Deleted);
        Contents := DropOne(fl, keys[..], vals[..], Contents, x);
        SetIsDelTrue(flags, x, nBuckets);
        size := size - 1;
      }
    }

    /** kh_clear */
    method Clear()
      requires Valid()
      modifies this, flags
      ensures Valid() && Repr() == old(Repr()) && nBuckets == old(nBuckets)
      ensures Contents == map[] && size == nOccupied == 0
    {
      if nBuckets != 0 {
        FillEmpty(flags, nBuckets);
        CountNone(Flags(), {Live});
        CountNone(Flags(), USED);
      }
      size, nOccupied := 0, 0;
      Contents := map[];
    }
  }
}
