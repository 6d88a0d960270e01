/**
  khash: an open-addressing hash table with double hashing, tombstones and an in-place rehash that
  kicks old elements out of the buckets the new table claims. The class keeps the C structure's
  fields; Contents is the map the table stands for.
 */
module KHash {
  import opened Words
  import opened Probing
  import opened KhFlags

  // ----- tables as values -----

  function Home<K>(hash: K -> Word, n: nat, key: K): (i: nat)
    requires n > 0
    ensures i < n
  {
    And(hash(key), n - 1)
  }

  function Inc<K>(hash: K -> Word, n: nat, key: K): nat
    requires n > 0
  {
    AcInc(hash(key), n - 1)
  }

  /** The first d steps of a probe meet no empty bucket. */
  ghost predicate NoneEmpty(fl: seq<Flag>, home: nat, inc: nat, d: nat)
    requires |fl| > 0
  {
    forall e: nat :: e < d ==> fl[Slot(home, inc, |fl|, e)] != Empty
  }

  /** A probe gets to bucket i. */
  ghost predicate Reachable(fl: seq<Flag>, home: nat, inc: nat, i: nat)
    requires |fl| > 0
  {
    exists d: nat :: Slot(home, inc, |fl|, d) == i && NoneEmpty(fl, home, inc, d)
  }

  /** A probe for the key, from its home, gets to bucket i. */
  ghost predicate KeyReaches<K>(fl: seq<Flag>, hash: K -> Word, key: K, i: nat)
    requires |fl| > 0
  {
    Reachable(fl, Home(hash, |fl|, key), Inc(hash, |fl|, key), i)
  }

  /** The probe invariant: every live bucket is reachable from its key's home. */
  ghost predicate ProbeInv<K>(fl: seq<Flag>, hash: K -> Word, keys: seq<K>)
    requires 0 < |fl| <= |keys|
  {
    forall i: nat :: i < |fl| && fl[i] == Live ==> KeyReaches(fl, hash, keys[i], i)
  }

  /** The occupied positions hold exactly the entries of m, each key once. */
  ghost predicate Holds<K, V>(occ: seq<bool>, keys: seq<K>, vals: seq<V>, m: map<K, V>) {
    && |occ| <= |keys| && |occ| <= |vals|
    && (forall i :: 0 <= i < |occ| && occ[i] ==> keys[i] in m && m[keys[i]] == vals[i])
    && (forall i, j :: 0 <= i < |occ| && 0 <= j < |occ| && occ[i] && occ[j] && keys[i] == keys[j] ==> i == j)
    && (forall k :: k in m ==> exists i :: 0 <= i < |occ| && occ[i] && keys[i] == k)
  }

  ghost function Lives(fl: seq<Flag>): (occ: seq<bool>)
    ensures |occ| == |fl| && forall i :: 0 <= i < |fl| ==> occ[i] == (fl[i] == Live)
  {
    seq(|fl|, i requires 0 <= i < |fl| => fl[i] == Live)
  }

  lemma HoldsUnique<K, V>(occ: seq<bool>, keys: seq<K>, vals: seq<V>, m: map<K, V>, m': map<K, V>)
    requires Holds(occ, keys, vals, m) && Holds(occ, keys, vals, m')
    ensures m == m'
  {
    assert m.Keys == m'.Keys;
  }

  lemma HoldsPut<K, V>(occ: seq<bool>, keys: seq<K>, vals: seq<V>, m: map<K, V>, i: nat, k: K, v: V)
    requires Holds(occ, keys, vals, m) && i < |occ| && !occ[i] && k !in m
    ensures Holds(occ[i := true], keys[i := k], vals[i := v], m[k := v])
  {
    var occ', keys', m' := occ[i := true], keys[i := k], m[k := v];
    forall k' | k' in m'
      ensures exists j :: 0 <= j < |occ'| && occ'[j] && keys'[j] == k'
    {
      if k' == k {
        assert occ'[i] && keys'[i] == k';
      } else {
        var j :| 0 <= j < |occ| && occ[j] && keys[j] == k';
        assert occ'[j] && keys'[j] == k';
      }
    }
  }

  lemma HoldsDrop<K, V>(occ: seq<bool>, keys: seq<K>, vals: seq<V>, m: map<K, V>, i: nat)
    requires Holds(occ, keys, vals, m) && i < |occ| && occ[i]
    ensures Holds(occ[i := false], keys, vals, m - {keys[i]})
  {
    var occ', m' := occ[i := false], m - {keys[i]};
    forall k' | k' in m'
      ensures exists j :: 0 <= j < |occ'| && occ'[j] && keys[j] == k'
    {
      var j :| 0 <= j < |occ| && occ[j] && keys[j] == k';
      assert occ'[j];
    }
  }

  lemma HoldsOverwrite<K, V>(occ: seq<bool>, keys: seq<K>, vals: seq<V>, m: map<K, V>, i: nat, v: V)
    requires Holds(occ, keys, vals, m) && i < |occ| && occ[i]
    ensures Holds(occ, keys, vals[i := v], m[keys[i] := v])
  {
  }

  /** What is stored where nothing lives does not matter. */
  lemma HoldsSame<K, V>(occ: seq<bool>, keys: seq<K>, vals: seq<V>, m: map<K, V>,
                        occ': seq<bool>, keys': seq<K>, vals': seq<V>)
    requires Holds(occ, keys, vals, m) && |occ'| <= |keys'| && |occ'| <= |vals'|
    requires forall i :: 0 <= i < |occ'| && occ'[i] ==> i < |occ| && occ[i] && keys'[i] == keys[i] && vals'[i] == vals[i]
    requires forall i :: 0 <= i < |occ| && occ[i] ==> i < |occ'| && occ'[i]
    ensures Holds(occ', keys', vals', m)
  {
    forall k | k in m
      ensures exists i :: 0 <= i < |occ'| && occ'[i] && keys'[i] == k
    {
      var i :| 0 <= i < |occ| && occ[i] && keys[i] == k;
      assert occ'[i] && keys'[i] == k;
    }
  }

  /** The number of live buckets is the number of entries. */
  lemma {:induction false} LiveCount<K, V>(fl: seq<Flag>, keys: seq<K>, vals: seq<V>, m: map<K, V>)
    requires Holds(Lives(fl), keys, vals, m)
    ensures Count(fl, {Live}) == |m|
    decreases |m|
  {
    if i: nat :| i < |fl| && fl[i] == Live {
      var rest := DropOne(fl, keys, vals, m, i);
      LiveCount(fl[i := Deleted], keys, vals, rest);
      CountUpdate(fl, {Live}, i, Deleted);
    } else {
      CountNone(fl, {Live});
      assert m == map[];
    }
  }

  lemma DropOne<K, V>(fl: seq<Flag>, keys: seq<K>, vals: seq<V>, m: map<K, V>, i: nat) returns (rest: map<K, V>)
    requires Holds(Lives(fl), keys, vals, m) && i < |fl| && fl[i] == Live
    ensures rest == m - {keys[i]} && |m| == |rest| + 1
    ensures Holds(Lives(fl[i := Deleted]), keys, vals, rest)
  {
    var k := keys[i];
    rest := m - {k};
    assert Lives(fl)[i];
    HoldsDrop(Lives(fl), keys, vals, m, i);
    assert k in m;
    assert Lives(fl[i := Deleted]) == Lives(fl)[i := false];
    hide Holds, Lives;
    assert m == rest[k := m[k]];
  }

  // ----- probing -----

  lemma IncOdd<K>(hash: K -> Word, n: nat, key: K)
    requires IsPow2(n) && n > 1
    ensures Inc(hash, n, key) % 2 == 1
  {
    AcIncOdd(hash(key), n - 1);
  }

  /** As long as some bucket is empty, every probe meets one before it returns to its start. */
  lemma ProbeMeetsEmpty(fl: seq<Flag>, home: nat, inc: nat, i: nat) returns (d: nat)
    requires IsPow2(|fl|) && inc % 2 == 1 && home < |fl| && i < |fl| && fl[i] == Empty
    ensures d < |fl| && fl[Slot(home, inc, |fl|, d)] == Empty
    ensures forall e: nat :: 0 < e <= d ==> Slot(home, inc, |fl|, e) != home
  {
    var n := |fl|;
    d := ProbeVisitsAll(home, inc, n, i);
    SlotZero(home, inc, n);
    forall e: nat | 0 < e <= d
      ensures Slot(home, inc, n, e) != home
    {
      SlotsDistinct(home, inc, n, 0, e);
    }
  }

  /** The first d steps of a probe meet neither an empty bucket nor the key. */
  ghost predicate Missed<K>(fl: seq<Flag>, home: nat, inc: nat, keys: seq<K>, key: K, d: nat)
    requires 0 < |fl| <= |keys|
  {
    forall e: nat :: e < d ==>
      var i := Slot(home, inc, |fl|, e); fl[i] != Empty && (fl[i] == Live ==> keys[i] != key)
  }

  lemma MissedReaches<K>(fl: seq<Flag>, home: nat, inc: nat, keys: seq<K>, key: K, d: nat)
    requires 0 < |fl| <= |keys| && Missed(fl, home, inc, keys, key, d)
    ensures Reachable(fl, home, inc, Slot(home, inc, |fl|, d))
  {
    assert NoneEmpty(fl, home, inc, d);
  }

  /** A probe for the key has missed it and stands at an empty bucket. */
  ghost predicate NotFound<K>(fl: seq<Flag>, hash: K -> Word, keys: seq<K>, key: K)
    requires 0 < |fl| <= |keys|
  {
    exists d: nat ::
      && Missed(fl, Home(hash, |fl|, key), Inc(hash, |fl|, key), keys, key, d)
      && fl[Slot(Home(hash, |fl|, key), Inc(hash, |fl|, key), |fl|, d)] == Empty
  }

  /** Then the key is nowhere. */
  lemma NotFoundIsAbsent<K, V>(fl: seq<Flag>, hash: K -> Word, keys: seq<K>, vals: seq<V>, m: map<K, V>, key: K)
    requires 0 < |fl| <= |keys| && ProbeInv(fl, hash, keys) && Holds(Lives(fl), keys, vals, m)
    requires NotFound(fl, hash, keys, key)
    ensures key !in m
  {
    forall i: nat | i < |fl| && fl[i] == Live
      ensures keys[i] != key
    {
      assert KeyReaches(fl, hash, keys[i], i);
    }
  }

  /** Making buckets non-empty keeps every reachable bucket reachable. */
  lemma ReachMonotone(fl: seq<Flag>, fl': seq<Flag>, home: nat, inc: nat, i: nat)
    requires 0 < |fl| == |fl'| && Reachable(fl, home, inc, i)
    requires forall j :: 0 <= j < |fl| && fl[j] != Empty ==> fl'[j] != Empty
    ensures Reachable(fl', home, inc, i)
  {
    var d: nat :| Slot(home, inc, |fl|, d) == i && NoneEmpty(fl, home, inc, d);
    assert NoneEmpty(fl', home, inc, d);
  }

  /** Placing a key where its probe arrived keeps the probe invariant. */
  lemma PlaceKeepsProbeInv<K>(fl: seq<Flag>, hash: K -> Word, keys: seq<K>, key: K, i: nat)
    requires 0 < |fl| <= |keys| && ProbeInv(fl, hash, keys) && i < |fl| && fl[i] != Live
    requires KeyReaches(fl, hash, key, i)
    ensures ProbeInv(fl[i := Live], hash, keys[i := key])
  {
    var fl', keys', n := fl[i := Live], keys[i := key], |fl|;
    forall j: nat | j < |fl'| && fl'[j] == Live
      ensures KeyReaches(fl', hash, keys'[j], j)
    {
      assert KeyReaches(fl, hash, keys'[j], j);
      ReachMonotone(fl, fl', Home(hash, n, keys'[j]), Inc(hash, n, keys'[j]), j);
    }
  }

  lemma DropKeepsProbeInv<K>(fl: seq<Flag>, hash: K -> Word, keys: seq<K>, i: nat)
    requires 0 < |fl| <= |keys| && ProbeInv(fl, hash, keys) && i < |fl| && fl[i] == Live
    ensures ProbeInv(fl[i := Deleted], hash, keys)
  {
    var fl', n := fl[i := Deleted], |fl|;
    forall j: nat | j < |fl'| && fl'[j] == Live
      ensures KeyReaches(fl', hash, keys[j], j)
    {
      assert KeyReaches(fl, hash, keys[j], j);
      ReachMonotone(fl, fl', Home(hash, n, keys[j]), Inc(hash, n, keys[j]), j);
    }
  }

  // ----- sizes -----

  const USED: set<Flag> := {Live, Deleted}

  /** (khint_t)(n * 0.77 + 0.5) */
  function UpperBound(n: nat): nat {
    (77 * n + 50) / 100
  }

  /** upper_bound is n_buckets * 0.77 + 0.5 without its fraction. */
  lemma UpperBoundIs(n: nat)
    ensures UpperBound(n) == (n as real * 0.77 + 0.5).Floor
  {
    var x := n as real * 0.77 + 0.5;
    assert 100.0 * x == (77 * n + 50) as real;
  }

  lemma UpperBoundBelow(n: nat)
    ensures n >= 4 ==> UpperBound(n) < n
  {
  }

  /** The bucket count kh_resize works with when asked for x buckets. */
  function NewSize(x: Word): nat {
    var r := KRoundUp32(x);
    if r < 4 then 4 else r
  }

  lemma NewSizeIsTable(x: Word)
    ensures IsPow2(NewSize(x)) && 4 <= NewSize(x) <= TWO_TO_THE_31
    ensures x <= TWO_TO_THE_31 ==> NewSize(x) >= x
  {
    KRoundUp32Correct(x);
    assert IsPow2(4);
  }

  /** Asking for one bucket less keeps the table's size. */
  lemma NewSizeSame(n: nat)
    requires IsPow2(n) && 4 <= n <= TWO_TO_THE_31
    ensures NewSize(n - 1) == n
  {
    hide NewSize, IsPow2, KRoundUp32;
    NewSizeIs(n - 1, n);
  }

  lemma NewSizeOne()
    ensures NewSize(1) == 4
  {
    KRoundUp32Correct(1);
    assert IsPow2(1);
  }

  /** Asking for one bucket more doubles it. */
  lemma NewSizeDoubles(n: nat)
    requires IsPow2(n) && 4 <= n < TWO_TO_THE_31
    ensures 2 * n <= TWO_TO_THE_31 && NewSize(n + 1) == 2 * n
  {
    Pow2Gap31(n);
    NewSizeIs(n + 1, 2 * n);
  }

  lemma NewSizeIs(x: Word, n: nat)
    requires IsPow2(n) && 1 <= x <= n < 2 * x && 4 <= n <= TWO_TO_THE_31
    ensures NewSize(x) == n
  {
    KRoundUp32Correct(x);
    DistinctPow2(KRoundUp32(x), n);
  }

  lemma {:induction false} Pow2Gap31(n: nat)
    requires IsPow2(n) && 4 <= n < TWO_TO_THE_31
    ensures IsPow2(2 * n) && 2 * n <= TWO_TO_THE_31
  {
    var e := Log2(n);
    Pow2At31();
    if e >= 31 { Pow2Monotone(31, e); }
    Pow2Monotone(e + 1, 31);
  }

  /** Powers of two less than a factor of two apart are equal. */
  lemma {:induction false} DistinctPow2(a: nat, b: nat)
    requires IsPow2(a) && IsPow2(b) && a <= b < 2 * a
    ensures a == b
  {
    if a > 1 { DistinctPow2(a / 2, b / 2); }
  }

  // ----- the rehash as a relation on values -----

  ghost function Occ(fl: seq<Flag>, nfl: seq<Flag>, len: nat): (occ: seq<bool>)
    ensures |occ| == len
    ensures forall i :: 0 <= i < len ==> occ[i] == ((i < |fl| && fl[i] == Live) || (i < |nfl| && nfl[i] == Live))
  {
    seq(len, i requires 0 <= i < len => (i < |fl| && fl[i] == Live) || (i < |nfl| && nfl[i] == Live))
  }

  /**
    In the middle of a rehash: a bucket still live under the old flags and a bucket claimed under
    the new ones never coincide, together they hold the entries of rest, and the claimed ones
    satisfy the probe invariant of the new table.
   */
  ghost predicate Rehashing<K, V>(fl: seq<Flag>, nfl: seq<Flag>, hash: K -> Word, keys: seq<K>, vals: seq<V>, rest: map<K, V>) {
    && 0 < |nfl| <= |keys| && |fl| <= |keys| == |vals|
    && (forall i :: 0 <= i < |fl| && i < |nfl| && fl[i] == Live ==> nfl[i] != Live)
    && (forall i :: 0 <= i < |nfl| ==> nfl[i] != Deleted)
    && Holds(Occ(fl, nfl, |keys|), keys, vals, rest)
    && ProbeInv(nfl, hash, keys)
  }

  /** Picking up a live bucket leaves the others. */
  lemma PickUp<K, V>(fl: seq<Flag>, nfl: seq<Flag>, hash: K -> Word, keys: seq<K>, vals: seq<V>, m: map<K, V>, j: nat)
    returns (rest: map<K, V>)
    requires Rehashing(fl, nfl, hash, keys, vals, m) && j < |fl| && fl[j] == Live
    ensures Rehashing(fl[j := Deleted], nfl, hash, keys, vals, rest)
    ensures keys[j] !in rest && m == rest[keys[j] := vals[j]]
  {
    var occ := Occ(fl, nfl, |keys|);
    rest := m - {keys[j]};
    HoldsDrop(occ, keys, vals, m, j);
    assert Occ(fl[j := Deleted], nfl, |keys|) == occ[j := false];
  }

  /** Writing the element in hand into a claimed bucket that held nothing ends the kick-out loop. */
  lemma Settle<K, V>(fl: seq<Flag>, nfl: seq<Flag>, hash: K -> Word, keys: seq<K>, vals: seq<V>, rest: map<K, V>,
                     key: K, val: V, i: nat)
    requires Rehashing(fl, nfl, hash, keys, vals, rest) && key !in rest
    requires i < |nfl| && nfl[i] == Empty && KeyReaches(nfl, hash, key, i)
    requires i < |fl| ==> fl[i] != Live
    ensures Rehashing(fl, nfl[i := Live], hash, keys[i := key], vals[i := val], rest[key := val])
  {
    var occ := Occ(fl, nfl, |keys|);
    HoldsPut(occ, keys, vals, rest, i, key, val);
    assert Occ(fl, nfl[i := Live], |keys|) == occ[i := true];
    PlaceKeepsProbeInv(nfl, hash, keys, key, i);
  }

  /** Exchanging the element in hand for the live one in the claimed bucket loses nothing. */
  lemma Kick<K, V>(fl: seq<Flag>, nfl: seq<Flag>, hash: K -> Word, keys: seq<K>, vals: seq<V>, rest: map<K, V>,
                   key: K, val: V, i: nat) returns (rest': map<K, V>)
    requires Rehashing(fl, nfl, hash, keys, vals, rest) && key !in rest
    requires i < |nfl| && nfl[i] == Empty && KeyReaches(nfl, hash, key, i)
    requires i < |fl| && fl[i] == Live
    ensures Rehashing(fl[i := Deleted], nfl[i := Live], hash, keys[i := key], vals[i := val], rest')
    ensures keys[i] !in rest' && rest[key := val] == rest'[keys[i] := vals[i]]
  {
    var others := PickUp(fl, nfl, hash, keys, vals, rest, i);
    Settle(fl[i := Deleted], nfl, hash, keys, vals, others, key, val, i);
    rest' := others[key := val];
  }

  lemma SomeEmpty(nfl: seq<Flag>) returns (i: nat)
    requires Count(nfl, {Live}) < |nfl| && forall j :: 0 <= j < |nfl| ==> nfl[j] != Deleted
    ensures i < |nfl| && nfl[i] == Empty
  {
    if forall j :: 0 <= j < |nfl| ==> nfl[j] == Live {
      CountAll(nfl, {Live});
    }
    i :| i < |nfl| && nfl[i] != Live;
  }

  // ----- the rehash on arrays -----

  /** `while (!isempty(new_flags, i)) i = (i + inc) & new_mask;` */
  method FindFree<K>(newFlags: array<Word>, ghost nfl: seq<Flag>, nn: nat, hash: K -> Word, key: K) returns (i: nat)
    requires IsPow2(nn) && nn > 1 && nn <= 16 * newFlags.Length && nfl == View(newFlags[..], nn)
    requires Count(nfl, {Live}) < nn && forall j :: 0 <= j < nn ==> nfl[j] != Deleted
    ensures i < nn && nfl[i] == Empty && KeyReaches(nfl, hash, key, i)
  {
    var inc := AcInc(hash(key), nn - 1);
    i := And(hash(key), nn - 1);
    ghost var home, d := i, 0;
    ghost var free := SomeEmpty(nfl);
    IncOdd(hash, nn, key);
    ghost var stop := ProbeMeetsEmpty(nfl, home, inc, free);
    SlotZero(home, inc, nn);
    while !IsEmpty(newFlags[..], i)
      invariant d <= stop && i == Slot(home, inc, nn, d)
      invariant NoneEmpty(nfl, home, inc, d)
      decreases stop - d
    {
      SlotNext(home, inc, nn, d);
      i := And(i + inc, nn - 1);
      d := d + 1;
    }
  }

  /** What the rehash loops need of the four arrays they work on. */
  ghost predicate Workspace<K, V>(flags: array<Word>, newFlags: array<Word>, keys: array<K>, vals: array<V>, n: nat, nn: nat)
    reads flags, newFlags
  {
    && flags != newFlags && keys as object != vals
    && keys as object != flags && keys as object != newFlags && vals as object != flags && vals as object != newFlags
    && n <= 16 * flags.Length && nn <= 16 * newFlags.Length && IsPow2(nn) && nn > 1
    && n <= keys.Length == vals.Length && nn <= keys.Length
    && Clean(flags[..]) && Clean(newFlags[..])
  }

  ghost function Total(fl: seq<Flag>, nfl: seq<Flag>): nat {
    Count(fl, {Live}) + Count(nfl, {Live})
  }

  ghost predicate FewerLive(fl: seq<Flag>, fl': seq<Flag>) {
    |fl| == |fl'| && forall i :: 0 <= i < |fl| && fl'[i] == Live ==> fl[i] == Live
  }

  /** One pass of the kick-out loop, for the element in hand (key, val); done tells whether it breaks. */
  method KickOnce<K, V>(flags: array<Word>, newFlags: array<Word>, keys: array<K>, vals: array<V>, n: nat, nn: nat,
                        hash: K -> Word, key: K, val: V, ghost rest: map<K, V>)
    returns (done: bool, key': K, val': V, ghost rest': map<K, V>)
    requires Workspace(flags, newFlags, keys, vals, n, nn)
    requires Rehashing(View(flags[..], n), View(newFlags[..], nn), hash, keys[..], vals[..], rest) && key !in rest
    requires Total(View(flags[..], n), View(newFlags[..], nn)) < nn
    modifies flags, newFlags, keys, vals
    ensures Workspace(flags, newFlags, keys, vals, n, nn)
    ensures Rehashing(View(flags[..], n), View(newFlags[..], nn), hash, keys[..], vals[..], rest')
    ensures done ==> rest' == rest[key := val]
    ensures !done ==> key' !in rest' && rest'[key' := val'] == rest[key := val]
    ensures FewerLive(old(View(flags[..], n)), View(flags[..], n))
    ensures done ==> View(flags[..], n) == old(View(flags[..], n))
    ensures !done ==> Count(View(flags[..], n), {Live}) < old(Count(View(flags[..], n), {Live}))
    ensures Total(View(flags[..], n), View(newFlags[..], nn))
         == old(Total(View(flags[..], n), View(newFlags[..], nn))) + if done then 1 else 0
  {
    hide Holds, ProbeInv, KeyReaches, IsPow2;
    ghost var fl, nfl := View(flags[..], n), View(newFlags[..], nn);
    ghost var ks, vs := keys[..], vals[..];
    var i := FindFree(newFlags, nfl, nn, hash, key);
    SetIsEmptyFalse(newFlags, i, nn);
    CountUpdate(nfl, {Live}, i, Live);
    key', val' := key, val;
    if i < n && !IsEither(flags[..], i) {
      rest' := Kick(fl, nfl, hash, ks, vs, rest, key, val, i);
      key', keys[i] := keys[i], key;
      val', vals[i] := vals[i], val;
      SetIsDelTrue(flags, i, n);
      CountUpdate(fl, {Live}, i, Deleted);
      done := false;
    } else {
      Settle(fl, nfl, hash, ks, vs, rest, key, val, i);
      rest' := rest[key := val];
      keys[i] := key;
      vals[i] := val;
      done := true;
    }
    assert keys[..] == ks[i := key];
    assert vals[..] == vs[i := val];
  }

  /** The kick-out loop: place (key, val) in the new table, then whatever it displaced, until a bucket is free. */
  method KickOut<K, V>(flags: array<Word>, newFlags: array<Word>, keys: array<K>, vals: array<V>, n: nat, nn: nat,
                       hash: K -> Word, firstKey: K, firstVal: V, ghost firstRest: map<K, V>)
    requires Workspace(flags, newFlags, keys, vals, n, nn)
    requires Rehashing(View(flags[..], n), View(newFlags[..], nn), hash, keys[..], vals[..], firstRest)
    requires firstKey !in firstRest
    requires Total(View(flags[..], n), View(newFlags[..], nn)) < nn
    modifies flags, newFlags, keys, vals
    ensures Workspace(flags, newFlags, keys, vals, n, nn)
    ensures Rehashing(View(flags[..], n), View(newFlags[..], nn), hash, keys[..], vals[..], firstRest[firstKey := firstVal])
    ensures FewerLive(old(View(flags[..], n)), View(flags[..], n))
    ensures Total(View(flags[..], n), View(newFlags[..], nn)) == old(Total(View(flags[..], n), View(newFlags[..], nn))) + 1
  {
    var key, val := firstKey, firstVal;
    ghost var rest := firstRest;
    var done := false;
    while !done
      invariant Workspace(flags, newFlags, keys, vals, n, nn)
      invariant Rehashing(View(flags[..], n), View(newFlags[..], nn), hash, keys[..], vals[..], rest)
      invariant !done ==> key !in rest && rest[key := val] == firstRest[firstKey := firstVal]
      invariant done ==> rest == firstRest[firstKey := firstVal]
      invariant FewerLive(old(View(flags[..], n)), View(flags[..], n))
      invariant Total(View(flags[..], n), View(newFlags[..], nn))
             == old(Total(View(flags[..], n), View(newFlags[..], nn))) + if done then 1 else 0
      decreases Count(View(flags[..], n), {Live}), !done
    {
      done, key, val, rest := KickOnce(flags, newFlags, keys, vals, n, nn, hash, key, val, rest);
    }
  }

  /** The outer loop of kh_resize: every live element is taken from the old table and placed in the new one. */
  method RehashAll<K, V>(flags: array<Word>, newFlags: array<Word>, keys: array<K>, vals: array<V>, n: nat, nn: nat,
                         hash: K -> Word, ghost m: map<K, V>)
    requires Workspace(flags, newFlags, keys, vals, n, nn)
    requires Rehashing(View(flags[..], n), View(newFlags[..], nn), hash, keys[..], vals[..], m)
    requires Total(View(flags[..], n), View(newFlags[..], nn)) < nn
    modifies flags, newFlags, keys, vals
    ensures Workspace(flags, newFlags, keys, vals, n, nn)
    ensures Rehashing(View(flags[..], n), View(newFlags[..], nn), hash, keys[..], vals[..], m)
    ensures forall i :: 0 <= i < n ==> View(flags[..], n)[i] != Live
    ensures Total(View(flags[..], n), View(newFlags[..], nn)) == old(Total(View(flags[..], n), View(newFlags[..], nn)))
  {
    hide Rehashing, IsPow2, Reachable;
    var j := 0;
    while j != n
      invariant j <= n
      invariant Workspace(flags, newFlags, keys, vals, n, nn)
      invariant Rehashing(View(flags[..], n), View(newFlags[..], nn), hash, keys[..], vals[..], m)
      invariant forall i :: 0 <= i < j ==> View(flags[..], n)[i] != Live
      invariant Total(View(flags[..], n), View(newFlags[..], nn)) == old(Total(View(flags[..], n), View(newFlags[..], nn)))
    {
      if !IsEither(flags[..], j) {
        ghost var fl := View(flags[..], n);
        var key, val := keys[j], vals[j];
        ghost var rest := PickUp(fl, View(newFlags[..], nn), hash, keys[..], vals[..], m, j);
        SetIsDelTrue(flags, j, n);
        CountUpdate(fl, {Live}, j, Deleted);
        KickOut(flags, newFlags, keys, vals, n, nn, hash, key, val, rest);
      }
      j := j + 1;
    }
  }

  lemma RehashStart<K, V>(fl: seq<Flag>, hash: K -> Word, keys: seq<K>, vals: seq<V>, m: map<K, V>,
                          nfl: seq<Flag>, keys': seq<K>, vals': seq<V>)
    requires Holds(Lives(fl), keys, vals, m) && |fl| <= |keys| == |vals|
    requires forall i :: 0 <= i < |nfl| ==> nfl[i] == Empty
    requires 0 < |nfl| <= |keys'| == |vals'| && |fl| <= |keys'|
    requires forall i :: 0 <= i < |fl| ==> keys'[i] == keys[i] && vals'[i] == vals[i]
    ensures Rehashing(fl, nfl, hash, keys', vals', m)
  {
    hide Holds, KeyReaches, Occ, Lives;
    var occ, occ' := Lives(fl), Occ(fl, nfl, |keys'|);
    HoldsSame(occ, keys, vals, m, occ', keys', vals');
  }

  lemma RehashEnd<K, V>(fl: seq<Flag>, nfl: seq<Flag>, hash: K -> Word, keys: seq<K>, vals: seq<V>, m: map<K, V>,
                        keys': seq<K>, vals': seq<V>)
    requires Rehashing(fl, nfl, hash, keys, vals, m)
    requires forall i :: 0 <= i < |fl| ==> fl[i] != Live
    requires |keys'| == |vals'| == |nfl|
    requires forall i :: 0 <= i < |nfl| ==> keys'[i] == keys[i] && vals'[i] == vals[i]
    ensures Holds(Lives(nfl), keys', vals', m)
    ensures ProbeInv(nfl, hash, keys')
    ensures Count(nfl, {Live}) == Count(nfl, USED) == Total(fl, nfl)
  {
    HoldsSame(Occ(fl, nfl, |keys|), keys, vals, m, Lives(nfl), keys', vals');
    CountNone(fl, {Live});
    CountLiveIsUsed(nfl);
    forall i: nat | i < |nfl| && nfl[i] == Live
      ensures KeyReaches(nfl, hash, keys'[i], i)
    {
      assert KeyReaches(nfl, hash, keys[i], i);
    }
  }

  lemma {:induction false} CountLiveIsUsed(fl: seq<Flag>)
    requires forall i :: 0 <= i < |fl| ==> fl[i] != Deleted
    ensures Count(fl, {Live}) == Count(fl, USED)
  {
    if fl != [] { CountLiveIsUsed(fl[1..]); }
  }
}
