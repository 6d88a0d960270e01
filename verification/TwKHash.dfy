/**
  TW_KHash_32: the owning wrapper of the hash table, its iterator, and whole runs of operations
  against a plain map.
 */
module TwKHash {
  import opened Words
  import opened KhFlags
  import opened KHash
  import opened KHashTable
  import opened Options

  class Wrapper<K(0, ==), V(0)> {
    const table: Table<K, V>

    ghost function Repr(): set<object>
      reads this, table
    {
      table.Repr() + {this}
    }

    ghost predicate Valid()
      reads this, table, table.Repr()
    {
      this !in table.Repr() && table.Valid()
    }

    ghost function Contents(): map<K, V>
      reads table
    {
      table.Contents
    }

    constructor (hash: K -> Word, items: Word)
      ensures Valid() && fresh(Repr()) && Contents() == map[]
    {
      var t := new Table<K, V>(hash);
      if items > 0 { t.Resize(items); }
      table := t;
    }

    method Size() returns (n: nat)
      requires Valid()
      ensures n == |Contents()|
    {
      table.SizeIsCardinality();
      n := table.size;
    }

    /** addReplace: the key now has this value. */
    method AddReplace(key: K, dat: V)
      requires Valid() && !table.Exhausted()
      modifies table.Repr()
      ensures Valid() && fresh(Repr() - old(Repr()))
      ensures Contents() == old(Contents())[key := dat]
    {
      hide Holds, ProbeInv, Lives, Clean, View, IsPow2;
      var k := table.Get(key);
      if k == table.nBuckets {
        var r;
        k, r := table.Put(key);
      }
      table.SetVal(k, dat);
    }

    /** addNoreplace: the key gets this value unless it already has one. */
    method AddNoReplace(key: K, dat: V) returns (added: bool)
      requires Valid() && !table.Exhausted()
      modifies table.Repr()
      ensures Valid() && fresh(Repr() - old(Repr()))
      ensures added <==> key !in old(Contents())
      ensures Contents() == if added then old(Contents())[key := dat] else old(Contents())
    {
      hide Holds, ProbeInv, Lives, Clean, View, IsPow2;
      var k := table.Get(key);
      added := k == table.nBuckets;
      if added {
        var r;
        k, r := table.Put(key);
        table.SetVal(k, dat);
      }
    }

    method Find(key: K) returns (found: Option<V>)
      requires Valid()
      ensures found == if key in Contents() then Some(Contents()[key]) else None
    {
      hide Holds, ProbeInv, Lives, Clean, View, IsPow2;
      var k := table.Get(key);
      found := if k != table.nBuckets then Some(table.vals[k]) else None;
    }

    /** remove, with the value the key had. */
    method Remove(key: K) returns (removed: Option<V>)
      requires Valid()
      modifies table.Repr()
      ensures Valid() && Repr() == old(Repr())
      ensures removed == if key in old(Contents()) then Some(old(Contents())[key]) else None
      ensures Contents() == old(Contents()) - {key}
    {
      hide Holds, ProbeInv, Lives, Clean, View, IsPow2;
      var k := table.Get(key);
      if k != table.nBuckets {
        removed := Some(table.vals[k]);
        table.Del(k);
      } else {
        removed := None;
      }
    }

    method RemoveAll()
      requires Valid()
      modifies table.Repr()
      ensures Valid() && Repr() == old(Repr())
      ensures Contents() == map[]
    {
      table.Clear();
    }
  }

  // ----- whole runs -----

  datatype Op<K, V> =
    | OpAddReplace(key: K, dat: V)
    | OpAddNoReplace(key: K, dat: V)
    | OpFind(key: K)
    | OpRemove(key: K)
    | OpRemoveAll

  /** What an operation does to a map, and what it answers. */
  function Apply<K, V>(m: map<K, V>, op: Op<K, V>): (r: (map<K, V>, Option<V>)) {
    match op
    case OpAddReplace(k, v) => (m[k := v], None)
    case OpAddNoReplace(k, v) => (if k in m then m else m[k := v], None)
    case OpFind(k) => (m, if k in m then Some(m[k]) else None)
    case OpRemove(k) => (m - {k}, if k in m then Some(m[k]) else None)
    case OpRemoveAll => (map[], None)
  }

  function ApplyAll<K, V>(m: map<K, V>, ops: seq<Op<K, V>>): (r: (map<K, V>, seq<Option<V>>)) {
    if ops == [] then (m, [])
    else
      var (m1, replies) := ApplyAll(m, ops[..|ops| - 1]);
      var (m2, reply) := Apply(m1, ops[|ops| - 1]);
      (m2, replies + [reply])
  }

  lemma ApplyAllNext<K, V>(m: map<K, V>, ops: seq<Op<K, V>>, i: nat)
    requires i < |ops|
    ensures var (m1, replies) := ApplyAll(m, ops[..i]);
            var (m2, reply) := Apply(m1, ops[i]);
            ApplyAll(m, ops[..i + 1]) == (m2, replies + [reply])
  {
    assert ops[..i + 1][..i] == ops[..i];
  }

  lemma ApplyNone<K, V>(m: map<K, V>, ops: seq<Op<K, V>>)
    ensures ApplyAll(m, ops[..0]) == (m, [])
  {
  }

  lemma ApplyGrowsByOne<K, V>(m: map<K, V>, op: Op<K, V>)
    ensures |Apply(m, op).0| <= |m| + if Adds(op) then 1 else 0
  {
    match op
    case OpAddReplace(k, v) => MapPutSize(m, k, v);
    case OpAddNoReplace(k, v) => MapPutSize(m, k, v);
    case OpFind(k) =>
    case OpRemove(k) => MapDropSize(m, k);
    case OpRemoveAll =>
  }

  lemma MapPutSize<K, V>(m: map<K, V>, k: K, v: V)
    ensures |m[k := v]| <= |m| + 1
  {
    assert m[k := v].Keys == m.Keys + {k};
  }

  lemma MapDropSize<K, V>(m: map<K, V>, k: K)
    ensures |m - {k}| <= |m|
  {
    assert (m - {k}).Keys + {k} >= m.Keys;
    assert (m - {k}).Keys <= m.Keys;
    SubsetSize((m - {k}).Keys, m.Keys);
  }

  lemma SubsetSize<T>(a: set<T>, b: set<T>)
    requires a <= b
    ensures |a| <= |b|
  {
    assert b == a + (b - a);
  }

  const MAX_ENTRIES: nat := 0x4000_0000

  predicate Adds<K, V>(op: Op<K, V>) {
    op.OpAddReplace? || op.OpAddNoReplace?
  }

  /** Whenever the run comes to an add, the map is below the bound that 32-bit bucket counts impose. */
  ghost predicate StaysSmall<K, V>(m: map<K, V>, ops: seq<Op<K, V>>) {
    forall i :: 0 <= i < |ops| && Adds(ops[i]) ==> |ApplyAll(m, ops[..i]).0| < MAX_ENTRIES
  }

  function CountAdds<K, V>(ops: seq<Op<K, V>>): nat {
    if ops == [] then 0 else CountAdds(ops[..|ops| - 1]) + if Adds(ops[|ops| - 1]) then 1 else 0
  }

  lemma {:induction false} GrowsByAdds<K, V>(m: map<K, V>, ops: seq<Op<K, V>>)
    ensures |ApplyAll(m, ops).0| <= |m| + CountAdds(ops)
  {
    if ops != [] {
      GrowsByAdds(m, ops[..|ops| - 1]);
      ApplyGrowsByOne(ApplyAll(m, ops[..|ops| - 1]).0, ops[|ops| - 1]);
      hide Apply;
    }
  }

  lemma {:induction false} AddCounts<K, V>(ops: seq<Op<K, V>>, i: nat)
    requires i < |ops| && Adds(ops[i])
    ensures CountAdds(ops[..i]) < CountAdds(ops)
  {
    if i < |ops| - 1 {
      assert ops[..|ops| - 1][..i] == ops[..i];
      AddCounts(ops[..|ops| - 1], i);
    }
  }

  /** Only adds count: finds and removals, however many, use up none of the bound. */
  lemma FewAdds<K, V>(m: map<K, V>, ops: seq<Op<K, V>>)
    ensures |ApplyAll(m, ops).0| <= |m| + CountAdds(ops)
    ensures |m| + CountAdds(ops) <= MAX_ENTRIES ==> StaysSmall(m, ops)
  {
    hide ApplyAll, CountAdds, Adds;
    GrowsByAdds(m, ops);
    forall i | 0 <= i < |ops| && Adds(ops[i]) && |m| + CountAdds(ops) <= MAX_ENTRIES
      ensures |ApplyAll(m, ops[..i]).0| < MAX_ENTRIES
    {
      GrowsByAdds(m, ops[..i]);
      AddCounts(ops, i);
    }
  }

  /** Any run of operations answers and ends exactly as the same run on a map. */
  method Run<K(0, ==), V(0)>(w: Wrapper<K, V>, ops: seq<Op<K, V>>) returns (replies: seq<Option<V>>)
    requires w.Valid() && StaysSmall(w.Contents(), ops)
    modifies w.table.Repr()
    ensures w.Valid()
    ensures (w.Contents(), replies) == ApplyAll(old(w.Contents()), ops)
  {
    hide Holds, ProbeInv, Lives, Clean, View, IsPow2, Apply, ApplyAll;
    replies := [];
    ApplyNone(w.Contents(), ops);
    for i := 0 to |ops|
      invariant w.Valid() && fresh(w.Repr() - old(w.Repr()))
      invariant (w.Contents(), replies) == ApplyAll(old(w.Contents()), ops[..i])
    {
      ApplyAllNext(old(w.Contents()), ops, i);
      w.table.SizeIsCardinality();
      var reply := Perform(w, ops[i]);
      replies := replies + [reply];
    }
    assert ops[..|ops|] == ops;
  }

  method Perform<K(0, ==), V(0)>(w: Wrapper<K, V>, op: Op<K, V>) returns (reply: Option<V>)
    requires w.Valid() && (Adds(op) ==> !w.table.Exhausted())
    modifies w.table.Repr()
    ensures w.Valid() && fresh(w.Repr() - old(w.Repr()))
    ensures (w.Contents(), reply) == Apply(old(w.Contents()), op)
  {
    reply := None;
    match op {
      case OpAddReplace(k, v) => w.AddReplace(k, v);
      case OpAddNoReplace(k, v) => var added := w.AddNoReplace(k, v);
      case OpFind(k) => reply := w.Find(k);
      case OpRemove(k) => reply := w.Remove(k);
      case OpRemoveAll => w.RemoveAll();
    }
  }

  // ----- the iterator -----

  class HashIterator<K(0, ==), V(0)> {
    const map_: Table<K, V>
    var iter: nat

    /** Every bucket from a up to b is not live. */
    ghost predicate NoneLive(a: nat, b: nat)
      requires map_.nBuckets <= 16 * map_.flags.Length && b <= map_.nBuckets
      reads this, map_, map_.flags
    {
      forall i :: a <= i < b ==> map_.Flags()[i] != Live
    }

    ghost predicate Valid()
      reads this, map_, map_.Repr()
    {
      && this !in map_.Repr() && map_.Valid() && iter <= map_.nBuckets
      && (iter < map_.nBuckets ==> map_.Flags()[iter] == Live)
    }

    /** The iterator starts at the first live bucket (gotoStart). */
    constructor (t: Table<K, V>)
      requires t.Valid()
      ensures Valid() && map_ == t && fresh(this)
      ensures NoneLive(0, iter)
    {
      map_ := t;
      var i := 0;
      while i != t.nBuckets && !Exists(t, i)
        invariant i <= t.nBuckets
        invariant forall j :: 0 <= j < i ==> t.Flags()[j] != Live
      {
        i := i + 1;
      }
      iter := i;
    }

    /** kh_exist */
    static predicate Exists(t: Table<K, V>, i: nat)
      requires i < t.nBuckets <= 16 * t.flags.Length
      reads t, t.flags
    {
      !IsEither(t.flags[..], i)
    }

    /** getNext: on to the next live bucket; false at the end. */
    method GetNext() returns (more: bool)
      requires Valid()
      modifies this
      ensures Valid() && (more <==> iter < map_.nBuckets)
      ensures old(iter) == map_.nBuckets ==> iter == old(iter)
      ensures old(iter) < map_.nBuckets ==> old(iter) < iter && NoneLive(old(iter) + 1, iter)
    {
      hide Holds, ProbeInv, Lives, Clean;
      if iter == map_.nBuckets {
        return false;
      }
      iter := iter + 1;
      while iter != map_.nBuckets && !Exists(map_, iter)
        invariant old(iter) < iter <= map_.nBuckets && map_.Valid() && this !in map_.Repr()
        invariant NoneLive(old(iter) + 1, iter)
      {
        iter := iter + 1;
      }
      more := iter != map_.nBuckets;
    }
  }

  /** The entries of the live buckets before bucket n, in bucket order. */
  ghost function Entries<K, V>(fl: seq<Flag>, keys: seq<K>, vals: seq<V>, n: nat): (es: seq<(K, V)>)
    requires n <= |fl| <= |keys| == |vals|
  {
    if n == 0 then []
    else if fl[n - 1] == Live then Entries(fl, keys, vals, n - 1) + [(keys[n - 1], vals[n - 1])]
    else Entries(fl, keys, vals, n - 1)
  }

  lemma {:induction false} EntriesSkip<K, V>(fl: seq<Flag>, keys: seq<K>, vals: seq<V>, a: nat, b: nat)
    requires a <= b <= |fl| <= |keys| == |vals|
    requires forall i :: a <= i < b ==> fl[i] != Live
    ensures Entries(fl, keys, vals, b) == Entries(fl, keys, vals, a)
  {
    if a < b { EntriesSkip(fl, keys, vals, a, b - 1); }
  }

  ghost predicate LiveBefore<K>(fl: seq<Flag>, keys: seq<K>, n: nat, k: K)
    requires n <= |fl| <= |keys|
  {
    exists i :: 0 <= i < n && fl[i] == Live && keys[i] == k
  }

  ghost predicate Exact<K, V>(es: seq<(K, V)>, fl: seq<Flag>, keys: seq<K>, vals: seq<V>, m: map<K, V>, n: nat)
    requires n <= |fl| <= |keys| == |vals|
  {
    && (forall j :: 0 <= j < |es| ==> es[j].0 in m && m[es[j].0] == es[j].1)
    && (forall j, k :: 0 <= j < k < |es| ==> es[j].0 != es[k].0)
    && (forall j :: 0 <= j < |es| ==> LiveBefore(fl, keys, n, es[j].0))
    && (forall i :: 0 <= i < n && fl[i] == Live ==> (keys[i], vals[i]) in es)
  }

  lemma ExactNone<K, V>(fl: seq<Flag>, keys: seq<K>, vals: seq<V>, m: map<K, V>)
    requires |fl| <= |keys| == |vals|
    ensures Exact(Entries(fl, keys, vals, 0), fl, keys, vals, m, 0)
  {
  }

  lemma EntriesStep<K, V>(fl: seq<Flag>, keys: seq<K>, vals: seq<V>, n: nat)
    requires 0 < n <= |fl| <= |keys| == |vals|
    ensures var before := Entries(fl, keys, vals, n - 1);
      Entries(fl, keys, vals, n) == if fl[n - 1] == Live then before + [(keys[n - 1], vals[n - 1])] else before
  {
  }

  /** Bucket order lists each entry of the map exactly once. */
  lemma {:induction false} EntriesExact<K, V>(fl: seq<Flag>, keys: seq<K>, vals: seq<V>, m: map<K, V>, n: nat)
    requires n <= |fl| <= |keys| == |vals| && Holds(Lives(fl), keys, vals, m)
    ensures Exact(Entries(fl, keys, vals, n), fl, keys, vals, m, n)
  {
    hide *;
    if n == 0 {
      ExactNone(fl, keys, vals, m);
    } else {
      EntriesStep(fl, keys, vals, n);
      EntriesExact(fl, keys, vals, m, n - 1);
      var before := Entries(fl, keys, vals, n - 1);
      if fl[n - 1] == Live {
        ExactExtends(before, fl, keys, vals, m, n - 1);
      } else {
        ExactSkips(before, fl, keys, vals, m, n - 1);
      }
    }
  }

  lemma ExactSkips<K, V>(es: seq<(K, V)>, fl: seq<Flag>, keys: seq<K>, vals: seq<V>, m: map<K, V>, n: nat)
    requires n < |fl| <= |keys| == |vals| && Exact(es, fl, keys, vals, m, n) && fl[n] != Live
    ensures Exact(es, fl, keys, vals, m, n + 1)
  {
    forall j | 0 <= j < |es|
      ensures LiveBefore(fl, keys, n + 1, es[j].0)
    {
      assert LiveBefore(fl, keys, n, es[j].0);
    }
  }

  lemma ExactExtends<K, V>(es: seq<(K, V)>, fl: seq<Flag>, keys: seq<K>, vals: seq<V>, m: map<K, V>, n: nat)
    requires n < |fl| <= |keys| == |vals| && Holds(Lives(fl), keys, vals, m)
    requires Exact(es, fl, keys, vals, m, n) && fl[n] == Live
    ensures Exact(es + [(keys[n], vals[n])], fl, keys, vals, m, n + 1)
  {
    assert Lives(fl)[n];
    forall j | 0 <= j < |es|
      ensures es[j].0 != keys[n]
    {
      assert LiveBefore(fl, keys, n, es[j].0);
      var i :| 0 <= i < n && fl[i] == Live && keys[i] == es[j].0;
      assert Lives(fl)[i];
    }
    var es' := es + [(keys[n], vals[n])];
    forall j | 0 <= j < |es'|
      ensures LiveBefore(fl, keys, n + 1, es'[j].0)
    {
      if j < |es| {
        assert LiveBefore(fl, keys, n, es[j].0);
      } else {
        assert fl[n] == Live;
      }
    }
    forall i | 0 <= i < n + 1 && fl[i] == Live
      ensures (keys[i], vals[i]) in es'
    {
      if i < n { assert (keys[i], vals[i]) in es; } else { assert es'[|es|] == (keys[n], vals[n]); }
    }
  }

  lemma ExactIsAll<K, V>(es: seq<(K, V)>, fl: seq<Flag>, keys: seq<K>, vals: seq<V>, m: map<K, V>)
    requires |fl| <= |keys| == |vals| && Holds(Lives(fl), keys, vals, m) && Exact(es, fl, keys, vals, m, |fl|)
    ensures forall k, v :: (k, v) in es <==> k in m && m[k] == v
  {
    forall k, v
      ensures (k, v) in es <==> k in m && m[k] == v
    {
      if k in m {
        var i :| 0 <= i < |fl| && Lives(fl)[i] && keys[i] == k;
        assert (keys[i], vals[i]) in es;
      }
    }
  }

  /** Running an iterator from start to end visits every entry of the map exactly once. */
  method VisitAll<K(0, ==), V(0)>(w: Wrapper<K, V>) returns (visited: seq<(K, V)>)
    requires w.Valid()
    ensures forall j, k :: 0 <= j < k < |visited| ==> visited[j].0 != visited[k].0
    ensures forall k, v :: (k, v) in visited <==> k in w.Contents() && w.Contents()[k] == v
  {
    hide Holds, ProbeInv, Lives, Clean, View, IsPow2, Exact;
    var t := w.table;
    var it := new HashIterator(t);
    visited := [];
    ghost var fl, keys, vals := t.Flags(), t.keys[..], t.vals[..];
    EntriesSkip(fl, keys, vals, 0, it.iter);
    while it.iter != t.nBuckets
      invariant it.Valid() && it.map_ == t && fresh(it)
      invariant visited == Entries(fl, keys, vals, it.iter)
      decreases t.nBuckets - it.iter
    {
      ghost var at := it.iter;
      visited := visited + [(t.keys[it.iter], t.vals[it.iter])];
      var more := it.GetNext();
      EntriesSkip(fl, keys, vals, at + 1, it.iter);
    }
    EntriesExact(fl, keys, vals, w.Contents(), t.nBuckets);
    ExactDistinct(visited, fl, keys, vals, w.Contents());
    ExactIsAll(visited, fl, keys, vals, w.Contents());
  }

  lemma ExactDistinct<K, V>(es: seq<(K, V)>, fl: seq<Flag>, keys: seq<K>, vals: seq<V>, m: map<K, V>)
    requires |fl| <= |keys| == |vals| && Exact(es, fl, keys, vals, m, |fl|)
    ensures forall j, k :: 0 <= j < k < |es| ==> es[j].0 != es[k].0
  {
  }
}
