/** Sorted sequences of keys, with insertion and removal at a position. */
module SortedSeqs {

  ghost predicate Sorted(s: seq<int>) {
    forall i, j :: 0 <= i < j < |s| ==> s[i] <= s[j]
  }

  function InsertAt(s: seq<int>, p: nat, k: int): (r: seq<int>)
    requires p <= |s|
    ensures |r| == |s| + 1
  {
    s[..p] + [k] + s[p..]
  }

  function RemoveAt(s: seq<int>, p: nat): (r: seq<int>)
    requires p < |s|
    ensures |r| == |s| - 1
  {
    s[..p] + s[p + 1..]
  }

  lemma RemoveAtInside(a: seq<int>, e: seq<int>, b: seq<int>, p: nat)
    requires p < |e|
    ensures RemoveAt(a + e + b, |a| + p) == a + RemoveAt(e, p) + b
    ensures (a + e + b)[|a| + p] == e[p]
  {
  }

  lemma InsertAtInside(a: seq<int>, e: seq<int>, b: seq<int>, p: nat, k: int)
    requires p <= |e|
    ensures InsertAt(a + e + b, |a| + p, k) == a + InsertAt(e, p, k) + b
  {
  }

  lemma InsertAtMultiset(s: seq<int>, p: nat, k: int)
    requires p <= |s|
    ensures multiset(InsertAt(s, p, k)) == multiset(s) + multiset{k}
  {
    assert s == s[..p] + s[p..];
  }

  lemma RemoveAtMultiset(s: seq<int>, p: nat)
    requires p < |s|
    ensures multiset(RemoveAt(s, p)) == multiset(s) - multiset{s[p]}
  {
    assert s == s[..p] + [s[p]] + s[p + 1..];
  }

  lemma RemoveAtSorted(s: seq<int>, p: nat)
    requires Sorted(s) && p < |s|
    ensures Sorted(RemoveAt(s, p))
  {
  }

  lemma SortedParts(a: seq<int>, e: seq<int>, b: seq<int>)
    requires Sorted(a + e + b)
    ensures Sorted(a) && Sorted(e) && Sorted(b)
    ensures forall x, y :: x in a && y in e ==> x <= y
    ensures forall x, y :: x in e && y in b ==> x <= y
    ensures forall x, y :: x in a && y in b ==> x <= y
  {
    var s := a + e + b;
    forall i | 0 <= i < |a| ensures s[i] == a[i] {}
    forall i | 0 <= i < |e| ensures s[|a| + i] == e[i] {}
    forall i | 0 <= i < |b| ensures s[|a| + |e| + i] == b[i] {}
  }

  /** Replacing the middle by a sorted sequence that fits between the ends keeps the whole sorted. */
  lemma SortedMiddle(a: seq<int>, e: seq<int>, b: seq<int>)
    requires Sorted(a) && Sorted(e) && Sorted(b)
    requires forall x, y :: x in a && y in e ==> x <= y
    requires forall x, y :: x in e && y in b ==> x <= y
    requires forall x, y :: x in a && y in b ==> x <= y
    ensures Sorted(a + e + b)
  {
    var s := a + e + b;
    forall i, j | 0 <= i < j < |s|
      ensures s[i] <= s[j]
    {
      assert s[i] in (if i < |a| then a else if i < |a| + |e| then e else b);
      assert s[j] in (if j < |a| then a else if j < |a| + |e| then e else b);
    }
  }

  /** A key strictly above all of a and strictly below all of b can only be in the middle. */
  lemma MustBeInside(a: seq<int>, e: seq<int>, b: seq<int>, k: int)
    requires k in a + e + b
    requires forall x :: x in a ==> x < k
    requires forall x :: x in b ==> k < x
    ensures k in e
  {
    var s := a + e + b;
    var i :| 0 <= i < |s| && s[i] == k;
    assert s[i] in (if i < |a| then a else if i < |a| + |e| then e else b);
  }
}
