/** Insertion into a B-tree: __kb_putp_aux, splitting every full child before it goes down into it. */
module KbInsert {
  import opened SortedSeqs
  import opened KTree
  import opened KbNodes
  import opened KbDelete

  /** What an insertion leaves: the same contents with k at position p, in a tree of the same height. */
  ghost predicate Inserted(t: NTree, t': NTree, p: nat, k: int) {
    && p <= |Elems(t)| && Elems(t') == InsertAt(Elems(t), p, k) && Sorted(Elems(t'))
    && t'.at == t.at && |t.keys| <= |t'.keys| <= |t.keys| + 1
  }

  lemma InsertedInChild(t: NTree, c: nat, child: NTree, p: nat, k: int)
    requires c < |t.kids| == |t.keys| + 1 && Sorted(Elems(t))
    requires c > 0 ==> t.keys[c - 1] <= k
    requires c < |t.keys| ==> k <= t.keys[c]
    requires p <= |Elems(t.kids[c])| && Elems(child) == InsertAt(Elems(t.kids[c]), p, k) && Sorted(Elems(child))
    ensures Inserted(t, SetKid(t, c, child), |Before(t, c)| + p, k)
  {
    hide Elems, Before, After;
    Separates(t, c, k);
    ChildReplaced(t, c, child);
    var a, e, b := Before(t, c), Elems(t.kids[c]), After(t, c);
    InsertAtInside(a, e, b, p, k);
    SortedParts(a, e, b);
    InsertAtMembers(e, p, k);
    SortedMiddle(a, Elems(child), b);
  }

  lemma InsertAtMembers(s: seq<int>, p: nat, k: int)
    requires p <= |s|
    ensures forall x :: x in InsertAt(s, p, k) <==> x in s || x == k
  {
    assert s == s[..p] + s[p..];
  }

  lemma SplitOk(t: NTree, tt: nat, h: nat, i: nat, z: KbNode)
    requires tt >= 2 && KidsOk(t, tt, h) && i < |t.kids| && |t.kids[i].keys| == 2 * tt - 1 && Arity(t.kids[i])
    ensures var y := t.kids[i];
            KidsOk(UnfoldKid(t, i, SplitLow(y, tt), y.keys[tt - 1], SplitHigh(y, tt, z)), tt, h)
  {
    var y := t.kids[i];
    assert Ok(y, tt, h - 1, tt - 1);
    var y', z' := SplitLow(y, tt), SplitHigh(y, tt, z);
    assert Ok(y', tt, h - 1, tt - 1) && Ok(z', tt, h - 1, tt - 1);
    var t' := UnfoldKid(t, i, y', y.keys[tt - 1], z');
    forall j | 0 <= j < |t'.kids|
      ensures Ok(t'.kids[j], tt, h - 1, tt - 1)
    {
      assert t'.kids[j] == if j < i then t.kids[j] else if j == i then y' else if j == i + 1 then z' else t.kids[j - 1];
    }
  }

  /** An insertion in a leaf that is not full. */
  method InsertInLeaf(x: KbNode, i: nat, k: int, ghost t: NTree) returns (ghost t': NTree)
    requires Rep(t) && Distinct(t) && x == t.at && t.kids == [] && i <= |t.keys|
    modifies x
    ensures t' == Node(t.at, InsertAt(t.keys, i, k), [])
    ensures Rep(t') && Distinct(t') && Nodes(t') == Nodes(t)
  {
    x.keys := x.keys[..i] + [k] + x.keys[i..];
    t' := Node(t.at, InsertAt(t.keys, i, k), []);
  }

  /** The recursive call of __kb_putp_aux on child c, with the tree around it. */
  method InsertIn(x: KbNode, c: nat, k: int, tt: nat, ghost h: nat, ghost t: NTree)
    returns (ghost child: NTree, ghost p: nat)
    requires tt >= 2 && Rep(t) && Distinct(t) && x == t.at && KidsOk(t, tt, h)
    requires c < |t.kids| && |t.kids[c].keys| < 2 * tt - 1 && Sorted(Elems(t.kids[c]))
    modifies Nodes(t.kids[c])
    ensures Inserted(t.kids[c], child, p, k)
    ensures var t' := SetKid(t, c, child);
            Rep(t') && Distinct(t') && KidsOk(t', tt, h)
    ensures forall n :: n in Nodes(SetKid(t, c, child)) && n !in Nodes(t) ==> fresh(n)
    decreases h, 0
  {
    hide Elems, RepAll, Apart, NodesOf, Distinct, Nodes, Ats;
    ghost var l, y, r := t.kids[..c], t.kids[c], t.kids[c + 1..];
    assert t.kids == l + [y] + r;
    NodesAllocated(t);
    RepKid(t, l, y, r);
    DistinctKid(t, l, y, r);
    KidAt(t, c);
    NodesOne(y);
    assert Ok(y, tt, h - 1, tt - 1) && Distinct(y);
    child, p := Insert(x.ptrs[c], k, tt, h - 1, y);
    ghost var t' := SetKid(t, c, child);
    assert t'.kids == l + [child] + r;
    assert Ats(t'.kids) == Ats(t.kids);
    NodesOne(child);
    RepKid(t', l, child, r);
    DistinctKid(t', l, child, r);
    ChildKept(t, c, child, tt, h);
  }

  /** The place of k among the keys of an internal node. */
  ghost predicate Around(keys: seq<int>, c: nat, k: int) {
    c <= |keys| && (c > 0 ==> keys[c - 1] <= k) && (c < |keys| ==> k <= keys[c])
  }

  /** The internal-node part of __kb_putp_aux. */
  method InsertBelow(x: KbNode, i: nat, k: int, tt: nat, ghost h: nat, ghost t: NTree)
    returns (ghost t': NTree, ghost p: nat)
    requires tt >= 2 && Rep(t) && Distinct(t) && x == t.at && KidsOk(t, tt, h) && |t.keys| < 2 * tt - 1
    requires Sorted(Elems(t)) && i < |t.kids| && Around(t.keys, i, k)
    modifies Nodes(t)
    ensures Inserted(t, t', p, k)
    ensures Rep(t') && Distinct(t') && KidsOk(t', tt, h)
    ensures forall n :: n in Nodes(t') && n !in Nodes(t) ==> fresh(n)
    decreases h, 1
  {
    hide Elems, RepAll, Apart, NodesOf, Distinct, Nodes, Ats, Rep;
    var c := i;
    ghost var t1 := t;
    KidAt(t, i);
    assert Ok(t.kids[i], tt, h - 1, tt - 1);
    if |x.ptrs[i].keys| == 2 * tt - 1 {
      var z;
      z, t1 := SplitChild(x, i, tt, h, t);
      KidAt(t1, i);
      if k > x.keys[i] { c := i + 1; }
    }
    MergedSorted(t1, c, t);
    KidAt(t1, c);
    ghost var child;
    child, p := InsertIn(x, c, k, tt, h, t1);
    t' := SetKid(t1, c, child);
    InsertedInChild(t1, c, child, p, k);
    p := |Before(t1, c)| + p;
  }

  /** __kb_split where __kb_putp_aux uses it. */
  method SplitChild(x: KbNode, i: nat, tt: nat, ghost h: nat, ghost t: NTree) returns (z: KbNode, ghost t': NTree)
    requires tt >= 2 && Rep(t) && Distinct(t) && x == t.at && KidsOk(t, tt, h)
    requires i < |t.kids| && |t.kids[i].keys| == 2 * tt - 1
    modifies x, x.ptrs[i]
    ensures Rep(t') && Distinct(t') && Nodes(t') == Nodes(t) + {z} && fresh(z)
    ensures t'.at == t.at && KidsOk(t', tt, h) && Elems(t') == Elems(t)
    ensures |t'.keys| == |t.keys| + 1 && t'.keys[..i] == t.keys[..i] && t'.keys[i + 1..] == t.keys[i..]
    ensures |t'.kids[i].keys| == |t'.kids[i + 1].keys| == tt - 1
  {
    hide Elems, RepAll, Apart, NodesOf, Distinct, Nodes, Ats, Rep;
    assert Ok(t.kids[i], tt, h - 1, tt - 1);
    KidAt(t, i);
    z, t' := Split(x, i, tt, t);
    SplitJoin(t.kids[i], tt, z);
    SplitOk(t, tt, h, i, z);
    SplitKeeps(t, i, t'.kids[i], t'.keys[i], t'.kids[i + 1]);
  }

  /** __kb_putp_aux: inserts k into the tree rooted at x, which is not full. */
  method Insert(x: KbNode, k: int, tt: nat, ghost h: nat, ghost t: NTree)
    returns (ghost t': NTree, ghost p: nat)
    requires tt >= 2 && Rep(t) && Distinct(t) && x == t.at && Ok(t, tt, h, 0) && |t.keys| < 2 * tt - 1
    requires Sorted(Elems(t))
    modifies Nodes(t)
    ensures Inserted(t, t', p, k)
    ensures Rep(t') && Distinct(t') && Ok(t', tt, h, |t.keys|)
    ensures forall n :: n in Nodes(t') && n !in Nodes(t) ==> fresh(n)
    decreases h, 2
  {
    hide Rep, Distinct, Nodes, Elems, Sorted;
    KeysSorted(t);
    RepLocal(t);
    NodesAllocated(t);
    var i, r := GetAux(x.keys, k, 0);
    AroundNext(t.keys, i, k);
    if !x.isInternal {
      t' := InsertInLeaf(x, i + 1, k, t);
      p := i + 1;
      LeafInserted(t, p, k);
    } else {
      t', p := InsertBelow(x, i + 1, k, tt, h, t);
    }
  }

  /** The slot after the one __kb_getp_aux finds is a place for k. */
  lemma AroundNext(keys: seq<int>, i: int, k: int)
    requires Sorted(keys) && -1 <= i < |keys|
    requires k in keys ==> i >= 0 && keys[i] == k
    requires k !in keys ==> (forall j :: 0 <= j <= i ==> keys[j] < k) && (forall j :: i < j < |keys| ==> k < keys[j])
    ensures Around(keys, i + 1, k)
  {
  }

  lemma LeafInserted(t: NTree, p: nat, k: int)
    requires t.kids == [] && Sorted(Elems(t)) && Around(t.keys, p, k)
    ensures Inserted(t, Node(t.at, InsertAt(t.keys, p, k), []), p, k)
  {
  }
}
