/**
  Deletion from a B-tree: __kb_delp_aux. Every rearrangement on the way down keeps the in-order
  contents; the one key that goes is removed at one position.
 */
module KbDelete {
  import opened SortedSeqs
  import opened KTree
  import opened KbNodes

  // ----- where a key lies -----

  lemma {:induction false} KeyInPost(keys: seq<int>, kids: seq<NTree>, j: nat)
    requires |keys| == |kids| && j < |keys|
    ensures keys[j] in Post(keys, kids)
    decreases |keys|
  {
    PostUnfold(keys, kids);
    if j > 0 { KeyInPost(keys[1..], kids[1..], j - 1); }
  }

  lemma KeysSorted(t: NTree)
    requires Arity(t) && Sorted(Elems(t))
    ensures Sorted(t.keys)
  {
    if t.kids != [] {
      forall i, j | 0 <= i < j < |t.keys|
        ensures t.keys[i] <= t.keys[j]
      {
        KeyPairSorted(t, i, j);
      }
    }
  }

  lemma KeyPairSorted(t: NTree, i: nat, j: nat)
    requires |t.kids| == |t.keys| + 1 && Sorted(Elems(t)) && i < j < |t.keys|
    ensures t.keys[i] <= t.keys[j]
  {
    hide Pre, Post, Elems;
    FocusPair(t, i);
    var a, e, b := Pre(t.keys[..i], t.kids[..i]), Elems(t.kids[i]) + [t.keys[i]] + Elems(t.kids[i + 1]), Post(t.keys[i + 1..], t.kids[i + 2..]);
    SortedParts(a, e, b);
    KeyInPost(t.keys[i + 1..], t.kids[i + 2..], j - i - 1);
    assert t.keys[i] in e;
  }

  /** The contents before and after child i. */
  ghost function Before(t: NTree, i: nat): seq<int>
    requires i < |t.kids| == |t.keys| + 1
  {
    Pre(t.keys[..i], t.kids[..i])
  }

  ghost function After(t: NTree, i: nat): seq<int>
    requires i < |t.kids| == |t.keys| + 1
  {
    Post(t.keys[i..], t.kids[i + 1..])
  }

  lemma BeforeEnds(t: NTree, i: nat)
    requires i < |t.kids| == |t.keys| + 1
    ensures i == 0 ==> Before(t, i) == []
    ensures i > 0 ==> Before(t, i) != [] && Before(t, i)[|Before(t, i)| - 1] == t.keys[i - 1]
    ensures i == |t.keys| ==> After(t, i) == []
    ensures i < |t.keys| ==> After(t, i) != [] && After(t, i)[0] == t.keys[i]
  {
    hide Elems;
    if i > 0 {
      assert t.keys[..i] == t.keys[..i - 1] + [t.keys[i - 1]] && t.kids[..i] == t.kids[..i - 1] + [t.kids[i - 1]];
      PreSnoc(t.keys[..i - 1], t.kids[..i - 1], t.keys[i - 1], t.kids[i - 1]);
    }
  }

  /** The child between keys around k separates the contents into those up to k and those from k on. */
  lemma Separates(t: NTree, i: nat, k: int)
    requires i < |t.kids| == |t.keys| + 1 && Sorted(Elems(t))
    requires i > 0 ==> t.keys[i - 1] <= k
    requires i < |t.keys| ==> k <= t.keys[i]
    ensures Elems(t) == Before(t, i) + Elems(t.kids[i]) + After(t, i)
    ensures Sorted(Elems(t.kids[i])) && Sorted(Before(t, i)) && Sorted(After(t, i))
    ensures forall a :: a in Before(t, i) ==> a <= k && (i > 0 && t.keys[i - 1] < k ==> a < k)
    ensures forall b :: b in After(t, i) ==> k <= b && (i < |t.keys| && k < t.keys[i] ==> k < b)
  {
    hide Elems, Before, After;
    ChildSplit(t, i);
    BeforeEnds(t, i);
    SortedParts(Before(t, i), Elems(t.kids[i]), After(t, i));
    var a, b := Before(t, i), After(t, i);
    if i > 0 {
      assert forall x :: 0 <= x < |a| ==> a[x] <= a[|a| - 1];
    }
    if i < |t.keys| {
      assert forall x :: 0 <= x < |b| ==> b[0] <= b[x];
    }
  }

  lemma ChildSplit(t: NTree, i: nat)
    requires i < |t.kids| == |t.keys| + 1
    ensures Elems(t) == Before(t, i) + Elems(t.kids[i]) + After(t, i)
  {
    Focus(t, i);
  }

  lemma ChildReplaced(t: NTree, i: nat, c: NTree)
    requires i < |t.kids| == |t.keys| + 1
    ensures Elems(SetKid(t, i, c)) == Before(t, i) + Elems(c) + After(t, i)
  {
    SetKidElems(t, i, c);
  }

  /** The slot j and its right neighbour's contents start what follows child j. */
  lemma AfterStarts(t: NTree, j: nat)
    requires j < |t.keys| && |t.kids| == |t.keys| + 1
    ensures After(t, j) == [t.keys[j]] + Elems(t.kids[j + 1]) + After(t, j + 1)
    ensures Before(t, j + 1) == Before(t, j) + Elems(t.kids[j]) + [t.keys[j]]
  {
    hide Elems;
    PostUnfold(t.keys[j..], t.kids[j + 1..]);
    assert t.keys[j..][1..] == t.keys[j + 1..] && t.kids[j + 1..][1..] == t.kids[j + 2..];
    assert t.keys[..j + 1] == t.keys[..j] + [t.keys[j]] && t.kids[..j + 1] == t.kids[..j] + [t.kids[j]];
    PreSnoc(t.keys[..j], t.kids[..j], t.keys[j], t.kids[j]);
  }

  // ----- making sure the child to descend into can lose a key -----

  /** An inner node's children are B-trees; nothing is said of its own number of keys. */
  ghost predicate KidsOk(t: NTree, tt: nat, h: nat) {
    h > 0 && |t.kids| == |t.keys| + 1 && forall i :: 0 <= i < |t.kids| ==> Ok(t.kids[i], tt, h - 1, tt - 1)
  }

  lemma SiblingsAlike(t: NTree, tt: nat, h: nat, j: nat)
    requires KidsOk(t, tt, h) && j < |t.keys|
    ensures SameKind(t.kids[j], t.kids[j + 1])
  {
    assert Ok(t.kids[j], tt, h - 1, tt - 1) && Ok(t.kids[j + 1], tt, h - 1, tt - 1);
  }

  lemma MergedOk(t: NTree, tt: nat, h: nat, j: nat)
    requires KidsOk(t, tt, h) && j < |t.keys| && tt >= 1
    requires |t.kids[j].keys| == |t.kids[j + 1].keys| == tt - 1
    ensures KidsOk(FoldPair(t, j, Join(t.kids[j], t.keys[j], t.kids[j + 1])), tt, h)
  {
    var y, z := t.kids[j], t.kids[j + 1];
    var m := Join(y, t.keys[j], z);
    assert Ok(y, tt, h - 1, tt - 1) && Ok(z, tt, h - 1, tt - 1);
    assert Ok(m, tt, h - 1, tt - 1);
    var t' := FoldPair(t, j, m);
    forall i | 0 <= i < |t'.kids|
      ensures Ok(t'.kids[i], tt, h - 1, tt - 1)
    {
      assert t'.kids[i] == if i < j then t.kids[i] else if i == j then m else t.kids[i + 1];
    }
  }

  lemma LentRightOk(t: NTree, tt: nat, h: nat, j: nat)
    requires KidsOk(t, tt, h) && j < |t.keys| && tt >= 1
    requires SameKind(t.kids[j], t.kids[j + 1])
    requires |t.kids[j].keys| >= tt && |t.kids[j + 1].keys| == tt - 1
    ensures KidsOk(LentRight(t, j), tt, h)
  {
    var y, z := t.kids[j], t.kids[j + 1];
    assert Ok(y, tt, h - 1, tt - 1) && Ok(z, tt, h - 1, tt - 1);
    var t' := LentRight(t, j);
    assert Ok(t'.kids[j], tt, h - 1, tt - 1);
    assert Ok(t'.kids[j + 1], tt, h - 1, tt - 1);
  }

  lemma LentLeftOk(t: NTree, tt: nat, h: nat, j: nat)
    requires KidsOk(t, tt, h) && j < |t.keys| && tt >= 1
    requires SameKind(t.kids[j], t.kids[j + 1])
    requires |t.kids[j + 1].keys| >= tt && |t.kids[j].keys| == tt - 1
    ensures KidsOk(LentLeft(t, j), tt, h)
  {
    var y, z := t.kids[j], t.kids[j + 1];
    assert Ok(y, tt, h - 1, tt - 1) && Ok(z, tt, h - 1, tt - 1);
    var t' := LentLeft(t, j);
    assert Ok(t'.kids[j], tt, h - 1, tt - 1);
    assert Ok(t'.kids[j + 1], tt, h - 1, tt - 1);
  }

  /** What a child gains when its sibling lends it a key, or when the two merge, comes in addition to what it had. */
  lemma PushFrontElems(z: NTree, k: int, c: seq<NTree>)
    requires Arity(z) && |c| == (if z.kids == [] then 0 else 1)
    ensures forall e :: e in Elems(z) ==> e in Elems(PushFront(z, k, c))
  {
    hide Elems;
    var y := Node(z.at, [], c);
    JoinElems(y, k, z);
    assert Join(y, k, z) == PushFront(z, k, c);
  }

  lemma PushBackElems(z: NTree, k: int, c: seq<NTree>)
    requires Arity(z) && |c| == (if z.kids == [] then 0 else 1)
    ensures forall e :: e in Elems(z) ==> e in Elems(PushBack(z, k, c))
  {
    hide Elems;
    var y := Node(z.at, [], c);
    JoinElems(z, k, y);
    assert Join(z, k, y) == PushBack(z, k, c);
  }

  lemma JoinContains(y: NTree, k: int, z: NTree)
    requires SameKind(y, z)
    ensures forall e :: e in Elems(y) || e in Elems(z) ==> e in Elems(Join(y, k, z))
  {
    hide Elems;
    JoinElems(y, k, z);
  }

  /** The descent meant for child i of t may go on in child c of t', which can lose a key. */
  ghost predicate Fixed(t: NTree, i: nat, t': NTree, c: nat, tt: nat, h: nat)
    requires i < |t.kids|
  {
    && t'.at == t.at && KidsOk(t', tt, h) && |t.keys| - 1 <= |t'.keys| <= |t.keys|
    && c < |t'.kids| && |t'.kids[c].keys| >= tt
    && Elems(t') == Elems(t)
    && (forall e :: e in Elems(t.kids[i]) ==> e in Elems(t'.kids[c]))
    && (i == 0 ==> c == 0)
    && (i == |t.keys| ==> c == |t'.keys|)
  }

  lemma LentRightFixes(t: NTree, j: nat, tt: nat, h: nat)
    requires tt >= 2 && KidsOk(t, tt, h) && j < |t.keys|
    requires |t.kids[j].keys| >= tt && |t.kids[j + 1].keys| == tt - 1
    ensures SameKind(t.kids[j], t.kids[j + 1]) && Fixed(t, j + 1, LentRight(t, j), j + 1, tt, h)
  {
    hide Elems;
    SiblingsAlike(t, tt, h, j);
    LentRightOk(t, tt, h, j);
    LentRightJoin(t, j);
    var t' := LentRight(t, j);
    RotateKeeps(t, j, t'.kids[j], t'.keys[j], t'.kids[j + 1]);
    PushFrontElems(t.kids[j + 1], t.keys[j], LastKid(t.kids[j]));
  }

  lemma LentLeftFixes(t: NTree, j: nat, tt: nat, h: nat)
    requires tt >= 2 && KidsOk(t, tt, h) && j < |t.keys|
    requires |t.kids[j + 1].keys| >= tt && |t.kids[j].keys| == tt - 1
    ensures SameKind(t.kids[j], t.kids[j + 1]) && Fixed(t, j, LentLeft(t, j), j, tt, h)
  {
    hide Elems;
    SiblingsAlike(t, tt, h, j);
    LentLeftOk(t, tt, h, j);
    LentLeftJoin(t, j);
    var t' := LentLeft(t, j);
    RotateKeeps(t, j, t'.kids[j], t'.keys[j], t'.kids[j + 1]);
    PushBackElems(t.kids[j], t.keys[j], FirstKid(t.kids[j + 1]));
  }

  /** A merge serves the descent into either of the two children. */
  lemma MergeFixes(t: NTree, j: nat, tt: nat, h: nat)
    requires tt >= 2 && KidsOk(t, tt, h) && j < |t.keys|
    requires |t.kids[j].keys| == |t.kids[j + 1].keys| == tt - 1
    ensures SameKind(t.kids[j], t.kids[j + 1])
    ensures var t' := FoldPair(t, j, Join(t.kids[j], t.keys[j], t.kids[j + 1]));
            Fixed(t, j, t', j, tt, h) && Fixed(t, j + 1, t', j, tt, h)
  {
    hide Elems;
    SiblingsAlike(t, tt, h, j);
    MergedOk(t, tt, h, j);
    MergeKeeps(t, j);
    JoinContains(t.kids[j], t.keys[j], t.kids[j + 1]);
  }

  /**
    The block of __kb_delp_aux before the descent into child i: a child with t - 1 keys borrows from a
    sibling or merges with one. The descent goes on in child c.
   */
  method FixChild(x: KbNode, i: nat, tt: nat, ghost h: nat, ghost t: NTree) returns (c: nat, ghost t': NTree)
    requires tt >= 2 && Rep(t) && Distinct(t) && x == t.at && KidsOk(t, tt, h) && t.keys != [] && i < |t.kids|
    modifies Nodes(t)
    ensures Rep(t') && Distinct(t') && Nodes(t') <= Nodes(t)
    ensures Fixed(t, i, t', c, tt, h)
  {
    hide Elems, RepAll, NodesOf, Distinct, SameKind, LentLeft, LentRight;
    KidAt(t, i);
    c, t' := i, t;
    if |x.ptrs[i].keys| == tt - 1 {
      if i > 0 { KidAt(t, i - 1); }
      if i < |t.keys| { KidAt(t, i + 1); }
      if i > 0 && |x.ptrs[i - 1].keys| >= tt {
        LentRightFixes(t, i - 1, tt, h);
        t' := BorrowLeft(x, i - 1, t);
      } else if i < |x.keys| && |x.ptrs[i + 1].keys| >= tt {
        LentLeftFixes(t, i, tt, h);
        t' := BorrowRight(x, i, t);
      } else if i > 0 && |x.ptrs[i - 1].keys| == tt - 1 {
        MergeFixes(t, i - 1, tt, h);
        t' := Merge(x, i - 1, t);
        c := i - 1;
      } else if i < |x.keys| && |x.ptrs[i + 1].keys| == tt - 1 {
        MergeFixes(t, i, tt, h);
        t' := Merge(x, i, t);
      }
    }
  }

  // ----- the deletion -----

  lemma RemovedInChild(t: NTree, c: nat, child: NTree, p: nat)
    requires c < |t.kids| == |t.keys| + 1 && p < |Elems(t.kids[c])|
    requires Elems(child) == RemoveAt(Elems(t.kids[c]), p)
    ensures var q := |Before(t, c)| + p;
            && q < |Elems(t)| && Elems(t)[q] == Elems(t.kids[c])[p]
            && Elems(SetKid(t, c, child)) == RemoveAt(Elems(t), q)
            && (c == 0 && p == 0 ==> q == 0)
            && (c == |t.keys| && p == |Elems(t.kids[c])| - 1 ==> q == |Elems(t)| - 1)
  {
    hide Elems, Before, After;
    ChildSplit(t, c);
    ChildReplaced(t, c, child);
    BeforeEnds(t, c);
    RemoveAtInside(Before(t, c), Elems(t.kids[c]), After(t, c), p);
  }

  /** Putting the last key of the left child in place of the key at slot i deletes that key. */
  lemma PredecessorReplaces(t: NTree, i: nat, child: NTree)
    requires i < |t.keys| && |t.kids| == |t.keys| + 1 && Elems(t.kids[i]) != []
    requires Elems(child) == RemoveAt(Elems(t.kids[i]), |Elems(t.kids[i])| - 1)
    ensures var e, q := Elems(t.kids[i]), |Before(t, i)| + |Elems(t.kids[i])|;
            && q < |Elems(t)| && Elems(t)[q] == t.keys[i]
            && Elems(SetPair(t, i, child, e[|e| - 1], t.kids[i + 1])) == RemoveAt(Elems(t), q)
  {
    hide Elems, Before, After;
    var a, e, b := Before(t, i), Elems(t.kids[i]), After(t, i);
    ChildSplit(t, i);
    AfterStarts(t, i);
    BeforeAfterPair(t, i, child, e[|e| - 1], t.kids[i + 1]);
    assert e == e[..|e| - 1] + [e[|e| - 1]];
    assert RemoveAt(a + e + b, |a| + |e|) == a + e + b[1..];
  }

  /** Putting the first key of the right child in place of the key at slot i deletes that key. */
  lemma SuccessorReplaces(t: NTree, i: nat, child: NTree)
    requires i < |t.keys| && |t.kids| == |t.keys| + 1 && Elems(t.kids[i + 1]) != []
    requires Elems(child) == RemoveAt(Elems(t.kids[i + 1]), 0)
    ensures var q := |Before(t, i)| + |Elems(t.kids[i])|;
            && q < |Elems(t)| && Elems(t)[q] == t.keys[i]
            && Elems(SetPair(t, i, t.kids[i], Elems(t.kids[i + 1])[0], child)) == RemoveAt(Elems(t), q)
  {
    hide Elems, Before, After;
    var a, e, b, e2 := Before(t, i), Elems(t.kids[i]), After(t, i), Elems(t.kids[i + 1]);
    ChildSplit(t, i);
    AfterStarts(t, i);
    BeforeAfterPair(t, i, t.kids[i], e2[0], child);
    assert e2 == [e2[0]] + e2[1..];
    assert RemoveAt(a + e + b, |a| + |e|) == a + e + b[1..];
  }

  lemma BeforeAfterPair(t: NTree, j: nat, y: NTree, k: int, z: NTree)
    requires j < |t.keys| && |t.kids| == |t.keys| + 1
    ensures Elems(SetPair(t, j, y, k, z)) == Before(t, j) + (Elems(y) + [k] + Elems(z)) + After(t, j + 1)
  {
    SetPairElems(t, j, y, k, z);
  }

  /** What a deletion from t leaves: everything but the key at position p, in a tree of the same height. */
  ghost predicate Removed(t: NTree, t': NTree, p: nat, k: int, s: int, kp: int) {
    && p < |Elems(t)| && kp == Elems(t)[p] && Elems(t') == RemoveAt(Elems(t), p)
    && (s == 0 ==> kp == k)
    && (s == 1 ==> p == |Elems(t)| - 1)
    && (s == 2 ==> p == 0)
    && t'.at == t.at && |t.keys| - 1 <= |t'.keys| <= |t.keys|
  }

  lemma ChildKept(t: NTree, c: nat, child: NTree, tt: nat, h: nat)
    requires KidsOk(t, tt, h) && c < |t.kids| && Ok(child, tt, h - 1, tt - 1)
    ensures KidsOk(SetKid(t, c, child), tt, h)
  {
  }

  /** The recursive call of __kb_delp_aux on child c, with the tree around it. */
  method DeleteIn(x: KbNode, c: nat, k: int, s: int, tt: nat, ghost h: nat, ghost t: NTree)
    returns (kp: int, ghost child: NTree, ghost p: nat)
    requires tt >= 2 && Rep(t) && Distinct(t) && x == t.at && KidsOk(t, tt, h)
    requires c < |t.kids| && |t.kids[c].keys| >= tt
    requires 0 <= s <= 2 && Sorted(Elems(t.kids[c])) && (s == 0 ==> k in Elems(t.kids[c]))
    modifies Nodes(t.kids[c])
    ensures Removed(t.kids[c], child, p, k, s, kp)
    ensures var t' := SetKid(t, c, child);
            Rep(t') && Distinct(t') && Nodes(t') <= Nodes(t) && KidsOk(t', tt, h)
    decreases h, 0
  {
    hide Elems, RepAll, Apart, NodesOf, Distinct, Nodes, Ats;
    ghost var l, y, r := t.kids[..c], t.kids[c], t.kids[c + 1..];
    assert t.kids == l + [y] + r;
    NodesAllocated(t);
    RepKid(t, l, y, r);
    DistinctKid(t, l, y, r);
    KidAt(t, c);
    NodesOne(y);
    assert Ok(y, tt, h - 1, 1) && Distinct(y);
    kp, child, p := Delete(x.ptrs[c], k, s, tt, h - 1, y);
    ghost var t' := SetKid(t, c, child);
    assert t'.kids == l + [child] + r;
    assert Ats(t'.kids) == Ats(t.kids);
    NodesOne(child);
    RepKid(t', l, child, r);
    DistinctKid(t', l, child, r);
    ChildKept(t, c, child, tt, h);
  }

  lemma NodesOne(y: NTree)
    ensures Nodes(y) == {y.at} + NodesOf(y.kids)
    ensures Distinct(y) <==> y.at !in NodesOf(y.kids) && Apart(y.kids)
    ensures Rep(y) <==> Local(y) && RepAll(y.kids)
  {
  }

  /** A deletion in a leaf. */
  method DeleteInLeaf(x: KbNode, i: nat, ghost t: NTree) returns (kp: int, ghost t': NTree)
    requires Rep(t) && Distinct(t) && x == t.at && t.kids == [] && i < |t.keys|
    modifies x
    ensures t' == Node(t.at, RemoveAt(t.keys, i), []) && kp == t.keys[i]
    ensures Rep(t') && Distinct(t') && Nodes(t') == Nodes(t)
  {
    kp := x.keys[i];
    x.keys := x.keys[..i] + x.keys[i + 1..];
    t' := Node(t.at, RemoveAt(t.keys, i), []);
  }

  /** Overwriting one key of a node. */
  method SetKey(x: KbNode, i: nat, m: int, ghost t: NTree) returns (ghost t': NTree)
    requires Rep(t) && Distinct(t) && x == t.at && i < |t.keys|
    modifies x
    ensures t' == Node(t.at, t.keys[i := m], t.kids)
    ensures Rep(t') && Distinct(t') && Nodes(t') == Nodes(t)
  {
    hide RepAll, Apart, NodesOf;
    x.keys := x.keys[i := m];
    t' := Node(t.at, t.keys[i := m], t.kids);
  }

  lemma RootOk(t: NTree, tt: nat, h: nat, lo: int)
    requires KidsOk(t, tt, h) && lo <= |t.keys| <= 2 * tt - 1
    ensures Ok(t, tt, h, lo)
  {
  }

  lemma ElemsNonEmpty(t: NTree)
    requires t.keys != [] && Arity(t)
    ensures Elems(t) != []
  {
    if t.kids != [] { PostUnfold(t.keys, t.kids[1..]); }
  }

  /** The part of __kb_delp_aux that finds the key in an internal node. */
  method DeleteFound(x: KbNode, i: nat, k: int, tt: nat, ghost h: nat, ghost t: NTree)
    returns (kp: int, ghost t': NTree, ghost p: nat)
    requires tt >= 2 && Rep(t) && Distinct(t) && x == t.at && Ok(t, tt, h, 1) && h > 0
    requires Sorted(Elems(t)) && i < |t.keys| && t.keys[i] == k
    modifies Nodes(t)
    ensures Removed(t, t', p, k, 0, kp)
    ensures Rep(t') && Distinct(t') && Nodes(t') <= Nodes(t) && Ok(t', tt, h, |t.keys| - 1)
    decreases h, 2
  {
    hide Elems, RepAll, Apart, NodesOf, Distinct, Nodes, Ats, Rep, Before;
    KidAt(t, i);
    KidAt(t, i + 1);
    KeysSorted(t);
    assert Ok(t.kids[i], tt, h - 1, tt - 1) && Ok(t.kids[i + 1], tt, h - 1, tt - 1);
    Separates(t, i, k);
    Separates(t, i + 1, k);
    if |x.ptrs[i].keys| >= tt {
      kp, t', p := DeleteByPredecessor(x, i, k, tt, h, t);
    } else if |x.ptrs[i + 1].keys| >= tt {
      kp, t', p := DeleteBySuccessor(x, i, k, tt, h, t);
    } else {
      kp, t', p := DeleteMerged(x, i, k, tt, h, t);
    }
    RootOk(t', tt, h, |t.keys| - 1);
  }

  /** The left child can spare its greatest key, which takes the place of the deleted one. */
  method DeleteByPredecessor(x: KbNode, i: nat, k: int, tt: nat, ghost h: nat, ghost t: NTree)
    returns (kp: int, ghost t': NTree, ghost p: nat)
    requires tt >= 2 && Rep(t) && Distinct(t) && x == t.at && Ok(t, tt, h, 1) && h > 0
    requires i < |t.keys| && t.keys[i] == k && |t.kids[i].keys| >= tt && Sorted(Elems(t.kids[i]))
    modifies Nodes(t)
    ensures Removed(t, t', p, k, 0, kp)
    ensures Rep(t') && Distinct(t') && Nodes(t') <= Nodes(t) && KidsOk(t', tt, h)
    decreases h, 1
  {
    hide Elems, RepAll, Apart, NodesOf, Distinct, Nodes, Ats, Rep, Before;
    KidAt(t, i);
    assert Ok(t.kids[i], tt, h - 1, tt - 1);
    ElemsNonEmpty(t.kids[i]);
    ghost var child;
    kp := x.keys[i];
    var m;
    m, child, p := DeleteIn(x, i, k, 1, tt, h, t);
    t' := SetKey(x, i, m, SetKid(t, i, child));
    PredecessorReplaces(t, i, child);
    assert t' == SetPair(t, i, child, m, t.kids[i + 1]);
    p := |Before(t, i)| + |Elems(t.kids[i])|;
  }

  /** The right child can spare its least key, which takes the place of the deleted one. */
  method DeleteBySuccessor(x: KbNode, i: nat, k: int, tt: nat, ghost h: nat, ghost t: NTree)
    returns (kp: int, ghost t': NTree, ghost p: nat)
    requires tt >= 2 && Rep(t) && Distinct(t) && x == t.at && Ok(t, tt, h, 1) && h > 0
    requires i < |t.keys| && t.keys[i] == k && |t.kids[i + 1].keys| >= tt && Sorted(Elems(t.kids[i + 1]))
    modifies Nodes(t)
    ensures Removed(t, t', p, k, 0, kp)
    ensures Rep(t') && Distinct(t') && Nodes(t') <= Nodes(t) && KidsOk(t', tt, h)
    decreases h, 1
  {
    hide Elems, RepAll, Apart, NodesOf, Distinct, Nodes, Ats, Rep, Before;
    KidAt(t, i + 1);
    assert Ok(t.kids[i + 1], tt, h - 1, tt - 1);
    ElemsNonEmpty(t.kids[i + 1]);
    ghost var child;
    kp := x.keys[i];
    var m;
    m, child, p := DeleteIn(x, i + 1, k, 2, tt, h, t);
    t' := SetKey(x, i, m, SetKid(t, i + 1, child));
    SuccessorReplaces(t, i, child);
    assert t' == SetPair(t, i, t.kids[i], m, child);
    p := |Before(t, i)| + |Elems(t.kids[i])|;
  }

  /** The last case of DeleteFound: both children around the key are at the minimum and merge. */
  method DeleteMerged(x: KbNode, i: nat, k: int, tt: nat, ghost h: nat, ghost t: NTree)
    returns (kp: int, ghost t': NTree, ghost p: nat)
    requires tt >= 2 && Rep(t) && Distinct(t) && x == t.at && Ok(t, tt, h, 1) && h > 0
    requires Sorted(Elems(t)) && i < |t.keys| && t.keys[i] == k
    requires |t.kids[i].keys| == |t.kids[i + 1].keys| == tt - 1
    modifies Nodes(t)
    ensures Removed(t, t', p, k, 0, kp)
    ensures Rep(t') && Distinct(t') && Nodes(t') <= Nodes(t) && KidsOk(t', tt, h)
    decreases h, 1
  {
    hide Elems, RepAll, Apart, NodesOf, Distinct, Nodes, Ats, Rep;
    KidAt(t, i);
    MergeFixes(t, i, tt, h);
    ghost var child;
    ghost var t1 := Merge(x, i, t);
    MergedHolds(t, i);
    MergedSorted(t1, i, t);
    KidAt(t1, i);
    kp, child, p := DeleteIn(x, i, k, 0, tt, h, t1);
    t' := SetKid(t1, i, child);
    RemovedInChild(t1, i, child, p);
    p := |Before(t1, i)| + p;
  }

  /** After the merge of the children around slot i the key of the slot lies in the merged child. */
  lemma MergedHolds(t: NTree, i: nat)
    requires i < |t.keys| && |t.kids| == |t.keys| + 1 && SameKind(t.kids[i], t.kids[i + 1])
    ensures t.keys[i] in Elems(Join(t.kids[i], t.keys[i], t.kids[i + 1]))
  {
    hide Elems;
    JoinElems(t.kids[i], t.keys[i], t.kids[i + 1]);
  }

  lemma MergedSorted(t1: NTree, i: nat, t: NTree)
    requires i < |t1.kids| == |t1.keys| + 1 && Sorted(Elems(t)) && Elems(t1) == Elems(t)
    ensures Sorted(Elems(t1.kids[i]))
  {
    hide Elems, Before, After;
    ChildSplit(t1, i);
    SortedParts(Before(t1, i), Elems(t1.kids[i]), After(t1, i));
  }

  /** The part of __kb_delp_aux that goes down into child i. */
  method DeleteBelow(x: KbNode, i: nat, k: int, s: int, tt: nat, ghost h: nat, ghost t: NTree)
    returns (kp: int, ghost t': NTree, ghost p: nat)
    requires tt >= 2 && Rep(t) && Distinct(t) && x == t.at && Ok(t, tt, h, 1) && h > 0
    requires 0 <= s <= 2 && Sorted(Elems(t)) && i < |t.kids|
    requires s == 0 ==> k in Elems(t.kids[i])
    requires s == 1 ==> i == |t.keys|
    requires s == 2 ==> i == 0
    modifies Nodes(t)
    ensures Removed(t, t', p, k, s, kp)
    ensures Rep(t') && Distinct(t') && Nodes(t') <= Nodes(t) && Ok(t', tt, h, |t.keys| - 1)
    decreases h, 2
  {
    hide Elems, RepAll, Apart, NodesOf, Distinct, Nodes, Ats, Rep;
    var c;
    ghost var t1, child;
    c, t1 := FixChild(x, i, tt, h, t);
    MergedSorted(t1, c, t);
    KidAt(t1, c);
    kp, child, p := DeleteIn(x, c, k, s, tt, h, t1);
    t' := SetKid(t1, c, child);
    RemovedInChild(t1, c, child, p);
    p := |Before(t1, c)| + p;
    RootOk(t', tt, h, |t.keys| - 1);
  }

  /**
    __kb_delp_aux: deletes k (s = 0), the greatest key (s = 1) or the least key (s = 2) of the tree
    rooted at x and returns it.
   */
  method Delete(x: KbNode, k: int, s: int, tt: nat, ghost h: nat, ghost t: NTree)
    returns (kp: int, ghost t': NTree, ghost p: nat)
    requires tt >= 2 && Rep(t) && Distinct(t) && x == t.at && Ok(t, tt, h, 1)
    requires 0 <= s <= 2 && Sorted(Elems(t)) && (s == 0 ==> k in Elems(t))
    modifies Nodes(t)
    ensures Removed(t, t', p, k, s, kp)
    ensures Rep(t') && Distinct(t') && Nodes(t') <= Nodes(t) && Ok(t', tt, h, |t.keys| - 1)
    decreases h, 3
  {
    hide Rep, Distinct, Nodes;
    KeysSorted(t);
    RepLocal(t);
    NodesAllocated(t);
    var i, r := -1, 0;
    if s != 0 {
      r := if !x.isInternal then 0 else if s == 1 then 1 else -1;
      i := if s == 1 then |x.keys| - 1 else -1;
    } else {
      i, r := GetAux(x.keys, k, r);
    }
    if !x.isInternal {
      if s == 2 { i := i + 1; }
      kp, t' := DeleteInLeaf(x, i, t);
      p := i;
    } else if r == 0 {
      kp, t', p := DeleteFound(x, i, k, tt, h, t);
    } else {
      if s == 0 { InChild(t, i + 1, k); }
      kp, t', p := DeleteBelow(x, i + 1, k, s, tt, h, t);
    }
  }

  lemma RepLocal(t: NTree)
    requires Rep(t)
    ensures Local(t) && t.at in Nodes(t)
  {
  }

  /** A key that is in the tree but not in its root is in the child between its neighbours. */
  lemma InChild(t: NTree, i: nat, k: int)
    requires i < |t.kids| == |t.keys| + 1 && Sorted(Elems(t)) && k in Elems(t)
    requires i > 0 ==> t.keys[i - 1] < k
    requires i < |t.keys| ==> k < t.keys[i]
    ensures k in Elems(t.kids[i])
  {
    hide Elems, Before, After;
    Separates(t, i, k);
    BeforeEnds(t, i);
    MustBeInside(Before(t, i), Elems(t.kids[i]), After(t, i), k);
  }
}
