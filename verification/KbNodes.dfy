/**
  The memory nodes of ktree.h and the routines that rearrange a node and its children in place. Rep
  says that the memory reached from a node is the tree a value describes.
 */
module KbNodes {
  import opened SortedSeqs
  import opened KTree

  /** kbnode_t: the first n slots of the key array, and of the pointer array of an internal node. */
  class KbNode {
    var isInternal: bool
    var keys: seq<int>
    var ptrs: seq<KbNode>

    constructor (isInternal: bool, keys: seq<int>, ptrs: seq<KbNode>)
      ensures this.isInternal == isInternal && this.keys == keys && this.ptrs == ptrs
    {
      this.isInternal, this.keys, this.ptrs := isInternal, keys, ptrs;
    }
  }

  type NTree = Tree<KbNode>

  ghost function Ats(ts: seq<NTree>): (ps: seq<KbNode>)
    ensures |ps| == |ts| && forall i :: 0 <= i < |ts| ==> ps[i] == ts[i].at
  {
    seq(|ts|, i requires 0 <= i < |ts| => ts[i].at)
  }

  /** The fields of one node are what its value says. */
  ghost predicate Local(t: NTree)
    reads t.at
  {
    t.at.keys == t.keys && t.at.ptrs == Ats(t.kids) && t.at.isInternal == (t.kids != [])
  }

  ghost predicate Rep(t: NTree)
    reads Nodes(t)
    decreases t, 1
  {
    Local(t) && RepAll(t.kids)
  }

  ghost predicate RepAll(ts: seq<NTree>)
    reads NodesOf(ts)
    decreases ts, 0
  {
    ts == [] || (Rep(ts[0]) && RepAll(ts[1..]))
  }

  lemma {:induction false} RepAllConcat(a: seq<NTree>, b: seq<NTree>)
    ensures RepAll(a + b) <==> RepAll(a) && RepAll(b)
    decreases |a|
  {
    if a == [] {
      assert a + b == b;
    } else {
      RepAllConcat(a[1..], b);
      assert (a + b)[1..] == a[1..] + b;
    }
  }

  lemma RepOne(z: NTree)
    ensures RepAll([z]) <==> Local(z) && RepAll(z.kids)
  {
    assert [z][1..] == [];
  }

  /** The memory of a tree, separated around one child. */
  lemma RepKid(t: NTree, l: seq<NTree>, y: NTree, r: seq<NTree>)
    requires t.kids == l + [y] + r
    ensures Rep(t) <==> Local(t) && RepAll(l) && Local(y) && RepAll(y.kids) && RepAll(r)
  {
    hide Local, RepAll;
    RepAllConcat(l + [y], r);
    RepAllConcat(l, [y]);
    RepOne(y);
  }

  /** The memory of a tree, separated around two neighbouring children. */
  lemma RepPair(t: NTree, l: seq<NTree>, y: NTree, z: NTree, r: seq<NTree>)
    requires t.kids == l + [y, z] + r
    ensures Rep(t) <==>
      Local(t) && RepAll(l) && Local(y) && Local(z) && RepAll(y.kids + z.kids) && RepAll(r)
  {
    hide Local, RepAll;
    assert [y, z] == [y] + [z];
    RepAllConcat(l + [y, z], r);
    RepAllConcat(l, [y, z]);
    RepAllConcat([y], [z]);
    RepOne(y);
    RepOne(z);
    RepAllConcat(y.kids, z.kids);
  }

  lemma AtsConcat(a: seq<NTree>, b: seq<NTree>)
    ensures Ats(a + b) == Ats(a) + Ats(b)
  {
  }

  lemma KidAt(t: NTree, i: nat)
    requires Rep(t) && i < |t.kids|
    ensures t.at.keys == t.keys && |t.at.ptrs| == |t.kids| && t.at.ptrs[i] == t.kids[i].at
    ensures Rep(t.kids[i]) && t.kids[i].at.keys == t.kids[i].keys
    ensures t.at in Nodes(t) && t.kids[i].at in Nodes(t.kids[i]) && Nodes(t.kids[i]) <= Nodes(t)
  {
    assert t.kids == t.kids[..i] + [t.kids[i]] + t.kids[i + 1..];
    RepKid(t, t.kids[..i], t.kids[i], t.kids[i + 1..]);
    NodesOfConcat(t.kids[..i] + [t.kids[i]], t.kids[i + 1..]);
    NodesOfConcat(t.kids[..i], [t.kids[i]]);
    OneKid(t.kids[i]);
  }

  // ----- the search within a node -----

  /** __kb_getp_aux: the last slot whose key is at most k, and how k compares with the slot it looked at last. */
  method GetAux(keys: seq<int>, k: int, r0: int) returns (i: int, r: int)
    requires Sorted(keys)
    ensures -1 <= i < |keys|
    ensures keys == [] ==> r == r0
    ensures keys != [] ==> (r == 0 <==> k in keys)
    ensures keys != [] && r == 0 ==> i >= 0 && keys[i] == k && forall j :: 0 <= j < i ==> keys[j] < k
    ensures k !in keys ==> (forall j :: 0 <= j <= i ==> keys[j] < k) && (forall j :: i < j < |keys| ==> k < keys[j])
  {
    r := r0;
    var begin, end := 0, |keys|;
    if end == 0 { return -1, r; }
    while begin < end
      invariant 0 <= begin <= end <= |keys|
      invariant forall j :: 0 <= j < begin ==> keys[j] < k
      invariant forall j :: end <= j < |keys| ==> k <= keys[j]
    {
      var mid := (begin + end) / 2;
      if keys[mid] < k { begin := mid + 1; } else { end := mid; }
    }
    if begin == |keys| { return |keys| - 1, 1; }
    r := if k < keys[begin] then -1 else if k == keys[begin] then 0 else 1;
    i := if r < 0 then begin - 1 else begin;
  }

  // ----- merging two children -----

  /**
    The three merge blocks of __kb_delp_aux: the key at slot j goes down, child j takes over the keys
    and children of child j + 1, and the slot and the pointer close up in x.
   */
  method Merge(x: KbNode, j: nat, ghost t: NTree) returns (ghost t': NTree)
    requires Rep(t) && Distinct(t) && x == t.at && j < |t.keys| && |t.kids| == |t.keys| + 1
    requires SameKind(t.kids[j], t.kids[j + 1])
    modifies x, x.ptrs[j]
    ensures t' == FoldPair(t, j, Join(t.kids[j], t.keys[j], t.kids[j + 1]))
    ensures Rep(t') && Distinct(t') && Nodes(t') <= Nodes(t)
  {
    hide RepAll, Apart, NodesOf, Distinct, Nodes, Ats, Rep;
    ghost var l, yt, zt, r := t.kids[..j], t.kids[j], t.kids[j + 1], t.kids[j + 2..];
    ghost var yt' := Join(yt, t.keys[j], zt);
    t' := FoldPair(t, j, yt');
    assert t.kids == l + [yt, zt] + r;
    RepPair(t, l, yt, zt, r);
    DistinctPair(t, l, yt, zt, r);
    var y, z := x.ptrs[j], x.ptrs[j + 1];
    y.keys := y.keys + [x.keys[j]] + z.keys;
    if y.isInternal { y.ptrs := y.ptrs + z.ptrs; }
    x.keys := x.keys[..j] + x.keys[j + 1..];
    x.ptrs := x.ptrs[..j + 1] + x.ptrs[j + 2..];
    AtsConcat(yt.kids, zt.kids);
    RepKid(t', l, yt', r);
    DistinctKid(t', l, yt', r);
  }

  // ----- borrowing from a sibling -----

  /** y without its last key and, when internal, its last child. */
  ghost function DropLast(y: NTree): NTree
    requires y.keys != [] && Arity(y)
  {
    Node(y.at, y.keys[..|y.keys| - 1], if y.kids == [] then [] else y.kids[..|y.keys|])
  }

  ghost function PushFront(z: NTree, k: int, c: seq<NTree>): NTree {
    Node(z.at, [k] + z.keys, c + z.kids)
  }

  /** y without its first key and, when internal, its first child. */
  ghost function DropFirst(y: NTree): NTree
    requires y.keys != [] && Arity(y)
  {
    Node(y.at, y.keys[1..], if y.kids == [] then [] else y.kids[1..])
  }

  ghost function PushBack(z: NTree, k: int, c: seq<NTree>): NTree {
    Node(z.at, z.keys + [k], z.kids + c)
  }

  /** The child a borrow moves: none between leaves. */
  ghost function LastKid(y: NTree): seq<NTree>
    requires Arity(y)
  {
    if y.kids == [] then [] else [y.kids[|y.keys|]]
  }

  ghost function FirstKid(y: NTree): seq<NTree> {
    if y.kids == [] then [] else [y.kids[0]]
  }

  /** The tree after child j has given its last key to child j + 1. */
  ghost function LentRight(t: NTree, j: nat): NTree
    requires j < |t.keys| && |t.kids| == |t.keys| + 1
    requires SameKind(t.kids[j], t.kids[j + 1]) && t.kids[j].keys != []
  {
    var y, z := t.kids[j], t.kids[j + 1];
    SetPair(t, j, DropLast(y), y.keys[|y.keys| - 1], PushFront(z, t.keys[j], LastKid(y)))
  }

  /** The tree after child j + 1 has given its first key to child j. */
  ghost function LentLeft(t: NTree, j: nat): NTree
    requires j < |t.keys| && |t.kids| == |t.keys| + 1
    requires SameKind(t.kids[j], t.kids[j + 1]) && t.kids[j + 1].keys != []
  {
    var y, z := t.kids[j], t.kids[j + 1];
    SetPair(t, j, PushBack(y, t.keys[j], FirstKid(z)), z.keys[0], DropFirst(z))
  }

  lemma LentRightJoin(t: NTree, j: nat)
    requires j < |t.keys| && |t.kids| == |t.keys| + 1
    requires SameKind(t.kids[j], t.kids[j + 1]) && t.kids[j].keys != []
    ensures var y, z := t.kids[j], t.kids[j + 1];
            var y', k', z' := DropLast(y), y.keys[|y.keys| - 1], PushFront(z, t.keys[j], LastKid(y));
            SameKind(y', z') && Join(y', k', z') == Join(y, t.keys[j], z)
  {
    var y := t.kids[j];
    assert y.keys == y.keys[..|y.keys| - 1] + [y.keys[|y.keys| - 1]];
    if y.kids != [] { assert y.kids == y.kids[..|y.keys|] + [y.kids[|y.keys|]]; }
  }

  lemma LentLeftJoin(t: NTree, j: nat)
    requires j < |t.keys| && |t.kids| == |t.keys| + 1
    requires SameKind(t.kids[j], t.kids[j + 1]) && t.kids[j + 1].keys != []
    ensures var y, z := t.kids[j], t.kids[j + 1];
            var y', k', z' := PushBack(y, t.keys[j], FirstKid(z)), z.keys[0], DropFirst(z);
            SameKind(y', z') && Join(y', k', z') == Join(y, t.keys[j], z)
  {
    var z := t.kids[j + 1];
    assert z.keys == [z.keys[0]] + z.keys[1..];
    if z.kids != [] { assert z.kids == [z.kids[0]] + z.kids[1..]; }
  }

  /** Exchanging the local contents of a pair for others with the same join keeps the memory in order. */
  lemma PairRearranged(t: NTree, j: nat, y': NTree, k': int, z': NTree)
    requires j < |t.keys| && |t.kids| == |t.keys| + 1 && Distinct(t)
    requires y'.at == t.kids[j].at && z'.at == t.kids[j + 1].at
    requires y'.kids + z'.kids == t.kids[j].kids + t.kids[j + 1].kids
    requires Local(SetPair(t, j, y', k', z')) && Local(y') && Local(z')
    requires RepAll(t.kids[..j]) && RepAll(y'.kids + z'.kids) && RepAll(t.kids[j + 2..])
    ensures var t' := SetPair(t, j, y', k', z'); Rep(t') && Distinct(t') && Nodes(t') == Nodes(t)
  {
    hide RepAll, Apart, NodesOf, Distinct, Nodes, Ats, Rep;
    var l, r, t' := t.kids[..j], t.kids[j + 2..], SetPair(t, j, y', k', z');
    assert t.kids == l + [t.kids[j], t.kids[j + 1]] + r;
    assert t'.kids == l + [y', z'] + r;
    DistinctPair(t, l, t.kids[j], t.kids[j + 1], r);
    DistinctPair(t', l, y', z', r);
    RepPair(t', l, y', z', r);
  }

  /** The block of __kb_delp_aux that borrows from the left sibling, for children j and j + 1. */
  method BorrowLeft(x: KbNode, j: nat, ghost t: NTree) returns (ghost t': NTree)
    requires Rep(t) && Distinct(t) && x == t.at && j < |t.keys| && |t.kids| == |t.keys| + 1
    requires SameKind(t.kids[j], t.kids[j + 1]) && t.kids[j].keys != []
    modifies x, x.ptrs[j], x.ptrs[j + 1]
    ensures t' == LentRight(t, j)
    ensures Rep(t') && Distinct(t') && Nodes(t') == Nodes(t)
  {
    hide RepAll, Apart, NodesOf, Distinct, Nodes, Ats, Rep;
    ghost var l, yt, zt, r := t.kids[..j], t.kids[j], t.kids[j + 1], t.kids[j + 2..];
    assert t.kids == l + [yt, zt] + r;
    RepPair(t, l, yt, zt, r);
    DistinctPair(t, l, yt, zt, r);
    LentRightJoin(t, j);
    var xp, y := x.ptrs[j + 1], x.ptrs[j];
    var n := |y.keys|;
    xp.keys := [x.keys[j]] + xp.keys;
    x.keys := x.keys[j := y.keys[n - 1]];
    if xp.isInternal {
      xp.ptrs := [y.ptrs[n]] + xp.ptrs;
      y.ptrs := y.ptrs[..n];
    }
    y.keys := y.keys[..n - 1];
    t' := LentRight(t, j);
    PairRearranged(t, j, t'.kids[j], t'.keys[j], t'.kids[j + 1]);
  }

  /** The block that borrows from the right sibling, for children j and j + 1. */
  method BorrowRight(x: KbNode, j: nat, ghost t: NTree) returns (ghost t': NTree)
    requires Rep(t) && Distinct(t) && x == t.at && j < |t.keys| && |t.kids| == |t.keys| + 1
    requires SameKind(t.kids[j], t.kids[j + 1]) && t.kids[j + 1].keys != []
    modifies x, x.ptrs[j], x.ptrs[j + 1]
    ensures t' == LentLeft(t, j)
    ensures Rep(t') && Distinct(t') && Nodes(t') == Nodes(t)
  {
    hide RepAll, Apart, NodesOf, Distinct, Nodes, Ats, Rep;
    ghost var l, yt, zt, r := t.kids[..j], t.kids[j], t.kids[j + 1], t.kids[j + 2..];
    assert t.kids == l + [yt, zt] + r;
    RepPair(t, l, yt, zt, r);
    DistinctPair(t, l, yt, zt, r);
    LentLeftJoin(t, j);
    var xp, y := x.ptrs[j], x.ptrs[j + 1];
    xp.keys := xp.keys + [x.keys[j]];
    x.keys := x.keys[j := y.keys[0]];
    if xp.isInternal {
      xp.ptrs := xp.ptrs + [y.ptrs[0]];
    }
    y.keys := y.keys[1..];
    if y.isInternal {
      y.ptrs := y.ptrs[1..];
    }
    t' := LentLeft(t, j);
    PairRearranged(t, j, t'.kids[j], t'.keys[j], t'.kids[j + 1]);
  }

  // ----- splitting a full child -----

  lemma {:induction false} NodesAllocated(t: NTree)
    ensures forall n :: n in Nodes(t) ==> allocated(n)
    decreases t, 1
  {
    NodesOfAllocated(t.kids);
  }

  lemma {:induction false} NodesOfAllocated(ts: seq<NTree>)
    ensures forall n :: n in NodesOf(ts) ==> allocated(n)
    decreases ts, 0
  {
    if ts != [] {
      NodesAllocated(ts[0]);
      NodesOfAllocated(ts[1..]);
    }
  }

  ghost function SplitLow(y: NTree, tt: nat): NTree
    requires tt >= 1 && |y.keys| == 2 * tt - 1 && Arity(y)
  {
    Node(y.at, y.keys[..tt - 1], if y.kids == [] then [] else y.kids[..tt])
  }

  ghost function SplitHigh(y: NTree, tt: nat, at: KbNode): NTree
    requires tt >= 1 && |y.keys| == 2 * tt - 1 && Arity(y)
  {
    Node(at, y.keys[tt..], if y.kids == [] then [] else y.kids[tt..])
  }

  lemma SplitJoin(y: NTree, tt: nat, at: KbNode)
    requires tt >= 1 && |y.keys| == 2 * tt - 1 && Arity(y)
    ensures var y', z' := SplitLow(y, tt), SplitHigh(y, tt, at);
            SameKind(y', z') && Join(y', y.keys[tt - 1], z') == y
  {
    assert y.keys == y.keys[..tt - 1] + [y.keys[tt - 1]] + y.keys[tt..];
    if y.kids != [] { assert y.kids == y.kids[..tt] + y.kids[tt..]; }
  }

  lemma SplitKids(y: NTree, tt: nat, at: KbNode)
    requires tt >= 1 && |y.keys| == 2 * tt - 1 && Arity(y)
    ensures SplitLow(y, tt).kids + SplitHigh(y, tt, at).kids == y.kids
  {
    if y.kids != [] { assert y.kids == y.kids[..tt] + y.kids[tt..]; }
  }

  /** The assignments of __kb_split. */
  method SplitFields(x: KbNode, i: nat, tt: nat, ghost t: NTree) returns (z: KbNode)
    requires x == t.at && i < |t.kids| == |t.keys| + 1 && t.kids[i].at != x && Local(t) && Local(t.kids[i])
    requires tt >= 1 && |t.kids[i].keys| == 2 * tt - 1 && Arity(t.kids[i])
    modifies x, t.kids[i].at
    ensures fresh(z) && Local(SplitLow(t.kids[i], tt)) && Local(SplitHigh(t.kids[i], tt, z))
    ensures Local(UnfoldKid(t, i, SplitLow(t.kids[i], tt), t.kids[i].keys[tt - 1], SplitHigh(t.kids[i], tt, z)))
  {
    hide Ats;
    var y := x.ptrs[i];
    z := new KbNode(y.isInternal, y.keys[tt..], if y.isInternal then y.ptrs[tt..] else []);
    var mid := y.keys[tt - 1];
    y.keys := y.keys[..tt - 1];
    if y.isInternal { y.ptrs := y.ptrs[..tt]; }
    x.ptrs := x.ptrs[..i + 1] + [z] + x.ptrs[i + 1..];
    x.keys := x.keys[..i] + [mid] + x.keys[i..];
  }

  /** __kb_split: a full child i gives its upper half to a new node and its middle key to x. */
  method Split(x: KbNode, i: nat, tt: nat, ghost t: NTree) returns (z: KbNode, ghost t': NTree)
    requires Rep(t) && Distinct(t) && x == t.at && i < |t.kids| == |t.keys| + 1
    requires tt >= 1 && |t.kids[i].keys| == 2 * tt - 1 && Arity(t.kids[i])
    modifies x, x.ptrs[i]
    ensures fresh(z)
    ensures t' == UnfoldKid(t, i, SplitLow(t.kids[i], tt), t.kids[i].keys[tt - 1], SplitHigh(t.kids[i], tt, z))
    ensures Rep(t') && Distinct(t') && Nodes(t') == Nodes(t) + {z}
  {
    hide RepAll, Apart, NodesOf, Distinct, Nodes, Ats, Rep;
    ghost var l, yt, r := t.kids[..i], t.kids[i], t.kids[i + 1..];
    assert t.kids == l + [yt] + r;
    RepKid(t, l, yt, r);
    DistinctKid(t, l, yt, r);
    ghost var nodes := Nodes(t);
    NodesAllocated(t);
    z := SplitFields(x, i, tt, t);
    ghost var y', z' := SplitLow(yt, tt), SplitHigh(yt, tt, z);
    t' := UnfoldKid(t, i, y', yt.keys[tt - 1], z');
    SplitKids(yt, tt, z);
    assert t'.kids == l + [y', z'] + r;
    assert z !in nodes;
    DistinctPair(t', l, y', z', r);
    RepPair(t', l, y', z', r);
  }
}
