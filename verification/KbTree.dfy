/** kbtree_t: the B-tree object, its operations, and its traversal with an explicit stack. */
module KbTree {
  import opened SortedSeqs
  import opened KTree
  import opened KbNodes
  import opened KbDelete
  import opened KbInsert
  import opened Options

  class KbTree {
    var root: KbNode
    const t: nat
    var nKeys: nat
    ghost var tree: NTree
    ghost var height: nat

    ghost predicate Valid()
      reads this, Nodes(tree)
    {
      && t >= 2 && tree.at == root && Rep(tree) && Distinct(tree)
      && Ok(tree, t, height, if height == 0 then 0 else 1)
      && Sorted(Elems(tree)) && nKeys == |Elems(tree)|
    }

    /** The keys in the tree, in order. */
    ghost function Contents(): seq<int>
      reads this
    {
      Elems(tree)
    }

    ghost function Repr(): set<object>
      reads this
    {
      Nodes(tree) + {this}
    }

    /** kb_init, for a minimum degree of at least two. */
    constructor (t: nat)
      requires t >= 2
      ensures Valid() && this.t == t && Contents() == [] && forall n :: n in Repr() ==> fresh(n)
    {
      var r := new KbNode(false, [], []);
      root := r;
      this.t := t;
      nKeys := 0;
      tree := Node(r, [], []);
      height := 0;
      new;
      NodesOne(tree);
      assert Repr() == {this, root};
    }

    /** kb_putp: the key is added to the multiset, and the contents stay in order. */
    method Put(k: int)
      requires Valid()
      modifies Repr()
      ensures Valid() && forall n :: n in Repr() && n !in old(Repr()) ==> fresh(n)
      ensures multiset(Contents()) == multiset(old(Contents())) + multiset{k}
    {
      hide Rep, Distinct, Nodes, Elems, Sorted;
      if |root.keys| == 2 * t - 1 {
        GrowRoot();
      }
      RepLocal(tree);
      ghost var before := tree;
      ghost var p;
      tree, p := Insert(root, k, t, height, tree);
      InsertAtMultiset(Elems(before), p, k);
      nKeys := nKeys + 1;
    }

    /** The part of kb_putp that puts a new root above a full one and splits the old one. */
    method GrowRoot()
      requires Valid() && |root.keys| == 2 * t - 1
      modifies Repr()
      ensures Valid() && forall n :: n in Repr() && n !in old(Repr()) ==> fresh(n)
      ensures Contents() == old(Contents()) && |root.keys| == 1
    {
      hide Rep, Distinct, Nodes, Elems, Sorted;
      NodesAllocated(tree);
      RepLocal(tree);
      var s := new KbNode(true, [], [root]);
      root := s;
      NewRoot(tree, s, t, height);
      var z;
      height := height + 1;
      z, tree := SplitChild(s, 0, t, height, Node(s, [], [tree]));
      RepLocal(tree);
    }

    /** kb_delp: one occurrence of a key that is there leaves the multiset, and the contents stay in order. */
    method Del(k: int) returns (ret: int)
      requires Valid() && k in Contents()
      modifies Repr()
      ensures Valid() && Repr() <= old(Repr())
      ensures ret == k && multiset(Contents()) == multiset(old(Contents())) - multiset{k}
    {
      hide Rep, Distinct, Nodes, Elems, Sorted;
      RootNonEmpty(tree, t, height);
      ghost var before := tree;
      ghost var p;
      ret, tree, p := Delete(root, k, 0, t, height, tree);
      RemoveAtMultiset(Elems(before), p);
      RemoveAtSorted(Elems(before), p);
      nKeys := nKeys - 1;
      RepLocal(tree);
      if |root.keys| == 0 && root.isInternal {
        OnlyChild(tree);
        root := root.ptrs[0];
        tree := tree.kids[0];
        height := height - 1;
      }
    }

    /** kb_getp: whether the key is in the tree. */
    method Get(k: int) returns (found: bool)
      requires Valid()
      ensures found <==> k in Contents()
    {
      hide Rep, Distinct, Nodes, Elems, Sorted, RepAll, Apart, NodesOf;
      NodesAllocated(tree);
      var x, i, r := root, -1, 0;
      ghost var g, h := tree, height;
      OkLower(tree, t, height, if height == 0 then 0 else 1, 0);
      while true
        invariant x == g.at && Rep(g) && Sorted(Elems(g)) && Ok(g, t, h, 0)
        invariant Nodes(g) <= Nodes(tree) && Valid()
        invariant k in Elems(g) <==> k in Elems(tree)
        decreases h
      {
        KeysSorted(g);
        RepLocal(g);
        i, r := GetAux(x.keys, k, r);
        if i >= 0 && r == 0 {
          KeyInElems(g, i);
          return true;
        }
        if !x.isInternal {
          LeafElems(g);
          return false;
        }
        InChildIff(g, i + 1, k);
        KidAt(g, i + 1);
        x := x.ptrs[i + 1];
        g, h := g.kids[i + 1], h - 1;
      }
    }

    /** kb_intervalp: the key itself twice if it is there, else its nearest neighbours in the tree. */
    method Interval(k: int) returns (lower: Option<int>, upper: Option<int>)
      requires Valid()
      ensures IsInterval(Contents(), k, lower, upper)
    {
      hide Rep, Distinct, Nodes, Elems, Sorted, RepAll, Apart, NodesOf;
      NodesAllocated(tree);
      var x, i, r := root, -1, 0;
      lower, upper := None, None;
      ghost var g, h, a: seq<int>, b: seq<int> := tree, height, [], [];
      OkLower(tree, t, height, if height == 0 then 0 else 1, 0);
      assert Elems(tree) == a + Elems(tree) + b;
      while true
        invariant x == g.at && Rep(g) && Sorted(Elems(g)) && Ok(g, t, h, 0)
        invariant Nodes(g) <= Nodes(tree) && Valid()
        invariant Elems(tree) == a + Elems(g) + b
        invariant (forall e :: e in a ==> e < k) && (forall e :: e in b ==> k < e)
        invariant lower == LastOf(a) && upper == FirstOf(b)
        decreases h
      {
        KeysSorted(g);
        RepLocal(g);
        i, r := GetAux(x.keys, k, r);
        if i >= 0 && r == 0 {
          KeyInElems(g, i);
          lower, upper := Some(x.keys[i]), Some(x.keys[i]);
          return;
        }
        if i >= 0 { lower := Some(x.keys[i]); }
        if i < |x.keys| - 1 { upper := Some(x.keys[i + 1]); }
        if !x.isInternal {
          LeafInterval(g, a, b, i + 1, k, lower, upper);
          return;
        }
        ghost var c := i + 1;
        IntervalBelow(g, a, b, c, k, lower, upper);
        KidAt(g, c);
        a, b := a + Before(g, c), After(g, c) + b;
        x := x.ptrs[i + 1];
        g, h := g.kids[c], h - 1;
      }
    }
  }

  lemma NewRoot(tree: NTree, s: KbNode, tt: nat, h: nat)
    requires tt >= 2 && Rep(tree) && Distinct(tree) && s !in Nodes(tree) && Ok(tree, tt, h, tt - 1)
    requires s.isInternal && s.keys == [] && s.ptrs == [tree.at]
    ensures var t0 := Node(s, [], [tree]);
            Rep(t0) && Distinct(t0) && Nodes(t0) == Nodes(tree) + {s} && KidsOk(t0, tt, h + 1) && Elems(t0) == Elems(tree)
  {
    var t0 := Node(s, [], [tree]);
    assert t0.kids[1..] == [];
    assert Ats([tree]) == [tree.at];
  }

  lemma RootNonEmpty(tree: NTree, tt: nat, h: nat)
    requires Ok(tree, tt, h, if h == 0 then 0 else 1) && Elems(tree) != []
    ensures Ok(tree, tt, h, 1)
  {
  }

  /** A root without keys has one child, which holds everything. */
  lemma OnlyChild(tree: NTree)
    requires Rep(tree) && Distinct(tree) && |tree.kids| == |tree.keys| + 1 && tree.keys == []
    ensures var c := tree.kids[0];
            tree.at.ptrs[0] == c.at && Rep(c) && Distinct(c) && Nodes(c) <= Nodes(tree) && Elems(c) == Elems(tree)
  {
    assert tree.kids == [tree.kids[0]];
    assert tree.kids[1..] == [];
  }

  lemma KeyInElems(t: NTree, i: nat)
    requires Arity(t) && i < |t.keys|
    ensures t.keys[i] in Elems(t)
  {
    if t.kids != [] {
      hide Elems;
      FocusPair(t, i);
      var a, b := Before(t, i), Post(t.keys[i + 1..], t.kids[i + 2..]);
      var e := Elems(t.kids[i]) + [t.keys[i]] + Elems(t.kids[i + 1]);
      assert t.keys[i] in e;
      assert Elems(t) == a + e + b;
    }
  }

  lemma LeafElems(t: NTree)
    requires t.kids == []
    ensures Elems(t) == t.keys
  {
  }

  /** The child between strict neighbours of k holds k iff the tree does. */
  lemma InChildIff(t: NTree, i: nat, k: int)
    requires i < |t.kids| == |t.keys| + 1 && Sorted(Elems(t))
    requires i > 0 ==> t.keys[i - 1] < k
    requires i < |t.keys| ==> k < t.keys[i]
    ensures k in Elems(t) <==> k in Elems(t.kids[i])
    ensures Sorted(Elems(t.kids[i]))
  {
    hide Elems, Before, After;
    Separates(t, i, k);
    if k in Elems(t) { InChild(t, i, k); }
  }

  lemma OkLower(t: NTree, tt: nat, h: nat, lo: int, lo': int)
    requires Ok(t, tt, h, lo) && lo' <= lo
    ensures Ok(t, tt, h, lo')
  {
  }

  // ----- nearest neighbours -----

  ghost predicate IsInterval(s: seq<int>, k: int, lower: Option<int>, upper: Option<int>) {
    if k in s then lower == upper == Some(k)
    else
      && (lower.None? ==> forall e :: e in s ==> k < e)
      && (lower.Some? ==> lower.value in s && lower.value < k && forall e :: e in s && e < k ==> e <= lower.value)
      && (upper.None? ==> forall e :: e in s ==> e < k)
      && (upper.Some? ==> upper.value in s && k < upper.value && forall e :: e in s && k < e ==> upper.value <= e)
  }

  ghost function LastOf(s: seq<int>): Option<int> {
    if s == [] then None else Some(s[|s| - 1])
  }

  ghost function FirstOf(s: seq<int>): Option<int> {
    if s == [] then None else Some(s[0])
  }

  /** A cut of a sorted sequence between keys below k and keys above k gives the neighbours. */
  lemma CutIsInterval(a: seq<int>, b: seq<int>, k: int)
    requires Sorted(a + b) && (forall e :: e in a ==> e < k) && (forall e :: e in b ==> k < e)
    ensures IsInterval(a + b, k, LastOf(a), FirstOf(b))
  {
    hide Sorted;
    SortedHalves(a, b);
    SortedEnds(a);
    SortedEnds(b);
    EitherHalf(a, b);
  }

  lemma SortedHalves(a: seq<int>, b: seq<int>)
    requires Sorted(a + b)
    ensures Sorted(a) && Sorted(b)
  {
    assert [] + a + b == a + b;
    SortedParts([], a, b);
  }

  lemma EitherHalf(a: seq<int>, b: seq<int>)
    ensures forall e :: e in a + b ==> e in a || e in b
    ensures forall e :: e in a || e in b ==> e in a + b
  {
  }

  lemma SortedEnds(s: seq<int>)
    requires Sorted(s)
    ensures s != [] ==> s[0] in s && s[|s| - 1] in s && forall e :: e in s ==> s[0] <= e <= s[|s| - 1]
  {
  }

  lemma LeafInterval(g: NTree, a: seq<int>, b: seq<int>, c: nat, k: int, lower: Option<int>, upper: Option<int>)
    requires g.kids == [] && c <= |g.keys| && Sorted(a + Elems(g) + b)
    requires forall j :: 0 <= j < c ==> g.keys[j] < k
    requires forall j :: c <= j < |g.keys| ==> k < g.keys[j]
    requires (forall e :: e in a ==> e < k) && (forall e :: e in b ==> k < e)
    requires lower == if c > 0 then Some(g.keys[c - 1]) else LastOf(a)
    requires upper == if c < |g.keys| then Some(g.keys[c]) else FirstOf(b)
    ensures IsInterval(a + Elems(g) + b, k, lower, upper)
  {
    var a', b' := a + g.keys[..c], g.keys[c..] + b;
    assert a' + b' == a + Elems(g) + b;
    CutIsInterval(a', b', k);
  }

  lemma IntervalBelow(g: NTree, a: seq<int>, b: seq<int>, c: nat, k: int, lower: Option<int>, upper: Option<int>)
    requires c < |g.kids| == |g.keys| + 1 && Sorted(Elems(g))
    requires c > 0 ==> g.keys[c - 1] < k
    requires c < |g.keys| ==> k < g.keys[c]
    requires (forall e :: e in a ==> e < k) && (forall e :: e in b ==> k < e)
    requires lower == if c > 0 then Some(g.keys[c - 1]) else LastOf(a)
    requires upper == if c < |g.keys| then Some(g.keys[c]) else FirstOf(b)
    ensures a + Elems(g) + b == (a + Before(g, c)) + Elems(g.kids[c]) + (After(g, c) + b)
    ensures Sorted(Elems(g.kids[c]))
    ensures (forall e :: e in a + Before(g, c) ==> e < k) && (forall e :: e in After(g, c) + b ==> k < e)
    ensures lower == LastOf(a + Before(g, c)) && upper == FirstOf(After(g, c) + b)
  {
    hide Elems, Before, After, Sorted;
    Separates(g, c, k);
    BeforeEnds(g, c);
    Widen(a, Before(g, c), Elems(g.kids[c]), After(g, c), b, k);
  }

  lemma Widen(a: seq<int>, p: seq<int>, e: seq<int>, q: seq<int>, b: seq<int>, k: int)
    requires (forall x :: x in a ==> x < k) && (forall x :: x in b ==> k < x)
    requires (forall x :: x in p ==> x < k) && (forall x :: x in q ==> k < x)
    ensures a + (p + e + q) + b == (a + p) + e + (q + b)
    ensures (forall x :: x in a + p ==> x < k) && (forall x :: x in q + b ==> k < x)
    ensures LastOf(a + p) == if p == [] then LastOf(a) else LastOf(p)
    ensures FirstOf(q + b) == if q == [] then FirstOf(b) else FirstOf(q)
  {
  }
}
