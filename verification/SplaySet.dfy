/** The sorted set that the splay operations keep: every operation splays first and then works at the root. */
module SplaySet {
  import opened SplayNodes
  import opened Splay

  class SplaySet {
    const head: SplayHead
    ghost var tree: Tree

    ghost predicate Valid()
      reads this, head, Nodes(tree)
    {
      Rep(tree, head.root) && Ascending(Order(tree))
    }

    constructor ()
      ensures Valid() && fresh(head) && Order(tree) == []
    {
      head := new SplayHead();
      tree := Leaf;
    }

    /** Splay with the ghost tree kept up. */
    method Top(p: Probe)
      requires Valid() && tree.Bin?
      modifies this, head, Nodes(tree)
      ensures Valid() && tree.Bin? && Order(tree) == old(Order(tree)) && Nodes(tree) == old(Nodes(tree))
      ensures Nearest(tree, p) && head.root == tree.at
    {
      hide Order, Nodes, Ascending, Nearest;
      ghost var was := tree;
      ghost var t := head.Splay(p, tree);
      RepParts(t, head.root);
      SameNodes(was, t);
      tree := t;
      assert Rep(t, head.root);
    }

    /** SPLAY_FIND */
    method Find(k: int) returns (r: SplayNode?)
      requires Valid()
      modifies this, head, Nodes(tree)
      ensures Valid() && Order(tree) == old(Order(tree)) && Nodes(tree) == old(Nodes(tree))
      ensures r != null ==> r in Order(tree) && r.key == k
      ensures r == null ==> forall x :: x in Order(tree) ==> x.key != k
    {
      if head.root == null { return null; }
      Top(Key(k));
      NearestDecides(tree, Key(k));
      r := if k == head.root.key then head.root else null;
    }

    /** SPLAY_MIN and SPLAY_MAX: the first or the last node. */
    method MinMax(max: bool) returns (r: SplayNode?)
      requires Valid()
      modifies this, head, Nodes(tree)
      ensures Valid() && Order(tree) == old(Order(tree)) && Nodes(tree) == old(Nodes(tree))
      ensures r == null <==> Order(tree) == []
      ensures r != null ==> r == if max then Order(tree)[|Order(tree)| - 1] else Order(tree)[0]
    {
      if head.root == null { return null; }
      Top(if max then Highest else Lowest);
      Extremes(tree);
      r := head.root;
    }

    /** SPLAY_INSERT: null when elm went in, at place i of the order; the node with its key when there is one. */
    method Insert(elm: SplayNode) returns (r: SplayNode?, ghost i: nat)
      requires Valid() && elm !in Nodes(tree)
      modifies this, head, elm, Nodes(tree)
      ensures Valid() && i <= |old(Order(tree))|
      ensures r == null ==>
        && Order(tree) == old(Order(tree))[..i] + [elm] + old(Order(tree))[i..]
        && Nodes(tree) == old(Nodes(tree)) + {elm}
      ensures r != null ==>
        Order(tree) == old(Order(tree)) && Nodes(tree) == old(Nodes(tree)) && r in Order(tree) && r.key == elm.key
      ensures r == null <==> forall x :: x in old(Order(tree)) ==> x.key != elm.key
    {
      hide Order, Nodes, Ascending, Nearest;
      i := 0;
      SingleNode(elm);
      if head.root == null {
        elm.left, elm.right := null, null;
        tree := Bin(Leaf, elm, Leaf);
        head.root := elm;
        return null, 0;
      }
      Top(Key(elm.key));
      NearestDecides(tree, Key(elm.key));
      ghost var t := tree;
      BinMembers(t);
      RepParts(t, head.root);
      BinApart(t);
      NodesOrder(t);
      InsertedNodes(t, elm);
      ghost var t': Tree;
      if elm.key < head.root.key {
        elm.left := head.root.left;
        elm.right := head.root;
        head.root.left := null;
        t' := Bin(t.l, elm, Bin(Leaf, t.at, t.r));
        assert Rep(t.l, elm.left) && Rep(Bin(Leaf, t.at, t.r), elm.right);
        i := |Order(t.l)|;
        SplitBelow(t, elm);
      } else if elm.key > head.root.key {
        elm.right := head.root.right;
        elm.left := head.root;
        head.root.right := null;
        t' := Bin(Bin(t.l, t.at, Leaf), elm, t.r);
        assert Rep(t.r, elm.right) && Rep(Bin(t.l, t.at, Leaf), elm.left);
        i := |Order(t.l)| + 1;
        SplitAbove(t, elm);
      } else {
        return head.root, 0;
      }
      assert Rep(t', elm);
      tree := t';
      head.root := elm;
      assert Rep(t', elm);
      r := null;
    }

    /** SPLAY_REMOVE: the node with the key leaves; the largest key below it becomes the root if there is one. */
    method Remove(k: int) returns (removed: bool, ghost i: nat)
      requires Valid()
      modifies this, head, Nodes(tree)
      ensures Valid()
      ensures removed ==>
        && i < |old(Order(tree))| && old(Order(tree))[i].key == k
        && Order(tree) == old(Order(tree))[..i] + old(Order(tree))[i + 1..]
      ensures !removed ==> Order(tree) == old(Order(tree)) && forall x :: x in Order(tree) ==> x.key != k
    {
      hide Order, Nodes, Ascending, Nearest;
      i := 0;
      EmptyTree();
      if head.root == null { return false, 0; }
      Top(Key(k));
      NearestDecides(tree, Key(k));
      ghost var t := tree;
      RepParts(t, head.root);
      BinMembers(t);
      BinApart(t);
      BinOrders(t);
      if k != head.root.key { return false, 0; }
      i := |Order(t.l)|;
      removed := true;
      if head.root.left == null {
        head.root := head.root.right;
        assert Rep(t.r, head.root);
        tree := t.r;
        assert Rep(t.r, head.root);
      } else {
        var tmp := head.root.right;
        head.root := head.root.left;
        assert Rep(t.l, head.root) && Rep(t.r, tmp);
        NodesAllocated(t.r);
        BinParts(t);
        ghost var left := head.Splay(Key(k), t.l);
        RootIsLargest(t, left, k);
        RepParts(left, head.root);
        BinMembers(left);
        SameNodes(left, t.l);
        BinApart(left);
        head.root.right := tmp;
        assert Rep(left.l, head.root.left);
        ghost var t' := Bin(left.l, left.at, t.r);
        assert Rep(t', head.root);
        tree := t';
        assert Rep(t', head.root);
      }
    }

    /** SPLAY_NEXT: the node behind elm, or null behind the last. */
    method Next(elm: SplayNode, ghost i: nat) returns (r: SplayNode?)
      requires Valid() && i < |Order(tree)| && Order(tree)[i] == elm
      modifies this, head, Nodes(tree)
      ensures Valid() && Order(tree) == old(Order(tree)) && Nodes(tree) == old(Nodes(tree))
      ensures r == if i + 1 < |Order(tree)| then Order(tree)[i + 1] else null
    {
      hide Order, Nodes, Ascending, Nearest;
      NonEmpty(tree);
      Top(Key(elm.key));
      NearestDecides(tree, Key(elm.key));
      ghost var t := tree;
      RepParts(t, head.root);
      RootPlace(t, elm, i);
      if elm.right == null {
        EmptyTree();
        return null;
      }
      r := elm.right;
      NodesAllocated(t);
      ghost var cur := t.r;
      RepParts(cur, r);
      while r.left != null
        modifies {}
        invariant cur.Bin? && Rep(cur, r) && r == cur.at
        invariant Order(cur) != [] && Order(cur)[0] == Order(t.r)[0]
        decreases cur
      {
        RepParts(cur, r);
        FirstOfLeft(cur);
        cur := cur.l;
        r := r.left;
        RepParts(cur, r);
      }
      RepParts(cur, r);
      FirstOfLeft(cur);
    }

    /** SPLAY_FOREACH visits every node once, in order. */
    method ListAll() returns (list: seq<SplayNode>)
      requires Valid()
      modifies this, head, Nodes(tree)
      ensures Valid() && Order(tree) == old(Order(tree)) && list == Order(tree)
    {
      list := [];
      var x := MinMax(false);
      while x != null
        invariant Valid() && Order(tree) == old(Order(tree)) && Nodes(tree) == old(Nodes(tree))
        invariant |list| <= |Order(tree)| && list == Order(tree)[..|list|]
        invariant x == if |list| < |Order(tree)| then Order(tree)[|list|] else null
        decreases |Order(tree)| - |list|
      {
        ghost var n := |list|;
        list := list + [x];
        x := Next(x, n);
      }
    }
  }

  lemma NonEmpty(t: Tree)
    ensures Order(t) != [] ==> t.Bin?
  {
  }

  /** The node with the key of elm is elm, and what follows it starts its right subtree. */
  lemma RootPlace(t: Tree, elm: SplayNode, i: nat)
    requires t.Bin? && Ascending(Order(t)) && i < |Order(t)| && Order(t)[i] == elm
    requires (exists x :: x in Order(t) && At(Key(elm.key), x.key)) <==> At(Key(elm.key), t.at.key)
    ensures t.at == elm && i == |Order(t.l)|
    ensures i + 1 < |Order(t)| <==> Order(t.r) != []
    ensures i + 1 < |Order(t)| ==> Order(t)[i + 1] == Order(t.r)[0]
    ensures t.r.Bin? <==> Order(t.r) != []
  {
    assert Order(t)[i] in Order(t) && At(Key(elm.key), elm.key);
    NonEmpty(t.r);
    if t.r.Bin? { BinOrder1(t.r); }
    BinOrders(t);
    hide Order;
    var j := |Order(t.l)|;
    SameIndex(Order(t), i, j);
    if i + 1 < |Order(t)| { assert Order(t)[i + 1] == Order(t)[i + 1..][0]; }
  }

  lemma SameIndex(s: seq<SplayNode>, i: nat, j: nat)
    requires Ascending(s) && i < |s| && j < |s| && s[i].key == s[j].key
    ensures i == j
  {
  }

  lemma BinOrder1(t: Tree)
    requires t.Bin?
    ensures Order(t) != []
  {
  }

  lemma FirstOfLeft(t: Tree)
    requires t.Bin?
    ensures t.l.Bin? ==> Order(t.l) != [] && Order(t)[0] == Order(t.l)[0]
    ensures t.l.Leaf? ==> Order(t)[0] == t.at
    ensures Order(t) != []
  {
    if t.l.Bin? { BinOrder1(t.l); }
  }

  lemma EmptyTree()
    ensures Order(Leaf) == [] && Nodes(Leaf) == {}
  {
  }

  lemma BinOrders(t: Tree)
    requires t.Bin? && Ascending(Order(t))
    ensures Order(t)[|Order(t.l)|] == t.at && |Order(t)| == |Order(t.l)| + 1 + |Order(t.r)|
    ensures t.l.Leaf? ==> Order(t.r) == Order(t)[..|Order(t.l)|] + Order(t)[|Order(t.l)| + 1..] && Ascending(Order(t.r))
    ensures Order(t)[..|Order(t.l)|] == Order(t.l) && Order(t)[|Order(t.l)| + 1..] == Order(t.r)
  {
    BinParts(t);
    assert t == Bin(t.l, t.at, t.r);
    OrderBin(t.l, t.at, t.r);
    EmptyTree();
    hide Order, Ascending;
  }

  /** After a splay for a larger key, the root of the left subtree has nothing on its right. */
  lemma RootIsLargest(t: Tree, left: Tree, k: int)
    requires t.Bin? && t.at.key == k && Ascending(Order(t))
    requires left.Bin? && Order(left) == Order(t.l) && Nearest(left, Key(k))
    ensures left.r.Leaf?
    ensures Order(Bin(left.l, left.at, t.r)) == Order(t)[..|Order(t.l)|] + Order(t)[|Order(t.l)| + 1..]
    ensures Ascending(Order(Bin(left.l, left.at, t.r)))
  {
    BinParts(t);
    SameNodes(left, t.l);
    BinMembers(left);
    if left.r.Bin? { BinMembers(left.r); assert false; }
    BinOrders(t);
    OrderBin(left.l, left.at, t.r);
    OrderBin(left.l, left.at, Leaf);
    assert left == Bin(left.l, left.at, Leaf);
    hide Order, Nodes, Nearest;
    assert Order(left.l) + [left.at] == Order(t.l);
    NodesOrder(t.l);
    NodesOrder(t.r);
    Together(Order(t.l), Order(t.r));
  }

  lemma SameNodes(a: Tree, b: Tree)
    requires Order(a) == Order(b)
    ensures Nodes(a) == Nodes(b)
  {
    NodesOrder(a);
    NodesOrder(b);
  }

  lemma Extremes(t: Tree)
    requires t.Bin? && Ascending(Order(t))
    ensures Nearest(t, Lowest) ==> Order(t)[0] == t.at
    ensures Nearest(t, Highest) ==> Order(t)[|Order(t)| - 1] == t.at
  {
    if t.l.Bin? { assert t.l.at in Nodes(t.l); }
    if t.r.Bin? { assert t.r.at in Nodes(t.r); }
  }

  lemma SingleNode(elm: SplayNode)
    ensures Order(Leaf) == [] && Nodes(Leaf) == {}
    ensures Order(Bin(Leaf, elm, Leaf)) == [elm] && Nodes(Bin(Leaf, elm, Leaf)) == {elm} && Ascending([elm])
  {
  }

  lemma InsertedNodes(t: Tree, elm: SplayNode)
    requires t.Bin?
    ensures Nodes(Bin(t.l, elm, Bin(Leaf, t.at, t.r))) == Nodes(t) + {elm}
    ensures Nodes(Bin(Bin(t.l, t.at, Leaf), elm, t.r)) == Nodes(t) + {elm}
  {
    assert Nodes(Bin(Leaf, t.at, t.r)) == {t.at} + Nodes(t.r);
    assert Nodes(Bin(t.l, t.at, Leaf)) == Nodes(t.l) + {t.at};
    assert Nodes(t) == Nodes(t.l) + {t.at} + Nodes(t.r);
    BinNodes(t.l, elm, Bin(Leaf, t.at, t.r));
    BinNodes(Bin(t.l, t.at, Leaf), elm, t.r);
    hide Nodes;
  }

  lemma BinNodes(l: Tree, at: SplayNode, r: Tree)
    ensures Nodes(Bin(l, at, r)) == Nodes(l) + {at} + Nodes(r)
  {
  }

  lemma OrderBin(l: Tree, at: SplayNode, r: Tree)
    ensures Order(Bin(l, at, r)) == Order(l) + [at] + Order(r)
    ensures Order(Leaf) == []
  {
  }

  lemma OrderBelow(t: Tree, elm: SplayNode)
    requires t.Bin?
    ensures Order(t) == Order(t.l) + ([t.at] + Order(t.r))
    ensures Order(Bin(t.l, elm, Bin(Leaf, t.at, t.r))) == Order(t.l) + [elm] + ([t.at] + Order(t.r))
  {
    hide Order;
    OrderBin(t.l, t.at, t.r);
    OrderFirst(t.at, t.r);
    OrderBin(t.l, elm, Bin(Leaf, t.at, t.r));
    assert t == Bin(t.l, t.at, t.r);
    Grouped(Order(t.l), [t.at], Order(t.r));
  }

  lemma OrderFirst(at: SplayNode, r: Tree)
    ensures Order(Bin(Leaf, at, r)) == [at] + Order(r)
  {
    OrderBin(Leaf, at, r);
    assert [] + [at] == [at];
  }

  lemma Grouped(a: seq<SplayNode>, b: seq<SplayNode>, c: seq<SplayNode>)
    ensures a + b + c == a + (b + c)
  {
  }

  /** The new node between the left subtree and the root. */
  lemma SplitBelow(t: Tree, elm: SplayNode)
    requires t.Bin? && Ascending(Order(t)) && Nearest(t, Key(elm.key)) && elm.key < t.at.key
    ensures var s := Order(Bin(t.l, elm, Bin(Leaf, t.at, t.r)));
      s == Order(t)[..|Order(t.l)|] + [elm] + Order(t)[|Order(t.l)|..] && Ascending(s)
  {
    hide Order, Nodes, Ascending;
    BinParts(t);
    NodesOrder(t.l);
    NodesOrder(t.r);
    OrderBelow(t, elm);
    InsertAscending(Order(t.l), elm, [t.at] + Order(t.r));
  }

  lemma SplitAbove(t: Tree, elm: SplayNode)
    requires t.Bin? && Ascending(Order(t)) && Nearest(t, Key(elm.key)) && t.at.key < elm.key
    ensures var s := Order(Bin(Bin(t.l, t.at, Leaf), elm, t.r));
      s == Order(t)[..|Order(t.l)| + 1] + [elm] + Order(t)[|Order(t.l)| + 1..] && Ascending(s)
  {
    BinParts(t);
    NodesOrder(t.l);
    NodesOrder(t.r);
    var a, b := Order(t.l) + [t.at], Order(t.r);
    assert Order(t) == a + b;
    assert Order(Bin(t.l, t.at, Leaf)) == a;
    assert Order(Bin(Bin(t.l, t.at, Leaf), elm, t.r)) == a + [elm] + b;
    hide Order, Nodes;
    InsertAscending(a, elm, b);
  }

  lemma InsertAscending(a: seq<SplayNode>, x: SplayNode, b: seq<SplayNode>)
    requires Ascending(a + b) && (forall y :: y in a ==> y.key < x.key) && (forall y :: y in b ==> x.key < y.key)
    ensures Ascending(a + [x] + b)
  {
    Apart(a, b);
    Together(a, [x]);
    assert forall y :: y in a + [x] ==> y in a || y == x;
    Together(a + [x], b);
  }
}
