/** Top-down splaying, and the set operations on top of it. */
module Splay {
  import opened SplayNodes

  class SplayHead {
    var root: SplayNode?

    /** SPLAY_INIT */
    constructor ()
      ensures root == null
    {
      root := null;
    }

    /** SPLAY_ROTATE_RIGHT */
    method RotateRight(ghost t: Tree)
      requires Rep(t, root) && t.Bin? && t.l.Bin? && Ascending(Order(t))
      modifies this, t.at, t.l.at
      ensures Rep(Bin(t.l.l, t.l.at, Bin(t.l.r, t.at, t.r)), root)
    {
      BinParts(t);
      BinParts(t.l);
      var x := root;
      var tmp := x.left;
      x.left := tmp.right;
      tmp.right := x;
      root := tmp;
    }

    /** SPLAY_ROTATE_LEFT */
    method RotateLeft(ghost t: Tree)
      requires Rep(t, root) && t.Bin? && t.r.Bin? && Ascending(Order(t))
      modifies this, t.at, t.r.at
      ensures Rep(Bin(Bin(t.l, t.at, t.r.l), t.r.at, t.r.r), root)
    {
      BinParts(t);
      BinParts(t.r);
      var x := root;
      var tmp := x.right;
      x.right := tmp.left;
      tmp.left := x;
      root := tmp;
    }

    /** A rotation between two spines. */
    method RotateRightBetween(ghost t: Tree, ghost lc: Spine, ghost rc: Spine, ghost h: SplayNode)
      requires Rep(t, root) && t.Bin? && t.l.Bin? && Between(lc, t, rc, h)
      modifies this, t.at, t.l.at
      ensures var t' := Bin(t.l.l, t.l.at, Bin(t.l.r, t.at, t.r)); Rep(t', root) && Between(lc, t', rc, h)
    {
      hide Order, Before, After, Nodes, NodesOf, Ascending, LeftSpine, RightSpine, Rep, Placed;
      BetweenParts(lc, t, rc, h);
      RotatedTree(t);
      MemberNodes(t);
      PlacedSame(lc, t, rc, lc, Bin(t.l.l, t.l.at, Bin(t.l.r, t.at, t.r)), rc, h);
      SpineAllocated(lc);
      SpineAllocated(rc);
      RotateRight(t);
    }

    method RotateLeftBetween(ghost t: Tree, ghost lc: Spine, ghost rc: Spine, ghost h: SplayNode)
      requires Rep(t, root) && t.Bin? && t.r.Bin? && Between(lc, t, rc, h)
      modifies this, t.at, t.r.at
      ensures var t' := Bin(Bin(t.l, t.at, t.r.l), t.r.at, t.r.r); Rep(t', root) && Between(lc, t', rc, h)
    {
      hide Order, Before, After, Nodes, NodesOf, Ascending, LeftSpine, RightSpine, Rep, Placed;
      BetweenParts(lc, t, rc, h);
      RotatedTree(t);
      MemberNodes(t);
      PlacedSame(lc, t, rc, lc, Bin(Bin(t.l, t.at, t.r.l), t.r.at, t.r.r), rc, h);
      SpineAllocated(lc);
      SpineAllocated(rc);
      RotateLeft(t);
    }

    /** SPLAY_LINKLEFT: the root goes to the end of the right spine, its left subtree becomes the root. */
    method LinkLeft(right: SplayNode, ghost t: Tree, ghost lc: Spine, ghost rc: Spine, ghost h: SplayNode)
      returns (end: SplayNode)
      requires Rep(t, root) && t.Bin? && t.l.Bin? && Between(lc, t, rc, h) && right == LastOf(rc, h)
      modifies this, right`left
      ensures end == t.at && Rep(t.l, root) && Between(lc, t.l, Link(rc, t.at, t.r), h)
    {
      hide Placed, Ascending, Order, Before, After;
      BetweenParts(lc, t, rc, h);
      BinParts(t);
      RightEnd(rc, h);
      AfterLink(rc, t);
      PlacedSame(lc, t, rc, lc, t.l, Link(rc, t.at, t.r), h);
      right.left := root;
      end := root;
      root := root.left;
      assert LeftSpine(lc, h);
      assert RightSpine(Link(rc, t.at, t.r), h);
      assert Placed(lc, t.l, Link(rc, t.at, t.r), h);
    }

    /** SPLAY_LINKRIGHT */
    method LinkRight(left: SplayNode, ghost t: Tree, ghost lc: Spine, ghost rc: Spine, ghost h: SplayNode)
      returns (end: SplayNode)
      requires Rep(t, root) && t.Bin? && t.r.Bin? && Between(lc, t, rc, h) && left == LastOf(lc, h)
      modifies this, left`right
      ensures end == t.at && Rep(t.r, root) && Between(Link(lc, t.at, t.l), t.r, rc, h)
    {
      hide Placed, Ascending, Order, Before, After;
      BetweenParts(lc, t, rc, h);
      BinParts(t);
      LeftEnd(lc, h);
      BeforeLink(lc, t);
      PlacedSame(lc, t, rc, Link(lc, t.at, t.l), t.r, rc, h);
      left.right := root;
      end := root;
      root := root.right;
      assert RightSpine(rc, h);
      assert LeftSpine(Link(lc, t.at, t.l), h);
      assert Placed(Link(lc, t.at, t.l), t.r, rc, h);
    }

    /** One round of the loop when the key is below the root; done is its break. */
    method DescendLeft(p: Probe, right: SplayNode, ghost t: Tree, ghost lc: Spine, ghost rc: Spine, ghost h: SplayNode)
      returns (done: bool, end: SplayNode, ghost t': Tree, ghost rc': Spine)
      requires t.Bin? && Under(p, t.at.key) && Rep(t, root) && Between(lc, t, rc, h) && right == LastOf(rc, h)
      requires forall x :: x in NodesOf(rc) ==> Under(p, x.key)
      modifies this, right`left, Nodes(t)
      ensures t'.Bin? && Rep(t', root) && Between(lc, t', rc', h) && end == LastOf(rc', h)
      ensures Order(t') + After(rc') == Order(t) + After(rc)
      ensures forall x :: x in NodesOf(rc') ==> Under(p, x.key)
      ensures if done then Under(p, t'.at.key) && t'.l.Leaf? else |Order(t')| < |Order(t)|
    {
      hide Order, Before, After, Nodes, NodesOf, Rep, LeftSpine, RightSpine, Between;
      BetweenAscending(lc, t, rc, h);
      RepParts(t, root);
      BinMembers(t);
      t', rc', end := t, rc, right;
      var tmp := root.left;
      if tmp == null { return true, right, t, rc; }
      BinMembers(t.l);
      if Under(p, tmp.key) {
        RotatedTree(t);
        RotateRightBetween(t, lc, rc, h);
        t' := Bin(t.l.l, t.l.at, Bin(t.l.r, t.at, t.r));
        RepParts(t', root);
        if root.left == null { return true, right, t', rc; }
      }
      ghost var linked := t';
      BetweenAscending(lc, linked, rc, h);
      end := LinkLeft(right, linked, lc, rc, h);
      AfterLink(rc, linked);
      AfterKeys(rc, linked, p);
      BinMembers(linked);
      rc' := Link(rc, linked.at, linked.r);
      t' := linked.l;
      done := false;
    }

    /** One round of the loop when the key is above the root. */
    method DescendRight(p: Probe, left: SplayNode, ghost t: Tree, ghost lc: Spine, ghost rc: Spine, ghost h: SplayNode)
      returns (done: bool, end: SplayNode, ghost t': Tree, ghost lc': Spine)
      requires t.Bin? && Over(p, t.at.key) && Rep(t, root) && Between(lc, t, rc, h) && left == LastOf(lc, h)
      requires forall x :: x in NodesOf(lc) ==> Over(p, x.key)
      modifies this, left`right, Nodes(t)
      ensures t'.Bin? && Rep(t', root) && Between(lc', t', rc, h) && end == LastOf(lc', h)
      ensures Before(lc') + Order(t') == Before(lc) + Order(t)
      ensures forall x :: x in NodesOf(lc') ==> Over(p, x.key)
      ensures if done then Over(p, t'.at.key) && t'.r.Leaf? else |Order(t')| < |Order(t)|
    {
      hide Order, Before, After, Nodes, NodesOf, Rep, LeftSpine, RightSpine, Between;
      BetweenAscending(lc, t, rc, h);
      RepParts(t, root);
      BinMembers(t);
      t', lc', end := t, lc, left;
      var tmp := root.right;
      if tmp == null { return true, left, t, lc; }
      BinMembers(t.r);
      if Over(p, tmp.key) {
        RotatedTree(t);
        RotateLeftBetween(t, lc, rc, h);
        t' := Bin(Bin(t.l, t.at, t.r.l), t.r.at, t.r.r);
        RepParts(t', root);
        if root.right == null { return true, left, t', lc; }
      }
      ghost var linked := t';
      BetweenAscending(lc, linked, rc, h);
      end := LinkRight(left, linked, lc, rc, h);
      BeforeLink(lc, linked);
      BeforeKeys(lc, linked, p);
      BinMembers(linked);
      lc' := Link(lc, linked.at, linked.l);
      t' := linked.r;
      done := false;
    }

    /** The first half of SPLAY_ASSEMBLE: what is left of the root's subtrees goes to the ends of the spines. */
    method HangLeft(h: SplayNode, left: SplayNode, ghost lc: Spine, ghost t: Tree, ghost rc: Spine)
      requires t.Bin? && Rep(t, root) && Between(lc, t, rc, h) && left == LastOf(lc, h)
      modifies left`right
      ensures Rep(FillLeft(lc, t.l), h.right) && RightSpine(rc, h) && Rep(t.r, root.right) && root == t.at
    {
      hide Placed, Ascending, Order, Before, After;
      BetweenParts(lc, t, rc, h);
      BinParts(t);
      LeftEnd(lc, h);
      left.right := root.left;
      FillLeftRep(lc, h, t.l);
      hide FillLeft;
    }

    method HangRight(h: SplayNode, right: SplayNode, ghost l: Tree, ghost r: Tree, ghost rc: Spine)
      requires RightSpine(rc, h) && right == LastOf(rc, h) && Ascending(After(rc)) && h !in NodesOf(rc)
      requires root != null && root != h && root !in NodesOf(rc) && Rep(r, root.right)
      requires Rep(l, h.right) && h !in Nodes(l) && h !in Nodes(r) && NodesOf(rc) !! Nodes(l) && NodesOf(rc) !! Nodes(r)
      modifies right`left
      ensures Rep(FillRight(rc, r), h.left) && Rep(l, h.right)
    {
      hide Ascending, Order, Before, After;
      RightEnd(rc, h);
      right.left := root.right;
      FillRightRep(rc, h, r);
      hide FillRight;
    }

    /** SPLAY_ASSEMBLE */
    method Assemble(h: SplayNode, left: SplayNode, right: SplayNode, ghost lc: Spine, ghost t: Tree, ghost rc: Spine)
      returns (ghost whole: Tree)
      requires t.Bin? && Rep(t, root) && Between(lc, t, rc, h) && left == LastOf(lc, h) && right == LastOf(rc, h)
      modifies t.at, left`right, right`left
      ensures whole == Bin(FillLeft(lc, t.l), t.at, FillRight(rc, t.r)) && Rep(whole, root)
    {
      hide Ascending, Order, Before, After, LeftSpine, RightSpine, Between, Nodes, NodesOf, FillLeft, FillRight;
      BetweenParts(lc, t, rc, h);
      BinMembers(t);
      BinApart(t);
      FillNodes(lc, t.l);
      FillNodes(rc, t.r);
      whole := Bin(FillLeft(lc, t.l), t.at, FillRight(rc, t.r));
      RepParts(t, root);
      HangLeft(h, left, lc, t, rc);
      HangRight(h, right, whole.l, t.r, rc);
      root.left := h.right;
      root.right := h.left;
    }

    /** SPLAY: the same nodes in the same order, and the key or one next to it at the root. */
    method Splay(p: Probe, ghost t0: Tree) returns (ghost t: Tree)
      requires t0.Bin? && Rep(t0, root) && Ascending(Order(t0))
      modifies this, Nodes(t0)
      ensures t.Bin? && Rep(t, root) && Order(t) == Order(t0) && Nearest(t, p)
    {
      NodesAllocated(t0);
      hide Order, Before, After, Nodes, NodesOf, Ascending, Rep, Nearest, Between;
      var node := new SplayNode(0);
      var left, right := node, node;
      ghost var lc, rc := Head, Head;
      t := t0;
      StartBetween(t, node);
      RepParts(t, root);
      while !At(p, root.key)
        invariant t.Bin? && Rep(t, root) && root == t.at && fresh(node)
        invariant Between(lc, t, rc, node) && left == LastOf(lc, node) && right == LastOf(rc, node)
        invariant Before(lc) + Order(t) + After(rc) == Order(t0)
        invariant (forall x :: x in NodesOf(lc) ==> Over(p, x.key)) && (forall x :: x in NodesOf(rc) ==> Under(p, x.key))
        decreases |Order(t)|
      {
        PieceNodes(lc, t, rc, t0);
        var done;
        ghost var t1, lc1, rc1 := t, lc, rc;
        if Under(p, root.key) {
          done, right, t, rc := DescendLeft(p, right, t, lc, rc, node);
        } else {
          done, left, t, lc := DescendRight(p, left, t, lc, rc, node);
        }
        LinkedOrder(Before(lc), Order(t1), After(rc1), Order(t), After(rc));
        RepParts(t, root);
        if done { break; }
      }
      PieceNodes(lc, t, rc, t0);
      ghost var cur := t;
      BinMembers(cur);
      Assembled(lc, cur, rc, p);
      t := Assemble(node, left, right, lc, cur, rc);
    }
  }

  lemma Assembled(lc: Spine, t: Tree, rc: Spine, p: Probe)
    requires t.Bin?
    requires (forall x :: x in NodesOf(lc) ==> Over(p, x.key)) && (forall x :: x in NodesOf(rc) ==> Under(p, x.key))
    requires At(p, t.at.key) || (Under(p, t.at.key) && t.l.Leaf?) || (Over(p, t.at.key) && t.r.Leaf?)
    ensures var whole := Bin(FillLeft(lc, t.l), t.at, FillRight(rc, t.r));
      Order(whole) == Before(lc) + Order(t) + After(rc) && Nearest(whole, p)
  {
    FillNodes(lc, t.l);
    FillNodes(rc, t.r);
    FillLeftOrder(lc, t.l);
    FillRightOrder(rc, t.r);
    AssembledSeq(Before(lc), Order(t.l), [t.at], Order(t.r), After(rc));
    hide Before, After, FillLeft, FillRight, NodesOf;
  }

  lemma AssembledSeq(a: seq<SplayNode>, b: seq<SplayNode>, c: seq<SplayNode>, d: seq<SplayNode>, e: seq<SplayNode>)
    ensures (a + b) + c + (d + e) == a + (b + c + d) + e
  {
  }

  lemma BinApart(t: Tree)
    requires t.Bin? && Ascending(Order(t))
    ensures t.at !in Nodes(t.l) && t.at !in Nodes(t.r) && Nodes(t.l) !! Nodes(t.r)
  {
    BinParts(t);
    hide Order, Nodes, Ascending;
  }

  /** At the start both spines are empty. */
  lemma StartBetween(t: Tree, h: SplayNode)
    requires Ascending(Order(t)) && h !in Nodes(t)
    ensures Between(Head, t, Head, h) && Before(Head) + Order(t) + After(Head) == Order(t)
    ensures NodesOf(Head) == {}
  {
    NodesOrder(t);
  }

  /** A tree between the two spines of the auxiliary node h. */
  ghost predicate Between(lc: Spine, t: Tree, rc: Spine, h: SplayNode)
    reads h, NodesOf(lc), NodesOf(rc)
  {
    LeftSpine(lc, h) && RightSpine(rc, h) && Placed(lc, t, rc, h)
  }

  ghost predicate Placed(lc: Spine, t: Tree, rc: Spine, h: SplayNode) {
    Ascending(Before(lc) + Order(t) + After(rc)) && h !in Before(lc) + Order(t) + After(rc)
  }

  lemma PlacedSame(lc: Spine, t: Tree, rc: Spine, lc': Spine, t': Tree, rc': Spine, h: SplayNode)
    requires Placed(lc, t, rc, h)
    requires (lc' == lc && Order(t') + After(rc') == Order(t) + After(rc))
          || (rc' == rc && Before(lc') + Order(t') == Before(lc) + Order(t))
    ensures Placed(lc', t', rc', h)
  {
    LinkedOrder(Before(lc), Order(t), After(rc), Order(t'), After(rc'));
    hide Order, Before, After, Ascending;
  }

  lemma BetweenParts(lc: Spine, t: Tree, rc: Spine, h: SplayNode)
    requires Between(lc, t, rc, h)
    ensures Ascending(Before(lc)) && Ascending(Order(t)) && Ascending(After(rc))
    ensures NodesOf(lc) !! Nodes(t) && NodesOf(rc) !! Nodes(t) && NodesOf(lc) !! NodesOf(rc)
    ensures h !in NodesOf(lc) && h !in Nodes(t) && h !in NodesOf(rc)
  {
    ThreeApart(Before(lc), Order(t), After(rc));
    SpineOrder(lc);
    SpineOrder(rc);
    NodesOrder(t);
    hide Order, Before, After, Nodes, NodesOf, Ascending;
  }

  lemma MemberNodes(t: Tree)
    ensures t.Bin? ==> t.at in Nodes(t)
    ensures t.Bin? && t.l.Bin? ==> t.l.at in Nodes(t)
    ensures t.Bin? && t.r.Bin? ==> t.r.at in Nodes(t)
  {
  }

  lemma BetweenAscending(lc: Spine, t: Tree, rc: Spine, h: SplayNode)
    requires Between(lc, t, rc, h)
    ensures Ascending(Order(t))
  {
    BetweenParts(lc, t, rc, h);
  }

  lemma RotatedTree(t: Tree)
    ensures t.Bin? && t.l.Bin? ==> Order(Bin(t.l.l, t.l.at, Bin(t.l.r, t.at, t.r))) == Order(t)
    ensures t.Bin? && t.r.Bin? ==> Order(Bin(Bin(t.l, t.at, t.r.l), t.r.at, t.r.r)) == Order(t)
  {
    hide Order;
    if t.Bin? && t.l.Bin? {
      assert t == Bin(Bin(t.l.l, t.l.at, t.l.r), t.at, t.r);
      RotatedOrder(t.l.l, t.l.at, t.l.r, t.at, t.r);
    }
    if t.Bin? && t.r.Bin? {
      assert t == Bin(t.l, t.at, Bin(t.r.l, t.r.at, t.r.r));
      RotatedOrder(t.l, t.at, t.r.l, t.r.at, t.r.r);
    }
  }

  lemma LinkedOrder(a: seq<SplayNode>, b: seq<SplayNode>, c: seq<SplayNode>, d: seq<SplayNode>, e: seq<SplayNode>)
    ensures d + e == b + c ==> a + d + e == a + b + c
  {
    assert a + d + e == a + (d + e);
    assert a + b + c == a + (b + c);
  }
}
