/**
  Splay trees: the nodes, the in-order sequence they stand for, and the two spines a top-down splay
  builds while it descends.
 */
module SplayNodes {

  class SplayNode {
    const key: int
    var left: SplayNode?
    var right: SplayNode?

    constructor (key: int)
      ensures this.key == key && left == null && right == null
    {
      this.key, left, right := key, null, null;
    }
  }

  datatype Tree = Leaf | Bin(l: Tree, at: SplayNode, r: Tree)

  ghost function Order(t: Tree): seq<SplayNode> {
    if t.Leaf? then [] else Order(t.l) + [t.at] + Order(t.r)
  }

  ghost function Nodes(t: Tree): set<SplayNode> {
    if t.Leaf? then {} else Nodes(t.l) + {t.at} + Nodes(t.r)
  }

  lemma {:induction false} NodesOrder(t: Tree)
    ensures forall x :: x in Nodes(t) ==> x in Order(t)
    ensures forall x :: x in Order(t) ==> x in Nodes(t)
  {
    if t.Bin? {
      NodesOrder(t.l);
      NodesOrder(t.r);
    }
  }

  /** The pointer n leads to the tree t. */
  ghost predicate Rep(t: Tree, n: SplayNode?)
    reads Nodes(t)
  {
    if t.Leaf? then n == null else n == t.at && Rep(t.l, t.at.left) && Rep(t.r, t.at.right)
  }

  ghost predicate Ascending(s: seq<SplayNode>) {
    forall i, j :: 0 <= i < j < |s| ==> s[i].key < s[j].key
  }

  /** Nodes on both sides of a cut are different, with smaller keys on the left. */
  lemma Apart(a: seq<SplayNode>, b: seq<SplayNode>)
    requires Ascending(a + b)
    ensures Ascending(a) && Ascending(b)
    ensures forall x, y :: x in a && y in b ==> x.key < y.key
  {
    var s := a + b;
    forall x, y | x in a && y in b ensures x.key < y.key {
      var i :| 0 <= i < |a| && a[i] == x;
      var j :| 0 <= j < |b| && b[j] == y;
      assert s[i] == x && s[|a| + j] == y;
    }
    assert forall i :: 0 <= i < |a| ==> a[i] == s[i];
    assert forall j :: 0 <= j < |b| ==> b[j] == s[|a| + j];
  }

  lemma Together(a: seq<SplayNode>, b: seq<SplayNode>)
    requires Ascending(a) && Ascending(b) && forall x, y :: x in a && y in b ==> x.key < y.key
    ensures Ascending(a + b)
  {
    var s := a + b;
    forall i, j | 0 <= i < j < |s| ensures s[i].key < s[j].key {
      if i < |a| <= j {
        assert s[i] in a && s[j] in b;
      }
    }
  }

  /** The parts of a search tree. */
  lemma BinParts(t: Tree)
    requires t.Bin? && Ascending(Order(t))
    ensures Ascending(Order(t.l)) && Ascending(Order(t.r))
    ensures forall x :: x in Nodes(t.l) ==> x.key < t.at.key
    ensures forall y :: y in Nodes(t.r) ==> t.at.key < y.key
    ensures forall x, y :: x in Nodes(t.l) && y in Nodes(t.r) ==> x.key < y.key
  {
    Apart(Order(t.l) + [t.at], Order(t.r));
    Apart(Order(t.l), [t.at]);
    assert t.at in [t.at] && t.at in Order(t.l) + [t.at];
    NodesOrder(t.l);
    NodesOrder(t.r);
    assert forall x :: x in Order(t.l) ==> x in Order(t.l) + [t.at];
    hide Order, Nodes, Ascending;
  }

  // ----- what a splay looks for -----

  /** A key, or what the minimum and maximum splays compare with: below or above every key. */
  datatype Probe = Lowest | Key(k: int) | Highest

  predicate Under(p: Probe, key: int) {
    p.Lowest? || (p.Key? && p.k < key)
  }

  predicate Over(p: Probe, key: int) {
    p.Highest? || (p.Key? && key < p.k)
  }

  predicate At(p: Probe, key: int) {
    p.Key? && p.k == key
  }

  // ----- spines -----

  /** A path from the auxiliary node down: each node with the tree on its outer side. */
  datatype Spine = Head | Link(up: Spine, at: SplayNode, side: Tree)

  function LastOf(c: Spine, h: SplayNode): SplayNode {
    if c.Head? then h else c.at
  }

  ghost function NodesOf(c: Spine): (s: set<SplayNode>)
    ensures c.Link? ==> c.at in s
  {
    if c.Head? then {} else NodesOf(c.up) + {c.at} + Nodes(c.side)
  }

  /** The nodes of the left spine in order, without what hangs from its end. */
  ghost function Before(c: Spine): (s: seq<SplayNode>)
    ensures c.Link? ==> c.at in s
  {
    if c.Head? then [] else Before(c.up) + Order(c.side) + [c.at]
  }

  ghost function After(c: Spine): (s: seq<SplayNode>)
    ensures c.Link? ==> c.at in s
  {
    if c.Head? then [] else [c.at] + Order(c.side) + After(c.up)
  }

  ghost predicate LeftSpine(c: Spine, h: SplayNode)
    reads h`right, NodesOf(c)
  {
    c.Link? ==> Rep(c.side, c.at.left) && LastOf(c.up, h).right == c.at && LeftSpine(c.up, h)
  }

  ghost predicate RightSpine(c: Spine, h: SplayNode)
    reads h`left, NodesOf(c)
  {
    c.Link? ==> Rep(c.side, c.at.right) && LastOf(c.up, h).left == c.at && RightSpine(c.up, h)
  }

  ghost function FillLeft(c: Spine, t: Tree): Tree {
    if c.Head? then t else FillLeft(c.up, Bin(c.side, c.at, t))
  }

  ghost function FillRight(c: Spine, t: Tree): Tree {
    if c.Head? then t else FillRight(c.up, Bin(t, c.at, c.side))
  }

  lemma {:induction false} FillLeftOrder(c: Spine, t: Tree)
    ensures Order(FillLeft(c, t)) == Before(c) + Order(t)
    decreases c
  {
    if c.Link? {
      FillLeftOrder(c.up, Bin(c.side, c.at, t));
      Regroup(Before(c.up), Order(c.side), [c.at], Order(t));
    }
  }

  lemma {:induction false} FillRightOrder(c: Spine, t: Tree)
    ensures Order(FillRight(c, t)) == Order(t) + After(c)
    decreases c
  {
    if c.Link? {
      FillRightOrder(c.up, Bin(t, c.at, c.side));
      Regroup(Order(t), [c.at], Order(c.side), After(c.up));
    }
  }

  lemma Regroup(a: seq<SplayNode>, b: seq<SplayNode>, c: seq<SplayNode>, d: seq<SplayNode>)
    ensures (a + b + c) + d == a + (b + c + d)
    ensures a + (b + c + d) == (a + b + c) + d
  {
  }

  lemma {:induction false} FillNodes(c: Spine, t: Tree)
    ensures Nodes(FillLeft(c, t)) == NodesOf(c) + Nodes(t)
    ensures Nodes(FillRight(c, t)) == NodesOf(c) + Nodes(t)
    decreases c
  {
    if c.Link? {
      FillNodes(c.up, Bin(c.side, c.at, t));
      FillNodes(c.up, Bin(t, c.at, c.side));
    }
  }

  lemma {:induction false} FillLeftRep(c: Spine, h: SplayNode, t: Tree)
    requires LeftSpine(c, h) && Rep(t, LastOf(c, h).right)
    ensures Rep(FillLeft(c, t), h.right)
    decreases c
  {
    if c.Link? { FillLeftRep(c.up, h, Bin(c.side, c.at, t)); }
  }

  lemma {:induction false} FillRightRep(c: Spine, h: SplayNode, t: Tree)
    requires RightSpine(c, h) && Rep(t, LastOf(c, h).left)
    ensures Rep(FillRight(c, t), h.left)
    decreases c
  {
    if c.Link? { FillRightRep(c.up, h, Bin(t, c.at, c.side)); }
  }

  lemma {:induction false} NodesAllocated(t: Tree)
    ensures forall n :: n in Nodes(t) ==> allocated(n)
  {
    if t.Bin? {
      NodesAllocated(t.l);
      NodesAllocated(t.r);
    }
  }

  lemma {:induction false} SpineAllocated(c: Spine)
    ensures forall n :: n in NodesOf(c) ==> allocated(n)
  {
    if c.Link? {
      SpineAllocated(c.up);
      NodesAllocated(c.side);
    }
  }

  lemma {:induction false} SpineOrder(c: Spine)
    ensures forall x :: x in NodesOf(c) ==> x in Before(c) && x in After(c)
    ensures forall x :: x in Before(c) ==> x in NodesOf(c)
    ensures forall x :: x in After(c) ==> x in NodesOf(c)
  {
    if c.Link? {
      SpineOrder(c.up);
      NodesOrder(c.side);
    }
  }

  /** The end of a spine comes once in it. */
  lemma RightEnd(c: Spine, h: SplayNode)
    requires Ascending(After(c)) && h !in NodesOf(c)
    ensures c.Link? ==> c.at !in Nodes(c.side) && c.at !in NodesOf(c.up) && c.at != h
  {
    if c.Link? {
      assert After(c) == [c.at] + Order(c.side) + After(c.up);
      assert c.at in NodesOf(c);
      hide Order, After, Before, Nodes, NodesOf, Ascending;
      ThreeApart([c.at], Order(c.side), After(c.up));
      assert c.at in [c.at];
      NodesOrder(c.side);
      SpineOrder(c.up);
    }
  }

  lemma LeftEnd(c: Spine, h: SplayNode)
    requires Ascending(Before(c)) && h !in NodesOf(c)
    ensures c.Link? ==> c.at !in Nodes(c.side) && c.at !in NodesOf(c.up) && c.at != h
  {
    if c.Link? {
      assert Before(c) == Before(c.up) + Order(c.side) + [c.at];
      assert c.at in NodesOf(c);
      hide Order, After, Before, Nodes, NodesOf, Ascending;
      ThreeApart(Before(c.up), Order(c.side), [c.at]);
      assert c.at in [c.at];
      NodesOrder(c.side);
      SpineOrder(c.up);
    }
  }

  lemma RotatedOrder(a: Tree, y: SplayNode, b: Tree, x: SplayNode, c: Tree)
    ensures Order(Bin(Bin(a, y, b), x, c)) == Order(Bin(a, y, Bin(b, x, c)))
  {
    RotatedSeq(Order(a), y, Order(b), x, Order(c));
    assert Order(Bin(a, y, b)) == Order(a) + [y] + Order(b);
    assert Order(Bin(b, x, c)) == Order(b) + [x] + Order(c);
  }

  lemma RotatedSeq(a: seq<SplayNode>, y: SplayNode, b: seq<SplayNode>, x: SplayNode, c: seq<SplayNode>)
    ensures (a + [y] + b) + [x] + c == a + [y] + (b + [x] + c)
  {
  }

  /** The three parts of an ascending sequence. */
  lemma ThreeApart(a: seq<SplayNode>, b: seq<SplayNode>, c: seq<SplayNode>)
    requires Ascending(a + b + c)
    ensures Ascending(a) && Ascending(b) && Ascending(c) && Ascending(b + c) && Ascending(a + b)
    ensures forall x, y :: x in a && y in b ==> x.key < y.key
    ensures forall x, y :: x in a && y in c ==> x.key < y.key
    ensures forall x, y :: x in b && y in c ==> x.key < y.key
  {
    assert a + b + c == a + (b + c);
    Apart(a, b + c);
    Apart(a + b, c);
    Apart(a, b);
    assert forall x :: x in a ==> x in a + b;
    assert forall x :: x in b ==> x in a + b;
  }

  lemma BinMembers(t: Tree)
    requires t.Bin?
    ensures t.at in Nodes(t) && Nodes(t.l) <= Nodes(t) && Nodes(t.r) <= Nodes(t)
    ensures |Order(t.l)| + 1 + |Order(t.r)| == |Order(t)|
  {
  }

  lemma RepParts(t: Tree, n: SplayNode?)
    requires Rep(t, n) && t.Bin?
    ensures n == t.at && Rep(t.l, t.at.left) && Rep(t.r, t.at.right)
    ensures t.at.left == null <==> t.l.Leaf?
    ensures t.at.right == null <==> t.r.Leaf?
    ensures t.l.Bin? ==> t.at.left == t.l.at
    ensures t.r.Bin? ==> t.at.right == t.r.at
  {
  }

  lemma AfterLink(c: Spine, t: Tree)
    requires t.Bin?
    ensures Order(t.l) + After(Link(c, t.at, t.r)) == Order(t) + After(c)
  {
    Regroup(Order(t.l), [t.at], Order(t.r), After(c));
  }

  lemma BeforeLink(c: Spine, t: Tree)
    requires t.Bin?
    ensures Before(Link(c, t.at, t.l)) + Order(t.r) == Before(c) + Order(t)
  {
    Regroup(Before(c), Order(t.l), [t.at], Order(t.r));
  }

  lemma AfterKeys(c: Spine, t: Tree, p: Probe)
    requires t.Bin? && Ascending(Order(t)) && Under(p, t.at.key) && forall x :: x in NodesOf(c) ==> Under(p, x.key)
    ensures forall x :: x in NodesOf(Link(c, t.at, t.r)) ==> Under(p, x.key)
  {
    BinParts(t);
  }

  lemma BeforeKeys(c: Spine, t: Tree, p: Probe)
    requires t.Bin? && Ascending(Order(t)) && Over(p, t.at.key) && forall x :: x in NodesOf(c) ==> Over(p, x.key)
    ensures forall x :: x in NodesOf(Link(c, t.at, t.l)) ==> Over(p, x.key)
  {
    BinParts(t);
  }

  /** The pieces of a tree that is taken apart have its nodes. */
  lemma PieceNodes(lc: Spine, t: Tree, rc: Spine, whole: Tree)
    requires Before(lc) + Order(t) + After(rc) == Order(whole)
    ensures NodesOf(lc) <= Nodes(whole) && Nodes(t) <= Nodes(whole) && NodesOf(rc) <= Nodes(whole)
  {
    SpineOrder(lc);
    SpineOrder(rc);
    NodesOrder(t);
    NodesOrder(whole);
    hide Order, Before, After, Nodes, NodesOf;
    assert forall x :: x in Before(lc) || x in Order(t) || x in After(rc) ==> x in Before(lc) + Order(t) + After(rc);
  }

  // ----- keys -----

  /** The root is what was looked for, or no key lies between the two. */
  ghost predicate Nearest(t: Tree, p: Probe)
    requires t.Bin?
  {
    || At(p, t.at.key)
    || (Under(p, t.at.key) && forall x :: x in Nodes(t.l) ==> Over(p, x.key))
    || (Over(p, t.at.key) && forall x :: x in Nodes(t.r) ==> Under(p, x.key))
  }

  /** A search tree with a nearest root has the key if its root does. */
  lemma NearestDecides(t: Tree, p: Probe)
    requires t.Bin? && Ascending(Order(t)) && Nearest(t, p)
    ensures (exists x :: x in Order(t) && At(p, x.key)) <==> At(p, t.at.key)
  {
    BinParts(t);
    NodesOrder(t);
    assert t.at in Nodes(t);
    assert Nodes(t) == Nodes(t.l) + {t.at} + Nodes(t.r);
    hide Order, Nodes, Ascending;
  }
}
