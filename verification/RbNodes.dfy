/**
  Red-black trees with parent pointers: the memory nodes, the value a tree stands for, and the path from
  a place in the tree up to the root. Operations work at a place: a context and the subtree in its hole.
 */
module RbNodes {

  datatype Color = Black | Red

  class RbNode {
    const key: int
    var left: RbNode?
    var right: RbNode?
    var parent: RbNode?
    var color: Color

    constructor (key: int)
      ensures this.key == key
    {
      this.key := key;
      left, right, parent, color := null, null, null, Red;
    }
  }

  class RbHead {
    var root: RbNode?

    /** RB_INIT */
    constructor ()
      ensures root == null
    {
      root := null;
    }
  }

  datatype Tree = Leaf | Node(l: Tree, at: RbNode, c: Color, r: Tree)

  datatype Ctx =
    | Top
    | InLeft(up: Ctx, at: RbNode, c: Color, r: Tree)
    | InRight(l: Tree, at: RbNode, c: Color, up: Ctx)

  ghost function Plug(ctx: Ctx, t: Tree): Tree {
    match ctx
    case Top => t
    case InLeft(up, at, c, r) => Plug(up, Node(t, at, c, r))
    case InRight(l, at, c, up) => Plug(up, Node(l, at, c, t))
  }

  function RootOf(t: Tree): RbNode? {
    if t.Leaf? then null else t.at
  }

  function ParentOf(ctx: Ctx): RbNode? {
    if ctx.Top? then null else ctx.at
  }

  ghost function Nodes(t: Tree): set<RbNode> {
    if t.Leaf? then {} else Nodes(t.l) + {t.at} + Nodes(t.r)
  }

  ghost function NodesC(ctx: Ctx): set<RbNode> {
    match ctx
    case Top => {}
    case InLeft(up, at, c, r) => NodesC(up) + {at} + Nodes(r)
    case InRight(l, at, c, up) => NodesC(up) + {at} + Nodes(l)
  }

  // ----- search order -----

  ghost predicate AllBelow(s: set<RbNode>, k: int) {
    forall n :: n in s ==> n.key < k
  }

  ghost predicate AllAbove(s: set<RbNode>, k: int) {
    forall n :: n in s ==> k < n.key
  }

  ghost predicate Bst(t: Tree) {
    t.Node? ==> Bst(t.l) && Bst(t.r) && AllBelow(Nodes(t.l), t.at.key) && AllAbove(Nodes(t.r), t.at.key)
  }

  /** A subtree with nodes s in the hole keeps the search order. */
  ghost predicate Fits(ctx: Ctx, s: set<RbNode>)
    decreases ctx
  {
    match ctx
    case Top => true
    case InLeft(up, at, c, r) =>
      Bst(r) && AllBelow(s, at.key) && AllAbove(Nodes(r), at.key) && Fits(up, s + {at} + Nodes(r))
    case InRight(l, at, c, up) =>
      Bst(l) && AllBelow(Nodes(l), at.key) && AllAbove(s, at.key) && Fits(up, Nodes(l) + {at} + s)
  }

  lemma {:induction false} PlugNodes(ctx: Ctx, t: Tree)
    ensures Nodes(Plug(ctx, t)) == NodesC(ctx) + Nodes(t)
    decreases ctx
  {
    match ctx
    case Top =>
    case InLeft(up, at, c, r) => PlugNodes(up, Node(t, at, c, r));
    case InRight(l, at, c, up) => PlugNodes(up, Node(l, at, c, t));
  }

  lemma {:induction false} PlugBst(ctx: Ctx, t: Tree)
    ensures Bst(Plug(ctx, t)) <==> Bst(t) && Fits(ctx, Nodes(t))
    decreases ctx
  {
    match ctx
    case Top =>
    case InLeft(up, at, c, r) => PlugBst(up, Node(t, at, c, r));
    case InRight(l, at, c, up) => PlugBst(up, Node(l, at, c, t));
  }

  /** What fits in the hole is disjoint from the context. */
  lemma {:induction false} FitsDisjoint(ctx: Ctx, s: set<RbNode>)
    requires Fits(ctx, s)
    ensures s !! NodesC(ctx)
    decreases ctx
  {
    match ctx
    case Top =>
    case InLeft(up, at, c, r) => FitsDisjoint(up, s + {at} + Nodes(r));
    case InRight(l, at, c, up) => FitsDisjoint(up, Nodes(l) + {at} + s);
  }

  lemma {:induction false} FitsSubset(ctx: Ctx, s: set<RbNode>, s': set<RbNode>)
    requires Fits(ctx, s) && s' <= s
    ensures Fits(ctx, s')
    decreases ctx
  {
    match ctx
    case Top =>
    case InLeft(up, at, c, r) => FitsSubset(up, s + {at} + Nodes(r), s' + {at} + Nodes(r));
    case InRight(l, at, c, up) => FitsSubset(up, Nodes(l) + {at} + s, Nodes(l) + {at} + s');
  }

  // ----- memory -----

  ghost predicate LinkedT(t: Tree, p: RbNode?)
    reads Nodes(t)
    decreases t
  {
    t.Node? ==>
      && t.at.left == RootOf(t.l) && t.at.right == RootOf(t.r) && t.at.parent == p && t.at.color == t.c
      && LinkedT(t.l, t.at) && LinkedT(t.r, t.at)
  }

  ghost predicate LinkedC(ctx: Ctx, hole: RbNode?, head: RbHead)
    reads head, NodesC(ctx)
    decreases ctx
  {
    match ctx
    case Top => head.root == hole
    case InLeft(up, at, c, r) =>
      && at.left == hole && at.right == RootOf(r) && at.parent == ParentOf(up) && at.color == c
      && LinkedT(r, at) && LinkedC(up, at, head)
    case InRight(l, at, c, up) =>
      && at.left == RootOf(l) && at.right == hole && at.parent == ParentOf(up) && at.color == c
      && LinkedT(l, at) && LinkedC(up, at, head)
  }

  /** The memory under head is the subtree t in the hole of ctx, in search order. */
  ghost predicate Rep(head: RbHead, ctx: Ctx, t: Tree)
    reads head, NodesC(ctx), Nodes(t)
  {
    && LinkedC(ctx, RootOf(t), head) && LinkedT(t, ParentOf(ctx))
    && Bst(t) && Fits(ctx, Nodes(t))
  }

  /** Moving the place of work up from a left child, or down into it. */
  lemma AtLeft(head: RbHead, up: Ctx, l: Tree, at: RbNode, c: Color, r: Tree)
    ensures Rep(head, InLeft(up, at, c, r), l) <==> Rep(head, up, Node(l, at, c, r))
  {
  }

  lemma AtRight(head: RbHead, up: Ctx, l: Tree, at: RbNode, c: Color, r: Tree)
    ensures Rep(head, InRight(l, at, c, up), r) <==> Rep(head, up, Node(l, at, c, r))
  {
  }

  lemma {:induction false} NodesAllocated(t: Tree)
    ensures forall n :: n in Nodes(t) ==> allocated(n)
  {
    if t.Node? {
      NodesAllocated(t.l);
      NodesAllocated(t.r);
    }
  }

  lemma {:induction false} NodesCAllocated(ctx: Ctx)
    ensures forall n :: n in NodesC(ctx) ==> allocated(n)
    decreases ctx
  {
    match ctx
    case Top =>
    case InLeft(up, at, c, r) => NodesCAllocated(up); NodesAllocated(r);
    case InRight(l, at, c, up) => NodesCAllocated(up); NodesAllocated(l);
  }

  // ----- pointer surgery -----

  /** The parent of a place, or the head, is made to point to another node instead of the one there. */
  method ReplaceChild(head: RbHead, parent: RbNode?, old_: RbNode, new_: RbNode?, ghost ctx: Ctx, ghost s: set<RbNode>)
    requires parent == ParentOf(ctx) && LinkedC(ctx, old_, head) && Fits(ctx, s) && old_ in s
    modifies head, if parent != null then {parent} else {}
    ensures LinkedC(ctx, new_, head)
  {
    if parent != null {
      FitsDisjoint(ctx, s);
      ghost var rest := if ctx.InLeft? then s + {ctx.at} + Nodes(ctx.r) else Nodes(ctx.l) + {ctx.at} + s;
      FitsDisjoint(ctx.up, rest);
      if parent.left == old_ {
        parent.left := new_;
      } else {
        parent.right := new_;
      }
    } else {
      head.root := new_;
    }
  }

  /** A subtree gets another parent. */
  method SetParent(n: RbNode?, p: RbNode?, ghost t: Tree, ghost q: RbNode?)
    requires LinkedT(t, q) && Bst(t) && n == RootOf(t)
    modifies if n != null then {n} else {}
    ensures LinkedT(t, p)
  {
    if n != null { n.parent := p; }
  }

  lemma RootIn(t: Tree)
    ensures RootOf(t) != null ==> RootOf(t) in Nodes(t)
  {
  }

  /** The parts of a node and its right child: a, x, b, y, d in order. */
  ghost predicate Parts(a: Tree, x: RbNode, b: Tree, y: RbNode, d: Tree) {
    && Bst(a) && Bst(b) && Bst(d) && x.key < y.key
    && AllBelow(Nodes(a), x.key) && AllAbove(Nodes(b), x.key) && AllBelow(Nodes(b), y.key) && AllAbove(Nodes(d), y.key)
  }

  lemma PartsRight(a: Tree, x: RbNode, c: Color, b: Tree, y: RbNode, c': Color, d: Tree)
    ensures Bst(Node(a, x, c, Node(b, y, c', d))) <==> Parts(a, x, b, y, d)
    ensures Nodes(Node(a, x, c, Node(b, y, c', d))) == Nodes(a) + Nodes(b) + Nodes(d) + {x, y}
  {
  }

  lemma PartsLeft(a: Tree, x: RbNode, c: Color, b: Tree, y: RbNode, c': Color, d: Tree)
    ensures Bst(Node(Node(a, x, c, b), y, c', d)) <==> Parts(a, x, b, y, d)
    ensures Nodes(Node(Node(a, x, c, b), y, c', d)) == Nodes(a) + Nodes(b) + Nodes(d) + {x, y}
  {
  }

  lemma PartsApart(a: Tree, x: RbNode, b: Tree, y: RbNode, d: Tree)
    requires Parts(a, x, b, y, d)
    ensures Bst(a) && Bst(b) && Bst(d)
    ensures Nodes(a) !! Nodes(b) && Nodes(a) !! Nodes(d) && Nodes(b) !! Nodes(d) && x != y
    ensures x !in Nodes(a) + Nodes(b) + Nodes(d) && y !in Nodes(a) + Nodes(b) + Nodes(d)
  {
    assert forall n :: n in Nodes(a) ==> n.key < x.key;
    assert forall n :: n in Nodes(b) ==> x.key < n.key < y.key;
    assert forall n :: n in Nodes(d) ==> y.key < n.key;
  }

  /** The links of a node, and of its subtrees. */
  lemma LinkedNode(t: Tree, p: RbNode?)
    requires t.Node?
    ensures LinkedT(t, p) <==>
      && t.at.left == RootOf(t.l) && t.at.right == RootOf(t.r) && t.at.parent == p && t.at.color == t.c
      && LinkedT(t.l, t.at) && LinkedT(t.r, t.at)
  {
  }

  /** RB_ROTATE_LEFT */
  method RotateLeft(head: RbHead, elm: RbNode, ghost ctx: Ctx, ghost t: Tree) returns (ghost t': Tree)
    requires Rep(head, ctx, t) && t.Node? && t.at == elm && t.r.Node?
    modifies head, NodesC(ctx), Nodes(t)
    ensures t' == Node(Node(t.l, t.at, t.c, t.r.l), t.r.at, t.r.c, t.r.r)
    ensures Rep(head, ctx, t') && Nodes(t') == Nodes(t)
  {
    hide Bst, Nodes, Fits, NodesC, LinkedC, LinkedT, Parts;
    NodesAllocated(t);
    NodesCAllocated(ctx);
    ghost var a, b, d := t.l, t.r.l, t.r.r;
    PartsRight(a, t.at, t.c, b, t.r.at, t.r.c, d);
    PartsLeft(a, t.at, t.c, b, t.r.at, t.r.c, d);
    PartsApart(a, t.at, b, t.r.at, d);
    FitsDisjoint(ctx, Nodes(t));
    RootIn(b);
    ParentIn(ctx);
    LinkedNode(t, ParentOf(ctx));
    LinkedNode(t.r, elm);
    var tmp := elm.right;
    elm.right := tmp.left;
    SetParent(tmp.left, elm, b, tmp);
    tmp.parent := elm.parent;
    ReplaceChild(head, elm.parent, elm, tmp, ctx, Nodes(t));
    tmp.left := elm;
    elm.parent := tmp;
    t' := Node(Node(a, t.at, t.c, b), t.r.at, t.r.c, d);
    LinkedNode(t'.l, tmp);
    LinkedNode(t', ParentOf(ctx));
  }

  /** RB_ROTATE_RIGHT */
  method RotateRight(head: RbHead, elm: RbNode, ghost ctx: Ctx, ghost t: Tree) returns (ghost t': Tree)
    requires Rep(head, ctx, t) && t.Node? && t.at == elm && t.l.Node?
    modifies head, NodesC(ctx), Nodes(t)
    ensures t' == Node(t.l.l, t.l.at, t.l.c, Node(t.l.r, t.at, t.c, t.r))
    ensures Rep(head, ctx, t') && Nodes(t') == Nodes(t)
  {
    hide Bst, Nodes, Fits, NodesC, LinkedC, LinkedT, Parts;
    NodesAllocated(t);
    NodesCAllocated(ctx);
    ghost var a, b, d := t.l.l, t.l.r, t.r;
    PartsLeft(a, t.l.at, t.l.c, b, t.at, t.c, d);
    PartsRight(a, t.l.at, t.l.c, b, t.at, t.c, d);
    PartsApart(a, t.l.at, b, t.at, d);
    FitsDisjoint(ctx, Nodes(t));
    RootIn(b);
    ParentIn(ctx);
    LinkedNode(t, ParentOf(ctx));
    LinkedNode(t.l, elm);
    var tmp := elm.left;
    elm.left := tmp.right;
    SetParent(tmp.right, elm, b, tmp);
    tmp.parent := elm.parent;
    ReplaceChild(head, elm.parent, elm, tmp, ctx, Nodes(t));
    tmp.right := elm;
    elm.parent := tmp;
    t' := Node(a, t.l.at, t.l.c, Node(b, t.at, t.c, d));
    LinkedNode(t'.r, tmp);
    LinkedNode(t', ParentOf(ctx));
  }

  lemma ParentIn(ctx: Ctx)
    ensures ParentOf(ctx) != null ==> ParentOf(ctx) in NodesC(ctx)
  {
  }
}
