/** Insertion into a red-black tree: RB_INSERT and RB_INSERT_COLOR. */
module RbInsert {
  import opened RbNodes

  // ----- the colour invariants -----

  ghost predicate IsBlack(t: Tree) {
    t.Node? ==> t.c.Black?
  }

  /** The number of black nodes on the way down to a leaf. */
  ghost function BlackHeight(t: Tree): nat {
    if t.Leaf? then 0 else BlackHeight(t.l) + if t.c.Black? then 1 else 0
  }

  /** Equal black heights, and no red node with a red child. */
  ghost predicate Balanced(t: Tree) {
    t.Node? ==>
      && Balanced(t.l) && Balanced(t.r) && BlackHeight(t.l) == BlackHeight(t.r)
      && (t.c.Red? ==> IsBlack(t.l) && IsBlack(t.r))
  }

  /** A red-black tree: balanced, with a black root. */
  ghost predicate RedBlack(t: Tree) {
    Balanced(t) && IsBlack(t)
  }

  /** The place lies under a black node. */
  ghost predicate UnderBlack(ctx: Ctx) {
    !ctx.Top? && ctx.c.Black?
  }

  /** A balanced subtree of black height h completes the context, colours at the hole aside. */
  ghost predicate Completes(ctx: Ctx, h: nat)
    decreases ctx
  {
    match ctx
    case Top => true
    case InLeft(up, at, c, r) =>
      && Balanced(r) && BlackHeight(r) == h && (c.Red? ==> IsBlack(r) && UnderBlack(up))
      && Completes(up, h + if c.Black? then 1 else 0)
    case InRight(l, at, c, up) =>
      && Balanced(l) && BlackHeight(l) == h && (c.Red? ==> IsBlack(l) && UnderBlack(up))
      && Completes(up, h + if c.Black? then 1 else 0)
  }

  lemma {:induction false} PlugRedBlack(ctx: Ctx, t: Tree)
    requires Balanced(t) && Completes(ctx, BlackHeight(t)) && (IsBlack(t) || UnderBlack(ctx))
    ensures RedBlack(Plug(ctx, t))
    decreases ctx
  {
    match ctx
    case Top =>
    case InLeft(up, at, c, r) => PlugRedBlack(up, Node(t, at, c, r));
    case InRight(l, at, c, up) => PlugRedBlack(up, Node(l, at, c, t));
  }

  lemma {:induction false} UnplugRedBlack(ctx: Ctx, t: Tree)
    requires RedBlack(Plug(ctx, t))
    ensures Balanced(t) && Completes(ctx, BlackHeight(t)) && (IsBlack(t) || UnderBlack(ctx))
    decreases ctx
  {
    match ctx
    case Top =>
    case InLeft(up, at, c, r) => UnplugRedBlack(up, Node(t, at, c, r));
    case InRight(l, at, c, up) => UnplugRedBlack(up, Node(l, at, c, t));
  }

  lemma {:induction false} RepTop(head: RbHead, ctx: Ctx, t: Tree)
    ensures Rep(head, ctx, t) <==> Rep(head, Top, Plug(ctx, t))
    decreases ctx
  {
    match ctx
    case Top =>
    case InLeft(up, at, c, r) =>
      AtLeft(head, up, t, at, c, r);
      RepTop(head, up, Node(t, at, c, r));
    case InRight(l, at, c, up) =>
      AtRight(head, up, l, at, c, t);
      RepTop(head, up, Node(l, at, c, t));
  }

  /** Setting the colour of the node at the place of work. */
  method Paint(head: RbHead, n: RbNode, c: Color, ghost ctx: Ctx, ghost t: Tree) returns (ghost t': Tree)
    requires Rep(head, ctx, t) && t.Node? && t.at == n
    modifies n
    ensures t' == Node(t.l, t.at, c, t.r) && Rep(head, ctx, t') && Nodes(t') == Nodes(t)
  {
    FitsDisjoint(ctx, Nodes(t));
    n.color := c;
    t' := Node(t.l, t.at, c, t.r);
  }

  /** Setting the colour of the left child of the place of work. */
  method PaintLeft(head: RbHead, n: RbNode, c: Color, ghost ctx: Ctx, ghost t: Tree) returns (ghost t': Tree)
    requires Rep(head, ctx, t) && t.Node? && t.l.Node? && t.l.at == n
    modifies n
    ensures t' == Node(Node(t.l.l, t.l.at, c, t.l.r), t.at, t.c, t.r)
    ensures Rep(head, ctx, t') && Nodes(t') == Nodes(t)
  {
    hide Rep;
    AtLeft(head, ctx, t.l, t.at, t.c, t.r);
    ghost var l' := Paint(head, n, c, InLeft(ctx, t.at, t.c, t.r), t.l);
    AtLeft(head, ctx, l', t.at, t.c, t.r);
    t' := Node(l', t.at, t.c, t.r);
  }

  /** Setting the colour of the right child of the place of work. */
  method PaintRight(head: RbHead, n: RbNode, c: Color, ghost ctx: Ctx, ghost t: Tree) returns (ghost t': Tree)
    requires Rep(head, ctx, t) && t.Node? && t.r.Node? && t.r.at == n
    modifies n
    ensures t' == Node(t.l, t.at, t.c, Node(t.r.l, t.r.at, c, t.r.r))
    ensures Rep(head, ctx, t') && Nodes(t') == Nodes(t)
  {
    hide Rep;
    AtRight(head, ctx, t.l, t.at, t.c, t.r);
    ghost var r' := Paint(head, n, c, InRight(t.l, t.at, t.c, ctx), t.r);
    AtRight(head, ctx, t.l, t.at, t.c, r');
    t' := Node(t.l, t.at, t.c, r');
  }

  /** RB_ROTATE_LEFT at the left child of the place of work. */
  method RotateLeftInLeft(head: RbHead, n: RbNode, ghost ctx: Ctx, ghost t: Tree) returns (ghost t': Tree)
    requires Rep(head, ctx, t) && t.Node? && t.l.Node? && t.l.at == n && t.l.r.Node?
    modifies head, NodesC(ctx), Nodes(t)
    ensures t' == Node(Node(Node(t.l.l, t.l.at, t.l.c, t.l.r.l), t.l.r.at, t.l.r.c, t.l.r.r), t.at, t.c, t.r)
    ensures Rep(head, ctx, t') && Nodes(t') == Nodes(t)
  {
    hide Rep;
    AtLeft(head, ctx, t.l, t.at, t.c, t.r);
    ghost var l' := RotateLeft(head, n, InLeft(ctx, t.at, t.c, t.r), t.l);
    AtLeft(head, ctx, l', t.at, t.c, t.r);
    t' := Node(l', t.at, t.c, t.r);
  }

  /** RB_ROTATE_RIGHT at the right child of the place of work. */
  method RotateRightInRight(head: RbHead, n: RbNode, ghost ctx: Ctx, ghost t: Tree) returns (ghost t': Tree)
    requires Rep(head, ctx, t) && t.Node? && t.r.Node? && t.r.at == n && t.r.l.Node?
    modifies head, NodesC(ctx), Nodes(t)
    ensures t' == Node(t.l, t.at, t.c, Node(t.r.l.l, t.r.l.at, t.r.l.c, Node(t.r.l.r, t.r.at, t.r.c, t.r.r)))
    ensures Rep(head, ctx, t') && Nodes(t') == Nodes(t)
  {
    hide Rep;
    AtRight(head, ctx, t.l, t.at, t.c, t.r);
    ghost var r' := RotateRight(head, n, InRight(t.l, t.at, t.c, ctx), t.r);
    AtRight(head, ctx, t.l, t.at, t.c, r');
    t' := Node(t.l, t.at, t.c, r');
  }

  // ----- RB_INSERT_COLOR -----

  /** The place of a red node whose only possible conflict is with a red parent. */
  ghost predicate RedAt(ctx: Ctx, t: Tree) {
    t.Node? && t.c.Red? && Balanced(t) && Completes(ctx, BlackHeight(t))
  }

  /** The node under a red parent whose own parent is therefore there and black. */
  ghost predicate Grandchild(ctx: Ctx) {
    !ctx.Top? && ctx.c.Red? && UnderBlack(ctx.up)
  }

  /** The subtree at the parent of a place. */
  ghost function Up(ctx: Ctx, t: Tree): (p: Tree)
    requires !ctx.Top?
  {
    if ctx.InLeft? then Node(t, ctx.at, ctx.c, ctx.r) else Node(ctx.l, ctx.at, ctx.c, t)
  }

  lemma OneUp(head: RbHead, ctx: Ctx, t: Tree)
    requires !ctx.Top?
    ensures Rep(head, ctx, t) <==> Rep(head, ctx.up, Up(ctx, t))
    ensures NodesC(ctx.up) + Nodes(Up(ctx, t)) == NodesC(ctx) + Nodes(t)
    ensures Plug(ctx.up, Up(ctx, t)) == Plug(ctx, t)
  {
    if ctx.InLeft? {
      AtLeft(head, ctx.up, t, ctx.at, ctx.c, ctx.r);
    } else {
      AtRight(head, ctx.up, ctx.l, ctx.at, ctx.c, t);
    }
  }

  /** The pointers around the node at a place. */
  lemma LinksHere(head: RbHead, ctx: Ctx, t: Tree)
    requires Rep(head, ctx, t) && t.Node?
    ensures t.at.left == RootOf(t.l) && t.at.right == RootOf(t.r) && t.at.parent == ParentOf(ctx) && t.at.color == t.c
    ensures RootOf(t.l) != null ==> RootOf(t.l) != RootOf(t.r)
    ensures t.l.Node? ==> t.l.at.color == t.l.c
    ensures t.r.Node? ==> t.r.at.color == t.r.c
    ensures t.at in Nodes(t) && Nodes(t.l) <= Nodes(t) && Nodes(t.r) <= Nodes(t)
    ensures (t.l.Node? ==> t.l.at in Nodes(t)) && (t.r.Node? ==> t.r.at in Nodes(t))
  {
    assert LinkedT(t.l, t.at) && LinkedT(t.r, t.at);
    RootIn(t.l);
    RootIn(t.r);
  }

  ghost function Depth(ctx: Ctx): nat {
    if ctx.Top? then 0 else 1 + Depth(ctx.up)
  }

  /** A pass of the loop leaves the same nodes and a red node higher up, in a place with the same promise. */
  ghost predicate Advanced(ctx: Ctx, t: Tree, ctx': Ctx, t': Tree) {
    RedAt(ctx', t') && Depth(ctx') < Depth(ctx) && NodesC(ctx') + Nodes(t') == NodesC(ctx) + Nodes(t)
  }

  ghost function Painted(t: Tree, c: Color): Tree
    requires t.Node?
  {
    Node(t.l, t.at, c, t.r)
  }

  ghost function Sibling(ctx: Ctx): Tree
    requires !ctx.Top?
  {
    if ctx.InLeft? then ctx.r else ctx.l
  }

  lemma AroundGrandchild(ctx: Ctx, t: Tree)
    requires RedAt(ctx, t) && Grandchild(ctx)
    ensures var h, s, u := BlackHeight(t), Sibling(ctx), Sibling(ctx.up);
            && Balanced(s) && Balanced(u) && IsBlack(s) && BlackHeight(s) == BlackHeight(u) == h
            && Completes(ctx.up.up, h + 1)
            && Balanced(t.l) && Balanced(t.r) && IsBlack(t.l) && IsBlack(t.r)
            && BlackHeight(t.l) == BlackHeight(t.r) == h
  {
    assert Completes(ctx.up, BlackHeight(t));
  }

  /** Red parent and red uncle: after the recolouring the conflict is at the grandparent. */
  lemma RecolouredIsRedAt(ctx: Ctx, t: Tree)
    requires RedAt(ctx, t) && Grandchild(ctx)
    ensures var up, p, u := ctx.up.up, Up(ctx, t), if ctx.up.InLeft? then ctx.up.r else ctx.up.l;
            u.Node? && u.c.Red? ==>
              && (ctx.up.InLeft? ==> RedAt(up, Node(Painted(p, Black), ctx.up.at, Red, Painted(u, Black))))
              && (ctx.up.InRight? ==> RedAt(up, Node(Painted(u, Black), ctx.up.at, Red, Painted(p, Black))))
  {
    AroundGrandchild(ctx, t);
  }

  /** Black uncle, red nodes in line on the left: the tree after the rotation at the grandparent. */
  lemma InLineLeft(ctx: Ctx, t: Tree)
    requires RedAt(ctx, t) && Grandchild(ctx) && ctx.up.InLeft? && ctx.InLeft? && IsBlack(ctx.up.r)
    ensures RedAt(InLeft(ctx.up.up, ctx.at, Black, Node(ctx.r, ctx.up.at, Red, ctx.up.r)), t)
  {
    AroundGrandchild(ctx, t);
  }

  /** Black uncle, a bend to the right on the left side: the tree after both rotations. */
  lemma BentLeft(ctx: Ctx, t: Tree)
    requires RedAt(ctx, t) && Grandchild(ctx) && ctx.up.InLeft? && ctx.InRight? && IsBlack(ctx.up.r)
    ensures RedAt(InLeft(ctx.up.up, t.at, Black, Node(t.r, ctx.up.at, Red, ctx.up.r)), Node(ctx.l, ctx.at, Red, t.l))
  {
    AroundGrandchild(ctx, t);
  }

  lemma InLineRight(ctx: Ctx, t: Tree)
    requires RedAt(ctx, t) && Grandchild(ctx) && ctx.up.InRight? && ctx.InRight? && IsBlack(ctx.up.l)
    ensures RedAt(InRight(Node(ctx.up.l, ctx.up.at, Red, ctx.l), ctx.at, Black, ctx.up.up), t)
  {
    AroundGrandchild(ctx, t);
  }

  lemma BentRight(ctx: Ctx, t: Tree)
    requires RedAt(ctx, t) && Grandchild(ctx) && ctx.up.InRight? && ctx.InLeft? && IsBlack(ctx.up.l)
    ensures RedAt(InRight(Node(ctx.up.l, ctx.up.at, Red, t.l), t.at, Black, ctx.up.up), Node(t.r, ctx.at, Red, ctx.r))
  {
    AroundGrandchild(ctx, t);
  }

  /** The body of the loop of RB_INSERT_COLOR when the parent is a left child. */
  method FixUnderLeft(head: RbHead, elm0: RbNode, parent0: RbNode, gparent: RbNode, ghost ctx: Ctx, ghost t: Tree)
    returns (elm: RbNode, ghost ctx': Ctx, ghost t': Tree)
    requires Rep(head, ctx, t) && RedAt(ctx, t) && Grandchild(ctx) && ctx.up.InLeft?
    requires elm0 == t.at && parent0 == ctx.at && gparent == ctx.up.at
    modifies head, NodesC(ctx), Nodes(t)
    ensures Rep(head, ctx', t') && Advanced(ctx, t, ctx', t') && elm == t'.at
  {
    hide Rep, Completes, Balanced;
    elm := elm0;
    var parent := parent0;
    ghost var up, p := ctx.up.up, Up(ctx, t);
    ghost var g := Up(ctx.up, p);
    assert Depth(ctx) == 1 + Depth(ctx.up);
    OneUp(head, ctx, t);
    OneUp(head, ctx.up, p);
    LinksHere(head, up, g);
    var tmp := gparent.right;
    if tmp != null && tmp.color == Red {
      RecolouredIsRedAt(ctx, t);
      g := PaintRight(head, tmp, Black, up, g);
      g := PaintLeft(head, parent, Black, up, g);
      g := Paint(head, gparent, Red, up, g);
      elm, ctx', t' := gparent, up, g;
    } else {
      LinksHere(head, ctx.up, p);
      if parent.right == elm {
        BentLeft(ctx, t);
        g := RotateLeftInLeft(head, parent, up, g);
        parent, elm := elm, parent;
      } else {
        InLineLeft(ctx, t);
      }
      g := PaintLeft(head, parent, Black, up, g);
      g := Paint(head, gparent, Red, up, g);
      g := RotateRight(head, gparent, up, g);
      ctx', t' := InLeft(up, g.at, Black, g.r), g.l;
      OneUp(head, ctx', t');
    }
  }

  /** The body of the loop of RB_INSERT_COLOR when the parent is a right child. */
  method FixUnderRight(head: RbHead, elm0: RbNode, parent0: RbNode, gparent: RbNode, ghost ctx: Ctx, ghost t: Tree)
    returns (elm: RbNode, ghost ctx': Ctx, ghost t': Tree)
    requires Rep(head, ctx, t) && RedAt(ctx, t) && Grandchild(ctx) && ctx.up.InRight?
    requires elm0 == t.at && parent0 == ctx.at && gparent == ctx.up.at
    modifies head, NodesC(ctx), Nodes(t)
    ensures Rep(head, ctx', t') && Advanced(ctx, t, ctx', t') && elm == t'.at
  {
    hide Rep, Completes, Balanced;
    elm := elm0;
    var parent := parent0;
    ghost var up, p := ctx.up.up, Up(ctx, t);
    ghost var g := Up(ctx.up, p);
    assert Depth(ctx) == 1 + Depth(ctx.up);
    OneUp(head, ctx, t);
    OneUp(head, ctx.up, p);
    LinksHere(head, up, g);
    var tmp := gparent.left;
    if tmp != null && tmp.color == Red {
      RecolouredIsRedAt(ctx, t);
      g := PaintLeft(head, tmp, Black, up, g);
      g := PaintRight(head, parent, Black, up, g);
      g := Paint(head, gparent, Red, up, g);
      elm, ctx', t' := gparent, up, g;
    } else {
      LinksHere(head, ctx.up, p);
      if parent.left == elm {
        BentRight(ctx, t);
        g := RotateRightInRight(head, parent, up, g);
        parent, elm := elm, parent;
      } else {
        InLineRight(ctx, t);
      }
      g := PaintRight(head, parent, Black, up, g);
      g := Paint(head, gparent, Red, up, g);
      g := RotateLeft(head, gparent, up, g);
      ctx', t' := InRight(g.l, g.at, Black, up), g.r;
      OneUp(head, ctx', t');
    }
  }

  /** RB_INSERT_COLOR: from a red node whose parent may be red to a red-black tree of the same nodes. */
  method InsertColor(head: RbHead, elm0: RbNode, ghost ctx0: Ctx, ghost t0: Tree) returns (ghost t': Tree)
    requires Rep(head, ctx0, t0) && RedAt(ctx0, t0) && elm0 == t0.at
    modifies head, NodesC(ctx0), Nodes(t0)
    ensures Rep(head, Top, t') && RedBlack(t') && Nodes(t') == NodesC(ctx0) + Nodes(t0)
  {
    hide Rep, Completes, Balanced, NodesC, Nodes;
    var elm := elm0;
    ghost var ctx, t := ctx0, t0;
    LinksHere(head, ctx, t);
    LinksAbove(head, ctx, t);
    while elm.parent != null && elm.parent.color == Red
      invariant Rep(head, ctx, t) && RedAt(ctx, t) && elm == t.at
      invariant NodesC(ctx) + Nodes(t) == NodesC(ctx0) + Nodes(t0)
      invariant elm.parent == ParentOf(ctx) && (elm.parent != null ==> elm.parent.color == ctx.c)
      decreases Depth(ctx)
    {
      UnderRedIsGrandchild(ctx, BlackHeight(t));
      var parent := elm.parent;
      LinksUp(head, ctx, t);
      var gparent := parent.parent;
      if parent == gparent.left {
        elm, ctx, t := FixUnderLeft(head, elm, parent, gparent, ctx, t);
      } else {
        elm, ctx, t := FixUnderRight(head, elm, parent, gparent, ctx, t);
      }
      LinksHere(head, ctx, t);
      LinksAbove(head, ctx, t);
    }
    RepTop(head, ctx, t);
    PlugNodes(ctx, t);
    BlackRootEnds(ctx, t);
    t' := Plug(ctx, t);
    RootLinks(head, t');
    RootIn(t');
    t' := Paint(head, head.root, Black, Top, t');
  }

  /** Without a red parent, painting the root black makes a red-black tree. */
  lemma BlackRootEnds(ctx: Ctx, t: Tree)
    requires RedAt(ctx, t) && (ctx.Top? || ctx.c.Black?)
    ensures var p := Plug(ctx, t); p.Node? && RedBlack(Painted(p, Black))
  {
    if !ctx.Top? {
      PlugRedBlack(ctx, t);
      PlugIsNode(ctx, t);
    }
  }

  lemma {:induction false} PlugIsNode(ctx: Ctx, t: Tree)
    requires t.Node? || !ctx.Top?
    ensures Plug(ctx, t).Node?
    decreases ctx
  {
    match ctx
    case Top =>
    case InLeft(up, at, c, r) => PlugIsNode(up, Node(t, at, c, r));
    case InRight(l, at, c, up) => PlugIsNode(up, Node(l, at, c, t));
  }

  /** The parent of the place, seen from the head. */
  lemma LinksAbove(head: RbHead, ctx: Ctx, t: Tree)
    requires Rep(head, ctx, t)
    ensures !ctx.Top? ==> ctx.at.color == ctx.c
  {
  }

  lemma UnderRedIsGrandchild(ctx: Ctx, h: nat)
    requires Completes(ctx, h) && !ctx.Top? && ctx.c.Red?
    ensures Grandchild(ctx)
  {
  }

  lemma LinksUp(head: RbHead, ctx: Ctx, t: Tree)
    requires Rep(head, ctx, t) && Grandchild(ctx)
    ensures ctx.at.parent == ctx.up.at
    ensures ctx.up.InLeft? <==> ctx.up.at.left == ctx.at
  {
    hide Rep;
    OneUp(head, ctx, t);
    OneUp(head, ctx.up, Up(ctx, t));
    LinksHere(head, ctx.up, Up(ctx, t));
    LinksHere(head, ctx.up.up, Up(ctx.up, Up(ctx, t)));
  }

  lemma RootLinks(head: RbHead, t: Tree)
    requires Rep(head, Top, t)
    ensures head.root == RootOf(t)
  {
  }

  // ----- RB_INSERT -----

  /** A node below and a node in the context of a place have different keys. */
  lemma {:induction false} FitsKeys(ctx: Ctx, s: set<RbNode>)
    requires Fits(ctx, s)
    ensures forall n, m :: n in s && m in NodesC(ctx) ==> n.key != m.key
    decreases ctx
  {
    match ctx
    case Top =>
    case InLeft(up, at, c, r) => FitsKeys(up, s + {at} + Nodes(r));
    case InRight(l, at, c, up) => FitsKeys(up, Nodes(l) + {at} + s);
  }

  /** Going down on the side of the key keeps it fitting. */
  lemma FitsGoLeft(ctx: Ctx, t: Tree, e: RbNode)
    requires t.Node? && Bst(t) && Fits(ctx, Nodes(t) + {e}) && e.key < t.at.key
    ensures Fits(InLeft(ctx, t.at, t.c, t.r), Nodes(t.l) + {e})
  {
    assert Nodes(t.l) + {e} + {t.at} + Nodes(t.r) == Nodes(t) + {e};
  }

  lemma FitsGoRight(ctx: Ctx, t: Tree, e: RbNode)
    requires t.Node? && Bst(t) && Fits(ctx, Nodes(t) + {e}) && t.at.key < e.key
    ensures Fits(InRight(t.l, t.at, t.c, ctx), Nodes(t.r) + {e})
  {
    assert Nodes(t.l) + {t.at} + (Nodes(t.r) + {e}) == Nodes(t) + {e};
  }

  /** RB_SET and the link from the parent: a new red leaf at an empty place. */
  method LinkLeaf(head: RbHead, elm: RbNode, parent: RbNode?, comp: int, ghost ctx: Ctx)
    requires LinkedC(ctx, null, head) && Fits(ctx, {elm}) && parent == ParentOf(ctx)
    requires (ctx.InLeft? ==> comp < 0) && (ctx.InRight? ==> comp > 0)
    modifies head, elm, if parent != null then {parent} else {}
    ensures LinkedC(ctx, elm, head) && LinkedT(Node(Leaf, elm, Red, Leaf), parent)
  {
    hide Bst;
    FitsDisjoint(ctx, {elm});
    if !ctx.Top? {
      FitsDisjoint(ctx.up, if ctx.InLeft? then {elm} + {ctx.at} + Nodes(ctx.r) else Nodes(ctx.l) + {ctx.at} + {elm});
    }
    elm.parent := parent;
    elm.left, elm.right := null, null;
    elm.color := Red;
    if parent != null {
      if comp < 0 {
        parent.left := elm;
      } else {
        parent.right := elm;
      }
    } else {
      head.root := elm;
    }
  }

  lemma LeafPlaced(head: RbHead, ctx: Ctx, elm: RbNode)
    requires LinkedC(ctx, elm, head) && LinkedT(Node(Leaf, elm, Red, Leaf), ParentOf(ctx)) && Fits(ctx, {elm})
    ensures Rep(head, ctx, Node(Leaf, elm, Red, Leaf))
  {
    NodesLeaf(elm);
  }

  lemma NodesLeaf(elm: RbNode)
    ensures Nodes(Node(Leaf, elm, Red, Leaf)) == {elm} && Bst(Node(Leaf, elm, Red, Leaf))
  {
  }

  function Compare(a: int, b: int): int {
    if a < b then -1 else if a > b then 1 else 0
  }

  /** The search of RB_INSERT: a node with the key, or the empty place where it belongs. */
  method Descend(head: RbHead, elm: RbNode, ghost t: Tree)
    returns (found: RbNode?, parent: RbNode?, comp: int, ghost ctx: Ctx)
    requires Rep(head, Top, t) && elm !in Nodes(t)
    ensures found != null ==> found in Nodes(t) && found.key == elm.key
    ensures found == null ==>
      && Rep(head, ctx, Leaf) && Plug(ctx, Leaf) == t && Fits(ctx, {elm}) && parent == ParentOf(ctx)
      && (ctx.InLeft? ==> comp < 0) && (ctx.InRight? ==> comp > 0)
  {
    hide Rep, Fits, Nodes;
    var tmp := head.root;
    parent, comp := null, 0;
    ghost var s := t;
    ctx := Top;
    RootLinks(head, t);
    FitsAnything(Nodes(t) + {elm});
    while tmp != null
      invariant Rep(head, ctx, s) && tmp == RootOf(s) && parent == ParentOf(ctx) && Plug(ctx, s) == t
      invariant Fits(ctx, Nodes(s) + {elm})
      invariant (ctx.InLeft? ==> comp < 0) && (ctx.InRight? ==> comp > 0)
      decreases s
    {
      parent := tmp;
      comp := Compare(elm.key, parent.key);
      LinksHere(head, ctx, s);
      RepBst(head, ctx, s);
      if comp < 0 {
        tmp := tmp.left;
        AtLeft(head, ctx, s.l, s.at, s.c, s.r);
        FitsGoLeft(ctx, s, elm);
        ctx, s := InLeft(ctx, s.at, s.c, s.r), s.l;
      } else if comp > 0 {
        tmp := tmp.right;
        AtRight(head, ctx, s.l, s.at, s.c, s.r);
        FitsGoRight(ctx, s, elm);
        ctx, s := InRight(s.l, s.at, s.c, ctx), s.r;
      } else {
        PlugNodes(ctx, s);
        RootIn(s);
        return tmp, parent, comp, ctx;
      }
    }
    found := null;
    FitsSubset(ctx, Nodes(s) + {elm}, {elm});
  }

  lemma FitsAnything(s: set<RbNode>)
    ensures Fits(Top, s)
  {
  }

  lemma RepBst(head: RbHead, ctx: Ctx, t: Tree)
    requires Rep(head, ctx, t)
    ensures Bst(t) && Fits(ctx, Nodes(t))
  {
  }

  /** RB_INSERT: the node with the same key if there is one, else elm becomes part of the tree. */
  method Insert(head: RbHead, elm: RbNode, ghost t: Tree) returns (found: RbNode?, ghost t': Tree)
    requires Rep(head, Top, t) && RedBlack(t) && elm !in Nodes(t)
    modifies head, elm, Nodes(t)
    ensures Rep(head, Top, t') && RedBlack(t')
    ensures found != null ==> t' == t && found in Nodes(t) && found.key == elm.key
    ensures found == null ==> Nodes(t') == Nodes(t) + {elm} && forall n :: n in Nodes(t) ==> n.key != elm.key
  {
    hide Rep, Completes, Balanced, Fits, Nodes, NodesC;
    var parent, comp;
    ghost var ctx;
    NodesAllocated(t);
    NodesCAllocated(Top);
    found, parent, comp, ctx := Descend(head, elm, t);
    t' := t;
    if found == null {
      PlugNodes(ctx, Leaf);
      NoNodes();
      UnplugRedBlack(ctx, Leaf);
      FitsKeys(ctx, {elm});
      ParentIn(ctx);
      RepLinks(head, ctx);
      LinkLeaf(head, elm, parent, comp, ctx);
      LeafPlaced(head, ctx, elm);
      NodesLeaf(elm);
      NewLeafIsRedAt(ctx, elm);
      t' := InsertColor(head, elm, ctx, Node(Leaf, elm, Red, Leaf));
    }
  }

  lemma NoNodes()
    ensures Nodes(Leaf) == {} && BlackHeight(Leaf) == 0
  {
  }

  lemma RepLinks(head: RbHead, ctx: Ctx)
    requires Rep(head, ctx, Leaf)
    ensures LinkedC(ctx, null, head)
  {
  }

  lemma NewLeafIsRedAt(ctx: Ctx, elm: RbNode)
    requires Completes(ctx, 0)
    ensures RedAt(ctx, Node(Leaf, elm, Red, Leaf))
  {
  }
}
