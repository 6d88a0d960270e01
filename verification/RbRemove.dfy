/** Removal from a red-black tree: RB_REMOVE and RB_REMOVE_COLOR. */
module RbRemove {
  import opened RbNodes
  import opened RbInsert

  // ----- a place that is one black node short -----

  ghost predicate BalancedIfBlack(t: Tree) {
    t.Leaf? || Balanced(Painted(t, Black))
  }

  /** The subtree would complete its context if it had one more black node on every path. */
  ghost predicate ShortAt(ctx: Ctx, t: Tree) {
    BalancedIfBlack(t) && Completes(ctx, BlackHeight(t) + 1)
  }

  /** The sibling of a place that is short is there. */
  lemma SiblingThere(ctx: Ctx, t: Tree)
    requires ShortAt(ctx, t) && !ctx.Top?
    ensures Sibling(ctx).Node? && Balanced(Sibling(ctx)) && BlackHeight(Sibling(ctx)) == BlackHeight(t) + 1
    ensures Sibling(ctx).c.Red? ==> ctx.c.Black? && Sibling(ctx).l.Node? && Sibling(ctx).r.Node?
    ensures ctx.c.Red? ==> UnderBlack(ctx.up)
    ensures Completes(ctx.up, BlackHeight(t) + 1 + if ctx.c.Black? then 1 else 0)
  {
  }

  lemma RedSiblingLeft(ctx: Ctx, t: Tree)
    requires ShortAt(ctx, t) && ctx.InLeft? && ctx.r.Node? && ctx.r.c.Red?
    ensures ShortAt(InLeft(InLeft(ctx.up, ctx.r.at, Black, ctx.r.r), ctx.at, Red, ctx.r.l), t)
    ensures IsBlack(ctx.r.l)
  {
    SiblingThere(ctx, t);
  }

  lemma RedSiblingRight(ctx: Ctx, t: Tree)
    requires ShortAt(ctx, t) && ctx.InRight? && ctx.l.Node? && ctx.l.c.Red?
    ensures ShortAt(InRight(ctx.l.r, ctx.at, Red, InRight(ctx.l.l, ctx.l.at, Black, ctx.up)), t)
    ensures IsBlack(ctx.l.r)
  {
    SiblingThere(ctx, t);
  }

  /** Black sibling with black children: painted red, it makes the parent's place the short one. */
  lemma BlackNephews(ctx: Ctx, t: Tree)
    requires ShortAt(ctx, t) && IsBlack(t) && !ctx.Top?
    requires Sibling(ctx).Node? && IsBlack(Sibling(ctx)) && IsBlack(Sibling(ctx).l) && IsBlack(Sibling(ctx).r)
    ensures ctx.InLeft? ==> ShortAt(ctx.up, Node(t, ctx.at, ctx.c, Painted(ctx.r, Red)))
    ensures ctx.InRight? ==> ShortAt(ctx.up, Node(Painted(ctx.l, Red), ctx.at, ctx.c, t))
  {
    SiblingThere(ctx, t);
  }

  /** A subtree that completes its context, in a colour that suits it. */
  ghost predicate Whole(ctx: Ctx, t: Tree) {
    Balanced(t) && Completes(ctx, BlackHeight(t)) && (IsBlack(t) || UnderBlack(ctx))
  }

  /** Black sibling with a red outer child: the rotation at the parent makes good the shortage. */
  lemma OuterNephewLeft(ctx: Ctx, t: Tree)
    requires ShortAt(ctx, t) && IsBlack(t) && ctx.InLeft? && ctx.r.Node? && ctx.r.c.Black?
    requires ctx.r.r.Node? && ctx.r.r.c.Red?
    ensures Whole(ctx.up, Node(Node(t, ctx.at, Black, ctx.r.l), ctx.r.at, ctx.c, Painted(ctx.r.r, Black)))
  {
    SiblingThere(ctx, t);
  }

  /** Black sibling with only the inner child red: two rotations do. */
  lemma InnerNephewLeft(ctx: Ctx, t: Tree)
    requires ShortAt(ctx, t) && IsBlack(t) && ctx.InLeft? && ctx.r.Node? && ctx.r.c.Black?
    requires IsBlack(ctx.r.r) && ctx.r.l.Node? && ctx.r.l.c.Red?
    ensures var w := ctx.r;
            Whole(ctx.up, Node(Node(t, ctx.at, Black, w.l.l), w.l.at, ctx.c, Node(w.l.r, w.at, Black, w.r)))
  {
    SiblingThere(ctx, t);
  }

  lemma OuterNephewRight(ctx: Ctx, t: Tree)
    requires ShortAt(ctx, t) && IsBlack(t) && ctx.InRight? && ctx.l.Node? && ctx.l.c.Black?
    requires ctx.l.l.Node? && ctx.l.l.c.Red?
    ensures Whole(ctx.up, Node(Painted(ctx.l.l, Black), ctx.l.at, ctx.c, Node(ctx.l.r, ctx.at, Black, t)))
  {
    SiblingThere(ctx, t);
  }

  lemma InnerNephewRight(ctx: Ctx, t: Tree)
    requires ShortAt(ctx, t) && IsBlack(t) && ctx.InRight? && ctx.l.Node? && ctx.l.c.Black?
    requires IsBlack(ctx.l.l) && ctx.l.r.Node? && ctx.l.r.c.Red?
    ensures var w := ctx.l;
            Whole(ctx.up, Node(Node(w.l, w.at, Black, w.r.l), w.r.at, ctx.c, Node(w.r.r, ctx.at, Black, t)))
  {
    SiblingThere(ctx, t);
  }

  // ----- RB_REMOVE_COLOR -----

  predicate BlackOrNull(n: RbNode?)
    reads n
  {
    n == null || n.color == Black
  }

  lemma ColorOf(head: RbHead, ctx: Ctx, t: Tree)
    requires Rep(head, ctx, t)
    ensures BlackOrNull(RootOf(t)) <==> IsBlack(t)
  {
  }

  lemma ColorsBelow(head: RbHead, ctx: Ctx, t: Tree)
    requires Rep(head, ctx, t) && t.Node?
    ensures BlackOrNull(t.at.left) <==> IsBlack(t.l)
    ensures BlackOrNull(t.at.right) <==> IsBlack(t.r)
  {
    assert LinkedT(t.l, t.at) && LinkedT(t.r, t.at);
  }

  /** The red-sibling block, for a left child. */
  method TurnRedSiblingLeft(head: RbHead, parent: RbNode, tmp0: RbNode, ghost ctx: Ctx, ghost t: Tree)
    returns (tmp: RbNode, ghost ctx': Ctx)
    requires Rep(head, ctx, t) && ShortAt(ctx, t) && ctx.InLeft? && parent == ctx.at
    requires ctx.r.Node? && ctx.r.at == tmp0 && ctx.r.c.Red?
    modifies head, NodesC(ctx), Nodes(t)
    ensures Rep(head, ctx', t) && ShortAt(ctx', t) && ctx'.InLeft? && ctx'.at == parent && ctx'.c.Red?
    ensures ctx'.r.Node? && ctx'.r.at == tmp && ctx'.r.c.Black? && Depth(ctx'.up) == Depth(ctx)
    ensures NodesC(ctx') + Nodes(t) == NodesC(ctx) + Nodes(t)
  {
    hide Rep, Completes, Balanced, BalancedIfBlack;
    SiblingThere(ctx, t);
    RedSiblingLeft(ctx, t);
    ghost var up, p := ctx.up, Up(ctx, t);
    OneUp(head, ctx, t);
    LinksHere(head, up, p);
    p := PaintRight(head, tmp0, Black, up, p);
    p := Paint(head, parent, Red, up, p);
    p := RotateLeft(head, parent, up, p);
    AtLeft(head, up, p.l, p.at, p.c, p.r);
    ctx' := InLeft(InLeft(up, p.at, Black, p.r), parent, Red, p.l.r);
    OneUp(head, ctx', t);
    OneUp(head, ctx'.up, p.l);
    LinksHere(head, ctx'.up, p.l);
    tmp := parent.right;
  }

  /** The rest of a pass for a left child, with a black sibling: the shortage moves up, or is made good. */
  method FixShortLeft(head: RbHead, parent: RbNode, tmp0: RbNode, ghost ctx: Ctx, ghost t: Tree)
    returns (done: bool, ghost ctx': Ctx, ghost t': Tree)
    requires Rep(head, ctx, t) && ShortAt(ctx, t) && IsBlack(t) && ctx.InLeft? && parent == ctx.at
    requires ctx.r.Node? && ctx.r.at == tmp0 && ctx.r.c.Black?
    modifies head, NodesC(ctx), Nodes(t)
    ensures Rep(head, ctx', t') && ctx' == ctx.up && NodesC(ctx') + Nodes(t') == NodesC(ctx) + Nodes(t)
    ensures done ==> Whole(ctx', t')
    ensures !done ==> ShortAt(ctx', t') && t'.Node? && t'.at == parent && t'.c == ctx.c
  {
    hide Rep, Completes, Balanced, BalancedIfBlack, NodesC, Nodes;
    SiblingThere(ctx, t);
    ctx' := ctx.up;
    ghost var p := Up(ctx, t);
    OneUp(head, ctx, t);
    LinksHere(head, ctx', p);
    AtRight(head, ctx', p.l, p.at, p.c, p.r);
    ColorsBelow(head, InRight(p.l, p.at, p.c, ctx'), p.r);
    LinksHere(head, InRight(p.l, p.at, p.c, ctx'), p.r);
    var tmp := tmp0;
    if BlackOrNull(tmp.left) && BlackOrNull(tmp.right) {
      BlackNephews(ctx, t);
      p := PaintRight(head, tmp, Red, ctx', p);
      done, t' := false, p;
    } else {
      if BlackOrNull(tmp.right) {
        InnerNephewLeft(ctx, t);
        p := TurnInnerLeft(head, parent, tmp, ctx', p);
        LinksHere(head, ctx', p);
        tmp := parent.right;
      } else {
        OuterNephewLeft(ctx, t);
      }
      p := BorrowBlackLeft(head, parent, tmp, ctx', p);
      done, t' := true, p;
    }
  }

  /** The inner red child of the sibling takes the sibling's place. */
  method TurnInnerLeft(head: RbHead, parent: RbNode, tmp: RbNode, ghost up: Ctx, ghost p: Tree) returns (ghost p': Tree)
    requires Rep(head, up, p) && p.Node? && p.at == parent && p.r.Node? && p.r.at == tmp && p.r.l.Node?
    modifies head, NodesC(up), Nodes(p)
    ensures var w := p.r;
            p' == Node(p.l, p.at, p.c, Node(w.l.l, w.l.at, Black, Node(w.l.r, w.at, Red, w.r)))
    ensures Rep(head, up, p') && Nodes(p') == Nodes(p)
  {
    hide Rep;
    AtRight(head, up, p.l, p.at, p.c, p.r);
    ghost var ctx, w := InRight(p.l, p.at, p.c, up), p.r;
    LinksHere(head, up, p);
    LinksHere(head, ctx, w);
    var oleft := tmp.left;
    if oleft != null {
      w := PaintLeft(head, oleft, Black, ctx, w);
    }
    w := Paint(head, tmp, Red, ctx, w);
    w := RotateRight(head, tmp, ctx, w);
    AtRight(head, up, p.l, p.at, p.c, w);
    p' := Node(p.l, p.at, p.c, w);
  }

  /** The sibling takes the parent's place and colour; the parent and the outer child become black. */
  method BorrowBlackLeft(head: RbHead, parent: RbNode, tmp: RbNode, ghost up: Ctx, ghost p: Tree) returns (ghost p': Tree)
    requires Rep(head, up, p) && p.Node? && p.at == parent && p.r.Node? && p.r.at == tmp && p.r.r.Node?
    modifies head, NodesC(up), Nodes(p)
    ensures var w := p.r;
            p' == Node(Node(p.l, p.at, Black, w.l), w.at, p.c, Painted(w.r, Black))
    ensures Rep(head, up, p') && Nodes(p') == Nodes(p)
  {
    hide Rep;
    LinksHere(head, up, p);
    ghost var c := p.c;
    p' := PaintRight(head, tmp, parent.color, up, p);
    p' := Paint(head, parent, Black, up, p');
    LinksHere(head, up, p');
    AtRight(head, up, p'.l, p'.at, p'.c, p'.r);
    ghost var ctx := InRight(p'.l, p'.at, p'.c, up);
    LinksHere(head, ctx, p'.r);
    if tmp.right != null {
      ghost var w := PaintRight(head, tmp.right, Black, ctx, p'.r);
      AtRight(head, up, p'.l, p'.at, p'.c, w);
      p' := Node(p'.l, p'.at, p'.c, w);
    }
    p' := RotateLeft(head, parent, up, p');
  }

  /** The red-sibling block, for a right child. */
  method TurnRedSiblingRight(head: RbHead, parent: RbNode, tmp0: RbNode, ghost ctx: Ctx, ghost t: Tree)
    returns (tmp: RbNode, ghost ctx': Ctx)
    requires Rep(head, ctx, t) && ShortAt(ctx, t) && ctx.InRight? && parent == ctx.at
    requires ctx.l.Node? && ctx.l.at == tmp0 && ctx.l.c.Red?
    modifies head, NodesC(ctx), Nodes(t)
    ensures Rep(head, ctx', t) && ShortAt(ctx', t) && ctx'.InRight? && ctx'.at == parent && ctx'.c.Red?
    ensures ctx'.l.Node? && ctx'.l.at == tmp && ctx'.l.c.Black? && Depth(ctx'.up) == Depth(ctx)
    ensures NodesC(ctx') + Nodes(t) == NodesC(ctx) + Nodes(t)
  {
    hide Rep, Completes, Balanced, BalancedIfBlack;
    SiblingThere(ctx, t);
    RedSiblingRight(ctx, t);
    ghost var up, p := ctx.up, Up(ctx, t);
    OneUp(head, ctx, t);
    LinksHere(head, up, p);
    p := PaintLeft(head, tmp0, Black, up, p);
    p := Paint(head, parent, Red, up, p);
    p := RotateRight(head, parent, up, p);
    AtRight(head, up, p.l, p.at, p.c, p.r);
    ctx' := InRight(p.r.l, parent, Red, InRight(p.l, p.at, Black, up));
    OneUp(head, ctx', t);
    OneUp(head, ctx'.up, p.r);
    LinksHere(head, ctx'.up, p.r);
    tmp := parent.left;
  }

  /** The rest of a pass for a right child, with a black sibling: the shortage moves up, or is made good. */
  method FixShortRight(head: RbHead, parent: RbNode, tmp0: RbNode, ghost ctx: Ctx, ghost t: Tree)
    returns (done: bool, ghost ctx': Ctx, ghost t': Tree)
    requires Rep(head, ctx, t) && ShortAt(ctx, t) && IsBlack(t) && ctx.InRight? && parent == ctx.at
    requires ctx.l.Node? && ctx.l.at == tmp0 && ctx.l.c.Black?
    modifies head, NodesC(ctx), Nodes(t)
    ensures Rep(head, ctx', t') && ctx' == ctx.up && NodesC(ctx') + Nodes(t') == NodesC(ctx) + Nodes(t)
    ensures done ==> Whole(ctx', t')
    ensures !done ==> ShortAt(ctx', t') && t'.Node? && t'.at == parent && t'.c == ctx.c
  {
    hide Rep, Completes, Balanced, BalancedIfBlack, NodesC, Nodes;
    SiblingThere(ctx, t);
    ctx' := ctx.up;
    ghost var p := Up(ctx, t);
    OneUp(head, ctx, t);
    LinksHere(head, ctx', p);
    AtLeft(head, ctx', p.l, p.at, p.c, p.r);
    ColorsBelow(head, InLeft(ctx', p.at, p.c, p.r), p.l);
    LinksHere(head, InLeft(ctx', p.at, p.c, p.r), p.l);
    var tmp := tmp0;
    if BlackOrNull(tmp.right) && BlackOrNull(tmp.left) {
      BlackNephews(ctx, t);
      p := PaintLeft(head, tmp, Red, ctx', p);
      done, t' := false, p;
    } else {
      if BlackOrNull(tmp.left) {
        InnerNephewRight(ctx, t);
        p := TurnInnerRight(head, parent, tmp, ctx', p);
        LinksHere(head, ctx', p);
        tmp := parent.left;
      } else {
        OuterNephewRight(ctx, t);
      }
      p := BorrowBlackRight(head, parent, tmp, ctx', p);
      done, t' := true, p;
    }
  }

  /** The inner red child of the sibling takes the sibling's place. */
  method TurnInnerRight(head: RbHead, parent: RbNode, tmp: RbNode, ghost up: Ctx, ghost p: Tree) returns (ghost p': Tree)
    requires Rep(head, up, p) && p.Node? && p.at == parent && p.l.Node? && p.l.at == tmp && p.l.r.Node?
    modifies head, NodesC(up), Nodes(p)
    ensures var w := p.l;
            p' == Node(Node(Node(w.l, w.at, Red, w.r.l), w.r.at, Black, w.r.r), p.at, p.c, p.r)
    ensures Rep(head, up, p') && Nodes(p') == Nodes(p)
  {
    hide Rep;
    AtLeft(head, up, p.l, p.at, p.c, p.r);
    ghost var ctx, w := InLeft(up, p.at, p.c, p.r), p.l;
    LinksHere(head, up, p);
    LinksHere(head, ctx, w);
    var oright := tmp.right;
    if oright != null {
      w := PaintRight(head, oright, Black, ctx, w);
    }
    w := Paint(head, tmp, Red, ctx, w);
    w := RotateLeft(head, tmp, ctx, w);
    AtLeft(head, up, w, p.at, p.c, p.r);
    p' := Node(w, p.at, p.c, p.r);
  }

  /** The sibling takes the parent's place and colour; the parent and the outer child become black. */
  method BorrowBlackRight(head: RbHead, parent: RbNode, tmp: RbNode, ghost up: Ctx, ghost p: Tree) returns (ghost p': Tree)
    requires Rep(head, up, p) && p.Node? && p.at == parent && p.l.Node? && p.l.at == tmp && p.l.l.Node?
    modifies head, NodesC(up), Nodes(p)
    ensures var w := p.l;
            p' == Node(Painted(w.l, Black), w.at, p.c, Node(w.r, p.at, Black, p.r))
    ensures Rep(head, up, p') && Nodes(p') == Nodes(p)
  {
    hide Rep;
    LinksHere(head, up, p);
    ghost var c := p.c;
    p' := PaintLeft(head, tmp, parent.color, up, p);
    p' := Paint(head, parent, Black, up, p');
    LinksHere(head, up, p');
    AtLeft(head, up, p'.l, p'.at, p'.c, p'.r);
    ghost var ctx := InLeft(up, p'.at, p'.c, p'.r);
    LinksHere(head, ctx, p'.l);
    if tmp.left != null {
      ghost var w := PaintLeft(head, tmp.left, Black, ctx, p'.l);
      AtLeft(head, up, w, p'.at, p'.c, p'.r);
      p' := Node(w, p'.at, p'.c, p'.r);
    }
    p' := RotateRight(head, parent, up, p');
  }

  /** A place that is not the whole tree is below the root. */
  lemma {:induction false} RootAbove(head: RbHead, ctx: Ctx, hole: RbNode?)
    requires LinkedC(ctx, hole, head) && !ctx.Top?
    ensures head.root != null && head.root in NodesC(ctx)
    decreases ctx
  {
    if !ctx.up.Top? { RootAbove(head, ctx.up, ctx.at); }
  }

  /** The test `elm != RB_ROOT(head)`, and on which side of its parent a place that is short lies. */
  lemma WhereShort(head: RbHead, ctx: Ctx, t: Tree)
    requires Rep(head, ctx, t) && ShortAt(ctx, t)
    ensures RootOf(t) == head.root <==> ctx.Top?
    ensures !ctx.Top? ==> (ctx.at.left == RootOf(t) <==> ctx.InLeft?) && ctx.at.color == ctx.c
    ensures !ctx.Top? ==> RootOf(Sibling(ctx)) == if ctx.InLeft? then ctx.at.right else ctx.at.left
    ensures ctx.Top? || ctx.at in NodesC(ctx)
  {
    if !ctx.Top? {
      RootAbove(head, ctx, RootOf(t));
      FitsDisjoint(ctx, Nodes(t));
      RootIn(t);
      SiblingThere(ctx, t);
      RootIn(Sibling(ctx));
    }
  }

  lemma SiblingColor(head: RbHead, ctx: Ctx, t: Tree)
    requires Rep(head, ctx, t) && !ctx.Top? && Sibling(ctx).Node?
    ensures Sibling(ctx).at.color == Sibling(ctx).c
  {
  }

  /** One pass of the loop of RB_REMOVE_COLOR. */
  method ShortPass(head: RbHead, parent: RbNode, elm: RbNode?, ghost ctx: Ctx, ghost t: Tree)
    returns (done: bool, ghost ctx': Ctx, ghost t': Tree)
    requires Rep(head, ctx, t) && ShortAt(ctx, t) && IsBlack(t) && !ctx.Top? && parent == ctx.at && elm == RootOf(t)
    modifies head, NodesC(ctx), Nodes(t)
    ensures Rep(head, ctx', t') && NodesC(ctx') + Nodes(t') == NodesC(ctx) + Nodes(t)
    ensures done ==> Whole(ctx', t')
    ensures !done ==> ShortAt(ctx', t') && t'.Node? && t'.at == parent
    ensures !done ==> Depth(ctx') < Depth(ctx) || (Depth(ctx') == Depth(ctx) && !IsBlack(t'))
  {
    hide Rep, Completes, Balanced, BalancedIfBlack, NodesC, Nodes;
    WhereShort(head, ctx, t);
    SiblingThere(ctx, t);
    SiblingColor(head, ctx, t);
    ghost var c := ctx;
    if parent.left == elm {
      var tmp := parent.right;
      if tmp.color == Red {
        tmp, c := TurnRedSiblingLeft(head, parent, tmp, ctx, t);
      }
      done, ctx', t' := FixShortLeft(head, parent, tmp, c, t);
    } else {
      var tmp := parent.left;
      if tmp.color == Red {
        tmp, c := TurnRedSiblingRight(head, parent, tmp, ctx, t);
      }
      done, ctx', t' := FixShortRight(head, parent, tmp, c, t);
    }
  }

  /** RB_REMOVE_COLOR: from a place that is one black node short to a red-black tree of the same nodes. */
  method RemoveColor(head: RbHead, parent0: RbNode?, elm0: RbNode?, ghost ctx0: Ctx, ghost t0: Tree)
    returns (ghost t': Tree)
    requires Rep(head, ctx0, t0) && ShortAt(ctx0, t0) && parent0 == ParentOf(ctx0) && elm0 == RootOf(t0)
    modifies head, NodesC(ctx0), Nodes(t0)
    ensures Rep(head, Top, t') && RedBlack(t') && Nodes(t') == NodesC(ctx0) + Nodes(t0)
  {
    hide Rep, Completes, Balanced, BalancedIfBlack, NodesC, Nodes;
    var parent, elm := parent0, elm0;
    ghost var ctx, t := ctx0, t0;
    WhereShort(head, ctx, t);
    ColorOf(head, ctx, t);
    while BlackOrNull(elm) && elm != head.root
      invariant Rep(head, ctx, t) && ShortAt(ctx, t) && parent == ParentOf(ctx) && elm == RootOf(t)
      invariant NodesC(ctx) + Nodes(t) == NodesC(ctx0) + Nodes(t0)
      invariant (elm == head.root <==> ctx.Top?) && (BlackOrNull(elm) <==> IsBlack(t))
      decreases Depth(ctx), if IsBlack(t) then 1 else 0
    {
      var done;
      done, ctx, t := ShortPass(head, parent, elm, ctx, t);
      if done {
        PlugNodes(ctx, t);
        PlugRedBlack(ctx, t);
        RepTop(head, ctx, t);
        t := Plug(ctx, t);
        ctx := Top;
        WholeIsShortAtTop(t);
        RootLinks(head, t);
        TopHasNoNodes();
        elm := head.root;
        break;
      }
      elm := parent;
      LinksHere(head, ctx, t);
      parent := elm.parent;
      WhereShort(head, ctx, t);
      ColorOf(head, ctx, t);
    }
    if elm != null {
      LinksHere(head, ctx, t);
      ShortPainted(ctx, t);
      t := Paint(head, elm, Black, ctx, t);
    } else {
      NoNodes();
    }
    PlugNodes(ctx, t);
    PlugRedBlack(ctx, t);
    RepTop(head, ctx, t);
    t' := Plug(ctx, t);
  }

  lemma TopHasNoNodes()
    ensures NodesC(Top) == {}
  {
  }

  lemma WholeIsShortAtTop(t: Tree)
    requires RedBlack(t)
    ensures ShortAt(Top, t)
  {
  }

  /** Painting the node black makes good the shortage below a parent, and does no harm at the root. */
  lemma ShortPainted(ctx: Ctx, t: Tree)
    requires ShortAt(ctx, t) && t.Node? && (ctx.Top? || !IsBlack(t))
    ensures var p := Painted(t, Black); Balanced(p) && Completes(ctx, BlackHeight(p))
  {
  }

  // ----- RB_REMOVE -----

  /** The place where a node of a tree lies. */
  lemma {:induction false} Locate(ctx: Ctx, t: Tree, n: RbNode) returns (c: Ctx, s: Tree)
    requires n in Nodes(t)
    ensures s.Node? && s.at == n && Plug(c, s) == Plug(ctx, t)
    decreases t
  {
    if t.at == n {
      c, s := ctx, t;
    } else if n in Nodes(t.l) {
      c, s := Locate(InLeft(ctx, t.at, t.c, t.r), t.l, n);
    } else {
      c, s := Locate(InRight(t.l, t.at, t.c, ctx), t.r, n);
    }
  }

  /** The only child of a node takes its place: the splice RB_REMOVE ends with on either path. */
  method Splice(head: RbHead, elm: RbNode, child: RbNode?, parent: RbNode?, ghost ctx: Ctx, ghost t: Tree, ghost s: Tree)
    requires Rep(head, ctx, t) && t.Node? && t.at == elm && parent == ParentOf(ctx)
    requires (t.l.Leaf? && s == t.r) || (t.r.Leaf? && s == t.l)
    requires child == RootOf(s)
    modifies head, NodesC(ctx), Nodes(t)
    ensures Rep(head, ctx, s) && Nodes(t) == Nodes(s) + {elm} && elm !in Nodes(s) && elm !in NodesC(ctx)
    ensures elm.left == old(elm.left) && elm.right == old(elm.right) && elm.parent == old(elm.parent)
    ensures elm.color == old(elm.color)
  {
    hide NodesC, LinkedC, Fits;
    FitsDisjoint(ctx, Nodes(t));
    NodesAllocated(t);
    NodesCAllocated(ctx);
    RootIn(s);
    ParentIn(ctx);
    SpliceParts(t, s);
    SetParent(child, parent, s, elm);
    ReplaceChild(head, parent, elm, child, ctx, Nodes(t));
    FitsSubset(ctx, Nodes(t), Nodes(s));
  }

  lemma SpliceParts(t: Tree, s: Tree)
    requires t.Node? && Bst(t) && ((t.l.Leaf? && s == t.r) || (t.r.Leaf? && s == t.l))
    ensures Bst(s) && Nodes(t) == Nodes(s) + {t.at} && t.at !in Nodes(s)
  {
  }

  /** A path inside a subtree, continued by the context of the subtree. */
  ghost function Append(path: Ctx, base: Ctx): Ctx {
    match path
    case Top => base
    case InLeft(up, at, c, r) => InLeft(Append(up, base), at, c, r)
    case InRight(l, at, c, up) => InRight(l, at, c, Append(up, base))
  }

  lemma {:induction false} AppendPlug(path: Ctx, base: Ctx, t: Tree)
    ensures Plug(Append(path, base), t) == Plug(base, Plug(path, t))
    decreases path
  {
    match path
    case Top =>
    case InLeft(up, at, c, r) => AppendPlug(up, base, Node(t, at, c, r));
    case InRight(l, at, c, up) => AppendPlug(up, base, Node(l, at, c, t));
  }

  lemma AppendRep(head: RbHead, path: Ctx, base: Ctx, t: Tree)
    ensures Rep(head, Append(path, base), t) <==> Rep(head, base, Plug(path, t))
  {
    hide Rep;
    AppendPlug(path, base, t);
    RepTop(head, Append(path, base), t);
    RepTop(head, base, Plug(path, t));
  }

  /** Which node stands at the end of a path does not matter to the colours. */
  lemma {:induction false} AppendCompletes(path: Ctx, l: Tree, a: RbNode, a': RbNode, c: Color, up: Ctx, h: nat)
    ensures Completes(Append(path, InRight(l, a, c, up)), h) <==> Completes(Append(path, InRight(l, a', c, up)), h)
    ensures UnderBlack(Append(path, InRight(l, a, c, up))) <==> UnderBlack(Append(path, InRight(l, a', c, up)))
    decreases path
  {
    match path
    case Top =>
    case InLeft(up', at, c', r) => AppendCompletes(up', l, a, a', c, up, h + if c'.Black? then 1 else 0);
    case InRight(l', at, c', up') => AppendCompletes(up', l, a, a', c, up, h + if c'.Black? then 1 else 0);
  }

  ghost predicate Leftmost(path: Ctx) {
    path.Top? || (path.InLeft? && Leftmost(path.up))
  }

  /** The node at the leftmost place of a tree is its least. */
  lemma {:induction false} LeftmostIsLeast(path: Ctx, e: RbNode, s: set<RbNode>)
    requires Leftmost(path) && Fits(path, s + {e}) && AllAbove(s, e.key)
    ensures AllAbove(NodesC(path), e.key)
    decreases path
  {
    if path.InLeft? {
      assert e in s + {e};
      var s' := s + {path.at} + Nodes(path.r);
      assert s + {e} + {path.at} + Nodes(path.r) == s' + {e};
      LeftmostIsLeast(path.up, e, s');
    }
  }

  lemma SuccessorIsLeast(path: Ctx, e: RbNode, c: Color, s: Tree)
    requires Leftmost(path) && Bst(Plug(path, Node(Leaf, e, c, s)))
    ensures AllAbove(Nodes(Plug(path, s)), e.key)
    ensures Nodes(Plug(path, Node(Leaf, e, c, s))) == Nodes(Plug(path, s)) + {e}
  {
    var t := Node(Leaf, e, c, s);
    PlugBst(path, t);
    PlugNodes(path, t);
    PlugNodes(path, s);
    assert Nodes(t) == Nodes(s) + {e};
    LeftmostIsLeast(path, e, Nodes(s));
  }

  /** The part of RB_REMOVE that puts the successor where the removed node was. */
  method TakePlace(head: RbHead, old_: RbNode, elm: RbNode, ghost ctx: Ctx, ghost t: Tree) returns (ghost t': Tree)
    requires Rep(head, ctx, t) && t.Node? && t.at == old_ && t.l.Node?
    requires elm !in Nodes(t) && elm !in NodesC(ctx)
    requires AllBelow(Nodes(t.l), elm.key) && AllAbove(Nodes(t.r), elm.key)
    requires Fits(ctx, Nodes(t.l) + {elm} + Nodes(t.r))
    modifies head, elm, NodesC(ctx), Nodes(t)
    ensures t' == Node(t.l, elm, t.c, t.r) && Rep(head, ctx, t')
  {
    hide NodesC, LinkedC, LinkedT, Fits, Nodes;
    NodesAllocated(t);
    NodesCAllocated(ctx);
    FitsDisjoint(ctx, Nodes(t));
    TwoSides(t);
    ParentIn(ctx);
    LinkedNode(t, ParentOf(ctx));
    RootIn(t.l);
    RootIn(t.r);
    elm.left, elm.right, elm.parent, elm.color := old_.left, old_.right, old_.parent, old_.color;
    ReplaceChild(head, old_.parent, old_, elm, ctx, Nodes(t));
    SetParent(old_.left, elm, t.l, old_);
    SetParent(old_.right, elm, t.r, old_);
    t' := Node(t.l, elm, t.c, t.r);
    LinkedNode(t', ParentOf(ctx));
    NodesSides(t');
  }

  lemma NodesSides(t: Tree)
    requires t.Node?
    ensures Nodes(t) == Nodes(t.l) + {t.at} + Nodes(t.r)
  {
  }

  lemma TwoSides(t: Tree)
    requires t.Node? && Bst(t)
    ensures Nodes(t) == Nodes(t.l) + {t.at} + Nodes(t.r)
    ensures Nodes(t.l) !! Nodes(t.r) && t.at !in Nodes(t.l) && t.at !in Nodes(t.r)
  {
    assert forall n :: n in Nodes(t.l) ==> n.key < t.at.key;
    assert forall n :: n in Nodes(t.r) ==> t.at.key < n.key;
  }

  /** What a splice leaves at the place: short by the colour of the spliced node. */
  lemma SplicedColors(ctx: Ctx, t: Tree, s: Tree)
    requires Balanced(t) && Completes(ctx, BlackHeight(t)) && t.Node?
    requires (t.l.Leaf? && s == t.r) || (t.r.Leaf? && s == t.l)
    ensures t.c.Black? ==> ShortAt(ctx, s)
    ensures t.c.Red? ==> Whole(ctx, s)
  {
  }

  /** The end of RB_REMOVE, from the label color on. */
  method Finish(head: RbHead, color: Color, parent: RbNode?, child: RbNode?, ghost ctx: Ctx, ghost s: Tree)
    returns (ghost t': Tree)
    requires Rep(head, ctx, s) && parent == ParentOf(ctx) && child == RootOf(s)
    requires color == Black ==> ShortAt(ctx, s)
    requires color == Red ==> Whole(ctx, s)
    modifies head, NodesC(ctx), Nodes(s)
    ensures Rep(head, Top, t') && RedBlack(t') && Nodes(t') == NodesC(ctx) + Nodes(s)
  {
    hide Rep, Completes, Balanced, Nodes, NodesC;
    if color == Black {
      t' := RemoveColor(head, parent, child, ctx, s);
    } else {
      PlugNodes(ctx, s);
      PlugRedBlack(ctx, s);
      RepTop(head, ctx, s);
      t' := Plug(ctx, s);
    }
  }

  /** The search for the successor: the leftmost node on the right. */
  method Successor(head: RbHead, first: RbNode, ghost ctx: Ctx, ghost r: Tree)
    returns (elm: RbNode, ghost path: Ctx, ghost t: Tree)
    requires Rep(head, ctx, r) && r.Node? && r.at == first
    ensures t.Node? && t.at == elm && t.l.Leaf? && Leftmost(path) && Plug(path, t) == r
  {
    hide Rep;
    elm := first;
    path, t := Top, r;
    LinksHere(head, ctx, r);
    while elm.left != null
      invariant Rep(head, ctx, r) && Rep(head, Append(path, ctx), t) && t.Node? && t.at == elm
      invariant Leftmost(path) && Plug(path, t) == r
      invariant elm.left == RootOf(t.l)
      decreases t
    {
      AtLeft(head, Append(path, ctx), t.l, t.at, t.c, t.r);
      elm := elm.left;
      path, t := InLeft(path, t.at, t.c, t.r), t.l;
      LinksHere(head, Append(path, ctx), t);
    }
  }

  lemma AppendParent(path: Ctx, base: Ctx)
    ensures ParentOf(Append(path, base)) == if path.Top? then ParentOf(base) else path.at
  {
  }

  lemma {:induction false} AppendNodes(path: Ctx, base: Ctx)
    ensures NodesC(Append(path, base)) == NodesC(path) + NodesC(base)
    decreases path
  {
    match path
    case Top =>
    case InLeft(up, at, c, r) => AppendNodes(up, base);
    case InRight(l, at, c, up) => AppendNodes(up, base);
  }

  /** The successor e of the node at t, inside its right subtree, and what is left there without it. */
  ghost predicate HasSuccessor(t: Tree, path: Ctx, e: Tree) {
    && t.Node? && e.Node? && e.l.Leaf? && Leftmost(path) && t.r == Plug(path, e)
  }

  lemma SuccessorOrder(ctx: Ctx, t: Tree, path: Ctx, e: Tree)
    requires Bst(t) && Fits(ctx, Nodes(t)) && HasSuccessor(t, path, e)
    ensures var r' := Plug(path, e.r);
            && Nodes(t.r) == Nodes(r') + {e.at} && e.at !in Nodes(r') && e.at !in Nodes(t.l) && e.at != t.at
            && AllBelow(Nodes(t.l), e.at.key) && AllAbove(Nodes(r'), e.at.key)
            && Fits(ctx, Nodes(t.l) + {e.at} + Nodes(r'))
            && e.at !in NodesC(ctx)
  {
    var r' := Plug(path, e.r);
    assert e == Node(Leaf, e.at, e.c, e.r);
    SuccessorIsLeast(path, e.at, e.c, e.r);
    assert e.at in Nodes(t.r);
    assert e.at in Nodes(t);
    assert t.at.key < e.at.key;
    FitsDisjoint(ctx, Nodes(t));
    FitsSubset(ctx, Nodes(t), Nodes(t.l) + {e.at} + Nodes(r'));
  }

  /** All the nodes, with the successor where the removed node was. */
  lemma SuccessorNodes(ctx: Ctx, t: Tree, path: Ctx, e: Tree)
    requires Bst(t) && Fits(ctx, Nodes(t)) && HasSuccessor(t, path, e)
    ensures var base, r' := InRight(t.l, t.at, t.c, ctx), Plug(path, e.r);
            && NodesC(Append(path, base)) + Nodes(e) == NodesC(ctx) + Nodes(t)
            && Nodes(Node(t.l, t.at, t.c, r')) == Nodes(t) - {e.at}
            && NodesC(Append(path, InRight(t.l, e.at, t.c, ctx))) + Nodes(e.r) == NodesC(ctx) + Nodes(t) - {t.at}
  {
    hide Bst, Fits;
    var base, base', r' := InRight(t.l, t.at, t.c, ctx), InRight(t.l, e.at, t.c, ctx), Plug(path, e.r);
    SuccessorOrder(ctx, t, path, e);
    TwoSides(t);
    FitsDisjoint(ctx, Nodes(t));
    AppendNodes(path, base);
    AppendNodes(path, base');
    PlugNodes(path, e);
    PlugNodes(path, e.r);
  }

  /** The colours at the successor's old place once it has left and taken the other place. */
  lemma SuccessorColors(ctx: Ctx, t: Tree, path: Ctx, e: Tree)
    requires HasSuccessor(t, path, e)
    requires Balanced(t) && Completes(ctx, BlackHeight(t)) && (IsBlack(t) || UnderBlack(ctx))
    ensures var place' := Append(path, InRight(t.l, e.at, t.c, ctx));
            && (e.c.Black? ==> ShortAt(place', e.r))
            && (e.c.Red? ==> Whole(place', e.r))
  {
    hide Completes, Balanced;
    var base := InRight(t.l, t.at, t.c, ctx);
    PlugRedBlack(ctx, t);
    AppendPlug(path, base, e);
    UnplugRedBlack(Append(path, base), e);
    AppendCompletes(path, t.l, t.at, e.at, t.c, ctx, BlackHeight(e));
    SplicedColors(Append(path, InRight(t.l, e.at, t.c, ctx)), e, e.r);
  }

  /** RB_REMOVE for a node with two children: its successor takes its place. */
  method RemoveInner(head: RbHead, old_: RbNode, ghost ctx: Ctx, ghost t: Tree) returns (ghost t': Tree)
    requires Rep(head, ctx, t) && t.Node? && t.at == old_ && t.l.Node? && t.r.Node?
    requires Balanced(t) && Completes(ctx, BlackHeight(t)) && (IsBlack(t) || UnderBlack(ctx))
    modifies head, NodesC(ctx), Nodes(t)
    ensures Rep(head, Top, t') && RedBlack(t') && Nodes(t') == NodesC(ctx) + Nodes(t) - {old_}
  {
    hide Rep, Completes, Balanced, Nodes, NodesC, Fits, Bst, Append, AllAbove, AllBelow, ShortAt, Whole;
    ghost var base := InRight(t.l, t.at, t.c, ctx);
    ghost var path, e;
    LinksHere(head, ctx, t);
    RepBst(head, ctx, t);
    AtRight(head, ctx, t.l, t.at, t.c, t.r);
    var elm;
    NodesAllocated(t.r);
    NodesCAllocated(base);
    elm, path, e := Successor(head, old_.right, base, t.r);
    ghost var place, s, r' := Append(path, base), e.r, Plug(path, e.r);
    SuccessorOrder(ctx, t, path, e);
    SuccessorNodes(ctx, t, path, e);
    SuccessorColors(ctx, t, path, e);
    AppendRep(head, path, base, e);
    LinksHere(head, place, e);
    AppendParent(path, base);
    var child, parent, color := elm.right, elm.parent, elm.color;
    Splice(head, elm, child, parent, place, e, s);
    AppendRep(head, path, base, s);
    AtRight(head, ctx, t.l, t.at, t.c, r');
    if elm.parent == old_ { parent := elm; }
    ghost var t1 := TakePlace(head, old_, elm, ctx, Node(t.l, t.at, t.c, r'));
    ghost var base' := InRight(t.l, elm, t.c, ctx);
    AtRight(head, ctx, t.l, elm, t.c, r');
    AppendRep(head, path, base', s);
    AppendParent(path, base');
    OldNotOnPath(t, path, e);
    t' := Finish(head, color, parent, child, Append(path, base'), s);
  }

  lemma OldNotOnPath(t: Tree, path: Ctx, e: Tree)
    requires Bst(t) && HasSuccessor(t, path, e)
    ensures !path.Top? ==> path.at != t.at
  {
    PlugNodes(path, e);
    TwoSides(t);
  }

  /** RB_REMOVE: exactly the given node leaves the tree, which stays a red-black tree. */
  method Remove(head: RbHead, elm: RbNode, ghost t: Tree) returns (ret: RbNode, ghost t': Tree)
    requires Rep(head, Top, t) && RedBlack(t) && elm in Nodes(t)
    modifies head, Nodes(t)
    ensures ret == elm && Rep(head, Top, t') && RedBlack(t') && Nodes(t') == Nodes(t) - {elm}
  {
    hide Rep, Completes, Balanced, Nodes, NodesC, Append, ShortAt, Whole;
    ret := elm;
    ghost var ctx, s := Locate(Top, t, elm);
    RepTop(head, ctx, s);
    UnplugRedBlack(ctx, s);
    PlugNodes(ctx, s);
    LinksHere(head, ctx, s);
    var child;
    ghost var only;
    if elm.left == null {
      child, only := elm.right, s.r;
    } else if elm.right == null {
      child, only := elm.left, s.l;
    } else {
      t' := RemoveInner(head, elm, ctx, s);
      return;
    }
    var parent, color := elm.parent, elm.color;
    SplicedColors(ctx, s, only);
    Splice(head, elm, child, parent, ctx, s, only);
    t' := Finish(head, color, parent, child, ctx, only);
  }
}
