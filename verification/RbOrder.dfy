/**
  Searching and walking a red-black tree: RB_FIND, RB_NFIND, RB_MINMAX, RB_NEXT, RB_PREV, the in-order
  iteration, and the height the colours guarantee.
 */
module RbOrder {
  import opened Words
  import opened RbNodes
  import opened RbInsert
  import opened RbRemove

  /** The nodes of a tree from left to right. */
  ghost function InOrder(t: Tree): seq<RbNode> {
    if t.Leaf? then [] else InOrder(t.l) + [t.at] + InOrder(t.r)
  }

  ghost function Lefts(ctx: Ctx): seq<RbNode>
    decreases ctx
  {
    match ctx
    case Top => []
    case InLeft(up, at, c, r) => Lefts(up)
    case InRight(l, at, c, up) => Lefts(up) + (InOrder(l) + [at])
  }

  ghost function Rights(ctx: Ctx): seq<RbNode>
    decreases ctx
  {
    match ctx
    case Top => []
    case InLeft(up, at, c, r) => [at] + InOrder(r) + Rights(up)
    case InRight(l, at, c, up) => Rights(up)
  }

  lemma {:induction false} InOrderAround(ctx: Ctx, t: Tree)
    ensures InOrder(Plug(ctx, t)) == Lefts(ctx) + InOrder(t) + Rights(ctx)
    decreases ctx
  {
    match ctx
    case Top =>
    case InLeft(up, at, c, r) =>
      InOrderAround(up, Node(t, at, c, r));
      Around(Lefts(up), InOrder(t), [at], InOrder(r), Rights(up));
    case InRight(l, at, c, up) =>
      InOrderAround(up, Node(l, at, c, t));
      Around(Lefts(up), InOrder(l), [at], InOrder(t), Rights(up));
  }

  lemma Around(a: seq<RbNode>, b: seq<RbNode>, c: seq<RbNode>, d: seq<RbNode>, e: seq<RbNode>)
    ensures a + (b + c + d) + e == a + b + (c + d + e)
    ensures a + (b + c + d) + e == a + (b + c) + d + e
  {
  }

  ghost predicate Increasing(s: seq<RbNode>) {
    forall i, j :: 0 <= i < j < |s| ==> s[i].key < s[j].key
  }

  ghost predicate Lists(s: seq<RbNode>, ns: set<RbNode>) {
    (forall n :: n in s ==> n in ns) && (forall n :: n in ns ==> n in s)
  }

  /** The in-order listing holds exactly the nodes, with increasing keys. */
  lemma {:induction false} InOrderSorted(t: Tree)
    requires Bst(t)
    ensures Increasing(InOrder(t)) && Lists(InOrder(t), Nodes(t))
  {
    if t.Node? {
      InOrderSorted(t.l);
      InOrderSorted(t.r);
      forall n | n in InOrder(t.l) ensures n.key < t.at.key { assert n in Nodes(t.l); }
      forall n | n in InOrder(t.r) ensures t.at.key < n.key { assert n in Nodes(t.r); }
      Concatenated(InOrder(t.l), t.at, InOrder(t.r));
    }
  }

  lemma Concatenated(a: seq<RbNode>, x: RbNode, b: seq<RbNode>)
    requires Increasing(a) && Increasing(b)
    requires (forall n :: n in a ==> n.key < x.key) && (forall n :: n in b ==> x.key < n.key)
    ensures Increasing(a + [x] + b)
  {
    var s := a + [x] + b;
    forall i, j | 0 <= i < j < |s|
      ensures s[i].key < s[j].key
    {
      assert i < |a| ==> s[i] in a;
      assert j < |a| ==> s[j] in a;
      assert i > |a| ==> s[i] == b[i - |a| - 1];
      assert j > |a| ==> s[j] == b[j - |a| - 1] && s[j] in b;
    }
  }

  function FirstOf(s: seq<RbNode>): RbNode? {
    if s == [] then null else s[0]
  }

  function LastOf(s: seq<RbNode>): RbNode? {
    if s == [] then null else s[|s| - 1]
  }

  // ----- RB_FIND and RB_NFIND -----

  /** RB_FIND: the node with the key, or null. */
  method Find(head: RbHead, key: int, ghost t: Tree) returns (found: RbNode?)
    requires Rep(head, Top, t)
    ensures found != null ==> found in Nodes(t) && found.key == key
    ensures found == null ==> forall n :: n in Nodes(t) ==> n.key != key
  {
    hide Rep;
    var tmp := head.root;
    ghost var ctx, s := Top, t;
    RootLinks(head, t);
    while tmp != null
      invariant Rep(head, ctx, s) && tmp == RootOf(s) && Nodes(s) <= Nodes(t)
      invariant forall n :: n in Nodes(t) && n.key == key ==> n in Nodes(s)
      decreases s
    {
      var comp := Compare(key, tmp.key);
      LinksHere(head, ctx, s);
      RepBst(head, ctx, s);
      if comp < 0 {
        tmp := tmp.left;
        AtLeft(head, ctx, s.l, s.at, s.c, s.r);
        ctx, s := InLeft(ctx, s.at, s.c, s.r), s.l;
      } else if comp > 0 {
        tmp := tmp.right;
        AtRight(head, ctx, s.l, s.at, s.c, s.r);
        ctx, s := InRight(s.l, s.at, s.c, ctx), s.r;
      } else {
        return tmp;
      }
    }
    NoNodes();
    found := null;
  }

  /** RB_NFIND: the node with the least key that is at least the given one, or null. */
  method NFind(head: RbHead, key: int, ghost t: Tree) returns (res: RbNode?)
    requires Rep(head, Top, t)
    ensures res != null ==> res in Nodes(t) && key <= res.key && forall n :: n in Nodes(t) && key <= n.key ==> res.key <= n.key
    ensures res == null ==> forall n :: n in Nodes(t) ==> n.key < key
  {
    hide Rep;
    var tmp := head.root;
    res := null;
    ghost var ctx, s := Top, t;
    RootLinks(head, t);
    while tmp != null
      invariant Rep(head, ctx, s) && tmp == RootOf(s) && Nodes(s) <= Nodes(t)
      invariant res != null ==> res in Nodes(t) && key < res.key
      invariant forall n :: n in Nodes(t) && key <= n.key ==> n in Nodes(s) || (res != null && res.key <= n.key)
      invariant res != null ==> AllBelow(Nodes(s), res.key)
      decreases s
    {
      var comp := Compare(key, tmp.key);
      LinksHere(head, ctx, s);
      RepBst(head, ctx, s);
      if comp < 0 {
        res := tmp;
        tmp := tmp.left;
        AtLeft(head, ctx, s.l, s.at, s.c, s.r);
        ctx, s := InLeft(ctx, s.at, s.c, s.r), s.l;
      } else if comp > 0 {
        tmp := tmp.right;
        AtRight(head, ctx, s.l, s.at, s.c, s.r);
        ctx, s := InRight(s.l, s.at, s.c, ctx), s.r;
      } else {
        ExactIsLeast(t, s, res, key);
        return tmp;
      }
    }
    NoNodes();
  }

  lemma ExactIsLeast(t: Tree, s: Tree, res: RbNode?, key: int)
    requires s.Node? && Bst(s) && s.at.key == key && (res != null ==> key < res.key)
    requires forall n :: n in Nodes(t) && key <= n.key ==> n in Nodes(s) || (res != null && res.key <= n.key)
    ensures forall n :: n in Nodes(t) && key <= n.key ==> s.at.key <= n.key
  {
  }

  // ----- walking -----

  /** Down to the first node of a subtree, as RB_NEXT and RB_MINMAX go. */
  method GoFirst(head: RbHead, n: RbNode, ghost ctx0: Ctx, ghost t0: Tree)
    returns (elm: RbNode, ghost ctx: Ctx, ghost t: Tree)
    requires Rep(head, ctx0, t0) && t0.Node? && t0.at == n
    ensures elm == FirstOf(InOrder(t0))
    ensures Rep(head, ctx, t) && t.Node? && t.at == elm && Plug(ctx, t) == Plug(ctx0, t0)
  {
    hide Rep;
    elm := n;
    ctx, t := ctx0, t0;
    LinksHere(head, ctx, t);
    while elm.left != null
      invariant Rep(head, ctx, t) && t.Node? && t.at == elm && elm.left == RootOf(t.l)
      invariant FirstOf(InOrder(t)) == FirstOf(InOrder(t0)) && Plug(ctx, t) == Plug(ctx0, t0)
      decreases t
    {
      AtLeft(head, ctx, t.l, t.at, t.c, t.r);
      elm := elm.left;
      ctx, t := InLeft(ctx, t.at, t.c, t.r), t.l;
      LinksHere(head, ctx, t);
    }
  }

  method GoLast(head: RbHead, n: RbNode, ghost ctx0: Ctx, ghost t0: Tree)
    returns (elm: RbNode, ghost ctx: Ctx, ghost t: Tree)
    requires Rep(head, ctx0, t0) && t0.Node? && t0.at == n
    ensures elm == LastOf(InOrder(t0))
    ensures Rep(head, ctx, t) && t.Node? && t.at == elm && Plug(ctx, t) == Plug(ctx0, t0)
  {
    hide Rep;
    elm := n;
    ctx, t := ctx0, t0;
    LinksHere(head, ctx, t);
    while elm.right != null
      invariant Rep(head, ctx, t) && t.Node? && t.at == elm && elm.right == RootOf(t.r)
      invariant LastOf(InOrder(t)) == LastOf(InOrder(t0)) && Plug(ctx, t) == Plug(ctx0, t0)
      decreases t
    {
      AtRight(head, ctx, t.l, t.at, t.c, t.r);
      elm := elm.right;
      ctx, t := InRight(t.l, t.at, t.c, ctx), t.r;
      LinksHere(head, ctx, t);
    }
  }

  /** RB_MINMAX: the first node for a negative argument, the last one otherwise. */
  method MinMax(head: RbHead, val: int, ghost t: Tree) returns (elm: RbNode?)
    requires Rep(head, Top, t)
    ensures elm == if val < 0 then FirstOf(InOrder(t)) else LastOf(InOrder(t))
  {
    RootLinks(head, t);
    elm := head.root;
    if elm != null {
      ghost var c, s;
      if val < 0 {
        elm, c, s := GoFirst(head, elm, Top, t);
      } else {
        elm, c, s := GoLast(head, elm, Top, t);
      }
    }
  }

  /** On which side of its parent a node is. */
  lemma WhichSide(head: RbHead, ctx: Ctx, t: Tree)
    requires Rep(head, ctx, t) && t.Node?
    ensures t.at.parent == ParentOf(ctx)
    ensures !ctx.Top? ==> (ctx.at.left == t.at <==> ctx.InLeft?) && (ctx.at.right == t.at <==> ctx.InRight?)
  {
    FitsDisjoint(ctx, Nodes(t));
    if !ctx.Top? { RootIn(Sibling(ctx)); }
  }

  /** RB_NEXT, at the place of the node: the first node after it in order. */
  method NextAt(head: RbHead, elm0: RbNode, ghost ctx0: Ctx, ghost t0: Tree) returns (elm: RbNode?)
    requires Rep(head, ctx0, t0) && t0.Node? && t0.at == elm0
    ensures elm == FirstOf(InOrder(t0.r) + Rights(ctx0))
  {
    hide Rep;
    elm := elm0;
    LinksHere(head, ctx0, t0);
    if elm0.right != null {
      AtRight(head, ctx0, t0.l, t0.at, t0.c, t0.r);
      ghost var c, s;
      elm, c, s := GoFirst(head, elm0.right, InRight(t0.l, t0.at, t0.c, ctx0), t0.r);
    } else {
      WhichSide(head, ctx0, t0);
      if elm0.parent != null && elm0 == elm0.parent.left {
        elm := elm0.parent;
      } else {
        ghost var ctx, t := ctx0, t0;
        var up := elm0;
        while up.parent != null && up == up.parent.right
          invariant Rep(head, ctx, t) && t.Node? && t.at == up && up.parent == ParentOf(ctx)
          invariant !ctx.Top? ==> (ctx.at.right == up <==> ctx.InRight?)
          invariant Rights(ctx) == Rights(ctx0)
          decreases ctx
        {
          OneUp(head, ctx, t);
          up := up.parent;
          ctx, t := ctx.up, Up(ctx, t);
          WhichSide(head, ctx, t);
        }
        elm := up.parent;
      }
    }
  }

  /** RB_PREV, at the place of the node: the last node before it in order. */
  method PrevAt(head: RbHead, elm0: RbNode, ghost ctx0: Ctx, ghost t0: Tree) returns (elm: RbNode?)
    requires Rep(head, ctx0, t0) && t0.Node? && t0.at == elm0
    ensures elm == LastOf(Lefts(ctx0) + InOrder(t0.l))
  {
    hide Rep;
    elm := elm0;
    LinksHere(head, ctx0, t0);
    if elm0.left != null {
      AtLeft(head, ctx0, t0.l, t0.at, t0.c, t0.r);
      ghost var c, s;
      elm, c, s := GoLast(head, elm0.left, InLeft(ctx0, t0.at, t0.c, t0.r), t0.l);
    } else {
      WhichSide(head, ctx0, t0);
      if elm0.parent != null && elm0 == elm0.parent.right {
        elm := elm0.parent;
      } else {
        ghost var ctx, t := ctx0, t0;
        var up := elm0;
        while up.parent != null && up == up.parent.left
          invariant Rep(head, ctx, t) && t.Node? && t.at == up && up.parent == ParentOf(ctx)
          invariant !ctx.Top? ==> (ctx.at.left == up <==> ctx.InLeft?)
          invariant Lefts(ctx) == Lefts(ctx0)
          decreases ctx
        {
          OneUp(head, ctx, t);
          up := up.parent;
          ctx, t := ctx.up, Up(ctx, t);
          WhichSide(head, ctx, t);
        }
        elm := up.parent;
      }
    }
  }

  /** Where a node stands in the listing, given its place in the tree. */
  lemma Position(ctx: Ctx, t: Tree)
    requires t.Node?
    ensures var all, i := InOrder(Plug(ctx, t)), |Lefts(ctx) + InOrder(t.l)|;
            && i < |all| && all[i] == t.at
            && all[..i] == Lefts(ctx) + InOrder(t.l) && all[i + 1..] == InOrder(t.r) + Rights(ctx)
  {
    InOrderAround(ctx, t);
    assert InOrder(t) == InOrder(t.l) + [t.at] + InOrder(t.r);
    Regroup(Lefts(ctx), InOrder(t.l), t.at, InOrder(t.r), Rights(ctx));
  }

  lemma Regroup(a: seq<RbNode>, b: seq<RbNode>, x: RbNode, c: seq<RbNode>, d: seq<RbNode>)
    ensures var all, i := a + (b + [x] + c) + d, |a + b|;
            i < |all| && all[i] == x && all[..i] == a + b && all[i + 1..] == c + d
  {
    assert a + (b + [x] + c) + d == (a + b) + [x] + (c + d);
  }

  /** RB_NEXT: from each node of the listing to the one after it, and from the last one to null. */
  method Next(head: RbHead, elm: RbNode, ghost t: Tree, ghost i: nat) returns (next: RbNode?)
    requires Rep(head, Top, t) && i < |InOrder(t)| && InOrder(t)[i] == elm
    ensures next == if i + 1 < |InOrder(t)| then InOrder(t)[i + 1] else null
  {
    hide Rep;
    RepBst(head, Top, t);
    InOrderSorted(t);
    ghost var ctx, s := Locate(Top, t, elm);
    RepTop(head, ctx, s);
    Position(ctx, s);
    next := NextAt(head, elm, ctx, s);
    ghost var j := |Lefts(ctx) + InOrder(s.l)|;
    assert InOrder(t)[j] == InOrder(t)[i];
  }

  /** RB_PREV: from each node of the listing to the one before it, and from the first one to null. */
  method Prev(head: RbHead, elm: RbNode, ghost t: Tree, ghost i: nat) returns (prev: RbNode?)
    requires Rep(head, Top, t) && i < |InOrder(t)| && InOrder(t)[i] == elm
    ensures prev == if i > 0 then InOrder(t)[i - 1] else null
  {
    hide Rep, InOrder, Bst;
    RepBst(head, Top, t);
    InOrderSorted(t);
    ghost var ctx, s := Locate(Top, t, elm);
    RepTop(head, ctx, s);
    Position(ctx, s);
    prev := PrevAt(head, elm, ctx, s);
    ghost var j := |Lefts(ctx) + InOrder(s.l)|;
    assert InOrder(t)[j] == InOrder(t)[i];
    assert InOrder(t)[..j] == Lefts(ctx) + InOrder(s.l);
  }

  /** Going on and coming back leads to the same node, in either order. */
  method NextPrev(head: RbHead, elm: RbNode, ghost t: Tree) returns (back: RbNode?, forth: RbNode?)
    requires Rep(head, Top, t) && elm in Nodes(t)
    ensures back == elm || (back == null && elm == LastOf(InOrder(t)))
    ensures forth == elm || (forth == null && elm == FirstOf(InOrder(t)))
  {
    hide Rep;
    RepBst(head, Top, t);
    InOrderSorted(t);
    ghost var i: nat :| i < |InOrder(t)| && InOrder(t)[i] == elm;
    NodesAllocated(t);
    NodesCAllocated(Top);
    back, forth := null, null;
    var next := Next(head, elm, t, i);
    if next != null { back := Prev(head, next, t, i + 1); }
    var prev := Prev(head, elm, t, i);
    if prev != null { forth := Next(head, prev, t, i - 1); }
  }

  /** Iterating RB_NEXT from the minimum lists the whole tree in order. */
  method ListAll(head: RbHead, ghost t: Tree) returns (out: seq<RbNode>)
    requires Rep(head, Top, t)
    ensures out == InOrder(t)
    ensures Increasing(out) && Lists(out, Nodes(t))
  {
    hide Rep, InOrder, Increasing, Lists;
    RepBst(head, Top, t);
    InOrderSorted(t);
    NodesAllocated(t);
    NodesCAllocated(Top);
    out := [];
    var x := MinMax(head, -1, t);
    while x != null
      invariant Rep(head, Top, t) && |out| <= |InOrder(t)| && out == InOrder(t)[..|out|]
      invariant x == if |out| < |InOrder(t)| then InOrder(t)[|out|] else null
      decreases |InOrder(t)| - |out|
    {
      ghost var i := |out|;
      out := out + [x];
      x := Next(head, x, t, i);
    }
  }

  // ----- height -----

  function Height(t: Tree): nat {
    if t.Leaf? then 0
    else 1 + if Height(t.l) > Height(t.r) then Height(t.l) else Height(t.r)
  }

  lemma {:induction false} HeightByColors(t: Tree)
    requires Balanced(t)
    ensures Height(t) <= 2 * BlackHeight(t) + if IsBlack(t) then 0 else 1
  {
    if t.Node? {
      HeightByColors(t.l);
      HeightByColors(t.r);
    }
  }

  lemma {:induction false} SizeByColors(t: Tree)
    requires Balanced(t) && Bst(t)
    ensures Pow2(BlackHeight(t)) <= |Nodes(t)| + 1
  {
    if t.Node? {
      hide Bst;
      BstParts(t);
      SizeByColors(t.l);
      SizeByColors(t.r);
      DisjointSize(Nodes(t.l), Nodes(t.r), t);
    }
  }

  lemma BstParts(t: Tree)
    requires Bst(t) && t.Node?
    ensures Bst(t.l) && Bst(t.r)
  {
  }

  lemma DisjointSize(a: set<RbNode>, b: set<RbNode>, t: Tree)
    requires t.Node? && Bst(t) && a == Nodes(t.l) && b == Nodes(t.r)
    ensures |Nodes(t)| == |a| + 1 + |b|
  {
    assert t.at !in a && t.at !in b;
    assert a !! b by {
      assert forall n :: n in a ==> n.key < t.at.key;
      assert forall n :: n in b ==> t.at.key < n.key;
    }
    assert Nodes(t) == a + {t.at} + b;
  }

  /** The height of a red-black tree of n nodes is at most 2 log2(n + 1): 2^height <= (n + 1)^2. */
  lemma HeightBound(t: Tree)
    requires RedBlack(t) && Bst(t)
    ensures Pow2(Height(t)) <= (|Nodes(t)| + 1) * (|Nodes(t)| + 1)
  {
    hide Bst, Balanced, Nodes, Height, Pow2;
    var b, n := BlackHeight(t), |Nodes(t)| + 1;
    HeightByColors(t);
    SizeByColors(t);
    Pow2Monotone(Height(t), b + b);
    Pow2Add(b, b);
    SquareMonotone(Pow2(b), n);
  }

  lemma SquareMonotone(a: nat, b: nat)
    requires a <= b
    ensures a * a <= b * b
  {
    assert a * a <= a * b <= b * b;
  }
}
