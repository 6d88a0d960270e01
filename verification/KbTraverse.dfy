/** __kb_traverse: the in-order traversal with an explicit stack of (node, child index) frames. */
module KbTraverse {
  import opened SortedSeqs
  import opened KTree
  import opened KbNodes
  import opened KbDelete
  import opened KbTree

  /** A stack slot: the node may be null, below a leaf. */
  datatype Frame = Frame(x: KbNode?, i: nat)

  /** The value of the node of a frame. */
  datatype Below = Nothing | Subtree(t: NTree)

  ghost function ChildOf(t: NTree, i: nat): Below {
    if i < |t.kids| then Subtree(t.kids[i]) else Nothing
  }

  /** What a traversal that has reached slot i of a node still emits once it is done with child i. */
  ghost function FromSlot(t: NTree, i: nat): seq<int>
    requires Arity(t) && i <= |t.keys|
  {
    if t.kids == [] then t.keys[i..] else After(t, i)
  }

  /** What it still emits when it is about to go down into child i. */
  ghost function FromChild(b: Below, i: nat): seq<int>
    requires b.Subtree? ==> Arity(b.t)
  {
    if b.Nothing? || i > |b.t.keys| then []
    else if b.t.kids == [] then b.t.keys[i..]
    else Elems(b.t.kids[i]) + After(b.t, i)
  }

  /** The number of loop passes left for a node from child i on. */
  ghost function Passes(t: NTree, i: nat): nat
    requires Arity(t)
    decreases t, |t.keys| + 1 - i
  {
    if i > |t.keys| then 1
    else 1 + Passes(t, i + 1) + (if i < |t.kids| && Arity(t.kids[i]) then Passes(t.kids[i], 0) else 1)
  }

  ghost function PassesOf(b: Below, i: nat): nat
    requires b.Subtree? ==> Arity(b.t)
  {
    if b.Nothing? then 1 else Passes(b.t, i)
  }

  /** What the frames below the top one still emit, from the top down. */
  ghost function Pending(ts: seq<NTree>, slots: seq<nat>): seq<int>
    requires |ts| == |slots| && forall j :: 0 <= j < |ts| ==> Arity(ts[j]) && slots[j] <= |ts[j].keys|
  {
    if ts == [] then []
    else FromSlot(ts[|ts| - 1], slots[|ts| - 1]) + Pending(ts[..|ts| - 1], slots[..|ts| - 1])
  }

  ghost function PendingPasses(ts: seq<NTree>, slots: seq<nat>): nat
    requires |ts| == |slots| && forall j :: 0 <= j < |ts| ==> Arity(ts[j])
  {
    if ts == [] then 0
    else Passes(ts[|ts| - 1], slots[|ts| - 1] + 1) + PendingPasses(ts[..|ts| - 1], slots[..|ts| - 1])
  }

  /** Every node of the tree has a fitting number of children. */
  ghost predicate Regular(t: NTree)
    decreases t
  {
    Arity(t) && forall i :: 0 <= i < |t.kids| ==> Regular(t.kids[i])
  }

  lemma {:induction false} OkRegular(t: NTree, tt: nat, h: nat, lo: int)
    requires Ok(t, tt, h, lo)
    ensures Regular(t)
    decreases h
  {
    forall i | 0 <= i < |t.kids|
      ensures Regular(t.kids[i])
    {
      OkRegular(t.kids[i], tt, h - 1, tt - 1);
    }
  }

  lemma FromChildZero(t: NTree)
    requires Arity(t)
    ensures FromChild(Subtree(t), 0) == Elems(t)
  {
    if t.kids != [] {
      ChildSplit(t, 0);
      BeforeEnds(t, 0);
    }
  }

  /** Going down into child i. */
  lemma GoDown(t: NTree, i: nat)
    requires Regular(t) && i <= |t.keys|
    ensures ChildOf(t, i).Subtree? ==> Regular(ChildOf(t, i).t)
    ensures FromChild(Subtree(t), i) == FromChild(ChildOf(t, i), 0) + FromSlot(t, i)
    ensures Passes(t, i) == 1 + PassesOf(ChildOf(t, i), 0) + Passes(t, i + 1)
  {
    if t.kids != [] {
      assert Regular(t.kids[i]);
      FromChildZero(t.kids[i]);
    }
  }

  /** Coming back from child i: the key at slot i, if there is one, and then child i + 1. */
  lemma ComeBack(t: NTree, i: nat)
    requires Arity(t) && i <= |t.keys|
    ensures FromSlot(t, i) == (if i < |t.keys| then [t.keys[i]] else []) + FromChild(Subtree(t), i + 1)
  {
    if i < |t.keys| {
      if t.kids != [] { AfterStarts(t, i); }
    } else {
      if t.kids != [] { BeforeEnds(t, i); }
    }
  }

  /** A frame and the value of its node. */
  ghost predicate FrameOf(f: Frame, b: Below)
    reads if b.Subtree? then Nodes(b.t) else {}
  {
    match b
    case Nothing => f.x == null
    case Subtree(t) => f.x == t.at && Rep(t) && Regular(t)
  }

  /** The frames below the top one stand inside nodes they have not finished. */
  ghost predicate Stacked(stack: seq<Frame>, ts: seq<NTree>, slots: seq<nat>)
    reads set j, n | 0 <= j < |ts| && n in Nodes(ts[j]) :: n
  {
    && |stack| == |ts| == |slots|
    && forall j :: 0 <= j < |ts| ==>
         && FrameOf(stack[j], Subtree(ts[j])) && stack[j].i == slots[j] <= |ts[j].keys| && Arity(ts[j])
  }

  lemma Going(t: NTree, i: nat, f: Frame)
    requires FrameOf(f, Subtree(t)) && f.i == i <= |t.keys|
    ensures f.x.keys == t.keys && Arity(t)
    ensures f.x.isInternal ==> i < |f.x.ptrs|
    ensures FrameOf(Frame(if f.x.isInternal then f.x.ptrs[i] else null, 0), ChildOf(t, i))
  {
    if t.kids != [] { KidAt(t, i); }
  }

  lemma PendingPush(ts: seq<NTree>, slots: seq<nat>, t: NTree, i: nat)
    requires |ts| == |slots| && forall j :: 0 <= j < |ts| ==> Arity(ts[j]) && slots[j] <= |ts[j].keys|
    requires Arity(t) && i <= |t.keys|
    ensures Pending(ts + [t], slots + [i]) == FromSlot(t, i) + Pending(ts, slots)
    ensures PendingPasses(ts + [t], slots + [i]) == Passes(t, i + 1) + PendingPasses(ts, slots)
  {
    assert (ts + [t])[..|ts|] == ts && (slots + [i])[..|slots|] == slots;
  }

  /** Taking the last frame off is undoing a push. */
  lemma PendingPop(ts: seq<NTree>, slots: seq<nat>)
    requires |ts| == |slots| > 0 && forall j :: 0 <= j < |ts| ==> Arity(ts[j]) && slots[j] <= |ts[j].keys|
    ensures var n := |ts| - 1;
            && Pending(ts, slots) == FromSlot(ts[n], slots[n]) + Pending(ts[..n], slots[..n])
            && PendingPasses(ts, slots) == Passes(ts[n], slots[n] + 1) + PendingPasses(ts[..n], slots[..n])
  {
  }

  /** The traversal calls its function on every key of the tree, in order. */
  method Traverse(b: KbTree) returns (out: seq<int>)
    requires b.Valid()
    ensures out == b.Contents()
  {
    hide Rep, Regular, Nodes, Elems, FromChild, FromSlot, Passes, Pending, PendingPasses, Distinct, Sorted, ChildOf, Arity;
    ghost var all := b.Contents();
    out := [];
    var stack: seq<Frame>, top := [], Frame(b.root, 0);
    ghost var ts: seq<NTree>, slots: seq<nat>, cur := [], [], Subtree(b.tree);
    Starting(b.tree, b.t, b.height);
    while true
      invariant Stacked(stack, ts, slots) && FrameOf(top, cur) && (cur.Subtree? ==> Arity(cur.t))
      invariant out + FromChild(cur, top.i) + Pending(ts, slots) == all
      decreases PassesOf(cur, top.i) + PendingPasses(ts, slots)
    {
      while top.x != null && top.i <= |top.x.keys|
        invariant Stacked(stack, ts, slots) && FrameOf(top, cur) && (cur.Subtree? ==> Arity(cur.t))
        invariant out + FromChild(cur, top.i) + Pending(ts, slots) == all
        decreases PassesOf(cur, top.i) + PendingPasses(ts, slots)
      {
        ghost var t := cur.t;
        RegularHere(top, t);
        Going(t, top.i, top);
        GoDown(t, top.i);
        PendingPush(ts, slots, t, top.i);
        ghost var next := ChildOf(t, top.i);
        assert out + (FromChild(next, 0) + FromSlot(t, top.i)) + Pending(ts, slots)
            == out + FromChild(next, 0) + (FromSlot(t, top.i) + Pending(ts, slots));
        var child: KbNode? := if top.x.isInternal then top.x.ptrs[top.i] else null;
        stack, ts, slots, cur := stack + [top], ts + [t], slots + [top.i], next;
        top := Frame(child, 0);
      }
      Exhausted(top, cur);
      if stack == [] {
        EmptyPending(ts, slots);
        break;
      }
      var n := |stack| - 1;
      var back := stack[n];
      PendingPop(ts, slots);
      RegularHere(back, ts[n]);
      Going(ts[n], back.i, back);
      ComeBack(ts[n], back.i);
      ghost var key := if back.i < |back.x.keys| then [back.x.keys[back.i]] else [];
      assert out + (key + FromChild(Subtree(ts[n]), back.i + 1) + Pending(ts[..n], slots[..n]))
          == out + key + FromChild(Subtree(ts[n]), back.i + 1) + Pending(ts[..n], slots[..n]);
      if back.i < |back.x.keys| { out := out + [back.x.keys[back.i]]; }
      stack, cur, ts, slots := stack[..n], Subtree(ts[n]), ts[..n], slots[..n];
      top := Frame(back.x, back.i + 1);
    }
  }

  lemma Starting(t: NTree, tt: nat, h: nat)
    requires Ok(t, tt, h, if h == 0 then 0 else 1)
    ensures Regular(t) && Arity(t) && FromChild(Subtree(t), 0) + Pending([], []) == Elems(t)
  {
    OkRegular(t, tt, h, if h == 0 then 0 else 1);
    FromChildZero(t);
  }

  lemma RegularHere(f: Frame, t: NTree)
    requires FrameOf(f, Subtree(t))
    ensures Regular(t) && f.x.keys == t.keys
  {
  }

  /** At the end of a node, or below a leaf, nothing is left and one pass is used up. */
  lemma Exhausted(top: Frame, cur: Below)
    requires FrameOf(top, cur) && (cur.Subtree? ==> Arity(cur.t))
    requires top.x == null || top.i > |top.x.keys|
    ensures FromChild(cur, top.i) == [] && PassesOf(cur, top.i) == 1
  {
  }

  lemma EmptyPending(ts: seq<NTree>, slots: seq<nat>)
    requires ts == [] && slots == []
    ensures Pending(ts, slots) == []
  {
  }
}
