/**
  BufBlk: chains of windows onto reference-counted memory. A block is read from its read offset to its
  write offset; several blocks may share one memory, which is freed when the last of them lets go.
 */
module BufBlks {
  import opened Bytes
  import opened Options

  class MemBlk {
    var refCount: int
    var freed: bool
    const mem: array<Byte>

    constructor (size: nat)
      ensures refCount == 1 && !freed && fresh(mem) && mem.Length == size
    {
      refCount, freed := 1, false;
      mem := new Byte[size];
    }

    method Checkout()
      modifies this`refCount
      ensures refCount == old(refCount) + 1
    {
      refCount := refCount + 1;
    }

    /** One holder less; the last one frees the memory. */
    method Release()
      modifies this
      ensures refCount == old(refCount) - 1
      ensures freed == (old(freed) || refCount < 1)
    {
      refCount := refCount - 1;
      if refCount < 1 { freed := true; }
    }
  }

  /** What a block shows of a memory: the bytes from the read offset to the write offset. */
  datatype Window = Window(blk: MemBlk?, rd: int, wr: int)

  /** Offsets in order and inside the memory; both zero without memory. */
  ghost predicate Fits(w: Window) {
    0 <= w.rd <= w.wr <= if w.blk == null then 0 else w.blk.mem.Length
  }

  ghost function Shown(w: Window): (bs: seq<Byte>)
    requires Fits(w)
    reads if w.blk == null then {} else {w.blk.mem}
    ensures |bs| == w.wr - w.rd
  {
    if w.blk == null then [] else w.blk.mem[w.rd..w.wr]
  }

  ghost predicate AllFit(ws: seq<Window>) {
    forall i :: 0 <= i < |ws| ==> Fits(ws[i])
  }

  ghost function Arrays(ws: seq<Window>): set<array<Byte>> {
    set w | w in ws && w.blk != null :: w.blk.mem
  }

  /** The bytes shown by a chain, end to end. */
  ghost function Data(ws: seq<Window>): seq<Byte>
    requires AllFit(ws)
    reads Arrays(ws)
  {
    if ws == [] then [] else Shown(ws[0]) + Data(ws[1..])
  }

  /** Every block but the first has memory. */
  ghost predicate Backed(ws: seq<Window>) {
    forall k :: 1 <= k < |ws| ==> ws[k].blk != null
  }

  ghost function Elems(s: seq<BufBlk>): set<BufBlk> {
    set b | b in s
  }

  function At(s: seq<BufBlk>, i: nat): BufBlk? {
    if i < |s| then s[i] else null
  }

  /** The blocks s from b on, each the next of the one before, show the windows ws. */
  ghost predicate Chain(b: BufBlk?, s: seq<BufBlk>, ws: seq<Window>)
    reads s
  {
    && |s| == |ws| && b == At(s, 0)
    && (forall i :: 0 <= i < |s| ==> s[i].next == At(s, i + 1))
    && (forall i :: 0 <= i < |s| ==> s[i].Shows() == ws[i])
    && (forall i, j :: 0 <= i < j < |s| ==> s[i] != s[j])
  }

  lemma InChain(b: BufBlk?, s: seq<BufBlk>, ws: seq<Window>, i: nat)
    requires Chain(b, s, ws) && i < |s|
    ensures |s| == |ws| && b == s[0] && s[i] in Elems(s)
    ensures s[i].next == (if i + 1 < |s| then s[i + 1] else null) && s[i].Shows() == ws[i]
    ensures Backed(ws) && i > 0 ==> s[i].blk != null
  {
  }

  lemma NotEmpty(b: BufBlk, s: seq<BufBlk>, ws: seq<Window>)
    requires Chain(b, s, ws)
    ensures |s| == |ws| > 0
  {
  }

  lemma OneBlock(b: BufBlk)
    requires b.next == null
    ensures Chain(b, [b], [b.Shows()]) && Elems([b]) == {b}
  {
  }

  lemma ElemsMore(s: seq<BufBlk>, b: BufBlk)
    ensures Elems(s + [b]) == Elems(s) + {b}
  {
  }

  lemma ChainTail(b: BufBlk, s: seq<BufBlk>, ws: seq<Window>)
    requires Chain(b, s, ws) && |s| == |ws| > 0
    ensures Chain(b.next, s[1..], ws[1..]) && (b.next == null <==> |s| == 1)
    ensures Elems(s) == {b} + Elems(s[1..]) && b !in Elems(s[1..]) && (|s| == 1 ==> Elems(s[1..]) == {})
  {
    assert s == [b] + s[1..];
  }

  lemma ShowsLength(b: BufBlk)
    ensures b.Shows() == Window(b.blk, b.rd, b.wr) && b.Length() == b.wr - b.rd
  {
  }

  lemma ChainFits(heap: Heap, b: BufBlk?, s: seq<BufBlk>, ws: seq<Window>)
    requires heap.Valid() && Chain(b, s, ws) && Elems(s) <= heap.live
    ensures AllFit(ws) && forall i :: 0 <= i < |ws| && ws[i].blk != null ==> ws[i].blk in heap.mems
  {
    forall i | 0 <= i < |ws| ensures s[i] in heap.live { assert s[i] in Elems(s); }
  }

  // ----- slices -----

  /** Whether the bytes at, at + 1, ... at + size - 1 of a chain all lie in the block that holds the first. */
  predicate InOne(ws: seq<Window>, at: nat, size: nat) {
    if ws == [] then false
    else if at < ws[0].wr - ws[0].rd then at + size <= ws[0].wr - ws[0].rd
    else ws[0].wr >= ws[0].rd && InOne(ws[1..], at - (ws[0].wr - ws[0].rd), size)
  }

  /** The window that shows byte at of a chain. */
  function Home(ws: seq<Window>, at: nat): Option<Window> {
    if ws == [] then None
    else if at < ws[0].wr - ws[0].rd then Some(ws[0])
    else if ws[0].wr >= ws[0].rd then Home(ws[1..], at - (ws[0].wr - ws[0].rd)) else None
  }

  lemma DataFrom(ws: seq<Window>, i: nat)
    requires AllFit(ws) && i < |ws|
    ensures AllFit(ws[i..]) && AllFit(ws[i + 1..]) && Data(ws[i..]) == Shown(ws[i]) + Data(ws[i + 1..])
    ensures Arrays(ws[i..]) <= Arrays(ws) && Arrays(ws[i + 1..]) <= Arrays(ws)
    ensures |Shown(ws[i])| == ws[i].wr - ws[i].rd
    ensures ws[i].blk != null ==>
      && ws[i].blk.mem in Arrays(ws) && 0 <= ws[i].rd <= ws[i].wr <= ws[i].blk.mem.Length
      && Shown(ws[i]) == ws[i].blk.mem[ws[i].rd..ws[i].wr]
    ensures ws[i].blk == null ==> ws[i].rd == ws[i].wr == 0
  {
    assert ws[i..][1..] == ws[i + 1..];
  }

  /** The byte sought is in window i. */
  lemma Found(ws: seq<Window>, at: nat, i: nat, need: nat, size: nat)
    requires AllFit(ws) && SameRest(ws, at, i, need) && i < |ws| && need < ws[i].wr - ws[i].rd
    ensures Followed(ws, at) <==> i + 1 < |ws|
    ensures at < |Data(ws)| && Home(ws, at) == Some(ws[i]) && (InOne(ws, at, size) <==> need + size <= ws[i].wr - ws[i].rd)
    ensures AllFit(ws[i..]) && need <= |Data(ws[i..])| && Data(ws[i..])[need..] == Data(ws)[at..]
    ensures at + size <= |Data(ws)| <==> need + size <= |Data(ws[i..])|
    ensures at + size <= |Data(ws)| ==> Data(ws)[at..at + size] == Data(ws[i..])[need..need + size]
    ensures ws[i].blk != null && ws[i].blk.mem in Arrays(ws)
    ensures need + size <= ws[i].wr - ws[i].rd ==> at + size <= |Data(ws)| && Data(ws)[at..at + size] == Shown(ws[i])[need..need + size]
  {
    DataFrom(ws, i);
    Slices(Data(ws), at, Data(ws[i..]), need, Shown(ws[i]), Data(ws[i + 1..]), size);
  }

  lemma Slices(d: seq<Byte>, at: nat, r: seq<Byte>, need: nat, p: seq<Byte>, t: seq<Byte>, size: nat)
    requires at <= |d| && need <= |p| && r == p + t && r[need..] == d[at..]
    ensures at + size <= |d| <==> need + size <= |r|
    ensures at + size <= |d| ==> d[at..at + size] == r[need..need + size]
    ensures need + size <= |p| ==> at + size <= |d| && d[at..at + size] == p[need..need + size]
  {
    if at + size <= |d| {
      assert d[at..at + size] == d[at..][..size] && r[need..need + size] == r[need..][..size];
    }
  }

  lemma NotFound(ws: seq<Window>, at: nat, i: nat, need: nat)
    requires AllFit(ws) && SameRest(ws, at, i, need) && i == |ws|
    ensures at >= |Data(ws)| && !Followed(ws, at)
  {
  }

  /** Nothing follows the last window. */
  lemma LastWindow(ws: seq<Window>, i: nat)
    requires AllFit(ws) && i + 1 == |ws|
    ensures AllFit(ws[i..]) && |Data(ws[i..])| == ws[i].wr - ws[i].rd
  {
    DataFrom(ws, i);
  }

  lemma ShownPart(w: Window, need: nat, size: nat, b: BufBlk)
    requires Fits(w) && w.blk != null && b.Shows() == Window(w.blk, w.rd + need, w.rd + need + size) && need + size <= w.wr - w.rd
    ensures Fits(b.Shows()) && Shown(b.Shows()) == Shown(w)[need..need + size]
  {
  }

  lemma DataEnd(ws: seq<Window>)
    requires AllFit(ws)
    ensures Data(ws[|ws|..]) == []
  {
  }

  /** Bytes written behind a window lengthen it. */
  lemma Spliced(was: seq<Byte>, rd: nat, wr: nat, src: seq<Byte>, now: seq<Byte>)
    requires rd <= wr && wr + |src| <= |was| && now == was[..wr] + src + was[wr + |src|..]
    ensures now[rd..wr + |src|] == was[rd..wr] + src
  {
  }

  twostate lemma OldArrays(ws: seq<Window>)
    ensures forall a :: a in Arrays(ws) ==> !fresh(a)
  {
  }

  lemma Taken(have: seq<Byte>, piece: seq<Byte>, src: seq<Byte>, tail: seq<Byte>, rest: seq<Byte>)
    requires have + (piece + tail) == rest && src <= piece
    ensures have + src <= rest && (src == piece ==> have + src + tail == rest)
    ensures |src| == |piece| ==> src == piece
  {
    assert have + (piece + tail) == have + piece + tail;
  }

  lemma EmptyShown(b: BufBlk)
    requires b.blk != null && b.rd == b.wr == 0
    ensures Fits(b.Shows()) && Shown(b.Shows()) == [] && b.FreeSpace() == b.blk.mem.Length
  {
  }

  /** Whether a block follows the one that shows byte at of a chain. */
  predicate Followed(ws: seq<Window>, at: nat) {
    if ws == [] then false
    else if at < ws[0].wr - ws[0].rd then |ws| > 1
    else ws[0].wr >= ws[0].rd && Followed(ws[1..], at - (ws[0].wr - ws[0].rd))
  }

  /** Byte need of the windows from i on is byte at of them all, and so on to the end. */
  ghost predicate SameRest(ws: seq<Window>, at: nat, i: nat, need: nat)
    requires AllFit(ws)
    reads Arrays(ws)
  {
    && i <= |ws|
    && |Data(ws)| - at == |Data(ws[i..])| - need
    && (need <= |Data(ws[i..])| ==> Data(ws[i..])[need..] == Data(ws)[at..])
    && Home(ws, at) == Home(ws[i..], need) && Followed(ws, at) == Followed(ws[i..], need)
    && forall size :: InOne(ws, at, size) == InOne(ws[i..], need, size)
  }

  lemma RestStart(ws: seq<Window>, at: nat)
    requires AllFit(ws)
    ensures SameRest(ws, at, 0, at)
  {
    assert ws[0..] == ws;
  }

  lemma RestStep(ws: seq<Window>, at: nat, i: nat, need: nat)
    requires AllFit(ws) && SameRest(ws, at, i, need) && i < |ws| && need >= ws[i].wr - ws[i].rd
    ensures SameRest(ws, at, i + 1, need - (ws[i].wr - ws[i].rd))
  {
    hide Shown, Data, Fits;
    DataFrom(ws, i);
    var len := ws[i].wr - ws[i].rd;
    assert ws[i..][1..] == ws[i + 1..];
    if need <= |Data(ws[i..])| { Dropped(Shown(ws[i]), Data(ws[i + 1..]), need); }
  }

  lemma Dropped(p: seq<Byte>, t: seq<Byte>, need: nat)
    requires |p| <= need <= |p + t|
    ensures (p + t)[need..] == t[need - |p|..]
  {
  }

  lemma AllIn(s: seq<BufBlk>, blocks: set<BufBlk>)
    requires Elems(s) <= blocks
    ensures forall c :: c in s ==> c in blocks
  {
    forall c | c in s ensures c in blocks { assert c in Elems(s); }
  }

  /** As Chain, but for what follows the last block. */
  ghost predicate Open(s: seq<BufBlk>, ws: seq<Window>)
    reads s
  {
    && |s| == |ws| > 0
    && (forall i :: 0 <= i < |s| - 1 ==> s[i].next == s[i + 1])
    && (forall i :: 0 <= i < |s| ==> s[i].Shows() == ws[i])
    && (forall i, j :: 0 <= i < j < |s| ==> s[i] != s[j])
  }

  lemma OpenChain(b: BufBlk, s: seq<BufBlk>, ws: seq<Window>)
    requires Chain(b, s, ws)
    ensures Open(s, ws) && b == s[0]
  {
  }

  lemma Joined(s: seq<BufBlk>, ws: seq<Window>, c: BufBlk?, t: seq<BufBlk>, vs: seq<Window>)
    requires Open(s, ws) && s[|s| - 1].next == c && Chain(c, t, vs) && Elems(s) !! Elems(t)
    ensures Chain(s[0], s + t, ws + vs)
  {
    forall k | 0 <= k < |s + t| ensures (s + t)[k].next == At(s + t, k + 1) { JoinedNext(s, ws, c, t, vs, k); }
    forall i, j | 0 <= i < j < |s + t| ensures (s + t)[i] != (s + t)[j] { JoinedApart(s, ws, c, t, vs, i, j); }
    forall k | 0 <= k < |s + t| ensures (s + t)[k].Shows() == (ws + vs)[k] { JoinedShows(s, ws, c, t, vs, k); }
    assert s + t != [] && (s + t)[0] == s[0] && |s + t| == |ws + vs|;
  }

  lemma JoinedNext(s: seq<BufBlk>, ws: seq<Window>, c: BufBlk?, t: seq<BufBlk>, vs: seq<Window>, k: nat)
    requires Open(s, ws) && s[|s| - 1].next == c && Chain(c, t, vs) && k < |s + t|
    ensures (s + t)[k].next == At(s + t, k + 1)
  {
  }

  lemma JoinedShows(s: seq<BufBlk>, ws: seq<Window>, c: BufBlk?, t: seq<BufBlk>, vs: seq<Window>, k: nat)
    requires Open(s, ws) && Chain(c, t, vs) && k < |s + t|
    ensures |s + t| == |ws + vs| && (s + t)[k].Shows() == (ws + vs)[k]
  {
  }

  lemma JoinedApart(s: seq<BufBlk>, ws: seq<Window>, c: BufBlk?, t: seq<BufBlk>, vs: seq<Window>, i: nat, j: nat)
    requires Open(s, ws) && Chain(c, t, vs) && Elems(s) !! Elems(t) && i < j < |s + t|
    ensures (s + t)[i] != (s + t)[j]
  {
    if i < |s| <= j { assert s[i] in Elems(s) && t[j - |s|] in Elems(t); }
  }

  lemma AllApart(s: seq<BufBlk>, b: BufBlk)
    requires b !in s
    ensures Elems(s) !! Elems([b])
  {
  }

  lemma Disjoint(s: seq<BufBlk>, t: seq<BufBlk>, i: nat)
    requires Elems(s) !! Elems(t) && i < |s|
    ensures s[i] !in t
  {
    assert s[i] in Elems(s);
  }

  twostate lemma AllNew(new b: BufBlk, new s: seq<BufBlk>, ws: seq<Window>)
    requires Chain(b, s, ws) && fresh(b) && forall k :: 1 <= k < |s| ==> fresh(s[k])
    ensures fresh(Elems(s))
  {
  }

  /** Those of the blocks that are on m. */
  ghost function On(blocks: set<BufBlk>, m: MemBlk): set<BufBlk>
    reads blocks`blk
  {
    set b | b in blocks && b.blk == m
  }

  /** Every memory handed out so far, and the blocks now in service. */
  class Heap {
    ghost var live: set<BufBlk>
    ghost var mems: set<MemBlk>

    constructor ()
      ensures Valid() && live == {} && mems == {}
    {
      live, mems := {}, {};
    }

    ghost function Users(m: MemBlk): set<BufBlk>
      reads this, live`blk
    {
      On(live, m)
    }

    /** Each memory's count is the number of live blocks on it, and it is freed once there are none. */
    ghost predicate Counted(m: MemBlk)
      reads this, live`blk, m
    {
      m.refCount == |Users(m)| && (m.freed <==> m.refCount == 0)
    }

    ghost predicate Valid()
      reads this, live`blk, live`rd, live`wr, mems
    {
      && (forall b :: b in live ==> Fits(b.Shows()) && (b.blk != null ==> b.blk in mems))
      && (forall m :: m in mems ==> Counted(m))
    }

    /** A block comes into service. */
    ghost method Join(b: BufBlk)
      requires b !in live
      modifies this`live
      ensures live == old(live) + {b}
      ensures forall m: MemBlk :: |On(live, m)| == |On(old(live), m)| + if b.blk == m then 1 else 0
    {
      live := live + {b};
      forall m: MemBlk
        ensures On(live, m) == if b.blk == m then On(old(live), m) + {b} else On(old(live), m)
      {
      }
    }

    /** A block comes into service on memory just made, which counts it already. */
    ghost method AttachNew(b: BufBlk)
      requires Valid() && b !in live && Fits(b.Shows())
      requires b.blk != null && b.blk !in mems && b.blk.refCount == 1 && !b.blk.freed
      modifies this
      ensures Valid() && live == old(live) + {b} && mems == old(mems) + {b.blk}
    {
      hide Fits;
      assert On(live, b.blk) == {};
      Join(b);
      mems := mems + {b.blk};
    }

    /** A block goes out of service. */
    ghost method Leave(b: BufBlk)
      requires b in live
      modifies this`live
      ensures live == old(live) - {b}
      ensures forall m: MemBlk :: |On(live, m)| == |On(old(live), m)| - if b.blk == m then 1 else 0
    {
      live := live - {b};
      forall m: MemBlk
        ensures On(live, m) == if b.blk == m then On(old(live), m) - {b} else On(old(live), m)
      {
      }
    }

    /** The memory of a live block has not been freed. */
    lemma InUse(b: BufBlk)
      requires Valid() && b in live
      ensures b.blk != null ==> b.blk in mems && !b.blk.freed && 0 <= b.rd <= b.wr <= b.blk.mem.Length
      ensures Fits(b.Shows())
    {
      if b.blk != null { FreedExactlyUnused(b.blk); }
    }

    /** A memory is freed exactly when no live block is left on it; no live block is left on freed memory. */
    lemma FreedExactlyUnused(m: MemBlk)
      requires Valid() && m in mems
      ensures m.freed <==> forall b :: b in live ==> b.blk != m
    {
      assert m.freed <==> Users(m) == {};
      forall b | b in live && b.blk == m
        ensures b in Users(m)
      {
      }
    }
  }

  class BufBlk {
    var blk: MemBlk?
    var rd: int
    var wr: int
    var mark: int
    var next: BufBlk?

    ghost function Shows(): Window
      reads this`blk, this`rd, this`wr
    {
      Window(blk, rd, wr)
    }

    function Length(): int
      reads this`rd, this`wr
    {
      wr - rd
    }

    constructor ()
      ensures blk == null && rd == wr == mark == 0 && next == null
    {
      blk, rd, wr, mark, next := null, 0, 0, 0, null;
    }

    /** A block with memory of its own. */
    constructor OfSize(ghost heap: Heap, size: nat)
      requires heap.Valid()
      modifies heap
      ensures heap.Valid() && heap.live == old(heap.live) + {this} && heap.mems == old(heap.mems) + {blk}
      ensures blk != null && fresh(blk) && fresh(blk.mem) && blk.mem.Length == size
      ensures rd == wr == mark == 0 && next == null
    {
      blk := new MemBlk(size);
      rd, wr, mark, next := 0, 0, 0, null;
      new;
      heap.AttachNew(this);
    }

    /** Another block on memory that is in use, its offsets set at once. */
    constructor Sharing(ghost heap: Heap, m: MemBlk, rd: int, wr: int)
      requires heap.Valid() && m in heap.mems && !m.freed && 0 <= rd <= wr <= m.mem.Length
      modifies heap`live, m`refCount
      ensures heap.Valid() && heap.live == old(heap.live) + {this}
      ensures Shows() == Window(m, rd, wr) && next == null
    {
      blk, this.rd, this.wr, mark, next := m, rd, wr, 0, null;
      new;
      Attach(heap);
    }

    /** This block comes into service on memory in use, which counts one holder more. */
    method Attach(ghost heap: Heap)
      requires heap.Valid() && this !in heap.live && Fits(Shows()) && (blk != null ==> blk in heap.mems && !blk.freed)
      modifies heap`live, (if blk == null then {} else {blk})`refCount
      ensures heap.Valid() && heap.live == old(heap.live) + {this}
    {
      hide Fits;
      if blk != null { blk.Checkout(); }
      heap.Join(this);
    }

    function FreeSpace(): int
      requires blk != null
      reads this
    {
      blk.mem.Length - wr
    }

    /** Appends as much of the bytes as there is room for. Blocks that share the memory see the same writes. */
    method CopyFrom(src: seq<Byte>) returns (s: int)
      requires Fits(Shows()) && blk != null
      modifies this`wr, blk.mem
      ensures s == if |src| <= old(FreeSpace()) then |src| else old(FreeSpace())
      ensures Fits(Shows()) && Shown(Shows()) == old(Shown(Shows())) + src[..s]
      ensures blk.mem[..] == old(blk.mem[..wr]) + src[..s] + old(blk.mem[wr + s..])
    {
      s := |src|;
      if FreeSpace() < |src| { s := FreeSpace(); }
      var m := blk.mem;
      ghost var was := m[..];
      forall i | 0 <= i < s { m[wr + i] := src[i]; }
      assert m[..] == was[..wr] + src[..s] + was[wr + s..];
      Spliced(was, rd, wr, src[..s], m[..]);
      wr := wr + s;
    }

    /** total_length: what the whole chain shows. */
    method TotalLength(ghost chain: seq<BufBlk>, ghost ws: seq<Window>) returns (total: int)
      requires Chain(this, chain, ws) && AllFit(ws)
      ensures total == |Data(ws)|
    {
      var look: BufBlk? := this;
      total := 0;
      ghost var i := 0;
      while look != null
        invariant 0 <= i <= |chain| && look == At(chain, i)
        invariant total + |Data(ws[i..])| == |Data(ws)|
        decreases |chain| - i
      {
        total, look, i := total + look.Length(), look.next, i + 1;
        assert ws[i - 1..][1..] == ws[i..];
      }
    }

    /** addToEnd: the other chain follows this one. */
    method AddToEnd(b: BufBlk?, ghost chain: seq<BufBlk>, ghost ws: seq<Window>, ghost more: seq<BufBlk>, ghost vs: seq<Window>)
      requires Chain(this, chain, ws) && Chain(b, more, vs) && Elems(chain) !! Elems(more)
      modifies Elems(chain)`next
      ensures Chain(this, chain + more, ws + vs)
    {
      hide *;
      var look := this;
      ghost var i := 0;
      NotEmpty(this, chain, ws);
      InChain(this, chain, ws, 0);
      while look.next != null
        invariant 0 <= i < |chain| && look == chain[i]
        invariant look.next == (if i + 1 < |chain| then chain[i + 1] else null)
        modifies {}
        decreases |chain| - i
      {
        look, i := look.next, i + 1;
        InChain(this, chain, ws, i);
      }
      OpenChain(this, chain, ws);
      Disjoint(chain, more, i);
      InChain(this, chain, ws, i);
      LinkLast(look, chain, ws, b);
      Joined(chain, ws, b, more, vs);
    }

    /** The first step of assignFromBlk: a block just made takes over the window of another. */
    method TakeWindow(ghost heap: Heap, o: BufBlk)
      requires heap.Valid() && this !in heap.live && o in heap.live
      modifies this, heap`live, heap.mems
      ensures heap.Valid() && heap.live == old(heap.live) + {this}
      ensures Shows() == o.Shows() && next == null
      ensures forall m :: m in heap.mems ==> m.freed == old(m.freed)
    {
      heap.InUse(o);
      blk, next, rd, wr, mark := o.blk, null, o.rd, o.wr, o.mark;
      Attach(heap);
    }

    /** One turn of its loop: a copy of walko is made and follows this block, the last of the copies so far. */
    method CopyNext(ghost heap: Heap, walko: BufBlk, ghost copy: seq<BufBlk>, ghost ws: seq<Window>) returns (b: BufBlk)
      requires heap.Valid() && Elems(copy) <= heap.live && walko in heap.live && walko.blk != null
      requires copy != [] && Chain(copy[0], copy, ws) && this == copy[|copy| - 1]
      modifies this`next, heap`live, heap.mems
      ensures fresh(b) && Chain(copy[0], copy + [b], ws + [walko.Shows()])
      ensures heap.Valid() && heap.live == old(heap.live) + {b}
      ensures forall m :: m in heap.mems ==> m.freed == old(m.freed)
    {
      hide *;
      AllIn(copy, heap.live);
      heap.InUse(walko);
      ShowsLength(walko);
      b := new BufBlk.Sharing(heap, walko.blk, walko.rd, walko.wr);
      OneBlock(b);
      OpenChain(copy[0], copy, ws);
      AllApart(copy, b);
      LinkLast(this, copy, ws, b);
      Joined(copy, ws, b, [b], [b.Shows()]);
    }

    /**
      assignFromBlk, on a block just made: it and blocks made after it become a copy of the chain, each on
      the memory of the block it copies. Only the first block of the chain may be without memory.
     */
    method AssignFromBlk(ghost heap: Heap, o: BufBlk, ghost chain: seq<BufBlk>, ghost ws: seq<Window>)
      returns (ghost copy: seq<BufBlk>)
      requires heap.Valid() && this !in heap.live
      requires Chain(o, chain, ws) && Elems(chain) <= heap.live && Backed(ws)
      modifies this, heap`live, heap.mems
      ensures heap.Valid() && heap.live == old(heap.live) + Elems(copy)
      ensures Chain(this, copy, ws)
      ensures forall k :: 1 <= k < |copy| ==> fresh(copy[k])
      ensures forall m :: m in heap.mems ==> m.freed == old(m.freed)
    {
      hide *;
      AllIn(chain, heap.live);
      NotEmpty(o, chain, ws);
      InChain(o, chain, ws, 0);
      TakeWindow(heap, o);
      copy := [this];
      OneBlock(this);
      assert ws[..1] == [ws[0]];
      var walko := o.next;
      var walk := this;
      while walko != null
        invariant 1 <= |copy| <= |chain| == |ws| && copy[0] == this && walk == copy[|copy| - 1] && walk !in chain
        invariant Chain(this, copy, ws[..|copy|]) && Chain(o, chain, ws)
        invariant walko == (if |copy| < |chain| then chain[|copy|] else null)
        invariant forall k :: 1 <= k < |copy| ==> fresh(copy[k])
        invariant heap.Valid() && heap.live == old(heap.live) + Elems(copy)
        invariant forall m :: m in heap.mems ==> m.freed == old(m.freed)
        decreases |chain| - |copy|
      {
        ghost var k := |copy|;
        InChain(o, chain, ws, k);
        assert ws[..k] + [ws[k]] == ws[..k + 1];
        var b := walk.CopyNext(heap, walko, copy, ws[..k]);
        ElemsMore(copy, b);
        walk, copy := b, copy + [b];
        walko := walko.next;
      }
      assert ws[..|copy|] == ws;
    }

    /** duplicate: a chain of new blocks that shows the same bytes of the same memories. */
    method Duplicate(ghost heap: Heap, ghost chain: seq<BufBlk>, ghost ws: seq<Window>)
      returns (r: BufBlk, ghost copy: seq<BufBlk>)
      requires heap.Valid()
      requires Chain(this, chain, ws) && Elems(chain) <= heap.live && Backed(ws)
      modifies heap`live, heap.mems
      ensures heap.Valid() && heap.live == old(heap.live) + Elems(copy)
      ensures Chain(r, copy, ws) && fresh(Elems(copy))
      ensures forall m :: m in heap.mems ==> m.freed == old(m.freed)
    {
      hide *;
      r := new BufBlk();
      copy := r.AssignFromBlk(heap, this, chain, ws);
      AllNew(r, copy, ws);
    }

    /** The end of release: the memory loses a holder, and this block is deleted. */
    method LetGo(ghost heap: Heap)
      requires heap.Valid() && this in heap.live
      modifies this, heap`live, heap.mems
      ensures heap.Valid() && heap.live == old(heap.live) - {this}
    {
      if blk != null { blk.Release(); }
      heap.Leave(this);
      next, blk := null, null;
    }

    /** release: the blocks of the chain are deleted from the far end on, and what none is left on is freed. */
    method Release(ghost heap: Heap, ghost chain: seq<BufBlk>, ghost ws: seq<Window>)
      requires heap.Valid()
      requires Chain(this, chain, ws) && Elems(chain) <= heap.live
      modifies Elems(chain), heap`live, heap.mems
      ensures heap.Valid() && heap.live == old(heap.live) - Elems(chain)
      ensures forall m :: m in heap.mems ==> (m.freed <==> forall b :: b in heap.live ==> b.blk != m)
      decreases |chain|
    {
      hide *;
      NotEmpty(this, chain, ws);
      ChainTail(this, chain, ws);
      if next != null { next.Release(heap, chain[1..], ws[1..]); }
      LetGo(heap);
      forall m | m in heap.mems ensures m.freed <==> forall b :: b in heap.live ==> b.blk != m { heap.FreedExactlyUnused(m); }
    }

    /** The search of getContigBlock: the block that holds byte at of the chain, and where in it. */
    method Seek(at: int, ghost chain: seq<BufBlk>, ghost ws: seq<Window>) returns (look: BufBlk?, need: int, ghost i: nat)
      requires Chain(this, chain, ws) && AllFit(ws)
      ensures i <= |ws| == |chain| && look == (if i < |chain| then chain[i] else null)
      ensures if at < 0 then look == this && i == 0 && need == at else need >= 0 && SameRest(ws, at, i, need)
      ensures look != null ==> look.Shows() == ws[i] && need < look.Length()
    {
      hide *;
      need, look, i := at, this, 0;
      if at >= 0 { RestStart(ws, at); }
      NotEmpty(this, chain, ws);
      InChain(this, chain, ws, 0);
      ShowsLength(this);
      DataFrom(ws, 0);
      while need >= 0 && look != null
        invariant i <= |chain| == |ws| && look == (if i < |chain| then chain[i] else null)
        invariant if at < 0 then look == this && i == 0 && need == at else need >= 0 && SameRest(ws, at, i, need)
        decreases |chain| - i
      {
        InChain(this, chain, ws, i);
        ShowsLength(look);
        if look.Length() > need { break; }
        RestStep(ws, at, i, need);
        need, look, i := need - look.Length(), look.next, i + 1;
      }
    }

    /** copyFrom on a block in service. */
    method Fill(ghost heap: Heap, src: seq<Byte>)
      requires heap.Valid() && this in heap.live && blk != null && Fits(Shows()) && |src| <= FreeSpace()
      modifies this`wr, blk.mem
      ensures heap.Valid() && Fits(Shows()) && Shown(Shows()) == old(Shown(Shows())) + src
      ensures FreeSpace() == old(FreeSpace()) - |src|
    {
      hide On;
      var s := CopyFrom(src);
    }

    /**
      The second half of getContigBlock: the bytes from the given place on are copied to a new memory,
      block after block. When the chain ends too soon the new block keeps what there was.
     */
    method Gather(ghost heap: Heap, look0: BufBlk, need0: nat, size: nat, ghost chain: seq<BufBlk>, ghost ws: seq<Window>, ghost i: nat)
      returns (ok: bool, outblk: BufBlk)
      requires heap.Valid() && Chain(this, chain, ws) && Elems(chain) <= heap.live && AllFit(ws)
      requires i < |chain| == |ws| && look0 == chain[i] && look0.blk != null
      requires need0 < look0.Length() < need0 + size
      modifies heap
      ensures heap.Valid() && fresh(outblk) && heap.live == old(heap.live) + {outblk} && heap.mems == old(heap.mems) + {outblk.blk}
      ensures outblk.blk != null && fresh(outblk.blk) && outblk.next == null && Fits(outblk.Shows())
      ensures Data(ws) == old(Data(ws)) && Data(ws[i..]) == old(Data(ws[i..])) && need0 <= |Data(ws[i..])|
      ensures ok <==> need0 + size <= |Data(ws[i..])|
      ensures Shown(outblk.Shows()) == if ok then Data(ws[i..])[need0..need0 + size] else Data(ws[i..])[need0..]
    {
      hide *;
      InChain(this, chain, ws, i);
      ShowsLength(look0);
      DataFrom(ws, i);
      ghost var rest := Data(ws[i..])[need0..];
      outblk := new BufBlk.OfSize(heap, size);
      OldArrays(ws);
      assert Data(ws) == old(Data(ws));
      var total := size;
      EmptyShown(outblk);
      outblk.Fill(heap, look0.blk.mem[look0.rd + need0..look0.wr]);
      assert Data(ws) == old(Data(ws));
      assert Data(ws[i + 1..]) == old(Data(ws[i + 1..]));
      total := total - (look0.Length() - need0);
      assert rest == Shown(ws[i])[need0..] + Data(ws[i + 1..]);
      total := outblk.GatherRest(heap, look0.next, total, chain, ws, i + 1, rest);
      ok := total == 0;
    }

    /** Its loop, on the new block: whole blocks, then part of one, until nothing is wanted or left. */
    method GatherRest(ghost heap: Heap, look0: BufBlk?, total0: nat, ghost chain: seq<BufBlk>, ghost ws: seq<Window>,
                      ghost k0: nat, ghost rest: seq<Byte>) returns (total: nat)
      requires heap.Valid() && this in heap.live && blk != null && Fits(Shows()) && FreeSpace() == total0 > 0
      requires chain != [] && Chain(chain[0], chain, ws) && AllFit(ws) && blk.mem !in Arrays(ws)
      requires 0 < k0 <= |chain| == |ws| && look0 == (if k0 < |chain| then chain[k0] else null) && this !in chain
      requires AllFit(ws[k0..]) && Shown(Shows()) + Data(ws[k0..]) == rest
      modifies this`wr, blk.mem
      ensures heap.Valid() && Fits(Shows()) && |Shown(Shows())| + total == old(|Shown(Shows())|) + total0
      ensures Data(ws) == old(Data(ws))
      ensures if total > 0 then Shown(Shows()) == rest else Shown(Shows()) <= rest
    {
      hide *;
      OldArrays(ws);
      total := total0;
      var look := look0;
      ghost var k := k0;
      while look != null && total > 0
        invariant k <= |chain| == |ws| && look == (if k < |chain| then chain[k] else null) && AllFit(ws[k..])
        invariant blk != null && FreeSpace() == total && heap.Valid() && Fits(Shows()) && blk.mem !in Arrays(ws)
        invariant Data(ws) == old(Data(ws)) && |Shown(Shows())| + total == old(|Shown(Shows())|) + total0
        invariant if total > 0 then Shown(Shows()) + Data(ws[k..]) == rest else Shown(Shows()) <= rest
        invariant Chain(chain[0], chain, ws)
        decreases |chain| - k
      {
        InChain(chain[0], chain, ws, k);
        ShowsLength(look);
        DataFrom(ws, k);
        var need := if look.Length() < total then look.Length() else total;
        var src := if look.blk == null then [] else look.blk.mem[look.rd..look.rd + need];
        Taken(Shown(Shows()), Shown(ws[k]), src, Data(ws[k + 1..]), rest);
        Fill(heap, src);
        total := total - need;
        look, k := look.next, k + 1;
      }
      DataEnd(ws);
    }

    /**
      getContigBlock: the bytes at, at + 1, ... of the chain in one block. It succeeds exactly when they are
      all there. Bytes that lie in one block are shared with it; others are copied to a memory of their own.
      A call that fails leaves a block behind, with what bytes there are, exactly when a block follows the
      one the bytes begin in. With a negative offset or size the code reads or hands out a stray window, one
      that begins before the bytes of its block or ends before it begins; the model stops there.
     */
    method GetContigBlock(ghost heap: Heap, at: int, size: int, ghost chain: seq<BufBlk>, ghost ws: seq<Window>)
      returns (ok: bool, outblk: BufBlk?, stray: Option<Window>)
      requires heap.Valid() && Chain(this, chain, ws) && Elems(chain) <= heap.live
      modifies heap, heap.mems
      ensures heap.Valid() && heap.live == old(heap.live) + if outblk == null then {} else {outblk}
      ensures forall m :: m in old(heap.mems) ==> m in heap.mems && m.freed == old(m.freed)
      ensures AllFit(ws) && Data(ws) == old(Data(ws)) && |ws| > 0
      ensures ok <==> 0 <= at < |Data(ws)| && 0 <= size && at + size <= |Data(ws)|
      ensures outblk != null ==> at >= 0 && size >= 0 && fresh(outblk) && outblk.next == null && Fits(outblk.Shows())
      ensures ok ==> outblk != null && Shown(outblk.Shows()) == Data(ws)[at..at + size]
      ensures ok ==> if InOne(ws, at, size) then Home(ws, at).Some? && outblk.blk == Home(ws, at).value.blk
                     else outblk.blk != null && fresh(outblk.blk)
      ensures !ok ==> (outblk != null <==> at >= 0 && size >= 0 && Followed(ws, at))
      ensures !ok && outblk != null ==> at < |Data(ws)| && Shown(outblk.Shows()) == Data(ws)[at..]
      ensures stray.Some? <==>
        if at < 0 then at + size <= ws[0].wr - ws[0].rd || |ws| > 1 else size < 0 && at < |Data(ws)|
      ensures stray.Some? && at < 0 ==>
        var from := ws[0].rd + at;
        stray.value == Window(ws[0].blk, from, if at + size <= ws[0].wr - ws[0].rd then from + size else ws[0].wr)
      ensures stray.Some? && at >= 0 ==>
        var from := stray.value.rd;
        Home(ws, at).Some? && Home(ws, at).value.rd <= from < Home(ws, at).value.wr
        && stray.value == Window(Home(ws, at).value.blk, from, from + size)
    {
      hide *;
      ChainFits(heap, this, chain, ws);
      OldArrays(ws);
      NotEmpty(this, chain, ws);
      ok, outblk, stray := false, null, None;
      var look, need, i := Seek(at, chain, ws);
      if look != null && look.Length() > need {
        InChain(this, chain, ws, i);
        ShowsLength(look);
        if at >= 0 { Found(ws, at, i, need, if size >= 0 then size else 0); }
        if need < 0 || size < 0 {
          if look.Length() - need - size >= 0 {
            stray := Some(Window(look.blk, look.rd + need, look.rd + need + size));
          } else if look.next != null {
            stray := Some(Window(look.blk, look.rd + need, look.wr));
          }
          return;
        }
        if look.Length() - need - size >= 0 {
          AllIn(chain, heap.live);
          heap.InUse(look);
          outblk := new BufBlk.Sharing(heap, look.blk, look.rd + need, look.rd + need + size);
          outblk.mark := outblk.rd;
          ShowsLength(outblk);
          ShownPart(ws[i], need, size, outblk);
          ok := true;
        } else if look.next != null {
          ok, outblk := Gather(heap, look, need, size, chain, ws, i);
        } else {
          LastWindow(ws, i);
        }
      } else {
        DataEnd(ws);
        NotFound(ws, at, i, need);
      }
    }
  }

  /** A walk over a duplicate of a chain. */
  class BufBlkIter {
    var start: BufBlk
    var cur: BufBlk?
    var rdOffset: int
    ghost var chain: seq<BufBlk>
    ghost var ws: seq<Window>
    ghost var pos: nat

    ghost predicate Valid()
      reads this, chain
    {
      && Chain(start, chain, ws) && AllFit(ws)
      && pos <= |ws| == |chain| && cur == (if pos < |chain| then chain[pos] else null)
      && 0 <= rdOffset <= if pos < |ws| then ws[pos].wr - ws[pos].rd else 0
    }


    /** The bytes not yet handed out. */
    ghost function Rest(): seq<Byte>
      requires Valid()
      reads this, chain, Arrays(ws)
    {
      RestFrom(ws, pos, rdOffset)
    }

    constructor (ghost heap: Heap, b: BufBlk, ghost chain0: seq<BufBlk>, ghost ws0: seq<Window>)
      requires heap.Valid()
      requires Chain(b, chain0, ws0) && Elems(chain0) <= heap.live && Backed(ws0)
      modifies heap`live, heap.mems
      ensures heap.Valid() && heap.live == old(heap.live) + Elems(chain) && fresh(Elems(chain))
      ensures Valid() && ws == ws0 && Rest() == Data(ws0)
    {
      hide *;
      ChainFits(heap, b, chain0, ws0);
      var r, copy := b.Duplicate(heap, chain0, ws0);
      start, cur, rdOffset, chain, ws, pos := r, r, 0, copy, ws0, 0;
      new;
      Begin();
    }

    /** How much the next chunk holds: what is left of the block, or less when the caller wants less. */
    function ChunkSize(max: int): int
      requires cur != null
      reads this, cur
    {
      if max == -1 || max >= cur.Length() - rdOffset then cur.Length() - rdOffset else max
    }

    /**
      getNextChunk: a piece of the current block, -1 asking for all that is left of it. The pieces handed
      out, one after the other, are the bytes of the chain; there is none exactly at the end.
     */
    method GetNextChunk(max: int) returns (ok: bool, chunk: Window)
      requires Valid() && max >= -1
      modifies this`cur, this`rdOffset, this`pos
      ensures Valid() && (ok <==> old(cur) != null)
      ensures !ok ==> old(Rest()) == Rest() == []
      ensures ok ==> Fits(chunk) && Shown(chunk) + Rest() == old(Rest())
      ensures ok ==> chunk == Window(old(cur.blk), old(cur.rd + rdOffset), old(cur.rd + rdOffset + ChunkSize(max)))
      ensures ok ==> chunk.wr - chunk.rd <= max || max == -1
      ensures ok ==> pos == old(pos) + 1 || (pos == old(pos) && chunk.wr - chunk.rd == max)
      ensures !ok ==> pos == old(pos)
    {
      hide *;
      ok, chunk := false, Window(null, 0, 0);
      OldArrays(ws);
      Here();
      if cur != null {
        ChunkSizes(max);
        CutChunk(ws, pos, rdOffset, ChunkSize(max));
        if max == -1 {
          chunk := Window(cur.blk, cur.rd + rdOffset, cur.wr);
          rdOffset, cur, pos := 0, cur.next, pos + 1;
        } else if max >= cur.Length() - rdOffset {
          chunk := Window(cur.blk, cur.rd + rdOffset, cur.wr);
          rdOffset, cur, pos := 0, cur.next, pos + 1;
        } else {
          chunk := Window(cur.blk, cur.rd + rdOffset, cur.rd + rdOffset + max);
          rdOffset := rdOffset + max;
          // The code checks here whether the block is used up; it never is.
          assert rdOffset < cur.Length();
        }
        ok := true;
        There();
      }
    }

    /** previewNextChunk: the chunk that getNextChunk is about to hand out, without handing it out. */
    method PreviewNextChunk(max: int) returns (ok: bool, chunk: Window)
      requires Valid() && max >= -1
      ensures ok <==> cur != null
      ensures ok ==> chunk == Window(cur.blk, cur.rd + rdOffset, cur.rd + rdOffset + ChunkSize(max))
      ensures ok ==> Fits(chunk) && Shown(chunk) <= Rest()
    {
      hide *;
      ok, chunk := false, Window(null, 0, 0);
      Here();
      if cur != null {
        ChunkSizes(max);
        CutChunk(ws, pos, rdOffset, ChunkSize(max));
        if max == -1 || max > cur.Length() - rdOffset {
          chunk := Window(cur.blk, cur.rd + rdOffset, cur.wr);
        } else {
          chunk := Window(cur.blk, cur.rd + rdOffset, cur.rd + rdOffset + max);
        }
        ok := true;
      }
    }

    /** The walk moves on behind what is left of the block, or behind so many bytes of it. */
    method Advance(remain: nat) returns (ghost piece: Window)
      requires Valid() && cur != null
      modifies this`cur, this`rdOffset, this`pos
      ensures Valid() && Fits(piece) && Shown(piece) + Rest() == old(Rest())
      ensures var size := if old(cur.Length() - rdOffset) <= remain then old(cur.Length() - rdOffset) else remain;
        piece == Window(old(cur.blk), old(cur.rd + rdOffset), old(cur.rd + rdOffset) + size)
      ensures pos == old(pos) + 1 || (pos == old(pos) && piece.wr - piece.rd == remain)
    {
      hide *;
      OldArrays(ws);
      Here();
      ghost var size := if cur.Length() - rdOffset <= remain then cur.Length() - rdOffset else remain;
      CutChunk(ws, pos, rdOffset, size);
      piece := Window(cur.blk, cur.rd + rdOffset, cur.rd + rdOffset + size);
      if cur.Length() - rdOffset <= remain {
        rdOffset, cur, pos := 0, cur.next, pos + 1;
      } else {
        rdOffset := rdOffset + remain;
      }
      There();
    }

    /** One turn of the loop of copyNextChunks: what is left of the block, or of the space, goes to t at a place. */
    method CopyChunk(t: array<Byte>, at: nat, remain: nat) returns (size: nat, ghost piece: seq<Byte>)
      requires Valid() && cur != null && at + remain <= t.Length && t !in Arrays(ws)
      modifies this`cur, this`rdOffset, this`pos, t
      ensures Valid() && size == |piece| <= remain && old(Rest()) == piece + Rest()
      ensures t[..] == old(t[..at]) + piece + old(t[at + size..])
      ensures pos == old(pos) + 1 || (pos == old(pos) && size == remain)
    {
      hide *;
      OldArrays(ws);
      Here();
      size := if cur.Length() - rdOffset <= remain then cur.Length() - rdOffset else remain;
      ShownBytes(ws[pos], rdOffset, size);
      var src := if cur.blk == null then [] else cur.blk.mem[cur.rd + rdOffset..cur.rd + rdOffset + size];
      piece := src;
      ghost var shown := Shown(Window(cur.blk, cur.rd + rdOffset, cur.rd + rdOffset + size));
      ghost var ahead := Rest();
      ChunkInArrays(ws, pos, size, rdOffset);
      PutAt(t, at, src);
      Here();
      assert Rest() == ahead && Shown(Window(cur.blk, cur.rd + rdOffset, cur.rd + rdOffset + size)) == shown;
      ghost var window := Advance(remain);
    }

    /** copyNextChunks: as much of what is left as fits the space, across blocks; false exactly at the end. */
    method CopyNextChunks(t: array<Byte>, space: nat) returns (ok: bool, copied: nat)
      requires Valid() && space <= t.Length && t !in Arrays(ws)
      modifies this`cur, this`rdOffset, this`pos, t
      ensures Valid() && (ok <==> old(cur) != null)
      ensures copied == if space <= |old(Rest())| then space else |old(Rest())|
      ensures t[..] == old(Rest())[..copied] + old(t[copied..]) && Rest() == old(Rest())[copied..]
    {
      hide *;
      Here();
      if cur == null { return false, 0; }
      ghost var have: seq<Byte>, tail := [], t[..];
      var remain: nat := space;
      while remain > 0 && cur != null
        invariant Valid() && remain + |have| == space && pos <= |ws| && (cur == null ==> Rest() == [])
        invariant have + Rest() == old(Rest()) && t[..] == have + tail[|have|..]
        decreases |ws| - pos, remain
      {
        var size, piece := CopyChunk(t, space - remain, remain);
        Appended(have, piece, tail, Rest());
        have := have + piece;
        remain := remain - size;
        Here();
      }
      ok, copied := true, space - remain;
    }

    /** rewind */
    method Rewind()
      requires Valid()
      modifies this`cur, this`rdOffset, this`pos
      ensures Valid() && Rest() == Data(ws)
    {
      cur, rdOffset, pos := start, 0, 0;
      Begin();
    }

    /** The current block, opened up. */
    lemma Here()
      requires Valid()
      ensures Chain(start, chain, ws) && AllFit(ws) && pos <= |ws| == |chain| && Rest() == RestFrom(ws, pos, rdOffset)
      ensures cur == null <==> pos == |ws|
      ensures cur == null ==> Rest() == []
      ensures cur != null ==>
        && cur == chain[pos] && ws[pos] == Window(cur.blk, cur.rd, cur.wr) && Fits(ws[pos])
        && 0 <= rdOffset <= cur.Length() == cur.wr - cur.rd
        && cur.next == (if pos + 1 < |chain| then chain[pos + 1] else null)
    {
      if pos < |ws| { InChain(start, chain, ws, pos); }
    }

    lemma There()
      requires Chain(start, chain, ws) && AllFit(ws) && pos <= |ws| == |chain|
      requires cur == (if pos < |chain| then chain[pos] else null)
      requires rdOffset == 0 || (cur != null && 0 <= rdOffset <= cur.Length())
      ensures Valid() && Rest() == RestFrom(ws, pos, rdOffset)
    {
      if pos < |ws| { InChain(start, chain, ws, pos); }
    }

    lemma ChunkSizes(max: int)
      requires cur != null
      ensures ChunkSize(max) == if max == -1 || max >= cur.Length() - rdOffset then cur.Length() - rdOffset else max
    {
    }

    lemma Begin()
      requires Chain(start, chain, ws) && AllFit(ws) && cur == start && rdOffset == 0 && pos == 0
      ensures Valid() && Rest() == Data(ws)
    {
      NotEmpty(start, chain, ws);
      assert ws[0..] == ws && Data(ws)[0..] == Data(ws);
    }
  }

  // ----- walks -----

  /** The bytes of a chain from an offset in window pos on. */
  ghost function RestFrom(ws: seq<Window>, pos: nat, offset: int): seq<Byte>
    requires AllFit(ws) && pos <= |ws| && 0 <= offset <= if pos < |ws| then ws[pos].wr - ws[pos].rd else 0
    reads Arrays(ws)
  {
    if pos == |ws| then [] else Shown(ws[pos])[offset..] + Data(ws[pos + 1..])
  }

  lemma CutShown(w: Window, offset: nat, size: nat)
    requires Fits(w) && offset + size <= w.wr - w.rd
    ensures var chunk := Window(w.blk, w.rd + offset, w.rd + offset + size);
      Fits(chunk) && Shown(w)[offset..] == Shown(chunk) + Shown(w)[offset + size..]
  {
    if w.blk != null {
      var m := w.blk.mem[..];
      assert Shown(w) == m[w.rd..w.wr];
      SliceSlice(m, w.rd, w.wr, offset, size);
    }
  }

  lemma SliceSlice(m: seq<Byte>, a: nat, b: nat, offset: nat, size: nat)
    requires a + offset + size <= b <= |m|
    ensures m[a..b][offset..] == m[a + offset..a + offset + size] + m[a..b][offset + size..]
  {
    assert m[a..b][offset..] == m[a + offset..b] && m[a..b][offset + size..] == m[a + offset + size..b];
  }

  lemma CutChunk(ws: seq<Window>, pos: nat, offset: nat, size: nat)
    requires AllFit(ws) && pos < |ws| && offset + size <= ws[pos].wr - ws[pos].rd
    ensures var chunk := Window(ws[pos].blk, ws[pos].rd + offset, ws[pos].rd + offset + size);
      && Fits(chunk)
      && RestFrom(ws, pos, offset) == Shown(chunk) + RestFrom(ws, pos, offset + size)
      && (offset + size == ws[pos].wr - ws[pos].rd ==> RestFrom(ws, pos, offset) == Shown(chunk) + RestFrom(ws, pos + 1, 0))
  {
    hide Shown, Data;
    CutShown(ws[pos], offset, size);
    NextWindow(ws, pos);
  }

  lemma NextWindow(ws: seq<Window>, pos: nat)
    requires AllFit(ws) && pos < |ws|
    ensures RestFrom(ws, pos + 1, 0) == Data(ws[pos + 1..])
  {
    if pos + 1 < |ws| { assert ws[pos + 1..][1..] == ws[pos + 2..]; }
  }

  method LinkLast(look: BufBlk, ghost chain: seq<BufBlk>, ghost ws: seq<Window>, b: BufBlk?)
    requires Open(chain, ws) && look == chain[|chain| - 1]
    modifies look`next
    ensures Open(chain, ws) && look.next == b
  {
    look.next := b;
  }

  lemma {:induction false} DataSnoc(ws: seq<Window>, w: Window)
    requires AllFit(ws) && Fits(w)
    ensures AllFit(ws + [w]) && Data(ws + [w]) == Data(ws) + Shown(w)
  {
    hide Shown, Fits;
    if ws == [] {
      assert [w][1..] == [] && Shown(w) + [] == Shown(w);
    } else {
      DataSnoc(ws[1..], w);
      assert (ws + [w])[1..] == ws[1..] + [w];
    }
  }

  lemma NoWindows()
    ensures AllFit([]) && Data([]) == []
  {
  }

  /** From wherever the walk stands to its end, the chunks end to end are the bytes that were ahead, for any size of chunk. */
  method ReadAll(it: BufBlkIter, max: int) returns (chunks: seq<Window>)
    requires it.Valid() && (max == -1 || max > 0)
    modifies it`cur, it`rdOffset, it`pos
    ensures it.Valid() && it.Rest() == [] && AllFit(chunks) && Data(chunks) == old(it.Rest())
    ensures forall i :: 0 <= i < |chunks| ==> max == -1 || chunks[i].wr - chunks[i].rd <= max
  {
    hide *;
    chunks := [];
    NoWindows();
    it.Here();
    var more := true;
    while more
      invariant it.Valid() && it.pos <= |it.ws| && AllFit(chunks) && Data(chunks) + it.Rest() == old(it.Rest())
      invariant !more ==> it.Rest() == []
      invariant forall i :: 0 <= i < |chunks| ==> max == -1 || chunks[i].wr - chunks[i].rd <= max
      decreases |it.ws| - it.pos, |it.Rest()|, more
    {
      label before:
      var ok, chunk := it.GetNextChunk(max);
      OldArrays@before(chunks);
      it.Here();
      assert Data(chunks) == old@before(Data(chunks));
      if ok {
        ShownSize(chunk);
        DataSnoc(chunks, chunk);
        assert Data(chunks) + (Shown(chunk) + it.Rest()) == Data(chunks) + Shown(chunk) + it.Rest();
        chunks := chunks + [chunk];
      }
      more := ok;
    }
  }

  lemma ShownSize(w: Window)
    requires Fits(w)
    ensures |Shown(w)| == w.wr - w.rd
  {
  }

  /** memcpy */
  method PutAt(t: array<Byte>, at: nat, src: seq<Byte>)
    requires at + |src| <= t.Length
    modifies t
    ensures t[..] == old(t[..at]) + src + old(t[at + |src|..])
  {
    forall i | 0 <= i < |src| { t[at + i] := src[i]; }
  }

  lemma Appended(have: seq<Byte>, piece: seq<Byte>, tail: seq<Byte>, rest: seq<Byte>)
    requires |have| + |piece| <= |tail|
    ensures var was := have + tail[|have|..];
      was[..|have|] + piece + was[|have| + |piece|..] == (have + piece) + tail[|have + piece|..]
    ensures have + (piece + rest) == have + piece + rest
  {
  }

  lemma ChunkInArrays(ws: seq<Window>, pos: nat, size: nat, offset: nat)
    requires AllFit(ws) && pos < |ws| && offset + size <= ws[pos].wr - ws[pos].rd
    ensures Fits(Window(ws[pos].blk, ws[pos].rd + offset, ws[pos].rd + offset + size))
    ensures ws[pos].blk != null ==> ws[pos].blk.mem in Arrays(ws)
  {
  }

  lemma ShownBytes(w: Window, offset: nat, size: nat)
    requires Fits(w) && offset + size <= w.wr - w.rd
    ensures w.blk == null ==> size == 0
    ensures var chunk := Window(w.blk, w.rd + offset, w.rd + offset + size);
      Fits(chunk) && Shown(chunk) == if w.blk == null then [] else w.blk.mem[w.rd + offset..w.rd + offset + size]
  {
  }
}
