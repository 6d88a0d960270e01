/**
  tw_safeFIFOmv: a linked-list queue under one mutex and one condition variable. Each method of the
  class is one critical section; what a section does to the queue is also a function on values, which
  the thread interleavings of module FifoThreads use.
 */
module Fifo {
  import opened Options

  /** What the mutex protects: the queued items, the hand-kept count of blocked calls, and the switch. */
  datatype Core<T> = Core(items: seq<T>, blockCnt: nat, enabled: bool)

  /** add: the section before the call of unblock. */
  function AddTo<T>(c: Core<T>, d: T): Core<T> {
    if c.enabled then c.(items := c.items + [d]) else c
  }

  /** remove, and the end of removeOrBlock: the first item, if there is one. */
  function TakeFrom<T>(c: Core<T>): (Core<T>, Option<T>) {
    if c.items == [] then (c, None) else (c.(items := c.items[1..]), Some(c.items[0]))
  }

  /** unblock: whether the condition is signalled. */
  function Unblock<T>(c: Core<T>): (Core<T>, bool) {
    if c.blockCnt > 0 then (c.(blockCnt := c.blockCnt - 1), true) else (c, false)
  }

  /** unblockAll: whether the condition is broadcast. */
  function UnblockAll<T>(c: Core<T>): (Core<T>, bool) {
    (c.(blockCnt := 0), c.blockCnt > 0)
  }

  class Link<T> {
    var d: T
    var next: Link?<T>

    constructor (d: T)
      ensures this.d == d && next == null
    {
      this.d := d;
      next := null;
    }
  }

  class SafeFifo<T> {
    var in_: Link?<T>
    var out_: Link?<T>
    var remain: int
    var blockCnt: nat
    var enabled: bool
    ghost var links: seq<Link<T>>
    ghost var items: seq<T>

    ghost predicate Valid()
      reads this, links
    {
      && Linked()
      && in_ == (if links == [] then null else links[|links| - 1])
    }

    /** The links in order, apart from the pointer to the last one. */
    ghost predicate Linked()
      reads this, links
    {
      && out_ == (if links == [] then null else links[0])
      && remain == |links| == |items|
      && (forall i :: 0 <= i < |links| ==> links[i].d == items[i])
      && (forall i {:trigger links[i].next} :: 0 <= i < |links| - 1 ==> links[i].next == links[i + 1])
      && (links != [] ==> links[|links| - 1].next == null)
      && (forall i, j :: 0 <= i < j < |links| ==> links[i] != links[j])
    }

    ghost function Abs(): Core<T>
      reads this
    {
      Core(items, blockCnt, enabled)
    }

    constructor ()
      ensures Valid() && Abs() == Core([], 0, true) && fresh(links)
    {
      in_, out_, remain, blockCnt, enabled := null, null, 0, 0, true;
      links, items := [], [];
    }

    /** enable and disable */
    method SetEnabled(on: bool)
      requires Valid()
      modifies this`enabled
      ensures Valid() && Abs() == old(Abs()).(enabled := on) && links == old(links)
    {
      enabled := on;
    }

    /** add, up to the release of the mutex. The new link is made before the mutex is taken. */
    method Add(d: T)
      requires Valid()
      modifies this, links
      ensures Valid() && Abs() == AddTo(old(Abs()), d)
      ensures forall l :: l in links && l !in old(links) ==> fresh(l)
    {
      var newlink := new Link(d);
      if enabled {
        Append(newlink);
      }
    }

    /** addEmpty: as add, with a default item; the pointer returned leads to the item just queued. */
    method AddEmpty(blank: T) returns (newlink: Link?<T>)
      requires Valid()
      modifies this, links
      ensures Valid() && Abs() == AddTo(old(Abs()), blank)
      ensures newlink != null <==> enabled
      ensures newlink != null ==> links == old(links) + [newlink]
      ensures forall l :: l in links && l !in old(links) ==> fresh(l)
    {
      newlink := null;
      if enabled {
        newlink := new Link(blank);
        Append(newlink);
      }
    }

    /** The link becomes the last one. */
    method Append(newlink: Link<T>)
      requires Valid() && newlink !in links && newlink.next == null
      modifies this`in_, this`out_, this`remain, this`links, this`items, links
      ensures Valid() && links == old(links) + [newlink] && items == old(items) + [newlink.d]
      ensures newlink.d == old(newlink.d)
    {
      ghost var before := links;
      if in_ != null { in_.next := newlink; }
      in_ := newlink;
      if out_ == null { out_ := in_; }
      remain := remain + 1;
      links, items := links + [newlink], items + [newlink.d];
      assert forall i :: 0 <= i < |before| ==> links[i] == before[i];
    }

    /** addToHead, up to the release of the mutex. */
    method AddToHead(d: T)
      requires Valid()
      modifies this, links
      ensures Valid()
      ensures Abs() == if old(enabled) then old(Abs()).(items := [d] + old(items)) else old(Abs())
    {
      if enabled {
        var newlink := new Link(d);
        Prepend(newlink);
      }
    }

    /** The link becomes the first one. */
    method Prepend(newlink: Link<T>)
      requires Valid() && newlink !in links && newlink.next == null
      modifies this`in_, this`out_, this`remain, this`links, this`items, newlink
      ensures Valid() && links == [newlink] + old(links) && items == [newlink.d] + old(items)
      ensures newlink.d == old(newlink.d)
    {
      ghost var before := links;
      if out_ == null {
        out_ := newlink;
      } else {
        newlink.next := out_;
        out_ := newlink;
      }
      if in_ == null { in_ := out_; }
      remain := remain + 1;
      links, items := [newlink] + links, [newlink.d] + items;
      assert forall i :: 1 <= i < |links| ==> links[i] == before[i - 1];
      assert forall i {:trigger links[i].next} :: 1 <= i < |links| - 1 ==> links[i].next == before[i - 1].next == before[i];
    }

    /** The part remove and removeOrBlock share: it forgets the last link before it takes the only one. */
    method TakeOut() returns (fill: Option<T>)
      requires Linked() && (Valid() || (|links| == 1 && in_ == null))
      modifies this
      ensures Valid() && (Abs(), fill) == TakeFrom(old(Abs()))
      ensures links == if old(links) == [] then [] else old(links)[1..]
    {
      fill := None;
      if in_ == out_ { in_ := null; }
      if out_ != null {
        fill := Some(out_.d);
        ghost var before := links;
        out_ := out_.next;
        links, items := links[1..], items[1..];
        remain := remain - 1;
        assert forall i :: 0 <= i < |links| ==> links[i] == before[i + 1];
      }
    }

    /** remove */
    method Remove() returns (fill: Option<T>)
      requires Valid()
      modifies this
      ensures Valid() && (Abs(), fill) == TakeFrom(old(Abs()))
    {
      fill := TakeOut();
    }

    /** removeOrBlock, up to the wait or, when there is an item, to the end. */
    method RemoveOrWait() returns (waits: bool, fill: Option<T>)
      requires Valid()
      modifies this
      ensures Valid() && (waits <==> old(items) == [])
      ensures waits ==> fill == None && Abs() == old(Abs()).(blockCnt := old(blockCnt) + 1)
      ensures !waits ==> (Abs(), fill) == TakeFrom(old(Abs()))
    {
      if in_ == out_ { in_ := null; }
      if out_ == null {
        blockCnt := blockCnt + 1;
        return true, None;
      }
      fill := TakeOut();
      waits := false;
    }

    /** removeOrBlock, from the return of the wait to the end: what is there then, if anything. */
    method RemoveAfterWait() returns (fill: Option<T>)
      requires Valid()
      modifies this
      ensures Valid() && (Abs(), fill) == TakeFrom(old(Abs()))
    {
      fill := TakeOut();
    }

    /** unblock */
    method UnblockOne() returns (signal: bool)
      requires Valid()
      modifies this`blockCnt
      ensures Valid() && (Abs(), signal) == Unblock(old(Abs()))
    {
      signal := blockCnt > 0;
      if blockCnt > 0 { blockCnt := blockCnt - 1; }
    }

    /** unblockAll */
    method UnblockEvery() returns (broadcast: bool)
      requires Valid()
      modifies this`blockCnt
      ensures Valid() && (Abs(), broadcast) == UnblockAll(old(Abs()))
    {
      broadcast := blockCnt > 0;
      if blockCnt > 0 { blockCnt := 0; }
    }

    /** clearAll, up to the release of the mutex. */
    method Clear()
      requires Valid()
      modifies this
      ensures Valid() && Abs() == old(Abs()).(items := [])
    {
      while out_ != null
        invariant Linked() && blockCnt == old(blockCnt) && enabled == old(enabled)
        decreases |links|
      {
        ghost var before := links;
        var n := out_.next;
        out_ := n;
        remain := remain - 1;
        links, items := links[1..], items[1..];
        assert forall i :: 0 <= i < |links| ==> links[i] == before[i + 1];
      }
      out_ := null;
      in_ := null;
      remain := 0;
    }
  }
}
