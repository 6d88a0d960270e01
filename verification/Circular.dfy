/**
  tw_safeCircular: a bounded queue in an array that can be reversed in place. Its semaphore counts the
  free places; every method is one critical section of it. The meaning of the ring is a sequence.
 */
module Circular {
  import opened Options

  datatype Op<T> = Add(d: T) | Remove | Reverse | Clear

  /** What a call hands back: whether it took or gave an item, and the item given. */
  datatype Reply<T> = Added(ok: bool) | Removed(item: Option<T>) | Done

  function Reversed<T>(s: seq<T>): (r: seq<T>)
    ensures |r| == |s| && forall i :: 0 <= i < |s| ==> r[i] == s[|s| - 1 - i]
  {
    seq(|s|, i requires 0 <= i < |s| => s[|s| - 1 - i])
  }

  /** The bounded sequence the ring stands for, one operation at a time. */
  function Apply<T>(items: seq<T>, size: nat, op: Op<T>): (seq<T>, Reply<T>) {
    match op
    case Add(d) => if |items| < size then (items + [d], Added(true)) else (items, Added(false))
    case Remove => if items == [] then (items, Removed(None)) else (items[1..], Removed(Some(items[0])))
    case Reverse => (Reversed(items), Done)
    case Clear => ([], Done)
  }

  class SafeCircular<T(0)> {
    var isObjects: bool
    var backward: bool
    var room: nat
    var enabled: bool
    var nextIn: int
    var nextOut: int
    var size: nat
    var data: array<T>

    /** The place k steps from the exit, in the direction the ring is read. */
    ghost function Slot(k: nat): (p: int)
      reads this
      requires k < size && 0 <= nextOut < size
      ensures 0 <= p < size
    {
      if backward then
        if nextOut - k < 0 then nextOut - k + size else nextOut - k
      else
        if nextOut + k >= size then nextOut + k - size else nextOut + k
    }

    ghost function Remain(): int
      reads this
    {
      size - room
    }

    ghost predicate Valid()
      reads this
    {
      && data.Length == size && room <= size
      && (room == size ==> nextIn == -1 && nextOut == 0 && (backward ==> size <= 1))
      && (room < size ==> 0 <= nextOut < size && nextIn == Slot(Remain() - 1))
    }

    ghost function Items(): (s: seq<T>)
      requires Valid()
      reads this, data
      ensures |s| == Remain()
    {
      seq(Remain(), k requires 0 <= k < Remain() && Valid() reads this, data => data[Slot(k)])
    }

    constructor (size: nat, initObj: bool)
      ensures Valid() && fresh(data) && this.size == size && isObjects == initObj && Items() == []
    {
      isObjects := initObj;
      backward, room, enabled, nextIn, nextOut := false, size, true, -1, 0;
      this.size := size;
      data := new T[size];
    }

    function NextNextIn(): int
      reads this
    {
      if backward then
        if nextIn - 1 < 0 then size - 1 else nextIn - 1
      else
        if nextIn + 1 >= size then 0 else nextIn + 1
    }

    function NextNextOut(): int
      reads this
    {
      if backward then
        if nextOut - 1 < 0 then size - 1 else nextOut - 1
      else
        if nextOut + 1 >= size then 0 else nextOut + 1
    }

    method AddIfRoom(d: T) returns (ok: bool)
      requires Valid()
      modifies this`room, this`nextIn, data
      ensures Valid()
      ensures (Items(), Added(ok)) == Apply(old(Items()), size, Add(d))
    {
      ok := false;
      if room > 0 {
        room := room - 1;
        nextIn := NextNextIn();
        data[nextIn] := d;
        ok := true;
        assert Items() == old(Items()) + [d];
      }
    }

    method Remove() returns (fill: Option<T>)
      requires Valid()
      modifies this`room, this`nextIn, this`nextOut, this`backward
      ensures Valid()
      ensures (Items(), Removed(fill)) == Apply(old(Items()), size, Op.Remove)
    {
      fill := None;
      var r := size - room;
      if r > 0 {
        room := room + 1;
        fill := Some(data[nextOut]);
        nextOut := NextNextOut();
        if r == 1 {
          nextIn, nextOut, backward := -1, 0, false;
        }
        assert Items() == old(Items())[1..];
      }
    }

    method Reverse()
      requires Valid()
      modifies this`backward, this`nextIn, this`nextOut
      ensures Valid()
      ensures (Items(), Done) == Apply(old(Items()), size, Op.Reverse)
    {
      if size - room < 1 {
        return;
      }
      backward := !backward;
      nextOut, nextIn := nextIn, nextOut;
      assert Items() == Reversed(old(Items()));
    }

    method Clear()
      requires Valid()
      modifies this`room, this`nextIn, this`nextOut, this`backward, this`enabled
      ensures Valid() && enabled
      ensures (Items(), Done) == Apply(old(Items()), size, Op.Clear)
    {
      nextIn, nextOut, backward, enabled := -1, 0, false, true;
      room := size;
    }

    /**
      cloneFrom: a copy that shares nothing with the other ring. The elements are copied only when the
      other ring holds objects; otherwise its places hold whatever the new memory holds.
     */
    method CloneFrom(other: SafeCircular<T>)
      requires other.Valid() && other != this
      modifies this
      ensures Valid() && fresh(data) && size == other.size && enabled == other.enabled && isObjects == other.isObjects
      ensures |Items()| == |other.Items()|
      ensures isObjects ==> Items() == other.Items()
    {
      hide *;
      SameLength(other);
      room, nextIn, nextOut, size := other.room, other.nextIn, other.nextOut, other.size;
      isObjects, backward, enabled := other.isObjects, other.backward, other.enabled;
      data := new T[size];
      if isObjects {
        forall n | 0 <= n < size { data[n] := other.data[n]; }
      }
      SameState(other);
    }

    static lemma SameLength(other: SafeCircular<T>)
      requires other.Valid()
      ensures other.data.Length == other.size
    {
    }

    lemma SameState(other: SafeCircular<T>)
      requires other.Valid() && data.Length == size == other.size && room == other.room && backward == other.backward
      requires nextIn == other.nextIn && nextOut == other.nextOut
      ensures Valid() && |Items()| == |other.Items()|
      ensures data[..] == other.data[..] ==> Items() == other.Items()
    {
      if data[..] == other.data[..] {
        forall k: nat | k < Remain() ensures data[Slot(k)] == other.data[other.Slot(k)] {
          assert data[..][Slot(k)] == other.data[..][Slot(k)];
        }
      }
    }

    /**
      transferFrom: as cloneFrom, and the other ring is set back to empty, all but its direction. It is fit
      for use afterwards exactly when it was not reversed (or cannot hold two items).
     */
    method TransferFrom(other: SafeCircular<T>)
      requires other.Valid() && other != this
      modifies this, other`room, other`nextIn, other`nextOut
      ensures Valid() && fresh(data) && size == other.size && enabled == other.enabled && isObjects == other.isObjects
      ensures |Items()| == |old(other.Items())|
      ensures isObjects ==> Items() == old(other.Items())
      ensures other.Emptied()
      ensures other.Valid() <==> !other.backward || other.size <= 1
    {
      CloneFrom(other);
      other.room, other.nextIn, other.nextOut := other.size, -1, 0;
    }

    ghost predicate Emptied()
      reads this
    {
      data.Length == size == room && nextIn == -1 && nextOut == 0
    }

    /** In a ring so emptied the next item is put where it will be read exactly when the ring is fit for use. */
    lemma PutWhereRead()
      requires Emptied() && size > 0
      ensures NextNextIn() == nextOut <==> Valid()
    {
    }

    /** The place get and set work out for item n, walking up from the exit or, in a reversed ring, the entry. */
    method Place(n: nat) returns (p: int)
      requires Valid() && n < Remain()
      ensures p == Walked(n)
    {
      var c := 0;
      p := nextOut - 1;
      if backward {
        p := nextIn - 2;
        if p < 0 { p := size - 1; }
      }
      p := p + 1;
      while c != n
        invariant 0 <= c <= n && p == Walked(c)
        decreases n - c
      {
        if p >= size { p := 0; }
        p, c := p + 1, c + 1;
      }
    }

    ghost function Walked(n: nat): int
      reads this
    {
      var start := if !backward then nextOut else if nextIn < 2 then size else nextIn - 1;
      if start + n <= size then start + n else start + n - size
    }

    /** In a ring that runs forward it is the right place exactly when the walk does not end at the wrap. */
    lemma PlaceForward(n: nat)
      requires Valid() && n < Remain() && !backward
      ensures Walked(n) == Slot(n) <==> nextOut + n != size
      ensures nextOut + n == size ==> Walked(n) == data.Length
    {
    }

    /**
      In a reversed ring the walk still goes up, from the entry: it meets the items in the wrong order and is
      right only where the two orders cross, and it too may end one past the array.
     */
    lemma PlaceBackward(n: nat)
      requires Valid() && n < Remain() && backward
      ensures Walked(n) == Slot(n) <==>
        Walked(n) < size && if nextIn == 0 then 2 * n == Remain() - 1 else 2 * n == Remain() || (n == 0 && room == 0)
      ensures Walked(n) == data.Length <==> if nextIn < 2 then n == 0 else nextIn - 1 + n == size
    {
    }
  }

  // ----- whole runs -----

  /** A run of operations: the items left, and the replies. */
  function ApplyAll<T>(items: seq<T>, size: nat, ops: seq<Op<T>>): (seq<T>, seq<Reply<T>>)
    decreases |ops|
  {
    if ops == [] then (items, [])
    else
      var (next, reply) := Apply(items, size, ops[0]);
      var (last, replies) := ApplyAll(next, size, ops[1..]);
      (last, [reply] + replies)
  }

  /** The same operations on a sequence that never moves: a reversed ring is entered and left at the other ends. */
  function Turned<T>(items: seq<T>, flipped: bool, size: nat, op: Op<T>): (seq<T>, bool, Reply<T>) {
    match op
    case Add(d) =>
      if |items| >= size then (items, flipped, Added(false))
      else if flipped then ([d] + items, flipped, Added(true))
      else (items + [d], flipped, Added(true))
    case Remove =>
      if items == [] then (items, flipped, Removed(None))
      else if flipped then (items[..|items| - 1], flipped, Removed(Some(items[|items| - 1])))
      else (items[1..], flipped, Removed(Some(items[0])))
    case Reverse => (items, !flipped, Done)
    case Clear => ([], flipped, Done)
  }

  function TurnedAll<T>(items: seq<T>, flipped: bool, size: nat, ops: seq<Op<T>>): (seq<T>, bool, seq<Reply<T>>)
    decreases |ops|
  {
    if ops == [] then (items, flipped, [])
    else
      var (next, now, reply) := Turned(items, flipped, size, ops[0]);
      var (last, end, replies) := TurnedAll(next, now, size, ops[1..]);
      (last, end, [reply] + replies)
  }

  function Seen<T>(items: seq<T>, flipped: bool): seq<T> {
    if flipped then Reversed(items) else items
  }

  lemma TurnedStep<T>(items: seq<T>, flipped: bool, size: nat, op: Op<T>)
    ensures var (next, now, reply) := Turned(items, flipped, size, op);
      Apply(Seen(items, flipped), size, op) == (Seen(next, now), reply)
  {
    if flipped {
      var seen := Reversed(items);
      match op
      case Add(d) => assert seen + [d] == Reversed([d] + items);
      case Remove => if items != [] { assert seen[1..] == Reversed(items[..|items| - 1]); }
      case Reverse => assert Reversed(seen) == items;
      case Clear =>
    }
  }

  /** Reversing in place is turning a double-ended queue around: every reply and the final items agree. */
  lemma {:induction false} RunsAgree<T>(items: seq<T>, flipped: bool, size: nat, ops: seq<Op<T>>)
    ensures var (last, end, replies) := TurnedAll(items, flipped, size, ops);
      ApplyAll(Seen(items, flipped), size, ops) == (Seen(last, end), replies)
    decreases |ops|
  {
    if ops != [] {
      var (next, now, reply) := Turned(items, flipped, size, ops[0]);
      TurnedStep(items, flipped, size, ops[0]);
      RunsAgree(next, now, size, ops[1..]);
    }
  }

  /** The item a call took in, and the item it gave out. */
  function TakenBy<T>(op: Op<T>, reply: Reply<T>): multiset<T> {
    if op.Add? && reply == Added(true) then multiset{op.d} else multiset{}
  }

  function GivenBy<T>(reply: Reply<T>): multiset<T> {
    if reply.Removed? && reply.item.Some? then multiset{reply.item.value} else multiset{}
  }

  function Taken<T>(ops: seq<Op<T>>, replies: seq<Reply<T>>): multiset<T>
    requires |ops| == |replies|
    decreases |ops|
  {
    if ops == [] then multiset{} else TakenBy(ops[0], replies[0]) + Taken(ops[1..], replies[1..])
  }

  function Given<T>(replies: seq<Reply<T>>): multiset<T> {
    if replies == [] then multiset{} else GivenBy(replies[0]) + Given(replies[1..])
  }

  lemma {:induction false} ReversedMultiset<T>(s: seq<T>)
    ensures multiset(Reversed(s)) == multiset(s)
  {
    if s != [] {
      ReversedMultiset(s[1..]);
      assert Reversed(s) == Reversed(s[1..]) + [s[0]];
      assert s == [s[0]] + s[1..];
    }
  }

  lemma ConservedStep<T>(items: seq<T>, size: nat, op: Op<T>)
    requires |items| <= size && !op.Clear?
    ensures var (next, reply) := Apply(items, size, op);
      |next| <= size && multiset(items) + TakenBy(op, reply) == GivenBy(reply) + multiset(next)
  {
    match op
    case Add(d) =>
      hide Reversed;
    case Remove =>
      hide Reversed;
      if items != [] { assert items == [items[0]] + items[1..]; }
    case Reverse =>
      ReversedMultiset(items);
      hide Reversed;
  }

  lemma Chain<T>(a: multiset<T>, b: multiset<T>, c: multiset<T>, t: multiset<T>, u: multiset<T>, g: multiset<T>, h: multiset<T>)
    requires a + t == g + b && b + u == h + c
    ensures a + (t + u) == (g + h) + c
  {
    assert a + (t + u) == (a + t) + u;
    assert (g + b) + u == g + (b + u);
    assert g + (h + c) == (g + h) + c;
  }

  /** Nothing is lost or made: without a clear, what was in it and what went in is what came out and what is left. */
  lemma {:induction false} Conserved<T>(items: seq<T>, size: nat, ops: seq<Op<T>>)
    requires |items| <= size && Clear !in ops
    ensures var (last, replies) := ApplyAll(items, size, ops);
      && |replies| == |ops| && |last| <= size
      && multiset(items) + Taken(ops, replies) == Given(replies) + multiset(last)
    decreases |ops|
  {
    if ops != [] {
      var (next, reply) := Apply(items, size, ops[0]);
      assert ops[0] in ops;
      ConservedStep(items, size, ops[0]);
      Conserved(next, size, ops[1..]);
      var (last, replies) := ApplyAll(next, size, ops[1..]);
      assert ([reply] + replies)[1..] == replies;
      hide Apply, TakenBy, GivenBy;
      Chain(multiset(items), multiset(next), multiset(last), TakenBy(ops[0], reply), Taken(ops[1..], replies),
            GivenBy(reply), Given(replies));
    }
  }

  /**
    Any run of the ring gives the replies and the items that the run on a sequence gives, and so those of a
    double-ended queue that is turned around; without a clear it loses and makes nothing.
   */
  method Run<T(0)>(ring: SafeCircular<T>, ops: seq<Op<T>>) returns (replies: seq<Reply<T>>)
    requires ring.Valid()
    modifies ring, ring.data
    ensures ring.Valid() && ring.size == old(ring.size) && ring.data == old(ring.data) && |replies| == |ops|
    ensures (ring.Items(), replies) == ApplyAll(old(ring.Items()), ring.size, ops)
    ensures var (last, end, rs) := TurnedAll(old(ring.Items()), false, ring.size, ops);
      ring.Items() == Seen(last, end) && replies == rs
    ensures Clear !in ops ==>
      multiset(old(ring.Items())) + Taken(ops, replies) == Given(replies) + multiset(ring.Items())
  {
    hide Apply, ApplyAll, Turned, TurnedAll, Taken, Given;
    replies := [];
    assert ops[0..] == ops;
    ghost var items, size := ring.Items(), ring.size;
    FromHere(replies, ApplyAll(items, size, ops));
    for i := 0 to |ops|
      invariant ring.Valid() && ring.size == size && ring.data == old(ring.data)
      invariant ApplyAll(items, size, ops) == Behind(replies, ApplyAll(ring.Items(), size, ops[i..]))
    {
      NextOp(replies, ring.Items(), size, ops, i);
      var reply := Perform(ring, ops[i]);
      replies := replies + [reply];
    }
    assert ops[|ops|..] == [];
    NoOps(replies, ring.Items(), size);
    RunsAgree(items, false, size, ops);
    if Clear !in ops { Conserved(items, size, ops); }
    RepliesToAll(items, size, ops);
  }

  method Perform<T(0)>(ring: SafeCircular<T>, op: Op<T>) returns (reply: Reply<T>)
    requires ring.Valid()
    modifies ring, ring.data
    ensures ring.Valid() && ring.size == old(ring.size) && ring.data == old(ring.data)
    ensures (ring.Items(), reply) == Apply(old(ring.Items()), ring.size, op)
  {
    hide Apply;
    reply := Done;
    match op {
      case Add(d) =>
        var ok := ring.AddIfRoom(d);
        reply := Added(ok);
      case Remove =>
        var fill := ring.Remove();
        reply := Removed(fill);
      case Reverse => ring.Reverse();
      case Clear => ring.Clear();
    }
  }

  /** A run with the replies before it put in front. */
  function Behind<T>(replies: seq<Reply<T>>, run: (seq<T>, seq<Reply<T>>)): (seq<T>, seq<Reply<T>>) {
    (run.0, replies + run.1)
  }

  lemma FromHere<T>(replies: seq<Reply<T>>, run: (seq<T>, seq<Reply<T>>))
    requires replies == []
    ensures Behind(replies, run) == run
  {
    assert replies + run.1 == run.1;
  }

  lemma NextOp<T>(replies: seq<Reply<T>>, items: seq<T>, size: nat, ops: seq<Op<T>>, i: nat)
    requires i < |ops|
    ensures var (next, reply) := Apply(items, size, ops[i]);
      Behind(replies, ApplyAll(items, size, ops[i..])) == Behind(replies + [reply], ApplyAll(next, size, ops[i + 1..]))
  {
    hide Apply;
    var (next, reply) := Apply(items, size, ops[i]);
    assert ops[i..][1..] == ops[i + 1..];
    var rest := ApplyAll(next, size, ops[i + 1..]).1;
    assert replies + ([reply] + rest) == replies + [reply] + rest;
  }

  lemma NoOps<T>(replies: seq<Reply<T>>, items: seq<T>, size: nat)
    ensures Behind(replies, ApplyAll(items, size, [])) == (items, replies)
  {
    assert replies + [] == replies;
  }

  lemma {:induction false} RepliesToAll<T>(items: seq<T>, size: nat, ops: seq<Op<T>>)
    ensures |ApplyAll(items, size, ops).1| == |ops|
    decreases |ops|
  {
    hide Apply;
    if ops != [] { RepliesToAll(Apply(items, size, ops[0]).0, size, ops[1..]); }
  }
}
