/**
  The netlink socket's requests: sequence numbers for what is sent, the splitting of one received buffer
  into replies, with its length check in 32 bits, and their delivery. Sections 2.2 and 2.3.2 of RFC 3549
  give the header and its alignment.
 */
module NlSocket {
  import opened Bytes
  import opened Options
  import opened Words

  const NLMSG_HDRLEN: nat := 16
  const NLMSG_ERROR: nat := 2
  const NLMSGERR_LEN: nat := 20

  function LE32(n: nat): (r: seq<Byte>)
    ensures |r| == 4
  {
    LE16(n) + LE16(n / TWO_TO_THE_16)
  }

  // ----- a reference for the splitting -----

  /** The frames of a buffer, and the header at which it breaks off, if one gives a length that does not fit. */
  datatype Walk = Walk(frames: seq<seq<Byte>>, stuck: Option<seq<Byte>>)

  /** Frame after frame, each of the length its header gives, at multiples of four. */
  function Frames(bs: seq<Byte>): Walk
    decreases |bs|
  {
    if |bs| < NLMSG_HDRLEN then Walk([], None)
    else
      var n := Read32(bs, 0);
      if n < NLMSG_HDRLEN || n > |bs| then Walk([], Some(bs[..NLMSG_HDRLEN]))
      else
        var rest := Frames(if n + Pad(n) <= |bs| then bs[n + Pad(n)..] else []);
        Walk([bs[..n]] + rest.frames, rest.stuck)
  }

  predicate WellFormed(m: seq<Byte>) {
    |m| >= NLMSG_HDRLEN && Read32(m, 0) == |m|
  }

  /** Messages laid out one after the other, each but the last padded. */
  function Join(ms: seq<seq<Byte>>): seq<Byte> {
    if ms == [] then [] else if |ms| == 1 then ms[0] else ms[0] + Zeros(Pad(|ms[0]|)) + Join(ms[1..])
  }

  lemma FramesFirst(m: seq<Byte>, gap: nat, rest: seq<Byte>)
    requires WellFormed(m) && (gap == Pad(|m|) || (rest == [] && gap == 0))
    ensures Frames(m + Zeros(gap) + rest) == Walk([m] + Frames(rest).frames, Frames(rest).stuck)
  {
    var bs := m + Zeros(gap) + rest;
    HeaderOfFirst(m, Zeros(gap) + rest);
    assert bs == m + (Zeros(gap) + rest);
    assert bs[..|m|] == m;
    hide Zeros, Read32;
    if gap == Pad(|m|) {
      assert bs[|m| + gap..] == rest;
    } else {
      assert |bs| == |m| && rest == [];
    }
    hide Pad;
  }

  /** Any list of messages in one buffer is split into exactly those messages. */
  lemma {:induction false} FramesOfJoin(ms: seq<seq<Byte>>)
    requires forall m :: m in ms ==> WellFormed(m)
    ensures Frames(Join(ms)) == Walk(ms, None)
  {
    if ms != [] {
      var m := ms[0];
      assert m in ms && forall x :: x in ms[1..] ==> x in ms;
      assert ms == [m] + ms[1..];
      FramesOfJoin(ms[1..]);
      assert Frames([]) == Walk([], None);
      hide Frames, Zeros, Pad, WellFormed;
      if |ms| == 1 {
        FramesFirst(m, 0, []);
        NoZeros(m);
        assert ms[1..] == [];
      } else {
        FramesFirst(m, Pad(|m|), Join(ms[1..]));
      }
    }
  }

  lemma NoZeros(m: seq<Byte>)
    ensures m + Zeros(0) + [] == m
  {
  }

  lemma HeaderOfFirst(m: seq<Byte>, rest: seq<Byte>)
    requires |m| >= NLMSG_HDRLEN
    ensures Read32(m + rest, 0) == Read32(m, 0)
  {
  }

  // ----- requests -----

  datatype Trouble = Truncated | ErrorTruncated | Errno(code: nat)

  datatype Reply = Reply(bytes: seq<Byte>, isErr: bool)

  function SeqOf(frame: seq<Byte>): nat
    requires |frame| >= NLMSG_HDRLEN
  {
    Read32(frame, 8)
  }

  function TypeOf(frame: seq<Byte>): nat
    requires |frame| >= NLMSG_HDRLEN
  {
    Read16(frame, 4)
  }

  /** Messages of the kernel all count; others only when they answer this request. */
  predicate Accepted(frame: seq<Byte>, pid: nat, first: nat, last: nat)
    requires |frame| >= NLMSG_HDRLEN
  {
    pid == 0 || first <= SeqOf(frame) <= last
  }

  /** What an error message says: an error number, none (an acknowledgement), or too few bytes. */
  function TroubleOf(frame: seq<Byte>): (t: Option<Trouble>)
    requires |frame| >= NLMSG_HDRLEN
  {
    if TypeOf(frame) != NLMSG_ERROR then None
    else if |frame| - NLMSG_HDRLEN < NLMSGERR_LEN then Some(ErrorTruncated)
    else if Read32(frame, 16) != 0 then Some(Errno(Read32(frame, 16)))
    else None
  }

  function Replies(frames: seq<seq<Byte>>, pid: nat, first: nat, last: nat): (r: seq<Reply>)
    requires forall f :: f in frames ==> |f| >= NLMSG_HDRLEN
  {
    if frames == [] then []
    else
      var f := frames[0];
      assert f in frames && forall x :: x in frames[1..] ==> x in frames;
      (if Accepted(f, pid, first, last) then [Reply(f, TroubleOf(f).Some?)] else [])
      + Replies(frames[1..], pid, first, last)
  }

  /** The last trouble met, if any. */
  function LastTrouble(frames: seq<seq<Byte>>, pid: nat, first: nat, last: nat, before: Option<Trouble>): Option<Trouble>
    requires forall f :: f in frames ==> |f| >= NLMSG_HDRLEN
  {
    if frames == [] then before
    else
      var f := frames[0];
      assert f in frames && forall x :: x in frames[1..] ==> x in frames;
      LastTrouble(frames[1..], pid, first, last,
                  if Accepted(f, pid, first, last) && TroubleOf(f).Some? then TroubleOf(f) else before)
  }

  lemma {:induction false} FramesHaveHeaders(bs: seq<Byte>)
    ensures forall f :: f in Frames(bs).frames ==> |f| >= NLMSG_HDRLEN
    ensures Frames(bs).stuck.Some? ==> |Frames(bs).stuck.value| == NLMSG_HDRLEN
    decreases |bs|
  {
    if |bs| >= NLMSG_HDRLEN {
      var n := Read32(bs, 0);
      if NLMSG_HDRLEN <= n <= |bs| { FramesHaveHeaders(if n + Pad(n) <= |bs| then bs[n + Pad(n)..] else []); }
    }
  }

  class Socket {
    /** uint32_t seq */
    var nextSeq: Word

    constructor (start: Word)
      ensures nextSeq == start
    {
      nextSeq := start;
    }
  }

  class Request {
    const self: Socket
    var firstSeq: Word
    var lastSeq: Word
    var replies: int
    var replyQueue: seq<Reply>
    var err: Option<Trouble>

    constructor (s: Socket)
      ensures self == s && replies == 0 && replyQueue == [] && err == None
      ensures firstSeq == s.nextSeq && lastSeq == s.nextSeq
    {
      self := s;
      firstSeq, lastSeq := s.nextSeq, s.nextSeq;
      replies, replyQueue, err := 0, [], None;
    }

    /** do_sendmsg up to the call of sendmsg: consecutive sequence numbers go into the headers. */
    method NumberMessages(messages: seq<array<Byte>>)
      requires forall i :: 0 <= i < |messages| ==> messages[i].Length >= NLMSG_HDRLEN
      requires forall i, j :: 0 <= i < j < |messages| ==> messages[i] != messages[j]
      modifies this, self, set m | m in messages
      ensures firstSeq == old(self.nextSeq) && self.nextSeq == SeqAfter(old(self.nextSeq), |messages|)
      ensures lastSeq == if messages == [] then old(lastSeq) else SeqAfter(old(self.nextSeq), |messages| - 1)
      ensures forall i :: 0 <= i < |messages| ==>
        messages[i][..] == Numbered(old(messages[i][..]), SeqAfter(old(self.nextSeq), i))
      ensures replies == old(replies) && replyQueue == old(replyQueue) && err == old(err)
    {
      hide LE32, SeqAfter, Numbered;
      SeqSteps(self.nextSeq, 0);
      firstSeq := self.nextSeq;
      var x := 0;
      while x < |messages|
        invariant 0 <= x <= |messages|
        invariant firstSeq == old(self.nextSeq) && self.nextSeq == SeqAfter(old(self.nextSeq), x)
        invariant lastSeq == if x == 0 then old(lastSeq) else SeqAfter(old(self.nextSeq), x - 1)
        invariant forall i :: 0 <= i < x ==>
          messages[i][..] == Numbered(old(messages[i][..]), SeqAfter(old(self.nextSeq), i))
        invariant forall i :: x <= i < |messages| ==> messages[i][..] == old(messages[i][..])
        invariant replies == old(replies) && replyQueue == old(replyQueue) && err == old(err)
      {
        SeqSteps(old(self.nextSeq), x + 1);
        WriteSeq(messages[x], self.nextSeq);
        lastSeq := self.nextSeq;
        self.nextSeq := if self.nextSeq + 1 == TWO_TO_THE_32 then 0 else self.nextSeq + 1;
        x := x + 1;
      }
    }

    /** Every reply counted is a reply queued. */
    ghost predicate Valid()
      reads this
    {
      replies == |replyQueue|
    }

    /**
      do_recvmsg after recvmsg gave ret = |got| bytes from the sender pid. Frames are read where they stand; the
      length of each is checked in the signed 32 bits of an int. Where the check lets a length pass that wraps,
      and the frame is accepted, the copy would go past the end of what was received: pastTheEnd, with the
      replies and the trouble that the frames before it left.
     */
    method Receive(got: seq<Byte>, pid: nat) returns (pastTheEnd: bool)
      requires Valid() && |got| < TWO_TO_THE_31
      modifies this
      ensures Valid() && firstSeq == old(firstSeq) && lastSeq == old(lastSeq)
      ensures var r := Received(got, pid, firstSeq, lastSeq, old(err));
        replyQueue == old(replyQueue) + r.replies && err == r.trouble && pastTheEnd == r.pastTheEnd
    {
      hide Effect, Replies, LastTrouble, Frames, HeaderedFrames, TroubleOf, Accepted, Wraps, Read32, Pad, ToInt32, Behind, From;
      pastTheEnd := false;
      if |got| <= NLMSG_HDRLEN { return; }
      ghost var whole := Effect(got, pid, firstSeq, lastSeq, err);
      ghost var added: seq<Reply> := [];
      var ret: int, at := |got|, 0;
      AtStart(got, whole);
      while ret >= NLMSG_HDRLEN
        invariant ret == |got| - at && Valid()
        invariant firstSeq == old(firstSeq) && lastSeq == old(lastSeq) && !pastTheEnd
        invariant replyQueue == old(replyQueue) + added
        invariant whole == Behind(added, Effect(From(got, at), pid, firstSeq, lastSeq, err))
      {
        EffectSteps(got, at, pid, firstSeq, lastSeq, err);
        var n := Read32(got, at);
        LengthCheck(n, ret);
        var length := ToInt32(n);
        var msglen := ToInt32(length - NLMSG_HDRLEN);
        NoMore(added, Some(Truncated), false);
        NoMore(added, err, true);
        if msglen < 0 || length > ret {
          err := Some(Truncated);
          return;
        }
        if Accepted(got[at..at + NLMSG_HDRLEN], pid, firstSeq, lastSeq) {
          if length < 0 { return true; }
          var frame := got[at..at + length];
          replies := replies + 1;
          var trouble := TroubleOf(frame);
          var reply := Reply(frame, trouble.Some?);
          replyQueue := replyQueue + [reply];
          if trouble.Some? { err := trouble; }
          Grouped(added, reply, Effect(From(got, at + n + Pad(n)), pid, firstSeq, lastSeq, err));
          assert old(replyQueue) + (added + [reply]) == (old(replyQueue) + added) + [reply];
          added := added + [reply];
        }
        EffectSteps(got, at + n + Pad(n), pid, firstSeq, lastSeq, err);
        ret := ToInt32(ret - (n + Pad(n)));
        at := at + n + Pad(n);
      }
      EffectSteps(got, at, pid, firstSeq, lastSeq, err);
      NoMore(added, err, false);
    }

    /** post_recvmsg: without trouble every queued reply is handed over, in order and once. */
    method PostReplies() returns (ok: bool, bufs: seq<seq<Byte>>)
      requires Valid()
      modifies this
      ensures Valid() && ok == (err == None) && err == old(err)
      ensures ok ==> replyQueue == [] && replies == 0 && |bufs| == |old(replyQueue)|
      ensures ok ==> forall i :: 0 <= i < |bufs| ==> bufs[i] == old(replyQueue[i].bytes)
      ensures !ok ==> replyQueue == old(replyQueue) && bufs == []
    {
      bufs := [];
      ok := err == None;
      if !ok { return; }
      while replies != 0 && replyQueue != []
        invariant Valid() && err == old(err)
        invariant |bufs| <= |old(replyQueue)| && replyQueue == old(replyQueue)[|bufs|..]
        invariant forall i :: 0 <= i < |bufs| ==> bufs[i] == old(replyQueue[i].bytes)
        decreases |replyQueue|
      {
        bufs := bufs + [replyQueue[0].bytes];
        replyQueue := replyQueue[1..];
        replies := replies - 1;
      }
    }
  }

  /** What is left of the received bytes from a position that may lie behind their end. */
  function From(got: seq<Byte>, at: nat): seq<Byte> {
    if at <= |got| then got[at..] else []
  }

  /** What is left of n in a signed 32-bit int. */
  function ToInt32(n: int): (i: int)
    requires 0 - TWO_TO_THE_32 <= n < TWO_TO_THE_32
    ensures 0 - TWO_TO_THE_31 <= i < TWO_TO_THE_31 && (i == n || i == n + TWO_TO_THE_32 || i == n - TWO_TO_THE_32)
  {
    if n < 0 - TWO_TO_THE_31 then n + TWO_TO_THE_32 else if n >= TWO_TO_THE_31 then n - TWO_TO_THE_32 else n
  }

  function HeaderedFrames(bs: seq<Byte>): (w: Walk)
    ensures forall f :: f in w.frames ==> |f| >= NLMSG_HDRLEN
    ensures w.stuck.Some? ==> |w.stuck.value| == NLMSG_HDRLEN
  {
    FramesHaveHeaders(bs);
    Frames(bs)
  }

  /** Taking the header's length off the length that it gives leaves 32 bits. */
  predicate Wraps(header: seq<Byte>)
    requires |header| >= NLMSG_HDRLEN
  {
    TWO_TO_THE_31 <= Read32(header, 0) < TWO_TO_THE_31 + NLMSG_HDRLEN
  }

  /** The replies that a buffer adds, the trouble after it, and whether the copy of a frame goes past the end. */
  datatype Result = Result(replies: seq<Reply>, trouble: Option<Trouble>, pastTheEnd: bool)

  /** A buffer that breaks off at a header is truncated; one whose length wraps is copied, or passed over. */
  function Effect(bs: seq<Byte>, pid: nat, first: nat, last: nat, e: Option<Trouble>): Result {
    var w := HeaderedFrames(bs);
    var rs, t := Replies(w.frames, pid, first, last), LastTrouble(w.frames, pid, first, last, e);
    if w.stuck.None? then Result(rs, t, false)
    else if Wraps(w.stuck.value) then Result(rs, t, Accepted(w.stuck.value, pid, first, last))
    else Result(rs, Some(Truncated), false)
  }

  /** What do_recvmsg makes of a buffer: nothing of one with at most a header. */
  function Received(got: seq<Byte>, pid: nat, first: nat, last: nat, e: Option<Trouble>): Result {
    if |got| <= NLMSG_HDRLEN then Result([], e, false) else Effect(got, pid, first, last, e)
  }

  /** What it is meant to make of it: a length that does not fit the buffer is trouble, whatever the length. */
  function Meant(got: seq<Byte>, pid: nat, first: nat, last: nat, e: Option<Trouble>): Result {
    if |got| <= NLMSG_HDRLEN then Result([], e, false)
    else
      var w := HeaderedFrames(got);
      Result(Replies(w.frames, pid, first, last),
             if w.stuck.Some? then Some(Truncated) else LastTrouble(w.frames, pid, first, last, e), false)
  }

  function Behind(added: seq<Reply>, r: Result): Result {
    r.(replies := added + r.replies)
  }

  /** The check in signed 32 bits lets a length pass exactly when it fits, or lies in the sixteen from 2^31 on. */
  lemma LengthCheck(n: nat, ret: int)
    requires n < TWO_TO_THE_32 && NLMSG_HDRLEN <= ret < TWO_TO_THE_31
    ensures ToInt32(ToInt32(n) - NLMSG_HDRLEN) < 0 || ToInt32(n) > ret
        <==> (n < NLMSG_HDRLEN || n > ret) && !(TWO_TO_THE_31 <= n < TWO_TO_THE_31 + NLMSG_HDRLEN)
    ensures NLMSG_HDRLEN <= n <= ret ==> ToInt32(n) == n
    ensures TWO_TO_THE_31 <= n ==> ToInt32(n) < 0
    ensures n < TWO_TO_THE_31 + NLMSG_HDRLEN ==> ToInt32(ret - (n + Pad(n))) == ret - (n + Pad(n))
  {
  }

  lemma EffectIs(w: Walk, bs: seq<Byte>, pid: nat, first: nat, last: nat, e: Option<Trouble>)
    requires w == HeaderedFrames(bs)
    ensures Effect(bs, pid, first, last, e) ==
      var rs, t := Replies(w.frames, pid, first, last), LastTrouble(w.frames, pid, first, last, e);
      if w.stuck.None? then Result(rs, t, false)
      else if Wraps(w.stuck.value) then Result(rs, t, Accepted(w.stuck.value, pid, first, last))
      else Result(rs, Some(Truncated), false)
  {
    hide HeaderedFrames, Replies, LastTrouble, Wraps, Accepted;
  }

  /** The effect of a buffer whose frames begin with f. */
  lemma EffectFirst(bs: seq<Byte>, f: seq<Byte>, next: seq<Byte>, pid: nat, first: nat, last: nat, e: Option<Trouble>)
    requires |f| >= NLMSG_HDRLEN
    requires HeaderedFrames(bs) == Walk([f] + HeaderedFrames(next).frames, HeaderedFrames(next).stuck)
    ensures Effect(bs, pid, first, last, e) ==
      if Accepted(f, pid, first, last) then
        Behind([Reply(f, TroubleOf(f).Some?)], Effect(next, pid, first, last, if TroubleOf(f).Some? then TroubleOf(f) else e))
      else Effect(next, pid, first, last, e)
  {
    hide HeaderedFrames, Replies, LastTrouble, Effect, Accepted, TroubleOf, Wraps;
    var w, rest := HeaderedFrames(bs), HeaderedFrames(next);
    var e' := if Accepted(f, pid, first, last) && TroubleOf(f).Some? then TroubleOf(f) else e;
    EffectIs(w, bs, pid, first, last, e);
    EffectIs(rest, next, pid, first, last, e');
    RepliesSteps(w.frames, pid, first, last, e);
    assert w.frames[0] == f && w.frames[1..] == rest.frames;
    assert [] + Replies(rest.frames, pid, first, last) == Replies(rest.frames, pid, first, last);
  }

  /** One frame of a buffer. */
  lemma EffectSteps(got: seq<Byte>, at: nat, pid: nat, first: nat, last: nat, e: Option<Trouble>)
    ensures |got| - at < NLMSG_HDRLEN ==> Effect(From(got, at), pid, first, last, e) == Result([], e, false)
    ensures |got| - at >= NLMSG_HDRLEN ==>
      var n, h, now := Read32(got, at), got[at..at + NLMSG_HDRLEN], Effect(From(got, at), pid, first, last, e);
      if n < NLMSG_HDRLEN || n > |got| - at then
        now == if TWO_TO_THE_31 <= n < TWO_TO_THE_31 + NLMSG_HDRLEN then Result([], e, Accepted(h, pid, first, last))
               else Result([], Some(Truncated), false)
      else
        var f, next := got[at..at + n], From(got, at + n + Pad(n));
        && Accepted(f, pid, first, last) == Accepted(h, pid, first, last)
        && now == if Accepted(f, pid, first, last) then
             Behind([Reply(f, TroubleOf(f).Some?)],
                    Effect(next, pid, first, last, if TroubleOf(f).Some? then TroubleOf(f) else e))
           else Effect(next, pid, first, last, e)
  {
    hide HeaderedFrames, Replies, LastTrouble, Effect, Accepted, TroubleOf, Read32, Pad, Wraps, Behind, Frames;
    var bs := From(got, at);
    EffectEnds(bs, pid, first, last, e);
    if |got| - at >= NLMSG_HDRLEN {
      HeaderAt(got, at);
      var n := Read32(got, at);
      assert bs[..NLMSG_HDRLEN] == got[at..at + NLMSG_HDRLEN];
      if NLMSG_HDRLEN <= n <= |bs| {
        NextFrom(got, at, n + Pad(n));
        assert bs[..n] == got[at..at + n];
        HeaderDecides(got, at, n, pid, first, last);
        FramesSteps(bs);
        EffectFirst(bs, bs[..n], From(got, at + n + Pad(n)), pid, first, last, e);
      }
    }
  }

  /** A buffer that gives no frame. */
  lemma EffectEnds(bs: seq<Byte>, pid: nat, first: nat, last: nat, e: Option<Trouble>)
    ensures |bs| < NLMSG_HDRLEN ==> Effect(bs, pid, first, last, e) == Result([], e, false)
    ensures |bs| >= NLMSG_HDRLEN && (Read32(bs, 0) < NLMSG_HDRLEN || Read32(bs, 0) > |bs|) ==>
      Effect(bs, pid, first, last, e) ==
        if Wraps(bs[..NLMSG_HDRLEN]) then Result([], e, Accepted(bs[..NLMSG_HDRLEN], pid, first, last))
        else Result([], Some(Truncated), false)
  {
    hide HeaderedFrames, Replies, LastTrouble, Effect, Accepted, Read32, Pad, Wraps;
    FramesSteps(bs);
    EffectIs(HeaderedFrames(bs), bs, pid, first, last, e);
    RepliesSteps([], pid, first, last, e);
  }

  /** Whether a frame is accepted is in its header. */
  lemma HeaderDecides(got: seq<Byte>, at: nat, n: nat, pid: nat, first: nat, last: nat)
    requires NLMSG_HDRLEN <= n && at + n <= |got|
    ensures Accepted(got[at..at + n], pid, first, last) == Accepted(got[at..at + NLMSG_HDRLEN], pid, first, last)
  {
  }

  lemma AtStart(got: seq<Byte>, r: Result)
    ensures From(got, 0) == got && Behind([], r) == r
  {
    assert [] + r.replies == r.replies;
  }

  lemma NoMore(added: seq<Reply>, t: Option<Trouble>, past: bool)
    ensures Behind(added, Result([], t, past)) == Result(added, t, past)
  {
  }

  lemma Grouped(added: seq<Reply>, reply: Reply, r: Result)
    ensures Behind(added, Behind([reply], r)) == Behind(added + [reply], r)
  {
    assert added + ([reply] + r.replies) == (added + [reply]) + r.replies;
  }

  lemma HeaderAt(got: seq<Byte>, at: nat)
    requires at + NLMSG_HDRLEN <= |got|
    ensures Read32(From(got, at), 0) == Read32(got, at)
    ensures Wraps(got[at..at + NLMSG_HDRLEN]) <==> TWO_TO_THE_31 <= Read32(got, at) < TWO_TO_THE_31 + NLMSG_HDRLEN
  {
  }

  lemma NextFrom(got: seq<Byte>, at: nat, n: nat)
    requires at <= |got|
    ensures From(got, at + n) == if n <= |From(got, at)| then From(got, at)[n..] else []
  {
  }

  lemma FramesSteps(bs: seq<Byte>)
    ensures |bs| < NLMSG_HDRLEN ==> HeaderedFrames(bs) == Walk([], None)
    ensures |bs| >= NLMSG_HDRLEN ==>
      var n := Read32(bs, 0);
      if n < NLMSG_HDRLEN || n > |bs| then HeaderedFrames(bs) == Walk([], Some(bs[..NLMSG_HDRLEN]))
      else
        var rest := HeaderedFrames(if n + Pad(n) <= |bs| then bs[n + Pad(n)..] else []);
        HeaderedFrames(bs) == Walk([bs[..n]] + rest.frames, rest.stuck)
  {
    hide Read32, Pad;
  }

  lemma RepliesSteps(frames: seq<seq<Byte>>, pid: nat, first: nat, last: nat, e: Option<Trouble>)
    requires forall f :: f in frames ==> |f| >= NLMSG_HDRLEN
    ensures Replies([], pid, first, last) == [] && LastTrouble([], pid, first, last, e) == e
    ensures frames != [] ==>
      var f := frames[0];
      && (f in frames && forall x :: x in frames[1..] ==> x in frames)
      && Replies(frames, pid, first, last) ==
         (if Accepted(f, pid, first, last) then [Reply(f, TroubleOf(f).Some?)] else [])
         + Replies(frames[1..], pid, first, last)
      && LastTrouble(frames, pid, first, last, e) ==
         LastTrouble(frames[1..], pid, first, last,
                     if Accepted(f, pid, first, last) && TroubleOf(f).Some? then TroubleOf(f) else e)
  {
    if frames != [] { assert forall x :: x in frames[1..] ==> x in frames; }
    hide Accepted, TroubleOf;
  }

  /** seq++ n times, in 32 bits */
  function SeqAfter(s: Word, n: nat): Word {
    if n == 0 then s
    else
      var p := SeqAfter(s, n - 1);
      if p + 1 == TWO_TO_THE_32 then 0 else p + 1
  }

  lemma SeqSteps(s: Word, n: nat)
    ensures n == 0 ==> SeqAfter(s, n) == s
    ensures n > 0 ==> var p := SeqAfter(s, n - 1); SeqAfter(s, n) == if p + 1 == TWO_TO_THE_32 then 0 else p + 1
  {
  }

  /** A message with the sequence number n in its header. */
  function Numbered(m: seq<Byte>, n: Word): (r: seq<Byte>)
    requires |m| >= NLMSG_HDRLEN
    ensures |r| == |m|
  {
    m[..8] + LE32(n) + m[12..]
  }

  /** hdr.nlmsg_seq = n */
  method WriteSeq(m: array<Byte>, n: Word)
    requires m.Length >= NLMSG_HDRLEN
    modifies m
    ensures m[..] == Numbered(old(m[..]), n)
  {
    var le := LE32(n);
    m[8], m[9], m[10], m[11] := le[0], le[1], le[2], le[3];
    assert m[..] == m[..8] + m[8..12] + m[12..];
    assert m[8..12] == le;
  }

  // ----- replies -----

  /** What the kernel sends is queued message by message, whatever the window. */
  lemma {:induction false} KernelRepliesAll(ms: seq<seq<Byte>>, first: nat, last: nat)
    requires forall m :: m in ms ==> |m| >= NLMSG_HDRLEN
    ensures |Replies(ms, 0, first, last)| == |ms|
    ensures forall i :: 0 <= i < |ms| ==> Replies(ms, 0, first, last)[i].bytes == ms[i]
  {
    if ms != [] {
      RepliesSteps(ms, 0, first, last, None);
      KernelRepliesAll(ms[1..], first, last);
      hide Replies, TroubleOf;
    }
  }

  /** The reference walk over a buffer of kernel messages: a reply to each of them, in order. */
  lemma JoinedRepliesAll(ms: seq<seq<Byte>>, first: nat, last: nat, e: Option<Trouble>)
    requires forall m :: m in ms ==> WellFormed(m)
    ensures var r := Effect(Join(ms), 0, first, last, e).replies;
      |r| == |ms| && forall i :: 0 <= i < |ms| ==> r[i].bytes == ms[i]
  {
    FramesOfJoin(ms);
    KernelRepliesAll(ms, first, last);
    assert HeaderedFrames(Join(ms)) == Walk(ms, None);
    hide Frames, HeaderedFrames, Replies, LastTrouble, Join;
  }

  /**
    A received buffer of kernel messages adds one reply for each of them exactly when it is not one header
    and nothing more; such a buffer holds one message and adds no reply to it.
   */
  lemma HeaderOnlyDropped(ms: seq<seq<Byte>>, first: nat, last: nat, e: Option<Trouble>)
    requires forall m :: m in ms ==> WellFormed(m)
    ensures |Received(Join(ms), 0, first, last, e).replies| == |ms| <==> |Join(ms)| != NLMSG_HDRLEN
    ensures |Join(ms)| == NLMSG_HDRLEN ==> |ms| == 1 && Received(Join(ms), 0, first, last, e) == Result([], e, false)
    ensures |Join(ms)| != NLMSG_HDRLEN ==>
      forall i :: 0 <= i < |ms| ==> Received(Join(ms), 0, first, last, e).replies[i].bytes == ms[i]
  {
    hide Effect, Join, WellFormed;
    JoinedRepliesAll(ms, first, last, e);
    JoinSize(ms);
  }

  /** Well-formed messages, one after the other, take a header each at least. */
  lemma {:induction false} JoinSize(ms: seq<seq<Byte>>)
    requires forall m :: m in ms ==> WellFormed(m)
    ensures |Join(ms)| >= NLMSG_HDRLEN * |ms| && (ms == [] ==> Join(ms) == [])
  {
    if ms != [] {
      assert ms[0] in ms && forall m :: m in ms[1..] ==> m in ms;
      JoinSize(ms[1..]);
    }
  }

  // ----- messages by their layout -----

  /** The four bytes of a number from some place on, the least significant first. */
  lemma NumberAt(bs: seq<Byte>, at: nat)
    requires at + 4 <= |bs|
    ensures var a: int, b: int, c: int, d: int := bs[at], bs[at + 1], bs[at + 2], bs[at + 3];
      Read32(bs, at) == a + 0x100 * b + 0x1_0000 * c + 0x100_0000 * d
  {
  }

  lemma ReadBack(n: Word)
    ensures Read32(LE32(n), 0) == n
  {
    var a, b, c := n / 256, n / TWO_TO_THE_16, n / TWO_TO_THE_16 / 256;
    assert LE32(n) == [n % 256, a % 256, b % 256, c % 256];
    assert a % 256 == a - 256 * b && c < 256;
  }

  lemma ReadInside(front: seq<Byte>, n: Word, rest: seq<Byte>)
    ensures Read32(front + LE32(n) + rest, |front|) == n
  {
    ReadBack(n);
    assert (front + LE32(n) + rest)[|front|..|front| + 4] == LE32(n);
    hide LE32;
  }

  /** Numbering writes the number where it is read back, bytes 8 to 11, and changes no other byte. */
  lemma NumberedReads(m: seq<Byte>, n: Word)
    requires |m| >= NLMSG_HDRLEN
    ensures SeqOf(Numbered(m, n)) == n && TypeOf(Numbered(m, n)) == TypeOf(m) && Read32(Numbered(m, n), 0) == Read32(m, 0)
    ensures forall i :: 0 <= i < |m| && !(8 <= i < 12) ==> Numbered(m, n)[i] == m[i]
  {
    ReadInside(m[..8], n, m[12..]);
    hide LE32;
  }

  /** What a frame says is in its bytes: the type in 4 and 5, the error number in 16 to 19 of one that is long enough. */
  lemma TroubleInBytes(f: seq<Byte>)
    requires |f| >= NLMSG_HDRLEN
    ensures var t: int, u: int := f[4], f[5];
      && (t + 0x100 * u != 2 ==> TroubleOf(f) == None)
      && (t + 0x100 * u == 2 && |f| < 36 ==> TroubleOf(f) == Some(ErrorTruncated))
    ensures f[4] == 2 && f[5] == 0 && |f| >= 36 ==>
      var a: nat, b: nat, c: nat, d: nat := f[16], f[17], f[18], f[19];
      var e := a + 0x100 * b + 0x1_0000 * c + 0x100_0000 * d;
      TroubleOf(f) == if e == 0 then None else Some(Errno(e))
  {
    if |f| >= 36 { NumberAt(f, 16); }
    hide Read32;
  }

  /** A message: the header, a first number in the body, which is the error number of an error message, and a rest. */
  datatype Answer = Answer(typ: nat, flags: nat, seqNo: Word, pid: Word, first: Word, rest: seq<Byte>)

  predicate Sendable(a: Answer) {
    a.typ < TWO_TO_THE_16 && NLMSG_HDRLEN + 4 + |a.rest| < TWO_TO_THE_32
  }

  function Laying(a: Answer): seq<Byte>
    requires Sendable(a)
  {
    LE32(NLMSG_HDRLEN + 4 + |a.rest|) + LE16(a.typ) + LE16(a.flags) + LE32(a.seqNo) + LE32(a.pid) + LE32(a.first) + a.rest
  }

  /** An error message is trouble unless its number is zero and its body whole: number and echoed header, 20 bytes. */
  function TroubleIn(a: Answer): Option<Trouble> {
    if a.typ != 2 then None
    else if 4 + |a.rest| < 20 then Some(ErrorTruncated)
    else if a.first == 0 then None
    else Some(Errno(a.first))
  }

  lemma AnswerReads(a: Answer)
    requires Sendable(a)
    ensures WellFormed(Laying(a)) && |Laying(a)| == 20 + |a.rest| >= NLMSG_HDRLEN && SeqOf(Laying(a)) == a.seqNo
    ensures TroubleOf(Laying(a)) == TroubleIn(a)
  {
    var len := NLMSG_HDRLEN + 4 + |a.rest|;
    var m := Laying(a);
    var typ, flags := LE16(a.typ), LE16(a.flags);
    Read16LE16(a.typ);
    assert m[4] == typ[0] && m[5] == typ[1];
    assert m == [] + LE32(len) + (typ + flags + LE32(a.seqNo) + LE32(a.pid) + LE32(a.first) + a.rest);
    assert m == (LE32(len) + typ + flags) + LE32(a.seqNo) + (LE32(a.pid) + LE32(a.first) + a.rest);
    assert m == (LE32(len) + typ + flags + LE32(a.seqNo) + LE32(a.pid)) + LE32(a.first) + a.rest;
    hide LE32, LE16, Laying, Read32;
    ReadInside([], len, typ + flags + LE32(a.seqNo) + LE32(a.pid) + LE32(a.first) + a.rest);
    ReadInside(LE32(len) + typ + flags, a.seqNo, LE32(a.pid) + LE32(a.first) + a.rest);
    ReadInside(LE32(len) + typ + flags + LE32(a.seqNo) + LE32(a.pid), a.first, a.rest);
  }

  function AllLaid(answers: seq<Answer>): (ms: seq<seq<Byte>>)
    requires forall a :: a in answers ==> Sendable(a)
    ensures |ms| == |answers| && forall i :: 0 <= i < |ms| ==> ms[i] == Laying(answers[i])
  {
    seq(|answers|, i requires 0 <= i < |answers| => Laying(answers[i]))
  }

  /** The messages a request takes: all of the kernel's, of others those in its window. */
  predicate Taken(a: Answer, pid: nat, first: nat, last: nat) {
    pid == 0 || first <= a.seqNo <= last
  }

  /** The replies to it: the bytes of each message it takes, and whether that was trouble. */
  function RepliesFrom(answers: seq<Answer>, pid: nat, first: nat, last: nat): seq<Reply>
    requires forall a :: a in answers ==> Sendable(a)
  {
    if answers == [] then []
    else
      assert answers[0] in answers && forall a :: a in answers[1..] ==> a in answers;
      (if Taken(answers[0], pid, first, last) then [Reply(Laying(answers[0]), TroubleIn(answers[0]).Some?)] else [])
      + RepliesFrom(answers[1..], pid, first, last)
  }

  function TroubleFrom(answers: seq<Answer>, pid: nat, first: nat, last: nat, e: Option<Trouble>): Option<Trouble> {
    if answers == [] then e
    else
      TroubleFrom(answers[1..], pid, first, last,
                  if Taken(answers[0], pid, first, last) && TroubleIn(answers[0]).Some? then TroubleIn(answers[0]) else e)
  }

  lemma {:induction false} AnswersReply(answers: seq<Answer>, pid: nat, first: nat, last: nat, e: Option<Trouble>)
    requires forall a :: a in answers ==> Sendable(a)
    ensures forall m :: m in AllLaid(answers) ==> |m| >= NLMSG_HDRLEN
    ensures Replies(AllLaid(answers), pid, first, last) == RepliesFrom(answers, pid, first, last)
    ensures LastTrouble(AllLaid(answers), pid, first, last, e) == TroubleFrom(answers, pid, first, last, e)
  {
    hide *;
    AllWellFormed(answers);
    RepliesSteps(AllLaid(answers), pid, first, last, e);
    FromFirst(answers, pid, first, last, e);
    if answers != [] {
      var a, rest := answers[0], answers[1..];
      AnswerReads(a);
      LaidFirst(answers);
      TakenIs(a, pid, first, last);
      AnswersReply(rest, pid, first, last, if Taken(a, pid, first, last) && TroubleIn(a).Some? then TroubleIn(a) else e);
    }
  }

  lemma LaidFirst(answers: seq<Answer>)
    requires (forall a :: a in answers ==> Sendable(a)) && answers != []
    ensures forall x :: x in answers[1..] ==> x in answers
    ensures |AllLaid(answers)| == |answers| && AllLaid(answers)[0] == Laying(answers[0])
    ensures AllLaid(answers)[1..] == AllLaid(answers[1..])
  {
    hide Sendable, Laying;
  }

  lemma TakenIs(a: Answer, pid: nat, first: nat, last: nat)
    requires Sendable(a) && |Laying(a)| >= NLMSG_HDRLEN && SeqOf(Laying(a)) == a.seqNo
    ensures Accepted(Laying(a), pid, first, last) == Taken(a, pid, first, last)
  {
    hide Laying, SeqOf;
  }

  lemma FromFirst(answers: seq<Answer>, pid: nat, first: nat, last: nat, e: Option<Trouble>)
    requires forall a :: a in answers ==> Sendable(a)
    ensures answers == [] ==> RepliesFrom(answers, pid, first, last) == [] && TroubleFrom(answers, pid, first, last, e) == e
    ensures answers != [] ==>
      var a, rest := answers[0], answers[1..];
      && (a in answers && forall x :: x in rest ==> x in answers)
      && RepliesFrom(answers, pid, first, last)
        == (if Taken(a, pid, first, last) then [Reply(Laying(a), TroubleIn(a).Some?)] else []) + RepliesFrom(rest, pid, first, last)
      && TroubleFrom(answers, pid, first, last, e)
        == TroubleFrom(rest, pid, first, last, if Taken(a, pid, first, last) && TroubleIn(a).Some? then TroubleIn(a) else e)
  {
    if answers != [] { assert answers[0] in answers && forall x :: x in answers[1..] ==> x in answers; }
    hide Laying, TroubleIn, Taken;
  }

  lemma AllWellFormed(answers: seq<Answer>)
    requires forall a :: a in answers ==> Sendable(a)
    ensures forall m :: m in AllLaid(answers) ==> WellFormed(m) && |m| >= 20 >= NLMSG_HDRLEN
  {
    forall i | 0 <= i < |answers| ensures WellFormed(AllLaid(answers)[i]) && |AllLaid(answers)[i]| >= 20 {
      assert answers[i] in answers;
      AnswerReads(answers[i]);
    }
    hide WellFormed, Laying;
  }

  /**
    Any messages received in one buffer, in terms of what they say: a reply with the bytes of each one taken,
    marked as an error and remembered as trouble exactly when it is an error message with a number other than
    zero or a body cut short. A plain acknowledgement, with number zero, is neither.
   */
  lemma AnswersReceived(answers: seq<Answer>, pid: nat, first: nat, last: nat, e: Option<Trouble>)
    requires forall a :: a in answers ==> Sendable(a)
    ensures Received(Join(AllLaid(answers)), pid, first, last, e)
         == Result(RepliesFrom(answers, pid, first, last), TroubleFrom(answers, pid, first, last, e), false)
  {
    var ms := AllLaid(answers);
    AllWellFormed(answers);
    AnswersReply(answers, pid, first, last, e);
    FramesOfJoin(ms);
    JoinLength(ms);
    assert HeaderedFrames(Join(ms)) == Walk(ms, None);
    EffectIs(HeaderedFrames(Join(ms)), Join(ms), pid, first, last, e);
    if answers == [] { assert Join(ms) == []; }
    hide Frames, HeaderedFrames, Replies, LastTrouble, Join, Effect, AllLaid, WellFormed, Laying, TroubleIn, Taken;
  }

  lemma JoinLength(ms: seq<seq<Byte>>)
    requires forall m :: m in ms ==> WellFormed(m) && |m| >= 20
    ensures ms != [] ==> |Join(ms)| >= 20
  {
    if ms != [] { assert ms[0] in ms; }
    hide WellFormed;
  }

  // ----- lengths that wrap -----

  /** The walk over a received buffer breaks off at a header whose length wraps. */
  predicate MeetsWrap(got: seq<Byte>) {
    |got| > NLMSG_HDRLEN && HeaderedFrames(got).stuck.Some? && Wraps(HeaderedFrames(got).stuck.value)
  }

  /** The trouble left after the frames is the truncation of an earlier buffer only if no reply since then is an error. */
  lemma {:induction false} TruncatedBefore(frames: seq<seq<Byte>>, pid: nat, first: nat, last: nat, e: Option<Trouble>)
    requires forall f :: f in frames ==> |f| >= NLMSG_HDRLEN
    ensures LastTrouble(frames, pid, first, last, e) == Some(Truncated)
      <==> e == Some(Truncated) && forall r :: r in Replies(frames, pid, first, last) ==> !r.isErr
  {
    RepliesSteps(frames, pid, first, last, e);
    if frames != [] {
      var f := frames[0];
      var mine := if Accepted(f, pid, first, last) then [Reply(f, TroubleOf(f).Some?)] else [];
      var now := if Accepted(f, pid, first, last) && TroubleOf(f).Some? then TroubleOf(f) else e;
      TruncatedBefore(frames[1..], pid, first, last, now);
      NeverTruncated(f);
      var rest := Replies(frames[1..], pid, first, last);
      hide *;
      assert forall r :: r in mine + rest <==> r in mine || r in rest;
      if Accepted(f, pid, first, last) { assert mine[0] in mine; }
    }
  }

  lemma NeverTruncated(f: seq<Byte>)
    requires |f| >= NLMSG_HDRLEN
    ensures TroubleOf(f) != Some(Truncated)
  {
  }

  /**
    When do_recvmsg does what it is meant to do. The replies are always right. A copy goes past the end exactly
    when the walk meets an accepted frame whose length wraps; all is well exactly when it meets no such length,
    save that passing one over may go unnoticed behind the truncation of an earlier buffer.
   */
  lemma ReceivedAsMeant(got: seq<Byte>, pid: nat, first: nat, last: nat, e: Option<Trouble>)
    ensures var r, m := Received(got, pid, first, last, e), Meant(got, pid, first, last, e);
      && r.replies == m.replies
      && (r.pastTheEnd <==> MeetsWrap(got) && Accepted(HeaderedFrames(got).stuck.value, pid, first, last))
      && (r == m <==> !MeetsWrap(got) || (!r.pastTheEnd && e == Some(Truncated) && forall x :: x in r.replies ==> !x.isErr))
  {
    TruncatedBefore(HeaderedFrames(got).frames, pid, first, last, e);
    hide HeaderedFrames, Replies, LastTrouble, Wraps, Accepted;
  }

  /** Messages laid out one after the other, every one padded. */
  function Laid(ms: seq<seq<Byte>>): seq<Byte> {
    if ms == [] then [] else ms[0] + Zeros(Pad(|ms[0]|)) + Laid(ms[1..])
  }

  lemma {:induction false} FramesOfLaid(ms: seq<seq<Byte>>, rest: seq<Byte>)
    requires forall m :: m in ms ==> WellFormed(m)
    ensures Frames(Laid(ms) + rest) == Walk(ms + Frames(rest).frames, Frames(rest).stuck)
  {
    hide Frames, Zeros, Pad, WellFormed;
    if ms == [] {
      assert [] + rest == rest && [] + Frames(rest).frames == Frames(rest).frames;
    } else {
      assert ms[0] in ms && forall m :: m in ms[1..] ==> m in ms;
      FramesOfLaid(ms[1..], rest);
      FramesFirst(ms[0], Pad(|ms[0]|), Laid(ms[1..]) + rest);
      hide Laid;
      Regroup(ms[0], Zeros(Pad(|ms[0]|)), Laid(ms[1..]), rest);
      assert ms + Frames(rest).frames == [ms[0]] + (ms[1..] + Frames(rest).frames);
    }
  }

  lemma Regroup(a: seq<Byte>, b: seq<Byte>, c: seq<Byte>, d: seq<Byte>)
    ensures (a + b + c) + d == a + b + (c + d)
  {
  }

  /**
    Behind any well-formed messages a frame whose length wraps is never trouble: it is copied past the end when
    it is accepted, and passed over with all that follows it when it is not.
   */
  lemma WrapBehind(ms: seq<seq<Byte>>, rest: seq<Byte>, pid: nat, first: nat, last: nat, e: Option<Trouble>)
    requires (forall m :: m in ms ==> WellFormed(m)) && |rest| >= NLMSG_HDRLEN && Wraps(rest[..NLMSG_HDRLEN])
    requires NLMSG_HDRLEN < |Laid(ms) + rest| < TWO_TO_THE_31
    ensures (forall m :: m in ms ==> |m| >= NLMSG_HDRLEN) && MeetsWrap(Laid(ms) + rest)
    ensures Received(Laid(ms) + rest, pid, first, last, e) ==
      Result(Replies(ms, pid, first, last), LastTrouble(ms, pid, first, last, e),
             Accepted(rest[..NLMSG_HDRLEN], pid, first, last))
  {
    FramesOfLaid(ms, rest);
    HeaderAt(rest, 0);
    FramesSteps(rest);
    assert From(rest, 0) == rest && ms + [] == ms;
    EffectIs(HeaderedFrames(Laid(ms) + rest), Laid(ms) + rest, pid, first, last, e);
    hide Frames, Replies, LastTrouble, Wraps, Accepted, Laid, Effect;
  }

  /** Four bytes more than a header, of a kernel message that gives 2^31 as its length. */
  lemma WrapAtOnce()
    ensures var got := [0, 0, 0, 128] + Zeros(16);
      && Received(got, 0, 0, 0, None) == Result([], None, true)
      && Meant(got, 0, 0, 0, None) == Result([], Some(Truncated), false)
  {
    var got := [0, 0, 0, 128] + Zeros(16);
    assert Laid([]) + got == got;
    assert Read32(got, 0) == TWO_TO_THE_31 && Read32(got[..NLMSG_HDRLEN], 0) == TWO_TO_THE_31;
    WrapBehind([], got, 0, 0, 0, None);
    ReceivedAsMeant(got, 0, 0, 0, None);
    hide Frames, Zeros, Read32, Laid;
  }

  // ----- windows -----

  lemma {:induction false} SeqAfterValue(s: Word, n: nat)
    requires n <= TWO_TO_THE_32
    ensures SeqAfter(s, n) == if s + n < TWO_TO_THE_32 then s + n else s + n - TWO_TO_THE_32
  {
    if n > 0 { SeqAfterValue(s, n - 1); }
  }

  lemma {:induction false} SeqAfterSum(s: Word, a: nat, b: nat)
    ensures SeqAfter(SeqAfter(s, a), b) == SeqAfter(s, a + b)
  {
    if b > 0 { SeqAfterSum(s, a, b - 1); }
  }

  /** x numbers one of n messages from s on. */
  ghost predicate Numbers(s: Word, n: nat, x: nat) {
    exists i :: 0 <= i < n && SeqAfter(s, i) == x
  }

  /**
    The window of a request with n messages takes in the numbers of its own messages and no others, unless the
    counter wraps inside it; then it takes in no number at all.
   */
  lemma OwnWindow(s: Word, n: nat, x: nat)
    requires 1 <= n <= TWO_TO_THE_32
    ensures s <= x <= SeqAfter(s, n - 1) <==> s + n <= TWO_TO_THE_32 && Numbers(s, n, x)
  {
    SeqAfterValue(s, n - 1);
    if s + n <= TWO_TO_THE_32 {
      forall i | 0 <= i < n ensures SeqAfter(s, i) == s + i {
        SeqAfterValue(s, i);
      }
      if s <= x < s + n { assert SeqAfter(s, x - s) == x; }
    }
    hide SeqAfter;
  }

  /**
    Two requests on one socket, the later one after gap more numbers: as long as the counter does not come
    round to where the first one began, no number is in both windows, wherever the counter wraps.
   */
  lemma WindowsDisjoint(s: Word, a: nat, gap: nat, b: nat, x: nat)
    requires a >= 1 && b >= 1 && a + gap + b <= TWO_TO_THE_32
    ensures var t := SeqAfter(s, a + gap);
      !(s <= x <= SeqAfter(s, a - 1) && t <= x <= SeqAfter(t, b - 1))
  {
    SeqAfterValue(s, a - 1);
    SeqAfterValue(s, a + gap);
    SeqAfterValue(SeqAfter(s, a + gap), b - 1);
    hide SeqAfter;
  }

  /**
    Whatever number the socket gives out, its i-th, in whatever request: an answer to it is accepted by the
    request whose numbering began at the p-th and ended at the q-th number exactly when i lies between them
    and the counter does not wrap between them. So a request that takes turns with another accepts answers to it.
   */
  lemma AcceptedExactly(frame: seq<Byte>, pid: nat, s: Word, p: nat, q: nat, i: nat)
    requires |frame| >= NLMSG_HDRLEN && pid != 0 && SeqOf(frame) == SeqAfter(s, i)
    requires p <= q && q < TWO_TO_THE_32 && i < TWO_TO_THE_32
    ensures Accepted(frame, pid, SeqAfter(s, p), SeqAfter(s, q)) <==> p <= i <= q && SeqAfter(s, p) <= SeqAfter(s, q)
  {
    SeqAfterValue(s, p);
    SeqAfterValue(s, q);
    SeqAfterValue(s, i);
    hide SeqAfter, SeqOf;
  }

  /**
    An answer to message i of a request: accepted by it exactly when the counter does not wrap inside it, and
    by no later request before the counter comes round.
   */
  lemma AnswerGoesHome(frame: seq<Byte>, pid: nat, s: Word, a: nat, gap: nat, b: nat, i: nat)
    requires |frame| >= NLMSG_HDRLEN && pid != 0 && i < a && SeqOf(frame) == SeqAfter(s, i)
    requires b >= 1 && a + gap + b <= TWO_TO_THE_32
    ensures Accepted(frame, pid, s, SeqAfter(s, a - 1)) <==> s + a <= TWO_TO_THE_32
    ensures var t := SeqAfter(s, a + gap); !Accepted(frame, pid, t, SeqAfter(t, b - 1))
  {
    hide SeqAfter, SeqOf;
    SeqAfterValue(s, i);
    SeqAfterValue(s, a - 1);
    SeqAfterValue(s, a + gap);
    SeqAfterValue(SeqAfter(s, a + gap), b - 1);
  }
}
