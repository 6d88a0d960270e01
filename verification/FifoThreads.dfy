/**
  Any number of threads on one queue. A step is one critical section of one thread, so any order of
  steps is an interleaving; a wait gives the mutex up and ends with a signal, a broadcast or, as POSIX
  allows, for no reason at all, and a signal may wake more than one waiting thread.
 */
module FifoThreads {
  import opened Fifo
  import opened Options

  type Tid = nat

  /** Where a thread stands: outside, before the unblock at the end of add, before the unblockAll at the
      end of clearAll, in the wait of removeOrBlock, or out of the wait but not yet in the mutex again. */
  datatype Pc = Outside | Adding | Clearing | Waiting | Woken

  /** added: what was queued, in order; gone: what left, in order, and the thread it went to (none: cleared). */
  datatype State<T> = State(core: Core<T>, pc: map<Tid, Pc>, added: seq<T>, gone: seq<(T, Option<Tid>)>)

  datatype Step<T> =
    | DoAdd(t: Tid, d: T)
    | DoUnblock(t: Tid, woken: set<Tid>)
    | DoRemove(t: Tid)
    | DoRemoveOrBlock(t: Tid)
    | DoWakeUp(t: Tid)
    | DoResume(t: Tid)
    | DoClear(t: Tid)
    | DoUnblockAll(t: Tid)
    | DoSetEnabled(t: Tid, on: bool)

  ghost function At<T>(s: State<T>, p: Pc): set<Tid> {
    set t | t in s.pc && s.pc[t] == p
  }

  ghost predicate Possible<T>(s: State<T>, step: Step<T>) {
    && step.t in s.pc
    && match step
       case DoAdd(t, d) => s.pc[t] == Outside
       case DoUnblock(t, woken) =>
         && s.pc[t] == Adding && woken <= At(s, Waiting)
         && (woken != {} <==> Unblock(s.core).1 && At(s, Waiting) != {})
       case DoRemove(t) => s.pc[t] == Outside
       case DoRemoveOrBlock(t) => s.pc[t] == Outside
       case DoWakeUp(t) => s.pc[t] == Waiting
       case DoResume(t) => s.pc[t] == Woken
       case DoClear(t) => s.pc[t] == Outside
       case DoUnblockAll(t) => s.pc[t] == Clearing
       case DoSetEnabled(t, on) => s.pc[t] == Outside
  }

  /** The signalled threads leave the wait. */
  ghost function Wake(pc: map<Tid, Pc>, woken: set<Tid>): map<Tid, Pc> {
    map t | t in pc :: if t in woken then Woken else pc[t]
  }

  /** What remove or the end of removeOrBlock does for thread t. */
  ghost function Take<T>(s: State<T>, t: Tid): State<T>
    requires t in s.pc
  {
    var (core, item) := TakeFrom(s.core);
    State(core, s.pc[t := Outside], s.added, if item.Some? then s.gone + [(item.value, Some(t))] else s.gone)
  }

  ghost function Cleared<T>(items: seq<T>): (gone: seq<(T, Option<Tid>)>)
    ensures |gone| == |items| && forall i :: 0 <= i < |items| ==> gone[i] == (items[i], None)
  {
    seq(|items|, i requires 0 <= i < |items| => (items[i], None))
  }

  ghost function Do<T>(s: State<T>, step: Step<T>): State<T>
    requires Possible(s, step)
  {
    match step
    case DoAdd(t, d) =>
      State(AddTo(s.core, d), s.pc[t := Adding], if s.core.enabled then s.added + [d] else s.added, s.gone)
    case DoUnblock(t, woken) =>
      s.(core := Unblock(s.core).0, pc := Wake(s.pc, woken)[t := Outside])
    case DoRemove(t) => Take(s, t)
    case DoRemoveOrBlock(t) =>
      if s.core.items == [] then s.(core := s.core.(blockCnt := s.core.blockCnt + 1), pc := s.pc[t := Waiting])
      else Take(s, t)
    case DoWakeUp(t) => s.(pc := s.pc[t := Woken])
    case DoResume(t) => Take(s, t)
    case DoClear(t) =>
      State(s.core.(items := []), s.pc[t := Clearing], s.added, s.gone + Cleared(s.core.items))
    case DoUnblockAll(t) =>
      s.(core := UnblockAll(s.core).0,
         pc := Wake(s.pc, if UnblockAll(s.core).1 then At(s, Waiting) else {})[t := Outside])
    case DoSetEnabled(t, on) => s.(core := s.core.(enabled := on))
  }

  // ----- what every step keeps -----

  ghost function ItemsOf<T>(gone: seq<(T, Option<Tid>)>): (items: seq<T>)
    ensures |items| == |gone| && forall i :: 0 <= i < |gone| ==> items[i] == gone[i].0
  {
    seq(|gone|, i requires 0 <= i < |gone| => gone[i].0)
  }

  ghost predicate InOrder<T>(s: State<T>) {
    s.added == ItemsOf(s.gone) + s.core.items
  }

  /** The hand-kept count covers the threads that wait. */
  ghost predicate Counted<T>(s: State<T>) {
    |At(s, Waiting)| <= s.core.blockCnt
  }

  /** While a thread waits, every queued item is answered for: by an unblock still to come or by a thread already woken. */
  ghost predicate NoneLost<T>(s: State<T>) {
    At(s, Waiting) != {} ==> |s.core.items| <= |At(s, Adding)| + |At(s, Woken)|
  }

  ghost predicate Inv<T>(s: State<T>) {
    InOrder(s) && Counted(s) && NoneLost(s)
  }

  lemma SizeAfterMove(a: set<Tid>, b: set<Tid>)
    requires b <= a
    ensures |a - b| == |a| - |b|
  {
    assert a == (a - b) + b;
  }

  lemma InsertSize(a: set<Tid>, t: Tid)
    ensures |a + {t}| == |a| + if t in a then 0 else 1
  {
    if t in a { assert a + {t} == a; }
  }

  lemma MovedSets<T>(s: State<T>, s': State<T>, t: Tid, q: Pc)
    requires t in s.pc && s'.pc == s.pc[t := q] && s.pc[t] != q
    ensures At(s', q) == At(s, q) + {t} && t !in At(s, q)
    ensures At(s', s.pc[t]) == At(s, s.pc[t]) - {t} && t in At(s, s.pc[t])
    ensures forall p :: p != q && p != s.pc[t] ==> At(s', p) == At(s, p)
  {
  }

  /** One thread goes from one place to another. */
  lemma Moved<T>(s: State<T>, s': State<T>, t: Tid, q: Pc)
    requires t in s.pc && s'.pc == s.pc[t := q] && s.pc[t] != q
    ensures At(s', q) == At(s, q) + {t} && |At(s', q)| == |At(s, q)| + 1
    ensures var p := s.pc[t]; At(s', p) == At(s, p) - {t} && |At(s', p)| == |At(s, p)| - 1
    ensures forall p :: p != q && p != s.pc[t] ==> At(s', p) == At(s, p)
  {
    MovedSets(s, s', t, q);
    hide At;
    InsertSize(At(s, q), t);
    SizeAfterMove(At(s, s.pc[t]), {t});
  }

  lemma WokenSets<T>(s: State<T>, s': State<T>, t: Tid, woken: set<Tid>)
    requires t in s.pc && s'.pc == Wake(s.pc, woken)[t := Outside]
    requires (s.pc[t] == Adding || s.pc[t] == Clearing) && woken <= At(s, Waiting)
    ensures At(s', Waiting) == At(s, Waiting) - woken
    ensures At(s', Woken) == At(s, Woken) + woken && At(s, Woken) !! woken
    ensures At(s', Adding) == At(s, Adding) - {t} && (t in At(s, Adding) <==> s.pc[t] == Adding)
  {
    assert t !in woken;
  }

  /** The waking threads leave the wait, and the waker leaves its place. */
  lemma MovedAndWoken<T>(s: State<T>, s': State<T>, t: Tid, woken: set<Tid>)
    requires t in s.pc && s'.pc == Wake(s.pc, woken)[t := Outside]
    requires (s.pc[t] == Adding || s.pc[t] == Clearing) && woken <= At(s, Waiting)
    ensures At(s', Waiting) == At(s, Waiting) - woken && |At(s', Waiting)| == |At(s, Waiting)| - |woken|
    ensures At(s', Woken) == At(s, Woken) + woken && |At(s', Woken)| == |At(s, Woken)| + |woken|
    ensures |At(s', Adding)| == |At(s, Adding)| - if s.pc[t] == Adding then 1 else 0
  {
    WokenSets(s, s', t, woken);
    hide At;
    SizeAfterMove(At(s, Waiting), woken);
    if s.pc[t] == Adding {
      SizeAfterMove(At(s, Adding), {t});
    } else {
      assert At(s, Adding) - {t} == At(s, Adding);
    }
  }

  lemma TakeKeeps<T>(s: State<T>, t: Tid)
    requires Inv(s) && t in s.pc && (s.pc[t] == Outside || s.pc[t] == Woken)
    ensures Inv(Take(s, t))
  {
    var s' := Take(s, t);
    if s.pc[t] == Woken {
      Moved(s, s', t, Outside);
    } else {
      assert s'.pc == s.pc;
    }
    if s.core.items != [] {
      assert ItemsOf(s'.gone) == ItemsOf(s.gone) + [s.core.items[0]];
      assert s.core.items == [s.core.items[0]] + s.core.items[1..];
    }
  }

  lemma AddKeeps<T>(s: State<T>, t: Tid, d: T)
    requires Inv(s) && Possible(s, DoAdd(t, d))
    ensures Inv(Do(s, DoAdd(t, d)))
  {
    var s' := Do(s, DoAdd(t, d));
    Moved(s, s', t, Adding);
    assert s.core.enabled ==> s'.added == ItemsOf(s.gone) + (s.core.items + [d]);
  }

  lemma UnblockKeeps<T>(s: State<T>, t: Tid, woken: set<Tid>)
    requires Inv(s) && Possible(s, DoUnblock(t, woken))
    ensures Inv(Do(s, DoUnblock(t, woken)))
  {
    var s' := Do(s, DoUnblock(t, woken));
    MovedAndWoken(s, s', t, woken);
    if woken != {} {
      var w :| w in woken;
      SizeAfterMove(woken, {w});
    }
  }

  lemma ClearKeeps<T>(s: State<T>, t: Tid)
    requires Inv(s) && Possible(s, DoClear(t))
    ensures Inv(Do(s, DoClear(t)))
  {
    var s' := Do(s, DoClear(t));
    Moved(s, s', t, Clearing);
    assert ItemsOf(s'.gone) == ItemsOf(s.gone) + s.core.items;
  }

  lemma UnblockAllKeeps<T>(s: State<T>, t: Tid)
    requires Inv(s) && Possible(s, DoUnblockAll(t))
    ensures Inv(Do(s, DoUnblockAll(t)))
  {
    var s' := Do(s, DoUnblockAll(t));
    var woken := if UnblockAll(s.core).1 then At(s, Waiting) else {};
    MovedAndWoken(s, s', t, woken);
  }

  lemma WaitKeeps<T>(s: State<T>, t: Tid)
    requires Inv(s) && Possible(s, DoRemoveOrBlock(t))
    ensures Inv(Do(s, DoRemoveOrBlock(t)))
  {
    if s.core.items == [] {
      Moved(s, Do(s, DoRemoveOrBlock(t)), t, Waiting);
    } else {
      TakeKeeps(s, t);
    }
  }

  /** Every step of every thread keeps the invariant. */
  lemma StepKeeps<T>(s: State<T>, step: Step<T>)
    requires Inv(s) && Possible(s, step)
    ensures Inv(Do(s, step))
  {
    match step
    case DoAdd(t, d) => AddKeeps(s, t, d);
    case DoUnblock(t, woken) => UnblockKeeps(s, t, woken);
    case DoRemove(t) => TakeKeeps(s, t);
    case DoRemoveOrBlock(t) => WaitKeeps(s, t);
    case DoWakeUp(t) => Moved(s, Do(s, step), t, Woken);
    case DoResume(t) => TakeKeeps(s, t);
    case DoClear(t) => ClearKeeps(s, t);
    case DoUnblockAll(t) => UnblockAllKeeps(s, t);
    case DoSetEnabled(t, on) =>
      assert forall p :: At(Do(s, step), p) == At(s, p);
  }

  // ----- whole runs -----

  ghost predicate Initial<T>(s: State<T>) {
    s.core == Core([], 0, true) && s.added == [] && s.gone == [] && forall t :: t in s.pc ==> s.pc[t] == Outside
  }

  /** States connected by steps, from an initial one. */
  ghost predicate Run<T>(states: seq<State<T>>, steps: seq<Step<T>>) {
    && |states| == |steps| + 1 && Initial(states[0])
    && forall i :: 0 <= i < |steps| ==> Possible(states[i], steps[i]) && states[i + 1] == Do(states[i], steps[i])
  }

  /** In every state of every run the invariant holds. */
  lemma {:induction false} AlwaysInv<T>(states: seq<State<T>>, steps: seq<Step<T>>, i: nat)
    requires Run(states, steps) && i < |states|
    ensures Inv(states[i])
  {
    if i == 0 {
      assert At(states[0], Waiting) == {};
    } else {
      AlwaysInv(states, steps, i - 1);
      StepKeeps(states[i - 1], steps[i - 1]);
    }
  }

  /** Nobody sleeps beside a queued item once every add and every woken thread has run to its end. */
  lemma NoLostWakeUp<T>(states: seq<State<T>>, steps: seq<Step<T>>, i: nat)
    requires Run(states, steps) && i < |states|
    requires At(states[i], Adding) == {} && At(states[i], Woken) == {} && At(states[i], Waiting) != {}
    ensures states[i].core.items == []
  {
    AlwaysInv(states, steps, i);
  }

  /** An unblock wakes a thread whenever one waits: the hand-kept count never withholds the signal. */
  lemma SignalNeverWithheld<T>(states: seq<State<T>>, steps: seq<Step<T>>, i: nat)
    requires Run(states, steps) && i < |steps| && steps[i].DoUnblock? && At(states[i], Waiting) != {}
    ensures At(states[i + 1], Waiting) < At(states[i], Waiting)
  {
    AlwaysInv(states, steps, i);
    var s, t, woken := states[i], steps[i].t, steps[i].woken;
    var w :| w in At(s, Waiting);
    SizeAfterMove(At(s, Waiting), {w});
    MovedAndWoken(s, states[i + 1], t, woken);
  }

  /** What was added and what left only grow. */
  lemma LogsGrow<T>(s: State<T>, step: Step<T>)
    requires Possible(s, step)
    ensures s.added <= Do(s, step).added && s.gone <= Do(s, step).gone
  {
  }

  lemma {:induction false} LogsGrowOver<T>(states: seq<State<T>>, steps: seq<Step<T>>, i: nat, j: nat)
    requires Run(states, steps) && i <= j < |states|
    ensures states[i].added <= states[j].added && states[i].gone <= states[j].gone
  {
    if i < j {
      LogsGrowOver(states, steps, i, j - 1);
      LogsGrow(states[j - 1], steps[j - 1]);
    }
  }

  /** Items leave in the order in which they were added, each once: whatever has left by any time is a
      beginning of whatever has been added by any later time. */
  lemma FirstInFirstOut<T>(states: seq<State<T>>, steps: seq<Step<T>>, i: nat, j: nat)
    requires Run(states, steps) && i <= j < |states|
    ensures ItemsOf(states[i].gone) <= states[j].added
    ensures states[i].added == ItemsOf(states[i].gone) + states[i].core.items
  {
    AlwaysInv(states, steps, i);
    LogsGrowOver(states, steps, i, j);
  }

  // ----- the hand-kept count -----

  /** Each wake-up is one a signal or broadcast asked for, and a signal wakes one thread. */
  ghost predicate ByTheBook<T>(step: Step<T>) {
    !step.DoWakeUp? && (step.DoUnblock? ==> |step.woken| <= 1)
  }

  lemma {:induction false} CountExact<T>(states: seq<State<T>>, steps: seq<Step<T>>, i: nat)
    requires Run(states, steps) && i < |states| && forall j :: 0 <= j < i ==> ByTheBook(steps[j])
    ensures states[i].core.blockCnt == |At(states[i], Waiting)|
  {
    if i == 0 {
      assert At(states[0], Waiting) == {};
    } else {
      CountExact(states, steps, i - 1);
      CountStep(states[i - 1], steps[i - 1]);
    }
  }

  lemma CountStep<T>(s: State<T>, step: Step<T>)
    requires Possible(s, step) && ByTheBook(step) && s.core.blockCnt == |At(s, Waiting)|
    ensures Do(s, step).core.blockCnt == |At(Do(s, step), Waiting)|
  {
    var s' := Do(s, step);
    match step
    case DoAdd(t, d) => Moved(s, s', t, Adding);
    case DoUnblock(t, woken) => MovedAndWoken(s, s', t, woken); NonEmptySize(woken);
    case DoRemove(t) => assert s'.pc == s.pc;
    case DoRemoveOrBlock(t) =>
      if s.core.items == [] { Moved(s, s', t, Waiting); } else { assert s'.pc == s.pc; }
    case DoResume(t) => Moved(s, s', t, Outside);
    case DoClear(t) => Moved(s, s', t, Clearing);
    case DoUnblockAll(t) =>
      MovedAndWoken(s, s', t, if UnblockAll(s.core).1 then At(s, Waiting) else {});
    case DoSetEnabled(t, on) => assert s'.pc == s.pc;
  }

  lemma NonEmptySize(a: set<Tid>)
    ensures a != {} <==> |a| > 0
  {
    if t :| t in a { SizeAfterMove(a, {t}); }
  }

  // ----- what a woken call finds -----

  /** Every item queued has left or is still there. */
  lemma Balance<T>(states: seq<State<T>>, steps: seq<Step<T>>, i: nat)
    requires Run(states, steps) && i < |states|
    ensures |states[i].added| == |states[i].gone| + |states[i].core.items|
  {
    AlwaysInv(states, steps, i);
  }

  /** The resumed call took nothing. */
  ghost predicate EmptyHanded<T>(states: seq<State<T>>, i: nat)
    requires i + 1 < |states|
  {
    states[i + 1].gone == states[i].gone
  }

  /** A resumed call hands the first item to its thread, unless there is none. */
  lemma ResumeTakes<T>(states: seq<State<T>>, steps: seq<Step<T>>, i: nat)
    requires Run(states, steps) && i < |steps| && steps[i].DoResume?
    ensures EmptyHanded(states, i) <==> states[i].core.items == []
    ensures !EmptyHanded(states, i) ==> states[i + 1].gone == states[i].gone + [(states[i].core.items[0], Some(steps[i].t))]
  {
    assert states[i + 1] == Take(states[i], steps[i].t);
  }

  /**
    A removeOrBlock that was woken comes back without an item exactly when, since any earlier time w (its wake-up,
    say), as many items have left as there were at w and have been queued since. So either something left
    after w, or there was nothing at w to begin with.
   */
  lemma {:induction false} EmptyHandedExactly<T>(states: seq<State<T>>, steps: seq<Step<T>>, w: nat, i: nat)
    requires Run(states, steps) && w <= i < |steps| && steps[i].DoResume?
    ensures EmptyHanded(states, i) <==>
      |states[i].gone| - |states[w].gone| == |states[w].core.items| + |states[i].added| - |states[w].added|
    ensures EmptyHanded(states, i) ==> |states[i].gone| > |states[w].gone| || states[w].core.items == []
  {
    Balance(states, steps, w);
    Balance(states, steps, i);
    LogsGrowOver(states, steps, w, i);
    ResumeTakes(states, steps, i);
    hide Run;
  }

  /** A step that can take items out of the queue. */
  ghost predicate Removes<T>(step: Step<T>) {
    step.DoRemove? || step.DoRemoveOrBlock? || step.DoResume? || step.DoClear?
  }

  lemma {:induction false} NothingLeft<T>(states: seq<State<T>>, steps: seq<Step<T>>, k: nat, i: nat)
    requires Run(states, steps) && k <= i < |states| && forall j :: k <= j < i ==> !Removes(steps[j])
    ensures states[i].gone == states[k].gone
  {
    if k < i {
      NothingLeft(states, steps, k, i - 1);
      assert states[i] == Do(states[i - 1], steps[i - 1]);
    }
  }

  /**
    A call woken by the unblock of an enabled add, with no step since that add that removes or clears, comes back
    with an item.
   */
  lemma WokenByAddGetsItem<T>(states: seq<State<T>>, steps: seq<Step<T>>, a: nat, u: nat, i: nat)
    requires Run(states, steps) && a < u < i < |steps|
    requires steps[a].DoAdd? && states[a].core.enabled
    requires steps[u].DoUnblock? && steps[u].t == steps[a].t && steps[i].DoResume? && steps[i].t in steps[u].woken
    requires forall j :: a < j < i ==> !Removes(steps[j])
    ensures states[i].core.items != []
    ensures states[i + 1].gone == states[i].gone + [(states[i].core.items[0], Some(steps[i].t))]
  {
    AddQueues(states, steps, a);
    NothingLeft(states, steps, a + 1, i);
    Balance(states, steps, a + 1);
    Balance(states, steps, i);
    LogsGrowOver(states, steps, a + 1, i);
    ResumeTakes(states, steps, i);
    hide Run;
  }

  lemma AddQueues<T>(states: seq<State<T>>, steps: seq<Step<T>>, a: nat)
    requires Run(states, steps) && a < |steps| && steps[a].DoAdd? && states[a].core.enabled
    ensures states[a + 1].core.items != []
  {
    assert states[a + 1] == Do(states[a], steps[a]);
  }

  /** A run of two threads, state by state: 1 waits, 2 adds d, wakes 1 and takes d itself, and 1 resumes. */
  function Steal(d: int, k: nat): State<int>
    requires k < 6
  {
    match k
    case 0 => State(Core([], 0, true), map[1 := Outside, 2 := Outside], [], [])
    case 1 => State(Core([], 1, true), map[1 := Waiting, 2 := Outside], [], [])
    case 2 => State(Core([d], 1, true), map[1 := Waiting, 2 := Adding], [d], [])
    case 3 => State(Core([d], 0, true), map[1 := Woken, 2 := Outside], [d], [])
    case 4 => State(Core([], 0, true), map[1 := Woken, 2 := Outside], [d], [(d, Some(2))])
    case _ => State(Core([], 0, true), map[1 := Outside, 2 := Outside], [d], [(d, Some(2))])
  }

  lemma StealWakes(d: int)
    ensures Possible(Steal(d, 2), DoUnblock(2, {1})) && Do(Steal(d, 2), DoUnblock(2, {1})) == Steal(d, 3)
  {
    assert 1 in At(Steal(d, 2), Waiting);
  }

  lemma StealStarts(d: int)
    ensures Possible(Steal(d, 0), DoRemoveOrBlock(1)) && Do(Steal(d, 0), DoRemoveOrBlock(1)) == Steal(d, 1)
    ensures Possible(Steal(d, 1), DoAdd(2, d)) && Do(Steal(d, 1), DoAdd(2, d)) == Steal(d, 2)
  {
  }

  lemma StealTakes(d: int)
    ensures Possible(Steal(d, 3), DoRemove(2)) && Do(Steal(d, 3), DoRemove(2)) == Steal(d, 4)
    ensures Possible(Steal(d, 4), DoResume(1)) && Do(Steal(d, 4), DoResume(1)) == Steal(d, 5)
  {
  }

  /**
    Something left: a thread woken by an add finds nothing, since another remove came in between, and
    removeOrBlock does not wait again.
   */
  lemma StolenItem(d: int) returns (states: seq<State<int>>, steps: seq<Step<int>>)
    ensures Run(states, steps) && (forall j :: 0 <= j < |steps| ==> ByTheBook(steps[j]))
    ensures |steps| > 0 && steps[|steps| - 1].DoResume? && EmptyHanded(states, |steps| - 1)
  {
    StealWakes(d);
    StealStarts(d);
    StealTakes(d);
    hide Do, Possible;
    states := seq(6, k requires 0 <= k < 6 => Steal(d, k));
    steps := [DoRemoveOrBlock(1), DoAdd(2, d), DoUnblock(2, {1}), DoRemove(2), DoResume(1)];
  }

  /** Another run, state by state: 1 waits, 2 disables the queue, adds d in vain and wakes 1, and 1 resumes. */
  function Refuse(k: nat): State<int>
    requires k < 6
  {
    match k
    case 0 => State(Core([], 0, true), map[1 := Outside, 2 := Outside], [], [])
    case 1 => State(Core([], 1, true), map[1 := Waiting, 2 := Outside], [], [])
    case 2 => State(Core([], 1, false), map[1 := Waiting, 2 := Outside], [], [])
    case 3 => State(Core([], 1, false), map[1 := Waiting, 2 := Adding], [], [])
    case 4 => State(Core([], 0, false), map[1 := Woken, 2 := Outside], [], [])
    case _ => State(Core([], 0, false), map[1 := Outside, 2 := Outside], [], [])
  }

  lemma RefuseStarts(d: int)
    ensures Possible(Refuse(0), DoRemoveOrBlock(1)) && Do(Refuse(0), DoRemoveOrBlock(1)) == Refuse(1)
    ensures Possible(Refuse(1), DoSetEnabled(2, false)) && Do(Refuse(1), DoSetEnabled(2, false)) == Refuse(2)
    ensures Possible(Refuse(2), DoAdd(2, d)) && Do(Refuse(2), DoAdd(2, d)) == Refuse(3)
  {
  }

  lemma RefuseWakes()
    ensures Possible(Refuse(3), DoUnblock(2, {1})) && Do(Refuse(3), DoUnblock(2, {1})) == Refuse(4)
    ensures Possible(Refuse(4), DoResume(1)) && Do(Refuse(4), DoResume(1)) == Refuse(5)
  {
    assert 1 in At(Refuse(3), Waiting);
  }

  /** There was nothing: the add on a disabled queue wakes the sleeper all the same. */
  lemma RefusedItem(d: int) returns (states: seq<State<int>>, steps: seq<Step<int>>)
    ensures Run(states, steps) && (forall j :: 0 <= j < |steps| ==> ByTheBook(steps[j]) && !steps[j].DoRemove?)
    ensures |steps| > 0 && steps[|steps| - 1].DoResume? && EmptyHanded(states, |steps| - 1)
  {
    RefuseStarts(d);
    RefuseWakes();
    hide Do, Possible;
    states := seq(6, k requires 0 <= k < 6 => Refuse(k));
    steps := [DoRemoveOrBlock(1), DoSetEnabled(2, false), DoAdd(2, d), DoUnblock(2, {1}), DoResume(1)];
  }
}
