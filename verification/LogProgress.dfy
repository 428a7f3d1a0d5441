/**
 * What can always still happen to the log of gts/log.cpp: from every state that any schedule reaches, messages can
 * be handed over and emitted, and the worker can be stopped and finish.
 */
module LogProgress {
  import opened LogQueue

  predicate NoStop(schedule: seq<Action>) { forall i :: 0 <= i < |schedule| ==> !schedule[i].SetStop? }

  predicate Quiet(schedule: seq<Action>) { forall i :: 0 <= i < |schedule| ==> schedule[i].Work? || schedule[i].Wake? }

  /** The worker has its turn next: nobody else holds the mutex. */
  ghost predicate WorkerFree(s: State) { LockAgrees(s) && FlowInvariant(s) && StopInvariant(s) && !s.owner.Of? }

  function WorkerAction(s: State): Action { if s.place == Waiting then Wake else Work }

  /** The worker is never stuck but when it is done. */
  lemma WorkerCanStep(s: State)
    requires WorkerFree(s) && s.place != Done
    ensures Enabled(s, WorkerAction(s)) && WorkerFree(Step(s, WorkerAction(s)))
  {
    var a := WorkerAction(s);
    assert Enabled(s, a) by { hide FlowInvariant, StopInvariant; }
    StepKeepsLock(s, a);
    StepKeepsFlow(s, a);
    StepKeepsStop(s, a);
    WorkerTakesNothing(s);
    hide LockAgrees, FlowInvariant, StopInvariant, Enabled;
  }

  lemma WorkerTakesNothing(s: State)
    requires !s.owner.Of?
    ensures var t := Step(s, WorkerAction(s));
      !t.owner.Of? && t.past.pushed == s.past.pushed && t.stop == s.stop && t.calls == s.calls && t.issued == s.issued
  {
    WorkerPushesNothing(s);
    WorkerIssuesNothing(s);
    WorkerStaysWorker(s);
    WorkerLeavesCalls(s);
    hide WorkerStep;
  }

  lemma WorkerStaysWorker(s: State)
    requires !s.owner.Of?
    ensures s.place in {CheckStop, Emit, Drain, Pop} ==> WorkerStep(s).owner == s.owner
    ensures s.place !in {CheckStop, Emit, Drain, Pop} ==> !WorkerStep(s).owner.Of?
  {}

  lemma WorkerLeavesCalls(s: State)
    ensures s.place in {Pop, Emit, Drain, Swap} ==> WorkerStep(s).calls == s.calls && WorkerStep(s).stop == s.stop
    ensures s.place !in {Pop, Emit, Drain, Swap} ==> WorkerStep(s).calls == s.calls && WorkerStep(s).stop == s.stop
  {}

  /** How far it is to the next message that is taken out. */
  function ToPop(place: Place): nat {
    match place
    case Unlock => 8
    case Emit => 7
    case CheckStop => 6
    case Lock => 5
    case Waiting => 7
    case Woken => 6
    case TestStop => 5
    case TestEmpty => 4
    case Pop => 3
    case _ => 0
  }

  predicate Running(place: Place) { place != FinalLock && place != Swap && !ShuttingDown(place) }

  lemma RunningStep(s: State)
    requires FlowInvariant(s) && !s.stop && Running(s.place) && s.emitted != s.past.pushed
    ensures var t := Step(s, WorkerAction(s));
      Running(t.place) && (|t.queue| < |s.queue| || (t.queue == s.queue && ToPop(t.place) < ToPop(s.place)))
  {
    assert s.emitted + [] + [] + [] == s.emitted;
  }

  lemma {:induction false} WorkerDelivers(s: State) returns (schedule: seq<Action>, s': State)
    requires WorkerFree(s) && !s.stop && Running(s.place)
    ensures Quiet(schedule) && Reaches(s, schedule, s') && WorkerFree(s') && !s'.stop && Running(s'.place)
    ensures s'.past.pushed == s.past.pushed == s'.emitted
    decreases |s.queue|, ToPop(s.place)
  {
    if s.emitted == s.past.pushed {
      schedule, s' := [], s;
    } else {
      var a := WorkerAction(s);
      RunningStep(s);
      WorkerCanStep(s);
      WorkerTakesNothing(s);
      hide FlowInvariant, LockAgrees, StopInvariant, Step, Enabled;
      var rest;
      rest, s' := WorkerDelivers(Step(s, a));
      schedule := [a] + rest;
      assert schedule[1..] == rest;
    }
  }

  lemma StoppedOrRunning(s: State)
    requires StopInvariant(s) && !s.stop
    ensures Running(s.place)
  {}

  lemma {:induction false} ReachesConcat(s: State, a: seq<Action>, mid: State, b: seq<Action>, s': State)
    requires Reaches(s, a, mid) && Reaches(mid, b, s')
    ensures Reaches(s, a + b, s')
    decreases |a|
  {
    hide Step, Enabled;
    if |a| == 0 {
      assert a + b == b;
    } else {
      assert (a + b)[0] == a[0] && (a + b)[1..] == a[1..] + b;
      ReachesConcat(Step(s, a[0]), a[1..], mid, b, s');
    }
  }

  lemma StepKeeps(s: State, a: Action)
    requires Invariant(s) && Enabled(s, a)
    ensures Invariant(Step(s, a))
  {
    hide LockInvariant, FlowInvariant, StopInvariant, OrderInvariant, IdleInvariant, Step, Enabled;
    StepKeepsLockInvariant(s, a);
    StepKeepsFlow(s, a);
    StepKeepsStop(s, a);
    StepKeepsOrder(s, a);
    StepKeepsIdle(s, a);
  }

  /** The lock invariant is in force, as it is until a lock guard has been destroyed. */
  ghost predicate Sound(s: State) { Invariant(s) && !GuardReleased(s) }

  lemma ProducerStep(s: State, a: Action)
    requires Sound(s) && Enabled(s, a) && !a.Work?
    ensures Sound(Step(s, a))
  {
    StepKeeps(s, a);
    hide Invariant;
  }

  lemma SoundIsFree(s: State)
    requires Sound(s) && !s.owner.Of?
    ensures WorkerFree(s)
  {
    hide LockAgrees, FlowInvariant, StopInvariant, OrderInvariant, IdleInvariant;
  }

  lemma ReachesOne(s: State, a: Action)
    requires Enabled(s, a)
    ensures Reaches(s, [a], Step(s, a))
  {
    hide Step, Enabled;
    assert [a][1..] == [];
    assert Reaches(Step(s, a), [], Step(s, a));
  }

  lemma Leaves(s: State, p: Producer) returns (s': State)
    requires Sound(s) && CallOf(s, p) == Unlocking
    ensures Reaches(s, [Release(p)], s') && Sound(s') && s'.owner == Free
    ensures s'.stop == s.stop && s'.place == s.place && s'.past.pushed == s.past.pushed && s'.issued == s.issued
  {
    hide Sound, Reaches;
    ProducerStep(s, Release(p));
    ReachesOne(s, Release(p));
    s' := Step(s, Release(p));
  }

  lemma PushesAndLeaves(s: State, p: Producer) returns (s': State)
    requires Sound(s) && CallOf(s, p) == Pushing
    ensures Reaches(s, [Push(p), Release(p)], s') && Sound(s') && s'.owner == Free
    ensures s'.stop == s.stop && s'.place == s.place
    ensures s'.past.pushed == s.past.pushed + [Message(p, IssuedOf(s, p))]
    ensures forall q :: q != p ==> IssuedOf(s', q) == IssuedOf(s, q)
  {
    hide Sound, Reaches;
    ProducerStep(s, Push(p));
    ReachesOne(s, Push(p));
    var t := Step(s, Push(p));
    CallUpdated(s, p, Unlocking, p);
    s' := Leaves(t, p);
    ReachesConcat(s, [Push(p)], t, [Release(p)], s');
    assert [Push(p)] + [Release(p)] == [Push(p), Release(p)];
  }

  /** Whoever is in a critical section can leave it; what it had still to push is its next message. */
  lemma ProducerLeaves(s: State) returns (schedule: seq<Action>, s': State)
    requires Sound(s)
    ensures NoStop(schedule) && Reaches(s, schedule, s') && Sound(s') && !s'.owner.Of?
    ensures s'.stop == s.stop && s'.place == s.place && s.past.pushed <= s'.past.pushed
    ensures forall p :: CallOf(s, p) == Pushing ==> Message(p, IssuedOf(s, p)) in s'.past.pushed
    ensures forall p :: CallOf(s, p) != Pushing ==> IssuedOf(s', p) == IssuedOf(s, p)
  {
    hide Enabled, Step, CallOf;
    if s.owner.Of? {
      var p := s.owner.p;
      HolderIsIn(s);
      hide Sound, Reaches;
      if CallOf(s, p) == Pushing {
        s' := PushesAndLeaves(s, p);
        schedule := [Push(p), Release(p)];
      } else {
        s' := Leaves(s, p);
        schedule := [Release(p)];
      }
    } else {
      HolderIsIn(s);
      schedule, s' := [], s;
    }
  }

  lemma HolderIsIn(s: State)
    requires Sound(s)
    ensures s.owner.Of? ==> CallOf(s, s.owner.p) in {Pushing, Unlocking}
    ensures forall q :: CallOf(s, q) in {Pushing, Unlocking} ==> s.owner == Of(q)
  {
    hide FlowInvariant, StopInvariant, OrderInvariant, IdleInvariant, CallOf;
    assert s.owner.Of? ==> HolderAgrees(s, s.owner.p);
    forall q | CallOf(s, q) in {Pushing, Unlocking} ensures s.owner == Of(q) {
      assert HolderAgrees(s, q);
    }
  }

  lemma NoStopConcat(a: seq<Action>, b: seq<Action>)
    requires NoStop(a) && (NoStop(b) || Quiet(b))
    ensures NoStop(a + b)
  {}

  lemma ReachableSound(s: State)
    requires Reachable(s) && !ShuttingDown(s.place)
    ensures Sound(s)
  {
    ReachableInvariant(s);
    hide Invariant, Reachable;
  }

  /** In every reachable state in which nobody has asked to stop, everything pushed can still be emitted, without a stop. */
  lemma CanDeliver(s: State) returns (schedule: seq<Action>, s': State)
    requires Reachable(s) && !s.stop
    ensures NoStop(schedule) && Reaches(s, schedule, s') && s.past.pushed <= s'.emitted
  {
    ReachableInvariant(s);
    StoppedOrRunning(s);
    ReachableSound(s);
    var first, mid := ProducerLeaves(s);
    SoundIsFree(mid);
    hide Invariant, Reachable, Reaches, Sound, WorkerFree;
    var rest;
    rest, s' := WorkerDelivers(mid);
    schedule := first + rest;
    ReachesConcat(s, first, mid, rest, s');
    NoStopConcat(first, rest);
  }

  /** How far it is to the end once the stop flag is set. */
  function ToDone(place: Place): nat {
    match place
    case Lock => 13
    case Waiting => 11
    case Woken => 10
    case TestEmpty => 12
    case TestStop => 9
    case Pop => 10
    case Unlock => 9
    case Emit => 8
    case CheckStop => 7
    case FinalLock => 6
    case Swap => 5
    case SwapUnlock => 4
    case Drain => 3
    case Unwind => 2
    case Done => 0
  }

  ghost predicate Closer(s: State, t: State) {
    ToDone(t.place) < ToDone(s.place) || (t.place == s.place && |t.drain| < |s.drain|)
  }

  lemma DoneStep(s: State)
    requires s.stop && s.place != Done && FlowInvariant(s)
    ensures s.place in {TestEmpty, Pop, Drain} ==> Closer(s, Step(s, WorkerAction(s)))
    ensures s.place !in {TestEmpty, Pop, Drain} ==> Closer(s, Step(s, WorkerAction(s)))
  {}

  /** The queue is only taken from by Pop and Swap, and only the swap begins the shutdown. */
  lemma DoneStepQueue(s: State)
    ensures var t := Step(s, WorkerAction(s));
      && (s.place != Pop && s.place != Swap ==> t.queue == s.queue)
      && (s.place == Swap ==> t.queue == [])
      && (s.place != Swap && !ShuttingDown(s.place) ==> !ShuttingDown(t.place))
  {}

  lemma {:induction false} WorkerFinishes(s: State) returns (schedule: seq<Action>, s': State)
    requires WorkerFree(s) && s.stop
    ensures Quiet(schedule) && Reaches(s, schedule, s') && s'.place == Done && s'.past.pushed == s.past.pushed
    ensures s.queue == [] || !ShuttingDown(s.place) ==> s'.emitted == s'.past.pushed
    decreases ToDone(s.place), |s.drain|
  {
    if s.place == Done {
      schedule, s' := [], s;
      assert s.emitted + [] + [] + [] == s.emitted;
    } else {
      var a := WorkerAction(s);
      DoneStep(s);
      DoneStepQueue(s);
      WorkerCanStep(s);
      WorkerTakesNothing(s);
      hide FlowInvariant, LockAgrees, StopInvariant, Step, Enabled;
      var rest;
      rest, s' := WorkerFinishes(Step(s, a));
      schedule := [a] + rest;
      assert schedule[1..] == rest;
    }
  }

  /** Before the last swap the worker can still be stopped and finish, with everything pushed so far emitted. */
  lemma CanFinish(s: State) returns (schedule: seq<Action>, s': State)
    requires Reachable(s) && !ShuttingDown(s.place)
    ensures Reaches(s, schedule, s') && s'.place == Done && s.past.pushed <= s'.emitted
  {
    ReachableSound(s);
    var first, mid := ProducerLeaves(s);
    ProducerStep(mid, SetStop);
    var stopped := Step(mid, SetStop);
    SoundIsFree(stopped);
    assert Reaches(stopped, [], stopped);
    assert [SetStop][1..] == [];
    assert Reaches(mid, [SetStop], stopped);
    hide Invariant, Reachable, Reaches, Sound, WorkerFree;
    var rest;
    rest, s' := WorkerFinishes(stopped);
    ReachesConcat(mid, [SetStop], stopped, rest, s');
    ReachesConcat(s, first, mid, [SetStop] + rest, s');
    schedule := first + ([SetStop] + rest);
  }

  /** How far it is to the worker's giving the mutex back. */
  function ToRelease(place: Place): nat {
    match place
    case TestStop => 4
    case TestEmpty => 3
    case Pop => 2
    case Unlock => 1
    case _ => 0
  }

  lemma {:induction false} WorkerLetsGo(s: State) returns (schedule: seq<Action>, s': State)
    requires Sound(s) && !s.owner.Of? && !s.stop
    ensures NoStop(schedule) && Reaches(s, schedule, s') && Sound(s') && s'.owner == Free && !s'.stop
    ensures s'.past.pushed == s.past.pushed && s'.calls == s.calls && s'.issued == s.issued
    decreases ToRelease(s.place)
  {
    SoundIsFree(s);
    StoppedOrRunning(s);
    if s.owner == Free {
      schedule, s' := [], s;
    } else {
      HoldingStep(s);
      WorkerCanStep(s);
      WorkerTakesNothing(s);
      StepKeeps(s, WorkerAction(s));
      hide Invariant, WorkerFree, Enabled, Step;
      assert WorkerAction(s) == Work;
      var rest;
      rest, s' := WorkerLetsGo(Step(s, Work));
      schedule := [Work] + rest;
      assert schedule[1..] == rest;
    }
  }

  lemma HoldingStep(s: State)
    requires LockAgrees(s) && FlowInvariant(s) && s.owner == Worker && !s.stop && Running(s.place)
    ensures var t := Step(s, Work);
      s.place != Waiting && ToRelease(t.place) < ToRelease(s.place) && !GuardReleased(t)
  {}

  /** A thread outside its critical section can hand over its next message while the mutex is free. */
  lemma CanPush(s: State, p: Producer) returns (schedule: seq<Action>, s': State)
    requires Sound(s) && s.owner == Free && !s.stop && CallOf(s, p) in {Idle, Locking}
    ensures NoStop(schedule) && Reaches(s, schedule, s') && Sound(s') && !s'.owner.Of? && !s'.stop
    ensures s'.past.pushed == s.past.pushed + [Message(p, IssuedOf(s, p))]
  {
    hide Sound;
    var t := s;
    if CallOf(s, p) == Idle {
      ProducerStep(s, Begin(p));
      t := Step(s, Begin(p));
      CallUpdated(s, p, Locking, p);
    }
    ProducerStep(t, Acquire(p));
    var u := Step(t, Acquire(p));
    CallUpdated(t, p, Pushing, p);
    ProducerStep(u, Push(p));
    var v := Step(u, Push(p));
    CallUpdated(u, p, Unlocking, p);
    ProducerStep(v, Release(p));
    s' := Step(v, Release(p));
    var tail := [Acquire(p), Push(p), Release(p)];
    assert tail[1..] == [Push(p), Release(p)] && [Push(p), Release(p)][1..] == [Release(p)] && [Release(p)][1..] == [];
    assert Reaches(s', [], s') && Reaches(v, [Release(p)], s') && Reaches(u, [Push(p), Release(p)], s');
    assert Reaches(t, tail, s');
    schedule := if CallOf(s, p) == Idle then [Begin(p)] + tail else tail;
    assert CallOf(s, p) == Idle ==> schedule[1..] == tail;
  }

  /** In every reachable state without a stop every thread can still have its next message emitted. */
  lemma CanProduce(s: State, p: Producer) returns (schedule: seq<Action>, s': State)
    requires Reachable(s) && !s.stop
    ensures NoStop(schedule) && Reaches(s, schedule, s') && Message(p, IssuedOf(s, p)) in s'.emitted
  {
    ReachableInvariant(s);
    StoppedOrRunning(s);
    ReachableSound(s);
    var m := Message(p, IssuedOf(s, p));
    hide Reachable, Reaches, Step, Enabled, NoStop;
    var a, mid := HandsOver(s, p);
    SoundIsFree(mid);
    StoppedOrRunning(mid);
    var rest;
    rest, s' := WorkerDelivers(mid);
    ReachesConcat(s, a, mid, rest, s');
    NoStopConcat(a, rest);
    schedule := a + rest;
  }

  lemma HandsOver(s: State, p: Producer) returns (schedule: seq<Action>, s': State)
    requires Sound(s) && !s.stop
    ensures NoStop(schedule) && Reaches(s, schedule, s') && Sound(s') && !s'.owner.Of? && !s'.stop
    ensures Message(p, IssuedOf(s, p)) in s'.past.pushed
  {
    hide Sound, Reaches, Step, Enabled, NoStop, Invariant;
    if CallOf(s, p) == Pushing {
      schedule, s' := ProducerLeaves(s);
    } else {
      var a, s1 := OthersLeave(s, p);
      var b, s2 := WorkerLetsGo(s1);
      var c;
      c, s' := CanPush(s2, p);
      ReachesConcat(s, a, s1, b, s2);
      ReachesConcat(s, a + b, s2, c, s');
      NoStopConcat(a, b);
      NoStopConcat(a + b, c);
      schedule := (a + b) + c;
    }
  }

  /** The thread p itself pushes nothing when it has pushed already, and is outside afterwards. */
  lemma OthersLeave(s: State, p: Producer) returns (schedule: seq<Action>, s': State)
    requires Sound(s) && CallOf(s, p) != Pushing && !s.stop
    ensures NoStop(schedule) && Reaches(s, schedule, s') && Sound(s') && !s'.owner.Of? && !s'.stop
    ensures CallOf(s', p) in {Idle, Locking} && IssuedOf(s', p) == IssuedOf(s, p)
  {
    hide Sound, Reaches, Step, Enabled, NoStop, CallOf, IssuedOf;
    schedule, s' := ProducerLeaves(s);
    HolderIsIn(s');
    match CallOf(s', p)
    case Idle =>
    case Locking =>
    case Pushing =>
    case Unlocking =>
  }
}
