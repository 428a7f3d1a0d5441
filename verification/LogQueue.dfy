/**
 * The asynchronous log of gts/log.cpp, lines 241-369: one worker thread, any number of producers and
 * a stop flag, as the atomic steps between which threads can interleave.
 */
module LogQueue {

  type Producer = nat

  /** The n-th message that one producer hands over. */
  datatype Message = Message(producer: Producer, number: nat)

  /** Where produce stands in one thread. */
  datatype Call = Idle | Locking | Pushing | Unlocking

  /** Where the worker stands. In the places marked * it holds the mutex. */
  datatype Place =
    | CheckStop  // about to look at the stop flag, before another message
    | Lock       // taking the mutex
    | TestEmpty  // * about to see whether a message is queued
    | Waiting    // asleep on the condition, the mutex given back
    | Woken      // notified, or awake for no reason, taking the mutex back
    | TestStop   // * awake, about to look at the stop flag
    | Pop        // * taking the first message
    | Unlock     // * giving the mutex back
    | Emit       // printing the message in hand
    | FinalLock  // out of the loop, taking the mutex
    | Swap       // * taking over what is left of the queue
    | SwapUnlock // * giving the mutex back for good
    | Drain      // printing what was left
    | Unwind     // leaving the loop's scope, whose lock guard gives the mutex back once more
    | Done

  datatype Owner = Free | Worker | Of(p: Producer)

  /**
   * History; nothing in a step depends on it. pushed is everything pushed so far; atStop, atSwap and atIdle
   * say how much that was when the stop flag was set, at the last swap, and when the worker last lowered the
   * wait flag, if it ever did (idled).
   */
  datatype Past = Past(pushed: seq<Message>, atStop: nat, atSwap: nat, idled: bool, atIdle: nat)

  /** guard: the worker stopped while it waited, so that a lock guard in scope still takes the mutex for its own. */
  datatype State = State(
    queue: seq<Message>, stop: bool, waitFlag: bool, owner: Owner, guard: bool,
    place: Place, inHand: seq<Message>, drain: seq<Message>, emitted: seq<Message>,
    calls: map<Producer, Call>, issued: map<Producer, nat>, past: Past)

  datatype Action = Begin(p: Producer) | Acquire(p: Producer) | Push(p: Producer) | Release(p: Producer)
    | SetStop | Wake | Work

  const START := State([], false, false, Free, false, CheckStop, [], [], [], map[], map[], Past([], 0, 0, false, 0))

  function CallOf(s: State, p: Producer): Call { if p in s.calls then s.calls[p] else Idle }

  function IssuedOf(s: State, p: Producer): nat { if p in s.issued then s.issued[p] else 0 }

  predicate Enabled(s: State, a: Action) {
    match a
    case Begin(p) => CallOf(s, p) == Idle
    case Acquire(p) => CallOf(s, p) == Locking && s.owner == Free
    case Push(p) => CallOf(s, p) == Pushing
    case Release(p) => CallOf(s, p) == Unlocking
    case SetStop => true
    case Wake => s.place == Waiting
    case Work =>
      match s.place {
        case Lock | Woken | FinalLock => s.owner == Free
        case Waiting | Done => false
        case _ => true
      }
  }

  /** One step of the worker. */
  function WorkerStep(s: State): State {
    match s.place
    case CheckStop => s.(place := if s.stop then FinalLock else Lock)
    case Lock => s.(place := TestEmpty, owner := Worker)
    case TestEmpty =>
      if s.queue == [] then s.(place := Waiting, waitFlag := false, owner := Free,
                               past := s.past.(idled := true, atIdle := |s.past.pushed|))
      else s.(place := Pop)
    case Woken => s.(place := TestStop, owner := Worker)
    case TestStop => if s.stop then s.(place := Swap, guard := true) else s.(place := TestEmpty, waitFlag := true)
    case Pop => if s.queue == [] then s else s.(place := Unlock, inHand := [s.queue[0]], queue := s.queue[1..])
    case Unlock => s.(place := Emit, owner := Free)
    case Emit => s.(place := CheckStop, emitted := s.emitted + s.inHand, inHand := [])
    case FinalLock => s.(place := Swap, owner := Worker)
    case Swap =>
      s.(place := SwapUnlock, drain := s.queue, queue := [], past := s.past.(atSwap := |s.past.pushed|))
    case SwapUnlock => s.(place := Drain, owner := Free)
    case Drain =>
      if s.drain == [] then s.(place := if s.guard then Unwind else Done) else s.(emitted := s.emitted + [s.drain[0]], drain := s.drain[1..])
    case Unwind => s.(place := Done, owner := Free)
    case Waiting => s
    case Done => s
  }

  function Step(s: State, a: Action): State {
    match a
    case Begin(p) => s.(calls := s.calls[p := Locking])
    case Acquire(p) => s.(calls := s.calls[p := Pushing], owner := Of(p))
    case Push(p) =>
      var m := Message(p, IssuedOf(s, p));
      s.(calls := s.calls[p := Unlocking], queue := s.queue + [m], past := s.past.(pushed := s.past.pushed + [m]),
         issued := s.issued[p := IssuedOf(s, p) + 1])
    case Release(p) => s.(calls := s.calls[p := Idle], owner := Free)
    case SetStop => if s.stop then s else s.(stop := true, past := s.past.(atStop := |s.past.pushed|))
    case Wake => s.(place := Woken)
    case Work => WorkerStep(s)
  }

  /** s' is reached from s by a schedule in which every action is enabled. */
  ghost predicate Reaches(s: State, schedule: seq<Action>, s': State)
    decreases |schedule|
  {
    if |schedule| == 0 then s == s'
    else Enabled(s, schedule[0]) && Reaches(Step(s, schedule[0]), schedule[1..], s')
  }

  ghost predicate Reachable(s: State) { exists schedule :: Reaches(START, schedule, s) }

  // What every step keeps.

  predicate WorkerHolds(place: Place) {
    place in {TestEmpty, TestStop, Pop, Unlock, Swap, SwapUnlock}
  }

  predicate ShuttingDown(place: Place) { place in {SwapUnlock, Drain, Unwind, Done} }

  /** The mutex is held by whoever stands between its acquisition and its release. */
  ghost predicate LockAgrees(s: State) {
    && (s.owner == Worker <==> WorkerHolds(s.place))
    && forall p :: HolderAgrees(s, p)
  }

  /** The lock guard of a worker that stopped while it waited has been destroyed. */
  predicate GuardReleased(s: State) { s.guard && s.place == Done }

  ghost predicate LockInvariant(s: State) {
    && (!GuardReleased(s) ==> LockAgrees(s))
    && (s.place == Unwind ==> s.guard)
  }

  /** Nothing is lost, repeated or reordered on the way. */
  predicate FlowInvariant(s: State) {
    && s.emitted + s.inHand + s.drain + s.queue == s.past.pushed
    && (s.inHand != [] <==> s.place in {Unlock, Emit})
    && (s.drain != [] ==> s.place in {SwapUnlock, Drain})
    && |s.inHand| <= 1
    && (s.place == Pop ==> s.queue != [])
  }

  /** Stopping: the final swap comes after the flag, and takes everything pushed so far. */
  predicate StopInvariant(s: State) {
    && (s.place in {FinalLock, Swap} || ShuttingDown(s.place) ==> s.stop)
    && s.past.atStop <= |s.past.pushed|
    && (ShuttingDown(s.place) ==> |s.emitted + s.drain| == s.past.atSwap && s.past.atStop <= s.past.atSwap)
  }

  /** Between lowering the flag and raising it or stopping, the worker emits nothing. */
  predicate IdleInvariant(s: State) {
    && s.past.atIdle <= |s.emitted|
    && (!s.past.idled ==> s.past.atIdle == 0)
    && (s.place in {Waiting, Woken, TestStop} ==> s.past.idled && !s.waitFlag && |s.emitted| == s.past.atIdle)
    && (s.past.idled && !s.waitFlag ==> s.place in {Waiting, Woken, TestStop, Swap} || ShuttingDown(s.place))
  }

  function Count(ms: seq<Message>, p: Producer): nat {
    if |ms| == 0 then 0 else Count(ms[..|ms| - 1], p) + if ms[|ms| - 1].producer == p then 1 else 0
  }

  /** Every message carries the number of messages that its producer pushed before it. */
  ghost predicate Numbered(ms: seq<Message>) {
    forall i :: 0 <= i < |ms| ==> ms[i].number == Count(ms[..i], ms[i].producer)
  }

  ghost predicate OrderInvariant(s: State) {
    Numbered(s.past.pushed) && forall p :: IssuedOf(s, p) == Count(s.past.pushed, p)
  }

  ghost predicate Invariant(s: State) {
    LockInvariant(s) && FlowInvariant(s) && StopInvariant(s) && OrderInvariant(s) && IdleInvariant(s)
  }

  lemma CallUpdated(s: State, p: Producer, c: Call, q: Producer)
    ensures CallOf(s.(calls := s.calls[p := c]), q) == if q == p then c else CallOf(s, q)
  {}

  ghost predicate HolderAgrees(s: State, q: Producer) {
    s.owner == Of(q) <==> CallOf(s, q) in {Pushing, Unlocking}
  }

  lemma ProducerKeepsLock(s: State, a: Action, q: Producer)
    requires (forall p :: HolderAgrees(s, p)) && Enabled(s, a) && !a.Work?
    ensures HolderAgrees(Step(s, a), q)
  {
    assert HolderAgrees(s, q);
    if a.Begin? || a.Acquire? || a.Push? || a.Release? {
      assert HolderAgrees(s, a.p);
      assert Step(s, a).calls == s.calls[a.p := CallOf(Step(s, a), a.p)];
      CallUpdated(s, a.p, CallOf(Step(s, a), a.p), q);
    }
  }

  lemma WorkerKeepsLock(s: State, q: Producer)
    requires LockAgrees(s) && Enabled(s, Work) && (s.place == Unwind ==> s.owner == Free)
    ensures HolderAgrees(WorkerStep(s), q)
    ensures WorkerStep(s).owner == Worker <==> WorkerHolds(WorkerStep(s).place)
  {
    assert HolderAgrees(s, q);
    assert WorkerStep(s).calls == s.calls;
  }

  /** Every step keeps the mutex with its holder, but for the guard's release of a mutex that is not free. */
  lemma StepKeepsLock(s: State, a: Action)
    requires LockAgrees(s) && Enabled(s, a) && (a == Work && s.place == Unwind ==> s.owner == Free)
    ensures LockAgrees(Step(s, a))
  {
    var t := Step(s, a);
    if a.Work? {
      WorkerKeepsLock(s, 0);
    } else if a.Release? {
      assert HolderAgrees(s, a.p);
    }
    hide HolderAgrees, WorkerStep;
    forall q ensures HolderAgrees(t, q) {
      if a.Work? {
        WorkerKeepsLock(s, q);
      } else {
        ProducerKeepsLock(s, a, q);
      }
    }
  }

  lemma GuardStep(s: State, a: Action)
    requires Enabled(s, a)
    ensures GuardReleased(s) ==> GuardReleased(Step(s, a))
    ensures s.guard ==> Step(s, a).guard
    ensures Step(s, a).place == Unwind && (s.place == Unwind ==> s.guard) ==> Step(s, a).guard
    ensures a == Work && s.place == Unwind ==> Step(s, a) == s.(place := Done, owner := Free)
  {}

  lemma StepKeepsLockInvariant(s: State, a: Action)
    requires LockInvariant(s) && Enabled(s, a)
    ensures LockInvariant(Step(s, a))
  {
    GuardStep(s, a);
    hide LockAgrees, Step, Enabled;
    if !GuardReleased(s) && !(a == Work && s.place == Unwind) {
      StepKeepsLock(s, a);
    }
  }

  lemma PopFlow(s: State)
    requires FlowInvariant(s) && s.place == Pop
    ensures FlowInvariant(WorkerStep(s))
  {
    assert s.queue == [s.queue[0]] + s.queue[1..];
    assert s.emitted + [] + [] + s.queue == s.emitted + [s.queue[0]] + [] + s.queue[1..];
  }

  lemma DrainFlow(s: State)
    requires FlowInvariant(s) && s.place == Drain
    ensures FlowInvariant(WorkerStep(s))
  {
    if s.drain != [] {
      assert s.drain == [s.drain[0]] + s.drain[1..];
      assert s.emitted + [] + s.drain + s.queue == (s.emitted + [s.drain[0]]) + [] + s.drain[1..] + s.queue;
    }
  }

  lemma SwapFlow(s: State)
    requires FlowInvariant(s) && s.place in {Swap, Emit}
    ensures FlowInvariant(WorkerStep(s))
  {
    assert s.emitted + s.inHand + [] + s.queue == (s.emitted + s.inHand) + [] + [] + s.queue;
    assert s.emitted + [] + [] + s.queue == s.emitted + [] + s.queue + [];
  }

  lemma StepKeepsFlow(s: State, a: Action)
    requires FlowInvariant(s) && Enabled(s, a)
    ensures FlowInvariant(Step(s, a))
  {
    hide WorkerStep;
    match a
    case Push(p) =>
      var m := Message(p, IssuedOf(s, p));
      assert s.emitted + s.inHand + s.drain + (s.queue + [m]) == s.past.pushed + [m];
    case Work => WorkerKeepsFlow(s);
    case _ =>
  }

  lemma WorkerKeepsFlow(s: State)
    requires FlowInvariant(s)
    ensures FlowInvariant(WorkerStep(s))
  {
    if s.place == Pop {
      PopFlow(s);
    } else if s.place == Drain {
      DrainFlow(s);
    } else if s.place in {Swap, Emit} {
      SwapFlow(s);
    } else {
      WorkerMovesNothing(s);
    }
    hide WorkerStep;
  }

  lemma WorkerMovesNothing(s: State)
    requires s.place !in {Pop, Drain, Swap, Emit}
    ensures var t := WorkerStep(s);
      t.emitted == s.emitted && t.inHand == s.inHand && t.drain == s.drain && t.queue == s.queue
    ensures WorkerStep(s).past.pushed == s.past.pushed
    ensures WorkerStep(s).place !in {SwapUnlock, Emit} || s.place == Unlock
    ensures WorkerStep(s).place == Pop ==> s.queue != []
  {
    WorkerPushesNothing(s);
  }

  lemma WorkerKeepsStop(s: State)
    requires StopInvariant(s) && FlowInvariant(s)
    ensures StopInvariant(WorkerStep(s))
  {
    if s.place == Swap {
      assert |s.emitted + s.queue| == |s.past.pushed| by { assert s.emitted + [] + [] + s.queue == s.emitted + s.queue; }
    }
  }

  lemma StepKeepsStop(s: State, a: Action)
    requires StopInvariant(s) && FlowInvariant(s) && Enabled(s, a)
    ensures StopInvariant(Step(s, a))
  {
    hide WorkerStep, FlowInvariant;
    if a.Work? {
      WorkerKeepsStop(s);
    }
  }

  lemma WorkerKeepsIdle(s: State)
    requires IdleInvariant(s) && FlowInvariant(s)
    ensures IdleInvariant(WorkerStep(s))
  {
    WorkerEmits(s);
    if s.place == TestEmpty && s.queue == [] {
      assert s.emitted + [] + [] + [] == s.emitted;
    }
  }

  lemma StepKeepsIdle(s: State, a: Action)
    requires IdleInvariant(s) && FlowInvariant(s) && Enabled(s, a)
    ensures IdleInvariant(Step(s, a))
  {
    hide WorkerStep, FlowInvariant;
    if a.Work? {
      WorkerKeepsIdle(s);
    }
  }

  lemma PushKeepsOrder(s: State, p: Producer)
    requires OrderInvariant(s)
    ensures OrderInvariant(Step(s, Push(p)))
  {
    var m := Message(p, IssuedOf(s, p));
    var more := s.past.pushed + [m];
    hide Count;
    forall i | 0 <= i < |more| ensures more[i].number == Count(more[..i], more[i].producer) {
      assert more[..i] == s.past.pushed[..i];
      assert i == |s.past.pushed| ==> s.past.pushed[..i] == s.past.pushed;
    }
    var t := Step(s, Push(p));
    forall q ensures IssuedOf(t, q) == Count(t.past.pushed, q) {
      CountMore(s.past.pushed, m, q);
      assert IssuedOf(s, q) == Count(s.past.pushed, q);
    }
  }

  lemma CountMore(ms: seq<Message>, m: Message, p: Producer)
    ensures Count(ms + [m], p) == Count(ms, p) + if m.producer == p then 1 else 0
  {
    assert (ms + [m])[..|ms|] == ms;
  }

  lemma StepKeepsOrder(s: State, a: Action)
    requires OrderInvariant(s) && Enabled(s, a)
    ensures OrderInvariant(Step(s, a))
  {
    hide Numbered, Count, WorkerStep;
    if a.Push? {
      PushKeepsOrder(s, a.p);
    } else {
      WorkerPushesNothing(s);
      WorkerIssuesNothing(s);
      var t := Step(s, a);
      assert t.past.pushed == s.past.pushed && t.issued == s.issued;
      forall p ensures IssuedOf(t, p) == Count(t.past.pushed, p) {
        assert IssuedOf(t, p) == IssuedOf(s, p);
      }
    }
  }

  lemma StartInvariant()
    ensures Invariant(START)
  {}

  lemma {:induction false} ReachesInvariant(s: State, schedule: seq<Action>, s': State)
    requires Invariant(s) && Reaches(s, schedule, s')
    ensures Invariant(s')
    decreases |schedule|
  {
    hide LockInvariant, FlowInvariant, StopInvariant, OrderInvariant, IdleInvariant, Step, Enabled;
    if |schedule| > 0 {
      StepKeepsLockInvariant(s, schedule[0]);
      StepKeepsFlow(s, schedule[0]);
      StepKeepsStop(s, schedule[0]);
      StepKeepsOrder(s, schedule[0]);
      StepKeepsIdle(s, schedule[0]);
      ReachesInvariant(Step(s, schedule[0]), schedule[1..], s');
    }
  }

  lemma ReachableInvariant(s: State)
    requires Reachable(s)
    ensures Invariant(s)
  {
    hide Invariant;
    StartInvariant();
    var schedule :| Reaches(START, schedule, s);
    ReachesInvariant(START, schedule, s);
  }

  // Safety over every interleaving.

  predicate Critical(s: State, p: Producer) { CallOf(s, p) in {Pushing, Unlocking} }

  /** At most one thread is between taking and giving back the mutex. */
  ghost predicate Exclusive(s: State) {
    && (WorkerHolds(s.place) ==> forall p :: !Critical(s, p))
    && forall p, q :: Critical(s, p) && Critical(s, q) ==> p == q
  }

  lemma AgreeingIsExclusive(s: State)
    requires LockAgrees(s)
    ensures Exclusive(s)
  {
    hide CallOf;
    forall p, q | Critical(s, p) && Critical(s, q) ensures p == q {
      assert HolderAgrees(s, p) && HolderAgrees(s, q);
    }
    forall p | Critical(s, p) ensures !WorkerHolds(s.place) {
      assert HolderAgrees(s, p);
    }
  }

  /** Exclusion holds until the guard of a worker that stopped while it waited gives the mutex back again. */
  lemma MutualExclusion(s: State)
    requires Reachable(s) && !GuardReleased(s)
    ensures Exclusive(s)
  {
    ReachableInvariant(s);
    hide FlowInvariant, StopInvariant, OrderInvariant, IdleInvariant, Reachable;
    AgreeingIsExclusive(s);
  }

  lemma {:induction false} DoneKeepsLock(s: State, schedule: seq<Action>, s': State)
    requires LockAgrees(s) && s.place == Done && Reaches(s, schedule, s')
    ensures LockAgrees(s')
    decreases |schedule|
  {
    if |schedule| > 0 {
      StepKeepsLock(s, schedule[0]);
      DoneStays(s, schedule[0]);
      hide LockAgrees, Step, Enabled;
      DoneKeepsLock(Step(s, schedule[0]), schedule[1..], s');
    }
  }

  lemma DoneStays(s: State, a: Action)
    requires s.place == Done && Enabled(s, a)
    ensures Step(s, a).place == Done
  {}

  lemma SecondEnters(s: State, p: Producer, q: Producer)
    requires s.owner == Free && Critical(s, p) && CallOf(s, q) == Locking
    ensures Reaches(s, [Acquire(q)], Step(s, Acquire(q))) && !Exclusive(Step(s, Acquire(q)))
  {
    var s' := Step(s, Acquire(q));
    CallUpdated(s, q, Pushing, q);
    CallUpdated(s, q, Pushing, p);
    assert Critical(s', p) && Critical(s', q);
    assert Reaches(s', [], s');
    assert [Acquire(q)][1..] == [];
  }

  /** With one producer inside and the mutex free, a second one can come in. */
  lemma SecondProducer(s: State, p: Producer) returns (schedule: seq<Action>, s': State)
    requires s.owner == Free && Critical(s, p) && !Critical(s, p + 1)
    ensures Reaches(s, schedule, s') && !Exclusive(s')
  {
    var q := p + 1;
    if CallOf(s, q) == Idle {
      var t := Step(s, Begin(q));
      CallUpdated(s, q, Locking, q);
      CallUpdated(s, q, Locking, p);
      SecondEnters(t, p, q);
      schedule, s' := [Begin(q), Acquire(q)], Step(t, Acquire(q));
      assert schedule[1..] == [Acquire(q)];
      hide Exclusive, Critical, CallOf;
    } else {
      SecondEnters(s, p, q);
      schedule, s' := [Acquire(q)], Step(s, Acquire(q));
    }
  }

  /** After the guard's release exclusion goes on for good if and only if the mutex was free. */
  lemma ExclusionAfterRelease(s: State)
    requires Reachable(s) && s.place == Unwind
    ensures (forall schedule, s' :: Reaches(Step(s, Work), schedule, s') ==> Exclusive(s')) <==> s.owner == Free
  {
    ReachableInvariant(s);
    GuardStep(s, Work);
    hide FlowInvariant, StopInvariant, OrderInvariant, IdleInvariant, Reachable, Reaches, Step;
    var t := Step(s, Work);
    if s.owner == Free {
      StepKeepsLock(s, Work);
      forall schedule, s' | Reaches(t, schedule, s') ensures Exclusive(s') {
        DoneKeepsLock(t, schedule, s');
        AgreeingIsExclusive(s');
      }
    } else {
      assert s.owner.Of?;
      var p := s.owner.p;
      assert HolderAgrees(s, p) && HolderAgrees(s, p + 1);
      assert Critical(t, p) && !Critical(t, p + 1);
      var schedule, s' := SecondProducer(t, p);
    }
  }

  /** A schedule that gets there: the worker is stopped while it waits, and the guard takes the mutex from a producer. */
  lemma ExclusionCanFail() returns (s: State)
    ensures Reachable(s) && !Exclusive(s)
  {
    assert Reaches(START, [], START);
    assert Reachable(START);
    hide Reachable, Reaches, Exclusive;
    s := StoppedWaiting();
    ReachableMore(s, Begin(0));
    s := Step(s, Begin(0));
    ReachableMore(s, Acquire(0));
    s := Step(s, Acquire(0));
    ReachableMore(s, Work);
    s := Step(s, Work);
    var schedule, s' := SecondProducer(s, 0);
    ReachableFar(s, schedule, s');
    s := s';
  }

  lemma AsleepAtOnce() returns (s: State)
    requires Reachable(START)
    ensures Reachable(s) && s == START.(place := Waiting, past := START.past.(idled := true))
  {
    hide Reachable, Reaches;
    s := START;
    ReachableMore(s, Work);
    s := Step(s, Work);
    ReachableMore(s, Work);
    s := Step(s, Work);
    ReachableMore(s, Work);
    s := Step(s, Work);
  }

  lemma StoppedWaiting() returns (s: State)
    requires Reachable(START)
    ensures Reachable(s) && s.place == Unwind && s.owner == Free && s.calls == map[]
  {
    hide Reachable, Reaches;
    s := AsleepAtOnce();
    ReachableMore(s, SetStop);
    s := Step(s, SetStop);
    ReachableMore(s, Wake);
    s := Step(s, Wake);
    ReachableMore(s, Work);
    s := Step(s, Work);
    s := ShutDownAfterWaiting(s);
  }

  lemma ShutDownAfterWaiting(stopped: State) returns (s: State)
    requires Reachable(stopped) && stopped.place == TestStop && stopped.stop && stopped.queue == [] && stopped.calls == map[]
    ensures Reachable(s) && s.place == Unwind && s.owner == Free && s.calls == map[]
  {
    hide Reachable, Reaches;
    s := stopped;
    ReachableMore(s, Work);
    s := Step(s, Work);
    ReachableMore(s, Work);
    s := Step(s, Work);
    ReachableMore(s, Work);
    s := Step(s, Work);
    ReachableMore(s, Work);
    s := Step(s, Work);
  }

  /** What has been emitted, is in hand, is being drained and is queued, is exactly what was pushed, in order. */
  lemma Conservation(s: State)
    requires Reachable(s)
    ensures s.emitted + s.inHand + s.drain + s.queue == s.past.pushed
  {
    ReachableInvariant(s);
    hide Reachable;
  }

  /**
   * When the worker is done it has emitted exactly what was pushed before its last swap, in order,
   * and that includes everything pushed before the stop flag was set.
   */
  lemma DoneEmitsAll(s: State)
    requires Reachable(s) && s.place == Done
    ensures s.past.atStop <= s.past.atSwap <= |s.past.pushed| && s.emitted == s.past.pushed[..s.past.atSwap] && s.queue == s.past.pushed[s.past.atSwap..]
  {
    ReachableInvariant(s);
    hide Reachable, LockInvariant, OrderInvariant;
    assert s.emitted + [] + [] + s.queue == s.emitted + s.queue;
  }

  lemma {:induction false} CountMonotone(ms: seq<Message>, i: nat, j: nat, p: Producer)
    requires i <= j <= |ms|
    ensures Count(ms[..i], p) <= Count(ms[..j], p)
    ensures i < j && ms[i].producer == p ==> Count(ms[..i], p) < Count(ms[..j], p)
    decreases j - i
  {
    if i < j {
      CountMonotone(ms, i, j - 1, p);
      assert ms[..j] == ms[..j - 1] + [ms[j - 1]];
      CountMore(ms[..j - 1], ms[j - 1], p);
    }
  }

  /** No message is emitted twice, and the messages of one producer are emitted in the order of its calls. */
  lemma EmittedInOrder(s: State, i: nat, j: nat)
    requires Reachable(s) && i < j < |s.emitted|
    ensures s.emitted[i] != s.emitted[j]
    ensures s.emitted[i].producer == s.emitted[j].producer ==> s.emitted[i].number < s.emitted[j].number
  {
    ReachableInvariant(s);
    Conservation(s);
    hide Reachable, LockInvariant, FlowInvariant, StopInvariant, Count;
    assert s.past.pushed[i] == s.emitted[i] && s.past.pushed[j] == s.emitted[j];
    CountMonotone(s.past.pushed, i, j, s.emitted[j].producer);
  }

  /** The k-th message of a producer is emitted only after all its earlier ones. */
  lemma EmittedWithPredecessors(s: State, j: nat, n: nat) returns (i: nat)
    requires Reachable(s) && j < |s.emitted| && n < s.emitted[j].number
    ensures i < j && s.emitted[i] == Message(s.emitted[j].producer, n)
  {
    ReachableInvariant(s);
    Conservation(s);
    hide Reachable, LockInvariant, FlowInvariant, StopInvariant, Count;
    assert s.past.pushed[j] == s.emitted[j];
    assert s.past.pushed[..j] != [] by { NoneCounted(s.emitted[j].producer); }
    i := FindNumber(s.past.pushed, j, s.emitted[j].producer, n);
    assert s.past.pushed[i] == s.emitted[i];
  }

  lemma NoneCounted(p: Producer)
    ensures Count([], p) == 0
  {}

  lemma {:induction false} FindNumber(ms: seq<Message>, j: nat, p: Producer, n: nat) returns (i: nat)
    requires Numbered(ms) && 0 < j <= |ms| && n < Count(ms[..j], p)
    ensures i < j && ms[i] == Message(p, n)
  {
    assert ms[..j] == ms[..j - 1] + [ms[j - 1]];
    CountMore(ms[..j - 1], ms[j - 1], p);
    if n < Count(ms[..j - 1], p) {
      assert ms[..j - 1] != [];
      i := FindNumber(ms, j - 1, p, n);
    } else {
      i := j - 1;
    }
  }

  /** Once the worker is done nothing more is ever emitted, whatever is still pushed. */
  lemma {:induction false} NothingAfterDone(s: State, schedule: seq<Action>, s': State)
    requires s.place == Done && Reaches(s, schedule, s')
    ensures s'.place == Done && s'.emitted == s.emitted
    decreases |schedule|
  {
    if |schedule| > 0 {
      NothingAfterDone(Step(s, schedule[0]), schedule[1..], s');
    }
  }

  lemma {:induction false} ReachesMore(s: State, schedule: seq<Action>, mid: State, a: Action)
    requires Reaches(s, schedule, mid) && Enabled(mid, a)
    ensures Reaches(s, schedule + [a], Step(mid, a))
    decreases |schedule|
  {
    hide Step, Enabled;
    if |schedule| > 0 {
      assert (schedule + [a])[0] == schedule[0] && (schedule + [a])[1..] == schedule[1..] + [a];
      ReachesMore(Step(s, schedule[0]), schedule[1..], mid, a);
    } else {
      assert (schedule + [a])[0] == a && (schedule + [a])[1..] == [];
    }
  }

  lemma ReachableMore(s: State, a: Action)
    requires Reachable(s) && Enabled(s, a)
    ensures Reachable(Step(s, a))
  {
    hide Step, Enabled, Reaches;
    var schedule :| Reaches(START, schedule, s);
    ReachesMore(START, schedule, s, a);
  }

  /** The bound of DoneEmitsAll is sharp: a message pushed after the last swap is never emitted. */
  lemma LateMessageIsLost() returns (s: State)
    ensures Reachable(s) && s.place == Done && s.past.pushed == [Message(0, 0)] && s.emitted == []
  {
    assert Reaches(START, [], START);
    assert Reachable(START);
    hide Reachable, Reaches;
    s := ShutDownState();
    s := PushOne(s);
    ReachableMore(s, Work);
    s := Step(s, Work);
  }

  lemma ShutDownState() returns (s: State)
    requires Reachable(START)
    ensures Reachable(s)
    ensures s == START.(stop := true, place := Drain)
  {
    hide Reachable, Reaches;
    s := START;
    ReachableMore(s, SetStop);
    s := Step(s, SetStop);
    ReachableMore(s, Work);
    s := Step(s, Work);
    ReachableMore(s, Work);
    s := Step(s, Work);
    ReachableMore(s, Work);
    s := Step(s, Work);
    ReachableMore(s, Work);
    s := Step(s, Work);
  }

  lemma PushOne(s: State) returns (s': State)
    requires Reachable(s) && s.owner == Free && s.calls == map[] && s.issued == map[]
    ensures Reachable(s')
    ensures s' == s.(queue := s.queue + [Message(0, 0)], past := s.past.(pushed := s.past.pushed + [Message(0, 0)]),
                      calls := s'.calls, issued := s'.issued)
  {
    hide Reachable, Reaches;
    s' := s;
    ReachableMore(s', Begin(0));
    s' := Step(s', Begin(0));
    ReachableMore(s', Acquire(0));
    s' := Step(s', Acquire(0));
    ReachableMore(s', Push(0));
    s' := Step(s', Push(0));
    ReachableMore(s', Release(0));
    s' := Step(s', Release(0));
  }

  /**
   * What the wait flag says when it is down. Always: everything pushed before it was last lowered has been
   * emitted. Unless the worker is stopping: nothing else has been, so nothing is outstanding exactly when
   * nothing was pushed since. Before the worker has lowered it for the first time it says nothing.
   */
  lemma WaitGuarantee(s: State)
    requires Reachable(s)
    ensures s.past.atIdle <= |s.emitted| <= |s.past.pushed| && s.emitted[..s.past.atIdle] == s.past.pushed[..s.past.atIdle]
    ensures s.past.idled && !s.waitFlag && !s.stop ==>
      s.emitted == s.past.pushed[..s.past.atIdle] && (s.emitted == s.past.pushed <==> |s.past.pushed| == s.past.atIdle)
    ensures s.place == Waiting ==> s.past.idled && !s.waitFlag && s.emitted == s.past.pushed[..s.past.atIdle]
    ensures !s.past.idled ==> s.past.atIdle == 0
  {
    ReachableInvariant(s);
    Conservation(s);
    hide Reachable, LockInvariant, OrderInvariant;
  }

  lemma {:induction false} HistoryGrows(s: State, schedule: seq<Action>, s': State)
    requires Reaches(s, schedule, s')
    ensures s.past.pushed <= s'.past.pushed && s.emitted <= s'.emitted
    decreases |schedule|
  {
    if |schedule| > 0 {
      StepGrows(s, schedule[0]);
      hide Step, Enabled;
      HistoryGrows(Step(s, schedule[0]), schedule[1..], s');
    }
  }

  lemma StepGrows(s: State, a: Action)
    ensures s.past.pushed <= Step(s, a).past.pushed && s.emitted <= Step(s, a).emitted
  {
    if a.Work? {
      WorkerEmits(s);
      WorkerPushesNothing(s);
    }
    hide WorkerStep;
  }

  lemma WorkerIssuesNothing(s: State)
    ensures s.place in {Pop, Emit, Drain, Swap} ==> WorkerStep(s).issued == s.issued
    ensures s.place !in {Pop, Emit, Drain, Swap} ==> WorkerStep(s).issued == s.issued
  {}

  lemma WorkerPushesNothing(s: State)
    ensures s.place != TestEmpty && s.place != Swap ==> WorkerStep(s).past == s.past
    ensures s.place == TestEmpty || s.place == Swap ==> WorkerStep(s).past.pushed == s.past.pushed
    ensures s.place == Swap ==> WorkerStep(s).past == s.past.(atSwap := |s.past.pushed|)
  {}

  /** Only two steps emit. */
  lemma WorkerEmits(s: State)
    ensures s.place != Emit && s.place != Drain ==> WorkerStep(s).emitted == s.emitted
    ensures s.place == Emit ==> WorkerStep(s).emitted == s.emitted + s.inHand
    ensures s.place == Drain ==> WorkerStep(s).emitted == s.emitted + if s.drain == [] then [] else [s.drain[0]]
  {}

  lemma {:induction false} ReachableFar(s: State, schedule: seq<Action>, s': State)
    requires Reachable(s) && Reaches(s, schedule, s')
    ensures Reachable(s')
    decreases |schedule|
  {
    hide Reachable, Step, Enabled;
    if |schedule| > 0 {
      ReachableMore(s, schedule[0]);
      ReachableFar(Step(s, schedule[0]), schedule[1..], s');
    }
  }

  /**
   * When the worker lowers the flag at some time after s, as it may while a thread waits, everything
   * pushed by s has been emitted from then on.
   */
  lemma LoweredSince(s: State, before: seq<Action>, mid: State, after: seq<Action>, s': State)
    requires Reachable(s) && Reaches(s, before, mid)
    requires mid.place == TestEmpty && mid.queue == [] && Reaches(Step(mid, Work), after, s')
    ensures s.past.pushed <= s'.emitted
  {
    hide Reachable, Reaches;
    ReachableFar(s, before, mid);
    HistoryGrows(s, before, mid);
    HistoryGrows(Step(mid, Work), after, s');
    ReachableMore(mid, Work);
    WaitGuarantee(Step(mid, Work));
    assert Step(mid, Work).emitted == mid.past.pushed[..|mid.past.pushed|] == mid.past.pushed;
    hide Step;
  }

  /**
   * logger::wait returns when the wait flag is down, which does not mean that the queue is empty: not
   * before the worker has first lowered the flag, and not while it has yet to wake up after a push.
   */
  lemma WaitMayReturnEarly() returns (s: State, t: State)
    ensures Reachable(s) && !s.waitFlag && !s.past.idled && s.queue == [Message(0, 0)] && s.emitted == []
    ensures Reachable(t) && !t.waitFlag && t.past.idled && t.queue == [Message(0, 0)] && t.emitted == []
  {
    assert Reaches(START, [], START);
    assert Reachable(START);
    hide Reachable, Reaches;
    s := PushOne(START);
    t := AsleepAtOnce();
    t := PushOne(t);
  }
}
