/**
 The N-to-1 wake-up of `src/common/futex.c` under the dispatcher loops of
 `src/bin/lttng-relayd/main.c` and `live.c`.

 Any number of wakers enqueue a connection, or raise the exit flag, and then call
 `futex_nto1_wake`; one dispatcher prepares the futex, tests the flag, drains the queue
 and calls `futex_nto1_wait`.  Every shared access is one sequentially consistent step.
 FUTEX_WAIT compares and blocks atomically; it may also be interrupted by a signal, or
 return for no reason.
 */
module FutexDispatch {
  /** Inside `futex_nto1_wake`. */
  datatype Waker = Reading | Setting | Waking | Finished

  datatype Dispatcher = Prepare | TestExit | Dequeue | WaitRead | WaitCall | Blocked | Exited

  datatype System = System(futex: int, queue: seq<nat>, exit: bool, d: Dispatcher, wakers: map<nat, Waker>,
                           enqueued: seq<nat>, dispatched: seq<nat>)

  datatype Step = Enqueue(id: nat, item: nat) | RaiseExit(id: nat) | Read(id: nat) | Store(id: nat) | Wake(id: nat)
                | Dispatch | Interrupt | SpuriousReturn

  const INITIAL := System(0, [], false, Prepare, map[], [], [])

  predicate Enabled(s: System, step: Step) {
    match step
    case Enqueue(id, item) => id !in s.wakers || s.wakers[id].Finished?
    case RaiseExit(id) => id !in s.wakers || s.wakers[id].Finished?
    case Read(id) => id in s.wakers && s.wakers[id].Reading?
    case Store(id) => id in s.wakers && s.wakers[id].Setting?
    case Wake(id) => id in s.wakers && s.wakers[id].Waking?
    case Dispatch => !s.d.Blocked? && !s.d.Exited?
    case Interrupt => s.d.Blocked?
    case SpuriousReturn => s.d.Blocked?
  }

  /** One access by the dispatcher. */
  function DispatcherStep(s: System): System
    requires !s.d.Blocked? && !s.d.Exited?
  {
    match s.d
    case Prepare => s.(futex := -1, d := TestExit)
    case TestExit => s.(d := if s.exit then Exited else Dequeue)
    case Dequeue =>
      if s.queue == [] then s.(d := WaitRead)
      else s.(queue := s.queue[1..], dispatched := s.dispatched + [s.queue[0]])
    case WaitRead => s.(d := if s.futex != -1 then Prepare else WaitCall)
    case WaitCall => s.(d := if s.futex != -1 then Prepare else Blocked)
  }

  function Next(s: System, step: Step): System
    requires Enabled(s, step)
  {
    match step
    case Enqueue(id, item) =>
      s.(queue := s.queue + [item], enqueued := s.enqueued + [item], wakers := s.wakers[id := Reading])
    case RaiseExit(id) => s.(exit := true, wakers := s.wakers[id := Reading])
    case Read(id) => s.(wakers := s.wakers[id := if s.futex != -1 then Finished else Setting])
    case Store(id) => s.(futex := 0, wakers := s.wakers[id := Waking])
    case Wake(id) => s.(d := if s.d.Blocked? then Prepare else s.d, wakers := s.wakers[id := Finished])
    case Dispatch => DispatcherStep(s)
    case Interrupt => s.(d := WaitCall)
    case SpuriousReturn => s.(d := Prepare)
  }

  // ---------------------------------------------------------------------
  // Invariants
  // ---------------------------------------------------------------------

  /** Some waker is about to store into the futex. */
  ghost predicate StoreComing(wakers: map<nat, Waker>) {
    exists id | id in wakers :: wakers[id].Reading? || wakers[id].Setting?
  }

  ghost predicate WakeComing(wakers: map<nat, Waker>) {
    exists id | id in wakers :: wakers[id].Waking?
  }

  /** Work the dispatcher has already looked for, and missed. */
  predicate Missed(s: System) {
    || (s.queue != [] && (s.d.WaitRead? || s.d.WaitCall? || s.d.Blocked?))
    || (s.exit && (s.d.Dequeue? || s.d.WaitRead? || s.d.WaitCall? || s.d.Blocked?))
  }

  ghost predicate Inv(s: System) {
    && (Missed(s) && s.futex == -1 ==> StoreComing(s.wakers))
    && (s.d.Blocked? && s.futex != -1 ==> WakeComing(s.wakers))
    && s.enqueued == s.dispatched + s.queue
    && (s.d.Exited? ==> s.exit)
  }

  lemma StepInv(s: System, step: Step)
    requires Inv(s) && Enabled(s, step)
    ensures Inv(Next(s, step))
  {
    var s' := Next(s, step);
    match step
    case Enqueue(id, _) => Arrives(s, s', id);
    case RaiseExit(id) => Arrives(s, s', id);
    case Read(id) => ReadKeeps(s, id);
    case Store(id) => assert s'.wakers[id].Waking?;
    case Wake(id) => WakeKeeps(s, id);
    case Dispatch =>
    case Interrupt =>
    case SpuriousReturn =>
  }

  /** A new waker is itself about to store; it replaces a finished one at most. */
  lemma Arrives(s: System, s': System, id: nat)
    requires Inv(s) && (id !in s.wakers || s.wakers[id].Finished?)
    requires s' == s.(queue := s'.queue, enqueued := s'.enqueued, exit := s'.exit, wakers := s.wakers[id := Reading])
    ensures StoreComing(s'.wakers) && (s.d.Blocked? && s.futex != -1 ==> WakeComing(s'.wakers))
  {
    assert s'.wakers[id].Reading?;
    if WakeComing(s.wakers) {
      var other :| other in s.wakers && s.wakers[other].Waking?;
      assert s'.wakers[other].Waking?;
    }
  }

  lemma ReadKeeps(s: System, id: nat)
    requires Inv(s) && Enabled(s, Read(id))
    ensures Inv(Next(s, Read(id)))
  {
    var s' := Next(s, Read(id));
    if s.futex == -1 {
      assert s'.wakers[id].Setting?;
    } else if WakeComing(s.wakers) {
      var other :| other in s.wakers && s.wakers[other].Waking?;
      assert s'.wakers[other].Waking?;
    }
  }

  lemma WakeKeeps(s: System, id: nat)
    requires Inv(s) && Enabled(s, Wake(id))
    ensures Inv(Next(s, Wake(id)))
  {
    var s' := Next(s, Wake(id));
    if StoreComing(s.wakers) {
      var other :| other in s.wakers && (s.wakers[other].Reading? || s.wakers[other].Setting?);
      assert s'.wakers[other].Reading? || s'.wakers[other].Setting?;
    }
  }

  // ---------------------------------------------------------------------
  // Whole runs
  // ---------------------------------------------------------------------

  ghost predicate IsRun(states: seq<System>, steps: seq<Step>) {
    && |states| == |steps| + 1 && states[0] == INITIAL
    && forall i | 0 <= i < |steps| :: Enabled(states[i], steps[i]) && states[i + 1] == Next(states[i], steps[i])
  }

  lemma {:induction false} RunInv(states: seq<System>, steps: seq<Step>, k: nat)
    requires IsRun(states, steps) && k < |states|
    ensures Inv(states[k])
  {
    if k == 0 {
    } else {
      RunInv(states, steps, k - 1);
      StepInv(states[k - 1], steps[k - 1]);
    }
  }

  /** No wake-up is lost: a dispatcher that is blocked while a connection is queued or
      the exit flag is up has a waker that still has to store or to wake. */
  lemma NoLostWakeUp(states: seq<System>, steps: seq<Step>, k: nat)
    requires IsRun(states, steps) && k < |states|
    requires states[k].d.Blocked? && (states[k].queue != [] || states[k].exit)
    ensures exists id | id in states[k].wakers :: !states[k].wakers[id].Finished?
  {
    RunInv(states, steps, k);
  }

  /** Such a waker gets the dispatcher out of FUTEX_WAIT in at most three steps of its own. */
  lemma WakerUnblocks(s: System) returns (steps: seq<Step>, end: System)
    requires Inv(s) && s.d.Blocked? && (s.queue != [] || s.exit)
    ensures 1 <= |steps| <= 3 && !end.d.Blocked?
    ensures exists states: seq<System> :: |states| == |steps| + 1 && states[0] == s && states[|steps|] == end &&
              forall i | 0 <= i < |steps| :: Enabled(states[i], steps[i]) && states[i + 1] == Next(states[i], steps[i])
  {
    if s.futex != -1 {
      var id :| id in s.wakers && s.wakers[id].Waking?;
      steps := [Wake(id)];
      end := Next(s, Wake(id));
      var states := [s, end];
      assert |states| == 2 && states[0] == s && states[1] == end;
    } else {
      var id :| id in s.wakers && (s.wakers[id].Reading? || s.wakers[id].Setting?);
      if s.wakers[id].Setting? {
        var s1 := Next(s, Store(id));
        steps := [Store(id), Wake(id)];
        end := Next(s1, Wake(id));
        var states := [s, s1, end];
        assert |states| == 3 && states[0] == s && states[1] == s1 && states[2] == end;
      } else {
        var s1 := Next(s, Read(id));
        var s2 := Next(s1, Store(id));
        steps := [Read(id), Store(id), Wake(id)];
        end := Next(s2, Wake(id));
        var states := [s, s1, s2, end];
        assert |states| == 4 && states[0] == s && states[1] == s1 && states[2] == s2 && states[3] == end;
      }
    }
  }

  /** Connections are dispatched in the order they were queued, none lost, none twice. */
  lemma DispatchIsFifo(states: seq<System>, steps: seq<Step>, k: nat)
    requires IsRun(states, steps) && k < |states|
    ensures states[k].enqueued == states[k].dispatched + states[k].queue
  {
    RunInv(states, steps, k);
  }

  /** The dispatcher alone, for `n` steps or until it stops. */
  function Alone(s: System, n: nat): System
    decreases n
  {
    if n == 0 || s.d.Blocked? || s.d.Exited? then s else Alone(Next(s, Dispatch), n - 1)
  }

  lemma {:induction false} DrainsFrom(s: System)
    requires s.d.Dequeue? && s.futex == -1
    ensures Alone(s, |s.queue| + 3) == s.(d := Blocked, queue := [], dispatched := s.dispatched + s.queue)
    decreases |s.queue|
  {
    if s.queue == [] {
      var s1 := Next(s, Dispatch);
      var s2 := Next(s1, Dispatch);
      assert Alone(s, 3) == Alone(s1, 2) == Alone(s2, 1) == Alone(Next(s2, Dispatch), 0);
    } else {
      var s1 := Next(s, Dispatch);
      DrainsFrom(s1);
      assert Alone(s, |s.queue| + 3) == Alone(s1, |s1.queue| + 3);
      assert s.dispatched + s.queue == s1.dispatched + s1.queue;
    }
  }

  /** Left alone, the dispatcher dispatches all that is queued and goes to sleep; if the
      exit flag is up it dispatches nothing more. */
  lemma DrainsThenSleeps(s: System)
    requires s.d.Prepare?
    ensures Alone(s, |s.queue| + 5) ==
            if s.exit then s.(futex := -1, d := Exited)
            else s.(futex := -1, d := Blocked, queue := [], dispatched := s.dispatched + s.queue)
  {
    var s1 := Next(s, Dispatch);
    var s2 := Next(s1, Dispatch);
    assert Alone(s, |s.queue| + 5) == Alone(s1, |s.queue| + 4) == Alone(s2, |s.queue| + 3);
    if !s.exit { DrainsFrom(s2); }
  }

  /** A signal does not end the wait: the dispatcher is back in it after one step of its
      own, unless a waker has stored meanwhile. */
  lemma InterruptedWaitsAgain(s: System)
    requires s.d.Blocked?
    ensures Next(Next(s, Interrupt), Dispatch) == if s.futex == -1 then s else s.(d := Prepare)
  {
  }
}
