/**
 The one-shot wait of `src/common/waiter.c`: one waiter, one waker, one word of state.

 Every access to the word is one sequentially consistent step.  The waiter owns the
 memory and may free it once `lttng_waiter_wait` returns.
 */
module Waiter {
  const WAIT_ATTEMPTS: nat := 1000

  /** The word: `WAITER_WAITING` is the value with no flag set. */
  datatype Word = Word(wokenUp: bool, running: bool, teardown: bool)

  const WAITING := Word(false, false, false)

  /** Inside `lttng_waiter_wait`. */
  datatype WaiterAt = Spin(i: nat) | Call | Blocked | SetRunning | AwaitSpin(j: nat) | AwaitPoll | Returned

  /** Inside `lttng_waiter_wake_up`; `Failed` is the failed assertion. */
  datatype WakerAt = Asserting | Storing | ReadRunning | Waking | SetTeardown | Finished | Failed

  datatype System = System(word: Word, waiter: WaiterAt, waker: WakerAt)

  /** `SpuriousReturn` is FUTEX_WAIT returning 0 with nobody waking. */
  datatype Step = WaiterStep | WakerStep | Interrupt | SpuriousReturn

  const INITIAL := System(WAITING, Spin(0), Asserting)

  predicate Enabled(s: System, step: Step) {
    match step
    case WaiterStep => !s.waiter.Blocked? && !s.waiter.Returned?
    case WakerStep => !s.waker.Finished? && !s.waker.Failed?
    case Interrupt => s.waiter.Blocked?
    case SpuriousReturn => s.waiter.Blocked?
  }

  function WaiterNext(s: System): System
    requires !s.waiter.Blocked? && !s.waiter.Returned?
  {
    match s.waiter
    case Spin(i) =>
      s.(waiter := if s.word != WAITING then SetRunning else if i + 1 < WAIT_ATTEMPTS then Spin(i + 1) else Call)
    case Call => s.(waiter := if s.word != WAITING then SetRunning else Blocked)
    case SetRunning => s.(word := s.word.(running := true), waiter := AwaitSpin(0))
    case AwaitSpin(j) =>
      s.(waiter := if s.word.teardown || j + 1 >= WAIT_ATTEMPTS then AwaitPoll else AwaitSpin(j + 1))
    case AwaitPoll => s.(waiter := if s.word.teardown then Returned else AwaitPoll)
  }

  function WakerNext(s: System): System
    requires !s.waker.Finished? && !s.waker.Failed?
  {
    match s.waker
    case Asserting => s.(waker := if s.word == WAITING then Storing else Failed)
    case Storing => s.(word := Word(true, false, false), waker := ReadRunning)
    case ReadRunning => s.(waker := if s.word.running then SetTeardown else Waking)
    case Waking => s.(waiter := if s.waiter.Blocked? then SetRunning else s.waiter, waker := SetTeardown)
    case SetTeardown => s.(word := s.word.(teardown := true), waker := Finished)
  }

  function Next(s: System, step: Step): System
    requires Enabled(s, step)
  {
    match step
    case WaiterStep => WaiterNext(s)
    case WakerStep => WakerNext(s)
    case Interrupt => s.(waiter := Call)
    case SpuriousReturn => s.(waiter := SetRunning)
  }

  ghost predicate IsRun(states: seq<System>, steps: seq<Step>) {
    && |states| == |steps| + 1 && states[0] == INITIAL
    && forall i | 0 <= i < |steps| :: Enabled(states[i], steps[i]) && states[i + 1] == Next(states[i], steps[i])
  }

  /** The waiter has not left the futex. */
  predicate InWait(w: WaiterAt) { w.Spin? || w.Call? || w.Blocked? }

  /** The waiter has told the waker that it runs. */
  predicate Told(w: WaiterAt) { w.AwaitSpin? || w.AwaitPoll? || w.Returned? }

  // ---------------------------------------------------------------------
  // With spurious returns
  // ---------------------------------------------------------------------

  predicate SafeInv(s: System) {
    && (s.word.teardown <==> s.waker.Finished?)
    && (s.waiter.Returned? ==> s.waker.Finished?)
    && (s.waiter.Blocked? ==> !s.waker.SetTeardown? && !s.waker.Finished?)
    && (s.waker.Asserting? ==> !s.word.wokenUp && (s.word.running <==> Told(s.waiter)))
    && (s.word.running ==> Told(s.waiter))
    && (s.waker.ReadRunning? || s.waker.Waking? || s.waker.SetTeardown? || s.waker.Finished? ==> s.word.wokenUp)
  }

  lemma {:induction false} SafeRun(states: seq<System>, steps: seq<Step>, k: nat)
    requires IsRun(states, steps) && k < |states|
    ensures SafeInv(states[k])
  {
    if k == 0 {
    } else {
      SafeRun(states, steps, k - 1);
    }
  }

  /** In every run, the waiter returns only after the last access of the waker, and is
      not left blocked once the waker is past its wake-up. */
  lemma ReturnIsSafe(states: seq<System>, steps: seq<Step>, k: nat)
    requires IsRun(states, steps) && k < |states|
    ensures states[k].waiter.Returned? ==> states[k].waker.Finished? && states[k].word.teardown
    ensures states[k].waker.Finished? ==> !states[k].waiter.Blocked?
  {
    SafeRun(states, steps, k);
  }

  /** The assertion of the waker fails exactly when the waiter left the wait before it. */
  lemma AssertionFailsExactly(states: seq<System>, steps: seq<Step>, k: nat)
    requires IsRun(states, steps) && k < |steps| && states[k].waker.Asserting? && steps[k].WakerStep?
    ensures states[k + 1].waker.Failed? <==> Told(states[k].waiter)
  {
    SafeRun(states, steps, k);
    assert states[k + 1] == Next(states[k], steps[k]);
  }

  /** Such a run exists: the waiter blocks, FUTEX_WAIT returns spuriously, the waiter
      goes on, and the waker comes last. */
  lemma SpuriousReturnBreaks() returns (states: seq<System>, steps: seq<Step>)
    ensures IsRun(states, steps) && states[|steps|].waker.Failed?
  {
    var n := WAIT_ATTEMPTS;
    steps := seq(n + 1, _ => WaiterStep) + [SpuriousReturn, WaiterStep, WakerStep];
    states := seq(n, (i: nat) => System(WAITING, Spin(i), Asserting))
      + [System(WAITING, Call, Asserting), System(WAITING, Blocked, Asserting), System(WAITING, SetRunning, Asserting),
         System(Word(false, true, false), AwaitSpin(0), Asserting), System(Word(false, true, false), AwaitSpin(0), Failed)];
  }

  // ---------------------------------------------------------------------
  // Without
  // ---------------------------------------------------------------------

  predicate Inv(s: System) {
    && SafeInv(s) && !s.waker.Failed?
    && (s.waker.Asserting? || s.waker.Storing? ==> s.word == WAITING && InWait(s.waiter))
    && (s.word.wokenUp <==> !s.waker.Asserting? && !s.waker.Storing?)
    && (s.word.running <==> Told(s.waiter))
  }

  /** With FUTEX_WAIT returning only when woken, interrupted or refused: the assertion
      holds, and when both are done all three flags are set. */
  lemma {:induction false} RunInv(states: seq<System>, steps: seq<Step>, k: nat)
    requires IsRun(states, steps) && k < |states| && forall i | 0 <= i < |steps| :: !steps[i].SpuriousReturn?
    ensures Inv(states[k])
    ensures states[k].waiter.Returned? ==> states[k].word == Word(true, true, true)
  {
    if k == 0 {
    } else {
      RunInv(states, steps, k - 1);
    }
  }

  /** The waiter alone, for `n` steps or until it stops. */
  function Alone(s: System, n: nat): System
    decreases n
  {
    if n == 0 || s.waiter.Blocked? || s.waiter.Returned? then s else Alone(WaiterNext(s), n - 1)
  }

  /** Once the waker is done, the waiter returns after at most four steps of its own. */
  lemma WaiterReturns(states: seq<System>, steps: seq<Step>, k: nat)
    requires IsRun(states, steps) && k < |states| && states[k].waker.Finished?
    ensures Alone(states[k], 4).waiter.Returned?
  {
    SafeRun(states, steps, k);
    var s := states[k];
    assert s.word.wokenUp && s.word.teardown && !s.waiter.Blocked?;
    if !s.waiter.Returned? {
      var s1 := WaiterNext(s);
      if !s1.waiter.Returned? {
        var s2 := WaiterNext(s1);
        if !s2.waiter.Returned? {
          var s3 := WaiterNext(s2);
          assert Alone(s, 4) == Alone(s1, 3) == Alone(s2, 2) == Alone(s3, 1);
        } else {
          assert Alone(s, 4) == Alone(s1, 3) == s2;
        }
      } else {
        assert Alone(s, 4) == s1;
      }
    }
  }
}
