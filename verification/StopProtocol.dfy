/** Stopping the monitor thread: threadedFunction, shutdown and handleCrash of src/zerosum.cpp, as a
    state machine over the steps of the two threads. shutdown clears `working` and notifies without
    holding the mutex, so the notification can fall between the worker's check and its blocking. */
module StopProtocol {

  /** Where the worker is; each step reads or writes the shared flag at most once. */
  datatype Worker =
    | LoopTest          // while (working)
    | InnerTest         // while (!initialized && working)
    | Once              // initialized = doOnce()
    | Branch            // if (initialized)
    | Sampling          // doPeriodic() has begun
    | WaitTest          // wait_for evaluates its predicate
    | AboutToBlock      // the predicate was false; not yet blocked
    | Blocked
    | Woken(timedOut: bool)
    | AfterWait         // prev = then, expiration check
    | Exited

  datatype Stopper =
    | Before            // shutdown() not called
    | Skipped           // doShutdown was false
    | Clearing          // working = false
    | Notifying         // cv.notify_all()
    | Joining           // worker.join()
    | Logging           // finalizeLog()
    | Done

  /** `samples` counts the calls of doPeriodic that have begun. */
  datatype State = State(worker: Worker, stopper: Stopper, working: bool, initialized: bool, doShutdown: bool,
      samples: nat)

  /** `ready` is what doOnce() returns if this step calls it; a block may end by timeout or spuriously. */
  datatype Action = WorkerStep(ready: bool) | Timeout | Spurious | StopStep | Crash

  const INITIAL := State(LoopTest, Before, true, false, true, 0)

  predicate Enabled(s: State, a: Action) {
    match a
    case WorkerStep(_) => s.worker != Blocked && s.worker != Exited
    case Timeout => s.worker == Blocked
    case Spurious => s.worker == Blocked
    case StopStep => s.stopper != Done && s.stopper != Skipped && (s.stopper == Joining ==> s.worker == Exited)
    case Crash => true
  }

  function WorkerNext(s: State, ready: bool): State
    requires Enabled(s, WorkerStep(ready))
  {
    match s.worker
    case LoopTest => s.(worker := if s.working then InnerTest else Exited)
    case InnerTest => s.(worker := if !s.initialized && s.working then Once else Branch)
    case Once => s.(worker := InnerTest, initialized := ready)
    case Branch => if s.initialized then s.(worker := Sampling, samples := s.samples + 1) else s.(worker := WaitTest)
    case Sampling => s.(worker := WaitTest)
    case WaitTest => s.(worker := if s.working then AboutToBlock else Exited)
    case AboutToBlock => s.(worker := Blocked)
    case Woken(timedOut) =>
      if !timedOut then s.(worker := WaitTest)
      else s.(worker := if s.working then AfterWait else Exited)
    case AfterWait => s.(worker := LoopTest)
  }

  function StopNext(s: State): State
    requires Enabled(s, StopStep)
  {
    match s.stopper
    case Before => s.(stopper := if s.doShutdown then Clearing else Skipped)
    case Clearing => s.(stopper := Notifying, working := false)
    case Notifying => s.(stopper := Joining, worker := if s.worker == Blocked then Woken(false) else s.worker)
    case Joining => s.(stopper := Logging)
    case Logging => s.(stopper := Done)
  }

  function Apply(s: State, a: Action): State
    requires Enabled(s, a)
  {
    match a
    case WorkerStep(ready) => WorkerNext(s, ready)
    case Timeout => s.(worker := Woken(true))
    case Spurious => s.(worker := Woken(false))
    case StopStep => StopNext(s)
    case Crash => s.(doShutdown := false)
  }

  ghost predicate Run(states: seq<State>, actions: seq<Action>) {
    && |states| == |actions| + 1 && states[0] == INITIAL
    && forall i :: 0 <= i < |actions| ==> Enabled(states[i], actions[i]) && states[i+1] == Apply(states[i], actions[i])
  }

  /** The worker ends only when asked to, and the final log is written only after it has ended. */
  predicate Inv(s: State) {
    && (s.working <==> s.stopper == Before || s.stopper == Skipped || s.stopper == Clearing)
    && (s.worker == Exited ==> !s.working)
    && (s.stopper == Logging || s.stopper == Done ==> s.worker == Exited)
  }

  lemma {:induction false} RunInv(states: seq<State>, actions: seq<Action>, i: nat)
    requires Run(states, actions) && i < |states|
    ensures Inv(states[i])
  {
    if i > 0 {
      RunInv(states, actions, i - 1);
      var a := actions[i-1];
      assert Enabled(states[i-1], a) && states[i] == Apply(states[i-1], a);
    }
  }

  /** How many turns of the worker's loop were completed in the first n steps. */
  function Turns(states: seq<State>, actions: seq<Action>, n: nat): nat
    requires n <= |actions| < |states|
  {
    if n == 0 then 0
    else Turns(states, actions, n - 1) + if states[n-1].worker == AfterWait && actions[n-1].WorkerStep? then 1 else 0
  }

  /** The part of a turn in which its sampling step has begun. */
  predicate HasSampled(w: Worker) {
    w == Sampling || w == WaitTest || w == AboutToBlock || w == Blocked || w.Woken? || w == AfterWait
  }

  /** The worker leaves doOnce alone only when it was successful. */
  predicate Initialized(s: State) { s.working && (s.worker == Branch || HasSampled(s.worker)) ==> s.initialized }

  lemma TurnStep(s: State, a: Action)
    requires Enabled(s, a) && Initialized(s) && Inv(s) && Apply(s, a).working
    ensures var s' := Apply(s, a);
      && s.working && Initialized(s')
      && s'.samples - (if HasSampled(s'.worker) then 1 else 0) ==
           s.samples - (if HasSampled(s.worker) then 1 else 0) +
           if s.worker == AfterWait && a.WorkerStep? then 1 else 0
  {
  }

  /** While the flag is set, every completed turn of the loop has begun exactly one sampling step, and the
      turn under way has begun one or none, according to where the worker is. */
  lemma {:induction false} OneSamplePerTurn(states: seq<State>, actions: seq<Action>, i: nat)
    requires Run(states, actions) && i <= |actions| && states[i].working
    ensures states[i].samples == Turns(states, actions, i) + if HasSampled(states[i].worker) then 1 else 0
    ensures Initialized(states[i])
  {
    if i > 0 {
      RunInv(states, actions, i - 1);
      var s, a := states[i-1], actions[i-1];
      assert Enabled(s, a) && states[i] == Apply(s, a) && (Apply(s, a).working ==> s.working);
      hide Run, Inv;
      OneSamplePerTurn(states, actions, i - 1);
      TurnStep(s, a);
    }
  }

  function Timeouts(actions: seq<Action>): nat {
    if actions == [] then 0
    else Timeouts(actions[..|actions|-1]) + if actions[|actions|-1].Timeout? then 1 else 0
  }

  predicate TimedOut(w: Worker) { w == Woken(true) || w == AfterWait }

  /** While the flag is set, a turn is completed by its timeout alone: a spurious wake-up sends the worker
      back to its wait. */
  lemma {:induction false} TurnsByTimeout(states: seq<State>, actions: seq<Action>, i: nat)
    requires Run(states, actions) && i <= |actions| && states[i].working
    ensures Timeouts(actions[..i]) == Turns(states, actions, i) + if TimedOut(states[i].worker) then 1 else 0
  {
    if i > 0 {
      RunInv(states, actions, i - 1);
      var s, a := states[i-1], actions[i-1];
      assert Enabled(s, a) && states[i] == Apply(s, a) && (Apply(s, a).working ==> s.working);
      assert actions[..i][..i-1] == actions[..i-1];
      hide Run, Inv;
      TurnsByTimeout(states, actions, i - 1);
      TimeoutStep(s, a);
    }
  }

  lemma TimeoutStep(s: State, a: Action)
    requires Enabled(s, a) && Inv(s) && Apply(s, a).working
    ensures (if a.Timeout? then 1 else 0) + (if TimedOut(s.worker) then 1 else 0) ==
      (if s.worker == AfterWait && a.WorkerStep? then 1 else 0) + if TimedOut(Apply(s, a).worker) then 1 else 0
  {
  }

  /** After a crash was handled, a shutdown that had not begun stops nothing. */
  lemma {:induction false} CrashKeepsRunning(states: seq<State>, actions: seq<Action>, k: nat, i: nat)
    requires Run(states, actions) && k < i < |states| && actions[k].Crash? && states[k].stopper == Before
    ensures states[i].working && !states[i].doShutdown && (states[i].stopper == Before || states[i].stopper == Skipped)
    decreases i
  {
    RunInv(states, actions, i);
    var s, a := states[i-1], actions[i-1];
    assert Enabled(s, a) && states[i] == Apply(s, a);
    if k < i - 1 { CrashKeepsRunning(states, actions, k, i - 1); }
  }

  /** Once `working` is clear: how many sampling steps the worker can still begin from here. */
  function Pending(w: Worker): nat { if w == InnerTest || w == Once || w == Branch then 1 else 0 }

  /** Once `working` is clear: how many steps of its own the worker still takes at most. */
  function Remaining(w: Worker): nat {
    match w
    case Exited => 0
    case LoopTest => 1
    case WaitTest => 1
    case Woken(_) => 2
    case AfterWait => 2
    case Sampling => 2
    case Blocked => 3
    case Branch => 3
    case AboutToBlock => 4
    case InnerTest => 4
    case Once => 5
  }

  predicate IsWorkers(a: Action) { a.WorkerStep? || a.Timeout? || a.Spurious? }

  function WorkerSteps(actions: seq<Action>): nat {
    if actions == [] then 0
    else WorkerSteps(actions[..|actions|-1]) + if IsWorkers(actions[|actions|-1]) then 1 else 0
  }

  lemma StepAfterClear(s: State, a: Action)
    requires Inv(s) && !s.working && Enabled(s, a)
    ensures var s' := Apply(s, a);
      && !s'.working
      && s'.samples + Pending(s'.worker) <= s.samples + Pending(s.worker)
      && Remaining(s'.worker) + (if IsWorkers(a) then 1 else 0) <= Remaining(s.worker)
  {
  }

  lemma {:induction false} BudgetsKept(states: seq<State>, actions: seq<Action>, i: nat, j: nat)
    requires Run(states, actions) && i <= j < |states| && !states[i].working
    ensures !states[j].working
    ensures states[j].samples + Pending(states[j].worker) <= states[i].samples + Pending(states[i].worker)
    ensures Remaining(states[j].worker) + WorkerSteps(actions[i..j]) <= Remaining(states[i].worker)
    decreases j
  {
    hide Remaining, Pending, Inv;
    if i < j {
      BudgetsKept(states, actions, i, j - 1);
      RunInv(states, actions, j - 1);
      assert Enabled(states[j-1], actions[j-1]) && states[j] == Apply(states[j-1], actions[j-1]);
      hide Enabled, Apply;
      StepAfterClear(states[j-1], actions[j-1]);
      assert actions[i..j][..j-1-i] == actions[i..j-1];
    }
  }

  /** From the moment `working` is cleared, whatever the interleaving and whether or not the notification
      is missed, the worker begins at most one more sampling step and takes at most five more steps. */
  lemma StopsSoon(states: seq<State>, actions: seq<Action>, i: nat, j: nat)
    requires Run(states, actions) && i <= j < |states| && !states[i].working
    ensures !states[j].working
    ensures states[j].samples <= states[i].samples + 1
    ensures Remaining(states[j].worker) + WorkerSteps(actions[i..j]) <= 5
  {
    BudgetsKept(states, actions, i, j);
    hide Run, WorkerSteps;
  }

  /** It is never stuck: until it has ended, one of its own steps can be taken, and each such step
      brings its end nearer. So shutdown's join returns. */
  lemma WorkerCanMove(states: seq<State>, actions: seq<Action>, i: nat)
    requires Run(states, actions) && i < |states| && !states[i].working
    ensures states[i].worker == Exited || exists a :: IsWorkers(a) && Enabled(states[i], a)
    ensures forall a :: IsWorkers(a) && Enabled(states[i], a) ==>
        Remaining(Apply(states[i], a).worker) < Remaining(states[i].worker)
    ensures states[i].worker == Exited && states[i].stopper != Done ==> Enabled(states[i], StopStep)
  {
    RunInv(states, actions, i);
    var s := states[i];
    if s.worker == Blocked {
      assert IsWorkers(Timeout) && Enabled(s, Timeout);
    } else if s.worker != Exited {
      assert IsWorkers(WorkerStep(false)) && Enabled(s, WorkerStep(false));
    }
    forall a | IsWorkers(a) && Enabled(s, a) ensures Remaining(Apply(s, a).worker) < Remaining(s.worker) {
      StepAfterClear(s, a);
    }
  }

  /** After the join the worker takes no step at all: the final log is written with no sampling going on
      and none to come. */
  lemma {:induction false} NothingAfterJoin(states: seq<State>, actions: seq<Action>, i: nat, j: nat)
    requires Run(states, actions) && i <= j < |states|
    requires states[i].stopper == Logging || states[i].stopper == Done
    ensures states[j].worker == Exited && states[j].samples == states[i].samples
    ensures j < |actions| ==> !IsWorkers(actions[j])
    decreases j
  {
    RunInv(states, actions, i);
    StopsSoon(states, actions, i, j);
    if i < j {
      NothingAfterJoin(states, actions, i, j - 1);
      assert Enabled(states[j-1], actions[j-1]) && states[j] == Apply(states[j-1], actions[j-1]);
    }
    if j < |actions| { assert Enabled(states[j], actions[j]); }
  }

  // ---------------------------------------------------------------------------------------------
  // The bounds are met.

  lemma Extend(states: seq<State>, actions: seq<Action>, a: Action) returns (states': seq<State>, actions': seq<Action>)
    requires Run(states, actions) && Enabled(states[|actions|], a)
    ensures Run(states', actions') && states' == states + [Apply(states[|actions|], a)] && actions' == actions + [a]
    ensures states'[|actions'|] == Apply(states[|actions|], a)
  {
    states', actions' := states + [Apply(states[|actions|], a)], actions + [a];
  }

  /** A run in which the flag is cleared during doOnce; all the same one more sampling step is begun, and
      the worker takes five steps of its own. */
  lemma LateSample() returns (states: seq<State>, actions: seq<Action>, i: nat)
    ensures Run(states, actions) && |actions| == i + 5 && !states[i].working
    ensures forall k :: i <= k < |actions| ==> IsWorkers(actions[k])
    ensures states[|actions|].samples == states[i].samples + 1
  {
    var w := WorkerStep(true);
    states, actions := [INITIAL], [];
    hide Run;
    states, actions := Extend(states, actions, w);
    states, actions := Extend(states, actions, w);
    states, actions := Extend(states, actions, StopStep);
    states, actions := Extend(states, actions, StopStep);
    i := |actions|;
    states, actions := Extend(states, actions, w);
    states, actions := Extend(states, actions, w);
    states, actions := Extend(states, actions, w);
    states, actions := Extend(states, actions, w);
    states, actions := Extend(states, actions, w);
  }

  /** A run in which the notification comes too early and the worker blocks all the same; only the
      timeout ends it. */
  lemma MissedNotification() returns (states: seq<State>, actions: seq<Action>)
    ensures Run(states, actions) && states[|actions|].stopper == Joining && states[|actions|].worker == Blocked
  {
    var w := WorkerStep(true);
    states, actions := [INITIAL], [];
    hide Run;
    states, actions := Extend(states, actions, w);
    states, actions := Extend(states, actions, w);
    states, actions := Extend(states, actions, w);
    states, actions := Extend(states, actions, w);
    states, actions := Extend(states, actions, w);
    states, actions := Extend(states, actions, w);
    states, actions := Extend(states, actions, w);
    states, actions := Extend(states, actions, StopStep);
    states, actions := Extend(states, actions, StopStep);
    states, actions := Extend(states, actions, StopStep);
    states, actions := Extend(states, actions, w);
  }

  /** A run in which a crash is handled before shutdown is called, which then returns at once. */
  lemma CrashedRun() returns (states: seq<State>, actions: seq<Action>)
    ensures Run(states, actions) && actions == [Crash, StopStep] && states[|actions|].stopper == Skipped
  {
    states, actions := [INITIAL], [];
    hide Run;
    states, actions := Extend(states, actions, Crash);
    states, actions := Extend(states, actions, StopStep);
  }
}
