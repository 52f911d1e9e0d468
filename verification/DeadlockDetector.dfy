/** The deadlock detector: isRunning in src/utils.cpp and the counting in getpthreads of
    src/zerosum_pthreads.cpp. A run is the sequence of samples taken, each one the threads found. */
module DeadlockDetector {

  /** What one sample says of a thread: the state letter, if /proc gave one, the minor-fault counter and
      the CPU time used so far. */
  datatype Thread = Thread(tid: nat, state: State, minflt: nat, utime: int)
  datatype State = Missing | R | Tracing | OtherState

  /** `prior` is the static map of minor-fault counters; isMain marks the process's first thread. */
  predicate Running(prior: map<nat, nat>, t: Thread, isMain: bool) {
    match t.state
    case Missing => false
    case R => !isMain || t.tid !in prior || (t.minflt != 0 && prior[t.tid] != t.minflt)
    case Tracing => true
    case OtherState => !isMain && t.utime > 0
  }

  function Remember(prior: map<nat, nat>, t: Thread, isMain: bool): map<nat, nat> {
    if t.state == R && isMain then prior[t.tid := t.minflt] else prior
  }

  /** The map after a sample, and how many of its threads counted as running. */
  function PriorAfter(prior: map<nat, nat>, ts: seq<Thread>, main: nat): map<nat, nat> {
    if ts == [] then prior
    else
      var t := ts[|ts|-1];
      Remember(PriorAfter(prior, ts[..|ts|-1], main), t, t.tid == main)
  }

  function CountRunning(prior: map<nat, nat>, ts: seq<Thread>, main: nat): nat {
    if ts == [] then 0
    else
      var t := ts[|ts|-1];
      var before := PriorAfter(prior, ts[..|ts|-1], main);
      CountRunning(prior, ts[..|ts|-1], main) + if Running(before, t, t.tid == main) then 1 else 0
  }

  type Samples = seq<seq<Thread>>

  function PriorAt(samples: Samples, main: nat): map<nat, nat> {
    if samples == [] then map[]
    else PriorAfter(PriorAt(samples[..|samples|-1], main), samples[|samples|-1], main)
  }

  /** At most one thread, the monitor itself, ran in the last of these samples. */
  predicate LastQuiet(samples: Samples, main: nat)
    requires samples != []
  {
    CountRunning(PriorAt(samples[..|samples|-1], main), samples[|samples|-1], main) <= 1
  }

  predicate QuietAt(samples: Samples, main: nat, i: nat)
    requires i < |samples|
  {
    LastQuiet(samples[..i+1], main)
  }

  /** deadlock_detected_seconds after these samples. */
  function Streak(samples: Samples, main: nat): nat {
    if samples == [] then 0
    else if LastQuiet(samples, main) then Streak(samples[..|samples|-1], main) + 1
    else 0
  }

  /** The static state of the two functions, and the settings ZS_DETECT_DEADLOCK and ZS_DEADLOCK_DURATION. */
  class Detector {
    const enabled: bool
    const duration: int
    const main: nat
    var priorMinflt: map<nat, nat>
    var detected: nat
    ghost var samples: Samples

    ghost predicate Valid()
      reads this
    {
      enabled ==> priorMinflt == PriorAt(samples, main) && detected == Streak(samples, main)
    }

    constructor (enabled: bool, duration: int, main: nat)
      ensures Valid() && this.enabled == enabled && this.duration == duration && this.main == main && samples == []
    {
      this.enabled, this.duration, this.main := enabled, duration, main;
      priorMinflt, detected, samples := map[], 0, [];
    }

    method IsRunning(t: Thread, isMain: bool) returns (running: bool)
      modifies this`priorMinflt
      ensures !enabled ==> running && priorMinflt == old(priorMinflt)
      ensures enabled ==> running == Running(old(priorMinflt), t, isMain)
      ensures enabled ==> priorMinflt == Remember(old(priorMinflt), t, isMain)
    {
      if !enabled { return true; }
      if t.state != Missing {
        if t.state == R {
          if !isMain { return true; }
          if t.tid !in priorMinflt {
            priorMinflt := priorMinflt[t.tid := t.minflt];
            return true;
          }
          if t.minflt == 0 || priorMinflt[t.tid] == t.minflt {
            priorMinflt := priorMinflt[t.tid := t.minflt];
            return false;
          }
          priorMinflt := priorMinflt[t.tid := t.minflt];
          return true;
        }
        if t.state == Tracing { return true; }
        if !isMain && t.utime > 0 { return true; }
      }
      return false;
    }

    /** getpthreads for one sample: does it abort the process? */
    method Sample(threads: seq<Thread>) returns (abort: bool)
      requires Valid()
      modifies this
      ensures Valid() && samples == old(samples) + [threads]
      ensures !enabled ==> !abort
      ensures enabled ==> (abort <==> Streak(samples, main) >= duration)
    {
      var running := 0;
      for i := 0 to |threads|
        modifies this`priorMinflt
        invariant enabled ==> priorMinflt == PriorAfter(old(priorMinflt), threads[..i], main)
        invariant enabled ==> running == CountRunning(old(priorMinflt), threads[..i], main)
      {
        assert threads[..i+1][..i] == threads[..i];
        var b := IsRunning(threads[i], threads[i].tid == main);
        if b { running := running + 1; }
      }
      assert threads[..|threads|] == threads;
      assert (samples + [threads])[..|samples|] == samples;
      samples := samples + [threads];
      abort := false;
      if enabled {
        if running <= 1 { detected := detected + 1; } else { detected := 0; }
        abort := detected >= duration;
      }
    }
  }

  // ---------------------------------------------------------------------------------------------
  // The counter over whole runs.

  /** The counter is the length of the trailing streak of quiet samples. */
  lemma {:induction false} StreakIsTrailing(samples: Samples, main: nat)
    ensures var k := Streak(samples, main);
      && k <= |samples|
      && (forall i :: |samples| - k <= i < |samples| ==> QuietAt(samples, main, i))
      && (k < |samples| ==> !QuietAt(samples, main, |samples| - k - 1))
  {
    if samples != [] {
      var n := |samples| - 1;
      assert samples[..n+1] == samples;
      QuietBefore(samples, main);
      StreakIsTrailing(samples[..n], main);
      hide LastQuiet;
    }
  }

  lemma QuietBefore(samples: Samples, main: nat)
    requires samples != []
    ensures forall i :: 0 <= i < |samples| - 1 ==> QuietAt(samples, main, i) == QuietAt(samples[..|samples|-1], main, i)
  {
    var n := |samples| - 1;
    hide LastQuiet;
    forall i | 0 <= i < n ensures QuietAt(samples, main, i) == QuietAt(samples[..n], main, i) {
      assert samples[..n][..i+1] == samples[..i+1];
    }
  }

  /** A sample aborts exactly when it and the duration - 1 samples before it were all quiet. */
  lemma AbortExactly(samples: Samples, main: nat, duration: int)
    requires duration >= 1 && samples != []
    ensures Streak(samples, main) >= duration <==>
      duration <= |samples| && forall i :: |samples| - duration <= i < |samples| ==> QuietAt(samples, main, i)
  {
    StreakIsTrailing(samples, main);
  }

  // ---------------------------------------------------------------------------------------------
  // One sample in terms of the threads' states.

  /** How many of these threads have property p. */
  function Count(p: Thread -> bool, ts: seq<Thread>): nat {
    if ts == [] then 0 else Count(p, ts[..|ts|-1]) + if p(ts[|ts|-1]) then 1 else 0
  }

  function Traced(): Thread -> bool { (t: Thread) => t.state == Tracing }

  function Busy(main: nat): Thread -> bool { (t: Thread) => t.tid != main && t.state == R }

  function Used(main: nat): Thread -> bool { (t: Thread) => t.tid != main && t.state == OtherState && t.utime > 0 }

  /** The memory has the main thread at a count that makes it look stuck at `minflt`. */
  predicate LooksStuck(prior: map<nat, nat>, main: nat, minflt: nat) {
    main in prior && (minflt == 0 || prior[main] == minflt)
  }

  ghost predicate MainProgresses(prior: map<nat, nat>, ts: seq<Thread>, main: nat) {
    exists i :: 0 <= i < |ts| && ts[i].tid == main && ts[i].state == R && !LooksStuck(prior, main, ts[i].minflt)
  }

  ghost predicate MainOnce(ts: seq<Thread>, main: nat) {
    forall i, j :: 0 <= i < j < |ts| && ts[i].tid == main ==> ts[j].tid != main
  }

  /** What counts as running: every thread in a tracing stop; of the threads other than the main one those in
      R, and those that sleep but have ever used the CPU; and the main thread if it is in R and does not look
      stuck. */
  lemma {:induction false} RunningExactly(prior: map<nat, nat>, ts: seq<Thread>, main: nat)
    requires MainOnce(ts, main)
    ensures CountRunning(prior, ts, main) ==
      Count(Traced(), ts) + Count(Busy(main), ts) + Count(Used(main), ts) +
      if MainProgresses(prior, ts, main) then 1 else 0
    ensures (forall i :: 0 <= i < |ts| ==> ts[i].tid != main) ==> PriorAfter(prior, ts, main) == prior
  {
    if ts != [] {
      var n := |ts| - 1;
      assert MainOnce(ts[..n], main) && forall i :: 0 <= i < n ==> ts[..n][i] == ts[i];
      RunningExactly(prior, ts[..n], main);
      MainProgressLast(prior, ts, main);
    }
  }

  lemma MainProgressLast(prior: map<nat, nat>, ts: seq<Thread>, main: nat)
    requires ts != [] && MainOnce(ts, main)
    ensures var last := ts[|ts|-1];
      && (last.tid != main ==> (MainProgresses(prior, ts, main) <==> MainProgresses(prior, ts[..|ts|-1], main)))
      && (last.tid == main ==>
            && !MainProgresses(prior, ts[..|ts|-1], main)
            && (MainProgresses(prior, ts, main) <==> last.state == R && !LooksStuck(prior, main, last.minflt)))
  {
    var n := |ts| - 1;
    assert forall i :: 0 <= i < n ==> ts[..n][i] == ts[i];
    hide LooksStuck;
    if MainProgresses(prior, ts[..n], main) {
      var i :| 0 <= i < n && ts[..n][i].tid == main && ts[..n][i].state == R &&
          !LooksStuck(prior, main, ts[..n][i].minflt);
      assert ts[i].tid == main;
    }
  }

  /** The minor-fault counts of the main thread in R, oldest first. */
  function MainFaults(ts: seq<Thread>, main: nat): seq<nat> {
    if ts == [] then []
    else
      var t := ts[|ts|-1];
      MainFaults(ts[..|ts|-1], main) + if t.tid == main && t.state == R then [t.minflt] else []
  }

  function AllMainFaults(samples: Samples, main: nat): seq<nat> {
    if samples == [] then []
    else AllMainFaults(samples[..|samples|-1], main) + MainFaults(samples[|samples|-1], main)
  }

  function Latest(prior: map<nat, nat>, main: nat, faults: seq<nat>): map<nat, nat> {
    if faults == [] then prior else prior[main := faults[|faults|-1]]
  }

  lemma {:induction false} PriorAfterIs(prior: map<nat, nat>, ts: seq<Thread>, main: nat)
    ensures PriorAfter(prior, ts, main) == Latest(prior, main, MainFaults(ts, main))
  {
    if ts != [] { PriorAfterIs(prior, ts[..|ts|-1], main); }
  }

  /** What the static map remembers: of the main thread the count when it was last seen in R, of others nothing. */
  lemma {:induction false} RememberedIs(samples: Samples, main: nat)
    ensures PriorAt(samples, main) == Latest(map[], main, AllMainFaults(samples, main))
  {
    if samples != [] {
      var n := |samples| - 1;
      RememberedIs(samples[..n], main);
      PriorAfterIs(PriorAt(samples[..n], main), samples[n], main);
    }
  }

  lemma {:induction false} TracedOrBusy(prior: map<nat, nat>, ts: seq<Thread>, main: nat, i: nat)
    requires i < |ts| && (Traced()(ts[i]) || Busy(main)(ts[i]))
    ensures CountRunning(prior, ts, main) >= 1
  {
    if i < |ts| - 1 { TracedOrBusy(prior, ts[..|ts|-1], main, i); }
  }

  lemma {:induction false} TwoTracedOrBusy(prior: map<nat, nat>, ts: seq<Thread>, main: nat, i: nat, j: nat)
    requires i < j < |ts| && (Traced()(ts[i]) || Busy(main)(ts[i])) && (Traced()(ts[j]) || Busy(main)(ts[j]))
    ensures CountRunning(prior, ts, main) >= 2
  {
    var n := |ts| - 1;
    if j < n { TwoTracedOrBusy(prior, ts[..n], main, i, j); } else { TracedOrBusy(prior, ts[..n], main, i); }
  }

  /** Two threads that are in a tracing stop, which the main one may be, or in R, which the main one may not,
      reset the counter. */
  lemma TwoAwakeReset(before: Samples, ts: seq<Thread>, main: nat, i: nat, j: nat)
    requires i < j < |ts| && (Traced()(ts[i]) || Busy(main)(ts[i])) && (Traced()(ts[j]) || Busy(main)(ts[j]))
    ensures Streak(before + [ts], main) == 0
  {
    assert (before + [ts])[..|before|] == before;
    TwoTracedOrBusy(PriorAt(before, main), ts, main, i, j);
  }

  // ---------------------------------------------------------------------------------------------
  // What is caught and what is not.

  /** A thread other than the main one that counts as running whatever was seen before. */
  predicate AlwaysRuns(t: Thread, main: nat) {
    t.tid != main && (t.state == R || t.state == Tracing || (t.state == OtherState && t.utime > 0))
  }

  /** How many such threads there are. */
  function Others(ts: seq<Thread>, main: nat): nat {
    if ts == [] then 0
    else Others(ts[..|ts|-1], main) + if AlwaysRuns(ts[|ts|-1], main) then 1 else 0
  }

  predicate OnlyMainAt(ts: seq<Thread>, main: nat, i: nat) {
    i < |ts| && ts[i].tid == main && forall k :: 0 <= k < |ts| && k != i ==> ts[k].tid != main
  }

  lemma {:induction false} WithoutMain(prior: map<nat, nat>, ts: seq<Thread>, main: nat)
    requires forall k :: 0 <= k < |ts| ==> ts[k].tid != main
    ensures PriorAfter(prior, ts, main) == prior && CountRunning(prior, ts, main) == Others(ts, main)
  {
    if ts != [] { WithoutMain(prior, ts[..|ts|-1], main); }
  }

  lemma {:induction false} WithMain(prior: map<nat, nat>, ts: seq<Thread>, main: nat, i: nat)
    requires OnlyMainAt(ts, main, i)
    ensures PriorAfter(prior, ts, main) == Remember(prior, ts[i], true)
    ensures CountRunning(prior, ts, main) == Others(ts, main) + if Running(prior, ts[i], true) then 1 else 0
  {
    var n := |ts| - 1;
    if i == n {
      WithoutMain(prior, ts[..n], main);
    } else {
      WithMain(prior, ts[..n], main, i);
    }
  }

  /** One sample in which the main thread is in R with this minor-fault count and `others` further threads run. */
  ghost predicate MainInR(ts: seq<Thread>, main: nat, minflt: nat, others: nat) {
    Others(ts, main) == others && exists i: nat :: OnlyMainAt(ts, main, i) && ts[i].state == R && ts[i].minflt == minflt
  }

  lemma MainSample(samples: Samples, ts: seq<Thread>, main: nat, minflt: nat, others: nat)
    requires MainInR(ts, main, minflt, others)
    ensures var prior := PriorAt(samples, main);
      && PriorAt(samples + [ts], main) == prior[main := minflt]
      && (LastQuiet(samples + [ts], main) <==>
            others + (if LooksStuck(prior, main, minflt) then 0 else 1) <= 1)
      && Streak(samples + [ts], main) == (if LastQuiet(samples + [ts], main) then Streak(samples, main) + 1 else 0)
  {
    var i: nat :| OnlyMainAt(ts, main, i) && ts[i].state == R && ts[i].minflt == minflt;
    assert (samples + [ts])[..|samples|] == samples;
    WithMain(PriorAt(samples, main), ts, main, i);
  }

  /** A main thread that spins in R without new minor faults while only the monitor runs, after any samples:
      the counter grows by one with each sample, except that a first sample with news of the main thread
      counts as running and starts the streak afresh. */
  lemma {:induction false} SpinExactly(before: Samples, spin: Samples, main: nat, minflt: nat)
    requires spin != [] && forall k :: 0 <= k < |spin| ==> MainInR(spin[k], main, minflt, 1)
    ensures Streak(before + spin, main) ==
      if LooksStuck(PriorAt(before, main), main, minflt) then Streak(before, main) + |spin| else |spin| - 1
    ensures main in PriorAt(before + spin, main) && PriorAt(before + spin, main)[main] == minflt
  {
    var n := |spin| - 1;
    assert before + spin == (before + spin[..n]) + [spin[n]];
    if n == 0 {
      assert before + spin[..n] == before;
    } else {
      SpinExactly(before, spin[..n], main, minflt);
    }
    MainSample(before + spin[..n], spin[n], main, minflt, 1);
  }

  /** So a spin is caught within duration + 1 samples, and in exactly `duration` of them when the main
      thread was last seen at this fault count and the counter stood at zero. */
  lemma SpinIsCaught(before: Samples, spin: Samples, main: nat, minflt: nat, duration: nat)
    requires duration >= 1 && forall k :: 0 <= k < |spin| ==> MainInR(spin[k], main, minflt, 1)
    ensures |spin| > duration ==> Streak(before + spin, main) >= duration
    ensures spin != [] && LooksStuck(PriorAt(before, main), main, minflt) && Streak(before, main) == 0
      ==> (Streak(before + spin, main) >= duration <==> |spin| >= duration)
  {
    if spin != [] { SpinExactly(before, spin, main, minflt); }
  }

  /** The same from a fresh start: the first sample still counts the main thread as running. */
  lemma SpinFromStart(spin: Samples, main: nat, minflt: nat)
    requires spin != [] && forall k :: 0 <= k < |spin| ==> MainInR(spin[k], main, minflt, 1)
    ensures Streak(spin, main) == |spin| - 1
  {
    assert [] + spin == spin;
    SpinExactly([], spin, main, minflt);
  }

  /** A main thread that is always in R with strictly growing minor faults is never aborted while the
      monitor, and whatever else, runs beside it. */
  lemma {:induction false} ProgressIsSafe(samples: Samples, main: nat, minflts: seq<nat>)
    requires |minflts| == |samples|
    requires forall k :: 0 <= k < |samples| ==>
      MainInR(samples[k], main, minflts[k], Others(samples[k], main)) && Others(samples[k], main) >= 1
    requires forall i, j :: 0 <= i < j < |samples| ==> minflts[i] < minflts[j]
    ensures Streak(samples, main) == 0
    ensures samples != [] ==> main in PriorAt(samples, main) && PriorAt(samples, main)[main] == minflts[|minflts|-1]
    ensures samples == [] ==> main !in PriorAt(samples, main)
  {
    if samples != [] {
      var n := |samples| - 1;
      ProgressIsSafe(samples[..n], main, minflts[..n]);
      assert samples == samples[..n] + [samples[n]];
      MainSample(samples[..n], samples[n], main, minflts[n], Others(samples[n], main));
    }
  }

  // ---------------------------------------------------------------------------------------------
  // A deadlock in which every thread but the monitor sleeps.

  predicate Asleep(t: Thread) { t.state == Missing || t.state == OtherState }

  /** utime is the CPU time since the thread started, not since the last sample: a sleeping thread that has
      ever used the CPU counts as running. */
  predicate UsedBefore(t: Thread, main: nat) { t.tid != main && t.state == OtherState && t.utime > 0 }

  /** Everybody sleeps except thread m, the monitor. */
  predicate Deadlocked(ts: seq<Thread>, main: nat, m: nat) {
    && m < |ts| && AlwaysRuns(ts[m], main)
    && forall k :: 0 <= k < |ts| && k != m ==> Asleep(ts[k])
  }

  lemma {:induction false} AllAsleep(prior: map<nat, nat>, ts: seq<Thread>, main: nat)
    requires forall k :: 0 <= k < |ts| ==> Asleep(ts[k])
    ensures PriorAfter(prior, ts, main) == prior
    ensures CountRunning(prior, ts, main) == 0 <==> forall k :: 0 <= k < |ts| ==> !UsedBefore(ts[k], main)
  {
    if ts != [] {
      var n := |ts| - 1;
      AllAsleep(prior, ts[..n], main);
      assert forall k :: 0 <= k < n ==> ts[..n][k] == ts[k];
    }
  }

  lemma {:induction false} OneAwake(prior: map<nat, nat>, ts: seq<Thread>, main: nat, m: nat)
    requires Deadlocked(ts, main, m)
    ensures PriorAfter(prior, ts, main) == prior && CountRunning(prior, ts, main) >= 1
    ensures CountRunning(prior, ts, main) <= 1 <==> forall k :: 0 <= k < |ts| && k != m ==> !UsedBefore(ts[k], main)
  {
    var n := |ts| - 1;
    assert forall k :: 0 <= k < n ==> ts[..n][k] == ts[k];
    if m == n { AllAsleep(prior, ts[..n], main); } else { OneAwake(prior, ts[..n], main, m); }
  }

  /** A sample of a deadlock adds to the streak exactly when no sleeping thread has ever used the CPU;
      otherwise it ends the streak. */
  lemma DeadlockSeenExactly(before: Samples, ts: seq<Thread>, main: nat, m: nat)
    requires Deadlocked(ts, main, m)
    ensures var unused := forall k :: 0 <= k < |ts| && k != m ==> !UsedBefore(ts[k], main);
      Streak(before + [ts], main) == if unused then Streak(before, main) + 1 else 0
  {
    assert (before + [ts])[..|before|] == before;
    OneAwake(PriorAt(before, main), ts, main, m);
  }

  /** Sample k of a deadlock is quiet exactly when no sleeping thread has used the CPU. */
  lemma QuietInDeadlock(before: Samples, dead: Samples, main: nat, monitors: seq<nat>, k: nat)
    requires k < |dead| == |monitors| && Deadlocked(dead[k], main, monitors[k])
    ensures QuietAt(before + dead, main, |before| + k) <==>
      forall j :: 0 <= j < |dead[k]| && j != monitors[k] ==> !UsedBefore(dead[k][j], main)
  {
    var samples := before + dead;
    assert samples[..|before| + k + 1] == (before + dead[..k]) + [dead[k]];
    assert (samples[..|before| + k + 1])[..|before| + k] == before + dead[..k];
    OneAwake(PriorAt(before + dead[..k], main), dead[k], main, monitors[k]);
    hide Deadlocked, UsedBefore;
  }

  /** A deadlock at least `duration` samples long is reported by its last sample exactly when no sleeping
      thread has used the CPU in any of the last `duration` samples of it. */
  lemma DeadlockReportedExactly(before: Samples, dead: Samples, main: nat, monitors: seq<nat>, duration: nat)
    requires 1 <= duration <= |dead| == |monitors|
    requires forall k :: 0 <= k < |dead| ==> Deadlocked(dead[k], main, monitors[k])
    ensures Streak(before + dead, main) >= duration <==> forall k, j ::
      |dead| - duration <= k < |dead| && 0 <= j < |dead[k]| && j != monitors[k] ==> !UsedBefore(dead[k][j], main)
  {
    var samples := before + dead;
    AbortExactly(samples, main, duration);
    hide QuietAt, Deadlocked, UsedBefore, Streak;
    forall k | 0 <= k < |dead|
      ensures QuietAt(samples, main, |before| + k) <==>
        forall j :: 0 <= j < |dead[k]| && j != monitors[k] ==> !UsedBefore(dead[k][j], main)
    {
      QuietInDeadlock(before, dead, main, monitors, k);
    }
    if forall i :: |samples| - duration <= i < |samples| ==> QuietAt(samples, main, i) {
      forall k, j | |dead| - duration <= k < |dead| && 0 <= j < |dead[k]| && j != monitors[k]
        ensures !UsedBefore(dead[k][j], main)
      {
        assert QuietAt(samples, main, |before| + k);
      }
    }
    if forall k, j ::
      |dead| - duration <= k < |dead| && 0 <= j < |dead[k]| && j != monitors[k] ==> !UsedBefore(dead[k][j], main)
    {
      forall i | |samples| - duration <= i < |samples| ensures QuietAt(samples, main, i) {
        assert QuietAt(samples, main, |before| + (i - |before|));
      }
    }
  }

  // ---------------------------------------------------------------------------------------------
  // No deadlock is seen while two other threads count as running.

  lemma {:induction false} OthersBound(prior: map<nat, nat>, ts: seq<Thread>, main: nat)
    ensures CountRunning(prior, ts, main) >= Others(ts, main)
  {
    if ts != [] { OthersBound(prior, ts[..|ts|-1], main); }
  }

  predicate IsOther(ts: seq<Thread>, main: nat, i: nat) {
    i < |ts| && AlwaysRuns(ts[i], main)
  }

  lemma {:induction false} OneOther(ts: seq<Thread>, main: nat, i: nat)
    requires IsOther(ts, main, i)
    ensures Others(ts, main) >= 1
  {
    if i < |ts| - 1 { OneOther(ts[..|ts|-1], main, i); }
  }

  lemma {:induction false} TwoOthers(ts: seq<Thread>, main: nat, i: nat, j: nat)
    requires i < j && IsOther(ts, main, i) && IsOther(ts, main, j)
    ensures Others(ts, main) >= 2
  {
    var n := |ts| - 1;
    if j < n { TwoOthers(ts[..n], main, i, j); } else { OneOther(ts[..n], main, i); }
  }

  /** One sleeping thread that has ever used the CPU counts as running for good: beside any other running
      thread, before or after it in the list, it resets the counter whatever the main thread does. */
  lemma PastUseHidesDeadlock(before: Samples, ts: seq<Thread>, main: nat, i: nat, j: nat)
    requires i != j && IsOther(ts, main, i) && j < |ts| && UsedBefore(ts[j], main)
    ensures Streak(before + [ts], main) == 0
  {
    assert (before + [ts])[..|before|] == before;
    assert IsOther(ts, main, j);
    if i < j { TwoOthers(ts, main, i, j); } else { TwoOthers(ts, main, j, i); }
    OthersBound(PriorAt(before, main), ts, main);
  }


  /** The main thread and a worker asleep for good, the monitor running. */
  function Stuck(workerTime: nat): seq<Thread> {
    [Thread(1, OtherState, 0, 9), Thread(2, R, 0, 4), Thread(3, OtherState, 0, workerTime)]
  }

  lemma StuckIs(workerTime: nat)
    ensures var ts := Stuck(workerTime);
      && |ts| == 3 && Deadlocked(ts, 1, 1) && IsOther(ts, 1, 1) && !UsedBefore(ts[0], 1)
      && (UsedBefore(ts[2], 1) <==> workerTime > 0)
  {
  }

  /** If the worker has used one tick of CPU time at some point, the deadlock is never reported; if it has
      used none, the deadlock counts at once. */
  lemma {:induction false} UsedOnce(n: nat)
    ensures Deadlocked(Stuck(1), 1, 1) && Streak(seq(n, _ => Stuck(1)), 1) == 0
    ensures Deadlocked(Stuck(0), 1, 1) && Streak([Stuck(0)], 1) == 1
  {
    assert [] + [Stuck(0)] == [Stuck(0)] && Streak([], 1) == 0 && seq(0, _ => Stuck(1)) == [];
    hide *;
    StuckIs(0);
    StuckIs(1);
    DeadlockSeenExactly([], Stuck(0), 1, 1);
    if n > 0 {
      assert seq(n, _ => Stuck(1)) == seq(n - 1, _ => Stuck(1)) + [Stuck(1)];
      PastUseHidesDeadlock(seq(n - 1, _ => Stuck(1)), Stuck(1), 1, 1, 2);
    }
  }

  /** The main thread asleep, the monitor running and a worker in a tracing stop, as when a GPU works for it:
      nothing is reported however long this lasts. */
  lemma {:induction false} TracedWorker(n: nat)
    ensures Streak(seq(n, _ => [Thread(1, OtherState, 0, 9), Thread(2, R, 0, 4), Thread(3, Tracing, 0, 0)]), 1) == 0
  {
    var ts := [Thread(1, OtherState, 0, 9), Thread(2, R, 0, 4), Thread(3, Tracing, 0, 0)];
    assert Busy(1)(ts[1]) && Traced()(ts[2]);
    if n == 0 {
      assert seq(0, _ => ts) == [];
    } else {
      assert seq(n, _ => ts) == seq(n - 1, _ => ts) + [ts];
      hide *;
      TwoAwakeReset(seq(n - 1, _ => ts), ts, 1, 1, 2);
    }
  }
}
