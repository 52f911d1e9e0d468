/** The sampling schedule of threadedFunction in src/zerosum.cpp. Times are in clock ticks; the work time
    of an iteration is everything it does besides waiting, and an overlong wait counts as work. */
module Schedule {
  import opened Collections

  function Max(a: int, b: int): int { if a >= b then a else b }

  /** How late iteration |works| starts, after these work times: L' = max(0, L - period) + w. */
  function Lateness(first: int, works: seq<nat>, period: nat): int {
    if works == [] then first
    else Max(0, Lateness(first, works[..|works|-1], period) - period) + works[|works|-1]
  }

  /** The worker loop: `prev` advances by exactly one period an iteration, and the wait lasts as long as
      was left when the iteration began. Iteration k starts Lateness ticks after its nominal time. */
  method RunLoop(t0: int, first: int, works: seq<nat>, period: nat) returns (starts: seq<int>, prev: int, now: int)
    ensures |starts| == |works|
    ensures forall k :: 0 <= k < |works| ==> starts[k] == t0 + k * period + Lateness(first, works[..k], period)
    ensures prev == t0 + |works| * period && now == prev + Lateness(first, works, period)
  {
    prev, now, starts := t0, t0 + first, [];
    var k := 0;
    while k < |works|
      invariant 0 <= k <= |works| && |starts| == k
      invariant prev == t0 + k * period && now == prev + Lateness(first, works[..k], period)
      invariant forall i :: 0 <= i < k ==> starts[i] == t0 + i * period + Lateness(first, works[..i], period)
    {
      assert works[..k+1][..k] == works[..k];
      starts := starts + [now];
      var next := prev + period;
      var stop := next - now;
      now := now + works[k];
      if stop > 0 { now := now + stop; }
      prev := next;
      k := k + 1;
    }
    assert works[..k] == works;
  }

  // ---------------------------------------------------------------------------------------------
  // Lateness is backlog.

  /** The work since iteration j, less one period for each later iteration but the first. */
  function Backlog(works: seq<nat>, period: nat, j: nat): int
    requires j < |works|
  {
    Sum(works[j..]) - (|works| - 1 - j) * period
  }

  lemma BacklogStep(works: seq<nat>, period: nat, j: nat)
    requires j < |works| - 1
    ensures Backlog(works, period, j) == Backlog(works[..|works|-1], period, j) - period + works[|works|-1]
  {
    var n := |works| - 1;
    assert works[j..][..n-j] == works[..n][j..];
    assert (n - j) * period == (n - 1 - j) * period + period;
  }

  lemma LastBacklog(works: seq<nat>, period: nat)
    requires works != []
    ensures Backlog(works, period, |works| - 1) == works[|works|-1]
  {
    var n := |works| - 1;
    var one: seq<nat> := [works[n]];
    assert works[n..] == one && one[..|one|-1] == [];
    assert Sum(one) == Sum([]) + works[n];
  }

  /** Starting on time, the lateness is the largest backlog over all suffixes of the run. */
  lemma {:induction false} LatenessIsBacklog(works: seq<nat>, period: nat)
    requires works != []
    ensures forall j :: 0 <= j < |works| ==> Backlog(works, period, j) <= Lateness(0, works, period)
    ensures exists j :: 0 <= j < |works| && Backlog(works, period, j) == Lateness(0, works, period)
  {
    var n := |works| - 1;
    var before := Lateness(0, works[..n], period);
    LastBacklog(works, period);
    if n > 0 {
      LatenessIsBacklog(works[..n], period);
      forall j | 0 <= j < |works| ensures Backlog(works, period, j) <= Lateness(0, works, period) {
        if j < n { BacklogStep(works, period, j); }
      }
      var i :| 0 <= i < n && Backlog(works[..n], period, i) == before;
      BacklogStep(works, period, i);
      assert Backlog(works, period, i) == before - period + works[n];
      var j := if before > period then i else n;
      assert Backlog(works, period, j) == Lateness(0, works, period);
    } else {
      assert Backlog(works, period, 0) == Lateness(0, works, period);
    }
  }

  /** No drift: as long as no iteration works longer than W, at most the period, every iteration starts
      within W of its nominal time. */
  lemma {:induction false} NoDrift(first: int, works: seq<nat>, period: nat, W: nat)
    requires 0 <= first <= W <= period && forall k :: 0 <= k < |works| ==> works[k] <= W
    ensures 0 <= Lateness(first, works, period) <= W
  {
    if works != [] { NoDrift(first, works[..|works|-1], period, W); }
  }

  /** Within the period, the wait forgives everything but the last iteration's own work: that work is not
      taken off its wait, so the next iteration starts exactly that much late. */
  lemma {:induction false} OnlyLastWorkCounts(first: int, works: seq<nat>, period: nat, W: nat)
    requires works != [] && 0 <= first <= W <= period && forall k :: 0 <= k < |works| ==> works[k] <= W
    ensures Lateness(first, works, period) == works[|works|-1]
  {
    NoDrift(first, works[..|works|-1], period, W);
  }

  /** Iterations that all work longer than the period drift without bound. */
  lemma {:induction false} Overload(works: seq<nat>, period: nat)
    requires forall k :: 0 <= k < |works| ==> works[k] > period
    ensures Lateness(0, works, period) >= |works|
  {
    if works != [] { Overload(works[..|works|-1], period); }
  }

  /** Every iteration of the loop starts within W of its nominal time, on every run whose work times
      stay within W, if and only if W is at most the period. */
  lemma NoDriftExactly(period: nat, W: nat)
    ensures (forall works: seq<nat> :: (forall k :: 0 <= k < |works| ==> works[k] <= W) ==>
        0 <= Lateness(0, works, period) <= W)
       <==> W <= period
  {
    if W <= period {
      forall works: seq<nat> | forall k :: 0 <= k < |works| ==> works[k] <= W
        ensures 0 <= Lateness(0, works, period) <= W
      {
        NoDrift(0, works, period, W);
      }
    } else {
      var works: seq<nat> := seq(W + 1, _ => W);
      Overload(works, period);
      assert Lateness(0, works, period) >= W + 1;
    }
  }


  /** Two iterations of two ticks each, with a period of one, end up three ticks late. */
  lemma Drifts()
    ensures Lateness(0, [2, 2], 1) == 3
  {
    assert [2, 2][..1] == [2] && [2][..0] == [];
  }
}
