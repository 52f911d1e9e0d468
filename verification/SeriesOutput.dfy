/** Writing the rows of a series as they come, with the cursor, against writing them once at the end. */
module SeriesOutput {
  import opened KeyOrder
  import opened Series
  import Text

  /** A series after all its updates, and whose rows it writes. */
  datatype View = View(kind: Kind, who: Owner, steps: seq<nat>, log: seq<Sample>)

  ghost predicate Sound(v: View) { |v.steps| == |v.log| }

  ghost function StepRows(v: View, i: nat, fields: set<string>): string
    requires Sound(v) && i < |v.log|
  {
    Rows(v.kind, v.who, v.steps, v.log, i, Sorted(fields))
  }

  function LiveAt(v: View, upto: nat, i: nat): set<string>
    requires upto <= |v.log|
  {
    Live(v.kind, v.log[..upto], i)
  }

  ghost function Out(v: View, upto: nat, lo: nat, hi: nat): string
    requires Sound(v) && lo <= hi <= upto <= |v.log|
  {
    Chunk(v.kind, v.who, v.steps, v.log, upto, lo, hi)
  }

  /** The view at the time of an emission after `upto` updates. */
  function Then(v: View, upto: nat): View
    requires upto <= |v.log| && upto <= |v.steps|
  {
    v.(steps := v.steps[..upto], log := v.log[..upto])
  }

  lemma {:induction false} RowsThen(v: View, n: nat, i: nat, fields: seq<string>)
    requires Sound(v) && i < n <= |v.log|
    ensures Rows(v.kind, v.who, v.steps[..n], v.log[..n], i, fields) == Rows(v.kind, v.who, v.steps, v.log, i, fields)
  {
    if fields != [] {
      RowsThen(v, n, i, fields[1..]);
      assert ShownValue(v.kind, v.log[..n], fields[0], i) == ShownValue(v.kind, v.log, fields[0], i);
      hide ShownValue, RowText;
    }
  }

  lemma OutGrows(v: View, upto: nat, lo: nat, hi: nat)
    requires Sound(v) && lo < hi <= upto <= |v.log|
    ensures Out(v, upto, lo, hi) == Out(v, upto, lo, hi - 1) + StepRows(v, hi - 1, LiveAt(v, upto, hi - 1))
  {}

  lemma OutNone(v: View, upto: nat, lo: nat)
    requires Sound(v) && lo <= upto <= |v.log|
    ensures Out(v, upto, lo, lo) == ""
  {}

  lemma StepRowsThen(v: View, n: nat, upto: nat, i: nat)
    requires Sound(v) && i < upto <= n <= |v.log|
    ensures Sound(Then(v, n)) && |Then(v, n).log| == n
    ensures StepRows(Then(v, n), i, LiveAt(Then(v, n), upto, i)) == StepRows(v, i, LiveAt(v, upto, i))
  {
    assert v.log[..n][..upto] == v.log[..upto];
    RowsThen(v, n, i, Sorted(LiveAt(v, upto, i)));
    hide Rows, Sorted, Live;
  }

  ghost predicate SameSteps(v: View, w: View, upto: nat)
    requires Sound(v) && Sound(w) && upto <= |v.log| && upto <= |w.log|
  {
    forall i :: 0 <= i < upto ==> StepRows(w, i, LiveAt(w, upto, i)) == StepRows(v, i, LiveAt(v, upto, i))
  }

  lemma {:induction false} OutSame(v: View, w: View, upto: nat, lo: nat, hi: nat)
    requires Sound(v) && Sound(w) && lo <= hi <= upto <= |v.log| && upto <= |w.log| && SameSteps(v, w, upto)
    ensures Out(w, upto, lo, hi) == Out(v, upto, lo, hi)
    decreases hi
  {
    if lo == hi {
      OutNone(v, upto, lo);
      OutNone(w, upto, lo);
      hide *;
    } else {
      assert StepRows(w, hi - 1, LiveAt(w, upto, hi - 1)) == StepRows(v, hi - 1, LiveAt(v, upto, hi - 1));
      hide *;
      OutSame(v, w, upto, lo, hi - 1);
      OutGrows(v, upto, lo, hi);
      OutGrows(w, upto, lo, hi);
    }
  }

  /** What fieldsToCSV writes after `upto` updates does not depend on the later ones. */
  lemma OutThen(v: View, n: nat, upto: nat, lo: nat, hi: nat)
    requires Sound(v) && lo <= hi <= upto <= n <= |v.log|
    ensures Sound(Then(v, n)) && |Then(v, n).log| == n
    ensures Out(Then(v, n), upto, lo, hi) == Out(v, upto, lo, hi)
  {
    assert SameSteps(v, Then(v, n), upto) by {
      forall i | 0 <= i < upto
        ensures StepRows(Then(v, n), i, LiveAt(Then(v, n), upto, i)) == StepRows(v, i, LiveAt(v, upto, i))
      {
        StepRowsThen(v, n, upto, i);
        hide StepRows, LiveAt;
      }
    }
    hide SameSteps, Out;
    OutSame(v, Then(v, n), upto, lo, hi);
  }

  // ---------------------------------------------------------------------------------------------
  // Rows can only be missing.

  lemma StepRowsFrom(v: View, i: nat, fields: set<string>, d: string)
    requires Sound(v) && i < |v.log| && IsFirst(d, fields)
    ensures |StepRows(v, i, fields)| > |StepRows(v, i, fields - {d})|
    ensures |StepRows(v, i, fields)| == |Row(v.kind, v.who, v.steps, v.log, i, d)| + |StepRows(v, i, fields - {d})|
  {
    SortedFrom(d, fields);
    FirstRow(v.kind, v.who, v.steps, v.log, i, d, Sorted(fields - {d}));
    hide Row, Sorted;
  }

  lemma {:induction false} FewerRows(v: View, i: nat, a: set<string>, b: set<string>)
    requires Sound(v) && i < |v.log| && a <= b
    ensures |StepRows(v, i, a)| <= |StepRows(v, i, b)|
    ensures |StepRows(v, i, a)| == |StepRows(v, i, b)| <==> a == b
    decreases b
  {
    if b == {} {
      assert a == {};
    } else {
      HasFirst(b);
      var d :| IsFirst(d, b);
      Peel(a, b, d);
      hide StepRows, Row, IsFirst;
      StepRowsFrom(v, i, b, d);
      if d in a {
        StepRowsFrom(v, i, a, d);
        FewerRows(v, i, a - {d}, b - {d});
      } else {
        FewerRows(v, i, a, b - {d});
      }
    }
  }

  lemma Peel(a: set<string>, b: set<string>, d: string)
    requires a <= b && IsFirst(d, b)
    ensures d in a ==> IsFirst(d, a) && a - {d} <= b - {d} < b && (a - {d} == b - {d} <==> a == b)
    ensures d !in a ==> a <= b - {d} < b && a != b
  {
    if d in a {
      assert a == (a - {d}) + {d} && b == (b - {d}) + {d};
    }
  }

  lemma {:induction false} ExtentGrows(log: seq<Sample>, upto: nat, f: string)
    requires upto <= |log|
    ensures Extent(log[..upto], f) <= Extent(log, f)
    ensures Extent(log, f) <= upto ==> Extent(log[..upto], f) == Extent(log, f)
  {
    var n := Extent(log[..upto], f);
    if n > 0 { assert f in log[n-1]; }
    if Extent(log, f) > 0 { assert f in log[Extent(log, f) - 1]; }
    forall k | n <= k < upto ensures f !in log[k] { assert log[..upto][k] == log[k]; }
  }

  lemma LiveGrows(v: View, upto: nat, i: nat)
    requires upto <= |v.log|
    ensures LiveAt(v, upto, i) <= Live(v.kind, v.log, i)
  {
    forall f ensures Extent(v.log[..upto], f) <= Extent(v.log, f) {
      ExtentGrows(v.log, upto, f);
    }
  }

  /** Steps lo to hi - 1 had all their rows after `upto` updates already. */
  ghost predicate Complete(v: View, upto: nat, lo: nat, hi: nat)
    requires upto <= |v.log|
  {
    forall i :: lo <= i < hi ==> LiveAt(v, upto, i) == LiveAt(v, |v.log|, i)
  }

  lemma StepLength(v: View, upto: nat, i: nat)
    requires Sound(v) && i < upto <= |v.log|
    ensures var early, late := StepRows(v, i, LiveAt(v, upto, i)), StepRows(v, i, LiveAt(v, |v.log|, i));
      |early| <= |late| && (|early| == |late| <==> LiveAt(v, upto, i) == LiveAt(v, |v.log|, i))
  {
    assert v.log[..|v.log|] == v.log;
    LiveGrows(v, upto, i);
    FewerRows(v, i, LiveAt(v, upto, i), LiveAt(v, |v.log|, i));
    hide StepRows, Live;
  }

  lemma CompleteGrows(v: View, upto: nat, lo: nat, hi: nat)
    requires lo <= hi && upto <= |v.log|
    ensures lo == hi ==> Complete(v, upto, lo, hi)
    ensures lo < hi ==>
      var last := LiveAt(v, upto, hi - 1) == LiveAt(v, |v.log|, hi - 1);
      (Complete(v, upto, lo, hi) <==> Complete(v, upto, lo, hi - 1) && last)
  {
    hide LiveAt;
  }

  lemma {:induction false} OutLength(v: View, upto: nat, lo: nat, hi: nat)
    requires Sound(v) && lo <= hi <= upto <= |v.log|
    ensures var early, late := Out(v, upto, lo, hi), Out(v, |v.log|, lo, hi);
      |early| <= |late| && (|early| == |late| <==> Complete(v, upto, lo, hi)) &&
          (Complete(v, upto, lo, hi) ==> early == late)
    decreases hi
  {
    CompleteGrows(v, upto, lo, hi);
    hide *;
    if lo == hi {
      OutNone(v, upto, lo);
      OutNone(v, |v.log|, lo);
    } else {
      OutLength(v, upto, lo, hi - 1);
      StepLength(v, upto, hi - 1);
      OutGrows(v, upto, lo, hi);
      OutGrows(v, |v.log|, lo, hi);
    }
  }

  lemma {:induction false} OutSplit(v: View, lo: nat, mid: nat, hi: nat)
    requires Sound(v) && lo <= mid <= hi <= |v.log|
    ensures Out(v, |v.log|, lo, hi) == Out(v, |v.log|, lo, mid) + Out(v, |v.log|, mid, hi)
    decreases hi
  {
    if mid < hi {
      hide *;
      OutSplit(v, lo, mid, hi - 1);
      OutGrows(v, |v.log|, lo, hi);
      OutGrows(v, |v.log|, mid, hi);
      Text.Regroup(Out(v, |v.log|, lo, mid), Out(v, |v.log|, mid, hi - 1),
          StepRows(v, hi - 1, LiveAt(v, |v.log|, hi - 1)));
    }
  }

  // ---------------------------------------------------------------------------------------------
  // A run that writes after some of its updates.

  /** Where the cursor stands after these emissions, each given by the number of updates before it. */
  function Cursor(times: seq<nat>): nat { if times == [] then 0 else times[|times|-1] }

  ghost predicate Emissions(times: seq<nat>, n: nat) {
    times != [] ==> Emissions(times[..|times|-1], n) && Cursor(times[..|times|-1]) <= Cursor(times) <= n
  }

  /** The chunks written, one after the other. */
  ghost function Incremental(v: View, times: seq<nat>): string
    requires Sound(v) && Emissions(times, |v.log|)
  {
    if times == [] then ""
    else Incremental(v, times[..|times|-1]) + Out(v, Cursor(times), Cursor(times[..|times|-1]), Cursor(times))
  }

  /** No emission came before a row of one of its steps existed. */
  ghost predicate NothingLate(v: View, times: seq<nat>)
    requires Emissions(times, |v.log|)
  {
    times != [] ==>
      && NothingLate(v, times[..|times|-1])
      && Complete(v, Cursor(times), Cursor(times[..|times|-1]), Cursor(times))
  }

  lemma {:induction false} IncrementalLength(v: View, times: seq<nat>)
    requires Sound(v) && Emissions(times, |v.log|)
    ensures var part, whole := Incremental(v, times), Out(v, |v.log|, 0, Cursor(times));
      |part| <= |whole| && (|part| == |whole| <==> NothingLate(v, times)) && (NothingLate(v, times) ==> part == whole)
  {
    if times != [] {
      var front := times[..|times|-1];
      assert Emissions(front, |v.log|) && Cursor(front) <= Cursor(times) <= |v.log|;
      assert Incremental(v, times) == Incremental(v, front) + Out(v, Cursor(times), Cursor(front), Cursor(times));
      var complete := Complete(v, Cursor(times), Cursor(front), Cursor(times));
      assert NothingLate(v, times) <==> NothingLate(v, front) && complete;
      hide *;
      IncrementalLength(v, front);
      OutLength(v, Cursor(times), Cursor(front), Cursor(times));
      OutSplit(v, 0, Cursor(front), Cursor(times));
    }
  }

  /** Writing as one goes gives the same text as writing once at the end, exactly when no field came late. */
  lemma IncrementalIsOneShot(v: View, times: seq<nat>)
    requires Sound(v) && Emissions(times, |v.log|) && Cursor(times) == |v.log|
    ensures Incremental(v, times) == Out(v, |v.log|, 0, |v.log|) <==> NothingLate(v, times)
  {
    IncrementalLength(v, times);
  }

  // ---------------------------------------------------------------------------------------------
  // When a field comes late.

  /** The first step that has rows: a hardware thread's rows need the step before. */
  function FirstStep(kind: Kind): nat { if kind == HWT then 1 else 0 }

  /** One past the last step that has a row for f. */
  function Reach(kind: Kind, log: seq<Sample>, f: string): nat {
    if kind == HWT && Extent(log, TOTAL) < Extent(log, f) then Extent(log, TOTAL) else Extent(log, f)
  }

  lemma ShownBelowReach(kind: Kind, log: seq<Sample>, f: string, i: nat)
    ensures Shown(kind, log, f, i) <==> FirstStep(kind) <= i < Reach(kind, log, f)
  {
    hide Extent;
  }

  /** Where the first row for f could be that the emission of steps lo to upto - 1 lacks. */
  function FirstLacking(kind: Kind, log: seq<Sample>, upto: nat, lo: nat, f: string): nat
    requires upto <= |log|
  {
    var reach := Reach(kind, log[..upto], f);
    var from := if lo < FirstStep(kind) then FirstStep(kind) else lo;
    if from < reach then reach else from
  }

  /** No field has a row for an emitted step that it did not have when the step was emitted. */
  ghost predicate CaughtUp(kind: Kind, log: seq<Sample>, upto: nat, lo: nat)
    requires upto <= |log|
  {
    forall f :: Reach(kind, log, f) <= FirstLacking(kind, log, upto, lo, f) ||
        upto <= FirstLacking(kind, log, upto, lo, f)
  }

  lemma LiveEqually(v: View, upto: nat, i: nat)
    requires upto <= |v.log|
    ensures LiveAt(v, upto, i) == LiveAt(v, |v.log|, i) <==>
      forall f :: Shown(v.kind, v.log, f, i) ==> Shown(v.kind, v.log[..upto], f, i)
  {
    assert v.log[..|v.log|] == v.log;
    LiveGrows(v, upto, i);
    hide Live, Shown;
    if forall f :: Shown(v.kind, v.log, f, i) ==> Shown(v.kind, v.log[..upto], f, i) {
      assert LiveAt(v, |v.log|, i) <= LiveAt(v, upto, i);
    }
    if LiveAt(v, upto, i) == LiveAt(v, |v.log|, i) {
      forall f | Shown(v.kind, v.log, f, i) ensures Shown(v.kind, v.log[..upto], f, i) {
        assert f in LiveAt(v, |v.log|, i);
      }
    }
  }

  lemma CompleteIsCaughtUp(v: View, upto: nat, lo: nat)
    requires lo <= upto <= |v.log|
    ensures Complete(v, upto, lo, upto) <==> CaughtUp(v.kind, v.log, upto, lo)
  {
    if CaughtUp(v.kind, v.log, upto, lo) {
      forall i | lo <= i < upto ensures LiveAt(v, upto, i) == LiveAt(v, |v.log|, i) {
        forall f | Shown(v.kind, v.log, f, i) ensures Shown(v.kind, v.log[..upto], f, i) {
          ShownBelowReach(v.kind, v.log, f, i);
          ShownBelowReach(v.kind, v.log[..upto], f, i);
          hide Shown, Reach;
        }
        LiveEqually(v, upto, i);
        hide Shown, LiveAt, Reach;
      }
    } else {
      var f :| !(Reach(v.kind, v.log, f) <= FirstLacking(v.kind, v.log, upto, lo, f)
                 || upto <= FirstLacking(v.kind, v.log, upto, lo, f));
      var i := FirstLacking(v.kind, v.log, upto, lo, f);
      ShownBelowReach(v.kind, v.log, f, i);
      ShownBelowReach(v.kind, v.log[..upto], f, i);
      hide Shown, Reach, LiveAt;
      LiveEqually(v, upto, i);
    }
  }

  ghost predicate AllCaughtUp(kind: Kind, log: seq<Sample>, times: seq<nat>)
    requires Emissions(times, |log|)
  {
    times != [] ==>
      && AllCaughtUp(kind, log, times[..|times|-1])
      && CaughtUp(kind, log, Cursor(times), Cursor(times[..|times|-1]))
  }

  lemma {:induction false} NothingLateIs(v: View, times: seq<nat>)
    requires Emissions(times, |v.log|)
    ensures NothingLate(v, times) <==> AllCaughtUp(v.kind, v.log, times)
  {
    if times != [] {
      NothingLateIs(v, times[..|times|-1]);
      CompleteIsCaughtUp(v, Cursor(times), Cursor(times[..|times|-1]));
      hide Complete, CaughtUp;
    }
  }

  /** For every update log and all emission times, the two outputs agree exactly when, at each emission,
      no field is still to get rows for the steps emitted. */
  lemma AgreeExactly(v: View, times: seq<nat>)
    requires Sound(v) && Emissions(times, |v.log|) && Cursor(times) == |v.log|
    ensures Incremental(v, times) == Out(v, |v.log|, 0, |v.log|) <==> AllCaughtUp(v.kind, v.log, times)
  {
    NothingLateIs(v, times);
    IncrementalIsOneShot(v, times);
  }

  // ---------------------------------------------------------------------------------------------
  // The same in terms of the names in the updates.

  /** Every field named after the first `upto` updates was named in the last of them. */
  ghost predicate Settled(log: seq<Sample>, upto: nat)
    requires upto <= |log|
  {
    upto > 0 ==> forall j, f :: upto <= j < |log| && f in log[j] ==> f in log[upto-1]
  }

  lemma SettledExtent(log: seq<Sample>, upto: nat, f: string)
    requires 0 < upto <= |log| && Settled(log, upto)
    ensures Extent(log, f) == Extent(log[..upto], f) || Extent(log[..upto], f) == upto <= Extent(log, f)
  {
    ExtentGrows(log, upto, f);
    var n := Extent(log, f);
    if n > upto {
      assert f in log[n-1];
      assert log[..upto][upto-1] == log[upto-1];
    }
  }

  lemma SettledIsComplete(v: View, upto: nat, lo: nat)
    requires lo < upto <= |v.log| && Settled(v.log, upto)
    ensures Complete(v, upto, lo, upto)
  {
    assert v.log[..|v.log|] == v.log;
    forall i | lo <= i < upto ensures LiveAt(v, upto, i) == LiveAt(v, |v.log|, i) {
      forall f ensures i < Extent(v.log[..upto], f) <==> i < Extent(v.log, f) {
        SettledExtent(v.log, upto, f);
      }
    }
  }

  /** Every update of a hardware thread names total_time. */
  ghost predicate Timed(v: View) {
    v.kind == HWT ==> forall k :: 0 <= k < |v.log| ==> TOTAL in v.log[k]
  }

  lemma TimedExtent(v: View, upto: nat)
    requires Timed(v) && v.kind == HWT && upto <= |v.log|
    ensures Extent(v.log[..upto], TOTAL) == upto
  {
    if upto > 0 { assert v.log[..upto][upto-1] == v.log[upto-1]; }
  }

  /** A field that is missing from the last update before an emission and comes back later gives a row
      that the emission lacks. */
  lemma UnsettledIsIncomplete(v: View, upto: nat, lo: nat, j: nat, f: string)
    requires Timed(v) && lo < upto <= j < |v.log| && FirstStep(v.kind) < upto
    requires f in v.log[j] && f !in v.log[upto-1]
    ensures !Complete(v, upto, lo, upto)
  {
    var i := upto - 1;
    assert v.log[..|v.log|] == v.log;
    assert Shown(v.kind, v.log, f, i) by {
      assert j < Extent(v.log, f);
      if v.kind == HWT { TimedExtent(v, |v.log|); }
      hide Extent;
    }
    assert !Shown(v.kind, v.log[..upto], f, i) by {
      assert v.log[..upto][i] == v.log[i];
      assert Extent(v.log[..upto], f) != upto;
      hide Extent;
    }
    hide Shown, Live;
    assert f in LiveAt(v, |v.log|, i) && f !in LiveAt(v, upto, i);
  }

  lemma NoRowsYet(v: View, upto: nat, lo: nat)
    requires lo < upto <= FirstStep(v.kind) && upto <= |v.log|
    ensures Complete(v, upto, lo, upto)
  {
    forall i | lo <= i < upto ensures LiveAt(v, upto, i) == LiveAt(v, |v.log|, i) {
      assert LiveAt(v, upto, i) == {} && LiveAt(v, |v.log|, i) == {};
    }
  }

  lemma CompleteIsSettled(v: View, upto: nat, lo: nat)
    requires lo < upto <= |v.log|
    ensures upto <= FirstStep(v.kind) || Settled(v.log, upto) ==> Complete(v, upto, lo, upto)
    ensures Timed(v) && Complete(v, upto, lo, upto) ==> upto <= FirstStep(v.kind) || Settled(v.log, upto)
  {
    if upto <= FirstStep(v.kind) {
      NoRowsYet(v, upto, lo);
    } else if Settled(v.log, upto) {
      SettledIsComplete(v, upto, lo);
    } else if Timed(v) {
      var j, f :| upto <= j < |v.log| && f in v.log[j] && f !in v.log[upto-1];
      UnsettledIsIncomplete(v, upto, lo, j, f);
    }
  }

  /** Each emission that writes any rows follows an update that names every field still to come. */
  ghost predicate AllSettled(kind: Kind, log: seq<Sample>, times: seq<nat>)
    requires Emissions(times, |log|)
  {
    times != [] ==>
      && AllSettled(kind, log, times[..|times|-1])
      && (Cursor(times[..|times|-1]) < Cursor(times) && FirstStep(kind) < Cursor(times) ==> Settled(log, Cursor(times)))
  }

  lemma {:induction false} LateFields(v: View, times: seq<nat>)
    requires Emissions(times, |v.log|)
    ensures AllSettled(v.kind, v.log, times) ==> NothingLate(v, times)
    ensures Timed(v) && NothingLate(v, times) ==> AllSettled(v.kind, v.log, times)
  {
    if times != [] {
      var lo, upto := Cursor(times[..|times|-1]), Cursor(times);
      LateFields(v, times[..|times|-1]);
      if lo < upto { CompleteIsSettled(v, upto, lo); }
      hide Settled, Complete, Timed;
    }
  }

  lemma {:induction false} SameKeysSettle(kind: Kind, log: seq<Sample>, times: seq<nat>)
    requires Emissions(times, |log|) && forall i, j :: 0 <= i < |log| && 0 <= j < |log| ==> log[i].Keys == log[j].Keys
    ensures AllSettled(kind, log, times)
  {
    if times != [] { SameKeysSettle(kind, log, times[..|times|-1]); }
  }

  /** If every update names the same fields, the chunks written between the updates join up to what is
      written once at the end, whenever they are written. */
  lemma SameKeys(v: View, times: seq<nat>)
    requires Sound(v) && Emissions(times, |v.log|) && Cursor(times) == |v.log|
    requires forall i, j :: 0 <= i < |v.log| && 0 <= j < |v.log| ==> v.log[i].Keys == v.log[j].Keys
    ensures Incremental(v, times) == Out(v, |v.log|, 0, |v.log|)
  {
    SameKeysSettle(v.kind, v.log, times);
    LateFields(v, times);
    IncrementalIsOneShot(v, times);
  }

  /** For software threads, and for hardware threads whose updates all name total_time, the two agree
      exactly when each emission that writes any rows follows an update naming every field still to come. */
  lemma AgreeWhenNamed(v: View, times: seq<nat>)
    requires Timed(v) && Sound(v) && Emissions(times, |v.log|) && Cursor(times) == |v.log|
    ensures Incremental(v, times) == Out(v, |v.log|, 0, |v.log|) <==> AllSettled(v.kind, v.log, times)
  {
    LateFields(v, times);
    IncrementalIsOneShot(v, times);
  }


  /** A software thread whose second update brings a field that the first had not: after an emission
      between the two, the row of that field for the first step is missing. */
  lemma LateField(who: Owner)
    ensures var v := View(LWP, who, [0, 1], [map["a" := "1"], map["a" := "2", "b" := "3"]]);
      Sound(v) && Emissions([1, 2], 2) && Incremental(v, [1, 2]) != Out(v, 2, 0, 2)
  {
    var v := View(LWP, who, [0, 1], [map["a" := "1"], map["a" := "2", "b" := "3"]]);
    assert [1, 2][..1] == [1] && [1][..0] == [];
    assert "b" in v.log[1] && "b" !in v.log[0];
    assert !Settled(v.log, 1);
    assert !AllSettled(v.kind, v.log, [1]) && !AllSettled(v.kind, v.log, [1, 2]);
    hide AllSettled, Settled, Incremental, Out;
    AgreeWhenNamed(v, [1, 2]);
  }
}
