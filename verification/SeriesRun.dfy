/** A store driven through updates and emissions, as the monitor does with a log that it writes as it goes. */
module SeriesRun {
  import opened Series
  import opened SeriesOutput

  datatype Event = Update(fields: Sample, step: nat) | Emit

  function LogOf(events: seq<Event>): seq<Sample> {
    if events == [] then []
    else
      var e := events[|events|-1];
      LogOf(events[..|events|-1]) + if e.Update? then [e.fields] else []
  }

  function StepsOf(events: seq<Event>): (r: seq<nat>)
    ensures |r| == |LogOf(events)|
  {
    if events == [] then []
    else
      var e := events[|events|-1];
      StepsOf(events[..|events|-1]) + if e.Update? then [e.step] else []
  }

  /** The number of updates before each emission. */
  function TimesOf(events: seq<Event>): seq<nat> {
    if events == [] then []
    else
      var front := events[..|events|-1];
      TimesOf(front) + if events[|events|-1].Emit? then [|LogOf(front)|] else []
  }

  function ViewOf(kind: Kind, who: Owner, events: seq<Event>): View { View(kind, who, StepsOf(events), LogOf(events)) }

  lemma {:induction false} TimesAreEmissions(events: seq<Event>)
    ensures Emissions(TimesOf(events), |LogOf(events)|)
  {
    if events != [] {
      var front := events[..|events|-1];
      var times := TimesOf(front);
      TimesAreEmissions(front);
      EmissionsLater(times, |LogOf(front)|, |LogOf(events)|);
      if events[|events|-1].Emit? {
        assert (times + [|LogOf(front)|])[..|times|] == times;
        assert LogOf(events) == LogOf(front);
      } else {
        assert TimesOf(events) == times;
      }
    }
  }

  lemma {:induction false} EmissionsLater(times: seq<nat>, n: nat, m: nat)
    requires Emissions(times, n) && n <= m
    ensures Emissions(times, m)
  {
    if times != [] { EmissionsLater(times[..|times|-1], n, m); }
  }

  /** What has been written does not depend on the later updates. */
  lemma {:induction false} IncrementalThen(v: View, n: nat, times: seq<nat>)
    requires Sound(v) && n <= |v.log| && Emissions(times, n)
    ensures Sound(Then(v, n)) && |Then(v, n).log| == n && Emissions(times, |v.log|)
    ensures Incremental(Then(v, n), times) == Incremental(v, times)
  {
    EmissionsLater(times, n, |v.log|);
    if times != [] {
      var front := times[..|times|-1];
      IncrementalThen(v, n, front);
      OutThen(v, n, Cursor(times), Cursor(front), Cursor(times));
      hide Out, Then;
    }
  }

  lemma AfterUpdate(kind: Kind, who: Owner, events: seq<Event>, fields: Sample, step: nat)
    ensures var more := events + [Update(fields, step)];
      && LogOf(more) == LogOf(events) + [fields] && StepsOf(more) == StepsOf(events) + [step]
      && TimesOf(more) == TimesOf(events)
      && Emissions(TimesOf(events), |LogOf(events)|) && Emissions(TimesOf(more), |LogOf(more)|)
      && Incremental(ViewOf(kind, who, more), TimesOf(more)) == Incremental(ViewOf(kind, who, events), TimesOf(events))
  {
    var more := events + [Update(fields, step)];
    assert more[..|events|] == events;
    TimesAreEmissions(events);
    TimesAreEmissions(more);
    assert TimesOf(more) == TimesOf(events);
    var v := ViewOf(kind, who, more);
    assert Then(v, |LogOf(events)|) == ViewOf(kind, who, events);
    hide Incremental, Emissions;
    IncrementalThen(v, |LogOf(events)|, TimesOf(events));
  }

  lemma AfterEmit(kind: Kind, who: Owner, events: seq<Event>)
    ensures var more := events + [Emit];
      && LogOf(more) == LogOf(events) && StepsOf(more) == StepsOf(events)
      && TimesOf(more) == TimesOf(events) + [|LogOf(events)|]
      && Emissions(TimesOf(events), |LogOf(events)|) && Emissions(TimesOf(more), |LogOf(more)|)
      && Cursor(TimesOf(events)) <= |LogOf(events)| == Cursor(TimesOf(more))
      && Incremental(ViewOf(kind, who, more), TimesOf(more)) ==
           Incremental(ViewOf(kind, who, events), TimesOf(events))
           + Out(ViewOf(kind, who, events), |LogOf(events)|, Cursor(TimesOf(events)), |LogOf(events)|)
  {
    var more := events + [Emit];
    var times := TimesOf(events);
    assert more[..|events|] == events;
    TimesAreEmissions(events);
    TimesAreEmissions(more);
    assert TimesOf(more) == times + [|LogOf(events)|] && (times + [|LogOf(events)|])[..|times|] == times;
    hide Out;
  }

  /** Updates and emissions in any order, with the cursor kept between the emissions: the pieces written
      join up to Incremental of the updates made, to which AgreeExactly applies. */
  method Drive(store: Store, host: string, rank: nat, shmrank: nat, events: seq<Event>)
    returns (text: string, cursor: nat)
    requires store.Valid() && store.log == []
    modifies store
    ensures store.Valid() && store.log == LogOf(events) && store.steps == StepsOf(events)
    ensures Emissions(TimesOf(events), |LogOf(events)|) && cursor == Cursor(TimesOf(events))
    ensures text ==
      Incremental(ViewOf(store.kind, Owner(host, rank, shmrank, store.id), events), TimesOf(events))
  {
    ghost var who := Owner(host, rank, shmrank, store.id);
    text, cursor := "", 0;
    TimesAreEmissions([]);
    assert events[..0] == [] && events[..|events|] == events;
    for k := 0 to |events|
      invariant store.Valid() && store.log == LogOf(events[..k]) && store.steps == StepsOf(events[..k])
      invariant Emissions(TimesOf(events[..k]), |LogOf(events[..k])|) && cursor == Cursor(TimesOf(events[..k]))
      invariant text == Incremental(ViewOf(store.kind, who, events[..k]), TimesOf(events[..k]))
    {
      assert events[..k+1] == events[..k] + [events[k]];
      hide *;
      match events[k]
      case Update(fields, step) =>
        AfterUpdate(store.kind, who, events[..k], fields, step);
        store.UpdateFields(fields, step);
      case Emit =>
        AfterEmit(store.kind, who, events[..k]);
        var piece;
        piece, cursor := store.FieldsToCSV(host, rank, shmrank, cursor);
        text := text + piece;
    }
  }
}
