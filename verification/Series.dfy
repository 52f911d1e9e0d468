/** The zero-padded sample store of a hardware thread (HWT in src/hardware.h) and of a software thread
    (LWP in src/software.h). Both keep a vector per field and differ in the rows they write. */
module Series {
  import CpuTime
  import opened Decimal
  import opened KeyOrder
  import opened Collections
  import Text

  /** What one update brings. */
  type Sample = map<string, string>

  const TOTAL := CpuTime.TOTAL

  // ---------------------------------------------------------------------------------------------
  // What the store should hold, as a function of the updates made so far.

  /** One past the last update that names f, 0 if none does. */
  function Extent(log: seq<Sample>, f: string): (n: nat)
    ensures n <= |log|
    ensures n > 0 ==> f in log[n-1]
    ensures forall k :: n <= k < |log| ==> f !in log[k]
  {
    if log == [] then 0
    else if f in log[|log|-1] then |log|
    else Extent(log[..|log|-1], f)
  }

  /** The k-th update's value, or "0" if it has none. */
  function Entry(log: seq<Sample>, f: string, k: nat): string
    requires k < |log|
  {
    if f in log[k] then log[k][f] else "0"
  }

  function Column(log: seq<Sample>, f: string): (c: seq<string>)
    ensures |c| == Extent(log, f)
  {
    seq(Extent(log, f), k requires 0 <= k < Extent(log, f) => Entry(log, f, k))
  }

  ghost predicate Holds(fields: map<string, seq<string>>, log: seq<Sample>) {
    && (forall f :: Extent(log, f) > 0 ==> f in fields)
    && (forall f :: f in fields ==> fields[f] == Column(log, f))
  }

  lemma ColumnKept(log: seq<Sample>, s: Sample, f: string)
    requires f !in s
    ensures Column(log + [s], f) == Column(log, f)
  {
    assert (log + [s])[..|log|] == log;
  }

  function Padded(v: seq<string>, n: nat): (r: seq<string>)
    ensures |r| == if |v| < n then n else |v|
  {
    if |v| < n then v + seq(n - |v|, i => "0") else v
  }

  lemma ColumnGrows(log: seq<Sample>, s: Sample, f: string)
    requires f in s
    ensures Column(log + [s], f) == Padded(Column(log, f), |log|) + [s[f]]
  {
    var c, p := Column(log + [s], f), Padded(Column(log, f), |log|) + [s[f]];
    assert |c| == |p| == |log| + 1;
    forall k | 0 <= k < |c| ensures c[k] == p[k] {
      if k < |log| { assert (log + [s])[k] == log[k]; }
    }
  }

  method PushPadded(v: seq<string>, n: nat, value: string) returns (r: seq<string>)
    ensures r == Padded(v, n) + [value]
  {
    r := v;
    while |r| < n
      invariant |v| <= |r| && (|r| <= n || r == v)
      invariant r == v + seq(|r| - |v|, i => "0")
    {
      r := r + ["0"];
    }
    r := r + [value];
  }

  /** The columns while the fields of s are being added: those in `rest` are still to come. */
  ghost predicate Adding(fields: map<string, seq<string>>, log: seq<Sample>, s: Sample, rest: set<string>) {
    && (forall f :: f in s && f !in rest ==> f in fields)
    && (forall f :: Extent(log, f) > 0 ==> f in fields)
    && (forall f :: f in fields ==> fields[f] == Column(if f in s && f !in rest then log + [s] else log, f))
  }

  lemma AddOneField(before: map<string, seq<string>>, after: map<string, seq<string>>, log: seq<Sample>, s: Sample,
                    rest: set<string>, f: string)
    requires Adding(before, log, s, rest) && f in rest && f in s
    requires forall g :: g in after <==> g in before || g == f
    requires forall g :: g in before && g != f ==> after[g] == before[g]
    requires after[f] == Column(log + [s], f)
    ensures Adding(after, log, s, rest - {f})
  {}

  lemma AllAdded(fields: map<string, seq<string>>, log: seq<Sample>, s: Sample)
    requires Adding(fields, log, s, {})
    ensures Holds(fields, log + [s])
  {
    forall f ensures Extent(log + [s], f) > 0 ==> f in fields {
      assert (log + [s])[..|log|] == log;
    }
    forall f | f in fields ensures fields[f] == Column(log + [s], f) {
      if f !in s { ColumnKept(log, s, f); }
    }
  }

  datatype Kind = HWT | LWP

  /** Who the rows are about. */
  datatype Owner = Owner(host: string, rank: nat, shmrank: nat, id: nat)

  function Quoted(s: string): string { "\"" + s + "\"" }

  function KindName(kind: Kind): string { if kind == HWT then "HWT" else "LWP" }

  /** The text of one row. */
  function RowText(kind: Kind, who: Owner, step: nat, field: string, value: string): (r: string)
    ensures r != ""
  {
    Quoted(who.host) + "," + Digits(who.rank) + "," + Digits(who.shmrank) + "," + Digits(step) + ","
    + Quoted(KindName(kind)) + "," + Quoted("Metric") + "," + Quoted(Digits(who.id)) + "," + Quoted(field) + ","
    + Quoted(value) + "\n"
  }

  /** Whether step i has a row for field f: each vector that the row reads is long enough. */
  predicate Shown(kind: Kind, log: seq<Sample>, f: string, i: nat) {
    i < Extent(log, f) && (kind == HWT ==> 1 <= i < Extent(log, TOTAL))
  }

  /** The value in that row. */
  function ShownValue(kind: Kind, log: seq<Sample>, f: string, i: nat): string
    requires i < |log|
  {
    if kind == LWP || i == 0 then Entry(log, f, i)
    else CpuTime.StrPercentage(Entry(log, f, i), Entry(log, f, i - 1), Entry(log, TOTAL, i), Entry(log, TOTAL, i - 1))
  }

  function Row(kind: Kind, who: Owner, steps: seq<nat>, log: seq<Sample>, i: nat, f: string): (r: string)
    requires i < |log| == |steps|
    ensures r != ""
  {
    RowText(kind, who, steps[i], f, ShownValue(kind, log, f, i))
  }

  /** The rows of step i for these fields. */
  function Rows(kind: Kind, who: Owner, steps: seq<nat>, log: seq<Sample>, i: nat, fields: seq<string>): string
    requires i < |log| == |steps|
  {
    if fields == [] then ""
    else Row(kind, who, steps, log, i, fields[0]) + Rows(kind, who, steps, log, i, fields[1..])
  }

  function Names(log: seq<Sample>): (r: set<string>)
    ensures forall f :: f in r <==> Extent(log, f) > 0
  {
    if log == [] then {} else Names(log[..|log|-1]) + log[|log|-1].Keys
  }

  /** The fields with a row for step i. */
  function Live(kind: Kind, log: seq<Sample>, i: nat): (r: set<string>)
    ensures forall f :: f in r <==> Shown(kind, log, f, i)
  {
    set f | f in Names(log) && Shown(kind, log, f, i)
  }

  /** The rows of steps lo to hi - 1 as they come out when only the first `upto` updates have been made. */
  ghost function Chunk(kind: Kind, who: Owner, steps: seq<nat>, log: seq<Sample>, upto: nat, lo: nat, hi: nat): string
    requires lo <= hi <= upto <= |log| == |steps|
    decreases hi
  {
    if lo == hi then ""
    else
      Chunk(kind, who, steps, log, upto, lo, hi - 1)
      + Rows(kind, who, steps, log, hi - 1, Sorted(Live(kind, log[..upto], hi - 1)))
  }

  lemma NotYetThere(fields: map<string, seq<string>>, log: seq<Sample>, f: string)
    requires Holds(fields, log)
    ensures (if f in fields then fields[f] else []) == Column(log, f)
    ensures f !in fields ==> Holds(fields[f := []], log)
  {}

  /** The live fields among those still to be visited. */
  function Still(live: set<string>, rest: set<string>): set<string> { live * rest }

  lemma NextKey(live: set<string>, rest: set<string>, d: string)
    requires IsFirst(d, rest)
    ensures d !in live ==> Still(live, rest) == Still(live, rest - {d})
    ensures d in live ==> Sorted(Still(live, rest)) == [d] + Sorted(Still(live, rest - {d}))
  {
    if d in live {
      assert IsFirst(d, live * rest);
      SortedFrom(d, live * rest);
      assert live * rest - {d} == live * (rest - {d});
    }
  }

  lemma FirstRow(kind: Kind, who: Owner, steps: seq<nat>, log: seq<Sample>, i: nat, d: string, fields: seq<string>)
    requires i < |log| == |steps|
    ensures Rows(kind, who, steps, log, i, [d] + fields) ==
        Row(kind, who, steps, log, i, d) + Rows(kind, who, steps, log, i, fields)
  {
    assert ([d] + fields)[1..] == fields;
  }

  lemma NoRows(kind: Kind, who: Owner, steps: seq<nat>, log: seq<Sample>, i: nat, live: set<string>)
    requires i < |log| == |steps|
    ensures Rows(kind, who, steps, log, i, Sorted(Still(live, {}))) == ""
  {
    assert live * {} == {};
  }

  lemma RowAppended(kind: Kind, who: Owner, steps: seq<nat>, log: seq<Sample>, i: nat, live: set<string>,
                    rest: set<string>, d: string, text: string)
    requires i < |log| == |steps| && IsFirst(d, rest)
    ensures var row := if d in live then Row(kind, who, steps, log, i, d) else "";
      text + Rows(kind, who, steps, log, i, Sorted(Still(live, rest)))
      == text + row + Rows(kind, who, steps, log, i, Sorted(Still(live, rest - {d})))
  {
    hide *;
    NextKey(live, rest, d);
    var fields := Sorted(Still(live, rest - {d}));
    FirstRow(kind, who, steps, log, i, d, fields);
    Text.Regroup(text, if d in live then Row(kind, who, steps, log, i, d) else "",
        Rows(kind, who, steps, log, i, fields));
  }

  /** The loop of updateFields and extractFields. The order in which it visits the fields does not matter. */
  method AddFields(fields: map<string, seq<string>>, n: nat, s: Sample, ghost log: seq<Sample>)
    returns (r: map<string, seq<string>>)
    requires n == |log| && Holds(fields, log)
    ensures Holds(r, log + [s])
  {
    r := fields;
    var rest := s.Keys;
    assert Adding(r, log, s, rest);
    hide *;
    while rest != {}
      invariant rest <= s.Keys && Adding(r, log, s, rest)
    {
      var f := AnyOf(rest);
      r := AddField(r, n, s, f, rest, log);
      rest := rest - {f};
    }
    AllAdded(r, log, s);
  }

  method AddField(fields: map<string, seq<string>>, n: nat, s: Sample, f: string, ghost rest: set<string>,
                  ghost log: seq<Sample>)
    returns (r: map<string, seq<string>>)
    requires n == |log| && f in rest && f in s && Adding(fields, log, s, rest)
    ensures Adding(r, log, s, rest - {f})
  {
    r := fields;
    if f !in r {
      r := r[f := []];
    }
    assert r[f] == Column(log, f);
    hide *;
    var column := PushPadded(r[f], n, s[f]);
    r := r[f := column];
    ColumnGrows(log, s, f);
    AddOneField(fields, r, log, s, rest, f);
  }

  /** The total_time vector, looked up with operator[], which adds the key if it is missing. */
  method Totals(fields: map<string, seq<string>>, ghost log: seq<Sample>)
    returns (total: seq<string>, r: map<string, seq<string>>)
    requires Holds(fields, log)
    ensures Holds(r, log) && fields.Keys <= r.Keys && total == Column(log, TOTAL)
  {
    NotYetThere(fields, log, TOTAL);
    hide Holds, Column, Extent;
    r := fields;
    if TOTAL !in r {
      r := r[TOTAL := []];
    }
    total := r[TOTAL];
  }

  lemma ShownFrom(kind: Kind, log: seq<Sample>, f: string, i: nat)
    requires i < |log|
    ensures var column, total := Column(log, f), Column(log, TOTAL);
      && (Shown(kind, log, f, i) <==> i < |column| && (kind == HWT ==> 1 <= i < |total|))
      && (Shown(kind, log, f, i) && kind == LWP ==> ShownValue(kind, log, f, i) == column[i])
      && (Shown(kind, log, f, i) && kind == HWT ==>
            ShownValue(kind, log, f, i) == CpuTime.StrPercentage(column[i], column[i-1], total[i], total[i-1]))
  {
    hide CpuTime.StrPercentage, Extent;
  }

  /** One turn of the inner loop of fieldsToCSV. A vector that is too short throws, and the field is skipped. */
  method FieldRow(kind: Kind, who: Owner, fields: map<string, seq<string>>, steps: seq<nat>, i: nat, f: string,
                  ghost log: seq<Sample>)
    returns (shown: bool, row: string, r: map<string, seq<string>>)
    requires i < |steps| == |log| && f in fields && Holds(fields, log)
    ensures Holds(r, log) && fields.Keys <= r.Keys
    ensures shown <==> Shown(kind, log, f, i)
    ensures row == if shown then Row(kind, who, steps, log, i, f) else ""
  {
    var column := fields[f];
    assert column == Column(log, f);
    ShownFrom(kind, log, f, i);
    assert Shown(kind, log, f, i) ==>
        Row(kind, who, steps, log, i, f) == RowText(kind, who, steps[i], f, ShownValue(kind, log, f, i));
    hide *;
    shown, row, r := false, "", fields;
    if i >= |column| { return; }
    var value := column[i];
    if kind == HWT {
      var total;
      total, r := Totals(r, log);
      if i >= |total| || i == 0 { return; }
      value := CpuTime.StrPercentage(value, column[i-1], total[i], total[i-1]);
    }
    shown, row := true, RowText(kind, who, steps[i], f, value);
  }

  method StepToCSV(kind: Kind, who: Owner, fields: map<string, seq<string>>, steps: seq<nat>, i: nat,
                   ghost log: seq<Sample>)
    returns (text: string, r: map<string, seq<string>>)
    requires i < |steps| == |log| && Holds(fields, log)
    ensures Holds(r, log)
    ensures text == Rows(kind, who, steps, log, i, Sorted(Live(kind, log, i)))
  {
    text, r := "", fields;
    var rest := fields.Keys;
    ghost var live := Live(kind, log, i);
    assert Still(live, rest) == live;
    ghost var tail := Rows(kind, who, steps, log, i, Sorted(live));
    NoRows(kind, who, steps, log, i, live);
    hide *;
    while rest != {}
      invariant Holds(r, log) && rest <= r.Keys
      invariant tail == Rows(kind, who, steps, log, i, Sorted(Still(live, rest)))
      invariant Rows(kind, who, steps, log, i, Sorted(live)) == text + tail
    {
      var d := FirstKey(rest);
      var shown, row;
      shown, row, r := FieldRow(kind, who, r, steps, i, d, log);
      RowAppended(kind, who, steps, log, i, live, rest, d, text);
      rest := rest - {d};
      tail := Rows(kind, who, steps, log, i, Sorted(Still(live, rest)));
      text := text + row;
    }
  }

  class Store {
    const kind: Kind
    const id: nat
    var statFields: map<string, seq<string>>
    var steps: seq<nat>
    ghost var log: seq<Sample>

    ghost predicate Valid()
      reads this
    {
      |steps| == |log| && Holds(statFields, log)
    }

    constructor (kind: Kind, id: nat)
      ensures Valid() && this.kind == kind && this.id == id && log == [] && steps == []
    {
      this.kind, this.id := kind, id;
      statFields, steps, log := map[], [], [];
    }

    /** HWT::updateFields, and LWP::update with extractFields. */
    method UpdateFields(fields: Sample, step: nat)
      requires Valid()
      modifies this
      ensures Valid() && log == old(log) + [fields] && steps == old(steps) + [step]
    {
      statFields := AddFields(statFields, |steps|, fields, log);
      steps := steps + [step];
      log := log + [fields];
      hide Holds;
    }

    /** fieldsToCSV: the rows of the steps from the cursor on, and the cursor's new value. */
    method FieldsToCSV(host: string, rank: nat, shmrank: nat, cursor: nat) returns (text: string, i: nat)
      requires Valid()
      modifies this`statFields
      ensures Valid()
      ensures cursor > |steps| ==> text == "" && i == cursor
      ensures cursor <= |steps| ==> i == |steps|
      ensures cursor <= |steps| ==>
          text == Chunk(kind, Owner(host, rank, shmrank, id), steps, log, |log|, cursor, |log|)
    {
      statFields, text, i := StepsToCSV(kind, Owner(host, rank, shmrank, id), statFields, steps, cursor, log);
      hide *;
    }
  }

  method StepsToCSV(kind: Kind, who: Owner, fields: map<string, seq<string>>, steps: seq<nat>, cursor: nat,
                    ghost log: seq<Sample>)
    returns (r: map<string, seq<string>>, text: string, i: nat)
    requires |steps| == |log| && Holds(fields, log)
    ensures Holds(r, log)
    ensures cursor > |steps| ==> text == "" && i == cursor
    ensures cursor <= |steps| ==> i == |steps|
    ensures cursor <= |steps| ==> text == Chunk(kind, who, steps, log, |log|, cursor, |log|)
  {
    r, text, i := fields, "", cursor;
    while i < |steps|
      invariant Holds(r, log) && cursor <= i && (i <= |steps| || i == cursor)
      invariant if i <= |steps| then text == Chunk(kind, who, steps, log, |log|, cursor, i) else text == ""
    {
      assert log[..|log|] == log;
      hide Rows, Sorted, Live, Holds;
      var rows;
      rows, r := StepToCSV(kind, who, r, steps, i, log);
      text := text + rows;
      i := i + 1;
    }
  }
}
