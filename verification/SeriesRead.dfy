/** Reading the CSV rows of a series back: what a consumer of the file finds in its columns. */
module SeriesRead {
  import CpuTime
  import opened Decimal
  import opened KeyOrder
  import opened Series
  import opened Text

  // ---------------------------------------------------------------------------------------------
  // The consumer: lines, columns between commas, quotes taken off.

  function Columns(line: string): (cols: seq<string>)
    decreases |line|
  {
    var k := Find(line, ',');
    if k < |line| then [line[..k]] + Columns(line[k+1..]) else [line]
  }

  function Unquoted(s: string): string {
    if |s| >= 2 && s[0] == '"' && s[|s|-1] == '"' then s[1..|s|-1] else s
  }

  datatype Record =
    | Record(host: string, rank: Number, shmrank: Number, step: Number, source: string, metric: string, id: Number,
             field: string, value: string)
    | Malformed

  function ReadRecord(line: string): Record {
    ReadColumns(Columns(line))
  }

  function ReadColumns(c: seq<string>): Record {
    if |c| != 9 then Malformed
    else Record(Unquoted(c[0]), Scan(c[1]), Scan(c[2]), Scan(c[3]), Unquoted(c[4]), Unquoted(c[5]),
                Scan(Unquoted(c[6])), Unquoted(c[7]), Unquoted(c[8]))
  }

  function ReadAll(lines: seq<string>): seq<Record> {
    if lines == [] then [] else ReadAll(lines[..|lines|-1]) + [ReadRecord(lines[|lines|-1])]
  }

  function ReadTable(text: string): seq<Record> { ReadAll(Lines(text)) }

  // ---------------------------------------------------------------------------------------------
  // One row.

  /** Columns put together with commas. */
  function Joined(cols: seq<string>): string
    requires cols != []
  {
    if |cols| == 1 then cols[0] else Joined(cols[..|cols|-1]) + "," + cols[|cols|-1]
  }

  lemma JoinedMore(cols: seq<string>, w: string)
    requires cols != []
    ensures Joined(cols + [w]) == Joined(cols) + "," + w
  {
    assert (cols + [w])[..|cols|] == cols;
  }

  lemma ColumnsOf(line: string, k: nat)
    requires k == Find(line, ',')
    ensures Columns(line) == if k < |line| then [line[..k]] + Columns(line[k+1..]) else [line]
  {
    hide Find;
  }

  lemma LastColumn(w: string)
    requires ',' !in w
    ensures Columns(w) == [w]
  {
    FindAfter(w, "", ',');
    assert w + "" == w;
  }

  lemma {:induction false} FindEarlier(a: string, b: string, c: char)
    requires Find(a, c) < |a|
    ensures Find(a + b, c) == Find(a, c)
  {
    if a[0] != c {
      assert (a + b)[1..] == a[1..] + b;
      FindEarlier(a[1..], b, c);
    }
  }

  /** What follows the first column does not touch it. */
  lemma FirstColumn(a: string, w: string, k: nat)
    requires k == Find(a, ',') < |a|
    ensures Columns(a) == [a[..k]] + Columns(a[k+1..])
    ensures Columns(a + "," + w) == [a[..k]] + Columns(a[k+1..] + "," + w)
  {
    hide *;
    var rest := "," + w;
    Regroup(a, ",", w);
    Regroup(a[k+1..], ",", w);
    ColumnsOf(a, k);
    FindEarlier(a, rest, ',');
    Cut(a, rest, k);
    ColumnsOf(a + rest, k);
  }

  lemma TwoColumns(a: string, w: string)
    requires Find(a, ',') == |a| && ',' !in w
    ensures Columns(a + "," + w) == Columns(a) + [w]
  {
    hide *;
    var rest := "," + w;
    Regroup(a, ",", w);
    assert a[..|a|] == a;
    ColumnsOf(a, |a|);
    FindAfter(a, rest, ',');
    ColumnsOf(a + rest, |a|);
    assert (a + rest)[..|a|] == a && (a + rest)[|a|+1..] == w;
    LastColumn(w);
  }

  lemma {:induction false} ColumnsMore(a: string, w: string)
    requires ',' !in w
    ensures Columns(a + "," + w) == Columns(a) + [w]
    decreases |a|
  {
    hide *;
    var k := Find(a, ',');
    if k < |a| {
      ColumnsMore(a[k+1..], w);
      FirstColumn(a, w, k);
      Regroup([a[..k]], Columns(a[k+1..]), [w]);
    } else {
      TwoColumns(a, w);
    }
  }

  lemma {:induction false} ColumnsJoined(cols: seq<string>)
    requires cols != [] && forall i :: 0 <= i < |cols| ==> ',' !in cols[i]
    ensures Columns(Joined(cols)) == cols
  {
    var n := |cols| - 1;
    if n == 0 {
      LastColumn(cols[0]);
    } else {
      ColumnsJoined(cols[..n]);
      assert Joined(cols) == Joined(cols[..n]) + "," + cols[n];
      hide *;
      ColumnsMore(Joined(cols[..n]), cols[n]);
    }
  }

  lemma NineJoined(a: string, b: string, c: string, d: string, e: string, f: string, g: string, h: string, i: string)
    ensures a + "," + b + "," + c + "," + d + "," + e + "," + f + "," + g + "," + h + "," + i ==
      Joined([a, b, c, d, e, f, g, h, i])
  {
    assert Joined([a]) == a;
    hide Joined;
    JoinedMore([a], b);
    JoinedMore([a, b], c);
    JoinedMore([a, b, c], d);
    JoinedMore([a, b, c, d], e);
    JoinedMore([a, b, c, d, e], f);
    JoinedMore([a, b, c, d, e, f], g);
    JoinedMore([a, b, c, d, e, f, g], h);
    JoinedMore([a, b, c, d, e, f, g, h], i);
    assert [a] + [b] == [a, b] && [a, b] + [c] == [a, b, c] && [a, b, c] + [d] == [a, b, c, d];
    assert [a, b, c, d] + [e] == [a, b, c, d, e] && [a, b, c, d, e] + [f] == [a, b, c, d, e, f];
    assert [a, b, c, d, e, f] + [g] == [a, b, c, d, e, f, g];
    assert [a, b, c, d, e, f, g] + [h] == [a, b, c, d, e, f, g, h];
    assert [a, b, c, d, e, f, g, h] + [i] == [a, b, c, d, e, f, g, h, i];
  }

  /** A text that stays in its column. */
  predicate Plain(s: string) { ',' !in s && '\n' !in s }

  lemma QuotedPlain(s: string)
    requires Plain(s)
    ensures Plain(Quoted(s)) && Unquoted(Quoted(s)) == s
  {
  }

  lemma DigitsPlain(n: nat)
    ensures Plain(Digits(n)) && Scan(Digits(n)) == Number(n)
  {
    TextScans(n, "");
    DigitsRead(n);
    assert Digits(n) == IntText(n) && IntText(n) + "" == IntText(n);
    hide Scan, Digits, IntText;
  }

  lemma NamesPlain(kind: Kind)
    ensures Plain(KindName(kind)) && Plain("Metric")
  {
  }

  function RowColumns(kind: Kind, who: Owner, step: nat, field: string, value: string): seq<string> {
    [Quoted(who.host), Digits(who.rank), Digits(who.shmrank), Digits(step), Quoted(KindName(kind)), Quoted("Metric"),
     Quoted(Digits(who.id)), Quoted(field), Quoted(value)]
  }

  lemma NineColumns(a: string, b: string, c: string, d: string, e: string, f: string, g: string, h: string, i: string)
    requires Plain(a) && Plain(b) && Plain(c) && Plain(d) && Plain(e) && Plain(f) && Plain(g) && Plain(h)
    requires Plain(i)
    ensures var cols := [a, b, c, d, e, f, g, h, i];
      && (forall k :: 0 <= k < 9 ==> ',' !in cols[k] && '\n' !in cols[k])
      && ReadColumns(cols) == Record(Unquoted(a), Scan(b), Scan(c), Scan(d), Unquoted(e), Unquoted(f),
                                     Scan(Unquoted(g)), Unquoted(h), Unquoted(i))
  {
    var cols := [a, b, c, d, e, f, g, h, i];
    forall k | 0 <= k < 9 ensures Plain(cols[k]) { hide Plain; }
    hide Unquoted, Scan;
  }

  lemma DigitsColumn(n: nat)
    ensures Plain(Digits(n)) && Plain(Quoted(Digits(n))) && Scan(Digits(n)) == Number(n)
    ensures Unquoted(Quoted(Digits(n))) == Digits(n)
  {
    DigitsPlain(n);
    hide Digits, Scan;
    QuotedPlain(Digits(n));
  }

  lemma ColumnsPlain(kind: Kind, who: Owner, step: nat, field: string, value: string)
    requires Plain(who.host) && Plain(field) && Plain(value)
    ensures var c := RowColumns(kind, who, step, field, value);
      && |c| == 9 && (forall i :: 0 <= i < 9 ==> ',' !in c[i] && '\n' !in c[i])
      && ReadColumns(c) == RecordOf(kind, who, step, field, value)
  {
    assert KindName(kind) == if kind == HWT then "HWT" else "LWP";
    hide Quoted, Digits, Scan, Unquoted, KindName, Plain, ReadColumns;
    QuotedPlain(who.host);
    DigitsColumn(who.rank);
    DigitsColumn(who.shmrank);
    DigitsColumn(step);
    NamesPlain(kind);
    QuotedPlain(KindName(kind));
    QuotedPlain("Metric");
    DigitsColumn(who.id);
    QuotedPlain(field);
    QuotedPlain(value);
    NineColumns(Quoted(who.host), Digits(who.rank), Digits(who.shmrank), Digits(step), Quoted(KindName(kind)),
        Quoted("Metric"), Quoted(Digits(who.id)), Quoted(field), Quoted(value));
  }

  lemma {:induction false} NoBreak(cols: seq<string>)
    requires cols != [] && forall i :: 0 <= i < |cols| ==> '\n' !in cols[i]
    ensures '\n' !in Joined(cols)
  {
    if |cols| > 1 { NoBreak(cols[..|cols|-1]); }
  }

  /** What a row should say. */
  function RecordOf(kind: Kind, who: Owner, step: nat, field: string, value: string): Record {
    Record(who.host, Number(who.rank), Number(who.shmrank), Number(step), if kind == HWT then "HWT" else "LWP",
           "Metric", Number(who.id), field, value)
  }

  // How often c occurs in s.
  function Occurrences(c: char, s: string): nat {
    if s == "" then 0 else Occurrences(c, s[..|s|-1]) + if s[|s|-1] == c then 1 else 0
  }

  lemma {:induction false} OccursConcat(c: char, a: string, b: string)
    ensures Occurrences(c, a + b) == Occurrences(c, a) + Occurrences(c, b)
    decreases |b|
  {
    if b == "" {
      assert a + b == a;
    } else {
      assert (a + b)[..|a + b| - 1] == a + b[..|b|-1];
      OccursConcat(c, a, b[..|b|-1]);
    }
  }

  lemma {:induction false} OccursIn(c: char, s: string)
    ensures Occurrences(c, s) > 0 <==> c in s
  {
    if s != "" {
      OccursIn(c, s[..|s|-1]);
      assert s == s[..|s|-1] + [s[|s|-1]];
    }
  }

  lemma OccursQuoted(c: char, s: string)
    requires c != '"'
    ensures Occurrences(c, Quoted(s)) == Occurrences(c, s)
  {
    OccursConcat(c, "\"" + s, "\"");
    OccursConcat(c, "\"", s);
  }

  lemma {:induction false} OccursJoined(c: char, cols: seq<string>, i: nat)
    requires i < |cols| && c in cols[i]
    ensures Occurrences(c, Joined(cols)) >= (if c == ',' then |cols| else 1)
  {
    OccursIn(c, cols[i]);
    var n := |cols| - 1;
    if n > 0 {
      OccursConcat(c, Joined(cols[..n]) + ",", cols[n]);
      OccursConcat(c, Joined(cols[..n]), ",");
      assert Occurrences(',', ",") == 1 && Joined(cols) == Joined(cols[..n]) + "," + cols[n];
      OccursAtLeast(cols[..n]);
      hide Joined;
      if i < n { OccursJoined(c, cols[..n], i); }
    }
  }

  lemma {:induction false} OccursAtLeast(cols: seq<string>)
    requires cols != []
    ensures Occurrences(',', Joined(cols)) >= |cols| - 1
  {
    var n := |cols| - 1;
    if n > 0 {
      OccursAtLeast(cols[..n]);
      OccursConcat(',', Joined(cols[..n]) + ",", cols[n]);
      OccursConcat(',', Joined(cols[..n]), ",");
      assert Occurrences(',', ",") == 1 && Joined(cols) == Joined(cols[..n]) + "," + cols[n];
    }
  }

  lemma OccursAt(c: char, s: string, k: nat)
    requires k < |s| && s[k] == c && c !in s[..k]
    ensures Occurrences(c, s) == 1 + Occurrences(c, s[k+1..])
  {
    assert s == s[..k] + [c] + s[k+1..];
    assert Occurrences(c, [c]) == 1 by { assert [c][..0] == ""; }
    hide Occurrences;
    OccursIn(c, s[..k]);
    OccursConcat(c, s[..k] + [c], s[k+1..]);
    OccursConcat(c, s[..k], [c]);
  }

  /** As many columns as commas, and one more. */
  lemma {:induction false} ColumnsCount(line: string)
    ensures |Columns(line)| == Occurrences(',', line) + 1
    decreases |line|
  {
    hide *;
    var k := Find(line, ',');
    ColumnsOf(line, k);
    if k < |line| {
      OccursAt(',', line, k);
      ColumnsCount(line[k+1..]);
    } else {
      assert line[..k] == line;
      OccursIn(',', line);
    }
  }

  /** As many lines as line breaks. */
  lemma {:induction false} LinesCount(s: string)
    requires Ended(s)
    ensures |Lines(s)| == Occurrences('\n', s)
    decreases |s|
  {
    assert Lines("") == [] && Occurrences('\n', "") == 0;
    hide *;
    if s != "" {
      FirstLine(s, "");
      OccursAt('\n', s, Find(s, '\n'));
      LinesCount(s[Find(s, '\n')+1..]);
    }
  }

  lemma RowIsJoined(kind: Kind, who: Owner, step: nat, field: string, value: string)
    ensures RowText(kind, who, step, field, value) == Joined(RowColumns(kind, who, step, field, value)) + "\n"
  {
    var c := RowColumns(kind, who, step, field, value);
    hide Joined, Quoted, Digits, KindName;
    NineJoined(c[0], c[1], c[2], c[3], c[4], c[5], c[6], c[7], c[8]);
  }

  /** A row whose host, field or value does not stay in its column is not read as one record. */
  lemma RowMisread(kind: Kind, who: Owner, step: nat, field: string, value: string, i: nat)
    requires i < 9 && !Plain(RowColumns(kind, who, step, field, value)[i])
    ensures ReadTable(RowText(kind, who, step, field, value)) != [RecordOf(kind, who, step, field, value)]
  {
    var c := RowColumns(kind, who, step, field, value);
    assert |c| == 9 && (',' in c[i] || '\n' in c[i]);
    assert RecordOf(kind, who, step, field, value).Record?;
    assert Ended(Joined(c) + "\n");
    hide *;
    RowIsJoined(kind, who, step, field, value);
    OneBreak(Joined(c));
    LinesCount(Joined(c) + "\n");
    ReadAllLength(Lines(Joined(c) + "\n"));
    if '\n' in c[i] {
      OccursJoined('\n', c, i);
      TableLength(Joined(c) + "\n");
    } else if '\n' in Joined(c) {
      OccursIn('\n', Joined(c));
      TableLength(Joined(c) + "\n");
    } else {
      OccursJoined(',', c, i);
      ColumnsCount(Joined(c));
      OneLine(Joined(c));
      OneRecord(Joined(c), Columns(Joined(c)));
      TooManyColumns(Columns(Joined(c)));
      TableOf(Joined(c) + "\n");
    }
  }

  lemma OneBreak(s: string)
    ensures Occurrences('\n', s + "\n") == Occurrences('\n', s) + 1
  {
    OccursConcat('\n', s, "\n");
    assert Occurrences('\n', "\n") == 1;
  }

  lemma {:induction false} ReadAllLength(lines: seq<string>)
    ensures |ReadAll(lines)| == |lines|
  {
    hide ReadRecord;
    if lines != [] { ReadAllLength(lines[..|lines|-1]); }
  }

  lemma TableOf(text: string)
    ensures ReadTable(text) == ReadAll(Lines(text))
  {
  }

  lemma TableLength(text: string)
    ensures |ReadTable(text)| == |Lines(text)|
  {
    ReadAllLength(Lines(text));
  }

  lemma TooManyColumns(c: seq<string>)
    requires |c| != 9
    ensures ReadColumns(c) == Malformed
  {
  }

  /** A row is one line, and a consumer that splits it at its commas finds exactly what it is about. */
  lemma RowReads(kind: Kind, who: Owner, step: nat, field: string, value: string)
    requires Plain(who.host) && Plain(field) && Plain(value)
    ensures ReadTable(RowText(kind, who, step, field, value)) == [RecordOf(kind, who, step, field, value)]
    ensures Ended(RowText(kind, who, step, field, value))
  {
    var c := RowColumns(kind, who, step, field, value);
    assert Ended(Joined(c) + "\n");
    hide *;
    RowIsJoined(kind, who, step, field, value);
    TableOf(Joined(c) + "\n");
    ColumnsPlain(kind, who, step, field, value);
    NoBreak(c);
    ColumnsJoined(c);
    OneLine(Joined(c));
    OneRecord(Joined(c), c);
  }

  lemma OneRecord(line: string, c: seq<string>)
    requires Columns(line) == c
    ensures ReadAll([line]) == [ReadColumns(c)]
  {
    assert [line][..0] == [];
    hide Columns, ReadColumns;
  }

  /** The same exactly: texts that hold a comma or a line break are not escaped, and spoil their row. */
  lemma RowReadsExactly(kind: Kind, who: Owner, step: nat, field: string, value: string)
    ensures ReadTable(RowText(kind, who, step, field, value)) == [RecordOf(kind, who, step, field, value)] <==>
      Plain(who.host) && Plain(field) && Plain(value)
  {
    var c := RowColumns(kind, who, step, field, value);
    assert c[0] == Quoted(who.host) && c[7] == Quoted(field) && c[8] == Quoted(value);
    hide *;
    if Plain(who.host) && Plain(field) && Plain(value) {
      RowReads(kind, who, step, field, value);
    } else if !Plain(who.host) {
      NotPlain(who.host);
      RowMisread(kind, who, step, field, value, 0);
    } else if !Plain(field) {
      NotPlain(field);
      RowMisread(kind, who, step, field, value, 7);
    } else {
      NotPlain(value);
      RowMisread(kind, who, step, field, value, 8);
    }
  }

  /** A software thread whose name has a comma in it: the row has ten columns. */
  lemma CommaInValue(who: Owner, step: nat)
    ensures ReadTable(RowText(LWP, who, step, "name", "a,b")) != [RecordOf(LWP, who, step, "name", "a,b")]
  {
    assert "a,b"[1] == ',' && !Plain("a,b");
    hide *;
    RowReadsExactly(LWP, who, step, "name", "a,b");
  }

  lemma NotPlain(s: string)
    requires !Plain(s)
    ensures !Plain(Quoted(s))
  {
    OccursIn(',', s);
    OccursIn('\n', s);
    OccursIn(',', Quoted(s));
    OccursIn('\n', Quoted(s));
    OccursQuoted(',', s);
    OccursQuoted('\n', s);
  }

  // ---------------------------------------------------------------------------------------------
  // Whole tables.

  lemma {:induction false} ReadAllConcat(a: seq<string>, b: seq<string>)
    ensures ReadAll(a + b) == ReadAll(a) + ReadAll(b)
    decreases |b|
  {
    hide ReadRecord;
    if b == [] {
      assert a + b == a;
    } else {
      assert (a + b)[..|a + b| - 1] == a + b[..|b|-1];
      ReadAllConcat(a, b[..|b|-1]);
    }
  }

  lemma TablesConcat(a: string, b: string)
    requires Ended(a) && Ended(b)
    ensures ReadTable(a + b) == ReadTable(a) + ReadTable(b) && Ended(a + b)
  {
    LinesConcat(a, b);
    ReadAllConcat(Lines(a), Lines(b));
    hide Lines, ReadAll;
  }

  /** The names and values that were recorded can stand in a table. */
  ghost predicate PlainLog(log: seq<Sample>) {
    forall i, f :: 0 <= i < |log| && f in log[i] ==> Plain(f) && Plain(log[i][f])
  }

  /** What the rows of step i should say, field by field. */
  function StepRecords(kind: Kind, who: Owner, steps: seq<nat>, log: seq<Sample>, i: nat, fields: seq<string>)
    : seq<Record>
    requires i < |log| == |steps|
  {
    if fields == [] then []
    else [RecordOf(kind, who, steps[i], fields[0], ShownValue(kind, log, fields[0], i))]
         + StepRecords(kind, who, steps, log, i, fields[1..])
  }

  /** What the rows of steps lo to hi - 1 should say: for each step, every field with a row, in key order. */
  ghost function Records(kind: Kind, who: Owner, steps: seq<nat>, log: seq<Sample>, upto: nat, lo: nat, hi: nat)
    : seq<Record>
    requires lo <= hi <= upto <= |log| == |steps|
    decreases hi
  {
    if lo == hi then []
    else Records(kind, who, steps, log, upto, lo, hi - 1)
         + StepRecords(kind, who, steps, log, hi - 1, Sorted(Live(kind, log[..upto], hi - 1)))
  }

  lemma PercentagePlain(a: string, b: string, c: string, d: string)
    ensures Plain(CpuTime.StrPercentage(a, b, c, d))
  {
    DigitsPlain(CpuTime.Percentage(CpuTime.ToWord(Atol(a)), CpuTime.ToWord(Atol(b)), CpuTime.ToWord(Atol(c)),
        CpuTime.ToWord(Atol(d))));
  }

  lemma ValuePlain(kind: Kind, log: seq<Sample>, f: string, i: nat)
    requires PlainLog(log) && i < |log|
    ensures Plain(ShownValue(kind, log, f, i))
  {
    if kind == LWP || i == 0 {
      assert Plain("0");
    } else {
      hide Plain;
      PercentagePlain(Entry(log, f, i), Entry(log, f, i - 1), Entry(log, TOTAL, i), Entry(log, TOTAL, i - 1));
    }
  }

  lemma {:induction false} RowsRead(kind: Kind, who: Owner, steps: seq<nat>, log: seq<Sample>, i: nat,
                                    fields: seq<string>)
    requires i < |log| == |steps| && Plain(who.host) && PlainLog(log) && forall f :: f in fields ==> Plain(f)
    ensures ReadTable(Rows(kind, who, steps, log, i, fields)) == StepRecords(kind, who, steps, log, i, fields)
    ensures Ended(Rows(kind, who, steps, log, i, fields))
  {
    if fields != [] {
      var f, value := fields[0], ShownValue(kind, log, fields[0], i);
      assert f in fields;
      hide *;
      RowsRead(kind, who, steps, log, i, fields[1..]);
      ValuePlain(kind, log, f, i);
      RowReads(kind, who, steps[i], f, value);
      TablesConcat(RowText(kind, who, steps[i], f, value), Rows(kind, who, steps, log, i, fields[1..]));
      RowsUnfold(kind, who, steps, log, i, fields);
    }
  }

  lemma RowsUnfold(kind: Kind, who: Owner, steps: seq<nat>, log: seq<Sample>, i: nat, fields: seq<string>)
    requires i < |log| == |steps| && fields != []
    ensures var value := ShownValue(kind, log, fields[0], i);
      && Rows(kind, who, steps, log, i, fields) ==
           RowText(kind, who, steps[i], fields[0], value) + Rows(kind, who, steps, log, i, fields[1..])
      && StepRecords(kind, who, steps, log, i, fields) ==
           [RecordOf(kind, who, steps[i], fields[0], value)] + StepRecords(kind, who, steps, log, i, fields[1..])
  {
    hide RowText, RecordOf, ShownValue;
  }

  lemma ShownIsNamed(kind: Kind, log: seq<Sample>, f: string, i: nat)
    requires Shown(kind, log, f, i)
    ensures Extent(log, f) > 0
  {
    hide Extent;
  }

  lemma LivePlain(kind: Kind, log: seq<Sample>, upto: nat, i: nat)
    requires PlainLog(log) && upto <= |log|
    ensures forall f :: f in Sorted(Live(kind, log[..upto], i)) ==> Plain(f)
  {
    hide Sorted, Plain, Shown;
    forall f | Shown(kind, log[..upto], f, i) ensures Plain(f) {
      ShownIsNamed(kind, log[..upto], f, i);
      var n := Extent(log[..upto], f);
      assert f in log[..upto][n-1] && log[..upto][n-1] == log[n-1];
    }
  }

  lemma ChunkUnfold(kind: Kind, who: Owner, steps: seq<nat>, log: seq<Sample>, upto: nat, lo: nat, hi: nat)
    requires lo < hi <= upto <= |log| == |steps|
    ensures var fields := Sorted(Live(kind, log[..upto], hi - 1));
      && Chunk(kind, who, steps, log, upto, lo, hi) ==
           Chunk(kind, who, steps, log, upto, lo, hi - 1) + Rows(kind, who, steps, log, hi - 1, fields)
      && Records(kind, who, steps, log, upto, lo, hi) ==
           Records(kind, who, steps, log, upto, lo, hi - 1) + StepRecords(kind, who, steps, log, hi - 1, fields)
  {
    hide Rows, StepRecords, Sorted, Live;
  }

  lemma NothingRead(kind: Kind, who: Owner, steps: seq<nat>, log: seq<Sample>, upto: nat, lo: nat)
    requires lo <= upto <= |log| == |steps|
    ensures Chunk(kind, who, steps, log, upto, lo, lo) == "" && Records(kind, who, steps, log, upto, lo, lo) == []
    ensures ReadTable("") == [] && Ended("")
  {
  }

  /** What is written for steps lo to hi - 1 after `upto` updates, read back: for each of these steps, one
      record for every field that has a row, in key order, and nothing else. */
  lemma {:induction false} ChunkReads(kind: Kind, who: Owner, steps: seq<nat>, log: seq<Sample>, upto: nat, lo: nat,
                                      hi: nat)
    requires lo <= hi <= upto <= |log| == |steps| && Plain(who.host) && PlainLog(log)
    ensures ReadTable(Chunk(kind, who, steps, log, upto, lo, hi)) == Records(kind, who, steps, log, upto, lo, hi)
    ensures Ended(Chunk(kind, who, steps, log, upto, lo, hi))
    decreases hi
  {
    hide *;
    if lo == hi {
      NothingRead(kind, who, steps, log, upto, lo);
    } else {
      var fields := Sorted(Live(kind, log[..upto], hi - 1));
      var before := Chunk(kind, who, steps, log, upto, lo, hi - 1);
      ChunkUnfold(kind, who, steps, log, upto, lo, hi);
      ChunkReads(kind, who, steps, log, upto, lo, hi - 1);
      LivePlain(kind, log, upto, hi - 1);
      RowsRead(kind, who, steps, log, hi - 1, fields);
      TablesConcat(before, Rows(kind, who, steps, log, hi - 1, fields));
    }
  }

  // ---------------------------------------------------------------------------------------------
  // The values.

  /** A software thread's row shows what the update recorded, or 0. */
  lemma RecordedValue(log: seq<Sample>, f: string, i: nat)
    requires i < |log|
    ensures ShownValue(LWP, log, f, i) == if f in log[i] then log[i][f] else "0"
  {
  }

  /** A hardware thread's row shows which percentage of the time since the last update went to the field. */
  lemma PercentageValue(log: seq<Sample>, f: string, i: nat, a: nat, b: nat, c: nat, d: nat)
    requires 0 < i < |log| && b <= a < CpuTime.WORD && d < c < CpuTime.WORD && (a - b) * 100 < CpuTime.WORD
    requires Entry(log, f, i) == Digits(a) && Entry(log, f, i - 1) == Digits(b)
    requires Entry(log, TOTAL, i) == CpuTime.DoubleText(c) && Entry(log, TOTAL, i - 1) == CpuTime.DoubleText(d)
    ensures ShownValue(HWT, log, f, i) == Digits(CpuTime.Percent(a - b, c - d))
  {
    CpuTime.PercentageOfText(a, b, c, d);
    CpuTime.PercentageExact(a, b, c, d);
    CpuTime.Wraps(c);
    CpuTime.Wraps(d);
    hide CpuTime.StrPercentage, CpuTime.Percentage, Digits, CpuTime.DoubleText, Entry;
  }

  /** When two updates in a row bring what was stored for two lines of a hardware thread, the row of a component
      shows its share, to which SampleShares applies. */
  lemma ComponentValue(log: seq<Sample>, k: nat, prev: CpuTime.Fields, next: CpuTime.Fields, i: nat)
    requires 0 < k < |log| && log[k-1] == CpuTime.Stored(prev) && log[k] == CpuTime.Stored(next) && i < 10
    requires CpuTime.Consistent(prev) && CpuTime.Consistent(next)
    ensures Shown(HWT, log, CpuTime.COMPONENTS[i], k)
    ensures ShownValue(HWT, log, CpuTime.COMPONENTS[i], k) == Digits(CpuTime.Shown(prev, next)[i])
  {
    CpuTime.StoredShown(prev, next, i);
    hide CpuTime.StrPercentage, CpuTime.Shown, CpuTime.Stored, CpuTime.Consistent, Digits;
    var f := CpuTime.COMPONENTS[i];
    assert f in log[k] && TOTAL in log[k];
  }
}
