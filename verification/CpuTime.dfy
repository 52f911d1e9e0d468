/** CPU-time accounting: the arithmetic of parseProcStat in src/utils.cpp, and strPercentage in src/hardware.h. */
module CpuTime {
  import opened Collections
  import opened Decimal
  import opened Text

  /** An unsigned int holds 32 bits. */
  const WORD := 0x1_0000_0000

  /** Conversion to unsigned int, and the multiple of 2^32 that it drops. */
  function ToWord(x: int): nat { x % 0x1_0000_0000 }

  function Carry(x: int): int { x / 0x1_0000_0000 }

  /** Subtraction of unsigned ints. */
  function Minus(a: int, b: int): nat { ToWord(a - b) }

  lemma Wraps(x: int)
    ensures x == ToWord(x) + Carry(x) * 0x1_0000_0000 && ToWord(x) < 0x1_0000_0000
    ensures 0 <= x < 0x1_0000_0000 ==> ToWord(x) == x && Carry(x) == 0
    ensures -0x1_0000_0000 <= x < 0 ==> Carry(x) == -1
  {}

  /** The tokens of one cpu line as unsigned ints. Indices 1 to 10 are user, nice, system, idle, iowait,
      irq, softirq, steal, guest and guest_nice. */
  predicate CpuLine(v: seq<nat>) { |v| >= 11 && forall i :: 0 <= i < |v| ==> v[i] < WORD }

  /** The numbers stored for one line. */
  datatype Fields = Fields(user: nat, nice: nat, system: nat, systemAll: nat, idle: nat, idleAll: nat, iowait: nat,
                           irq: nat, softirq: nat, steal: nat, guest: nat, virtAll: nat, guestNice: nat, total: nat)

  /** Guest time is taken out of user and nice time, in 32-bit arithmetic. */
  function Corrected(v: seq<nat>): (w: seq<nat>)
    requires CpuLine(v)
    ensures CpuLine(w) && |w| == |v|
  {
    v[1 := Minus(v[1], v[9])][2 := Minus(v[2], v[10])]
  }

  /** Sums of unsigned ints wrap; the last sum is of doubles, which hold these values exactly. */
  function FieldsOf(w: seq<nat>): Fields
    requires CpuLine(w)
  {
    var systemAll := ToWord(w[3] + w[6] + w[7]);
    var idleAll := ToWord(w[4] + w[5]);
    var virtAll := ToWord(w[9] + w[10]);
    Fields(w[1], w[2], w[3], systemAll, w[4], idleAll, w[5], w[6], w[7], w[8], w[9], virtAll, w[10],
           ToWord(w[1] + w[2]) + systemAll + idleAll + w[8] + virtAll)
  }

  /** The ten disjoint components. */
  function Parts(f: Fields): (p: seq<nat>)
    ensures |p| == 10
  {
    [f.user, f.nice, f.system, f.idle, f.iowait, f.irq, f.softirq, f.steal, f.guest, f.guestNice]
  }

  /** The components are 32-bit numbers, and the sums are sums of components, as 32 bits keep them. */
  ghost predicate Consistent(f: Fields) {
    && f.user < WORD && f.nice < WORD && f.system < WORD && f.idle < WORD && f.iowait < WORD && f.irq < WORD
    && f.softirq < WORD && f.steal < WORD && f.guest < WORD && f.guestNice < WORD
    && f.systemAll == ToWord(f.system + f.irq + f.softirq) && f.idleAll == ToWord(f.idle + f.iowait)
    && f.virtAll == ToWord(f.guest + f.guestNice)
    && f.total == ToWord(f.user + f.nice) + f.systemAll + f.idleAll + f.steal + f.virtAll
  }

  /** The counters as read, in terms of what is stored: user and nice time as read are what is stored of
      them together with their own guest time; the other counters are stored as they are. */
  ghost predicate Accounts(v: seq<nat>, f: Fields)
    requires CpuLine(v)
  {
    && Consistent(f)
    && v[1] == ToWord(f.user + f.guest) && v[2] == ToWord(f.nice + f.guestNice)
    && v[3] == f.system && v[4] == f.idle && v[5] == f.iowait && v[6] == f.irq && v[7] == f.softirq
    && v[8] == f.steal && v[9] == f.guest && v[10] == f.guestNice
  }

  lemma MinusBack(a: nat, b: nat)
    requires a < WORD
    ensures Minus(a, b) < WORD && ToWord(Minus(a, b) + b) == a
  {
    Wraps(a - b);
    Wraps(a);
    WrapsAdd(a - b, b);
  }

  lemma CorrectedAt(v: seq<nat>)
    requires CpuLine(v)
    ensures var w := Corrected(v);
      && CpuLine(w) && w[1] == Minus(v[1], v[9]) && w[2] == Minus(v[2], v[10])
      && w[3] == v[3] && w[4] == v[4] && w[5] == v[5] && w[6] == v[6] && w[7] == v[7] && w[8] == v[8]
      && w[9] == v[9] && w[10] == v[10]
  {
    hide Minus;
  }

  lemma LineBelow(v: seq<nat>)
    requires CpuLine(v)
    ensures |v| >= 11 && v[1] < WORD && v[2] < WORD && v[3] < WORD && v[4] < WORD && v[5] < WORD && v[6] < WORD
    ensures v[7] < WORD && v[8] < WORD && v[9] < WORD && v[10] < WORD
  {
  }

  lemma FieldsAccount(v: seq<nat>)
    requires CpuLine(v)
    ensures Accounts(v, FieldsOf(Corrected(v)))
  {
    hide ToWord, Minus, Corrected, CpuLine;
    CorrectedAt(v);
    LineBelow(v);
    LineBelow(Corrected(v));
    MinusBack(v[1], v[9]);
    MinusBack(v[2], v[10]);
  }

  /** The sums, which wrap. */
  method SumUp(v: array<nat>) returns (f: Fields)
    requires CpuLine(v[..])
    ensures f == FieldsOf(v[..])
  {
    hide ToWord;
    var idleAllTime := ToWord(v[4] + v[5]);
    var systemAllTime := ToWord(v[3] + v[6] + v[7]);
    var virtAllTime := ToWord(v[9] + v[10]);
    var totalTime := ToWord(v[1] + v[2]) + systemAllTime + idleAllTime + v[8] + virtAllTime;
    f := Fields(v[1], v[2], v[3], systemAllTime, v[4], idleAllTime, v[5], v[6], v[7], v[8], v[9], virtAllTime,
        v[10], totalTime);
  }

  method Account(v: array<nat>) returns (f: Fields)
    requires CpuLine(v[..])
    modifies v
    ensures v[..] == Corrected(old(v[..])) && f == FieldsOf(v[..])
    ensures Accounts(old(v[..]), f)
  {
    FieldsAccount(v[..]);
    hide ToWord, Minus, Accounts, FieldsOf;
    v[1] := Minus(v[1], v[9]);
    v[2] := Minus(v[2], v[10]);
    f := SumUp(v);
  }

  // ---------------------------------------------------------------------------------------------
  // The total.

  /** user + nice + system + idle + iowait + irq + softirq + steal, as read. */
  function RawTotal(v: seq<nat>): nat
    requires CpuLine(v)
  {
    v[1] + v[2] + v[3] + v[4] + v[5] + v[6] + v[7] + v[8]
  }

  /** How often the partial sums wrap, counting a wrap below zero as -1. */
  function Carries(v: seq<nat>): int
    requires CpuLine(v)
  {
    var user: int, nice: int := v[1], v[2];
    Carry(user - v[9] + nice - v[10]) + Carry(v[9] + v[10]) + Carry(v[3] + v[6] + v[7]) + Carry(v[4] + v[5])
  }

  lemma WrapsAdd(a: int, b: int)
    ensures ToWord(ToWord(a) + ToWord(b)) == ToWord(a + b) == ToWord(ToWord(a) + b)
  {}

  lemma TotalOf(v: seq<nat>)
    requires CpuLine(v)
    ensures FieldsOf(Corrected(v)).total
         == TotalFrom(Minus(v[1], v[9]), Minus(v[2], v[10]), v[3] + v[6] + v[7], v[4] + v[5], v[8], v[9] + v[10])
  {
    hide Minus, ToWord;
  }

  /** The guest corrections cancel: the total is the sum of the eight raw counters, up to whole wraps. */
  lemma GuestsCancel(v: seq<nat>)
    requires CpuLine(v)
    ensures FieldsOf(Corrected(v)).total == RawTotal(v) - Carries(v) * 0x1_0000_0000
    ensures FieldsOf(Corrected(v)).total == RawTotal(v) <==> Carries(v) == 0
  {
    hide FieldsOf, Corrected, ToWord, Carry, Minus, TotalFrom;
    TotalOf(v);
    Cancel(v[1], v[2], v[9], v[10], v[3] + v[6] + v[7], v[4] + v[5], v[8]);
  }

  function TotalFrom(user: int, nice: int, system: int, idle: int, steal: int, virt: int): int {
    ToWord(user + nice) + ToWord(system) + ToWord(idle) + steal + ToWord(virt)
  }

  lemma Cancel(user: int, nice: int, guest: int, guestNice: int, system: int, idle: int, steal: int)
    ensures TotalFrom(Minus(user, guest), Minus(nice, guestNice), system, idle, steal, guest + guestNice)
         == user + nice + system + idle + steal
            - (Carry(user - guest + nice - guestNice) + Carry(guest + guestNice) + Carry(system) +
                Carry(idle)) * 0x1_0000_0000
  {
    WrapsAdd(user - guest, nice - guestNice);
    Wraps(user - guest + nice - guestNice);
    Wraps(guest + guestNice);
    Wraps(system);
    Wraps(idle);
    hide ToWord, Carry;
  }

  /** In particular when guest time is part of user and nice time and the partial sums fit; while guest
      time runs ahead of user time, the total is 2^32 too large. */
  lemma GuestsCancelUnlessAhead(v: seq<nat>)
    requires CpuLine(v)
    requires v[1] + v[2] < WORD && v[9] + v[10] < WORD && v[3] + v[6] + v[7] < WORD && v[4] + v[5] < WORD
    ensures FieldsOf(Corrected(v)).total == RawTotal(v) + if v[9] + v[10] <= v[1] + v[2] then 0 else WORD
  {
    GuestsCancel(v);
    hide Corrected, FieldsOf, RawTotal;
    var user: int, nice: int := v[1], v[2];
    Wraps(user - v[9] + nice - v[10]);
    Wraps(v[9] + v[10]);
    Wraps(v[3] + v[6] + v[7]);
    Wraps(v[4] + v[5]);
    assert Carries(v) == if v[9] + v[10] <= v[1] + v[2] then 0 else -1 by { hide Carry, ToWord; }
    hide *;
  }

  /** Guest time two ticks ahead of user time: the total is 2^32 too large. */
  lemma GuestAhead()
    ensures var v := [0, 5, 0, 0, 0, 0, 0, 0, 0, 7, 0];
      CpuLine(v) && RawTotal(v) == 5 && FieldsOf(Corrected(v)).total == 5 + WORD
  {
    var v := [0, 5, 0, 0, 0, 0, 0, 0, 0, 7, 0];
    assert CpuLine(v) && RawTotal(v) == 5 && v[1] == 5 && v[9] == 7;
    assert v[2] == v[3] == v[4] == v[5] == v[6] == v[7] == v[8] == v[10] == 0;
    hide *;
    GuestsCancelUnlessAhead(v);
  }

  // ---------------------------------------------------------------------------------------------
  // Percentages.

  function Percentage(a: nat, b: nat, c: nat, d: nat): nat {
    var result := if a > b then a - b else 0;
    var total := if c > d then c - d else 0;
    if total > 0 then ToWord(result * 100) / total else 0
  }

  function StrPercentage(lhs: string, rhs: string, totalLhs: string, totalRhs: string): string {
    Digits(Percentage(ToWord(Atol(lhs)), ToWord(Atol(rhs)), ToWord(Atol(totalLhs)), ToWord(Atol(totalRhs))))
  }

  /** std::to_string of a double with an integer value. */
  function DoubleText(n: nat): string { Digits(n) + ".000000" }

  lemma AtolOf(s: string, n: nat)
    requires Scan(s) == Number(n) && n <= LONG_MAX
    ensures Atol(s) == n
  {
    hide Scan;
  }

  lemma AtolOfText(n: nat)
    requires n <= LONG_MAX
    ensures Atol(Digits(n)) == n && Atol(DoubleText(n)) == n
  {
    assert Digits(n) == IntText(n) && IntText(n) + "" == IntText(n);
    assert DoubleText(n) == IntText(n) + ".000000" && !IsDigit(".000000"[0]);
    hide *;
    TextScans(n, "");
    TextScans(n, ".000000");
    AtolOf(Digits(n), n);
    AtolOf(DoubleText(n), n);
  }

  /** The text in which parseProcStat stores the numbers does not change the percentage. */
  lemma PercentageOfText(a: nat, b: nat, c: nat, d: nat)
    requires a < WORD && b < WORD && c <= LONG_MAX && d <= LONG_MAX
    ensures StrPercentage(Digits(a), Digits(b), DoubleText(c), DoubleText(d)) ==
      Digits(Percentage(a, b, ToWord(c), ToWord(d)))
  {
    Wraps(a);
    Wraps(b);
    hide ToWord, Atol, Digits, Percentage, DoubleText;
    AtolOfText(a); AtolOfText(b); AtolOfText(c); AtolOfText(d);
  }

  lemma MulMono(t: nat, x: int, y: int)
    ensures x <= y ==> t * x <= t * y
  {}

  lemma DivRange(x: int, t: nat)
    requires t > 0
    ensures t * (x / t) <= x <= t * (x / t) + (t - 1)
  {}

  lemma DivLess(a: int, b: int, t: nat)
    requires t > 0 && a + t <= b
    ensures a / t < b / t
  {
    DivRange(a, t);
    DivRange(b, t);
    MulMono(t, b / t, a / t);
  }

  /** The percentage is the floor of 100 (a - b) / (c - d) exactly when 100 (a - b) fits 32 bits; otherwise
      it is less. */
  lemma PercentageExact(a: nat, b: nat, c: nat, d: nat)
    requires b <= a < WORD && d < c < WORD
    ensures Percentage(a, b, c, d) == (a - b) * 100 / (c - d) <==> (a - b) * 100 < WORD
    ensures Percentage(a, b, c, d) <= (a - b) * 100 / (c - d)
  {
    var x, t := (a - b) * 100, c - d;
    assert Percentage(a, b, c, d) == ToWord(x) / t;
    Wraps(x);
    hide ToWord, Carry, Percentage;
    if x >= WORD { DivLess(ToWord(x), x, t); }
  }

  /** A whole of 42949673 ticks is shown as 0 percent of itself: 100 times it is 2^32 and a little. */
  lemma WrappedShare()
    ensures Percentage(42949673, 0, 42949673, 0) == 0
  {
    assert ToWord(42949673 * 100) == 4;
    hide ToWord;
  }

  lemma TotalAdds(f: Fields)
    requires Consistent(f)
    requires
      f.user + f.nice + f.system + f.idle + f.iowait + f.irq + f.softirq + f.steal + f.guest + f.guestNice < WORD
    ensures f.total ==
      f.user + f.nice + f.system + f.idle + f.iowait + f.irq + f.softirq + f.steal + f.guest + f.guestNice
  {
    hide ToWord, Carry;
    Wraps(f.user + f.nice);
    Wraps(f.system + f.irq + f.softirq);
    Wraps(f.idle + f.iowait);
    Wraps(f.guest + f.guestNice);
  }

  lemma PartsSum(f: Fields)
    requires Consistent(f) && Sum(Parts(f)) < WORD
    ensures f.total == Sum(Parts(f))
  {
    hide Sum, Consistent;
    SumOfTen(Parts(f));
    TotalAdds(f);
  }

  lemma SumOfTen(p: seq<nat>)
    requires |p| == 10
    ensures Sum(p) == p[0] + p[1] + p[2] + p[3] + p[4] + p[5] + p[6] + p[7] + p[8] + p[9]
  {
    var q := p[..5];
    assert Sum(q) == p[0] + p[1] + p[2] + p[3] + p[4] by { SumOfFive(q); }
    assert p[..9][..8] == p[..8] && p[..8][..7] == p[..7] && p[..7][..6] == p[..6] && p[..6][..5] == q;
    assert Sum(p[..6]) == Sum(q) + p[5] && Sum(p[..7]) == Sum(p[..6]) + p[6] && Sum(p[..8]) == Sum(p[..7]) + p[7];
    assert Sum(p[..9]) == Sum(p[..8]) + p[8];
  }

  lemma SumOfFive(p: seq<nat>)
    requires |p| == 5
    ensures Sum(p) == p[0] + p[1] + p[2] + p[3] + p[4]
  {
    assert p[..4][..3] == p[..3] && p[..3][..2] == p[..2] && p[..2][..1] == p[..1] && p[..1][..0] == [];
    assert Sum(p[..1]) == p[0] && Sum(p[..2]) == Sum(p[..1]) + p[1] && Sum(p[..3]) == Sum(p[..2]) + p[2];
    assert Sum(p[..4]) == Sum(p[..3]) + p[3];
  }

  /** The floor of 100 d / t. */
  function Percent(d: nat, t: nat): nat
    requires t > 0
  {
    d * 100 / t
  }

  /** The floored percentages of these amounts. */
  function Percents(ds: seq<nat>, t: nat): seq<nat>
    requires t > 0
  {
    seq(|ds|, i requires 0 <= i < |ds| => Percent(ds[i], t))
  }

  lemma AddOne(t: nat, s: nat, q: nat, k: nat)
    ensures t * (s + q) == t * s + t * q && (k + 1) * (t - 1) == k * (t - 1) + (t - 1)
  {}

  lemma PercentsGrow(ds: seq<nat>, t: nat)
    requires t > 0 && ds != []
    ensures Sum(Percents(ds, t)) == Sum(Percents(ds[..|ds|-1], t)) + Percent(ds[|ds|-1], t)
  {
    assert Percents(ds, t)[..|ds|-1] == Percents(ds[..|ds|-1], t);
  }

  /** Rounding down n parts of a whole loses less than n percent in all. */
  lemma {:induction false} FloorsLose(ds: seq<nat>, t: nat)
    requires t > 0
    ensures t * Sum(Percents(ds, t)) <= 100 * Sum(ds) <= t * Sum(Percents(ds, t)) + |ds| * (t - 1)
  {
    if ds != [] {
      var k := |ds| - 1;
      FloorsLose(ds[..k], t);
      PercentsGrow(ds, t);
      assert Sum(ds) == Sum(ds[..k]) + ds[k];
      hide *;
      DivRange(ds[k] * 100, t);
      AddOne(t, Sum(Percents(ds[..k], t)), ds[k] * 100 / t, k);
    }
  }

  /** Of n parts that make up a whole, the floored percentages add up to more than 100 - n and at most 100. */
  lemma FloorsOfWhole(ds: seq<nat>)
    requires Sum(ds) > 0
    ensures 100 - |ds| < Sum(Percents(ds, Sum(ds))) <= 100
  {
    assert |ds| > 0;
    var t := Sum(ds);
    var s := Sum(Percents(ds, t));
    FloorsLose(ds, t);
    hide *;
    Between(t, s, |ds|);
  }

  lemma Between(t: nat, s: nat, n: nat)
    requires t > 0 && t * s <= 100 * t <= t * s + n * (t - 1)
    ensures s <= 100 && (n > 0 ==> 100 - n < s)
  {
    MulMono(t, 101, s);
    MulMono(t, s, 100 - n);
    assert t * (100 - n) == 100 * t - t * n && n * (t - 1) == t * n - n;
  }

  /** What strPercentage makes of the ten components stored for two lines. */
  function Shown(prev: Fields, next: Fields): (r: seq<nat>)
    ensures |r| == 10
  {
    seq(10, i requires 0 <= i < 10 =>
          Percentage(Parts(next)[i], Parts(prev)[i], ToWord(next.total), ToWord(prev.total)))
  }

  /** A counter that falls counts as one that stays. */
  function Rise(b: nat, a: nat): nat { if a > b then a - b else 0 }

  function Rises(p: seq<nat>, q: seq<nat>): (r: seq<nat>)
    requires |p| == |q|
    ensures |r| == |p|
  {
    seq(|p|, i requires 0 <= i < |p| => Rise(p[i], q[i]))
  }

  lemma {:induction false} RisesAndFalls(p: seq<nat>, q: seq<nat>)
    requires |p| == |q|
    ensures Sum(q) + Sum(Rises(q, p)) == Sum(p) + Sum(Rises(p, q))
  {
    if p != [] {
      var k := |p| - 1;
      RisesAndFalls(p[..k], q[..k]);
      assert Rises(p, q)[..k] == Rises(p[..k], q[..k]) && Rises(q, p)[..k] == Rises(q[..k], p[..k]);
    }
  }

  lemma {:induction false} AtMostSum(xs: seq<nat>, i: nat)
    requires i < |xs|
    ensures xs[i] <= Sum(xs)
  {
    if i < |xs| - 1 { AtMostSum(xs[..|xs|-1], i); }
  }

  lemma {:induction false} SumMono(xs: seq<nat>, ys: seq<nat>)
    requires |xs| == |ys| && forall i :: 0 <= i < |xs| ==> xs[i] <= ys[i]
    ensures Sum(xs) <= Sum(ys)
  {
    if xs != [] { SumMono(xs[..|xs|-1], ys[..|ys|-1]); }
  }

  lemma {:induction false} SumZero(xs: seq<nat>)
    requires forall i :: 0 <= i < |xs| ==> xs[i] == 0
    ensures Sum(xs) == 0
  {
    if xs != [] { SumZero(xs[..|xs|-1]); }
  }

  lemma PercentsAt(ds: seq<nat>, t: nat)
    requires t > 0
    ensures |Percents(ds, t)| == |ds| && forall i :: 0 <= i < |ds| ==> Percents(ds, t)[i] == Percent(ds[i], t)
  {
    hide Percent;
  }

  /** One share: at most 100 exactly when the rise, as 32 bits keep it, is less than 1.01 of the whole. */
  predicate Share(shown: nat, rise: nat, t: nat)
    requires t > 0
  {
    && (shown <= 100 <==> ToWord(rise * 100) < 101 * t)
    && shown <= Percent(rise, t) && (rise * 100 < WORD ==> shown == Percent(rise, t))
  }

  lemma PercentageAtMost(a: nat, b: nat, c: nat, d: nat)
    requires a < WORD && d < c < WORD
    ensures Percentage(a, b, c, d) <= 100 <==> ToWord(Rise(b, a) * 100) < 101 * (c - d)
    ensures Share(Percentage(a, b, c, d), Rise(b, a), c - d)
  {
    var x, t := ToWord(Rise(b, a) * 100), c - d;
    assert Percentage(a, b, c, d) == x / t;
    Wraps(0);
    if a > b { PercentageExact(a, b, c, d); }
    hide ToWord, Percentage;
    DivRange(x, t);
    MulMono(t, x / t, 100);
    MulMono(t, 101, x / t);
  }

  /** The time between two samples as strPercentage sees it. */
  function Passed(prev: Fields, next: Fields): int { ToWord(next.total) - ToWord(prev.total) }

  lemma PassedIs(prev: Fields, next: Fields)
    requires Consistent(prev) && Consistent(next) && Sum(Parts(prev)) < WORD && Sum(Parts(next)) < WORD
    ensures Passed(prev, next) == Sum(Parts(next)) - Sum(Parts(prev))
  {
    PartsSum(prev);
    PartsSum(next);
    Wraps(Sum(Parts(prev)));
    Wraps(Sum(Parts(next)));
    hide Parts, Sum, ToWord, Consistent;
  }

  lemma PartsBelow(f: Fields, i: nat)
    requires Consistent(f) && i < 10
    ensures Parts(f)[i] < WORD
  {
  }

  lemma ShownIs(prev: Fields, next: Fields, i: nat)
    requires i < 10
    ensures Shown(prev, next)[i] == Percentage(Parts(next)[i], Parts(prev)[i], ToWord(next.total), ToWord(prev.total))
    ensures Rises(Parts(prev), Parts(next))[i] == Rise(Parts(prev)[i], Parts(next)[i])
  {
    hide Parts, Percentage, ToWord, Rise;
  }

  lemma NothingPassed(a: nat, b: nat, c: nat, d: nat)
    requires c <= d
    ensures Percentage(a, b, c, d) == 0
  {
    hide ToWord;
  }

  lemma PassedTime(prev: Fields, next: Fields)
    ensures Passed(prev, next) == (ToWord(next.total) as int) - ToWord(prev.total) && ToWord(next.total) < WORD
  {
    Wraps(next.total);
    hide ToWord;
  }

  lemma ShownAt(prev: Fields, next: Fields, i: nat)
    requires Consistent(prev) && Consistent(next) && i < 10
    ensures Passed(prev, next) > 0 ==>
      Share(Shown(prev, next)[i], Rises(Parts(prev), Parts(next))[i], Passed(prev, next))
    ensures Passed(prev, next) <= 0 ==> Shown(prev, next)[i] == 0
  {
    hide *;
    var c, d := ToWord(next.total), ToWord(prev.total);
    PassedTime(prev, next);
    PartsBelow(next, i);
    ShownIs(prev, next, i);
    if c > d {
      PercentageAtMost(Parts(next)[i], Parts(prev)[i], c, d);
    } else {
      NothingPassed(Parts(next)[i], Parts(prev)[i], c, d);
    }
  }

  lemma SharesOf(shown: seq<nat>, up: seq<nat>, t: nat)
    requires |shown| == |up| && t > 0 && forall i :: 0 <= i < |up| ==> Share(shown[i], up[i], t)
    ensures forall i :: 0 <= i < |up| ==> (shown[i] <= 100 <==> ToWord(up[i] * 100) < 101 * t)
    ensures forall i :: 0 <= i < |up| ==> shown[i] <= Percents(up, t)[i]
    ensures (forall i :: 0 <= i < |up| ==> up[i] * 100 < WORD) ==> shown == Percents(up, t)
  {
    hide ToWord, Percent;
  }

  lemma SharesSum(shown: seq<nat>, up: seq<nat>, t: nat)
    requires |shown| == |up| == 10 && t > 0 && forall i :: 0 <= i < 10 ==> Share(shown[i], up[i], t)
    ensures forall i :: 0 <= i < 10 ==> (shown[i] <= 100 <==> ToWord(up[i] * 100) < 101 * t)
    ensures t * Sum(shown) <= 100 * Sum(up)
    ensures (forall i :: 0 <= i < 10 ==> up[i] * 100 < WORD) ==> 100 * Sum(up) < t * (Sum(shown) + 10)
  {
    hide *;
    SharesOf(shown, up, t);
    PercentsAt(up, t);
    SumMono(shown, Percents(up, t));
    FloorsLose(up, t);
    SumsBetween(t, Sum(shown), Sum(Percents(up, t)), Sum(up));
  }

  lemma SumsBetween(t: nat, s: nat, e: nat, up: nat)
    requires t > 0 && s <= e && t * e <= 100 * up <= t * e + 10 * (t - 1)
    ensures t * s <= 100 * up && 100 * up < t * (e + 10)
  {
    MulMono(t, s, e);
    assert t * (e + 10) == t * e + 10 * t;
  }

  /** Any two samples of one CPU. If time has passed, a percentage is at most 100 exactly when 100 times the
      component's rise, as 32 bits keep it, is less than 101 times that time; and the sum of the ten is what
      the rises make of it, less the rounding of ten parts, unless a product with 100 wraps. With totals
      within 32 bits the rises are the time passed and what other components fall by. */
  lemma SampleShares(prev: Fields, next: Fields)
    requires Consistent(prev) && Consistent(next)
    ensures var p, q, t, shown := Parts(prev), Parts(next), Passed(prev, next), Shown(prev, next);
      var up := Rises(p, q);
      && (t <= 0 ==> forall i :: 0 <= i < 10 ==> shown[i] == 0)
      && (t > 0 ==> forall i :: 0 <= i < 10 ==> (shown[i] <= 100 <==> ToWord(up[i] * 100) < 101 * t))
      && (t > 0 ==> t * Sum(shown) <= 100 * Sum(up))
      && (t > 0 && (forall i :: 0 <= i < 10 ==> up[i] * 100 < WORD) ==> 100 * Sum(up) < t * (Sum(shown) + 10))
      && (Sum(p) < WORD && Sum(q) < WORD ==> t == Sum(q) - Sum(p) && Sum(up) == t + Sum(Rises(q, p)))
  {
    hide *;
    var p, q, t := Parts(prev), Parts(next), Passed(prev, next);
    RisesAndFalls(p, q);
    if Sum(p) < WORD && Sum(q) < WORD { PassedIs(prev, next); }
    forall i | 0 <= i < 10
      ensures t > 0 ==> Share(Shown(prev, next)[i], Rises(p, q)[i], t)
      ensures t <= 0 ==> Shown(prev, next)[i] == 0
    {
      ShownAt(prev, next, i);
    }
    if t > 0 { SharesSum(Shown(prev, next), Rises(p, q), t); }
  }

  lemma NoFall(p: seq<nat>, q: seq<nat>)
    requires |p| == |q| && forall i :: 0 <= i < |p| ==> p[i] <= q[i]
    ensures Sum(Rises(q, p)) == 0 && forall i :: 0 <= i < |p| ==> Rises(p, q)[i] == q[i] - p[i]
  {
    SumZero(Rises(q, p));
  }

  lemma KeepsAtMost(x: nat)
    ensures ToWord(x) <= x
  {
  }

  /** In particular, if no component falls: every percentage is at most 100, and so is the sum of the ten;
      it is at least 91 unless one of the products with 100 wraps. */
  lemma SamplePercentages(prev: Fields, next: Fields)
    requires Consistent(prev) && Consistent(next)
    requires forall i :: 0 <= i < 10 ==> Parts(prev)[i] <= Parts(next)[i]
    requires Sum(Parts(prev)) < Sum(Parts(next)) < WORD
    ensures forall i :: 0 <= i < 10 ==> Shown(prev, next)[i] <= 100
    ensures Sum(Shown(prev, next)) <= 100
    ensures (forall i :: 0 <= i < 10 ==> (Parts(next)[i] - Parts(prev)[i]) * 100 < WORD) ==>
        91 <= Sum(Shown(prev, next))
  {
    hide *;
    var p, q := Parts(prev), Parts(next);
    var t, s := Sum(q) - Sum(p), Sum(Shown(prev, next));
    SampleShares(prev, next);
    NoFall(p, q);
    forall i | 0 <= i < 10 ensures ToWord(Rises(p, q)[i] * 100) < 101 * t {
      AtMostSum(Rises(p, q), i);
      KeepsAtMost(Rises(p, q)[i] * 100);
    }
    MulMono(t, 101, s);
    MulMono(t, s, 90);
    assert t * (s + 10) == t * s + 10 * t;
  }

  /** A line with user time and time waiting for I/O only. */
  function WaitLine(user: nat, iowait: nat): seq<nat> { [0, user, 0, 0, 0, iowait, 0, 0, 0, 0, 0] }

  lemma WaitLineIs(user: nat, iowait: nat)
    requires user < WORD && iowait < WORD
    ensures var v := WaitLine(user, iowait);
      CpuLine(v) && Parts(FieldsOf(Corrected(v)))[0] == user
      && ToWord(FieldsOf(Corrected(v)).total) == ToWord(user + iowait)
  {
    var v := WaitLine(user, iowait);
    Wraps(user);
    Wraps(iowait);
    Wraps(0);
    assert v[1] == user && v[2] == v[3] == v[4] == v[6] == v[7] == v[8] == v[9] == v[10] == 0 && v[5] == iowait;
    hide ToWord, WaitLine;
    assert Corrected(v) == v;
  }

  lemma WordIs(n: nat)
    requires n < WORD
    ensures ToWord(n) == n
  {
  }

  lemma UserShown(user: nat, iowait: nat, user': nat, iowait': nat)
    requires user + iowait < WORD && user' + iowait' < WORD
    ensures CpuLine(WaitLine(user, iowait)) && CpuLine(WaitLine(user', iowait'))
    ensures Shown(FieldsOf(Corrected(WaitLine(user, iowait))), FieldsOf(Corrected(WaitLine(user', iowait'))))[0] ==
      Percentage(user', user, user' + iowait', user + iowait)
  {
    hide *;
    WaitLineIs(user, iowait);
    WaitLineIs(user', iowait');
    WordIs(user + iowait);
    WordIs(user' + iowait');
    ShownIs(FieldsOf(Corrected(WaitLine(user, iowait))), FieldsOf(Corrected(WaitLine(user', iowait'))), 0);
  }

  /** Time waiting for I/O that is given back: 50 ticks of iowait become none while user time rises by 100.
      50 ticks have passed, and user time is shown as 200 percent of them. */
  lemma FallingIowait()
    ensures CpuLine(WaitLine(0, 50)) && CpuLine(WaitLine(100, 0))
    ensures Shown(FieldsOf(Corrected(WaitLine(0, 50))), FieldsOf(Corrected(WaitLine(100, 0))))[0] == 200
  {
    UserShown(0, 50, 100, 0);
    assert Percentage(100, 0, 100, 50) == 200;
    hide *;
  }

  // ---------------------------------------------------------------------------------------------
  // What goes into the store.

  const COMPONENTS := ["user", "nice", "system", "idle", "iowait", "irq", "softirq", "steal", "guest", "guest_nice"]

  const TOTAL := "total_time"

  /** The map handed to the store: integers as they are, sums as doubles. */
  function Stored(f: Fields): map<string, string> {
    map["user" := Digits(f.user), "nice" := Digits(f.nice), "system" := Digits(f.system),
        "system_all" := DoubleText(f.systemAll), "idle" := Digits(f.idle), "idle_all" := DoubleText(f.idleAll),
        "iowait" := Digits(f.iowait), "irq" := Digits(f.irq), "softirq" := Digits(f.softirq),
        "steal" := Digits(f.steal), "guest" := Digits(f.guest), "virt_all_time" := DoubleText(f.virtAll),
        "guest_nice" := Digits(f.guestNice), "total_time" := DoubleText(f.total)]
  }

  lemma StoredAt(f: Fields, i: nat)
    requires i < 10
    ensures COMPONENTS[i] in Stored(f) && Stored(f)[COMPONENTS[i]] == Digits(Parts(f)[i])
    ensures TOTAL in Stored(f) && Stored(f)[TOTAL] == DoubleText(f.total)
  {
    hide Digits, DoubleText;
  }

  lemma StoredSums(f: Fields)
    ensures "system_all" in Stored(f) && Stored(f)["system_all"] == DoubleText(f.systemAll)
    ensures "idle_all" in Stored(f) && Stored(f)["idle_all"] == DoubleText(f.idleAll)
    ensures "virt_all_time" in Stored(f) && Stored(f)["virt_all_time"] == DoubleText(f.virtAll)
    ensures forall k :: k in Stored(f) ==>
      k in COMPONENTS || k == "system_all" || k == "idle_all" || k == "virt_all_time" || k == TOTAL
  {
    hide Digits, DoubleText;
    forall k | k in Stored(f)
      ensures k in COMPONENTS || k == "system_all" || k == "idle_all" || k == "virt_all_time" || k == TOTAL
    {
      assert COMPONENTS[0] == "user" && COMPONENTS[1] == "nice" && COMPONENTS[2] == "system" && COMPONENTS[3] == "idle";
      assert COMPONENTS[4] == "iowait" && COMPONENTS[5] == "irq" && COMPONENTS[6] == "softirq";
      assert COMPONENTS[7] == "steal" && COMPONENTS[8] == "guest" && COMPONENTS[9] == "guest_nice";
    }
  }

  /** The percentages of the texts in the store are those of the numbers they were made from. */
  lemma StoredShown(prev: Fields, next: Fields, i: nat)
    requires Consistent(prev) && Consistent(next) && i < 10
    ensures var k := COMPONENTS[i];
      && k in Stored(prev) && k in Stored(next) && TOTAL in Stored(prev) && TOTAL in Stored(next)
      && StrPercentage(Stored(next)[k], Stored(prev)[k], Stored(next)[TOTAL], Stored(prev)[TOTAL]) ==
           Digits(Shown(prev, next)[i])
  {
    hide *;
    StoredAt(prev, i);
    StoredAt(next, i);
    PartsBelow(prev, i);
    PartsBelow(next, i);
    TotalBelow(prev);
    TotalBelow(next);
    PercentageOfText(Parts(next)[i], Parts(prev)[i], next.total, prev.total);
    ShownIs(prev, next, i);
  }

  lemma TotalBelow(f: Fields)
    requires Consistent(f)
    ensures f.total <= LONG_MAX
  {
    Wraps(f.user + f.nice);
    Wraps(f.system + f.irq + f.softirq);
    Wraps(f.idle + f.iowait);
    Wraps(f.guest + f.guestNice);
    hide ToWord, Carry;
  }
}
