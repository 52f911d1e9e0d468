/** Run compression of rank lists: `ranges` of src/post-processing/zs-stacks.py. */
module RankRanges {

  type Interval = (int, int)

  ghost predicate StrictlyIncreasing(xs: seq<int>) {
    forall i, j :: 0 <= i < j < |xs| ==> xs[i] < xs[j]
  }

  /** groupby: how many leading elements share the key value - position with the first. */
  function RunLength(xs: seq<int>, from: nat): (n: nat)
    requires 1 <= from <= |xs|
    ensures from <= n <= |xs|
    decreases |xs| - from
  {
    if from < |xs| && xs[from] - from == xs[0] then RunLength(xs, from + 1) else from
  }

  /** The first and last value of each group, in order. */
  function Ranges(xs: seq<int>): seq<Interval>
    decreases |xs|
  {
    if xs == [] then [] else
    var n := RunLength(xs, 1);
    [(xs[0], xs[n-1])] + Ranges(xs[n..])
  }

  function Upto(lo: int, hi: int): seq<int>
    decreases hi - lo
  {
    if hi < lo then [] else [lo] + Upto(lo + 1, hi)
  }

  /** The ranks a printed list of intervals stands for, in order. */
  function Expand(ivs: seq<Interval>): seq<int> {
    if ivs == [] then [] else Upto(ivs[0].0, ivs[0].1) + Expand(ivs[1..])
  }

  lemma {:induction false} RunIsConsecutive(xs: seq<int>, from: nat)
    requires 1 <= from <= |xs|
    requires forall i :: 0 <= i < from ==> xs[i] == xs[0] + i
    ensures var n := RunLength(xs, from);
      && (forall i :: 0 <= i < n ==> xs[i] == xs[0] + i)
      && (n < |xs| ==> xs[n] != xs[0] + n)
    decreases |xs| - from
  {
    if from < |xs| && xs[from] - from == xs[0] { RunIsConsecutive(xs, from + 1); }
  }

  lemma {:induction false} UptoIs(lo: int, hi: int)
    ensures |Upto(lo, hi)| == if hi < lo then 0 else hi - lo + 1
    ensures forall i :: 0 <= i < |Upto(lo, hi)| ==> Upto(lo, hi)[i] == lo + i
    decreases hi - lo
  {
    if lo <= hi { UptoIs(lo + 1, hi); }
  }

  /** Nothing is lost and nothing invented. */
  lemma {:induction false} RangesExpand(xs: seq<int>)
    ensures Expand(Ranges(xs)) == xs
    decreases |xs|
  {
    if xs != [] {
      var n := RunLength(xs, 1);
      RunIsConsecutive(xs, 1);
      RangesExpand(xs[n..]);
      UptoIs(xs[0], xs[n-1]);
      assert Upto(xs[0], xs[n-1]) == xs[..n];
      var rest := Ranges(xs[n..]);
      assert ([(xs[0], xs[n-1])] + rest)[1..] == rest;
      assert Expand(Ranges(xs)) == xs[..n] + xs[n..];
    }
  }

  /** Neighbouring intervals are never adjacent: at least one absent rank lies between them. */
  lemma {:induction false} RangesHaveGaps(xs: seq<int>)
    requires StrictlyIncreasing(xs)
    ensures forall i :: 0 <= i < |Ranges(xs)| ==> Ranges(xs)[i].0 <= Ranges(xs)[i].1
    ensures forall i :: 0 < i < |Ranges(xs)| ==> Ranges(xs)[i-1].1 + 1 < Ranges(xs)[i].0
    ensures xs != [] ==> Ranges(xs) != [] && Ranges(xs)[0].0 == xs[0]
    decreases |xs|
  {
    if xs != [] {
      var n := RunLength(xs, 1);
      RunIsConsecutive(xs, 1);
      var rest := Ranges(xs[n..]);
      assert Ranges(xs) == [(xs[0], xs[n-1])] + rest;
      assert xs[n-1] == xs[0] + n - 1;
      assert n < |xs| ==> xs[n] > xs[n-1] && xs[n..][0] == xs[n];
      assert StrictlyIncreasing(xs[n..]);
      hide *;
      RangesHaveGaps(xs[n..]);
      GapBefore((xs[0], xs[n-1]), rest);
    }
  }

  lemma GapBefore(first: Interval, rest: seq<Interval>)
    requires first.0 <= first.1 && (rest != [] ==> first.1 + 1 < rest[0].0)
    requires forall i :: 0 <= i < |rest| ==> rest[i].0 <= rest[i].1
    requires forall i :: 0 < i < |rest| ==> rest[i-1].1 + 1 < rest[i].0
    ensures var ivs := [first] + rest;
      && (forall i :: 0 <= i < |ivs| ==> ivs[i].0 <= ivs[i].1)
      && (forall i :: 0 < i < |ivs| ==> ivs[i-1].1 + 1 < ivs[i].0)
  {
    var ivs := [first] + rest;
    forall i | 0 < i < |ivs| ensures ivs[i-1].1 + 1 < ivs[i].0 {
      assert ivs[i] == rest[i-1];
      if i > 1 { assert ivs[i-1] == rest[i-2]; }
    }
  }

  /** The intervals that do not meet lo..hi. */
  function Outside(ivs: seq<Interval>, lo: int, hi: int): (r: seq<Interval>)
    ensures |r| <= |ivs|
  {
    if ivs == [] then []
    else (if ivs[0].1 < lo || hi < ivs[0].0 then [ivs[0]] else []) + Outside(ivs[1..], lo, hi)
  }

  lemma {:induction false} OutsideIs(ivs: seq<Interval>, lo: int, hi: int)
    ensures forall v :: v in Outside(ivs, lo, hi) <==> v in ivs && (v.1 < lo || hi < v.0)
    ensures (exists v :: v in ivs && !(v.1 < lo || hi < v.0)) ==> |Outside(ivs, lo, hi)| < |ivs|
  {
    if ivs != [] {
      OutsideIs(ivs[1..], lo, hi);
      assert forall v :: v in ivs <==> v == ivs[0] || v in ivs[1..];
    }
  }

  /** `ivs` stands for exactly the set of values in xs; order, overlaps and empty intervals are allowed. */
  ghost predicate CoversExactly(ivs: seq<Interval>, xs: seq<int>) {
    && (forall v, x :: v in ivs && v.0 <= x <= v.1 ==> x in xs)
    && (forall x :: x in xs ==> exists v :: v in ivs && v.0 <= x <= v.1)
  }

  /** After a leading run of n, what is in the rest is what is above the run, and nothing touches the run. */
  lemma RestIs(xs: seq<int>, n: nat)
    requires StrictlyIncreasing(xs) && 1 <= n <= |xs|
    requires forall i :: 0 <= i < n ==> xs[i] == xs[0] + i
    requires n < |xs| ==> xs[n] != xs[0] + n
    ensures xs[0] <= xs[n-1] && xs[0] in xs && xs[0] - 1 !in xs && xs[n-1] + 1 !in xs
    ensures forall x :: x in xs[n..] <==> x in xs && (x < xs[0] || x > xs[n-1])
  {
    forall x ensures x in xs[n..] <==> x in xs && (x < xs[0] || x > xs[n-1]) {
      if x in xs[n..] {
        var i :| 0 <= i < |xs[n..]| && xs[n..][i] == x;
        assert x == xs[n+i];
      }
      if x in xs && (x < xs[0] || x > xs[n-1]) {
        var i :| 0 <= i < |xs| && xs[i] == x;
        assert i >= n && xs[n..][i-n] == x;
      }
    }
  }

  lemma RestCovered(ivs: seq<Interval>, xs: seq<int>, n: nat)
    requires StrictlyIncreasing(xs) && CoversExactly(ivs, xs) && 1 <= n <= |xs|
    requires forall i :: 0 <= i < n ==> xs[i] == xs[0] + i
    requires n < |xs| ==> xs[n] != xs[0] + n
    ensures CoversExactly(Outside(ivs, xs[0], xs[n-1]), xs[n..])
    ensures |Outside(ivs, xs[0], xs[n-1])| < |ivs|
  {
    hide StrictlyIncreasing, Outside;
    RestIs(xs, n);
    OutsideIs(ivs, xs[0], xs[n-1]);
    OutsideCovers(ivs, Outside(ivs, xs[0], xs[n-1]), xs, xs[n..], xs[0], xs[n-1]);
    var v :| v in ivs && v.0 <= xs[0] <= v.1;
  }

  /** Dropping the intervals that meet lo..hi, when nothing covered touches it from outside. */
  lemma OutsideCovers(ivs: seq<Interval>, rest: seq<Interval>, xs: seq<int>, above: seq<int>, lo: int, hi: int)
    requires CoversExactly(ivs, xs) && lo <= hi && lo - 1 !in xs && hi + 1 !in xs
    requires forall v :: v in rest <==> v in ivs && (v.1 < lo || hi < v.0)
    requires forall x :: x in above <==> x in xs && (x < lo || x > hi)
    ensures CoversExactly(rest, above)
  {
    forall x | x in above ensures exists v :: v in rest && v.0 <= x <= v.1 {
      var v :| v in ivs && v.0 <= x <= v.1;
      assert v.0 <= hi + 1 <= v.1 ==> hi + 1 in xs;
      assert v.0 <= lo - 1 <= v.1 ==> lo - 1 in xs;
      assert v in rest;
    }
  }

  /** No other list of intervals for the same ranks is shorter. */
  lemma {:induction false} RangesMinimal(ivs: seq<Interval>, xs: seq<int>)
    requires StrictlyIncreasing(xs) && CoversExactly(ivs, xs)
    ensures |Ranges(xs)| <= |ivs|
    decreases |xs|
  {
    if xs != [] {
      var n := RunLength(xs, 1);
      RunIsConsecutive(xs, 1);
      RestCovered(ivs, xs, n);
      RangesMinimal(Outside(ivs, xs[0], xs[n-1]), xs[n..]);
    }
  }
}
