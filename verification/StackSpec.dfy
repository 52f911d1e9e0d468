/** What merging per-rank call stacks means, without any tree: src/post-processing/zs-stacks.py. */
module StackSpec {

  /** The text of one frame. The merge only ever compares frames for equality. */
  type Frame(==, !new)

  /** A call stack, outermost frame first; `p <= s` says that stack s extends path p. */
  type Stack = seq<Frame>

  /** The ranks (indices into stacks) whose stack extends p, in increasing order. */
  function RanksUnder(stacks: seq<Stack>, p: Stack): seq<int> {
    if stacks == [] then [] else
    var n := |stacks| - 1;
    RanksUnder(stacks[..n], p) + if p <= stacks[n] then [n] else []
  }

  /** The ranks whose stack is exactly s. */
  function RanksOf(stacks: seq<Stack>, s: Stack): seq<int> {
    if stacks == [] then [] else
    var n := |stacks| - 1;
    RanksOf(stacks[..n], s) + if stacks[n] == s then [n] else []
  }

  /** The different stacks, in order of first occurrence: the key order of the dictionary. */
  function Distinct(stacks: seq<Stack>): seq<Stack> {
    if stacks == [] then [] else
    var n := |stacks| - 1;
    Distinct(stacks[..n]) + if stacks[n] in stacks[..n] then [] else [stacks[n]]
  }

  /** The lists of the keys that extend p, joined in key order: what `node.ranks + ranks` builds up. */
  function Gather(keys: seq<Stack>, lists: Stack -> seq<int>, p: Stack): seq<int> {
    if keys == [] then [] else
    var n := |keys| - 1;
    Gather(keys[..n], lists, p) + if p <= keys[n] then lists(keys[n]) else []
  }

  /** A path in the merged tree: the root, or a prefix of some key. */
  ghost predicate IsPath(keys: seq<Stack>, p: Stack) {
    p == [] || exists i :: 0 <= i < |keys| && p <= keys[i]
  }

  /** How often x occurs in a list. */
  function Occurs(x: int, xs: seq<int>): nat {
    if xs == [] then 0 else (if xs[0] == x then 1 else 0) + Occurs(x, xs[1..])
  }

  lemma {:induction false} OccursConcat(x: int, a: seq<int>, b: seq<int>)
    ensures Occurs(x, a + b) == Occurs(x, a) + Occurs(x, b)
  {
    if a == [] {
      assert a + b == b;
    } else {
      assert (a + b)[1..] == a[1..] + b;
      OccursConcat(x, a[1..], b);
    }
  }

  lemma {:induction false} OccursIn(x: int, xs: seq<int>)
    ensures Occurs(x, xs) > 0 <==> x in xs
  {
    if xs != [] { OccursIn(x, xs[1..]); }
  }

  /** The two lists are rearrangements of each other. */
  ghost predicate Permuted(a: seq<int>, b: seq<int>) { forall x :: Occurs(x, a) == Occurs(x, b) }

  lemma {:induction false} DistinctIs(stacks: seq<Stack>)
    ensures forall s :: s in Distinct(stacks) <==> s in stacks
    ensures forall i, j :: 0 <= i < j < |Distinct(stacks)| ==> Distinct(stacks)[i] != Distinct(stacks)[j]
  {
    if stacks != [] {
      var n := |stacks| - 1;
      DistinctIs(stacks[..n]);
      assert stacks == stacks[..n] + [stacks[n]];
    }
  }

  /** A key stands before every key whose first occurrence is later. */
  lemma {:induction false} DistinctInOrder(stacks: seq<Stack>, i: nat, j: nat, x: nat)
    requires i < j < |Distinct(stacks)| && x < |stacks| && stacks[x] == Distinct(stacks)[j]
    ensures Distinct(stacks)[i] in stacks[..x]
  {
    var n := |stacks| - 1;
    var keys := Distinct(stacks[..n]);
    DistinctIs(stacks[..n]);
    assert i < |keys| ==> keys[i] in keys;
    if x < n {
      assert stacks[..n][x] in stacks[..n] && stacks[..n][..x] == stacks[..x];
      DistinctInOrder(stacks[..n], i, j, x);
    }
  }

  /** A key's list holds exactly the ranks whose stack it is, in increasing order. */
  lemma {:induction false} RanksOfIs(stacks: seq<Stack>, s: Stack)
    ensures forall x :: x in RanksOf(stacks, s) <==> 0 <= x < |stacks| && stacks[x] == s
    ensures forall i, j :: 0 <= i < j < |RanksOf(stacks, s)| ==> RanksOf(stacks, s)[i] < RanksOf(stacks, s)[j]
  {
    if stacks != [] {
      var n := |stacks| - 1;
      var init := RanksOf(stacks[..n], s);
      RanksOfIs(stacks[..n], s);
      forall x ensures x in RanksOf(stacks, s) <==> 0 <= x < |stacks| && stacks[x] == s {
        assert x in init <==> 0 <= x < n && stacks[..n][x] == s;
      }
      assert forall i :: 0 <= i < |init| ==> init[i] in init;
    }
  }

  lemma {:induction false} RanksUnderIs(stacks: seq<Stack>, p: Stack)
    ensures forall x :: x in RanksUnder(stacks, p) <==> 0 <= x < |stacks| && p <= stacks[x]
    ensures forall i, j :: 0 <= i < j < |RanksUnder(stacks, p)| ==> RanksUnder(stacks, p)[i] < RanksUnder(stacks, p)[j]
  {
    if stacks != [] {
      var n := |stacks| - 1;
      var init := RanksUnder(stacks[..n], p);
      RanksUnderIs(stacks[..n], p);
      forall x ensures x in RanksUnder(stacks, p) <==> 0 <= x < |stacks| && p <= stacks[x] {
        assert x in init <==> 0 <= x < n && p <= stacks[..n][x];
      }
      assert forall i :: 0 <= i < |init| ==> init[i] in init;
    }
  }

  /** The lists of the dictionary findUnique returns. */
  function Grouped(stacks: seq<Stack>): Stack -> seq<int> {
    s => RanksOf(stacks, s)
  }

  lemma GatherLast(keys: seq<Stack>, lists: Stack -> seq<int>, p: Stack, y: int)
    requires keys != []
    ensures var k := keys[|keys|-1];
      Occurs(y, Gather(keys, lists, p)) == Occurs(y, Gather(keys[..|keys|-1], lists, p))
        + if p <= k then Occurs(y, lists(k)) else 0
  {
    var k := keys[|keys|-1];
    OccursConcat(y, Gather(keys[..|keys|-1], lists, p), if p <= k then lists(k) else []);
  }

  lemma GatherMore(keys: seq<Stack>, k: Stack, lists: Stack -> seq<int>, p: Stack, y: int)
    ensures Occurs(y, Gather(keys + [k], lists, p))
         == Occurs(y, Gather(keys, lists, p)) + if p <= k then Occurs(y, lists(k)) else 0
  {
    assert (keys + [k])[..|keys|] == keys;
    GatherLast(keys + [k], lists, p, y);
  }

  lemma RanksNext(init: seq<Stack>, s: Stack, k: Stack)
    ensures RanksOf(init + [s], k) == RanksOf(init, k) + if k == s then [|init|] else []
    ensures RanksUnder(init + [s], k) == RanksUnder(init, k) + if k <= s then [|init|] else []
  {
    assert (init + [s])[..|init|] == init;
  }

  lemma DistinctNext(init: seq<Stack>, s: Stack)
    ensures Distinct(init + [s]) == if s in init then Distinct(init) else Distinct(init) + [s]
  {
    assert (init + [s])[..|init|] == init;
    assert Distinct(init) + [] == Distinct(init);
  }

  lemma RanksOfOccurs(init: seq<Stack>, s: Stack, k: Stack, y: int)
    ensures Occurs(y, Grouped(init + [s])(k)) == Occurs(y, Grouped(init)(k)) + if k == s && |init| == y then 1 else 0
  {
    RanksNext(init, s, k);
    OccursConcat(y, RanksOf(init, k), if k == s then [|init|] else []);
    assert [|init|][1..] == [];
  }

  /** One more stack adds its rank to the list of its own key only. */
  lemma {:induction false} GatherGrows(keys: seq<Stack>, init: seq<Stack>, s: Stack, p: Stack, y: int)
    requires forall i, j :: 0 <= i < j < |keys| ==> keys[i] != keys[j]
    ensures Occurs(y, Gather(keys, Grouped(init + [s]), p))
         == Occurs(y, Gather(keys, Grouped(init), p)) + if s in keys && p <= s && |init| == y then 1 else 0
  {
    if keys != [] {
      var n := |keys| - 1;
      var k := keys[n];
      GatherGrows(keys[..n], init, s, p, y);
      assert s in keys <==> s in keys[..n] || s == k;
      assert s == k ==> s !in keys[..n];
      GatherLast(keys, Grouped(init), p, y);
      GatherLast(keys, Grouped(init + [s]), p, y);
      RanksOfOccurs(init, s, k, y);
    }
  }

  lemma {:induction false} NoRanksOf(stacks: seq<Stack>, s: Stack)
    requires s !in stacks
    ensures RanksOf(stacks, s) == []
  {
    if stacks != [] {
      assert stacks[|stacks|-1] in stacks;
      NoRanksOf(stacks[..|stacks|-1], s);
    }
  }

  /** One more stack adds its rank to what every prefix of it gathers. */
  lemma GatherNext(init: seq<Stack>, s: Stack, p: Stack, y: int)
    ensures Occurs(y, Gather(Distinct(init + [s]), Grouped(init + [s]), p))
         == Occurs(y, Gather(Distinct(init), Grouped(init), p)) + if p <= s && |init| == y then 1 else 0
  {
    DistinctNext(init, s);
    DistinctIs(init);
    GatherGrows(Distinct(init), init, s, p, y);
    if s !in init {
      NoRanksOf(init, s);
      RanksOfOccurs(init, s, s, y);
      GatherMore(Distinct(init), s, Grouped(init + [s]), p, y);
    }
  }

  /** A node gathers each rank whose stack extends its path, exactly once. */
  lemma {:induction false} GatheredOnce(stacks: seq<Stack>, p: Stack, y: int)
    ensures Occurs(y, Gather(Distinct(stacks), Grouped(stacks), p)) == Occurs(y, RanksUnder(stacks, p))
  {
    if stacks != [] {
      var n := |stacks| - 1;
      assert stacks == stacks[..n] + [stacks[n]];
      RanksNext(stacks[..n], stacks[n], p);
      assert Occurs(y, if p <= stacks[n] then [n] else []) == if p <= stacks[n] && n == y then 1 else 0 by {
        assert [n][1..] == [];
      }
      hide *;
      GatheredOnce(stacks[..n], p, y);
      GatherNext(stacks[..n], stacks[n], p, y);
      OccursConcat(y, RanksUnder(stacks[..n], p), if p <= stacks[n] then [n] else []);
    }
  }

  // ---------------------------------------------------------------------------------------------
  // A node's count is its children's counts plus the stacks that end there.

  function ChildTotal(stacks: seq<Stack>, p: Stack, frames: seq<Frame>): nat {
    if frames == [] then 0
    else ChildTotal(stacks, p, frames[..|frames|-1]) + |RanksUnder(stacks, p + [frames[|frames|-1]])|
  }

  lemma {:induction false} ChildTotalStep(stacks: seq<Stack>, p: Stack, frames: seq<Frame>)
    requires stacks != []
    requires forall i, j :: 0 <= i < j < |frames| ==> frames[i] != frames[j]
    ensures var s := stacks[|stacks|-1];
            ChildTotal(stacks, p, frames) == ChildTotal(stacks[..|stacks|-1], p, frames)
              + if p < s && s[|p|] in frames then 1 else 0
  {
    if frames != [] {
      var m := |frames| - 1;
      var s := stacks[|stacks|-1];
      ChildTotalStep(stacks, p, frames[..m]);
      ExtendsBy(p, frames[m], s);
      if p < s { InLast(frames, s[|p|]); }
    }
  }

  lemma InLast<T>(xs: seq<T>, x: T)
    requires xs != []
    ensures x in xs <==> x in xs[..|xs|-1] || x == xs[|xs|-1]
  {
  }

  lemma ExtendsBy(p: Stack, f: Frame, s: Stack)
    ensures p + [f] <= s <==> p < s && s[|p|] == f
  {
    if p + [f] <= s { assert s[|p|] == (p + [f])[|p|]; }
  }

  lemma {:induction false} NoStacks(p: Stack, frames: seq<Frame>)
    ensures ChildTotal([], p, frames) == 0
  {
    if frames != [] { NoStacks(p, frames[..|frames|-1]); }
  }

  /** `frames` are the different frames that follow p in some stack. */
  lemma {:induction false} CountsAdd(stacks: seq<Stack>, p: Stack, frames: seq<Frame>)
    requires forall i, j :: 0 <= i < j < |frames| ==> frames[i] != frames[j]
    requires forall s :: s in stacks && p < s ==> s[|p|] in frames
    ensures |RanksUnder(stacks, p)| == ChildTotal(stacks, p, frames) + |RanksOf(stacks, p)|
  {
    if stacks == [] {
      NoStacks(p, frames);
    } else {
      var n := |stacks| - 1;
      assert stacks == stacks[..n] + [stacks[n]];
      CountsAdd(stacks[..n], p, frames);
      ChildTotalStep(stacks, p, frames);
      assert stacks[n] in stacks;
    }
  }

  // ---------------------------------------------------------------------------------------------
  // list.sort on ranks.

  function Insert(x: int, xs: seq<int>): seq<int> {
    if xs == [] || x <= xs[0] then [x] + xs else [xs[0]] + Insert(x, xs[1..])
  }

  function Sorted(xs: seq<int>): seq<int> {
    if xs == [] then [] else Insert(xs[0], Sorted(xs[1..]))
  }

  ghost predicate Ordered(xs: seq<int>) { forall i, j :: 0 <= i < j < |xs| ==> xs[i] <= xs[j] }

  lemma {:induction false} InsertIs(x: int, xs: seq<int>)
    requires Ordered(xs)
    ensures Ordered(Insert(x, xs)) && |Insert(x, xs)| == |xs| + 1
    ensures Insert(x, xs)[0] == x || (xs != [] && Insert(x, xs)[0] == xs[0])
  {
    if xs != [] && x > xs[0] { InsertIs(x, xs[1..]); }
  }

  lemma {:induction false} InsertOccurs(x: int, xs: seq<int>, y: int)
    ensures Occurs(y, Insert(x, xs)) == Occurs(y, xs) + if x == y then 1 else 0
  {
    if xs != [] && x > xs[0] { InsertOccurs(x, xs[1..], y); }
  }

  lemma {:induction false} SortedIs(xs: seq<int>)
    ensures Ordered(Sorted(xs)) && Permuted(Sorted(xs), xs) && |Sorted(xs)| == |xs|
  {
    if xs != [] {
      SortedIs(xs[1..]);
      InsertIs(xs[0], Sorted(xs[1..]));
      forall y ensures Occurs(y, Sorted(xs)) == Occurs(y, xs) {
        InsertOccurs(xs[0], Sorted(xs[1..]), y);
      }
    }
  }

  lemma PermutedEmpty(a: seq<int>, b: seq<int>)
    requires Permuted(a, b)
    ensures a == [] ==> b == []
  {
    if b != [] {
      OccursIn(b[0], b);
      OccursIn(b[0], a);
    }
  }

  lemma {:induction false} OrderedUnique(a: seq<int>, b: seq<int>)
    requires Ordered(a) && Ordered(b) && Permuted(a, b)
    ensures a == b
  {
    PermutedEmpty(a, b);
    PermutedEmpty(b, a);
    if a != [] {
      OccursIn(a[0], a);
      OccursIn(a[0], b);
      OccursIn(b[0], a);
      OccursIn(b[0], b);
      assert a[0] == b[0];
      forall y ensures Occurs(y, a[1..]) == Occurs(y, b[1..]) {
        assert Occurs(y, a) == Occurs(y, b);
      }
      OrderedUnique(a[1..], b[1..]);
    }
  }

  lemma SortedPermuted(a: seq<int>, b: seq<int>)
    requires Permuted(a, b)
    ensures Sorted(a) == Sorted(b)
  {
    SortedIs(a);
    SortedIs(b);
    forall x ensures Occurs(x, Sorted(a)) == Occurs(x, Sorted(b)) {
      assert Occurs(x, Sorted(a)) == Occurs(x, a) == Occurs(x, b) == Occurs(x, Sorted(b));
    }
    OrderedUnique(Sorted(a), Sorted(b));
  }

  /** Sorting what a node has gathered gives the ranks under its path in increasing order. */
  lemma SortedGather(stacks: seq<Stack>, p: Stack, xs: seq<int>)
    requires Permuted(xs, Gather(Distinct(stacks), Grouped(stacks), p))
    ensures Sorted(xs) == RanksUnder(stacks, p)
    ensures |xs| == |RanksUnder(stacks, p)|
  {
    forall y ensures Occurs(y, xs) == Occurs(y, RanksUnder(stacks, p)) { GatheredOnce(stacks, p, y); }
    SortedIs(xs);
    RanksUnderIs(stacks, p);
    OrderedUnique(Sorted(xs), RanksUnder(stacks, p));
  }
}
