/** What src/post-processing/zs-stacks.py as a whole computes from the stacks, and what its graph says. */
module StackScript {
  import opened StackSpec
  import opened RankRanges
  import opened StackTree
  import opened StackGraph

  /** The ranks below a path, in increasing order: what each node should show. */
  ghost function Under(stacks: seq<Stack>): Stack -> seq<int> { p => RanksUnder(stacks, p) }

  lemma {:induction false} UnderRoot(stacks: seq<Stack>)
    ensures |RanksUnder(stacks, [])| == |stacks|
  {
    if stacks != [] { UnderRoot(stacks[..|stacks|-1]); }
  }

  lemma UnderIsSorted(stacks: seq<Stack>, p: Stack)
    ensures Sorted(RanksUnder(stacks, p)) == RanksUnder(stacks, p)
  {
    RanksUnderIs(stacks, p);
    SortedIs(RanksUnder(stacks, p));
    OrderedUnique(Sorted(RanksUnder(stacks, p)), RanksUnder(stacks, p));
  }

  lemma SamePaths(nodes: Tree, stacks: seq<Stack>)
    requires PathsAre(nodes, Distinct(stacks))
    ensures PathsAre(nodes, stacks)
  {
    DistinctIs(stacks);
    forall p ensures IsPath(Distinct(stacks), p) <==> IsPath(stacks, p) {
      if i :| 0 <= i < |stacks| && p <= stacks[i] {
        assert stacks[i] in Distinct(stacks);
        var j :| 0 <= j < |Distinct(stacks)| && Distinct(stacks)[j] == stacks[i];
      }
      if i :| 0 <= i < |Distinct(stacks)| && p <= Distinct(stacks)[i] {
        assert Distinct(stacks)[i] in stacks;
        var j :| 0 <= j < |stacks| && stacks[j] == Distinct(stacks)[i];
      }
    }
  }

  ghost predicate SameRanks(a: Stack -> seq<int>, b: Stack -> seq<int>) {
    forall p :: Permuted(a(p), b(p)) && |a(p)| == |b(p)|
  }

  lemma GatheredIsUnder(stacks: seq<Stack>)
    ensures SameRanks(Gathered(Distinct(stacks), Grouped(stacks)), Under(stacks))
  {
    forall p ensures var xs := Gather(Distinct(stacks), Grouped(stacks), p);
                     Permuted(xs, RanksUnder(stacks, p)) && |xs| == |RanksUnder(stacks, p)|
    {
      var xs := Gather(Distinct(stacks), Grouped(stacks), p);
      forall y ensures Occurs(y, xs) == Occurs(y, RanksUnder(stacks, p)) { GatheredOnce(stacks, p, y); }
      SortedGather(stacks, p, xs);
    }
  }

  lemma HoldsSettled(root: Node, nodes: Tree, total: nat, a: Stack -> seq<int>, b: Stack -> seq<int>)
    requires Merged(root, nodes, total, a) && SameRanks(a, b)
    ensures Settled(nodes, b, iset{}) && Valid(nodes)
    ensures At(nodes, [], root) && root.count == |b([])| && OwnIndices(nodes)
    ensures forall p :: p in nodes ==> nodes[p].ranks in RankLists(nodes)
  {
    hide Permuted, Sorted, Branches, OwnIndices;
  }

  /** What dotstacks leaves is ready to be written. */
  lemma ReadyToWrite(root: Node, nodes: Tree, total: nat, stacks: seq<Stack>)
    requires Merged(root, nodes, total, Gathered(Distinct(stacks), Grouped(stacks)))
    ensures Writing(nodes, ShapeOf(nodes), Under(stacks), iset{}, RankLists(nodes))
    ensures At(nodes, [], root) && root.count == |stacks| && OwnIndices(nodes)
  {
    UnderRoot(stacks);
    GatheredIsUnder(stacks);
    assert |Under(stacks)([])| == |stacks|;
    hide *;
    HoldsSettled(root, nodes, total, Gathered(Distinct(stacks), Grouped(stacks)), Under(stacks));
    StartWriting(nodes, Under(stacks));
  }

  lemma StartWriting(nodes: Tree, view: Stack -> seq<int>)
    requires Valid(nodes) && Settled(nodes, view, iset{})
    requires forall p :: p in nodes ==> nodes[p].ranks in RankLists(nodes)
    ensures Writing(nodes, ShapeOf(nodes), view, iset{}, RankLists(nodes))
  {
    hide Valid, Settled;
  }

  /** The outcome of main(): with no stacks the division by the root's count fails. */
  datatype Outcome = DotFile(lines: seq<Line>) | DivisionByZero

  /** What the finished tree shows; writing leaves the root's own list as it was, up to the order. */
  ghost predicate Shows(root: Node, nodes: Tree, stacks: seq<Stack>)
    reads nodes.Values, RankLists(nodes)
  {
    && Valid(nodes) && At(nodes, [], root) && PathsAre(nodes, stacks) && OwnIndices(nodes)
    && Permuted(root.ranks.items, RanksUnder(stacks, []))
    && (forall p :: p in nodes ==> nodes[p].count == |RanksUnder(stacks, p)|)
    && (forall p :: p in nodes && p != [] ==> nodes[p].ranks.items == RanksUnder(stacks, p))
  }

  lemma WrittenShows(root: Node, nodes: Tree, shape: Shape, stacks: seq<Stack>, lists: set<RankList>)
    requires Writing(nodes, shape, Under(stacks), StrictlyBelow([]), lists)
    requires At(nodes, [], root) && PathsAre(nodes, stacks) && OwnIndices(nodes)
    ensures Shows(root, nodes, stacks)
  {
    hide Permuted, OwnIndices, PathsAre, Valid, Shaped;
    assert Permuted(root.ranks.items, Under(stacks)([]));
    forall p | p in nodes
      ensures nodes[p].count == |RanksUnder(stacks, p)|
      ensures p != [] ==> nodes[p].ranks.items == RanksUnder(stacks, p)
    {
      UnderIsSorted(stacks, p);
      assert p != [] ==> p in StrictlyBelow([]);
    }
  }

  lemma {:induction false} PathBound(stacks: seq<Stack>) returns (bound: nat)
    ensures forall i :: 0 <= i < |stacks| ==> |stacks[i]| <= bound
  {
    bound := 0;
    if stacks != [] {
      bound := PathBound(stacks[..|stacks|-1]);
      bound := bound + |stacks[|stacks|-1]|;
      assert forall i :: 0 <= i < |stacks| - 1 ==> stacks[..|stacks|-1][i] == stacks[i];
    }
  }

  /** The merged tree of these stacks, before anything is written. */
  ghost predicate MergedStacks(root: Node, nodes: Tree, stacks: seq<Stack>)
    reads nodes.Values, RankLists(nodes)
  {
    && Writing(nodes, ShapeOf(nodes), Under(stacks), iset{}, RankLists(nodes))
    && At(nodes, [], root) && PathsAre(nodes, stacks) && OwnIndices(nodes) && root.count == |stacks|
  }

  /** uniques = findUnique(stacks); root = dotstacks(uniques) */
  method MergeStacks(stacks: seq<Stack>, rootName: Frame) returns (root: Node, ghost nodes: Tree)
    ensures MergedStacks(root, nodes, stacks) && root.value == rootName
    ensures fresh(nodes.Values)
  {
    var keys, uniques := FindUnique(stacks);
    DistinctIs(stacks);
    ghost var lists := Grouped(stacks);
    assert HasLists(keys, uniques, lists);
    hide HasLists, Merged, PathsAre, Gathered, Grouped, Writing, Under, OwnIndices;
    var total;
    root, total, nodes := DotStacks(keys, uniques, rootName, lists);
    ReadyToWrite(root, nodes, total, stacks);
    SamePaths(nodes, stacks);
  }

  lemma BoundedPaths(nodes: Tree, stacks: seq<Stack>, bound: nat)
    requires PathsAre(nodes, stacks) && forall i :: 0 <= i < |stacks| ==> |stacks[i]| <= bound
    ensures Bounded(nodes, bound)
  {
    forall p | p in nodes ensures |p| <= bound {
      assert IsPath(stacks, p);
    }
  }

  // ---------------------------------------------------------------------------------------------
  // Consequences.

  ghost function SumCounts(kids: seq<Node>): int
    reads kids
  {
    if kids == [] then 0 else SumCounts(kids[..|kids|-1]) + kids[|kids|-1].count
  }

  lemma {:induction false} SumIsChildTotal(nodes: Tree, stacks: seq<Stack>, p: Stack, kids: seq<Node>)
    requires forall i :: 0 <= i < |kids| ==> IsChild(nodes, p, kids[i])
    requires forall q :: q in nodes ==> nodes[q].count == |RanksUnder(stacks, q)|
    ensures SumCounts(kids) == ChildTotal(stacks, p, FramesOf(kids))
  {
    if kids != [] {
      var m := |kids| - 1;
      SumIsChildTotal(nodes, stacks, p, kids[..m]);
      assert FramesOf(kids)[..m] == FramesOf(kids[..m]);
      assert IsChild(nodes, p, kids[m]);
    }
  }

  /** In the finished tree, a node's count is its children's counts plus the stacks that end there. */
  lemma CountsAddUp(root: Node, nodes: Tree, stacks: seq<Stack>, p: Stack)
    requires Shows(root, nodes, stacks) && p in nodes
    ensures nodes[p].count == SumCounts(nodes[p].children) + |RanksOf(stacks, p)|
  {
    var kids := nodes[p].children;
    assert Branches(nodes, p, kids);
    hide Keyed, RanksUnder, RanksOf, ChildTotal;
    SumIsChildTotal(nodes, stacks, p, kids);
    FramesCover(nodes, stacks, p, kids);
    CountsAdd(stacks, p, FramesOf(kids));
  }

  lemma FramesCover(nodes: Tree, stacks: seq<Stack>, p: Stack, kids: seq<Node>)
    requires Keyed(nodes) && PathsAre(nodes, stacks) && Branches(nodes, p, kids)
    ensures forall s :: s in stacks && p < s ==> s[|p|] in FramesOf(kids)
  {
    forall s | s in stacks && p < s ensures s[|p|] in FramesOf(kids) {
      var c := s[..|p|+1];
      var i :| 0 <= i < |stacks| && stacks[i] == s;
      assert IsPath(stacks, c) && Parent(c) == p;
      var k :| 0 <= k < |kids| && kids[k] == nodes[c];
      assert IsChild(nodes, p, kids[k]) && FramesOf(kids)[k] == c[|p|];
    }
  }

  /** The label of an edge lists exactly the ranks below the child, in as few intervals as possible. */
  lemma EdgeLabels(stacks: seq<Stack>, q: Stack, other: seq<Interval>)
    ensures var shown := Ranges(Sorted(Under(stacks)(q)));
      && Expand(shown) == RanksUnder(stacks, q)
      && (CoversExactly(other, RanksUnder(stacks, q)) ==> |shown| <= |other|)
  {
    UnderIsSorted(stacks, q);
    RanksUnderIs(stacks, q);
    RangesExpand(RanksUnder(stacks, q));
    if CoversExactly(other, RanksUnder(stacks, q)) {
      RangesMinimal(other, RanksUnder(stacks, q));
    }
  }

  // ---------------------------------------------------------------------------------------------
  // The lines.

  lemma {:induction false} TwoLinesEach(nodes: Tree, view: Stack -> seq<int>, total: int, order: seq<Stack>)
    requires total != 0
    requires forall i :: 0 <= i < |order| ==> order[i] in nodes && order[i] != [] && Parent(order[i]) in nodes
    ensures |LinesOf(nodes, view, total, order)| == 2 * |order|
  {
    if order != [] {
      TwoLinesEach(nodes, view, total, order[..|order|-1]);
      hide Share, Ranges, Sorted;
    }
  }

  /** No two node lines carry the same index, so an index in the file names one node. */
  ghost predicate NamesNodes(lines: seq<Line>) {
    forall i, j :: 0 <= i < j < |lines| && lines[i].NodeLine? && lines[j].NodeLine? ==>
      lines[i].index != lines[j].index
  }

  ghost predicate IndexOfOne(line: Line, nodes: Tree, order: seq<Stack>) {
    line.NodeLine? ==> exists p :: p in order && p in nodes && nodes[p].index == line.index
  }

  lemma {:induction false} LinesNameNodes(nodes: Tree, view: Stack -> seq<int>, total: int, order: seq<Stack>)
    requires OwnIndices(nodes) && Once(order)
    ensures var lines := LinesOf(nodes, view, total, order);
      NamesNodes(lines) && forall i :: 0 <= i < |lines| ==> IndexOfOne(lines[i], nodes, order)
  {
    if order != [] {
      var n := |order| - 1;
      var before, last := LinesOf(nodes, view, total, order[..n]), LinesAt(nodes, view, total, order[n]);
      LinesNameNodes(nodes, view, total, order[..n]);
      assert |last| <= 2 && (last != [] ==> order[n] in nodes && last[0].index == nodes[order[n]].index);
      assert forall i :: 0 <= i < |last| ==> (last[i].NodeLine? <==> i == 0);
      hide LinesAt, Share, Ranges, Sorted;
      assert order[n] !in order[..n];
      assert LinesOf(nodes, view, total, order) == before + last;
      forall i | 0 <= i < |before + last| ensures IndexOfOne((before + last)[i], nodes, order) {
        if i < |before| { assert IndexOfOne(before[i], nodes, order[..n]); }
      }
      forall i, j | 0 <= i < j < |before + last| && (before + last)[i].NodeLine? && (before + last)[j].NodeLine?
        ensures (before + last)[i].index != (before + last)[j].index
      {
        if i < |before| { assert IndexOfOne(before[i], nodes, order[..n]); }
      }
    }
  }

  /** The file lists every node of the tree exactly once, after its parent and all that is below earlier
      siblings, under an index of its own, with two lines each but one for the root. */
  lemma EachNodeOnce(root: Node, nodes: Tree, shape: Shape, stacks: seq<Stack>, bound: nat)
    requires stacks != [] && Shows(root, nodes, stacks) && Shaped(nodes, shape) && Bounded(nodes, bound)
    ensures var order := Preorder(shape, [], bound);
      && (forall q :: q in order <==> q in nodes)
      && Once(order) && ParentsFirst(order, []) && InOrder(order, shape)
      && NamesNodes(LinesOf(nodes, Under(stacks), |stacks|, order))
      && |LinesOf(nodes, Under(stacks), |stacks|, order)| == 2 * |order| - 1
  {
    var order := Preorder(shape, [], bound);
    ShapeIsTree(nodes, shape);
    assert [] in shape && ShapeBounded(shape, bound);
    PreorderLists(shape, [], bound);
    PreorderInOrder(shape, [], bound);
    FirstIsTop(shape, [], bound);
    var kids := order[1..];
    assert Keyed(nodes) && OwnIndices(nodes);
    forall i | 0 <= i < |kids| ensures kids[i] in nodes && kids[i] != [] && Parent(kids[i]) in nodes {
      assert order[0] != order[i+1] && kids[i] == order[i+1];
    }
    assert |LinesAt(nodes, Under(stacks), |stacks|, [])| == 1;
    var top: seq<Stack> := [[]];
    assert top[..0] == [] && order == top + kids;
    assert LinesOf(nodes, Under(stacks), |stacks|, top) == LinesAt(nodes, Under(stacks), |stacks|, []);
    hide *;
    LinesNameNodes(nodes, Under(stacks), |stacks|, order);
    TwoLinesEach(nodes, Under(stacks), |stacks|, kids);
    LinesConcat(nodes, Under(stacks), |stacks|, top, kids);
  }

  // ---------------------------------------------------------------------------------------------
  // What the lines say, whatever they were made from.

  /** The node line of path p: its last frame, and the share of the ranks whose stack extends it. */
  ghost predicate NodeLineSays(line: Line, nodes: Tree, stacks: seq<Stack>, p: Stack)
    requires p in nodes
  {
    && line.NodeLine? && line.index == nodes[p].index
    && line.value == (if p == [] then nodes[p].value else p[|p|-1])
    && line.share * |stacks| as real == |RanksUnder(stacks, p)| as real
  }

  /** The edge line of path p leads to it from the path without its last frame, and is labelled with its ranks. */
  ghost predicate EdgeLineSays(line: Line, nodes: Tree, stacks: seq<Stack>, p: Stack)
    requires p in nodes
  {
    && line.EdgeLine? && p != [] && p[..|p|-1] in nodes
    && line.parent == nodes[p[..|p|-1]].index && line.child == nodes[p].index
    && line.count == |RanksUnder(stacks, p)| && Expand(line.ranges) == RanksUnder(stacks, p)
  }

  /** From line i on stand the lines of p: the node's, and the edge's unless p is the root. */
  ghost predicate LinesFor(lines: seq<Line>, i: nat, nodes: Tree, stacks: seq<Stack>, p: Stack) {
    && p in nodes && i < |lines| && NodeLineSays(lines[i], nodes, stacks, p)
    && (p != [] ==> i + 1 < |lines| && EdgeLineSays(lines[i+1], nodes, stacks, p))
  }

  ghost predicate HasLines(lines: seq<Line>, upto: nat, nodes: Tree, stacks: seq<Stack>, p: Stack) {
    exists i :: 0 <= i < upto && LinesFor(lines, i, nodes, stacks, p)
  }

  /** Line i is the edge line after the node line of p, and the lines of the path above p come before both. */
  ghost predicate EdgeOf(lines: seq<Line>, i: nat, nodes: Tree, stacks: seq<Stack>, p: Stack) {
    && i > 0 && p != [] && LinesFor(lines, i - 1, nodes, stacks, p)
    && HasLines(lines, i - 1, nodes, stacks, p[..|p|-1])
  }

  ghost predicate LineOfOne(lines: seq<Line>, i: nat, nodes: Tree, stacks: seq<Stack>)
    requires i < |lines|
  {
    if lines[i].NodeLine? then exists p :: LinesFor(lines, i, nodes, stacks, p)
    else exists p :: EdgeOf(lines, i, nodes, stacks, p)
  }

  /** Every path has its lines, every line is some path's, and an index stands for one path only. */
  ghost predicate LinesMean(lines: seq<Line>, nodes: Tree, stacks: seq<Stack>) {
    && (forall p :: p in nodes ==> HasLines(lines, |lines|, nodes, stacks, p))
    && (forall i :: 0 <= i < |lines| ==> LineOfOne(lines, i, nodes, stacks))
    && OwnIndices(nodes) && NamesNodes(lines)
  }

  lemma ShareIs(count: int, total: int)
    requires total != 0
    ensures Share(count, total) * total as real == count as real
  {
  }

  lemma NodeSays(nodes: Tree, stacks: seq<Stack>, p: Stack)
    requires stacks != [] && p in nodes && (p != [] ==> nodes[p].value == p[|p|-1])
    ensures NodeLineSays(NodeLine(nodes[p].index, nodes[p].value, Share(|Under(stacks)(p)|, |stacks|)),
                         nodes, stacks, p)
  {
    ShareIs(|RanksUnder(stacks, p)|, |stacks|);
    hide Share, RanksUnder;
  }

  lemma EdgeSays(nodes: Tree, stacks: seq<Stack>, p: Stack)
    requires p in nodes && p != [] && Parent(p) in nodes
    ensures EdgeLineSays(EdgeLine(nodes[Parent(p)].index, nodes[p].index, |Under(stacks)(p)|,
                                  Ranges(Sorted(Under(stacks)(p)))), nodes, stacks, p)
  {
    EdgeLabels(stacks, p, []);
    hide Ranges, Sorted, RanksUnder, Expand, CoversExactly;
  }

  lemma LinesAtSay(nodes: Tree, stacks: seq<Stack>, p: Stack)
    requires stacks != [] && Keyed(nodes) && p in nodes && (p != [] ==> nodes[p].value == p[|p|-1])
    ensures var own := LinesAt(nodes, Under(stacks), |stacks|, p);
      LinesFor(own, 0, nodes, stacks, p) && |own| == (if p == [] then 1 else 2) && (p != [] ==> own[1].EdgeLine?)
  {
    assert p != [] ==> Parent(p) in nodes;
    hide Share, Ranges, Sorted, Under, Keyed, NodeLineSays, EdgeLineSays;
    NodeSays(nodes, stacks, p);
    if p != [] { EdgeSays(nodes, stacks, p); }
  }

  /** Lines keep their meaning when others are put before or after them. */
  lemma LinesShift(before: seq<Line>, own: seq<Line>, i: nat, nodes: Tree, stacks: seq<Stack>, p: Stack)
    ensures LinesFor(own, i, nodes, stacks, p) ==> LinesFor(before + own, |before| + i, nodes, stacks, p)
    ensures LinesFor(before, i, nodes, stacks, p) ==> LinesFor(before + own, i, nodes, stacks, p)
  {
    hide NodeLineSays, EdgeLineSays;
  }

  lemma HasLinesMore(before: seq<Line>, own: seq<Line>, upto: nat, more: nat, nodes: Tree, stacks: seq<Stack>, p: Stack)
    requires HasLines(before, upto, nodes, stacks, p) && upto <= more
    ensures HasLines(before + own, more, nodes, stacks, p)
  {
    var i :| 0 <= i < upto && LinesFor(before, i, nodes, stacks, p);
    LinesShift(before, own, i, nodes, stacks, p);
    hide LinesFor;
  }

  lemma LineOfOneMore(before: seq<Line>, own: seq<Line>, i: nat, nodes: Tree, stacks: seq<Stack>)
    requires i < |before| && LineOfOne(before, i, nodes, stacks)
    ensures LineOfOne(before + own, i, nodes, stacks)
  {
    hide LinesFor, HasLines;
    assert (before + own)[i] == before[i];
    if before[i].NodeLine? {
      var p :| LinesFor(before, i, nodes, stacks, p);
      LinesShift(before, own, i, nodes, stacks, p);
    } else {
      var p :| EdgeOf(before, i, nodes, stacks, p);
      LinesShift(before, own, i - 1, nodes, stacks, p);
      HasLinesMore(before, own, i - 1, i - 1, nodes, stacks, p[..|p|-1]);
      assert EdgeOf(before + own, i, nodes, stacks, p);
    }
  }

  /** The lines of one more path, whose parent has had its own. */
  lemma OwnLines(before: seq<Line>, own: seq<Line>, nodes: Tree, stacks: seq<Stack>, p: Stack)
    requires LinesFor(own, 0, nodes, stacks, p)
    requires |own| == (if p == [] then 1 else 2) && (p != [] ==> own[1].EdgeLine?)
    requires p != [] ==> HasLines(before, |before|, nodes, stacks, p[..|p|-1])
    ensures HasLines(before + own, |before + own|, nodes, stacks, p)
    ensures forall i :: |before| <= i < |before + own| ==> LineOfOne(before + own, i, nodes, stacks)
  {
    var n := |before|;
    LinesShift(before, own, 0, nodes, stacks, p);
    assert own[0].NodeLine? && (before + own)[n] == own[0];
    assert HasLines(before + own, |before + own|, nodes, stacks, p);
    hide LinesFor, HasLines;
    if p != [] {
      assert (before + own)[n+1] == own[1];
      HasLinesMore(before, own, n, n, nodes, stacks, p[..|p|-1]);
      assert EdgeOf(before + own, n + 1, nodes, stacks, p);
    }
  }

  lemma {:induction false} LinesSay(nodes: Tree, stacks: seq<Stack>, order: seq<Stack>)
    requires stacks != [] && Keyed(nodes) && ParentsFirst(order, [])
    requires forall p :: p in order ==> p in nodes && (p != [] ==> nodes[p].value == p[|p|-1])
    ensures var lines := LinesOf(nodes, Under(stacks), |stacks|, order);
      && (forall p :: p in order ==> HasLines(lines, |lines|, nodes, stacks, p))
      && (forall i :: 0 <= i < |lines| ==> LineOfOne(lines, i, nodes, stacks))
  {
    if order != [] {
      var n := |order| - 1;
      var p := order[n];
      var before := LinesOf(nodes, Under(stacks), |stacks|, order[..n]);
      var own := LinesAt(nodes, Under(stacks), |stacks|, p);
      assert LinesOf(nodes, Under(stacks), |stacks|, order) == before + own;
      hide *;
      FewerParents(order);
      LinesSay(nodes, stacks, order[..n]);
      LinesAtSay(nodes, stacks, p);
      OwnLines(before, own, nodes, stacks, p);
      forall q | q in order ensures HasLines(before + own, |before + own|, nodes, stacks, q) {
        if q != p { HasLinesMore(before, own, |before|, |before + own|, nodes, stacks, q); }
      }
      forall i | 0 <= i < |before| ensures LineOfOne(before + own, i, nodes, stacks) {
        LineOfOneMore(before, own, i, nodes, stacks);
      }
    }
  }

  lemma FewerParents(order: seq<Stack>)
    requires order != [] && ParentsFirst(order, [])
    ensures ParentsFirst(order[..|order|-1], [])
    ensures var p := order[|order|-1]; p != [] ==> p[..|p|-1] in order[..|order|-1]
    ensures forall q :: q in order <==> q == order[|order|-1] || q in order[..|order|-1]
  {
    var n := |order| - 1;
    assert order == order[..n] + [order[n]];
    forall i | 0 <= i < n && order[i] != [] ensures Parent(order[i]) in order[..n][..i] {
      assert order[..n][..i] == order[..i];
    }
  }

  lemma LastFrames(nodes: Tree, p: Stack)
    requires Valid(nodes) && p in nodes && p != []
    ensures nodes[p].value == p[|p|-1]
  {
    var q := Parent(p);
    assert Branches(nodes, q, nodes[q].children);
    var k :| 0 <= k < |nodes[q].children| && nodes[q].children[k] == nodes[p];
    assert IsChild(nodes, q, nodes[q].children[k]);
  }

  lemma WrittenMeans(root: Node, nodes: Tree, shape: Shape, stacks: seq<Stack>, bound: nat)
    requires stacks != [] && Shows(root, nodes, stacks) && Shaped(nodes, shape) && Bounded(nodes, bound)
    ensures LinesMean(LinesOf(nodes, Under(stacks), |stacks|, Preorder(shape, [], bound)), nodes, stacks)
  {
    var order := Preorder(shape, [], bound);
    assert Valid(nodes) && Keyed(nodes) && OwnIndices(nodes);
    forall p | p in nodes && p != [] ensures nodes[p].value == p[|p|-1] { LastFrames(nodes, p); }
    hide *;
    EachNodeOnce(root, nodes, shape, stacks, bound);
    LinesSay(nodes, stacks, order);
    MeaningOf(LinesOf(nodes, Under(stacks), |stacks|, order), nodes, stacks);
  }

  lemma MeaningOf(lines: seq<Line>, nodes: Tree, stacks: seq<Stack>)
    requires forall p :: p in nodes ==> HasLines(lines, |lines|, nodes, stacks, p)
    requires forall i :: 0 <= i < |lines| ==> LineOfOne(lines, i, nodes, stacks)
    requires OwnIndices(nodes) && NamesNodes(lines)
    ensures LinesMean(lines, nodes, stacks)
  {
  }

  /** writegraph(root, f, root.count): afterwards each node's list is exactly the increasing list of the
      ranks whose stack extends its path, and the lines are those of all nodes in preorder. */
  method DrawGraph(root: Node, ghost nodes: Tree, ghost stacks: seq<Stack>)
    returns (outcome: Outcome, ghost shape: Shape, ghost bound: nat)
    requires MergedStacks(root, nodes, stacks)
    modifies RankLists(nodes)
    ensures outcome == DivisionByZero <==> stacks == []
    ensures outcome.DotFile? ==> Shows(root, nodes, stacks) && Shaped(nodes, shape) && Bounded(nodes, bound)
    ensures outcome.DotFile? ==>
      outcome.lines == LinesOf(nodes, Under(stacks), |stacks|, Preorder(shape, [], bound))
    ensures outcome.DotFile? ==> LinesMean(outcome.lines, nodes, stacks)
  {
    shape := ShapeOf(nodes);
    bound := PathBound(stacks);
    ghost var lists := RankLists(nodes);
    ghost var view := Under(stacks);
    BoundedPaths(nodes, stacks, bound);
    assert root.count == |stacks| && OwnIndices(nodes);
    hide *;
    if root.count == 0 {
      outcome := DivisionByZero;
    } else {
      var lines := WriteGraph(root, root.count, nodes, shape, view, lists, bound);
      WrittenShows(root, nodes, shape, stacks, lists);
      WrittenMeans(root, nodes, shape, stacks, bound);
      outcome := DotFile(lines);
    }
  }
}
