/** The graph writer of src/post-processing/zs-stacks.py, which sorts the shared rank lists as it goes, and the
    order in which it names the nodes. */
module StackGraph {
  import opened StackSpec
  import opened RankRanges
  import opened StackTree

  /** The lines of graph.dot, before formatting: `share` is node.count / total. */
  datatype Line =
    | NodeLine(index: nat, value: Frame, share: real)
    | EdgeLine(parent: nat, child: nat, count: int, ranges: seq<Interval>)

  // ---------------------------------------------------------------------------------------------
  // Sorting in place.

  /** Sorting may have rearranged any list, but the lists of the paths in `done` are in order. */
  ghost predicate Settled(nodes: Tree, view: Stack -> seq<int>, done: iset<Stack>)
    reads nodes.Values, RankLists(nodes)
  {
    forall p :: p in nodes ==>
      && Permuted(nodes[p].ranks.items, view(p)) && nodes[p].count == |view(p)|
      && (p in done ==> nodes[p].ranks.items == Sorted(view(p)))
  }

  lemma SortKeeps(items: seq<int>, own: seq<int>)
    requires Permuted(items, own)
    ensures Sorted(items) == Sorted(own) && Permuted(Sorted(items), own)
    ensures items == Sorted(own) ==> Sorted(items) == items
  {
    SortedPermuted(items, own);
    SortedIs(items);
    if items == Sorted(own) {
      SortedIs(own);
      OrderedUnique(Sorted(items), items);
    }
  }

  lemma SortKeepsAll(nodes: Tree, view: Stack -> seq<int>, done: iset<Stack>)
    requires Settled(nodes, view, done)
    ensures forall p :: p in nodes ==>
      && Sorted(nodes[p].ranks.items) == Sorted(view(p)) && Permuted(Sorted(nodes[p].ranks.items), view(p))
      && (nodes[p].ranks.items == Sorted(view(p)) ==> Sorted(nodes[p].ranks.items) == nodes[p].ranks.items)
  {
    hide Permuted, Sorted;
    forall p | p in nodes
      ensures Sorted(nodes[p].ranks.items) == Sorted(view(p)) && Permuted(Sorted(nodes[p].ranks.items), view(p))
      ensures nodes[p].ranks.items == Sorted(view(p)) ==> Sorted(nodes[p].ranks.items) == nodes[p].ranks.items
    {
      SortKeeps(nodes[p].ranks.items, view(p));
    }
  }

  /** For every path of a tree, the frames of its children in order. */
  type Shape = map<Stack, seq<Frame>>

  ghost function FramesOf(kids: seq<Node>): seq<Frame> {
    seq(|kids|, i requires 0 <= i < |kids| => kids[i].value)
  }

  ghost function ShapeOf(nodes: Tree): Shape
    reads nodes.Values`children
  {
    map p | p in nodes :: FramesOf(nodes[p].children)
  }

  ghost predicate Shaped(nodes: Tree, shape: Shape)
    reads nodes.Values`children
  {
    && (forall p :: p in shape <==> p in nodes)
    && (forall p :: p in nodes ==> shape[p] == FramesOf(nodes[p].children))
  }

  /** The tree while it is being written: still well formed and of the same shape, the lists of `done`
      sorted; `lists` are the list objects its nodes use. */
  ghost predicate Writing(nodes: Tree, shape: Shape, view: Stack -> seq<int>, done: iset<Stack>, lists: set<RankList>)
    reads nodes.Values, RankLists(nodes)
  {
    && Valid(nodes) && Shaped(nodes, shape) && Settled(nodes, view, done)
    && forall p :: p in nodes ==> nodes[p].ranks in lists
  }

  /** Sorting one list keeps what is known of all of them. */
  method SortList(child: Node, ghost nodes: Tree, ghost view: Stack -> seq<int>, ghost done: iset<Stack>)
    requires Settled(nodes, view, done) && At(nodes, child.path, child)
    modifies child.ranks
    ensures child.ranks.items == Sorted(view(child.path)) && child.count == |view(child.path)|
    ensures Settled(nodes, view, done + iset{child.path})
  {
    SortKeepsAll(nodes, view, done);
    hide Permuted, Sorted;
    child.ranks.Sort();
  }

  /** child.ranks.sort(): every node that shares the list object gets it sorted too, and keeps its ranks. */
  method SortRanks(child: Node, ghost nodes: Tree, ghost shape: Shape, ghost view: Stack -> seq<int>,
                   ghost done: iset<Stack>, ghost lists: set<RankList>)
    requires Writing(nodes, shape, view, done, lists) && At(nodes, child.path, child)
    modifies lists
    ensures child.ranks.items == Sorted(view(child.path)) && child.count == |view(child.path)|
    ensures Writing(nodes, shape, view, done + iset{child.path}, lists)
  {
    hide Permuted, Sorted, Valid, Shaped, Settled;
    SortList(child, nodes, view, done);
  }

  // ---------------------------------------------------------------------------------------------
  // What is to be written.

  function Share(count: int, total: int): real
    requires total != 0
  {
    count as real / total as real
  }

  /** The lines of the node at p: the node, and the edge from its parent, which the root does not have. */
  ghost function LinesAt(nodes: Tree, view: Stack -> seq<int>, total: int, p: Stack): seq<Line> {
    if total == 0 || p !in nodes then []
    else
      var line := NodeLine(nodes[p].index, nodes[p].value, Share(|view(p)|, total));
      if p == [] || Parent(p) !in nodes then [line]
      else [line, EdgeLine(nodes[Parent(p)].index, nodes[p].index, |view(p)|, Ranges(Sorted(view(p))))]
  }

  ghost function LinesOf(nodes: Tree, view: Stack -> seq<int>, total: int, order: seq<Stack>): seq<Line> {
    if order == [] then []
    else LinesOf(nodes, view, total, order[..|order|-1]) + LinesAt(nodes, view, total, order[|order|-1])
  }

  lemma {:induction false} LinesConcat(nodes: Tree, view: Stack -> seq<int>, total: int, a: seq<Stack>, b: seq<Stack>)
    ensures LinesOf(nodes, view, total, a + b) == LinesOf(nodes, view, total, a) + LinesOf(nodes, view, total, b)
    decreases |b|
  {
    if b == [] {
      assert a + b == a;
    } else {
      var n := |b| - 1;
      assert (a + b)[..|a + b| - 1] == a + b[..n];
      LinesConcat(nodes, view, total, a, b[..n]);
      hide LinesAt;
    }
  }

  /** The path p and everything below it, each node before its children and these in their order; `depth`
      is how many more frames may follow p. */
  ghost function Preorder(shape: Shape, p: Stack, depth: nat): seq<Stack>
    decreases depth, 0
  {
    if depth == 0 || p !in shape then [p] else [p] + PreorderKids(shape, p, shape[p], depth)
  }

  /** The part of it below the children of p with these frames. */
  ghost function PreorderKids(shape: Shape, p: Stack, frames: seq<Frame>, depth: nat): seq<Stack>
    requires depth > 0
    decreases depth - 1, |frames| + 1
  {
    if frames == [] then []
    else PreorderKids(shape, p, frames[..|frames|-1], depth) + Preorder(shape, p + [frames[|frames|-1]], depth - 1)
  }

  // ---------------------------------------------------------------------------------------------
  // Writing.

  ghost predicate AgreeOn(nodes: Tree, a: iset<Stack>, b: iset<Stack>) {
    forall q :: q in nodes ==> (q in a <==> q in b)
  }

  ghost predicate Extends(q: Stack, p: Stack) { p <= q }

  ghost function Below(p: Stack): iset<Stack> { iset q: Stack | Extends(q, p) }

  ghost function StrictlyBelow(p: Stack): iset<Stack> { iset q: Stack | Extends(q, p) && q != p }

  /** The paths below the first i of these siblings. */
  ghost function BelowKids(kids: seq<Node>, i: nat): iset<Stack>
    requires i <= |kids|
  {
    iset q: Stack | BelowOne(q, kids, i)
  }

  ghost predicate BelowOne(q: Stack, kids: seq<Node>, i: nat)
    requires i <= |kids|
  {
    exists k :: 0 <= k < i && Extends(q, kids[k].path)
  }

  lemma {:induction false} PrefixClosed(nodes: Tree, q: Stack, n: nat)
    requires Keyed(nodes) && q in nodes && n <= |q|
    ensures q[..n] in nodes
    decreases |q|
  {
    if n < |q| {
      PrefixClosed(nodes, Parent(q), n);
      assert Parent(q)[..n] == q[..n];
    } else {
      assert q[..n] == q;
    }
  }

  lemma BelowSome(nodes: Tree, p: Stack, kids: seq<Node>, q: Stack)
    requires Keyed(nodes) && Branches(nodes, p, kids) && q in nodes && Extends(q, p) && q != p
    ensures BelowOne(q, kids, |kids|)
  {
    var c := q[..|p|+1];
    PrefixClosed(nodes, q, |p| + 1);
    assert Parent(c) == p && nodes[c].path == c;
    hide Keyed;
    var k :| 0 <= k < |kids| && kids[k] == nodes[c];
    assert Extends(q, kids[k].path);
  }

  lemma SomeBelow(nodes: Tree, p: Stack, kids: seq<Node>, q: Stack)
    requires Branches(nodes, p, kids) && BelowOne(q, kids, |kids|)
    ensures Extends(q, p) && q != p
  {
    var k :| 0 <= k < |kids| && Extends(q, kids[k].path);
    assert IsChild(nodes, p, kids[k]);
  }

  /** The nodes strictly below p are those below one of its children. */
  lemma KidsCover(nodes: Tree, p: Stack, kids: seq<Node>)
    requires Keyed(nodes) && Branches(nodes, p, kids)
    ensures AgreeOn(nodes, BelowKids(kids, |kids|), StrictlyBelow(p))
  {
    hide Keyed, Branches, BelowOne, Extends;
    forall q | q in nodes ensures q in BelowKids(kids, |kids|) <==> q in StrictlyBelow(p) {
      if Extends(q, p) && q != p { BelowSome(nodes, p, kids, q); }
      if BelowOne(q, kids, |kids|) { SomeBelow(nodes, p, kids, q); }
    }
  }

  lemma OneMoreKid(nodes: Tree, done: iset<Stack>, kids: seq<Node>, i: nat)
    requires i < |kids|
    ensures AgreeOn(nodes, done + BelowKids(kids, i) + Below(kids[i].path), done + BelowKids(kids, i + 1))
  {
    assert BelowKids(kids, i) + Below(kids[i].path) == BelowKids(kids, i + 1);
  }

  ghost predicate Bounded(nodes: Tree, bound: nat) { forall p :: p in nodes ==> |p| <= bound }

  /** writenode and writeedge for one node. */
  method WriteNode(parent: Node, node: Node, total: int, ghost nodes: Tree, ghost shape: Shape,
                   ghost view: Stack -> seq<int>, ghost done: iset<Stack>, ghost lists: set<RankList>)
    returns (out: seq<Line>)
    requires Writing(nodes, shape, view, done, lists) && total != 0
    requires At(nodes, node.path, node) && node.path != [] && At(nodes, Parent(node.path), parent)
    modifies lists
    ensures Writing(nodes, shape, view, done + iset{node.path}, lists)
    ensures out == LinesAt(nodes, view, total, node.path)
  {
    ghost var q := node.path;
    assert q in nodes && nodes[q] == node && Parent(q) in nodes && nodes[Parent(q)] == parent;
    assert LinesAt(nodes, view, total, q) ==
      [NodeLine(node.index, node.value, Share(|view(q)|, total)),
       EdgeLine(parent.index, node.index, |view(q)|, Ranges(Sorted(view(q))))];
    hide *;
    SortRanks(node, nodes, shape, view, done, lists);
    var first := NodeLine(node.index, node.value, Share(node.count, total));
    var second := EdgeLine(parent.index, node.index, node.count, Ranges(node.ranks.items));
    out := [first, second];
  }

  lemma WritingSame(nodes: Tree, shape: Shape, view: Stack -> seq<int>, a: iset<Stack>, b: iset<Stack>,
                    lists: set<RankList>)
    requires Writing(nodes, shape, view, a, lists) && AgreeOn(nodes, a, b)
    ensures Writing(nodes, shape, view, b, lists)
  {
    hide Valid, Permuted, Sorted, Shaped;
  }

  /** A child of the node at p is one frame deeper. */
  ghost predicate KidAt(nodes: Tree, p: Stack, parent: Node, kid: Node, bound: nat) {
    && At(nodes, kid.path, kid) && kid.path != [] && At(nodes, Parent(kid.path), parent)
    && kid.path == p + [kid.value] && |kid.path| <= bound
  }

  lemma KidFacts(nodes: Tree, shape: Shape, p: Stack, parent: Node, kids: seq<Node>, bound: nat)
    requires Valid(nodes) && Shaped(nodes, shape)
    requires At(nodes, p, parent) && kids == parent.children && Bounded(nodes, bound)
    ensures p in shape && shape[p] == FramesOf(kids)
    ensures forall i :: 0 <= i < |kids| ==> KidAt(nodes, p, parent, kids[i], bound)
    ensures AgreeOn(nodes, BelowKids(kids, |kids|), StrictlyBelow(p))
  {
    assert Branches(nodes, p, kids);
    KidsCover(nodes, p, kids);
    forall i | 0 <= i < |kids| ensures KidAt(nodes, p, parent, kids[i], bound) {
      assert IsChild(nodes, p, kids[i]);
      assert Parent(kids[i].path) == p;
    }
  }

  lemma NoKidsYet(nodes: Tree, done: iset<Stack>, kids: seq<Node>)
    ensures AgreeOn(nodes, done, done + BelowKids(kids, 0))
  {
  }

  lemma AllKids(nodes: Tree, p: Stack, done: iset<Stack>, kids: seq<Node>)
    requires AgreeOn(nodes, BelowKids(kids, |kids|), StrictlyBelow(p))
    ensures AgreeOn(nodes, done + BelowKids(kids, |kids|), done + StrictlyBelow(p))
  {
  }

  /** What writing the first i children gives; without children there may be no frame left to go down. */
  ghost function KidsLines(nodes: Tree, shape: Shape, view: Stack -> seq<int>, total: int, p: Stack,
                           frames: seq<Frame>, depth: nat): seq<Line>
    requires frames != [] ==> depth > 0
  {
    if frames == [] then [] else LinesOf(nodes, view, total, PreorderKids(shape, p, frames, depth))
  }

  lemma NextKid(nodes: Tree, shape: Shape, view: Stack -> seq<int>, total: int, p: Stack, kids: seq<Node>, i: nat,
                depth: nat)
    requires i < |kids| && depth > 0
    ensures FramesOf(kids)[..i+1][..i] == FramesOf(kids)[..i]
    ensures KidsLines(nodes, shape, view, total, p, FramesOf(kids)[..i+1], depth) ==
      KidsLines(nodes, shape, view, total, p, FramesOf(kids)[..i], depth)
      + LinesOf(nodes, view, total, Preorder(shape, p + [kids[i].value], depth - 1))
  {
    var frames := FramesOf(kids)[..i+1];
    assert frames[..i] == FramesOf(kids)[..i] && frames[i] == kids[i].value;
    assert PreorderKids(shape, p, frames, depth) ==
      PreorderKids(shape, p, frames[..i], depth) + Preorder(shape, p + [frames[i]], depth - 1);
    assert i == 0 ==> PreorderKids(shape, p, frames[..i], depth) == [] && LinesOf(nodes, view, total, []) == [];
    hide Preorder, PreorderKids, LinesOf, LinesAt;
    LinesConcat(nodes, view, total, PreorderKids(shape, p, frames[..i], depth),
        Preorder(shape, p + [frames[i]], depth - 1));
  }

  /** What the loop over the children of the node at p relies on and does not change. */
  ghost predicate KidsOf(nodes: Tree, shape: Shape, p: Stack, parent: Node, kids: seq<Node>, bound: nat) {
    && Bounded(nodes, bound) && |p| <= bound && (kids != [] ==> |p| < bound)
    && p in shape && shape[p] == FramesOf(kids)
    && (forall i :: 0 <= i < |kids| ==> KidAt(nodes, p, parent, kids[i], bound))
    && AgreeOn(nodes, BelowKids(kids, |kids|), StrictlyBelow(p))
  }

  /** The lines of the first i children. */
  ghost function LinesBefore(nodes: Tree, shape: Shape, view: Stack -> seq<int>, total: int, p: Stack,
                             parent: Node, kids: seq<Node>, i: nat, bound: nat): seq<Line>
    requires KidsOf(nodes, shape, p, parent, kids, bound) && i <= |kids|
  {
    KidsLines(nodes, shape, view, total, p, FramesOf(kids)[..i], bound - |p|)
  }

  /** The state of that loop when the first i children are written. */
  ghost predicate KidsWritten(nodes: Tree, shape: Shape, view: Stack -> seq<int>, total: int, p: Stack, parent: Node,
                              kids: seq<Node>, i: nat, out: seq<Line>, done: iset<Stack>, lists: set<RankList>,
                              bound: nat)
    reads nodes.Values, RankLists(nodes)
  {
    && KidsOf(nodes, shape, p, parent, kids, bound) && i <= |kids|
    && Writing(nodes, shape, view, done + BelowKids(kids, i), lists)
    && out == LinesBefore(nodes, shape, view, total, p, parent, kids, i, bound)
  }

  lemma KidsOfNode(nodes: Tree, shape: Shape, p: Stack, parent: Node, kids: seq<Node>, bound: nat)
    requires Valid(nodes) && Shaped(nodes, shape) && At(nodes, p, parent) && kids == parent.children
    requires Bounded(nodes, bound) && |p| <= bound
    ensures KidsOf(nodes, shape, p, parent, kids, bound)
  {
    hide Valid, Shaped, Bounded, KidAt, AgreeOn, BelowKids, StrictlyBelow, At;
    KidFacts(nodes, shape, p, parent, kids, bound);
    if kids != [] { KidIsNode(nodes, p, parent, kids[0], bound); }
  }

  lemma NoLinesYet(nodes: Tree, shape: Shape, view: Stack -> seq<int>, total: int, p: Stack, parent: Node,
                   kids: seq<Node>, done: iset<Stack>, lists: set<RankList>, bound: nat)
    requires KidsOf(nodes, shape, p, parent, kids, bound)
    requires Writing(nodes, shape, view, done + BelowKids(kids, 0), lists)
    ensures KidsWritten(nodes, shape, view, total, p, parent, kids, 0, [], done, lists, bound)
  {
    hide KidsOf, Writing, BelowKids, FramesOf;
    assert FramesOf(kids)[..0] == [];
  }

  /** Before the loop over node.children. */
  lemma KidsReady(nodes: Tree, shape: Shape, view: Stack -> seq<int>, total: int, p: Stack, parent: Node,
                  kids: seq<Node>, done: iset<Stack>, lists: set<RankList>, bound: nat)
    requires Writing(nodes, shape, view, done, lists) && At(nodes, p, parent) && kids == parent.children
    requires Bounded(nodes, bound) && |p| <= bound
    ensures KidsWritten(nodes, shape, view, total, p, parent, kids, 0, [], done, lists, bound)
  {
    assert Valid(nodes) && Shaped(nodes, shape);
    hide *;
    KidsOfNode(nodes, shape, p, parent, kids, bound);
    NoKidsYet(nodes, done, kids);
    WritingSame(nodes, shape, view, done, done + BelowKids(kids, 0), lists);
    NoLinesYet(nodes, shape, view, total, p, parent, kids, done, lists, bound);
  }

  /** When it has one more child to write. */
  lemma KidReady(nodes: Tree, shape: Shape, view: Stack -> seq<int>, total: int, p: Stack, parent: Node,
                 kids: seq<Node>, i: nat, out: seq<Line>, done: iset<Stack>, lists: set<RankList>, bound: nat)
    requires KidsWritten(nodes, shape, view, total, p, parent, kids, i, out, done, lists, bound) && i < |kids|
    ensures KidsOf(nodes, shape, p, parent, kids, bound) && Bounded(nodes, bound) && |p| < bound
    ensures KidAt(nodes, p, parent, kids[i], bound)
    ensures Writing(nodes, shape, view, done + BelowKids(kids, i), lists)
    ensures out == LinesBefore(nodes, shape, view, total, p, parent, kids, i, bound)
  {
    hide KidAt, Writing, Bounded, AgreeOn, LinesBefore, BelowKids;
  }

  /** When that child is written. */
  lemma KidDone(nodes: Tree, shape: Shape, view: Stack -> seq<int>, total: int, p: Stack, parent: Node,
                kids: seq<Node>, i: nat, out: seq<Line>, done: iset<Stack>, lists: set<RankList>, bound: nat,
                text: seq<Line>)
    requires KidsOf(nodes, shape, p, parent, kids, bound) && i < |kids| && |p| < bound
    requires Writing(nodes, shape, view, done + BelowKids(kids, i + 1), lists)
    requires out == LinesBefore(nodes, shape, view, total, p, parent, kids, i, bound)
    requires text == LinesOf(nodes, view, total, Preorder(shape, p + [kids[i].value], bound - |p| - 1))
    ensures KidsWritten(nodes, shape, view, total, p, parent, kids, i + 1, out + text, done, lists, bound)
  {
    hide KidsOf, Writing, LinesOf, Preorder, KidsLines, BelowKids;
    NextKid(nodes, shape, view, total, p, kids, i, bound - |p|);
  }

  /** After the loop. */
  lemma KidsFinished(nodes: Tree, shape: Shape, view: Stack -> seq<int>, total: int, p: Stack, parent: Node,
                     kids: seq<Node>, out: seq<Line>, done: iset<Stack>, lists: set<RankList>, bound: nat)
    requires KidsWritten(nodes, shape, view, total, p, parent, kids, |kids|, out, done, lists, bound)
    ensures Writing(nodes, shape, view, done + StrictlyBelow(p), lists)
    ensures p in shape && |p| <= bound && (shape[p] != [] ==> bound > |p|)
    ensures out == KidsLines(nodes, shape, view, total, p, shape[p], bound - |p|)
  {
    assert FramesOf(kids)[..|kids|] == FramesOf(kids);
    hide Writing, KidsLines, KidAt, Bounded, AgreeOn, BelowKids;
    AllKids(nodes, p, done, kids);
    WritingSame(nodes, shape, view, done + BelowKids(kids, |kids|), done + StrictlyBelow(p), lists);
  }

  /** The loop over node.children. */
  method WriteChildren(node: Node, total: int, ghost nodes: Tree, ghost shape: Shape, ghost view: Stack -> seq<int>,
                       ghost done: iset<Stack>, ghost lists: set<RankList>, ghost bound: nat)
    returns (out: seq<Line>)
    requires Writing(nodes, shape, view, done, lists) && total != 0 && At(nodes, node.path, node)
    requires Bounded(nodes, bound) && |node.path| <= bound
    modifies lists
    ensures Writing(nodes, shape, view, done + StrictlyBelow(node.path), lists)
    ensures node.path in shape && (shape[node.path] != [] ==> bound > |node.path|)
    ensures out == KidsLines(nodes, shape, view, total, node.path, shape[node.path], bound - |node.path|)
    decreases bound - |node.path|, 0
  {
    hide *;
    var kids := node.children;
    ghost var p := node.path;
    out := [];
    KidsReady(nodes, shape, view, total, p, node, kids, done, lists, bound);
    for i := 0 to |kids|
      invariant KidsWritten(nodes, shape, view, total, p, node, kids, i, out, done, lists, bound)
    {
      out := WriteNextChild(node, kids, i, out, total, nodes, shape, view, done, lists, p, bound);
    }
    KidsFinished(nodes, shape, view, total, p, node, kids, out, done, lists, bound);
  }

  /** One turn of that loop. */
  method WriteNextChild(node: Node, kids: seq<Node>, i: nat, before: seq<Line>, total: int, ghost nodes: Tree,
                        ghost shape: Shape, ghost view: Stack -> seq<int>, ghost done: iset<Stack>,
                        ghost lists: set<RankList>, ghost p: Stack, ghost bound: nat)
    returns (out: seq<Line>)
    requires KidsWritten(nodes, shape, view, total, p, node, kids, i, before, done, lists, bound)
    requires i < |kids| && total != 0
    modifies lists
    ensures KidsWritten(nodes, shape, view, total, p, node, kids, i + 1, out, done, lists, bound)
    decreases bound - |p| - 1, 2
  {
    hide *;
    ghost var part := done + BelowKids(kids, i);
    KidReady(nodes, shape, view, total, p, node, kids, i, before, done, lists, bound);
    KidIsNode(nodes, p, node, kids[i], bound);
    var text := WriteChild(node, kids[i], total, nodes, shape, view, part, lists, bound);
    OneMoreKid(nodes, done, kids, i);
    WritingSame(nodes, shape, view, part + Below(kids[i].path), done + BelowKids(kids, i + 1), lists);
    KidDone(nodes, shape, view, total, p, node, kids, i, before, done, lists, bound, text);
    out := before + text;
  }

  lemma SelfFirst(nodes: Tree, shape: Shape, view: Stack -> seq<int>, total: int, p: Stack, depth: nat)
    requires p in shape && (shape[p] != [] ==> depth > 0)
    ensures LinesOf(nodes, view, total, Preorder(shape, p, depth)) ==
      LinesAt(nodes, view, total, p) + KidsLines(nodes, shape, view, total, p, shape[p], depth)
  {
    var kids := if shape[p] == [] then [] else PreorderKids(shape, p, shape[p], depth);
    assert Preorder(shape, p, depth) == [p] + kids;
    assert [p][..0] == [] && LinesOf(nodes, view, total, []) == [];
    assert LinesOf(nodes, view, total, [p]) == LinesAt(nodes, view, total, p);
    hide LinesOf, LinesAt, Preorder, PreorderKids;
    LinesConcat(nodes, view, total, [p], kids);
  }

  /** writechild */
  method WriteChild(parent: Node, node: Node, total: int, ghost nodes: Tree, ghost shape: Shape,
                    ghost view: Stack -> seq<int>, ghost done: iset<Stack>, ghost lists: set<RankList>,
                    ghost bound: nat)
    returns (out: seq<Line>)
    requires Writing(nodes, shape, view, done, lists) && total != 0 && Bounded(nodes, bound)
    requires node.path != [] && At(nodes, node.path, node) && At(nodes, Parent(node.path), parent)
    requires |node.path| <= bound
    modifies lists
    ensures Writing(nodes, shape, view, done + Below(node.path), lists)
    ensures out == LinesOf(nodes, view, total, Preorder(shape, node.path, bound - |node.path|))
    decreases bound - |node.path|, 1
  {
    hide *;
    ghost var q := node.path;
    ghost var here := done + iset{q};
    out := WriteNode(parent, node, total, nodes, shape, view, done, lists);
    var rest := WriteChildren(node, total, nodes, shape, view, here, lists, bound);
    SelfAndBelow(nodes, done, q);
    WritingSame(nodes, shape, view, here + StrictlyBelow(q), done + Below(q), lists);
    SelfFirst(nodes, shape, view, total, q, bound - |q|);
    out := out + rest;
  }

  lemma KidIsNode(nodes: Tree, p: Stack, parent: Node, node: Node, bound: nat)
    requires KidAt(nodes, p, parent, node, bound)
    ensures node.path != [] && At(nodes, node.path, node) && At(nodes, Parent(node.path), parent)
    ensures node.path == p + [node.value] && |node.path| == |p| + 1 <= bound
  {
  }

  lemma SelfAndBelow(nodes: Tree, done: iset<Stack>, q: Stack)
    ensures AgreeOn(nodes, done + iset{q} + StrictlyBelow(q), done + Below(q))
  {
  }

  /** writegraph: the lines of all nodes in preorder. The root's own list is the one that stays unsorted. */
  method WriteGraph(root: Node, total: int, ghost nodes: Tree, ghost shape: Shape, ghost view: Stack -> seq<int>,
                    ghost lists: set<RankList>, ghost bound: nat)
    returns (out: seq<Line>)
    requires Writing(nodes, shape, view, iset{}, lists) && total != 0 && At(nodes, [], root) && Bounded(nodes, bound)
    modifies lists
    ensures Writing(nodes, shape, view, StrictlyBelow([]), lists)
    ensures out == LinesOf(nodes, view, total, Preorder(shape, [], bound))
  {
    hide *;
    var first := NodeLine(root.index, root.value, Share(root.count, total));
    RootLine(root, nodes, shape, view, total, first, lists);
    ghost var none: iset<Stack> := iset{};
    NothingBefore(nodes, none);
    var rest := WriteChildren(root, total, nodes, shape, view, none, lists, bound);
    WritingSame(nodes, shape, view, none + StrictlyBelow([]), StrictlyBelow([]), lists);
    SelfFirst(nodes, shape, view, total, [], bound);
    out := [first] + rest;
  }

  lemma RootLine(root: Node, nodes: Tree, shape: Shape, view: Stack -> seq<int>, total: int, line: Line,
                 lists: set<RankList>)
    requires Writing(nodes, shape, view, iset{}, lists) && total != 0 && At(nodes, [], root)
    requires line == NodeLine(root.index, root.value, Share(root.count, total))
    ensures LinesAt(nodes, view, total, []) == [line] && root.path == []
  {
    assert Keyed(nodes);
    hide Share, Ranges, Sorted, Permuted, Valid, Shaped;
  }

  lemma NothingBefore(nodes: Tree, none: iset<Stack>)
    requires none == iset{}
    ensures AgreeOn(nodes, none + StrictlyBelow([]), StrictlyBelow([]))
  {
  }

  // ---------------------------------------------------------------------------------------------
  // The preorder.

  /** A shape is closed under parents and children, and siblings differ. */
  ghost predicate TreeShape(shape: Shape) {
    && (forall p, i, j :: p in shape && 0 <= i < j < |shape[p]| ==> shape[p][i] != shape[p][j])
    && (forall p, i :: p in shape && 0 <= i < |shape[p]| ==> p + [shape[p][i]] in shape)
    && (forall q, p :: q in shape && p in shape && p < q ==> q[|p|] in shape[p])
  }

  lemma ShapeIsTree(nodes: Tree, shape: Shape)
    requires Valid(nodes) && Shaped(nodes, shape)
    ensures TreeShape(shape)
  {
    forall p, i | p in shape && 0 <= i < |shape[p]| ensures p + [shape[p][i]] in shape {
      assert Branches(nodes, p, nodes[p].children);
      assert IsChild(nodes, p, nodes[p].children[i]);
    }
    forall p, i, j | p in shape && 0 <= i < j < |shape[p]| ensures shape[p][i] != shape[p][j] {
      assert Branches(nodes, p, nodes[p].children);
    }
    forall q, p | q in shape && p in shape && p < q ensures q[|p|] in shape[p] {
      PrefixClosed(nodes, q, |p| + 1);
      FrameOfChild(nodes, shape, p, q[..|p|+1]);
    }
  }

  lemma FrameOfChild(nodes: Tree, shape: Shape, p: Stack, c: Stack)
    requires Valid(nodes) && Shaped(nodes, shape) && p in nodes && c in nodes && p < c && |c| == |p| + 1
    ensures c[|p|] in shape[p]
  {
    var kids := nodes[p].children;
    assert Branches(nodes, p, kids) && Parent(c) == p;
    var k :| 0 <= k < |kids| && kids[k] == nodes[c];
    assert IsChild(nodes, p, kids[k]) && shape[p][k] == c[|p|];
  }

  ghost predicate Once(order: seq<Stack>) { forall i, j :: 0 <= i < j < |order| ==> order[i] != order[j] }

  /** Every path but `top` comes after its parent. */
  ghost predicate ParentsFirst(order: seq<Stack>, top: Stack) {
    forall i :: 0 <= i < |order| && order[i] != top ==> order[i] != [] && Parent(order[i]) in order[..i]
  }

  ghost predicate ShapeBounded(shape: Shape, bound: nat) { forall q :: q in shape ==> |q| <= bound }

  /** The list holds exactly the paths of the shape that extend p. */
  ghost predicate Lists(order: seq<Stack>, shape: Shape, p: Stack) { forall q :: q in order <==> q in shape && p <= q }

  ghost predicate UnderFrames(q: Stack, p: Stack, frames: seq<Frame>) { p < q && q[|p|] in frames }

  ghost predicate ListsKids(kids: seq<Stack>, shape: Shape, p: Stack, frames: seq<Frame>) {
    forall q :: q in kids <==> q in shape && UnderFrames(q, p, frames)
  }

  ghost predicate AfterParents(kids: seq<Stack>, p: Stack) {
    forall i :: 0 <= i < |kids| ==> kids[i] != [] && (Parent(kids[i]) == p || Parent(kids[i]) in kids[..i])
  }

  lemma ListsOnlyTop(shape: Shape, p: Stack)
    requires p in shape && ShapeBounded(shape, |p|)
    ensures Lists([p], shape, p) && Once([p]) && ParentsFirst([p], p)
  {
    forall q | q in shape && p <= q ensures q == p {
      assert |q| <= |p|;
    }
  }

  lemma TopFirst(kids: seq<Stack>, shape: Shape, p: Stack)
    requires TreeShape(shape) && p in shape && ListsKids(kids, shape, p, shape[p])
    ensures Lists([p] + kids, shape, p) && p !in kids
  {
    forall q ensures q in [p] + kids <==> q in shape && p <= q {
      assert p <= q <==> p == q || p < q;
      assert q in [p] + kids <==> q == p || q in kids;
    }
  }

  lemma OnceBelowTop(kids: seq<Stack>, p: Stack)
    requires p !in kids && Once(kids)
    ensures Once([p] + kids)
  {
    var order := [p] + kids;
    forall i, j | 0 <= i < j < |order| ensures order[i] != order[j] {
      assert order[j] == kids[j-1];
      if i > 0 { assert order[i] == kids[i-1]; }
    }
  }

  lemma ParentBelowTop(kids: seq<Stack>, p: Stack, i: nat)
    requires 0 < i <= |kids| && kids[i-1] != [] && (Parent(kids[i-1]) == p || Parent(kids[i-1]) in kids[..i-1])
    ensures ([p] + kids)[i] == kids[i-1] && Parent(kids[i-1]) in ([p] + kids)[..i]
  {
    hide Parent;
    assert ([p] + kids)[..i] == [p] + kids[..i-1];
  }

  lemma ParentsBelowTop(kids: seq<Stack>, p: Stack)
    requires AfterParents(kids, p)
    ensures ParentsFirst([p] + kids, p)
  {
    var order := [p] + kids;
    forall i | 0 <= i < |order| && order[i] != p ensures order[i] != [] && Parent(order[i]) in order[..i] {
      assert i > 0 && kids[i-1] != [] && (Parent(kids[i-1]) == p || Parent(kids[i-1]) in kids[..i-1]);
      hide Parent;
      ParentBelowTop(kids, p, i);
    }
  }

  lemma {:induction false} PreorderLists(shape: Shape, p: Stack, depth: nat)
    requires TreeShape(shape) && p in shape && ShapeBounded(shape, |p| + depth)
    ensures var order := Preorder(shape, p, depth); Lists(order, shape, p) && Once(order) && ParentsFirst(order, p)
    decreases depth, 0
  {
    if depth == 0 {
      assert Preorder(shape, p, depth) == [p];
      hide *;
      ListsOnlyTop(shape, p);
    } else {
      var kids := PreorderKids(shape, p, shape[p], depth);
      assert Preorder(shape, p, depth) == [p] + kids;
      SiblingsOf(shape, p);
      hide *;
      KidsList(shape, p, shape[p], depth);
      TopFirst(kids, shape, p);
      OnceBelowTop(kids, p);
      ParentsBelowTop(kids, p);
    }
  }

  /** Different frames, each leading to a path of the shape. */
  ghost predicate Siblings(shape: Shape, p: Stack, frames: seq<Frame>) {
    && (forall i :: 0 <= i < |frames| ==> p + [frames[i]] in shape)
    && (forall i, j :: 0 <= i < j < |frames| ==> frames[i] != frames[j])
  }

  lemma SiblingsOf(shape: Shape, p: Stack)
    requires TreeShape(shape) && p in shape
    ensures Siblings(shape, p, shape[p])
  {
  }

  lemma FewerSiblings(shape: Shape, p: Stack, frames: seq<Frame>)
    requires Siblings(shape, p, frames) && frames != []
    ensures var n := |frames| - 1;
      Siblings(shape, p, frames[..n]) && p + [frames[n]] in shape && frames[n] !in frames[..n]
  {
  }

  /** The paths below the children of p with these frames. */
  lemma {:induction false} KidsList(shape: Shape, p: Stack, frames: seq<Frame>, depth: nat)
    requires TreeShape(shape) && p in shape && depth > 0 && ShapeBounded(shape, |p| + depth)
    requires Siblings(shape, p, frames)
    ensures var kids := PreorderKids(shape, p, frames, depth);
      ListsKids(kids, shape, p, frames) && Once(kids) && AfterParents(kids, p)
    decreases depth - 1, |frames| + 1
  {
    hide *;
    if frames == [] {
      NoKidsListed(shape, p, depth);
    } else {
      var n := |frames| - 1;
      var f := frames[n];
      var a, b := PreorderKids(shape, p, frames[..n], depth), Preorder(shape, p + [f], depth - 1);
      KidsUnfold(shape, p, frames, depth);
      FewerSiblings(shape, p, frames);
      assert |p + [f]| + (depth - 1) == |p| + depth;
      KidsList(shape, p, frames[..n], depth);
      PreorderLists(shape, p + [f], depth - 1);
      KidsAndMore(a, b, shape, p, frames);
      JoinLists(a, b, p, f);
    }
  }

  lemma NoKidsListed(shape: Shape, p: Stack, depth: nat)
    requires depth > 0
    ensures var kids := PreorderKids(shape, p, [], depth);
      ListsKids(kids, shape, p, []) && Once(kids) && AfterParents(kids, p)
  {
  }

  lemma KidsUnfold(shape: Shape, p: Stack, frames: seq<Frame>, depth: nat)
    requires depth > 0 && frames != []
    ensures PreorderKids(shape, p, frames, depth) ==
      PreorderKids(shape, p, frames[..|frames|-1], depth) + Preorder(shape, p + [frames[|frames|-1]], depth - 1)
  {
  }

  lemma KidsAndMore(a: seq<Stack>, b: seq<Stack>, shape: Shape, p: Stack, frames: seq<Frame>)
    requires frames != [] && frames[|frames|-1] !in frames[..|frames|-1]
    requires ListsKids(a, shape, p, frames[..|frames|-1]) && Lists(b, shape, p + [frames[|frames|-1]])
    ensures ListsKids(a + b, shape, p, frames) && forall q :: q in a ==> q !in b
  {
    var f := frames[|frames|-1];
    forall q: Stack
      ensures q in a + b <==> q in shape && UnderFrames(q, p, frames)
      ensures q in a ==> q !in b
    {
      ExtendsBy(p, f, q);
      if p < q { InLast(frames, q[|p|]); }
    }
  }

  lemma JoinLists(a: seq<Stack>, b: seq<Stack>, p: Stack, f: Frame)
    requires Once(a) && Once(b) && ParentsFirst(b, p + [f]) && forall q :: q in a ==> q !in b
    requires AfterParents(a, p)
    ensures Once(a + b) && AfterParents(a + b, p)
  {
    var kids := a + b;
    forall i, j | 0 <= i < j < |kids| ensures kids[i] != kids[j] {
      if i < |a| <= j { assert kids[i] in a && kids[j] in b; }
    }
    forall i | 0 <= i < |kids| ensures kids[i] != [] && (Parent(kids[i]) == p || Parent(kids[i]) in kids[..i]) {
      if i < |a| {
        assert kids[..i] == a[..i];
      } else {
        assert kids[..i] == a + b[..i-|a|] && kids[i] == b[i-|a|];
        if b[i-|a|] == p + [f] { assert Parent(p + [f]) == p; }
      }
    }
  }

  /** In the order of the tree q comes before r: it is above r, or below an earlier child of the same path. */
  ghost predicate Before(shape: Shape, q: Stack, r: Stack) {
    q < r || exists p, i, j :: BelowEarlier(shape, p, i, j, q, r)
  }

  ghost predicate BelowEarlier(shape: Shape, p: Stack, i: int, j: int, q: Stack, r: Stack) {
    p in shape && 0 <= i < j < |shape[p]| && p + [shape[p][i]] <= q && p + [shape[p][j]] <= r
  }

  ghost predicate InOrder(order: seq<Stack>, shape: Shape) {
    forall a, b :: 0 <= a < b < |order| ==> Before(shape, order[a], order[b])
  }

  lemma TopInOrder(shape: Shape, p: Stack, kids: seq<Stack>)
    requires p in shape && InOrder(kids, shape) && ListsKids(kids, shape, p, shape[p])
    ensures InOrder([p] + kids, shape)
  {
    hide Before;
    var order := [p] + kids;
    forall a, b | 0 <= a < b < |order| ensures Before(shape, order[a], order[b]) {
      assert order[b] == kids[b-1];
      if a > 0 {
        assert order[a] == kids[a-1];
      } else {
        assert kids[b-1] in kids && p < kids[b-1];
        AboveIsBefore(shape, p, kids[b-1]);
      }
    }
  }

  lemma AboveIsBefore(shape: Shape, q: Stack, r: Stack)
    requires q < r
    ensures Before(shape, q, r)
  {
  }

  lemma EarlierIsBefore(shape: Shape, p: Stack, n: nat, q: Stack, r: Stack)
    requires p in shape && n < |shape[p]| && UnderFrames(q, p, shape[p][..n]) && p + [shape[p][n]] <= r
    ensures Before(shape, q, r)
  {
    var i :| 0 <= i < n && shape[p][i] == q[|p|];
    assert p + [shape[p][i]] <= q;
    assert BelowEarlier(shape, p, i, n, q, r);
  }

  lemma JoinInOrder(shape: Shape, p: Stack, n: nat, a: seq<Stack>, b: seq<Stack>)
    requires p in shape && n < |shape[p]| && InOrder(a, shape) && InOrder(b, shape)
    requires ListsKids(a, shape, p, shape[p][..n]) && Lists(b, shape, p + [shape[p][n]])
    ensures InOrder(a + b, shape)
  {
    hide Before, UnderFrames;
    var order := a + b;
    forall x, y | 0 <= x < y < |order| ensures Before(shape, order[x], order[y]) {
      if x < |a| <= y {
        assert order[x] in a && order[y] in b;
        EarlierIsBefore(shape, p, n, order[x], order[y]);
      }
    }
  }

  lemma NoKidsInOrder(shape: Shape, p: Stack, depth: nat)
    requires depth > 0
    ensures InOrder(PreorderKids(shape, p, [], depth), shape)
  {
  }

  lemma FirstSiblings(shape: Shape, p: Stack, n: nat)
    requires p in shape && n < |shape[p]| && Siblings(shape, p, shape[p])
    ensures Siblings(shape, p, shape[p][..n]) && p + [shape[p][n]] in shape
  {
  }

  lemma {:induction false} PreorderInOrder(shape: Shape, p: Stack, depth: nat)
    requires TreeShape(shape) && p in shape && ShapeBounded(shape, |p| + depth)
    ensures InOrder(Preorder(shape, p, depth), shape)
    decreases depth, 0
  {
    if depth == 0 {
      assert Preorder(shape, p, depth) == [p];
    } else {
      assert Preorder(shape, p, depth) == [p] + PreorderKids(shape, p, shape[p], depth);
      assert shape[p][..|shape[p]|] == shape[p];
      SiblingsOf(shape, p);
      hide *;
      KidsList(shape, p, shape[p], depth);
      KidsInOrder(shape, p, |shape[p]|, depth);
      TopInOrder(shape, p, PreorderKids(shape, p, shape[p], depth));
    }
  }

  lemma {:induction false} KidsInOrder(shape: Shape, p: Stack, n: nat, depth: nat)
    requires TreeShape(shape) && p in shape && depth > 0 && ShapeBounded(shape, |p| + depth)
    requires n <= |shape[p]| && Siblings(shape, p, shape[p])
    ensures InOrder(PreorderKids(shape, p, shape[p][..n], depth), shape)
    decreases depth - 1, n + 1
  {
    hide *;
    if n == 0 {
      assert shape[p][..0] == [];
      NoKidsInOrder(shape, p, depth);
    } else {
      var frames := shape[p][..n];
      assert frames[..n-1] == shape[p][..n-1] && frames[n-1] == shape[p][n-1];
      FirstSiblings(shape, p, n - 1);
      KidsUnfold(shape, p, frames, depth);
      KidsInOrder(shape, p, n - 1, depth);
      assert |p + [frames[n-1]]| + (depth - 1) == |p| + depth;
      KidsList(shape, p, frames[..n-1], depth);
      PreorderLists(shape, p + [frames[n-1]], depth - 1);
      PreorderInOrder(shape, p + [frames[n-1]], depth - 1);
      JoinInOrder(shape, p, n - 1, PreorderKids(shape, p, frames[..n-1], depth),
          Preorder(shape, p + [frames[n-1]], depth - 1));
    }
  }

  lemma FirstIsTop(shape: Shape, p: Stack, depth: nat)
    ensures Preorder(shape, p, depth) != [] && Preorder(shape, p, depth)[0] == p
  {
  }
}
