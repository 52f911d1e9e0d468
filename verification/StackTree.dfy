/** findUnique, Node, dotstacks and the graph writer of src/post-processing/zs-stacks.py, on the heap:
    nodes are updated in place, and rank lists are objects that nodes and the dictionary share. */
module StackTree {
  import opened StackSpec
  import opened RankRanges

  /** A Python list of ranks. */
  class RankList {
    var items: seq<int>

    constructor (items: seq<int>)
      ensures this.items == items
    {
      this.items := items;
    }

    method Append(x: int)
      modifies this
      ensures items == old(items) + [x]
    {
      items := items + [x];
    }

    method Sort()
      modifies this
      ensures items == Sorted(old(items))
    {
      items := Sorted(items);
    }
  }

  class Node {
    const value: Frame
    const index: nat
    ghost const path: Stack
    var children: seq<Node>
    var count: int
    var ranks: RankList

    constructor (value: Frame, count: int, ranks: RankList, index: nat, ghost path: Stack)
      ensures this.value == value && this.index == index && this.path == path
      ensures children == [] && this.count == count && this.ranks == ranks
    {
      this.value, this.index, this.path := value, index, path;
      this.children, this.count, this.ranks := [], count, ranks;
    }
  }

  /** The nodes of the tree, by path from the root. */
  type Tree = map<Stack, Node>

  ghost function Parent(p: Stack): Stack
    requires p != []
  {
    p[..|p|-1]
  }

  ghost predicate Keyed(nodes: Tree) {
    && [] in nodes
    && (forall p :: p in nodes ==> nodes[p].path == p)
    && (forall p :: p in nodes && p != [] ==> Parent(p) in nodes && nodes[Parent(p)].index < nodes[p].index)
  }

  /** `kids` are distinct siblings in the order they were made, and exactly the nodes one frame below p. */
  ghost predicate Branches(nodes: Tree, p: Stack, kids: seq<Node>) {
    && (forall i :: 0 <= i < |kids| ==> IsChild(nodes, p, kids[i]))
    && (forall i, j :: 0 <= i < j < |kids| ==> kids[i].value != kids[j].value && kids[i].index < kids[j].index)
    && (forall q :: q in nodes && q != [] && Parent(q) == p ==> nodes[q] in kids)
  }

  ghost predicate IsChild(nodes: Tree, p: Stack, c: Node) {
    c.path == p + [c.value] && c.path in nodes && nodes[c.path] == c
  }

  /** The children lists make exactly the paths of `nodes` into a tree. */
  ghost predicate Valid(nodes: Tree)
    reads nodes.Values`children
  {
    Keyed(nodes) && forall p :: p in nodes ==> Branches(nodes, p, nodes[p].children)
  }

  ghost function RankLists(nodes: Tree): set<RankList>
    reads nodes.Values`ranks
  {
    set n | n in nodes.Values :: n.ranks
  }

  /** Every node's rank list is what `view` says of its path, and its count is the length of that list;
      other paths have gathered nothing. */
  ghost predicate Holds(nodes: Tree, view: Stack -> seq<int>)
    reads nodes.Values`ranks, nodes.Values`count, RankLists(nodes)`items
  {
    && (forall p :: p in nodes ==> nodes[p].ranks.items == view(p) && nodes[p].count == |view(p)|)
    && (forall p :: p !in nodes ==> view(p) == [])
  }

  /** The view after path q has taken in a stack's ranks. */
  ghost function Joined(view: Stack -> seq<int>, q: Stack, ranks: seq<int>): Stack -> seq<int> {
    p => if p == q then view(p) + ranks else view(p)
  }

  /** The dictionary for these stacks: its keys in order of first occurrence, each with a list of its own. */
  ghost predicate Grouping(keys: seq<Stack>, uniques: map<Stack, RankList>, stacks: seq<Stack>)
    reads uniques.Values
  {
    && keys == Distinct(stacks)
    && (forall s :: s in uniques <==> s in stacks)
    && (forall s :: s in uniques ==> uniques[s].items == RanksOf(stacks, s))
    && (forall s, t :: s in uniques && t in uniques && s != t ==> uniques[s] != uniques[t])
  }

  /** uniques[s] = [] for a stack that is new. */
  method NewKey(s: Stack, keys: seq<Stack>, uniques: map<Stack, RankList>, ghost stacks: seq<Stack>)
    returns (keys': seq<Stack>, uniques': map<Stack, RankList>)
    requires Grouping(keys, uniques, stacks)
    ensures keys' == if s in stacks then keys else keys + [s]
    ensures forall k :: k in uniques' <==> k in stacks || k == s
    ensures forall k :: k in uniques' ==> uniques'[k].items == RanksOf(stacks, k)
    ensures forall k, t :: k in uniques' && t in uniques' && k != t ==> uniques'[k] != uniques'[t]
    ensures fresh(uniques'.Values - uniques.Values)
  {
    hide RanksOf, Distinct;
    keys', uniques' := keys, uniques;
    if s !in uniques {
      NoRanksOf(stacks, s);
      var empty := new RankList([]);
      uniques' := uniques[s := empty];
      keys' := keys + [s];
    }
  }

  /** One turn of the loop over the stacks. */
  method AddRank(s: Stack, index: int, keys: seq<Stack>, uniques: map<Stack, RankList>, ghost stacks: seq<Stack>)
    returns (keys': seq<Stack>, uniques': map<Stack, RankList>)
    requires Grouping(keys, uniques, stacks) && index == |stacks|
    modifies uniques.Values
    ensures Grouping(keys', uniques', stacks + [s])
    ensures fresh(uniques'.Values - uniques.Values)
  {
    DistinctNext(stacks, s);
    assert keys == Distinct(stacks);
    keys', uniques' := NewKey(s, keys, uniques, stacks);
    hide RanksOf, Distinct;
    uniques'[s].Append(index);
    forall k | k in uniques' ensures uniques'[k].items == RanksOf(stacks + [s], k) {
      RanksNext(stacks, s, k);
    }
  }

  /** findUnique: ranks grouped by stack, keys in order of first occurrence. */
  method FindUnique(stacks: seq<Stack>) returns (keys: seq<Stack>, uniques: map<Stack, RankList>)
    ensures keys == Distinct(stacks)
    ensures forall s :: s in uniques <==> s in stacks
    ensures forall s :: s in uniques ==> fresh(uniques[s]) && uniques[s].items == RanksOf(stacks, s)
    ensures forall s, t :: s in uniques && t in uniques && s != t ==> uniques[s] != uniques[t]
  {
    keys, uniques := [], map[];
    var index := 0;
    assert Grouping(keys, uniques, stacks[..0]);
    hide RanksOf, Distinct;
    while index < |stacks|
      invariant 0 <= index <= |stacks|
      invariant Grouping(keys, uniques, stacks[..index]) && fresh(uniques.Values)
    {
      hide *;
      assert stacks[..index+1] == stacks[..index] + [stacks[index]];
      keys, uniques := AddRank(stacks[index], index, keys, uniques, stacks[..index]);
      index := index + 1;
    }
    assert stacks[..index] == stacks;
    assert forall s :: s in uniques ==> uniques[s] in uniques.Values;
  }

  /** current_node.count and current_node.ranks take in one more stack; the sum is a new list object. */
  method Enter(c: Node, ranks: RankList, count: int, ghost nodes: Tree, ghost view: Stack -> seq<int>)
    requires Keyed(nodes) && Holds(nodes, view) && c.path in nodes && nodes[c.path] == c && count == |ranks.items|
    modifies c`count, c`ranks
    ensures Holds(nodes, Joined(view, c.path, ranks.items))
  {
    c.count := c.count + count;
    var joined := new RankList(c.ranks.items + ranks.items);
    c.ranks := joined;
    assert forall q :: q in nodes && q != c.path ==> nodes[q] != c;
  }

  /** A new node; it shares the stack's own rank list. */
  method NewLeaf(f: Frame, ranks: RankList, count: int, index: nat, ghost p: Stack,
                 ghost nodes: Tree, ghost view: Stack -> seq<int>) returns (leaf: Node)
    requires Holds(nodes, view) && count == |ranks.items| && p !in nodes
    ensures fresh(leaf) && leaf.ranks == ranks && leaf.index == index && leaf.value == f && leaf.path == p
    ensures leaf.children == [] && Holds(nodes[p := leaf], Joined(view, p, ranks.items))
  {
    leaf := new Node(f, count, ranks, index, p);
    assert [] + ranks.items == ranks.items;
  }

  ghost predicate Newest(nodes: Tree, leaf: Node) { forall p :: p in nodes ==> nodes[p].index < leaf.index }

  /** current_node.children.append(new_node) */
  method AppendChild(parent: Node, leaf: Node, ghost nodes: Tree)
    requires Valid(nodes) && parent.path in nodes && nodes[parent.path] == parent
    requires leaf.path == parent.path + [leaf.value] && leaf.path !in nodes && leaf.children == [] && leaf != parent
    requires Newest(nodes, leaf)
    modifies parent`children
    ensures Valid(nodes[leaf.path := leaf])
  {
    ghost var p := parent.path;
    ghost var nodes' := nodes[leaf.path := leaf];
    GrownKeyed(nodes, p, leaf);
    GrownAt(nodes, leaf, p, parent.children);
    assert forall x :: x in nodes && x != p ==> nodes[x] != parent;
    forall x | x in nodes && x != p ensures Branches(nodes', x, nodes[x].children) {
      GrownElsewhere(nodes, leaf, x, nodes[x].children);
    }
    hide Keyed, Branches;
    parent.children := parent.children + [leaf];
  }

  /** Appending a child leaves what the nodes have gathered alone. */
  method AppendChildKeeping(parent: Node, leaf: Node, ghost nodes: Tree, ghost view: Stack -> seq<int>)
    requires Valid(nodes) && parent.path in nodes && nodes[parent.path] == parent
    requires leaf.path == parent.path + [leaf.value] && leaf.path !in nodes && leaf.children == [] && leaf != parent
    requires Holds(nodes[leaf.path := leaf], view) && Newest(nodes, leaf)
    modifies parent`children
    ensures Valid(nodes[leaf.path := leaf]) && Holds(nodes[leaf.path := leaf], view)
  {
    hide Valid, Keyed, Branches, Newest;
    AppendChild(parent, leaf, nodes);
  }

  /** The one child whose value is f, or |kids| if there is none. */
  lemma MatchingChild(nodes: Tree, p: Stack, kids: seq<Node>, f: Frame) returns (at: nat)
    requires Keyed(nodes) && Branches(nodes, p, kids)
    ensures at <= |kids| && (at < |kids| <==> p + [f] in nodes)
    ensures at < |kids| ==> kids[at].path == p + [f] && nodes[p + [f]] == kids[at]
    ensures forall m :: 0 <= m < |kids| ==> (kids[m].value == f <==> m == at)
  {
    assert forall m :: 0 <= m < |kids| ==> IsChild(nodes, p, kids[m]) && kids[m].path[|p|] == kids[m].value;
    at := |kids|;
    if p + [f] in nodes {
      assert Parent(p + [f]) == p;
      at :| 0 <= at < |kids| && kids[at] == nodes[p + [f]];
    }
  }

  /** The scan over the children has no break, and moves to the match while it goes on through the old
      list; distinct siblings make that the only match. */
  method Scan(current: Node, f: Frame, ranks: RankList, count: int,
              ghost nodes: Tree, ghost view: Stack -> seq<int>, ghost q: Stack)
    returns (found: bool, next: Node)
    requires Valid(nodes) && Holds(nodes, view) && count == |ranks.items|
    requires current.path in nodes && nodes[current.path] == current && q == current.path + [f]
    modifies nodes.Values`count, nodes.Values`ranks
    ensures found == (q in nodes)
    ensures next == if found then nodes[q] else current
    ensures Holds(nodes, if found then Joined(view, q, ranks.items) else view)
  {
    var kids := current.children;
    assert Branches(nodes, current.path, kids);
    ghost var at := MatchingChild(nodes, current.path, kids, f);
    hide *;
    found, next := false, current;
    var i := 0;
    while i < |kids|
      invariant 0 <= i <= |kids|
      invariant found <==> at < i
      invariant next == (if found then nodes[q] else current)
      invariant Holds(nodes, if found then Joined(view, q, ranks.items) else view)
    {
      var c := kids[i];
      if f == c.value {
        next := c;
        Enter(next, ranks, count, nodes, view);
        found := true;
      }
      i := i + 1;
    }
  }

  ghost predicate OwnIndices(nodes: Tree) {
    forall p, q :: p in nodes && q in nodes && p != q ==> nodes[p].index != nodes[q].index
  }

  /** Node.total hands every node its own index. */
  ghost predicate Numbered(nodes: Tree, total: nat) {
    OwnIndices(nodes) && forall p :: p in nodes ==> nodes[p].index < total
  }

  /** The whole state of the merge: a well-formed, numbered tree that has gathered `view`. */
  ghost predicate Merged(root: Node, nodes: Tree, total: nat, view: Stack -> seq<int>)
    reads nodes.Values, RankLists(nodes)
  {
    Valid(nodes) && Holds(nodes, view) && Numbered(nodes, total) && nodes[[]] == root
  }

  ghost predicate Extended(nodes: Tree, nodes': Tree, q: Stack) { forall p :: p in nodes' <==> p in nodes || p == q }

  ghost predicate Walked(nodes: Tree, nodes': Tree, s: Stack) { forall p :: p in nodes' <==> p in nodes || p <= s }

  ghost predicate At(nodes: Tree, p: Stack, n: Node) { p in nodes && nodes[p] == n }

  lemma NumberedLeaf(nodes: Tree, total: nat, q: Stack, leaf: Node)
    requires Numbered(nodes, total) && q !in nodes && leaf.index == total
    ensures Numbered(nodes[q := leaf], total + 1) && Newest(nodes, leaf)
  {
  }

  /** One frame of a stack. */
  method Descend(root: Node, current: Node, f: Frame, ranks: RankList, count: int, total: nat,
                 ghost nodes: Tree, ghost view: Stack -> seq<int>, ghost q: Stack)
    returns (next: Node, total': nat, ghost nodes': Tree)
    requires Merged(root, nodes, total, view) && count == |ranks.items|
    requires At(nodes, current.path, current) && q == current.path + [f]
    modifies nodes.Values
    ensures Merged(root, nodes', total', Joined(view, q, ranks.items)) && At(nodes', q, next)
    ensures Extended(nodes, nodes', q)
    ensures fresh(nodes'.Values - nodes.Values)
  {
    hide Valid, Holds, Numbered, Keyed, Branches, Joined, Newest;
    assert q != [];
    var found;
    found, next := Scan(current, f, ranks, count, nodes, view, q);
    nodes', total' := nodes, total;
    if !found {
      next := NewLeaf(f, ranks, count, total, q, nodes, view);
      NumberedLeaf(nodes, total, q, next);
      AppendChildKeeping(current, next, nodes, Joined(view, q, ranks.items));
      nodes', total' := nodes[q := next], total + 1;
    }
  }

  lemma GrownKeyed(nodes: Tree, p: Stack, leaf: Node)
    requires Keyed(nodes) && p in nodes && leaf.path == p + [leaf.value] && leaf.path !in nodes && Newest(nodes, leaf)
    ensures Parent(leaf.path) == p
    ensures Keyed(nodes[leaf.path := leaf]) && Branches(nodes[leaf.path := leaf], leaf.path, [])
  {
    assert Parent(leaf.path) == p;
  }

  lemma GrownElsewhere(nodes: Tree, leaf: Node, x: Stack, kids: seq<Node>)
    requires Branches(nodes, x, kids) && leaf.path != [] && leaf.path !in nodes && Parent(leaf.path) != x
    ensures Branches(nodes[leaf.path := leaf], x, kids)
  {
    assert forall i :: 0 <= i < |kids| ==> IsChild(nodes, x, kids[i]);
  }

  lemma GrownAt(nodes: Tree, leaf: Node, p: Stack, kids: seq<Node>)
    requires Branches(nodes, p, kids) && leaf.path !in nodes && leaf.path == p + [leaf.value] && Newest(nodes, leaf)
    ensures Branches(nodes[leaf.path := leaf], p, kids + [leaf])
  {
    var more := kids + [leaf];
    assert forall i :: 0 <= i < |kids| ==> IsChild(nodes, p, kids[i]) && kids[i].value != leaf.value;
    assert more[|kids|] == leaf;
    assert forall i :: 0 <= i < |kids| ==> more[i] == kids[i] && IsChild(nodes, p, kids[i]);
    assert forall n :: n in kids ==> n in more;
  }

  // ---------------------------------------------------------------------------------------------
  // dotstacks.

  /** The view while stack s is being walked: its first j frames have taken in its ranks. */
  ghost function Partly(keys: seq<Stack>, lists: Stack -> seq<int>, s: Stack, j: nat): Stack -> seq<int>
    requires j <= |s|
  {
    p => Gather(keys, lists, p) + if p <= s[..j] then lists(s) else []
  }

  ghost function Gathered(keys: seq<Stack>, lists: Stack -> seq<int>): Stack -> seq<int> {
    p => Gather(keys, lists, p)
  }

  ghost predicate Agree(a: Stack -> seq<int>, b: Stack -> seq<int>) { forall p :: a(p) == b(p) }

  lemma SameView(nodes: Tree, a: Stack -> seq<int>, b: Stack -> seq<int>)
    requires Holds(nodes, a) && Agree(a, b)
    ensures Holds(nodes, b)
  {
  }

  lemma StartOfStack(keys: seq<Stack>, lists: Stack -> seq<int>, s: Stack)
    ensures Agree(Joined(Gathered(keys, lists), [], lists(s)), Partly(keys, lists, s, 0))
  {
    forall p ensures Joined(Gathered(keys, lists), [], lists(s))(p) == Partly(keys, lists, s, 0)(p) {
      assert p <= s[..0] <==> p == [];
      assert Gather(keys, lists, p) + [] == Gather(keys, lists, p);
    }
  }

  lemma NextFrame(keys: seq<Stack>, lists: Stack -> seq<int>, s: Stack, j: nat, q: Stack)
    requires j < |s| && q == s[..j+1]
    ensures Agree(Joined(Partly(keys, lists, s, j), q, lists(s)), Partly(keys, lists, s, j + 1))
  {
    PrefixStep(s, j, q);
    var after := Partly(keys, lists, s, j + 1);
    forall p ensures Joined(Partly(keys, lists, s, j), q, lists(s))(p) == after(p) {
      assert p <= q <==> p <= s[..j] || p == q;
      assert Gather(keys, lists, p) + [] == Gather(keys, lists, p);
    }
  }

  lemma EndOfStack(keys: seq<Stack>, lists: Stack -> seq<int>, s: Stack)
    ensures Agree(Partly(keys, lists, s, |s|), Gathered(keys + [s], lists))
  {
    assert s[..|s|] == s;
    assert (keys + [s])[..|keys|] == keys;
  }

  lemma PrefixStep(s: Stack, j: nat, q: Stack)
    requires j < |s| && q == s[..j+1]
    ensures q == s[..j] + [s[j]]
    ensures !(q <= s[..j])
    ensures forall p: Stack {:trigger |p|} :: p <= q <==> p <= s[..j] || p == q
  {
  }

  lemma WalkedFurther(nodes: Tree, middle: Tree, nodes': Tree, s: Stack, j: nat)
    requires j < |s| && Walked(nodes, middle, s[..j]) && Extended(middle, nodes', s[..j+1])
    ensures Walked(nodes, nodes', s[..j+1])
  {
    PrefixStep(s, j, s[..j+1]);
  }

  /** The tree `nodes`, grown from `first`, when stack s has been walked down to frame j. */
  ghost predicate Walking(root: Node, current: Node, first: Tree, nodes: Tree, total: nat,
                          keys: seq<Stack>, lists: Stack -> seq<int>, s: Stack, j: nat)
    reads nodes.Values, RankLists(nodes)
  {
    && j <= |s|
    && Merged(root, nodes, total, Partly(keys, lists, s, j))
    && At(nodes, s[..j], current)
    && Walked(first, nodes, s[..j])
  }

  /** The frame s[j], told in terms of the stacks walked so far. */
  method WalkFrame(root: Node, current: Node, s: Stack, j: nat, ranks: RankList, count: int, total: nat,
                   ghost first: Tree, ghost nodes: Tree, ghost keys: seq<Stack>, ghost lists: Stack -> seq<int>)
    returns (next: Node, total': nat, ghost nodes': Tree)
    requires j < |s| && HasRanks(ranks, count, lists(s))
    requires Walking(root, current, first, nodes, total, keys, lists, s, j)
    modifies nodes.Values
    ensures Walking(root, next, first, nodes', total', keys, lists, s, j + 1)
    ensures fresh(nodes'.Values - nodes.Values)
  {
    ghost var before, after, q := Partly(keys, lists, s, j), Partly(keys, lists, s, j + 1), s[..j+1];
    NextFrame(keys, lists, s, j, q);
    assert q == current.path + [s[j]] by { assert Keyed(nodes); PrefixStep(s, j, q); }
    assert At(nodes, current.path, current);
    hide Valid, Holds, Numbered, Keyed, Merged, Partly, Joined, Agree, At, Extended, Walked;
    next, total', nodes' := Descend(root, current, s[j], ranks, count, total, nodes, before, q);
    SameMerge(root, nodes', total', Joined(before, q, lists(s)), after);
    WalkedFurther(first, nodes, nodes', s, j);
  }

  lemma SameMerge(root: Node, nodes: Tree, total: nat, a: Stack -> seq<int>, b: Stack -> seq<int>)
    requires Merged(root, nodes, total, a) && Agree(a, b)
    ensures Merged(root, nodes, total, b)
  {
    hide Valid, Numbered;
  }

  /** The root takes in every stack. */
  method EnterRoot(root: Node, s: Stack, ranks: RankList, count: int, total: nat,
                   ghost nodes: Tree, ghost keys: seq<Stack>, ghost lists: Stack -> seq<int>)
    requires Merged(root, nodes, total, Gathered(keys, lists)) && HasRanks(ranks, count, lists(s))
    modifies root`count, root`ranks
    ensures Walking(root, root, nodes, nodes, total, keys, lists, s, 0)
  {
    RootAtStart(root, nodes, s);
    assert Keyed(nodes) && root.path == [];
    StartOfStack(keys, lists, s);
    hide Holds, Keyed, Branches, Gathered, Partly, Joined, Numbered, At, Walked;
    Enter(root, ranks, count, nodes, Gathered(keys, lists));
    SameView(nodes, Joined(Gathered(keys, lists), [], lists(s)), Partly(keys, lists, s, 0));
  }

  /** The loop over the frames of one stack. */
  method WalkStack(root: Node, s: Stack, ranks: RankList, count: int, total: nat,
                   ghost nodes: Tree, ghost keys: seq<Stack>, ghost lists: Stack -> seq<int>)
    returns (total': nat, ghost nodes': Tree)
    requires Walking(root, root, nodes, nodes, total, keys, lists, s, 0) && HasRanks(ranks, count, lists(s))
    modifies nodes.Values
    ensures Merged(root, nodes', total', Gathered(keys + [s], lists)) && Walked(nodes, nodes', s)
    ensures fresh(nodes'.Values - nodes.Values)
  {
    hide *;
    var current := root;
    nodes', total' := nodes, total;
    for j := 0 to |s|
      invariant HasRanks(ranks, count, lists(s))
      invariant Walking(root, current, nodes, nodes', total', keys, lists, s, j)
      invariant fresh(nodes'.Values - nodes.Values)
    {
      current, total', nodes' := WalkFrame(root, current, s, j, ranks, count, total', nodes, nodes', keys, lists);
    }
    FullyWalked(root, current, nodes, nodes', total', keys, lists, s);
  }

  ghost predicate HasRanks(ranks: RankList, count: int, items: seq<int>)
    reads ranks
  {
    ranks.items == items && count == |items|
  }

  /** The body of the loop over the stacks. */
  method AddStack(root: Node, s: Stack, ranks: RankList, total: nat,
                  ghost nodes: Tree, ghost keys: seq<Stack>, ghost lists: Stack -> seq<int>)
    returns (total': nat, ghost nodes': Tree)
    requires Merged(root, nodes, total, Gathered(keys, lists)) && ranks.items == lists(s)
    modifies nodes.Values
    ensures Merged(root, nodes', total', Gathered(keys + [s], lists)) && Walked(nodes, nodes', s)
    ensures fresh(nodes'.Values - nodes.Values)
  {
    var count := |ranks.items|;
    assert root in nodes.Values;
    hide Merged, Walking, Walked, Valid, Holds, Gathered;
    EnterRoot(root, s, ranks, count, total, nodes, keys, lists);
    total', nodes' := WalkStack(root, s, ranks, count, total, nodes, keys, lists);
  }

  lemma FullyWalked(root: Node, current: Node, first: Tree, nodes: Tree, total: nat,
                    keys: seq<Stack>, lists: Stack -> seq<int>, s: Stack)
    requires Walking(root, current, first, nodes, total, keys, lists, s, |s|)
    ensures Merged(root, nodes, total, Gathered(keys + [s], lists)) && Walked(first, nodes, s)
  {
    EndOfStack(keys, lists, s);
    hide Valid, Holds, Numbered, Keyed, Merged, Partly, Gathered, Agree, At, Walked;
    SameMerge(root, nodes, total, Partly(keys, lists, s, |s|), Gathered(keys + [s], lists));
    assert s[..|s|] == s;
  }

  lemma RootAtStart(root: Node, nodes: Tree, s: Stack)
    requires Keyed(nodes) && nodes[[]] == root
    ensures At(nodes, s[..0], root) && s[..|s|] == s
    ensures Walked(nodes, nodes, s[..0])
  {
    assert s[..0] == [];
  }

  ghost predicate PathsAre(nodes: Tree, keys: seq<Stack>) { forall p :: p in nodes <==> IsPath(keys, p) }

  lemma OneMoreKey(nodes: Tree, nodes': Tree, keys: seq<Stack>, s: Stack)
    requires PathsAre(nodes, keys) && Walked(nodes, nodes', s)
    ensures PathsAre(nodes', keys + [s])
  {
    forall p ensures IsPath(keys + [s], p) <==> IsPath(keys, p) || p <= s {
      assert (keys + [s])[|keys|] == s;
      assert forall i :: 0 <= i < |keys| ==> (keys + [s])[i] == keys[i];
    }
  }

  /** Node('root', 0, []) */
  method NewRoot(name: Frame, ghost lists: Stack -> seq<int>) returns (root: Node, ghost nodes: Tree)
    ensures Merged(root, nodes, 1, Gathered([], lists)) && PathsAre(nodes, []) && root.value == name
    ensures fresh(nodes.Values)
  {
    var empty := new RankList([]);
    root := new Node(name, 0, empty, 0, []);
    nodes := map[[] := root];
  }

  ghost predicate HasLists(keys: seq<Stack>, uniques: map<Stack, RankList>, lists: Stack -> seq<int>)
    reads uniques.Values
  {
    forall k :: k in keys ==> k in uniques && uniques[k].items == lists(k)
  }

  /** The tree after the first k keys. */
  ghost predicate MergedKeys(root: Node, nodes: Tree, total: nat, keys: seq<Stack>, lists: Stack -> seq<int>, k: nat)
    reads nodes.Values, RankLists(nodes)
  {
    k <= |keys| && Merged(root, nodes, total, Gathered(keys[..k], lists)) && PathsAre(nodes, keys[..k])
  }

  /** `ranks = stacks[s]` and the rest of the loop body. */
  method AddKey(root: Node, keys: seq<Stack>, uniques: map<Stack, RankList>, k: nat, total: nat,
                ghost nodes: Tree, ghost lists: Stack -> seq<int>)
    returns (total': nat, ghost nodes': Tree)
    requires k < |keys| && HasLists(keys, uniques, lists) && MergedKeys(root, nodes, total, keys, lists, k)
    modifies nodes.Values
    ensures MergedKeys(root, nodes', total', keys, lists, k + 1)
    ensures fresh(nodes'.Values - nodes.Values)
  {
    hide Merged, PathsAre, Gathered;
    assert keys[..k+1] == keys[..k] + [keys[k]];
    total', nodes' := AddStack(root, keys[k], uniques[keys[k]], total, nodes, keys[..k], lists);
    OneMoreKey(nodes, nodes', keys[..k], keys[k]);
  }

  /** The loop over the stacks. */
  method AddKeys(root: Node, keys: seq<Stack>, uniques: map<Stack, RankList>, total: nat,
                 ghost nodes: Tree, ghost lists: Stack -> seq<int>)
    returns (total': nat, ghost nodes': Tree)
    requires HasLists(keys, uniques, lists) && MergedKeys(root, nodes, total, keys, lists, 0)
    modifies nodes.Values
    ensures MergedKeys(root, nodes', total', keys, lists, |keys|)
    ensures fresh(nodes'.Values - nodes.Values)
  {
    hide MergedKeys;
    total', nodes' := total, nodes;
    for k := 0 to |keys|
      invariant HasLists(keys, uniques, lists)
      invariant MergedKeys(root, nodes', total', keys, lists, k)
      invariant fresh(nodes'.Values - nodes.Values)
    {
      total', nodes' := AddKey(root, keys, uniques, k, total', nodes', lists);
    }
  }

  /** dotstacks: the tree's paths are the root and the prefixes of the keys, and each node has gathered
      the ranks of the keys that extend its path. */
  method DotStacks(keys: seq<Stack>, uniques: map<Stack, RankList>, rootName: Frame, ghost lists: Stack -> seq<int>)
    returns (root: Node, total: nat, ghost nodes: Tree)
    requires HasLists(keys, uniques, lists)
    ensures Merged(root, nodes, total, Gathered(keys, lists)) && PathsAre(nodes, keys) && root.value == rootName
    ensures fresh(nodes.Values)
  {
    assert keys[..0] == [] && keys[..|keys|] == keys;
    hide Merged, PathsAre, Gathered;
    root, nodes := NewRoot(rootName, lists);
    total, nodes := AddKeys(root, keys, uniques, 1, nodes, lists);
  }
}
