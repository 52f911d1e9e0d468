/** The topology tree of src/hwloc.cpp, the cache collapse, and the JSON value that stands for the result. */
module Topology {
  import opened Decimal
  import opened Json

  datatype Kind =
    | L1Cache | L2Cache | L3Cache | L4Cache | L5Cache | L1ICache | L2ICache | L3ICache
    | Core | PU | OtherKind

  datatype Option<T> = None | Some(value: T)

  /** An hwloc object: what buildJSON reads of it, and its four lists of children. `typeText` is what
      hwloc_obj_type_string gives, `detail` what getDetailName gives. */
  datatype Object = Object(
    kind: Kind, typeText: string, subtype: Option<string>, name: Option<string>,
    logicalIndex: nat, osIndex: nat, detail: string,
    memory: seq<Object>, normal: seq<Object>, io: seq<Object>, misc: seq<Object>)

  /** A cache that only one object uses. */
  predicate Unshared(t: Object) {
    && |t.normal| == 1 && |t.memory| == 0 && |t.io| == 0 && |t.misc| == 0
    && t.kind != Core && t.kind != PU && t.kind != OtherKind
  }

  /** The tree without its unshared caches. */
  function Collapse(t: Object): (r: Object)
    decreases t, 0
  {
    if Unshared(t) then Collapse(t.normal[0])
    else t.(memory := CollapseAll(t.memory), normal := CollapseAll(t.normal), io := CollapseAll(t.io),
        misc := CollapseAll(t.misc))
  }

  function CollapseAll(ts: seq<Object>): (r: seq<Object>)
    ensures |r| == |ts|
    decreases ts, 0
  {
    if ts == [] then [] else CollapseAll(ts[..|ts|-1]) + [Collapse(ts[|ts|-1])]
  }

  /** The objects without children beneath t, from left to right. */
  function Leaves(t: Object): seq<Object>
    decreases t, 1
  {
    if |t.memory| + |t.normal| + |t.io| + |t.misc| == 0 then [t]
    else LeavesAll(t.memory) + LeavesAll(t.normal) + LeavesAll(t.io) + LeavesAll(t.misc)
  }

  function LeavesAll(ts: seq<Object>): seq<Object>
    decreases ts, 0
  {
    if ts == [] then [] else LeavesAll(ts[..|ts|-1]) + Leaves(ts[|ts|-1])
  }

  /** No unshared cache anywhere in the tree. */
  predicate Collapsed(t: Object)
    decreases t, 1
  {
    !Unshared(t) && CollapsedAll(t.memory) && CollapsedAll(t.normal) && CollapsedAll(t.io) && CollapsedAll(t.misc)
  }

  predicate CollapsedAll(ts: seq<Object>)
    decreases ts, 0
  {
    ts == [] || (CollapsedAll(ts[..|ts|-1]) && Collapsed(ts[|ts|-1]))
  }

  /** The eight kinds that are caches. */
  const CACHES := {L1Cache, L2Cache, L3Cache, L4Cache, L5Cache, L1ICache, L2ICache, L3ICache}

  /** An object without its children. */
  function Alone(t: Object): Object { t.(memory := [], normal := [], io := [], misc := []) }

  /** The objects that are not caches, each before those beneath it, without their children. */
  function NonCaches(t: Object): seq<Object>
    decreases t, 1
  {
    (if t.kind in CACHES then [] else [Alone(t)])
    + NonCachesAll(t.memory) + NonCachesAll(t.normal) + NonCachesAll(t.io) + NonCachesAll(t.misc)
  }

  function NonCachesAll(ts: seq<Object>): seq<Object>
    decreases ts, 0
  {
    if ts == [] then [] else NonCachesAll(ts[..|ts|-1]) + NonCaches(ts[|ts|-1])
  }

  // ---------------------------------------------------------------------------------------------
  // The collapse is sound.

  /** What is skipped: caches of which all children together are one normal child. */
  lemma UnsharedExactly(t: Object)
    ensures Unshared(t) <==>
      t.kind in CACHES && exists c :: t.normal == [c] && t.memory + t.normal + t.io + t.misc == [c]
  {
    var all := t.memory + t.normal + t.io + t.misc;
    assert |all| == |t.memory| + |t.normal| + |t.io| + |t.misc|;
    if Unshared(t) {
      assert t.normal == [t.normal[0]] && all == [t.normal[0]];
    }
  }

  /** The collapse drops nothing but caches. */
  lemma {:induction false} CollapseKeepsOthers(t: Object)
    ensures NonCaches(Collapse(t)) == NonCaches(t)
    decreases t, 1
  {
    if Unshared(t) {
      CollapseKeepsOthers(t.normal[0]);
      OnlyOne(t.normal[0]);
      assert t.normal == [t.normal[0]] && t.kind in CACHES;
    } else {
      CollapseAllKeepsOthers(t.memory);
      CollapseAllKeepsOthers(t.normal);
      CollapseAllKeepsOthers(t.io);
      CollapseAllKeepsOthers(t.misc);
      assert Alone(Collapse(t)) == Alone(t);
    }
  }

  lemma OnlyOne(c: Object)
    ensures [] + NonCachesAll([]) + NonCachesAll([c]) + NonCachesAll([]) + NonCachesAll([]) == NonCaches(c)
  {
    hide NonCaches;
    assert [c][..0] == [];
  }

  lemma {:induction false} CollapseAllKeepsOthers(ts: seq<Object>)
    ensures NonCachesAll(CollapseAll(ts)) == NonCachesAll(ts)
    decreases ts, 0
  {
    hide NonCaches, Collapse;
    if ts != [] {
      var n := |ts| - 1;
      CollapseAllKeepsOthers(ts[..n]);
      CollapseKeepsOthers(ts[n]);
      assert CollapseAll(ts)[..n] == CollapseAll(ts[..n]);
    }
  }

  lemma {:induction false} CollapseKeepsLeaves(t: Object)
    ensures Leaves(Collapse(t)) == Leaves(t)
    decreases t, 1
  {
    if Unshared(t) {
      CollapseKeepsLeaves(t.normal[0]);
      assert t.normal[..0] == [];
      assert LeavesAll(t.normal) == LeavesAll([]) + Leaves(t.normal[0]);
    } else {
      CollapseAllKeepsLeaves(t.memory);
      CollapseAllKeepsLeaves(t.normal);
      CollapseAllKeepsLeaves(t.io);
      CollapseAllKeepsLeaves(t.misc);
    }
  }

  lemma {:induction false} CollapseAllKeepsLeaves(ts: seq<Object>)
    ensures LeavesAll(CollapseAll(ts)) == LeavesAll(ts)
    decreases ts, 0
  {
    if ts != [] {
      var n := |ts| - 1;
      CollapseAllKeepsLeaves(ts[..n]);
      CollapseKeepsLeaves(ts[n]);
      assert CollapseAll(ts)[..n] == CollapseAll(ts[..n]);
    }
  }

  lemma {:induction false} CollapseCollapses(t: Object)
    ensures Collapsed(Collapse(t))
    decreases t, 1
  {
    if Unshared(t) {
      CollapseCollapses(t.normal[0]);
    } else {
      CollapseAllCollapses(t.memory);
      CollapseAllCollapses(t.normal);
      CollapseAllCollapses(t.io);
      CollapseAllCollapses(t.misc);
    }
  }

  lemma {:induction false} CollapseAllCollapses(ts: seq<Object>)
    ensures CollapsedAll(CollapseAll(ts))
    decreases ts, 0
  {
    if ts != [] {
      var n := |ts| - 1;
      CollapseAllCollapses(ts[..n]);
      CollapseCollapses(ts[n]);
      assert CollapseAll(ts)[..n] == CollapseAll(ts[..n]);
    }
  }

  /** A tree without unshared caches is left alone, and only such a tree. */
  lemma {:induction false} CollapseFixed(t: Object)
    requires Collapsed(t)
    ensures Collapse(t) == t
    decreases t, 1
  {
    CollapseAllFixed(t.memory);
    CollapseAllFixed(t.normal);
    CollapseAllFixed(t.io);
    CollapseAllFixed(t.misc);
  }

  lemma {:induction false} CollapseAllFixed(ts: seq<Object>)
    requires CollapsedAll(ts)
    ensures CollapseAll(ts) == ts
    decreases ts, 0
  {
    if ts != [] {
      CollapseAllFixed(ts[..|ts|-1]);
      CollapseFixed(ts[|ts|-1]);
    }
  }

  /** Dropping unshared caches keeps the leaves in order, leaves no such cache, and is idempotent;
      what it leaves alone is exactly a tree without them. */
  lemma CollapseIsSound(t: Object)
    ensures Leaves(Collapse(t)) == Leaves(t) && NonCaches(Collapse(t)) == NonCaches(t)
    ensures Collapsed(Collapse(t))
    ensures Collapse(Collapse(t)) == Collapse(t)
    ensures Collapse(t) == t <==> Collapsed(t)
  {
    CollapseKeepsLeaves(t);
    CollapseKeepsOthers(t);
    CollapseCollapses(t);
    CollapseFixed(Collapse(t));
    if Collapsed(t) { CollapseFixed(t); }
  }
}
