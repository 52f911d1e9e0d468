/** Reading the topology file back: what a consumer of the JSON text sees. */
module TopologyReadBack {
  import opened Decimal
  import opened Json
  import opened Topology
  import opened TopologyJson

  /** The information in one node of the file. */
  datatype Shown = Shown(name: string, utilization: Option<int>, rank: Option<int>, detail: string, depth: int,
                         size: int, children: seq<Shown>)

  /** What the file should show of a tree: depths rise by one, sizes count leaves, children stay in order. */
  function View(t: Object, depth: int): Shown
    decreases t, 1
  {
    Shown(FullName(t), Some(0), Some(-1), t.detail, depth, Size(t),
          ViewAll(t.memory, depth + 1) + ViewAll(t.normal, depth + 1) + ViewAll(t.io, depth + 1) +
              ViewAll(t.misc, depth + 1))
  }

  function ViewAll(ts: seq<Object>, depth: int): seq<Shown>
    decreases ts, 0
  {
    if ts == [] then [] else ViewAll(ts[..|ts|-1], depth) + [View(ts[|ts|-1], depth)]
  }

  /** A consumer: looks up members by key. */
  function Lookup(ms: seq<Member>, key: string): Option<Json> {
    if ms == [] then None else if ms[0].key == key then Some(ms[0].value) else Lookup(ms[1..], key)
  }

  function TextOf(j: Option<Json>): string { if j.Some? && j.value.Str? then j.value.text else "" }
  function NumberOf(j: Option<Json>): int { if j.Some? && j.value.Num? then j.value.n else 0 }

  function FoundNumber(j: Option<Json>): Option<int> {
    if j.Some? && j.value.Num? then Some(j.value.n) else None
  }

  function ReadNode(j: Json): Shown
    decreases j, 1
  {
    if j.Obj? then
      var ms := j.members;
      Shown(TextOf(Lookup(ms, "name")), FoundNumber(Lookup(ms, "utilization")), FoundNumber(Lookup(ms, "rank")),
            TextOf(Lookup(ms, "detail_name")), NumberOf(Lookup(ms, "depth")), NumberOf(Lookup(ms, "size")),
            ReadChildren(ms))
    else Shown("", None, None, "", 0, 0, [])
  }

  function ReadChildren(ms: seq<Member>): seq<Shown>
    decreases ms, 0
  {
    if ms == [] then []
    else if ms[0].key == "children" then ReadList(ms[0].value)
    else ReadChildren(ms[1..])
  }

  function ReadList(j: Json): seq<Shown>
    decreases j, 0
  {
    if j.Arr? then ReadNodes(j.items) else []
  }

  function ReadNodes(js: seq<Json>): seq<Shown>
    decreases js, 0
  {
    if js == [] then [] else ReadNodes(js[..|js|-1]) + [ReadNode(js[|js|-1])]
  }

  lemma {:induction false} ReadNodesConcat(a: seq<Json>, b: seq<Json>)
    ensures ReadNodes(a + b) == ReadNodes(a) + ReadNodes(b)
    decreases |b|
  {
    hide ReadNode;
    if b == [] {
      assert a + b == a;
    } else {
      var n := |b| - 1;
      assert (a + b)[..|a + b| - 1] == a + b[..n];
      ReadNodesConcat(a, b[..n]);
    }
  }

  lemma {:induction false} LookupAt(ms: seq<Member>, key: string, i: nat)
    requires i < |ms| && ms[i].key == key && forall k :: 0 <= k < i ==> ms[k].key != key
    ensures Lookup(ms, key) == Some(ms[i].value)
  {
    if i > 0 { LookupAt(ms[1..], key, i - 1); }
  }

  lemma {:induction false} ChildrenAt(ms: seq<Member>, i: nat)
    requires i < |ms| && ms[i].key == "children" && forall k :: 0 <= k < i ==> ms[k].key != "children"
    ensures ReadChildren(ms) == ReadList(ms[i].value)
  {
    if i > 0 { ChildrenAt(ms[1..], i - 1); }
  }

  lemma {:induction false} NoChildrenKey(ms: seq<Member>)
    requires forall k :: 0 <= k < |ms| ==> ms[k].key != "children"
    ensures ReadChildren(ms) == []
  {
    if ms != [] { NoChildrenKey(ms[1..]); }
  }

  lemma KeysDiffer()
    ensures "name" != "rank" && "name" != "size" && "rank" != "size" && "utilization" != "detail_name"
  {
    assert "name"[0] == 'n' && "rank"[0] == 'r' && "size"[0] == 's';
    assert "utilization"[0] == 'u' && "detail_name"[0] == 'd';
  }

  /** The same lookups for any seven keys, of which the ones in question differ. */
  lemma SevenKeys(ms: seq<Member>, a: string, b: string, c: string, d: string, e: string, f: string, g: string)
    requires |ms| == 6 || (|ms| == 7 && ms[5].key == f)
    requires ms[0].key == a && ms[1].key == b && ms[2].key == c && ms[3].key == d && ms[4].key == e &&
        ms[|ms|-1].key == g
    requires a != b && a != c && b != c && a != d && b != d && c != d && a != e && b != e && c != e && d != e
    requires a != g && b != g && c != g && d != g && e != g && f != g
    ensures Lookup(ms, a) == Some(ms[0].value) && Lookup(ms, b) == Some(ms[1].value)
    ensures Lookup(ms, c) == Some(ms[2].value) && Lookup(ms, d) == Some(ms[3].value)
    ensures Lookup(ms, e) == Some(ms[4].value) && Lookup(ms, g) == Some(ms[|ms|-1].value)
  {
    hide Lookup;
    LookupAt(ms, a, 0);
    LookupAt(ms, b, 1);
    LookupAt(ms, c, 2);
    LookupAt(ms, d, 3);
    LookupAt(ms, e, 4);
    LookupAt(ms, g, |ms| - 1);
  }

  /** The five members every node starts with, and its size at the end. */
  lemma HeadLooksUp(t: Object, depth: int, ms: seq<Member>, size: int)
    requires |ms| >= 6 && ms[..5] == HeadMembers(t, depth) && ms[|ms|-1] == Member("size", Num(size))
    requires |ms| == 6 || (|ms| == 7 && ms[5].key == "children")
    ensures TextOf(Lookup(ms, "name")) == FullName(t) && TextOf(Lookup(ms, "detail_name")) == t.detail
    ensures NumberOf(Lookup(ms, "depth")) == depth && NumberOf(Lookup(ms, "size")) == size
    ensures FoundNumber(Lookup(ms, "utilization")) == Some(0) && FoundNumber(Lookup(ms, "rank")) == Some(-1)
  {
    KeysDiffer();
    hide FullName, Lookup;
    var head := HeadMembers(t, depth);
    assert ms[0] == head[0] && ms[1] == head[1] && ms[2] == head[2] && ms[3] == head[3] && ms[4] == head[4];
    SevenKeys(ms, "name", "utilization", "rank", "detail_name", "depth", "children", "size");
  }

  lemma HeadHasNoChildrenKey(t: Object, depth: int)
    ensures forall k :: 0 <= k < 5 ==> HeadMembers(t, depth)[k].key != "children"
  {
    hide FullName;
    forall k | 0 <= k < 5 ensures |HeadMembers(t, depth)[k].key| != 8 {
    }
  }

  lemma ChildrenLookUp(t: Object, depth: int, ms: seq<Member>, size: int)
    requires |ms| >= 6 && ms[..5] == HeadMembers(t, depth) && ms[|ms|-1] == Member("size", Num(size))
    requires |ms| == 6 || (|ms| == 7 && ms[5].key == "children")
    ensures ReadChildren(ms) == if |ms| == 7 then ReadList(ms[5].value) else []
  {
    hide *;
    HeadHasNoChildrenKey(t, depth);
    assert forall k :: 0 <= k < 5 ==> ms[k] == ms[..5][k];
    if |ms| == 7 { ChildrenAt(ms, 5); } else { NoChildrenKey(ms); }
  }

  /** A consumer of the description sees exactly the tree. */
  lemma {:induction false} ReadDescribe(t: Object, depth: int)
    ensures ReadNode(Describe(t, depth)) == View(t, depth)
    decreases t, 1
  {
    hide FullName, ReadChildren, Lookup, HeadMembers, Leaves, ReadNodes, ReadList, DescribeAll, ViewAll;
    if HasChildren(t) {
      var js := DescribeAll(t.memory, depth + 1) + DescribeAll(t.normal, depth + 1)
              + DescribeAll(t.io, depth + 1) + DescribeAll(t.misc, depth + 1);
      var ms := HeadMembers(t, depth) + [Member("children", Arr(js)), Member("size", Num(Size(t)))];
      assert Describe(t, depth) == Obj(ms);
      HeadFive(t, depth);
      HeadLooksUp(t, depth, ms, Size(t));
      ChildrenLookUp(t, depth, ms, Size(t));
      ListOf(js);
      ReadFour(DescribeAll(t.memory, depth + 1), DescribeAll(t.normal, depth + 1),
               DescribeAll(t.io, depth + 1), DescribeAll(t.misc, depth + 1));
      ReadDescribeAll(t.memory, depth + 1);
      ReadDescribeAll(t.normal, depth + 1);
      ReadDescribeAll(t.io, depth + 1);
      ReadDescribeAll(t.misc, depth + 1);
    } else {
      var ms := HeadMembers(t, depth) + [Member("size", Num(1))];
      assert Describe(t, depth) == Obj(ms);
      HeadFive(t, depth);
      HeadLooksUp(t, depth, ms, 1);
      ChildrenLookUp(t, depth, ms, 1);
      BareView(t, depth);
    }
  }

  lemma HeadFive(t: Object, depth: int)
    ensures |HeadMembers(t, depth)| == 5
  {
  }

  lemma ListOf(js: seq<Json>)
    ensures ReadList(Arr(js)) == ReadNodes(js)
  {
  }

  lemma BareView(t: Object, depth: int)
    requires !HasChildren(t)
    ensures View(t, depth) == Shown(FullName(t), Some(0), Some(-1), t.detail, depth, 1, [])
  {
  }

  lemma ReadFour(a: seq<Json>, b: seq<Json>, c: seq<Json>, d: seq<Json>)
    ensures ReadNodes(a + b + c + d) == ReadNodes(a) + ReadNodes(b) + ReadNodes(c) + ReadNodes(d)
  {
    hide *;
    ReadNodesConcat(a, b);
    ReadNodesConcat(a + b, c);
    ReadNodesConcat(a + b + c, d);
  }

  lemma {:induction false} ReadDescribeAll(ts: seq<Object>, depth: int)
    ensures ReadNodes(DescribeAll(ts, depth)) == ViewAll(ts, depth)
    decreases ts, 0
  {
    hide ReadNode, Describe, View;
    if ts != [] {
      var n := |ts| - 1;
      ReadDescribeAll(ts[..n], depth);
      ReadDescribe(ts[n], depth);
      var js := DescribeAll(ts[..n], depth);
      assert (js + [Describe(ts[n], depth)])[..|js|] == js;
    }
  }

  // ---------------------------------------------------------------------------------------------
  // The file as a whole.

  /** No text of the tree holds a quote, a backslash or a control character. */
  predicate CleanTree(t: Object)
    decreases t, 1
  {
    && CleanText(FullName(t)) && CleanText(t.detail)
    && CleanTrees(t.memory) && CleanTrees(t.normal) && CleanTrees(t.io) && CleanTrees(t.misc)
  }

  predicate CleanTrees(ts: seq<Object>)
    decreases ts, 0
  {
    ts == [] || (CleanTrees(ts[..|ts|-1]) && CleanTree(ts[|ts|-1]))
  }

  lemma {:induction false} CleanItemsConcat(a: seq<Json>, b: seq<Json>)
    ensures CleanItems(a + b) <==> CleanItems(a) && CleanItems(b)
  {
    hide Clean;
    if a == [] {
      assert a + b == b;
    } else {
      assert (a + b)[1..] == a[1..] + b;
      CleanItemsConcat(a[1..], b);
    }
  }

  lemma {:induction false} CleanMembersConcat(a: seq<Member>, b: seq<Member>)
    ensures CleanMembers(a + b) <==> CleanMembers(a) && CleanMembers(b)
  {
    hide Clean, CleanText;
    if a == [] {
      assert a + b == b;
    } else {
      assert (a + b)[1..] == a[1..] + b;
      CleanMembersConcat(a[1..], b);
    }
  }

  lemma CleanCons(m: Member, ms: seq<Member>)
    ensures CleanMembers([m] + ms) <==> CleanText(m.key) && Clean(m.value) && CleanMembers(ms)
  {
    hide Clean, CleanText;
    assert ([m] + ms)[1..] == ms;
  }

  lemma CleanLeaf(s: string, n: int)
    ensures Clean(Str(s)) <==> CleanText(s)
    ensures Clean(Num(n))
    ensures CleanMembers([])
  {
  }

  lemma CleanHead(t: Object, depth: int)
    ensures CleanMembers(HeadMembers(t, depth)) <==> CleanText(FullName(t)) && CleanText(t.detail)
  {
    var a, b, c, d, e := Member("name", Str(FullName(t))), Member("utilization", Num(0)), Member("rank", Num(-1)),
                         Member("detail_name", Str(t.detail)), Member("depth", Num(depth));
    assert CleanText("name") && CleanText("utilization") && CleanText("rank") && CleanText("detail_name") &&
        CleanText("depth");
    assert HeadMembers(t, depth) == [a] + ([b] + ([c] + ([d] + ([e] + []))));
    CleanLeaf(FullName(t), 0);
    CleanLeaf(t.detail, -1);
    CleanLeaf("", depth);
    hide *;
    CleanCons(e, []);
    CleanCons(d, [e] + []);
    CleanCons(c, [d] + ([e] + []));
    CleanCons(b, [c] + ([d] + ([e] + [])));
    CleanCons(a, [b] + ([c] + ([d] + ([e] + []))));
  }

  lemma CleanTail(js: seq<Json>, size: int)
    ensures CleanMembers([Member("size", Num(size))])
    ensures CleanMembers([Member("children", Arr(js)), Member("size", Num(size))]) <==> CleanItems(js)
  {
    var a, b := Member("children", Arr(js)), Member("size", Num(size));
    assert CleanText("children") && CleanText("size");
    hide CleanText, CleanItems;
    assert [b][1..] == [] && [a, b][1..] == [b];
  }

  lemma {:induction false} CleanDescribe(t: Object, depth: int)
    ensures Clean(Describe(t, depth)) <==> CleanTree(t)
    decreases t, 1
  {
    hide FullName, HeadMembers, Leaves, DescribeAll, CleanTrees, CleanMembers, CleanItems, CleanText;
    CleanHead(t, depth);
    if HasChildren(t) {
      var a, b := DescribeAll(t.memory, depth + 1), DescribeAll(t.normal, depth + 1);
      var c, d := DescribeAll(t.io, depth + 1), DescribeAll(t.misc, depth + 1);
      CleanItemsConcat(a, b);
      CleanItemsConcat(a + b, c);
      CleanItemsConcat(a + b + c, d);
      CleanDescribeAll(t.memory, depth + 1);
      CleanDescribeAll(t.normal, depth + 1);
      CleanDescribeAll(t.io, depth + 1);
      CleanDescribeAll(t.misc, depth + 1);
      var more := [Member("children", Arr(a + b + c + d)), Member("size", Num(Size(t)))];
      CleanTail(a + b + c + d, Size(t));
      CleanMembersConcat(HeadMembers(t, depth), more);
      assert Describe(t, depth) == Obj(HeadMembers(t, depth) + more);
    } else {
      CleanTail([], 1);
      CleanMembersConcat(HeadMembers(t, depth), [Member("size", Num(1))]);
      NothingClean();
      assert t.memory == [] && t.normal == [] && t.io == [] && t.misc == [];
    }
  }

  lemma NothingClean()
    ensures CleanTrees([])
  {
  }

  lemma {:induction false} CleanDescribeAll(ts: seq<Object>, depth: int)
    ensures CleanItems(DescribeAll(ts, depth)) <==> CleanTrees(ts)
    decreases ts, 0
  {
    if ts != [] {
      var n := |ts| - 1;
      CleanDescribeAll(ts[..n], depth);
      CleanDescribe(ts[n], depth);
      hide Describe, CleanTree, Clean;
      CleanItemsConcat(DescribeAll(ts[..n], depth), [Describe(ts[n], depth)]);
      assert [Describe(ts[n], depth)][1..] == [];
    }
  }

  // ---------------------------------------------------------------------------------------------
  // What the view says of the tree.

  /** The type, then the subtype and the name if there are any, each after a space. */
  predicate IsPlainName(s: string, t: Object) {
    match (t.subtype, t.name)
    case (None, None) => s == t.typeText
    case (Some(sub), None) => s == t.typeText + " " + sub
    case (None, Some(name)) => s == t.typeText + " " + name
    case (Some(sub), Some(name)) => s == t.typeText + " " + sub + " " + name
  }

  /** Decimal digits that stand for n. */
  predicate IsNumber(s: string, n: nat) { s != "" && AllDigits(s) && Value(s) == n }

  /** For a core or a hardware thread the logical index and then the index of the operating system; nothing
      for any other object. */
  ghost predicate AreIndices(s: string, t: Object) {
    if t.kind == Core || t.kind == PU then
      exists x, y :: s == " L#" + x + " P#" + y && IsNumber(x, t.logicalIndex) && IsNumber(y, t.osIndex)
    else s == ""
  }

  ghost predicate IsNameOf(s: string, t: Object) {
    exists plain, indices :: s == plain + indices && IsPlainName(plain, t) && AreIndices(indices, t)
  }

  /** The node v of the file is object t: its name, detail and depth, no use and no rank yet, and its children
      in the order memory, normal, I/O and miscellaneous. */
  ghost predicate Depicts(v: Shown, t: Object, depth: int)
    decreases t, 1
  {
    var a, b, c := |t.memory|, |t.memory| + |t.normal|, |t.memory| + |t.normal| + |t.io|;
    && IsNameOf(v.name, t) && v.detail == t.detail && v.depth == depth
    && v.utilization == Some(0) && v.rank == Some(-1) && |v.children| == c + |t.misc|
    && DepictAll(v.children[..a], t.memory, depth + 1) && DepictAll(v.children[a..b], t.normal, depth + 1)
    && DepictAll(v.children[b..c], t.io, depth + 1) && DepictAll(v.children[c..], t.misc, depth + 1)
  }

  ghost predicate DepictAll(vs: seq<Shown>, ts: seq<Object>, depth: int)
    decreases ts, 0
  {
    |vs| == |ts| && forall i :: 0 <= i < |ts| ==> Depicts(vs[i], ts[i], depth)
  }

  lemma DigitsSay(n: nat)
    ensures IsNumber(Digits(n), n)
  {
    DigitsRead(n);
    hide Digits, Value, AllDigits;
  }

  lemma IndicesSay(s: string, t: Object)
    requires s == if t.kind == Core || t.kind == PU then
      " L#" + Digits(t.logicalIndex) + " P#" + Digits(t.osIndex) else ""
    ensures AreIndices(s, t)
  {
    hide Digits, IsNumber;
    DigitsSay(t.logicalIndex);
    DigitsSay(t.osIndex);
  }

  lemma FullNameSays(t: Object)
    ensures IsNameOf(FullName(t), t)
  {
    var plain := t.typeText + Suffix(t.subtype) + Suffix(t.name);
    var indices := if t.kind == Core || t.kind == PU then
      " L#" + Digits(t.logicalIndex) + " P#" + Digits(t.osIndex) else "";
    assert FullName(t) == plain + indices;
    hide Digits, FullName, Suffix, IsPlainName, AreIndices;
    PlainSays(t, plain);
    IndicesSay(indices, t);
  }

  /** What a suffix adds. */
  lemma Suffixed(before: string, x: Option<string>)
    ensures before + Suffix(x) == if x.Some? then before + " " + x.value else before
  {
    assert x.Some? ==> before + (" " + x.value) == before + " " + x.value;
  }

  lemma PlainSays(t: Object, plain: string)
    requires plain == t.typeText + Suffix(t.subtype) + Suffix(t.name)
    ensures IsPlainName(plain, t)
  {
    hide Suffix;
    Suffixed(t.typeText, t.subtype);
    Suffixed(t.typeText + Suffix(t.subtype), t.name);
  }

  lemma FourParts<T>(a: seq<T>, b: seq<T>, c: seq<T>, d: seq<T>)
    ensures var s := a + b + c + d;
      && |s| == |a| + |b| + |c| + |d| && s[..|a|] == a && s[|a|..|a|+|b|] == b
      && s[|a|+|b|..|a|+|b|+|c|] == c && s[|a|+|b|+|c|..] == d
  {
  }

  lemma {:induction false} ViewDepicts(t: Object, depth: int)
    ensures Depicts(View(t, depth), t, depth)
    decreases t, 1
  {
    hide FullName, Size, ViewAll, DepictAll, IsNameOf;
    FullNameSays(t);
    ViewAllDepict(t.memory, depth + 1);
    ViewAllDepict(t.normal, depth + 1);
    ViewAllDepict(t.io, depth + 1);
    ViewAllDepict(t.misc, depth + 1);
    FourParts(ViewAll(t.memory, depth + 1), ViewAll(t.normal, depth + 1), ViewAll(t.io, depth + 1),
        ViewAll(t.misc, depth + 1));
  }

  lemma {:induction false} ViewAllDepict(ts: seq<Object>, depth: int)
    ensures |ViewAll(ts, depth)| == |ts| && DepictAll(ViewAll(ts, depth), ts, depth)
    decreases ts, 0
  {
    hide View, Depicts;
    if ts != [] {
      var n := |ts| - 1;
      ViewAllDepict(ts[..n], depth);
      ViewDepicts(ts[n], depth);
      var vs := ViewAll(ts, depth);
      forall i | 0 <= i < |ts| ensures Depicts(vs[i], ts[i], depth) {
        if i < n { assert ts[..n][i] == ts[i]; }
      }
    }
  }

  // ---------------------------------------------------------------------------------------------
  // A consumer that sees the tree shows that it is clean.

  ghost predicate Described(j: Json) { exists t, depth :: j == Describe(t, depth) }

  lemma {:induction false} DescribedAll(ts: seq<Object>, depth: int)
    ensures forall j :: j in DescribeAll(ts, depth) ==> Described(j)
  {
    hide Describe;
    if ts != [] { DescribedAll(ts[..|ts|-1], depth); }
  }

  lemma {:induction false} ReadNodesAt(js: seq<Json>)
    ensures |ReadNodes(js)| == |js| && forall i :: 0 <= i < |js| ==> ReadNodes(js)[i] == ReadNode(js[i])
  {
    hide ReadNode;
    if js != [] { ReadNodesAt(js[..|js|-1]); }
  }

  lemma ReadNodesRest(a: seq<Json>, b: seq<Json>)
    requires ReadNodes(a) == ReadNodes(b) && a != []
    ensures |a| == |b| && ReadNode(a[0]) == ReadNode(b[0]) && ReadNodes(a[1..]) == ReadNodes(b[1..])
  {
    ReadNodesAt(a);
    ReadNodesAt(b);
    ReadNodesAt(a[1..]);
    ReadNodesAt(b[1..]);
    hide ReadNode, ReadNodes;
    forall i | 0 <= i < |a| - 1 ensures ReadNode(a[1..][i]) == ReadNode(b[1..][i]) {
      assert a[1..][i] == a[i+1] && b[1..][i] == b[i+1];
    }
    assert ReadNodes(a[1..]) == ReadNodes(b[1..]);
  }

  /** The name or detail that a consumer finds where it was printed is clean. */
  lemma TextSeen(s: string, more: string)
    requires Ends(more) && ParseValue(Print(Str(s)) + more).Ok?
    requires TextOf(Some(ParseValue(Print(Str(s)) + more).value)) == s
    ensures CleanText(s)
  {
    hide ParseValue, Print;
    if s != "" {
      ValueOnlyIfClean(Str(s), more);
      CleanLeaf(s, 0);
    }
  }

  /** The members of a description: five, then the children if there are any, then the size. */
  ghost predicate DescribedBy(t: Object, depth: int, ms: seq<Member>, js: seq<Json>) {
    && Describe(t, depth) == Obj(ms) && |HeadMembers(t, depth)| == 5
    && ms == HeadMembers(t, depth) + if js == [] then [Member("size", Num(1))]
             else [Member("children", Arr(js)), Member("size", Num(Size(t)))]
  }

  lemma DescribedMembers(t: Object, depth: int) returns (ms: seq<Member>, js: seq<Json>)
    ensures DescribedBy(t, depth, ms, js) && forall j :: j in js ==> Described(j)
  {
    hide FullName, Leaves, DescribeAll, Described;
    ms, js := Describe(t, depth).members, [];
    HeadFive(t, depth);
    if HasChildren(t) {
      js := DescribeAll(t.memory, depth + 1) + DescribeAll(t.normal, depth + 1)
      + DescribeAll(t.io, depth + 1) + DescribeAll(t.misc, depth + 1);
      DescribedAll(t.memory, depth + 1);
      DescribedAll(t.normal, depth + 1);
      DescribedAll(t.io, depth + 1);
      DescribedAll(t.misc, depth + 1);
    }
  }

  lemma MembersShape(t: Object, depth: int, ms: seq<Member>, js: seq<Json>)
    requires DescribedBy(t, depth, ms, js)
    ensures |ms| == if js == [] then 6 else 7
    ensures ms[..5] == HeadMembers(t, depth) && ms[|ms|-1] == Member("size", ms[|ms|-1].value)
    ensures ms[|ms|-1].value.Num? && (js != [] ==> ms[5] == Member("children", Arr(js)))
    ensures ms[0] == Member("name", Str(FullName(t))) && ms[1].key == "utilization" && ms[2].key == "rank"
    ensures ms[3] == Member("detail_name", Str(t.detail))
  {
    hide FullName, Describe, Leaves;
  }

  /** What the consumer looks up in the description itself. */
  lemma MembersLookUp(t: Object, depth: int, ms: seq<Member>, js: seq<Json>)
    requires DescribedBy(t, depth, ms, js)
    ensures TextOf(Lookup(ms, "name")) == FullName(t) && TextOf(Lookup(ms, "detail_name")) == t.detail
    ensures ReadChildren(ms) == ReadNodes(js)
  {
    hide *;
    MembersShape(t, depth, ms, js);
    HeadLooksUp(t, depth, ms, ms[|ms|-1].value.n);
    ChildrenLookUp(t, depth, ms, ms[|ms|-1].value.n);
    ListOf(js);
    assert js == [] ==> ReadNodes(js) == [] by { ReadNodesAt(js); }
  }

  lemma SameNode(a: seq<Member>, b: seq<Member>)
    requires ReadNode(Obj(a)) == ReadNode(Obj(b))
    ensures TextOf(Lookup(a, "name")) == TextOf(Lookup(b, "name"))
    ensures TextOf(Lookup(a, "detail_name")) == TextOf(Lookup(b, "detail_name"))
    ensures ReadChildren(a) == ReadChildren(b)
  {
    hide Lookup, ReadChildren, TextOf, NumberOf, FoundNumber;
  }

  lemma CleanStart(t: Object, depth: int)
    requires CleanText(FullName(t))
    ensures CleanMembers(HeadMembers(t, depth)[..3])
  {
    var a, b, c := Member("name", Str(FullName(t))), Member("utilization", Num(0)), Member("rank", Num(-1));
    assert CleanText("name") && CleanText("utilization") && CleanText("rank");
    assert HeadMembers(t, depth)[..3] == [a] + ([b] + ([c] + []));
    CleanLeaf(FullName(t), 0);
    CleanLeaf("", -1);
    hide *;
    CleanCons(c, []);
    CleanCons(b, [c] + []);
    CleanCons(a, [b] + ([c] + []));
  }

  lemma CleanKeys()
    ensures CleanText("name") && CleanText("detail_name") && CleanText("children")
  {
  }

  lemma KeysBeforeDetail(ms: seq<Member>)
    requires |ms| >= 3 && ms[0].key == "name" && ms[1].key == "utilization" && ms[2].key == "rank"
    ensures forall i :: 0 <= i < 3 ==> ms[i].key != "detail_name"
  {
    assert "name"[0] == 'n' && "utilization"[0] == 'u' && "rank"[0] == 'r' && "detail_name"[0] == 'd';
  }

  /** A text is found under its key where it was printed, since what was printed before it is clean. */
  lemma TextAt(ms: seq<Member>, k: nat, key: string, text: string, vs: seq<Member>, rest: string)
    requires k < |ms| && ms[k] == Member(key, Str(text)) && CleanMembers(ms[..k]) && CleanText(key)
    requires forall i :: 0 <= i < k ==> ms[i].key != key
    requires ParseMembers(PrintMembers(ms) + "}" + rest).Ok?
    requires vs == ParseMembers(PrintMembers(ms) + "}" + rest).value && TextOf(Lookup(vs, key)) == text
    ensures CleanText(text)
  {
    hide *;
    var more := MemberAt(ms, k, rest);
    assert forall i :: 0 <= i < k ==> vs[i] == vs[..k][i] == ms[i];
    LookupAt(vs, key, k);
    TextSeen(text, more);
  }

  lemma HeadSeen(t: Object, depth: int, ms: seq<Member>, js: seq<Json>, vs: seq<Member>, rest: string)
    requires DescribedBy(t, depth, ms, js)
    requires ParseMembers(PrintMembers(ms) + "}" + rest).Ok?
    requires vs == ParseMembers(PrintMembers(ms) + "}" + rest).value
    requires TextOf(Lookup(vs, "name")) == FullName(t) && TextOf(Lookup(vs, "detail_name")) == t.detail
    ensures CleanMembers(HeadMembers(t, depth))
  {
    assert CleanMembers([]);
    hide *;
    CleanKeys();
    MembersShape(t, depth, ms, js);
    assert ms[..0] == [];
    TextAt(ms, 0, "name", FullName(t), vs, rest);
    CleanStart(t, depth);
    assert ms[..3] == ms[..5][..3];
    KeysBeforeDetail(ms);
    TextAt(ms, 3, "detail_name", t.detail, vs, rest);
    CleanHead(t, depth);
  }

  lemma ChildrenSeen(t: Object, depth: int, ms: seq<Member>, js: seq<Json>, vs: seq<Member>, rest: string)
    returns (more: string)
    requires DescribedBy(t, depth, ms, js) && js != [] && CleanMembers(HeadMembers(t, depth))
    requires ParseMembers(PrintMembers(ms) + "}" + rest).Ok?
    requires vs == ParseMembers(PrintMembers(ms) + "}" + rest).value
    ensures Ends(more) && ParseValue(Print(Arr(js)) + more).Ok?
    ensures ReadChildren(vs) == ReadList(ParseValue(Print(Arr(js)) + more).value)
  {
    hide *;
    CleanKeys();
    MembersShape(t, depth, ms, js);
    more := MemberAt(ms, 5, rest);
    HeadHasNoChildrenKey(t, depth);
    assert forall k :: 0 <= k < 5 ==> vs[k] == vs[..5][k] == HeadMembers(t, depth)[k];
    ChildrenAt(vs, 5);
  }

  lemma CleanNode(t: Object, depth: int, ms: seq<Member>, js: seq<Json>)
    requires DescribedBy(t, depth, ms, js) && CleanMembers(HeadMembers(t, depth)) && CleanItems(js)
    ensures Clean(Describe(t, depth))
  {
    hide HeadMembers, Describe, CleanMembers, CleanItems, CleanText, Leaves;
    var tail := if js == [] then [Member("size", Num(1))]
                else [Member("children", Arr(js)), Member("size", Num(Size(t)))];
    CleanTail(js, Size(t));
    CleanTail([], 1);
    CleanMembersConcat(HeadMembers(t, depth), tail);
  }

  /** If a consumer of the text sees the tree, nothing in the tree needs escaping. */
  lemma {:induction false} SeenOnlyIfClean(t: Object, depth: int, rest: string)
    requires Ends(rest) && ParseValue(Print(Describe(t, depth)) + rest).Ok?
    requires ReadNode(ParseValue(Print(Describe(t, depth)) + rest).value) == ReadNode(Describe(t, depth))
    ensures Clean(Describe(t, depth))
    decreases Describe(t, depth), 3
  {
    var ms, js := DescribedMembers(t, depth);
    assert Describe(t, depth) == Obj(ms) && CleanItems([]);
    assert js != [] ==> ms[5] == Member("children", Arr(js));
    hide *;
    MembersShape(t, depth, ms, js);
    ObjectText(ms, rest);
    ParsePastSpace(Print(Obj(ms)) + rest);
    ObjectBegins(SkipSpace(Print(Obj(ms)) + rest));
    var vs := ParseMembers(PrintMembers(ms) + "}" + rest).value;
    SameNode(vs, ms);
    MembersLookUp(t, depth, ms, js);
    HeadSeen(t, depth, ms, js, vs, rest);
    if js != [] {
      var more := ChildrenSeen(t, depth, ms, js, vs, rest);
      ListSeen(js, more);
    }
    CleanNode(t, depth, ms, js);
  }

  lemma {:induction false} ListSeen(js: seq<Json>, rest: string)
    requires js != [] && Ends(rest) && ParseValue(Print(Arr(js)) + rest).Ok?
    requires ReadList(ParseValue(Print(Arr(js)) + rest).value) == ReadNodes(js) && forall j :: j in js ==> Described(j)
    ensures CleanItems(js)
    decreases js, 4
  {
    hide *;
    var u := PrintItems(js) + "]" + rest;
    ArrayText(js, rest);
    AfterBracket(u);
    ArrayBegins("[" + u);
    var items := ParseValue("[" + u).value.items;
    ListOf(items);
    ReadNodesAt(items);
    ReadNodesAt(js);
    ItemsSeen(js, rest);
  }

  lemma {:induction false} ItemsSeen(js: seq<Json>, rest: string)
    requires js != [] && ParseItems(PrintItems(js) + "]" + rest).Ok?
    requires ReadNodes(ParseItems(PrintItems(js) + "]" + rest).value) == ReadNodes(js)
    requires forall j :: j in js ==> Described(j)
    ensures CleanItems(js)
    decreases js, 3
  {
    assert js[0] in js && Described(js[0]);
    var t, depth :| js[0] == Describe(t, depth);
    assert CleanItems(js) <==> Clean(js[0]) && CleanItems(js[1..]);
    assert CleanItems([]);
    hide *;
    var more := FirstItem(js, rest);
    var s := Print(js[0]) + more;
    var items := ParseItems(s).value;
    ItemsBegin(s, items);
    ReadNodesRest(items, js);
    SeenOnlyIfClean(t, depth, more);
    ValueRoundTrip(js[0], more);
    if |js| > 1 {
      CommaNext(PrintItems(js[1..]) + "]" + rest);
      ItemsSeen(js[1..], rest);
    } else {
      assert js[1..] == [];
    }
  }

  lemma CommaNext(next: string)
    ensures SkipSpace("," + next) == "," + next && ("," + next)[1..] == next
  {
  }

  /** In the view, sizes count the leaves of the view itself and depths rise by one. */
  predicate WellShown(v: Shown)
    decreases v, 1
  {
    v.size == Wrap32(ShownLeaves(v)) && AllShown(v.children, v.depth + 1)
  }

  predicate AllShown(vs: seq<Shown>, depth: int)
    decreases vs, 0
  {
    vs == [] || (AllShown(vs[..|vs|-1], depth) && vs[|vs|-1].depth == depth && WellShown(vs[|vs|-1]))
  }

  function ShownLeaves(v: Shown): nat
    decreases v, 1
  {
    if v.children == [] then 1 else ShownLeavesAll(v.children)
  }

  function ShownLeavesAll(vs: seq<Shown>): nat
    decreases vs, 0
  {
    if vs == [] then 0 else ShownLeavesAll(vs[..|vs|-1]) + ShownLeaves(vs[|vs|-1])
  }

  lemma {:induction false} ShownConcat(a: seq<Shown>, b: seq<Shown>, depth: int)
    ensures ShownLeavesAll(a + b) == ShownLeavesAll(a) + ShownLeavesAll(b)
    ensures AllShown(a + b, depth) <==> AllShown(a, depth) && AllShown(b, depth)
    decreases |b|
  {
    hide ShownLeaves, WellShown;
    if b == [] {
      assert a + b == a;
    } else {
      var n := |b| - 1;
      assert (a + b)[..|a + b| - 1] == a + b[..n];
      ShownConcat(a, b[..n], depth);
    }
  }

  lemma {:induction false} ViewIsWellShown(t: Object, depth: int)
    ensures WellShown(View(t, depth)) && ShownLeaves(View(t, depth)) == |Leaves(t)|
    decreases t, 1
  {
    hide FullName, LeavesAll, ViewAll, ShownLeavesAll, AllShown;
    var a, b := ViewAll(t.memory, depth + 1), ViewAll(t.normal, depth + 1);
    var c, d := ViewAll(t.io, depth + 1), ViewAll(t.misc, depth + 1);
    ViewAllWellShown(t.memory, depth + 1);
    ViewAllWellShown(t.normal, depth + 1);
    ViewAllWellShown(t.io, depth + 1);
    ViewAllWellShown(t.misc, depth + 1);
    ShownConcat(a, b, depth + 1);
    ShownConcat(a + b, c, depth + 1);
    ShownConcat(a + b + c, d, depth + 1);
  }

  lemma {:induction false} ViewAllWellShown(ts: seq<Object>, depth: int)
    ensures |ViewAll(ts, depth)| == |ts|
    ensures AllShown(ViewAll(ts, depth), depth) && ShownLeavesAll(ViewAll(ts, depth)) == |LeavesAll(ts)|
    decreases ts, 0
  {
    if ts != [] {
      var n := |ts| - 1;
      ViewAllWellShown(ts[..n], depth);
      ViewIsWellShown(ts[n], depth);
      hide WellShown, Leaves, ShownLeaves;
      var vs := ViewAll(ts[..n], depth);
      assert (vs + [View(ts[n], depth)])[..|vs|] == vs;
    }
  }

  lemma SeenExactly(t: Object, depth: int)
    ensures var r := ParseDocument(Print(Describe(t, depth)));
      r.Ok? && ReadNode(r.value) == View(t, depth) <==> CleanTree(t)
  {
    var j := Describe(t, depth);
    assert Print(j) + "" == Print(j) && Ends("");
    assert ParseDocument(Print(j)).Ok? ==>
      ParseValue(Print(j)).Ok? && ParseValue(Print(j)).value == ParseDocument(Print(j)).value;
    hide *;
    CleanDescribe(t, depth);
    ReadDescribe(t, depth);
    RoundTripExactly(j);
    if ParseDocument(Print(j)).Ok? && ReadNode(ParseDocument(Print(j)).value) == View(t, depth) {
      SeenOnlyIfClean(t, depth, "");
    }
  }

  /** A machine whose name holds a quote: no consumer of the text sees it. */
  lemma QuotedName(osIndex: nat)
    ensures var t := Object(OtherKind, "Machine", None, Some("8\" rack"), 0, osIndex, "", [], [], [], []);
      var r := ParseDocument(Print(Describe(t, 0)));
      !(r.Ok? && ReadNode(r.value) == View(t, 0))
  {
    var t := Object(OtherKind, "Machine", None, Some("8\" rack"), 0, osIndex, "", [], [], [], []);
    var name := FullName(t);
    assert name[|"Machine"| + 2] == '"' && !CleanText(name);
    assert !CleanTree(t);
    hide *;
    SeenExactly(t, 0);
  }

  /** The names of the nodes without children, from left to right. */
  function LeafNames(v: Shown): seq<string>
    decreases v, 1
  {
    if v.children == [] then [v.name] else LeafNamesAll(v.children)
  }

  function LeafNamesAll(vs: seq<Shown>): seq<string>
    decreases vs, 0
  {
    if vs == [] then [] else LeafNamesAll(vs[..|vs|-1]) + LeafNames(vs[|vs|-1])
  }

  function NamesOf(ts: seq<Object>): seq<string> {
    seq(|ts|, i requires 0 <= i < |ts| => FullName(ts[i]))
  }

  lemma NamesConcat(a: seq<Object>, b: seq<Object>)
    ensures NamesOf(a + b) == NamesOf(a) + NamesOf(b)
  {
    hide FullName;
  }

  lemma {:induction false} LeafNamesConcat(a: seq<Shown>, b: seq<Shown>)
    ensures LeafNamesAll(a + b) == LeafNamesAll(a) + LeafNamesAll(b)
    decreases |b|
  {
    hide LeafNames;
    if b == [] {
      assert a + b == a;
    } else {
      assert (a + b)[..|a + b| - 1] == a + b[..|b|-1];
      LeafNamesConcat(a, b[..|b|-1]);
    }
  }

  /** The leaves that the view shows are the leaves of the tree, in order. */
  lemma {:induction false} LeavesShown(t: Object, depth: int)
    ensures LeafNames(View(t, depth)) == NamesOf(Leaves(t))
    decreases t, 1
  {
    hide FullName, LeavesAll, ViewAll, LeafNamesAll, NamesOf;
    var a, b := ViewAll(t.memory, depth + 1), ViewAll(t.normal, depth + 1);
    var c, d := ViewAll(t.io, depth + 1), ViewAll(t.misc, depth + 1);
    ViewAllLeaves(t.memory, depth + 1);
    ViewAllLeaves(t.normal, depth + 1);
    ViewAllLeaves(t.io, depth + 1);
    ViewAllLeaves(t.misc, depth + 1);
    LeafNamesConcat(a, b);
    LeafNamesConcat(a + b, c);
    LeafNamesConcat(a + b + c, d);
    NamesConcat(LeavesAll(t.memory), LeavesAll(t.normal));
    NamesConcat(LeavesAll(t.memory) + LeavesAll(t.normal), LeavesAll(t.io));
    NamesConcat(LeavesAll(t.memory) + LeavesAll(t.normal) + LeavesAll(t.io), LeavesAll(t.misc));
    OneName(t);
  }

  lemma OneName(t: Object)
    ensures NamesOf([t]) == [FullName(t)]
  {
    hide FullName;
  }

  lemma {:induction false} ViewAllLeaves(ts: seq<Object>, depth: int)
    ensures |ViewAll(ts, depth)| == |ts| && LeafNamesAll(ViewAll(ts, depth)) == NamesOf(LeavesAll(ts))
    decreases ts, 0
  {
    hide View, Leaves, LeafNames, FullName;
    if ts != [] {
      var n := |ts| - 1;
      ViewAllLeaves(ts[..n], depth);
      LeavesShown(ts[n], depth);
      var vs := ViewAll(ts[..n], depth);
      assert (vs + [View(ts[n], depth)])[..|vs|] == vs;
      NamesConcat(LeavesAll(ts[..n]), Leaves(ts[n]));
    }
  }

  /** A consumer of the file is told of this tree, with sizes that count the leaves it is told of. */
  ghost predicate Delivers(r: Parsed<Json>, t: Object) {
    && r.Ok? && Depicts(ReadNode(r.value), t, 0) && WellShown(ReadNode(r.value))
    && LeafNames(ReadNode(r.value)) == NamesOf(Leaves(t))
  }

  lemma ViewDelivers(r: Parsed<Json>, t: Object)
    requires r.Ok? && ReadNode(r.value) == View(t, 0)
    ensures Delivers(r, t)
  {
    hide ReadNode, View, Depicts, WellShown, LeafNames, NamesOf, Leaves;
    ViewIsWellShown(t, 0);
    ViewDepicts(t, 0);
    LeavesShown(t, 0);
  }

  /** buildJSON(root, -1) and the file it goes to. The text is a JSON text in which a consumer sees
      exactly the collapsed tree, if and only if no name in that tree needs escaping. */
  method WriteTopology(root: Object) returns (text: string)
    ensures ParseDocument(text) == Ok(Describe(Collapse(root), 0), "") <==> CleanTree(Collapse(root))
    ensures var r := ParseDocument(text);
      r.Ok? && ReadNode(r.value) == View(Collapse(root), 0) <==> CleanTree(Collapse(root))
    ensures CleanTree(Collapse(root)) ==> Delivers(ParseDocument(text), Collapse(root))
    ensures Leaves(Collapse(root)) == Leaves(root)
  {
    var size;
    text, size := BuildJson(root, -1);
    hide *;
    RoundTripExactly(Describe(Collapse(root), 0));
    CleanDescribe(Collapse(root), 0);
    SeenExactly(Collapse(root), 0);
    CollapseIsSound(root);
    if CleanTree(Collapse(root)) { ViewDelivers(ParseDocument(text), Collapse(root)); }
  }
}
