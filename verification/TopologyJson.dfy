/** ScopedHWLOC::buildJSON(obj, depth) of src/hwloc.cpp: the collapse fused with the printer. */
module TopologyJson {
  import opened Decimal
  import opened Json
  import opened Topology

  const TWO_TO_32 := 0x1_0000_0000

  /** What a uint32_t keeps of a number. */
  function Wrap32(x: nat): (r: nat)
    ensures r < TWO_TO_32
  {
    x % 0x1_0000_0000
  }

  /** It is the number itself below 2^32, and otherwise differs from it by a multiple of 2^32. */
  lemma Wrap32Is(x: nat)
    ensures x < 0x1_0000_0000 ==> Wrap32(x) == x
    ensures Wrap32(x + 0x1_0000_0000) == Wrap32(x) < 0x1_0000_0000
  {
  }

  function Suffix(s: Option<string>): string { if s.Some? then " " + s.value else "" }

  /** type, subtype, name and, for cores and hardware threads, both indices. */
  function FullName(t: Object): string {
    t.typeText + Suffix(t.subtype) + Suffix(t.name) +
    if t.kind == Core || t.kind == PU then " L#" + Digits(t.logicalIndex) + " P#" + Digits(t.osIndex) else ""
  }

  /** childrenSize is a uint32_t: the number of leaves, modulo 2^32. */
  function Size(t: Object): nat { Wrap32(|Leaves(t)|) }

  function HeadMembers(t: Object, depth: int): seq<Member> {
    [Member("name", Str(FullName(t))), Member("utilization", Num(0)), Member("rank", Num(-1)),
     Member("detail_name", Str(t.detail)), Member("depth", Num(depth))]
  }

  /** The JSON value that describes a tree whose root has this depth. */
  function Describe(t: Object, depth: int): Json
    decreases t, 1
  {
    if |t.memory| + |t.normal| + |t.io| + |t.misc| == 0 then
      Obj(HeadMembers(t, depth) + [Member("size", Num(1))])
    else
      var children := DescribeAll(t.memory, depth + 1) + DescribeAll(t.normal, depth + 1)
                    + DescribeAll(t.io, depth + 1) + DescribeAll(t.misc, depth + 1);
      Obj(HeadMembers(t, depth) + [Member("children", Arr(children)), Member("size", Num(Size(t)))])
  }

  function DescribeAll(ts: seq<Object>, depth: int): (js: seq<Json>)
    ensures |js| == |ts|
    decreases ts, 0
  {
    if ts == [] then [] else DescribeAll(ts[..|ts|-1], depth) + [Describe(ts[|ts|-1], depth)]
  }

  /** Children as they are appended: each one followed by a comma. */
  function Listed(js: seq<Json>): string {
    if js == [] then "" else Listed(js[..|js|-1]) + Print(js[|js|-1]) + ","
  }

  lemma {:induction false} ListedConcat(a: seq<Json>, b: seq<Json>)
    ensures Listed(a + b) == Listed(a) + Listed(b)
    decreases |b|
  {
    hide Print;
    if b == [] {
      assert a + b == a;
    } else {
      var n := |b| - 1;
      assert (a + b)[..|a + b| - 1] == a + b[..n];
      ListedConcat(a, b[..n]);
    }
  }

  lemma {:induction false} ItemsSnoc(xs: seq<Json>, x: Json)
    ensures PrintItems(xs + [x]) == (if xs == [] then "" else PrintItems(xs) + ",") + Print(x)
  {
    hide Print;
    if xs == [] {
      assert xs + [x] == [x];
    } else {
      assert (xs + [x])[1..] == xs[1..] + [x];
      ItemsSnoc(xs[1..], x);
    }
  }

  /** The last character before the list is closed is a separator comma, and closing it over that comma
      leaves the properly separated list. */
  lemma {:induction false} CommaToBracket(js: seq<Json>)
    requires js != []
    ensures Listed(js) == PrintItems(js) + ","
  {
    var n := |js| - 1;
    assert js == js[..n] + [js[n]];
    ItemsSnoc(js[..n], js[n]);
    if n > 0 { CommaToBracket(js[..n]); }
  }

  // ---------------------------------------------------------------------------------------------
  // The text pieces of the source, against the printer.

  /** What the source writes before the children or the size. */
  function HeadText(name: string, detail: string, depth: int): string {
    "\n{" + ("\"name\":\"" + name + "\"" + "," + ("\"utilization\":0" + "," + ("\"rank\":-1" + "," +
    ("\"detail_name\":\"" + detail + "\"" + "," + ("\"depth\":" + IntText(depth) + ",")))))
  }

  lemma MembersCons(m: Member, ms: seq<Member>)
    requires ms != []
    ensures PrintMembers([m] + ms) == PrintMember(m) + "," + PrintMembers(ms)
  {
    hide PrintMember;
    assert ([m] + ms)[1..] == ms;
  }

  lemma TextKeys(name: string, detail: string)
    ensures PrintMember(Member("name", Str(name))) == "\"name\":\"" + name + "\""
    ensures PrintMember(Member("detail_name", Str(detail))) == "\"detail_name\":\"" + detail + "\""
  {
  }

  lemma NumberKey(key: string, start: string, n: int)
    requires start == "\"" + key + "\":"
    ensures PrintMember(Member(key, Num(n))) == start + IntText(n)
  {
    hide IntText;
  }

  lemma NumberKeys(depth: int, size: int)
    ensures PrintMember(Member("utilization", Num(0))) == "\"utilization\":0"
    ensures PrintMember(Member("rank", Num(-1))) == "\"rank\":-1"
    ensures PrintMember(Member("depth", Num(depth))) == "\"depth\":" + IntText(depth)
    ensures PrintMember(Member("size", Num(size))) == "\"size\":" + IntText(size)
  {
    assert IntText(0) == "0" && IntText(-1) == "-1";
    hide *;
    NumberKey("utilization", "\"utilization\":", 0);
    NumberKey("rank", "\"rank\":", -1);
    NumberKey("depth", "\"depth\":", depth);
    NumberKey("size", "\"size\":", size);
    assert "\"utilization\":" + "0" == "\"utilization\":0" && "\"rank\":" + "-1" == "\"rank\":-1";
  }

  /** Members one after the other, each followed by a comma. */
  function Followed(ms: seq<Member>): string {
    if ms == [] then "" else PrintMember(ms[0]) + "," + Followed(ms[1..])
  }

  lemma {:induction false} MembersSplit(ms: seq<Member>, more: seq<Member>)
    requires more != []
    ensures PrintMembers(ms + more) == Followed(ms) + PrintMembers(more)
  {
    hide PrintMember;
    if ms == [] {
      assert ms + more == more;
    } else {
      assert ms + more == [ms[0]] + (ms[1..] + more);
      MembersCons(ms[0], ms[1..] + more);
      MembersSplit(ms[1..], more);
    }
  }

  lemma FollowedNext(m: Member, ms: seq<Member>)
    ensures Followed([m] + ms) == PrintMember(m) + "," + Followed(ms)
  {
    hide PrintMember;
    assert ([m] + ms)[1..] == ms;
  }

  lemma HeadFollowed(t: Object, depth: int)
    ensures "\n{" + Followed(HeadMembers(t, depth)) == HeadText(FullName(t), t.detail, depth)
  {
    var name, detail := FullName(t), t.detail;
    TextKeys(name, detail);
    NumberKeys(depth, 0);
    hide PrintMember, FullName, IntText, Followed;
    var e := [Member("depth", Num(depth))];
    FollowedNext(Member("depth", Num(depth)), []);
    assert Followed([]) == "" by { NothingFollows(); }
    assert [Member("depth", Num(depth))] + [] == e;
    var d := [Member("detail_name", Str(detail))] + e;
    FollowedNext(Member("detail_name", Str(detail)), e);
    var c := [Member("rank", Num(-1))] + d;
    FollowedNext(Member("rank", Num(-1)), d);
    var b := [Member("utilization", Num(0))] + c;
    FollowedNext(Member("utilization", Num(0)), c);
    FollowedNext(Member("name", Str(name)), b);
    assert HeadMembers(t, depth) == [Member("name", Str(name))] + b;
  }

  lemma NothingFollows()
    ensures Followed([]) == ""
  {
  }

  /** The fixed opening of the source is the printed form of the first five members. */
  lemma OpeningIs(t: Object, depth: int, more: seq<Member>)
    requires more != []
    ensures Print(Obj(HeadMembers(t, depth) + more)) ==
        HeadText(FullName(t), t.detail, depth) + PrintMembers(more) + "}"
  {
    PrintedObject(HeadMembers(t, depth) + more);
    MembersSplit(HeadMembers(t, depth), more);
    HeadFollowed(t, depth);
    hide *;
    Regroup("\n{", Followed(HeadMembers(t, depth)), PrintMembers(more), "}");
  }

  lemma PrintedObject(ms: seq<Member>)
    ensures Print(Obj(ms)) == "\n{" + PrintMembers(ms) + "}"
  {
  }

  lemma Regroup(a: string, b: string, c: string, d: string)
    ensures a + (b + c) + d == (a + b) + c + d
  {
  }

  lemma SizeOnly(t: Object, depth: int)
    ensures Print(Obj(HeadMembers(t, depth) + [Member("size", Num(1))])) ==
        HeadText(FullName(t), t.detail, depth) + "\"size\":1}"
  {
    var more := [Member("size", Num(1))];
    OpeningIs(t, depth, more);
    NumberKeys(depth, 1);
    assert IntText(1) == "1";
    assert PrintMembers(more) == "\"size\":1" by { hide PrintMember; }
    hide Print, HeadText, HeadMembers, FullName, PrintMembers, PrintMember;
    assert "\"size\":1" + "}" == "\"size\":1}";
  }

  function OpenList(): string { "\"children\":[" }

  function SizeText(size: int): string { ",\"size\":" + IntText(size) + "}" }

  /** The closed list of children and the size after it. */
  function TailText(items: string, size: int): string { OpenList() + items + "]" + SizeText(size) }

  lemma TailIs(js: seq<Json>, size: int)
    ensures PrintMembers([Member("children", Arr(js)), Member("size", Num(size))]) + "}" ==
        TailText(PrintItems(js), size)
  {
    var a, b := Member("children", Arr(js)), Member("size", Num(size));
    MembersCons(a, [b]);
    assert [a] + [b] == [a, b];
    NumberKeys(0, size);
    ChildrenKey(js);
    OneMember(b);
    hide *;
    TailLiteral(PrintItems(js), IntText(size));
    assert TailText(PrintItems(js), size) ==
        "\"children\":[" + PrintItems(js) + "]" + (",\"size\":" + IntText(size) + "}") by {
      TailUnfolds(PrintItems(js), size);
    }
  }

  lemma TailUnfolds(items: string, size: int)
    ensures TailText(items, size) == "\"children\":[" + items + "]" + (",\"size\":" + IntText(size) + "}")
  {
  }

  lemma ChildrenKey(js: seq<Json>)
    ensures PrintMember(Member("children", Arr(js))) == "\"children\":" + ("[" + PrintItems(js) + "]")
  {
  }

  lemma OneMember(m: Member)
    ensures PrintMembers([m]) == PrintMember(m)
  {
    hide PrintMember;
  }

  lemma TailLiteral(items: string, n: string)
    ensures ("\"children\":" + ("[" + items + "]")) + "," + ("\"size\":" + n) + "}"
         == "\"children\":[" + items + "]" + (",\"size\":" + n + "}")
  {
    assert "\"children\":" + "[" == "\"children\":[";
    assert "," + "\"size\":" == ",\"size\":";
  }

  lemma WithChildren(t: Object, depth: int, js: seq<Json>, size: int)
    ensures Print(Obj(HeadMembers(t, depth) + [Member("children", Arr(js)), Member("size", Num(size))]))
         == HeadText(FullName(t), t.detail, depth) + TailText(PrintItems(js), size)
  {
    var more := [Member("children", Arr(js)), Member("size", Num(size))];
    OpeningIs(t, depth, more);
    TailIs(js, size);
    hide *;
  }

  // ---------------------------------------------------------------------------------------------
  // The program.

  lemma AddWraps(a: nat, b: nat)
    ensures Wrap32(Wrap32(a) + Wrap32(b)) == Wrap32(a + b)
  {
  }

  /** The children's texts, each followed by its comma. */
  function ChildrenText(kids: seq<Object>, depth: int): string { Listed(DescribeAll(CollapseAll(kids), depth)) }

  lemma NextChild(kids: seq<Object>, i: nat, depth: int)
    requires i < |kids|
    ensures ChildrenText(kids[..i+1], depth) ==
        ChildrenText(kids[..i], depth) + Print(Describe(Collapse(kids[i]), depth)) + ","
    ensures |LeavesAll(kids[..i+1])| == |LeavesAll(kids[..i])| + |Leaves(kids[i])|
  {
    var before, c := CollapseAll(kids[..i]), Collapse(kids[i]);
    assert kids[..i+1][..i] == kids[..i];
    assert CollapseAll(kids[..i+1]) == before + [c];
    assert (before + [c])[..i] == before;
    var js, j := DescribeAll(before, depth), Describe(c, depth);
    assert DescribeAll(before + [c], depth) == js + [j];
    hide Print, Describe, DescribeAll;
    assert (js + [j])[..|js|] == js;
  }

  lemma Append(json: string, text: string, child: string)
    ensures json + text + child + "," == json + (text + child + ",")
  {
  }

  lemma NoChildren(kids: seq<Object>, depth: int)
    ensures ChildrenText(kids[..0], depth) == "" && LeavesAll(kids[..0]) == []
  {
  }

  lemma SizeIs(t: Object)
    ensures Size(t) == Wrap32(|Leaves(t)|)
  {
  }

  lemma SizeFits(size: nat)
    requires size < TWO_TO_32
    ensures Wrap32(size) == size
  {
  }

  /** One of the four loops over a list of children. */
  method AppendChildren(kids: seq<Object>, depth: int, json: string, size: nat) returns (json': string, size': nat)
    requires size < TWO_TO_32
    ensures json' == json + ChildrenText(kids, depth + 1)
    ensures size' == Wrap32(size + |LeavesAll(kids)|)
    decreases kids, 0
  {
    json', size' := json, size;
    hide *;
    NoChildren(kids, depth + 1);
    SizeFits(size);
    for i := 0 to |kids|
      invariant json' == json + ChildrenText(kids[..i], depth + 1)
      invariant size' == Wrap32(size + |LeavesAll(kids[..i])|)
    {
      var childJson, childSize := BuildJson(kids[i], depth);
      SizeIs(kids[i]);
      NextChild(kids, i, depth + 1);
      AddWraps(size + |LeavesAll(kids[..i])|, |Leaves(kids[i])|);
      Append(json, ChildrenText(kids[..i], depth + 1), childJson);
      json' := json' + childJson + ",";
      size' := Wrap32(size' + childSize);
    }
    assert kids[..|kids|] == kids;
  }

  /** json.back() = ']': only ever done over a comma. */
  method CloseList(json: string) returns (closed: string)
    requires json != "" && json[|json|-1] == ','
    ensures closed == json[..|json|-1] + "]"
  {
    closed := json[|json|-1 := ']'];
  }

  /** All four lists of children as they have been appended. */
  function AllChildrenText(t: Object, depth: int): string {
    ChildrenText(t.memory, depth) + ChildrenText(t.normal, depth) + ChildrenText(t.io, depth) +
        ChildrenText(t.misc, depth)
  }

  function LeafCount(t: Object): nat {
    |LeavesAll(t.memory)| + |LeavesAll(t.normal)| + |LeavesAll(t.io)| + |LeavesAll(t.misc)|
  }

  predicate HasChildren(t: Object) { |t.memory| + |t.normal| + |t.io| + |t.misc| != 0 }

  lemma FourLists(a: seq<Json>, b: seq<Json>, c: seq<Json>, d: seq<Json>)
    ensures Listed(a + b + c + d) == Listed(a) + Listed(b) + Listed(c) + Listed(d)
  {
    hide *;
    ListedConcat(a, b);
    ListedConcat(a + b, c);
    ListedConcat(a + b + c, d);
  }

  function AllDescribed(t: Object, depth: int): seq<Json> {
    DescribeAll(CollapseAll(t.memory), depth) + DescribeAll(CollapseAll(t.normal), depth)
    + DescribeAll(CollapseAll(t.io), depth) + DescribeAll(CollapseAll(t.misc), depth)
  }

  lemma CollapsedLooks(t: Object)
    requires !Unshared(t)
    ensures Size(Collapse(t)) == Size(t) && FullName(Collapse(t)) == FullName(t) && Collapse(t).detail == t.detail
  {
    CollapseKeepsLeaves(t);
  }

  lemma ChildrenDescribed(t: Object, d: int)
    requires !Unshared(t) && HasChildren(t)
    ensures AllDescribed(t, d + 1) != []
    ensures Print(Describe(Collapse(t), d)) ==
        HeadText(FullName(t), t.detail, d) + TailText(PrintItems(AllDescribed(t, d + 1)), Size(t))
  {
    CollapsedLooks(t);
    WithChildren(Collapse(t), d, AllDescribed(t, d + 1), Size(t));
    hide Print, PrintItems, DescribeAll, Leaves, Listed, HeadMembers, HeadText, TailText, FullName, Size;
  }

  /** What has been appended, once its last comma has become a bracket, is the printed list. */
  lemma ChildrenClose(t: Object, d: int)
    requires !Unshared(t) && HasChildren(t)
    ensures var text := AllChildrenText(t, d + 1);
      && text != "" && text[|text|-1] == ','
      && Print(Describe(Collapse(t), d)) == HeadText(FullName(t), t.detail, d) + TailText(text[..|text|-1], Size(t))
  {
    var js := AllDescribed(t, d + 1);
    ChildrenDescribed(t, d);
    FourLists(DescribeAll(CollapseAll(t.memory), d + 1), DescribeAll(CollapseAll(t.normal), d + 1),
              DescribeAll(CollapseAll(t.io), d + 1), DescribeAll(CollapseAll(t.misc), d + 1));
    assert AllChildrenText(t, d + 1) == Listed(js);
    hide *;
    CommaToBracket(js);
    assert (PrintItems(js) + ",")[..|PrintItems(js)|] == PrintItems(js);
  }

  lemma LeavesCounted(t: Object)
    requires HasChildren(t)
    ensures Size(t) == Wrap32(LeafCount(t))
  {
  }

  lemma NoChildText(t: Object, d: int)
    requires !HasChildren(t)
    ensures Print(Describe(Collapse(t), d)) == HeadText(FullName(t), t.detail, d) + "\"size\":1}"
    ensures Size(t) == 1
  {
    assert Collapse(t) == t;
    SizeOnly(t, d);
  }

  lemma UnsharedSize(t: Object)
    requires Unshared(t)
    ensures Size(t) == Size(t.normal[0])
  {
    CollapseKeepsLeaves(t);
    CollapseKeepsLeaves(t.normal[0]);
  }

  lemma AddOnce(x: nat, b: nat)
    ensures Wrap32(Wrap32(x) + b) == Wrap32(x + b)
  {
  }

  lemma FourWraps(a: nat, b: nat, c: nat, d: nat)
    ensures Wrap32(Wrap32(Wrap32(Wrap32(0 + a) + b) + c) + d) == Wrap32(a + b + c + d)
  {
    hide *;
    AddOnce(0 + a, b);
    AddOnce(a + b, c);
    AddOnce(a + b + c, d);
  }

  lemma FourTexts(json: string, a: string, b: string, c: string, d: string)
    ensures json + a + b + c + d == json + (a + b + c + d)
  {
  }

  /** What four loops append and add up to. */
  lemma FourLoops(t: Object, d: int, json: string)
    requires HasChildren(t)
    ensures json + ChildrenText(t.memory, d) + ChildrenText(t.normal, d) + ChildrenText(t.io, d)
      + ChildrenText(t.misc, d) == json + AllChildrenText(t, d)
    ensures Wrap32(Wrap32(Wrap32(Wrap32(0 + |LeavesAll(t.memory)|) + |LeavesAll(t.normal)|) + |LeavesAll(t.io)|)
      + |LeavesAll(t.misc)|) == Size(t)
  {
    hide ChildrenText, LeavesAll, Size, HasChildren, Wrap32;
    LeavesCounted(t);
    FourTexts(json, ChildrenText(t.memory, d), ChildrenText(t.normal, d), ChildrenText(t.io, d),
        ChildrenText(t.misc, d));
    FourWraps(|LeavesAll(t.memory)|, |LeavesAll(t.normal)|, |LeavesAll(t.io)|, |LeavesAll(t.misc)|);
  }

  /** The four loops over the children. */
  method AppendAll(t: Object, d: int, json: string) returns (json': string, size: nat)
    requires HasChildren(t)
    ensures json' == json + AllChildrenText(t, d + 1) && size == Size(t)
    decreases t, 0
  {
    hide *;
    FourLoops(t, d + 1, json);
    json', size := AppendChildren(t.memory, d, json, 0);
    json', size := AppendChildren(t.normal, d, json', size);
    json', size := AppendChildren(t.io, d, json', size);
    json', size := AppendChildren(t.misc, d, json', size);
  }

  lemma Closing(json: string, text: string, size: int)
    requires text != "" && text[|text|-1] == ','
    ensures var open := json + OpenList() + text;
      && open != "" && open[|open|-1] == ','
      && open[..|open|-1] + "]" + SizeText(size) == json + TailText(text[..|text|-1], size)
  {
    var items, tail, list := text[..|text|-1], SizeText(size), OpenList();
    assert TailText(items, size) == list + items + "]" + tail;
    hide *;
    LastDropped(json + list, text);
    Grouped(json, list, items, tail);
  }

  lemma LastDropped(a: string, text: string)
    requires text != ""
    ensures var open := a + text;
      open != "" && open[|open|-1] == text[|text|-1] && open[..|open|-1] == a + text[..|text|-1]
  {
  }

  lemma Grouped(json: string, list: string, items: string, tail: string)
    ensures json + list + items + "]" + tail == json + (list + items + "]" + tail)
  {
  }

  /** What is written after the opening of a node with children. */
  method BuildChildren(t: Object, d: int, json: string) returns (json': string, size: nat)
    requires HasChildren(t) && !Unshared(t) && json == HeadText(FullName(t), t.detail, d)
    ensures size == Size(t)
    ensures json' == Print(Describe(Collapse(t), d))
    decreases t, 1
  {
    hide *;
    ChildrenClose(t, d);
    Closing(json, AllChildrenText(t, d + 1), Size(t));
    json' := json + OpenList();
    json', size := AppendAll(t, d, json');
    json' := CloseList(json');
    json' := json' + SizeText(size);
  }

  method BuildJson(t: Object, depth: int) returns (json: string, size: nat)
    ensures json == Print(Describe(Collapse(t), depth + 1))
    ensures size == Size(t)
    decreases t, 2
  {
    if Unshared(t) {
      json, size := BuildJson(t.normal[0], depth);
      UnsharedSize(t);
      return;
    }
    var d := depth + 1;
    hide *;
    json := HeadText(FullName(t), t.detail, d);
    if !HasChildren(t) {
      json := json + "\"size\":1}";
      size := 1;
      NoChildText(t, d);
    } else {
      json, size := BuildChildren(t, d, json);
    }
  }
}
