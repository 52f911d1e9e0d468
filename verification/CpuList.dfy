/** CPU lists such as "0-3,7": parseDiscreteValues and toString(set) in src/utils.cpp. */
module CpuList {
  import opened Decimal
  import opened RankRanges
  import opened Text

  const INT_MIN := -2147483648
  const INT_MAX := 2147483647

  /** What parseDiscreteValues comes to: the vector, one of the two exceptions of std::stoi, or the signed
      overflow of the loop counter when a range ends at INT_MAX. */
  datatype Outcome = Values(values: seq<int>) | InvalidArgument | OutOfRange | CounterOverflow

  /** push_back of an int into a vector of uint32_t. */
  function ToUint32(i: int): (u: nat)
    requires INT_MIN <= i <= INT_MAX
    ensures u < 0x1_0000_0000 && (u - i) % 0x1_0000_0000 == 0
  {
    if i < 0 then i + 0x1_0000_0000 else i
  }

  function Stoi(s: string): (n: Number)
    ensures n.Number? ==> INT_MIN <= n.value <= INT_MAX
  {
    ReadInteger(s, INT_MIN, INT_MAX)
  }

  /** The values from a to b, b included. */
  function Span(a: int, b: int): seq<int>
    requires INT_MIN <= a && b <= INT_MAX
    decreases b - a
  {
    if a > b then [] else Span(a, b - 1) + [ToUint32(b)]
  }

  function Failed(n: Number): Outcome
    requires !n.Number?
  {
    if n.NotANumber? then InvalidArgument else OutOfRange
  }

  function TokenMeans(t: string): Outcome {
    var h := Find(t, '-');
    if h == |t| then
      var n := Stoi(t);
      if n.Number? then Values([ToUint32(n.value)]) else Failed(n)
    else
      var a, b := Stoi(t[..h]), Stoi(t[h+1..]);
      if !a.Number? then Failed(a)
      else if !b.Number? then Failed(b)
      else if a.value <= b.value == INT_MAX then CounterOverflow
      else Values(Span(a.value, b.value))
  }

  function Join(a: Outcome, b: Outcome): Outcome {
    if a.Values? && b.Values? then Values(a.values + b.values) else if a.Values? then b else a
  }

  /** The tokens between commas, in order; the first failure ends it, and an empty last token is no token. */
  function Means(s: string): Outcome
    decreases |s|
  {
    var pos := Find(s, ',');
    if pos < |s| then Join(TokenMeans(s[..pos]), Means(s[pos+1..]))
    else if s == "" then Values([])
    else TokenMeans(s)
  }

  lemma JoinAssociates(a: Outcome, b: Outcome, c: Outcome)
    ensures Join(Join(a, b), c) == Join(a, Join(b, c))
  {
    if a.Values? && b.Values? && c.Values? {
      assert (a.values + b.values) + c.values == a.values + (b.values + c.values);
    }
  }

  lemma JoinEmpty(a: Outcome)
    ensures Join(Values([]), a) == a && Join(a, Values([])) == a
  {
    if a.Values? { assert [] + a.values == a.values && a.values + [] == a.values; }
  }

  lemma JoinFails(a: Outcome, b: Outcome)
    requires !a.Values?
    ensures Join(a, b) == a
  {}

  lemma MeansOf(s: string)
    ensures var pos := Find(s, ',');
      Means(s) == if pos < |s| then Join(TokenMeans(s[..pos]), Means(s[pos+1..])) else if s == "" then Values([])
          else TokenMeans(s)
  {
    hide Find, Join, TokenMeans;
  }

  /** The work done for one token, which appends to the values so far. */
  method AddToken(token: string, result: seq<int>) returns (r: Outcome)
    ensures r == Join(Values(result), TokenMeans(token))
  {
    hide Find, Stoi, ToUint32;
    var hyphenPos := Find(token, '-');
    if hyphenPos < |token| {
      var start := Stoi(token[..hyphenPos]);
      if !start.Number? { return Failed(start); }
      var end := Stoi(token[hyphenPos+1..]);
      if !end.Number? { return Failed(end); }
      var values := result;
      var i := start.value;
      while i <= end.value
        invariant start.value <= i <= INT_MAX && (i <= end.value + 1 || i == start.value)
        invariant values == result + Span(start.value, i - 1)
      {
        values := values + [ToUint32(i)];
        if i == INT_MAX { return CounterOverflow; }
        i := i + 1;
      }
      return Values(values);
    } else {
      var n := Stoi(token);
      if !n.Number? { return Failed(n); }
      return Values(result + [ToUint32(n.value)]);
    }
  }

  /** parseDiscreteValues: the loop cuts a token and its comma off the front of its input each time. */
  method ParseDiscreteValues(input: string) returns (r: Outcome)
    ensures r == Means(input)
  {
    var result := [];
    var inputString := input;
    JoinEmpty(Means(input));
    hide *;
    var pos := Find(inputString, ',');
    while pos < |inputString|
      invariant pos == Find(inputString, ',')
      invariant Means(input) == Join(Values(result), Means(inputString))
      decreases |inputString|
    {
      MeansOf(inputString);
      JoinAssociates(Values(result), TokenMeans(inputString[..pos]), Means(inputString[pos+1..]));
      hide *;
      r := AddToken(inputString[..pos], result);
      if !r.Values? {
        JoinFails(r, Means(inputString[pos+1..]));
        return;
      }
      result := r.values;
      inputString := inputString[pos+1..];
      pos := Find(inputString, ',');
    }
    MeansOf(inputString);
    JoinEmpty(Values(result));
    r := Values(result);
    if inputString != "" {
      r := AddToken(inputString, result);
    }
  }

  // ---------------------------------------------------------------------------------------------
  // Well-formed lists.

  datatype Item = One(value: nat) | Range(first: nat, last: nat)

  function ItemText(item: Item): string {
    match item
    case One(v) => Digits(v)
    case Range(a, b) => Digits(a) + "-" + Digits(b)
  }

  function ListText(items: seq<Item>): string {
    if items == [] then ""
    else if |items| == 1 then ItemText(items[0])
    else ItemText(items[0]) + "," + ListText(items[1..])
  }

  /** The item fits an int, and as a range does not end where the loop counter would overflow. */
  predicate Fits(item: Item) {
    match item
    case One(v) => v <= INT_MAX
    case Range(a, b) => a <= INT_MAX && b <= INT_MAX && (a <= b ==> b < INT_MAX)
  }

  predicate AllFit(items: seq<Item>) { forall i :: 0 <= i < |items| ==> Fits(items[i]) }

  /** The numbers an item stands for, in order. */
  function ItemValues(item: Item): seq<int> {
    match item
    case One(v) => [v]
    case Range(a, b) => Upto(a, b)
  }

  function ListValues(items: seq<Item>): seq<int> {
    if items == [] then [] else ItemValues(items[0]) + ListValues(items[1..])
  }

  lemma {:induction false} UptoGrows(a: int, b: int)
    requires a <= b
    ensures Upto(a, b) == Upto(a, b - 1) + [b]
    decreases b - a
  {
    if a < b { UptoGrows(a + 1, b); }
  }

  lemma {:induction false} SpanIsUpto(a: nat, b: int)
    requires b <= INT_MAX
    ensures Span(a, b) == Upto(a, b)
    decreases b - a
  {
    if a <= b {
      SpanIsUpto(a, b - 1);
      UptoGrows(a, b);
    }
  }

  lemma NoMarks(n: nat)
    ensures '-' !in Digits(n) && ',' !in Digits(n)
  {
    DigitsRead(n);
  }

  lemma ItemReads(item: Item)
    ensures ItemText(item) != "" && ',' !in ItemText(item)
    ensures Fits(item) ==> TokenMeans(ItemText(item)) == Values(ItemValues(item))
    ensures !Fits(item) ==>
      TokenMeans(ItemText(item)) ==
      if item.Range? && item.first <= INT_MAX && item.last <= INT_MAX then CounterOverflow else OutOfRange
  {
    match item
    case One(v) =>
      DigitsRead(v);
      NoMarks(v);
      FindAfter(Digits(v), "", '-');
      assert Digits(v) + "" == Digits(v);
      IntegerReads(v, INT_MIN, INT_MAX);
    case Range(a, b) =>
      DigitsRead(a);
      NoMarks(a); NoMarks(b);
      var t := ItemText(item);
      assert t == Digits(a) + ("-" + Digits(b));
      FindAfter(Digits(a), "-" + Digits(b), '-');
      var h := |Digits(a)|;
      assert t[..h] == Digits(a) && t[h+1..] == Digits(b);
      IntegerReads(a, INT_MIN, INT_MAX); IntegerReads(b, INT_MIN, INT_MAX);
      if b <= INT_MAX { SpanIsUpto(a, b); }
  }

  lemma ListOfOne(item: Item)
    ensures Means(ListText([item])) == TokenMeans(ItemText(item)) && ListValues([item]) == ItemValues(item)
  {
    var t := ItemText(item);
    ItemReads(item);
    FindAfter(t, "", ',');
    assert t + "" == t;
    MeansOf(t);
  }

  lemma TokenFirst(t: string, rest: string)
    requires ',' !in t
    ensures Means(t + ("," + rest)) == Join(TokenMeans(t), Means(rest))
  {
    hide *;
    FindAfter(t, "," + rest, ',');
    Cut(t + ",", rest, |t|);
    Regroup(t, ",", rest);
    assert (t + ",")[..|t|] == t && (t + ",")[|t|+1..] == [];
    MeansOf(t + ("," + rest));
  }

  lemma ListSplits(items: seq<Item>)
    requires |items| > 1
    ensures Means(ListText(items)) == Join(TokenMeans(ItemText(items[0])), Means(ListText(items[1..])))
  {
    assert ListText(items) == ItemText(items[0]) + ("," + ListText(items[1..])) by {
      Regroup(ItemText(items[0]), ",", ListText(items[1..]));
    }
    hide *;
    ItemReads(items[0]);
    TokenFirst(ItemText(items[0]), ListText(items[1..]));
  }

  /** A list of values and a-b ranges is read as the concatenation of what they stand for, exactly when
      every item fits; otherwise the call throws or overflows. */
  lemma {:induction false} ListReads(items: seq<Item>)
    ensures AllFit(items) ==> Means(ListText(items)) == Values(ListValues(items))
    ensures !AllFit(items) ==> !Means(ListText(items)).Values?
  {
    if items != [] {
      ItemReads(items[0]);
      ListReads(items[1..]);
      assert AllFit(items) <==> Fits(items[0]) && AllFit(items[1..]);
      var t := ItemText(items[0]);
      if |items| == 1 {
        ListOfOne(items[0]);
        assert items == [items[0]];
      } else {
        ListSplits(items);
        assert ListValues(items) == ItemValues(items[0]) + ListValues(items[1..]);
      }
    }
  }

  // ---------------------------------------------------------------------------------------------
  // Printing a set and reading it back.

  /** The values as single items. */
  function Singles(values: seq<nat>): seq<Item> {
    seq(|values|, i requires 0 <= i < |values| => One(values[i]))
  }

  lemma {:induction false} SinglesValues(values: seq<nat>)
    ensures ListValues(Singles(values)) == values
  {
    if values != [] {
      SinglesValues(values[1..]);
      assert Singles(values)[1..] == Singles(values[1..]);
    }
  }

  lemma {:induction false} ListTextGrows(items: seq<Item>, item: Item)
    ensures ListText(items + [item]) == ListText(items) + (if items == [] then "" else ",") + ItemText(item)
    ensures items != [] ==> ListText(items) != ""
  {
    if items != [] {
      ItemReads(items[0]);
      ListTextGrows(items[1..], item);
      assert (items + [item])[1..] == items[1..] + [item];
    }
  }

  /** toString of a std::set<uint32_t>, given by its elements in iteration order, which is increasing. */
  method ToString(allowed: seq<nat>) returns (outstr: string)
    ensures outstr == ListText(Singles(allowed))
  {
    outstr := "";
    for i := 0 to |allowed|
      invariant outstr == ListText(Singles(allowed[..i]))
    {
      ListTextGrows(Singles(allowed[..i]), One(allowed[i]));
      assert Singles(allowed[..i+1]) == Singles(allowed[..i]) + [One(allowed[i])];
      if |outstr| > 0 { outstr := outstr + ","; }
      outstr := outstr + Digits(allowed[i]);
    }
    assert allowed[..|allowed|] == allowed;
  }

  /** What toString prints, parseDiscreteValues reads back, exactly when every element fits an int: for a
      set with an element of 2^31 or more, std::stoi throws. */
  lemma PrintedListReads(allowed: seq<nat>)
    ensures Means(ListText(Singles(allowed))) == Values(allowed) <==> forall i :: 0 <= i < |allowed| ==>
        allowed[i] <= INT_MAX
  {
    ListReads(Singles(allowed));
    SinglesValues(allowed);
    if AllFit(Singles(allowed)) {
      forall i | 0 <= i < |allowed| ensures allowed[i] <= INT_MAX {
        assert Fits(Singles(allowed)[i]);
      }
    }
  }


  /** The set {2^31} is printed, and cannot be read. */
  lemma LargeElement()
    ensures !Means(ListText(Singles([0x8000_0000]))).Values?
  {
    ListReads(Singles([0x8000_0000]));
    assert !Fits(Singles([0x8000_0000])[0]);
    hide *;
  }

  /** The range of the single number 2^31 - 1 overflows the loop counter; the number alone is read. */
  lemma RangeToMax()
    ensures Means(ListText([Range(INT_MAX, INT_MAX)])) == CounterOverflow
    ensures Means(ListText([One(INT_MAX)])) == Values([INT_MAX])
  {
    assert !Fits(Range(INT_MAX, INT_MAX)) && Fits(One(INT_MAX)) && ItemValues(One(INT_MAX)) == [INT_MAX];
    hide *;
    ListOfOne(Range(INT_MAX, INT_MAX));
    ItemReads(Range(INT_MAX, INT_MAX));
    ListOfOne(One(INT_MAX));
    ItemReads(One(INT_MAX));
  }

  /** The first number of a range is read first: if it cannot be read, that failure is the outcome whatever
      the second one is. */
  lemma FirstFailure(n: nat)
    requires n > INT_MAX
    ensures TokenMeans("-" + Digits(n)) == InvalidArgument && TokenMeans(Digits(n) + "-") == OutOfRange
  {
    var d := Digits(n);
    NoMarks(n);
    DigitsRead(n);
    FindAfter("", "-" + d, '-');
    FindAfter(d, "-", '-');
    assert "" + ("-" + d) == "-" + d && ("-" + d)[..0] == "" && (d + "-")[..|d|] == d;
    IntegerReads(n, INT_MIN, INT_MAX);
    assert IntText(n) == d && Stoi("").NotANumber?;
    hide Find, Digits, ReadInteger;
  }
}
