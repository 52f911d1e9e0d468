/** The pieces of the C++ string library that the readers use. */
module Text {
  import opened Decimal

  predicate IsSpace(c: char) { c in [' ', '\t', '\n', 11 as char, 12 as char, '\r'] }

  function SkipSpace(s: string): (r: string)
    ensures |r| <= |s|
  {
    if s != "" && IsSpace(s[0]) then SkipSpace(s[1..]) else s
  }

  const LONG_MIN := -0x8000_0000_0000_0000
  const LONG_MAX := 0x7FFF_FFFF_FFFF_FFFF

  datatype Number = Number(value: int) | NotANumber | TooLarge

  /** White space, a sign, and as many digits as follow; the rest is ignored. */
  function Scan(s: string): (n: Number)
    ensures !n.TooLarge?
  {
    var t := SkipSpace(s);
    var negative := t != "" && t[0] == '-';
    var u := if t != "" && (t[0] == '-' || t[0] == '+') then t[1..] else t;
    var k := LeadingDigits(u);
    if k == 0 then NotANumber
    else
      var magnitude: int := Value(u[..k]);
      Number(if negative then -magnitude else magnitude)
  }

  /** std::stoi and std::stol. */
  function ReadInteger(s: string, lo: int, hi: int): (n: Number)
    ensures n.Number? ==> lo <= n.value <= hi
  {
    var n := Scan(s);
    if n.Number? && !(lo <= n.value <= hi) then TooLarge else n
  }

  /** atol; a value beyond the bounds of long, undefined in C, is clamped as in the GNU library. */
  function Atol(s: string): int {
    var n := Scan(s);
    if !n.Number? then 0 else if n.value > LONG_MAX then LONG_MAX else if n.value < LONG_MIN then LONG_MIN else n.value
  }

  lemma NegativeText(v: int, rest: string)
    requires v < 0
    ensures var s := IntText(v) + rest;
      SkipSpace(s) == s != "" && s[0] == '-' && s[1..] == Digits(-v) + rest
  {
    var d := Digits(-v);
    assert IntText(v) == "-" + d;
    hide Digits, IntText;
    assert "-" + d + rest == "-" + (d + rest);
  }

  lemma PlainText(v: nat, rest: string)
    ensures var s := IntText(v) + rest;
      SkipSpace(s) == s != "" && s[0] !in "-+" && s == Digits(v) + rest
  {
    DigitsRead(v);
    assert IntText(v) == Digits(v);
    hide Digits, IntText;
    assert IsDigit((Digits(v) + rest)[0]);
  }

  /** What std::to_string prints is scanned back, whatever follows its digits. */
  lemma TextScans(v: int, rest: string)
    requires rest == "" || !IsDigit(rest[0])
    ensures Scan(IntText(v) + rest) == Number(v)
  {
    var d := Digits(if v < 0 then -v else v);
    var s := IntText(v) + rest;
    if v < 0 { NegativeText(v, rest); } else { PlainText(v, rest); }
    DigitsRead(if v < 0 then -v else v);
    hide Digits, IntText, LeadingDigits, Value, SkipSpace, AllDigits;
    LeadingDigitsOf(d, rest);
    assert (d + rest)[..|d|] == d;
  }

  lemma IntegerReads(v: int, lo: int, hi: int)
    ensures ReadInteger(IntText(v), lo, hi) == if lo <= v <= hi then Number(v) else TooLarge
  {
    TextScans(v, "");
    assert IntText(v) + "" == IntText(v);
  }

  /** std::string::find of a character, with the length for npos. */
  function Find(s: string, c: char): (k: nat)
    ensures k <= |s| && c !in s[..k] && (k < |s| ==> s[k] == c)
  {
    if s == "" || s[0] == c then 0
    else
      var k := 1 + Find(s[1..], c);
      assert s[..k] == [s[0]] + s[1..][..k-1];
      k
  }

  lemma {:induction false} FindAfter(s: string, rest: string, c: char)
    requires c !in s && (rest == "" || rest[0] == c)
    ensures Find(s + rest, c) == |s|
  {
    if s == "" {
      assert s + rest == rest;
    } else {
      assert (s + rest)[1..] == s[1..] + rest;
      FindAfter(s[1..], rest, c);
    }
  }

  /** Whether std::string::find of a string succeeds. */
  predicate Contains(s: string, pattern: string)
    decreases |s|
  {
    pattern <= s || (s != "" && Contains(s[1..], pattern))
  }

  lemma {:induction false} NotContained(s: string, pattern: string, c: char)
    requires c in pattern && c !in s
    ensures !Contains(s, pattern)
  {
    var i :| 0 <= i < |pattern| && pattern[i] == c;
    assert i < |s| ==> s[i] != c;
    if s != "" { NotContained(s[1..], pattern, c); }
  }

  /** What successive calls of std::getline return. */
  function Lines(s: string): seq<string>
    decreases |s|
  {
    var k := Find(s, '\n');
    if k < |s| then [s[..k]] + Lines(s[k+1..]) else if s == "" then [] else [s]
  }

  predicate Ended(s: string) { s == "" || s[|s|-1] == '\n' }

  lemma LinesOf(s: string)
    ensures Find(s, '\n') < |s| ==> Lines(s) == [s[..Find(s, '\n')]] + Lines(s[Find(s, '\n')+1..])
    ensures Find(s, '\n') == |s| > 0 ==> Lines(s) == [s]
    ensures s == "" ==> Lines(s) == []
  {}

  lemma Cut<T>(a: seq<T>, b: seq<T>, k: nat)
    requires k < |a|
    ensures (a + b)[..k] == a[..k] && (a + b)[k] == a[k] && (a + b)[k+1..] == a[k+1..] + b
  {}

  lemma Regroup<T>(a: seq<T>, b: seq<T>, c: seq<T>)
    ensures (a + b) + c == a + (b + c)
  {}

  lemma FirstLine(a: string, b: string)
    requires a != "" && Ended(a)
    ensures var k := Find(a, '\n');
      k < |a| && Ended(a[k+1..]) && Lines(a) == [a[..k]] + Lines(a[k+1..])
      && Lines(a + b) == [a[..k]] + Lines(a[k+1..] + b)
  {
    FindInFront(a, b);
    var k := Find(a, '\n');
    assert Ended(a[k+1..]);
    hide *;
    LinesOf(a);
    LinesOf(a + b);
    Cut(a, b, k);
  }

  lemma {:induction false} LinesConcat(a: string, b: string)
    requires Ended(a)
    ensures Lines(a + b) == Lines(a) + Lines(b)
    decreases |a|
  {
    if a == "" {
      assert a + b == b;
    } else {
      FirstLine(a, b);
      hide *;
      var rest := a[Find(a, '\n')+1..];
      LinesConcat(rest, b);
      Regroup([a[..Find(a, '\n')]], Lines(rest), Lines(b));
    }
  }

  lemma {:induction false} FindInFront(a: string, b: string)
    requires a != "" && Ended(a)
    ensures Find(a, '\n') < |a| && Find(a + b, '\n') == Find(a, '\n')
  {
    if a[0] != '\n' {
      assert (a + b)[1..] == a[1..] + b;
      FindInFront(a[1..], b);
    }
  }

  lemma OneLine(s: string)
    requires '\n' !in s
    ensures Lines(s + "\n") == [s]
  {
    FindAfter(s, "\n", '\n');
    assert (s + "\n")[..|s|] == s && (s + "\n")[|s|+1..] == "";
  }

  /** The length of the run of characters before the first white space. */
  function WordLength(s: string): (k: nat)
    ensures k <= |s|
    ensures s != "" && !IsSpace(s[0]) ==> k > 0
  {
    if s == "" || IsSpace(s[0]) then 0 else 1 + WordLength(s[1..])
  }

  /** What successive extractions `stream >> string` return. */
  function Words(s: string): seq<string>
    decreases |s|
  {
    var t := SkipSpace(s);
    if t == "" then [] else
    var k := WordLength(t);
    assert !IsSpace(t[0]) by { SkipsAll(s); }
    [t[..k]] + Words(t[k..])
  }

  lemma {:induction false} SkipsAll(s: string)
    ensures SkipSpace(s) != "" ==> !IsSpace(SkipSpace(s)[0])
  {
    if s != "" && IsSpace(s[0]) { SkipsAll(s[1..]); }
  }

  /** A word that the stream stops at: not empty and without white space. */
  predicate IsWord(w: string) { w != "" && forall i :: 0 <= i < |w| ==> !IsSpace(w[i]) }

  lemma {:induction false} WordLengthOf(w: string, rest: string)
    requires (forall i :: 0 <= i < |w| ==> !IsSpace(w[i])) && (rest == "" || IsSpace(rest[0]))
    ensures WordLength(w + rest) == |w|
  {
    if w == "" {
      assert w + rest == rest;
    } else {
      assert (w + rest)[1..] == w[1..] + rest;
      WordLengthOf(w[1..], rest);
    }
  }

  /** Extraction stops at the space after a word. */
  lemma WordFirst(w: string, rest: string)
    requires IsWord(w) && (rest == "" || rest[0] == ' ')
    ensures Words(w + rest) == [w] + Words(rest)
  {
    WordLengthOf(w, rest);
    assert (w + rest)[..|w|] == w && (w + rest)[|w|..] == rest;
  }

  lemma SpaceFirst(s: string)
    ensures Words(" " + s) == Words(s)
  {
    assert (" " + s)[1..] == s;
  }

  /** A literal such as " to " holds one word with a space on both sides. */
  lemma SpacedWord(literal: string, w: string, rest: string)
    requires IsWord(w) && literal == " " + w + " "
    ensures Words(literal + rest) == [w] + Words(rest)
  {
    assert literal + rest == " " + (w + (" " + rest));
    hide Words;
    SpaceFirst(w + (" " + rest));
    WordFirst(w, " " + rest);
    SpaceFirst(rest);
  }
}
