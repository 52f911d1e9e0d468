/** JSON texts: the layout the topology writer uses, and a parser for RFC 8259 with integer numbers
    (whitespace of section 2, objects and arrays of sections 4 and 5, `int` of section 6, and the strings of
    section 7 with all their escapes). */
module Json {
  import opened Decimal

  datatype Json =
    | Obj(members: seq<Member>)
    | Arr(items: seq<Json>)
    | Str(text: string)
    | Num(n: int)

  datatype Member = Member(key: string, value: Json)

  datatype Parsed<T> = Ok(value: T, rest: string) | Fail

  // ---------------------------------------------------------------------------------------------
  // Printing.

  function Quoted(s: string): string { "\"" + s + "\"" }

  /** Every object starts on a new line; nothing else is spaced. */
  function Print(j: Json): string
    decreases j, 0
  {
    match j
    case Obj(ms) => "\n{" + PrintMembers(ms) + "}"
    case Arr(xs) => "[" + PrintItems(xs) + "]"
    case Str(s) => Quoted(s)
    case Num(n) => IntText(n)
  }

  function PrintMember(m: Member): string
    decreases m, 1
  {
    Quoted(m.key) + ":" + Print(m.value)
  }

  function PrintMembers(ms: seq<Member>): string
    decreases ms, 0
  {
    if ms == [] then "" else
    PrintMember(ms[0]) + if |ms| == 1 then "" else "," + PrintMembers(ms[1..])
  }

  function PrintItems(xs: seq<Json>): string
    decreases xs, 0
  {
    if xs == [] then "" else
    Print(xs[0]) + if |xs| == 1 then "" else "," + PrintItems(xs[1..])
  }

  // ---------------------------------------------------------------------------------------------
  // Parsing.

  predicate IsSpace(c: char) { c == ' ' || c == '\t' || c == '\n' || c == '\r' }

  predicate Unescaped(c: char) { c as int >= 0x20 && c != '"' && c != '\\' }

  function SkipSpace(s: string): (r: string)
    ensures |r| <= |s|
  {
    if s != "" && IsSpace(s[0]) then SkipSpace(s[1..]) else s
  }

  function HexValue(c: char): int {
    if '0' <= c <= '9' then c as int - '0' as int
    else if 'a' <= c <= 'f' then c as int - 'a' as int + 10
    else if 'A' <= c <= 'F' then c as int - 'A' as int + 10
    else -1
  }

  /** The value of four hexadecimal digits, or -1. */
  function Hex4(s: string): (v: int)
    ensures -1 <= v < 0x1_0000
  {
    if |s| < 4 || HexValue(s[0]) < 0 || HexValue(s[1]) < 0 || HexValue(s[2]) < 0 || HexValue(s[3]) < 0 then -1
    else ((HexValue(s[0]) * 16 + HexValue(s[1])) * 16 + HexValue(s[2])) * 16 + HexValue(s[3])
  }

  predicate HighSurrogate(v: int) { 0xD800 <= v < 0xDC00 }

  predicate LowSurrogate(v: int) { 0xDC00 <= v < 0xE000 }

  /** How many characters after a backslash belong to the escape; 0 if it is none. A character beyond the
      Basic Multilingual Plane takes a surrogate pair; a lone surrogate stands for no character. */
  function EscapeLength(s: string): (k: nat)
    ensures k <= |s|
  {
    if s == "" then 0
    else if s[0] in "\"\\/bfnrt" then 1
    else if s[0] != 'u' || Hex4(s[1..]) < 0 || LowSurrogate(Hex4(s[1..])) then 0
    else if !HighSurrogate(Hex4(s[1..])) then 5
    else if |s| >= 11 && s[5] == '\\' && s[6] == 'u' && LowSurrogate(Hex4(s[7..])) then 11
    else 0
  }

  /** The character that the escape stands for. */
  function EscapedChar(s: string): char
    requires EscapeLength(s) > 0
  {
    match s[0]
    case 'b' => 8 as char
    case 'f' => 12 as char
    case 'n' => '\n'
    case 'r' => '\r'
    case 't' => '\t'
    case 'u' =>
      var v := Hex4(s[1..]);
      if HighSurrogate(v) then (0x1_0000 + (v - 0xD800) * 0x400 + (Hex4(s[7..]) - 0xDC00)) as char else v as char
    case _ => s[0]
  }

  /** The rest of a string after its opening quote. */
  function ParseChars(s: string): (r: Parsed<string>)
    ensures r.Ok? ==> |r.rest| < |s|
    decreases |s|
  {
    if s == "" then Fail
    else if s[0] == '"' then Ok("", s[1..])
    else if s[0] == '\\' then
      var k := EscapeLength(s[1..]);
      if k == 0 then Fail
      else match ParseChars(s[1+k..])
        case Ok(text, rest) => Ok([EscapedChar(s[1..])] + text, rest)
        case Fail => Fail
    else if !Unescaped(s[0]) then Fail
    else match ParseChars(s[1..])
      case Ok(text, rest) => Ok([s[0]] + text, rest)
      case Fail => Fail
  }

  function ParseString(s: string): (r: Parsed<string>)
    ensures r.Ok? ==> |r.rest| < |s|
  {
    if s != "" && s[0] == '"' then ParseChars(s[1..]) else Fail
  }

  /** [ "-" ] int, not followed by a fraction or an exponent. */
  function ParseNumber(s: string): (r: Parsed<int>)
    ensures r.Ok? ==> |r.rest| < |s|
  {
    var negative := s != "" && s[0] == '-';
    var t := if negative then s[1..] else s;
    var n := LeadingDigits(t);
    var rest := t[n..];
    if n == 0 || (t[0] == '0' && n > 1) || (rest != "" && rest[0] in ".eE") then Fail
    else
      var v: int := Value(t[..n]);
      Ok(if negative then -v else v, rest)
  }

  function ParseValue(s: string): (r: Parsed<Json>)
    ensures r.Ok? ==> |r.rest| < |s|
    decreases |s|, 2
  {
    var t := SkipSpace(s);
    if t == "" then Fail
    else if t[0] == '{' then
      var u := SkipSpace(t[1..]);
      if u != "" && u[0] == '}' then Ok(Obj([]), u[1..])
      else match ParseMembers(t[1..])
        case Ok(ms, rest) => Ok(Obj(ms), rest)
        case Fail => Fail
    else if t[0] == '[' then
      var u := SkipSpace(t[1..]);
      if u != "" && u[0] == ']' then Ok(Arr([]), u[1..])
      else match ParseItems(t[1..])
        case Ok(xs, rest) => Ok(Arr(xs), rest)
        case Fail => Fail
    else if t[0] == '"' then
      match ParseString(t)
      case Ok(text, rest) => Ok(Str(text), rest)
      case Fail => Fail
    else
      match ParseNumber(t)
      case Ok(n, rest) => Ok(Num(n), rest)
      case Fail => Fail
  }

  /** string name-separator value */
  function ParseMember(s: string): (r: Parsed<Member>)
    ensures r.Ok? ==> |r.rest| < |s|
    decreases |s|, 3
  {
    match ParseString(SkipSpace(s))
    case Fail => Fail
    case Ok(key, afterKey) =>
      var t := SkipSpace(afterKey);
      if t == "" || t[0] != ':' then Fail
      else match ParseValue(t[1..])
        case Fail => Fail
        case Ok(v, rest) => Ok(Member(key, v), rest)
  }

  /** member *( value-separator member ) end-object */
  function ParseMembers(s: string): (r: Parsed<seq<Member>>)
    ensures r.Ok? ==> |r.rest| < |s|
    decreases |s|, 4
  {
    match ParseMember(s)
    case Fail => Fail
    case Ok(m, afterMember) =>
      var t := SkipSpace(afterMember);
      if t == "" then Fail
      else if t[0] == '}' then Ok([m], t[1..])
      else if t[0] != ',' then Fail
      else match ParseMembers(t[1..])
        case Fail => Fail
        case Ok(ms, rest) => Ok([m] + ms, rest)
  }

  /** value *( value-separator value ) end-array */
  function ParseItems(s: string): (r: Parsed<seq<Json>>)
    ensures r.Ok? ==> |r.rest| < |s|
    decreases |s|, 4
  {
    match ParseValue(s)
    case Fail => Fail
    case Ok(x, afterValue) =>
      var t := SkipSpace(afterValue);
      if t == "" then Fail
      else if t[0] == ']' then Ok([x], t[1..])
      else if t[0] != ',' then Fail
      else match ParseItems(t[1..])
        case Fail => Fail
        case Ok(xs, rest) => Ok([x] + xs, rest)
  }

  /** A JSON text is one value, with whitespace around it. */
  function ParseDocument(s: string): (r: Parsed<Json>) {
    match ParseValue(s)
    case Fail => Fail
    case Ok(j, rest) => if SkipSpace(rest) == "" then Ok(j, "") else Fail
  }

  // ---------------------------------------------------------------------------------------------
  // Round trip.

  predicate CleanText(s: string) { forall i :: 0 <= i < |s| ==> Unescaped(s[i]) }

  /** Every string of the value can be written without escapes. */
  predicate Clean(j: Json)
    decreases j, 0
  {
    match j
    case Obj(ms) => CleanMembers(ms)
    case Arr(xs) => CleanItems(xs)
    case Str(s) => CleanText(s)
    case Num(_) => true
  }

  predicate CleanMembers(ms: seq<Member>)
    decreases ms, 0
  {
    ms == [] || (CleanText(ms[0].key) && Clean(ms[0].value) && CleanMembers(ms[1..]))
  }

  predicate CleanItems(xs: seq<Json>)
    decreases xs, 0
  {
    xs == [] || (Clean(xs[0]) && CleanItems(xs[1..]))
  }

  /** Text that cannot be taken for more of a number. */
  predicate Ends(rest: string) { rest == "" || (!IsDigit(rest[0]) && rest[0] !in ".eE") }

  lemma {:induction false} CharsRoundTrip(s: string, rest: string)
    requires CleanText(s)
    ensures ParseChars(s + "\"" + rest) == Ok(s, rest)
  {
    var t := s + "\"" + rest;
    if s == "" {
      assert t[0] == '"' && t[1..] == rest;
    } else {
      assert t[0] == s[0] && t[1..] == s[1..] + "\"" + rest;
      CharsRoundTrip(s[1..], rest);
      assert s == [s[0]] + s[1..];
    }
  }

  lemma StringRoundTrip(s: string, rest: string)
    requires CleanText(s)
    ensures ParseString(Quoted(s) + rest) == Ok(s, rest)
    ensures (Quoted(s) + rest)[0] == '"'
  {
    assert (Quoted(s) + rest)[1..] == s + "\"" + rest;
    CharsRoundTrip(s, rest);
  }

  lemma NumberRoundTrip(n: int, rest: string)
    requires Ends(rest)
    ensures ParseNumber(IntText(n) + rest) == Ok(n, rest)
    ensures IntText(n)[0] == '-' || IsDigit(IntText(n)[0])
  {
    var m: nat := if n < 0 then -n else n;
    var d := Digits(m);
    DigitsRead(m);
    LeadingDigitsOf(d, rest);
    assert (d + rest)[..|d|] == d && (d + rest)[|d|..] == rest;
    if n < 0 { assert ("-" + d + rest)[1..] == d + rest; }
  }

  /** What is printed for any value is read back as that value, with nothing else consumed. */
  lemma {:induction false} ValueRoundTrip(j: Json, rest: string)
    requires Clean(j) && Ends(rest)
    ensures ParseValue(Print(j) + rest) == Ok(j, rest)
    decreases j, 0
  {
    hide ParseMembers, ParseItems, ParseString, ParseNumber, CleanText, Ends;
    match j
    case Str(s) => StringRoundTrip(s, rest);
    case Num(n) => NumberRoundTrip(n, rest);
    case Obj(ms) => ObjectRoundTrip(ms, rest);
    case Arr(xs) => ArrayRoundTrip(xs, rest);
  }

  lemma ObjectFrom(t: string, ms: seq<Member>, rest: string)
    requires |t| > 1 && t[0] == '{' && t[1] == '"' && SkipSpace(t[1..]) == t[1..]
    requires ParseMembers(t[1..]) == Ok(ms, rest)
    ensures ParseValue(t) == Ok(Obj(ms), rest)
  {
    assert SkipSpace(t) == t;
    hide ParseMembers, SkipSpace;
  }

  lemma EmptyObject(rest: string)
    ensures ParseValue(Print(Obj([])) + rest) == Ok(Obj([]), rest)
  {
    var t := "{" + ("}" + rest);
    assert Print(Obj([])) + rest == "\n" + t && ("\n" + t)[1..] == t && t[1..] == "}" + rest;
    assert SkipSpace("\n" + t) == SkipSpace(t) == t && SkipSpace(t[1..]) == t[1..];
    assert ("}" + rest)[1..] == rest;
    hide ParseMembers, ParseItems, ParseString, ParseNumber;
  }

  lemma {:induction false} ObjectRoundTrip(ms: seq<Member>, rest: string)
    requires CleanMembers(ms)
    ensures ParseValue(Print(Obj(ms)) + rest) == Ok(Obj(ms), rest)
    decreases ms, 3
  {
    hide *;
    if ms == [] {
      EmptyObject(rest);
    } else {
      ObjectText(ms, rest);
      ParsePastSpace(Print(Obj(ms)) + rest);
      MembersRoundTrip(ms, rest);
      ObjectFrom(SkipSpace(Print(Obj(ms)) + rest), ms, rest);
    }
  }

  lemma StartsWithQuote(ms: seq<Member>)
    requires ms != []
    ensures PrintMembers(ms) != "" && PrintMembers(ms)[0] == '"'
  {
    hide Print;
    assert PrintMember(ms[0])[0] == '"';
  }

  lemma JoinedTexts(a: string, b: string, close: string, rest: string)
    requires close == "}" || close == "]"
    ensures a + "" + close + rest == a + (close + rest)
    ensures a + ("," + b) + close + rest == a + ("," + (b + close + rest))
    ensures Ends(close + rest) && Ends("," + (b + close + rest))
  {
  }

  /** A list of members begins with what is printed of its first one. */
  lemma FirstMember(ms: seq<Member>, rest: string) returns (more: string)
    requires ms != []
    ensures PrintMembers(ms) + "}" + rest == PrintMember(ms[0]) + more && Ends(more)
    ensures |ms| == 1 ==> more == "}" + rest
    ensures |ms| > 1 ==> more == "," + (PrintMembers(ms[1..]) + "}" + rest)
  {
    var a, b := PrintMember(ms[0]), PrintMembers(ms[1..]);
    assert PrintMembers(ms) == a + if |ms| == 1 then "" else "," + b;
    hide *;
    more := if |ms| == 1 then "}" + rest else "," + (b + "}" + rest);
    JoinedTexts(a, b, "}", rest);
  }

  lemma CleanFirst(ms: seq<Member>, k: nat)
    requires 0 < k <= |ms| && (CleanMembers(ms[..k]) || (k == |ms| && CleanMembers(ms)))
    ensures CleanText(ms[0].key) && Clean(ms[0].value) && CleanMembers(ms[1..][..k-1])
    ensures k == |ms| ==> CleanMembers(ms[1..])
  {
    assert ms[..|ms|] == ms;
    assert ms[..k][1..] == ms[1..][..k-1] && (k == |ms| ==> ms[1..][..k-1] == ms[1..]);
    hide Clean, CleanText;
  }

  lemma {:induction false} MembersRoundTrip(ms: seq<Member>, rest: string)
    requires CleanMembers(ms) && ms != []
    ensures ParseMembers(PrintMembers(ms) + "}" + rest) == Ok(ms, rest)
    ensures |PrintMembers(ms)| > 0 && PrintMembers(ms)[0] == '"'
    decreases ms, 2
  {
    hide *;
    CleanFirst(ms, |ms|);
    StartsWithQuote(ms);
    var more := FirstMember(ms, rest);
    MemberRoundTrip(ms[0], more);
    if |ms| == 1 {
      assert more[1..] == rest && [ms[0]] == ms;
      LastMember(PrintMember(ms[0]) + more, ms[0], more);
    } else {
      MembersRoundTrip(ms[1..], rest);
      assert ms == [ms[0]] + ms[1..];
      NextMember(PrintMember(ms[0]) + more, ms[0], PrintMembers(ms[1..]) + "}" + rest, ms[1..], rest);
    }
  }

  lemma LastMember(s: string, m: Member, more: string)
    requires ParseMember(s) == Ok(m, more) && more != "" && more[0] == '}'
    ensures ParseMembers(s) == Ok([m], more[1..])
  {
    hide ParseMember;
  }

  lemma NextMember(s: string, m: Member, next: string, ms: seq<Member>, rest: string)
    requires ParseMember(s) == Ok(m, "," + next) && ParseMembers(next) == Ok(ms, rest)
    ensures ParseMembers(s) == Ok([m] + ms, rest)
  {
    assert ("," + next)[1..] == next;
    hide ParseMember;
  }

  lemma {:induction false} MemberRoundTrip(m: Member, rest: string)
    requires CleanText(m.key) && Clean(m.value) && Ends(rest)
    ensures ParseMember(PrintMember(m) + rest) == Ok(m, rest)
    ensures |PrintMember(m)| > 0 && PrintMember(m)[0] == '"'
    decreases m, 1
  {
    var tail := ":" + (Print(m.value) + rest);
    assert PrintMember(m) + rest == Quoted(m.key) + tail;
    StringRoundTrip(m.key, tail);
    assert tail[1..] == Print(m.value) + rest;
    ValueRoundTrip(m.value, rest);
  }

  lemma {:induction false} ArrayRoundTrip(xs: seq<Json>, rest: string)
    requires CleanItems(xs)
    ensures ParseValue(Print(Arr(xs)) + rest) == Ok(Arr(xs), rest)
    decreases xs, 3
  {
    var t := "[" + PrintItems(xs) + "]" + rest;
    assert Print(Arr(xs)) + rest == t;
    assert t[1..] == PrintItems(xs) + "]" + rest;
    if xs == [] {
      assert t[1..] == "]" + rest;
    } else {
      ItemsRoundTrip(xs, rest);
    }
  }

  /** A list of items begins with what is printed of its first one. */
  lemma FirstItem(xs: seq<Json>, rest: string) returns (more: string)
    requires xs != []
    ensures PrintItems(xs) + "]" + rest == Print(xs[0]) + more && Ends(more)
    ensures |xs| == 1 ==> more == "]" + rest
    ensures |xs| > 1 ==> more == "," + (PrintItems(xs[1..]) + "]" + rest)
  {
    var a, b := Print(xs[0]), PrintItems(xs[1..]);
    assert PrintItems(xs) == a + if |xs| == 1 then "" else "," + b;
    hide *;
    more := if |xs| == 1 then "]" + rest else "," + (b + "]" + rest);
    JoinedTexts(a, b, "]", rest);
  }

  lemma {:induction false} ItemsRoundTrip(xs: seq<Json>, rest: string)
    requires CleanItems(xs) && xs != []
    ensures ParseItems(PrintItems(xs) + "]" + rest) == Ok(xs, rest)
    ensures var u := SkipSpace(PrintItems(xs) + "]" + rest); u != "" && u[0] != ']'
    decreases xs, 2
  {
    assert Clean(xs[0]) && CleanItems(xs[1..]);
    hide *;
    var more := FirstItem(xs, rest);
    ValueRoundTrip(xs[0], more);
    NoClosing(Print(xs[0]) + more, xs[0], more);
    if |xs| == 1 {
      assert more[1..] == rest && [xs[0]] == xs;
      LastItem(Print(xs[0]) + more, xs[0], more);
    } else {
      ItemsRoundTrip(xs[1..], rest);
      assert xs == [xs[0]] + xs[1..];
      NextItem(Print(xs[0]) + more, xs[0], PrintItems(xs[1..]) + "]" + rest, xs[1..], rest);
    }
  }

  lemma LastItem(s: string, x: Json, more: string)
    requires ParseValue(s) == Ok(x, more) && more != "" && more[0] == ']'
    ensures ParseItems(s) == Ok([x], more[1..])
  {
    hide ParseValue;
  }

  lemma NextItem(s: string, x: Json, next: string, xs: seq<Json>, rest: string)
    requires ParseValue(s) == Ok(x, "," + next) && ParseItems(next) == Ok(xs, rest)
    ensures ParseItems(s) == Ok([x] + xs, rest)
  {
    assert ("," + next)[1..] == next;
    hide ParseValue;
  }

  /** No value starts with a closing bracket. */
  lemma NoClosing(s: string, x: Json, rest: string)
    requires ParseValue(s) == Ok(x, rest)
    ensures var u := SkipSpace(s); u != "" && u[0] != ']'
  {
    hide ParseMembers, ParseItems, ParseString;
  }

  // ---------------------------------------------------------------------------------------------
  // Only clean values survive.

  lemma EscapeHidesNoQuote(s: string)
    requires EscapeLength(s) > 0
    ensures s[0] == '"' ==> EscapeLength(s) == 1 && EscapedChar(s) == '"'
    ensures s[0] != '"' ==> forall i :: 0 <= i < EscapeLength(s) ==> s[i] != '"'
  {
    var k := EscapeLength(s);
    if s[0] != '"' {
      forall i | 0 <= i < k ensures s[i] != '"' {
        if 1 <= i < 5 { assert s[1..][i-1] == s[i]; }
        if 7 <= i { assert s[7..][i-7] == s[i]; }
      }
    }
  }

  /** Reading a string against the first quote of its text: either that quote ends the string, which is then
      no longer than the text before it, and equally long only if that text is clean; or the quote is part
      of an escape, and a quote is decoded at an earlier position than it stands. */
  lemma {:induction false} FirstQuote(t: string, q: nat)
    requires q < |t| && t[q] == '"' && '"' !in t[..q] && ParseChars(t).Ok?
    ensures var v := ParseChars(t).value;
      || (|v| <= q && (|v| == q ==> v == t[..q] && CleanText(v)))
      || exists d :: 0 <= d < q && d < |v| && v[d] == '"'
    decreases q
  {
    if q > 0 {
      assert t[0] in t[..q];
      if t[0] == '\\' {
        EscapeHidesNoQuote(t[1..]);
        var k := EscapeLength(t[1..]);
        var v, c := ParseChars(t[1+k..]).value, EscapedChar(t[1..]);
        assert ParseChars(t).value == [c] + v;
        assert forall i :: 1 <= i <= k ==> t[i] == t[1..][i-1];
        hide ParseChars, EscapedChar, EscapeLength;
        AfterEscape(t, q, k, v, c);
      } else {
        var v := ParseChars(t[1..]).value;
        assert ParseChars(t).value == [t[0]] + v && Unescaped(t[0]);
        hide ParseChars, Unescaped;
        AfterPlain(t, q, v);
      }
    }
  }

  lemma {:induction false} AfterPlain(t: string, q: nat, v: string)
    requires 0 < q < |t| && t[q] == '"' && '"' !in t[..q] && Unescaped(t[0])
    requires ParseChars(t[1..]).Ok? && v == ParseChars(t[1..]).value
    ensures var w := [t[0]] + v;
      || (|w| <= q && (|w| == q ==> w == t[..q] && CleanText(w)))
      || exists d :: 0 <= d < q && d < |w| && w[d] == '"'
    decreases q, 0
  {
    var w := [t[0]] + v;
    assert t[1..][..q-1] == t[..q][1..];
    hide ParseChars;
    FirstQuote(t[1..], q - 1);
    if d :| 0 <= d < q - 1 && d < |v| && v[d] == '"' {
      assert w[d+1] == '"';
    }
  }

  lemma {:induction false} AfterEscape(t: string, q: nat, k: nat, v: string, c: char)
    requires 0 < q < |t| && t[q] == '"' && '"' !in t[..q] && 0 < k < |t|
    requires t[1] == '"' ==> k == 1 && c == '"'
    requires t[1] != '"' ==> forall i :: 1 <= i <= k ==> t[i] != '"'
    requires ParseChars(t[1+k..]).Ok? && v == ParseChars(t[1+k..]).value
    ensures var w := [c] + v;
      |w| < q || exists d :: 0 <= d < q && d < |w| && w[d] == '"'
    decreases q, 0
  {
    var w := [c] + v;
    hide *;
    if t[1] == '"' {
      assert w[0] == '"';
    } else {
      assert q > k;
      var rest := t[1+k..];
      assert rest[q-1-k] == t[q];
      forall i | 0 <= i < q - 1 - k ensures rest[i] != '"' { assert t[..q][1+k+i] == rest[i]; }
      FirstQuote(rest, q - 1 - k);
      if d :| 0 <= d < q - 1 - k && d < |v| && v[d] == '"' {
        assert w[d+1] == '"';
      }
    }
  }

  lemma {:induction false} LeastQuote(s: string) returns (q: nat)
    ensures q <= |s| && '"' !in s[..q] && (q < |s| ==> s[q] == '"')
  {
    q := 0;
    while q < |s| && s[q] != '"'
      invariant q <= |s| && '"' !in s[..q]
    {
      q := q + 1;
    }
  }

  /** A string that is read back from its unescaped print needs no escapes. */
  lemma CharsOnlyIfClean(s: string, rest: string)
    requires ParseChars(s + "\"" + rest).Ok? && ParseChars(s + "\"" + rest).value == s
    ensures CleanText(s)
  {
    var t := s + "\"" + rest;
    var q := LeastQuote(s);
    assert t[..q] == s[..q] && t[q] == '"';
    assert forall d :: 0 <= d < q ==> s[d] == s[..q][d] != '"';
    hide ParseChars, CleanText;
    FirstQuote(t, q);
  }

  lemma StringOnlyIfClean(s: string, rest: string)
    requires ParseString(Quoted(s) + rest).Ok? && ParseString(Quoted(s) + rest).value == s
    ensures CleanText(s)
  {
    assert (Quoted(s) + rest)[1..] == s + "\"" + rest;
    hide ParseChars, CleanText;
    CharsOnlyIfClean(s, rest);
  }

  lemma {:induction false} ValueOnlyIfClean(j: Json, rest: string)
    requires Ends(rest) && ParseValue(Print(j) + rest).Ok? && ParseValue(Print(j) + rest).value == j
    ensures Clean(j)
    decreases j, 0
  {
    match j
    case Str(s) =>
      var t := Quoted(s) + rest;
      assert SkipSpace(t) == t && t[0] == '"';
      hide ParseString, CleanText, ParseMembers, ParseItems, ParseNumber;
      StringOnlyIfClean(s, rest);
    case Num(n) =>
    case Obj(ms) =>
      if ms != [] { ObjectOnlyIfClean(ms, rest); }
    case Arr(xs) =>
      if xs != [] { ArrayOnlyIfClean(xs, rest); }
  }

  lemma AfterBrace(u: string)
    requires u != "" && u[0] == '"'
    ensures var t := SkipSpace("\n{" + u); |t| > 1 && t[0] == '{' && t[1] == '"' && t[1..] == u && SkipSpace(u) == u
  {
    assert ("\n{" + u)[1..] == "{" + u;
  }

  lemma Enclosed(open: string, p: string, close: string, rest: string)
    ensures open + p + close + rest == open + (p + close + rest)
  {
  }

  lemma ObjectText(ms: seq<Member>, rest: string)
    requires ms != []
    ensures var t := SkipSpace(Print(Obj(ms)) + rest);
      |t| > 1 && t[0] == '{' && t[1] == '"' && t[1..] == PrintMembers(ms) + "}" + rest && SkipSpace(t[1..]) == t[1..]
  {
    assert Print(Obj(ms)) == "\n{" + PrintMembers(ms) + "}";
    hide *;
    StartsWithQuote(ms);
    Enclosed("\n{", PrintMembers(ms), "}", rest);
    AfterBrace(PrintMembers(ms) + "}" + rest);
  }

  lemma ObjectBegins(t: string)
    requires t != "" && t[0] == '{' && |t| > 1 && SkipSpace(t[1..]) == t[1..] && t[1] == '"' && ParseValue(t).Ok?
    ensures ParseMembers(t[1..]).Ok? && ParseValue(t).value == Obj(ParseMembers(t[1..]).value)
  {
    assert SkipSpace(t) == t;
    hide ParseMembers, SkipSpace;
  }

  lemma ParsePastSpace(s: string)
    ensures ParseValue(SkipSpace(s)) == ParseValue(s)
  {
    SkipTwice(s);
    hide SkipSpace, ParseMembers, ParseItems, ParseString, ParseNumber;
  }

  lemma {:induction false} SkipTwice(s: string)
    ensures SkipSpace(SkipSpace(s)) == SkipSpace(s)
  {
    if s != "" && IsSpace(s[0]) { SkipTwice(s[1..]); }
  }

  lemma {:induction false} ObjectOnlyIfClean(ms: seq<Member>, rest: string)
    requires ms != [] && ParseValue(Print(Obj(ms)) + rest).Ok? && ParseValue(Print(Obj(ms)) + rest).value == Obj(ms)
    ensures CleanMembers(ms)
    decreases ms, 3
  {
    hide *;
    ObjectText(ms, rest);
    ParsePastSpace(Print(Obj(ms)) + rest);
    ObjectBegins(SkipSpace(Print(Obj(ms)) + rest));
    MembersOnlyIfClean(ms, rest);
  }

  /** If the members are what the parser makes of the text, so is the first one. */
  lemma MembersBegin(s: string, ms: seq<Member>)
    requires ParseMembers(s).Ok? && ParseMembers(s).value == ms
    ensures ms != [] && ParseMember(s).Ok? && ParseMember(s).value == ms[0]
    ensures var t := SkipSpace(ParseMember(s).rest);
      |ms| > 1 ==> t != "" && ParseMembers(t[1..]).Ok? && ParseMembers(t[1..]).value == ms[1..]
  {
    hide ParseMember, SkipSpace;
  }

  lemma {:induction false} MembersOnlyIfClean(ms: seq<Member>, rest: string)
    requires ms != []
    requires ParseMembers(PrintMembers(ms) + "}" + rest).Ok? && ParseMembers(PrintMembers(ms) + "}" + rest).value == ms
    ensures CleanMembers(ms)
    decreases ms, 2
  {
    var more := FirstMember(ms, rest);
    var s := PrintMember(ms[0]) + more;
    MembersBegin(s, ms);
    assert CleanMembers(ms) <==> CleanText(ms[0].key) && Clean(ms[0].value) && CleanMembers(ms[1..]);
    assert CleanMembers([]);
    assert |ms| > 1 ==> SkipSpace(more) == more && more[1..] == PrintMembers(ms[1..]) + "}" + rest;
    hide *;
    MemberOnlyIfClean(ms[0], more);
    MemberRoundTrip(ms[0], more);
    if |ms| > 1 { MembersOnlyIfClean(ms[1..], rest); } else { assert ms[1..] == []; }
  }

  lemma MemberText(m: Member, rest: string)
    ensures var tail := ":" + (Print(m.value) + rest);
      && PrintMember(m) + rest == Quoted(m.key) + tail && SkipSpace(Quoted(m.key) + tail) == Quoted(m.key) + tail
      && SkipSpace(tail) == tail && tail[1..] == Print(m.value) + rest
  {
    hide Print;
    assert (Quoted(m.key) + (":" + (Print(m.value) + rest)))[0] == '"';
  }

  lemma MemberBegins(s: string, m: Member, tail: string)
    requires SkipSpace(s) == s && SkipSpace(tail) == tail && tail != ""
    requires ParseMember(s).Ok? && ParseMember(s).value == m
    ensures ParseString(s).Ok? && ParseString(s).value == m.key
    ensures ParseString(s).rest == tail ==> ParseValue(tail[1..]).Ok? && ParseValue(tail[1..]).value == m.value
  {
    hide ParseString, ParseValue, SkipSpace;
  }

  lemma {:induction false} MemberOnlyIfClean(m: Member, rest: string)
    requires Ends(rest) && ParseMember(PrintMember(m) + rest).Ok? && ParseMember(PrintMember(m) + rest).value == m
    ensures CleanText(m.key) && Clean(m.value)
    decreases m, 1
  {
    hide *;
    var tail := ":" + (Print(m.value) + rest);
    MemberText(m, rest);
    MemberBegins(Quoted(m.key) + tail, m, tail);
    StringOnlyIfClean(m.key, tail);
    StringRoundTrip(m.key, tail);
    ValueOnlyIfClean(m.value, rest);
  }

  lemma AfterBracket(u: string)
    ensures SkipSpace("[" + u) == "[" + u && ("[" + u)[1..] == u
  {
  }

  lemma ArrayText(xs: seq<Json>, rest: string)
    ensures Print(Arr(xs)) + rest == "[" + (PrintItems(xs) + "]" + rest)
  {
    assert Print(Arr(xs)) == "[" + PrintItems(xs) + "]";
    hide *;
    Enclosed("[", PrintItems(xs), "]", rest);
  }

  lemma ArrayBegins(t: string)
    requires t != "" && t[0] == '[' && SkipSpace(t) == t && ParseValue(t).Ok?
    ensures ParseValue(t).value.Arr?
    ensures var xs := ParseValue(t).value.items; xs != [] ==> ParseItems(t[1..]).Ok? && ParseItems(t[1..]).value == xs
  {
    hide ParseItems, SkipSpace;
  }

  lemma {:induction false} ArrayOnlyIfClean(xs: seq<Json>, rest: string)
    requires xs != [] && ParseValue(Print(Arr(xs)) + rest).Ok? && ParseValue(Print(Arr(xs)) + rest).value == Arr(xs)
    ensures CleanItems(xs)
    decreases xs, 3
  {
    hide *;
    var u := PrintItems(xs) + "]" + rest;
    ArrayText(xs, rest);
    AfterBracket(u);
    ArrayBegins("[" + u);
    ItemsOnlyIfClean(xs, rest);
  }

  lemma ItemsBegin(s: string, xs: seq<Json>)
    requires ParseItems(s).Ok? && ParseItems(s).value == xs
    ensures xs != [] && ParseValue(s).Ok? && ParseValue(s).value == xs[0]
    ensures var t := SkipSpace(ParseValue(s).rest);
      |xs| > 1 ==> t != "" && ParseItems(t[1..]).Ok? && ParseItems(t[1..]).value == xs[1..]
  {
    hide ParseValue, SkipSpace;
  }

  lemma {:induction false} ItemsOnlyIfClean(xs: seq<Json>, rest: string)
    requires xs != []
    requires ParseItems(PrintItems(xs) + "]" + rest).Ok? && ParseItems(PrintItems(xs) + "]" + rest).value == xs
    ensures CleanItems(xs)
    decreases xs, 2
  {
    var more := FirstItem(xs, rest);
    var s := Print(xs[0]) + more;
    ItemsBegin(s, xs);
    assert CleanItems(xs) <==> Clean(xs[0]) && CleanItems(xs[1..]);
    assert CleanItems([]);
    assert |xs| > 1 ==> SkipSpace(more) == more && more[1..] == PrintItems(xs[1..]) + "]" + rest;
    hide *;
    ValueOnlyIfClean(xs[0], more);
    ValueRoundTrip(xs[0], more);
    if |xs| > 1 { ItemsOnlyIfClean(xs[1..], rest); } else { assert xs[1..] == []; }
  }

  // ---------------------------------------------------------------------------------------------
  // What is read of a text whose beginning is clean.

  /** A member with a clean key is read with that key, and its value is read next. */
  lemma MemberSeen(m: Member, more: string)
    requires CleanText(m.key) && ParseMember(PrintMember(m) + more).Ok?
    ensures var v := ParseMember(PrintMember(m) + more).value;
      && v.key == m.key && ParseValue(Print(m.value) + more).Ok?
      && ParseValue(Print(m.value) + more).value == v.value
  {
    hide *;
    var tail := ":" + (Print(m.value) + more);
    MemberText(m, more);
    StringRoundTrip(m.key, tail);
    MemberBegins(Quoted(m.key) + tail, ParseMember(PrintMember(m) + more).value, tail);
  }

  lemma MembersStep(s: string, m: Member, next: string)
    requires ParseMember(s) == Ok(m, "," + next) && ParseMembers(s).Ok?
    ensures ParseMembers(next).Ok? && ParseMembers(s).value == [m] + ParseMembers(next).value
  {
    assert ("," + next)[1..] == next;
    hide ParseMember;
  }

  /** If the first k members are clean, they are read as they are, and what follows them is read next. */
  lemma {:induction false} MembersAfter(ms: seq<Member>, k: nat, rest: string)
    requires k < |ms| && CleanMembers(ms[..k]) && ParseMembers(PrintMembers(ms) + "}" + rest).Ok?
    ensures ParseMembers(PrintMembers(ms[k..]) + "}" + rest).Ok?
    ensures ParseMembers(PrintMembers(ms) + "}" + rest).value ==
      ms[..k] + ParseMembers(PrintMembers(ms[k..]) + "}" + rest).value
    decreases k
  {
    hide *;
    if k == 0 {
      assert ms[0..] == ms;
    } else {
      var next := PrintMembers(ms[1..]) + "}" + rest;
      var more := FirstMember(ms, rest);
      CleanFirst(ms, k);
      MemberRoundTrip(ms[0], more);
      MembersStep(PrintMember(ms[0]) + more, ms[0], next);
      MembersAfter(ms[1..], k - 1, rest);
      assert ms[1..][k-1..] == ms[k..] && ms[..k] == [ms[0]] + ms[1..][..k-1];
    }
  }

  /** Member k, when those before it are clean: `more` is the text after it. */
  lemma MemberAt(ms: seq<Member>, k: nat, rest: string) returns (more: string)
    requires k < |ms| && CleanMembers(ms[..k]) && CleanText(ms[k].key)
    requires ParseMembers(PrintMembers(ms) + "}" + rest).Ok?
    ensures var vs := ParseMembers(PrintMembers(ms) + "}" + rest).value;
      && |vs| > k && vs[..k] == ms[..k] && vs[k].key == ms[k].key && Ends(more)
      && ParseValue(Print(ms[k].value) + more).Ok? && ParseValue(Print(ms[k].value) + more).value == vs[k].value
  {
    hide *;
    MembersAfter(ms, k, rest);
    more := FirstMember(ms[k..], rest);
    var s := PrintMember(ms[k]) + more;
    MembersBegin(s, ParseMembers(s).value);
    MemberSeen(ms[k], more);
  }

  /** A printed value reads back as itself exactly when none of its strings needs escaping. */
  lemma RoundTripExactly(j: Json)
    ensures ParseDocument(Print(j)) == Ok(j, "") <==> Clean(j)
  {
    assert Print(j) + "" == Print(j) && SkipSpace("") == "" && Ends("");
    if Clean(j) { ValueRoundTrip(j, ""); }
    hide Clean, Print, ParseValue;
    if ParseDocument(Print(j)) == Ok(j, "") { ValueOnlyIfClean(j, ""); }
  }
}
