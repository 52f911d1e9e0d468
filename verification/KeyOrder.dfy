/** The iteration order of a std::map with string keys. */
module KeyOrder {
  import opened Collections

  /** std::string's operator<. */
  predicate Before(a: string, b: string) {
    b != "" && (a == "" || a[0] < b[0] || (a[0] == b[0] && Before(a[1..], b[1..])))
  }

  /** The two agree up to k, and there a ends while b goes on, or a has the smaller character. */
  predicate DecidedAt(a: string, b: string, k: nat) {
    k <= |a| && k < |b| && (forall m :: 0 <= m < k ==> a[m] == b[m]) && (k == |a| || a[k] < b[k])
  }

  lemma DecidedLater(a: string, b: string, k: nat)
    requires a != "" && b != "" && a[0] == b[0]
    ensures DecidedAt(a[1..], b[1..], k) <==> DecidedAt(a, b, k + 1)
  {
    if DecidedAt(a[1..], b[1..], k) {
      forall m | 0 <= m < k + 1 ensures a[m] == b[m] {
        if m > 0 { assert a[1..][m-1] == b[1..][m-1]; }
      }
    }
  }

  /** The order is lexicographic. */
  lemma {:induction false} BeforeIs(a: string, b: string)
    ensures Before(a, b) <==> exists k: nat :: DecidedAt(a, b, k)
  {
    if a != "" && b != "" && a[0] == b[0] {
      BeforeIs(a[1..], b[1..]);
      assert !DecidedAt(a, b, 0);
      hide DecidedAt;
      if k: nat :| DecidedAt(a[1..], b[1..], k) { DecidedLater(a, b, k); }
      if k: nat :| DecidedAt(a, b, k) { DecidedLater(a, b, k - 1); }
    } else {
      assert Before(a, b) ==> DecidedAt(a, b, 0);
    }
  }

  lemma {:induction false} Total(a: string, b: string)
    ensures a == b || Before(a, b) || Before(b, a)
  {
    if a != "" && b != "" && a[0] == b[0] {
      Total(a[1..], b[1..]);
      assert a == [a[0]] + a[1..] && b == [b[0]] + b[1..];
    }
  }

  lemma {:induction false} Asymmetric(a: string, b: string)
    ensures !(Before(a, b) && Before(b, a))
  {
    if a != "" && b != "" { Asymmetric(a[1..], b[1..]); }
  }

  lemma {:induction false} Transitive(a: string, b: string, c: string)
    requires Before(a, b) && Before(b, c)
    ensures Before(a, c)
  {
    if a != "" && a[0] == b[0] == c[0] { Transitive(a[1..], b[1..], c[1..]); }
  }

  ghost predicate IsFirst(d: string, s: set<string>) { d in s && forall e :: e in s ==> e == d || Before(d, e) }

  lemma FirstOfTwo(x: string, d: string, s: set<string>) returns (f: string)
    requires x in s && IsFirst(d, s - {x})
    ensures IsFirst(f, s)
  {
    f := if Before(x, d) then x else d;
    forall e | e in s ensures e == f || Before(f, e) {
      if f == x {
        if e != x && e != d { Transitive(x, d, e); }
      } else {
        Total(x, d);
      }
    }
  }

  lemma {:induction false} HasFirst(s: set<string>)
    requires s != {}
    ensures exists d :: IsFirst(d, s)
  {
    var x := SomeElement(s);
    if s == {x} {
      assert IsFirst(x, s);
    } else {
      HasFirst(s - {x});
      var d :| IsFirst(d, s - {x});
      var f := FirstOfTwo(x, d, s);
    }
  }

  /** The keys in iteration order. */
  ghost function Sorted(s: set<string>): (r: seq<string>)
    ensures forall d :: d in r <==> d in s
  {
    if s == {} then [] else
    HasFirst(s);
    var d :| IsFirst(d, s);
    [d] + Sorted(s - {d})
  }

  lemma SortedFrom(d: string, s: set<string>)
    requires IsFirst(d, s)
    ensures Sorted(s) == [d] + Sorted(s - {d})
  {
    forall e | IsFirst(e, s) ensures e == d {
      Asymmetric(d, e);
    }
  }

  /** Where the iterator stands: at the first key still to come. */
  method FirstKey(s: set<string>) returns (d: string)
    requires s != {}
    ensures IsFirst(d, s) && d in s
  {
    d := AnyOf(s);
    var rest := s - {d};
    while rest != {}
      invariant d in s && rest <= s
      invariant forall e :: e in s ==> e == d || Before(d, e) || e in rest
      decreases |rest|
    {
      var e := AnyOf(rest);
      rest := rest - {e};
      if Before(e, d) {
        forall x | x in s ensures x == e || Before(e, x) || x in rest {
          if x != d && Before(d, x) { Transitive(e, d, x); }
        }
        d := e;
      } else {
        Total(d, e);
      }
    }
  }
}
