/** lup_od_omp of examples/main.cpp: LU factorisation without pivoting, in place, over exact reals.
    The row loop marked `omp parallel for` runs under an arbitrary interleaving of its iterations. */
module LuFactor {
  import opened Collections

  type Matrix = (int, int) -> real

  /** Division where the pivot is assumed non-zero; see PivotsNonZero. */
  function Quotient(x: real, y: real): real { if y == 0.0 then 0.0 else x / y }

  /** A product; with its definition hidden, sums of products are linear to the verifier. */
  function Times(x: real, y: real): real { x * y }

  /** Entry (i, j) after k passes of the outer loop over the original matrix A. */
  ghost function Eliminated(A: Matrix, k: nat, i: int, j: int): real
    decreases k
  {
    if k == 0 then A(i, j)
    else
      var p := k - 1;
      if i <= p || j < p then Eliminated(A, p, i, j)
      else if j == p then Quotient(Eliminated(A, p, i, p), Eliminated(A, p, p, p))
      else Eliminated(A, p, i, j) - Quotient(Eliminated(A, p, i, p), Eliminated(A, p, p, p)) * Eliminated(A, p, p, j)
  }

  /** Every pivot the n - 1 passes divide by is non-zero when it is used. */
  ghost predicate PivotsNonZero(A: Matrix, n: nat) {
    forall k :: 0 <= k < n - 1 ==> Eliminated(A, k, k, k) != 0.0
  }

  /** The number of passes. */
  function Passes(n: nat): nat { if n == 0 then 0 else n - 1 }

  /** The factors that the final matrix F stores: L below the diagonal with ones on it, U on and above it. */
  ghost function Lower(F: Matrix): Matrix { (i, t) => if t < i then F(i, t) else if t == i then 1.0 else 0.0 }
  ghost function Upper(F: Matrix): Matrix { (t, j) => if t <= j then F(t, j) else 0.0 }

  /** The matrix lup_od_omp leaves behind. */
  ghost function Final(A: Matrix, n: nat): Matrix { (i, j) => Eliminated(A, Passes(n), i, j) }

  /** Row i of L times column j of U, over the terms lo <= t < hi. */
  ghost function Dot(L: Matrix, U: Matrix, i: int, j: int, lo: int, hi: int): real
    decreases hi - lo
  {
    if hi <= lo then 0.0 else Dot(L, U, i, j, lo, hi - 1) + L(i, hi - 1) * U(hi - 1, j)
  }

  // ---------------------------------------------------------------------------------------------
  // The stored factors multiply back to the original matrix.

  /** Rows above the pivot and columns left of it are finished. */
  lemma {:induction false} Settles(A: Matrix, k: nat, m: nat, i: int, j: int)
    requires k <= m && (i <= k || j < k)
    ensures Eliminated(A, m, i, j) == Eliminated(A, k, i, j)
    decreases m
  {
    if k < m { Settles(A, k, m - 1, i, j); }
  }

  lemma QuotientTimes(x: real, y: real)
    requires y != 0.0
    ensures Times(Quotient(x, y), y) == x
  {
  }

  /** Row i and column j against the pivot at p, by their distances from it: the term that the product gains
      is what the rest loses. */
  lemma NextTerm(dot: real, a: real, row: int, column: int, l: real, u: real, q: real, before: real, after: real)
    requires a == dot + if row >= 0 && column >= 0 then before else 0.0
    requires column < 0 ==> u == 0.0
    requires l == if row < 0 then 0.0 else if row == 0 then 1.0 else q
    requires row == 0 && column >= 0 ==> u == before
    requires row > 0 && column == 0 ==> Times(q, u) == before
    requires row > 0 && column > 0 ==> after == before - Times(q, u)
    ensures a == dot + Times(l, u) + if row > 0 && column > 0 then after else 0.0
  {
  }

  lemma DotGrows(L: Matrix, U: Matrix, i: int, j: int, k: nat)
    ensures Dot(L, U, i, j, 0, k + 1) == Dot(L, U, i, j, 0, k) + Times(L(i, k), U(k, j))
  {
  }

  lemma EntryAfter(A: Matrix, p: nat, i: int, j: int)
    requires i > p && j > p
    ensures Eliminated(A, p + 1, i, j)
         == Eliminated(A, p, i, j) - Times(Quotient(Eliminated(A, p, i, p), Eliminated(A, p, p, p)),
             Eliminated(A, p, p, j))
  {
  }

  lemma UpperAt(A: Matrix, n: nat, p: nat, j: int)
    requires p <= Passes(n)
    ensures Upper(Final(A, n))(p, j) == if p <= j then Eliminated(A, p, p, j) else 0.0
  {
    Settles(A, p, Passes(n), p, j);
  }

  lemma LowerAt(A: Matrix, n: nat, p: nat, i: int)
    requires p < Passes(n)
    ensures Lower(Final(A, n))(i, p) ==
      if i < p then 0.0 else if i == p then 1.0 else Quotient(Eliminated(A, p, i, p), Eliminated(A, p, p, p))
  {
    Settles(A, p + 1, Passes(n), i, p);
  }

  /** After k passes, the first k terms of the product plus the remaining block give A back. */
  lemma {:induction false} PartialProduct(A: Matrix, n: nat, k: nat, i: int, j: int)
    requires PivotsNonZero(A, n) && k <= Passes(n) && 0 <= i < n && 0 <= j < n
    ensures var F := Final(A, n);
            A(i, j) == Dot(Lower(F), Upper(F), i, j, 0, k) + if i >= k && j >= k then Eliminated(A, k, i, j) else 0.0
  {
    if k > 0 {
      var p := k - 1;
      var F := Final(A, n);
      var e, pivot := Eliminated(A, p, i, j), Eliminated(A, p, p, p);
      assert pivot != 0.0;
      hide *;
      PartialProduct(A, n, p, i, j);
      DotGrows(Lower(F), Upper(F), i, j, p);
      LowerAt(A, n, p, i);
      UpperAt(A, n, p, j);
      if i > p && j > p { EntryAfter(A, p, i, j); }
      QuotientTimes(e, pivot);
      NextTerm(Dot(Lower(F), Upper(F), i, j, 0, p), A(i, j), i - p, j - p, Lower(F)(i, p), Upper(F)(p, j),
               Quotient(Eliminated(A, p, i, p), pivot), e, Eliminated(A, k, i, j));
    }
  }

  /** L * U == A, entry by entry, for every size and every matrix whose used pivots are non-zero. */
  lemma LuCorrect(A: Matrix, n: nat, i: int, j: int)
    requires PivotsNonZero(A, n) && 0 <= i < n && 0 <= j < n
    ensures Dot(Lower(Final(A, n)), Upper(Final(A, n)), i, j, 0, n) == A(i, j)
  {
    PartialProduct(A, n, n - 1, i, j);
  }

  // ---------------------------------------------------------------------------------------------
  // There is no other factorisation, and the pivots are non-zero whenever there is one.

  ghost predicate Factors(A: Matrix, n: nat, L: Matrix, U: Matrix) {
    && (forall i, t :: 0 <= i < n && i < t < n ==> L(i, t) == 0.0)
    && (forall i :: 0 <= i < n ==> L(i, i) == 1.0)
    && (forall t, j :: 0 <= j < t < n ==> U(t, j) == 0.0)
    && (forall i, j :: 0 <= i < n && 0 <= j < n ==> Dot(L, U, i, j, 0, n) == A(i, j))
    && (forall t :: 0 <= t < n - 1 ==> U(t, t) != 0.0)
  }

  lemma {:induction false} DotSplitFirst(L: Matrix, U: Matrix, i: int, j: int, lo: int, hi: int)
    requires lo < hi
    ensures Dot(L, U, i, j, lo, hi) == L(i, lo) * U(lo, j) + Dot(L, U, i, j, lo + 1, hi)
    decreases hi - lo
  {
    if lo + 1 < hi { DotSplitFirst(L, U, i, j, lo, hi - 1); }
  }

  lemma {:induction false} DotZero(L: Matrix, U: Matrix, i: int, j: int, lo: int, hi: int)
    requires forall t :: lo <= t < hi ==> L(i, t) == 0.0 || U(t, j) == 0.0
    ensures Dot(L, U, i, j, lo, hi) == 0.0
    decreases hi - lo
  {
    if lo < hi { DotZero(L, U, i, j, lo, hi - 1); }
  }

  lemma QuotientCancels(x: real, y: real)
    requires y != 0.0
    ensures Quotient(x * y, y) == x
  {
  }

  lemma StepInProducts(A: Matrix, p: nat, i: int, j: int, l: real, pivot: real, u: real)
    requires p < i && p < j && pivot != 0.0
    requires Eliminated(A, p, p, p) == pivot && Eliminated(A, p, i, p) == Times(l, pivot)
    requires Eliminated(A, p, p, j) == u
    ensures Eliminated(A, p + 1, i, j) == Eliminated(A, p, i, j) - Times(l, u)
    ensures Eliminated(A, p + 1, i, p) == l
  {
    QuotientCancels(l, pivot);
  }

  /** The block left after k passes is the product of what remains of any two factors of A. */
  lemma {:induction false} RemainingBlock(A: Matrix, n: nat, L: Matrix, U: Matrix, k: nat, i: int, j: int)
    requires Factors(A, n, L, U) && k < n && k <= i < n && k <= j < n
    ensures Eliminated(A, k, i, j) == Dot(L, U, i, j, k, n)
    decreases k, 0
  {
    if k > 0 {
      var p := k - 1;
      RemainingBlock(A, n, L, U, p, i, j);
      NextBlock(A, n, L, U, p, i, j);
      DotSplitFirst(L, U, i, j, p, n);
    }
  }

  lemma {:induction false} NextBlock(A: Matrix, n: nat, L: Matrix, U: Matrix, p: nat, i: int, j: int)
    requires Factors(A, n, L, U) && p < i < n && p < j < n
    ensures Eliminated(A, p + 1, i, j) == Eliminated(A, p, i, j) - Times(L(i, p), U(p, j))
    decreases p, 2
  {
    assert U(p, p) != 0.0;
    hide *;
    RowAndColumn(A, n, L, U, p, i, j);
    StepInProducts(A, p, i, j, L(i, p), U(p, p), U(p, j));
  }

  lemma {:induction false} RowAndColumn(A: Matrix, n: nat, L: Matrix, U: Matrix, p: nat, i: int, j: int)
    requires Factors(A, n, L, U) && p < n && p <= i < n && p <= j < n
    ensures Eliminated(A, p, p, j) == U(p, j)
    ensures Eliminated(A, p, i, p) == Times(L(i, p), U(p, p))
    ensures Eliminated(A, p, p, p) == U(p, p)
    decreases p, 1
  {
    RemainingBlock(A, n, L, U, p, p, p);
    DotSplitFirst(L, U, p, p, p, n);
    DotZero(L, U, p, p, p + 1, n);
    RemainingBlock(A, n, L, U, p, p, j);
    RemainingBlock(A, n, L, U, p, i, p);
    DotSplitFirst(L, U, p, j, p, n);
    DotSplitFirst(L, U, i, p, p, n);
    DotZero(L, U, p, j, p + 1, n);
    DotZero(L, U, i, p, p + 1, n);
  }

  /** Any unit lower and upper triangular factors with non-zero leading diagonal are the ones computed,
      and their existence is exactly the condition under which no pivot is zero. */
  lemma LuUnique(A: Matrix, n: nat, L: Matrix, U: Matrix, i: int, j: int)
    requires Factors(A, n, L, U) && 0 <= i < n && 0 <= j < n
    ensures PivotsNonZero(A, n)
    ensures Lower(Final(A, n))(i, j) == L(i, j) && Upper(Final(A, n))(i, j) == U(i, j)
  {
    FactorsGivePivots(A, n, L, U);
    FactorEntries(A, n, L, U, i, j);
    EntriesAreFinal(A, n, i, j);
  }

  lemma FactorEntries(A: Matrix, n: nat, L: Matrix, U: Matrix, i: nat, j: nat)
    requires Factors(A, n, L, U) && i < n && j < n
    ensures i <= j ==> Eliminated(A, i, i, j) == U(i, j) && L(i, j) == if i == j then 1.0 else 0.0
    ensures i > j ==> Eliminated(A, j + 1, i, j) == L(i, j) && U(i, j) == 0.0
  {
    if i <= j {
      RowAndColumn(A, n, L, U, i, i, j);
    } else {
      RowAndColumn(A, n, L, U, j, i, j + 1);
      StepInProducts(A, j, i, j + 1, L(i, j), U(j, j), U(j, j + 1));
    }
  }

  lemma EntriesAreFinal(A: Matrix, n: nat, i: nat, j: nat)
    requires i < n && j < n
    ensures i <= j ==> Final(A, n)(i, j) == Eliminated(A, i, i, j)
    ensures i > j ==> Final(A, n)(i, j) == Eliminated(A, j + 1, i, j)
  {
    if i <= j { Settles(A, i, Passes(n), i, j); } else { Settles(A, j + 1, Passes(n), i, j); }
  }

  lemma FactorsGivePivots(A: Matrix, n: nat, L: Matrix, U: Matrix)
    requires Factors(A, n, L, U)
    ensures PivotsNonZero(A, n)
  {
    forall k | 0 <= k < n - 1 ensures Eliminated(A, k, k, k) != 0.0 {
      RowAndColumn(A, n, L, U, k, k, k);
    }
  }

  lemma PivotsExactly(A: Matrix, n: nat)
    ensures PivotsNonZero(A, n) <==> exists L, U :: Factors(A, n, L, U)
  {
    if PivotsNonZero(A, n) {
      var L, U := Lower(Final(A, n)), Upper(Final(A, n));
      forall i, j | 0 <= i < n && 0 <= j < n ensures Dot(L, U, i, j, 0, n) == A(i, j) {
        LuCorrect(A, n, i, j);
      }
      forall t | 0 <= t < n - 1 ensures U(t, t) != 0.0 {
        Settles(A, t, Passes(n), t, t);
      }
      assert Factors(A, n, L, U);
    }
    if L, U :| Factors(A, n, L, U) {
      FactorsGivePivots(A, n, L, U);
    }
  }

  // ---------------------------------------------------------------------------------------------
  // When no pivot is zero, told of the input matrix alone.

  type Vector = int -> real

  /** A row times x, over the columns lo <= j < hi. */
  ghost function RowTimes(row: Vector, x: Vector, lo: int, hi: int): real
    decreases hi - lo
  {
    if hi <= lo then 0.0 else RowTimes(row, x, lo, hi - 1) + row(hi - 1) * x(hi - 1)
  }

  ghost function RowOf(A: Matrix, i: int): Vector { j => A(i, j) }

  ghost predicate Zero(x: Vector, m: nat) { forall j :: 0 <= j < m ==> x(j) == 0.0 }

  /** The leading m by m block sends x to zero. */
  ghost predicate Annihilates(A: Matrix, m: nat, x: Vector) {
    forall i :: 0 <= i < m ==> RowTimes(RowOf(A, i), x, 0, m) == 0.0
  }

  /** The leading m by m block is regular: it sends no vector but zero to zero. */
  ghost predicate Regular(A: Matrix, m: nat) {
    forall x: Vector :: Annihilates(A, m, x) ==> Zero(x, m)
  }

  /** All leading blocks but the whole matrix are regular. */
  ghost predicate LeadingBlocksRegular(A: Matrix, n: nat) {
    forall m :: 1 <= m < n ==> Regular(A, m)
  }

  /** Row i after k eliminations. */
  ghost function RowAfter(A: Matrix, k: nat, i: int): Vector { j => Eliminated(A, k, i, j) }

  lemma {:induction false} RowSplitFirst(row: Vector, x: Vector, lo: int, hi: int)
    requires lo < hi
    ensures RowTimes(row, x, lo, hi) == Times(row(lo), x(lo)) + RowTimes(row, x, lo + 1, hi)
    decreases hi - lo
  {
    if lo + 1 < hi { RowSplitFirst(row, x, lo, hi - 1); }
  }

  lemma {:induction false} RowsSubtract(a: Vector, b: Vector, c: Vector, q: real, x: Vector, lo: int, hi: int)
    requires forall j :: lo <= j < hi ==> a(j) == b(j) - Times(q, c(j))
    ensures RowTimes(a, x, lo, hi) == RowTimes(b, x, lo, hi) - Times(q, RowTimes(c, x, lo, hi))
    decreases hi - lo
  {
    if lo < hi {
      RowsSubtract(a, b, c, q, x, lo, hi - 1);
      Distribute(RowTimes(b, x, lo, hi - 1), RowTimes(c, x, lo, hi - 1), b(hi - 1), c(hi - 1), q, x(hi - 1));
    }
  }

  lemma Distribute(s: real, t: real, b: real, c: real, q: real, x: real)
    ensures (s - q * t) + (b - q * c) * x == (s + b * x) - q * (t + c * x)
  {
  }

  /** One elimination step subtracts a multiple of the pivot row from the rest of row i, and the column it
      clears contributes nothing. */
  lemma ResidualStep(A: Matrix, p: nat, m: nat, i: nat, x: Vector)
    requires p < i < m && Eliminated(A, p, p, p) != 0.0
    ensures var q := Quotient(Eliminated(A, p, i, p), Eliminated(A, p, p, p));
      RowTimes(RowAfter(A, p + 1, i), x, p + 1, m)
      == RowTimes(RowAfter(A, p, i), x, p, m) - Times(q, RowTimes(RowAfter(A, p, p), x, p, m))
  {
    var u, v := RowAfter(A, p, i), RowAfter(A, p, p);
    var q := Quotient(u(p), v(p));
    QuotientTimes(u(p), v(p));
    assert forall j :: p + 1 <= j < m ==> RowAfter(A, p + 1, i)(j) == u(j) - Times(q, v(j));
    assert u(p) == Eliminated(A, p, i, p) && v(p) == Eliminated(A, p, p, p);
    hide *;
    RowsSubtract(RowAfter(A, p + 1, i), u, v, q, x, p + 1, m);
    RowSplitFirst(u, x, p, m);
    RowSplitFirst(v, x, p, m);
    Cancel(u(p), v(p), q, x(p), RowTimes(u, x, p + 1, m), RowTimes(v, x, p + 1, m));
  }

  lemma Cancel(u: real, v: real, q: real, x: real, s: real, t: real)
    requires Times(q, v) == u
    ensures s - Times(q, t) == (Times(u, x) + s) - Times(q, Times(v, x) + t)
  {
    assert q * (v * x) == (q * v) * x;
  }

  /** If the first p pivots are not zero and the block annihilates x, so do its rows after p steps. */
  lemma {:induction false} ResidualsVanish(A: Matrix, p: nat, m: nat, i: nat, x: Vector)
    requires Annihilates(A, m, x) && p <= i < m
    requires forall k :: 0 <= k < p ==> Eliminated(A, k, k, k) != 0.0
    ensures RowTimes(RowAfter(A, p, i), x, p, m) == 0.0
    decreases p
  {
    if p == 0 {
      SameRow(RowAfter(A, 0, i), RowOf(A, i), x, 0, m);
    } else {
      ResidualsVanish(A, p - 1, m, i, x);
      ResidualsVanish(A, p - 1, m, p - 1, x);
      ResidualStep(A, p - 1, m, i, x);
    }
  }

  /** The other way: if row r of the elimination annihilates x at every step r up to i, so does row i of A. */
  lemma {:induction false} ResidualsRise(A: Matrix, p: nat, m: nat, i: nat, x: Vector)
    requires p <= i < m
    requires forall r :: 0 <= r <= i ==> RowTimes(RowAfter(A, r, r), x, r, m) == 0.0
    requires forall k :: 0 <= k < i ==> Eliminated(A, k, k, k) != 0.0
    ensures RowTimes(RowAfter(A, p, i), x, p, m) == 0.0
    decreases i - p
  {
    if p < i {
      ResidualsRise(A, p + 1, m, i, x);
      ResidualStep(A, p, m, i, x);
    }
  }

  lemma {:induction false} SameRow(a: Vector, b: Vector, x: Vector, lo: int, hi: int)
    requires forall j :: lo <= j < hi ==> a(j) == b(j)
    ensures RowTimes(a, x, lo, hi) == RowTimes(b, x, lo, hi)
    decreases hi - lo
  {
    if lo < hi { SameRow(a, b, x, lo, hi - 1); }
  }

  lemma {:induction false} ZeroTail(row: Vector, x: Vector, lo: int, hi: int)
    requires forall j :: lo <= j < hi ==> x(j) == 0.0
    ensures RowTimes(row, x, lo, hi) == 0.0
    decreases hi - lo
  {
    if lo < hi { ZeroTail(row, x, lo, hi - 1); }
  }

  /** Back substitution from the last column: x is zero from column p on. */
  lemma {:induction false} BackSubstitution(A: Matrix, m: nat, x: Vector, p: nat)
    requires Annihilates(A, m, x) && p <= m
    requires forall k :: 0 <= k < m ==> Eliminated(A, k, k, k) != 0.0
    ensures forall j :: p <= j < m ==> x(j) == 0.0
    decreases m - p
  {
    if p < m {
      BackSubstitution(A, m, x, p + 1);
      ResidualsVanish(A, p, m, p, x);
      RowSplitFirst(RowAfter(A, p, p), x, p, m);
      ZeroTail(RowAfter(A, p, p), x, p + 1, m);
      assert Eliminated(A, p, p, p) * x(p) == 0.0;
    }
  }

  lemma {:induction false} RowTimesLocal(row: Vector, x: Vector, y: Vector, lo: int, hi: int)
    requires forall j :: lo <= j < hi ==> x(j) == y(j)
    ensures RowTimes(row, x, lo, hi) == RowTimes(row, y, lo, hi)
    decreases hi - lo
  {
    if lo < hi { RowTimesLocal(row, x, y, lo, hi - 1); }
  }

  /** Each eliminated row from p to k, from its pivot on, annihilates x. */
  ghost predicate RowsVanish(A: Matrix, k: nat, p: nat, x: Vector) {
    forall r :: p <= r <= k ==> RowTimes(RowAfter(A, r, r), x, r, k + 1) == 0.0
  }

  /** Solving row p for its first unknown, given the others. */
  function Solve(y: Vector, p: nat, value: real): Vector { j => if j == p then value else y(j) }

  lemma SolveRow(row: Vector, y: Vector, p: nat, m: nat)
    requires p < m && row(p) != 0.0
    ensures RowTimes(row, Solve(y, p, Quotient(-RowTimes(row, y, p + 1, m), row(p))), p, m) == 0.0
  {
    var rest := RowTimes(row, y, p + 1, m);
    var value := Quotient(-rest, row(p));
    var x := Solve(y, p, value);
    QuotientTimes(-rest, row(p));
    assert Times(row(p), value) == Times(value, row(p));
    assert x(p) == value && forall j :: p + 1 <= j < m ==> x(j) == y(j);
    hide *;
    RowTimesLocal(row, x, y, p + 1, m);
    RowSplitFirst(row, x, p, m);
  }

  lemma LastRowVanishes(A: Matrix, k: nat, x: Vector)
    requires Eliminated(A, k, k, k) == 0.0
    ensures RowsVanish(A, k, k, x)
  {
    RowSplitFirst(RowAfter(A, k, k), x, k, k + 1);
    assert RowAfter(A, k, k)(k) == 0.0;
    hide Eliminated, RowAfter;
  }

  /** One more row vanishes, and the others are not touched by its unknown. */
  lemma RowAdded(A: Matrix, k: nat, p: nat, x: Vector, y: Vector)
    requires p < k && RowsVanish(A, k, p + 1, y) && forall j :: p < j <= k ==> x(j) == y(j)
    requires RowTimes(RowAfter(A, p, p), x, p, k + 1) == 0.0
    ensures RowsVanish(A, k, p, x)
  {
    hide RowTimes, RowAfter;
    forall r | p < r <= k ensures RowTimes(RowAfter(A, r, r), x, r, k + 1) == 0.0 {
      RowTimesLocal(RowAfter(A, r, r), x, y, r, k + 1);
    }
  }

  /** A vector with x(k) == 1 that the eliminated rows p to k annihilate, when only the last pivot is zero. */
  lemma {:induction false} KernelVector(A: Matrix, k: nat, p: nat) returns (x: Vector)
    requires p <= k && Eliminated(A, k, k, k) == 0.0
    requires forall r :: 0 <= r < k ==> Eliminated(A, r, r, r) != 0.0
    ensures x(k) == 1.0 && RowsVanish(A, k, p, x)
    decreases k - p
  {
    hide RowTimes, Quotient, Eliminated, RowsVanish;
    if p == k {
      x := j => 1.0;
      LastRowVanishes(A, k, x);
    } else {
      var y := KernelVector(A, k, p + 1);
      var row := RowAfter(A, p, p);
      assert row(p) == Eliminated(A, p, p, p);
      x := Solve(y, p, Quotient(-RowTimes(row, y, p + 1, k + 1), row(p)));
      SolveRow(row, y, p, k + 1);
      RowAdded(A, k, p, x, y);
    }
  }

  lemma {:induction false} FirstZeroPivot(A: Matrix, n: nat) returns (k: nat)
    requires !PivotsNonZero(A, n)
    ensures k < n - 1 && Eliminated(A, k, k, k) == 0.0 && forall r :: 0 <= r < k ==> Eliminated(A, r, r, r) != 0.0
  {
    k := 0;
    while Eliminated(A, k, k, k) != 0.0
      invariant k < n - 1 && forall r :: 0 <= r < k ==> Eliminated(A, r, r, r) != 0.0
      decreases n - k
    {
      k := k + 1;
    }
  }

  /** The leading block at which the first pivot is zero is singular. */
  lemma ZeroPivotIsSingular(A: Matrix, k: nat)
    requires Eliminated(A, k, k, k) == 0.0 && forall r :: 0 <= r < k ==> Eliminated(A, r, r, r) != 0.0
    ensures !Regular(A, k + 1)
  {
    var x := KernelVector(A, k, 0);
    forall i | 0 <= i < k + 1 ensures RowTimes(RowOf(A, i), x, 0, k + 1) == 0.0 {
      ResidualsRise(A, 0, k + 1, i, x);
      SameRow(RowAfter(A, 0, i), RowOf(A, i), x, 0, k + 1);
    }
    assert Annihilates(A, k + 1, x) && !Zero(x, k + 1);
  }

  /** No pivot that lup_od_omp divides by is zero if and only if every leading block of the input but the
      whole matrix is regular. */
  lemma PivotsFromInput(A: Matrix, n: nat)
    ensures PivotsNonZero(A, n) <==> LeadingBlocksRegular(A, n)
  {
    if PivotsNonZero(A, n) {
      forall m, x: Vector | 1 <= m < n && Annihilates(A, m, x) ensures Zero(x, m) {
        BackSubstitution(A, m, x, 0);
      }
    } else {
      var k := FirstZeroPivot(A, n);
      ZeroPivotIsSingular(A, k);
    }
  }

  /** ((0, 1), (1, 0)): an invertible matrix on which the code divides by zero. */
  ghost function Swap(): Matrix { (i, j) => if i == j then 0.0 else 1.0 }

  lemma SwapFails()
    ensures !PivotsNonZero(Swap(), 2) && !LeadingBlocksRegular(Swap(), 2) && Regular(Swap(), 2)
  {
    assert Eliminated(Swap(), 0, 0, 0) == 0.0;
    PivotsFromInput(Swap(), 2);
    forall x: Vector | Annihilates(Swap(), 2, x) ensures Zero(x, 2) {
      RowSplitFirst(RowOf(Swap(), 0), x, 0, 2);
      RowSplitFirst(RowOf(Swap(), 1), x, 0, 2);
      assert RowTimes(RowOf(Swap(), 0), x, 0, 2) == 0.0 && RowTimes(RowOf(Swap(), 1), x, 0, 2) == 0.0;
    }
  }

  // ---------------------------------------------------------------------------------------------
  // The program.

  ghost function Snapshot(a: array2<real>): seq<seq<real>>
    reads a
  {
    seq(a.Length0, i requires 0 <= i < a.Length0 reads a =>
      seq(a.Length1, j requires 0 <= j < a.Length1 reads a => a[i, j]))
  }

  ghost function AsMatrix(rows: seq<seq<real>>): Matrix {
    (i, j) => if 0 <= i < |rows| && 0 <= j < |rows[i]| then rows[i][j] else 0.0
  }

  predicate IsBelow(k: int, i: int) { k < i }

  /** The division of the pivot column. */
  method ScaleColumn(a: array2<real>, k: nat)
    requires a.Length0 == a.Length1 && k < a.Length0 && a[k, k] != 0.0
    modifies a
    ensures forall i, j :: 0 <= i < a.Length0 && 0 <= j < a.Length0 ==>
      a[i, j] == if i > k && j == k then old(a[i, j]) / old(a[k, k]) else old(a[i, j])
  {
    var i := k + 1;
    while i < a.Length0
      invariant k < i <= a.Length0
      invariant forall r, j :: 0 <= r < a.Length0 && 0 <= j < a.Length0 ==>
        a[r, j] == if k < r < i && j == k then old(a[r, j]) / old(a[k, k]) else old(a[r, j])
    {
      a[i, k] := a[i, k] / a[k, k];
      i := i + 1;
    }
  }

  /** The row update's target: what entry (i, j) becomes, given the matrix the loop starts from. */
  ghost function Reduced(M: Matrix, k: int, i: int, j: int): real {
    if i > k && j > k then M(i, j) - M(i, k) * M(k, j) else M(i, j)
  }

  /** The `omp parallel for`. Each iteration owns a row: it first copies a[i][k], then updates the row
      entry by entry. The scheduler lets any unfinished iteration make its next step, so the
      postcondition holds for every interleaving, the sequential order among them. */
  method UpdateRows(a: array2<real>, k: nat, ghost M: Matrix)
    requires a.Length0 == a.Length1 && k < a.Length0
    requires forall i, j :: 0 <= i < a.Length0 && 0 <= j < a.Length0 ==> a[i, j] == M(i, j)
    modifies a
    ensures forall i, j :: 0 <= i < a.Length0 && 0 <= j < a.Length0 ==> a[i, j] == Reduced(M, k, i, j)
  {
    var n := a.Length0;
    var next: seq<int> := seq(n, _ => k);   // k: not started; otherwise the column to update next
    var aik: seq<real> := seq(n, _ => 0.0);
    var unfinished := set i | 0 <= i < n && IsBelow(k, i);
    ghost var steps := set i, j | k < i < n && k <= j < n :: (i, j);
    while unfinished != {}
      invariant |next| == |aik| == n
      invariant forall i :: i in unfinished ==> k < i < n
      invariant forall i :: k < i < n ==> k <= next[i] <= n && (next[i] > k ==> aik[i] == M(i, k))
      invariant forall i :: k < i < n && i !in unfinished ==> next[i] == n
      invariant forall i, j :: 0 <= i < n && 0 <= j < n ==>
        a[i, j] == if i > k && j < next[i] then Reduced(M, k, i, j) else M(i, j)
      invariant forall i, j :: i in unfinished && next[i] <= j < n ==> (i, j) in steps
      decreases steps, unfinished
    {
      // The OpenMP scheduler: any unfinished iteration may be the next to take a step.
      var i := AnyOf(unfinished);
      var j := next[i];
      if j == n {
        unfinished := unfinished - {i};
      } else {
        assert (i, j) in steps;
        if j == k {
          aik := aik[i := a[i, k]];
        } else {
          UpdateEntry(a, k, i, j, aik[i], M);
        }
        next := next[i := j + 1];
        steps := steps - {(i, j)};
      }
    }
  }

  /** a[i][j] -= aik * a[k][j] */
  method UpdateEntry(a: array2<real>, k: nat, i: nat, j: nat, aik: real, ghost M: Matrix)
    requires a.Length0 == a.Length1 && k < i < a.Length0 && k < j < a.Length0
    requires a[i, j] == M(i, j) && aik == M(i, k) && a[k, j] == M(k, j)
    modifies a
    ensures a[i, j] == Reduced(M, k, i, j)
    ensures forall r, c :: 0 <= r < a.Length0 && 0 <= c < a.Length0 && (r != i || c != j) ==> a[r, c] == old(a[r, c])
  {
    a[i, j] := a[i, j] - aik * a[k, j];
  }

  /** One pass of the outer loop. */
  method Pass(a: array2<real>, k: nat, ghost A: Matrix)
    requires a.Length0 == a.Length1 && k < a.Length0 && Eliminated(A, k, k, k) != 0.0
    requires forall i, j :: 0 <= i < a.Length0 && 0 <= j < a.Length0 ==> a[i, j] == Eliminated(A, k, i, j)
    modifies a
    ensures forall i, j :: 0 <= i < a.Length0 && 0 <= j < a.Length0 ==> a[i, j] == Eliminated(A, k + 1, i, j)
  {
    ScaleColumn(a, k);
    ghost var M := (i, j) => if i > k && j == k then Eliminated(A, k + 1, i, k) else Eliminated(A, k, i, j);
    UpdateRows(a, k, M);
  }

  method Factorise(a: array2<real>)
    requires a.Length0 == a.Length1
    requires LeadingBlocksRegular(AsMatrix(Snapshot(a)), a.Length0)
    modifies a
    ensures forall i, j :: 0 <= i < a.Length0 && 0 <= j < a.Length0 ==>
      a[i, j] == Final(AsMatrix(old(Snapshot(a))), a.Length0)(i, j)
    ensures forall i, j :: 0 <= i < a.Length0 && 0 <= j < a.Length0 ==>
      Dot(Lower(AsMatrix(Snapshot(a))), Upper(AsMatrix(Snapshot(a))), i, j, 0, a.Length0) == old(a[i, j])
  {
    var n := a.Length0;
    ghost var A := AsMatrix(Snapshot(a));
    PivotsFromInput(A, n);
    hide LeadingBlocksRegular;
    var k := 0;
    while k < n - 1
      invariant 0 <= k <= Passes(n)
      invariant forall i, j :: 0 <= i < n && 0 <= j < n ==> a[i, j] == Eliminated(A, k, i, j)
    {
      Pass(a, k, A);
      k := k + 1;
    }
    forall i, j | 0 <= i < n && 0 <= j < n
      ensures Dot(Lower(AsMatrix(Snapshot(a))), Upper(AsMatrix(Snapshot(a))), i, j, 0, n) == A(i, j)
    {
      LuCorrect(A, n, i, j);
      DotCongruent(Final(A, n), AsMatrix(Snapshot(a)), n, i, j, n);
    }
  }

  lemma {:induction false} DotCongruent(F: Matrix, G: Matrix, n: nat, i: int, j: int, hi: nat)
    requires hi <= n && 0 <= i < n && 0 <= j < n
    requires forall r, s :: 0 <= r < n && 0 <= s < n ==> F(r, s) == G(r, s)
    ensures Dot(Lower(F), Upper(F), i, j, 0, hi) == Dot(Lower(G), Upper(G), i, j, 0, hi)
  {
    if hi > 0 { DotCongruent(F, G, n, i, j, hi - 1); }
  }
}
