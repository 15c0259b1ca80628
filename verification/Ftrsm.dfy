/** The eight in-place triangular solvers behind one selector. */
module Ftrsm {
  import opened Matrices
  import opened TriangularSystems

  /** t is the triangle that a solver reads: the upper or lower triangle of a, or its transpose,
      with zeros elsewhere. */
  ghost predicate IsTriangleOf(t: Mat, a: Mat, n: int, lower: bool, transposed: bool) {
    forall i, k :: 0 <= i < n && 0 <= k < n ==>
      t(i, k) ==
        if (if lower != transposed then i >= k else i <= k) then (if transposed then a(k, i) else a(i, k)) else 0.0
  }

  // ----- the innermost loops

  /** B(i,j) = s * B(i,j) for all rows i. */
  method ScaleColumn(b: array2<real>, s: real, j: nat)
    requires j < b.Length1
    modifies b
    ensures forall i :: 0 <= i < b.Length0 ==> b[i, j] == s * old(b[i, j])
    ensures forall i, l :: 0 <= i < b.Length0 && 0 <= l < b.Length1 && l != j ==> b[i, l] == old(b[i, l])
  {
    var i := 0;
    while i < b.Length0
      invariant 0 <= i <= b.Length0
      invariant forall r :: 0 <= r < b.Length0 ==> b[r, j] == if r < i then s * old(b[r, j]) else old(b[r, j])
      invariant forall r, l :: 0 <= r < b.Length0 && 0 <= l < b.Length1 && l != j ==> b[r, l] == old(b[r, l])
    {
      b[i, j] := s * b[i, j];
      i := i + 1;
    }
  }

  /** B(i,j) -= s * B(i,k) for all rows i; column k of x holds the values B(i,k). */
  method SubtractColumn(b: array2<real>, s: real, j: nat, k: nat, ghost x: Mat)
    requires j < b.Length1 && k < b.Length1 && j != k
    requires forall i :: 0 <= i < b.Length0 ==> b[i, k] == x(i, k)
    modifies b
    ensures forall i :: 0 <= i < b.Length0 ==> b[i, j] == old(b[i, j]) - s * x(i, k)
    ensures forall i, l :: 0 <= i < b.Length0 && 0 <= l < b.Length1 && l != j ==> b[i, l] == old(b[i, l])
  {
    var i := 0;
    while i < b.Length0
      invariant 0 <= i <= b.Length0
      invariant forall r :: 0 <= r < b.Length0 ==>
        b[r, j] == if r < i then old(b[r, j]) - s * x(r, k) else old(b[r, j])
      invariant forall r, l :: 0 <= r < b.Length0 && 0 <= l < b.Length1 && l != j ==> b[r, l] == old(b[r, l])
    {
      b[i, j] := b[i, j] - s * b[i, k];
      i := i + 1;
    }
  }

  /** B(i,j) -= B(k,j) * A(i,k) for the rows i from lo up to hi; `pivot` is the value of B(k,j). */
  method EliminateRows(a: array2<real>, b: array2<real>, j: nat, k: nat, lo: nat, hi: nat, ghost pivot: real)
    requires a != b && a.Length0 == a.Length1 == b.Length0 && j < b.Length1 && k < b.Length0
    requires lo <= hi <= b.Length0 && !(lo <= k < hi) && b[k, j] == pivot
    modifies b
    ensures forall i :: 0 <= i < b.Length0 ==>
      b[i, j] == if lo <= i < hi then old(b[i, j]) - pivot * a[i, k] else old(b[i, j])
    ensures forall i, l :: 0 <= i < b.Length0 && 0 <= l < b.Length1 && l != j ==> b[i, l] == old(b[i, l])
  {
    var i := lo;
    while i < hi
      invariant lo <= i <= hi
      invariant forall r :: 0 <= r < b.Length0 ==>
        b[r, j] == if lo <= r < i then old(b[r, j]) - pivot * a[r, k] else old(b[r, j])
      invariant forall r, l :: 0 <= r < b.Length0 && 0 <= l < b.Length1 && l != j ==> b[r, l] == old(b[r, l])
    {
      b[i, j] := b[i, j] - b[k, j] * a[i, k];
      i := i + 1;
    }
  }

  /** temp - sum of A(k,i) * B(k,j) over the rows k from lo up to hi. */
  method SubtractProducts(a: array2<real>, b: array2<real>, i: nat, j: nat, lo: nat, hi: nat, start: real, ghost t: Mat,
                          ghost x: Mat)
    returns (temp: real)
    requires a.Length0 == a.Length1 == b.Length0 && i < b.Length0 && j < b.Length1 && lo <= hi <= b.Length0
    requires forall k :: lo <= k < hi ==> t(i, k) == a[k, i] && x(k, j) == b[k, j]
    ensures temp == start - Dot(t, i, x, j, lo, hi)
  {
    temp := start;
    var k := lo;
    while k < hi
      invariant lo <= k <= hi
      invariant temp == start - Dot(t, i, x, j, lo, k)
    {
      temp := temp - a[k, i] * b[k, j];
      k := k + 1;
    }
  }

  /** Eliminating the solved entry k from row i takes its product off the pending right-hand side. */
  lemma EliminateFront(t: Mat, i: int, x: Mat, j: int, k: int, n: int, coefficient: real, whole: real, entry: real,
                       entry': real)
    requires k < n && t(i, k) == coefficient
    requires entry == whole - Dot(t, i, x, j, k + 1, n) && entry' == entry - x(k, j) * coefficient
    ensures entry' == whole - Dot(t, i, x, j, k, n)
  {
    DotFront(t, i, x, j, k, n);
    assert t(i, k) * x(k, j) == x(k, j) * coefficient;
  }

  lemma EliminateBack(t: Mat, i: int, x: Mat, j: int, lo: int, k: int, coefficient: real, whole: real, entry: real,
                      entry': real)
    requires lo <= k && t(i, k) == coefficient
    requires entry == whole - Dot(t, i, x, j, lo, k) && entry' == entry - x(k, j) * coefficient
    ensures entry' == whole - Dot(t, i, x, j, lo, k + 1)
  {
    assert t(i, k) * x(k, j) == x(k, j) * coefficient;
  }

  lemma SubtractFront(x: Mat, i: int, t: Mat, j: int, k: int, n: int, s: real, whole: real, entry: real, entry': real)
    requires k < n && t(k, j) == s
    requires entry == whole - Dot(x, i, t, j, k + 1, n) && entry' == entry - s * x(i, k)
    ensures entry' == whole - Dot(x, i, t, j, k, n)
  {
    DotFront(x, i, t, j, k, n);
    assert x(i, k) * t(k, j) == s * x(i, k);
  }

  lemma SubtractBack(x: Mat, i: int, t: Mat, j: int, lo: int, k: int, s: real, whole: real, entry: real, entry': real)
    requires lo <= k && t(k, j) == s
    requires entry == whole - Dot(x, i, t, j, lo, k) && entry' == entry - s * x(i, k)
    ensures entry' == whole - Dot(x, i, t, j, lo, k + 1)
  {
    assert x(i, k) * t(k, j) == s * x(i, k);
  }

  /** A zero factor need not be subtracted. */
  lemma NothingToSubtract(x: Mat, t: Mat, j: int, lo: int, k: int)
    requires lo <= k && t(k, j) == 0.0
    ensures forall i :: Dot(x, i, t, j, lo, k + 1) == Dot(x, i, t, j, lo, k)
  {
    forall i
      ensures Dot(x, i, t, j, lo, k + 1) == Dot(x, i, t, j, lo, k)
    {
      DotLast(x, i, t, j, lo, k + 1);
    }
  }

  // ----- solving from the left, one column of B at a time

  /** Column j of c is alpha times column j of b, and column j of x solves t x == c. */
  ghost predicate ColumnPosed(b: array2<real>, alpha: real, t: Mat, x: Mat, c: Mat, j: int)
    requires 0 <= j < b.Length1
    reads b
  {
    forall i :: 0 <= i < b.Length0 ==> c(i, j) == alpha * b[i, j] && Dot(t, i, x, j, 0, b.Length0) == c(i, j)
  }

  /** Rows from lo up to hi of column j hold what is left of the right-hand side after subtracting the
      products with the solved rows from `from` up to `to`. */
  ghost predicate Pending(b: array2<real>, t: Mat, x: Mat, c: Mat, j: int, lo: int, hi: int, from: int, to: int)
    requires 0 <= j < b.Length1 && 0 <= lo && hi <= b.Length0
    reads b
  {
    forall i :: lo <= i < hi ==> b[i, j] == c(i, j) - Dot(t, i, x, j, from, to)
  }

  /** Case 0, column j: t is the upper triangle of a; from the last row up, every solved entry is
      eliminated from the rows above it. */
  method LeftUpper(alpha: real, a: array2<real>, b: array2<real>, j: nat, ghost t: Mat, ghost x: Mat, ghost c: Mat)
    requires a != b && a.Length0 == a.Length1 == b.Length0 && j < b.Length1
    requires IsUpper(t, b.Length0) && forall i, k :: 0 <= i <= k < b.Length0 ==> t(i, k) == a[i, k]
    requires forall i :: 0 <= i < b.Length0 ==> a[i, i] != 0.0
    requires ColumnPosed(b, alpha, t, x, c, j)
    modifies b
    ensures forall i :: 0 <= i < b.Length0 ==> b[i, j] == x(i, j)
    ensures forall i, l :: 0 <= i < b.Length0 && 0 <= l < b.Length1 && l != j ==> b[i, l] == old(b[i, l])
  {
    hide Dot, Term;
    EmptyDots(b.Length0);
    var n := b.Length0;
    ScaleColumn(b, alpha, j);
    var k := n - 1;
    while k >= 0
      invariant -1 <= k < n
      invariant forall i, l :: 0 <= i < n && 0 <= l < b.Length1 && l != j ==> b[i, l] == old(b[i, l])
      invariant forall i :: k < i < n ==> b[i, j] == x(i, j)
      invariant Pending(b, t, x, c, j, 0, k + 1, k + 1, n)
    {
      PivotUp(a, b, j, k, t, x, c);
      k := k - 1;
    }
  }

  method PivotUp(a: array2<real>, b: array2<real>, j: nat, k: nat, ghost t: Mat, ghost x: Mat, ghost c: Mat)
    requires a != b && a.Length0 == a.Length1 == b.Length0 && j < b.Length1 && k < b.Length0
    requires IsUpper(t, b.Length0) && forall i :: 0 <= i <= k ==> t(i, k) == a[i, k]
    requires a[k, k] != 0.0 && Dot(t, k, x, j, 0, b.Length0) == c(k, j)
    requires Pending(b, t, x, c, j, 0, k + 1, k + 1, b.Length0)
    modifies b
    ensures b[k, j] == x(k, j) && Pending(b, t, x, c, j, 0, k, k, b.Length0)
    ensures forall i :: k < i < b.Length0 ==> b[i, j] == old(b[i, j])
    ensures forall i, l :: 0 <= i < b.Length0 && 0 <= l < b.Length1 && l != j ==> b[i, l] == old(b[i, l])
  {
    hide Dot, Term;
    ghost var n := b.Length0;
    UpperRow(t, n, x, k, j);
    IsolatedByDivision(c(k, j), Dot(t, k, x, j, k + 1, n), a[k, k], b[k, j]);
    if b[k, j] != 0.0 {
      b[k, j] := b[k, j] / a[k, k];
      EliminateRows(a, b, j, k, 0, k, x(k, j));
    } else {
      assert forall i :: 0 <= i < k ==> x(k, j) * a[i, k] == 0.0;
    }
    forall i | 0 <= i < k
      ensures b[i, j] == c(i, j) - Dot(t, i, x, j, k, n)
    {
      EliminateFront(t, i, x, j, k, n, a[i, k], c(i, j), old(b[i, j]), b[i, j]);
    }
  }

  /** Case 1, column j: t is the lower triangle of a; from the first row down. */
  method LeftLower(alpha: real, a: array2<real>, b: array2<real>, j: nat, ghost t: Mat, ghost x: Mat, ghost c: Mat)
    requires a != b && a.Length0 == a.Length1 == b.Length0 && j < b.Length1
    requires IsLower(t, b.Length0) && forall i, k :: 0 <= k <= i < b.Length0 ==> t(i, k) == a[i, k]
    requires forall i :: 0 <= i < b.Length0 ==> a[i, i] != 0.0
    requires ColumnPosed(b, alpha, t, x, c, j)
    modifies b
    ensures forall i :: 0 <= i < b.Length0 ==> b[i, j] == x(i, j)
    ensures forall i, l :: 0 <= i < b.Length0 && 0 <= l < b.Length1 && l != j ==> b[i, l] == old(b[i, l])
  {
    hide Dot, Term;
    EmptyDots(0);
    var n := b.Length0;
    ScaleColumn(b, alpha, j);
    var k := 0;
    while k < n
      invariant 0 <= k <= n
      invariant forall i, l :: 0 <= i < n && 0 <= l < b.Length1 && l != j ==> b[i, l] == old(b[i, l])
      invariant forall i :: 0 <= i < k ==> b[i, j] == x(i, j)
      invariant Pending(b, t, x, c, j, k, n, 0, k)
    {
      PivotDown(a, b, j, k, t, x, c);
      k := k + 1;
    }
  }

  method PivotDown(a: array2<real>, b: array2<real>, j: nat, k: nat, ghost t: Mat, ghost x: Mat, ghost c: Mat)
    requires a != b && a.Length0 == a.Length1 == b.Length0 && j < b.Length1 && k < b.Length0
    requires IsLower(t, b.Length0) && forall i :: k <= i < b.Length0 ==> t(i, k) == a[i, k]
    requires a[k, k] != 0.0 && Dot(t, k, x, j, 0, b.Length0) == c(k, j)
    requires Pending(b, t, x, c, j, k, b.Length0, 0, k)
    modifies b
    ensures b[k, j] == x(k, j) && Pending(b, t, x, c, j, k + 1, b.Length0, 0, k + 1)
    ensures forall i :: 0 <= i < k ==> b[i, j] == old(b[i, j])
    ensures forall i, l :: 0 <= i < b.Length0 && 0 <= l < b.Length1 && l != j ==> b[i, l] == old(b[i, l])
  {
    hide Dot, Term;
    LowerRow(t, b.Length0, x, k, j);
    IsolatedByDivision(c(k, j), Dot(t, k, x, j, 0, k), a[k, k], b[k, j]);
    b[k, j] := b[k, j] / a[k, k];
    EliminateRows(a, b, j, k, k + 1, b.Length0, x(k, j));
    forall i | k < i < b.Length0
      ensures b[i, j] == c(i, j) - Dot(t, i, x, j, 0, k + 1)
    {
      EliminateBack(t, i, x, j, 0, k, a[i, k], c(i, j), old(b[i, j]), b[i, j]);
    }
  }

  /** One entry of the transposed cases, from the solved rows lo to hi of its column. */
  method SolveEntry(alpha: real, a: array2<real>, b: array2<real>, i: nat, j: nat, lo: nat, hi: nat, ghost t: Mat,
                    ghost x: Mat, ghost c: Mat)
    requires a != b && a.Length0 == a.Length1 == b.Length0 && i < b.Length0 && j < b.Length1 && lo <= hi <= b.Length0
    requires forall k :: lo <= k < hi ==> t(i, k) == a[k, i] && x(k, j) == b[k, j]
    requires a[i, i] != 0.0 && c(i, j) == alpha * b[i, j]
    requires x(i, j) == Isolated(c(i, j), Dot(t, i, x, j, lo, hi), a[i, i])
    modifies b
    ensures b[i, j] == x(i, j)
    ensures forall r, l :: 0 <= r < b.Length0 && 0 <= l < b.Length1 && (r != i || l != j) ==> b[r, l] == old(b[r, l])
  {
    hide Dot, Term;
    var temp := SubtractProducts(a, b, i, j, lo, hi, alpha * b[i, j], t, x);
    IsolatedByDivision(c(i, j), Dot(t, i, x, j, lo, hi), a[i, i], temp);
    temp := temp / a[i, i];
    b[i, j] := temp;
  }

  /** Case 2, column j: t is the transposed upper triangle of a; every entry from the finished ones. */
  method LeftUpperTransposed(alpha: real, a: array2<real>, b: array2<real>, j: nat, ghost t: Mat, ghost x: Mat,
                             ghost c: Mat)
    requires a != b && a.Length0 == a.Length1 == b.Length0 && j < b.Length1
    requires IsLower(t, b.Length0) && forall i, k :: 0 <= k <= i < b.Length0 ==> t(i, k) == a[k, i]
    requires forall i :: 0 <= i < b.Length0 ==> a[i, i] != 0.0
    requires ColumnPosed(b, alpha, t, x, c, j)
    modifies b
    ensures forall i :: 0 <= i < b.Length0 ==> b[i, j] == x(i, j)
    ensures forall i, l :: 0 <= i < b.Length0 && 0 <= l < b.Length1 && l != j ==> b[i, l] == old(b[i, l])
  {
    hide Dot, Term;
    var n := b.Length0;
    var i := 0;
    while i < n
      invariant 0 <= i <= n
      invariant forall r, l :: 0 <= r < n && 0 <= l < b.Length1 && l != j ==> b[r, l] == old(b[r, l])
      invariant forall r :: 0 <= r < i ==> b[r, j] == x(r, j)
      invariant forall r :: i <= r < n ==> b[r, j] == old(b[r, j])
    {
      LowerRow(t, n, x, i, j);
      SolveEntry(alpha, a, b, i, j, 0, i, t, x, c);
      i := i + 1;
    }
  }

  /** Case 3, column j: t is the transposed lower triangle of a, from the last row up. */
  method LeftLowerTransposed(alpha: real, a: array2<real>, b: array2<real>, j: nat, ghost t: Mat, ghost x: Mat,
                             ghost c: Mat)
    requires a != b && a.Length0 == a.Length1 == b.Length0 && j < b.Length1
    requires IsUpper(t, b.Length0) && forall i, k :: 0 <= i <= k < b.Length0 ==> t(i, k) == a[k, i]
    requires forall i :: 0 <= i < b.Length0 ==> a[i, i] != 0.0
    requires ColumnPosed(b, alpha, t, x, c, j)
    modifies b
    ensures forall i :: 0 <= i < b.Length0 ==> b[i, j] == x(i, j)
    ensures forall i, l :: 0 <= i < b.Length0 && 0 <= l < b.Length1 && l != j ==> b[i, l] == old(b[i, l])
  {
    hide Dot, Term;
    var n := b.Length0;
    var i := n - 1;
    while i >= 0
      invariant -1 <= i < n
      invariant forall r, l :: 0 <= r < n && 0 <= l < b.Length1 && l != j ==> b[r, l] == old(b[r, l])
      invariant forall r :: i < r < n ==> b[r, j] == x(r, j)
      invariant forall r :: 0 <= r <= i ==> b[r, j] == old(b[r, j])
    {
      UpperRow(t, n, x, i, j);
      SolveEntry(alpha, a, b, i, j, i + 1, n, t, x, c);
      i := i - 1;
    }
  }

  // ----- solving from the right, whole columns of B at a time

  /** Column j of b holds what is left of c after subtracting the products with the columns `from` to `to` of x. */
  ghost predicate PendingColumn(b: array2<real>, t: Mat, x: Mat, c: Mat, j: int, from: int, to: int)
    requires 0 <= j < b.Length1
    reads b
  {
    forall i :: 0 <= i < b.Length0 ==> b[i, j] == c(i, j) - Dot(x, i, t, j, from, to)
  }

  ghost predicate ColumnIs(b: array2<real>, x: Mat, j: int)
    requires 0 <= j < b.Length1
    reads b
  {
    forall i :: 0 <= i < b.Length0 ==> b[i, j] == x(i, j)
  }

  /** Subtracts column k of x, times s == t(k,j), from the pending column j. */
  method SubtractNext(b: array2<real>, s: real, j: nat, k: nat, ghost t: Mat, ghost x: Mat, ghost c: Mat,
                      ghost from: int)
    requires j < b.Length1 && k < b.Length1 && j != k && from <= k && ColumnIs(b, x, k) && s == t(k, j)
    requires PendingColumn(b, t, x, c, j, from, k)
    modifies b
    ensures PendingColumn(b, t, x, c, j, from, k + 1)
    ensures forall i, l :: 0 <= i < b.Length0 && 0 <= l < b.Length1 && l != j ==> b[i, l] == old(b[i, l])
  {
    hide Dot, Term;
    SubtractColumn(b, s, j, k, x);
    forall i | 0 <= i < b.Length0
      ensures b[i, j] == c(i, j) - Dot(x, i, t, j, from, k + 1)
    {
      SubtractBack(x, i, t, j, from, k, s, c(i, j), old(b[i, j]), b[i, j]);
    }
  }

  /** The same when column k comes in front of the columns subtracted so far. */
  method SubtractPrevious(b: array2<real>, s: real, j: nat, k: nat, ghost t: Mat, ghost x: Mat, ghost c: Mat,
                          ghost to: int)
    requires j < b.Length1 && k < b.Length1 && j != k && k < to && ColumnIs(b, x, k) && s == t(k, j)
    requires PendingColumn(b, t, x, c, j, k + 1, to)
    modifies b
    ensures PendingColumn(b, t, x, c, j, k, to)
    ensures forall i, l :: 0 <= i < b.Length0 && 0 <= l < b.Length1 && l != j ==> b[i, l] == old(b[i, l])
  {
    hide Dot, Term;
    SubtractColumn(b, s, j, k, x);
    forall i | 0 <= i < b.Length0
      ensures b[i, j] == c(i, j) - Dot(x, i, t, j, k, to)
    {
      SubtractFront(x, i, t, j, k, to, s, c(i, j), old(b[i, j]), b[i, j]);
    }
  }

  /** Multiplying a pending column by the inverse of the diagonal finishes it. */
  method FinishColumn(b: array2<real>, d: real, j: nat, ghost t: Mat, ghost x: Mat, ghost c: Mat, ghost from: int,
                      ghost to: int)
    requires j < b.Length1 && d == t(j, j) && d != 0.0
    requires PendingColumn(b, t, x, c, j, from, to)
    requires forall i :: 0 <= i < b.Length0 ==> Dot(x, i, t, j, 0, b.Length1) == c(i, j)
    requires (from == 0 && to == j && IsUpper(t, b.Length1)) ||
             (from == j + 1 && to == b.Length1 && IsLower(t, b.Length1))
    modifies b
    ensures ColumnIs(b, x, j)
    ensures forall i, l :: 0 <= i < b.Length0 && 0 <= l < b.Length1 && l != j ==> b[i, l] == old(b[i, l])
  {
    hide Dot, Term;
    var temp := 1.0 / d;
    forall i | 0 <= i < b.Length0
      ensures x(i, j) == temp * b[i, j]
    {
      if from == 0 && to == j && IsUpper(t, b.Length1) {
        UpperColumn(t, b.Length1, x, i, j);
      } else {
        LowerColumn(t, b.Length1, x, i, j);
      }
      IsolatedByDivision(c(i, j), Dot(x, i, t, j, from, to), d, b[i, j]);
    }
    ScaleColumn(b, temp, j);
  }

  /** Every column other than j is as before. */
  twostate predicate OnlyColumn(b: array2<real>, j: int)
    reads b
  {
    forall i, l :: 0 <= i < b.Length0 && 0 <= l < b.Length1 && l != j ==> b[i, l] == old(b[i, l])
  }

  /** Case 4: x t == c with t the upper triangle of a, from the first column on. */
  method RightUpper(alpha: real, a: array2<real>, b: array2<real>, ghost t: Mat, ghost x: Mat, ghost c: Mat)
    requires a != b && a.Length0 == a.Length1 == b.Length1
    requires IsUpper(t, b.Length1) && forall k, j :: 0 <= k <= j < b.Length1 ==> t(k, j) == a[k, j]
    requires forall i :: 0 <= i < b.Length1 ==> a[i, i] != 0.0
    requires forall i, j :: 0 <= i < b.Length0 && 0 <= j < b.Length1 ==> c(i, j) == alpha * b[i, j]
    requires SolvesRight(t, b.Length1, b.Length0, x, c)
    modifies b
    ensures Holds(b, x)
  {
    hide Dot, Term;
    var j := 0;
    while j < b.Length1
      invariant 0 <= j <= b.Length1
      invariant forall i, l :: 0 <= i < b.Length0 && 0 <= l < j ==> b[i, l] == x(i, l)
      invariant forall i, l :: 0 <= i < b.Length0 && j <= l < b.Length1 ==> c(i, l) == alpha * b[i, l]
    {
      RightUpperColumn(alpha, a, b, j, t, x, c);
      j := j + 1;
    }
  }

  method RightUpperColumn(alpha: real, a: array2<real>, b: array2<real>, j: nat, ghost t: Mat, ghost x: Mat,
                          ghost c: Mat)
    requires a != b && a.Length0 == a.Length1 == b.Length1 && j < b.Length1 && a[j, j] != 0.0
    requires IsUpper(t, b.Length1) && forall k :: 0 <= k <= j ==> t(k, j) == a[k, j]
    requires forall i :: 0 <= i < b.Length0 ==> c(i, j) == alpha * b[i, j] && Dot(x, i, t, j, 0, b.Length1) == c(i, j)
    requires forall i, l :: 0 <= i < b.Length0 && 0 <= l < j ==> b[i, l] == x(i, l)
    modifies b
    ensures ColumnIs(b, x, j) && OnlyColumn(b, j)
  {
    hide Dot, Term;
    EmptyDots(0);
    ScaleColumn(b, alpha, j);
    var k := 0;
    while k < j
      invariant 0 <= k <= j
      invariant OnlyColumn(b, j) && PendingColumn(b, t, x, c, j, 0, k)
    {
      if a[k, j] != 0.0 {
        SubtractNext(b, a[k, j], j, k, t, x, c, 0);
      } else {
        NothingToSubtract(x, t, j, 0, k);
      }
      k := k + 1;
    }
    FinishColumn(b, a[j, j], j, t, x, c, 0, j);
  }

  /** Case 5: x t == c with t the lower triangle of a, from the last column back. */
  method RightLower(alpha: real, a: array2<real>, b: array2<real>, ghost t: Mat, ghost x: Mat, ghost c: Mat)
    requires a != b && a.Length0 == a.Length1 == b.Length1
    requires IsLower(t, b.Length1) && forall k, j :: 0 <= j <= k < b.Length1 ==> t(k, j) == a[k, j]
    requires forall i :: 0 <= i < b.Length1 ==> a[i, i] != 0.0
    requires forall i, j :: 0 <= i < b.Length0 && 0 <= j < b.Length1 ==> c(i, j) == alpha * b[i, j]
    requires SolvesRight(t, b.Length1, b.Length0, x, c)
    modifies b
    ensures Holds(b, x)
  {
    hide Dot, Term;
    var j := b.Length1 - 1;
    while j >= 0
      invariant -1 <= j < b.Length1
      invariant forall i, l :: 0 <= i < b.Length0 && j < l < b.Length1 ==> b[i, l] == x(i, l)
      invariant forall i, l :: 0 <= i < b.Length0 && 0 <= l <= j ==> c(i, l) == alpha * b[i, l]
    {
      RightLowerColumn(alpha, a, b, j, t, x, c);
      j := j - 1;
    }
  }

  method RightLowerColumn(alpha: real, a: array2<real>, b: array2<real>, j: nat, ghost t: Mat, ghost x: Mat,
                          ghost c: Mat)
    requires a != b && a.Length0 == a.Length1 == b.Length1 && j < b.Length1 && a[j, j] != 0.0
    requires IsLower(t, b.Length1) && forall k :: j <= k < b.Length1 ==> t(k, j) == a[k, j]
    requires forall i :: 0 <= i < b.Length0 ==> c(i, j) == alpha * b[i, j] && Dot(x, i, t, j, 0, b.Length1) == c(i, j)
    requires forall i, l :: 0 <= i < b.Length0 && j < l < b.Length1 ==> b[i, l] == x(i, l)
    modifies b
    ensures ColumnIs(b, x, j) && OnlyColumn(b, j)
  {
    hide Dot, Term;
    EmptyDots(j + 1);
    ScaleColumn(b, alpha, j);
    var k := j + 1;
    while k < b.Length1
      invariant j < k <= b.Length1
      invariant OnlyColumn(b, j) && PendingColumn(b, t, x, c, j, j + 1, k)
    {
      SubtractNext(b, a[k, j], j, k, t, x, c, j + 1);
      k := k + 1;
    }
    FinishColumn(b, a[j, j], j, t, x, c, j + 1, b.Length1);
  }

  /** The columns from lo up to hi of b are pending with the products of the columns `from` to `to` of y. */
  ghost predicate PendingColumns(b: array2<real>, t: Mat, y: Mat, b0: Mat, lo: int, hi: int, from: int, to: int)
    requires 0 <= lo && hi <= b.Length1
    reads b
  {
    forall i, l :: 0 <= i < b.Length0 && lo <= l < hi ==> b[i, l] == b0(i, l) - Dot(y, i, t, l, from, to)
  }

  method ScaleSolved(b: array2<real>, alpha: real, k: nat, ghost y: Mat, ghost x: Mat)
    requires k < b.Length1 && ColumnIs(b, y, k)
    requires forall i :: 0 <= i < b.Length0 ==> x(i, k) == alpha * y(i, k)
    modifies b
    ensures ColumnIs(b, x, k) && OnlyColumn(b, k)
  {
    hide Dot, Term;
    ScaleColumn(b, alpha, k);
  }

  /** Case 6: y t == b with t the transposed upper triangle of a, from the last column back. A solved
      column is propagated before it is multiplied by alpha. */
  method RightUpperTransposed(alpha: real, a: array2<real>, b: array2<real>, ghost t: Mat, ghost y: Mat, ghost x: Mat,
                              ghost b0: Mat)
    requires a != b && a.Length0 == a.Length1 == b.Length1
    requires IsLower(t, b.Length1) && forall k, j :: 0 <= j <= k < b.Length1 ==> t(k, j) == a[j, k]
    requires forall i :: 0 <= i < b.Length1 ==> a[i, i] != 0.0
    requires Holds(b, b0) && SolvesRight(t, b.Length1, b.Length0, y, b0)
    requires forall i, j :: 0 <= i < b.Length0 && 0 <= j < b.Length1 ==> x(i, j) == alpha * y(i, j)
    modifies b
    ensures Holds(b, x)
  {
    hide Dot, Term;
    EmptyDots(b.Length1);
    var n := b.Length1;
    var k := n - 1;
    while k >= 0
      invariant -1 <= k < n
      invariant forall i, l :: 0 <= i < b.Length0 && k < l < n ==> b[i, l] == x(i, l)
      invariant PendingColumns(b, t, y, b0, 0, k + 1, k + 1, n)
    {
      FinishColumn(b, a[k, k], k, t, y, b0, k + 1, n);
      PropagateBack(a, b, k, t, y, b0);
      ScaleSolved(b, alpha, k, y, x);
      k := k - 1;
    }
  }

  method PropagateBack(a: array2<real>, b: array2<real>, k: nat, ghost t: Mat, ghost y: Mat, ghost b0: Mat)
    requires a != b && a.Length0 == a.Length1 == b.Length1 && k < b.Length1
    requires forall j :: 0 <= j <= k ==> t(k, j) == a[j, k]
    requires ColumnIs(b, y, k) && PendingColumns(b, t, y, b0, 0, k, k + 1, b.Length1)
    modifies b
    ensures PendingColumns(b, t, y, b0, 0, k, k, b.Length1)
    ensures forall i, l :: 0 <= i < b.Length0 && k <= l < b.Length1 ==> b[i, l] == old(b[i, l])
  {
    hide Dot, Term;
    var j := 0;
    while j < k
      invariant 0 <= j <= k
      invariant forall i, l :: 0 <= i < b.Length0 && k <= l < b.Length1 ==> b[i, l] == old(b[i, l])
      invariant PendingColumns(b, t, y, b0, 0, j, k, b.Length1)
      invariant PendingColumns(b, t, y, b0, j, k, k + 1, b.Length1)
    {
      SubtractPrevious(b, a[j, k], j, k, t, y, b0, b.Length1);
      j := j + 1;
    }
  }

  /** Case 7: the same with the transposed lower triangle of a, from the first column on. */
  method RightLowerTransposed(alpha: real, a: array2<real>, b: array2<real>, ghost t: Mat, ghost y: Mat, ghost x: Mat,
                              ghost b0: Mat)
    requires a != b && a.Length0 == a.Length1 == b.Length1
    requires IsUpper(t, b.Length1) && forall k, j :: 0 <= k <= j < b.Length1 ==> t(k, j) == a[j, k]
    requires forall i :: 0 <= i < b.Length1 ==> a[i, i] != 0.0
    requires Holds(b, b0) && SolvesRight(t, b.Length1, b.Length0, y, b0)
    requires forall i, j :: 0 <= i < b.Length0 && 0 <= j < b.Length1 ==> x(i, j) == alpha * y(i, j)
    modifies b
    ensures Holds(b, x)
  {
    hide Dot, Term;
    EmptyDots(0);
    var n := b.Length1;
    var k := 0;
    while k < n
      invariant 0 <= k <= n
      invariant forall i, l :: 0 <= i < b.Length0 && 0 <= l < k ==> b[i, l] == x(i, l)
      invariant PendingColumns(b, t, y, b0, k, n, 0, k)
    {
      FinishColumn(b, a[k, k], k, t, y, b0, 0, k);
      PropagateForward(a, b, k, t, y, b0);
      ScaleSolved(b, alpha, k, y, x);
      k := k + 1;
    }
  }

  method PropagateForward(a: array2<real>, b: array2<real>, k: nat, ghost t: Mat, ghost y: Mat, ghost b0: Mat)
    requires a != b && a.Length0 == a.Length1 == b.Length1 && k < b.Length1
    requires forall j :: k <= j < b.Length1 ==> t(k, j) == a[j, k]
    requires ColumnIs(b, y, k) && PendingColumns(b, t, y, b0, k + 1, b.Length1, 0, k)
    modifies b
    ensures PendingColumns(b, t, y, b0, k + 1, b.Length1, 0, k + 1)
    ensures forall i, l :: 0 <= i < b.Length0 && 0 <= l <= k ==> b[i, l] == old(b[i, l])
  {
    hide Dot, Term;
    var j := k + 1;
    while j < b.Length1
      invariant k < j <= b.Length1
      invariant forall i, l :: 0 <= i < b.Length0 && 0 <= l <= k ==> b[i, l] == old(b[i, l])
      invariant PendingColumns(b, t, y, b0, k + 1, j, 0, k + 1)
      invariant PendingColumns(b, t, y, b0, j, b.Length1, 0, k)
    {
      if a[j, k] != 0.0 {
        SubtractNext(b, a[j, k], j, k, t, y, b0, 0);
      } else {
        NothingToSubtract(y, t, j, 0, k);
      }
      j := j + 1;
    }
  }

  // ----- the selector

  /** Overwrites b with the solution of op(a) x == alpha * b (side 0) or x op(a) == alpha * b (side 1),
      where op(a) is the triangle t. */
  method Ftrsm(side: int, uplo: int, at: int, alpha: real, a: array2<real>, b: array2<real>, ghost t: Mat,
               ghost a0: Mat, ghost b0: Mat)
    returns (ghost x: Mat)
    requires side in {0, 1} && uplo in {0, 1} && at in {0, 1}
    requires a != b && a.Length0 == a.Length1 == if side == 0 then b.Length0 else b.Length1
    requires Holds(a, a0) && Holds(b, b0) && IsTriangleOf(t, a0, a.Length0, uplo == 1, at == 1)
    requires forall i :: 0 <= i < a.Length0 ==> a[i, i] != 0.0
    modifies b
    ensures Holds(b, x)
    ensures side == 0 ==> SolvesLeft(t, a.Length0, b.Length1, x, Scale(alpha, b0))
    ensures side == 1 ==> SolvesRight(t, a.Length0, b.Length0, x, Scale(alpha, b0))
  {
    hide Dot, Term;
    var selector := side * 4 + at * 2 + uplo;
    assert Regular(t, a.Length0);
    if selector < 4 {
      x := SolutionExists(t, a.Length0, b.Length1, Scale(alpha, b0));
      FtrsmLeft(selector, alpha, a, b, t, x, Scale(alpha, b0));
    } else if selector < 6 {
      x := RightSolutionExists(t, a.Length0, b.Length0, Scale(alpha, b0));
      if selector == 4 {
        RightUpper(alpha, a, b, t, x, Scale(alpha, b0));
      } else {
        RightLower(alpha, a, b, t, x, Scale(alpha, b0));
      }
    } else {
      ghost var y := RightSolutionExists(t, a.Length0, b.Length0, b0);
      ScaledSolution(t, a.Length0, b.Length0, y, b0, alpha);
      x := Scale(alpha, y);
      if selector == 6 {
        RightUpperTransposed(alpha, a, b, t, y, x, b0);
      } else {
        RightLowerTransposed(alpha, a, b, t, y, x, b0);
      }
    }
  }

  /** The cases 0 to 3 share their loop over the columns of b. */
  method FtrsmLeft(selector: int, alpha: real, a: array2<real>, b: array2<real>, ghost t: Mat, ghost x: Mat,
                   ghost c: Mat)
    requires 0 <= selector < 4 && a != b && a.Length0 == a.Length1 == b.Length0
    requires forall i, k :: 0 <= i < b.Length0 && 0 <= k < b.Length0 ==>
      t(i, k) ==
        if (if selector in {1, 2} then i >= k else i <= k) then (if selector >= 2 then a[k, i] else a[i, k]) else 0.0
    requires forall i :: 0 <= i < a.Length0 ==> a[i, i] != 0.0
    requires forall i, j :: 0 <= i < b.Length0 && 0 <= j < b.Length1 ==> c(i, j) == alpha * b[i, j]
    requires SolvesLeft(t, b.Length0, b.Length1, x, c)
    modifies b
    ensures Holds(b, x)
  {
    hide Dot, Term;
    var j := 0;
    while j < b.Length1
      invariant 0 <= j <= b.Length1
      invariant forall i, l :: 0 <= i < b.Length0 && 0 <= l < j ==> b[i, l] == x(i, l)
      invariant forall i, l :: 0 <= i < b.Length0 && j <= l < b.Length1 ==> c(i, l) == alpha * b[i, l]
    {
      match selector {
        case 0 => LeftUpper(alpha, a, b, j, t, x, c);
        case 1 => LeftLower(alpha, a, b, j, t, x, c);
        case 2 => LeftUpperTransposed(alpha, a, b, j, t, x, c);
        case 3 => LeftLowerTransposed(alpha, a, b, j, t, x, c);
      }
      j := j + 1;
    }
  }
}
