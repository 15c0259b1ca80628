/** Triangular systems: their solutions exist and are unique. */
module TriangularSystems {
  import opened Matrices

  ghost predicate IsLower(t: Mat, n: int) {
    forall i, k :: 0 <= i < k < n ==> t(i, k) == 0.0
  }

  ghost predicate IsUpper(t: Mat, n: int) {
    forall i, k :: 0 <= k < i < n ==> t(i, k) == 0.0
  }

  ghost predicate Regular(t: Mat, n: int) {
    && (IsLower(t, n) || IsUpper(t, n))
    && forall i :: 0 <= i < n ==> t(i, i) != 0.0
  }

  /** t x == b for an n by n matrix t and m right-hand sides. */
  ghost predicate SolvesLeft(t: Mat, n: int, m: int, x: Mat, b: Mat) {
    forall i, j :: 0 <= i < n && 0 <= j < m ==> Dot(t, i, x, j, 0, n) == b(i, j)
  }

  /** x t == b for an n by n matrix t and m rows. */
  ghost predicate SolvesRight(t: Mat, n: int, m: int, x: Mat, b: Mat) {
    forall i, j :: 0 <= i < m && 0 <= j < n ==> Dot(x, i, t, j, 0, n) == b(i, j)
  }

  lemma RightIsTransposedLeft(t: Mat, n: int, m: int, x: Mat, b: Mat)
    ensures SolvesRight(t, n, m, x, b) <==> SolvesLeft(Transpose(t), n, m, Transpose(x), Transpose(b))
  {
    forall i, j
      ensures Dot(x, i, t, j, 0, n) == Dot(Transpose(t), j, Transpose(x), i, 0, n)
    {
      DotCommutes(x, i, t, j, 0, n);
    }
    if SolvesLeft(Transpose(t), n, m, Transpose(x), Transpose(b)) {
      forall i, j | 0 <= i < m && 0 <= j < n
        ensures Dot(x, i, t, j, 0, n) == b(i, j)
      {
        assert Dot(Transpose(t), j, Transpose(x), i, 0, n) == Transpose(b)(j, i);
      }
    }
  }

  /** The unknown a in whole == rest + d * a. */
  ghost function Isolated(whole: real, rest: real, d: real): real
    requires d != 0.0
  {
    (whole - rest) / d
  }

  /** In a triangular row only one side of the diagonal contributes, so the row determines its entry
      of the solution once the entries on that side are known. */
  lemma LowerRow(t: Mat, n: int, x: Mat, i: int, j: int)
    requires IsLower(t, n) && 0 <= i < n && t(i, i) != 0.0
    ensures x(i, j) == Isolated(Dot(t, i, x, j, 0, n), Dot(t, i, x, j, 0, i), t(i, i))
  {
    LowerRowSum(t, n, x, i, j);
    IsolateFactor(t(i, i), x(i, j), Dot(t, i, x, j, 0, i), Dot(t, i, x, j, 0, n));
  }

  lemma LowerRowSum(t: Mat, n: int, x: Mat, i: int, j: int)
    requires IsLower(t, n) && 0 <= i < n
    ensures Dot(t, i, x, j, 0, n) == Dot(t, i, x, j, 0, i) + t(i, i) * x(i, j)
  {
    DotSplit(t, i, x, j, 0, i + 1, n);
    DotZero(t, i, x, j, i + 1, n);
  }

  lemma UpperRow(t: Mat, n: int, x: Mat, i: int, j: int)
    requires IsUpper(t, n) && 0 <= i < n && t(i, i) != 0.0
    ensures x(i, j) == Isolated(Dot(t, i, x, j, 0, n), Dot(t, i, x, j, i + 1, n), t(i, i))
  {
    UpperRowSum(t, n, x, i, j);
    IsolateFactor(t(i, i), x(i, j), Dot(t, i, x, j, i + 1, n), Dot(t, i, x, j, 0, n));
  }

  lemma UpperRowSum(t: Mat, n: int, x: Mat, i: int, j: int)
    requires IsUpper(t, n) && 0 <= i < n
    ensures Dot(t, i, x, j, 0, n) == Dot(t, i, x, j, i + 1, n) + t(i, i) * x(i, j)
  {
    DotSplit(t, i, x, j, 0, i, n);
    DotZero(t, i, x, j, 0, i);
    DotFront(t, i, x, j, i, n);
  }

  /** The same, for a row of the unknown x times a column of the triangle. */
  lemma UpperColumn(t: Mat, n: int, x: Mat, i: int, j: int)
    requires IsUpper(t, n) && 0 <= j < n && t(j, j) != 0.0
    ensures x(i, j) == Isolated(Dot(x, i, t, j, 0, n), Dot(x, i, t, j, 0, j), t(j, j))
  {
    DotCommutes(x, i, t, j, 0, n);
    DotCommutes(x, i, t, j, 0, j);
    LowerRow(Transpose(t), n, Transpose(x), j, i);
  }

  lemma LowerColumn(t: Mat, n: int, x: Mat, i: int, j: int)
    requires IsLower(t, n) && 0 <= j < n && t(j, j) != 0.0
    ensures x(i, j) == Isolated(Dot(x, i, t, j, 0, n), Dot(x, i, t, j, j + 1, n), t(j, j))
  {
    DotCommutes(x, i, t, j, 0, n);
    DotCommutes(x, i, t, j, j + 1, n);
    UpperRow(Transpose(t), n, Transpose(x), j, i);
  }

  /** Both ways in which the solvers divide the pending entry by the diagonal. */
  lemma IsolatedByDivision(whole: real, rest: real, d: real, entry: real)
    requires d != 0.0 && entry == whole - rest
    ensures Isolated(whole, rest, d) == entry / d == 1.0 / d * entry
    ensures entry == 0.0 <==> Isolated(whole, rest, d) == 0.0
  {
    var q := entry / d;
    assert q * d == entry;
  }

  lemma IsolateFactor(d: real, a: real, rest: real, whole: real)
    requires d != 0.0 && whole == rest + d * a
    ensures a == Isolated(whole, rest, d)
  {}

  lemma SolutionIsUnique(t: Mat, n: nat, m: int, x: Mat, y: Mat, b: Mat)
    requires Regular(t, n) && SolvesLeft(t, n, m, x, b) && SolvesLeft(t, n, m, y, b)
    ensures Equal(x, y, n, m)
  {
    forall i, j | 0 <= i < n && 0 <= j < m
      ensures x(i, j) == y(i, j)
    {
      if IsLower(t, n) {
        LowerEntryIsUnique(t, n, m, x, y, b, i, j);
      } else {
        UpperEntryIsUnique(t, n, m, x, y, b, i, j);
      }
    }
  }

  lemma RightSolutionIsUnique(t: Mat, n: nat, m: int, x: Mat, y: Mat, b: Mat)
    requires Regular(t, n) && SolvesRight(t, n, m, x, b) && SolvesRight(t, n, m, y, b)
    ensures Equal(x, y, m, n)
  {
    RightIsTransposedLeft(t, n, m, x, b);
    RightIsTransposedLeft(t, n, m, y, b);
    TransposeIsRegular(t, n);
    SolutionIsUnique(Transpose(t), n, m, Transpose(x), Transpose(y), Transpose(b));
    forall i, j | 0 <= i < m && 0 <= j < n
      ensures x(i, j) == y(i, j)
    {
      assert Transpose(x)(j, i) == Transpose(y)(j, i);
    }
  }

  lemma TransposeIsRegular(t: Mat, n: int)
    requires Regular(t, n)
    ensures Regular(Transpose(t), n)
  {
    if IsLower(t, n) {
      assert IsUpper(Transpose(t), n);
    } else {
      assert IsLower(Transpose(t), n);
    }
  }

  lemma {:induction false} LowerEntryIsUnique(t: Mat, n: nat, m: int, x: Mat, y: Mat, b: Mat, i: nat, j: int)
    requires Regular(t, n) && IsLower(t, n) && SolvesLeft(t, n, m, x, b) && SolvesLeft(t, n, m, y, b)
    requires i < n && 0 <= j < m
    ensures x(i, j) == y(i, j)
  {
    forall k | 0 <= k < i
      ensures x(k, j) == y(k, j)
    {
      LowerEntryIsUnique(t, n, m, x, y, b, k, j);
    }
    LowerRow(t, n, x, i, j);
    LowerRow(t, n, y, i, j);
    DotDepends(t, i, x, j, t, i, y, j, 0, i);
  }

  lemma {:induction false} UpperEntryIsUnique(t: Mat, n: nat, m: int, x: Mat, y: Mat, b: Mat, i: nat, j: int)
    requires Regular(t, n) && IsUpper(t, n) && SolvesLeft(t, n, m, x, b) && SolvesLeft(t, n, m, y, b)
    requires i < n && 0 <= j < m
    ensures x(i, j) == y(i, j)
    decreases n - i
  {
    forall k | i < k < n
      ensures x(k, j) == y(k, j)
    {
      UpperEntryIsUnique(t, n, m, x, y, b, k, j);
    }
    UpperRow(t, n, x, i, j);
    UpperRow(t, n, y, i, j);
    DotDepends(t, i, x, j, t, i, y, j, i + 1, n);
  }

  /** The vector x as a column whose entries start at row lo. */
  ghost function ColumnAt(x: seq<real>, lo: int): Mat {
    (i, j) => if lo <= i < lo + |x| then x[i - lo] else 0.0
  }

  /** Forward substitution yields a solution for one right-hand side. */
  lemma ForwardSubstitution(t: Mat, n: nat, b: Mat, j: int) returns (x: seq<real>)
    requires IsLower(t, n) && forall i :: 0 <= i < n ==> t(i, i) != 0.0
    ensures |x| == n && forall i :: 0 <= i < n ==> Dot(t, i, ColumnAt(x, 0), 0, 0, n) == b(i, j)
  {
    x := [];
    for r := 0 to n
      invariant |x| == r && forall i :: 0 <= i < r ==> Dot(t, i, ColumnAt(x, 0), 0, 0, r) == b(i, j)
    {
      var rest := Dot(t, r, ColumnAt(x, 0), 0, 0, r);
      var longer := x + [(b(r, j) - rest) / t(r, r)];
      forall i | 0 <= i < r + 1
        ensures Dot(t, i, ColumnAt(longer, 0), 0, 0, r + 1) == b(i, j)
      {
        DotDepends(t, i, ColumnAt(longer, 0), 0, t, i, ColumnAt(x, 0), 0, 0, r);
        if i < r {
          assert t(i, r) == 0.0;
        } else {
          MultiplyBack(t(r, r), b(r, j) - rest);
        }
      }
      x := longer;
    }
  }

  lemma MultiplyBack(d: real, a: real)
    requires d != 0.0
    ensures d * (a / d) == a
  {}

  /** Backward substitution does so for an upper triangle. */
  lemma BackwardSubstitution(t: Mat, n: nat, b: Mat, j: int) returns (x: seq<real>)
    requires IsUpper(t, n) && forall i :: 0 <= i < n ==> t(i, i) != 0.0
    ensures |x| == n && forall i :: 0 <= i < n ==> Dot(t, i, ColumnAt(x, 0), 0, 0, n) == b(i, j)
  {
    x := [];
    var lo := n;
    while lo > 0
      invariant 0 <= lo && |x| == n - lo
      invariant forall i :: lo <= i < n ==> Dot(t, i, ColumnAt(x, lo), 0, lo, n) == b(i, j)
    {
      var r := lo - 1;
      var rest := Dot(t, r, ColumnAt(x, lo), 0, lo, n);
      var longer := [(b(r, j) - rest) / t(r, r)] + x;
      forall i | r <= i < n
        ensures Dot(t, i, ColumnAt(longer, r), 0, r, n) == b(i, j)
      {
        DotFront(t, i, ColumnAt(longer, r), 0, r, n);
        DotDepends(t, i, ColumnAt(longer, r), 0, t, i, ColumnAt(x, lo), 0, lo, n);
        if i > r {
          assert t(i, r) == 0.0;
        } else {
          MultiplyBack(t(r, r), b(r, j) - rest);
        }
      }
      x, lo := longer, r;
    }
  }

  /** The matrix with the given columns of height n. */
  ghost function FromColumns(columns: seq<seq<real>>): Mat {
    (i, j) => if 0 <= j < |columns| && 0 <= i < |columns[j]| then columns[j][i] else 0.0
  }

  lemma SolutionExists(t: Mat, n: nat, m: nat, b: Mat) returns (x: Mat)
    requires Regular(t, n)
    ensures SolvesLeft(t, n, m, x, b)
  {
    var columns: seq<seq<real>> := [];
    for j := 0 to m
      invariant |columns| == j
      invariant forall l :: 0 <= l < j ==> |columns[l]| == n
      invariant forall i, l :: 0 <= i < n && 0 <= l < j ==> Dot(t, i, ColumnAt(columns[l], 0), 0, 0, n) == b(i, l)
    {
      var c;
      if IsLower(t, n) {
        c := ForwardSubstitution(t, n, b, j);
      } else {
        c := BackwardSubstitution(t, n, b, j);
      }
      columns := columns + [c];
    }
    x := FromColumns(columns);
    forall i, j | 0 <= i < n && 0 <= j < m
      ensures Dot(t, i, x, j, 0, n) == b(i, j)
    {
      DotDepends(t, i, x, j, t, i, ColumnAt(columns[j], 0), 0, 0, n);
    }
  }

  lemma RightSolutionExists(t: Mat, n: nat, m: nat, b: Mat) returns (x: Mat)
    requires Regular(t, n)
    ensures SolvesRight(t, n, m, x, b)
  {
    var y := SolutionExists(Transpose(t), n, m, Transpose(b));
    x := Transpose(y);
    RightIsTransposedLeft(t, n, m, x, b);
    assert SolvesLeft(Transpose(t), n, m, Transpose(x), Transpose(b)) by {
      forall i, j | 0 <= i < n && 0 <= j < m
        ensures Dot(Transpose(t), i, Transpose(x), j, 0, n) == Transpose(b)(i, j)
      {
        DotDepends(Transpose(t), i, Transpose(x), j, Transpose(t), i, y, j, 0, n);
      }
    }
  }

  lemma ScaledSolution(t: Mat, n: int, m: int, y: Mat, b: Mat, alpha: real)
    ensures SolvesRight(t, n, m, y, b) ==> SolvesRight(t, n, m, Scale(alpha, y), Scale(alpha, b))
  {
    forall i, j
      ensures Dot(Scale(alpha, y), i, t, j, 0, n) == alpha * Dot(y, i, t, j, 0, n)
    {
      DotScales(y, i, t, j, alpha, 0, n);
    }
  }
}
