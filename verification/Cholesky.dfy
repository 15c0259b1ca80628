/** The sub-matrix kernels that the Cholesky factorisation calls on one and the same array. */
module Kernels {
  import opened Matrices

  /** The m by n block of a matrix whose first entry is (i0, j0), as a matrix of its own. */
  ghost function Block(m: Mat, i0: int, j0: int): Mat {
    (i, j) => m(i + i0, j + j0)
  }

  /** Sum over the rows below m of the products of the entries of two blocks. */
  ghost function BlockDot(x: Mat, y: Mat, m: nat, n: nat): real {
    if m == 0 then 0.0 else BlockDot(x, y, m - 1, n) + Dot(x, m - 1, Transpose(y), m - 1, 0, n)
  }

  method Fdot(dx: array2<real>, dxi: nat, dxj: nat, dy: array2<real>, dyi: nat, dyj: nat, dm: nat, dn: nat,
              ghost x: Mat, ghost y: Mat)
    returns (res: real)
    requires dxi + dm <= dx.Length0 && dxj + dn <= dx.Length1 && dyi + dm <= dy.Length0 && dyj + dn <= dy.Length1
    requires Holds(dx, x) && Holds(dy, y)
    ensures res == BlockDot(Block(x, dxi, dxj), Block(y, dyi, dyj), dm, dn)
  {
    hide Dot;
    res := 0.0;
    ghost var u, w := Block(x, dxi, dxj), Block(y, dyi, dyj);
    var i := 0;
    while i < dm
      invariant 0 <= i <= dm && res == BlockDot(u, w, i, dn)
    {
      var j := 0;
      DotEmpty(u, i, Transpose(w), i, 0);
      while j < dn
        invariant 0 <= j <= dn && res == BlockDot(u, w, i, dn) + Dot(u, i, Transpose(w), i, 0, j)
      {
        DotLast(u, i, Transpose(w), i, 0, j + 1);
        res := res + dx[i + dxi, j + dxj] * dy[i + dyi, j + dyj];
        j := j + 1;
      }
      i := i + 1;
    }
  }

  /** A block of one column: the dot product of the two columns. */
  lemma {:induction false} BlockDotOfColumns(x: Mat, y: Mat, m: nat)
    ensures BlockDot(x, y, m, 1) == Dot(Transpose(x), 0, y, 0, 0, m)
  {
    if m > 0 {
      BlockDotOfColumns(x, y, m - 1);
      assert Dot(x, m - 1, Transpose(y), m - 1, 0, 1) ==
             Dot(x, m - 1, Transpose(y), m - 1, 0, 0) + x(m - 1, 0) * y(m - 1, 0);
    }
  }

  /** The matrix with one block multiplied by a factor. */
  ghost function ScaledBlock(da: real, x: Mat, i0: int, j0: int, m: int, n: int): Mat {
    (r, q) => if i0 <= r < i0 + m && j0 <= q < j0 + n then da * x(r, q) else x(r, q)
  }

  method Fscal(da: real, dx: array2<real>, dxi: nat, dxj: nat, dm: nat, dn: nat, ghost x: Mat)
    requires dxi + dm <= dx.Length0 && dxj + dn <= dx.Length1 && Holds(dx, x)
    modifies dx
    ensures Holds(dx, ScaledBlock(da, x, dxi, dxj, dm, dn))
  {
    var i := 0;
    while i < dm
      invariant 0 <= i <= dm
      invariant forall r, q :: 0 <= r < dx.Length0 && 0 <= q < dx.Length1 ==>
        dx[r, q] == if dxi <= r < dxi + i && dxj <= q < dxj + dn then da * x(r, q) else x(r, q)
    {
      var j := 0;
      while j < dn
        invariant 0 <= j <= dn
        invariant forall r, q :: 0 <= r < dx.Length0 && 0 <= q < dx.Length1 ==>
          dx[r, q] == if (dxi <= r < dxi + i && dxj <= q < dxj + dn) || (r == dxi + i && dxj <= q < dxj + j)
                      then da * x(r, q) else x(r, q)
      {
        dx[i + dxi, j + dxj] := da * dx[i + dxi, j + dxj];
        j := j + 1;
      }
      i := i + 1;
    }
  }

  ghost function Power(beta: real, n: nat): real {
    if n == 0 then 1.0 else Power(beta, n - 1) * beta
  }

  /** The place of an entry in row-major storage. */
  ghost function Flat(r: int, q: int, width: int): int {
    r * width + q
  }

  /** How many of the given number of rows of a sweep cover place f. A row of the sweep starts at `start` or a
      multiple of the width later, and covers `cols` places, which may reach beyond the row of the storage. */
  ghost function Hits(f: int, start: int, width: int, cols: nat, rows: nat): nat {
    if rows == 0 then 0 else Hits(f, start, width, cols, rows - 1) + Hit(f, Flat(rows - 1, start, width), cols)
  }

  /** Place f is one of n places from `start` on. */
  ghost function Hit(f: int, start: int, n: int): nat {
    if start <= f < start + n then 1 else 0
  }

  /** How often place f has been covered after i rows of the sweep and j entries of the next one. */
  ghost function Covered(f: int, start: int, width: int, cols: nat, i: nat, j: nat): nat {
    Hits(f, start, width, cols, i) + Hit(f, Flat(i, start, width), j)
  }

  /** The matrix then: every entry is multiplied once for every time that its place in the storage has been covered. */
  ghost function Swept(beta: real, m: Mat, start: int, width: int, cols: nat, i: nat, j: nat): Mat {
    (r, q) => Times(Power(beta, Covered(Flat(r, q, width), start, width, cols, i, j)), m(r, q))
  }

  /** The first loop nest of the product, C *= beta. */
  method SweepBeta(beta: real, c: array2<real>, ci: nat, cj: nat, rows: nat, cols: nat, ghost c0: Mat)
    requires rows > 0 && cols > 0 ==> c.Length1 > 0 && ci + rows - 1 + (cj + cols - 1) / c.Length1 < c.Length0
    requires Holds(c, c0)
    modifies c
    ensures Holds(c, Swept(beta, c0, Flat(ci, cj, c.Length1), c.Length1, cols, rows, 0))
  {
    hide Swept, Flat;
    ghost var width, start := c.Length1, Flat(ci, cj, c.Length1);
    SweepBegins(beta, c0, start, width, cols);
    var i := 0;
    while i < rows
      invariant 0 <= i <= rows && Holds(c, Swept(beta, c0, start, width, cols, i, 0))
    {
      var j := 0;
      while j < cols
        invariant 0 <= j <= cols && Holds(c, Swept(beta, c0, start, width, cols, i, j))
      {
        RowMajor(cj + j, cj + cols - 1, c.Length1);
        var r, q := i + ci + (j + cj) / c.Length1, (j + cj) % c.Length1;
        PlaceOf(ci, cj, i, j, width, start);
        SweepStep(beta, c0, start, width, cols, i, j, r, q);
        c[r, q] := c[r, q] * beta;
        j := j + 1;
      }
      SweepRow(beta, c0, start, width, cols, i);
      i := i + 1;
    }
  }

  lemma SweptEntry(beta: real, m: Mat, start: int, width: int, cols: nat, i: nat, j: nat, r: int, q: int)
    ensures Swept(beta, m, start, width, cols, i, j)(r, q) ==
            Times(Power(beta, Covered(Flat(r, q, width), start, width, cols, i, j)), m(r, q))
  {
    hide Power, Covered, Flat, Times;
  }

  lemma SweepBegins(beta: real, m: Mat, start: int, width: int, cols: nat)
    ensures forall r, q :: Swept(beta, m, start, width, cols, 0, 0)(r, q) == m(r, q)
  {}

  lemma SweepRow(beta: real, m: Mat, start: int, width: int, cols: nat, i: nat)
    ensures forall r, q ::
      Swept(beta, m, start, width, cols, i, cols)(r, q) == Swept(beta, m, start, width, cols, i + 1, 0)(r, q)
  {
    hide Power, Flat, Covered, Swept, Times;
    forall r, q
      ensures Swept(beta, m, start, width, cols, i, cols)(r, q) == Swept(beta, m, start, width, cols, i + 1, 0)(r, q)
    {
      CoveredRow(Flat(r, q, width), start, width, cols, i);
      SweptEntry(beta, m, start, width, cols, i, cols, r, q);
      SweptEntry(beta, m, start, width, cols, i + 1, 0, r, q);
    }
  }

  lemma CoveredRow(f: int, start: int, width: int, cols: nat, i: nat)
    ensures Covered(f, start, width, cols, i, cols) == Covered(f, start, width, cols, i + 1, 0)
  {
    hide Flat;
  }

  lemma SweepStep(beta: real, m: Mat, start: int, width: int, cols: nat, i: nat, j: nat, r: nat, q: nat)
    requires q < width && Flat(r, q, width) == Flat(i, start, width) + j
    ensures var before, after := Swept(beta, m, start, width, cols, i, j), Swept(beta, m, start, width, cols, i, j + 1);
            && after(r, q) == before(r, q) * beta
            && forall r', q' :: 0 <= q' < width && 0 <= r' && (r' != r || q' != q) ==> after(r', q') == before(r', q')
  {
    hide Power, Flat, Covered, Swept, Times;
    var before, after := Swept(beta, m, start, width, cols, i, j), Swept(beta, m, start, width, cols, i, j + 1);
    CoveredStep(r, q, r, q, start, width, cols, i, j);
    SweptEntry(beta, m, start, width, cols, i, j, r, q);
    SweptEntry(beta, m, start, width, cols, i, j + 1, r, q);
    OneMore(beta, Covered(Flat(r, q, width), start, width, cols, i, j), m(r, q));
    forall r', q' | 0 <= q' < width && 0 <= r' && (r' != r || q' != q)
      ensures after(r', q') == before(r', q')
    {
      CoveredStep(r', q', r, q, start, width, cols, i, j);
      SweptEntry(beta, m, start, width, cols, i, j, r', q');
      SweptEntry(beta, m, start, width, cols, i, j + 1, r', q');
    }
  }

  lemma CoveredStep(r': nat, q': nat, r: nat, q: nat, start: int, width: int, cols: nat, i: nat, j: nat)
    requires q' < width && q < width && Flat(r, q, width) == Flat(i, start, width) + j
    ensures var f := Flat(r', q', width);
            Covered(f, start, width, cols, i, j + 1) ==
            Covered(f, start, width, cols, i, j) + if r' == r && q' == q then 1 else 0
  {
    hide Flat, Hits, Hit;
    NextHit(r', q', r, q, width, Flat(i, start, width), j);
  }

  lemma OneMore(beta: real, n: nat, x: real)
    ensures Times(Power(beta, n + 1), x) == Times(Power(beta, n), x) * beta
  {
    Reorder(Power(beta, n), beta, x);
  }

  lemma Reorder(p: real, beta: real, x: real)
    ensures p * beta * x == p * x * beta
  {}

  /** The entry that the sweep writes is at place j of its row i. */
  lemma PlaceOf(ci: nat, cj: nat, i: nat, j: nat, width: nat, start: int)
    requires width > 0 && start == Flat(ci, cj, width)
    ensures Flat(i + ci + (j + cj) / width, (j + cj) % width, width) == Flat(i, start, width) + j
  {
    var d, m := (j + cj) / width, (j + cj) % width;
    assert d * width + m == j + cj;
    assert (i + ci + d) * width == i * width + ci * width + d * width;
  }

  /** Only the entry at the next place is covered in addition. */
  lemma NextHit(r': nat, q': nat, r: nat, q: nat, width: nat, start: int, j: nat)
    requires q' < width && q < width && Flat(r, q, width) == start + j
    ensures Hit(Flat(r', q', width), start, j + 1) ==
            Hit(Flat(r', q', width), start, j) + if r' == r && q' == q then 1 else 0
  {
    if Flat(r', q', width) == start + j {
      SameFlat(r', q', r, q, width);
    }
  }

  lemma SameFlat(r': int, q': int, r: int, q: int, width: int)
    requires 0 <= q' < width && 0 <= q < width && Flat(r', q', width) == Flat(r, q, width)
    ensures r' == r && q' == q
  {
    if r' < r {
      AtLeastWidth(r - r', width);
    } else if r < r' {
      AtLeastWidth(r' - r, width);
    }
  }

  lemma AtLeastWidth(d: int, width: int)
    requires d >= 1 && width >= 0
    ensures d * width >= width
  {}

  /** A sweep by 1 changes nothing, wherever it goes. */
  lemma SweptByOne(m: Mat, start: int, width: int, cols: nat, rows: nat)
    ensures forall r, q :: Swept(1.0, m, start, width, cols, rows, 0)(r, q) == m(r, q)
  {
    forall r, q
      ensures Swept(1.0, m, start, width, cols, rows, 0)(r, q) == m(r, q)
    {
      PowerOfOne(Covered(Flat(r, q, width), start, width, cols, rows, 0));
      SweptEntry(1.0, m, start, width, cols, rows, 0, r, q);
    }
  }

  lemma {:induction false} PowerOfOne(n: nat)
    ensures Power(1.0, n) == 1.0
  {
    if n > 0 {
      PowerOfOne(n - 1);
    }
  }

  /** A sweep that stays inside the rows of the storage multiplies exactly its block, once. */
  lemma SweptInRow(beta: real, m: Mat, ci: nat, cj: nat, width: nat, cols: nat, rows: nat, r: nat, q: nat)
    requires q < width && cj + cols <= width
    ensures Swept(beta, m, Flat(ci, cj, width), width, cols, rows, 0)(r, q) ==
            if ci <= r < ci + rows && cj <= q < cj + cols then beta * m(r, q) else m(r, q)
  {
    hide Flat, Hits;
    HitsInRow(r, q, ci, cj, width, cols, rows);
    assert Power(beta, 0) == 1.0 && Power(beta, 1) == Power(beta, 0) * beta == beta;
  }

  lemma {:induction false} HitsInRow(r: nat, q: nat, ci: nat, cj: nat, width: nat, cols: nat, rows: nat)
    requires q < width && cj + cols <= width
    ensures Hits(Flat(r, q, width), Flat(ci, cj, width), width, cols, rows) ==
            if ci <= r < ci + rows && cj <= q < cj + cols then 1 else 0
  {
    if rows > 0 {
      HitsInRow(r, q, ci, cj, width, cols, rows - 1);
      HitInRow(r, q, ci + rows - 1, cj, width, cols);
      assert (ci + rows - 1) * width == ci * width + (rows - 1) * width;
    }
  }

  lemma HitInRow(r: nat, q: nat, row: nat, cj: nat, width: nat, cols: nat)
    requires q < width && cj + cols <= width
    ensures Hit(Flat(r, q, width), Flat(row, cj, width), cols) == if r == row && cj <= q < cj + cols then 1 else 0
  {
    hide Flat;
    FlatDiffers(r, q, row, cj, width);
  }

  /** How far two places are apart, by their rows. */
  lemma FlatDiffers(r: int, q: int, row: int, cj: int, width: nat)
    ensures r == row ==> Flat(r, q, width) - Flat(row, cj, width) == q - cj
    ensures r < row ==> Flat(r, q, width) - Flat(row, cj, width) <= q - cj - width
    ensures r > row ==> Flat(r, q, width) - Flat(row, cj, width) >= q - cj + width
  {
    RowsDiffer(r, row, width);
    if r < row {
      AtLeastWidth(row - r, width);
    } else if row < r {
      AtLeastWidth(r - row, width);
    }
  }

  lemma RowsDiffer(r: int, row: int, width: int)
    ensures r * width - row * width == (r - row) * width == -((row - r) * width)
  {}

  lemma RowMajor(index: nat, last: nat, width: nat)
    requires width > 0 && index <= last
    ensures 0 <= index / width <= last / width && 0 <= index % width < width
  {
    var p := last / width;
    assert width * (index / width) <= index < width * p + width;
    LessByFactor(width, index / width, p + 1);
  }

  lemma LessByFactor(width: nat, a: int, b: int)
    requires width > 0 && width * a < width * b
    ensures a < b
  {}

  // ----- the matrix-vector product

  /** A sub-matrix of rows by cols entries whose first entry is (i, j). */
  datatype View = View(i: nat, j: nat, rows: nat, cols: nat) {

    predicate Fits(a: array2<real>) {
      i + rows <= a.Length0 && j + cols <= a.Length1
    }

    /** As an operand vector the view runs down its column if it has more rows than columns, and along
        its row otherwise. */
    predicate Down() {
      rows > cols
    }

    /** Row and column of entry k of the operand vector. */
    function VectorRow(k: int): int { if Down() then i + k else i }

    function VectorCol(k: int): int { if Down() then j else j + k }

    predicate VectorFits(b: array2<real>, length: nat) {
      length > 0 ==> VectorRow(length - 1) < b.Length0 && VectorCol(length - 1) < b.Length1
    }

    /** As the target the view runs along its row if it has one row, and down its column otherwise. */
    predicate IsTarget(r: int, q: int, m: int) {
      if rows == 1 then r == i && j <= q < j + m else q == j && i <= r < i + m
    }

    predicate TargetFits(c: array2<real>, m: nat) {
      if rows == 1 then i < c.Length0 && j + m <= c.Length1 else i + m <= c.Length0 && j < c.Length1
    }

    /** Index of the target entry (r, q) in the result vector. */
    function TargetIndex(r: int, q: int): int { if rows == 1 then q - j else r - i }

    /** The sweep by beta stays inside the array, taken as row-major storage. */
    predicate SweepFits(c: array2<real>) {
      rows > 0 && cols > 0 ==> c.Length1 > 0 && i + rows - 1 + (j + cols - 1) / c.Length1 < c.Length0
    }
  }

  /** Dimensions of the product with op(A): length of the result and of the operand vector. */
  function ResultLength(at: int, v: View): nat { if at == 1 then v.cols else v.rows }

  function OperandLength(at: int, v: View): nat { if at == 1 then v.rows else v.cols }

  /** op(A) of a sub-matrix, and the operand vector as a column. */
  ghost function Operand(a: Mat, v: View, at: int): Mat {
    if at == 1 then Transpose(Block(a, v.i, v.j)) else Block(a, v.i, v.j)
  }

  ghost function Vector(b: Mat, v: View): Mat {
    (k, _) => b(v.VectorRow(k), v.VectorCol(k))
  }

  /** No entry that the product reads is one that it writes. */
  ghost predicate OperandsSpareTarget(at: int, a: array2<real>, va: View, b: array2<real>, vb: View, c: array2<real>,
                                      vc: View) {
    && (a == c ==> forall r, q :: va.i <= r < va.i + va.rows && va.j <= q < va.j + va.cols ==>
          !vc.IsTarget(r, q, ResultLength(at, va)))
    && (b == c ==> forall k :: 0 <= k < OperandLength(at, va) ==>
          !vc.IsTarget(vb.VectorRow(k), vb.VectorCol(k), ResultLength(at, va)))
  }

  /** The array contents after the first i of the target entries have gained u times w. */
  ghost function GemvProgress(c1: Mat, vc: View, alpha: real, u: Mat, w: Mat, kk: int, i: int): Mat {
    (r, q) => if vc.IsTarget(r, q, i) then alpha * Dot(u, vc.TargetIndex(r, q), w, 0, 0, kk) + c1(r, q) else c1(r, q)
  }

  /** temp of row i: the sum over k of op(A)(i,k) * B(k). */
  method GemvRow(at: int, a: array2<real>, va: View, b: array2<real>, vb: View, i: nat, ghost u: Mat, ghost w: Mat)
    returns (temp: real)
    requires at in {0, 1} && va.Fits(a) && vb.VectorFits(b, OperandLength(at, va)) && i < ResultLength(at, va)
    requires forall k :: 0 <= k < OperandLength(at, va) ==>
      u(i, k) == (if at == 1 then a[k + va.i, i + va.j] else a[i + va.i, k + va.j]) &&
        w(k, 0) == b[vb.VectorRow(k), vb.VectorCol(k)]
    ensures temp == Dot(u, i, w, 0, 0, OperandLength(at, va))
  {
    hide Dot;
    temp := 0.0;
    var k := 0;
    DotEmpty(u, i, w, 0, 0);
    while k < OperandLength(at, va)
      invariant 0 <= k <= OperandLength(at, va) && temp == Dot(u, i, w, 0, 0, k)
    {
      DotLast(u, i, w, 0, 0, k + 1);
      var mm := if at == 1 then a[k + va.i, i + va.j] else a[i + va.i, k + va.j];
      var nn := b[vb.VectorRow(k), vb.VectorCol(k)];
      assert mm == u(i, k) && nn == w(k, 0) && mm * nn == Term(u, i, w, 0, k);
      temp := temp + mm * nn;
      k := k + 1;
    }
  }

  lemma NoProgress(c: array2<real>, vc: View, alpha: real, c1: Mat, u: Mat, w: Mat, kk: int)
    requires Holds(c, c1)
    ensures Holds(c, GemvProgress(c1, vc, alpha, u, w, kk, 0))
  {}

  /** Stores entry i of the result. */
  method GemvStore(c: array2<real>, vc: View, alpha: real, temp: real, i: nat, ghost m: nat,
                   ghost u: Mat, ghost w: Mat, ghost kk: int, ghost c1: Mat)
    requires i < m && vc.TargetFits(c, m) && temp == Dot(u, i, w, 0, 0, kk)
    requires Holds(c, GemvProgress(c1, vc, alpha, u, w, kk, i))
    modifies c
    ensures Holds(c, GemvProgress(c1, vc, alpha, u, w, kk, i + 1))
  {
    ghost var before, after := GemvProgress(c1, vc, alpha, u, w, kk, i), GemvProgress(c1, vc, alpha, u, w, kk, i + 1);
    var row, col := if vc.rows == 1 then vc.i else i + vc.i, if vc.rows == 1 then i + vc.j else vc.j;
    assert before(row, col) == c1(row, col);
    assert after(row, col) == alpha * temp + before(row, col);
    forall r, q | 0 <= r < c.Length0 && 0 <= q < c.Length1 && (r != row || q != col)
      ensures after(r, q) == before(r, q)
    {
      assert vc.IsTarget(r, q, i + 1) <==> vc.IsTarget(r, q, i);
    }
    if vc.rows == 1 {
      c[vc.i, i + vc.j] := alpha * temp + c[vc.i, i + vc.j];
    } else {
      c[i + vc.i, vc.j] := alpha * temp + c[i + vc.i, vc.j];
    }
  }

  /** Target entries aside, the array holds what it held after the sweep, so the operands read as they were then. */
  lemma OperandsAreSpared(at: int, a: array2<real>, va: View, b: array2<real>, vb: View, c: array2<real>, vc: View,
                          a1: Mat, b1: Mat, c1: Mat, alpha: real, i: nat)
    requires at in {0, 1} && i < ResultLength(at, va) && va.Fits(a) && vb.VectorFits(b, OperandLength(at, va))
    requires OperandsSpareTarget(at, a, va, b, vb, c, vc)
    requires if a == c then a1 == c1 else Holds(a, a1)
    requires if b == c then b1 == c1 else Holds(b, b1)
    requires Holds(c, GemvProgress(c1, vc, alpha, Operand(a1, va, at), Vector(b1, vb), OperandLength(at, va), i))
    ensures forall k :: 0 <= k < OperandLength(at, va) ==>
      Operand(a1, va, at)(i, k) == (if at == 1 then a[k + va.i, i + va.j] else a[i + va.i, k + va.j]) &&
      Vector(b1, vb)(k, 0) == b[vb.VectorRow(k), vb.VectorCol(k)]
  {
    forall k | 0 <= k < OperandLength(at, va)
      ensures Operand(a1, va, at)(i, k) == if at == 1 then a[k + va.i, i + va.j] else a[i + va.i, k + va.j]
      ensures Vector(b1, vb)(k, 0) == b[vb.VectorRow(k), vb.VectorCol(k)]
    {
      OperandIsSpared(at, a, va, b, vb, c, vc, a1, b1, c1, alpha, i, k);
    }
  }

  lemma OperandIsSpared(at: int, a: array2<real>, va: View, b: array2<real>, vb: View, c: array2<real>, vc: View,
                        a1: Mat, b1: Mat, c1: Mat, alpha: real, i: nat, k: nat)
    requires at in {0, 1} && i < ResultLength(at, va) && va.Fits(a) && vb.VectorFits(b, OperandLength(at, va))
    requires OperandsSpareTarget(at, a, va, b, vb, c, vc)
    requires if a == c then a1 == c1 else Holds(a, a1)
    requires if b == c then b1 == c1 else Holds(b, b1)
    requires Holds(c, GemvProgress(c1, vc, alpha, Operand(a1, va, at), Vector(b1, vb), OperandLength(at, va), i))
    requires k < OperandLength(at, va)
    ensures Operand(a1, va, at)(i, k) == if at == 1 then a[k + va.i, i + va.j] else a[i + va.i, k + va.j]
    ensures Vector(b1, vb)(k, 0) == b[vb.VectorRow(k), vb.VectorCol(k)]
  {
    hide Operand, Vector, GemvProgress, OperandsSpareTarget, Holds, View.VectorRow, View.VectorCol, View.IsTarget;
    var m, kk := ResultLength(at, va), OperandLength(at, va);
    var u, w := Operand(a1, va, at), Vector(b1, vb);
    var r, q := if at == 1 then k + va.i else i + va.i, if at == 1 then i + va.j else k + va.j;
    var r', q' := vb.VectorRow(k), vb.VectorCol(k);
    OperandEntry(a1, va, at, i, k);
    VectorEntry(b1, vb, k);
    VectorWithin(b, vb, kk, k);
    AreSpared(at, a, va, b, vb, c, vc, r, q, k);
    if a == c {
      SparedEntry(c, vc, alpha, c1, u, w, kk, i, m, r, q);
    } else {
      HeldEntry(a, a1, r, q);
    }
    if b == c {
      SparedEntry(c, vc, alpha, c1, u, w, kk, i, m, r', q');
    } else {
      HeldEntry(b, b1, r', q');
    }
  }

  lemma BlockEntry(m: Mat, i0: int, j0: int, i: int, j: int)
    ensures Block(m, i0, j0)(i, j) == m(i + i0, j + j0)
  {}

  lemma TransposeEntry(m: Mat, i: int, j: int)
    ensures Transpose(m)(i, j) == m(j, i)
  {}

  lemma OperandEntry(a: Mat, v: View, at: int, i: int, k: int)
    ensures Operand(a, v, at)(i, k) == if at == 1 then a(k + v.i, i + v.j) else a(i + v.i, k + v.j)
  {
    hide Block, Transpose;
    BlockEntry(a, v.i, v.j, k, i);
    BlockEntry(a, v.i, v.j, i, k);
    TransposeEntry(Block(a, v.i, v.j), i, k);
  }

  lemma VectorEntry(b: Mat, v: View, k: int)
    ensures Vector(b, v)(k, 0) == b(v.VectorRow(k), v.VectorCol(k))
  {}

  lemma VectorWithin(b: array2<real>, v: View, length: nat, k: nat)
    requires v.VectorFits(b, length) && k < length
    ensures 0 <= v.VectorRow(k) < b.Length0 && 0 <= v.VectorCol(k) < b.Length1
  {}

  /** Neither entry k of the operand vector nor one of the operand matrix is a target. */
  lemma AreSpared(at: int, a: array2<real>, va: View, b: array2<real>, vb: View, c: array2<real>, vc: View, r: int,
                  q: int, k: int)
    requires OperandsSpareTarget(at, a, va, b, vb, c, vc)
    requires va.i <= r < va.i + va.rows && va.j <= q < va.j + va.cols && 0 <= k < OperandLength(at, va)
    ensures a == c ==> !vc.IsTarget(r, q, ResultLength(at, va))
    ensures b == c ==> !vc.IsTarget(vb.VectorRow(k), vb.VectorCol(k), ResultLength(at, va))
  {
    hide View.VectorRow, View.VectorCol, View.IsTarget;
  }

  lemma SparedEntry(c: array2<real>, vc: View, alpha: real, c1: Mat, u: Mat, w: Mat, kk: int, i: nat, m: nat, r: int,
                    q: int)
    requires Holds(c, GemvProgress(c1, vc, alpha, u, w, kk, i)) && i <= m
    requires 0 <= r < c.Length0 && 0 <= q < c.Length1 && !vc.IsTarget(r, q, m)
    ensures c[r, q] == c1(r, q)
  {
    hide Dot;
    assert !vc.IsTarget(r, q, i);
    assert GemvProgress(c1, vc, alpha, u, w, kk, i)(r, q) == c1(r, q);
  }

  lemma HeldEntry(a: array2<real>, m: Mat, r: int, q: int)
    requires Holds(a, m) && 0 <= r < a.Length0 && 0 <= q < a.Length1
    ensures a[r, q] == m(r, q)
  {}

  /** Entry i of the product. */
  method GemvEntry(at: int, alpha: real, a: array2<real>, va: View, b: array2<real>, vb: View, c: array2<real>,
                   vc: View, i: nat, ghost a1: Mat, ghost b1: Mat, ghost c1: Mat)
    requires at in {0, 1} && i < ResultLength(at, va) && va.Fits(a) && vb.VectorFits(b, OperandLength(at, va))
    requires vc.TargetFits(c, ResultLength(at, va)) && OperandsSpareTarget(at, a, va, b, vb, c, vc)
    requires if a == c then a1 == c1 else Holds(a, a1)
    requires if b == c then b1 == c1 else Holds(b, b1)
    requires Holds(c, GemvProgress(c1, vc, alpha, Operand(a1, va, at), Vector(b1, vb), OperandLength(at, va), i))
    modifies c
    ensures Holds(c, GemvProgress(c1, vc, alpha, Operand(a1, va, at), Vector(b1, vb), OperandLength(at, va), i + 1))
  {
    hide Dot, OperandsSpareTarget, Operand, Vector, GemvProgress, Holds;
    OperandsAreSpared(at, a, va, b, vb, c, vc, a1, b1, c1, alpha, i);
    var temp := GemvRow(at, a, va, b, vb, i, Operand(a1, va, at), Vector(b1, vb));
    GemvStore(c, vc, alpha, temp, i, ResultLength(at, va), Operand(a1, va, at), Vector(b1, vb), OperandLength(at, va),
              c1);
  }

  /** y := alpha * op(A) * x + beta * y on sub-matrices that may belong to one array, as long as no operand entry is a
      target entry. The array is swept by beta first, so operands from the same array are read as the sweep
      leaves them. */
  method Fgemv(at: int, alpha: real, a: array2<real>, va: View, b: array2<real>, vb: View, beta: real, c: array2<real>,
               vc: View, ghost a0: Mat, ghost b0: Mat, ghost c0: Mat)
    returns (ghost a1: Mat, ghost b1: Mat, ghost c1: Mat)
    requires at in {0, 1} && Holds(a, a0) && Holds(b, b0) && Holds(c, c0)
    requires va.Fits(a) && vb.VectorFits(b, OperandLength(at, va)) && vc.TargetFits(c, ResultLength(at, va))
    requires vc.SweepFits(c)
    requires OperandsSpareTarget(at, a, va, b, vb, c, vc)
    modifies c
    ensures c1 == Swept(beta, c0, Flat(vc.i, vc.j, c.Length1), c.Length1, vc.cols, vc.rows, 0)
    ensures a1 == (if a == c then c1 else a0) && b1 == if b == c then c1 else b0
    ensures Holds(c, GemvProgress(c1, vc, alpha, Operand(a1, va, at), Vector(b1, vb), OperandLength(at, va),
                                  ResultLength(at, va)))
  {
    hide Dot, Swept, OperandsSpareTarget, Operand, Vector, GemvProgress;
    SweepBeta(beta, c, vc.i, vc.j, vc.rows, vc.cols, c0);
    c1 := Swept(beta, c0, Flat(vc.i, vc.j, c.Length1), c.Length1, vc.cols, vc.rows, 0);
    a1, b1 := if a == c then c1 else a0, if b == c then c1 else b0;
    var m := ResultLength(at, va);
    NoProgress(c, vc, alpha, c1, Operand(a1, va, at), Vector(b1, vb), OperandLength(at, va));
    ghost var u, w, kk := Operand(a1, va, at), Vector(b1, vb), OperandLength(at, va);
    var i := 0;
    while i < m
      invariant 0 <= i <= m
      invariant Holds(c, GemvProgress(c1, vc, alpha, u, w, kk, i))
    {
      GemvEntry(at, alpha, a, va, b, vb, c, vc, i, a1, b1, c1);
      i := i + 1;
    }
  }
}

/** Cholesky factors of symmetric positive definite matrices. */
module CholeskyFactors {
  import opened Matrices
  import opened TriangularSystems

  ghost predicate Symmetric(s: Mat, n: int) {
    forall r, c :: 0 <= r < n && 0 <= c < n ==> s(r, c) == s(c, r)
  }

  /** v' s v */
  ghost function Quadratic(s: Mat, v: seq<real>): real {
    Dot(Transpose(ColumnAt(v, 0)), 0, Product(s, ColumnAt(v, 0), |v|), 0, 0, |v|)
  }

  ghost predicate PositiveDefinite(s: Mat, n: int) {
    forall v: seq<real> :: |v| == n && (exists i :: 0 <= i < n && v[i] != 0.0) ==> Quadratic(s, v) > 0.0
  }

  /** The upper triangle of u, with zeros below. */
  ghost function UpperPart(u: Mat): Mat {
    (k, c) => if k <= c then u(k, c) else 0.0
  }

  /** The first `rows` rows of u are those of a factor of s: U'U agrees with s there and the diagonal
      is positive. Only the upper triangles of u and s are looked at. */
  ghost predicate UpperFactor(u: Mat, s: Mat, n: int, rows: int) {
    && (forall r :: 0 <= r < rows ==> u(r, r) > 0.0)
    && forall r, c :: 0 <= r < rows && r <= c < n ==> Dot(Transpose(u), r, u, c, 0, r + 1) == s(r, c)
  }

  /** The pivot of row j: what is left of the diagonal entry. */
  ghost function Pivot(u: Mat, s: Mat, j: int): real {
    s(j, j) - Dot(Transpose(u), j, u, j, 0, j)
  }

  /** An entry of s from the finished rows; the last corner is short of the pivot. */
  lemma EntryFromFactor(u: Mat, s: Mat, n: int, j: int, r: int, c: int)
    requires Symmetric(s, n) && UpperFactor(u, s, n, j) && 0 <= j < n && 0 <= r <= j && 0 <= c <= j
    ensures s(r, c) ==
            Dot(Transpose(UpperPart(u)), r, UpperPart(u), c, 0, j) + if r == c == j then Pivot(u, s, j) else 0.0
  {
    var m := UpperPart(u);
    if c < r {
      DotCommutes(Transpose(m), r, m, c, 0, j);
      DotDepends(Transpose(m), c, Transpose(Transpose(m)), r, Transpose(m), c, m, r, 0, j);
      OrderedEntryFromFactor(u, s, n, j, c, r);
    } else {
      OrderedEntryFromFactor(u, s, n, j, r, c);
    }
  }

  lemma OrderedEntryFromFactor(u: Mat, s: Mat, n: int, j: int, r: int, c: int)
    requires UpperFactor(u, s, n, j) && 0 <= j < n && 0 <= r <= c <= j
    ensures s(r, c) ==
            Dot(Transpose(UpperPart(u)), r, UpperPart(u), c, 0, j) + if r == c == j then Pivot(u, s, j) else 0.0
  {
    var m := UpperPart(u);
    if r == j {
      DotDepends(Transpose(m), r, m, c, Transpose(u), r, u, c, 0, j);
    } else {
      DotSplit(Transpose(m), r, m, c, 0, r + 1, j);
      DotZero(Transpose(m), r, m, c, r + 1, j);
      DotDepends(Transpose(m), r, m, c, Transpose(u), r, u, c, 0, r + 1);
    }
  }

  /** The first `rows` rows of u have a zero product with the first `length` entries of v. */
  ghost predicate Annihilates(u: Mat, v: seq<real>, rows: int, length: int) {
    forall k :: 0 <= k < rows ==> Dot(UpperPart(u), k, ColumnAt(v, 0), 0, 0, length) == 0.0
  }

  /** A vector that the finished rows of u annihilate, with a 1 in place j and nothing behind it. */
  lemma Annihilated(u: Mat, s: Mat, n: nat, j: nat) returns (v: seq<real>)
    requires UpperFactor(u, s, n, j) && j < n
    ensures |v| == n && v[j] == 1.0 && forall i :: j < i < n ==> v[i] == 0.0
    ensures Annihilates(u, v, j, j + 1)
  {
    var m := UpperPart(u);
    var b: Mat := (k, _) => -u(k, j);
    var x := BackwardSubstitution(m, j, b, 0);
    v := x + [1.0] + seq(n - j - 1, _ => 0.0);
    var length := j + 1;
    forall k | 0 <= k < j
      ensures Dot(m, k, ColumnAt(v, 0), 0, 0, length) == 0.0
    {
      DotDepends(m, k, ColumnAt(v, 0), 0, m, k, ColumnAt(x, 0), 0, 0, j);
      assert Dot(m, k, ColumnAt(x, 0), 0, 0, j) == b(k, 0);
    }
  }

  /** s maps the annihilated vector to the pivot in place j, and to 0 before it. */
  lemma ImageOfAnnihilated(u: Mat, s: Mat, n: nat, j: nat, v: seq<real>, r: nat)
    requires Symmetric(s, n) && UpperFactor(u, s, n, j) && r <= j < n
    requires |v| == n && v[j] == 1.0 && forall i :: j < i < n ==> v[i] == 0.0
    requires Annihilates(u, v, j, j + 1)
    ensures Dot(s, r, ColumnAt(v, 0), 0, 0, n) == if r == j then Pivot(u, s, j) else 0.0
  {
    hide Dot, Pivot, UpperFactor, Symmetric;
    var m, x := UpperPart(u), ColumnAt(v, 0);
    var p := Product(Transpose(m), m, j);
    DotSplit(s, r, x, 0, 0, j + 1, n);
    DotZero(s, r, x, 0, j + 1, n);
    DotLast(s, r, x, 0, 0, j + 1);
    DotLast(p, r, x, 0, 0, j + 1);
    forall c | 0 <= c <= j
      ensures s(r, c) == p(r, c) + if r == c == j then Pivot(u, s, j) else 0.0
    {
      EntryFromFactor(u, s, n, j, r, c);
    }
    DotDepends(s, r, x, 0, p, r, x, 0, 0, j);
    assert x(j, 0) == 1.0;
    ProductIsAssociative(Transpose(m), r, m, x, 0, j, j + 1);
    DotZero(Transpose(m), r, Product(m, x, j + 1), 0, 0, j);
  }

  /** In a positive definite matrix the next pivot is positive: it is a value of the quadratic form. */
  lemma PivotIsPositive(u: Mat, s: Mat, n: nat, j: nat)
    requires Symmetric(s, n) && PositiveDefinite(s, n) && UpperFactor(u, s, n, j) && j < n
    ensures Pivot(u, s, j) > 0.0
  {
    var v := Annihilated(u, s, n, j);
    var x := ColumnAt(v, 0);
    var image := Product(s, x, n);
    forall r | 0 <= r <= j
      ensures image(r, 0) == if r == j then Pivot(u, s, j) else 0.0
    {
      ImageOfAnnihilated(u, s, n, j, v, r);
    }
    DotSplit(Transpose(x), 0, image, 0, 0, j + 1, n);
    DotZero(Transpose(x), 0, image, 0, j + 1, n);
    DotZero(Transpose(x), 0, image, 0, 0, j);
    assert Quadratic(s, v) == Pivot(u, s, j);
  }

  /** Adding row j: its diagonal squares to the pivot and its entries make up row j of s. */
  lemma FactorGrows(u: Mat, u': Mat, s: Mat, n: nat, j: nat)
    requires UpperFactor(u, s, n, j) && j < n
    requires forall r, c :: 0 <= r < j && r <= c < n ==> u'(r, c) == u(r, c)
    requires u'(j, j) > 0.0 && u'(j, j) * u'(j, j) == Pivot(u, s, j)
    requires forall c :: j < c < n ==> u'(j, j) * u'(j, c) == s(j, c) - Dot(Transpose(u), j, u, c, 0, j)
    ensures UpperFactor(u', s, n, j + 1)
  {
    hide Dot;
    forall r, c | 0 <= r < j + 1 && r <= c < n
      ensures Dot(Transpose(u'), r, u', c, 0, r + 1) == s(r, c)
    {
      if r < j {
        DotDepends(Transpose(u'), r, u', c, Transpose(u), r, u, c, 0, r + 1);
      } else {
        DotLast(Transpose(u'), j, u', c, 0, j + 1);
        DotDepends(Transpose(u'), j, u', c, Transpose(u), j, u, c, 0, j);
        assert Transpose(u')(j, j) == u'(j, j);
      }
    }
  }

  /** There is only one factor: two of them agree row by row in their upper triangles. */
  lemma {:induction false} FactorIsUnique(u: Mat, v: Mat, s: Mat, n: nat, rows: nat)
    requires UpperFactor(u, s, n, rows) && UpperFactor(v, s, n, rows) && rows <= n
    ensures forall r, c :: 0 <= r < rows && r <= c < n ==> u(r, c) == v(r, c)
  {
    if rows > 0 {
      var j := rows - 1;
      FactorIsUnique(u, v, s, n, j);
      SameEntry(u, v, s, n, j, j);
      forall c | j <= c < n
        ensures u(j, c) == v(j, c)
      {
        SameEntry(u, v, s, n, j, c);
      }
    }
  }

  /** An entry of row j of the factor is determined by the rows before and the diagonal. */
  lemma SameEntry(u: Mat, v: Mat, s: Mat, n: nat, j: nat, c: nat)
    requires UpperFactor(u, s, n, j + 1) && UpperFactor(v, s, n, j + 1) && j <= c < n
    requires forall r, c :: 0 <= r < j && r <= c < n ==> u(r, c) == v(r, c)
    requires c > j ==> u(j, j) == v(j, j)
    ensures u(j, c) == v(j, c)
  {
    hide Dot, Term;
    DotLast(Transpose(u), j, u, c, 0, j + 1);
    DotLast(Transpose(v), j, v, c, 0, j + 1);
    DotDepends(Transpose(u), j, u, c, Transpose(v), j, v, c, 0, j);
    assert Dot(Transpose(u), j, u, c, 0, j + 1) == s(j, c) == Dot(Transpose(v), j, v, c, 0, j + 1);
    LastTerm(u, j, c);
    LastTerm(v, j, c);
    SameFactor(u(j, j), u(j, c), v(j, j), v(j, c), c == j);
  }

  lemma LastTerm(u: Mat, j: int, c: int)
    ensures Term(Transpose(u), j, u, c, j) == u(j, j) * u(j, c)
  {}

  lemma SameFactor(p: real, x: real, q: real, y: real, diagonal: bool)
    requires p > 0.0 && q > 0.0 && p * x == q * y && if diagonal then x == p && y == q else p == q
    ensures x == y
  {
    if diagonal {
      assert p < q ==> p * p < p * q < q * q;
      assert q < p ==> q * q < q * p < p * p;
    } else {
      assert p * (x - y) == 0.0;
    }
  }

  /** The upper triangle of u is that of the one Cholesky factor of s. */
  ghost predicate IsTheFactor(u: Mat, s: Mat, n: nat) {
    && UpperFactor(u, s, n, n)
    && forall v: Mat :: UpperFactor(v, s, n, n) ==> Equal(UpperPart(u), UpperPart(v), n, n)
  }

  lemma FactorIsTheFactor(u: Mat, s: Mat, n: nat)
    requires UpperFactor(u, s, n, n)
    ensures IsTheFactor(u, s, n)
  {
    forall v: Mat | UpperFactor(v, s, n, n)
      ensures Equal(UpperPart(u), UpperPart(v), n, n)
    {
      FactorIsUnique(u, v, s, n, n);
    }
  }

  /** A complete factor multiplies out to the whole symmetric matrix. */
  lemma FactorMultipliesOut(u: Mat, s: Mat, n: nat)
    requires Symmetric(s, n) && UpperFactor(u, s, n, n)
    ensures Equal(Product(Transpose(UpperPart(u)), UpperPart(u), n), s, n, n)
  {
    var m := UpperPart(u);
    forall r, c | 0 <= r < n && 0 <= c < n
      ensures Dot(Transpose(m), r, m, c, 0, n) == s(r, c)
    {
      var lo, hi := if r <= c then r else c, if r <= c then c else r;
      DotSplit(Transpose(m), lo, m, hi, 0, lo + 1, n);
      DotZero(Transpose(m), lo, m, hi, lo + 1, n);
      DotDepends(Transpose(m), lo, m, hi, Transpose(u), lo, u, hi, 0, lo + 1);
      DotCommutes(Transpose(m), r, m, c, 0, n);
      DotDepends(Transpose(m), c, Transpose(Transpose(m)), r, Transpose(m), c, m, r, 0, n);
    }
  }

  /** Conversely, only positive definite matrices have a factor with a positive diagonal. */
  lemma FactorImpliesPositiveDefinite(u: Mat, s: Mat, n: nat)
    requires Symmetric(s, n) && UpperFactor(u, s, n, n)
    ensures PositiveDefinite(s, n)
  {
    forall v: seq<real> | |v| == n && exists i :: 0 <= i < n && v[i] != 0.0
      ensures Quadratic(s, v) > 0.0
    {
      var m, x := UpperPart(u), ColumnAt(v, 0);
      var y := Product(m, x, n);
      QuadraticIsSquaredLength(u, s, n, v);
      var i :| 0 <= i < n && v[i] != 0.0;
      assert x(i, 0) != 0.0;
      if forall k :: 0 <= k < n ==> y(k, 0) == 0.0 {
        ZeroImage(m, n, x);
      }
      var k :| 0 <= k < n && y(k, 0) != 0.0;
      SquaresArePositive(y, n, k);
    }
  }

  lemma ZeroImage(m: Mat, n: nat, x: Mat)
    requires Regular(m, n) && forall k :: 0 <= k < n ==> Product(m, x, n)(k, 0) == 0.0
    ensures forall i :: 0 <= i < n ==> x(i, 0) == 0.0
  {
    var zero: Mat := (_, _) => 0.0;
    forall i | 0 <= i < n
      ensures Dot(m, i, x, 0, 0, n) == 0.0 == Dot(m, i, zero, 0, 0, n)
    {
      assert Product(m, x, n)(i, 0) == 0.0;
      DotZero(m, i, zero, 0, 0, n);
    }
    SolutionIsUnique(m, n, 1, x, zero, zero);
  }

  lemma QuadraticIsSquaredLength(u: Mat, s: Mat, n: nat, v: seq<real>)
    requires Symmetric(s, n) && UpperFactor(u, s, n, n) && |v| == n
    ensures var y := Product(UpperPart(u), ColumnAt(v, 0), n);
            Quadratic(s, v) == Dot(Transpose(y), 0, y, 0, 0, n)
  {
    var m, x := UpperPart(u), ColumnAt(v, 0);
    var y := Product(m, x, n);
    var p := Product(Transpose(m), m, n);
    FactorMultipliesOut(u, s, n);
    forall r | 0 <= r < n
      ensures Product(s, x, n)(r, 0) == Product(Transpose(m), y, n)(r, 0)
    {
      DotDepends(s, r, x, 0, p, r, x, 0, 0, n);
      ProductIsAssociative(Transpose(m), r, m, x, 0, n, n);
    }
    DotDepends(Transpose(x), 0, Product(s, x, n), 0, Transpose(x), 0, Product(Transpose(m), y, n), 0, 0, n);
    ProductIsAssociative(Transpose(x), 0, Transpose(m), y, 0, n, n);
    forall k | 0 <= k < n
      ensures Product(Transpose(x), Transpose(m), n)(0, k) == Transpose(y)(0, k)
    {
      DotCommutes(Transpose(x), 0, Transpose(m), k, 0, n);
      DotDepends(Transpose(Transpose(m)), k, Transpose(Transpose(x)), 0, m, k, x, 0, 0, n);
    }
    DotDepends(Product(Transpose(x), Transpose(m), n), 0, y, 0, Transpose(y), 0, y, 0, 0, n);
  }

  lemma {:induction false} SquaresArePositive(y: Mat, n: nat, k: nat)
    requires k < n && y(k, 0) != 0.0
    ensures Dot(Transpose(y), 0, y, 0, 0, n) > 0.0
  {
    SquaresAreNonNegative(y, n - 1);
    assert y(n - 1, 0) * y(n - 1, 0) >= 0.0;
    if k < n - 1 {
      SquaresArePositive(y, n - 1, k);
    } else {
      assert y(k, 0) * y(k, 0) > 0.0;
    }
  }

  lemma {:induction false} SquaresAreNonNegative(y: Mat, n: nat)
    ensures Dot(Transpose(y), 0, y, 0, 0, n) >= 0.0
  {
    if n > 0 {
      SquaresAreNonNegative(y, n - 1);
      assert y(n - 1, 0) * y(n - 1, 0) >= 0.0;
    }
  }
}

/** The in-place factorisation and the solver composed from it. */
module Solver {
  import opened Matrices
  import opened TriangularSystems
  import opened Kernels
  import opened CholeskyFactors
  import Ftrsm

  ghost predicate IsSquareRoot(sqrt: real -> real) {
    forall x :: x >= 0.0 ==> sqrt(x) >= 0.0 && sqrt(x) * sqrt(x) == x
  }

  /** State between two columns j: rows before j are factored, the rest of the triangle and the opposite
      triangle are as given. For the lower case u is the transpose of the array. */
  ghost predicate Factoring(u: Mat, s: Mat, u0: Mat, n: int, j: int) {
    && UpperFactor(u, s, n, j)
    && (forall r, c :: j <= r <= c < n ==> u(r, c) == s(r, c))
    && (forall r, c :: 0 <= c < r < n ==> u(r, c) == u0(r, c))
  }

  /** Row j of u' as computed from u. */
  ghost predicate RowComputed(u: Mat, u': Mat, n: int, j: int, p: real) {
    && u'(j, j) == p && p != 0.0
    && (forall c :: j < c < n ==> u'(j, c) == 1.0 / p * RowPending(u, n, j, p)(j, c))
    && (forall r, c :: 0 <= r < n && 0 <= c < n && (r != j || c < j) ==> u'(r, c) == u(r, c))
  }

  lemma FactoringStep(u: Mat, u': Mat, s: Mat, u0: Mat, n: nat, j: nat, p: real)
    requires Factoring(u, s, u0, n, j) && j < n && RowComputed(u, u', n, j, p)
    requires p > 0.0 && p * p == Pivot(u, s, j)
    ensures Factoring(u', s, u0, n, j + 1)
  {
    forall c | j < c < n
      ensures u'(j, j) * u'(j, c) == s(j, c) - Dot(Transpose(u), j, u, c, 0, j)
    {
      InverseTimes(p, RowPending(u, n, j, p)(j, c));
    }
    FactorGrows(u, u', s, n, j);
  }

  lemma InverseTimes(p: real, v: real)
    requires p != 0.0
    ensures p * (1.0 / p * v) == v
  {}

  lemma RootOfPivot(sqrt: real -> real, pivot: real)
    requires IsSquareRoot(sqrt) && pivot > 0.0
    ensures sqrt(pivot) > 0.0 && sqrt(pivot) * sqrt(pivot) == pivot
  {
    assert sqrt(pivot) == 0.0 ==> sqrt(pivot) * sqrt(pivot) == 0.0;
  }

  ghost function SetEntry(m: Mat, i: int, j: int, v: real): Mat {
    (r, c) => if r == i && c == j then v else m(r, c)
  }

  /** First part of the upper case's pass j: the diagonal entry. */
  method UpperDiagonal(a: array2<real>, j: nat, sqrt: real -> real, ghost u: Mat, ghost s: Mat) returns (ajj: real)
    requires a.Length0 == a.Length1 && j < a.Length0 && Holds(a, u)
    requires IsSquareRoot(sqrt) && u(j, j) == s(j, j) && Pivot(u, s, j) > 0.0
    modifies a
    ensures Holds(a, SetEntry(u, j, j, ajj)) && ajj > 0.0 && ajj * ajj == Pivot(u, s, j)
  {
    var temp := Fdot(a, 0, j, a, 0, j, j, 1, u, u);
    UpperDot(u, j);
    ajj := a[j, j] - temp;
    RootOfPivot(sqrt, ajj);
    ajj := sqrt(ajj);
    a[j, j] := ajj;
  }

  /** Row j behind the diagonal, before it is divided by the diagonal. */
  ghost function RowPending(u: Mat, n: int, j: int, ajj: real): Mat {
    (r, c) => if r == j && j < c < n then -1.0 * Dot(Transpose(u), j, u, c, 0, j) + 1.0 * u(j, c)
              else SetEntry(u, j, j, ajj)(r, c)
  }

  /** Second part: the entries of row j behind the diagonal, from the rows above it. */
  method UpperRow(a: array2<real>, j: nat, ajj: real, ghost u: Mat) returns (ghost u': Mat)
    requires a.Length0 == a.Length1 && j < a.Length0 && Holds(a, SetEntry(u, j, j, ajj)) && ajj != 0.0
    modifies a
    ensures Holds(a, u') && RowComputed(u, u', a.Length0, j, ajj)
  {
    var n := a.Length0;
    u' := ScaledBlock(1.0 / ajj, RowPending(u, n, j, ajj), j, j + 1, 1, n - j - 1);
    if j + 1 < n {
      UpperGemv(a, j, ajj, u);
      Fscal(1.0 / ajj, a, j, j + 1, 1, n - j - 1, RowPending(u, n, j, ajj));
    }
    RowIsComputed(u, n, j, ajj);
  }

  lemma RowIsComputed(u: Mat, n: nat, j: nat, ajj: real)
    requires j < n && ajj != 0.0
    ensures RowComputed(u, ScaledBlock(1.0 / ajj, RowPending(u, n, j, ajj), j, j + 1, 1, n - j - 1), n, j, ajj)
  {
    var pending := RowPending(u, n, j, ajj);
    var u' := ScaledBlock(1.0 / ajj, pending, j, j + 1, 1, n - j - 1);
    assert u'(j, j) == pending(j, j) == SetEntry(u, j, j, ajj)(j, j);
    forall r, c | 0 <= r < n && 0 <= c < n && (r != j || c < j)
      ensures u'(r, c) == u(r, c)
    {
      assert u'(r, c) == pending(r, c) == SetEntry(u, j, j, ajj)(r, c);
    }
  }

  method UpperGemv(a: array2<real>, j: nat, ghost ajj: real, ghost u: Mat)
    requires a.Length0 == a.Length1 && j + 1 < a.Length0 && Holds(a, SetEntry(u, j, j, ajj))
    modifies a
    ensures Holds(a, RowPending(u, a.Length0, j, ajj))
  {
    hide Dot, Swept, Flat, Operand, Vector;
    var n := a.Length0;
    ghost var u1 := SetEntry(u, j, j, ajj);
    AtMostOnce(2 * j, n);
    SweptByOne(u1, Flat(j, j + 1, n), n, j, 1);
    ghost var a1, b1, c1 := Fgemv(1, -1.0, a, View(0, j + 1, j, n - j - 1), a, View(0, j, j, 1),
                                  1.0, a, View(j, j + 1, 1, j), u1, u1, u1);
    forall c | j < c < n
      ensures Dot(Operand(a1, View(0, j + 1, j, n - j - 1), 1), c - (j + 1), Vector(b1, View(0, j, j, 1)), 0, 0, j)
              == Dot(Transpose(u), j, u, c, 0, j)
    {
      UpperGemvEntry(u, c1, n, j, c);
    }
  }

  lemma AtMostOnce(x: nat, n: nat)
    requires n > 0 && x < 2 * n
    ensures x / n <= 1
  {}

  lemma UpperDot(u: Mat, j: nat)
    ensures BlockDot(Block(u, 0, j), Block(u, 0, j), j, 1) == Dot(Transpose(u), j, u, j, 0, j)
  {
    BlockDotOfColumns(Block(u, 0, j), Block(u, 0, j), j);
    DotDepends(Transpose(Block(u, 0, j)), 0, Block(u, 0, j), 0, Transpose(u), j, u, j, 0, j);
  }

  lemma UpperGemvEntry(u: Mat, u1: Mat, n: nat, j: nat, c: nat)
    requires j < c < n && forall r, q :: 0 <= r < j && 0 <= q < n ==> u1(r, q) == u(r, q)
    ensures Dot(Operand(u1, View(0, j + 1, j, n - j - 1), 1), c - (j + 1), Vector(u1, View(0, j, j, 1)), 0, 0, j)
            == Dot(Transpose(u), j, u, c, 0, j)
  {
    var operand, vector := Operand(u1, View(0, j + 1, j, n - j - 1), 1), Vector(u1, View(0, j, j, 1));
    forall k | 0 <= k < j
      ensures operand(c - (j + 1), k) == Transpose(u)(c, k) && vector(k, 0) == u(k, j)
    {
      assert operand(c - (j + 1), k) == u1(k, c);
      var view := View(0, j, j, 1);
      assert view.VectorRow(k) == k && view.VectorCol(k) == j;
    }
    DotDepends(operand, c - (j + 1), vector, 0, Transpose(u), c, u, j, 0, j);
    DotCommutes(Transpose(u), c, u, j, 0, j);
    DotDepends(Transpose(u), j, Transpose(Transpose(u)), c, Transpose(u), j, u, c, 0, j);
  }

  /** The lower case works on the transposed picture: column j from the columns before it. */
  method LowerDiagonal(a: array2<real>, j: nat, sqrt: real -> real, ghost u: Mat, ghost s: Mat) returns (ajj: real)
    requires a.Length0 == a.Length1 && j < a.Length0 && Holds(a, Transpose(u))
    requires IsSquareRoot(sqrt) && u(j, j) == s(j, j) && Pivot(u, s, j) > 0.0
    modifies a
    ensures Holds(a, Transpose(SetEntry(u, j, j, ajj))) && ajj > 0.0 && ajj * ajj == Pivot(u, s, j)
  {
    var temp := Fdot(a, j, 0, a, j, 0, 1, j, Transpose(u), Transpose(u));
    LowerDot(u, j);
    ajj := a[j, j] - temp;
    RootOfPivot(sqrt, ajj);
    ajj := sqrt(ajj);
    a[j, j] := ajj;
  }

  lemma LowerDot(u: Mat, j: nat)
    ensures BlockDot(Block(Transpose(u), j, 0), Block(Transpose(u), j, 0), 1, j) == Dot(Transpose(u), j, u, j, 0, j)
  {
    var l := Block(Transpose(u), j, 0);
    assert BlockDot(l, l, 1, j) == BlockDot(l, l, 0, j) + Dot(l, 0, Transpose(l), 0, 0, j);
    DotDepends(l, 0, Transpose(l), 0, Transpose(u), j, u, j, 0, j);
  }

  method LowerColumn(a: array2<real>, j: nat, ajj: real, ghost u: Mat) returns (ghost u': Mat)
    requires a.Length0 == a.Length1 && j < a.Length0 && Holds(a, Transpose(SetEntry(u, j, j, ajj))) && ajj != 0.0
    modifies a
    ensures Holds(a, Transpose(u')) && RowComputed(u, u', a.Length0, j, ajj)
  {
    hide Dot;
    var n := a.Length0;
    u' := ScaledBlock(1.0 / ajj, RowPending(u, n, j, ajj), j, j + 1, 1, n - j - 1);
    if j + 1 < n {
      LowerGemv(a, j, ajj, u);
      Fscal(1.0 / ajj, a, j + 1, j, n - j - 1, 1, Transpose(RowPending(u, n, j, ajj)));
    }
    RowIsComputed(u, n, j, ajj);
  }

  method LowerGemv(a: array2<real>, j: nat, ghost ajj: real, ghost u: Mat)
    requires a.Length0 == a.Length1 && j + 1 < a.Length0 && Holds(a, Transpose(SetEntry(u, j, j, ajj)))
    modifies a
    ensures Holds(a, Transpose(RowPending(u, a.Length0, j, ajj)))
  {
    hide Dot, Swept, Flat, Operand, Vector;
    var n := a.Length0;
    ghost var l1 := Transpose(SetEntry(u, j, j, ajj));
    SweptByOne(l1, Flat(j + 1, j, n), n, 1, n - j - 1);
    ghost var a1, b1, c1 := Fgemv(0, -1.0, a, View(j + 1, 0, n - j - 1, j), a, View(j, 0, 1, j),
                                  1.0, a, View(j + 1, j, n - j - 1, 1), l1, l1, l1);
    forall c | j < c < n
      ensures Dot(Operand(a1, View(j + 1, 0, n - j - 1, j), 0), c - (j + 1), Vector(b1, View(j, 0, 1, j)), 0, 0, j)
              == Dot(Transpose(u), j, u, c, 0, j)
    {
      LowerGemvEntry(u, c1, n, j, c);
    }
  }

  lemma LowerGemvEntry(u: Mat, l1: Mat, n: nat, j: nat, c: nat)
    requires j < c < n && forall r, q :: 0 <= q < j && 0 <= r < n ==> l1(r, q) == u(q, r)
    ensures Dot(Operand(l1, View(j + 1, 0, n - j - 1, j), 0), c - (j + 1), Vector(l1, View(j, 0, 1, j)), 0, 0, j)
            == Dot(Transpose(u), j, u, c, 0, j)
  {
    var view := View(j, 0, 1, j);
    var operand, vector := Operand(l1, View(j + 1, 0, n - j - 1, j), 0), Vector(l1, view);
    forall k | 0 <= k < j
      ensures operand(c - (j + 1), k) == Transpose(u)(c, k) && vector(k, 0) == u(k, j)
    {
      assert operand(c - (j + 1), k) == l1(c, k);
      assert view.VectorRow(k) == j && view.VectorCol(k) == k;
    }
    DotDepends(operand, c - (j + 1), vector, 0, Transpose(u), c, u, j, 0, j);
    DotCommutes(Transpose(u), c, u, j, 0, j);
    DotDepends(Transpose(u), j, Transpose(Transpose(u)), c, Transpose(u), j, u, c, 0, j);
  }

  /** The Cholesky factorisation in place. For uplo 0 the upper triangle of a holds that of the positive
      definite matrix s and is overwritten with U; for uplo 1 the lower triangles and L == U'. The
      opposite triangle is neither read nor changed. */
  method Fpotf2(uplo: int, a: array2<real>, sqrt: real -> real, ghost s: Mat, ghost a0: Mat) returns (ghost u: Mat)
    requires uplo in {0, 1} && a.Length0 == a.Length1 && IsSquareRoot(sqrt)
    requires Symmetric(s, a.Length0) && PositiveDefinite(s, a.Length0)
    requires Holds(a, a0)
    requires forall r, c :: 0 <= r <= c < a.Length0 ==> s(r, c) == if uplo == 0 then a0(r, c) else a0(c, r)
    modifies a
    ensures Holds(a, if uplo == 0 then u else Transpose(u))
    ensures IsTheFactor(u, s, a.Length0)
    ensures forall r, c :: 0 <= c < r < a.Length0 ==> if uplo == 0 then a[r, c] == a0(r, c) else a[c, r] == a0(c, r)
  {
    if uplo == 0 {
      u := FactorUpper(a, sqrt, s, a0);
    } else {
      u := FactorLower(a, sqrt, s, Transpose(a0));
    }
    FactorIsTheFactor(u, s, a.Length0);
  }

  method FactorUpper(a: array2<real>, sqrt: real -> real, ghost s: Mat, ghost u0: Mat) returns (ghost u: Mat)
    requires a.Length0 == a.Length1 && IsSquareRoot(sqrt) && Symmetric(s, a.Length0) && PositiveDefinite(s, a.Length0)
    requires Holds(a, u0) && forall r, c :: 0 <= r <= c < a.Length0 ==> u0(r, c) == s(r, c)
    modifies a
    ensures Holds(a, u) && Factoring(u, s, u0, a.Length0, a.Length0)
  {
    u := u0;
    var j := 0;
    while j < a.Length0
      invariant 0 <= j <= a.Length0
      invariant Holds(a, u) && Factoring(u, s, u0, a.Length0, j)
    {
      PivotIsPositive(u, s, a.Length0, j);
      ghost var before := u;
      var ajj := UpperDiagonal(a, j, sqrt, u, s);
      u := UpperRow(a, j, ajj, u);
      FactoringStep(before, u, s, u0, a.Length0, j, ajj);
      j := j + 1;
    }
  }

  method FactorLower(a: array2<real>, sqrt: real -> real, ghost s: Mat, ghost u0: Mat) returns (ghost u: Mat)
    requires a.Length0 == a.Length1 && IsSquareRoot(sqrt) && Symmetric(s, a.Length0) && PositiveDefinite(s, a.Length0)
    requires Holds(a, Transpose(u0)) && forall r, c :: 0 <= r <= c < a.Length0 ==> u0(r, c) == s(r, c)
    modifies a
    ensures Holds(a, Transpose(u)) && Factoring(u, s, u0, a.Length0, a.Length0)
  {
    u := u0;
    var j := 0;
    while j < a.Length0
      invariant 0 <= j <= a.Length0
      invariant Holds(a, Transpose(u)) && Factoring(u, s, u0, a.Length0, j)
    {
      PivotIsPositive(u, s, a.Length0, j);
      ghost var before := u;
      var ajj := LowerDiagonal(a, j, sqrt, u, s);
      u := LowerColumn(a, j, ajj, u);
      FactoringStep(before, u, s, u0, a.Length0, j, ajj);
      j := j + 1;
    }
  }

  /** The passes find a positive pivot in every row exactly for the positive definite matrices. */
  lemma FactorableIffPositiveDefinite(s: Mat, n: nat, sqrt: real -> real)
    requires Symmetric(s, n) && IsSquareRoot(sqrt)
    ensures PositiveDefinite(s, n) <==> exists u :: UpperFactor(u, s, n, n)
  {
    if PositiveDefinite(s, n) {
      var u := s;
      for j := 0 to n
        invariant Factoring(u, s, s, n, j)
      {
        PivotIsPositive(u, s, n, j);
        var p := sqrt(Pivot(u, s, j));
        RootOfPivot(sqrt, Pivot(u, s, j));
        RowIsComputed(u, n, j, p);
        var u' := ScaledBlock(1.0 / p, RowPending(u, n, j, p), j, j + 1, 1, n - j - 1);
        FactoringStep(u, u', s, s, n, j, p);
        u := u';
      }
    } else if exists u :: UpperFactor(u, s, n, n) {
      var u :| UpperFactor(u, s, n, n);
      FactorImpliesPositiveDefinite(u, s, n);
    }
  }

  /** Solves s x == b from the factor: two triangular solves that overwrite b. */
  method Fpotrs(uplo: int, a: array2<real>, b: array2<real>, ghost u: Mat, ghost s: Mat, ghost b0: Mat)
    returns (ghost x: Mat)
    requires uplo in {0, 1} && a != b && a.Length0 == a.Length1 == b.Length0
    requires Holds(a, if uplo == 0 then u else Transpose(u)) && Symmetric(s, a.Length0)
    requires UpperFactor(u, s, a.Length0, a.Length0)
    requires Holds(b, b0)
    modifies b
    ensures Holds(b, x) && SolvesLeft(s, a.Length0, b.Length1, x, b0)
  {
    ghost var n := a.Length0;
    ghost var m := UpperPart(u);
    ghost var a0 := if uplo == 0 then u else Transpose(u);
    assert forall i :: 0 <= i < n ==> a[i, i] == u(i, i);
    ghost var y;
    if uplo == 0 {
      y := Ftrsm.Ftrsm(0, 0, 1, 1.0, a, b, Transpose(m), a0, b0);
      x := Ftrsm.Ftrsm(0, 0, 0, 1.0, a, b, m, a0, y);
    } else {
      y := Ftrsm.Ftrsm(0, 1, 0, 1.0, a, b, Transpose(m), a0, b0);
      x := Ftrsm.Ftrsm(0, 1, 1, 1.0, a, b, m, a0, y);
    }
    TwoSolvesSolve(u, s, n, b.Length1, x, y, b0);
  }

  /** If U' y == b and U x == y, then (U'U) x == b. */
  lemma TwoSolvesSolve(u: Mat, s: Mat, n: nat, cols: nat, x: Mat, y: Mat, b: Mat)
    requires Symmetric(s, n) && UpperFactor(u, s, n, n)
    requires SolvesLeft(Transpose(UpperPart(u)), n, cols, y, Scale(1.0, b))
    requires SolvesLeft(UpperPart(u), n, cols, x, Scale(1.0, y))
    ensures SolvesLeft(s, n, cols, x, b)
  {
    var m := UpperPart(u);
    FactorMultipliesOut(u, s, n);
    forall i, j | 0 <= i < n && 0 <= j < cols
      ensures Dot(s, i, x, j, 0, n) == b(i, j)
    {
      DotDepends(s, i, x, j, Product(Transpose(m), m, n), i, x, j, 0, n);
      ProductIsAssociative(Transpose(m), i, m, x, j, n, n);
      forall k | 0 <= k < n
        ensures Product(m, x, n)(k, j) == y(k, j)
      {
        assert Dot(m, k, x, j, 0, n) == Scale(1.0, y)(k, j);
      }
      DotDepends(Transpose(m), i, Product(m, x, n), j, Transpose(m), i, y, j, 0, n);
      assert Dot(Transpose(m), i, y, j, 0, n) == Scale(1.0, b)(i, j);
    }
  }

  /** Solves s x == b for a symmetric positive definite s, of which a holds the triangle named by uplo. */
  method Fposv(uplo: int, a: array2<real>, b: array2<real>, sqrt: real -> real, ghost s: Mat, ghost a0: Mat,
               ghost b0: Mat)
    returns (ghost x: Mat)
    requires uplo in {0, 1} && a != b && a.Length0 == a.Length1 == b.Length0 && IsSquareRoot(sqrt)
    requires Symmetric(s, a.Length0) && PositiveDefinite(s, a.Length0)
    requires Holds(a, a0) && Holds(b, b0)
    requires forall r, c :: 0 <= r <= c < a.Length0 ==> s(r, c) == if uplo == 0 then a0(r, c) else a0(c, r)
    modifies a, b
    ensures Holds(b, x) && SolvesLeft(s, a.Length0, b.Length1, x, b0)
  {
    ghost var u := Fpotf2(uplo, a, sqrt, s, a0);
    x := Fpotrs(uplo, a, b, u, s, b0);
  }

  /** The same in terms of the arrays alone: if what a holds is symmetric and positive definite, then what b
      holds afterwards, times what a held before, is what b held before. */
  method FposvOfArrays(uplo: int, a: array2<real>, b: array2<real>, sqrt: real -> real)
    returns (ghost s: Mat, ghost b0: Mat, ghost x: Mat)
    requires uplo in {0, 1} && a != b && a.Length0 == a.Length1 == b.Length0 && IsSquareRoot(sqrt)
    requires forall m: Mat :: Holds(a, m) ==> Symmetric(m, a.Length0) && PositiveDefinite(m, a.Length0)
    modifies a, b
    ensures old(Holds(a, s)) && old(Holds(b, b0)) && Holds(b, x)
    ensures SolvesLeft(s, a.Length0, b.Length1, x, b0)
  {
    s := Snapshot(a);
    b0 := Snapshot(b);
    x := Fposv(uplo, a, b, sqrt, s, s, b0);
  }
}
