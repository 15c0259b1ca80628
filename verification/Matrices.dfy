/** Real matrices as values, and the two-dimensional arrays that hold them. */
module Matrices {

  /** Entries by row and column, both counted from 0; the dimensions are stated where they matter. */
  type Mat = (int, int) -> real

  ghost predicate Holds(a: array2<real>, m: Mat)
    reads a
  {
    forall i, j :: 0 <= i < a.Length0 && 0 <= j < a.Length1 ==> a[i, j] == m(i, j)
  }

  ghost predicate Equal(m: Mat, m': Mat, rows: int, cols: int) {
    forall i, j :: 0 <= i < rows && 0 <= j < cols ==> m(i, j) == m'(i, j)
  }

  /** The value an array holds at the time of the call. */
  lemma Snapshot(a: array2<real>) returns (m: Mat)
    ensures Holds(a, m)
  {
    var entries: map<(int, int), real> :=
      map i, j | 0 <= i < a.Length0 && 0 <= j < a.Length1 :: (i, j) := a[i, j];
    m := (i, j) => if (i, j) in entries then entries[(i, j)] else 0.0;
  }

  ghost function Transpose(m: Mat): Mat {
    (i, j) => m(j, i)
  }

  ghost function Scale(s: real, m: Mat): Mat {
    (i, j) => s * m(i, j)
  }

  /** Row i of a times column j of b, restricted to the inner indices from lo up to hi. */
  ghost function Dot(a: Mat, i: int, b: Mat, j: int, lo: int, hi: int): real
    decreases hi - lo
  {
    if hi <= lo then 0.0 else Dot(a, i, b, j, lo, hi - 1) + Term(a, i, b, j, hi - 1)
  }

  ghost function Term(a: Mat, i: int, b: Mat, j: int, k: int): real {
    a(i, k) * b(k, j)
  }

  /** The product of two matrices with inner dimension n. */
  ghost function Product(a: Mat, b: Mat, n: int): Mat {
    (i, j) => Dot(a, i, b, j, 0, n)
  }

  lemma {:induction false} DotDepends(a: Mat, i: int, b: Mat, j: int, a': Mat, i': int, b': Mat, j': int, lo: int,
                                      hi: int)
    requires forall k :: lo <= k < hi ==> a(i, k) == a'(i', k) && b(k, j) == b'(k, j')
    ensures Dot(a, i, b, j, lo, hi) == Dot(a', i', b', j', lo, hi)
    decreases hi - lo
  {
    if lo < hi {
      DotDepends(a, i, b, j, a', i', b', j', lo, hi - 1);
    }
  }

  lemma EmptyDots(lo: int)
    ensures forall a: Mat, i, b: Mat, j :: Dot(a, i, b, j, lo, lo) == 0.0
  {}

  lemma DotEmpty(a: Mat, i: int, b: Mat, j: int, lo: int)
    ensures Dot(a, i, b, j, lo, lo) == 0.0
  {}

  /** The last term of a dot product. */
  lemma DotLast(a: Mat, i: int, b: Mat, j: int, lo: int, hi: int)
    requires lo < hi
    ensures Dot(a, i, b, j, lo, hi) == Dot(a, i, b, j, lo, hi - 1) + Term(a, i, b, j, hi - 1)
  {}

  lemma {:induction false} DotSplit(a: Mat, i: int, b: Mat, j: int, lo: int, mid: int, hi: int)
    requires lo <= mid <= hi
    ensures Dot(a, i, b, j, lo, hi) == Dot(a, i, b, j, lo, mid) + Dot(a, i, b, j, mid, hi)
    decreases hi - mid
  {
    if mid < hi {
      DotSplit(a, i, b, j, lo, mid, hi - 1);
    }
  }

  lemma DotFront(a: Mat, i: int, b: Mat, j: int, lo: int, hi: int)
    requires lo < hi
    ensures Dot(a, i, b, j, lo, hi) == a(i, lo) * b(lo, j) + Dot(a, i, b, j, lo + 1, hi)
  {
    DotSplit(a, i, b, j, lo, lo + 1, hi);
    assert Dot(a, i, b, j, lo, lo + 1) == Dot(a, i, b, j, lo, lo) + a(i, lo) * b(lo, j);
  }

  lemma {:induction false} DotZero(a: Mat, i: int, b: Mat, j: int, lo: int, hi: int)
    requires forall k :: lo <= k < hi ==> a(i, k) == 0.0 || b(k, j) == 0.0
    ensures Dot(a, i, b, j, lo, hi) == 0.0
    decreases hi - lo
  {
    if lo < hi {
      DotZero(a, i, b, j, lo, hi - 1);
    }
  }

  lemma {:induction false} DotCommutes(a: Mat, i: int, b: Mat, j: int, lo: int, hi: int)
    ensures Dot(a, i, b, j, lo, hi) == Dot(Transpose(b), j, Transpose(a), i, lo, hi)
    decreases hi - lo
  {
    if lo < hi {
      DotCommutes(a, i, b, j, lo, hi - 1);
    }
  }

  lemma {:induction false} DotScales(a: Mat, i: int, b: Mat, j: int, s: real, lo: int, hi: int)
    ensures Dot(a, i, Scale(s, b), j, lo, hi) == s * Dot(a, i, b, j, lo, hi)
    ensures Dot(Scale(s, a), i, b, j, lo, hi) == s * Dot(a, i, b, j, lo, hi)
    decreases hi - lo
  {
    if lo < hi {
      DotScales(a, i, b, j, s, lo, hi - 1);
      ScaleTerm(s, Dot(a, i, b, j, lo, hi - 1), a(i, hi - 1), b(hi - 1, j));
    }
  }

  lemma ScaleTerm(s: real, d: real, x: real, y: real)
    ensures s * d + x * (s * y) == s * (d + x * y)
    ensures s * d + s * x * y == s * (d + x * y)
  {}

  /** A product under a name, so that proofs can leave it alone. */
  ghost function Times(a: real, b: real): real {
    a * b
  }

  lemma TimesZero(b: real)
    ensures Times(0.0, b) == 0.0
  {}

  /** One more inner column k of the middle factor, taken out of the nested sum. */
  lemma {:induction false} DotOfExtendedProduct(x: Mat, i: int, y: Mat, z: Mat, j: int, l: nat, k: nat)
    ensures Dot(x, i, Product(y, z, k + 1), j, 0, l) ==
            Dot(x, i, Product(y, z, k), j, 0, l) + Times(Dot(x, i, y, k, 0, l), z(k, j))
    decreases l
  {
    hide Dot, Product, Term, Times;
    if l == 0 {
      TimesZero(z(k, j));
      DotEmpty(x, i, Product(y, z, k + 1), j, 0);
      DotEmpty(x, i, Product(y, z, k), j, 0);
      DotEmpty(x, i, y, k, 0);
    } else {
      DotLast(x, i, Product(y, z, k + 1), j, 0, l);
      DotLast(x, i, Product(y, z, k), j, 0, l);
      DotLast(x, i, y, k, 0, l);
      DotOfExtendedProduct(x, i, y, z, j, l - 1, k);
      TermOfExtendedProduct(x, i, y, z, j, l - 1, k, Dot(x, i, y, k, 0, l - 1), Dot(x, i, y, k, 0, l));
    }
  }

  lemma TermOfExtendedProduct(x: Mat, i: int, y: Mat, z: Mat, j: int, l: nat, k: nat, b: real, b': real)
    requires b' == b + Term(x, i, y, k, l)
    ensures Term(x, i, Product(y, z, k + 1), j, l) + Times(b, z(k, j)) ==
            Term(x, i, Product(y, z, k), j, l) + Times(b', z(k, j))
  {
    hide Dot;
    DotLast(y, l, z, j, 0, k + 1);
    RegroupTerms(Dot(y, l, z, j, 0, k), b, x(i, l), y(l, k), z(k, j));
  }

  lemma RegroupTerms(c: real, b: real, x: real, y: real, z: real)
    ensures x * (c + y * z) + b * z == x * c + (b + x * y) * z
  {}

  lemma NoInnerColumns(x: Mat, i: int, y: Mat, z: Mat, j: int, l: nat)
    ensures Dot(Product(x, y, l), i, z, j, 0, 0) == Dot(x, i, Product(y, z, 0), j, 0, l) == 0.0
  {
    DotZero(x, i, Product(y, z, 0), j, 0, l);
  }

  lemma TermOfProduct(x: Mat, i: int, y: Mat, z: Mat, j: int, l: nat, k: int)
    ensures Term(Product(x, y, l), i, z, j, k) == Times(Dot(x, i, y, k, 0, l), z(k, j))
  {
    hide Dot;
  }

  /** (XY)Z == X(YZ), entry by entry. */
  lemma {:induction false} ProductIsAssociative(x: Mat, i: int, y: Mat, z: Mat, j: int, l: nat, k: nat)
    ensures Dot(Product(x, y, l), i, z, j, 0, k) == Dot(x, i, Product(y, z, k), j, 0, l)
    decreases k
  {
    hide Dot, Term, Product, Times;
    if k == 0 {
      NoInnerColumns(x, i, y, z, j, l);
    } else {
      ProductIsAssociative(x, i, y, z, j, l, k - 1);
      DotLast(Product(x, y, l), i, z, j, 0, k);
      TermOfProduct(x, i, y, z, j, l, k - 1);
      DotOfExtendedProduct(x, i, y, z, j, l, k - 1);
    }
  }
}
