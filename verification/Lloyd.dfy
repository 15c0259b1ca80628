/** Groupings of points in the plane into clusters, and what a grouping costs. */
module Clustering {
  import FiniteSets

  datatype Position = Position(x: real, y: real)

  /** Group number of every point. */
  type Grouping = seq<int>

  predicate IsGrouping(g: Grouping, n: nat, k: nat) {
    |g| == n && forall j :: 0 <= j < n ==> 0 <= g[j] < k
  }

  function SquaredDistance(p: Position, q: Position): real {
    (q.x - p.x) * (q.x - p.x) + (q.y - p.y) * (q.y - p.y)
  }

  /** Members of cluster i among the first m points, and the sums of their coordinates. */
  function Count(g: Grouping, i: int, m: nat): nat
    requires m <= |g|
  {
    if m == 0 then 0 else Count(g, i, m - 1) + if g[m - 1] == i then 1 else 0
  }

  function SumX(pos: seq<Position>, g: Grouping, i: int, m: nat): real
    requires m <= |g| == |pos|
  {
    if m == 0 then 0.0 else SumX(pos, g, i, m - 1) + if g[m - 1] == i then pos[m - 1].x else 0.0
  }

  function SumY(pos: seq<Position>, g: Grouping, i: int, m: nat): real
    requires m <= |g| == |pos|
  {
    if m == 0 then 0.0 else SumY(pos, g, i, m - 1) + if g[m - 1] == i then pos[m - 1].y else 0.0
  }

  /** The mean of a cluster; of no importance when the cluster is empty. */
  function Mean(pos: seq<Position>, g: Grouping, i: int): Position
    requires |g| == |pos|
  {
    var count := Count(g, i, |g|);
    if count == 0 then Position(0.0, 0.0)
    else Position(SumX(pos, g, i, |g|) / count as real, SumY(pos, g, i, |g|) / count as real)
  }

  function Means(pos: seq<Position>, g: Grouping, k: nat): (c: seq<Position>)
    requires |g| == |pos|
    ensures |c| == k && forall i :: 0 <= i < k ==> c[i] == Mean(pos, g, i)
  {
    seq(k, i => Mean(pos, g, i))
  }

  /** Squared distances of the first m points to the centre of their own group, added up. */
  function Cost(pos: seq<Position>, g: Grouping, c: seq<Position>, m: nat): real
    requires m <= |g| == |pos| && IsGrouping(g, |pos|, |c|)
  {
    if m == 0 then 0.0 else Cost(pos, g, c, m - 1) + SquaredDistance(c[g[m - 1]], pos[m - 1])
  }

  /** What Lloyd's algorithm minimises. */
  function Objective(pos: seq<Position>, g: Grouping, k: nat): real
    requires IsGrouping(g, |pos|, k)
  {
    Cost(pos, g, Means(pos, g, k), |pos|)
  }

  function IndexSum(g: Grouping, m: nat): int
    requires m <= |g|
  {
    if m == 0 then 0 else IndexSum(g, m - 1) + g[m - 1]
  }

  // ----- the mean is the best centre

  function ClusterCost(pos: seq<Position>, g: Grouping, i: int, q: Position, m: nat): real
    requires m <= |g| == |pos|
  {
    if m == 0 then 0.0
    else ClusterCost(pos, g, i, q, m - 1) + if g[m - 1] == i then SquaredDistance(q, pos[m - 1]) else 0.0
  }

  /** How much more n points with coordinate sum s cost about q than about the origin, along one axis. */
  ghost function Axis(n: real, s: real, q: real): real {
    n * (q * q) - 2.0 * (q * s)
  }

  /** The cost of n points about q, from their cost about the origin and their coordinate sums. */
  ghost predicate Expands(cost: real, origin: real, q: Position, sx: real, sy: real, n: real) {
    cost == origin + Axis(n, sx, q.x) + Axis(n, sy, q.y)
  }

  lemma {:induction false} ExpandClusterCost(pos: seq<Position>, g: Grouping, i: int, q: Position, m: nat)
    requires m <= |g| == |pos|
    ensures Expands(ClusterCost(pos, g, i, q, m), ClusterCost(pos, g, i, Position(0.0, 0.0), m),
                    q, SumX(pos, g, i, m), SumY(pos, g, i, m), Count(g, i, m) as real)
  {
    if m > 0 {
      ExpandClusterCost(pos, g, i, q, m - 1);
      if g[m - 1] == i {
        ExpandStep(ClusterCost(pos, g, i, q, m - 1), ClusterCost(pos, g, i, Position(0.0, 0.0), m - 1),
                   q, SumX(pos, g, i, m - 1), SumY(pos, g, i, m - 1), Count(g, i, m - 1) as real, pos[m - 1]);
      }
    }
  }

  lemma ExpandStep(cost: real, origin: real, q: Position, sx: real, sy: real, n: real, p: Position)
    requires Expands(cost, origin, q, sx, sy, n)
    ensures Expands(cost + SquaredDistance(q, p), origin + SquaredDistance(Position(0.0, 0.0), p),
                    q, sx + p.x, sy + p.y, n + 1.0)
  {
    hide Axis;
    ExpandSquare(q.x, p.x, sx, n);
    ExpandSquare(q.y, p.y, sy, n);
    SquaresAboutOrigin(p);
  }

  lemma SquaresAboutOrigin(p: Position)
    ensures SquaredDistance(Position(0.0, 0.0), p) == p.x * p.x + p.y * p.y
  {
    assert (0.0 - p.x) * (0.0 - p.x) == p.x * p.x;
    assert (0.0 - p.y) * (0.0 - p.y) == p.y * p.y;
  }

  /** Adding the point v to a cluster of n points with coordinate sum s. */
  lemma ExpandSquare(q: real, v: real, s: real, n: real)
    ensures (q - v) * (q - v) + Axis(n, s, q) == v * v + Axis(n + 1.0, s + v, q)
  {
    assert (q - v) * (q - v) == v * v - 2.0 * (q * v) + q * q;
    assert q * (s + v) == q * s + q * v;
    assert (n + 1.0) * (q * q) == n * (q * q) + q * q;
  }

  /** Along one axis: moving the centre away from the mean a to q adds n * (q - a)^2. */
  lemma ParallelAxis(n: real, s: real, a: real, q: real)
    requires n > 0.0 && a == s / n
    ensures Axis(n, s, a) <= Axis(n, s, q)
  {
    MeanTimesCount(n, s, a);
    var d := q - a;
    SquareIsNonNegative(n, d);
    SquareOfDifference(n, s, a, q);
  }

  lemma MeanTimesCount(n: real, s: real, a: real)
    requires n > 0.0 && a == s / n
    ensures s == n * a
  {}

  lemma SquareIsNonNegative(n: real, d: real)
    requires n > 0.0
    ensures n * (d * d) >= 0.0
  {
    assert d * d >= 0.0;
  }

  lemma SquareOfDifference(n: real, s: real, a: real, q: real)
    requires s == n * a
    ensures Axis(n, s, q) - Axis(n, s, a) == n * ((q - a) * (q - a))
  {
    assert (q - a) * (q - a) == q * q - 2.0 * (q * a) + a * a;
    assert q * s == n * (q * a) && a * s == n * (a * a);
  }

  lemma AxisOfNothing(q: real)
    ensures Axis(0.0, 0.0, q) == 0.0
  {}

  lemma MeanIsBestCentre(pos: seq<Position>, g: Grouping, i: int, q: Position)
    requires |g| == |pos|
    ensures ClusterCost(pos, g, i, Mean(pos, g, i), |pos|) <= ClusterCost(pos, g, i, q, |pos|)
  {
    var m := Mean(pos, g, i);
    var n := Count(g, i, |g|);
    var sx, sy := SumX(pos, g, i, |g|), SumY(pos, g, i, |g|);
    var origin := ClusterCost(pos, g, i, Position(0.0, 0.0), |pos|);
    ExpandClusterCost(pos, g, i, q, |pos|);
    ExpandClusterCost(pos, g, i, m, |pos|);
    if n == 0 {
      EmptyClusterSums(pos, g, i, |g|);
    }
    CompareExpansions(ClusterCost(pos, g, i, m, |pos|), ClusterCost(pos, g, i, q, |pos|), origin, m, q, sx, sy,
                      n as real);
  }

  lemma CompareExpansions(best: real, other: real, origin: real, m: Position, q: Position, sx: real, sy: real, n: real)
    requires Expands(best, origin, m, sx, sy, n) && Expands(other, origin, q, sx, sy, n)
    requires if n == 0.0 then sx == sy == 0.0 else n > 0.0 && m.x == sx / n && m.y == sy / n
    ensures best <= other
  {
    hide Axis;
    if n > 0.0 {
      ParallelAxis(n, sx, m.x, q.x);
      ParallelAxis(n, sy, m.y, q.y);
    } else {
      AxisOfNothing(m.x);
      AxisOfNothing(m.y);
      AxisOfNothing(q.x);
      AxisOfNothing(q.y);
    }
  }

  lemma {:induction false} EmptyClusterSums(pos: seq<Position>, g: Grouping, i: int, m: nat)
    requires m <= |g| == |pos| && Count(g, i, m) == 0
    ensures SumX(pos, g, i, m) == 0.0 && SumY(pos, g, i, m) == 0.0
  {
    if m > 0 {
      EmptyClusterSums(pos, g, i, m - 1);
    }
  }

  /** Replacing one centre changes the cost of that cluster only. */
  lemma {:induction false} ReplaceCentre(pos: seq<Position>, g: Grouping, c: seq<Position>, i: int, q: Position, m: nat)
    requires m <= |pos| && IsGrouping(g, |pos|, |c|) && 0 <= i < |c|
    ensures Cost(pos, g, c[i := q], m) - ClusterCost(pos, g, i, q, m)
            == Cost(pos, g, c, m) - ClusterCost(pos, g, i, c[i], m)
  {
    if m > 0 {
      ReplaceCentre(pos, g, c, i, q, m - 1);
    }
  }

  /** For a fixed grouping no choice of centres costs less than the means. */
  lemma MeansAreBestCentres(pos: seq<Position>, g: Grouping, c: seq<Position>)
    requires IsGrouping(g, |pos|, |c|)
    ensures Objective(pos, g, |c|) <= Cost(pos, g, c, |pos|)
  {
    var k := |c|;
    var means := Means(pos, g, k);
    var mixed := c;
    for i := 0 to k
      invariant |mixed| == k
      invariant forall l :: 0 <= l < k ==> mixed[l] == if l < i then means[l] else c[l]
      invariant Cost(pos, g, mixed, |pos|) <= Cost(pos, g, c, |pos|)
    {
      ReplaceCentre(pos, g, mixed, i, means[i], |pos|);
      MeanIsBestCentre(pos, g, i, mixed[i]);
      mixed := mixed[i := means[i]];
    }
    assert mixed == means;
  }

  // ----- one pass descends

  /** Lower cost, or the same cost with smaller group numbers. */
  ghost predicate Better(pos: seq<Position>, k: nat, a: Grouping, b: Grouping)
    requires IsGrouping(a, |pos|, k) && IsGrouping(b, |pos|, k)
  {
    || Objective(pos, a, k) < Objective(pos, b, k)
    || (Objective(pos, a, k) == Objective(pos, b, k) && IndexSum(a, |pos|) < IndexSum(b, |pos|))
  }

  /** Moving a point never takes it farther from its centre; at the same distance its group number drops. */
  ghost predicate MovesDown(p: Position, c: seq<Position>, from: int, to: int)
    requires 0 <= from < |c| && 0 <= to < |c|
  {
    || from == to
    || SquaredDistance(c[to], p) < SquaredDistance(c[from], p)
    || (SquaredDistance(c[to], p) == SquaredDistance(c[from], p) && to < from)
  }

  lemma {:induction false} MovesAddUp(pos: seq<Position>, c: seq<Position>, g: Grouping, g': Grouping, m: nat)
    requires m <= |pos| && IsGrouping(g, |pos|, |c|) && IsGrouping(g', |pos|, |c|)
    requires forall j :: 0 <= j < |pos| ==> MovesDown(pos[j], c, g[j], g'[j])
    ensures Cost(pos, g', c, m) <= Cost(pos, g, c, m)
    ensures Cost(pos, g', c, m) == Cost(pos, g, c, m) ==> IndexSum(g', m) <= IndexSum(g, m)
    ensures Cost(pos, g', c, m) == Cost(pos, g, c, m) && g'[..m] != g[..m] ==> IndexSum(g', m) < IndexSum(g, m)
  {
    if m > 0 {
      MovesAddUp(pos, c, g, g', m - 1);
      assert MovesDown(pos[m - 1], c, g[m - 1], g'[m - 1]);
      assert g[..m] == g[..m - 1] + [g[m - 1]] && g'[..m] == g'[..m - 1] + [g'[m - 1]];
    }
  }

  /** Regrouping around the means either changes nothing or makes the grouping better. */
  lemma RegroupingDescends(pos: seq<Position>, k: nat, g: Grouping, g': Grouping)
    requires IsGrouping(g, |pos|, k) && IsGrouping(g', |pos|, k)
    requires forall j :: 0 <= j < |pos| ==> MovesDown(pos[j], Means(pos, g, k), g[j], g'[j])
    ensures Objective(pos, g', k) <= Objective(pos, g, k)
    ensures g' != g ==> Better(pos, k, g', g)
  {
    MovesAddUp(pos, Means(pos, g, k), g, g', |pos|);
    MeansAreBestCentres(pos, g', Means(pos, g, k));
    assert g[..|pos|] == g && g'[..|pos|] == g';
  }

  // ----- there are finitely many groupings

  ghost function AllGroupings(n: nat, k: nat): (all: set<Grouping>)
    ensures forall g :: g in all <==> IsGrouping(g, n, k)
  {
    if n == 0 then {[]}
    else
      var shorter := AllGroupings(n - 1, k);
      var all := set g, i | g in shorter && 0 <= i < k :: g + [i];
      assert forall g :: IsGrouping(g, n, k) ==> g == g[..n - 1] + [g[n - 1]] && g[..n - 1] in shorter;
      all
  }

  /** How many groupings are better: what every pass that changes something makes smaller. */
  ghost function Rank(pos: seq<Position>, k: nat, g: Grouping): nat
    requires IsGrouping(g, |pos|, k)
  {
    |set a | a in AllGroupings(|pos|, k) && Better(pos, k, a, g)|
  }

  lemma BetterLowersRank(pos: seq<Position>, k: nat, a: Grouping, b: Grouping)
    requires IsGrouping(a, |pos|, k) && IsGrouping(b, |pos|, k) && Better(pos, k, a, b)
    ensures Rank(pos, k, a) < Rank(pos, k, b)
  {
    var betterThanA := set x | x in AllGroupings(|pos|, k) && Better(pos, k, x, a);
    var betterThanB := set x | x in AllGroupings(|pos|, k) && Better(pos, k, x, b);
    assert a in betterThanB && a !in betterThanA;
    assert betterThanA <= betterThanB - {a};
    FiniteSets.SubsetIsNoLarger(betterThanA, betterThanB - {a});
  }
}

/** Lloyd's k-means iteration over arrays of points and centroids. */
module Lloyd {
  import opened Clustering

  /** The doubles a centroid coordinate can hold: numbers, and the 0/0 of an empty cluster. */
  datatype Double = Num(value: real) | HugeVal | NaN {

    /** The comparison `this > d`, which is false on NaN. */
    predicate Gt(d: Double) {
      match this
      case Num(v) => d.Num? && v > d.value
      case HugeVal => d.Num?
      case NaN => false
    }

    function Plus(r: real): Double {
      if Num? then Num(value + r) else this
    }

    /** Division by a member count; the sum divided is 0 when the count is. */
    function DividedBy(n: nat): Double {
      if n == 0 then NaN else if Num? then Num(value / n as real) else this
    }
  }

  datatype Point = Point(x: real, y: real, group: int)

  datatype Centroid = Centroid(x: Double, y: Double, group: int)

  function SquaredDistanceTo(c: Centroid, p: Point): Double {
    if c.x.Num? && c.y.Num? then Num(SquaredDistance(Position(c.x.value, c.y.value), Position(p.x, p.y))) else NaN
  }

  function Positions(pts: seq<Point>): (pos: seq<Position>)
    ensures |pos| == |pts| && forall j :: 0 <= j < |pts| ==> pos[j] == Position(pts[j].x, pts[j].y)
  {
    seq(|pts|, j requires 0 <= j < |pts| => Position(pts[j].x, pts[j].y))
  }

  function Groups(pts: seq<Point>): (g: Grouping)
    ensures |g| == |pts| && forall j :: 0 <= j < |pts| ==> g[j] == pts[j].group
  {
    seq(|pts|, j requires 0 <= j < |pts| => pts[j].group)
  }

  /** The centroid that cluster i gets from the grouping g: its mean, or NaN when it is empty. */
  ghost predicate IsCentroid(c: Centroid, pos: seq<Position>, g: Grouping, i: int)
    requires |g| == |pos|
  {
    if Count(g, i, |g|) == 0 then c.x.NaN? && c.y.NaN?
    else c.x == Num(Mean(pos, g, i).x) && c.y == Num(Mean(pos, g, i).y)
  }

  /** Lowest index among the nearest centroids that are numbers; none is nearer and NaN never wins. */
  ghost predicate IsNearest(p: Point, cent: seq<Centroid>, i: int) {
    && 0 <= i < |cent| && SquaredDistanceTo(cent[i], p).Num?
    && (forall l :: 0 <= l < |cent| ==> !SquaredDistanceTo(cent[i], p).Gt(SquaredDistanceTo(cent[l], p)))
    && (forall l :: 0 <= l < i && SquaredDistanceTo(cent[l], p).Num? ==>
         SquaredDistanceTo(cent[l], p).Gt(SquaredDistanceTo(cent[i], p)))
  }

  method Nearest(p: Point, cent: array<Centroid>, nCluster: nat) returns (nearest: int, d2: Double)
    requires nCluster <= cent.Length
    ensures (exists i :: 0 <= i < nCluster && SquaredDistanceTo(cent[i], p).Num?) ==>
              IsNearest(p, cent[..nCluster], nearest) && d2 == SquaredDistanceTo(cent[nearest], p)
    ensures (forall i :: 0 <= i < nCluster ==> SquaredDistanceTo(cent[i], p).NaN?) ==>
      nearest == p.group && d2 == HugeVal
  {
    d2 := HugeVal;
    nearest := p.group;
    var i := 0;
    while i < nCluster
      invariant 0 <= i <= nCluster
      invariant if d2 == HugeVal then
                  nearest == p.group && forall l :: 0 <= l < i ==> SquaredDistanceTo(cent[l], p).NaN?
                else IsNearest(p, cent[..i], nearest) && d2 == SquaredDistanceTo(cent[nearest], p)
    {
      var d := SquaredDistanceTo(cent[i], p);
      if d2.Gt(d) {
        d2, nearest := d, i;
      }
      i := i + 1;
    }
  }

  /** First half of a pass: every centroid becomes the mean of its group, counting in its group field. */
  method ComputeCentroids(pts: array<Point>, len: nat, nCluster: nat, cent: array<Centroid>, ghost pos: seq<Position>,
                          ghost g: Grouping)
    requires Holds(pts, len, pos, g) && nCluster <= cent.Length && IsGrouping(g, len, nCluster)
    modifies cent
    ensures forall i :: 0 <= i < nCluster ==> IsCentroid(cent[i], pos, g, i)
    ensures cent[nCluster..] == old(cent[nCluster..])
  {
    var i := 0;
    while i < nCluster
      invariant 0 <= i <= nCluster
      invariant forall l :: 0 <= l < i ==> cent[l] == Centroid(Num(0.0), Num(0.0), 0)
      invariant cent[nCluster..] == old(cent[nCluster..])
    {
      cent[i] := Centroid(Num(0.0), Num(0.0), 0);
      i := i + 1;
    }
    var j := 0;
    while j < len
      invariant 0 <= j <= len
      invariant forall l :: 0 <= l < nCluster ==>
        cent[l] == Centroid(Num(SumX(pos, g, l, j)), Num(SumY(pos, g, l, j)), Count(g, l, j))
      invariant cent[nCluster..] == old(cent[nCluster..])
    {
      var c := cent[pts[j].group];
      cent[pts[j].group] := Centroid(c.x.Plus(pts[j].x), c.y.Plus(pts[j].y), c.group + 1);
      j := j + 1;
    }
    i := 0;
    while i < nCluster
      invariant 0 <= i <= nCluster
      invariant forall l :: 0 <= l < i ==> IsCentroid(cent[l], pos, g, l)
      invariant forall l :: i <= l < nCluster ==>
        cent[l] == Centroid(Num(SumX(pos, g, l, len)), Num(SumY(pos, g, l, len)), Count(g, l, len))
      invariant cent[nCluster..] == old(cent[nCluster..])
    {
      cent[i] := Centroid(cent[i].x.DividedBy(cent[i].group), cent[i].y.DividedBy(cent[i].group), cent[i].group);
      i := i + 1;
    }
  }

  lemma {:induction false} MemberIsCounted(g: Grouping, j: nat, m: nat)
    requires j < m <= |g|
    ensures Count(g, g[j], m) > 0
  {
    if j < m - 1 {
      MemberIsCounted(g, j, m - 1);
    }
  }

  /** Number of points among the first m whose group differs. */
  function Moved(g: Grouping, g': Grouping, m: nat): nat
    requires m <= |g| && m <= |g'|
  {
    if m == 0 then 0 else Moved(g, g', m - 1) + if g[m - 1] != g'[m - 1] then 1 else 0
  }

  lemma {:induction false} MovedIsZero(g: Grouping, g': Grouping, m: nat)
    requires m <= |g| && m <= |g'|
    ensures Moved(g, g', m) == 0 <==> g[..m] == g'[..m]
  {
    if m > 0 {
      MovedIsZero(g, g', m - 1);
      assert g[..m] == g[..m - 1] + [g[m - 1]] && g'[..m] == g'[..m - 1] + [g'[m - 1]];
    }
  }

  lemma {:induction false} MovedDependsOnPrefix(g: Grouping, a: Grouping, b: Grouping, m: nat)
    requires m <= |g| && m <= |a| && m <= |b| && a[..m] == b[..m]
    ensures Moved(g, a, m) == Moved(g, b, m)
  {
    if m > 0 {
      assert a[m - 1] == a[..m][m - 1] == b[..m][m - 1] == b[m - 1];
      assert a[..m - 1] == a[..m][..m - 1] == b[..m][..m - 1] == b[..m - 1];
      MovedDependsOnPrefix(g, a, b, m - 1);
    }
  }

  /** A nearest centroid is never farther than the point's own, and lower when equally far. */
  lemma NearestMovesDown(p: Point, pos: seq<Position>, g: Grouping, j: nat, cent: seq<Centroid>, i: int)
    requires IsGrouping(g, |pos|, |cent|) && j < |pos| && pos[j] == Position(p.x, p.y)
    requires forall l :: 0 <= l < |cent| ==> IsCentroid(cent[l], pos, g, l)
    requires IsNearest(p, cent, i)
    ensures MovesDown(pos[j], Means(pos, g, |cent|), g[j], i)
  {
    hide Means, IsCentroid, SquaredDistance, SquaredDistanceTo;
    MemberIsCounted(g, j, |g|);
    assert IsCentroid(cent[g[j]], pos, g, g[j]) && IsCentroid(cent[i], pos, g, i);
    DistanceToCentroid(cent[g[j]], p, pos, g, g[j], |cent|);
    DistanceToCentroid(cent[i], p, pos, g, i, |cent|);
    assert !SquaredDistanceTo(cent[i], p).Gt(SquaredDistanceTo(cent[g[j]], p));
  }

  lemma DistanceToCentroid(c: Centroid, p: Point, pos: seq<Position>, g: Grouping, i: int, k: nat)
    requires |g| == |pos| && 0 <= i < k && IsCentroid(c, pos, g, i)
    ensures SquaredDistanceTo(c, p) ==
            if Count(g, i, |g|) == 0 then NaN else Num(SquaredDistance(Means(pos, g, k)[i], Position(p.x, p.y)))
  {
    hide SquaredDistance;
  }

  /** The first len points lie at `pos` and are grouped by `g`. */
  ghost predicate Holds(pts: array<Point>, len: nat, pos: seq<Position>, g: Grouping)
    reads pts
  {
    len == |pos| == |g| <= pts.Length &&
    forall j :: 0 <= j < len ==> pts[j] == Point(pos[j].x, pos[j].y, g[j])
  }

  lemma HoldsItsOwn(pts: array<Point>, len: nat)
    requires len <= pts.Length
    ensures Holds(pts, len, Positions(pts[..len]), Groups(pts[..len]))
  {}

  lemma HoldsOnlyItsOwn(pts: array<Point>, len: nat, pos: seq<Position>, g: Grouping)
    requires Holds(pts, len, pos, g)
    ensures pos == Positions(pts[..len]) && g == Groups(pts[..len])
  {}

  /** Second half of a pass: every point joins the cluster of its nearest centroid. */
  method Regroup(pts: array<Point>, len: nat, nCluster: nat, cent: array<Centroid>, ghost pos: seq<Position>,
                 ghost g: Grouping)
    returns (changed: nat, ghost g': Grouping)
    requires Holds(pts, len, pos, g) && nCluster <= cent.Length && IsGrouping(g, len, nCluster)
    requires forall i :: 0 <= i < nCluster ==> IsCentroid(cent[i], pos, g, i)
    modifies pts
    ensures Holds(pts, len, pos, g') && IsGrouping(g', len, nCluster)
    ensures forall j :: len <= j < pts.Length ==> pts[j] == old(pts[j])
    ensures forall j :: 0 <= j < len ==> IsNearest(pts[j], cent[..nCluster], g'[j])
    ensures changed == Moved(g, g', len)
  {
    hide IsCentroid, IsNearest, SquaredDistanceTo;
    changed, g' := 0, g;
    var j := 0;
    while j < len
      invariant 0 <= j <= len
      invariant Holds(pts, len, pos, g') && IsGrouping(g', len, nCluster) && g'[j..] == g[j..]
      invariant forall l :: len <= l < pts.Length ==> pts[l] == old(pts[l])
      invariant forall l :: 0 <= l < j ==> IsNearest(pts[l], cent[..nCluster], g'[l])
      invariant changed == Moved(g, g', j)
    {
      assert g'[j] == g'[j..][0] == g[j];
      var nearest := NearestToMember(pts[j], cent, nCluster, pos, g, j);
      assert IsNearest(pts[j].(group := pts[j].group), cent[..nCluster], nearest);
      assert IsNearest(pts[j].(group := nearest), cent[..nCluster], nearest);
      MovedDependsOnPrefix(g, g', g'[j := nearest], j);
      if nearest != pts[j].group {
        changed := changed + 1;
        pts[j] := pts[j].(group := nearest);
      }
      g' := g'[j := nearest];
      j := j + 1;
    }
  }

  /** For a member of some cluster the search finds a centroid that is a number. */
  method NearestToMember(p: Point, cent: array<Centroid>, nCluster: nat, ghost pos: seq<Position>, ghost g: Grouping,
                         ghost j: nat)
    returns (nearest: int)
    requires nCluster <= cent.Length && IsGrouping(g, |pos|, nCluster)
    requires forall i :: 0 <= i < nCluster ==> IsCentroid(cent[i], pos, g, i)
    requires j < |g| && p == Point(pos[j].x, pos[j].y, g[j])
    ensures 0 <= nearest < nCluster
    ensures forall group :: IsNearest(p.(group := group), cent[..nCluster], nearest)
  {
    MemberIsCounted(g, j, |g|);
    assert IsCentroid(cent[g[j]], pos, g, g[j]);
    assert SquaredDistanceTo(cent[g[j]], p).Num?;
    var d2;
    nearest, d2 := Nearest(p, cent, nCluster);
    forall group
      ensures IsNearest(p.(group := group), cent[..nCluster], nearest)
    {
      GroupDoesNotMatter(p, group, cent[..nCluster], nearest);
    }
  }

  lemma GroupDoesNotMatter(p: Point, group: int, cent: seq<Centroid>, i: int)
    requires IsNearest(p, cent, i)
    ensures IsNearest(p.(group := group), cent, i)
  {
    assert forall l :: 0 <= l < |cent| ==>
      SquaredDistanceTo(cent[l], p.(group := group)) == SquaredDistanceTo(cent[l], p);
  }

  /** One pass of the loop: recompute the centroids of `g`, then regroup the points to `g'`. */
  method Pass(pts: array<Point>, len: nat, nCluster: nat, cent: array<Centroid>, ghost pos: seq<Position>,
              ghost g: Grouping)
    returns (changed: nat, ghost g': Grouping)
    requires Holds(pts, len, pos, g) && nCluster <= cent.Length && IsGrouping(g, len, nCluster)
    modifies pts, cent
    ensures Holds(pts, len, pos, g') && IsGrouping(g', len, nCluster)
    ensures forall j :: len <= j < pts.Length ==> pts[j] == old(pts[j])
    ensures forall i :: 0 <= i < nCluster ==> IsCentroid(cent[i], pos, g, i)
    ensures forall j :: 0 <= j < len ==> IsNearest(pts[j], cent[..nCluster], g'[j])
    ensures changed == Moved(g, g', len)
    ensures changed == 0 <==> g' == g
    ensures Objective(pos, g', nCluster) <= Objective(pos, g, nCluster)
    ensures changed > 0 ==> Better(pos, nCluster, g', g) && Rank(pos, nCluster, g') < Rank(pos, nCluster, g)
  {
    hide IsCentroid, IsNearest, Objective, Moved, Means, MovesDown, Rank, Better;
    ComputeCentroids(pts, len, nCluster, cent, pos, g);
    changed, g' := Regroup(pts, len, nCluster, cent, pos, g);
    forall j | 0 <= j < len
      ensures MovesDown(pos[j], Means(pos, g, nCluster), g[j], g'[j])
    {
      NearestMovesDown(pts[j], pos, g, j, cent[..nCluster], g'[j]);
    }
    RegroupingDescends(pos, nCluster, g, g');
    MovedIsZero(g, g', len);
    assert g[..len] == g && g'[..len] == g';
    if changed > 0 {
      BetterLowersRank(pos, nCluster, g', g);
    }
  }

  /** The iteration, from a valid initial grouping until at most one point in 1024 moves. `last` is the
      grouping that the returned centroids are the means of. */
  method Lloyd(pts: array<Point>, len: nat, nCluster: nat, cent: array<Centroid>) returns (ghost last: Grouping)
    requires len <= pts.Length && nCluster <= cent.Length && IsGrouping(Groups(pts[..len]), len, nCluster)
    modifies pts, cent
    ensures IsGrouping(Groups(pts[..len]), len, nCluster) && IsGrouping(last, len, nCluster)
    ensures Positions(pts[..len]) == old(Positions(pts[..len])) && pts[len..] == old(pts[len..])
    ensures forall i :: 0 <= i < nCluster ==> IsCentroid(cent[i], Positions(pts[..len]), last, i) && cent[i].group == i
    ensures forall j :: 0 <= j < len ==> IsNearest(pts[j], cent[..nCluster], pts[j].group)
    ensures Moved(last, Groups(pts[..len]), len) <= len / 1024
    ensures len < 1024 ==> last == Groups(pts[..len])
    ensures Objective(Positions(pts[..len]), Groups(pts[..len]), nCluster)
            <= old(Objective(Positions(pts[..len]), Groups(pts[..len]), nCluster))
  {
    hide IsCentroid, IsNearest, Objective, Moved, Positions, Groups;
    ghost var pos, g := Positions(pts[..len]), Groups(pts[..len]);
    HoldsItsOwn(pts, len);
    ghost var g';
    last, g' := Iterate(pts, len, nCluster, cent, pos, g);
    LabelCentroids(cent, nCluster, pts[..], len, pos, last, g');
    HoldsOnlyItsOwn(pts, len, pos, g');
    MovedIsZero(last, g', len);
    assert last[..len] == last && g'[..len] == g';
  }

  /** The passes, until at most one point in 1024 moves. */
  method Iterate(pts: array<Point>, len: nat, nCluster: nat, cent: array<Centroid>, ghost pos: seq<Position>,
                 ghost start: Grouping)
    returns (ghost last: Grouping, ghost g: Grouping)
    requires Holds(pts, len, pos, start) && nCluster <= cent.Length && IsGrouping(start, len, nCluster)
    modifies pts, cent
    ensures Holds(pts, len, pos, g) && IsGrouping(g, len, nCluster) && IsGrouping(last, len, nCluster)
    ensures forall j :: len <= j < pts.Length ==> pts[j] == old(pts[j])
    ensures Settled(pts[..], len, nCluster, cent[..], pos, last, g)
    ensures Objective(pos, g, nCluster) <= Objective(pos, start, nCluster)
  {
    last, g := start, start;
    var looping := true;
    while looping
      invariant Holds(pts, len, pos, g) && IsGrouping(g, len, nCluster) && IsGrouping(last, len, nCluster)
      invariant forall j :: len <= j < pts.Length ==> pts[j] == old(pts[j])
      invariant Objective(pos, g, nCluster) <= Objective(pos, start, nCluster)
      invariant !looping ==> Settled(pts[..], len, nCluster, cent[..], pos, last, g)
      decreases looping, Rank(pos, nCluster, g)
    {
      last := g;
      var changed;
      changed, g := Pass(pts, len, nCluster, cent, pos, last);
      looping := changed > len / 1024;
    }
  }

  /** How the loop leaves points and centroids. */
  ghost predicate Settled(pts: seq<Point>, len: nat, nCluster: nat, cent: seq<Centroid>, pos: seq<Position>,
                          last: Grouping, g: Grouping)
    requires len == |pos| == |last| == |g| <= |pts| && nCluster <= |cent|
  {
    && (forall i :: 0 <= i < nCluster ==> IsCentroid(cent[i], pos, last, i))
    && (forall j :: 0 <= j < len ==> IsNearest(pts[j], cent[..nCluster], g[j]))
    && Moved(last, g, len) <= len / 1024
  }

  /** Finally the group fields of the centroids, used as counters so far, become their labels. */
  method LabelCentroids(cent: array<Centroid>, nCluster: nat, ghost pts: seq<Point>, ghost len: nat,
                        ghost pos: seq<Position>, ghost last: Grouping, ghost g: Grouping)
    requires len == |pos| == |last| == |g| <= |pts| && nCluster <= cent.Length
    requires Settled(pts, len, nCluster, cent[..], pos, last, g)
    modifies cent
    ensures Settled(pts, len, nCluster, cent[..], pos, last, g)
    ensures forall i :: 0 <= i < nCluster ==> cent[i].group == i
  {
    var i := 0;
    while i < nCluster
      invariant 0 <= i <= nCluster
      invariant Settled(pts, len, nCluster, cent[..], pos, last, g)
      invariant forall l :: 0 <= l < i ==> cent[l].group == l
    {
      ghost var before := cent[..];
      cent[i] := cent[i].(group := i);
      LabelsDoNotMatter(pts, len, nCluster, before, cent[..], pos, last, g);
      i := i + 1;
    }
  }

  lemma LabelsDoNotMatter(pts: seq<Point>, len: nat, nCluster: nat, a: seq<Centroid>, b: seq<Centroid>,
                          pos: seq<Position>, last: Grouping, g: Grouping)
    requires len == |pos| == |last| == |g| <= |pts| && nCluster <= |a| == |b|
    requires Settled(pts, len, nCluster, a, pos, last, g)
    requires forall i :: 0 <= i < |a| ==> a[i].x == b[i].x && a[i].y == b[i].y
    ensures Settled(pts, len, nCluster, b, pos, last, g)
  {
    forall j | 0 <= j < len
      ensures IsNearest(pts[j], b[..nCluster], g[j])
    {
      var p := pts[j];
      assert IsNearest(p, a[..nCluster], g[j]);
      assert forall i :: 0 <= i < nCluster ==>
        SquaredDistanceTo(b[..nCluster][i], p) == SquaredDistanceTo(a[..nCluster][i], p);
    }
  }
}
