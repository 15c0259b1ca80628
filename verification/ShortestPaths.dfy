/** Costs of walks in a weighted directed graph, independent of any algorithm. */
module Graphs {

  /** An exact cost: a real number, or the initial "infinite" label. */
  datatype Cost = Finite(amount: real) | Infinite {

    predicate Lt(c: Cost) {
      Finite? && (c.Infinite? || amount < c.amount)
    }

    predicate Le(c: Cost) {
      !c.Lt(this)
    }

    function Plus(c: Cost): Cost {
      if Finite? && c.Finite? then Finite(amount + c.amount) else Infinite
    }
  }

  const ZERO := Finite(0.0)

  datatype Neighbor = Neighbor(target: int, weight: Cost)

  type AdjacencyList = seq<seq<Neighbor>>

  predicate IsVertex(adj: AdjacencyList, v: int) {
    0 <= v < |adj|
  }

  /** Every edge ends in a vertex and has a non-negative (possibly infinite) weight. */
  ghost predicate WellFormed(adj: AdjacencyList) {
    forall u, k :: 0 <= u < |adj| && 0 <= k < |adj[u]| ==>
      IsVertex(adj, adj[u][k].target) && ZERO.Le(adj[u][k].weight)
  }

  datatype Edge = Edge(from: int, to: int, weight: Cost)

  ghost predicate IsEdge(adj: AdjacencyList, e: Edge) {
    IsVertex(adj, e.from) && Neighbor(e.to, e.weight) in adj[e.from]
  }

  /** A walk is the sequence of its edges, so parallel edges stay distinct. */
  ghost predicate IsWalk(adj: AdjacencyList, s: int, walk: seq<Edge>, t: int) {
    if walk == [] then s == t
    else
      var last := walk[|walk| - 1];
      last.to == t && IsEdge(adj, last) && IsWalk(adj, s, walk[..|walk| - 1], last.from)
  }

  /** The cost of a walk, added up edge by edge from the source. */
  ghost function WalkCost(walk: seq<Edge>): Cost {
    if walk == [] then ZERO
    else WalkCost(walk[..|walk| - 1]).Plus(walk[|walk| - 1].weight)
  }

  ghost predicate Reachable(adj: AdjacencyList, s: int, t: int) {
    exists walk :: IsWalk(adj, s, walk, t) && WalkCost(walk).Finite?
  }

  /** `d` is the least cost of any walk from s to t: a lower bound of all of them, and attained
      by one of them unless it is infinite. */
  ghost predicate IsDistance(adj: AdjacencyList, s: int, t: int, d: Cost) {
    && (forall walk :: IsWalk(adj, s, walk, t) ==> d.Le(WalkCost(walk)))
    && (d.Finite? ==> exists walk :: IsWalk(adj, s, walk, t) && WalkCost(walk) == d)
  }

  /** A label is infinite exactly on the vertices that no walk of finite cost reaches. */
  lemma InfiniteIffUnreachable(adj: AdjacencyList, s: int, t: int, d: Cost)
    requires IsDistance(adj, s, t, d)
    ensures d.Infinite? <==> !Reachable(adj, s, t)
  {
    if Reachable(adj, s, t) {
      var walk :| IsWalk(adj, s, walk, t) && WalkCost(walk).Finite?;
      assert d.Le(WalkCost(walk));
    }
  }
}

/** Dijkstra's algorithm with decrease-key by erase and insert on an ordered set. */
module Dijkstra {
  import FiniteSets
  import opened Graphs

  /** A queue entry; entries are ordered by label first, then by vertex. */
  type Entry = (Cost, int)

  predicate Before(a: Entry, b: Entry) {
    a.0.Lt(b.0) || (a.0 == b.0 && a.1 <= b.1)
  }

  lemma {:induction false} LeastEntryExists(queue: set<Entry>) returns (least: Entry)
    requires queue != {}
    ensures least in queue && forall e :: e in queue ==> Before(least, e)
  {
    var e :| e in queue;
    least := e;
    var rest := queue - {e};
    if rest != {} {
      var m := LeastEntryExists(rest);
      least := if Before(e, m) then e else m;
      assert queue == rest + {e};
    }
  }

  /** What `begin()` of the ordered set denotes. */
  method First(queue: set<Entry>) returns (least: Entry)
    requires queue != {}
    ensures least in queue && forall e :: e in queue ==> Before(least, e)
  {
    ghost var m := LeastEntryExists(queue);
    least :| least in queue && forall e :: e in queue ==> Before(least, e);
  }

  /** The labels and predecessors of one run, with the vertices settled so far in settling order. */
  datatype Labels = Labels(distance: seq<Cost>, previous: seq<int>, settled: seq<int>)

  ghost predicate Settled(l: Labels, v: int) {
    v in l.settled
  }

  /** The queue holds the current label of every labelled, unsettled vertex and nothing else. */
  ghost predicate NoStaleEntry(adj: AdjacencyList, l: Labels, queue: set<Entry>)
    requires |l.distance| == |adj|
  {
    && (forall e :: e in queue ==>
         IsVertex(adj, e.1) && l.distance[e.1] == e.0 && e.0.Finite? && !Settled(l, e.1))
    && (forall v :: IsVertex(adj, v) && l.distance[v].Finite? && !Settled(l, v) ==>
         (l.distance[v], v) in queue)
  }

  /** Some edge from u to v makes up exactly the difference of their labels. */
  ghost predicate Tight(adj: AdjacencyList, distance: seq<Cost>, u: int, v: int)
    requires |distance| == |adj|
  {
    && IsVertex(adj, u) && IsVertex(adj, v)
    && exists w :: IsEdge(adj, Edge(u, v, w)) && distance[u].Plus(w) == distance[v]
  }

  /** The label of v is explained by its predecessor: `previous[v]` is settled, was settled before v
      was, and an edge leads from it to v whose weight makes up the label. */
  ghost predicate Explained(adj: AdjacencyList, s: int, l: Labels, v: int)
    requires |l.distance| == |l.previous| == |adj| && IsVertex(adj, v)
  {
    var p := l.previous[v];
    if v == s then p == -1 && l.distance[v] == ZERO
    else if l.distance[v].Infinite? then p == -1
    else
      && IsVertex(adj, p)
      && Settled(l, p)
      && (Settled(l, v) ==> Rank(l.settled, p) < Rank(l.settled, v))
      && Tight(adj, l.distance, p, v)
  }

  /** Position of the first occurrence of v. */
  ghost function Rank(order: seq<int>, v: int): (i: nat)
    requires v in order
    ensures i < |order| && order[i] == v
  {
    if order[0] == v then 0 else 1 + Rank(order[1..], v)
  }

  lemma {:induction false} RankOfPrefix(order: seq<int>, u: int, v: int)
    requires v in order
    ensures v in order + [u] && Rank(order + [u], v) == Rank(order, v)
  {
    assert (order + [u])[0] == order[0];
    if order[0] != v {
      assert (order + [u])[1..] == order[1..] + [u];
      RankOfPrefix(order[1..], u, v);
    }
  }

  lemma {:induction false} RankOfLast(order: seq<int>, u: int)
    requires u !in order
    ensures Rank(order + [u], u) == |order|
  {
    if order != [] {
      assert (order + [u])[0] == order[0];
      assert (order + [u])[1..] == order[1..] + [u];
      RankOfLast(order[1..], u);
    }
  }

  /** Edge k of u does not improve on the label of its target. */
  ghost predicate Relaxed(adj: AdjacencyList, l: Labels, u: int, k: int)
    requires |l.distance| == |adj| && WellFormed(adj) && IsVertex(adj, u) && 0 <= k < |adj[u]|
  {
    l.distance[adj[u][k].target].Le(l.distance[u].Plus(adj[u][k].weight))
  }

  /** What every step of the algorithm keeps. */
  ghost predicate Invariant(adj: AdjacencyList, s: int, l: Labels, queue: set<Entry>) {
    && |l.distance| == |l.previous| == |adj| && IsVertex(adj, s)
    && NonNegative(adj, l)
    && SettledOnce(adj, l)
    && SettledFirst(adj, l)
    && AllExplained(adj, s, l)
    && NoStaleEntry(adj, l, queue)
  }

  ghost predicate NonNegative(adj: AdjacencyList, l: Labels)
    requires |l.distance| == |adj|
  {
    forall v :: IsVertex(adj, v) ==> ZERO.Le(l.distance[v])
  }

  ghost predicate SettledOnce(adj: AdjacencyList, l: Labels)
    requires |l.distance| == |adj|
  {
    && (forall v :: Settled(l, v) ==> IsVertex(adj, v) && l.distance[v].Finite?)
    && (forall i, j :: 0 <= i < j < |l.settled| ==> l.settled[i] != l.settled[j])
  }

  /** No unsettled vertex has a smaller label than a settled one. */
  ghost predicate SettledFirst(adj: AdjacencyList, l: Labels)
    requires |l.distance| == |adj|
  {
    forall u, v :: IsVertex(adj, u) && Settled(l, u) && IsVertex(adj, v) && !Settled(l, v) ==>
      l.distance[u].Le(l.distance[v])
  }

  ghost predicate AllExplained(adj: AdjacencyList, s: int, l: Labels)
    requires |l.distance| == |l.previous| == |adj|
  {
    forall v :: IsVertex(adj, v) ==> Explained(adj, s, l, v)
  }

  /** Every edge of every settled vertex is relaxed, except that of u only the first k edges are. */
  ghost predicate RelaxedExcept(adj: AdjacencyList, l: Labels, u: int, k: int)
    requires WellFormed(adj) && |l.distance| == |adj|
  {
    forall x, i :: Settled(l, x) && IsVertex(adj, x) && 0 <= i < (if x == u then k else |adj[x]|) && i < |adj[x]| ==>
      Relaxed(adj, l, x, i)
  }

  /** u is settled and no settled vertex has a larger label. */
  ghost predicate LastSettled(adj: AdjacencyList, l: Labels, u: int)
    requires |l.distance| == |adj|
  {
    Settled(l, u) && IsVertex(adj, u) &&
    forall x :: Settled(l, x) && IsVertex(adj, x) ==> l.distance[x].Le(l.distance[u])
  }

  ghost function Below(n: nat): (r: set<int>)
    ensures |r| == n && forall v :: v in r <==> 0 <= v < n
  {
    if n == 0 then {} else Below(n - 1) + {n - 1}
  }

  lemma DistinctVerticesFit(adj: AdjacencyList, order: seq<int>)
    requires forall i :: 0 <= i < |order| ==> IsVertex(adj, order[i])
    requires forall i, j :: 0 <= i < j < |order| ==> order[i] != order[j]
    ensures |order| <= |adj|
  {
    SizeOfDistinct(order);
    var used := set v | v in order;
    FiniteSets.SubsetIsNoLarger(used, Below(|adj|));
  }

  lemma {:induction false} SizeOfDistinct(order: seq<int>)
    requires forall i, j :: 0 <= i < j < |order| ==> order[i] != order[j]
    ensures |(set v | v in order)| == |order|
  {
    if order != [] {
      var last := |order| - 1;
      SizeOfDistinct(order[..last]);
      assert (set v | v in order) == (set v | v in order[..last]) + {order[last]};
    }
  }

  /** Taking the least entry out of the queue settles its vertex. */
  lemma SettleStep(adj: AdjacencyList, s: int, l: Labels, queue: set<Entry>, least: Entry, l': Labels)
    requires WellFormed(adj) && Invariant(adj, s, l, queue)
    requires RelaxedExcept(adj, l, -1, 0)
    requires least in queue && forall e :: e in queue ==> Before(least, e)
    requires l' == l.(settled := l.settled + [least.1])
    ensures Invariant(adj, s, l', queue - {least})
    ensures LastSettled(adj, l', least.1)
    ensures RelaxedExcept(adj, l', least.1, 0)
    ensures IsVertex(adj, least.1) && l.distance[least.1] == least.0
    ensures |l'.settled| <= |adj|
  {
    hide Explained, WellFormed;
    var u := least.1;
    assert forall v :: Settled(l', v) <==> Settled(l, v) || v == u;
    assert SettledOnce(adj, l');
    DistinctVerticesFit(adj, l'.settled);
    assert AllExplained(adj, s, l') by {
      forall v | IsVertex(adj, v)
        ensures Explained(adj, s, l', v)
      {
        StillExplained(adj, s, l, u, v);
      }
    }
    LeastIsNearest(adj, l, queue, least);
    SettledGrows(adj, l, u, l');
  }

  lemma LeastIsNearest(adj: AdjacencyList, l: Labels, queue: set<Entry>, least: Entry)
    requires |l.distance| == |adj| && NoStaleEntry(adj, l, queue)
    requires least in queue && forall e :: e in queue ==> Before(least, e)
    ensures IsVertex(adj, least.1) && !Settled(l, least.1) && l.distance[least.1] == least.0
    ensures forall v :: IsVertex(adj, v) && !Settled(l, v) ==> least.0.Le(l.distance[v])
  {
    forall v | IsVertex(adj, v) && !Settled(l, v)
      ensures least.0.Le(l.distance[v])
    {
      if l.distance[v].Finite? {
        assert Before(least, (l.distance[v], v));
      }
    }
  }

  lemma SettledGrows(adj: AdjacencyList, l: Labels, u: int, l': Labels)
    requires WellFormed(adj) && |l.distance| == |adj| && SettledFirst(adj, l) && RelaxedExcept(adj, l, -1, 0)
    requires IsVertex(adj, u) && !Settled(l, u)
    requires forall v :: IsVertex(adj, v) && !Settled(l, v) ==> l.distance[u].Le(l.distance[v])
    requires l' == l.(settled := l.settled + [u])
    ensures SettledFirst(adj, l') && LastSettled(adj, l', u) && RelaxedExcept(adj, l', u, 0)
  {
    assert forall v :: Settled(l', v) <==> Settled(l, v) || v == u;
    forall x, i | Settled(l', x) && IsVertex(adj, x) && 0 <= i < (if x == u then 0 else |adj[x]|) && i < |adj[x]|
      ensures Relaxed(adj, l', x, i)
    {
      assert Relaxed(adj, l, x, i);
    }
  }

  lemma StillExplained(adj: AdjacencyList, s: int, l: Labels, u: int, v: int)
    requires |l.distance| == |l.previous| == |adj| && IsVertex(adj, v)
    requires Explained(adj, s, l, v) && u !in l.settled
    ensures Explained(adj, s, l.(settled := l.settled + [u]), v)
  {
    if v != s && l.distance[v].Finite? {
      RankOfPrefix(l.settled, u, l.previous[v]);
      if v in l.settled {
        RankOfPrefix(l.settled, u, v);
      } else if v == u {
        RankOfLast(l.settled, u);
      }
    }
  }

  /** Edge k of u, the vertex just settled, improves on the label of its target: the labels and the
      queue before and after. */
  ghost predicate Improves(adj: AdjacencyList, l: Labels, queue: set<Entry>, u: int, k: int, l': Labels,
                           queue': set<Entry>)
    requires |l.distance| == |l.previous| == |adj| && WellFormed(adj) && IsVertex(adj, u) && 0 <= k < |adj[u]|
  {
    var v := adj[u][k].target;
    var through := l.distance[u].Plus(adj[u][k].weight);
    && through.Lt(l.distance[v])
    && l' == l.(distance := l.distance[v := through], previous := l.previous[v := u])
    && queue' == queue - {(l.distance[v], v)} + {(through, v)}
  }

  /** The target is unsettled whenever the edge improves on it, and exchanging the target's entry
      keeps the queue free of stale entries. */
  lemma ImproveStep(adj: AdjacencyList, s: int, l: Labels, queue: set<Entry>, u: int, k: int, l': Labels,
                    queue': set<Entry>)
    requires WellFormed(adj) && Invariant(adj, s, l, queue)
    requires LastSettled(adj, l, u) && 0 <= k < |adj[u]| && RelaxedExcept(adj, l, u, k)
    requires Improves(adj, l, queue, u, k, l', queue')
    ensures !Settled(l, adj[u][k].target)
    ensures Invariant(adj, s, l', queue')
    ensures LastSettled(adj, l', u) && RelaxedExcept(adj, l', u, k + 1)
  {
    hide AllExplained, Explained, RelaxedExcept, NoStaleEntry, WellFormed;
    TargetIsUnsettled(adj, s, l, queue, u, k, l', queue');
    ImprovedIsExplained(adj, s, l, queue, u, k, l', queue');
    ImprovedStaysRelaxed(adj, l, queue, u, k, l', queue');
    ExchangeKeepsFresh(adj, l, queue, u, k, l', queue');
    assert l'.settled == l.settled && forall x :: Settled(l, x) ==> l'.distance[x] == l.distance[x];
    assert SettledFirst(adj, l') by {
      forall x, y | Settled(l', x) && IsVertex(adj, x) && IsVertex(adj, y) && !Settled(l', y)
        ensures l'.distance[x].Le(l'.distance[y])
      {
        assert Settled(l, x) && !Settled(l, y);
        assert l.distance[x].Le(l.distance[u]);
      }
    }
  }

  lemma TargetIsUnsettled(adj: AdjacencyList, s: int, l: Labels, queue: set<Entry>, u: int, k: int, l': Labels,
                          queue': set<Entry>)
    requires WellFormed(adj) && Invariant(adj, s, l, queue)
    requires LastSettled(adj, l, u) && 0 <= k < |adj[u]|
    requires Improves(adj, l, queue, u, k, l', queue')
    ensures var v := adj[u][k].target; IsVertex(adj, v) && !Settled(l, v) && v != s
    ensures ZERO.Le(l'.distance[adj[u][k].target]) && l.distance[u].Le(l'.distance[adj[u][k].target])
    ensures l'.distance[adj[u][k].target].Finite?
  {
    var v := adj[u][k].target;
    assert IsVertex(adj, v) && ZERO.Le(adj[u][k].weight);
    assert ZERO.Le(l.distance[u]);
    assert Explained(adj, s, l, s);
  }

  lemma ExchangeKeepsFresh(adj: AdjacencyList, l: Labels, queue: set<Entry>, u: int, k: int, l': Labels,
                           queue': set<Entry>)
    requires |l.distance| == |l.previous| == |adj| && NoStaleEntry(adj, l, queue)
    requires WellFormed(adj) && IsVertex(adj, u) && 0 <= k < |adj[u]|
    requires Improves(adj, l, queue, u, k, l', queue')
    requires !Settled(l, adj[u][k].target)
    ensures NoStaleEntry(adj, l', queue')
  {
    var v := adj[u][k].target;
    assert IsVertex(adj, v);
    assert l'.distance[v].Finite?;
    forall x | IsVertex(adj, x) && l'.distance[x].Finite? && !Settled(l', x)
      ensures (l'.distance[x], x) in queue'
    {
      if x != v {
        assert (l.distance[x], x) in queue;
      }
    }
  }

  lemma ImprovedIsExplained(adj: AdjacencyList, s: int, l: Labels, queue: set<Entry>, u: int, k: int, l': Labels,
                            queue': set<Entry>)
    requires WellFormed(adj) && |l.distance| == |l.previous| == |adj| && AllExplained(adj, s, l)
    requires IsVertex(adj, u) && Settled(l, u) && 0 <= k < |adj[u]|
    requires Improves(adj, l, queue, u, k, l', queue')
    requires var v := adj[u][k].target; !Settled(l, v) && v != s
    ensures AllExplained(adj, s, l')
  {
    var v, w := adj[u][k].target, adj[u][k].weight;
    forall x | IsVertex(adj, x)
      ensures Explained(adj, s, l', x)
    {
      assert Explained(adj, s, l, x);
      if x == v {
        assert IsEdge(adj, Edge(u, v, w));
      } else if x != s && l.distance[x].Finite? {
        var w' :| IsEdge(adj, Edge(l.previous[x], x, w')) && l.distance[l.previous[x]].Plus(w') == l.distance[x];
        assert l'.previous[x] == l.previous[x] && l.previous[x] != v;
      }
    }
  }

  lemma ImprovedStaysRelaxed(adj: AdjacencyList, l: Labels, queue: set<Entry>, u: int, k: int, l': Labels,
                             queue': set<Entry>)
    requires WellFormed(adj) && |l.distance| == |l.previous| == |adj|
    requires LastSettled(adj, l, u) && 0 <= k < |adj[u]| && RelaxedExcept(adj, l, u, k)
    requires Improves(adj, l, queue, u, k, l', queue')
    requires !Settled(l, adj[u][k].target)
    ensures LastSettled(adj, l', u) && RelaxedExcept(adj, l', u, k + 1)
  {
    var v := adj[u][k].target;
    forall x, i | Settled(l', x) && IsVertex(adj, x) && 0 <= i < (if x == u then k + 1 else |adj[x]|) && i < |adj[x]|
      ensures Relaxed(adj, l', x, i)
    {
      assert Settled(l, x) && x != v;
      assert x != u || i < k ==> Relaxed(adj, l, x, i);
    }
  }

  /** The state in which the main loop stops: everything labelled is settled and relaxed. */
  ghost predicate Finished(adj: AdjacencyList, s: int, l: Labels)
    requires WellFormed(adj)
  {
    Invariant(adj, s, l, {}) && RelaxedExcept(adj, l, -1, 0)
  }

  /** No walk is cheaper than the label of its end. */
  lemma {:induction false} LabelsAreLowerBounds(adj: AdjacencyList, s: int, l: Labels, walk: seq<Edge>, t: int)
    requires WellFormed(adj) && Finished(adj, s, l) && IsWalk(adj, s, walk, t)
    ensures IsVertex(adj, t) && l.distance[t].Le(WalkCost(walk))
    decreases |walk|
  {
    if walk == [] {
      assert Explained(adj, s, l, s);
    } else {
      var last := walk[|walk| - 1];
      var prefix := walk[..|walk| - 1];
      LabelsAreLowerBounds(adj, s, l, prefix, last.from);
      hide IsWalk, WalkCost, Finished;
      EdgeIsRelaxed(adj, s, l, last);
      CostOfExtended(walk);
      LowerThrough(l.distance[last.from], WalkCost(prefix), last.weight, l.distance[t]);
    }
  }

  lemma CostOfExtended(walk: seq<Edge>)
    requires walk != []
    ensures WalkCost(walk) == WalkCost(walk[..|walk| - 1]).Plus(walk[|walk| - 1].weight)
  {}

  lemma LowerThrough(d: Cost, cost: Cost, weight: Cost, bound: Cost)
    requires d.Le(cost) && bound.Le(d.Plus(weight))
    ensures bound.Le(cost.Plus(weight))
  {}

  /** At the end no edge improves on a label. */
  lemma EdgeIsRelaxed(adj: AdjacencyList, s: int, l: Labels, e: Edge)
    requires WellFormed(adj) && Finished(adj, s, l) && IsEdge(adj, e)
    ensures IsVertex(adj, e.to) && l.distance[e.to].Le(l.distance[e.from].Plus(e.weight))
  {
    hide AllExplained, SettledFirst;
    var k :| 0 <= k < |adj[e.from]| && adj[e.from][k] == Neighbor(e.to, e.weight);
    assert IsVertex(adj, adj[e.from][k].target);
    if l.distance[e.from].Finite? {
      assert (l.distance[e.from], e.from) !in {};
      assert Settled(l, e.from);
      assert Relaxed(adj, l, e.from, k);
    }
  }

  /** Following predecessors back from a labelled vertex spells out a walk of exactly its label's cost. */
  lemma {:induction false} LabelsAreAttained(adj: AdjacencyList, s: int, l: Labels, t: int) returns (walk: seq<Edge>)
    requires WellFormed(adj) && Finished(adj, s, l) && IsVertex(adj, t) && l.distance[t].Finite?
    ensures IsWalk(adj, s, walk, t) && WalkCost(walk) == l.distance[t]
    decreases if t in l.settled then Rank(l.settled, t) else |l.settled|
  {
    assert Explained(adj, s, l, t);
    if t == s {
      walk := [];
    } else {
      var p := l.previous[t];
      var w :| IsEdge(adj, Edge(p, t, w)) && l.distance[p].Plus(w) == l.distance[t];
      var prefix := LabelsAreAttained(adj, s, l, p);
      walk := prefix + [Edge(p, t, w)];
      assert walk[..|walk| - 1] == prefix;
    }
  }

  lemma LabelsAreDistances(adj: AdjacencyList, s: int, l: Labels)
    requires WellFormed(adj) && Finished(adj, s, l)
    ensures forall t :: IsVertex(adj, t) ==> IsDistance(adj, s, t, l.distance[t])
  {
    forall t | IsVertex(adj, t)
      ensures IsDistance(adj, s, t, l.distance[t])
    {
      forall walk | IsWalk(adj, s, walk, t)
        ensures l.distance[t].Le(WalkCost(walk))
      {
        LabelsAreLowerBounds(adj, s, l, walk, t);
      }
      if l.distance[t].Finite? {
        var walk := LabelsAreAttained(adj, s, l, t);
      }
    }
  }

  lemma NoImprovement(adj: AdjacencyList, l: Labels, u: int, k: int)
    requires WellFormed(adj) && |l.distance| == |adj| && IsVertex(adj, u) && 0 <= k < |adj[u]|
    requires RelaxedExcept(adj, l, u, k) && Relaxed(adj, l, u, k)
    ensures RelaxedExcept(adj, l, u, k + 1)
  {
    forall x, i | Settled(l, x) && IsVertex(adj, x) && 0 <= i < (if x == u then k + 1 else |adj[x]|) && i < |adj[x]|
      ensures Relaxed(adj, l, x, i)
    {
      assert x != u || i < k ==> Relaxed(adj, l, x, i);
    }
  }

  lemma EveryEdgeIsRelaxed(adj: AdjacencyList, l: Labels, u: int)
    requires WellFormed(adj) && |l.distance| == |adj| && IsVertex(adj, u)
    requires RelaxedExcept(adj, l, u, |adj[u]|)
    ensures RelaxedExcept(adj, l, -1, 0)
  {
    forall x, i | Settled(l, x) && IsVertex(adj, x) && 0 <= i < |adj[x]|
      ensures Relaxed(adj, l, x, i)
    {
      assert 0 <= i < (if x == u then |adj[u]| else |adj[x]|);
    }
  }

  lemma InitialLabels(adj: AdjacencyList, s: int, l: Labels)
    requires WellFormed(adj) && IsVertex(adj, s)
    requires l == Labels(seq(|adj|, _ => Infinite)[s := ZERO], seq(|adj|, _ => -1), [])
    ensures Invariant(adj, s, l, {(ZERO, s)}) && RelaxedExcept(adj, l, -1, 0)
  {
    assert forall v :: IsVertex(adj, v) ==> Explained(adj, s, l, v);
  }

  /** Computes the label and the predecessor of every vertex. `settled` lists the vertices in the
      order in which the loop took them out of the queue. */
  method DijkstraComputePaths(source: int, adj: AdjacencyList)
    returns (minDistance: seq<Cost>, previous: seq<int>, ghost settled: seq<int>)
    requires WellFormed(adj) && IsVertex(adj, source)
    ensures |minDistance| == |previous| == |adj|
    ensures forall v :: IsVertex(adj, v) ==> IsDistance(adj, source, v, minDistance[v])
    ensures Finished(adj, source, Labels(minDistance, previous, settled))
  {
    hide NonNegative, SettledOnce, SettledFirst, AllExplained, NoStaleEntry, RelaxedExcept, LastSettled, IsDistance;
    var n := |adj|;
    minDistance := seq(n, _ => Infinite);
    minDistance := minDistance[source := ZERO];
    previous := seq(n, _ => -1);
    var queue: set<Entry> := {(minDistance[source], source)};
    settled := [];
    ghost var l := Labels(minDistance, previous, settled);
    InitialLabels(adj, source, l);
    while queue != {}
      invariant l == Labels(minDistance, previous, settled) && |settled| <= n
      invariant Invariant(adj, source, l, queue) && RelaxedExcept(adj, l, -1, 0)
      decreases n - |settled|
    {
      var least := First(queue);
      var dist, u := least.0, least.1;
      SettleStep(adj, source, l, queue, least, l.(settled := l.settled + [u]));
      queue := queue - {least};
      settled := settled + [u];
      l := l.(settled := settled);
      var neighbors := adj[u];
      var k := 0;
      while k < |neighbors|
        invariant 0 <= k <= |neighbors| && l == Labels(minDistance, previous, settled)
        invariant Invariant(adj, source, l, queue)
        invariant LastSettled(adj, l, u) && minDistance[u] == dist && RelaxedExcept(adj, l, u, k)
      {
        var v, weight := neighbors[k].target, neighbors[k].weight;
        var distanceThroughU := dist.Plus(weight);
        assert IsVertex(adj, v);
        if distanceThroughU.Lt(minDistance[v]) {
          ghost var l0, queue0 := l, queue;
          queue := queue - {(minDistance[v], v)};
          minDistance := minDistance[v := distanceThroughU];
          previous := previous[v := u];
          queue := queue + {(minDistance[v], v)};
          l := Labels(minDistance, previous, settled);
          ImproveStep(adj, source, l0, queue0, u, k, l, queue);
        } else {
          NoImprovement(adj, l, u, k);
        }
        k := k + 1;
      }
      EveryEdgeIsRelaxed(adj, l, u);
    }
    LabelsAreDistances(adj, source, l);
  }

  /** Consecutive vertices of the path are joined by edges whose weights add up to the labels. */
  ghost predicate IsTightPath(adj: AdjacencyList, distance: seq<Cost>, path: seq<int>)
    requires |distance| == |adj|
  {
    && (forall i :: 0 <= i < |path| ==> IsVertex(adj, path[i]))
    && forall i {:trigger path[i]} :: 1 <= i < |path| ==> Tight(adj, distance, path[i - 1], path[i])
  }

  /** The vertices that a walk of edges from s visits, in order. */
  ghost function Visited(s: int, walk: seq<Edge>): seq<int> {
    if walk == [] then [s] else Visited(s, walk[..|walk| - 1]) + [walk[|walk| - 1].to]
  }

  /** A tight path from the source is a real walk, and its cost is the label of its last vertex. */
  lemma {:induction false} TightPathIsShortest(adj: AdjacencyList, s: int, distance: seq<Cost>, path: seq<int>)
    returns (walk: seq<Edge>)
    requires |distance| == |adj| && path != [] && IsTightPath(adj, distance, path)
    requires path[0] == s && distance[s] == ZERO
    ensures Visited(s, walk) == path && IsWalk(adj, s, walk, path[|path| - 1])
    ensures WalkCost(walk) == distance[path[|path| - 1]]
    decreases |path|
  {
    hide Tight, IsTightPath, IsWalk, WalkCost, Visited;
    if |path| == 1 {
      walk := EmptyWalk(adj, s, distance, path);
    } else {
      var last := |path| - 1;
      TightPrefix(adj, distance, path);
      var prefix := TightPathIsShortest(adj, s, distance, path[..last]);
      walk := ExtendWalk(adj, s, distance, prefix, path[last - 1], path[last]);
      SplitLast(path);
    }
  }

  lemma EmptyWalk(adj: AdjacencyList, s: int, distance: seq<Cost>, path: seq<int>) returns (walk: seq<Edge>)
    requires |distance| == |adj| && |path| == 1 && IsTightPath(adj, distance, path)
    requires path[0] == s && distance[s] == ZERO
    ensures Visited(s, walk) == path && IsWalk(adj, s, walk, s) && WalkCost(walk) == ZERO
  {
    walk := [];
  }

  lemma SplitLast(path: seq<int>)
    requires path != []
    ensures path == path[..|path| - 1] + [path[|path| - 1]]
  {}

  lemma TightPrefix(adj: AdjacencyList, distance: seq<Cost>, path: seq<int>)
    requires |distance| == |adj| && |path| > 1 && IsTightPath(adj, distance, path)
    ensures IsTightPath(adj, distance, path[..|path| - 1])
    ensures Tight(adj, distance, path[|path| - 2], path[|path| - 1])
    ensures path[..|path| - 1][0] == path[0]
  {
    hide Tight;
  }

  lemma ExtendWalk(adj: AdjacencyList, s: int, distance: seq<Cost>, prefix: seq<Edge>, u: int, v: int)
    returns (walk: seq<Edge>)
    requires |distance| == |adj| && Tight(adj, distance, u, v)
    requires IsWalk(adj, s, prefix, u) && WalkCost(prefix) == distance[u]
    ensures IsWalk(adj, s, walk, v) && WalkCost(walk) == distance[v]
    ensures Visited(s, walk) == Visited(s, prefix) + [v]
  {
    var w :| IsEdge(adj, Edge(u, v, w)) && distance[u].Plus(w) == distance[v];
    walk := prefix + [Edge(u, v, w)];
    assert walk[..|walk| - 1] == prefix;
  }

  lemma PushFront(adj: AdjacencyList, distance: seq<Cost>, v: int, path: seq<int>)
    requires |distance| == |adj| && IsTightPath(adj, distance, path)
    requires IsVertex(adj, v) && (path != [] ==> Tight(adj, distance, v, path[0]))
    ensures IsTightPath(adj, distance, [v] + path)
  {
    hide Tight;
    var longer := [v] + path;
    forall i {:trigger longer[i]} | 1 <= i < |longer|
      ensures Tight(adj, distance, longer[i - 1], longer[i])
    {
      var j := i - 1;
      assert longer[i] == path[j];
      assert longer[j] == if j == 0 then v else path[j - 1];
      assert j >= 1 ==> Tight(adj, distance, path[j - 1], path[j]);
    }
  }

  /** The path built so far leads tightly from v's successor to the vertex asked for. */
  ghost predicate Tracing(adj: AdjacencyList, source: int, l: Labels, vertex: int, v: int, path: seq<int>)
    requires |l.distance| == |l.previous| == |adj|
  {
    && (v == -1 || IsVertex(adj, v))
    && IsTightPath(adj, l.distance, path)
    && if path == [] then v == vertex
       else
         && vertex != -1 && path[|path| - 1] == vertex
         && if v == -1 then path[0] == source || (path == [vertex] && l.distance[vertex].Infinite?)
            else l.distance[vertex].Finite? && Settled(l, v) && Tight(adj, l.distance, v, path[0])
  }

  lemma TracingStep(adj: AdjacencyList, source: int, l: Labels, vertex: int, v: int, path: seq<int>)
    requires WellFormed(adj) && Finished(adj, source, l) && v != -1
    requires vertex == -1 || IsVertex(adj, vertex)
    requires Tracing(adj, source, l, vertex, v, path)
    ensures Tracing(adj, source, l, vertex, l.previous[v], [v] + path)
    ensures l.previous[v] != -1 && v in l.settled ==> Rank(l.settled, l.previous[v]) < Rank(l.settled, v)
    ensures l.previous[v] != -1 ==> l.previous[v] in l.settled
  {
    hide Finished, Explained, Tight, IsTightPath, Rank, WellFormed;
    PredecessorOf(adj, source, l, v);
    if path != [] {
      assert Tight(adj, l.distance, v, path[0]);
      assert ([v] + path)[|path|] == vertex;
    }
    PushFront(adj, l.distance, v, path);
    assert ([v] + path)[0] == v;
  }

  /** The source and unlabelled vertices have no predecessor; that of any other vertex is settled, and was so before. */
  lemma PredecessorOf(adj: AdjacencyList, source: int, l: Labels, v: int)
    requires WellFormed(adj) && Finished(adj, source, l) && IsVertex(adj, v)
    ensures |l.distance| == |l.previous| == |adj|
    ensures Settled(l, v) ==> l.distance[v].Finite?
    ensures v == source || l.distance[v].Infinite? ==> l.previous[v] == -1
    ensures v != source && l.distance[v].Finite? ==>
              var p := l.previous[v];
              IsVertex(adj, p) && p in l.settled && Tight(adj, l.distance, p, v) &&
                (v in l.settled ==> Rank(l.settled, p) < Rank(l.settled, v))
  {
    hide Tight, Rank;
    assert Explained(adj, source, l, v);
  }

  /** Walks the predecessors back to the source, pushing each vertex in front of the path. */
  method DijkstraGetShortestPathTo(vertex: int, previous: seq<int>, ghost adj: AdjacencyList, ghost source: int,
                                   ghost l: Labels)
    returns (path: seq<int>)
    requires WellFormed(adj) && Finished(adj, source, l) && previous == l.previous
    requires vertex == -1 || IsVertex(adj, vertex)
    ensures vertex == -1 ==> path == []
    ensures vertex != -1 && l.distance[vertex].Infinite? ==> path == [vertex]
    ensures vertex != -1 && l.distance[vertex].Finite? ==>
      exists walk :: Visited(source, walk) == path && IsWalk(adj, source, walk, vertex) &&
                     WalkCost(walk) == l.distance[vertex] && IsDistance(adj, source, vertex, WalkCost(walk))
  {
    path := [];
    var v := vertex;
    while v != -1
      invariant Tracing(adj, source, l, vertex, v, path)
      invariant path != [] && vertex != -1 && l.distance[vertex].Infinite? ==> v == -1 && path == [vertex]
      decreases v != -1, if v in l.settled then Rank(l.settled, v) else |l.settled|
    {
      TracingStep(adj, source, l, vertex, v, path);
      path := [v] + path;
      v := previous[v];
    }
    if vertex != -1 && l.distance[vertex].Finite? {
      assert Explained(adj, source, l, source);
      ghost var walk := TightPathIsShortest(adj, source, l.distance, path);
      LabelsAreDistances(adj, source, l);
    }
  }

  /** The cost table, row by row, holds the edge weights; an infinite entry means no edge. */
  ghost predicate DescribesTable(adj: AdjacencyList, costTable: seq<Cost>, n: nat)
    requires |costTable| == n * n
  {
    && |adj| == n
    && forall u, v, w :: 0 <= u < n ==>
         (IsEdge(adj, Edge(u, v, w)) <==> 0 <= v < n && w.Finite? && w == TableEntry(costTable, n, u, v))
  }

  function TableEntry(costTable: seq<Cost>, n: nat, u: int, v: int): Cost
    requires |costTable| == n * n && 0 <= u < n && 0 <= v < n
  {
    IndexInTable(n, u, v);
    costTable[u * n + v]
  }

  lemma IndexInTable(n: nat, u: int, v: int)
    requires 0 <= u < n && 0 <= v < n
    ensures 0 <= u * n + v < n * n
  {
    assert u * n <= (n - 1) * n;
  }

  /** The row lists the finite entries among the first `upTo` of table row u. */
  ghost predicate ListsRow(row: seq<Neighbor>, costTable: seq<Cost>, n: nat, u: int, upTo: int)
    requires |costTable| == n * n && 0 <= u < n && upTo <= n
  {
    && (forall e :: e in row ==>
        0 <= e.target < upTo && e.weight.Finite? && e.weight == TableEntry(costTable, n, u, e.target))
    && forall v :: 0 <= v < upTo && TableEntry(costTable, n, u, v).Finite? ==>
      Neighbor(v, TableEntry(costTable, n, u, v)) in row
  }

  /** The adjacency list of the cost table: row u keeps its finite entries in order. */
  method BuildAdjacency(costTable: seq<Cost>, n: nat) returns (adj: AdjacencyList)
    requires |costTable| == n * n
    requires forall i :: 0 <= i < |costTable| ==> ZERO.Le(costTable[i])
    ensures WellFormed(adj) && DescribesTable(adj, costTable, n)
  {
    adj := [];
    for u := 0 to n
      invariant |adj| == u
      invariant forall x :: 0 <= x < u ==> ListsRow(adj[x], costTable, n, x, n)
    {
      var row := BuildRow(costTable, n, u);
      adj := adj + [row];
    }
    RowsAreWellFormed(adj, costTable, n);
    RowsDescribeTable(adj, costTable, n);
  }

  method BuildRow(costTable: seq<Cost>, n: nat, u: int) returns (row: seq<Neighbor>)
    requires |costTable| == n * n && 0 <= u < n
    ensures ListsRow(row, costTable, n, u, n)
  {
    row := [];
    for v := 0 to n
      invariant ListsRow(row, costTable, n, u, v)
    {
      var cost := TableEntry(costTable, n, u, v);
      ghost var shorter := row;
      if cost.Lt(Infinite) {
        row := row + [Neighbor(v, cost)];
      }
      assert forall e :: e in row <==> e in shorter || (cost.Finite? && e == Neighbor(v, cost));
    }
  }

  lemma RowsAreWellFormed(adj: AdjacencyList, costTable: seq<Cost>, n: nat)
    requires |costTable| == n * n && |adj| == n
    requires forall i :: 0 <= i < |costTable| ==> ZERO.Le(costTable[i])
    requires forall u :: 0 <= u < n ==> ListsRow(adj[u], costTable, n, u, n)
    ensures WellFormed(adj)
  {
    forall u, k | 0 <= u < |adj| && 0 <= k < |adj[u]|
      ensures IsVertex(adj, adj[u][k].target) && ZERO.Le(adj[u][k].weight)
    {
      var e := adj[u][k];
      assert ListsRow(adj[u], costTable, n, u, n) && e in adj[u];
      IndexInTable(n, u, e.target);
    }
  }

  lemma RowsDescribeTable(adj: AdjacencyList, costTable: seq<Cost>, n: nat)
    requires |costTable| == n * n && |adj| == n
    requires forall u :: 0 <= u < n ==> ListsRow(adj[u], costTable, n, u, n)
    ensures DescribesTable(adj, costTable, n)
  {
    forall u, v, w | 0 <= u < n
      ensures IsEdge(adj, Edge(u, v, w)) <==> 0 <= v < n && w.Finite? && w == TableEntry(costTable, n, u, v)
    {
      assert ListsRow(adj[u], costTable, n, u, n);
      if 0 <= v < n && w.Finite? && w == TableEntry(costTable, n, u, v) {
        assert Neighbor(v, w) in adj[u];
      }
    }
  }

  /** One step of the block: the shortest route from the first to the last node of the cost table. */
  method FindRoute(costTable: seq<Cost>, n: nat) returns (adj: AdjacencyList, length: Cost, path: seq<int>)
    requires n > 0 && |costTable| == n * n
    requires forall i :: 0 <= i < |costTable| ==> ZERO.Le(costTable[i])
    ensures DescribesTable(adj, costTable, n) && IsDistance(adj, 0, n - 1, length)
    ensures length.Finite? ==>
      exists walk :: Visited(0, walk) == path && IsWalk(adj, 0, walk, n - 1) && WalkCost(walk) == length
    ensures length.Infinite? ==> path == [n - 1] && !Reachable(adj, 0, n - 1)
  {
    adj := BuildAdjacency(costTable, n);
    var minDistance, previous, settled := DijkstraComputePaths(0, adj);
    length := minDistance[n - 1];
    InfiniteIffUnreachable(adj, 0, n - 1, length);
    path := DijkstraGetShortestPathTo(n - 1, previous, adj, 0, Labels(minDistance, previous, settled));
  }
}
