/** Bottom-up merge sort on sequences: what the linked-list sort computes, and why it is a stable sort. */
module MergeSort {

  /** A three-way comparison, of which only the sign of the result matters. */
  type Compare<!T> = (T, T) -> int

  /** On the elements of s the comparison orders totally: any two compare, and the order is transitive. */
  ghost predicate TotalPreorder<T>(cmp: Compare<T>, s: set<T>) {
    && (forall x, y :: x in s && y in s ==> cmp(x, y) <= 0 || cmp(y, x) <= 0)
    && (forall x, y, z :: x in s && y in s && z in s && cmp(x, y) <= 0 && cmp(y, z) <= 0 ==> cmp(x, z) <= 0)
  }

  ghost predicate Within<T>(a: seq<T>, s: set<T>) {
    forall i :: 0 <= i < |a| ==> a[i] in s
  }

  ghost predicate Sorted<T>(cmp: Compare<T>, a: seq<T>) {
    forall i, j :: 0 <= i < j < |a| ==> cmp(a[i], a[j]) <= 0
  }

  /** The elements of a that compare equal to x, in order. */
  ghost function Ties<T>(cmp: Compare<T>, a: seq<T>, x: T): seq<T> {
    if a == [] then [] else Tie(cmp, a[0], x) + Ties(cmp, a[1..], x)
  }

  ghost function Tie<T>(cmp: Compare<T>, y: T, x: T): seq<T> {
    if cmp(y, x) <= 0 && cmp(x, y) <= 0 then [y] else []
  }

  /** b is a rearrangement of a that keeps elements comparing equal in their order. */
  ghost predicate StablePermutation<T>(cmp: Compare<T>, a: seq<T>, b: seq<T>, s: set<T>) {
    && multiset(a) == multiset(b)
    && forall x :: x in s ==> Ties(cmp, a, x) == Ties(cmp, b, x)
  }

  function Min(a: int, b: int): int {
    if a <= b then a else b
  }

  function Merge<T>(cmp: Compare<T>, p: seq<T>, q: seq<T>): (m: seq<T>)
    ensures |m| == |p| + |q|
  {
    if p == [] then q
    else if q == [] then p
    else if cmp(p[0], q[0]) <= 0 then [p[0]] + Merge(cmp, p[1..], q)
    else [q[0]] + Merge(cmp, p, q[1..])
  }

  /** The first two runs of n elements, each cut short where a ends, and the rest. */
  function LeftRun<T>(a: seq<T>, n: nat): seq<T> {
    a[..Min(n, |a|)]
  }

  function RightRun<T>(a: seq<T>, n: nat): seq<T> {
    a[Min(n, |a|)..Min(2 * n, |a|)]
  }

  function Rest<T>(a: seq<T>, n: nat): (r: seq<T>)
    ensures n > 0 && a != [] ==> |r| < |a|
  {
    a[Min(2 * n, |a|)..]
  }

  /** Merges neighbouring runs of n elements. */
  function MergePass<T>(cmp: Compare<T>, a: seq<T>, n: nat): (m: seq<T>)
    requires n > 0
    decreases |a|
  {
    if a == [] then [] else Merge(cmp, LeftRun(a, n), RightRun(a, n)) + MergePass(cmp, Rest(a, n), n)
  }

  /** Every run of n elements is sorted. */
  ghost predicate RunsSorted<T>(cmp: Compare<T>, a: seq<T>, n: nat)
    requires n > 0
  {
    if a == [] then true
    else
      var k := Min(n, |a|);
      Sorted(cmp, a[..k]) && RunsSorted(cmp, a[k..], n)
  }

  lemma {:induction false} SingletonsAreSorted<T>(cmp: Compare<T>, a: seq<T>)
    ensures RunsSorted(cmp, a, 1)
  {
    if a != [] {
      SingletonsAreSorted(cmp, a[1..]);
    }
  }

  lemma {:induction false} TiesOfConcatenation<T>(cmp: Compare<T>, a: seq<T>, b: seq<T>, x: T)
    ensures Ties(cmp, a + b, x) == Ties(cmp, a, x) + Ties(cmp, b, x)
  {
    if a == [] {
      assert a + b == b;
    } else {
      assert (a + b)[1..] == a[1..] + b;
      TiesOfConcatenation(cmp, a[1..], b, x);
    }
  }

  lemma {:induction false} MergeIsPermutation<T>(cmp: Compare<T>, p: seq<T>, q: seq<T>)
    ensures multiset(Merge(cmp, p, q)) == multiset(p) + multiset(q)
    decreases |p| + |q|
  {
    if p != [] && q != [] {
      assert p == [p[0]] + p[1..] && q == [q[0]] + q[1..];
      if cmp(p[0], q[0]) <= 0 {
        MergeIsPermutation(cmp, p[1..], q);
      } else {
        MergeIsPermutation(cmp, p, q[1..]);
      }
    }
  }

  /** Everything in a merge is in one of its parts. */
  lemma InMerge<T>(cmp: Compare<T>, p: seq<T>, q: seq<T>, x: T)
    ensures x in Merge(cmp, p, q) <==> x in p || x in q
  {
    hide Merge;
    MergeIsPermutation(cmp, p, q);
    assert x in multiset(Merge(cmp, p, q)) <==> x in multiset(p) || x in multiset(q);
  }

  lemma {:induction false} MergeIsSorted<T>(cmp: Compare<T>, p: seq<T>, q: seq<T>, s: set<T>)
    requires TotalPreorder(cmp, s) && Within(p, s) && Within(q, s) && Sorted(cmp, p) && Sorted(cmp, q)
    ensures Sorted(cmp, Merge(cmp, p, q))
    decreases |p| + |q|
  {
    hide Sorted, Within, TotalPreorder, Merge;
    MergeStep(cmp, p, q);
    if p != [] && q != [] {
      if cmp(p[0], q[0]) <= 0 {
        TailIsSorted(cmp, p, s);
        MergeIsSorted(cmp, p[1..], q, s);
        FirstBeforeMerge(cmp, p, q, s, p[0], p[1..], q);
      } else {
        TailIsSorted(cmp, q, s);
        MergeIsSorted(cmp, p, q[1..], s);
        FirstBeforeMerge(cmp, p, q, s, q[0], p, q[1..]);
      }
    }
  }

  lemma MergeStep<T>(cmp: Compare<T>, p: seq<T>, q: seq<T>)
    ensures p == [] ==> Merge(cmp, p, q) == q
    ensures q == [] ==> Merge(cmp, p, q) == p
    ensures p != [] && q != [] ==>
      Merge(cmp, p, q) ==
      if cmp(p[0], q[0]) <= 0 then [p[0]] + Merge(cmp, p[1..], q) else [q[0]] + Merge(cmp, p, q[1..])
  {}

  lemma FirstBeforeMerge<T>(cmp: Compare<T>, p: seq<T>, q: seq<T>, s: set<T>, first: T, p': seq<T>, q': seq<T>)
    requires TotalPreorder(cmp, s) && Within(p, s) && Within(q, s) && Sorted(cmp, p) && Sorted(cmp, q)
    requires p != [] && q != [] && Sorted(cmp, Merge(cmp, p', q'))
    requires if cmp(p[0], q[0]) <= 0 then first == p[0] && p' == p[1..] && q' == q
             else first == q[0] && p' == p && q' == q[1..]
    ensures Sorted(cmp, [first] + Merge(cmp, p', q'))
  {
    hide Within, TotalPreorder, Merge;
    var m := Merge(cmp, p', q');
    forall j | 0 <= j < |m|
      ensures cmp(first, m[j]) <= 0
    {
      assert m[j] in m;
      InMerge(cmp, p', q', m[j]);
      FirstIsLeast(cmp, p, q, s, first, m[j]);
    }
  }

  lemma FirstIsLeast<T>(cmp: Compare<T>, p: seq<T>, q: seq<T>, s: set<T>, first: T, x: T)
    requires TotalPreorder(cmp, s) && Within(p, s) && Within(q, s) && Sorted(cmp, p) && Sorted(cmp, q)
    requires p != [] && q != []
    requires if cmp(p[0], q[0]) <= 0 then first == p[0] && (x in p[1..] || x in q)
             else first == q[0] && (x in p || x in q[1..])
    ensures cmp(first, x) <= 0
  {
    assert cmp(p[0], p[0]) <= 0 && cmp(q[0], q[0]) <= 0;
    if x in p {
      var i :| 0 <= i < |p| && p[i] == x;
      assert cmp(p[0], x) <= 0;
    } else {
      var i :| 0 <= i < |q| && q[i] == x;
      assert cmp(q[0], x) <= 0;
    }
  }

  lemma TiesOfCons<T>(cmp: Compare<T>, y: T, a: seq<T>, x: T)
    ensures Ties(cmp, [y] + a, x) == Tie(cmp, y, x) + Ties(cmp, a, x)
  {
    assert ([y] + a)[1..] == a;
  }

  /** A merge lists ties of the left part before ties of the right part, each in order. */
  lemma {:induction false} MergeIsStable<T>(cmp: Compare<T>, p: seq<T>, q: seq<T>, s: set<T>, x: T)
    requires TotalPreorder(cmp, s) && Within(p, s) && Within(q, s) && Sorted(cmp, p) && Sorted(cmp, q) && x in s
    ensures Ties(cmp, Merge(cmp, p, q), x) == Ties(cmp, p, x) + Ties(cmp, q, x)
    decreases |p| + |q|
  {
    hide Sorted, Within, TotalPreorder, Ties, Tie, Merge;
    MergeStep(cmp, p, q);
    if p == [] || q == [] {
      TiesOfNothing(cmp, x);
    } else {
      TailIsSorted(cmp, p, s);
      TailIsSorted(cmp, q, s);
      if cmp(p[0], q[0]) <= 0 {
        MergeIsStable(cmp, p[1..], q, s, x);
        TiesOfCons(cmp, p[0], Merge(cmp, p[1..], q), x);
        TiesOfCons(cmp, p[0], p[1..], x);
      } else {
        MergeIsStable(cmp, p, q[1..], s, x);
        LeftHasNoTies(cmp, p, q[0], s, x);
        TiesOfCons(cmp, q[0], Merge(cmp, p, q[1..]), x);
        TiesOfCons(cmp, q[0], q[1..], x);
      }
    }
  }

  lemma TiesOfNothing<T>(cmp: Compare<T>, x: T)
    ensures Ties(cmp, [], x) == []
  {}

  lemma LeftHasNoTies<T>(cmp: Compare<T>, p: seq<T>, y: T, s: set<T>, x: T)
    requires TotalPreorder(cmp, s) && Within(p, s) && Sorted(cmp, p) && p != [] && x in s && y in s && cmp(p[0], y) > 0
    ensures Tie(cmp, y, x) == [] || Ties(cmp, p, x) == []
  {
    if Tie(cmp, y, x) != [] {
      LeftIsGreater(cmp, p, y, s, x);
      NoTies(cmp, p, x);
    }
  }

  lemma TailIsSorted<T>(cmp: Compare<T>, p: seq<T>, s: set<T>)
    requires p != [] && Within(p, s) && Sorted(cmp, p)
    ensures Within(p[1..], s) && Sorted(cmp, p[1..]) && p[0] in s && p == [p[0]] + p[1..]
  {}

  /** If y comes before all of p then nothing in p ties with what y ties with. */
  lemma LeftIsGreater<T>(cmp: Compare<T>, p: seq<T>, y: T, s: set<T>, x: T)
    requires TotalPreorder(cmp, s) && Within(p, s) && Sorted(cmp, p) && p != [] && x in s && y in s
    requires cmp(p[0], y) > 0 && cmp(x, y) <= 0
    ensures forall i :: 0 <= i < |p| ==> cmp(p[i], x) > 0
  {
    assert cmp(p[0], p[0]) <= 0;
    forall i | 0 <= i < |p|
      ensures cmp(p[i], x) > 0
    {
      assert cmp(p[0], p[i]) <= 0;
    }
  }

  lemma {:induction false} NoTies<T>(cmp: Compare<T>, a: seq<T>, x: T)
    requires forall i :: 0 <= i < |a| ==> cmp(a[i], x) > 0
    ensures Ties(cmp, a, x) == []
  {
    if a != [] {
      NoTies(cmp, a[1..], x);
    }
  }

  lemma RunsMakeUp<T>(a: seq<T>, n: nat)
    ensures a == LeftRun(a, n) + RightRun(a, n) + Rest(a, n)
    ensures |LeftRun(a, n)| + |RightRun(a, n)| == Min(2 * n, |a|)
  {}

  lemma SplitRuns<T>(cmp: Compare<T>, a: seq<T>, n: nat, s: set<T>)
    requires n > 0 && a != [] && Within(a, s) && RunsSorted(cmp, a, n)
    ensures Within(LeftRun(a, n), s) && Within(RightRun(a, n), s) && Within(Rest(a, n), s)
    ensures Sorted(cmp, LeftRun(a, n)) && Sorted(cmp, RightRun(a, n)) && RunsSorted(cmp, Rest(a, n), n)
  {
    hide Sorted;
    var k := Min(n, |a|);
    var b := a[k..];
    assert RunsSorted(cmp, b, n);
    assert b[..Min(n, |b|)] == RightRun(a, n) && b[Min(n, |b|)..] == Rest(a, n);
    if b == [] {
      assert RightRun(a, n) == [];
      assert Sorted(cmp, RightRun(a, n)) by {
        EmptyIsSorted(cmp, RightRun(a, n));
      }
    }
  }

  lemma EmptyIsSorted<T>(cmp: Compare<T>, a: seq<T>)
    requires a == []
    ensures Sorted(cmp, a)
  {}

  /** A pass turns sorted runs of n elements into sorted runs of 2n. */
  lemma {:induction false} PassDoublesRuns<T>(cmp: Compare<T>, a: seq<T>, n: nat, s: set<T>)
    requires n > 0 && TotalPreorder(cmp, s) && Within(a, s) && RunsSorted(cmp, a, n)
    ensures RunsSorted(cmp, MergePass(cmp, a, n), 2 * n)
    decreases |a|
  {
    if a != [] {
      SplitRuns(cmp, a, n, s);
      RunsMakeUp(a, n);
      hide Sorted, Within, TotalPreorder, LeftRun, RightRun, Rest, Merge;
      PassDoublesRuns(cmp, Rest(a, n), n, s);
      var m, tail := Merge(cmp, LeftRun(a, n), RightRun(a, n)), MergePass(cmp, Rest(a, n), n);
      MergeIsSorted(cmp, LeftRun(a, n), RightRun(a, n), s);
      PassLength(cmp, a, n);
      assert (m + tail)[..|m|] == m && (m + tail)[|m|..] == tail;
    }
  }

  lemma PassLength<T>(cmp: Compare<T>, a: seq<T>, n: nat)
    requires n > 0
    ensures |MergePass(cmp, a, n)| == |a|
  {
    PassIsPermutation(cmp, a, n);
    assert |multiset(a)| == |a|;
  }

  lemma {:induction false} PassIsPermutation<T>(cmp: Compare<T>, a: seq<T>, n: nat)
    requires n > 0
    ensures multiset(MergePass(cmp, a, n)) == multiset(a)
    decreases |a|
  {
    if a != [] {
      RunsMakeUp(a, n);
      hide LeftRun, RightRun, Rest, Merge;
      MergeIsPermutation(cmp, LeftRun(a, n), RightRun(a, n));
      PassIsPermutation(cmp, Rest(a, n), n);
      assert multiset(a) == multiset(LeftRun(a, n)) + multiset(RightRun(a, n)) + multiset(Rest(a, n));
    }
  }

  /** A pass keeps the order of ties. */
  lemma {:induction false} PassIsStable<T>(cmp: Compare<T>, a: seq<T>, n: nat, s: set<T>, x: T)
    requires n > 0 && TotalPreorder(cmp, s) && Within(a, s) && RunsSorted(cmp, a, n) && x in s
    ensures Ties(cmp, MergePass(cmp, a, n), x) == Ties(cmp, a, x)
    decreases |a|
  {
    if a != [] {
      SplitRuns(cmp, a, n, s);
      RunsMakeUp(a, n);
      hide Sorted, Within, TotalPreorder, LeftRun, RightRun, Rest, Merge, Ties;
      var p, q, rest := LeftRun(a, n), RightRun(a, n), Rest(a, n);
      PassIsStable(cmp, rest, n, s, x);
      MergeIsStable(cmp, p, q, s, x);
      TiesOfConcatenation(cmp, p, q, x);
      TiesOfConcatenation(cmp, p + q, rest, x);
      TiesOfConcatenation(cmp, Merge(cmp, p, q), MergePass(cmp, rest, n), x);
    }
  }

  lemma PassIsStablePermutation<T>(cmp: Compare<T>, a: seq<T>, n: nat, s: set<T>)
    requires n > 0 && TotalPreorder(cmp, s) && Within(a, s) && RunsSorted(cmp, a, n)
    ensures StablePermutation(cmp, a, MergePass(cmp, a, n), s)
  {
    PassIsPermutation(cmp, a, n);
    forall x | x in s
      ensures Ties(cmp, a, x) == Ties(cmp, MergePass(cmp, a, n), x)
    {
      PassIsStable(cmp, a, n, s, x);
    }
  }

  // ----- what a stable sort computes

  /** x goes in front of the first element that it does not exceed. */
  ghost function Inserted<T>(cmp: Compare<T>, x: T, a: seq<T>): (b: seq<T>)
    ensures |b| == |a| + 1
  {
    if a == [] || cmp(x, a[0]) <= 0 then [x] + a else [a[0]] + Inserted(cmp, x, a[1..])
  }

  /** The list in order, by insertion. */
  ghost function Arranged<T>(cmp: Compare<T>, a: seq<T>): (b: seq<T>)
    ensures |b| == |a|
  {
    if a == [] then [] else Inserted(cmp, a[0], Arranged(cmp, a[1..]))
  }

  lemma {:induction false} InsertedElements<T>(cmp: Compare<T>, x: T, a: seq<T>)
    ensures multiset(Inserted(cmp, x, a)) == multiset([x] + a)
  {
    if a != [] && cmp(x, a[0]) > 0 {
      InsertedElements(cmp, x, a[1..]);
      assert a == [a[0]] + a[1..];
    }
  }

  lemma {:induction false} ArrangedElements<T>(cmp: Compare<T>, a: seq<T>)
    ensures multiset(Arranged(cmp, a)) == multiset(a)
  {
    if a != [] {
      ArrangedElements(cmp, a[1..]);
      InsertedElements(cmp, a[0], Arranged(cmp, a[1..]));
      assert a == [a[0]] + a[1..];
    }
  }

  lemma SameElementsWithin<T>(a: seq<T>, b: seq<T>, s: set<T>)
    requires multiset(a) == multiset(b) && Within(a, s)
    ensures Within(b, s)
  {
    forall i | 0 <= i < |b|
      ensures b[i] in s
    {
      assert b[i] in multiset(b);
      assert b[i] in a;
    }
  }

  lemma {:induction false} InsertedIsSorted<T>(cmp: Compare<T>, x: T, a: seq<T>, s: set<T>)
    requires TotalPreorder(cmp, s) && Within(a, s) && x in s && Sorted(cmp, a)
    ensures Sorted(cmp, Inserted(cmp, x, a))
  {
    if a != [] {
      TailIsSorted(cmp, a, s);
      if cmp(x, a[0]) <= 0 {
        ConsIsSorted(cmp, x, a, s);
      } else {
        InsertedIsSorted(cmp, x, a[1..], s);
        InsertedBehind(cmp, a[0], x, a[1..], s);
      }
    }
  }

  lemma ConsIsSorted<T>(cmp: Compare<T>, x: T, a: seq<T>, s: set<T>)
    requires TotalPreorder(cmp, s) && Within(a, s) && x in s && Sorted(cmp, a) && a != [] && cmp(x, a[0]) <= 0
    ensures Sorted(cmp, [x] + a)
  {
    forall j | 0 <= j < |a|
      ensures cmp(x, a[j]) <= 0
    {
      assert j > 0 ==> cmp(a[0], a[j]) <= 0;
    }
  }

  lemma InsertedBehind<T>(cmp: Compare<T>, first: T, x: T, a: seq<T>, s: set<T>)
    requires TotalPreorder(cmp, s) && first in s && x in s && cmp(x, first) > 0 && Sorted(cmp, [first] + a)
    requires Sorted(cmp, Inserted(cmp, x, a))
    ensures Sorted(cmp, [first] + Inserted(cmp, x, a))
  {
    var b := Inserted(cmp, x, a);
    InsertedElements(cmp, x, a);
    forall j | 0 <= j < |b|
      ensures cmp(first, b[j]) <= 0
    {
      assert b[j] in multiset(b);
      assert b[j] in [x] + a;
      FirstBeforeAll(cmp, first, x, a, b[j]);
    }
  }

  lemma FirstBeforeAll<T>(cmp: Compare<T>, first: T, x: T, a: seq<T>, y: T)
    requires cmp(first, x) <= 0 && Sorted(cmp, [first] + a) && y in [x] + a
    ensures cmp(first, y) <= 0
  {
    if y != x {
      var i :| 0 <= i < |a| && a[i] == y;
      var c := [first] + a;
      assert c[0] == first && c[i + 1] == y;
    }
  }

  lemma {:induction false} TiesOfInserted<T>(cmp: Compare<T>, y: T, a: seq<T>, s: set<T>, x: T)
    requires TotalPreorder(cmp, s) && Within(a, s) && y in s && x in s
    ensures Ties(cmp, Inserted(cmp, y, a), x) == Tie(cmp, y, x) + Ties(cmp, a, x)
  {
    hide Ties, Tie;
    if a == [] || cmp(y, a[0]) <= 0 {
      TiesOfCons(cmp, y, a, x);
    } else {
      TiesOfInserted(cmp, y, a[1..], s, x);
      TiesOfCons(cmp, a[0], Inserted(cmp, y, a[1..]), x);
      TiesOfCons(cmp, a[0], a[1..], x);
      assert a == [a[0]] + a[1..];
      NotBothTie(cmp, y, a[0], s, x);
    }
  }

  lemma NotBothTie<T>(cmp: Compare<T>, y: T, z: T, s: set<T>, x: T)
    requires TotalPreorder(cmp, s) && y in s && z in s && x in s && cmp(y, z) > 0
    ensures Tie(cmp, y, x) == [] || Tie(cmp, z, x) == []
  {}

  /** Arranging sorts, and keeps ties in order. */
  lemma {:induction false} ArrangedIsStableSort<T>(cmp: Compare<T>, a: seq<T>, s: set<T>)
    requires TotalPreorder(cmp, s) && Within(a, s)
    ensures Sorted(cmp, Arranged(cmp, a)) && StablePermutation(cmp, a, Arranged(cmp, a), s)
  {
    ArrangedElements(cmp, a);
    if a != [] {
      var b := Arranged(cmp, a[1..]);
      ArrangedIsStableSort(cmp, a[1..], s);
      ArrangedElements(cmp, a[1..]);
      SameElementsWithin(a[1..], b, s);
      InsertedIsSorted(cmp, a[0], b, s);
      forall x | x in s
        ensures Ties(cmp, a, x) == Ties(cmp, Arranged(cmp, a), x)
      {
        TiesOfInserted(cmp, a[0], b, s, x);
      }
    }
  }

  /** There is only one stable sort of a list. */
  lemma {:induction false} StableSortIsUnique<T>(cmp: Compare<T>, a: seq<T>, b: seq<T>, s: set<T>)
    requires TotalPreorder(cmp, s) && Within(a, s) && Sorted(cmp, a) && Sorted(cmp, b)
    requires StablePermutation(cmp, a, b, s)
    ensures a == b
  {
    hide Sorted, Within, TotalPreorder, StablePermutation;
    SameLength(cmp, a, b, s);
    if a != [] {
      SameFirst(cmp, a, b, s);
      BothWithin(cmp, a, b, s);
      TailIsSorted(cmp, a, s);
      TailIsSorted(cmp, b, s);
      TailsAreStable(cmp, a, b, s);
      StableSortIsUnique(cmp, a[1..], b[1..], s);
    }
  }

  lemma SameLength<T>(cmp: Compare<T>, a: seq<T>, b: seq<T>, s: set<T>)
    requires StablePermutation(cmp, a, b, s)
    ensures |a| == |b|
  {
    assert |a| == |multiset(a)| == |multiset(b)| == |b|;
  }

  lemma BothWithin<T>(cmp: Compare<T>, a: seq<T>, b: seq<T>, s: set<T>)
    requires StablePermutation(cmp, a, b, s) && Within(a, s)
    ensures Within(b, s)
  {
    SameElementsWithin(a, b, s);
  }

  lemma ElementsOfTail<T>(a: seq<T>)
    requires a != []
    ensures multiset(a[1..]) == multiset(a) - multiset{a[0]}
  {
    assert a == [a[0]] + a[1..];
  }

  lemma TailsAreStable<T>(cmp: Compare<T>, a: seq<T>, b: seq<T>, s: set<T>)
    requires StablePermutation(cmp, a, b, s) && a != [] && b != [] && a[0] == b[0]
    ensures StablePermutation(cmp, a[1..], b[1..], s)
  {
    hide Tie;
    ElementsOfTail(a);
    ElementsOfTail(b);
    forall x | x in s
      ensures Ties(cmp, a[1..], x) == Ties(cmp, b[1..], x)
    {
      SameRest(Tie(cmp, a[0], x), Ties(cmp, a[1..], x), Ties(cmp, b[1..], x));
    }
  }

  lemma SameRest<T>(first: seq<T>, a: seq<T>, b: seq<T>)
    requires first + a == first + b
    ensures a == b
  {
    assert a == (first + a)[|first|..] && b == (first + b)[|first|..];
  }

  lemma SameFirst<T>(cmp: Compare<T>, a: seq<T>, b: seq<T>, s: set<T>)
    requires TotalPreorder(cmp, s) && Within(a, s) && Sorted(cmp, a) && Sorted(cmp, b)
    requires StablePermutation(cmp, a, b, s)
    requires a != [] && b != []
    ensures a[0] == b[0]
  {
    SameElementsWithin(a, b, s);
    assert b[0] in multiset(b) && a[0] in multiset(a);
    FirstIsLeastOf(cmp, a, s, b[0]);
    FirstIsLeastOf(cmp, b, s, a[0]);
    assert Ties(cmp, a, a[0])[0] == a[0] && Ties(cmp, b, a[0])[0] == b[0];
  }

  lemma FirstIsLeastOf<T>(cmp: Compare<T>, a: seq<T>, s: set<T>, x: T)
    requires TotalPreorder(cmp, s) && Within(a, s) && Sorted(cmp, a) && x in a
    ensures cmp(a[0], x) <= 0
  {
    assert cmp(a[0], a[0]) <= 0;
    var i :| 0 <= i < |a| && a[i] == x;
  }

  /** A stable sort, however it is done, arranges. */
  lemma StableSortArranges<T>(cmp: Compare<T>, a: seq<T>, b: seq<T>, s: set<T>)
    requires TotalPreorder(cmp, s) && Within(a, s) && Sorted(cmp, b) && StablePermutation(cmp, a, b, s)
    ensures b == Arranged(cmp, a)
  {
    ArrangedIsStableSort(cmp, a, s);
    SameElementsWithin(a, b, s);
    StableSortIsUnique(cmp, b, Arranged(cmp, a), s);
  }
}

/** The sort of the app-order list, relinking it in place. */
module UthashSort {
  import opened Uthash
  import opened MergeSort

  /** The forward links spell out a, up to null. */
  ghost predicate Forwarded<V>(a: seq<Elem<V>>)
    reads a`next
  {
    forall i {:trigger a[i].next} :: 0 <= i < |a| ==> a[i].next == After(a, i)
  }

  /** The forward links spell out a; where its last element points does not matter. */
  ghost predicate Run<V>(a: seq<Elem<V>>)
    reads a`next
  {
    forall i {:trigger a[i].next} :: 0 <= i < |a| - 1 ==> a[i].next == a[i + 1]
  }

  /** Like a run, with the backward links set as well. */
  ghost predicate Emitted<V>(a: seq<Elem<V>>)
    reads a`next, a`prev
  {
    Run(a) && forall i {:trigger a[i].prev} :: 0 <= i < |a| ==> a[i].prev == Before(a, i)
  }

  /** Appends e to the list being built, out of reach of the runs still to be merged. */
  method Emit<V>(tail: Elem?<V>, e: Elem<V>, ghost done: seq<Elem<V>>, ghost p: seq<Elem<V>>, ghost q: seq<Elem<V>>)
    requires tail == Last(done) && Emitted(done) && Run(p) && Forwarded(q)
    requires Distinct(done + [e] + p + q)
    modifies (if tail == null then {} else {tail})`next, e`prev
    ensures Emitted(done + [e]) && Run(p) && Forwarded(q)
  {
    SeparateParts(done + [e], p, q);
    assert (done + [e])[|done|] == e && (tail != null ==> (done + [e])[|done| - 1] == tail);
    if tail != null {
      tail.next := e;
    }
    e.prev := tail;
  }

  lemma SeparateParts<V>(a: seq<Elem<V>>, p: seq<Elem<V>>, q: seq<Elem<V>>)
    requires Distinct(a + p + q)
    ensures Distinct(a) && Distinct(p) && Distinct(q)
    ensures forall i, j :: 0 <= i < |a| && 0 <= j < |p| ==> a[i] != p[j]
    ensures forall i, j :: 0 <= i < |a| && 0 <= j < |q| ==> a[i] != q[j]
  {
    var s := a + p + q;
    assert forall i :: 0 <= i < |a| ==> s[i] == a[i];
    assert forall i :: 0 <= i < |p| ==> s[|a| + i] == p[i];
    assert forall i :: 0 <= i < |q| ==> s[|a| + |p| + i] == q[i];
  }

  /** What is left of the second run when at most n of its elements may still be taken. */
  ghost function Budget<V>(q: seq<Elem<V>>, n: nat): seq<Elem<V>> {
    q[..Min(n, |q|)]
  }

  ghost function Beyond<V>(q: seq<Elem<V>>, n: nat): seq<Elem<V>> {
    q[Min(n, |q|)..]
  }

  lemma TakeLeft<V>(cmp: Compare<Elem<V>>, done: seq<Elem<V>>, p: seq<Elem<V>>, q: seq<Elem<V>>, n: nat)
    requires p != [] && (n == 0 || q == [] || cmp(p[0], q[0]) <= 0)
    ensures done + Merge(cmp, p, Budget(q, n)) == done + [p[0]] + Merge(cmp, p[1..], Budget(q, n))
    ensures done + p + q == done + [p[0]] + p[1..] + q
    ensures p[0] in Members(done + p + q) && (done != [] ==> Last(done) in Members(done + p + q))
  {
    var b := Budget(q, n);
    assert Merge(cmp, p, b) == [p[0]] + Merge(cmp, p[1..], b);
    hide Merge, Budget, Members, Last;
    InParts(done, p, q);
    InThreeParts(done, [p[0]], Merge(cmp, p[1..], b));
    assert p == [p[0]] + p[1..];
    InThreeParts(done, [p[0]], p[1..]);
  }

  lemma InParts<V>(done: seq<Elem<V>>, p: seq<Elem<V>>, q: seq<Elem<V>>)
    ensures p != [] ==> p[0] in Members(done + p + q)
    ensures done != [] ==> Last(done) in Members(done + p + q)
  {
    if p != [] {
      assert (done + p + q)[|done|] == p[0];
    }
    if done != [] {
      assert (done + p + q)[|done| - 1] == Last(done);
    }
  }

  lemma TakeRight<V>(cmp: Compare<Elem<V>>, done: seq<Elem<V>>, p: seq<Elem<V>>, q: seq<Elem<V>>, n: nat)
    requires n > 0 && q != [] && (p == [] || cmp(p[0], q[0]) > 0)
    ensures done + Merge(cmp, p, Budget(q, n)) == done + [q[0]] + Merge(cmp, p, Budget(q[1..], n - 1))
    ensures Beyond(q, n) == Beyond(q[1..], n - 1)
    ensures Distinct(done + p + q) ==> Distinct(done + [q[0]] + p + q[1..])
    ensures Members(done + [q[0]] + p + q[1..]) == Members(done + p + q)
    ensures q[0] in Members(done + p + q) && (done != [] ==> Last(done) in Members(done + p + q))
  {
    SameMembersInTurn(done, p, q);
    var b := Budget(q, n);
    assert b[1..] == Budget(q[1..], n - 1);
    assert Merge(cmp, p, b) == [q[0]] + Merge(cmp, p, b[1..]);
    hide Merge, Budget, Distinct;
    InThreeParts(done, [q[0]], Merge(cmp, p, b[1..]));
    if Distinct(done + p + q) {
      RightMayGoFirst(done, p, q);
    }
  }

  lemma SameMembersInTurn<V>(done: seq<Elem<V>>, p: seq<Elem<V>>, q: seq<Elem<V>>)
    requires q != []
    ensures Members(done + [q[0]] + p + q[1..]) == Members(done + p + q)
    ensures q[0] in Members(done + p + q) && (done != [] ==> Last(done) in Members(done + p + q))
  {
    assert q == [q[0]] + q[1..];
    assert (done + p + q)[|done| + |p|] == q[0];
  }

  lemma RightMayGoFirst<V>(done: seq<Elem<V>>, p: seq<Elem<V>>, q: seq<Elem<V>>)
    requires q != [] && Distinct(done + p + q)
    ensures Distinct(done + [q[0]] + p + q[1..])
  {
    var s, t := done + p + q, done + [q[0]] + p + q[1..];
    var d, k := |done|, |done| + |p|;
    forall i | 0 <= i < |t|
      ensures t[i] == s[if i < d then i else if i == d then k else if i <= k then i - 1 else i]
    {}
  }

  /** Merges a run of psize elements starting at p with at most qsize elements starting at q, appending
      to the list that ends in tail. */
  method MergeRuns<V>(p0: Elem?<V>, psize0: nat, q0: Elem?<V>, qsize0: nat, list0: Elem?<V>, tail0: Elem?<V>,
                      cmp: Compare<Elem<V>>,
                      ghost done0: seq<Elem<V>>, ghost ps0: seq<Elem<V>>, ghost qs0: seq<Elem<V>>)
    returns (list: Elem?<V>, tail: Elem?<V>, q: Elem?<V>, ghost done: seq<Elem<V>>, ghost qs: seq<Elem<V>>)
    requires |ps0| == psize0 && (psize0 > 0 ==> p0 == ps0[0]) && q0 == First(qs0)
    requires list0 == First(done0) && tail0 == Last(done0)
    requires Distinct(done0 + ps0 + qs0) && Emitted(done0) && Run(ps0) && Forwarded(qs0)
    modifies Members(done0 + ps0 + qs0)`next, Members(done0 + ps0 + qs0)`prev
    ensures done == done0 + Merge(cmp, ps0, Budget(qs0, qsize0)) && qs == Beyond(qs0, qsize0)
    ensures list == First(done) && tail == Last(done) && q == First(qs)
    ensures Distinct(done + qs) && Emitted(done) && Forwarded(qs)
    ensures Members(done + qs) == Members(done0 + ps0 + qs0)
  {
    var p, psize, qsize := p0, psize0, qsize0;
    list, tail, q := list0, tail0, q0;
    ghost var ps := ps0;
    done, qs := done0, qs0;
    ghost var all := Members(done0 + ps0 + qs0);
    hide Emitted, Distinct, Merge, Budget, Beyond, Members;
    while psize > 0 || (qsize > 0 && q != null)
      invariant psize == |ps| && (psize > 0 ==> p == ps[0]) && q == First(qs)
      invariant list == First(done) && tail == Last(done)
      invariant Distinct(done + ps + qs) && Emitted(done) && Run(ps) && Forwarded(qs)
      invariant done + Merge(cmp, ps, Budget(qs, qsize)) == done0 + Merge(cmp, ps0, Budget(qs0, qsize0))
      invariant Beyond(qs, qsize) == Beyond(qs0, qsize0)
      invariant Members(done + ps + qs) == all
      decreases |ps| + |qs|
    {
      var e: Elem<V>;
      if psize > 0 && (qsize == 0 || q == null || cmp(p, q) <= 0) {
        TakeLeft(cmp, done, ps, qs, qsize);
        e := p;
        p := p.next;
        psize := psize - 1;
        ps := ps[1..];
      } else {
        TakeRight(cmp, done, ps, qs, qsize);
        e := q;
        q := q.next;
        qsize := qsize - 1;
        qs := qs[1..];
      }
      Emit(tail, e, done, ps, qs);
      if tail == null {
        list := e;
      }
      tail := e;
      done := done + [e];
    }
    NothingLeft(cmp, ps, qs, qsize);
    assert done + ps + qs == done + qs;
  }

  lemma NothingLeft<V>(cmp: Compare<Elem<V>>, p: seq<Elem<V>>, q: seq<Elem<V>>, n: nat)
    requires p == [] && (n == 0 || q == [])
    ensures Merge(cmp, p, Budget(q, n)) == [] && Beyond(q, n) == q
  {}

  /** Walks over a run of at most insize elements. */
  method CutRun<V>(p: Elem<V>, insize: nat, ghost rest: seq<Elem<V>>) returns (q: Elem?<V>, psize: nat)
    requires rest != [] && p == rest[0] && insize > 0 && Forwarded(rest)
    ensures psize == Min(insize, |rest|) && q == First(rest[psize..])
  {
    q, psize := p, 0;
    var i := 0;
    while i < insize
      invariant 0 <= i <= insize && psize == i < |rest| && q == rest[i]
    {
      psize := psize + 1;
      q := q.next;
      if q == null {
        break;
      }
      i := i + 1;
    }
  }

  lemma CutRest<V>(rest: seq<Elem<V>>, n: nat)
    requires Forwarded(rest) && n > 0 && rest != []
    ensures var k := Min(n, |rest|);
            Run(rest[..k]) && Forwarded(rest[k..]) && rest[..k] == LeftRun(rest, n) && rest == rest[..k] + rest[k..] &&
            Budget(rest[k..], n) == RightRun(rest, n) && Beyond(rest[k..], n) == Rest(rest, n)
  {}

  /** One pass over the list: merges neighbouring runs of insize elements. */
  method Pass<V>(list0: Elem<V>, cmp: Compare<Elem<V>>, insize: nat, ghost s: seq<Elem<V>>)
    returns (list: Elem?<V>, tail: Elem?<V>, nmerges: nat, ghost done: seq<Elem<V>>)
    requires s != [] && list0 == s[0] && insize > 0 && Distinct(s) && Forwarded(s)
    modifies Members(s)`next, Members(s)`prev
    ensures done == MergePass(cmp, s, insize) && AppLinked(done) && list == First(done) && tail == Last(done)
    ensures nmerges <= 1 <==> |s| <= 2 * insize
  {
    hide Emitted, Distinct, MergePass, Forwarded, AppLinked, Counted;
    list, tail, nmerges, done := MergeAll(list0, cmp, insize, s);
    CountIsExact(nmerges, |s|, insize);
    CloseList(tail, done);
  }

  lemma CountIsExact(nmerges: nat, length: nat, n: nat)
    requires Counted(nmerges, length, length, n) && length > 0
    ensures nmerges <= 1 <==> length <= 2 * n
  {}

  /** The loop of a pass. */
  method MergeAll<V>(list0: Elem<V>, cmp: Compare<Elem<V>>, insize: nat, ghost s: seq<Elem<V>>)
    returns (list: Elem?<V>, tail: Elem?<V>, nmerges: nat, ghost done: seq<Elem<V>>)
    requires s != [] && list0 == s[0] && insize > 0 && Distinct(s) && Forwarded(s)
    modifies Members(s)`next, Members(s)`prev
    ensures done == MergePass(cmp, s, insize) && |done| == |s| && Emitted(done) && Distinct(done)
    ensures list == First(done) && tail == Last(done) && Members(done) == Members(s)
    ensures Counted(nmerges, |s|, |s|, insize)
  {
    hide Emitted, Distinct, MergePass, Forwarded, Members, Counted, Min, First, Last;
    var p: Elem?<V> := list0;
    list, tail, nmerges := null, null, 0;
    done := [];
    ghost var rest := s;
    StartOfPass(cmp, s, insize);
    while p != null
      invariant p == First(rest) && list == First(done) && tail == Last(done)
      invariant Distinct(done + rest) && Emitted(done) && Forwarded(rest) && Members(done + rest) == Members(s)
      invariant done + MergePass(cmp, rest, insize) == MergePass(cmp, s, insize)
      invariant |done| + |rest| == |s|
      invariant Counted(nmerges, |done|, |s|, insize)
      decreases |rest|
    {
      StartOfRest(rest);
      CountedStep(nmerges, |done|, |s|, insize);
      nmerges := nmerges + 1;
      list, tail, p, done, rest := MergeFirstRuns(p, insize, list, tail, cmp, done, rest);
    }
    EndOfPass(cmp, done, rest, insize);
  }

  lemma StartOfPass<V>(cmp: Compare<Elem<V>>, s: seq<Elem<V>>, n: nat)
    requires n > 0
    ensures [] + s == s && [] + MergePass(cmp, s, n) == MergePass(cmp, s, n)
    ensures Emitted<V>([]) && Counted(0, 0, |s|, n) && First<V>([]) == Last<V>([]) == null
    ensures s != [] ==> First(s) == s[0]
  {}

  lemma StartOfRest<V>(rest: seq<Elem<V>>)
    requires First(rest) != null
    ensures rest != [] && rest[0] == First(rest)
  {}

  lemma CountedStep(nmerges: nat, done: nat, length: nat, n: nat)
    requires Counted(nmerges, done, length, n) && done < length && n > 0
    ensures Counted(nmerges + 1, done + Min(2 * n, length - done), length, n) && Min(2 * n, length - done) > 0
  {}

  lemma EndOfPass<V>(cmp: Compare<Elem<V>>, done: seq<Elem<V>>, rest: seq<Elem<V>>, n: nat)
    requires n > 0 && First(rest) == null
    ensures rest == [] && done + rest == done && done + MergePass(cmp, rest, n) == done
  {}

  /** Merges the first two runs of the rest of the list. */
  method MergeFirstRuns<V>(p: Elem<V>, insize: nat, list0: Elem?<V>, tail0: Elem?<V>, cmp: Compare<Elem<V>>,
                           ghost done0: seq<Elem<V>>, ghost rest0: seq<Elem<V>>)
    returns (list: Elem?<V>, tail: Elem?<V>, q: Elem?<V>, ghost done: seq<Elem<V>>, ghost rest: seq<Elem<V>>)
    requires rest0 != [] && p == rest0[0] && list0 == First(done0) && tail0 == Last(done0) && insize > 0
    requires Distinct(done0 + rest0) && Emitted(done0) && Forwarded(rest0)
    modifies Members(done0 + rest0)`next, Members(done0 + rest0)`prev
    ensures q == First(rest) && list == First(done) && tail == Last(done)
    ensures Distinct(done + rest) && Emitted(done) && Forwarded(rest)
    ensures done + MergePass(cmp, rest, insize) == done0 + MergePass(cmp, rest0, insize)
    ensures |done| == |done0| + Min(2 * insize, |rest0|) && |rest| == |rest0| - Min(2 * insize, |rest0|)
    ensures Members(done + rest) == Members(done0 + rest0)
  {
    hide Members, Emitted, Distinct, Merge, Budget, Beyond, MergePass, LeftRun, RightRun, Rest, Forwarded, Run;
    var psize;
    q, psize := CutRun(p, insize, rest0);
    CutRest(rest0, insize);
    PassStep(cmp, done0, rest0, insize);
    ghost var left, right := rest0[..psize], rest0[psize..];
    InThreeParts(done0, left, right);
    list, tail, q, done, rest := MergeRuns(p, psize, q, insize, list0, tail0, cmp, done0, left, right);
  }

  /** What the number of merges tells about the length of the list. */
  ghost predicate Counted(nmerges: nat, done: nat, length: nat, n: nat) {
    && (nmerges == 0 ==> done == 0)
    && (nmerges == 1 ==> done == Min(2 * n, length))
    && (nmerges >= 2 ==> length > 2 * n)
  }

  method CloseList<V>(tail: Elem<V>, ghost done: seq<Elem<V>>)
    requires done != [] && tail == Last(done) && Emitted(done) && Distinct(done)
    modifies tail`next
    ensures AppLinked(done)
  {
    assert done[|done| - 1] == tail;
    tail.next := null;
  }

  lemma PassStep<V>(cmp: Compare<Elem<V>>, done: seq<Elem<V>>, rest: seq<Elem<V>>, n: nat)
    requires n > 0 && rest != []
    ensures done + MergePass(cmp, rest, n) ==
            done + Merge(cmp, LeftRun(rest, n), RightRun(rest, n)) + MergePass(cmp, Rest(rest, n), n)
    ensures |Merge(cmp, LeftRun(rest, n), RightRun(rest, n))| == Min(2 * n, |rest|)
    ensures |Rest(rest, n)| == |rest| - Min(2 * n, |rest|)
  {
    var merged := Merge(cmp, LeftRun(rest, n), RightRun(rest, n));
    assert MergePass(cmp, rest, n) == merged + MergePass(cmp, Rest(rest, n), n);
    hide MergePass, Merge;
    InThreeParts(done, merged, MergePass(cmp, Rest(rest, n), n));
  }

  lemma InThreeParts<T>(a: seq<T>, b: seq<T>, c: seq<T>)
    ensures a + (b + c) == a + b + c
  {}

  lemma AppLinkedIsForwarded<V>(s: seq<Elem<V>>)
    requires AppLinked(s)
    ensures Forwarded(s)
  {}

  lemma TiesAreTransitive<V>(cmp: Compare<Elem<V>>, a: seq<Elem<V>>, b: seq<Elem<V>>, c: seq<Elem<V>>, s: set<Elem<V>>)
    requires StablePermutation(cmp, a, b, s) && StablePermutation(cmp, b, c, s)
    ensures StablePermutation(cmp, a, c, s)
  {}

  lemma SingleRunIsSorted<T>(cmp: Compare<T>, a: seq<T>, n: nat)
    requires n > 0 && RunsSorted(cmp, a, n) && |a| <= n
    ensures Sorted(cmp, a)
  {
    assert a[..Min(n, |a|)] == a;
  }

  /** One pass as seen by the sort. */
  lemma PassFacts<V>(cmp: Compare<Elem<V>>, a: seq<Elem<V>>, n: nat, s: set<Elem<V>>)
    requires n > 0 && TotalPreorder(cmp, s) && s == Members(a) && RunsSorted(cmp, a, n)
    ensures var b := MergePass(cmp, a, n);
            RunsSorted(cmp, b, 2 * n) && StablePermutation(cmp, a, b, s) && Members(b) == s && |b| == |a|
  {
    PassDoublesRuns(cmp, a, n, s);
    PassIsStablePermutation(cmp, a, n, s);
    PassLength(cmp, a, n);
    SameMembers(a, MergePass(cmp, a, n));
  }

  lemma SameMembers<V>(a: seq<Elem<V>>, b: seq<Elem<V>>)
    requires multiset(a) == multiset(b)
    ensures Members(a) == Members(b)
  {
    assert forall x :: x in a <==> x in multiset(a);
    assert forall x :: x in b <==> x in multiset(b);
  }

  lemma UniqueKeysOfPermutation<V>(a: seq<Elem<V>>, b: seq<Elem<V>>)
    requires multiset(a) == multiset(b) && UniqueKeys(a)
    ensures UniqueKeys(b) && Distinct(b)
  {
    forall i, j | 0 <= i < j < |b|
      ensures b[i].key != b[j].key
    {
      var rest := b[..j];
      assert b == rest + [b[j]] + b[j + 1..];
      assert rest[i] in multiset(rest);
      if b[i] == b[j] {
        assert multiset(b)[b[j]] >= 2;
        OnlyOnce(a, b[j]);
      } else {
        assert b[i] in multiset(b) && b[j] in multiset(b);
        assert b[i] in a && b[j] in a;
      }
    }
    UniqueKeysMakeDistinct(b);
  }

  lemma {:induction false} OnlyOnce<V>(a: seq<Elem<V>>, x: Elem<V>)
    requires UniqueKeys(a)
    ensures multiset(a)[x] <= 1
  {
    if a != [] {
      assert a == [a[0]] + a[1..];
      OnlyOnce(a[1..], x);
      assert x in multiset(a[1..]) ==> x in a[1..];
    }
  }

  /** Sorts the app order stably; buckets, chains and hence all lookups stay as they are. */
  method Sort<V>(h: HashTable<V>, cmp: Compare<Elem<V>>)
    requires h.Valid() && TotalPreorder(cmp, Members(h.items))
    modifies h`head, h`items, (if h.tbl == null then {} else {h.tbl})`tail, h.items`next, h.items`prev
    ensures h.Valid()
    ensures Sorted(cmp, h.items) && StablePermutation(cmp, old(h.items), h.items, Members(h.items))
    ensures h.items == Arranged(cmp, old(h.items))
    ensures Members(h.items) == old(Members(h.items))
    ensures h.tbl != null ==> h.tbl.chains == old(h.tbl.chains) && h.tbl.buckets == old(h.tbl.buckets)
  {
    hide AppLinked, UniqueKeys, TotalPreorder, Sorted, StablePermutation, Members, Arranged;
    if h.head == null {
      EmptyIsSortedStably(cmp, h.items);
    } else {
      var list, tail;
      ghost var sorted;
      list, tail, sorted := SortList(h.head, cmp, h.items);
      SortedIsArranged(cmp, h.items, sorted);
      assert h.TableIndexes();
      h.Relist(list, tail, sorted);
    }
  }

  lemma EmptyIsSortedStably<V>(cmp: Compare<Elem<V>>, s: seq<Elem<V>>)
    requires s == []
    ensures Sorted(cmp, s) && StablePermutation(cmp, s, s, Members(s)) && Arranged(cmp, s) == s
  {}

  lemma SortedIsArranged<V>(cmp: Compare<Elem<V>>, a: seq<Elem<V>>, b: seq<Elem<V>>)
    requires TotalPreorder(cmp, Members(a)) && Sorted(cmp, b) && StablePermutation(cmp, a, b, Members(a))
    ensures b == Arranged(cmp, a)
  {
    hide TotalPreorder, Sorted, StablePermutation, Arranged;
    assert Within(a, Members(a));
    StableSortArranges(cmp, a, b, Members(a));
  }

  /** The passes, with runs of doubling length, until one merge does it all. */
  method SortList<V>(head: Elem<V>, cmp: Compare<Elem<V>>, ghost s: seq<Elem<V>>)
    returns (list: Elem<V>, tail: Elem<V>, ghost sorted: seq<Elem<V>>)
    requires s != [] && head == s[0] && UniqueKeys(s) && AppLinked(s) && TotalPreorder(cmp, Members(s))
    modifies s`next, s`prev
    ensures Sorted(cmp, sorted) && StablePermutation(cmp, s, sorted, Members(s)) && Members(sorted) == Members(s)
    ensures AppLinked(sorted) && list == First(sorted) && tail == Last(sorted)
    ensures UniqueKeys(sorted) && |sorted| == |s|
  {
    hide AppLinked, TotalPreorder, RunsSorted, StablePermutation, UniqueKeys, Sorted, MergePass, Distinct, Forwarded;
    list, tail, sorted := head, head, s;
    var insize := 1;
    var looping := true;
    SingletonsAreSorted(cmp, s);
    SameIsStable(cmp, s, Members(s));
    while looping
      invariant insize > 0 && list == First(sorted) && AppLinked(sorted) && |sorted| == |s|
      invariant StablePermutation(cmp, s, sorted, Members(s)) && Members(sorted) == Members(s)
      invariant if looping then RunsSorted(cmp, sorted, insize) else Sorted(cmp, sorted) && tail == Last(sorted)
      decreases looping, |s| - insize
    {
      var nmerges, next, last;
      ghost var before := sorted;
      PassFacts(cmp, sorted, insize, Members(s));
      AppLinkedIsForwarded(sorted);
      DistinctPermutation(cmp, s, sorted, Members(s));
      next, last, nmerges, sorted := Pass(list, cmp, insize, sorted);
      TiesAreTransitive(cmp, s, before, sorted, Members(s));
      list := next;
      if nmerges <= 1 {
        looping := false;
        tail := last;
        SingleRunIsSorted(cmp, sorted, 2 * insize);
      }
      insize := insize * 2;
    }
    DistinctPermutation(cmp, s, sorted, Members(s));
  }

  lemma SameIsStable<V>(cmp: Compare<Elem<V>>, a: seq<Elem<V>>, s: set<Elem<V>>)
    ensures StablePermutation(cmp, a, a, s)
  {}

  lemma DistinctPermutation<V>(cmp: Compare<Elem<V>>, a: seq<Elem<V>>, b: seq<Elem<V>>, s: set<Elem<V>>)
    requires UniqueKeys(a) && StablePermutation(cmp, a, b, s)
    ensures Distinct(b) && UniqueKeys(b)
  {
    UniqueKeysOfPermutation(a, b);
  }
}
