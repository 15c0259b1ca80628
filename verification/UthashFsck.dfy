/** The library's own integrity check, and that the operations' invariant passes it. */
module UthashFsck {
  import opened Uthash

  ghost function Total<V>(chains: seq<seq<Elem<V>>>, n: nat): nat
    requires n <= |chains|
  {
    if n == 0 then 0 else Total(chains, n - 1) + |chains[n - 1]|
  }

  /** As many as the places of a list without repetition. */
  lemma {:induction false} MembersCount<V>(s: seq<Elem<V>>)
    requires Distinct(s)
    ensures |Members(s)| == |s|
  {
    if s != [] {
      var n := |s| - 1;
      MembersCount(s[..n]);
      assert Members(s) == Members(s[..n]) + {s[n]} by {
        assert s == s[..n] + [s[n]];
      }
    }
  }

  /** The chains share no element, so their lengths add up to the number of elements. */
  lemma {:induction false} ChainsCount<V>(chains: seq<seq<Elem<V>>>, n: nat)
    requires Placed(chains) && n <= |chains|
    ensures |Processed(chains, n, 0)| == Total(chains, n)
  {
    hide Placed, Processed, Members, Distinct;
    if n == 0 {
      NothingProcessed(chains);
    } else {
      var m := n - 1;
      ChainsCount(chains, m);
      OneMoreChain(chains, m);
      MembersCount(chains[m]);
    }
  }

  lemma NothingProcessed<V>(chains: seq<seq<Elem<V>>>)
    ensures Processed(chains, 0, 0) == {}
  {}

  lemma OneMoreChain<V>(chains: seq<seq<Elem<V>>>, m: nat)
    requires Placed(chains) && m < |chains|
    ensures Distinct(chains[m])
    ensures Processed(chains, m + 1, 0) == Processed(chains, m, 0) + Members(chains[m])
    ensures Processed(chains, m, 0) !! Members(chains[m])
  {
    hide Slot, Distinct;
    forall e | e in Members(chains[m])
      ensures e in Processed(chains, m + 1, 0) && e !in Processed(chains, m, 0)
    {
      var k :| 0 <= k < |chains[m]| && chains[m][k] == e;
    }
  }

  lemma AllChainsCount<V>(chains: seq<seq<Elem<V>>>)
    requires Placed(chains)
    ensures |Elems(chains)| == Total(chains, |chains|)
  {
    ChainsCount(chains, |chains|);
    ProcessedIsElems(chains, |chains|, 0);
  }

  /** Walks a chain: its backward links are consistent exactly if ok; count is its length. */
  method CheckChain<V>(hhHead: Elem?<V>, ghost chain: seq<Elem<V>>) returns (ok: bool, count: nat)
    requires hhHead == First(chain)
    requires forall i {:trigger chain[i].hhNext} :: 0 <= i < |chain| ==> chain[i].hhNext == After(chain, i)
    ensures ok <==> forall i {:trigger chain[i].hhPrev} :: 0 <= i < |chain| ==> chain[i].hhPrev == Before(chain, i)
    ensures count == |chain|
  {
    ok, count := true, 0;
    var thh := hhHead;
    var prev: Elem?<V> := null;
    while thh != null
      invariant 0 <= count <= |chain| && thh == (if count < |chain| then chain[count] else null)
      invariant prev == if count > 0 then chain[count - 1] else null
      invariant ok <==> forall i {:trigger chain[i].hhPrev} :: 0 <= i < count ==> chain[i].hhPrev == Before(chain, i)
      decreases |chain| - count
    {
      if prev != thh.hhPrev {
        ok := false;
      }
      count := count + 1;
      prev := thh;
      thh := thh.hhNext;
    }
  }

  /** The same for the app order. */
  method CheckAppOrder<V>(head: Elem?<V>, ghost s: seq<Elem<V>>) returns (ok: bool, count: nat)
    requires head == First(s)
    requires forall i {:trigger s[i].next} :: 0 <= i < |s| ==> s[i].next == After(s, i)
    ensures ok <==> forall i {:trigger s[i].prev} :: 0 <= i < |s| ==> s[i].prev == Before(s, i)
    ensures count == |s|
  {
    ok, count := true, 0;
    var thh := head;
    var prev: Elem?<V> := null;
    while thh != null
      invariant 0 <= count <= |s| && thh == (if count < |s| then s[count] else null)
      invariant prev == if count > 0 then s[count - 1] else null
      invariant ok <==> forall i {:trigger s[i].prev} :: 0 <= i < count ==> s[i].prev == Before(s, i)
      decreases |s| - count
    {
      count := count + 1;
      if prev != thh.prev {
        ok := false;
      }
      prev := thh;
      thh := thh.next;
    }
  }

  /** All chains, their counts, and their sum. */
  method CheckBuckets<V>(tbl: Table<V>) returns (ok: bool)
    requires tbl.Indexed() && tbl.numItems == |Elems(tbl.chains)|
    ensures ok
  {
    hide Placed, Hashed, Elems, ChainsLinked, Heads, ChainLinked, First, Before, After, Total, Table.Indexed;
    BucketsMatch(tbl);
    AllChainsCount(tbl.chains);
    ok := true;
    var count := 0;
    NothingInTotal(tbl.chains);
    for bktI := 0 to tbl.numBuckets
      invariant ok && count == Total(tbl.chains, bktI)
    {
      HeadsFacts(tbl.buckets[bktI], tbl.chains[bktI]);
      TotalStep(tbl.chains, bktI);
      var chainOk, bktCount := CheckChain(tbl.buckets[bktI].hhHead, tbl.chains[bktI]);
      count := count + bktCount;
      ok := ok && chainOk && tbl.buckets[bktI].count == bktCount;
    }
    ok := ok && count == tbl.numItems;
  }

  lemma BucketsMatch<V>(tbl: Table<V>)
    requires tbl.Indexed()
    ensures tbl.numBuckets == |tbl.buckets| == |tbl.chains| && Placed(tbl.chains)
    ensures forall b :: 0 <= b < |tbl.chains| ==> Heads(tbl.buckets[b], tbl.chains[b])
  {}

  lemma HeadsFacts<V>(bucket: Bucket<V>, c: seq<Elem<V>>)
    requires Heads(bucket, c)
    ensures bucket.hhHead == First(c) && bucket.count == |c|
    ensures forall i {:trigger c[i].hhNext} :: 0 <= i < |c| ==> c[i].hhNext == After(c, i)
    ensures forall i {:trigger c[i].hhPrev} :: 0 <= i < |c| ==> c[i].hhPrev == Before(c, i)
  {}

  lemma NothingInTotal<V>(chains: seq<seq<Elem<V>>>)
    ensures Total(chains, 0) == 0
  {}

  lemma TotalStep<V>(chains: seq<seq<Elem<V>>>, n: nat)
    requires n < |chains|
    ensures Total(chains, n + 1) == Total(chains, n) + |chains[n]|
  {}

  /** Every table that the operations leave behind passes the check. */
  method Fsck<V>(h: HashTable<V>) returns (ok: bool)
    requires h.Valid()
    ensures ok
  {
    ok := true;
    if h.head != null {
      UniqueKeysMakeDistinct(h.items);
      MembersCount(h.items);
      hide Distinct, UniqueKeys, Placed, Hashed, ChainsLinked;
      ok := CheckBuckets(h.tbl);
      var appOk, count := CheckAppOrder(h.head, h.items);
      ok := ok && appOk && count == h.tbl.numItems;
    }
  }
}
