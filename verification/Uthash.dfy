/** Shifts and masks on unsigned numbers, as bucket arithmetic uses them. */
module Bits {

  function Pow2(k: nat): (p: nat)
    ensures p > 0
  {
    if k == 0 then 1 else 2 * Pow2(k - 1)
  }

  /** Bitwise and. */
  function And(x: nat, y: nat): nat
  {
    if x == 0 || y == 0 then 0 else 2 * And(x / 2, y / 2) + (if x % 2 == 1 && y % 2 == 1 then 1 else 0)
  }

  /** Shift right by k bits. */
  function ShiftRight(x: nat, k: nat): nat {
    if k == 0 then x else ShiftRight(x / 2, k - 1)
  }

  /** Masking with a power of two less one is the remainder. */
  lemma {:induction false} MaskIsRemainder(x: nat, k: nat)
    ensures And(x, Pow2(k) - 1) == x % Pow2(k)
  {
    hide And, Pow2;
    FirstPowers(k);
    if k == 0 {
      AndWithZero(x);
    } else {
      var p := Pow2(k - 1);
      MaskIsRemainder(x / 2, k - 1);
      AndWithOdd(x, p);
      Halved(x, p);
    }
  }

  lemma FirstPowers(k: nat)
    ensures if k == 0 then Pow2(k) == 1 else Pow2(k) == 2 * Pow2(k - 1)
  {}

  lemma AndWithZero(x: nat)
    ensures And(x, 0) == 0 == x % 1
  {}

  lemma AndWithOdd(x: nat, p: nat)
    requires p > 0
    ensures And(x, 2 * p - 1) == 2 * And(x / 2, p - 1) + x % 2
  {
    assert (2 * p - 1) / 2 == p - 1 && (2 * p - 1) % 2 == 1;
  }

  lemma Halved(x: nat, p: nat)
    requires p > 0
    ensures x % (2 * p) == 2 * (x / 2 % p) + x % 2 && x / (2 * p) == x / 2 / p
  {
    Division(x / 2, p);
    DoubledSum(x, x / 2, x % 2, p, x / 2 / p, x / 2 % p);
    RemainderIsUnique(x, 2 * p, x / 2 / p, 2 * (x / 2 % p) + x % 2);
  }

  lemma Division(x: nat, p: nat)
    requires p > 0
    ensures x == p * (x / p) + x % p && x % p < p
  {}

  lemma DoubledSum(x: int, half: int, bit: int, p: int, q: int, r: int)
    requires x == 2 * half + bit && half == p * q + r
    ensures x == (2 * p) * q + (2 * r + bit)
  {}

  lemma RemainderIsUnique(x: nat, d: nat, q: nat, r: nat)
    requires d > 0 && x == d * q + r && r < d
    ensures x % d == r && x / d == q
  {
    SameDivision(d, q, r, x / d, x % d);
  }

  lemma SameDivision(d: int, q: int, r: int, q': int, r': int)
    requires 0 <= r < d && 0 <= r' < d && d * q + r == d * q' + r'
    ensures q == q' && r == r'
  {
    if q < q' {
      AtLeastFactor(d, q' - q);
    } else if q' < q {
      AtLeastFactor(d, q - q');
    }
  }

  lemma AtLeastFactor(d: int, k: int)
    requires d > 0 && k >= 1
    ensures d * k >= d
  {}

  /** Shifting divides by the power of two. */
  lemma {:induction false} ShiftIsQuotient(x: nat, k: nat)
    ensures ShiftRight(x, k) == x / Pow2(k)
  {
    if k > 0 {
      ShiftIsQuotient(x / 2, k - 1);
      Halved(x, Pow2(k - 1));
    }
  }

  /** The remainder by 2b is the remainder by b, or that plus b. */
  lemma DoubledRemainder(x: nat, b: nat)
    requires b > 0
    ensures x % (2 * b) == x % b || x % (2 * b) == x % b + b
  {
    DoubledDivision(b, x / (2 * b), x % (2 * b), x / b, x % b);
  }

  lemma DoubledDivision(b: int, q: int, r: int, q': int, r': int)
    requires 0 <= r < 2 * b && 0 <= r' < b && (2 * b) * q + r == b * q' + r'
    ensures r == r' || r == r' + b
  {
    assert (2 * b) * q == b * (2 * q);
    assert b * (2 * q + 1) == b * (2 * q) + b;
    if r < b {
      SameDivision(b, 2 * q, r, q', r');
    } else {
      SameDivision(b, 2 * q + 1, r - b, q', r');
    }
  }

  /** n / d rounded up. */
  function CeilingQuotient(n: nat, d: nat): (c: nat)
    requires d > 0
  {
    n / d + if n % d != 0 then 1 else 0
  }

  /** Rounding up yields the least c with n <= c * d. */
  lemma CeilingIsLeast(n: nat, d: nat)
    requires d > 0
    ensures n <= CeilingQuotient(n, d) * d
    ensures forall c: nat :: n <= c * d ==> CeilingQuotient(n, d) <= c
  {
    Division(n, d);
    assert (n / d + 1) * d == d * (n / d) + d;
    forall c: nat | n <= c * d
      ensures CeilingQuotient(n, d) <= c
    {
      NotBelow(c, n / d, n % d, d);
    }
  }

  lemma NotBelow(c: int, q: int, r: int, d: int)
    requires 0 <= r < d && d * q + r <= c * d
    ensures q <= c && (r > 0 ==> q < c)
  {
    if c < q {
      AtLeastFactor(d, q - c);
    }
  }
}

/** The intrusive hash table: bucket chains for lookup, one doubly linked list for insertion order. */
module Uthash {
  import opened Bits

  /** Keys are compared as byte strings. */
  type Key = seq<bv8>

  const INITIAL_NUM_BUCKETS := 32
  const INITIAL_NUM_BUCKETS_LOG2 := 5
  const BKT_CAPACITY_THRESH := 10

  /** A user element with its embedded hash handle. */
  class Elem<V> {
    const key: Key
    var value: V
    var prev: Elem?<V>
    var next: Elem?<V>
    var hhPrev: Elem?<V>
    var hhNext: Elem?<V>
    var hashv: nat

    constructor (key: Key, value: V)
      ensures this.key == key && this.value == value
    {
      this.key, this.value := key, value;
      prev, next, hhPrev, hhNext, hashv := null, null, null, null, 0;
    }
  }

  datatype Bucket<!V> = Bucket(hhHead: Elem?<V>, count: nat, expandMult: nat)

  ghost predicate Distinct<V>(s: seq<Elem<V>>) {
    forall i, j :: 0 <= i < j < |s| ==> s[i] != s[j]
  }

  ghost function First<V>(s: seq<Elem<V>>): Elem?<V> {
    if s == [] then null else s[0]
  }

  ghost function Last<V>(s: seq<Elem<V>>): Elem?<V> {
    if s == [] then null else s[|s| - 1]
  }

  /** Neighbours of position i. */
  ghost function Before<V>(s: seq<Elem<V>>, i: int): Elem?<V>
    requires 0 <= i < |s|
  {
    if i == 0 then null else s[i - 1]
  }

  ghost function After<V>(s: seq<Elem<V>>, i: int): Elem?<V>
    requires 0 <= i < |s|
  {
    if i == |s| - 1 then null else s[i + 1]
  }

  // ----- bucket chains

  /** The bucket links spell out the chain c. */
  ghost predicate ChainLinked<V>(c: seq<Elem<V>>)
    reads c`hhPrev, c`hhNext
  {
    && (forall i {:trigger c[i].hhPrev} :: 0 <= i < |c| ==> c[i].hhPrev == Before(c, i))
    && (forall i {:trigger c[i].hhNext} :: 0 <= i < |c| ==> c[i].hhNext == After(c, i))
  }

  /** The bucket records the head and the length of the linked chain c. */
  ghost predicate Heads<V>(bucket: Bucket<V>, c: seq<Elem<V>>)
    reads c`hhPrev, c`hhNext
  {
    ChainLinked(c) && bucket.hhHead == First(c) && bucket.count == |c|
  }

  /** The bucket that a hash value selects among n. */
  ghost function Slot(hashv: nat, n: nat): (b: nat)
    ensures n > 0 ==> b < n
  {
    if n > 0 then hashv % n else 0
  }

  ghost predicate InChain<V>(e: Elem<V>, c: seq<Elem<V>>) {
    e in c
  }

  ghost function Elems<V>(chains: seq<seq<Elem<V>>>): set<Elem<V>> {
    set b, i | 0 <= b < |chains| && 0 <= i < |chains[b]| :: chains[b][i]
  }

  /** Every element is in the chain that its hash value selects, and there only once. */
  ghost predicate Placed<V>(chains: seq<seq<Elem<V>>>)
    reads Elems(chains)`hashv
  {
    && (forall b, i :: 0 <= b < |chains| && 0 <= i < |chains[b]| ==> Slot(chains[b][i].hashv, |chains|) == b)
    && (forall b :: 0 <= b < |chains| ==> Distinct(chains[b]))
  }

  /** All chains are linked, with the heads and counts that the buckets record. */
  ghost predicate ChainsLinked<V>(chains: seq<seq<Elem<V>>>, bkts: seq<Bucket<V>>)
    requires |chains| == |bkts|
    reads Elems(chains)`hhPrev, Elems(chains)`hhNext
  {
    forall b :: 0 <= b < |chains| ==> Heads(bkts[b], chains[b])
  }

  ghost predicate Hashed<V>(chains: seq<seq<Elem<V>>>, hash: Key -> nat)
    reads Elems(chains)`hashv
  {
    forall e :: e in Elems(chains) ==> e.hashv == hash(e.key)
  }

  /** No element is in two chains. */
  ghost predicate Apart<V>(chains: seq<seq<Elem<V>>>) {
    forall a, b, i :: 0 <= a < |chains| && 0 <= b < |chains| && a != b && 0 <= i < |chains[a]| ==>
      !InChain(chains[a][i], chains[b])
  }

  lemma ChainsAreApart<V>(chains: seq<seq<Elem<V>>>)
    requires Placed(chains)
    ensures Apart(chains)
  {
    hide Distinct, Slot;
  }

  /** When the number of buckets doubles, an element of chain a goes to chain a or to its new counterpart. */
  lemma ChainsSplitInTwo<V>(chains: seq<seq<Elem<V>>>, chains': seq<seq<Elem<V>>>, a: nat, i: nat, a': nat, i': nat)
    requires Placed(chains) && Placed(chains') && |chains'| == 2 * |chains|
    requires a < |chains| && i < |chains[a]| && a' < |chains'| && i' < |chains'[a']| && chains[a][i] == chains'[a'][i']
    ensures a' == a || a' == a + |chains|
  {
    assert Slot(chains[a][i].hashv, |chains|) == a && Slot(chains'[a'][i'].hashv, |chains'|) == a';
    DoubledRemainder(chains[a][i].hashv, |chains|);
  }

  twostate lemma ChainKept<V>(c: seq<Elem<V>>)
    requires old(ChainLinked(c))
    requires forall i :: 0 <= i < |c| ==> c[i].hhPrev == old(c[i].hhPrev) && c[i].hhNext == old(c[i].hhNext)
    ensures ChainLinked(c)
  {}

  /** A new element in front of the chain that its hash value selects. */
  lemma PushKeepsChains<V>(chains: seq<seq<Elem<V>>>, bkt: nat, add: Elem<V>)
    requires bkt < |chains| && Placed(chains) && add !in Elems(chains) && bkt == Slot(add.hashv, |chains|)
    ensures var chains' := chains[bkt := [add] + chains[bkt]];
            Placed(chains') && Elems(chains') == Elems(chains) + {add}
  {
    hide Slot;
    var chains': seq<seq<Elem<V>>> := chains[bkt := [add] + chains[bkt]];
    forall b, i | 0 <= b < |chains'| && 0 <= i < |chains'[b]|
      ensures Slot(chains'[b][i].hashv, |chains'|) == b && chains'[b][i] in Elems(chains) + {add}
    {
      if b == bkt && i > 0 {
        assert chains'[b][i] == chains[b][i - 1];
      }
    }
    assert Distinct(chains'[bkt]) by {
      assert Distinct(chains[bkt]);
    }
    forall e | e in Elems(chains) + {add}
      ensures e in Elems(chains')
    {
      if e == add {
        assert chains'[bkt][0] == add;
      } else {
        var b, i :| 0 <= b < |chains| && 0 <= i < |chains[b]| && chains[b][i] == e;
        assert chains'[b][if b == bkt then i + 1 else i] == e;
      }
    }
  }

  ghost function Without<T>(s: seq<T>, i: nat): seq<T>
    requires i < |s|
  {
    s[..i] + s[i + 1..]
  }

  lemma WithoutAt<V>(c: seq<Elem<V>>, i: nat)
    requires i < |c| && Distinct(c)
    ensures Distinct(Without(c, i)) && c[i] !in Without(c, i)
    ensures |Without(c, i)| == |c| - 1
    ensures forall k :: 0 <= k < |c| - 1 ==> Without(c, i)[k] == c[if k < i then k else k + 1]
  {}

  /** A chain without one of its elements. */
  lemma RemovalKeepsChains<V>(chains: seq<seq<Elem<V>>>, bkt: nat, i: nat)
    requires bkt < |chains| && i < |chains[bkt]| && Placed(chains)
    ensures var chains' := chains[bkt := Without(chains[bkt], i)];
            Placed(chains') && Elems(chains') == Elems(chains) - {chains[bkt][i]}
  {
    hide Slot, Distinct, Without;
    var c, del := chains[bkt], chains[bkt][i];
    var chains': seq<seq<Elem<V>>> := chains[bkt := Without(c, i)];
    assert Distinct(c);
    WithoutAt(c, i);
    forall b, k | 0 <= b < |chains'| && 0 <= k < |chains'[b]|
      ensures Slot(chains'[b][k].hashv, |chains'|) == b && chains'[b][k] in Elems(chains) - {del}
    {
      if b == bkt {
        assert chains'[bkt][k] == c[if k < i then k else k + 1];
      } else {
        assert Slot(chains[b][k].hashv, |chains|) == b && Slot(del.hashv, |chains|) == bkt;
      }
    }
    forall e | e in Elems(chains) - {del}
      ensures e in Elems(chains')
    {
      var b, k :| 0 <= b < |chains| && 0 <= k < |chains[b]| && chains[b][k] == e;
      assert chains'[b][if b == bkt && k > i then k - 1 else k] == e;
    }
  }

  /** Once its neighbours skip position i, the links spell out the chain without it. */
  lemma UnlinkedIsLinked<V>(c: seq<Elem<V>>, i: nat)
    requires i < |c|
    requires forall k {:trigger c[k].hhNext} :: 0 <= k < |c| ==> c[k].hhNext == After(c, if k == i - 1 then i else k)
    requires forall k {:trigger c[k].hhPrev} :: 0 <= k < |c| ==> c[k].hhPrev == Before(c, if k == i + 1 then i else k)
    ensures ChainLinked(Without(c, i))
  {
    var w := Without(c, i);
    forall k | 0 <= k < |w|
      ensures w[k].hhPrev == Before(w, k) && w[k].hhNext == After(w, k)
    {
      var k' := if k < i then k else k + 1;
      assert w[k] == c[k'];
      assert k > 0 ==> w[k - 1] == c[if k - 1 < i then k - 1 else k];
      assert k + 1 < |w| ==> w[k + 1] == c[if k + 1 < i then k + 1 else k + 2];
    }
  }

  /** The hash table proper: buckets, statistics, and the tail of the app order. */
  class Table<V> {
    const hash: Key -> nat

    var buckets: seq<Bucket<V>>
    var numBuckets: nat
    var log2NumBuckets: nat
    var numItems: nat
    var tail: Elem<V>
    var idealChainMaxlen: nat
    var nonidealItems: nat
    var ineffExpands: nat
    var noexpand: nat

    ghost var chains: seq<seq<Elem<V>>>

    /** The buckets index the elements of the chains by their hash values. */
    ghost predicate Indexed()
      reads `numBuckets, `log2NumBuckets, `buckets, `chains, Elems(chains)`hhPrev, Elems(chains)`hhNext,
            Elems(chains)`hashv
    {
      && numBuckets == Pow2(log2NumBuckets) == |buckets| == |chains|
      && Placed(chains) && Hashed(chains, hash) && ChainsLinked(chains, buckets)
    }

    /** A fresh table of empty buckets. */
    constructor (hash: Key -> nat, head: Elem<V>)
      ensures Indexed() && Elems(chains) == {} && this.hash == hash
      ensures numBuckets == INITIAL_NUM_BUCKETS && numItems == ineffExpands == noexpand == 0 && tail == head
    {
      this.hash := hash;
      tail := head;
      numBuckets := INITIAL_NUM_BUCKETS;
      log2NumBuckets := INITIAL_NUM_BUCKETS_LOG2;
      numItems, idealChainMaxlen, nonidealItems, ineffExpands, noexpand := 0, 0, 0, 0, 0;
      buckets := seq(INITIAL_NUM_BUCKETS, _ => Bucket(null, 0, 0));
      chains := seq(INITIAL_NUM_BUCKETS, _ => []);
      new;
      hide Pow2;
      InitialSize();
    }

    static lemma InitialSize()
      ensures Pow2(INITIAL_NUM_BUCKETS_LOG2) == INITIAL_NUM_BUCKETS
    {
      assert Pow2(5) == 2 * Pow2(4) == 4 * Pow2(3) == 8 * Pow2(2) == 16 * Pow2(1) == 32;
    }

    /** The mask of HASH_TO_BKT. */
    static method BucketIndex(hashv: nat, numBuckets: nat, ghost log2: nat) returns (bkt: nat)
      requires numBuckets == Pow2(log2)
      ensures bkt == Slot(hashv, numBuckets)
    {
      MaskIsRemainder(hashv, log2);
      bkt := And(hashv, numBuckets - 1);
    }

    /** Walks one chain for the key. */
    static method FindInBkt(hhHead: Elem?<V>, key: Key, ghost chain: seq<Elem<V>>) returns (out: Elem?<V>)
      requires ChainLinked(chain) && hhHead == First(chain)
      ensures out != null ==> out in chain && out.key == key
      ensures out == null ==> forall e :: e in chain ==> e.key != key
    {
      out := hhHead;
      ghost var i := 0;
      while out != null
        invariant 0 <= i <= |chain|
        invariant out == if i < |chain| then chain[i] else null
        invariant forall k :: 0 <= k < i ==> chain[k].key != key
        decreases |chain| - i
      {
        if |out.key| == |key| && out.key == key {
          break;
        }
        out := out.hhNext;
        i := i + 1;
      }
    }

    method FindKey(key: Key) returns (out: Elem?<V>)
      requires Indexed()
      ensures out != null ==> out in Elems(chains) && out.key == key
      ensures out == null ==> forall e :: e in Elems(chains) ==> e.key != key
    {
      hide Pow2, Distinct, Slot;
      var bkt := BucketIndex(hash(key), numBuckets, log2NumBuckets);
      assert Heads(buckets[bkt], chains[bkt]);
      out := FindInBkt(buckets[bkt].hhHead, key, chains[bkt]);
    }

    /** Links an element in front of chain bkt; the other chains stay linked. */
    static method PushChain(hhHead: Elem?<V>, add: Elem<V>, ghost chains: seq<seq<Elem<V>>>, ghost bkt: nat)
      requires bkt < |chains| && Apart(chains) && hhHead == First(chains[bkt]) && Distinct(chains[bkt])
      requires forall b :: 0 <= b < |chains| ==> ChainLinked(chains[b]) && !InChain(add, chains[b])
      modifies add`hhPrev, add`hhNext, (if hhHead == null then {} else {hhHead})`hhPrev
      ensures ChainLinked([add] + chains[bkt])
      ensures forall b :: 0 <= b < |chains| && b != bkt ==> ChainLinked(chains[b])
    {
      add.hhNext := hhHead;
      add.hhPrev := null;
      if hhHead != null {
        hhHead.hhPrev := add;
      }
      forall b | 0 <= b < |chains| && b != bkt
        ensures ChainLinked(chains[b])
      {
        ChainKept(chains[b]);
      }
    }

    /** Links a new element into its bucket. */
    method LinkIntoBkt(bkt: nat, add: Elem<V>)
      requires Indexed() && add !in Elems(chains) && bkt == Slot(add.hashv, numBuckets) && add.hashv == hash(add.key)
      modifies `buckets, `chains, add`hhPrev, add`hhNext, Elems(chains)`hhPrev
      ensures Indexed() && Elems(chains) == old(Elems(chains)) + {add} && bkt < numBuckets
      ensures bkt < |old(buckets)|
      ensures buckets == old(buckets)[bkt := Bucket(add, old(buckets)[bkt].count + 1, old(buckets)[bkt].expandMult)]
    {
      hide Pow2, ChainLinked, Slot, Distinct, Placed, Hashed, Apart, InChain;
      ghost var before := chains;
      ChainsAreApart(chains);
      BeforeAdding(chains, buckets, bkt, add, hash);
      var b := buckets[bkt];
      buckets := buckets[bkt := b.(count := b.count + 1, hhHead := add)];
      chains := chains[bkt := [add] + chains[bkt]];
      PushChain(b.hhHead, add, before, bkt);
      assert Placed(chains) && Hashed(chains, hash);
    }

    /** What LinkIntoBkt knows before it changes anything. */
    static lemma BeforeAdding(chains: seq<seq<Elem<V>>>, bkts: seq<Bucket<V>>, bkt: nat, add: Elem<V>, hash: Key -> nat)
      requires bkt < |chains| == |bkts| && Placed(chains) && Hashed(chains, hash) && ChainsLinked(chains, bkts)
      requires add !in Elems(chains) && bkt == Slot(add.hashv, |chains|) && add.hashv == hash(add.key)
      ensures forall b :: 0 <= b < |chains| ==> Heads(bkts[b], chains[b]) && !InChain(add, chains[b])
      ensures First(chains[bkt]) != null ==> First(chains[bkt]) in Elems(chains)
      ensures Distinct(chains[bkt])
      ensures var chains' := chains[bkt := [add] + chains[bkt]];
              Placed(chains') && Elems(chains') == Elems(chains) + {add} && Hashed(chains', hash)
    {
      hide Pow2, ChainLinked, Slot, Distinct;
      PushKeepsChains(chains, bkt, add);
      assert forall l :: 0 <= l < |chains| ==> Heads(bkts[l], chains[l]);
    }

    /** Takes position i out of a chain. */
    static method Unlink(del: Elem<V>, ghost c: seq<Elem<V>>, ghost i: nat)
      requires Distinct(c) && ChainLinked(c) && i < |c| && c[i] == del
      modifies (if i > 0 then {c[i - 1]} else {})`hhNext, (if i + 1 < |c| then {c[i + 1]} else {})`hhPrev
      ensures ChainLinked(Without(c, i))
    {
      if del.hhPrev != null {
        del.hhPrev.hhNext := del.hhNext;
      }
      if del.hhNext != null {
        del.hhNext.hhPrev := del.hhPrev;
      }
      UnlinkedIsLinked(c, i);
    }

    /** Takes position i out of chain bkt; the other chains stay linked. */
    static method UnlinkChain(del: Elem<V>, ghost chains: seq<seq<Elem<V>>>, ghost bkt: nat, ghost i: nat)
      requires bkt < |chains| && Apart(chains) && Distinct(chains[bkt]) && i < |chains[bkt]| && chains[bkt][i] == del
      requires forall b :: 0 <= b < |chains| ==> ChainLinked(chains[b])
      modifies (if i > 0 then {chains[bkt][i - 1]} else {})`hhNext
      modifies (if i + 1 < |chains[bkt]| then {chains[bkt][i + 1]} else {})`hhPrev
      ensures ChainLinked(Without(chains[bkt], i))
      ensures forall b :: 0 <= b < |chains| && b != bkt ==> ChainLinked(chains[b])
    {
      Unlink(del, chains[bkt], i);
      forall b | 0 <= b < |chains| && b != bkt
        ensures ChainLinked(chains[b])
      {
        hide Distinct;
        ChainKept(chains[b]);
      }
    }

    /** Removes an element from its bucket. */
    method DelInBkt(bkt: nat, del: Elem<V>)
      requires Indexed() && del in Elems(chains) && bkt == Slot(del.hashv, numBuckets)
      modifies `buckets, `chains, Elems(chains)`hhPrev, Elems(chains)`hhNext
      ensures Indexed() && Elems(chains) == old(Elems(chains)) - {del}
    {
      hide Pow2, ChainLinked, Slot, Distinct, Placed, Hashed, Apart, InChain;
      ghost var before := chains;
      ChainsAreApart(chains);
      ghost var i := BeforeRemoving(chains, buckets, bkt, del, hash);
      var b := buckets[bkt];
      buckets := buckets[bkt := b.(count := b.count - 1, hhHead := if b.hhHead == del then del.hhNext else b.hhHead)];
      chains := chains[bkt := Without(chains[bkt], i)];
      UnlinkChain(del, before, bkt, i);
      assert Placed(chains) && Hashed(chains, hash);
    }

    /** What DelInBkt knows before it changes anything; i is the element's place in its chain. */
    static lemma BeforeRemoving(chains: seq<seq<Elem<V>>>, bkts: seq<Bucket<V>>, bkt: nat, del: Elem<V>,
                                hash: Key -> nat)
      returns (i: nat)
      requires |chains| == |bkts| && Placed(chains) && Hashed(chains, hash) && ChainsLinked(chains, bkts)
      requires del in Elems(chains) && bkt == Slot(del.hashv, |chains|)
      ensures bkt < |chains| && i < |chains[bkt]| && chains[bkt][i] == del && Distinct(chains[bkt])
      ensures forall b :: 0 <= b < |chains| ==> Heads(bkts[b], chains[b])
      ensures First(Without(chains[bkt], i)) == if bkts[bkt].hhHead == del then del.hhNext else bkts[bkt].hhHead
      ensures forall k :: 0 <= k < |chains[bkt]| ==> chains[bkt][k] in Elems(chains)
      ensures var chains' := chains[bkt := Without(chains[bkt], i)];
              Placed(chains') && Elems(chains') == Elems(chains) - {del} && Hashed(chains', hash)
    {
      hide Pow2, ChainLinked, Slot, Distinct;
      i :| 0 <= i < |chains[bkt]| && chains[bkt][i] == del;
      RemovalKeepsChains(chains, bkt, i);
      NextOfHead(chains[bkt], i);
      assert forall l :: 0 <= l < |chains| ==> Heads(bkts[l], chains[l]);
    }

    static lemma NextOfHead(c: seq<Elem<V>>, i: nat)
      requires ChainLinked(c) && Distinct(c) && i < |c|
      ensures First(Without(c, i)) == if First(c) == c[i] then c[i].hhNext else First(c)
    {
    }

    /** One more element makes the bucket ask for expansion. */
    static predicate IsOverfull(b: Bucket<V>) {
      b.count + 1 >= (b.expandMult + 1) * BKT_CAPACITY_THRESH
    }

    /** Adds an element to its bucket, and doubles the buckets when that one has become too full. */
    method AddToBkt(bkt: nat, add: Elem<V>)
      requires Indexed() && add !in Elems(chains) && bkt == Slot(add.hashv, numBuckets) && add.hashv == hash(add.key)
      requires numItems > 0
      modifies this, add`hhPrev, add`hhNext, Elems(chains)`hhPrev, Elems(chains)`hhNext
      ensures Indexed() && Elems(chains) == old(Elems(chains)) + {add} && numItems == old(numItems) && tail == old(tail)
      ensures bkt < |old(buckets)|
      ensures numBuckets ==
              if IsOverfull(old(buckets)[bkt]) && old(noexpand) != 1 then 2 * old(numBuckets) else old(numBuckets)
    {
      LinkIntoBkt(bkt, add);
      if buckets[bkt].count >= (buckets[bkt].expandMult + 1) * BKT_CAPACITY_THRESH && noexpand != 1 {
        ExpandBuckets();
      }
    }

    /** Puts an element that is in no bucket of the larger table yet in front of its bucket there. */
    static method MoveToBkt(e: Elem<V>, bkts: seq<Bucket<V>>, log2: nat, ideal: nat, nonideal: nat,
                            ghost newChains: seq<seq<Elem<V>>>)
      returns (bkts': seq<Bucket<V>>, nonideal': nat, ghost newChains': seq<seq<Elem<V>>>)
      requires |bkts| == |newChains| == Pow2(log2) && Placed(newChains) && ChainsLinked(newChains, bkts)
      requires e !in Elems(newChains) && ideal > 0 && Statistics(bkts, ideal, nonideal)
      modifies e`hhPrev, e`hhNext, Elems(newChains)`hhPrev
      ensures |bkts'| == |newChains'| == |bkts| && Placed(newChains') && ChainsLinked(newChains', bkts')
      ensures Elems(newChains') == Elems(newChains) + {e} && Statistics(bkts', ideal, nonideal')
    {
      hide Pow2, ChainLinked, Slot, Distinct, Placed, Apart, InChain, Statistics;
      var bkt := BucketIndex(e.hashv, |bkts|, log2);
      ChainsAreApart(newChains);
      BeforeMoving(newChains, bkts, bkt, e);
      var b := bkts[bkt];
      var (b', n') := CountedBucket(b, e, ideal, nonideal);
      CountKeepsStatistics(bkts, bkt, b', ideal, nonideal, n');
      bkts', nonideal' := bkts[bkt := b'], n';
      newChains' := newChains[bkt := [e] + newChains[bkt]];
      PushChain(b.hhHead, e, newChains, bkt);
      assert Placed(newChains');
    }

    static lemma BeforeMoving(chains: seq<seq<Elem<V>>>, bkts: seq<Bucket<V>>, bkt: nat, add: Elem<V>)
      requires bkt < |chains| == |bkts| && Placed(chains) && ChainsLinked(chains, bkts)
      requires add !in Elems(chains) && bkt == Slot(add.hashv, |chains|)
      ensures forall b :: 0 <= b < |chains| ==> Heads(bkts[b], chains[b]) && !InChain(add, chains[b])
      ensures First(chains[bkt]) != null ==> First(chains[bkt]) in Elems(chains)
      ensures Distinct(chains[bkt])
      ensures var chains' := chains[bkt := [add] + chains[bkt]];
              Placed(chains') && Elems(chains') == Elems(chains) + {add}
    {
      hide Pow2, ChainLinked, Slot, Distinct;
      PushKeepsChains(chains, bkt, add);
      assert forall l :: 0 <= l < |chains| ==> Heads(bkts[l], chains[l]);
    }

    /** Moves the rest of the old chains' chain i into the larger table. */
    static method RehashChain(hhHead: Elem?<V>, bkts: seq<Bucket<V>>, log2: nat, ideal: nat, nonideal: nat,
                              ghost chains: seq<seq<Elem<V>>>, ghost i: nat, ghost newChains: seq<seq<Elem<V>>>)
      returns (bkts': seq<Bucket<V>>, nonideal': nat, ghost newChains': seq<seq<Elem<V>>>)
      requires i < |chains| && Placed(chains) && hhHead == First(chains[i]) && Forward(chains, i, 0)
      requires |bkts| == |newChains| == Pow2(log2) && Placed(newChains) && ChainsLinked(newChains, bkts)
      requires Elems(newChains) == Processed(chains, i, 0) && ideal > 0 && Statistics(bkts, ideal, nonideal)
      modifies Elems(chains)`hhPrev, Elems(chains)`hhNext
      ensures |bkts'| == |newChains'| == |bkts| && Placed(newChains') && ChainsLinked(newChains', bkts')
      ensures Elems(newChains') == Processed(chains, i + 1, 0) && Statistics(bkts', ideal, nonideal')
      ensures Forward(chains, i + 1, 0)
    {
      hide Pow2, ChainsLinked, Slot, Distinct, Placed, Statistics, Processed;
      bkts', nonideal', newChains' := bkts, nonideal, newChains;
      var thh := hhHead;
      ghost var k := 0;
      ProcessedIsElems(chains, i, k);
      while thh != null
        invariant 0 <= k <= |chains[i]| && thh == if k < |chains[i]| then chains[i][k] else null
        invariant Forward(chains, i, k) && Placed(chains)
        invariant |bkts'| == |newChains'| == |bkts| && Placed(newChains') && ChainsLinked(newChains', bkts')
        invariant Elems(newChains') == Processed(chains, i, k) <= Elems(chains) && Statistics(bkts', ideal, nonideal')
        decreases |chains[i]| - k
      {
        ProcessedStep(chains, i, k);
        ProcessedIsElems(chains, i, k + 1);
        var hhNxt := thh.hhNext;
        bkts', nonideal', newChains' := MoveToBkt(thh, bkts', log2, ideal, nonideal', newChains');
        thh := hhNxt;
        k := k + 1;
      }
      ProcessedChain(chains, i);
    }

    /** Doubles the number of buckets and redistributes the elements. */
    method ExpandBuckets()
      requires Indexed() && numItems > 0
      modifies this, Elems(chains)`hhPrev, Elems(chains)`hhNext
      ensures Indexed() && Elems(chains) == old(Elems(chains)) && numItems == old(numItems) && tail == old(tail)
      ensures numBuckets == 2 * old(numBuckets)
      ensures idealChainMaxlen == CeilingQuotient(numItems, numBuckets)
      ensures idealChainMaxlen > 0 && Statistics(buckets, idealChainMaxlen, nonidealItems)
      ensures ineffExpands == if nonidealItems > numItems / 2 then old(ineffExpands) + 1 else 0
      ensures noexpand == if ineffExpands > 1 then 1 else old(noexpand)
    {
      hide Statistics, CeilingQuotient;
      Redistribute();
      JudgeExpansion();
    }

    method Redistribute()
      requires Indexed() && numItems > 0
      modifies `numBuckets, `log2NumBuckets, `buckets, `chains, `idealChainMaxlen, `nonidealItems
      modifies Elems(chains)`hhPrev, Elems(chains)`hhNext
      ensures Indexed() && Elems(chains) == old(Elems(chains)) && numBuckets == 2 * old(numBuckets)
      ensures idealChainMaxlen == CeilingQuotient(numItems, numBuckets)
      ensures idealChainMaxlen > 0 && Statistics(buckets, idealChainMaxlen, nonidealItems)
    {
      hide ChainsLinked, Slot, Distinct, Placed, Statistics, Hashed, Pow2, And, ShiftRight, CeilingQuotient;
      IdealLength(numItems, log2NumBuckets);
      var ideal := ShiftRight(numItems, log2NumBuckets + 1) + if And(numItems, numBuckets * 2 - 1) != 0 then 1 else 0;
      var newBuckets, nonideal;
      ghost var newChains;
      newBuckets, nonideal, newChains := Rehash(buckets, log2NumBuckets + 1, ideal, chains);
      SameElems(chains, newChains, hash);
      numBuckets, log2NumBuckets, buckets, chains := numBuckets * 2, log2NumBuckets + 1, newBuckets, newChains;
      idealChainMaxlen, nonidealItems := ideal, nonideal;
      assert Placed(chains) && Hashed(chains, hash) && ChainsLinked(chains, buckets);
      hide Elems;
    }

    /** Expansions that leave more than half of the items in excess, twice in a row, are given up. */
    method JudgeExpansion()
      modifies `ineffExpands, `noexpand
      ensures ineffExpands == if nonidealItems > numItems / 2 then old(ineffExpands) + 1 else 0
      ensures noexpand == if ineffExpands > 1 then 1 else old(noexpand)
    {
      ShiftIsQuotient(numItems, 1);
      assert Pow2(1) == 2 * Pow2(0) == 2;
      ineffExpands := if nonidealItems > ShiftRight(numItems, 1) then ineffExpands + 1 else 0;
      if ineffExpands > 1 {
        noexpand := 1;
      }
    }

    static lemma SameElems(chains: seq<seq<Elem<V>>>, chains': seq<seq<Elem<V>>>, hash: Key -> nat)
      requires Elems(chains) == Elems(chains')
      ensures Hashed(chains, hash) <==> Hashed(chains', hash)
    {
      hide Elems;
    }

    /** Moves all chains into a table of 2^log2 buckets, twice as many as before. */
    static method Rehash(bkts: seq<Bucket<V>>, log2: nat, ideal: nat, ghost chains: seq<seq<Elem<V>>>)
      returns (bkts': seq<Bucket<V>>, nonideal: nat, ghost chains': seq<seq<Elem<V>>>)
      requires |bkts| == |chains| && Placed(chains) && ChainsLinked(chains, bkts)
      requires 2 * |bkts| == Pow2(log2) && ideal > 0
      modifies Elems(chains)`hhPrev, Elems(chains)`hhNext
      ensures |bkts'| == |chains'| == 2 * |bkts| && Placed(chains') && ChainsLinked(chains', bkts')
      ensures Elems(chains') == Elems(chains) && Statistics(bkts', ideal, nonideal)
    {
      hide Pow2, ChainsLinked, Slot, Distinct, Placed, Statistics, Processed;
      bkts' := seq(2 * |bkts|, _ => Bucket(null, 0, 0));
      chains' := seq(2 * |bkts|, _ => []);
      nonideal := 0;
      EmptyBuckets(chains', bkts', chains);
      NoExcess(bkts', ideal);
      StillForward(chains, bkts);
      var i := 0;
      while i < |bkts|
        invariant 0 <= i <= |bkts|
        invariant |bkts'| == |chains'| == 2 * |bkts| && Placed(chains') && ChainsLinked(chains', bkts')
        invariant Elems(chains') == Processed(chains, i, 0) && Statistics(bkts', ideal, nonideal)
        invariant Forward(chains, i, 0) && Placed(chains)
      {
        bkts', nonideal, chains' := RehashChain(bkts[i].hhHead, bkts', log2, ideal, nonideal, chains, i, chains');
        i := i + 1;
      }
      ProcessedIsElems(chains, i, 0);
    }

    static lemma EmptyBuckets(newChains: seq<seq<Elem<V>>>, newBuckets: seq<Bucket<V>>, chains: seq<seq<Elem<V>>>)
      requires |newChains| == |newBuckets|
      requires forall b :: 0 <= b < |newChains| ==> newChains[b] == [] && newBuckets[b] == Bucket(null, 0, 0)
      ensures Placed(newChains) && ChainsLinked(newChains, newBuckets)
      ensures Elems(newChains) == Processed(chains, 0, 0) == {}
    {}

    static lemma NoExcess(bkts: seq<Bucket<V>>, ideal: nat)
      requires ideal > 0 && forall b :: 0 <= b < |bkts| ==> bkts[b] == Bucket(null, 0, 0)
      ensures Statistics(bkts, ideal, 0)
    {
      for n := 0 to |bkts|
        invariant Excess(bkts, ideal, n) == 0
      {}
    }

    static lemma StillForward(chains: seq<seq<Elem<V>>>, bkts: seq<Bucket<V>>)
      requires |chains| == |bkts| && ChainsLinked(chains, bkts)
      ensures Forward(chains, 0, 0)
      ensures forall b :: 0 <= b < |chains| ==> bkts[b].hhHead == First(chains[b])
    {
      assert forall b :: 0 <= b < |chains| ==> Heads(bkts[b], chains[b]);
    }

    /** The ideal chain length for twice 2^k buckets, by shift and mask, is the quotient rounded up. */
    static lemma IdealLength(n: nat, k: nat)
      requires n > 0
      ensures Pow2(k + 1) == 2 * Pow2(k)
      ensures ShiftRight(n, k + 1) + (if And(n, Pow2(k) * 2 - 1) != 0 then 1 else 0) ==
              CeilingQuotient(n, 2 * Pow2(k)) > 0
    {
      ShiftIsQuotient(n, k + 1);
      MaskIsRemainder(n, k + 1);
      CeilingIsLeast(n, Pow2(k + 1));
    }

    /** The bucket with one more element, and the running number of nonideal items. */
    static function CountedBucket(b: Bucket<V>, e: Elem<V>, ideal: nat, nonideal: nat): (Bucket<V>, nat)
      requires ideal > 0
    {
      var count := b.count + 1;
      if count > ideal then (Bucket(e, count, count / ideal), nonideal + 1)
      else (Bucket(e, count, b.expandMult), nonideal)
    }
  }

  /** How far the chains exceed the ideal length, over the first n buckets. */
  function Excess<V>(bkts: seq<Bucket<V>>, ideal: nat, n: nat): nat
    requires n <= |bkts|
  {
    if n == 0 then 0
    else Excess(bkts, ideal, n - 1) + if bkts[n - 1].count > ideal then bkts[n - 1].count - ideal else 0
  }

  /** The statistics of an expansion: the items in excess of the ideal chain length, and a multiplier of
      count / ideal on exactly the overfull buckets. */
  ghost predicate Statistics<V>(bkts: seq<Bucket<V>>, ideal: nat, nonideal: nat)
    requires ideal > 0
  {
    && nonideal == Excess(bkts, ideal, |bkts|)
    && forall b :: 0 <= b < |bkts| ==> bkts[b].expandMult == if bkts[b].count > ideal then bkts[b].count / ideal else 0
  }

  lemma {:induction false} ExcessAfterCount<V>(bkts: seq<Bucket<V>>, bkt: nat, b': Bucket<V>, ideal: nat, n: nat)
    requires bkt < |bkts| && n <= |bkts| && b'.count == bkts[bkt].count + 1
    ensures Excess(bkts[bkt := b'], ideal, n) == Excess(bkts, ideal, n) + if bkt < n && b'.count > ideal then 1 else 0
  {
    if n > 0 {
      ExcessAfterCount(bkts, bkt, b', ideal, n - 1);
    }
  }

  lemma CountKeepsStatistics<V>(bkts: seq<Bucket<V>>, bkt: nat, b': Bucket<V>, ideal: nat, nonideal: nat,
                                nonideal': nat)
    requires bkt < |bkts| && ideal > 0 && Statistics(bkts, ideal, nonideal)
    requires b'.count == bkts[bkt].count + 1
    requires b'.expandMult == if b'.count > ideal then b'.count / ideal else bkts[bkt].expandMult
    requires nonideal' == if b'.count > ideal then nonideal + 1 else nonideal
    ensures Statistics(bkts[bkt := b'], ideal, nonideal')
  {
    ExcessAfterCount(bkts, bkt, b', ideal, |bkts|);
  }

  /** The elements of the chains before chain i, and of the first k places of chain i. */
  ghost function Processed<V>(chains: seq<seq<Elem<V>>>, i: nat, k: nat): set<Elem<V>> {
    set b, p | 0 <= b < |chains| && 0 <= p < |chains[b]| && (b < i || (b == i && p < k)) :: chains[b][p]
  }

  /** The forward links from place k of chain i on are still those of the old chains. */
  ghost predicate Forward<V>(chains: seq<seq<Elem<V>>>, i: nat, k: nat)
    reads Elems(chains)`hhNext
  {
    forall b, p {:trigger chains[b][p].hhNext} ::
      0 <= b < |chains| && 0 <= p < |chains[b]| && (b > i || (b == i && p >= k)) ==>
        chains[b][p].hhNext == After(chains[b], p)
  }

  lemma ProcessedIsElems<V>(chains: seq<seq<Elem<V>>>, i: nat, k: nat)
    ensures Processed(chains, i, k) <= Elems(chains)
    ensures i == |chains| ==> Processed(chains, i, k) == Elems(chains)
  {}

  lemma ProcessedStep<V>(chains: seq<seq<Elem<V>>>, i: nat, k: nat)
    requires Placed(chains) && i < |chains| && k < |chains[i]|
    ensures chains[i][k] !in Processed(chains, i, k) && chains[i][k] in Elems(chains)
    ensures Processed(chains, i, k + 1) == Processed(chains, i, k) + {chains[i][k]}
    ensures forall b, p :: 0 <= b < |chains| && 0 <= p < |chains[b]| && (b > i || (b == i && p > k)) ==>
      chains[b][p] != chains[i][k]
  {
    hide Slot;
    assert Distinct(chains[i]);
  }

  lemma ProcessedChain<V>(chains: seq<seq<Elem<V>>>, i: nat)
    requires i < |chains|
    ensures Processed(chains, i, |chains[i]|) == Processed(chains, i + 1, 0)
  {}

  // ----- the app-order list

  ghost predicate UniqueKeys<V>(s: seq<Elem<V>>) {
    forall i, j :: 0 <= i < j < |s| ==> s[i].key != s[j].key
  }

  /** The app-order links spell out s, from null to null. */
  ghost predicate AppLinked<V>(s: seq<Elem<V>>)
    reads s`prev, s`next
  {
    && (forall i {:trigger s[i].prev} :: 0 <= i < |s| ==> s[i].prev == Before(s, i))
    && (forall i {:trigger s[i].next} :: 0 <= i < |s| ==> s[i].next == After(s, i))
  }

  ghost function Members<V>(s: seq<Elem<V>>): set<Elem<V>> {
    set e | e in s
  }

  lemma UniqueKeysMakeDistinct<V>(s: seq<Elem<V>>)
    requires UniqueKeys(s)
    ensures Distinct(s)
  {
    forall i, j | 0 <= i < j < |s|
      ensures s[i] != s[j]
    {
      assert s[i].key != s[j].key;
    }
  }

  /** The user's hash: the pointer to the first element, whose handle leads to the table. */
  class HashTable<V> {
    const hash: Key -> nat
    var head: Elem?<V>
    var tbl: Table?<V>

    ghost var items: seq<Elem<V>>

    /** The integrity that HASH_FSCK checks, and what the operations rely on besides: the app order lists
        the items, and the table indexes exactly those. */
    ghost predicate Valid()
      reads this, tbl, items`prev, items`next, items`hhPrev, items`hhNext, items`hashv
    {
      && head == First(items) && UniqueKeys(items) && AppLinked(items)
      && (if items == [] then tbl == null else TableIndexes() && tbl.tail == Last(items))
    }

    /** The table indexes the items. */
    ghost predicate TableIndexes()
      reads this, tbl, items`hhPrev, items`hhNext, items`hashv
    {
      && tbl != null && tbl.hash == hash && tbl.numItems == |items|
      && Elems(tbl.chains) == Members(items) && tbl.Indexed()
    }

    constructor (hash: Key -> nat)
      ensures Valid() && items == [] && this.hash == hash
    {
      this.hash := hash;
      head, tbl := null, null;
      items := [];
    }

    /** The element with the key, if there is one. */
    method Find(key: Key) returns (out: Elem?<V>)
      requires Valid()
      ensures out != null ==> out in items && out.key == key
      ensures out == null ==> forall e :: e in items ==> e.key != key
    {
      out := null;
      if head != null {
        out := tbl.FindKey(key);
        assert forall e :: e in items ==> e in Members(items);
      }
    }

    /** Appends to the app-order list; the first element brings the table with it. */
    method AppendLast(add: Elem<V>)
      requires Valid() && add !in items
      modifies `head, `tbl, (if tbl == null then {} else {tbl})`tail, items`next, add`prev, add`next
      ensures AppLinked(items + [add]) && head == First(items + [add])
      ensures TableIndexes() && tbl.tail == add && (tbl == old(tbl) || fresh(tbl))
    {
      hide Elems, UniqueKeys, AppLinked;
      if head == null {
        StartList(add);
        assert items + [add] == [add];
      } else {
        LinkLast(add);
      }
    }

    method StartList(add: Elem<V>)
      requires Valid() && items == []
      modifies `head, `tbl, add`prev, add`next
      ensures AppLinked([add]) && head == add
      ensures TableIndexes() && tbl.tail == add && fresh(tbl)
    {
      hide Elems, UniqueKeys, Pow2;
      add.next := null;
      head := add;
      add.prev := null;
      tbl := new Table(hash, add);
    }

    method LinkLast(add: Elem<V>)
      requires Valid() && items != [] && add !in items
      modifies tbl`tail, items`next, add`prev, add`next
      ensures AppLinked(items + [add])
      ensures TableIndexes() && tbl.tail == add
    {
      UniqueKeysMakeDistinct(items);
      hide UniqueKeys, Pow2, AppLinked, Distinct;
      LinkAfter(tbl.tail, add, items);
      tbl.tail := add;
    }

    static method LinkAfter(last: Elem<V>, add: Elem<V>, ghost s: seq<Elem<V>>)
      requires s != [] && last == Last(s) && AppLinked(s) && Distinct(s) && add !in s
      modifies last`next, add`prev, add`next
      ensures AppLinked(s + [add])
    {
      add.next := null;
      last.next := add;
      add.prev := last;
    }

    /** Counts a new element and hashes it into its bucket. */
    method AddToTable(add: Elem<V>)
      requires TableIndexes() && add !in items
      modifies `items, tbl, items`hhPrev, items`hhNext, add`hhPrev, add`hhNext, add`hashv
      ensures TableIndexes() && items == old(items) + [add] && tbl.tail == old(tbl.tail)
    {
      hide Placed, ChainsLinked, Hashed, Pow2, Slot;
      assert Members(items + [add]) == Members(items) + {add};
      items := items + [add];
      tbl.numItems := tbl.numItems + 1;
      add.hashv := hash(add.key);
      var bkt := Table<V>.BucketIndex(add.hashv, tbl.numBuckets, tbl.log2NumBuckets);
      tbl.AddToBkt(bkt, add);
    }

    /** Puts an element whose key is new at the end of the app order and into its bucket. */
    method Add(add: Elem<V>)
      requires Valid() && add !in items && forall e :: e in items ==> e.key != add.key
      modifies this, tbl, items`prev, items`next, items`hhPrev, items`hhNext, add`prev, add`next, add`hhPrev
      modifies add`hhNext, add`hashv
      ensures Valid() && items == old(items) + [add]
      ensures tbl == old(tbl) || fresh(tbl)
    {
      hide AppLinked, TableIndexes;
      AppendLast(add);
      AddToTable(add);
    }

    /** The usual patch-up of the app-order list around position i. */
    static method UnlinkNeighbours(del: Elem<V>, ghost s: seq<Elem<V>>, ghost i: nat)
      requires Distinct(s) && AppLinked(s) && i < |s| && s[i] == del
      modifies (if i > 0 then {s[i - 1]} else {})`next, (if i + 1 < |s| then {s[i + 1]} else {})`prev
      ensures AppLinked(Without(s, i))
    {
      if del.prev != null {
        del.prev.next := del.next;
      }
      if del.next != null {
        del.next.prev := del.prev;
      }
      AppUnlinked(s, i);
    }

    static lemma AppUnlinked(s: seq<Elem<V>>, i: nat)
      requires i < |s|
      requires forall k {:trigger s[k].next} :: 0 <= k < |s| ==> s[k].next == After(s, if k == i - 1 then i else k)
      requires forall k {:trigger s[k].prev} :: 0 <= k < |s| ==> s[k].prev == Before(s, if k == i + 1 then i else k)
      ensures AppLinked(Without(s, i))
    {
      var w := Without(s, i);
      forall k | 0 <= k < |w|
        ensures w[k].prev == Before(w, k) && w[k].next == After(w, k)
      {
        assert w[k] == s[if k < i then k else k + 1];
        assert k > 0 ==> w[k - 1] == s[if k - 1 < i then k - 1 else k];
        assert k + 1 < |w| ==> w[k + 1] == s[if k + 1 < i then k + 1 else k + 2];
      }
    }

    /** First and last of a list that loses position i, from the links of the removed element. */
    static lemma EndsAfterRemoval(s: seq<Elem<V>>, i: nat)
      requires AppLinked(s) && Distinct(s) && i < |s| && |s| > 1
      ensures First(Without(s, i)) == if s[i].prev == null then s[i].next else First(s)
      ensures Last(Without(s, i)) == if s[i] == Last(s) then s[i].prev else Last(s)
      ensures s[i] == Last(s) ==> s[i].prev != null
    {}

    /** Takes an item that is not the only one out of the app order. */
    method UnlinkApp(delptr: Elem<V>, ghost i: nat)
      requires Valid() && i < |items| && items[i] == delptr && |items| > 1
      modifies `head, tbl`tail, items`prev, items`next
      ensures AppLinked(Without(items, i)) && head == First(Without(items, i)) && tbl.tail == Last(Without(items, i))
      ensures TableIndexes()
    {
      hide UniqueKeys, Pow2, AppLinked, Distinct, Placed, ChainsLinked, Hashed, Without, First, Last;
      UniqueKeysMakeDistinct(items);
      EndsAfterRemoval(items, i);
      if delptr == tbl.tail {
        tbl.tail := delptr.prev;
      }
      if delptr.prev == null {
        head := delptr.next;
      }
      UnlinkNeighbours(delptr, items, i);
    }

    /** Takes an item out of its bucket and of the count. */
    method DeleteFromTable(delptr: Elem<V>, ghost i: nat)
      requires TableIndexes() && Distinct(items) && i < |items| && items[i] == delptr
      modifies `items, tbl, items`hhPrev, items`hhNext
      ensures TableIndexes() && items == Without(old(items), i) && tbl.tail == old(tbl.tail)
    {
      hide Placed, ChainsLinked, Hashed, Pow2, Slot;
      MembersWithout(items, i);
      items := Without(items, i);
      var bkt := Table<V>.BucketIndex(delptr.hashv, tbl.numBuckets, tbl.log2NumBuckets);
      tbl.DelInBkt(bkt, delptr);
      tbl.numItems := tbl.numItems - 1;
    }

    static lemma MembersWithout(s: seq<Elem<V>>, i: nat)
      requires Distinct(s) && i < |s|
      ensures Members(Without(s, i)) == Members(s) - {s[i]}
    {
      var w := Without(s, i);
      assert forall k :: 0 <= k < |w| ==> w[k] == s[if k < i then k else k + 1];
      forall e | e in s && e != s[i]
        ensures e in w
      {
        var k :| 0 <= k < |s| && s[k] == e;
        assert w[if k < i then k else k - 1] == e;
      }
    }

    /** Removes an item, wherever it is in the app order; removing the only one frees the table. */
    method Delete(delptr: Elem<V>) returns (ghost i: nat)
      requires Valid() && delptr in items
      modifies this, tbl, items`prev, items`next, items`hhPrev, items`hhNext
      ensures Valid() && (tbl == old(tbl) || tbl == null)
      ensures i < |old(items)| && old(items)[i] == delptr && items == Without(old(items), i)
    {
      i := BeforeDeleting(items, delptr);
      hide TableIndexes, UniqueKeys, Distinct, AppLinked, Without, First, Last;
      if delptr.prev == null && delptr.next == null {
        FreeTable();
      } else {
        DeleteOneOfMany(delptr, i);
      }
    }

    method DeleteOneOfMany(delptr: Elem<V>, ghost i: nat)
      requires Valid() && i < |items| && items[i] == delptr && |items| > 1
      modifies `head, `items, tbl, items`prev, items`next, items`hhPrev, items`hhNext
      ensures Valid() && items == Without(old(items), i)
    {
      UniqueKeysMakeDistinct(items);
      KeysWithout(items, i);
      hide TableIndexes, UniqueKeys, Distinct, AppLinked, First, Last;
      UnlinkApp(delptr, i);
      ghost var w := Without(items, i);
      assert AppLinked(w) && w != [];
      DeleteFromTable(delptr, i);
      assert items == w && AppLinked(w) && tbl.tail == Last(w);
    }

    /** The place of the item, and what Delete knows before it changes anything. */
    static lemma BeforeDeleting(s: seq<Elem<V>>, del: Elem<V>) returns (i: nat)
      requires AppLinked(s) && UniqueKeys(s) && del in s
      ensures i < |s| && s[i] == del && Distinct(s) && UniqueKeys(Without(s, i))
      ensures del.prev == null && del.next == null <==> |s| == 1
      ensures |s| == 1 <==> Without(s, i) == []
    {
      i :| 0 <= i < |s| && s[i] == del;
      UniqueKeysMakeDistinct(s);
      KeysWithout(s, i);
      OnlyItem(s, i);
    }

    method FreeTable()
      modifies this
      ensures Valid() && items == [] && tbl == null
    {
      head, tbl := null, null;
      items := [];
    }

    static lemma OnlyItem(s: seq<Elem<V>>, i: nat)
      requires AppLinked(s) && i < |s|
      ensures s[i].prev == null && s[i].next == null <==> |s| == 1
      ensures |s| == 1 ==> Without(s, i) == []
      ensures |s| > 1 ==> Without(s, i) != []
    {}

    static lemma KeysWithout(s: seq<Elem<V>>, i: nat)
      requires UniqueKeys(s) && i < |s|
      ensures UniqueKeys(Without(s, i))
    {}

    /** Takes over a relinked list of the same items. */
    method Relist(list: Elem<V>, tail: Elem<V>, ghost s: seq<Elem<V>>)
      requires items != [] && TableIndexes() && UniqueKeys(s) && AppLinked(s)
      requires Members(s) == Members(items) && |s| == |items| && list == First(s) && tail == Last(s)
      modifies `head, `items, tbl`tail
      ensures Valid() && items == s
    {
      hide Placed, ChainsLinked, Hashed, Pow2, UniqueKeys, AppLinked;
      tbl.tail := tail;
      head := list;
      items := s;
      assert AppLinked(items);
    }
  }
}
