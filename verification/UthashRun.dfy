/** Runs of the hash table: whatever is put in, deleted and looked up, it is a dictionary in insertion order. */
module UthashRun {
  import opened Uthash
  import opened UthashIter
  import MergeSort
  import UthashSort

  datatype Option<T> = None | Some(value: T)

  datatype Entry<V> = Entry(key: Key, value: V)

  /** What a user does with the table. A put looks the key up before it adds, as unique keys are the user's duty;
      a sort orders by keys; and a sweep iterates over the items and deletes some as it goes. */
  datatype Operation<!V> =
    | Put(key: Key, value: V)
    | Delete(key: Key)
    | Find(key: Key)
    | Sort(cmp: (Key, Key) -> int)
    | Sweep(doomed: (Key, V) -> bool)
  {
    predicate Keyed() {
      Put? || Delete? || Find?
    }

    /** A comparison must order all keys. */
    ghost predicate Orders() {
      Sort? ==>
        && (forall x, y :: cmp(x, y) <= 0 || cmp(y, x) <= 0)
        && forall x, y, z :: cmp(x, y) <= 0 && cmp(y, z) <= 0 ==> cmp(x, z) <= 0
    }
  }

  function Lookup<V>(s: seq<Entry<V>>, key: Key): Option<V> {
    if s == [] then None
    else if s[0].key == key then Some(s[0].value)
    else Lookup(s[1..], key)
  }

  /** The entries but for that of the key; the others stay in order. */
  function Removed<V>(s: seq<Entry<V>>, key: Key): seq<Entry<V>> {
    if s == [] then []
    else if s[0].key == key then s[1..]
    else [s[0]] + Removed(s[1..], key)
  }

  /** The entries that are not doomed, in order. */
  function Spared<V>(s: seq<Entry<V>>, doomed: (Key, V) -> bool): seq<Entry<V>> {
    if s == [] then []
    else if doomed(s[0].key, s[0].value) then Spared(s[1..], doomed)
    else [s[0]] + Spared(s[1..], doomed)
  }

  /** Entries compared by their keys. */
  function ByKey<V>(cmp: (Key, Key) -> int): MergeSort.Compare<Entry<V>> {
    (a: Entry<V>, b: Entry<V>) => cmp(a.key, b.key)
  }

  ghost function Next<V>(s: seq<Entry<V>>, op: Operation<V>): seq<Entry<V>> {
    match op
    case Put(key, value) => if Lookup(s, key).None? then s + [Entry(key, value)] else s
    case Delete(key) => Removed(s, key)
    case Find(_) => s
    case Sort(cmp) => MergeSort.Arranged(ByKey(cmp), s)
    case Sweep(doomed) => Spared(s, doomed)
  }

  /** An operation with a key answers with what the key stands for before it. */
  ghost function Answer<V>(s: seq<Entry<V>>, op: Operation<V>): Option<V> {
    if op.Keyed() then Lookup(s, op.key) else None
  }

  /** The dictionary after a script of operations. */
  ghost function Dictionary<V>(script: seq<Operation<V>>): seq<Entry<V>> {
    if script == [] then [] else Next(Dictionary(script[..|script| - 1]), script[|script| - 1])
  }

  ghost function Answers<V>(script: seq<Operation<V>>): seq<Option<V>> {
    if script == [] then []
    else Answers(script[..|script| - 1]) + [Answer(Dictionary(script[..|script| - 1]), script[|script| - 1])]
  }

  ghost predicate KeysDiffer<V>(s: seq<Entry<V>>) {
    forall i, j :: 0 <= i < j < |s| ==> s[i].key != s[j].key
  }

  /** A key is found exactly if there is an entry for it. */
  lemma {:induction false} LookupFinds<V>(s: seq<Entry<V>>, key: Key)
    ensures Lookup(s, key) == None <==> forall i :: 0 <= i < |s| ==> s[i].key != key
    ensures forall v :: Lookup(s, key) == Some(v) ==> Entry(key, v) in s
  {
    if s != [] {
      LookupFinds(s[1..], key);
      assert forall i :: 1 <= i < |s| ==> s[i] == s[1..][i - 1];
    }
  }

  lemma {:induction false} LookupAt<V>(s: seq<Entry<V>>, i: nat)
    requires i < |s| && KeysDiffer(s)
    ensures Lookup(s, s[i].key) == Some(s[i].value)
    ensures Removed(s, s[i].key) == s[..i] + s[i + 1..]
  {
    if i > 0 {
      TailDiffers(s);
      hide KeysDiffer;
      assert s[1..][i - 1] == s[i];
      LookupAt(s[1..], i - 1);
      WithoutTail(s, i);
    }
  }

  lemma TailDiffers<V>(s: seq<Entry<V>>)
    requires s != [] && KeysDiffer(s)
    ensures KeysDiffer(s[1..]) && forall i :: 1 <= i < |s| ==> s[i].key != s[0].key
  {}

  lemma WithoutTail<T>(s: seq<T>, i: nat)
    requires 0 < i < |s|
    ensures [s[0]] + (s[1..][..i - 1] + s[1..][i..]) == s[..i] + s[i + 1..]
  {}

  lemma {:induction false} LookupInConcatenation<V>(s: seq<Entry<V>>, t: seq<Entry<V>>, key: Key)
    ensures Lookup(s + t, key) == if Lookup(s, key).None? then Lookup(t, key) else Lookup(s, key)
  {
    if s == [] {
      assert s + t == t;
    } else {
      assert (s + t)[1..] == s[1..] + t;
      LookupInConcatenation(s[1..], t, key);
    }
  }

  /** The laws of a dictionary: a put and a delete affect their own key only, a sort and a find none, and a sweep
      those whose entries are doomed. */
  lemma NextLookup<V>(s: seq<Entry<V>>, op: Operation<V>, key: Key)
    requires KeysDiffer(s)
    ensures KeysDiffer(Next(s, op))
    ensures op.Find? || op.Sort? || (op.Keyed() && key != op.key) ==> Lookup(Next(s, op), key) == Lookup(s, key)
    ensures op.Put? ==>
      Lookup(Next(s, op), op.key) == if Lookup(s, op.key).None? then Some(op.value) else Lookup(s, op.key)
    ensures op.Delete? ==> Lookup(Next(s, op), op.key) == None
    ensures op.Sweep? ==> Lookup(Next(s, op), key) == SparedValue(Lookup(s, key), key, op.doomed)
  {
    hide Lookup, Removed, Spared;
    match op
    case Put(k, v) =>
      LookupFinds(s, k);
      LookupInConcatenation(s, [Entry(k, v)], key);
      LookupInConcatenation(s, [Entry(k, v)], k);
      LookupOfOne(k, v, key);
      LookupOfOne(k, v, k);
    case Delete(k) =>
      RemovedLookup(s, k, key);
      RemovedLookup(s, k, k);
    case Find(_) =>
    case Sort(cmp) => ArrangedLookup(ByKey(cmp), s, key);
    case Sweep(doomed) => SparedLookup(s, doomed, key);
  }

  function SparedValue<V>(v: Option<V>, key: Key, doomed: (Key, V) -> bool): Option<V> {
    if v.Some? && doomed(key, v.value) then None else v
  }

  lemma {:induction false} SparedLookup<V>(s: seq<Entry<V>>, doomed: (Key, V) -> bool, key: Key)
    requires KeysDiffer(s)
    ensures Lookup(Spared(s, doomed), key) == SparedValue(Lookup(s, key), key, doomed)
    ensures KeysDiffer(Spared(s, doomed)) && forall e :: e in Spared(s, doomed) ==> e in s
  {
    if s != [] {
      TailDiffers(s);
      hide KeysDiffer;
      var rest := Spared(s[1..], doomed);
      SparedLookup(s[1..], doomed, key);
      NotInTail(s);
      if !doomed(s[0].key, s[0].value) {
        DifferInFront(s[0], rest, s[1..]);
        LookupInFront(s[0], rest, key);
      }
    }
  }

  lemma LookupInFront<V>(e: Entry<V>, s: seq<Entry<V>>, key: Key)
    ensures Lookup([e] + s, key) == if e.key == key then Some(e.value) else Lookup(s, key)
  {
    assert ([e] + s)[1..] == s;
  }

  lemma NotInTail<V>(s: seq<Entry<V>>)
    requires s != [] && forall i :: 1 <= i < |s| ==> s[i].key != s[0].key
    ensures Lookup(s[1..], s[0].key) == None && forall i :: 0 <= i < |s[1..]| ==> s[1..][i].key != s[0].key
  {
    assert forall i :: 0 <= i < |s[1..]| ==> s[1..][i] == s[i + 1];
    LookupFinds(s[1..], s[0].key);
  }

  lemma {:induction false} InsertedLookup<V>(cmp: MergeSort.Compare<Entry<V>>, e: Entry<V>, s: seq<Entry<V>>, key: Key)
    requires KeysDiffer([e] + s)
    ensures KeysDiffer(MergeSort.Inserted(cmp, e, s))
    ensures Lookup(MergeSort.Inserted(cmp, e, s), key) == if e.key == key then Some(e.value) else Lookup(s, key)
  {
    assert ([e] + s)[1..] == s;
    if s != [] && cmp(e, s[0]) > 0 {
      BothDiffer(e, s);
      InsertedLookup(cmp, e, s[1..], key);
      var rest := MergeSort.Inserted(cmp, e, s[1..]);
      MergeSort.InsertedElements(cmp, e, s[1..]);
      hide KeysDiffer;
      forall x | x in rest
        ensures x in [e] + s[1..]
      {
        assert x in multiset(rest);
      }
      DifferInFront(s[0], rest, [e] + s[1..]);
      assert ([s[0]] + rest)[1..] == rest;
    }
  }

  lemma BothDiffer<V>(e: Entry<V>, s: seq<Entry<V>>)
    requires s != [] && KeysDiffer([e] + s)
    ensures KeysDiffer([e] + s[1..]) && e.key != s[0].key
    ensures forall i :: 0 <= i < |[e] + s[1..]| ==> ([e] + s[1..])[i].key != s[0].key
  {
    var c, d := [e] + s, [e] + s[1..];
    assert c[0] == e && c[1] == s[0];
    assert forall i :: 0 <= i < |d| ==> d[i] == c[if i == 0 then 0 else i + 1];
  }

  lemma {:induction false} ArrangedLookup<V>(cmp: MergeSort.Compare<Entry<V>>, s: seq<Entry<V>>, key: Key)
    requires KeysDiffer(s)
    ensures KeysDiffer(MergeSort.Arranged(cmp, s)) && Lookup(MergeSort.Arranged(cmp, s), key) == Lookup(s, key)
  {
    if s != [] {
      TailDiffers(s);
      hide KeysDiffer;
      var rest := MergeSort.Arranged(cmp, s[1..]);
      ArrangedLookup(cmp, s[1..], key);
      MergeSort.ArrangedElements(cmp, s[1..]);
      forall x | x in rest
        ensures x in s[1..]
      {
        assert x in multiset(rest);
      }
      assert forall i :: 0 <= i < |s[1..]| ==> s[1..][i] == s[i + 1];
      DifferInFront(s[0], rest, s[1..]);
      InsertedLookup(cmp, s[0], rest, key);
    }
  }

  lemma LookupOfOne<V>(k: Key, v: V, key: Key)
    ensures Lookup([Entry(k, v)], key) == if key == k then Some(v) else None
  {}

  lemma {:induction false} RemovedLookup<V>(s: seq<Entry<V>>, k: Key, key: Key)
    requires KeysDiffer(s)
    ensures Lookup(Removed(s, k), key) == if key == k then None else Lookup(s, key)
    ensures KeysDiffer(Removed(s, k)) && forall e :: e in Removed(s, k) ==> e in s
  {
    if s != [] {
      TailDiffers(s);
      hide KeysDiffer;
      if s[0].key == k {
        assert forall i :: 0 <= i < |s[1..]| ==> s[1..][i] == s[i + 1];
        LookupFinds(s[1..], k);
      } else {
        RemovedLookup(s[1..], k, key);
        DifferInFront(s[0], Removed(s[1..], k), s[1..]);
        assert ([s[0]] + Removed(s[1..], k))[1..] == Removed(s[1..], k);
      }
    }
  }

  lemma DifferInFront<V>(e: Entry<V>, rest: seq<Entry<V>>, tail: seq<Entry<V>>)
    requires KeysDiffer(rest) && (forall x :: x in rest ==> x in tail)
    requires forall i :: 0 <= i < |tail| ==> tail[i].key != e.key
    ensures KeysDiffer([e] + rest)
  {
    forall i | 0 <= i < |rest|
      ensures rest[i].key != e.key
    {
      assert rest[i] in tail;
    }
  }

  // ----- the table as a dictionary

  ghost function Entries<V>(items: seq<Elem<V>>): (s: seq<Entry<V>>)
    reads items`value
    ensures |s| == |items| && forall i :: 0 <= i < |items| ==> s[i] == Entry(items[i].key, items[i].value)
  {
    if items == [] then []
    else Entries(items[..|items| - 1]) + [Entry(items[|items| - 1].key, items[|items| - 1].value)]
  }

  /** What finding an element, or none, says about the entries. */
  lemma FoundIsLookup<V>(items: seq<Elem<V>>, key: Key, out: Elem?<V>)
    requires UniqueKeys(items)
    requires out != null ==> out in items && out.key == key
    requires out == null ==> forall e :: e in items ==> e.key != key
    ensures Lookup(Entries(items), key) == if out == null then None else Some(out.value)
    ensures forall i :: 0 <= i < |items| && items[i] == out ==>
      Removed(Entries(items), key) == Entries(Without(items, i))
  {
    hide Lookup, Removed, UniqueKeys, Without;
    if out == null {
      LookupFinds(Entries(items), key);
    } else {
      forall i | 0 <= i < |items| && items[i] == out
        ensures Lookup(Entries(items), key) == Some(out.value)
        ensures Removed(Entries(items), key) == Entries(Without(items, i))
      {
        FoundAt(items, i);
      }
    }
  }

  lemma FoundAt<V>(items: seq<Elem<V>>, i: nat)
    requires UniqueKeys(items) && i < |items|
    ensures Lookup(Entries(items), items[i].key) == Some(items[i].value)
    ensures Removed(Entries(items), items[i].key) == Entries(Without(items, i))
  {
    hide Lookup, Removed;
    var s := Entries(items);
    assert KeysDiffer(s);
    hide KeysDiffer, UniqueKeys;
    LookupAt(s, i);
    EntriesWithout(items, i);
  }

  lemma EntriesWithout<V>(items: seq<Elem<V>>, i: nat)
    requires i < |items|
    ensures Entries(Without(items, i)) == Entries(items)[..i] + Entries(items)[i + 1..]
  {
    hide Entries;
    var w := Without(items, i);
    var t := Entries(items)[..i] + Entries(items)[i + 1..];
    forall k | 0 <= k < |w|
      ensures Entries(w)[k] == t[k]
    {
      var k' := if k < i then k else k + 1;
      assert w[k] == items[k'] && t[k] == Entries(items)[k'];
    }
    assert |Entries(w)| == |t|;
  }

  /** The table and all its items are new since the run began. */
  twostate predicate Fresh<V>(new h: HashTable<V>)
    reads h
  {
    fresh(h) && (h.tbl != null ==> fresh(h.tbl)) && forall k :: 0 <= k < |h.items| ==> fresh(h.items[k])
  }

  /** One operation. */
  method Perform<V>(h: HashTable<V>, op: Operation<V>) returns (answer: Option<V>)
    requires h.Valid() && op.Orders()
    modifies h, h.tbl, h.items`prev, h.items`next, h.items`hhPrev, h.items`hhNext
    ensures h.Valid() && (h.tbl == old(h.tbl) || h.tbl == null || fresh(h.tbl))
    ensures forall k :: 0 <= k < |h.items| ==> h.items[k] in old(h.items) || fresh(h.items[k])
    ensures Entries(h.items) == Next(old(Entries(h.items)), op)
    ensures answer == Answer(old(Entries(h.items)), op)
  {
    hide Lookup, Removed, Spared, Entries, UniqueKeys, HashTable.Valid, MergeSort.Arranged;
    match op
    case Put(_, _) => answer := PerformKeyed(h, op);
    case Delete(_) => answer := PerformKeyed(h, op);
    case Find(_) => answer := PerformKeyed(h, op);
    case Sort(cmp) =>
      SortItems(h, op);
      answer := None;
    case Sweep(doomed) =>
      SweepItems(h, doomed);
      answer := None;
  }

  method PerformKeyed<V>(h: HashTable<V>, op: Operation<V>) returns (answer: Option<V>)
    requires h.Valid() && op.Keyed()
    modifies h, h.tbl, h.items`prev, h.items`next, h.items`hhPrev, h.items`hhNext
    ensures h.Valid() && (h.tbl == old(h.tbl) || h.tbl == null || fresh(h.tbl))
    ensures forall k :: 0 <= k < |h.items| ==> h.items[k] in old(h.items) || fresh(h.items[k])
    ensures Entries(h.items) == Next(old(Entries(h.items)), op)
    ensures answer == Lookup(old(Entries(h.items)), op.key)
  {
    hide Lookup, Removed, Entries, UniqueKeys, HashTable.Valid;
    var e := h.Find(op.key);
    KeysAreUnique(h);
    FoundIsLookup(h.items, op.key, e);
    answer := if e == null then None else Some(e.value);
    if op.Put? && e == null {
      PutNew(h, op.key, op.value);
    } else if op.Delete? {
      if e == null {
        NothingRemoved(Entries(h.items), op.key);
      } else {
        DeleteFound(h, e);
      }
    }
  }

  // ----- sorting

  /** Elements compared by their keys. */
  function ByElemKey<V>(cmp: (Key, Key) -> int): MergeSort.Compare<Elem<V>> {
    (a: Elem<V>, b: Elem<V>) => cmp(a.key, b.key)
  }

  method SortItems<V>(h: HashTable<V>, op: Operation<V>)
    requires h.Valid() && op.Sort? && op.Orders()
    modifies h`head, h`items, (if h.tbl == null then {} else {h.tbl})`tail, h.items`prev, h.items`next
    ensures h.Valid()
    ensures forall k :: 0 <= k < |h.items| ==> h.items[k] in old(h.items)
    ensures Entries(h.items) == MergeSort.Arranged(ByKey(op.cmp), old(Entries(h.items)))
  {
    hide Entries, UniqueKeys, HashTable.Valid, MergeSort.Arranged, MergeSort.Sorted, MergeSort.StablePermutation;
    ghost var s := h.items;
    ArrangedEntries(op.cmp, s);
    MergeSort.ArrangedElements(ByElemKey(op.cmp), s);
    UthashSort.Sort(h, ByElemKey(op.cmp));
    forall k | 0 <= k < |h.items|
      ensures h.items[k] in s
    {
      assert h.items[k] in multiset(h.items);
    }
  }

  /** Sorting elements by key sorts their entries by key. */
  lemma {:induction false} ArrangedEntries<V>(cmp: (Key, Key) -> int, items: seq<Elem<V>>)
    ensures Entries(MergeSort.Arranged(ByElemKey(cmp), items)) == MergeSort.Arranged(ByKey(cmp), Entries(items))
  {
    hide Entries, MergeSort.Inserted;
    if items == [] {
      NoEntries<V>();
    } else {
      ArrangedEntries(cmp, items[1..]);
      FirstEntry(items);
      InsertedEntries(cmp, items[0], MergeSort.Arranged(ByElemKey(cmp), items[1..]));
    }
  }

  lemma NoEntries<V>()
    ensures Entries<V>([]) == []
  {}

  lemma FirstEntry<V>(items: seq<Elem<V>>)
    requires items != []
    ensures Entries(items) == [Entry(items[0].key, items[0].value)] + Entries(items[1..])
    ensures Entries(items)[0] == Entry(items[0].key, items[0].value) && Entries(items)[1..] == Entries(items[1..])
  {
    hide Entries;
    forall k | 1 <= k < |items|
      ensures Entries(items)[k] == Entries(items[1..])[k - 1]
    {
      assert items[k] == items[1..][k - 1];
    }
  }

  lemma {:induction false} InsertedEntries<V>(cmp: (Key, Key) -> int, e: Elem<V>, items: seq<Elem<V>>)
    ensures Entries(MergeSort.Inserted(ByElemKey(cmp), e, items)) ==
            MergeSort.Inserted(ByKey(cmp), Entry(e.key, e.value), Entries(items))
  {
    hide Entries;
    if items == [] {
      NoEntries<V>();
      FirstEntry([e]);
    } else {
      FirstEntry(items);
      if cmp(e.key, items[0].key) <= 0 {
        FirstEntry([e] + items);
        assert ([e] + items)[1..] == items;
      } else {
        var rest := MergeSort.Inserted(ByElemKey(cmp), e, items[1..]);
        InsertedEntries(cmp, e, items[1..]);
        FirstEntry([items[0]] + rest);
        assert ([items[0]] + rest)[1..] == rest;
      }
    }
  }

  // ----- sweeping

  /** The elements that a sweep deletes. */
  ghost function Doomed<V>(s: seq<Elem<V>>, doomed: (Key, V) -> bool): set<Elem<V>>
    reads s`value
  {
    set e | e in s && doomed(e.key, e.value)
  }

  ghost predicate Marked<V>(all: set<Elem<V>>, gone: set<Elem<V>>, doomed: (Key, V) -> bool)
    reads all`value
  {
    forall e :: e in all ==> (e in gone <==> doomed(e.key, e.value))
  }

  /** Deletes the doomed items while iterating. */
  method SweepItems<V>(h: HashTable<V>, doomed: (Key, V) -> bool)
    requires h.Valid()
    modifies h, h.tbl, h.items`prev, h.items`next, h.items`hhPrev, h.items`hhNext
    ensures h.Valid() && (h.tbl == old(h.tbl) || h.tbl == null)
    ensures forall k :: 0 <= k < |h.items| ==> h.items[k] in old(h.items)
    ensures Entries(h.items) == Spared(old(Entries(h.items)), doomed)
  {
    hide Remaining, Doomed, First, Second, Members, HashTable.Valid, AtPlace, Marked, Entries, Spared;
    ghost var s, all, gone := h.items, Members(h.items), Doomed(h.items, doomed);
    var el, tmp := Start(h);
    BeforeSweep(s, gone, doomed, el, tmp);
    SweepMarked(h, el, tmp, doomed, all, gone);
    RemainingElements(s, gone);
  }

  lemma BeforeSweep<V>(s: seq<Elem<V>>, gone: set<Elem<V>>, doomed: (Key, V) -> bool, el: Elem?<V>, tmp: Elem?<V>)
    requires gone == Doomed(s, doomed) && AtPlace(s, 0, el, tmp)
    ensures el == First(s) && tmp == Second(s)
    ensures Marked(Members(s), gone, doomed) && forall e :: e in Members(s) ==> e in s
    ensures Entries(Remaining(s, gone)) == Spared(Entries(s), doomed)
  {
    StartOf(s, el, tmp);
    RemainingEntries(s, gone, doomed);
  }

  lemma {:induction false} RemainingEntries<V>(s: seq<Elem<V>>, gone: set<Elem<V>>, doomed: (Key, V) -> bool)
    requires forall e :: e in s ==> (e in gone <==> doomed(e.key, e.value))
    ensures Entries(Remaining(s, gone)) == Spared(Entries(s), doomed)
  {
    hide Entries;
    if s == [] {
      NoEntries<V>();
    } else {
      FirstEntry(s);
      RemainingEntries(s[1..], gone, doomed);
      var rest := Remaining(s[1..], gone);
      assert s[0] in s;
      if s[0] in gone {
        assert Remaining(s, gone) == rest;
      } else {
        FirstEntry([s[0]] + rest);
        assert ([s[0]] + rest)[1..] == rest;
      }
    }
  }

  /** The loop of the sweep. */
  method SweepMarked<V>(h: HashTable<V>, el0: Elem?<V>, tmp0: Elem?<V>, doomed: (Key, V) -> bool,
                        ghost all: set<Elem<V>>, ghost gone: set<Elem<V>>)
    requires h.Valid() && el0 == First(h.items) && tmp0 == Second(h.items)
    requires Members(h.items) <= all && Marked(all, gone, doomed)
    modifies h, h.tbl, all`prev, all`next, all`hhPrev, all`hhNext
    ensures h.Valid() && (h.tbl == old(h.tbl) || h.tbl == null) && h.items == Remaining(old(h.items), gone)
  {
    hide Remaining, First, Second, Members, HashTable.Valid, Marked;
    ghost var s := h.items;
    ghost var kept, rest := [], s;
    var el, tmp := el0, tmp0;
    AllRemaining(s, gone);
    while el != null
      invariant h.Valid() && h.items == kept + rest && el == First(rest) && tmp == Second(rest)
      invariant h.tbl == old(h.tbl) || h.tbl == null
      invariant Members(h.items) <= all && Marked(all, gone, doomed)
      invariant kept + Remaining(rest, gone) == Remaining(s, gone)
      decreases |rest|
    {
      FirstIsPresent(kept, rest);
      kept, rest := Visit(h, el, doomed, kept, rest, all, gone);
      el := tmp;
      tmp := NextOf(h, tmp, kept, rest);
    }
    NothingRemains(kept, rest, gone);
  }

  /** The body of the loop at the element after the kept ones. */
  method Visit<V>(h: HashTable<V>, el: Elem<V>, doomed: (Key, V) -> bool, ghost kept: seq<Elem<V>>,
                  ghost rest: seq<Elem<V>>, ghost all: set<Elem<V>>, ghost gone: set<Elem<V>>)
    returns (ghost kept': seq<Elem<V>>, ghost rest': seq<Elem<V>>)
    requires h.Valid() && h.items == kept + rest && rest != [] && rest[0] == el && Members(h.items) <= all
    requires Marked(all, gone, doomed)
    modifies h, h.tbl, all`prev, all`next, all`hhPrev, all`hhNext
    ensures h.Valid() && h.items == kept' + rest' && rest' == rest[1..] && Members(h.items) <= all
    ensures h.tbl == old(h.tbl) || h.tbl == null
    ensures kept' + Remaining(rest', gone) == kept + Remaining(rest, gone) && Marked(all, gone, doomed)
  {
    hide Remaining, HashTable.Valid, Without, Members;
    ghost var before := h.items;
    RemainingStep(kept, rest, gone);
    MembersWithin(before, all);
    if doomed(el.key, el.value) {
      KeysAreUnique(h);
      UniqueKeysMakeDistinct(h.items);
      var i := h.Delete(el);
      assert i == |kept|;
      kept', rest' := kept, rest[1..];
    } else {
      kept', rest' := kept + [el], rest[1..];
    }
  }

  // ----- puts and deletes

  lemma KeysAreUnique<V>(h: HashTable<V>)
    requires h.Valid()
    ensures UniqueKeys(h.items)
  {}

  method PutNew<V>(h: HashTable<V>, key: Key, value: V)
    requires h.Valid() && forall e :: e in h.items ==> e.key != key
    modifies h, h.tbl, h.items`prev, h.items`next, h.items`hhPrev, h.items`hhNext
    ensures h.Valid() && (h.tbl == old(h.tbl) || fresh(h.tbl))
    ensures forall k :: 0 <= k < |h.items| ==> h.items[k] in old(h.items) || fresh(h.items[k])
    ensures Entries(h.items) == old(Entries(h.items)) + [Entry(key, value)]
  {
    hide Entries, UniqueKeys, HashTable.Valid;
    var add := new Elem(key, value);
    EntriesOfMore(h.items, add);
    h.Add(add);
  }

  method DeleteFound<V>(h: HashTable<V>, e: Elem<V>)
    requires h.Valid() && e in h.items
    modifies h, h.tbl, h.items`prev, h.items`next, h.items`hhPrev, h.items`hhNext
    ensures h.Valid() && (h.tbl == old(h.tbl) || h.tbl == null)
    ensures forall k :: 0 <= k < |h.items| ==> h.items[k] in old(h.items)
    ensures Entries(h.items) == Removed(old(Entries(h.items)), e.key)
  {
    hide Lookup, Removed, Entries, UniqueKeys, HashTable.Valid;
    KeysAreUnique(h);
    FoundIsLookup(h.items, e.key, e);
    var i := h.Delete(e);
  }

  lemma EntriesOfMore<V>(items: seq<Elem<V>>, add: Elem<V>)
    ensures Entries(items + [add]) == Entries(items) + [Entry(add.key, add.value)]
  {}

  lemma {:induction false} NothingRemoved<V>(s: seq<Entry<V>>, key: Key)
    requires Lookup(s, key) == None
    ensures Removed(s, key) == s
  {
    if s != [] {
      NothingRemoved(s[1..], key);
    }
  }

  /** Any script of operations on a new table, under any hash function, does what it does to a dictionary. */
  method Run<V>(hash: Key -> nat, script: seq<Operation<V>>) returns (h: HashTable<V>, answers: seq<Option<V>>)
    requires forall i :: 0 <= i < |script| ==> script[i].Orders()
    ensures h.Valid() && Entries(h.items) == Dictionary(script) && answers == Answers(script)
  {
    hide Next, Answer, Entries, Dictionary, Answers, HashTable.Valid;
    h := new HashTable(hash);
    answers := [];
    NothingDone<V>();
    for i := 0 to |script|
      invariant h.Valid() && Fresh(h)
      invariant Entries(h.items) == Dictionary(script[..i]) && answers == Answers(script[..i])
    {
      OneMoreDone(script, i);
      var answer := Perform(h, script[i]);
      answers := answers + [answer];
    }
    assert script[..|script|] == script;
  }

  lemma NothingDone<V>()
    ensures Entries<V>([]) == Dictionary<V>([]) && Answers<V>([]) == []
  {}

  lemma OneMoreDone<V>(script: seq<Operation<V>>, i: nat)
    requires i < |script|
    ensures Dictionary(script[..i + 1]) == Next(Dictionary(script[..i]), script[i])
    ensures Answers(script[..i + 1]) == Answers(script[..i]) + [Answer(Dictionary(script[..i]), script[i])]
  {
    hide Next, Answer;
    assert script[..i + 1][..i] == script[..i];
  }
}
