/** Iterating over the items of the table, with the next one fetched ahead so that the current one may go. */
module UthashIter {
  import opened Uthash

  /** The loop variables of HASH_ITER when the items from place i on are still to be visited: the current
      element and the one after it. */
  ghost predicate AtPlace<V>(s: seq<Elem<V>>, i: nat, el: Elem?<V>, tmp: Elem?<V>) {
    && i <= |s|
    && el == (if i < |s| then s[i] else null)
    && tmp == (if i + 1 < |s| then s[i + 1] else null)
  }

  /** The loop variables before the first iteration. */
  method Start<V>(h: HashTable<V>) returns (el: Elem?<V>, tmp: Elem?<V>)
    requires h.Valid()
    ensures AtPlace(h.items, 0, el, tmp)
  {
    el := h.head;
    tmp := if h.head != null then h.head.next else null;
  }

  /** What follows the item at place i. */
  method Fetch<V>(h: HashTable<V>, el: Elem?<V>, ghost i: nat) returns (next: Elem?<V>)
    requires h.Valid() && el == if i < |h.items| then h.items[i] else null
    ensures next == if i + 1 < |h.items| then h.items[i + 1] else null
  {
    next := if el != null then el.next else null;
    assert i < |h.items| ==> h.items[i].next == After(h.items, i);
  }

  ghost function Second<V>(s: seq<Elem<V>>): Elem?<V> {
    if |s| > 1 then s[1] else null
  }

  lemma StartOf<V>(s: seq<Elem<V>>, el: Elem?<V>, tmp: Elem?<V>)
    requires AtPlace(s, 0, el, tmp)
    ensures el == First(s) && tmp == Second(s)
  {}

  lemma FirstIsPresent<V>(kept: seq<Elem<V>>, rest: seq<Elem<V>>)
    requires First(rest) != null
    ensures rest != [] && rest[0] == First(rest) && rest[0] in Members(kept + rest)
    ensures Second(rest) == First(rest[1..])
  {
    assert (kept + rest)[|kept|] == rest[0];
  }

  /** What follows the element fetched ahead. */
  method NextOf<V>(h: HashTable<V>, el: Elem?<V>, ghost kept: seq<Elem<V>>, ghost rest: seq<Elem<V>>)
    returns (next: Elem?<V>)
    requires h.Valid() && h.items == kept + rest && el == First(rest)
    ensures next == Second(rest)
  {
    hide HashTable.Valid;
    Following(kept, rest);
    next := Fetch(h, el, |kept|);
  }

  lemma Following<V>(kept: seq<Elem<V>>, rest: seq<Elem<V>>)
    ensures var s := kept + rest;
            && First(rest) == (if |kept| < |s| then s[|kept|] else null)
            && Second(rest) == if |kept| + 1 < |s| then s[|kept| + 1] else null
  {}

  lemma Assoc<T>(a: seq<T>, b: seq<T>, c: seq<T>)
    ensures a + b + c == a + (b + c)
  {}

  // ----- what stays when some elements are deleted on the way

  /** The elements that are not gone, in order. */
  ghost function Remaining<V>(s: seq<Elem<V>>, gone: set<Elem<V>>): seq<Elem<V>> {
    if s == [] then []
    else (if s[0] in gone then [] else [s[0]]) + Remaining(s[1..], gone)
  }

  lemma AllRemaining<V>(s: seq<Elem<V>>, gone: set<Elem<V>>)
    ensures [] + s == s && [] + Remaining(s, gone) == Remaining(s, gone)
  {}

  lemma RemainingStep<V>(kept: seq<Elem<V>>, rest: seq<Elem<V>>, gone: set<Elem<V>>)
    requires rest != []
    ensures rest[0] in gone ==> kept + Remaining(rest[1..], gone) == kept + Remaining(rest, gone)
    ensures rest[0] !in gone ==> kept + [rest[0]] + Remaining(rest[1..], gone) == kept + Remaining(rest, gone)
    ensures (kept + rest)[|kept|] == rest[0]
    ensures kept + [rest[0]] + rest[1..] == kept + rest && Without(kept + rest, |kept|) == kept + rest[1..]
    ensures Members(kept + rest[1..]) <= Members(kept + rest)
  {
    var tail := Remaining(rest[1..], gone);
    assert Remaining(rest, gone) == (if rest[0] in gone then [] else [rest[0]]) + tail;
    hide Remaining;
    assert rest == [rest[0]] + rest[1..];
    Assoc(kept, [rest[0]], tail);
    Assoc(kept, [rest[0]], rest[1..]);
    assert [] + tail == tail;
  }

  lemma NothingRemains<V>(kept: seq<Elem<V>>, rest: seq<Elem<V>>, gone: set<Elem<V>>)
    requires First(rest) == null
    ensures kept + rest == kept == kept + Remaining(rest, gone)
  {}

  lemma MembersWithin<V>(s: seq<Elem<V>>, all: set<Elem<V>>)
    requires Members(s) <= all
    ensures forall e :: e in s ==> e in all
  {
    assert forall e :: e in s ==> e in Members(s);
  }

  lemma {:induction false} RemainingElements<V>(s: seq<Elem<V>>, gone: set<Elem<V>>)
    ensures forall e :: e in Remaining(s, gone) <==> e in s && e !in gone
  {
    if s != [] {
      RemainingElements(s[1..], gone);
      assert s == [s[0]] + s[1..];
    }
  }
}
