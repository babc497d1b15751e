/** The bounded least-recently-used cache behind api/apikey/cache.go. */
module LruCache {
  import opened Wrappers

  datatype Slot<V> = Slot(key: string, value: V)

  /** At most one slot a key. */
  ghost predicate Distinct<V>(slots: seq<Slot<V>>) {
    forall i, j :: 0 <= i < j < |slots| ==> slots[i].key != slots[j].key
  }

  function Lookup<V>(slots: seq<Slot<V>>, key: string): Option<V>
  {
    if slots == [] then None
    else if slots[|slots| - 1].key == key then Some(slots[|slots| - 1].value)
    else Lookup(slots[..|slots| - 1], key)
  }

  /** The slots that satisfy keep, in order. */
  function Filter<V>(slots: seq<Slot<V>>, keep: Slot<V> -> bool): (r: seq<Slot<V>>)
    ensures |r| <= |slots|
  {
    if slots == [] then []
    else Filter(slots[..|slots| - 1], keep) + if keep(slots[|slots| - 1]) then [slots[|slots| - 1]] else []
  }

  /** What is kept when every value that matches is removed. */
  function Keeping<V>(matches: V -> bool): Slot<V> -> bool {
    (x: Slot<V>) => !matches(x.value)
  }

  function Without<V>(slots: seq<Slot<V>>, key: string): seq<Slot<V>> {
    Filter(slots, (x: Slot<V>) => x.key != key)
  }

  /** A lookup makes its slot the most recent. */
  function Touched<V>(slots: seq<Slot<V>>, key: string): seq<Slot<V>> {
    match Lookup(slots, key)
    case None => slots
    case Some(v) => Without(slots, key) + [Slot(key, v)]
  }

  /** An entry is added as the most recent; a full cache drops its oldest. */
  function Added<V>(slots: seq<Slot<V>>, key: string, value: V, capacity: nat): seq<Slot<V>> {
    var more := Without(slots, key) + [Slot(key, value)];
    if |more| > capacity then more[1..] else more
  }

  /** The filter keeps exactly the slots asked for. */
  lemma {:induction false} FilterContents<V>(slots: seq<Slot<V>>, keep: Slot<V> -> bool, x: Slot<V>)
    ensures x in Filter(slots, keep) <==> x in slots && keep(x)
  {
    if slots != [] {
      FilterContents(slots[..|slots| - 1], keep, x);
      assert slots == slots[..|slots| - 1] + [slots[|slots| - 1]];
    }
  }

  /** A lookup finds the slot, if there is one. */
  lemma {:induction false} LookupContents<V>(slots: seq<Slot<V>>, key: string)
    ensures Lookup(slots, key).Some? ==> Slot(key, Lookup(slots, key).value) in slots
    ensures Lookup(slots, key).None? ==> forall i :: 0 <= i < |slots| ==> slots[i].key != key
  {
    if slots != [] {
      LookupContents(slots[..|slots| - 1], key);
      assert slots == slots[..|slots| - 1] + [slots[|slots| - 1]];
    }
  }

  lemma {:induction false} FilterKeepsDistinct<V>(slots: seq<Slot<V>>, keep: Slot<V> -> bool)
    requires Distinct(slots)
    ensures Distinct(Filter(slots, keep))
  {
    if slots != [] {
      var last := |slots| - 1;
      FilterKeepsDistinct(slots[..last], keep);
      var shorter := Filter(slots[..last], keep);
      forall i | 0 <= i < |shorter| ensures shorter[i].key != slots[last].key {
        FilterContents(slots[..last], keep, shorter[i]);
      }
    }
  }

  lemma DistinctAfterPush<V>(slots: seq<Slot<V>>, key: string, value: V)
    requires Distinct(slots)
    ensures Distinct(Without(slots, key) + [Slot(key, value)])
  {
    var keep := (x: Slot<V>) => x.key != key;
    FilterKeepsDistinct(slots, keep);
    var rest := Without(slots, key);
    forall i | 0 <= i < |rest| ensures rest[i].key != key {
      FilterContents(slots, keep, rest[i]);
    }
  }

  lemma {:induction false} LookupFinds<V>(slots: seq<Slot<V>>, i: nat)
    requires Distinct(slots) && i < |slots|
    ensures Lookup(slots, slots[i].key) == Some(slots[i].value)
  {
    if i < |slots| - 1 {
      LookupFinds(slots[..|slots| - 1], i);
    }
  }

  lemma {:induction false} FilterAppend<V>(a: seq<Slot<V>>, b: seq<Slot<V>>, keep: Slot<V> -> bool)
    ensures Filter(a + b, keep) == Filter(a, keep) + Filter(b, keep)
  {
    if b == [] {
      assert a + b == a;
    } else {
      assert (a + b)[..|a + b| - 1] == a + b[..|b| - 1];
      FilterAppend(a, b[..|b| - 1], keep);
    }
  }

  lemma {:induction false} FilterAll<V>(slots: seq<Slot<V>>, keep: Slot<V> -> bool)
    requires forall i :: 0 <= i < |slots| ==> keep(slots[i])
    ensures Filter(slots, keep) == slots
  {
    if slots != [] {
      FilterAll(slots[..|slots| - 1], keep);
    }
  }

  lemma FilterDropsLast<V>(before: seq<Slot<V>>, x: Slot<V>, keep: Slot<V> -> bool)
    requires !keep(x)
    ensures Filter(before + [x], keep) == Filter(before, keep)
  {
    assert (before + [x])[..|before|] == before;
  }

  /** A filter that keeps all but the slot in the middle. */
  lemma FilterDropsOne<V>(before: seq<Slot<V>>, x: Slot<V>, after: seq<Slot<V>>, keep: Slot<V> -> bool)
    requires !keep(x)
    requires forall i :: 0 <= i < |before| ==> keep(before[i])
    requires forall i :: 0 <= i < |after| ==> keep(after[i])
    ensures Filter(before + [x] + after, keep) == before + after
  {
    FilterAppend(before + [x], after, keep);
    FilterDropsLast(before, x, keep);
    FilterAll(before, keep);
    FilterAll(after, keep);
  }

  /** Taking one slot out of the middle. */
  lemma WithoutOne<V>(before: seq<Slot<V>>, x: Slot<V>, after: seq<Slot<V>>)
    requires Distinct(before + [x] + after)
    ensures Without(before + [x] + after, x.key) == before + after
  {
    OthersDiffer(before, x, after);
    FilterDropsOne(before, x, after, (y: Slot<V>) => y.key != x.key);
  }

  lemma OthersDiffer<V>(before: seq<Slot<V>>, x: Slot<V>, after: seq<Slot<V>>)
    requires Distinct(before + [x] + after)
    ensures forall i :: 0 <= i < |before| ==> before[i].key != x.key
    ensures forall i :: 0 <= i < |after| ==> after[i].key != x.key
  {
    var slots := before + [x] + after;
    assert slots[|before|] == x;
    assert forall i :: 0 <= i < |before| ==> slots[i] == before[i];
    forall i | 0 <= i < |after| ensures after[i].key != x.key {
      assert slots[|before| + 1 + i] == after[i];
    }
  }

  lemma LookupOne<V>(x: Slot<V>, after: seq<Slot<V>>)
    requires Distinct([x] + after)
    ensures Lookup([x] + after, x.key) == Some(x.value)
  {
    LookupFinds([x] + after, 0);
  }

  lemma WithoutShrinks<V>(slots: seq<Slot<V>>, key: string)
    requires Distinct(slots) && Lookup(slots, key).Some?
    ensures |Without(slots, key)| < |slots|
  {
    LookupContents(slots, key);
    var i :| 0 <= i < |slots| && slots[i].key == key;
    var before, x, after := slots[..i], slots[i], slots[i + 1..];
    assert slots == before + [x] + after;
    WithoutOne(before, x, after);
  }

  /** What the cache's operations do to a key that is in it, wherever it stands: a lookup and an addition
      make it the most recent, and nothing else moves. */
  lemma WhenPresent<V>(before: seq<Slot<V>>, x: Slot<V>, after: seq<Slot<V>>, value: V, capacity: nat)
    requires Distinct(before + [x] + after) && |before + [x] + after| <= capacity
    ensures Lookup(before + [x] + after, x.key) == Some(x.value)
    ensures Touched(before + [x] + after, x.key) == before + after + [x]
    ensures Added(before + [x] + after, x.key, value, capacity) == before + after + [Slot(x.key, value)]
    ensures Without(before + [x] + after, x.key) == before + after
  {
    WithoutOne(before, x, after);
    assert (before + [x] + after)[|before|] == x;
    LookupFinds(before + [x] + after, |before|);
  }

  /** And to one that is not: only an addition changes anything, and it drops the least recent of a full
      cache. */
  lemma WhenAbsent<V>(slots: seq<Slot<V>>, key: string, value: V, capacity: nat)
    requires 0 < capacity && |slots| <= capacity && forall i :: 0 <= i < |slots| ==> slots[i].key != key
    ensures Lookup(slots, key) == None && Touched(slots, key) == slots && Without(slots, key) == slots
    ensures Added(slots, key, value, capacity)
            == (if |slots| == capacity then slots[1..] else slots) + [Slot(key, value)]
  {
    LookupContents(slots, key);
    FilterAll(slots, (x: Slot<V>) => x.key != key);
  }

  /** The slots before i have been visited, and those of them that were kept follow the others. */
  ghost predicate Visited<V>(was: seq<Slot<V>>, i: nat, keep: Slot<V> -> bool, slots: seq<Slot<V>>) {
    i <= |was| && slots == was[i..] + Filter(was[..i], keep)
  }

  lemma OneMore<V>(was: seq<Slot<V>>, i: nat, keep: Slot<V> -> bool, slots: seq<Slot<V>>) returns (rest: seq<Slot<V>>)
    requires i < |was| && Visited(was, i, keep, slots)
    ensures slots == [was[i]] + rest
    ensures Visited(was, i + 1, keep, if keep(was[i]) then rest + [was[i]] else rest)
  {
    var done := Filter(was[..i], keep);
    rest := was[i + 1..] + done;
    assert was[..i + 1][..i] == was[..i];
    assert was[i..] == [was[i]] + was[i + 1..];
  }

  /** Some slot before i has a value that matches. */
  ghost predicate Met<V>(was: seq<Slot<V>>, i: nat, matches: V -> bool) {
    exists j :: 0 <= j < i <= |was| && matches(was[j].value)
  }

  lemma MetOneMore<V>(was: seq<Slot<V>>, i: nat, matches: V -> bool)
    requires i < |was|
    ensures Met(was, i + 1, matches) <==> Met(was, i, matches) || matches(was[i].value)
  {
  }

  /** `slots` is ordered from the least to the most recently used. */
  class Cache<V> {
    const capacity: nat
    var slots: seq<Slot<V>>

    ghost predicate Valid()
      reads this
    {
      Distinct(slots) && |slots| <= capacity && capacity > 0
    }

    constructor (capacity: nat)
      requires capacity > 0
      ensures Valid() && slots == [] && this.capacity == capacity
    {
      this.capacity := capacity;
      slots := [];
    }

    method Get(key: string) returns (value: Option<V>)
      requires Valid()
      modifies this`slots
      ensures Valid() && value == Lookup(old(slots), key) && slots == Touched(old(slots), key)
    {
      value := Lookup(slots, key);
      if value.Some? {
        DistinctAfterPush(slots, key, value.value);
        WithoutShrinks(slots, key);
        slots := Without(slots, key) + [Slot(key, value.value)];
      }
    }

    method Add(key: string, value: V)
      requires Valid()
      modifies this`slots
      ensures Valid() && slots == Added(old(slots), key, value, capacity)
    {
      DistinctAfterPush(slots, key, value);
      slots := Without(slots, key) + [Slot(key, value)];
      if |slots| > capacity {
        slots := slots[1..];
      }
    }

    method Remove(key: string) returns (present: bool)
      requires Valid()
      modifies this`slots
      ensures Valid() && present == Lookup(old(slots), key).Some? && slots == Without(old(slots), key)
    {
      present := Lookup(slots, key).Some?;
      FilterKeepsDistinct(slots, (x: Slot<V>) => x.key != key);
      slots := Without(slots, key);
    }

    /** One turn of the loop below, on the oldest slot. */
    method Visit(key: string, matches: V -> bool, ghost x: Slot<V>, ghost rest: seq<Slot<V>>) returns (removed: bool)
      requires Valid() && slots == [x] + rest && key == x.key
      modifies this`slots
      ensures Valid()
      ensures removed == matches(x.value)
      ensures slots == if removed then rest else rest + [x]
    {
      assert slots == [] + [x] + rest;
      WithoutOne([], x, rest);
      LookupOne(x, rest);
      var value := Get(key);
      assert slots == rest + [x] + [];
      removed := false;
      if value.Some? && matches(value.value) {
        WithoutOne(rest, x, []);
        removed := Remove(key);
      }
    }

    /** InvalidateUserKeyCache: each key, oldest first, is looked up and removed when its value is
        the user's. Looking the others up leaves them in their order. */
    method RemoveAll(matches: V -> bool) returns (present: bool)
      requires Valid()
      modifies this`slots
      ensures Valid()
      ensures slots == Filter(old(slots), Keeping(matches))
      ensures present <==> exists j :: 0 <= j < |old(slots)| && matches(old(slots)[j].value)
    {
      present := false;
      ghost var was, keep := slots, Keeping(matches);
      var keys := seq(|slots|, i requires 0 <= i < |slots| reads this => slots[i].key);
      assert was[..0] == [];
      for i := 0 to |keys|
        invariant Valid()
        invariant Visited(was, i, keep, slots)
        invariant present <==> Met(was, i, matches)
      {
        ghost var rest := OneMore(was, i, keep, slots);
        MetOneMore(was, i, matches);
        var removed := Visit(keys[i], matches, was[i], rest);
        present := removed || present;
      }
      assert was[..|keys|] == was;
    }
  }
}
