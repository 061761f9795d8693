/** The bounded block cache: the least recently used value is given up first.

    What a cache holds is a function of the keys accessed, most recent first: the first `capacity`
    of them. The class keeps unordered slots stamped by a clock; the specification keeps the list.
    The stack property follows because a shorter prefix of one list is a prefix of a longer one. */
module Cache {
  import opened Wrappers

  type Key = nat

  // ----- the recency list -----

  ghost predicate Distinct(keys: seq<Key>) {
    forall i, j :: 0 <= i < j < |keys| ==> keys[i] != keys[j]
  }

  function Without(keys: seq<Key>, key: Key): (r: seq<Key>)
    ensures forall k :: k in r <==> k in keys && k != key
  {
    if keys == [] then []
    else if keys[0] == key then Without(keys[1..], key)
    else [keys[0]] + Without(keys[1..], key)
  }

  /** `key` becomes the most recently used. */
  function Touch(keys: seq<Key>, key: Key): seq<Key> {
    [key] + Without(keys, key)
  }

  function Prefix(keys: seq<Key>, n: nat): seq<Key> {
    if |keys| <= n then keys else keys[..n]
  }

  /** Every key of a trace once, most recently used first. */
  function Recent(trace: seq<Key>): seq<Key> {
    if trace == [] then [] else Touch(Recent(trace[..|trace| - 1]), trace[|trace| - 1])
  }

  lemma DistinctCons(key: Key, keys: seq<Key>)
    ensures Distinct([key] + keys) <==> key !in keys && Distinct(keys)
  {
    if Distinct([key] + keys) {
      forall i | 0 <= i < |keys| ensures keys[i] != key {
        assert ([key] + keys)[0] == key && ([key] + keys)[i + 1] == keys[i];
      }
      forall i, j | 0 <= i < j < |keys| ensures keys[i] != keys[j] {
        assert ([key] + keys)[i + 1] == keys[i] && ([key] + keys)[j + 1] == keys[j];
      }
    }
  }

  lemma {:induction false} WithoutAbsent(keys: seq<Key>, key: Key)
    requires key !in keys
    ensures Without(keys, key) == keys
  {
    if keys != [] { WithoutAbsent(keys[1..], key); }
  }

  lemma {:induction false} WithoutDistinct(keys: seq<Key>, key: Key)
    requires Distinct(keys)
    ensures Distinct(Without(keys, key))
    ensures key in keys ==> |Without(keys, key)| == |keys| - 1
  {
    if keys != [] {
      var head, tail := keys[0], keys[1..];
      assert keys == [head] + tail;
      DistinctCons(head, tail);
      WithoutDistinct(tail, key);
      if head == key { WithoutAbsent(tail, key); } else { DistinctCons(head, Without(tail, key)); }
    }
  }

  lemma {:induction false} WithoutConcat(a: seq<Key>, b: seq<Key>, key: Key)
    ensures Without(a + b, key) == Without(a, key) + Without(b, key)
  {
    if a == [] {
      assert a + b == b;
    } else {
      assert (a + b)[1..] == a[1..] + b;
      WithoutConcat(a[1..], b, key);
    }
  }

  lemma TouchDistinct(keys: seq<Key>, key: Key)
    requires Distinct(keys)
    ensures Distinct(Touch(keys, key))
  {
    WithoutDistinct(keys, key);
    DistinctCons(key, Without(keys, key));
  }

  /** The list has every key of the trace, once each. */
  lemma {:induction false} RecentDistinct(trace: seq<Key>)
    ensures Distinct(Recent(trace))
    ensures forall k :: k in Recent(trace) <==> k in trace
  {
    if trace != [] {
      var init, last := trace[..|trace| - 1], trace[|trace| - 1];
      RecentDistinct(init);
      TouchDistinct(Recent(init), last);
      assert trace == init + [last];
    }
  }

  /** An access of a key among the first `n` moves it to the front of those. */
  lemma TouchPrefixHit(keys: seq<Key>, key: Key, n: nat)
    requires Distinct(keys) && key in Prefix(keys, n)
    ensures Prefix(Touch(keys, key), n) == Touch(Prefix(keys, n), key)
  {
    WithoutDistinct(keys, key);
    if |keys| > n {
      var a, b := keys[..n], keys[n..];
      assert keys == a + b;
      WithoutConcat(a, b, key);
      WithoutDistinct(a, key);
    }
  }

  /** An access of any other key pushes it on the front, and the last of the `n` off the end. */
  lemma TouchPrefixMiss(keys: seq<Key>, key: Key, n: nat)
    requires Distinct(keys) && key !in Prefix(keys, n)
    ensures Prefix(Touch(keys, key), n) == Prefix([key] + Prefix(keys, n), n)
  {
    if |keys| > n {
      var a, b := keys[..n], keys[n..];
      assert keys == a + b;
      WithoutConcat(a, b, key);
      WithoutAbsent(a, key);
    } else {
      WithoutAbsent(keys, key);
    }
  }

  // ----- slots, as a table by key -----

  datatype Slot<V> = Slot(key: Key, used: nat, value: V)

  ghost predicate DistinctSlots<V>(slots: seq<Slot<V>>) {
    forall i, j :: 0 <= i < j < |slots| ==> slots[i].key != slots[j].key
  }

  ghost function Table<V>(slots: seq<Slot<V>>): map<Key, Slot<V>> {
    if slots == [] then map[]
    else Table(slots[..|slots| - 1])[slots[|slots| - 1].key := slots[|slots| - 1]]
  }

  /** In a table of distinct slots every slot is found under its key, and nothing else is. */
  lemma {:induction false} TableOf<V>(slots: seq<Slot<V>>, k: Key)
    requires DistinctSlots(slots)
    ensures k in Table(slots) <==> exists i :: 0 <= i < |slots| && slots[i].key == k
    ensures forall i :: 0 <= i < |slots| && slots[i].key == k ==> k in Table(slots) && Table(slots)[k] == slots[i]
    ensures k in Table(slots) ==> Table(slots)[k] in slots && Table(slots)[k].key == k
  {
    if slots != [] { TableOf(slots[..|slots| - 1], k); }
  }

  /** Overwriting a slot replaces its entry. */
  lemma TableUpdate<V>(slots: seq<Slot<V>>, i: nat, slot: Slot<V>)
    requires DistinctSlots(slots) && i < |slots|
    requires slot.key == slots[i].key || slot.key !in Table(slots)
    ensures DistinctSlots(slots[i := slot])
    ensures Table(slots[i := slot]) == (Table(slots) - {slots[i].key})[slot.key := slot]
  {
    TableOf(slots, slot.key);
    var slots', table' := slots[i := slot], (Table(slots) - {slots[i].key})[slot.key := slot];
    forall k: nat ensures k in Table(slots') <==> k in table'
      ensures k in table' ==> k in Table(slots') && Table(slots')[k] == table'[k]
    {
      TableOf(slots, k);
      TableOf(slots', k);
      if k in table' && k != slot.key {
        var j :| 0 <= j < |slots| && slots[j].key == k;
        assert slots'[j] == slots[j];
      } else if k in table' {
        assert slots'[i] == slot;
      }
    }
  }

  /** The keys in order of their stamps, latest first. */
  ghost predicate Descending<V>(table: map<Key, Slot<V>>, keys: seq<Key>)
    requires forall k :: k in keys ==> k in table
  {
    keys != [] ==>
      && (forall k :: k in keys[1..] ==> table[keys[0]].used > table[k].used)
      && Descending(table, keys[1..])
  }

  /** The table holds exactly the keys of the recency list, stamped in its order by past clocks. */
  ghost predicate Coherent<V>(table: map<Key, Slot<V>>, clock: nat, recency: seq<Key>) {
    && Distinct(recency)
    && (forall k :: k in recency <==> k in table)
    && (forall k :: k in table ==> table[k].key == k && table[k].used <= clock)
    && Descending(table, recency)
  }

  /** The value held under each key. */
  ghost function Values<V>(table: map<Key, Slot<V>>): map<Key, V> {
    map k | k in table :: table[k].value
  }

  lemma ValuesOf<V>(table: map<Key, Slot<V>>, dropped: Key, slot: Slot<V>)
    ensures Values(table[slot.key := slot]) == Values(table)[slot.key := slot.value]
    ensures Values(table - {dropped}) == Values(table) - {dropped}
  {
  }

  lemma {:induction false} DescendingWithout<V>(table: map<Key, Slot<V>>, keys: seq<Key>, key: Key)
    requires (forall k :: k in keys ==> k in table) && Descending(table, keys)
    ensures Descending(table, Without(keys, key))
  {
    if keys != [] {
      DescendingWithout(table, keys[1..], key);
      if keys[0] != key { assert Without(keys, key)[1..] == Without(keys[1..], key); }
    }
  }

  lemma {:induction false} DescendingInit<V>(table: map<Key, Slot<V>>, keys: seq<Key>)
    requires (forall k :: k in keys ==> k in table) && Descending(table, keys) && keys != []
    ensures var last := keys[|keys| - 1];
            Descending(table, keys[..|keys| - 1]) &&
            forall k :: k in keys ==> k == last || table[k].used > table[last].used
  {
    if |keys| > 1 {
      DescendingInit(table, keys[1..]);
      assert keys[..|keys| - 1][1..] == keys[1..][..|keys| - 2];
      assert keys[|keys| - 1] in keys[1..];
    }
  }

  /** Only the entries of the keys listed matter. */
  lemma {:induction false} DescendingFrame<V>(table: map<Key, Slot<V>>, table': map<Key, Slot<V>>, keys: seq<Key>)
    requires forall k :: k in keys ==> k in table && k in table' && table'[k] == table[k]
    requires Descending(table, keys)
    ensures Descending(table', keys)
  {
    if keys != [] { DescendingFrame(table, table', keys[1..]); }
  }

  /** A slot stamped with a new clock puts its key at the front, in place of wherever it was. */
  lemma StampCoherent<V>(table: map<Key, Slot<V>>, clock: nat, recency: seq<Key>, slot: Slot<V>)
    requires Coherent(table, clock, recency) && slot.used == clock + 1
    ensures Coherent(table[slot.key := slot], clock + 1, Touch(recency, slot.key))
  {
    var table', rest := table[slot.key := slot], Without(recency, slot.key);
    var touched := Touch(recency, slot.key);
    assert Distinct(touched) by { TouchDistinct(recency, slot.key); }
    assert touched[0] == slot.key && touched[1..] == rest;
    assert forall k :: k in touched <==> k == slot.key || k in rest;
    assert Descending(table', touched) by {
      DescendingWithout(table, recency, slot.key);
      DescendingFrame(table, table', rest);
    }
  }

  /** Dropping the list's last key keeps the rest coherent. */
  lemma DropCoherent<V>(table: map<Key, Slot<V>>, clock: nat, recency: seq<Key>)
    requires Coherent(table, clock, recency) && recency != []
    ensures Coherent(table - {recency[|recency| - 1]}, clock, recency[..|recency| - 1])
    ensures forall k :: k in table ==> k == recency[|recency| - 1] || table[k].used > table[recency[|recency| - 1]].used
  {
    var init, last := recency[..|recency| - 1], recency[|recency| - 1];
    var table' := table - {last};
    assert forall k :: k in init <==> k in recency && k != last by { assert recency == init + [last]; }
    DescendingInit(table, recency);
    assert Descending(table', init) by { DescendingFrame(table, table', init); }
  }

  /** A cache's state: distinct slots no more than its capacity, coherent with its recency list. */
  ghost predicate Good<V>(slots: seq<Slot<V>>, capacity: nat, clock: nat, recency: seq<Key>) {
    DistinctSlots(slots) && |recency| == |slots| <= capacity && Coherent(Table(slots), clock, recency)
  }

  lemma TableStamp<V>(slots: seq<Slot<V>>, i: nat, stamp: nat)
    requires DistinctSlots(slots) && i < |slots|
    ensures var slot := slots[i].(used := stamp);
            Table(slots[i := slot]) == Table(slots)[slot.key := slot] &&
            slot.key in Table(slots) && Table(slots)[slot.key] == slots[i] && DistinctSlots(slots[i := slot])
  {
    var key, slot := slots[i].key, slots[i].(used := stamp);
    TableOf(slots, key);
    TableUpdate(slots, i, slot);
    assert (Table(slots) - {key})[key := slot] == Table(slots)[key := slot];
  }

  lemma GoodHit<V>(slots: seq<Slot<V>>, capacity: nat, clock: nat, recency: seq<Key>, i: nat)
    requires Good(slots, capacity, clock, recency) && i < |slots|
    ensures var slots' := slots[i := slots[i].(used := clock + 1)];
            Good(slots', capacity, clock + 1, Touch(recency, slots[i].key)) &&
            Values(Table(slots')) == Values(Table(slots)) &&
            slots[i].key in recency && slots[i].key in Table(slots) && Table(slots)[slots[i].key] == slots[i]
  {
    var key, slot := slots[i].key, slots[i].(used := clock + 1);
    TableStamp(slots, i, clock + 1);
    assert Values(Table(slots)[key := slot]) == Values(Table(slots));
    assert Coherent(Table(slots)[key := slot], clock + 1, Touch(recency, key)) by {
      StampCoherent(Table(slots), clock, recency, slot);
    }
    assert |Touch(recency, key)| == |recency| by { WithoutDistinct(recency, key); }
  }

  lemma GoodMiss<V>(slots: seq<Slot<V>>, capacity: nat, clock: nat, recency: seq<Key>, key: Key)
    requires Good(slots, capacity, clock, recency)
    requires forall j :: 0 <= j < |slots| ==> slots[j].key != key
    ensures Good(slots, capacity, clock + 1, recency) && key !in recency
  {
    TableOf(slots, key);
  }

  lemma GoodPush<V>(slots: seq<Slot<V>>, capacity: nat, clock: nat, recency: seq<Key>, slot: Slot<V>)
    requires Good(slots, capacity, clock, recency) && |slots| < capacity
    requires slot.key !in recency && slot.used == clock + 1
    ensures Good(slots + [slot], capacity, clock + 1, [slot.key] + recency)
    ensures [slot.key] + recency == Prefix([slot.key] + recency, capacity)
    ensures Values(Table(slots + [slot])) == Values(Table(slots))[slot.key := slot.value]
  {
    PushDistinct(slots, slot);
    ValuesOf(Table(slots), slot.key, slot);
    assert Coherent(Table(slots + [slot]), clock + 1, [slot.key] + recency) by {
      StampCoherent(Table(slots), clock, recency, slot);
      WithoutAbsent(recency, slot.key);
    }
  }

  /** The slot of the least stamp holds the list's last key. */
  lemma OldestIsLast<V>(slots: seq<Slot<V>>, capacity: nat, clock: nat, recency: seq<Key>, o: nat)
    requires Good(slots, capacity, clock, recency)
    requires o < |slots| && forall j :: 0 <= j < |slots| ==> slots[o].used <= slots[j].used
    ensures slots[o].key == recency[|recency| - 1]
  {
    var last := recency[|recency| - 1];
    TableOf(slots, slots[o].key);
    TableOf(slots, last);
    DropCoherent(Table(slots), clock, recency);
  }

  lemma GoodEvict<V>(slots: seq<Slot<V>>, capacity: nat, clock: nat, recency: seq<Key>, o: nat, slot: Slot<V>)
    requires Good(slots, capacity, clock, recency)
    requires o < |slots| && slots[o].key == recency[|recency| - 1]
    requires slot.key !in recency && slot.used == clock + 1
    ensures Good(slots[o := slot], capacity, clock + 1, [slot.key] + recency[..|recency| - 1])
    ensures |recency| == capacity ==> [slot.key] + recency[..|recency| - 1] == Prefix([slot.key] + recency, capacity)
    ensures Values(Table(slots[o := slot])) == (Values(Table(slots)) - {slots[o].key})[slot.key := slot.value]
  {
    var init, last := recency[..|recency| - 1], recency[|recency| - 1];
    var rest := Table(slots) - {last};
    TableUpdate(slots, o, slot);
    ValuesOf(Table(slots), last, slot);
    ValuesOf(rest, last, slot);
    assert Coherent(rest[slot.key := slot], clock + 1, [slot.key] + init) by {
      DropCoherent(Table(slots), clock, recency);
      StampCoherent(rest, clock, init, slot);
      WithoutAbsent(init, slot.key);
    }
  }

  // ----- the cache -----

  class BlockCache<V> {
    var slots: seq<Slot<V>>
    const capacity: nat
    var clock: nat
    /** The keys held, most recently used first. */
    ghost var recency: seq<Key>

    ghost predicate Valid()
      reads this
    {
      Good(slots, capacity, clock, recency)
    }

    ghost function Contents(): map<Key, V>
      reads this
    {
      Values(Table(slots))
    }

    constructor (capacity: nat)
      ensures Valid() && recency == [] && Contents() == map[] && this.capacity == capacity
    {
      slots, clock := [], 0;
      this.capacity := capacity;
      recency := [];
    }

    /** As many `block`-byte blocks as `budget` bytes hold, and never fewer than `floor`. */
    constructor Within(budget: nat, block: nat, floor: nat)
      ensures Valid() && recency == [] && capacity >= floor
      ensures capacity == floor || capacity * block <= budget
      ensures block > 0 ==> (capacity + 1) * block > budget
      ensures block == 0 ==> capacity == if budget >= floor then budget else floor
    {
      var size := if block == 0 then 1 else block;
      slots, clock := [], 0;
      this.capacity := if budget / size >= floor then budget / size else floor;
      recency := [];
      new;
      QuotientBounds(budget, size, capacity);
    }

    /** The slot of `key`, or how many there are if none holds it. */
    method Find(key: Key) returns (i: nat)
      ensures i <= |slots|
      ensures i < |slots| ==> slots[i].key == key
      ensures i == |slots| ==> forall j :: 0 <= j < |slots| ==> slots[j].key != key
    {
      i := 0;
      while i < |slots| && slots[i].key != key
        invariant 0 <= i <= |slots|
        invariant forall j :: 0 <= j < i ==> slots[j].key != key
      {
        i := i + 1;
      }
    }

    /** A lookup: a hit moves its key to the front of the recency list, a miss leaves the list alone. */
    method Get(key: Key) returns (r: Option<V>)
      requires Valid()
      modifies this
      ensures Valid() && Contents() == old(Contents())
      ensures key in old(recency) ==>
        key in old(Contents()) && r == Some(old(Contents())[key]) && recency == Touch(old(recency), key)
      ensures key !in old(recency) ==> r == None && recency == old(recency)
    {
      clock := clock + 1;
      var i := Find(key);
      if i == |slots| {
        GoodMiss(slots, capacity, clock - 1, recency, key);
        return None;
      }
      GoodHit(slots, capacity, clock - 1, recency, i);
      slots := slots[i := slots[i].(used := clock)];
      recency := Touch(recency, key);
      return Some(slots[i].value);
    }

    /** The slot of the least stamp. */
    method Oldest() returns (o: nat)
      requires |slots| > 0
      ensures o < |slots| && forall j :: 0 <= j < |slots| ==> slots[o].used <= slots[j].used
    {
      o := 0;
      var i := 1;
      while i < |slots|
        invariant 1 <= i <= |slots| && o < |slots|
        invariant forall j :: 0 <= j < i ==> slots[o].used <= slots[j].used
      {
        if slots[i].used < slots[o].used { o := i; }
        i := i + 1;
      }
    }

    /** A new key goes to the front of the recency list, and where the list is full its last key goes. */
    method Insert(key: Key, value: V)
      requires Valid() && key !in recency
      modifies this
      ensures Valid()
      ensures recency == Prefix([key] + old(recency), capacity)
      ensures Contents() ==
        if capacity == 0 then old(Contents())
        else if old(|recency|) < capacity then old(Contents())[key := value]
        else (old(Contents()) - {old(recency[|recency| - 1])})[key := value]
    {
      if capacity == 0 { return; }
      clock := clock + 1;
      var slot := Slot(key, clock, value);
      if |slots| < capacity {
        GoodPush(slots, capacity, clock - 1, recency, slot);
        slots := slots + [slot];
        recency := [key] + recency;
      } else {
        var o := Oldest();
        OldestIsLast(slots, capacity, clock - 1, recency, o);
        GoodEvict(slots, capacity, clock - 1, recency, o, slot);
        slots := slots[o := slot];
        recency := [key] + recency[..|recency| - 1];
      }
    }
  }

  lemma PushDistinct<V>(slots: seq<Slot<V>>, slot: Slot<V>)
    requires DistinctSlots(slots) && slot.key !in Table(slots)
    ensures DistinctSlots(slots + [slot]) && Table(slots + [slot]) == Table(slots)[slot.key := slot]
  {
    TableOf(slots, slot.key);
    assert (slots + [slot])[..|slots|] == slots;
  }

  lemma QuotientBounds(budget: nat, size: nat, capacity: nat)
    requires size > 0 && capacity >= budget / size
    ensures (budget / size) * size <= budget < (capacity + 1) * size
  {
    var q := budget / size;
    assert q * size <= budget < q * size + size;
    assert (capacity + 1) * size == q * size + size + (capacity - q) * size;
    assert (capacity - q) * size >= 0;
  }

  // ----- a cache over a fixed source -----

  /** What one read through a cache makes of the keys it holds. */
  function Access(capacity: nat, held: seq<Key>, key: Key): seq<Key> {
    if key in held then Touch(held, key) else Prefix([key] + held, capacity)
  }

  /** The keys held after reading a whole trace through a new cache. */
  function After(capacity: nat, trace: seq<Key>): seq<Key> {
    if trace == [] then [] else Access(capacity, After(capacity, trace[..|trace| - 1]), trace[|trace| - 1])
  }

  /** Which accesses of a trace hit. */
  function HitList(capacity: nat, trace: seq<Key>): (hits: seq<bool>)
    ensures |hits| == |trace|
  {
    if trace == [] then []
    else
      var init := trace[..|trace| - 1];
      HitList(capacity, init) + [trace[|trace| - 1] in After(capacity, init)]
  }

  lemma AfterNext(capacity: nat, trace: seq<Key>, i: nat)
    requires i < |trace|
    ensures After(capacity, trace[..i + 1]) == Access(capacity, After(capacity, trace[..i]), trace[i])
    ensures HitList(capacity, trace[..i + 1]) ==
      HitList(capacity, trace[..i]) + [trace[i] in After(capacity, trace[..i])]
  {
    assert trace[..i + 1][..i] == trace[..i];
  }

  lemma {:induction false} HitListAt(capacity: nat, trace: seq<Key>, i: nat)
    requires i < |trace|
    ensures HitList(capacity, trace)[i] == (trace[i] in After(capacity, trace[..i]))
  {
    if i < |trace| - 1 {
      var init := trace[..|trace| - 1];
      HitListAt(capacity, init, i);
      assert init[..i] == trace[..i];
    }
  }

  /** Every value held is what the source gives for its key. */
  ghost predicate Mirrors<V>(contents: map<Key, V>, source: Key -> V) {
    forall k :: k in contents ==> contents[k] == source(k)
  }

  /** A read through the cache, which inserts only what a `Get` missed. */
  method ReadThrough<V>(cache: BlockCache<V>, source: Key -> V, key: Key) returns (hit: bool, value: V)
    requires cache.Valid() && Mirrors(cache.Contents(), source)
    modifies cache
    ensures cache.Valid() && Mirrors(cache.Contents(), source)
    ensures value == source(key)
    ensures hit <==> key in old(cache.recency)
    ensures cache.recency == Access(cache.capacity, old(cache.recency), key)
  {
    var r := cache.Get(key);
    if r.Some? {
      return true, r.value;
    }
    value := source(key);
    cache.Insert(key, value);
    return false, value;
  }

  /** What reads of the source itself would return. */
  function Uncached<V>(source: Key -> V, trace: seq<Key>): (values: seq<V>)
    ensures |values| == |trace|
  {
    seq(|trace|, i requires 0 <= i < |trace| => source(trace[i]))
  }

  /** Read a trace through a cache: what each access returned, and whether it hit. */
  method Hits<V>(capacity: nat, source: Key -> V, trace: seq<Key>) returns (hits: seq<bool>, values: seq<V>)
    ensures values == Uncached(source, trace)
    ensures hits == HitList(capacity, trace)
  {
    var cache := new BlockCache<V>(capacity);
    hits, values := [], [];
    var i := 0;
    while i < |trace|
      invariant 0 <= i <= |trace|
      invariant fresh(cache) && cache.Valid() && cache.capacity == capacity
      invariant Mirrors(cache.Contents(), source)
      invariant cache.recency == After(capacity, trace[..i])
      invariant values == Uncached(source, trace[..i])
      invariant hits == HitList(capacity, trace[..i])
    {
      AfterNext(capacity, trace, i);
      var hit, value := ReadThrough(cache, source, trace[i]);
      hits, values := hits + [hit], values + [value];
      i := i + 1;
    }
    assert trace[..i] == trace;
  }

  /** What a cache holds is the `capacity` most recently used keys of its trace. */
  lemma {:induction false} AfterIsRecent(capacity: nat, trace: seq<Key>)
    ensures After(capacity, trace) == Prefix(Recent(trace), capacity)
  {
    if trace != [] {
      var init, last := trace[..|trace| - 1], trace[|trace| - 1];
      AfterIsRecent(capacity, init);
      RecentDistinct(init);
      if last in Prefix(Recent(init), capacity) {
        TouchPrefixHit(Recent(init), last, capacity);
      } else {
        TouchPrefixMiss(Recent(init), last, capacity);
      }
    }
  }

  /** From a use of `a` at `j` on, `b` is not used. */
  ghost predicate UsedSince(trace: seq<Key>, j: nat, a: Key, b: Key) {
    j < |trace| && trace[j] == a && b !in trace[j..]
  }

  /** A key that stands before another was last used later. */
  lemma {:induction false} RecentOrder(trace: seq<Key>, p: nat, q: nat) returns (j: nat)
    requires p < q < |Recent(trace)|
    ensures UsedSince(trace, j, Recent(trace)[p], Recent(trace)[q])
  {
    var init, last := trace[..|trace| - 1], trace[|trace| - 1];
    var a, b := Recent(trace)[p], Recent(trace)[q];
    assert b != last by { RecentDistinct(trace); assert Recent(trace)[0] == last; }
    if p == 0 {
      j := |trace| - 1;
    } else {
      var p', q' := WithoutPositions(Recent(init), last, p - 1, q - 1);
      j := RecentOrder(init, p', q');
      assert trace[j..] == init[j..] + [last];
    }
  }

  lemma {:induction false} WithoutPositions(keys: seq<Key>, key: Key, p: nat, q: nat) returns (p': nat, q': nat)
    requires p < q < |Without(keys, key)|
    ensures p' < q' < |keys| && keys[p'] == Without(keys, key)[p] && keys[q'] == Without(keys, key)[q]
  {
    if keys[0] == key {
      p', q' := WithoutPositions(keys[1..], key, p, q);
      p', q' := p' + 1, q' + 1;
    } else if p > 0 {
      p', q' := WithoutPositions(keys[1..], key, p - 1, q - 1);
      p', q' := p' + 1, q' + 1;
    } else {
      assert Without(keys, key)[q] in keys[1..];
      p' := 0;
      q' :| 1 <= q' < |keys| && keys[q'] == Without(keys, key)[q];
    }
  }

  /** The stack property: after the same accesses a larger cache holds all that a smaller one does,
      so it hits wherever the smaller one would. */
  lemma StackProperty(small: nat, large: nat, trace: seq<Key>)
    requires small <= large
    ensures After(small, trace) <= After(large, trace)
    ensures forall k :: k in After(small, trace) ==> k in After(large, trace)
  {
    AfterIsRecent(small, trace);
    AfterIsRecent(large, trace);
  }

  /** So over any trace a larger cache never misses where a smaller one hits. */
  lemma LargerNeverMisses(small: nat, large: nat, trace: seq<Key>, i: nat)
    requires small <= large && i < |trace|
    ensures HitList(small, trace)[i] ==> HitList(large, trace)[i]
  {
    HitListAt(small, trace, i);
    HitListAt(large, trace, i);
    StackProperty(small, large, trace[..i]);
  }

  /** Every cache holds each key once, no more than its capacity, and no fewer than it could. */
  lemma AfterFills(capacity: nat, trace: seq<Key>)
    ensures Distinct(After(capacity, trace))
    ensures |After(capacity, trace)| == if |Recent(trace)| <= capacity then |Recent(trace)| else capacity
  {
    AfterIsRecent(capacity, trace);
    RecentDistinct(trace);
  }
}
