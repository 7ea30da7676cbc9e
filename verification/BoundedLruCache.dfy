/** A small least-recently-used cache: a map, and its keys from the least to the most recently touched. */
module BoundedLruCache {
  import opened Wrappers

  // ----- the trace of touches -----

  /** An insertion, or a lookup that hit. */
  datatype Touch<K, V> = Inserted(key: K, value: V) | Hit(key: K)

  function Without<K(==)>(keys: seq<K>, key: K): seq<K> {
    if keys == [] then []
    else Without(keys[..|keys| - 1], key) + if keys[|keys| - 1] == key then [] else [keys[|keys| - 1]]
  }

  /** The distinct keys of a trace, in the order in which they were last touched. */
  function ByLastTouch<K(==), V>(trace: seq<Touch<K, V>>): seq<K> {
    if trace == [] then []
    else
      var key := trace[|trace| - 1].key;
      Without(ByLastTouch(trace[..|trace| - 1]), key) + [key]
  }

  function Newest<K>(keys: seq<K>, n: nat): seq<K> { if |keys| <= n then keys else keys[|keys| - n..] }

  /** The value of the last insertion of a key. */
  function LastInserted<K(==), V>(trace: seq<Touch<K, V>>, key: K): Option<V> {
    if trace == [] then None
    else
      var last := trace[|trace| - 1];
      if last.Inserted? && last.key == key then Some(last.value) else LastInserted(trace[..|trace| - 1], key)
  }

  ghost predicate NoDuplicates<K>(keys: seq<K>) {
    forall i, j :: 0 <= i < j < |keys| ==> keys[i] != keys[j]
  }

  function Set<K(==)>(keys: seq<K>): set<K> { set k | k in keys }

  lemma AddedToBack<K>(keys: seq<K>, key: K)
    requires key !in keys && NoDuplicates(keys)
    ensures NoDuplicates(keys + [key])
  {
  }

  lemma SetSnoc<K>(keys: seq<K>, key: K)
    ensures Set(keys + [key]) == Set(keys) + {key}
  {
    assert forall k :: k in keys + [key] <==> k in keys || k == key;
  }

  lemma {:induction false} WithoutRemoves<K>(keys: seq<K>, key: K)
    ensures Set(Without(keys, key)) == Set(keys) - {key}
    ensures key !in Without(keys, key)
    ensures NoDuplicates(keys) ==> NoDuplicates(Without(keys, key))
    ensures key !in keys ==> Without(keys, key) == keys
  {
    if keys != [] {
      var front, last := keys[..|keys| - 1], keys[|keys| - 1];
      assert keys == front + [last];
      SetSnoc(front, last);
      WithoutRemoves(front, key);
      SetSnoc(Without(front, key), last);
      if NoDuplicates(keys) && last != key {
        assert last !in front;
        assert last !in Set(Without(front, key));
        AddedToBack(Without(front, key), last);
      }
    }
  }

  lemma {:induction false} WithoutAppend<K>(a: seq<K>, b: seq<K>, key: K)
    ensures Without(a + b, key) == Without(a, key) + Without(b, key)
  {
    if b == [] {
      assert a + b == a;
    } else {
      WithoutAppend(a, b[..|b| - 1], key);
      assert (a + b)[..|a + b| - 1] == a + b[..|b| - 1];
    }
  }

  lemma {:induction false} WithoutAt<K>(keys: seq<K>, p: nat)
    requires NoDuplicates(keys) && p < |keys|
    ensures Without(keys, keys[p]) == keys[..p] + keys[p + 1..]
  {
    var n := |keys| - 1;
    if p == n {
      WithoutRemoves(keys[..n], keys[p]);
      assert keys[p] !in keys[..n] && keys[p + 1..] == [];
    } else {
      assert NoDuplicates(keys[..n]) && keys[n] != keys[p];
      WithoutAt(keys[..n], p);
      assert keys[p + 1..] == keys[..n][p + 1..] + [keys[n]];
    }
  }

  lemma {:induction false} ByLastTouchHasNoDuplicates<K, V>(trace: seq<Touch<K, V>>)
    ensures NoDuplicates(ByLastTouch(trace))
  {
    if trace != [] {
      var before, key := ByLastTouch(trace[..|trace| - 1]), trace[|trace| - 1].key;
      ByLastTouchHasNoDuplicates(trace[..|trace| - 1]);
      WithoutRemoves(before, key);
      AddedToBack(Without(before, key), key);
    }
  }

  // ----- what "most recently touched" means -----

  /** The keys touched after the last touch of `key`. */
  function TouchedAfter<K(==), V>(trace: seq<Touch<K, V>>, key: K): set<K> {
    if trace == [] || trace[|trace| - 1].key == key then {}
    else TouchedAfter(trace[..|trace| - 1], key) + {trace[|trace| - 1].key}
  }

  ghost predicate Touched<K, V>(trace: seq<Touch<K, V>>, key: K) { exists t :: t in trace && t.key == key }

  /** Where a key that stays comes from, and what is then behind it. */
  lemma {:induction false} PlaceBeforeRemoval<K>(before: seq<K>, removed: K, p: nat) returns (q: nat)
    requires p < |Without(before, removed)|
    ensures q < |before| && before[q] == Without(before, removed)[p]
    ensures Without(before, removed)[p + 1..] == Without(before[q + 1..], removed)
  {
    var n := |before| - 1;
    var kept := Without(before[..n], removed);
    if p < |kept| {
      q := PlaceBeforeRemoval(before[..n], removed, p);
      assert before[q + 1..][..n - q - 1] == before[..n][q + 1..];
    } else {
      q := n;
    }
  }

  lemma TouchedLast<K, V>(trace: seq<Touch<K, V>>, key: K)
    requires trace != []
    ensures var front, last := trace[..|trace| - 1], trace[|trace| - 1].key;
      && ByLastTouch(trace) == Without(ByLastTouch(front), last) + [last]
      && TouchedAfter(trace, key) == if key == last then {} else TouchedAfter(front, key) + {last}
  {
  }

  /** In the order of last touches, exactly the keys behind a key were touched after it. */
  lemma {:induction false} BehindMeansTouchedAfter<K, V>(trace: seq<Touch<K, V>>, p: nat)
    requires p < |ByLastTouch(trace)|
    ensures Set(ByLastTouch(trace)[p + 1..]) == TouchedAfter(trace, ByLastTouch(trace)[p])
  {
    if trace != [] {
      hide *;
      var front, last := trace[..|trace| - 1], trace[|trace| - 1].key;
      var before, order := ByLastTouch(front), ByLastTouch(trace);
      var kept := Without(before, last);
      TouchedLast(trace, order[p]);
      if p < |kept| {
        var q := KeptBehind(before, last, p);
        BehindMeansTouchedAfter(front, q);
        assert order[p] == kept[p];
        assert order[p + 1..] == kept[p + 1..] + [last];
      } else {
        assert order[p + 1..] == [];
        SetOfNone<K>();
      }
    }
  }

  lemma {:induction false} KeptBehind<K>(before: seq<K>, last: K, p: nat) returns (q: nat)
    requires p < |Without(before, last)|
    ensures q < |before| && before[q] == Without(before, last)[p] != last
    ensures Set(Without(before, last)[p + 1..] + [last]) == Set(before[q + 1..]) + {last}
  {
    hide *;
    q := PlaceBeforeRemoval(before, last, p);
    WithoutRemoves(before, last);
    WithoutRemoves(before[q + 1..], last);
    SetSnoc(Without(before, last)[p + 1..], last);
  }

  lemma SetOfNone<K>()
    ensures Set<K>([]) == {}
  {
  }

  lemma {:induction false} ByLastTouchListsTheTouched<K, V>(trace: seq<Touch<K, V>>, key: K)
    ensures key in ByLastTouch(trace) <==> Touched(trace, key)
  {
    if trace != [] {
      var front, last := trace[..|trace| - 1], trace[|trace| - 1];
      assert trace == front + [last];
      ByLastTouchListsTheTouched(front, key);
      WithoutRemoves(ByLastTouch(front), last.key);
      assert key in Set(Without(ByLastTouch(front), last.key)) <==> key in Set(ByLastTouch(front)) && key != last.key;
      if Touched(front, key) {
        var t :| t in front && t.key == key;
        assert t in trace;
      }
      if last.key == key { assert last in trace; }
    }
  }

  lemma {:induction false} SizeOfSet<K>(keys: seq<K>)
    requires NoDuplicates(keys)
    ensures |Set(keys)| == |keys|
  {
    if keys != [] {
      var front, last := keys[..|keys| - 1], keys[|keys| - 1];
      assert keys == front + [last];
      SizeOfSet(front);
      SetSnoc(front, last);
    }
  }

  /** Among the newest `n` are exactly the touched keys with fewer than `n` others touched since. */
  lemma NewestAreRecentlyTouched<K, V>(trace: seq<Touch<K, V>>, n: nat, key: K)
    ensures key in Newest(ByLastTouch(trace), n) <==> Touched(trace, key) && |TouchedAfter(trace, key)| < n
  {
    hide Without;
    hide ByLastTouch;
    hide TouchedAfter;
    var order := ByLastTouch(trace);
    ByLastTouchListsTheTouched(trace, key);
    ByLastTouchHasNoDuplicates(trace);
    if key in order {
      var p :| 0 <= p < |order| && order[p] == key;
      BehindMeansTouchedAfter(trace, p);
      SizeOfSet(order[p + 1..]);
      var cut := if |order| <= n then 0 else |order| - n;
      assert Newest(order, n) == order[cut..];
      if cut <= p { assert order[cut..][p - cut] == key; }
    }
  }

  // ----- one step of the cache, on lists -----

  /** Forgetting old keys early makes no difference. */
  lemma NewestAfterTouch<K>(keys: seq<K>, key: K, n: nat)
    requires NoDuplicates(keys)
    ensures Newest(Without(keys, key) + [key], n) == Newest(Without(Newest(keys, n), key) + [key], n)
    ensures key in Newest(keys, n) ==> |Without(Newest(keys, n), key) + [key]| <= n
    ensures NoDuplicates(Newest(keys, n))
  {
    var cut := if |keys| <= n then 0 else |keys| - n;
    var forgotten, kept := keys[..cut], keys[cut..];
    assert keys == forgotten + kept && kept == Newest(keys, n) && NoDuplicates(kept);
    WithoutAppend(forgotten, kept, key);
    WithoutSize(kept, key);
    assert Without(keys, key) + [key] == Without(forgotten, key) + (Without(kept, key) + [key]);
    if cut > 0 {
      NewestOfTail(Without(forgotten, key), Without(kept, key) + [key], n);
    }
  }

  lemma WithoutSize<K>(keys: seq<K>, key: K)
    requires NoDuplicates(keys)
    ensures |Without(keys, key)| == if key in keys then |keys| - 1 else |keys|
  {
    WithoutRemoves(keys, key);
    if key in keys {
      var p :| 0 <= p < |keys| && keys[p] == key;
      WithoutAt(keys, p);
    }
  }

  lemma NewestOfTail<K>(a: seq<K>, b: seq<K>, n: nat)
    requires n <= |b|
    ensures Newest(a + b, n) == Newest(b, n)
  {
  }

  lemma AllOfFew<K>(keys: seq<K>, n: nat)
    ensures |keys| <= n ==> Newest(keys, n) == keys
  {
  }

  /** What a touch does to the list of cached keys, and to the order of the whole trace. */
  lemma {:induction false} TouchKeepsNewest<K, V>(trace: seq<Touch<K, V>>, touch: Touch<K, V>, n: nat, recent: seq<K>)
    requires recent == Newest(ByLastTouch(trace), n)
    ensures NoDuplicates(recent)
    ensures var after := Without(recent, touch.key) + [touch.key];
      && NoDuplicates(after) && Set(after) == Set(recent) + {touch.key}
      && Newest(ByLastTouch(trace + [touch]), n) == Newest(after, n)
      && (touch.key in recent ==> Newest(after, n) == after)
  {
    assert (trace + [touch])[..|trace|] == trace;
    assert ByLastTouch(trace + [touch]) == Without(ByLastTouch(trace), touch.key) + [touch.key];
    hide *;
    ByLastTouchHasNoDuplicates(trace);
    NewestAfterTouch(ByLastTouch(trace), touch.key, n);
    AllOfFew(Without(recent, touch.key) + [touch.key], n);
    WithoutRemoves(recent, touch.key);
    AddedToBack(Without(recent, touch.key), touch.key);
    SetSnoc(Without(recent, touch.key), touch.key);
  }

  lemma InsertedLast<K, V>(trace: seq<Touch<K, V>>, touch: Touch<K, V>, key: K)
    ensures LastInserted(trace + [touch], key)
            == if touch.Inserted? && touch.key == key then Some(touch.value) else LastInserted(trace, key)
  {
    assert (trace + [touch])[..|trace|] == trace;
  }

  /** `keys` lists the keys of the map, each once. */
  ghost predicate Lists<K, V>(keys: seq<K>, values: map<K, V>) {
    NoDuplicates(keys) && values.Keys == Set(keys)
  }

  lemma Listing<K, V>(values: map<K, V>, keys: seq<K>)
    requires NoDuplicates(keys) && values.Keys == Set(keys)
    ensures Lists(keys, values) && |values| == |keys|
  {
    SizeOfSet(keys);
    assert |values| == |values.Keys|;
  }

  lemma SizeOfList<K, V>(values: map<K, V>, keys: seq<K>)
    requires Lists(keys, values)
    ensures |values| == |keys|
  {
    Listing(values, keys);
  }

  lemma KeysWith<K, V>(values: map<K, V>, key: K, value: V)
    ensures values[key := value].Keys == values.Keys + {key}
  {
  }

  lemma ListedKeys<K, V>(values: map<K, V>, keys: seq<K>)
    requires Lists(keys, values)
    ensures values.Keys == Set(keys)
  {
  }

  lemma SetOfRest<K>(keys: seq<K>)
    requires keys != [] && NoDuplicates(keys)
    ensures NoDuplicates(keys[1..]) && Set(keys[1..]) == Set(keys) - {keys[0]}
  {
    var rest := keys[1..];
    assert forall k :: k in keys <==> k == keys[0] || k in rest;
    assert keys[0] !in rest;
  }

  lemma DropOldest<K, V>(values: map<K, V>, keys: seq<K>)
    requires keys != [] && Lists(keys, values)
    ensures Lists(keys[1..], values - {keys[0]}) && |values - {keys[0]}| == |keys| - 1
  {
    SetOfRest(keys);
    hide Set;
    hide NoDuplicates;
    Listing(values - {keys[0]}, keys[1..]);
  }

  // ----- the cache -----

  ghost predicate IsTail<K>(tail: seq<K>, keys: seq<K>) {
    |tail| <= |keys| && tail == keys[|keys| - |tail|..]
  }

  lemma WholeIsTail<K>(keys: seq<K>)
    ensures IsTail(keys, keys)
  {
  }

  lemma TailOfTail<K>(tail: seq<K>, keys: seq<K>)
    requires IsTail(tail, keys) && tail != []
    ensures IsTail(tail[1..], keys)
  {
  }

  lemma TailIsNewest<K>(tail: seq<K>, keys: seq<K>, n: nat)
    requires IsTail(tail, keys) && |tail| <= n && (|tail| == |keys| || |tail| >= n)
    ensures tail == Newest(keys, n)
  {
  }

  ghost predicate LastValues<K, V>(trace: seq<Touch<K, V>>, values: map<K, V>) {
    forall k :: k in values ==> LastInserted(trace, k) == Some(values[k])
  }

  lemma {:induction false} TouchKeepsValues<K, V>(trace: seq<Touch<K, V>>, touch: Touch<K, V>, values: map<K, V>)
    requires LastValues(trace, values)
    ensures LastValues(trace + [touch], if touch.Inserted? then values[touch.key := touch.value] else values)
  {
    hide LastInserted;
    var after := if touch.Inserted? then values[touch.key := touch.value] else values;
    forall k | k in after
      ensures LastInserted(trace + [touch], k) == Some(after[k])
    {
      InsertedLast(trace, touch, k);
    }
  }

  lemma FewerValues<K, V>(trace: seq<Touch<K, V>>, values: map<K, V>, key: K)
    requires LastValues(trace, values)
    ensures LastValues(trace, values - {key})
  {
    hide LastInserted;
  }

  class Cache<K(==), V> {
    var values: map<K, V>
    var recent: seq<K>
    const capacity: nat
    ghost var trace: seq<Touch<K, V>>

    /** The contents are the `capacity` most recently touched keys, with the values inserted last. */
    ghost predicate Valid()
      reads this
    {
      && recent == Newest(ByLastTouch(trace), capacity)
      && values.Keys == Set(recent)
      && LastValues(trace, values)
    }

    constructor (capacity: nat)
      ensures Valid() && this.capacity == capacity && trace == []
    {
      values := map[];
      recent := [];
      this.capacity := capacity;
      trace := [];
    }

    /** Moves a key to the back. */
    method TouchKey(key: K)
      requires NoDuplicates(recent)
      modifies this`recent
      ensures recent == Without(old(recent), key) + [key]
    {
      var position := 0;
      while position < |recent| && recent[position] != key
        invariant 0 <= position <= |recent|
        invariant key !in recent[..position]
      {
        position := position + 1;
      }
      WithoutRemoves(recent, key);
      if position < |recent| {
        WithoutAt(recent, position);
        recent := recent[..position] + recent[position + 1..];
      } else {
        assert recent[..position] == recent;
      }
      recent := recent + [key];
    }

    /** A lookup hits exactly the keys touched so recently that fewer than `capacity` others were touched
        since, and returns the value inserted last. */
    method GetCloned(key: K) returns (value: Option<V>)
      requires Valid()
      modifies this
      ensures Valid()
      ensures value.Some? <==> Touched(old(trace), key) && |TouchedAfter(old(trace), key)| < capacity
      ensures value.Some? ==> value == LastInserted(old(trace), key)
      ensures trace == if value.Some? then old(trace) + [Hit(key)] else old(trace)
      ensures values == old(values)
    {
      hide Without;
      hide ByLastTouch;
      hide TouchedAfter;
      hide LastInserted;
      hide NoDuplicates;
      NewestAreRecentlyTouched(trace, capacity, key);
      if key !in values { return None; }
      value := Some(values[key]);
      TouchKeepsNewest(trace, Hit(key), capacity, recent);
      hide Newest;
      TouchKey(key);
      TouchKeepsValues(trace, Hit(key), values);
      trace := trace + [Hit(key)];
    }

    method Insert(key: K, value: V)
      requires Valid()
      modifies this
      ensures Valid()
      ensures trace == old(trace) + [Inserted(key, value)]
    {
      hide Without;
      hide ByLastTouch;
      hide LastValues;
      hide Set;
      hide Newest;
      hide NoDuplicates;
      hide Lists;
      TouchKeepsNewest(trace, Inserted(key, value), capacity, recent);
      TouchKeepsValues(trace, Inserted(key, value), values);
      ghost var after := trace + [Inserted(key, value)];
      KeysWith(values, key, value);
      values := values[key := value];
      TouchKey(key);
      Listing(values, recent);
      EvictOldest(after);
      ListedKeys(values, recent);
      trace := after;
    }

    /** Drops keys from the front until no more than `capacity` are left. */
    method EvictOldest(ghost history: seq<Touch<K, V>>)
      requires Lists(recent, values) && LastValues(history, values)
      modifies this`recent, this`values
      ensures recent == Newest(old(recent), capacity)
      ensures Lists(recent, values) && LastValues(history, values)
    {
      hide LastValues;
      hide IsTail;
      hide Newest;
      ghost var touched := recent;
      WholeIsTail(recent);
      SizeOfList(values, recent);
      hide Lists;
      while |values| > capacity
        invariant IsTail(recent, touched) && (|recent| == |touched| || |recent| >= capacity)
        invariant Lists(recent, values) && |values| == |recent|
        invariant LastValues(history, values)
      {
        if recent == [] { break; }
        DropOldest(values, recent);
        FewerValues(history, values, recent[0]);
        TailOfTail(recent, touched);
        var oldest := recent[0];
        recent := recent[1..];
        values := values - {oldest};
      }
      TailIsNewest(recent, touched, capacity);
    }
  }
}
