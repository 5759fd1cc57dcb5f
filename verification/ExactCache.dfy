/** The bounded exact-result cache (L1): a map with a first-in-first-out eviction order. */
module ExactCaches {
  import opened Types

  /** The value of a cache: what it holds, in which order it arrived, and its counters. */
  datatype Cache<K(==), V> = Cache(order: seq<K>, value: map<K, V>, forwards: nat, hits: nat, evicted: nat)

  function Empty<K(==), V>(): Cache<K, V> {
    Cache([], map[], 0, 0, 0)
  }

  ghost predicate Distinct<K>(s: seq<K>) {
    forall i, j :: 0 <= i < j < |s| ==> s[i] != s[j]
  }

  /** `order` lists the keys of the map, each once, and never more than the capacity. */
  ghost predicate Valid<K, V>(c: Cache<K, V>, capacity: nat) {
    && 1 <= capacity
    && Distinct(c.order)
    && (forall k :: k in c.value ==> k in c.order)
    && (forall k :: k in c.order ==> k in c.value)
    && |c.order| <= capacity
  }

  /** Drop the oldest entry. */
  function Evict<K(==), V>(c: Cache<K, V>): Cache<K, V>
    requires c.order != []
  {
    c.(order := c.order[1..], value := c.value - {c.order[0]}, evicted := c.evicted + 1)
  }

  /** Storing under a known key replaces the value in place; a new key goes to the back,
      after the oldest entry has made room. */
  function Store<K(==), V>(c: Cache<K, V>, capacity: nat, k: K, v: V): Cache<K, V> {
    if k in c.value then
      c.(value := c.value[k := v])
    else
      var room := if |c.order| < capacity || c.order == [] then c else Evict(c);
      room.(order := room.order + [k], value := room.value[k := v])
  }

  /** One `classify` against the cache, `computed` being what the forward would return. */
  function Classify<K(==), V>(c: Cache<K, V>, capacity: nat, k: K, computed: Option<V>): Cache<K, V> {
    if k in c.value then c.(hits := c.hits + 1)
    else if computed.None? then c.(forwards := c.forwards + 1)
    else Store(c.(forwards := c.forwards + 1), capacity, k, computed.value)
  }

  /** A list without repeats has as many members as positions. */
  lemma {:induction false} DistinctCardinality<K>(s: seq<K>)
    requires Distinct(s)
    ensures |set x | x in s| == |s|
  {
    if s == [] {
      assert (set x | x in s) == {};
    } else {
      var front := s[..|s| - 1];
      DistinctCardinality(front);
      assert s == front + [s[|s| - 1]];
      assert s[|s| - 1] !in front;
      assert (set x | x in s) == (set x | x in front) + {s[|s| - 1]};
    }
  }

  lemma MapSize<K, V>(c: Cache<K, V>, capacity: nat)
    requires Valid(c, capacity)
    ensures |c.value| == |c.order|
  {
    DistinctCardinality(c.order);
    assert c.value.Keys == set x | x in c.order;
  }

  lemma EvictKeepsValid<K, V>(c: Cache<K, V>, capacity: nat)
    requires Valid(c, capacity) && c.order != []
    ensures Valid(Evict(c), capacity)
  {
    assert c.order == [c.order[0]] + c.order[1..];
    assert c.order[0] !in c.order[1..];
  }

  lemma StoreKeepsValid<K, V>(c: Cache<K, V>, capacity: nat, k: K, v: V)
    requires Valid(c, capacity)
    ensures Valid(Store(c, capacity, k, v), capacity)
    ensures k in Store(c, capacity, k, v).value && Store(c, capacity, k, v).value[k] == v
  {
    if k !in c.value {
      if |c.order| >= capacity { EvictKeepsValid(c, capacity); }
      var room := if |c.order| < capacity then c else Evict(c);
      assert k !in room.order;
      assert k in room.order + [k];
      forall x | x in room.order ensures x in room.order + [k] {}
    }
  }

  // ---- The abstract queue the cache refines ------------------------------------------------------

  /** The cache as one listing of pairs, oldest first. */
  function Listing<K(==), V>(c: Cache<K, V>): (q: seq<(K, V)>)
    requires forall k :: k in c.order ==> k in c.value
    ensures |q| == |c.order|
  {
    seq(|c.order|, i requires 0 <= i < |c.order| => assert c.order[i] in c.order; (c.order[i], c.value[c.order[i]]))
  }

  /** Position of the pair with key `k`, or the length of the queue when there is none. */
  function Find<K(==), V>(q: seq<(K, V)>, k: K): (i: nat)
    ensures i <= |q|
    ensures i < |q| ==> q[i].0 == k
    ensures forall j :: 0 <= j < i ==> q[j].0 != k
  {
    if q == [] then 0 else if q[0].0 == k then 0 else 1 + Find(q[1..], k)
  }

  /** A bounded queue of pairs: overwrite in place, or append after dropping the front when full. */
  function Enqueue<K(==), V>(q: seq<(K, V)>, capacity: nat, k: K, v: V): seq<(K, V)> {
    var i := Find(q, k);
    if i < |q| then q[i := (k, v)]
    else (if |q| >= capacity && q != [] then q[1..] else q) + [(k, v)]
  }

  lemma FindInListing<K, V>(c: Cache<K, V>, capacity: nat, k: K)
    requires Valid(c, capacity)
    ensures Find(Listing(c), k) < |c.order| <==> k in c.value
    ensures k in c.value ==> Listing(c)[Find(Listing(c), k)] == (k, c.value[k])
  {
    var q := Listing(c);
    if k in c.value {
      var i :| 0 <= i < |c.order| && c.order[i] == k;
      assert q[i].0 == k;
    }
  }

  /** The map with its order is exactly a bounded queue of pairs: lookups and stores commute with `Listing`. */
  lemma StoreRefinesQueue<K, V>(c: Cache<K, V>, capacity: nat, k: K, v: V)
    requires Valid(c, capacity)
    ensures Valid(Store(c, capacity, k, v), capacity)
    ensures Listing(Store(c, capacity, k, v)) == Enqueue(Listing(c), capacity, k, v)
  {
    StoreKeepsValid(c, capacity, k, v);
    FindInListing(c, capacity, k);
    if k in c.value {
      OverwriteRefines(c, capacity, k, v);
    } else if |c.order| < capacity {
      AppendRefines(c, capacity, k, v);
    } else {
      EvictKeepsValid(c, capacity);
      EvictRefines(c, capacity);
      AppendRefines(Evict(c), capacity, k, v);
    }
  }

  lemma OverwriteRefines<K, V>(c: Cache<K, V>, capacity: nat, k: K, v: V)
    requires Valid(c, capacity) && k in c.value
    ensures
      var i := Find(Listing(c), k);
      i < |c.order| && Listing(c.(value := c.value[k := v])) == Listing(c)[i := (k, v)]
  {
    FindInListing(c, capacity, k);
    var i := Find(Listing(c), k);
    assert c.order[i] == k;
    forall j | 0 <= j < |c.order| && j != i ensures c.order[j] != k {}
  }

  lemma AppendRefines<K, V>(c: Cache<K, V>, capacity: nat, k: K, v: V)
    requires Valid(c, capacity) && k !in c.value && |c.order| < capacity
    requires Valid(c.(order := c.order + [k], value := c.value[k := v]), capacity)
    ensures Listing(c.(order := c.order + [k], value := c.value[k := v])) == Listing(c) + [(k, v)]
  {
    forall j | 0 <= j < |c.order| ensures c.order[j] in c.value && c.order[j] != k { assert c.order[j] in c.order; }
  }

  lemma EvictRefines<K, V>(c: Cache<K, V>, capacity: nat)
    requires Valid(c, capacity) && c.order != [] && Valid(Evict(c), capacity)
    ensures Listing(Evict(c)) == Listing(c)[1..]
  {
    forall j | 1 <= j < |c.order| ensures c.order[j] in c.value && c.order[j] != c.order[0] {
      assert c.order[j] in c.order;
    }
  }

  // ---- Whole runs ---------------------------------------------------------------------------------

  /** The cache after classifying a sequence of keys; failed forwards are the `None`s. */
  function Run<K(==), V>(c: Cache<K, V>, capacity: nat, calls: seq<(K, Option<V>)>): Cache<K, V>
    decreases |calls|
  {
    if calls == [] then c
    else Run(Classify(c, capacity, calls[0].0, calls[0].1), capacity, calls[1..])
  }

  /** The keys that entered the cache as new entries, in the order they entered. */
  function Arrivals<K(==), V>(c: Cache<K, V>, capacity: nat, calls: seq<(K, Option<V>)>): seq<K>
    decreases |calls|
  {
    if calls == [] then []
    else
      (if calls[0].0 !in c.value && calls[0].1.Some? then [calls[0].0] else [])
      + Arrivals(Classify(c, capacity, calls[0].0, calls[0].1), capacity, calls[1..])
  }

  /** The newest `n` of a sequence. */
  function Last<T>(s: seq<T>, n: nat): seq<T> {
    if |s| <= n then s else s[|s| - n..]
  }

  lemma LastOfLast<T>(s: seq<T>, t: seq<T>, n: nat)
    ensures Last(Last(s, n) + t, n) == Last(s + t, n)
  {
    assert Last(Last(s, n) + t, n) == Last(s + t, n);
  }

  lemma ClassifyKeepsValid<K, V>(c: Cache<K, V>, capacity: nat, k: K, computed: Option<V>)
    requires Valid(c, capacity)
    ensures Valid(Classify(c, capacity, k, computed), capacity)
  {
    if k !in c.value && computed.Some? {
      StoreKeepsValid(c.(forwards := c.forwards + 1), capacity, k, computed.value);
    }
  }

  /** `after` is `c` once the keys `arrived` have entered it in the course of `n` calls. */
  ghost predicate Follows<K, V>(c: Cache<K, V>, capacity: nat, arrived: seq<K>, n: nat, after: Cache<K, V>) {
    && after.order == Last(c.order + arrived, capacity)
    && after.evicted + |after.order| == c.evicted + |c.order| + |arrived|
    && after.hits + after.forwards == c.hits + c.forwards + n
  }

  lemma ClassifyFollows<K, V>(c: Cache<K, V>, capacity: nat, k: K, computed: Option<V>)
    requires Valid(c, capacity)
    ensures
      var arrived := if k !in c.value && computed.Some? then [k] else [];
      Follows(c, capacity, arrived, 1, Classify(c, capacity, k, computed))
  {
    if k !in c.value && computed.Some? {
      var all := c.order + [k];
      if |c.order| >= capacity {
        assert Last(all, capacity) == all[1..] == c.order[1..] + [k];
      }
    } else {
      assert c.order + [] == c.order;
    }
  }

  lemma FollowsCompose<K, V>(c: Cache<K, V>, capacity: nat, s: seq<K>, m: nat, next: Cache<K, V>, t: seq<K>, n: nat,
      after: Cache<K, V>)
    requires Follows(c, capacity, s, m, next) && Follows(next, capacity, t, n, after)
    ensures Follows(c, capacity, s + t, m + n, after)
  {
    LastOfLast(c.order + s, t, capacity);
    assert c.order + (s + t) == (c.order + s) + t;
  }

  lemma {:induction false} RunKeepsValid<K, V>(c: Cache<K, V>, capacity: nat, calls: seq<(K, Option<V>)>)
    requires Valid(c, capacity)
    ensures Valid(Run(c, capacity, calls), capacity)
    decreases |calls|
  {
    if calls != [] {
      ClassifyKeepsValid(c, capacity, calls[0].0, calls[0].1);
      RunKeepsValid(Classify(c, capacity, calls[0].0, calls[0].1), capacity, calls[1..]);
    }
  }

  /**
    First in, first out, over any run: what is live is exactly the newest `capacity` of
    everything that ever arrived, hits move nothing, nothing is lost but by eviction, and every
    call is either a hit or a forward.
   */
  lemma {:induction false} RunIsFifo<K, V>(c: Cache<K, V>, capacity: nat, calls: seq<(K, Option<V>)>)
    requires Valid(c, capacity)
    ensures Follows(c, capacity, Arrivals(c, capacity, calls), |calls|, Run(c, capacity, calls))
    decreases |calls|
  {
    if calls == [] {
      assert c.order + [] == c.order;
    } else {
      var (k, computed) := calls[0];
      var next := Classify(c, capacity, k, computed);
      ClassifyKeepsValid(c, capacity, k, computed);
      ClassifyFollows(c, capacity, k, computed);
      RunIsFifo(next, capacity, calls[1..]);
      FollowsCompose(c, capacity, if k !in c.value && computed.Some? then [k] else [], 1,
                     next, Arrivals(next, capacity, calls[1..]), |calls| - 1, Run(c, capacity, calls));
    }
  }

  // ---- What a history of stores leaves ------------------------------------------------------------

  /** The keys of a history of stores, in the order in which they were new: a key is new unless it is
      among the newest `capacity` before it. */
  function NewKeys<K(==), V>(capacity: nat, log: seq<(K, V)>): seq<K> {
    if log == [] then []
    else
      var before, k := NewKeys(capacity, log[..|log| - 1]), log[|log| - 1].0;
      if k in Last(before, capacity) then before else before + [k]
  }

  /** What was stored last for a key. */
  function LastStored<K(==), V>(log: seq<(K, V)>, k: K): Option<V> {
    if log == [] then None
    else if log[|log| - 1].0 == k then Some(log[|log| - 1].1)
    else LastStored(log[..|log| - 1], k)
  }

  /** The cache is what the history leaves: the newest `capacity` of its arrivals, each with what was
      stored last for it, and everything older evicted. */
  ghost predicate Reflects<K, V>(c: Cache<K, V>, capacity: nat, log: seq<(K, V)>) {
    && c.order == Last(NewKeys(capacity, log), capacity)
    && c.evicted + |c.order| == |NewKeys(capacity, log)|
    && forall k :: k in c.value ==> LastStored(log, k) == Some(c.value[k])
  }

  lemma StoreReflects<K, V>(c: Cache<K, V>, capacity: nat, log: seq<(K, V)>, k: K, v: V)
    requires Valid(c, capacity) && Reflects(c, capacity, log)
    ensures Reflects(Store(c, capacity, k, v), capacity, log + [(k, v)])
  {
    var longer, arrived := log + [(k, v)], NewKeys(capacity, log);
    assert longer[..|longer| - 1] == log;
    assert NewKeys(capacity, longer) == if k in c.order then arrived else arrived + [k];
    if k !in c.value {
      ClassifyFollows(c, capacity, k, Some(v));
      LastOfLast(arrived, [k], capacity);
    }
    forall x | x in Store(c, capacity, k, v).value
      ensures LastStored(longer, x) == Some(Store(c, capacity, k, v).value[x])
    {
      assert LastStored(longer, x) == if x == k then Some(v) else LastStored(log, x);
    }
  }

  /** The history of a run of calls, after an earlier one: a call stores when its forward succeeds and
      its key is not among the newest `capacity` arrivals. */
  function Admitted<K(==), V>(capacity: nat, calls: seq<(K, Option<V>)>, log: seq<(K, V)>): seq<(K, V)>
    decreases |calls|
  {
    if calls == [] then log
    else
      var (k, computed) := calls[0];
      var stores := computed.Some? && k !in Last(NewKeys(capacity, log), capacity);
      Admitted(capacity, calls[1..], if stores then log + [(k, computed.value)] else log)
  }

  /** Over any run, each live key holds what the miss of its last arrival computed. */
  lemma {:induction false} RunReflects<K, V>(
      c: Cache<K, V>, capacity: nat, calls: seq<(K, Option<V>)>, log: seq<(K, V)>)
    requires Valid(c, capacity) && Reflects(c, capacity, log)
    ensures Reflects(Run(c, capacity, calls), capacity, Admitted(capacity, calls, log))
    decreases |calls|
  {
    if calls != [] {
      var (k, computed) := calls[0];
      var next := Classify(c, capacity, k, computed);
      ClassifyKeepsValid(c, capacity, k, computed);
      if k !in c.value && computed.Some? {
        StoreReflects(c.(forwards := c.forwards + 1), capacity, log, k, computed.value);
        RunReflects(next, capacity, calls[1..], log + [(k, computed.value)]);
      } else {
        RunReflects(next, capacity, calls[1..], log);
      }
    }
  }

  // ---- The cache itself ---------------------------------------------------------------------------

  class ExactCache<K(==), V> {
    var entries: map<K, V>
    var order: seq<K>
    const capacity: nat
    var forwardCount: nat
    var hitCount: nat
    var evictedCount: nat

    ghost function Value(): Cache<K, V>
      reads this
    {
      Cache(order, entries, forwardCount, hitCount, evictedCount)
    }

    ghost predicate Ok()
      reads this
    {
      Valid(Value(), capacity)
    }

    /** Capacity zero is raised to one. */
    constructor (requested: nat)
      ensures Ok() && Value() == Empty()
      ensures capacity == if requested == 0 then 1 else requested
    {
      entries, order := map[], [];
      capacity := if requested == 0 then 1 else requested;
      forwardCount, hitCount, evictedCount := 0, 0, 0;
    }

    method Insert(key: K, result: V)
      requires Ok()
      modifies this
      ensures Ok() && Value() == Store(old(Value()), capacity, key, result)
    {
      StoreKeepsValid(Value(), capacity, key, result);
      MapSize(Value(), capacity);
      if key in entries {
        entries := entries[key := result];
        return;
      }
      ghost var before := Value();
      while |entries| >= capacity
        // The queue never runs dry, and one eviction is enough.
        invariant Valid(Value(), capacity)
        invariant key !in entries
        invariant Value() == before || (|before.order| == capacity && Value() == Evict(before))
        decreases |order|
      {
        MapSize(Value(), capacity);
        EvictKeepsValid(Value(), capacity);
        var oldest := order[0];
        order := order[1..];
        entries := entries - {oldest};
        evictedCount := evictedCount + 1;
      }
      MapSize(Value(), capacity);
      order := order + [key];
      entries := entries[key := result];
    }

    /** A hit never runs the forward; a miss runs it once; only a success is stored. */
    method ClassifyWith(key: K, forward: Option<V>) returns (result: Option<V>, ran: bool)
      requires Ok()
      modifies this
      ensures Ok() && Value() == Classify(old(Value()), capacity, key, forward)
      ensures ran == (key !in old(entries))
      ensures result == if ran then forward else Some(old(entries)[key])
      ensures hitCount == old(hitCount) + (if ran then 0 else 1)
      ensures forwardCount == old(forwardCount) + (if ran then 1 else 0)
    {
      if key in entries {
        hitCount := hitCount + 1;
        return Some(entries[key]), false;
      }
      forwardCount := forwardCount + 1;
      if forward.Some? {
        Insert(key, forward.value);
      }
      return forward, true;
    }
  }
}
