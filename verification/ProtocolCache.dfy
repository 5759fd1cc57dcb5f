/** What the shared cache holds over any run of the single-flight protocol, and whom it serves. */
module ProtocolCache {
  import opened Types
  import opened ExactCaches
  import opened SingleFlight

  type Log = seq<(Key, Classification)>

  /** The successful forwards whose results a schedule has published to the cache, in order, after
      `earlier` ones. */
  ghost function Published(sys: System, s: State, sched: Schedule, earlier: Log): Log
    requires Closed(sys, s)
    decreases |sched|
  {
    if sched == [] then earlier
    else
      StepKeepsClosed(sys, s, sched[0].0, sched[0].1);
      Published(sys, Step(sys, s, sched[0].0, sched[0].1), sched[1..], PublishedBy(sys, s, sched[0].0, earlier))
  }

  /** A call whose forward has returned a success publishes it with its next move. */
  ghost function PublishedBy(sys: System, s: State, t: nat, earlier: Log): Log
    requires Closed(sys, s)
  {
    if t < |s.pc| && s.pc[t].Returned? && s.pc[t].r.Ok? then earlier + [(sys.keys[t], s.pc[t].r.result)] else earlier
  }

  lemma StepReflects(sys: System, s: State, t: nat, r: Outcome, log: Log)
    requires Closed(sys, s) && Valid(s.cache, sys.capacity) && Reflects(s.cache, sys.capacity, log)
    requires s.cache.forwards == |log|
    ensures
      var after, longer := Step(sys, s, t, r).cache, PublishedBy(sys, s, t, log);
      Reflects(after, sys.capacity, longer) && after.forwards == |longer|
  {
    StepChangesCache(sys, s, t, r);
    if t < |s.pc| && s.pc[t].Returned? && s.pc[t].r.Ok? {
      PublishReflects(s.cache, sys.capacity, log, sys.keys[t], s.pc[t].r.result);
    }
  }

  lemma StepChangesCache(sys: System, s: State, t: nat, r: Outcome)
    requires Closed(sys, s)
    ensures Step(sys, s, t, r).cache
         == if t < |s.pc| && s.pc[t].Returned? && s.pc[t].r.Ok?
            then Store(s.cache.(forwards := s.cache.forwards + 1), sys.capacity, sys.keys[t], s.pc[t].r.result)
            else s.cache
  {
  }

  lemma PublishReflects(c: Cache<Key, Classification>, capacity: nat, log: Log, k: Key, v: Classification)
    requires Valid(c, capacity) && Reflects(c, capacity, log) && c.forwards == |log|
    ensures
      var after := Store(c.(forwards := c.forwards + 1), capacity, k, v);
      Reflects(after, capacity, log + [(k, v)]) && after.forwards == |log + [(k, v)]|
  {
    StoreReflects(c.(forwards := c.forwards + 1), capacity, log, k, v);
  }

  lemma {:induction false} ExecReflects(sys: System, s: State, sched: Schedule, log: Log)
    requires Closed(sys, s) && Valid(s.cache, sys.capacity) && Reflects(s.cache, sys.capacity, log)
    requires s.cache.forwards == |log|
    ensures
      var after, longer := Exec(sys, s, sched).cache, Published(sys, s, sched, log);
      Valid(after, sys.capacity) && Reflects(after, sys.capacity, longer) && after.forwards == |longer|
    decreases |sched|
  {
    if sched != [] {
      var (t, r) := sched[0];
      StepKeepsClosed(sys, s, t, r);
      StepKeepsCache(sys, s, t, r);
      StepReflects(sys, s, t, r, log);
      ExecReflects(sys, Step(sys, s, t, r), sched[1..], PublishedBy(sys, s, t, log));
    }
  }

  /**
    First in, first out under any interleaving: at every moment of every run the shared cache lists the
    newest `capacity` of the keys in the order they were newly published, everything older has been
    evicted, each live key holds the result published last for it, and the forward count is the number
    of successful forwards.
   */
  lemma SharedCacheIsFifo(sys: System, sched: Schedule)
    requires 1 <= sys.capacity
    ensures
      var c, log := Reached(sys, sched).cache, Published(sys, Init(sys), sched, []);
      && (forall k :: k in c.value <==> k in c.order)
      && c.order == Last(NewKeys(sys.capacity, log), sys.capacity)
      && c.evicted + |c.order| == |NewKeys(sys.capacity, log)|
      && (forall k :: k in c.value ==> LastStored(log, k) == Some(c.value[k]))
      && c.forwards == |log|
  {
    ExecReflects(sys, Init(sys), sched, []);
  }

  /** A call that starts now is answered from the cache exactly when its key is among the newest
      `capacity` arrivals, and then with the result published last for it. */
  lemma StartsAsHitIff(sys: System, sched: Schedule, t: nat, r: Outcome)
    requires 1 <= sys.capacity && t < |sys.keys| && Reached(sys, sched).pc[t].Start?
    ensures
      var k, log := sys.keys[t], Published(sys, Init(sys), sched, []);
      var p := Step(sys, Reached(sys, sched), t, r).pc[t];
      if k in Last(NewKeys(sys.capacity, log), sys.capacity)
      then p.Done? && p.path.Hit? && p.r.Ok? && LastStored(log, k) == Some(p.r.result)
      else p.PastFastPath?
  {
    SharedCacheIsFifo(sys, sched);
  }

  /** In particular, without any assumption on room: a call that starts while fewer than `capacity` new
      keys have been published since its own arrived is a hit. */
  lemma RecentKeyHits(sys: System, sched: Schedule, t: nat, r: Outcome, i: nat)
    requires 1 <= sys.capacity && t < |sys.keys| && Reached(sys, sched).pc[t].Start?
    requires
      var arrived := NewKeys(sys.capacity, Published(sys, Init(sys), sched, []));
      i < |arrived| && arrived[i] == sys.keys[t] && |arrived| - 1 - i < sys.capacity
    ensures
      var p := Step(sys, Reached(sys, sched), t, r).pc[t];
      p.Done? && p.path.Hit?
  {
    var arrived := NewKeys(sys.capacity, Published(sys, Init(sys), sched, []));
    RecentIsInLast(arrived, sys.capacity, i);
    StartsAsHitIff(sys, sched, t, r);
  }

  lemma RecentIsInLast<T>(s: seq<T>, n: nat, i: nat)
    requires i < |s| && |s| - 1 - i < n
    ensures s[i] in Last(s, n)
  {
    var newest := Last(s, n);
    assert newest[|newest| - (|s| - i)] == s[i];
  }
}
