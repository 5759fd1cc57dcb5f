/** How often the single-flight protocol runs the forward of one key. */
module ForwardBounds {
  import opened Types
  import opened ExactCaches
  import opened SingleFlight

  /** The next move of call `t` registers a forward of `k`. */
  ghost predicate StartsForward(sys: System, s: State, t: nat, k: Key)
    requires Closed(sys, s)
  {
    t < |s.pc| && s.pc[t].PastFastPath? && sys.keys[t] == k && k !in s.inFlight
  }

  /** How many forwards of `k` a schedule starts. */
  ghost function Forwards(sys: System, s: State, sched: Schedule, k: Key): nat
    requires Closed(sys, s)
    decreases |sched|
  {
    if sched == [] then 0
    else
      var (t, r) := sched[0];
      StepKeepsClosed(sys, s, t, r);
      (if StartsForward(sys, s, t, k) then 1 else 0) + Forwards(sys, Step(sys, s, t, r), sched[1..], k)
  }

  /** A call for `k` that has missed the cache and has not yet looked at the in-flight table. */
  ghost predicate IsLate(sys: System, s: State, k: Key, t: nat)
    requires Closed(sys, s)
  {
    t < |s.pc| && s.pc[t].PastFastPath? && sys.keys[t] == k
  }

  /** How many of the first `n` calls are late for `k`. */
  ghost function Late(sys: System, s: State, k: Key, n: nat): nat
    requires Closed(sys, s)
  {
    if n == 0 then 0 else Late(sys, s, k, n - 1) + if IsLate(sys, s, k, n - 1) then 1 else 0
  }

  /** `k` is in the cache at the start, and stays there throughout. */
  ghost predicate Keeps(sys: System, s: State, sched: Schedule, k: Key)
    requires Closed(sys, s)
    decreases |sched|
  {
    && k in s.cache.value
    && (sched != [] ==> (StepKeepsClosed(sys, s, sched[0].0, sched[0].1);
                         Keeps(sys, Step(sys, s, sched[0].0, sched[0].1), sched[1..], k)))
  }

  lemma StepOnlyLosesLate(sys: System, s: State, t: nat, r: Outcome, k: Key, u: nat)
    requires Closed(sys, s) && Closed(sys, Step(sys, s, t, r)) && k in s.cache.value
    requires IsLate(sys, Step(sys, s, t, r), k, u)
    ensures IsLate(sys, s, k, u) && !(u == t && StartsForward(sys, s, t, k))
  {
  }

  lemma {:induction false} StepBound(sys: System, s: State, t: nat, r: Outcome, k: Key, n: nat)
    requires Closed(sys, s) && Closed(sys, Step(sys, s, t, r)) && k in s.cache.value
    ensures Late(sys, Step(sys, s, t, r), k, n) + (if t < n && StartsForward(sys, s, t, k) then 1 else 0)
         <= Late(sys, s, k, n)
  {
    if n > 0 {
      StepBound(sys, s, t, r, k, n - 1);
      if IsLate(sys, Step(sys, s, t, r), k, n - 1) { StepOnlyLosesLate(sys, s, t, r, k, n - 1); }
    }
  }

  /**
    While `k` stays in the cache, the forwards of `k` that start are at most the calls that were
    already past the fast path and not yet registered. This is the true form of "one forward per
    key": `TwoForwardsOfOneKey` below is a run with two.
   */
  lemma {:induction false} LateCallsBoundForwards(sys: System, s: State, sched: Schedule, k: Key)
    requires Closed(sys, s) && Keeps(sys, s, sched, k)
    ensures Forwards(sys, s, sched, k) + Late(sys, Exec(sys, s, sched), k, |sys.keys|) <= Late(sys, s, k, |sys.keys|)
    decreases |sched|
  {
    if sched != [] {
      var (t, r) := sched[0];
      StepKeepsClosed(sys, s, t, r);
      StepBound(sys, s, t, r, k, |sys.keys|);
      LateCallsBoundForwards(sys, Step(sys, s, t, r), sched[1..], k);
    }
  }

  /** A call whose fast-path read comes after the store never runs a forward: it is served from the cache. */
  lemma {:induction false} LaterCallsHit(sys: System, s: State, sched: Schedule, t: nat)
    requires Closed(sys, s) && t < |sys.keys| && Keeps(sys, s, sched, sys.keys[t])
    requires s.pc[t].Start? || (s.pc[t].Done? && s.pc[t].path.Hit?)
    ensures
      var p := Exec(sys, s, sched).pc[t];
      p.Start? || (p.Done? && p.path.Hit?)
    decreases |sched|
  {
    if sched != [] {
      var (u, r) := sched[0];
      StepKeepsClosed(sys, s, u, r);
      if u != t { assert Step(sys, s, u, r).pc[t] == s.pc[t]; }
      LaterCallsHit(sys, Step(sys, s, u, r), sched[1..], t);
    }
  }

  lemma {:induction false} LateMeansSomeone(sys: System, s: State, k: Key, n: nat)
    requires Closed(sys, s)
    ensures Late(sys, s, k, n) > 0 <==> exists t :: 0 <= t < n && IsLate(sys, s, k, t)
  {
    if n > 0 { LateMeansSomeone(sys, s, k, n - 1); }
  }

  /** A late call can still start a forward: let the registered one leave the table first. */
  lemma {:induction false} LateCallCanForward(sys: System, s: State, k: Key, t: nat) returns (sched: Schedule)
    requires Inv(sys, s) && k in s.cache.value && IsLate(sys, s, k, t)
    ensures Keeps(sys, s, sched, k) && Forwards(sys, s, sched, k) > 0
    decreases if k in s.inFlight then 1 + Rank(s, s.slots[s.inFlight[k]].creator) else 0
  {
    if k !in s.inFlight {
      sched := [(t, Err(NotReady))];
      StepKeepsClosed(sys, s, t, Err(NotReady));
      assert Keeps(sys, Step(sys, s, t, Err(NotReady)), sched[1..], k);
    } else {
      var c := s.slots[s.inFlight[k]].creator;
      assert TableInv(sys, s, k) && SlotInv(sys, s, s.inFlight[k]) && CallInv(sys, s, c);
      var next := Step(sys, s, c, Err(NotReady));
      StepKeepsInv(sys, s, c, Err(NotReady));
      StepLowersRank(sys, s, c, Err(NotReady), c);
      var rest := LateCallCanForward(sys, next, k, t);
      sched := [(c, Err(NotReady))] + rest;
      assert sched[1..] == rest;
    }
  }

  /**
    Exactly when the forward of a key that is already cached can run again: some call for it is past
    the fast path and not yet at the in-flight table.
   */
  lemma ForwardsAgainIffLate(sys: System, before: Schedule, k: Key)
    requires 1 <= sys.capacity
    requires k in Reached(sys, before).cache.value
    ensures
      var s := Reached(sys, before);
      (exists sched :: Keeps(sys, s, sched, k) && Forwards(sys, s, sched, k) > 0)
      <==> (exists t: nat :: IsLate(sys, s, k, t))
  {
    var s := Reached(sys, before);
    InitInv(sys);
    ExecKeepsInv(sys, Init(sys), before);
    LateMeansSomeone(sys, s, k, |sys.keys|);
    if t: nat :| IsLate(sys, s, k, t) {
      var sched := LateCallCanForward(sys, s, k, t);
    } else {
      forall sched | Keeps(sys, s, sched, k) ensures Forwards(sys, s, sched, k) == 0 {
        LateCallsBoundForwards(sys, s, sched, k);
      }
    }
  }

  // ---- When nothing is ever evicted ---------------------------------------------------------------

  ghost predicate OnlyCallKeys(sys: System, s: State) {
    forall k :: k in s.cache.order ==> k in sys.keys
  }

  lemma NewKeyFits(sys: System, c: Cache<Key, Classification>, k: Key)
    requires Valid(c, sys.capacity) && k !in c.value && k in sys.keys
    requires forall x :: x in c.order ==> x in sys.keys
    requires |set x | x in sys.keys| <= sys.capacity
    ensures |c.order| < sys.capacity
  {
    DistinctCardinality(c.order);
    var live := set x | x in c.order;
    var all := set x | x in sys.keys;
    assert live + {k} <= all;
    CardinalityMonotone(live + {k}, all);
  }

  lemma {:induction false} CardinalityMonotone<T>(a: set<T>, b: set<T>)
    requires a <= b
    ensures |a| <= |b|
  {
    if a != {} {
      var x :| x in a;
      CardinalityMonotone(a - {x}, b - {x});
    }
  }

  /** A cache with room for every key of the calls never drops one. */
  lemma {:induction false} RoomMeansKept(sys: System, s: State, sched: Schedule, k: Key)
    requires Inv(sys, s) && OnlyCallKeys(sys, s) && k in s.cache.value
    requires |set x | x in sys.keys| <= sys.capacity
    ensures Keeps(sys, s, sched, k)
    decreases |sched|
  {
    if sched != [] {
      var (t, r) := sched[0];
      StepKeepsInv(sys, s, t, r);
      StepKeepsCallKeys(sys, s, t, r);
      RoomMeansKept(sys, Step(sys, s, t, r), sched[1..], k);
    }
  }

  lemma StepKeepsCallKeys(sys: System, s: State, t: nat, r: Outcome)
    requires Inv(sys, s) && OnlyCallKeys(sys, s)
    requires |set x | x in sys.keys| <= sys.capacity
    ensures OnlyCallKeys(sys, Step(sys, s, t, r))
    ensures forall k :: k in s.cache.value ==> k in Step(sys, s, t, r).cache.value
  {
    if Enabled(s, t) && s.pc[t].Returned? && s.pc[t].r.Ok? && sys.keys[t] !in s.cache.value {
      NewKeyFits(sys, s.cache, sys.keys[t]);
    }
  }

  lemma {:induction false} ExecKeepsCallKeys(sys: System, s: State, sched: Schedule)
    requires Inv(sys, s) && OnlyCallKeys(sys, s)
    requires |set x | x in sys.keys| <= sys.capacity
    ensures OnlyCallKeys(sys, Exec(sys, s, sched))
    decreases |sched|
  {
    if sched != [] {
      StepKeepsInv(sys, s, sched[0].0, sched[0].1);
      StepKeepsCallKeys(sys, s, sched[0].0, sched[0].1);
      ExecKeepsCallKeys(sys, Step(sys, s, sched[0].0, sched[0].1), sched[1..]);
    }
  }

  /** With room for every key, the bound holds from the first store of `k` to the end of any run. */
  lemma RoomBoundsForwards(sys: System, before: Schedule, rest: Schedule, k: Key)
    requires 1 <= sys.capacity && |set x | x in sys.keys| <= sys.capacity
    requires k in Reached(sys, before).cache.value
    ensures Forwards(sys, Reached(sys, before), rest, k) <= Late(sys, Reached(sys, before), k, |sys.keys|)
  {
    var s := Reached(sys, before);
    InitInv(sys);
    ExecKeepsInv(sys, Init(sys), before);
    ExecKeepsCallKeys(sys, Init(sys), before);
    RoomMeansKept(sys, s, rest, k);
    LateCallsBoundForwards(sys, s, rest, k);
  }

  /** Call `t` has a successful result behind its store. */
  ghost predicate Succeeded(p: Pc) {
    match p
    case Stored(_, r) => r.Ok?
    case Removed(_, r) => r.Ok?
    case Published(_, r) => r.Ok?
    case Done(r, _) => r.Ok?
    case _ => false
  }

  /** Whatever has succeeded is cached: for a call, and for a slot that others read. */
  ghost predicate CallCached(sys: System, s: State, t: nat)
    requires Closed(sys, s) && t < |s.pc|
  {
    Succeeded(s.pc[t]) ==> sys.keys[t] in s.cache.value
  }

  ghost predicate SlotCached(s: State, i: nat)
    requires i < |s.slots|
  {
    s.slots[i].result.Some? && s.slots[i].result.value.Ok? ==> s.slots[i].key in s.cache.value
  }

  ghost predicate SuccessesCached(sys: System, s: State)
    requires Closed(sys, s)
  {
    && (forall t :: 0 <= t < |s.pc| ==> CallCached(sys, s, t))
    && (forall i :: 0 <= i < |s.slots| ==> SlotCached(s, i))
  }

  lemma StepKeepsCallCached(sys: System, s: State, t: nat, r: Outcome, u: nat)
    requires Closed(sys, s) && Closed(sys, Step(sys, s, t, r)) && Enabled(s, t) && u < |s.pc|
    requires CallInv(sys, s, t) && CallCached(sys, s, t) && CallCached(sys, s, u)
    requires s.pc[t].Checking? ==> SlotCached(s, s.pc[t].slot)
    requires forall k :: k in s.cache.value ==> k in Step(sys, s, t, r).cache.value
    ensures CallCached(sys, Step(sys, s, t, r), u)
  {
    StepMovesOne(sys, s, t, r, u);
  }

  lemma StepKeepsSlotCached(sys: System, s: State, t: nat, r: Outcome, i: nat)
    requires Closed(sys, s) && Closed(sys, Step(sys, s, t, r)) && Enabled(s, t) && i < |Step(sys, s, t, r).slots|
    requires CallInv(sys, s, t) && CallCached(sys, s, t) && (i < |s.slots| ==> SlotCached(s, i))
    requires forall k :: k in s.cache.value ==> k in Step(sys, s, t, r).cache.value
    ensures SlotCached(Step(sys, s, t, r), i)
  {
  }

  lemma {:induction false} ExecKeepsSuccessesCached(sys: System, s: State, sched: Schedule)
    requires Inv(sys, s) && OnlyCallKeys(sys, s) && SuccessesCached(sys, s)
    requires |set x | x in sys.keys| <= sys.capacity
    ensures SuccessesCached(sys, Exec(sys, s, sched))
    decreases |sched|
  {
    if sched != [] {
      var (t, r) := sched[0];
      StepKeepsInv(sys, s, t, r);
      StepKeepsCallKeys(sys, s, t, r);
      var after := Step(sys, s, t, r);
      if Enabled(s, t) {
        assert CallInv(sys, s, t) && CallCached(sys, s, t);
        forall u | 0 <= u < |after.pc| ensures CallCached(sys, after, u) { StepKeepsCallCached(sys, s, t, r, u); }
        forall i | 0 <= i < |after.slots| ensures SlotCached(after, i) { StepKeepsSlotCached(sys, s, t, r, i); }
      }
      ExecKeepsSuccessesCached(sys, after, sched[1..]);
    }
  }

  /**
    What the cache is for: with room for every key, once any call has been answered with a result, by
    whatever path, no call for that key that starts afterwards runs a forward or waits for one.
   */
  lemma AnsweredOnceThenHits(sys: System, before: Schedule, rest: Schedule, t: nat, u: nat)
    requires 1 <= sys.capacity && |set x | x in sys.keys| <= sys.capacity
    requires t < |sys.keys| && u < |sys.keys| && sys.keys[t] == sys.keys[u]
    requires Reached(sys, before).pc[t].Done? && Reached(sys, before).pc[t].r.Ok? && Reached(sys, before).pc[u].Start?
    ensures
      var p := Exec(sys, Reached(sys, before), rest).pc[u];
      p.Start? || (p.Done? && p.path.Hit?)
  {
    var s := Reached(sys, before);
    InitInv(sys);
    ExecKeepsInv(sys, Init(sys), before);
    ExecKeepsCallKeys(sys, Init(sys), before);
    ExecKeepsSuccessesCached(sys, Init(sys), before);
    assert CallCached(sys, s, t);
    RoomMeansKept(sys, s, rest, sys.keys[u]);
    LaterCallsHit(sys, s, rest, u);
  }

  lemma FirstStep(sys: System, s: State, c: (nat, Outcome), rest: Schedule, k: Key)
    requires Closed(sys, s)
    ensures Closed(sys, Step(sys, s, c.0, c.1))
    ensures Exec(sys, s, [c] + rest) == Exec(sys, Step(sys, s, c.0, c.1), rest)
    ensures Forwards(sys, s, [c] + rest, k)
         == (if StartsForward(sys, s, c.0, k) then 1 else 0) + Forwards(sys, Step(sys, s, c.0, c.1), rest, k)
  {
    StepKeepsClosed(sys, s, c.0, c.1);
    assert ([c] + rest)[1..] == rest;
  }

  /** Call 0 has registered its forward; call 1 has missed the cache and is on its way to the table. */
  function OneRegistered(k: Key): State {
    State(Empty(), map[k := 0], [Slot(k, 0, None, 0)], [Forwarding(0), PastFastPath])
  }

  /** Call 0 has stored `v` and left the table; call 1 has not reached it yet. */
  function OneLeft(k: Key, v: Classification): State {
    State(Cache([k], map[k := v], 1, 0, 0), map[], [Slot(k, 0, None, 0)], [Removed(0, Ok(v)), PastFastPath])
  }

  lemma Opening(k: Key, ok: Outcome, rest: Schedule)
    ensures
      var sys := System([k, k], 1);
      var sched := [(0, ok)] + ([(1, ok)] + ([(0, ok)] + rest));
      && Closed(sys, OneRegistered(k))
      && Exec(sys, Init(sys), sched) == Exec(sys, OneRegistered(k), rest)
      && Forwards(sys, Init(sys), sched, k) == 1 + Forwards(sys, OneRegistered(k), rest, k)
  {
    var sys := System([k, k], 1);
    var s0 := Init(sys);
    var s1 := State(Empty(), map[], [], [PastFastPath, Start]);
    var s2 := State(Empty(), map[], [], [PastFastPath, PastFastPath]);
    FirstStep(sys, s0, (0, ok), [(1, ok)] + ([(0, ok)] + rest), k);
    assert Step(sys, s0, 0, ok) == s1;
    FirstStep(sys, s1, (1, ok), [(0, ok)] + rest, k);
    assert Step(sys, s1, 1, ok) == s2;
    FirstStep(sys, s2, (0, ok), rest, k);
    assert Step(sys, s2, 0, ok) == OneRegistered(k);
  }

  lemma Middle(k: Key, v: Classification, rest: Schedule)
    ensures
      var sys := System([k, k], 1);
      var ok := Ok(v);
      var sched := [(0, ok)] + ([(0, ok)] + ([(0, ok)] + rest));
      && Closed(sys, OneRegistered(k)) && Closed(sys, OneLeft(k, v))
      && Exec(sys, OneRegistered(k), sched) == Exec(sys, OneLeft(k, v), rest)
      && Forwards(sys, OneRegistered(k), sched, k) == Forwards(sys, OneLeft(k, v), rest, k)
  {
    var sys, ok := System([k, k], 1), Ok(v);
    var s4 := OneReturned(k, v);
    ForwardReturns(k, v);
    FirstStep(sys, OneRegistered(k), (0, ok), [(0, ok)] + ([(0, ok)] + rest), k);
    FirstStep(sys, s4, (0, ok), [(0, ok)] + rest, k);
    FirstStep(sys, Step(sys, s4, 0, ok), (0, ok), rest, k);
  }

  /** Call 0 has its forward's result but has not stored it yet. */
  function OneReturned(k: Key, v: Classification): State {
    OneRegistered(k).(pc := [Returned(0, Ok(v)), PastFastPath])
  }

  /** Call 0 gets its result, stores it and leaves the table, and starts no further forward. */
  lemma ForwardReturns(k: Key, v: Classification)
    ensures
      var sys, ok := System([k, k], 1), Ok(v);
      var s3, s4 := OneRegistered(k), OneReturned(k, v);
      var s5 := Step(sys, s4, 0, ok);
      && Closed(sys, s3) && Closed(sys, s4) && Step(sys, s3, 0, ok) == s4 && Step(sys, s5, 0, ok) == OneLeft(k, v)
      && !StartsForward(sys, s3, 0, k) && !StartsForward(sys, s4, 0, k) && !StartsForward(sys, s5, 0, k)
  {
    var sys, ok := System([k, k], 1), Ok(v);
    var s4 := OneReturned(k, v);
    assert Step(sys, s4, 0, ok)
        == s4.(cache := Cache([k], map[k := v], 1, 0, 0), pc := [Stored(0, ok), PastFastPath]);
  }

  /** Two calls for one key, no eviction, no failure, and yet two forwards: the second call read the
      cache before the first one stored, and reached the table after the first one left it. */
  lemma TwoForwardsOfOneKey(k: Key, v: Classification) returns (sched: Schedule)
    ensures Forwards(System([k, k], 1), Init(System([k, k], 1)), sched, k) == 2
    ensures Reached(System([k, k], 1), sched).cache.evicted == 0
    ensures k in Reached(System([k, k], 1), sched).cache.value
  {
    var ok := Ok(v);
    var last: Schedule := [(1, ok)] + [];
    var middle := [(0, ok)] + ([(0, ok)] + ([(0, ok)] + last));
    Opening(k, ok, middle);
    Middle(k, v, last);
    FirstStep(System([k, k], 1), OneLeft(k, v), (1, ok), [], k);
    sched := [(0, ok)] + ([(1, ok)] + ([(0, ok)] + middle));
  }
}
