/** Measuring from several workers at once: distinct keys against the single-flight protocol. */
module ConcurrentMeasure {
  import opened Types
  import opened ExactCaches
  import opened SingleFlight
  import opened Bench
  import Service
  import Runs = ServiceRuns

  /** All calls are about to start against a cache that may hold anything; no forward is running. */
  function From(sys: System, c: Cache<Key, Classification>): State {
    State(c, map[], [], seq(|sys.keys|, _ => Start))
  }

  /** Nobody else is concerned with the key of call `t`: it is in flight only by this call, and the
      call waits for no other. */
  ghost predicate Alone(sys: System, s: State, t: nat)
    requires Closed(sys, s) && t < |s.pc|
  {
    var p := s.pc[t];
    && (sys.keys[t] in s.inFlight <==> Registered(p))
    && !p.Checking? && !p.Parked? && !p.Panicked?
    && !(p.Done? && p.path.Coalesced?)
  }

  /** The key of call `t` was not cached at the start, and so the call misses. */
  ghost predicate Misses(sys: System, s: State, t: nat)
    requires Closed(sys, s) && t < |s.pc|
  {
    var p := s.pc[t];
    && (p.Start? || p.PastFastPath? || p.Forwarding? || p.Returned? ==> sys.keys[t] !in s.cache.value)
    && (p.Done? ==> p.path.Miss?)
  }

  lemma StepKeepsAlone(sys: System, s: State, t: nat, r: Outcome, u: nat)
    requires Closed(sys, s) && Closed(sys, Step(sys, s, t, r)) && Distinct(sys.keys)
    requires Enabled(s, t) && u < |s.pc| && Alone(sys, s, t) && Alone(sys, s, u)
    ensures Alone(sys, Step(sys, s, t, r), u)
  {
    StepMovesOne(sys, s, t, r, u);
  }

  lemma StepKeepsMisses(sys: System, s: State, t: nat, r: Outcome, u: nat)
    requires Closed(sys, s) && Closed(sys, Step(sys, s, t, r)) && Distinct(sys.keys)
    requires Enabled(s, t) && u < |s.pc| && Alone(sys, s, t) && Alone(sys, s, u) && Misses(sys, s, u)
    ensures Misses(sys, Step(sys, s, t, r), u)
  {
    StepMovesOne(sys, s, t, r, u);
    if u != t && s.pc[t].Returned? && s.pc[t].r.Ok? && sys.keys[u] !in s.cache.value {
      StoreAddsOne(s.cache.(forwards := s.cache.forwards + 1), sys.capacity, sys.keys[t], s.pc[t].r.result,
          sys.keys[u]);
    }
  }

  lemma StoreAddsOne<K, V>(c: Cache<K, V>, capacity: nat, k: K, v: V, other: K)
    requires other !in c.value && other != k
    ensures other !in Store(c, capacity, k, v).value
  {
  }

  lemma {:induction false} ExecKeepsAlone(sys: System, s: State, sched: Schedule)
    requires Closed(sys, s) && Distinct(sys.keys) && forall t :: 0 <= t < |s.pc| ==> Alone(sys, s, t)
    ensures forall t :: 0 <= t < |s.pc| ==> Alone(sys, Exec(sys, s, sched), t)
    ensures forall t :: 0 <= t < |s.pc| && Misses(sys, s, t) ==> Misses(sys, Exec(sys, s, sched), t)
    decreases |sched|
  {
    if sched != [] {
      var (t, r) := sched[0];
      StepKeepsClosed(sys, s, t, r);
      var after := Step(sys, s, t, r);
      forall u | 0 <= u < |s.pc|
        ensures Alone(sys, after, u) && (Misses(sys, s, u) ==> Misses(sys, after, u))
      {
        if Enabled(s, t) {
          StepKeepsAlone(sys, s, t, r, u);
          if Misses(sys, s, u) { StepKeepsMisses(sys, s, t, r, u); }
        }
      }
      ExecKeepsAlone(sys, after, sched[1..]);
    }
  }

  /** While every key is cached, nothing but hits happens. */
  ghost predicate OnlyHits(s: State, c: Cache<Key, Classification>) {
    s.cache == c && forall t :: 0 <= t < |s.pc| ==> s.pc[t].Start? || (s.pc[t].Done? && s.pc[t].path.Hit?)
  }

  lemma {:induction false} ExecKeepsOnlyHits(sys: System, s: State, sched: Schedule, c: Cache<Key, Classification>)
    requires Closed(sys, s) && OnlyHits(s, c) && Holds(c.value, sys.keys)
    ensures OnlyHits(Exec(sys, s, sched), c)
    decreases |sched|
  {
    if sched != [] {
      StepKeepsClosed(sys, s, sched[0].0, sched[0].1);
      ExecKeepsOnlyHits(sys, Step(sys, s, sched[0].0, sched[0].1), sched[1..], c);
    }
  }

  /** The cache paths of the first `n` calls, as the service's metrics count them. */
  function Paths(s: State, n: nat): Snapshot
    requires n <= |s.pc|
  {
    if n == 0 then Snapshot(0, 0, 0)
    else
      var before, p := Paths(s, n - 1), s.pc[n - 1];
      if !p.Done? then before
      else
        match p.path
        case Hit => before.(hits := before.hits + 1)
        case Miss(_) => before.(misses := before.misses + 1)
        case Coalesced(_) => before.(coalesced := before.coalesced + 1)
  }

  function Later(before: Snapshot, paths: Snapshot): Snapshot {
    Snapshot(before.hits + paths.hits, before.misses + paths.misses, before.coalesced + paths.coalesced)
  }

  lemma {:induction false} CountPaths(s: State, n: nat)
    requires n <= |s.pc| && forall t :: 0 <= t < n ==> s.pc[t].Done? && !s.pc[t].path.Coalesced?
    ensures
      var paths := Paths(s, n);
      && paths.hits + paths.misses == n && paths.coalesced == 0
      && (paths.misses == n <==> forall t :: 0 <= t < n ==> s.pc[t].path.Miss?)
      && (paths.hits == n <==> forall t :: 0 <= t < n ==> s.pc[t].path.Hit?)
  {
    if n > 0 { CountPaths(s, n - 1); }
  }

  /**
    Workers that measure pairwise distinct keys never wait for one another, whatever the cache holds
    and however they interleave: every request is one hit or one miss. From a cache free of the keys
    the miss-mode check accepts every complete run; and the hit-mode check accepts a complete run
    exactly when all the keys were cached.
   */
  lemma ConcurrentWindow(sys: System, c: Cache<Key, Classification>, sched: Schedule, before: Snapshot)
    requires Distinct(sys.keys) && AllDone(Exec(sys, From(sys, c), sched))
    ensures
      var n := |sys.keys|;
      var paths := Paths(Exec(sys, From(sys, c), sched), n);
      && paths.hits + paths.misses == n && paths.coalesced == 0
      && (Free(c.value, sys.keys) ==> VerifyWindow(MissMode, before, Later(before, paths), n))
      && (VerifyWindow(HitMode, before, Later(before, paths), n) <==> Holds(c.value, sys.keys))
  {
    var s, after, n := From(sys, c), Exec(sys, From(sys, c), sched), |sys.keys|;
    ExecKeepsAlone(sys, s, sched);
    forall t | 0 <= t < n ensures after.pc[t].Done? && !after.pc[t].path.Coalesced? {
      assert Alone(sys, after, t);
    }
    CountPaths(after, n);
    forall t | 0 <= t < n && sys.keys[t] !in c.value ensures after.pc[t].path.Miss? {
      assert Misses(sys, s, t) && Misses(sys, after, t);
    }
    if Holds(c.value, sys.keys) {
      ExecKeepsOnlyHits(sys, s, sched, c);
    } else {
      var k :| k in sys.keys && k !in c.value;
      var t :| 0 <= t < n && sys.keys[t] == k;
      assert after.pc[t].path.Miss?;
    }
  }

  /** Whatever the keys, a complete run in which some call waited for another is rejected by both checks. */
  lemma CoalescedWindowIsRejected(s: State, before: Snapshot, t: nat)
    requires AllDone(s) && t < |s.pc| && s.pc[t].path.Coalesced?
    ensures
      var after := Later(before, Paths(s, |s.pc|));
      !VerifyWindow(MissMode, before, after, |s.pc|) && !VerifyWindow(HitMode, before, after, |s.pc|)
  {
    PathsCountCall(s, |s.pc|, t);
  }

  lemma {:induction false} PathsCountCall(s: State, n: nat, t: nat)
    requires t < n <= |s.pc| && s.pc[t].Done? && s.pc[t].path.Coalesced?
    ensures Paths(s, n).coalesced >= 1
  {
    if t < n - 1 { PathsCountCall(s, n - 1, t); }
  }

  /** The paths counted here are what the service's own counters show once every request is answered. */
  lemma PathsAreTheServiceCounters(g: Service.Config, sched: Service.Schedule)
    requires Service.WellFormed(g) && Runs.AllAnswered(Service.Reached(g, sched))
    ensures
      var s := Service.Reached(g, sched);
      |s.sf.pc| == |g.requests| && Paths(s.sf, |g.requests|) == Snapshot(s.hits, s.misses, s.coalesced)
  {
    var s := Service.Reached(g, sched);
    Service.InitCoreInv(g);
    Service.ExecKeepsCoreInv(g, Service.Init(g), sched);
    Runs.EveryAnswerIsCountedOnce(g, sched);
    PathsOfAnswers(g, s, |g.requests|);
  }

  lemma {:induction false} PathsOfAnswers(g: Service.Config, s: Service.State, n: nat)
    requires Service.CoreInv(g, s) && Runs.AllAnswered(s) && n <= |s.stage|
    ensures n <= |s.sf.pc|
    ensures Paths(s.sf, n)
         == Snapshot(Runs.AnsweredBy(s, n, Runs.IsHit), Runs.AnsweredBy(s, n, Runs.IsMiss),
                     Runs.AnsweredBy(s, n, Runs.IsCoalesced))
  {
    if n > 0 {
      PathsOfAnswers(g, s, n - 1);
      assert Service.Aligned(g, s, n - 1);
    }
  }
}
