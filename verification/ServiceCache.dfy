/** What the service's exact cache holds over any run, and which requests it answers. */
module ServiceCache {
  import opened Types
  import opened ExactCaches
  import opened Service
  import SF = SingleFlight
  import opened ProtocolCache

  /** The successful forwards that requests have published to the exact cache, in order, after
      `earlier` ones: each under the key of its request. */
  ghost function Stored(g: Config, s: State, sched: Schedule, earlier: Log): Log
    requires Closed(g, s)
    decreases |sched|
  {
    if sched == [] then earlier
    else
      StepKeepsClosed(g, s, sched[0].0, sched[0].1);
      Stored(g, Step(g, s, sched[0].0, sched[0].1), sched[1..], StoredBy(g, s, sched[0].0, earlier))
  }

  ghost function StoredBy(g: Config, s: State, t: nat, earlier: Log): Log
    requires Closed(g, s)
  {
    if t < |g.requests| && s.stage[t].Core? && s.sf.pc[t].Returned? && s.sf.pc[t].r.Ok?
    then earlier + [(KeyOf(g, t), s.sf.pc[t].r.result)]
    else earlier
  }

  lemma StepStores(g: Config, s: State, t: nat, semantic: Option<Classification>, log: Log)
    requires CoreInv(g, s) && Reflects(s.sf.cache, g.cacheCapacity, log) && s.sf.cache.forwards == |log|
    ensures
      var after, longer := Step(g, s, t, semantic).sf.cache, StoredBy(g, s, t, log);
      Reflects(after, g.cacheCapacity, longer) && after.forwards == |longer|
  {
    StepInProtocol(g, s, t, semantic);
    if Enabled(s, t) {
      assert Aligned(g, s, t);
      if s.stage[t].Core? || s.stage[t].Returning? {
        StepReflects(Sys(g), s.sf, t, ForwardResult(s, t), log);
      }
    }
  }

  lemma {:induction false} ExecStores(g: Config, s: State, sched: Schedule, log: Log)
    requires CoreInv(g, s) && Reflects(s.sf.cache, g.cacheCapacity, log) && s.sf.cache.forwards == |log|
    ensures
      var after, longer := Exec(g, s, sched).sf.cache, Stored(g, s, sched, log);
      Reflects(after, g.cacheCapacity, longer) && after.forwards == |longer|
    decreases |sched|
  {
    if sched != [] {
      var (t, semantic) := sched[0];
      StepKeepsCoreInv(g, s, t, semantic);
      StepStores(g, s, t, semantic, log);
      ExecStores(g, Step(g, s, t, semantic), sched[1..], StoredBy(g, s, t, log));
    }
  }

  /**
    In every run the exact cache of the service holds the newest `cacheCapacity` keys in the order they
    were newly stored, each with what was stored for it last; its forward count is the number of
    successful forwards.
   */
  lemma ExactCacheIsFifo(g: Config, sched: Schedule)
    requires WellFormed(g)
    ensures
      var c, log := Reached(g, sched).sf.cache, Stored(g, Init(g), sched, []);
      && c.order == Last(NewKeys(g.cacheCapacity, log), g.cacheCapacity)
      && c.evicted + |c.order| == |NewKeys(g.cacheCapacity, log)|
      && (forall k :: k in c.value <==> k in c.order)
      && (forall k :: k in c.value ==> LastStored(log, k) == Some(c.value[k]))
      && c.forwards == |log|
  {
    InitCoreInv(g);
    ExecStores(g, Init(g), sched, []);
    ExecKeepsCoreInv(g, Init(g), sched);
  }

  /** A request that consults the cache now is a hit exactly when its key is among the newest
      `cacheCapacity`, and is then answered with what was stored for it last. */
  lemma ConsultsAsHitIff(g: Config, sched: Schedule, t: nat, a: Option<Classification>, b: Option<Classification>)
    requires WellFormed(g) && t < |g.requests|
    requires Reached(g, sched).stage[t].Core? && Reached(g, sched).sf.pc[t].Start?
    ensures
      var log := Stored(g, Init(g), sched, []);
      var p := Exec(g, Reached(g, sched), [(t, a), (t, b)]).stage[t];
      if KeyOf(g, t) in Last(NewKeys(g.cacheCapacity, log), g.cacheCapacity)
      then p.Answered? && p.path.Hit? && p.r.Ok? && LastStored(log, KeyOf(g, t)) == Some(p.r.result)
      else !p.Answered?
  {
    ExactCacheIsFifo(g, sched);
    TwoMoves(g, Reached(g, sched), t, a, b);
  }

  lemma TwoMoves(g: Config, s: State, t: nat, a: Option<Classification>, b: Option<Classification>)
    requires Closed(g, s) && t < |g.requests| && s.stage[t].Core? && s.sf.pc[t].Start?
    ensures
      var k, c := KeyOf(g, t), s.sf.cache.value;
      var p := Exec(g, s, [(t, a), (t, b)]).stage[t];
      if k in c then p == Answered(Ok(c[k]), SF.Hit) else !p.Answered?
  {
    FirstMove(g, s, t, a);
    var next := Step(g, s, t, a);
    StepKeepsClosed(g, next, t, b);
    assert [(t, a), (t, b)][1..] == [(t, b)] && [(t, b)][1..] == [];
    assert Exec(g, s, [(t, a), (t, b)]) == Exec(g, next, [(t, b)]) == Step(g, next, t, b);
  }

  lemma FirstMove(g: Config, s: State, t: nat, a: Option<Classification>)
    requires Closed(g, s) && t < |g.requests| && s.stage[t].Core? && s.sf.pc[t].Start?
    ensures
      var k, c, next := KeyOf(g, t), s.sf.cache.value, Step(g, s, t, a);
      && Closed(g, next) && next.stage[t].Core?
      && next.sf.pc[t] == if k in c then SF.Done(Ok(c[k]), SF.Hit) else SF.PastFastPath
  {
    StepKeepsClosed(g, s, t, a);
  }
}
