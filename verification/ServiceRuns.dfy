/** Whole-run properties of the service core: counting, declined requests, and progress. */
module ServiceRuns {
  import opened Types
  import SF = SingleFlight
  import opened Identities
  import opened Service

  // ---- Every answered request is counted once -----------------------------------------------------

  predicate IsHit(p: SF.Path) { p.Hit? }

  predicate IsMiss(p: SF.Path) { p.Miss? }

  predicate IsCoalesced(p: SF.Path) { p.Coalesced? }

  predicate IsAny(p: SF.Path) { true }

  function AnsweredAs(p: Stage, via: SF.Path -> bool): nat {
    if p.Answered? && via(p.path) then 1 else 0
  }

  /** How many of the first `n` requests have been answered by these cache paths. */
  ghost function AnsweredBy(s: State, n: nat, via: SF.Path -> bool): nat
    requires n <= |s.stage|
  {
    if n == 0 then 0 else AnsweredBy(s, n - 1, via) + AnsweredAs(s.stage[n - 1], via)
  }

  /** Each counter is the number of requests answered by its cache path. */
  ghost predicate CountersAgree(s: State) {
    && s.hits == AnsweredBy(s, |s.stage|, IsHit)
    && s.misses == AnsweredBy(s, |s.stage|, IsMiss)
    && s.coalesced == AnsweredBy(s, |s.stage|, IsCoalesced)
  }

  /** A step counts exactly the answer it gives, if it gives one, and changes no other stage. */
  lemma StepCounts(g: Config, s: State, t: nat, semantic: Option<Classification>)
    requires Closed(g, s) && Closed(g, Step(g, s, t, semantic)) && t < |s.stage|
    ensures
      var after := Step(g, s, t, semantic);
      && after.stage == s.stage[t := after.stage[t]]
      && after.hits + AnsweredAs(s.stage[t], IsHit) == s.hits + AnsweredAs(after.stage[t], IsHit)
      && after.misses + AnsweredAs(s.stage[t], IsMiss) == s.misses + AnsweredAs(after.stage[t], IsMiss)
      && after.coalesced + AnsweredAs(s.stage[t], IsCoalesced) == s.coalesced + AnsweredAs(after.stage[t], IsCoalesced)
  {
  }

  lemma {:induction false} AnsweredByUpdate(s: State, after: State, t: nat, n: nat, via: SF.Path -> bool)
    requires t < |s.stage| && n <= |s.stage| == |after.stage| && after.stage == s.stage[t := after.stage[t]]
    ensures AnsweredBy(after, n, via) + (if t < n then AnsweredAs(s.stage[t], via) else 0)
         == AnsweredBy(s, n, via) + if t < n then AnsweredAs(after.stage[t], via) else 0
  {
    if n > 0 { AnsweredByUpdate(s, after, t, n - 1, via); }
  }

  lemma {:induction false} NobodyAnsweredYet(g: Config, n: nat, via: SF.Path -> bool)
    requires n <= |g.requests|
    ensures AnsweredBy(Init(g), n, via) == 0
  {
    if n > 0 { NobodyAnsweredYet(g, n - 1, via); }
  }

  lemma {:induction false} ExecCounts(g: Config, s: State, sched: Schedule)
    requires Closed(g, s) && CountersAgree(s)
    ensures CountersAgree(Exec(g, s, sched))
    decreases |sched|
  {
    if sched != [] {
      var (t, semantic) := sched[0];
      StepKeepsClosed(g, s, t, semantic);
      var after := Step(g, s, t, semantic);
      if t < |s.stage| {
        StepCounts(g, s, t, semantic);
        AnsweredByUpdate(s, after, t, |s.stage|, IsHit);
        AnsweredByUpdate(s, after, t, |s.stage|, IsMiss);
        AnsweredByUpdate(s, after, t, |s.stage|, IsCoalesced);
      }
      ExecCounts(g, after, sched[1..]);
    }
  }

  lemma {:induction false} AnyPathIsOneOfThree(s: State, n: nat)
    requires n <= |s.stage|
    ensures AnsweredBy(s, n, IsHit) + AnsweredBy(s, n, IsMiss) + AnsweredBy(s, n, IsCoalesced)
         == AnsweredBy(s, n, IsAny)
  {
    if n > 0 { AnyPathIsOneOfThree(s, n - 1); }
  }

  /** In every run each counter is the number of requests answered by its own cache path, and together
      they are the requests answered by the core; a declined request is in none of them. */
  lemma EveryAnswerIsCountedOnce(g: Config, sched: Schedule)
    requires WellFormed(g)
    ensures
      var s, n := Reached(g, sched), |g.requests|;
      && s.hits == AnsweredBy(s, n, IsHit)
      && s.misses == AnsweredBy(s, n, IsMiss)
      && s.coalesced == AnsweredBy(s, n, IsCoalesced)
      && s.hits + s.misses + s.coalesced == AnsweredBy(s, n, IsAny)
  {
    NobodyAnsweredYet(g, |g.requests|, IsHit);
    NobodyAnsweredYet(g, |g.requests|, IsMiss);
    NobodyAnsweredYet(g, |g.requests|, IsCoalesced);
    ExecCounts(g, Init(g), sched);
    AnyPathIsOneOfThree(Reached(g, sched), |g.requests|);
  }

  // ---- Delta-only requests leave no trace ---------------------------------------------------------

  ghost predicate IsDelta(g: Config, t: nat) {
    t < |g.requests| && g.requests[t].completeness.Delta?
  }

  /** The schedule without the moves of delta-only requests. */
  ghost function WithoutDelta(g: Config, sched: Schedule): Schedule {
    if sched == [] then []
    else (if IsDelta(g, sched[0].0) then [] else [sched[0]]) + WithoutDelta(g, sched[1..])
  }

  /** Equal but for the stages of delta-only requests. */
  ghost predicate SameForOthers(g: Config, a: State, b: State) {
    && a.sf == b.sf && a.text == b.text
    && a.hits == b.hits && a.misses == b.misses && a.coalesced == b.coalesced
    && |a.stage| == |b.stage|
    && forall t :: 0 <= t < |a.stage| && !IsDelta(g, t) ==> a.stage[t] == b.stage[t]
  }

  lemma DeltaStepIsInvisible(g: Config, a: State, b: State, t: nat, semantic: Option<Classification>)
    requires CoreInv(g, a) && IsDelta(g, t) && SameForOthers(g, a, b)
    ensures SameForOthers(g, Step(g, a, t, semantic), b)
  {
    assert Aligned(g, a, t);
    SF.StepMovesOne(Sys(g), a.sf, t, Err(NotReady), t);
  }

  lemma OtherStepIsTheSame(g: Config, a: State, b: State, t: nat, semantic: Option<Classification>)
    requires CoreInv(g, a) && CoreInv(g, b) && !IsDelta(g, t) && SameForOthers(g, a, b)
    ensures SameForOthers(g, Step(g, a, t, semantic), Step(g, b, t, semantic))
  {
    if t < |a.stage| {
      assert a.stage[t] == b.stage[t];
      assert Step(g, a, t, semantic).stage == a.stage[t := Step(g, a, t, semantic).stage[t]];
      assert Step(g, b, t, semantic).stage == b.stage[t := Step(g, b, t, semantic).stage[t]];
    }
  }

  lemma {:induction false} DeltaRunsAgree(g: Config, a: State, b: State, sched: Schedule)
    requires CoreInv(g, a) && CoreInv(g, b) && SameForOthers(g, a, b)
    ensures SameForOthers(g, Exec(g, a, sched), Exec(g, b, WithoutDelta(g, sched)))
    decreases |sched|
  {
    if sched != [] {
      var (t, semantic) := sched[0];
      StepKeepsCoreInv(g, a, t, semantic);
      if IsDelta(g, t) {
        DeltaStepIsInvisible(g, a, b, t, semantic);
        assert WithoutDelta(g, sched) == WithoutDelta(g, sched[1..]);
        DeltaRunsAgree(g, Step(g, a, t, semantic), b, sched[1..]);
      } else {
        StepKeepsCoreInv(g, b, t, semantic);
        OtherStepIsTheSame(g, a, b, t, semantic);
        DeltaRunsAgree(g, Step(g, a, t, semantic), Step(g, b, t, semantic), sched[1..]);
        assert WithoutDelta(g, sched)[1..] == WithoutDelta(g, sched[1..]);
      }
    }
  }

  /** No signals, abstaining, and the provenance of the identity. */
  ghost predicate IsAbstention(c: Classification, id: Identity) {
    && c.status == Abstain && c.ranked == []
    && c.classifierId == id.classifierId && c.modelRevision == id.modelRevision
    && c.tokenizerRevision == id.tokenizerRevision && c.taxonomyRevision == id.taxonomyRevision
  }

  /**
    A delta-only request is invisible: taking its moves out of any run changes no cache, no slot, no
    counter and no other answer; and it is only ever answered by an abstention of its own identity.
   */
  lemma DeltaIsInvisible(g: Config, sched: Schedule)
    requires WellFormed(g)
    ensures SameForOthers(g, Reached(g, sched), Reached(g, WithoutDelta(g, sched)))
    ensures forall t :: 0 <= t < |g.requests| && IsDelta(g, t) ==>
              && Reached(g, sched).stage[t] in {Arrived, Declined(Abstention(Id(g, t)))}
              && (Reached(g, sched).stage[t].Declined? ==>
                    IsAbstention(Reached(g, sched).stage[t].abstention, g.requests[t].identity))
  {
    InitCoreInv(g);
    ExecKeepsCoreInv(g, Init(g), sched);
    DeltaRunsAgree(g, Init(g), Init(g), sched);
    forall t | 0 <= t < |g.requests| && IsDelta(g, t)
      ensures Reached(g, sched).stage[t] in {Arrived, Declined(Abstention(Id(g, t)))}
    {
      assert Aligned(g, Reached(g, sched), t);
    }
  }

  // ---- Progress -----------------------------------------------------------------------------------

  /** How far request `t` is from its answer: protocol sections first, then the forward's own steps. */
  ghost function Rank(s: State, t: nat): nat
    requires t < |s.stage| && t < |s.sf.pc|
  {
    10 * SF.Rank(s.sf, t) +
    match s.stage[t]
    case Arrived => 2
    case Core => 1
    case ConsultText => 7
    case Embed => 6
    case ConsultSemantic(_) => 5
    case RankIt(_) => 4
    case FillText(_) => 3
    case Returning(_) => 2
    case Declined(_) => 0
    case Answered(_, _) => 0
  }

  ghost function RankSum(s: State, n: nat): nat
    requires n <= |s.stage| && n <= |s.sf.pc|
  {
    if n == 0 then 0 else RankSum(s, n - 1) + Rank(s, n - 1)
  }

  lemma StepLowersRank(g: Config, s: State, t: nat, semantic: Option<Classification>, u: nat)
    requires CoreInv(g, s) && Closed(g, Step(g, s, t, semantic)) && Enabled(s, t) && u < |s.stage|
    ensures Rank(Step(g, s, t, semantic), u) + (if u == t then 1 else 0) <= Rank(s, u)
  {
    assert Aligned(g, s, t) && Aligned(g, s, u);
    if (s.stage[t].Core? && !s.sf.pc[t].Done?) || s.stage[t].Returning? {
      SF.StepLowersRank(Sys(g), s.sf, t, ForwardResult(s, t), u);
      CoreStepLowersRank(g, s, t, semantic, u);
    } else {
      ForwardStepLowersRank(g, s, t, semantic, u);
    }
  }

  lemma CoreStepLowersRank(g: Config, s: State, t: nat, semantic: Option<Classification>, u: nat)
    requires Closed(g, s) && Closed(g, Step(g, s, t, semantic)) && Enabled(s, t) && u < |s.stage|
    requires Aligned(g, s, t) && ((s.stage[t].Core? && !s.sf.pc[t].Done?) || s.stage[t].Returning?)
    requires
      var after := SF.Step(Sys(g), s.sf, t, ForwardResult(s, t));
      |after.pc| == |s.sf.pc| && SF.Rank(after, u) + (if u == t then 1 else 0) <= SF.Rank(s.sf, u)
    ensures Rank(Step(g, s, t, semantic), u) + (if u == t then 1 else 0) <= Rank(s, u)
  {
    if u != t { assert Step(g, s, t, semantic).stage[u] == s.stage[u]; }
  }

  lemma ForwardStepLowersRank(g: Config, s: State, t: nat, semantic: Option<Classification>, u: nat)
    requires Closed(g, s) && Closed(g, Step(g, s, t, semantic)) && Enabled(s, t) && u < |s.stage|
    requires Aligned(g, s, t) && (s.stage[t].Core? ==> s.sf.pc[t].Done?) && !s.stage[t].Returning?
    ensures Rank(Step(g, s, t, semantic), u) + (if u == t then 1 else 0) <= Rank(s, u)
  {
    assert Step(g, s, t, semantic).sf == s.sf;
    if u != t { assert Step(g, s, t, semantic).stage[u] == s.stage[u]; }
  }

  lemma StepLowersSum(g: Config, s: State, t: nat, semantic: Option<Classification>)
    requires CoreInv(g, s) && Closed(g, Step(g, s, t, semantic)) && Enabled(s, t)
    ensures RankSum(Step(g, s, t, semantic), |g.requests|) + 1 <= RankSum(s, |g.requests|)
  {
    forall u | 0 <= u < |s.stage| ensures Rank(Step(g, s, t, semantic), u) + (if u == t then 1 else 0) <= Rank(s, u) {
      StepLowersRank(g, s, t, semantic, u);
    }
    LowerRanksLowerSum(s, Step(g, s, t, semantic), t, |g.requests|);
  }

  lemma {:induction false} LowerRanksLowerSum(s: State, after: State, t: nat, n: nat)
    requires n <= |s.stage| && n <= |s.sf.pc| && n <= |after.stage| && n <= |after.sf.pc|
    requires forall u :: 0 <= u < n ==> Rank(after, u) + (if u == t then 1 else 0) <= Rank(s, u)
    ensures RankSum(after, n) + (if t < n then 1 else 0) <= RankSum(s, n)
  {
    if n > 0 { LowerRanksLowerSum(s, after, t, n - 1); }
  }

  lemma {:induction false} InitSum(g: Config, n: nat)
    requires n <= |g.requests|
    ensures RankSum(Init(g), n) == 82 * n
  {
    if n > 0 { InitSum(g, n - 1); }
  }

  ghost predicate Moving(g: Config, s: State, sched: Schedule)
    requires Closed(g, s)
    decreases |sched|
  {
    sched != [] ==>
      && Enabled(s, sched[0].0)
      && (StepKeepsClosed(g, s, sched[0].0, sched[0].1); Moving(g, Step(g, s, sched[0].0, sched[0].1), sched[1..]))
  }

  lemma {:induction false} MovingLowersSum(g: Config, s: State, sched: Schedule)
    requires CoreInv(g, s) && Moving(g, s, sched)
    ensures |sched| + RankSum(Exec(g, s, sched), |g.requests|) <= RankSum(s, |g.requests|)
    decreases |sched|
  {
    if sched != [] {
      var (t, semantic) := sched[0];
      StepKeepsCoreInv(g, s, t, semantic);
      StepLowersSum(g, s, t, semantic);
      MovingLowersSum(g, Step(g, s, t, semantic), sched[1..]);
    }
  }

  ghost predicate AllAnswered(s: State) {
    forall t :: 0 <= t < |s.stage| ==> s.stage[t].Answered? || s.stage[t].Declined?
  }

  /** A request asleep on a slot waits for a request that can move, inside or outside its forward. */
  lemma NeverStuck(g: Config, s: State)
    requires CoreInv(g, s) && !AllAnswered(s)
    ensures exists t :: Enabled(s, t)
  {
    var t :| 0 <= t < |s.stage| && !s.stage[t].Answered? && !s.stage[t].Declined?;
    assert SF.CallInv(Sys(g), s.sf, t);
    if s.sf.pc[t].Parked? {
      var i := s.sf.pc[t].slot;
      var c := s.sf.slots[i].creator;
      assert SF.SlotInv(Sys(g), s.sf, i) && Aligned(g, s, c);
      assert Enabled(s, c);
    } else {
      assert Enabled(s, t);
    }
  }

  /** However requests are interleaved and whatever the runtime and the semantic tier answer, a run
      makes at most 82 moves per request, and one that cannot go on has answered every request. */
  lemma EveryRequestIsAnswered(g: Config, sched: Schedule)
    requires WellFormed(g) && Moving(g, Init(g), sched)
    ensures |sched| <= 82 * |g.requests|
    ensures (forall t :: !Enabled(Reached(g, sched), t)) <==> AllAnswered(Reached(g, sched))
  {
    InitCoreInv(g);
    InitSum(g, |g.requests|);
    MovingLowersSum(g, Init(g), sched);
    ExecKeepsCoreInv(g, Init(g), sched);
    if !AllAnswered(Reached(g, sched)) { NeverStuck(g, Reached(g, sched)); }
  }
}
