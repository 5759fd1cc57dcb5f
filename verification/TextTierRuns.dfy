/** What the text tier remembers over a whole run of the service, and which forwards it saves. */
module TextTierRuns {
  import opened Types
  import opened Prefilter
  import opened TextCaches
  import opened Identities
  import opened Service

  /** The answers that rankings have put into the text cache, in order, after `earlier` ones: an
      entry for each request that no tier served and whose ranking succeeded. */
  ghost function Ranked(g: Config, s: State, sched: Schedule, earlier: seq<Entry>): seq<Entry>
    requires Closed(g, s)
    decreases |sched|
  {
    if sched == [] then earlier
    else
      StepKeepsClosed(g, s, sched[0].0, sched[0].1);
      Ranked(g, Step(g, s, sched[0].0, sched[0].1), sched[1..], RankedBy(g, s, sched[0].0, earlier))
  }

  ghost function RankedBy(g: Config, s: State, t: nat, earlier: seq<Entry>): seq<Entry>
    requires Closed(g, s)
  {
    if Fills(s, t) then earlier + [Filling(g, s, t)] else earlier
  }

  ghost predicate Fills(s: State, t: nat) {
    Enabled(s, t) && s.stage[t].FillText?
  }

  ghost function Filling(g: Config, s: State, t: nat): Entry
    requires Closed(g, s) && Fills(s, t)
  {
    Entry(SignatureFor(g, Query(g, t)), Tag(Id(g, t)), s.stage[t].result)
  }

  lemma StepChangesText(g: Config, s: State, t: nat, semantic: Option<Classification>)
    requires Closed(g, s)
    ensures Step(g, s, t, semantic).text == if Fills(s, t) then RecordText(g, s, t, s.stage[t].result) else s.text
  {
  }

  /** The cache is what an empty one becomes by these inserts, all of full length. */
  ghost predicate FilledBy(g: Config, c: TextCache, ranked: seq<Entry>)
    requires WellFormed(g) && g.textTier.TextTier?
  {
    && c == Filled(g.hashes, g.textTier.capacity, ranked)
    && forall m :: 0 <= m < |ranked| ==> |ranked[m].sig| == K
  }

  lemma StepFills(g: Config, s: State, t: nat, semantic: Option<Classification>, earlier: seq<Entry>)
    requires Closed(g, s) && g.textTier.TextTier? && FilledBy(g, s.text, earlier)
    ensures FilledBy(g, Step(g, s, t, semantic).text, RankedBy(g, s, t, earlier))
  {
    StepChangesText(g, s, t, semantic);
    if Fills(s, t) {
      var longer := earlier + [Filling(g, s, t)];
      assert longer[..|longer| - 1] == earlier;
    }
  }

  /** The text cache of a run is what its rankings, and nothing else, fill it with. */
  lemma {:induction false} RankingsFillTextCache(g: Config, s: State, sched: Schedule, earlier: seq<Entry>)
    requires Closed(g, s) && g.textTier.TextTier? && FilledBy(g, s.text, earlier)
    ensures FilledBy(g, Exec(g, s, sched).text, Ranked(g, s, sched, earlier))
    decreases |sched|
  {
    if sched != [] {
      var (t, semantic) := sched[0];
      StepKeepsClosed(g, s, t, semantic);
      StepFills(g, s, t, semantic, earlier);
      RankingsFillTextCache(g, Step(g, s, t, semantic), sched[1..], RankedBy(g, s, t, earlier));
    }
  }

  /** Ranking `m` of the run answers the text of request `u` within the threshold, under the same tag,
      and fewer than `capacity` rankings have followed it. */
  ghost predicate Remembered(g: Config, ranked: seq<Entry>, u: nat, m: nat)
    requires g.textTier.TextTier? && u < |g.requests|
  {
    && m < |ranked| && |ranked| - g.textTier.capacity <= m
    && ranked[m].identity == Tag(Id(g, u))
    && Jaccard(SignatureFor(g, Query(g, u)), ranked[m].sig) >= g.textTier.threshold
  }

  /** The text cache at any moment of any run: filled by the rankings so far, hence the last of them,
      filed as they should be. */
  lemma ReachedTextCache(g: Config, sched: Schedule)
    requires WellFormed(g) && g.textTier.TextTier?
    ensures
      var c, ranked := Reached(g, sched).text, Ranked(g, Init(g), sched, []);
      && c == Filled(g.hashes, g.textTier.capacity, ranked)
      && (forall m :: 0 <= m < |ranked| ==> |ranked[m].sig| == K)
      && RingAgrees(c, g.textTier.capacity, ranked) && IndexAgrees(c, g.hashes) && FullLength(c)
  {
    var ranked := Ranked(g, Init(g), sched, []);
    RankingsFillTextCache(g, Init(g), sched, []);
    RingHoldsLastInserts(g.hashes, g.textTier.capacity, ranked);
    FilledIsFullLength(g.hashes, g.textTier.capacity, ranked);
  }

  /** The next move of request `u` is the text lookup. */
  ghost predicate Asking(g: Config, s: State, u: nat) {
    u < |g.requests| && u < |s.stage| && s.stage[u].ConsultText?
  }

  lemma AskingIsAnsweredByLookup(g: Config, s: State, u: nat, semantic: Option<Classification>)
    requires Closed(g, s) && Asking(g, s, u)
    ensures
      var hit := LookupText(g, s, u);
      Step(g, s, u, semantic).stage[u] == if hit.Some? then Returning(Ok(hit.value)) else Embed
  {
  }

  /** Remembered, and one band key in common with the text of request `u`, so a lookup compares it. */
  ghost predicate InReach(g: Config, ranked: seq<Entry>, u: nat, m: nat)
    requires g.textTier.TextTier? && u < |g.requests|
  {
    Remembered(g, ranked, u, m) && ShareBand(g.hashes, SignatureFor(g, Query(g, u)), ranked[m].sig)
  }

  /** No ranking in reach is more similar to the text of request `u`. */
  ghost predicate ClosestInReach(g: Config, ranked: seq<Entry>, u: nat, m: nat)
    requires g.textTier.TextTier? && u < |g.requests|
  {
    var sig := SignatureFor(g, Query(g, u));
    && InReach(g, ranked, u, m)
    && forall other: nat :: InReach(g, ranked, u, other) ==>
        Jaccard(sig, ranked[other].sig) <= Jaccard(sig, ranked[m].sig)
  }

  /**
    Nothing in reach is computed twice, at any threshold: a request that consults the text tier goes
    on to the model exactly when none of the last `capacity` rankings of the run is under its tag,
    within the threshold of its text, and shares a band with it. Otherwise it is served the closest.
   */
  lemma ForwardRunsIffNothingIsInReach(g: Config, sched: Schedule, u: nat, semantic: Option<Classification>)
    requires WellFormed(g) && g.textTier.TextTier? && Asking(g, Reached(g, sched), u)
    ensures
      var p := Step(g, Reached(g, sched), u, semantic).stage[u];
      var ranked := Ranked(g, Init(g), sched, []);
      && (p.Embed? <==> forall m: nat :: !InReach(g, ranked, u, m))
      && (!p.Embed? ==> exists m: nat :: ClosestInReach(g, ranked, u, m) && p == Returning(Ok(ranked[m].result)))
  {
    AskingIsAnsweredByLookup(g, Reached(g, sched), u, semantic);
    ReachedTextCache(g, sched);
    LookupServesClosestInReach(g, Reached(g, sched), u, Ranked(g, Init(g), sched, []));
  }

  lemma LookupServesClosestInReach(g: Config, s: State, u: nat, ranked: seq<Entry>)
    requires WellFormed(g) && g.textTier.TextTier? && u < |g.requests|
    requires s.text == Filled(g.hashes, g.textTier.capacity, ranked)
    requires RingAgrees(s.text, g.textTier.capacity, ranked) && IndexAgrees(s.text, g.hashes)
    ensures LookupText(g, s, u).None? <==> forall m: nat :: !InReach(g, ranked, u, m)
    ensures LookupText(g, s, u).Some? ==>
              exists m: nat :: ClosestInReach(g, ranked, u, m) && LookupText(g, s, u).value == ranked[m].result
  {
    var capacity, sig, tag := g.textTier.capacity, SignatureFor(g, Query(g, u)), Tag(Id(g, u));
    var id := LookupServesBestProposed(s.text, g.hashes, g.textTier.threshold, sig, tag);
    forall m: nat | InReach(g, ranked, u, m)
      ensures Proposed(s.text, g.hashes, sig, tag, m % capacity) && s.text.entries[m % capacity] == ranked[m]
    {
    }
    if LookupText(g, s, u).Some? {
      var m := LiveEntryWasInserted(g.hashes, capacity, ranked, id);
      assert ClosestInReach(g, ranked, u, m);
    }
  }

  /** Above 96/128 every close ranking is in reach, so nothing close that is remembered is computed
      twice. */
  lemma ForwardRunsIffNothingCloseIsRemembered(g: Config, sched: Schedule, u: nat, semantic: Option<Classification>)
    requires WellFormed(g) && g.textTier.TextTier? && g.textTier.threshold > 0.75
    requires Asking(g, Reached(g, sched), u)
    ensures
      var p := Step(g, Reached(g, sched), u, semantic).stage[u];
      var ranked := Ranked(g, Init(g), sched, []);
      && (p.Embed? <==> forall m: nat :: !Remembered(g, ranked, u, m))
      && (!p.Embed? ==> exists m: nat :: Remembered(g, ranked, u, m) && p == Returning(Ok(ranked[m].result)))
  {
    var ranked := Ranked(g, Init(g), sched, []);
    ForwardRunsIffNothingIsInReach(g, sched, u, semantic);
    ReachedTextCache(g, sched);
    forall m: nat | Remembered(g, ranked, u, m) ensures InReach(g, ranked, u, m) {
      CloseShareBand(g.hashes, SignatureFor(g, Query(g, u)), ranked[m].sig);
    }
  }

  /**
    At every threshold, a text asked again under its tag is served without the model as long as fewer
    than `capacity` rankings have followed the one that answered it.
   */
  lemma RepeatedTextIsServed(g: Config, sched: Schedule, u: nat, semantic: Option<Classification>, m: nat)
    requires WellFormed(g) && g.textTier.TextTier?
    requires Asking(g, Reached(g, sched), u)
    requires
      var ranked := Ranked(g, Init(g), sched, []);
      && m < |ranked| && |ranked| - g.textTier.capacity <= m
      && ranked[m].identity == Tag(Id(g, u)) && ranked[m].sig == SignatureFor(g, Query(g, u))
    ensures Step(g, Reached(g, sched), u, semantic).stage[u].Returning?
  {
    AskingIsAnsweredByLookup(g, Reached(g, sched), u, semantic);
    ReachedTextCache(g, sched);
    LiveEntryHitsItself(Reached(g, sched).text, g.hashes, g.textTier.threshold, m % g.textTier.capacity);
  }
}
