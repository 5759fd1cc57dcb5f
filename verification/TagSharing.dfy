/** What happens in the text tier to an identity whose tag is not its own alone. */
module TagSharing {
  import opened Types
  import opened Prefilter
  import opened TextCaches
  import opened Identities
  import opened Service
  import SF = SingleFlight
  import Runs = ServiceRuns

  /** The entry that a ranking of request `t` leaves in the text cache. */
  ghost predicate IsEntryOf(g: Config, e: Entry, t: nat)
    requires t < |g.requests|
  {
    && e.sig == SignatureFor(g, Query(g, t)) && e.identity == Tag(Id(g, t))
    && Ok(e.result) == Exact(g, Id(g, t), Query(g, t))
  }

  ghost predicate HoldsOnly(g: Config, c: TextCache, t: nat)
    requires t < |g.requests|
  {
    |c.entries| == 1 && IsEntryOf(g, c.entries[0], t) && IndexAgrees(c, g.hashes)
  }

  /** Where request `t` stands when it runs by itself from the start, every call returning in time. */
  ghost predicate Undisturbed(g: Config, s: State, t: nat)
    requires Closed(g, s) && t < |s.stage|
  {
    var exact := Exact(g, Id(g, t), Query(g, t));
    match s.stage[t]
    case Arrived => s.text == NoEntries()
    case Core =>
      match s.sf.pc[t] {
        case Start => s.text == NoEntries()
        case PastFastPath => s.text == NoEntries()
        case Returned(_, _) => HoldsOnly(g, s.text, t)
        case Stored(_, _) => HoldsOnly(g, s.text, t)
        case Removed(_, _) => HoldsOnly(g, s.text, t)
        case Published(_, _) => HoldsOnly(g, s.text, t)
        case Done(_, _) => HoldsOnly(g, s.text, t)
        case _ => false
      }
    case ConsultText => s.text == NoEntries()
    case Embed => s.text == NoEntries()
    case ConsultSemantic(e) => s.text == NoEntries() && g.embed(Id(g, t), Query(g, t)) == Vector(e)
    case RankIt(e) => s.text == NoEntries() && g.embed(Id(g, t), Query(g, t)) == Vector(e)
    case FillText(result) => s.text == NoEntries() && exact == Ok(result)
    case Returning(r) => HoldsOnly(g, s.text, t)
    case Answered(_, _) => HoldsOnly(g, s.text, t)
    case Declined(_) => false
  }

  /** Only request `t` has moved. */
  ghost predicate OnlyMoved(g: Config, s: State, t: nat)
    requires Closed(g, s) && t < |s.stage|
  {
    && (forall v :: 0 <= v < |s.stage| && v != t ==> s.stage[v].Arrived?)
    && (forall k :: k in s.sf.cache.value || k in s.sf.inFlight ==> k == KeyOf(g, t))
    && (s.stage[t].Arrived? || s.sf.pc[t].Start? || s.sf.pc[t].PastFastPath? ==>
        s.sf.cache.value == map[] && s.sf.inFlight == map[])
  }

  lemma StepKeepsUndisturbed(g: Config, s: State, t: nat)
    requires Closed(g, s) && t < |g.requests| && Enabled(s, t) && Aligned(g, s, t) && SF.CallInv(Sys(g), s.sf, t)
    requires g.textTier.TextTier? && !g.requests[t].completeness.Delta?
    requires Exact(g, Id(g, t), Query(g, t)).Ok?
    requires Undisturbed(g, s, t) && OnlyMoved(g, s, t)
    ensures Closed(g, Step(g, s, t, None))
    ensures Undisturbed(g, Step(g, s, t, None), t)
  {
    StepKeepsClosed(g, s, t, None);
    if s.stage[t].ConsultText? { NoEntriesServeNothing(g, s, t); }
    if s.stage[t].FillText? { RecordFirst(g, s, t, s.stage[t].result); }
  }

  lemma NoEntriesServeNothing(g: Config, s: State, t: nat)
    requires t < |g.requests| && s.text == NoEntries()
    ensures LookupText(g, s, t).None?
  {
    if g.textTier.TextTier? {
      var sig := SignatureFor(g, Query(g, t));
      BestIsMaximal(s.text, sig, Tag(Id(g, t)), Candidates(s.text, BandKeys(g.hashes, sig, BANDS)));
    }
  }

  lemma RecordFirst(g: Config, s: State, t: nat, result: Classification)
    requires WellFormed(g) && g.textTier.TextTier? && t < |g.requests| && s.text == NoEntries()
    requires Exact(g, Id(g, t), Query(g, t)) == Ok(result)
    ensures HoldsOnly(g, RecordText(g, s, t, result), t)
  {
    InsertKeepsIndex(s.text, g.hashes, g.textTier.capacity, Entry(SignatureFor(g, Query(g, t)), Tag(Id(g, t)), result));
  }

  lemma StepKeepsOnlyMoved(g: Config, s: State, t: nat)
    requires Closed(g, s) && Closed(g, Step(g, s, t, None)) && t < |g.requests| && Enabled(s, t) && Aligned(g, s, t)
    requires OnlyMoved(g, s, t)
    ensures OnlyMoved(g, Step(g, s, t, None), t)
  {
    if s.stage[t].Core? || s.stage[t].Returning? {
      if !(s.stage[t].Core? && s.sf.pc[t].Done?) { ProtocolStepKeepsKeys(g, s.sf, t, ForwardResult(s, t)); }
    } else {
      assert Step(g, s, t, None).sf == s.sf;
    }
  }

  lemma ProtocolStepKeepsKeys(g: Config, sf: SF.State, t: nat, r: Outcome)
    requires SF.Closed(Sys(g), sf) && t < |g.requests|
    requires forall k :: k in sf.cache.value || k in sf.inFlight ==> k == KeyOf(g, t)
    ensures
      var after := SF.Step(Sys(g), sf, t, r);
      && (forall k :: k in after.cache.value || k in after.inFlight ==> k == KeyOf(g, t))
      && (sf.pc[t].Start? && after.pc[t].PastFastPath? ==> after.cache == sf.cache && after.inFlight == sf.inFlight)
  {
  }

  /** Let request `t` run by itself until it is answered. */
  lemma {:induction false} RunToAnswer(g: Config, s: State, t: nat) returns (sched: Schedule)
    requires CoreInv(g, s) && t < |g.requests| && g.textTier.TextTier? && !g.requests[t].completeness.Delta?
    requires Exact(g, Id(g, t), Query(g, t)).Ok? && Undisturbed(g, s, t) && OnlyMoved(g, s, t)
    ensures
      var after := Exec(g, s, sched);
      CoreInv(g, after) && after.stage[t].Answered? && HoldsOnly(g, after.text, t) && OnlyMoved(g, after, t)
    decreases Runs.Rank(s, t)
  {
    if s.stage[t].Answered? {
      sched := [];
    } else {
      assert Aligned(g, s, t) && SF.CallInv(Sys(g), s.sf, t);
      assert Enabled(s, t);
      StepKeepsCoreInv(g, s, t, None);
      StepKeepsUndisturbed(g, s, t);
      StepKeepsOnlyMoved(g, s, t);
      Runs.StepLowersRank(g, s, t, None, t);
      var rest := RunToAnswer(g, Step(g, s, t, None), t);
      sched := [(t, None)] + rest;
      assert sched[1..] == rest;
    }
  }

  /** Where request `u` stands when it then runs by itself: the text cache serves it the entry of `t`. */
  ghost predicate ServedOther(g: Config, s: State, t: nat, u: nat)
    requires Closed(g, s) && t < |s.stage| && u < |s.stage|
  {
    var exact, k := Exact(g, Id(g, t), Query(g, t)), KeyOf(g, u);
    && HoldsOnly(g, s.text, t)
    && match s.stage[u]
       case Arrived => k !in s.sf.cache.value && k !in s.sf.inFlight
       case Core =>
         (match s.sf.pc[u] {
            case Start => k !in s.sf.cache.value && k !in s.sf.inFlight
            case PastFastPath => k !in s.sf.inFlight
            case Returned(_, r) => r == exact
            case Stored(_, r) => r == exact
            case Removed(_, r) => r == exact
            case Published(_, r) => r == exact
            case Done(r, _) => r == exact
            case _ => false
          })
       case ConsultText => true
       case Returning(r) => r == exact
       case Answered(r, _) => r == exact
       case _ => false
  }

  /** The two requests are not told apart by the text tier. */
  ghost predicate SameInTextTier(g: Config, t: nat, u: nat) {
    && t < |g.requests| && u < |g.requests| && g.textTier.TextTier?
    && Tag(Id(g, t)) == Tag(Id(g, u)) && SignatureFor(g, Query(g, t)) == SignatureFor(g, Query(g, u))
  }

  lemma TextTierServesOther(g: Config, s: State, t: nat, u: nat)
    requires WellFormed(g) && SameInTextTier(g, t, u) && HoldsOnly(g, s.text, t)
    ensures LookupText(g, s, u).Some? && Ok(LookupText(g, s, u).value) == Exact(g, Id(g, t), Query(g, t))
  {
    var sig, tag := SignatureFor(g, Query(g, u)), Tag(Id(g, u));
    LiveEntryHitsItself(s.text, g.hashes, g.textTier.threshold, 0);
    var id := ServedIsVerified(s.text, g.hashes, g.textTier.threshold, sig, tag);
  }

  lemma StepKeepsServed(g: Config, s: State, t: nat, u: nat)
    requires Closed(g, s) && Enabled(s, u) && Aligned(g, s, u) && SF.CallInv(Sys(g), s.sf, u)
    requires SameInTextTier(g, t, u) && !g.requests[u].completeness.Delta? && ServedOther(g, s, t, u)
    ensures Closed(g, Step(g, s, u, None)) && ServedOther(g, Step(g, s, u, None), t, u)
  {
    StepKeepsClosed(g, s, u, None);
    if s.stage[u].ConsultText? { TextTierServesOther(g, s, t, u); }
    assert Step(g, s, u, None).text == s.text;
  }

  lemma {:induction false} RunToOtherAnswer(g: Config, s: State, t: nat, u: nat) returns (sched: Schedule)
    requires CoreInv(g, s) && SameInTextTier(g, t, u) && !g.requests[u].completeness.Delta? && ServedOther(g, s, t, u)
    ensures Exec(g, s, sched).stage[u].Answered? && Exec(g, s, sched).stage[u].r == Exact(g, Id(g, t), Query(g, t))
    decreases Runs.Rank(s, u)
  {
    if s.stage[u].Answered? {
      sched := [];
    } else {
      assert Aligned(g, s, u) && SF.CallInv(Sys(g), s.sf, u);
      assert Enabled(s, u);
      StepKeepsCoreInv(g, s, u, None);
      StepKeepsServed(g, s, t, u);
      Runs.StepLowersRank(g, s, u, None, u);
      var rest := RunToOtherAnswer(g, Step(g, s, u, None), t, u);
      sched := [(u, None)] + rest;
      assert sched[1..] == rest;
    }
  }

  lemma {:induction false} ExecAppend(g: Config, s: State, a: Schedule, b: Schedule)
    requires Closed(g, s)
    ensures Exec(g, s, a + b) == Exec(g, Exec(g, s, a), b)
    decreases |a|
  {
    if a == [] {
      assert a + b == b;
    } else {
      StepKeepsClosed(g, s, a[0].0, a[0].1);
      assert (a + b)[1..] == a[1..] + b;
      ExecAppend(g, Step(g, s, a[0].0, a[0].1), a[1..], b);
    }
  }

  /**
    Two requests with different keys that the text tier does not tell apart, such as those of two
    identities with one tag for one text: there is a run in which the second is answered with the
    exact result of the first.
   */
  lemma SharedTagServesOther(g: Config, t: nat, u: nat) returns (sched: Schedule)
    requires WellFormed(g) && SameInTextTier(g, t, u) && KeyOf(g, t) != KeyOf(g, u)
    requires !g.requests[t].completeness.Delta? && !g.requests[u].completeness.Delta?
    requires Exact(g, Id(g, t), Query(g, t)).Ok?
    ensures Reached(g, sched).stage[u].Answered? && Reached(g, sched).stage[u].r == Exact(g, Id(g, t), Query(g, t))
  {
    InitCoreInv(g);
    var first := RunToAnswer(g, Init(g), t);
    var s := Exec(g, Init(g), first);
    assert Aligned(g, s, u);
    var second := RunToOtherAnswer(g, s, t, u);
    sched := first + second;
    ExecAppend(g, Init(g), first, second);
  }

  // ---- Which identities the text tier keeps apart -------------------------------------------------

  /** The answer to request `u` is what direct classification gives its own identity for some text. */
  ghost predicate AnsweredForItself(g: Config, sched: Schedule, u: nat)
    requires WellFormed(g) && u < |g.requests|
  {
    Reached(g, sched).stage[u].Answered? ==>
      exists text: Text :: Reached(g, sched).stage[u].r == Exact(g, Id(g, u), text)
  }

  /** In this run the text tier is on, the semantic tier off, and request `u` has identity `a`. */
  ghost predicate Concerns(g: Config, u: nat, a: Identity) {
    && WellFormed(g) && CollisionFree(g) && g.textTier.TextTier? && !g.semanticTier
    && u < |g.requests| && Id(g, u) == a
  }

  /** A service that tells `a` from every other identity, and one request of an alias before one of `a`. */
  function Confusing(a: Identity): Config
    requires a.digest.Some? || !PipeFree(a)
  {
    Config(
      (_: Identity, _: Text) => Vector(Embedding([], None)),
      (id: Identity, _: Embedding, _: Text) =>
        Ok(Classification(id.classifierId, id.modelRevision, id.tokenizerRevision, id.taxonomyRevision,
                          if id == a then Completed else Abstain, [])),
      (text: Text) => text,
      (_: Text) => [],
      Hashes((_: seq<Text>) => 0, (_: nat, _: u64) => 0, (_: nat, _: seq<u64>) => 0),
      (bytes: seq<byte>) => bytes,
      1, TextTier(1, 1.0), false,
      [Request(Alias(a), [], Full), Request(a, [], Full)])
  }

  lemma FieldsWithinTag(id: Identity)
    ensures forall i :: 0 <= i < |KeyFields(id, [])| ==> |KeyFields(id, [])[i]| <= |Tag(id)|
  {
  }

  lemma ConfusingConcerns(a: Identity)
    requires (a.digest.Some? || !PipeFree(a)) && |Tag(a)| < Pow256(8)
    ensures Concerns(Confusing(a), 1, a) && SameInTextTier(Confusing(a), 0, 1)
    ensures KeyOf(Confusing(a), 0) != KeyOf(Confusing(a), 1)
  {
    var g := Confusing(a);
    AliasCollides(a);
    FieldsWithinTag(a);
    FieldsWithinTag(Alias(a));
    forall t | 0 <= t < 2 ensures Addressable(KeyFields(Id(g, t), Query(g, t))) {
      assert Id(g, t) in {a, Alias(a)};
    }
    KeysIsolate(g, 0, 1);
  }

  lemma AliasIsServed(a: Identity) returns (sched: Schedule)
    requires (a.digest.Some? || !PipeFree(a)) && |Tag(a)| < Pow256(8)
    ensures Concerns(Confusing(a), 1, a) && !AnsweredForItself(Confusing(a), sched, 1)
  {
    var g := Confusing(a);
    ConfusingConcerns(a);
    AliasCollides(a);
    sched := SharedTagServesOther(g, 0, 1);
    assert forall text: Text :: Exact(g, a, text).result.status == Completed;
    assert Exact(g, Alias(a), []).result.status == Abstain;
  }

  lemma UnambiguousIsServedItself(g: Config, sched: Schedule, u: nat)
    requires u < |g.requests| && Concerns(g, u, Id(g, u)) && Id(g, u).digest.None? && PipeFree(Id(g, u))
    ensures AnsweredForItself(g, sched, u)
  {
    TagUnambiguousIff(Id(g, u));
    if Reached(g, sched).stage[u].Answered? {
      var v := ApproximationNeverCompounds(g, sched, u);
      assert Id(g, v) == Id(g, u);
    }
  }

  /**
    Identity isolation of the text tier, over every service, every set of requests and every
    interleaving: an identity is only ever answered with its own results exactly when it has no digest
    and no pipe in a field. Every other identity has an alias, and a run that answers it with the
    alias's result.
   */
  lemma TextTierIsolatesIff(a: Identity)
    requires |Tag(a)| < Pow256(8)
    ensures (forall g: Config, sched: Schedule, u: nat :: Concerns(g, u, a) ==> AnsweredForItself(g, sched, u))
       <==> (a.digest.None? && PipeFree(a))
  {
    if a.digest.None? && PipeFree(a) {
      forall g: Config, sched: Schedule, u: nat | Concerns(g, u, a) ensures AnsweredForItself(g, sched, u) {
        UnambiguousIsServedItself(g, sched, u);
      }
    } else {
      var sched := AliasIsServed(a);
      assert Concerns(Confusing(a), 1, a) && !AnsweredForItself(Confusing(a), sched, 1);
    }
  }
}
