/**
  The service core: the exact cache with single-flight around a forward that consults the text
  cache, embeds, consults the semantic cache, ranks, and writes the text cache back.

  A run is any interleaving of any set of requests. The forward of a request is several steps of
  that request between the protocol's `Forwarding` and `Returned`; all other steps are the protocol's.
 */
module Service {
  import opened Types
  import opened Prefilter
  import opened TextCaches
  import opened Identities
  import SF = SingleFlight

  datatype Completeness = Unspecified | Full | Delta

  /** A request, with the identity the runtime reports when the request arrives. */
  datatype Request = Request(identity: Identity, text: Text, completeness: Completeness)

  datatype Embedding = Embedding(vector: seq<real>, logits: Option<seq<real>>)
  datatype Embedded = Vector(embedding: Embedding) | NoVector(error: ClassifyError)

  /** The text tier: off, or in memory. */
  datatype TextTier = NoTextTier | TextTier(capacity: nat, threshold: real)

  /** A configured service and the requests of one run. The runtime is deterministic in the trimmed
      text; trimming, tokenizing and hashing are left open. */
  datatype Config = Config(
    embed: (Identity, Text) -> Embedded,
    rank: (Identity, Embedding, Text) -> Outcome,
    trim: Text -> Text,
    tokens: Text -> seq<Text>,
    hashes: Hashes,
    digest: seq<byte> -> Text,
    cacheCapacity: nat,
    textTier: TextTier,
    semanticTier: bool,
    requests: seq<Request>)

  ghost predicate WellFormed(g: Config) {
    && 1 <= g.cacheCapacity
    && (g.textTier.TextTier? ==> 1 <= g.textTier.capacity && 0.0 <= g.textTier.threshold <= 1.0)
  }

  // ---- What a request is about --------------------------------------------------------------------

  function Id(g: Config, t: nat): Identity
    requires t < |g.requests|
  {
    g.requests[t].identity
  }

  /** The normalized text. */
  function Query(g: Config, t: nat): Text
    requires t < |g.requests|
  {
    g.trim(g.requests[t].text)
  }

  function SignatureFor(g: Config, text: Text): (sig: Signature)
    ensures |sig| == K
  {
    SignatureOfTokens(g.hashes, g.tokens(text))
  }

  /** Classifying directly: embed, then rank. */
  function Exact(g: Config, id: Identity, text: Text): Outcome {
    match g.embed(id, text)
    case NoVector(e) => Err(e)
    case Vector(v) => g.rank(id, v, text)
  }

  /** A delta-only request is declined with the runtime's provenance and no signals. */
  function Abstention(id: Identity): Classification {
    Classification(id.classifierId, id.modelRevision, id.tokenizerRevision, id.taxonomyRevision, Abstain, [])
  }

  function KeyOf(g: Config, t: nat): SF.Key
    requires t < |g.requests|
  {
    g.digest(Preimage(KeyFields(Id(g, t), Query(g, t))))
  }

  function Sys(g: Config): SF.System {
    SF.System(seq(|g.requests|, t requires 0 <= t < |g.requests| => KeyOf(g, t)), g.cacheCapacity)
  }

  // ---- The transition system ----------------------------------------------------------------------

  /** Where a request stands. While it is `Core` the protocol's own state says where. */
  datatype Stage =
    | Arrived
    | Declined(abstention: Classification)
    | Core
    | ConsultText
    | Embed
    | ConsultSemantic(e: Embedding)
    | RankIt(e: Embedding)
    | FillText(result: Classification)
    | Returning(r: Outcome)
    | Answered(r: Outcome, path: SF.Path)

  predicate InForward(p: Stage) {
    p.ConsultText? || p.Embed? || p.ConsultSemantic? || p.RankIt? || p.FillText? || p.Returning?
  }

  datatype State = State(
    sf: SF.State,
    text: TextCache,
    stage: seq<Stage>,
    hits: nat,
    misses: nat,
    coalesced: nat)

  /** Which request moves, and what the semantic tier would answer it. */
  type Schedule = seq<(nat, Option<Classification>)>

  ghost function Init(g: Config): State {
    State(SF.Init(Sys(g)), NoEntries(), seq(|g.requests|, _ => Arrived), 0, 0, 0)
  }

  ghost predicate Closed(g: Config, s: State) {
    && WellFormed(g)
    && SF.Closed(Sys(g), s.sf)
    && |s.stage| == |g.requests|
    && (g.textTier.TextTier? ==> |s.text.entries| <= g.textTier.capacity)
  }

  ghost predicate Enabled(s: State, t: nat) {
    && t < |s.stage|
    && !s.stage[t].Declined? && !s.stage[t].Answered?
    && (s.stage[t].Core? ==> SF.Enabled(s.sf, t) || (t < |s.sf.pc| && s.sf.pc[t].Done?))
  }

  function LookupText(g: Config, s: State, t: nat): Option<Classification>
    requires t < |g.requests|
  {
    if g.textTier.NoTextTier? then None
    else Lookup(s.text, g.hashes, g.textTier.threshold, SignatureFor(g, Query(g, t)), Tag(Id(g, t)))
  }

  function RecordText(g: Config, s: State, t: nat, result: Classification): TextCache
    requires t < |g.requests|
    requires g.textTier.TextTier? ==> 1 <= g.textTier.capacity && |s.text.entries| <= g.textTier.capacity
  {
    if g.textTier.NoTextTier? then s.text
    else Insert(s.text, g.hashes, g.textTier.capacity, Entry(SignatureFor(g, Query(g, t)), Tag(Id(g, t)), result))
  }

  /** The cache path of an answered request is counted once, after the protocol returned. */
  function Count(s: State, path: SF.Path): State {
    match path
    case Hit => s.(hits := s.hits + 1)
    case Miss(_) => s.(misses := s.misses + 1)
    case Coalesced(_) => s.(coalesced := s.coalesced + 1)
  }

  /** A protocol step of request `t`; becoming the forwarder starts the forward. */
  ghost function CoreStep(g: Config, s: State, t: nat, r: Outcome): State
    requires Closed(g, s) && t < |s.stage|
  {
    var sf := SF.Step(Sys(g), s.sf, t, r);
    s.(sf := sf, stage := s.stage[t := if t < |sf.pc| && sf.pc[t].Forwarding? then ConsultText else Core])
  }

  ghost function Step(g: Config, s: State, t: nat, semantic: Option<Classification>): State
    requires Closed(g, s)
  {
    if !Enabled(s, t) then s
    else
      match s.stage[t]
      case Arrived =>
        s.(stage := s.stage[t := if g.requests[t].completeness.Delta? then Declined(Abstention(Id(g, t))) else Core])
      case Core =>
        var p := s.sf.pc[t];
        if p.Done? then Count(s.(stage := s.stage[t := Answered(p.r, p.path)]), p.path)
        else CoreStep(g, s, t, Err(NotReady))
      case ConsultText =>
        var hit := LookupText(g, s, t);
        s.(stage := s.stage[t := if hit.Some? then Returning(Ok(hit.value)) else Embed])
      case Embed =>
        s.(stage := s.stage[t := match g.embed(Id(g, t), Query(g, t))
                                 case NoVector(e) => Returning(Err(e))
                                 case Vector(v) => ConsultSemantic(v)])
      case ConsultSemantic(e) =>
        s.(stage := s.stage[t := if g.semanticTier && semantic.Some? then Returning(Ok(semantic.value)) else RankIt(e)])
      case RankIt(e) =>
        s.(stage := s.stage[t := match g.rank(Id(g, t), e, Query(g, t))
                                 case Err(e) => Returning(Err(e))
                                 case Ok(result) => FillText(result)])
      case FillText(result) =>
        s.(text := RecordText(g, s, t, result), stage := s.stage[t := Returning(Ok(result))])
      case Returning(r) => CoreStep(g, s, t, r)
      case _ => s
  }

  lemma StepKeepsClosed(g: Config, s: State, t: nat, semantic: Option<Classification>)
    requires Closed(g, s)
    ensures Closed(g, Step(g, s, t, semantic))
  {
    if Enabled(s, t) && (s.stage[t].Core? || s.stage[t].Returning?) {
      SF.StepKeepsClosed(Sys(g), s.sf, t, if s.stage[t].Returning? then s.stage[t].r else Err(NotReady));
    }
  }

  ghost function Exec(g: Config, s: State, sched: Schedule): (after: State)
    requires Closed(g, s)
    ensures Closed(g, after)
    decreases |sched|
  {
    if sched == [] then s
    else
      StepKeepsClosed(g, s, sched[0].0, sched[0].1);
      Exec(g, Step(g, s, sched[0].0, sched[0].1), sched[1..])
  }

  ghost function Reached(g: Config, sched: Schedule): State
    requires WellFormed(g)
  {
    Exec(g, Init(g), sched)
  }

  // ---- The core refines the single-flight protocol ------------------------------------------------

  /** A request runs its forward exactly while the protocol has it forwarding. */
  ghost predicate Aligned(g: Config, s: State, t: nat)
    requires Closed(g, s) && t < |s.stage|
  {
    var p := s.stage[t];
    && (InForward(p) <==> s.sf.pc[t].Forwarding?)
    && (p.Arrived? || p.Declined? ==> s.sf.pc[t].Start?)
    && (p.Declined? ==> p.abstention == Abstention(Id(g, t)))
    && (p.Answered? ==> s.sf.pc[t] == SF.Done(p.r, p.path))
    && (!p.Arrived? ==> (p.Declined? <==> g.requests[t].completeness.Delta?))
  }

  ghost predicate CoreInv(g: Config, s: State) {
    && Closed(g, s)
    && SF.Inv(Sys(g), s.sf)
    && (forall t :: 0 <= t < |s.stage| ==> Aligned(g, s, t))
  }

  /** Every service step is a protocol step or none. */
  ghost predicate ProtocolStep(g: Config, s: State, t: nat, after: State)
    requires Closed(g, s)
  {
    || after.sf == s.sf
    || exists r :: after.sf == SF.Step(Sys(g), s.sf, t, r)
  }

  lemma StepKeepsAligned(g: Config, s: State, t: nat, semantic: Option<Classification>, u: nat)
    requires Closed(g, s) && Enabled(s, t) && u < |s.stage|
    requires Aligned(g, s, t) && Aligned(g, s, u)
    ensures Closed(g, Step(g, s, t, semantic)) && Aligned(g, Step(g, s, t, semantic), u)
  {
    StepKeepsClosed(g, s, t, semantic);
    if s.stage[t].Core? || s.stage[t].Returning? {
      SF.StepMovesOne(Sys(g), s.sf, t, if s.stage[t].Returning? then s.stage[t].r else Err(NotReady), u);
    }
  }

  lemma StepKeepsCoreInv(g: Config, s: State, t: nat, semantic: Option<Classification>)
    requires CoreInv(g, s)
    ensures CoreInv(g, Step(g, s, t, semantic))
    ensures ProtocolStep(g, s, t, Step(g, s, t, semantic))
  {
    var after := Step(g, s, t, semantic);
    StepKeepsClosed(g, s, t, semantic);
    if Enabled(s, t) {
      var r := if s.stage[t].Returning? then s.stage[t].r else Err(NotReady);
      SF.StepKeepsInv(Sys(g), s.sf, t, r);
      assert after.sf == s.sf || after.sf == SF.Step(Sys(g), s.sf, t, r);
      forall u | 0 <= u < |after.stage| ensures Aligned(g, after, u) { StepKeepsAligned(g, s, t, semantic, u); }
    }
  }

  lemma InitCoreInv(g: Config)
    requires WellFormed(g)
    ensures CoreInv(g, Init(g))
  {
    SF.InitInv(Sys(g));
  }

  lemma {:induction false} ExecKeepsCoreInv(g: Config, s: State, sched: Schedule)
    requires CoreInv(g, s)
    ensures CoreInv(g, Exec(g, s, sched))
    decreases |sched|
  {
    if sched != [] {
      StepKeepsCoreInv(g, s, sched[0].0, sched[0].1);
      ExecKeepsCoreInv(g, Step(g, s, sched[0].0, sched[0].1), sched[1..]);
    }
  }

  // ---- Isolation: answers stay with their identity and text ---------------------------------------

  /** Whatever each forward of the run returns satisfies `P` for its own identity and text. */
  ghost predicate ForwardsSatisfy(g: Config, s: State, sched: Schedule, P: (Identity, Text, Outcome) -> bool)
    requires Closed(g, s)
    decreases |sched|
  {
    sched != [] ==>
      var (t, semantic) := sched[0];
      && (Enabled(s, t) && s.stage[t].Returning? ==> P(Id(g, t), Query(g, t), s.stage[t].r))
      && (StepKeepsClosed(g, s, t, semantic); ForwardsSatisfy(g, Step(g, s, t, semantic), sched[1..], P))
  }

  /** What the digest of a request is taken of. */
  function RequestPreimage(g: Config, t: nat): seq<byte>
    requires t < |g.requests|
  {
    Preimage(KeyFields(g.requests[t].identity, g.trim(g.requests[t].text)))
  }

  /** The digest has no collision among the requests of the run, whose fields have lengths in range. */
  ghost predicate CollisionFree(g: Config) {
    && (forall t :: 0 <= t < |g.requests| ==>
          Addressable(KeyFields(g.requests[t].identity, g.trim(g.requests[t].text))))
    && (forall t, u :: 0 <= t < |g.requests| && 0 <= u < |g.requests| ==>
          g.digest(RequestPreimage(g, t)) == g.digest(RequestPreimage(g, u)) ==>
            RequestPreimage(g, t) == RequestPreimage(g, u))
  }

  /** Two requests share a cache key exactly when they have one identity and one trimmed text. */
  lemma KeysIsolate(g: Config, t: nat, u: nat)
    requires CollisionFree(g) && t < |g.requests| && u < |g.requests|
    ensures KeyOf(g, t) == KeyOf(g, u) <==>
              && g.requests[t].identity == g.requests[u].identity
              && g.trim(g.requests[t].text) == g.trim(g.requests[u].text)
  {
    assert KeyOf(g, t) == g.digest(RequestPreimage(g, t)) && KeyOf(g, u) == g.digest(RequestPreimage(g, u));
    if KeyOf(g, t) == KeyOf(g, u) {
      KeyPreimageInjective(Id(g, t), Query(g, t), Id(g, u), Query(g, u));
    }
  }

  /** `P`, for every request that has the key. */
  ghost function ForKey(g: Config, P: (Identity, Text, Outcome) -> bool): (SF.Key, Outcome) -> bool {
    (k: SF.Key, r: Outcome) =>
      forall u :: 0 <= u < |g.requests| && KeyOf(g, u) == k ==> P(Id(g, u), Query(g, u), r)
  }

  lemma HoldsForKey(g: Config, P: (Identity, Text, Outcome) -> bool, t: nat, r: Outcome)
    requires CollisionFree(g) && t < |g.requests| && P(Id(g, t), Query(g, t), r)
    ensures ForKey(g, P)(Sys(g).keys[t], r)
  {
    forall u | 0 <= u < |g.requests| && KeyOf(g, u) == KeyOf(g, t) ensures P(Id(g, u), Query(g, u), r) {
      KeysIsolate(g, u, t);
    }
  }

  /** What a request's forward returns when it returns now; elsewhere the protocol ignores it. */
  ghost function ForwardResult(s: State, t: nat): Outcome
    requires t < |s.stage|
  {
    if s.stage[t].Returning? then s.stage[t].r else Err(NotReady)
  }

  lemma StepInProtocol(g: Config, s: State, t: nat, semantic: Option<Classification>)
    requires Closed(g, s)
    ensures
      var after := Step(g, s, t, semantic);
      || after.sf == s.sf
      || (Enabled(s, t) && (s.stage[t].Core? || s.stage[t].Returning?)
          && after.sf == SF.Step(Sys(g), s.sf, t, ForwardResult(s, t)))
  {
  }

  lemma ProtocolKeepsJustified(g: Config, sf: SF.State, t: nat, r: Outcome, P: (Identity, Text, Outcome) -> bool)
    requires SF.Inv(Sys(g), sf) && CollisionFree(g) && t < |g.requests|
    requires SF.Justified(Sys(g), sf, ForKey(g, P))
    requires sf.pc[t].Forwarding? ==> P(Id(g, t), Query(g, t), r)
    ensures SF.Closed(Sys(g), SF.Step(Sys(g), sf, t, r))
    ensures SF.Justified(Sys(g), SF.Step(Sys(g), sf, t, r), ForKey(g, P))
  {
    if sf.pc[t].Forwarding? { HoldsForKey(g, P, t, r); }
    assert SF.CallInv(Sys(g), sf, t);
    SF.StepKeepsJustified(Sys(g), sf, t, r, ForKey(g, P));
  }

  lemma {:induction false} ExecKeepsJustified(g: Config, s: State, sched: Schedule,
      P: (Identity, Text, Outcome) -> bool)
    requires CoreInv(g, s) && CollisionFree(g)
    requires SF.Justified(Sys(g), s.sf, ForKey(g, P)) && ForwardsSatisfy(g, s, sched, P)
    ensures SF.Justified(Sys(g), Exec(g, s, sched).sf, ForKey(g, P))
    decreases |sched|
  {
    if sched != [] {
      var (t, semantic) := sched[0];
      StepKeepsCoreInv(g, s, t, semantic);
      StepInProtocol(g, s, t, semantic);
      if Enabled(s, t) {
        assert Aligned(g, s, t);
        if s.stage[t].Core? || s.stage[t].Returning? {
          ProtocolKeepsJustified(g, s.sf, t, ForwardResult(s, t), P);
        }
      }
      ExecKeepsJustified(g, Step(g, s, t, semantic), sched[1..], P);
    }
  }

  lemma JustifiedAnswer(g: Config, s: State, t: nat, P: (Identity, Text, Outcome) -> bool)
    requires Closed(g, s) && t < |s.stage| && Aligned(g, s, t) && s.stage[t].Answered?
    requires SF.Justified(Sys(g), s.sf, ForKey(g, P))
    ensures P(Id(g, t), Query(g, t), s.stage[t].r)
  {
    assert ForKey(g, P)(Sys(g).keys[t], s.sf.pc[t].r);
  }

  /**
    Identity isolation of the exact cache, over any interleaving of requests with any mix of
    identities and any semantic tier: whatever is true of every forward's result for its own
    identity and text is true of every answer, hit and coalesced ones included.
   */
  lemma AnswersStayWithIdentityAndText(g: Config, sched: Schedule, P: (Identity, Text, Outcome) -> bool, t: nat)
    requires WellFormed(g) && CollisionFree(g)
    requires ForwardsSatisfy(g, Init(g), sched, P)
    requires t < |g.requests| && Reached(g, sched).stage[t].Answered?
    ensures P(Id(g, t), Query(g, t), Reached(g, sched).stage[t].r)
  {
    InitCoreInv(g);
    ExecKeepsCoreInv(g, Init(g), sched);
    NothingHeldYet(g, ForKey(g, P));
    ExecKeepsJustified(g, Init(g), sched, P);
    assert Aligned(g, Reached(g, sched), t);
    JustifiedAnswer(g, Reached(g, sched), t, P);
  }

  lemma NothingHeldYet(g: Config, Q: (SF.Key, Outcome) -> bool)
    requires WellFormed(g)
    ensures SF.Closed(Sys(g), Init(g).sf) && SF.Justified(Sys(g), Init(g).sf, Q)
  {
  }

  // ---- What the forward computes ------------------------------------------------------------------

  /** Request `v` of the run is the source of an approximate answer to identity `id` and text `text`:
      same tag, close signature, and the answer is exactly what direct classification of `v` gives. */
  ghost predicate ServedFrom(g: Config, id: Identity, text: Text, r: Outcome, v: nat)
    requires g.textTier.TextTier?
  {
    && v < |g.requests|
    && Tag(Id(g, v)) == Tag(id)
    && Jaccard(SignatureFor(g, text), SignatureFor(g, Query(g, v))) >= g.textTier.threshold
    && r == Exact(g, Id(g, v), Query(g, v))
  }

  /** One approximation at most: exact for the text itself, or for one close text of the run. */
  ghost predicate Served(g: Config, id: Identity, text: Text, r: Outcome) {
    if g.textTier.NoTextTier? then r == Exact(g, id, text)
    else exists v: nat :: ServedFrom(g, id, text, r, v)
  }

  /** An entry of the text cache holds what direct classification of some request gives. */
  ghost predicate ExactFor(g: Config, e: Entry, v: nat) {
    && v < |g.requests|
    && e.sig == SignatureFor(g, Query(g, v))
    && e.identity == Tag(Id(g, v))
    && Ok(e.result) == Exact(g, Id(g, v), Query(g, v))
  }

  ghost predicate ExactEntry(g: Config, e: Entry) {
    exists v: nat :: ExactFor(g, e, v)
  }

  /** What request `t` has computed so far in its forward is right; once the semantic tier is off,
      what it returns is served. */
  ghost predicate Computed(g: Config, s: State, t: nat)
    requires Closed(g, s) && t < |s.stage|
  {
    match s.stage[t]
    case ConsultSemantic(e) => g.embed(Id(g, t), Query(g, t)) == Vector(e)
    case RankIt(e) => g.embed(Id(g, t), Query(g, t)) == Vector(e)
    case FillText(result) => Exact(g, Id(g, t), Query(g, t)) == Ok(result)
    case Returning(r) => !g.semanticTier ==> Served(g, Id(g, t), Query(g, t), r)
    case _ => true
  }

  ghost predicate ForwardInv(g: Config, s: State) {
    && Closed(g, s)
    && (forall i :: 0 <= i < |s.text.entries| ==> ExactEntry(g, s.text.entries[i]))
    && (g.textTier.NoTextTier? ==> s.text.entries == [])
    && (forall t :: 0 <= t < |s.stage| ==> Computed(g, s, t))
  }

  lemma ExactIsServed(g: Config, t: nat)
    requires WellFormed(g) && t < |g.requests|
    ensures Served(g, Id(g, t), Query(g, t), Exact(g, Id(g, t), Query(g, t)))
  {
    if g.textTier.TextTier? {
      JaccardOneIffEqual(SignatureFor(g, Query(g, t)), SignatureFor(g, Query(g, t)));
      assert ServedFrom(g, Id(g, t), Query(g, t), Exact(g, Id(g, t), Query(g, t)), t);
    }
  }

  lemma TextHitIsServed(g: Config, s: State, t: nat)
    requires ForwardInv(g, s) && t < |g.requests| && LookupText(g, s, t).Some?
    ensures Served(g, Id(g, t), Query(g, t), Ok(LookupText(g, s, t).value))
  {
    var id := ServedIsVerified(s.text, g.hashes, g.textTier.threshold, SignatureFor(g, Query(g, t)), Tag(Id(g, t)));
    assert ExactEntry(g, s.text.entries[id]);
    var v: nat :| ExactFor(g, s.text.entries[id], v);
    assert ServedFrom(g, Id(g, t), Query(g, t), Ok(LookupText(g, s, t).value), v);
  }

  lemma RecordedIsExact(g: Config, s: State, t: nat, result: Classification)
    requires ForwardInv(g, s) && t < |g.requests| && Exact(g, Id(g, t), Query(g, t)) == Ok(result)
    ensures
      var after := RecordText(g, s, t, result);
      && (forall i :: 0 <= i < |after.entries| ==> ExactEntry(g, after.entries[i]))
      && (g.textTier.NoTextTier? ==> after.entries == [])
  {
    if g.textTier.TextTier? {
      assert ExactFor(g, Entry(SignatureFor(g, Query(g, t)), Tag(Id(g, t)), result), t);
    }
  }

  lemma StepKeepsComputed(g: Config, s: State, t: nat, semantic: Option<Classification>, u: nat)
    requires Closed(g, s) && Enabled(s, t) && u < |s.stage|
    requires Computed(g, s, t) && Computed(g, s, u)
    requires s.stage[t].ConsultText? && LookupText(g, s, t).Some? ==>
               Served(g, Id(g, t), Query(g, t), Ok(LookupText(g, s, t).value))
    requires Served(g, Id(g, t), Query(g, t), Exact(g, Id(g, t), Query(g, t)))
    ensures Closed(g, Step(g, s, t, semantic)) && Computed(g, Step(g, s, t, semantic), u)
  {
    StepKeepsClosed(g, s, t, semantic);
    if u != t { assert Step(g, s, t, semantic).stage[u] == s.stage[u]; }
  }

  lemma StepKeepsForwardInv(g: Config, s: State, t: nat, semantic: Option<Classification>)
    requires ForwardInv(g, s)
    ensures ForwardInv(g, Step(g, s, t, semantic))
  {
    StepKeepsClosed(g, s, t, semantic);
    var after := Step(g, s, t, semantic);
    if Enabled(s, t) {
      assert Computed(g, s, t);
      ExactIsServed(g, t);
      if s.stage[t].ConsultText? && LookupText(g, s, t).Some? { TextHitIsServed(g, s, t); }
      if s.stage[t].FillText? {
        RecordedIsExact(g, s, t, s.stage[t].result);
      } else {
        assert after.text == s.text;
      }
      forall u | 0 <= u < |after.stage| ensures Computed(g, after, u) {
        StepKeepsComputed(g, s, t, semantic, u);
      }
    }
  }

  lemma {:induction false} ExecKeepsForwardInv(g: Config, s: State, sched: Schedule)
    requires ForwardInv(g, s)
    ensures ForwardInv(g, Exec(g, s, sched))
    decreases |sched|
  {
    if sched != [] {
      StepKeepsForwardInv(g, s, sched[0].0, sched[0].1);
      ExecKeepsForwardInv(g, Step(g, s, sched[0].0, sched[0].1), sched[1..]);
    }
  }

  lemma {:induction false} ForwardsAreServed(g: Config, s: State, sched: Schedule)
    requires ForwardInv(g, s) && !g.semanticTier
    ensures ForwardsSatisfy(g, s, sched, (id, text, r) => Served(g, id, text, r))
    decreases |sched|
  {
    if sched != [] {
      var (t, semantic) := sched[0];
      if Enabled(s, t) { assert Computed(g, s, t); }
      StepKeepsForwardInv(g, s, t, semantic);
      ForwardsAreServed(g, Step(g, s, t, semantic), sched[1..]);
    }
  }

  // ---- The main results ---------------------------------------------------------------------------

  /**
    With any semantic tier: every entry of the text cache is, at every moment of every run, what
    direct classification of some request gives; the semantic tier's approximations never get in.
   */
  lemma TextCacheHoldsOnlyExactResults(g: Config, sched: Schedule, i: nat)
    requires WellFormed(g) && i < |Reached(g, sched).text.entries|
    ensures ExactEntry(g, Reached(g, sched).text.entries[i])
  {
    ExecKeepsForwardInv(g, Init(g), sched);
  }

  /**
    Approximation never compounds: with the text tier on and the semantic tier off, every answer of
    every interleaving is the exact result of one request text that is verified close to the asked
    text, although the exact cache stores answers the text tier served. On identities free of the
    separator that request had the very same identity.
   */
  lemma ApproximationNeverCompounds(g: Config, sched: Schedule, t: nat) returns (v: nat)
    requires WellFormed(g) && CollisionFree(g) && g.textTier.TextTier? && !g.semanticTier
    requires t < |g.requests| && Reached(g, sched).stage[t].Answered?
    ensures ServedFrom(g, Id(g, t), Query(g, t), Reached(g, sched).stage[t].r, v)
    ensures PipeFree(Id(g, t)) && PipeFree(Id(g, v)) ==> Id(g, v) == Id(g, t)
    ensures v < |g.requests|
    ensures
      var asked, source := g.requests[t], g.requests[v];
      var a := SignatureOf(g.hashes, Shingles(g.hashes, g.tokens(g.trim(asked.text))));
      var b := SignatureOf(g.hashes, Shingles(g.hashes, g.tokens(g.trim(source.text))));
      && Tag(source.identity) == Tag(asked.identity)
      && Jaccard(a, b) >= g.textTier.threshold
      && IsDirect(g, source, Reached(g, sched).stage[t].r)
  {
    ForwardsAreServed(g, Init(g), sched);
    AnswersStayWithIdentityAndText(g, sched, (id, text, r) => Served(g, id, text, r), t);
    v :| ServedFrom(g, Id(g, t), Query(g, t), Reached(g, sched).stage[t].r, v);
    if PipeFree(Id(g, t)) && PipeFree(Id(g, v)) { TagInjectiveOnPipeFree(Id(g, v), Id(g, t)); }
  }

  /** The outcome of running the model on the trimmed text of a request by itself: of the embedding if
      that fails, and else of the ranking. */
  ghost predicate IsDirect(g: Config, request: Request, r: Outcome) {
    match g.embed(request.identity, g.trim(request.text))
    case NoVector(e) => r == Err(e)
    case Vector(v) => r == g.rank(request.identity, v, g.trim(request.text))
  }

  /**
    Transparency: with both approximate tiers off, every answer of every interleaving is what
    embedding and ranking directly would return, failures and evictions included.
   */
  lemma CacheIsTransparent(g: Config, sched: Schedule, t: nat)
    requires WellFormed(g) && CollisionFree(g) && g.textTier.NoTextTier? && !g.semanticTier
    requires t < |g.requests| && Reached(g, sched).stage[t].Answered?
    ensures IsDirect(g, g.requests[t], Reached(g, sched).stage[t].r)
  {
    ForwardsAreServed(g, Init(g), sched);
    AnswersStayWithIdentityAndText(g, sched, (id, text, r) => Served(g, id, text, r), t);
  }

  // ---- What a request's own forward returns is its answer -----------------------------------------

  /** Request `t` has this outcome of its forward, and waits for nothing but its own moves. */
  ghost predicate Settled(g: Config, s: State, t: nat, r: Outcome)
    requires Closed(g, s) && t < |s.stage|
  {
    match s.stage[t]
    case Returning(q) => q == r
    case Core =>
      (match s.sf.pc[t] {
         case Returned(_, q) => q == r
         case Stored(_, q) => q == r
         case Removed(_, q) => q == r
         case Published(_, q) => q == r
         case Done(q, path) => q == r && path.Miss?
         case _ => false
       })
    case Answered(q, path) => q == r && path.Miss?
    case _ => false
  }

  lemma StepKeepsSettled(g: Config, s: State, t: nat, semantic: Option<Classification>, u: nat, r: Outcome)
    requires Closed(g, s) && Closed(g, Step(g, s, t, semantic)) && Enabled(s, t) && u < |s.stage|
    requires SF.CallInv(Sys(g), s.sf, t) && Settled(g, s, u, r)
    requires Aligned(g, s, t) && Aligned(g, s, u)
    ensures Settled(g, Step(g, s, t, semantic), u, r)
  {
    if s.stage[t].Core? || s.stage[t].Returning? {
      SF.StepMovesOne(Sys(g), s.sf, t, ForwardResult(s, t), u);
    }
    if u != t { assert Step(g, s, t, semantic).stage[u] == s.stage[u]; }
  }

  lemma {:induction false} SettledStays(g: Config, s: State, sched: Schedule, t: nat, r: Outcome)
    requires CoreInv(g, s) && t < |s.stage| && Settled(g, s, t, r)
    ensures Settled(g, Exec(g, s, sched), t, r)
    decreases |sched|
  {
    if sched != [] {
      var (u, semantic) := sched[0];
      StepKeepsCoreInv(g, s, u, semantic);
      if Enabled(s, u) {
        assert Aligned(g, s, t) && Aligned(g, s, u) && SF.CallInv(Sys(g), s.sf, u);
        StepKeepsSettled(g, s, u, semantic, t, r);
      }
      ExecKeepsLength(g, s, sched);
      SettledStays(g, Step(g, s, u, semantic), sched[1..], t, r);
    }
  }

  lemma ExecKeepsLength(g: Config, s: State, sched: Schedule)
    requires Closed(g, s)
    ensures |Exec(g, s, sched).stage| == |s.stage|
  {
  }

  /** A hit of the semantic tier is served: the request is answered with it, as a miss of the exact
      cache, whatever happens in between. */
  lemma SemanticHitIsServed(g: Config, s: State, t: nat, hit: Classification, rest: Schedule)
    requires CoreInv(g, s) && g.semanticTier && t < |s.stage| && s.stage[t].ConsultSemantic?
    ensures
      var after := Exec(g, s, [(t, Some(hit))] + rest);
      after.stage[t].Answered? ==> after.stage[t].r == Ok(hit) && after.stage[t].path.Miss?
  {
    var next := Step(g, s, t, Some(hit));
    StepKeepsCoreInv(g, s, t, Some(hit));
    assert ([(t, Some(hit))] + rest)[1..] == rest;
    SettledStays(g, next, rest, t, Ok(hit));
  }

  /** Without a semantic hit the request is answered with its own ranking, failures included. */
  lemma RankingIsServed(g: Config, s: State, t: nat, e: Embedding, rest: Schedule)
    requires CoreInv(g, s) && t < |s.stage| && s.stage[t] == RankIt(e)
    ensures
      var r := g.rank(g.requests[t].identity, e, g.trim(g.requests[t].text));
      var after := Exec(g, s, (if r.Ok? then [(t, None), (t, None)] else [(t, None)]) + rest);
      after.stage[t].Answered? ==> after.stage[t].r == r && after.stage[t].path.Miss?
  {
    var r := g.rank(g.requests[t].identity, e, g.trim(g.requests[t].text));
    var ranked := Step(g, s, t, None);
    StepKeepsCoreInv(g, s, t, None);
    if r.Ok? {
      StepKeepsCoreInv(g, ranked, t, None);
      assert ([(t, None), (t, None)] + rest)[1..] == [(t, None)] + rest;
      assert ([(t, None)] + rest)[1..] == rest;
      SettledStays(g, Step(g, ranked, t, None), rest, t, r);
    } else {
      assert ([(t, None)] + rest)[1..] == rest;
      SettledStays(g, ranked, rest, t, r);
    }
  }

  /** A failed embedding is the answer, whatever the tiers and whatever happens in between. */
  lemma EmbeddingFailureIsServed(g: Config, s: State, t: nat, semantic: Option<Classification>, rest: Schedule)
    requires CoreInv(g, s) && t < |s.stage| && s.stage[t].Embed?
    requires g.embed(g.requests[t].identity, g.trim(g.requests[t].text)).NoVector?
    ensures
      var e := g.embed(g.requests[t].identity, g.trim(g.requests[t].text)).error;
      var after := Exec(g, s, [(t, semantic)] + rest);
      after.stage[t].Answered? ==> after.stage[t].r == Err(e) && after.stage[t].path.Miss?
  {
    StepKeepsCoreInv(g, s, t, semantic);
    assert ([(t, semantic)] + rest)[1..] == rest;
    var e := g.embed(g.requests[t].identity, g.trim(g.requests[t].text)).error;
    SettledStays(g, Step(g, s, t, semantic), rest, t, Err(e));
  }

  /** An embedding that succeeds is ranked, unless the semantic tier is on and answers. */
  lemma EmbeddingIsRanked(g: Config, s: State, t: nat, any: Option<Classification>, semantic: Option<Classification>)
    requires CoreInv(g, s) && t < |s.stage| && s.stage[t].Embed? && (!g.semanticTier || semantic.None?)
    requires g.embed(g.requests[t].identity, g.trim(g.requests[t].text)).Vector?
    ensures Exec(g, s, [(t, any), (t, semantic)]).stage[t]
         == RankIt(g.embed(g.requests[t].identity, g.trim(g.requests[t].text)).embedding)
  {
    var next := Step(g, s, t, any);
    StepKeepsClosed(g, s, t, any);
    StepKeepsClosed(g, next, t, semantic);
    assert [(t, any), (t, semantic)][1..] == [(t, semantic)] && [(t, semantic)][1..] == [];
    assert Exec(g, s, [(t, any), (t, semantic)]) == Exec(g, next, [(t, semantic)]) == Step(g, next, t, semantic);
  }
}
