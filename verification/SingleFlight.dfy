/**
  The single-flight protocol around the exact-result cache, as a transition system over calls.

  Every lock-protected section is one atomic step, because no call ever holds two locks. A run is
  a schedule: which call moves next, and what its forward returns if that is the step it takes.
 */
module SingleFlight {
  import opened Types
  import opened ExactCaches

  type Key = Text

  /** How a call was answered; the slot number is a history annotation. */
  datatype Path = Hit | Miss(slot: nat) | Coalesced(slot: nat)

  /** The shared slot of one forward. `creator` and `writes` are history annotations. */
  datatype Slot = Slot(key: Key, creator: nat, result: Option<Outcome>, writes: nat)

  /** Where a call stands. The slot number of a forwarder is a history annotation until it
      takes the slot out of the table. */
  datatype Pc =
    | Start                              // before the fast-path read
    | PastFastPath                       // missed, not yet at the in-flight table
    | Forwarding(slot: nat)              // registered, running the forward
    | Returned(slot: nat, r: Outcome)    // the forward has returned
    | Stored(slot: nat, r: Outcome)      // a success is in the cache
    | Removed(slot: nat, r: Outcome)     // took the slot out of the table
    | Published(slot: nat, r: Outcome)   // wrote the slot, has not notified yet
    | Checking(slot: nat)                // a waiter about to look at the slot
    | Parked(slot: nat)                  // a waiter asleep on the condition variable
    | Done(r: Outcome, path: Path)
    | Panicked

  datatype State = State(
    cache: Cache<Key, Classification>,
    inFlight: map<Key, nat>,
    slots: seq<Slot>,
    pc: seq<Pc>)

  /** A finite set of calls against one shared cache. */
  datatype System = System(keys: seq<Key>, capacity: nat)

  type Schedule = seq<(nat, Outcome)>

  function Init(sys: System): State {
    State(Empty(), map[], [], seq(|sys.keys|, _ => Start))
  }

  function SlotOf(p: Pc): Option<nat> {
    match p
    case Forwarding(i) => Some(i)
    case Returned(i, _) => Some(i)
    case Stored(i, _) => Some(i)
    case Removed(i, _) => Some(i)
    case Published(i, _) => Some(i)
    case Checking(i) => Some(i)
    case Parked(i) => Some(i)
    case Done(_, Miss(i)) => Some(i)
    case Done(_, Coalesced(i)) => Some(i)
    case _ => None
  }

  /** Between entering the in-flight table and leaving it. */
  predicate Registered(p: Pc) {
    p.Forwarding? || p.Returned? || p.Stored?
  }

  /** References stay inside the state. */
  ghost predicate Closed(sys: System, s: State) {
    && |s.pc| == |sys.keys|
    && (forall t :: 0 <= t < |s.pc| && SlotOf(s.pc[t]).Some? ==> SlotOf(s.pc[t]).value < |s.slots|)
    && (forall k :: k in s.inFlight ==> s.inFlight[k] < |s.slots|)
    && (forall i :: 0 <= i < |s.slots| ==> s.slots[i].creator < |s.pc|)
  }

  ghost predicate Enabled(s: State, t: nat) {
    t < |s.pc| && !s.pc[t].Done? && !s.pc[t].Panicked? && !s.pc[t].Parked?
  }

  /** `in_flight.remove(&key).unwrap()`: a missing key would be a panic. */
  function TakeOut(s: State, t: nat, k: Key, r: Outcome): State
    requires t < |s.pc|
  {
    if k !in s.inFlight then s.(pc := s.pc[t := Panicked])
    else s.(inFlight := s.inFlight - {k}, pc := s.pc[t := Removed(s.inFlight[k], r)])
  }

  /** Wakes every call asleep on slot `i`. */
  function Notify(pc: seq<Pc>, i: nat): (woken: seq<Pc>)
    ensures |woken| == |pc|
    ensures forall u :: 0 <= u < |pc| ==> woken[u] == if pc[u] == Parked(i) then Checking(i) else pc[u]
  {
    seq(|pc|, u requires 0 <= u < |pc| => if pc[u] == Parked(i) then Checking(i) else pc[u])
  }

  /** The next atomic section of call `t`; `r` is what its forward returns, when it returns now. */
  ghost function Step(sys: System, s: State, t: nat, r: Outcome): State
    requires Closed(sys, s)
  {
    if !Enabled(s, t) then s
    else
      var k := sys.keys[t];
      match s.pc[t]
      case Start =>
        if k in s.cache.value then s.(pc := s.pc[t := Done(Ok(s.cache.value[k]), Hit)])
        else s.(pc := s.pc[t := PastFastPath])
      case PastFastPath =>
        if k in s.inFlight then s.(pc := s.pc[t := Checking(s.inFlight[k])])
        else s.(inFlight := s.inFlight[k := |s.slots|],
                slots := s.slots + [Slot(k, t, None, 0)],
                pc := s.pc[t := Forwarding(|s.slots|)])
      case Forwarding(i) => s.(pc := s.pc[t := Returned(i, r)])
      case Returned(i, Ok(v)) =>
        s.(cache := Store(s.cache.(forwards := s.cache.forwards + 1), sys.capacity, k, v),
           pc := s.pc[t := Stored(i, Ok(v))])
      case Returned(i, Err(e)) => TakeOut(s, t, k, Err(e))
      case Stored(i, out) => TakeOut(s, t, k, out)
      case Removed(i, out) =>
        s.(slots := s.slots[i := s.slots[i].(result := Some(out), writes := s.slots[i].writes + 1)],
           pc := s.pc[t := Published(i, out)])
      case Published(i, out) => s.(pc := Notify(s.pc, i)[t := Done(out, Miss(i))])
      case Checking(i) =>
        if s.slots[i].result.Some? then s.(pc := s.pc[t := Done(s.slots[i].result.value, Coalesced(i))])
        else s.(pc := s.pc[t := Parked(i)])
      case _ => s
  }

  lemma StepKeepsClosed(sys: System, s: State, t: nat, r: Outcome)
    requires Closed(sys, s)
    ensures Closed(sys, Step(sys, s, t, r))
  {
  }

  /** A step moves its own call, and otherwise only wakes sleepers. */
  lemma StepMovesOne(sys: System, s: State, t: nat, r: Outcome, u: nat)
    requires Closed(sys, s) && u < |s.pc|
    ensures
      var after := Step(sys, s, t, r);
      && |after.pc| == |s.pc|
      && (u != t ==> after.pc[u] == s.pc[u] || (s.pc[u].Parked? && after.pc[u].Checking?))
      && (u == t && s.pc[t].Forwarding? ==> after.pc[t] == Returned(s.pc[t].slot, r))
      && (u == t && Enabled(s, t) ==> !after.pc[t].Start?)
  {
  }

  /** The state after a schedule; a choice that cannot move leaves the state alone. */
  ghost function Exec(sys: System, s: State, sched: Schedule): (after: State)
    requires Closed(sys, s)
    ensures Closed(sys, after)
    decreases |sched|
  {
    if sched == [] then s
    else
      StepKeepsClosed(sys, s, sched[0].0, sched[0].1);
      Exec(sys, Step(sys, s, sched[0].0, sched[0].1), sched[1..])
  }

  // ---- The invariant ------------------------------------------------------------------------------

  /** A slot belongs to the one call that created it, and holds that call's result once published. */
  ghost predicate SlotInv(sys: System, s: State, i: nat)
    requires Closed(sys, s) && i < |s.slots|
  {
    var slot := s.slots[i];
    && slot.key == sys.keys[slot.creator]
    && var p := s.pc[slot.creator];
       && SlotOf(p) == Some(i)
       && match p
          case Forwarding(_) => slot.result == None && slot.writes == 0
          case Returned(_, _) => slot.result == None && slot.writes == 0
          case Stored(_, _) => slot.result == None && slot.writes == 0
          case Removed(_, _) => slot.result == None && slot.writes == 0
          case Published(_, out) => slot.result == Some(out) && slot.writes == 1
          case Done(out, path) => path.Miss? && slot.result == Some(out) && slot.writes == 1
          case _ => false
  }

  ghost predicate CallInv(sys: System, s: State, t: nat)
    requires Closed(sys, s) && t < |s.pc|
  {
    var p := s.pc[t];
    && (SlotOf(p).Some? ==> s.slots[SlotOf(p).value].key == sys.keys[t])
    && (Registered(p) ==> sys.keys[t] in s.inFlight && s.inFlight[sys.keys[t]] == p.slot)
    && (Registered(p) || p.Removed? || p.Published? || (p.Done? && p.path.Miss?) ==>
        s.slots[SlotOf(p).value].creator == t)
    // A sleeper's forwarder has not notified yet: no wakeup is lost.
    && (p.Parked? ==> !s.pc[s.slots[p.slot].creator].Done?)
    && (p.Done? && p.path.Coalesced? ==> s.slots[p.path.slot].result == Some(p.r))
    && !p.Panicked?
  }

  ghost predicate TableInv(sys: System, s: State, k: Key)
    requires Closed(sys, s) && k in s.inFlight
  {
    var slot := s.slots[s.inFlight[k]];
    slot.key == k && Registered(s.pc[slot.creator])
  }

  ghost predicate Inv(sys: System, s: State) {
    && Closed(sys, s)
    && Valid(s.cache, sys.capacity)
    && (forall i :: 0 <= i < |s.slots| ==> SlotInv(sys, s, i))
    && (forall t :: 0 <= t < |s.pc| ==> CallInv(sys, s, t))
    && (forall k :: k in s.inFlight ==> TableInv(sys, s, k))
  }

  lemma StepKeepsSlot(sys: System, s: State, t: nat, r: Outcome, i: nat)
    requires Closed(sys, s) && Enabled(s, t) && i < |Step(sys, s, t, r).slots|
    requires CallInv(sys, s, t)
    requires i < |s.slots| ==> SlotInv(sys, s, i)
    ensures Closed(sys, Step(sys, s, t, r)) && SlotInv(sys, Step(sys, s, t, r), i)
  {
    StepKeepsClosed(sys, s, t, r);
    var after := Step(sys, s, t, r);
    if i < |s.slots| {
      var c := s.slots[i].creator;
      assert after.slots[i].creator == c && after.slots[i].key == s.slots[i].key;
      if c != t {
        assert after.pc[c] == s.pc[c];
        assert after.slots[i] == s.slots[i];
      }
    }
  }

  lemma StepKeepsOther(sys: System, s: State, t: nat, r: Outcome, u: nat)
    requires Closed(sys, s) && Enabled(s, t) && u < |s.pc| && u != t
    requires CallInv(sys, s, t) && CallInv(sys, s, u)
    requires SlotOf(s.pc[t]).Some? ==> SlotInv(sys, s, SlotOf(s.pc[t]).value)
    requires SlotOf(s.pc[u]).Some? ==> SlotInv(sys, s, SlotOf(s.pc[u]).value)
    ensures Closed(sys, Step(sys, s, t, r)) && CallInv(sys, Step(sys, s, t, r), u)
  {
    StepKeepsClosed(sys, s, t, r);
    if s.pc[t].Published? { NotifyKeepsOther(sys, s, t, r, u); } else { QuietStepKeepsOther(sys, s, t, r, u); }
  }

  lemma NotifyKeepsOther(sys: System, s: State, t: nat, r: Outcome, u: nat)
    requires Closed(sys, s) && Closed(sys, Step(sys, s, t, r))
    requires t < |s.pc| && s.pc[t].Published? && u < |s.pc| && u != t
    requires CallInv(sys, s, t) && CallInv(sys, s, u)
    requires SlotInv(sys, s, SlotOf(s.pc[t]).value)
    requires SlotOf(s.pc[u]).Some? ==> SlotInv(sys, s, SlotOf(s.pc[u]).value)
    ensures CallInv(sys, Step(sys, s, t, r), u)
  {
    var after := Step(sys, s, t, r);
    assert after.slots == s.slots && after.inFlight == s.inFlight;
    if s.pc[u] == Parked(s.pc[t].slot) {
      assert after.pc[u] == Checking(s.pc[t].slot);
    } else {
      assert after.pc[u] == s.pc[u];
    }
  }

  lemma QuietStepKeepsOther(sys: System, s: State, t: nat, r: Outcome, u: nat)
    requires Closed(sys, s) && Closed(sys, Step(sys, s, t, r))
    requires Enabled(s, t) && !s.pc[t].Published? && u < |s.pc| && u != t
    requires CallInv(sys, s, t) && CallInv(sys, s, u)
    requires SlotOf(s.pc[t]).Some? ==> SlotInv(sys, s, SlotOf(s.pc[t]).value)
    requires SlotOf(s.pc[u]).Some? ==> SlotInv(sys, s, SlotOf(s.pc[u]).value)
    ensures CallInv(sys, Step(sys, s, t, r), u)
  {
    var after := Step(sys, s, t, r);
    assert after.pc[u] == s.pc[u];
    if SlotOf(s.pc[u]).Some? {
      var i := SlotOf(s.pc[u]).value;
      assert after.slots[i].key == s.slots[i].key && after.slots[i].creator == s.slots[i].creator;
    }
  }

  lemma StepKeepsCall(sys: System, s: State, t: nat, r: Outcome, u: nat)
    requires Closed(sys, s) && Enabled(s, t) && u < |s.pc|
    requires CallInv(sys, s, t) && CallInv(sys, s, u)
    requires SlotOf(s.pc[t]).Some? ==> SlotInv(sys, s, SlotOf(s.pc[t]).value)
    requires SlotOf(s.pc[u]).Some? ==> SlotInv(sys, s, SlotOf(s.pc[u]).value)
    requires sys.keys[t] in s.inFlight ==> TableInv(sys, s, sys.keys[t])
    ensures Closed(sys, Step(sys, s, t, r)) && CallInv(sys, Step(sys, s, t, r), u)
  {
    StepKeepsClosed(sys, s, t, r);
    if u != t { StepKeepsOther(sys, s, t, r, u); }
  }

  lemma StepKeepsTable(sys: System, s: State, t: nat, r: Outcome, k: Key)
    requires Closed(sys, s) && Enabled(s, t) && k in Step(sys, s, t, r).inFlight
    requires CallInv(sys, s, t)
    requires k in s.inFlight ==> TableInv(sys, s, k) && SlotInv(sys, s, s.inFlight[k])
    ensures Closed(sys, Step(sys, s, t, r)) && TableInv(sys, Step(sys, s, t, r), k)
  {
    StepKeepsClosed(sys, s, t, r);
    var after := Step(sys, s, t, r);
    if k in s.inFlight && after.inFlight[k] == s.inFlight[k] {
      var i := s.inFlight[k];
      var c := s.slots[i].creator;
      assert after.slots[i].creator == c;
      if c != t { assert after.pc[c] == s.pc[c]; }
    }
  }

  lemma StepKeepsInv(sys: System, s: State, t: nat, r: Outcome)
    requires Inv(sys, s)
    ensures Inv(sys, Step(sys, s, t, r))
  {
    StepKeepsClosed(sys, s, t, r);
    if Enabled(s, t) {
      var after := Step(sys, s, t, r);
      StepKeepsCache(sys, s, t, r);
      forall i | 0 <= i < |after.slots| ensures SlotInv(sys, after, i) { StepKeepsSlot(sys, s, t, r, i); }
      forall u | 0 <= u < |after.pc| ensures CallInv(sys, after, u) { StepKeepsCall(sys, s, t, r, u); }
      forall k | k in after.inFlight ensures TableInv(sys, after, k) { StepKeepsTable(sys, s, t, r, k); }
    }
  }

  lemma StepKeepsCache(sys: System, s: State, t: nat, r: Outcome)
    requires Closed(sys, s) && Valid(s.cache, sys.capacity)
    ensures Valid(Step(sys, s, t, r).cache, sys.capacity)
  {
    if Enabled(s, t) && s.pc[t].Returned? && s.pc[t].r.Ok? {
      StoreKeepsValid(s.cache.(forwards := s.cache.forwards + 1), sys.capacity, sys.keys[t], s.pc[t].r.result);
    }
  }

  lemma InitInv(sys: System)
    requires 1 <= sys.capacity
    ensures Inv(sys, Init(sys))
  {
  }

  lemma {:induction false} ExecKeepsInv(sys: System, s: State, sched: Schedule)
    requires Inv(sys, s)
    ensures Inv(sys, Exec(sys, s, sched))
    decreases |sched|
  {
    if sched != [] {
      StepKeepsInv(sys, s, sched[0].0, sched[0].1);
      ExecKeepsInv(sys, Step(sys, s, sched[0].0, sched[0].1), sched[1..]);
    }
  }

  /** The state a schedule reaches from an idle, empty cache. */
  ghost function Reached(sys: System, sched: Schedule): State {
    Exec(sys, Init(sys), sched)
  }

  // ---- Safety over all interleavings --------------------------------------------------------------

  /** The answer of call `t` is the result of the forward that call `c` ran for the same key. */
  ghost predicate SharesResultOf(sys: System, s: State, t: nat, c: nat)
    requires |s.pc| == |sys.keys| && t < |s.pc| && s.pc[t].Done? && s.pc[t].path.Coalesced?
  {
    && c < |s.pc| && c != t
    && sys.keys[c] == sys.keys[t]
    && (s.pc[c] == Published(s.pc[t].path.slot, s.pc[t].r) || s.pc[c] == Done(s.pc[t].r, Miss(s.pc[t].path.slot)))
  }

  /**
    In every reachable state: the table holds exactly the keys being forwarded, each by one call;
    taking a slot out of the table never fails; no slot is written twice; and a coalesced answer is
    the very result, success or failure, of another call's forward of the same key.
   */
  lemma SingleFlightSafety(sys: System, sched: Schedule)
    requires 1 <= sys.capacity
    ensures
      var s := Reached(sys, sched);
      && (forall k :: k in s.inFlight <==> exists t :: 0 <= t < |s.pc| && sys.keys[t] == k && Registered(s.pc[t]))
      && (forall t, u :: (0 <= t < |s.pc| && 0 <= u < |s.pc| && Registered(s.pc[t]) && Registered(s.pc[u])
                          && sys.keys[t] == sys.keys[u]) ==> t == u)
      && (forall t :: 0 <= t < |s.pc| ==> !s.pc[t].Panicked?)
      && (forall i :: 0 <= i < |s.slots| ==> s.slots[i].writes <= 1)
      && (forall t :: 0 <= t < |s.pc| && s.pc[t].Done? && s.pc[t].path.Coalesced? ==>
            exists c :: SharesResultOf(sys, s, t, c))
  {
    var s := Reached(sys, sched);
    InitInv(sys);
    ExecKeepsInv(sys, Init(sys), sched);
    forall k | k in s.inFlight
      ensures exists t :: 0 <= t < |s.pc| && sys.keys[t] == k && Registered(s.pc[t])
    {
      assert TableInv(sys, s, k) && SlotInv(sys, s, s.inFlight[k]);
      var t := s.slots[s.inFlight[k]].creator;
      assert sys.keys[t] == k && Registered(s.pc[t]);
    }
    forall t | 0 <= t < |s.pc| && Registered(s.pc[t])
      ensures sys.keys[t] in s.inFlight && s.slots[s.inFlight[sys.keys[t]]].creator == t
    {
      assert CallInv(sys, s, t);
    }
    forall t | 0 <= t < |s.pc| ensures !s.pc[t].Panicked? {
      assert CallInv(sys, s, t);
    }
    forall i | 0 <= i < |s.slots| ensures s.slots[i].writes <= 1 {
      assert SlotInv(sys, s, i);
    }
    forall t | 0 <= t < |s.pc| && s.pc[t].Done? && s.pc[t].path.Coalesced?
      ensures exists c :: SharesResultOf(sys, s, t, c)
    {
      var i := s.pc[t].path.slot;
      assert CallInv(sys, s, t) && SlotInv(sys, s, i);
      var c := s.slots[i].creator;
      assert SharesResultOf(sys, s, t, c);
    }
  }

  // ---- Progress -----------------------------------------------------------------------------------

  /** How many more sections call `t` can take part in. */
  ghost function Rank(s: State, t: nat): nat
    requires t < |s.pc|
  {
    match s.pc[t]
    case Start => 8
    case PastFastPath => 7
    case Forwarding(_) => 6
    case Returned(_, _) => 5
    case Stored(_, _) => 4
    case Removed(_, _) => 3
    case Published(_, _) => 2
    case Checking(i) => if i < |s.slots| && s.slots[i].result.Some? then 4 else 6
    case Parked(_) => 5
    case Done(_, _) => 0
    case Panicked => 0
  }

  ghost function RankSum(s: State, n: nat): nat
    requires n <= |s.pc|
  {
    if n == 0 then 0 else RankSum(s, n - 1) + Rank(s, n - 1)
  }

  lemma StepLowersRank(sys: System, s: State, t: nat, r: Outcome, u: nat)
    requires Inv(sys, s) && Enabled(s, t) && u < |s.pc|
    ensures |Step(sys, s, t, r).pc| == |s.pc|
    ensures Rank(Step(sys, s, t, r), u) <= Rank(s, u)
    ensures u == t ==> Rank(Step(sys, s, t, r), u) < Rank(s, u)
  {
    assert CallInv(sys, s, t);
    if SlotOf(s.pc[t]).Some? { assert SlotInv(sys, s, SlotOf(s.pc[t]).value); }
    if u == t { StepLowersOwnRank(sys, s, t, r); } else { StepKeepsOtherRank(sys, s, t, r, u); }
  }

  lemma StepLowersOwnRank(sys: System, s: State, t: nat, r: Outcome)
    requires Closed(sys, s) && Enabled(s, t)
    ensures |Step(sys, s, t, r).pc| == |s.pc| && Rank(Step(sys, s, t, r), t) < Rank(s, t)
  {
  }

  lemma StepKeepsOtherRank(sys: System, s: State, t: nat, r: Outcome, u: nat)
    requires Closed(sys, s) && Enabled(s, t) && CallInv(sys, s, t) && u < |s.pc| && u != t
    requires SlotOf(s.pc[t]).Some? ==> SlotInv(sys, s, SlotOf(s.pc[t]).value)
    ensures |Step(sys, s, t, r).pc| == |s.pc| && Rank(Step(sys, s, t, r), u) <= Rank(s, u)
  {
    if !(s.pc[t].Published? && s.pc[u] == Parked(s.pc[t].slot)) {
      assert Step(sys, s, t, r).pc[u] == s.pc[u];
    }
  }

  lemma {:induction false} StepLowersSum(sys: System, s: State, t: nat, r: Outcome, n: nat)
    requires Inv(sys, s) && Enabled(s, t) && n <= |s.pc|
    ensures |Step(sys, s, t, r).pc| == |s.pc|
    ensures RankSum(Step(sys, s, t, r), n) + (if t < n then 1 else 0) <= RankSum(s, n)
  {
    StepLowersRank(sys, s, t, r, t);
    if n > 0 {
      StepLowersSum(sys, s, t, r, n - 1);
      StepLowersRank(sys, s, t, r, n - 1);
    }
  }

  lemma {:induction false} InitSum(sys: System, n: nat)
    requires n <= |sys.keys|
    ensures RankSum(Init(sys), n) == 8 * n
  {
    if n > 0 { InitSum(sys, n - 1); }
  }

  ghost predicate AllDone(s: State) {
    forall t :: 0 <= t < |s.pc| ==> s.pc[t].Done?
  }

  /** Every choice of the schedule moves its call. */
  ghost predicate Moving(sys: System, s: State, sched: Schedule)
    requires Closed(sys, s)
    decreases |sched|
  {
    sched != [] ==>
      && Enabled(s, sched[0].0)
      && (StepKeepsClosed(sys, s, sched[0].0, sched[0].1);
          Moving(sys, Step(sys, s, sched[0].0, sched[0].1), sched[1..]))
  }

  /** A sleeper's forwarder is awake, so somebody can always move. */
  lemma NeverStuck(sys: System, s: State)
    requires Inv(sys, s) && !AllDone(s)
    ensures exists t :: Enabled(s, t)
  {
    var t :| 0 <= t < |s.pc| && !s.pc[t].Done?;
    assert CallInv(sys, s, t);
    if s.pc[t].Parked? {
      var i := s.pc[t].slot;
      assert SlotInv(sys, s, i);
      assert Enabled(s, s.slots[i].creator);
    } else {
      assert Enabled(s, t);
    }
  }

  lemma {:induction false} MovingLowersSum(sys: System, s: State, sched: Schedule)
    requires Inv(sys, s) && Moving(sys, s, sched)
    ensures |sched| + RankSum(Exec(sys, s, sched), |sys.keys|) <= RankSum(s, |sys.keys|)
    decreases |sched|
  {
    if sched != [] {
      var (t, r) := sched[0];
      StepKeepsInv(sys, s, t, r);
      StepLowersSum(sys, s, t, r, |sys.keys|);
      MovingLowersSum(sys, Step(sys, s, t, r), sched[1..]);
    }
  }

  /**
    Progress: however the calls are interleaved, a run makes at most eight moves per call, and a run
    that cannot be extended has answered every call. So no call sleeps for ever on a slot.
   */
  lemma SingleFlightProgress(sys: System, sched: Schedule)
    requires 1 <= sys.capacity
    requires Moving(sys, Init(sys), sched)
    ensures |sched| <= 8 * |sys.keys|
    ensures (forall t :: !Enabled(Reached(sys, sched), t)) <==> AllDone(Reached(sys, sched))
  {
    InitInv(sys);
    InitSum(sys, |sys.keys|);
    MovingLowersSum(sys, Init(sys), sched);
    ExecKeepsInv(sys, Init(sys), sched);
    if !AllDone(Reached(sys, sched)) { NeverStuck(sys, Reached(sys, sched)); }
  }

  // ---- What the path of an answer says ------------------------------------------------------------

  /** From registering its own forward to the answer it gets by that; from finding the forward of
      another in the table to the answer it gets from there; from missing the cache on. */
  predicate RunsForward(p: Pc) {
    Registered(p) || p.Removed? || p.Published? || (p.Done? && p.path.Miss?)
  }

  predicate Waits(p: Pc) {
    p.Checking? || p.Parked? || (p.Done? && p.path.Coalesced?)
  }

  predicate MissedCache(p: Pc) {
    p.PastFastPath? || RunsForward(p) || Waits(p)
  }

  lemma StepKeepsWay(sys: System, s: State, t: nat, r: Outcome, u: nat)
    requires Closed(sys, s) && Closed(sys, Step(sys, s, t, r)) && u < |s.pc|
    requires Registered(s.pc[u]) ==> sys.keys[u] in s.inFlight
    ensures
      var p, q := s.pc[u], Step(sys, s, t, r).pc[u];
      && (RunsForward(p) ==> RunsForward(q)) && (Waits(p) ==> Waits(q)) && (MissedCache(p) ==> MissedCache(q))
  {
    StepMovesOne(sys, s, t, r, u);
  }

  /**
    A path tells what happened to a call: one that missed the cache is never reported as a hit, one that
    ran the forward is a miss, and one that found another's forward in the table is coalesced.
   */
  lemma {:induction false} PathTellsWhatHappened(sys: System, s: State, sched: Schedule, t: nat)
    requires Inv(sys, s) && t < |s.pc|
    ensures
      var p, q := s.pc[t], Exec(sys, s, sched).pc[t];
      q.Done? ==>
        && (MissedCache(p) ==> !q.path.Hit?)
        && (RunsForward(p) ==> q.path.Miss?)
        && (Waits(p) ==> q.path.Coalesced?)
    decreases |sched|
  {
    if sched != [] {
      assert CallInv(sys, s, t);
      StepKeepsInv(sys, s, sched[0].0, sched[0].1);
      StepKeepsWay(sys, s, sched[0].0, sched[0].1, t);
      PathTellsWhatHappened(sys, Step(sys, s, sched[0].0, sched[0].1), sched[1..], t);
    }
  }

  /** And which way a call goes is decided by what it finds: a cached key makes it a hit, else a key in
      the table makes it wait, else it runs the forward. */
  lemma WayIsDecidedByFinds(sys: System, s: State, t: nat, r: Outcome)
    requires Closed(sys, s) && t < |s.pc|
    ensures
      var k, q := sys.keys[t], Step(sys, s, t, r).pc[t];
      && (s.pc[t].Start? ==> if k in s.cache.value then q == Done(Ok(s.cache.value[k]), Hit) else MissedCache(q))
      && (s.pc[t].PastFastPath? ==> if k in s.inFlight then Waits(q) else RunsForward(q))
  {
  }

  // ---- Where results come from --------------------------------------------------------------------

  /** Everything the protocol holds or has answered for a key satisfies `Q`. */
  ghost predicate Justified(sys: System, s: State, Q: (Key, Outcome) -> bool)
    requires Closed(sys, s)
  {
    && (forall k :: k in s.cache.value ==> Q(k, Ok(s.cache.value[k])))
    && (forall i :: 0 <= i < |s.slots| && s.slots[i].result.Some? ==> Q(s.slots[i].key, s.slots[i].result.value))
    && (forall t :: 0 <= t < |s.pc| && HasResult(s.pc[t]) ==> Q(sys.keys[t], s.pc[t].r))
  }

  predicate HasResult(p: Pc) {
    p.Returned? || p.Stored? || p.Removed? || p.Published? || p.Done?
  }

  /** The protocol invents nothing: if what forwards return satisfies `Q`, so does all it holds and answers. */
  lemma StepKeepsJustified(sys: System, s: State, t: nat, r: Outcome, Q: (Key, Outcome) -> bool)
    requires Closed(sys, s) && Justified(sys, s, Q)
    requires Enabled(s, t) ==> CallInv(sys, s, t) && (s.pc[t].Forwarding? ==> Q(sys.keys[t], r))
    ensures Closed(sys, Step(sys, s, t, r)) && Justified(sys, Step(sys, s, t, r), Q)
  {
    StepKeepsClosed(sys, s, t, r);
    if Enabled(s, t) {
      StepKeepsCacheJustified(sys, s, t, r, Q);
      StepKeepsSlotsJustified(sys, s, t, r, Q);
      StepKeepsCallsJustified(sys, s, t, r, Q);
    }
  }

  lemma StepKeepsCacheJustified(sys: System, s: State, t: nat, r: Outcome, Q: (Key, Outcome) -> bool)
    requires Closed(sys, s) && Justified(sys, s, Q) && Enabled(s, t)
    ensures
      var cache := Step(sys, s, t, r).cache;
      forall k :: k in cache.value ==> Q(k, Ok(cache.value[k]))
  {
    if !s.pc[t].Returned? { assert Step(sys, s, t, r).cache == s.cache; }
  }

  lemma StepKeepsSlotsJustified(sys: System, s: State, t: nat, r: Outcome, Q: (Key, Outcome) -> bool)
    requires Closed(sys, s) && Justified(sys, s, Q) && Enabled(s, t) && CallInv(sys, s, t)
    ensures
      var slots := Step(sys, s, t, r).slots;
      forall i :: 0 <= i < |slots| && slots[i].result.Some? ==> Q(slots[i].key, slots[i].result.value)
  {
  }

  lemma StepKeepsCallsJustified(sys: System, s: State, t: nat, r: Outcome, Q: (Key, Outcome) -> bool)
    requires Closed(sys, s) && Justified(sys, s, Q) && Enabled(s, t) && CallInv(sys, s, t)
    requires s.pc[t].Forwarding? ==> Q(sys.keys[t], r)
    ensures
      var after := Step(sys, s, t, r);
      forall u :: 0 <= u < |after.pc| && HasResult(after.pc[u]) ==> Q(sys.keys[u], after.pc[u].r)
  {
    StepMovesOnlyOwnResult(sys, s, t, r);
  }

  lemma StepMovesOnlyOwnResult(sys: System, s: State, t: nat, r: Outcome)
    requires Closed(sys, s) && Enabled(s, t)
    ensures
      var after := Step(sys, s, t, r);
      && |after.pc| == |s.pc|
      && forall u :: 0 <= u < |s.pc| && u != t ==>
           after.pc[u] == s.pc[u] || (!HasResult(s.pc[u]) && !HasResult(after.pc[u]))
  {
    forall u | 0 <= u < |s.pc| && u != t
      ensures Step(sys, s, t, r).pc[u] == s.pc[u] || (s.pc[u].Parked? && Step(sys, s, t, r).pc[u].Checking?)
    {
      StepMovesOne(sys, s, t, r, u);
    }
  }
}
