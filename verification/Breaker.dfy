/** The consecutive-failure circuit breaker in front of the semantic cache. */
module Breakers {
  import opened Types

  datatype State = State(failures: nat, openUntil: Option<nat>)

  /** May a call proceed now? After the cooldown one is let through and the count starts over. */
  function Allow(s: State, now: nat): (State, bool) {
    match s.openUntil
    case Some(until) => if now < until then (s, false) else (State(0, None), true)
    case None => (s, true)
  }

  function Succeed(s: State): State {
    State(0, None)
  }

  function Fail(s: State, threshold: nat, cooldown: nat, now: nat): State {
    var failures := s.failures + 1;
    State(failures, if failures >= threshold then Some(now + cooldown) else s.openUntil)
  }

  class CircuitBreaker {
    const threshold: nat
    const cooldown: nat
    var failures: nat
    var openUntil: Option<nat>

    ghost function Value(): State
      reads this
    {
      State(failures, openUntil)
    }

    /** A threshold of zero is raised to one. */
    constructor (requested: nat, cooldown: nat)
      ensures threshold == (if requested == 0 then 1 else requested) && this.cooldown == cooldown
      ensures Value() == State(0, None)
    {
      threshold := if requested == 0 then 1 else requested;
      this.cooldown := cooldown;
      failures, openUntil := 0, None;
    }

    method MayProceed(now: nat) returns (allowed: bool)
      modifies this
      ensures (Value(), allowed) == Allow(old(Value()), now)
    {
      if openUntil.Some? {
        if now < openUntil.value { return false; }
        openUntil := None;
        failures := 0;
      }
      return true;
    }

    method RecordSuccess()
      modifies this
      ensures Value() == Succeed(old(Value()))
    {
      failures := 0;
      openUntil := None;
    }

    method RecordFailure(now: nat)
      modifies this
      ensures Value() == Fail(old(Value()), threshold, cooldown, now)
    {
      failures := failures + 1;
      if failures >= threshold { openUntil := Some(now + cooldown); }
    }
  }

  // ---- Any use ------------------------------------------------------------------------------------

  /** A lookup asks and later reports; a write-back asks and reports nothing, its writer has a
      breaker of its own. */
  datatype Event = Asked(now: nat) | AskedToWrite(now: nat) | Succeeded | Errored(now: nat)

  function After(s: State, threshold: nat, cooldown: nat, e: Event): State {
    match e
    case Asked(now) => Allow(s, now).0
    case AskedToWrite(now) => Allow(s, now).0
    case Succeeded => Succeed(s)
    case Errored(now) => Fail(s, threshold, cooldown, now)
  }

  function Run(s: State, threshold: nat, cooldown: nat, events: seq<Event>): State
    decreases |events|
  {
    if events == [] then s else Run(After(s, threshold, cooldown, events[0]), threshold, cooldown, events[1..])
  }

  ghost predicate Consistent(s: State, threshold: nat) {
    s.openUntil.Some? <==> s.failures >= threshold
  }

  /** Over any interleaving of calls and outcomes, from however many callers: the breaker has an
      opening time exactly when the failures in a row have reached the threshold. */
  lemma {:induction false} OpenIffThresholdReached(s: State, threshold: nat, cooldown: nat, events: seq<Event>)
    requires threshold >= 1 && Consistent(s, threshold)
    ensures
      var after := Run(s, threshold, cooldown, events);
      after.openUntil.Some? <==> after.failures >= threshold
    decreases |events|
  {
    if events != [] {
      OpenIffThresholdReached(After(s, threshold, cooldown, events[0]), threshold, cooldown, events[1..]);
    }
  }

  // ---- Opening, closing again, and what a success clears ------------------------------------------

  /** Failures in a row, each at its own time. */
  ghost predicate OnlyFailures(events: seq<Event>) {
    forall i :: 0 <= i < |events| ==> events[i].Errored?
  }

  /** Calls that ask, and calls that ask before `time`. */
  ghost predicate OnlyAsks(events: seq<Event>) {
    forall i :: 0 <= i < |events| ==> events[i].Asked? || events[i].AskedToWrite?
  }

  ghost predicate AskBefore(time: nat, events: seq<Event>) {
    OnlyAsks(events) && forall i :: 0 <= i < |events| && !events[i].Succeeded? ==> events[i].now < time
  }

  /** This breaker would let a call through at this time. */
  predicate LetsThrough(s: State, now: nat) {
    Allow(s, now).1
  }

  /** From a breaker that counts `c` failures, failures in a row open it exactly when with these they
      reach the threshold, and then until a cooldown after the last of them. */
  lemma {:induction false} FailuresOpen(s: State, threshold: nat, cooldown: nat, events: seq<Event>)
    requires s.openUntil.None? && s.failures < threshold && OnlyFailures(events)
    ensures
      var after := Run(s, threshold, cooldown, events);
      && after.failures == s.failures + |events|
      && after.openUntil
         == if s.failures + |events| < threshold then None else Some(events[|events| - 1].now + cooldown)
    decreases |events|
  {
    if events != [] {
      var n := |events| - 1;
      FailuresOpen(s, threshold, cooldown, events[..n]);
      RunAppend(s, threshold, cooldown, events[..n], events[n]);
      assert events == events[..n] + [events[n]];
    }
  }

  lemma {:induction false} RunAppend(s: State, threshold: nat, cooldown: nat, events: seq<Event>, e: Event)
    ensures Run(s, threshold, cooldown, events + [e])
         == After(Run(s, threshold, cooldown, events), threshold, cooldown, e)
    decreases |events|
  {
    if events == [] {
      assert [e][1..] == [];
    } else {
      assert (events + [e])[1..] == events[1..] + [e];
      RunAppend(After(s, threshold, cooldown, events[0]), threshold, cooldown, events[1..], e);
    }
  }

  /** Calls that ask while it is open change nothing; calls that ask while it is closed do not either. */
  lemma {:induction false} AskingKeeps(s: State, threshold: nat, cooldown: nat, events: seq<Event>)
    requires s.openUntil.None? || AskBefore(s.openUntil.value, events)
    requires OnlyAsks(events)
    ensures Run(s, threshold, cooldown, events) == s
    decreases |events|
  {
    if events != [] { AskingKeeps(s, threshold, cooldown, events[1..]); }
  }

  /**
    One cycle of the breaker. After a success, and any calls, it takes `threshold` failures to open it:
    one fewer and every later call is let through. Opened at `time`, it refuses every call before
    `time + cooldown`, however many ask. From then on a call is let through, and after it `threshold` new
    failures are needed again, no failure of before being counted.
   */
  lemma BreakerCycle(
      s: State, threshold: nat, cooldown: nat, asks: seq<Event>, failures: seq<Event>, early: seq<Event>, now: nat)
    requires threshold >= 1 && OnlyAsks(asks) && OnlyFailures(failures) && |failures| <= threshold
    ensures
      var closed := Run(After(s, threshold, cooldown, Succeeded), threshold, cooldown, asks);
      var failed := Run(closed, threshold, cooldown, failures);
      && (|failures| < threshold ==> LetsThrough(failed, now))
      && (|failures| == threshold ==>
            var until := failures[threshold - 1].now + cooldown;
            AskBefore(until, early) ==>
              var open := Run(failed, threshold, cooldown, early);
              && (LetsThrough(open, now) <==> until <= now)
              && (until <= now ==>
                    ThresholdToOpen(After(open, threshold, cooldown, Asked(now)), threshold, cooldown)))
  {
    var clear := After(s, threshold, cooldown, Succeeded);
    AskingKeeps(clear, threshold, cooldown, asks);
    FailuresOpen(clear, threshold, cooldown, failures);
    var failed := Run(clear, threshold, cooldown, failures);
    if |failures| == threshold {
      var until := failures[threshold - 1].now + cooldown;
      if AskBefore(until, early) {
        AskingKeeps(failed, threshold, cooldown, early);
        if until <= now { ClearNeedsThreshold(After(failed, threshold, cooldown, Asked(now)), threshold, cooldown); }
      }
    }
  }

  /** It takes exactly `threshold` failures in a row to make this breaker refuse a call. */
  ghost predicate ThresholdToOpen(s: State, threshold: nat, cooldown: nat)
    requires threshold >= 1
  {
    forall failures: seq<Event>, now: nat | OnlyFailures(failures) && |failures| <= threshold ::
      LetsThrough(Run(s, threshold, cooldown, failures), now)
      <==> (|failures| < threshold || failures[threshold - 1].now + cooldown <= now)
  }

  lemma ClearNeedsThreshold(s: State, threshold: nat, cooldown: nat)
    requires threshold >= 1 && s == State(0, None)
    ensures ThresholdToOpen(s, threshold, cooldown)
  {
    forall failures: seq<Event>, now: nat | OnlyFailures(failures) && |failures| <= threshold
      ensures LetsThrough(Run(s, threshold, cooldown, failures), now)
         <==> (|failures| < threshold || failures[threshold - 1].now + cooldown <= now)
    {
      FailuresOpen(s, threshold, cooldown, failures);
    }
  }

  // ---- Concurrent callers against a dead backend --------------------------------------------------

  /** A breaker and how many callers may have a lookup under way at the same time. */
  datatype Setup = Setup(threshold: nat, cooldown: nat, callers: nat)

  /** The breaker and how many lookups it has let through that have not reported yet. */
  datatype Traffic = Traffic(breaker: State, underway: nat)

  function Step(b: Setup, t: Traffic, e: Event): Traffic {
    Traffic(After(t.breaker, b.threshold, b.cooldown, e),
            match e
            case Asked(now) => t.underway + if Allow(t.breaker, now).1 then 1 else 0
            case Errored(_) => if t.underway > 0 then t.underway - 1 else 0
            case _ => t.underway)
  }

  /** Events as they come from `callers` threads: time does not go back, a caller with a lookup under
      way does not start another, and every lookup that reports has failed. */
  ghost predicate AllFail(b: Setup, t: Traffic, from: nat, events: seq<Event>)
    decreases |events|
  {
    events != [] ==>
      var e := events[0];
      && !e.Succeeded?
      && from <= e.now
      && (e.Asked? ==> t.underway < b.callers)
      && (e.Errored? ==> t.underway > 0)
      && AllFail(b, Step(b, t, e), e.now, events[1..])
  }

  /** The event is a lookup that the breaker lets through in the window from `start`, `cooldown` long. */
  predicate IsProbe(b: Setup, t: Traffic, e: Event, start: nat) {
    e.Asked? && Allow(t.breaker, e.now).1 && start <= e.now < start + b.cooldown
  }

  /** How many lookups are let through in that window. */
  function Probes(b: Setup, t: Traffic, events: seq<Event>, start: nat): nat
    decreases |events|
  {
    if events == [] then 0
    else (if IsProbe(b, t, events[0], start) then 1 else 0) + Probes(b, Step(b, t, events[0]), events[1..], start)
  }

  lemma {:induction false} NothingPastWindow(b: Setup, t: Traffic, events: seq<Event>, start: nat, from: nat)
    requires AllFail(b, t, from, events) && from >= start + b.cooldown
    ensures Probes(b, t, events, start) == 0
    decreases |events|
  {
    if events != [] { NothingPastWindow(b, Step(b, t, events[0]), events[1..], start, events[0].now); }
  }

  /** Once a failure inside the window has opened the breaker, nothing more is let through in it. */
  lemma {:induction false} NothingAfterOpening(b: Setup, t: Traffic, events: seq<Event>, start: nat, from: nat)
    requires b.threshold >= 1 && Consistent(t.breaker, b.threshold)
    requires t.breaker.openUntil.Some? && t.breaker.openUntil.value >= start + b.cooldown
    requires AllFail(b, t, from, events) && from >= start
    ensures Probes(b, t, events, start) == 0
    decreases |events|
  {
    if events != [] {
      if events[0].now < start + b.cooldown {
        NothingAfterOpening(b, Step(b, t, events[0]), events[1..], start, events[0].now);
      } else {
        NothingPastWindow(b, Step(b, t, events[0]), events[1..], start, events[0].now);
      }
    }
  }

  /** Inside the window a closed breaker lets through at most the failures short of its last one, and
      one more lookup for each caller that has none under way. */
  lemma {:induction false} ClosedAllowsTheRest(b: Setup, t: Traffic, events: seq<Event>, start: nat, from: nat)
    requires b.threshold >= 1 && Consistent(t.breaker, b.threshold) && t.breaker.openUntil.None?
    requires t.underway <= b.callers && AllFail(b, t, from, events) && from >= start
    ensures Probes(b, t, events, start) <= b.threshold - 1 - t.breaker.failures + b.callers - t.underway
    decreases |events|
  {
    if events != [] {
      var next := Step(b, t, events[0]);
      if next.breaker.openUntil.Some? {
        NothingAfterOpening(b, next, events[1..], start, events[0].now);
      } else {
        ClosedAllowsTheRest(b, next, events[1..], start, events[0].now);
      }
    }
  }

  /**
    Against a dead backend, callers that each have one lookup under way at most get at most
    `threshold + callers - 1` lookups through in ANY window as long as the cooldown, wherever the
    window starts, however they interleave, and whatever happened before.
   */
  lemma {:induction false} ProbesAreBounded(b: Setup, t: Traffic, events: seq<Event>, start: nat, from: nat)
    requires b.threshold >= 1 && b.callers >= 1 && Consistent(t.breaker, b.threshold)
    requires t.underway <= b.callers && AllFail(b, t, from, events)
    ensures Probes(b, t, events, start) <= b.threshold + b.callers - 1
    decreases |events|
  {
    if events != [] {
      var e := events[0];
      if start <= e.now && !e.Errored? && Allow(t.breaker, e.now).1 {
        var closed := t.(breaker := Allow(t.breaker, e.now).0);
        assert Step(b, closed, e) == Step(b, t, e);
        ClosedAllowsTheRest(b, closed, events, start, e.now);
      } else {
        ProbesAreBounded(b, Step(b, t, e), events[1..], start, e.now);
      }
    }
  }

  // ---- The bound is met ---------------------------------------------------------------------------

  /** All callers ask, one after the other. */
  function Crowd(n: nat): seq<Event> {
    if n == 0 then [] else [Asked(0)] + Crowd(n - 1)
  }

  /** One failing lookup after the other, one short of the threshold; then all callers at once. */
  function Burst(failures: nat, callers: nat): seq<Event> {
    if failures == 0 then Crowd(callers) else [Asked(0), Errored(0)] + Burst(failures - 1, callers)
  }

  lemma {:induction false} CrowdGetsThrough(b: Setup, t: Traffic, n: nat)
    requires b.cooldown >= 1 && t.breaker.openUntil.None? && t.underway + n <= b.callers
    ensures AllFail(b, t, 0, Crowd(n)) && Probes(b, t, Crowd(n), 0) == n
    decreases n
  {
    if n > 0 {
      assert Crowd(n)[1..] == Crowd(n - 1);
      CrowdGetsThrough(b, Step(b, t, Asked(0)), n - 1);
    }
  }

  lemma {:induction false} BurstFillsWindow(b: Setup, t: Traffic, failures: nat)
    requires b.cooldown >= 1 && b.callers >= 1 && t.underway == 0
    requires t.breaker.openUntil.None? && t.breaker.failures + failures < b.threshold
    ensures AllFail(b, t, 0, Burst(failures, b.callers))
    ensures Probes(b, t, Burst(failures, b.callers), 0) == failures + b.callers
    decreases failures
  {
    if failures == 0 {
      CrowdGetsThrough(b, t, b.callers);
    } else {
      var events := Burst(failures, b.callers);
      var asked := Step(b, t, Asked(0));
      assert events[1..] == [Errored(0)] + Burst(failures - 1, b.callers);
      assert events[1..][1..] == Burst(failures - 1, b.callers);
      BurstFillsWindow(b, Step(b, asked, Errored(0)), failures - 1);
    }
  }

  function New(): Traffic {
    Traffic(State(0, None), 0)
  }

  /** Against a dead backend no window lets more than `bound` lookups through. */
  ghost predicate AtMostPerWindow(b: Setup, bound: nat) {
    forall events: seq<Event>, start: nat :: AllFail(b, New(), 0, events) ==> Probes(b, New(), events, start) <= bound
  }

  /** Over all runs of a new breaker, `threshold + callers - 1` is exactly the bound per window. */
  lemma WindowBoundIsExact(b: Setup, bound: nat)
    requires b.threshold >= 1 && b.callers >= 1 && b.cooldown >= 1
    ensures AtMostPerWindow(b, bound) <==> b.threshold + b.callers - 1 <= bound
  {
    if b.threshold + b.callers - 1 <= bound {
      forall events: seq<Event>, start: nat | AllFail(b, New(), 0, events)
        ensures Probes(b, New(), events, start) <= bound
      {
        ProbesAreBounded(b, New(), events, start, 0);
      }
    } else {
      BurstFillsWindow(b, New(), b.threshold - 1);
    }
  }

  /** "One probe per cooldown window" is true exactly of a threshold of one with a single caller:
      half-open forgets the failures, so every reopening costs the full threshold again, and it lets
      through whoever asks before the first failure is reported. */
  lemma OneProbePerWindowIff(b: Setup)
    requires b.threshold >= 1 && b.callers >= 1 && b.cooldown >= 1
    ensures AtMostPerWindow(b, 1) <==> b.threshold == 1 && b.callers == 1
  {
    WindowBoundIsExact(b, 1);
  }
}
