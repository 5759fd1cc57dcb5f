/**
  The bounded handoff: submitters acquire a permit, count themselves and send; workers receive,
  check deadline and caller, classify, count down and release. A run interleaves the atomic steps of
  all submitters and workers with callers hanging up and the clock advancing.
 */
module Handoffs {
  import opened Types

  /** The executor and the submission attempts of one run, by their deadlines. */
  datatype Executor = Executor(bound: nat, workers: nat, deadlines: seq<Option<nat>>)

  /** How an admitted job ends. An expired job is told so unless its caller hung up. */
  datatype Verdict = Classified | Expired(told: bool) | Cancelled

  datatype Stage =
    // the submitter
    | Idle
    | Acquired                        // holds a permit
    | Counted(n: int)                 // incremented the admitted count, to `n`
    | Ready                           // raised the maximum, about to send
    | NoPermit                        // rejected
    | Bounced                         // the channel was full: permit dropped, count still up
    | ChannelFull                     // rejected
    // the job
    | Queued
    | Taken(w: nat)                   // received by worker `w`
    | Timed(w: nat, late: bool)       // the clock has been read
    | Running(w: nat)                 // in the classifier
    | Leaving(w: nat, v: Verdict)     // before the decrement
    | Left(w: nat, v: Verdict)        // after the decrement
    | Reported(w: nat, v: Verdict)    // counted in the metrics, permit still held
    | Gone(v: Verdict)

  datatype State = State(
    permits: nat,
    current: int,
    max: int,
    channel: seq<nat>,
    worker: seq<Option<nat>>,
    stage: seq<Stage>,
    hungUp: set<nat>,
    clock: nat,
    expired: nat,
    cancelled: nat,
    sent: seq<nat>,       // history: sends, in order
    received: seq<nat>)   // history: receives, in order

  datatype Move = Submit(i: nat) | Receive(w: nat) | Work(w: nat) | HangUp(i: nat) | Tick

  type Schedule = seq<Move>

  function Init(x: Executor): State {
    State(x.bound, 0, 0, [], seq(x.workers, _ => None), seq(|x.deadlines|, _ => Idle), {}, 0, 0, 0, [], [])
  }

  ghost predicate Closed(x: Executor, s: State) {
    && |s.stage| == |x.deadlines| && |s.worker| == x.workers
    && (forall j :: 0 <= j < |s.channel| ==> s.channel[j] < |s.stage|)
    && (forall w :: 0 <= w < |s.worker| && s.worker[w].Some? ==> s.worker[w].value < |s.stage|)
  }

  predicate Late(x: Executor, s: State, i: nat)
    requires i < |x.deadlines|
  {
    x.deadlines[i].Some? && s.clock >= x.deadlines[i].value
  }

  function Put(s: State, i: nat, p: Stage): State
    requires i < |s.stage|
  {
    s.(stage := s.stage[i := p])
  }

  /** The next step of the submitter of attempt `i`. */
  function SubmitStep(x: Executor, s: State, i: nat): State
    requires i < |s.stage|
  {
    match s.stage[i]
    case Idle => if s.permits > 0 then Put(s.(permits := s.permits - 1), i, Acquired) else Put(s, i, NoPermit)
    case Acquired => Put(s.(current := s.current + 1), i, Counted(s.current + 1))
    case Counted(n) => Put(s.(max := if n > s.max then n else s.max), i, Ready)
    case Ready =>
      if |s.channel| < x.bound then Put(s.(channel := s.channel + [i], sent := s.sent + [i]), i, Queued)
      else Put(s.(permits := s.permits + 1), i, Bounced)
    case Bounced => Put(s.(current := s.current - 1), i, ChannelFull)
    case _ => s
  }

  /** An idle worker takes the next job off the channel. */
  function ReceiveStep(x: Executor, s: State, w: nat): State
    requires w < |s.worker|
    requires s.channel != [] ==> s.channel[0] < |s.stage|
  {
    if s.worker[w].Some? || s.channel == [] then s
    else Put(s.(channel := s.channel[1..], received := s.received + [s.channel[0]],
                worker := s.worker[w := Some(s.channel[0])]), s.channel[0], Taken(w))
  }

  function Report(s: State, v: Verdict): State {
    match v
    case Classified => s
    case Expired(_) => s.(expired := s.expired + 1)
    case Cancelled => s.(cancelled := s.cancelled + 1)
  }

  /** The next step of worker `w` on job `i`: the clock is read before the caller is looked at. */
  function WorkStep(x: Executor, s: State, w: nat, i: nat): State
    requires w < |s.worker| && i < |s.stage| == |x.deadlines|
  {
    match s.stage[i]
    case Taken(_) => Put(s, i, Timed(w, Late(x, s, i)))
    case Timed(_, late) =>
      if i in s.hungUp then Put(s, i, Leaving(w, if late then Expired(false) else Cancelled))
      else if late then Put(s, i, Leaving(w, Expired(true)))
      else Put(s, i, Running(w))
    case Running(_) => Put(s, i, Leaving(w, Classified))
    case Leaving(_, v) => Put(s.(current := s.current - 1), i, Left(w, v))
    case Left(_, v) => Put(Report(s, v), i, Reported(w, v))
    case Reported(_, v) => Put(s.(permits := s.permits + 1, worker := s.worker[w := None]), i, Gone(v))
    case _ => s
  }

  function Step(x: Executor, s: State, m: Move): State
    requires Closed(x, s)
  {
    match m
    case Submit(i) => if i < |s.stage| then SubmitStep(x, s, i) else s
    case Receive(w) => if w < |s.worker| then ReceiveStep(x, s, w) else s
    case Work(w) => if w < |s.worker| && s.worker[w].Some? then WorkStep(x, s, w, s.worker[w].value) else s
    case HangUp(i) => s.(hungUp := s.hungUp + {i})
    case Tick => s.(clock := s.clock + 1)
  }

  lemma StepKeepsClosed(x: Executor, s: State, m: Move)
    requires Closed(x, s)
    ensures Closed(x, Step(x, s, m))
  {
  }

  function Exec(x: Executor, s: State, sched: Schedule): (after: State)
    requires Closed(x, s)
    ensures Closed(x, after)
    decreases |sched|
  {
    if sched == [] then s
    else
      StepKeepsClosed(x, s, sched[0]);
      Exec(x, Step(x, s, sched[0]), sched[1..])
  }

  function Reached(x: Executor, sched: Schedule): State {
    Exec(x, Init(x), sched)
  }

  // ---- Counting stages ----------------------------------------------------------------------------

  function Sum(stage: seq<Stage>, f: Stage -> nat): nat {
    if stage == [] then 0 else Sum(stage[..|stage| - 1], f) + f(stage[|stage| - 1])
  }

  lemma {:induction false} SumUpdate(stage: seq<Stage>, f: Stage -> nat, i: nat, p: Stage)
    requires i < |stage|
    ensures Sum(stage[i := p], f) + f(stage[i]) == Sum(stage, f) + f(p)
  {
    var n := |stage| - 1;
    if i == n {
      assert stage[i := p][..n] == stage[..n];
    } else {
      assert stage[i := p][..n] == stage[..n][i := p];
      SumUpdate(stage[..n], f, i, p);
    }
  }

  lemma {:induction false} SumBelow(stage: seq<Stage>, f: Stage -> nat, g: Stage -> nat)
    requires forall p: Stage :: f(p) <= g(p)
    ensures Sum(stage, f) <= Sum(stage, g)
  {
    if stage != [] { SumBelow(stage[..|stage| - 1], f, g); }
  }

  /** A stage counted by `g` and not by `f` keeps the sums apart. */
  lemma SumStrictlyBelow(stage: seq<Stage>, f: Stage -> nat, g: Stage -> nat, i: nat)
    requires forall p: Stage :: f(p) <= g(p)
    requires i < |stage| && f(stage[i]) < g(stage[i]) && f(Idle) == g(Idle) == 0
    ensures Sum(stage, f) < Sum(stage, g)
  {
    SumUpdate(stage, f, i, Idle);
    SumUpdate(stage, g, i, Idle);
    SumBelow(stage[i := Idle], f, g);
  }

  lemma {:induction false} SumAllIdle(n: nat, f: Stage -> nat)
    requires f(Idle) == 0
    ensures Sum(seq(n, _ => Idle), f) == 0
  {
    if n > 0 {
      assert seq<Stage>(n, _ => Idle)[..n - 1] == seq<Stage>(n - 1, _ => Idle);
      SumAllIdle(n - 1, f);
    }
  }

  predicate AtWorker(p: Stage) {
    p.Taken? || p.Timed? || p.Running? || p.Leaving? || p.Left? || p.Reported?
  }

  /** Holds a permit. */
  function Holds(p: Stage): nat {
    if p.Acquired? || p.Counted? || p.Ready? || p.Queued? || AtWorker(p) then 1 else 0
  }

  /** Is in the admitted count. */
  function Counts(p: Stage): nat {
    if p.Counted? || p.Ready? || p.Bounced? || p.Queued? || p.Taken? || p.Timed? || p.Running? || p.Leaving?
    then 1 else 0
  }

  function Waits(p: Stage): nat { if p.Queued? then 1 else 0 }

  function Works(p: Stage): nat { if AtWorker(p) then 1 else 0 }

  function Runs(p: Stage): nat { if p.Running? then 1 else 0 }

  /** Counted in the expired metric, and in the cancelled one. */
  function ExpiredMetric(p: Stage): nat { if (p.Reported? || p.Gone?) && p.v.Expired? then 1 else 0 }

  function CancelledMetric(p: Stage): nat { if (p.Reported? || p.Gone?) && p.v.Cancelled? then 1 else 0 }

  /** Has left, by each of the three ways. */
  function GoneClassified(p: Stage): nat { if p.Gone? && p.v.Classified? then 1 else 0 }

  function GoneExpired(p: Stage): nat { if p.Gone? && p.v.Expired? then 1 else 0 }

  function GoneCancelled(p: Stage): nat { if p.Gone? && p.v.Cancelled? then 1 else 0 }

  /** Was ever sent. */
  function Sent(p: Stage): nat {
    if p.Queued? || AtWorker(p) || p.Gone? then 1 else 0
  }

  function Busy(worker: seq<Option<nat>>): (n: nat)
    ensures n <= |worker|
  {
    if worker == [] then 0 else Busy(worker[..|worker| - 1]) + if worker[|worker| - 1].Some? then 1 else 0
  }

  lemma {:induction false} BusyUpdate(worker: seq<Option<nat>>, w: nat, j: Option<nat>)
    requires w < |worker|
    ensures Busy(worker[w := j]) + (if worker[w].Some? then 1 else 0) == Busy(worker) + if j.Some? then 1 else 0
  {
    var n := |worker| - 1;
    if w == n {
      assert worker[w := j][..n] == worker[..n];
    } else {
      assert worker[w := j][..n] == worker[..n][w := j];
      BusyUpdate(worker[..n], w, j);
    }
  }

  // ---- The invariant ------------------------------------------------------------------------------

  /** The admission side: permits, count, maximum, channel and workers. */
  ghost predicate Admission(x: Executor, s: State) {
    && s.permits + Sum(s.stage, Holds) == x.bound
    && s.current == Sum(s.stage, Counts)
    && s.max <= x.bound
    && |s.channel| == Sum(s.stage, Waits)
    && Busy(s.worker) == Sum(s.stage, Works)
  }

  /** The bookkeeping side: the metrics and the history. */
  ghost predicate Books(x: Executor, s: State) {
    && s.expired == Sum(s.stage, ExpiredMetric)
    && s.cancelled == Sum(s.stage, CancelledMetric)
    && |s.sent| == Sum(s.stage, Sent)
    && s.sent == s.received + s.channel
  }

  ghost predicate StageInv(x: Executor, s: State, i: nat)
    requires Closed(x, s) && i < |s.stage|
  {
    var p := s.stage[i];
    && (p.Counted? ==> p.n <= x.bound)
    && !p.Bounced? && !p.ChannelFull?
    && (AtWorker(p) ==> p.w < |s.worker| && s.worker[p.w] == Some(i))
  }

  ghost predicate Places(x: Executor, s: State)
    requires Closed(x, s)
  {
    && (forall j :: 0 <= j < |s.channel| ==> s.stage[s.channel[j]].Queued?)
    && (forall j, k :: 0 <= j < k < |s.channel| ==> s.channel[j] != s.channel[k])
    && (forall w :: 0 <= w < |s.worker| && s.worker[w].Some? ==>
          AtWorker(s.stage[s.worker[w].value]) && s.stage[s.worker[w].value].w == w)
  }

  ghost predicate Inv(x: Executor, s: State) {
    && Closed(x, s) && Admission(x, s) && Books(x, s) && Places(x, s)
    && (forall i :: 0 <= i < |s.stage| ==> StageInv(x, s, i))
  }

  lemma {:induction false} PointwiseBelow(stage: seq<Stage>)
    requires forall u :: 0 <= u < |stage| ==> Counts(stage[u]) <= Holds(stage[u])
    ensures Sum(stage, Counts) <= Sum(stage, Holds)
  {
    if stage != [] { PointwiseBelow(stage[..|stage| - 1]); }
  }

  /** Counted jobs hold permits, so the counter stays within the bound and above zero. */
  lemma CountWithinBound(x: Executor, s: State)
    requires Inv(x, s)
    ensures 0 <= s.current <= Sum(s.stage, Holds) <= x.bound
    ensures |s.channel| <= Sum(s.stage, Holds)
  {
    forall u | 0 <= u < |s.stage| ensures Counts(s.stage[u]) <= Holds(s.stage[u]) { assert StageInv(x, s, u); }
    PointwiseBelow(s.stage);
    SumBelow(s.stage, Waits, Holds);
  }

  /** An acquired permit that is not counted yet leaves room in the count. */
  lemma AcquiredIsUncounted(x: Executor, s: State, i: nat)
    requires Inv(x, s) && i < |s.stage| && s.stage[i].Acquired?
    ensures s.current < x.bound
  {
    SumUpdate(s.stage, Counts, i, Idle);
    SumUpdate(s.stage, Holds, i, Idle);
    var without := s.stage[i := Idle];
    forall u | 0 <= u < |without| ensures Counts(without[u]) <= Holds(without[u]) { assert StageInv(x, s, u); }
    PointwiseBelow(without);
  }

  /** The sums after one attempt changes stage. */
  lemma AdmissionSums(stage: seq<Stage>, i: nat, p: Stage)
    requires i < |stage|
    ensures
      var after := stage[i := p];
      && Sum(after, Holds) + Holds(stage[i]) == Sum(stage, Holds) + Holds(p)
      && Sum(after, Counts) + Counts(stage[i]) == Sum(stage, Counts) + Counts(p)
      && Sum(after, Waits) + Waits(stage[i]) == Sum(stage, Waits) + Waits(p)
      && Sum(after, Works) + Works(stage[i]) == Sum(stage, Works) + Works(p)
  {
    SumUpdate(stage, Holds, i, p);
    SumUpdate(stage, Counts, i, p);
    SumUpdate(stage, Waits, i, p);
    SumUpdate(stage, Works, i, p);
  }

  lemma BookSums(stage: seq<Stage>, i: nat, p: Stage)
    requires i < |stage|
    ensures
      var after := stage[i := p];
      && Sum(after, ExpiredMetric) + ExpiredMetric(stage[i]) == Sum(stage, ExpiredMetric) + ExpiredMetric(p)
      && Sum(after, CancelledMetric) + CancelledMetric(stage[i]) == Sum(stage, CancelledMetric) + CancelledMetric(p)
      && Sum(after, Sent) + Sent(stage[i]) == Sum(stage, Sent) + Sent(p)
  {
    SumUpdate(stage, ExpiredMetric, i, p);
    SumUpdate(stage, CancelledMetric, i, p);
    SumUpdate(stage, Sent, i, p);
  }

  /** What makes each submission step safe: room in the count, and room in the channel. */
  ghost predicate SubmitReady(x: Executor, s: State, i: nat)
    requires i < |s.stage|
  {
    && (s.stage[i].Acquired? ==> s.current < x.bound)
    && (s.stage[i].Counted? ==> s.stage[i].n <= x.bound)
    && (s.stage[i].Ready? ==> |s.channel| < x.bound)
    && !s.stage[i].Bounced? && !s.stage[i].ChannelFull?
  }

  lemma SubmitIsReady(x: Executor, s: State, i: nat)
    requires Inv(x, s) && i < |s.stage|
    ensures SubmitReady(x, s, i)
  {
    assert StageInv(x, s, i);
    CountWithinBound(x, s);
    if s.stage[i].Ready? { SumStrictlyBelow(s.stage, Waits, Holds, i); }
    if s.stage[i].Acquired? { AcquiredIsUncounted(x, s, i); }
  }

  lemma SubmitAdmission(x: Executor, s: State, i: nat)
    requires Closed(x, s) && i < |s.stage| && Admission(x, s) && SubmitReady(x, s, i)
    ensures Admission(x, SubmitStep(x, s, i))
  {
    assert s.stage[i := s.stage[i]] == s.stage;
    AdmissionBalances(x, s, i, SubmitStep(x, s, i));
  }

  lemma SubmitBooks(x: Executor, s: State, i: nat)
    requires Closed(x, s) && i < |s.stage| && Books(x, s) && SubmitReady(x, s, i)
    ensures Books(x, SubmitStep(x, s, i))
  {
    BookSums(s.stage, i, SubmitStep(x, s, i).stage[i]);
    assert s.stage[i := s.stage[i]] == s.stage;
    assert (s.received + s.channel) + [i] == s.received + (s.channel + [i]);
  }

  lemma SubmitPlaces(x: Executor, s: State, i: nat)
    requires Closed(x, s) && i < |s.stage| && Places(x, s)
    ensures Closed(x, SubmitStep(x, s, i)) && Places(x, SubmitStep(x, s, i))
  {
    StepKeepsClosed(x, s, Submit(i));
    PlacesSurviveSubmit(x, s, i, SubmitStep(x, s, i));
  }

  /** A submission touches no worker and nothing in the channel; at most it appends its own job. */
  lemma PlacesSurviveSubmit(x: Executor, s: State, i: nat, after: State)
    requires Closed(x, s) && Closed(x, after) && i < |s.stage| && Places(x, s)
    requires after.worker == s.worker && |after.stage| == |s.stage| && after.stage == s.stage[i := after.stage[i]]
    requires after.stage[i] != s.stage[i] ==> !AtWorker(s.stage[i]) && !s.stage[i].Queued?
    requires after.channel == s.channel
          || (after.channel == s.channel + [i] && after.stage[i].Queued? && !s.stage[i].Queued?)
    ensures Places(x, after)
  {
  }

  lemma SubmitStages(x: Executor, s: State, i: nat, u: nat)
    requires Closed(x, s) && i < |s.stage| && u < |s.stage|
    requires SubmitReady(x, s, i) && StageInv(x, s, u)
    ensures Closed(x, SubmitStep(x, s, i)) && StageInv(x, SubmitStep(x, s, i), u)
  {
    StepKeepsClosed(x, s, Submit(i));
  }

  lemma ReceiveCounters(x: Executor, s: State, w: nat)
    requires Closed(x, s) && w < |s.worker| && Admission(x, s) && Books(x, s) && Places(x, s)
    ensures Admission(x, ReceiveStep(x, s, w)) && Books(x, ReceiveStep(x, s, w))
  {
    if s.worker[w].None? && s.channel != [] {
      var i := s.channel[0];
      assert s.stage[i].Queued?;
      AdmissionSums(s.stage, i, Taken(w));
      BookSums(s.stage, i, Taken(w));
      BusyUpdate(s.worker, w, Some(i));
      assert s.received + s.channel == s.received + [i] + s.channel[1..];
    }
  }

  lemma ReceivePlaces(x: Executor, s: State, w: nat)
    requires Closed(x, s) && w < |s.worker| && Places(x, s)
    ensures Closed(x, ReceiveStep(x, s, w)) && Places(x, ReceiveStep(x, s, w))
  {
    StepKeepsClosed(x, s, Receive(w));
    if s.worker[w].None? && s.channel != [] { assert s.stage[s.channel[0]].Queued?; }
  }

  lemma ReceiveStages(x: Executor, s: State, w: nat, u: nat)
    requires Closed(x, s) && w < |s.worker| && u < |s.stage| && StageInv(x, s, u)
    ensures Closed(x, ReceiveStep(x, s, w)) && StageInv(x, ReceiveStep(x, s, w), u)
  {
    StepKeepsClosed(x, s, Receive(w));
  }

  lemma WorkAdmission(x: Executor, s: State, w: nat, i: nat)
    requires Closed(x, s) && w < |s.worker| && s.worker[w] == Some(i) && Admission(x, s) && AtWorker(s.stage[i])
    ensures Admission(x, WorkStep(x, s, w, i))
  {
    WorkBalances(x, s, w, i, WorkStep(x, s, w, i));
  }

  lemma WorkBalances(x: Executor, s: State, w: nat, i: nat, after: State)
    requires i < |s.stage| == |after.stage| && Admission(x, s) && after.stage == s.stage[i := after.stage[i]]
    requires w < |s.worker| && s.worker[w] == Some(i) && Works(s.stage[i]) == 1
    requires after.permits + Holds(after.stage[i]) == s.permits + Holds(s.stage[i])
    requires after.current + Counts(s.stage[i]) == s.current + Counts(after.stage[i])
    requires after.max == s.max && after.channel == s.channel && Waits(after.stage[i]) == Waits(s.stage[i])
    requires after.worker == if Works(after.stage[i]) == 1 then s.worker else s.worker[w := None]
    ensures Admission(x, after)
  {
    BusyUpdate(s.worker, w, None);
    AdmissionBalances(x, s, i, after);
  }

  /** The admission side stays in balance when counts move by as much as the stage of one attempt. */
  lemma AdmissionBalances(x: Executor, s: State, i: nat, after: State)
    requires i < |s.stage| == |after.stage| && Admission(x, s) && after.stage == s.stage[i := after.stage[i]]
    requires after.permits + Holds(after.stage[i]) == s.permits + Holds(s.stage[i])
    requires after.current + Counts(s.stage[i]) == s.current + Counts(after.stage[i])
    requires after.max <= x.bound
    requires |after.channel| + Waits(s.stage[i]) == |s.channel| + Waits(after.stage[i])
    requires Busy(after.worker) + Works(s.stage[i]) == Busy(s.worker) + Works(after.stage[i])
    ensures Admission(x, after)
  {
    AdmissionSums(s.stage, i, after.stage[i]);
  }

  lemma WorkBooks(x: Executor, s: State, w: nat, i: nat)
    requires Closed(x, s) && w < |s.worker| && s.worker[w] == Some(i) && Books(x, s) && AtWorker(s.stage[i])
    ensures Books(x, WorkStep(x, s, w, i))
  {
    BookSums(s.stage, i, WorkStep(x, s, w, i).stage[i]);
  }

  lemma WorkPlaces(x: Executor, s: State, w: nat, i: nat)
    requires Closed(x, s) && w < |s.worker| && s.worker[w] == Some(i) && Places(x, s)
    ensures Closed(x, WorkStep(x, s, w, i)) && Places(x, WorkStep(x, s, w, i))
  {
    StepKeepsClosed(x, s, Work(w));
    assert AtWorker(s.stage[i]) && s.stage[i].w == w;
    PlacesSurviveWork(x, s, w, i, WorkStep(x, s, w, i));
  }

  /** A worker's step leaves its job with it, or lets both go. */
  lemma PlacesSurviveWork(x: Executor, s: State, w: nat, i: nat, after: State)
    requires Closed(x, s) && Closed(x, after) && Places(x, s)
    requires w < |s.worker| && s.worker[w] == Some(i) && AtWorker(s.stage[i]) && s.stage[i].w == w
    requires after.channel == s.channel && |after.stage| == |s.stage| && after.stage == s.stage[i := after.stage[i]]
    requires (after.worker == s.worker && AtWorker(after.stage[i]) && after.stage[i].w == w)
          || after.worker == s.worker[w := None]
    ensures Places(x, after)
  {
  }

  lemma WorkStages(x: Executor, s: State, w: nat, i: nat, u: nat)
    requires Closed(x, s) && w < |s.worker| && s.worker[w] == Some(i) && u < |s.stage|
    requires AtWorker(s.stage[i]) && s.stage[i].w == w && StageInv(x, s, u)
    ensures Closed(x, WorkStep(x, s, w, i)) && StageInv(x, WorkStep(x, s, w, i), u)
  {
    StepKeepsClosed(x, s, Work(w));
  }

  lemma StepKeepsInv(x: Executor, s: State, m: Move)
    requires Inv(x, s)
    ensures Closed(x, Step(x, s, m)) && Inv(x, Step(x, s, m))
  {
    StepKeepsClosed(x, s, m);
    match m
    case Submit(i) =>
      if i < |s.stage| {
        SubmitIsReady(x, s, i);
        SubmitAdmission(x, s, i);
        SubmitBooks(x, s, i);
        SubmitPlaces(x, s, i);
        forall u | 0 <= u < |s.stage| ensures StageInv(x, SubmitStep(x, s, i), u) { SubmitStages(x, s, i, u); }
      }
    case Receive(w) =>
      if w < |s.worker| {
        ReceiveCounters(x, s, w);
        ReceivePlaces(x, s, w);
        forall u | 0 <= u < |s.stage| ensures StageInv(x, ReceiveStep(x, s, w), u) { ReceiveStages(x, s, w, u); }
      }
    case Work(w) =>
      if w < |s.worker| && s.worker[w].Some? {
        var i := s.worker[w].value;
        WorkAdmission(x, s, w, i);
        WorkBooks(x, s, w, i);
        WorkPlaces(x, s, w, i);
        forall u | 0 <= u < |s.stage| ensures StageInv(x, WorkStep(x, s, w, i), u) { WorkStages(x, s, w, i, u); }
      }
    case HangUp(_) => forall u | 0 <= u < |s.stage| ensures StageInv(x, Step(x, s, m), u) { assert StageInv(x, s, u); }
    case Tick => forall u | 0 <= u < |s.stage| ensures StageInv(x, Step(x, s, m), u) { assert StageInv(x, s, u); }
  }

  lemma {:induction false} NobodyBusy(n: nat)
    ensures Busy(seq(n, _ => None)) == 0
  {
    if n > 0 {
      assert seq<Option<nat>>(n, _ => None)[..n - 1] == seq<Option<nat>>(n - 1, _ => None);
      NobodyBusy(n - 1);
    }
  }

  lemma InitInv(x: Executor)
    ensures Inv(x, Init(x))
  {
    InitAdmission(x);
    InitBooks(x);
    InitPlaces(x);
  }

  lemma InitPlaces(x: Executor)
    ensures Closed(x, Init(x)) && Places(x, Init(x))
    ensures forall i :: 0 <= i < |Init(x).stage| ==> StageInv(x, Init(x), i)
  {
  }

  lemma InitAdmission(x: Executor)
    ensures Admission(x, Init(x))
  {
    var n := |x.deadlines|;
    SumAllIdle(n, Holds);
    SumAllIdle(n, Counts);
    SumAllIdle(n, Waits);
    SumAllIdle(n, Works);
    NobodyBusy(x.workers);
  }

  lemma InitBooks(x: Executor)
    ensures Books(x, Init(x))
  {
    var n := |x.deadlines|;
    SumAllIdle(n, ExpiredMetric);
    SumAllIdle(n, CancelledMetric);
    SumAllIdle(n, Sent);
  }

  lemma {:induction false} ExecKeepsInv(x: Executor, s: State, sched: Schedule)
    requires Inv(x, s)
    ensures Inv(x, Exec(x, s, sched))
    decreases |sched|
  {
    if sched != [] {
      StepKeepsInv(x, s, sched[0]);
      ExecKeepsInv(x, Step(x, s, sched[0]), sched[1..]);
    }
  }

  // ---- The main results ---------------------------------------------------------------------------

  /**
    Admission, at every step of every interleaving: the admitted count is never negative and never
    above the permits in use, which never exceed the bound; neither does the recorded maximum; the
    channel never holds more than the permits in use; and a send that holds a permit never bounces.
   */
  lemma AdmissionStaysBounded(x: Executor, sched: Schedule)
    ensures
      var s := Reached(x, sched);
      && Sum(s.stage, Holds) == x.bound - s.permits
      && 0 <= s.current <= x.bound - s.permits <= x.bound
      && s.max <= x.bound
      && |s.channel| <= x.bound - s.permits
      && forall i :: 0 <= i < |s.stage| ==> !s.stage[i].Bounced? && !s.stage[i].ChannelFull?
  {
    InitInv(x);
    ExecKeepsInv(x, Init(x), sched);
    var s := Reached(x, sched);
    CountWithinBound(x, s);
    forall i | 0 <= i < |s.stage| ensures !s.stage[i].Bounced? && !s.stage[i].ChannelFull? { assert StageInv(x, s, i); }
  }

  lemma {:induction false} SentSplits(stage: seq<Stage>)
    ensures Sum(stage, Sent) == Sum(stage, Waits) + Sum(stage, Works)
              + Sum(stage, GoneClassified) + Sum(stage, GoneExpired) + Sum(stage, GoneCancelled)
  {
    if stage != [] { SentSplits(stage[..|stage| - 1]); }
  }

  /**
    Conservation: every job ever sent is waiting, at a worker, or gone in exactly one of three ways;
    at most one job per worker is classified at a time; jobs are received in the order they were
    sent; and the metrics never fall behind or run ahead of the jobs that left unclassified.
   */
  lemma JobsAreConserved(x: Executor, sched: Schedule)
    ensures
      var s := Reached(x, sched);
      && |s.sent| == |s.channel| + Sum(s.stage, Works)
           + Sum(s.stage, GoneClassified) + Sum(s.stage, GoneExpired) + Sum(s.stage, GoneCancelled)
      && Sum(s.stage, Runs) <= Sum(s.stage, Works) <= x.workers
      && s.sent == s.received + s.channel
      && Sum(s.stage, GoneExpired) <= s.expired <= Sum(s.stage, GoneExpired) + Sum(s.stage, Works)
      && Sum(s.stage, GoneCancelled) <= s.cancelled <= Sum(s.stage, GoneCancelled) + Sum(s.stage, Works)
  {
    InitInv(x);
    ExecKeepsInv(x, Init(x), sched);
    var s := Reached(x, sched);
    SentSplits(s.stage);
    SumBelow(s.stage, Runs, Works);
    SumBelow(s.stage, GoneExpired, ExpiredMetric);
    SumBelow(s.stage, GoneCancelled, CancelledMetric);
    MetricsLead(s.stage);
  }

  lemma {:induction false} MetricsLead(stage: seq<Stage>)
    ensures Sum(stage, ExpiredMetric) <= Sum(stage, GoneExpired) + Sum(stage, Works)
    ensures Sum(stage, CancelledMetric) <= Sum(stage, GoneCancelled) + Sum(stage, Works)
  {
    if stage != [] { MetricsLead(stage[..|stage| - 1]); }
  }

  /** A job is lost to the classifier: its deadline has passed or its caller has hung up, and no
      worker has got past the checks with it. */
  ghost predicate Lost(x: Executor, s: State, i: nat)
    requires Closed(x, s) && i < |s.stage|
  {
    && (i in s.hungUp || Late(x, s, i))
    && match s.stage[i]
       case Queued => true
       case Taken(_) => true
       case Timed(_, late) => late || i in s.hungUp
       case Leaving(_, v) => !v.Classified?
       case Left(_, v) => !v.Classified?
       case Reported(_, v) => !v.Classified?
       case Gone(v) => !v.Classified?
       case _ => false
  }

  lemma StepKeepsLost(x: Executor, s: State, m: Move, i: nat)
    requires Closed(x, s) && i < |s.stage| && Lost(x, s, i)
    ensures Closed(x, Step(x, s, m)) && Lost(x, Step(x, s, m), i)
  {
    StepKeepsClosed(x, s, m);
    match m
    case Submit(u) => if u < |s.stage| { SubmitKeepsLost(x, s, u, i); }
    case Receive(w) => if w < |s.worker| { ReceiveKeepsLost(x, s, w, i); }
    case Work(w) => if w < |s.worker| && s.worker[w].Some? { WorkKeepsLost(x, s, w, s.worker[w].value, i); }
    case _ =>
  }

  lemma SubmitKeepsLost(x: Executor, s: State, u: nat, i: nat)
    requires Closed(x, s) && i < |s.stage| && Lost(x, s, i) && u < |s.stage| && Closed(x, SubmitStep(x, s, u))
    ensures Lost(x, SubmitStep(x, s, u), i)
  {
  }

  lemma ReceiveKeepsLost(x: Executor, s: State, w: nat, i: nat)
    requires Closed(x, s) && i < |s.stage| && Lost(x, s, i) && w < |s.worker| && Closed(x, ReceiveStep(x, s, w))
    ensures Lost(x, ReceiveStep(x, s, w), i)
  {
  }

  lemma WorkKeepsLost(x: Executor, s: State, w: nat, j: nat, i: nat)
    requires Closed(x, s) && i < |s.stage| && Lost(x, s, i)
    requires w < |s.worker| && j < |s.stage| && Closed(x, WorkStep(x, s, w, j))
    ensures Lost(x, WorkStep(x, s, w, j), i)
  {
  }

  /**
    Deadline and cancellation safety over the rest of any run: a job that is waiting or just received
    when its deadline has passed or its caller has hung up, or whose caller hangs up between the two
    checks, never reaches the classifier, and it can only leave as expired or cancelled.
   */
  lemma {:induction false} LostJobsAreNeverClassified(x: Executor, s: State, sched: Schedule, i: nat)
    requires Closed(x, s) && i < |s.stage| && Lost(x, s, i)
    ensures !Exec(x, s, sched).stage[i].Running?
    ensures Exec(x, s, sched).stage[i].Gone? ==> !Exec(x, s, sched).stage[i].v.Classified?
  {
    LostStaysLost(x, s, sched, i);
  }

  lemma {:induction false} LostStaysLost(x: Executor, s: State, sched: Schedule, i: nat)
    requires Closed(x, s) && i < |s.stage| && Lost(x, s, i)
    ensures Lost(x, Exec(x, s, sched), i)
    decreases |sched|
  {
    if sched != [] {
      StepKeepsLost(x, s, sched[0], i);
      LostStaysLost(x, Step(x, s, sched[0]), sched[1..], i);
    }
  }

  /** A job that passed the clock check in time. */
  ghost predicate InTime(s: State, i: nat)
    requires i < |s.stage|
  {
    match s.stage[i]
    case Timed(_, late) => !late && i !in s.hungUp
    case Running(_) => true
    case Leaving(_, v) => v.Classified?
    case Left(_, v) => v.Classified?
    case Reported(_, v) => v.Classified?
    case Gone(v) => v.Classified?
    case _ => false
  }

  /** The other half: a job found in time, whose caller does not hang up, can only leave through the
      classifier, even if its deadline passes meanwhile. */
  lemma {:induction false} JobsInTimeAreClassified(x: Executor, s: State, sched: Schedule, i: nat)
    requires Inv(x, s) && i < |s.stage| && InTime(s, i)
    requires HangUp(i) !in sched
    ensures InTime(Exec(x, s, sched), i)
    decreases |sched|
  {
    if sched != [] {
      assert sched[0] in sched;
      StepKeepsInv(x, s, sched[0]);
      StepKeepsInTime(x, s, sched[0], i);
      JobsInTimeAreClassified(x, Step(x, s, sched[0]), sched[1..], i);
    }
  }

  lemma StepKeepsInTime(x: Executor, s: State, m: Move, i: nat)
    requires Closed(x, s) && Places(x, s) && i < |s.stage| && InTime(s, i) && m != HangUp(i)
    ensures Closed(x, Step(x, s, m)) && InTime(Step(x, s, m), i)
  {
    StepKeepsClosed(x, s, m);
    if s.channel != [] { assert s.stage[s.channel[0]].Queued?; }
  }

  // ---- The rejecting branch, and the clock --------------------------------------------------------

  /** A run of submission steps of attempt `i`. */
  function Submits(i: nat, n: nat): Schedule {
    if n == 0 then [] else [Submit(i)] + Submits(i, n - 1)
  }

  /**
    What a submission does by itself, from any state, reachable or not: without a permit it is refused
    and nothing changes; with one and a full channel it is rejected and gives back both the permit and
    the count; else its job is at the end of the channel, permit and count kept.
   */
  lemma SubmissionAlone(x: Executor, s: State, i: nat)
    requires Closed(x, s) && i < |s.stage| && s.stage[i].Idle?
    ensures
      var after := Exec(x, s, Submits(i, 5));
      if s.permits == 0 then after == Put(s, i, NoPermit)
      else
        && after.worker == s.worker
        && after.max == (if s.current + 1 > s.max then s.current + 1 else s.max)
        && if |s.channel| >= x.bound
           then
             && after.stage == s.stage[i := ChannelFull] && after.permits == s.permits
             && after.current == s.current && after.channel == s.channel && after.sent == s.sent
           else
             && after.stage == s.stage[i := Queued] && after.permits == s.permits - 1
             && after.current == s.current + 1 && after.channel == s.channel + [i] && after.sent == s.sent + [i]
  {
    if s.permits == 0 {
      RefusedAlone(x, s, i);
    } else {
      AdmittedAlone(x, s, i);
      ReadyAlone(x, MadeReady(s, i), i);
      assert s.stage[i := Ready][i := ChannelFull] == s.stage[i := ChannelFull];
      assert s.stage[i := Ready][i := Queued] == s.stage[i := Queued];
    }
  }

  lemma RefusedAlone(x: Executor, s: State, i: nat)
    requires Closed(x, s) && i < |s.stage| && s.stage[i].Idle? && s.permits == 0
    ensures Exec(x, s, Submits(i, 5)) == Put(s, i, NoPermit)
  {
    var after := Put(s, i, NoPermit);
    OneSubmit(x, s, i, 4);
    OneSubmit(x, after, i, 3);
    OneSubmit(x, after, i, 2);
    OneSubmit(x, after, i, 1);
    OneSubmit(x, after, i, 0);
  }

  /** The submitter holds a permit, has counted itself and raised the maximum. */
  function MadeReady(s: State, i: nat): State
    requires i < |s.stage| && s.permits > 0
  {
    var n := s.current + 1;
    s.(permits := s.permits - 1, current := n, max := if n > s.max then n else s.max, stage := s.stage[i := Ready])
  }

  lemma AdmittedAlone(x: Executor, s: State, i: nat)
    requires Closed(x, s) && i < |s.stage| && s.stage[i].Idle? && s.permits > 0
    ensures Closed(x, MadeReady(s, i)) && Exec(x, s, Submits(i, 5)) == Exec(x, MadeReady(s, i), Submits(i, 2))
  {
    var s1 := s.(permits := s.permits - 1, stage := s.stage[i := Acquired]);
    var s2 := s1.(current := s.current + 1, stage := s.stage[i := Counted(s.current + 1)]);
    OneSubmit(x, s, i, 4);
    assert SubmitStep(x, s, i) == s1;
    OneSubmit(x, s1, i, 3);
    assert s1.stage[i := Counted(s.current + 1)] == s2.stage;
    assert SubmitStep(x, s1, i) == s2;
    OneSubmit(x, s2, i, 2);
    assert s2.stage[i := Ready] == s.stage[i := Ready];
    assert SubmitStep(x, s2, i) == MadeReady(s, i);
  }

  lemma ReadyAlone(x: Executor, s: State, i: nat)
    requires Closed(x, s) && i < |s.stage| && s.stage[i].Ready?
    ensures Exec(x, s, Submits(i, 2))
         == if |s.channel| >= x.bound
            then s.(permits := s.permits + 1, current := s.current - 1, stage := s.stage[i := ChannelFull])
            else s.(channel := s.channel + [i], sent := s.sent + [i], stage := s.stage[i := Queued])
  {
    if |s.channel| >= x.bound { FullAlone(x, s, i); } else { SentAlone(x, s, i); }
  }

  lemma FullAlone(x: Executor, s: State, i: nat)
    requires Closed(x, s) && i < |s.stage| && s.stage[i].Ready? && |s.channel| >= x.bound
    ensures Exec(x, s, Submits(i, 2))
         == s.(permits := s.permits + 1, current := s.current - 1, stage := s.stage[i := ChannelFull])
  {
    var next := s.(permits := s.permits + 1, stage := s.stage[i := Bounced]);
    OneSubmit(x, s, i, 1);
    assert SubmitStep(x, s, i) == next;
    OneSubmit(x, next, i, 0);
    assert next.stage[i := ChannelFull] == s.stage[i := ChannelFull];
  }

  lemma SentAlone(x: Executor, s: State, i: nat)
    requires Closed(x, s) && i < |s.stage| && s.stage[i].Ready? && |s.channel| < x.bound
    ensures Exec(x, s, Submits(i, 2))
         == s.(channel := s.channel + [i], sent := s.sent + [i], stage := s.stage[i := Queued])
  {
    var next := s.(channel := s.channel + [i], sent := s.sent + [i], stage := s.stage[i := Queued]);
    OneSubmit(x, s, i, 1);
    assert SubmitStep(x, s, i) == next;
    OneSubmit(x, next, i, 0);
  }

  lemma OneSubmit(x: Executor, s: State, i: nat, n: nat)
    requires Closed(x, s) && i < |s.stage|
    ensures Closed(x, SubmitStep(x, s, i))
    ensures Exec(x, s, Submits(i, n + 1)) == Exec(x, SubmitStep(x, s, i), Submits(i, n))
    ensures Exec(x, s, Submits(i, 0)) == s
  {
    StepKeepsClosed(x, s, Submit(i));
    assert Submits(i, n + 1)[1..] == Submits(i, n);
  }

  function Ticks(sched: Schedule): nat {
    if sched == [] then 0 else (if sched[0].Tick? then 1 else 0) + Ticks(sched[1..])
  }

  /** The clock counts the ticks of a run. */
  lemma {:induction false} ClockCountsTicks(x: Executor, s: State, sched: Schedule)
    requires Closed(x, s)
    ensures Exec(x, s, sched).clock == s.clock + Ticks(sched)
    decreases |sched|
  {
    if sched != [] {
      StepKeepsClosed(x, s, sched[0]);
      ClockCountsTicks(x, Step(x, s, sched[0]), sched[1..]);
    }
  }

  // ---- With which verdict a job leaves ------------------------------------------------------------

  /** The job is past the checks, and has or will have this verdict. */
  predicate Decided(p: Stage, v: Verdict) {
    match p
    case Running(_) => v.Classified?
    case Leaving(_, q) => q == v
    case Left(_, q) => q == v
    case Reported(_, q) => q == v
    case Gone(q) => q == v
    case _ => false
  }

  lemma StepKeepsDecided(x: Executor, s: State, m: Move, i: nat, v: Verdict)
    requires Closed(x, s) && i < |s.stage| && Decided(s.stage[i], v)
    requires s.channel != [] ==> s.channel[0] != i
    ensures Closed(x, Step(x, s, m)) && Decided(Step(x, s, m).stage[i], v)
  {
    StepKeepsClosed(x, s, m);
  }

  lemma {:induction false} DecidedStays(x: Executor, s: State, sched: Schedule, i: nat, v: Verdict)
    requires Inv(x, s) && i < |s.stage| && Decided(s.stage[i], v)
    ensures Decided(Exec(x, s, sched).stage[i], v)
    decreases |sched|
  {
    if sched != [] {
      if s.channel != [] { assert s.stage[s.channel[0]].Queued?; }
      StepKeepsInv(x, s, sched[0]);
      StepKeepsDecided(x, s, sched[0], i, v);
      DecidedStays(x, Step(x, s, sched[0]), sched[1..], i, v);
    }
  }

  /** Nobody but its own worker moves a job that the worker has. */
  lemma StepKeepsTimed(x: Executor, s: State, m: Move, w: nat, i: nat)
    requires Closed(x, s) && Places(x, s) && i < |s.stage| && s.stage[i].Timed? && s.stage[i].w == w && m != Work(w)
    ensures Closed(x, Step(x, s, m)) && Step(x, s, m).stage[i] == s.stage[i]
  {
    StepKeepsClosed(x, s, m);
    if s.channel != [] { assert s.stage[s.channel[0]].Queued?; }
  }

  lemma {:induction false} TimedStays(x: Executor, s: State, sched: Schedule, w: nat, i: nat)
    requires Inv(x, s) && i < |s.stage| && s.stage[i].Timed? && s.stage[i].w == w && Work(w) !in sched
    ensures Inv(x, Exec(x, s, sched)) && Exec(x, s, sched).stage[i] == s.stage[i]
    decreases |sched|
  {
    if sched != [] {
      assert sched[0] in sched;
      StepKeepsInv(x, s, sched[0]);
      StepKeepsTimed(x, s, sched[0], w, i);
      TimedStays(x, Step(x, s, sched[0]), sched[1..], w, i);
    }
  }

  /** A caller has hung up exactly when it had before or has done so since. */
  lemma {:induction false} HungUpIff(x: Executor, s: State, sched: Schedule, i: nat)
    requires Closed(x, s)
    ensures i in Exec(x, s, sched).hungUp <==> i in s.hungUp || HangUp(i) in sched
    decreases |sched|
  {
    if sched != [] {
      StepKeepsClosed(x, s, sched[0]);
      HungUpIff(x, Step(x, s, sched[0]), sched[1..], i);
      assert sched == [sched[0]] + sched[1..];
      assert i in Step(x, s, sched[0]).hungUp <==> i in s.hungUp || sched[0] == HangUp(i);
    }
  }

  lemma {:induction false} ExecAppend(x: Executor, s: State, a: Schedule, b: Schedule)
    requires Closed(x, s)
    ensures Exec(x, s, a + b) == Exec(x, Exec(x, s, a), b)
    decreases |a|
  {
    if a == [] {
      assert a + b == b;
    } else {
      StepKeepsClosed(x, s, a[0]);
      assert (a + b)[1..] == a[1..] + b;
      ExecAppend(x, Step(x, s, a[0]), a[1..], b);
    }
  }

  /**
    The verdict on a job that worker `w` has received. The worker reads the clock with its next move,
    and looks at the caller with the one after, `between` happening in the meantime. A job whose
    deadline has come by the clock read leaves as expired, and is told so exactly if its caller has not
    hung up by the second check. A job read in time is cancelled exactly if its caller has, and is
    classified otherwise.
   */
  lemma VerdictOfJob(x: Executor, s: State, between: Schedule, rest: Schedule, w: nat, i: nat)
    requires Inv(x, s) && i < |s.stage| && w < |s.worker| && s.stage[i] == Taken(w) && Work(w) !in between
    ensures
      var after := Exec(x, s, [Work(w)] + between + [Work(w)] + rest);
      var late := x.deadlines[i].Some? && x.deadlines[i].value <= s.clock;
      var hungUp := i in s.hungUp || HangUp(i) in between;
      Decided(after.stage[i], if late then Expired(!hungUp) else if hungUp then Cancelled else Classified)
  {
    var late := x.deadlines[i].Some? && x.deadlines[i].value <= s.clock;
    var hungUp := i in s.hungUp || HangUp(i) in between;
    var timed := Step(x, s, Work(w));
    StepKeepsInv(x, s, Work(w));
    WorkerReadsClock(x, s, w, i);
    TimedStays(x, timed, between, w, i);
    HungUpIff(x, timed, between, i);
    var checked := Exec(x, timed, between);
    StepKeepsInv(x, checked, Work(w));
    WorkerChecksCaller(x, checked, w, i);
    SplitAtChecks(x, s, between, rest, w);
    DecidedStays(x, Step(x, checked, Work(w)), rest, i,
                 if late then Expired(!hungUp) else if hungUp then Cancelled else Classified);
  }

  lemma WorkerReadsClock(x: Executor, s: State, w: nat, i: nat)
    requires Inv(x, s) && i < |s.stage| && s.stage[i] == Taken(w)
    ensures
      var timed := Step(x, s, Work(w));
      && |timed.stage| == |s.stage| && timed.hungUp == s.hungUp
      && timed.stage[i] == Timed(w, x.deadlines[i].Some? && x.deadlines[i].value <= s.clock)
  {
    assert StageInv(x, s, i);
  }

  lemma WorkerChecksCaller(x: Executor, s: State, w: nat, i: nat)
    requires Inv(x, s) && i < |s.stage| && s.stage[i].Timed? && s.stage[i].w == w
    ensures
      var decided, hungUp := Step(x, s, Work(w)), i in s.hungUp;
      && |decided.stage| == |s.stage|
      && Decided(decided.stage[i],
                 if s.stage[i].late then Expired(!hungUp) else if hungUp then Cancelled else Classified)
  {
    assert StageInv(x, s, i);
  }

  lemma SplitAtChecks(x: Executor, s: State, between: Schedule, rest: Schedule, w: nat)
    requires Inv(x, s)
    ensures Closed(x, Step(x, s, Work(w)))
    ensures
      var checked := Exec(x, Step(x, s, Work(w)), between);
      && Closed(x, Step(x, checked, Work(w)))
      && Exec(x, s, [Work(w)] + between + [Work(w)] + rest) == Exec(x, Step(x, checked, Work(w)), rest)
  {
    StepKeepsClosed(x, s, Work(w));
    var checked := Exec(x, Step(x, s, Work(w)), between);
    StepKeepsClosed(x, checked, Work(w));
    assert ([Work(w)] + between)[1..] == between;
    ExecAppend(x, s, [Work(w)] + between, [Work(w)] + rest);
    assert ([Work(w)] + rest)[1..] == rest;
    assert [Work(w)] + between + [Work(w)] + rest == ([Work(w)] + between) + ([Work(w)] + rest);
  }

  // ---- The recorded maximum -----------------------------------------------------------------------

  /** The admitted counts that submitters have seen, each right after its own increment, after
      `earlier` ones. */
  function Seen(x: Executor, s: State, sched: Schedule, earlier: seq<int>): seq<int>
    requires Closed(x, s)
    decreases |sched|
  {
    if sched == [] then earlier
    else
      StepKeepsClosed(x, s, sched[0]);
      Seen(x, Step(x, s, sched[0]), sched[1..], SeenBy(x, s, sched[0], earlier))
  }

  function SeenBy(x: Executor, s: State, m: Move, earlier: seq<int>): seq<int>
    requires Closed(x, s)
  {
    if m.Submit? && m.i < |s.stage| && s.stage[m.i].Acquired? then earlier + [Step(x, s, m).current] else earlier
  }

  /** The maximum was seen, and every other count seen is below it or about to be compared to it. */
  ghost predicate MaxAgrees(s: State, seen: seq<int>) {
    && (s.max == 0 || s.max in seen)
    && (forall n :: n in seen ==> n <= s.max || Counted(n) in s.stage)
    && (forall i :: 0 <= i < |s.stage| && s.stage[i].Counted? ==> s.stage[i].n in seen)
  }

  lemma StepKeepsMax(x: Executor, s: State, m: Move, seen: seq<int>)
    requires Closed(x, s) && Places(x, s) && MaxAgrees(s, seen)
    ensures MaxAgrees(Step(x, s, m), SeenBy(x, s, m, seen))
  {
    if m.Submit? && m.i < |s.stage| && s.stage[m.i].Acquired? {
      CountingKeepsMax(s, m.i, Step(x, s, m), seen);
    } else if m.Submit? && m.i < |s.stage| && s.stage[m.i].Counted? {
      ComparingKeepsMax(s, m.i, Step(x, s, m), seen);
    } else {
      if s.channel != [] { assert s.stage[s.channel[0]].Queued?; }
      OtherStepsKeepCounts(x, s, m);
      SameCountsKeepMax(s, Step(x, s, m), seen);
    }
  }

  lemma CountingKeepsMax(s: State, i: nat, after: State, seen: seq<int>)
    requires i < |s.stage| && s.stage[i].Acquired? && MaxAgrees(s, seen) && after.max == s.max
    requires after.stage == s.stage[i := Counted(after.current)]
    ensures MaxAgrees(after, seen + [after.current])
  {
    assert after.stage[i] == Counted(after.current);
    forall n | n in seen && n > s.max ensures Counted(n) in after.stage {
      var j :| 0 <= j < |s.stage| && s.stage[j] == Counted(n);
      assert after.stage[j] == Counted(n);
    }
  }

  lemma ComparingKeepsMax(s: State, i: nat, after: State, seen: seq<int>)
    requires i < |s.stage| && s.stage[i].Counted? && MaxAgrees(s, seen)
    requires after.stage == s.stage[i := Ready] && after.max == if s.stage[i].n > s.max then s.stage[i].n else s.max
    ensures MaxAgrees(after, seen)
  {
    forall n | n in seen && n > after.max ensures Counted(n) in after.stage {
      var j :| 0 <= j < |s.stage| && s.stage[j] == Counted(n);
      assert after.stage[j] == Counted(n);
    }
  }

  /** No other step touches the maximum, or a count that is about to be compared. */
  ghost predicate SameCounts(s: State, after: State) {
    && after.max == s.max && |after.stage| == |s.stage|
    && forall i :: 0 <= i < |s.stage| && (s.stage[i].Counted? || after.stage[i].Counted?) ==>
         after.stage[i] == s.stage[i]
  }

  lemma OtherStepsKeepCounts(x: Executor, s: State, m: Move)
    requires Closed(x, s) && (s.channel != [] ==> s.stage[s.channel[0]].Queued?)
    requires m.Submit? && m.i < |s.stage| ==> !s.stage[m.i].Acquired? && !s.stage[m.i].Counted?
    ensures SameCounts(s, Step(x, s, m))
  {
  }

  lemma SameCountsKeepMax(s: State, after: State, seen: seq<int>)
    requires SameCounts(s, after) && MaxAgrees(s, seen)
    ensures MaxAgrees(after, seen)
  {
    forall n | n in seen && n > after.max ensures Counted(n) in after.stage {
      var j :| 0 <= j < |s.stage| && s.stage[j] == Counted(n);
      assert after.stage[j] == Counted(n);
    }
  }

  lemma {:induction false} ExecKeepsMax(x: Executor, s: State, sched: Schedule, seen: seq<int>)
    requires Inv(x, s) && MaxAgrees(s, seen)
    ensures MaxAgrees(Exec(x, s, sched), Seen(x, s, sched, seen))
    decreases |sched|
  {
    if sched != [] {
      StepKeepsInv(x, s, sched[0]);
      StepKeepsMax(x, s, sched[0], seen);
      ExecKeepsMax(x, Step(x, s, sched[0]), sched[1..], SeenBy(x, s, sched[0], seen));
    }
  }

  /** In every run the recorded maximum is the greatest admitted count that any submitter has seen,
      once those that have counted have also compared; it is zero while nobody has. */
  lemma MaxIsGreatestSeen(x: Executor, sched: Schedule)
    ensures
      var s, seen := Reached(x, sched), Seen(x, Init(x), sched, []);
      && (s.max == 0 || s.max in seen)
      && (forall n :: n in seen ==> n <= s.max || Counted(n) in s.stage)
  {
    InitInv(x);
    ExecKeepsMax(x, Init(x), sched, []);
  }

  /** Admission is refused exactly when every permit is held by a job in the system. */
  lemma RefusedIffFull(x: Executor, sched: Schedule, i: nat)
    requires i < |x.deadlines| && Reached(x, sched).stage[i].Idle?
    ensures
      var s := Reached(x, sched);
      SubmitStep(x, s, i).stage[i].NoPermit? <==> Sum(s.stage, Holds) == x.bound
  {
    InitInv(x);
    ExecKeepsInv(x, Init(x), sched);
  }

  // ---- Progress -----------------------------------------------------------------------------------

  /** How many more steps an attempt can take. */
  function Remaining(p: Stage): nat {
    match p
    case Idle => 11
    case Acquired => 10
    case Counted(_) => 9
    case Ready => 8
    case Queued => 7
    case Taken(_) => 6
    case Timed(_, _) => 5
    case Running(_) => 4
    case Leaving(_, _) => 3
    case Left(_, _) => 2
    case Reported(_, _) => 1
    case Bounced => 1
    case _ => 0
  }

  /** The move advances some attempt; hanging up and the clock never do. */
  ghost predicate Advances(x: Executor, s: State, m: Move)
    requires Closed(x, s)
  {
    match m
    case Submit(i) =>
      && i < |s.stage|
      && (s.stage[i].Idle? || s.stage[i].Acquired? || s.stage[i].Counted? || s.stage[i].Ready? || s.stage[i].Bounced?)
    case Receive(w) => w < |s.worker| && s.worker[w].None? && s.channel != []
    case Work(w) => w < |s.worker| && s.worker[w].Some?
    case _ => false
  }

  /** How many moves of a schedule advance an attempt. */
  ghost function Advancing(x: Executor, s: State, sched: Schedule): nat
    requires Closed(x, s)
    decreases |sched|
  {
    if sched == [] then 0
    else
      StepKeepsClosed(x, s, sched[0]);
      (if Advances(x, s, sched[0]) then 1 else 0) + Advancing(x, Step(x, s, sched[0]), sched[1..])
  }

  /** A move leaves every stage as it is, or replaces one by a later one. */
  lemma StepChangesOneStage(x: Executor, s: State, m: Move) returns (i: nat, p: Stage)
    requires Closed(x, s) && Places(x, s)
    ensures i < |s.stage| || (Step(x, s, m).stage == s.stage && !Advances(x, s, m))
    ensures i < |s.stage| ==>
              && Step(x, s, m).stage == s.stage[i := p]
              && Remaining(p) + (if Advances(x, s, m) then 1 else 0) <= Remaining(s.stage[i])
  {
    i, p := |s.stage|, Idle;
    if Advances(x, s, m) {
      match m {
        case Submit(u) => i := u;
        case Receive(w) => i := s.channel[0]; assert s.stage[i].Queued?;
        case Work(w) => i := s.worker[w].value; WorkChangesOneStage(x, s, w, i);
        case _ =>
      }
      p := Step(x, s, m).stage[i];
    } else {
      assert Step(x, s, m).stage == s.stage;
    }
  }

  lemma WorkChangesOneStage(x: Executor, s: State, w: nat, i: nat)
    requires Closed(x, s) && Places(x, s) && w < |s.worker| && s.worker[w] == Some(i)
    ensures
      var after := WorkStep(x, s, w, i);
      && |after.stage| == |s.stage| && after.stage == s.stage[i := after.stage[i]]
      && Remaining(after.stage[i]) < Remaining(s.stage[i])
  {
    assert AtWorker(s.stage[i]);
  }

  lemma StepLowersRemaining(x: Executor, s: State, m: Move)
    requires Closed(x, s) && Places(x, s)
    ensures Sum(Step(x, s, m).stage, Remaining) + (if Advances(x, s, m) then 1 else 0) <= Sum(s.stage, Remaining)
  {
    var i, p := StepChangesOneStage(x, s, m);
    if i < |s.stage| { SumUpdate(s.stage, Remaining, i, p); }
  }

  lemma {:induction false} AdvancingLowersRemaining(x: Executor, s: State, sched: Schedule)
    requires Inv(x, s)
    ensures Advancing(x, s, sched) + Sum(Exec(x, s, sched).stage, Remaining) <= Sum(s.stage, Remaining)
    decreases |sched|
  {
    if sched != [] {
      StepKeepsInv(x, s, sched[0]);
      StepLowersRemaining(x, s, sched[0]);
      AdvancingLowersRemaining(x, Step(x, s, sched[0]), sched[1..]);
    }
  }

  lemma {:induction false} InitRemaining(n: nat)
    ensures Sum(seq(n, _ => Idle), Remaining) == 11 * n
  {
    if n > 0 {
      assert seq<Stage>(n, _ => Idle)[..n - 1] == seq<Stage>(n - 1, _ => Idle);
      InitRemaining(n - 1);
    }
  }

  ghost predicate AllSettled(s: State) {
    forall i :: 0 <= i < |s.stage| ==> s.stage[i].Gone? || s.stage[i].NoPermit?
  }

  lemma SomethingAdvances(x: Executor, s: State)
    requires Inv(x, s) && x.workers >= 1 && !AllSettled(s)
    ensures exists m :: Advances(x, s, m)
  {
    var i :| 0 <= i < |s.stage| && !s.stage[i].Gone? && !s.stage[i].NoPermit?;
    assert StageInv(x, s, i);
    if AtWorker(s.stage[i]) {
      assert Advances(x, s, Work(s.stage[i].w));
    } else if s.stage[i].Queued? {
      SumUpdate(s.stage, Waits, i, Idle);
      assert |s.channel| >= 1;
      assert Advances(x, s, if s.worker[0].None? then Receive(0) else Work(0));
    } else {
      assert Advances(x, s, Submit(i));
    }
  }

  lemma {:induction false} SettledHoldsNothing(stage: seq<Stage>)
    requires forall i :: 0 <= i < |stage| ==> stage[i].Gone? || stage[i].NoPermit?
    ensures Sum(stage, Holds) == 0 && Sum(stage, Counts) == 0
  {
    if stage != [] { SettledHoldsNothing(stage[..|stage| - 1]); }
  }

  /**
    Progress, with at least one worker: a run makes at most eleven advancing moves per attempt; when
    nothing can advance any more every attempt was refused or has left, every permit is back, and the
    admitted count is zero.
   */
  lemma EveryAttemptSettles(x: Executor, sched: Schedule)
    requires x.workers >= 1
    ensures Advancing(x, Init(x), sched) <= 11 * |x.deadlines|
    ensures
      var s := Reached(x, sched);
      (forall m :: !Advances(x, s, m)) ==> AllSettled(s) && s.permits == x.bound && s.current == 0
  {
    InitInv(x);
    InitRemaining(|x.deadlines|);
    AdvancingLowersRemaining(x, Init(x), sched);
    ExecKeepsInv(x, Init(x), sched);
    var s := Reached(x, sched);
    if AllSettled(s) { SettledHoldsNothing(s.stage); } else { SomethingAdvances(x, s); }
  }
}
