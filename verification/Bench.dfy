/** The benchmark harness's key scheme and self-check, against the serial exact cache. */
module Bench {
  import opened Types
  import opened ExactCaches

  datatype Mode = HitMode | MissMode

  // ---- Decimal suffixes ---------------------------------------------------------------------------

  function Digit(n: nat): (c: char)
    requires n < 10
    ensures '0' <= c <= '9' && c as int - '0' as int == n
  {
    ('0' as int + n) as char
  }

  function Decimal(n: nat): (s: string)
    ensures s != []
    ensures forall i :: 0 <= i < |s| ==> '0' <= s[i] <= '9'
  {
    if n < 10 then [Digit(n)] else Decimal(n / 10) + [Digit(n % 10)]
  }

  function Parse(s: string): nat {
    if s == [] || !('0' <= s[|s| - 1] <= '9') then 0
    else 10 * Parse(s[..|s| - 1]) + (s[|s| - 1] as int - '0' as int)
  }

  lemma {:induction false} ParseDecimal(n: nat)
    ensures Parse(Decimal(n)) == n
  {
    if n < 10 {
      assert Decimal(n)[..0] == [];
    } else {
      ParseDecimal(n / 10);
      assert Decimal(n)[..|Decimal(n)| - 1] == Decimal(n / 10);
    }
  }

  /** What precedes the last dash, and the number after it, can be read back. */
  lemma {:induction false} SplitLastDash(a: string, i: nat, b: string, j: nat)
    requires a + "-" + Decimal(i) == b + "-" + Decimal(j)
    ensures a == b && i == j
  {
    SplitSuffix(a, Decimal(i), b, Decimal(j));
    ParseDecimal(i);
    ParseDecimal(j);
  }

  lemma {:induction false} SplitSuffix(a: string, s: string, b: string, t: string)
    requires '-' !in s && '-' !in t
    requires a + "-" + s == b + "-" + t
    ensures a == b && s == t
  {
    var x, y := a + "-" + s, b + "-" + t;
    assert x[|x| - 1] == y[|y| - 1];
    assert a == x[..|a|] && b == y[..|b|];
    if s != [] && t != [] {
      assert x[..|x| - 1] == a + "-" + s[..|s| - 1];
      assert y[..|y| - 1] == b + "-" + t[..|t| - 1];
      SplitSuffix(a, s[..|s| - 1], b, t[..|t| - 1]);
      assert s == s[..|s| - 1] + [s[|s| - 1]] && t == t[..|t| - 1] + [t[|t| - 1]];
    }
  }

  // ---- Contexts -----------------------------------------------------------------------------------

  function MeasureContext(runId: nat, index: nat): string {
    "measure-" + Decimal(runId) + "-" + Decimal(index)
  }

  function SeededMeasure(seed: string, runId: nat, index: nat): string {
    if seed == [] then MeasureContext(runId, index) else seed + "-measure-" + Decimal(runId) + "-" + Decimal(index)
  }

  function SeededWarm(mode: Mode, seed: string, runId: nat, index: nat): string {
    match mode
    case HitMode => SeededMeasure(seed, runId, index)
    case MissMode => if seed == [] then "warm-" + Decimal(index) else seed + "-warm-" + Decimal(index)
  }

  /** Trimming as the service does it before it makes a key. `space` is the whitespace test. */
  function TrimStart(s: string, space: char -> bool): string {
    if s == [] || !space(s[0]) then s else TrimStart(s[1..], space)
  }

  function TrimEnd(s: string, space: char -> bool): string {
    if s == [] || !space(s[|s| - 1]) then s else TrimEnd(s[..|s| - 1], space)
  }

  function Trim(s: string, space: char -> bool): string {
    TrimEnd(TrimStart(s, space), space)
  }

  ghost predicate Blank(s: string, space: char -> bool) {
    forall i :: 0 <= i < |s| ==> space(s[i])
  }

  /** Trimming takes off whitespace at both ends, all of it and nothing else. */
  lemma TrimTakesEnds(s: string, space: char -> bool) returns (before: string, after: string)
    ensures s == before + Trim(s, space) + after && Blank(before, space) && Blank(after, space)
    ensures
      var t := Trim(s, space);
      t != [] ==> !space(t[0]) && !space(t[|t| - 1])
  {
    var middle := TrimStart(s, space);
    before := TrimStartTakesFront(s, space);
    after := TrimEndTakesBack(middle, space);
    Regroup(s, before, middle, TrimEnd(middle, space), after);
  }

  lemma Regroup(s: string, a: string, m: string, b: string, c: string)
    requires s == a + m && m == b + c
    ensures s == a + b + c && (b != [] ==> m != [] && m[0] == b[0])
  {
  }

  lemma {:induction false} TrimStartTakesFront(s: string, space: char -> bool) returns (before: string)
    ensures s == before + TrimStart(s, space) && Blank(before, space)
    ensures TrimStart(s, space) != [] ==> !space(TrimStart(s, space)[0])
  {
    before := [];
    if s != [] && space(s[0]) {
      before := TrimStartTakesFront(s[1..], space);
      before := [s[0]] + before;
    }
  }

  lemma {:induction false} TrimEndTakesBack(s: string, space: char -> bool) returns (after: string)
    ensures s == TrimEnd(s, space) + after && Blank(after, space)
    ensures TrimEnd(s, space) != [] ==> !space(TrimEnd(s, space)[|TrimEnd(s, space)| - 1])
  {
    after := [];
    if s != [] && space(s[|s| - 1]) {
      after := TrimEndTakesBack(s[..|s| - 1], space);
      after := after + [s[|s| - 1]];
    }
  }

  ghost predicate Whitespace(space: char -> bool) {
    && (forall c :: '0' <= c <= '9' ==> !space(c))
    && !space('-') && !space('m') && !space('w')
  }

  /** Trimming only shortens what stands before a core that starts and ends in plain characters. */
  lemma {:induction false} TrimKeepsCore(p: string, core: string, space: char -> bool) returns (p': string)
    requires core != [] && !space(core[0]) && !space(core[|core| - 1])
    ensures Trim(p + core, space) == p' + core
  {
    if p == [] {
      p' := [];
      assert p + core == core && p' + core == core;
    } else if space(p[0]) {
      assert (p + core)[1..] == p[1..] + core;
      p' := TrimKeepsCore(p[1..], core, space);
    } else {
      p' := p;
    }
  }

  /** What trimming leaves of a seed and the dash after it. */
  function Prefix(seed: string): string {
    if seed == [] then "" else seed + "-"
  }

  lemma Join(p: string, a: string, b: string, c: string, d: string)
    ensures p + (a + b + c + d) == p + a + b + c + d
  {
    assert p + (a + b) == p + a + b;
    assert p + (a + b + c) == p + a + b + c;
  }

  lemma MeasureShape(seed: string, runId: nat, index: nat, space: char -> bool) returns (p: string)
    requires Whitespace(space)
    ensures Trim(SeededMeasure(seed, runId, index), space)
         == p + "measure" + "-" + Decimal(runId) + "-" + Decimal(index)
  {
    var run, number := Decimal(runId), Decimal(index);
    var core := MeasureContext(runId, index);
    assert SeededMeasure(seed, runId, index) == Prefix(seed) + core by {
      if seed != [] {
        assert "-measure-" == "-" + "measure-" && seed + "-measure-" == seed + "-" + "measure-";
        Join(seed + "-", "measure-", run, "-", number);
      }
    }
    EndsPlain("measure-" + run + "-", number, space);
    p := TrimKeepsCore(Prefix(seed), core, space);
    Join(p, "measure-", run, "-", number);
    assert "measure-" == "measure" + "-" && p + "measure-" == p + "measure" + "-";
  }

  lemma EndsPlain(front: string, number: string, space: char -> bool)
    requires Whitespace(space) && front != [] && !space(front[0])
    requires number != [] && '0' <= number[|number| - 1] <= '9'
    ensures front + number != [] && !space((front + number)[0]) && !space((front + number)[|front + number| - 1])
  {
  }

  lemma WarmShape(seed: string, runId: nat, index: nat, space: char -> bool) returns (p: string)
    requires Whitespace(space)
    ensures Trim(SeededWarm(MissMode, seed, runId, index), space) == p + "warm" + "-" + Decimal(index)
  {
    var number := Decimal(index);
    var core := "warm-" + number;
    assert SeededWarm(MissMode, seed, runId, index) == Prefix(seed) + core by {
      if seed != [] {
        assert "-warm-" == "-" + "warm-" && seed + "-warm-" == seed + "-" + "warm-";
      }
    }
    EndsPlain("warm-", number, space);
    p := TrimKeepsCore(Prefix(seed), core, space);
    assert "warm-" == "warm" + "-" && p + "warm-" == p + "warm" + "-";
    assert p + core == p + "warm-" + number;
  }

  /** Measured keys are distinct per run and index, whatever the seeds, also after trimming. */
  lemma MeasuredKeysAreDistinct(s: string, r: nat, i: nat, t: string, q: nat, j: nat, space: char -> bool)
    requires Whitespace(space)
    requires Trim(SeededMeasure(s, r, i), space) == Trim(SeededMeasure(t, q, j), space)
    ensures r == q && i == j
  {
    var p := MeasureShape(s, r, i, space);
    var p' := MeasureShape(t, q, j, space);
    SplitLastDash(p + "measure" + "-" + Decimal(r), i, p' + "measure" + "-" + Decimal(q), j);
    SplitLastDash(p + "measure", r, p' + "measure", q);
  }

  /** A miss-mode warm key is never a measured key, whatever the seeds, runs and indices. */
  lemma WarmKeysAreNeverMeasured(s: string, r: nat, i: nat, t: string, q: nat, j: nat, space: char -> bool)
    requires Whitespace(space)
    ensures Trim(SeededWarm(MissMode, s, r, i), space) != Trim(SeededMeasure(t, q, j), space)
  {
    var p := WarmShape(s, r, i, space);
    var p' := MeasureShape(t, q, j, space);
    var warm, measured := p + "warm", p' + "measure" + "-" + Decimal(q);
    assert warm[|warm| - 1] == 'm' && '0' <= measured[|measured| - 1] <= '9';
    if warm + "-" + Decimal(i) == measured + "-" + Decimal(j) { SplitLastDash(warm, i, measured, j); }
  }

  // ---- Runs of keys against the cache -------------------------------------------------------------

  function Calls<K, V>(keys: seq<K>, forward: K -> Option<V>): seq<(K, Option<V>)> {
    seq(|keys|, i requires 0 <= i < |keys| => (keys[i], forward(keys[i])))
  }

  lemma {:induction false} FreshKeysMiss<K, V>(c: Cache<K, V>, capacity: nat, keys: seq<K>, forward: K -> Option<V>)
    requires Distinct(keys) && forall k :: k in keys ==> k !in c.value
    ensures Run(c, capacity, Calls(keys, forward)).hits == c.hits
    ensures Run(c, capacity, Calls(keys, forward)).forwards == c.forwards + |keys|
    ensures (forall k :: k in keys ==> forward(k).Some?) ==> Arrivals(c, capacity, Calls(keys, forward)) == keys
    decreases |keys|
  {
    if keys != [] {
      var k := keys[0];
      var next := Classify(c, capacity, k, forward(k));
      assert Calls(keys, forward)[1..] == Calls(keys[1..], forward);
      assert k !in keys[1..];
      forall x | x in keys[1..] ensures x !in next.value {
        assert x in keys && x != k;
      }
      FreshKeysMiss(next, capacity, keys[1..], forward);
      assert keys == [k] + keys[1..];
    }
  }

  lemma {:induction false} CachedKeysHit<K, V>(c: Cache<K, V>, capacity: nat, keys: seq<K>, forward: K -> Option<V>)
    requires forall k :: k in keys ==> k in c.value
    ensures Run(c, capacity, Calls(keys, forward)) == c.(hits := c.hits + |keys|)
    decreases |keys|
  {
    if keys != [] {
      assert Calls(keys, forward)[1..] == Calls(keys[1..], forward);
      CachedKeysHit(c.(hits := c.hits + 1), capacity, keys[1..], forward);
    } else {
      assert c.(hits := c.hits + 0) == c;
    }
  }

  lemma {:induction false} RunAppend<K, V>(c: Cache<K, V>, capacity: nat, calls: seq<(K, Option<V>)>,
      last: (K, Option<V>))
    ensures Run(c, capacity, calls + [last]) == Classify(Run(c, capacity, calls), capacity, last.0, last.1)
    decreases |calls|
  {
    if calls == [] {
      assert [last][1..] == [];
    } else {
      assert (calls + [last])[1..] == calls[1..] + [last];
      RunAppend(Classify(c, capacity, calls[0].0, calls[0].1), capacity, calls[1..], last);
    }
  }

  /**
    Warming `keys` that are not cached yet leaves the first `n` of them cached exactly when there are
    none or the capacity holds all that was warmed. First in, first out, the front is lost first.
   */
  lemma WarmedKeysStayIffTheyFit<K, V>(c: Cache<K, V>, capacity: nat, keys: seq<K>, forward: K -> Option<V>, n: nat)
    requires Valid(c, capacity) && n <= |keys|
    requires Distinct(keys) && (forall k :: k in keys ==> k !in c.value && forward(k).Some?)
    ensures (forall i :: 0 <= i < n ==> keys[i] in Run(c, capacity, Calls(keys, forward)).value)
       <==> (n == 0 || |keys| <= capacity)
  {
    var after := Run(c, capacity, Calls(keys, forward));
    FreshKeysMiss(c, capacity, keys, forward);
    RunKeepsValid(c, capacity, Calls(keys, forward));
    RunIsFifo(c, capacity, Calls(keys, forward));
    LastHoldsFrontIffItFits(c.order, keys, capacity);
  }

  /** The newest `n` entries hold all of the later ones, or not even the first of them. */
  lemma LastHoldsFrontIffItFits<K>(order: seq<K>, keys: seq<K>, n: nat)
    requires Distinct(keys)
    ensures |keys| <= n ==> forall k :: k in keys ==> k in Last(order + keys, n)
    ensures |keys| > n ==> keys[0] !in Last(order + keys, n)
  {
    var all := order + keys;
    if |keys| <= n {
      var last := Last(all, n);
      forall i | 0 <= i < |keys| ensures keys[i] in last { assert last[|last| - |keys| + i] == keys[i]; }
    } else {
      assert Last(all, n) == keys[|keys| - n..];
    }
  }

  /** How many of the keys are not cached. */
  function Absent<K(==), V>(held: map<K, V>, keys: seq<K>): nat {
    if keys == [] then 0 else (if keys[0] in held then 0 else 1) + Absent(held, keys[1..])
  }

  lemma {:induction false} AbsentIgnoresOthers<K, V>(held: map<K, V>, k: K, v: V, keys: seq<K>)
    requires k !in keys
    ensures Absent(held[k := v], keys) == Absent(held, keys)
  {
    if keys != [] { AbsentIgnoresOthers(held, k, v, keys[1..]); }
  }

  /** All of the keys are cached; none of them is. */
  ghost predicate Holds<K, V>(held: map<K, V>, keys: seq<K>) {
    forall k :: k in keys ==> k in held
  }

  ghost predicate Free<K, V>(held: map<K, V>, keys: seq<K>) {
    forall k :: k in keys ==> k !in held
  }

  /** Each key is cached or its forward succeeds. */
  ghost predicate Obtainable<K, V>(held: map<K, V>, keys: seq<K>, forward: K -> Option<V>) {
    forall k :: k in keys ==> k in held || forward(k).Some?
  }

  /** From any cache, whatever keys it holds already: with room for those that are missing, warming
      loses nothing, neither a warmed key nor one that was there. */
  lemma {:induction false} RoomKeepsAll<K, V>(c: Cache<K, V>, capacity: nat, keys: seq<K>, forward: K -> Option<V>)
    requires Valid(c, capacity) && Distinct(keys) && Obtainable(c.value, keys, forward)
    requires |c.order| + Absent(c.value, keys) <= capacity
    ensures
      var after := Run(c, capacity, Calls(keys, forward));
      && after.evicted == c.evicted
      && forall k :: k in c.value || k in keys ==> k in after.value
    decreases |keys|
  {
    if keys != [] {
      var k, rest := keys[0], keys[1..];
      var next := Classify(c, capacity, k, forward(k));
      assert Calls(keys, forward)[1..] == Calls(rest, forward);
      assert k in keys && k !in rest;
      ClassifyKeepsValid(c, capacity, k, forward(k));
      if k !in c.value { AbsentIgnoresOthers(c.value, k, forward(k).value, rest); }
      RoomKeepsAll(next, capacity, rest, forward);
      assert keys == [k] + rest;
    }
  }

  // ---- The self-check -----------------------------------------------------------------------------

  datatype Snapshot = Snapshot(hits: nat, misses: nat, coalesced: nat)

  function Delta(after: nat, before: nat): nat {
    if after >= before then after - before else 0
  }

  /** The harness's own check of a measured window. */
  predicate VerifyWindow(mode: Mode, before: Snapshot, after: Snapshot, measured: nat) {
    match mode
    case MissMode =>
      && Delta(after.misses, before.misses) == measured
      && Delta(after.hits, before.hits) == 0
      && Delta(after.coalesced, before.coalesced) == 0
    case HitMode =>
      && Delta(after.hits, before.hits) == measured
      && Delta(after.misses, before.misses) == 0
      && Delta(after.coalesced, before.coalesced) == 0
  }

  /** A counter grew by exactly `n`; a counter that went back counts as not having grown. */
  ghost predicate GrewBy(before: nat, after: nat, n: nat) {
    if n == 0 then after <= before else after == before + n
  }

  /** A window is accepted exactly if the one kind of answer grew by `n` and nothing else grew. In
      particular a coalesced wait is rejected in both modes. */
  lemma WindowAcceptedIff(before: Snapshot, after: Snapshot, n: nat)
    ensures VerifyWindow(MissMode, before, after, n) <==>
              && GrewBy(before.misses, after.misses, n)
              && GrewBy(before.hits, after.hits, 0) && GrewBy(before.coalesced, after.coalesced, 0)
    ensures VerifyWindow(HitMode, before, after, n) <==>
              && GrewBy(before.hits, after.hits, n)
              && GrewBy(before.misses, after.misses, 0) && GrewBy(before.coalesced, after.coalesced, 0)
    ensures after.coalesced > before.coalesced ==>
              !VerifyWindow(MissMode, before, after, n) && !VerifyWindow(HitMode, before, after, n)
  {
  }

  lemma {:induction false} ForwardsNeverDrop<K, V>(c: Cache<K, V>, capacity: nat, calls: seq<(K, Option<V>)>)
    ensures Run(c, capacity, calls).forwards >= c.forwards
    decreases |calls|
  {
    if calls != [] { ForwardsNeverDrop(Classify(c, capacity, calls[0].0, calls[0].1), capacity, calls[1..]); }
  }

  /** Serial measuring never waits for another request, so no wait is ever coalesced. */
  function Counters<K(==), V>(c: Cache<K, V>): Snapshot {
    Snapshot(c.hits, c.forwards, 0)
  }

  /** The hit-mode check accepts the measured keys exactly when all are cached at the start. */
  lemma {:induction false} HitWindowIffCached<K, V>(c: Cache<K, V>, capacity: nat, keys: seq<K>,
      forward: K -> Option<V>)
    ensures VerifyWindow(HitMode, Counters(c), Counters(Run(c, capacity, Calls(keys, forward))), |keys|)
       <==> forall k :: k in keys ==> k in c.value
    decreases |keys|
  {
    if keys != [] {
      var next, rest := Classify(c, capacity, keys[0], forward(keys[0])), keys[1..];
      assert Calls(keys, forward)[1..] == Calls(rest, forward);
      assert keys == [keys[0]] + rest;
      ForwardsNeverDrop(next, capacity, Calls(rest, forward));
      if keys[0] in c.value { HitWindowIffCached(next, capacity, rest, forward); }
    }
  }

  /** Each key has left the queue by its turn, the keys before it having entered. */
  ghost predicate Gone<K>(order: seq<K>, capacity: nat, keys: seq<K>) {
    forall i :: 0 <= i < |keys| ==> keys[i] !in Last(order + keys[..i], capacity)
  }

  lemma GoneStep<K>(order: seq<K>, capacity: nat, keys: seq<K>)
    requires |order| <= capacity && keys != []
    ensures Gone(order, capacity, keys)
       <==> keys[0] !in order && Gone(Last(order + [keys[0]], capacity), capacity, keys[1..])
  {
    var k, rest := keys[0], keys[1..];
    assert order + keys[..0] == order;
    forall i | 0 <= i < |rest|
      ensures Last(Last(order + [k], capacity) + rest[..i], capacity) == Last(order + keys[..i + 1], capacity)
    {
      LastOfLast(order + [k], rest[..i], capacity);
      assert order + keys[..i + 1] == order + [k] + rest[..i];
    }
    if keys[0] !in order && Gone(Last(order + [k], capacity), capacity, rest) {
      forall i | 0 <= i < |keys| ensures keys[i] !in Last(order + keys[..i], capacity) {
        if i > 0 { assert keys[i] == rest[i - 1]; }
      }
    }
    if Gone(order, capacity, keys) {
      forall i | 0 <= i < |rest| ensures rest[i] !in Last(Last(order + [k], capacity) + rest[..i], capacity) {
        assert rest[i] == keys[i + 1];
      }
    }
  }

  lemma {:induction false} NoHitIffGone<K, V>(c: Cache<K, V>, capacity: nat, keys: seq<K>, forward: K -> Option<V>)
    requires Valid(c, capacity) && forall k :: k in keys ==> forward(k).Some?
    ensures Run(c, capacity, Calls(keys, forward)).hits == c.hits <==> Gone(c.order, capacity, keys)
    decreases |keys|
  {
    if keys != [] {
      var k, rest := keys[0], keys[1..];
      var next := Classify(c, capacity, k, forward(k));
      assert Calls(keys, forward)[1..] == Calls(rest, forward);
      GoneStep(c.order, capacity, keys);
      if k in c.value {
        HitsNeverDrop(next, capacity, Calls(rest, forward));
      } else {
        ClassifyKeepsValid(c, capacity, k, forward(k));
        ClassifyFollows(c, capacity, k, forward(k));
        NoHitIffGone(next, capacity, rest, forward);
      }
    }
  }

  /** The miss-mode check accepts the measured keys exactly when each has left the queue by its turn. */
  lemma MissWindowIffGone<K, V>(c: Cache<K, V>, capacity: nat, keys: seq<K>, forward: K -> Option<V>)
    requires Valid(c, capacity) && forall k :: k in keys ==> forward(k).Some?
    ensures VerifyWindow(MissMode, Counters(c), Counters(Run(c, capacity, Calls(keys, forward))), |keys|)
       <==> Gone(c.order, capacity, keys)
  {
    NoHitIffGone(c, capacity, keys, forward);
    RunIsFifo(c, capacity, Calls(keys, forward));
    HitsNeverDrop(c, capacity, Calls(keys, forward));
  }

  lemma {:induction false} HitsNeverDrop<K, V>(c: Cache<K, V>, capacity: nat, calls: seq<(K, Option<V>)>)
    ensures Run(c, capacity, calls).hits >= c.hits
    decreases |calls|
  {
    if calls != [] { HitsNeverDrop(Classify(c, capacity, calls[0].0, calls[0].1), capacity, calls[1..]); }
  }

  /** A hit-mode run: warm the keys, measure the first `n` of them, check the window. */
  ghost predicate HitRunAccepted<K, V>(c: Cache<K, V>, capacity: nat, keys: seq<K>, forward: K -> Option<V>, n: nat)
    requires n <= |keys|
  {
    var warmed := Run(c, capacity, Calls(keys, forward));
    VerifyWindow(HitMode, Counters(warmed), Counters(Run(warmed, capacity, Calls(keys[..n], forward))), n)
  }

  /**
    The hit-mode self-check, end to end, from any cache: it accepts exactly when each measured key is
    among the newest `capacity` of what the cache held and what the warm-up added. A key that was held
    and hit keeps its old place, so later additions can push it out. With room for the missing keys it
    always accepts; from a cache free of the keys, exactly when the warm-up fits.
   */
  lemma HitRunAcceptedIff<K, V>(c: Cache<K, V>, capacity: nat, keys: seq<K>, forward: K -> Option<V>, n: nat)
    requires Valid(c, capacity) && n <= |keys|
    ensures HitRunAccepted(c, capacity, keys, forward, n)
       <==> forall i :: 0 <= i < n ==> keys[i] in Last(c.order + Arrivals(c, capacity, Calls(keys, forward)), capacity)
    ensures Distinct(keys) && Obtainable(c.value, keys, forward) && |c.order| + Absent(c.value, keys) <= capacity ==>
              HitRunAccepted(c, capacity, keys, forward, n)
    ensures Distinct(keys) && Obtainable(c.value, keys, forward) && Free(c.value, keys) ==>
              (HitRunAccepted(c, capacity, keys, forward, n) <==> n == 0 || |keys| <= capacity)
  {
    HitRunAcceptedIffKept(c, capacity, keys, forward, n);
    if Distinct(keys) && Obtainable(c.value, keys, forward) {
      if |c.order| + Absent(c.value, keys) <= capacity { HitRunAcceptedWithRoom(c, capacity, keys, forward, n); }
      if Free(c.value, keys) { HitRunAcceptedIffWarmupFits(c, capacity, keys, forward, n); }
    }
  }

  lemma HitRunAcceptedIffKept<K, V>(c: Cache<K, V>, capacity: nat, keys: seq<K>, forward: K -> Option<V>, n: nat)
    requires Valid(c, capacity) && n <= |keys|
    ensures HitRunAccepted(c, capacity, keys, forward, n)
       <==> forall i :: 0 <= i < n ==> keys[i] in Last(c.order + Arrivals(c, capacity, Calls(keys, forward)), capacity)
  {
    HitWindowIffCached(Run(c, capacity, Calls(keys, forward)), capacity, keys[..n], forward);
    forall k ensures k in Run(c, capacity, Calls(keys, forward)).value
                <==> k in Last(c.order + Arrivals(c, capacity, Calls(keys, forward)), capacity)
    {
      LiveIffLast(c, capacity, Calls(keys, forward), k);
    }
    assert forall i :: 0 <= i < n ==> keys[..n][i] == keys[i];
  }

  lemma LiveIffLast<K, V>(c: Cache<K, V>, capacity: nat, calls: seq<(K, Option<V>)>, k: K)
    requires Valid(c, capacity)
    ensures k in Run(c, capacity, calls).value <==> k in Last(c.order + Arrivals(c, capacity, calls), capacity)
  {
    RunKeepsValid(c, capacity, calls);
    RunIsFifo(c, capacity, calls);
  }

  lemma HitRunAcceptedWithRoom<K, V>(c: Cache<K, V>, capacity: nat, keys: seq<K>, forward: K -> Option<V>, n: nat)
    requires Valid(c, capacity) && n <= |keys| && Distinct(keys) && Obtainable(c.value, keys, forward)
    requires |c.order| + Absent(c.value, keys) <= capacity
    ensures HitRunAccepted(c, capacity, keys, forward, n)
  {
    RoomKeepsAll(c, capacity, keys, forward);
    HitWindowIffCached(Run(c, capacity, Calls(keys, forward)), capacity, keys[..n], forward);
  }

  lemma HitRunAcceptedIffWarmupFits<K, V>(c: Cache<K, V>, capacity: nat, keys: seq<K>, forward: K -> Option<V>, n: nat)
    requires Valid(c, capacity) && n <= |keys|
    requires Distinct(keys) && Obtainable(c.value, keys, forward) && Free(c.value, keys)
    ensures HitRunAccepted(c, capacity, keys, forward, n) <==> (n == 0 || |keys| <= capacity)
  {
    WarmedKeysStayIffTheyFit(c, capacity, keys, forward, n);
    HitWindowIffCached(Run(c, capacity, Calls(keys, forward)), capacity, keys[..n], forward);
    assert forall i :: 0 <= i < n ==> keys[..n][i] == keys[i];
  }

  /** A single warmed key is cached afterwards, whatever was cached before. */
  lemma OneKeyStays<K, V>(c: Cache<K, V>, capacity: nat, keys: seq<K>, forward: K -> Option<V>, n: nat)
    requires Valid(c, capacity) && n <= |keys| && (n == 0 || |keys| == 1) && forall k :: k in keys ==> forward(k).Some?
    ensures HitRunAccepted(c, capacity, keys, forward, n)
  {
    var calls := Calls(keys, forward);
    HitWindowIffCached(Run(c, capacity, calls), capacity, keys[..n], forward);
    if n > 0 { assert Run(c, capacity, calls) == Classify(c, capacity, keys[0], forward(keys[0])); }
  }

  /** The cache that holds `keys[0]` as its oldest entry and otherwise none of the keys. */
  ghost predicate HoldsOnlyFirst<K, V>(c: Cache<K, V>, capacity: nat, keys: seq<K>) {
    && keys != [] && c.order != [] && |c.order| == capacity && c.order[0] == keys[0]
    && forall i :: 1 <= i < |keys| ==> keys[i] !in c.value
  }

  /** From there the first addition of the warm-up drops the key that the warm-up has just hit. */
  lemma StaleKeyBreaksHitRun<K, V>(c: Cache<K, V>, capacity: nat, keys: seq<K>, forward: K -> Option<V>, n: nat)
    requires Valid(c, capacity) && HoldsOnlyFirst(c, capacity, keys) && Distinct(keys)
    requires 2 <= |keys| <= capacity && 1 <= n <= |keys| && forall k :: k in keys ==> forward(k).Some?
    ensures !HitRunAccepted(c, capacity, keys, forward, n)
  {
    var hit, calls := c.(hits := c.hits + 1), Calls(keys, forward);
    var next := Classify(hit, capacity, keys[1], forward(keys[1]));
    assert calls[1..][1..] == Calls(keys[2..], forward);
    assert Run(c, capacity, calls) == Run(hit, capacity, calls[1..]) == Run(next, capacity, Calls(keys[2..], forward));
    assert keys[0] !in next.value;
    if keys[0] in Run(c, capacity, calls).value {
      OnlyAskedKeysEnter(next, capacity, keys[2..], forward, keys[0]);
    }
    HitWindowIffCached(Run(c, capacity, calls), capacity, keys[..n], forward);
    assert keys[..n][0] == keys[0];
  }

  /** Nothing gets into the cache but the keys that are asked for and whose forward succeeds. */
  lemma {:induction false} OnlyAskedKeysEnter<K, V>(c: Cache<K, V>, capacity: nat, keys: seq<K>,
      forward: K -> Option<V>, k: K)
    requires k in Run(c, capacity, Calls(keys, forward)).value
    ensures k in c.value || (k in keys && forward(k).Some?)
    decreases |keys|
  {
    if keys != [] {
      assert Calls(keys, forward)[1..] == Calls(keys[1..], forward);
      OnlyAskedKeysEnter(Classify(c, capacity, keys[0], forward(keys[0])), capacity, keys[1..], forward, k);
    }
  }

  lemma FirstAndLaterAreDistinct<K>(all: seq<K>, w: nat)
    requires 2 <= w <= |all| && Distinct(all)
    ensures Distinct([all[0]] + all[w..]) && forall i :: 1 <= i < w ==> all[i] !in [all[0]] + all[w..]
  {
    var few := [all[0]] + all[w..];
    assert forall j :: 1 <= j < |few| ==> few[j] == all[w + j - 1];
  }

  /** Distinct keys that fit fill an empty cache in order. */
  lemma FillsEmpty<K, V>(capacity: nat, keys: seq<K>, forward: K -> Option<V>)
    requires 1 <= capacity && |keys| <= capacity && Distinct(keys) && forall k :: k in keys ==> forward(k).Some?
    ensures
      var c := Run(Empty(), capacity, Calls(keys, forward));
      Valid(c, capacity) && c.order == keys
  {
    var none: Cache<K, V> := Empty();
    FreshKeysMiss(none, capacity, keys, forward);
    RunKeepsValid(none, capacity, Calls(keys, forward));
    RunIsFifo(none, capacity, Calls(keys, forward));
    assert none.order + keys == keys;
  }

  /** The first key and then later ones fill a cache, the first is its oldest entry, and warming the
      first `w` keys loses it. */
  lemma LaterKeysMakeStale<K, V>(capacity: nat, all: seq<K>, w: nat, forward: K -> Option<V>, n: nat)
    requires 2 <= w <= capacity && |all| == w + capacity - 1 && 1 <= n <= w
    requires Distinct(all) && forall k :: k in all ==> forward(k).Some?
    ensures !HitRunAccepted(Run(Empty(), capacity, Calls([all[0]] + all[w..], forward)), capacity, all[..w], forward, n)
  {
    FirstAndLaterAreDistinct(all, w);
    FillsEmpty(capacity, [all[0]] + all[w..], forward);
    StaleKeyBreaksHitRun(Run(Empty(), capacity, Calls([all[0]] + all[w..], forward)), capacity, all[..w], forward, n);
  }

  // ---- A numbered family of keys ------------------------------------------------------------------

  function Keys<K>(key: nat -> K, n: nat): (keys: seq<K>)
    ensures |keys| == n && forall i :: 0 <= i < n ==> keys[i] == key(i)
  {
    seq(n, i requires 0 <= i => key(i))
  }

  ghost predicate Injective<K>(key: nat -> K) {
    forall i: nat, j: nat :: i != j ==> key(i) != key(j)
  }

  lemma KeysAreDistinct<K>(key: nat -> K, n: nat)
    requires Injective(key)
    ensures Distinct(Keys(key, n))
  {
  }

  /** From a cache free of the first `n` keys, warming them keeps the first `m` exactly if all fit. */
  lemma WarmedPrefixStays<K, V>(c: Cache<K, V>, capacity: nat, key: nat -> K, forward: K -> Option<V>, n: nat, m: nat)
    requires Valid(c, capacity) && Injective(key) && m <= n
    requires Free(c.value, Keys(key, n)) && Obtainable(c.value, Keys(key, n), forward)
    ensures Holds(Run(c, capacity, Calls(Keys(key, n), forward)).value, Keys(key, m)) <==> (m == 0 || n <= capacity)
  {
    KeysAreDistinct(key, n);
    WarmedKeysStayIffTheyFit(c, capacity, Keys(key, n), forward, m);
    assert forall i :: 0 <= i < m ==> Keys(key, m)[i] == Keys(key, n)[i];
  }

  /** Earlier requests: key 0, then others up to the capacity, none of the first `w`. */
  function StaleTraffic<K>(key: nat -> K, capacity: nat, w: nat): seq<K>
    requires w >= 1 && capacity >= 1
  {
    [key(0)] + Keys(key, w + capacity - 1)[w..]
  }

  /** A hit-mode run that warms `w` keys and measures `n` is accepted after these earlier requests. */
  ghost predicate AcceptedAfter<K, V>(
      earlier: seq<(K, Option<V>)>, capacity: nat, key: nat -> K, forward: K -> Option<V>, w: nat, n: nat)
    requires n <= w
  {
    HitRunAccepted(Run(Empty(), capacity, earlier), capacity, Keys(key, w), forward, n)
  }

  /** Key 0 was the first of earlier requests that filled the cache: the warm-up hits it, key 1 pushes
      it out, and the measured window is rejected. */
  lemma StaleKeyBreaksWarmup<K, V>(capacity: nat, key: nat -> K, forward: K -> Option<V>, w: nat, n: nat)
    requires Injective(key) && 2 <= w <= capacity && 1 <= n <= w
    requires forall i: nat :: forward(key(i)).Some?
    ensures !AcceptedAfter(Calls(StaleTraffic(key, capacity, w), forward), capacity, key, forward, w, n)
  {
    var all := Keys(key, w + capacity - 1);
    KeysAreDistinct(key, w + capacity - 1);
    LaterKeysMakeStale(capacity, all, w, forward, n);
    assert all[..w] == Keys(key, w);
  }

  ghost predicate AcceptedAfterAnything<K(!new), V(!new)>(
      capacity: nat, key: nat -> K, forward: K -> Option<V>, w: nat, n: nat)
    requires n <= w
  {
    forall earlier: seq<(K, Option<V>)> :: AcceptedAfter(earlier, capacity, key, forward, w, n)
  }

  /** A hit-mode run is accepted whatever was requested before exactly when it measures nothing or
      warms a single key. */
  lemma AcceptedAfterAnythingIff<K(!new), V(!new)>(
      capacity: nat, key: nat -> K, forward: K -> Option<V>, w: nat, n: nat)
    requires Injective(key) && 1 <= capacity && n <= w
    requires forall i: nat :: forward(key(i)).Some?
    ensures AcceptedAfterAnything(capacity, key, forward, w, n) <==> n == 0 || w == 1
  {
    if n == 0 || w == 1 {
      forall earlier: seq<(K, Option<V>)> ensures AcceptedAfter(earlier, capacity, key, forward, w, n) {
        var none: Cache<K, V> := Empty();
        RunKeepsValid(none, capacity, earlier);
        OneKeyStays(Run(none, capacity, earlier), capacity, Keys(key, w), forward, n);
      }
    } else if w <= capacity {
      StaleKeyBreaksWarmup(capacity, key, forward, w, n);
    } else {
      var none: Cache<K, V> := Empty();
      KeysAreDistinct(key, w);
      assert Run(none, capacity, []) == none;
      HitRunAcceptedIffWarmupFits(none, capacity, Keys(key, w), forward, n);
      assert !AcceptedAfter([], capacity, key, forward, w, n);
    }
  }

  /** What measuring distinct keys counts, and when either check accepts it. */
  lemma WindowOf<K, V>(c: Cache<K, V>, capacity: nat, keys: seq<K>, forward: K -> Option<V>)
    requires Valid(c, capacity) && Distinct(keys)
    ensures
      var after := Run(c, capacity, Calls(keys, forward));
      && (Free(c.value, keys) ==>
            && after.forwards == c.forwards + |keys| && after.hits == c.hits
            && VerifyWindow(MissMode, Counters(c), Counters(after), |keys|))
      && (Holds(c.value, keys) ==> after.hits == c.hits + |keys| && after.forwards == c.forwards)
      && (VerifyWindow(HitMode, Counters(c), Counters(after), |keys|) <==> Holds(c.value, keys))
      && ((forall k :: k in keys ==> forward(k).Some?) ==>
            (VerifyWindow(MissMode, Counters(c), Counters(after), |keys|) <==> Gone(c.order, capacity, keys)))
  {
    if Free(c.value, keys) { FreshKeysMiss(c, capacity, keys, forward); }
    if Holds(c.value, keys) { CachedKeysHit(c, capacity, keys, forward); }
    HitWindowIffCached(c, capacity, keys, forward);
    if forall k :: k in keys ==> forward(k).Some? { MissWindowIffGone(c, capacity, keys, forward); }
  }

  // ---- A run of the benchmark ---------------------------------------------------------------------

  datatype Measurement = Verified | Violation | RequestFailed

  /** A run of the harness against a service that is used by nobody else: its exact cache, what its
      forward answers, and its whitespace. */
  class BenchmarkRun {
    const cache: ExactCache<string, Classification>
    const forward: string -> Option<Classification>
    const space: char -> bool
    const mode: Mode
    const runId: nat
    const seed: string

    constructor (cache: ExactCache<string, Classification>, forward: string -> Option<Classification>,
                 space: char -> bool, mode: Mode, runId: nat, seed: string)
      ensures this.cache == cache && this.forward == forward && this.space == space
      ensures this.mode == mode && this.runId == runId && this.seed == seed
    {
      this.cache, this.forward, this.space := cache, forward, space;
      this.mode, this.runId, this.seed := mode, runId, seed;
    }

    function MeasureKey(i: nat): string {
      Trim(SeededMeasure(seed, runId, i), space)
    }

    function WarmKey(i: nat): string {
      Trim(SeededWarm(mode, seed, runId, i), space)
    }

    function MeasureKeys(n: nat): seq<string> {
      Keys(MeasureKey, n)
    }

    function WarmKeys(n: nat): seq<string> {
      Keys(WarmKey, n)
    }

    lemma MeasureKeyIsInjective()
      requires Whitespace(space)
      ensures Injective(MeasureKey)
    {
      forall i: nat, j: nat | i != j ensures MeasureKey(i) != MeasureKey(j) {
        if MeasureKey(i) == MeasureKey(j) { MeasuredKeysAreDistinct(seed, runId, i, seed, runId, j, space); }
      }
    }

    lemma MeasureKeysAreDistinct(n: nat)
      requires Whitespace(space)
      ensures Distinct(MeasureKeys(n))
    {
      MeasureKeyIsInjective();
      KeysAreDistinct(MeasureKey, n);
    }

    /** One request: the service trims the context and consults its cache; it fails only if a forward fails. */
    method SendOne(context: string) returns (ok: bool)
      requires cache.Ok()
      modifies cache
      ensures cache.Ok()
      ensures cache.Value()
           == Classify(old(cache.Value()), cache.capacity, Trim(context, space), forward(Trim(context, space)))
      ensures ok == (Trim(context, space) in old(cache.entries) || forward(Trim(context, space)).Some?)
    {
      var key := Trim(context, space);
      var result, ran := cache.ClassifyWith(key, forward(key));
      ok := result.Some?;
    }

    lemma MissWarmupKeepsFree(start: Cache<string, Classification>, n: nat, m: nat)
      requires Whitespace(space) && mode.MissMode?
      requires forall k :: k in MeasureKeys(m) ==> k !in start.value
      ensures forall k :: k in MeasureKeys(m) ==> k !in Run(start, cache.capacity, Calls(WarmKeys(n), forward)).value
    {
      var after := Run(start, cache.capacity, Calls(WarmKeys(n), forward));
      forall i | 0 <= i < m ensures MeasureKey(i) !in after.value {
        assert MeasureKeys(m)[i] == MeasureKey(i);
        forall j | 0 <= j < n ensures WarmKey(j) != MeasureKey(i) {
          WarmKeysAreNeverMeasured(seed, runId, j, seed, runId, i, space);
        }
        if MeasureKey(i) in after.value {
          OnlyAskedKeysEnter(start, cache.capacity, WarmKeys(n), forward, MeasureKey(i));
        }
      }
    }

    /**
      Warms `n` keys in order. A miss-mode warm-up leaves measured keys that were absent absent. A
      hit-mode warm-up, whatever keys the cache holds already, keeps all of them and all it warms when
      there is room for the missing ones; and from a cache free of them, they stay exactly if they fit.
     */
    method Warmup(n: nat) returns (ok: bool)
      requires cache.Ok() && Whitespace(space)
      modifies cache
      ensures cache.Ok()
      ensures ok ==> cache.Value() == Run(old(cache.Value()), cache.capacity, Calls(WarmKeys(n), forward))
      ensures !ok ==> exists k :: k in WarmKeys(n) && forward(k).None?
      ensures ok && mode.HitMode? && |old(cache.order)| + Absent(old(cache.entries), WarmKeys(n)) <= cache.capacity ==>
                Holds(cache.entries, MeasureKeys(n)) && forall k :: k in old(cache.entries) ==> k in cache.entries
      ensures ok && mode.HitMode? && Free(old(cache.entries), WarmKeys(n)) ==>
                forall m: nat :: m <= n ==> (Holds(cache.entries, MeasureKeys(m)) <==> (m == 0 || n <= cache.capacity))
      ensures ok && mode.MissMode? ==>
                forall m: nat :: Free(old(cache.entries), MeasureKeys(m)) ==> Free(cache.entries, MeasureKeys(m))
    {
      ghost var start := cache.Value();
      for i := 0 to n
        invariant cache.Ok()
        invariant cache.Value() == Run(start, cache.capacity, Calls(WarmKeys(i), forward))
        invariant Obtainable(start.value, WarmKeys(i), forward)
      {
        if WarmKey(i) in cache.entries {
          OnlyAskedKeysEnter(start, cache.capacity, WarmKeys(i), forward, WarmKey(i));
        }
        ok := SendOne(SeededWarm(mode, seed, runId, i));
        if !ok {
          assert WarmKeys(n)[i] == WarmKey(i);
          return;
        }
        ExtendRun(start, WarmKey, i);
      }
      ok := true;
      if mode.HitMode? {
        HitModeWarmsMeasuredKeys(n);
        WarmupKeeps(start, n);
      }
      if mode.MissMode? {
        forall m: nat | Free(start.value, MeasureKeys(m)) ensures Free(cache.entries, MeasureKeys(m)) {
          MissWarmupKeepsFree(start, n, m);
        }
      }
    }

    lemma ExtendRun(start: Cache<string, Classification>, key: nat -> string, i: nat)
      ensures Keys(key, i + 1) == Keys(key, i) + [key(i)]
      ensures
        var before := Run(start, cache.capacity, Calls(Keys(key, i), forward));
        Run(start, cache.capacity, Calls(Keys(key, i + 1), forward))
        == Classify(before, cache.capacity, key(i), forward(key(i)))
    {
      var keys, k := Keys(key, i), key(i);
      RunAppend(start, cache.capacity, Calls(keys, forward), (k, forward(k)));
      assert Keys(key, i + 1) == keys + [k];
      assert Calls(keys + [k], forward) == Calls(keys, forward) + [(k, forward(k))];
    }

    lemma WarmupKeeps(start: Cache<string, Classification>, n: nat)
      requires Valid(start, cache.capacity) && Whitespace(space) && Obtainable(start.value, MeasureKeys(n), forward)
      ensures
        var after := Run(start, cache.capacity, Calls(MeasureKeys(n), forward));
        && (|start.order| + Absent(start.value, MeasureKeys(n)) <= cache.capacity ==>
              Holds(after.value, MeasureKeys(n)) && forall k :: k in start.value ==> k in after.value)
        && (Free(start.value, MeasureKeys(n)) ==>
              forall m: nat :: m <= n ==> (Holds(after.value, MeasureKeys(m)) <==> (m == 0 || n <= cache.capacity)))
    {
      MeasureKeyIsInjective();
      MeasureKeysAreDistinct(n);
      if |start.order| + Absent(start.value, MeasureKeys(n)) <= cache.capacity {
        RoomKeepsAll(start, cache.capacity, MeasureKeys(n), forward);
      }
      if Free(start.value, MeasureKeys(n)) {
        forall m: nat | m <= n
          ensures Holds(Run(start, cache.capacity, Calls(MeasureKeys(n), forward)).value, MeasureKeys(m))
             <==> (m == 0 || n <= cache.capacity)
        {
          WarmedPrefixStays(start, cache.capacity, MeasureKey, forward, n, m);
        }
      }
    }

    lemma HitModeWarmsMeasuredKeys(n: nat)
      requires mode.HitMode?
      ensures WarmKeys(n) == MeasureKeys(n)
    {
    }

    /** With this run's keys: the warm-up hits key 0, key 1 pushes it out, the measured window is
        rejected, although all that was warmed fits. */
    lemma StaleRunIsRejected(capacity: nat, w: nat, n: nat)
      requires Whitespace(space) && 2 <= w <= capacity && 1 <= n <= w
      requires forall i: nat :: forward(MeasureKey(i)).Some?
      ensures !AcceptedAfter(Calls(StaleTraffic(MeasureKey, capacity, w), forward), capacity, MeasureKey, forward, w, n)
    {
      MeasureKeyIsInjective();
      StaleKeyBreaksWarmup(capacity, MeasureKey, forward, w, n);
    }

    /** A hit-mode run of `w` warmed and `n` measured keys is accepted whatever was requested before
        exactly when it measures nothing or warms a single key; fitting the capacity is not enough. */
    lemma RunIsAcceptedAfterAnythingIff(capacity: nat, w: nat, n: nat)
      requires Whitespace(space) && 1 <= capacity && n <= w
      requires forall i: nat :: forward(MeasureKey(i)).Some?
      ensures AcceptedAfterAnything(capacity, MeasureKey, forward, w, n) <==> n == 0 || w == 1
    {
      MeasureKeyIsInjective();
      AcceptedAfterAnythingIff(capacity, MeasureKey, forward, w, n);
    }

    /** The measured requests, in order. */
    method SendMeasured(n: nat) returns (ok: bool)
      requires cache.Ok()
      modifies cache
      ensures cache.Ok()
      ensures !ok ==> exists k :: k in MeasureKeys(n) && forward(k).None?
      ensures ok ==> cache.Value() == Run(old(cache.Value()), cache.capacity, Calls(MeasureKeys(n), forward))
    {
      ghost var start := cache.Value();
      for i := 0 to n
        invariant cache.Ok()
        invariant cache.Value() == Run(start, cache.capacity, Calls(MeasureKeys(i), forward))
      {
        ok := SendOne(SeededMeasure(seed, runId, i));
        if !ok {
          assert MeasureKeys(n)[i] == MeasureKey(i);
          return;
        }
        ExtendRun(start, MeasureKey, i);
      }
      ok := true;
    }

    lemma MeasuredWindow(start: Cache<string, Classification>, n: nat)
      requires Valid(start, cache.capacity) && Whitespace(space)
      ensures
        var keys := MeasureKeys(n);
        var after := Run(start, cache.capacity, Calls(keys, forward));
        && (Free(start.value, keys) ==>
              && after.forwards == start.forwards + n && after.hits == start.hits
              && VerifyWindow(MissMode, Counters(start), Counters(after), n))
        && (Holds(start.value, keys) ==> after.hits == start.hits + n && after.forwards == start.forwards)
        && (VerifyWindow(HitMode, Counters(start), Counters(after), n) <==> Holds(start.value, keys))
        && ((forall k :: k in keys ==> forward(k).Some?) ==>
              (VerifyWindow(MissMode, Counters(start), Counters(after), n)
               <==> Gone(start.order, cache.capacity, keys)))
    {
      MeasureKeysAreDistinct(n);
      WindowOf(start, cache.capacity, MeasureKeys(n), forward);
    }

    /**
      Measures `n` requests and checks the window. From a cache free of the measured keys it is `n`
      misses and no hit, from one that holds them `n` hits and no miss. The hit-mode check accepts
      exactly when they are all held; the miss-mode check exactly when each has left the queue by its
      turn.
     */
    method Measure(n: nat) returns (r: Measurement)
      requires cache.Ok() && Whitespace(space)
      modifies cache
      ensures cache.Ok()
      ensures r.RequestFailed? ==> exists k :: k in MeasureKeys(n) && forward(k).None?
      ensures !r.RequestFailed? ==>
                cache.Value() == Run(old(cache.Value()), cache.capacity, Calls(MeasureKeys(n), forward))
      ensures Free(old(cache.entries), MeasureKeys(n)) && !r.RequestFailed? ==>
                && cache.forwardCount == old(cache.forwardCount) + n && cache.hitCount == old(cache.hitCount)
                && (mode.MissMode? ==> r.Verified?)
      ensures Holds(old(cache.entries), MeasureKeys(n)) && !r.RequestFailed? ==>
                cache.hitCount == old(cache.hitCount) + n && cache.forwardCount == old(cache.forwardCount)
      ensures mode.HitMode? && !r.RequestFailed? ==>
                (r.Verified? <==> Holds(old(cache.entries), MeasureKeys(n)))
      ensures mode.MissMode? && (forall k :: k in MeasureKeys(n) ==> forward(k).Some?) ==>
                (r.Verified? <==> Gone(old(cache.order), cache.capacity, MeasureKeys(n)))
    {
      ghost var start := cache.Value();
      var before := TakeSnapshot();
      var ok := SendMeasured(n);
      if !ok { return RequestFailed; }
      MeasuredWindow(start, n);
      var after := TakeSnapshot();
      assert before == Counters(start) && after == Counters(Run(start, cache.capacity, Calls(MeasureKeys(n), forward)));
      r := if VerifyWindow(mode, before, after, n) then Verified else Violation;
    }

    method TakeSnapshot() returns (s: Snapshot)
      ensures s == Counters(cache.Value())
    {
      s := Snapshot(cache.hitCount, cache.forwardCount, 0);
    }
  }

  // ---- Splitting a concurrent measurement ---------------------------------------------------------

  function Product(base: nat, w: nat): nat {
    if w == 0 then 0 else Product(base, w - 1) + base
  }

  lemma {:induction false} ProductIsTimes(base: nat, w: nat)
    ensures Product(base, w) == base * w
  {
    if w > 0 {
      ProductIsTimes(base, w - 1);
      assert base * w == base * (w - 1) + base;
    }
  }

  method Divide(n: nat, workers: nat) returns (base: nat, extra: nat)
    requires workers >= 1
    ensures Product(base, workers) + extra == n && extra < workers
  {
    base, extra := n / workers, n % workers;
    ProductIsTimes(base, workers);
  }

  /** The index ranges the workers measure: they tile 0..n in order, and their sizes differ by at most one. */
  method SplitRanges(n: nat, concurrency: nat) returns (ranges: seq<(int, int)>)
    ensures |ranges| == if concurrency == 0 then 1 else concurrency
    ensures ranges[0].0 == 0 && ranges[|ranges| - 1].1 == n
    ensures forall w :: 0 <= w < |ranges| - 1 ==> ranges[w].1 == ranges[w + 1].0
    ensures forall w, v :: 0 <= w < v < |ranges| ==>
              0 <= ranges[v].1 - ranges[v].0 <= ranges[w].1 - ranges[w].0 <= ranges[v].1 - ranges[v].0 + 1
  {
    var workers := if concurrency == 0 then 1 else concurrency;
    var base, extra := Divide(n, workers);
    var start := 0;
    ranges := [];
    for w := 0 to workers
      invariant |ranges| == w
      invariant start == Product(base, w) + if w < extra then w else extra
      invariant w > 0 ==> ranges[0].0 == 0 && ranges[w - 1].1 == start
      invariant forall v :: 0 <= v < w - 1 ==> ranges[v].1 == ranges[v + 1].0
      invariant forall v :: 0 <= v < w ==> ranges[v].1 - ranges[v].0 == base + if v < extra then 1 else 0
    {
      var end := start + base + if w < extra then 1 else 0;
      ranges := ranges + [(start, end)];
      start := end;
    }
  }
}
