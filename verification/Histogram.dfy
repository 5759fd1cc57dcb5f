/** The fixed-memory logarithmic latency histogram, and the exact percentile it approximates. */
module Histograms {

  /** Octaves, and buckets at eight to the octave. */
  const OCTAVES: nat := 41
  const BUCKETS: nat := 328

  // ---- Bucket arithmetic --------------------------------------------------------------------------

  /** `us >> n` and `v << n`, without overflow. */
  function ShiftRight(us: nat, n: nat): nat {
    if n == 0 then us else ShiftRight(us / 2, n - 1)
  }

  function ShiftLeft(v: nat, n: nat): nat {
    if n == 0 then v else 2 * ShiftLeft(v, n - 1)
  }

  /** The position of the leading one bit: 63 minus the leading zeros of a 64-bit number. */
  function Octave(us: nat): nat
    requires us >= 1
  {
    if us == 1 then 0 else 1 + Octave(us / 2)
  }

  /** The octave, then the three bits below the leading one; the last bucket takes all the rest. */
  function Index(us: nat): (i: nat)
    ensures i < BUCKETS
  {
    if us < 8 then us
    else
      LeadingBits(us);
      var sub := ShiftRight(us, Octave(us) - 3) % 8;
      var i := Octave(us) * 8 + sub;
      if i < BUCKETS then i else BUCKETS - 1
  }

  function LowerBound(i: nat): nat
    requires i < 8 || i >= 24
  {
    if i < 8 then i else ShiftLeft(8 + i % 8, i / 8 - 3)
  }

  /** The leading four bits of a value above seven. */
  lemma {:induction false} LeadingBits(us: nat)
    requires us >= 8
    ensures Octave(us) >= 3
    ensures 8 <= ShiftRight(us, Octave(us) - 3) <= 15
  {
    if us < 16 {
      assert Octave(us / 2 / 2) == 1 + Octave(us / 2 / 2 / 2) && us / 2 / 2 / 2 == 1;
      assert Octave(us) == 2 + Octave(us / 2 / 2);
    } else {
      LeadingBits(us / 2);
    }
  }

  lemma {:induction false} ShiftBackAndForth(us: nat, n: nat)
    ensures ShiftLeft(ShiftRight(us, n), n) <= us < ShiftLeft(ShiftRight(us, n) + 1, n)
  {
    if n > 0 { ShiftBackAndForth(us / 2, n - 1); }
  }

  lemma {:induction false} ShiftForthAndBack(v: nat, n: nat)
    ensures ShiftRight(ShiftLeft(v, n), n) == v
  {
    if n > 0 { ShiftForthAndBack(v, n - 1); }
  }

  lemma {:induction false} ShiftRightMonotone(a: nat, b: nat, n: nat)
    requires a <= b
    ensures ShiftRight(a, n) <= ShiftRight(b, n)
  {
    if n > 0 { ShiftRightMonotone(a / 2, b / 2, n - 1); }
  }

  lemma {:induction false} ShiftLeftLinear(v: nat, w: nat, n: nat)
    ensures ShiftLeft(v + w, n) == ShiftLeft(v, n) + ShiftLeft(w, n)
  {
    if n > 0 { ShiftLeftLinear(v, w, n - 1); }
  }

  lemma {:induction false} OctaveOfShift(v: nat, n: nat)
    requires v >= 1
    ensures ShiftLeft(v, n) >= 1 && Octave(ShiftLeft(v, n)) == Octave(v) + n
  {
    if n > 0 { OctaveOfShift(v, n - 1); }
  }

  lemma {:induction false} OctaveMonotone(a: nat, b: nat)
    requires 1 <= a <= b
    ensures Octave(a) <= Octave(b)
  {
    if a > 1 { OctaveMonotone(a / 2, b / 2); }
  }

  /** The octave counts doublings: it reaches `n` at two to the power `n`. */
  lemma {:induction false} OctaveReaches(us: nat, n: nat)
    requires us >= 1
    ensures Octave(us) >= n <==> us >= ShiftLeft(1, n)
  {
    if n > 0 && us > 1 { OctaveReaches(us / 2, n - 1); }
    if n > 0 { OctaveOfShift(1, n - 1); }
  }

  /** The bucket of a value above seven, in terms of its octave and its leading four bits. */
  lemma IndexIsOctaveAndPlace(us: nat, octave: nat, lead: nat)
    requires us >= 8 && octave == Octave(us) && octave >= 3 && lead == ShiftRight(us, octave - 3) && 8 <= lead < 16
    ensures Index(us) == var i := 8 * octave + lead - 8; if i < BUCKETS then i else BUCKETS - 1
  {
    assert lead % 8 == lead - 8;
  }

  /** Larger latencies never fall into earlier buckets. */
  lemma IndexMonotone(a: nat, b: nat)
    requires a <= b
    ensures Index(a) <= Index(b)
  {
    if b >= 8 {
      LeadingBits(b);
      IndexIsOctaveAndPlace(b, Octave(b), ShiftRight(b, Octave(b) - 3));
      if a >= 8 {
        LeadingBits(a);
        IndexIsOctaveAndPlace(a, Octave(a), ShiftRight(a, Octave(a) - 3));
        OctaveMonotone(a, b);
        if Octave(a) == Octave(b) { ShiftRightMonotone(a, b, Octave(a) - 3); }
      }
    }
  }

  /** No latency lands in buckets 8 to 23, so the lower bound of a populated bucket is defined. */
  lemma IndexAvoidsGap(us: nat)
    ensures Index(us) < 8 || Index(us) >= 24
  {
    if us >= 8 { LeadingBits(us); }
  }

  /** The lower bound of a bucket lies in that bucket. */
  lemma LowerBoundInBucket(i: nat)
    requires i < 8 || 24 <= i < BUCKETS
    ensures Index(LowerBound(i)) == i
  {
    if i >= 8 {
      var lead, octave := 8 + i % 8, i / 8;
      assert LowerBound(i) == ShiftLeft(lead, octave - 3) && i == 8 * octave + lead - 8;
      StartOfLead(lead, octave - 3);
      IndexIsOctaveAndPlace(LowerBound(i), octave, lead);
    }
  }

  lemma StartOfLead(lead: nat, n: nat)
    requires 8 <= lead < 16
    ensures
      var us := ShiftLeft(lead, n);
      us >= 8 && Octave(us) == n + 3 && ShiftRight(us, n) == lead
  {
    assert lead / 2 / 2 / 2 == 1;
    assert Octave(lead / 2 / 2) == 1;
    assert Octave(lead) == 3;
    OctaveOfShift(lead, n);
    ShiftForthAndBack(lead, n);
    ShiftLeftGrows(lead, n);
  }

  lemma {:induction false} ShiftLeftGrows(v: nat, n: nat)
    ensures ShiftLeft(v, n) >= v
  {
    if n > 0 { ShiftLeftGrows(v, n - 1); }
  }

  lemma {:induction false} Eightfold(n: nat)
    ensures ShiftLeft(8, n) == 8 * ShiftLeft(1, n)
  {
    if n > 0 { Eightfold(n - 1); }
  }

  /** A value differs from its leading bits, four or more, by less than an eighth of them. */
  lemma KeptBitsAreClose(us: nat, n: nat)
    requires ShiftRight(us, n) >= 8
    ensures
      var kept := ShiftLeft(ShiftRight(us, n), n);
      kept <= us && 8 * (us - kept) < kept
  {
    ShiftBackAndForth(us, n);
    WithinEighth(us, ShiftRight(us, n), n);
  }

  lemma WithinEighth(us: nat, q: nat, n: nat)
    requires q >= 8 && ShiftLeft(q, n) <= us < ShiftLeft(q + 1, n)
    ensures 8 * (us - ShiftLeft(q, n)) < ShiftLeft(q, n)
  {
    ShiftLeftLinear(q, 1, n);
    ShiftLeftLinear(8, q - 8, n);
    Eightfold(n);
  }

  /** Two to the power 41: from here on everything is in the last bucket. */
  const LIMIT: nat := 0x200_0000_0000

  lemma LastBucket(us: nat)
    requires us >= 8
    ensures Octave(us) >= OCTAVES <==> us >= LIMIT
    ensures us >= LIMIT ==> LowerBound(BUCKETS - 1) <= us
  {
    OctaveReaches(us, OCTAVES);
    LimitIsPower();
    LastBucketStart();
  }

  lemma LimitIsPower()
    ensures ShiftLeft(1, OCTAVES) == LIMIT
  {
    EightPlaces(1, 33);
    EightPlaces(1, 25);
    EightPlaces(1, 17);
    EightPlaces(1, 9);
    EightPlaces(1, 1);
  }

  lemma LastBucketStart()
    ensures LowerBound(BUCKETS - 1) == 0x1E0_0000_0000
  {
    EightPlaces(15, 29);
    EightPlaces(15, 21);
    EightPlaces(15, 13);
    EightPlaces(15, 5);
    assert ShiftLeft(15, 2) == 60 && ShiftLeft(15, 4) == 240;
  }

  lemma EightPlaces(v: nat, n: nat)
    ensures ShiftLeft(v, n + 8) == 256 * ShiftLeft(v, n)
  {
    assert ShiftLeft(v, n + 2) == 4 * ShiftLeft(v, n);
    assert ShiftLeft(v, n + 4) == 4 * ShiftLeft(v, n + 2);
    assert ShiftLeft(v, n + 6) == 4 * ShiftLeft(v, n + 4);
  }

  /** A latency's bucket starts at or below it and owns its own start; below 2^41 microseconds it
      starts within an eighth of the start, and below eight exactly at the latency. */
  lemma LowerBoundIsClose(us: nat)
    ensures Index(us) < 8 || Index(us) >= 24
    ensures LowerBound(Index(us)) <= us
    ensures Index(LowerBound(Index(us))) == Index(us)
    ensures us < 8 ==> LowerBound(Index(us)) == us
    ensures 8 <= us < LIMIT ==> 8 * (us - LowerBound(Index(us))) < LowerBound(Index(us))
  {
    IndexAvoidsGap(us);
    LowerBoundInBucket(Index(us));
    if us >= 8 {
      LastBucket(us);
      LeadingBits(us);
      if us < LIMIT { LowerBoundIsCloseBelowLimit(us, Octave(us), ShiftRight(us, Octave(us) - 3)); }
    }
  }

  lemma LowerBoundIsCloseBelowLimit(us: nat, octave: nat, lead: nat)
    requires us >= 8 && octave == Octave(us) && 3 <= octave < OCTAVES
    requires lead == ShiftRight(us, octave - 3) && 8 <= lead < 16
    ensures Index(us) >= 24
    ensures var start := LowerBound(Index(us)); start <= us && 8 * (us - start) < start
  {
    LowerBoundOfParts(us, octave, lead);
    KeptBitsAreClose(us, octave - 3);
  }

  lemma LowerBoundOfParts(us: nat, octave: nat, lead: nat)
    requires us >= 8 && octave == Octave(us) && 3 <= octave < OCTAVES
    requires lead == ShiftRight(us, octave - 3) && 8 <= lead < 16
    ensures Index(us) >= 24 && LowerBound(Index(us)) == ShiftLeft(lead, octave - 3)
  {
    IndexIsOctaveAndPlace(us, octave, lead);
    LowerBoundAt(8 * octave + lead - 8, octave, lead);
  }

  lemma LowerBoundAt(i: nat, octave: nat, lead: nat)
    requires octave >= 3 && 8 <= lead < 16 && i == 8 * octave + lead - 8
    ensures i >= 24 && LowerBound(i) == ShiftLeft(lead, octave - 3)
  {
    assert i / 8 == octave && i % 8 == lead - 8;
  }

  lemma LowerBoundMonotone(i: nat, j: nat)
    requires i <= j < BUCKETS
    requires i < 8 || i >= 24
    requires j < 8 || j >= 24
    ensures LowerBound(i) <= LowerBound(j)
  {
    LowerBoundInBucket(i);
    LowerBoundInBucket(j);
    if LowerBound(j) <= LowerBound(i) { IndexMonotone(LowerBound(j), LowerBound(i)); }
  }

  // ---- Nearest rank -------------------------------------------------------------------------------

  ghost predicate Sorted(s: seq<nat>) {
    forall i, j :: 0 <= i < j < |s| ==> s[i] <= s[j]
  }

  function Insort(x: nat, s: seq<nat>): (r: seq<nat>)
    requires Sorted(s)
    ensures Sorted(r) && |r| == |s| + 1
    ensures forall y :: y in r ==> y == x || y in s
  {
    if s == [] || x <= s[0] then [x] + s
    else
      var rest := Insort(x, s[1..]);
      assert forall y :: y in s[1..] ==> s[0] <= y;
      assert forall i :: 0 <= i < |rest| ==> s[0] <= rest[i] by {
        forall i | 0 <= i < |rest| ensures s[0] <= rest[i] {
          assert rest[i] in rest;
        }
      }
      [s[0]] + rest
  }

  /** The samples in ascending order. */
  function Sort(s: seq<nat>): (r: seq<nat>)
    ensures Sorted(r) && |r| == |s|
  {
    if s == [] then [] else Insort(s[|s| - 1], Sort(s[..|s| - 1]))
  }

  lemma {:induction false} InsortPermutes(x: nat, s: seq<nat>)
    requires Sorted(s)
    ensures multiset(Insort(x, s)) == multiset(s) + multiset{x}
  {
    if s != [] && x > s[0] {
      InsortPermutes(x, s[1..]);
      assert s == [s[0]] + s[1..];
    }
  }

  lemma {:induction false} SortPermutes(s: seq<nat>)
    ensures multiset(Sort(s)) == multiset(s)
    ensures forall x :: x in Sort(s) <==> x in s
  {
    if s != [] {
      SortPermutes(s[..|s| - 1]);
      InsortPermutes(s[|s| - 1], Sort(s[..|s| - 1]));
      assert s == s[..|s| - 1] + [s[|s| - 1]];
    }
    forall x ensures x in Sort(s) <==> x in s {
      assert x in Sort(s) <==> x in multiset(Sort(s));
    }
  }

  function Ceil(x: real): int {
    -((-x).Floor)
  }

  /** The rank that a fractional position `x` among `n` samples asks for: the first at or past it. */
  function NearestRank(n: nat, x: real): (k: nat)
    requires n >= 1
    ensures 1 <= k <= n
    ensures k > 1 ==> (k - 1) as real < x
    ensures k < n ==> x <= k as real
  {
    if n > 1 && x <= (n - 1) as real then NearestRank(n - 1, x) else n
  }

  /** It is the position rounded up, between one and `n`. */
  lemma NearestRankRoundsUp(n: nat, x: real)
    requires n >= 1
    ensures NearestRank(n, x) == if Ceil(x) < 1 then 1 else if Ceil(x) < n then Ceil(x) else n
  {
    var k, c := NearestRank(n, x), Ceil(x);
    assert x <= c as real < x + 1.0;
  }

  lemma {:induction false} NearestRankMonotone(n: nat, x: real, y: real)
    requires n >= 1 && x <= y
    ensures NearestRank(n, x) <= NearestRank(n, y)
  {
    if n > 1 { NearestRankMonotone(n - 1, x, y); }
  }

  /** `n` times `q`, as a sum. */
  function Times(n: nat, q: real): (x: real)
    ensures 0.0 <= q <= 1.0 ==> 0.0 <= x <= n as real
  {
    if n == 0 then 0.0 else Times(n - 1, q) + q
  }

  lemma {:induction false} TimesIsProduct(n: nat, q: real, x: real)
    requires x == n as real * q
    ensures Times(n, q) == x
  {
    if n > 0 {
      assert n as real == (n - 1) as real + 1.0;
      TimesIsProduct(n - 1, q, x - q);
    }
  }

  lemma {:induction false} TimesMonotone(n: nat, p: real, q: real)
    requires p <= q
    ensures Times(n, p) <= Times(n, q)
  {
    if n > 0 { TimesMonotone(n - 1, p, q); }
  }

  /** The exact nearest-rank percentile of a benchmark's sorted samples. */
  function Percentile(sorted: seq<nat>, p: nat): nat {
    if sorted == [] then 0
    else
      AtRank(sorted, Ceil(Times(|sorted|, p as real / 100.0)))
  }

  /** The sample of a rank; ranks before the first and past the last ask for those. */
  function AtRank(sorted: seq<nat>, rank: int): nat
    requires sorted != []
  {
    var before := if rank < 1 then 0 else rank - 1;
    sorted[if before < |sorted| - 1 then before else |sorted| - 1]
  }

  /** How many samples fall into a bucket before `i`. */
  function Below(s: seq<nat>, i: nat): (n: nat)
    ensures n <= |s|
  {
    if s == [] then 0 else Below(s[..|s| - 1], i) + if Index(s[|s| - 1]) < i then 1 else 0
  }

  lemma OneMoreInBucket(s: seq<nat>, us: nat, i: nat)
    ensures InBucket(s + [us], i) == InBucket(s, i) + if Index(us) == i then 1 else 0
  {
    assert (s + [us])[..|s|] == s;
  }

  /** How many samples fall into bucket `i`. */
  function InBucket(s: seq<nat>, i: nat): nat {
    if s == [] then 0 else InBucket(s[..|s| - 1], i) + if Index(s[|s| - 1]) == i then 1 else 0
  }

  lemma {:induction false} BelowStep(s: seq<nat>, i: nat)
    ensures Below(s, i + 1) == Below(s, i) + InBucket(s, i)
  {
    if s != [] { BelowStep(s[..|s| - 1], i); }
  }

  lemma {:induction false} BelowEnds(s: seq<nat>)
    ensures Below(s, 0) == 0 && Below(s, BUCKETS) == |s|
  {
    if s != [] { BelowEnds(s[..|s| - 1]); }
  }

  /** A bucket that holds something is not in the gap. */
  lemma {:induction false} PopulatedAvoidsGap(s: seq<nat>, i: nat)
    requires InBucket(s, i) > 0
    ensures i < BUCKETS && (i < 8 || i >= 24)
  {
    if Index(s[|s| - 1]) == i { IndexAvoidsGap(s[|s| - 1]); } else { PopulatedAvoidsGap(s[..|s| - 1], i); }
  }

  lemma {:induction false} BelowOfInsort(x: nat, s: seq<nat>, i: nat)
    requires Sorted(s)
    ensures Below(Insort(x, s), i) == Below(s, i) + if Index(x) < i then 1 else 0
  {
    if s == [] {
      assert ([x] + s)[..0] == [];
    } else if x <= s[0] {
      BelowFront(x, s, i);
    } else {
      BelowOfInsort(x, s[1..], i);
      BelowFront(s[0], s[1..], i);
      BelowFront(s[0], Insort(x, s[1..]), i);
      assert s == [s[0]] + s[1..];
    }
  }

  lemma {:induction false} BelowFront(x: nat, s: seq<nat>, i: nat)
    ensures Below([x] + s, i) == Below(s, i) + if Index(x) < i then 1 else 0
  {
    if s == [] {
      assert ([x] + s)[..0] == [];
    } else {
      BelowFront(x, s[..|s| - 1], i);
      assert ([x] + s)[..|s|] == [x] + s[..|s| - 1];
    }
  }

  lemma {:induction false} SortKeepsBelow(s: seq<nat>, i: nat)
    ensures Below(Sort(s), i) == Below(s, i)
  {
    if s != [] {
      SortKeepsBelow(s[..|s| - 1], i);
      BelowOfInsort(s[|s| - 1], Sort(s[..|s| - 1]), i);
    }
  }

  /** In ascending order, the samples before bucket `i` come first. */
  lemma {:induction false} BelowIsPrefix(t: seq<nat>, i: nat, k: nat)
    requires Sorted(t) && k < |t|
    ensures Index(t[k]) < i <==> k < Below(t, i)
  {
    var n := |t| - 1;
    IndexMonotone(t[k], t[n]);
    if k < n { BelowIsPrefix(t[..n], i, k); }
    if Index(t[n]) < i { AllBelow(t, i); }
  }

  lemma {:induction false} AllBelow(t: seq<nat>, i: nat)
    requires Sorted(t) && t != [] && Index(t[|t| - 1]) < i
    ensures Below(t, i) == |t|
  {
    var n := |t| - 1;
    if n > 0 {
      IndexMonotone(t[n - 1], t[n]);
      AllBelow(t[..n], i);
    }
  }

  /** The `k`-th smallest sample. */
  function Smallest(samples: seq<nat>, k: nat): nat
    requires 1 <= k <= |samples|
  {
    Sort(samples)[k - 1]
  }

  /** The start of a sample's bucket. */
  function BucketStart(us: nat): nat {
    IndexAvoidsGap(us);
    LowerBound(Index(us))
  }

  /** What the histogram should report: the start of the bucket of the exact nearest-rank sample. */
  function QuantileOf(samples: seq<nat>, q: real): nat
    requires 0.0 <= q <= 1.0
  {
    QuantileAt(samples, Times(|samples|, q))
  }

  function QuantileAt(samples: seq<nat>, x: real): nat {
    if samples == [] then 0 else BucketStart(Smallest(samples, NearestRank(|samples|, x)))
  }

  /** The scan over cumulative counts stops exactly at the bucket of the `k`-th smallest sample. */
  lemma ScanStopsAtRank(samples: seq<nat>, k: nat, i: nat)
    requires 1 <= k <= |samples|
    ensures Below(samples, i) < k <==> i <= Index(Smallest(samples, k))
  {
    var sorted := Sort(samples);
    SortKeepsBelow(samples, i);
    BelowIsPrefix(sorted, i, k - 1);
    assert Index(sorted[k - 1]) < i <==> k - 1 < Below(samples, i);
  }

  /** One step of the scan: when the running total first reaches the rank, this bucket is the answer. */
  lemma ScanStep(samples: seq<nat>, k: nat, i: nat)
    requires 1 <= k <= |samples| && Below(samples, i) < k
    ensures Below(samples, i + 1) == Below(samples, i) + InBucket(samples, i)
    ensures Below(samples, i + 1) >= k ==> (i < 8 || i >= 24) && BucketStart(Smallest(samples, k)) == LowerBound(i)
  {
    BelowStep(samples, i);
    ScanStopsAtRank(samples, k, i);
    ScanStopsAtRank(samples, k, i + 1);
    if InBucket(samples, i) > 0 { PopulatedAvoidsGap(samples, i); }
  }

  lemma SortedPercentile(samples: seq<nat>, p: nat, x: real)
    requires samples != [] && x == Times(|samples|, p as real / 100.0)
    ensures Percentile(Sort(samples), p) == Smallest(samples, NearestRank(|samples|, x))
    ensures Percentile(Sort(samples), p) in samples
  {
    SortPermutes(samples);
    NearestRankRoundsUp(|samples|, x);
    assert Percentile(Sort(samples), p) in Sort(samples);
  }

  /** The benchmark's percentile is the sample of the rank that `n` times `p` percent, rounded up, asks for. */
  lemma PercentileIsNearestRank(samples: seq<nat>, p: nat, q: real, x: real)
    requires samples != [] && q == p as real / 100.0 && x == |samples| as real * q
    ensures Percentile(Sort(samples), p) == Smallest(samples, NearestRank(|samples|, x))
  {
    TimesIsProduct(|samples|, q, x);
    SortedPercentile(samples, p, x);
  }

  /** The histogram's quantile is the start of the bucket of the sample of the rank that `n` times `q`,
      rounded up, asks for. */
  lemma QuantileIsNearestRank(samples: seq<nat>, q: real, x: real)
    requires 0.0 <= q <= 1.0 && x == |samples| as real * q
    ensures QuantileOf(samples, q) == QuantileAt(samples, x)
  {
    TimesIsProduct(|samples|, q, x);
  }

  /**
    The histogram's quantile refines the exact percentile of the same samples: never above it, equal
    below eight microseconds, and within an eighth of itself up to 2^41 microseconds.
   */
  lemma QuantileWithinEighthOfPercentile(samples: seq<nat>, p: nat)
    requires samples != [] && p <= 100
    ensures
      var exact := Percentile(Sort(samples), p);
      var reported := QuantileOf(samples, p as real / 100.0);
      && exact in samples
      && Index(reported) == Index(exact)
      && reported <= exact
      && (exact < 8 ==> reported == exact)
      && (8 <= exact < LIMIT ==> 8 * (exact - reported) < reported)
  {
    SortedPercentile(samples, p, Times(|samples|, p as real / 100.0));
    LowerBoundIsClose(Percentile(Sort(samples), p));
  }

  lemma QuantileAtMonotone(samples: seq<nat>, x: real, y: real)
    requires x <= y && samples != []
    ensures QuantileAt(samples, x) <= QuantileAt(samples, y)
  {
    NearestRankMonotone(|samples|, x, y);
    var a, b := Smallest(samples, NearestRank(|samples|, x)), Smallest(samples, NearestRank(|samples|, y));
    assert a <= b;
    IndexMonotone(a, b);
    IndexAvoidsGap(a);
    IndexAvoidsGap(b);
    LowerBoundMonotone(Index(a), Index(b));
  }

  lemma QuantileAtBelowGreatest(samples: seq<nat>, x: real, greatest: nat)
    requires forall s :: s in samples ==> s <= greatest
    ensures QuantileAt(samples, x) <= greatest
  {
    if samples != [] {
      var s := Smallest(samples, NearestRank(|samples|, x));
      LowerBoundIsClose(s);
      SortPermutes(samples);
      assert s in Sort(samples);
    }
  }

  /** Reported percentiles are ordered, and the greatest sample is above them all. */
  lemma QuantilesAreMonotone(samples: seq<nat>, p: real, q: real, greatest: nat)
    requires 0.0 <= p <= q <= 1.0
    requires forall s :: s in samples ==> s <= greatest
    ensures QuantileOf(samples, p) <= QuantileOf(samples, q) <= greatest
  {
    var n := |samples|;
    TimesMonotone(n, p, q);
    if n > 0 { QuantileAtMonotone(samples, Times(n, p), Times(n, q)); }
    QuantileAtBelowGreatest(samples, Times(n, q), greatest);
  }

  // ---- The histogram itself -----------------------------------------------------------------------

  datatype Percentiles = Percentiles(p50: nat, p95: nat, p99: nat, greatest: nat, count: nat)

  class Histogram {
    const buckets: array<nat>
    var count: nat
    var maxUs: nat
    ghost var samples: seq<nat>

    ghost predicate Ok()
      reads this, buckets
    {
      && buckets.Length == BUCKETS
      && count == |samples|
      && (forall i :: 0 <= i < BUCKETS ==> buckets[i] == InBucket(samples, i))
      && (forall x :: x in samples ==> x <= maxUs)
      && (if samples == [] then maxUs == 0 else maxUs in samples)
    }

    constructor ()
      ensures Ok() && samples == [] && fresh(buckets)
    {
      buckets := new nat[BUCKETS](_ => 0);
      count, maxUs, samples := 0, 0, [];
    }

    method Record(us: nat)
      requires Ok()
      modifies this, buckets
      ensures Ok() && samples == old(samples) + [us]
    {
      var i := Index(us);
      buckets[i] := buckets[i] + 1;
      count := count + 1;
      if us > maxUs { maxUs := us; }
      samples := samples + [us];
      forall j | 0 <= j < BUCKETS ensures buckets[j] == InBucket(samples, j) { OneMoreInBucket(old(samples), us, j); }
    }

    /** The running total reaches the rank at the bucket of the nearest-rank sample; the loop never
        falls through to the maximum, and never asks for the bound of an empty bucket. */
    method Quantile(q: real) returns (us: nat)
      requires Ok() && 0.0 <= q <= 1.0
      ensures us == QuantileOf(samples, q)
    {
      if count == 0 { return 0; }
      var target := Target(q);
      var cumulative := 0;
      us := maxUs;
      BelowEnds(samples);
      for i := 0 to BUCKETS
        invariant cumulative == Below(samples, i)
        invariant cumulative < target
      {
        cumulative := cumulative + buckets[i];
        ScanStep(samples, target, i);
        if cumulative >= target {
          return LowerBound(i);
        }
      }
      assert false;
    }

    /** A fraction of at most one never asks for more than there is, so the code need not clamp it. */
    method Target(q: real) returns (target: nat)
      requires count >= 1 && 0.0 <= q <= 1.0
      ensures target == NearestRank(count, Times(count, q))
    {
      var position := Position(q);
      target := if Ceil(position) < 1 then 1 else Ceil(position);
      NearestRankRoundsUp(count, position);
    }

    method Position(q: real) returns (x: real)
      ensures x == Times(count, q)
    {
      x := count as real * q;
      TimesIsProduct(count, q, x);
    }

    method StagePercentiles() returns (p: Percentiles)
      requires Ok()
      ensures p.p50 == QuantileOf(samples, 0.5) && p.p95 == QuantileOf(samples, 0.95)
      ensures p.p99 == QuantileOf(samples, 0.99) && p.greatest == maxUs && p.count == |samples|
      ensures p.p50 <= p.p95 <= p.p99 <= p.greatest
    {
      var p50 := Quantile(0.5);
      var p95 := Quantile(0.95);
      var p99 := Quantile(0.99);
      QuantilesAreMonotone(samples, 0.5, 0.95, maxUs);
      QuantilesAreMonotone(samples, 0.95, 0.99, maxUs);
      p := Percentiles(p50, p95, p99, maxUs, count);
    }
  }
}
