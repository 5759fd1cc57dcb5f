/** The approximate text cache (L0): a bounded ring of entries behind a band index. */
module TextCaches {
  import opened Types
  import opened Prefilter

  datatype Entry = Entry(sig: Signature, identity: Text, result: Classification)

  type Index = map<u64, seq<nat>>

  /** Band key to entry ids, the ring of entries, and the slot to overwrite next once full. */
  datatype TextCache = TextCache(index: Index, entries: seq<Entry>, cursor: nat)

  function NoEntries(): TextCache {
    TextCache(map[], [], 0)
  }

  // ---- The band index -----------------------------------------------------------------------------

  function Ids(index: Index, key: u64): seq<nat> {
    if key in index then index[key] else []
  }

  function Without(s: seq<nat>, id: nat): seq<nat> {
    if s == [] then []
    else (if s[0] == id then [] else [s[0]]) + Without(s[1..], id)
  }

  /** Push `id` under each key, as often as the key occurs. */
  function AddKeys(index: Index, keys: seq<u64>, id: nat): Index
    decreases |keys|
  {
    if keys == [] then index
    else AddKeys(index[keys[0] := Ids(index, keys[0]) + [id]], keys[1..], id)
  }

  /** Retain everything but `id` under each key that is present. */
  function DropKeys(index: Index, keys: seq<u64>, id: nat): Index
    decreases |keys|
  {
    if keys == [] then index
    else DropKeys(if keys[0] in index then index[keys[0] := Without(index[keys[0]], id)] else index, keys[1..], id)
  }

  /** How often `id` is filed under `key`. */
  function Filed(index: Index, key: u64, id: nat): nat {
    multiset(Ids(index, key))[id]
  }

  lemma {:induction false} WithoutCounts(s: seq<nat>, id: nat, other: nat)
    ensures multiset(Without(s, id))[other] == if other == id then 0 else multiset(s)[other]
  {
    if s != [] {
      WithoutCounts(s[1..], id, other);
      assert s == [s[0]] + s[1..];
    }
  }

  lemma {:induction false} AddKeysCounts(index: Index, keys: seq<u64>, id: nat, key: u64, other: nat)
    ensures Filed(AddKeys(index, keys, id), key, other)
         == Filed(index, key, other) + if other == id then multiset(keys)[key] else 0
    decreases |keys|
  {
    if keys != [] {
      AddKeysCounts(index[keys[0] := Ids(index, keys[0]) + [id]], keys[1..], id, key, other);
      assert keys == [keys[0]] + keys[1..];
    }
  }

  lemma {:induction false} DropKeysCounts(index: Index, keys: seq<u64>, id: nat, key: u64, other: nat)
    ensures Filed(DropKeys(index, keys, id), key, other)
         == if other == id && key in keys then 0 else Filed(index, key, other)
    decreases |keys|
  {
    if keys != [] {
      var next := if keys[0] in index then index[keys[0] := Without(index[keys[0]], id)] else index;
      DropKeysCounts(next, keys[1..], id, key, other);
      WithoutCounts(Ids(index, keys[0]), id, other);
      assert keys == [keys[0]] + keys[1..];
    }
  }

  // ---- Insert -------------------------------------------------------------------------------------

  /** Append while there is room; afterwards overwrite the slot under the cursor, unfiling its
      old entry first. */
  function Insert(c: TextCache, h: Hashes, capacity: nat, e: Entry): TextCache
    requires 1 <= capacity && |c.entries| <= capacity
  {
    if |c.entries| < capacity then
      TextCache(AddKeys(c.index, BandKeys(h, e.sig, BANDS), |c.entries|), c.entries + [e], c.cursor)
    else
      var id := c.cursor % capacity;
      var cleared := DropKeys(c.index, BandKeys(h, c.entries[id].sig, BANDS), id);
      TextCache(AddKeys(cleared, BandKeys(h, e.sig, BANDS), id), c.entries[id := e], (c.cursor + 1) % capacity)
  }

  /** Each id is filed under a key exactly as often as the key is among its entry's band keys;
      nothing else is filed. */
  ghost predicate IndexAgrees(c: TextCache, h: Hashes) {
    forall key: u64, id: nat ::
      Filed(c.index, key, id) == if id < |c.entries| then multiset(BandKeys(h, c.entries[id].sig, BANDS))[key] else 0
  }

  lemma InsertKeepsIndex(c: TextCache, h: Hashes, capacity: nat, e: Entry)
    requires 1 <= capacity && |c.entries| <= capacity && IndexAgrees(c, h)
    ensures IndexAgrees(Insert(c, h, capacity, e), h)
  {
    var after := Insert(c, h, capacity, e);
    var keys := BandKeys(h, e.sig, BANDS);
    forall key: u64, other: nat
      ensures Filed(after.index, key, other)
           == if other < |after.entries| then multiset(BandKeys(h, after.entries[other].sig, BANDS))[key] else 0
    {
      if |c.entries| < capacity {
        AddKeysCounts(c.index, keys, |c.entries|, key, other);
      } else {
        var id := c.cursor % capacity;
        var stale := BandKeys(h, c.entries[id].sig, BANDS);
        var cleared := DropKeys(c.index, stale, id);
        DropKeysCounts(c.index, stale, id, key, other);
        AddKeysCounts(cleared, keys, id, key, other);
        assert key in stale <==> key in multiset(stale);
      }
    }
  }

  // ---- The ring, over any run of inserts ----------------------------------------------------------

  /** The cache after a sequence of inserts into an empty one. */
  function Filled(h: Hashes, capacity: nat, inserts: seq<Entry>): (c: TextCache)
    requires 1 <= capacity
    ensures |c.entries| <= capacity
  {
    if inserts == [] then NoEntries()
    else Insert(Filled(h, capacity, inserts[..|inserts| - 1]), h, capacity, inserts[|inserts| - 1])
  }

  lemma MultipleIsFar(c: nat, d: int)
    ensures d >= 1 ==> c * d >= c
    ensures d <= -1 ==> c * d + c <= 0
  {
    if d >= 1 {
      assert c * d == c * (d - 1) + c && c * (d - 1) >= 0;
    } else if d <= -1 {
      assert c * d == c * (d + 1) - c && c * (d + 1) <= 0;
    }
  }

  lemma SameSlotFarApart(m: nat, n: nat, capacity: nat)
    requires 1 <= capacity && m < n && m % capacity == n % capacity
    ensures n - m >= capacity
  {
    var d := n / capacity - m / capacity;
    assert n - m == capacity * d by {
      assert n == capacity * (n / capacity) + n % capacity;
      assert m == capacity * (m / capacity) + m % capacity;
      assert capacity * d == capacity * (n / capacity) - capacity * (m / capacity);
    }
    MultipleIsFar(capacity, d);
  }

  lemma SmallRemainder(q: nat, r: nat, capacity: nat)
    requires r < capacity
    ensures (capacity * q + r) % capacity == r
  {
    var n := capacity * q + r;
    var d := n / capacity - q;
    assert r - n % capacity == capacity * d by {
      assert n == capacity * (n / capacity) + n % capacity;
      assert capacity * d == capacity * (n / capacity) - capacity * q;
    }
    MultipleIsFar(capacity, d);
  }

  lemma NextSlot(n: nat, capacity: nat)
    requires 1 <= capacity
    ensures (n % capacity + 1) % capacity == (n + 1) % capacity
  {
    var q, r := n / capacity, n % capacity;
    assert n == capacity * q + r;
    if r + 1 < capacity {
      SmallRemainder(q, r + 1, capacity);
      SmallRemainder(0, r + 1, capacity);
    } else {
      assert n + 1 == capacity * (q + 1);
      SmallRemainder(q + 1, 0, capacity);
      SmallRemainder(1, 0, capacity);
    }
  }

  /** The ring holds the last `capacity` of the inserts, insert `m` in slot `m % capacity`. */
  ghost predicate RingAgrees(c: TextCache, capacity: nat, inserts: seq<Entry>)
    requires 1 <= capacity
  {
    var n := |inserts|;
    && |c.entries| == (if n < capacity then n else capacity)
    && c.cursor == (if n < capacity then 0 else n % capacity)
    && (forall m :: 0 <= m < n && n - capacity <= m ==>
        m % capacity < |c.entries| && c.entries[m % capacity] == inserts[m])
  }

  lemma AppendKeepsRing(c: TextCache, h: Hashes, capacity: nat, inserts: seq<Entry>, e: Entry)
    requires 1 <= capacity && RingAgrees(c, capacity, inserts) && |inserts| < capacity
    ensures RingAgrees(Insert(c, h, capacity, e), capacity, inserts + [e])
  {
    var n := |inserts|;
    SmallRemainder(1, 0, capacity);
    var after := Insert(c, h, capacity, e);
    forall m | 0 <= m <= n
      ensures m % capacity < |after.entries| && after.entries[m % capacity] == (inserts + [e])[m]
    {
      SmallRemainder(0, m, capacity);
      if m < n { assert c.entries[m % capacity] == inserts[m]; }
    }
  }

  lemma OverwriteKeepsRing(c: TextCache, h: Hashes, capacity: nat, inserts: seq<Entry>, e: Entry)
    requires 1 <= capacity && RingAgrees(c, capacity, inserts) && |inserts| >= capacity
    ensures RingAgrees(Insert(c, h, capacity, e), capacity, inserts + [e])
  {
    var n := |inserts|;
    NextSlot(n, capacity);
    InsertOverwrites(c, h, capacity, e);
    OverwrittenRingAgrees(c, capacity, inserts, e, Insert(c, h, capacity, e));
  }

  lemma InsertOverwrites(c: TextCache, h: Hashes, capacity: nat, e: Entry)
    requires |c.entries| == capacity && c.cursor < capacity
    ensures
      var after := Insert(c, h, capacity, e);
      after.entries == c.entries[c.cursor := e] && after.cursor == (c.cursor + 1) % capacity
  {
    SmallRemainder(0, c.cursor, capacity);
  }

  lemma OverwrittenRingAgrees(c: TextCache, capacity: nat, inserts: seq<Entry>, e: Entry, after: TextCache)
    requires 1 <= capacity && RingAgrees(c, capacity, inserts) && |inserts| >= capacity
    requires |inserts| % capacity < |c.entries| && after.entries == c.entries[|inserts| % capacity := e]
    requires after.cursor == (|inserts| + 1) % capacity
    ensures RingAgrees(after, capacity, inserts + [e])
  {
    var n := |inserts|;
    forall m | 0 <= m <= n && n + 1 - capacity <= m
      ensures m % capacity < |after.entries| && after.entries[m % capacity] == (inserts + [e])[m]
    {
      if m < n {
        OtherSlot(m, n, capacity);
        assert c.entries[m % capacity] == inserts[m];
      }
    }
  }

  lemma OtherSlot(m: nat, n: nat, capacity: nat)
    requires 1 <= capacity && m < n < m + capacity
    ensures m % capacity != n % capacity
  {
    if m % capacity == n % capacity { SameSlotFarApart(m, n, capacity); }
  }

  /**
    After any inserts: slot `m % capacity` holds insert `m` for each of the last `capacity`
    inserts, so these are the live entries; and the index agrees with the ring.
   */
  lemma {:induction false} RingHoldsLastInserts(h: Hashes, capacity: nat, inserts: seq<Entry>)
    requires 1 <= capacity
    ensures RingAgrees(Filled(h, capacity, inserts), capacity, inserts)
    ensures IndexAgrees(Filled(h, capacity, inserts), h)
  {
    if inserts != [] {
      var front, e := inserts[..|inserts| - 1], inserts[|inserts| - 1];
      var before := Filled(h, capacity, front);
      RingHoldsLastInserts(h, capacity, front);
      InsertKeepsIndex(before, h, capacity, e);
      assert inserts == front + [e];
      if |front| < capacity { AppendKeepsRing(before, h, capacity, front, e); }
      else { OverwriteKeepsRing(before, h, capacity, front, e); }
    }
  }

  lemma LatestInSlot(n: nat, capacity: nat, id: nat) returns (m: nat)
    requires id < n && id < capacity
    ensures m < n && n - capacity <= m && m % capacity == id
  {
    var q, r := (n - 1 - id) / capacity, (n - 1 - id) % capacity;
    m := capacity * q + id;
    assert n - 1 - id == capacity * q + r;
    SmallRemainder(q, id, capacity);
  }

  /** Everything live was inserted, and not more than `capacity` inserts ago. */
  lemma LiveEntryWasInserted(h: Hashes, capacity: nat, inserts: seq<Entry>, id: nat) returns (m: nat)
    requires 1 <= capacity && id < |Filled(h, capacity, inserts).entries|
    ensures m < |inserts| && |inserts| - capacity <= m && m % capacity == id
    ensures Filled(h, capacity, inserts).entries[id] == inserts[m]
  {
    RingHoldsLastInserts(h, capacity, inserts);
    m := LatestInSlot(|inserts|, capacity, id);
    assert Filled(h, capacity, inserts).entries[m % capacity] == inserts[m];
  }

  // ---- Lookup -------------------------------------------------------------------------------------

  /** The ids filed under the first `n` keys, in the order a lookup meets them. */
  function Candidates(c: TextCache, keys: seq<u64>): seq<nat> {
    if keys == [] then []
    else Candidates(c, keys[..|keys| - 1]) + Ids(c.index, keys[|keys| - 1])
  }

  /** A candidate that may be compared: it is live and was computed under this identity. */
  predicate Comparable(c: TextCache, identity: Text, id: nat) {
    id < |c.entries| && c.entries[id].identity == identity
  }

  /** One comparison of the scan: a strictly better candidate takes over. */
  function Better(c: TextCache, sig: Signature, identity: Text, best: Option<nat>, id: nat): Option<nat>
    requires best.Some? ==> best.value < |c.entries|
  {
    if !Comparable(c, identity, id) then best
    else if best.None? || Jaccard(sig, c.entries[id].sig) > Jaccard(sig, c.entries[best.value].sig) then Some(id)
    else best
  }

  /** The best of a list of candidates. */
  function Best(c: TextCache, sig: Signature, identity: Text, ids: seq<nat>): (best: Option<nat>)
    ensures best.Some? ==> best.value < |c.entries|
  {
    if ids == [] then None
    else Better(c, sig, identity, Best(c, sig, identity, ids[..|ids| - 1]), ids[|ids| - 1])
  }

  /** Serve the best band candidate of this identity, if it is close enough. */
  function Lookup(c: TextCache, h: Hashes, threshold: real, sig: Signature, identity: Text): Option<Classification> {
    var best := Best(c, sig, identity, Candidates(c, BandKeys(h, sig, BANDS)));
    if best.Some? && Jaccard(sig, c.entries[best.value].sig) >= threshold then Some(c.entries[best.value].result)
    else None
  }

  lemma {:induction false} BestIsMaximal(c: TextCache, sig: Signature, identity: Text, ids: seq<nat>)
    ensures
      var best := Best(c, sig, identity, ids);
      && (best.Some? ==> best.value in ids && Comparable(c, identity, best.value))
      && (forall id :: id in ids && Comparable(c, identity, id) ==>
            best.Some? && Jaccard(sig, c.entries[id].sig) <= Jaccard(sig, c.entries[best.value].sig))
  {
    if ids != [] {
      BestIsMaximal(c, sig, identity, ids[..|ids| - 1]);
      assert ids == ids[..|ids| - 1] + [ids[|ids| - 1]];
    }
  }

  lemma {:induction false} CandidateIffFiled(c: TextCache, keys: seq<u64>, id: nat)
    ensures id in Candidates(c, keys) <==> exists key :: key in keys && Filed(c.index, key, id) > 0
  {
    if keys != [] {
      var front, last := keys[..|keys| - 1], keys[|keys| - 1];
      CandidateIffFiled(c, front, id);
      assert keys == front + [last];
      assert last in keys && forall key :: key in front ==> key in keys;
      assert id in Ids(c.index, last) <==> id in multiset(Ids(c.index, last));
    }
  }

  ghost predicate ShareBand(h: Hashes, a: Signature, b: Signature) {
    exists key :: key in BandKeys(h, a, BANDS) && key in BandKeys(h, b, BANDS)
  }

  /** A live entry that a lookup is allowed to compare: same identity, and one band key in common. */
  ghost predicate Proposed(c: TextCache, h: Hashes, sig: Signature, identity: Text, id: nat) {
    Comparable(c, identity, id) && ShareBand(h, sig, c.entries[id].sig)
  }

  lemma CandidateIffProposed(c: TextCache, h: Hashes, sig: Signature, identity: Text, id: nat)
    requires IndexAgrees(c, h)
    ensures (id in Candidates(c, BandKeys(h, sig, BANDS)) && Comparable(c, identity, id))
       <==> Proposed(c, h, sig, identity, id)
  {
    var keys := BandKeys(h, sig, BANDS);
    CandidateIffFiled(c, keys, id);
    if Comparable(c, identity, id) {
      var own := BandKeys(h, c.entries[id].sig, BANDS);
      forall key: u64 ensures Filed(c.index, key, id) > 0 <==> key in own {
        assert key in own <==> key in multiset(own);
      }
    }
  }

  /** No proposed entry is more similar. */
  ghost predicate BestProposed(c: TextCache, h: Hashes, sig: Signature, identity: Text, id: nat) {
    && Proposed(c, h, sig, identity, id)
    && forall other: nat :: Proposed(c, h, sig, identity, other) ==>
         Jaccard(sig, c.entries[other].sig) <= Jaccard(sig, c.entries[id].sig)
  }

  /** What a lookup serves, in terms of the ring alone: something exactly when a proposed entry is
      close enough, and then the result of a proposed entry of maximal similarity. */
  lemma LookupServesBestProposed(c: TextCache, h: Hashes, threshold: real, sig: Signature, identity: Text)
      returns (id: nat)
    requires IndexAgrees(c, h)
    ensures Lookup(c, h, threshold, sig, identity).None? ==>
              forall other: nat :: Proposed(c, h, sig, identity, other) ==>
                  Jaccard(sig, c.entries[other].sig) < threshold
    ensures Lookup(c, h, threshold, sig, identity).Some? ==>
              && BestProposed(c, h, sig, identity, id)
              && Jaccard(sig, c.entries[id].sig) >= threshold
              && Lookup(c, h, threshold, sig, identity) == Some(c.entries[id].result)
  {
    var ids := Candidates(c, BandKeys(h, sig, BANDS));
    BestIsMaximal(c, sig, identity, ids);
    var best := Best(c, sig, identity, ids);
    id := if best.Some? then best.value else 0;
    CandidateIffProposed(c, h, sig, identity, id);
    forall other: nat | Proposed(c, h, sig, identity, other)
      ensures best.Some? && Jaccard(sig, c.entries[other].sig) <= Jaccard(sig, c.entries[best.value].sig)
    {
      CandidateIffProposed(c, h, sig, identity, other);
    }
  }

  // ---- Banded lookup and the linear scan ----------------------------------------------------------

  ghost predicate FullLength(c: TextCache) {
    forall id :: 0 <= id < |c.entries| ==> |c.entries[id].sig| == K
  }

  /** No live entry of this identity is more similar: what a scan of the whole ring would pick. */
  ghost predicate BestLive(c: TextCache, sig: Signature, identity: Text, id: nat) {
    && Comparable(c, identity, id)
    && forall other: nat :: Comparable(c, identity, other) ==>
         Jaccard(sig, c.entries[other].sig) <= Jaccard(sig, c.entries[id].sig)
  }

  lemma CloseShareBand(h: Hashes, a: Signature, b: Signature)
    requires |a| == |b| == K && Jaccard(a, b) > 0.75
    ensures ShareBand(h, a, b)
  {
    assert Agree(a, b) as real / 128.0 > 0.75;
    var i := CloseSignaturesShareBand(h, a, b);
    assert BandKeys(h, a, BANDS)[i] in BandKeys(h, b, BANDS);
  }

  /**
    Banded lookup refines the linear scan: with a threshold above 96/128 the bands lose nothing. The
    lookup serves something exactly when some live entry of the identity is close enough, and then it
    serves an entry that no live entry of the identity beats.
   */
  lemma BandedLookupRefinesScan(c: TextCache, h: Hashes, threshold: real, sig: Signature, identity: Text)
      returns (id: nat)
    requires IndexAgrees(c, h) && FullLength(c) && |sig| == K
    requires threshold > 0.75
    ensures Lookup(c, h, threshold, sig, identity).None? ==>
              forall other: nat :: Comparable(c, identity, other) ==> Jaccard(sig, c.entries[other].sig) < threshold
    ensures Lookup(c, h, threshold, sig, identity).Some? ==>
              && BestLive(c, sig, identity, id)
              && Jaccard(sig, c.entries[id].sig) >= threshold
              && Lookup(c, h, threshold, sig, identity) == Some(c.entries[id].result)
  {
    id := LookupServesBestProposed(c, h, threshold, sig, identity);
    forall other: nat | Comparable(c, identity, other) && Jaccard(sig, c.entries[other].sig) > 0.75
      ensures Proposed(c, h, sig, identity, other)
    {
      CloseShareBand(h, sig, c.entries[other].sig);
    }
  }

  /** Anything served, at any threshold, was computed under the same identity and is verified close. */
  lemma ServedIsVerified(c: TextCache, h: Hashes, threshold: real, sig: Signature, identity: Text) returns (id: nat)
    requires Lookup(c, h, threshold, sig, identity).Some?
    ensures id < |c.entries| && c.entries[id].identity == identity
    ensures Jaccard(sig, c.entries[id].sig) >= threshold
    ensures Lookup(c, h, threshold, sig, identity) == Some(c.entries[id].result)
  {
    var ids := Candidates(c, BandKeys(h, sig, BANDS));
    BestIsMaximal(c, sig, identity, ids);
    id := Best(c, sig, identity, ids).value;
  }

  /** A live entry is found again by its own signature, at every threshold a cache can have. */
  lemma LiveEntryHitsItself(c: TextCache, h: Hashes, threshold: real, id: nat)
    requires IndexAgrees(c, h) && FullLength(c) && id < |c.entries| && threshold <= 1.0
    ensures Lookup(c, h, threshold, c.entries[id].sig, c.entries[id].identity).Some?
  {
    var e := c.entries[id];
    JaccardOneIffEqual(e.sig, e.sig);
    FullBands(h, e.sig);
    assert BandKeys(h, e.sig, BANDS)[0] in BandKeys(h, e.sig, BANDS);
    assert Proposed(c, h, e.sig, e.identity, id);
    var best := LookupServesBestProposed(c, h, threshold, e.sig, e.identity);
  }

  // ---- Below that threshold the bands do lose entries ---------------------------------------------

  /** All rows zero. */
  function Zeros(): Signature {
    seq<u64>(K, _ => 0)
  }

  /** One row of each band changed. */
  function Combed(): Signature {
    seq<u64>(K, i => if i % 4 == 0 then 1 else 0)
  }

  lemma {:induction false} CombedAgreement(n: nat)
    requires n <= 32
    ensures Agree(Combed()[..4 * n], Zeros()[..4 * n]) == 3 * n
  {
    if n > 0 {
      CombedAgreement(n - 1);
      var a, b := Combed()[..4 * n], Zeros()[..4 * n];
      var m := 4 * (n - 1);
      AgreeSplit(a, b, m);
      assert a[..m] == Combed()[..m] && b[..m] == Zeros()[..m];
      LastBand(n);
      AgreeOnThree();
    }
  }

  lemma LastBand(n: nat)
    requires 1 <= n <= 32
    ensures Combed()[..4 * n][4 * (n - 1)..] == [1, 0, 0, 0] && Zeros()[..4 * n][4 * (n - 1)..] == [0, 0, 0, 0]
  {
  }

  lemma AgreeOnThree()
    ensures Agree([1, 0, 0, 0], [0, 0, 0, 0]) == 3
  {
    var a: Signature, b: Signature := [1, 0, 0, 0], [0, 0, 0, 0];
    assert a[..3] == [1, 0, 0] && a[..3][..2] == [1, 0] && a[..3][..2][..1] == [1];
    assert b[..3] == [0, 0, 0] && b[..3][..2] == [0, 0] && b[..3][..2][..1] == [0];
    assert Agree([1], [0]) == 0;
    assert Agree([1, 0], [0, 0]) == 1;
    assert Agree([1, 0, 0], [0, 0, 0]) == 2;
  }

  /** The band hash tells apart the only two bands the witness uses. */
  ghost predicate SeparatesWitness(h: Hashes) {
    forall i, j :: 0 <= i < BANDS && 0 <= j < BANDS ==> h.band(i, [1, 0, 0, 0]) != h.band(j, [0, 0, 0, 0])
  }

  lemma CombedSharesNoBand(h: Hashes)
    requires SeparatesWitness(h)
    ensures forall key :: key in BandKeys(h, Combed(), BANDS) ==> key !in BandKeys(h, Zeros(), BANDS)
  {
    FullBands(h, Combed());
    FullBands(h, Zeros());
    forall i | 0 <= i < BANDS
      ensures Combed()[4 * i..4 * i + 4] == [1, 0, 0, 0] && Zeros()[4 * i..4 * i + 4] == [0, 0, 0, 0]
    {
    }
  }

  lemma CombedIsThreeQuartersClose()
    ensures Jaccard(Combed(), Zeros()) == 0.75
  {
    CombedAgreement(32);
    assert Combed()[..128] == Combed() && Zeros()[..128] == Zeros();
  }

  lemma OneInsert(h: Hashes, e: Entry)
    ensures
      var c := Filled(h, 1, [e]);
      c.entries == [e] && IndexAgrees(c, h)
  {
    RingHoldsLastInserts(h, 1, [e]);
    assert [e][..0] == [];
  }

  /** A cache and a query whose agreement is exactly 96 of 128 rows, one off in every band: the scan
      serves it, the bands do not propose it. */
  lemma BandsMissAtThreeQuarters(h: Hashes, threshold: real, identity: Text, result: Classification)
    requires threshold <= 0.75 && SeparatesWitness(h)
    ensures
      var c := Filled(h, 1, [Entry(Zeros(), identity, result)]);
      && |c.entries| == 1 && Comparable(c, identity, 0)
      && Jaccard(Combed(), c.entries[0].sig) >= threshold
      && Lookup(c, h, threshold, Combed(), identity) == None
  {
    var e := Entry(Zeros(), identity, result);
    OneInsert(h, e);
    CombedIsThreeQuartersClose();
    NothingProposed(h, Filled(h, 1, [e]), threshold, e);
  }

  lemma NothingProposed(h: Hashes, c: TextCache, threshold: real, e: Entry)
    requires SeparatesWitness(h) && IndexAgrees(c, h) && c.entries == [e] && e.sig == Zeros()
    ensures Lookup(c, h, threshold, Combed(), e.identity) == None
  {
    CombedSharesNoBand(h);
    assert forall id: nat :: !Proposed(c, h, Combed(), e.identity, id);
    var id := LookupServesBestProposed(c, h, threshold, Combed(), e.identity);
  }

  /** The bands never lose an entry that a scan would serve. */
  ghost predicate BandsComplete(h: Hashes, threshold: real) {
    forall capacity: nat, inserts: seq<Entry>, sig: Signature, identity: Text, id: nat ::
      BandsFind(h, threshold, capacity, inserts, sig, identity, id)
  }

  ghost predicate BandsFind(h: Hashes, threshold: real, capacity: nat, inserts: seq<Entry>, sig: Signature,
      identity: Text, id: nat) {
    1 <= capacity && |sig| == K && (forall m :: 0 <= m < |inserts| ==> |inserts[m].sig| == K) ==>
      var c := Filled(h, capacity, inserts);
      Comparable(c, identity, id) && Jaccard(sig, c.entries[id].sig) >= threshold ==>
        Lookup(c, h, threshold, sig, identity).Some?
  }

  /** Over every cache reachable with arbitrary full-length signatures: banding is lossless exactly above 96/128. */
  lemma BandsCompleteIffAboveThreeQuarters(h: Hashes, threshold: real)
    requires SeparatesWitness(h)
    ensures BandsComplete(h, threshold) <==> threshold > 0.75
  {
    if threshold > 0.75 {
      forall capacity: nat, inserts: seq<Entry>, sig: Signature, identity: Text, id: nat
        ensures BandsFind(h, threshold, capacity, inserts, sig, identity, id)
      {
        if 1 <= capacity && |sig| == K && forall m :: 0 <= m < |inserts| ==> |inserts[m].sig| == K {
          var c := Filled(h, capacity, inserts);
          RingHoldsLastInserts(h, capacity, inserts);
          FilledIsFullLength(h, capacity, inserts);
          var best := BandedLookupRefinesScan(c, h, threshold, sig, identity);
        }
      }
    } else {
      var result := Classification([], [], [], [], Completed, []);
      BandsMissAtThreeQuarters(h, threshold, [], result);
      assert !BandsFind(h, threshold, 1, [Entry(Zeros(), [], result)], Combed(), [], 0);
    }
  }

  lemma FilledIsFullLength(h: Hashes, capacity: nat, inserts: seq<Entry>)
    requires 1 <= capacity && forall m :: 0 <= m < |inserts| ==> |inserts[m].sig| == K
    ensures FullLength(Filled(h, capacity, inserts))
  {
    var c := Filled(h, capacity, inserts);
    forall id | 0 <= id < |c.entries| ensures |c.entries[id].sig| == K {
      var m := LiveEntryWasInserted(h, capacity, inserts, id);
    }
  }

  // ---- The cache itself ---------------------------------------------------------------------------

  class MemoryTextCache {
    var index: Index
    var entries: seq<Entry>
    var cursor: nat
    const capacity: nat
    const threshold: real
    const hashes: Hashes

    ghost function Value(): TextCache
      reads this
    {
      TextCache(index, entries, cursor)
    }

    ghost predicate Ok()
      reads this
    {
      && 1 <= capacity && 0.0 <= threshold <= 1.0
      && |entries| <= capacity
      && IndexAgrees(Value(), hashes)
    }

    constructor (h: Hashes, requested: nat, similarity: real)
      ensures Ok() && Value() == NoEntries() && hashes == h
      ensures capacity == (if requested == 0 then 1 else requested)
      ensures threshold == if similarity < 0.0 then 0.0 else if similarity > 1.0 then 1.0 else similarity
    {
      index, entries, cursor := map[], [], 0;
      capacity := if requested == 0 then 1 else requested;
      threshold := if similarity < 0.0 then 0.0 else if similarity > 1.0 then 1.0 else similarity;
      hashes := h;
    }

    method Find(sig: Signature, identity: Text) returns (hit: Option<Classification>)
      requires Ok()
      ensures hit == Lookup(Value(), hashes, threshold, sig, identity)
    {
      var keys := BandKeys(hashes, sig, BANDS);
      var best := FindBest(sig, identity, keys);
      if best.Some? && Jaccard(sig, entries[best.value].sig) >= threshold {
        hit := Some(entries[best.value].result);
      } else {
        hit := None;
      }
    }

    /** The outer loop of a lookup: the best of the ids filed under any of the keys. */
    method FindBest(sig: Signature, identity: Text, keys: seq<u64>) returns (best: Option<nat>)
      ensures best == Best(Value(), sig, identity, Candidates(Value(), keys))
    {
      best := None;
      for i := 0 to |keys|
        invariant best == Best(Value(), sig, identity, Candidates(Value(), keys[..i]))
      {
        best := Scan(sig, identity, best, if keys[i] in index then index[keys[i]] else [],
            Candidates(Value(), keys[..i]));
        assert keys[..i + 1][..i] == keys[..i];
      }
      assert keys[..|keys|] == keys;
    }

    /** The inner loop of a lookup: the ids filed under one key, after those met `earlier`. */
    method Scan(sig: Signature, identity: Text, start: Option<nat>, ids: seq<nat>, ghost earlier: seq<nat>)
      returns (best: Option<nat>)
      requires start == Best(Value(), sig, identity, earlier)
      ensures best == Best(Value(), sig, identity, earlier + ids)
    {
      best := start;
      assert earlier + ids[..0] == earlier;
      for j := 0 to |ids|
        invariant best == Best(Value(), sig, identity, earlier + ids[..j])
      {
        assert (earlier + ids[..j + 1])[..|earlier| + j] == earlier + ids[..j];
        var id := ids[j];
        if id < |entries| && entries[id].identity == identity {
          var similarity := Jaccard(sig, entries[id].sig);
          if best.None? || similarity > Jaccard(sig, entries[best.value].sig) {
            best := Some(id);
          }
        }
      }
      assert ids[..|ids|] == ids;
    }

    method Record(sig: Signature, result: Classification, identity: Text)
      requires Ok()
      modifies this
      ensures Ok() && Value() == Insert(old(Value()), hashes, capacity, Entry(sig, identity, result))
    {
      ghost var before := Value();
      var id;
      if |entries| < capacity {
        entries := entries + [Entry(sig, identity, result)];
        id := |entries| - 1;
      } else {
        id := cursor % capacity;
        cursor := (cursor + 1) % capacity;
        Unfile(BandKeys(hashes, entries[id].sig, BANDS), id);
        entries := entries[id := Entry(sig, identity, result)];
      }
      File(BandKeys(hashes, sig, BANDS), id);
      assert Value() == Insert(before, hashes, capacity, Entry(sig, identity, result));
      InsertKeepsIndex(before, hashes, capacity, Entry(sig, identity, result));
    }

    method Unfile(keys: seq<u64>, id: nat)
      modifies this`index
      ensures index == DropKeys(old(index), keys, id)
    {
      for i := 0 to |keys|
        invariant DropKeys(index, keys[i..], id) == DropKeys(old(index), keys, id)
      {
        assert keys[i..][1..] == keys[i + 1..];
        if keys[i] in index {
          index := index[keys[i] := Without(index[keys[i]], id)];
        }
      }
    }

    method File(keys: seq<u64>, id: nat)
      modifies this`index
      ensures index == AddKeys(old(index), keys, id)
    {
      for i := 0 to |keys|
        invariant AddKeys(index, keys[i..], id) == AddKeys(old(index), keys, id)
      {
        assert keys[i..][1..] == keys[i + 1..];
        index := index[keys[i] := (if keys[i] in index then index[keys[i]] else []) + [id]];
      }
    }
  }
}
