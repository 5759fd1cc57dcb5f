/** MinHash signatures over token shingles, their similarity, and their band keys. */
module Prefilter {
  import opened Types

  const U64_MAX: nat := 0xFFFF_FFFF_FFFF_FFFF
  type u64 = x: nat | x <= U64_MAX

  /** Rows of a signature, tokens of a shingle, bands of the index. */
  const K: nat := 128
  const SHINGLE: nat := 3
  const BANDS: nat := 32

  type Signature = seq<u64>

  /** The hash functions, left open: hashing a token window, mixing row `i`, hashing band `b`. */
  datatype Hashes = Hashes(
    token: seq<Text> -> u64,
    mix: (nat, u64) -> u64,
    band: (nat, seq<u64>) -> u64)

  // ---- Shingles -----------------------------------------------------------------------------------

  predicate Ascending(s: seq<u64>) {
    forall i, j :: 0 <= i < j < |s| ==> s[i] < s[j]
  }

  /** One step of the library's sort and dedup. */
  function Place(x: u64, s: seq<u64>): (r: seq<u64>)
    requires Ascending(s)
    ensures Ascending(r)
    ensures forall y :: y in r <==> y == x || y in s
  {
    if s == [] then [x]
    else if x < s[0] then [x] + s
    else if x == s[0] then s
    else
      var rest := Place(x, s[1..]);
      assert forall y :: y in s <==> y == s[0] || y in s[1..];
      assert forall i :: 0 <= i < |rest| ==> rest[i] in rest && s[0] < rest[i];
      [s[0]] + rest
  }

  function SortDedup(s: seq<u64>): (r: seq<u64>)
    ensures Ascending(r)
    ensures forall y :: y in r <==> y in s
  {
    if s == [] then []
    else
      assert forall y :: y in s <==> y == s[0] || y in s[1..];
      Place(s[0], SortDedup(s[1..]))
  }

  /** The shingle set of a token list; a list shorter than one shingle is hashed whole. */
  function Shingles(h: Hashes, tokens: seq<Text>): (r: seq<u64>)
    ensures r == [] <==> tokens == []
  {
    if tokens == [] then []
    else if |tokens| < SHINGLE then [h.token(tokens)]
    else
      var windows := Windows(h, tokens);
      assert windows[0] in windows;
      SortDedup(windows)
  }

  function Windows(h: Hashes, tokens: seq<Text>): (w: seq<u64>)
    requires |tokens| >= SHINGLE
    ensures |w| == |tokens| - SHINGLE + 1
  {
    seq<u64>(|tokens| - SHINGLE + 1, i requires 0 <= i <= |tokens| - SHINGLE => WindowHash(h, tokens, i))
  }

  function WindowHash(h: Hashes, tokens: seq<Text>, i: nat): u64
    requires i + SHINGLE <= |tokens|
  {
    h.token(tokens[i..i + SHINGLE])
  }

  /** A run of three neighbouring tokens of the list. */
  ghost predicate IsTriple(tokens: seq<Text>, w: seq<Text>) {
    exists i :: 0 <= i <= |tokens| - 3 && w == [tokens[i], tokens[i + 1], tokens[i + 2]]
  }

  /** The shingles of three tokens or more are the hashes of all runs of three neighbours and nothing
      else; a shorter list is hashed whole. Each shingle is listed once, in ascending order. */
  lemma ShinglesAreTriples(h: Hashes, tokens: seq<Text>)
    ensures Ascending(Shingles(h, tokens))
    ensures |tokens| >= 3 ==>
              forall x :: x in Shingles(h, tokens) <==> exists w :: IsTriple(tokens, w) && x == h.token(w)
    ensures 1 <= |tokens| <= 2 ==> Shingles(h, tokens) == [h.token(tokens)]
    ensures tokens == [] ==> Shingles(h, tokens) == []
  {
    if |tokens| >= 3 { WindowsAreTriples(h, tokens); }
  }

  lemma WindowsAreTriples(h: Hashes, tokens: seq<Text>)
    requires |tokens| >= 3
    ensures forall x :: x in Windows(h, tokens) <==> exists w :: IsTriple(tokens, w) && x == h.token(w)
  {
    var windows := Windows(h, tokens);
    forall i | 0 <= i <= |tokens| - 3
      ensures windows[i] == h.token([tokens[i], tokens[i + 1], tokens[i + 2]])
    {
      assert tokens[i..i + 3] == [tokens[i], tokens[i + 1], tokens[i + 2]];
    }
    forall x | x in windows ensures exists w :: IsTriple(tokens, w) && x == h.token(w) {
      var i :| 0 <= i < |windows| && windows[i] == x;
      assert IsTriple(tokens, [tokens[i], tokens[i + 1], tokens[i + 2]]);
    }
    forall w | IsTriple(tokens, w) ensures h.token(w) in windows {
      var i :| 0 <= i <= |tokens| - 3 && w == [tokens[i], tokens[i + 1], tokens[i + 2]];
      assert windows[i] == h.token(w);
    }
  }

  /** The token hash tells apart the triples of these two lists. */
  ghost predicate Separates(h: Hashes, a: seq<Text>, b: seq<Text>) {
    forall v, w :: (IsTriple(a, v) || IsTriple(b, v)) && (IsTriple(a, w) || IsTriple(b, w)) ==>
      h.token(v) == h.token(w) ==> v == w
  }

  /** Two lists of three tokens or more have the same shingles exactly when they have the same triples,
      every token of every triple included. */
  lemma SameShinglesIffSameTriples(h: Hashes, a: seq<Text>, b: seq<Text>)
    requires |a| >= 3 && |b| >= 3 && Separates(h, a, b)
    ensures Shingles(h, a) == Shingles(h, b) <==> forall w :: IsTriple(a, w) <==> IsTriple(b, w)
  {
    ShinglesAreTriples(h, a);
    ShinglesAreTriples(h, b);
    if Shingles(h, a) == Shingles(h, b) {
      forall w | IsTriple(a, w) ensures IsTriple(b, w) { assert h.token(w) in Shingles(h, b); }
      forall w | IsTriple(b, w) ensures IsTriple(a, w) { assert h.token(w) in Shingles(h, a); }
    } else if forall w :: IsTriple(a, w) <==> IsTriple(b, w) {
      AscendingIsUnique(Shingles(h, a), Shingles(h, b));
    }
  }

  lemma {:induction false} AscendingIsUnique(s: seq<u64>, t: seq<u64>)
    requires Ascending(s) && Ascending(t) && forall x :: x in s <==> x in t
    ensures s == t
  {
    if s != [] { assert s[0] in s; }
    if t != [] { assert t[0] in t; }
    if s != [] && t != [] {
      assert s[0] in t && t[0] in s;
      assert s == [s[0]] + s[1..] && t == [t[0]] + t[1..];
      assert forall x :: x in s[1..] <==> x in s && x != s[0];
      assert forall x :: x in t[1..] <==> x in t && x != t[0];
      AscendingIsUnique(s[1..], t[1..]);
    }
  }

  // ---- Signatures ---------------------------------------------------------------------------------

  /** Row `i` of the signature: the least mixed shingle. */
  function Row(h: Hashes, shingles: seq<u64>, i: nat): u64 {
    if shingles == [] then U64_MAX
    else
      var last := h.mix(i, shingles[|shingles| - 1]);
      var rest := Row(h, shingles[..|shingles| - 1], i);
      if last < rest then last else rest
  }

  function SignatureOf(h: Hashes, shingles: seq<u64>): (sig: Signature)
    ensures |sig| == K
  {
    if shingles == [] then seq(K, _ => 0) else seq(K, i requires 0 <= i => Row(h, shingles, i))
  }

  function SignatureOfTokens(h: Hashes, tokens: seq<Text>): Signature {
    SignatureOf(h, Shingles(h, tokens))
  }

  /** The signature by updating an array of minima, one shingle at a time. */
  method ComputeSignature(h: Hashes, shingles: seq<u64>) returns (sig: Signature)
    ensures sig == SignatureOf(h, shingles)
  {
    if shingles == [] { return seq(K, _ => 0); }
    var slots := new u64[K](_ => U64_MAX);
    for n := 0 to |shingles|
      invariant forall i :: 0 <= i < K ==> slots[i] == Row(h, shingles[..n], i)
    {
      assert shingles[..n + 1][..n] == shingles[..n];
      for i := 0 to K
        invariant forall j :: 0 <= j < i ==> slots[j] == Row(h, shingles[..n + 1], j)
        invariant forall j :: i <= j < K ==> slots[j] == Row(h, shingles[..n], j)
      {
        var mixed := h.mix(i, shingles[n]);
        if mixed < slots[i] { slots[i] := mixed; }
      }
    }
    assert shingles[..|shingles|] == shingles;
    sig := slots[..];
  }

  /** Row `i` of a signature is the least value of permutation `i` over the shingles, and attained. */
  lemma SignatureRowIsLeast(h: Hashes, shingles: seq<u64>, i: nat)
    requires i < 128
    ensures |SignatureOf(h, shingles)| == 128
    ensures shingles == [] ==> SignatureOf(h, shingles)[i] == 0
    ensures forall x :: x in shingles ==> SignatureOf(h, shingles)[i] <= h.mix(i, x)
    ensures shingles != [] ==> exists x :: x in shingles && SignatureOf(h, shingles)[i] == h.mix(i, x)
  {
    RowIsLeast(h, shingles, i);
  }

  lemma {:induction false} RowIsLeast(h: Hashes, shingles: seq<u64>, i: nat)
    ensures forall x :: x in shingles ==> Row(h, shingles, i) <= h.mix(i, x)
    ensures shingles != [] ==> exists x :: x in shingles && Row(h, shingles, i) == h.mix(i, x)
  {
    if shingles != [] {
      var front := shingles[..|shingles| - 1];
      var last := shingles[|shingles| - 1];
      RowIsLeast(h, front, i);
      assert shingles == front + [last];
      assert last in shingles;
      if front != [] && Row(h, front, i) <= h.mix(i, last) {
        var x :| x in front && Row(h, front, i) == h.mix(i, x);
        assert x in shingles;
      }
    }
  }

  /** A signature depends on the SET of shingles only: order, repeats and the sort do not matter. */
  lemma SameShinglesSameSignature(h: Hashes, a: seq<u64>, b: seq<u64>)
    requires forall x :: x in a <==> x in b
    ensures SignatureOf(h, a) == SignatureOf(h, b)
  {
    if b != [] { assert b[0] in a; }
    if a != [] {
      assert a[0] in b;
      forall i: nat | i < K ensures Row(h, a, i) == Row(h, b, i) {
        RowIsLeast(h, a, i);
        RowIsLeast(h, b, i);
      }
    }
  }

  // ---- Similarity ---------------------------------------------------------------------------------

  /** On how many rows two signatures agree. */
  function Agree(a: Signature, b: Signature): (n: nat)
    requires |a| == |b|
    ensures n <= |a|
  {
    if a == [] then 0
    else Agree(a[..|a| - 1], b[..|a| - 1]) + if a[|a| - 1] == b[|a| - 1] then 1 else 0
  }

  /** The estimated Jaccard similarity: the fraction of rows that agree. */
  function Jaccard(a: Signature, b: Signature): (j: real)
    ensures 0.0 <= j <= 1.0
  {
    if |a| == 0 || |a| != |b| then 0.0 else Agree(a, b) as real / |a| as real
  }

  lemma {:induction false} AgreeAll(a: Signature, b: Signature)
    requires |a| == |b|
    ensures Agree(a, b) == |a| <==> a == b
  {
    if a != [] {
      var n := |a| - 1;
      AgreeAll(a[..n], b[..n]);
      assert a == a[..n] + [a[n]] && b == b[..n] + [b[n]];
    }
  }

  /** The rows in which two signatures agree. */
  function AgreeingRows(a: Signature, b: Signature): set<nat> {
    set i: nat | i < |a| && i < |b| && a[i] == b[i]
  }

  lemma {:induction false} AgreeCountsRows(a: Signature, b: Signature)
    requires |a| == |b|
    ensures Agree(a, b) == |AgreeingRows(a, b)|
  {
    if a == [] {
      assert AgreeingRows(a, b) == {};
    } else {
      var n := |a| - 1;
      AgreeCountsRows(a[..n], b[..n]);
      var front := AgreeingRows(a[..n], b[..n]);
      assert AgreeingRows(a, b) == front + if a[n] == b[n] then {n} else {};
    }
  }

  /** Similarity times the number of rows is the number of rows that agree; of different lengths, or
      without rows, it is none. */
  lemma JaccardCountsRows(a: Signature, b: Signature)
    ensures |a| == |b| ==> Jaccard(a, b) * |a| as real == |AgreeingRows(a, b)| as real
    ensures |a| != |b| || a == [] ==> Jaccard(a, b) == 0.0
  {
    if |a| == |b| {
      AgreeCountsRows(a, b);
      if a != [] { QuotientTimes(Agree(a, b) as real, |a| as real, Jaccard(a, b)); }
    }
  }

  lemma QuotientTimes(x: real, y: real, q: real)
    requires y > 0.0 && q == x / y
    ensures q * y == x
  {
  }

  /** Similarity is one exactly between equal, non-empty signatures. */
  lemma JaccardOneIffEqual(a: Signature, b: Signature)
    ensures Jaccard(a, b) == 1.0 <==> (a == b && a != [])
  {
    if |a| == |b| && a != [] {
      AgreeAll(a, b);
      var n, len := Agree(a, b) as real, |a| as real;
      assert n / len == 1.0 <==> n == len;
    }
  }

  // ---- Bands --------------------------------------------------------------------------------------

  lemma TimesMonotone(a: nat, b: nat, rows: nat)
    requires a <= b
    ensures 0 <= a * rows <= b * rows
  {
  }

  lemma BandFits(len: nat, bands: nat, b: nat)
    requires b < bands
    ensures 0 <= b * (len / bands) <= (b + 1) * (len / bands) <= len
  {
    TimesMonotone(b, b + 1, len / bands);
    TimesMonotone(b + 1, bands, len / bands);
    QuotientFits(len, bands);
  }

  lemma QuotientFits(len: nat, bands: nat)
    requires bands >= 1
    ensures bands * (len / bands) <= len
  {
    assert len == bands * (len / bands) + len % bands;
  }

  /** Band `b` of a signature cut into `bands` bands of equal height; a remainder is left out. */
  function Band(sig: Signature, bands: nat, b: nat): seq<u64>
    requires b < bands
  {
    BandFits(|sig|, bands, b);
    sig[b * (|sig| / bands)..(b + 1) * (|sig| / bands)]
  }

  /** One key per band of `len / bands` rows; the band number is hashed in. */
  function BandKeys(h: Hashes, sig: Signature, requested: nat): seq<u64> {
    var most := if |sig| < 1 then 1 else |sig|;
    var bands := if requested < 1 then 1 else if requested > most then most else requested;
    if |sig| / bands == 0 then []
    else seq<u64>(bands, b requires 0 <= b < bands => h.band(b, Band(sig, bands, b)))
  }

  /** Any signature is cut from the front into as many bands as asked for, but at least one and at most
      one per row, all of one height; rows left over at the end are in no band, and a signature without
      rows has none. */
  lemma BandsCutFromFront(h: Hashes, sig: Signature, requested: nat, bands: nat, rows: nat)
    requires sig != [] && 1 <= bands <= |sig| && bands * rows <= |sig| < bands * (rows + 1)
    requires bands == requested || (bands == 1 && requested == 0) || (bands == |sig| && requested > |sig|)
    ensures |BandKeys(h, sig, requested)| == bands
    ensures forall b :: 0 <= b < bands ==>
              0 <= b * rows <= b * rows + rows <= |sig| &&
              BandKeys(h, sig, requested)[b] == h.band(b, sig[b * rows..b * rows + rows])
    ensures BandKeys(h, [], requested) == []
  {
    HeightIsQuotient(|sig|, bands, rows);
    forall b | 0 <= b < bands
      ensures 0 <= b * rows <= b * rows + rows <= |sig|
      ensures Band(sig, bands, b) == sig[b * rows..b * rows + rows]
    {
      BandFits(|sig|, bands, b);
      assert (b + 1) * rows == b * rows + rows;
    }
  }

  lemma HeightIsQuotient(len: nat, bands: nat, rows: nat)
    requires 1 <= bands <= len && bands * rows <= len < bands * (rows + 1)
    ensures len / bands == rows && rows >= 1
  {
    var q := len / bands;
    assert len == bands * q + len % bands;
    if q < rows { TimesMonotone(q + 1, rows, bands); }
    if q > rows { TimesMonotone(rows + 1, q, bands); }
  }

  /** A full-length signature has 32 bands of 4 rows. */
  lemma FullBands(h: Hashes, sig: Signature)
    requires |sig| == K
    ensures |BandKeys(h, sig, BANDS)| == BANDS
    ensures forall b :: 0 <= b < BANDS ==> BandKeys(h, sig, BANDS)[b] == h.band(b, sig[4 * b..4 * b + 4])
  {
    assert forall b :: 0 <= b < BANDS ==> Band(sig, BANDS, b) == sig[4 * b..4 * b + 4];
  }

  lemma {:induction false} AgreeSplit(a: Signature, b: Signature, m: nat)
    requires |a| == |b| && m <= |a|
    ensures Agree(a, b) == Agree(a[..m], b[..m]) + Agree(a[m..], b[m..])
  {
    if m == |a| {
      assert a[..m] == a && b[..m] == b;
    } else {
      var n := |a| - 1;
      AgreeSplit(a[..n], b[..n], m);
      assert a[..n][..m] == a[..m] && b[..n][..m] == b[..m];
      assert a[..n][m..] == a[m..][..n - m] && b[..n][m..] == b[m..][..n - m];
    }
  }

  /** If every one of the first `n` bands differs somewhere, at most three of its four rows agree. */
  lemma {:induction false} DifferentBandsDisagree(a: Signature, b: Signature, n: nat)
    requires |a| == |b| == 4 * n
    requires forall i :: 0 <= i < n ==> a[4 * i..4 * i + 4] != b[4 * i..4 * i + 4]
    ensures Agree(a, b) <= 3 * n
  {
    if n > 0 {
      var m := 4 * (n - 1);
      forall i | 0 <= i < n - 1 ensures a[..m][4 * i..4 * i + 4] != b[..m][4 * i..4 * i + 4] {
        assert a[..m][4 * i..4 * i + 4] == a[4 * i..4 * i + 4];
        assert b[..m][4 * i..4 * i + 4] == b[4 * i..4 * i + 4];
      }
      DifferentBandsDisagree(a[..m], b[..m], n - 1);
      AgreeSplit(a, b, m);
      assert a[4 * (n - 1)..4 * (n - 1) + 4] == a[m..] && b[4 * (n - 1)..4 * (n - 1) + 4] == b[m..];
      AgreeAll(a[m..], b[m..]);
    }
  }

  /** The pigeonhole: agreeing on more than 96 of 128 rows leaves one of the 32 bands equal. */
  lemma CloseSignaturesShareBand(h: Hashes, a: Signature, b: Signature) returns (i: nat)
    requires |a| == |b| == K && Agree(a, b) > 96
    ensures i < BANDS && |BandKeys(h, a, BANDS)| == |BandKeys(h, b, BANDS)| == BANDS
    ensures BandKeys(h, a, BANDS)[i] == BandKeys(h, b, BANDS)[i]
  {
    FullBands(h, a);
    FullBands(h, b);
    if forall j :: 0 <= j < BANDS ==> a[4 * j..4 * j + 4] != b[4 * j..4 * j + 4] {
      DifferentBandsDisagree(a, b, BANDS);
    }
    i :| 0 <= i < BANDS && a[4 * i..4 * i + 4] == b[4 * i..4 * i + 4];
  }
}
