/** Which classifier an answer belongs to: the exact-cache key and the tag of the approximate tiers. */
module Identities {
  import opened Types

  /** The identity fields a runtime reports for caching. */
  datatype Identity = Identity(
    classifierId: Text,
    modelRevision: Text,
    tokenizerRevision: Text,
    taxonomyRevision: Text,
    digest: Option<Text>)

  // ---- The length-prefixed preimage of the exact key ----------------------------------------------

  /** The `width` low bytes of `n`, least significant first. */
  function LittleEndian(n: nat, width: nat): (bytes: seq<byte>)
    ensures |bytes| == width
  {
    if width == 0 then [] else [n % 256] + LittleEndian(n / 256, width - 1)
  }

  function FromLittleEndian(bytes: seq<byte>): nat {
    if bytes == [] then 0 else bytes[0] + 256 * FromLittleEndian(bytes[1..])
  }

  function Pow256(width: nat): nat {
    if width == 0 then 1 else 256 * Pow256(width - 1)
  }

  lemma {:induction false} LittleEndianRoundTrip(n: nat, width: nat)
    requires n < Pow256(width)
    ensures FromLittleEndian(LittleEndian(n, width)) == n
  {
    if width > 0 {
      LittleEndianRoundTrip(n / 256, width - 1);
      assert LittleEndian(n, width)[1..] == LittleEndian(n / 256, width - 1);
    }
  }

  /** What one field feeds the hasher: its length as a 64-bit number, then its bytes. */
  function FieldBytes(field: Text): seq<byte> {
    LittleEndian(|field|, 8) + field
  }

  function Preimage(fields: seq<Text>): seq<byte> {
    if fields == [] then [] else Preimage(fields[..|fields| - 1]) + FieldBytes(fields[|fields| - 1])
  }

  /** Read the fields back. */
  function Decode(bytes: seq<byte>): Option<seq<Text>>
    decreases |bytes|
  {
    if bytes == [] then Some([])
    else if |bytes| < 8 then None
    else
      var n := FromLittleEndian(bytes[..8]);
      if |bytes| - 8 < n then None
      else
        var rest := Decode(bytes[8 + n..]);
        if rest.None? then None else Some([bytes[8..8 + n]] + rest.value)
  }

  /** Lengths fit the prefix, as they do for every string in memory. */
  ghost predicate Addressable(fields: seq<Text>) {
    forall i :: 0 <= i < |fields| ==> |fields[i]| < Pow256(8)
  }

  lemma {:induction false} PreimageFront(fields: seq<Text>)
    requires fields != []
    ensures Preimage(fields) == FieldBytes(fields[0]) + Preimage(fields[1..])
  {
    var n := |fields| - 1;
    if n > 0 {
      PreimageFront(fields[..n]);
      assert fields[..n][1..] == fields[1..][..n - 1];
      assert fields[1..][n - 1] == fields[n];
    }
  }

  /** The preimage determines its fields, and how many there are. */
  lemma {:induction false} PreimageRoundTrip(fields: seq<Text>)
    requires Addressable(fields)
    ensures Decode(Preimage(fields)) == Some(fields)
  {
    if fields != [] {
      PreimageFront(fields);
      PreimageRoundTrip(fields[1..]);
      DecodeFront(fields[0], Preimage(fields[1..]));
      assert fields == [fields[0]] + fields[1..];
    }
  }

  lemma DecodeFront(f: Text, tail: seq<byte>)
    requires |f| < Pow256(8) && Decode(tail).Some?
    ensures Decode(FieldBytes(f) + tail) == Some([f] + Decode(tail).value)
  {
    LittleEndianRoundTrip(|f|, 8);
    var bytes := FieldBytes(f) + tail;
    assert bytes[..8] == LittleEndian(|f|, 8);
    assert bytes[8..8 + |f|] == f;
    assert bytes[8 + |f|..] == tail;
  }

  function KeyFields(id: Identity, text: Text): seq<Text> {
    [id.classifierId, id.modelRevision, id.tokenizerRevision, id.taxonomyRevision, text]
    + if id.digest.Some? then [id.digest.value] else []
  }

  /** Two preimages are equal only for the same identity, presence of the digest included, and the same text. */
  lemma KeyPreimageInjective(a: Identity, x: Text, b: Identity, y: Text)
    requires Addressable(KeyFields(a, x)) && Addressable(KeyFields(b, y))
    ensures Preimage(KeyFields(a, x)) == Preimage(KeyFields(b, y)) <==> (a == b && x == y)
  {
    var f, g := KeyFields(a, x), KeyFields(b, y);
    PreimageRoundTrip(f);
    PreimageRoundTrip(g);
    if f == g {
      assert f[0] == g[0] && f[1] == g[1] && f[2] == g[2] && f[3] == g[3] && f[4] == g[4];
      if a.digest.Some? { assert f[5] == g[5]; }
    }
  }

  lemma PreimageGrows(fields: seq<Text>, i: nat)
    requires i < |fields|
    ensures Preimage(fields[..i + 1]) == Preimage(fields[..i]) + FieldBytes(fields[i])
  {
    assert fields[..i + 1][..i] == fields[..i];
  }

  /** The incremental hasher, as the bytes it has been fed. */
  class Hasher {
    var fed: seq<byte>

    constructor ()
      ensures fed == []
    {
      fed := [];
    }

    method Update(bytes: seq<byte>)
      modifies this
      ensures fed == old(fed) + bytes
    {
      fed := fed + bytes;
    }

    method UpdateField(field: Text)
      modifies this
      ensures fed == old(fed) + FieldBytes(field)
    {
      Update(LittleEndian(|field|, 8));
      Update(field);
    }
  }

  /** The exact key: the digest of what the hasher was fed, field by field. */
  method NewKey(digest: seq<byte> -> Text, id: Identity, text: Text) returns (key: Text)
    ensures key == digest(Preimage(KeyFields(id, text)))
  {
    var hasher := new Hasher();
    ghost var fields := KeyFields(id, text);
    hasher.UpdateField(id.classifierId);
    PreimageGrows(fields, 0);
    assert hasher.fed == Preimage(fields[..1]);
    hasher.UpdateField(id.modelRevision);
    PreimageGrows(fields, 1);
    assert hasher.fed == Preimage(fields[..2]);
    hasher.UpdateField(id.tokenizerRevision);
    PreimageGrows(fields, 2);
    assert hasher.fed == Preimage(fields[..3]);
    hasher.UpdateField(id.taxonomyRevision);
    PreimageGrows(fields, 3);
    assert hasher.fed == Preimage(fields[..4]);
    hasher.UpdateField(text);
    PreimageGrows(fields, 4);
    assert hasher.fed == Preimage(fields[..5]);
    if id.digest.Some? {
      hasher.UpdateField(id.digest.value);
      PreimageGrows(fields, 5);
    }
    assert fields[..|fields|] == fields;
    key := digest(hasher.fed);
  }

  // ---- The pipe-separated tag of the approximate tiers --------------------------------------------

  const PIPE: byte := 124

  function Tag(id: Identity): Text {
    var four := id.classifierId + [PIPE] + id.modelRevision + [PIPE] + id.tokenizerRevision + [PIPE] +
        id.taxonomyRevision;
    if id.digest.Some? then four + [PIPE] + id.digest.value else four
  }

  predicate PipeFree(id: Identity) {
    && PIPE !in id.classifierId && PIPE !in id.modelRevision
    && PIPE !in id.tokenizerRevision && PIPE !in id.taxonomyRevision
    && (id.digest.Some? ==> PIPE !in id.digest.value)
  }

  /** A pipe-free head is read back from in front of the first pipe. */
  lemma {:induction false} SplitAtPipe(a: Text, r: Text, b: Text, s: Text)
    requires PIPE !in a && PIPE !in b
    requires a + [PIPE] + r == b + [PIPE] + s
    ensures a == b && r == s
  {
    assert (a + [PIPE] + r)[0] == (b + [PIPE] + s)[0];
    assert r == (a + [PIPE] + r)[|a| + 1..] && s == (b + [PIPE] + s)[|b| + 1..];
    if a != [] && b != [] {
      assert (a + [PIPE] + r)[1..] == a[1..] + [PIPE] + r;
      assert (b + [PIPE] + s)[1..] == b[1..] + [PIPE] + s;
      SplitAtPipe(a[1..], r, b[1..], s);
      assert a == [a[0]] + a[1..] && b == [b[0]] + b[1..];
    }
  }

  /** What follows the third pipe. */
  function TagTail(id: Identity): Text {
    if id.digest.Some? then id.taxonomyRevision + [PIPE] + id.digest.value else id.taxonomyRevision
  }

  lemma TagNested(id: Identity)
    ensures Tag(id)
         == id.classifierId + [PIPE] + (id.modelRevision + [PIPE] + (id.tokenizerRevision + [PIPE] + TagTail(id)))
  {
  }

  lemma TailHasPipe(id: Identity)
    requires PipeFree(id)
    ensures PIPE in TagTail(id) <==> id.digest.Some?
  {
    if id.digest.Some? { assert TagTail(id)[|id.taxonomyRevision|] == PIPE; }
  }

  /** On pipe-free identities, with or without a digest, the tag determines the identity. */
  lemma TagInjectiveOnPipeFree(a: Identity, b: Identity)
    requires PipeFree(a) && PipeFree(b) && Tag(a) == Tag(b)
    ensures a == b
  {
    TagNested(a);
    TagNested(b);
    var a2, b2 := a.tokenizerRevision + [PIPE] + TagTail(a), b.tokenizerRevision + [PIPE] + TagTail(b);
    SplitAtPipe(a.classifierId, a.modelRevision + [PIPE] + a2, b.classifierId, b.modelRevision + [PIPE] + b2);
    SplitAtPipe(a.modelRevision, a2, b.modelRevision, b2);
    SplitAtPipe(a.tokenizerRevision, TagTail(a), b.tokenizerRevision, TagTail(b));
    TailHasPipe(a);
    TailHasPipe(b);
    if a.digest.Some? {
      SplitAtPipe(a.taxonomyRevision, a.digest.value, b.taxonomyRevision, b.digest.value);
    }
  }

  function Pipes(s: Text): nat {
    multiset(s)[PIPE]
  }

  lemma PipesAbsent(s: Text)
    ensures Pipes(s) == 0 <==> PIPE !in s
  {
    assert PIPE in s <==> PIPE in multiset(s);
  }

  lemma TagPipes(id: Identity)
    ensures Pipes(Tag(id)) >= 3
    ensures Pipes(Tag(id)) == 3 <==> (id.digest.None? && PipeFree(id))
  {
    PipesAbsent(id.classifierId);
    PipesAbsent(id.modelRevision);
    PipesAbsent(id.tokenizerRevision);
    PipesAbsent(id.taxonomyRevision);
    if id.digest.Some? { PipesAbsent(id.digest.value); }
  }

  /** Another identity with the same tag, for any identity that has a digest or a pipe. */
  function Alias(id: Identity): Identity
    requires id.digest.Some? || !PipeFree(id)
  {
    if id.digest.Some? then
      var taxonomy := id.taxonomyRevision + [PIPE] + id.digest.value;
      Identity(id.classifierId, id.modelRevision, id.tokenizerRevision, taxonomy, None)
    else if PIPE in id.classifierId then
      var (l, r) := Cut(id.classifierId);
      Identity(l, r, id.modelRevision, id.tokenizerRevision, Some(id.taxonomyRevision))
    else if PIPE in id.modelRevision then
      var (l, r) := Cut(id.modelRevision);
      Identity(id.classifierId, l, r, id.tokenizerRevision, Some(id.taxonomyRevision))
    else if PIPE in id.tokenizerRevision then
      var (l, r) := Cut(id.tokenizerRevision);
      Identity(id.classifierId, id.modelRevision, l, r, Some(id.taxonomyRevision))
    else
      var (l, r) := Cut(id.taxonomyRevision);
      Identity(id.classifierId, id.modelRevision, id.tokenizerRevision, l, Some(r))
  }

  function Cut(s: Text): (parts: (Text, Text))
    requires PIPE in s
    ensures s == parts.0 + [PIPE] + parts.1
  {
    if s[0] == PIPE then ([], s[1..])
    else
      assert s == [s[0]] + s[1..];
      var (l, r) := Cut(s[1..]);
      ([s[0]] + l, r)
  }

  lemma Pull(l: Text, r: Text, rest: Text)
    ensures l + [PIPE] + r + [PIPE] + rest == l + [PIPE] + (r + [PIPE] + rest)
  {
  }

  lemma AliasCollides(id: Identity)
    requires id.digest.Some? || !PipeFree(id)
    ensures Alias(id) != id && Tag(Alias(id)) == Tag(id)
  {
    TagNested(id);
    TagNested(Alias(id));
    if id.digest.None? {
      var later := id.tokenizerRevision + [PIPE] + id.taxonomyRevision;
      if PIPE in id.classifierId {
        Pull(Cut(id.classifierId).0, Cut(id.classifierId).1, id.modelRevision + [PIPE] + later);
      } else if PIPE in id.modelRevision {
        Pull(Cut(id.modelRevision).0, Cut(id.modelRevision).1, later);
      } else if PIPE in id.tokenizerRevision {
        Pull(Cut(id.tokenizerRevision).0, Cut(id.tokenizerRevision).1, id.taxonomyRevision);
      }
    }
  }

  /** Exactly which identities no other identity can be mistaken for: those without a digest and
      without a pipe. A digest only stays apart from identities that are pipe-free themselves. */
  lemma TagUnambiguousIff(a: Identity)
    ensures (forall b: Identity :: Tag(b) == Tag(a) ==> b == a) <==> (a.digest.None? && PipeFree(a))
  {
    TagPipes(a);
    if a.digest.None? && PipeFree(a) {
      forall b: Identity | Tag(b) == Tag(a) ensures b == a {
        TagPipes(b);
        TagInjectiveOnPipeFree(a, b);
      }
    } else {
      AliasCollides(a);
    }
  }
}
