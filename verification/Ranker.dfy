/** Ranking labels by the similarity of an embedding to their anchors, over exact reals. */
module Ranker {
  import opened Types

  type Vector = seq<real>

  // ---- Cosine similarity --------------------------------------------------------------------------

  /** The sum of products over the common length. */
  function Dot(a: Vector, b: Vector): real {
    if a == [] || b == [] then 0.0 else a[0] * b[0] + Dot(a[1..], b[1..])
  }

  lemma {:induction false} SquareNonNegative(a: Vector)
    ensures Dot(a, a) >= 0.0
  {
    if a != [] { SquareNonNegative(a[1..]); }
  }

  lemma SquaresOrder(p: real, q: real)
    requires p >= 0.0 && p * p >= q * q
    ensures p >= q
  {
    assert (q - p) * (q + p) == q * q - p * p;
    PositiveProduct(q - p, q + p);
  }

  lemma PositiveProduct(x: real, y: real)
    ensures x > 0.0 && y > 0.0 ==> x * y > 0.0
  {
  }

  /** The step of Cauchy and Schwarz: a mixed term is below the two squares. */
  lemma MixedTerm(d: real, aa: real, bb: real, x: real, y: real)
    requires aa >= 0.0 && bb >= 0.0 && d * d <= aa * bb
    ensures 2.0 * d * x * y <= aa * y * y + bb * x * x
  {
    var p, q := aa * y * y + bb * x * x, 2.0 * d * x * y;
    var u, v := aa * y * y, bb * x * x;
    assert u >= 0.0 && v >= 0.0;
    assert (u - v) * (u - v) >= 0.0;
    assert p * p == (u - v) * (u - v) + 4.0 * u * v;
    var xy := x * y;
    assert u * v == aa * bb * (xy * xy);
    assert q * q == 4.0 * (d * d) * (xy * xy);
    assert (d * d) * (xy * xy) <= (aa * bb) * (xy * xy);
    SquaresOrder(p, q);
  }

  /** Cauchy and Schwarz: no similarity exceeds one in size. */
  lemma CosineBounded(a: Vector, b: Vector)
    requires |a| == |b|
    ensures Dot(a, b) * Dot(a, b) <= Dot(a, a) * Dot(b, b)
  {
    DotBounded(a, b, Dot(a, b), Dot(a, a), Dot(b, b));
  }

  lemma {:induction false} DotBounded(a: Vector, b: Vector, ab: real, aa: real, bb: real)
    requires |a| == |b| && ab == Dot(a, b) && aa == Dot(a, a) && bb == Dot(b, b)
    ensures ab * ab <= aa * bb
  {
    if a != [] {
      var d, aa', bb' := Dot(a[1..], b[1..]), Dot(a[1..], a[1..]), Dot(b[1..], b[1..]);
      DotBounded(a[1..], b[1..], d, aa', bb');
      SquareNonNegative(a[1..]);
      SquareNonNegative(b[1..]);
      OneMoreTerm(d, aa', bb', a[0], b[0], ab, aa, bb);
    }
  }

  lemma OneMoreTerm(d: real, aa: real, bb: real, x: real, y: real, ab: real, aa': real, bb': real)
    requires aa >= 0.0 && bb >= 0.0 && d * d <= aa * bb
    requires ab == x * y + d && aa' == x * x + aa && bb' == y * y + bb
    ensures ab * ab <= aa' * bb'
  {
    MixedTerm(d, aa, bb, x, y);
    Expand(d, aa, bb, x, y);
  }

  lemma Expand(d: real, aa: real, bb: real, x: real, y: real)
    requires d * d <= aa * bb && 2.0 * d * x * y <= aa * y * y + bb * x * x
    ensures (x * y + d) * (x * y + d) <= (x * x + aa) * (y * y + bb)
  {
    assert (x * y + d) * (x * y + d) == x * y * (x * y) + 2.0 * d * x * y + d * d;
    assert (x * x + aa) * (y * y + bb) == x * x * (y * y) + x * x * bb + aa * (y * y) + aa * bb;
    assert x * y * (x * y) == x * x * (y * y);
  }

  /** The square root, as far as the norm needs it. */
  ghost predicate IsRoot(root: real -> real) {
    forall x: real :: x >= 0.0 ==> root(x) >= 0.0 && root(x) * root(x) == x
  }

  lemma NonZeroProduct(x: real, y: real)
    requires x != 0.0 && y != 0.0
    ensures x * y != 0.0
  {
  }

  /** Dot product over the product of norms; a zero vector is similar to nothing. */
  function Cosine(root: real -> real, a: Vector, b: Vector): real {
    Normalized(Dot(a, b), root(Dot(a, a)), root(Dot(b, b)))
  }

  function Normalized(d: real, na: real, nb: real): real {
    if na == 0.0 || nb == 0.0 then 0.0 else NonZeroProduct(na, nb); d / (na * nb)
  }

  /** A quotient whose numerator is no larger than its denominator. */
  lemma QuotientBounded(d: real, m: real)
    requires m > 0.0 && d * d <= m * m
    ensures -1.0 <= d / m <= 1.0
  {
    SquaresOrder(m, d);
    SquaresOrder(m, -d);
    QuotientAtMostOne(d, m);
    QuotientAtMostOne(-d, m);
    assert -d / m == -(d / m);
  }

  lemma QuotientAtMostOne(d: real, m: real)
    requires m > 0.0 && d <= m
    ensures d / m <= 1.0
  {
    assert (m - d) / m >= 0.0;
    assert (m - d) / m == m / m - d / m;
  }

  /** Every cosine of equally long vectors lies between minus one and one. */
  lemma CosineWithinOne(root: real -> real, a: Vector, b: Vector)
    requires IsRoot(root) && |a| == |b|
    ensures -1.0 <= Cosine(root, a, b) <= 1.0
  {
    SquareNonNegative(a);
    SquareNonNegative(b);
    CosineBounded(a, b);
    BoundedByRoots(Dot(a, b), Dot(a, a), Dot(b, b), root(Dot(a, a)), root(Dot(b, b)));
  }

  lemma BoundedByRoots(d: real, aa: real, bb: real, na: real, nb: real)
    requires na >= 0.0 && nb >= 0.0 && na * na == aa && nb * nb == bb && d * d <= aa * bb
    ensures -1.0 <= Normalized(d, na, nb) <= 1.0
  {
    PositiveProduct(na, nb);
    var m := na * nb;
    assert m * m == (na * na) * (nb * nb);
    if na > 0.0 && nb > 0.0 { QuotientBounded(d, m); }
  }

  // ---- What the similarity is ---------------------------------------------------------------------

  ghost predicate IsZero(a: Vector) {
    forall i :: 0 <= i < |a| ==> a[i] == 0.0
  }

  function Scaled(k: real, a: Vector): (r: Vector)
    ensures |r| == |a| && forall i :: 0 <= i < |a| ==> r[i] == k * a[i]
  {
    seq(|a|, i requires 0 <= i < |a| => k * a[i])
  }

  function Plus(a: Vector, b: Vector): (r: Vector)
    requires |a| == |b|
    ensures |r| == |a| && forall i :: 0 <= i < |a| ==> r[i] == a[i] + b[i]
  {
    seq(|a|, i requires 0 <= i < |a| => a[i] + b[i])
  }

  /** One in position `i`, zero elsewhere. */
  function Unit(n: nat, i: nat): (r: Vector)
    ensures |r| == n && forall j :: 0 <= j < n ==> r[j] == if j == i then 1.0 else 0.0
  {
    seq(n, j => if j == i then 1.0 else 0.0)
  }

  lemma {:induction false} DotOfZero(a: Vector, b: Vector)
    requires |a| == |b| && IsZero(a)
    ensures Dot(a, b) == 0.0
  {
    if a != [] {
      assert a[0] == 0.0;
      DotOfZero(a[1..], b[1..]);
    }
  }

  /** The dot product is linear, symmetric, and picks components: so it is the sum of products. */
  lemma {:induction false} DotPicks(n: nat, i: nat, b: Vector)
    requires i < n == |b|
    ensures Dot(Unit(n, i), b) == b[i]
  {
    var u := Unit(n, i);
    if i == 0 {
      DotOfZero(u[1..], b[1..]);
    } else {
      assert u[1..] == Unit(n - 1, i - 1);
      DotPicks(n - 1, i - 1, b[1..]);
    }
  }

  lemma {:induction false} DotAdds(a: Vector, c: Vector, b: Vector)
    requires |a| == |b| == |c|
    ensures Dot(Plus(a, c), b) == Dot(a, b) + Dot(c, b)
  {
    if a != [] {
      assert Plus(a, c)[1..] == Plus(a[1..], c[1..]);
      DotAdds(a[1..], c[1..], b[1..]);
      Distributes(a[0], c[0], b[0]);
    }
  }

  lemma Distributes(x: real, y: real, z: real)
    ensures (x + y) * z == x * z + y * z
  {
  }

  lemma {:induction false} DotScales(k: real, a: Vector, b: Vector, d: real)
    requires |a| == |b| && d == Dot(a, b)
    ensures Dot(Scaled(k, a), b) == k * d
  {
    if a != [] {
      var rest := Dot(a[1..], b[1..]);
      ScaledTail(k, a);
      DotScales(k, a[1..], b[1..], rest);
      ScaledStep(k, a[0], b[0], rest);
    }
  }

  lemma ScaledTail(k: real, a: Vector)
    requires a != []
    ensures Scaled(k, a)[1..] == Scaled(k, a[1..])
  {
    forall i | 0 <= i < |a| - 1 ensures Scaled(k, a)[1..][i] == Scaled(k, a[1..])[i] {
      assert a[1..][i] == a[i + 1];
    }
  }

  lemma ScaledStep(k: real, x: real, y: real, rest: real)
    ensures (k * x) * y + k * rest == k * (x * y + rest)
  {
  }

  lemma {:induction false} DotCommutes(a: Vector, b: Vector)
    requires |a| == |b|
    ensures Dot(a, b) == Dot(b, a)
  {
    if a != [] { DotCommutes(a[1..], b[1..]); }
  }

  lemma {:induction false} SquareOfNonZero(a: Vector)
    ensures Dot(a, a) == 0.0 <==> IsZero(a)
  {
    if a != [] {
      SquareNonNegative(a[1..]);
      SquareOfNonZero(a[1..]);
      SquareSign(a[0], a[0] * a[0]);
      assert IsZero(a) <==> a[0] == 0.0 && IsZero(a[1..]) by {
        if a[0] == 0.0 && IsZero(a[1..]) {
          forall i | 0 <= i < |a| ensures a[i] == 0.0 { if i > 0 { assert a[1..][i - 1] == 0.0; } }
        }
      }
    }
  }

  lemma SquareSign(x: real, xx: real)
    requires xx == x * x
    ensures xx >= 0.0 && (xx == 0.0 <==> x == 0.0)
  {
    if x > 0.0 {
      SignOfProduct(x, x, xx);
    } else if x < 0.0 {
      SquareOfNegated(x, 0.0 - x, xx);
      SignOfProduct(0.0 - x, 0.0 - x, xx);
    }
  }

  lemma SignOfProduct(x: real, y: real, xy: real)
    requires x > 0.0 && y > 0.0 && xy == x * y
    ensures xy > 0.0
  {
  }

  lemma SquareOfNegated(x: real, y: real, xx: real)
    requires y == 0.0 - x && xx == x * x
    ensures xx == y * y
  {
  }

  lemma RootOf(root: real -> real, x: real, y: real)
    requires IsRoot(root) && y >= 0.0 && x == y * y
    ensures root(x) == y
  {
    SquareSign(y, x);
    var r := root(x);
    assert r >= 0.0 && r * r == y * y;
    SquaresOrder(r, y);
    SquaresOrder(y, r);
  }

  lemma NormIsPositive(root: real -> real, a: Vector)
    requires IsRoot(root)
    ensures root(Dot(a, a)) >= 0.0 && (root(Dot(a, a)) == 0.0 <==> IsZero(a))
  {
    SquareNonNegative(a);
    SquareOfNonZero(a);
    SquareSign(root(Dot(a, a)), Dot(a, a));
  }

  /**
    The value of the similarity: times both norms it is the dot product, sign included; a vector is
    wholly similar to itself; a zero vector is similar to nothing.
   */
  lemma CosineTimesNorms(root: real -> real, a: Vector, b: Vector)
    requires IsRoot(root) && |a| == |b|
    ensures Cosine(root, a, b) * root(Dot(a, a)) * root(Dot(b, b)) == Dot(a, b)
    ensures !IsZero(a) ==> Cosine(root, a, a) == 1.0
    ensures IsZero(a) || IsZero(b) ==> Cosine(root, a, b) == 0.0
  {
    NormIsPositive(root, a);
    NormIsPositive(root, b);
    if IsZero(a) { DotOfZero(a, b); }
    if IsZero(b) {
      DotCommutes(a, b);
      DotOfZero(b, a);
    }
    NormalizedTimes(Dot(a, b), root(Dot(a, a)), root(Dot(b, b)), Cosine(root, a, b));
    if !IsZero(a) { NormalizedSquare(root(Dot(a, a)), Dot(a, a)); }
  }

  lemma NormalizedTimes(d: real, na: real, nb: real, c: real)
    requires c == Normalized(d, na, nb) && (na == 0.0 || nb == 0.0 ==> d == 0.0)
    ensures c * na * nb == d
  {
    if na != 0.0 && nb != 0.0 {
      NonZeroProduct(na, nb);
      var m := na * nb;
      QuotientTimes(d, m);
      assert c * na * nb == d / m * m;
    }
  }

  lemma QuotientTimes(d: real, m: real)
    requires m != 0.0
    ensures d / m * m == d
  {
  }

  lemma NormalizedSquare(n: real, d: real)
    requires n != 0.0 && n * n == d
    ensures Normalized(d, n, n) == 1.0
  {
    SquareSign(n, d);
    var m := n * n;
    QuotientOfItself(d, m);
  }

  lemma QuotientOfItself(d: real, m: real)
    requires d != 0.0 && m == d
    ensures d / m == 1.0
  {
  }

  /** Only directions matter: scaling a vector by a positive number changes no similarity. */
  lemma CosineIgnoresScale(root: real -> real, k: real, a: Vector, b: Vector)
    requires IsRoot(root) && |a| == |b| && k > 0.0
    ensures Cosine(root, Scaled(k, a), b) == Cosine(root, a, b)
    ensures Cosine(root, b, Scaled(k, a)) == Cosine(root, b, a)
  {
    var d, n := Dot(a, b), root(Dot(a, a));
    SquareNonNegative(a);
    NormScales(root, k, a);
    DotScales(k, a, b, d);
    NormalizedScales(k, d, n, root(Dot(b, b)));
    DotCommutes(a, b);
    DotCommutes(Scaled(k, a), b);
  }

  lemma NormScales(root: real -> real, k: real, a: Vector)
    requires IsRoot(root) && k > 0.0
    ensures root(Dot(Scaled(k, a), Scaled(k, a))) == k * root(Dot(a, a))
  {
    var d, scaled := Dot(a, a), Scaled(k, a);
    SquareNonNegative(a);
    DotScales(k, a, a, d);
    DotCommutes(scaled, a);
    var once := k * d;
    DotScales(k, a, scaled, once);
    RootOfScaled(root, k, d, once, Dot(scaled, scaled));
  }

  lemma RootOfScaled(root: real -> real, k: real, d: real, once: real, twice: real)
    requires IsRoot(root) && k > 0.0 && d >= 0.0 && once == k * d && twice == k * once
    ensures root(twice) == k * root(d)
  {
    var n := root(d);
    assert n * n == d && n >= 0.0;
    assert twice == (k * n) * (k * n) && k * n >= 0.0;
    RootOf(root, twice, k * n);
  }

  lemma NormalizedScales(k: real, d: real, na: real, nb: real)
    requires k > 0.0
    ensures Normalized(k * d, k * na, nb) == Normalized(d, na, nb) == Normalized(k * d, nb, k * na)
    ensures Normalized(d, nb, na) == Normalized(d, na, nb)
  {
    if na == 0.0 || nb == 0.0 {
      if na == 0.0 { assert k * na == 0.0; }
    } else {
      NonZeroProduct(k, na);
      NonZeroProduct(na, nb);
      NonZeroProduct(k * na, nb);
      var m := na * nb;
      assert k * na * nb == k * m && nb * (k * na) == k * m && nb * na == m;
      Cancels(k, d, m);
    }
  }

  lemma Cancels(k: real, d: real, m: real)
    requires k > 0.0 && m != 0.0
    ensures k * m != 0.0 && k * d / (k * m) == d / m
  {
    NonZeroProduct(k, m);
    var q := d / m;
    QuotientTimes(d, m);
    assert k * d == q * (k * m);
    QuotientOfProduct(q, k * m);
  }

  lemma QuotientOfProduct(q: real, y: real)
    requires y != 0.0
    ensures q * y / y == q
  {
  }

  // ---- The mean of the nearest anchors ------------------------------------------------------------

  ghost predicate Descending(s: seq<real>) {
    forall i, j :: 0 <= i < j < |s| ==> s[i] >= s[j]
  }

  function InsertDescending(x: real, s: seq<real>): (r: seq<real>)
    ensures |r| == |s| + 1
  {
    if s == [] || x >= s[0] then [x] + s else [s[0]] + InsertDescending(x, s[1..])
  }

  /** The library's sort, highest similarity first. */
  function SortDescending(s: seq<real>): (r: seq<real>)
    ensures |r| == |s|
  {
    if s == [] then [] else InsertDescending(s[0], SortDescending(s[1..]))
  }

  lemma {:induction false} InsertAddsOne(x: real, s: seq<real>)
    ensures multiset(InsertDescending(x, s)) == multiset(s) + multiset{x}
  {
    if s != [] && x < s[0] {
      InsertAddsOne(x, s[1..]);
      assert s == [s[0]] + s[1..];
    }
  }

  lemma {:induction false} InsertKeepsDescending(x: real, s: seq<real>)
    requires Descending(s)
    ensures Descending(InsertDescending(x, s))
    ensures forall y :: y in InsertDescending(x, s) ==> y == x || y in s
  {
    if s != [] && x < s[0] {
      InsertKeepsDescending(x, s[1..]);
      var rest := InsertDescending(x, s[1..]);
      forall i | 0 <= i < |rest| ensures s[0] >= rest[i] {
        assert rest[i] in rest;
      }
    }
  }

  lemma {:induction false} SortIsDescending(s: seq<real>)
    ensures Descending(SortDescending(s)) && multiset(SortDescending(s)) == multiset(s)
  {
    if s != [] {
      SortIsDescending(s[1..]);
      InsertKeepsDescending(s[0], SortDescending(s[1..]));
      InsertAddsOne(s[0], SortDescending(s[1..]));
      assert s == [s[0]] + s[1..];
    }
  }

  function SumFirst(s: seq<real>, k: nat): real
    requires k <= |s|
  {
    if k == 0 then 0.0 else s[0] + SumFirst(s[1..], k - 1)
  }

  /** The mean of the `k` greatest similarities, with `k` between one and the number of anchors. */
  function Score(sims: seq<real>, topK: nat): real {
    if sims == [] then 0.0
    else
      var k := Clamp(topK, |sims|);
      SumFirst(SortDescending(sims), k) / k as real
  }

  function Clamp(topK: nat, n: nat): (k: nat)
    requires n >= 1
    ensures 1 <= k <= n
  {
    if topK < 1 then 1 else if topK > n then n else topK
  }

  /** A choice of anchors: which ones, how many, and the sum of their similarities. */
  function Chosen(choice: seq<bool>): nat {
    if choice == [] then 0 else (if choice[0] then 1 else 0) + Chosen(choice[1..])
  }

  function ChosenSum(sims: seq<real>, choice: seq<bool>): real
    requires |sims| == |choice|
  {
    if sims == [] then 0.0 else (if choice[0] then sims[0] else 0.0) + ChosenSum(sims[1..], choice[1..])
  }

  lemma {:induction false} ChosenAtMost(choice: seq<bool>)
    ensures Chosen(choice) <= |choice|
  {
    if choice != [] { ChosenAtMost(choice[1..]); }
  }

  /** One more element never beats replacing it by something at least as great. */
  lemma {:induction false} SumFirstStep(s: seq<real>, k: nat, x: real)
    requires Descending(s) && k < |s| && x >= s[0]
    ensures SumFirst(s, k + 1) <= x + SumFirst(s, k)
  {
    if k > 0 { SumFirstStep(s[1..], k - 1, x); }
  }

  /** What inserting does to the sum of the first elements: leaving `x` out or taking it in never does
      better, and one of the two is what happens. */
  lemma {:induction false} SumFirstInserted(x: real, s: seq<real>, k: nat)
    requires Descending(s) && k <= |s| + 1
    ensures k <= |s| ==> SumFirst(InsertDescending(x, s), k) >= SumFirst(s, k)
    ensures k >= 1 ==> SumFirst(InsertDescending(x, s), k) >= x + SumFirst(s, k - 1)
    ensures (k <= |s| && SumFirst(InsertDescending(x, s), k) == SumFirst(s, k))
         || (k >= 1 && SumFirst(InsertDescending(x, s), k) == x + SumFirst(s, k - 1))
  {
    var r := InsertDescending(x, s);
    if k == 0 {
    } else if s == [] || x >= s[0] {
      assert r[1..] == s;
      if k <= |s| { SumFirstStep(s, k - 1, x); }
    } else {
      assert r[1..] == InsertDescending(x, s[1..]);
      SumFirstInserted(x, s[1..], k - 1);
    }
  }

  /** No choice of anchors has a greater sum than the first ones in descending order. */
  lemma FirstAreGreatest(sims: seq<real>, choice: seq<bool>)
    requires |sims| == |choice|
    ensures Chosen(choice) <= |sims|
    ensures ChosenSum(sims, choice) <= SumFirst(SortDescending(sims), Chosen(choice))
  {
    ChosenAtMost(choice);
    FirstSumIsGreatest(sims, choice, SortDescending(sims), Chosen(choice), ChosenSum(sims, choice));
  }

  lemma {:induction false} FirstSumIsGreatest(sims: seq<real>, choice: seq<bool>, sorted: seq<real>, k: nat, sum: real)
    requires |sims| == |choice| && sorted == SortDescending(sims)
    requires k == Chosen(choice) && sum == ChosenSum(sims, choice)
    ensures k <= |sims| && sum <= SumFirst(sorted, k)
  {
    ChosenAtMost(choice);
    if sims != [] {
      var s, n, rest := SortDescending(sims[1..]), Chosen(choice[1..]), ChosenSum(sims[1..], choice[1..]);
      FirstSumIsGreatest(sims[1..], choice[1..], s, n, rest);
      SortIsDescending(sims[1..]);
      OneMoreChoice(sims[0], s, choice[0], n, rest, sorted, k, sum);
    }
  }

  lemma OneMoreChoice(x: real, s: seq<real>, taken: bool, k: nat, sum: real, sorted: seq<real>, k': nat, sum': real)
    requires Descending(s) && k <= |s| && sum <= SumFirst(s, k)
    requires sorted == InsertDescending(x, s)
    requires k' == (if taken then k + 1 else k) && sum' == if taken then x + sum else sum
    ensures k' <= |sorted| && sum' <= SumFirst(sorted, k')
  {
    SumFirstInserted(x, s, k');
  }

  /** And some choice has exactly that sum. */
  lemma {:induction false} FirstAreAChoice(sims: seq<real>, k: nat) returns (choice: seq<bool>)
    requires k <= |sims|
    ensures |choice| == |sims| && Chosen(choice) == k
    ensures ChosenSum(sims, choice) == SumFirst(SortDescending(sims), k)
  {
    if sims == [] {
      choice := [];
    } else {
      var s := SortDescending(sims[1..]);
      SortIsDescending(sims[1..]);
      SumFirstInserted(sims[0], s, k);
      var taken := !(k <= |s| && SumFirst(InsertDescending(sims[0], s), k) == SumFirst(s, k));
      var rest := FirstAreAChoice(sims[1..], if taken then k - 1 else k);
      choice := [taken] + rest;
      assert choice[1..] == rest;
    }
  }

  lemma DivideOrder(x: real, y: real, k: nat)
    requires x <= y && k >= 1
    ensures x / k as real <= y / k as real
  {
    var d, r := y - x, k as real;
    assert d / r >= 0.0;
    assert y / r - x / r == d / r;
  }

  /** A score of these similarities: none without anchors; else attained as the mean of some choice of
      `k` of them, and by no choice of `k` exceeded, with `k` at least one and at most all of them. */
  ghost predicate IsBestMean(sims: seq<real>, topK: nat, score: real) {
    if sims == [] then score == 0.0
    else
      var k := if topK == 0 then 1 else if topK < |sims| then topK else |sims|;
      && (exists best: seq<bool> :: |best| == |sims| && Chosen(best) == k && score == ChosenSum(sims, best) / k as real)
      && (forall choice: seq<bool> :: |choice| == |sims| && Chosen(choice) == k ==>
            ChosenSum(sims, choice) / k as real <= score)
  }

  /** A label's score is the maximum of the mean similarity over all choices of `top_k` of its anchors. */
  lemma ScoreIsMaximumMean(sims: seq<real>, topK: nat)
    ensures IsBestMean(sims, topK, Score(sims, topK))
  {
    if sims != [] {
      var k := Clamp(topK, |sims|);
      var best := FirstAreAChoice(sims, k);
      forall choice: seq<bool> | |choice| == |sims| && Chosen(choice) == k
        ensures ChosenSum(sims, choice) / k as real <= Score(sims, topK)
      {
        FirstAreGreatest(sims, choice);
        DivideOrder(ChosenSum(sims, choice), SumFirst(SortDescending(sims), k), k);
      }
    }
  }

  // ---- The ranking --------------------------------------------------------------------------------

  /** Byte-wise lexicographic order of labels. */
  predicate Precedes(a: Text, b: Text) {
    if b == [] then false
    else if a == [] then true
    else a[0] < b[0] || (a[0] == b[0] && Precedes(a[1..], b[1..]))
  }

  lemma {:induction false} PrecedesIsTotal(a: Text, b: Text)
    ensures a != b ==> Precedes(a, b) != Precedes(b, a)
    ensures a == b ==> !Precedes(a, b)
  {
    if a != [] && b != [] {
      PrecedesIsTotal(a[1..], b[1..]);
      assert a == [a[0]] + a[1..] && b == [b[0]] + b[1..];
    }
  }

  lemma {:induction false} PrecedesIsTransitive(a: Text, b: Text, c: Text)
    requires Precedes(a, b) && Precedes(b, c)
    ensures Precedes(a, c)
  {
    if a != [] && a[0] == b[0] == c[0] { PrecedesIsTransitive(a[1..], b[1..], c[1..]); }
  }

  type Ranked = (Text, real)

  /** Higher score first; equal scores by label. */
  predicate Before(a: Ranked, b: Ranked) {
    a.1 > b.1 || (a.1 == b.1 && Precedes(a.0, b.0))
  }

  ghost predicate InOrder(s: seq<Ranked>) {
    forall i, j :: 0 <= i < j < |s| ==> Before(s[i], s[j])
  }

  ghost predicate DistinctLabels(s: seq<Ranked>) {
    forall i, j :: 0 <= i < j < |s| ==> s[i].0 != s[j].0
  }

  function InsertRanked(x: Ranked, s: seq<Ranked>): seq<Ranked> {
    if s == [] || Before(x, s[0]) then [x] + s else [s[0]] + InsertRanked(x, s[1..])
  }

  /** The library's sort with this comparison. */
  function SortRanked(s: seq<Ranked>): seq<Ranked> {
    if s == [] then [] else InsertRanked(s[0], SortRanked(s[1..]))
  }

  lemma BeforeIsTransitive(a: Ranked, b: Ranked, c: Ranked)
    requires Before(a, b) && Before(b, c)
    ensures Before(a, c)
  {
    if a.1 == b.1 == c.1 { PrecedesIsTransitive(a.0, b.0, c.0); }
  }

  lemma {:induction false} InsertRankedInOrder(x: Ranked, s: seq<Ranked>)
    requires InOrder(s) && forall y :: y in s ==> y.0 != x.0
    ensures InOrder(InsertRanked(x, s))
    ensures multiset(InsertRanked(x, s)) == multiset(s) + multiset{x}
    ensures forall y :: y in InsertRanked(x, s) <==> y == x || y in s
  {
    if s == [] {
    } else if Before(x, s[0]) {
      forall i | 0 < i < |s| ensures Before(x, s[i]) { BeforeIsTransitive(x, s[0], s[i]); }
    } else {
      InsertRankedInOrder(x, s[1..]);
      PrecedesIsTotal(x.0, s[0].0);
      assert s[0] in s;
      var rest := InsertRanked(x, s[1..]);
      assert s == [s[0]] + s[1..];
      forall i | 0 <= i < |rest| ensures Before(s[0], rest[i]) {
        assert rest[i] in rest;
      }
    }
  }

  /** With distinct labels the ranking is a permutation of the labels, by score and then by label. */
  lemma {:induction false} RankingInOrder(s: seq<Ranked>)
    requires DistinctLabels(s)
    ensures InOrder(SortRanked(s)) && multiset(SortRanked(s)) == multiset(s)
    ensures forall y :: y in SortRanked(s) <==> y in s
  {
    if s != [] {
      RankingInOrder(s[1..]);
      InsertRankedInOrder(s[0], SortRanked(s[1..]));
      assert s == [s[0]] + s[1..];
    }
  }

  /** Lexicographic order of bytes: a proper prefix comes first, else the first difference decides. */
  ghost predicate Lexicographic(a: Text, b: Text, k: nat) {
    && k <= |a| && k <= |b| && a[..k] == b[..k]
    && ((k == |a| && k < |b|) || (k < |a| && k < |b| && a[k] < b[k]))
  }

  lemma {:induction false} PrecedesIsLexicographic(a: Text, b: Text)
    ensures Precedes(a, b) <==> exists k :: Lexicographic(a, b, k)
  {
    if a == [] && b != [] {
      assert Lexicographic(a, b, 0);
    } else if a != [] && b != [] {
      PrecedesIsLexicographic(a[1..], b[1..]);
      if a[0] < b[0] {
        assert Lexicographic(a, b, 0);
      } else if a[0] == b[0] {
        if k: nat :| Lexicographic(a[1..], b[1..], k) {
          assert a[..k + 1] == [a[0]] + a[1..][..k] && b[..k + 1] == [b[0]] + b[1..][..k];
          assert Lexicographic(a, b, k + 1);
        }
        if k: nat :| Lexicographic(a, b, k) {
          assert k > 0 && a[1..][..k - 1] == a[..k][1..] && b[1..][..k - 1] == b[..k][1..];
          assert Lexicographic(a[1..], b[1..], k - 1);
        }
      }
    }
  }

  /** With distinct labels: the greater score comes first, and of equal scores the lesser label. */
  lemma RankingDescends(s: seq<Ranked>, i: nat, j: nat)
    requires DistinctLabels(s) && i < j < |s|
    ensures
      var r := SortRanked(s);
      && |r| == |s| && r[i].1 >= r[j].1
      && (r[i].1 == r[j].1 ==> exists k :: Lexicographic(r[i].0, r[j].0, k))
  {
    RankingInOrder(s);
    var r := SortRanked(s);
    assert |multiset(r)| == |multiset(s)|;
    assert Before(r[i], r[j]);
    PrecedesIsLexicographic(r[i].0, r[j].0);
  }

  lemma BeforeIsStrict(a: Ranked, b: Ranked)
    ensures !(Before(a, b) && Before(b, a))
  {
    PrecedesIsTotal(a.0, b.0);
  }

  /** There is only one ranking: any list in order with the same members is the same list. */
  lemma {:induction false} RankingIsUnique(s: seq<Ranked>, t: seq<Ranked>)
    requires InOrder(s) && InOrder(t) && multiset(s) == multiset(t)
    ensures s == t
  {
    if s == [] || t == [] {
      assert |multiset(s)| == |multiset(t)|;
    } else {
      FirstIsFirst(s, t);
      SameRest(s, t);
      RankingIsUnique(s[1..], t[1..]);
      assert s == [s[0]] + s[1..] && t == [t[0]] + t[1..];
    }
  }

  lemma FirstIsFirst(s: seq<Ranked>, t: seq<Ranked>)
    requires s != [] && t != [] && InOrder(s) && InOrder(t) && multiset(s) == multiset(t)
    ensures s[0] == t[0]
  {
    assert s[0] in multiset(t) && t[0] in multiset(s);
    var i :| 0 <= i < |t| && t[i] == s[0];
    var j :| 0 <= j < |s| && s[j] == t[0];
    BeforeIsStrict(s[0], t[0]);
  }

  /** A label with its anchors. */
  datatype AnchorSet = AnchorSet(name: Text, vectors: seq<Vector>)

  function Map<A, B>(f: A -> B, s: seq<A>): seq<B> {
    if s == [] then [] else [f(s[0])] + Map(f, s[1..])
  }

  function ScoreOf(root: real -> real, embedding: Vector, topK: nat): AnchorSet -> Ranked {
    (anchors: AnchorSet) => (anchors.name, Score(Map((v: Vector) => Cosine(root, embedding, v), anchors.vectors), topK))
  }

  function AnchorRank(root: real -> real, embedding: Vector, sets: seq<AnchorSet>, topK: nat): seq<Ranked> {
    SortRanked(Map(ScoreOf(root, embedding, topK), sets))
  }

  lemma {:induction false} MapAt<A, B>(f: A -> B, s: seq<A>)
    ensures |Map(f, s)| == |s|
    ensures forall i :: 0 <= i < |s| ==> Map(f, s)[i] == f(s[i])
  {
    if s != [] { MapAt(f, s[1..]); }
  }

  /** Mapping a list with one more element in the middle. */
  lemma {:induction false} MapMiddle<A, B>(f: A -> B, l: seq<A>, x: A, r: seq<A>)
    ensures multiset(Map(f, l + [x] + r)) == multiset(Map(f, l + r)) + multiset{f(x)}
  {
    if l == [] {
      assert l + [x] + r == [x] + r && l + r == r;
    } else {
      var with, without := l + [x] + r, l + r;
      assert with[0] == l[0] && with[1..] == l[1..] + [x] + r;
      assert without[0] == l[0] && without[1..] == l[1..] + r;
      MapMiddle(f, l[1..], x, r);
      assert Map(f, with) == [f(l[0])] + Map(f, with[1..]);
      assert Map(f, without) == [f(l[0])] + Map(f, without[1..]);
    }
  }

  lemma TakeOut<A>(t: seq<A>, x: A) returns (l: seq<A>, r: seq<A>)
    requires x in multiset(t)
    ensures t == l + [x] + r && multiset(l + r) == multiset(t) - multiset{x}
  {
    var j :| 0 <= j < |t| && t[j] == x;
    l, r := t[..j], t[j + 1..];
    assert t == l + [x] + r;
  }

  lemma {:induction false} MapPermutes<A, B>(f: A -> B, s: seq<A>, t: seq<A>)
    requires multiset(s) == multiset(t)
    ensures multiset(Map(f, s)) == multiset(Map(f, t))
    decreases |s|
  {
    if s == [] {
      assert |multiset(t)| == 0;
    } else {
      assert s == [s[0]] + s[1..];
      assert s[0] in multiset(s);
      var l, r := TakeOut(t, s[0]);
      MapMiddle(f, l, s[0], r);
      assert multiset(s[1..]) == multiset(s) - multiset{s[0]};
      MapPermutes(f, s[1..], l + r);
    }
  }

  lemma {:induction false} DescendingIsUnique(s: seq<real>, t: seq<real>)
    requires Descending(s) && Descending(t) && multiset(s) == multiset(t)
    ensures s == t
  {
    assert |multiset(s)| == |multiset(t)|;
    if s != [] {
      HeadIsLargest(s, t);
      HeadIsLargest(t, s);
      SameRest(s, t);
      DescendingIsUnique(s[1..], t[1..]);
      assert s == [s[0]] + s[1..] && t == [t[0]] + t[1..];
    }
  }

  lemma HeadIsLargest(s: seq<real>, t: seq<real>)
    requires s != [] && t != [] && Descending(s) && multiset(s) == multiset(t)
    ensures s[0] >= t[0]
  {
    assert t[0] in multiset(s);
    var i :| 0 <= i < |s| && s[i] == t[0];
  }

  lemma SameRest<A>(s: seq<A>, t: seq<A>)
    requires s != [] && t != [] && s[0] == t[0] && multiset(s) == multiset(t)
    ensures multiset(s[1..]) == multiset(t[1..])
  {
    assert s == [s[0]] + s[1..] && t == [t[0]] + t[1..];
    assert multiset(s[1..]) == multiset(s) - multiset{s[0]};
    assert multiset(t[1..]) == multiset(t) - multiset{t[0]};
  }

  lemma ScoreIgnoresOrder(s: seq<real>, t: seq<real>, topK: nat)
    requires multiset(s) == multiset(t)
    ensures Score(s, topK) == Score(t, topK)
  {
    assert |multiset(s)| == |multiset(t)|;
    SortIsDescending(s);
    SortIsDescending(t);
    DescendingIsUnique(SortDescending(s), SortDescending(t));
  }

  ghost predicate DistinctNames(sets: seq<AnchorSet>) {
    forall i, j :: 0 <= i < j < |sets| ==> sets[i].name != sets[j].name
  }

  /** The same labels with the same anchors, anchors of a label in any order. */
  ghost predicate SameAnchors(a: seq<AnchorSet>, b: seq<AnchorSet>) {
    && |a| == |b|
    && forall i :: 0 <= i < |a| ==> a[i].name == b[i].name && multiset(a[i].vectors) == multiset(b[i].vectors)
  }

  /**
    What the ranking is: each label once with its score, by score and then by label; and neither the
    order of the labels nor the order of a label's anchors matters.
   */
  lemma AnchorRankIsCanonical(root: real -> real, embedding: Vector, sets: seq<AnchorSet>, middle: seq<AnchorSet>,
      other: seq<AnchorSet>, topK: nat)
    requires DistinctNames(sets)
    requires multiset(middle) == multiset(sets) && SameAnchors(middle, other)
    ensures InOrder(AnchorRank(root, embedding, sets, topK))
    ensures multiset(AnchorRank(root, embedding, sets, topK)) == multiset(Map(ScoreOf(root, embedding, topK), sets))
    ensures AnchorRank(root, embedding, other, topK) == AnchorRank(root, embedding, sets, topK)
  {
    var f := ScoreOf(root, embedding, topK);
    MapAt(f, sets);
    MapAt(f, middle);
    RankingInOrder(Map(f, sets));
    SameScores(root, embedding, middle, other, topK);
    NamesStayDistinct(sets, middle);
    RankingInOrder(Map(f, middle));
    MapPermutes(f, middle, sets);
    RankingIsUnique(SortRanked(Map(f, middle)), SortRanked(Map(f, sets)));
  }

  lemma SameScores(root: real -> real, embedding: Vector, a: seq<AnchorSet>, b: seq<AnchorSet>, topK: nat)
    requires SameAnchors(a, b)
    ensures Map(ScoreOf(root, embedding, topK), a) == Map(ScoreOf(root, embedding, topK), b)
  {
    var f := ScoreOf(root, embedding, topK);
    var similarity := (v: Vector) => Cosine(root, embedding, v);
    MapAt(f, a);
    MapAt(f, b);
    forall i | 0 <= i < |a| ensures f(a[i]) == f(b[i]) {
      MapPermutes(similarity, a[i].vectors, b[i].vectors);
      ScoreIgnoresOrder(Map(similarity, a[i].vectors), Map(similarity, b[i].vectors), topK);
    }
  }

  /** The similarities of an embedding to the anchors of a label, in their order. */
  function Similarities(root: real -> real, embedding: Vector, vectors: seq<Vector>): (sims: seq<real>)
    ensures |sims| == |vectors| && forall i :: 0 <= i < |vectors| ==> sims[i] == Cosine(root, embedding, vectors[i])
  {
    seq(|vectors|, i requires 0 <= i < |vectors| => Cosine(root, embedding, vectors[i]))
  }

  /** Each label is ranked with the best mean of `top_k` of its own similarities, and nothing else is
      ranked. */
  lemma AnchorRankScores(root: real -> real, embedding: Vector, sets: seq<AnchorSet>, topK: nat, i: nat)
      returns (score: real)
    requires DistinctNames(sets) && i < |sets|
    ensures |AnchorRank(root, embedding, sets, topK)| == |sets|
    ensures (sets[i].name, score) in AnchorRank(root, embedding, sets, topK)
    ensures IsBestMean(Similarities(root, embedding, sets[i].vectors), topK, score)
  {
    var f := ScoreOf(root, embedding, topK);
    var similarity := (v: Vector) => Cosine(root, embedding, v);
    var sims := Similarities(root, embedding, sets[i].vectors);
    MapAt(f, sets);
    MapAt(similarity, sets[i].vectors);
    assert Map(similarity, sets[i].vectors) == sims;
    score := Score(sims, topK);
    ScoreIsMaximumMean(sims, topK);
    RankingInOrder(Map(f, sets));
    assert Map(f, sets)[i] == (sets[i].name, score);
    assert |multiset(SortRanked(Map(f, sets)))| == |multiset(Map(f, sets))|;
  }

  // ---- Ranking by single prototypes ---------------------------------------------------------------

  datatype Prototype = Prototype(name: Text, vector: Vector)

  function SimilarityOf(root: real -> real, embedding: Vector): Prototype -> Ranked {
    (p: Prototype) => (p.name, Cosine(root, embedding, p.vector))
  }

  function CosineRank(root: real -> real, embedding: Vector, prototypes: seq<Prototype>): seq<Ranked> {
    SortRanked(Map(SimilarityOf(root, embedding), prototypes))
  }

  function OneAnchor(): Prototype -> AnchorSet {
    (p: Prototype) => AnchorSet(p.name, [p.vector])
  }

  /** Labels with one anchor each are ranked as prototypes are, whatever `top_k` asks for. */
  lemma SingleAnchorsRankByCosine(root: real -> real, embedding: Vector, prototypes: seq<Prototype>, topK: nat)
    ensures AnchorRank(root, embedding, Map(OneAnchor(), prototypes), topK) == CosineRank(root, embedding, prototypes)
  {
    var sets := Map(OneAnchor(), prototypes);
    var scored, similar := Map(ScoreOf(root, embedding, topK), sets), Map(SimilarityOf(root, embedding), prototypes);
    MapAt(OneAnchor(), prototypes);
    MapAt(ScoreOf(root, embedding, topK), sets);
    MapAt(SimilarityOf(root, embedding), prototypes);
    forall i | 0 <= i < |prototypes| ensures scored[i] == similar[i] {
      ScoreOfOne(root, embedding, prototypes[i], topK);
    }
    assert scored == similar;
  }

  lemma ScoreOfOne(root: real -> real, embedding: Vector, p: Prototype, topK: nat)
    ensures ScoreOf(root, embedding, topK)(OneAnchor()(p)) == SimilarityOf(root, embedding)(p)
  {
    var x := Cosine(root, embedding, p.vector);
    var similarity := (v: Vector) => Cosine(root, embedding, v);
    assert Map(similarity, [p.vector]) == [x];
    assert SortDescending([x]) == [x];
    assert SumFirst([x], 1) == x;
  }

  lemma {:induction false} NamesStayDistinct(sets: seq<AnchorSet>, other: seq<AnchorSet>)
    requires DistinctNames(sets) && multiset(sets) == multiset(other)
    ensures DistinctNames(other)
  {
    forall i, j | 0 <= i < j < |other| ensures other[i].name != other[j].name {
      var a, b := other[i], other[j];
      assert other == other[..i] + [a] + other[i + 1..j] + [b] + other[j + 1..];
      assert multiset{a, b} <= multiset(sets);
      if a == b { TwiceInTwoPlaces(sets, a); }
      assert a in multiset(sets) && b in multiset(sets);
    }
  }

  lemma {:induction false} TwiceInTwoPlaces(sets: seq<AnchorSet>, a: AnchorSet)
    requires multiset(sets)[a] >= 2
    ensures exists i, j :: 0 <= i < j < |sets| && sets[i] == sets[j] == a
  {
    assert a in multiset(sets);
    var i :| 0 <= i < |sets| && sets[i] == a;
    var rest := sets[..i] + sets[i + 1..];
    assert sets == sets[..i] + [a] + sets[i + 1..];
    assert multiset(rest)[a] >= 1;
    assert a in multiset(rest);
    var k :| 0 <= k < |rest| && rest[k] == a;
    if k < i { assert sets[k] == a; } else { assert sets[k + 1] == a; }
  }
}
