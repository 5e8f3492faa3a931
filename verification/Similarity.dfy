/** Cosine similarity over exact reals (plugins/memory/src/similarity.rs). */
module Similarity {
  import opened Wrappers

  type Embedding = seq<real>

  datatype SimilarityError = DimensionMismatch(left: nat, right: nat) | EmptyVectors

  /** f32::EPSILON, that is 2 to the power -23. */
  const EPSILON: real := 1.0 / 8388608.0

  // ----- the three sums

  function Dot(a: Embedding, b: Embedding): real
    requires |a| == |b|
  {
    if a == [] then 0.0 else Dot(a[..|a| - 1], b[..|b| - 1]) + a[|a| - 1] * b[|b| - 1]
  }

  function NormSquared(a: Embedding): (n: real)
    ensures n >= 0.0
  {
    if a == [] then 0.0 else NormSquared(a[..|a| - 1]) + Square(a[|a| - 1])
  }

  function Square(x: real): (s: real)
    ensures s >= 0.0
  {
    x * x
  }

  lemma {:induction false} DotCommutes(a: Embedding, b: Embedding)
    requires |a| == |b|
    ensures Dot(a, b) == Dot(b, a)
  {
    if a != [] {
      DotCommutes(a[..|a| - 1], b[..|b| - 1]);
      assert a[|a| - 1] * b[|b| - 1] == b[|b| - 1] * a[|a| - 1];
    }
  }

  lemma {:induction false} DotSelf(a: Embedding)
    ensures Dot(a, a) == NormSquared(a)
  {
    if a != [] {
      DotSelf(a[..|a| - 1]);
    }
  }

  // ----- Cauchy-Schwarz

  /** d*d is at most l*r. */
  ghost predicate SquareWithin(d: real, l: real, r: real) {
    Square(d) <= l * r
  }

  /** s*s is l*r. */
  ghost predicate SquareIs(s: real, l: real, r: real) {
    Square(s) == l * r
  }

  /** c is the quotient of d by the root of l*r, stated without the root. */
  ghost predicate IsQuotient(c: real, d: real, l: real, r: real) {
    Square(c) * (l * r) == Square(d)
  }

  lemma MulMonotone(a: real, b: real, c: real)
    requires a <= b && c >= 0.0
    ensures a * c <= b * c
  {
  }

  lemma MulStrict(a: real, b: real, c: real)
    requires a < b && c > 0.0
    ensures a * c < b * c
  {
  }

  lemma SquareStrict(u: real, v: real)
    requires 0.0 <= u < v
    ensures Square(u) < Square(v)
  {
    calc {
      Square(u);
      u * u;
    <= { MulMonotone(u, v, u); }
      v * u;
      u * v;
    <  { MulStrict(u, v, v); }
      v * v;
      Square(v);
    }
  }

  lemma SquareReflectsOrder(u: real, v: real)
    requires v >= 0.0 && Square(u) <= Square(v)
    ensures u <= v
  {
    if u > v {
      SquareStrict(v, u);
    }
  }

  lemma FourProducts(d: real, x: real, y: real)
    ensures Square(2.0 * (d * (x * y))) == 4.0 * (Square(d) * (Square(x) * Square(y)))
  {
  }

  /** If d*d <= l*r then 2*d*x*y <= l*y*y + r*x*x. */
  lemma CrossTerm(d: real, l: real, r: real, x: real, y: real)
    requires l >= 0.0 && r >= 0.0 && SquareWithin(d, l, r)
    ensures 2.0 * (d * (x * y)) <= l * Square(y) + r * Square(x)
  {
    var p, q := l * Square(y), r * Square(x);
    assert p >= 0.0 && q >= 0.0;
    var u := 2.0 * (d * (x * y));
    FourProducts(d, x, y);
    var xy := Square(x) * Square(y);
    assert xy >= 0.0;
    MulMonotone(Square(d), l * r, xy);
    assert (l * r) * xy == p * q by {
      assert p * q == l * (Square(y) * (r * Square(x))) == l * (r * (Square(x) * Square(y)));
    }
    assert Square(u) <= 4.0 * (p * q);
    assert Square(p + q) == Square(p - q) + 4.0 * (p * q) by {
      assert (p + q) * (p + q) == p * p + 2.0 * (p * q) + q * q;
      assert (p - q) * (p - q) == p * p - 2.0 * (p * q) + q * q;
    }
    SquareReflectsOrder(u, p + q);
  }

  lemma Expand(d: real, l: real, r: real, x: real, y: real)
    ensures Square(d + x * y) == Square(d) + 2.0 * (d * (x * y)) + Square(x) * Square(y)
    ensures (l + Square(x)) * (r + Square(y)) == l * r + l * Square(y) + r * Square(x) + Square(x) * Square(y)
  {
  }

  lemma {:induction false} CauchySchwarz(a: Embedding, b: Embedding)
    requires |a| == |b|
    ensures SquareWithin(Dot(a, b), NormSquared(a), NormSquared(b))
  {
    if a != [] {
      var n := |a| - 1;
      CauchySchwarz(a[..n], b[..n]);
      var d, l, r := Dot(a[..n], b[..n]), NormSquared(a[..n]), NormSquared(b[..n]);
      CrossTerm(d, l, r, a[n], b[n]);
      Expand(d, l, r, a[n], b[n]);
    }
  }

  // ----- the fused loop

  /** A square root on the nonnegative reals, standing for f32::sqrt without rounding. */
  ghost predicate IsSqrt(sqrt: real -> real) {
    forall x {:trigger sqrt(x)} :: x >= 0.0 ==> sqrt(x) >= 0.0 && sqrt(x) * sqrt(x) == x
  }

  function Clamp(x: real, lo: real, hi: real): real {
    if x < lo then lo else if x > hi then hi else x
  }

  /**
   * The cosine over exact arithmetic. A result r means: the angle's cosine when it is not negative,
   * and 0 otherwise or when a norm is at most EPSILON.
   */
  method CosineSimilarity(left: Embedding, right: Embedding, sqrt: real -> real)
    returns (r: Result<real, SimilarityError>)
    requires IsSqrt(sqrt)
    ensures r.Err? <==> |left| != |right| || left == []
    ensures r.Err? && |left| != |right| ==> r.error == DimensionMismatch(|left|, |right|)
    ensures r.Ok? ==> 0.0 <= r.value <= 1.0
    ensures r.Ok? && !Degenerate(left, right) && Dot(left, right) < 0.0 ==> r.value == 0.0
    ensures r.Ok? && !Degenerate(left, right) && Dot(left, right) >= 0.0 ==>
              IsQuotient(r.value, Dot(left, right), NormSquared(left), NormSquared(right))
    ensures r.Ok? && Degenerate(left, right) ==> r.value == 0.0
    ensures r == Answer(left, right, sqrt)
  {
    if |left| != |right| {
      return Err(DimensionMismatch(|left|, |right|));
    }
    if |left| == 0 {
      return Err(EmptyVectors);
    }
    var dotProduct, leftNorm, rightNorm := 0.0, 0.0, 0.0;
    for i := 0 to |left|
      invariant dotProduct == Dot(left[..i], right[..i])
      invariant leftNorm == NormSquared(left[..i]) && rightNorm == NormSquared(right[..i])
    {
      assert left[..i + 1][..i] == left[..i] && right[..i + 1][..i] == right[..i];
      dotProduct := dotProduct + left[i] * right[i];
      leftNorm := leftNorm + left[i] * left[i];
      rightNorm := rightNorm + right[i] * right[i];
    }
    assert left[..|left|] == left && right[..|right|] == right;
    if leftNorm <= EPSILON || rightNorm <= EPSILON {
      return Ok(0.0);
    }
    ClampedCosineBounds(left, right, sqrt);
    r := Ok(ClampedCosine(dotProduct, leftNorm, rightNorm, sqrt));
  }

  /** The value of the loop, for vectors of equal, positive length. */
  function Cosine(left: Embedding, right: Embedding, sqrt: real -> real): real
    requires |left| == |right|
  {
    var scale := RootProduct(NormSquared(left), NormSquared(right), sqrt);
    if Degenerate(left, right) || scale == 0.0 then 0.0 else ClampedQuotient(Dot(left, right), scale)
  }

  function Answer(left: Embedding, right: Embedding, sqrt: real -> real): Result<real, SimilarityError> {
    if |left| != |right| then Err(DimensionMismatch(|left|, |right|))
    else if left == [] then Err(EmptyVectors)
    else Ok(Cosine(left, right, sqrt))
  }

  function ClampedCosine(dot: real, leftNorm: real, rightNorm: real, sqrt: real -> real): real
    requires RootProduct(leftNorm, rightNorm, sqrt) != 0.0
  {
    ClampedQuotient(dot, RootProduct(leftNorm, rightNorm, sqrt))
  }

  function RootProduct(l: real, r: real, sqrt: real -> real): real {
    sqrt(l) * sqrt(r)
  }

  function ClampedQuotient(dot: real, scale: real): real
    requires scale != 0.0
  {
    Clamp(dot / scale, 0.0, 1.0)
  }

  lemma ClampedCosineBounds(left: Embedding, right: Embedding, sqrt: real -> real)
    requires IsSqrt(sqrt) && |left| == |right| && !Degenerate(left, right)
    ensures RootProduct(NormSquared(left), NormSquared(right), sqrt) != 0.0
    ensures var c := ClampedCosine(Dot(left, right), NormSquared(left), NormSquared(right), sqrt);
      && 0.0 <= c <= 1.0
      && (Dot(left, right) < 0.0 ==> c == 0.0)
      && (Dot(left, right) >= 0.0 ==> IsQuotient(c, Dot(left, right), NormSquared(left), NormSquared(right)))
  {
    RootScale(NormSquared(left), NormSquared(right), sqrt);
    CauchySchwarz(left, right);
    QuotientBounds(Dot(left, right), NormSquared(left), NormSquared(right),
      RootProduct(NormSquared(left), NormSquared(right), sqrt));
  }

  /** Where the source answers 0 without dividing. */
  predicate Degenerate(a: Embedding, b: Embedding) {
    NormSquared(a) <= EPSILON || NormSquared(b) <= EPSILON
  }

  lemma RootScale(l: real, r: real, sqrt: real -> real)
    requires IsSqrt(sqrt) && l > 0.0 && r > 0.0
    ensures RootProduct(l, r, sqrt) > 0.0
    ensures SquareIs(RootProduct(l, r, sqrt), l, r)
  {
    var u, v := sqrt(l), sqrt(r);
    assert u * u == l && v * v == r;
    assert u > 0.0 && v > 0.0;
    assert (u * v) * (u * v) == (u * u) * (v * v) by {
      assert (u * v) * (u * v) == u * (v * (u * v)) == u * (u * (v * v));
    }
  }

  lemma QuotientSign(d: real, scale: real)
    requires scale > 0.0 && d <= scale
    ensures d / scale <= 1.0
    ensures d < 0.0 <==> d / scale < 0.0
  {
  }

  /** Without rounding the quotient never exceeds 1, so only the lower clamp can act. */
  lemma QuotientBounds(d: real, l: real, r: real, scale: real)
    requires scale > 0.0 && SquareIs(scale, l, r) && SquareWithin(d, l, r)
    ensures d / scale <= 1.0
    ensures ClampedQuotient(d, scale) == if d < 0.0 then 0.0 else d / scale
    ensures 0.0 <= ClampedQuotient(d, scale) <= 1.0
    ensures d >= 0.0 ==> IsQuotient(ClampedQuotient(d, scale), d, l, r)
  {
    SquareReflectsOrder(d, scale);
    QuotientSign(d, scale);
    var q := d / scale;
    assert q * scale == d;
    assert (q * q) * (scale * scale) == (q * scale) * (q * scale) by {
      assert (q * scale) * (q * scale) == q * (scale * (q * scale)) == q * (q * (scale * scale));
    }
  }

  // ----- comparing a similarity with a threshold, without a square root

  /** `similarity >= threshold` for the similarity of two vectors of equal, positive length. */
  predicate Reaches(a: Embedding, b: Embedding, threshold: real)
    requires |a| == |b|
  {
    if Degenerate(a, b) || Dot(a, b) < 0.0 then threshold <= 0.0
    else threshold <= 0.0 || Square(threshold) * (NormSquared(a) * NormSquared(b)) <= Square(Dot(a, b))
  }

  lemma ReachesIsSymmetric(a: Embedding, b: Embedding, threshold: real)
    requires |a| == |b|
    ensures Reaches(a, b, threshold) == Reaches(b, a, threshold)
  {
    DotCommutes(a, b);
    assert NormSquared(a) * NormSquared(b) == NormSquared(b) * NormSquared(a);
  }

  /** A vector whose norm is not negligible reaches every threshold up to 1 against itself. */
  lemma ReachesItself(a: Embedding, threshold: real)
    requires NormSquared(a) > EPSILON
    ensures Reaches(a, a, threshold) <==> threshold <= 1.0
  {
    DotSelf(a);
    var n := NormSquared(a);
    assert n * n > 0.0;
    if 0.0 < threshold <= 1.0 {
      MulMonotone(threshold, 1.0, threshold);
      MulMonotone(Square(threshold), 1.0, n * n);
    }
    if threshold > 1.0 {
      SquareStrict(1.0, threshold);
      MulStrict(1.0, Square(threshold), n * n);
    }
  }

  /** Reaches decides the comparison that the source makes on the computed similarity. */
  lemma ReachesMeansAtLeast(a: Embedding, b: Embedding, threshold: real, s: real)
    requires |a| == |b| && 0.0 <= s
    requires Degenerate(a, b) || Dot(a, b) < 0.0 ==> s == 0.0
    requires !Degenerate(a, b) && Dot(a, b) >= 0.0 ==>
               IsQuotient(s, Dot(a, b), NormSquared(a), NormSquared(b))
    ensures Reaches(a, b, threshold) <==> s >= threshold
  {
    if !Degenerate(a, b) && Dot(a, b) >= 0.0 && threshold > 0.0 {
      var n := NormSquared(a) * NormSquared(b);
      assert n > 0.0;
      if s >= threshold {
        MulMonotone(threshold, s, threshold);
        MulMonotone(threshold, s, s);
        MulMonotone(Square(threshold), Square(s), n);
      } else {
        SquareStrict(s, threshold);
        MulStrict(Square(s), Square(threshold), n);
      }
    }
  }
}
