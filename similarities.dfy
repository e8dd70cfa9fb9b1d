/**
 The four similarity metrics over sparse vectors (dictionaries from a key to a
 float, here maps to exact reals). Jaccard and Dice look only at the key sets;
 cosine divides the dot product over the shared keys by the product of the two
 Euclidean norms, rounded to ten decimal places; Pearson is cosine after
 centring each vector on its own mean.

 The square root is not computable on reals, so cosine and Pearson take it as
 a parameter `sqrt`; the lemmas that need it to be a square root say so with
 `IsRoot(sqrt)`.
 */
module Similarities {
  import opened Sums

  /** `sqrt` returns the non-negative square root of every non-negative real. */
  ghost predicate IsRoot(sqrt: real -> real)
  {
    forall t :: 0.0 <= t ==> 0.0 <= sqrt(t) && Square(sqrt(t)) == t
  }

  // ---------------------------------------------------------------- sets

  lemma {:induction false} SubsetSize<K>(a: set<K>, b: set<K>)
    requires a <= b
    ensures |a| <= |b|
    ensures |a| == |b| ==> a == b
    decreases |a|
  {
    if a != {} {
      var x :| x in a;
      SubsetSize(a - {x}, b - {x});
      if |a| == |b| {
        assert a - {x} == b - {x};
        assert a == (a - {x}) + {x} && b == (b - {x}) + {x};
      }
    }
  }

  /** Cardinality facts about the intersection and union of two key sets. */
  lemma OverlapSizes<K>(a: set<K>, b: set<K>)
    ensures |a * b| <= |a| && |a * b| <= |b| && |a| <= |a + b|
    ensures |a * b| == |a + b| ==> a == b
    ensures |a * b| == |a| && |a * b| == |b| ==> a == b
    ensures |a * b| == 0 <==> a !! b
  {
    SubsetSize(a * b, a);
    SubsetSize(a * b, b);
    SubsetSize(a, a + b);
    SubsetSize(a * b, a + b);
    if a * b == {} {
      forall x | x in a ensures x !in b {
        assert x !in a * b;
      }
    } else {
      var x :| x in a * b;
      assert !(a !! b);
    }
  }

  /** Full overlap, in the two ways Jaccard and Dice measure it, means equal non-empty sets. */
  lemma FullOverlap<K>(a: set<K>, b: set<K>)
    ensures |a * b| == |a + b| && |a + b| > 0 <==> a == b && |a| > 0
    ensures 2 * |a * b| == |a| + |b| && |a| + |b| > 0 <==> a == b && |a| > 0
  {
    OverlapSizes(a, b);
    if a == b {
      assert a * b == a && a + b == a;
    }
  }

  // ---------------------------------------------------------------- Jaccard, Dice

  /** A quotient a / d of naturals with a <= d lies in [0, 1] and is 0 or 1 only at the ends. */
  lemma Fraction(a: nat, d: nat)
    requires 0 <= a <= d && d > 0
    ensures 0.0 <= (a as real) / (d as real) <= 1.0
    ensures (a as real) / (d as real) == 0.0 <==> a == 0
    ensures (a as real) / (d as real) == 1.0 <==> a == d
  {
    var q := (a as real) / (d as real);
    assert q * (d as real) == a as real;
  }

  /** Jaccard on the two key sets `set(x)` and `set(y)`. */
  function KeySetJaccard<K>(a: set<K>, b: set<K>): (r: real)
    ensures 0.0 <= r <= 1.0
    ensures r == 0.0 <==> a !! b
    ensures r == 1.0 <==> a == b && |a| > 0
  {
    OverlapSizes(a, b);
    FullOverlap(a, b);
    var intersection := a * b;
    var union := a + b;
    var denominator := |union|;
    if denominator == 0 then 0.0
    else
      Fraction(|intersection|, denominator);
      (|intersection| as real) / (denominator as real)
  }

  /** Dice on the two key sets `set(x)` and `set(y)`. */
  function KeySetDice<K>(a: set<K>, b: set<K>): (r: real)
    ensures 0.0 <= r <= 1.0
    ensures r == 0.0 <==> a !! b
    ensures r == 1.0 <==> a == b && |a| > 0
  {
    OverlapSizes(a, b);
    FullOverlap(a, b);
    var intersection := a * b;
    var denominator := |a| + |b|;
    if denominator == 0 then 0.0
    else
      Fraction(2 * |intersection|, denominator);
      assert 2.0 * (|intersection| as real) == (2 * |intersection|) as real;
      2.0 * (|intersection| as real) / (denominator as real)
  }

  /**
   |keys x ∩ keys y| / |keys x ∪ keys y|, or 0 when both key sets are empty.
   It is 0 exactly for disjoint keys and 1 exactly for equal non-empty keys.
   */
  function Jaccard<K>(x: map<K, real>, y: map<K, real>): (r: real)
    ensures 0.0 <= r <= 1.0
    ensures r == 0.0 <==> x.Keys !! y.Keys
    ensures r == 1.0 <==> x.Keys == y.Keys && |x| > 0
  {
    assert |x| == |x.Keys|;
    KeySetJaccard(x.Keys, y.Keys)
  }

  /** 2 |keys x ∩ keys y| / (|x| + |y|), or 0 when both are empty. */
  function Dice<K>(x: map<K, real>, y: map<K, real>): (r: real)
    ensures 0.0 <= r <= 1.0
    ensures r == 0.0 <==> x.Keys !! y.Keys
    ensures r == 1.0 <==> x.Keys == y.Keys && |x| > 0
  {
    assert |x| == |x.Keys|;
    KeySetDice(x.Keys, y.Keys)
  }

  /** Jaccard is symmetric. */
  lemma {:induction false} JaccardSymmetric<K>(x: map<K, real>, y: map<K, real>)
    ensures Jaccard(x, y) == Jaccard(y, x)
  {
    assert x.Keys * y.Keys == y.Keys * x.Keys;
    assert x.Keys + y.Keys == y.Keys + x.Keys;
  }

  /** Dice is symmetric. */
  lemma {:induction false} DiceSymmetric<K>(x: map<K, real>, y: map<K, real>)
    ensures Dice(x, y) == Dice(y, x)
  {
    assert x.Keys * y.Keys == y.Keys * x.Keys;
  }

  /** Jaccard and Dice read the key sets only, never the values. */
  lemma SetMetricsUseKeysOnly<K>(x: map<K, real>, y: map<K, real>, x': map<K, real>, y': map<K, real>)
    requires x.Keys == x'.Keys && y.Keys == y'.Keys
    ensures Jaccard(x, y) == Jaccard(x', y')
    ensures Dice(x, y) == Dice(x', y')
  {
  }

  // ---------------------------------------------------------------- cosine

  /** The products x[k] * y[k] over the keys present in both maps. */
  function Products<K>(x: map<K, real>, y: map<K, real>): (r: map<K, real>)
    ensures r.Keys == x.Keys * y.Keys
  {
    map k | k in x.Keys * y.Keys :: x[k] * y[k]
  }

  /** The dot product, summed over the shared keys only. */
  ghost function Dot<K>(x: map<K, real>, y: map<K, real>): real
  {
    Sum(Products(x, y))
  }

  /** The value itself; see `Square`. */
  function Same(v: real): real
  {
    v
  }

  /**
   `v * v`: never negative, and zero only for zero. The second factor is
   written `Same(v)` because the solver reasons about a product of two
   distinct terms far more reliably than about a literal square.
   */
  function Square(v: real): (r: real)
    ensures r >= 0.0
    ensures v != 0.0 ==> r > 0.0
    ensures v == 0.0 ==> r == 0.0
  {
    v * Same(v)
  }

  /** The squares `val * val` of the values of x. */
  function Squares<K>(x: map<K, real>): (r: map<K, real>)
    ensures r.Keys == x.Keys
    ensures forall k :: k in x ==> r[k] == Square(x[k])
  {
    map k | k in x :: Square(x[k])
  }

  /** The sum of the squares of all values of x. */
  ghost function SquaredNorm<K>(x: map<K, real>): real
  {
    Sum(Squares(x))
  }

  /** The Euclidean norm, over the map's own full key set. */
  ghost function Norm<K>(sqrt: real -> real, x: map<K, real>): real
  {
    sqrt(SquaredNorm(x))
  }

  lemma {:induction false} DotSymmetric<K>(x: map<K, real>, y: map<K, real>)
    ensures Dot(x, y) == Dot(y, x)
  {
    assert Products(x, y) == Products(y, x) by {
      forall k | k in x.Keys * y.Keys
        ensures x[k] * y[k] == y[k] * x[k]
      {
      }
      assert x.Keys * y.Keys == y.Keys * x.Keys;
    }
  }

  /** Two vectors with no key in common have dot product 0. */
  lemma {:induction false} DotDisjoint<K>(x: map<K, real>, y: map<K, real>)
    requires x.Keys !! y.Keys
    ensures Dot(x, y) == 0.0
  {
    assert Products(x, y) == map[];
  }

  /** The norm is never negative. */
  lemma NormNonNegative<K>(sqrt: real -> real, x: map<K, real>)
    requires IsRoot(sqrt)
    ensures Norm(sqrt, x) >= 0.0
  {
    SumNonNegative(Squares(x));
  }

  /** The norm is non-negative, and it is zero exactly when every value is zero. */
  lemma {:induction false} NormZero<K>(sqrt: real -> real, x: map<K, real>)
    requires IsRoot(sqrt)
    ensures Norm(sqrt, x) >= 0.0
    ensures Norm(sqrt, x) == 0.0 <==> forall k :: k in x ==> x[k] == 0.0
  {
    var squares := Squares(x);
    SumNonNegative(squares);
    if forall k :: k in x ==> x[k] == 0.0 {
      SumOfZeros(squares);
      RootOfZero(sqrt);
    } else {
      var k :| k in x && x[k] != 0.0;
      SumPositive(squares, k);
      RootPositive(sqrt, SquaredNorm(x));
    }
  }

  /** The root of a positive number is positive. */
  lemma RootPositive(sqrt: real -> real, t: real)
    requires IsRoot(sqrt)
    requires t > 0.0
    ensures sqrt(t) > 0.0
  {
    assert Square(sqrt(t)) == t;
  }

  /** The root of zero is zero. */
  lemma RootOfZero(sqrt: real -> real)
    requires IsRoot(sqrt)
    ensures sqrt(0.0) == 0.0
  {
    assert Square(sqrt(0.0)) == 0.0;
  }

  /** Ten decimal places, as `round(p, 10)` does: ties go to the even neighbour. */
  const DecimalScale: real := 10000000000.0

  function RoundHalfEven(t: real): int
  {
    var f := t.Floor;
    var fraction := t - f as real;
    if fraction < 0.5 then f
    else if fraction > 0.5 then f + 1
    else if f % 2 == 0 then f
    else f + 1
  }

  function Round10(p: real): real
  {
    (RoundHalfEven(p * DecimalScale) as real) / DecimalScale
  }

  /**
   On a non-negative product the rounding guard fires exactly for the values
   up to 0.5e-10: the tie itself rounds to the even neighbour 0.
   */
  lemma Round10Zero(p: real)
    requires p >= 0.0
    ensures Round10(p) >= 0.0
    ensures Round10(p) == 0.0 <==> p <= 0.00000000005
  {
    var t := p * DecimalScale;
    var f := t.Floor;
    assert 0 <= f;
    if p <= 0.00000000005 {
      assert t <= 0.5;
      assert f == 0;
    } else if t < 1.0 {
      assert f == 0;
      assert RoundHalfEven(t) == 1;
    } else {
      assert f >= 1;
    }
  }

  /**
   Cosine similarity: the dot product over the rounded product of the norms,
   or 0 when that rounded product is zero.
   */
  ghost function Cosine<K>(sqrt: real -> real, x: map<K, real>, y: map<K, real>): real
  {
    GuardedQuotient(Dot(x, y), Norm(sqrt, x), Norm(sqrt, y))
  }

  /** `dot / round(nx * ny, 10)`, or 0 when the rounded denominator is zero. */
  function GuardedQuotient(dot: real, nx: real, ny: real): real
  {
    var denominator := Round10(nx * ny);
    if denominator == 0.0 then 0.0
    else dot / denominator
  }

  /**
   For non-negative norms the quotient is 0 when either norm is 0, and it is
   positive exactly when the exact product of the norms exceeds 0.5e-10 and
   the dot product is positive.
   */
  lemma GuardedQuotientSign(dot: real, nx: real, ny: real)
    requires nx >= 0.0 && ny >= 0.0
    ensures nx == 0.0 || ny == 0.0 ==> GuardedQuotient(dot, nx, ny) == 0.0
    ensures GuardedQuotient(dot, nx, ny) > 0.0 <==> nx * ny > 0.00000000005 && dot > 0.0
  {
    RoundedProduct(nx, ny);
    var d := Round10(nx * ny);
    if d != 0.0 {
      QuotientSign(dot, d);
    }
  }

  lemma {:induction false} CosineSymmetric<K>(sqrt: real -> real, x: map<K, real>, y: map<K, real>)
    ensures Cosine(sqrt, x, y) == Cosine(sqrt, y, x)
  {
    DotSymmetric(x, y);
    assert Norm(sqrt, x) * Norm(sqrt, y) == Norm(sqrt, y) * Norm(sqrt, x);
  }

  /** Vectors with disjoint keys have cosine 0. */
  lemma {:induction false} CosineDisjoint<K>(sqrt: real -> real, x: map<K, real>, y: map<K, real>)
    requires x.Keys !! y.Keys
    ensures Cosine(sqrt, x, y) == 0.0
  {
    DotDisjoint(x, y);
  }

  /** Dividing by a positive number keeps the sign. */
  lemma QuotientSign(a: real, d: real)
    requires d > 0.0
    ensures a / d > 0.0 <==> a > 0.0
  {
    var q := a / d;
    assert q * d == a;
    if q > 0.0 { assert q * d > 0.0; }
  }

  /**
   The rounded product of two norms is non-negative, and it is zero (so
   cosine is 0) exactly when the exact product is at most 0.5e-10; in
   particular when either norm is zero.
   */
  lemma RoundedProduct(a: real, b: real)
    requires a >= 0.0 && b >= 0.0
    ensures Round10(a * b) >= 0.0
    ensures Round10(a * b) == 0.0 <==> a * b <= 0.00000000005
    ensures a == 0.0 || b == 0.0 ==> Round10(a * b) == 0.0
  {
    if a > 0.0 && b > 0.0 { assert a * b > 0.0; } else { assert a * b == 0.0; }
    Round10Zero(a * b);
  }

  /** The zero guard: an empty or all-zero vector on either side gives 0. */
  lemma {:induction false} CosineDegenerate<K>(sqrt: real -> real, x: map<K, real>, y: map<K, real>)
    requires IsRoot(sqrt)
    requires (forall k :: k in x ==> x[k] == 0.0) || (forall k :: k in y ==> y[k] == 0.0)
    ensures Cosine(sqrt, x, y) == 0.0
  {
    NormZero(sqrt, x);
    NormZero(sqrt, y);
    var nx, ny := Norm(sqrt, x), Norm(sqrt, y);
    GuardedQuotientSign(Dot(x, y), nx, ny);
    assert Cosine(sqrt, x, y) == GuardedQuotient(Dot(x, y), nx, ny);
  }

  /**
   Cosine is positive exactly when the rounded guard does not fire and the
   dot product is positive.
   */
  lemma {:induction false} CosinePositive<K>(sqrt: real -> real, x: map<K, real>, y: map<K, real>)
    requires IsRoot(sqrt)
    ensures Cosine(sqrt, x, y) > 0.0 <==> Norm(sqrt, x) * Norm(sqrt, y) > 0.00000000005 && Dot(x, y) > 0.0
  {
    NormNonNegative(sqrt, x);
    NormNonNegative(sqrt, y);
    CosineSign(sqrt, x, y);
  }

  lemma CosineSign<K>(sqrt: real -> real, x: map<K, real>, y: map<K, real>)
    requires Norm(sqrt, x) >= 0.0 && Norm(sqrt, y) >= 0.0
    ensures Cosine(sqrt, x, y) > 0.0 <==> Norm(sqrt, x) * Norm(sqrt, y) > 0.00000000005 && Dot(x, y) > 0.0
  {
    GuardedQuotientSign(Dot(x, y), Norm(sqrt, x), Norm(sqrt, y));
  }

  // ---------------------------------------------------------------- Pearson

  /** The arithmetic mean of a non-empty vector: |x| times it is the sum. */
  ghost function Mean<K>(x: map<K, real>): (r: real)
    requires |x| > 0
    ensures (|x| as real) * r == Sum(x)
  {
    var n := |x| as real;
    assert n * (Sum(x) / n) == Sum(x);
    Sum(x) / n
  }

  /**
   The vector minus its own mean. The source divides by the number of
   entries, so the vector must not be empty. The result keeps the keys and
   its values sum to zero.
   */
  ghost function ZeroCentered<K>(x: map<K, real>): (r: map<K, real>)
    requires |x| > 0
    ensures r.Keys == x.Keys
    ensures forall k :: k in x ==> r[k] == x[k] - Mean(x)
    ensures Sum(r) == 0.0
  {
    SumShift(x, Mean(x));
    ScaledIsProduct(|x|, Mean(x));
    Shift(x, Mean(x))
  }

  /** The mean of a vector whose values all equal v is v. */
  lemma {:induction false} MeanOfConstant<K>(x: map<K, real>, v: real)
    requires |x| > 0
    requires forall k :: k in x ==> x[k] == v
    ensures Mean(x) == v
  {
    SumOfZeros(Shift(x, v));
    SumShift(x, v);
    ScaledIsProduct(|x|, v);
    var n := |x| as real;
    ZeroFactor(n, Mean(x) - v);
  }

  lemma ZeroFactor(n: real, c: real)
    requires n > 0.0 && n * c == 0.0
    ensures c == 0.0
  {
    assert c == (n * c) / n;
  }

  /** Pearson correlation: cosine of the two mean-centred vectors. */
  ghost function Pearson<K>(sqrt: real -> real, x: map<K, real>, y: map<K, real>): real
    requires |x| > 0 && |y| > 0
  {
    Cosine(sqrt, ZeroCentered(x), ZeroCentered(y))
  }

  lemma {:induction false} PearsonSymmetric<K>(sqrt: real -> real, x: map<K, real>, y: map<K, real>)
    requires |x| > 0 && |y| > 0
    ensures Pearson(sqrt, x, y) == Pearson(sqrt, y, x)
  {
    CosineSymmetric(sqrt, ZeroCentered(x), ZeroCentered(y));
  }

  /** A vector whose values are all equal centres to zero, so Pearson gives 0. */
  lemma {:induction false} PearsonConstant<K>(sqrt: real -> real, x: map<K, real>, y: map<K, real>, v: real)
    requires IsRoot(sqrt)
    requires |x| > 0 && |y| > 0
    requires forall k :: k in x ==> x[k] == v
    ensures Pearson(sqrt, x, y) == 0.0
  {
    MeanOfConstant(x, v);
    var c := ZeroCentered(x);
    assert forall k :: k in c ==> c[k] == 0.0;
    CosineDegenerate(sqrt, c, ZeroCentered(y));
  }

  // ---------------------------------------------------------------- selection

  /** The metric a request names; `getattr(similarities, name)` in the caller. */
  datatype Metric = JaccardIndex | DiceCoefficient | CosineSimilarity | PearsonCorrelation

  /** Pearson divides by the number of entries of each vector. */
  predicate Applicable<K>(metric: Metric, x: map<K, real>, y: map<K, real>)
  {
    metric.PearsonCorrelation? ==> |x| > 0 && |y| > 0
  }

  /** The chosen metric applied to x and y. */
  ghost function Similarity<K>(metric: Metric, sqrt: real -> real, x: map<K, real>, y: map<K, real>): (r: real)
    requires Applicable(metric, x, y)
    ensures metric.JaccardIndex? || metric.DiceCoefficient? ==> 0.0 <= r <= 1.0
    ensures !metric.PearsonCorrelation? && x.Keys !! y.Keys ==> r == 0.0
  {
    match metric
    case JaccardIndex => Jaccard(x, y)
    case DiceCoefficient => Dice(x, y)
    case CosineSimilarity => (if x.Keys !! y.Keys then CosineDisjoint(sqrt, x, y); Cosine(sqrt, x, y) else Cosine(sqrt, x, y))
    case PearsonCorrelation => Pearson(sqrt, x, y)
  }

  /** Every metric is symmetric. */
  lemma {:induction false} SimilaritySymmetric<K>(metric: Metric, sqrt: real -> real, x: map<K, real>, y: map<K, real>)
    requires Applicable(metric, x, y)
    ensures Applicable(metric, y, x)
    ensures Similarity(metric, sqrt, x, y) == Similarity(metric, sqrt, y, x)
  {
    match metric
    case JaccardIndex => JaccardSymmetric(x, y);
    case DiceCoefficient => DiceSymmetric(x, y);
    case CosineSimilarity => CosineSymmetric(sqrt, x, y);
    case PearsonCorrelation => PearsonSymmetric(sqrt, x, y);
  }
}
