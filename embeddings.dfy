/**
 * Embedding vectors and their cosine similarity.
 *
 * The embedder is a total oracle `string -> Vector`: a load or inference failure is
 * reported as the empty vector rather than an error. It is passed as a parameter to
 * every operation that embeds text.
 *
 * The similarity is dot / (sqrt(na) * sqrt(nb)). Dafny has no square root on `real`, so
 * the value is kept exactly as computed, `Quotient(dot, na * nb)` standing for
 * dot / sqrt(na * nb). Every decision the code makes compares similarities with each
 * other or with a constant; those comparisons are made on Rank, the signed square
 * x * |x| of the value, which orders reals exactly as the reals themselves are ordered
 * (SignedSquareOrder, RankOrder, RankAgainstConstant).
 */
module Embeddings {

  type Vector = seq<real>

  /** The text embedder: total, and may return the empty vector. */
  type Embedder = string -> Vector

  type Positive = x: real | x > 0.0 witness 1.0

  /** An exact cosine similarity: 0, or dot / sqrt(norms). */
  datatype Cosine = Zero | Quotient(dot: real, norms: Positive)

  /** The sum of a[i] * b[i] over i < n, accumulated from index 0 upwards. */
  function Dot(a: Vector, b: Vector, n: nat): real
    requires n <= |a| && n <= |b|
  {
    if n == 0 then 0.0 else Dot(a, b, n - 1) + a[n - 1] * b[n - 1]
  }

  /** `Math.min(a.length, b.length)`. */
  function CommonLength(a: Vector, b: Vector): (n: nat)
    ensures n <= |a| && n <= |b| && (n == |a| || n == |b|)
  {
    if |a| <= |b| then |a| else |b|
  }

  lemma {:induction false} SquaresNonNegative(a: Vector, n: nat)
    requires n <= |a|
    ensures Dot(a, a, n) >= 0.0
  {
    if n > 0 {
      SquaresNonNegative(a, n - 1);
      assert a[n - 1] * a[n - 1] >= 0.0;
    }
  }

  /**
   * The cosine similarity over the common prefix; exactly 0 when either sum of
   * squares over that prefix is 0, in particular when either vector is empty.
   */
  function Similarity(a: Vector, b: Vector): (c: Cosine)
    ensures CommonLength(a, b) == 0 ==> c == Zero
  {
    var n := CommonLength(a, b);
    var na, nb := Dot(a, a, n), Dot(b, b, n);
    SquaresNonNegative(a, n);
    SquaresNonNegative(b, n);
    if na == 0.0 || nb == 0.0 then Zero
    else
      assert na * nb > 0.0;
      Quotient(Dot(a, b, n), na * nb)
  }

  /** The accumulation loop of `cosineSimilarity`, proved to compute Similarity. */
  method CosineSimilarity(a: Vector, b: Vector) returns (c: Cosine)
    ensures c == Similarity(a, b)
  {
    var dot, na, nb := 0.0, 0.0, 0.0;
    var len := if |a| <= |b| then |a| else |b|;
    for i := 0 to len
      invariant dot == Dot(a, b, i)
      invariant na == Dot(a, a, i)
      invariant nb == Dot(b, b, i)
    {
      dot := dot + a[i] * b[i];
      na := na + a[i] * a[i];
      nb := nb + b[i] * b[i];
    }
    SquaresNonNegative(a, len);
    SquaresNonNegative(b, len);
    if na == 0.0 || nb == 0.0 {
      return Zero;
    }
    assert na * nb > 0.0;
    c := Quotient(dot, na * nb);
  }

  function Abs(x: real): real {
    if x < 0.0 then -x else x
  }

  /** x * |x|: a strictly increasing map of the reals onto themselves. */
  function SignedSquare(x: real): real {
    x * Abs(x)
  }

  /** The signed square of the similarity's value, computed without a square root. */
  function Rank(c: Cosine): real {
    match c
    case Zero => 0.0
    case Quotient(d, n) => SignedSquare(d) / n
  }

  /** x is the real number c stands for: x == dot / sqrt(norms). */
  ghost predicate Denotes(c: Cosine, x: real) {
    match c
    case Zero => x == 0.0
    case Quotient(d, n) => x * x * n == d * d && (0.0 <= x <==> 0.0 <= d)
  }

  lemma SignedSquareIncreasing(x: real, y: real)
    requires x < y
    ensures SignedSquare(x) < SignedSquare(y)
  {
    if 0.0 <= x {
      assert x * x <= x * y;
      assert x * y < y * y;
    } else if y < 0.0 {
      var u, v := -x, -y;
      assert u > v > 0.0;
      assert u * u > u * v;
      assert u * v > v * v;
      assert SignedSquare(x) == -(u * u);
      assert SignedSquare(y) == -(v * v);
    } else {
      assert x * (-x) < 0.0;
      assert SignedSquare(x) < 0.0;
      assert y * y >= 0.0;
    }
  }

  lemma SignedSquareOrder(x: real, y: real)
    ensures x < y <==> SignedSquare(x) < SignedSquare(y)
    ensures x == y <==> SignedSquare(x) == SignedSquare(y)
  {
    if x < y {
      SignedSquareIncreasing(x, y);
    } else if y < x {
      SignedSquareIncreasing(y, x);
    }
  }

  /** The rank of a similarity is the signed square of the real it stands for. */
  lemma RankOfDenoted(c: Cosine, x: real)
    requires Denotes(c, x)
    ensures Rank(c) == SignedSquare(x)
  {
    match c
    case Zero =>
    case Quotient(d, n) =>
      assert x * x == d * d / n;
      if 0.0 <= x {
        assert SignedSquare(x) == x * x;
        assert SignedSquare(d) == d * d;
      } else {
        assert SignedSquare(x) == -(x * x);
        assert SignedSquare(d) == -(d * d);
      }
  }

  /** Comparing ranks is comparing the similarities themselves. */
  lemma RankOrder(c1: Cosine, x1: real, c2: Cosine, x2: real)
    requires Denotes(c1, x1) && Denotes(c2, x2)
    ensures x1 < x2 <==> Rank(c1) < Rank(c2)
    ensures x1 == x2 <==> Rank(c1) == Rank(c2)
  {
    RankOfDenoted(c1, x1);
    RankOfDenoted(c2, x2);
    SignedSquareOrder(x1, x2);
  }

  /** A similarity exceeds a constant t exactly when its rank exceeds SignedSquare(t). */
  lemma RankAgainstConstant(c: Cosine, x: real, t: real)
    requires Denotes(c, x)
    ensures x > t <==> Rank(c) > SignedSquare(t)
  {
    RankOfDenoted(c, x);
    SignedSquareOrder(t, x);
  }

  lemma {:induction false} DotSymmetric(a: Vector, b: Vector, n: nat)
    requires n <= |a| && n <= |b|
    ensures Dot(a, b, n) == Dot(b, a, n)
  {
    if n > 0 {
      DotSymmetric(a, b, n - 1);
    }
  }

  /** `cosineSimilarity(a, b) == cosineSimilarity(b, a)`. */
  lemma SimilaritySymmetric(a: Vector, b: Vector)
    ensures Similarity(a, b) == Similarity(b, a)
  {
    DotSymmetric(a, b, CommonLength(a, b));
  }

  lemma {:induction false} DotOfPrefixes(a: Vector, b: Vector, n: nat, m: nat)
    requires n <= m <= |a| && m <= |b|
    ensures Dot(a, b, n) == Dot(a[..m], b[..m], n)
  {
    if n > 0 {
      DotOfPrefixes(a, b, n - 1, m);
    }
  }

  /** Only the first min(|a|, |b|) entries are read: the longer vector's tail has no effect. */
  lemma SimilarityReadsCommonPrefix(a: Vector, b: Vector)
    ensures Similarity(a, b) == Similarity(a[..CommonLength(a, b)], b[..CommonLength(a, b)])
  {
    var n := CommonLength(a, b);
    DotOfPrefixes(a, b, n, n);
    DotOfPrefixes(a, a, n, n);
    DotOfPrefixes(b, b, n, n);
  }

  lemma SquareBelowSquare(u: real, v: real)
    requires v >= 0.0 && u * u <= v * v
    ensures u <= v
  {
    SquareOfSum(v, u - v);
    ProductSigns(v, u - v);
  }

  lemma SquareOfSum(v: real, w: real)
    ensures (v + w) * (v + w) == v * v + 2.0 * (v * w) + w * w
  {
  }

  lemma ProductSigns(v: real, w: real)
    ensures v >= 0.0 && w >= 0.0 ==> v * w >= 0.0
    ensures w != 0.0 ==> w * w > 0.0
  {
  }

  lemma QuotientBounded(s: real, m: real)
    requires m > 0.0 && -m <= s <= m
    ensures -1.0 <= s / m <= 1.0
  {
    var r := s / m;
    assert r * m == s;
  }

  /** 2*D*x*y <= A*y*y + B*x*x when D*D <= A*B: the inductive step of Cauchy-Schwarz. */
  lemma CrossTermBound(dd: real, aa: real, bb: real, x: real, y: real)
    requires aa >= 0.0 && bb >= 0.0 && dd * dd <= aa * bb
    ensures 2.0 * dd * x * y <= aa * (y * y) + bb * (x * x)
  {
    var u := 2.0 * dd * x * y;
    var p := aa * (y * y);
    var q := bb * (x * x);
    var xy2 := (x * y) * (x * y);
    assert xy2 >= 0.0;
    assert u * u == 4.0 * (dd * dd) * xy2;
    assert (dd * dd) * xy2 <= (aa * bb) * xy2;
    assert p * q == (aa * bb) * xy2;
    assert u * u <= 4.0 * (p * q);
    assert (p + q) * (p + q) - 4.0 * (p * q) == (p - q) * (p - q);
    assert (p - q) * (p - q) >= 0.0;
    assert u * u <= (p + q) * (p + q);
    assert p >= 0.0 && q >= 0.0;
    SquareBelowSquare(u, p + q);
  }

  /** Cauchy-Schwarz on prefixes: Dot(a, b)^2 <= Dot(a, a) * Dot(b, b). */
  lemma {:induction false} CauchySchwarz(a: Vector, b: Vector, n: nat)
    requires n <= |a| && n <= |b|
    ensures Dot(a, b, n) * Dot(a, b, n) <= Dot(a, a, n) * Dot(b, b, n)
  {
    if n > 0 {
      CauchySchwarz(a, b, n - 1);
      SquaresNonNegative(a, n - 1);
      SquaresNonNegative(b, n - 1);
      var dd, aa, bb := Dot(a, b, n - 1), Dot(a, a, n - 1), Dot(b, b, n - 1);
      var x, y := a[n - 1], b[n - 1];
      CrossTermBound(dd, aa, bb, x, y);
      assert (dd + x * y) * (dd + x * y) == dd * dd + 2.0 * dd * x * y + (x * x) * (y * y);
      assert (aa + x * x) * (bb + y * y) == aa * bb + aa * (y * y) + bb * (x * x) + (x * x) * (y * y);
    }
  }

  lemma RankBounded(a: Vector, b: Vector)
    ensures -1.0 <= Rank(Similarity(a, b)) <= 1.0
  {
    var c := Similarity(a, b);
    if c.Quotient? {
      CauchySchwarz(a, b, CommonLength(a, b));
      var d, m := c.dot, c.norms;
      assert d * d <= m;
      assert -(d * d) <= SignedSquare(d) <= d * d;
      QuotientBounded(SignedSquare(d), m);
    }
  }

  /** The similarity lies in [-1, 1]. */
  lemma SimilarityBounded(a: Vector, b: Vector)
    ensures forall x :: Denotes(Similarity(a, b), x) ==> -1.0 <= x <= 1.0
  {
    var c := Similarity(a, b);
    RankBounded(a, b);
    forall x | Denotes(c, x)
      ensures -1.0 <= x <= 1.0
    {
      RankOfDenoted(c, x);
      SignedSquareOrder(x, 1.0);
      SignedSquareOrder(-1.0, x);
      assert SignedSquare(-1.0) == -1.0 && SignedSquare(1.0) == 1.0;
    }
  }

  /** A vector with a non-zero sum of squares has similarity exactly 1 with itself. */
  lemma SelfSimilarity(a: Vector)
    requires Dot(a, a, |a|) != 0.0
    ensures Denotes(Similarity(a, a), 1.0)
    ensures Rank(Similarity(a, a)) == 1.0
  {
    SquaresNonNegative(a, |a|);
    var na := Dot(a, a, |a|);
    assert na > 0.0;
    assert na * na > 0.0;
    assert Similarity(a, a).dot == na && Similarity(a, a).norms == na * na;
    assert SignedSquare(na) == na * na;
  }

  /** Against the opposite vector, the dot product is the negated sum of squares, and the norms agree. */
  lemma {:induction false} DotOfOpposite(q: Vector, v: Vector, n: nat)
    requires |v| == |q| && n <= |q|
    requires forall i :: 0 <= i < |q| ==> v[i] == -q[i]
    ensures Dot(q, v, n) == -Dot(q, q, n) && Dot(v, v, n) == Dot(q, q, n)
  {
    if n > 0 {
      DotOfOpposite(q, v, n - 1);
      assert v[n - 1] == -q[n - 1];
    }
  }

  /** A non-zero vector and its opposite have similarity -1, the least there is. */
  lemma OppositeSimilarity(q: Vector, v: Vector)
    requires |v| == |q| && Dot(q, q, |q|) != 0.0
    requires forall i :: 0 <= i < |q| ==> v[i] == -q[i]
    ensures Rank(Similarity(q, v)) == -1.0
  {
    DotOfOpposite(q, v, |q|);
    SquaresNonNegative(q, |q|);
    var m := Dot(q, q, |q|);
    assert m > 0.0;
    assert m * m > 0.0;
    var c := Similarity(q, v);
    assert c == Quotient(-m, m * m);
    var p := m * m;
    assert SignedSquare(-m) == -p;
    assert -p == -1.0 * p;
    assert Rank(c) == -p / p;
  }
}
