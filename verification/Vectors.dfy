/** Vectors of reals read as if padded with zeros without end, which is how every
    operation of vermyth/schema/_legacy.py and the engine indexes them: sums of
    squares, dot products, norms, and the two inequalities everything rests on. */
module Vectors {
  import opened Reals

  type Vector = seq<real>

  /** Component `i`, zero beyond the stored ones. */
  function At(v: Vector, i: nat): real {
    if i < |v| then v[i] else 0.0
  }

  function Max(a: nat, b: nat): nat {
    if a < b then b else a
  }

  /** The componentwise difference, as long as the longer operand. */
  function Difference(a: Vector, b: Vector): (d: Vector)
    ensures |d| == Max(|a|, |b|)
    ensures forall i: nat :: At(d, i) == At(a, i) - At(b, i)
  {
    seq(Max(|a|, |b|), i requires 0 <= i => At(a, i) - At(b, i))
  }

  /** `math.sqrt` without rounding. */
  ghost predicate IsSqrt(sqrt: real -> real) {
    forall x :: x >= 0.0 ==> sqrt(x) >= 0.0 && sqrt(x) * sqrt(x) == x
  }

  function Dot(a: Vector, b: Vector, n: nat): real {
    if n == 0 then 0.0 else Dot(a, b, n - 1) + At(a, n - 1) * At(b, n - 1)
  }

  function SumSq(v: Vector): real {
    Dot(v, v, |v|)
  }

  function Norm(sqrt: real -> real, v: Vector): real {
    sqrt(SumSq(v))
  }

  /** The L2 distance of two vectors of any lengths. */
  function Distance(sqrt: real -> real, a: Vector, b: Vector): real {
    Norm(sqrt, Difference(a, b))
  }

  // ---- Padding ----

  /** Padding either operand changes no dot product. */
  lemma {:induction false} DotBeyond(a: Vector, b: Vector, m: nat, n: nat)
    requires m <= n && (|a| <= m || |b| <= m)
    ensures Dot(a, b, n) == Dot(a, b, m)
  {
    if m < n {
      DotBeyond(a, b, m, n - 1);
    }
  }

  /** Dot products depend on the padded components only. */
  lemma {:induction false} DotAgrees(a: Vector, b: Vector, c: Vector, d: Vector, n: nat)
    requires forall i: nat :: i < n ==> At(a, i) == At(c, i) && At(b, i) == At(d, i)
    ensures Dot(a, b, n) == Dot(c, d, n)
  {
    if n > 0 {
      DotAgrees(a, b, c, d, n - 1);
    }
  }

  ghost predicate SamePadded(a: Vector, b: Vector) {
    forall i: nat :: At(a, i) == At(b, i)
  }

  /** Padding changes no sum of squares. */
  lemma SumSqOfSame(a: Vector, b: Vector)
    requires SamePadded(a, b)
    ensures SumSq(a) == SumSq(b)
  {
    var n := Max(|a|, |b|);
    DotBeyond(a, a, |a|, n);
    DotBeyond(b, b, |b|, n);
    DotAgrees(a, a, b, b, n);
  }

  lemma SumSqAt(v: Vector, n: nat)
    requires |v| <= n
    ensures SumSq(v) == Dot(v, v, n)
  {
    DotBeyond(v, v, |v|, n);
  }

  // ---- Squares ----

  lemma SquareNonNegative(x: real)
    ensures x * x >= 0.0
  {
  }

  lemma {:induction false} DotSelfNonNegative(v: Vector, n: nat)
    ensures Dot(v, v, n) >= 0.0
  {
    if n > 0 {
      DotSelfNonNegative(v, n - 1);
      SquareNonNegative(At(v, n - 1));
    }
  }

  lemma SumSqNonNegative(v: Vector)
    ensures SumSq(v) >= 0.0
  {
    DotSelfNonNegative(v, |v|);
  }

  /** On non-negative numbers, squaring keeps and reflects the order. */
  lemma SquaresOrder(p: real, q: real)
    requires p >= 0.0 && q >= 0.0 && p * p <= q * q
    ensures p <= q
  {
    assert (p - q) * (p + q) == p * p - q * q;
    if p > q {
      PositiveProduct(p - q, p + q);
    }
  }

  lemma SquaresEqual(p: real, q: real)
    requires p >= 0.0 && q >= 0.0 && p * p == q * q
    ensures p == q
  {
    SquaresOrder(p, q);
    SquaresOrder(q, p);
  }

  lemma NormSquare(sqrt: real -> real, v: Vector)
    requires IsSqrt(sqrt)
    ensures Norm(sqrt, v) >= 0.0 && Norm(sqrt, v) * Norm(sqrt, v) == SumSq(v)
  {
    SumSqNonNegative(v);
  }

  lemma ZeroSquare(x: real)
    requires x * x == 0.0
    ensures x == 0.0
  {
    var m := if x >= 0.0 then x else -x;
    assert m * m == x * x;
    SquaresOrder(m, 0.0);
  }

  lemma {:induction false} ZeroSumSq(v: Vector, n: nat)
    requires Dot(v, v, n) == 0.0
    ensures forall i: nat :: i < n ==> At(v, i) == 0.0
  {
    if n > 0 {
      DotSelfNonNegative(v, n - 1);
      SquareNonNegative(At(v, n - 1));
      ZeroSquare(At(v, n - 1));
      ZeroSumSq(v, n - 1);
    }
  }

  /** Only the zero vector has norm zero. */
  lemma NormZero(sqrt: real -> real, v: Vector)
    requires IsSqrt(sqrt)
    ensures Norm(sqrt, v) == 0.0 <==> forall i :: 0 <= i < |v| ==> v[i] == 0.0
  {
    NormSquare(sqrt, v);
    if Norm(sqrt, v) == 0.0 {
      ZeroSumSq(v, |v|);
      forall i | 0 <= i < |v| ensures v[i] == 0.0 { assert At(v, i) == 0.0; }
    }
    if forall i :: 0 <= i < |v| ==> v[i] == 0.0 {
      DotOfZeros(v, v, |v|);
      SquaresEqual(Norm(sqrt, v), 0.0);
    }
  }

  lemma {:induction false} DotOfZeros(a: Vector, b: Vector, n: nat)
    requires forall i: nat :: i < n ==> At(b, i) == 0.0
    ensures Dot(a, b, n) == 0.0
  {
    if n > 0 {
      DotOfZeros(a, b, n - 1);
    }
  }

  // ---- Cauchy-Schwarz ----

  lemma SquareOfCombination(s: real, t: real, x: real, y: real)
    ensures (s * x + t * y) * (s * x + t * y) == s * s * (x * x) + 2.0 * (s * t) * (x * y) + t * t * (y * y)
  {
  }

  /** |s*u + t*v|^2 when |u|^2 = p, u.v = d and |v|^2 = r. */
  function Form(p: real, d: real, r: real, s: real, t: real): real {
    s * s * p + 2.0 * (s * t) * d + t * t * r
  }

  lemma Distribute(c: real, p: real, q: real)
    ensures c * (p + q) == c * p + c * q
  {
  }

  lemma FormOfSum(p: real, d: real, r: real, x: real, y: real, s: real, t: real)
    ensures Form(p + x * x, d + x * y, r + y * y, s, t) == Form(p, d, r, s, t) + (s * x + t * y) * (s * x + t * y)
  {
    SquareOfCombination(s, t, x, y);
    Distribute(s * s, p, x * x);
    Distribute(2.0 * (s * t), d, x * y);
    Distribute(t * t, r, y * y);
  }

  lemma FormStep(p: real, d: real, r: real, x: real, y: real, s: real, t: real)
    requires Form(p, d, r, s, t) >= 0.0
    ensures Form(p + x * x, d + x * y, r + y * y, s, t) >= 0.0
  {
    FormOfSum(p, d, r, x, y, s, t);
    SquareNonNegative(s * x + t * y);
  }

  ghost predicate FormNonNegative(p: real, d: real, r: real) {
    forall s, t {:trigger Form(p, d, r, s, t)} :: Form(p, d, r, s, t) >= 0.0
  }

  lemma {:induction false} CombinationNonNegative(a: Vector, b: Vector, n: nat)
    ensures FormNonNegative(Dot(a, a, n), Dot(a, b, n), Dot(b, b, n))
  {
    if n == 0 {
      FormOfZero();
    } else {
      CombinationNonNegative(a, b, n - 1);
      FormGrows(Dot(a, a, n - 1), Dot(a, b, n - 1), Dot(b, b, n - 1), At(a, n - 1), At(b, n - 1),
                Dot(a, a, n), Dot(a, b, n), Dot(b, b, n));
    }
  }

  lemma FormOfZero()
    ensures FormNonNegative(0.0, 0.0, 0.0)
  {
  }

  lemma FormGrows(p: real, d: real, r: real, x: real, y: real, p': real, d': real, r': real)
    requires FormNonNegative(p, d, r)
    requires p' == p + x * x && d' == d + x * y && r' == r + y * y
    ensures FormNonNegative(p', d', r')
  {
    forall s, t {:trigger Form(p', d', r', s, t)} ensures Form(p', d', r', s, t) >= 0.0 {
      FormStep(p, d, r, x, y, s, t);
    }
  }

  lemma FormAtOptimum(p: real, d: real, r: real)
    ensures Form(p, d, r, r, -d) == r * (p * r - d * d)
    ensures Form(p, d, r, -d, p) == p * (p * r - d * d)
  {
  }

  lemma NonNegativeFactor(c: real, x: real)
    requires c > 0.0 && c * x >= 0.0
    ensures x >= 0.0
  {
    if x < 0.0 {
      PositiveProduct(c, -x);
    }
  }

  /** If the form is non-negative for all s and t, then d*d <= p*r. */
  lemma Discriminant(p: real, d: real, r: real)
    requires p >= 0.0 && r >= 0.0
    requires FormNonNegative(p, d, r)
    ensures d * d <= p * r
  {
    FormAtOptimum(p, d, r);
    if r > 0.0 {
      NonNegativeFactor(r, p * r - d * d);
    } else if p > 0.0 {
      NonNegativeFactor(p, p * r - d * d);
    } else {
      assert Form(p, d, r, 1.0, 1.0) == 2.0 * d;
      assert Form(p, d, r, 1.0, -1.0) == -2.0 * d;
    }
  }

  /** Cauchy-Schwarz over the first n padded components. */
  lemma CauchySchwarz(a: Vector, b: Vector, n: nat)
    ensures Dot(a, b, n) * Dot(a, b, n) <= Dot(a, a, n) * Dot(b, b, n)
  {
    DotSelfNonNegative(a, n);
    DotSelfNonNegative(b, n);
    CombinationNonNegative(a, b, n);
    Discriminant(Dot(a, a, n), Dot(a, b, n), Dot(b, b, n));
  }

  lemma ProductSquare(x: real, y: real)
    ensures (x * y) * (x * y) == (x * x) * (y * y)
  {
  }

  /** |a . b| <= |a| |b|, for vectors of any lengths. */
  lemma DotBound(sqrt: real -> real, a: Vector, b: Vector, n: nat)
    requires IsSqrt(sqrt) && n == Max(|a|, |b|)
    ensures -(Norm(sqrt, a) * Norm(sqrt, b)) <= Dot(a, b, n) <= Norm(sqrt, a) * Norm(sqrt, b)
  {
    var na, nb, d := Norm(sqrt, a), Norm(sqrt, b), Dot(a, b, n);
    NormSquare(sqrt, a);
    NormSquare(sqrt, b);
    SumSqAt(a, n);
    SumSqAt(b, n);
    CauchySchwarz(a, b, n);
    ProductSquare(na, nb);
    assert na * nb >= 0.0;
    var m := if d >= 0.0 then d else -d;
    assert m * m == d * d;
    SquaresOrder(m, na * nb);
  }

  // ---- Minkowski ----

  /** |u + v|^2 over padded components. */
  lemma {:induction false} SquareOfSum(a: Vector, b: Vector, c: Vector, n: nat)
    requires forall i: nat :: i < n ==> At(c, i) == At(a, i) + At(b, i)
    ensures Dot(c, c, n) == Dot(a, a, n) + 2.0 * Dot(a, b, n) + Dot(b, b, n)
  {
    if n > 0 {
      SquareOfSum(a, b, c, n - 1);
      var x, y := At(a, n - 1), At(b, n - 1);
      assert At(c, n - 1) * At(c, n - 1) == x * x + 2.0 * (x * y) + y * y;
    }
  }

  /** The square of the norm of a sum, from the norms and the dot product. */
  lemma NormOfSum(sqrt: real -> real, a: Vector, b: Vector, c: Vector) returns (d: real)
    requires IsSqrt(sqrt)
    requires forall i: nat :: At(c, i) == At(a, i) + At(b, i)
    ensures Norm(sqrt, c) * Norm(sqrt, c)
         == Norm(sqrt, a) * Norm(sqrt, a) + 2.0 * d + Norm(sqrt, b) * Norm(sqrt, b)
    ensures d <= Norm(sqrt, a) * Norm(sqrt, b)
  {
    var m := Max(|a|, |b|);
    var n := Max(m, |c|);
    d := Dot(a, b, n);
    NormSquare(sqrt, a);
    NormSquare(sqrt, b);
    NormSquare(sqrt, c);
    SumSqAt(a, n);
    SumSqAt(b, n);
    SumSqAt(c, n);
    SquareOfSum(a, b, c, n);
    DotBound(sqrt, a, b, m);
    DotBeyond(a, b, m, n);
  }

  lemma BinomialBound(x: real, y: real, z: real, d: real)
    requires x >= 0.0 && y >= 0.0 && z >= 0.0 && z * z == x * x + 2.0 * d + y * y && d <= x * y
    ensures z <= x + y
  {
    assert (x + y) * (x + y) == x * x + 2.0 * (x * y) + y * y;
    SquaresOrder(z, x + y);
  }

  /** Minkowski: a norm of a sum is at most the sum of the norms. */
  lemma Minkowski(sqrt: real -> real, a: Vector, b: Vector, c: Vector)
    requires IsSqrt(sqrt)
    requires forall i: nat :: At(c, i) == At(a, i) + At(b, i)
    ensures Norm(sqrt, c) <= Norm(sqrt, a) + Norm(sqrt, b)
  {
    var d := NormOfSum(sqrt, a, b, c);
    NormSquare(sqrt, a);
    NormSquare(sqrt, b);
    NormSquare(sqrt, c);
    BinomialBound(Norm(sqrt, a), Norm(sqrt, b), Norm(sqrt, c), d);
  }

  /** The triangle inequality, whatever the lengths of the three vectors. */
  lemma Triangle(sqrt: real -> real, a: Vector, b: Vector, c: Vector)
    requires IsSqrt(sqrt)
    ensures Distance(sqrt, a, c) <= Distance(sqrt, a, b) + Distance(sqrt, b, c)
  {
    Minkowski(sqrt, Difference(a, b), Difference(b, c), Difference(a, c));
  }

  // ---- Scaling ----

  function Scale(c: real, v: Vector): (r: Vector)
    ensures |r| == |v| && forall i :: 0 <= i < |v| ==> r[i] == c * v[i]
  {
    seq(|v|, i requires 0 <= i < |v| => c * v[i])
  }

  lemma {:induction false} DotOfScaled(c: real, v: Vector, n: nat)
    requires n <= |v|
    ensures Dot(Scale(c, v), Scale(c, v), n) == c * c * Dot(v, v, n)
  {
    if n > 0 {
      DotOfScaled(c, v, n - 1);
      var x := v[n - 1];
      assert (c * x) * (c * x) == c * c * (x * x);
      Distribute(c * c, Dot(v, v, n - 1), x * x);
    }
  }

  /** A positive factor scales the norm. */
  lemma NormOfScaled(sqrt: real -> real, c: real, v: Vector)
    requires IsSqrt(sqrt) && c >= 0.0
    ensures Norm(sqrt, Scale(c, v)) == c * Norm(sqrt, v)
  {
    var n := Norm(sqrt, v);
    NormSquare(sqrt, v);
    NormSquare(sqrt, Scale(c, v));
    DotOfScaled(c, v, |v|);
    ProductSquare(c, n);
    assert c * n >= 0.0;
    SquaresEqual(Norm(sqrt, Scale(c, v)), c * n);
  }

  /** normalize_unit: the vector divided by its norm, or zeros. */
  function Unit(sqrt: real -> real, v: Vector): (u: Vector)
    ensures |u| == |v|
    ensures forall i :: 0 <= i < |v| ==> u[i] == if Norm(sqrt, v) == 0.0 then 0.0 else v[i] / Norm(sqrt, v)
  {
    var n := Norm(sqrt, v);
    if n == 0.0 then seq(|v|, i => 0.0) else seq(|v|, i requires 0 <= i < |v| => v[i] / n)
  }

  lemma QuotientOfScaled(c: real, x: real, n: real)
    requires c > 0.0 && n > 0.0
    ensures c * n > 0.0 && (c * x) / (c * n) == x / n
  {
    assert c * n > 0.0;
    var q := x / n;
    assert q * n == x;
    assert c * x == q * (c * n);
    assert (q * (c * n)) / (c * n) == q;
  }

  /** Normalising does not see a positive factor. */
  lemma UnitOfScaled(sqrt: real -> real, c: real, v: Vector)
    requires IsSqrt(sqrt) && c > 0.0
    ensures Unit(sqrt, Scale(c, v)) == Unit(sqrt, v)
  {
    var n := Norm(sqrt, v);
    NormOfScaled(sqrt, c, v);
    NormSquare(sqrt, v);
    if n == 0.0 {
      assert Norm(sqrt, Scale(c, v)) == 0.0;
    } else {
      var scaled := Scale(c, v);
      assert Norm(sqrt, scaled) == c * n && c * n != 0.0;
      forall i | 0 <= i < |v| ensures Unit(sqrt, scaled)[i] == Unit(sqrt, v)[i] {
        QuotientOfScaled(c, v[i], n);
        assert Unit(sqrt, scaled)[i] == scaled[i] / (c * n);
      }
    }
  }

  /** A normalised vector is a positive multiple of the original, or all zeros. */
  lemma UnitIsScaled(sqrt: real -> real, v: Vector)
    requires IsSqrt(sqrt)
    ensures Norm(sqrt, v) == 0.0 ==> Unit(sqrt, v) == v
    ensures Norm(sqrt, v) != 0.0 ==> Norm(sqrt, v) > 0.0 && Unit(sqrt, v) == Scale(1.0 / Norm(sqrt, v), v)
  {
    NormSquare(sqrt, v);
    NormZero(sqrt, v);
    var n := Norm(sqrt, v);
    if n != 0.0 {
      forall i | 0 <= i < |v| ensures Unit(sqrt, v)[i] == Scale(1.0 / n, v)[i] {
        DivideByProduct(v[i], n);
      }
    }
  }

  lemma DivideByProduct(x: real, n: real)
    requires n > 0.0
    ensures x / n == (1.0 / n) * x
  {
    var q := 1.0 / n;
    assert q * n == 1.0;
    assert (q * x) * n == x;
    assert ((q * x) * n) / n == q * x;
  }

  /** Normalising is idempotent. */
  lemma UnitIsIdempotent(sqrt: real -> real, v: Vector)
    requires IsSqrt(sqrt)
    ensures Unit(sqrt, Unit(sqrt, v)) == Unit(sqrt, v)
  {
    UnitIsScaled(sqrt, v);
    if Norm(sqrt, v) != 0.0 {
      assert 1.0 / Norm(sqrt, v) > 0.0;
      UnitOfScaled(sqrt, 1.0 / Norm(sqrt, v), v);
    }
  }

  // ---- What sums of squares, dot products and norms are ----

  /** A sum of squares adds up over parts, and of one component is its square. */
  lemma {:induction false} SumSqConcat(a: Vector, b: Vector)
    ensures SumSq(a + b) == SumSq(a) + SumSq(b)
  {
    if b == [] {
      assert a + b == a;
    } else {
      var front := b[..|b| - 1];
      SumSqConcat(a, front);
      DotAgrees(a + b, a + b, a + front, a + front, |a| + |front|);
      DotAgrees(b, b, front, front, |front|);
    }
  }

  lemma SumSqOfOne(x: real)
    ensures SumSq([x]) == x * x
  {
    assert Dot([x], [x], 0) == 0.0 && At([x], 0) == x;
    assert Dot([x], [x], 1) == Dot([x], [x], 0) + At([x], 0) * At([x], 0);
  }

  /** |u - v|^2 over padded components. */
  lemma {:induction false} SquareOfDifference(a: Vector, b: Vector, c: Vector, n: nat)
    requires forall i: nat :: i < n ==> At(c, i) == At(a, i) - At(b, i)
    ensures Dot(c, c, n) == Dot(a, a, n) - 2.0 * Dot(a, b, n) + Dot(b, b, n)
  {
    if n > 0 {
      SquareOfDifference(a, b, c, n - 1);
      var x, y := At(a, n - 1), At(b, n - 1);
      assert At(c, n - 1) * At(c, n - 1) == x * x - 2.0 * (x * y) + y * y;
    }
  }

  /** The squared distance, from the norms and the dot product. */
  lemma DistanceSquare(sqrt: real -> real, a: Vector, b: Vector) returns (square: real)
    requires IsSqrt(sqrt)
    ensures Distance(sqrt, a, b) * Distance(sqrt, a, b) == square
    ensures square == SumSq(a) + SumSq(b) - 2.0 * Dot(a, b, Max(|a|, |b|))
  {
    square := SumSq(Difference(a, b));
    NormSquare(sqrt, Difference(a, b));
    SumSqOfDifference(a, b);
  }

  lemma SumSqOfDifference(a: Vector, b: Vector)
    ensures SumSq(Difference(a, b)) == SumSq(a) + SumSq(b) - 2.0 * Dot(a, b, Max(|a|, |b|))
  {
    var n := Max(|a|, |b|);
    SumSqAt(a, n);
    SumSqAt(b, n);
    SquareOfDifference(a, b, Difference(a, b), n);
  }

  lemma {:induction false} DotWithScaled(c: real, v: Vector, n: nat)
    requires n <= |v|
    ensures Dot(v, Scale(c, v), n) == c * Dot(v, v, n)
  {
    if n > 0 {
      DotWithScaled(c, v, n - 1);
      var x := v[n - 1];
      assert x * (c * x) == c * (x * x);
      Distribute(c, Dot(v, v, n - 1), x * x);
    }
  }

  /** A normalised vector has norm 1, or is null. */
  lemma UnitHasNormOne(sqrt: real -> real, v: Vector)
    requires IsSqrt(sqrt)
    ensures Norm(sqrt, v) != 0.0 ==> Norm(sqrt, Unit(sqrt, v)) == 1.0
  {
    var n := Norm(sqrt, v);
    NormSquare(sqrt, v);
    if n != 0.0 {
      UnitIsScaled(sqrt, v);
      assert 1.0 / n > 0.0;
      NormOfScaled(sqrt, 1.0 / n, v);
      QuotientTimes(1.0, n);
    }
  }
}
