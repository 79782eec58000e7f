/**
 Points of Montgomery curves by their x coordinates: differential addition and
 doubling in projective form, derived from the affine group law.
 */
module MontgomeryCurve {
  import opened Arithmetic
  import opened Primes
  import opened Fields
  import opened Weierstrass
  import opened WeierstrassLaw

  // ---------------------------------------------------------------- the affine group law

  /** b y^2 = x^3 + a x^2 + x. */
  ghost predicate OnMontgomery(p: nat, a: int, b: int, x: int, y: int)
    requires 0 < p
  {
    Cong(b * (y * y), x * (x * x + a * x + 1), p)
  }

  /** x3 is the x coordinate of the sum of two points with different x: d is x2 - x1, and the chord's slope is (y2 - y1)/d. */
  ghost predicate ChordX(p: nat, a: int, b: int, x1: int, y1: int, x2: int, y2: int, x3: int)
    requires 0 < p
  {
    var d := x2 - x1;
    Cong(x3 * (d * d), b * ((y2 - y1) * (y2 - y1)) - (a + x1 + x2) * (d * d), p)
  }

  /** x3 is the x coordinate of the double of a point: the tangent's slope is (3x^2 + 2ax + 1)/(2by). */
  ghost predicate TangentX(p: nat, a: int, b: int, x: int, y: int, x3: int)
    requires 0 < p
  {
    var n, d := 3 * (x * x) + 2 * a * x + 1, 4 * (b * (y * y));
    Cong(x3 * d, n * n - (a + 2 * x) * d, p)
  }

  /** The formula on which differential addition rests: x(P+Q) x(P-Q) (x(Q)-x(P))^2 == (x(P)x(Q) - 1)^2. */
  ghost predicate DiffRelation(p: nat, x1: int, x2: int, sum: int, diff: int)
    requires 0 < p
  {
    Cong(sum * diff * ((x2 - x1) * (x2 - x1)), (x1 * x2 - 1) * (x1 * x2 - 1), p)
  }

  /** The formula for doubling without y. */
  ghost predicate DoubleRelation(p: nat, a: int, x: int, x2: int)
    requires 0 < p
  {
    Cong(x2 * (4 * (x * (x * x + a * x + 1))), (x * x - 1) * (x * x - 1), p)
  }

  /** b(y2 - y1)^2 - (a + x1 + x2)d^2, with r1 and r2 for b y1^2 and b y2^2, and k for 2 b y1 y2. */
  lemma ChordNumerator2(p: nat, a: int, b: int, x1: int, y1: int, x2: int, y2: int, sign: int)
    requires 0 < p && OnMontgomery(p, a, b, x1, y1) && OnMontgomery(p, a, b, x2, y2) && (sign == 1 || sign == -1)
    ensures var e := (x1 + x2) * (1 + x1 * x2) + 2 * a * (x1 * x2);
            var d, y := x2 - x1, y2 - sign * y1;
            Cong(b * (y * y) - (a + x1 + x2) * (d * d), e - sign * (2 * (b * (y1 * y2))), p)
  {
    hide Cong;
    var r1, r2 := x1 * (x1 * x1 + a * x1 + 1), x2 * (x2 * x2 + a * x2 + 1);
    var d, y, k, c := x2 - x1, y2 - sign * y1, 2 * (b * (y1 * y2)), a + x1 + x2;
    var e := (x1 + x2) * (1 + x1 * x2) + 2 * a * (x1 * x2);
    assert b * (y * y) == b * (y1 * y1) + b * (y2 * y2) - sign * k by { SquareSigned(b, y1, y2, sign); }
    CongAdd(b * (y1 * y1), r1, b * (y2 * y2), r2, p);
    Refl(p, sign * k + c * (d * d));
    CongSub(b * (y1 * y1) + b * (y2 * y2), r1 + r2, sign * k + c * (d * d), sign * k + c * (d * d), p);
    RightSides(a, x1, x2);
  }

  lemma SquareSigned(b: int, y1: int, y2: int, sign: int)
    requires sign == 1 || sign == -1
    ensures var y := y2 - sign * y1;
            b * (y * y) == b * (y1 * y1) + b * (y2 * y2) - sign * (2 * (b * (y1 * y2)))
  {
    var y := y2 - sign * y1;
    if sign == 1 {
      assert y * y == y1 * y1 + y2 * y2 - 2 * (y1 * y2);
    } else {
      assert y == y2 + y1;
      assert y * y == y1 * y1 + y2 * y2 + 2 * (y1 * y2);
    }
    Distribute(b, y1 * y1 + y2 * y2, 0 - sign * (2 * (y1 * y2)));
    Distribute(b, y1 * y1, y2 * y2);
  }

  /** The cubes cancel. */
  lemma RightSides(a: int, x1: int, x2: int)
    ensures var r1, r2 := x1 * (x1 * x1 + a * x1 + 1), x2 * (x2 * x2 + a * x2 + 1);
            var d := x2 - x1;
            r1 + r2 - (a + x1 + x2) * (d * d) == (x1 + x2) * (1 + x1 * x2) + 2 * a * (x1 * x2)
  {
    var q1, q2, m := x1 * x1, x2 * x2, x1 * x2;
    var d := x2 - x1;
    assert d * d == q1 + q2 - 2 * m by { SquareOfDifference(x1, x2); }
    CubicTerms(a, x1);
    CubicTerms(a, x2);
    var w := q1 + q2 - 2 * m;
    assert (a + x1 + x2) * w == a * w + x1 * w + x2 * w by { Distribute(w, a + x1, x2); Distribute(w, a, x1); }
    ThreeTerms(a, q1, q2, m);
    ThreeTerms(x1, q1, q2, m);
    ThreeTerms(x2, q1, q2, m);
    assert x1 * q2 == x2 * m && x2 * q1 == x1 * m by { MulAssoc(x1, x2, x2); MulAssoc(x2, x1, x1); }
    assert (x1 + x2) * (1 + m) == x1 + x2 + x1 * m + x2 * m by { Distribute(x1 + x2, 1, m); Distribute(m, x1, x2); }
    assert 2 * a * m == 2 * (a * m) by { MulAssoc(2, a, m); }
  }

  lemma SquareOfDifference(x1: int, x2: int)
    ensures (x2 - x1) * (x2 - x1) == x1 * x1 + x2 * x2 - 2 * (x1 * x2)
  {
  }

  lemma CubicTerms(a: int, x: int)
    ensures x * (x * x + a * x + 1) == x * (x * x) + a * (x * x) + x
  {
    Distribute(x, x * x + a * x, 1);
    Distribute(x, x * x, a * x);
    MulAssoc(a, x, x);
  }

  lemma ThreeTerms(c: int, q1: int, q2: int, m: int)
    ensures c * (q1 + q2 - 2 * m) == c * q1 + c * q2 - 2 * (c * m)
  {
  }

  /** e^2 - 4 r1 r2 == d^2 (x1 x2 - 1)^2. */
  lemma KeyIdentity(a: int, x1: int, x2: int)
    ensures var r1, r2 := x1 * (x1 * x1 + a * x1 + 1), x2 * (x2 * x2 + a * x2 + 1);
            var d, m := x2 - x1, x1 * x2;
            var e := (x1 + x2) * (1 + m) + 2 * a * m;
            e * e - 4 * (r1 * r2) == d * d * ((m - 1) * (m - 1))
  {
    var m, t := x1 * x2, x1 + x2;
    var g1, g2 := x1 * x1 + a * x1 + 1, x2 * x2 + a * x2 + 1;
    var d := x2 - x1;
    assert d * d == t * t - 4 * m;
    assert x1 * g1 * (x2 * g2) == m * (g1 * g2) by { Regroup4(x1, g1, x2, g2); }
    assert g1 * g2 == m * m + a * (m * t) + t * t - 2 * m + a * a * m + a * t + 1 by { QuadraticProduct(a, x1, x2); }
    KeyInSymmetric(a, m, t);
  }

  lemma QuadraticProduct(a: int, x1: int, x2: int)
    ensures var m, t := x1 * x2, x1 + x2;
            (x1 * x1 + a * x1 + 1) * (x2 * x2 + a * x2 + 1) == m * m + a * (m * t) + t * t - 2 * m + a * a * m + a * t + 1
  {
    var m, t, q1, q2 := x1 * x2, x1 + x2, x1 * x1, x2 * x2;
    NineTerms(q1, a * x1, q2, a * x2);
    QuadraticMonomials(a, x1, x2);
    QuadraticSum((q1 + a * x1 + 1) * (q2 + a * x2 + 1), q1, q2, a * x1, a * x2, m * m, a * (m * x1), a * (m * x2), a * a * m, m,
                 a * (m * t), t * t, a * t);
  }

  lemma NineTerms(q1: int, u1: int, q2: int, u2: int)
    ensures (q1 + u1 + 1) * (q2 + u2 + 1) == q1 * q2 + q1 * u2 + q1 + u1 * q2 + u1 * u2 + u1 + q2 + u2 + 1
  {
    Distribute(q1 + u1 + 1, q2 + u2, 1);
    Distribute(q1 + u1 + 1, q2, u2);
  }

  lemma QuadraticMonomials(a: int, x1: int, x2: int)
    ensures var m, t, q1, q2 := x1 * x2, x1 + x2, x1 * x1, x2 * x2;
            && q1 * q2 == m * m && q1 * (a * x2) == a * (m * x1) && a * x1 * q2 == a * (m * x2) && a * x1 * (a * x2) == a * a * m
            && a * (m * t) == a * (m * x1) + a * (m * x2) && t * t == q1 + q2 + 2 * m && a * t == a * x1 + a * x2
  {
    var m, t, q1, q2 := x1 * x2, x1 + x2, x1 * x1, x2 * x2;
    ProductOfSquares(x1, x2);
    assert q1 * (a * x2) == a * (m * x1) by { MulAssoc(q1, a, x2); MulAssoc(a, q1, x2); assert q1 * x2 == m * x1; }
    assert a * x1 * q2 == a * (m * x2) by { MulAssoc(a, x1, q2); assert x1 * q2 == m * x2; }
    Regroup4(a, x1, a, x2);
    assert a * (m * t) == a * (m * x1) + a * (m * x2) by { Distribute(m, x1, x2); Distribute(a, m * x1, m * x2); }
    Distribute(a, x1, x2);
  }

  lemma QuadraticSum(g: int, q1: int, q2: int, u1: int, u2: int, m2: int, v1: int, v2: int, w: int, m: int, v: int, t2: int, u: int)
    requires g == m2 + v1 + q1 + v2 + w + u1 + q2 + u2 + 1 && v == v1 + v2 && t2 == q1 + q2 + 2 * m && u == u1 + u2
    ensures g == m2 + v + t2 - 2 * m + w + u + 1
  {
  }

  lemma KeyInSymmetric(a: int, m: int, t: int)
    ensures var e := t * (1 + m) + 2 * a * m;
            e * e - 4 * (m * (m * m + a * (m * t) + t * t - 2 * m + a * a * m + a * t + 1)) == (t * t - 4 * m) * ((m - 1) * (m - 1))
  {
    var k, q, m2 := a * m, t * t, m * m;
    var e := t * (1 + m) + 2 * a * m;
    var s := m * (m * m + a * (m * t) + t * t - 2 * m + a * a * m + a * t + 1);
    var u := (t * t - 4 * m) * ((m - 1) * (m - 1));
    assert e == t * (1 + m) + 2 * k;
    SquareOfNumerator(m, t, k, q, m2);
    SymmetricTerms(a, m, t, k, q, m2);
    TimesBinomial(q, m, m2);
    assert (m - 1) * (m - 1) == 1 - 2 * m + m2;
    KeySum(e * e, s, u, q, m * q, q * m2, k * t, k * (m * t), k * k, m * m2, m2, m);
  }

  lemma KeySum(e2: int, s: int, u: int, q: int, mq: int, qm2: int, kt: int, kmt: int, k2: int, m3: int, m2: int, m: int)
    requires e2 == q + 2 * mq + qm2 + 4 * kt + 4 * kmt + 4 * k2
    requires s == m3 + kmt + mq - 2 * m2 + k2 + kt + m
    requires u == q - 2 * mq + qm2 - 4 * m + 8 * m2 - 4 * m3
    ensures e2 - 4 * s == u
  {
  }

  lemma SquareOfNumerator(m: int, t: int, k: int, q: int, m2: int)
    requires q == t * t && m2 == m * m
    ensures var e := t * (1 + m) + 2 * k;
            e * e == q + 2 * (m * q) + q * m2 + 4 * (k * t) + 4 * (k * (m * t)) + 4 * (k * k)
  {
    var n := 1 + m;
    ExpandSquare(t, n, k);
    TimesThree(q, m, m2);
    assert n * n == 1 + 2 * m + m2;
    assert k * t * n == k * t + k * (m * t) by { MulAssoc(k, t, m); }
  }

  lemma SymmetricTerms(a: int, m: int, t: int, k: int, q: int, m2: int)
    requires k == a * m && m2 == m * m
    ensures m * (m2 + a * (m * t) + q - 2 * m + a * a * m + a * t + 1) ==
            m * m2 + k * (m * t) + m * q - 2 * m2 + k * k + k * t + m
  {
    SevenTerms(m, m2, a * (m * t), q, m, a * a * m, a * t);
    Monomials(a, m, t);
  }

  lemma TimesThree(q: int, m: int, m2: int)
    ensures q * (1 + 2 * m + m2) == q + 2 * (m * q) + q * m2
  {
    Distribute(q, 1 + 2 * m, m2);
    Distribute(q, 1, 2 * m);
  }

  lemma TimesBinomial(q: int, m: int, m2: int)
    requires m2 == m * m
    ensures (q - 4 * m) * (1 - 2 * m + m2) == q - 2 * (m * q) + q * m2 - 4 * m + 8 * m2 - 4 * (m * m2)
  {
    var f := 1 - 2 * m + m2;
    assert (q - 4 * m) * f == q * f - 4 * (m * f);
    assert q * f == q - 2 * (m * q) + q * m2;
    assert m * f == m - 2 * (m * m) + m * m2;
  }

  lemma ExpandSquare(t: int, n: int, k: int)
    ensures (t * n + 2 * k) * (t * n + 2 * k) == t * t * (n * n) + 4 * (k * t * n) + 4 * (k * k)
  {
    var w := t * n;
    assert (w + 2 * k) * (w + 2 * k) == w * w + 4 * (k * w) + 4 * (k * k);
    assert w * w == t * t * (n * n) by { ProductOfSquares(t, n); }
    MulAssoc(k, t, n);
  }

  lemma SevenTerms(m: int, a: int, b: int, c: int, d: int, e: int, f: int)
    ensures m * (a + b + c - 2 * d + e + f + 1) == m * a + m * b + m * c - 2 * (m * d) + m * e + m * f + m
  {
  }

  lemma Monomials(a: int, m: int, t: int)
    ensures m * (a * (m * t)) == a * m * (m * t)
    ensures m * (a * a * m) == a * m * (a * m)
    ensures m * (a * t) == a * m * t
  {
    MulAssoc(m, a, m * t);
    ProductOfSquares(a, m);
    MulAssoc(a * a, m, m);
    MulAssoc(m, a, t);
  }

  /** From the group law: the sum and the difference of two points of the curve satisfy the relation of the source. */
  lemma DifferentialAddition(p: nat, a: int, b: int, x1: int, y1: int, x2: int, y2: int, sum: int, diff: int)
    requires IsPrime(p) && OnMontgomery(p, a, b, x1, y1) && OnMontgomery(p, a, b, x2, y2) && !Cong(x1, x2, p)
    requires ChordX(p, a, b, x1, y1, x2, y2, sum) && ChordX(p, a, b, x1, y1, x2, 0 - y2, diff)
    ensures DiffRelation(p, x1, x2, sum, diff)
  {
    hide Cong, IsPrime;
    PrimePositive(p);
    var r1, r2 := x1 * (x1 * x1 + a * x1 + 1), x2 * (x2 * x2 + a * x2 + 1);
    var d, m, k := x2 - x1, x1 * x2, 2 * (b * (y1 * y2));
    var e, dd, c := (x1 + x2) * (1 + m) + 2 * a * m, d * d, a + x1 + x2;
    ChordNumerator2(p, a, b, x1, y1, x2, y2, 1);
    ChordNumerator2(p, a, b, x1, y1, x2, y2, -1);
    assert (y2 - 1 * y1) == y2 - y1 && (y2 - (-1) * y1) == y2 + y1;
    assert (0 - y2 - y1) * (0 - y2 - y1) == (y2 + y1) * (y2 + y1) by { NegatedSum(y1, y2); }
    Trans(p, sum * dd, b * ((y2 - y1) * (y2 - y1)) - c * dd, e - k);
    Trans(p, diff * dd, b * ((y2 + y1) * (y2 + y1)) - c * dd, e + k);
    Mult(p, sum * dd, e - k, diff * dd, e + k);
    assert (e - k) * (e + k) == e * e - k * k by { SquareDifference(k, e); }
    assert Cong(k * k, 4 * (r1 * r2), p) by { ProductOfRightSides(p, b, y1, y2, r1, r2); }
    Refl(p, e * e);
    CongSub(e * e, e * e, k * k, 4 * (r1 * r2), p);
    KeyIdentity(a, x1, x2);
    Trans(p, sum * dd * (diff * dd), e * e - k * k, dd * ((m - 1) * (m - 1)));
    assert sum * dd * (diff * dd) == dd * (sum * diff * dd) by { Regroup4(sum, dd, diff, dd); MulAssoc(sum * diff, dd, dd); }
    DifferenceNonzero(p, x1, x2);
    ProductZero(p, d, d);
    CancelFactor(p, dd, sum * diff * dd, (m - 1) * (m - 1));
  }

  lemma NegatedSum(a: int, b: int)
    ensures (0 - b - a) * (0 - b - a) == (b + a) * (b + a)
  {
  }

  lemma ProductOfRightSides(p: nat, b: int, y1: int, y2: int, r1: int, r2: int)
    requires 0 < p && Cong(b * (y1 * y1), r1, p) && Cong(b * (y2 * y2), r2, p)
    ensures var k := 2 * (b * (y1 * y2)); Cong(k * k, 4 * (r1 * r2), p)
  {
    hide Cong;
    var k, w := 2 * (b * (y1 * y2)), b * (y1 * y2);
    Mult(p, b * (y1 * y1), r1, b * (y2 * y2), r2);
    assert w * w == b * (y1 * y1) * (b * (y2 * y2)) by {
      ProductOfSquares(b, y1 * y2);
      ProductOfSquares(y1, y2);
      Regroup4(b, y1 * y1, b, y2 * y2);
    }
    assert k * k == 4 * (w * w) by { ProductOfSquares(2, w); }
    Refl(p, 4);
    Mult(p, 4, 4, w * w, r1 * r2);
  }

  /** Likewise for doubling. */
  lemma DoublingWithoutY(p: nat, a: int, b: int, x: int, y: int, x2: int)
    requires 0 < p && OnMontgomery(p, a, b, x, y) && TangentX(p, a, b, x, y, x2)
    ensures DoubleRelation(p, a, x, x2)
  {
    hide Cong;
    var r, n, c := x * (x * x + a * x + 1), 3 * (x * x) + 2 * a * x + 1, a + 2 * x;
    var d := 4 * (b * (y * y));
    Refl(p, 4);
    Refl(p, x2);
    Refl(p, c);
    Refl(p, n * n);
    Mult(p, 4, 4, b * (y * y), r);
    Mult(p, x2, x2, d, 4 * r);
    Mult(p, c, c, d, 4 * r);
    CongSub(n * n, n * n, c * d, c * (4 * r), p);
    assert n * n - c * (4 * r) == (x * x - 1) * (x * x - 1) by { DoubleIdentity(a, x); }
    Trans(p, x2 * d, n * n - c * d, (x * x - 1) * (x * x - 1));
    Trans(p, x2 * (4 * r), x2 * d, x2 * (4 * r));
    Flip(p, x2 * d, x2 * (4 * r));
    Trans(p, x2 * (4 * r), x2 * d, (x * x - 1) * (x * x - 1));
  }

  lemma DoubleIdentity(a: int, x: int)
    ensures var n, r := 3 * (x * x) + 2 * a * x + 1, x * (x * x + a * x + 1);
            n * n - (a + 2 * x) * (4 * r) == (x * x - 1) * (x * x - 1)
  {
    var n, r := 3 * (x * x) + 2 * a * x + 1, x * (x * x + a * x + 1);
    MulAssoc(2, a, x);
    DoubleInTerms(a, x, x * x, a * x, n, r);
  }

  lemma DoubleInTerms(a: int, x: int, q: int, k: int, n: int, r: int)
    requires q == x * x && k == a * x && n == 3 * q + 2 * k + 1 && r == x * (q + k + 1)
    ensures n * n - (a + 2 * x) * (4 * r) == (q - 1) * (q - 1)
  {
    SquareOfThree(q, k);
    SlopeTimesDouble(a, x, q, k, r);
    SquareOfDifference(1, q);
    DoubleSum(n * n, (a + 2 * x) * (4 * r), (q - 1) * (q - 1), q * q, k * k, q * k, q, k);
  }

  lemma SlopeTimesDouble(a: int, x: int, q: int, k: int, r: int)
    requires q == x * x && k == a * x && r == x * (q + k + 1)
    ensures (a + 2 * x) * (4 * r) == 4 * (q * k + k * k + k) + 8 * (q * q + q * k + q)
  {
    Distribute(4 * r, a, 2 * x);
    MulAssoc(a, x, q + k + 1);
    MulAssoc(x, x, q + k + 1);
    Distribute(k, q + k, 1);
    Distribute(k, q, k);
    Distribute(q, q + k, 1);
    Distribute(q, q, k);
  }

  lemma DoubleSum(n2: int, s: int, u: int, q2: int, k2: int, qk: int, q: int, k: int)
    requires n2 == 9 * q2 + 4 * k2 + 1 + 12 * qk + 6 * q + 4 * k
    requires s == 4 * (qk + k2 + k) + 8 * (q2 + qk + q) && u == 1 + q2 - 2 * q
    ensures n2 - s == u
  {
  }

  lemma SquareOfThree(q: int, k: int)
    ensures (3 * q + 2 * k + 1) * (3 * q + 2 * k + 1) == 9 * (q * q) + 4 * (k * k) + 1 + 12 * (q * k) + 6 * q + 4 * k
  {
  }

  // ----------------------------------------------------------------- the two operations

  datatype XZ = XZ(X: int, Z: int)

  /** The pair stands for the coordinate x: x = X/Z. */
  ghost predicate RepresentsX(p: nat, P: XZ, x: int)
    requires 0 < p
  {
    P.Z % p != 0 && Cong(P.X, x * P.Z, p)
  }

  /** ecc_montgomery_diff_add. */
  function DiffAdd(p: nat, P: XZ, Q: XZ, PminusQ: XZ): XZ
    requires 0 < p
  {
    var Px_m_Pz := Sub(p, P.X, P.Z);
    var Px_p_Pz := Add(p, P.X, P.Z);
    var Qx_m_Qz := Sub(p, Q.X, Q.Z);
    var Qx_p_Qz := Add(p, Q.X, Q.Z);
    var PmQp := Mul(p, Px_m_Pz, Qx_p_Qz);
    var PpQm := Mul(p, Px_p_Pz, Qx_m_Qz);
    var Xpre := Add(p, PmQp, PpQm);
    var Zpre := Sub(p, PmQp, PpQm);
    var Xpre2 := Mul(p, Xpre, Xpre);
    var Zpre2 := Mul(p, Zpre, Zpre);
    XZ(Mul(p, Xpre2, PminusQ.Z), Mul(p, Zpre2, PminusQ.X))
  }

  /** ecc_montgomery_double; aplus2over4 is (a+2)/4. */
  function DoubleXZ(p: nat, aplus2over4: int, P: XZ): XZ
    requires 0 < p
  {
    var Px_m_Pz := Sub(p, P.X, P.Z);
    var Px_p_Pz := Add(p, P.X, P.Z);
    var Px_m_Pz_2 := Mul(p, Px_m_Pz, Px_m_Pz);
    var Px_p_Pz_2 := Mul(p, Px_p_Pz, Px_p_Pz);
    var XZ' := Mul(p, P.X, P.Z);
    var twoXZ := Add(p, XZ', XZ');
    var fourXZ := Add(p, twoXZ, twoXZ);
    var fourXZ_scaled := Mul(p, fourXZ, aplus2over4);
    var Zpre := Add(p, Px_m_Pz_2, fourXZ_scaled);
    XZ(Mul(p, Px_m_Pz_2, Px_p_Pz_2), Mul(p, fourXZ, Zpre))
  }

  lemma SumAndDifference(p: nat, P: XZ, x: int)
    requires 0 < p && Cong(P.X, x * P.Z, p)
    ensures Cong(Sub(p, P.X, P.Z), (x - 1) * P.Z, p) && Cong(Add(p, P.X, P.Z), (x + 1) * P.Z, p)
  {
    SubC(p, P.X, x * P.Z, P.Z, P.Z);
    AddC(p, P.X, x * P.Z, P.Z, P.Z);
    Distribute(P.Z, x, 0 - 1);
    Distribute(P.Z, x, 1);
  }

  /** Both results of differential addition carry the square of k = 2 Z1 Z2. */
  lemma DiffAddIs(p: nat, P: XZ, Q: XZ, D: XZ, x1: int, x2: int, xd: int)
    requires 0 < p && Cong(P.X, x1 * P.Z, p) && Cong(Q.X, x2 * Q.Z, p) && Cong(D.X, xd * D.Z, p)
    ensures var S, k := DiffAdd(p, P, Q, D), 2 * (P.Z * Q.Z);
            && Cong(S.X, k * (x1 * x2 - 1) * (k * (x1 * x2 - 1)) * D.Z, p)
            && Cong(S.Z, k * (x1 - x2) * (k * (x1 - x2)) * (xd * D.Z), p)
  {
    hide Cong, Mul, Add, Sub;
    var z, w := P.Z, Q.Z;
    var k := 2 * (z * w);
    SumAndDifference(p, P, x1);
    SumAndDifference(p, Q, x2);
    var pm, pp, qm, qp := Sub(p, P.X, P.Z), Add(p, P.X, P.Z), Sub(p, Q.X, Q.Z), Add(p, Q.X, Q.Z);
    var pmqp, ppqm := Mul(p, pm, qp), Mul(p, pp, qm);
    var xpre, zpre := Add(p, pmqp, ppqm), Sub(p, pmqp, ppqm);
    MulC(p, pm, (x1 - 1) * z, qp, (x2 + 1) * w);
    MulC(p, pp, (x1 + 1) * z, qm, (x2 - 1) * w);
    AddC(p, pmqp, (x1 - 1) * z * ((x2 + 1) * w), ppqm, (x1 + 1) * z * ((x2 - 1) * w));
    SubC(p, pmqp, (x1 - 1) * z * ((x2 + 1) * w), ppqm, (x1 + 1) * z * ((x2 - 1) * w));
    CrossTerms(x1, x2, z, w);
    var f, g := k * (x1 * x2 - 1), k * (x1 - x2);
    MulC(p, xpre, f, xpre, f);
    MulC(p, zpre, g, zpre, g);
    Refl(p, D.Z);
    MulC(p, Mul(p, xpre, xpre), f * f, D.Z, D.Z);
    MulC(p, Mul(p, zpre, zpre), g * g, D.X, xd * D.Z);
  }

  lemma CrossTerms(x1: int, x2: int, z: int, w: int)
    ensures var k := 2 * (z * w);
            && (x1 - 1) * z * ((x2 + 1) * w) + (x1 + 1) * z * ((x2 - 1) * w) == k * (x1 * x2 - 1)
            && (x1 - 1) * z * ((x2 + 1) * w) - (x1 + 1) * z * ((x2 - 1) * w) == k * (x1 - x2)
  {
    var k, m := z * w, x1 * x2;
    Regroup4(x1 - 1, z, x2 + 1, w);
    Regroup4(x1 + 1, z, x2 - 1, w);
    assert (x1 - 1) * (x2 + 1) == m + x1 - x2 - 1 && (x1 + 1) * (x2 - 1) == m - x1 + x2 - 1;
    Distribute(k, m + x1 - x2 - 1, m - x1 + x2 - 1);
    Distribute(k, m + x1 - x2 - 1, 0 - (m - x1 + x2 - 1));
    MulAssoc(2, k, m - 1);
    MulAssoc(2, k, x1 - x2);
    MulAssoc(2, m - 1, k);
    MulAssoc(2, x1 - x2, k);
  }

  /** Differential addition gives the coordinate of the sum just if the two points differ in x and their difference is not
      at x = 0; otherwise it gives a point at infinity. */
  lemma DiffAddCorrect(p: nat, P: XZ, Q: XZ, D: XZ, x1: int, x2: int, xd: int, sum: int)
    requires IsPrime(p) && 2 < p && RepresentsX(p, P, x1) && RepresentsX(p, Q, x2) && RepresentsX(p, D, xd)
    ensures DiffAdd(p, P, Q, D).Z % p == 0 <==> Cong(x1, x2, p) || xd % p == 0
    ensures !Cong(x1, x2, p) && xd % p != 0 && DiffRelation(p, x1, x2, sum, xd) ==> RepresentsX(p, DiffAdd(p, P, Q, D), sum)
  {
    hide Cong, IsPrime, DiffAdd;
    var S, k, t, d := DiffAdd(p, P, Q, D), 2 * (P.Z * Q.Z), x1 * x2 - 1, x1 - x2;
    DiffAddIs(p, P, Q, D, x1, x2, xd);
    assert (x2 - x1) * (x2 - x1) == d * d by { NegatedDifference(x1, x2); }
    if DiffRelation(p, x1, x2, sum, xd) {
      ScaledRelation(p, S.X, S.Z, k, t, d, xd, D.Z, sum);
    }
    SmallMod(2, p);
    ProductZero(p, P.Z, Q.Z);
    ProductZero(p, 2, P.Z * Q.Z);
    DifferenceNonzero(p, x2, x1);
    Flip(p, x1, x2);
    ProductZero(p, k, d);
    ProductZero(p, k * d, k * d);
    ProductZero(p, xd, D.Z);
    ProductZero(p, k * d * (k * d), xd * D.Z);
    SameZero(p, S.Z, k * d * (k * d) * (xd * D.Z));
  }

  lemma NegatedDifference(x1: int, x2: int)
    ensures (x2 - x1) * (x2 - x1) == (x1 - x2) * (x1 - x2)
  {
  }

  lemma ScaledRelation(p: nat, X: int, Z: int, k: int, t: int, d: int, xd: int, v: int, sum: int)
    requires 0 < p && Cong(X, k * t * (k * t) * v, p) && Cong(Z, k * d * (k * d) * (xd * v), p)
    requires Cong(sum * xd * (d * d), t * t, p)
    ensures Cong(X, sum * Z, p)
  {
    hide Cong;
    var kk, c := k * k, sum * xd * (d * d);
    Refl(p, kk);
    Refl(p, v);
    Refl(p, sum);
    Mult(p, kk, kk, c, t * t);
    Mult(p, kk * c, kk * (t * t), v, v);
    assert k * t * (k * t) == kk * (t * t) by { ProductOfSquares(k, t); }
    Mult(p, sum, sum, Z, k * d * (k * d) * (xd * v));
    assert sum * (k * d * (k * d) * (xd * v)) == kk * c * v by { ScaledArith(sum, k, d, xd, v); }
    Flip(p, sum * Z, kk * c * v);
    Trans(p, kk * (t * t) * v, kk * c * v, kk * (t * t) * v);
    Flip(p, kk * c * v, kk * (t * t) * v);
    Trans(p, X, kk * (t * t) * v, kk * c * v);
    Trans(p, X, kk * c * v, sum * Z);
  }

  lemma ScaledArith(sum: int, k: int, d: int, xd: int, v: int)
    ensures sum * (k * d * (k * d) * (xd * v)) == k * k * (sum * xd * (d * d)) * v
  {
    var kk, dd := k * k, d * d;
    ProductOfSquares(k, d);
    MulAssoc(kk * dd, xd, v);
    MulAssoc(sum, kk * dd * xd, v);
    assert sum * (kk * dd * xd) == kk * (sum * xd * dd) by {
      MulAssoc(kk, dd, xd);
      MulAssoc(sum, kk, dd * xd);
      MulAssoc(kk, sum, dd * xd);
      MulAssoc(sum, xd, dd);
    }
  }

  lemma DoubleXZIs(p: nat, a24: int, P: XZ, x: int)
    requires 0 < p && Cong(P.X, x * P.Z, p)
    ensures var S, z := DoubleXZ(p, a24, P), P.Z;
            var m, q := (x - 1) * z * ((x - 1) * z), (x + 1) * z * ((x + 1) * z);
            var f := 4 * (x * z * z);
            Cong(S.X, m * q, p) && Cong(S.Z, f * (m + f * a24), p)
  {
    hide Cong, Mul, Add, Sub;
    var z := P.Z;
    SumAndDifference(p, P, x);
    var pm, pp, xz := Sub(p, P.X, P.Z), Add(p, P.X, P.Z), Mul(p, P.X, P.Z);
    var m, q, f := (x - 1) * z * ((x - 1) * z), (x + 1) * z * ((x + 1) * z), x * z * z;
    var pm2, two := Mul(p, pm, pm), Add(p, xz, xz);
    var four := Add(p, two, two);
    Refl(p, z);
    Refl(p, a24);
    MulC(p, pm, (x - 1) * z, pm, (x - 1) * z);
    MulC(p, pp, (x + 1) * z, pp, (x + 1) * z);
    MulC(p, pm2, m, Mul(p, pp, pp), q);
    MulC(p, P.X, x * z, z, z);
    AddC(p, xz, f, xz, f);
    AddC(p, two, f + f, two, f + f);
    MulC(p, four, 4 * f, a24, a24);
    AddC(p, pm2, m, Mul(p, four, a24), 4 * f * a24);
    MulC(p, four, 4 * f, Add(p, pm2, Mul(p, four, a24)), m + 4 * f * a24);
  }

  /** Doubling gives the coordinate of the double, if that is not the point at infinity, and Z = 0 if it is. */
  lemma DoubleXZCorrect(p: nat, a: int, a24: int, P: XZ, x: int, x2: int)
    requires IsPrime(p) && 2 < p && RepresentsX(p, P, x) && Cong(4 * a24, a + 2, p)
    ensures DoubleXZ(p, a24, P).Z % p == 0 <==> (x * (x * x + a * x + 1)) % p == 0
    ensures (x * (x * x + a * x + 1)) % p != 0 && DoubleRelation(p, a, x, x2) ==> RepresentsX(p, DoubleXZ(p, a24, P), x2)
  {
    hide Cong, IsPrime, DoubleXZ;
    var S, z := DoubleXZ(p, a24, P), P.Z;
    var m, q, f, r := (x - 1) * z * ((x - 1) * z), (x + 1) * z * ((x + 1) * z), 4 * (x * z * z), x * (x * x + a * x + 1);
    var z4 := z * z * (z * z);
    DoubleXZIs(p, a24, P, x);
    assert m * q == (x * x - 1) * (x * x - 1) * z4 by { DoubleTop(x, z); }
    assert Cong(S.Z, 4 * r * z4, p) by { DoubleBottom(p, a, a24, x, z, S.Z); }
    ProductZero(p, z, z);
    ProductZero(p, z * z, z * z);
    ProductZero(p, 4 * r, z4);
    FourNonzero(p);
    ProductZero(p, 4, r);
    SameZero(p, S.Z, 4 * r * z4);
    if r % p != 0 && DoubleRelation(p, a, x, x2) {
      Refl(p, z4);
      Refl(p, x2);
      Mult(p, x2 * (4 * r), (x * x - 1) * (x * x - 1), z4, z4);
      MulAssoc(x2, 4 * r, z4);
      Mult(p, x2, x2, S.Z, 4 * r * z4);
      Flip(p, x2 * (4 * r) * z4, (x * x - 1) * (x * x - 1) * z4);
      Flip(p, x2 * S.Z, x2 * (4 * r * z4));
      Trans(p, S.X, m * q, x2 * (4 * r) * z4);
      Trans(p, S.X, x2 * (4 * r) * z4, x2 * S.Z);
    }
  }

  lemma FourNonzero(p: nat)
    requires IsPrime(p) && 2 < p
    ensures 4 % p != 0
  {
    hide IsPrime;
    SmallMod(2, p);
    ProductZero(p, 2, 2);
  }

  lemma DoubleTop(x: int, z: int)
    ensures (x - 1) * z * ((x - 1) * z) * ((x + 1) * z * ((x + 1) * z)) == (x * x - 1) * (x * x - 1) * (z * z * (z * z))
  {
    var m, q := (x - 1) * z, (x + 1) * z;
    ProductOfSquares(m, q);
    assert m * q == (x * x - 1) * (z * z) by {
      Regroup4(x - 1, z, x + 1, z);
      assert (x - 1) * (x + 1) == x * x - 1;
    }
    ProductOfSquares(x * x - 1, z * z);
  }

  lemma DoubleBottom(p: nat, a: int, a24: int, x: int, z: int, Z: int)
    requires 0 < p && Cong(4 * a24, a + 2, p)
    requires var m, f := (x - 1) * z * ((x - 1) * z), 4 * (x * z * z); Cong(Z, f * (m + f * a24), p)
    ensures Cong(Z, 4 * (x * (x * x + a * x + 1)) * (z * z * (z * z)), p)
  {
    hide Cong;
    var m, f, zz := (x - 1) * z * ((x - 1) * z), 4 * (x * z * z), z * z;
    Refl(p, x * zz);
    Refl(p, m);
    Refl(p, f);
    Mult(p, x * zz, x * zz, 4 * a24, a + 2);
    assert x * z * z == x * zz by { MulAssoc(x, z, z); }
    assert f * a24 == x * zz * (4 * a24) by { MulAssoc(4, x * zz, a24); MulAssoc(x * zz, 4, a24); }
    CongAdd(m, m, f * a24, x * zz * (a + 2), p);
    Mult(p, f, f, m + f * a24, m + x * zz * (a + 2));
    assert f * (m + x * zz * (a + 2)) == 4 * (x * (x * x + a * x + 1)) * (zz * zz) by { BottomArith(a, x, z); }
    Trans(p, Z, f * (m + f * a24), 4 * (x * (x * x + a * x + 1)) * (zz * zz));
  }

  lemma BottomArith(a: int, x: int, z: int)
    ensures var m, zz := (x - 1) * z * ((x - 1) * z), z * z;
            4 * (x * z * z) * (m + x * zz * (a + 2)) == 4 * (x * (x * x + a * x + 1)) * (zz * zz)
  {
    var zz, g := z * z, x * x + a * x + 1;
    var m := (x - 1) * z * ((x - 1) * z);
    assert m == (x - 1) * (x - 1) * zz by { ProductOfSquares(x - 1, z); }
    assert m + x * zz * (a + 2) == g * zz by {
      assert x * zz * (a + 2) == x * (a + 2) * zz by { MulAssoc(x, zz, a + 2); MulAssoc(x, a + 2, zz); }
      assert (x - 1) * (x - 1) + x * (a + 2) == g by { SquareOfDifference(1, x); Distribute(x, a, 2); }
      Distribute(zz, (x - 1) * (x - 1), x * (a + 2));
    }
    assert x * z * z == x * zz by { MulAssoc(x, z, z); }
    assert x * zz * (g * zz) == x * g * (zz * zz) by { Regroup4(x, zz, g, zz); }
    MulAssoc(4, x * zz, g * zz);
    MulAssoc(4, x * g, zz * zz);
  }
}
