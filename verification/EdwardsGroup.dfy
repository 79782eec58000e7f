/**
 The points of a complete twisted Edwards curve form a group under the affine
 addition of the Edwards module: in particular addition is associative, so that
 a multiple of a point is the same however it is formed.
 */
module EdwardsGroup {
  import opened Arithmetic
  import opened Primes
  import opened Fields
  import opened Weierstrass
  import opened WeierstrassLaw
  import opened Edwards

  type Point = (int, int)

  function XX(P: Point): int { P.0 * P.0 }

  function YY(P: Point): int { P.1 * P.1 }

  function XY(P: Point): int { P.0 * P.1 }

  function Less(a: int, P: Point): int { YY(P) - a * XX(P) }

  function Quartic(d: int, P: Point): int { d * (XX(P) * YY(P)) }

  /** The x coordinate of (P + Q) + R is this numerator over the denominator below. */
  function Numerator(a: int, d: int, P: Point, Q: Point, R: Point): int {
    var w := d * (XY(P) * XY(Q));
    (P.0 * Q.1 + P.1 * Q.0) * (1 - w) * R.1 + (P.1 * Q.1 - a * (P.0 * Q.0)) * (1 + w) * R.0
  }

  function Denominator(a: int, d: int, P: Point, Q: Point, R: Point): int {
    var w := d * (XY(P) * XY(Q));
    1 - w * w + d * (XY(P) * XY(R)) * Less(a, Q) + d * (XY(Q) * XY(R)) * Less(a, P)
  }

  // ------------------------------------------- the numerator in terms of four products

  /** c1 e1 + c2 e2 + c3 e3 + c0 e0, where e1, e2 and e3 have one x coordinate each, and e0 has all three. */
  datatype Mixed = Mixed(c1: int, c2: int, c3: int, c0: int)

  function Value(s: Mixed, P: Point, Q: Point, R: Point): int {
    s.c1 * (P.0 * Q.1 * R.1) + s.c2 * (P.1 * Q.0 * R.1) + s.c3 * (P.1 * Q.1 * R.0) + s.c0 * (P.0 * Q.0 * R.0)
  }

  function NumeratorTerms(a: int, d: int, P: Point, Q: Point): Mixed {
    Mixed(1 - d * (YY(P) * XX(Q)), 1 - d * (XX(P) * YY(Q)), 1 - a * (d * (XX(P) * XX(Q))), d * (YY(P) * YY(Q)) - a)
  }

  lemma PairMoves(d: int, x: int, y: int, u: int, v: int)
    ensures d * (x * y * (u * v)) * (x * v) == d * (x * x * (v * v)) * (y * u)
  {
  }

  lemma NumeratorIs(a: int, d: int, P: Point, Q: Point, R: Point)
    ensures Numerator(a, d, P, Q, R) == Value(NumeratorTerms(a, d, P, Q), P, Q, R)
  {
    var w := d * (XY(P) * XY(Q));
    PairMoves(d, P.0, P.1, Q.0, Q.1);
    PairMoves(d, P.1, P.0, Q.1, Q.0);
    PairMoves(d, P.1, P.0, Q.0, Q.1);
    PairMoves(d, P.0, P.1, Q.1, Q.0);
    var n := NumeratorTerms(a, d, P, Q);
    Swapped(w, P.0 * Q.1, P.1 * Q.0, d * (XX(P) * YY(Q)), d * (YY(P) * XX(Q)));
    SwappedToo(a, w, P.1 * Q.1, P.0 * Q.0, d * (YY(P) * YY(Q)), d * (XX(P) * XX(Q)));
    TimesTwo(n.c1, P.0 * Q.1, n.c2, P.1 * Q.0, R.1);
    TimesTwo(n.c3, P.1 * Q.1, n.c0, P.0 * Q.0, R.0);
  }

  lemma Swapped(w: int, h: int, k: int, c1: int, c2: int)
    requires w * h == c1 * k && w * k == c2 * h
    ensures (h + k) * (1 - w) == (1 - c2) * h + (1 - c1) * k
  {
  }

  lemma SwappedToo(a: int, w: int, l: int, m: int, c1: int, c2: int)
    requires w * l == c1 * m && w * m == c2 * l
    ensures (l - a * m) * (1 + w) == (1 - a * c2) * l + (c1 - a) * m
  {
    assert a * m * w == a * (c2 * l) by { MulAssoc(a, m, w); }
    assert a * (c2 * l) == a * c2 * l by { MulAssoc(a, c2, l); }
  }

  lemma TimesTwo(n: int, e: int, m: int, f: int, z: int)
    ensures (n * e + m * f) * z == n * (e * z) + m * (f * z)
  {
  }

  // ----------------------------------------------- its product with a denominator

  /** The numerator for (P + Q) + R times the denominator for (R + Q) + P. */
  function ProductTerms(a: int, d: int, P: Point, Q: Point, R: Point): Mixed {
    var n, v := NumeratorTerms(a, d, P, Q), 1 - Quartic(d, Q) * Quartic(d, R);
    var sq, sr := Less(a, Q), Less(a, R);
    Mixed(n.c1 * v + sr * (n.c2 * (d * (YY(P) * XX(Q)))) + sq * (n.c3 * (d * (YY(P) * XX(R)))),
          n.c2 * v + sr * (n.c1 * (d * (XX(P) * YY(Q)))) + sq * (n.c0 * (d * (XX(P) * XX(R)))),
          n.c3 * v + sr * (n.c0 * (d * (XX(P) * XX(Q)))) + sq * (n.c1 * (d * (XX(P) * YY(R)))),
          n.c0 * v + sr * (n.c3 * (d * (YY(P) * YY(Q)))) + sq * (n.c2 * (d * (YY(P) * YY(R)))))
  }

  lemma ProductIs(a: int, d: int, P: Point, Q: Point, R: Point)
    ensures Numerator(a, d, P, Q, R) * Denominator(a, d, R, Q, P) == Value(ProductTerms(a, d, P, Q, R), P, Q, R)
  {
    hide Less;
    var n, v := NumeratorTerms(a, d, P, Q), Quartic(d, Q) * Quartic(d, R);
    var wq, wr, w := d * (XY(Q) * XY(P)), d * (XY(R) * XY(P)), d * (XY(R) * XY(Q));
    NumeratorIs(a, d, P, Q, R);
    SquareOfPair(d, R.0, R.1, Q.0, Q.1);
    MovedByFirst(d, n, P, Q, R);
    MovedByLast(d, n, P, Q, R);
    FourTerms(Value(n, P, Q, R), v, wr, Less(a, Q), wq, Less(a, R));
    Collect(n, v, Less(a, R), Less(a, Q), d * (YY(P) * XX(Q)), d * (XX(P) * YY(Q)), d * (XX(P) * XX(Q)), d * (YY(P) * YY(Q)),
            d * (YY(P) * XX(R)), d * (XX(P) * XX(R)), d * (XX(P) * YY(R)), d * (YY(P) * YY(R)), P, Q, R);
  }

  lemma SquareOfPair(d: int, x: int, y: int, u: int, v: int)
    ensures var w := d * (x * y * (u * v)); w * w == d * (u * u * (v * v)) * (d * (x * x * (y * y)))
  {
  }

  lemma FourTerms(N: int, v: int, w1: int, s1: int, w2: int, s2: int)
    ensures N * (1 - v + w1 * s1 + w2 * s2) == N * (1 - v) + s1 * (w1 * N) + s2 * (w2 * N)
  {
  }

  lemma MovedByFirst(d: int, n: Mixed, P: Point, Q: Point, R: Point)
    ensures d * (XY(Q) * XY(P)) * Value(n, P, Q, R) ==
            Value(Mixed(n.c2 * (d * (YY(P) * XX(Q))), n.c1 * (d * (XX(P) * YY(Q))),
                        n.c0 * (d * (XX(P) * XX(Q))), n.c3 * (d * (YY(P) * YY(Q)))), P, Q, R)
  {
    Triple(d, P.0, P.1, Q.0, Q.1, R.1);
    Triple(d, P.1, P.0, Q.1, Q.0, R.1);
    Triple(d, P.1, P.0, Q.0, Q.1, R.0);
    Triple(d, P.0, P.1, Q.1, Q.0, R.0);
    Exchange(d * (XY(Q) * XY(P)), n, P.0 * Q.1 * R.1, P.1 * Q.0 * R.1, P.1 * Q.1 * R.0, P.0 * Q.0 * R.0,
             d * (XX(P) * YY(Q)), d * (YY(P) * XX(Q)), d * (YY(P) * YY(Q)), d * (XX(P) * XX(Q)));
  }

  lemma MovedByLast(d: int, n: Mixed, P: Point, Q: Point, R: Point)
    ensures d * (XY(R) * XY(P)) * Value(n, P, Q, R) ==
            Value(Mixed(n.c3 * (d * (YY(P) * XX(R))), n.c0 * (d * (XX(P) * XX(R))),
                        n.c1 * (d * (XX(P) * YY(R))), n.c2 * (d * (YY(P) * YY(R)))), P, Q, R)
  {
    Triple(d, P.0, P.1, R.0, R.1, Q.1);
    Triple(d, P.1, P.0, R.1, R.0, Q.1);
    Triple(d, P.1, P.0, R.0, R.1, Q.0);
    Triple(d, P.0, P.1, R.1, R.0, Q.0);
    Reorder(P.0, Q.1, R.1);
    Reorder(P.1, Q.1, R.0);
    Reorder(P.1, Q.0, R.1);
    Reorder(P.0, Q.0, R.0);
    Exchange(d * (XY(R) * XY(P)), Mixed(n.c1, n.c3, n.c2, n.c0), P.0 * Q.1 * R.1, P.1 * Q.1 * R.0, P.1 * Q.0 * R.1,
             P.0 * Q.0 * R.0, d * (XX(P) * YY(R)), d * (YY(P) * XX(R)), d * (YY(P) * YY(R)), d * (XX(P) * XX(R)));
  }

  lemma Reorder(x: int, y: int, z: int)
    ensures x * z * y == x * y * z
  {
  }

  lemma Triple(d: int, x: int, y: int, u: int, v: int, z: int)
    ensures d * (u * v * (x * y)) * (x * v * z) == d * (x * x * (v * v)) * (y * u * z)
  {
    PairMoves(d, x, y, u, v);
    MulAssoc(d * (u * v * (x * y)), x * v, z);
    MulAssoc(d * (x * x * (v * v)), y * u, z);
  }

  lemma Exchange(w: int, n: Mixed, e1: int, e2: int, e3: int, e0: int, c1: int, c2: int, c3: int, c0: int)
    requires w * e1 == c1 * e2 && w * e2 == c2 * e1 && w * e3 == c3 * e0 && w * e0 == c0 * e3
    ensures w * (n.c1 * e1 + n.c2 * e2 + n.c3 * e3 + n.c0 * e0) ==
            n.c2 * c2 * e1 + n.c1 * c1 * e2 + n.c0 * c0 * e3 + n.c3 * c3 * e0
  {
    OneTerm(w, n.c1, e1, c1, e2);
    OneTerm(w, n.c2, e2, c2, e1);
    OneTerm(w, n.c3, e3, c3, e0);
    OneTerm(w, n.c0, e0, c0, e3);
    Distribute(w, n.c1 * e1 + n.c2 * e2 + n.c3 * e3, n.c0 * e0);
    Distribute(w, n.c1 * e1 + n.c2 * e2, n.c3 * e3);
    Distribute(w, n.c1 * e1, n.c2 * e2);
  }

  lemma OneTerm(w: int, n: int, e: int, c: int, f: int)
    requires w * e == c * f
    ensures w * (n * e) == n * c * f
  {
    MulAssoc(n, w, e);
    MulAssoc(w, n, e);
    MulAssoc(n, c, f);
  }

  lemma Collect(n: Mixed, v: int, sr: int, sq: int, a1: int, a2: int, a3: int, a0: int, b1: int, b2: int, b3: int, b0: int,
                P: Point, Q: Point, R: Point)
    ensures Value(n, P, Q, R) * (1 - v) + sr * Value(Mixed(n.c2 * a1, n.c1 * a2, n.c0 * a3, n.c3 * a0), P, Q, R)
            + sq * Value(Mixed(n.c3 * b1, n.c0 * b2, n.c1 * b3, n.c2 * b0), P, Q, R) ==
            Value(Mixed(n.c1 * (1 - v) + sr * (n.c2 * a1) + sq * (n.c3 * b1),
                        n.c2 * (1 - v) + sr * (n.c1 * a2) + sq * (n.c0 * b2),
                        n.c3 * (1 - v) + sr * (n.c0 * a3) + sq * (n.c1 * b3),
                        n.c0 * (1 - v) + sr * (n.c3 * a0) + sq * (n.c2 * b0)),
                  P, Q, R)
  {
    ScaledValue(n, 1 - v, P, Q, R);
    ScaledValue(Mixed(n.c2 * a1, n.c1 * a2, n.c0 * a3, n.c3 * a0), sr, P, Q, R);
    ScaledValue(Mixed(n.c3 * b1, n.c0 * b2, n.c1 * b3, n.c2 * b0), sq, P, Q, R);
    Added(Mixed(n.c1 * (1 - v), n.c2 * (1 - v), n.c3 * (1 - v), n.c0 * (1 - v)),
          Mixed(sr * (n.c2 * a1), sr * (n.c1 * a2), sr * (n.c0 * a3), sr * (n.c3 * a0)),
          Mixed(sq * (n.c3 * b1), sq * (n.c0 * b2), sq * (n.c1 * b3), sq * (n.c2 * b0)), P, Q, R);
  }

  lemma ScaledValue(n: Mixed, k: int, P: Point, Q: Point, R: Point)
    ensures Value(Mixed(k * n.c1, k * n.c2, k * n.c3, k * n.c0), P, Q, R) == k * Value(n, P, Q, R)
  {
    ScaledFour(k, n.c1, P.0 * Q.1 * R.1, n.c2, P.1 * Q.0 * R.1, n.c3, P.1 * Q.1 * R.0, n.c0, P.0 * Q.0 * R.0);
  }

  lemma ScaledFour(k: int, c1: int, e1: int, c2: int, e2: int, c3: int, e3: int, c0: int, e0: int)
    ensures k * c1 * e1 + k * c2 * e2 + k * c3 * e3 + k * c0 * e0 == k * (c1 * e1 + c2 * e2 + c3 * e3 + c0 * e0)
  {
    MulAssoc(k, c1, e1);
    MulAssoc(k, c2, e2);
    MulAssoc(k, c3, e3);
    MulAssoc(k, c0, e0);
    Distribute(k, c1 * e1 + c2 * e2 + c3 * e3, c0 * e0);
    Distribute(k, c1 * e1 + c2 * e2, c3 * e3);
    Distribute(k, c1 * e1, c2 * e2);
  }

  lemma Added(l: Mixed, m: Mixed, n: Mixed, P: Point, Q: Point, R: Point)
    ensures Value(Mixed(l.c1 + m.c1 + n.c1, l.c2 + m.c2 + n.c2, l.c3 + m.c3 + n.c3, l.c0 + m.c0 + n.c0), P, Q, R) ==
            Value(l, P, Q, R) + Value(m, P, Q, R) + Value(n, P, Q, R)
  {
    AddedThree(l.c1, m.c1, n.c1, P.0 * Q.1 * R.1);
    AddedThree(l.c2, m.c2, n.c2, P.1 * Q.0 * R.1);
    AddedThree(l.c3, m.c3, n.c3, P.1 * Q.1 * R.0);
    AddedThree(l.c0, m.c0, n.c0, P.0 * Q.0 * R.0);
  }

  lemma AddedThree(l: int, m: int, n: int, e: int)
    ensures (l + m + n) * e == l * e + m * e + n * e
  {
  }

  // -------------------------------------------- where the curve's equation comes in

  /** The one identity behind the four that follow: the q are what z + y - 1 is on the curve. */
  lemma Balance(t: int, c: int, u: int, v: int, w: int, z1: int, y1: int, q1: int, z2: int, y2: int, q2: int,
                z3: int, y3: int, q3: int, g1: int, g2: int, g3: int)
    requires t * q2 == c * w && v * z1 == u * z3 && (u * q3 - v * q1) * z2 == w * (z1 * q3 - z3 * q1)
    requires q1 == z1 + y1 - 1 + g1 && q2 == z2 + y2 - 1 + g2 && q3 == z3 + y3 - 1 + g3
    ensures (t - c * u) * (1 - q2 * q3) + c * ((y3 - z3) * (u - q1 * w) + (z2 - y2) * (u * q3 - v * q1)) ==
            (t - c * v) * (1 - q1 * q2) - c * ((z1 - y1) * (v - q3 * w))
            + c * (v * g1 - u * g3 + (u * q3 - v * q1) * g2 + w * (q1 * g3 - q3 * g1))
  {
    var l, r, k := 1 - q2 * q3, 1 - q1 * q2, u * q3 - v * q1;
    var s1, s2, s3 := (z1 - y1) * (v - q3 * w), (z2 - y2) * k, (y3 - z3) * (u - q1 * w);
    var g := v * g1 - u * g3 + k * g2 + w * (q1 * g3 - q3 * g1);
    Outer(t, c, u, v, w, q1, q2, q3);
    assert v * r - u * l == v - u + k * q2 by { TwoProducts(u, v, q1, q2, q3); }
    assert k * q2 + s2 == 2 * (w * (z1 * q3 - z3 * q1)) - k + k * g2 by { Middle(k, z2, y2, q2, g2); }
    Ends(u, v, w, z1, y1, q1, z3, y3, q3, g1, g3);
    assert w * (q1 - q3) + (v * r - u * l) + s1 + s2 + s3 == g;
    Factor(c, w * (q1 - q3) + (v * r - u * l), s1, s2, s3, g);
  }

  lemma Outer(t: int, c: int, u: int, v: int, w: int, q1: int, q2: int, q3: int)
    requires t * q2 == c * w
    ensures (t - c * u) * (1 - q2 * q3) - (t - c * v) * (1 - q1 * q2) ==
            c * (w * (q1 - q3) + (v * (1 - q1 * q2) - u * (1 - q2 * q3)))
  {
    var l, r := 1 - q2 * q3, 1 - q1 * q2;
    assert t * l == t - c * w * q3 by { MulAssoc(t, q2, q3); }
    assert t * r == t - c * w * q1 by { MulAssoc(t, q2, q1); }
    assert c * u * l == c * (u * l) && c * v * r == c * (v * r) by { MulAssoc(c, u, l); MulAssoc(c, v, r); }
    assert c * w * q1 - c * w * q3 == c * (w * (q1 - q3)) by { MulAssoc(c, w, q1); MulAssoc(c, w, q3); }
  }

  lemma TwoProducts(u: int, v: int, q1: int, q2: int, q3: int)
    ensures v * (1 - q1 * q2) - u * (1 - q2 * q3) == v - u + (u * q3 - v * q1) * q2
  {
  }

  lemma Middle(k: int, z: int, y: int, q: int, g: int)
    requires q == z + y - 1 + g
    ensures k * q + (z - y) * k == 2 * (k * z) - k + k * g
  {
  }

  lemma Ends(u: int, v: int, w: int, z1: int, y1: int, q1: int, z3: int, y3: int, q3: int, g1: int, g3: int)
    requires v * z1 == u * z3 && q1 == z1 + y1 - 1 + g1 && q3 == z3 + y3 - 1 + g3
    ensures w * (q1 - q3) + v - u + 2 * (w * (z1 * q3 - z3 * q1)) - (u * q3 - v * q1)
            + (z1 - y1) * (v - q3 * w) + (y3 - z3) * (u - q1 * w) == v * g1 - u * g3 + w * (q1 * g3 - q3 * g1)
  {
    var s1, s3 := z1 - y1, y3 - z3;
    TakeOutW(s1, v, q3, w);
    TakeOutW(s3, u, q1, w);
    assert v + v * q1 + s1 * v == v * (2 * z1 + g1) by { OneEnd(v, q1, s1, 2 * z1 + g1); }
    assert s3 * u - u - u * q3 == 0 - u * (2 * z3 + g3) by { OneEnd(0 - u, q3, 0 - s3, 2 * z3 + g3); }
    assert v * (2 * z1 + g1) - u * (2 * z3 + g3) == v * g1 - u * g3 by { Doubled(v, z1, g1); Doubled(u, z3, g3); }
    var i := q1 - q3 + 2 * (z1 * q3 - z3 * q1) - s1 * q3 - s3 * q1;
    assert i == q1 * g3 - q3 * g1 by { InsideEnds(z1, y1, q1, z3, y3, q3, g1, g3); }
    FourAtOnce(w, q1 - q3, z1 * q3 - z3 * q1, s1 * q3, s3 * q1);
  }

  lemma TakeOutW(s: int, v: int, q: int, w: int)
    ensures s * (v - q * w) == s * v - w * (s * q)
  {
    Distribute(s, v, 0 - q * w);
    MulAssoc(s, q, w);
  }

  lemma OneEnd(v: int, q: int, s: int, e: int)
    requires 1 + q + s == e
    ensures v + v * q + s * v == v * e
  {
  }

  lemma Doubled(v: int, z: int, g: int)
    ensures v * (2 * z + g) == 2 * (v * z) + v * g
  {
  }

  lemma InsideEnds(z1: int, y1: int, q1: int, z3: int, y3: int, q3: int, g1: int, g3: int)
    requires q1 == z1 + y1 - 1 + g1 && q3 == z3 + y3 - 1 + g3
    ensures q1 - q3 + 2 * (z1 * q3 - z3 * q1) - (z1 - y1) * q3 - (y3 - z3) * q1 == q1 * g3 - q3 * g1
  {
    OneEnd(q1, 0 - z3 - y3, 0, 1 - z3 - y3);
    assert 1 - z3 - y3 == g3 - q3 && z1 + y1 - 1 == q1 - g1;
    assert q1 * (1 - z3 - y3) == q1 * (g3 - q3);
    assert q3 * (z1 + y1 - 1) == q3 * (q1 - g1);
  }

  lemma FourAtOnce(w: int, x: int, y: int, s: int, t: int)
    ensures w * x + 2 * (w * y) - w * s - w * t == w * (x + 2 * y - s - t)
  {
  }

  lemma Factor(c: int, x: int, s1: int, s2: int, s3: int, g: int)
    requires x + s1 + s2 + s3 == g
    ensures c * x + c * (s3 + s2) == c * g - c * s1
  {
  }

  lemma BalancedOnCurve(p: nat, t: int, c: int, u: int, v: int, w: int, z1: int, y1: int, q1: int, z2: int, y2: int, q2: int,
                 z3: int, y3: int, q3: int, f: int)
    requires t * q2 == c * w && v * z1 == u * z3 && (u * q3 - v * q1) * z2 == w * (z1 * q3 - z3 * q1)
    requires 0 < p && Cong(q1, z1 + y1 - 1, p) && Cong(q2, z2 + y2 - 1, p) && Cong(q3, z3 + y3 - 1, p)
    ensures Cong((t - c * u) * (1 - q2 * q3) + c * ((y3 - z3) * (u - q1 * w)) + (z2 - y2) * (f - c * (q1 * v)),
                 (t - c * v) * (1 - q1 * q2) - c * ((z1 - y1) * (v - q3 * w)) + (z2 - y2) * (f - c * (u * q3)), p)
  {
    hide Cong;
    var k1 := CongToMultiple(q1, z1 + y1 - 1, p);
    var k2 := CongToMultiple(q2, z2 + y2 - 1, p);
    var k3 := CongToMultiple(q3, z3 + y3 - 1, p);
    Balance(t, c, u, v, w, z1, y1, q1, z2, y2, q2, z3, y3, q3, k1 * p, k2 * p, k3 * p);
    var k, s := u * q3 - v * q1, z2 - y2;
    var n := c * (v * k1 - u * k3 + k * k2 + w * (q1 * k3 - q3 * k1));
    var T1, x3 := (t - c * u) * (1 - q2 * q3), (y3 - z3) * (u - q1 * w);
    var T2, x1 := (t - c * v) * (1 - q1 * q2), (z1 - y1) * (v - q3 * w);
    var m1, m2 := s * (f - c * (q1 * v)), s * (f - c * (u * q3));
    MultipleOf(p, c, u, v, w, k, q1, q3, k1, k2, k3);
    assert m1 == m2 + c * (s * k) by { SplitMiddle(c, s, f, u * q3, q1 * v); }
    BalanceSum(T1, T2, c, x1, x3, s * k, m1, m2, n * p);
    CongFromMultiple(T1 + c * x3 + m1, T2 - c * x1 + m2, n, p);
  }

  lemma BalanceSum(T1: int, T2: int, c: int, x1: int, x3: int, x2: int, m1: int, m2: int, g: int)
    requires T1 + c * (x3 + x2) == T2 - c * x1 + g && m1 == m2 + c * x2
    ensures T1 + c * x3 + m1 == T2 - c * x1 + m2 + g
  {
    Distribute(c, x3, x2);
  }

  lemma MultipleOf(p: int, c: int, u: int, v: int, w: int, k: int, q1: int, q3: int, k1: int, k2: int, k3: int)
    ensures c * (v * (k1 * p) - u * (k3 * p) + k * (k2 * p) + w * (q1 * (k3 * p) - q3 * (k1 * p))) ==
            c * (v * k1 - u * k3 + k * k2 + w * (q1 * k3 - q3 * k1)) * p
  {
    var m, n := q1 * k3 - q3 * k1, v * k1 - u * k3 + k * k2;
    assert q1 * (k3 * p) - q3 * (k1 * p) == m * p by { MulAssoc(q1, k3, p); MulAssoc(q3, k1, p); }
    assert v * (k1 * p) - u * (k3 * p) + k * (k2 * p) == n * p by { MulAssoc(v, k1, p); MulAssoc(u, k3, p); MulAssoc(k, k2, p); }
    assert w * (m * p) == w * m * p by { MulAssoc(w, m, p); }
    assert n * p + w * m * p == (n + w * m) * p;
    MulAssoc(c, n + w * m, p);
  }

  lemma SplitMiddle(c: int, s: int, f: int, x: int, y: int)
    ensures s * (f - c * y) == s * (f - c * x) + c * (s * (x - y))
  {
  }

  lemma CurveEquation(p: nat, a: int, d: int, P: Point)
    requires 0 < p && OnEdwards(p, a, d, P.0, P.1)
    ensures Cong(Quartic(d, P), YY(P) + a * XX(P) - 1, p) && Cong(Quartic(d, P), a * XX(P) + YY(P) - 1, p)
  {
    CongSub(a * XX(P) + YY(P), 1 + Quartic(d, P), 1, 1, p);
  }

  /** The coefficients of the two products, so far as they differ, in the terms of the identity above. */
  lemma FirstIsThird(p: nat, a: int, d: int, P: Point, Q: Point, R: Point)
    requires 0 < p && OnEdwards(p, a, d, P.0, P.1) && OnEdwards(p, a, d, Q.0, Q.1) && OnEdwards(p, a, d, R.0, R.1)
    ensures Cong(ProductTerms(a, d, P, Q, R).c1, ProductTerms(a, d, R, Q, P).c3, p)
  {
    hide Cong, OnEdwards, XX, YY;
    CurveEquation(p, a, d, P);
    CurveEquation(p, a, d, Q);
    CurveEquation(p, a, d, R);
    var A1, B1, A2, B2, A3, B3 := XX(P), YY(P), XX(Q), YY(Q), XX(R), YY(R);
    var q1, q2, q3 := Quartic(d, P), Quartic(d, Q), Quartic(d, R);
    var c, f, v := d * A2, d * (B1 * A3), a * A3;
    var n, m := NumeratorTerms(a, d, P, Q), NumeratorTerms(a, d, R, Q);
    assert 1 * q2 == c * B2 by { MulAssoc(d, A2, B2); }
    BalancedOnCurve(p, 1, c, B1, v, B2, B1, a * A1, q1, B2, a * A2, q2, v, B3, q3, f);
    Scale3(B3 - v, c, B1 - q1 * B2);
    Scale3(B1 - a * A1, c, v - q3 * B2);
    assert n.c1 == 1 - c * B1 && m.c3 == 1 - c * v by { Monomial(d, A2, B1); ScaledMonomial(a, d, A3, A2); }
    assert n.c2 * (d * (B1 * A2)) == c * (B1 - q1 * B2) by { KeptPart(d, A1, B1, B2, A2); }
    assert n.c3 * f == f - c * (q1 * v) by { ScaledPart(a, d, A1, B1, A3, A2); }
    assert m.c0 * (d * (A3 * A2)) == 0 - c * (v - q3 * B2) by { TurnedPart(a, d, A3, B3, B2, A2); }
    assert m.c1 * (d * (A3 * B1)) == f - c * (B1 * q3) by { LostPart(d, B3, A3, B1, A2); }
  }

  lemma Scale3(s: int, c: int, x: int)
    ensures s * (c * x) == c * (s * x) && s * (0 - c * x) == 0 - c * (s * x)
  {
    MulAssoc(s, c, x);
    MulAssoc(c, s, x);
  }

  lemma Monomial(d: int, x: int, y: int)
    ensures d * (y * x) == d * x * y && d * (x * y) == d * x * y
  {
  }

  lemma ScaledMonomial(a: int, d: int, x: int, y: int)
    ensures a * (d * (x * y)) == d * y * (a * x)
  {
    MulAssoc(d, y, x);
    MulAssoc(a, d * y, x);
    MulAssoc(d * y, a, x);
  }

  lemma Crossed(d: int, x: int, y: int, u: int, v: int)
    ensures d * (x * u) * (d * (y * v)) == d * v * (d * (x * y) * u)
  {
    Regroup4(d, x * u, d, y * v);
    Regroup4(x, u, y, v);
    Regroup4(d, v, d * (x * y), u);
    assert d * (d * (x * y)) == d * d * (x * y) by { MulAssoc(d, d, x * y); }
    MulAssoc(d * d, x * y, u * v);
  }

  lemma KeptPart(d: int, x: int, y: int, u: int, v: int)
    ensures (1 - d * (x * u)) * (d * (y * v)) == d * v * (y - d * (x * y) * u)
  {
    Crossed(d, x, y, u, v);
    Monomial(d, v, y);
    Distribute(d * v, y, 0 - d * (x * y) * u);
  }

  lemma LostPart(d: int, x: int, y: int, u: int, v: int)
    ensures (1 - d * (x * v)) * (d * (y * u)) == d * (u * y) - d * v * (u * (d * (y * x)))
  {
    Crossed(d, y, x, u, v);
  }

  lemma ScaledPart(a: int, d: int, x: int, y: int, u: int, v: int)
    ensures (1 - a * (d * (x * v))) * (d * (y * u)) == d * (y * u) - d * v * (d * (x * y) * (a * u))
  {
    Crossed(d, y, x, u, v);
    var m, q := d * (x * v) * (d * (y * u)), d * (x * y);
    assert a * (d * (x * v)) * (d * (y * u)) == a * m by { MulAssoc(a, d * (x * v), d * (y * u)); }
    assert a * (d * v * (q * u)) == d * v * (a * (q * u)) by { MulAssoc(a, d * v, q * u); MulAssoc(d * v, a, q * u); }
    assert a * (q * u) == q * (a * u) by { MulAssoc(a, q, u); MulAssoc(q, a, u); }
  }

  lemma TurnedPart(a: int, d: int, x: int, y: int, u: int, v: int)
    ensures (d * (y * u) - a) * (d * (x * v)) == 0 - d * v * (a * x - d * (x * y) * u)
  {
    Crossed(d, y, x, u, v);
    ScaledMonomial(a, d, x, v);
    Distribute(d * v, a * x, 0 - d * (x * y) * u);
  }

  lemma SecondIs(a: int, d: int, P: Point, Q: Point, R: Point)
    ensures var c, q1, f := d * YY(Q), Quartic(d, P), d * (XX(P) * XX(R));
            ProductTerms(a, d, P, Q, R).c2 ==
            (1 - c * XX(P)) * (1 - Quartic(d, Q) * Quartic(d, R)) + Less(a, R) * (c * (XX(P) - q1 * XX(Q)))
            + Less(a, Q) * (c * (q1 * XX(R)) - a * f)
  {
    hide XX, YY, Less;
    var A1, B1, A2, B2, A3 := XX(P), YY(P), XX(Q), YY(Q), XX(R);
    var n := NumeratorTerms(a, d, P, Q);
    Monomial(d, B2, A1);
    assert n.c1 * (d * (A1 * B2)) == d * B2 * (A1 - d * (A1 * B1) * A2) by { KeptPart(d, B1, A1, A2, B2); }
    assert n.c0 * (d * (A1 * A3)) == d * B2 * (d * (A1 * B1) * A3) - a * (d * (A1 * A3)) by { Crossed(d, A1, B1, A3, B2); }
  }

  lemma SecondIsSecond(p: nat, a: int, d: int, P: Point, Q: Point, R: Point)
    requires 0 < p && OnEdwards(p, a, d, P.0, P.1) && OnEdwards(p, a, d, Q.0, Q.1) && OnEdwards(p, a, d, R.0, R.1)
    ensures Cong(ProductTerms(a, d, P, Q, R).c2, ProductTerms(a, d, R, Q, P).c2, p)
  {
    hide Cong, OnEdwards, XX, YY, ProductTerms;
    CurveEquation(p, a, d, P);
    CurveEquation(p, a, d, Q);
    CurveEquation(p, a, d, R);
    var A1, B1, A2, B2, A3, B3 := XX(P), YY(P), XX(Q), YY(Q), XX(R), YY(R);
    var q1, q2, q3 := Quartic(d, P), Quartic(d, Q), Quartic(d, R);
    var c, f := d * B2, a * (d * (A1 * A3));
    assert 1 * q2 == c * A2 by { Monomial(d, B2, A2); }
    assert A3 * (a * A1) == A1 * (a * A3) by { MulAssoc(A3, a, A1); MulAssoc(A1, a, A3); }
    assert (A1 * q3 - A3 * q1) * (a * A2) == A2 * (a * A1 * q3 - a * A3 * q1) by {
      CommonFactor(a, A1 * q3, A3 * q1, A2, A1, q3, A3, q1);
    }
    BalancedOnCurve(p, 1, c, A1, A3, A2, a * A1, B1, q1, a * A2, B2, q2, a * A3, B3, q3, f);
    SecondIs(a, d, P, Q, R);
    SecondIs(a, d, R, Q, P);
    Arrange(B3 - a * A3, a * A3 - B3, c, A1 - q1 * A2, B2 - a * A2, a * A2 - B2, c * (q1 * A3), f);
    Arrange(B1 - a * A1, a * A1 - B1, c, A3 - q3 * A2, B2 - a * A2, a * A2 - B2, c * (A1 * q3), f);
  }

  lemma Arrange(s: int, s': int, c: int, x: int, t: int, t': int, y: int, f: int)
    requires s' == 0 - s && t' == 0 - t
    ensures s * (c * x) == c * (s * x) == 0 - c * (s' * x) && t * (y - f) == t' * (f - y)
  {
    MulAssoc(s, c, x);
    MulAssoc(c, s, x);
    assert s' * x == 0 - s * x;
  }

  lemma CommonFactor(a: int, x: int, y: int, w: int, u: int, q: int, v: int, r: int)
    requires x == u * q && y == v * r
    ensures (x - y) * (a * w) == w * (a * u * q - a * v * r)
  {
    MulAssoc(a, u, q);
    MulAssoc(a, v, r);
    assert w * (a * x - a * y) == w * (a * (x - y));
    MulAssoc(a, x - y, w);
    MulAssoc(w, a, x - y);
  }

  lemma AllIs(a: int, d: int, P: Point, Q: Point, R: Point)
    ensures var c, q1, f := d * YY(Q), Quartic(d, P), d * (YY(P) * YY(R));
            ProductTerms(a, d, P, Q, R).c0 ==
            (c * YY(P) - a) * (1 - Quartic(d, Q) * Quartic(d, R)) + Less(a, R) * (c * (YY(P) - q1 * (a * XX(Q))))
            + Less(a, Q) * (f - c * (q1 * YY(R)))
  {
    hide XX, YY, Less;
    var A1, B1, A2, B2, B3 := XX(P), YY(P), XX(Q), YY(Q), YY(R);
    var n := NumeratorTerms(a, d, P, Q);
    Monomial(d, B2, B1);
    assert n.c3 * (d * (B1 * B2)) == d * B2 * (B1 - d * (A1 * B1) * (a * A2)) by { ScaledKept(a, d, A1, B1, A2, B2); }
    assert n.c2 * (d * (B1 * B3)) == d * (B1 * B3) - d * B2 * (d * (A1 * B1) * B3) by { Crossed(d, B1, A1, B3, B2); }
  }

  lemma ScaledKept(a: int, d: int, x: int, y: int, u: int, v: int)
    ensures (1 - a * (d * (x * u))) * (d * (y * v)) == d * v * (y - d * (x * y) * (a * u))
  {
    var q, m := d * (x * y), d * (x * u);
    Crossed(d, x, y, u, v);
    Monomial(d, v, y);
    assert a * m * (d * (y * v)) == d * v * (q * (a * u)) by {
      MulAssoc(a, m, d * (y * v));
      MulAssoc(a, d * v, q * u);
      MulAssoc(a, q, u);
    }
    Distribute(d * v, y, 0 - q * (a * u));
  }

  lemma AllIsAll(p: nat, a: int, d: int, P: Point, Q: Point, R: Point)
    requires 0 < p && OnEdwards(p, a, d, P.0, P.1) && OnEdwards(p, a, d, Q.0, Q.1) && OnEdwards(p, a, d, R.0, R.1)
    ensures Cong(ProductTerms(a, d, P, Q, R).c0, ProductTerms(a, d, R, Q, P).c0, p)
  {
    hide Cong, OnEdwards, XX, YY, ProductTerms;
    CurveEquation(p, a, d, P);
    CurveEquation(p, a, d, Q);
    CurveEquation(p, a, d, R);
    var A1, B1, A2, B2, A3, B3 := XX(P), YY(P), XX(Q), YY(Q), XX(R), YY(R);
    var q1, q2, q3 := Quartic(d, P), Quartic(d, Q), Quartic(d, R);
    var c, f, w := d * B2, d * (B1 * B3), a * A2;
    assert a * q2 == c * w by { ScaledMonomial(a, d, A2, B2); }
    BalancedOnCurve(p, a, c, B1, B3, w, B1, a * A1, q1, w, B2, q2, B3, a * A3, q3, f);
    AllIs(a, d, P, Q, R);
    AllIs(a, d, R, Q, P);
    NegatedTerms(c * B1 - a, a - c * B1, 1 - q2 * q3, B3 - a * A3, a * A3 - B3, c, B1 - q1 * w, B2 - w, w - B2,
                 f - c * (q1 * B3));
    NegatedTerms(c * B3 - a, a - c * B3, 1 - q1 * q2, B1 - a * A1, a * A1 - B1, c, B3 - q3 * w, B2 - w, w - B2,
                 f - c * (B1 * q3));
    Negated(p, 0 - ProductTerms(a, d, P, Q, R).c0, 0 - ProductTerms(a, d, R, Q, P).c0);
  }

  lemma NegatedTerms(r: int, r': int, l: int, s: int, s': int, c: int, x: int, t: int, t': int, y: int)
    requires r' == 0 - r && s' == 0 - s && t' == 0 - t
    ensures 0 - (r * l + s * (c * x) + t * y) == r' * l + c * (s' * x) + t' * y == r' * l - c * (s * x) + t' * y
  {
    Arrange(s, s', c, x, t, t', y, 0);
    assert r' * l == 0 - r * l;
  }

  lemma Negated(p: nat, a: int, b: int)
    requires 0 < p && Cong(a, b, p)
    ensures Cong(0 - a, 0 - b, p)
  {
    CongSub(0, 0, a, b, p);
  }

  /** The two cross products agree. */
  lemma CrossProducts(p: nat, a: int, d: int, P: Point, Q: Point, R: Point)
    requires 0 < p && OnEdwards(p, a, d, P.0, P.1) && OnEdwards(p, a, d, Q.0, Q.1) && OnEdwards(p, a, d, R.0, R.1)
    ensures Cong(Numerator(a, d, P, Q, R) * Denominator(a, d, R, Q, P), Numerator(a, d, R, Q, P) * Denominator(a, d, P, Q, R), p)
  {
    hide Cong, OnEdwards, ProductTerms, Numerator, Denominator;
    ProductIs(a, d, P, Q, R);
    ProductIs(a, d, R, Q, P);
    FirstIsThird(p, a, d, P, Q, R);
    FirstIsThird(p, a, d, R, Q, P);
    SecondIsSecond(p, a, d, P, Q, R);
    AllIsAll(p, a, d, P, Q, R);
    var s, t := ProductTerms(a, d, P, Q, R), ProductTerms(a, d, R, Q, P);
    Flip(p, t.c1, s.c3);
    SameValue(p, s, Mixed(t.c3, t.c2, t.c1, t.c0), P, Q, R);
    Backwards(t, P, Q, R);
  }

  lemma SameValue(p: nat, s: Mixed, t: Mixed, P: Point, Q: Point, R: Point)
    requires 0 < p && Cong(s.c1, t.c1, p) && Cong(s.c2, t.c2, p) && Cong(s.c3, t.c3, p) && Cong(s.c0, t.c0, p)
    ensures Cong(Value(s, P, Q, R), Value(t, P, Q, R), p)
  {
    hide Cong;
    var e1, e2, e3, e0 := P.0 * Q.1 * R.1, P.1 * Q.0 * R.1, P.1 * Q.1 * R.0, P.0 * Q.0 * R.0;
    Refl(p, e1);
    Refl(p, e2);
    Refl(p, e3);
    Refl(p, e0);
    CongMul(s.c1, t.c1, e1, e1, p);
    CongMul(s.c2, t.c2, e2, e2, p);
    CongMul(s.c3, t.c3, e3, e3, p);
    CongMul(s.c0, t.c0, e0, e0, p);
    CongAdd(s.c1 * e1, t.c1 * e1, s.c2 * e2, t.c2 * e2, p);
    CongAdd(s.c1 * e1 + s.c2 * e2, t.c1 * e1 + t.c2 * e2, s.c3 * e3, t.c3 * e3, p);
    CongAdd(s.c1 * e1 + s.c2 * e2 + s.c3 * e3, t.c1 * e1 + t.c2 * e2 + t.c3 * e3, s.c0 * e0, t.c0 * e0, p);
  }

  lemma Backwards(t: Mixed, P: Point, Q: Point, R: Point)
    ensures Value(t, R, Q, P) == Value(Mixed(t.c3, t.c2, t.c1, t.c0), P, Q, R)
  {
    Reversal(P.0, Q.1, R.1);
    Reversal(P.1, Q.0, R.1);
    Reversal(P.1, Q.1, R.0);
    Reversal(P.0, Q.0, R.0);
  }

  lemma Reversal(x: int, y: int, z: int)
    ensures z * y * x == x * y * z
  {
  }

  // ------------------------------------------------------------ associativity

  /** The denominator of a sum, or with the other sign that of its y coordinate. */
  function Under(d: int, P: Point, Q: Point): int { d * (P.0 * P.1 * (Q.0 * Q.1)) }

  /** X is the sum of two points whose coordinates both have a denominator. */
  ghost predicate IsSumOf(p: nat, a: int, d: int, P: Point, Q: Point, X: Point)
    requires 0 < p
  {
    EdwardsSum(p, a, d, P.0, P.1, Q.0, Q.1, X.0, X.1) && (1 + Under(d, P, Q)) % p != 0 && (1 - Under(d, P, Q)) % p != 0
  }

  lemma Commutes(p: nat, a: int, d: int, P: Point, Q: Point, X: Point)
    requires 0 < p && IsSumOf(p, a, d, P, Q, X)
    ensures IsSumOf(p, a, d, Q, P, X)
  {
    hide Cong;
    assert Under(d, P, Q) == Under(d, Q, P);
    assert P.0 * Q.1 + P.1 * Q.0 == Q.0 * P.1 + Q.1 * P.0;
    assert P.1 * Q.1 - a * (P.0 * Q.0) == Q.1 * P.1 - a * (Q.0 * P.0);
  }

  /** The x coordinate of (P + Q) + R. */
  lemma TripleSum(p: nat, a: int, d: int, P: Point, Q: Point, R: Point, S: Point, X: Point)
    requires IsPrime(p) && IsSumOf(p, a, d, P, Q, S) && IsSumOf(p, a, d, S, R, X)
    ensures Denominator(a, d, P, Q, R) % p != 0
    ensures Cong(X.0 * Denominator(a, d, P, Q, R), Numerator(a, d, P, Q, R), p)
  {
    hide Cong, IsPrime, Less;
    PrimePositive(p);
    var w, k := Under(d, P, Q), Under(d, S, R);
    var h1, h2 := P.0 * Q.1 + P.1 * Q.0, P.1 * Q.1 - a * (P.0 * Q.0);
    DenominatorIs(a, d, P, Q, R);
    OverBoth(p, d, S.0, S.1, w, h1, h2, R.0, R.1, X.0);
    ProductZero(p, 1 + w, 1 - w);
    assert (1 + w) * (1 - w) == 1 - w * w;
    ProductZero(p, 1 - w * w, 1 + k);
    SameZero(p, (1 - w * w) * (1 + k), Denominator(a, d, P, Q, R));
  }

  lemma DenominatorIs(a: int, d: int, P: Point, Q: Point, R: Point)
    ensures var w := d * (XY(P) * XY(Q));
            Denominator(a, d, P, Q, R) == 1 - w * w + d * ((P.0 * Q.1 + P.1 * Q.0) * (P.1 * Q.1 - a * (P.0 * Q.0)) * XY(R))
  {
    var h := (P.0 * Q.1 + P.1 * Q.0) * (P.1 * Q.1 - a * (P.0 * Q.0));
    hide Less;
    assert h == XY(P) * Less(a, Q) + XY(Q) * Less(a, P) by { PartsProduct(a, P, Q); }
    TwoPulled(d, XY(P), Less(a, Q), XY(Q), Less(a, P), XY(R));
  }

  lemma TwoPulled(d: int, u: int, s: int, v: int, t: int, w: int)
    ensures d * ((u * s + v * t) * w) == d * (u * w) * s + d * (v * w) * t
  {
    assert (u * s + v * t) * w == u * w * s + v * w * t by { TimesTwo(u, s, v, t, w); MulAssoc(u, w, s); MulAssoc(v, w, t); }
    Distribute(d, u * w * s, v * w * t);
    MulAssoc(d, u * w, s);
    MulAssoc(d, v * w, t);
  }

  lemma PartsProduct(a: int, P: Point, Q: Point)
    ensures (P.0 * Q.1 + P.1 * Q.0) * (P.1 * Q.1 - a * (P.0 * Q.0)) == XY(P) * Less(a, Q) + XY(Q) * Less(a, P)
  {
    ProductOfParts(a, P.0, P.1, Q.0, Q.1);
  }

  lemma OverBoth(p: nat, d: int, s0: int, s1: int, w: int, h1: int, h2: int, r0: int, r1: int, x: int)
    requires 0 < p && Cong(s0 * (1 + w), h1, p) && Cong(s1 * (1 - w), h2, p)
    requires Cong(x * (1 + d * (s0 * s1 * (r0 * r1))), s0 * r1 + s1 * r0, p)
    ensures var D := 1 - w * w + d * (h1 * h2 * (r0 * r1));
            && Cong((1 - w * w) * (1 + d * (s0 * s1 * (r0 * r1))), D, p)
            && Cong(x * D, h1 * (1 - w) * r1 + h2 * (1 + w) * r0, p)
  {
    hide Cong;
    var m, n, u := 1 + w, 1 - w, r0 * r1;
    var k, e := d * (s0 * s1 * u), 1 - w * w;
    var D, N := e + d * (h1 * h2 * u), h1 * n * r1 + h2 * m * r0;
    var t0, t1 := s0 * m, s1 * n;
    assert m * n == e;
    assert Cong(e * (1 + k), D, p) by {
      CongMul(t0, h1, t1, h2, p);
      Refl(p, d);
      Refl(p, u);
      Refl(p, e);
      CongMul(t0 * t1, h1 * h2, u, u, p);
      CongMul(d, d, t0 * t1 * u, h1 * h2 * u, p);
      CongAdd(e, e, d * (t0 * t1 * u), d * (h1 * h2 * u), p);
      ScaledUnder(d, s0, s1, m, n, u, e);
    }
    assert Cong(e * (s0 * r1 + s1 * r0), N, p) by {
      Refl(p, n * r1);
      Refl(p, m * r0);
      CongMul(t0, h1, n * r1, n * r1, p);
      CongMul(t1, h2, m * r0, m * r0, p);
      CongAdd(t0 * (n * r1), h1 * (n * r1), t1 * (m * r0), h2 * (m * r0), p);
      MulAssoc(h1, n, r1);
      MulAssoc(h2, m, r0);
      ScaledOver(s0, s1, m, n, r0, r1, e);
    }
    Refl(p, x);
    Refl(p, e);
    CongMul(x, x, e * (1 + k), D, p);
    CongMul(e, e, x * (1 + k), s0 * r1 + s1 * r0, p);
    assert x * (e * (1 + k)) == e * (x * (1 + k)) by { MulAssoc(x, e, 1 + k); }
    Trans(p, e * (x * (1 + k)), e * (s0 * r1 + s1 * r0), N);
    Flip(p, x * (e * (1 + k)), x * D);
    Trans(p, x * D, x * (e * (1 + k)), N);
  }

  lemma ScaledUnder(d: int, s0: int, s1: int, m: int, n: int, u: int, e: int)
    requires m * n == e
    ensures e + d * (s0 * m * (s1 * n) * u) == e * (1 + d * (s0 * s1 * u))
  {
    Regroup4(s0, m, s1, n);
    var t := s0 * s1;
    assert t * e * u == e * (t * u) by { MulAssoc(e, t, u); }
    MulAssoc(d, e, t * u);
  }

  lemma ScaledOver(s0: int, s1: int, m: int, n: int, r0: int, r1: int, e: int)
    requires m * n == e
    ensures s0 * m * (n * r1) + s1 * n * (m * r0) == e * (s0 * r1 + s1 * r0)
  {
    assert s0 * m * (n * r1) == e * (s0 * r1) by { Regroup4(m, s0, n, r1); }
    assert s1 * n * (m * r0) == e * (s1 * r0) by { Regroup4(n, s1, m, r0); }
  }

  /** (P + Q) + R and P + (Q + R) have the same x coordinate. */
  lemma SameFirst(p: nat, a: int, d: int, P: Point, Q: Point, R: Point, S: Point, X: Point, T: Point, Y: Point)
    requires IsPrime(p) && OnEdwards(p, a, d, P.0, P.1) && OnEdwards(p, a, d, Q.0, Q.1) && OnEdwards(p, a, d, R.0, R.1)
    requires IsSumOf(p, a, d, P, Q, S) && IsSumOf(p, a, d, S, R, X)
    requires IsSumOf(p, a, d, Q, R, T) && IsSumOf(p, a, d, P, T, Y)
    ensures Cong(X.0, Y.0, p)
  {
    hide Cong, IsPrime, OnEdwards, Numerator, Denominator, IsSumOf;
    PrimePositive(p);
    var D, N, E, M := Denominator(a, d, P, Q, R), Numerator(a, d, P, Q, R), Denominator(a, d, R, Q, P), Numerator(a, d, R, Q, P);
    Commutes(p, a, d, Q, R, T);
    Commutes(p, a, d, P, T, Y);
    TripleSum(p, a, d, P, Q, R, S, X);
    TripleSum(p, a, d, R, Q, P, T, Y);
    CrossProducts(p, a, d, P, Q, R);
    Refl(p, D);
    Refl(p, E);
    CongMul(X.0 * D, N, E, E, p);
    CongMul(Y.0 * E, M, D, D, p);
    Trans(p, X.0 * D * E, N * E, M * D);
    Flip(p, Y.0 * E * D, M * D);
    Trans(p, X.0 * D * E, M * D, Y.0 * E * D);
    assert X.0 * D * E == D * E * X.0 && Y.0 * E * D == D * E * Y.0 by { MulAssoc(X.0, D, E); MulAssoc(Y.0, E, D); }
    ProductZero(p, D, E);
    CancelFactor(p, D * E, X.0, Y.0);
  }

  /** R turned through a right angle, where r is a square root of a. */
  ghost predicate Rotated(p: nat, r: int, R: Point, R': Point)
    requires 0 < p
  {
    Cong(r * R'.0, R.1, p) && R'.1 == 0 - r * R.0
  }

  lemma RotatedProduct(p: nat, r: int, R: Point, R': Point)
    requires 0 < p && Rotated(p, r, R, R')
    ensures Cong(R'.0 * R'.1, 0 - XY(R), p)
  {
    hide Cong;
    Refl(p, 0 - R.0);
    CongMul(r * R'.0, R.1, 0 - R.0, 0 - R.0, p);
    assert R'.0 * R'.1 == r * R'.0 * (0 - R.0);
    assert R.1 * (0 - R.0) == 0 - XY(R);
  }

  lemma RotatedOnCurve(p: nat, a: int, d: int, r: int, R: Point, R': Point)
    requires 0 < p && Cong(r * r, a, p) && OnEdwards(p, a, d, R.0, R.1) && Rotated(p, r, R, R')
    ensures OnEdwards(p, a, d, R'.0, R'.1)
  {
    hide Cong;
    var x, y := R'.0, R'.1;
    RotatedProduct(p, r, R, R');
    assert Cong(a * (x * x), YY(R), p) by {
      CongMul(r * x, R.1, r * x, R.1, p);
      Regroup4(r, x, r, x);
      Refl(p, x * x);
      CongMul(r * r, a, x * x, x * x, p);
      Flip(p, r * r * (x * x), a * (x * x));
      Trans(p, a * (x * x), r * r * (x * x), YY(R));
    }
    assert Cong(y * y, a * XX(R), p) by {
      Refl(p, XX(R));
      CongMul(r * r, a, XX(R), XX(R), p);
      Regroup4(r, R.0, r, R.0);
      assert y * y == r * R.0 * (r * R.0);
    }
    CongAdd(a * (x * x), YY(R), y * y, a * XX(R), p);
    assert Cong(d * (x * x * (y * y)), d * (XX(R) * YY(R)), p) by {
      CongMul(x * y, 0 - XY(R), x * y, 0 - XY(R), p);
      Refl(p, d);
      CongMul(d, d, x * y * (x * y), (0 - XY(R)) * (0 - XY(R)), p);
      Regroup4(x, x, y, y);
      Regroup4(R.0, R.0, R.1, R.1);
      assert (0 - XY(R)) * (0 - XY(R)) == XY(R) * XY(R);
    }
    Refl(p, 1);
    CongAdd(1, 1, d * (x * x * (y * y)), d * (XX(R) * YY(R)), p);
    Trans(p, a * (x * x) + y * y, a * XX(R) + YY(R), 1 + d * (XX(R) * YY(R)));
    Flip(p, 1 + d * (x * x * (y * y)), 1 + d * (XX(R) * YY(R)));
    Trans(p, a * (x * x) + y * y, 1 + d * (XX(R) * YY(R)), 1 + d * (x * x * (y * y)));
  }

  /** Turning one point of a sum turns the sum. */
  lemma RotatedSum(p: nat, a: int, d: int, r: int, P: Point, R: Point, X: Point, R': Point, X': Point)
    requires IsPrime(p) && r % p != 0 && Cong(r * r, a, p) && Rotated(p, r, R, R') && Rotated(p, r, X, X')
    requires IsSumOf(p, a, d, P, R, X)
    ensures IsSumOf(p, a, d, P, R', X')
  {
    hide Cong, IsPrime;
    PrimePositive(p);
    var k, k' := Under(d, P, R), Under(d, P, R');
    assert Cong(k', 0 - k, p) by {
      RotatedProduct(p, r, R, R');
      Refl(p, d * XY(P));
      CongMul(d * XY(P), d * XY(P), R'.0 * R'.1, 0 - XY(R), p);
      MulAssoc(d, XY(P), R'.0 * R'.1);
      MulAssoc(d, XY(P), XY(R));
      assert d * XY(P) * (0 - XY(R)) == 0 - d * XY(P) * XY(R);
    }
    Refl(p, 1);
    CongAdd(1, 1, k', 0 - k, p);
    CongSub(1, 1, k', 0 - k, p);
    SameZero(p, 1 + k', 1 - k);
    SameZero(p, 1 - k', 1 + k);
    RotatedX(p, a, r, P, R, X, R', X', k, k');
    RotatedY(p, a, r, P, R, X, R', X', k, k');
  }

  lemma RotatedX(p: nat, a: int, r: int, P: Point, R: Point, X: Point, R': Point, X': Point, k: int, k': int)
    requires IsPrime(p) && r % p != 0 && Cong(r * r, a, p) && Rotated(p, r, R, R') && Rotated(p, r, X, X')
    requires Cong(1 + k', 1 - k, p) && Cong(X.1 * (1 - k), P.1 * R.1 - a * (P.0 * R.0), p)
    ensures Cong(X'.0 * (1 + k'), P.0 * R'.1 + P.1 * R'.0, p)
  {
    hide Cong, IsPrime;
    PrimePositive(p);
    var e, f := X'.0 * (1 + k'), P.0 * R'.1 + P.1 * R'.0;
    var g := P.1 * R.1 - a * (P.0 * R.0);
    assert Cong(r * e, g, p) by {
      CongMul(r * X'.0, X.1, 1 + k', 1 - k, p);
      MulAssoc(r, X'.0, 1 + k');
      Trans(p, r * e, X.1 * (1 - k), g);
    }
    assert Cong(r * f, g, p) by {
      Refl(p, P.1);
      Refl(p, P.0 * R.0);
      CongMul(P.1, P.1, r * R'.0, R.1, p);
      CongMul(r * r, a, P.0 * R.0, P.0 * R.0, p);
      CongSub(P.1 * (r * R'.0), P.1 * R.1, r * r * (P.0 * R.0), a * (P.0 * R.0), p);
      TurnedX(r, P.0, P.1, R.0, R'.0);
    }
    Flip(p, r * f, g);
    Trans(p, r * e, g, r * f);
    CancelFactor(p, r, e, f);
  }

  lemma TurnedX(r: int, x: int, y: int, u: int, u': int)
    ensures r * (x * (0 - r * u) + y * u') == y * (r * u') - r * r * (x * u)
  {
    Distribute(r, x * (0 - r * u), y * u');
    MulAssoc(r, y, u');
    assert x * (0 - r * u) == 0 - r * (x * u) by { MulAssoc(x, r, u); }
    MulAssoc(r, r, x * u);
  }

  lemma RotatedY(p: nat, a: int, r: int, P: Point, R: Point, X: Point, R': Point, X': Point, k: int, k': int)
    requires 0 < p && Cong(r * r, a, p) && Rotated(p, r, R, R') && Rotated(p, r, X, X')
    requires Cong(1 - k', 1 + k, p) && Cong(X.0 * (1 + k), P.0 * R.1 + P.1 * R.0, p)
    ensures Cong(X'.1 * (1 - k'), P.1 * R'.1 - a * (P.0 * R'.0), p)
  {
    hide Cong;
    var g := P.0 * R.1 + P.1 * R.0;
    Refl(p, 0 - r);
    Refl(p, 0 - r * X.0);
    assert Cong(X'.1 * (1 - k'), (0 - r) * g, p) by {
      CongMul(0 - r * X.0, 0 - r * X.0, 1 - k', 1 + k, p);
      CongMul(0 - r, 0 - r, X.0 * (1 + k), g, p);
      assert (0 - r * X.0) * (1 + k) == (0 - r) * (X.0 * (1 + k)) by { MulAssoc(0 - r, X.0, 1 + k); }
      Trans(p, X'.1 * (1 - k'), (0 - r) * (X.0 * (1 + k)), (0 - r) * g);
    }
    assert Cong(P.1 * R'.1 - a * (P.0 * R'.0), (0 - r) * g, p) by {
      Flip(p, r * r, a);
      Refl(p, P.0 * R'.0);
      Refl(p, P.1 * R'.1);
      Refl(p, r * P.0);
      CongMul(a, r * r, P.0 * R'.0, P.0 * R'.0, p);
      CongMul(r * P.0, r * P.0, r * R'.0, R.1, p);
      Regroup4(r, r, P.0, R'.0);
      Trans(p, a * (P.0 * R'.0), r * r * (P.0 * R'.0), r * P.0 * R.1);
      CongSub(P.1 * R'.1, P.1 * R'.1, a * (P.0 * R'.0), r * P.0 * R.1, p);
      TurnedY(r, P.0, P.1, R.0, R.1);
    }
    Flip(p, P.1 * R'.1 - a * (P.0 * R'.0), (0 - r) * g);
    Trans(p, X'.1 * (1 - k'), (0 - r) * g, P.1 * R'.1 - a * (P.0 * R'.0));
  }

  lemma TurnedY(r: int, x: int, y: int, u: int, v: int)
    ensures y * (0 - r * u) - r * x * v == (0 - r) * (x * v + y * u)
  {
    MulAssoc(r, x, v);
    assert y * (0 - r * u) == 0 - r * (y * u) by { MulAssoc(y, r, u); }
  }

  // ---------------------------------------------------------------------- the group

  /** a is a nonzero square, with root r, and d is none: then the addition formula has no exceptions. */
  ghost predicate CompleteCurve(p: nat, a: int, d: int, r: int) {
    IsPrime(p) && 2 < p && a % p != 0 && Cong(r * r, a, p) && !IsSquare(p, d)
  }

  lemma SumIs(p: nat, a: int, d: int, r: int, P: Point, Q: Point, X: Point)
    requires CompleteCurve(p, a, d, r) && OnEdwards(p, a, d, P.0, P.1) && OnEdwards(p, a, d, Q.0, Q.1)
    requires EdwardsSum(p, a, d, P.0, P.1, Q.0, Q.1, X.0, X.1)
    ensures IsSumOf(p, a, d, P, Q, X) && OnEdwards(p, a, d, X.0, X.1)
  {
    hide Cong, IsPrime, IsSquare, OnEdwards, EdwardsSum;
    Complete(p, a, d, r, P.0, P.1, Q.0, Q.1);
    SumOnCurve(p, a, d, P.0, P.1, Q.0, Q.1, X.0, X.1);
  }

  lemma QuotientExists(p: nat, d: int, n: int) returns (q: int)
    requires IsPrime(p) && d % p != 0
    ensures 0 <= q < p && Cong(q * d, n, p)
  {
    hide IsPrime, Cong;
    PrimePositive(p);
    var s := SlopeExists(p, d, n);
    q := s % p;
    CongMod(s, p);
    CongMul(q, s, d, d, p);
    Trans(p, q * d, s * d, n);
  }

  lemma Turned(p: nat, r: int, R: Point) returns (R': Point)
    requires IsPrime(p) && r % p != 0
    ensures Rotated(p, r, R, R')
  {
    hide IsPrime, Cong;
    var x := QuotientExists(p, r, R.1);
    R' := (x, 0 - r * R.0);
  }

  /** Addition on a complete curve is associative. */
  lemma AdditionAssociative(p: nat, a: int, d: int, r: int, P: Point, Q: Point, R: Point, S: Point, X: Point, T: Point, Y: Point)
    requires CompleteCurve(p, a, d, r)
    requires OnEdwards(p, a, d, P.0, P.1) && OnEdwards(p, a, d, Q.0, Q.1) && OnEdwards(p, a, d, R.0, R.1)
    requires EdwardsSum(p, a, d, P.0, P.1, Q.0, Q.1, S.0, S.1) && EdwardsSum(p, a, d, S.0, S.1, R.0, R.1, X.0, X.1)
    requires EdwardsSum(p, a, d, Q.0, Q.1, R.0, R.1, T.0, T.1) && EdwardsSum(p, a, d, P.0, P.1, T.0, T.1, Y.0, Y.1)
    ensures Cong(X.0, Y.0, p) && Cong(X.1, Y.1, p)
  {
    hide Cong, IsPrime, IsSquare, OnEdwards, EdwardsSum, IsSumOf, Rotated;
    SumIs(p, a, d, r, P, Q, S);
    SumIs(p, a, d, r, S, R, X);
    SumIs(p, a, d, r, Q, R, T);
    SumIs(p, a, d, r, P, T, Y);
    SameFirst(p, a, d, P, Q, R, S, X, T, Y);
    SameZero(p, r * r, a);
    ProductZero(p, r, r);
    var R' := Turned(p, r, R);
    var T' := Turned(p, r, T);
    var X' := Turned(p, r, X);
    var Y' := Turned(p, r, Y);
    RotatedOnCurve(p, a, d, r, R, R');
    RotatedSum(p, a, d, r, S, R, X, R', X');
    RotatedSum(p, a, d, r, Q, R, T, R', T');
    RotatedSum(p, a, d, r, P, T, Y, T', Y');
    SameFirst(p, a, d, P, Q, R', S, X', T', Y');
    TurnBack(p, r, X, X', Y, Y');
  }

  lemma TurnBack(p: nat, r: int, X: Point, X': Point, Y: Point, Y': Point)
    requires 0 < p && Rotated(p, r, X, X') && Rotated(p, r, Y, Y') && Cong(X'.0, Y'.0, p)
    ensures Cong(X.1, Y.1, p)
  {
    hide Cong;
    Refl(p, r);
    CongMul(r, r, X'.0, Y'.0, p);
    Flip(p, r * X'.0, X.1);
    Trans(p, X.1, r * X'.0, r * Y'.0);
    Trans(p, X.1, r * Y'.0, Y.1);
  }

  /** A point of the curve, in reduced coordinates. */
  ghost predicate EdwardsPoint(p: nat, a: int, d: int, A: Point)
    requires 0 < p
  {
    0 <= A.0 < p && 0 <= A.1 < p && OnEdwards(p, a, d, A.0, A.1)
  }

  /** Any two points have a sum, which is a point. */
  lemma EdwardsSumExists(p: nat, a: int, d: int, r: int, A: Point, B: Point)
    requires CompleteCurve(p, a, d, r) && OnEdwards(p, a, d, A.0, A.1) && OnEdwards(p, a, d, B.0, B.1)
    ensures exists C: Point :: EdwardsPoint(p, a, d, C) && EdwardsSum(p, a, d, A.0, A.1, B.0, B.1, C.0, C.1)
  {
    hide IsPrime, IsSquare, OnEdwards, Cong;
    var k := d * (A.0 * A.1 * (B.0 * B.1));
    Complete(p, a, d, r, A.0, A.1, B.0, B.1);
    var x := QuotientExists(p, 1 + k, A.0 * B.1 + A.1 * B.0);
    var y := QuotientExists(p, 1 - k, A.1 * B.1 - a * (A.0 * B.0));
    SumOnCurve(p, a, d, A.0, A.1, B.0, B.1, x, y);
    assert EdwardsPoint(p, a, d, (x, y));
  }

  ghost function Plus(p: nat, a: int, d: int, r: int, A: Point, B: Point): (C: Point)
    requires CompleteCurve(p, a, d, r) && EdwardsPoint(p, a, d, A) && EdwardsPoint(p, a, d, B)
    ensures EdwardsPoint(p, a, d, C) && EdwardsSum(p, a, d, A.0, A.1, B.0, B.1, C.0, C.1)
  {
    EdwardsSumExists(p, a, d, r, A, B);
    var C: Point :| EdwardsPoint(p, a, d, C) && EdwardsSum(p, a, d, A.0, A.1, B.0, B.1, C.0, C.1);
    C
  }

  /** It is the only one. */
  lemma PlusUnique(p: nat, a: int, d: int, r: int, A: Point, B: Point, C: Point)
    requires CompleteCurve(p, a, d, r) && EdwardsPoint(p, a, d, A) && EdwardsPoint(p, a, d, B) && EdwardsPoint(p, a, d, C)
    requires EdwardsSum(p, a, d, A.0, A.1, B.0, B.1, C.0, C.1)
    ensures Plus(p, a, d, r, A, B) == C
  {
    hide IsPrime, IsSquare, OnEdwards, Cong, Plus;
    var D, k := Plus(p, a, d, r, A, B), Under(d, A, B);
    Complete(p, a, d, r, A.0, A.1, B.0, B.1);
    SameQuotients(p, C.0, D.0, 1 + k, A.0 * B.1 + A.1 * B.0);
    SameQuotients(p, C.1, D.1, 1 - k, A.1 * B.1 - a * (A.0 * B.0));
  }

  lemma SameQuotients(p: nat, x: int, y: int, k: int, n: int)
    requires IsPrime(p) && k % p != 0 && 0 <= x < p && 0 <= y < p && Cong(x * k, n, p) && Cong(y * k, n, p)
    ensures x == y
  {
    hide IsPrime, Cong;
    PrimePositive(p);
    Flip(p, y * k, n);
    Trans(p, x * k, n, y * k);
    assert x * k == k * x && y * k == k * y;
    CancelFactor(p, k, x, y);
    CongSmall(x, y, p);
  }

  const NEUTRAL: Point := (0, 1)

  function Opposite(p: nat, A: Point): Point
    requires 0 < p
  {
    ((0 - A.0) % p, A.1)
  }

  /** The points are an abelian group. */
  lemma GroupLaw(p: nat, a: int, d: int, r: int, A: Point, B: Point, C: Point)
    requires CompleteCurve(p, a, d, r) && EdwardsPoint(p, a, d, A) && EdwardsPoint(p, a, d, B) && EdwardsPoint(p, a, d, C)
    ensures Plus(p, a, d, r, A, B) == Plus(p, a, d, r, B, A)
    ensures Plus(p, a, d, r, Plus(p, a, d, r, A, B), C) == Plus(p, a, d, r, A, Plus(p, a, d, r, B, C))
    ensures EdwardsPoint(p, a, d, NEUTRAL) && Plus(p, a, d, r, NEUTRAL, A) == A
    ensures EdwardsPoint(p, a, d, Opposite(p, A)) && Plus(p, a, d, r, Opposite(p, A), A) == NEUTRAL
  {
    hide IsPrime, IsSquare, OnEdwards, EdwardsSum, Cong, Plus, Opposite;
    PlusCommutes(p, a, d, r, A, B);
    var S, T := Plus(p, a, d, r, A, B), Plus(p, a, d, r, B, C);
    var X, Y := Plus(p, a, d, r, S, C), Plus(p, a, d, r, A, T);
    AdditionAssociative(p, a, d, r, A, B, C, S, X, T, Y);
    CongSmall(X.0, Y.0, p);
    CongSmall(X.1, Y.1, p);
    Neutral(p, a, d, A);
    PlusUnique(p, a, d, r, NEUTRAL, A, A);
    Opposites(p, a, d, A);
    PlusUnique(p, a, d, r, Opposite(p, A), A, NEUTRAL);
  }

  lemma PlusCommutes(p: nat, a: int, d: int, r: int, A: Point, B: Point)
    requires CompleteCurve(p, a, d, r) && EdwardsPoint(p, a, d, A) && EdwardsPoint(p, a, d, B)
    ensures Plus(p, a, d, r, A, B) == Plus(p, a, d, r, B, A)
  {
    hide IsPrime, IsSquare, OnEdwards, EdwardsSum, Cong, Plus;
    var C := Plus(p, a, d, r, B, A);
    SumIs(p, a, d, r, B, A, C);
    Commutes(p, a, d, B, A, C);
    PlusUnique(p, a, d, r, A, B, C);
  }

  lemma Neutral(p: nat, a: int, d: int, A: Point)
    requires 2 < p && EdwardsPoint(p, a, d, A)
    ensures EdwardsPoint(p, a, d, NEUTRAL) && EdwardsSum(p, a, d, 0, 1, A.0, A.1, A.0, A.1)
  {
    hide Cong;
    var x, y := A.0, A.1;
    Refl(p, 1);
    Refl(p, x);
    Refl(p, y);
    assert d * (0 * 1 * (x * y)) == 0 && x * (1 + 0) == 0 * y + 1 * x && y * (1 - 0) == 1 * y - a * (0 * x);
    assert a * (0 * 0) + 1 * 1 == 1 && 1 + d * (0 * 0 * (1 * 1)) == 1;
  }

  lemma Opposites(p: nat, a: int, d: int, A: Point)
    requires 2 < p && EdwardsPoint(p, a, d, A)
    ensures var A' := Opposite(p, A); EdwardsPoint(p, a, d, A') && EdwardsSum(p, a, d, A'.0, A'.1, A.0, A.1, 0, 1)
  {
    hide Cong;
    var x, y, z := A.0, A.1, (0 - A.0) % p;
    CongMod(0 - x, p);
    OppositeProducts(p, x, y, z);
    OppositeOnCurve(p, a, d, z * z, x * x, y * y);
    OppositeSum(p, a, d, z * x, x * x, y * y);
  }

  lemma OppositeProducts(p: nat, x: int, y: int, z: int)
    requires 0 < p && Cong(z, 0 - x, p)
    ensures Cong(z * z, x * x, p) && Cong(z * z * (y * y), x * x * (y * y), p)
    ensures Cong(z * x, 0 - x * x, p) && Cong(z * x * (y * y), 0 - x * x * (y * y), p)
    ensures Cong(0, z * y + y * x, p) && z * y * (x * y) == z * x * (y * y)
  {
    hide Cong;
    var m := y * y;
    Refl(p, x);
    Refl(p, m);
    NegatedSquares(x);
    CongMul(z, 0 - x, z, 0 - x, p);
    CongMul(z * z, x * x, m, m, p);
    CongMul(z, 0 - x, x, x, p);
    CongMul(z * x, 0 - x * x, m, m, p);
    assert (0 - x * x) * m == 0 - x * x * m;
    Regroup4(z, y, x, y);
    Refl(p, y);
    Refl(p, y * x);
    CongMul(z, 0 - x, y, y, p);
    CongAdd(z * y, (0 - x) * y, y * x, y * x, p);
    assert (0 - x) * y + y * x == 0;
    Flip(p, z * y + y * x, 0);
  }

  lemma NegatedSquares(x: int)
    ensures (0 - x) * (0 - x) == x * x && (0 - x) * x == 0 - x * x
  {
  }

  lemma OppositeOnCurve(p: nat, a: int, d: int, q': int, q: int, m: int)
    requires 0 < p && Cong(q', q, p) && Cong(q' * m, q * m, p) && Cong(a * q + m, 1 + d * (q * m), p)
    ensures Cong(a * q' + m, 1 + d * (q' * m), p)
  {
    hide Cong;
    Refl(p, a);
    Refl(p, d);
    Refl(p, m);
    Refl(p, 1);
    CongMul(a, a, q', q, p);
    CongAdd(a * q', a * q, m, m, p);
    CongMul(d, d, q' * m, q * m, p);
    CongAdd(1, 1, d * (q' * m), d * (q * m), p);
    Flip(p, 1 + d * (q' * m), 1 + d * (q * m));
    Trans(p, a * q' + m, a * q + m, 1 + d * (q * m));
    Trans(p, a * q' + m, 1 + d * (q * m), 1 + d * (q' * m));
  }

  lemma OppositeSum(p: nat, a: int, d: int, n: int, q: int, m: int)
    requires 0 < p && Cong(n, 0 - q, p) && Cong(n * m, 0 - q * m, p) && Cong(a * q + m, 1 + d * (q * m), p)
    ensures Cong(1 * (1 - d * (n * m)), m - a * n, p)
  {
    hide Cong;
    Refl(p, a);
    Refl(p, d);
    Refl(p, m);
    Refl(p, 1);
    CongMul(a, a, n, 0 - q, p);
    CongSub(m, m, a * n, a * (0 - q), p);
    CongMul(d, d, n * m, 0 - q * m, p);
    CongSub(1, 1, d * (n * m), d * (0 - q * m), p);
    assert a * (0 - q) == 0 - a * q && d * (0 - q * m) == 0 - d * (q * m);
    Flip(p, m - a * n, m + a * q);
    Flip(p, a * q + m, 1 + d * (q * m));
    Trans(p, 1 - d * (n * m), 1 + d * (q * m), a * q + m);
    Trans(p, 1 - d * (n * m), a * q + m, m - a * n);
  }
}
