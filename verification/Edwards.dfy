/**
 Twisted Edwards curves in extended coordinates: one addition formula for every
 pair of points.
 */
module Edwards {
  import opened Arithmetic
  import opened Primes
  import opened Fields
  import opened Weierstrass
  import opened WeierstrassLaw

  // ---------------------------------------------------------------- the affine group law

  /** a x^2 + y^2 = 1 + d x^2 y^2. */
  ghost predicate OnEdwards(p: nat, a: int, d: int, x: int, y: int)
    requires 0 < p
  {
    Cong(a * (x * x) + y * y, 1 + d * (x * x * (y * y)), p)
  }

  /** x3 and y3 are the coordinates of the sum; both quotients are written as products. */
  ghost predicate EdwardsSum(p: nat, a: int, d: int, x1: int, y1: int, x2: int, y2: int, x3: int, y3: int)
    requires 0 < p
  {
    var k := d * (x1 * y1 * (x2 * y2));
    && Cong(x3 * (1 + k), x1 * y2 + y1 * x2, p)
    && Cong(y3 * (1 - k), y1 * y2 - a * (x1 * x2), p)
  }

  // ------------------------------------------------------------------ extended coordinates

  datatype Extended = Extended(X: int, Y: int, Z: int, T: int)

  /** x = X/Z, y = Y/Z, and T is xyZ. */
  ghost predicate RepresentsXY(p: nat, P: Extended, x: int, y: int)
    requires 0 < p
  {
    P.Z % p != 0 && Cong(P.X, x * P.Z, p) && Cong(P.Y, y * P.Z, p) && Cong(P.T, x * y * P.Z, p)
  }

  /** ecc_edwards_add. */
  function EdwardsAdd(p: nat, a: int, d: int, P: Extended, Q: Extended): Extended
    requires 0 < p
  {
    var PxQx := Mul(p, P.X, Q.X);
    var PyQy := Mul(p, P.Y, Q.Y);
    var PtQt := Mul(p, P.T, Q.T);
    var PzQz := Mul(p, P.Z, Q.Z);
    var Psum := Add(p, P.X, P.Y);
    var Qsum := Add(p, Q.X, Q.Y);
    var aPxQx := Mul(p, a, PxQx);
    var dPtQt := Mul(p, d, PtQt);
    var sumprod := Mul(p, Psum, Qsum);
    var xx_p_yy := Add(p, PxQx, PyQy);
    var E := Sub(p, sumprod, xx_p_yy);
    var F := Sub(p, PzQz, dPtQt);
    var G := Add(p, PzQz, dPtQt);
    var H := Sub(p, PyQy, aPxQx);
    Extended(Mul(p, E, F), Mul(p, G, H), Mul(p, F, G), Mul(p, H, E))
  }

  /** E, F, G and H of the formula, over w = Z1 Z2. */
  lemma EdwardsParts(p: nat, a: int, d: int, P: Extended, Q: Extended, x1: int, y1: int, x2: int, y2: int)
    requires 0 < p && RepresentsXY(p, P, x1, y1) && RepresentsXY(p, Q, x2, y2)
    ensures var w, k, e, h := P.Z * Q.Z, d * (x1 * y1 * (x2 * y2)), x1 * y2 + y1 * x2, y1 * y2 - a * (x1 * x2);
            var S := EdwardsAdd(p, a, d, P, Q);
            && Cong(S.X, e * w * ((1 - k) * w), p) && Cong(S.Y, (1 + k) * w * (h * w), p)
            && Cong(S.Z, (1 - k) * w * ((1 + k) * w), p) && Cong(S.T, h * w * (e * w), p)
  {
    hide Cong, Mul, Add, Sub;
    var z1, z2 := P.Z, Q.Z;
    var w, m, k, e, h := z1 * z2, x1 * y1 * (x2 * y2), d * (x1 * y1 * (x2 * y2)), x1 * y2 + y1 * x2, y1 * y2 - a * (x1 * x2);
    var xx, yy, tt, zz := Mul(p, P.X, Q.X), Mul(p, P.Y, Q.Y), Mul(p, P.T, Q.T), Mul(p, P.Z, Q.Z);
    var ps, qs := Add(p, P.X, P.Y), Add(p, Q.X, Q.Y);
    var axx, dtt := Mul(p, a, xx), Mul(p, d, tt);
    Refl(p, z1);
    Refl(p, z2);
    Refl(p, a);
    Refl(p, d);
    MulC(p, P.X, x1 * z1, Q.X, x2 * z2);
    MulC(p, P.Y, y1 * z1, Q.Y, y2 * z2);
    MulC(p, P.T, x1 * y1 * z1, Q.T, x2 * y2 * z2);
    MulC(p, z1, z1, z2, z2);
    Regroup4(x1, z1, x2, z2);
    Regroup4(y1, z1, y2, z2);
    Regroup4(x1 * y1, z1, x2 * y2, z2);
    AddC(p, P.X, x1 * z1, P.Y, y1 * z1);
    AddC(p, Q.X, x2 * z2, Q.Y, y2 * z2);
    MulC(p, ps, x1 * z1 + y1 * z1, qs, x2 * z2 + y2 * z2);
    MulC(p, a, a, xx, x1 * x2 * w);
    MulC(p, d, d, tt, m * w);
    AddC(p, xx, x1 * x2 * w, yy, y1 * y2 * w);
    SubC(p, Mul(p, ps, qs), (x1 * z1 + y1 * z1) * (x2 * z2 + y2 * z2), Add(p, xx, yy), x1 * x2 * w + y1 * y2 * w);
    SubC(p, zz, w, dtt, d * (m * w));
    AddC(p, zz, w, dtt, d * (m * w));
    SubC(p, yy, y1 * y2 * w, axx, a * (x1 * x2 * w));
    PartsArith(a, d, m, w, x1, y1, x2, y2, z1, z2);
    var E, F := Sub(p, Mul(p, ps, qs), Add(p, xx, yy)), Sub(p, zz, dtt);
    var G, H := Add(p, zz, dtt), Sub(p, yy, axx);
    MulC(p, E, e * w, F, (1 - k) * w);
    MulC(p, G, (1 + k) * w, H, h * w);
    MulC(p, F, (1 - k) * w, G, (1 + k) * w);
    MulC(p, H, h * w, E, e * w);
  }

  lemma PartsArith(a: int, d: int, m: int, w: int, x1: int, y1: int, x2: int, y2: int, z1: int, z2: int)
    requires w == z1 * z2
    ensures (x1 * z1 + y1 * z1) * (x2 * z2 + y2 * z2) - (x1 * x2 * w + y1 * y2 * w) == (x1 * y2 + y1 * x2) * w
    ensures w - d * (m * w) == (1 - d * m) * w && w + d * (m * w) == (1 + d * m) * w
    ensures y1 * y2 * w - a * (x1 * x2 * w) == (y1 * y2 - a * (x1 * x2)) * w
  {
    assert (x1 * z1 + y1 * z1) * (x2 * z2 + y2 * z2) == (x1 + y1) * (x2 + y2) * w by {
      Distribute(z1, x1, y1);
      Distribute(z2, x2, y2);
      Regroup4(x1 + y1, z1, x2 + y2, z2);
    }
    assert (x1 + y1) * (x2 + y2) == x1 * x2 + y1 * y2 + (x1 * y2 + y1 * x2);
    Distribute(w, x1 * x2 + y1 * y2, x1 * y2 + y1 * x2);
    Distribute(w, x1 * x2, y1 * y2);
    MulAssoc(d, m, w);
    Distribute(w, 1, d * m);
    Distribute(w, 1, 0 - d * m);
    MulAssoc(a, x1 * x2, w);
    Distribute(w, y1 * y2, 0 - a * (x1 * x2));
  }

  /** The addition formula gives the sum whenever neither denominator of the affine rule is 0. */
  lemma EdwardsAddCorrect(p: nat, a: int, d: int, P: Extended, Q: Extended,
                          x1: int, y1: int, x2: int, y2: int, x3: int, y3: int)
    requires IsPrime(p) && RepresentsXY(p, P, x1, y1) && RepresentsXY(p, Q, x2, y2)
    requires EdwardsSum(p, a, d, x1, y1, x2, y2, x3, y3)
    requires var k := d * (x1 * y1 * (x2 * y2)); (1 + k) % p != 0 && (1 - k) % p != 0
    ensures RepresentsXY(p, EdwardsAdd(p, a, d, P, Q), x3, y3)
  {
    hide Cong, IsPrime, EdwardsAdd;
    PrimePositive(p);
    var w, k, e, h := P.Z * Q.Z, d * (x1 * y1 * (x2 * y2)), x1 * y2 + y1 * x2, y1 * y2 - a * (x1 * x2);
    var S, f, g := EdwardsAdd(p, a, d, P, Q), (1 - k) * w, (1 + k) * w;
    EdwardsParts(p, a, d, P, Q, x1, y1, x2, y2);
    ProductZero(p, P.Z, Q.Z);
    ProductZero(p, 1 - k, w);
    ProductZero(p, 1 + k, w);
    ProductZero(p, f, g);
    StaysNonzero(p, S.Z, f * g);
    assert Cong(x3 * g, e * w, p) by { OverDenominator(p, x3, 1 + k, e, w); }
    assert Cong(y3 * f, h * w, p) by { OverDenominator(p, y3, 1 - k, h, w); }
    FinishSum(p, S, x3, y3, e * w, f, g, h * w);
  }

  lemma FinishSum(p: nat, S: Extended, x: int, y: int, E: int, F: int, G: int, H: int)
    requires 0 < p && Cong(S.X, E * F, p) && Cong(S.Y, G * H, p) && Cong(S.Z, F * G, p) && Cong(S.T, H * E, p)
    requires Cong(x * G, E, p) && Cong(y * F, H, p)
    ensures Cong(S.X, x * S.Z, p) && Cong(S.Y, y * S.Z, p) && Cong(S.T, x * y * S.Z, p)
  {
    hide Cong;
    Refl(p, F);
    Refl(p, G);
    ThirdCoordinate(x, y, F, G);
    Mult(p, x * G, E, F, F);
    Mult(p, G, G, y * F, H);
    Mult(p, y * F, H, x * G, E);
    QuotientCoordinate(p, S.X, S.Z, x, E * F, F * G, x * G * F);
    QuotientCoordinate(p, S.Y, S.Z, y, G * H, F * G, G * (y * F));
    QuotientCoordinate(p, S.T, S.Z, x * y, H * E, F * G, y * F * (x * G));
  }

  lemma OverDenominator(p: nat, x3: int, c: int, e: int, w: int)
    requires 0 < p && Cong(x3 * c, e, p)
    ensures Cong(x3 * (c * w), e * w, p)
  {
    CongMul(x3 * c, e, w, w, p);
    MulAssoc(x3, c, w);
  }

  lemma ThirdCoordinate(x: int, y: int, f: int, g: int)
    ensures x * g * f == x * (f * g) && g * (y * f) == y * (f * g) && y * f * (x * g) == x * y * (f * g)
  {
    MulAssoc(x, g, f);
    MulAssoc(g, y, f);
    MulAssoc(y, g, f);
    Regroup4(y, f, x, g);
  }

  lemma QuotientCoordinate(p: nat, X: int, Z: int, x: int, t: int, u: int, v: int)
    requires 0 < p && (Cong(X, t, p) && Cong(v, t, p)) && Cong(Z, u, p) && v == x * u
    ensures Cong(X, x * Z, p)
  {
    CongMul(x, x, Z, u, p);
  }

  // ------------------------------------------------------------------ staying on the curve

  /** The two sides of the curve equation for the sum, over the common denominator (1 - k^2)^2, in the quantities
      w = x^2 y^2, t = y^2 - a x^2 and s = y^2 + a x^2 of each point. */
  lemma SumIdentity(a: int, d: int, x1: int, y1: int, x2: int, y2: int)
    ensures var m, e, h := x1 * y1 * (x2 * y2), x1 * y2 + y1 * x2, y1 * y2 - a * (x1 * x2);
            var s1, s2 := a * (x1 * x1) + y1 * y1, a * (x2 * x2) + y2 * y2;
            var t1, t2 := y1 * y1 - a * (x1 * x1), y2 * y2 - a * (x2 * x2);
            var w1, w2 := x1 * x1 * (y1 * y1), x2 * x2 * (y2 * y2);
            && a * (e * e) + h * h == s1 * s2
            && h * h - a * (e * e) == t1 * t2 - 4 * (a * m)
            && e * h == x1 * y1 * t2 + x2 * y2 * t1
            && m * m == w1 * w2 && t1 * t1 == s1 * s1 - 4 * (a * w1) && t2 * t2 == s2 * s2 - 4 * (a * w2)
  {
    var e2, h2 := SquaresOfParts(a, x1, y1, x2, y2);
    FactoredSums(a, x1 * x1, y1 * y1, x2 * x2, y2 * y2, x1 * y1 * (x2 * y2), e2, h2);
    ProductOfParts(a, x1, y1, x2, y2);
    ProductOfSquares(x1 * y1, x2 * y2);
    ProductOfSquares(x1, y1);
    ProductOfSquares(x2, y2);
    SumAndDifferenceSquares(a * (x1 * x1), y1 * y1);
    SumAndDifferenceSquares(a * (x2 * x2), y2 * y2);
    MulAssoc(a, x1 * x1, y1 * y1);
    MulAssoc(a, x2 * x2, y2 * y2);
  }

  lemma SumAndDifferenceSquares(u: int, v: int)
    ensures (v - u) * (v - u) == (u + v) * (u + v) - 4 * (u * v)
  {
  }

  lemma SquaresOfParts(a: int, x1: int, y1: int, x2: int, y2: int) returns (e2: int, h2: int)
    ensures var m, e, h := x1 * y1 * (x2 * y2), x1 * y2 + y1 * x2, y1 * y2 - a * (x1 * x2);
            && e2 == e * e == x1 * x1 * (y2 * y2) + y1 * y1 * (x2 * x2) + 2 * m
            && h2 == h * h == y1 * y1 * (y2 * y2) + a * a * (x1 * x1 * (x2 * x2)) - 2 * (a * m)
  {
    var m, e, h := x1 * y1 * (x2 * y2), x1 * y2 + y1 * x2, y1 * y2 - a * (x1 * x2);
    e2, h2 := e * e, h * h;
    SquareOfTwo(x1 * y2, y1 * x2);
    SquareOfTwo(y1 * y2, 0 - a * (x1 * x2));
    ProductOfSquares(x1, y2);
    ProductOfSquares(y1, x2);
    ProductOfSquares(y1, y2);
    ProductOfSquares(x1, x2);
    ProductOfSquares(a, x1 * x2);
    assert x1 * y2 * (y1 * x2) == m by { Regroup4(x1, y2, y1, x2); }
    assert y1 * y2 * (a * (x1 * x2)) == a * m by {
      MulAssoc(y1 * y2, a, x1 * x2);
      MulAssoc(a, y1 * y2, x1 * x2);
      assert y1 * y2 * (x1 * x2) == m by { Regroup4(y1, y2, x1, x2); }
    }
    assert (0 - a * (x1 * x2)) * (0 - a * (x1 * x2)) == a * (x1 * x2) * (a * (x1 * x2)) by { NegatedProduct(a * (x1 * x2)); }
  }

  lemma NegatedProduct(u: int)
    ensures (0 - u) * (0 - u) == u * u
  {
  }

  lemma SquareOfTwo(u: int, v: int)
    ensures (u + v) * (u + v) == u * u + v * v + 2 * (u * v)
  {
  }

  lemma FactoredSums(a: int, u1: int, v1: int, u2: int, v2: int, m: int, e2: int, h2: int)
    requires e2 == u1 * v2 + v1 * u2 + 2 * m && h2 == v1 * v2 + a * a * (u1 * u2) - 2 * (a * m)
    ensures a * e2 + h2 == (a * u1 + v1) * (a * u2 + v2)
    ensures h2 - a * e2 == (v1 - a * u1) * (v2 - a * u2) - 4 * (a * m)
  {
    var b1, b2 := a * u1, a * u2;
    assert a * e2 == b1 * v2 + v1 * b2 + 2 * (a * m) by {
      Distribute(a, u1 * v2 + v1 * u2, 2 * m);
      Distribute(a, u1 * v2, v1 * u2);
      MulAssoc(a, u1, v2);
      MulAssoc(a, v1, u2);
      MulAssoc(v1, a, u2);
      MulAssoc(a, 2, m);
    }
    assert a * a * (u1 * u2) == b1 * b2 by { Regroup4(a, a, u1, u2); }
    assert (b1 + v1) * (b2 + v2) == b1 * b2 + b1 * v2 + v1 * b2 + v1 * v2;
    assert (v1 - b1) * (v2 - b2) == v1 * v2 - v1 * b2 - b1 * v2 + b1 * b2;
  }

  lemma ProductOfParts(a: int, x1: int, y1: int, x2: int, y2: int)
    ensures (x1 * y2 + y1 * x2) * (y1 * y2 - a * (x1 * x2)) ==
            x1 * y1 * (y2 * y2 - a * (x2 * x2)) + x2 * y2 * (y1 * y1 - a * (x1 * x1))
  {
    var b, c, f, g := x1 * y2, y1 * x2, y1 * y2, x1 * x2;
    assert (b + c) * (f - a * g) == b * f + c * f - b * (a * g) - c * (a * g) by { FourProducts(b, c, f, a * g); }
    assert b * f == x1 * y1 * (y2 * y2) by { Regroup4(x1, y2, y1, y2); }
    assert c * f == x2 * y2 * (y1 * y1) by { Regroup4(y1, x2, y1, y2); }
    assert b * g == x2 * y2 * (x1 * x1) by { Regroup4(x1, y2, x1, x2); }
    assert c * g == x1 * y1 * (x2 * x2) by { Regroup4(y1, x2, x1, x2); }
    assert b * (a * g) == a * (b * g) && c * (a * g) == a * (c * g) by { MulAssoc(b, a, g); MulAssoc(a, b, g); MulAssoc(c, a, g); MulAssoc(a, c, g); }
    PullOut(x1 * y1, y2 * y2, a, x2 * x2);
    PullOut(x2 * y2, y1 * y1, a, x1 * x1);
  }

  lemma FourProducts(b: int, c: int, f: int, g: int)
    ensures (b + c) * (f - g) == b * f + c * f - b * g - c * g
  {
  }

  lemma PullOut(u: int, v: int, a: int, w: int)
    ensures u * (v - a * w) == u * v - a * (u * w)
  {
    Distribute(u, v, 0 - a * w);
    MulAssoc(u, a, w);
    MulAssoc(a, u, w);
  }

  /** (1 + p1)(1 + p2)(1 + p1 p2) == (1 - p1 p2)^2 + p1 (1 + p2)^2 + p2 (1 + p1)^2. */
  lemma DenominatorIdentity(p1: int, p2: int)
    ensures (1 + p1) * (1 + p2) * (1 + p1 * p2) ==
            (1 - p1 * p2) * (1 - p1 * p2) + p1 * ((1 + p2) * (1 + p2)) + p2 * ((1 + p1) * (1 + p1))
  {
    var q := p1 * p2;
    assert (1 + p1) * (1 + p2) == 1 + p1 + p2 + q;
    assert (1 + p1 + p2 + q) * (1 + q) == 1 + p1 + p2 + q + q + p1 * q + p2 * q + q * q;
    assert p1 * ((1 + p2) * (1 + p2)) == p1 + 2 * q + p2 * q by { Linear(p1, p2); }
    assert p2 * ((1 + p1) * (1 + p1)) == p2 + 2 * q + p1 * q by { Linear(p2, p1); }
    assert (1 - q) * (1 - q) == 1 - 2 * q + q * q;
  }

  lemma Linear(u: int, v: int)
    ensures u * ((1 + v) * (1 + v)) == u + 2 * (u * v) + v * (u * v)
  {
    SquareOfTwo(1, v);
    Distribute(u, 1 + v * v, 2 * v);
    Distribute(u, 1, v * v);
    MulAssoc(u, v, v);
  }

  /** With those quantities, the two sides differ by what the curve equations make vanish. */
  lemma SidesDiffer(a: int, d: int, m: int, e2: int, h2: int, eh: int, xy1: int, xy2: int,
                    s1: int, s2: int, t1: int, t2: int, w1: int, w2: int)
    requires a * e2 + h2 == s1 * s2 && h2 - a * e2 == t1 * t2 - 4 * (a * m) && eh == xy1 * t2 + xy2 * t1
    requires xy1 * xy1 == w1 && xy2 * xy2 == w2 && xy1 * xy2 == m && m * m == w1 * w2
    requires t1 * t1 == s1 * s1 - 4 * (a * w1) && t2 * t2 == s2 * s2 - 4 * (a * w2)
    ensures var k, p1, p2 := d * m, d * w1, d * w2;
            var q := p1 * p2;
            a * e2 * ((1 - k) * (1 - k)) + h2 * ((1 + k) * (1 + k)) - (1 - q) * (1 - q) - d * (eh * eh) ==
            s1 * s2 * (1 + q) - (1 - q) * (1 - q) - p1 * (s2 * s2) - p2 * (s1 * s1) && k * k == q
  {
    var k, p1, p2 := d * m, d * w1, d * w2;
    var q := p1 * p2;
    assert k * k == q by { ProductOfSquares(d, m); Regroup4(d, d, w1, w2); }
    assert a * e2 * ((1 - k) * (1 - k)) + h2 * ((1 + k) * (1 + k)) == s1 * s2 * (1 + q) + 2 * (k * (t1 * t2)) - 8 * (k * (a * m)) by {
      SquaresTimes(a * e2, h2, k);
      Distribute(2 * k, t1 * t2, 0 - 4 * (a * m));
      MulAssoc(2, k, t1 * t2);
      MulAssoc(2, k, a * m);
    }
    assert eh * eh == w1 * (t2 * t2) + w2 * (t1 * t1) + 2 * (m * (t1 * t2)) by { SquareOfMixed(xy1, xy2, t1, t2); }
    assert w1 * (t2 * t2) == w1 * (s2 * s2) - 4 * (a * (w1 * w2)) by { TakeOut(w1, s2 * s2, a, w2); }
    assert w2 * (t1 * t1) == w2 * (s1 * s1) - 4 * (a * (w1 * w2)) by { TakeOut(w2, s1 * s1, a, w1); }
    ScaleFour(d, w1 * (s2 * s2), w2 * (s1 * s1), a * (w1 * w2), m * (t1 * t2));
    MulAssoc(d, w1, s2 * s2);
    MulAssoc(d, w2, s1 * s1);
    MulAssoc(d, m, t1 * t2);
    assert k * (a * m) == d * (a * (w1 * w2)) by { MulAssoc(d, m, a * m); assert m * (a * m) == a * (m * m) by { MulAssoc(m, a, m); MulAssoc(a, m, m); } }
  }

  lemma SquaresTimes(u: int, v: int, k: int)
    ensures u * ((1 - k) * (1 - k)) + v * ((1 + k) * (1 + k)) == (u + v) * (1 + k * k) + 2 * k * (v - u)
  {
    var q := k * k;
    var s1, s2, s3, s4 := u * ((1 - k) * (1 - k)), v * ((1 + k) * (1 + k)), (u + v) * (1 + q), 2 * k * (v - u);
    assert s1 == u + u * q - 2 * (u * k) by { SquareOfDifference(u, k); }
    assert s2 == v + v * q + 2 * (v * k) by { SquareOfTwo(1, k); ThreeParts(v, q, k); }
    assert s3 == u + v + u * q + v * q by { Distribute(u + v, 1, q); Distribute(q, u, v); }
    assert s4 == 2 * (v * k) - 2 * (u * k) by { MulAssoc(2, k, v - u); Distribute(k, v, 0 - u); }
    SquaresSum(s1, s2, s3, s4, u, v, u * q, v * q, u * k, v * k);
  }

  lemma SquaresSum(s1: int, s2: int, s3: int, s4: int, u: int, v: int, uq: int, vq: int, uk: int, vk: int)
    requires s1 == u + uq - 2 * uk && s2 == v + vq + 2 * vk && s3 == u + v + uq + vq && s4 == 2 * vk - 2 * uk
    ensures s1 + s2 == s3 + s4
  {
  }

  lemma SquareOfDifference(u: int, k: int)
    ensures u * ((1 - k) * (1 - k)) == u + u * (k * k) - 2 * (u * k)
  {
    assert (1 - k) * (1 - k) == 1 + k * k + 2 * (0 - k);
    ThreeParts(u, k * k, 0 - k);
  }

  lemma ThreeParts(u: int, q: int, k: int)
    ensures u * (1 + q + 2 * k) == u + u * q + 2 * (u * k)
  {
    Distribute(u, 1 + q, 2 * k);
    Distribute(u, 1, q);
    MulAssoc(u, 2, k);
    MulAssoc(2, u, k);
  }

  lemma SquareOfMixed(u: int, v: int, t1: int, t2: int)
    ensures (u * t2 + v * t1) * (u * t2 + v * t1) == u * u * (t2 * t2) + v * v * (t1 * t1) + 2 * (u * v * (t1 * t2))
  {
    SquareOfTwo(u * t2, v * t1);
    ProductOfSquares(u, t2);
    ProductOfSquares(v, t1);
    Regroup4(u, t2, v, t1);
  }

  lemma TakeOut(w: int, s: int, a: int, v: int)
    ensures w * (s - 4 * (a * v)) == w * s - 4 * (a * (w * v))
  {
    Distribute(w, s, 0 - 4 * (a * v));
    MulAssoc(w, 4, a * v);
    MulAssoc(4, w, a * v);
    MulAssoc(w, a, v);
    MulAssoc(a, w, v);
  }

  lemma ScaleFour(d: int, u: int, v: int, w: int, x: int)
    ensures d * (u - 4 * w + (v - 4 * w) + 2 * x) == d * u + d * v - 8 * (d * w) + 2 * (d * x)
  {
  }

  /** The sum of two points of the curve is on the curve. */
  lemma SumOnCurve(p: nat, a: int, d: int, x1: int, y1: int, x2: int, y2: int, x3: int, y3: int)
    requires IsPrime(p) && OnEdwards(p, a, d, x1, y1) && OnEdwards(p, a, d, x2, y2)
    requires EdwardsSum(p, a, d, x1, y1, x2, y2, x3, y3)
    requires var k := d * (x1 * y1 * (x2 * y2)); (1 + k) % p != 0 && (1 - k) % p != 0
    ensures OnEdwards(p, a, d, x3, y3)
  {
    hide Cong, IsPrime;
    PrimePositive(p);
    var m, e, h := x1 * y1 * (x2 * y2), x1 * y2 + y1 * x2, y1 * y2 - a * (x1 * x2);
    var s1, s2 := a * (x1 * x1) + y1 * y1, a * (x2 * x2) + y2 * y2;
    var w1, w2 := x1 * x1 * (y1 * y1), x2 * x2 * (y2 * y2);
    var k, p1, p2 := d * m, d * w1, d * w2;
    SumIdentity(a, d, x1, y1, x2, y2);
    ProductOfSquares(x1, y1);
    ProductOfSquares(x2, y2);
    SidesDiffer(a, d, m, e * e, h * h, e * h, x1 * y1, x2 * y2, s1, s2, y1 * y1 - a * (x1 * x1), y2 * y2 - a * (x2 * x2), w1, w2);
    CurvesVanish(p, s1, s2, p1, p2);
    var u, v := a * (e * e) * ((1 - k) * (1 - k)) + h * h * ((1 + k) * (1 + k)), (1 - k * k) * (1 - k * k) + d * (e * h * (e * h));
    assert Cong(u, v, p) by { DifferenceNonzero(p, v, u); CongZero(u - v, p); Flip(p, u, v); }
    BackToAffine(p, a, d, e, h, k, x3, y3);
  }

  lemma CurvesVanish(p: nat, s1: int, s2: int, p1: int, p2: int)
    requires 0 < p && Cong(s1, 1 + p1, p) && Cong(s2, 1 + p2, p)
    ensures var q := p1 * p2;
            Cong(s1 * s2 * (1 + q) - (1 - q) * (1 - q) - p1 * (s2 * s2) - p2 * (s1 * s1), 0, p)
  {
    hide Cong;
    var q, u1, u2 := p1 * p2, 1 + p1, 1 + p2;
    Refl(p, 1 + q);
    Refl(p, (1 - q) * (1 - q));
    Refl(p, p1);
    Refl(p, p2);
    Mult(p, s1, u1, s2, u2);
    Mult(p, s1 * s2, u1 * u2, 1 + q, 1 + q);
    Mult(p, s2, u2, s2, u2);
    Mult(p, s1, u1, s1, u1);
    Mult(p, p1, p1, s2 * s2, u2 * u2);
    Mult(p, p2, p2, s1 * s1, u1 * u1);
    CongSub(s1 * s2 * (1 + q), u1 * u2 * (1 + q), (1 - q) * (1 - q), (1 - q) * (1 - q), p);
    CongSub(s1 * s2 * (1 + q) - (1 - q) * (1 - q), u1 * u2 * (1 + q) - (1 - q) * (1 - q), p1 * (s2 * s2), p1 * (u2 * u2), p);
    CongSub(s1 * s2 * (1 + q) - (1 - q) * (1 - q) - p1 * (s2 * s2), u1 * u2 * (1 + q) - (1 - q) * (1 - q) - p1 * (u2 * u2),
            p2 * (s1 * s1), p2 * (u1 * u1), p);
    DenominatorIdentity(p1, p2);
  }

  /** Dividing both sides by (1 - k^2)^2. */
  lemma BackToAffine(p: nat, a: int, d: int, e: int, h: int, k: int, x: int, y: int)
    requires IsPrime(p) && Cong(x * (1 + k), e, p) && Cong(y * (1 - k), h, p)
    requires (1 + k) % p != 0 && (1 - k) % p != 0
    requires Cong(a * (e * e) * ((1 - k) * (1 - k)) + h * h * ((1 + k) * (1 + k)),
                  (1 - k * k) * (1 - k * k) + d * (e * h * (e * h)), p)
    ensures OnEdwards(p, a, d, x, y)
  {
    hide Cong, IsPrime;
    PrimePositive(p);
    var f, g := 1 - k, 1 + k;
    var c := f * g;
    assert c == 1 - k * k;
    var l, r := a * (x * x) + y * y, 1 + d * (x * x * (y * y));
    var xg, yf := x * g, y * f;
    Refl(p, a);
    Refl(p, d);
    Refl(p, f * f);
    Refl(p, g * g);
    Refl(p, c * c);
    Mult(p, xg, e, xg, e);
    Mult(p, yf, h, yf, h);
    Mult(p, a, a, xg * xg, e * e);
    Mult(p, a * (xg * xg), a * (e * e), f * f, f * f);
    Mult(p, yf * yf, h * h, g * g, g * g);
    CongAdd(a * (xg * xg) * (f * f), a * (e * e) * (f * f), yf * yf * (g * g), h * h * (g * g), p);
    Mult(p, xg, e, yf, h);
    Mult(p, xg * yf, e * h, xg * yf, e * h);
    Mult(p, d, d, xg * yf * (xg * yf), e * h * (e * h));
    CongAdd(c * c, c * c, d * (xg * yf * (xg * yf)), d * (e * h * (e * h)), p);
    AffineArith(a, d, x, y, f, g);
    SwapSides(p, c * c * l, c * c * r, a * (e * e) * (f * f) + h * h * (g * g), c * c + d * (e * h * (e * h)));
    ProductZero(p, f, g);
    ProductZero(p, c, c);
    CancelFactor(p, c * c, l, r);
  }

  lemma AffineArith(a: int, d: int, x: int, y: int, f: int, g: int)
    ensures var c := f * g;
            && a * (x * g * (x * g)) * (f * f) + y * f * (y * f) * (g * g) == c * c * (a * (x * x) + y * y)
            && c * c + d * (x * g * (y * f) * (x * g * (y * f))) == c * c * (1 + d * (x * x * (y * y)))
  {
    var c := f * g;
    var cc := c * c;
    ProductOfSquares(x, g);
    ProductOfSquares(y, f);
    ProductOfSquares(f, g);
    assert a * (x * x * (g * g)) * (f * f) == cc * (a * (x * x)) by {
      MulAssoc(a, x * x, g * g);
      MulAssoc(a * (x * x), g * g, f * f);
    }
    assert y * y * (f * f) * (g * g) == cc * (y * y) by { MulAssoc(y * y, f * f, g * g); }
    Distribute(cc, a * (x * x), y * y);
    assert x * g * (y * f) == x * y * c by { Regroup4(x, g, y, f); }
    ProductOfSquares(x * y, c);
    ProductOfSquares(x, y);
    Distribute(cc, 1, d * (x * x * (y * y)));
    MulAssoc(d, x * x * (y * y), cc);
  }

  // ------------------------------------------------------------------------ completeness

  /** If d x1 y1 x2 y2 were 1 or -1, then d times a square would be a square, for each sign. */
  lemma TwoSquares(p: nat, a: int, d: int, r: int, x1: int, y1: int, x2: int, y2: int, eps: int, sign: int)
    requires 0 < p && Cong(r * r, a, p) && OnEdwards(p, a, d, x1, y1) && OnEdwards(p, a, d, x2, y2)
    requires (eps == 1 || eps == -1) && (sign == 1 || sign == -1) && Cong(d * (x1 * y1 * (x2 * y2)), eps, p)
    ensures var A, B := r * x1 + sign * eps * y1, x1 * y1 * (r * x2 + sign * y2);
            Cong(A * A, d * (B * B), p)
  {
    hide Cong;
    var k, w1, w2, c := d * (x1 * y1 * (x2 * y2)), x1 * x1 * (y1 * y1), x2 * x2 * (y2 * y2), 2 * sign * (r * (x1 * y1));
    var A, B := r * x1 + sign * eps * y1, x1 * y1 * (r * x2 + sign * y2);
    var s1, s2 := a * (x1 * x1) + y1 * y1, a * (x2 * x2) + y2 * y2;
    Refl(p, c);
    Refl(p, c * eps);
    Mult(p, c, c, k, eps);
    assert Cong(A * A, s1 + c * eps, p) by { LeftSquare(p, a, r, x1, y1, sign, eps); }
    assert Cong(d * (B * B), d * w1 * s2 + c * k, p) by { RightSquare(p, a, d, r, x1, y1, x2, y2, sign); }
    assert Cong(d * w1 * s2, s1, p) by { SameSum(p, a, d, x1, y1, x2, y2, eps); }
    CongAdd(d * w1 * s2, s1, c * k, c * eps, p);
    Trans(p, d * (B * B), d * w1 * s2 + c * k, s1 + c * eps);
    Trans(p, A * A, s1 + c * eps, d * (B * B));
  }

  lemma LeftSquare(p: nat, a: int, r: int, x: int, y: int, sign: int, eps: int)
    requires 0 < p && Cong(r * r, a, p) && (eps == 1 || eps == -1) && (sign == 1 || sign == -1)
    ensures var A := r * x + sign * eps * y; Cong(A * A, a * (x * x) + y * y + 2 * sign * (r * (x * y)) * eps, p)
  {
    hide Cong;
    var g := sign * eps;
    var A := r * x + g * y;
    assert g == 1 || g == -1;
    SquareOfTwo(r * x, g * y);
    ProductOfSquares(r, x);
    assert g * y * (g * y) == y * y by { ProductOfSquares(g, y); }
    assert r * x * (g * y) == g * (r * (x * y)) by { Regroup4(r, x, g, y); MulAssoc(r, g, x * y); MulAssoc(g, r, x * y); }
    var t := r * (x * y);
    assert 2 * (g * t) == 2 * sign * t * eps by { SignArith(sign, eps, t); }
    Refl(p, x * x);
    Refl(p, y * y + 2 * sign * t * eps);
    Mult(p, r * r, a, x * x, x * x);
    CongAdd(r * r * (x * x), a * (x * x), y * y + 2 * sign * t * eps, y * y + 2 * sign * t * eps, p);
  }

  lemma SignArith(sign: int, eps: int, t: int)
    requires (eps == 1 || eps == -1) && (sign == 1 || sign == -1)
    ensures 2 * (sign * eps * t) == 2 * sign * t * eps
  {
  }

  lemma RightSquare(p: nat, a: int, d: int, r: int, x1: int, y1: int, x2: int, y2: int, sign: int)
    requires 0 < p && Cong(r * r, a, p) && (sign == 1 || sign == -1)
    ensures var B, w1 := x1 * y1 * (r * x2 + sign * y2), x1 * x1 * (y1 * y1);
            var k := d * (x1 * y1 * (x2 * y2));
            Cong(d * (B * B), d * w1 * (a * (x2 * x2) + y2 * y2) + 2 * sign * (r * (x1 * y1)) * k, p)
  {
    hide Cong;
    var u, w1 := x1 * y1, x1 * x1 * (y1 * y1);
    var b, v, k := r * x2 + sign * y2, x2 * y2, d * (x1 * y1 * (x2 * y2));
    var s2 := a * (x2 * x2) + y2 * y2;
    LeftSquare(p, a, r, x2, y2, sign, 1);
    assert sign * 1 * y2 == sign * y2 && 2 * sign * (r * v) * 1 == 2 * sign * (r * v);
    ProductOfSquares(u, b);
    ProductOfSquares(x1, y1);
    Refl(p, d * w1);
    Mult(p, d * w1, d * w1, b * b, s2 + 2 * sign * (r * v));
    MulAssoc(d, w1, b * b);
    Distribute(d * w1, s2, 2 * sign * (r * v));
    assert d * w1 * (2 * sign * (r * v)) == 2 * sign * (r * u) * k by { RightArith(d, u, v, r, 2 * sign); }
  }

  lemma RightArith(d: int, u: int, v: int, r: int, c: int)
    ensures d * (u * u) * (c * (r * v)) == c * (r * u) * (d * (u * v))
  {
    Regroup4(c, r * u, d, u * v);
    Regroup4(r, u, u, v);
    assert r * u * (u * v) == u * u * (r * v) by { MulAssoc(r, u, u * v); MulAssoc(u, u, v); MulAssoc(u * u, r, v); MulAssoc(r, u * u, v); }
    Regroup4(d, u * u, c, r * v);
  }

  /** d w1 (1 + d w2) is d w1 + 1, because d^2 w1 w2 is the square of 1 or -1. */
  lemma SameSum(p: nat, a: int, d: int, x1: int, y1: int, x2: int, y2: int, eps: int)
    requires 0 < p && OnEdwards(p, a, d, x1, y1) && OnEdwards(p, a, d, x2, y2) && (eps == 1 || eps == -1)
    requires Cong(d * (x1 * y1 * (x2 * y2)), eps, p)
    ensures Cong(d * (x1 * x1 * (y1 * y1)) * (a * (x2 * x2) + y2 * y2), a * (x1 * x1) + y1 * y1, p)
  {
    hide Cong;
    var k, w1, w2 := d * (x1 * y1 * (x2 * y2)), x1 * x1 * (y1 * y1), x2 * x2 * (y2 * y2);
    var s1, s2, m := a * (x1 * x1) + y1 * y1, a * (x2 * x2) + y2 * y2, x1 * y1 * (x2 * y2);
    Mult(p, k, eps, k, eps);
    assert k * k == d * w1 * (d * w2) by {
      ProductOfSquares(d, m);
      ProductOfSquares(x1 * y1, x2 * y2);
      ProductOfSquares(x1, y1);
      ProductOfSquares(x2, y2);
      Regroup4(d, w1, d, w2);
    }
    Refl(p, d * w1);
    Mult(p, d * w1, d * w1, s2, 1 + d * w2);
    Distribute(d * w1, 1, d * w2);
    CongAdd(d * w1, d * w1, d * w1 * (d * w2), 1, p);
    Trans(p, d * w1 * s2, d * w1 + d * w1 * (d * w2), d * w1 + 1);
    Flip(p, s1, 1 + d * w1);
    Trans(p, d * w1 * s2, d * w1 + 1, s1);
  }

  /** A square that is d times a nonzero square makes d a square. */
  lemma QuotientSquare(p: nat, d: int, A: int, B: int)
    requires IsPrime(p) && Cong(A * A, d * (B * B), p) && B % p != 0
    ensures IsSquare(p, d)
  {
    hide Cong, IsPrime;
    PrimePositive(p);
    var i := PrimeInverse(p, B);
    var bb, ii := B * B, i * i;
    Mult(p, B * i, 1, B * i, 1);
    ProductOfSquares(B, i);
    Refl(p, ii);
    Refl(p, d);
    Mult(p, A * A, d * bb, ii, ii);
    MulAssoc(d, bb, ii);
    Mult(p, d, d, bb * ii, 1);
    ProductOfSquares(A, i);
    Trans(p, A * i * (A * i), d * (bb * ii), d * 1);
    assert Cong(A * i * (A * i), d, p);
  }

  /** If a is a square and d is not, the affine rule never divides by 0: the formula holds for every pair of points. */
  lemma Complete(p: nat, a: int, d: int, r: int, x1: int, y1: int, x2: int, y2: int)
    requires IsPrime(p) && 2 < p && Cong(r * r, a, p) && !IsSquare(p, d)
    requires OnEdwards(p, a, d, x1, y1) && OnEdwards(p, a, d, x2, y2)
    ensures var k := d * (x1 * y1 * (x2 * y2)); (1 + k) % p != 0 && (1 - k) % p != 0
  {
    hide Cong, IsPrime, IsSquare, OnEdwards;
    var k := d * (x1 * y1 * (x2 * y2));
    if (1 + k) % p == 0 {
      assert Cong(k, -1, p) by { DifferenceNonzero(p, -1, k); Flip(p, -1, k); }
      NotUnit(p, a, d, r, x1, y1, x2, y2, -1);
    }
    if (1 - k) % p == 0 {
      assert Cong(k, 1, p) by { DifferenceNonzero(p, k, 1); }
      NotUnit(p, a, d, r, x1, y1, x2, y2, 1);
    }
  }

  lemma NotUnit(p: nat, a: int, d: int, r: int, x1: int, y1: int, x2: int, y2: int, eps: int)
    requires IsPrime(p) && 2 < p && Cong(r * r, a, p) && (eps == 1 || eps == -1)
    requires OnEdwards(p, a, d, x1, y1) && OnEdwards(p, a, d, x2, y2) && Cong(d * (x1 * y1 * (x2 * y2)), eps, p)
    ensures IsSquare(p, d)
  {
    hide Cong, IsPrime, IsSquare, OnEdwards;
    var u, v := r * x2 + 1 * y2, r * x2 + (-1) * y2;
    TwoSquares(p, a, d, r, x1, y1, x2, y2, eps, 1);
    TwoSquares(p, a, d, r, x1, y1, x2, y2, eps, -1);
    UnitNonzero(p, eps);
    SameZero(p, d * (x1 * y1 * (x2 * y2)), eps);
    ProductZero(p, d, x1 * y1 * (x2 * y2));
    ProductZero(p, x1 * y1, x2 * y2);
    ProductZero(p, x2, y2);
    ProductZero(p, x1 * y1, u);
    ProductZero(p, x1 * y1, v);
    if u % p == 0 {
      OtherNonzero(p, r * x2, y2);
      QuotientSquare(p, d, r * x1 + (-1) * eps * y1, x1 * y1 * v);
    } else {
      QuotientSquare(p, d, r * x1 + 1 * eps * y1, x1 * y1 * u);
    }
  }

  lemma UnitNonzero(p: nat, eps: int)
    requires 2 < p && (eps == 1 || eps == -1)
    ensures eps % p != 0
  {
    SmallMod(1, p);
    CongFromMultiple(-1, p - 1, -1, p);
    SmallMod(p - 1, p);
  }

  lemma OtherNonzero(p: nat, t: int, y: int)
    requires IsPrime(p) && 2 < p && (t + 1 * y) % p == 0 && y % p != 0
    ensures (t + (-1) * y) % p != 0
  {
    hide IsPrime;
    SmallMod(2, p);
    ProductZero(p, 2, y);
    if (t + (-1) * y) % p == 0 {
      CongZero(t + 1 * y, p);
      CongZero(t + (-1) * y, p);
      CongSub(t + 1 * y, 0, t + (-1) * y, 0, p);
      assert t + 1 * y - (t + (-1) * y) == 2 * y;
      CongZero(2 * y, p);
    }
  }

  /** projective_eq: whether two quotients are the same. */
  predicate ProjectiveEq(p: nat, An: int, Ad: int, Bn: int, Bd: int)
    requires 0 < p
  {
    Mul(p, An, Bd) == Mul(p, Bn, Ad)
  }

  /** ecc_edwards_eq compares the affine coordinates. */
  lemma EdwardsEqCorrect(p: nat, P: Extended, Q: Extended, x1: int, y1: int, x2: int, y2: int)
    requires IsPrime(p) && RepresentsXY(p, P, x1, y1) && RepresentsXY(p, Q, x2, y2)
    ensures ProjectiveEq(p, P.X, P.Z, Q.X, Q.Z) && ProjectiveEq(p, P.Y, P.Z, Q.Y, Q.Z) <==>
            Cong(x1, x2, p) && Cong(y1, y2, p)
  {
    hide IsPrime, ProjectiveEq, Cong;
    PrimePositive(p);
    SameQuotient(p, P.X, P.Z, Q.X, Q.Z, x1, x2);
    SameQuotient(p, P.Y, P.Z, Q.Y, Q.Z, y1, y2);
  }

  lemma SameQuotient(p: nat, An: int, Ad: int, Bn: int, Bd: int, x1: int, x2: int)
    requires IsPrime(p) && Ad % p != 0 && Bd % p != 0 && Cong(An, x1 * Ad, p) && Cong(Bn, x2 * Bd, p)
    ensures ProjectiveEq(p, An, Ad, Bn, Bd) <==> Cong(x1, x2, p)
  {
    hide IsPrime, Cong, Mul;
    PrimePositive(p);
    Refl(p, Ad);
    Refl(p, Bd);
    MulC(p, An, x1 * Ad, Bd, Bd);
    MulC(p, Bn, x2 * Bd, Ad, Ad);
    var c := Ad * Bd;
    assert x1 * Ad * Bd == c * x1 && x2 * Bd * Ad == c * x2 by { MulAssoc(x1, Ad, Bd); MulAssoc(x2, Bd, Ad); }
    SameResidue(p, Mul(p, An, Bd), Mul(p, Bn, Ad), c * x1, c * x2);
    ProductZero(p, Ad, Bd);
    CancelFactor(p, c, x1, x2);
  }
}
