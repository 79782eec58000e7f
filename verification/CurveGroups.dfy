/**
 Weierstrass and Montgomery curves as cubics: their affine laws are that of
 chords and tangents, and the x-only operations follow it, the point at infinity
 included.
 */
module CurveGroups {
  import opened Arithmetic
  import opened Primes
  import opened Fields
  import opened Weierstrass
  import opened WeierstrassLaw
  import opened MontgomeryCurve
  import opened CubicGroup

  // --------------------------------------------------------------------- Weierstrass curves

  function WeierstrassCurve(p: nat, a: int, b: int): CubicCurve { CubicCurve(p, 1, 0, a, b) }

  function ToAffine(P: CubicPoint): Affine {
    match P
    case Zero => Infinity
    case At(x, y) => Affine(x, y)
  }

  lemma VanishCong(p: nat, e: int, f: int)
    requires 0 < p
    ensures Vanishes(p, e - f) <==> Cong(e, f, p)
  {
    DifferenceNonzero(p, f, e);
    Flip(p, e, f);
  }

  lemma PointOnWeierstrass(p: nat, a: int, b: int, P: CubicPoint)
    requires 0 < p && IsPoint(WeierstrassCurve(p, a, b), P) && P.At?
    ensures OnCurve(p, a, b, P.x, P.y)
  {
    var x, y := P.x, P.y;
    assert 1 * (y * y) - (x * (x * x) + 0 * (x * x) + a * x + b) == y * y - (x * x * x + a * x + b);
    VanishCong(p, y * y, x * x * x + a * x + b);
  }

  /** The third point, reflected, from a line. */
  lemma LineGivesThird(p: nat, a: int, b: int, l: int, n: int, P: CubicPoint, Q: CubicPoint, R: CubicPoint)
    requires 0 < p && P.At? && Q.At? && R.At? && IsPoint(WeierstrassCurve(p, a, b), R)
    requires Minus(WeierstrassCurve(p, a, b), R).At?
    requires Collinear(WeierstrassCurve(p, a, b), l, n, P, Q, Minus(WeierstrassCurve(p, a, b), R))
    ensures Third(p, l, P.x, P.y, Q.x, R.x, R.y)
  {
    hide Vanishes, Cong, Minus;
    var c := WeierstrassCurve(p, a, b);
    MinusX(c, R);
    OppositeOn(c, l, n, R);
    assert E1(c, l, P.x, Q.x, R.x) == R.x - (l * l - P.x - Q.x);
    VanishCong(p, R.x, l * l - P.x - Q.x);
    ReflectedY(p, l, n, P.x, P.y, R.x, R.y);
    VanishCong(p, R.y, l * (P.x - R.x) - P.y);
  }

  lemma ReflectedY(p: nat, l: int, n: int, x1: int, y1: int, x3: int, y3: int)
    requires 0 < p && Vanishes(p, 0 - y3 - l * x3 - n) && Vanishes(p, y1 - l * x1 - n)
    ensures Vanishes(p, y3 - (l * (x1 - x3) - y1))
  {
    hide Vanishes;
    VanishSum(p, y1 - l * x1 - n, 0 - y3 - l * x3 - n);
    assert y1 - l * x1 - n - (0 - y3 - l * x3 - n) == y3 - (l * (x1 - x3) - y1) by { Distribute(l, x1, 0 - x3); }
  }

  /** The law of chords and tangents is the reference law of the Weierstrass module. */
  lemma AddsIsSum(p: nat, a: int, b: int, P: CubicPoint, Q: CubicPoint, R: CubicPoint)
    requires WeierstrassCurve(p, a, b).Valid()
    requires IsPoint(WeierstrassCurve(p, a, b), P) && IsPoint(WeierstrassCurve(p, a, b), Q) && IsPoint(WeierstrassCurve(p, a, b), R)
    requires Adds(WeierstrassCurve(p, a, b), P, Q, R)
    ensures IsSum(p, a, ToAffine(P), ToAffine(Q), ToAffine(R))
  {
    hide Vanishes, Cong, Minus, Third, ChordSlope, TangentSlope, IsPrime, Collinear;
    var c := WeierstrassCurve(p, a, b);
    if P.At? && Q.At? {
      SameXTest(c, P, Q);
      MinusX(c, P);
      if Q == Minus(c, P) {
        SumIsZero(c, P, Q, R);
      } else {
        var l, n := LineOf(c, P, Q, R);
        LineGivesThird(p, a, b, l, n, P, Q, R);
        LineGivesSlope(p, a, b, l, n, P, Q, Minus(c, R));
      }
    }
  }

  lemma SameXTest(c: CubicCurve, P: CubicPoint, Q: CubicPoint)
    requires c.Valid() && IsPoint(c, P) && IsPoint(c, Q) && P.At? && Q.At?
    ensures Cong(P.x, Q.x, c.p) <==> P.x == Q.x
    ensures P.x == Q.x ==> (Cong(P.y + Q.y, 0, c.p) <==> Q == Minus(c, P)) && (Q == P || Q == Minus(c, P))
  {
    hide Vanishes, Minus, IsPrime;
    VanishCong(c.p, Q.x, P.x);
    Flip(c.p, P.x, Q.x);
    if P.x == Q.x {
      Refl(c.p, P.x);
      SameAbscissa(c, P, Q);
      assert P.y + Q.y - 0 == P.y + Q.y;
      VanishCong(c.p, P.y + Q.y, 0);
    } else {
      DifferentX(c, P, Q);
    }
  }

  lemma LineGivesSlope(p: nat, a: int, b: int, l: int, n: int, P: CubicPoint, Q: CubicPoint, N: CubicPoint)
    requires 0 < p && P.At? && Q.At? && N.At? && Collinear(WeierstrassCurve(p, a, b), l, n, P, Q, N)
    ensures ChordSlope(p, l, P.x, P.y, Q.x, Q.y)
    ensures P == Q ==> TangentSlope(p, a, l, P.x, P.y)
  {
    hide Vanishes, Cong;
    var c := WeierstrassCurve(p, a, b);
    SlopeOfLine(c, l, n, P.x, P.y, Q.x, Q.y, N.x);
    VanishCong(p, Q.y - P.y, l * (Q.x - P.x));
    Flip(p, Q.y - P.y, l * (Q.x - P.x));
    if P == Q {
      var x, y := P.x, P.y;
      assert c.b * l * (y + y) - c.Q(x, x) == l * (2 * y) - (3 * (x * x) + a);
      VanishCong(p, l * (2 * y), 3 * (x * x) + a);
    }
  }

  // ------------------------------------------------ Weierstrass addition near infinity

  /** The numerator of the slope, over the common denominator. */
  lemma NumeratorIs(p: nat, P: Jacobian, Q: Jacobian)
    requires 0 < p
    ensures var n := Prologue(p, P, Q).l.n;
            n < p && Cong(n, Q.Y * (P.Z * P.Z * P.Z) - P.Y * (Q.Z * Q.Z * Q.Z), p)
  {
    hide Cong, Mul, Sub;
    PrologueSmall(p, P, Q);
    Refl(p, P.Z);
    Refl(p, Q.Z);
    Refl(p, P.Y);
    Refl(p, Q.Y);
    MulC(p, P.Z, P.Z, P.Z, P.Z);
    MulC(p, Q.Z, Q.Z, Q.Z, Q.Z);
    var Pz2, Qz2 := Mul(p, P.Z, P.Z), Mul(p, Q.Z, Q.Z);
    MulC(p, Pz2, P.Z * P.Z, P.Z, P.Z);
    MulC(p, Qz2, Q.Z * Q.Z, Q.Z, Q.Z);
    var Pz3, Qz3 := Mul(p, Pz2, P.Z), Mul(p, Qz2, Q.Z);
    MulC(p, P.Y, P.Y, Qz3, Q.Z * Q.Z * Q.Z);
    MulC(p, Q.Y, Q.Y, Pz3, P.Z * P.Z * P.Z);
    SubC(p, Mul(p, Q.Y, Pz3), Q.Y * (P.Z * P.Z * P.Z), Mul(p, P.Y, Qz3), P.Y * (Q.Z * Q.Z * Q.Z));
  }

  /** Two points at infinity make the addition stop. One, if its Y is not 0, does not. */
  lemma AddAtInfinity(p: nat, P: Jacobian, Q: Jacobian)
    requires IsPrime(p) && Q.Z % p == 0
    ensures P.Z % p == 0 ==> AddPoints(p, P, Q).Assertion?
    ensures P.Z % p != 0 && Q.Y % p != 0 ==> AddPoints(p, P, Q).Sum?
  {
    hide Cong, Prologue, Epilogue, IsPrime, Vanishes;
    PrimePositive(p);
    var n, z, y := Prologue(p, P, Q).l.n, P.Z * P.Z * P.Z, Q.Y;
    NumeratorIs(p, P, Q);
    SmallMod(n, p);
    SameZero(p, n, y * z - P.Y * (Q.Z * Q.Z * Q.Z));
    NumeratorVanishes(p, y, z, P.Y * (Q.Z * Q.Z), Q.Z);
    assert P.Y * (Q.Z * Q.Z * Q.Z) == P.Y * (Q.Z * Q.Z) * Q.Z by { MulAssoc(P.Y, Q.Z * Q.Z, Q.Z); }
    ProductZero(p, P.Z, P.Z);
    ProductZero(p, P.Z * P.Z, P.Z);
    ProductZero(p, y, z);
  }

  lemma NumeratorVanishes(p: nat, y: int, z: int, w: int, q: int)
    requires 0 < p && q % p == 0
    ensures (y * z - w * q) % p == 0 <==> (y * z) % p == 0
  {
    hide Vanishes;
    VanishIs(p, q);
    VanishIs(p, y * z);
    VanishIs(p, y * z - w * q);
    if Vanishes(p, y * z) {
      VanishTwo(p, 1, y * z, 0 - w, q);
      assert 1 * (y * z) + (0 - w) * q == y * z - w * q by { MulAssoc(0 - 1, w, q); }
    }
    if Vanishes(p, y * z - w * q) {
      VanishTwo(p, 1, y * z - w * q, w, q);
    }
  }

  /** The double of a point of order 2 has Y other than 0, or the curve would be singular. */
  lemma DoubleOfOrderTwo(p: nat, a: int, b: int, J: Jacobian, P: CubicPoint)
    requires WeierstrassCurve(p, a, b).Valid() && IsPoint(WeierstrassCurve(p, a, b), P) && P.At? && P.y == 0
    requires Represents(p, J, ToAffine(P))
    ensures Double(p, a, J).Y % p != 0
  {
    hide Cong, TangentOf, Epilogue, IsPrime, Vanishes;
    var l, z, x := TangentOf(p, a, J), J.Z, P.x;
    TangentTop(p, a, J, x, 0);
    TangentBottom(p, a, J, 0, z * (z * z));
    SmallMod(0, p);
    SameZero(p, l.d, 2 * 0 * (z * (z * z)));
    EpilogueIs(p, J.X, J.X, J.Y, z, l.n, l.d);
    SteepTangent(p, a, b, x);
    ProductZero(p, z, z);
    ProductZero(p, z * z, z * z);
    ProductZero(p, 3 * (x * x) + a, z * z * (z * z));
    SameZero(p, l.n, (3 * (x * x) + a) * (z * z * (z * z)));
    CubeOfSlope(p, l.n, l.d, J.X, J.Y);
    SameZero(p, Double(p, a, J).Y,
             l.n * (l.d * l.d * J.X - (l.n * l.n - l.d * l.d * (J.X + J.X))) - l.d * (l.d * l.d) * J.Y);
  }

  lemma SteepTangent(p: nat, a: int, b: int, x: int)
    requires WeierstrassCurve(p, a, b).Valid() && Vanishes(p, 1 * (0 * 0) - WeierstrassCurve(p, a, b).F(x))
    ensures (3 * (x * x) + a) % p != 0
  {
    hide Vanishes, IsPrime;
    var c := WeierstrassCurve(p, a, b);
    VanishTimes(p, 0 - 1, 1 * (0 * 0) - c.F(x));
    assert (0 - 1) * (1 * (0 * 0) - c.F(x)) == c.F(x);
    assert c.Q(x, x) == 3 * (x * x) + a;
    VanishIs(p, 3 * (x * x) + a);
  }

  lemma CubeOfSlope(p: nat, n: int, d: int, x: int, y: int)
    requires IsPrime(p) && n % p != 0 && d % p == 0
    ensures (n * (d * d * x - (n * n - d * d * (x + x))) - d * (d * d) * y) % p != 0
  {
    hide Vanishes, IsPrime;
    PrimePositive(p);
    var e, w := n * (d * d * x - (n * n - d * d * (x + x))) - d * (d * d) * y, n * (3 * (d * x)) - d * d * y;
    VanishIs(p, d);
    VanishIs(p, e);
    ProductZero(p, n, n);
    ProductZero(p, n, n * n);
    VanishIs(p, n * (n * n));
    CubeTerms(n, d, x, y);
    if Vanishes(p, e) {
      VanishTwo(p, w, d, 0 - 1, e);
      assert false;
    }
  }

  lemma CubeTerms(n: int, d: int, x: int, y: int)
    ensures (n * (3 * (d * x)) - d * d * y) * d + (0 - 1) * (n * (d * d * x - (n * n - d * d * (x + x))) - d * (d * d) * y) ==
            n * (n * n)
  {
    var t := d * d * x;
    assert d * d * (x + x) == t + t by { Distribute(d * d, x, x); }
    assert n * (t - (n * n - (t + t))) == n * (3 * t) - n * (n * n) by { Distribute(n, 3 * t, 0 - n * n); }
    assert n * (3 * (d * x)) * d == n * (3 * t) by {
      MulAssoc(n, 3 * (d * x), d);
      assert 3 * (d * x) * d == 3 * t;
    }
    assert d * d * y * d == d * (d * d) * y;
    assert (n * (3 * (d * x)) - d * d * y) * d == n * (3 * (d * x)) * d - d * d * y * d;
  }

  // ---------------------------------------------------------------------- Montgomery curves

  function MontgomeryCubic(p: nat, a: int, b: int): CubicCurve { CubicCurve(p, b, a, 1, 0) }

  /** The pair stands for the x coordinate of the point; (X : 0) with X other than 0 for the point at infinity. */
  ghost predicate RepresentsPoint(p: nat, P: XZ, M: CubicPoint)
    requires 0 < p
  {
    match M
    case Zero => P.Z % p == 0 && P.X % p != 0
    case At(x, _) => RepresentsX(p, P, x)
  }

  lemma RightSide(p: nat, a: int, b: int, x: int)
    ensures MontgomeryCubic(p, a, b).F(x) == x * (x * x + a * x + 1)
    ensures MontgomeryCubic(p, a, b).Q(x, x) == 3 * (x * x) + 2 * a * x + 1
  {
    CubicTerms(a, x);
    assert a * (x + x) == 2 * a * x by { MulAssoc(2, a, x); }
  }

  lemma PointOnMontgomery(p: nat, a: int, b: int, P: CubicPoint)
    requires 0 < p && IsPoint(MontgomeryCubic(p, a, b), P) && P.At?
    ensures OnMontgomery(p, a, b, P.x, P.y)
  {
    RightSide(p, a, b, P.x);
    VanishCong(p, b * (P.y * P.y), P.x * (P.x * P.x + a * P.x + 1));
  }

  /** The chord's third intersection, from a line through two points with different x. */
  lemma LineGivesChord(p: nat, a: int, b: int, l: int, n: int, P: CubicPoint, Q: CubicPoint, N: CubicPoint)
    requires 0 < p && P.At? && Q.At? && N.At? && Collinear(MontgomeryCubic(p, a, b), l, n, P, Q, N)
    ensures ChordX(p, a, b, P.x, P.y, Q.x, Q.y, N.x)
  {
    hide Vanishes, Cong;
    var c := MontgomeryCubic(p, a, b);
    SlopeOfLine(c, l, n, P.x, P.y, Q.x, Q.y, N.x);
    ChordVanishes(p, a, b, l, P.x, P.y, Q.x, Q.y, N.x);
    var d := Q.x - P.x;
    VanishCong(p, N.x * (d * d), b * ((Q.y - P.y) * (Q.y - P.y)) - (a + P.x + Q.x) * (d * d));
  }

  lemma ChordVanishes(p: nat, a: int, b: int, l: int, x1: int, y1: int, x2: int, y2: int, x3: int)
    requires 0 < p && Vanishes(p, y2 - y1 - l * (x2 - x1)) && Vanishes(p, x1 + x2 + x3 + a - b * (l * l))
    ensures var d, e := x2 - x1, y2 - y1; Vanishes(p, x3 * (d * d) - (b * (e * e) - (a + x1 + x2) * (d * d)))
  {
    hide Vanishes;
    var d, e, t := x2 - x1, y2 - y1, l * (x2 - x1);
    var dd, s := d * d, a + x1 + x2;
    VanishTwo(p, dd, x1 + x2 + x3 + a - b * (l * l), 0 - b * (e + t), e - t);
    assert dd * (x1 + x2 + x3 + a - b * (l * l)) == x3 * dd + s * dd - b * (t * t) by {
      assert t * t == l * l * dd by { ProductOfSquares(l, d); }
      MulAssoc(b, l * l, dd);
      Distribute(dd, s + x3, 0 - b * (l * l));
      Distribute(dd, s, x3);
    }
    assert (0 - b * (e + t)) * (e - t) == b * (t * t) - b * (e * e) by { ScaledDifference(b, e, t); }
  }

  lemma LineGivesTangent(p: nat, a: int, b: int, l: int, n: int, P: CubicPoint, N: CubicPoint)
    requires 0 < p && P.At? && N.At? && Collinear(MontgomeryCubic(p, a, b), l, n, P, P, N)
    ensures TangentX(p, a, b, P.x, P.y, N.x)
  {
    hide Vanishes, Cong;
    var c, x, y := MontgomeryCubic(p, a, b), P.x, P.y;
    SlopeOfLine(c, l, n, x, y, x, y, N.x);
    RightSide(p, a, b, x);
    var m, d := 3 * (x * x) + 2 * a * x + 1, 4 * (b * (y * y));
    assert b * l * (y + y) - m == c.b * l * (y + y) - c.Q(x, x);
    assert x + x + N.x + a - b * (l * l) == E1(c, l, x, x, N.x);
    TangentVanishes(p, a, b, l, x, y, N.x, m);
    VanishCong(p, N.x * d, m * m - (a + 2 * x) * d);
  }

  lemma TangentVanishes(p: nat, a: int, b: int, l: int, x: int, y: int, x3: int, m: int)
    requires 0 < p && Vanishes(p, b * l * (y + y) - m) && Vanishes(p, x + x + x3 + a - b * (l * l))
    ensures var d := 4 * (b * (y * y)); Vanishes(p, x3 * d - (m * m - (a + 2 * x) * d))
  {
    hide Vanishes;
    var d, t, s := 4 * (b * (y * y)), b * l * (y + y), a + 2 * x;
    VanishTwo(p, d, x + x + x3 + a - b * (l * l), t + m, t - m);
    assert t * t == b * (l * l) * d by { SquareOfTangent(b, l, y); }
    assert d * (x + x + x3 + a - b * (l * l)) == x3 * d + s * d - t * t by {
      Distribute(d, s + x3, 0 - b * (l * l));
      Distribute(d, s, x3);
    }
    assert (t + m) * (t - m) == t * t - m * m;
  }

  lemma SquareOfTangent(b: int, l: int, y: int)
    ensures b * l * (y + y) * (b * l * (y + y)) == b * (l * l) * (4 * (b * (y * y)))
  {
    var k, w := b * l, y + y;
    ProductOfSquares(k, w);
    ProductOfSquares(b, l);
    assert w * w == 4 * (y * y);
    Regroup4(b, b, l * l, 4 * (y * y));
    MulAssoc(b, 4, y * y);
  }

  lemma NotZero(p: nat, y: int)
    requires IsPrime(p) && 2 < p && !Vanishes(p, y + y)
    ensures !Vanishes(p, y)
  {
    hide Vanishes, IsPrime;
    if Vanishes(p, y) {
      VanishSum(p, y, y);
    }
  }

  /** Doubling, wherever the point and its double are. */
  lemma DoublesPoint(p: nat, a: int, b: int, a24: int, P: XZ, M: CubicPoint, R: CubicPoint)
    requires MontgomeryCubic(p, a, b).Valid() && IsPoint(MontgomeryCubic(p, a, b), M) && IsPoint(MontgomeryCubic(p, a, b), R)
    requires Cong(4 * a24, a + 2, p) && RepresentsPoint(p, P, M) && Adds(MontgomeryCubic(p, a, b), M, M, R)
    ensures RepresentsPoint(p, DoubleXZ(p, a24, P), R)
  {
    hide Cong, IsPrime, DoubleXZ, Minus, Collinear;
    var c := MontgomeryCubic(p, a, b);
    if M.Zero? {
      DoubleOfInfinity(p, a24, P);
    } else {
      var x, y := M.x, M.y;
      var r := x * (x * x + a * x + 1);
      RightSide(p, a, b, x);
      MinusX(c, M);
      SameAbscissa(c, M, M);
      if M == Minus(c, M) {
        SumIsZero(c, M, M, R);
        OnTheAxis(c, x, y);
        DoubleXZCorrect(p, a, a24, P, x, 0);
        DoubleNotNull(p, a, b, a24, P, x);
      } else {
        var l, n := LineOf(c, M, M, R);
        MinusX(c, R);
        LineGivesTangent(p, a, b, l, n, M, Minus(c, R));
        PointOnMontgomery(p, a, b, M);
        DoublingWithoutY(p, a, b, x, y, R.x);
        OffTheAxis(c, x, y);
        DoubleXZCorrect(p, a, a24, P, x, R.x);
      }
    }
  }

  lemma OnTheAxis(c: CubicCurve, x: int, y: int)
    requires IsPrime(c.p) && 2 < c.p && Vanishes(c.p, y + y) && Vanishes(c.p, c.b * (y * y) - c.F(x))
    ensures Vanishes(c.p, c.F(x))
  {
    hide Vanishes, IsPrime;
    TwoVanishesNot(c.p);
    assert y + y == 2 * y;
    VanishFactor(c.p, 2, y);
    VanishTwo(c.p, c.b * y, y, 0 - 1, c.b * (y * y) - c.F(x));
    MulAssoc(c.b, y, y);
  }

  lemma OffTheAxis(c: CubicCurve, x: int, y: int)
    requires c.Valid() && !Vanishes(c.p, y + y) && Vanishes(c.p, c.b * (y * y) - c.F(x))
    ensures !Vanishes(c.p, c.F(x))
  {
    hide Vanishes, IsPrime;
    NotZero(c.p, y);
    BNot(c);
    if Vanishes(c.p, c.F(x)) {
      VanishSum(c.p, c.b * (y * y) - c.F(x), c.F(x));
      VanishFactor(c.p, c.b, y * y);
      VanishFactor(c.p, y, y);
    }
  }

  lemma DoubleOfInfinity(p: nat, a24: int, P: XZ)
    requires IsPrime(p) && P.Z % p == 0 && P.X % p != 0
    ensures DoubleXZ(p, a24, P).Z % p == 0 && DoubleXZ(p, a24, P).X % p != 0
  {
    hide Cong, Mul, Add, Sub, IsPrime;
    PrimePositive(p);
    var X := P.X;
    CongZero(P.Z, p);
    Refl(p, X);
    Refl(p, a24);
    SubC(p, X, X, P.Z, 0);
    AddC(p, X, X, P.Z, 0);
    var pm, pp, xz := Sub(p, X, P.Z), Add(p, X, P.Z), Mul(p, X, P.Z);
    MulC(p, pm, X, pm, X);
    MulC(p, pp, X, pp, X);
    MulC(p, Mul(p, pm, pm), X * X, Mul(p, pp, pp), X * X);
    MulC(p, X, X, P.Z, 0);
    AddC(p, xz, X * 0, xz, X * 0);
    var two := Add(p, xz, xz);
    AddC(p, two, X * 0 + X * 0, two, X * 0 + X * 0);
    var four := Add(p, two, two);
    Refl(p, Add(p, Mul(p, pm, pm), Mul(p, four, a24)));
    MulC(p, four, 0, Add(p, Mul(p, pm, pm), Mul(p, four, a24)), Add(p, Mul(p, pm, pm), Mul(p, four, a24)));
    var S := DoubleXZ(p, a24, P);
    CongZero(S.Z, p);
    ProductZero(p, X, X);
    ProductZero(p, X * X, X * X);
    SameZero(p, S.X, X * X * (X * X));
  }

  /** The double of a point with y = 0 has X other than 0, or the curve would be singular. */
  lemma DoubleNotNull(p: nat, a: int, b: int, a24: int, P: XZ, x: int)
    requires MontgomeryCubic(p, a, b).Valid() && RepresentsX(p, P, x) && (x * (x * x + a * x + 1)) % p == 0
    ensures DoubleXZ(p, a24, P).X % p != 0
  {
    hide Cong, IsPrime, DoubleXZ;
    var z, q := P.Z, x * x - 1;
    DoubleXZIs(p, a24, P, x);
    DoubleTop(x, z);
    RightSide(p, a, b, x);
    assert !(Vanishes(p, MontgomeryCubic(p, a, b).F(x)) && Vanishes(p, MontgomeryCubic(p, a, b).Q(x, x)));
    if q % p == 0 {
      SingularAtOne(p, a, x);
      assert false;
    }
    ProductZero(p, z, z);
    ProductZero(p, z * z, z * z);
    ProductZero(p, q, q);
    ProductZero(p, q * q, z * z * (z * z));
    SameZero(p, DoubleXZ(p, a24, P).X, q * q * (z * z * (z * z)));
  }

  lemma SingularAtOne(p: nat, a: int, x: int)
    requires IsPrime(p) && Vanishes(p, x * (x * x + a * x + 1)) && Vanishes(p, x * x - 1)
    ensures Vanishes(p, 3 * (x * x) + 2 * a * x + 1)
  {
    hide Vanishes, IsPrime;
    PrimePositive(p);
    if Vanishes(p, x) {
      VanishTwo(p, x, x, 0 - 1, x * x - 1);
      OneVanishesNot(p);
    }
    VanishFactor(p, x, x * x + a * x + 1);
    VanishTwo(p, 2, x * x + a * x + 1, 1, x * x - 1);
    assert 2 * a * x == 2 * (a * x) by { MulAssoc(2, a, x); }
  }

  lemma OneVanishesNot(p: nat)
    requires 2 <= p
    ensures !Vanishes(p, 1)
  {
    SmallMod(1, p);
  }

  // ------------------------------------------------------------------ differential addition

  /** The formula in projective terms. */
  lemma DiffAddParts(p: nat, P: XZ, Q: XZ, D: XZ)
    requires 0 < p
    ensures var S, f, g := DiffAdd(p, P, Q, D), 2 * (P.X * Q.X - P.Z * Q.Z), 2 * (P.X * Q.Z - P.Z * Q.X);
            Cong(S.X, f * f * D.Z, p) && Cong(S.Z, g * g * D.X, p)
  {
    hide Cong, Mul, Add, Sub;
    var a, b, c, d := P.X, P.Z, Q.X, Q.Z;
    Refl(p, a);
    Refl(p, b);
    Refl(p, c);
    Refl(p, d);
    SubC(p, a, a, b, b);
    AddC(p, a, a, b, b);
    SubC(p, c, c, d, d);
    AddC(p, c, c, d, d);
    var pm, pp, qm, qp := Sub(p, a, b), Add(p, a, b), Sub(p, c, d), Add(p, c, d);
    MulC(p, pm, a - b, qp, c + d);
    MulC(p, pp, a + b, qm, c - d);
    var u, v := Mul(p, pm, qp), Mul(p, pp, qm);
    AddC(p, u, (a - b) * (c + d), v, (a + b) * (c - d));
    SubC(p, u, (a - b) * (c + d), v, (a + b) * (c - d));
    var f, g := 2 * (a * c - b * d), 2 * (a * d - b * c);
    assert (a - b) * (c + d) + (a + b) * (c - d) == f && (a - b) * (c + d) - (a + b) * (c - d) == g by { CrossProduct(a, b, c, d); }
    MulC(p, Add(p, u, v), f, Add(p, u, v), f);
    MulC(p, Sub(p, u, v), g, Sub(p, u, v), g);
    Refl(p, D.X);
    Refl(p, D.Z);
    MulC(p, Mul(p, Add(p, u, v), Add(p, u, v)), f * f, D.Z, D.Z);
    MulC(p, Mul(p, Sub(p, u, v), Sub(p, u, v)), g * g, D.X, D.X);
  }

  lemma CrossProduct(a: int, b: int, c: int, d: int)
    ensures (a - b) * (c + d) + (a + b) * (c - d) == 2 * (a * c - b * d)
    ensures (a - b) * (c + d) - (a + b) * (c - d) == 2 * (a * d - b * c)
  {
    assert (a - b) * (c + d) == a * c + a * d - b * c - b * d;
    assert (a + b) * (c - d) == a * c - a * d + b * c - b * d;
  }

  /** Differential addition of M and N = M + D, wherever they and their sum are, for a D that is not at infinity or x = 0. */
  lemma AddsPoints(p: nat, a: int, b: int, P: XZ, Q: XZ, B: XZ, M: CubicPoint, N: CubicPoint, D: CubicPoint, R: CubicPoint)
    requires MontgomeryCubic(p, a, b).Valid() && IsPoint(MontgomeryCubic(p, a, b), M) && IsPoint(MontgomeryCubic(p, a, b), N)
    requires IsPoint(MontgomeryCubic(p, a, b), D) && IsPoint(MontgomeryCubic(p, a, b), R) && D.At? && D.x != 0
    requires RepresentsPoint(p, P, M) && RepresentsPoint(p, Q, N) && RepresentsPoint(p, B, D)
    requires Adds(MontgomeryCubic(p, a, b), M, D, N) && Adds(MontgomeryCubic(p, a, b), M, N, R)
    ensures RepresentsPoint(p, DiffAdd(p, P, Q, B), R)
  {
    hide Cong, IsPrime, DiffAdd, Minus, Collinear, CubicCurve.Valid, RepresentsX;
    var c := MontgomeryCubic(p, a, b);
    Positive(c);
    MinusX(c, D);
    MinusZero(c, M);
    if M.Zero? {
      NextToInfinity(p, P, Q, B, D.x);
    } else if N.Zero? {
      MinusIs(c, M);
      MinusX(c, M);
      NextToInfinityToo(p, P, Q, B, D.x);
    } else {
      BothFinite(p, a, b, P, Q, B, M, N, D, R);
    }
  }

  lemma SmallNot(p: nat, x: int)
    requires 0 < x < p
    ensures x % p != 0
  {
    SmallMod(x, p);
  }

  lemma NextToInfinity(p: nat, P: XZ, Q: XZ, B: XZ, x: int)
    requires IsPrime(p) && 2 < p && 0 < x < p && P.Z % p == 0 && P.X % p != 0 && RepresentsX(p, Q, x) && RepresentsX(p, B, x)
    ensures RepresentsX(p, DiffAdd(p, P, Q, B), x)
  {
    hide Cong, IsPrime, DiffAdd;
    var S, k := DiffAdd(p, P, Q, B), 2 * P.X;
    DiffAddParts(p, P, Q, B);
    var f, g := 2 * (P.X * Q.X - P.Z * Q.Z), 2 * (P.X * Q.Z - P.Z * Q.X);
    CongZero(P.Z, p);
    Refl(p, Q.Z);
    InfinityDrops(p, P.X, P.Z, Q.X, Q.Z, x * Q.Z);
    InfinityDrops(p, P.X, P.Z, Q.Z, Q.X, Q.Z);
    InfinityProduct(p, S, f, g, k, Q.Z, B, x);
    SmallNot(p, x);
    SmallMod(2, p);
    ProductZero(p, 2, P.X);
    NonzeroProduct(p, k, Q.Z, x, B.Z);
    SameZero(p, S.Z, k * Q.Z * (k * Q.Z) * (x * B.Z));
  }

  lemma InfinityDrops(p: nat, X: int, Z: int, u: int, v: int, u': int)
    requires 0 < p && Cong(Z, 0, p) && Cong(u, u', p)
    ensures Cong(2 * (X * u - Z * v), 2 * X * u', p)
  {
    hide Cong;
    Refl(p, X);
    Refl(p, v);
    Refl(p, 2);
    CongMul(X, X, u, u', p);
    CongMul(Z, 0, v, v, p);
    CongSub(X * u, X * u', Z * v, 0 * v, p);
    CongMul(2, 2, X * u - Z * v, X * u' - 0 * v, p);
    MulAssoc(2, X, u');
  }

  lemma InfinityProduct(p: nat, S: XZ, f: int, g: int, k: int, w: int, B: XZ, x: int)
    requires 0 < p && Cong(f, k * (x * w), p) && Cong(g, k * w, p) && Cong(B.X, x * B.Z, p)
    requires Cong(S.X, f * f * B.Z, p) && Cong(S.Z, g * g * B.X, p)
    ensures Cong(S.X, x * S.Z, p) && Cong(S.Z, k * w * (k * w) * (x * B.Z), p)
  {
    hide Cong;
    var t := k * w;
    Refl(p, B.Z);
    Refl(p, x);
    CongMul(f, k * (x * w), f, k * (x * w), p);
    CongMul(f * f, k * (x * w) * (k * (x * w)), B.Z, B.Z, p);
    CongMul(g, t, g, t, p);
    CongMul(g * g, t * t, B.X, x * B.Z, p);
    Trans(p, S.Z, g * g * B.X, t * t * (x * B.Z));
    CongMul(x, x, S.Z, t * t * (x * B.Z), p);
    assert k * (x * w) * (k * (x * w)) * B.Z == x * (t * t * (x * B.Z)) by {
      MulAssoc(k, x, w);
      MulAssoc(x, k, w);
      ProductOfSquares(x, t);
      MulAssoc(x * x, t * t, B.Z);
      MulAssoc(x, x, t * t * B.Z);
      MulAssoc(x, t * t, B.Z);
    }
    Trans(p, S.X, f * f * B.Z, x * (t * t * (x * B.Z)));
    Flip(p, x * S.Z, x * (t * t * (x * B.Z)));
    Trans(p, S.X, x * (t * t * (x * B.Z)), x * S.Z);
  }

  lemma NonzeroProduct(p: nat, k: int, w: int, x: int, v: int)
    requires IsPrime(p) && k % p != 0 && w % p != 0 && x % p != 0 && v % p != 0
    ensures (k * w * (k * w) * (x * v)) % p != 0
  {
    hide IsPrime;
    ProductZero(p, k, w);
    ProductZero(p, k * w, k * w);
    ProductZero(p, x, v);
    ProductZero(p, k * w * (k * w), x * v);
  }

  lemma NextToInfinityToo(p: nat, P: XZ, Q: XZ, B: XZ, x: int)
    requires IsPrime(p) && 2 < p && 0 < x < p && Q.Z % p == 0 && Q.X % p != 0 && RepresentsX(p, P, x) && RepresentsX(p, B, x)
    ensures RepresentsX(p, DiffAdd(p, P, Q, B), x)
  {
    hide Cong, IsPrime, DiffAdd, RepresentsX;
    NextToInfinity(p, Q, P, B, x);
    DiffAddCommutes(p, P, Q, B);
    SameRepresented(p, DiffAdd(p, Q, P, B), DiffAdd(p, P, Q, B), x);
  }

  lemma SameRepresented(p: nat, S: XZ, T: XZ, x: int)
    requires 0 < p && RepresentsX(p, S, x) && Cong(S.X, T.X, p) && Cong(S.Z, T.Z, p)
    ensures RepresentsX(p, T, x)
  {
    Refl(p, x);
    CongMul(x, x, S.Z, T.Z, p);
    SameZero(p, S.Z, T.Z);
  }

  lemma DiffAddCommutes(p: nat, P: XZ, Q: XZ, B: XZ)
    requires 0 < p
    ensures Cong(DiffAdd(p, Q, P, B).X, DiffAdd(p, P, Q, B).X, p) && Cong(DiffAdd(p, Q, P, B).Z, DiffAdd(p, P, Q, B).Z, p)
  {
    hide Cong, DiffAdd;
    DiffAddParts(p, P, Q, B);
    DiffAddParts(p, Q, P, B);
    var S, T := DiffAdd(p, P, Q, B), DiffAdd(p, Q, P, B);
    var f, g := 2 * (P.X * Q.X - P.Z * Q.Z), 2 * (P.X * Q.Z - P.Z * Q.X);
    assert 2 * (Q.X * P.X - Q.Z * P.Z) == f && 2 * (Q.X * P.Z - Q.Z * P.X) == 0 - g;
    assert (0 - g) * (0 - g) == g * g;
    Flip(p, S.X, f * f * B.Z);
    Flip(p, S.Z, g * g * B.X);
    Trans(p, T.X, f * f * B.Z, S.X);
    Trans(p, T.Z, g * g * B.X, S.Z);
  }

  lemma BothFinite(p: nat, a: int, b: int, P: XZ, Q: XZ, B: XZ, M: CubicPoint, N: CubicPoint, D: CubicPoint, R: CubicPoint)
    requires MontgomeryCubic(p, a, b).Valid() && IsPoint(MontgomeryCubic(p, a, b), M) && IsPoint(MontgomeryCubic(p, a, b), N)
    requires IsPoint(MontgomeryCubic(p, a, b), D) && IsPoint(MontgomeryCubic(p, a, b), R)
    requires M.At? && N.At? && D.At? && D.x != 0
    requires RepresentsX(p, P, M.x) && RepresentsX(p, Q, N.x) && RepresentsX(p, B, D.x)
    requires Adds(MontgomeryCubic(p, a, b), M, D, N) && Adds(MontgomeryCubic(p, a, b), M, N, R)
    ensures RepresentsPoint(p, DiffAdd(p, P, Q, B), R)
  {
    hide Cong, IsPrime, DiffAdd, Minus, Collinear, CubicCurve.Valid, RepresentsX, Adds;
    var c := MontgomeryCubic(p, a, b);
    Positive(c);
    AddsCommutes(c, M, D, N);
    Cancels(c, D, M, N);
    MinusX(c, M);
    MinusIs(c, M);
    SameXTest(c, M, N);
    SmallNot(p, D.x);
    if M.x == N.x {
      if N == M {
        SumIsZero(c, M, Minus(c, M), D);
      }
      SumIsZero(c, M, N, R);
      DiffAddCorrect(p, P, Q, B, M.x, N.x, D.x, 0);
      NotNull(p, a, b, P, Q, B, N, D);
    } else {
      DiffersByD(p, a, b, M, N, D, R);
      DiffAddCorrect(p, P, Q, B, M.x, N.x, D.x, R.x);
    }
  }

  /** Opposite neighbours: their sum is at infinity, and X is not 0. */
  lemma NotNull(p: nat, a: int, b: int, P: XZ, Q: XZ, B: XZ, N: CubicPoint, D: CubicPoint)
    requires MontgomeryCubic(p, a, b).Valid() && IsPoint(MontgomeryCubic(p, a, b), N) && IsPoint(MontgomeryCubic(p, a, b), D)
    requires N.At? && D.At? && D.x != 0 && Adds(MontgomeryCubic(p, a, b), N, N, D)
    requires RepresentsX(p, P, N.x) && RepresentsX(p, Q, N.x) && RepresentsX(p, B, D.x)
    ensures DiffAdd(p, P, Q, B).X % p != 0
  {
    hide Cong, IsPrime, DiffAdd, Minus, Collinear, DoubleRelation;
    var c, x, y := MontgomeryCubic(p, a, b), N.x, N.y;
    var k, t := 2 * (P.Z * Q.Z), x * x - 1;
    SameAbscissa(c, N, N);
    var l, n := LineOf(c, N, N, D);
    MinusX(c, D);
    LineGivesTangent(p, a, b, l, n, N, Minus(c, D));
    PointOnMontgomery(p, a, b, N);
    DoublingWithoutY(p, a, b, x, y, D.x);
    OffTheAxis(c, x, y);
    RightSide(p, a, b, x);
    DoubleNonzero(p, a, x, D.x);
    DiffAddIs(p, P, Q, B, x, x, D.x);
    SmallMod(2, p);
    ProductZero(p, P.Z, Q.Z);
    ProductZero(p, 2, P.Z * Q.Z);
    ProductZero(p, k, t);
    ProductZero(p, k * t, k * t);
    ProductZero(p, k * t * (k * t), B.Z);
    SameZero(p, DiffAdd(p, P, Q, B).X, k * t * (k * t) * B.Z);
  }

  lemma DoubleNonzero(p: nat, a: int, x: int, x2: int)
    requires IsPrime(p) && 2 < p && DoubleRelation(p, a, x, x2) && 0 < x2 < p && (x * (x * x + a * x + 1)) % p != 0
    ensures (x * x - 1) % p != 0
  {
    hide Cong, IsPrime;
    var r, t := x * (x * x + a * x + 1), x * x - 1;
    FourNonzero(p);
    ProductZero(p, 4, r);
    SmallNot(p, x2);
    ProductZero(p, x2, 4 * r);
    SameZero(p, x2 * (4 * r), t * t);
    ProductZero(p, t, t);
  }

  lemma DiffersByD(p: nat, a: int, b: int, M: CubicPoint, N: CubicPoint, D: CubicPoint, R: CubicPoint)
    requires MontgomeryCubic(p, a, b).Valid() && IsPoint(MontgomeryCubic(p, a, b), M) && IsPoint(MontgomeryCubic(p, a, b), N)
    requires IsPoint(MontgomeryCubic(p, a, b), D) && IsPoint(MontgomeryCubic(p, a, b), R) && M.At? && N.At? && D.At? && M.x != N.x
    requires Adds(MontgomeryCubic(p, a, b), M, N, R) && Adds(MontgomeryCubic(p, a, b), N, Minus(MontgomeryCubic(p, a, b), M), D)
    ensures R.At? && DiffRelation(p, M.x, N.x, R.x, D.x)
  {
    hide Cong, IsPrime, Minus, Collinear, CubicCurve.Valid, Adds, ChordX, DiffRelation;
    var c := MontgomeryCubic(p, a, b);
    Positive(c);
    MinusX(c, M);
    MinusX(c, N);
    MinusIs(c, M);
    MinusIs(c, N);
    SameXTest(c, M, N);
    var l, n := LineOf(c, M, N, R);
    MinusX(c, R);
    LineGivesChord(p, a, b, l, n, M, N, Minus(c, R));
    var m, k := LineOf(c, N, Minus(c, M), D);
    MinusX(c, D);
    LineGivesChord(p, a, b, m, k, N, Minus(c, M), Minus(c, D));
    OtherChord(p, a, b, M.x, M.y, N.x, N.y, Minus(c, M).y, D.x);
    PointOnMontgomery(p, a, b, M);
    PointOnMontgomery(p, a, b, N);
    DifferentialAddition(p, a, b, M.x, M.y, N.x, N.y, R.x, D.x);
  }

  lemma OtherChord(p: nat, a: int, b: int, x1: int, y1: int, x2: int, y2: int, z: int, x3: int)
    requires 0 < p && Vanishes(p, z + y1) && ChordX(p, a, b, x2, y2, x1, z, x3)
    ensures ChordX(p, a, b, x1, y1, x2, 0 - y2, x3)
  {
    hide Cong;
    var d, e, f := x1 - x2, z - y2, 0 - y2 - y1;
    assert (x2 - x1) * (x2 - x1) == d * d;
    assert z - (0 - y1) == z + y1;
    VanishCong(p, z, 0 - y1);
    Refl(p, y2);
    Refl(p, b);
    CongSub(z, 0 - y1, y2, y2, p);
    CongMul(e, f, e, f, p);
    CongMul(b, b, e * e, f * f, p);
    var s := (a + x1 + x2) * (d * d);
    Refl(p, s);
    CongSub(b * (e * e), b * (f * f), s, s, p);
    Trans(p, x3 * (d * d), b * (e * e) - s, b * (f * f) - s);
  }

  // -------------------------------------------------- base points at infinity or at x = 0

  /** (0 : 0), which stands for no point. */
  predicate Null(p: nat, P: XZ)
    requires 0 < p
  {
    P.X % p == 0 && P.Z % p == 0
  }

  lemma NullSum(p: nat, P: XZ, Q: XZ, D: XZ)
    requires 0 < p
    requires Vanishes(p, P.X * Q.X - P.Z * Q.Z) || Vanishes(p, D.Z)
    requires Vanishes(p, P.X * Q.Z - P.Z * Q.X) || Vanishes(p, D.X)
    ensures Null(p, DiffAdd(p, P, Q, D))
  {
    hide Cong, DiffAdd, Vanishes;
    var S, f, g := DiffAdd(p, P, Q, D), P.X * Q.X - P.Z * Q.Z, P.X * Q.Z - P.Z * Q.X;
    DiffAddParts(p, P, Q, D);
    VanishingSquare(p, f, D.Z);
    VanishingSquare(p, g, D.X);
    SameZero(p, S.X, 2 * f * (2 * f) * D.Z);
    SameZero(p, S.Z, 2 * g * (2 * g) * D.X);
  }

  lemma VanishingSquare(p: nat, e: int, d: int)
    requires 0 < p && (Vanishes(p, e) || Vanishes(p, d))
    ensures (2 * e * (2 * e) * d) % p == 0
  {
    hide Vanishes;
    if Vanishes(p, e) {
      VanishTimes(p, 2 * (2 * e) * d, e);
      assert 2 * (2 * e) * d * e == 2 * e * (2 * e) * d;
    } else {
      VanishTimes(p, 2 * e * (2 * e), d);
    }
    VanishIs(p, 2 * e * (2 * e) * d);
  }

  /** Nothing comes of (0 : 0) but (0 : 0). */
  lemma NullStays(p: nat, a24: int, P: XZ, Q: XZ, D: XZ)
    requires 0 < p && Null(p, P)
    ensures Null(p, DoubleXZ(p, a24, P)) && Null(p, DiffAdd(p, P, Q, D)) && Null(p, DiffAdd(p, Q, P, D))
  {
    hide DiffAdd, DoubleXZ, Vanishes;
    VanishIs(p, P.X);
    VanishIs(p, P.Z);
    CrossVanishes(p, Q.X, P.X, Q.Z, P.Z);
    CrossVanishes(p, Q.Z, P.X, Q.X, P.Z);
    CrossVanishes(p, Q.X, P.Z, Q.Z, P.X);
    NullSum(p, P, Q, D);
    NullSum(p, Q, P, D);
    NullDouble(p, a24, P);
  }

  lemma CrossVanishes(p: nat, r: int, e: int, s: int, f: int)
    requires 0 < p && Vanishes(p, e) && Vanishes(p, f)
    ensures Vanishes(p, r * e - s * f) && Vanishes(p, e * r - f * s) && Vanishes(p, r * e - f * s) && Vanishes(p, e * r - s * f)
  {
    hide Vanishes;
    VanishTwo(p, r, e, 0 - s, f);
    assert r * e + (0 - s) * f == r * e - s * f by { MulAssoc(0 - 1, s, f); }
  }

  lemma NullDouble(p: nat, a24: int, P: XZ)
    requires 0 < p && Null(p, P)
    ensures Null(p, DoubleXZ(p, a24, P))
  {
    hide Cong, Mul, Add, Sub;
    ZeroDoubled(p, a24, P);
    CongZero(P.X, p);
    CongZero(P.Z, p);
    SubC(p, P.X, 0, P.Z, 0);
    var pm, pp := Sub(p, P.X, P.Z), Add(p, P.X, P.Z);
    MulC(p, pm, 0, pm, 0);
    Refl(p, Mul(p, pp, pp));
    MulC(p, Mul(p, pm, pm), 0, Mul(p, pp, pp), Mul(p, pp, pp));
    CongZero(DoubleXZ(p, a24, P).X, p);
    CongZero(DoubleXZ(p, a24, P).Z, p);
  }

  /** A base point at infinity, or at x = 0 and so of order 2, is an exception: three times it comes out as (0 : 0). */
  lemma ExceptionalSum(p: nat, a: int, b: int, a24: int, P: XZ, Q: XZ, B: XZ, D: CubicPoint, E: CubicPoint)
    requires MontgomeryCubic(p, a, b).Valid() && IsPoint(MontgomeryCubic(p, a, b), D) && IsPoint(MontgomeryCubic(p, a, b), E)
    requires Cong(4 * a24, a + 2, p) && Adds(MontgomeryCubic(p, a, b), D, D, E) && (D.Zero? || D.x == 0)
    requires RepresentsPoint(p, B, D) && RepresentsPoint(p, P, D) && RepresentsPoint(p, Q, E)
    ensures Null(p, DiffAdd(p, P, Q, B))
  {
    hide IsPrime, DoubleXZ, DiffAdd, Cong, Adds, IsPoint, Vanishes, CubicCurve.Valid, RepresentsPoint, Null;
    Positive(MontgomeryCubic(p, a, b));
    DoublesPoint(p, a, b, a24, B, D, E);
    if D.Zero? {
      AtInfinity(p, B, D);
      AtInfinity(p, P, D);
      DoubleOfInfinity(p, a24, B);
      AtInfinity(p, DoubleXZ(p, a24, B), E);
      AtInfinity(p, Q, E);
      CrossVanishes(p, P.X, Q.Z, Q.X, P.Z);
    } else {
      AtZero(p, B, D);
      AtZero(p, P, D);
      ZeroDoubled(p, a24, B);
      CongZero(DoubleXZ(p, a24, B).Z, p);
      AtInfinity(p, DoubleXZ(p, a24, B), E);
      AtInfinity(p, Q, E);
      CrossVanishes(p, Q.X, P.X, P.Z, Q.Z);
    }
    NullSum(p, P, Q, B);
  }

  lemma AtInfinity(p: nat, P: XZ, M: CubicPoint)
    requires 0 < p && RepresentsPoint(p, P, M)
    ensures M.Zero? <==> P.Z % p == 0
    ensures M.Zero? <==> Vanishes(p, P.Z)
    ensures M.Zero? ==> P.X % p != 0
  {
  }

  lemma AtZero(p: nat, P: XZ, M: CubicPoint)
    requires 0 < p && RepresentsPoint(p, P, M) && M.At? && M.x == 0
    ensures P.X % p == 0 && Vanishes(p, P.X)
  {
    CongZero(P.X, p);
  }

  lemma ZeroDoubled(p: nat, a24: int, B: XZ)
    requires 0 < p && B.X % p == 0
    ensures Cong(DoubleXZ(p, a24, B).Z, 0, p)
  {
    hide Cong, Mul, Add, Sub;
    var xz := Mul(p, B.X, B.Z);
    CongZero(B.X, p);
    Refl(p, B.Z);
    MulC(p, B.X, 0, B.Z, B.Z);
    AddC(p, xz, 0, xz, 0);
    var two := Add(p, xz, xz);
    AddC(p, two, 0, two, 0);
    var four := Add(p, two, two);
    var w := Add(p, Mul(p, Sub(p, B.X, B.Z), Sub(p, B.X, B.Z)), Mul(p, four, a24));
    Refl(p, w);
    MulC(p, four, 0, w, w);
  }

  // -------------------------------------------------------- when the curves are nonsingular

  /** A Weierstrass curve is nonsingular if its discriminant is not 0. */
  lemma WeierstrassValid(p: nat, a: int, b: int)
    requires IsPrime(p) && 2 < p && (4 * (a * (a * a)) + 27 * (b * b)) % p != 0
    ensures WeierstrassCurve(p, a, b).Valid()
  {
    hide Vanishes, IsPrime;
    var c := WeierstrassCurve(p, a, b);
    assert c.b % p != 0 by { SmallMod(1, p); }
    forall x: int ensures !(Vanishes(p, c.F(x)) && Vanishes(p, c.Q(x, x))) {
      if Vanishes(p, c.F(x)) && Vanishes(p, c.Q(x, x)) {
        var f, g, h := c.F(x), c.Q(x, x), 2 * (a * x) + 3 * b;
        VanishTwo(p, 3, f, 0 - x, g);
        DiscriminantParts(a, b, x);
        VanishTwo(p, 4 * (a * a), g, 18 * b - 3 * h, h);
        VanishIs(p, 4 * (a * (a * a)) + 27 * (b * b));
        assert false;
      }
    }
  }

  lemma VanishIs(p: nat, e: int)
    requires 0 < p
    ensures Vanishes(p, e) <==> e % p == 0
  {
  }

  lemma DiscriminantParts(a: int, b: int, x: int)
    ensures var f, g, h := x * (x * x) + 0 * (x * x) + a * x + b, x * x + x * x + x * x + 0 * (x + x) + a, 2 * (a * x) + 3 * b;
            3 * f + (0 - x) * g == h && 4 * (a * a) * g + (18 * b - 3 * h) * h == 4 * (a * (a * a)) + 27 * (b * b)
  {
    var q, t, h := x * x, a * x, 2 * (a * x) + 3 * b;
    assert x * (3 * q + a) == 3 * (x * q) + t;
    assert 4 * (a * a) * (3 * q + a) == 12 * (t * t) + 4 * (a * (a * a)) by { ProductOfSquares(a, x); Distribute(4 * (a * a), 3 * q, a); }
    assert (18 * b - 3 * h) * h == 27 * (b * b) - 12 * (t * t) by { LinearSquare(t, b); }
  }

  lemma LinearSquare(t: int, b: int)
    ensures (18 * b - 3 * (2 * t + 3 * b)) * (2 * t + 3 * b) == 27 * (b * b) - 12 * (t * t)
  {
  }

  /** A Montgomery curve is nonsingular if a is not 2 or -2. */
  lemma MontgomeryValid(p: nat, a: int, b: int)
    requires IsPrime(p) && 2 < p && b % p != 0 && (a * a - 4) % p != 0
    ensures MontgomeryCubic(p, a, b).Valid()
  {
    hide Vanishes, IsPrime;
    var c := MontgomeryCubic(p, a, b);
    forall x: int ensures !(Vanishes(p, c.F(x)) && Vanishes(p, c.Q(x, x))) {
      if Vanishes(p, c.F(x)) && Vanishes(p, c.Q(x, x)) {
        RightSide(p, a, b, x);
        SingularMontgomery(p, a, x);
        VanishIs(p, a * a - 4);
        assert false;
      }
    }
  }

  lemma SingularMontgomery(p: nat, a: int, x: int)
    requires IsPrime(p) && Vanishes(p, x * (x * x + a * x + 1)) && Vanishes(p, 3 * (x * x) + 2 * a * x + 1)
    ensures Vanishes(p, a * a - 4)
  {
    hide Vanishes, IsPrime;
    PrimePositive(p);
    var q, t := x * x, a * x;
    NotAtZero(p, a, x);
    VanishFactor(p, x, q + t + 1);
    var u, v := q + t + 1, q - 1;
    assert Vanishes(p, v) by {
      VanishTwo(p, 1, 3 * q + 2 * a * x + 1, 0 - 2, u);
      assert 2 * a * x == 2 * t by { MulAssoc(2, a, x); }
    }
    VanishTwo(p, t - q - 1, u, q + 3 - a * a, v);
    assert t * t == a * a * q by { ProductOfSquares(a, x); }
    FourthLess(q, t, a * a);
  }

  lemma NotAtZero(p: nat, a: int, x: int)
    requires IsPrime(p) && Vanishes(p, 3 * (x * x) + 2 * a * x + 1)
    ensures !Vanishes(p, x)
  {
    hide Vanishes, IsPrime;
    PrimePositive(p);
    if Vanishes(p, x) {
      VanishTwo(p, 1, 3 * (x * x) + 2 * a * x + 1, 0 - (3 * x + 2 * a), x);
      assert (0 - (3 * x + 2 * a)) * x == 0 - 3 * (x * x) - 2 * a * x by { Distribute(x, 3 * x, 2 * a); }
      OneVanishesNot(p);
    }
  }

  lemma FourthLess(q: int, t: int, m: int)
    requires t * t == m * q
    ensures (t - q - 1) * (q + t + 1) + (q + 3 - m) * (q - 1) == m - 4
  {
    assert (t - q - 1) * (q + t + 1) == t * t - q * q - 2 * q - 1;
    assert (q + 3 - m) * (q - 1) == q * q + 2 * q - 3 - m * q + m;
  }
}
