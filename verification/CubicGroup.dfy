/**
 The points of a nonsingular cubic b y^2 = x^3 + a2 x^2 + a4 x + a6 form a group
 under the law of chords and tangents. Weierstrass and Montgomery curves are
 cubics of this kind.
 */
module CubicGroup {
  import opened Arithmetic
  import opened Primes
  import opened Fields
  import opened Weierstrass
  import opened WeierstrassLaw

  // ------------------------------------------------------------------ what vanishes modulo p

  ghost predicate Vanishes(p: nat, e: int)
    requires 0 < p
  {
    e % p == 0
  }

  lemma VanishTimes(p: nat, r: int, e: int)
    requires 0 < p && Vanishes(p, e)
    ensures Vanishes(p, r * e)
  {
    CongZero(e, p);
    CongMul(r, r, e, 0, p);
    CongZero(r * e, p);
  }

  lemma VanishSum(p: nat, e: int, f: int)
    requires 0 < p && Vanishes(p, e) && Vanishes(p, f)
    ensures Vanishes(p, e + f) && Vanishes(p, e - f)
  {
    CongZero(e, p);
    CongZero(f, p);
    CongAdd(e, 0, f, 0, p);
    CongSub(e, 0, f, 0, p);
    CongZero(e + f, p);
    CongZero(e - f, p);
  }

  lemma VanishTwo(p: nat, r: int, e: int, s: int, f: int)
    requires 0 < p && Vanishes(p, e) && Vanishes(p, f)
    ensures Vanishes(p, r * e + s * f)
  {
    hide Vanishes;
    VanishTimes(p, r, e);
    VanishTimes(p, s, f);
    VanishSum(p, r * e, s * f);
  }

  lemma VanishThree(p: nat, r: int, e: int, s: int, f: int, t: int, g: int)
    requires 0 < p && Vanishes(p, e) && Vanishes(p, f) && Vanishes(p, g)
    ensures Vanishes(p, r * e + s * f + t * g)
  {
    hide Vanishes;
    VanishTwo(p, r, e, s, f);
    VanishTimes(p, t, g);
    VanishSum(p, r * e + s * f, t * g);
  }

  /** A product vanishes only if a factor does. */
  lemma VanishFactor(p: nat, e: int, f: int)
    requires IsPrime(p) && Vanishes(p, e * f) && !Vanishes(p, e)
    ensures Vanishes(p, f)
  {
    hide IsPrime;
    ProductZero(p, e, f);
  }

  lemma VanishSmall(p: nat, x: int, y: int)
    requires 0 < p && 0 <= x < p && 0 <= y < p && Vanishes(p, x - y)
    ensures x == y
  {
    DifferenceNonzero(p, y, x);
    CongSmall(y, x, p);
  }

  // ------------------------------------------------------------------------- the curve

  datatype CubicCurve = CubicCurve(p: nat, b: int, a2: int, a4: int, a6: int) {
    function F(x: int): int { x * (x * x) + a2 * (x * x) + a4 * x + a6 }

    /** (F(x) - F(u)) / (x - u), and for x = u the derivative. */
    function Q(x: int, u: int): int { x * x + x * u + u * u + a2 * (x + u) + a4 }

    ghost predicate Valid() {
      IsPrime(p) && 2 < p && b % p != 0 && forall x: int :: !(Vanishes(p, F(x)) && Vanishes(p, Q(x, x)))
    }
  }

  datatype CubicPoint = Zero | At(x: int, y: int)

  lemma Positive(c: CubicCurve)
    requires c.Valid()
    ensures 2 < c.p && IsPrime(c.p)
  {
  }

  /** A point of the curve, in reduced coordinates. */
  ghost predicate IsPoint(c: CubicCurve, P: CubicPoint)
    requires 0 < c.p
  {
    P.At? ==> 0 <= P.x < c.p && 0 <= P.y < c.p && Vanishes(c.p, c.b * (P.y * P.y) - c.F(P.x))
  }

  function Minus(c: CubicCurve, P: CubicPoint): CubicPoint
    requires 0 < c.p
  {
    match P
    case Zero => Zero
    case At(x, y) => At(x, (0 - y) % c.p)
  }

  /** y = l x + n passes through the point. */
  ghost predicate On(c: CubicCurve, l: int, n: int, x: int, y: int)
    requires 0 < c.p
  {
    Vanishes(c.p, y - l * x - n)
  }

  /** What F(x) - b (l x + n)^2 has besides (x - x1)(x - x2)(x - x3). */
  function E1(c: CubicCurve, l: int, x1: int, x2: int, x3: int): int { x1 + x2 + x3 + c.a2 - c.b * (l * l) }

  function E2(c: CubicCurve, l: int, n: int, x1: int, x2: int, x3: int): int {
    x1 * x2 + x1 * x3 + x2 * x3 - c.a4 + 2 * (c.b * (l * n))
  }

  function E3(c: CubicCurve, n: int, x1: int, x2: int, x3: int): int { x1 * x2 * x3 + c.a6 - c.b * (n * n) }

  /** The line meets the curve in three points with these x coordinates, multiplicities counted: the coefficients of
      F(x) - b (l x + n)^2 are those of (x - x1)(x - x2)(x - x3). The constant ones agree if one of the points is on both. */
  ghost predicate Meets(c: CubicCurve, l: int, n: int, x1: int, x2: int, x3: int)
    requires 0 < c.p
  {
    Vanishes(c.p, E1(c, l, x1, x2, x3)) && Vanishes(c.p, E2(c, l, n, x1, x2, x3))
  }

  /** Three points on a line that is not vertical. */
  ghost predicate Collinear(c: CubicCurve, l: int, n: int, P: CubicPoint, Q: CubicPoint, R: CubicPoint)
    requires 0 < c.p && P.At? && Q.At? && R.At?
  {
    On(c, l, n, P.x, P.y) && On(c, l, n, Q.x, Q.y) && On(c, l, n, R.x, R.y) && Meets(c, l, n, P.x, Q.x, R.x)
  }

  /** The law of chords and tangents. */
  ghost predicate Adds(c: CubicCurve, P: CubicPoint, Q: CubicPoint, R: CubicPoint)
    requires 0 < c.p
  {
    if P.Zero? then R == Q
    else if Q.Zero? then R == P
    else if Q == Minus(c, P) then R == Zero
    else R.At? && exists l, n :: Collinear(c, l, n, P, Q, Minus(c, R))
  }

  // -------------------------------------------------------------------- lines and the curve

  lemma MinusIs(c: CubicCurve, P: CubicPoint)
    requires 0 < c.p && IsPoint(c, P)
    ensures IsPoint(c, Minus(c, P)) && Minus(c, Minus(c, P)) == P
    ensures P.At? ==> Vanishes(c.p, Minus(c, P).y + P.y)
  {
    if P.At? {
      var y, z := P.y, (0 - P.y) % c.p;
      CongMod(0 - y, c.p);
      DifferenceNonzero(c.p, 0 - y, z);
      assert z - (0 - y) == z + y;
      CongMod(0 - z, c.p);
      DifferenceNonzero(c.p, 0 - z, (0 - z) % c.p);
      var w := (0 - z) % c.p;
      assert w - (0 - z) == w + z;
      VanishSum(c.p, w + z, z + y);
      assert w + z - (z + y) == w - y;
      VanishSmall(c.p, w, y);
      SameSquare(c.p, c.b, c.F(P.x), y, z);
    }
  }

  lemma SameSquare(p: nat, b: int, f: int, y: int, z: int)
    requires 0 < p && Vanishes(p, z + y) && Vanishes(p, b * (y * y) - f)
    ensures Vanishes(p, b * (z * z) - f)
  {
    hide Vanishes;
    VanishTwo(p, b * (z - y), z + y, 1, b * (y * y) - f);
    ScaledDifference(b, z, 0 - y);
  }

  lemma Splits(c: CubicCurve, l: int, n: int, x1: int, x2: int, x3: int, x: int)
    ensures c.F(x) - c.b * ((l * x + n) * (l * x + n)) ==
            (x - x1) * (x - x2) * (x - x3) + x * x * E1(c, l, x1, x2, x3) - x * E2(c, l, n, x1, x2, x3) + E3(c, n, x1, x2, x3)
  {
    var q, u, v, w := x * x, c.b * (l * l), c.b * (l * n), c.b * (n * n);
    ThreeRoots(x, x1, x2, x3);
    assert c.b * ((l * x + n) * (l * x + n)) == u * q + 2 * (v * x) + w by { SquareOfLine(c.b, l, x, n); }
    var m := x1 * x2 + (x1 + x2) * x3;
    assert x1 * x2 + x1 * x3 + x2 * x3 == m;
    assert q * (x1 + x2 + x3 + c.a2 - u) == (x1 + x2 + x3) * q + c.a2 * q - u * q;
    assert x * (m - c.a4 + 2 * v) == m * x - c.a4 * x + 2 * (v * x);
    assert x * x * x == x * (x * x);
  }

  lemma SquareOfLine(b: int, l: int, x: int, n: int)
    ensures b * ((l * x + n) * (l * x + n)) == b * (l * l) * (x * x) + 2 * (b * (l * n) * x) + b * (n * n)
  {
    SquareOfSum(l, x, n);
    assert 2 * l * n * x == 2 * (l * n * x);
    Distribute(b, l * l * (x * x) + 2 * (l * n * x), n * n);
    Distribute(b, l * l * (x * x), 2 * (l * n * x));
    MulAssoc(b, l * l, x * x);
    MulAssoc(b, l * n, x);
  }

  /** A point on the line is on the curve just if F(x) - b (l x + n)^2 vanishes there. */
  lemma AtPoint(c: CubicCurve, l: int, n: int, x: int, y: int)
    requires 0 < c.p && On(c, l, n, x, y)
    ensures Vanishes(c.p, c.b * (y * y) - c.F(x)) <==> Vanishes(c.p, c.F(x) - c.b * ((l * x + n) * (l * x + n)))
  {
    hide Vanishes;
    var t, e, f := l * x + n, y - l * x - n, c.F(x);
    assert c.b * (y * y) - c.b * (t * t) == c.b * (y + t) * e by { ScaledDifference(c.b, y, t); }
    if Vanishes(c.p, c.b * (y * y) - f) {
      VanishTwo(c.p, 0 - 1, c.b * (y * y) - f, c.b * (y + t), e);
    }
    if Vanishes(c.p, f - c.b * (t * t)) {
      VanishTwo(c.p, 0 - 1, f - c.b * (t * t), c.b * (y + t), e);
    }
  }

  lemma ScaledDifference(b: int, y: int, t: int)
    ensures b * (y * y) - b * (t * t) == b * (y + t) * (y - t)
  {
    assert (y + t) * (y - t) == y * y - t * t;
    MulAssoc(b, y + t, y - t);
    Distribute(b, y * y, 0 - t * t);
  }

  /** The third coefficient agrees as well if one of the points is on the curve. */
  lemma Constant(c: CubicCurve, l: int, n: int, x1: int, y1: int, x2: int, x3: int)
    requires 0 < c.p && On(c, l, n, x1, y1) && Vanishes(c.p, c.b * (y1 * y1) - c.F(x1)) && Meets(c, l, n, x1, x2, x3)
    ensures Vanishes(c.p, E3(c, n, x1, x2, x3))
  {
    hide Vanishes, On, E1, E2, E3, CubicCurve.F;
    AtPoint(c, l, n, x1, y1);
    Splits(c, l, n, x1, x2, x3, x1);
    var g, e1, e2, e3 := c.F(x1) - c.b * ((l * x1 + n) * (l * x1 + n)), E1(c, l, x1, x2, x3), E2(c, l, n, x1, x2, x3), E3(c, n, x1, x2, x3);
    assert (x1 - x1) * (x1 - x2) * (x1 - x3) == 0;
    VanishThree(c.p, 1, g, 0 - x1 * x1, e1, x1, e2);
    ConstantTerm(g, x1, x1 * x1, e1, e2, e3);
  }

  lemma ConstantTerm(g: int, x: int, q: int, e1: int, e2: int, e3: int)
    requires g == q * e1 - x * e2 + e3
    ensures 1 * g + (0 - q) * e1 + x * e2 == e3
  {
  }

  /** A point of the line is on the curve just if its x coordinate is one of the three. */
  lemma OneOfThree(c: CubicCurve, l: int, n: int, x1: int, y1: int, x2: int, x3: int, x: int, y: int)
    requires 0 < c.p && On(c, l, n, x1, y1) && Vanishes(c.p, c.b * (y1 * y1) - c.F(x1)) && Meets(c, l, n, x1, x2, x3)
    requires On(c, l, n, x, y)
    ensures Vanishes(c.p, c.b * (y * y) - c.F(x)) <==> Vanishes(c.p, (x - x1) * (x - x2) * (x - x3))
  {
    hide Vanishes, On, E1, E2, E3, CubicCurve.F;
    Constant(c, l, n, x1, y1, x2, x3);
    AtPoint(c, l, n, x, y);
    Splits(c, l, n, x1, x2, x3, x);
    var g, t := c.F(x) - c.b * ((l * x + n) * (l * x + n)), (x - x1) * (x - x2) * (x - x3);
    var e1, e2, e3 := E1(c, l, x1, x2, x3), E2(c, l, n, x1, x2, x3), E3(c, n, x1, x2, x3);
    VanishThree(c.p, x * x, e1, 0 - x, e2, 1, e3);
    var e := x * x * e1 + (0 - x) * e2 + 1 * e3;
    assert g == t + e;
    if Vanishes(c.p, g) {
      VanishSum(c.p, g, e);
    }
    if Vanishes(c.p, t) {
      VanishSum(c.p, t, e);
    }
  }

  /** The slope satisfies the equations of the chord and of the tangent, whichever of them it is. */
  ghost predicate SlopeIs(c: CubicCurve, l: int, x1: int, y1: int, x2: int, y2: int)
    requires 0 < c.p
  {
    Vanishes(c.p, y2 - y1 - l * (x2 - x1)) && Vanishes(c.p, c.b * l * (y1 + y2) - c.Q(x1, x2))
  }

  lemma SlopeOfLine(c: CubicCurve, l: int, n: int, x1: int, y1: int, x2: int, y2: int, x3: int)
    requires 0 < c.p && On(c, l, n, x1, y1) && On(c, l, n, x2, y2) && Meets(c, l, n, x1, x2, x3)
    ensures SlopeIs(c, l, x1, y1, x2, y2)
  {
    hide Vanishes;
    var d1, d2 := y1 - l * x1 - n, y2 - l * x2 - n;
    VanishSum(c.p, d2, d1);
    Distribute(l, x2, 0 - x1);
    VanishSum(c.p, d1, d2);
    VanishThree(c.p, c.b * l, d1 + d2, 0 - (x1 + x2), E1(c, l, x1, x2, x3), 1, E2(c, l, n, x1, x2, x3));
    SlopeIdentity(c, l, n, x1, y1, x2, y2, x3);
  }

  lemma SlopeIdentity(c: CubicCurve, l: int, n: int, x1: int, y1: int, x2: int, y2: int, x3: int)
    ensures c.b * l * (y1 + y2) - c.Q(x1, x2) ==
            c.b * l * (y1 - l * x1 - n + (y2 - l * x2 - n)) + (0 - (x1 + x2)) * E1(c, l, x1, x2, x3) + 1 * E2(c, l, n, x1, x2, x3)
  {
    var t, u, k := x1 + x2, c.b * (l * l), c.b * l;
    assert y1 - l * x1 - n + (y2 - l * x2 - n) == y1 + y2 - l * t - 2 * n by { Distribute(l, x1, x2); }
    assert k * (y1 + y2 - l * t - 2 * n) == k * (y1 + y2) - u * t - 2 * (c.b * (l * n)) by {
      Distribute(k, y1 + y2 - l * t, 0 - 2 * n);
      Distribute(k, y1 + y2, 0 - l * t);
      MulAssoc(k, l, t);
      MulAssoc(c.b, l, l);
      MulAssoc(c.b, l, n);
    }
    assert t * (t + x3 + c.a2 - u) == t * t + t * x3 + c.a2 * t - u * t;
    assert t * t == x1 * x1 + 2 * (x1 * x2) + x2 * x2;
    assert t * x3 == x1 * x3 + x2 * x3;
  }

  /** Conversely, a slope and the third root that it gives make a line. */
  lemma LineOfSlope(c: CubicCurve, l: int, x1: int, y1: int, x2: int, y2: int, x3: int)
    requires 0 < c.p && SlopeIs(c, l, x1, y1, x2, y2) && Vanishes(c.p, E1(c, l, x1, x2, x3))
    ensures On(c, l, y1 - l * x1, x1, y1) && On(c, l, y1 - l * x1, x2, y2) && Meets(c, l, y1 - l * x1, x1, x2, x3)
  {
    hide Vanishes;
    var n, t := y1 - l * x1, x1 + x2;
    var d1, d2, e1 := y1 - l * x1 - n, y2 - l * x2 - n, E1(c, l, x1, x2, x3);
    var q := c.b * l * (y1 + y2) - c.Q(x1, x2);
    assert Vanishes(c.p, d1) by { VanishTimes(c.p, 0, e1); }
    assert d2 == y2 - y1 - l * (x2 - x1) by { Distribute(l, x2, 0 - x1); }
    assert E2(c, l, n, x1, x2, x3) == 1 * q + (0 - c.b * l) * d2 + t * e1 by {
      SlopeIdentity(c, l, n, x1, y1, x2, y2, x3);
      assert c.b * l * (d1 + d2) == c.b * l * d2;
      LastTermOf(q, c.b * l * d2, t, e1, E2(c, l, n, x1, x2, x3));
    }
    VanishThree(c.p, 1, q, 0 - c.b * l, d2, t, e1);
  }

  lemma LastTermOf(q: int, d: int, t: int, e1: int, e2: int)
    requires q == d + (0 - t) * e1 + 1 * e2
    ensures e2 == 1 * q - d + t * e1
  {
  }

  // ---------------------------------------------------------------------- collinear points

  lemma TurnedLine(c: CubicCurve, l: int, n: int, P: CubicPoint, Q: CubicPoint, R: CubicPoint)
    requires 0 < c.p && P.At? && Q.At? && R.At? && Collinear(c, l, n, P, Q, R)
    ensures Collinear(c, l, n, Q, P, R) && Collinear(c, l, n, Q, R, P) && Collinear(c, l, n, R, Q, P)
  {
    hide Vanishes, On;
    var x1, x2, x3 := P.x, Q.x, R.x;
    assert x1 * x2 + x1 * x3 + x2 * x3 == x2 * x1 + x2 * x3 + x1 * x3 == x2 * x3 + x2 * x1 + x3 * x1;
    assert x1 * x2 + x1 * x3 + x2 * x3 == x3 * x2 + x3 * x1 + x2 * x1;
  }

  lemma ReflectedPoint(c: CubicCurve, l: int, n: int, P: CubicPoint)
    requires 0 < c.p && IsPoint(c, P) && P.At? && On(c, l, n, P.x, P.y)
    ensures On(c, 0 - l, 0 - n, P.x, Minus(c, P).y)
  {
    hide Vanishes, Minus;
    MinusIs(c, P);
    MinusX(c, P);
    var z := Minus(c, P).y;
    VanishSum(c.p, z + P.y, P.y - l * P.x - n);
    assert (0 - l) * P.x == 0 - l * P.x;
  }

  lemma MinusX(c: CubicCurve, P: CubicPoint)
    requires 0 < c.p && P.At?
    ensures Minus(c, P).At? && Minus(c, P).x == P.x
  {
  }

  lemma ReflectedLine(c: CubicCurve, l: int, n: int, P: CubicPoint, Q: CubicPoint, R: CubicPoint)
    requires 0 < c.p && P.At? && Q.At? && R.At? && Collinear(c, l, n, P, Q, R)
    requires IsPoint(c, P) && IsPoint(c, Q) && IsPoint(c, R)
    ensures Minus(c, P).At? && Minus(c, Q).At? && Minus(c, R).At?
    ensures Collinear(c, 0 - l, 0 - n, Minus(c, P), Minus(c, Q), Minus(c, R))
  {
    hide Vanishes, On, Minus, IsPoint;
    MinusX(c, P);
    MinusX(c, Q);
    MinusX(c, R);
    ReflectedPoint(c, l, n, P);
    ReflectedPoint(c, l, n, Q);
    ReflectedPoint(c, l, n, R);
    assert (0 - l) * (0 - l) == l * l && (0 - l) * (0 - n) == l * n;
  }

  /** On a nonsingular curve no line but a vertical one passes through a point and its opposite. */
  lemma NotOpposite(c: CubicCurve, l: int, n: int, P: CubicPoint, Q: CubicPoint, R: CubicPoint)
    requires c.Valid() && IsPoint(c, P) && P.At? && Q.At? && R.At? && Collinear(c, l, n, P, Q, R)
    ensures Q != Minus(c, P)
  {
    hide Vanishes, Minus, IsPrime;
    if Q == Minus(c, P) {
      MinusIs(c, P);
      MinusX(c, P);
      var x, y, z := P.x, P.y, Q.y;
      SlopeOfLine(c, l, n, x, y, x, z, R.x);
      VanishTwo(c.p, c.b * l, z + y, 0 - 1, c.b * l * (y + z) - c.Q(x, x));
      assert c.b * l * (z + y) + (0 - 1) * (c.b * l * (y + z) - c.Q(x, x)) == c.Q(x, x);
      OnAxis(c, x, y, z, l);
      assert false;
    }
  }

  lemma OnAxis(c: CubicCurve, x: int, y: int, z: int, l: int)
    requires IsPrime(c.p) && 2 < c.p && Vanishes(c.p, z + y) && Vanishes(c.p, z - y - l * (x - x))
    requires Vanishes(c.p, c.b * (y * y) - c.F(x))
    ensures Vanishes(c.p, c.F(x))
  {
    hide Vanishes, IsPrime;
    VanishSum(c.p, z + y, z - y - l * (x - x));
    assert z + y - (z - y - l * (x - x)) == 2 * y;
    TwoVanishesNot(c.p);
    VanishFactor(c.p, 2, y);
    VanishTwo(c.p, c.b * y, y, 0 - 1, c.b * (y * y) - c.F(x));
    MulAssoc(c.b, y, y);
  }

  lemma TwoVanishesNot(p: nat)
    requires 2 < p
    ensures !Vanishes(p, 2)
  {
    SmallMod(2, p);
  }

  /** Three collinear points add up to zero. */
  lemma AddsFromLine(c: CubicCurve, l: int, n: int, P: CubicPoint, Q: CubicPoint, R: CubicPoint)
    requires c.Valid() && IsPoint(c, P) && IsPoint(c, Q) && IsPoint(c, R) && P.At? && Q.At? && R.At?
    requires Collinear(c, l, n, P, Q, R)
    ensures Adds(c, P, Q, Minus(c, R)) && Q != Minus(c, P)
  {
    hide Vanishes, Minus, Collinear, IsPoint;
    NotOpposite(c, l, n, P, Q, R);
    MinusIs(c, R);
    MinusX(c, R);
  }

  // ------------------------------------------------------------------ sums exist and are unique

  lemma DifferentX(c: CubicCurve, P: CubicPoint, Q: CubicPoint)
    requires c.Valid() && IsPoint(c, P) && IsPoint(c, Q) && P.At? && Q.At? && P.x != Q.x
    ensures !Vanishes(c.p, Q.x - P.x)
  {
    hide Vanishes, IsPrime;
    if Vanishes(c.p, Q.x - P.x) {
      VanishSmall(c.p, Q.x, P.x);
    }
  }

  lemma SameAbscissa(c: CubicCurve, P: CubicPoint, Q: CubicPoint)
    requires c.Valid() && IsPoint(c, P) && IsPoint(c, Q) && P.At? && Q.At? && P.x == Q.x
    ensures Q == P || Q == Minus(c, P)
    ensures Q == Minus(c, P) <==> Vanishes(c.p, P.y + Q.y)
  {
    hide Vanishes, IsPrime, Minus;
    var y, z := P.y, Q.y;
    MinusIs(c, P);
    MinusX(c, P);
    if Vanishes(c.p, y + z) {
      VanishSum(c.p, Minus(c, P).y + y, y + z);
      assert Minus(c, P).y + y - (y + z) == Minus(c, P).y - z;
      VanishSmall(c.p, Minus(c, P).y, z);
    } else {
      VanishSum(c.p, c.b * (y * y) - c.F(P.x), c.b * (z * z) - c.F(P.x));
      assert c.b * (y * y) - c.F(P.x) - (c.b * (z * z) - c.F(P.x)) == c.b * (y + z) * (y - z) by { ScaledDifference(c.b, y, z); }
      BNot(c);
      if Vanishes(c.p, c.b * (y + z)) {
        VanishFactor(c.p, c.b, y + z);
      }
      VanishFactor(c.p, c.b * (y + z), y - z);
      VanishSmall(c.p, y, z);
    }
  }

  lemma BNot(c: CubicCurve)
    requires c.Valid()
    ensures !Vanishes(c.p, c.b)
  {
  }

  lemma SlopeFor(c: CubicCurve, P: CubicPoint, Q: CubicPoint) returns (l: int)
    requires c.Valid() && IsPoint(c, P) && IsPoint(c, Q) && P.At? && Q.At? && Q != Minus(c, P)
    ensures SlopeIs(c, l, P.x, P.y, Q.x, Q.y)
  {
    hide Vanishes, IsPrime, Minus;
    var d := Q.x - P.x;
    if P.x == Q.x {
      SameAbscissa(c, P, Q);
      BNot(c);
      var t := c.b * (P.y + Q.y);
      if Vanishes(c.p, t) {
        VanishFactor(c.p, c.b, P.y + Q.y);
      }
      l := QuotientFor(c.p, t, c.Q(P.x, Q.x));
      MulAssoc(c.b, l, P.y + Q.y);
      VanishTimes(c.p, 0, l * t - c.Q(P.x, Q.x));
      assert Q.y - P.y - l * d == 0;
    } else {
      DifferentX(c, P, Q);
      l := QuotientFor(c.p, d, Q.y - P.y);
      VanishTimes(c.p, 0 - 1, l * d - (Q.y - P.y));
      ChordIsTangentToo(c, l, P.x, P.y, Q.x, Q.y);
    }
  }

  lemma QuotientFor(p: nat, d: int, n: int) returns (q: int)
    requires IsPrime(p) && !Vanishes(p, d)
    ensures Vanishes(p, q * d - n)
  {
    hide IsPrime;
    PrimePositive(p);
    q := SlopeExists(p, d, n);
    DifferenceNonzero(p, n, q * d);
    Flip(p, n, q * d);
  }

  lemma ChordIsTangentToo(c: CubicCurve, l: int, x1: int, y1: int, x2: int, y2: int)
    requires IsPrime(c.p) && !Vanishes(c.p, x2 - x1) && Vanishes(c.p, y2 - y1 - l * (x2 - x1))
    requires Vanishes(c.p, c.b * (y1 * y1) - c.F(x1)) && Vanishes(c.p, c.b * (y2 * y2) - c.F(x2))
    ensures Vanishes(c.p, c.b * l * (y1 + y2) - c.Q(x1, x2))
  {
    hide Vanishes, IsPrime;
    PrimePositive(c.p);
    var d, e := x2 - x1, c.b * l * (y1 + y2) - c.Q(x1, x2);
    var w := y2 - y1 - l * d;
    VanishThree(c.p, 0 - c.b * (y1 + y2), w, 1, c.b * (y2 * y2) - c.F(x2), 0 - 1, c.b * (y1 * y1) - c.F(x1));
    ChordIdentity(c, l, x1, y1, x2, y2);
    VanishFactor(c.p, d, e);
  }

  lemma ChordIdentity(c: CubicCurve, l: int, x1: int, y1: int, x2: int, y2: int)
    ensures (x2 - x1) * (c.b * l * (y1 + y2) - c.Q(x1, x2)) ==
            (0 - c.b * (y1 + y2)) * (y2 - y1 - l * (x2 - x1)) + 1 * (c.b * (y2 * y2) - c.F(x2)) + (0 - 1) * (c.b * (y1 * y1) - c.F(x1))
  {
    var d, t := x2 - x1, y1 + y2;
    DifferenceOfValues(c, x1, x2);
    var k := c.b * t;
    assert c.b * (y2 * y2) - c.b * (y1 * y1) == k * (y2 - y1) by { ScaledDifference(c.b, y2, y1); }
    assert d * (c.b * l * t) == k * (l * d) by { FourFactors(d, c.b, l, t); }
    assert d * (c.b * l * t - c.Q(x1, x2)) == k * (l * d) - d * c.Q(x1, x2) by { Distribute(d, c.b * l * t, 0 - c.Q(x1, x2)); }
    assert (0 - k) * (y2 - y1 - l * d) == k * (l * d) - k * (y2 - y1) by { Distribute(k, y2 - y1, 0 - l * d); }
  }

  lemma FourFactors(d: int, b: int, l: int, t: int)
    ensures d * (b * l * t) == b * t * (l * d)
  {
    MulAssoc(b, l, t);
    MulAssoc(b, t, l);
    MulAssoc(d, b * t, l);
    MulAssoc(b * t, l, d);
  }

  lemma DifferenceOfValues(c: CubicCurve, x: int, u: int)
    ensures c.F(u) - c.F(x) == (u - x) * c.Q(x, u)
  {
    var d, m := u - x, x * x + x * u + u * u;
    var s, t := c.a2 * (x + u), c.a4;
    assert d * m == u * (u * u) - x * (x * x) by { DifferenceOfCubes(x, u); }
    assert d * s == c.a2 * (u * u) - c.a2 * (x * x) by { ScaledSquares(c.a2, x, u); }
    assert d * t == t * u - t * x by { Distribute(t, u, 0 - x); }
    assert d * (m + s + t) == d * m + d * s + d * t by { Distribute(d, m + s, t); Distribute(d, m, s); }
  }

  lemma ScaledSquares(k: int, x: int, u: int)
    ensures (u - x) * (k * (x + u)) == k * (u * u) - k * (x * x)
  {
    assert (u - x) * (x + u) == u * u - x * x;
    MulAssoc(u - x, k, x + u);
    Distribute(k, u * u, 0 - x * x);
  }

  lemma DifferenceOfCubes(x: int, u: int)
    ensures (u - x) * (x * x + x * u + u * u) == u * (u * u) - x * (x * x)
  {
    var q, m, r := x * x, x * u, u * u;
    assert (u - x) * (q + m + r) == u * q + u * m + u * r - x * q - x * m - x * r;
    assert u * q == x * m && u * m == x * r by { MulAssoc(u, x, x); MulAssoc(u, x, u); }
  }

  lemma ReducedFrom(p: nat, v: int) returns (x: int)
    requires 0 < p
    ensures 0 <= x < p && Vanishes(p, x - v)
  {
    x := v % p;
    CongMod(v, p);
    DifferenceNonzero(p, v, x);
    Flip(p, v, x);
  }

  /** The third point on the line through two points that are not opposite. */
  lemma ThirdPoint(c: CubicCurve, P: CubicPoint, Q: CubicPoint) returns (l: int, n: int, N: CubicPoint)
    requires c.Valid() && IsPoint(c, P) && IsPoint(c, Q) && P.At? && Q.At? && Q != Minus(c, P)
    ensures N.At? && IsPoint(c, N) && Collinear(c, l, n, P, Q, N)
  {
    hide Vanishes, IsPrime, Minus;
    l := SlopeFor(c, P, Q);
    n := P.y - l * P.x;
    var x := ReducedFrom(c.p, c.b * (l * l) - c.a2 - P.x - Q.x);
    assert x - (c.b * (l * l) - c.a2 - P.x - Q.x) == E1(c, l, P.x, Q.x, x);
    LineOfSlope(c, l, P.x, P.y, Q.x, Q.y, x);
    var y := ReducedFrom(c.p, l * x + n);
    assert y - (l * x + n) == y - l * x - n;
    VanishTimes(c.p, 0, y - l * x - n);
    assert (x - P.x) * (x - Q.x) * (x - x) == 0;
    OneOfThree(c, l, n, P.x, P.y, Q.x, x, x, y);
    N := At(x, y);
  }

  lemma AddsExists(c: CubicCurve, P: CubicPoint, Q: CubicPoint)
    requires c.Valid() && IsPoint(c, P) && IsPoint(c, Q)
    ensures exists R: CubicPoint :: IsPoint(c, R) && Adds(c, P, Q, R)
  {
    hide Vanishes, IsPrime, Minus, Collinear;
    if P.Zero? {
      assert Adds(c, P, Q, Q);
    } else if Q.Zero? {
      assert Adds(c, P, Q, P);
    } else if Q == Minus(c, P) {
      assert Adds(c, P, Q, Zero) && IsPoint(c, Zero);
    } else {
      var l, n, N := ThirdPoint(c, P, Q);
      MinusIs(c, N);
      MinusX(c, N);
      assert Adds(c, P, Q, Minus(c, N));
    }
  }

  lemma SlopeUnique(c: CubicCurve, l: int, m: int, P: CubicPoint, Q: CubicPoint)
    requires c.Valid() && IsPoint(c, P) && IsPoint(c, Q) && P.At? && Q.At? && Q != Minus(c, P)
    requires SlopeIs(c, l, P.x, P.y, Q.x, Q.y) && SlopeIs(c, m, P.x, P.y, Q.x, Q.y)
    ensures Vanishes(c.p, l - m)
  {
    hide Vanishes, IsPrime, Minus;
    var d, t := Q.x - P.x, P.y + Q.y;
    if P.x == Q.x {
      SameAbscissa(c, P, Q);
      BNot(c);
      if Vanishes(c.p, c.b * t) {
        VanishFactor(c.p, c.b, t);
      }
      VanishSum(c.p, c.b * l * t - c.Q(P.x, Q.x), c.b * m * t - c.Q(P.x, Q.x));
      assert c.b * l * t - c.b * m * t == c.b * t * (l - m) by { SlopesApart(c.b, l, m, t); }
      VanishFactor(c.p, c.b * t, l - m);
    } else {
      DifferentX(c, P, Q);
      VanishSum(c.p, Q.y - P.y - m * d, Q.y - P.y - l * d);
      assert Q.y - P.y - m * d - (Q.y - P.y - l * d) == d * (l - m) by { Distribute(d, l, 0 - m); }
      VanishFactor(c.p, d, l - m);
    }
  }

  lemma SlopesApart(b: int, l: int, m: int, t: int)
    ensures b * l * t - b * m * t == b * t * (l - m)
  {
    MulAssoc(b, l, t);
    MulAssoc(b, t, l);
    MulAssoc(b, m, t);
    MulAssoc(b, t, m);
    Distribute(b * t, l, 0 - m);
  }

  /** The third point is unique. */
  lemma ThirdUnique(c: CubicCurve, l: int, n: int, m: int, k: int, P: CubicPoint, Q: CubicPoint, N: CubicPoint, N': CubicPoint)
    requires c.Valid() && IsPoint(c, P) && IsPoint(c, Q) && P.At? && Q.At?
    requires IsPoint(c, N) && IsPoint(c, N') && N.At? && N'.At?
    requires Collinear(c, l, n, P, Q, N) && Collinear(c, m, k, P, Q, N')
    ensures N == N'
  {
    hide Vanishes, IsPrime, Minus;
    NotOpposite(c, l, n, P, Q, N);
    SlopeOfLine(c, l, n, P.x, P.y, Q.x, Q.y, N.x);
    SlopeOfLine(c, m, k, P.x, P.y, Q.x, Q.y, N'.x);
    SlopeUnique(c, l, m, P, Q);
    assert Vanishes(c.p, N.x - N'.x) by {
      VanishThree(c.p, 1, E1(c, l, P.x, Q.x, N.x), 0 - 1, E1(c, m, P.x, Q.x, N'.x), c.b * (l + m), l - m);
      assert c.b * (l * l) - c.b * (m * m) == c.b * (l + m) * (l - m) by { ScaledDifference(c.b, l, m); }
    }
    VanishSmall(c.p, N.x, N'.x);
    assert Vanishes(c.p, N.y - N'.y) by {
      var x := N.x;
      VanishThree(c.p, 1, P.y - m * P.x - k, 0 - 1, P.y - l * P.x - n, P.x, m - l) by { VanishTimes(c.p, 0 - 1, l - m); }
      assert n - k == 1 * (P.y - m * P.x - k) + (0 - 1) * (P.y - l * P.x - n) + P.x * (m - l) by { Distribute(P.x, m, 0 - l); }
      VanishThree(c.p, 1, N.y - l * x - n, 0 - 1, N'.y - m * x - k, x, l - m);
      VanishSum(c.p, 1 * (N.y - l * x - n) + (0 - 1) * (N'.y - m * x - k) + x * (l - m), n - k);
      Distribute(x, l, 0 - m);
    }
    VanishSmall(c.p, N.y, N'.y);
  }

  lemma AddsUnique(c: CubicCurve, P: CubicPoint, Q: CubicPoint, R: CubicPoint, R': CubicPoint)
    requires c.Valid() && IsPoint(c, P) && IsPoint(c, Q) && IsPoint(c, R) && IsPoint(c, R')
    requires Adds(c, P, Q, R) && Adds(c, P, Q, R')
    ensures R == R'
  {
    hide Vanishes, IsPrime, Minus, Collinear, CubicCurve.Valid, IsPoint;
    Positive(c);
    if P.At? && Q.At? && Q != Minus(c, P) {
      MinusIs(c, R);
      MinusIs(c, R');
      MinusX(c, R);
      MinusX(c, R');
      var l, n :| Collinear(c, l, n, P, Q, Minus(c, R));
      var m, k :| Collinear(c, m, k, P, Q, Minus(c, R'));
      ThirdUnique(c, l, n, m, k, P, Q, Minus(c, R), Minus(c, R'));
    }
  }

  lemma AddsCommutes(c: CubicCurve, P: CubicPoint, Q: CubicPoint, R: CubicPoint)
    requires 0 < c.p && IsPoint(c, P) && IsPoint(c, Q) && Adds(c, P, Q, R)
    ensures Adds(c, Q, P, R)
  {
    hide Vanishes, Minus, Collinear, IsPoint;
    if P.At? && Q.At? {
      MinusIs(c, P);
      MinusIs(c, Q);
      if Q != Minus(c, P) {
        MinusX(c, R);
        var l, n :| Collinear(c, l, n, P, Q, Minus(c, R));
        TurnedLine(c, l, n, P, Q, Minus(c, R));
      }
    }
  }

  /** What was added can be taken off again. */
  lemma Cancels(c: CubicCurve, P: CubicPoint, Q: CubicPoint, R: CubicPoint)
    requires c.Valid() && IsPoint(c, P) && IsPoint(c, Q) && IsPoint(c, R) && Adds(c, P, Q, R)
    ensures IsPoint(c, Minus(c, Q)) && Adds(c, R, Minus(c, Q), P)
  {
    hide Vanishes, IsPrime, Minus, Collinear, CubicCurve.Valid, IsPoint;
    Positive(c);
    MinusIs(c, P);
    MinusIs(c, Q);
    MinusIs(c, R);
    MinusZero(c, Q);
    if P.At? && Q.At? && Q != Minus(c, P) {
      MinusX(c, P);
      MinusX(c, Q);
      MinusX(c, R);
      var l, n :| Collinear(c, l, n, P, Q, Minus(c, R));
      ReflectedLine(c, l, n, P, Q, Minus(c, R));
      TurnedLine(c, 0 - l, 0 - n, Minus(c, P), Minus(c, Q), R);
      AddsFromLine(c, 0 - l, 0 - n, R, Minus(c, Q), Minus(c, P));
    }
  }

  lemma MinusZero(c: CubicCurve, P: CubicPoint)
    requires 0 < c.p
    ensures Minus(c, P).Zero? <==> P.Zero?
  {
  }

  // ----------------------------------------------------------------------- associativity

  /** x^2 + h1 x + h0 + hy y. The two lines that make up (P + Q) + R are the zeros of such a function, and of x - x(P + Q):
      it vanishes at P, Q, R and the opposite of the sum. */
  datatype Conic = Conic(h1: int, h0: int, hy: int) {
    function Value(x: int, y: int): int { x * x + h1 * x + h0 + hy * y }
  }

  function ConicOf(c: CubicCurve, l: int, m: int, x: int, y: int): Conic {
    Conic(x + c.a2 + c.b * (l * m), x * x + c.a2 * x + c.a4 + c.b * (y * (l - m)) - c.b * (l * m) * x, 0 - c.b * (l + m))
  }

  /** On the line it vanishes at x1 and x2, and if these are the same, twice. */
  ghost predicate Through(c: CubicCurve, h: Conic, l: int, n: int, x1: int, x2: int)
    requires 0 < c.p
  {
    Vanishes(c.p, h.h1 + h.hy * l + x1 + x2) && Vanishes(c.p, h.h0 + h.hy * n - x1 * x2)
  }

  lemma ConicFirst(c: CubicCurve, l: int, n: int, m: int, x: int, y: int, x1: int, x2: int)
    requires 0 < c.p && Vanishes(c.p, 0 - y - l * x - n) && Meets(c, l, n, x1, x2, x)
    ensures Through(c, ConicOf(c, l, m, x, y), l, n, x1, x2)
  {
    hide Vanishes;
    var h, e, e1, e2 := ConicOf(c, l, m, x, y), 0 - y - l * x - n, E1(c, l, x1, x2, x), E2(c, l, n, x1, x2, x);
    assert h.h1 + h.hy * l + x1 + x2 == e1 by { FirstCoefficient(c.b, l, m); }
    VanishThree(c.p, x, e1, 0 - 1, e2, 0 - c.b * (l - m), e);
    SecondCoefficient(c, l, n, m, x, y, x1, x2);
  }

  lemma FirstCoefficient(b: int, l: int, m: int)
    ensures b * (l * m) + (0 - b * (l + m)) * l == 0 - b * (l * l)
  {
    assert (l + m) * l == l * l + l * m;
    MulAssoc(b, l + m, l);
    Distribute(b, l * l, l * m);
  }

  lemma SecondCoefficient(c: CubicCurve, l: int, n: int, m: int, x: int, y: int, x1: int, x2: int)
    ensures var h := ConicOf(c, l, m, x, y);
            h.h0 + h.hy * n - x1 * x2 ==
            x * E1(c, l, x1, x2, x) + (0 - 1) * E2(c, l, n, x1, x2, x) + (0 - c.b * (l - m)) * (0 - y - l * x - n)
  {
    var b := c.b;
    var u, v, ll := b * (l * m) * x, b * (l * n), b * (l * l) * x;
    assert (0 - b * (l + m)) * n == 0 - v - b * (m * n) by {
      Distribute(n, l, m);
      MulAssoc(b, l + m, n);
      Distribute(b, l * n, m * n);
    }
    assert (0 - b * (l - m)) * (0 - y - l * x - n) == b * (y * (l - m)) + ll - u + v - b * (m * n) by { CrossLines(b, l, m, x, y, n); }
    assert x * (x1 + x2 + x + c.a2 - b * (l * l)) == x1 * x + x2 * x + x * x + c.a2 * x - ll;
  }

  lemma CrossLines(b: int, l: int, m: int, x: int, y: int, n: int)
    ensures (0 - b * (l - m)) * (0 - y - l * x - n) ==
            b * (y * (l - m)) + b * (l * l) * x - b * (l * m) * x + b * (l * n) - b * (m * n)
  {
    var d, t := l - m, y + l * x + n;
    assert (0 - b * d) * (0 - t) == b * (d * t) by { MulAssoc(b, d, t); }
    assert d * t == y * d + l * l * x - l * m * x + l * n - m * n by {
      Distribute(d, y + l * x, n);
      Distribute(d, y, l * x);
      Distribute(l * x, l, 0 - m);
      MulAssoc(l, l, x);
      MulAssoc(m, l, x);
      Distribute(n, l, 0 - m);
    }
    FiveProducts(b, y * d, l * l * x, l * m * x, l * n, m * n);
    MulAssoc(b, l * l, x);
    MulAssoc(b, l * m, x);
  }

  lemma FiveProducts(b: int, e: int, f: int, g: int, h: int, i: int)
    ensures b * (e + f - g + h - i) == b * e + b * f - b * g + b * h - b * i
  {
  }

  lemma ConicSecond(c: CubicCurve, l: int, m: int, r: int, x: int, y: int, x1: int, x2: int)
    requires 0 < c.p && Vanishes(c.p, y - m * x - r) && Meets(c, m, r, x1, x2, x)
    ensures Through(c, ConicOf(c, l, m, x, y), m, r, x1, x2)
  {
    hide Vanishes, Meets, Through;
    assert 0 - (0 - y) - m * x - r == y - m * x - r;
    ConicFirst(c, m, r, l, x, 0 - y, x1, x2);
    assert (0 - y) * (m - l) == y * (l - m);
    assert m * l == l * m && m + l == l + m;
    assert ConicOf(c, m, l, x, 0 - y) == ConicOf(c, l, m, x, y);
  }

  lemma ConicAt(c: CubicCurve, h: Conic, l: int, n: int, x1: int, y1: int, x2: int)
    requires 0 < c.p && Through(c, h, l, n, x1, x2) && On(c, l, n, x1, y1)
    ensures Vanishes(c.p, h.Value(x1, y1))
  {
    hide Vanishes;
    VanishThree(c.p, x1, h.h1 + h.hy * l + x1 + x2, 1, h.h0 + h.hy * n - x1 * x2, h.hy, y1 - l * x1 - n);
    ConicIdentity(h, l, n, x1, y1, x2);
  }

  lemma ConicIdentity(h: Conic, l: int, n: int, x1: int, y1: int, x2: int)
    ensures h.Value(x1, y1) ==
            x1 * (h.h1 + h.hy * l + x1 + x2) + 1 * (h.h0 + h.hy * n - x1 * x2) + h.hy * (y1 - l * x1 - n)
  {
    var k := h.hy;
    assert x1 * (h.h1 + k * l + x1 + x2) == h.h1 * x1 + k * l * x1 + x1 * x1 + x1 * x2;
    assert k * (y1 - l * x1 - n) == k * y1 - k * l * x1 - k * n by {
      Distribute(k, y1 - l * x1, 0 - n);
      Distribute(k, y1, 0 - l * x1);
      MulAssoc(k, l, x1);
    }
  }

  /** Two different zeros on a line. */
  lemma ThroughTwo(c: CubicCurve, g: Conic, l: int, n: int, x1: int, y1: int, x2: int, y2: int)
    requires IsPrime(c.p) && !Vanishes(c.p, x2 - x1) && On(c, l, n, x1, y1) && On(c, l, n, x2, y2)
    requires Vanishes(c.p, g.Value(x1, y1)) && Vanishes(c.p, g.Value(x2, y2))
    ensures Through(c, g, l, n, x1, x2)
  {
    hide Vanishes, IsPrime;
    PrimePositive(c.p);
    var t, w := g.h1 + g.hy * l + x1 + x2, g.h0 + g.hy * n - x1 * x2;
    assert g.h1 + g.hy * l + x2 + x1 == t && g.h0 + g.hy * n - x2 * x1 == w;
    ZeroOnLine(c, g, l, n, x1, y1, x2);
    ZeroOnLine(c, g, l, n, x2, y2, x1);
    VanishSum(c.p, x2 * t + w, x1 * t + w);
    assert x2 * t + w - (x1 * t + w) == (x2 - x1) * t by { Distribute(t, x2, 0 - x1); }
    VanishFactor(c.p, x2 - x1, t);
    VanishTwo(c.p, 1, x1 * t + w, 0 - x1, t);
    assert 1 * (x1 * t + w) + (0 - x1) * t == w;
  }

  lemma ZeroOnLine(c: CubicCurve, g: Conic, l: int, n: int, x1: int, y1: int, x2: int)
    requires 0 < c.p && On(c, l, n, x1, y1) && Vanishes(c.p, g.Value(x1, y1))
    ensures Vanishes(c.p, x1 * (g.h1 + g.hy * l + x1 + x2) + (g.h0 + g.hy * n - x1 * x2))
  {
    hide Vanishes, Conic.Value;
    ConicIdentity(g, l, n, x1, y1, x2);
    VanishTwo(c.p, 1, g.Value(x1, y1), 0 - g.hy, y1 - l * x1 - n);
    assert (0 - g.hy) * (y1 - l * x1 - n) == 0 - g.hy * (y1 - l * x1 - n);
  }

  /** A double zero: the line of slope l is the tangent at (x, y), and g is made of the lines of slopes s and k that join
      this point to its sum with another. */
  lemma ThroughTangent(c: CubicCurve, s: int, k: int, l: int, x: int, y: int, u: int, v: int)
    requires IsPrime(c.p) && !Vanishes(c.p, u - x)
    requires Vanishes(c.p, v + y + s * (u - x)) && Vanishes(c.p, v - y - k * (u - x))
    requires Vanishes(c.p, c.b * (y * y) - c.F(x)) && Vanishes(c.p, c.b * (v * v) - c.F(u))
    requires Vanishes(c.p, c.b * l * (y + y) - c.Q(x, x))
    ensures Vanishes(c.p, u + c.a2 + c.b * (s * k) + (0 - c.b * (s + k)) * l + x + x)
  {
    hide Vanishes, IsPrime;
    PrimePositive(c.p);
    var d, b := u - x, c.b;
    var i, j := v + y + s * d, v - y - k * d;
    var w1 := b * (s * k) * d + c.Q(x, u);
    assert Vanishes(c.p, w1) by {
      VanishTwo(c.p, b * (v - y), i, 0 - b * (s * d), j);
      VanishSum(c.p, b * (y * y) - c.F(x), b * (v * v) - c.F(u));
      VanishSum(c.p, b * (y * y) - c.F(x) - (b * (v * v) - c.F(u)), b * (v - y) * i + (0 - b * (s * d)) * j);
      DifferenceOfValues(c, x, u);
      ProductOfLines(b, s, k, d, y, v);
      assert d * w1 == b * (s * k * (d * d)) + d * c.Q(x, u) by { SquareOut(b, s * k, d); Distribute(d, b * (s * k) * d, c.Q(x, u)); }
      VanishFactor(c.p, d, w1);
    }
    var z := u + c.a2 + b * (s * k) + (0 - b * (s + k)) * l + x + x;
    var q := b * l * (y + y) - c.Q(x, x);
    VanishSum(c.p, i, j);
    VanishThree(c.p, 1, w1, 0 - b * l, i - j, 1, q);
    TangentSum(c, s, k, l, x, y, u, v);
    VanishFactor(c.p, d, z);
  }

  lemma SquareOut(b: int, m: int, d: int)
    ensures d * (b * m * d) == b * (m * (d * d))
  {
    MulAssoc(b, m, d);
    MulAssoc(d, b, m * d);
    MulAssoc(m, d, d);
  }

  lemma ProductOfLines(b: int, s: int, k: int, d: int, y: int, v: int)
    ensures b * (v - y) * (v + y + s * d) + (0 - b * (s * d)) * (v - y - k * d) == b * (v * v) - b * (y * y) + b * (s * k * (d * d))
  {
    var t, m := s * d, v - y;
    assert b * m * (v + y + t) == b * (v * v) - b * (y * y) + b * (m * t) by {
      ScaledDifference(b, v, y);
      Distribute(b * m, v + y, t);
      MulAssoc(b, m, t);
      MulAssoc(b, v + y, m);
      MulAssoc(b, m, v + y);
    }
    assert (0 - b * t) * (m - k * d) == 0 - b * (m * t) + b * (s * k * (d * d)) by {
      Distribute(b * t, m, 0 - k * d);
      MulAssoc(b, t, m);
      MulAssoc(b, t, k * d);
      Regroup4(s, d, k, d);
    }
  }

  lemma TangentSum(c: CubicCurve, s: int, k: int, l: int, x: int, y: int, u: int, v: int)
    ensures var d, b := u - x, c.b;
            d * (u + c.a2 + b * (s * k) + (0 - b * (s + k)) * l + x + x) ==
            1 * (b * (s * k) * d + c.Q(x, u)) + (0 - b * l) * (v + y + s * d - (v - y - k * d)) + 1 * (b * l * (y + y) - c.Q(x, x))
  {
    var d, b := u - x, c.b;
    assert c.Q(x, u) == c.Q(x, x) + d * (u + x + x + c.a2) by { QShift(c, x, u); }
    assert v + y + s * d - (v - y - k * d) == y + y + (s + k) * d by { Distribute(d, s, k); }
    assert (0 - b * l) * (y + y + (s + k) * d) == 0 - b * l * (y + y) - b * (s + k) * l * d by {
      Distribute(b * l, y + y, (s + k) * d);
      MulAssoc(b * l, s + k, d);
      MulAssoc(b, l, s + k);
      MulAssoc(b, s + k, l);
    }
    var e, f := b * (s * k), b * (s + k) * l;
    assert d * (u + c.a2 + e - f + x + x) == d * (u + x + x + c.a2) + e * d - f * d;
  }

  lemma QShift(c: CubicCurve, x: int, u: int)
    ensures c.Q(x, u) == c.Q(x, x) + (u - x) * (u + x + x + c.a2)
  {
    var d := u - x;
    assert d * (u + x + x) == u * u + x * u - 2 * (x * x);
    assert d * (u + x + x + c.a2) == d * (u + x + x) + c.a2 * d by { Distribute(d, u + x + x, c.a2); }
    assert c.a2 * (x + u) == c.a2 * (x + x) + c.a2 * d by { Distribute(c.a2, x + x, d); }
  }

  /** Two such functions with the same zeros on a line agree if they have another zero in common. */
  lemma ConicsAgree(c: CubicCurve, h: Conic, g: Conic, l: int, n: int, x1: int, x2: int, x3: int, y3: int)
    requires IsPrime(c.p) && Through(c, h, l, n, x1, x2) && Through(c, g, l, n, x1, x2) && !On(c, l, n, x3, y3)
    requires Vanishes(c.p, h.Value(x3, y3)) && Vanishes(c.p, g.Value(x3, y3))
    ensures Vanishes(c.p, h.h1 - g.h1) && Vanishes(c.p, h.h0 - g.h0) && Vanishes(c.p, h.hy - g.hy)
  {
    hide Vanishes, IsPrime, Conic.Value;
    PrimePositive(c.p);
    var u, v, w := h.h1 - g.h1, h.h0 - g.h0, h.hy - g.hy;
    FirstDifference(c.p, h.h1, h.hy, g.h1, g.hy, l, x1, x2);
    SecondDifference(c.p, h.h0, h.hy, g.h0, g.hy, n, x1 * x2);
    ValueDifference(c.p, h, g, x3, y3);
    ThreeEquations(c.p, u, v, w, l, n, x3, y3);
  }

  lemma FirstDifference(p: nat, a: int, k: int, b: int, j: int, l: int, x1: int, x2: int)
    requires 0 < p && Vanishes(p, a + k * l + x1 + x2) && Vanishes(p, b + j * l + x1 + x2)
    ensures Vanishes(p, a - b + (k - j) * l)
  {
    VanishSum(p, a + k * l + x1 + x2, b + j * l + x1 + x2);
    Distribute(l, k, 0 - j);
  }

  lemma SecondDifference(p: nat, a: int, k: int, b: int, j: int, n: int, m: int)
    requires 0 < p && Vanishes(p, a + k * n - m) && Vanishes(p, b + j * n - m)
    ensures Vanishes(p, a - b + (k - j) * n)
  {
    VanishSum(p, a + k * n - m, b + j * n - m);
    Distribute(n, k, 0 - j);
  }

  lemma ValueDifference(p: nat, h: Conic, g: Conic, x: int, y: int)
    requires 0 < p && Vanishes(p, h.Value(x, y)) && Vanishes(p, g.Value(x, y))
    ensures Vanishes(p, (h.h1 - g.h1) * x + (h.h0 - g.h0) + (h.hy - g.hy) * y)
  {
    VanishSum(p, h.Value(x, y), g.Value(x, y));
    Distribute(x, h.h1, 0 - g.h1);
    Distribute(y, h.hy, 0 - g.hy);
  }

  lemma ThreeEquations(p: nat, u: int, v: int, w: int, l: int, n: int, x: int, y: int)
    requires IsPrime(p) && Vanishes(p, u + w * l) && Vanishes(p, v + w * n) && Vanishes(p, u * x + v + w * y)
    requires !Vanishes(p, y - l * x - n)
    ensures Vanishes(p, u) && Vanishes(p, v) && Vanishes(p, w)
  {
    hide Vanishes, IsPrime;
    PrimePositive(p);
    VanishThree(p, 1, u * x + v + w * y, 0 - x, u + w * l, 0 - 1, v + w * n);
    LinesApart(u, v, w, l, n, x, y);
    VanishFactor(p, y - l * x - n, w);
    VanishTwo(p, 1, u + w * l, 0 - l, w);
    VanishTwo(p, 1, v + w * n, 0 - n, w);
    assert 1 * (u + w * l) + (0 - l) * w == u && 1 * (v + w * n) + (0 - n) * w == v;
  }

  lemma LinesApart(u: int, v: int, w: int, l: int, n: int, x: int, y: int)
    ensures 1 * (u * x + v + w * y) + (0 - x) * (u + w * l) + (0 - 1) * (v + w * n) == (y - l * x - n) * w
  {
    assert (0 - x) * (u + w * l) == 0 - u * x - w * l * x by { Distribute(x, u, w * l); }
    assert (y - l * x - n) * w == w * y - l * x * w - w * n by { Distribute(w, y - l * x, 0 - n); Distribute(w, y, 0 - l * x); }
    assert w * l * x == l * x * w by { MulAssoc(w, l, x); }
  }

  /** The sum of the slopes is not 0 if the third point has another x than the first two. */
  lemma HasY(c: CubicCurve, h: Conic, l: int, n: int, x1: int, x2: int, x3: int, y3: int)
    requires IsPrime(c.p) && Through(c, h, l, n, x1, x2) && Vanishes(c.p, h.Value(x3, y3))
    requires !Vanishes(c.p, x3 - x1) && !Vanishes(c.p, x3 - x2)
    ensures !Vanishes(c.p, h.hy)
  {
    hide Vanishes, IsPrime;
    PrimePositive(c.p);
    if Vanishes(c.p, h.hy) {
      var t, w, k := h.h1 + h.hy * l + x1 + x2, h.h0 + h.hy * n - x1 * x2, h.hy;
      VanishTwo(c.p, x3, t, 1, w);
      VanishTwo(c.p, 1, h.Value(x3, y3), l * x3 + n - y3, k);
      VanishSum(c.p, 1 * h.Value(x3, y3) + (l * x3 + n - y3) * k, x3 * t + 1 * w);
      RootsOfConic(h, l, n, x1, x2, x3, y3);
      VanishFactor(c.p, x3 - x1, x3 - x2);
    }
  }

  lemma RootsOfConic(h: Conic, l: int, n: int, x1: int, x2: int, x3: int, y3: int)
    ensures 1 * h.Value(x3, y3) + (l * x3 + n - y3) * h.hy
            - (x3 * (h.h1 + h.hy * l + x1 + x2) + 1 * (h.h0 + h.hy * n - x1 * x2)) == (x3 - x1) * (x3 - x2)
  {
    var k := h.hy;
    assert (l * x3 + n - y3) * k == k * l * x3 + k * n - k * y3 by {
      Distribute(k, l * x3 + n, 0 - y3);
      Distribute(k, l * x3, n);
      MulAssoc(k, l, x3);
    }
    assert x3 * (h.h1 + k * l + x1 + x2) == h.h1 * x3 + k * l * x3 + x1 * x3 + x2 * x3;
    TwoRoots(x3, x1, x2);
  }

  /** The fourth zero is determined by the function and the other three. */
  lemma FourthX(c: CubicCurve, l: int, m: int, s: int, k: int, xa: int, ya: int, xc: int, yc: int,
                x1: int, x2: int, x3: int, x: int, x': int)
    requires IsPrime(c.p) && !Vanishes(c.p, c.b)
    requires Vanishes(c.p, E1(c, l, x1, x2, xa)) && Vanishes(c.p, E1(c, m, xa, x3, x))
    requires Vanishes(c.p, E1(c, s, x2, x3, xc)) && Vanishes(c.p, E1(c, k, x1, xc, x'))
    requires var h, g := ConicOf(c, l, m, xa, ya), ConicOf(c, s, k, xc, yc);
             Vanishes(c.p, h.h1 - g.h1) && Vanishes(c.p, h.hy - g.hy)
    ensures Vanishes(c.p, x - x')
  {
    hide Vanishes, IsPrime;
    PrimePositive(c.p);
    var h, g := ConicOf(c, l, m, xa, ya), ConicOf(c, s, k, xc, yc);
    assert Vanishes(c.p, x1 + x2 + x3 + x + 2 * h.h1 - c.b * ((l + m) * (l + m))) by {
      VanishSum(c.p, E1(c, l, x1, x2, xa), E1(c, m, xa, x3, x));
      SquareOfSlopes(c.b, l, m);
    }
    assert Vanishes(c.p, x1 + x2 + x3 + x' + 2 * g.h1 - c.b * ((s + k) * (s + k))) by {
      VanishSum(c.p, E1(c, s, x2, x3, xc), E1(c, k, x1, xc, x'));
      SquareOfSlopes(c.b, s, k);
    }
    VanishSum(c.p, x1 + x2 + x3 + x + 2 * h.h1 - c.b * ((l + m) * (l + m)), x1 + x2 + x3 + x' + 2 * g.h1 - c.b * ((s + k) * (s + k)));
    var e := x - x' + 2 * (h.h1 - g.h1) - (c.b * ((l + m) * (l + m)) - c.b * ((s + k) * (s + k)));
    assert Vanishes(c.p, e);
    VanishThree(c.p, 1, e, 0 - 2, h.h1 - g.h1, 0 - (l + m + (s + k)), h.hy - g.hy);
    assert (0 - (l + m + (s + k))) * (h.hy - g.hy) == c.b * ((l + m) * (l + m)) - c.b * ((s + k) * (s + k)) by {
      SlopeSquares(c.b, l + m, s + k);
    }
  }

  lemma SquareOfSlopes(b: int, l: int, m: int)
    ensures b * ((l + m) * (l + m)) == b * (l * l) + b * (m * m) + 2 * (b * (l * m))
  {
    assert (l + m) * (l + m) == l * l + m * m + 2 * (l * m);
    Distribute(b, l * l + m * m, 2 * (l * m));
    Distribute(b, l * l, m * m);
  }

  lemma SlopeSquares(b: int, t: int, u: int)
    ensures (0 - (t + u)) * (0 - b * t - (0 - b * u)) == b * (t * t) - b * (u * u)
  {
    ScaledDifference(b, t, u);
    assert 0 - b * t - (0 - b * u) == 0 - b * (t - u) by { Distribute(b, t, 0 - u); }
    MulAssoc(t + u, b, t - u);
    MulAssoc(b, t + u, t - u);
  }

  lemma FourthY(c: CubicCurve, h: Conic, g: Conic, x: int, y: int, y': int)
    requires IsPrime(c.p) && !Vanishes(c.p, h.hy)
    requires Vanishes(c.p, h.h1 - g.h1) && Vanishes(c.p, h.h0 - g.h0) && Vanishes(c.p, h.hy - g.hy)
    requires Vanishes(c.p, h.Value(x, y)) && Vanishes(c.p, g.Value(x, y'))
    ensures Vanishes(c.p, y - y')
  {
    hide Vanishes, IsPrime;
    PrimePositive(c.p);
    var u, v, w := h.h1 - g.h1, h.h0 - g.h0, h.hy - g.hy;
    VanishSum(c.p, h.Value(x, y), g.Value(x, y'));
    VanishThree(c.p, x, u, 1, v, y', w);
    VanishSum(c.p, h.Value(x, y) - g.Value(x, y'), x * u + 1 * v + y' * w);
    assert h.Value(x, y) - g.Value(x, y') - (x * u + 1 * v + y' * w) == h.hy * (y - y') by {
      Distribute(x, h.h1, 0 - g.h1);
      Distribute(y', h.hy, 0 - g.hy);
      Distribute(h.hy, y, 0 - y');
    }
    VanishFactor(c.p, h.hy, y - y');
  }

  lemma OppositeOn(c: CubicCurve, l: int, n: int, A: CubicPoint)
    requires 0 < c.p && IsPoint(c, A) && A.At? && On(c, l, n, A.x, Minus(c, A).y)
    ensures Vanishes(c.p, 0 - A.y - l * A.x - n)
  {
    hide Vanishes, Minus;
    MinusIs(c, A);
    MinusX(c, A);
    var z := Minus(c, A).y;
    VanishSum(c.p, z - l * A.x - n, z + A.y);
    assert z - l * A.x - n - (z + A.y) == 0 - A.y - l * A.x - n;
  }

  /** The function for (P + Q) + R, its zeros, and the third and fourth point on it. */
  lemma ConicFor(c: CubicCurve, l: int, n: int, m: int, r: int, P: CubicPoint, Q: CubicPoint, R: CubicPoint, A: CubicPoint, S: CubicPoint)
    requires c.Valid() && IsPoint(c, A) && P.At? && Q.At? && R.At? && A.At? && S.At?
    requires Minus(c, A).At? && Collinear(c, l, n, P, Q, Minus(c, A)) && Collinear(c, m, r, A, R, S)
    ensures var h := ConicOf(c, l, m, A.x, A.y);
            && Through(c, h, l, n, P.x, Q.x) && Vanishes(c.p, h.Value(P.x, P.y)) && Vanishes(c.p, h.Value(Q.x, Q.y))
            && Vanishes(c.p, h.Value(R.x, R.y)) && Vanishes(c.p, h.Value(S.x, S.y))
  {
    hide Vanishes, Minus, ConicOf, Conic.Value, Meets, On, IsPrime, Through;
    var h := ConicOf(c, l, m, A.x, A.y);
    MinusX(c, A);
    OppositeOn(c, l, n, A);
    ConicFirst(c, l, n, m, A.x, A.y, P.x, Q.x);
    TurnedLine(c, m, r, A, R, S);
    OnItself(c, m, r, A);
    ConicSecond(c, l, m, r, A.x, A.y, R.x, S.x);
    ThroughTurned(c, h, l, n, P.x, Q.x);
    ThroughTurned(c, h, m, r, R.x, S.x);
    ConicAt(c, h, l, n, P.x, P.y, Q.x);
    ConicAt(c, h, l, n, Q.x, Q.y, P.x);
    ConicAt(c, h, m, r, R.x, R.y, S.x);
    ConicAt(c, h, m, r, S.x, S.y, R.x);
  }

  lemma OnItself(c: CubicCurve, m: int, r: int, A: CubicPoint)
    requires 0 < c.p && A.At? && On(c, m, r, A.x, A.y)
    ensures Vanishes(c.p, A.y - m * A.x - r)
  {
  }

  lemma ThroughTurned(c: CubicCurve, h: Conic, l: int, n: int, x1: int, x2: int)
    requires 0 < c.p && Through(c, h, l, n, x1, x2)
    ensures Through(c, h, l, n, x2, x1)
  {
    hide Vanishes;
    assert h.h1 + h.hy * l + x1 + x2 == h.h1 + h.hy * l + x2 + x1;
    assert h.h0 + h.hy * n - x1 * x2 == h.h0 + h.hy * n - x2 * x1;
  }

  /** A point of the curve on the line through P and Q that has neither's x is the third. */
  lemma OffTheLine(c: CubicCurve, l: int, n: int, P: CubicPoint, Q: CubicPoint, N: CubicPoint, R: CubicPoint)
    requires c.Valid() && IsPoint(c, P) && IsPoint(c, Q) && IsPoint(c, N) && IsPoint(c, R)
    requires P.At? && Q.At? && N.At? && R.At? && Collinear(c, l, n, P, Q, N)
    requires R.x != P.x && R.x != Q.x && R != N
    ensures !On(c, l, n, R.x, R.y)
  {
    hide Vanishes, IsPrime;
    if On(c, l, n, R.x, R.y) {
      OneOfThree(c, l, n, P.x, P.y, Q.x, N.x, R.x, R.y);
      DifferentX(c, P, R);
      DifferentX(c, Q, R);
      if Vanishes(c.p, (R.x - P.x) * (R.x - Q.x)) {
        VanishFactor(c.p, R.x - P.x, R.x - Q.x);
      }
      VanishFactor(c.p, (R.x - P.x) * (R.x - Q.x), R.x - N.x);
      VanishSmall(c.p, R.x, N.x);
      VanishSum(c.p, R.y - l * R.x - n, N.y - l * N.x - n);
      assert R.y - l * R.x - n - (N.y - l * N.x - n) == R.y - N.y;
      VanishSmall(c.p, R.y, N.y);
    }
  }

  /** A double zero at P, on the tangent there, of the function for (P + R) + P. */
  lemma DoubleZero(c: CubicCurve, l: int, n: int, s: int, t: int, k: int, w: int,
                   P: CubicPoint, R: CubicPoint, N: CubicPoint, C: CubicPoint, T: CubicPoint)
    requires c.Valid() && IsPoint(c, P) && IsPoint(c, R) && IsPoint(c, C)
    requires P.At? && R.At? && N.At? && C.At? && T.At? && Minus(c, C).At?
    requires Collinear(c, l, n, P, P, N) && Collinear(c, s, t, P, R, Minus(c, C)) && Collinear(c, k, w, P, C, T)
    requires Vanishes(c.p, ConicOf(c, s, k, C.x, C.y).Value(P.x, P.y))
    ensures Through(c, ConicOf(c, s, k, C.x, C.y), l, n, P.x, P.x)
  {
    hide Vanishes, Minus, IsPrime, Conic.Value, Meets;
    var x, y, u, v, g := P.x, P.y, C.x, C.y, ConicOf(c, s, k, C.x, C.y);
    NotItself(c, s, t, k, w, P, R, C, T);
    DifferentX(c, P, C);
    MinusX(c, C);
    OppositeOn(c, s, t, C);
    TwoOnLine(c.p, s, t, x, y, u, 0 - v);
    TwoOnLine(c.p, k, w, x, y, u, v);
    assert 0 - (0 - v - y - s * (u - x)) == v + y + s * (u - x);
    VanishTimes(c.p, 0 - 1, 0 - v - y - s * (u - x));
    SlopeOfLine(c, l, n, x, y, x, y, N.x);
    ThroughTangent(c, s, k, l, x, y, u, v);
    SecondFromFirst(c, g, l, n, x, y);
  }

  lemma TwoOnLine(p: nat, s: int, t: int, x: int, y: int, u: int, v: int)
    requires 0 < p && Vanishes(p, y - s * x - t) && Vanishes(p, v - s * u - t)
    ensures Vanishes(p, v - y - s * (u - x))
  {
    VanishSum(p, v - s * u - t, y - s * x - t);
    Distribute(s, u, 0 - x);
  }

  lemma SecondFromFirst(c: CubicCurve, g: Conic, l: int, n: int, x: int, y: int)
    requires 0 < c.p && On(c, l, n, x, y) && Vanishes(c.p, g.Value(x, y)) && Vanishes(c.p, g.h1 + g.hy * l + x + x)
    ensures Through(c, g, l, n, x, x)
  {
    hide Vanishes, Conic.Value;
    ConicIdentity(g, l, n, x, y, x);
    VanishThree(c.p, 1, g.Value(x, y), 0 - x, g.h1 + g.hy * l + x + x, 0 - g.hy, y - l * x - n);
    LastPart(g.Value(x, y), x, g.h1 + g.hy * l + x + x, g.h0 + g.hy * n - x * x, g.hy, y - l * x - n);
  }

  lemma LastPart(v: int, x: int, t: int, w: int, k: int, d: int)
    requires v == x * t + 1 * w + k * d
    ensures 1 * v + (0 - x) * t + (0 - k) * d == w
  {
  }

  lemma NotItself(c: CubicCurve, s: int, t: int, k: int, w: int, P: CubicPoint, R: CubicPoint, C: CubicPoint, T: CubicPoint)
    requires c.Valid() && IsPoint(c, P) && IsPoint(c, R) && IsPoint(c, C) && P.At? && R.At? && C.At? && T.At? && Minus(c, C).At?
    requires Collinear(c, s, t, P, R, Minus(c, C)) && Collinear(c, k, w, P, C, T)
    ensures P.x != C.x
  {
    hide Vanishes, Minus, IsPrime, Collinear;
    if P.x == C.x {
      SameAbscissa(c, P, C);
      NotOpposite(c, k, w, P, C, T);
      TurnedLine(c, s, t, P, R, Minus(c, C));
      TurnedLine(c, s, t, R, Minus(c, C), P);
      NotOpposite(c, s, t, P, Minus(c, C), R);
    }
  }

  /** Associativity, where all four sums are proper ones and the third point has another x than the first two. */
  lemma Generic(c: CubicCurve, l: int, n: int, m: int, r: int, s: int, t: int, k: int, w: int,
                P: CubicPoint, Q: CubicPoint, R: CubicPoint, A: CubicPoint, C: CubicPoint, S: CubicPoint, T: CubicPoint)
    requires c.Valid() && IsPoint(c, P) && IsPoint(c, Q) && IsPoint(c, R) && IsPoint(c, A) && IsPoint(c, C)
    requires IsPoint(c, S) && IsPoint(c, T)
    requires P.At? && Q.At? && R.At? && A.At? && C.At? && S.At? && T.At? && Minus(c, A).At? && Minus(c, C).At?
    requires Collinear(c, l, n, P, Q, Minus(c, A)) && Collinear(c, m, r, A, R, S)
    requires Collinear(c, s, t, Q, R, Minus(c, C)) && Collinear(c, k, w, P, C, T)
    requires R.x != P.x && R.x != Q.x && R != Minus(c, A)
    ensures S == T
  {
    hide Vanishes, Minus, IsPrime, ConicOf, Conic.Value, Meets;
    var h, g := ConicOf(c, l, m, A.x, A.y), ConicOf(c, s, k, C.x, C.y);
    MinusIs(c, A);
    ConicFor(c, l, n, m, r, P, Q, R, A, S);
    ConicFor(c, s, t, k, w, Q, R, P, C, T) by { TurnedLine(c, k, w, P, C, T); }
    assert Through(c, g, l, n, P.x, Q.x) by {
      if P.x == Q.x {
        SameAbscissa(c, P, Q);
        NotOpposite(c, l, n, P, Q, Minus(c, A));
        DoubleZero(c, l, n, s, t, k, w, P, R, Minus(c, A), C, T);
      } else {
        DifferentX(c, P, Q);
        ThroughTwo(c, g, l, n, P.x, P.y, Q.x, Q.y);
      }
    }
    OffTheLine(c, l, n, P, Q, Minus(c, A), R);
    ConicsAgree(c, h, g, l, n, P.x, Q.x, R.x, R.y);
    FourthPoint(c, l, n, m, r, s, t, k, w, P, Q, R, A, C, S, T);
  }

  lemma FourthPoint(c: CubicCurve, l: int, n: int, m: int, r: int, s: int, t: int, k: int, w: int,
                    P: CubicPoint, Q: CubicPoint, R: CubicPoint, A: CubicPoint, C: CubicPoint, S: CubicPoint, T: CubicPoint)
    requires c.Valid() && IsPoint(c, P) && IsPoint(c, Q) && IsPoint(c, R) && IsPoint(c, S) && IsPoint(c, T)
    requires P.At? && Q.At? && R.At? && A.At? && C.At? && S.At? && T.At? && Minus(c, A).At? && Minus(c, C).At?
    requires Collinear(c, l, n, P, Q, Minus(c, A)) && Collinear(c, m, r, A, R, S)
    requires Collinear(c, s, t, Q, R, Minus(c, C)) && Collinear(c, k, w, P, C, T)
    requires R.x != P.x && R.x != Q.x
    requires var h, g := ConicOf(c, l, m, A.x, A.y), ConicOf(c, s, k, C.x, C.y);
             && Vanishes(c.p, h.h1 - g.h1) && Vanishes(c.p, h.h0 - g.h0) && Vanishes(c.p, h.hy - g.hy)
             && Through(c, h, l, n, P.x, Q.x) && Vanishes(c.p, h.Value(R.x, R.y))
             && Vanishes(c.p, h.Value(S.x, S.y)) && Vanishes(c.p, g.Value(T.x, T.y))
    ensures S == T
  {
    hide Vanishes, Minus, IsPrime, ConicOf, Conic.Value;
    var h, g := ConicOf(c, l, m, A.x, A.y), ConicOf(c, s, k, C.x, C.y);
    MinusX(c, A);
    MinusX(c, C);
    BNot(c);
    FourthX(c, l, m, s, k, A.x, A.y, C.x, C.y, P.x, Q.x, R.x, S.x, T.x);
    VanishSmall(c.p, S.x, T.x);
    DifferentX(c, P, R);
    DifferentX(c, Q, R);
    HasY(c, h, l, n, P.x, Q.x, R.x, R.y);
    FourthY(c, h, g, S.x, S.y, T.y);
    VanishSmall(c.p, S.y, T.y);
  }

  /** Associativity where one of the points is zero, two are opposite, or the first and the last agree. */
  lemma EasyCases(c: CubicCurve, P: CubicPoint, Q: CubicPoint, R: CubicPoint, A: CubicPoint, S: CubicPoint, C: CubicPoint, T: CubicPoint)
    requires c.Valid() && IsPoint(c, P) && IsPoint(c, Q) && IsPoint(c, R) && IsPoint(c, A) && IsPoint(c, C)
    requires IsPoint(c, S) && IsPoint(c, T)
    requires Adds(c, P, Q, A) && Adds(c, A, R, S) && Adds(c, Q, R, C) && Adds(c, P, C, T)
    requires P.Zero? || Q.Zero? || R.Zero? || Q == Minus(c, P) || R == Minus(c, Q) || R == P || R == Minus(c, P)
    ensures S == T
  {
    hide Vanishes, IsPrime, Minus, CubicCurve.Valid, IsPoint, Collinear;
    Positive(c);
    MinusIs(c, P);
    MinusIs(c, Q);
    if P.Zero? {
      AddsUnique(c, Q, R, S, C);
    } else if Q.Zero? {
      AddsUnique(c, P, R, S, T);
    } else if R.Zero? {
      MinusZero(c, Q);
      MinusZero(c, P);
      if A.At? {
        AddsUnique(c, P, Q, A, T);
      } else {
        AddsUnique(c, P, Q, A, T);
      }
    } else if Q == Minus(c, P) {
      AddsCommutes(c, Q, R, C);
      Cancels(c, R, Q, C);
      AddsCommutes(c, C, P, R);
      AddsUnique(c, P, C, R, T);
    } else if R == Minus(c, Q) {
      Cancels(c, P, Q, A);
      AddsUnique(c, A, R, P, S);
    } else if R == P {
      AddsCommutes(c, Q, P, C);
      AddsUnique(c, P, Q, A, C);
      AddsCommutes(c, P, C, T);
      AddsUnique(c, A, P, S, T);
    } else {
      AddsCommutes(c, P, Q, A);
      Cancels(c, Q, P, A);
      AddsUnique(c, A, R, Q, S);
      Cancels(c, Q, R, C);
      AddsCommutes(c, C, P, Q);
      AddsUnique(c, P, C, Q, T);
    }
  }

  lemma LineOf(c: CubicCurve, P: CubicPoint, Q: CubicPoint, R: CubicPoint) returns (l: int, n: int)
    requires 0 < c.p && Adds(c, P, Q, R) && P.At? && Q.At? && Q != Minus(c, P)
    ensures R.At? && Minus(c, R).At? && Collinear(c, l, n, P, Q, Minus(c, R))
  {
    hide Collinear;
    l, n :| Collinear(c, l, n, P, Q, Minus(c, R));
  }

  /** Where three points add up to zero, so that a sum has no line of its own. */
  lemma ThreeToZero(c: CubicCurve, P: CubicPoint, Q: CubicPoint, R: CubicPoint, A: CubicPoint, C: CubicPoint)
    requires c.Valid() && IsPoint(c, P) && IsPoint(c, Q) && IsPoint(c, R) && IsPoint(c, A) && IsPoint(c, C)
    requires P.At? && Q.At? && R.At? && Q != Minus(c, P) && R != Minus(c, Q) && Adds(c, P, Q, A) && Adds(c, Q, R, C)
    ensures R == Minus(c, A) <==> C == Minus(c, P)
  {
    hide Vanishes, IsPrime, Minus, CubicCurve.Valid, IsPoint, Collinear, Adds;
    Positive(c);
    MinusIs(c, P);
    MinusIs(c, R);
    MinusIs(c, A);
    MinusIs(c, C);
    if R == Minus(c, A) {
      var l, n := LineOf(c, P, Q, A);
      TurnedLine(c, l, n, P, Q, R);
      AddsFromLine(c, l, n, Q, R, P);
      AddsUnique(c, Q, R, C, Minus(c, P));
    }
    if C == Minus(c, P) {
      var s, t := LineOf(c, Q, R, C);
      TurnedLine(c, s, t, Q, R, P);
      TurnedLine(c, s, t, R, Q, P);
      AddsFromLine(c, s, t, P, Q, R);
      AddsUnique(c, P, Q, A, Minus(c, R));
    }
  }

  /** The law is associative. */
  lemma AddsAssociative(c: CubicCurve, P: CubicPoint, Q: CubicPoint, R: CubicPoint, A: CubicPoint, S: CubicPoint, C: CubicPoint, T: CubicPoint)
    requires c.Valid() && IsPoint(c, P) && IsPoint(c, Q) && IsPoint(c, R) && IsPoint(c, A) && IsPoint(c, C)
    requires IsPoint(c, S) && IsPoint(c, T)
    requires Adds(c, P, Q, A) && Adds(c, A, R, S) && Adds(c, Q, R, C) && Adds(c, P, C, T)
    ensures S == T
  {
    hide Vanishes, IsPrime, Minus, CubicCurve.Valid, IsPoint, Collinear, Adds;
    Positive(c);
    if P.Zero? || Q.Zero? || R.Zero? || Q == Minus(c, P) || R == Minus(c, Q) || R == P || R == Minus(c, P) {
      EasyCases(c, P, Q, R, A, S, C, T);
      return;
    }
    ThreeToZero(c, P, Q, R, A, C);
    var l, n := LineOf(c, P, Q, A);
    var s, t := LineOf(c, Q, R, C);
    if R == Minus(c, A) {
      SumIsZero(c, A, R, S);
      SumIsZero(c, P, C, T);
      return;
    }
    var m, r := LineOf(c, A, R, S);
    var k, w := LineOf(c, P, C, T);
    HardCases(c, l, n, m, r, s, t, k, w, P, Q, R, A, C, S, T);
  }

  lemma SumIsZero(c: CubicCurve, P: CubicPoint, Q: CubicPoint, R: CubicPoint)
    requires 0 < c.p && P.At? && Q.At? && Q == Minus(c, P) && Adds(c, P, Q, R)
    ensures R == Zero
  {
  }

  lemma HardCases(c: CubicCurve, l: int, n: int, m: int, r: int, s: int, t: int, k: int, w: int,
                  P: CubicPoint, Q: CubicPoint, R: CubicPoint, A: CubicPoint, C: CubicPoint, S: CubicPoint, T: CubicPoint)
    requires c.Valid() && IsPoint(c, P) && IsPoint(c, Q) && IsPoint(c, R) && IsPoint(c, A) && IsPoint(c, C)
    requires IsPoint(c, S) && IsPoint(c, T)
    requires P.At? && Q.At? && R.At? && A.At? && C.At? && S.At? && T.At?
    requires Minus(c, A).At? && Minus(c, C).At? && Minus(c, S).At? && Minus(c, T).At?
    requires Collinear(c, l, n, P, Q, Minus(c, A)) && Collinear(c, m, r, A, R, Minus(c, S))
    requires Collinear(c, s, t, Q, R, Minus(c, C)) && Collinear(c, k, w, P, C, Minus(c, T))
    requires Q != Minus(c, P) && R != Minus(c, Q) && R != P && R != Minus(c, P) && R != Minus(c, A) && C != Minus(c, P)
    ensures S == T
  {
    hide Vanishes, IsPrime, Minus, CubicCurve.Valid, IsPoint, Collinear;
    Positive(c);
    MinusIs(c, S);
    MinusIs(c, T);
    MinusIs(c, C);
    if R.x == P.x {
      SameAbscissa(c, P, R);
    }
    if R.x == Q.x {
      SameAbscissa(c, Q, R);
      TurnedLine(c, k, w, P, C, Minus(c, T));
      TurnedLine(c, l, n, P, Q, Minus(c, A));
      TurnedLine(c, m, r, A, R, Minus(c, S));
      Generic(c, s, t, k, w, l, n, m, r, Q, Q, P, C, A, Minus(c, T), Minus(c, S));
    } else {
      Generic(c, l, n, m, r, s, t, k, w, P, Q, R, A, C, Minus(c, S), Minus(c, T));
    }
  }

  // ---------------------------------------------------------------------------- the group

  ghost function CubicPlus(c: CubicCurve, P: CubicPoint, Q: CubicPoint): (R: CubicPoint)
    requires c.Valid() && IsPoint(c, P) && IsPoint(c, Q)
    ensures IsPoint(c, R) && Adds(c, P, Q, R)
  {
    AddsExists(c, P, Q);
    var R: CubicPoint :| IsPoint(c, R) && Adds(c, P, Q, R);
    R
  }

  /** The points of the curve are an abelian group. */
  lemma CubicGroupLaw(c: CubicCurve, P: CubicPoint, Q: CubicPoint, R: CubicPoint)
    requires c.Valid() && IsPoint(c, P) && IsPoint(c, Q) && IsPoint(c, R)
    ensures CubicPlus(c, P, Q) == CubicPlus(c, Q, P)
    ensures CubicPlus(c, CubicPlus(c, P, Q), R) == CubicPlus(c, P, CubicPlus(c, Q, R))
    ensures IsPoint(c, Zero) && CubicPlus(c, Zero, P) == P
    ensures IsPoint(c, Minus(c, P)) && CubicPlus(c, P, Minus(c, P)) == Zero
  {
    hide Vanishes, IsPrime, Minus, CubicCurve.Valid, CubicPlus, Collinear;
    Positive(c);
    MinusIs(c, P);
    MinusZero(c, P);
    AddsCommutes(c, P, Q, CubicPlus(c, P, Q));
    AddsUnique(c, Q, P, CubicPlus(c, P, Q), CubicPlus(c, Q, P));
    var A, C := CubicPlus(c, P, Q), CubicPlus(c, Q, R);
    AddsAssociative(c, P, Q, R, A, CubicPlus(c, A, R), C, CubicPlus(c, P, C));
  }

  /** k times P. */
  ghost function Multiple(c: CubicCurve, P: CubicPoint, k: nat): (M: CubicPoint)
    requires c.Valid() && IsPoint(c, P)
    ensures IsPoint(c, M)
  {
    if k == 0 then Zero else CubicPlus(c, Multiple(c, P, k - 1), P)
  }

  lemma {:induction false} MultipleSum(c: CubicCurve, P: CubicPoint, m: nat, n: nat)
    requires c.Valid() && IsPoint(c, P)
    ensures Multiple(c, P, m + n) == CubicPlus(c, Multiple(c, P, m), Multiple(c, P, n))
    decreases n
  {
    hide CubicPlus, CubicCurve.Valid, IsPoint;
    Positive(c);
    var M := Multiple(c, P, m);
    if n == 0 {
      CubicGroupLaw(c, M, M, M);
      CubicGroupLaw(c, M, Zero, M);
    } else {
      MultipleSum(c, P, m, n - 1);
      CubicGroupLaw(c, M, Multiple(c, P, n - 1), P);
    }
  }

  lemma MultipleOfOne(c: CubicCurve, P: CubicPoint)
    requires c.Valid() && IsPoint(c, P)
    ensures Multiple(c, P, 1) == P
  {
    hide CubicPlus, CubicCurve.Valid, IsPoint;
    Positive(c);
    CubicGroupLaw(c, P, P, P);
    assert Multiple(c, P, 0) == Zero;
  }
}
