/**
 The affine group law on Weierstrass curves: sums exist and stay on the curve;
 and the operations of the program that do not add: validity, normalisation and
 the choice of a y coordinate.
 */
module WeierstrassLaw {
  import opened Arithmetic
  import opened Primes
  import opened Fields
  import opened Weierstrass

  // ------------------------------------------------------------------ staying on the curve

  /** The curve's cubic minus the square of the line y = s x + n. */
  function Cubic(a: int, b: int, s: int, n: int, x: int): int {
    x * x * x + a * x + b - (s * x + n) * (s * x + n)
  }

  /** It differs by a linear polynomial from the cubic with roots x1, x2 and s^2 - x1 - x2. */
  lemma CubicSplits(a: int, b: int, s: int, n: int, x1: int, x2: int, x: int)
    ensures var x3 := s * s - x1 - x2;
            Cubic(a, b, s, n, x) == (x - x1) * (x - x2) * (x - x3)
                                    + (a - 2 * s * n - x1 * x2 - (x1 + x2) * x3) * x + (b - n * n + x1 * x2 * x3)
  {
    var x3 := s * s - x1 - x2;
    var e1, e2, e3 := x1 + x2 + x3, x1 * x2 + (x1 + x2) * x3, x1 * x2 * x3;
    assert (x - x1) * (x - x2) * (x - x3) == x * x * x - e1 * (x * x) + e2 * x - e3 by { ThreeRoots(x, x1, x2, x3); }
    assert (s * x + n) * (s * x + n) == s * s * (x * x) + 2 * s * n * x + n * n by { SquareOfSum(s, x, n); }
  }

  lemma ThreeRoots(x: int, r1: int, r2: int, r3: int)
    ensures (x - r1) * (x - r2) * (x - r3) == x * x * x - (r1 + r2 + r3) * (x * x) + (r1 * r2 + (r1 + r2) * r3) * x - r1 * r2 * r3
  {
    var q, t, m := x * x, r1 + r2, r1 * r2;
    assert (x - r1) * (x - r2) == q - t * x + m by { TwoRoots(x, r1, r2); }
    SixTerms(q, t * x, m, x, r3);
    assert t * x * x == t * q by { MulAssoc(t, x, x); }
    assert t * x * r3 == t * r3 * x by { MulAssoc(t, x, r3); MulAssoc(t, r3, x); }
    Distribute(q, t, r3);
    Distribute(x, m, t * r3);
  }

  lemma TwoRoots(x: int, r1: int, r2: int)
    ensures (x - r1) * (x - r2) == x * x - (r1 + r2) * x + r1 * r2
  {
  }

  lemma SixTerms(q: int, u: int, m: int, x: int, r: int)
    ensures (q - u + m) * (x - r) == q * x - u * x + m * x - q * r + u * r - m * r
  {
  }

  lemma SquareOfSum(s: int, x: int, n: int)
    ensures (s * x + n) * (s * x + n) == s * s * (x * x) + 2 * s * n * x + n * n
  {
    var t := s * x;
    assert t * t == s * s * (x * x) && t * n == s * n * x;
  }

  lemma CubicAtPoint(p: nat, a: int, b: int, s: int, n: int, x: int, y: int)
    requires 0 < p && OnCurve(p, a, b, x, y) && Cong(y, s * x + n, p)
    ensures Cong(Cubic(a, b, s, n, x), 0, p)
  {
    var t, r := s * x + n, x * x * x + a * x + b;
    CongMul(y, t, y, t, p);
    CongSub(r, r, t * t, y * y, p);
    CongSub(r, r, y * y, r, p);
  }

  /** If the linear polynomial vanishes, so does the cubic at the third root, and the reflected point is on the curve. */
  lemma ThirdRoot(p: nat, a: int, b: int, s: int, x1: int, y1: int, x2: int, x3: int, y3: int, c1: int, c0: int)
    requires 0 < p && Third(p, s, x1, y1, x2, x3, y3)
    requires var r3, n := s * s - x1 - x2, y1 - s * x1;
             c1 == a - 2 * s * n - x1 * x2 - (x1 + x2) * r3 && c0 == b - n * n + x1 * x2 * r3
    requires Cong(c1, 0, p) && Cong(c0, 0, p)
    ensures OnCurve(p, a, b, x3, y3)
  {
    hide Cong;
    var r3, n := s * s - x1 - x2, y1 - s * x1;
    CubicSplits(a, b, s, n, x1, x2, r3);
    assert (r3 - x1) * (r3 - x2) * (r3 - r3) == 0;
    Refl(p, r3);
    Mult(p, c1, 0, r3, r3);
    CongAdd(c1 * r3, 0, c0, 0, p);
    assert Cong(Cubic(a, b, s, n, r3), 0, p);
    Reflected(p, a, b, s, n, r3, x1, y1, x3, y3);
  }

  lemma Reflected(p: nat, a: int, b: int, s: int, n: int, r3: int, x1: int, y1: int, x3: int, y3: int)
    requires 0 < p && n == y1 - s * x1 && Cong(x3, r3, p) && Cong(y3, s * (x1 - x3) - y1, p)
    requires Cong(Cubic(a, b, s, n, r3), 0, p)
    ensures OnCurve(p, a, b, x3, y3)
  {
    var t, r := s * r3 + n, r3 * r3 * r3 + a * r3 + b;
    assert s * (x1 - x3) - y1 == 0 - (s * x3 + n);
    CongMul(s, s, x3, r3, p);
    CongAdd(s * x3, s * r3, n, n, p);
    CongSub(0, 0, s * x3 + n, t, p);
    CongMul(y3, 0 - t, y3, 0 - t, p);
    assert (0 - t) * (0 - t) == t * t;
    CongAdd(Cubic(a, b, s, n, r3), 0, t * t, t * t, p);
    SameRightSide(p, a, b, x3, r3);
  }

  /** The chord: both points make the linear polynomial vanish, and they have different x. */
  lemma ChordOnCurve(p: nat, a: int, b: int, s: int, x1: int, y1: int, x2: int, y2: int, x3: int, y3: int)
    requires IsPrime(p) && OnCurve(p, a, b, x1, y1) && OnCurve(p, a, b, x2, y2) && !Cong(x1, x2, p)
    requires ChordSlope(p, s, x1, y1, x2, y2) && Third(p, s, x1, y1, x2, x3, y3)
    ensures OnCurve(p, a, b, x3, y3)
  {
    hide Cong, IsPrime, OnCurve, Third, Cubic;
    PrimePositive(p);
    var r3, n := s * s - x1 - x2, y1 - s * x1;
    var c1, c0 := a - 2 * s * n - x1 * x2 - (x1 + x2) * r3, b - n * n + x1 * x2 * r3;
    Refl(p, y1);
    OnTheLine(p, s, x1, y1, x2, y2);
    CubicAtPoint(p, a, b, s, n, x1, y1);
    CubicAtPoint(p, a, b, s, n, x2, y2);
    CubicSplits(a, b, s, n, x1, x2, x1);
    CubicSplits(a, b, s, n, x1, x2, x2);
    assert (x1 - x1) * (x1 - x2) * (x1 - r3) == 0 && (x2 - x1) * (x2 - x2) * (x2 - r3) == 0;
    TwoZeros(p, c1, c0, x1, x2);
    ThirdRoot(p, a, b, s, x1, y1, x2, x3, y3, c1, c0);
  }

  lemma OnTheLine(p: nat, s: int, x1: int, y1: int, x2: int, y2: int)
    requires 0 < p && ChordSlope(p, s, x1, y1, x2, y2)
    ensures Cong(y2, s * x2 + (y1 - s * x1), p)
  {
    CongAdd(s * (x2 - x1), y2 - y1, y1, y1, p);
    assert s * (x2 - x1) + y1 == s * x2 + (y1 - s * x1);
  }

  lemma TwoZeros(p: nat, c1: int, c0: int, x1: int, x2: int)
    requires IsPrime(p) && !Cong(x1, x2, p) && Cong(c1 * x1 + c0, 0, p) && Cong(c1 * x2 + c0, 0, p)
    ensures Cong(c1, 0, p) && Cong(c0, 0, p)
  {
    hide IsPrime;
    PrimePositive(p);
    CongSub(c1 * x2 + c0, 0, c1 * x1 + c0, 0, p);
    assert c1 * x2 + c0 - (c1 * x1 + c0) == c1 * (x2 - x1);
    CongZero(c1 * (x2 - x1), p);
    EuclidsLemma(p, c1, x2 - x1);
    DifferenceNonzero(p, x1, x2);
    CongZero(c1, p);
    CongMul(c1, 0, x1, x1, p);
    CongSub(c1 * x1 + c0, 0, c1 * x1, 0, p);
  }

  /** The tangent: its slope makes the linear polynomial's coefficient vanish. */
  lemma TangentOnCurve(p: nat, a: int, b: int, s: int, x: int, y: int, x3: int, y3: int)
    requires 0 < p && OnCurve(p, a, b, x, y) && TangentSlope(p, a, s, x, y) && Third(p, s, x, y, x, x3, y3)
    ensures OnCurve(p, a, b, x3, y3)
  {
    hide Cong, OnCurve, Third, Cubic;
    var r3, n := s * s - x - x, y - s * x;
    var c1, c0 := a - 2 * s * n - x * x - (x + x) * r3, b - n * n + x * x * r3;
    assert c1 == 3 * (x * x) + a - s * (2 * y) by { TangentCoefficient(a, s, x, y); }
    Refl(p, 3 * (x * x) + a);
    Refl(p, y);
    CongSub(3 * (x * x) + a, 3 * (x * x) + a, s * (2 * y), 3 * (x * x) + a, p);
    CubicAtPoint(p, a, b, s, n, x, y);
    CubicSplits(a, b, s, n, x, x, x);
    assert (x - x) * (x - x) * (x - r3) == 0;
    Refl(p, x);
    Mult(p, c1, 0, x, x);
    CongSub(c1 * x + c0, 0, c1 * x, 0, p);
    ThirdRoot(p, a, b, s, x, y, x, x3, y3, c1, c0);
  }

  lemma TangentCoefficient(a: int, s: int, x: int, y: int)
    ensures a - 2 * s * (y - s * x) - x * x - (x + x) * (s * s - x - x) == 3 * (x * x) + a - s * (2 * y)
  {
    var q, t := s * s, s * x;
    assert 2 * s * (y - t) == s * (2 * y) - 2 * (s * t);
    assert (x + x) * (q - x - x) == 2 * (x * q) - 4 * (x * x);
    assert s * t == x * q;
  }

  // ------------------------------------------------------------------------- existence

  lemma SlopeExists(p: nat, d: int, n: int) returns (s: int)
    requires IsPrime(p) && d % p != 0
    ensures Cong(s * d, n, p)
  {
    hide IsPrime, Cong;
    PrimePositive(p);
    var inv := PrimeInverse(p, d);
    s := n * inv;
    Refl(p, n);
    Mult(p, n, n, d * inv, 1);
    assert s * d == n * (d * inv) by { MulAssoc(n, inv, d); }
  }

  /** Any two points of the curve have a sum, and it is on the curve. */
  lemma SumExists(p: nat, a: int, b: int, A1: Affine, A2: Affine) returns (A3: Affine)
    requires IsPrime(p) && 2 < p
    requires A1.Affine? ==> OnCurve(p, a, b, A1.x, A1.y)
    requires A2.Affine? ==> OnCurve(p, a, b, A2.x, A2.y)
    ensures IsSum(p, a, A1, A2, A3)
    ensures A3.Affine? ==> OnCurve(p, a, b, A3.x, A3.y)
  {
    hide Cong, IsPrime, OnCurve;
    if A1.Infinity? {
      A3 := A2;
    } else if A2.Infinity? {
      A3 := A1;
    } else if !Cong(A1.x, A2.x, p) {
      DifferenceNonzero(p, A1.x, A2.x);
      var s := SlopeExists(p, A2.x - A1.x, A2.y - A1.y);
      assert ChordSlope(p, s, A1.x, A1.y, A2.x, A2.y);
      A3 := ThirdOf(p, s, A1.x, A1.y, A2.x);
      ChordOnCurve(p, a, b, s, A1.x, A1.y, A2.x, A2.y, A3.x, A3.y);
    } else if Cong(A1.y + A2.y, 0, p) {
      A3 := Infinity;
    } else {
      SameOrOpposite(p, a, b, A1.x, A1.y, A2.x, A2.y);
      TwiceNonzero(p, A1.y, A2.y);
      var s := SlopeExists(p, 2 * A1.y, 3 * (A1.x * A1.x) + a);
      assert TangentSlope(p, a, s, A1.x, A1.y);
      A3 := ThirdOf(p, s, A1.x, A1.y, A2.x);
      SameX(p, s, A1.x, A1.y, A2.x, A3.x, A3.y);
      TangentOnCurve(p, a, b, s, A1.x, A1.y, A3.x, A3.y);
    }
  }

  lemma ThirdOf(p: nat, s: int, x1: int, y1: int, x2: int) returns (A3: Affine)
    requires 0 < p
    ensures A3.Affine? && Third(p, s, x1, y1, x2, A3.x, A3.y)
  {
    var x3 := s * s - x1 - x2;
    A3 := Affine(x3, s * (x1 - x3) - y1);
  }

  lemma SameX(p: nat, s: int, x1: int, y1: int, x2: int, x3: int, y3: int)
    requires 0 < p && Cong(x1, x2, p) && Third(p, s, x1, y1, x2, x3, y3)
    ensures Third(p, s, x1, y1, x1, x3, y3)
  {
    CongSub(s * s - x1, s * s - x1, x1, x2, p);
  }

  lemma TwiceNonzero(p: nat, y1: int, y2: int)
    requires 0 < p && Cong(y1, y2, p) && !Cong(y1 + y2, 0, p)
    ensures (2 * y1) % p != 0
  {
    CongAdd(y1, y1, y1, y2, p);
    assert y1 + y1 == 2 * y1;
    CongZero(2 * y1, p);
  }

  /** The instance that the exact condition on adding a point to itself refutes: (0, 1) over Z = 1 and over Z = 2 on
      y^2 = x^3 + 2x + 1 modulo 11. */
  lemma AddGeneralFails()
    ensures var P, Q, A, D := Jacobian(0, 1, 1), Jacobian(0, 8, 2), Affine(0, 1), Affine(1, 9);
            && Represents(11, P, A) && Represents(11, Q, A) && OnCurve(11, 2, 1, 0, 1) && IsSum(11, 2, A, A, D)
            && !Represents(11, AddGeneral(11, 2, P, Q), D) && Represents(11, AddGeneral(11, 2, Q, P), D)
  {
    hide AddGeneral;
    var P, Q, A, D := Jacobian(0, 1, 1), Jacobian(0, 8, 2), Affine(0, 1), Affine(1, 9);
    assert IsPrime(11);
    assert TangentSlope(11, 2, 1, 0, 1) && Third(11, 1, 0, 1, 0, 1, 9);
    assert !TangentScaleFits(11, 1, 0, 2);
    AddGeneralDoubles(11, 2, P, Q, A, A, D, 1);
    AddGeneralDoubles(11, 2, Q, P, A, A, D, 1);
  }

  /** An instance in which the assertion stops the addition of two different points: (1, 1) and (2, 1) on
      y^2 = x^3 + 4x + 7 modulo 11, whose sum is (8, 10). */
  lemma AddPointsStops()
    ensures var P, Q, A, B := Jacobian(1, 1, 1), Jacobian(2, 1, 1), Affine(1, 1), Affine(2, 1);
            && Represents(11, P, A) && Represents(11, Q, B) && OnCurve(11, 4, 7, 1, 1) && OnCurve(11, 4, 7, 2, 1)
            && IsSum(11, 4, A, B, Affine(8, 10)) && AddPoints(11, P, Q).Assertion?
  {
    assert ChordSlope(11, 0, 1, 1, 2, 1) && Third(11, 0, 1, 1, 2, 8, 10);
  }

  /** An instance in which it stops every multiplication: (4, 5) on y^2 = x^3 + x + 1 modulo 11, whose double (6, 5) it is to
      be added to first of all. */
  lemma MultiplyStops()
    ensures var P := Jacobian(4, 5, 1);
            && OnCurve(11, 1, 1, 4, 5) && Represents(11, P, Affine(4, 5)) && Represents(11, Double(11, 1, P), Affine(6, 5))
            && AddPoints(11, P, Double(11, 1, P)).Assertion?
  {
    hide Double, Prologue, Epilogue;
    var P := Jacobian(4, 5, 1);
    assert IsPrime(11);
    assert TangentSlope(11, 1, 6, 4, 5) && Third(11, 6, 4, 5, 4, 6, 5);
    DoubleCorrect(11, 1, P, 4, 5, 6, 6, 5);
    SlopeTests(11, P, Double(11, 1, P), 4, 5, 6, 5);
  }

  // ------------------------------------------------------------ validity and normalisation

  /** ecc_weierstrass_point_valid. */
  predicate PointValid(p: nat, a: int, b: int, P: Jacobian)
    requires 0 < p
  {
    var lhs := Mul(p, P.Y, P.Y);
    var x2 := Mul(p, P.X, P.X);
    var x3 := Mul(p, x2, P.X);
    var z2 := Mul(p, P.Z, P.Z);
    var z4 := Mul(p, z2, z2);
    var az4 := Mul(p, a, z4);
    var axz4 := Mul(p, az4, P.X);
    var x3_plus_axz4 := Add(p, x3, axz4);
    var z6 := Mul(p, z2, z4);
    var bz6 := Mul(p, b, z6);
    lhs == Add(p, x3_plus_axz4, bz6)
  }

  /** The projective equation holds just when the point is on the curve. */
  lemma PointValidCorrect(p: nat, a: int, b: int, P: Jacobian, x: int, y: int)
    requires IsPrime(p) && Represents(p, P, Affine(x, y))
    ensures PointValid(p, a, b, P) <==> OnCurve(p, a, b, x, y)
  {
    hide Cong, IsPrime, Mul, Add;
    PrimePositive(p);
    var z := P.Z;
    var zz := z * z;
    var z6 := zz * (zz * zz);
    var lhs, rhs := y * (z * zz) * (y * (z * zz)), x * zz * (x * zz) * (x * zz) + a * (zz * zz) * (x * zz) + b * z6;
    ValidSides(p, a, b, P, x, y);
    SixthPower(x, y, a, b, z);
    ProductZero(p, z, z);
    ProductZero(p, zz, zz);
    ProductZero(p, zz, zz * zz);
    CancelFactor(p, z6, y * y, x * x * x + a * x + b);
  }

  lemma ValidSides(p: nat, a: int, b: int, P: Jacobian, x: int, y: int)
    requires 0 < p && Scaled(p, P.X, P.Y, x, y, P.Z)
    ensures var z := P.Z;
            var zz := z * z;
            PointValid(p, a, b, P) <==>
            Cong(y * (z * zz) * (y * (z * zz)), x * zz * (x * zz) * (x * zz) + a * (zz * zz) * (x * zz) + b * (zz * (zz * zz)), p)
  {
    hide Cong, Mul, Add;
    var z, X, Y := P.Z, P.X, P.Y;
    var zz, xz, yz := z * z, x * (z * z), y * (z * (z * z));
    Refl(p, z);
    Refl(p, a);
    Refl(p, b);
    var lhs, x2, z2 := Mul(p, Y, Y), Mul(p, X, X), Mul(p, z, z);
    var x3, z4 := Mul(p, x2, X), Mul(p, z2, z2);
    var az4, z6 := Mul(p, a, z4), Mul(p, z2, z4);
    var axz4, bz6 := Mul(p, az4, X), Mul(p, b, z6);
    var sum := Add(p, x3, axz4);
    MulC(p, Y, yz, Y, yz);
    MulC(p, X, xz, X, xz);
    MulC(p, x2, xz * xz, X, xz);
    MulC(p, z, z, z, z);
    MulC(p, z2, zz, z2, zz);
    MulC(p, a, a, z4, zz * zz);
    MulC(p, az4, a * (zz * zz), X, xz);
    AddC(p, x3, xz * xz * xz, axz4, a * (zz * zz) * xz);
    MulC(p, z2, zz, z4, zz * zz);
    MulC(p, b, b, z6, zz * (zz * zz));
    AddC(p, sum, xz * xz * xz + a * (zz * zz) * xz, bz6, b * (zz * (zz * zz)));
    SameResidue(p, lhs, Add(p, sum, bz6), yz * yz, xz * xz * xz + a * (zz * zz) * xz + b * (zz * (zz * zz)));
  }

  lemma SameResidue(p: nat, a: nat, b: nat, a': int, b': int)
    requires 0 < p && a < p && b < p && Cong(a, a', p) && Cong(b, b', p)
    ensures a == b <==> Cong(a', b', p)
  {
    SmallMod(a, p);
    SmallMod(b, p);
  }

  lemma SixthPower(x: int, y: int, a: int, b: int, z: int)
    ensures var zz := z * z;
            var z6 := zz * (zz * zz);
            && y * (z * zz) * (y * (z * zz)) == z6 * (y * y)
            && x * zz * (x * zz) * (x * zz) + a * (zz * zz) * (x * zz) + b * z6 == z6 * (x * x * x + a * x + b)
  {
    var zz := z * z;
    var z6 := zz * (zz * zz);
    ProductOfSquares(y, z * zz);
    assert z * zz * (z * zz) == z6 by { ProductOfSquares(z, zz); MulAssoc(zz, zz, zz); }
    assert x * zz * (x * zz) * (x * zz) == z6 * (x * x * x) by {
      ProductOfSquares(x, zz);
      Shuffle4(x * x * (zz * zz), x, 1, zz);
      MulAssoc(x * x, zz * zz, zz);
      assert x * x * (zz * zz) * (x * zz) == x * x * x * (zz * zz * zz) by { Regroup4(x * x, zz * zz, x, zz); }
    }
    assert a * (zz * zz) * (x * zz) == z6 * (a * x) by { Regroup4(a, zz * zz, x, zz); }
    Distribute(z6, x * x * x + a * x, b);
    Distribute(z6, x * x * x, a * x);
  }

  lemma Regroup4(a: int, b: int, c: int, d: int)
    ensures a * b * (c * d) == a * c * (b * d)
  {
    MulAssoc(a, b, c * d);
    MulAssoc(b, c, d);
    MulAssoc(c, b, d);
    MulAssoc(a, c, b * d);
  }

  /** ecc_weierstrass_normalise, given the inverse of Z. */
  function Normalise(p: nat, P: Jacobian, zinv: int): Jacobian
    requires 0 < p
  {
    var zinv2 := Mul(p, zinv, zinv);
    var zinv3 := Mul(p, zinv2, zinv);
    Jacobian(Mul(p, P.X, zinv2), Mul(p, P.Y, zinv3), Mul(p, P.Z, zinv))
  }

  /** Afterwards X and Y are the affine coordinates, and Z is 1. */
  lemma NormaliseCorrect(p: nat, P: Jacobian, zinv: int, x: int, y: int)
    requires 1 < p && Represents(p, P, Affine(x, y)) && Cong(P.Z * zinv, 1, p)
    ensures Normalise(p, P, zinv) == Jacobian(x % p, y % p, 1)
  {
    hide Mul;
    var z, i2, i3 := P.Z, Mul(p, zinv, zinv), Mul(p, Mul(p, zinv, zinv), zinv);
    var t := z * zinv;
    MulC(p, zinv, zinv, zinv, zinv);
    MulC(p, i2, zinv * zinv, zinv, zinv);
    MulC(p, P.X, x * (z * z), i2, zinv * zinv);
    MulC(p, P.Y, y * (z * (z * z)), i3, zinv * zinv * zinv);
    MulC(p, z, z, zinv, zinv);
    ScaleUpArith(x, y, z, zinv);
    CongMul(t, 1, t, 1, p);
    CongMul(t, 1, t * t, 1, p);
    CongMul(x, x, t * t, 1, p);
    CongMul(y, y, t * (t * t), 1, p);
    var N := Normalise(p, P, zinv);
    IsResidue(p, N.X, x);
    IsResidue(p, N.Y, y);
    IsResidue(p, N.Z, 1);
    SmallMod(1, p);
  }

  lemma IsResidue(p: nat, r: nat, a: int)
    requires 0 < p && r < p && Cong(r, a, p)
    ensures r == a % p
  {
    SmallMod(r, p);
  }

  /** The choice of a square root by parity in ecc_weierstrass_point_new_from_x and ecc_edwards_point_new_from_y. */
  function ChooseRoot(p: nat, y: nat, parity: nat): int {
    if y % 2 != parity % 2 then p - y else y
  }

  /** Either choice is a root; the parity asked for is obtained, except that of a zero root, for which p itself is returned
      when 1 is asked for. */
  lemma ChooseRootCorrect(p: nat, y: nat, parity: nat)
    requires p % 2 == 1 && y < p
    ensures var r := ChooseRoot(p, y, parity);
            && Cong(r * r, y * y, p) && r % 2 == parity % 2
            && (0 <= r < p <==> !(y == 0 && parity % 2 == 1))
  {
    hide Cong, ChooseRoot;
    NegatedSquare(p, y);
    Refl(p, y * y);
    ParityOf(p, y, parity);
  }

  lemma ParityOf(p: nat, y: nat, parity: nat)
    requires p % 2 == 1 && y < p
    ensures var r := ChooseRoot(p, y, parity);
            (r == y || r == p - y) && r % 2 == parity % 2 && (0 <= r < p <==> !(y == 0 && parity % 2 == 1))
  {
  }

  lemma NegatedSquare(p: nat, y: int)
    requires 0 < p
    ensures Cong((p - y) * (p - y), y * y, p)
  {
    var r := p - y;
    assert r * r == y * y + (p - 2 * y) * p;
    CongFromMultiple(r * r, y * y, p - 2 * y, p);
  }
}
