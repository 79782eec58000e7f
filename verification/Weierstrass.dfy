/**
 Points of Weierstrass curves in Jacobian coordinates, and the affine group law
 that they have to follow.
 */
module Weierstrass {
  import opened Arithmetic
  import opened Primes
  import opened Fields

  // ---------------------------------------------------------------- the affine group law

  datatype Affine = Infinity | Affine(x: int, y: int)

  ghost predicate OnCurve(p: nat, a: int, b: int, x: int, y: int)
    requires 0 < p
  {
    Cong(y * y, x * x * x + a * x + b, p)
  }

  /** The third intersection with the curve of the line of slope s through P and Q, reflected. */
  ghost predicate Third(p: nat, s: int, x1: int, y1: int, x2: int, x3: int, y3: int)
    requires 0 < p
  {
    Cong(x3, s * s - x1 - x2, p) && Cong(y3, s * (x1 - x3) - y1, p)
  }

  /** s is the slope of the chord through two points with different x. */
  ghost predicate ChordSlope(p: nat, s: int, x1: int, y1: int, x2: int, y2: int)
    requires 0 < p
  {
    Cong(s * (x2 - x1), y2 - y1, p)
  }

  /** s is the slope of the tangent at a point with y other than 0. */
  ghost predicate TangentSlope(p: nat, a: int, s: int, x: int, y: int)
    requires 0 < p
  {
    Cong(s * (2 * y), 3 * (x * x) + a, p)
  }

  // ------------------------------------------------------------------ Jacobian coordinates

  datatype Jacobian = Jacobian(X: int, Y: int, Z: int)

  /** The triple stands for the point: x = X/Z^2 and y = Y/Z^3, or Z = 0 for the point at infinity. */
  ghost predicate Represents(p: nat, J: Jacobian, A: Affine)
    requires 0 < p
  {
    match A
    case Infinity => J.Z % p == 0
    case Affine(x, y) => J.Z % p != 0 && Scaled(p, J.X, J.Y, x, y, J.Z)
  }

  /** X and Y are x and y over the denominators u^2 and u^3. */
  ghost predicate Scaled(p: nat, X: int, Y: int, x: int, y: int, u: int)
    requires 0 < p
  {
    Cong(X, x * (u * u), p) && Cong(Y, y * (u * (u * u)), p)
  }

  /** ecc_weierstrass_epilogue. */
  function Epilogue(p: nat, Px: int, Qx: int, Py: int, commonZ: int, ln: int, ld: int): Jacobian
    requires 0 < p
  {
    var ln2 := Mul(p, ln, ln);
    var ld2 := Mul(p, ld, ld);
    var ld3 := Mul(p, ld, ld2);
    var xsum := Add(p, Px, Qx);
    var ld2_xsum := Mul(p, ld2, xsum);
    var X := Sub(p, ln2, ld2_xsum);
    var ld2_Px := Mul(p, ld2, Px);
    var xdiff := Sub(p, ld2_Px, X);
    var ln_xdiff := Mul(p, ln, xdiff);
    var ld3_Py := Mul(p, ld3, Py);
    var Y := Sub(p, ln_xdiff, ld3_Py);
    var Z := Mul(p, commonZ, ld);
    Jacobian(X, Y, Z)
  }

  /** What the epilogue computes, as polynomials. */
  lemma EpilogueIs(p: nat, Px: int, Qx: int, Py: int, commonZ: int, ln: int, ld: int)
    requires 0 < p
    ensures var S := Epilogue(p, Px, Qx, Py, commonZ, ln, ld);
            var x := ln * ln - ld * ld * (Px + Qx);
            && Cong(S.X, x, p)
            && Cong(S.Y, ln * (ld * ld * Px - x) - ld * (ld * ld) * Py, p)
            && Cong(S.Z, commonZ * ld, p)
  {
    hide Cong, Mul, Add, Sub;
    var ln2, ld2 := Mul(p, ln, ln), Mul(p, ld, ld);
    var ld3 := Mul(p, ld, ld2);
    var xsum := Add(p, Px, Qx);
    var X := Sub(p, ln2, Mul(p, ld2, xsum));
    var xdiff := Sub(p, Mul(p, ld2, Px), X);
    var x := ln * ln - ld * ld * (Px + Qx);
    Refl(p, ln);
    Refl(p, ld);
    Refl(p, Px);
    Refl(p, Qx);
    Refl(p, Py);
    Refl(p, commonZ);
    MulC(p, ln, ln, ln, ln);
    MulC(p, ld, ld, ld, ld);
    MulC(p, ld, ld, ld2, ld * ld);
    AddC(p, Px, Px, Qx, Qx);
    MulC(p, ld2, ld * ld, xsum, Px + Qx);
    SubC(p, ln2, ln * ln, Mul(p, ld2, xsum), ld * ld * (Px + Qx));
    MulC(p, ld2, ld * ld, Px, Px);
    SubC(p, Mul(p, ld2, Px), ld * ld * Px, X, x);
    MulC(p, ln, ln, xdiff, ld * ld * Px - x);
    MulC(p, ld3, ld * (ld * ld), Py, Py);
    SubC(p, Mul(p, ln, xdiff), ln * (ld * ld * Px - x), Mul(p, ld3, Py), ld * (ld * ld) * Py);
    MulC(p, commonZ, commonZ, ld, ld);
  }

  /** Given the points over a common denominator u and the slope over u times its denominator, the epilogue delivers the
      third intersection, reflected, over u times the denominator of the slope. */
  lemma EpilogueCorrect(p: nat, Px: int, Qx: int, Py: int, commonZ: int, ln: int, ld: int,
                        x1: int, y1: int, x2: int, u: int, s: int, x3: int, y3: int)
    requires 0 < p && Scaled(p, Px, Py, x1, y1, u) && Cong(Qx, x2 * (u * u), p) && Cong(commonZ, u, p)
    requires Cong(ln, s * (u * ld), p) && Third(p, s, x1, y1, x2, x3, y3)
    ensures var S := Epilogue(p, Px, Qx, Py, commonZ, ln, ld);
            Scaled(p, S.X, S.Y, x3, y3, S.Z) && Cong(S.Z, u * ld, p)
  {
    hide Cong, Epilogue;
    var S := Epilogue(p, Px, Qx, Py, commonZ, ln, ld);
    var v, x := u * ld, ln * ln - ld * ld * (Px + Qx);
    EpilogueIs(p, Px, Qx, Py, commonZ, ln, ld);
    ThirdX(p, Px, Qx, ln, ld, x1, x2, u, s, x3);
    ThirdY(p, Px, Py, ln, ld, x1, y1, u, s, x3, y3, x);
    Refl(p, ld);
    Mult(p, commonZ, u, ld, ld);
    Trans(p, S.Z, commonZ * ld, v);
    Rescale(p, S.X, x, x3, v * v, S.Z * S.Z, S.Z, v);
    RescaleCube(p, S.Y, ln * (ld * ld * Px - x) - ld * (ld * ld) * Py, y3, S.Z, v);
  }

  lemma Mult(p: nat, a: int, a': int, b: int, b': int)
    requires 0 < p && Cong(a, a', p) && Cong(b, b', p)
    ensures Cong(a * b, a' * b', p)
  {
    CongMul(a, a', b, b', p);
  }

  lemma Rescale(p: nat, X: int, x: int, x3: int, vv: int, zz: int, z: int, v: int)
    requires 0 < p && Cong(X, x, p) && Cong(x, x3 * vv, p) && Cong(z, v, p) && vv == v * v && zz == z * z
    ensures Cong(X, x3 * zz, p)
  {
    CongMul(z, v, z, v, p);
    CongMul(x3, x3, zz, vv, p);
  }

  lemma RescaleCube(p: nat, Y: int, y: int, y3: int, z: int, v: int)
    requires 0 < p && Cong(Y, y, p) && Cong(y, y3 * (v * (v * v)), p) && Cong(z, v, p)
    ensures Cong(Y, y3 * (z * (z * z)), p)
  {
    CongMul(z, v, z, v, p);
    CongMul(z, v, z * z, v * v, p);
    CongMul(y3, y3, z * (z * z), v * (v * v), p);
  }

  lemma ThirdX(p: nat, Px: int, Qx: int, ln: int, ld: int, x1: int, x2: int, u: int, s: int, x3: int)
    requires 0 < p && Cong(Px, x1 * (u * u), p) && Cong(Qx, x2 * (u * u), p) && Cong(ln, s * (u * ld), p)
    requires Cong(x3, s * s - x1 - x2, p)
    ensures Cong(ln * ln - ld * ld * (Px + Qx), x3 * (u * ld * (u * ld)), p)
  {
    hide Cong;
    var v, uu := u * ld, u * u;
    Mult(p, ln, s * v, ln, s * v);
    CongAdd(Px, x1 * uu, Qx, x2 * uu, p);
    Refl(p, ld * ld);
    Refl(p, v * v);
    Mult(p, ld * ld, ld * ld, Px + Qx, x1 * uu + x2 * uu);
    CongSub(ln * ln, s * v * (s * v), ld * ld * (Px + Qx), ld * ld * (x1 * uu + x2 * uu), p);
    ThirdXArith(s, u, ld, x1, x2);
    Mult(p, x3, s * s - x1 - x2, v * v, v * v);
    Trans(p, x3 * (v * v), (s * s - x1 - x2) * (v * v), x3 * (v * v));
    Trans(p, ln * ln - ld * ld * (Px + Qx), (s * s - x1 - x2) * (v * v), x3 * (v * v));
  }

  lemma ThirdXArith(s: int, u: int, d: int, x1: int, x2: int)
    ensures s * (u * d) * (s * (u * d)) - d * d * (x1 * (u * u) + x2 * (u * u)) == (s * s - x1 - x2) * (u * d * (u * d))
  {
  }

  lemma ThirdY(p: nat, Px: int, Py: int, ln: int, ld: int, x1: int, y1: int, u: int, s: int, x3: int, y3: int, x: int)
    requires 0 < p && Scaled(p, Px, Py, x1, y1, u) && Cong(ln, s * (u * ld), p)
    requires Cong(x, x3 * (u * ld * (u * ld)), p) && Cong(y3, s * (x1 - x3) - y1, p)
    ensures Cong(ln * (ld * ld * Px - x) - ld * (ld * ld) * Py, y3 * (u * ld * (u * ld * (u * ld))), p)
  {
    hide Cong;
    var v, uu, d2 := u * ld, u * u, ld * ld;
    Refl(p, d2);
    Refl(p, ld * d2);
    Refl(p, v * (v * v));
    Mult(p, d2, d2, Px, x1 * uu);
    CongSub(d2 * Px, d2 * (x1 * uu), x, x3 * (v * v), p);
    Mult(p, ln, s * v, d2 * Px - x, d2 * (x1 * uu) - x3 * (v * v));
    Mult(p, ld * d2, ld * d2, Py, y1 * (u * uu));
    CongSub(ln * (d2 * Px - x), s * v * (d2 * (x1 * uu) - x3 * (v * v)), ld * d2 * Py, ld * d2 * (y1 * (u * uu)), p);
    ThirdYArith(s, u, ld, x1, y1, x3);
    Mult(p, y3, s * (x1 - x3) - y1, v * (v * v), v * (v * v));
    Trans(p, y3 * (v * (v * v)), (s * (x1 - x3) - y1) * (v * (v * v)), y3 * (v * (v * v)));
    Trans(p, ln * (d2 * Px - x) - ld * d2 * Py, (s * (x1 - x3) - y1) * (v * (v * v)), y3 * (v * (v * v)));
  }

  lemma ThirdYArith(s: int, u: int, d: int, x1: int, y1: int, x3: int)
    ensures s * (u * d) * (d * d * (x1 * (u * u)) - x3 * (u * d * (u * d))) - d * (d * d) * (y1 * (u * (u * u)))
            == (s * (x1 - x3) - y1) * (u * d * (u * d * (u * d)))
  {
    var v := u * d;
    var w := v * v;
    assert d * d * (x1 * (u * u)) == x1 * w by { SquareMoves(d, u, x1); }
    assert d * (d * d) * (y1 * (u * (u * u))) == y1 * (v * w) by { CubeMoves(d, u, y1); }
    assert s * v * (x1 * w - x3 * w) == s * (x1 - x3) * (v * w) by { Regroup(s, v, x1, x3, w); }
    Distribute(v * w, s * (x1 - x3), 0 - y1);
  }

  lemma SquareMoves(d: int, u: int, x: int)
    ensures d * d * (x * (u * u)) == x * (u * d * (u * d))
  {
  }

  lemma CubeMoves(d: int, u: int, y: int)
    ensures d * (d * d) * (y * (u * (u * u))) == y * (u * d * (u * d * (u * d)))
  {
    var c, e := d * (d * d), u * (u * u);
    MulAssoc(c, y, e);
    MulAssoc(y, c, e);
    assert c * e == u * d * (u * d * (u * d)) by { CubeOfProduct(d, u); }
  }

  lemma CubeOfProduct(d: int, u: int)
    ensures d * (d * d) * (u * (u * u)) == u * d * (u * d * (u * d))
  {
    var w := d * d * (u * u);
    assert w == u * d * (u * d);
    MulAssoc(d, d * d, u * (u * u));
    MulAssoc(d * d, u, u * u);
    MulAssoc(u, d * d, u * u);
    MulAssoc(d, u, w);
  }

  lemma Regroup(s: int, v: int, x1: int, x3: int, w: int)
    ensures s * v * (x1 * w - x3 * w) == s * (x1 - x3) * (v * w)
  {
    Distribute(w, x1, 0 - x3);
    MulAssoc(s, v, (x1 - x3) * w);
    MulAssoc(v, x1 - x3, w);
    MulAssoc(x1 - x3, v, w);
    MulAssoc(s, x1 - x3, v * w);
  }

  // --------------------------------------------------------------- the three operations

  datatype Slope = Slope(n: nat, d: nat)

  /** ecc_weierstrass_tangent_slope. */
  function TangentOf(p: nat, a: int, P: Jacobian): Slope
    requires 0 < p
  {
    var X2 := Mul(p, P.X, P.X);
    var twoX2 := Add(p, X2, X2);
    var threeX2 := Add(p, twoX2, X2);
    var Z2 := Mul(p, P.Z, P.Z);
    var Z4 := Mul(p, Z2, Z2);
    var aZ4 := Mul(p, a, Z4);
    Slope(Add(p, threeX2, aZ4), Add(p, P.Y, P.Y))
  }

  /** ecc_weierstrass_double. */
  function Double(p: nat, a: int, P: Jacobian): Jacobian
    requires 0 < p
  {
    var l := TangentOf(p, a, P);
    Epilogue(p, P.X, P.X, P.Y, P.Z, l.n, l.d)
  }

  datatype Common = Common(Px: nat, Py: nat, Qx: nat, denom: nat, l: Slope)

  /** ecc_weierstrass_add_prologue. */
  function Prologue(p: nat, P: Jacobian, Q: Jacobian): Common
    requires 0 < p
  {
    var Pz2 := Mul(p, P.Z, P.Z);
    var Pz3 := Mul(p, Pz2, P.Z);
    var Qz2 := Mul(p, Q.Z, Q.Z);
    var Qz3 := Mul(p, Qz2, Q.Z);
    var Px := Mul(p, P.X, Qz2);
    var Py := Mul(p, P.Y, Qz3);
    var Qx := Mul(p, Q.X, Pz2);
    var Qy := Mul(p, Q.Y, Pz3);
    Common(Px, Py, Qx, Mul(p, P.Z, Q.Z), Slope(Sub(p, Qy, Py), Sub(p, Qx, Px)))
  }

  datatype Outcome = Assertion | Sum(S: Jacobian)

  /** ecc_weierstrass_add, with the assertion it makes. */
  function AddPoints(p: nat, P: Jacobian, Q: Jacobian): Outcome
    requires 0 < p
  {
    var c := Prologue(p, P, Q);
    if c.l.n == 0 then Assertion
    else Sum(Epilogue(p, c.Px, c.Qx, c.Py, c.denom, c.l.n, c.l.d))
  }

  /** ecc_weierstrass_add_general. */
  function AddGeneral(p: nat, a: int, P: Jacobian, Q: Jacobian): Jacobian
    requires 0 < p
  {
    var c := Prologue(p, P, Q);
    var t := TangentOf(p, a, P);
    var equality := c.l.d == 0 && c.l.n == 0;
    var l := if equality then t else c.l;
    var S0 := Epilogue(p, c.Px, c.Qx, c.Py, c.denom, l.n, l.d);
    var S1 := if P.Z == 0 then Q else S0;
    var S2 := if Q.Z == 0 then P else S1;
    if S2.Z == 0 then Jacobian(0, 0, 0) else S2
  }

  // ------------------------------------------------------------ what they mean, point by point

  /** The reference: R is the sum of P and Q on a curve with parameter a. */
  ghost predicate IsSum(p: nat, a: int, P: Affine, Q: Affine, R: Affine)
    requires 0 < p
  {
    if P.Infinity? then R == Q
    else if Q.Infinity? then R == P
    else if !Cong(P.x, Q.x, p) then
      R.Affine? && exists s :: ChordSlope(p, s, P.x, P.y, Q.x, Q.y) && Third(p, s, P.x, P.y, Q.x, R.x, R.y)
    else if Cong(P.y + Q.y, 0, p) then R.Infinity?
    else R.Affine? && exists s :: TangentSlope(p, a, s, P.x, P.y) && Third(p, s, P.x, P.y, Q.x, R.x, R.y)
  }

  /** The tangent slope comes over the denominator Z of the point, squared and squared again. */
  lemma TangentTop(p: nat, a: int, P: Jacobian, x: int, y: int)
    requires 0 < p && Scaled(p, P.X, P.Y, x, y, P.Z)
    ensures Cong(TangentOf(p, a, P).n, (3 * (x * x) + a) * (P.Z * P.Z * (P.Z * P.Z)), p)
  {
    hide Cong, Mul, Add, Sub;
    var z := P.Z;
    var zz, xz := z * z, x * (z * z);
    Refl(p, z);
    Refl(p, a);
    var X2, Z2 := Mul(p, P.X, P.X), Mul(p, z, z);
    var twoX2, Z4 := Add(p, X2, X2), Mul(p, Z2, Z2);
    MulC(p, P.X, xz, P.X, xz);
    AddC(p, X2, xz * xz, X2, xz * xz);
    AddC(p, twoX2, xz * xz + xz * xz, X2, xz * xz);
    MulC(p, z, z, z, z);
    MulC(p, Z2, zz, Z2, zz);
    MulC(p, a, a, Z4, zz * zz);
    AddC(p, Add(p, twoX2, X2), xz * xz + xz * xz + xz * xz, Mul(p, a, Z4), a * (zz * zz));
    assert xz * xz == x * x * (zz * zz) by { ProductOfSquares(x, zz); }
    Distribute(zz * zz, 3 * (x * x), a);
    MulAssoc(3, x * x, zz * zz);
  }

  lemma TangentBottom(p: nat, a: int, P: Jacobian, y: int, c: int)
    requires 0 < p && Cong(P.Y, y * c, p)
    ensures Cong(TangentOf(p, a, P).d, 2 * y * c, p)
  {
    hide Cong, Mul, Add, Sub;
    AddC(p, P.Y, y * c, P.Y, y * c);
    MulAssoc(2, y, c);
  }

  lemma ProductOfSquares(x: int, w: int)
    ensures x * w * (x * w) == x * x * (w * w)
  {
  }

  /** The points over their common denominator, and the slope of the chord. */
  lemma PrologueIs(p: nat, P: Jacobian, Q: Jacobian, x1: int, y1: int, x2: int, y2: int)
    requires 0 < p && Scaled(p, P.X, P.Y, x1, y1, P.Z) && Scaled(p, Q.X, Q.Y, x2, y2, Q.Z)
    ensures var c, u := Prologue(p, P, Q), P.Z * Q.Z;
            && Scaled(p, c.Px, c.Py, x1, y1, u) && Cong(c.Qx, x2 * (u * u), p) && Cong(c.denom, u, p)
            && Cong(c.l.n, (y2 - y1) * (u * (u * u)), p) && Cong(c.l.d, (x2 - x1) * (u * u), p)
  {
    hide Cong, Mul, Add, Sub;
    var c, u := Prologue(p, P, Q), P.Z * Q.Z;
    var Qy := Mul(p, Q.Y, Mul(p, Mul(p, P.Z, P.Z), P.Z));
    ScaleUp(p, P.X, P.Y, x1, y1, P.Z, Q.Z);
    ScaleUp(p, Q.X, Q.Y, x2, y2, Q.Z, P.Z);
    assert Q.Z * P.Z == u;
    Refl(p, P.Z);
    Refl(p, Q.Z);
    MulC(p, P.Z, P.Z, Q.Z, Q.Z);
    SubC(p, Qy, y2 * (u * (u * u)), c.Py, y1 * (u * (u * u)));
    SubC(p, c.Qx, x2 * (u * u), c.Px, x1 * (u * u));
    Distribute(u * (u * u), y2, 0 - y1);
    Distribute(u * u, x2, 0 - x1);
  }

  lemma ScaleUp(p: nat, X: int, Y: int, x: int, y: int, z: int, w: int)
    requires 0 < p && Scaled(p, X, Y, x, y, z)
    ensures var u := z * w;
            && Cong(Mul(p, X, Mul(p, w, w)), x * (u * u), p)
            && Cong(Mul(p, Y, Mul(p, Mul(p, w, w), w)), y * (u * (u * u)), p)
  {
    hide Cong, Mul;
    var w2 := Mul(p, w, w);
    Refl(p, w);
    MulC(p, w, w, w, w);
    MulC(p, w2, w * w, w, w);
    MulC(p, X, x * (z * z), w2, w * w);
    MulC(p, Y, y * (z * (z * z)), Mul(p, w2, w), w * w * w);
    ScaleUpArith(x, y, z, w);
  }

  lemma ScaleUpArith(x: int, y: int, z: int, w: int)
    ensures x * (z * z) * (w * w) == x * (z * w * (z * w))
    ensures y * (z * (z * z)) * (w * w * w) == y * (z * w * (z * w * (z * w)))
  {
    SquareMoves(w, z, x);
    CubeMoves(w, z, y);
    assert w * w * w == w * (w * w);
  }

  /** Doubling, at a point with y other than 0. */
  lemma DoubleCorrect(p: nat, a: int, P: Jacobian, x: int, y: int, s: int, x3: int, y3: int)
    requires IsPrime(p) && 2 < p && Represents(p, P, Affine(x, y)) && y % p != 0
    requires TangentSlope(p, a, s, x, y) && Third(p, s, x, y, x, x3, y3)
    ensures Represents(p, Double(p, a, P), Affine(x3, y3))
  {
    hide Cong, Epilogue, TangentOf, IsPrime, Scaled, Third;
    var l, z := TangentOf(p, a, P), P.Z;
    DoubledSlope(p, a, P, x, y, s);
    ScaledParts(p, P.X, P.Y, x, y, z);
    TangentBottom(p, a, P, y, z * (z * z));
    Refl(p, z);
    EpilogueCorrect(p, P.X, P.X, P.Y, z, l.n, l.d, x, y, x, z, s, x3, y3);
    DenominatorNonzero(p, y, z, l.d);
    StaysNonzero(p, Double(p, a, P).Z, z * l.d);
  }

  lemma ScaledParts(p: nat, X: int, Y: int, x: int, y: int, u: int)
    requires 0 < p && Scaled(p, X, Y, x, y, u)
    ensures Cong(X, x * (u * u), p) && Cong(Y, y * (u * (u * u)), p)
  {
  }

  lemma DoubledSlope(p: nat, a: int, P: Jacobian, x: int, y: int, s: int)
    requires 0 < p && Scaled(p, P.X, P.Y, x, y, P.Z) && TangentSlope(p, a, s, x, y)
    ensures Cong(TangentOf(p, a, P).n, s * (P.Z * TangentOf(p, a, P).d), p)
  {
    hide Cong, TangentOf, Scaled;
    var l, z := TangentOf(p, a, P), P.Z;
    TangentTop(p, a, P, x, y);
    ScaledParts(p, P.X, P.Y, x, y, z);
    TangentBottom(p, a, P, y, z * (z * z));
    SlopeArith(s, y, z);
    SlopeChain(p, l.n, l.d, 3 * (x * x) + a, z * z * (z * z), 2 * y * (z * (z * z)), s, 2 * y, z);
  }

  lemma SlopeChain(p: nat, ln: int, ld: int, n: int, w: int, d: int, s: int, t: int, z: int)
    requires 0 < p && Cong(ln, n * w, p) && Cong(ld, d, p) && Cong(s * t, n, p) && s * (z * d) == s * t * w
    ensures Cong(ln, s * (z * ld), p)
  {
    CongMul(s * t, n, w, w, p);
    CongMul(z, z, ld, d, p);
    CongMul(s, s, z * ld, z * d, p);
  }

  lemma SlopeArith(s: int, y: int, z: int)
    ensures s * (z * (2 * y * (z * (z * z)))) == s * (2 * y) * (z * z * (z * z))
  {
    var t, c := 2 * y, z * (z * z);
    MulAssoc(z, t, c);
    MulAssoc(t, z, c);
    MulAssoc(z, z, z * z);
    MulAssoc(s, t, z * c);
  }

  lemma DenominatorNonzero(p: nat, y: int, z: int, d: int)
    requires IsPrime(p) && 2 < p && y % p != 0 && z % p != 0 && Cong(d, 2 * y * (z * (z * z)), p)
    ensures d % p != 0 && (z * d) % p != 0
  {
    hide IsPrime;
    SmallMod(2, p);
    ProductZero(p, 2, y);
    ProductZero(p, z, z);
    ProductZero(p, z, z * z);
    ProductZero(p, 2 * y, z * (z * z));
    ProductZero(p, z, d);
  }

  lemma StaysNonzero(p: nat, a: int, b: int)
    requires 0 < p && Cong(a, b, p) && b % p != 0
    ensures a % p != 0
  {
  }

  /** Doubling a point with y = 0, or the point at infinity, gives Z = 0. */
  lemma DoubleToInfinity(p: nat, a: int, P: Jacobian, A: Affine)
    requires 0 < p && Represents(p, P, A) && (A.Affine? ==> A.y % p == 0)
    ensures Represents(p, Double(p, a, P), Infinity)
  {
    hide Cong, Epilogue, TangentOf;
    var l := TangentOf(p, a, P);
    EpilogueIs(p, P.X, P.X, P.Y, P.Z, l.n, l.d);
    if A.Affine? {
      TangentBottom(p, a, P, A.y, P.Z * (P.Z * P.Z));
      ZeroFactors(p, 2, A.y, P.Z * (P.Z * P.Z), l.d);
      ZeroProduct(p, P.Z, l.d, Double(p, a, P).Z);
    } else {
      ZeroProduct(p, l.d, P.Z, Double(p, a, P).Z);
    }
  }

  lemma ZeroFactors(p: nat, k: int, y: int, w: int, d: int)
    requires 0 < p && y % p == 0 && Cong(d, k * y * w, p)
    ensures d % p == 0
  {
    CongZero(y, p);
    CongMul(k, k, y, 0, p);
    CongMul(k * y, 0, w, w, p);
    CongZero(d, p);
  }

  lemma ZeroProduct(p: nat, a: int, b: int, z: int)
    requires 0 < p && b % p == 0 && (Cong(z, a * b, p) || Cong(z, b * a, p))
    ensures z % p == 0
  {
    CongZero(b, p);
    CongMul(a, a, b, 0, p);
    CongZero(z, p);
  }

  // ------------------------------------------------------------------------- addition

  /** The part of addition that both routines share, for points with different x. */
  lemma ChordCorrect(p: nat, P: Jacobian, Q: Jacobian, x1: int, y1: int, x2: int, y2: int, s: int, x3: int, y3: int)
    requires IsPrime(p) && Represents(p, P, Affine(x1, y1)) && Represents(p, Q, Affine(x2, y2)) && !Cong(x1, x2, p)
    requires ChordSlope(p, s, x1, y1, x2, y2) && Third(p, s, x1, y1, x2, x3, y3)
    ensures var c := Prologue(p, P, Q);
            Represents(p, Epilogue(p, c.Px, c.Qx, c.Py, c.denom, c.l.n, c.l.d), Affine(x3, y3))
  {
    hide Cong, Epilogue, Prologue, IsPrime, Scaled, Third;
    PrimePositive(p);
    var c, u := Prologue(p, P, Q), P.Z * Q.Z;
    PrologueIs(p, P, Q, x1, y1, x2, y2);
    ChordArith(s, x2 - x1, u);
    SlopeChain(p, c.l.n, c.l.d, y2 - y1, u * (u * u), (x2 - x1) * (u * u), s, x2 - x1, u);
    EpilogueCorrect(p, c.Px, c.Qx, c.Py, c.denom, c.l.n, c.l.d, x1, y1, x2, u, s, x3, y3);
    ProductZero(p, P.Z, Q.Z);
    DifferenceNonzero(p, x1, x2);
    ChordDenominator(p, x2 - x1, u, c.l.d);
    StaysNonzero(p, Epilogue(p, c.Px, c.Qx, c.Py, c.denom, c.l.n, c.l.d).Z, u * c.l.d);
  }

  lemma ChordArith(s: int, t: int, u: int)
    ensures s * (u * (t * (u * u))) == s * t * (u * (u * u))
  {
    MulAssoc(u, t, u * u);
    MulAssoc(t, u, u * u);
    MulAssoc(s, t, u * (u * u));
  }

  lemma DifferenceNonzero(p: nat, a: int, b: int)
    requires 0 < p
    ensures (b - a) % p == 0 <==> Cong(a, b, p)
  {
    CongZero(b - a, p);
    if Cong(b - a, 0, p) {
      CongAdd(b - a, 0, a, a, p);
    }
    if Cong(a, b, p) {
      CongSub(b, b, a, b, p);
    }
  }

  lemma ChordDenominator(p: nat, t: int, u: int, d: int)
    requires IsPrime(p) && u % p != 0 && Cong(d, t * (u * u), p)
    ensures d % p == 0 <==> t % p == 0
    ensures t % p != 0 ==> (u * d) % p != 0
  {
    hide IsPrime;
    PrimePositive(p);
    ProductZero(p, u, u);
    ProductZero(p, t, u * u);
    ProductZero(p, u, d);
  }

  lemma ChordNumerator(p: nat, t: int, u: int, n: int)
    requires IsPrime(p) && u % p != 0 && Cong(n, t * (u * (u * u)), p)
    ensures n % p == 0 <==> t % p == 0
  {
    hide IsPrime;
    PrimePositive(p);
    ProductZero(p, u, u);
    ProductZero(p, u, u * u);
    ProductZero(p, t, u * (u * u));
  }

  /** The tests that the code makes on the slope tell whether the coordinates agree. */
  lemma SlopeTests(p: nat, P: Jacobian, Q: Jacobian, x1: int, y1: int, x2: int, y2: int)
    requires IsPrime(p) && Represents(p, P, Affine(x1, y1)) && Represents(p, Q, Affine(x2, y2))
    ensures var l := Prologue(p, P, Q).l;
            && (l.n == 0 <==> Cong(y1, y2, p)) && (l.d == 0 <==> Cong(x1, x2, p))
  {
    hide Cong, Prologue, IsPrime;
    PrimePositive(p);
    var l, u := Prologue(p, P, Q).l, P.Z * Q.Z;
    PrologueIs(p, P, Q, x1, y1, x2, y2);
    PrologueSmall(p, P, Q);
    ProductZero(p, P.Z, Q.Z);
    ChordDenominator(p, x2 - x1, u, l.d);
    ChordNumerator(p, y2 - y1, u, l.n);
    DifferenceNonzero(p, x1, x2);
    DifferenceNonzero(p, y1, y2);
    SmallMod(l.n, p);
    SmallMod(l.d, p);
  }

  lemma PrologueSmall(p: nat, P: Jacobian, Q: Jacobian)
    requires 0 < p
    ensures Prologue(p, P, Q).l.n < p && Prologue(p, P, Q).l.d < p
  {
  }

  /** With the same x and another y, the slope's denominator is 0, and so is the Z that comes out. */
  lemma VerticalChord(p: nat, P: Jacobian, Q: Jacobian)
    requires 0 < p && Prologue(p, P, Q).l.d == 0
    ensures var c := Prologue(p, P, Q);
            Epilogue(p, c.Px, c.Qx, c.Py, c.denom, c.l.n, c.l.d).Z == 0
  {
    hide Prologue;
    var c := Prologue(p, P, Q);
    assert c.denom * 0 == 0;
    SmallMod(0, p);
  }

  /** Two points of the curve with the same x have the same y up to sign. */
  lemma SameOrOpposite(p: nat, a: int, b: int, x1: int, y1: int, x2: int, y2: int)
    requires IsPrime(p) && OnCurve(p, a, b, x1, y1) && OnCurve(p, a, b, x2, y2) && Cong(x1, x2, p)
    ensures Cong(y1, y2, p) || Cong(y1 + y2, 0, p)
  {
    hide IsPrime;
    PrimePositive(p);
    SameRightSide(p, a, b, x1, x2);
    CongSub(y2 * y2, x2 * x2 * x2 + a * x2 + b, y1 * y1, x1 * x1 * x1 + a * x1 + b, p);
    CongSub(x2 * x2 * x2 + a * x2 + b, x1 * x1 * x1 + a * x1 + b, x1 * x1 * x1 + a * x1 + b, x1 * x1 * x1 + a * x1 + b, p);
    assert y2 * y2 - y1 * y1 == (y2 - y1) * (y1 + y2) by { SquareDifference(y1, y2); }
    CongZero((y2 - y1) * (y1 + y2), p);
    EuclidsLemma(p, y2 - y1, y1 + y2);
    DifferenceNonzero(p, y1, y2);
    CongZero(y1 + y2, p);
  }

  lemma SquareDifference(a: int, b: int)
    ensures b * b - a * a == (b - a) * (a + b)
  {
  }

  lemma SameRightSide(p: nat, a: int, b: int, x1: int, x2: int)
    requires 0 < p && Cong(x1, x2, p)
    ensures Cong(x1 * x1 * x1 + a * x1 + b, x2 * x2 * x2 + a * x2 + b, p)
  {
    CongMul(x1, x2, x1, x2, p);
    CongMul(x1 * x1, x2 * x2, x1, x2, p);
    CongMul(a, a, x1, x2, p);
    CongAdd(x1 * x1 * x1, x2 * x2 * x2, a * x1, a * x2, p);
    CongAdd(x1 * x1 * x1 + a * x1, x2 * x2 * x2 + a * x2, b, b, p);
  }

  /** ecc_weierstrass_add stops on its assertion just when the y coordinates agree, and otherwise gives the sum. */
  lemma AddPointsCorrect(p: nat, a: int, b: int, P: Jacobian, Q: Jacobian, A1: Affine, A2: Affine, A3: Affine)
    requires IsPrime(p) && A1.Affine? && A2.Affine? && Represents(p, P, A1) && Represents(p, Q, A2)
    requires OnCurve(p, a, b, A1.x, A1.y) && OnCurve(p, a, b, A2.x, A2.y) && IsSum(p, a, A1, A2, A3)
    ensures AddPoints(p, P, Q).Assertion? <==> Cong(A1.y, A2.y, p)
    ensures AddPoints(p, P, Q).Sum? ==> Represents(p, AddPoints(p, P, Q).S, A3)
  {
    hide Cong, Epilogue, Prologue, IsPrime, Third, ChordSlope, Represents;
    PrimePositive(p);
    SlopeTests(p, P, Q, A1.x, A1.y, A2.x, A2.y);
    if AddPoints(p, P, Q).Sum? {
      if Cong(A1.x, A2.x, p) {
        SameOrOpposite(p, a, b, A1.x, A1.y, A2.x, A2.y);
        VerticalChord(p, P, Q);
        ZeroIsInfinity(p, AddPoints(p, P, Q).S);
      } else {
        var s :| ChordSlope(p, s, A1.x, A1.y, A2.x, A2.y) && Third(p, s, A1.x, A1.y, A2.x, A3.x, A3.y);
        ChordCorrect(p, P, Q, A1.x, A1.y, A2.x, A2.y, s, A3.x, A3.y);
      }
    }
  }

  lemma ZeroIsInfinity(p: nat, S: Jacobian)
    requires 0 < p && S.Z == 0
    ensures Represents(p, S, Infinity)
  {
    SmallMod(0, p);
  }

  // ------------------------------------------------------------------ general addition

  /** When adding a point to itself comes out right: the tangent is taken over P's denominator only, so Q's, which is q,
      must not matter. For q = 1 it always does. */
  ghost predicate TangentScaleFits(p: nat, s: int, x: int, q: int)
    requires 0 < p
  {
    s % p == 0 || (Cong(q * q, 1, p) && (Cong(q, 1, p) || Cong(3 * x, s * s, p)))
  }

  /** The result of adding a point to itself, as multiples of powers of v: v is z times the slope's denominator. */
  lemma EqualPoints(p: nat, Px: int, Qx: int, Py: int, cz: int, ln: int, ld: int,
                    x: int, y: int, z: int, q: int, s: int, v: int)
    requires 0 < p && Scaled(p, Px, Py, x, y, z * q) && Cong(Qx, x * (z * q * (z * q)), p) && Cong(cz, z * q, p)
    requires v == z * ld && Cong(ln, s * v, p)
    ensures var S := Epilogue(p, Px, Qx, Py, cz, ln, ld);
            && Cong(S.X, (s * s - 2 * x * (q * q)) * (v * v), p)
            && Cong(S.Y, (s * (3 * x * (q * q) - s * s) - y * (q * (q * q))) * (v * (v * v)), p)
            && Cong(S.Z, q * v, p)
  {
    hide Cong, Epilogue;
    var S := Epilogue(p, Px, Qx, Py, cz, ln, ld);
    var u, t := z * q, ln * ln - ld * ld * (Px + Qx);
    EpilogueIs(p, Px, Qx, Py, cz, ln, ld);
    EqualX(p, Px, Qx, ln, ld, x, z, q, s, v);
    EqualY(p, Px, Py, ln, ld, x, y, z, q, s, v, t);
    Trans(p, S.X, t, (s * s - 2 * x * (q * q)) * (v * v));
    Trans(p, S.Y, ln * (ld * ld * Px - t) - ld * (ld * ld) * Py,
          (s * (3 * x * (q * q) - s * s) - y * (q * (q * q))) * (v * (v * v)));
    Refl(p, ld);
    Mult(p, cz, u, ld, ld);
    assert u * ld == q * v by { MulAssoc(q, z, ld); }
    Trans(p, S.Z, cz * ld, q * v);
  }

  lemma EqualX(p: nat, Px: int, Qx: int, ln: int, ld: int, x: int, z: int, q: int, s: int, v: int)
    requires 0 < p && Cong(Px, x * (z * q * (z * q)), p) && Cong(Qx, x * (z * q * (z * q)), p)
    requires v == z * ld && Cong(ln, s * v, p)
    ensures Cong(ln * ln - ld * ld * (Px + Qx), (s * s - 2 * x * (q * q)) * (v * v), p)
  {
    hide Cong;
    var w := x * (z * q * (z * q));
    Mult(p, ln, s * v, ln, s * v);
    CongAdd(Px, w, Qx, w, p);
    Refl(p, ld * ld);
    Mult(p, ld * ld, ld * ld, Px + Qx, w + w);
    CongSub(ln * ln, s * v * (s * v), ld * ld * (Px + Qx), ld * ld * (w + w), p);
    EqualXArith(ld, z, q, x);
    EqualXSum(ld * ld, s, x, q * q, v, w);
  }

  lemma EqualXSum(d: int, s: int, x: int, q: int, v: int, w: int)
    requires d * w == x * q * (v * v)
    ensures s * v * (s * v) - d * (w + w) == (s * s - 2 * x * q) * (v * v)
  {
    var k := x * q;
    Distribute(d, w, w);
    ProductOfSquares(s, v);
    MulAssoc(2, x, q);
    MulAssoc(2, k, v * v);
    Distribute(v * v, s * s, 0 - 2 * k);
  }

  lemma EqualXArith(d: int, z: int, q: int, x: int)
    ensures d * d * (x * (z * q * (z * q))) == x * (q * q) * (z * d * (z * d))
  {
    ProductOfSquares(z, q);
    ProductOfSquares(z, d);
    MulAssoc(d * d, x, z * z * (q * q));
    MulAssoc(x, q * q, z * z * (d * d));
    MulAssoc(d * d, z * z, q * q);
    MulAssoc(q * q, z * z, d * d);
    MulAssoc(x, d * d, z * z * (q * q));
  }

  lemma EqualY(p: nat, Px: int, Py: int, ln: int, ld: int, x: int, y: int, z: int, q: int, s: int, v: int, t: int)
    requires 0 < p && Scaled(p, Px, Py, x, y, z * q) && v == z * ld && Cong(ln, s * v, p)
    requires Cong(t, (s * s - 2 * x * (q * q)) * (v * v), p)
    ensures Cong(ln * (ld * ld * Px - t) - ld * (ld * ld) * Py,
                 (s * (3 * x * (q * q) - s * s) - y * (q * (q * q))) * (v * (v * v)), p)
  {
    hide Cong;
    var u, d2, e := z * q, ld * ld, s * s - 2 * x * (q * q);
    var w, c := x * (u * u), y * (u * (u * u));
    Refl(p, d2);
    Refl(p, ld * d2);
    Mult(p, d2, d2, Px, w);
    CongSub(d2 * Px, d2 * w, t, e * (v * v), p);
    Mult(p, ln, s * v, d2 * Px - t, d2 * w - e * (v * v));
    Mult(p, ld * d2, ld * d2, Py, c);
    CongSub(ln * (d2 * Px - t), s * v * (d2 * w - e * (v * v)), ld * d2 * Py, ld * d2 * c, p);
    assert d2 * w == x * (q * q) * (v * v) by { EqualXArith(ld, z, q, x); }
    assert ld * d2 * c == y * (q * (q * q)) * (v * (v * v)) by { EqualYArith(ld, z, q, y); }
    Regroup(s, v, x * (q * q), e, v * v);
    assert x * (q * q) - e == 3 * x * (q * q) - s * s by { MulAssoc(2, x, q * q); MulAssoc(3, x, q * q); }
    Distribute(v * (v * v), s * (3 * x * (q * q) - s * s), 0 - y * (q * (q * q)));
  }

  lemma EqualYArith(d: int, z: int, q: int, y: int)
    ensures d * (d * d) * (y * (z * q * (z * q * (z * q)))) == y * (q * (q * q)) * (z * d * (z * d * (z * d)))
  {
    CubeOfProduct(q, z);
    CubeOfProduct(d, z);
    var dd, zz, qq := d * (d * d), z * (z * z), q * (q * q);
    assert d * (d * d) * (y * (qq * zz)) == y * qq * (dd * zz) by { Shuffle4(dd, y, qq, zz); }
  }

  lemma Shuffle4(d: int, y: int, q: int, z: int)
    ensures d * (y * (q * z)) == y * q * (d * z)
  {
    MulAssoc(d, y, q * z);
    MulAssoc(y, d, q * z);
    MulAssoc(d, q, z);
    MulAssoc(q, d, z);
    MulAssoc(y, q, d * z);
  }

  /** Whether the two coordinates so obtained are those of the double. */
  lemma EqualPointsRight(p: nat, S: Jacobian, x: int, y: int, q: int, s: int, v: int, x3: int, y3: int)
    requires IsPrime(p) && q % p != 0 && v % p != 0 && Third(p, s, x, y, x, x3, y3)
    requires Cong(S.X, (s * s - 2 * x * (q * q)) * (v * v), p) && Cong(S.Z, q * v, p)
    requires Cong(S.Y, (s * (3 * x * (q * q) - s * s) - y * (q * (q * q))) * (v * (v * v)), p)
    ensures Represents(p, S, Affine(x3, y3)) <==> TangentScaleFits(p, s, x, q)
  {
    hide Cong, IsPrime, Third, TangentScaleFits;
    PrimePositive(p);
    ProductZero(p, q, v);
    StaysNonzero(p, S.Z, q * v);
    ProductZero(p, v, v);
    ProductZero(p, v, v * v);
    ScaledX(p, S.X, S.Z, x, q, s, v, x3, y, y3);
    ScaledY(p, S.Y, S.Z, x, y, q, s, v, x3, y3);
    WhenItFits(p, s, x, q);
  }

  /** x3 Z^2 is X just when s^2 is s^2 q^2. */
  lemma ScaledX(p: nat, X: int, Z: int, x: int, q: int, s: int, v: int, x3: int, y: int, y3: int)
    requires IsPrime(p) && (v * v) % p != 0 && Third(p, s, x, y, x, x3, y3) && Cong(Z, q * v, p)
    requires Cong(X, (s * s - 2 * x * (q * q)) * (v * v), p)
    ensures Cong(X, x3 * (Z * Z), p) <==> Cong(s * s, s * s * (q * q), p)
  {
    hide Cong, IsPrime;
    PrimePositive(p);
    var w, e := v * v, s * s - 2 * x * (q * q);
    var f := (s * s - x - x) * (q * q);
    Mult(p, Z, q * v, Z, q * v);
    Mult(p, x3, s * s - x - x, Z * Z, q * v * (q * v));
    ProductOfSquares(q, v);
    MulAssoc(s * s - x - x, q * q, w);
    SwapSides(p, X, x3 * (Z * Z), e * w, f * w);
    CancelFactor(p, w, e, f);
    assert e * w == w * e && f * w == w * f;
    assert f == s * s * (q * q) - 2 * x * (q * q) by { Distribute(q * q, s * s, 0 - 2 * x); }
    AddBoth(p, s * s, s * s * (q * q), 2 * x * (q * q));
  }

  lemma SwapSides(p: nat, a: int, b: int, a': int, b': int)
    requires 0 < p && Cong(a, a', p) && Cong(b, b', p)
    ensures Cong(a, b, p) <==> Cong(a', b', p)
  {
  }

  lemma AddBoth(p: nat, a: int, b: int, c: int)
    requires 0 < p
    ensures Cong(a - c, b - c, p) <==> Cong(a, b, p)
  {
    if Cong(a, b, p) { CongSub(a, b, c, c, p); }
    if Cong(a - c, b - c, p) { CongAdd(a - c, b - c, c, c, p); }
  }

  /** y3 Z^3 is Y just when s(3xq^2 - s^2) is q^3 s(3x - s^2). */
  lemma ScaledY(p: nat, Y: int, Z: int, x: int, y: int, q: int, s: int, v: int, x3: int, y3: int)
    requires IsPrime(p) && (v * (v * v)) % p != 0 && Third(p, s, x, y, x, x3, y3) && Cong(Z, q * v, p)
    requires Cong(Y, (s * (3 * x * (q * q) - s * s) - y * (q * (q * q))) * (v * (v * v)), p)
    ensures Cong(Y, y3 * (Z * (Z * Z)), p) <==> Cong(s * (3 * x * (q * q) - s * s), s * (3 * x - s * s) * (q * (q * q)), p)
  {
    hide Cong, IsPrime;
    PrimePositive(p);
    var w, q3 := v * (v * v), q * (q * q);
    var e, g := s * (3 * x * (q * q) - s * s) - y * q3, s * (3 * x - s * s) - y;
    assert Cong(y3, g, p) by { DoubledY(p, s, x, y, x3, y3); }
    Mult(p, Z, q * v, Z, q * v);
    Mult(p, Z, q * v, Z * Z, q * v * (q * v));
    Mult(p, y3, g, Z * (Z * Z), q * v * (q * v * (q * v)));
    assert q * v * (q * v * (q * v)) == q3 * w by { CubeOfProduct(v, q); }
    MulAssoc(g, q3, w);
    SwapSides(p, Y, y3 * (Z * (Z * Z)), e * w, g * q3 * w);
    CancelFactor(p, w, e, g * q3);
    assert e * w == w * e && g * q3 * w == w * (g * q3);
    assert g * q3 == s * (3 * x - s * s) * q3 - y * q3 by { Distribute(q3, s * (3 * x - s * s), 0 - y); }
    AddBoth(p, s * (3 * x * (q * q) - s * s), s * (3 * x - s * s) * q3, y * q3);
  }

  lemma DoubledY(p: nat, s: int, x: int, y: int, x3: int, y3: int)
    requires 0 < p && Third(p, s, x, y, x, x3, y3)
    ensures Cong(y3, s * (3 * x - s * s) - y, p)
  {
    CongSub(x, x, x3, s * s - x - x, p);
    CongMul(s, s, x - x3, 3 * x - s * s, p);
    CongSub(s * (x - x3), s * (3 * x - s * s), y, y, p);
  }

  /** The two conditions together. */
  lemma WhenItFits(p: nat, s: int, x: int, q: int)
    requires IsPrime(p) && q % p != 0
    ensures TangentScaleFits(p, s, x, q) <==>
            && Cong(s * s, s * s * (q * q), p)
            && Cong(s * (3 * x * (q * q) - s * s), s * (3 * x - s * s) * (q * (q * q)), p)
  {
    hide IsPrime;
    PrimePositive(p);
    var r, q2 := 3 * x - s * s, q * q;
    if s % p == 0 {
      CongZero(s, p);
      CongMul(s, 0, s, s, p);
      CongMul(s * s, 0, q2, q2, p);
      CongMul(s, 0, 3 * x * q2 - s * s, 3 * x * q2 - s * s, p);
      CongMul(s, 0, r, r, p);
      CongMul(s * r, 0, q * q2, q * q2, p);
    } else {
      ProductZero(p, s, s);
      CancelFactor(p, s * s, 1, q2);
      assert s * s * 1 == s * s;
      if Cong(q2, 1, p) {
        FitsAtUnit(p, s, x, q);
      }
    }
  }

  lemma FitsAtUnit(p: nat, s: int, x: int, q: int)
    requires IsPrime(p) && s % p != 0 && Cong(q * q, 1, p)
    ensures Cong(s * (3 * x * (q * q) - s * s), s * (3 * x - s * s) * (q * (q * q)), p) <==>
            Cong(q, 1, p) || Cong(3 * x, s * s, p)
  {
    hide IsPrime, Cong;
    PrimePositive(p);
    var r, q2 := 3 * x - s * s, q * q;
    Refl(p, 3 * x);
    Refl(p, s);
    Refl(p, s * s);
    Refl(p, s * r);
    Refl(p, q);
    Mult(p, 3 * x, 3 * x, q2, 1);
    CongSub(3 * x * q2, 3 * x, s * s, s * s, p);
    Mult(p, s, s, 3 * x * q2 - s * s, r);
    Mult(p, q, q, q2, 1);
    Mult(p, s * r, s * r, q * q2, q);
    SwapSides(p, s * (3 * x * q2 - s * s), s * r * (q * q2), s * r, s * r * q);
    MulAssoc(s, r, q);
    CancelFactor(p, s, r, r * q);
    UnitOrZero(p, r, q);
    DifferenceNonzero(p, s * s, 3 * x);
    Flip(p, s * s, 3 * x);
  }

  lemma Flip(p: nat, a: int, b: int)
    requires 0 < p
    ensures Cong(a, b, p) <==> Cong(b, a, p)
  {
  }

  lemma UnitOrZero(p: nat, r: int, q: int)
    requires IsPrime(p)
    ensures Cong(r, r * q, p) <==> Cong(q, 1, p) || r % p == 0
  {
    hide IsPrime;
    PrimePositive(p);
    ProductZero(p, r, q - 1);
    assert r * q - r == r * (q - 1);
    DifferenceNonzero(p, r, r * q);
    DifferenceNonzero(p, 1, q);
    Flip(p, 1, q);
  }

  /** Adding a point, with y other than 0, to itself. */
  lemma AddToItself(p: nat, a: int, P: Jacobian, Q: Jacobian, x: int, y: int, x2: int, y2: int, s: int, x3: int, y3: int)
    requires IsPrime(p) && 2 < p && Represents(p, P, Affine(x, y)) && Represents(p, Q, Affine(x2, y2))
    requires Cong(x, x2, p) && Cong(y, y2, p) && y % p != 0
    requires TangentSlope(p, a, s, x, y) && Third(p, s, x, y, x, x3, y3)
    ensures var c, l := Prologue(p, P, Q), TangentOf(p, a, P);
            var S := Epilogue(p, c.Px, c.Qx, c.Py, c.denom, l.n, l.d);
            && S.Z % p != 0
            && (Represents(p, S, Affine(x3, y3)) <==> TangentScaleFits(p, s, x, Q.Z))
  {
    hide Cong, Epilogue, Prologue, TangentOf, IsPrime, Third, TangentScaleFits;
    var c, l, z, q := Prologue(p, P, Q), TangentOf(p, a, P), P.Z, Q.Z;
    var S, v := Epilogue(p, c.Px, c.Qx, c.Py, c.denom, l.n, l.d), z * l.d;
    PrologueIs(p, P, Q, x, y, x2, y2);
    Refl(p, z * q * (z * q));
    Flip(p, x, x2);
    Mult(p, x2, x, z * q * (z * q), z * q * (z * q));
    Trans(p, c.Qx, x2 * (z * q * (z * q)), x * (z * q * (z * q)));
    DoubledSlope(p, a, P, x, y, s);
    TangentBottom(p, a, P, y, z * (z * z));
    DenominatorNonzero(p, y, z, l.d);
    EqualPoints(p, c.Px, c.Qx, c.Py, c.denom, l.n, l.d, x, y, z, q, s, v);
    EqualPointsRight(p, S, x, y, q, s, v, x3, y3);
    ProductZero(p, q, v);
    StaysNonzero(p, S.Z, q * v);
  }

  /** ecc_weierstrass_add_general, in every case but that of a finite point added to itself: the sum, and the point at
      infinity always as (0, 0, 0). */
  lemma AddGeneralCorrect(p: nat, a: int, b: int, P: Jacobian, Q: Jacobian, A1: Affine, A2: Affine, A3: Affine)
    requires IsPrime(p) && Represents(p, P, A1) && Represents(p, Q, A2) && 0 <= P.Z < p && 0 <= Q.Z < p
    requires A1.Affine? ==> OnCurve(p, a, b, A1.x, A1.y)
    requires A2.Affine? ==> OnCurve(p, a, b, A2.x, A2.y)
    requires IsSum(p, a, A1, A2, A3)
    requires !(A1.Affine? && A2.Affine? && Cong(A1.x, A2.x, p) && !Cong(A1.y + A2.y, 0, p))
    ensures Represents(p, AddGeneral(p, a, P, Q), A3)
    ensures A3.Infinity? ==> AddGeneral(p, a, P, Q) == Jacobian(0, 0, 0)
  {
    hide Cong, Epilogue, Prologue, TangentOf, IsPrime, Third, ChordSlope, Scaled, OnCurve;
    PrimePositive(p);
    SmallMod(P.Z, p);
    SmallMod(Q.Z, p);
    SmallMod(0, p);
    if A1.Affine? && A2.Affine? {
      SlopeTests(p, P, Q, A1.x, A1.y, A2.x, A2.y);
      if Cong(A1.x, A2.x, p) {
        GeneralVertical(p, a, P, Q, A1, A2);
      } else {
        var s :| ChordSlope(p, s, A1.x, A1.y, A2.x, A2.y) && Third(p, s, A1.x, A1.y, A2.x, A3.x, A3.y);
        ChordCorrect(p, P, Q, A1.x, A1.y, A2.x, A2.y, s, A3.x, A3.y);
      }
    }
  }

  lemma GeneralVertical(p: nat, a: int, P: Jacobian, Q: Jacobian, A1: Affine, A2: Affine)
    requires IsPrime(p) && Represents(p, P, A1) && Represents(p, Q, A2) && 0 < P.Z < p && 0 < Q.Z < p
    requires A1.Affine? && A2.Affine? && Cong(A1.x, A2.x, p) && Cong(A1.y + A2.y, 0, p)
    ensures AddGeneral(p, a, P, Q) == Jacobian(0, 0, 0)
  {
    hide Cong, Prologue, TangentOf, IsPrime, Epilogue;
    PrimePositive(p);
    var c, t := Prologue(p, P, Q), TangentOf(p, a, P);
    SlopeTests(p, P, Q, A1.x, A1.y, A2.x, A2.y);
    if c.l.n == 0 {
      TangentVertical(p, a, P, A1, A2);
      VerticalTangent(p, c, t);
    } else {
      VerticalChord(p, P, Q);
    }
  }

  /** A point that is its own opposite has y = 0 (or p is 2), and a tangent without denominator. */
  lemma TangentVertical(p: nat, a: int, P: Jacobian, A1: Affine, A2: Affine)
    requires IsPrime(p) && Represents(p, P, A1) && A1.Affine? && A2.Affine?
    requires Cong(A1.y, A2.y, p) && Cong(A1.y + A2.y, 0, p)
    ensures TangentOf(p, a, P).d == 0
  {
    hide TangentOf, IsPrime;
    PrimePositive(p);
    var d, z3 := TangentOf(p, a, P).d, P.Z * (P.Z * P.Z);
    TangentBottom(p, a, P, A1.y, z3);
    CongAdd(A1.y, A1.y, A1.y, A2.y, p);
    assert A1.y + A1.y == 2 * A1.y;
    CongMul(2 * A1.y, 0, z3, z3, p);
    TangentSmall(p, a, P);
    CongSmall(d, 0, p);
  }

  lemma TangentSmall(p: nat, a: int, P: Jacobian)
    requires 0 < p
    ensures TangentOf(p, a, P).d < p
  {
  }

  lemma VerticalTangent(p: nat, c: Common, t: Slope)
    requires 0 < p && t.d == 0
    ensures Epilogue(p, c.Px, c.Qx, c.Py, c.denom, t.n, t.d).Z == 0
  {
    assert c.denom * 0 == 0;
    SmallMod(0, p);
  }

  /** And adding a finite point to itself is right just when the scale of the tangent fits; with Q.Z = 1 it always is. */
  lemma AddGeneralDoubles(p: nat, a: int, P: Jacobian, Q: Jacobian, A1: Affine, A2: Affine, A3: Affine, s: int)
    requires IsPrime(p) && 2 < p && Represents(p, P, A1) && Represents(p, Q, A2) && 0 <= P.Z < p && 0 <= Q.Z < p
    requires A1.Affine? && A2.Affine? && A3.Affine? && Cong(A1.x, A2.x, p) && Cong(A1.y, A2.y, p) && A1.y % p != 0
    requires TangentSlope(p, a, s, A1.x, A1.y) && Third(p, s, A1.x, A1.y, A1.x, A3.x, A3.y)
    ensures Represents(p, AddGeneral(p, a, P, Q), A3) <==> TangentScaleFits(p, s, A1.x, Q.Z)
    ensures Q.Z == 1 ==> Represents(p, AddGeneral(p, a, P, Q), A3)
  {
    hide Cong, Epilogue, Prologue, TangentOf, IsPrime, Third, TangentSlope, Scaled, TangentScaleFits;
    SmallMod(P.Z, p);
    SmallMod(Q.Z, p);
    SmallMod(0, p);
    SlopeTests(p, P, Q, A1.x, A1.y, A2.x, A2.y);
    AddToItself(p, a, P, Q, A1.x, A1.y, A2.x, A2.y, s, A3.x, A3.y);
    FitsAtOne(p, s, A1.x);
  }

  lemma FitsAtOne(p: nat, s: int, x: int)
    requires 0 < p
    ensures TangentScaleFits(p, s, x, 1)
  {
  }
}
