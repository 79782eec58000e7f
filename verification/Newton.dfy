/**
 The error analysis of division by Newton-Raphson reciprocals.

 R is a large power of two, r an approximation to R/d, and the error of r is
 e = d*r - R. The analysis is over the integers: every rounding is a division
 with remainder.
 */
module Newton {
  import opened Arithmetic

  function Error(d: int, r: int, R: int): int {
    d * r - R
  }

  /** r has g good bits, or is as close to R/d as rounding lets it come. */
  predicate Accurate(d: nat, r: nat, R: nat, g: nat) {
    Abs(Error(d, r, R)) * Pow2(g) <= R || Abs(Error(d, r, R)) <= 2 * d
  }

  lemma AbsBounds(e: int, b: int)
    ensures Abs(e) <= b <==> -b <= e <= b
    ensures e * e == Abs(e) * Abs(e) >= 0
  {
    MulLe(0, Abs(e), Abs(e));
  }

  /** An accurate approximation is off by less than all of R. */
  lemma AccurateBound(d: nat, r: nat, R: nat, g: nat)
    requires 0 < g && 0 < d && 4 * d <= R && Accurate(d, r, R, g)
    ensures 0 < R && 0 - R < Error(d, r, R) < R
  {
    hide Pow2, Error;
    var a := Abs(Error(d, r, R));
    if a * Pow2(g) <= R {
      Pow2Le(1, g);
      Pow2Step(0);
      MulLe(2, Pow2(g), a);
    }
    AbsBounds(Error(d, r, R), a);
  }

  function NextTimesR(d: nat, r: nat, R: nat): int {
    r * (2 * R - d * r)
  }

  /** The next iterate: r (2R - d r) / R, rounded down. */
  function Next(d: nat, r: nat, R: nat): int
    requires 0 < R
  {
    NextTimesR(d, r, R) / R
  }

  /** The exact error of the next iterate: the square of the old one, plus d times the rounding. */
  lemma NextError(d: nat, r: nat, R: nat) returns (rho: int)
    requires 0 < R
    ensures 0 <= rho < R
    ensures var e := Error(d, r, R); R * (0 - Error(d, Next(d, r, R), R)) == e * e + d * rho
  {
    var p := r * (2 * R - d * r);
    var r', e := Next(d, r, R), Error(d, r, R);
    rho := p % R;
    assert p == r' * R + rho;
    calc {
      d * p;
      { MulAssoc(d, r, 2 * R - d * r); }
      (R + e) * (R - e);
      { Distribute(R - e, R, e); Distribute(R, R, e); Distribute(e, R, e); }
      R * R - e * e;
    }
    calc {
      R * (0 - Error(d, r', R));
      R * (R - d * r');
      { Distribute(R, R, d * r'); }
      R * R - R * (d * r');
      { MulAssoc(R, d, r'); assert r' * R == R * r'; Distribute(d, r' * R, rho); }
      R * R - (d * p - d * rho);
      e * e + d * rho;
    }
  }

  /** Each iteration nearly doubles the number of good bits, and from then on r is never too big. */
  lemma NewtonStep(d: nat, r: nat, R: nat, g: nat)
    requires 0 < g && 0 < d && 4 * d <= R && Accurate(d, r, R, g)
    ensures 0 <= d * r < 2 * R
    ensures 0 <= Next(d, r, R) <= R
    ensures Error(d, Next(d, r, R), R) <= 0
    ensures Accurate(d, Next(d, r, R), R, 2 * g - 1)
  {
    hide Next, Accurate, Pow2;
    AccurateBound(d, r, R, g);
    MulLe(0, d, r);
    var rho := NextError(d, r, R);
    var e, r' := Error(d, r, R), Next(d, r, R);
    var a' := 0 - Error(d, r', R);
    MulLe(0, d, rho);
    AbsBounds(e, 0);
    assert 0 <= a' by {
      if a' < 0 { MulLt(a', 0, R); }
    }
    NextIsNonNegative(d, r, R);
    if r' > R { MulLe(1, d, r'); }
    NextAccuracy(d, e, rho, R, g, a', r, r');
  }

  lemma NextIsNonNegative(d: nat, r: nat, R: nat)
    requires 0 < R && d * r < 2 * R
    ensures 0 <= Next(d, r, R)
  {
    MulLe(0, r, 2 * R - d * r);
    DivNonNeg(r * (2 * R - d * r), R);
  }

  lemma NextAccuracy(d: nat, e: int, rho: int, R: nat, g: nat, a': int, r: nat, r': nat)
    requires 0 < g && 0 < d && 4 * d <= R && 0 <= rho < R && 0 <= a'
    requires Accurate(d, r, R, g) && e == Error(d, r, R) && a' == 0 - Error(d, r', R)
    requires R * a' == e * e + d * rho
    ensures Accurate(d, r', R, 2 * g - 1)
  {
    hide Pow2, Error;
    var a := Abs(e);
    AbsBounds(e, a);
    assert Abs(Error(d, r', R)) == a';
    MulLt(rho, R, d);
    if a * a <= d * R {
      RoundingDominates(d, a * a, rho, R, a');
    } else {
      assert a * Pow2(g) <= R by {
        if a <= 2 * d { SmallSquare(a, d, R); }
      }
      SquareBits(a, a', R, g);
    }
  }

  /** Both parts of the new error are below d, scaled by R. */
  lemma RoundingDominates(d: nat, s: nat, rho: nat, R: nat, a': nat)
    requires 0 < d && rho < R && s <= d * R && R * a' == s + d * rho
    ensures a' <= 2 * d
  {
    MulLt(rho, R, d);
    assert a' * R < 2 * d * R;
    MulLtCancel(a', 2 * d, R);
  }

  lemma SmallSquare(a: nat, d: nat, R: nat)
    requires a <= 2 * d && 4 * d <= R
    ensures a * a <= d * R
  {
    MulLeBoth(a, 2 * d, a, 2 * d);
    assert 2 * d * (2 * d) == d * (4 * d);
    MulLe(4 * d, R, d);
  }

  lemma SquareBits(a: nat, a': nat, R: nat, g: nat)
    requires 0 < g && 0 < R && a * Pow2(g) <= R && R * a' <= 2 * (a * a)
    ensures a' * Pow2(2 * g - 1) <= R
  {
    hide Pow2;
    var p, h := Pow2(g), Pow2(2 * g - 1);
    Pow2Add(g, g);
    Pow2Step(2 * g - 1);
    MulLeBoth(a * p, R, a * p, R);
    calc {
      R * a' * (2 * h);
    <= { MulLe(R * a', 2 * (a * a), 2 * h); }
      2 * (a * a) * (p * p);
      { assert a * a * (p * p) == a * p * (a * p); }
      2 * (a * p * (a * p));
    <= 2 * (R * R);
    }
    assert R * (a' * h) * 2 == R * a' * (2 * h);
    assert a' * h * R <= R * R;
    MulLeCancel(a' * h, R, R);
  }

  /** The quotient before correction. */
  function RawQuotient(n: nat, r: nat, R: nat): int
    requires 0 < R
  {
    n * r / R
  }

  /** Multiplying n by the reciprocal leaves a remainder of at most d: one correction is always enough. */
  lemma QuotientError(n: nat, d: nat, r: nat, R: nat, g: nat)
    requires 0 < d && 0 < R && n <= Pow2(g) && 2 * (n * d) <= R
    requires Accurate(d, r, R, g) && Error(d, r, R) <= 0
    ensures 0 <= RawQuotient(n, r, R)
    ensures 0 <= n - RawQuotient(n, r, R) * d <= d
  {
    hide Pow2, Error;
    var e, q, sigma := 0 - Error(d, r, R), n * r / R, n * r % R;
    MulLe(0, n, r);
    DivNonNeg(n * r, R);
    ScaledRemainder(n, d, r, R, q, sigma);
    NegligibleError(n, d, e, R, Pow2(g));
    RemainderBound(R, n - q * d, n * e, sigma, d);
  }

  lemma RemainderBound(R: nat, rem: int, ne: int, sigma: nat, d: nat)
    requires 0 < R && 0 < d && sigma < R && 0 <= ne <= R && R * rem == ne + sigma * d
    ensures 0 <= rem <= d
  {
    MulLe(0, sigma, d);
    MulLt(sigma, R, d);
    if rem < 0 { MulLt(rem, 0, R); }
    assert R * rem < (d + 1) * R by { Distribute(R, d, 1); }
    MulLtCancel(rem, d + 1, R);
  }

  lemma NegligibleError(n: nat, d: nat, e: nat, R: nat, p: nat)
    requires n <= p && 2 * (n * d) <= R && (e * p <= R || e <= 2 * d)
    ensures 0 <= n * e <= R
  {
    MulLe(0, n, e);
    if e * p <= R {
      MulLe(n, p, e);
    } else {
      MulLe(e, 2 * d, n);
      assert n * (2 * d) == 2 * (n * d);
    }
  }

  lemma ScaledRemainder(n: nat, d: nat, r: nat, R: nat, q: int, sigma: int)
    requires n * r == q * R + sigma
    ensures R * (n - q * d) == n * (0 - Error(d, r, R)) + sigma * d
  {
    calc {
      R * (n - q * d);
      { Distribute(R, n, q * d); MulAssoc(R, q, d); }
      n * R - q * R * d;
      n * R - (n * r - sigma) * d;
      { Distribute(d, n * r, sigma); MulAssoc(n, r, d); }
      n * R - n * (d * r) + sigma * d;
      { Distribute(n, R, d * r); }
      n * (0 - Error(d, r, R)) + sigma * d;
    }
  }

  /** The raw quotient is the true one, or one less, and the latter only when d divides n. */
  lemma RawQuotientIsClose(n: nat, d: nat, q: nat)
    requires 0 < d && 0 <= n - q * d <= d
    ensures q == n / d || (q == n / d - 1 && n % d == 0)
    ensures q == n / d <==> n - q * d < d
  {
    if n - q * d == d {
      Distribute(d, q, 1);
      DivModUnique(n, d, q + 1, 0);
    } else {
      DivModUnique(n, d, q, n - q * d);
    }
  }

  /**
   The seed. The top 32 bits x of d are inverted by a routine whose result rec is
   within 2047 of 2^63/x; scaled to the size of R, that is 20 good bits.
   That x is the top of d is written x * unit <= d * m < (x + 1) * unit.
   */
  lemma SeedAccuracy(d: nat, m: nat, x: nat, unit: nat, rec: nat, scale: nat, R: nat)
    requires 0 < m && x * unit <= d * m < (x + 1) * unit
    requires x < 0x1_0000_0000 && rec < 0x1_0000_0000
    requires Abs(rec * x - 0x8000_0000_0000_0000) <= 2047 * x
    requires unit * scale * 0x8000_0000_0000_0000 == R * m
    ensures Abs(Error(d, rec * scale, R)) * 0x10_0000 <= R
  {
    hide Error;
    var t, u, e := unit * scale, rec * x, Error(d, rec * scale, R);
    MulLe(0, unit, scale);
    SeedBounds(d * m, x, unit, rec, scale);
    AbsBounds(u - 0x8000_0000_0000_0000, 2047 * x);
    SeedInterval(u, rec, t);
    assert d * m * (rec * scale) == e * m + R * m by { ErrorTimes(d, rec * scale, R, m); }
    AbsBounds(e * m, 2048 * 0x1_0000_0000 * t);
    AbsTimes(e, m);
    var a := Abs(e) * 0x10_0000;
    assert a * m == Abs(e) * m * 0x10_0000;
    MulLeCancel(a, R, m);
  }

  lemma ErrorTimes(d: nat, r: nat, R: nat, m: nat)
    ensures d * m * r == Error(d, r, R) * m + R * m
  {
    MulAssoc(d, r, m);
    MulAssoc(d, m, r);
    Distribute(m, Error(d, r, R), R);
  }

  /** Both ends of the interval are within 2048 * 2^32 of 2^63. */
  lemma SeedInterval(u: nat, rec: nat, t: nat)
    requires 0x8000_0000_0000_0000 - 2047 * 0x1_0000_0000 <= u <= 0x8000_0000_0000_0000 + 2047 * 0x1_0000_0000
    requires rec < 0x1_0000_0000
    ensures 0x8000_0000_0000_0000 * t - 2048 * 0x1_0000_0000 * t <= u * t
    ensures (u + rec) * t <= 0x8000_0000_0000_0000 * t + 2048 * 0x1_0000_0000 * t
  {
    var c, w := 0x8000_0000_0000_0000, 2048 * 0x1_0000_0000;
    MulLe(c - w, u, t);
    MulLe(u + rec, c + w, t);
    Distribute(t, c, w);
  }

  lemma SeedBounds(dm: nat, x: nat, unit: nat, rec: nat, scale: nat)
    requires x * unit <= dm < (x + 1) * unit
    ensures rec * x * (unit * scale) <= dm * (rec * scale) <= (rec * x + rec) * (unit * scale)
  {
    MulLe(0, rec, scale);
    MulLe(x * unit, dm, rec * scale);
    MulLe(dm, (x + 1) * unit, rec * scale);
    Rearrange(x, unit, rec, scale);
    Rearrange(x + 1, unit, rec, scale);
    Distribute(rec, x, 1);
  }

  lemma AbsTimes(e: int, m: nat)
    ensures Abs(e * m) == Abs(e) * m
  {
    if e < 0 { MulLe(e, 0, m); } else { MulLe(0, e, m); }
  }

  lemma Rearrange(a: int, b: int, c: int, d: int)
    ensures a * b * (c * d) == a * c * (b * d)
  {
    MulAssoc(a * b, c, d);
    assert a * b * c == a * c * b;
    MulAssoc(a * c, b, d);
  }
}
