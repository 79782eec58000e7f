/**
 The seed of the reciprocal: a polynomial in fixed point, evaluated with shifts that
 round down, is within 2047 of 2^63/x for every x.

 The proof bounds the polynomial without its roundings by the sizes of its Taylor
 coefficients, on eighteen pieces of the interval, and the roundings by themselves.
 */
module Seed {
  import opened Arithmetic

  // -------------------------------------------------------------- bounds on polynomials

  /** A polynomial of degree at most nine. */
  datatype Poly = Poly(c0: int, c1: int, c2: int, c3: int, c4: int, c5: int, c6: int, c7: int, c8: int, c9: int)

  const ZERO := Poly(0, 0, 0, 0, 0, 0, 0, 0, 0, 0)

  function Coef(p: Poly, i: nat): int {
    match i
    case 0 => p.c0
    case 1 => p.c1
    case 2 => p.c2
    case 3 => p.c3
    case 4 => p.c4
    case 5 => p.c5
    case 6 => p.c6
    case 7 => p.c7
    case 8 => p.c8
    case _ => p.c9
  }

  /** The part of p from its nth coefficient counted from the top, divided by a power of x. */
  function Top(p: Poly, x: int, n: nat): int {
    if n == 0 || n > 10 then 0 else Coef(p, 10 - n) + x * Top(p, x, n - 1)
  }

  function Eval(p: Poly, x: int): int { Top(p, x, 10) }

  /** The coefficients of p divided by x - a, and then the remainder, which is the value at a. */
  function Quotient(p: Poly, a: int): Poly {
    var b8 := p.c8 + a * p.c9;
    var b7 := p.c7 + a * b8;
    var b6 := p.c6 + a * b7;
    var b5 := p.c5 + a * b6;
    var b4 := p.c4 + a * b5;
    var b3 := p.c3 + a * b4;
    var b2 := p.c2 + a * b3;
    var b1 := p.c1 + a * b2;
    Poly(b1, b2, b3, b4, b5, b6, b7, b8, p.c9, 0)
  }

  predicate IsQuotient(p: Poly, q: Poly, a: int) {
    && q.c9 == 0 && q.c8 == p.c9 && q.c7 == p.c8 + a * q.c8 && q.c6 == p.c7 + a * q.c7
    && q.c5 == p.c6 + a * q.c6 && q.c4 == p.c5 + a * q.c5 && q.c3 == p.c4 + a * q.c4
    && q.c2 == p.c3 + a * q.c3 && q.c1 == p.c2 + a * q.c2 && q.c0 == p.c1 + a * q.c1
  }

  lemma QuotientCoef(p: Poly, q: Poly, a: int, i: nat)
    requires IsQuotient(p, q, a) && i < 9
    ensures Coef(q, i) == Coef(p, i + 1) + a * Coef(q, i + 1)
  {
  }

  lemma QuotientStep(c: int, x: int, a: int, e: int, b: int, q: int)
    requires e == b + (x - a) * q
    ensures c + x * e == (c + a * b) + (x - a) * (b + x * q)
  {
    Distribute(x, b, (x - a) * q);
    Distribute(x - a, b, x * q);
    MulAssoc(x, x - a, q);
    MulAssoc(x - a, x, q);
  }

  lemma {:induction false} QuotientTop(p: Poly, q: Poly, a: int, x: int, n: nat)
    requires IsQuotient(p, q, a) && 0 < n <= 10
    ensures Top(p, x, n) == Coef(p, 10 - n) + a * Coef(q, 10 - n) + (x - a) * Top(q, x, n)
  {
    if n > 1 {
      hide IsQuotient, Coef;
      QuotientTop(p, q, a, x, n - 1);
      QuotientCoef(p, q, a, 10 - n);
      QuotientStep(Coef(p, 10 - n), x, a, Top(p, x, n - 1), Coef(q, 10 - n), Top(q, x, n - 1));
    } else {
      assert Top(q, x, 1) == Coef(q, 9) + x * Top(q, x, 0);
    }
  }

  lemma QuotientEval(p: Poly, a: int, x: int)
    ensures Eval(p, x) == p.c0 + a * Quotient(p, a).c0 + (x - a) * Eval(Quotient(p, a), x)
  {
    assert IsQuotient(p, Quotient(p, a), a);
    hide Quotient, IsQuotient, Top;
    QuotientTop(p, Quotient(p, a), a, x, 10);
  }

  /** The coefficients from k on are 0. */
  predicate ZeroFrom(p: Poly, k: nat) {
    && (k <= 0 ==> p.c0 == 0) && (k <= 1 ==> p.c1 == 0) && (k <= 2 ==> p.c2 == 0) && (k <= 3 ==> p.c3 == 0)
    && (k <= 4 ==> p.c4 == 0) && (k <= 5 ==> p.c5 == 0) && (k <= 6 ==> p.c6 == 0) && (k <= 7 ==> p.c7 == 0)
    && (k <= 8 ==> p.c8 == 0) && (k <= 9 ==> p.c9 == 0)
  }

  lemma DegreeFalls(p: Poly, a: int, n: nat)
    requires 0 < n <= 10 && ZeroFrom(p, n)
    ensures ZeroFrom(Quotient(p, a), n - 1)
  {
  }

  /** The sizes of the first n Taylor coefficients at a, for points no further than w from a. */
  function Magnitude(p: Poly, a: int, w: nat, n: nat): int
    decreases n
  {
    if n == 0 then 0
    else var q := Quotient(p, a); Abs(p.c0 + a * q.c0) + w * Magnitude(q, a, w, n - 1)
  }

  lemma {:induction false} MagnitudeBounds(p: Poly, a: int, w: nat, n: nat, x: int)
    requires Abs(x - a) <= w && n <= 10 && ZeroFrom(p, n)
    ensures Abs(Eval(p, x)) <= Magnitude(p, a, w, n)
    decreases n
  {
    if n > 0 {
      hide Eval, Quotient, ZeroFrom;
      var q := Quotient(p, a);
      DegreeFalls(p, a, n);
      MagnitudeBounds(q, a, w, n - 1, x);
      QuotientEval(p, a, x);
      AbsProduct(x - a, Eval(q, x), w, Magnitude(q, a, w, n - 1));
    } else {
      ZeroTop(p, x, 10);
    }
  }

  lemma {:induction false} ZeroTop(p: Poly, x: int, n: nat)
    requires ZeroFrom(p, 0) && n <= 10
    ensures Top(p, x, n) == 0
  {
    if n > 0 {
      ZeroTop(p, x, n - 1);
    }
  }

  lemma AbsProduct(a: int, b: int, m: nat, n: int)
    requires Abs(a) <= m && Abs(b) <= n
    ensures Abs(a * b) <= m * n
  {
    MulLeBoth(Abs(a), m, Abs(b), n);
    assert Abs(a * b) == Abs(a) * Abs(b);
  }

  /** The last five Taylor coefficients, from a polynomial of degree four. */
  function Table5(c0: int, c1: int, c2: int, c3: int, c4: int, a: int, w: nat): int {
    var t03 := c3 + a * c4; var t02 := c2 + a * t03; var t01 := c1 + a * t02;
    var t00 := c0 + a * t01;
    var t12 := t03 + a * c4; var t11 := t02 + a * t12; var t10 := t01 + a * t11;
    var t21 := t12 + a * c4; var t20 := t11 + a * t21;
    var t30 := t21 + a * c4;
    FiveTerms(t00, t10, t20, t30, c4, w, 0)
  }

  /** The last six: one row of repeated divisions, and the rows below. */
  function Table6(c0: int, c1: int, c2: int, c3: int, c4: int, c5: int, a: int, w: nat): int {
    var t4 := c4 + a * c5; var t3 := c3 + a * t4; var t2 := c2 + a * t3; var t1 := c1 + a * t2;
    Abs(c0 + a * t1) + w * Table5(t1, t2, t3, t4, c5, a, w)
  }

  /** The last seven: two rows, and the rows below. */
  function Table7(c0: int, c1: int, c2: int, c3: int, c4: int, c5: int, c6: int, a: int, w: nat): int {
    var t05 := c5 + a * c6; var t04 := c4 + a * t05; var t03 := c3 + a * t04;
    var t02 := c2 + a * t03; var t01 := c1 + a * t02; var t00 := c0 + a * t01;
    var t14 := t05 + a * c6; var t13 := t04 + a * t14; var t12 := t03 + a * t13;
    var t11 := t02 + a * t12; var t10 := t01 + a * t11;
    Abs(t00) + w * (Abs(t10) + w * Table5(t11, t12, t13, t14, c6, a, w))
  }

  /** All ten. */
  function Table(p: Poly, a: int, w: nat): int {
    var t08 := p.c8 + a * p.c9; var t07 := p.c7 + a * t08; var t06 := p.c6 + a * t07;
    var t05 := p.c5 + a * t06; var t04 := p.c4 + a * t05; var t03 := p.c3 + a * t04;
    var t02 := p.c2 + a * t03; var t01 := p.c1 + a * t02; var t00 := p.c0 + a * t01;
    var t17 := t08 + a * p.c9; var t16 := t07 + a * t17; var t15 := t06 + a * t16;
    var t14 := t05 + a * t15; var t13 := t04 + a * t14; var t12 := t03 + a * t13;
    var t11 := t02 + a * t12; var t10 := t01 + a * t11;
    var t26 := t17 + a * p.c9; var t25 := t16 + a * t26; var t24 := t15 + a * t25;
    var t23 := t14 + a * t24; var t22 := t13 + a * t23; var t21 := t12 + a * t22;
    var t20 := t11 + a * t21;
    Abs(t00) + w * (Abs(t10) + w * (Abs(t20) + w * Table7(t21, t22, t23, t24, t25, t26, p.c9, a, w)))
  }

  function FiveTerms(t0: int, t1: int, t2: int, t3: int, t4: int, w: nat, m: int): int {
    Abs(t0) + w * (Abs(t1) + w * (Abs(t2) + w * (Abs(t3) + w * (Abs(t4) + w * m))))
  }

  lemma Row(p: Poly, a: int, b1: int, b2: int, b3: int, b4: int, b5: int, b6: int, b7: int, b8: int)
    requires b8 == p.c8 + a * p.c9 && b7 == p.c7 + a * b8 && b6 == p.c6 + a * b7 && b5 == p.c5 + a * b6
    requires b4 == p.c4 + a * b5 && b3 == p.c3 + a * b4 && b2 == p.c2 + a * b3 && b1 == p.c1 + a * b2
    ensures IsQuotient(p, Poly(b1, b2, b3, b4, b5, b6, b7, b8, p.c9, 0), a)
  {
  }

  lemma Level(p: Poly, q: Poly, a: int, w: nat, n: nat, t: int, m: int)
    requires 0 < n && IsQuotient(p, q, a) && t == p.c0 + a * q.c0 && m == Magnitude(q, a, w, n - 1)
    ensures Magnitude(p, a, w, n) == Abs(t) + w * m
  {
    assert q == Quotient(p, a);
  }

  lemma FiveLevels(p0: Poly, p1: Poly, p2: Poly, p3: Poly, p4: Poly, p5: Poly, a: int, w: nat, n: nat,
                   t0: int, t1: int, t2: int, t3: int, t4: int)
    requires IsQuotient(p0, p1, a) && IsQuotient(p1, p2, a) && IsQuotient(p2, p3, a)
    requires IsQuotient(p3, p4, a) && IsQuotient(p4, p5, a) && 5 <= n
    requires t0 == p0.c0 + a * p1.c0 && t1 == p1.c0 + a * p2.c0 && t2 == p2.c0 + a * p3.c0
    requires t3 == p3.c0 + a * p4.c0 && t4 == p4.c0 + a * p5.c0
    ensures Magnitude(p0, a, w, n) == FiveTerms(t0, t1, t2, t3, t4, w, Magnitude(p5, a, w, n - 5))
  {
    hide Magnitude, IsQuotient, Quotient, Abs;
    var m := Magnitude(p5, a, w, n - 5);
    Level(p4, p5, a, w, n - 4, t4, m);
    Level(p3, p4, a, w, n - 3, t3, Abs(t4) + w * m);
    Level(p2, p3, a, w, n - 2, t2, Abs(t3) + w * (Abs(t4) + w * m));
    Level(p1, p2, a, w, n - 1, t1, Abs(t2) + w * (Abs(t3) + w * (Abs(t4) + w * m)));
    Level(p0, p1, a, w, n, t0, Abs(t1) + w * (Abs(t2) + w * (Abs(t3) + w * (Abs(t4) + w * m))));
  }

  lemma NoMagnitude(p: Poly, a: int, w: nat)
    ensures Magnitude(p, a, w, 0) == 0
  {
  }

  lemma Table5IsMagnitude(c0: int, c1: int, c2: int, c3: int, c4: int, a: int, w: nat)
    ensures Table5(c0, c1, c2, c3, c4, a, w) == Magnitude(Poly(c0, c1, c2, c3, c4, 0, 0, 0, 0, 0), a, w, 5)
  {
    hide Magnitude, IsQuotient, FiveTerms;
    var t03 := c3 + a * c4; var t02 := c2 + a * t03; var t01 := c1 + a * t02;
    var t00 := c0 + a * t01;
    var t12 := t03 + a * c4; var t11 := t02 + a * t12; var t10 := t01 + a * t11;
    var t21 := t12 + a * c4; var t20 := t11 + a * t21;
    var t30 := t21 + a * c4;
    var p5 := Poly(c0, c1, c2, c3, c4, 0, 0, 0, 0, 0);
    var p6 := Poly(t01, t02, t03, c4, 0, 0, 0, 0, 0, 0);
    var p7 := Poly(t11, t12, c4, 0, 0, 0, 0, 0, 0, 0);
    var p8 := Poly(t21, c4, 0, 0, 0, 0, 0, 0, 0, 0);
    var p9 := Poly(c4, 0, 0, 0, 0, 0, 0, 0, 0, 0);
    Row(p5, a, t01, t02, t03, c4, 0, 0, 0, 0);
    Row(p6, a, t11, t12, c4, 0, 0, 0, 0, 0);
    Row(p7, a, t21, c4, 0, 0, 0, 0, 0, 0);
    Row(p8, a, c4, 0, 0, 0, 0, 0, 0, 0);
    Row(p9, a, 0, 0, 0, 0, 0, 0, 0, 0);
    NoMagnitude(ZERO, a, w);
    FiveLevels(p5, p6, p7, p8, p9, ZERO, a, w, 5, t00, t10, t20, t30, c4);
  }

  lemma Table6IsMagnitude(c0: int, c1: int, c2: int, c3: int, c4: int, c5: int, a: int, w: nat)
    ensures Table6(c0, c1, c2, c3, c4, c5, a, w) == Magnitude(Poly(c0, c1, c2, c3, c4, c5, 0, 0, 0, 0), a, w, 6)
  {
    hide Magnitude, IsQuotient, Quotient, Table5, Abs;
    var t4 := c4 + a * c5; var t3 := c3 + a * t4; var t2 := c2 + a * t3; var t1 := c1 + a * t2;
    var p4 := Poly(c0, c1, c2, c3, c4, c5, 0, 0, 0, 0);
    Row(p4, a, t1, t2, t3, t4, c5, 0, 0, 0);
    Table5IsMagnitude(t1, t2, t3, t4, c5, a, w);
    Level(p4, Poly(t1, t2, t3, t4, c5, 0, 0, 0, 0, 0), a, w, 6, c0 + a * t1, Table5(t1, t2, t3, t4, c5, a, w));
  }

  lemma Table7FirstRow(c0: int, c1: int, c2: int, c3: int, c4: int, c5: int, c6: int, a: int, w: nat)
    ensures var t5 := c5 + a * c6; var t4 := c4 + a * t5; var t3 := c3 + a * t4;
            var t2 := c2 + a * t3; var t1 := c1 + a * t2;
            Table7(c0, c1, c2, c3, c4, c5, c6, a, w) == Abs(c0 + a * t1) + w * Table6(t1, t2, t3, t4, t5, c6, a, w)
  {
    hide Table5, Abs;
  }

  lemma Table7IsMagnitude(c0: int, c1: int, c2: int, c3: int, c4: int, c5: int, c6: int, a: int, w: nat)
    ensures Table7(c0, c1, c2, c3, c4, c5, c6, a, w) == Magnitude(Poly(c0, c1, c2, c3, c4, c5, c6, 0, 0, 0), a, w, 7)
  {
    hide Magnitude, IsQuotient, Quotient, Table6, Table7, Abs;
    Table7FirstRow(c0, c1, c2, c3, c4, c5, c6, a, w);
    var t5 := c5 + a * c6; var t4 := c4 + a * t5; var t3 := c3 + a * t4; var t2 := c2 + a * t3; var t1 := c1 + a * t2;
    var p3 := Poly(c0, c1, c2, c3, c4, c5, c6, 0, 0, 0);
    Row(p3, a, t1, t2, t3, t4, t5, c6, 0, 0);
    Table6IsMagnitude(t1, t2, t3, t4, t5, c6, a, w);
    Level(p3, Poly(t1, t2, t3, t4, t5, c6, 0, 0, 0, 0), a, w, 7, c0 + a * t1, Table6(t1, t2, t3, t4, t5, c6, a, w));
  }

  lemma TableIsMagnitude(p: Poly, a: int, w: nat)
    ensures Table(p, a, w) == Magnitude(p, a, w, 10)
  {
    hide Magnitude, IsQuotient, Quotient, Table7, Abs;
    var t08 := p.c8 + a * p.c9; var t07 := p.c7 + a * t08; var t06 := p.c6 + a * t07;
    var t05 := p.c5 + a * t06; var t04 := p.c4 + a * t05; var t03 := p.c3 + a * t04;
    var t02 := p.c2 + a * t03; var t01 := p.c1 + a * t02; var t00 := p.c0 + a * t01;
    var t17 := t08 + a * p.c9; var t16 := t07 + a * t17; var t15 := t06 + a * t16;
    var t14 := t05 + a * t15; var t13 := t04 + a * t14; var t12 := t03 + a * t13;
    var t11 := t02 + a * t12; var t10 := t01 + a * t11;
    var t26 := t17 + a * p.c9; var t25 := t16 + a * t26; var t24 := t15 + a * t25;
    var t23 := t14 + a * t24; var t22 := t13 + a * t23; var t21 := t12 + a * t22;
    var t20 := t11 + a * t21;
    var p1 := Poly(t01, t02, t03, t04, t05, t06, t07, t08, p.c9, 0);
    var p2 := Poly(t11, t12, t13, t14, t15, t16, t17, p.c9, 0, 0);
    var p3 := Poly(t21, t22, t23, t24, t25, t26, p.c9, 0, 0, 0);
    var m3 := Table7(t21, t22, t23, t24, t25, t26, p.c9, a, w);
    Row(p, a, t01, t02, t03, t04, t05, t06, t07, t08);
    Row(p1, a, t11, t12, t13, t14, t15, t16, t17, p.c9);
    Row(p2, a, t21, t22, t23, t24, t25, t26, p.c9, 0);
    Table7IsMagnitude(t21, t22, t23, t24, t25, t26, p.c9, a, w);
    Level(p2, p3, a, w, 8, t20, m3);
    Level(p1, p2, a, w, 9, t10, Abs(t20) + w * m3);
    Level(p, p1, a, w, 10, t00, Abs(t10) + w * (Abs(t20) + w * m3));
  }

  /** A test by calculation: around the middle, the sizes of the terms add up to no more than bound. */
  predicate Near(p: Poly, middle: int, half: nat, bound: int) {
    Table(p, middle, half) <= bound
  }

  lemma NearBounds(p: Poly, middle: int, half: nat, bound: int, x: int)
    requires Near(p, middle, half, bound) && middle - half <= x <= middle + half
    ensures Abs(Eval(p, x)) <= bound
  {
    hide Eval, Quotient, Magnitude, Table;
    TableIsMagnitude(p, middle, half);
    MagnitudeBounds(p, middle, half, 10, x);
  }

  // -------------------------------------------------------------- the approximation

  function Coefficient(i: nat): nat {
    match i
    case 0 => 0x92db03d6
    case 1 => 0xf63e71ea
    case 2 => 0xb63721e8
    case 3 => 0x9c2da00e
    case 4 => 0xaada0bb8
    case 5 => 0xf75cd403
    case 6 => 0xecf97a41
    case 7 => 0x90d876cd
    case _ => 0x6682799a0
  }

  /** Two to the number of places that line i shifts by. */
  function Divisor(i: nat): (d: nat)
    ensures 0 < d
  {
    match i
    case 0 => 1
    case 1 => 0x4_0000_0000
    case 2 => 0x4_0000_0000
    case 3 => 0x2_0000_0000
    case 4 => 0x1_0000_0000
    case 5 => 0x8000_0000
    case 6 => 0x8000_0000
    case 7 => 0x8000_0000
    case _ => 0x400_0000
  }

  /** Line i of recip_approx_32, in 64-bit arithmetic. */
  function Line(r: nat, x: nat, i: nat): nat {
    (Coefficient(i) - r * x % TWO64 / Divisor(i)) % TWO64
  }

  function Approximation(x: nat, i: nat): nat {
    if i == 0 then Coefficient(0) else Line(Approximation(x, i - 1), x, i)
  }

  // -------------------------------------------------------------- no line overflows

  /** Without overflow. */
  function ExactLine(r: nat, x: nat, i: nat): int {
    Coefficient(i) - r * x / Divisor(i)
  }

  lemma LineIsExact(r: nat, x: nat, i: nat)
    requires r < 0x1_0000_0000 && x < 0x1_0000_0000 && 0 <= ExactLine(r, x, i)
    ensures Line(r, x, i) == ExactLine(r, x, i)
  {
    hide Coefficient, Divisor;
    MulLtBoth(r, 0x1_0000_0000, x, 0x1_0000_0000);
    CoefficientFits(i);
    NoWrap(r * x, Divisor(i), Coefficient(i));
  }

  lemma NoWrap(n: nat, k: nat, c: nat)
    requires n < TWO64 && 0 < k && c < TWO64 && 0 <= c - n / k
    ensures (c - n % TWO64 / k) % TWO64 == c - n / k
  {
    SmallMod(n, TWO64);
    DivNonNeg(n, k);
    SmallMod(c - n / k, TWO64);
  }

  lemma CoefficientFits(i: nat)
    ensures Coefficient(i) < TWO64
  {
  }

  lemma LineBetween(r: nat, x: nat, i: nat, lo: nat, hi: nat, a: nat, b: nat)
    requires lo <= r <= hi && a <= x <= b
    ensures Coefficient(i) - hi * b / Divisor(i) <= ExactLine(r, x, i) <= Coefficient(i) - lo * a / Divisor(i)
  {
    MulLeBoth(lo, r, a, x);
    MulLeBoth(r, hi, x, b);
    DivLe(lo * a, r * x, Divisor(i));
    DivLe(r * x, hi * b, Divisor(i));
  }

  /** The first i lines do not overflow, and line i delivers 32 bits. */
  ghost predicate NoOverflow(x: nat, i: nat) {
    Approximation(x, i) < 0x1_0000_0000 &&
    forall j :: 0 < j <= i ==> Approximation(x, j) == ExactLine(Approximation(x, j - 1), x, j)
  }

  /** Line i delivers something between lo and hi, and no line before it overflows. */
  ghost predicate Between(x: nat, i: nat, lo: int, hi: int) {
    0 <= lo <= Approximation(x, i) <= hi < 0x1_0000_0000 && NoOverflow(x, i)
  }

  lemma BetweenStep(x: nat, i: nat, c: nat, k: nat, lo: nat, hi: nat, a: nat, b: nat, lo': int, hi': int)
    requires Between(x, i, lo, hi) && a <= x <= b && x < 0x1_0000_0000
    requires c == Coefficient(i + 1) && k == Divisor(i + 1)
    requires lo' == c - hi * b / k && hi' == c - lo * a / k
    requires 0 <= lo' <= hi' < 0x1_0000_0000
    ensures Between(x, i + 1, lo', hi')
  {
    hide Coefficient, Divisor, Line, ExactLine;
    var r := Approximation(x, i);
    LineBetween(r, x, i + 1, lo, hi, a, b);
    LineIsExact(r, x, i + 1);
  }

  /** The least and the greatest that the first seven lines can deliver for x between a and b do not overflow. */
  predicate InRange(a: nat, b: nat) {
    var l1, g1 := 0xf63e71ea - 0x92db03d6 * b / 0x400000000, 0xf63e71ea - 0x92db03d6 * a / 0x400000000;
    var l2, g2 := 0xb63721e8 - g1 * b / 0x400000000, 0xb63721e8 - l1 * a / 0x400000000;
    var l3, g3 := 0x9c2da00e - g2 * b / 0x200000000, 0x9c2da00e - l2 * a / 0x200000000;
    var l4, g4 := 0xaada0bb8 - g3 * b / 0x100000000, 0xaada0bb8 - l3 * a / 0x100000000;
    var l5, g5 := 0xf75cd403 - g4 * b / 0x80000000, 0xf75cd403 - l4 * a / 0x80000000;
    var l6, g6 := 0xecf97a41 - g5 * b / 0x80000000, 0xecf97a41 - l5 * a / 0x80000000;
    var l7, g7 := 0x90d876cd - g6 * b / 0x80000000, 0x90d876cd - l6 * a / 0x80000000;
    && 0 <= l1 <= g1 < 0x1_0000_0000 && 0 <= l2 <= g2 < 0x1_0000_0000
    && 0 <= l3 <= g3 < 0x1_0000_0000 && 0 <= l4 <= g4 < 0x1_0000_0000
    && 0 <= l5 <= g5 < 0x1_0000_0000 && 0 <= l6 <= g6 < 0x1_0000_0000 && 0 <= l7 <= g7 < 0x1_0000_0000
  }

  lemma StaysInRange(x: nat, a: nat, b: nat)
    requires a <= x <= b && x < 0x1_0000_0000 && InRange(a, b)
    ensures NoOverflow(x, 7)
  {
    hide Approximation, NoOverflow, Line, ExactLine, Between;
    var l1, g1 := 0xf63e71ea - 0x92db03d6 * b / 0x400000000, 0xf63e71ea - 0x92db03d6 * a / 0x400000000;
    var l2, g2 := 0xb63721e8 - g1 * b / 0x400000000, 0xb63721e8 - l1 * a / 0x400000000;
    var l3, g3 := 0x9c2da00e - g2 * b / 0x200000000, 0x9c2da00e - l2 * a / 0x200000000;
    var l4, g4 := 0xaada0bb8 - g3 * b / 0x100000000, 0xaada0bb8 - l3 * a / 0x100000000;
    var l5, g5 := 0xf75cd403 - g4 * b / 0x80000000, 0xf75cd403 - l4 * a / 0x80000000;
    var l6, g6 := 0xecf97a41 - g5 * b / 0x80000000, 0xecf97a41 - l5 * a / 0x80000000;
    var l7, g7 := 0x90d876cd - g6 * b / 0x80000000, 0x90d876cd - l6 * a / 0x80000000;
    StartsBetween(x);
    BetweenStep(x, 0, 0xf63e71ea, 0x400000000, 0x92db03d6, 0x92db03d6, a, b, l1, g1);
    BetweenStep(x, 1, 0xb63721e8, 0x400000000, l1, g1, a, b, l2, g2);
    BetweenStep(x, 2, 0x9c2da00e, 0x200000000, l2, g2, a, b, l3, g3);
    BetweenStep(x, 3, 0xaada0bb8, 0x100000000, l3, g3, a, b, l4, g4);
    BetweenStep(x, 4, 0xf75cd403, 0x80000000, l4, g4, a, b, l5, g5);
    BetweenStep(x, 5, 0xecf97a41, 0x80000000, l5, g5, a, b, l6, g6);
    BetweenStep(x, 6, 0x90d876cd, 0x80000000, l6, g6, a, b, l7, g7);
    EndsBetween(x, 7, l7, g7);
  }

  lemma StartsBetween(x: nat)
    ensures Between(x, 0, Coefficient(0), Coefficient(0))
  {
  }

  lemma EndsBetween(x: nat, i: nat, lo: int, hi: int)
    requires Between(x, i, lo, hi)
    ensures NoOverflow(x, i)
  {
  }

  lemma Range80()
    ensures InRange(0x8000_0000, 0x9400_0000)
  {
  }

  lemma Range94()
    ensures InRange(0x9400_0000, 0xa400_0000)
  {
  }

  lemma RangeA4()
    ensures InRange(0xa400_0000, 0xb000_0000)
  {
  }

  lemma RangeB0()
    ensures InRange(0xb000_0000, 0xb800_0000)
  {
  }

  lemma RangeB8()
    ensures InRange(0xb800_0000, 0xc000_0000)
  {
  }

  lemma RangeC0()
    ensures InRange(0xc000_0000, 0xc800_0000)
  {
  }

  lemma RangeC8()
    ensures InRange(0xc800_0000, 0xd000_0000)
  {
  }

  lemma RangeD0()
    ensures InRange(0xd000_0000, 0xd800_0000)
  {
  }

  lemma RangeD8()
    ensures InRange(0xd800_0000, 0xdc00_0000)
  {
  }

  lemma RangeDC()
    ensures InRange(0xdc00_0000, 0xe000_0000)
  {
  }

  lemma RangeE0()
    ensures InRange(0xe000_0000, 0xe400_0000)
  {
  }

  lemma RangeE4()
    ensures InRange(0xe400_0000, 0xe800_0000)
  {
  }

  lemma RangeE8()
    ensures InRange(0xe800_0000, 0xec00_0000)
  {
  }

  lemma RangeEC()
    ensures InRange(0xec00_0000, 0xf000_0000)
  {
  }

  lemma RangeF0()
    ensures InRange(0xf000_0000, 0xf400_0000)
  {
  }

  lemma RangeF4()
    ensures InRange(0xf400_0000, 0xf800_0000)
  {
  }

  lemma RangeF8()
    ensures InRange(0xf800_0000, 0xfc00_0000)
  {
  }

  lemma RangeFC()
    ensures InRange(0xfc00_0000, 0x1_0000_0000)
  {
  }

  /** None of the first seven lines overflows. */
  lemma FirstSevenExact(x: nat)
    requires 0x8000_0000 <= x < 0x1_0000_0000
    ensures NoOverflow(x, 7)
  {
    hide NoOverflow, InRange;
    if x <= 0x9400_0000 {
      Range80();
      StaysInRange(x, 0x8000_0000, 0x9400_0000);
    } else if x <= 0xa400_0000 {
      Range94();
      StaysInRange(x, 0x9400_0000, 0xa400_0000);
    } else if x <= 0xb000_0000 {
      RangeA4();
      StaysInRange(x, 0xa400_0000, 0xb000_0000);
    } else if x <= 0xb800_0000 {
      RangeB0();
      StaysInRange(x, 0xb000_0000, 0xb800_0000);
    } else if x <= 0xc000_0000 {
      RangeB8();
      StaysInRange(x, 0xb800_0000, 0xc000_0000);
    } else if x <= 0xc800_0000 {
      RangeC0();
      StaysInRange(x, 0xc000_0000, 0xc800_0000);
    } else if x <= 0xd000_0000 {
      RangeC8();
      StaysInRange(x, 0xc800_0000, 0xd000_0000);
    } else if x <= 0xd800_0000 {
      RangeD0();
      StaysInRange(x, 0xd000_0000, 0xd800_0000);
    } else if x <= 0xdc00_0000 {
      RangeD8();
      StaysInRange(x, 0xd800_0000, 0xdc00_0000);
    } else if x <= 0xe000_0000 {
      RangeDC();
      StaysInRange(x, 0xdc00_0000, 0xe000_0000);
    } else if x <= 0xe400_0000 {
      RangeE0();
      StaysInRange(x, 0xe000_0000, 0xe400_0000);
    } else if x <= 0xe800_0000 {
      RangeE4();
      StaysInRange(x, 0xe400_0000, 0xe800_0000);
    } else if x <= 0xec00_0000 {
      RangeE8();
      StaysInRange(x, 0xe800_0000, 0xec00_0000);
    } else if x <= 0xf000_0000 {
      RangeEC();
      StaysInRange(x, 0xec00_0000, 0xf000_0000);
    } else if x <= 0xf400_0000 {
      RangeF0();
      StaysInRange(x, 0xf000_0000, 0xf400_0000);
    } else if x <= 0xf800_0000 {
      RangeF4();
      StaysInRange(x, 0xf400_0000, 0xf800_0000);
    } else if x <= 0xfc00_0000 {
      RangeF8();
      StaysInRange(x, 0xf800_0000, 0xfc00_0000);
    } else {
      RangeFC();
      StaysInRange(x, 0xfc00_0000, 0x1_0000_0000);
    }
  }

  // -------------------------------------------------------------- the roundings

  function Weight(i: nat): (w: nat)
    ensures 0 < w
  {
    if i == 0 then 1 else Weight(i - 1) * Divisor(i)
  }

  /** What line i would deliver if nothing were rounded, times Weight(i). */
  function Ideal(x: int, i: nat): int {
    if i == 0 then Coefficient(0) else Coefficient(i) * Weight(i) - x * Ideal(x, i - 1)
  }

  /** The roundings have taken r no further than lo/8 below the ideal and hi/8 above it. */
  predicate Tracks(r: int, x: int, i: nat, lo: nat, hi: nat) {
    0 - lo * Weight(i) <= 8 * (r * Weight(i) - Ideal(x, i)) <= hi * Weight(i)
  }

  lemma TracksStep(r: nat, x: nat, i: nat, m: nat, lo: nat, hi: nat, lo': nat, hi': nat)
    requires Tracks(r, x, i, lo, hi) && x <= m
    requires hi * m <= lo' * Divisor(i + 1) && lo * m + 8 * Divisor(i + 1) <= hi' * Divisor(i + 1)
    ensures Tracks(ExactLine(r, x, i + 1), x, i + 1, lo', hi')
  {
    hide Coefficient, Divisor, Ideal, Weight;
    var k, w, c := Divisor(i + 1), Weight(i), Coefficient(i + 1);
    var q := r * x / k;
    var f := r * x - k * q;
    var g := r * w - Ideal(x, i);
    NextWeight(i);
    NextIdeal(x, i);
    GapStep(r, x, w, k, c, q, f, Ideal(x, i));
    UpperGap(x, m, w, k, 8 * g, hi, lo');
    LowerGap(x, m, w, k, 0 - 8 * g, lo, hi');
    MulLe(0, f, w);
    MulLe(f, k, w);
    EightTimes(x, g);
  }

  lemma NextWeight(i: nat)
    ensures Weight(i + 1) == Weight(i) * Divisor(i + 1)
  {
  }

  lemma NextIdeal(x: int, i: nat)
    ensures Ideal(x, i + 1) == Coefficient(i + 1) * Weight(i + 1) - x * Ideal(x, i)
  {
  }

  /** The new gap is the old one times -x, and what the division dropped. */
  lemma GapStep(r: int, x: int, w: int, k: int, c: int, q: int, f: int, e: int)
    requires f == r * x - k * q
    ensures (c - q) * (w * k) - (c * (w * k) - x * e) == f * w - x * (r * w - e)
  {
    assert (c - q) * (w * k) == c * (w * k) - q * (w * k);
    assert f * w == r * x * w - k * q * w;
    assert x * (r * w - e) == x * (r * w) - x * e;
    assert q * (w * k) == k * q * w;
    assert r * x * w == x * (r * w);
  }

  lemma EightTimes(x: int, g: int)
    ensures x * (8 * g) == 8 * (x * g) && x * (0 - 8 * g) == 0 - 8 * (x * g)
  {
  }

  lemma UpperGap(x: int, m: int, w: int, k: int, g: int, hi: int, lo': int)
    requires 0 <= x <= m && 0 < w && 0 <= hi && g <= hi * w && hi * m <= lo' * k
    ensures x * g <= lo' * (w * k)
  {
    Scaled(x, m, w, g, hi);
    ScaledBack(hi * m, lo', w, k);
  }

  lemma LowerGap(x: int, m: int, w: int, k: int, g: int, lo: int, hi': int)
    requires 0 <= x <= m && 0 < w && 0 <= lo && g <= lo * w && lo * m + 8 * k <= hi' * k
    ensures x * g + 8 * (k * w) <= hi' * (w * k)
  {
    Scaled(x, m, w, g, lo);
    ScaledBack(lo * m + 8 * k, hi', w, k);
    assert (lo * m + 8 * k) * w == lo * m * w + 8 * (k * w);
  }

  lemma ScaledBack(a: int, b: int, w: int, k: int)
    requires a <= b * k && 0 < w
    ensures a * w <= b * (w * k)
  {
    MulLe(a, b * k, w);
    assert b * k * w == b * (w * k);
  }

  lemma Scaled(x: int, m: int, w: int, g: int, hi: int)
    requires 0 <= x <= m && 0 < w && 0 <= hi && g <= hi * w
    ensures x * g <= hi * m * w
  {
    MulLe(g, hi * w, x);
    MulLe(x, m, hi * w);
    assert hi * w * m == hi * m * w;
  }

  /** What the last line delivers, if it does not overflow. */
  function Delivered(x: nat): int { ExactLine(Approximation(x, 7), x, 8) }

  lemma Roundings(x: nat)
    requires x <= 0x1_0000_0000 && NoOverflow(x, 7)
    ensures Tracks(Delivered(x), x, 8, 7168, 7176)
  {
    hide Approximation, Tracks, ExactLine, Ideal, Weight;
    StartsTracking(x);
    TracksStep(Approximation(x, 0), x, 0, 0x1_0000_0000, 0, 0, 0, 8);
    TracksStep(Approximation(x, 1), x, 1, 0x1_0000_0000, 0, 8, 2, 8);
    TracksStep(Approximation(x, 2), x, 2, 0x1_0000_0000, 2, 8, 4, 9);
    TracksStep(Approximation(x, 3), x, 3, 0x1_0000_0000, 4, 9, 9, 12);
    TracksStep(Approximation(x, 4), x, 4, 0x1_0000_0000, 9, 12, 24, 26);
    TracksStep(Approximation(x, 5), x, 5, 0x1_0000_0000, 24, 26, 52, 56);
    TracksStep(Approximation(x, 6), x, 6, 0x1_0000_0000, 52, 56, 112, 112);
    TracksStep(Approximation(x, 7), x, 7, 0x1_0000_0000, 112, 112, 7168, 7176);
  }

  /** At the lower end they add up to less. */
  lemma RoundingsAtStart(x: nat)
    requires x <= 0x9000_0000 && NoOverflow(x, 7)
    ensures Tracks(Delivered(x), x, 8, 1008, 908)
  {
    hide Approximation, Tracks, ExactLine, Ideal, Weight;
    StartsTracking(x);
    TracksStep(Approximation(x, 0), x, 0, 0x9000_0000, 0, 0, 0, 8);
    TracksStep(Approximation(x, 1), x, 1, 0x9000_0000, 0, 8, 2, 8);
    TracksStep(Approximation(x, 2), x, 2, 0x9000_0000, 2, 8, 3, 9);
    TracksStep(Approximation(x, 3), x, 3, 0x9000_0000, 3, 9, 6, 10);
    TracksStep(Approximation(x, 4), x, 4, 0x9000_0000, 6, 10, 12, 15);
    TracksStep(Approximation(x, 5), x, 5, 0x9000_0000, 12, 15, 17, 22);
    TracksStep(Approximation(x, 6), x, 6, 0x9000_0000, 17, 22, 25, 28);
    TracksStep(Approximation(x, 7), x, 7, 0x9000_0000, 25, 28, 1008, 908);
  }

  lemma StartsTracking(x: nat)
    ensures Tracks(Approximation(x, 0), x, 0, 0, 0)
  {
  }

  // -------------------------------------------------------------- the polynomial

  function TotalWeight(): nat { 0x1000000000000000000000000000000000000000000000000000000000000000 }

  /** x times the ideal result, less 2^63, all times TotalWeight(). */
  function Residue(): Poly {
    Poly(-0x8000000000000000000000000000000000000000000000000000000000000000000000000000000,
         0x6682799a0000000000000000000000000000000000000000000000000000000000000000,
         -0x24361db3400000000000000000000000000000000000000000000000000000000,
         0x767cbd208000000000000000000000000000000000000000000000000,
         -0xf75cd40300000000000000000000000000000000000000000,
         0x155b41770000000000000000000000000000000000,
         -0x1385b401c0000000000000000000000000,
         0xb63721e800000000000000000,
         -0x3d8f9c7a800000000,
         0x92db03d6)
  }

  lemma WeightIsTotal()
    ensures Weight(8) == TotalWeight()
  {
  }

  /** The coefficients of x times the ideal result. */
  predicate IsIdeal(p: Poly) {
    && p.c9 == Coefficient(0) && p.c8 == 0 - Coefficient(1) * Weight(1) && p.c7 == Coefficient(2) * Weight(2)
    && p.c6 == 0 - Coefficient(3) * Weight(3) && p.c5 == Coefficient(4) * Weight(4)
    && p.c4 == 0 - Coefficient(5) * Weight(5) && p.c3 == Coefficient(6) * Weight(6)
    && p.c2 == 0 - Coefficient(7) * Weight(7) && p.c1 == Coefficient(8) * Weight(8)
  }

  /** Coefficient(i) * Weight(i), read off the polynomial. */
  function ReadOff(p: Poly, i: nat): int {
    match i
    case 1 => 0 - p.c8
    case 2 => p.c7
    case 3 => 0 - p.c6
    case 4 => p.c5
    case 5 => 0 - p.c4
    case 6 => p.c3
    case 7 => 0 - p.c2
    case _ => p.c1
  }

  lemma IdealStep(x: int, p: Poly, i: nat)
    requires IsIdeal(p) && 0 < i <= 8
    ensures Ideal(x, i) == ReadOff(p, i) - x * Ideal(x, i - 1)
  {
    hide Coefficient, Weight, Ideal;
    NextIdeal(x, i - 1);
    ReadOffIs(p, i);
  }

  lemma ReadOffIs(p: Poly, i: nat)
    requires IsIdeal(p) && 0 < i <= 8
    ensures ReadOff(p, i) == Coefficient(i) * Weight(i)
  {
    hide Coefficient, Weight;
  }

  lemma IdealStart(x: int, p: Poly)
    requires IsIdeal(p)
    ensures Ideal(x, 0) == p.c9
  {
  }

  /** Every other level of the nested form is negated. */
  lemma {:induction false} TopIsIdeal(x: int, p: Poly, i: nat)
    requires IsIdeal(p) && i <= 8
    ensures Top(p, x, i + 1) == if i % 2 == 1 then 0 - Ideal(x, i) else Ideal(x, i)
  {
    if i == 0 {
      IdealStart(x, p);
      assert Top(p, x, 1) == Coef(p, 9) + x * Top(p, x, 0);
    } else {
      hide IsIdeal, Ideal;
      TopIsIdeal(x, p, i - 1);
      IdealStep(x, p, i);
      assert Coef(p, 9 - i) == if i % 2 == 1 then 0 - ReadOff(p, i) else ReadOff(p, i);
      hide Coef, ReadOff;
      assert x * (0 - Ideal(x, i - 1)) == 0 - x * Ideal(x, i - 1);
    }
  }

  lemma IdealNested(x: int, p: Poly)
    requires IsIdeal(p)
    ensures Eval(p, x) == p.c0 + x * Ideal(x, 8)
  {
    hide IsIdeal, Ideal;
    TopIsIdeal(x, p, 8);
  }

  lemma ResidueEval(x: int)
    ensures Eval(Residue(), x) == x * Ideal(x, 8) - 0x8000_0000_0000_0000 * TotalWeight()
  {
    ResidueIsIdeal();
    hide Eval, Ideal, IsIdeal, Weight, Coefficient;
    IdealNested(x, Residue());
  }

  lemma ResidueIsIdeal()
    ensures IsIdeal(Residue()) && Residue().c0 == 0 - 0x8000_0000_0000_0000 * TotalWeight()
  {
  }

  /** The bound that the minimax polynomial keeps, with room for the roundings. */
  ghost predicate Small(x: int) {
    Abs(Eval(Residue(), x)) <= 1150 * x * TotalWeight()
  }

  lemma Covered(a: int, middle: int, half: nat, x: int)
    requires Near(Residue(), middle, half, 1150 * a * TotalWeight()) && a == middle - half <= x <= middle + half
    ensures Small(x)
  {
    hide Eval, Near, Residue, TotalWeight;
    NearBounds(Residue(), middle, half, 1150 * a * TotalWeight(), x);
    MulLe(1150 * a, 1150 * x, TotalWeight());
  }

  lemma Small80(x: int)
    requires 0x8000_0000 <= x <= 0x8200_0000
    ensures Small(x)
  {
    hide Eval, Small, Magnitude, Quotient, IsQuotient;
    Covered(0x8000_0000, 0x8100_0000, 0x100_0000, x);
  }

  lemma Small82(x: int)
    requires 0x8200_0000 <= x <= 0x8500_0000
    ensures Small(x)
  {
    hide Eval, Small, Magnitude, Quotient, IsQuotient;
    Covered(0x8200_0000, 0x8380_0000, 0x180_0000, x);
  }

  lemma Small85(x: int)
    requires 0x8500_0000 <= x <= 0x8b00_0000
    ensures Small(x)
  {
    hide Eval, Small, Magnitude, Quotient, IsQuotient;
    Covered(0x8500_0000, 0x8800_0000, 0x300_0000, x);
  }

  lemma Small8B(x: int)
    requires 0x8b00_0000 <= x <= 0x9100_0000
    ensures Small(x)
  {
    hide Eval, Small, Magnitude, Quotient, IsQuotient;
    Covered(0x8b00_0000, 0x8e00_0000, 0x300_0000, x);
  }

  lemma Small91(x: int)
    requires 0x9100_0000 <= x <= 0x9b00_0000
    ensures Small(x)
  {
    hide Eval, Small, Magnitude, Quotient, IsQuotient;
    Covered(0x9100_0000, 0x9600_0000, 0x500_0000, x);
  }

  lemma Small9B(x: int)
    requires 0x9b00_0000 <= x <= 0xa300_0000
    ensures Small(x)
  {
    hide Eval, Small, Magnitude, Quotient, IsQuotient;
    Covered(0x9b00_0000, 0x9f00_0000, 0x400_0000, x);
  }

  lemma SmallA3(x: int)
    requires 0xa300_0000 <= x <= 0xaf00_0000
    ensures Small(x)
  {
    hide Eval, Small, Magnitude, Quotient, IsQuotient;
    Covered(0xa300_0000, 0xa900_0000, 0x600_0000, x);
  }

  lemma SmallAF(x: int)
    requires 0xaf00_0000 <= x <= 0xb800_0000
    ensures Small(x)
  {
    hide Eval, Small, Magnitude, Quotient, IsQuotient;
    Covered(0xaf00_0000, 0xb380_0000, 0x480_0000, x);
  }

  lemma SmallB8(x: int)
    requires 0xb800_0000 <= x <= 0xc600_0000
    ensures Small(x)
  {
    hide Eval, Small, Magnitude, Quotient, IsQuotient;
    Covered(0xb800_0000, 0xbf00_0000, 0x700_0000, x);
  }

  lemma SmallC6(x: int)
    requires 0xc600_0000 <= x <= 0xd000_0000
    ensures Small(x)
  {
    hide Eval, Small, Magnitude, Quotient, IsQuotient;
    Covered(0xc600_0000, 0xcb00_0000, 0x500_0000, x);
  }

  lemma SmallD0(x: int)
    requires 0xd000_0000 <= x <= 0xdb00_0000
    ensures Small(x)
  {
    hide Eval, Small, Magnitude, Quotient, IsQuotient;
    Covered(0xd000_0000, 0xd580_0000, 0x580_0000, x);
  }

  lemma SmallDB(x: int)
    requires 0xdb00_0000 <= x <= 0xe300_0000
    ensures Small(x)
  {
    hide Eval, Small, Magnitude, Quotient, IsQuotient;
    Covered(0xdb00_0000, 0xdf00_0000, 0x400_0000, x);
  }

  lemma SmallE3(x: int)
    requires 0xe300_0000 <= x <= 0xee00_0000
    ensures Small(x)
  {
    hide Eval, Small, Magnitude, Quotient, IsQuotient;
    Covered(0xe300_0000, 0xe880_0000, 0x580_0000, x);
  }

  lemma SmallEE(x: int)
    requires 0xee00_0000 <= x <= 0xf500_0000
    ensures Small(x)
  {
    hide Eval, Small, Magnitude, Quotient, IsQuotient;
    Covered(0xee00_0000, 0xf180_0000, 0x380_0000, x);
  }

  lemma SmallF5(x: int)
    requires 0xf500_0000 <= x <= 0xfb00_0000
    ensures Small(x)
  {
    hide Eval, Small, Magnitude, Quotient, IsQuotient;
    Covered(0xf500_0000, 0xf800_0000, 0x300_0000, x);
  }

  lemma SmallFB(x: int)
    requires 0xfb00_0000 <= x <= 0xfd00_0000
    ensures Small(x)
  {
    hide Eval, Small, Magnitude, Quotient, IsQuotient;
    Covered(0xfb00_0000, 0xfc00_0000, 0x100_0000, x);
  }

  lemma SmallFD(x: int)
    requires 0xfd00_0000 <= x <= 0xff00_0000
    ensures Small(x)
  {
    hide Eval, Small, Magnitude, Quotient, IsQuotient;
    Covered(0xfd00_0000, 0xfe00_0000, 0x100_0000, x);
  }

  lemma SmallFF(x: int)
    requires 0xff00_0000 <= x <= 0x1_0000_0000
    ensures Small(x)
  {
    hide Eval, Small, Magnitude, Quotient, IsQuotient;
    Covered(0xff00_0000, 0xff80_0000, 0x80_0000, x);
  }

  lemma AlwaysSmall(x: int)
    requires 0x8000_0000 <= x <= 0x1_0000_0000
    ensures Small(x)
  {
    hide *;
    if x <= 0x8200_0000 {
      Small80(x);
    } else if x <= 0x8500_0000 {
      Small82(x);
    } else if x <= 0x8b00_0000 {
      Small85(x);
    } else if x <= 0x9100_0000 {
      Small8B(x);
    } else if x <= 0x9b00_0000 {
      Small91(x);
    } else if x <= 0xa300_0000 {
      Small9B(x);
    } else if x <= 0xaf00_0000 {
      SmallA3(x);
    } else if x <= 0xb800_0000 {
      SmallAF(x);
    } else if x <= 0xc600_0000 {
      SmallB8(x);
    } else if x <= 0xd000_0000 {
      SmallC6(x);
    } else if x <= 0xdb00_0000 {
      SmallD0(x);
    } else if x <= 0xe300_0000 {
      SmallDB(x);
    } else if x <= 0xee00_0000 {
      SmallE3(x);
    } else if x <= 0xf500_0000 {
      SmallEE(x);
    } else if x <= 0xfb00_0000 {
      SmallF5(x);
    } else if x <= 0xfd00_0000 {
      SmallFB(x);
    } else if x <= 0xff00_0000 {
      SmallFD(x);
    } else {
      SmallFF(x);
    }
  }

  /** Near the lower end the ideal result is well below 2^63/x. */
  lemma StartIsLow(x: int)
    requires 0x8000_0000 <= x <= 0x8000_1000
    ensures Eval(Residue(), x) <= 0 - 224 * x * TotalWeight()
  {
    hide Eval;
    var p := Residue().(c1 := Residue().c1 + 824 * TotalWeight());
    assert Near(p, 0x8000_0800, 0x800, 600 * 0x8000_0000 * TotalWeight());
    LowHere(p, x);
  }

  lemma LowHere(p: Poly, x: int)
    requires p == Residue().(c1 := Residue().c1 + 824 * TotalWeight()) && 0x8000_0000 <= x <= 0x8000_1000
    requires Near(p, 0x8000_0800, 0x800, 600 * 0x8000_0000 * TotalWeight())
    ensures Eval(Residue(), x) <= 0 - 224 * x * TotalWeight()
  {
    hide Eval, Residue, TotalWeight, Near;
    NearBounds(p, 0x8000_0800, 0x800, 600 * 0x8000_0000 * TotalWeight(), x);
    MoreAtOne(Residue(), 824 * TotalWeight(), x);
    MulLe(0x8000_0000, x, TotalWeight());
    assert x * (824 * TotalWeight()) == 824 * (x * TotalWeight());
    assert 224 * x * TotalWeight() == 224 * (x * TotalWeight());
    assert 600 * 0x8000_0000 * TotalWeight() == 600 * (0x8000_0000 * TotalWeight());
  }

  lemma MoreAtOne(p: Poly, k: int, x: int)
    ensures Eval(p.(c1 := p.c1 + k), x) == Eval(p, x) + x * k
  {
    var q := p.(c1 := p.c1 + k);
    SameTop(p, q, x, 8);
    assert Top(q, x, 9) == Top(p, x, 9) + k;
    assert Eval(q, x) == q.c0 + x * Top(q, x, 9);
    assert Eval(p, x) == p.c0 + x * Top(p, x, 9);
    hide Top;
    Distribute(x, Top(p, x, 9), k);
  }

  lemma {:induction false} SameTop(p: Poly, q: Poly, x: int, n: nat)
    requires n <= 8 && q == p.(c1 := q.c1)
    ensures Top(p, x, n) == Top(q, x, n)
  {
    if n > 0 {
      SameTop(p, q, x, n - 1);
    }
  }

  // -------------------------------------------------------------- the result

  lemma Accuracy(x: nat, r: int, w: nat, e: int)
    requires 0 < w && Abs(8 * (r * w - e)) <= 7176 * w
    requires Abs(x * e - 0x8000_0000_0000_0000 * w) <= 1150 * x * w
    ensures Abs(r * x - 0x8000_0000_0000_0000) <= 2047 * x
  {
    var d, y := r * w - e, r * x - 0x8000_0000_0000_0000;
    assert Abs(d) <= 897 * w;
    AbsProduct(x, d, x, 897 * w);
    Products(x, r, w, e, d, y);
    AbsScaled(y, w);
    MulLeCancel(Abs(y), 2047 * x, w);
  }

  lemma Products(x: int, r: int, w: int, e: int, d: int, y: int)
    requires d == r * w - e && y == r * x - 0x8000_0000_0000_0000
    ensures y * w == x * d + (x * e - 0x8000_0000_0000_0000 * w)
    ensures x * (897 * w) == 897 * (x * w) && 1150 * x * w == 1150 * (x * w) && 2047 * x * w == 2047 * (x * w)
  {
    assert x * d == x * (r * w) - x * e;
    assert x * (r * w) == r * x * w;
  }

  lemma AbsScaled(y: int, w: nat)
    ensures Abs(y * w) == Abs(y) * w
  {
  }

  /** Whatever x is, what the last line delivers is within 2047 of 2^63/x. */
  lemma DeliveredIsAccurate(x: nat)
    requires 0x8000_0000 <= x < 0x1_0000_0000
    ensures Abs(Delivered(x) * x - 0x8000_0000_0000_0000) <= 2047 * x
  {
    hide Eval, Residue, Delivered, Approximation, NoOverflow, Ideal, Weight, TotalWeight;
    FirstSevenExact(x);
    Roundings(x);
    WeightIsTotal();
    AlwaysSmall(x);
    ResidueEval(x);
    Accuracy(x, Delivered(x), TotalWeight(), Ideal(x, 8));
  }

  lemma BelowHere(x: nat, r: int, w: nat, e: int)
    requires 0 < x && 0 < w && 8 * (r * w - e) <= 908 * w
    requires x * e - 0x8000_0000_0000_0000 * w <= 0 - 224 * x * w
    ensures r * x < 0x8000_0000_0000_0000
  {
    var d, y := r * w - e, r * x - 0x8000_0000_0000_0000;
    assert d <= 114 * w;
    MulLe(d, 114 * w, x);
    Products(x, r, w, e, d, y);
    assert x * (114 * w) == 114 * (x * w) && 224 * x * w == 224 * (x * w);
    MulLt(0, x, w);
    MulLtCancel(y, 0, w);
  }

  /** It fits in 32 bits, which is a close thing for x = 2^31. */
  lemma DeliveredFits(x: nat)
    requires 0x8000_0000 <= x < 0x1_0000_0000
    ensures 0 <= Delivered(x) < 0x1_0000_0000
  {
    hide Eval, Residue, Delivered, Approximation, NoOverflow, Ideal, Weight, TotalWeight;
    var r := Delivered(x);
    DeliveredIsAccurate(x);
    if r < 0 {
      MulLe(r, -1, x);
      assert false;
    }
    if 0x1_0000_0000 <= r {
      MulLe(0x1_0000_0000, r, x);
      if x <= 0x8000_1000 {
        FirstSevenExact(x);
        RoundingsAtStart(x);
        WeightIsTotal();
        StartIsLow(x);
        ResidueEval(x);
        BelowHere(x, r, TotalWeight(), Ideal(x, 8));
      }
      assert false;
    }
  }

  /** recip_approx_32 needs no more than 64 bits anywhere, and is within 2047 of 2^63/x. */
  lemma ApproximationIsAccurate(x: nat)
    requires 0x8000_0000 <= x < 0x1_0000_0000
    ensures Approximation(x, 8) < 0x1_0000_0000
    ensures Abs(Approximation(x, 8) * x - 0x8000_0000_0000_0000) <= 2047 * x
  {
    hide Line, ExactLine;
    FirstSevenExact(x);
    DeliveredIsAccurate(x);
    DeliveredFits(x);
    LineIsExact(Approximation(x, 7), x, 8);
  }

  /** recip_approx_32. */
  method RecipApprox32(x: nat) returns (r: nat)
    requires 0x8000_0000 <= x < 0x1_0000_0000
    ensures r < 0x1_0000_0000
    ensures Abs(r * x - 0x8000_0000_0000_0000) <= 2047 * x
  {
    hide Line;
    r := Coefficient(0);
    assert r == Approximation(x, 0);
    r := Line(r, x, 1);
    assert r == Approximation(x, 1);
    r := Line(r, x, 2);
    assert r == Approximation(x, 2);
    r := Line(r, x, 3);
    assert r == Approximation(x, 3);
    r := Line(r, x, 4);
    assert r == Approximation(x, 4);
    r := Line(r, x, 5);
    assert r == Approximation(x, 5);
    r := Line(r, x, 6);
    assert r == Approximation(x, 6);
    r := Line(r, x, 7);
    assert r == Approximation(x, 7);
    r := Line(r, x, 8);
    ApproximationIsAccurate(x);
  }
}
