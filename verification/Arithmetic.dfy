/**
 Powers, division with remainder and congruences: the arithmetic that the
 multiprecision proofs share.
 */
module Arithmetic {

  // ---------------------------------------------------------------- products

  lemma MulLe(a: int, b: int, c: int)
    requires a <= b && 0 <= c
    ensures a * c <= b * c
    ensures c * a <= c * b
  {
  }

  lemma MulLt(a: int, b: int, c: int)
    requires a < b && 0 < c
    ensures a * c < b * c
    ensures c * a < c * b
  {
  }

  lemma MulLeBoth(a: int, b: int, c: int, d: int)
    requires 0 <= a <= b && 0 <= c <= d
    ensures a * c <= b * d
  {
    MulLe(a, b, c);
    MulLe(c, d, b);
  }

  /** A strict bound on one factor and a weak one on the other bound the product strictly. */
  lemma MulLtBoth(a: int, b: int, c: int, d: int)
    requires 0 <= a < b && 0 <= c <= d && 0 < d
    ensures a * c < b * d
  {
    MulLe(c, d, a);
    MulLt(a, b, d);
  }

  lemma MulCancel(a: int, b: int, c: int)
    requires c != 0 && a * c == b * c
    ensures a == b
  {
    if a < b {
      if 0 < c { MulLt(a, b, c); } else { MulLt(a, b, -c); }
    } else if b < a {
      if 0 < c { MulLt(b, a, c); } else { MulLt(b, a, -c); }
    }
  }

  lemma MulLeCancel(a: int, b: int, c: int)
    requires 0 < c && a * c <= b * c
    ensures a <= b
  {
    if b < a { MulLt(b, a, c); }
  }

  lemma MulLtCancel(a: int, b: int, c: int)
    requires 0 <= c && a * c < b * c
    ensures a < b
  {
    if b <= a { MulLe(b, a, c); }
  }

  lemma MulAssoc(a: int, b: int, c: int)
    ensures a * (b * c) == (a * b) * c
    ensures a * (b * c) == b * (a * c)
  {
  }

  lemma Distribute(a: int, b: int, c: int)
    ensures a * (b + c) == a * b + a * c
    ensures (b + c) * a == b * a + c * a
    ensures a * (b - c) == a * b - a * c
    ensures (b - c) * a == b * a - c * a
  {
  }

  // ---------------------------------------------------- division and remainder

  lemma DivModUnique(x: int, d: int, q: int, r: int)
    requires 0 <= r < d && x == q * d + r
    ensures x / d == q && x % d == r
  {
    var q', r' := x / d, x % d;
    assert x == q' * d + r';
    if q < q' {
      MulLe(q + 1, q', d);
      Distribute(d, q, 1);
      assert false;
    } else if q' < q {
      MulLe(q' + 1, q, d);
      Distribute(d, q', 1);
      assert false;
    }
  }

  lemma SmallMod(x: int, d: int)
    requires 0 <= x < d
    ensures x % d == x && x / d == 0
  {
    DivModUnique(x, d, 0, x);
  }

  lemma ModAddMultiple(a: int, k: int, m: int)
    requires 0 < m
    ensures (a + k * m) % m == a % m
    ensures (a + m * k) % m == a % m
    ensures (a + k * m) / m == a / m + k
  {
    var q, r := a / m, a % m;
    assert a + k * m == (q + k) * m + r by { Distribute(m, q, k); }
    DivModUnique(a + k * m, m, q + k, r);
  }

  lemma MultipleMod(k: int, m: int)
    requires 0 < m
    ensures (k * m) % m == 0 && (m * k) % m == 0
    ensures (k * m) / m == k && (m * k) / m == k
  {
    ModAddMultiple(0, k, m);
  }

  lemma DivLe(x: int, y: int, d: int)
    requires x <= y && 0 < d
    ensures x / d <= y / d
  {
    if y / d < x / d {
      MulLe(y / d + 1, x / d, d);
      Distribute(d, y / d, 1);
    }
  }

  /** x / d < q exactly when x < q * d. */
  lemma DivLt(x: int, d: int, q: int)
    requires 0 < d
    ensures x / d < q <==> x < q * d
    ensures x / d >= q <==> x >= q * d
  {
    if x / d < q {
      MulLe(x / d + 1, q, d);
      Distribute(d, x / d, 1);
    } else {
      MulLe(q, x / d, d);
    }
  }

  lemma DivNonNeg(x: int, d: int)
    requires 0 <= x && 0 < d
    ensures 0 <= x / d <= x
  {
    DivLt(x, d, 0);
    if x / d > x {
      MulLe(x + 1, x / d, d);
      MulLe(1, d, x + 1);
    }
  }

  lemma DivDiv(x: int, c: int, d: int)
    requires 0 < c && 0 < d
    ensures 0 < c * d
    ensures (x / c) / d == x / (c * d)
    ensures x % (c * d) == (x / c) % d * c + x % c
  {
    MulLt(0, c, d);
    var q1, r1 := x / c, x % c;
    var q2, r2 := q1 / d, q1 % d;
    calc {
      x;
      q1 * c + r1;
      (q2 * d + r2) * c + r1;
      { Distribute(c, q2 * d, r2); }
      q2 * d * c + r2 * c + r1;
      { MulAssoc(q2, d, c); }
      q2 * (c * d) + (r2 * c + r1);
    }
    assert 0 <= r2 * c + r1 < c * d by {
      MulLe(r2, d - 1, c);
      MulLe(0, r2, c);
      Distribute(c, d, 1);
    }
    DivModUnique(x, c * d, q2, r2 * c + r1);
  }

  /** Reducing first modulo a multiple of m changes nothing modulo m. */
  lemma ModOfMod(x: int, m: int, k: int)
    requires 0 < m && 0 < k
    ensures 0 < m * k
    ensures (x % (m * k)) % m == x % m
    ensures (x % (k * m)) % m == x % m
  {
    MulLt(0, m, k);
    var q, r := x / (m * k), x % (m * k);
    assert x == q * (m * k) + r;
    assert q * (m * k) == (q * k) * m by { MulAssoc(q, k, m); }
    ModAddMultiple(r, q * k, m);
  }

  /** A common factor can be pulled out of a remainder. */
  lemma ModScale(x: int, m: int, k: int)
    requires 0 < m && 0 < k
    ensures 0 < m * k
    ensures (x * k) % (m * k) == (x % m) * k
    ensures (x * k) / (m * k) == x / m
  {
    MulLt(0, m, k);
    var q, r := x / m, x % m;
    calc {
      x * k;
      (q * m + r) * k;
      { Distribute(k, q * m, r); MulAssoc(q, m, k); }
      q * (m * k) + r * k;
    }
    MulLt(r, m, k);
    MulLe(0, r, k);
    DivModUnique(x * k, m * k, q, r * k);
  }

  // -------------------------------------------------------------- congruences

  /** a and b leave the same remainder modulo m. */
  predicate Cong(a: int, b: int, m: int)
    requires 0 < m
  {
    a % m == b % m
  }

  lemma CongFromMultiple(a: int, b: int, k: int, m: int)
    requires 0 < m && a == b + k * m
    ensures Cong(a, b, m)
  {
    ModAddMultiple(b, k, m);
  }

  lemma CongToMultiple(a: int, b: int, m: int) returns (k: int)
    requires 0 < m && Cong(a, b, m)
    ensures a == b + k * m
  {
    k := a / m - b / m;
    Distribute(m, a / m, b / m);
  }

  lemma CongMod(a: int, m: int)
    requires 0 < m
    ensures Cong(a % m, a, m)
    ensures 0 <= a % m < m
  {
    SmallMod(a % m, m);
  }

  lemma CongAdd(a: int, b: int, c: int, d: int, m: int)
    requires 0 < m && Cong(a, b, m) && Cong(c, d, m)
    ensures Cong(a + c, b + d, m)
  {
    var k := CongToMultiple(a, b, m);
    var l := CongToMultiple(c, d, m);
    Distribute(m, k, l);
    CongFromMultiple(a + c, b + d, k + l, m);
  }

  lemma CongSub(a: int, b: int, c: int, d: int, m: int)
    requires 0 < m && Cong(a, b, m) && Cong(c, d, m)
    ensures Cong(a - c, b - d, m)
  {
    var k := CongToMultiple(a, b, m);
    var l := CongToMultiple(c, d, m);
    Distribute(m, k, l);
    CongFromMultiple(a - c, b - d, k - l, m);
  }

  lemma CongMul(a: int, b: int, c: int, d: int, m: int)
    requires 0 < m && Cong(a, b, m) && Cong(c, d, m)
    ensures Cong(a * c, b * d, m)
  {
    var k := CongToMultiple(a, b, m);
    var l := CongToMultiple(c, d, m);
    calc {
      a * c;
      (b + k * m) * c;
      { Distribute(c, b, k * m); MulAssoc(k, c, m); assert k * m * c == k * c * m; }
      b * c + k * c * m;
      b * (d + l * m) + k * c * m;
      { Distribute(b, d, l * m); MulAssoc(b, l, m); }
      b * d + b * l * m + k * c * m;
      { Distribute(m, b * l, k * c); }
      b * d + (b * l + k * c) * m;
    }
    CongFromMultiple(a * c, b * d, b * l + k * c, m);
  }

  /** Two residues below m that are congruent are equal. */
  lemma CongSmall(a: int, b: int, m: int)
    requires 0 < m && 0 <= a < m && 0 <= b < m && Cong(a, b, m)
    ensures a == b
  {
    SmallMod(a, m);
    SmallMod(b, m);
  }

  lemma CongZero(a: int, m: int)
    requires 0 < m
    ensures Cong(a, 0, m) <==> a % m == 0
  {
    SmallMod(0, m);
  }

  /** Congruence modulo a product implies congruence modulo a factor. */
  lemma CongFactor(a: int, b: int, m: int, k: int)
    requires 0 < m && 0 < k && 0 < m * k && Cong(a, b, m * k)
    ensures Cong(a, b, m)
  {
    ModOfMod(a, m, k);
    ModOfMod(b, m, k);
  }

  // ------------------------------------------------------------------- powers

  function Pow(b: int, e: nat): int
    decreases e
  {
    if e == 0 then 1 else b * Pow(b, e - 1)
  }

  lemma PowAtOne(x: int)
    ensures Pow(x, 1) == x && Pow(x, 0) == 1
  {
  }

  lemma {:induction false} PowPos(b: int, e: nat)
    requires 0 < b
    ensures 0 < Pow(b, e)
  {
    if e > 0 {
      PowPos(b, e - 1);
      MulLt(0, b, Pow(b, e - 1));
    }
  }

  lemma {:induction false} PowAdd(b: int, e: nat, f: nat)
    ensures Pow(b, e + f) == Pow(b, e) * Pow(b, f)
    decreases e
  {
    if e > 0 {
      PowAdd(b, e - 1, f);
      MulAssoc(b, Pow(b, e - 1), Pow(b, f));
    }
  }

  lemma {:induction false} PowMul(b: int, e: nat, f: nat)
    ensures 0 <= e * f
    ensures Pow(Pow(b, e), f) == Pow(b, e * f)
    decreases f
  {
    MulLe(0, e, f);
    if f > 0 {
      PowMul(b, e, f - 1);
      Distribute(e, f, 1);
      PowAdd(b, e, e * (f - 1));
    }
  }

  lemma {:induction false} PowDistribute(a: int, b: int, e: nat)
    ensures Pow(a * b, e) == Pow(a, e) * Pow(b, e)
  {
    if e > 0 {
      PowDistribute(a, b, e - 1);
      var p, q := Pow(a, e - 1), Pow(b, e - 1);
      calc {
        a * b * (p * q);
        { MulAssoc(a * b, p, q); MulAssoc(a, b, p); MulAssoc(a, p, b); }
        a * p * b * q;
        { MulAssoc(a * p, b, q); }
        (a * p) * (b * q);
      }
    }
  }

  lemma {:induction false} PowLe(b: int, e: nat, f: nat)
    requires 0 < b && e <= f
    ensures 0 < Pow(b, e) <= Pow(b, f)
  {
    PowPos(b, e);
    PowPos(b, f - e);
    PowAdd(b, f - e, e);
    MulLe(1, Pow(b, f - e), Pow(b, e));
  }

  lemma {:induction false} PowBaseLe(a: int, b: int, e: nat)
    requires 0 <= a <= b
    ensures 0 <= Pow(a, e) <= Pow(b, e)
    decreases e
  {
    if e > 0 {
      PowBaseLe(a, b, e - 1);
      MulLeBoth(a, b, Pow(a, e - 1), Pow(b, e - 1));
      MulLeBoth(0, a, 0, Pow(a, e - 1));
    }
  }

  lemma {:induction false} PowBaseLt(a: int, b: int, e: nat)
    requires 0 <= a < b && 0 < e
    ensures 0 <= Pow(a, e) < Pow(b, e)
  {
    PowBaseLe(a, b, e - 1);
    PowPos(b, e - 1);
    MulLtBoth(a, b, Pow(a, e - 1), Pow(b, e - 1));
    MulLeBoth(0, a, 0, Pow(a, e - 1));
  }

  lemma {:induction false} PowOne(e: nat)
    ensures Pow(1, e) == 1
  {
    if e > 0 { PowOne(e - 1); }
  }

  lemma {:induction false} PowZero(e: nat)
    requires 0 < e
    ensures Pow(0, e) == 0
  {
  }

  lemma {:induction false} CongPow(a: int, b: int, e: nat, m: int)
    requires 0 < m && Cong(a, b, m)
    ensures Cong(Pow(a, e), Pow(b, e), m)
    decreases e
  {
    if e > 0 {
      CongPow(a, b, e - 1, m);
      CongMul(a, b, Pow(a, e - 1), Pow(b, e - 1), m);
    }
  }

  function Pow2(e: nat): (r: nat)
    ensures 0 < r
  {
    PowPos(2, e);
    Pow(2, e)
  }

  lemma Pow2Step(e: nat)
    ensures Pow2(e + 1) == 2 * Pow2(e)
    ensures Pow2(0) == 1 && Pow2(1) == 2
  {
  }

  lemma Pow2Add(e: nat, f: nat)
    ensures Pow2(e + f) == Pow2(e) * Pow2(f)
  {
    PowAdd(2, e, f);
  }

  lemma Pow2At8()
    ensures Pow2(4) == 16 && Pow2(8) == 256
  {
    hide Pow2;
    Pow2Step(0);
    Pow2Add(1, 1);
    Pow2Add(2, 2);
    Pow2Add(4, 4);
  }

  lemma Pow2Positive(n: nat)
    ensures 0 < Pow2(n)
  {
    PowPos(2, n);
  }

  lemma PowOfPow2(s: nat, n: nat)
    ensures 0 <= n * s && Pow(Pow2(s), n) == Pow2(n * s)
  {
    PowMul(2, s, n);
  }

  lemma Pow2Le(e: nat, f: nat)
    requires e <= f
    ensures Pow2(e) <= Pow2(f)
  {
    PowLe(2, e, f);
  }

  lemma Pow2Lt(e: nat, f: nat)
    requires e < f
    ensures 2 * Pow2(e) <= Pow2(f)
  {
    PowLe(2, e + 1, f);
  }

  lemma {:induction false} Pow2Exceeds(e: nat)
    ensures e < Pow2(e)
  {
    if e > 0 { Pow2Exceeds(e - 1); }
  }

  // ---------------------------------------------------------- minima and maxima

  function Min(a: int, b: int): int { if a < b then a else b }

  function Max(a: int, b: int): int { if a > b then a else b }

  const TWO64: nat := 0x1_0000_0000_0000_0000

  function Abs(a: int): nat { if a < 0 then -a else a }

  function CeilDiv(a: nat, b: nat): (q: nat)
    requires 0 < b
  {
    DivNonNeg(a + b - 1, b);
    (a + b - 1) / b
  }

  /** CeilDiv rounds up: it is the least q with a <= q * b. */
  lemma CeilDivBounds(a: nat, b: nat)
    requires 0 < b
    ensures a <= CeilDiv(a, b) * b < a + b
    ensures forall q: nat :: a <= q * b ==> CeilDiv(a, b) <= q
  {
    forall q: nat | a <= q * b
      ensures CeilDiv(a, b) <= q
    {
      Distribute(b, q, 1);
      DivLt(a + b - 1, b, q + 1);
    }
  }
}
