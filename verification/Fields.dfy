/**
 The field of residues modulo a prime, as the elliptic-curve code uses it: sums,
 differences and products, each reduced. In the program the operands are
 Montgomery forms; the Montgomery module shows that forms are multiplied, and
 compared, as the residues they stand for.
 */
module Fields {
  import opened Arithmetic
  import opened Primes

  function Mul(p: nat, a: int, b: int): (r: nat)
    requires 0 < p
    ensures r < p
  {
    CongMod(a * b, p);
    (a * b) % p
  }

  function Add(p: nat, a: int, b: int): (r: nat)
    requires 0 < p
    ensures r < p
  {
    CongMod(a + b, p);
    (a + b) % p
  }

  function Sub(p: nat, a: int, b: int): (r: nat)
    requires 0 < p
    ensures r < p
  {
    CongMod(a - b, p);
    (a - b) % p
  }

  lemma MulC(p: nat, a: int, a': int, b: int, b': int)
    requires 0 < p && Cong(a, a', p) && Cong(b, b', p)
    ensures Cong(Mul(p, a, b), a' * b', p)
  {
    CongMod(a * b, p);
    CongMul(a, a', b, b', p);
  }

  lemma AddC(p: nat, a: int, a': int, b: int, b': int)
    requires 0 < p && Cong(a, a', p) && Cong(b, b', p)
    ensures Cong(Add(p, a, b), a' + b', p)
  {
    CongMod(a + b, p);
    CongAdd(a, a', b, b', p);
  }

  lemma SubC(p: nat, a: int, a': int, b: int, b': int)
    requires 0 < p && Cong(a, a', p) && Cong(b, b', p)
    ensures Cong(Sub(p, a, b), a' - b', p)
  {
    CongMod(a - b, p);
    CongSub(a, a', b, b', p);
  }

  lemma Refl(p: nat, a: int)
    requires 0 < p
    ensures Cong(a, a, p)
  {
  }

  lemma Trans(p: nat, a: int, b: int, c: int)
    requires 0 < p && Cong(a, b, p) && Cong(b, c, p)
    ensures Cong(a, c, p) && Cong(c, a, p) && Cong(b, a, p)
  {
  }

  lemma SameZero(p: nat, a: int, b: int)
    requires 0 < p && Cong(a, b, p)
    ensures a % p == 0 <==> b % p == 0
  {
  }

  /** A nonzero factor cancels. */
  lemma CancelFactor(p: nat, k: int, a: int, b: int)
    requires IsPrime(p) && k % p != 0
    ensures Cong(k * a, k * b, p) <==> Cong(a, b, p)
  {
    hide IsPrime;
    PrimePositive(p);
    if Cong(a, b, p) {
      CongMul(k, k, a, b, p);
    }
    if Cong(k * a, k * b, p) {
      CongSub(k * a, k * b, k * b, k * b, p);
      assert k * a - k * b == k * (a - b);
      CongZero(k * (a - b), p);
      EuclidsLemma(p, k, a - b);
      CongZero(a - b, p);
      CongAdd(a - b, 0, b, b, p);
    }
  }

  /** A product is zero just when a factor is. */
  lemma ProductZero(p: nat, a: int, b: int)
    requires IsPrime(p)
    ensures (a * b) % p == 0 <==> a % p == 0 || b % p == 0
  {
    hide IsPrime;
    PrimePositive(p);
    if (a * b) % p == 0 {
      EuclidsLemma(p, a, b);
    }
    if a % p == 0 {
      CongZero(a, p);
      CongMul(a, 0, b, b, p);
      CongZero(a * b, p);
    }
    if b % p == 0 {
      CongZero(b, p);
      CongMul(a, a, b, 0, p);
      CongZero(a * b, p);
    }
  }
}
