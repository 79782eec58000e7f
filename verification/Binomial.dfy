/**
 Binomial coefficients and the binomial theorem.
 */
module Binomial {
  import opened Arithmetic

  function Choose(n: nat, k: nat): (c: nat)
    ensures k > n ==> c == 0
    ensures k <= n ==> 0 < c
  {
    if k == 0 then 1 else if n == 0 then 0 else Choose(n - 1, k - 1) + Choose(n - 1, k)
  }

  lemma {:induction false} ChooseSelf(n: nat)
    ensures Choose(n, n) == 1
  {
    if n > 0 { ChooseSelf(n - 1); }
  }

  /** k C(n, k) == n C(n-1, k-1). */
  lemma {:induction false} Absorption(n: nat, k: nat)
    requires 0 < n && 0 < k
    ensures Choose(n, k) * k == n * Choose(n - 1, k - 1)
    decreases n
  {
    if n == 1 {
      if k > 1 { assert Choose(0, k - 1) == 0; }
    } else if k == 1 {
      Absorption(n - 1, 1);
    } else {
      var x, y := Choose(n - 1, k - 1), Choose(n - 1, k);
      Absorption(n - 1, k - 1);
      Absorption(n - 1, k);
      // x (k-1) == (n-1) C(n-2, k-2), and y k == (n-1) C(n-2, k-1)
      Distribute(n - 1, Choose(n - 2, k - 2), Choose(n - 2, k - 1));
      Distribute(k, x, y);
      Distribute(x, k, 1);
      Distribute(x, n, 1);
    }
  }

  /** The next coefficient from the last: (k+1) C(n, k+1) == (n-k) C(n, k). */
  lemma {:induction false} NextCoefficient(n: nat, k: nat)
    requires k < n
    ensures Choose(n, k + 1) * (k + 1) == Choose(n, k) * (n - k)
    decreases n
  {
    if k == 0 {
      if n > 1 { NextCoefficient(n - 1, 0); }
    } else if k == n - 1 {
      Absorption(n, n);
      ChooseSelf(n);
      ChooseSelf(n - 1);
      LastButOne(n);
    } else {
      Absorption(n, k + 1);
      Absorption(n, k);
      NextFromAbsorption(n, k);
    }
  }

  lemma {:induction false} LastButOne(n: nat)
    requires 0 < n
    ensures Choose(n, n - 1) == n
  {
    if n > 1 {
      LastButOne(n - 1);
      ChooseSelf(n - 1);
    }
  }

  lemma NextFromAbsorption(n: nat, k: nat)
    requires 0 < k < n
    requires Choose(n, k + 1) * (k + 1) == n * Choose(n - 1, k)
    requires Choose(n, k) * k == n * Choose(n - 1, k - 1)
    ensures Choose(n, k + 1) * (k + 1) == Choose(n, k) * (n - k)
  {
    var x, y, c := Choose(n - 1, k - 1), Choose(n - 1, k), Choose(n, k);
    assert c == x + y;
    Distribute(n, x, y);
    Distribute(c, n, k);
  }

  /** Coefficients grow with n. */
  lemma {:induction false} ChooseMonotone(n: nat, m: nat, k: nat)
    requires n <= m
    ensures Choose(n, k) <= Choose(m, k)
    decreases m
  {
    if n < m {
      ChooseMonotone(n, m - 1, k);
    }
  }

  /** No coefficient of an 18th or lower power needs more than 16 bits. */
  lemma ChooseSmall(n: nat, k: nat)
    requires n <= 18 && k <= n
    ensures Choose(n, k) <= 48620 < 0x10000
  {
    hide Choose;
    ChooseMonotone(n, 18, k);
    RowOf18(k);
  }

  lemma RowOf18(k: nat)
    requires k <= 18
    ensures Choose(18, k) <= 48620
  {
    hide Choose;
    ChooseZero(18);
    NextCoefficient(18, 0);
    NextCoefficient(18, 1);
    NextCoefficient(18, 2);
    NextCoefficient(18, 3);
    NextCoefficient(18, 4);
    NextCoefficient(18, 5);
    NextCoefficient(18, 6);
    NextCoefficient(18, 7);
    NextCoefficient(18, 8);
    NextCoefficient(18, 9);
    NextCoefficient(18, 10);
    NextCoefficient(18, 11);
    NextCoefficient(18, 12);
    NextCoefficient(18, 13);
    NextCoefficient(18, 14);
    NextCoefficient(18, 15);
    NextCoefficient(18, 16);
    NextCoefficient(18, 17);
  }

  lemma ChooseZero(n: nat)
    ensures Choose(n, 0) == 1
  {
  }

  // -------------------------------------------------------------- the binomial theorem

  /** The term C(n, k) x^k y^(n-k). */
  function Term(x: int, y: int, n: nat, k: nat): int
    requires k <= n
  {
    Choose(n, k) * (Pow(x, k) * Pow(y, n - k))
  }

  /** The sum of the terms below k. */
  function Terms(x: int, y: int, n: nat, k: nat): int
    requires k <= n + 1
  {
    if k == 0 then 0 else Terms(x, y, n, k - 1) + Term(x, y, n, k - 1)
  }

  /** Pascal's rule, summed: the terms of the next power below k. */
  lemma {:induction false} TermsStep(x: int, y: int, n: nat, k: nat)
    requires k <= n + 1
    ensures Terms(x, y, n + 1, k) == y * Terms(x, y, n, k) + x * (if k == 0 then 0 else Terms(x, y, n, k - 1))
    decreases k
  {
    if k > 0 {
      TermsStep(x, y, n, k - 1);
      var j := k - 1;
      TermStep(x, y, n, j);
      Distribute(y, Terms(x, y, n, j), Term(x, y, n, j));
      if j > 0 {
        Distribute(x, Terms(x, y, n, j - 1), Term(x, y, n, j - 1));
      }
    }
  }

  lemma TermStep(x: int, y: int, n: nat, j: nat)
    requires j <= n
    ensures Term(x, y, n + 1, j) == y * Term(x, y, n, j) + (if j == 0 then 0 else x * Term(x, y, n, j - 1))
  {
    var p, q := Pow(x, j), Pow(y, n - j);
    assert Pow(y, n + 1 - j) == y * q;
    if j == 0 {
      TermArith(1, 0, p, 0, q, x, y);
    } else {
      assert p == x * Pow(x, j - 1);
      assert Pow(y, n - (j - 1)) == y * q;
      TermArith(Choose(n, j), Choose(n, j - 1), p, Pow(x, j - 1), q, x, y);
    }
  }

  lemma TermArith(c: int, c': int, p: int, p': int, q: int, x: int, y: int)
    requires c' != 0 ==> p == x * p'
    ensures (c' + c) * (p * (y * q)) == y * (c * (p * q)) + x * (c' * (p' * (y * q)))
  {
    Distribute(p * (y * q), c', c);
    assert c * (p * (y * q)) == y * (c * (p * q));
    if c' == 0 {
      assert c' * (p * (y * q)) == 0 && x * (c' * (p' * (y * q))) == 0;
    } else {
      assert x * p' * (y * q) == x * (p' * (y * q));
      assert c' * (x * (p' * (y * q))) == x * (c' * (p' * (y * q)));
    }
  }

  /** (x + y)^n. */
  lemma {:induction false} BinomialTheorem(x: int, y: int, n: nat)
    ensures Pow(x + y, n) == Terms(x, y, n, n + 1)
    decreases n
  {
    if n == 0 {
      assert Terms(x, y, 0, 1) == Terms(x, y, 0, 0) + Term(x, y, 0, 0);
    } else {
      BinomialTheorem(x, y, n - 1);
      var t := Terms(x, y, n - 1, n);
      TermsStep(x, y, n - 1, n);
      LastTerms(x, y, n);
      Distribute(t, x, y);
    }
  }

  /** The last term of a power is x times the last of the one below. */
  lemma LastTerms(x: int, y: int, n: nat)
    requires 0 < n
    ensures Term(x, y, n, n) == x * Term(x, y, n - 1, n - 1)
    ensures Terms(x, y, n, n + 1) == Terms(x, y, n, n) + Term(x, y, n, n)
    ensures Terms(x, y, n - 1, n) == Terms(x, y, n - 1, n - 1) + Term(x, y, n - 1, n - 1)
    ensures x * Terms(x, y, n - 1, n) == x * Terms(x, y, n - 1, n - 1) + x * Term(x, y, n - 1, n - 1)
  {
    ChooseSelf(n);
    ChooseSelf(n - 1);
    assert Pow(x, n) == x * Pow(x, n - 1);
    Distribute(x, Terms(x, y, n - 1, n - 1), Term(x, y, n - 1, n - 1));
  }
}
