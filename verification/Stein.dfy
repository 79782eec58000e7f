/**
 The numbers behind mp_bezout_into: Stein's reduction of a pair to (0, d), and the
 unwinding of its steps into Bezout coefficients.
 */
module Stein {
  import opened Arithmetic

  // -------------------------------------------------------------- common divisors

  predicate Divides(c: int, x: int)
    requires 0 < c
  {
    x % c == 0
  }

  /** d is the greatest common divisor of a and b: its divisors are exactly their common divisors. */
  ghost predicate IsGcd(d: nat, a: nat, b: nat) {
    0 < d && forall c: nat {:trigger Divides(c, d)} :: 0 < c ==> ((Divides(c, a) && Divides(c, b)) <==> Divides(c, d))
  }

  lemma DividesSum(c: int, x: int, y: int)
    requires 0 < c && Divides(c, y)
    ensures Divides(c, x) <==> Divides(c, x + y)
    ensures Divides(c, x) <==> Divides(c, x - y)
  {
    SmallMod(0, c);
    CongAdd(x, x, y, 0, c);
    CongSub(x, x, y, 0, c);
  }

  lemma DividesMultiple(c: int, x: int, k: int)
    requires 0 < c && Divides(c, x)
    ensures Divides(c, k * x)
  {
    SmallMod(0, c);
    CongMul(k, k, x, 0, c);
  }

  lemma OddTimesOdd(x: int, y: int)
    requires x % 2 == 1 && y % 2 == 1
    ensures (x * y) % 2 == 1
  {
    var i, j := x / 2, y / 2;
    assert x * y == 2 * (2 * i * j + i + j) + 1;
  }

  lemma EvenTimes(x: int, y: int)
    requires y % 2 == 0
    ensures (x * y) % 2 == 0
  {
    assert x * y == 2 * (x * (y / 2));
  }

  /** An odd number divides twice x only if it divides x. */
  lemma OddDividesDouble(c: int, x: int)
    requires 0 < c && c % 2 == 1 && Divides(c, 2 * x)
    ensures Divides(c, x)
  {
    HalfQuotient(2 * x / c, c, x);
    MultipleMod(2 * x / c / 2, c);
  }

  lemma HalfQuotient(q: int, c: int, x: int)
    requires q * c == 2 * x && c % 2 == 1
    ensures x == q / 2 * c
  {
    if q % 2 == 1 {
      OddTimesOdd(q, c);
    } else {
      MulAssoc(2, q / 2, c);
    }
  }

  lemma EvenDividesOnlyEven(c: int, x: int)
    requires 0 < c && c % 2 == 0 && Divides(c, x)
    ensures x % 2 == 0
  {
    EvenTimes(x / c, c);
  }

  // ------------------------------------------------------------------ one reduction

  /** What the code records of a step: whether it subtracted, and whether it swapped. */
  datatype Step = Step(bothOdd: bool, swap: bool)

  function StepOf(a: nat, b: nat): Step {
    var bothOdd := a % 2 == 1 && b % 2 == 1;
    Step(bothOdd, if bothOdd then b >= a else a % 2 == 1)
  }

  /** The pair in the order the step works on it. */
  function Ordered(s: Step, a: nat, b: nat): (nat, nat) {
    if s.swap then (b, a) else (a, b)
  }

  ghost predicate OneOdd(a: nat, b: nat) {
    a % 2 == 1 || b % 2 == 1
  }

  /** The pair after a step: the even number, or the difference of two odd ones, is halved. */
  function Reduced(a: nat, b: nat): (nat, nat)
    requires OneOdd(a, b)
  {
    var s := StepOf(a, b);
    var (x, y) := Ordered(s, a, b);
    ((if s.bothOdd then x - y else x) / 2, y)
  }

  /** Undo a step. */
  function Undone(s: Step, a: nat, b: nat): (nat, nat) {
    Ordered(s, 2 * a + (if s.bothOdd then b else 0), b)
  }

  lemma UndoInverts(a: nat, b: nat)
    requires OneOdd(a, b)
    ensures var r := Reduced(a, b); Undone(StepOf(a, b), r.0, r.1) == (a, b)
    ensures Reduced(a, b).1 % 2 == 1
  {
  }

  lemma UndoScales(s: Step, d: nat, a: nat, b: nat)
    ensures Undone(s, d * a, d * b) == (d * Undone(s, a, b).0, d * Undone(s, a, b).1)
  {
    var x := 2 * a + if s.bothOdd then b else 0;
    assert 2 * (d * a) + (if s.bothOdd then d * b else 0) == d * x by { Distribute(d, 2 * a, b); }
  }

  /** A step at least halves the product. */
  lemma ProductHalves(a: nat, b: nat)
    requires OneOdd(a, b)
    ensures 2 * (Reduced(a, b).0 * Reduced(a, b).1) <= a * b
  {
    var s := StepOf(a, b);
    var (x, y) := Ordered(s, a, b);
    var x' := if s.bothOdd then x - y else x;
    assert 2 * (x' / 2) == x';
    MulLe(x', x, y);
    MulAssoc(2, x' / 2, y);
  }

  /** A step keeps the common divisors. */
  lemma CommonDivisorsKept(a: nat, b: nat, c: nat)
    requires OneOdd(a, b) && 0 < c
    ensures var r := Reduced(a, b); (Divides(c, a) && Divides(c, b)) <==> (Divides(c, r.0) && Divides(c, r.1))
  {
    var s, r := StepOf(a, b), Reduced(a, b);
    var (x, y) := Ordered(s, a, b);
    var x' := if s.bothOdd then x - y else x;
    assert x' == 2 * r.0 && y == r.1 && y % 2 == 1;
    if Divides(c, y) {
      assert Divides(c, x) <==> Divides(c, x') by { DividesSum(c, x, y); }
      assert c % 2 == 1 by {
        if c % 2 == 0 { EvenDividesOnlyEven(c, y); }
      }
      if Divides(c, x') { OddDividesDouble(c, r.0); }
      if Divides(c, r.0) { DividesMultiple(c, r.0, 2); }
    }
  }

  // ----------------------------------------------------------------------- the run

  /** The pair after k steps. */
  function After(a: nat, b: nat, k: nat): (r: (nat, nat))
    requires OneOdd(a, b)
    ensures OneOdd(r.0, r.1)
    ensures 0 < k ==> r.1 % 2 == 1
  {
    if k == 0 then (a, b)
    else
      var p := After(a, b, k - 1);
      UndoInverts(p.0, p.1);
      Reduced(p.0, p.1)
  }

  /** The step taken from the pair after k steps. */
  function StepAt(a: nat, b: nat, k: nat): Step
    requires OneOdd(a, b)
  {
    var p := After(a, b, k);
    StepOf(p.0, p.1)
  }

  lemma {:induction false} RunHalves(a: nat, b: nat, k: nat)
    requires OneOdd(a, b)
    ensures After(a, b, k).0 * After(a, b, k).1 * Pow2(k) <= a * b
    decreases k
  {
    hide Reduced;
    if k == 0 {
      Pow2Step(0);
    } else {
      var p, q := After(a, b, k - 1), After(a, b, k);
      RunHalves(a, b, k - 1);
      ProductHalves(p.0, p.1);
      Pow2Step(k - 1);
      MulLe(2 * (q.0 * q.1), p.0 * p.1, Pow2(k - 1));
      assert q.0 * q.1 * Pow2(k) == 2 * (q.0 * q.1) * Pow2(k - 1);
    }
  }

  lemma {:induction false} RunKeepsDivisors(a: nat, b: nat, k: nat, c: nat)
    requires OneOdd(a, b) && 0 < c
    ensures (Divides(c, a) && Divides(c, b)) <==> (Divides(c, After(a, b, k).0) && Divides(c, After(a, b, k).1))
    decreases k
  {
    hide Reduced;
    if k > 0 {
      var p := After(a, b, k - 1);
      RunKeepsDivisors(a, b, k - 1, c);
      CommonDivisorsKept(p.0, p.1, c);
    }
  }

  /** For n-bit numbers, 2n steps always reach (0, d), where d is the greatest common divisor. */
  lemma RunEnds(a: nat, b: nat, n: nat)
    requires OneOdd(a, b) && a < Pow2(n) && b < Pow2(n) && 0 < n
    ensures After(a, b, 2 * n).0 == 0
    ensures IsGcd(After(a, b, 2 * n).1, a, b)
  {
    hide After, Pow2;
    var p, d := After(a, b, 2 * n).0, After(a, b, 2 * n).1;
    assert d % 2 == 1;
    RunHalves(a, b, 2 * n);
    Pow2Add(n, n);
    MulLtBoth(a, Pow2(n), b, Pow2(n));
    if p > 0 {
      MulLe(1, p, d);
      MulLe(1, p * d, Pow2(2 * n));
      assert false;
    }
    forall c: nat | 0 < c ensures (Divides(c, a) && Divides(c, b)) <==> Divides(c, d) {
      RunKeepsDivisors(a, b, 2 * n, c);
      SmallMod(0, c);
    }
  }

  // ------------------------------------------------------------------ the unwinding

  /** What the unwinding loop holds: the pair divided by d, the coefficients, and the sign of the result. */
  datatype Unwinding = Unwinding(u: nat, v: nat, ac: nat, bc: nat, minus: bool) {
    /** ac * u - bc * v is 1 or -1, and the coefficients are no bigger than they need be. */
    predicate Good() {
      && ac * u - bc * v == (if minus then -1 else 1)
      && (this == UNWIND_START || (ac <= v && bc <= u))
    }
  }

  const UNWIND_START := Unwinding(0, 1, 0, 1, true)

  /** The unwinding loop's turn before its swap: halve, and undo the subtraction. */
  function Unhalved(s: Step, t: Unwinding): Unwinding {
    var (ac1, bc1) := if t.ac % 2 == 1 then (t.ac + t.v, t.bc + t.u) else (t.ac, t.bc);
    var ac := ac1 / 2;
    if s.bothOdd then Unwinding(2 * t.u + t.v, t.v, ac, bc1 + ac, t.minus)
    else Unwinding(2 * t.u, t.v, ac, bc1, t.minus)
  }

  /** One turn of the unwinding loop. */
  function Unwound(s: Step, t: Unwinding): Unwinding {
    var h := Unhalved(s, t);
    if s.swap then Unwinding(h.v, h.u, h.bc, h.ac, !h.minus) else h
  }

  lemma UnwoundIsUndone(s: Step, t: Unwinding)
    ensures (Unwound(s, t).u, Unwound(s, t).v) == Undone(s, t.u, t.v)
  {
  }

  /** Adding (b, a) to the coefficients, if that makes the first one even, changes nothing. */
  lemma Adjusted(t: Unwinding, ac1: nat, bc1: nat)
    requires t.v % 2 == 1
    requires (ac1, bc1) == if t.ac % 2 == 1 then (t.ac + t.v, t.bc + t.u) else (t.ac, t.bc)
    ensures ac1 % 2 == 0
    ensures ac1 * t.u - bc1 * t.v == t.ac * t.u - t.bc * t.v
  {
    Distribute(t.u, t.ac, t.v);
    Distribute(t.v, t.bc, t.u);
  }

  lemma UnhalvedValue(s: Step, t: Unwinding)
    requires t.v % 2 == 1
    ensures var h := Unhalved(s, t); h.ac * h.u - h.bc * h.v == t.ac * t.u - t.bc * t.v
  {
    var (ac1, bc1) := if t.ac % 2 == 1 then (t.ac + t.v, t.bc + t.u) else (t.ac, t.bc);
    Adjusted(t, ac1, bc1);
    UnhalvedArith(ac1 / 2, bc1, t.u, t.v);
  }

  lemma UnhalvedArith(ac: int, bc: int, u: int, v: int)
    ensures ac * (2 * u) - bc * v == 2 * ac * u - bc * v
    ensures ac * (2 * u + v) - (bc + ac) * v == 2 * ac * u - bc * v
  {
    Distribute(ac, 2 * u, v);
    Distribute(v, bc, ac);
  }

  lemma UnwindStep(s: Step, t: Unwinding)
    requires t.Good() && t.v % 2 == 1 && 0 < Undone(s, t.u, t.v).1
    ensures Unwound(s, t).Good()
  {
    UnhalvedValue(s, t);
    var h := Unhalved(s, t);
    if t == UNWIND_START {
      assert h == if s.bothOdd then Unwinding(1, 1, 0, 1, true) else t;
    } else {
      assert h.ac <= h.v && h.bc <= h.u;
    }
  }

  /** The loop after it has undone all but the first k of K steps. */
  function UnwoundTo(a: nat, b: nat, K: nat, k: nat): Unwinding
    requires OneOdd(a, b) && k <= K
    decreases K - k
  {
    if k == K then UNWIND_START else Unwound(StepAt(a, b, k), UnwoundTo(a, b, K, k + 1))
  }

  lemma {:induction false} UnwoundPair(a: nat, b: nat, K: nat, k: nat, d: nat)
    requires OneOdd(a, b) && k <= K && After(a, b, K) == (0, d)
    ensures var t := UnwoundTo(a, b, K, k); After(a, b, k) == (d * t.u, d * t.v)
    decreases K - k
  {
    if k < K {
      var p, s, t := After(a, b, k), StepAt(a, b, k), UnwoundTo(a, b, K, k + 1);
      UnwoundPair(a, b, K, k + 1, d);
      UndoInverts(p.0, p.1);
      UndoScales(s, d, t.u, t.v);
      UnwoundIsUndone(s, t);
    }
  }

  lemma UnwoundSecond(a: nat, b: nat, K: nat, k: nat, d: nat)
    requires OneOdd(a, b) && (0 < b || 0 < k) && k <= K && After(a, b, K) == (0, d)
    ensures 0 < UnwoundTo(a, b, K, k).v
    ensures 0 < k ==> UnwoundTo(a, b, K, k).v % 2 == 1
  {
    hide UnwoundTo;
    var v := UnwoundTo(a, b, K, k).v;
    UnwoundPair(a, b, K, k, d);
    assert 0 < After(a, b, k).1;
    PositiveFactors(d, v);
    if 0 < k { OddFactor(d, v); }
  }

  lemma {:induction false} UnwoundGood(a: nat, b: nat, K: nat, k: nat, d: nat)
    requires OneOdd(a, b) && (0 < b || 0 < k) && k <= K && After(a, b, K) == (0, d)
    ensures UnwoundTo(a, b, K, k).Good()
    decreases K - k
  {
    hide After, Unwound;
    if k < K {
      var s, t := StepAt(a, b, k), UnwoundTo(a, b, K, k + 1);
      UnwoundGood(a, b, K, k + 1, d);
      UnwoundSecond(a, b, K, k, d);
      UnwoundSecond(a, b, K, k + 1, d);
      UnwoundIsUndone(s, t);
      UnwindStep(s, t);
    }
  }

  lemma OddFactor(x: nat, y: nat)
    requires (x * y) % 2 == 1
    ensures y % 2 == 1
  {
    if y % 2 == 0 { EvenTimes(x, y); }
  }

  /** The final adjustment of the coefficients, if the result came out as -d. */
  function Coefficients(t: Unwinding): (int, int) {
    if t.minus then (t.v - t.ac, t.u - t.bc) else (t.ac, t.bc)
  }

  /** A and B are the minimal coefficients with A*a - B*b == d. */
  ghost predicate Minimal(A: int, B: int, a: nat, b: nat, d: nat)
    requires 0 < d
  {
    && A * a - B * b == d
    && 0 <= A <= b / d && (A == b / d ==> b == d)
    && 0 <= B < a / d
  }

  /** The outcome of reduction and unwinding, for positive a and b that are not both even. */
  lemma BezoutResult(a: nat, b: nat, K: nat, d: nat)
    requires OneOdd(a, b) && 0 < a && 0 < b && 0 < d && After(a, b, K) == (0, d)
    ensures var t := UnwoundTo(a, b, K, 0);
            && t.Good() && a == d * t.u && b == d * t.v && t.ac <= t.v && t.bc <= t.u
            && Minimal(Coefficients(t).0, Coefficients(t).1, a, b, d)
  {
    hide After, UnwoundTo;
    var t := UnwoundTo(a, b, K, 0);
    AfterNone(a, b);
    UnwoundPair(a, b, K, 0, d);
    UnwoundGood(a, b, K, 0, d);
    PositiveFactors(d, t.u);
    PositiveFactors(d, t.v);
    MinimalScaled(t, a, b, d);
  }

  lemma AfterNone(a: nat, b: nat)
    requires OneOdd(a, b)
    ensures After(a, b, 0) == (a, b)
  {
  }

  lemma PositiveFactors(x: nat, y: nat)
    requires 0 < x * y
    ensures 0 < y
  {
  }

  lemma MinimalScaled(t: Unwinding, a: nat, b: nat, d: nat)
    requires t.Good() && 0 < t.u && 0 < t.v && 0 < d && a == d * t.u && b == d * t.v
    ensures Minimal(Coefficients(t).0, Coefficients(t).1, a, b, d)
  {
    var A, B := Coefficients(t).0, Coefficients(t).1;
    assert A * t.u - B * t.v == 1 && 0 <= A <= t.v && (A == t.v ==> t.v == 1) && 0 <= B < t.u by {
      MinimalUnscaled(t, A, B);
    }
    MultipleMod(t.u, d);
    MultipleMod(t.v, d);
    ScaledCombination(A, B, t.u, t.v, d);
  }

  lemma ScaledCombination(A: int, B: int, u: int, v: int, d: int)
    requires A * u - B * v == 1
    ensures A * (d * u) - B * (d * v) == d
  {
    Distribute(d, A * u, B * v);
    MulAssoc(A, d, u);
    MulAssoc(B, d, v);
  }

  lemma OneIsNoProduct(x: nat, y: int)
    requires x * y == 1
    ensures x == 1 && y == 1
  {
    if y <= 0 { MulLe(y, 0, x); } else if 1 < x { MulLe(1, y, x); }
  }

  lemma MinimalUnscaled(t: Unwinding, A: int, B: int)
    requires t.Good() && 0 < t.u && 0 < t.v && (A, B) == Coefficients(t)
    ensures A * t.u - B * t.v == 1 && 0 <= A <= t.v && (A == t.v ==> t.v == 1) && 0 <= B < t.u
  {
    if t.minus {
      Distribute(t.u, t.v, t.ac);
      Distribute(t.v, t.u, t.bc);
    }
    if A == t.v {
      Distribute(t.v, t.u, B);
      OneIsNoProduct(t.v, t.u - B);
    }
    if B == t.u {
      Distribute(t.u, A, t.v);
      OneIsNoProduct(t.u, A - t.v);
    }
  }

  /** From a pair (0, b) on, steps change nothing, and so does their unwinding. */
  lemma {:induction false} Settled(a: nat, b: nat, K: nat, k: nat)
    requires OneOdd(a, b) && k <= K && After(a, b, k).0 == 0
    ensures After(a, b, K) == After(a, b, k) && UnwoundTo(a, b, K, k) == UNWIND_START
    decreases K - k
  {
    if k < K {
      assert After(a, b, k + 1) == After(a, b, k);
      Settled(a, b, K, k + 1);
    }
  }

  /** With a zero, unwinding ends where it began, or with the two exchanged. */
  lemma UnwoundWithZero(a: nat, b: nat, K: nat)
    requires OneOdd(a, b) && (a == 0 || b == 0) && 0 < K
    ensures After(a, b, K) == (0, a + b)
    ensures UnwoundTo(a, b, K, 0) == if a == 0 then UNWIND_START else Unwinding(1, 0, 1, 0, false)
  {
    if a == 0 {
      Settled(a, b, K, 0);
    } else {
      assert After(a, b, 0) == (a, 0) && After(a, b, 1) == (0, a);
      Settled(a, b, K, 1);
    }
  }

  /** The greatest common divisor, which is 0 for two zeros. */
  ghost predicate GcdOf(d: nat, a: nat, b: nat) {
    if a == 0 && b == 0 then d == 0 else IsGcd(d, a, b)
  }

  /** What the coefficients come out as, from registers that hold numbers below n. Two positive numbers have the minimal
      ones. So has a positive a with b = 0. With a = 0 there are none that are not negative, and B = n - 1 stands for -1. */
  ghost predicate Outcome(A: nat, B: nat, a: nat, b: nat, d: nat, n: nat) {
    if 0 < a && 0 < b then 0 < d && Minimal(A, B, a, b, d)
    else if 0 < a then A == 1 && B == 0
    else if 0 < b then A == 1 && B == n - 1
    else A == 0 && B == 0
  }

  /** So A*a - B*b is the gcd just when a is positive or both are 0, and always modulo n. */
  lemma OutcomeIsExact(A: nat, B: nat, a: nat, b: nat, d: nat, n: nat)
    requires Outcome(A, B, a, b, d, n) && GcdOf(d, a, b) && 1 < n
    ensures A * a - B * b == d <==> 0 < a || b == 0
    ensures Cong(A * a - B * b, d, n)
  {
    if a == 0 && b == 0 {
      assert A * a - B * b == 0;
    } else if b == 0 {
      GcdOfZero(d, a, a, b);
    } else if a == 0 {
      GcdOfZero(d, b, a, b);
      assert B * b == n * b - b;
      assert A * a - B * b == b + (0 - b) * n;
      ModAddMultiple(b, 0 - b, n);
      MulLe(2, n, b);
    }
  }

  lemma GcdOfZero(d: nat, x: nat, a: nat, b: nat)
    requires IsGcd(d, a, b) && 0 < x && (a, b) in {(x, 0), (0, x)}
    ensures d == x
  {
    MultipleMod(0, x);
    MultipleMod(1, x);
    MultipleMod(1, d);
    assert Divides(x, x) && Divides(x, 0) && Divides(x, d) && Divides(d, d) && Divides(d, x);
    if d < x { SmallMod(d, x); }
    if x < d { SmallMod(x, d); }
  }

  /** Reduction never makes the numbers bigger. */
  lemma {:induction false} RunBound(a: nat, b: nat, k: nat, n: nat)
    requires OneOdd(a, b) && a < n && b < n
    ensures After(a, b, k).0 < n && After(a, b, k).1 < n
    decreases k
  {
    if k > 0 { RunBound(a, b, k - 1, n); }
  }

  /** Nor does unwinding make them bigger than they were. */
  lemma UnwoundBound(a: nat, b: nat, K: nat, k: nat, d: nat, n: nat)
    requires OneOdd(a, b) && a < n && b < n && 0 < d && k <= K && After(a, b, K) == (0, d)
    ensures var t := UnwoundTo(a, b, K, k); t.u < n && t.v < n
  {
    hide After, UnwoundTo;
    var t := UnwoundTo(a, b, K, k);
    RunBound(a, b, k, n);
    UnwoundPair(a, b, K, k, d);
    MulLe(1, d, t.u);
    MulLe(1, d, t.v);
  }
}
