/**
 The Miller-Rabin primality test.
 */
module MillerRabin {
  import opened Arithmetic
  import opened Words
  import opened MpInts
  import opened AddSub
  import opened Shifts
  import opened SafeShifts
  import opened Montgomery
  import opened Primes
  import opened ModSqrt

  // ----------------------------------------------------------------------- the numbers

  /** p - 1 is q * 2^k with q odd. */
  ghost predicate Decomposed(p: nat, q: nat, k: nat) {
    2 < p && 0 < k && p - 1 == q * Pow2(k) && q % 2 == 1
  }

  /** The ith number of the chain c, c^2, c^4, ... */
  function Chain(c: int, i: nat): int {
    Pow(c, Pow2(i))
  }

  /** What the test accepts: the chain starts with 1, or has -1 among its first k numbers. */
  ghost predicate Accepts(p: nat, c: int, k: nat)
    requires 0 < p
  {
    Cong(Chain(c, 0), 1, p) || exists i :: 0 <= i < k && Cong(Chain(c, i), 0 - 1, p)
  }

  lemma ChainStep(c: int, i: nat)
    ensures Chain(c, i + 1) == Chain(c, i) * Chain(c, i)
  {
    PowerSquared(c, i);
  }

  lemma ChainEnds(p: nat, b: int, q: nat, k: nat)
    requires Decomposed(p, q, k)
    ensures Chain(Pow(b, q), 0) == Pow(b, q)
    ensures Chain(Pow(b, q), k) == Pow(b, p - 1)
    ensures Chain(Pow(b, q), k - 1) == Pow(b, (p - 1) / 2)
  {
    hide Pow, Pow2;
    Pow2Step(0);
    PowAtOne(Pow(b, q));
    PowMul(b, q, Pow2(k));
    PowMul(b, q, Pow2(k - 1));
    HalfOfOrder(p, q, k);
  }

  /** After a 1 or a -1 the chain is all ones. */
  lemma {:induction false} OnesFollow(p: nat, c: int, i: nat, j: nat)
    requires 0 < p && i <= j
    requires Cong(Chain(c, i), 1, p) || (i < j && Cong(Chain(c, i), 0 - 1, p))
    ensures Cong(Chain(c, j), 1, p)
    decreases j - i
  {
    hide Chain;
    if i < j {
      ChainStep(c, i);
      var t := Chain(c, i);
      if Cong(t, 1, p) {
        CongMul(t, 1, t, 1, p);
      } else {
        CongMul(t, 0 - 1, t, 0 - 1, p);
      }
      OnesFollow(p, c, i + 1, j);
    }
  }

  /** Modulo a prime, a chain that reaches 1 started there or went through -1. */
  lemma {:induction false} BeforeOne(p: nat, c: int, j: nat)
    requires IsPrime(p) && Cong(Chain(c, j), 1, p)
    ensures Cong(Chain(c, 0), 1, p) || exists i :: 0 <= i < j && Cong(Chain(c, i), 0 - 1, p)
  {
    hide Chain, IsPrime;
    PrimePositive(p);
    if j > 0 {
      ChainStep(c, j - 1);
      RootsOfOne(p, Chain(c, j - 1));
      if Cong(Chain(c, j - 1), 1, p) {
        BeforeOne(p, c, j - 1);
      }
    }
  }

  /** A prime is never rejected, whatever the witness. */
  lemma PrimesPass(p: nat, b: int, q: nat, k: nat)
    requires IsPrime(p) && Decomposed(p, q, k) && b % p != 0
    ensures Accepts(p, Pow(b, q), k)
  {
    hide Chain, IsPrime, Decomposed;
    PrimePositive(p);
    Fermat(p, b);
    ChainEnds(p, b, q, k);
    BeforeOne(p, Pow(b, q), k);
  }

  /** Whatever passes has also passed the Fermat test. */
  lemma PassImpliesFermat(p: nat, b: int, q: nat, k: nat)
    requires Decomposed(p, q, k) && Accepts(p, Pow(b, q), k)
    ensures Cong(Pow(b, p - 1), 1, p)
  {
    hide Chain, Pow;
    ChainEnds(p, b, q, k);
    var c := Pow(b, q);
    if Cong(Chain(c, 0), 1, p) {
      OnesFollow(p, c, 0, k);
    } else {
      var i :| 0 <= i < k && Cong(Chain(c, i), 0 - 1, p);
      OnesFollow(p, c, i, k);
    }
  }

  /** An accepted chain shows no other square root of 1: the number before a 1 is 1 or -1. */
  lemma AcceptedChain(p: nat, c: int, k: nat, j: nat)
    requires 2 < p && Accepts(p, c, k) && j < k && Cong(Chain(c, j + 1), 1, p)
    ensures Cong(Chain(c, j), 1, p) || Cong(Chain(c, j), 0 - 1, p)
  {
    hide Chain;
    if Cong(Chain(c, 0), 1, p) {
      OnesFollow(p, c, 0, j);
    } else {
      var i :| 0 <= i < k && Cong(Chain(c, i), 0 - 1, p);
      if i < j {
        OnesFollow(p, c, i, j);
      } else if j + 1 <= i {
        OnesFollow(p, c, j + 1, i);
        OneIsNotMinusOne(p);
      }
    }
  }

  /** Modulo a prime, the numbers reported as potential primitive roots are exactly the nonsquares. */
  lemma RootsAreNonSquares(p: nat, b: int)
    requires IsPrime(p) && 2 < p && b % p != 0
    ensures Cong(Pow(b, (p - 1) / 2), 0 - 1, p) <==> !IsSquare(p, b)
  {
    hide Pow, IsPrime, IsSquare;
    if IsSquare(p, b) {
      OddPrime(p);
      EulerSquare(p, b);
      OneIsNotMinusOne(p);
    } else {
      EulerNonSquare(p, b);
    }
  }

  lemma OddPrime(p: nat)
    requires IsPrime(p) && 2 < p
    ensures p % 2 == 1
  {
  }

  // -------------------------------------------------------------------------- the test

  datatype MillerRabin = MillerRabin(mc: MontyContext, k: nat, q: MpInt, pm1: MpInt, mPm1: MpInt) {
    ghost predicate Valid()
      reads mc.m.mem, mc.minusMinv.mem, mc.p0.mem, mc.p1.mem, mc.p2.mem, q.mem, mPm1.mem
    {
      && mc.Valid() && q.Valid() && mPm1.Valid() && q.mem != mc.scratch.mem && mPm1.mem != mc.scratch.mem
      && Decomposed(mc.M(), q.Value(), k)
      && mPm1.Value() == mc.F(mc.M() - 1)
    }
  }

  datatype MrResult = MrResult(passed: bool, potentialPrimitiveRoot: bool)

  /** miller_rabin_new. */
  method MillerRabinNew(p: MpInt) returns (mr: MillerRabin)
    requires p.Valid() && 2 <= p.Value() && p.Value() % 2 == 1 && 0 < p.nw
    ensures mr.Valid() && mr.mc.M() == p.Value() && mr.mc.m.nw == p.nw && fresh(mr.mc.scratch.mem)
    ensures mr.pm1.Valid() && mr.pm1.Value() == p.Value() - 1
  {
    hide Nat, Base, MpInt.Words, MpInt.Value, Pow2, Bit, MaxBits, Form, InverseOfR;
    var k := LowBit(p);
    OddPart(p.Value(), k);
    var q := RshiftSafe(p, k);
    var pm1 := Copy(p);
    Pow2Exceeds(64);
    ValueBound(p);
    SubIntegerInto(pm1, pm1, 1);
    SmallMod(p.Value() - 1, Base(p.nw));
    var mc := MontyNew(p);
    var mPm1 := MontyImport(mc, pm1);
    mr := MillerRabin(mc, k, q, pm1, mPm1);
  }

  /** The search for the lowest set bit of p - 1, which a p of at least 3 has. */
  method LowBit(p: MpInt) returns (k: nat)
    requires p.Valid() && p.Value() % 2 == 1 && 2 <= p.Value()
    ensures 0 < k && p.Value() % Pow2(k) == 1 && Bit(p.Value(), k) == 1
  {
    hide Nat, Base, MpInt.Words, MpInt.Value, Pow2, Bit, MaxBits;
    k := 1;
    Pow2Step(0);
    if MaxBits(p.nw) <= 1 {
      AllBits(p, 1);
    }
    while GetBit(p, k) == 0
      invariant 0 < k < MaxBits(p.nw) && p.Value() % Pow2(k) == 1
      decreases MaxBits(p.nw) - k
    {
      LowBitsStep(p.Value(), k);
      k := k + 1;
      if MaxBits(p.nw) <= k {
        AllBits(p, k);
      }
    }
  }

  /** miller_rabin_test_inner. c is the number whose form monty_pow returned: b^q, if every residue fits in w's words, or if
      the squares that are needed do. */
  method TestInner(mr: MillerRabin, w: MpInt, ghost b: int) returns (result: MrResult, ghost c: int)
    requires mr.Valid() && w.Valid() && 0 < w.nw && w.mem != mr.mc.scratch.mem && w.Value() == mr.mc.F(b)
    modifies mr.mc.scratch.mem
    ensures mr.Valid() && mr.mc.M() == old(mr.mc.M())
    ensures mr.mc.M() <= Base(w.nw) ==> c == Pow(b, mr.q.Value())
    ensures forall j: nat :: mr.q.Value() < Pow2(j) && Fits(b, j, mr.mc.M(), mr.mc.R(), Base(w.nw)) ==>
              Cong(c, Pow(b, mr.q.Value()), mr.mc.M())
    ensures result.passed <==> Accepts(mr.mc.M(), c, mr.k)
    ensures result.potentialPrimitiveRoot <==> Cong(Chain(c, mr.k - 1), 0 - 1, mr.mc.M())
  {
    hide Nat, Base, MpInt.Words, MpInt.Value, Pow, Pow2, Form, InverseOfR, SquareAt, PowerAt, MaxBits, Chain, Cong, Fits;
    var mc := mr.mc;
    var wqp := MontyPow(mc, w, mr.q, b);
    FormOfResidue(mc, wqp.Value());
    c := if mc.M() <= Base(w.nw) then Pow(b, mr.q.Value()) else wqp.Value() * mc.S();
    SameForm(mc, c, Pow(b, mr.q.Value()));
    ChainStart(c);
    FormOfOne(mc);
    SameForm(mc, c, 1);
    var eq1 := CmpEq(wqp, mc.p0);
    if eq1 {
      SeenOne(mc.M(), c, mr.k - 1);
      result := MrResult(true, false);
    } else {
      result := Squarings(mr, wqp, c);
    }
  }

  lemma ChainStart(c: int)
    ensures Chain(c, 0) == c
  {
    Pow2Step(0);
    PowAtOne(c);
  }

  /** Every residue is the form of something. */
  lemma FormOfResidue(mc: MontyContext, v: nat)
    requires mc.Valid() && v < mc.M()
    ensures mc.F(v * mc.S()) == v
  {
    hide Nat, Base, MpInt.Words, MpInt.Value, InverseOfR, Cong;
    Inverse(mc);
    MulAssoc(v, mc.S(), mc.R());
    UnitLeaves(v, mc.S() * mc.R(), mc.M());
  }

  lemma UnitLeaves(v: nat, t: int, m: nat)
    requires v < m && Cong(t, 1, m)
    ensures (v * t) % m == v
  {
    CongMul(v, v, t, 1, m);
    SmallMod(v, m);
  }

  /** Step 4 of the test: square at most k - 1 times, looking for -1. */
  method Squarings(mr: MillerRabin, wqp: MpInt, ghost c: int) returns (result: MrResult)
    requires mr.Valid() && Output(mr.mc, wqp) && wqp.mem !in {mr.q.mem, mr.mPm1.mem}
    requires wqp.Value() == mr.mc.F(c) && !Cong(c, 1, mr.mc.M())
    modifies wqp.mem, mr.mc.scratch.mem
    ensures mr.Valid() && mr.mc.M() == old(mr.mc.M())
    ensures result.passed <==> Accepts(mr.mc.M(), c, mr.k)
    ensures result.potentialPrimitiveRoot <==> Cong(Chain(c, mr.k - 1), 0 - 1, mr.mc.M())
  {
    hide Nat, Base, MpInt.Words, MpInt.Value, Pow, Pow2, Form, InverseOfR, Chain, Cong;
    var mc, k := mr.mc, mr.k;
    ghost var p := mc.M();
    ChainStart(c);
    var i := 0;
    while i < k
      invariant 0 <= i < k && mr.Valid() && mc.M() == p
      invariant wqp.Value() == mc.F(Chain(c, i))
      invariant forall j :: 0 <= j < i ==> !Cong(Chain(c, j), 0 - 1, p)
      decreases k - i
    {
      MinusOneForm(mc, Chain(c, i));
      var found := CmpEq(wqp, mr.mPm1);
      if found {
        if i < k - 1 {
          SeenEarlier(p, c, i, k - 1);
        }
        return MrResult(true, i == k - 1);
      }
      if i == k - 1 {
        return MrResult(false, false);
      }
      ChainStep(c, i);
      MulForm(mc, wqp, wqp, wqp, Chain(c, i), Chain(c, i));
      i := i + 1;
    }
  }

  lemma MinusOneForm(mc: MontyContext, c: int)
    requires mc.Valid()
    ensures mc.F(c) == mc.F(mc.M() - 1) <==> Cong(c, 0 - 1, mc.M())
  {
    hide Nat, Base, MpInt.Words, MpInt.Value, Form, InverseOfR;
    SameForm(mc, c, mc.M() - 1);
    CongFromMultiple(mc.M() - 1, 0 - 1, 1, mc.M());
  }

  lemma SeenEarlier(p: nat, c: int, i: nat, last: nat)
    requires 2 < p && i < last && Cong(Chain(c, i), 0 - 1, p)
    ensures !Cong(Chain(c, last), 0 - 1, p)
  {
    hide Chain;
    OnesFollow(p, c, i, last);
    OneIsNotMinusOne(p);
  }

  lemma SeenOne(p: nat, c: int, last: nat)
    requires 2 < p && Cong(Chain(c, 0), 1, p)
    ensures !Cong(Chain(c, last), 0 - 1, p)
  {
    hide Chain;
    OnesFollow(p, c, 0, last);
    OneIsNotMinusOne(p);
  }
}
