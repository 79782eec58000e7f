/**
 Multiplication of a point by an integer: one ladder, which the program has in
 three copies, over any group whose additions and doublings are right.
 */
module Ladders {
  import opened Arithmetic
  import opened Words
  import opened MpInts
  import opened Shifts
  import opened Primes
  import opened Fields
  import opened Weierstrass
  import opened MontgomeryCurve
  import opened CubicGroup
  import opened CurveGroups
  import opened Edwards
  import opened EdwardsGroup

  // ------------------------------------------------------------------- the ladder itself

  /** The multiple that the ladder holds once the bits from i upwards have been read. */
  function Prefix(n: nat, i: nat): nat {
    DivNonNeg(n, Pow2(i));
    if n / Pow2(i) == 0 then 1 else n / Pow2(i)
  }

  /** What an operation returns that may stop at an assertion. */
  datatype Try<T> = Stopped | Done(value: T)

  /** On whatever stands for the multiples up to top, dbl doubles, and add, for the neighbours that the ladder meets, stops
      just when stops says so and adds otherwise. */
  ghost predicate GroupLaws<T(!new)>(B: T, top: nat, dbl: T -> T, add: (T, T) -> Try<T>, rep: (T, nat) -> bool,
                                     met: nat -> bool, stops: nat -> bool) {
    && rep(B, 1)
    && (forall P, k: nat :: 0 < k && 2 * k <= top && rep(P, k) ==> rep(dbl(P), 2 * k))
    && (forall P, Q, k: nat :: 0 < k && met(k) && rep(P, k) && rep(Q, k + 1) ==>
          && (add(P, Q).Stopped? <==> stops(k))
          && (add(P, Q).Done? && 2 * k + 1 <= top ==> rep(add(P, Q).value, 2 * k + 1)))
  }

  lemma PrefixStep(n: nat, i: nat, bit: nat)
    requires bit == Bit(n, i)
    ensures 0 <= n / Pow2(i + 1) && n / Pow2(i) == 2 * (n / Pow2(i + 1)) + bit && bit <= 1
  {
    hide Pow2;
    Pow2Step(i);
    DivNonNeg(n, Pow2(i));
    DivNonNeg(n, Pow2(i + 1));
    DivDiv(n, Pow2(i), 2);
  }

  lemma PrefixSmall(n: nat, i: nat)
    ensures 0 < Prefix(n, i) <= Max(n, 1)
  {
    hide Pow2;
    DivNonNeg(n, Pow2(i));
    if n / Pow2(i) > n {
      DivLt(n, Pow2(i), n + 1);
      MulLe(1, Pow2(i), n + 1);
    }
  }

  /** One iteration's doubling, with the swaps around it, after its addition: k becomes 2k + nbit. */
  method Step<T(!new)>(kB: T, kplus1B: T, sum: T, nbit: nat, dbl: T -> T, ghost top: nat, ghost k: nat,
                       ghost rep: (T, nat) -> bool) returns (kB': T, kplus1B': T)
    requires forall P, k: nat :: 0 < k && 2 * k <= top && rep(P, k) ==> rep(dbl(P), 2 * k)
    requires rep(kB, k) && rep(kplus1B, k + 1) && (2 * k + 1 <= top ==> rep(sum, 2 * k + 1)) && 0 < k && nbit <= 1
    ensures 2 * k + nbit + 1 <= top ==> rep(kB', 2 * k + nbit) && rep(kplus1B', 2 * k + nbit + 1)
  {
    kB', kplus1B' := kB, kplus1B;
    if nbit == 1 {
      kB', kplus1B' := kplus1B', kB';
    }
    var other := dbl(kB');
    kB', kplus1B' := other, sum;
    if nbit == 1 {
      kB', kplus1B' := kplus1B', kB';
    }
    assert nbit == 1 ==> 2 * (k + 1) == 2 * k + nbit + 1;
  }

  /** ecc_weierstrass_multiply, ecc_montgomery_multiply and ecc_edwards_multiply. */
  method Multiply<T(!new)>(B: T, n: MpInt, dbl: T -> T, add: (T, T) -> Try<T>,
                           ghost rep: (T, nat) -> bool, ghost met: nat -> bool, ghost stops: nat -> bool) returns (R: Try<T>)
    requires n.Valid() && GroupLaws(B, Max(n.Value(), 1) + 1, dbl, add, rep, met, stops)
    requires forall i: nat :: 0 < i <= MaxBits(n.nw) ==> met(Prefix(n.Value(), i))
    ensures R.Stopped? <==> exists i: nat :: 0 < i <= MaxBits(n.nw) && stops(Prefix(n.Value(), i))
    ensures R.Done? ==> rep(R.value, if n.Value() == 0 then 1 else n.Value())
  {
    hide Nat, Base, Pow2, MaxBits, Bit, MpInt.Words, MpInt.Value, Prefix, GroupLaws;
    ghost var v, top := n.Value(), Max(n.Value(), 1) + 1;
    var twoB := dbl(B);
    LawsAtStart(B, top, dbl, add, rep, met, stops);
    var kB, kplus1B := B, twoB;
    var notStartedYet := true;
    var bitindex := MaxBits(n.nw);
    NothingRead(n);
    while 0 < bitindex
      invariant 0 <= bitindex <= MaxBits(n.nw)
      invariant notStartedYet <==> v / Pow2(bitindex) == 0
      invariant rep(kB, Prefix(v, bitindex)) && rep(kplus1B, Prefix(v, bitindex) + 1)
      invariant forall i: nat :: bitindex < i <= MaxBits(n.nw) ==> !stops(Prefix(v, i))
    {
      bitindex := bitindex - 1;
      var nbit := GetBit(n, bitindex);
      Read(v, bitindex, nbit);
      ghost var k := Prefix(v, bitindex + 1);
      var sum := add(kB, kplus1B);
      AddLaw(B, top, dbl, add, rep, met, stops, kB, kplus1B, k);
      if sum.Stopped? {
        return Stopped;
      }
      kB, kplus1B := Step(kB, kplus1B, sum.value, nbit, dbl, top, k, rep);
      if notStartedYet {
        kB, kplus1B := B, twoB;
      }
      notStartedYet := notStartedYet && nbit == 0;
    }
    AllRead(v);
    R := Done(kB);
  }

  lemma LawsAtStart<T(!new)>(B: T, top: nat, dbl: T -> T, add: (T, T) -> Try<T>, rep: (T, nat) -> bool,
                             met: nat -> bool, stops: nat -> bool)
    requires GroupLaws(B, top, dbl, add, rep, met, stops) && 2 <= top
    ensures rep(B, 1) && rep(dbl(B), 2)
    ensures forall P, k: nat :: 0 < k && 2 * k <= top && rep(P, k) ==> rep(dbl(P), 2 * k)
  {
    assert rep(dbl(B), 2 * 1);
  }

  lemma AddLaw<T(!new)>(B: T, top: nat, dbl: T -> T, add: (T, T) -> Try<T>, rep: (T, nat) -> bool,
                        met: nat -> bool, stops: nat -> bool, P: T, Q: T, k: nat)
    requires GroupLaws(B, top, dbl, add, rep, met, stops) && 0 < k && met(k) && rep(P, k) && rep(Q, k + 1)
    ensures add(P, Q).Stopped? <==> stops(k)
    ensures add(P, Q).Done? && 2 * k + 1 <= top ==> rep(add(P, Q).value, 2 * k + 1)
  {
  }

  lemma NothingRead(n: MpInt)
    requires n.Valid()
    ensures n.Value() / Pow2(MaxBits(n.nw)) == 0 && Prefix(n.Value(), MaxBits(n.nw)) == 1
  {
    hide Nat, Base, Pow2, MaxBits, MpInt.Words, MpInt.Value;
    ValueBound(n);
    BaseIsPow2(n.nw);
    DivModUnique(n.Value(), Pow2(MaxBits(n.nw)), 0, n.Value());
  }

  lemma AllRead(v: nat)
    ensures Prefix(v, 0) == if v == 0 then 1 else v
  {
    assert Pow2(0) == 1;
    DivModUnique(v, 1, v, 0);
  }

  /** What reading one more bit does to the multiple, before and after the first set bit. */
  lemma Read(v: nat, i: nat, bit: nat)
    requires bit == Bit(v, i)
    ensures 0 <= v / Pow2(i + 1) && 0 <= v / Pow2(i) && bit <= 1
    ensures v / Pow2(i) == 0 <==> v / Pow2(i + 1) == 0 && bit == 0
    ensures var k := Prefix(v, i + 1);
            && 0 < k && (v / Pow2(i + 1) == 0 ==> k == 1 && Prefix(v, i) == 1)
            && (v / Pow2(i + 1) != 0 ==> Prefix(v, i) == 2 * k + bit <= Max(v, 1))
  {
    hide Pow2, Bit;
    PrefixStep(v, i, bit);
    PrefixSmall(v, i);
    PrefixSmall(v, i + 1);
  }

  // ------------------------------------------------------------------- Weierstrass curves

  /** k and k + 1 times the point have the same y, or are both at infinity. */
  ghost predicate Level(c: CubicCurve, P: CubicPoint, k: nat)
    requires c.Valid() && IsPoint(c, P)
  {
    var M, N := Multiple(c, P, k), Multiple(c, P, k + 1);
    if M.At? && N.At? then M.y == N.y else M.Zero? && N.Zero?
  }

  /** n is less than the order of the point. */
  ghost predicate BelowOrder(c: CubicCurve, P: CubicPoint, n: nat)
    requires c.Valid() && IsPoint(c, P)
  {
    forall k: nat :: 0 < k <= n ==> Multiple(c, P, k).At?
  }

  /** J stands for k times the point. If twice the point is at infinity, and the point is not, then it has Y other than 0. */
  ghost predicate StandsFor(c: CubicCurve, P: CubicPoint, J: Jacobian, k: nat)
    requires c.Valid() && IsPoint(c, P)
  {
    && Represents(c.p, J, ToAffine(Multiple(c, P, k)))
    && (k == 2 && P.At? && Multiple(c, P, k).Zero? ==> J.Y % c.p != 0)
  }

  function TryAdd(p: nat, J: Jacobian, K: Jacobian): Try<Jacobian>
    requires 0 < p
  {
    match AddPoints(p, J, K)
    case Assertion => Stopped
    case Sum(S) => Done(S)
  }

  /** ecc_weierstrass_multiply, for n less than the order of the point: it stops just when it meets neighbours with the same
      y, or the point is at infinity. If it does not, it returns n times the point that B stands for, or the point itself for
      n = 0. */
  method WeierstrassMultiply(p: nat, a: int, b: int, B: Jacobian, n: MpInt, ghost P: CubicPoint) returns (R: Try<Jacobian>)
    requires WeierstrassCurve(p, a, b).Valid() && IsPoint(WeierstrassCurve(p, a, b), P) && n.Valid()
    requires Represents(p, B, ToAffine(P)) && BelowOrder(WeierstrassCurve(p, a, b), P, n.Value())
    ensures R.Stopped? <==>
            exists i: nat :: 0 < i <= MaxBits(n.nw) && Level(WeierstrassCurve(p, a, b), P, Prefix(n.Value(), i))
    ensures R.Done? ==>
            Represents(p, R.value, ToAffine(Multiple(WeierstrassCurve(p, a, b), P, if n.Value() == 0 then 1 else n.Value())))
  {
    hide Nat, MpInt.Words, MpInt.Value, Double, AddPoints, TryAdd, Multiple, IsPoint, Prefix, MaxBits, CubicCurve.Valid,
         Represents, ToAffine, Level, BelowOrder, GroupLaws;
    Positive(WeierstrassCurve(p, a, b));
    ghost var c, v := WeierstrassCurve(p, a, b), n.Value();
    ghost var rep := (J: Jacobian, k: nat) => StandsFor(c, P, J, k);
    ghost var met := (k: nat) => k == 1 || k + 1 <= v;
    ghost var stops := (k: nat) => Level(c, P, k);
    var dbl := (J: Jacobian) => Double(p, a, J);
    var add := (J: Jacobian, K: Jacobian) => TryAdd(p, J, K);
    forall i: nat | 0 < i ensures met(Prefix(v, i)) { PrefixHalf(v, i); }
    WeierstrassLaws(p, a, b, B, P, v, Max(v, 1) + 1);
    R := Multiply(B, n, dbl, add, rep, met, stops);
  }

  lemma PrefixHalf(n: nat, i: nat)
    requires 0 < i
    ensures Prefix(n, i) == 1 || Prefix(n, i) + 1 <= n
  {
    hide Pow2;
    Pow2Step(i - 1);
    Pow2Positive(i - 1);
    DivNonNeg(n, Pow2(i));
    var q := n / Pow2(i);
    if q > 1 {
      DivLt(n, Pow2(i), q);
      MulLe(2, Pow2(i), q);
    }
  }

  lemma WeierstrassLaws(p: nat, a: int, b: int, B: Jacobian, P: CubicPoint, v: nat, top: nat)
    requires WeierstrassCurve(p, a, b).Valid() && IsPoint(WeierstrassCurve(p, a, b), P) && Represents(p, B, ToAffine(P))
    requires BelowOrder(WeierstrassCurve(p, a, b), P, v) && top == Max(v, 1) + 1
    ensures var c := WeierstrassCurve(p, a, b);
            GroupLaws(B, top, (J: Jacobian) => Double(p, a, J), (J: Jacobian, K: Jacobian) => TryAdd(p, J, K),
                      (J: Jacobian, k: nat) => StandsFor(c, P, J, k), (k: nat) => k == 1 || k + 1 <= v, (k: nat) => Level(c, P, k))
  {
    hide IsPrime, Double, AddPoints, TryAdd, Cong, Represents, Multiple, CubicPlus, CubicCurve.Valid, ToAffine, Level, BelowOrder,
         StandsFor, IsPoint;
    var c := WeierstrassCurve(p, a, b);
    Positive(c);
    assert StandsFor(c, P, B, 1) by { MultipleOfOne(c, P); StandsForOne(c, P, B); }
    forall J: Jacobian, k: nat | 0 < k && StandsFor(c, P, J, k) ensures StandsFor(c, P, Double(p, a, J), 2 * k) {
      DoubleMultiple(p, a, b, J, P, k);
    }
    forall J: Jacobian, K: Jacobian, k: nat | 0 < k && (k == 1 || k + 1 <= v) && StandsFor(c, P, J, k) && StandsFor(c, P, K, k + 1)
      ensures TryAdd(p, J, K).Stopped? <==> Level(c, P, k)
      ensures TryAdd(p, J, K).Done? && 2 * k + 1 <= top ==> StandsFor(c, P, TryAdd(p, J, K).value, 2 * k + 1)
    {
      AddMultiples(p, a, b, J, K, P, k, v);
    }
  }

  lemma StandsForOne(c: CubicCurve, P: CubicPoint, B: Jacobian)
    requires c.Valid() && IsPoint(c, P) && Multiple(c, P, 1) == P && Represents(c.p, B, ToAffine(P))
    ensures StandsFor(c, P, B, 1)
  {
    hide CubicCurve.Valid, IsPoint, Multiple, Represents, ToAffine;
  }

  /** The sum of two multiples, in the reference law. */
  lemma WeierstrassSums(p: nat, a: int, b: int, P: CubicPoint, m: nat, n: nat)
    requires WeierstrassCurve(p, a, b).Valid() && IsPoint(WeierstrassCurve(p, a, b), P)
    ensures var c := WeierstrassCurve(p, a, b);
            IsSum(p, a, ToAffine(Multiple(c, P, m)), ToAffine(Multiple(c, P, n)), ToAffine(Multiple(c, P, m + n)))
  {
    hide IsSum, Multiple, CubicPlus, CubicCurve.Valid, ToAffine, Adds;
    var c := WeierstrassCurve(p, a, b);
    MultipleSum(c, P, m, n);
    AddsIsSum(p, a, b, Multiple(c, P, m), Multiple(c, P, n), Multiple(c, P, m + n));
  }

  lemma AddMultiples(p: nat, a: int, b: int, J: Jacobian, K: Jacobian, P: CubicPoint, k: nat, v: nat)
    requires WeierstrassCurve(p, a, b).Valid() && IsPoint(WeierstrassCurve(p, a, b), P)
    requires BelowOrder(WeierstrassCurve(p, a, b), P, v) && 0 < k && (k == 1 || k + 1 <= v)
    requires StandsFor(WeierstrassCurve(p, a, b), P, J, k) && StandsFor(WeierstrassCurve(p, a, b), P, K, k + 1)
    ensures TryAdd(p, J, K).Stopped? <==> Level(WeierstrassCurve(p, a, b), P, k)
    ensures TryAdd(p, J, K).Done? && 2 * k + 1 <= Max(v, 1) + 1 ==>
            StandsFor(WeierstrassCurve(p, a, b), P, TryAdd(p, J, K).value, 2 * k + 1)
  {
    hide IsPrime, AddPoints, Cong, OnCurve, Third, TangentSlope, ChordSlope, Multiple, CubicPlus, CubicCurve.Valid, Scaled;
    var c := WeierstrassCurve(p, a, b);
    var M, N := Multiple(c, P, k), Multiple(c, P, k + 1);
    Positive(c);
    MultipleOfOne(c, P);
    if M.At? && N.At? {
      AddFinite(p, a, b, J, K, P, k);
    } else {
      WeierstrassSums(p, a, b, P, 1, 1);
      assert P.Zero? ==> Multiple(c, P, 2).Zero?;
      assert k == 1 && N.Zero?;
      AddAtInfinity(p, J, K);
    }
  }

  lemma AddFinite(p: nat, a: int, b: int, J: Jacobian, K: Jacobian, P: CubicPoint, k: nat)
    requires WeierstrassCurve(p, a, b).Valid() && IsPoint(WeierstrassCurve(p, a, b), P)
    requires var c := WeierstrassCurve(p, a, b); var M, N := Multiple(c, P, k), Multiple(c, P, k + 1);
             M.At? && N.At? && Represents(p, J, ToAffine(M)) && Represents(p, K, ToAffine(N))
    ensures AddPoints(p, J, K).Assertion? <==> Level(WeierstrassCurve(p, a, b), P, k)
    ensures AddPoints(p, J, K).Sum? ==>
            Represents(p, AddPoints(p, J, K).S, ToAffine(Multiple(WeierstrassCurve(p, a, b), P, 2 * k + 1)))
  {
    hide IsPrime, AddPoints, Cong, OnCurve, IsSum, Represents, Multiple, CubicPlus, CubicCurve.Valid;
    var c := WeierstrassCurve(p, a, b);
    var M, N := Multiple(c, P, k), Multiple(c, P, k + 1);
    Positive(c);
    PointOnWeierstrass(p, a, b, M);
    PointOnWeierstrass(p, a, b, N);
    WeierstrassSums(p, a, b, P, k, k + 1);
    AddPointsCorrect(p, a, b, J, K, ToAffine(M), ToAffine(N), ToAffine(Multiple(c, P, 2 * k + 1)));
    if Cong(M.y, N.y, p) {
      CongSmall(M.y, N.y, p);
    } else {
      Refl(p, M.y);
    }
  }

  lemma DoubleMultiple(p: nat, a: int, b: int, J: Jacobian, P: CubicPoint, k: nat)
    requires WeierstrassCurve(p, a, b).Valid() && IsPoint(WeierstrassCurve(p, a, b), P)
    requires 0 < k && StandsFor(WeierstrassCurve(p, a, b), P, J, k)
    ensures StandsFor(WeierstrassCurve(p, a, b), P, Double(p, a, J), 2 * k)
  {
    hide IsPrime, Double, Cong, Multiple, CubicPlus, CubicCurve.Valid, Represents, IsSum;
    var c := WeierstrassCurve(p, a, b);
    Positive(c);
    WeierstrassSums(p, a, b, P, k, k);
    DoubleOfMultiple(p, a, b, J, ToAffine(Multiple(c, P, k)), ToAffine(Multiple(c, P, 2 * k)));
    if k == 1 && P.At? && Multiple(c, P, 2).Zero? {
      MultipleOfOne(c, P);
      OrderTwo(p, a, b, P);
      DoubleOfOrderTwo(p, a, b, J, P);
    }
  }

  lemma OrderTwo(p: nat, a: int, b: int, P: CubicPoint)
    requires WeierstrassCurve(p, a, b).Valid() && IsPoint(WeierstrassCurve(p, a, b), P) && P.At?
    requires IsSum(p, a, ToAffine(P), ToAffine(P), Infinity)
    ensures P.y == 0
  {
    hide IsPrime, CubicCurve.Valid;
    Positive(WeierstrassCurve(p, a, b));
    Refl(p, P.x);
    TwiceZero(p, P.y);
    SmallMod(P.y, p);
  }

  lemma DoubleOfMultiple(p: nat, a: int, b: int, P: Jacobian, A: Affine, D: Affine)
    requires IsPrime(p) && 2 < p && Represents(p, P, A) && IsSum(p, a, A, A, D)
    ensures Represents(p, Double(p, a, P), D)
  {
    hide IsPrime, Double, Cong, Represents, TangentSlope, Third;
    if A.Infinity? {
      DoubleToInfinity(p, a, P, A);
    } else {
      Refl(p, A.x);
      TwiceZero(p, A.y);
      if A.y % p == 0 {
        DoubleToInfinity(p, a, P, A);
      } else {
        var s :| TangentSlope(p, a, s, A.x, A.y) && Third(p, s, A.x, A.y, A.x, D.x, D.y);
        DoubleCorrect(p, a, P, A.x, A.y, s, D.x, D.y);
      }
    }
  }

  lemma TwiceZero(p: nat, y: int)
    requires IsPrime(p) && 2 < p
    ensures Cong(y + y, 0, p) <==> y % p == 0
  {
    hide IsPrime;
    SmallMod(2, p);
    ProductZero(p, 2, y);
    CongZero(y + y, p);
  }

  // -------------------------------------------------------------------- Montgomery curves

  ghost predicate IsPow2(k: nat) { exists j: nat :: k == Pow2(j) }

  lemma Powers(k: nat)
    requires 0 < k
    ensures IsPow2(1) && (IsPow2(k) <==> IsPow2(2 * k)) && !IsPow2(2 * k + 1)
    ensures IsPow2(k) && IsPow2(k + 1) ==> k == 1
  {
    hide Pow2;
    Pow2Step(0);
    if IsPow2(k) {
      var j: nat :| k == Pow2(j);
      Pow2Step(j);
      assert 2 * k == Pow2(j + 1);
    }
    if IsPow2(2 * k) {
      var j := Halved(2 * k);
      assert k == Pow2(j);
    }
    if IsPow2(2 * k + 1) {
      var j := Halved(2 * k + 1);
      assert false;
    }
    if IsPow2(k) && IsPow2(k + 1) && k > 1 {
      var i := Halved(k);
      var j := Halved(k + 1);
      assert false;
    }
  }

  lemma Halved(k: nat) returns (j: nat)
    requires IsPow2(k) && k > 1
    ensures k == 2 * Pow2(j)
  {
    hide Pow2;
    var i: nat :| k == Pow2(i);
    Pow2Step(0);
    j := i - 1;
    Pow2Step(j);
  }

  /** What the ladder holds for k times P: that multiple, unless P is at infinity or at x = 0 and k is no power of 2. Then it
      holds (0 : 0). */
  ghost predicate Holds(p: nat, P: CubicPoint, Q: XZ, k: nat, M: CubicPoint)
    requires 0 < p
  {
    if (P.At? && P.x != 0) || IsPow2(k) then RepresentsPoint(p, Q, M) else Null(p, Q)
  }

  /** ecc_montgomery_multiply: the x coordinate of n times the point whose x coordinate B stands for, or that of the point
      itself for n = 0, wherever the point and its multiples are, except just when the point is at infinity or at x = 0 and n
      is neither 0 nor a power of 2. */
  method MontgomeryMultiply(p: nat, a: int, b: int, a24: int, B: XZ, n: MpInt, ghost P: CubicPoint) returns (R: XZ)
    requires MontgomeryCubic(p, a, b).Valid() && IsPoint(MontgomeryCubic(p, a, b), P)
    requires n.Valid() && RepresentsPoint(p, B, P) && Cong(4 * a24, a + 2, p)
    ensures RepresentsPoint(p, R, Multiple(MontgomeryCubic(p, a, b), P, if n.Value() == 0 then 1 else n.Value())) <==>
            (P.At? && P.x != 0) || n.Value() == 0 || IsPow2(n.Value())
    ensures !RepresentsPoint(p, R, Multiple(MontgomeryCubic(p, a, b), P, if n.Value() == 0 then 1 else n.Value())) ==> Null(p, R)
  {
    hide Nat, MpInt.Words, MpInt.Value, IsPrime, DoubleXZ, DiffAdd, Multiple, IsPoint, Prefix, MaxBits, IsPow2, CubicCurve.Valid;
    Positive(MontgomeryCubic(p, a, b));
    ghost var M := (k: nat) => Multiple(MontgomeryCubic(p, a, b), P, k);
    ghost var rep := (Q: XZ, k: nat) => Holds(p, P, Q, k, M(k));
    var dbl := (Q: XZ) => DoubleXZ(p, a24, Q);
    var add := (Q: XZ, S: XZ) => Done(DiffAdd(p, Q, S, B));
    MontgomeryLaws(p, a, b, a24, B, P, M, Max(n.Value(), 1) + 1);
    var last := Multiply(B, n, dbl, add, rep, _ => true, _ => false);
    R := last.value;
    Powers(1);
  }

  lemma MontgomeryLaws(p: nat, a: int, b: int, a24: int, B: XZ, P: CubicPoint, M: nat -> CubicPoint, top: nat)
    requires MontgomeryCubic(p, a, b).Valid() && IsPoint(MontgomeryCubic(p, a, b), P)
    requires RepresentsPoint(p, B, P) && Cong(4 * a24, a + 2, p)
    requires forall k: nat :: M(k) == Multiple(MontgomeryCubic(p, a, b), P, k)
    ensures GroupLaws(B, top, (Q: XZ) => DoubleXZ(p, a24, Q), (Q: XZ, S: XZ) => Done(DiffAdd(p, Q, S, B)),
                      (Q: XZ, k: nat) => Holds(p, P, Q, k, M(k)), _ => true, _ => false)
  {
    hide IsPrime, DoubleXZ, DiffAdd, Cong, RepresentsPoint, Multiple, CubicPlus, CubicCurve.Valid, IsPow2, Null;
    var c := MontgomeryCubic(p, a, b);
    Positive(c);
    MultipleOfOne(c, P);
    Powers(1);
    forall Q: XZ, k: nat | 0 < k && Holds(p, P, Q, k, M(k)) ensures Holds(p, P, DoubleXZ(p, a24, Q), 2 * k, M(2 * k)) {
      Powers(k);
      MultipleSum(c, P, k, k);
      if RepresentsPoint(p, Q, M(k)) {
        DoublesPoint(p, a, b, a24, Q, M(k), M(2 * k));
      }
      if Null(p, Q) {
        NullStays(p, a24, Q, Q, B);
      }
    }
    forall Q: XZ, S: XZ, k: nat | 0 < k && Holds(p, P, Q, k, M(k)) && Holds(p, P, S, k + 1, M(k + 1))
      ensures Holds(p, P, DiffAdd(p, Q, S, B), 2 * k + 1, M(2 * k + 1))
    {
      MultipleSum(c, P, k, 1);
      MultipleSum(c, P, k, k + 1);
      MontgomeryStep(p, a, b, a24, B, P, Q, S, k, M(k), M(k + 1), M(2 * k + 1));
    }
  }

  lemma MontgomeryStep(p: nat, a: int, b: int, a24: int, B: XZ, P: CubicPoint, Q: XZ, S: XZ, k: nat,
                       M: CubicPoint, N: CubicPoint, R: CubicPoint)
    requires MontgomeryCubic(p, a, b).Valid() && IsPoint(MontgomeryCubic(p, a, b), P) && IsPoint(MontgomeryCubic(p, a, b), M)
    requires IsPoint(MontgomeryCubic(p, a, b), N) && IsPoint(MontgomeryCubic(p, a, b), R) && Cong(4 * a24, a + 2, p)
    requires Adds(MontgomeryCubic(p, a, b), M, P, N) && Adds(MontgomeryCubic(p, a, b), M, N, R) && (k == 1 ==> M == P)
    requires RepresentsPoint(p, B, P) && 0 < k && Holds(p, P, Q, k, M) && Holds(p, P, S, k + 1, N)
    ensures Holds(p, P, DiffAdd(p, Q, S, B), 2 * k + 1, R)
  {
    hide IsPrime, DoubleXZ, DiffAdd, Cong, RepresentsPoint, CubicCurve.Valid, IsPow2, Null, Adds, IsPoint;
    Positive(MontgomeryCubic(p, a, b));
    Powers(k);
    if P.At? && P.x != 0 {
      AddsPoints(p, a, b, Q, S, B, M, N, P, R);
    } else if !IsPow2(k) {
      NullStays(p, a24, Q, S, B);
    } else if !IsPow2(k + 1) {
      NullStays(p, a24, S, Q, B);
    } else {
      ExceptionalSum(p, a, b, a24, Q, S, B, P, N);
    }
  }

  // ------------------------------------------------------------------------ Edwards curves

  /** k times A, in the group of the points of a complete curve. */
  ghost function EdwardsTimes(p: nat, a: int, d: int, r: int, A: Point, k: nat): (M: Point)
    requires CompleteCurve(p, a, d, r) && EdwardsPoint(p, a, d, A)
    ensures EdwardsPoint(p, a, d, M)
  {
    if k == 0 then
      Neutral(p, a, d, A);
      NEUTRAL
    else
      Plus(p, a, d, r, EdwardsTimes(p, a, d, r, A, k - 1), A)
  }

  lemma {:induction false} EdwardsTimesSum(p: nat, a: int, d: int, r: int, A: Point, m: nat, n: nat)
    requires CompleteCurve(p, a, d, r) && EdwardsPoint(p, a, d, A)
    ensures EdwardsTimes(p, a, d, r, A, m + n) ==
            Plus(p, a, d, r, EdwardsTimes(p, a, d, r, A, m), EdwardsTimes(p, a, d, r, A, n))
    decreases n
  {
    hide CompleteCurve, EdwardsPoint, Plus;
    var M := EdwardsTimes(p, a, d, r, A, m);
    if n == 0 {
      GroupLaw(p, a, d, r, M, M, M);
      PlusCommutes(p, a, d, r, M, NEUTRAL);
    } else {
      EdwardsTimesSum(p, a, d, r, A, m, n - 1);
      GroupLaw(p, a, d, r, M, EdwardsTimes(p, a, d, r, A, n - 1), A);
    }
  }

  /** ecc_edwards_multiply: n times the point that B stands for, for positive n; the point itself for n = 0. */
  method EdwardsMultiply(p: nat, a: int, d: int, B: Extended, n: MpInt, ghost r: int, ghost A: Point) returns (R: Extended)
    requires CompleteCurve(p, a, d, r) && EdwardsPoint(p, a, d, A) && n.Valid() && RepresentsXY(p, B, A.0, A.1)
    ensures var M := EdwardsTimes(p, a, d, r, A, if n.Value() == 0 then 1 else n.Value()); RepresentsXY(p, R, M.0, M.1)
  {
    hide Nat, MpInt.Words, MpInt.Value, IsPrime, EdwardsAdd, IsSquare, EdwardsTimes;
    ghost var M := (k: nat) => EdwardsTimes(p, a, d, r, A, k);
    ghost var rep := (P: Extended, k: nat) => RepresentsXY(p, P, M(k).0, M(k).1);
    var dbl := (P: Extended) => EdwardsAdd(p, a, d, P, P);
    var add := (P: Extended, Q: Extended) => Done(EdwardsAdd(p, a, d, P, Q));
    EdwardsLaws(p, a, d, r, B, A, M, Max(n.Value(), 1) + 1);
    var last := Multiply(B, n, dbl, add, rep, _ => true, _ => false);
    R := last.value;
  }

  lemma EdwardsLaws(p: nat, a: int, d: int, r: int, B: Extended, A: Point, M: nat -> Point, top: nat)
    requires CompleteCurve(p, a, d, r) && EdwardsPoint(p, a, d, A) && RepresentsXY(p, B, A.0, A.1)
    requires forall k: nat :: M(k) == EdwardsTimes(p, a, d, r, A, k)
    ensures GroupLaws(B, top, (P: Extended) => EdwardsAdd(p, a, d, P, P),
                      (P: Extended, Q: Extended) => Done(EdwardsAdd(p, a, d, P, Q)),
                      (P: Extended, k: nat) => RepresentsXY(p, P, M(k).0, M(k).1), _ => true, _ => false)
  {
    hide IsPrime, EdwardsAdd, IsSquare, Cong, RepresentsXY, EdwardsSum, OnEdwards, Plus;
    assert M(1) == A by { GroupLaw(p, a, d, r, A, A, A); assert M(0) == NEUTRAL; }
    hide EdwardsTimes;
    forall P: Extended, k: nat | RepresentsXY(p, P, M(k).0, M(k).1)
      ensures RepresentsXY(p, EdwardsAdd(p, a, d, P, P), M(2 * k).0, M(2 * k).1)
    {
      EdwardsTimesSum(p, a, d, r, A, k, k);
      EdwardsAlways(p, a, d, r, P, P, M(k), M(k), M(2 * k));
    }
    forall P: Extended, Q: Extended, k: nat | RepresentsXY(p, P, M(k).0, M(k).1) && RepresentsXY(p, Q, M(k + 1).0, M(k + 1).1)
      ensures RepresentsXY(p, EdwardsAdd(p, a, d, P, Q), M(2 * k + 1).0, M(2 * k + 1).1)
    {
      EdwardsTimesSum(p, a, d, r, A, k, k + 1);
      EdwardsAlways(p, a, d, r, P, Q, M(k), M(k + 1), M(2 * k + 1));
    }
  }

  /** On a complete curve the addition formula has no exceptions. */
  lemma EdwardsAlways(p: nat, a: int, d: int, r: int, P: Extended, Q: Extended, A1: Point, A2: Point, A3: Point)
    requires CompleteCurve(p, a, d, r)
    requires OnEdwards(p, a, d, A1.0, A1.1) && OnEdwards(p, a, d, A2.0, A2.1)
    requires EdwardsSum(p, a, d, A1.0, A1.1, A2.0, A2.1, A3.0, A3.1)
    requires RepresentsXY(p, P, A1.0, A1.1) && RepresentsXY(p, Q, A2.0, A2.1)
    ensures RepresentsXY(p, EdwardsAdd(p, a, d, P, Q), A3.0, A3.1)
  {
    hide IsPrime, EdwardsAdd, IsSquare, Cong, RepresentsXY, EdwardsSum, OnEdwards;
    Complete(p, a, d, r, A1.0, A1.1, A2.0, A2.1);
    EdwardsAddCorrect(p, a, d, P, Q, A1.0, A1.1, A2.0, A2.1, A3.0, A3.1);
  }
}
