/**
 Square roots modulo a prime: the constant-time variant of Tonelli-Shanks.
 */
module ModSqrt {
  import opened Arithmetic
  import opened Words
  import opened MpInts
  import opened AddSub
  import opened Shifts
  import opened SafeShifts
  import opened Montgomery
  import opened Primes

  // ----------------------------------------------------------------------- the numbers

  /** The candidate root and the power of x that is to become 1: each correction keeps this. */
  ghost predicate Balanced(p: nat, x: int, root: int, u: int)
    requires 0 < p
  {
    Cong(root * root, x * u, p)
  }

  /** u lies in the subgroup of elements whose order divides 2^n. */
  ghost predicate OrderDivides(p: nat, u: int, n: nat)
    requires 0 < p
  {
    Cong(Pow(u, Pow2(n)), 1, p)
  }

  lemma StartBalanced(p: nat, x: int, k: nat, half: int)
    requires 0 < p && k % 2 == 1 && half == Pow(x, k / 2)
    ensures half * x * half == Pow(x, k)
    ensures Balanced(p, x, half * x, half * x * half)
  {
    hide Pow;
    PowAdd(x, k / 2, k / 2);
    PowAdd(x, k / 2 + k / 2, 1);
    assert Pow(x, 1) == x by { PowAtOne(x); }
    assert k / 2 + k / 2 + 1 == k;
    MulAssoc(half, x, half);
    MulAssoc(half, half, x);
    MulAssoc(half * x, half, x);
    assert half * x * (half * x) == x * (half * x * half);
  }

  lemma PowerSquared(b: int, n: nat)
    ensures Pow(b, Pow2(n)) * Pow(b, Pow2(n)) == Pow(b, Pow2(n + 1))
  {
    hide Pow, Pow2;
    Pow2Step(n);
    PowAdd(b, Pow2(n), Pow2(n));
  }

  /** A power of a nonsquare whose 2^(e-1)th power is -1. */
  lemma NonSquarePower(p: nat, z: int, k: nat, e: nat)
    requires IsPrime(p) && !IsSquare(p, z) && 0 < e && p - 1 == k * Pow2(e) && k % 2 == 1
    ensures Cong(Pow(Pow(z, k), Pow2(e - 1)), 0 - 1, p)
  {
    hide IsPrime, IsSquare, Pow, Cong;
    PrimePositive(p);
    HalfOfOrder(p, k, e);
    EulerNonSquare(p, z);
    PowMul(z, k, Pow2(e - 1));
  }

  lemma HalfOfOrder(p: nat, k: nat, e: nat)
    requires 0 < e && p - 1 == k * Pow2(e)
    ensures (p - 1) / 2 == k * Pow2(e - 1) && p % 2 == 1
  {
    hide Pow2;
    Pow2Step(e - 1);
    assert k * Pow2(e) == 2 * (k * Pow2(e - 1));
  }

  /** The first test tells the squares, other than 0, from the rest. */
  lemma FirstTest(p: nat, x: int, k: nat, e: nat)
    requires IsPrime(p) && 0 < e && p - 1 == k * Pow2(e) && k % 2 == 1
    ensures OrderDivides(p, Pow(x, k), e - 1) || x % p == 0 <==> IsSquare(p, x)
    ensures x % p != 0 && IsSquare(p, x) ==> OrderDivides(p, Pow(x, k), e - 1)
  {
    hide IsPrime, IsSquare, Pow;
    PrimePositive(p);
    HalfOfOrder(p, k, e);
    PowMul(x, k, Pow2(e - 1));
    if x % p == 0 {
      ZeroIsSquare(p, x);
    } else if IsSquare(p, x) {
      EulerSquare(p, x);
    } else {
      NonSquarePower(p, x, k, e);
      OneIsNotMinusOne(p);
    }
  }

  lemma OneIsNotMinusOne(p: nat)
    requires 2 < p
    ensures !Cong(0 - 1, 1, p)
  {
    SmallMod(1, p);
    CongFromMultiple(0 - 1, p - 1, -1, p);
    SmallMod(p - 1, p);
  }

  /** One correction step: u and the root move together, and u moves one subgroup down. */
  lemma Correct(p: nat, x: int, root: int, u: int, zk: int, pw: int, e: nat, i: nat, inside: bool)
    requires IsPrime(p) && 0 < i < e && Balanced(p, x, root, u)
    requires Cong(Pow(zk, Pow2(e - 1)), 0 - 1, p) && pw == Pow(zk, Pow2(i - 1))
    requires inside <==> OrderDivides(p, u, e - i - 1)
    ensures pw * pw == Pow(zk, Pow2(i))
    ensures Balanced(p, x, if inside then root else root * pw, if inside then u else u * (pw * pw))
    ensures OrderDivides(p, u, e - i) ==> OrderDivides(p, if inside then u else u * (pw * pw), e - i - 1)
  {
    hide IsPrime, Pow, Cong, Pow2;
    PrimePositive(p);
    PowerSquared(zk, i - 1);
    if !inside {
      StillBalanced(p, x, root, u, pw);
      if OrderDivides(p, u, e - i) {
        OneDown(p, u, zk, e, i);
      }
    }
  }

  lemma StillBalanced(p: nat, x: int, root: int, u: int, pw: int)
    requires 0 < p && Balanced(p, x, root, u)
    ensures Balanced(p, x, root * pw, u * (pw * pw))
  {
    CongMul(root * root, x * u, pw * pw, pw * pw, p);
    MulAssoc(x, u, pw * pw);
    assert root * root * (pw * pw) == root * pw * (root * pw) by { SquareOfProduct(root, pw); }
  }

  lemma SquareOfProduct(a: int, b: int)
    ensures a * a * (b * b) == a * b * (a * b)
  {
    MulAssoc(a * a, b, b);
    MulAssoc(a, a, b);
    MulAssoc(a, b, a);
    MulAssoc(a * b, a, b);
  }

  lemma OneDown(p: nat, u: int, zk: int, e: nat, i: nat)
    requires IsPrime(p) && 0 < i < e && OrderDivides(p, u, e - i) && !OrderDivides(p, u, e - i - 1)
    requires Cong(Pow(zk, Pow2(e - 1)), 0 - 1, p)
    ensures OrderDivides(p, u * Pow(zk, Pow2(i)), e - i - 1)
  {
    hide IsPrime, Pow, Cong, Pow2;
    PrimePositive(p);
    var n := e - i - 1;
    var t, v := Pow(u, Pow2(n)), Pow(Pow(zk, Pow2(i)), Pow2(n));
    PowerSquared(u, n);
    RootsOfOne(p, t);
    assert v == Pow(zk, Pow2(e - 1)) by {
      PowMul(zk, Pow2(i), Pow2(n));
      Pow2Add(i, n);
    }
    PowDistribute(u, Pow(zk, Pow2(i)), Pow2(n));
    CongMul(t, 0 - 1, v, 0 - 1, p);
  }

  lemma Finished(p: nat, x: int, root: int, u: int)
    requires 0 < p && Balanced(p, x, root, u) && (x % p == 0 || OrderDivides(p, u, 0))
    ensures Cong(root * root, x, p)
  {
    Pow2Step(0);
    PowAtOne(u);
    if x % p == 0 {
      CongZero(x, p);
      CongMul(x, 0, u, u, p);
    } else {
      CongMul(x, x, u, 1, p);
    }
  }

  // ----------------------------------------------------------------------- the context

  datatype Lazy = Absent | Present(value: MpInt)

  /** ModsqrtContext: p - 1 is k * 2^e with k odd, and z is a nonsquare. zk is filled in on first use. */
  class ModsqrtContext {
    const p: MpInt
    const mc: MontyContext
    const e: nat
    const k: MpInt
    const km1o2: MpInt
    const z: MpInt
    var zk: Lazy
    ghost const nonsquare: int

    ghost predicate Valid()
      reads this, mc.m.mem, mc.minusMinv.mem, mc.p0.mem, mc.p1.mem, mc.p2.mem, k.mem, km1o2.mem, z.mem
      reads if zk.Present? then {zk.value.mem} else {}
    {
      && mc.Valid() && k.Valid() && km1o2.Valid() && z.Valid() && z.nw == mc.m.nw
      && mc.scratch.mem !in {k.mem, km1o2.mem, z.mem}
      && IsPrime(mc.M()) && !IsSquare(mc.M(), nonsquare)
      && 0 < e && mc.M() - 1 == k.Value() * Pow2(e) && k.Value() % 2 == 1 && km1o2.Value() == k.Value() / 2
      && z.Value() == mc.F(nonsquare)
      && (zk.Present? ==>
            && zk.value.Valid() && zk.value.nw == mc.m.nw && zk.value.mem != mc.scratch.mem
            && zk.value.Value() == mc.F(Pow(nonsquare, k.Value())))
    }

    /** modsqrt_new. */
    constructor (p: MpInt, anyNonsquare: MpInt)
      requires p.Valid() && anyNonsquare.Valid() && 0 < p.nw
      requires IsPrime(p.Value()) && p.Value() % 2 == 1 && !IsSquare(p.Value(), anyNonsquare.Value())
      ensures Valid() && mc.M() == p.Value() && zk == Absent && mc.m.nw == p.nw
      ensures fresh(mc.scratch.mem)
    {
      hide Nat, Base, MpInt.Words, MpInt.Value, Form, IsPrime, IsSquare, Pow2, InverseOfR;
      PrimePositive(p.Value());
      var copy := Copy(p);
      var context := MontyNew(copy);
      var mz := MontyImport(context, anyNonsquare);
      var low := LowestBit(p);
      OddPart(p.Value(), low);
      var odd := RshiftFixed(p, low);
      var half := RshiftFixed(odd, 1);
      Pow2Step(0);
      this.p, mc, e, k, km1o2, z, zk := copy, context, low, odd, half, mz, Absent;
      nonsquare := anyNonsquare.Value();
    }
  }

  /** The search for the lowest set bit of p - 1 in modsqrt_new. */
  method LowestBit(p: MpInt) returns (e: nat)
    requires p.Valid() && 0 < p.nw && p.Value() % 2 == 1 && 1 < p.Value()
    ensures 0 < e && p.Value() % Pow2(e) == 1 && Bit(p.Value(), e) == 1
  {
    hide Nat, Base, MpInt.Words, MpInt.Value, Pow2, Bit, MaxBits;
    e := 1;
    Pow2Step(0);
    while e < MaxBits(p.nw)
      invariant 0 < e && p.Value() % Pow2(e) == 1
    {
      LowBitsStep(p.Value(), e);
      if GetBit(p, e) == 1 {
        return;
      }
      e := e + 1;
    }
    AllBits(p, e);
    assert false;
  }

  /** mp_rshift_fixed. */
  method RshiftFixed(x: MpInt, bits: nat) returns (r: MpInt)
    requires x.Valid()
    ensures fresh(r.mem) && r.Valid() && r.Value() == x.Value() / Pow2(bits)
  {
    hide Nat, Base, MpInt.Words, MpInt.Value, Pow2, MaxBits;
    r := MakeSized(x.nw);
    RshiftFixedInto(r, x, bits);
    ValueBound(x);
    DownFits(x.Value(), Pow2(bits), Base(x.nw));
  }

  /** modsqrt_lazy_setup. */
  method LazySetup(sc: ModsqrtContext)
    requires sc.Valid()
    modifies sc`zk, sc.mc.scratch.mem
    ensures sc.Valid() && sc.zk.Present? && sc.mc.M() == old(sc.mc.M())
    ensures old(sc.zk).Present? ==> sc.zk == old(sc.zk)
    ensures old(sc.zk).Absent? ==> fresh(sc.zk.value.mem)
  {
    hide Nat, Base, MpInt.Words, MpInt.Value, Form, IsPrime, IsSquare, Pow, Pow2, InverseOfR, SquareAt, PowerAt, MaxBits;
    if sc.zk.Absent? {
      FormBound(sc.mc, 0);
      var zk := MontyPow(sc.mc, sc.z, sc.k, sc.nonsquare);
      sc.zk := Present(zk);
    }
  }

  // -------------------------------------------------------------------------- the roots

  /** tmp := u to the power 2^n, by squaring n times. */
  method SquareRepeatedly(mc: MontyContext, tmp: MpInt, xk: MpInt, n: nat, ghost u: int)
    requires mc.Valid() && Output(mc, tmp) && xk.Valid() && Apart(tmp, xk) && xk.nw == mc.m.nw
    requires xk.mem != mc.scratch.mem && xk.Value() == mc.F(u)
    modifies tmp.mem, mc.scratch.mem
    ensures mc.Valid() && mc.M() == old(mc.M()) && OnlyWrites(tmp) && tmp.Value() == mc.F(Pow(u, Pow2(n)))
  {
    hide Nat, Base, MpInt.Words, MpInt.Value, Form, Pow, Pow2, InverseOfR;
    Pow2Step(0);
    PowAtOne(u);
    CopyInto(tmp, xk);
    var j := 0;
    while j < n
      invariant 0 <= j <= n && mc.Valid() && mc.M() == old(mc.M()) && OnlyWrites(tmp)
      invariant tmp.Value() == mc.F(Pow(u, Pow2(j)))
    {
      PowerSquared(u, j);
      MulForm(mc, tmp, tmp, tmp, Pow(u, Pow2(j)), Pow(u, Pow2(j)));
      j := j + 1;
    }
  }

  /** r := r or r * y, without a branch on which: a multiplication and a selection. */
  method MulUnless(mc: MontyContext, r: MpInt, tmp: MpInt, y: MpInt, skip: bool, ghost a: int, ghost b: int)
    requires mc.Valid() && Output(mc, r) && Output(mc, tmp) && Output(mc, y) && Apart(r, tmp)
    requires r.Value() == mc.F(a) && y.Value() == mc.F(b)
    modifies r.mem, tmp.mem, mc.scratch.mem
    ensures mc.Valid() && mc.M() == old(mc.M()) && OnlyWritesBoth((r, tmp))
    ensures r.Value() == mc.F(if skip then a else a * b)
  {
    hide Nat, Base, MpInt.Words, MpInt.Value, Form, InverseOfR;
    MulForm(mc, tmp, r, y, a, b);
    Untouched((tmp, r));
    SelectInto(r, tmp, r, skip);
  }

  /** The working numbers of monty_modsqrt: the root in an array of its own, the rest side by side in one. */
  datatype Work = Work(toret: MpInt, xk: MpInt, tmp: MpInt, power: MpInt) {
    ghost predicate Laid(mc: MontyContext) {
      && Output(mc, toret) && Output(mc, xk) && Output(mc, tmp) && Output(mc, power)
      && toret.mem != xk.mem && xk.mem == tmp.mem == power.mem
      && Apart(xk, tmp) && Apart(xk, power) && Apart(tmp, power)
    }

    /** The forms of a root, a power of x and a power of z. */
    ghost predicate Holds(mc: MontyContext, root: int, u: int, pw: int)
      requires mc.Valid() && Laid(mc)
      reads mc.m.mem, mc.minusMinv.mem, mc.p0.mem, mc.p1.mem, mc.p2.mem, toret.mem, xk.mem
    {
      toret.Value() == mc.F(root) && xk.Value() == mc.F(u) && power.Value() == mc.F(pw)
    }
  }

  /** x^((k+1)/2) and x^k, from one exponentiation. */
  method InitialPowers(mc: MontyContext, x: MpInt, km1o2: MpInt, zk: MpInt, ghost a: int, ghost c: int) returns (w: Work)
    requires mc.Valid() && km1o2.Valid() && x.Valid() && zk.Valid() && x.nw == zk.nw == mc.m.nw
    requires mc.scratch.mem !in {km1o2.mem, x.mem, zk.mem} && x.Value() == mc.F(a) && zk.Value() == mc.F(c)
    modifies mc.scratch.mem
    ensures mc.Valid() && mc.M() == old(mc.M()) && w.Laid(mc) && fresh(w.toret.mem) && fresh(w.xk.mem)
    ensures var half := Pow(a, km1o2.Value());
            w.Holds(mc, half * a, half * a * half, c)
  {
    hide Nat, Base, MpInt.Words, MpInt.Value, Form, Pow, Pow2, InverseOfR, SquareAt, PowerAt, MaxBits;
    ghost var half := Pow(a, km1o2.Value());
    w := Allocate(mc, x, km1o2, a);
    CopyInto(w.xk, w.toret);
    MulForm(mc, w.toret, w.toret, x, half, a);
    MulForm(mc, w.xk, w.toret, w.xk, half * a, half);
    label Multiplied:
    CopyInto(w.power, zk);
    Untouched@Multiplied((w.power, w.xk));
  }

  method Allocate(mc: MontyContext, x: MpInt, km1o2: MpInt, ghost a: int) returns (w: Work)
    requires mc.Valid() && km1o2.Valid() && x.Valid() && x.nw == mc.m.nw
    requires mc.scratch.mem !in {km1o2.mem, x.mem} && x.Value() == mc.F(a)
    modifies mc.scratch.mem
    ensures mc.Valid() && mc.M() == old(mc.M()) && w.Laid(mc) && fresh(w.toret.mem) && fresh(w.xk.mem)
    ensures w.toret.Value() == mc.F(Pow(a, km1o2.Value()))
  {
    hide Nat, Base, MpInt.Words, MpInt.Value, Form, Pow, Pow2, InverseOfR, SquareAt, PowerAt, MaxBits;
    var rw := mc.m.nw;
    var pool := MakeSized(3 * rw);
    FormBound(mc, 0);
    var toret := MontyPow(mc, x, km1o2, a);
    var xk, rest := AllocFromScratch(pool, rw);
    var tmp, rest' := AllocFromScratch(rest, rw);
    var power, _ := AllocFromScratch(rest', rw);
    w := Work(toret, xk, tmp, power);
  }

  /** Is u in the next subgroup? u^(2^n) is compared with 1. */
  method Inside(mc: MontyContext, w: Work, n: nat, ghost root: int, ghost u: int, ghost pw: int) returns (eq1: bool)
    requires mc.Valid() && w.Laid(mc) && w.Holds(mc, root, u, pw)
    modifies w.xk.mem, mc.scratch.mem
    ensures mc.Valid() && mc.M() == old(mc.M()) && w.Holds(mc, root, u, pw)
    ensures eq1 <==> OrderDivides(mc.M(), u, n)
  {
    hide Nat, Base, MpInt.Words, MpInt.Value, Form, Pow, Pow2, InverseOfR, Cong;
    SquareRepeatedly(mc, w.tmp, w.xk, n, u);
    Untouched((w.tmp, w.xk));
    Untouched((w.tmp, w.power));
    FormOfOne(mc);
    SameForm(mc, Pow(u, Pow2(n)), 1);
    eq1 := CmpEq(w.tmp, mc.p0);
  }

  /** The corrections of one iteration after the first. */
  method ApplyCorrection(mc: MontyContext, w: Work, skip: bool, ghost root: int, ghost u: int, ghost pw: int)
    requires mc.Valid() && w.Laid(mc) && w.Holds(mc, root, u, pw)
    modifies w.toret.mem, w.xk.mem, mc.scratch.mem
    ensures mc.Valid() && mc.M() == old(mc.M())
    ensures w.Holds(mc, if skip then root else root * pw, if skip then u else u * (pw * pw), pw * pw)
  {
    hide Nat, Base, MpInt.Words, MpInt.Value, Form, InverseOfR;
    MulUnless(mc, w.toret, w.tmp, w.power, skip, root, pw);
    UntouchedByBoth((w.toret, w.tmp, w.xk));
    UntouchedByBoth((w.toret, w.tmp, w.power));
    label RootDone:
    MulForm(mc, w.power, w.power, w.power, pw, pw);
    Untouched@RootDone((w.power, w.xk));
    label Squared:
    MulUnless(mc, w.xk, w.tmp, w.power, skip, u, pw * pw);
    UntouchedByBoth@Squared((w.xk, w.tmp, w.power));
  }

  /** The iterations after the first: each moves u one subgroup down, and keeps it balanced with the root. */
  method CorrectAll(mc: MontyContext, w: Work, e: nat, ghost a: int, ghost root0: int, ghost u0: int, ghost zk: int)
    returns (ghost root: int, ghost u: int)
    requires mc.Valid() && IsPrime(mc.M()) && w.Laid(mc) && w.Holds(mc, root0, u0, zk) && 0 < e
    requires Balanced(mc.M(), a, root0, u0) && Cong(Pow(zk, Pow2(e - 1)), 0 - 1, mc.M())
    modifies w.toret.mem, w.xk.mem, mc.scratch.mem
    ensures mc.Valid() && mc.M() == old(mc.M())
    ensures w.toret.Value() == mc.F(root) && Balanced(mc.M(), a, root, u)
    ensures OrderDivides(mc.M(), u0, e - 1) ==> OrderDivides(mc.M(), u, 0)
  {
    hide Nat, Base, MpInt.Words, MpInt.Value, Form, IsPrime, Pow, Pow2, InverseOfR, Cong, Balanced, OrderDivides;
    ghost var p, pw := mc.M(), zk;
    root, u := root0, u0;
    Pow2Step(0);
    PowAtOne(zk);
    var i := 1;
    while i < e
      invariant 1 <= i <= e && mc.Valid() && mc.M() == p && w.Holds(mc, root, u, pw)
      invariant pw == Pow(zk, Pow2(i - 1)) && Balanced(p, a, root, u)
      invariant OrderDivides(p, u0, e - 1) ==> OrderDivides(p, u, e - i)
    {
      var eq1 := Inside(mc, w, e - i - 1, root, u, pw);
      Correct(p, a, root, u, zk, pw, e, i, eq1);
      ApplyCorrection(mc, w, eq1, root, u, pw);
      root, u, pw := if eq1 then root else root * pw, if eq1 then u else u * (pw * pw), pw * pw;
      i := i + 1;
    }
  }

  /** monty_modsqrt: succeeds just when a is a square, 0 included, and then gives a root. */
  method MontyModsqrt(sc: ModsqrtContext, x: MpInt, ghost a: int)
    returns (toret: MpInt, success: bool, ghost root: int)
    requires sc.Valid() && x.Valid() && x.nw == sc.mc.m.nw && x.mem != sc.mc.scratch.mem && x.Value() == sc.mc.F(a)
    modifies sc`zk, sc.mc.scratch.mem
    ensures sc.Valid() && sc.mc.M() == old(sc.mc.M())
    ensures fresh(toret.mem) && toret.Valid() && toret.nw == sc.mc.m.nw && toret.Value() == sc.mc.F(root)
    ensures success <==> IsSquare(sc.mc.M(), a)
    ensures success ==> Cong(root * root, a, sc.mc.M())
  {
    hide Nat, Base, MpInt.Words, MpInt.Value, Form, IsPrime, IsSquare, Pow, Pow2, InverseOfR, Cong, Balanced, OrderDivides;
    LazySetup(sc);
    ghost var p, k := sc.mc.M(), sc.k.Value();
    ghost var half, u := Pow(a, k / 2), Pow(a, k);
    PrimePositive(p);
    NonSquarePower(p, sc.nonsquare, k, sc.e);
    StartBalanced(p, a, k, half);
    FirstTest(p, a, k, sc.e);
    SameForm(sc.mc, a, 0);
    var w := InitialPowers(sc.mc, x, sc.km1o2, sc.zk.value, a, Pow(sc.nonsquare, k));
    var eq1 := Inside(sc.mc, w, sc.e - 1, half * a, u, Pow(sc.nonsquare, k));
    var zero := EqInteger(x, 0);
    success := eq1 || zero;
    root, u := CorrectAll(sc.mc, w, sc.e, a, half * a, u, Pow(sc.nonsquare, k));
    toret := w.toret;
    if success {
      Finished(p, a, root, u);
    }
  }

  /** mp_modsqrt. */
  method Modsqrt(sc: ModsqrtContext, x: MpInt) returns (root: MpInt, success: bool)
    requires sc.Valid() && x.Valid() && x.mem != sc.mc.scratch.mem
    modifies sc`zk, sc.mc.scratch.mem
    ensures sc.Valid() && sc.mc.M() == old(sc.mc.M())
    ensures fresh(root.mem) && root.Valid() && root.nw == sc.mc.m.nw && root.Value() < sc.mc.M()
    ensures success <==> IsSquare(sc.mc.M(), x.Value())
    ensures success ==> Cong(root.Value() * root.Value(), x.Value(), sc.mc.M())
  {
    hide Nat, Base, MpInt.Words, MpInt.Value, Form, IsPrime, IsSquare, Pow, Pow2, InverseOfR, Cong;
    var mx := MontyImport(sc.mc, x);
    ghost var r;
    var mRoot;
    mRoot, success, r := MontyModsqrt(sc, mx, x.Value());
    ExportForm(sc.mc, r);
    root := MakeSized(sc.mc.m.nw);
    MontyExportInto(sc.mc, root, mRoot);
    CongMod(r, sc.mc.M());
    CongMul(root.Value(), r, root.Value(), r, sc.mc.M());
    if success {
      assert Cong(root.Value() * root.Value(), x.Value(), sc.mc.M()) by { CongTrans(root.Value() * root.Value(), r * r, x.Value(), sc.mc.M()); }
    }
  }

  lemma CongTrans(a: int, b: int, c: int, m: int)
    requires 0 < m && Cong(a, b, m) && Cong(b, c, m)
    ensures Cong(a, c, m)
  {
  }
}
