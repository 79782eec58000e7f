/**
 Montgomery arithmetic: contexts, reduction, multiplication, and the powers and
 conversions built on them.
 */
module Montgomery {
  import opened Arithmetic
  import opened Words
  import opened MpInts
  import opened AddSub
  import opened Multiply
  import opened Karatsuba
  import opened Shifts
  import opened Hensel
  import opened Division
  import opened Bezout
  import Stein

  // ----------------------------------------------------------------------- the numbers

  /** s is an inverse of r modulo m, read off the inverse of m modulo r. */
  function InverseOfR(m: nat, r: nat, minusMinv: nat): int
    requires 0 < r
  {
    (m * minusMinv + 1) / r
  }

  lemma InverseOfRWorks(m: nat, r: nat, minusMinv: nat)
    requires 0 < m && 0 < r && (m * minusMinv + 1) % r == 0
    ensures Cong(InverseOfR(m, r, minusMinv) * r, 1, m)
  {
    CongFromMultiple(m * minusMinv + 1, 1, minusMinv, m);
  }

  /** Montgomery reduction: one multiple of m makes x divisible by r, and one subtraction finishes. */
  lemma Redc(x: nat, m: nat, r: nat, minusMinv: nat, k: nat)
    requires 0 < m && 0 < r && (m * minusMinv + 1) % r == 0 && x < m * r && k == (x * minusMinv) % r
    ensures (x + m * k) % r == 0
    ensures var u := (x + m * k) / r;
            && 0 <= u < 2 * m
            && (if u >= m then u - m else u) == (x * InverseOfR(m, r, minusMinv)) % m
  {
    hide InverseOfR, Cong;
    var t, s := x + m * k, InverseOfR(m, r, minusMinv);
    assert t % r == 0 by { RedcDivides(x, m, r, minusMinv, k); }
    assert 0 <= t / r < 2 * m by { RedcBound(x, m, r, k); }
    assert Cong(s * r, 1, m) by { InverseOfRWorks(m, r, minusMinv); }
    ExactQuotient(t, r);
    RedcResidue(x, m, r, k, t / r, s);
    ReducedOnce(t / r, x * s, m);
  }

  lemma ExactQuotient(t: nat, r: nat)
    requires 0 < r && t % r == 0
    ensures t == t / r * r
  {
  }

  lemma RedcBound(x: nat, m: nat, r: nat, k: nat)
    requires 0 < m && 0 < r && x < m * r && k < r
    ensures 0 <= (x + m * k) / r < 2 * m
  {
    MulLe(0, m, k);
    MulLt(k, r, m);
    DivNonNeg(x + m * k, r);
    DivLt(x + m * k, r, 2 * m);
  }

  /** u is u * (r * s), which is (x + m * k) * s, which is x * s. */
  lemma RedcResidue(x: nat, m: nat, r: nat, k: nat, u: nat, s: int)
    requires 0 < m && x + m * k == u * r && Cong(s * r, 1, m)
    ensures Cong(u, x * s, m)
  {
    CongMul(u, u, s * r, 1, m);
    CongFromMultiple(u * r, x, k, m);
    CongMul(u * r, x, s, s, m);
    MulAssoc(u, r, s);
  }

  lemma RedcDivides(x: nat, m: nat, r: nat, minusMinv: nat, k: nat)
    requires 0 < m && 0 < r && (m * minusMinv + 1) % r == 0 && k == (x * minusMinv) % r
    ensures (x + m * k) % r == 0
  {
    var y, q := x * minusMinv, (m * minusMinv + 1) / r;
    assert Cong(x + m * k, x + m * y, r) by {
      CongMod(y, r);
      CongMul(m, m, k, y, r);
      CongAdd(x, x, m * k, m * y, r);
    }
    assert x + m * y == x * q * r by { RedcFactor(x, m, minusMinv, q, r); }
    MultipleMod(x * q, r);
  }

  lemma RedcFactor(x: nat, m: nat, v: nat, q: int, r: nat)
    requires m * v + 1 == q * r
    ensures x + m * (x * v) == x * q * r
  {
    MulAssoc(x, q, r);
    Distribute(x, m * v, 1);
    MulAssoc(m, x, v);
  }

  lemma ReducedOnce(u: nat, y: int, m: nat)
    requires 0 < m && u < 2 * m && Cong(u, y, m)
    ensures (if u >= m then u - m else u) == y % m
  {
    if u >= m {
      ModAddMultiple(u - m, 1, m);
      SmallMod(u - m, m);
    } else {
      SmallMod(u, m);
    }
  }

  /** The Montgomery form of y. */
  function Form(y: int, m: nat, r: nat): nat
    requires 0 < m
  {
    (y * r) % m
  }

  lemma FormOfProduct(a: int, b: int, m: nat, r: nat, s: int)
    requires 0 < m && Cong(s * r, 1, m)
    ensures (Form(a, m, r) * Form(b, m, r) * s) % m == Form(a * b, m, r)
  {
    CongMod(a * r, m);
    CongMod(b * r, m);
    CongMul(Form(a, m, r), a * r, Form(b, m, r), b * r, m);
    CongMul(Form(a, m, r) * Form(b, m, r), a * r * (b * r), s, s, m);
    assert a * r * (b * r) * s == a * b * r * (s * r) by { Shuffle(a, b, r, s); }
    CongMul(a * b * r, a * b * r, s * r, 1, m);
  }

  lemma Shuffle(a: int, b: int, r: int, s: int)
    ensures a * r * (b * r) * s == a * b * r * (s * r)
  {
    MulAssoc(a * r, b, r);
    assert a * r * b == a * b * r;
    MulAssoc(a * b * r, r, s);
  }

  /** Sums and differences need no more than one correction by m, and keep the form. */
  lemma FormOfSum(a: int, b: int, m: nat, r: nat)
    requires 0 < m
    ensures var t := Form(a, m, r) + Form(b, m, r); (if t >= m then t - m else t) == Form(a + b, m, r)
  {
    var x, y := Form(a, m, r), Form(b, m, r);
    FormSmall(a, m, r);
    FormSmall(b, m, r);
    CongMod(a * r, m);
    CongMod(b * r, m);
    CongAdd(x, a * r, y, b * r, m);
    Distribute(r, a, b);
    ReducedOnce(x + y, (a + b) * r, m);
  }

  lemma FormOfDifference(a: int, b: int, m: nat, r: nat)
    requires 0 < m
    ensures var x, y := Form(a, m, r), Form(b, m, r); (if x >= y then x - y else x - y + m) == Form(a - b, m, r)
  {
    var x, y := Form(a, m, r), Form(b, m, r);
    FormSmall(a, m, r);
    FormSmall(b, m, r);
    CongMod(a * r, m);
    CongMod(b * r, m);
    CongSub(x, a * r, y, b * r, m);
    Distribute(r, a, 0 - b);
    ModAddMultiple(x - y, 1, m);
    SmallMod(if x >= y then x - y else x - y + m, m);
  }

  lemma FormExported(a: int, m: nat, r: nat, s: int)
    requires 0 < m && Cong(s * r, 1, m)
    ensures (Form(a, m, r) * s) % m == a % m
  {
    CongMod(a * r, m);
    CongMul(Form(a, m, r), a * r, s, s, m);
    MulAssoc(a, r, s);
    CongMul(a, a, s * r, 1, m);
  }

  /** Equal forms mean congruent numbers. */
  lemma FormInjective(a: int, b: int, m: nat, r: nat, s: int)
    requires 0 < m && Cong(s * r, 1, m)
    ensures Form(a, m, r) == Form(b, m, r) <==> Cong(a, b, m)
  {
    FormExported(a, m, r, s);
    FormExported(b, m, r, s);
    if Cong(a, b, m) {
      CongMul(a, b, r, r, m);
    }
  }

  // ------------------------------------------------------------------------ the context

  /** MontyContext. The modulus has rw words, r is BASE^rw, and p0, p1, p2 are r, r^2, r^3 modulo m. */
  datatype MontyContext = MontyContext(m: MpInt, minusMinv: MpInt, p0: MpInt, p1: MpInt, p2: MpInt, scratch: MpInt) {
    ghost predicate Valid()
      reads m.mem, minusMinv.mem, p0.mem, p1.mem, p2.mem
    {
      && Shaped()
      && m.Value() % 2 == 1
      && (m.Value() * minusMinv.Value() + 1) % R() == 0
      && p0.Value() == R() % m.Value()
      && p1.Value() == (p0.Value() * p0.Value()) % m.Value()
      && p2.Value() == (p0.Value() * p1.Value()) % m.Value()
    }

    /** The part of validity that no operation can change. */
    ghost predicate Shaped() {
      && m.Valid() && minusMinv.Valid() && p0.Valid() && p1.Valid() && p2.Valid() && scratch.Valid()
      && 0 < m.nw == minusMinv.nw == p0.nw == p1.nw == p2.nw && scratch.nw == ScratchSize(m.nw)
      && scratch.mem !in {m.mem, minusMinv.mem, p0.mem, p1.mem, p2.mem}
    }

    ghost function R(): nat { Base(m.nw) }

    ghost function M(): (v: nat)
      requires Valid()
      reads m.mem, minusMinv.mem, p0.mem, p1.mem, p2.mem
      ensures 0 < v
    {
      m.Value()
    }

    /** An inverse of r modulo m. */
    ghost function S(): int
      requires Valid()
      reads m.mem, minusMinv.mem, p0.mem, p1.mem, p2.mem
    {
      InverseOfR(m.Value(), R(), minusMinv.Value())
    }

    /** The Montgomery form of y. */
    ghost function F(y: int): nat
      requires Valid()
      reads m.mem, minusMinv.mem, p0.mem, p1.mem, p2.mem
    {
      Form(y, M(), R())
    }
  }

  /** monty_scratch_size, for a modulus of rw words. */
  function ScratchSize(rw: nat): nat {
    var pw := rw * 2 + 1;
    3 * rw + pw + ScratchSpace(pw, rw, rw)
  }

  lemma Inverse(mc: MontyContext)
    requires mc.Valid()
    ensures Cong(mc.S() * mc.R(), 1, mc.M())
  {
    InverseOfRWorks(mc.m.Value(), mc.R(), mc.minusMinv.Value());
  }

  lemma WholeWords(n: nat)
    ensures WordsForBits(MaxBits(n)) == n
    ensures 0 < n ==> 0 < MaxBits(n)
  {
    hide CeilDiv;
    WordsForBitsFit(MaxBits(n));
  }

  lemma NegatedInverse(m: nat, inv: nat, r: nat)
    requires 1 < r && (m * inv) % r == 1
    ensures (m * ((0 - inv) % r) + 1) % r == 0
  {
    var v := (0 - inv) % r;
    CongMod(0 - inv, r);
    CongMul(m, m, v, 0 - inv, r);
    SmallMod(1, r);
    assert m * (0 - inv) == 0 - m * inv;
    CongSub(0, 0, m * inv, 1, r);
    CongAdd(m * v, 0 - 1, 1, 1, r);
    CongZero(m * v + 1, r);
  }

  /** mp_copy. */
  method Copy(x: MpInt) returns (y: MpInt)
    requires x.Valid()
    ensures fresh(y.mem) && y.Valid() && y.off == 0 && y.nw == x.nw && y.Value() == x.Value()
  {
    y := MakeSized(x.nw);
    CopyInto(y, x);
  }

  /** monty_new. */
  method MontyNew(modulus: MpInt) returns (mc: MontyContext)
    requires modulus.Valid() && 0 < modulus.nw && modulus.Value() % 2 == 1
    ensures mc.Valid() && mc.M() == modulus.Value() && mc.m.nw == modulus.nw
    ensures fresh(mc.m.mem) && fresh(mc.minusMinv.mem) && fresh(mc.scratch.mem)
    ensures fresh(mc.p0.mem) && fresh(mc.p1.mem) && fresh(mc.p2.mem)
  {
    hide Nat, Base, Pow2, MpInt.Words, MpInt.Value, WordsForBits, MaxBits;
    var rw := modulus.nw;
    var m := Copy(modulus);
    var inv := MinusInverse(m);
    BaseIsBig();
    BaseStep(0);
    var r := MakeSized(rw + 1);
    SetWordOfZero(r, rw, 1);
    var p0 := Mod(r, m);
    var p1 := ModMul(p0, p0, m);
    var p2 := ModMul(p0, p1, m);
    var scratch := MakeSized(ScratchSize(rw));
    mc := MontyContext(m, inv, p0, p1, p2, scratch);
  }

  /** -1/m modulo r. */
  method MinusInverse(m: MpInt) returns (v: MpInt)
    requires m.Valid() && 0 < m.nw && m.Value() % 2 == 1
    ensures fresh(v.mem) && v.Valid() && v.nw == m.nw
    ensures (m.Value() * v.Value() + 1) % Base(m.nw) == 0
  {
    hide Nat, Base, Pow2, MpInt.Words, MpInt.Value, WordsForBits, MaxBits;
    WholeWords(m.nw);
    v := InvertMod2To(m, MaxBits(m.nw));
    BaseIsPow2(m.nw);
    BaseIsBig();
    BaseLe(1, m.nw);
    BaseStep(0);
    NegatedInverse(m.Value(), v.Value(), Base(m.nw));
    NegInto(v, v);
  }

  // ------------------------------------------------------------------------- reduction

  /** monty_reduce_internal: x / r modulo m, in an alias of the scratch space. */
  method ReduceInternal(mc: MontyContext, x: MpInt, scratch: MpInt) returns (toret: MpInt)
    requires mc.Valid() && x.Valid() && scratch.Valid() && scratch.mem == mc.scratch.mem && Apart(x, scratch)
    requires x.nw <= 2 * mc.m.nw && scratch.nw >= 9 * mc.m.nw + 1
    requires x.Value() < mc.M() * mc.R()
    modifies scratch.mem
    ensures toret.mem == scratch.mem && toret.Valid() && mc.Valid()
    ensures scratch.off <= toret.off && toret.off + toret.nw <= scratch.off + scratch.nw && toret.nw == mc.m.nw + 1
    ensures OnlyWrites(scratch)
    ensures toret.Value() == (old(x.Value()) * mc.S()) % mc.M()
  {
    hide Nat, Base, MpInt.Words, MpInt.Value, InverseOfR;
    var rw := mc.m.nw;
    ghost var xv, m, r, minv, inv := x.Value(), mc.M(), mc.R(), mc.minusMinv.Value(), mc.S();
    var mk := AddMultiple(mc, x, scratch);
    label Added:
    toret := Alias(mk, rw, mk.nw - rw);
    TopWords(mk, rw);
    CongMod(xv * minv, r);
    Redc(xv, m, r, minv, (xv * minv) % r);
    SubtractOnce(toret, mc.m, xv, inv);
    WritesWithin@Added((toret, scratch));
  }

  /** x + m * k, where k is chosen to make it divisible by r. */
  method AddMultiple(mc: MontyContext, x: MpInt, scratch: MpInt) returns (mk: MpInt)
    requires mc.Valid() && x.Valid() && scratch.Valid() && scratch.mem == mc.scratch.mem && Apart(x, scratch)
    requires x.nw <= 2 * mc.m.nw && scratch.nw >= 9 * mc.m.nw + 1
    requires x.Value() < mc.M() * mc.R()
    modifies scratch.mem
    ensures mk.mem == scratch.mem && mk.Valid() && mk.nw == 2 * mc.m.nw + 1 && mc.Valid() && OnlyWrites(scratch)
    ensures scratch.off <= mk.off && mk.off + mk.nw <= scratch.off + scratch.nw
    ensures mk.Value() == old(x.Value()) + mc.M() * ((old(x.Value()) * mc.minusMinv.Value()) % mc.R())
  {
    hide Nat, Base, MpInt.Words, MpInt.Value, InverseOfR;
    mk := AddMultipleOf(mc.m, mc.minusMinv, x, scratch);
  }

  method AddMultipleOf(m: MpInt, minusMinv: MpInt, x: MpInt, scratch: MpInt) returns (mk: MpInt)
    requires m.Valid() && minusMinv.Valid() && x.Valid() && scratch.Valid() && 0 < m.nw == minusMinv.nw
    requires scratch.mem != m.mem && scratch.mem != minusMinv.mem && Apart(x, scratch)
    requires x.nw <= 2 * m.nw && scratch.nw >= 9 * m.nw + 1 && x.Value() < m.Value() * Base(m.nw)
    modifies scratch.mem
    ensures mk == MpInt(scratch.mem, scratch.off + m.nw, 2 * m.nw + 1) && mk.Valid() && OnlyWrites(scratch)
    ensures mk.Value() == old(x.Value()) + m.Value() * ((old(x.Value()) * minusMinv.Value()) % Base(m.nw))
  {
    hide Nat, Base, MpInt.Words, MpInt.Value;
    var rw := m.nw;
    ghost var xv, k := x.Value(), (x.Value() * minusMinv.Value()) % Base(rw);
    mk := ProductWith(m, minusMinv, x, scratch);
    CongMod(xv * minusMinv.Value(), Base(rw));
    ValueBound(m);
    ReduceFits(xv, m.Value(), k, rw);
    AddInto(mk, x, mk);
  }

  /** m * k, in its place in the scratch space. */
  method ProductWith(m: MpInt, minusMinv: MpInt, x: MpInt, scratch: MpInt) returns (mk: MpInt)
    requires m.Valid() && minusMinv.Valid() && x.Valid() && scratch.Valid() && 0 < m.nw == minusMinv.nw
    requires scratch.mem != m.mem && scratch.mem != minusMinv.mem && Apart(x, scratch)
    requires x.nw <= 2 * m.nw && scratch.nw >= 9 * m.nw + 1
    modifies scratch.mem
    ensures mk == MpInt(scratch.mem, scratch.off + m.nw, 2 * m.nw + 1) && mk.Valid() && OnlyWrites(scratch)
    ensures mk.Value() == (m.Value() * ((x.Value() * minusMinv.Value()) % Base(m.nw))) % Base(mk.nw)
    ensures x.Value() == old(x.Value())
  {
    hide Nat, Base, MpInt.Words, MpInt.Value, MaxBits;
    var rw := m.nw;
    var k, s1 := AllocFromScratch(scratch, rw);
    var s2;
    mk, s2 := AllocFromScratch(s1, 2 * rw + 1);
    XLow(x, rw);
    MulInternal(k, Alias(x, 0, MaxBits(rw)), minusMinv, s1);
    UntouchedByBoth((k, s1, x));
    label First:
    MulInternal(mk, m, k, s2);
    UntouchedByBoth@First((mk, s2, x));
  }

  /** Writing inside a window writes only that window. (The pair is inner, outer.) */
  twostate lemma WritesWithin(p: (MpInt, MpInt))
    requires p.0.Valid() && p.1.Valid() && p.0.mem == p.1.mem && OnlyWrites(p.0)
    requires p.1.off <= p.0.off && p.0.off + p.0.nw <= p.1.off + p.1.nw
    ensures OnlyWrites(p.1)
  {
  }

  lemma XLow(x: MpInt, rw: nat)
    requires x.nw <= 2 * rw
    ensures Alias(x, 0, MaxBits(rw)) == x
  {
  }

  lemma ReduceFits(x: nat, m: nat, k: nat, rw: nat)
    requires m < Base(rw) && x < m * Base(rw) && k < Base(rw)
    ensures (m * k) % Base(2 * rw + 1) == m * k
    ensures (x + m * k) % Base(2 * rw + 1) == x + m * k
  {
    hide Base;
    var r := Base(rw);
    BaseAdd(rw, rw);
    BaseStep(2 * rw);
    BaseIsBig();
    MulLt(m, r, r);
    MulLeBoth(m, r, k, r);
    MulLe(2, BASE, r * r);
    MulLe(0, m, k);
    SmallMod(m * k, Base(2 * rw + 1));
    SmallMod(x + m * k, Base(2 * rw + 1));
  }

  lemma TopWords(x: MpInt, k: nat)
    requires x.Valid() && k <= x.nw
    ensures Alias(x, k, x.nw - k).Value() == x.Value() / Base(k)
  {
    hide Nat, Base;
    HighPart(x, k);
    DivModUnique(x.Value(), Base(k), Alias(x, k, x.nw - k).Value(), Alias(x, 0, k).Value());
  }

  /** The one trial subtraction. */
  method SubtractOnce(u: MpInt, m: MpInt, ghost x: nat, ghost s: int)
    requires u.Valid() && m.Valid() && u.mem != m.mem && 0 < m.Value()
    requires (if u.Value() >= m.Value() then u.Value() - m.Value() else u.Value()) == (x * s) % m.Value()
    modifies u.mem
    ensures OnlyWrites(u)
    ensures u.Value() == (x * s) % m.Value()
  {
    hide Nat, Base, MpInt.Words, MpInt.Value;
    ValueBound(u);
    var hs := CmpHs(u, m);
    SmallMod(if hs then u.Value() - m.Value() else u.Value(), Base(u.nw));
    CondSubInto(u, u, m, hs);
  }

  // ----------------------------------------------------------------------- arithmetic

  /** Operands that the multiplication accepts: no wider than r, apart from the scratch space, and small enough. */
  ghost predicate Operands(mc: MontyContext, x: MpInt, y: MpInt)
    requires mc.Valid()
    reads mc.m.mem, mc.minusMinv.mem, mc.p0.mem, mc.p1.mem, mc.p2.mem, x.mem, y.mem
  {
    && x.Valid() && y.Valid() && x.mem != mc.scratch.mem && y.mem != mc.scratch.mem
    && x.nw <= mc.m.nw && y.nw <= mc.m.nw && x.Value() * y.Value() < mc.M() * mc.R()
  }

  /** An output of the size of the modulus. */
  ghost predicate Output(mc: MontyContext, r: MpInt) {
    Outside(mc, r) && r.nw == mc.m.nw
  }

  /** Not part of the context. */
  ghost predicate Outside(mc: MontyContext, r: MpInt) {
    && r.Valid()
    && r.mem !in {mc.m.mem, mc.minusMinv.mem, mc.p0.mem, mc.p1.mem, mc.p2.mem, mc.scratch.mem}
  }

  /** monty_mul_into. The output may have any width, and is cut to it. */
  method MontyMulInto(mc: MontyContext, r: MpInt, x: MpInt, y: MpInt)
    requires mc.Valid() && Outside(mc, r) && Operands(mc, x, y)
    modifies r.mem, mc.scratch.mem
    ensures mc.Valid() && OnlyWrites(r) && mc.scratch.Value() == 0
    ensures r.Value() == (old(x.Value()) * old(y.Value()) * mc.S()) % mc.M() % Base(r.nw)
    ensures mc.m.nw <= r.nw ==> r.Value() == (old(x.Value()) * old(y.Value()) * mc.S()) % mc.M() < mc.M()
  {
    hide Nat, Base, MpInt.Words, MpInt.Value, InverseOfR;
    var rw := mc.m.nw;
    var tmp, rest := AllocFromScratch(mc.scratch, 2 * rw);
    ValueBound(x);
    ValueBound(y);
    ValueBound(mc.m);
    ProductFits(x.nw, y.nw, 2 * rw, x.Value(), y.Value());
    MulInto(tmp, x, y);
    var reduced := ReduceInternal(mc, tmp, rest);
    if rw <= r.nw {
      BaseLe(rw, r.nw);
      SmallMod(reduced.Value(), Base(r.nw));
    }
    CopyInto(r, reduced);
    Clear(mc.scratch);
  }

  /** monty_mul. */
  method MontyMul(mc: MontyContext, x: MpInt, y: MpInt) returns (r: MpInt)
    requires mc.Valid() && Operands(mc, x, y)
    modifies mc.scratch.mem
    ensures mc.Valid() && fresh(r.mem) && r.Valid() && r.nw == mc.m.nw
    ensures r.Value() == (x.Value() * y.Value() * mc.S()) % mc.M() < mc.M()
  {
    hide Nat, Base, MpInt.Words, MpInt.Value, InverseOfR;
    r := MakeSized(mc.m.nw);
    MontyMulInto(mc, r, x, y);
  }

  /** monty_export_into and monty_reduce: x / r modulo m. */
  method MontyExportInto(mc: MontyContext, r: MpInt, x: MpInt)
    requires mc.Valid() && Outside(mc, r) && x.Valid()
    requires x.mem != mc.scratch.mem && x.nw <= 2 * mc.m.nw && x.Value() < mc.M() * mc.R()
    modifies r.mem, mc.scratch.mem
    ensures mc.Valid() && OnlyWrites(r) && mc.scratch.Value() == 0
    ensures r.Value() == (old(x.Value()) * mc.S()) % mc.M() % Base(r.nw)
    ensures mc.m.nw <= r.nw ==> r.Value() == (old(x.Value()) * mc.S()) % mc.M() < mc.M()
  {
    hide Nat, Base, MpInt.Words, MpInt.Value, InverseOfR;
    ValueBound(mc.m);
    var reduced := ReduceInternal(mc, x, mc.scratch);
    if mc.m.nw <= r.nw {
      BaseLe(mc.m.nw, r.nw);
      SmallMod(reduced.Value(), Base(r.nw));
    }
    CopyInto(r, reduced);
    Clear(mc.scratch);
  }

  /** monty_add: mp_modadd_in_range. The sum may outgrow its words, which the carry tells. */
  method MontyAdd(mc: MontyContext, x: MpInt, y: MpInt, ghost a: int, ghost b: int) returns (sum: MpInt)
    requires mc.Valid() && x.Valid() && y.Valid() && x.Value() == mc.F(a) && y.Value() == mc.F(b)
    ensures fresh(sum.mem) && sum.Valid() && sum.nw == mc.m.nw && sum.Value() == mc.F(a + b)
  {
    hide Nat, Base, MpInt.Words, MpInt.Value, InverseOfR, Form;
    ghost var vx, vy, m, n := x.Value(), y.Value(), mc.M(), Base(mc.m.nw);
    FormSmall(a, m, mc.R());
    FormSmall(b, m, mc.R());
    ValueBound(mc.m);
    sum := MakeSized(mc.m.nw);
    var carry := AddIntoCarry(sum, x, y);
    SumInRange(vx, vy, m, n);
    var hs := CmpHs(sum, mc.m);
    CondSubInto(sum, sum, mc.m, carry == 1 || hs);
    FormOfSum(a, b, m, mc.R());
  }

  lemma SumInRange(x: nat, y: nat, m: nat, n: nat)
    requires x < m && y < m < n
    ensures x % n == x && y % n == y
    ensures var s, carry := (x + y) % n, x + y >= n;
            && (carry || s >= m <==> x + y >= m)
            && (s - if carry || s >= m then m else 0) % n == if x + y >= m then x + y - m else x + y
  {
    SmallMod(x, n);
    SmallMod(y, n);
    if x + y >= n {
      ModAddMultiple(x + y - n, 1, n);
      SmallMod(x + y - n, n);
      ModAddMultiple(x + y - m, -1, n);
    } else {
      SmallMod(x + y, n);
    }
    SmallMod(if x + y >= m then x + y - m else x + y, n);
  }

  /** monty_sub: mp_modsub_in_range. */
  method MontySub(mc: MontyContext, x: MpInt, y: MpInt, ghost a: int, ghost b: int) returns (diff: MpInt)
    requires mc.Valid() && x.Valid() && y.Valid() && x.Value() == mc.F(a) && y.Value() == mc.F(b)
    ensures fresh(diff.mem) && diff.Valid() && diff.nw == mc.m.nw && diff.Value() == mc.F(a - b)
  {
    hide Nat, Base, MpInt.Words, MpInt.Value, InverseOfR, Form;
    ghost var vx, vy, m, n := x.Value(), y.Value(), mc.M(), Base(mc.m.nw);
    FormSmall(a, m, mc.R());
    FormSmall(b, m, mc.R());
    ValueBound(mc.m);
    diff := MakeSized(mc.m.nw);
    SubInto(diff, x, y);
    DifferenceInRange(vx, vy, m, n);
    var hs := CmpHs(x, y);
    CondAddInto(diff, diff, mc.m, !hs);
    FormOfDifference(a, b, m, mc.R());
  }

  lemma DifferenceInRange(x: nat, y: nat, m: nat, n: nat)
    requires x < m && y < m < n
    ensures ((x - y) % n + if x >= y then 0 else m) % n == if x >= y then x - y else x - y + m
  {
    if x >= y {
      SmallMod(x - y, n);
    } else {
      ModAddMultiple(x - y + n, -1, n);
      SmallMod(x - y + n, n);
      ModAddMultiple(x - y + m, 1, n);
      SmallMod(x - y + m, n);
    }
  }

  /** monty_import. */
  method MontyImport(mc: MontyContext, x: MpInt) returns (r: MpInt)
    requires mc.Valid() && x.Valid()
    ensures fresh(r.mem) && r.Valid() && r.nw == mc.m.nw
    ensures r.Value() == mc.F(x.Value())
  {
    hide Nat, Base, MpInt.Words, MpInt.Value;
    r := ModMul(x, mc.p0, mc.m);
    CongMod(mc.R(), mc.M());
    CongMul(x.Value(), x.Value(), mc.R() % mc.M(), mc.R(), mc.M());
  }

  /** The Montgomery product of two forms is the form of the product. */
  lemma MulForms(mc: MontyContext, a: int, b: int)
    requires mc.Valid()
    ensures (mc.F(a) * mc.F(b) * mc.S()) % mc.M() == mc.F(a * b)
    ensures mc.F(a) * mc.F(b) < mc.M() * mc.R()
  {
    hide Nat, Base, MpInt.Words, MpInt.Value, InverseOfR, Form;
    Inverse(mc);
    FormOfProduct(a, b, mc.M(), mc.R(), mc.S());
    FormBound(mc, a);
    FormBound(mc, b);
    MulLtBoth(mc.F(a), mc.M(), mc.F(b), mc.R());
  }

  lemma FormBound(mc: MontyContext, a: int)
    requires mc.Valid()
    ensures mc.F(a) < mc.M() < mc.R()
  {
    hide Nat, Base, MpInt.Words;
    ValueBound(mc.m);
    CongMod(a * mc.R(), mc.M());
  }

  lemma FormOfOne(mc: MontyContext)
    requires mc.Valid()
    ensures mc.p0.Value() == mc.F(1)
  {
  }

  /** tmp := x * y / r, for two numbers below the modulus. */
  method MulReduce(mc: MontyContext, tmp: MpInt, x: MpInt, y: MpInt)
    requires mc.Valid() && tmp.Valid() && x.Valid() && y.Valid() && tmp.nw == 2 * mc.m.nw
    requires tmp.mem != x.mem && tmp.mem != y.mem
    requires tmp.mem !in {mc.m.mem, mc.minusMinv.mem, mc.p0.mem, mc.p1.mem, mc.p2.mem, mc.scratch.mem}
    requires mc.scratch.mem !in {x.mem, y.mem}
    requires x.Value() < mc.M() && y.Value() < mc.M()
    modifies tmp.mem, mc.scratch.mem
    ensures mc.Valid() && tmp.Value() == (x.Value() * y.Value() * mc.S()) % mc.M() < mc.M()
  {
    hide Nat, Base, MpInt.Words, MpInt.Value, InverseOfR, Form;
    BelowModulus(mc, x.Value(), y.Value());
    MulInto(tmp, x, y);
    MontyExportInto(mc, tmp, tmp);
  }

  lemma BelowModulus(mc: MontyContext, x: nat, y: nat)
    requires mc.Valid() && x < mc.M() && y < mc.M()
    ensures x * y < mc.M() * mc.R() && (x * y) % Base(2 * mc.m.nw) == x * y
  {
    hide Nat, Base, MpInt.Words, MpInt.Value;
    ValueBound(mc.m);
    BaseAdd(mc.m.nw, mc.m.nw);
    ProductBelow(x, y, mc.M(), mc.R(), Base(2 * mc.m.nw));
  }

  lemma ProductBelow(x: nat, y: nat, m: nat, r: nat, bound: nat)
    requires x < m < r && y < m && bound == r * r
    ensures x * y < m * r && (x * y) % bound == x * y
  {
    MulLtBoth(x, m, y, r);
    MulLt(m, r, r);
    SmallMod(x * y, bound);
  }

  /** monty_mul_into on two forms, one of which r may overlap. */
  method MulForm(mc: MontyContext, r: MpInt, x: MpInt, y: MpInt, ghost a: int, ghost b: int)
    requires mc.Valid() && Output(mc, r) && x.Valid() && y.Valid() && x.nw <= mc.m.nw && y.nw <= mc.m.nw
    requires mc.scratch.mem !in {x.mem, y.mem} && x.Value() == mc.F(a) && y.Value() == mc.F(b)
    modifies r.mem, mc.scratch.mem
    ensures mc.Valid() && OnlyWrites(r) && r.Value() == mc.F(a * b)
    ensures mc.M() == old(mc.M())
  {
    hide Nat, Base, MpInt.Words, MpInt.Value, InverseOfR, Form;
    MulForms(mc, a, b);
    MontyMulInto(mc, r, x, y);
  }

  /** Two forms are the same words just when their numbers are congruent. */
  lemma SameForm(mc: MontyContext, a: int, b: int)
    requires mc.Valid()
    ensures mc.F(a) == mc.F(b) <==> Cong(a, b, mc.M())
    ensures mc.F(a) == 0 <==> a % mc.M() == 0
  {
    hide Nat, Base, MpInt.Words, MpInt.Value, InverseOfR, Cong;
    Inverse(mc);
    FormInjective(a, b, mc.M(), mc.R(), mc.S());
    FormInjective(a, 0, mc.M(), mc.R(), mc.S());
    CongZero(a, mc.M());
    SmallMod(0, mc.M());
    assert 0 * mc.R() == 0;
  }

  /** The value of monty_pow's square after i iterations. It is kept in as many words as the base has. */
  function SquareAt(v: nat, i: nat, m: nat, s: int, limit: nat): nat
    requires 0 < m && 0 < limit
  {
    if i == 0 then v else
      var q := SquareAt(v, i - 1, m, s, limit);
      (q * q * s) % m % limit
  }

  /** The value of monty_pow's accumulator after i iterations. */
  function PowerAt(v: nat, e: nat, i: nat, one: nat, m: nat, s: int, limit: nat): nat
    requires 0 < m && 0 < limit
  {
    if i == 0 then one else
      var out := PowerAt(v, e, i - 1, one, m, s, limit);
      if Bit(e, i - 1) == 1 then (out * SquareAt(v, i - 1, m, s, limit) * s) % m else out
  }

  /** The forms of the 2^i-th powers of b, for i below k, fit in the base's words. */
  ghost predicate Fits(b: int, k: nat, m: nat, r: nat, limit: nat)
    requires 0 < m
  {
    forall i :: 0 <= i < k ==> Form(Pow(b, Pow2(i)), m, r) < limit
  }

  /** As long as they fit, the squares are those forms, and the next one is cut. */
  lemma {:induction false} FittingSquares(b: int, k: nat, m: nat, r: nat, s: int, limit: nat)
    requires 0 < m && 0 < limit && Cong(s * r, 1, m) && Fits(b, k, m, r, limit) && Form(b, m, r) < limit
    ensures SquareAt(Form(b, m, r), k, m, s, limit) == Form(Pow(b, Pow2(k)), m, r) % limit
  {
    hide Pow, Pow2, Form, Cong;
    if k == 0 {
      PowStart(b, 0);
      SmallMod(Form(b, m, r), limit);
    } else {
      FittingSquares(b, k - 1, m, r, s, limit);
      var q := Pow(b, Pow2(k - 1));
      FormOfProduct(q, q, m, r, s);
      PowStep(b, 0, k - 1);
      SmallMod(Form(q, m, r), limit);
    }
  }

  /** And then the accumulator is the form of the power. */
  lemma {:induction false} FittingPowers(b: int, e: nat, i: nat, m: nat, r: nat, s: int, limit: nat)
    requires 0 < m && 0 < limit && Cong(s * r, 1, m) && Fits(b, i, m, r, limit)
    ensures PowerAt(Form(b, m, r), e, i, Form(1, m, r), m, s, limit) == Form(Pow(b, e % Pow2(i)), m, r)
  {
    hide Pow, Pow2, Form, Cong, Bit, SquareAt, Fits;
    if i == 0 {
      PowStart(b, e);
    } else {
      FitsBelow(b, i, m, r, limit);
      FittingPowers(b, e, i - 1, m, r, s, limit);
      FittingSquares(b, i - 1, m, r, s, limit);
      SmallMod(Form(Pow(b, Pow2(i - 1)), m, r), limit);
      PowStep(b, e, i - 1);
      FormOfProduct(Pow(b, e % Pow2(i - 1)), Pow(b, Pow2(i - 1)), m, r, s);
    }
  }

  lemma FitsBelow(b: int, i: nat, m: nat, r: nat, limit: nat)
    requires 0 < m && 0 < i && Fits(b, i, m, r, limit)
    ensures Fits(b, i - 1, m, r, limit) && Form(b, m, r) < limit
    ensures 0 <= Form(Pow(b, Pow2(i - 1)), m, r) < limit
  {
    hide Pow, Pow2, Form;
    PowStart(b, 0);
    assert Form(Pow(b, Pow2(0)), m, r) < limit;
  }

  /** Bits of the exponent that are 0 make no difference, however many words hold them. */
  lemma {:induction false} PowerAtPast(v: nat, e: nat, i: nat, j: nat, one: nat, m: nat, s: int, limit: nat)
    requires 0 < m && 0 < limit && e < Pow2(i) && i <= j
    ensures PowerAt(v, e, j, one, m, s, limit) == PowerAt(v, e, i, one, m, s, limit)
    decreases j
  {
    hide Pow2, Bit, SquareAt;
    if i < j {
      PowerAtPast(v, e, i, j - 1, one, m, s, limit);
      NoBitAbove(e, i, j - 1);
    }
  }

  lemma NoBitAbove(e: nat, i: nat, j: nat)
    requires e < Pow2(i) && i <= j
    ensures Bit(e, j) == 0
  {
    hide Pow2;
    Pow2Le(i, j);
    DivModUnique(e, Pow2(j), 0, e);
  }

  /** monty_pow is right if the form of b^(2^i) fits in the base's words for every i with 2^i no larger than the exponent. */
  lemma FittingResult(b: int, e: nat, k: nat, bits: nat, m: nat, r: nat, s: int, limit: nat)
    requires 0 < m && 0 < limit && Cong(s * r, 1, m) && k <= bits && e < Pow2(k) && Fits(b, k, m, r, limit)
    ensures PowerAt(Form(b, m, r), e, bits, Form(1, m, r), m, s, limit) == Form(Pow(b, e), m, r)
  {
    hide Pow, Pow2, Form, Cong, PowerAt, Fits;
    PowerAtPast(Form(b, m, r), e, k, bits, Form(1, m, r), m, s, limit);
    FittingPowers(b, e, k, m, r, s, limit);
    SmallMod(e, Pow2(k));
  }

  /** If the base's words can hold every residue, they all fit. */
  lemma WidePowers(b: int, e: nat, i: nat, m: nat, r: nat, s: int, limit: nat)
    requires 0 < m <= limit && Cong(s * r, 1, m)
    ensures PowerAt(Form(b, m, r), e, i, Form(1, m, r), m, s, limit) == Form(Pow(b, e % Pow2(i)), m, r)
  {
    hide Pow, Pow2, Form, Cong, PowerAt;
    forall k | 0 <= k < i ensures Form(Pow(b, Pow2(k)), m, r) < limit {
      FormSmall(Pow(b, Pow2(k)), m, r);
    }
    FittingPowers(b, e, i, m, r, s, limit);
  }

  /** A narrower base: if only the form of the highest of these powers may not fit, and the rest of the power has an inverse
      (as it has if b has, or if there is no rest), the result is right just when that form fits as well. This is for as
      many passes as monty_pow makes, whatever the size of the exponent. */
  lemma NarrowPower(b: int, e: nat, k: nat, bits: nat, m: nat, r: nat, s: int, limit: nat, inv: int)
    requires 0 < m && 0 < limit && Cong(s * r, 1, m) && Form(b, m, r) < limit && Fits(b, k, m, r, limit)
    requires Pow2(k) <= e < Pow2(k + 1) && k < bits && Cong(Pow(b, e - Pow2(k)) * inv, 1, m)
    ensures PowerAt(Form(b, m, r), e, bits, Form(1, m, r), m, s, limit) == Form(Pow(b, e), m, r) <==>
            Form(Pow(b, Pow2(k)), m, r) < limit
  {
    hide Pow, Pow2, Form, Cong, Fits, Bit;
    var v, one, u, w := Form(b, m, r), Form(1, m, r), Pow(b, e - Pow2(k)), Form(Pow(b, Pow2(k)), m, r);
    PowerAtPast(v, e, k + 1, bits, one, m, s, limit);
    TopBit(e, k);
    FittingPowers(b, e, k, m, r, s, limit);
    FittingSquares(b, k, m, r, s, limit);
    assert PowerAt(v, e, k + 1, one, m, s, limit) == (Form(u, m, r) * (w % limit) * s) % m by { hide SquareAt; }
    hide PowerAt, SquareAt;
    PowAdd(b, e - Pow2(k), Pow2(k));
    FormOfProduct(u, Pow(b, Pow2(k)), m, r, s);
    FormSmall(Pow(b, Pow2(k)), m, r);
    CutFactor(u, w, m, r, s, limit, inv);
  }

  lemma TopBit(e: nat, k: nat)
    requires Pow2(k) <= e < Pow2(k + 1)
    ensures Bit(e, k) == 1 && e % Pow2(k) == e - Pow2(k)
  {
    hide Pow2;
    Pow2Step(k);
    DivModUnique(e, Pow2(k), 1, e - Pow2(k));
  }

  /** Cutting the second factor makes no difference just when there is nothing to cut. */
  lemma CutFactor(u: int, w: nat, m: nat, r: nat, s: int, limit: nat, inv: int)
    requires 0 < limit && w < m && Cong(s * r, 1, m) && Cong(u * inv, 1, m)
    ensures (Form(u, m, r) * (w % limit) * s) % m == (Form(u, m, r) * w * s) % m <==> w < limit
  {
    hide Form;
    var t := w % limit;
    MaskFits(w, limit);
    if w < limit {
      SmallMod(w, limit);
    } else {
      FormTimes(u, t, m, r, s);
      FormTimes(u, w, m, r, s);
      if Cong(u * t, u * w, m) {
        CancelInvertible(u, inv, t, w, m);
        CongSmall(t, w, m);
      }
    }
  }

  lemma FormTimes(u: int, t: int, m: nat, r: nat, s: int)
    requires 0 < m && Cong(s * r, 1, m)
    ensures Cong(Form(u, m, r) * t * s, u * t, m)
  {
    FormExported(u, m, r, s);
    CongMul(Form(u, m, r) * s, u, t, t, m);
    assert Form(u, m, r) * s * t == Form(u, m, r) * t * s;
  }

  lemma CancelInvertible(u: int, inv: int, t: int, w: int, m: nat)
    requires 0 < m && Cong(u * inv, 1, m) && Cong(u * t, u * w, m)
    ensures Cong(t, w, m)
  {
    CongMul(u * t, u * w, inv, inv, m);
    CongMul(u * inv, 1, t, t, m);
    CongMul(u * inv, 1, w, w, m);
    assert u * t * inv == u * inv * t && u * w * inv == u * inv * w;
  }

  /** The square of a narrow base comes out right just when the form of the square fits in the base's words. */
  lemma NarrowSquare(b: int, bits: nat, m: nat, r: nat, s: int, limit: nat)
    requires 0 < m && 0 < limit && 2 <= bits && Cong(s * r, 1, m) && Form(b, m, r) < limit
    ensures PowerAt(Form(b, m, r), 2, bits, Form(1, m, r), m, s, limit) == Form(b * b, m, r) <==>
            Form(b * b, m, r) < limit
  {
    Pow2Step(0);
    Pow2Step(1);
    assert Pow2(0) == 1;
    PowAtOne(b);
    assert Pow(b, 0) == 1 && Pow(b, 2) == b * Pow(b, 1);
    hide Form, Cong, PowerAt, Pow, Pow2;
    assert Fits(b, 1, m, r, limit);
    CongMod(1, m);
    NarrowPower(b, 2, 1, bits, m, r, s, limit, 1);
  }

  /** With a two-word modulus, a one-word base can go wrong: here r is 1 modulo m, and the power is a square. */
  lemma NarrowBaseFails(w: nat, bits: nat)
    requires 3 <= w && 2 <= bits
    ensures var m, r, b := w * w - 1, w * w, w - 1;
            && Cong(1 * r, 1, m) && Form(b, m, r) == b < w
            && PowerAt(b, 2, bits, Form(1, m, r), m, 1, w) != Form(b * b, m, r)
  {
    hide PowerAt;
    var r, b := w * w, w - 1;
    SquareOfPred(w);
    var m: nat := r - 1;
    FormModuloOne(b, m, r);
    FormModuloOne(b * b, m, r);
    CongFromMultiple(r, 1, 1, m);
    NarrowSquare(b, bits, m, r, 1, w);
  }

  lemma SquareOfPred(w: nat)
    requires 3 <= w
    ensures w < w * w - 1 && w <= (w - 1) * (w - 1) < w * w - 1
  {
    assert (w - 1) * (w - 1) == w * w - 2 * w + 1;
    MulLe(3, w, w);
  }

  lemma FormModuloOne(b: nat, m: nat, r: nat)
    requires 0 < m && r == m + 1 && b < m
    ensures Form(b, m, r) == b
  {
    assert b * r == b + b * m;
    ModAddMultiple(b, b, m);
    SmallMod(b, m);
  }

  lemma FormSmall(a: int, m: nat, r: nat)
    requires 0 < m
    ensures 0 <= Form(a, m, r) < m
  {
    CongMod(a * r, m);
  }

  /** out := out * y / r if bit is set: a multiplication and a selection. */
  method MulIf(mc: MontyContext, tmp: MpInt, out: MpInt, y: MpInt, bit: bool)
    requires mc.Valid() && Output(mc, out) && tmp.Valid() && y.Valid() && tmp.nw == 2 * mc.m.nw
    requires tmp.mem !in {out.mem, y.mem, mc.scratch.mem} && y.mem !in {out.mem, mc.scratch.mem}
    requires tmp.mem !in {mc.m.mem, mc.minusMinv.mem, mc.p0.mem, mc.p1.mem, mc.p2.mem}
    requires out.Value() < mc.M() && y.Value() < mc.M()
    modifies out.mem, tmp.mem, mc.scratch.mem
    ensures mc.Valid() && mc.M() == old(mc.M()) && mc.S() == old(mc.S())
    ensures out.Value() == (if bit then (old(out.Value()) * y.Value() * mc.S()) % mc.M() else old(out.Value())) < mc.M()
  {
    hide Nat, Base, MpInt.Words, MpInt.Value, InverseOfR;
    MulReduce(mc, tmp, out, y);
    ValueBound(mc.m);
    SmallMod(if bit then tmp.Value() else out.Value(), Base(out.nw));
    SelectInto(out, out, tmp, bit);
  }

  /** q := q^2 / r, in the words that q has. */
  method SquareInPlace(mc: MontyContext, tmp: MpInt, q: MpInt)
    requires mc.Valid() && tmp.Valid() && q.Valid() && tmp.nw == 2 * mc.m.nw
    requires tmp.mem !in {q.mem, mc.m.mem, mc.minusMinv.mem, mc.p0.mem, mc.p1.mem, mc.p2.mem, mc.scratch.mem}
    requires q.mem !in {mc.m.mem, mc.minusMinv.mem, mc.p0.mem, mc.p1.mem, mc.p2.mem, mc.scratch.mem}
    requires q.Value() < mc.M()
    modifies q.mem, tmp.mem, mc.scratch.mem
    ensures mc.Valid() && mc.M() == old(mc.M()) && mc.S() == old(mc.S())
    ensures q.Value() == (old(q.Value()) * old(q.Value()) * mc.S()) % mc.M() % Base(q.nw)
  {
    hide Nat, Base, MpInt.Words, MpInt.Value, InverseOfR;
    MulReduce(mc, tmp, q, q);
    CopyInto(q, tmp);
  }

  /** monty_pow, for a base in any number of words: if every residue fits in them, the form of b to any power. */
  method MontyPow(mc: MontyContext, base: MpInt, exponent: MpInt, ghost b: int) returns (out: MpInt)
    requires mc.Valid() && base.Valid() && exponent.Valid() && 0 < base.nw
    requires mc.scratch.mem != exponent.mem && mc.scratch.mem != base.mem
    requires base.Value() == mc.F(b)
    modifies mc.scratch.mem
    ensures mc.Valid() && fresh(out.mem) && out.Valid() && out.nw == mc.m.nw
    ensures var bits := if exponent.nw == 0 then 1 else MaxBits(exponent.nw);
            out.Value() == PowerAt(base.Value(), exponent.Value(), bits, mc.F(1), mc.M(), mc.S(), Base(base.nw)) < mc.M()
    ensures mc.M() <= Base(base.nw) ==> out.Value() == mc.F(Pow(b, exponent.Value()))
    ensures forall k: nat :: exponent.Value() < Pow2(k) && Fits(b, k, mc.M(), mc.R(), Base(base.nw)) ==>
              out.Value() == mc.F(Pow(b, exponent.Value()))
  {
    hide Nat, Base, Pow, Pow2, MpInt.Words, MpInt.Value, InverseOfR, Form, MaxBits, Bit, SquareAt, PowerAt, Fits;
    ghost var v, e, m, s, one, limit := base.Value(), exponent.Value(), mc.M(), mc.S(), mc.F(1), Base(base.nw);
    var square := Copy(base);
    out := Copy(mc.p0);
    FormOfOne(mc);
    FormBound(mc, b);
    FormBound(mc, 1);
    PowerStart(v, e, one, m, s, limit);
    WholeWords(exponent.nw);
    var tmp := MakeSized(mc.m.nw * 2);
    var i := 0;
    while true
      invariant 0 <= i && mc.Valid() && mc.M() == m && mc.S() == s && exponent.Value() == e
      invariant square.Value() == SquareAt(v, i, m, s, limit) < m
      invariant out.Value() == PowerAt(v, e, i, one, m, s, limit) < m
      invariant i == 0 || i < MaxBits(exponent.nw)
      decreases MaxBits(exponent.nw) - i
    {
      MulIf(mc, tmp, out, square, GetBit(exponent, i) == 1);
      AccumulatorStep(v, e, i, one, m, s, limit);
      i := i + 1;
      if i >= MaxBits(exponent.nw) {
        break;
      }
      SquareInPlace(mc, tmp, square);
      SquareStep(v, i, m, s, limit);
    }
    if m <= limit {
      WideResult(mc, exponent, b, i, limit);
    }
    forall k: nat | e < Pow2(k) && Fits(b, k, m, mc.R(), limit) ensures out.Value() == mc.F(Pow(b, e)) {
      NarrowResult(mc, exponent, b, k, i, limit);
    }
  }

  lemma NarrowResult(mc: MontyContext, exponent: MpInt, b: int, k: nat, i: nat, limit: nat)
    requires mc.Valid() && exponent.Valid() && MaxBits(exponent.nw) <= i && 0 < limit
    requires exponent.Value() < Pow2(k) && Fits(b, k, mc.M(), mc.R(), limit)
    ensures PowerAt(mc.F(b), exponent.Value(), i, mc.F(1), mc.M(), mc.S(), limit) == mc.F(Pow(b, exponent.Value()))
  {
    hide Nat, Base, Pow, Pow2, MpInt.Words, MpInt.Value, InverseOfR, Form, MaxBits, PowerAt;
    ValueBound(exponent);
    BaseIsPow2(exponent.nw);
    Pow2Le(MaxBits(exponent.nw), i);
    Inverse(mc);
    FittingResult(b, exponent.Value(), Min(k, i), i, mc.M(), mc.R(), mc.S(), limit);
  }

  lemma WideResult(mc: MontyContext, exponent: MpInt, b: int, i: nat, limit: nat)
    requires mc.Valid() && exponent.Valid() && MaxBits(exponent.nw) <= i && mc.M() <= limit
    ensures PowerAt(mc.F(b), exponent.Value(), i, mc.F(1), mc.M(), mc.S(), limit) == mc.F(Pow(b, exponent.Value()))
  {
    hide Nat, Base, Pow, Pow2, MpInt.Words, MpInt.Value, InverseOfR, Form, MaxBits, PowerAt;
    AllBits(exponent, i);
    Inverse(mc);
    WidePowers(b, exponent.Value(), i, mc.M(), mc.R(), mc.S(), limit);
  }

  lemma PowerStart(v: nat, e: nat, one: nat, m: nat, s: int, limit: nat)
    requires 0 < m && 0 < limit
    ensures SquareAt(v, 0, m, s, limit) == v && PowerAt(v, e, 0, one, m, s, limit) == one
  {
  }

  lemma SquareStep(v: nat, i: nat, m: nat, s: int, limit: nat)
    requires 0 < m && 0 < limit && 0 < i
    ensures var q := SquareAt(v, i - 1, m, s, limit);
            SquareAt(v, i, m, s, limit) == (q * q * s) % m % limit < m
  {
    var q := SquareAt(v, i - 1, m, s, limit);
    MaskFits((q * q * s) % m, limit);
  }

  lemma AccumulatorStep(v: nat, e: nat, i: nat, one: nat, m: nat, s: int, limit: nat)
    requires 0 < m && 0 < limit && PowerAt(v, e, i, one, m, s, limit) < m
    ensures PowerAt(v, e, i + 1, one, m, s, limit) ==
            (if Bit(e, i) == 1 then (PowerAt(v, e, i, one, m, s, limit) * SquareAt(v, i, m, s, limit) * s) % m
             else PowerAt(v, e, i, one, m, s, limit))
    ensures PowerAt(v, e, i + 1, one, m, s, limit) < m
  {
  }

  lemma PowStart(b: int, e: nat)
    ensures Pow(b, Pow2(0)) == b && Pow(b, e % Pow2(0)) == 1
  {
    assert Pow2(0) == 1;
    DivModUnique(e, 1, e, 0);
    assert Pow(b, 1) == b * Pow(b, 0);
  }

  lemma PowStep(b: int, e: nat, i: nat)
    ensures Pow(b, Pow2(i)) * Pow(b, Pow2(i)) == Pow(b, Pow2(i + 1))
    ensures Pow(b, e % Pow2(i + 1)) ==
            if Bit(e, i) == 1 then Pow(b, e % Pow2(i)) * Pow(b, Pow2(i)) else Pow(b, e % Pow2(i))
  {
    hide Pow, Pow2;
    Pow2Step(i);
    PowAdd(b, Pow2(i), Pow2(i));
    LowBitsStep(e, i);
    PowAdd(b, e % Pow2(i), Pow2(i));
  }

  lemma AllBits(x: MpInt, i: nat)
    requires x.Valid() && MaxBits(x.nw) <= i
    ensures x.Value() % Pow2(i) == x.Value()
  {
    hide Nat, Base, Pow2, MpInt.Words, MpInt.Value, MaxBits;
    ValueBound(x);
    BaseIsPow2(x.nw);
    Pow2Le(MaxBits(x.nw), i);
    SmallMod(x.Value(), Pow2(i));
  }

  /** mp_modpow: for any odd modulus, and any base and exponent. */
  method ModPow(base: MpInt, exponent: MpInt, modulus: MpInt) returns (out: MpInt)
    requires base.Valid() && exponent.Valid() && modulus.Valid() && 0 < modulus.nw && modulus.Value() % 2 == 1
    ensures fresh(out.mem) && out.Valid() && out.nw == modulus.nw
    ensures out.Value() == Pow(base.Value(), exponent.Value()) % modulus.Value()
  {
    hide Nat, Base, Pow, MpInt.Words, MpInt.Value, InverseOfR, Form, SquareAt, PowerAt, MaxBits;
    var mc := MontyNew(modulus);
    var mBase := MontyImport(mc, base);
    FormBound(mc, 0);
    var mOut := MontyPow(mc, mBase, exponent, base.Value());
    out := MakeSized(modulus.nw);
    ghost var p := Pow(base.Value(), exponent.Value());
    ExportForm(mc, p);
    MontyExportInto(mc, out, mOut);
  }

  lemma ExportForm(mc: MontyContext, a: int)
    requires mc.Valid()
    ensures mc.F(a) < mc.M() * mc.R()
    ensures (mc.F(a) * mc.S()) % mc.M() == a % mc.M()
  {
    hide Nat, Base, MpInt.Words, MpInt.Value, InverseOfR, Form;
    Inverse(mc);
    FormExported(a, mc.M(), mc.R(), mc.S());
    FormBound(mc, a);
    MulLe(1, mc.R(), mc.M());
  }

  // -------------------------------------------------------------------- inversion

  /** monty_invert: the form of the inverse. */
  method MontyInvert(mc: MontyContext, x: MpInt, ghost a: int, ghost inv: int) returns (r: MpInt)
    requires mc.Valid() && x.Valid() && x.mem != mc.scratch.mem
    requires x.Value() == mc.F(a) && Cong(a * inv, 1, mc.M())
    modifies mc.scratch.mem
    ensures mc.Valid() && fresh(r.mem) && r.Valid() && r.nw == mc.m.nw
    ensures r.Value() == mc.F(inv)
  {
    hide Nat, Base, MpInt.Words, MpInt.Value, InverseOfR, Form;
    var tmp, d := Invert(x, mc.m);
    CoprimeToModulus(mc, a, inv, d);
    InvertedForm(mc, tmp.Value(), a, inv);
    r := MontyMul(mc, tmp, mc.p2);
  }

  /** A number with an inverse modulo m has no divisor in common with m but 1, and nor has its form. */
  lemma CoprimeToModulus(mc: MontyContext, a: int, inv: int, d: nat)
    requires mc.Valid() && Cong(a * inv, 1, mc.M()) && Stein.IsGcd(d, mc.F(a), mc.M())
    ensures d == 1
  {
    hide Nat, Base, MpInt.Words, MpInt.Value, InverseOfR;
    var m, r, s := mc.M(), mc.R(), mc.S();
    Inverse(mc);
    // F(a) * s * inv == 1 modulo m, so d divides 1
    FormExported(a, m, r, s);
    CongMul(mc.F(a) * s, a, inv, inv, m);
    var k := CongToMultiple(mc.F(a) * s * inv, 1, m);
    MultipleMod(1, d);
    assert Stein.Divides(d, d);
    assert Stein.Divides(d, mc.F(a)) && Stein.Divides(d, m);
    MulAssoc(mc.F(a), s, inv);
    Stein.DividesMultiple(d, mc.F(a), s * inv);
    Stein.DividesMultiple(d, m, k);
    Stein.DividesSum(d, 1, k * m);
    DividesOne(d);
  }

  lemma DividesOne(d: nat)
    requires 0 < d && Stein.Divides(d, 1)
    ensures d == 1
  {
    if 1 < d { SmallMod(1, d); }
  }

  lemma InvertedForm(mc: MontyContext, t: nat, a: int, inv: int)
    requires mc.Valid() && Cong(a * inv, 1, mc.M()) && Cong(mc.F(a) * t, 1, mc.M()) && t <= mc.M()
    ensures (t * mc.p2.Value() * mc.S()) % mc.M() == mc.F(inv)
    ensures t * mc.p2.Value() < mc.M() * mc.R()
  {
    hide Nat, Base, MpInt.Words, MpInt.Value, InverseOfR, Form;
    var m, r, s := mc.M(), mc.R(), mc.S();
    Inverse(mc);
    var p := mc.p2.Value();
    PowersOfR(mc);
    assert t * p < m * r by {
      MulLe(t, m, p);
      MulLt(p, r, m);
    }
    CubeForm(t, p, a, inv, m, r, s);
  }

  lemma PowersOfR(mc: MontyContext)
    requires mc.Valid()
    ensures Cong(mc.p2.Value(), mc.R() * (mc.R() * mc.R()), mc.M()) && mc.p2.Value() < mc.M() < mc.R()
  {
    hide Nat, Base, MpInt.Words;
    var m, r := mc.M(), mc.R();
    CongMod(r, m);
    CongMul(r % m, r, r % m, r, m);
    CongMod(r % m * (r % m), m);
    CongMul(r % m, r, (r % m * (r % m)) % m, r * r, m);
    CongMod(mc.p0.Value() * mc.p1.Value(), m);
    ValueBound(mc.m);
  }

  /** t is 1/(a r), so t r^3 / r is r/a. */
  lemma CubeForm(t: nat, p: nat, a: int, inv: int, m: nat, r: nat, s: int)
    requires 0 < m && Cong(s * r, 1, m) && Cong(p, r * (r * r), m) && Cong(a * inv, 1, m)
    requires Cong(Form(a, m, r) * t, 1, m)
    ensures (t * p * s) % m == Form(inv, m, r)
  {
    // t * p * s == t * r * r
    CongMul(t, t, p, r * (r * r), m);
    CongMul(t * p, t * (r * (r * r)), s, s, m);
    assert t * (r * (r * r)) * s == t * r * r * (s * r) by { CubeShuffle(t, r, s); }
    CongMul(t * r * r, t * r * r, s * r, 1, m);
    // t * r == inv
    CongMod(a * r, m);
    CongMul(Form(a, m, r), a * r, t, t, m);
    CongMul(a * r * t, 1, inv, inv, m);
    assert a * r * t * inv == t * r * (a * inv) by { MulAssoc(a, r, t); MulAssoc(r * t, a, inv); }
    CongMul(t * r, t * r, a * inv, 1, m);
    CongMul(t * r, inv, r, r, m);
  }

  lemma CubeShuffle(t: int, r: int, s: int)
    ensures t * (r * (r * r)) * s == t * r * r * (s * r)
  {
    MulAssoc(t, r, r * r);
    MulAssoc(t * r, r, r);
    MulAssoc(t * r * r, r, s);
  }
}
