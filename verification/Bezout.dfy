/**
 mp_bezout_into and mp_invert: the greatest common divisor of two numbers that are
 not both even, and minimal Bezout coefficients for it, in a fixed number of steps.
 */
module Bezout {
  import opened Arithmetic
  import opened Words
  import opened MpInts
  import opened AddSub
  import opened Shifts
  import opened Stein

  // ------------------------------------------------------------------ setting a bit

  /** n with bit i set to v. */
  function WithBit(n: nat, i: nat, v: nat): int {
    n + (v - Bit(n, i)) * Pow2(i)
  }

  lemma WithBitParts(n: nat, i: nat, v: nat)
    requires v <= 1
    ensures WithBit(n, i, v) == (n / Pow2(i) / 2 * 2 + v) * Pow2(i) + n % Pow2(i)
    ensures 0 <= WithBit(n, i, v)
  {
    hide Pow2;
    DivNonNeg(n, Pow2(i));
    Replaced(n, Pow2(i), n / Pow2(i), Bit(n, i), v);
  }

  lemma Replaced(n: nat, p: nat, y: nat, b: nat, v: nat)
    requires 0 < p && y == n / p && b == y % 2
    ensures n + (v - b) * p == (y / 2 * 2 + v) * p + n % p
    ensures 0 <= n + (v - b) * p
  {
    assert n == y * p + n % p;
    var h := y / 2 * 2;
    assert y == h + b && 0 <= h;
    Distribute(p, y, v - b);
    Distribute(p, h, v);
    MulLe(0, h + v, p);
  }

  /** Setting bit i changes that bit and no other. */
  lemma BitsOfWithBit(n: nat, i: nat, v: nat, j: nat)
    requires v <= 1
    ensures 0 <= WithBit(n, i, v)
    ensures Bit(WithBit(n, i, v), j) == if j == i then v else Bit(n, j)
  {
    hide Pow2, WithBit;
    WithBitParts(n, i, v);
    var p, y := Pow2(i), n / Pow2(i);
    DivNonNeg(n, p);
    DivNonNeg(y, 2);
    var m, h := WithBit(n, i, v), y / 2;
    DivModUnique(m, p, h * 2 + v, n % p);
    DivModUnique(h * 2 + v, 2, h, v);
    if j > i {
      HigherBit(m, i, j);
      HigherBit(n, i, j);
    } else if j < i {
      LowerBit(m, i, j);
      LowerBit(n, i, j);
    }
  }

  lemma HigherBit(n: nat, i: nat, j: nat)
    requires i < j
    ensures 0 <= n / Pow2(i) / 2
    ensures Bit(n, j) == Bit(n / Pow2(i) / 2, j - i - 1)
  {
    hide Pow2;
    DivNonNeg(n, Pow2(i));
    DivNonNeg(n / Pow2(i), 2);
    Pow2Step(i);
    DivDiv(n, Pow2(i), 2);
    Pow2Add(i + 1, j - i - 1);
    DivDiv(n, Pow2(i + 1), Pow2(j - i - 1));
  }

  lemma LowerBit(n: nat, i: nat, j: nat)
    requires j < i
    ensures Bit(n, j) == Bit(n % Pow2(i), j)
  {
    hide Pow2;
    var p, q, x := Pow2(j), Pow2(i - j - 1), n % Pow2(i);
    Pow2Add(j + 1, i - j - 1);
    Pow2Step(j);
    assert Pow2(i) == q * 2 * p;
    var k := n / Pow2(i);
    assert n == x + k * (q * 2) * p by { MulAssoc(k, q * 2, p); }
    ModAddMultiple(x, k * (q * 2), p);
    ModAddMultiple(x / p, k * q, 2);
    MulAssoc(k, q, 2);
  }

  /** mp_set_bit. */
  method SetBit(x: MpInt, bit: nat, val: bool)
    requires x.Valid() && bit < MaxBits(x.nw)
    modifies x.mem
    ensures OnlyWrites(x)
    ensures x.Value() == WithBit(old(x.Value()), bit, if val then 1 else 0)
  {
    hide Nat, Base, Pow2, MaxBits, Bit;
    ghost var s := x.Words();
    var word, shift := bit / BIGNUM_INT_BITS, bit % BIGNUM_INT_BITS;
    WordIndex(bit, x.nw);
    var w := x.WordOf(word);
    var v := if val then 1 else 0;
    WordWithBit(w, shift, v);
    DivNonNeg(w, Pow2(shift));
    var w' := w + (v - w / Pow2(shift) % 2) * Pow2(shift);
    SetWord(x, word, w');
    NatUpdate(s, word, w');
    BitOfWord(s, bit);
    SplitShift(0, bit);
    MulAssoc(v - w / Pow2(shift) % 2, Pow2(shift), Base(word));
  }

  lemma WordIndex(bit: nat, nw: nat)
    requires bit < MaxBits(nw)
    ensures 0 <= bit / BIGNUM_INT_BITS < nw
  {
    DivNonNeg(bit, BIGNUM_INT_BITS);
    DivLt(bit, BIGNUM_INT_BITS, nw);
  }

  /** Setting a bit of a word leaves a word. */
  lemma WordWithBit(w: Word, o: nat, v: nat)
    requires o < BIGNUM_INT_BITS && v <= 1
    ensures 0 <= w + (v - w / Pow2(o) % 2) * Pow2(o) < BASE
  {
    hide Pow2;
    var p, q := Pow2(o), Pow2(BIGNUM_INT_BITS - o - 1);
    WithBitParts(w, o, v);
    BaseSplit(o + 1);
    Pow2Step(o);
    WithBitBound(w, p, q, v);
  }

  lemma WithBitBound(w: nat, p: nat, q: nat, v: nat)
    requires 0 < p && w < 2 * p * q && v <= 1
    ensures (w / p / 2 * 2 + v) * p + w % p < 2 * p * q
  {
    var y := w / p;
    MulAssoc(2, q, p);
    DivLt(w, p, 2 * q);
    MulLe(y / 2 * 2 + v + 1, 2 * q, p);
    Distribute(p, y / 2 * 2 + v, 1);
  }

  // ------------------------------------------------------------------ the reduction

  lemma Parity(x: MpInt)
    requires x.Valid()
    ensures GetBit(x, 0) == x.Value() % 2
  {
    hide Nat;
    Pow2Step(0);
    DivModUnique(x.Value(), 1, x.Value(), 0);
  }

  /** Not both even, unless both are 0. */
  ghost predicate Reducible(a: nat, b: nat) {
    OneOdd(a, b) || (a == 0 && b == 0)
  }

  /** One turn of the reduction loop. */
  method ReduceStep(a: MpInt, b: MpInt) returns (s: Step)
    requires a.Valid() && b.Valid() && a.nw == b.nw && a.mem != b.mem && Reducible(a.Value(), b.Value())
    modifies a.mem, b.mem
    ensures s == StepOf(old(a.Value()), old(b.Value()))
    ensures OneOdd(old(a.Value()), old(b.Value())) ==> (a.Value(), b.Value()) == Reduced(old(a.Value()), old(b.Value()))
    ensures old(a.Value()) == old(b.Value()) == 0 ==> a.Value() == b.Value() == 0
  {
    hide Nat, Base, Pow2, MpInt.Words;
    ghost var va, vb := a.Value(), b.Value();
    Parity(a);
    Parity(b);
    ValueBound(a);
    ValueBound(b);
    var swapIfBothOdd := CmpHs(b, a);
    var swapIfOneEven := GetBit(a, 0) == 1;
    var bothOdd := GetBit(a, 0) == 1 && GetBit(b, 0) == 1;
    var swap := if bothOdd then swapIfBothOdd else swapIfOneEven;
    s := Step(bothOdd, swap);
    CondSwap(a, b, swap);
    ghost var x, y := a.Value(), b.Value();
    SmallMod(if bothOdd then x - y else x, Base(a.nw));
    CondSubInto(a, a, b, bothOdd);
    Pow2Step(0);
    HalfFits(a.Value(), a.nw);
    RshiftFixedInto(a, a, 1);
  }

  lemma HalfFits(x: nat, n: nat)
    requires x < Base(n)
    ensures 0 <= x / 2 && (x / 2) % Base(n) == x / 2
  {
    hide Base;
    DivNonNeg(x, 2);
    SmallMod(x / 2, Base(n));
  }

  /** The step taken from the pair after k steps; nothing is done to two zeros. */
  ghost function TakenAt(a: nat, b: nat, k: nat): Step
    requires Reducible(a, b)
  {
    if OneOdd(a, b) then StepAt(a, b, k) else Step(false, false)
  }

  /** The record holds step k of the reduction of (a, b), in bits 2k and 2k + 1. */
  ghost predicate Recorded(rec: nat, a: nat, b: nat, k: nat)
    requires Reducible(a, b)
  {
    && Bit(rec, 2 * k) == (if TakenAt(a, b, k).bothOdd then 1 else 0)
    && Bit(rec, 2 * k + 1) == (if TakenAt(a, b, k).swap then 1 else 0)
  }

  /** Record step k. */
  method RecordStep(record: MpInt, k: nat, s: Step, ghost a: nat, ghost b: nat)
    requires record.Valid() && 2 * k + 2 <= MaxBits(record.nw) && Reducible(a, b) && s == TakenAt(a, b, k)
    requires forall j :: 0 <= j < k ==> Recorded(record.Value(), a, b, j)
    modifies record.mem
    ensures forall j :: 0 <= j <= k ==> Recorded(record.Value(), a, b, j)
  {
    hide Nat, Pow2, MpInt.Words, MpInt.Value, WithBit, TakenAt, Reducible, Bit;
    ghost var rec := record.Value();
    SetBit(record, 2 * k, s.bothOdd);
    ghost var rec1 := record.Value();
    SetBit(record, 2 * k + 1, s.swap);
    ghost var v0, v1 := if s.bothOdd then 1 else 0, if s.swap then 1 else 0;
    BitsOfWithBit(rec, 2 * k, v0, 2 * k);
    BitsOfWithBit(rec1, 2 * k + 1, v1, 2 * k);
    BitsOfWithBit(rec1, 2 * k + 1, v1, 2 * k + 1);
    forall j | 0 <= j < k ensures Recorded(record.Value(), a, b, j) {
      assert Recorded(rec, a, b, j);
      BitsOfWithBit(rec, 2 * k, v0, 2 * j);
      BitsOfWithBit(rec, 2 * k, v0, 2 * j + 1);
      BitsOfWithBit(rec1, 2 * k + 1, v1, 2 * j);
      BitsOfWithBit(rec1, 2 * k + 1, v1, 2 * j + 1);
    }
  }

  /** x and y are what k steps make of a and b. */
  ghost predicate Arrived(x: nat, y: nat, a: nat, b: nat, k: nat)
    requires Reducible(a, b)
  {
    if OneOdd(a, b) then (x, y) == After(a, b, k) else x == y == 0
  }

  lemma ArrivedReducible(x: nat, y: nat, a: nat, b: nat, k: nat)
    requires Reducible(a, b) && Arrived(x, y, a, b, k)
    ensures Reducible(x, y) && StepOf(x, y) == TakenAt(a, b, k)
    ensures OneOdd(x, y) <==> OneOdd(a, b)
    ensures OneOdd(a, b) ==> Reduced(x, y) == After(a, b, k + 1)
  {
  }

  lemma ArrivedAtStart(a: nat, b: nat)
    requires Reducible(a, b)
    ensures Arrived(a, b, a, b, 0)
  {
  }

  /** The reduction loop. */
  method ReduceAll(a: MpInt, b: MpInt, record: MpInt, steps: nat)
    requires a.Valid() && b.Valid() && record.Valid() && a.nw == b.nw
    requires a.mem != b.mem && a.mem != record.mem && b.mem != record.mem
    requires Reducible(a.Value(), b.Value()) && 2 * steps <= MaxBits(record.nw)
    modifies a.mem, b.mem, record.mem
    ensures Arrived(a.Value(), b.Value(), old(a.Value()), old(b.Value()), steps)
    ensures forall k :: 0 <= k < steps ==> Recorded(record.Value(), old(a.Value()), old(b.Value()), k)
  {
    hide Nat, MpInt.Words, MpInt.Value, StepOf, Reduced, Recorded, MaxBits, After, TakenAt;
    ghost var va, vb := a.Value(), b.Value();
    var step := 0;
    ArrivedAtStart(va, vb);
    while step < steps
      invariant 0 <= step <= steps
      invariant Arrived(a.Value(), b.Value(), va, vb, step)
      invariant forall k :: 0 <= k < step ==> Recorded(record.Value(), va, vb, k)
    {
      ArrivedReducible(a.Value(), b.Value(), va, vb, step);
      var s := ReduceStep(a, b);
      RecordStep(record, step, s, va, vb);
      step := step + 1;
    }
  }

  // ----------------------------------------------------------------- the unwinding

  /** The registers of the unwinding hold the state t; the coefficients have a word to spare. */
  ghost predicate Holds(a: MpInt, b: MpInt, ac: MpInt, bc: MpInt, t: Unwinding)
    reads a.mem, b.mem, ac.mem, bc.mem
  {
    && a.Valid() && b.Valid() && ac.Valid() && bc.Valid()
    && a.nw == b.nw && ac.nw == bc.nw == a.nw + 1
    && a.mem != b.mem && a.mem != ac.mem && a.mem != bc.mem && b.mem != ac.mem && b.mem != bc.mem && ac.mem != bc.mem
    && a.Value() == t.u && b.Value() == t.v && ac.Value() == t.ac && bc.Value() == t.bc
  }

  /** No sum in an unwinding step outgrows its register. */
  ghost predicate StepFits(t: Unwinding, s: Step, n: nat) {
    && (t.ac + t.v) % Base(n + 1) == t.ac + t.v && t.ac % Base(n + 1) == t.ac
    && (t.bc + t.u) % Base(n + 1) == t.bc + t.u && t.bc % Base(n + 1) == t.bc
    && var h := Unhalved(s, t);
       h.u < Base(n) && (2 * t.u) % Base(n) == 2 * t.u && h.u % Base(n) == h.u
       && h.ac % Base(n + 1) == h.ac && h.bc % Base(n + 1) == h.bc
  }

  /** None does if the result fits. */
  lemma UnwindFits(t: Unwinding, s: Step, n: nat)
    requires t.Good() && t.u < Base(n) && t.v < Base(n)
    requires Undone(s, t.u, t.v).0 < Base(n) && Undone(s, t.u, t.v).1 < Base(n)
    ensures StepFits(t, s, n)
  {
    hide Base;
    BaseStep(n);
    BaseIsBig();
    MulLe(4, BASE, Base(n));
    var h := Unhalved(s, t);
    SmallMod(t.ac + t.v, Base(n + 1));
    SmallMod(t.ac, Base(n + 1));
    SmallMod(t.bc + t.u, Base(n + 1));
    SmallMod(t.bc, Base(n + 1));
    SmallMod(2 * t.u, Base(n));
    SmallMod(h.u, Base(n));
    SmallMod(h.ac, Base(n + 1));
    SmallMod(h.bc, Base(n + 1));
  }

  /** The first half of a turn of the unwinding loop: make ac even, and halve it. */
  method HalveCoefficient(a: MpInt, b: MpInt, ac: MpInt, bc: MpInt, ghost t: Unwinding)
    requires Holds(a, b, ac, bc, t)
    requires var n := ac.nw;
             && (t.ac + t.v) % Base(n) == t.ac + t.v && t.ac % Base(n) == t.ac
             && (t.bc + t.u) % Base(n) == t.bc + t.u && t.bc % Base(n) == t.bc
    modifies ac.mem, bc.mem
    ensures Holds(a, b, ac, bc, Unwinding(t.u, t.v, (if t.ac % 2 == 1 then t.ac + t.v else t.ac) / 2,
                                          if t.ac % 2 == 1 then t.bc + t.u else t.bc, t.minus))
  {
    hide Nat, Base, Pow2, MpInt.Words, MpInt.Value;
    Parity(ac);
    var adjust := GetBit(ac, 0) == 1;
    CondAddInto(ac, ac, b, adjust);
    CondAddInto(bc, bc, a, adjust);
    ValueBound(ac);
    HalfFits(ac.Value(), ac.nw);
    Pow2Step(0);
    RshiftFixedInto(ac, ac, 1);
  }

  /** One turn of the unwinding loop. */
  method UnwindOne(a: MpInt, b: MpInt, ac: MpInt, bc: MpInt, s: Step, ghost t: Unwinding)
    requires Holds(a, b, ac, bc, t) && StepFits(t, s, a.nw)
    modifies a.mem, b.mem, ac.mem, bc.mem
    ensures Holds(a, b, ac, bc, Unwound(s, t))
  {
    hide Nat, Base, Pow2, MpInt.Words, MpInt.Value;
    HalveCoefficient(a, b, ac, bc, t);
    ghost var ac1 := if t.ac % 2 == 1 then t.ac + t.v else t.ac;
    ghost var t1 := Unwinding(t.u, t.v, ac1 / 2, if t.ac % 2 == 1 then t.bc + t.u else t.bc, t.minus);
    UndoSubtraction(a, b, ac, bc, s, t1);
    CondSwapValues(a, b, s.swap);
    CondSwapValues(ac, bc, s.swap);
  }

  /** mp_cond_swap, on the numbers. */
  method CondSwapValues(x: MpInt, y: MpInt, swap: bool)
    requires x.Valid() && y.Valid() && x.nw == y.nw && x.mem != y.mem
    modifies x.mem, y.mem
    ensures x.Value() == if swap then old(y.Value()) else old(x.Value())
    ensures y.Value() == if swap then old(x.Value()) else old(y.Value())
  {
    hide Nat, MpInt.Words;
    CondSwap(x, y, swap);
  }

  /** The second half: add ac to bc, and b to twice a, if the step had subtracted. */
  method UndoSubtraction(a: MpInt, b: MpInt, ac: MpInt, bc: MpInt, s: Step, ghost t: Unwinding)
    requires Holds(a, b, ac, bc, t)
    requires var u, c := if s.bothOdd then 2 * t.u + t.v else 2 * t.u, if s.bothOdd then t.bc + t.ac else t.bc;
             (2 * t.u) % Base(a.nw) == 2 * t.u && u % Base(a.nw) == u && c % Base(bc.nw) == c
    modifies a.mem, bc.mem
    ensures Holds(a, b, ac, bc, Unwinding(if s.bothOdd then 2 * t.u + t.v else 2 * t.u, t.v, t.ac,
                                          if s.bothOdd then t.bc + t.ac else t.bc, t.minus))
  {
    hide Nat, Base, Pow2, MpInt.Words, MpInt.Value;
    CondAddInto(bc, bc, ac, s.bothOdd);
    Pow2Step(0);
    LshiftFixedInto(a, a, 1);
    CondAddInto(a, a, b, s.bothOdd);
  }

  /** The unwinding loop. */
  method UnwindAll(a: MpInt, b: MpInt, ac: MpInt, bc: MpInt, record: MpInt, steps: nat, ghost va: nat, ghost vb: nat, ghost d: nat)
    returns (minus: bool)
    requires Reducible(va, vb) && (OneOdd(va, vb) ==> 0 < d && After(va, vb, steps) == (0, d))
    requires Holds(a, b, ac, bc, UnwindingAt(va, vb, steps, steps)) && va < Base(a.nw) && vb < Base(a.nw)
    requires record.Valid() && record.mem !in {a.mem, b.mem, ac.mem, bc.mem}
    requires forall k :: 0 <= k < steps ==> Recorded(record.Value(), va, vb, k)
    modifies a.mem, b.mem, ac.mem, bc.mem
    ensures Holds(a, b, ac, bc, UnwindingAt(va, vb, steps, 0))
    ensures minus == UnwindingAt(va, vb, steps, 0).minus
  {
    hide Nat, Base, Pow2, MpInt.Words, MpInt.Value, After, TakenAt, Unwound, Bit, Holds, UnwindingAt, StepFits;
    ghost var rec := record.Value();
    UnwindInit(va, vb, steps);
    minus := LowBitIs(a, b, ac, bc, UnwindingAt(va, vb, steps, steps));
    var step := steps;
    while 0 < step
      invariant 0 <= step <= steps && record.Value() == rec
      invariant Holds(a, b, ac, bc, UnwindingAt(va, vb, steps, step))
      invariant minus == UnwindingAt(va, vb, steps, step).minus
    {
      step := step - 1;
      assert Recorded(rec, va, vb, step);
      var s := Step(GetBit(record, step * 2) == 1, GetBit(record, step * 2 + 1) == 1);
      ghost var t := UnwindingAt(va, vb, steps, step + 1);
      UnwindReady(va, vb, steps, step, d, a.nw);
      UnwindOne(a, b, ac, bc, s, t);
      UnwindSign(s, t);
      minus := minus != s.swap;
    }
  }

  /** The state of the unwinding when all but the first k of K steps are undone; for two zeros it is all 0. */
  ghost function UnwindingAt(a: nat, b: nat, K: nat, k: nat): Unwinding
    requires Reducible(a, b) && k <= K
  {
    if OneOdd(a, b) then UnwoundTo(a, b, K, k) else Unwinding(0, 0, 0, 0, false)
  }

  lemma UnwindInit(a: nat, b: nat, K: nat)
    requires Reducible(a, b)
    ensures var t := UnwindingAt(a, b, K, K); t.minus <==> t.v % 2 == 1
  {
  }

  /** The sign starts as the low bit of b. */
  method LowBitIs(a: MpInt, b: MpInt, ac: MpInt, bc: MpInt, ghost t: Unwinding) returns (minus: bool)
    requires Holds(a, b, ac, bc, t) && (t.minus <==> t.v % 2 == 1)
    ensures minus == t.minus
  {
    Parity(b);
    minus := GetBit(b, 0) == 1;
  }

  lemma UnwindSign(s: Step, t: Unwinding)
    ensures Unwound(s, t).minus == (t.minus != s.swap)
  {
  }

  lemma UnwindReady(a: nat, b: nat, K: nat, k: nat, d: nat, nw: nat)
    requires Reducible(a, b) && k < K && a < Base(nw) && b < Base(nw)
    requires OneOdd(a, b) ==> 0 < d && After(a, b, K) == (0, d)
    ensures var t, s := UnwindingAt(a, b, K, k + 1), TakenAt(a, b, k);
            StepFits(t, s, nw) && UnwindingAt(a, b, K, k) == Unwound(s, t)
  {
    hide After, Unwound, Undone, Base, Unwinding.Good;
    if OneOdd(a, b) {
      var t, s, n := UnwoundTo(a, b, K, k + 1), StepAt(a, b, k), Base(nw);
      UnwoundGood(a, b, K, k + 1, d);
      UnwoundBound(a, b, K, k, d, n);
      UnwoundBound(a, b, K, k + 1, d, n);
      UnwoundIsUndone(s, t);
      UnwindFits(t, s, nw);
    } else {
      ZerosFit(nw);
    }
  }

  lemma ZerosFit(nw: nat)
    ensures var t, s := Unwinding(0, 0, 0, 0, false), Step(false, false); StepFits(t, s, nw) && Unwound(s, t) == t
  {
    hide Base;
    SmallMod(0, Base(nw));
    SmallMod(0, Base(nw + 1));
  }

  // ------------------------------------------------------------------- the entry points

  lemma StepsSuffice(a: nat, b: nat, nw: nat, steps: nat)
    requires OneOdd(a, b) && a < Base(nw) && b < Base(nw) && 0 < nw && steps == 2 * MaxBits(nw)
    ensures After(a, b, steps).0 == 0 && 0 < After(a, b, steps).1 && IsGcd(After(a, b, steps).1, a, b)
  {
    hide Base, Pow2, After, MaxBits;
    BaseIsPow2(nw);
    MaxBitsLe(1, nw);
    SomeBits();
    RunEnds(a, b, MaxBits(nw));
  }

  lemma SomeBits()
    ensures 0 < MaxBits(1)
  {
  }

  /** The reduction half of mp_bezout_into: a and b become 0 and the greatest common divisor. */
  method Reduction(aIn: MpInt, bIn: MpInt) returns (a: MpInt, b: MpInt, record: MpInt, steps: nat)
    requires aIn.Valid() && bIn.Valid() && Reducible(aIn.Value(), bIn.Value())
    ensures fresh(a.mem) && fresh(b.mem) && fresh(record.mem) && a.Valid() && b.Valid() && record.Valid()
    ensures a.mem != b.mem && a.mem != record.mem && b.mem != record.mem
    ensures 0 < steps && a.nw == b.nw == Max(1, Max(aIn.nw, bIn.nw)) && aIn.Value() < Base(a.nw) && bIn.Value() < Base(a.nw)
    ensures Arrived(a.Value(), b.Value(), aIn.Value(), bIn.Value(), steps)
    ensures a.Value() == 0 && GcdOf(b.Value(), aIn.Value(), bIn.Value())
    ensures forall k :: 0 <= k < steps ==> Recorded(record.Value(), aIn.Value(), bIn.Value(), k)
  {
    hide Nat, Base, Pow2, MpInt.Words, MpInt.Value, After, MaxBits, WordsForBits, Recorded, IsGcd;
    var nw := Max(1, Max(aIn.nw, bIn.nw));
    a := MakeSized(nw);
    b := MakeSized(nw);
    CopyInto(a, aIn);
    CopyInto(b, bIn);
    ValueBound(a);
    ValueBound(b);
    steps := 2 * MaxBits(nw);
    MaxBitsLe(1, nw);
    SomeBits();
    WordsForBitsFit(steps * 2);
    record := MakeSized(WordsForBits(steps * 2));
    if OneOdd(a.Value(), b.Value()) {
      StepsSuffice(a.Value(), b.Value(), nw, steps);
    }
    ReduceAll(a, b, record, steps);
  }

  /** The words that mp_bezout_into works in. */
  function RegisterWords(aw: nat, bw: nat): nat { Max(1, Max(aw, bw)) }

  /** mp_bezout_into. The outputs are cut to their sizes; d, A and B are the full values. */
  method BezoutInto(aOut: MpInt, bOut: MpInt, gcdOut: MpInt, aIn: MpInt, bIn: MpInt)
    returns (ghost d: nat, ghost A: nat, ghost B: nat)
    requires aIn.Valid() && bIn.Valid() && Reducible(aIn.Value(), bIn.Value())
    requires aOut.Valid() && bOut.Valid() && gcdOut.Valid()
    requires aOut.mem != bOut.mem && aOut.mem != gcdOut.mem && bOut.mem != gcdOut.mem
    modifies aOut.mem, bOut.mem, gcdOut.mem
    ensures GcdOf(d, old(aIn.Value()), old(bIn.Value()))
    ensures Outcome(A, B, old(aIn.Value()), old(bIn.Value()), d, Base(RegisterWords(aIn.nw, bIn.nw)))
    ensures gcdOut.Value() == d % Base(gcdOut.nw)
    ensures aOut.Value() == A % Base(aOut.nw) && bOut.Value() == B % Base(bOut.nw)
  {
    hide Nat, Base, Pow2, MpInt.Words, MpInt.Value, After, Recorded, Minimal, GcdOf, Holds, Arrived, Outcome, UnwindingAt;
    ghost var va, vb := aIn.Value(), bIn.Value();
    var a, b, record, steps := Reduction(aIn, bIn);
    d := b.Value();
    AddInto(gcdOut, a, b);
    ArrivedIs(a.Value(), d, va, vb, steps);
    var ac, bc := StartUnwinding(a, b, va, vb, steps);
    var minus := UnwindAll(a, b, ac, bc, record, steps, va, vb, d);
    ghost var t := UnwindingAt(va, vb, steps, 0);
    FixSign(a, b, ac, bc, minus, t);
    A, B := ac.Value(), bc.Value();
    OutcomeOf(va, vb, steps, d, a.nw, A, B);
    CopyInto(aOut, ac);
    CopyInto(bOut, bc);
  }

  lemma ArrivedIs(x: nat, d: nat, a: nat, b: nat, steps: nat)
    requires Reducible(a, b) && Arrived(x, d, a, b, steps) && x == 0 && GcdOf(d, a, b) && 0 < steps
    ensures OneOdd(a, b) ==> 0 < d && After(a, b, steps) == (0, d)
    ensures d % 2 == UnwindingAt(a, b, steps, steps).v && (d == 0 <==> a == 0 && b == 0)
  {
  }

  lemma OutcomeOf(a: nat, b: nat, steps: nat, d: nat, nw: nat, A: nat, B: nat)
    requires Reducible(a, b) && GcdOf(d, a, b) && 0 < steps && a < Base(nw) && b < Base(nw) && 0 < nw
    requires OneOdd(a, b) ==> 0 < d && After(a, b, steps) == (0, d)
    requires var t := UnwindingAt(a, b, steps, 0); A == Signed(t.v, t.ac, t.minus, nw) && B == Signed(t.u, t.bc, t.minus, nw)
    ensures Outcome(A, B, a, b, d, Base(nw))
  {
    hide Base, After, IsGcd, Minimal, UnwoundTo;
    BaseLe(1, nw);
    BaseStep(0);
    BaseIsBig();
    if 0 < a && 0 < b {
      var t := UnwoundTo(a, b, steps, 0);
      BezoutResult(a, b, steps, d);
      MulLe(1, d, t.u);
      MulLe(1, d, t.v);
      SmallMod(t.v - t.ac, Base(nw));
      SmallMod(t.u - t.bc, Base(nw));
    } else if OneOdd(a, b) {
      UnwoundWithZero(a, b, steps);
      SmallMod(1, Base(nw));
      ModAddMultiple(0 - 1, 1, Base(nw));
      SmallMod(Base(nw) - 1, Base(nw));
    }
  }

  /** A coefficient after the correction of the sign: the difference is formed in as many words as the numbers have. */
  ghost function Signed(x: nat, c: nat, minus: bool, nw: nat): nat {
    if minus then (x - c) % Base(nw) else c
  }

  lemma GcdPositive(d: nat, a: nat, b: nat)
    requires IsGcd(d, a, b)
    ensures 0 < d
  {
  }

  /** The coefficients of (0, d) are its low bits; overwriting a and b by them divides both by d. */
  method StartUnwinding(a: MpInt, b: MpInt, ghost va: nat, ghost vb: nat, ghost steps: nat) returns (ac: MpInt, bc: MpInt)
    requires a.Valid() && b.Valid() && a.nw == b.nw && 0 < a.nw && a.mem != b.mem
    requires Reducible(va, vb) && a.Value() == 0 && b.Value() % 2 == UnwindingAt(va, vb, steps, steps).v
    modifies a.mem, b.mem
    ensures fresh(ac.mem) && fresh(bc.mem) && ac.Valid() && bc.Valid()
    ensures Holds(a, b, ac, bc, UnwindingAt(va, vb, steps, steps))
  {
    hide Nat, Base, Pow2, MpInt.Words, MpInt.Value;
    BaseIsBig();
    BaseStep(0);
    BaseLe(1, a.nw);
    Parity(a);
    Parity(b);
    ac := MakeSized(a.nw + 1);
    bc := MakeSized(a.nw + 1);
    SetWordOfZero(ac, 0, GetBit(a, 0));
    SetWordOfZero(bc, 0, GetBit(b, 0));
    SmallMod(0, Base(a.nw));
    SmallMod(1, Base(a.nw));
    CopyInto(a, ac);
    CopyInto(b, bc);
  }

  /** Turn a result of -d into +d. */
  method FixSign(a: MpInt, b: MpInt, ac: MpInt, bc: MpInt, minus: bool, ghost t: Unwinding)
    requires Holds(a, b, ac, bc, t) && minus == t.minus
    modifies ac.mem, bc.mem
    ensures ac.Value() == Signed(t.v, t.ac, t.minus, a.nw) && bc.Value() == Signed(t.u, t.bc, t.minus, a.nw)
  {
    hide Nat, Base, MpInt.Words, MpInt.Value;
    var tmp := MakeSized(a.nw);
    SubInto(tmp, b, ac);
    SelectInto(ac, ac, tmp, minus);
    SubInto(tmp, a, bc);
    SelectInto(bc, bc, tmp, minus);
  }

  /** mp_invert: the coefficient of x, which is its inverse modulo m if the two are coprime. */
  method Invert(x: MpInt, m: MpInt) returns (result: MpInt, ghost d: nat)
    requires x.Valid() && m.Valid() && Reducible(x.Value(), m.Value())
    ensures fresh(result.mem) && result.Valid() && result.nw == m.nw
    ensures GcdOf(d, x.Value(), m.Value()) && (0 < x.Value() || 0 < m.Value() ==> IsGcd(d, x.Value(), m.Value()))
    ensures 0 < m.Value() ==> Cong(x.Value() * result.Value(), d, m.Value())
    ensures 0 < m.Value() ==> result.Value() <= m.Value() && (1 < m.Value() ==> result.Value() < m.Value())
    ensures m.Value() == 0 ==> result.Value() == (if x.Value() == 0 then 0 else 1) % Base(m.nw)
  {
    hide Nat, Base, MpInt.Words, MpInt.Value, IsGcd, Minimal;
    result := MakeSized(m.nw);
    var b := MakeSized(0);
    var gcd := MakeSized(0);
    ghost var A, B;
    d, A, B := BezoutInto(result, b, gcd, x, m);
    if 0 < m.Value() {
      GcdPositive(d, x.Value(), m.Value());
      ValueBound(m);
      InverseFromOutcome(A, B, x.Value(), m.Value(), d, Base(RegisterWords(x.nw, m.nw)));
      SmallMod(A, Base(m.nw));
    }
  }

  lemma InverseFromOutcome(A: nat, B: nat, x: nat, m: nat, d: nat, n: nat)
    requires 0 < m && Outcome(A, B, x, m, d, n) && IsGcd(d, x, m)
    ensures Cong(x * A, d, m) && A <= m && (1 < m ==> A < m)
  {
    if 0 < x {
      InverseFromBezout(A, B, x, m, d);
    } else {
      GcdOfZero(d, m, 0, m);
      MultipleMod(1, m);
      SmallMod(0, m);
    }
  }

  lemma InverseFromBezout(A: nat, B: nat, x: nat, m: nat, d: nat)
    requires 0 < d && 0 < m && Minimal(A, B, x, m, d) && IsGcd(d, x, m)
    ensures Cong(x * A, d, m) && A <= m && (1 < m ==> A < m)
  {
    CongFromMultiple(x * A, d, B, m);
    SmallMod(0, d);
    assert Divides(d, d) by { MultipleMod(1, d); }
    assert Divides(d, x) && Divides(d, m);
    DivNonNeg(m, d);
    if A == m / d {
      if m == d == A { DivModUnique(m, m, 1, 0); }
    }
  }
}
