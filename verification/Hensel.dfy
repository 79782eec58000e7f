/**
 mp_invert_mod_2to: the inverse of an odd number modulo a power of two, by passes
 that double the number of correct bits.
 */
module Hensel {
  import opened Arithmetic
  import opened Words
  import opened MpInts
  import opened AddSub
  import opened Multiply
  import opened Karatsuba
  import opened Shifts

  // --------------------------------------------------------------------- the numbers

  /** K in x0 * r0 == K * 2^b + 1, for the inverse r0 of x modulo 2^b. */
  function Carry(x: nat, r0: nat, b: nat): nat {
    DivNonNeg(x % Pow2(b) * r0, Pow2(b));
    x % Pow2(b) * r0 / Pow2(b)
  }

  /** The next b bits of the inverse. */
  function NextBits(x: nat, r0: nat, b: nat): nat {
    DivNonNeg(x, Pow2(b));
    r0 * (0 - (r0 * (x / Pow2(b) % Pow2(b)) + Carry(x, r0, b))) % Pow2(b)
  }

  /** The inverse modulo 2^2b that one pass makes of an inverse r0 modulo 2^b. */
  function Lifted(x: nat, r0: nat, b: nat): nat {
    r0 + NextBits(x, r0, b) * Pow2(b)
  }

  /** One lifting pass turns an inverse modulo 2^b into one modulo 2^2b. */
  lemma Lift(x: nat, r0: nat, b: nat)
    requires 0 < b && r0 < Pow2(b) && Cong(x * r0, 1, Pow2(b))
    ensures Lifted(x, r0, b) < Pow2(2 * b)
    ensures Cong(x * Lifted(x, r0, b), 1, Pow2(2 * b))
  {
    hide Pow2;
    var m := Pow2(b);
    Pow2Le(1, b);
    Pow2Step(0);
    Pow2Add(b, b);
    LiftArith(x, r0, m, x % m, x / m % m, Carry(x, r0, b), NextBits(x, r0, b));
  }

  lemma LiftArith(x: nat, r0: nat, m: nat, x0: nat, x1: nat, k: nat, r1: nat)
    requires 1 < m && r0 < m && Cong(x * r0, 1, m)
    requires x0 == x % m && x1 == x / m % m && k == x0 * r0 / m && r1 == r0 * (0 - (r0 * x1 + k)) % m
    ensures r0 + r1 * m < m * m && Cong(x * (r0 + r1 * m), 1, m * m)
  {
    MulLe(r1 + 1, m, m);
    Distribute(m, r1, 1);
    LowProduct(x, r0, m);
    NextDigitArith(r0, m, x0, x1, k, r1);
    var t := k + r0 * x1 + r1 * x0;
    // (x0 + x1 m)(r0 + r1 m) = 1 + t m + x1 r1 m^2
    ExpandDigits(x0, x1, r0, r1, m);
    assert x0 * r1 + x1 * r0 == r0 * x1 + r1 * x0;
    Distribute(m, k, r0 * x1 + r1 * x0);
    assert (x0 + x1 * m) * (r0 + r1 * m) == 1 + t * m + x1 * r1 * (m * m);
    var q := t / m;
    assert t * m == q * (m * m) by { MulAssoc(q, m, m); }
    Distribute(m * m, q, x1 * r1);
    CongFromMultiple((x0 + x1 * m) * (r0 + r1 * m), 1, q + x1 * r1, m * m);
    // x is x0 + x1 m modulo m^2
    DivDiv(x, m, m);
    CongMod(x, m * m);
    CongMul(x % (m * m), x, r0 + r1 * m, r0 + r1 * m, m * m);
  }

  /** x0 * r0 leaves remainder 1, so it is k * m + 1. */
  lemma LowProduct(x: nat, r0: nat, m: nat)
    requires 1 < m && Cong(x * r0, 1, m)
    ensures x % m * r0 == x % m * r0 / m * m + 1
  {
    CongMod(x, m);
    CongMul(x % m, x, r0, r0, m);
    SmallMod(1, m);
  }

  /** The new digit cancels everything of weight m. */
  lemma NextDigitArith(r0: nat, m: nat, x0: nat, x1: nat, k: nat, r1: nat)
    requires 1 < m && x0 * r0 == k * m + 1 && r1 == r0 * (0 - (r0 * x1 + k)) % m
    ensures (k + r0 * x1 + r1 * x0) % m == 0
  {
    var c := r0 * x1 + k;
    CongMod(r0 * (0 - c), m);
    CongMul(r1, r0 * (0 - c), x0, x0, m);
    calc {
      r0 * (0 - c) * x0;
      { MulAssoc(r0, 0 - c, x0); MulAssoc(0 - c, r0, x0); }
      (0 - c) * (x0 * r0);
      (0 - c) * (k * m + 1);
      { Distribute(0 - c, k * m, 1); MulAssoc(0 - c, k, m); }
      (0 - c) + (0 - c) * k * m;
    }
    CongFromMultiple(r0 * (0 - c) * x0, 0 - c, (0 - c) * k, m);
    CongAdd(r1 * x0, 0 - c, c, c, m);
    CongZero(r1 * x0 + c, m);
  }

  // ------------------------------------------------------------- bits and whole words

  /** A number of words that holds b bits. */
  lemma WordsHold(b: nat, n: nat)
    requires b <= MaxBits(n)
    ensures Pow2(b) <= Base(n)
    ensures Base(n) == Pow2(b) * Pow2(MaxBits(n) - b)
  {
    hide Pow2, Base, MaxBits;
    BaseIsPow2(n);
    Pow2Le(b, MaxBits(n));
    Pow2Add(b, MaxBits(n) - b);
  }

  /** Cutting to whole words first makes no difference modulo a power of two they hold. */
  lemma ModWordsModBits(v: int, b: nat, n: nat)
    requires b <= MaxBits(n)
    ensures (v % Base(n)) % Pow2(b) == v % Pow2(b)
    ensures Cong(v % Base(n), v, Pow2(b))
  {
    hide Pow2, Base, MaxBits;
    WordsHold(b, n);
    ModOfMod(v, Pow2(b), Pow2(MaxBits(n) - b));
  }

  lemma BitsFit(v: nat, b: nat, n: nat)
    requires b <= MaxBits(n) && v < Pow2(b)
    ensures v < Base(n) && v % Base(n) == v
  {
    hide Pow2, Base, MaxBits;
    WordsHold(b, n);
    SmallMod(v, Base(n));
  }

  /** The code's word-sized reductions on the way to the new digit all vanish modulo 2^b. */
  lemma DigitReductions(r0: nat, x1: nat, k: nat, b: nat, n: nat)
    requires b <= MaxBits(n)
    ensures var t := (0 - ((r0 * x1) % Base(n) + k) % Base(n)) % Base(n);
            (r0 * t) % Base(n) % Pow2(b) == r0 * (0 - (r0 * x1 + k)) % Pow2(b)
  {
    hide Pow2, Base, MaxBits;
    var m, w := Pow2(b), Base(n);
    var u := (r0 * x1) % w;
    var v := (u + k) % w;
    var t := (0 - v) % w;
    ModWordsModBits(r0 * x1, b, n);
    CongAdd(u, r0 * x1, k, k, m);
    ModWordsModBits(u + k, b, n);
    CongSub(0, 0, v, r0 * x1 + k, m);
    ModWordsModBits(0 - v, b, n);
    CongMul(r0, r0, t, 0 - (r0 * x1 + k), m);
    ModWordsModBits(r0 * t, b, n);
  }

  // -------------------------------------------------------------------- the procedure

  /** K: multiply the low b bits of x by r0, and shift down. */
  method CarryInto(k: MpInt, x0: MpInt, kshift: MpInt, x: MpInt, r0: MpInt, mul: MpInt, b: nat)
    requires k.Valid() && x0.Valid() && kshift.Valid() && x.Valid() && r0.Valid() && mul.Valid()
    requires x.mem != k.mem && r0.mem != k.mem && k.mem == x0.mem == kshift.mem == mul.mem
    requires Apart(k, x0) && Apart(k, kshift) && Apart(x0, kshift)
    requires Apart(mul, x0) && Apart(mul, kshift) && Apart(mul, k)
    requires k.nw == x0.nw == r0.nw == WordsForBits(b) && kshift.nw == WordsForBits(2 * b)
    requires 6 * r0.nw <= mul.nw && r0.Value() < Pow2(b)
    modifies k.mem
    ensures k.Value() == Carry(x.Value(), r0.Value(), b) < Pow2(b)
  {
    hide Nat, Base, Pow2, MpInt.Words, MpInt.Value, WordsForBits, MaxBits, Carry;
    WordsForBitsFit(b);
    WordsForBitsFit(2 * b);
    CopyInto(x0, x);
    ReduceMod2To(x0, b);
    ModWordsModBits(x.Value(), b, x0.nw);
    CarryFits(x.Value(), r0.Value(), b, k.nw, kshift.nw);
    MulInternal(kshift, x0, r0, mul);
    RshiftFixedInto(k, kshift, b);
  }

  lemma CarryFits(x: nat, r0: nat, b: nat, n: nat, n2: nat)
    requires b <= MaxBits(n) && 2 * b <= MaxBits(n2) && r0 < Pow2(b)
    ensures var t := x % Pow2(b) * r0;
            t % Base(n2) == t && t / Pow2(b) % Base(n) == Carry(x, r0, b) < Pow2(b)
  {
    hide Pow2, Base, MaxBits;
    var m := Pow2(b);
    var t := x % m * r0;
    CongMod(x, m);
    Pow2Add(b, b);
    MulLtBoth(x % m, m, r0, m);
    MulLe(0, x % m, r0);
    BitsFit(t, 2 * b, n2);
    DivLt(t, m, m);
    BitsFit(Carry(x, r0, b), b, n);
  }

  /** r1: the next b bits of the inverse, from K and the next b bits of x. */
  method DigitInto(r1: MpInt, x1: MpInt, r0x1: MpInt, k: MpInt, x: MpInt, r0: MpInt, mul: MpInt, b: nat)
    requires r1.Valid() && x1.Valid() && r0x1.Valid() && k.Valid() && x.Valid() && r0.Valid() && mul.Valid()
    requires x.mem != k.mem && r0.mem != k.mem && k.mem == x1.mem == r0x1.mem == r1.mem == mul.mem
    requires Apart(x1, k) && Apart(r0x1, k) && Apart(r0x1, x1) && Apart(r1, r0x1)
    requires Apart(mul, x1) && Apart(mul, r0x1) && Apart(mul, k) && Apart(mul, r1)
    requires r1.nw == x1.nw == r0x1.nw == k.nw == r0.nw == WordsForBits(b)
    requires 6 * r0.nw <= mul.nw && k.Value() == Carry(x.Value(), r0.Value(), b)
    modifies k.mem
    ensures r1.Value() == NextBits(x.Value(), r0.Value(), b)
  {
    hide Nat, Base, Pow2, MpInt.Words, MpInt.Value, WordsForBits, MaxBits, Carry;
    WordsForBitsFit(b);
    ghost var kv := k.Value();
    RshiftFixedInto(x1, x, b);
    ModWordsModBits(x.Value() / Pow2(b), b, x1.nw);
    Untouched((x1, k));
    label Shifted:
    ReduceMod2To(x1, b);
    Untouched@Shifted((x1, k));
    NegatedSum(r0x1, x1, k, r0, mul);
    DigitReductions(r0.Value(), x.Value() / Pow2(b) % Pow2(b), kv, b, r0.nw);
    MulInternal(r1, r0, r0x1, mul);
    ReduceMod2To(r1, b);
  }

  /** -(r0 * x1 + K), in the words of r0x1. */
  method NegatedSum(r0x1: MpInt, x1: MpInt, k: MpInt, r0: MpInt, mul: MpInt)
    requires x1.Valid() && r0x1.Valid() && k.Valid() && r0.Valid() && mul.Valid()
    requires r0.mem != k.mem && k.mem == x1.mem == r0x1.mem == mul.mem
    requires Apart(r0x1, k) && Apart(r0x1, x1) && Apart(mul, x1) && Apart(mul, r0x1) && Apart(mul, k)
    requires x1.nw == r0x1.nw == r0.nw && 6 * r0.nw <= mul.nw
    modifies k.mem
    ensures var n := r0x1.nw;
            r0x1.Value() == (0 - ((r0.Value() * old(x1.Value())) % Base(n) + old(k.Value())) % Base(n)) % Base(n)
  {
    hide Nat, Base, MpInt.Words, MpInt.Value;
    MulInternal(r0x1, r0, x1, mul);
    UntouchedByBoth((r0x1, mul, k));
    AddInto(r0x1, r0x1, k);
    NegInto(r0x1, r0x1);
  }

  /** Either b is a whole number of words, or two groups of b bits fit in one word. */
  predicate PassWidth(b: nat) {
    b % BIGNUM_INT_BITS == 0 || b in {1, 2, 4, 8, 16} || (b == 32 && BIGNUM_INT_BITS == 64)
  }

  /** Add r1 * 2^b on to r0 in the output; the last pass may run off its top. */
  method PlaceDigit(r: MpInt, k: MpInt, r1: MpInt, b: nat)
    requires r.Valid() && k.Valid() && r1.Valid() && r.mem != k.mem && k.mem == r1.mem && Apart(k, r1)
    requires 0 < b < MaxBits(r.nw) && PassWidth(b)
    requires k.nw == r1.nw == WordsForBits(b)
    requires r.Value() < Pow2(b) && r1.Value() < Pow2(b)
    modifies r.mem, k.mem
    ensures OnlyWrites(r)
    ensures r.Value() == (old(r.Value()) + old(r1.Value()) * Pow2(b)) % Base(r.nw)
  {
    hide Nat, Base, Pow2, MpInt.Words, MpInt.Value, WordsForBits, MaxBits, AddedAt;
    WordsForBitsFit(b);
    WordsForBitsFit(2 * b);
    BitPosition(b, r.nw);
    ghost var r0v, r1v := r.Value(), r1.Value();
    LshiftFixedInto(k, r1, b % BIGNUM_INT_BITS);
    var bpos := b / BIGNUM_INT_BITS;
    var n := Min(WordsForBits(2 * b), r.nw);
    var low, high := Alias(r, 0, n), Alias(r, n, r.nw - n);
    HighPart(r, n);
    BelowWords(r0v, b, n, high.Value());
    AddAt(low, bpos, k);
    Untouched((low, high));
    HighPart(r, n);
    MaxBitsLe(n, r.nw);
    PlacedDigit(r0v, r1v, b, n, k.nw, r.nw, k.Value());
  }

  lemma BitPosition(b: nat, rw: nat)
    requires 0 < b < MaxBits(rw)
    ensures 0 <= b / BIGNUM_INT_BITS <= WordsForBits(2 * b) && b / BIGNUM_INT_BITS <= rw
  {
    DivLt(b, BIGNUM_INT_BITS, rw);
    DivNonNeg(b, BIGNUM_INT_BITS);
    CeilDivBounds(2 * b, BIGNUM_INT_BITS);
    DivLt(b, BIGNUM_INT_BITS, CeilDiv(2 * b, BIGNUM_INT_BITS));
  }

  lemma BelowWords(v: nat, b: nat, n: nat, high: nat)
    requires b <= MaxBits(n) && v < Pow2(b) && v >= high * Base(n)
    ensures high == 0
  {
    hide Pow2, Base, MaxBits;
    WordsHold(b, n);
    if high > 0 { MulLe(1, high, Base(n)); }
  }

  /** The two shapes of a pass: b whole words, or less than half a word. */
  lemma PassWidthCases(b: nat)
    requires 0 < b && PassWidth(b)
    ensures 0 <= b / BIGNUM_INT_BITS
    ensures b % BIGNUM_INT_BITS == 0 || (b % BIGNUM_INT_BITS == b && 2 * b <= BIGNUM_INT_BITS)
    ensures PassWidth(2 * b)
  {
    if b % BIGNUM_INT_BITS != 0 {
      SmallMod(b, BIGNUM_INT_BITS);
    }
  }

  /** r1, shifted up within its words, does not lose bits. */
  lemma ShiftedDigitFits(r1: nat, b: nat, kw: nat)
    requires 0 < b && PassWidth(b) && r1 < Pow2(b) && 0 < kw && b <= MaxBits(kw)
    ensures var o := b % BIGNUM_INT_BITS; (r1 * Pow2(o)) % Base(kw) == r1 * Pow2(o)
  {
    hide Pow2, Base, PassWidth;
    PassWidthCases(b);
    if b % BIGNUM_INT_BITS == 0 {
      Pow2Step(0);
      BitsFit(r1, b, kw);
    } else {
      Pow2Add(b, b);
      MulLt(r1, Pow2(b), Pow2(b));
      MulLe(1, kw, BIGNUM_INT_BITS);
      BitsFit(r1 * Pow2(b), 2 * b, kw);
    }
  }

  lemma PlacedDigit(r0: nat, r1: nat, b: nat, n: nat, kw: nat, rw: nat, k: nat)
    requires 0 < b && PassWidth(b) && r0 < Pow2(b) && r1 < Pow2(b) && 0 < kw && b <= MaxBits(kw)
    requires n <= rw && (n < rw ==> 2 * b <= MaxBits(n) <= MaxBits(rw))
    requires k == (r1 * Pow2(b % BIGNUM_INT_BITS)) % Base(kw)
    ensures 0 <= b / BIGNUM_INT_BITS
    ensures AddedAt(r0, k, b / BIGNUM_INT_BITS, n) == (r0 + r1 * Pow2(b)) % Base(rw)
  {
    hide Pow2, Base, PassWidth;
    PassWidthCases(b);
    ShiftedDigitFits(r1, b, kw);
    SplitShift(0, b);
    var m, p, q := Pow2(b), Pow2(b % BIGNUM_INT_BITS), Base(b / BIGNUM_INT_BITS);
    assert k * q == r1 * m by { MulAssoc(r1, p, q); }
    if n < rw {
      LiftedFits(r0, r1, b);
      BitsFit(r0 + r1 * m, 2 * b, n);
      BitsFit(r0 + r1 * m, 2 * b, rw);
    }
  }

  lemma LiftedFits(r0: nat, r1: nat, b: nat)
    requires r0 < Pow2(b) && r1 < Pow2(b)
    ensures r0 + r1 * Pow2(b) < Pow2(2 * b)
  {
    hide Pow2;
    var m := Pow2(b);
    Pow2Add(b, b);
    MulLe(r1 + 1, m, m);
    Distribute(m, r1, 1);
  }

  /** One pass of the loop: r goes from b correct bits to 2b, or to all the bits it has. */
  method Pass(r: MpInt, x: MpInt, b: nat, mul: MpInt, pool: MpInt)
    requires r.Valid() && x.Valid() && mul.Valid() && pool.Valid()
    requires r.mem != x.mem && r.mem != pool.mem && x.mem != pool.mem && mul.mem == pool.mem && Apart(mul, pool)
    requires 0 < b < MaxBits(r.nw) && PassWidth(b)
    requires 6 * r.nw <= mul.nw && 6 * r.nw <= pool.nw
    requires r.Value() < Pow2(b) && Cong(x.Value() * r.Value(), 1, Pow2(b))
    modifies r.mem, pool.mem
    ensures OnlyWrites(r)
    ensures r.Value() < Pow2(2 * b)
    ensures Cong(x.Value() * r.Value(), 1, Pow2(Min(2 * b, MaxBits(r.nw))))
  {
    hide Nat, Base, Pow2, MpInt.Words, MpInt.Value, WordsForBits, MaxBits, Carry, NextBits, Lifted, Cong, PassWidth;
    var bw, b2w := WordsForBits(b), WordsForBits(2 * b);
    PassBudget(b, r.nw);
    ghost var rv := r.Value();
    var x0, p1 := AllocFromScratch(pool, bw);
    var kshift, p2 := AllocFromScratch(p1, b2w);
    var k, p3 := AllocFromScratch(p2, bw);
    var x1, p4 := AllocFromScratch(p3, bw);
    var r1, _ := AllocFromScratch(p4, bw);
    var r0, r0x1 := Alias(r, 0, bw), Alias(kshift, 0, bw);
    LowWords(r, b, bw);
    CarryInto(k, x0, kshift, x, r0, mul, b);
    DigitInto(r1, x1, r0x1, k, x, r0, mul, b);
    PassResult(x.Value(), rv, b, r.nw);
    PlaceDigit(r, k, r1, b);
  }

  lemma PassResult(x: nat, r0: nat, b: nat, rw: nat)
    requires 0 < b && r0 < Pow2(b) && Cong(x * r0, 1, Pow2(b))
    ensures NextBits(x, r0, b) < Pow2(b)
    ensures var v := (r0 + NextBits(x, r0, b) * Pow2(b)) % Base(rw);
            v < Pow2(2 * b) && Cong(x * v, 1, Pow2(Min(2 * b, MaxBits(rw))))
  {
    hide Pow2, Base, MaxBits, NextBits;
    NextBitsBound(x, r0, b);
    Lift(x, r0, b);
    LiftedInWords(x, Lifted(x, r0, b), b, rw);
  }

  lemma PassBudget(b: nat, rw: nat)
    requires 0 < b < MaxBits(rw)
    ensures var bw, b2w := WordsForBits(b), WordsForBits(2 * b);
            bw <= rw && bw <= b2w <= 2 * bw && b <= MaxBits(bw)
  {
    WordsForBitsFit(b);
    WordsForBitsFit(2 * b);
  }

  lemma LowWords(r: MpInt, b: nat, bw: nat)
    requires r.Valid() && bw <= r.nw && b <= MaxBits(bw) && r.Value() < Pow2(b)
    ensures Alias(r, 0, bw).Value() == r.Value()
  {
    hide Nat, Base, Pow2;
    HighPart(r, bw);
    BelowWords(r.Value(), b, bw, Alias(r, bw, r.nw - bw).Value());
  }

  lemma NextBitsBound(x: nat, r0: nat, b: nat)
    ensures NextBits(x, r0, b) < Pow2(b)
  {
    hide Pow2, Carry;
    DivNonNeg(x, Pow2(b));
    CongMod(r0 * (0 - (r0 * (x / Pow2(b) % Pow2(b)) + Carry(x, r0, b))), Pow2(b));
  }

  lemma LiftedInWords(x: nat, r: nat, b: nat, rw: nat)
    requires r < Pow2(2 * b) && Cong(x * r, 1, Pow2(2 * b))
    ensures r % Base(rw) < Pow2(2 * b)
    ensures Cong(x * (r % Base(rw)), 1, Pow2(Min(2 * b, MaxBits(rw))))
  {
    hide Pow2, Base, MaxBits;
    var e, w := 2 * b, MaxBits(rw);
    MaskFits(r, Base(rw));
    if e <= w {
      BitsFit(r, e, rw);
    } else {
      BaseIsPow2(rw);
      CongMod(r, Pow2(w));
      CongMul(x, x, r % Pow2(w), r, Pow2(w));
      Pow2Add(w, e - w);
      CongFactor(x * r, 1, Pow2(w), Pow2(e - w));
    }
  }

  /** mp_invert_mod_2to: for odd x and any p > 0, the inverse of x modulo 2^p. */
  method InvertMod2To(x: MpInt, p: nat) returns (r: MpInt)
    requires x.Valid() && x.Value() % 2 == 1 && 0 < p
    ensures fresh(r.mem) && r.Valid() && r.off == 0 && r.nw == WordsForBits(p)
    ensures r.Value() < Pow2(p)
    ensures (x.Value() * r.Value()) % Pow2(p) == 1
  {
    hide Nat, Base, Pow2, MpInt.Words, MpInt.Value, WordsForBits, MaxBits, PassWidth;
    var rw := WordsForBits(p);
    WordsForBitsFit(p);
    r := MakeSized(rw);
    var mulSize := ScratchSpace(2 * rw, rw, rw);
    var scratch := MakeSized(6 * rw + mulSize);
    var mul, pool := AllocFromScratch(scratch, mulSize);
    BaseIsBig();
    BaseStep(0);
    SetWordOfZero(r, 0, 1);
    var b := 1;
    StartInverse(x.Value(), rw);
    while b < p
      invariant 0 < b && PassWidth(b)
      invariant r.Value() < Pow2(b)
      invariant Cong(x.Value() * r.Value(), 1, Pow2(Min(b, MaxBits(rw))))
      decreases p - b
    {
      PassWidthCases(b);
      Pass(r, x, b, mul, pool);
      b := 2 * b;
    }
    FinishInverse(x.Value(), r.Value(), Min(b, MaxBits(rw)), p);
    ReduceMod2To(r, p);
  }

  lemma StartInverse(x: nat, rw: nat)
    requires x % 2 == 1 && 0 < rw
    ensures PassWidth(1) && 1 <= MaxBits(rw)
    ensures 1 < Pow2(1) && Cong(x * 1, 1, Pow2(1))
  {
    MulLe(1, rw, BIGNUM_INT_BITS);
  }

  lemma FinishInverse(x: nat, r: nat, e: nat, p: nat)
    requires 0 < p <= e && Cong(x * r, 1, Pow2(e))
    ensures r % Pow2(p) < Pow2(p) && (x * (r % Pow2(p))) % Pow2(p) == 1
  {
    hide Pow2;
    Pow2Add(p, e - p);
    CongFactor(x * r, 1, Pow2(p), Pow2(e - p));
    CongMod(r, Pow2(p));
    CongMul(x, x, r % Pow2(p), r, Pow2(p));
    Pow2Le(1, p);
    Pow2Step(0);
    SmallMod(1, Pow2(p));
  }
}
