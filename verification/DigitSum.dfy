/**
 The last digit, as mp_get_decimal finds it: the bytes of a number are added up with
 weights that leave its residue modulo 10 as it is, in 32 bits, and the sum is folded
 whenever a running bound says that the next word might overflow it.

 The bound is folded like the sum, and is no bound on it after that. So there is a size
 from which on the sum can overflow, and up to which it cannot.
 */
module DigitSum {
  import opened Arithmetic
  import opened Words
  import opened Wire
  import Bytes

  const TWO32: nat := 0x1_0000_0000
  const UINT32_MAX: nat := 0xFFFF_FFFF

  /** The most that a word can add. */
  const STEP: nat := if BIGNUM_INT_BYTES == 4 then 6120 else 12240

  // ------------------------------------------------------------------------ the residue

  function ByteAt(v: nat, t: nat): (b: nat)
    ensures b < 256
  {
    PowPos(256, t);
    DivNonNeg(v, Pow(256, t));
    v / Pow(256, t) % 256
  }

  /** 256 is 6 modulo 10, and so are its powers. */
  function Multiplier(t: nat): nat { if t == 0 then 1 else 6 }

  lemma {:induction false} PowersOf256(t: nat)
    ensures Pow(256, t) % 10 == Multiplier(t)
  {
    if t > 0 {
      PowersOf256(t - 1);
      var p := Pow(256, t - 1);
      assert Pow(256, t) == 256 * p;
      hide Pow;
      CongMul(256, 6, p, Multiplier(t - 1), 10);
    }
  }

  /** low has the residue of the lowest t bytes of v. */
  ghost predicate Residue(v: nat, t: nat, low: nat) {
    0 < Pow(256, t) && low % 10 == (v % Pow(256, t)) % 10
  }

  lemma NoResidue(v: nat)
    ensures Residue(v, 0, 0)
  {
    assert Pow(256, 0) == 1;
    DivModUnique(v, 1, v, 0);
  }

  lemma ResidueStep(v: nat, t: nat, low: nat)
    requires Residue(v, t, low)
    ensures Residue(v, t + 1, low + Multiplier(t) * ByteAt(v, t))
  {
    hide Pow;
    var p, b := Pow(256, t), ByteAt(v, t);
    PowAdd(256, t, 1);
    assert Pow(256, 1) == 256 by { Bytes.Pow256(); }
    PowPos(256, t + 1);
    DivDiv(v, p, 256);
    assert v % (p * 256) == v % p + b * p;
    PowersOf256(t);
    TenResidue(v % p, b, p, low, Multiplier(t));
  }

  lemma TenResidue(u: nat, b: nat, p: nat, low: nat, m: nat)
    requires low % 10 == u % 10 && p % 10 == m % 10
    ensures (low + m * b) % 10 == (u + b * p) % 10
  {
    CongMul(b, b, p, m, 10);
    CongAdd(u, low, b * p, b * m, 10);
  }

  /** The weighted sum of n bytes from byte t on. */
  function Sum(v: nat, t: nat, n: nat): nat {
    if n == 0 then 0 else Sum(v, t, n - 1) + Multiplier(t + n - 1) * ByteAt(v, t + n - 1)
  }

  /** What it is at most. */
  function MaxSum(t: nat, n: nat): nat {
    if t == 0 && n > 0 then 1530 * n - 1275 else 1530 * n
  }

  lemma {:induction false} SumResidue(v: nat, t: nat, n: nat, low: nat)
    requires Residue(v, t, low)
    ensures Residue(v, t + n, low + Sum(v, t, n)) && Sum(v, t, n) <= MaxSum(t, n)
  {
    hide Residue, ByteAt;
    if n > 0 {
      SumResidue(v, t, n - 1, low);
      ResidueStep(v, t + n - 1, low + Sum(v, t, n - 1));
    }
  }

  /** The first byte of word i. */
  function Offset(i: nat): nat { i * BIGNUM_INT_BYTES }

  lemma OffsetStep(i: nat)
    ensures Offset(i + 1) == Offset(i) + BIGNUM_INT_BYTES && (Offset(i) == 0 <==> i == 0)
  {
    BytesPerWord();
    Distribute(BIGNUM_INT_BYTES, i, 1);
  }

  lemma BytesPerWord()
    ensures BIGNUM_INT_BYTES == 4 || BIGNUM_INT_BYTES == 8
  {
  }

  // --------------------------------------------------------------------------- the loop

  /** The two accumulators. */
  datatype Acc = Acc(low: nat, maxval: nat)

  /** Folding the top half into the bottom half. */
  function Folded(a: nat): nat { a % 0x10000 + 6 * (a / 0x10000) }

  /** It keeps the residue, because 65536 is 6 modulo 10. */
  lemma FoldResidue(a: nat)
    requires a <= UINT32_MAX
    ensures Folded(a) % 10 == a % 10 && Folded(a) <= 458745
  {
    var q, r := a / 0x10000, a % 0x10000;
    assert a == r + 6 * q + 10 * (6553 * q);
  }

  /** A turn of the loop over words, in 32 bits. */
  function AddWord(a: Acc, sum: nat, most: nat): Acc {
    var low, maxval := (a.low + sum) % TWO32, (a.maxval + most) % TWO32;
    if maxval > UINT32_MAX - STEP then Acc(Folded(low), Folded(maxval)) else Acc(low, maxval)
  }

  /** The accumulators after i words. */
  function After(v: nat, i: nat): (a: Acc)
    ensures a.low < TWO32
  {
    if i == 0 then Acc(0, 0)
    else
      var t, a := Offset(i - 1), After(v, i - 1);
      var low := (a.low + Sum(v, t, BIGNUM_INT_BYTES)) % TWO32;
      FoldResidue(low);
      AddWord(a, Sum(v, t, BIGNUM_INT_BYTES), MaxSum(t, BIGNUM_INT_BYTES))
  }

  lemma WithoutOverflow(a: Acc, sum: nat, most: nat)
    requires a.low + sum <= UINT32_MAX && a.maxval + most <= UINT32_MAX
    ensures var low, m := a.low + sum, a.maxval + most;
            AddWord(a, sum, most) == if m > UINT32_MAX - STEP then Acc(Folded(low), Folded(m)) else Acc(low, m)
  {
    SmallMod(a.low + sum, TWO32);
    SmallMod(a.maxval + most, TWO32);
  }

  lemma AfterStep(v: nat, i: nat, sum: nat, most: nat)
    requires 0 < i
    requires sum == Sum(v, Offset(i - 1), BIGNUM_INT_BYTES)
    requires most == MaxSum(Offset(i - 1), BIGNUM_INT_BYTES)
    ensures After(v, i) == AddWord(After(v, i - 1), sum, most)
  {
  }

  /** The last two lines: multiplication by 2^32/10, and one trial subtraction. */
  function ReduceDigit(low: nat): int {
    var t := low - 10 * (0x19999999 * low / TWO32);
    t - 10 * ((t + 6) / 16)
  }

  lemma ReduceDigitCorrect(low: nat)
    requires low < TWO32
    ensures ReduceDigit(low) == low % 10
  {
    var q := 0x19999999 * low / TWO32;
    var t := low - 10 * q;
    assert 0 <= t < 16;
  }

  /** The digit that the code takes for the last one of v, from its first nw words. */
  function CodeDigit(v: nat, nw: nat): (d: nat)
    ensures d == After(v, nw).low % 10
  {
    ReduceDigitCorrect(After(v, nw).low);
    ReduceDigit(After(v, nw).low)
  }

  // ------------------------------------------------------------------------ when it folds

  /** The number of words before the first fold; the number of folds before the bound gets so low that there is a word too
      many before the next; and what a number of words adds, the words between two folds, and by how much the bound is lower
      after each. */
  const FIRST: nat := if BIGNUM_INT_BYTES == 4 then 701792 else 350896
  const LAST: nat := if BIGNUM_INT_BYTES == 4 then 9 else 2

  function Steps(n: int): int { if BIGNUM_INT_BYTES == 4 then 6120 * n else 12240 * n }

  function Phases(n: int): int { if BIGNUM_INT_BYTES == 4 then 701717 * n else 350858 * n }

  function Drops(n: int): int { if BIGNUM_INT_BYTES == 4 then 510 * n else 6630 * n }

  /** The greatest number of words for which the sum cannot overflow. */
  const LIMIT: nat := if BIGNUM_INT_BYTES == 4 then 7017245 else 1052612

  /** Where phase f begins, with fold f. */
  function StartWord(f: nat): nat {
    if f == 0 then 0 else FIRST + Phases(f - 1)
  }

  function MaxAt(f: nat, i: nat): int {
    if f == 0 && i == 0 then 0
    else if f == 0 then Steps(i) - 1275
    else 457215 - Drops(f - 1) + Steps(i - StartWord(f))
  }

  predicate InPhase(f: nat, i: nat) {
    f <= LAST && StartWord(f) <= i && if f == LAST then i <= LIMIT else i < StartWord(f + 1)
  }

  /** The phase of the next word. */
  function NextPhase(f: nat, i: nat): nat {
    if f < LAST && i + 1 == StartWord(f + 1) then f + 1 else f
  }

  lemma Most(i: nat)
    ensures MaxSum(Offset(i), BIGNUM_INT_BYTES) == if i == 0 then STEP - 1275 else STEP
  {
    BytesPerWord();
  }

  /** How the bound goes from word to word. */
  lemma MaxStep(f: nat, i: nat)
    requires InPhase(f, i) && i < LIMIT
    ensures InPhase(NextPhase(f, i), i + 1) && 0 <= MaxAt(f, i)
    ensures var m := MaxAt(f, i) + if i == 0 then STEP - 1275 else STEP;
            && 0 <= m <= UINT32_MAX && (m > UINT32_MAX - STEP <==> NextPhase(f, i) != f)
            && (if NextPhase(f, i) != f then Folded(m) else m) == MaxAt(NextPhase(f, i), i + 1)
  {
    BytesPerWord();
    var m := MaxAt(f, i) + if i == 0 then STEP - 1275 else STEP;
    assert m > UINT32_MAX - STEP <==> NextPhase(f, i) != f;
    if NextPhase(f, i) != f {
      HighFold(m);
    }
    hide Folded;
  }

  lemma HighFold(m: nat)
    requires 0xFFFF_0000 <= m <= UINT32_MAX
    ensures Folded(m) == m - 4294508550
  {
    DivModUnique(m, 0x10000, 0xFFFF, m - 0xFFFF_0000);
  }

  // ------------------------------------------------------------------- up to the limit

  /** No fold leaves more than 458739 of a sum that has not overflowed. */
  function LowBound(f: nat, i: nat): int {
    if f == 0 then MaxAt(0, i) else 458739 + Steps(i - StartWord(f))
  }

  lemma BoundStep(f: nat, i: nat, low: nat)
    requires InPhase(f, i) && i < LIMIT && low <= LowBound(f, i) + if i == 0 then STEP - 1275 else STEP
    ensures low <= UINT32_MAX
    ensures (if NextPhase(f, i) != f then Folded(low) else low) <= LowBound(NextPhase(f, i), i + 1)
  {
    BytesPerWord();
    if low <= UINT32_MAX {
      FoldSmall(low);
    }
  }

  lemma FoldSmall(low: nat)
    requires low <= UINT32_MAX - 6
    ensures Folded(low) <= 458739
  {
  }

  lemma LimitStart(v: nat)
    ensures InPhase(0, 0) && After(v, 0).maxval == MaxAt(0, 0) && After(v, 0).low <= LowBound(0, 0)
    ensures Residue(v, Offset(0), After(v, 0).low)
  {
    BytesPerWord();
    NoResidue(v);
  }

  /** Up to the limit, the sum does not overflow, and has the residue of the bytes so far. */
  lemma {:induction false} WithinLimit(v: nat, i: nat) returns (f: nat)
    requires i <= LIMIT
    ensures InPhase(f, i) && After(v, i).maxval == MaxAt(f, i) && After(v, i).low <= LowBound(f, i)
    ensures Residue(v, Offset(i), After(v, i).low)
  {
    hide *;
    if i == 0 {
      LimitStart(v);
      f := 0;
    } else {
      var g := WithinLimit(v, i - 1);
      var a, t := After(v, i - 1), Offset(i - 1);
      Most(i - 1);
      SumResidue(v, t, BIGNUM_INT_BYTES, a.low);
      AfterStep(v, i, Sum(v, t, BIGNUM_INT_BYTES), MaxSum(t, BIGNUM_INT_BYTES));
      var low, m := a.low + Sum(v, t, BIGNUM_INT_BYTES), a.maxval + MaxSum(t, BIGNUM_INT_BYTES);
      MaxStep(g, i - 1);
      BoundStep(g, i - 1, low);
      WithoutOverflow(a, Sum(v, t, BIGNUM_INT_BYTES), MaxSum(t, BIGNUM_INT_BYTES));
      OffsetStep(i - 1);
      FoldResidue(low);
      KeepResidue(v, Offset(i), low, Folded(low));
      f := NextPhase(g, i - 1);
    }
  }

  lemma KeepResidue(v: nat, t: nat, low: nat, low': nat)
    requires Residue(v, t, low) && low' % 10 == low % 10
    ensures Residue(v, t, low')
  {
  }

  lemma WholeResidue(v: nat, nw: nat, low: nat)
    requires v < Base(nw) && Residue(v, Offset(nw), low)
    ensures low % 10 == v % 10
  {
    hide Base, Pow, Pow2;
    BytesOfBase(nw);
    SmallMod(v, Pow(256, Offset(nw)));
  }

  lemma BytesOfBase(nw: nat)
    ensures Base(nw) == Pow(256, Offset(nw))
  {
    hide Base, Pow, Pow2;
    var t := Offset(nw);
    BytesPerWord();
    BaseIsPow2(nw);
    ByteBase(t);
    MulAssoc(8, nw, BIGNUM_INT_BYTES);
    assert 8 * t == MaxBits(nw);
  }

  lemma DigitWithinLimit(v: nat, nw: nat)
    requires nw <= LIMIT && v < Base(nw)
    ensures CodeDigit(v, nw) == v % 10
  {
    hide Base, After, Residue;
    var f := WithinLimit(v, nw);
    WholeResidue(v, nw, After(v, nw).low);
  }

  // ------------------------------------------------------------------- beyond the limit

  /** n bytes c. */
  function Repeated(c: nat, n: nat): nat {
    if n == 0 then 0 else c + 256 * Repeated(c, n - 1)
  }

  function Joined(low: nat, n: nat, high: nat): nat {
    PowPos(256, n);
    low + Pow(256, n) * high
  }

  lemma {:induction false} RepeatedBound(c: nat, n: nat)
    requires c < 256
    ensures Repeated(c, n) < Pow(256, n)
  {
    if n > 0 {
      RepeatedBound(c, n - 1);
    }
  }

  lemma {:induction false} ByteOfRepeated(c: nat, n: nat, t: nat)
    requires c < 256
    ensures ByteAt(Repeated(c, n), t) == if t < n then c else 0
    decreases n
  {
    if n == 0 {
      PowPos(256, t);
      DivModUnique(0, Pow(256, t), 0, 0);
    } else if t == 0 {
      assert Pow(256, 0) == 1;
      DivModUnique(Repeated(c, n), 1, Repeated(c, n), 0);
      DivModUnique(Repeated(c, n), 256, Repeated(c, n - 1), c);
    } else {
      ByteOfRepeated(c, n - 1, t - 1);
      ByteStep(Repeated(c, n), t);
      DivModUnique(Repeated(c, n), 256, Repeated(c, n - 1), c);
    }
  }

  lemma ByteStep(v: nat, t: nat)
    requires 0 < t
    ensures 0 <= v / 256 && ByteAt(v, t) == ByteAt(v / 256, t - 1)
  {
    hide Pow;
    DivNonNeg(v, 256);
    PowAdd(256, 1, t - 1);
    assert Pow(256, 1) == 256 by { Bytes.Pow256(); }
    PowPos(256, t - 1);
    DivDiv(v, 256, Pow(256, t - 1));
  }

  lemma {:induction false} ByteOfJoined(low: nat, n: nat, high: nat, t: nat)
    requires low < Pow(256, n)
    ensures ByteAt(Joined(low, n, high), t) == if t < n then ByteAt(low, t) else ByteAt(high, t - n)
    decreases n
  {
    if n == 0 {
      assert Pow(256, 0) == 1;
      assert Joined(low, n, high) == high;
    } else {
      var v, p := Joined(low, n, high), Pow(256, n - 1);
      assert Pow(256, n) == 256 * p;
      DivNonNeg(low, 256);
      assert v == 256 * (low / 256 + p * high) + low % 256 by { MulAssoc(256, p, high); }
      DivModUnique(v, 256, low / 256 + p * high, low % 256);
      DivLt(low, 256, p);
      if t == 0 {
        assert Pow(256, 0) == 1;
        DivModUnique(v, 1, v, 0);
        DivModUnique(low, 1, low, 0);
      } else {
        ByteOfJoined(low / 256, n - 1, high, t - 1);
        ByteStep(v, t);
        ByteStep(low, t);
      }
    }
  }

  /** Where 40 bytes are 0. */
  function DipAt(): nat { Offset(StartWord(LAST - 1)) }

  function TailBytes(): int { Offset(LIMIT + 1) - DipAt() - 40 }

  lemma TailIsLong()
    ensures 0 < TailBytes() && 0 < DipAt()
  {
    BytesPerWord();
  }

  /** A number of LIMIT + 1 words whose bytes are 0xFF, but for 40 of them, which are 0. */
  function Culprit(): nat {
    TailIsLong();
    Joined(Repeated(0xFF, DipAt()), DipAt(), Joined(Repeated(0, 40), 40, Repeated(0xFF, TailBytes())))
  }

  function CulpritByte(t: nat): nat {
    if t >= Offset(LIMIT + 1) then 0 else if DipAt() <= t < DipAt() + 40 then 0 else 0xFF
  }

  lemma CulpritBytes(t: nat)
    ensures ByteAt(Culprit(), t) == CulpritByte(t)
  {
    hide Pow, Repeated, ByteAt, Joined, DipAt;
    TailIsLong();
    var d, n := DipAt(), TailBytes();
    var rest := Joined(Repeated(0, 40), 40, Repeated(0xFF, n));
    RepeatedBound(0xFF, d);
    RepeatedBound(0, 40);
    ByteOfJoined(Repeated(0xFF, d), d, rest, t);
    ByteOfRepeated(0xFF, d, t);
    if d <= t {
      ByteOfJoined(Repeated(0, 40), 40, Repeated(0xFF, n), t - d);
      ByteOfRepeated(0, 40, t - d);
      if d + 40 <= t {
        ByteOfRepeated(0xFF, n, t - d - 40);
      }
    }
  }

  lemma JoinedBound(low: nat, n: nat, high: nat, k: nat)
    requires low < Pow(256, n) && high < Pow(256, k)
    ensures Joined(low, n, high) < Pow(256, n + k)
  {
    hide Pow;
    PowAdd(256, n, k);
    PowPos(256, n);
    MulLe(high + 1, Pow(256, k), Pow(256, n));
    Distribute(Pow(256, n), high, 1);
  }

  lemma CulpritFits(nw: nat)
    requires LIMIT < nw
    ensures Culprit() < Base(nw)
  {
    hide Pow, Repeated, Joined, DipAt, Base;
    TailIsLong();
    var d, n := DipAt(), TailBytes();
    var rest := Joined(Repeated(0, 40), 40, Repeated(0xFF, n));
    RepeatedBound(0xFF, d);
    RepeatedBound(0, 40);
    RepeatedBound(0xFF, n);
    JoinedBound(Repeated(0, 40), 40, Repeated(0xFF, n), n);
    JoinedBound(Repeated(0xFF, d), d, rest, 40 + n);
    BytesOfBase(LIMIT + 1);
    BaseLe(LIMIT + 1, nw);
  }

  lemma {:induction false} SumOfSame(v: nat, t: nat, n: nat, c: nat)
    requires forall k :: t <= k < t + n ==> ByteAt(v, k) == c
    ensures Sum(v, t, n) == if t == 0 && n > 0 then 6 * c * n - 5 * c else 6 * c * n
  {
    hide ByteAt;
    if n > 0 {
      SumOfSame(v, t, n - 1, c);
      assert ByteAt(v, t + n - 1) == c;
    }
  }

  function DipWords(): nat { if BIGNUM_INT_BYTES == 4 then 10 else 5 }

  /** What word i of it adds. */
  function CulpritSum(i: nat): nat {
    if i > LIMIT then 0
    else if StartWord(LAST - 1) <= i < StartWord(LAST - 1) + DipWords() then 0
    else if i == 0 then STEP - 1275 else STEP
  }

  lemma CulpritSums(i: nat)
    ensures Sum(Culprit(), Offset(i), BIGNUM_INT_BYTES) == CulpritSum(i)
  {
    hide Culprit, ByteAt, Sum;
    BytesPerWord();
    var t := Offset(i);
    var c := CulpritByte(t);
    forall k | t <= k < t + BIGNUM_INT_BYTES ensures ByteAt(Culprit(), k) == c {
      CulpritBytes(k);
    }
    SumOfSame(Culprit(), t, BIGNUM_INT_BYTES, c);
  }

  /** The sum of the culprit, word by word. In the dip it falls behind the bound, so that the last fold leaves more of it. */
  function CulpritLow(f: nat, i: nat): int {
    if f < LAST - 1 then MaxAt(f, i)
    else if f == LAST - 1 then MaxAt(f, i) - Steps(Min(i - StartWord(f), DipWords()))
    else (if BIGNUM_INT_BYTES == 4 then 457465 else 454915) + Steps(i - StartWord(f))
  }

  lemma CulpritStep(f: nat, i: nat)
    requires InPhase(f, i) && i < LIMIT
    ensures 0 <= CulpritLow(f, i) && 0 <= CulpritLow(f, i) + CulpritSum(i) <= UINT32_MAX
    ensures var low := CulpritLow(f, i) + CulpritSum(i);
            (if NextPhase(f, i) != f then Folded(low) else low) == CulpritLow(NextPhase(f, i), i + 1)
  {
    if f < LAST - 1 {
      BeforeDip(f, i);
    } else if f == LAST - 1 {
      InDip(i);
    } else {
      AfterDip(i);
    }
  }

  lemma BeforeDip(f: nat, i: nat)
    requires InPhase(f, i) && i < LIMIT && f < LAST - 1
    ensures 0 <= CulpritLow(f, i) && 0 <= CulpritLow(f, i) + CulpritSum(i) <= UINT32_MAX
    ensures var low := CulpritLow(f, i) + CulpritSum(i);
            (if NextPhase(f, i) != f then Folded(low) else low) == CulpritLow(NextPhase(f, i), i + 1)
  {
    BytesPerWord();
    MaxStep(f, i);
    hide Folded;
  }

  lemma InDip(i: nat)
    requires InPhase(LAST - 1, i) && i < LIMIT
    ensures var f := LAST - 1;
            && 0 <= CulpritLow(f, i) && 0 <= CulpritLow(f, i) + CulpritSum(i) <= UINT32_MAX
            && var low := CulpritLow(f, i) + CulpritSum(i);
               (if NextPhase(f, i) != f then Folded(low) else low) == CulpritLow(NextPhase(f, i), i + 1)
  {
    BytesPerWord();
    var low := CulpritLow(LAST - 1, i) + CulpritSum(i);
    if i + 1 == StartWord(LAST) {
      assert low == if BIGNUM_INT_BYTES == 4 then 4294900485 else 4294897935;
      DivModUnique(low, 0x10000, 0xFFFE, low - 0xFFFE_0000);
    }
    hide Folded;
  }

  lemma AfterDip(i: nat)
    requires InPhase(LAST, i) && i < LIMIT
    ensures var f := LAST;
            && 0 <= CulpritLow(f, i) && 0 <= CulpritLow(f, i) + CulpritSum(i) <= UINT32_MAX
            && NextPhase(f, i) == f && CulpritLow(f, i) + CulpritSum(i) == CulpritLow(f, i + 1)
  {
    BytesPerWord();
  }

  lemma CulpritStart()
    ensures InPhase(0, 0) && After(Culprit(), 0).maxval == MaxAt(0, 0) && After(Culprit(), 0).low == CulpritLow(0, 0)
  {
    hide Culprit;
    BytesPerWord();
  }

  lemma {:induction false} CulpritRun(i: nat) returns (f: nat)
    requires i <= LIMIT
    ensures InPhase(f, i) && After(Culprit(), i).maxval == MaxAt(f, i) && After(Culprit(), i).low == CulpritLow(f, i)
  {
    hide *;
    if i == 0 {
      CulpritStart();
      f := 0;
    } else {
      var g := CulpritRun(i - 1);
      var a, t := After(Culprit(), i - 1), Offset(i - 1);
      Most(i - 1);
      CulpritSums(i - 1);
      AfterStep(Culprit(), i, CulpritSum(i - 1), MaxSum(t, BIGNUM_INT_BYTES));
      MaxStep(g, i - 1);
      CulpritStep(g, i - 1);
      WithoutOverflow(a, CulpritSum(i - 1), MaxSum(t, BIGNUM_INT_BYTES));
      f := NextPhase(g, i - 1);
    }
  }

  lemma LastPhase(f: nat)
    requires InPhase(f, LIMIT)
    ensures TWO32 <= CulpritLow(f, LIMIT) + CulpritSum(LIMIT) < 2 * TWO32
  {
    BytesPerWord();
  }

  /** One word more, and the sum overflows: from then on it is short by 2^32, which is 6 modulo 10. */
  lemma {:induction false} SixShort(i: nat)
    requires LIMIT < i
    ensures Residue(Culprit(), Offset(i), After(Culprit(), i).low + 6)
  {
    hide *;
    var v, a, t := Culprit(), After(Culprit(), i - 1), Offset(i - 1);
    var sum := CulpritSum(i - 1);
    OffsetStep(i - 1);
    CulpritSums(i - 1);
    AfterStep(v, i, sum, MaxSum(t, BIGNUM_INT_BYTES));
    AfterWrap(a, sum, MaxSum(t, BIGNUM_INT_BYTES));
    if i == LIMIT + 1 {
      var f := CulpritRun(LIMIT);
      var g := WithinLimit(v, LIMIT);
      LastPhase(f);
      SumResidue(v, t, BIGNUM_INT_BYTES, a.low);
      KeepResidue(v, Offset(i), a.low + sum, After(v, i).low + 6);
    } else {
      SixShort(i - 1);
      NothingMore(i - 1);
      SumResidue(v, t, BIGNUM_INT_BYTES, a.low + 6);
      KeepResidue(v, Offset(i), a.low + 6 + sum, After(v, i).low + 6);
    }
  }

  lemma AddWordResidue(a: Acc, sum: nat, most: nat)
    ensures AddWord(a, sum, most).low % 10 == (a.low + sum) % TWO32 % 10
  {
    hide Folded;
    FoldResidue((a.low + sum) % TWO32);
  }

  /** 2^32 is 6 modulo 10. */
  lemma WrapResidue(x: nat)
    requires TWO32 <= x < 2 * TWO32
    ensures (x % TWO32 + 6) % 10 == x % 10
  {
    DivModUnique(x, TWO32, 1, x - TWO32);
    assert x == x - TWO32 + 6 + 10 * 429496729;
    ModAddMultiple(x - TWO32 + 6, 429496729, 10);
  }

  /** What overflow does to the residue. */
  lemma AfterWrap(a: Acc, sum: nat, most: nat)
    requires a.low < TWO32
    ensures TWO32 <= a.low + sum < 2 * TWO32 ==> (AddWord(a, sum, most).low + 6) % 10 == (a.low + sum) % 10
    ensures sum == 0 ==> (AddWord(a, sum, most).low + 6) % 10 == (a.low + 6) % 10
  {
    hide AddWord;
    AddWordResidue(a, sum, most);
    var low, x := AddWord(a, sum, most).low, a.low + sum;
    if sum == 0 {
      SmallMod(a.low, TWO32);
      CongAdd(low, a.low, 6, 6, 10);
    }
    if TWO32 <= x < 2 * TWO32 {
      WrapResidue(x);
      CongAdd(low, x % TWO32, 6, 6, 10);
    }
  }

  lemma NothingMore(i: nat)
    requires LIMIT < i
    ensures CulpritSum(i) == 0
  {
  }

  lemma CulpritIsWrong(nw: nat)
    requires LIMIT < nw
    ensures Culprit() < Base(nw) && CodeDigit(Culprit(), nw) != Culprit() % 10
  {
    hide Base, After, Residue, Culprit;
    CulpritFits(nw);
    SixShort(nw);
    WholeResidue(Culprit(), nw, After(Culprit(), nw).low + 6);
  }

  /** The code finds the last digit of every number of nw words just when nw is within the limit. */
  lemma DigitIsRight(nw: nat)
    ensures (forall v: nat :: v < Base(nw) ==> CodeDigit(v, nw) == v % 10) <==> nw <= LIMIT
  {
    hide Base, CodeDigit, Culprit;
    if nw <= LIMIT {
      forall v: nat | v < Base(nw) ensures CodeDigit(v, nw) == v % 10 {
        DigitWithinLimit(v, nw);
      }
    } else {
      CulpritIsWrong(nw);
    }
  }
}
