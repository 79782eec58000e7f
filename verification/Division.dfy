/**
 mp_divmod_into: division with remainder by Newton-Raphson approximation of the
 reciprocal of the divisor.
 */
module Division {
  import opened Arithmetic
  import opened Words
  import opened MpInts
  import opened AddSub
  import opened Multiply
  import opened Karatsuba
  import opened Shifts
  import opened Newton
  import Seed

  lemma Pow2At64()
    ensures Pow2(32) == 0x1_0000_0000 && Pow2(63) == 0x8000_0000_0000_0000 && Pow2(64) == TWO64
  {
    hide Pow2;
    Pow2At32();
    Pow2Add(32, 32);
    Pow2Step(63);
  }

  // --------------------------------------------------- the leading bits of the divisor

  /** A 128-bit value held in two 64-bit variables. */
  function Pair(hi: nat, lo: nat): nat { hi * TWO64 + lo }

  /** The shifts that the code applies to a pair: right by one word, and left by sl bits. */
  method ShiftPairDown(hi: nat, lo: nat, word: Word) returns (hi': nat, lo': nat)
    requires hi < TWO64 && lo < TWO64
    ensures hi' < TWO64 && lo' < TWO64
    ensures Pair(hi', lo') == Pair(hi, lo) / BASE + word * Pow2(128 - BIGNUM_INT_BITS)
  {
    hide Pow2;
    BaseIsBig();
    var q := Pow2(64 - BIGNUM_INT_BITS);
    Pow2At64();
    Pow2Add(BIGNUM_INT_BITS, 64 - BIGNUM_INT_BITS);
    Pow2Add(64, 64 - BIGNUM_INT_BITS);
    DownArith(hi, lo, word, BASE, q, TWO64);
    lo' := lo / BASE + (hi * q) % TWO64;
    hi' := hi / BASE + word * q;
  }

  lemma DownArith(hi: nat, lo: nat, w: nat, b: nat, q: nat, t: nat)
    requires 0 < b && 0 < q && b * q == t && hi < t && lo < t && w < b
    ensures 0 <= lo / b + (hi * q) % t < t
    ensures 0 <= hi / b + w * q < t
    ensures (hi / b + w * q) * t + (lo / b + (hi * q) % t) == (hi * t + lo) / b + w * (t * q)
  {
    DownLow(hi, b, q, t);
    DownBounds(lo, hi % b, b, q);
    DownBounds(hi, w, b, q);
    DownValue(hi, lo, w, b, q, t);
  }

  lemma DownLow(hi: nat, b: nat, q: nat, t: nat)
    requires 0 < b && 0 < q && b * q == t
    ensures 0 < t && (hi * q) % t == hi % b * q
  {
    ModScale(hi, b, q);
  }

  lemma DownValue(hi: nat, lo: nat, w: nat, b: nat, q: nat, t: nat)
    requires 0 < b && 0 < q && b * q == t
    ensures (hi / b + w * q) * t + (lo / b + hi % b * q) == (hi * t + lo) / b + w * (t * q)
  {
    DownQuotient(hi, lo, b, q, t);
    DivNonNeg(hi, b);
    DownExpand(hi, hi / b, hi % b, w, b, q, t);
  }

  lemma DownQuotient(hi: nat, lo: nat, b: nat, q: nat, t: nat)
    requires 0 < b && 0 < q && b * q == t
    ensures (hi * t + lo) / b == hi * q + lo / b
  {
    MulAssoc(hi, q, b);
    ModAddMultiple(lo, hi * q, b);
  }

  lemma DownExpand(hi: nat, h1: nat, h0: nat, w: nat, b: nat, q: nat, t: nat)
    requires b * q == t && hi == h1 * b + h0
    ensures hi * q + w * (t * q) == (h1 + w * q) * t + h0 * q
  {
    Distribute(q, h1 * b, h0);
    MulAssoc(h1, b, q);
    Distribute(t, h1, w * q);
    MulAssoc(w, q, t);
  }

  lemma DownBounds(x: nat, y: nat, b: nat, q: nat)
    requires 0 < b && 0 < q && x < b * q && y < b
    ensures 0 <= x / b + y * q < b * q
  {
    DivNonNeg(x, b);
    DivLt(x, b, q);
    MulLe(0, y, q);
    MulLe(y + 1, b, q);
    Distribute(q, y, 1);
  }

  method ShiftPairUp(hi: nat, lo: nat, sl: nat) returns (hi': nat, lo': nat)
    requires hi < TWO64 && lo < TWO64 && 0 < sl < 64 && Pair(hi, lo) * Pow2(sl) < TWO64 * TWO64
    ensures hi' < TWO64 && lo' < TWO64
    ensures Pair(hi', lo') == Pair(hi, lo) * Pow2(sl)
  {
    hide Pow2;
    var sr := 64 - sl;
    Pow2At64();
    Pow2Add(sl, sr);
    UpArith(hi, lo, Pow2(sl), Pow2(sr), TWO64);
    hi' := (hi * Pow2(sl)) % TWO64 + lo / Pow2(sr);
    lo' := (lo * Pow2(sl)) % TWO64;
  }

  lemma UpArith(hi: nat, lo: nat, p: nat, q: nat, t: nat)
    requires 0 < p && 0 < q && p * q == t && hi < t && lo < t && (hi * t + lo) * p < t * t
    ensures 0 <= (hi * p) % t + lo / q < t
    ensures 0 <= (lo * p) % t < t
    ensures ((hi * p) % t + lo / q) * t + (lo * p) % t == (hi * t + lo) * p
  {
    MulLt(0, p, q);
    var l1, l0 := lo / q, lo % q;
    DivNonNeg(lo, q);
    assert (lo * p) % t == l0 * p && 0 <= l0 * p < t by {
      ModScale(lo, q, p);
      assert q * p == t;
    }
    UpExpand(hi, l1, l0, p, q, t);
    assert lo == l1 * q + l0;
    MulLe(0, hi, p);
    MulLtCancel(hi * p + l1, t, t);
    SmallMod(hi * p, t);
  }

  lemma UpExpand(hi: nat, l1: nat, l0: nat, p: nat, q: nat, t: nat)
    requires p * q == t
    ensures (hi * t + (l1 * q + l0)) * p == (hi * p + l1) * t + l0 * p
  {
    Distribute(p, hi * t, l1 * q + l0);
    Distribute(p, l1 * q, l0);
    MulAssoc(l1, q, p);
    MulAssoc(hi, t, p);
    MulAssoc(hi, p, t);
    Distribute(t, hi * p, l1);
  }

  /** What hibits:lobits hold after the words of s: its leading 128 bits, the last word on top. */
  function Leading(s: seq<Word>): nat
    requires 0 < |s|
  {
    MulLe(0, Nat(s), Pow2(128 - BIGNUM_INT_BITS));
    DivNonNeg(Nat(s) * Pow2(128 - BIGNUM_INT_BITS), Base(|s| - 1));
    Nat(s) * Pow2(128 - BIGNUM_INT_BITS) / Base(|s| - 1)
  }

  lemma LeadingStep(s: seq<Word>, i: nat)
    requires i < |s|
    ensures Leading(s[..i + 1]) ==
            (if i == 0 then 0 else Leading(s[..i])) / BASE + s[i] * Pow2(128 - BIGNUM_INT_BITS)
  {
    hide Nat, Base, Pow2;
    BaseIsBig();
    var k, n := Pow2(128 - BIGNUM_INT_BITS), Nat(s[..i]);
    NatStep(s, i);
    assert |s[..i + 1]| == i + 1;
    if i == 0 {
      NatEmpty(s);
      SmallMod(0, BASE);
      DivModUnique(s[0] * k, 1, s[0] * k, 0);
    } else {
      BaseStep(i - 1);
      DivDiv(n * k, Base(i - 1), BASE);
      assert (n + s[i] * Base(i)) * k == n * k + s[i] * k * Base(i) by {
        Distribute(k, n, s[i] * Base(i));
        MulAssoc(s[i], Base(i), k);
        MulAssoc(s[i], k, Base(i));
      }
      ModAddMultiple(n * k, s[i] * k, Base(i));
    }
  }

  /** index is the position of the highest nonzero word among s, if there is one. */
  ghost predicate TopWord(s: seq<Word>, index: nat, hi: nat, lo: nat) {
    hi < TWO64 && lo < TWO64 &&
    (Nat(s) > 0 ==> index < |s| && Base(index) <= Nat(s) < Base(index + 1) && Nat(s) == Nat(s[..index + 1])
                    && Pair(hi, lo) == Leading(s[..index + 1]))
  }

  lemma TopWordStep(s: seq<Word>, i: nat, index: nat, hi: nat, lo: nat, index': nat, hi': nat, lo': nat)
    requires i < |s| && TopWord(s[..i], index, hi, lo) && hi' < TWO64 && lo' < TWO64
    requires s[i] == 0 ==> index' == index && hi' == hi && lo' == lo
    requires s[i] != 0 ==> index' == i && Pair(hi', lo') == Leading(s[..i + 1])
    ensures TopWord(s[..i + 1], index', hi', lo')
  {
    hide Nat, Base, Leading, Pair;
    NatStep(s, i);
    NatBound(s[..i]);
    NatBound(s[..i + 1]);
    var t := s[..i + 1];
    if s[i] == 0 {
      if Nat(t) > 0 {
        assert t[..index + 1] == s[..i][..index + 1];
      }
    } else {
      MulLe(1, s[i], Base(i));
      assert t[..i + 1] == t;
    }
  }

  /** mp_find_highest_nonzero_word_pair, shifting each word to the top of a pair of 64-bit variables. */
  method FindTopWord(x: MpInt) returns (index: nat, hi: nat, lo: nat)
    requires x.Valid()
    ensures TopWord(x.Words(), index, hi, lo)
  {
    hide Nat, Base, Pow2, Leading, TopWord, Pair;
    ghost var s := x.Words();
    index, hi, lo := 0, 0, 0;
    var curHi: nat, curLo: nat, i: nat := 0, 0, 0;
    NoTopWord(s);
    while i < x.nw
      invariant 0 <= i <= x.nw
      invariant curHi < TWO64 && curLo < TWO64
      invariant Pair(curHi, curLo) == if i == 0 then 0 else Leading(s[..i])
      invariant hi < TWO64 && lo < TWO64 && TopWord(s[..i], index, hi, lo)
    {
      var word := x.WordOf(i);
      assert word == s[i];
      curHi, curLo := ShiftPairDown(curHi, curLo, word);
      LeadingStep(s, i);
      ghost var index0, hi0, lo0 := index, hi, lo;
      if word != 0 {
        index, hi, lo := i, curHi, curLo;
      }
      TopWordStep(s, i, index0, hi0, lo0, index, hi, lo);
      i := i + 1;
    }
    assert s[..i] == s;
  }

  lemma NoTopWord(s: seq<Word>)
    ensures TopWord(s[..0], 0, 0, 0) && Pair(0, 0) == 0
  {
    NatEmpty(s);
  }

  // ----------------------------------------------------------- normalising the divisor

  /** The high variable has its top sl bits clear exactly if the pair is below 2^(128 - sl). */
  lemma TopBitsClear(hi: nat, lo: nat, sl: nat)
    requires hi < TWO64 && lo < TWO64 && 0 < sl < 64
    ensures hi / Pow2(64 - sl) == 0 <==> Pair(hi, lo) < Pow2(128 - sl)
  {
    hide Pow2;
    var q := Pow2(64 - sl);
    Pow2At64();
    Pow2Add(64 - sl, 64);
    DivLt(hi, q, 1);
    DivNonNeg(hi, q);
    if hi < q {
      MulLe(hi + 1, q, TWO64);
      Distribute(TWO64, hi, 1);
    } else {
      MulLe(q, hi, TWO64);
    }
  }

  /** Shift the pair up until its top bit is set, in log n passes; s counts the places. */
  method Normalise(hi0: nat, lo0: nat) returns (hi: nat, lo: nat, s: nat)
    requires hi0 < TWO64 && lo0 < TWO64 && Pow2(128 - BIGNUM_INT_BITS) <= Pair(hi0, lo0)
    ensures hi < TWO64 && lo < TWO64 && s < BIGNUM_INT_BITS
    ensures Pow2(127) <= Pair(hi, lo) == Pair(hi0, lo0) * Pow2(s)
  {
    hide Pow2, Pair;
    hi, lo, s := hi0, lo0, 0;
    var i := BIGNUM_INT_BITS_BITS;
    BitsOfBits();
    Pow2Step(0);
    while 0 < i
      invariant 0 <= i <= BIGNUM_INT_BITS_BITS
      invariant hi < TWO64 && lo < TWO64 && s + Pow2(i) <= BIGNUM_INT_BITS
      invariant Pow2(128 - Pow2(i)) <= Pair(hi, lo) == Pair(hi0, lo0) * Pow2(s)
    {
      i := i - 1;
      var sl := Pow2(i);
      Pow2Step(i);
      TopBitsClear(hi, lo, sl);
      if hi / Pow2(64 - sl) == 0 {
        ShiftRoom(Pair(hi, lo), sl);
        PowersMultiply(Pair(hi0, lo0), s, sl);
        hi, lo := ShiftPairUp(hi, lo, sl);
        s := s + sl;
      }
    }
  }

  lemma ShiftRoom(v: nat, sl: nat)
    requires 0 < sl < 64 && Pow2(128 - 2 * sl) <= v < Pow2(128 - sl)
    ensures Pow2(128 - sl) <= v * Pow2(sl) < TWO64 * TWO64
  {
    hide Pow2;
    Pow2At64();
    Pow2Add(64, 64);
    Pow2Add(128 - 2 * sl, sl);
    Pow2Add(128 - sl, sl);
    MulLe(Pow2(128 - 2 * sl), v, Pow2(sl));
    MulLt(v, Pow2(128 - sl), Pow2(sl));
  }

  lemma PowersMultiply(v: nat, s: nat, t: nat)
    ensures v * Pow2(s) * Pow2(t) == v * Pow2(s + t)
  {
    hide Pow2;
    Pow2Add(s, t);
    MulAssoc(v, Pow2(s), Pow2(t));
  }

  /** Shift a 32-bit value at bit 32 of a pair up by s places, in log n passes. */
  method ScaleUp(rec: nat, s: nat) returns (hi: nat, lo: nat)
    requires rec < 0x1_0000_0000 && s < BIGNUM_INT_BITS
    ensures hi < TWO64 && lo < TWO64 && Pair(hi, lo) == rec * Pow2(32 + s)
  {
    hide Pow2, Pair;
    Pow2At64();
    BitsOfBits();
    hi, lo := 0, rec * 0x1_0000_0000;
    ghost var done := 0;
    var i := BIGNUM_INT_BITS_BITS;
    ScaleStart(rec, s);
    while 0 < i
      invariant 0 <= i <= BIGNUM_INT_BITS_BITS
      invariant hi < TWO64 && lo < TWO64
      invariant done == s / Pow2(i) * Pow2(i) && 0 <= done
      invariant Pair(hi, lo) == rec * Pow2(32 + done)
    {
      i := i - 1;
      DivNonNeg(s, Pow2(i));
      NextPlace(s, i);
      if s / Pow2(i) % 2 == 1 {
        var sl := Pow2(i);
        ScaleRoom(rec, done + sl, s);
        PowersMultiply(rec, 32 + done, sl);
        SmallPlace(i);
        hi, lo := ShiftPairUp(hi, lo, sl);
        done := done + sl;
      }
    }
    Pow2Step(0);
    DivModUnique(s, 1, s, 0);
  }

  lemma ScaleStart(rec: nat, s: nat)
    requires rec < 0x1_0000_0000 && s < BIGNUM_INT_BITS
    ensures rec * 0x1_0000_0000 < TWO64
    ensures Pair(0, rec * 0x1_0000_0000) == rec * Pow2(32 + 0)
    ensures s / Pow2(BIGNUM_INT_BITS_BITS) * Pow2(BIGNUM_INT_BITS_BITS) == 0
  {
    hide Pow2;
    Pow2At64();
    BitsOfBits();
    SmallMod(s, BIGNUM_INT_BITS);
  }

  lemma SmallPlace(i: nat)
    requires i < BIGNUM_INT_BITS_BITS
    ensures 0 < Pow2(i) < 64
  {
    hide Pow2;
    BitsOfBits();
    Pow2Lt(i, BIGNUM_INT_BITS_BITS);
  }

  /** The places shifted so far, read off the top bits of s. */
  lemma NextPlace(s: nat, i: nat)
    ensures 0 <= s / Pow2(i) * Pow2(i) <= s
    ensures s / Pow2(i) * Pow2(i) == s / Pow2(i + 1) * Pow2(i + 1) + s / Pow2(i) % 2 * Pow2(i)
  {
    hide Pow2;
    var p := Pow2(i);
    Pow2Step(i);
    DivNonNeg(s, p);
    DivDiv(s, p, 2);
    MulLe(0, s / p, p);
    var y := s / p;
    assert y * p == (y / 2 * 2 + y % 2) * p;
    Distribute(p, y / 2 * 2, y % 2);
    MulAssoc(y / 2, 2, p);
  }

  lemma ScaleRoom(rec: nat, t: nat, s: nat)
    requires rec < 0x1_0000_0000 && t <= s < 64
    ensures rec * Pow2(32 + t) < TWO64 * TWO64
  {
    hide Pow2;
    Pow2At64();
    Pow2Le(32 + t, 96);
    Pow2Add(32, 64);
    MulLtBoth(rec, Pow2(32), Pow2(32 + t), Pow2(96));
    assert Pow2(32) * Pow2(96) == TWO64 * TWO64;
  }

  // -------------------------------------------------------------- the reciprocal's seed

  /** mp_add_integer_into_shifted_by_words. */
  method AddIntegerIntoShiftedByWords(r: MpInt, a: MpInt, n: nat, wordIndex: nat)
    requires r.Valid() && a.Valid() && ReadUp(r, a)
    modifies r.mem
    ensures OnlyWrites(r)
    ensures r.Value() == (old(a.Value()) + n * Base(wordIndex)) % Base(r.nw)
  {
    hide Nat, Base;
    MulLe(0, n, Base(wordIndex));
    var c := AddShiftedDigits(r, a, n, wordIndex);
    ghost var v, p := n * Base(wordIndex), Base(r.nw);
    SumIsAdd(r.Words(), old(a.Words()), Digits(v, r.nw), true, c);
    NatDigits(v, r.nw);
    CongMod(v, p);
    CongAdd(old(a.Value()), old(a.Value()), v % p, v, p);
  }

  method AddShiftedDigits(r: MpInt, a: MpInt, n: nat, wordIndex: nat) returns (c: nat)
    requires r.Valid() && a.Valid() && ReadUp(r, a) && 0 <= n * Base(wordIndex)
    modifies r.mem
    ensures OnlyWrites(r) && c <= 1
    ensures SumSoFar(r.Words(), old(a.Words()), Digits(n * Base(wordIndex), r.nw), true, false, 0, c)
  {
    hide Nat, Base, SumSoFar, Digits;
    ghost var wa, wb, out: seq<Word> := a.Words(), Digits(n * Base(wordIndex), r.nw), [];
    BaseIsBig();
    BaseStep(0);
    SumStart(wa, wb, true, false, 0);
    DivModUnique(n, 1, n, 0);
    c := 0;
    var i, b := 0, n;
    while i < r.nw
      invariant 0 <= i <= r.nw && c <= 1 && |out| == i
      invariant b == if i < wordIndex then n else n / Base(i - wordIndex)
      invariant OnlyWrites(r)
      invariant forall j :: 0 <= j < i ==> r.Words()[j] == out[j]
      invariant SumSoFar(out, wa, wb, true, false, 0, c)
      invariant forall j :: a.off + i <= j < a.off + a.nw ==> a.mem[j] == old(a.mem[j])
    {
      ghost var c0 := c;
      var w;
      ShiftedDigitOf(n, wordIndex, r.nw, i);
      w, c := Adc(a.WordOf(i), if i < wordIndex then 0 else b % BASE, c);
      AdcStep(out, wa, wb, true, false, 0, w, c0, c);
      SetWord(r, i, w);
      b := if i < wordIndex then b else b / BASE;
      out, i := out + [w], i + 1;
    }
    assert r.Words() == out;
  }

  lemma ShiftedDigitOf(n: nat, k: nat, rw: nat, i: nat)
    requires i < rw
    ensures 0 <= n * Base(k)
    ensures Digits(n * Base(k), rw)[i] == if i < k then 0 else n / Base(i - k) % BASE
    ensures k <= i ==> n / Base(i - k) / BASE == n / Base(i + 1 - k)
  {
    hide Base, Digits;
    BaseIsBig();
    MulLe(0, n, Base(k));
    DigitsAt(n * Base(k), rw, i);
    if i < k {
      LowDigitOfMultiple(n, i, k);
    } else {
      HighDigitOfMultiple(n, i, k);
      BaseStep(i - k);
      DivDiv(n, Base(i - k), BASE);
    }
  }

  /** The exponent of R: 191 plus whole words, and enough for the sizes of n and d with 3 bits to spare. */
  function Log2R(nw: nat, dw: nat): nat {
    MaxBits(RWords(nw, dw)) + 191
  }

  function RWords(nw: nat, dw: nat): nat {
    var need := MaxBits(nw + dw) + 3;
    WordsForBits(need - Min(191, need))
  }

  lemma Log2RSize(nw: nat, dw: nat)
    ensures MaxBits(nw + dw) + 3 <= Log2R(nw, dw)
    ensures 8 * (Base(nw) * Base(dw)) <= Pow2(Log2R(nw, dw))
  {
    hide Pow2, Base, MaxBits, WordsForBits;
    var need := MaxBits(nw + dw) + 3;
    WordsForBitsFit(need - Min(191, need));
    BaseIsPow2(nw + dw);
    BaseAdd(nw, dw);
    Pow2Add(MaxBits(nw + dw), 3);
    Pow2Step(0);
    Pow2Step(1);
    Pow2Step(2);
    Pow2Le(MaxBits(nw + dw) + 3, Log2R(nw, dw));
  }

  /** Where the seed goes in the reciprocal: never below word 0. */
  function SeedWord(nw: nat, dw: nat, h: nat): int {
    RWords(nw, dw) + 128 / BIGNUM_INT_BITS - 1 - h
  }

  lemma SeedWordIndex(nw: nat, dw: nat, h: nat)
    requires 0 < nw && h < dw
    ensures 0 <= SeedWord(nw, dw, h)
  {
    hide WordsForBits;
    var need := MaxBits(nw + dw) + 3;
    WordsForBitsFit(need - Min(191, need));
  }

  /** The quotient of sizes that makes the product of d and its seed come out near R. */
  lemma SeedScale(nw: nat, dw: nat, h: nat, s: nat)
    requires 0 <= SeedWord(nw, dw, h)
    ensures Pow2(96) * Base(h) * (Pow2(32 + s) * Base(SeedWord(nw, dw, h))) * Pow2(63) ==
            Pow2(Log2R(nw, dw)) * (Pow2(128 - BIGNUM_INT_BITS) * Pow2(s))
  {
    hide Pow2, Base, RWords;
    var o, k := SeedWord(nw, dw, h), RWords(nw, dw);
    BaseIsPow2(h);
    BaseIsPow2(o);
    Pow2Sum4(96, MaxBits(h), 32 + s, MaxBits(o));
    Pow2Add(96 + MaxBits(h) + (32 + s) + MaxBits(o), 63);
    Pow2Add(128 - BIGNUM_INT_BITS, s);
    Pow2Add(Log2R(nw, dw), 128 - BIGNUM_INT_BITS + s);
    SeedExponents(h, o, k);
  }

  lemma SeedExponents(h: nat, o: nat, k: nat)
    requires o == k + 128 / BIGNUM_INT_BITS - 1 - h
    ensures MaxBits(h) + MaxBits(o) + BIGNUM_INT_BITS == MaxBits(k) + 128
  {
  }

  lemma Pow2Sum4(a: nat, b: nat, c: nat, d: nat)
    ensures Pow2(a) * Pow2(b) * (Pow2(c) * Pow2(d)) == Pow2(a + b + c + d)
  {
    hide Pow2;
    Pow2Add(a, b);
    Pow2Add(c, d);
    Pow2Add(a + b, c + d);
  }

  /** x holds the leading 32 bits of d: lead = d * k / b, shifted up by q and then down by 2^96. */
  lemma LeadingBits(d: nat, k: nat, b: nat, q: nat, q': nat, x: nat)
    requires 0 < k && 0 < b && 0 < q && 0 < q'
    requires x == d * k / b * q / (q * q')
    ensures x * (q * q' * b) <= d * (k * q) < (x + 1) * (q * q' * b)
  {
    MulLt(0, q, q');
    MulLe(0, d, k);
    var a := d * k / b;
    DivNonNeg(d * k, b);
    assert x == a / q' by { ModScale(a, q', q); assert q' * q == q * q'; }
    // a b <= d k < (a + 1) b, and x q' <= a < (x + 1) q'
    DivLt(a, q', x);
    DivLt(a, q', x + 1);
    DivLt(d * k, b, a);
    DivLt(d * k, b, a + 1);
    var t := q * b;
    MulLt(0, q, b);
    assert d * (k * q) == d * k * q;
    assert x * (q * q' * b) == x * q' * b * q;
    assert (x + 1) * (q * q' * b) == (x + 1) * q' * b * q;
    MulLe(x * q', a, b);
    MulLe(x * q' * b, d * k, q);
    MulLe(a + 1, (x + 1) * q', b);
    MulLt(d * k, (x + 1) * q' * b, q);
  }

  /** The number of words that hold twice R. */
  function RecipWords(nw: nat, dw: nat): nat {
    WordsForBits(Log2R(nw, dw) + 2)
  }

  lemma RecipFits(nw: nat, dw: nat)
    ensures 4 * Pow2(Log2R(nw, dw)) <= Base(RecipWords(nw, dw))
    ensures Log2R(nw, dw) < MaxBits(RecipWords(nw, dw))
  {
    hide Pow2, Base, Log2R, WordsForBits;
    var e := Log2R(nw, dw);
    WordsForBitsFit(e + 2);
    Pow2Step(e);
    Pow2Step(e + 1);
    BaseIsPow2(RecipWords(nw, dw));
    Pow2Le(e + 2, MaxBits(RecipWords(nw, dw)));
  }

  /** The leading bits of d, inverted and put in place, are an approximation with 20 good bits. */
  lemma SeedResult(w: seq<Word>, nw: nat, h: nat, hi: nat, lo: nat, hi': nat, lo': nat, s: nat, rec: nat)
    requires 0 < nw && 0 < Nat(w) && TopWord(w, h, hi, lo) && 0 <= SeedWord(nw, |w|, h)
    requires hi' < TWO64 && lo' < TWO64 && s < BIGNUM_INT_BITS && Pair(hi', lo') == Pair(hi, lo) * Pow2(s)
    requires rec < 0x1_0000_0000
    requires 0 <= hi' / 0x1_0000_0000 < 0x1_0000_0000
    requires Abs(rec * (hi' / 0x1_0000_0000) - 0x8000_0000_0000_0000) <= 2047 * (hi' / 0x1_0000_0000)
    ensures var R, v := Pow2(Log2R(nw, |w|)), rec * (Pow2(32 + s) * Base(SeedWord(nw, |w|, h)));
            0 <= v <= 2 * R && Accurate(Nat(w), v, R, 20)
  {
    hide Nat, Base, Pow2, Log2R, SeedWord, Leading;
    var d, R, o, x := Nat(w), Pow2(Log2R(nw, |w|)), SeedWord(nw, |w|, h), hi' / 0x1_0000_0000;
    var scale := Pow2(32 + s) * Base(o);
    MulLe(0, Pow2(32 + s), Base(o));
    MulLe(0, rec, scale);
    LeadingIs(w, h);
    Pow2At64();
    Pow2Add(s, 96 - s);
    TopOfPair(hi', lo');
    LeadingBits(d, Pow2(128 - BIGNUM_INT_BITS), Base(h), Pow2(s), Pow2(96 - s), x);
    SeedScale(nw, |w|, h, s);
    MulLt(0, Pow2(128 - BIGNUM_INT_BITS), Pow2(s));
    SeedAccuracy(d, Pow2(128 - BIGNUM_INT_BITS) * Pow2(s), x, Pow2(96) * Base(h), rec, scale, R);
    SeedGoodBits(d, rec * scale, R);
  }

  lemma LeadingIs(w: seq<Word>, h: nat)
    requires h < |w| && Nat(w) == Nat(w[..h + 1])
    ensures Leading(w[..h + 1]) == Nat(w) * Pow2(128 - BIGNUM_INT_BITS) / Base(h)
  {
  }

  lemma TopOfPair(hi: nat, lo: nat)
    requires lo < TWO64
    ensures Pair(hi, lo) / Pow2(96) == hi / 0x1_0000_0000
  {
    hide Pow2;
    Pow2At64();
    Pow2Add(64, 32);
    DivDiv(Pair(hi, lo), TWO64, 0x1_0000_0000);
    DivModUnique(Pair(hi, lo), TWO64, hi, lo);
  }

  lemma SeedGoodBits(d: nat, v: nat, R: nat)
    requires 0 < d && Abs(Error(d, v, R)) * 0x10_0000 <= R
    ensures v <= 2 * R && Accurate(d, v, R, 20)
  {
    hide Pow2;
    Pow2At32();
    Pow2At8();
    Pow2Add(4, 16);
    assert d * v <= 2 * R;
    MulLe(1, d, v);
  }

  /** The starting approximation to R/d. */
  method MakeSeed(d: MpInt, nw: nat) returns (r: MpInt)
    requires d.Valid() && 0 < nw && 0 < d.Value()
    ensures fresh(r.mem) && r.Valid() && r.off == 0 && r.nw == RecipWords(nw, d.nw)
    ensures Accurate(d.Value(), r.Value(), Pow2(Log2R(nw, d.nw)), 20)
  {
    hide Nat, Base, Pow2, Log2R, RecipWords, SeedWord, Accurate, Pair, Leading;
    var h, hi, lo := FindTopWord(d);
    TopWordBound(d.Words(), h, hi, lo);
    var hi', lo', s := Normalise(hi, lo);
    NormalisedTop(hi', lo');
    var rec := Seed.RecipApprox32(hi' / 0x1_0000_0000);
    SeedWordIndex(nw, d.nw, h);
    SeedResult(d.Words(), nw, h, hi, lo, hi', lo', s, rec);
    var shi, slo := ScaleUp(rec, s);
    r := MakeSized(RecipWords(nw, d.nw));
    var o: nat := SeedWord(nw, d.nw, h);
    RecipFits(nw, d.nw);
    SeedPieces(shi, slo, rec, s, o, r.nw);
    AddIntegerIntoShiftedByWords(r, r, slo, o);
    AddIntegerIntoShiftedByWords(r, r, shi, o + 64 / BIGNUM_INT_BITS);
  }

  lemma TopWordBound(w: seq<Word>, h: nat, hi: nat, lo: nat)
    requires 0 < Nat(w) && TopWord(w, h, hi, lo)
    ensures h < |w| && hi < TWO64 && lo < TWO64 && Pow2(128 - BIGNUM_INT_BITS) <= Pair(hi, lo)
  {
    hide Nat, Base, Pow2, Pair, Leading;
    var k := Pow2(128 - BIGNUM_INT_BITS);
    LeadingIs(w, h);
    MulLe(Base(h), Nat(w), k);
    DivLt(Nat(w) * k, Base(h), k);
  }

  lemma NormalisedTop(hi: nat, lo: nat)
    requires hi < TWO64 && lo < TWO64 && Pow2(127) <= Pair(hi, lo)
    ensures 0x8000_0000 <= hi / 0x1_0000_0000 < 0x1_0000_0000
  {
    hide Pow2;
    Pow2At64();
    Pow2Add(63, 64);
    DivLt(hi, 0x1_0000_0000, 0x1_0000_0000);
    DivLt(hi, 0x1_0000_0000, 0x8000_0000);
    if hi < 0x8000_0000_0000_0000 {
      MulLe(hi + 1, 0x8000_0000_0000_0000, TWO64);
      Distribute(TWO64, hi, 1);
    }
  }

  /** Adding the two halves in at adjacent places gives the whole, without overflow. */
  lemma SeedPieces(hi: nat, lo: nat, rec: nat, s: nat, o: nat, rw: nat)
    requires Pair(hi, lo) == rec * Pow2(32 + s) && 0 <= rec * (Pow2(32 + s) * Base(o)) < Base(rw)
    ensures var k := o + 64 / BIGNUM_INT_BITS;
            ((0 + lo * Base(o)) % Base(rw) + hi * Base(k)) % Base(rw) == rec * (Pow2(32 + s) * Base(o))
  {
    hide Base, Pow2;
    var k, b, p := o + 64 / BIGNUM_INT_BITS, Base(o), Base(rw);
    BaseAdd(64 / BIGNUM_INT_BITS, o);
    BaseIsPow2(64 / BIGNUM_INT_BITS);
    Pow2At64();
    MulAssoc(rec, Pow2(32 + s), b);
    Distribute(b, hi * TWO64, lo);
    MulAssoc(hi, TWO64, b);
    assert lo * b + hi * Base(k) == rec * (Pow2(32 + s) * b);
    CongMod(lo * b, p);
    CongAdd((lo * b) % p, lo * b, hi * Base(k), hi * Base(k), p);
    SmallMod(rec * (Pow2(32 + s) * b), p);
  }

  // --------------------------------------------------------------- the Newton iteration

  /** Shifting down by e bits through an alias that skips the whole words. */
  method ShiftDown(r: MpInt, x: MpInt, e: nat)
    requires r.Valid() && x.Valid() && r.mem != x.mem && e < MaxBits(x.nw)
    modifies r.mem
    ensures OnlyWrites(r)
    ensures r.Value() == (x.Value() / Pow2(e)) % Base(r.nw)
  {
    hide Nat, Base, Pow2, MaxBits, MpInt.Words, MpInt.Value;
    var k := e / BIGNUM_INT_BITS;
    DivNonNeg(e, BIGNUM_INT_BITS);
    SkippedWords(x, e);
    RshiftFixedInto(r, Alias(x, k, x.nw), e % BIGNUM_INT_BITS);
  }

  lemma SkippedWords(x: MpInt, e: nat)
    requires x.Valid() && e < MaxBits(x.nw)
    ensures 0 <= e / BIGNUM_INT_BITS
    ensures Alias(x, e / BIGNUM_INT_BITS, x.nw).Value() / Pow2(e % BIGNUM_INT_BITS) == x.Value() / Pow2(e)
  {
    hide Nat, Base, Pow2, MpInt.Words, MpInt.Value;
    var k := e / BIGNUM_INT_BITS;
    DivNonNeg(e, BIGNUM_INT_BITS);
    AliasValue(x, k, x.nw);
    SplitShift(x.Value(), e);
    ValueBound(x);
    DivNonNeg(x.Value(), Base(k));
    SmallMod(x.Value() / Base(k), Base(x.nw));
  }

  /** The registers of the iteration, each in memory of its own. */
  datatype Registers = Registers(r: MpInt, twoR: MpInt, dr: MpInt, diff: MpInt, product: MpInt, scratch: MpInt) {
    ghost predicate Valid(d: MpInt, rw: nat) {
      && r.Valid() && twoR.Valid() && dr.Valid() && diff.Valid() && product.Valid() && scratch.Valid() && d.Valid()
      && r.nw == twoR.nw == rw && dr.nw == diff.nw == rw + d.nw && product.nw == rw + diff.nw
      && scratch.nw >= 6 * (rw + d.nw)
      && r.mem != twoR.mem && r.mem != dr.mem && r.mem != diff.mem && r.mem != product.mem && r.mem != scratch.mem
      && twoR.mem != dr.mem && twoR.mem != diff.mem && twoR.mem != product.mem && twoR.mem != scratch.mem
      && dr.mem != diff.mem && dr.mem != product.mem && dr.mem != scratch.mem
      && diff.mem != product.mem && diff.mem != scratch.mem && product.mem != scratch.mem
      && d.mem !in {r.mem, twoR.mem, dr.mem, diff.mem, product.mem, scratch.mem}
    }
  }

  /** One Newton-Raphson step: r becomes r (2R - d r) / R, rounded down. */
  method Iterate(g: Registers, d: MpInt, e: nat, rw: nat)
    requires g.Valid(d, rw) && g.twoR.Value() == 2 * Pow2(e) && e < MaxBits(rw)
    requires 4 * Pow2(e) <= Base(rw) && d.Value() * g.r.Value() < 2 * Pow2(e)
    requires Next(d.Value(), g.r.Value(), Pow2(e)) <= Pow2(e)
    modifies g.r.mem, g.dr.mem, g.diff.mem, g.product.mem, g.scratch.mem
    ensures g.r.Value() == Next(d.Value(), old(g.r.Value()), Pow2(e))
  {
    hide Nat, Base, Pow2, MpInt.Words, MpInt.Value, MaxBits, NextTimesR;
    ghost var rv, dv, R := g.r.Value(), d.Value(), Pow2(e);
    IterateFits(rv, dv, R, rw, d.nw);
    ValueBound(g.r);
    MulInternal(g.dr, g.r, d, g.scratch);
    SubInto(g.diff, g.twoR, g.dr);
    IterateProduct(rv, dv, g.diff.Value(), R, rw, g.diff.nw, g.product.nw);
    MulInternal(g.product, g.r, g.diff, g.scratch);
    assert g.product.Value() == NextTimesR(dv, rv, R);
    MaxBitsLe(rw, g.product.nw);
    ShiftDown(g.r, g.product, e);
  }

  lemma IterateFits(r: nat, d: nat, R: nat, rw: nat, dw: nat)
    requires 4 * R <= Base(rw) && d * r < 2 * R && 0 < R
    ensures (r * d) % Base(rw + dw) == d * r
    ensures (2 * R - d * r) % Base(rw + dw) == 2 * R - d * r
  {
    hide Base;
    BaseLe(rw, rw + dw);
    MulLe(0, d, r);
    SmallMod(d * r, Base(rw + dw));
    SmallMod(2 * R - d * r, Base(rw + dw));
  }

  lemma IterateProduct(r: nat, d: nat, f: nat, R: nat, rw: nat, fw: nat, pw: nat)
    requires f == 2 * R - d * r && 0 < R && 4 * R <= Base(rw) && r < Base(rw) && d * r < 2 * R && rw <= fw && pw == rw + fw
    requires Next(d, r, R) <= R
    ensures (r * f) % Base(pw) == NextTimesR(d, r, R)
    ensures Next(d, r, R) % Base(rw) == Next(d, r, R)
  {
    hide Base;
    MulLe(0, d, r);
    BaseLe(rw, fw);
    ProductFits(rw, fw, pw, r, f);
    NextIsNonNegative(d, r, R);
    SmallMod(Next(d, r, R), Base(rw));
  }

  /** The registers, with two_R set. */
  method MakeRegisters(d: MpInt, r: MpInt, e: nat, rw: nat) returns (g: Registers)
    requires d.Valid() && r.Valid() && r.nw == rw && d.mem != r.mem && e + 1 < MaxBits(rw)
    ensures g.r == r && g.Valid(d, rw) && g.twoR.Value() == 2 * Pow2(e)
    ensures fresh(g.twoR.mem) && fresh(g.dr.mem) && fresh(g.diff.mem) && fresh(g.product.mem) && fresh(g.scratch.mem)
    ensures r.Value() == old(r.Value())
  {
    hide Nat, Base, Pow2, MpInt.Words, MpInt.Value, MaxBits;
    var twoR := MakeSized(rw);
    TwoRParts(e, rw);
    AddIntegerIntoShiftedByWords(twoR, twoR, Pow2((e + 1) % BIGNUM_INT_BITS), (e + 1) / BIGNUM_INT_BITS);
    var dr := MakeSized(rw + d.nw);
    var diff := MakeSized(Max(rw, dr.nw));
    var product := MakeSized(rw + diff.nw);
    var scratch := MakeSized(Max(ScratchSpace(dr.nw, rw, d.nw), ScratchSpace(product.nw, rw, diff.nw)));
    g := Registers(r, twoR, dr, diff, product, scratch);
  }

  lemma TwoRParts(e: nat, rw: nat)
    requires e + 1 < MaxBits(rw)
    ensures 0 <= (e + 1) / BIGNUM_INT_BITS
    ensures (0 + Pow2((e + 1) % BIGNUM_INT_BITS) * Base((e + 1) / BIGNUM_INT_BITS)) % Base(rw) == 2 * Pow2(e)
  {
    hide Pow2, Base, MaxBits;
    SplitShift(0, e + 1);
    Pow2Step(e);
    BaseIsPow2(rw);
    Pow2Lt(e + 1, MaxBits(rw));
    SmallMod(Pow2(e + 1), Base(rw));
  }

  /** A reciprocal good enough for n: it is never too big, and its error is negligible against n. */
  method Reciprocal(d: MpInt, nw: nat) returns (r: MpInt, ghost g: nat)
    requires d.Valid() && 0 < nw && 0 < d.Value()
    ensures fresh(r.mem) && r.Valid() && r.off == 0 && r.nw == RecipWords(nw, d.nw)
    ensures MaxBits(nw) + 4 <= g
    ensures Accurate(d.Value(), r.Value(), Pow2(Log2R(nw, d.nw)), g)
    ensures Error(d.Value(), r.Value(), Pow2(Log2R(nw, d.nw))) <= 0
  {
    hide Nat, Base, Pow2, MpInt.Words, MpInt.Value, MaxBits, Log2R, RecipWords, Accurate, Error, Next;
    ghost var dv, R := d.Value(), Pow2(Log2R(nw, d.nw));
    r := MakeSeed(d, nw);
    var e, rw := Log2R(nw, d.nw), r.nw;
    RecipRoom(d, nw);
    var regs := MakeRegisters(d, r, e, rw);
    var goodBits, needed := 20, MaxBits(nw) + 4;
    EnoughToDo(nw);
    while goodBits < needed
      invariant 20 <= goodBits
      invariant regs.Valid(d, rw) && regs.twoR.Value() == 2 * R && d.Value() == dv
      invariant Accurate(dv, r.Value(), R, goodBits)
      invariant goodBits > 20 ==> Error(dv, r.Value(), R) <= 0
      decreases needed - goodBits
    {
      NewtonStep(dv, r.Value(), R, goodBits);
      Iterate(regs, d, e, rw);
      goodBits := goodBits * 2 - 1;
    }
    g := goodBits;
  }

  lemma EnoughToDo(nw: nat)
    requires 0 < nw
    ensures 20 < MaxBits(nw) + 4
  {
    MaxBitsLe(1, nw);
  }

  lemma RecipRoom(d: MpInt, nw: nat)
    requires d.Valid() && 0 < nw
    ensures var R, rw := Pow2(Log2R(nw, d.nw)), RecipWords(nw, d.nw);
            4 * d.Value() <= R && 4 * R <= Base(rw) && Log2R(nw, d.nw) + 1 < MaxBits(rw)
  {
    hide Nat, Base, Pow2, MpInt.Words, MpInt.Value, MaxBits, Log2R, WordsForBits;
    ValueBound(d);
    Log2RSize(nw, d.nw);
    BaseLe(0, nw);
    BaseStep(0);
    MulLe(1, Base(nw), Base(d.nw));
    RecipFits(nw, d.nw);
    WordsForBitsFit(Log2R(nw, d.nw) + 2);
  }

  // ------------------------------------------------------------ quotient and remainder

  /** What multiplying by the reciprocal gives: a quotient that leaves a remainder between 0 and d. */
  lemma RawDivision(n: nat, d: nat, r: nat, nw: nat, dw: nat, g: nat)
    requires 0 < d < Base(dw) && n < Base(nw) && MaxBits(nw) + 4 <= g
    requires var R := Pow2(Log2R(nw, dw)); Accurate(d, r, R, g) && Error(d, r, R) <= 0
    ensures var q := RawQuotient(n, r, Pow2(Log2R(nw, dw)));
            && 0 <= q <= n && q % Base(nw) == q
            && 0 <= n - q * d <= d
            && (n - (q * d) % Base(dw)) % Base(dw) == n - q * d
  {
    hide Base, Pow2, MaxBits, Log2R, Accurate, Error;
    var R := Pow2(Log2R(nw, dw));
    var q := n * r / R;
    assert n <= Pow2(g) by {
      BaseIsPow2(nw);
      Pow2Le(MaxBits(nw), g);
    }
    assert 2 * (n * d) <= R by {
      Log2RSize(nw, dw);
      MulLeBoth(n, Base(nw), d, Base(dw));
    }
    QuotientError(n, d, r, R, g);
    MulLe(1, d, q);
    SmallMod(q, Base(nw));
    CongMod(q * d, Base(dw));
    CongSub(n, n, (q * d) % Base(dw), q * d, Base(dw));
    SmallMod(n - q * d, Base(dw));
  }

  lemma RawQuotientOf(t: nat, n: nat, r: nat, R: nat)
    requires 0 < R && t == r * n
    ensures t / R == RawQuotient(n, r, R)
  {
  }

  /** The quotient before correction, and n minus its product with d. */
  method Estimate(n: MpInt, d: MpInt) returns (quotient: MpInt, remainder: MpInt)
    requires n.Valid() && d.Valid() && 0 < n.nw && 0 < d.Value()
    ensures fresh(quotient.mem) && quotient.Valid() && quotient.off == 0 && quotient.nw == n.nw
    ensures fresh(remainder.mem) && remainder.Valid() && remainder.off == 0 && remainder.nw == d.nw
    ensures quotient.mem != remainder.mem
    ensures quotient.Value() <= n.Value()
    ensures 0 <= n.Value() - quotient.Value() * d.Value() <= d.Value()
    ensures remainder.Value() == n.Value() - quotient.Value() * d.Value()
    ensures quotient.Value() == n.Value() / d.Value() ||
            (quotient.Value() == n.Value() / d.Value() - 1 && n.Value() % d.Value() == 0)
  {
    hide Nat, Base, Pow2, MpInt.Words, MpInt.Value, MaxBits, Log2R, RecipWords, Accurate, Error, RawQuotient;
    var r, g := Reciprocal(d, n.nw);
    ValueBound(n);
    ValueBound(d);
    RawDivision(n.Value(), d.Value(), r.Value(), n.nw, d.nw, g);
    var full := Mul(r, n);
    assert full.Value() / Pow2(Log2R(n.nw, d.nw)) == RawQuotient(n.Value(), r.Value(), Pow2(Log2R(n.nw, d.nw))) by {
      RawQuotientOf(full.Value(), n.Value(), r.Value(), Pow2(Log2R(n.nw, d.nw)));
    }
    RecipRoom(d, n.nw);
    MaxBitsLe(r.nw, full.nw);
    quotient := MakeSized(n.nw);
    ShiftDown(quotient, full, Log2R(n.nw, d.nw));
    remainder := MakeSized(d.nw);
    MulInto(remainder, quotient, d);
    SubInto(remainder, n, remainder);
    RawQuotientIsClose(n.Value(), d.Value(), quotient.Value());
  }

  /** mp_divmod_into, with the two outputs in memory of their own. */
  method DivMod(n: MpInt, d: MpInt) returns (quotient: MpInt, remainder: MpInt)
    requires n.Valid() && d.Valid() && 0 < n.nw && 0 < d.Value()
    ensures fresh(quotient.mem) && quotient.Valid() && quotient.off == 0 && quotient.nw == n.nw
    ensures fresh(remainder.mem) && remainder.Valid() && remainder.off == 0 && remainder.nw == d.nw
    ensures quotient.mem != remainder.mem
    ensures n.Value() == quotient.Value() * d.Value() + remainder.Value()
    ensures remainder.Value() < d.Value()
    ensures quotient.Value() == n.Value() / d.Value() && remainder.Value() == n.Value() % d.Value()
  {
    hide Nat, Base, MpInt.Words, MpInt.Value;
    quotient, remainder := Estimate(n, d);
    ghost var nv, dv, q := n.Value(), d.Value(), quotient.Value();
    ValueBound(d);
    ValueBound(n);
    RawQuotientIsClose(nv, dv, q);
    var correction: nat, iter := 0, 0;
    while iter < 2
      invariant 0 <= iter <= 2 && n.Value() == nv && d.Value() == dv && quotient.Value() == q
      invariant 0 <= correction <= 1
      invariant nv - (q + correction) * dv == remainder.Value() <= dv
      invariant iter > 0 ==> remainder.Value() < dv
    {
      var need := CmpHs(remainder, d);
      CorrectionStep(nv, dv, q, correction, remainder.Value(), d.nw);
      CondSubInto(remainder, remainder, d, need);
      correction := correction + if need then 1 else 0;
      iter := iter + 1;
    }
    DivModUnique(nv, dv, q + correction, remainder.Value());
    QuotientFits(nv, dv, q + correction, n.nw);
    AddIntegerInto(quotient, quotient, correction);
    var tooBig := CmpHs(remainder, d);
    assert !tooBig;
  }

  lemma CorrectionStep(n: nat, d: nat, q: nat, c: nat, rem: nat, dw: nat)
    requires d < Base(dw) && rem == n - (q + c) * d <= d
    ensures (rem - 0) % Base(dw) == rem
    ensures rem >= d ==> (rem - d) % Base(dw) == 0 == n - (q + (c + 1)) * d
  {
    hide Base;
    SmallMod(rem, Base(dw));
    SmallMod(0, Base(dw));
    Distribute(d, q + c, 1);
  }

  lemma QuotientFits(n: nat, d: nat, q: nat, nw: nat)
    requires 0 < d && q == n / d && n < Base(nw)
    ensures q % Base(nw) == q
  {
    hide Base;
    DivNonNeg(n, d);
    SmallMod(q, Base(nw));
  }

  /** mp_divmod_into: the quotient and remainder, cut to the sizes of the outputs given. */
  method DivModInto(n: MpInt, d: MpInt, qOut: MpInt, rOut: MpInt)
    requires n.Valid() && d.Valid() && 0 < n.nw && 0 < d.Value()
    requires qOut.Valid() && rOut.Valid() && Apart(qOut, rOut)
    modifies qOut.mem, rOut.mem
    ensures OnlyWritesBoth((qOut, rOut))
    ensures qOut.Value() == (old(n.Value()) / old(d.Value())) % Base(qOut.nw)
    ensures rOut.Value() == (old(n.Value()) % old(d.Value())) % Base(rOut.nw)
  {
    hide Nat, Base, MpInt.Words, MpInt.Value;
    var quotient, remainder := DivMod(n, d);
    CopyInto(qOut, quotient);
    label Quotient:
    CopyInto(rOut, remainder);
    Untouched@Quotient((rOut, qOut));
  }

  /** mp_div. */
  method Div(n: MpInt, d: MpInt) returns (q: MpInt)
    requires n.Valid() && d.Valid() && 0 < n.nw && 0 < d.Value()
    ensures fresh(q.mem) && q.Valid() && q.off == 0 && q.nw == n.nw
    ensures q.Value() == n.Value() / d.Value()
  {
    var remainder;
    q, remainder := DivMod(n, d);
  }

  /** mp_mod. */
  method Mod(n: MpInt, d: MpInt) returns (r: MpInt)
    requires n.Valid() && d.Valid() && 0 < n.nw && 0 < d.Value()
    ensures fresh(r.mem) && r.Valid() && r.off == 0 && r.nw == d.nw
    ensures r.Value() == n.Value() % d.Value()
  {
    var quotient;
    quotient, r := DivMod(n, d);
  }

  /** mp_modmul. */
  method ModMul(x: MpInt, y: MpInt, modulus: MpInt) returns (r: MpInt)
    requires x.Valid() && y.Valid() && modulus.Valid() && 0 < x.nw + y.nw && 0 < modulus.Value()
    ensures fresh(r.mem) && r.Valid() && r.off == 0 && r.nw == modulus.nw
    ensures r.Value() == (x.Value() * y.Value()) % modulus.Value()
  {
    hide Nat, Base, MpInt.Words, MpInt.Value;
    var product := Mul(x, y);
    r := Mod(product, modulus);
  }
}
