/**
 Shifts by public amounts, reduction modulo a power of two, and single bits.
 */
module Shifts {
  import opened Arithmetic
  import opened Words
  import opened MpInts
  import opened AddSub

  // --------------------------------------------------------------- bits of a word

  /** A word is split at bit o into two parts whose sizes multiply to BASE. */
  lemma BaseSplit(o: nat)
    requires o <= BIGNUM_INT_BITS
    ensures Pow2(o) * Pow2(BIGNUM_INT_BITS - o) == BASE
  {
    Pow2Add(o, BIGNUM_INT_BITS - o);
  }

  /** The low word of X shifted down o bits: the rest of the low word below the first bits of the next. */
  lemma ShiftedWord(x: nat, o: nat)
    requires 0 < o < BIGNUM_INT_BITS
    ensures (x / Pow2(o)) % BASE == (x % BASE) / Pow2(o) + ((x / BASE) % BASE * Pow2(BIGNUM_INT_BITS - o)) % BASE
    ensures 0 <= (x % BASE) / Pow2(o)
  {
    hide Pow2;
    BaseSplit(o);
    ShiftedDigit(x, Pow2(o), Pow2(BIGNUM_INT_BITS - o), BASE);
  }

  lemma ShiftedDigit(x: nat, p: nat, q: nat, b: nat)
    requires 0 < p && 0 < q && p * q == b
    ensures 0 < b
    ensures 0 <= (x % b) / p
    ensures (x / p) % b == (x % b) / p + ((x / b) % b * q) % b
  {
    MulLt(0, p, q);
    var y := x / p;
    DivNonNeg(x, p);
    // y = (x / b) * q + (x % b) / p
    DivDiv(x, p, q);
    DivNonNeg(x % b, p);
    assert (x % b) / p == y % q by {
      DivModUnique(x % b, p, y % q, x % p);
    }
    // y % b, in base q and with p further digits of size q
    DivDiv(y, q, p);
    assert y / q == x / b;
    assert y % b == (x / b) % p * q + y % q;
    assert ((x / b) % b * q) % b == (x / b) % p * q by {
      ModScale((x / b) % b, p, q);
      ModOfMod(x / b, p, q);
    }
  }

  // ------------------------------------------------------------------ right shift

  /** Word i of a number shifted right by bits, as the code computes it from two words of the input. */
  function RightWord(a: seq<Word>, i: nat, words: nat, o: nat): Word
    requires o < BIGNUM_INT_BITS
  {
    var lo := WordAt(a, i + words);
    if o == 0 then lo
    else
      ShiftFits(lo, WordAt(a, i + words + 1), o);
      lo / Pow2(o) + (WordAt(a, i + words + 1) * Pow2(BIGNUM_INT_BITS - o)) % BASE
  }

  lemma ShiftFits(lo: Word, hi: Word, o: nat)
    requires 0 < o < BIGNUM_INT_BITS
    ensures 0 <= lo / Pow2(o) + (hi * Pow2(BIGNUM_INT_BITS - o)) % BASE < BASE
  {
    hide Pow2;
    BaseIsBig();
    var x := hi * BASE + lo;
    MulLe(0, hi, BASE);
    DivModUnique(x, BASE, hi, lo);
    SmallMod(hi, BASE);
    ShiftedWord(x, o);
  }

  lemma RightWordDigit(a: seq<Word>, i: nat, words: nat, o: nat)
    requires o < BIGNUM_INT_BITS
    ensures 0 <= Nat(a) / Base(words) / Pow2(o)
    ensures RightWord(a, i, words, o) == Nat(a) / Base(words) / Pow2(o) / Base(i) % BASE
  {
    hide Nat, Base, Pow2, WordAt;
    var n := Nat(a);
    DivNonNeg(n, Base(words));
    DivNonNeg(n / Base(words), Pow2(o));
    NatDigit(a, i + words);
    NatDigit(a, i + words + 1);
    ShiftTowers(n, words, i, Pow2(o));
    if o == 0 {
      Pow2Step(0);
      var x := n / Base(words);
      DivModUnique(x, 1, x, 0);
      BaseAdd(words, i);
      DivDiv(n, Base(words), Base(i));
    } else {
      var x := n / Base(i + words);
      DivNonNeg(n, Base(i + words));
      BaseIsBig();
      BaseStep(i + words);
      DivDiv(n, Base(i + words), BASE);
      ShiftedWord(x, o);
    }
  }

  /** Dividing by BASE^words, by 2^o and by BASE^i may be done in any order. */
  lemma ShiftTowers(n: nat, words: nat, i: nat, p: nat)
    requires 0 < p
    ensures n / Base(words) / p / Base(i) == n / Base(i + words) / p
  {
    hide Base;
    var m := n / Base(words);
    DivDiv(m, p, Base(i));
    DivDiv(m, Base(i), p);
    assert p * Base(i) == Base(i) * p;
    DivDiv(n, Base(words), Base(i));
    BaseAdd(words, i);
  }

  lemma SplitShift(n: nat, bits: nat)
    ensures 0 <= bits / BIGNUM_INT_BITS
    ensures n / Pow2(bits) == n / Base(bits / BIGNUM_INT_BITS) / Pow2(bits % BIGNUM_INT_BITS)
    ensures Pow2(bits) == Base(bits / BIGNUM_INT_BITS) * Pow2(bits % BIGNUM_INT_BITS)
  {
    hide Base, Pow2;
    var words, o := bits / BIGNUM_INT_BITS, bits % BIGNUM_INT_BITS;
    BaseIsPow2(words);
    Pow2Add(MaxBits(words), o);
    DivDiv(n, Base(words), Pow2(o));
  }

  /** mp_rshift_fixed_into. */
  method RshiftFixedInto(r: MpInt, a: MpInt, bits: nat)
    requires r.Valid() && a.Valid() && ReadUp(r, a)
    modifies r.mem
    ensures OnlyWrites(r)
    ensures r.Value() == (old(a.Value()) / Pow2(bits)) % Base(r.nw)
  {
    hide Nat, Base, Pow2, RightWord, OnlyWrites;
    var words, o := bits / BIGNUM_INT_BITS, bits % BIGNUM_INT_BITS;
    ghost var wa := a.Words();
    ShiftWordsDown(r, a, words, o);
    SplitShift(Nat(wa), bits);
    RightShifted(r.Words(), wa, words, o);
  }

  method ShiftWordsDown(r: MpInt, a: MpInt, words: nat, o: nat)
    requires r.Valid() && a.Valid() && ReadUp(r, a) && o < BIGNUM_INT_BITS
    modifies r.mem
    ensures OnlyWrites(r)
    ensures forall j :: 0 <= j < r.nw ==> r.Words()[j] == RightWord(old(a.Words()), j, words, o)
  {
    hide RightWord;
    ghost var wa := a.Words();
    var i := 0;
    while i < r.nw
      invariant 0 <= i <= r.nw
      invariant OnlyWrites(r)
      invariant forall j :: 0 <= j < i ==> r.Words()[j] == RightWord(wa, j, words, o)
      invariant forall j :: a.off + i <= j < a.off + a.nw ==> a.mem[j] == old(a.mem[j])
    {
      var w := ShiftPair(a.WordOf(i + words), a.WordOf(i + words + 1), o, wa, i, words);
      SetWord(r, i, w);
      i := i + 1;
    }
  }

  method ShiftPair(lo: Word, hi: Word, o: nat, ghost a: seq<Word>, ghost i: nat, ghost words: nat) returns (w: Word)
    requires o < BIGNUM_INT_BITS && lo == WordAt(a, i + words) && hi == WordAt(a, i + words + 1)
    ensures w == RightWord(a, i, words, o)
  {
    hide Pow2, WordAt;
    w := lo;
    if o != 0 {
      ShiftFits(lo, hi, o);
      w := lo / Pow2(o) + (hi * Pow2(BIGNUM_INT_BITS - o)) % BASE;
    }
  }

  lemma RightShifted(r: seq<Word>, a: seq<Word>, words: nat, o: nat)
    requires o < BIGNUM_INT_BITS
    requires forall j :: 0 <= j < |r| ==> r[j] == RightWord(a, j, words, o)
    ensures Nat(r) == Nat(a) / Base(words) / Pow2(o) % Base(|r|)
  {
    hide Nat, Base, Pow2, RightWord, Digits;
    var v := Nat(a) / Base(words) / Pow2(o);
    RightWordDigit(a, 0, words, o);
    forall j | 0 <= j < |r| ensures r[j] == Digits(v, |r|)[j] {
      RightWordDigit(a, j, words, o);
      DigitsAt(v, |r|, j);
    }
    assert r == Digits(v, |r|);
    NatDigits(v, |r|);
  }

  // ------------------------------------------------------------------- left shift

  /** Word i of a number shifted left by bits, as the code computes it from two words of the input. */
  function LeftWord(a: seq<Word>, i: nat, words: nat, o: nat): Word
    requires o < BIGNUM_INT_BITS
  {
    if i < words then BaseIsBig(); 0
    else if o == 0 then WordAt(a, i - words)
    else RightWord(Zeros(1) + a, i - words, 0, BIGNUM_INT_BITS - o)
  }

  /** A left shift of less than a word is a right shift of the number one word higher. */
  lemma LeftAsRight(a: seq<Word>, o: nat)
    requires 0 < o < BIGNUM_INT_BITS
    ensures Nat(Zeros(1) + a) / Base(0) / Pow2(BIGNUM_INT_BITS - o) == Nat(a) * Pow2(o)
  {
    hide Nat, Base, Pow2;
    BaseSplit(o);
    NatConcat(Zeros(1), a);
    NatZeros(1);
    BaseStep(0);
    var n, p, q := Nat(a), Pow2(o), Pow2(BIGNUM_INT_BITS - o);
    DivModUnique(n * BASE, 1, n * BASE, 0);
    MulAssoc(n, p, q);
    MultipleMod(n * p, q);
  }

  lemma LeftWordDigit(a: seq<Word>, i: nat, words: nat, o: nat)
    requires o < BIGNUM_INT_BITS
    ensures 0 <= Nat(a) * Pow2(o) * Base(words)
    ensures LeftWord(a, i, words, o) == Nat(a) * Pow2(o) * Base(words) / Base(i) % BASE
  {
    hide Nat, Base, Pow2, RightWord, WordAt, Zeros;
    BaseIsBig();
    var m := Nat(a) * Pow2(o);
    MulLe(0, Nat(a), Pow2(o));
    MulLe(0, m, Base(words));
    if i < words {
      LowDigitOfMultiple(m, i, words);
    } else {
      HighDigitOfMultiple(m, i, words);
      if o == 0 {
        Pow2Step(0);
        NatDigit(a, i - words);
      } else {
        LeftAsRight(a, o);
        RightWordDigit(Zeros(1) + a, i - words, 0, BIGNUM_INT_BITS - o);
      }
    }
  }

  lemma LowDigitOfMultiple(m: nat, i: nat, words: nat)
    requires i < words
    ensures m * Base(words) / Base(i) % BASE == 0
  {
    hide Base;
    BaseIsBig();
    var k := words - i - 1;
    BaseAdd(k + 1, i);
    BaseStep(k);
    MulAssoc(m, Base(k + 1), Base(i));
    MultipleMod(m * Base(k + 1), Base(i));
    MulAssoc(m, Base(k), BASE);
    MultipleMod(m * Base(k), BASE);
  }

  lemma HighDigitOfMultiple(m: nat, i: nat, words: nat)
    requires words <= i
    ensures m * Base(words) / Base(i) == m / Base(i - words)
  {
    hide Base;
    BaseAdd(i - words, words);
    ModScale(m, Base(i - words), Base(words));
  }

  /** mp_lshift_fixed_into. */
  method LshiftFixedInto(r: MpInt, a: MpInt, bits: nat)
    requires r.Valid() && a.Valid() && ReadDown(r, a)
    modifies r.mem
    ensures OnlyWrites(r)
    ensures r.Value() == (old(a.Value()) * Pow2(bits)) % Base(r.nw)
  {
    hide Nat, Base, Pow2, LeftWord;
    var words, o := bits / BIGNUM_INT_BITS, bits % BIGNUM_INT_BITS;
    ghost var wa := a.Words();
    var i := r.nw;
    while 0 < i
      invariant 0 <= i <= r.nw
      invariant OnlyWrites(r)
      invariant forall j :: i <= j < r.nw ==> r.Words()[j] == LeftWord(wa, j, words, o)
      invariant forall j :: a.off <= j < a.off + a.nw && j < a.off + i ==> a.mem[j] == old(a.mem[j])
    {
      i := i - 1;
      var w := ShiftUpPair(a, i, words, o, wa);
      SetWord(r, i, w);
    }
    SplitShift(Nat(wa), bits);
    LeftShifted(r.Words(), wa, words, o, bits);
  }

  method ShiftUpPair(a: MpInt, i: nat, words: nat, o: nat, ghost wa: seq<Word>) returns (w: Word)
    requires a.Valid() && o < BIGNUM_INT_BITS && |wa| == a.nw
    requires forall j :: 0 <= j < a.nw && j <= i ==> a.Words()[j] == wa[j]
    ensures w == LeftWord(wa, i, words, o)
  {
    hide Pow2;
    BaseIsBig();
    if i < words {
      w := 0;
    } else {
      w := a.WordOf(i - words);
      if o != 0 {
        var lo: Word := 0;
        if i > words {
          lo := a.WordOf(i - words - 1);
        }
        ghost var up := Zeros(1) + wa;
        assert up[0] == 0;
        assert forall k :: 0 < k < |up| ==> up[k] == wa[k - 1];
        w := ShiftPair(lo, w, BIGNUM_INT_BITS - o, up, i - words, 0);
      }
    }
  }

  lemma LeftShifted(r: seq<Word>, a: seq<Word>, words: nat, o: nat, bits: nat)
    requires o < BIGNUM_INT_BITS && Pow2(bits) == Base(words) * Pow2(o)
    requires forall j :: 0 <= j < |r| ==> r[j] == LeftWord(a, j, words, o)
    ensures Nat(r) == Nat(a) * Pow2(bits) % Base(|r|)
  {
    hide Nat, Base, Pow2, LeftWord, Digits;
    var v := Nat(a) * Pow2(o) * Base(words);
    LeftWordDigit(a, 0, words, o);
    MulAssoc(Nat(a), Pow2(o), Base(words));
    forall j | 0 <= j < |r| ensures r[j] == Digits(v, |r|)[j] {
      LeftWordDigit(a, j, words, o);
      DigitsAt(v, |r|, j);
    }
    assert r == Digits(v, |r|);
    NatDigits(v, |r|);
  }

  // ------------------------------------------------- reduction modulo a power of two

  /** mp_reduce_mod_2to. */
  method ReduceMod2To(x: MpInt, p: nat)
    requires x.Valid()
    modifies x.mem
    ensures OnlyWrites(x)
    ensures x.Value() == old(x.Value()) % Pow2(p)
  {
    hide Nat, Base, Pow2, ReducedWord, WordAt, MpInt.Words;
    ghost var s0 := x.Words();
    var start, o := p / BIGNUM_INT_BITS, p % BIGNUM_INT_BITS;
    KeptWords(s0, start, o);
    var word := start;
    while word < x.nw
      invariant start <= word && (word <= x.nw || word == start)
      invariant OnlyWrites(x)
      invariant forall j :: 0 <= j < x.nw && j < word ==> x.Words()[j] == ReducedWord(s0, j, start, o)
      invariant forall j :: word <= j < x.nw ==> x.Words()[j] == s0[j]
      decreases x.nw - word
    {
      var w := Masking(x, word, start, o, s0);
      SetWord(x, word, w);
      word := word + 1;
    }
    SplitShift(0, p);
    ReducedWords(s0, x.Words(), start, o);
  }

  lemma KeptWords(s: seq<Word>, start: nat, o: nat)
    ensures forall j :: 0 <= j < |s| && j < start ==> ReducedWord(s, j, start, o) == s[j]
  {
  }

  method Masking(x: MpInt, word: nat, start: nat, o: nat, ghost s: seq<Word>) returns (w: Word)
    requires x.Valid() && word < x.nw == |s| && start <= word && x.Words()[word] == s[word]
    ensures w == ReducedWord(s, word, start, o)
  {
    BaseIsBig();
    w := 0;
    if word == start {
      w := x.WordOf(word);
      MaskFits(w, Pow2(o));
      w := w % Pow2(o);
    }
  }

  lemma MaskFits(w: nat, m: nat)
    requires 0 < m
    ensures 0 <= w % m <= w
  {
    DivNonNeg(w, m);
    MulLe(0, w / m, m);
  }

  function ReducedWord(s: seq<Word>, j: nat, start: nat, o: nat): Word
    requires j < |s|
  {
    BaseIsBig();
    MaskFits(s[j], Pow2(o));
    if j < start then s[j] else if j == start then s[j] % Pow2(o) else 0
  }

  lemma ReducedWords(s: seq<Word>, t: seq<Word>, start: nat, o: nat)
    requires |s| == |t| && o < BIGNUM_INT_BITS
    requires forall j :: 0 <= j < |s| ==> t[j] == ReducedWord(s, j, start, o)
    ensures Nat(t) == Nat(s) % (Base(start) * Pow2(o))
  {
    hide Nat, Base, Pow2;
    if |s| <= start {
      assert t == s;
      NatFits(s, start);
      MulLe(1, Pow2(o), Base(start));
      SmallMod(Nat(s), Base(start) * Pow2(o));
    } else {
      var w := t[start];
      assert t == s[..start] + [w] + Zeros(|s| - start - 1);
      NatPad(s[..start] + [w], |s| - start - 1);
      NatSnoc(s[..start], w);
      NatParts(s, start);
      DivDiv(Nat(s), Base(start), Pow2(o));
      LowWordMod(s[start..], o);
    }
  }

  lemma LowWordMod(u: seq<Word>, o: nat)
    requires 0 < |u| && o < BIGNUM_INT_BITS
    ensures Nat(u) % Pow2(o) == u[0] % Pow2(o)
  {
    hide Pow2;
    BaseSplit(o);
    var p, q, n := Pow2(o), Pow2(BIGNUM_INT_BITS - o), Nat(u[1..]);
    assert Nat(u) == u[0] + (n * q) * p by { MulAssoc(n, q, p); }
    ModAddMultiple(u[0], n * q, p);
  }

  // -------------------------------------------------------------------- single bits

  /** Bit i of the number n. */
  function Bit(n: nat, i: nat): nat {
    DivNonNeg(n, Pow2(i));
    n / Pow2(i) % 2
  }

  /** mp_get_bit. */
  function GetBit(x: MpInt, bit: nat): (b: nat)
    requires x.Valid()
    reads x.mem
    ensures b == Bit(x.Value(), bit)
  {
    var w := x.WordOf(bit / BIGNUM_INT_BITS);
    BitOfWord(x.Words(), bit);
    DivNonNeg(w, Pow2(bit % BIGNUM_INT_BITS));
    w / Pow2(bit % BIGNUM_INT_BITS) % 2
  }

  lemma BitOfWord(s: seq<Word>, bit: nat)
    ensures 0 <= bit / BIGNUM_INT_BITS
    ensures Bit(Nat(s), bit) == WordAt(s, bit / BIGNUM_INT_BITS) / Pow2(bit % BIGNUM_INT_BITS) % 2
  {
    hide Nat, Base, Pow2, WordAt;
    var words, o := bit / BIGNUM_INT_BITS, bit % BIGNUM_INT_BITS;
    var n := Nat(s);
    SplitShift(n, bit);
    NatDigit(s, words);
    var y := n / Base(words);
    DivNonNeg(n, Base(words));
    BitBelowBase(y, o);
  }

  /** The bits below the word size of a number are those of its lowest word. */
  lemma BitBelowBase(y: nat, o: nat)
    requires o < BIGNUM_INT_BITS
    ensures y / Pow2(o) % 2 == (y % BASE) / Pow2(o) % 2
  {
    hide Pow2;
    BaseSplit(o + 1);
    Pow2Step(o);
    var p, q := Pow2(o), Pow2(BIGNUM_INT_BITS - o - 1);
    assert BASE == p * (2 * q);
    var k, z := y / BASE, y % BASE;
    assert y == z + (k * q * 2) * p;
    ModAddMultiple(z, k * q * 2, p);
    ModAddMultiple(z / p, k * q, 2);
  }

  /** Bit i extends the low i bits of e to the low i + 1 bits. */
  lemma LowBitsStep(e: nat, i: nat)
    ensures e % Pow2(i + 1) == e % Pow2(i) + Bit(e, i) * Pow2(i)
  {
    hide Pow2;
    Pow2Step(i);
    DivDiv(e, Pow2(i), 2);
  }

  /** The lowest set bit above bit 0 of an odd p splits p - 1 into an odd number and a power of two. */
  lemma OddPart(p: nat, e: nat)
    requires 0 < e && p % Pow2(e) == 1 && Bit(p, e) == 1
    ensures p - 1 == p / Pow2(e) * Pow2(e) && 0 < p / Pow2(e) && p / Pow2(e) % 2 == 1
  {
    DivNonNeg(p, Pow2(e));
  }
}
