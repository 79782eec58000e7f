/**
 Shifts by a secret amount, made of conditional shifts by powers of two, and the
 search for the highest set bit.
 */
module SafeShifts {
  import opened Arithmetic
  import opened Words
  import opened MpInts
  import opened Shifts

  // -------------------------------------------------------------- one conditional pass

  /** One pass over the words of r: a shift down by words and o, if on. */
  method CondShiftDown(r: MpInt, words: nat, o: nat, on: bool)
    requires r.Valid() && o < BIGNUM_INT_BITS
    modifies r.mem
    ensures OnlyWrites(r)
    ensures r.Value() == if on then old(r.Value()) / Pow2(MaxBits(words) + o) else old(r.Value())
  {
    hide Nat, Base, Pow2, RightWord, MpInt.Words, OnlyWrites, MaxBits;
    ghost var s := r.Words();
    SelectWordsDown(r, words, o, on);
    if on {
      DownByWords(s, r.Words(), words, o);
    } else {
      assert r.Words() == s;
    }
  }

  lemma DownByWords(s: seq<Word>, t: seq<Word>, words: nat, o: nat)
    requires |s| == |t| && o < BIGNUM_INT_BITS
    requires forall j :: 0 <= j < |t| ==> t[j] == RightWord(s, j, words, o)
    ensures Nat(t) == Nat(s) / Pow2(MaxBits(words) + o)
  {
    hide Nat, Base, Pow2, RightWord, MaxBits;
    RightShifted(t, s, words, o);
    NatBound(s);
    BaseIsPow2(words);
    Pow2Add(MaxBits(words), o);
    DivDiv(Nat(s), Base(words), Pow2(o));
    DownFits(Nat(s), Base(words) * Pow2(o), Base(|t|));
  }

  lemma DownFits(v: nat, d: nat, bound: nat)
    requires 0 < d && v < bound
    ensures 0 <= v / d && (v / d) % bound == v / d
  {
    DivNonNeg(v, d);
    MulLe(1, d, v);
    DivLt(v, d, v + 1);
    SmallMod(v / d, bound);
  }

  method SelectWordsDown(r: MpInt, words: nat, o: nat, on: bool)
    requires r.Valid() && o < BIGNUM_INT_BITS
    modifies r.mem
    ensures OnlyWrites(r)
    ensures forall j :: 0 <= j < r.nw ==> r.Words()[j] == if on then RightWord(old(r.Words()), j, words, o) else old(r.Words())[j]
  {
    hide RightWord;
    ghost var s := r.Words();
    var i := 0;
    while i < r.nw
      invariant 0 <= i <= r.nw
      invariant OnlyWrites(r)
      invariant forall j :: 0 <= j < i ==> r.Words()[j] == if on then RightWord(s, j, words, o) else s[j]
      invariant forall j :: r.off + i <= j < r.off + r.nw ==> r.mem[j] == old(r.mem[j])
    {
      var w := ShiftPair(r.WordOf(i + words), r.WordOf(i + words + 1), o, s, i, words);
      SetWord(r, i, if on then w else r.WordOf(i));
      i := i + 1;
    }
  }

  /** One pass downwards over the words of r: a shift up by words, if on. */
  method CondShiftUp(r: MpInt, words: nat, on: bool)
    requires r.Valid()
    modifies r.mem
    ensures OnlyWrites(r)
    ensures r.Value() == if on then (old(r.Value()) * Base(words)) % Base(r.nw) else old(r.Value())
  {
    hide Nat, Base, Pow2, LeftWord, MpInt.Words, OnlyWrites;
    ghost var s := r.Words();
    SelectWordsUp(r, words, on);
    if on {
      BaseIsPow2(words);
      Pow2Step(0);
      LeftShifted(r.Words(), s, words, 0, MaxBits(words));
    } else {
      assert r.Words() == s;
    }
  }

  method SelectWordsUp(r: MpInt, words: nat, on: bool)
    requires r.Valid()
    modifies r.mem
    ensures OnlyWrites(r)
    ensures forall j :: 0 <= j < r.nw ==> r.Words()[j] == if on then LeftWord(old(r.Words()), j, words, 0) else old(r.Words())[j]
  {
    hide LeftWord;
    ghost var s := r.Words();
    var i := r.nw;
    while 0 < i
      invariant 0 <= i <= r.nw
      invariant OnlyWrites(r)
      invariant forall j :: i <= j < r.nw ==> r.Words()[j] == if on then LeftWord(s, j, words, 0) else s[j]
      invariant forall j :: r.off <= j < r.off + i ==> r.mem[j] == old(r.mem[j])
    {
      i := i - 1;
      var w := ShiftUpPair(r, i, words, 0, s);
      SetWord(r, i, if on then w else r.WordOf(i));
    }
  }

  // ------------------------------------------------------- shifts made of such passes

  /** The shift amount made by the passes for the low bits of n, each worth unit times a power of two. */
  function Amount(unit: nat, n: nat, bit: nat): nat {
    CongMod(n, Pow2(bit));
    MulLe(0, n % Pow2(bit), unit);
    n % Pow2(bit) * unit
  }

  lemma AmountStart(unit: nat, n: nat)
    ensures Amount(unit, n, 0) == 0
  {
    assert Pow2(0) == 1;
    DivModUnique(n, 1, n, 0);
  }

  lemma AmountStep(unit: nat, n: nat, bit: nat)
    ensures 0 <= Pow2(bit) * unit
    ensures Amount(unit, n, bit + 1) == Amount(unit, n, bit) + if Bit(n, bit) == 1 then Pow2(bit) * unit else 0
  {
    hide Pow2;
    MulLe(0, Pow2(bit), unit);
    LowBitsStep(n, bit);
    BitIsBit(n, bit);
    Distribute(unit, n % Pow2(bit), Pow2(bit));
  }

  lemma BitIsBit(n: nat, bit: nat)
    ensures Bit(n, bit) == 0 || Bit(n, bit) == 1
  {
  }

  lemma AmountEnd(unit: nat, n: nat, bit: nat)
    requires n < Pow2(bit)
    ensures Amount(unit, n, bit) == n * unit
  {
    SmallMod(n, Pow2(bit));
  }

  lemma ShiftTwice(v: nat, a: nat, b: nat)
    ensures 0 <= v / Pow2(a) && v / Pow2(a) / Pow2(b) == v / Pow2(a + b)
  {
    hide Pow2;
    DivNonNeg(v, Pow2(a));
    Pow2Add(a, b);
    DivDiv(v, Pow2(a), Pow2(b));
  }

  /** The word passes of mp_rshift_safe_in_place. */
  method ShiftDownWords(r: MpInt, wordshift: nat)
    requires r.Valid() && (wordshift <= r.nw || r.Value() == 0)
    modifies r.mem
    ensures OnlyWrites(r)
    ensures r.Value() == old(r.Value()) / Base(wordshift)
  {
    hide Nat, Base, Pow2, Amount, MpInt.Words, MpInt.Value, MaxBits, Bit;
    ghost var v := r.Value();
    AmountStart(BIGNUM_INT_BITS, wordshift);
    OneOver(v);
    var bit := 0;
    Pow2Step(0);
    while r.nw / Pow2(bit) != 0
      invariant 0 <= bit && OnlyWrites(r)
      invariant r.Value() == v / Pow2(Amount(BIGNUM_INT_BITS, wordshift, bit))
      decreases r.nw / Pow2(bit)
    {
      AmountStep(BIGNUM_INT_BITS, wordshift, bit);
      WordsAsBits(Pow2(bit));
      ShiftTwice(v, Amount(BIGNUM_INT_BITS, wordshift, bit), MaxBits(Pow2(bit)));
      CondShiftDown(r, Pow2(bit), 0, Bit(wordshift, bit) == 1);
      HalvesNext(r.nw, bit);
      bit := bit + 1;
    }
    AllWordPasses(r.nw, wordshift, bit, v);
  }

  /** The bit passes of mp_rshift_safe_in_place. */
  method ShiftDownBits(r: MpInt, bitshift: nat)
    requires r.Valid() && bitshift < BIGNUM_INT_BITS
    modifies r.mem
    ensures OnlyWrites(r)
    ensures r.Value() == old(r.Value()) / Pow2(bitshift)
  {
    hide Nat, Base, Pow2, Amount, MpInt.Words, MpInt.Value, MaxBits, Bit;
    ghost var v := r.Value();
    AmountStart(1, bitshift);
    OneOver(v);
    BitsOfBits();
    var bit := 0;
    while bit < BIGNUM_INT_BITS_BITS
      invariant 0 <= bit <= BIGNUM_INT_BITS_BITS && OnlyWrites(r)
      invariant r.Value() == v / Pow2(Amount(1, bitshift, bit))
    {
      AmountStep(1, bitshift, bit);
      WordsAsBits(0);
      Pow2Lt(bit, BIGNUM_INT_BITS_BITS);
      ShiftTwice(v, Amount(1, bitshift, bit), Pow2(bit));
      CondShiftDown(r, 0, Pow2(bit), Bit(bitshift, bit) == 1);
      bit := bit + 1;
    }
    AmountEnd(1, bitshift, bit);
  }

  /** mp_rshift_safe_in_place. */
  method RshiftSafeInPlace(r: MpInt, bits: nat)
    requires r.Valid()
    modifies r.mem
    ensures OnlyWrites(r)
    ensures r.Value() == old(r.Value()) / Pow2(bits)
  {
    hide Nat, Base, Pow2, MpInt.Words, MpInt.Value;
    ghost var v := r.Value();
    var wordshift, bitshift := bits / BIGNUM_INT_BITS, bits % BIGNUM_INT_BITS;
    ValueBound(r);
    SplitShift(v, bits);
    TooFar(v, r.nw, wordshift);
    CondClear(r, wordshift > r.nw);
    ShiftDownWords(r, wordshift);
    ShiftDownBits(r, bitshift);
  }

  /** A shift by more words than there are leaves nothing. */
  lemma TooFar(v: nat, nw: nat, wordshift: nat)
    requires v < Base(nw)
    ensures nw < wordshift ==> v / Base(wordshift) == 0 && 0 / Base(wordshift) == 0
  {
    hide Base;
    ZeroOver(Base(wordshift));
    if nw < wordshift {
      BaseLe(nw, wordshift);
      DivModUnique(v, Base(wordshift), 0, v);
    }
  }

  /** mp_rshift_safe. */
  method RshiftSafe(x: MpInt, bits: nat) returns (r: MpInt)
    requires x.Valid()
    ensures fresh(r.mem) && r.Valid() && r.nw == x.nw && r.Value() == x.Value() / Pow2(bits)
  {
    hide Nat, Base, Pow2, MpInt.Words, MpInt.Value;
    r := MakeSized(x.nw);
    CopyInto(r, x);
    RshiftSafeInPlace(r, bits);
  }

  /** The word passes of mp_lshift_safe_in_place. */
  method ShiftUpWords(r: MpInt, wordshift: nat)
    requires r.Valid() && (wordshift <= r.nw || r.Value() == 0)
    modifies r.mem
    ensures OnlyWrites(r)
    ensures r.Value() == (old(r.Value()) * Base(wordshift)) % Base(r.nw)
  {
    hide Nat, Base, Pow2, Amount, MpInt.Words, MpInt.Value, MaxBits, Bit;
    ghost var v := r.Value();
    ValueBound(r);
    AmountStart(BIGNUM_INT_BITS, wordshift);
    Pow2Step(0);
    SmallMod(v, Base(r.nw));
    var bit := 0;
    while r.nw / Pow2(bit) != 0
      invariant 0 <= bit && OnlyWrites(r)
      invariant r.Value() == (v * Pow2(Amount(BIGNUM_INT_BITS, wordshift, bit))) % Base(r.nw)
      decreases r.nw / Pow2(bit)
    {
      AmountStep(BIGNUM_INT_BITS, wordshift, bit);
      WordsAsBits(Pow2(bit));
      BaseIsPow2(Pow2(bit));
      UpTwice(v, Amount(BIGNUM_INT_BITS, wordshift, bit), MaxBits(Pow2(bit)), Base(r.nw));
      CondShiftUp(r, Pow2(bit), Bit(wordshift, bit) == 1);
      HalvesNext(r.nw, bit);
      bit := bit + 1;
    }
    AllUpPasses(r.nw, wordshift, bit, v, Base(r.nw));
  }

  lemma UpTwice(v: nat, a: nat, b: nat, m: nat)
    requires 0 < m
    ensures ((v * Pow2(a)) % m * Pow2(b)) % m == (v * Pow2(a + b)) % m
  {
    hide Pow2;
    Pow2Add(a, b);
    CongMod(v * Pow2(a), m);
    CongMul((v * Pow2(a)) % m, v * Pow2(a), Pow2(b), Pow2(b), m);
    MulAssoc(v, Pow2(a), Pow2(b));
  }

  lemma AllUpPasses(nw: nat, wordshift: nat, bit: nat, v: nat, m: nat)
    requires nw / Pow2(bit) == 0 && (wordshift <= nw || v == 0) && 0 < m
    ensures (v * Pow2(Amount(BIGNUM_INT_BITS, wordshift, bit))) % m == (v * Base(wordshift)) % m
  {
    hide Pow2, Base, Amount, MaxBits;
    DivLt(nw, Pow2(bit), 1);
    if wordshift <= nw {
      AmountEnd(BIGNUM_INT_BITS, wordshift, bit);
      BaseIsPow2(wordshift);
      WordsAsBits(wordshift);
    } else {
      assert v * Pow2(Amount(BIGNUM_INT_BITS, wordshift, bit)) == 0 == v * Base(wordshift);
    }
  }

  /** mp_lshift_safe_in_place. Its last pass, by less than a word, is the one of mp_lshift_fixed_into. */
  method LshiftSafeInPlace(r: MpInt, bits: nat)
    requires r.Valid()
    modifies r.mem
    ensures OnlyWrites(r)
    ensures r.Value() == (old(r.Value()) * Pow2(bits)) % Base(r.nw)
  {
    hide Nat, Base, Pow2, MpInt.Words, MpInt.Value;
    ghost var v := r.Value();
    var wordshift, bitshift := bits / BIGNUM_INT_BITS, bits % BIGNUM_INT_BITS;
    SplitShift(v, bits);
    UpTooFar(v, r.nw, wordshift);
    CondClear(r, wordshift > r.nw);
    ShiftUpWords(r, wordshift);
    UpInParts(v, Base(wordshift), Pow2(bitshift), Base(r.nw));
    LshiftFixedInto(r, r, bitshift);
  }

  lemma UpTooFar(v: nat, nw: nat, wordshift: nat)
    ensures nw < wordshift ==> (v * Base(wordshift)) % Base(nw) == 0 && (0 * Base(wordshift)) % Base(nw) == 0
  {
    hide Base;
    if nw < wordshift {
      BaseAdd(wordshift - nw, nw);
      MulAssoc(v, Base(wordshift - nw), Base(nw));
      MultipleMod(v * Base(wordshift - nw), Base(nw));
      MultipleMod(0, Base(nw));
    }
  }

  lemma UpInParts(v: nat, a: nat, b: nat, m: nat)
    requires 0 < m
    ensures ((v * a) % m * b) % m == (v * (a * b)) % m
  {
    CongMod(v * a, m);
    CongMul((v * a) % m, v * a, b, b, m);
    MulAssoc(v, a, b);
  }

  lemma OneOver(v: nat)
    ensures v / Pow2(0) == v
  {
    assert Pow2(0) == 1;
    DivModUnique(v, 1, v, 0);
  }

  lemma HalvesNext(nw: nat, bit: nat)
    requires nw / Pow2(bit) != 0
    ensures 0 <= nw / Pow2(bit + 1) < nw / Pow2(bit)
  {
    hide Pow2;
    Pow2Step(bit);
    DivNonNeg(nw, Pow2(bit));
    DivNonNeg(nw, Pow2(bit + 1));
    DivDiv(nw, Pow2(bit), 2);
  }

  /** When the passes stop, they have covered every bit that a word shift of at most nw can have. */
  lemma AllWordPasses(nw: nat, wordshift: nat, bit: nat, v: nat)
    requires nw / Pow2(bit) == 0 && (wordshift <= nw || v == 0)
    ensures v / Pow2(Amount(BIGNUM_INT_BITS, wordshift, bit)) == v / Base(wordshift)
  {
    hide Pow2, Base, Amount, MaxBits;
    DivLt(nw, Pow2(bit), 1);
    if wordshift <= nw {
      AmountEnd(BIGNUM_INT_BITS, wordshift, bit);
      BaseIsPow2(wordshift);
      WordsAsBits(wordshift);
    } else {
      ZeroOver(Pow2(Amount(BIGNUM_INT_BITS, wordshift, bit)));
      ZeroOver(Base(wordshift));
    }
  }

  lemma ZeroOver(d: nat)
    requires 0 < d
    ensures 0 / d == 0
  {
    DivModUnique(0, d, 0, 0);
  }

  // ------------------------------------------------------------------ the highest set bit

  /** x has n significant bits. */
  ghost predicate HasBits(x: nat, n: nat) {
    if n == 0 then x == 0 else Pow2(n - 1) <= x < Pow2(n)
  }

  lemma BitsUnique(x: nat, m: nat, n: nat)
    requires HasBits(x, m) && HasBits(x, n)
    ensures m == n
  {
    hide Pow2;
    if m < n {
      Pow2Le(m, n - 1);
    } else if n < m {
      Pow2Le(n, m - 1);
    }
  }

  /** The top word of s, by a scan that does not stop: index -1 and a word of ones stand for none. */
  ghost predicate HighestIs(s: seq<Word>, index: int, w: Word) {
    || (index == -1 && w == BASE - 1 && forall j :: 0 <= j < |s| ==> s[j] == 0)
    || (0 <= index < |s| && w == s[index] != 0 && forall j :: index < j < |s| ==> s[j] == 0)
  }

  method HighestNonzeroWord(x: MpInt) returns (index: int, w: Word)
    requires x.Valid()
    ensures HighestIs(x.Words(), index, w)
  {
    BaseIsBig();
    ghost var s := x.Words();
    index, w := -1, BASE - 1;
    var i := 0;
    while i < x.nw
      invariant 0 <= i <= x.nw && HighestIs(s[..i], index, w)
    {
      var word := x.WordOf(i);
      assert word == s[i] && s[..i + 1] == s[..i] + [s[i]];
      if word != 0 {
        index, w := i, word;
      }
      i := i + 1;
    }
    assert s[..i] == s;
  }

  lemma HighestBounds(s: seq<Word>, index: int, w: Word)
    requires HighestIs(s, index, w) && 0 <= index
    ensures w * Base(index) <= Nat(s) < (w + 1) * Base(index)
  {
    hide Nat, Base;
    var low, high := s[..index], s[index + 1..];
    assert s == low + [w] + Zeros(|high|);
    NatPad(low + [w], |high|);
    NatSnoc(low, w);
    NatBound(low);
    Distribute(Base(index), w, 1);
  }

  /** The binary search for the highest set bit of a nonzero word. */
  method HighBit(word: Word) returns (index: nat)
    requires word != 0
    ensures index < BIGNUM_INT_BITS && Pow2(index) <= word < Pow2(index + 1)
  {
    hide Pow2;
    BitsOfBits();
    BaseIsPow2(1);
    BaseStep(0);
    var w: nat := word;
    index := 0;
    ghost var e: nat := BIGNUM_INT_BITS_BITS;
    var i: nat := Pow2(BIGNUM_INT_BITS_BITS - 1);
    Pow2Step(0);
    OneOver(word);
    WordsAsBits(1);
    while i != 0
      invariant e <= BIGNUM_INT_BITS_BITS && i == (if e == 0 then 0 else Pow2(e - 1))
      invariant w == word / Pow2(index) && 0 < w < Pow2(Pow2(e))
      invariant index + Pow2(e) <= BIGNUM_INT_BITS
      decreases e
    {
      var shifted := w / Pow2(i);
      SearchStep(word, index, e, w, i);
      if shifted != 0 {
        w := shifted;
        index := index + i;
      }
      HalveStep(e);
      i := i / 2;
      e := e - 1;
    }
    FoundBit(word, index);
  }

  lemma HalveStep(e: nat)
    requires 0 < e
    ensures Pow2(e - 1) / 2 == (if e == 1 then 0 else Pow2(e - 2))
  {
    if e > 1 { Pow2Step(e - 2); }
  }

  lemma SearchStep(word: nat, index: nat, e: nat, w: nat, i: nat)
    requires 0 < e && i == Pow2(e - 1) && w == word / Pow2(index) && 0 < w < Pow2(Pow2(e))
    ensures 2 * i == Pow2(e) && 0 <= w / Pow2(i) < Pow2(i)
    ensures w / Pow2(i) == 0 ==> w < Pow2(i)
    ensures w / Pow2(i) == word / Pow2(index + i)
  {
    hide Pow2;
    Pow2Step(e - 1);
    Pow2Add(i, i);
    ShiftTwice(word, index, i);
    DivNonNeg(w, Pow2(i));
    DivLt(w, Pow2(i), Pow2(i));
    DivLt(w, Pow2(i), 1);
  }

  lemma FoundBit(word: nat, index: nat)
    requires 0 < word / Pow2(index) < Pow2(Pow2(0))
    ensures Pow2(index) <= word < Pow2(index + 1)
  {
    assert Pow2(0) == 1 && Pow2(1) == 2;
    DivLt(word, Pow2(index), 1);
    DivLt(word, Pow2(index), 2);
    Pow2Step(index);
  }

  /** mp_get_nbits. */
  method GetNbits(x: MpInt) returns (n: nat)
    requires x.Valid()
    ensures HasBits(x.Value(), n)
  {
    hide Nat, Base, Pow2, MpInt.Words, HighestIs;
    BaseIsBig();
    var index, w := HighestNonzeroWord(x);
    TopIsNonzero(x.Words(), index, w);
    var hibit := HighBit(w);
    BitCount(x.Words(), index, w, hibit);
    n := index * BIGNUM_INT_BITS + hibit + 1;
  }

  lemma TopIsNonzero(s: seq<Word>, index: int, w: Word)
    requires HighestIs(s, index, w)
    ensures w != 0
  {
    BaseIsBig();
  }

  lemma BitCount(s: seq<Word>, index: int, w: Word, hibit: nat)
    requires HighestIs(s, index, w) && hibit < BIGNUM_INT_BITS && Pow2(hibit) <= w < Pow2(hibit + 1)
    ensures 0 <= index * BIGNUM_INT_BITS + hibit + 1 && HasBits(Nat(s), index * BIGNUM_INT_BITS + hibit + 1)
  {
    hide Nat, Base, Pow2;
    if index == -1 {
      NatZero(s);
      AllOnes(hibit);
    } else {
      hide HighestIs;
      HighestBounds(s, index, w);
      BaseIsPow2(index);
      WordsAsBits(index);
      MulLe(Pow2(hibit), w, Base(index));
      MulLe(w + 1, Pow2(hibit + 1), Base(index));
      Pow2Add(MaxBits(index), hibit);
      Pow2Add(MaxBits(index), hibit + 1);
    }
  }

  lemma AllOnes(hibit: nat)
    requires hibit < BIGNUM_INT_BITS && BASE - 1 < Pow2(hibit + 1)
    ensures hibit + 1 == BIGNUM_INT_BITS
  {
    hide Pow2;
    BaseIsPow2(1);
    BaseStep(0);
    WordsAsBits(1);
    if hibit + 1 < BIGNUM_INT_BITS {
      Pow2Lt(hibit + 1, BIGNUM_INT_BITS);
    }
  }
}
