/**
 Conversion of integers to and from decimal.
 */
module Decimal {
  import opened Arithmetic
  import opened Words
  import opened MpInts
  import opened AddSub
  import opened Multiply
  import opened Karatsuba
  import opened Shifts
  import opened SafeShifts
  import opened Wire
  import opened DigitSum

  // ----------------------------------------------------------------- numbers and digits

  ghost predicate AllDigits(s: string) {
    forall i :: 0 <= i < |s| ==> '0' <= s[i] <= '9'
  }

  function DigitValue(c: char): nat
    requires '0' <= c <= '9'
  {
    c as int - '0' as int
  }

  function DigitChar(d: nat): char
    requires d < 10
  {
    '0' + d as char
  }

  /** Which digit is which. */
  lemma DigitsAre(d: nat)
    requires d < 10
    ensures var c := "0123456789"[d]; '0' <= c <= '9' && DigitChar(d) == c && DigitValue(c) == d
  {
  }

  /** The number that a string of digits denotes. */
  function DecimalValue(s: string): nat
    requires AllDigits(s)
  {
    if |s| == 0 then 0 else 10 * DecimalValue(s[..|s| - 1]) + DigitValue(s[|s| - 1])
  }

  /** The decimal representation of a number, without leading zeros. */
  function DecimalOf(v: nat): (s: string)
    ensures |s| > 0 && AllDigits(s) && (|s| > 1 ==> s[0] != '0')
  {
    if v < 10 then [DigitChar(v)] else DecimalOf(v / 10) + [DigitChar(v % 10)]
  }

  lemma {:induction false} DecimalRoundTrip(v: nat)
    ensures DecimalValue(DecimalOf(v)) == v
  {
    var s := DecimalOf(v);
    if v < 10 {
      assert s[..0] == [];
    } else {
      DecimalRoundTrip(v / 10);
      assert s[..|s| - 1] == DecimalOf(v / 10);
    }
  }

  /** Every string of digits with no needless zero in front is the representation of its value. */
  lemma {:induction false} DecimalCanonical(s: string)
    requires AllDigits(s) && |s| > 0 && (|s| > 1 ==> s[0] != '0')
    ensures DecimalOf(DecimalValue(s)) == s
    ensures s[0] != '0' ==> DecimalValue(s) > 0
  {
    var init, last := s[..|s| - 1], s[|s| - 1];
    if |s| == 1 {
      assert init == [];
      assert s == [last];
    } else {
      DecimalCanonical(init);
      assert s == init + [last];
      CanonicalStep(DecimalValue(init), DigitValue(last));
    }
  }

  lemma CanonicalStep(u: nat, d: nat)
    requires 0 < u && d < 10
    ensures DecimalOf(10 * u + d) == DecimalOf(u) + [DigitChar(d)]
  {
    DivModUnique(10 * u + d, 10, u, d);
  }

  lemma {:induction false} DecimalBound(s: string)
    requires AllDigits(s)
    ensures DecimalValue(s) < Pow(10, |s|)
  {
    if |s| > 0 {
      DecimalBound(s[..|s| - 1]);
    }
  }

  // ---------------------------------------------------------------------- from decimal

  /** 196/59 is an upper bound for log2(10). */
  lemma {:induction false} DigitsToBits(n: nat)
    ensures Pow(10, n) <= Pow2(196 * n / 59 + 1)
  {
    hide Pow, Pow2;
    var b := 196 * n / 59;
    TenTo59();
    PowMul(10, 59, n);
    PowMul(10, n, 59);
    PowPos(10, 59);
    PowBaseLe(Pow(10, 59), Pow2(196), n);
    PowOfPow2(196, n);
    PowOfPow2(b + 1, 59);
    Pow2Le(196 * n, 59 * (b + 1));
    assert n * 196 == 196 * n && 59 * n == n * 59;
    PowPos(10, n);
    if Pow(10, n) > Pow2(b + 1) {
      PowBaseLt(Pow2(b + 1), Pow(10, n), 59);
    }
  }

  lemma TenTo59()
    ensures Pow(10, 59) <= Pow2(196)
  {
    hide Pow, Pow2;
    PowAtOne(10);
    PowAdd(10, 1, 1);
    PowAdd(10, 2, 2);
    PowAdd(10, 4, 4);
    PowAdd(10, 8, 8);
    PowAdd(10, 16, 16);
    PowAdd(10, 32, 16);
    PowAdd(10, 48, 8);
    PowAdd(10, 56, 2);
    PowAdd(10, 58, 1);
    TwoTo();
    Pow2Add(8, 8);
    Pow2Add(16, 16);
    Pow2Add(32, 32);
    Pow2Add(64, 64);
    Pow2Add(128, 64);
    Pow2Add(192, 4);
  }

  lemma TwoTo()
    ensures Pow2(4) == 16 && Pow2(8) == 256
  {
    Pow2At8();
    assert Pow2(4) == 16;
  }

  /** mp_from_decimal_pl. */
  method FromDecimal(decimal: string) returns (x: MpInt)
    requires AllDigits(decimal)
    ensures fresh(x.mem) && x.Valid() && x.Value() == DecimalValue(decimal)
  {
    hide Nat, Base, Pow, Pow2, MpInt.Words, MpInt.Value, DecimalValue;
    var len := |decimal|;
    var bits := 196 * len / 59;
    var words := bits / BIGNUM_INT_BITS + 1;
    DivNonNeg(bits, BIGNUM_INT_BITS);
    x := MakeSized(words);
    RoomForDigits(len, words);
    var i := 0;
    NoDigits(decimal);
    while i < len
      invariant 0 <= i <= len
      invariant x.Value() == if i < len then DecimalValue(decimal[..i]) * (if i == 0 then 1 else 10) else DecimalValue(decimal)
    {
      DigitStep(decimal, i, Base(words));
      AddIntegerInto(x, x, DigitValue(decimal[i]));
      if i + 1 == len {
        assert decimal[..i + 1] == decimal;
        break;
      }
      MulIntegerInto(x, x, 10);
      i := i + 1;
    }
  }

  lemma NoDigits(s: string)
    requires AllDigits(s)
    ensures DecimalValue(s[..0]) == 0 && (|s| == 0 ==> DecimalValue(s) == 0)
  {
  }

  /** The words set aside hold every number of that many digits. */
  lemma RoomForDigits(len: nat, words: nat)
    requires words == 196 * len / 59 / BIGNUM_INT_BITS + 1
    ensures Pow(10, len) <= Base(words)
  {
    hide Pow, Pow2, Base;
    var bits := 196 * len / 59;
    DigitsToBits(len);
    BaseIsPow2(words);
    WordsAsBits(words);
    DivNonNeg(bits, BIGNUM_INT_BITS);
    assert bits + 1 <= words * BIGNUM_INT_BITS;
    Pow2Le(bits + 1, MaxBits(words));
  }

  /** Neither adding a digit nor multiplying by ten overflows. */
  lemma DigitStep(s: string, i: nat, bound: nat)
    requires AllDigits(s) && i < |s| && Pow(10, |s|) <= bound
    ensures var v, w := DecimalValue(s[..i]) * (if i == 0 then 1 else 10), DecimalValue(s[..i + 1]);
            && 0 < bound && (v + DigitValue(s[i])) % bound == w && w < bound
            && (i + 1 < |s| ==> w % bound * 10 < bound && w % bound == w)
  {
    hide Pow, DecimalValue;
    var t := s[..i + 1];
    OneDigitMore(s, i);
    DecimalBound(t);
    PowLe(10, i + 1, |s|);
    SmallMod(DecimalValue(t), bound);
    if i + 1 < |s| {
      PowLe(10, i + 2, |s|);
      PowAdd(10, i + 1, 1);
      PowAtOne(10);
    }
  }

  lemma OneDigitMore(s: string, i: nat)
    requires AllDigits(s) && i < |s|
    ensures DecimalValue(s[..i + 1]) == 10 * DecimalValue(s[..i]) + DigitValue(s[i])
    ensures i == 0 ==> DecimalValue(s[..i]) == 0
  {
    var t := s[..i + 1];
    assert t[..i] == s[..i] && t[i] == s[i];
  }

  // ------------------------------------------------------------------------ to decimal

  /** The bytes of word i are added to the sum, and the most they can be to the bound, in 32 bits. */
  method AddBytes(x: MpInt, i: nat, low0: nat, max0: nat) returns (low: nat, maxval: nat)
    requires x.Valid() && low0 < TWO32 && max0 < TWO32
    ensures low == (low0 + Sum(x.Value(), Offset(i), BIGNUM_INT_BYTES)) % TWO32
    ensures maxval == (max0 + MaxSum(Offset(i), BIGNUM_INT_BYTES)) % TWO32
  {
    hide Nat, Pow, MpInt.Words, MpInt.Value, Offset, Sum, MaxSum;
    ghost var v, t := x.Value(), Offset(i);
    low, maxval := low0, max0;
    OffsetStep(i);
    NoBytesYet(v, t);
    SmallMod(low0, TWO32);
    SmallMod(max0, TWO32);
    var mult: nat := if i == 0 then 1 else 6;
    var j := 0;
    while j < BIGNUM_INT_BYTES
      invariant 0 <= j <= BIGNUM_INT_BYTES && mult == Multiplier(t + j)
      invariant low == (low0 + Sum(v, t, j)) % TWO32 && maxval == (max0 + MaxSum(t, j)) % TWO32
    {
      var b: nat := GetByteOf(x, Offset(i) + j);
      OneByteMore(v, t, j);
      Wrapping(low0 + Sum(v, t, j), mult * b);
      Wrapping(max0 + MaxSum(t, j), mult * 0xFF);
      low := (low + mult * b) % TWO32;
      maxval := (maxval + mult * 0xFF) % TWO32;
      mult := 6;
      j := j + 1;
    }
  }

  lemma NoBytesYet(v: nat, t: nat)
    ensures Sum(v, t, 0) == 0 && MaxSum(t, 0) == 0
  {
  }

  lemma OneByteMore(v: nat, t: nat, j: nat)
    ensures Sum(v, t, j + 1) == Sum(v, t, j) + Multiplier(t + j) * ByteAt(v, t + j)
    ensures MaxSum(t, j + 1) == MaxSum(t, j) + Multiplier(t + j) * 0xFF && Multiplier(t + j + 1) == 6
  {
  }

  lemma Wrapping(a: nat, b: nat)
    ensures (a % TWO32 + b) % TWO32 == (a + b) % TWO32
  {
    CongMod(a, TWO32);
    CongAdd(a % TWO32, a, b, b, TWO32);
  }

  /** The digit that mp_get_decimal takes for the last one. It is, for numbers up to the limit. */
  method LowDigit(x: MpInt) returns (digit: nat)
    requires x.Valid()
    ensures digit == CodeDigit(x.Value(), x.nw) && digit < 10
    ensures x.nw <= LIMIT ==> digit == x.Value() % 10
  {
    hide Nat, Base, Pow, MpInt.Words, MpInt.Value, ReduceDigit, After, Sum, MaxSum, Offset;
    ghost var v := x.Value();
    var low: nat, maxval: nat, i: nat := 0, 0, 0;
    AfterNone(v);
    while i < x.nw
      invariant 0 <= i <= x.nw && low < TWO32 && maxval < TWO32 && Acc(low, maxval) == After(v, i)
    {
      AfterStep(v, i + 1, Sum(v, Offset(i), BIGNUM_INT_BYTES), MaxSum(Offset(i), BIGNUM_INT_BYTES));
      low, maxval := AddBytes(x, i, low, maxval);
      FoldResidue(low);
      FoldResidue(maxval);
      i := i + 1;
      if maxval > UINT32_MAX - STEP {
        low := low % 0x10000 + 6 * (low / 0x10000);
        maxval := maxval % 0x10000 + 6 * (maxval / 0x10000);
      }
    }
    ReduceDigitCorrect(low);
    digit := ReduceDigit(low);
    if x.nw <= LIMIT {
      ValueBound(x);
      DigitWithinLimit(v, x.nw);
    }
  }

  lemma AfterNone(v: nat)
    ensures After(v, 0) == Acc(0, 0)
  {
  }

  // ------------------------------------------------------------------- division by ten

  lemma {:induction false} NatRepeated(s: seq<Word>, c: Word)
    requires forall j :: 0 <= j < |s| ==> s[j] == c
    ensures Nat(s) * (BASE - 1) == c * (Base(|s|) - 1)
  {
    if |s| > 0 {
      NatRepeated(s[1..], c);
      BaseStep(|s| - 1);
      RepeatArith(c, BASE, Nat(s[1..]), Base(|s| - 1));
    }
  }

  lemma RepeatArith(c: int, b: int, n: int, p: int)
    requires n * (b - 1) == c * (p - 1)
    ensures (c + b * n) * (b - 1) == c * (b * p - 1)
  {
    Distribute(b - 1, c, b * n);
    MulAssoc(b, n, b - 1);
    MulAssoc(b, c, p - 1);
    MulAssoc(c, b, p - 1);
    Distribute(c, b, 0 - 1);
    Distribute(c, b * p, 0 - 1);
    Distribute(b, p, 0 - 1);
    Distribute(c, b * p, 0 - b);
  }

  /** The inverse of 5 modulo BASE^nw, built word by word. */
  method MakeInverseOf5(nw: nat) returns (inv5: MpInt)
    requires 0 < nw
    ensures fresh(inv5.mem) && inv5.Valid() && inv5.nw == nw
    ensures inv5.Value() * 5 == 4 * Base(nw) + 1
  {
    hide Nat, Base;
    BaseIsBig();
    inv5 := MakeSized(nw);
    var c: Word := (BASE - 1) / 5 * 4;
    var i := 0;
    while i < nw
      invariant 0 <= i <= nw && forall j :: 0 <= j < i ==> inv5.Words()[j] == c
    {
      SetWord(inv5, i, c);
      i := i + 1;
    }
    ghost var s := inv5.Words();
    NatRepeated(s, c);
    FifthOfMask(c, Nat(s), Base(nw));
    SetWord(inv5, 0, inv5.WordOf(0) + 1);
    NatUpdate(s, 0, c + 1);
    BaseStep(0);
  }

  lemma FifthOfMask(c: nat, n: int, p: int)
    requires c == (BASE - 1) / 5 * 4 && n * (BASE - 1) == c * (p - 1)
    ensures (BASE - 1) % 5 == 0 && c + 1 < BASE && 5 * n == 4 * (p - 1)
  {
    BaseIsBig();
    var m := (BASE - 1) / 5;
    MaskDivisible();
    assert BASE - 1 == 5 * m && c == 4 * m;
    assert m * (5 * n) == m * (4 * (p - 1)) by {
      assert n * (5 * m) == m * (5 * n) by { MulAssoc(n, 5, m); MulAssoc(m, 5, n); }
      assert 4 * m * (p - 1) == m * (4 * (p - 1)) by { MulAssoc(4, m, p - 1); MulAssoc(m, 4, p - 1); }
    }
    MulCancel(5 * n, 4 * (p - 1), m);
  }

  lemma MaskDivisible()
    ensures (BASE - 1) % 5 == 0
  {
    hide Pow2;
    BaseIsPow2(1);
    BaseStep(0);
    WordsAsBits(1);
    Pow2At32();
    Pow2Add(32, 32);
  }

  /** x := x / 10, by an exact division: the digit is taken off, and what is left is halved and multiplied by 1/5. */
  method DivideBy10(x: MpInt, y: MpInt, inv5: MpInt, digit: nat)
    requires x.Valid() && y.Valid() && inv5.Valid() && 0 < x.nw == y.nw == inv5.nw
    requires x.mem != y.mem && inv5.mem != x.mem && inv5.mem != y.mem
    requires inv5.Value() * 5 == 4 * Base(x.nw) + 1
    modifies x.mem, y.mem
    ensures digit == old(x.Value()) % 10 ==> x.Value() == old(x.Value()) / 10
  {
    hide Nat, Base, Pow2, MpInt.Words, MpInt.Value;
    ghost var v, b := x.Value(), Base(x.nw);
    ValueBound(x);
    ExactTenth(v, b, inv5.Value());
    SubIntegerInto(x, x, digit);
    Pow2Step(0);
    RshiftFixedInto(y, x, 1);
    MulInto(x, y, inv5);
  }

  lemma ExactTenth(v: nat, b: nat, inv5: nat)
    requires v < b && inv5 * 5 == 4 * b + 1
    ensures (v - v % 10) % b == v - v % 10 && (v - v % 10) / 2 % b == (v - v % 10) / 2
    ensures ((v - v % 10) / 2 * inv5) % b == v / 10
  {
    var z := v / 10;
    assert v - v % 10 == 10 * z && 10 * z / 2 == 5 * z;
    SmallMod(10 * z, b);
    SmallMod(5 * z, b);
    SmallMod(z, b);
    assert 5 * z * inv5 == z + 4 * z * b by {
      MulAssoc(z, 5, inv5);
      Distribute(z, 4 * b, 1);
      MulAssoc(z, 4, b);
    }
    ModAddMultiple(z, 4 * z, b);
  }

  // ------------------------------------------------------------------------- the digits

  /** The k lowest digits of v. */
  function Padded(v: nat, k: nat): (s: string)
    ensures |s| == k && AllDigits(s)
  {
    if k == 0 then [] else Padded(v / 10, k - 1) + [DigitChar(v % 10)]
  }

  lemma {:induction false} PaddedFront(v: nat, k: nat)
    ensures 0 < Pow(10, k) && 0 <= v / Pow(10, k) && Padded(v, k + 1) == [DigitChar(v / Pow(10, k) % 10)] + Padded(v, k)
    decreases k
  {
    PowPos(10, k);
    DivNonNeg(v, Pow(10, k));
    if k == 0 {
      assert Pow(10, 0) == 1;
      DivModUnique(v, 1, v, 0);
      assert Padded(v / 10, 0) == [];
    } else {
      PaddedFront(v / 10, k - 1);
      DivDiv(v, 10, Pow(10, k - 1));
      assert Padded(v, k + 1) == Padded(v / 10, k) + [DigitChar(v % 10)];
    }
  }

  /** Padding is zeros, and then the representation. */
  lemma {:induction false} PaddedIs(v: nat, k: nat)
    requires v < Pow(10, k) && 0 < k
    ensures |DecimalOf(v)| <= k && Padded(v, k)[k - |DecimalOf(v)|..] == DecimalOf(v)
    ensures forall j :: 0 <= j < k - |DecimalOf(v)| ==> Padded(v, k)[j] == '0'
    decreases k
  {
    if v < 10 {
      SmallPadded(v, k);
    } else {
      assert k > 1 by { assert Pow(10, 0) == 1 && Pow(10, 1) == 10 * Pow(10, 0); }
      PaddedIs(v / 10, k - 1);
      DigitAfter(Padded(v / 10, k - 1), DecimalOf(v / 10), DigitChar(v % 10));
    }
  }

  lemma DigitAfter(t: string, d: string, c: char)
    requires |d| <= |t| && t[|t| - |d|..] == d && forall j :: 0 <= j < |t| - |d| ==> t[j] == '0'
    ensures (t + [c])[|t| - |d|..] == d + [c] && forall j :: 0 <= j < |t| - |d| ==> (t + [c])[j] == '0'
  {
  }

  lemma {:induction false} SmallPadded(v: nat, k: nat)
    requires v < 10 && 0 < k
    ensures Padded(v, k)[k - 1..] == [DigitChar(v)] && forall j :: 0 <= j < k - 1 ==> Padded(v, k)[j] == '0'
  {
    assert Padded(v, k) == Padded(0, k - 1) + [DigitChar(v)];
    ZeroPadded(k - 1);
  }

  lemma {:induction false} ZeroPadded(k: nat)
    ensures forall j :: 0 <= j < k ==> Padded(0, k)[j] == '0'
  {
    if k > 0 {
      ZeroPadded(k - 1);
      assert Padded(0, k) == Padded(0, k - 1) + ['0'];
    }
  }

  /** 146/485 is an upper bound for log10(2). */
  lemma BitsToDigits(n: nat)
    ensures Pow2(n) <= Pow(10, 146 * n / 485 + 1)
  {
    hide Pow, Pow2;
    var d := 146 * n / 485;
    TwoTo485();
    Pow2Positive(485);
    PowBaseLe(Pow2(485), Pow(10, 146), n);
    PowOfPow2(485, n);
    PowOfPow2(n, 485);
    PowMul(10, 146, n);
    PowMul(10, d + 1, 485);
    PowLe(10, 146 * n, (d + 1) * 485);
    PowPos(10, d + 1);
    assert n * 485 == 485 * n;
    if Pow2(n) > Pow(10, d + 1) {
      PowBaseLt(Pow(10, d + 1), Pow2(n), 485);
    }
  }

  lemma TwoTo485()
    ensures Pow2(485) <= Pow(10, 146)
  {
    hide Pow, Pow2;
    TwoTo();
    Pow2Step(4);
    Pow2Add(8, 8);
    Pow2Add(16, 16);
    Pow2Add(32, 32);
    Pow2Add(64, 64);
    Pow2Add(128, 128);
    Pow2Add(256, 128);
    Pow2Add(384, 64);
    Pow2Add(448, 32);
    Pow2Add(480, 5);
    PowAtOne(10);
    PowAdd(10, 1, 1);
    PowAdd(10, 2, 2);
    PowAdd(10, 4, 4);
    PowAdd(10, 8, 8);
    PowAdd(10, 16, 16);
    PowAdd(10, 32, 32);
    PowAdd(10, 64, 64);
    PowAdd(10, 128, 16);
    PowAdd(10, 144, 2);
  }

  /** The buffer has a place for every digit. */
  lemma RoomInBuffer(nw: nat, bufsize: nat)
    requires 0 < nw && bufsize == Max(nw * (146 * BIGNUM_INT_BITS) / 485, 1) + 2
    ensures Base(nw) <= Pow(10, bufsize - 1)
  {
    hide Pow, Pow2, Base;
    var bits := MaxBits(nw);
    WordsAsBits(nw);
    BaseIsPow2(nw);
    BitsToDigits(bits);
    assert nw * (146 * BIGNUM_INT_BITS) == 146 * bits by { MulAssoc(nw, 146, BIGNUM_INT_BITS); MulAssoc(146, nw, BIGNUM_INT_BITS); }
    PowLe(10, 146 * bits / 485 + 1, bufsize - 1);
  }

  // --------------------------------------------------------------- trimming the output

  /** trim is the number of leading zeros of s, but not more than maxtrim. */
  ghost predicate IsTrim(s: seq<char>, trim: nat, maxtrim: nat) {
    && trim <= maxtrim <= |s| && (forall j :: 0 <= j < trim ==> s[j] == '0')
    && (trim < maxtrim ==> s[trim] != '0')
  }

  /** The search for the first character other than '0', which always looks at all of them. */
  method FindTrim(buf: array<char>, maxtrim: nat) returns (trim: nat)
    requires maxtrim <= buf.Length
    ensures IsTrim(buf[..], trim, maxtrim)
  {
    trim := maxtrim;
    var pos := maxtrim;
    while pos > 0
      invariant 0 <= pos <= trim <= maxtrim && (forall j :: pos <= j < trim ==> buf[j] == '0')
      invariant trim < maxtrim ==> buf[trim] != '0'
    {
      pos := pos - 1;
      if buf[pos] != '0' {
        trim := pos;
      }
    }
  }

  /** One pass: characters change places with those d further on, if on. What ends up beyond the last d is not wanted. */
  method SwapPass(buf: array<char>, d: nat, on: bool)
    requires 0 < d
    modifies buf
    ensures on ==> ShiftedBy(old(buf[..]), buf[..], d)
    ensures !on ==> buf[..] == old(buf[..])
  {
    var i := 0;
    while i + d < buf.Length
      invariant 0 <= i
      invariant on ==> forall j :: 0 <= j < i && j + d < buf.Length ==> buf[j] == old(buf[j + d])
      invariant on ==> forall j :: i + d <= j < buf.Length ==> buf[j] == old(buf[j])
      invariant !on ==> buf[..] == old(buf[..])
    {
      if on {
        buf[i], buf[i + d] := buf[i + d], buf[i];
      }
      i := i + 1;
    }
  }

  /** trim_leading_zeroes: the shift is made of passes by powers of two. */
  method TrimLeadingZeroes(buf: array<char>, maxtrim: nat) returns (ghost trim: nat)
    requires maxtrim < buf.Length
    modifies buf
    ensures IsTrim(old(buf[..]), trim, maxtrim) && ShiftedBy(old(buf[..]), buf[..], trim)
  {
    hide Pow2, Bit, Amount, ShiftedBy, IsTrim;
    ghost var orig := buf[..];
    var t := FindTrim(buf, maxtrim);
    trim := t;
    var logd := 0;
    Pow2Step(0);
    AmountStart(1, t);
    NotShifted(orig);
    while buf.Length / Pow2(logd) != 0
      invariant 0 <= logd && ShiftedBy(orig, buf[..], Amount(1, t, logd))
      decreases buf.Length / Pow2(logd)
    {
      AmountStep(1, t, logd);
      Pow2Positive(logd);
      ghost var before := buf[..];
      SwapPass(buf, Pow2(logd), Bit(t, logd) == 1);
      if Bit(t, logd) == 1 {
        ShiftedFurther(orig, before, buf[..], Amount(1, t, logd), Pow2(logd));
      }
      HalvesNext(buf.Length, logd);
      logd := logd + 1;
    }
    TrimBelow(orig, t, maxtrim);
    DivLt(buf.Length, Pow2(logd), 1);
    AmountEnd(1, t, logd);
  }

  /** From its start on, t holds what s has from a on. */
  ghost predicate ShiftedBy(s: seq<char>, t: seq<char>, a: nat) {
    |t| == |s| && forall j :: 0 <= j && j + a < |s| ==> t[j] == s[j + a]
  }

  lemma NotShifted(s: seq<char>)
    ensures ShiftedBy(s, s, 0)
  {
  }

  lemma TrimBelow(s: seq<char>, trim: nat, maxtrim: nat)
    requires IsTrim(s, trim, maxtrim)
    ensures trim <= maxtrim
  {
  }

  lemma ShiftedFurther(s: seq<char>, t: seq<char>, u: seq<char>, a: nat, d: nat)
    requires ShiftedBy(s, t, a) && ShiftedBy(t, u, d)
    ensures ShiftedBy(s, u, a + d)
  {
    forall j | 0 <= j && j + a + d < |s| ensures u[j] == s[j + a + d] {
      assert t[j + d] == s[j + d + a];
    }
  }

  /** The C string in a buffer: what comes before the first zero byte. */
  method CString(buf: array<char>, ghost n: nat) returns (s: string)
    requires n < buf.Length && buf[n] == '\0' && forall j :: 0 <= j < n ==> buf[j] != '\0'
    ensures s == buf[..n]
  {
    var i := 0;
    while buf[i] != '\0'
      invariant 0 <= i <= n
      decreases n - i
    {
      i := i + 1;
    }
    s := buf[..i];
  }

  // ------------------------------------------------------------------------ the whole

  /** What the loop of mp_get_decimal has written when there are pos places left of n: the lowest digits of v, if v is
      within the limit; digits at any rate, the last one being what the code takes for it. */
  ghost predicate Written(buf: seq<char>, pos: nat, n: nat, v: nat, nw: nat)
    requires pos <= n <= |buf|
  {
    && AllDigits(buf[pos..n]) && (nw <= LIMIT ==> buf[pos..n] == Padded(v, n - pos))
    && (pos < n ==> buf[n - 1] == DigitChar(LastDigit(v, nw)))
  }

  ghost function LastDigit(v: nat, nw: nat): (d: nat)
    ensures d < 10 && d == CodeDigit(v, nw)
  {
    CodeDigit(v, nw)
  }

  lemma WrittenMore(buf: seq<char>, now: seq<char>, pos: nat, n: nat, v: nat, nw: nat, digit: nat)
    requires 0 < pos <= n < |buf| == |now| && Written(buf, pos, n, v, nw) && digit < 10
    requires now == buf[pos - 1 := DigitChar(digit)] && (pos == n ==> digit == CodeDigit(v, nw))
    requires nw <= LIMIT ==> Padded(v, n - pos + 1) == [DigitChar(digit)] + Padded(v, n - pos)
    ensures Written(now, pos - 1, n, v, nw)
  {
    hide Padded, CodeDigit;
    assert now[pos - 1..n] == [DigitChar(digit)] + buf[pos..n];
  }

  /** The loop of mp_get_decimal: digits from the lowest up, written from the right. */
  method FillDigits(x: MpInt, inv5: MpInt, outbuf: array<char>, ghost v: nat)
    requires x.Valid() && inv5.Valid() && 0 < x.nw == inv5.nw && inv5.mem != x.mem && 0 < outbuf.Length
    requires inv5.Value() * 5 == 4 * Base(x.nw) + 1 && x.Value() == v
    modifies x.mem, outbuf
    ensures Written(outbuf[..], 0, outbuf.Length - 1, v, x.nw)
    ensures outbuf[outbuf.Length - 1] == old(outbuf[outbuf.Length - 1])
  {
    hide Nat, Base, Pow, Pow2, MpInt.Words, MpInt.Value, Padded, Written, CodeDigit;
    var y := MakeSized(x.nw);
    var n := outbuf.Length - 1;
    var pos := n;
    StartDigits(v);
    StartWritten(outbuf[..], n, v, x.nw);
    while pos > 0
      invariant 0 <= pos <= n && Written(outbuf[..], pos, n, v, x.nw) && outbuf[n] == old(outbuf[n])
      invariant 0 < Pow(10, n - pos) && (x.nw <= LIMIT || pos == n ==> x.Value() == v / Pow(10, n - pos))
      invariant inv5.Value() * 5 == 4 * Base(x.nw) + 1
    {
      PaddedFront(v, n - pos);
      StepDigits(v, n - pos);
      ghost var before := outbuf[..];
      var digit := LowDigit(x);
      pos := pos - 1;
      outbuf[pos] := DigitChar(digit);
      WrittenMore(before, outbuf[..], pos + 1, n, v, x.nw, digit);
      DivideBy10(x, y, inv5, digit);
    }
  }

  lemma StartWritten(buf: seq<char>, n: nat, v: nat, nw: nat)
    requires n <= |buf|
    ensures Written(buf, n, n, v, nw)
  {
    assert Padded(v, 0) == [];
  }

  lemma StartDigits(v: nat)
    ensures 0 < Pow(10, 0) && v / Pow(10, 0) == v && Padded(v, 0) == []
  {
    assert Pow(10, 0) == 1;
    DivModUnique(v, 1, v, 0);
  }

  lemma StepDigits(v: nat, k: nat)
    ensures 0 < Pow(10, k) && 0 < Pow(10, k + 1) && 0 <= v / Pow(10, k) && v / Pow(10, k + 1) == v / Pow(10, k) / 10
  {
    hide Pow;
    PowPos(10, k);
    PowPos(10, k + 1);
    PowAdd(10, k, 1);
    PowAtOne(10);
    DivNonNeg(v, Pow(10, k));
    DivDiv(v, Pow(10, k), 10);
  }

  /** mp_get_decimal: the decimal representation, for numbers up to the limit. The last character is always the digit that
      the code takes for the last one. */
  method GetDecimal(orig: MpInt) returns (s: string)
    requires orig.Valid() && 0 < orig.nw
    ensures orig.nw <= LIMIT ==> s == DecimalOf(orig.Value())
    ensures |s| > 0 && s[|s| - 1] == DigitChar(LastDigit(orig.Value(), orig.nw))
  {
    hide Nat, Base, Pow, MpInt.Words, MpInt.Value, Padded, DecimalOf, AllDigits, ShiftedBy, IsTrim, Written, CodeDigit;
    ghost var v := orig.Value();
    var x := MakeSized(orig.nw);
    CopyInto(x, orig);
    var inv5 := MakeInverseOf5(orig.nw);
    var bufsize := Max(orig.nw * (146 * BIGNUM_INT_BITS) / 485, 1) + 2;
    RoomInBuffer(orig.nw, bufsize);
    ValueBound(orig);
    var outbuf := new char[bufsize](_ => ' ');
    outbuf[bufsize - 1] := '\0';
    FillDigits(x, inv5, outbuf, v);
    ghost var full := outbuf[..];
    ghost var n, trim := bufsize - 1, 0;
    trim := TrimLeadingZeroes(outbuf, bufsize - 2);
    WrittenAll(v, orig.nw, full, n, trim);
    ShiftedString(full, outbuf[..], n, trim);
    s := CString(outbuf, n - trim);
  }

  lemma WrittenAll(v: nat, nw: nat, full: seq<char>, n: nat, trim: nat)
    requires |full| == n + 1 && 0 < n && v < Pow(10, n) && Written(full, 0, n, v, nw) && IsTrim(full, trim, n - 1)
    ensures trim < n && (nw <= LIMIT ==> full[trim..n] == DecimalOf(v)) && forall j :: 0 <= j < n ==> full[j] != '\0'
    ensures full[trim..n][n - trim - 1] == DigitChar(LastDigit(v, nw))
  {
    hide Pow, Padded, DecimalOf, CodeDigit;
    assert full[0..n] == full[..n];
    assert forall j :: 0 <= j < n ==> full[j] == full[0..n][j];
    if nw <= LIMIT {
      TrimmedIs(v, full, n, trim);
    }
  }

  /** So mp_get_decimal is right for every number of nw words just when nw is within the limit. */
  lemma DecimalIsRight(nw: nat)
    ensures (forall v: nat :: v < Base(nw) ==> LastDigit(v, nw) == v % 10) <==> nw <= LIMIT
    ensures forall v: nat :: |DecimalOf(v)| > 0 && DecimalOf(v)[|DecimalOf(v)| - 1] == DigitChar(v % 10)
  {
    hide Base, CodeDigit;
    DigitIsRight(nw);
    assert forall v: nat :: LastDigit(v, nw) == CodeDigit(v, nw);
  }

  /** Where the string and its end are after the shift. */
  lemma ShiftedString(full: seq<char>, now: seq<char>, n: nat, trim: nat)
    requires |full| == n + 1 && trim <= n && ShiftedBy(full, now, trim) && full[n] == '\0'
    requires forall j :: 0 <= j < n ==> full[j] != '\0'
    ensures |now| == n + 1 && now[..n - trim] == full[trim..n] && now[n - trim] == '\0'
    ensures forall j :: 0 <= j < n - trim ==> now[j] != '\0'
  {
  }

  /** The part of the buffer that is left is the representation. */
  lemma TrimmedIs(v: nat, full: seq<char>, n: nat, trim: nat)
    requires |full| == n + 1 && 0 < n && v < Pow(10, n) && full[..n] == Padded(v, n) && IsTrim(full, trim, n - 1)
    ensures trim <= n && full[trim..n] == DecimalOf(v) && forall j :: 0 <= j < n ==> full[j] != '\0'
  {
    hide Pow, Padded, DecimalOf;
    var p := Padded(v, n);
    PaddedIs(v, n);
    var k := n - |DecimalOf(v)|;
    assert forall j :: 0 <= j < n ==> full[j] == p[j];
    assert k <= trim by { assert forall j :: 0 <= j < k ==> full[j] == '0'; }
    assert trim <= k by { if k < n - 1 { FirstDigit(v, p, k); } }
    assert full[trim..n] == p[k..];
  }

  lemma FirstDigit(v: nat, p: string, k: nat)
    requires k + 1 < |p| && p[k..] == DecimalOf(v)
    ensures p[k] != '0'
  {
    assert p[k] == DecimalOf(v)[0];
  }

  /** There and back: a number, and a string of digits in canonical form. */
  lemma DecimalBothWays(v: nat, s: string)
    requires AllDigits(s) && |s| > 0 && (|s| > 1 ==> s[0] != '0')
    ensures AllDigits(DecimalOf(v)) && DecimalValue(DecimalOf(v)) == v
    ensures DecimalOf(DecimalValue(s)) == s
  {
    DecimalRoundTrip(v);
    DecimalCanonical(s);
  }
}
