/**
 Machine words and the numbers that little-endian sequences of them denote.

 A BignumInt has BIGNUM_INT_BITS bits. Its width is a constant that the proofs
 know only to be 32 or 64, so every result holds for both word sizes.
 */
module Words {
  import opened Arithmetic

  type WordBits = w: nat | w == 32 || w == 64 witness 64

  const BIGNUM_INT_BITS: WordBits

  const BASE: nat := Pow2(BIGNUM_INT_BITS)

  lemma BaseIsBig()
    ensures BASE >= 0x1_0000_0000
    ensures BASE % 2 == 0
  {
    hide Pow2;
    Pow2Le(32, BIGNUM_INT_BITS);
    Pow2At32();
    Pow2Step(BIGNUM_INT_BITS - 1);
  }

  lemma Pow2At32()
    ensures Pow2(16) == 0x1_0000
    ensures Pow2(31) == 0x8000_0000
    ensures Pow2(32) == 0x1_0000_0000
  {
    hide Pow2;
    Pow2At8();
    Pow2Add(8, 8);
    Pow2Add(16, 16);
    Pow2Step(31);
  }

  type Word = x: nat | x < BASE witness (BaseIsBig(); 0)

  /** BASE to the power n: the number of values n words can hold. */
  function Base(n: nat): (r: nat)
    ensures 0 < r
  {
    PowPos(BASE, n);
    Pow(BASE, n)
  }

  lemma BaseStep(n: nat)
    ensures Base(n + 1) == BASE * Base(n) == Base(n) * BASE
    ensures Base(0) == 1
    ensures Base(1) == BASE
  {
    assert Pow(BASE, 1) == BASE * Pow(BASE, 0);
  }

  lemma BaseAdd(m: nat, n: nat)
    ensures Base(m + n) == Base(m) * Base(n)
  {
    PowAdd(BASE, m, n);
  }

  lemma BaseLe(m: nat, n: nat)
    requires m <= n
    ensures Base(m) <= Base(n)
  {
    BaseIsBig();
    PowLe(BASE, m, n);
  }

  /** mp_max_bits of an n-word number. */
  const BIGNUM_INT_BITS_BITS: nat := if BIGNUM_INT_BITS == 64 then 6 else 5

  lemma BitsOfBits()
    ensures Pow2(BIGNUM_INT_BITS_BITS) == BIGNUM_INT_BITS
  {
    hide Pow2;
    Pow2At8();
    Pow2Step(4);
    Pow2Step(5);
  }

  function MaxBits(n: nat): nat {
    MulLe(0, n, BIGNUM_INT_BITS);
    n * BIGNUM_INT_BITS
  }

  lemma WordsAsBits(words: nat)
    ensures MaxBits(words) == words * BIGNUM_INT_BITS
  {
  }

  lemma MaxBitsLe(m: nat, n: nat)
    requires m <= n
    ensures MaxBits(m) <= MaxBits(n)
  {
    MulLe(m, n, BIGNUM_INT_BITS);
  }

  lemma BaseIsPow2(n: nat)
    ensures Base(n) == Pow2(MaxBits(n))
  {
    PowMul(2, BIGNUM_INT_BITS, n);
  }

  /** The number of words that b bits need. */
  function WordsForBits(b: nat): nat {
    CeilDiv(b, BIGNUM_INT_BITS)
  }

  lemma WordsForBitsFit(b: nat)
    ensures b <= MaxBits(WordsForBits(b)) < b + BIGNUM_INT_BITS
    ensures 0 < b ==> 0 < WordsForBits(b)
    ensures forall n: nat :: b <= MaxBits(n) ==> WordsForBits(b) <= n
  {
    hide CeilDiv;
    CeilDivBounds(b, BIGNUM_INT_BITS);
  }

  /** The number denoted by a little-endian sequence of words. */
  function Nat(s: seq<Word>): nat
  {
    if |s| == 0 then 0 else s[0] + BASE * Nat(s[1..])
  }

  lemma {:induction false} NatConcat(s: seq<Word>, t: seq<Word>)
    ensures Nat(s + t) == Nat(s) + Nat(t) * Base(|s|)
  {
    if |s| == 0 {
      assert s + t == t;
    } else {
      assert (s + t)[1..] == s[1..] + t;
      NatConcat(s[1..], t);
      BaseStep(|s| - 1);
      var u, b := Nat(t), Base(|s| - 1);
      calc {
        s[0] + BASE * (Nat(s[1..]) + u * b);
        { Distribute(BASE, Nat(s[1..]), u * b); }
        Nat(s) + BASE * (u * b);
        { MulAssoc(BASE, u, b); }
        Nat(s) + u * (BASE * b);
      }
    }
  }

  lemma NatEmpty(s: seq<Word>)
    ensures Nat([]) == 0 && Nat(s[..0]) == 0
    ensures Base(0) == 1
  {
    assert s[..0] == [];
  }

  lemma NatOne(x: Word)
    ensures Nat([x]) == x
  {
    assert [x][1..] == [];
  }

  lemma NatSnoc(s: seq<Word>, x: Word)
    ensures Nat(s + [x]) == Nat(s) + x * Base(|s|)
  {
    NatConcat(s, [x]);
    NatOne(x);
  }

  lemma {:induction false} NatBound(s: seq<Word>)
    ensures Nat(s) < Base(|s|)
  {
    if |s| > 0 {
      NatBound(s[1..]);
      BaseStep(|s| - 1);
      MulLe(Nat(s[1..]) + 1, Base(|s| - 1), BASE);
      Distribute(BASE, Nat(s[1..]), 1);
    }
  }

  lemma NatSplit(s: seq<Word>, i: nat)
    requires i <= |s|
    ensures Nat(s) == Nat(s[..i]) + Nat(s[i..]) * Base(i)
  {
    assert s == s[..i] + s[i..];
    NatConcat(s[..i], s[i..]);
  }

  /** Taking the low words is reduction modulo a power of the base; dropping them is division. */
  lemma NatParts(s: seq<Word>, i: nat)
    requires i <= |s|
    ensures Nat(s[..i]) == Nat(s) % Base(i)
    ensures Nat(s[i..]) == Nat(s) / Base(i)
  {
    NatSplit(s, i);
    NatBound(s[..i]);
    DivModUnique(Nat(s), Base(i), Nat(s[i..]), Nat(s[..i]));
  }

  lemma NatUpdate(s: seq<Word>, k: nat, x: Word)
    requires k < |s|
    ensures Nat(s[k := x]) == Nat(s) + (x - s[k]) * Base(k)
  {
    var t := s[k := x];
    NatSplit(s, k);
    NatSplit(t, k);
    assert t[..k] == s[..k];
    assert t[k..][1..] == s[k..][1..];
    var rest := Nat(s[k..][1..]);
    assert Nat(s[k..]) == s[k] + BASE * rest;
    assert Nat(t[k..]) == x + BASE * rest;
    Distribute(Base(k), Nat(s[k..]), x - s[k]);
  }

  lemma NatStep(s: seq<Word>, i: nat)
    requires i < |s|
    ensures Nat(s[..i + 1]) == Nat(s[..i]) + s[i] * Base(i)
  {
    assert s[..i + 1] == s[..i] + [s[i]];
    NatSnoc(s[..i], s[i]);
  }

  function Zeros(n: nat): (s: seq<Word>)
    ensures |s| == n
  {
    BaseIsBig();
    seq(n, _ => 0)
  }

  lemma {:induction false} NatZeros(n: nat)
    ensures Nat(Zeros(n)) == 0
  {
    if n > 0 {
      assert Zeros(n)[1..] == Zeros(n - 1);
      NatZeros(n - 1);
    }
  }

  /** s cut or padded with zero words to exactly n words: what mp_word reads for i < n. */
  function Resize(s: seq<Word>, n: nat): (t: seq<Word>)
    ensures |t| == n
  {
    if n <= |s| then s[..n] else s + Zeros(n - |s|)
  }

  function WordAt(s: seq<Word>, i: nat): Word
  {
    if i < |s| then s[i] else BaseIsBig(); 0
  }

  lemma NatPad(s: seq<Word>, k: nat)
    ensures Nat(s + Zeros(k)) == Nat(s)
  {
    NatConcat(s, Zeros(k));
    NatZeros(k);
  }

  lemma NatFits(s: seq<Word>, n: nat)
    requires |s| <= n
    ensures Nat(s) < Base(n) && Nat(s) % Base(n) == Nat(s)
  {
    NatBound(s);
    BaseLe(|s|, n);
    SmallMod(Nat(s), Base(n));
  }

  lemma NatResize(s: seq<Word>, n: nat)
    ensures Nat(Resize(s, n)) == Nat(s) % Base(n)
    ensures |s| <= n ==> Nat(Resize(s, n)) == Nat(s)
  {
    if n < |s| {
      NatParts(s, n);
    } else {
      NatFits(s, n);
      if n == |s| {
        assert s[..n] == s;
      } else {
        NatPad(s, n - |s|);
      }
    }
  }

  lemma {:induction false} NatInjective(s: seq<Word>, t: seq<Word>)
    requires |s| == |t| && Nat(s) == Nat(t)
    ensures s == t
  {
    if |s| > 0 {
      DivModUnique(Nat(s), BASE, Nat(s[1..]), s[0]);
      DivModUnique(Nat(t), BASE, Nat(t[1..]), t[0]);
      NatInjective(s[1..], t[1..]);
      assert s == [s[0]] + s[1..];
    }
  }

  lemma NatZero(s: seq<Word>)
    ensures Nat(s) == 0 <==> s == Zeros(|s|)
  {
    NatZeros(|s|);
    if Nat(s) == 0 {
      NatInjective(s, Zeros(|s|));
    }
  }

  /** Word i of s, recovered from the number s denotes. */
  lemma NatDigit(s: seq<Word>, i: nat)
    ensures WordAt(s, i) == Nat(s) / Base(i) % BASE
  {
    BaseIsBig();
    if i < |s| {
      NatParts(s, i);
      var u := s[i..];
      DivModUnique(Nat(u), BASE, Nat(u[1..]), u[0]);
    } else {
      NatBound(s);
      BaseLe(|s|, i);
      SmallMod(Nat(s), Base(i));
      SmallMod(0, BASE);
    }
  }
}
