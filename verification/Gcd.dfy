/**
 Greatest common divisors of any two numbers: shared factors of two are found
 with bit operations, divided out, and put back.
 */
module Gcd {
  import opened Arithmetic
  import opened Words
  import opened MpInts
  import opened AddSub
  import opened SafeShifts
  import opened Stein
  import opened Bezout
  import Primes

  // --------------------------------------------------------- bit operations on numbers

  function Or(a: nat, b: nat): nat {
    if a == 0 && b == 0 then 0
    else (if a % 2 == 1 || b % 2 == 1 then 1 else 0) + 2 * Or(a / 2, b / 2)
  }

  function And(a: nat, b: nat): nat {
    if a == 0 && b == 0 then 0
    else (if a % 2 == 1 && b % 2 == 1 then 1 else 0) + 2 * And(a / 2, b / 2)
  }

  /** The index of the lowest set bit. */
  function LowIndex(w: nat): nat
    requires 0 < w
  {
    if w % 2 == 1 then 0 else 1 + LowIndex(w / 2)
  }

  lemma {:induction false} OrBound(a: nat, b: nat, p: nat)
    requires a < Pow2(p) && b < Pow2(p)
    ensures Or(a, b) < Pow2(p)
    ensures Or(a, b) == 0 <==> a == 0 && b == 0
  {
    if p > 0 {
      Pow2Step(p - 1);
      OrBound(a / 2, b / 2, p - 1);
    }
  }

  lemma {:induction false} AndZero(b: nat)
    ensures And(0, b) == 0
  {
    if b > 0 { AndZero(b / 2); }
  }

  lemma {:induction false} AndBound(a: nat, b: nat)
    ensures And(a, b) <= a
  {
    if a == 0 {
      AndZero(b);
    } else {
      AndBound(a / 2, b / 2);
    }
  }

  /** A number and its complement share no bit. */
  lemma {:induction false} AndComplement(w: nat, p: nat)
    requires w < Pow2(p)
    ensures And(w, Pow2(p) - 1 - w) == 0
  {
    if p == 0 {
      assert Pow2(0) == 1;
    } else {
      Pow2Step(p - 1);
      var c := Pow2(p) - 1 - w;
      assert c / 2 == Pow2(p - 1) - 1 - w / 2;
      AndComplement(w / 2, p - 1);
    }
  }

  /** A number and its negation share its lowest bit only. */
  lemma {:induction false} AndNegation(w: nat, p: nat)
    requires 0 < w < Pow2(p)
    ensures And(w, Pow2(p) - w) == Pow2(LowIndex(w))
  {
    assert 0 < p by { assert Pow2(0) == 1; }
    Pow2Step(p - 1);
    var c := Pow2(p) - w;
    if w % 2 == 1 {
      assert c % 2 == 1 && c / 2 == Pow2(p - 1) - 1 - w / 2;
      AndComplement(w / 2, p - 1);
      Pow2Step(0);
    } else {
      assert c % 2 == 0 && c / 2 == Pow2(p - 1) - w / 2;
      AndNegation(w / 2, p - 1);
      Pow2Step(LowIndex(w / 2));
    }
  }

  lemma {:induction false} LowIndexBound(w: nat, p: nat)
    requires 0 < w < Pow2(p)
    ensures LowIndex(w) < p
  {
    assert 0 < p by { assert Pow2(0) == 1; }
    Pow2Step(p - 1);
    if w % 2 == 0 {
      LowIndexBound(w / 2, p - 1);
    }
  }

  /** The lowest bit of a | b is the lowest that either has. */
  lemma {:induction false} LowestOfEither(a: nat, b: nat)
    requires 0 < Or(a, b)
    ensures LowestShared(a, b, LowIndex(Or(a, b)))
    decreases a + b
  {
    hide Pow2, Or, LowestShared;
    var w := Or(a, b);
    OrHalves(a, b);
    if a % 2 == 1 || b % 2 == 1 {
      OddShared(a, b);
    } else {
      LowestOfEither(a / 2, b / 2);
      DoubledShared(a, b, LowIndex(w / 2));
    }
  }

  lemma OrHalves(a: nat, b: nat)
    requires 0 < Or(a, b)
    ensures 0 < a + b
    ensures if a % 2 == 1 || b % 2 == 1 then Or(a, b) % 2 == 1 else Or(a, b) == 2 * Or(a / 2, b / 2)
  {
    hide Or;
    OrStep(a, b);
  }

  lemma OrStep(a: nat, b: nat)
    ensures Or(a, b) == (if a % 2 == 1 || b % 2 == 1 then 1 else 0) + 2 * Or(a / 2, b / 2)
    ensures a + b == 0 ==> Or(a, b) == 0
  {
    if a == 0 && b == 0 {
      assert Or(0, 0) == 0;
    }
  }

  lemma OddShared(a: nat, b: nat)
    requires a % 2 == 1 || b % 2 == 1
    ensures LowestShared(a, b, 0)
  {
    assert Pow2(0) == 1;
    DivModUnique(a, 1, a, 0);
    DivModUnique(b, 1, b, 0);
  }

  lemma DoubledShared(a: nat, b: nat, e: nat)
    requires a % 2 == 0 && b % 2 == 0 && LowestShared(a / 2, b / 2, e)
    ensures LowestShared(a, b, e + 1)
  {
    hide Pow2;
    DoubledMultiple(a, e);
    DoubledMultiple(b, e);
  }

  /** 2^e is the largest power of two that divides both. */
  ghost predicate LowestShared(a: nat, b: nat, e: nat) {
    a % Pow2(e) == 0 && b % Pow2(e) == 0 && EitherOdd(a / Pow2(e), b / Pow2(e))
  }

  ghost predicate EitherOdd(a: int, b: int) {
    a % 2 == 1 || b % 2 == 1
  }

  lemma DoubledMultiple(a: nat, e: nat)
    requires a % 2 == 0 && (a / 2) % Pow2(e) == 0
    ensures a % Pow2(e + 1) == 0 && a / Pow2(e + 1) == a / 2 / Pow2(e)
  {
    hide Pow2;
    Pow2Step(e);
    DivDiv(a, 2, Pow2(e));
  }

  // ---------------------------------------------------------- the shared power of two

  /** The index of the first nonzero word, or the length. */
  function FirstNonzero(t: seq<Word>): (k: nat)
    ensures k <= |t|
    ensures forall j :: 0 <= j < k ==> t[j] == 0
    ensures k < |t| ==> t[k] != 0
  {
    if |t| == 0 || t[0] != 0 then 0 else 1 + FirstNonzero(t[1..])
  }

  /** Word j of a number of which only the lowest set bit is left. */
  function Isolated(t: seq<Word>, j: nat): nat
    requires j < |t|
  {
    if j == FirstNonzero(t) then Pow2(LowIndex(t[j])) else 0
  }

  lemma WordIsPow2()
    ensures Pow2(BIGNUM_INT_BITS) == BASE
  {
    BaseIsPow2(1);
    BaseStep(0);
    WordsAsBits(1);
  }

  /** One word of tmp &= -tmp. */
  lemma IsolateStep(t: seq<Word>, i: nat, carry: nat, negw: Word, carry': nat)
    requires i < |t| && carry == (if i <= FirstNonzero(t) then 1 else 0)
    requires negw + carry' * BASE == 0 + (BASE - 1 - t[i]) + carry && carry' <= 1
    ensures And(t[i], negw) == Isolated(t, i) < BASE
    ensures carry' == if i + 1 <= FirstNonzero(t) then 1 else 0
  {
    hide And, Pow2, LowIndex;
    WordIsPow2();
    AndBound(t[i], negw);
    var w := t[i];
    if i < FirstNonzero(t) {
      AndZero(negw);
    } else if i == FirstNonzero(t) {
      AndNegation(w, BIGNUM_INT_BITS);
    } else {
      AndComplement(w, BIGNUM_INT_BITS);
    }
  }

  /** tmp := a | b. */
  method OrInto(tmp: MpInt, a: MpInt, b: MpInt)
    requires tmp.Valid() && a.Valid() && b.Valid() && tmp.mem != a.mem && tmp.mem != b.mem
    modifies tmp.mem
    ensures OnlyWrites(tmp)
    ensures forall j :: 0 <= j < tmp.nw ==> tmp.Words()[j] == Or(WordAt(a.Words(), j), WordAt(b.Words(), j))
  {
    hide Or, Nat;
    WordIsPow2();
    var i := 0;
    while i < tmp.nw
      invariant 0 <= i <= tmp.nw
      invariant OnlyWrites(tmp)
      invariant forall j :: 0 <= j < i ==> tmp.Words()[j] == Or(WordAt(a.Words(), j), WordAt(b.Words(), j))
    {
      OrBound(a.WordOf(i), b.WordOf(i), BIGNUM_INT_BITS);
      SetWord(tmp, i, Or(a.WordOf(i), b.WordOf(i)));
      i := i + 1;
    }
  }

  /** tmp := tmp & -tmp. */
  method IsolateLowest(tmp: MpInt)
    requires tmp.Valid()
    modifies tmp.mem
    ensures OnlyWrites(tmp)
    ensures forall j :: 0 <= j < tmp.nw ==> tmp.Words()[j] == Isolated(old(tmp.Words()), j)
  {
    hide And, Isolated, FirstNonzero;
    BaseIsBig();
    ghost var t := tmp.Words();
    var carry := 1;
    var i := 0;
    while i < tmp.nw
      invariant 0 <= i <= tmp.nw && carry == if i <= FirstNonzero(t) then 1 else 0
      invariant OnlyWrites(tmp)
      invariant forall j :: 0 <= j < i ==> tmp.Words()[j] == Isolated(t, j)
      invariant forall j :: i <= j < tmp.nw ==> tmp.Words()[j] == t[j]
    {
      var w := tmp.WordOf(i);
      var negw, carry' := Adc(0, BASE - 1 - w, carry);
      IsolateStep(t, i, carry, negw, carry');
      SetWord(tmp, i, And(w, negw));
      carry, i := carry', i + 1;
    }
  }

  lemma {:induction false} NatSingle(t: seq<Word>, k: nat)
    requires forall j :: 0 <= j < |t| && j != k ==> t[j] == 0
    ensures Nat(t) == if k < |t| then t[k] * Base(k) else 0
  {
    hide Nat, Base;
    BaseIsBig();
    var zeros := Zeros(|t|);
    NatZeros(|t|);
    if k < |t| {
      assert t == zeros[k := t[k]];
      NatUpdate(zeros, k, t[k]);
    } else {
      assert t == zeros;
    }
  }

  /** Below its first nonzero word a number is a multiple of a power of the base, and that word says which further
      powers of two divide it. */
  lemma ShiftOut(s: seq<Word>, k: nat, e: nat)
    requires k < |s| && e < BIGNUM_INT_BITS && (forall j :: 0 <= j < k ==> s[j] == 0) && s[k] % Pow2(e) == 0
    ensures 0 <= MaxBits(k) + e && Nat(s) % Pow2(MaxBits(k) + e) == 0
    ensures Nat(s) / Pow2(MaxBits(k) + e) % 2 == s[k] / Pow2(e) % 2
  {
    hide Nat, Base, Pow2, MaxBits;
    var rest := Nat(s[k + 1..]);
    assert Nat(s) == Base(k) * (s[k] + BASE * rest) by { TopPart(s, k); }
    WordIsPow2();
    Pow2Add(e + 1, BIGNUM_INT_BITS - e - 1);
    Pow2Step(e);
    BaseIsPow2(k);
    Pow2Add(MaxBits(k), e);
    ShiftOutArith(Base(k), s[k], rest, Pow2(e), Pow2(BIGNUM_INT_BITS - e - 1), Nat(s));
  }

  lemma TopPart(s: seq<Word>, k: nat)
    requires k < |s| && forall j :: 0 <= j < k ==> s[j] == 0
    ensures Nat(s) == Base(k) * (s[k] + BASE * Nat(s[k + 1..]))
  {
    hide Nat, Base;
    NatSplit(s, k);
    NatSingle(s[..k], k);
    assert Nat(s[k..]) == s[k] + BASE * Nat(s[k + 1..]) by { FirstWord(s[k..], s[k + 1..]); }
  }

  lemma FirstWord(s: seq<Word>, rest: seq<Word>)
    requires 0 < |s| && rest == s[1..]
    ensures Nat(s) == s[0] + BASE * Nat(rest)
  {
  }

  lemma ShiftOutArith(b: nat, x: nat, rest: nat, p: nat, q: nat, v: nat)
    requires 0 < b && 0 < p && x % p == 0 && v == b * (x + BASE * rest) && BASE == 2 * p * q
    ensures 0 < b * p && v % (b * p) == 0 && v / (b * p) % 2 == x / p % 2
  {
    var y := x / p;
    assert x == y * p;
    MulLe(1, b, p);
    var z := y + 2 * (q * rest);
    assert x + BASE * rest == z * p by {
      assert BASE * rest == 2 * p * q * rest == 2 * (q * rest) * p by { MulAssoc(2 * p, q, rest); MulAssoc(2, p, q * rest); MulAssoc(2, q * rest, p); }
      Distribute(p, y, 2 * (q * rest));
    }
    assert v == z * (b * p) by { MulAssoc(z, b, p); MulAssoc(b, z, p); }
    MultipleMod(z, b * p);
    ModAddMultiple(y, q * rest, 2);
  }

  /** The largest size_t. */
  const SIZE_MAX: nat := 0xFFFF_FFFF_FFFF_FFFF

  /** The shared power of two, as mp_gcd_into finds it: or, isolate the lowest bit, count bits. For two zeros the
      subtraction of 1 wraps around. */
  method SharedShift(a: MpInt, b: MpInt) returns (shift: nat)
    requires a.Valid() && b.Valid()
    ensures if a.Value() == 0 && b.Value() == 0 then shift == SIZE_MAX else LowestShared(a.Value(), b.Value(), shift)
  {
    hide Nat, Base, Pow2, MaxBits, MpInt.Words, MpInt.Value, Or, Isolated, FirstNonzero, HasBits, OnlyWrites, WordAt;
    var tmp := MakeSized(Max(a.nw, b.nw));
    OrInto(tmp, a, b);
    ghost var t := tmp.Words();
    IsolateLowest(tmp);
    var bits := GetNbits(tmp);
    assert tmp.Value() == Nat(tmp.Words()) by { ValueOfWords(tmp); }
    assert a.Value() == Nat(a.Words()) by { ValueOfWords(a); }
    assert b.Value() == Nat(b.Words()) by { ValueOfWords(b); }
    if a.Value() == 0 && b.Value() == 0 {
      NoSharedBits(a.Words(), b.Words(), t, tmp.Words(), bits);
    } else {
      SharedBits(a.Words(), b.Words(), t, tmp.Words(), bits);
    }
    shift := if bits == 0 then SIZE_MAX else bits - 1;
  }

  lemma NoSharedBits(a: seq<Word>, b: seq<Word>, t: seq<Word>, u: seq<Word>, bits: nat)
    requires |t| == |u| == Max(|a|, |b|) && Nat(a) == 0 && Nat(b) == 0 && HasBits(Nat(u), bits)
    requires forall j :: 0 <= j < |t| ==> t[j] == Or(WordAt(a, j), WordAt(b, j))
    requires forall j :: 0 <= j < |u| ==> u[j] == Isolated(t, j)
    ensures bits == 0
  {
    hide Nat, Base, MaxBits, Or, LowIndex, FirstNonzero;
    NatZero(a);
    NatZero(b);
    NoBits();
    assert forall j :: 0 <= j < |t| ==> t[j] == 0;
    assert FirstNonzero(t) == |t|;
    assert forall j :: 0 <= j < |u| ==> u[j] == 0;
    assert u == Zeros(|u|);
    NatZero(u);
  }

  lemma NoBits()
    ensures Or(0, 0) == 0
  {
  }

  lemma ValueOfWords(x: MpInt)
    requires x.Valid()
    ensures x.Value() == Nat(x.Words())
  {
  }

  lemma SharedBits(a: seq<Word>, b: seq<Word>, t: seq<Word>, u: seq<Word>, bits: nat)
    requires |t| == |u| == Max(|a|, |b|) && (0 < Nat(a) || 0 < Nat(b)) && HasBits(Nat(u), bits)
    requires forall j :: 0 <= j < |t| ==> t[j] == Or(WordAt(a, j), WordAt(b, j))
    requires forall j :: 0 <= j < |u| ==> u[j] == Isolated(t, j)
    ensures 0 < bits && LowestShared(Nat(a), Nat(b), bits - 1)
  {
    hide Nat, Base, Pow2, MaxBits, Or, LowIndex, FirstNonzero, HasBits, LowestShared;
    var k, n := FirstNonzero(t), |t|;
    var ra, rb := Resize(a, n), Resize(b, n);
    NatResize(a, n);
    NatResize(b, n);
    ResizedWords(a, n);
    ResizedWords(b, n);
    WordIsPow2();
    OrsOfZero(ra, rb, t);
    SomeWord(ra, rb, k);
    var e := LowIndex(t[k]);
    LowIndexBound(t[k], BIGNUM_INT_BITS);
    NatSingle(u, k);
    BitsOfSingle(k, e, Nat(u), bits);
    LowestOfEither(ra[k], rb[k]);
    SharedInWords(ra, rb, k, e);
  }

  lemma ResizedWords(a: seq<Word>, n: nat)
    requires |a| <= n
    ensures forall j :: 0 <= j < n ==> Resize(a, n)[j] == WordAt(a, j)
  {
  }

  lemma OrsOfZero(a: seq<Word>, b: seq<Word>, t: seq<Word>)
    requires |a| == |b| == |t| && forall j :: 0 <= j < |t| ==> t[j] == Or(a[j], b[j])
    ensures forall j :: 0 <= j < |t| ==> (t[j] == 0 <==> a[j] == 0 && b[j] == 0)
  {
    hide Or;
    WordIsPow2();
    forall j | 0 <= j < |t| ensures t[j] == 0 <==> a[j] == 0 && b[j] == 0 {
      OrBound(a[j], b[j], BIGNUM_INT_BITS);
    }
  }

  lemma SomeWord(a: seq<Word>, b: seq<Word>, k: nat)
    requires |a| == |b| && (0 < Nat(a) || 0 < Nat(b)) && k <= |a|
    requires forall j :: 0 <= j < k ==> a[j] == 0 && b[j] == 0
    ensures k < |a|
  {
    hide Nat;
    if k == |a| {
      NatSingle(a, k);
      NatSingle(b, k);
    }
  }

  lemma BitsOfSingle(k: nat, e: nat, v: nat, bits: nat)
    requires v == Pow2(e) * Base(k) && HasBits(v, bits)
    ensures bits == MaxBits(k) + e + 1
  {
    hide Pow2, Base, MaxBits;
    BaseIsPow2(k);
    Pow2Add(e, MaxBits(k));
    Pow2Lt(MaxBits(k) + e, MaxBits(k) + e + 1);
    BitsUnique(v, bits, MaxBits(k) + e + 1);
  }

  lemma SharedInWords(a: seq<Word>, b: seq<Word>, k: nat, e: nat)
    requires k < |a| == |b| && (forall j :: 0 <= j < k ==> a[j] == 0 && b[j] == 0)
    requires e < BIGNUM_INT_BITS && LowestShared(a[k], b[k], e)
    ensures 0 <= MaxBits(k) + e && LowestShared(Nat(a), Nat(b), MaxBits(k) + e)
  {
    hide Nat, Pow2, MaxBits;
    ShiftOut(a, k, e);
    ShiftOut(b, k, e);
  }

  // --------------------------------------------------------------------------- the gcd

  /** A common factor of two numbers is a factor of their gcd. */
  lemma GcdScaled(d: nat, a: nat, b: nat, k: nat)
    requires IsGcd(d, a, b) && 0 < k && (0 < a || 0 < b)
    ensures 0 <= k * d && 0 <= k * a && 0 <= k * b && IsGcd(k * d, k * a, k * b)
  {
    hide Divides;
    var x, y, g := Primes.Euclid(a, b);
    GcdIsCombination(d, a, b, x, y, g);
    MulLe(1, k, d);
    MulLe(0, k, a);
    MulLe(0, k, b);
    forall c: nat | 0 < c
      ensures (Divides(c, k * a) && Divides(c, k * b)) <==> Divides(c, k * d)
    {
      if Divides(c, k * a) && Divides(c, k * b) {
        CombinationScaled(c, k, a, b, x, y, d);
      }
      if Divides(c, k * d) {
        GcdDivides(d, a, b);
        ScaledMultiple(c, k, d, a);
        ScaledMultiple(c, k, d, b);
      }
    }
  }

  lemma GcdDivides(d: nat, a: nat, b: nat)
    requires IsGcd(d, a, b)
    ensures Divides(d, a) && Divides(d, b)
  {
    assert Divides(d, d) by { MultipleMod(1, d); }
  }

  /** Euclid's g divides both numbers, and is a combination of them, so it is the gcd. */
  lemma GcdIsCombination(d: nat, a: nat, b: nat, x: int, y: int, g: nat)
    requires IsGcd(d, a, b) && 0 < g && a % g == 0 && b % g == 0 && x * a + y * b == g
    ensures x * a + y * b == d
  {
    assert Divides(g, a) && Divides(g, b);
    assert Divides(g, d);
    GcdDivides(d, a, b);
    DividesCombination(d, a, b, x, y);
    assert Divides(d, g);
    MutualDivisors(d, g);
  }

  lemma DividesCombination(c: nat, a: int, b: int, x: int, y: int)
    requires 0 < c && Divides(c, a) && Divides(c, b)
    ensures Divides(c, x * a + y * b)
  {
    var p, q := a / c, b / c;
    assert x * a + y * b == (x * p + y * q) * c by {
      Distribute(c, x * p, y * q);
      MulAssoc(x, p, c);
      MulAssoc(y, q, c);
    }
    MultipleMod(x * p + y * q, c);
  }

  lemma MutualDivisors(d: nat, g: nat)
    requires 0 < d && 0 < g && Divides(d, g) && Divides(g, d)
    ensures d == g
  {
    if d < g { SmallMod(d, g); }
    if g < d { SmallMod(g, d); }
  }

  lemma CombinationScaled(c: nat, k: nat, a: nat, b: nat, x: int, y: int, d: nat)
    requires 0 < c && Divides(c, k * a) && Divides(c, k * b) && x * a + y * b == d
    ensures Divides(c, k * d)
  {
    hide Divides;
    DividesCombination(c, k * a, k * b, x, y);
    MulAssoc(x, k, a);
    MulAssoc(y, k, b);
    MulAssoc(k, x, a);
    MulAssoc(k, y, b);
    Distribute(k, x * a, y * b);
    assert x * (k * a) + y * (k * b) == k * d;
  }

  lemma ScaledMultiple(c: nat, k: nat, d: nat, a: nat)
    requires 0 < c && 0 < d && Divides(c, k * d) && Divides(d, a)
    ensures Divides(c, k * a)
  {
    var q := a / d;
    MulAssoc(k, d, q);
    DividesCombination(c, k * d, 0, q, 0);
    assert k * a == q * (k * d) + 0 * 0;
  }

  /** Dividing out the shared power of two, and putting it back. */
  lemma SharedOut(a: nat, b: nat, e: nat)
    requires LowestShared(a, b, e)
    ensures 0 <= a / Pow2(e) && 0 <= b / Pow2(e) && OneOdd(a / Pow2(e), b / Pow2(e))
    ensures Pow2(e) * (a / Pow2(e)) == a && Pow2(e) * (b / Pow2(e)) == b
  {
    DivNonNeg(a, Pow2(e));
    DivNonNeg(b, Pow2(e));
  }

  /** Dividing by the shift that was found, also for two zeros. */
  lemma ShiftedOut(a: nat, b: nat, e: nat)
    requires if a == 0 && b == 0 then e == SIZE_MAX else LowestShared(a, b, e)
    ensures 0 <= a / Pow2(e) && 0 <= b / Pow2(e) && Reducible(a / Pow2(e), b / Pow2(e))
    ensures Pow2(e) * (a / Pow2(e)) == a && Pow2(e) * (b / Pow2(e)) == b
    ensures (a / Pow2(e) == 0 <==> a == 0) && (b / Pow2(e) == 0 <==> b == 0)
  {
    hide Pow2;
    if a == 0 && b == 0 {
      DivModUnique(0, Pow2(e), 0, 0);
    } else {
      SharedOut(a, b, e);
    }
  }

  /** mp_gcd_into with all three outputs. */
  method GcdInto(a: MpInt, b: MpInt, gcd: MpInt, aOut: MpInt, bOut: MpInt) returns (ghost d: nat, ghost A: nat, ghost B: nat)
    requires a.Valid() && b.Valid()
    requires aOut.Valid() && bOut.Valid() && gcd.Valid()
    requires aOut.mem != bOut.mem && aOut.mem != gcd.mem && bOut.mem != gcd.mem
    modifies aOut.mem, bOut.mem, gcd.mem
    ensures GcdOf(d, old(a.Value()), old(b.Value()))
    ensures Outcome(A, B, old(a.Value()), old(b.Value()), d, Base(RegisterWords(a.nw, b.nw)))
    ensures gcd.Value() == d % Base(gcd.nw)
    ensures aOut.Value() == A % Base(aOut.nw) && bOut.Value() == B % Base(bOut.nw)
  {
    hide Nat, Base, Pow2, MpInt.Words, MpInt.Value, LowestShared, IsGcd, Minimal, Outcome, GcdOf;
    ghost var va, vb := a.Value(), b.Value();
    var shift := SharedShift(a, b);
    ShiftedOut(va, vb, shift);
    var as' := RshiftSafe(a, shift);
    var bs := RshiftSafe(b, shift);
    ghost var sa, sb, p := as'.Value(), bs.Value(), Pow2(shift);
    ghost var d0;
    d0, A, B := BezoutInto(aOut, bOut, gcd, as', bs);
    GcdScaledUp(d0, sa, sb, p);
    OutcomeScaledUp(A, B, sa, sb, d0, Base(RegisterWords(a.nw, b.nw)), p);
    d := p * d0;
    LshiftSafeInPlace(gcd, shift);
    ShiftedBack(d0, p, Base(gcd.nw));
  }

  lemma ShiftedBack(d: nat, p: nat, n: nat)
    requires 0 < n
    ensures (d % n * p) % n == (p * d) % n
  {
    CongMod(d, n);
    CongMul(d % n, d, p, p, n);
  }

  lemma GcdScaledUp(d: nat, a: nat, b: nat, p: nat)
    requires GcdOf(d, a, b) && 0 < p
    ensures 0 <= p * a && 0 <= p * b && 0 <= p * d && GcdOf(p * d, p * a, p * b)
  {
    hide IsGcd;
    MulLe(0, p, a);
    MulLe(0, p, b);
    MulLe(0, p, d);
    if 0 < a || 0 < b {
      GcdScaled(d, a, b, p);
      if 0 < a { MulLe(1, p, a); }
      if 0 < b { MulLe(1, p, b); }
    }
  }

  lemma OutcomeScaledUp(A: nat, B: nat, a: nat, b: nat, d: nat, n: nat, p: nat)
    requires Outcome(A, B, a, b, d, n) && 0 < p && 0 <= p * a && 0 <= p * b && 0 <= p * d
    ensures Outcome(A, B, p * a, p * b, p * d, n)
  {
    hide Minimal;
    if 0 < a { MulLe(1, p, a); }
    if 0 < b { MulLe(1, p, b); }
    if 0 < a && 0 < b {
      MulLe(1, p, d);
      MinimalScaledUp(A, B, a, b, d, p);
    }
  }

  lemma MinimalScaledUp(A: nat, B: nat, a: nat, b: nat, d: nat, p: nat)
    requires 0 < d && 0 < p && Minimal(A, B, a, b, d) && 0 <= p * a && 0 <= p * b && 0 < p * d
    ensures Minimal(A, B, p * a, p * b, p * d)
  {
    ModScale(a, d, p);
    ModScale(b, d, p);
    assert A * (p * a) - B * (p * b) == p * d by {
      MulAssoc(A, p, a);
      MulAssoc(B, p, b);
      MulAssoc(p, A, a);
      MulAssoc(p, B, b);
      Distribute(p, A * a, 0 - B * b);
    }
  }

  /** mp_gcd. The result has as many words as the shorter number, which is enough if both are positive. */
  method Gcd(a: MpInt, b: MpInt) returns (gcd: MpInt, ghost d: nat)
    requires a.Valid() && b.Valid()
    ensures fresh(gcd.mem) && gcd.Valid() && gcd.nw == Min(a.nw, b.nw)
    ensures GcdOf(d, a.Value(), b.Value()) && gcd.Value() == d % Base(gcd.nw)
    ensures 0 < a.Value() && 0 < b.Value() ==> gcd.Value() == d
  {
    hide Nat, Base, Pow2, MpInt.Words, MpInt.Value, LowestShared, IsGcd, After, Recorded, GcdOf, Arrived, Reducible, Cong;
    ghost var va, vb := a.Value(), b.Value();
    gcd := MakeSized(Min(a.nw, b.nw));
    var shift := SharedShift(a, b);
    ShiftedOut(va, vb, shift);
    var as' := RshiftSafe(a, shift);
    var bs := RshiftSafe(b, shift);
    ghost var sa, sb, p := as'.Value(), bs.Value(), Pow2(shift);
    var ra, rb, record, steps := Reduction(as', bs);
    ghost var d0 := rb.Value();
    AddInto(gcd, ra, rb);
    GcdScaledUp(d0, sa, sb, p);
    d := p * d0;
    LshiftSafeInPlace(gcd, shift);
    ShiftedBack(d0, p, Base(gcd.nw));
    ValueBound(a);
    ValueBound(b);
    if 0 < va && 0 < vb {
      GcdSmall(d, va, vb);
      SmallMod(d, Base(gcd.nw));
    }
  }

  lemma GcdSmall(d: nat, a: nat, b: nat)
    requires GcdOf(d, a, b) && 0 < a && 0 < b
    ensures d <= a && d <= b
  {
    GcdDivides(d, a, b);
    if a < d { SmallMod(a, d); }
    if b < d { SmallMod(b, d); }
  }

  /** When mp_coprime can be relied on: for two positive numbers, and for 0 and a number x just when cutting x to the words
      of the shorter does not make it 1, or stop it being 1. */
  predicate CoprimeIsRight(a: nat, b: nat, limit: nat)
    requires 0 < limit
  {
    (0 < a && 0 < b) || ((a + b) % limit == 1 <==> a + b == 1)
  }

  /** mp_coprime. */
  method Coprime(a: MpInt, b: MpInt) returns (coprime: bool)
    requires a.Valid() && b.Valid()
    ensures (coprime <==> IsGcd(1, a.Value(), b.Value())) <==> CoprimeIsRight(a.Value(), b.Value(), Base(Min(a.nw, b.nw)))
    ensures 0 < a.Value() && 0 < b.Value() ==> (coprime <==> IsGcd(1, a.Value(), b.Value()))
  {
    hide Nat, Base, Pow2, MpInt.Words, MpInt.Value, IsGcd, GcdOf, CoprimeIsRight;
    var gcd;
    ghost var d;
    gcd, d := Gcd(a, b);
    assert 1 < Pow2(64) by { Pow2Exceeds(64); }
    coprime := EqInteger(gcd, 1);
    CoprimeAnswer(a.Value(), b.Value(), d, Base(Min(a.nw, b.nw)));
  }

  lemma CoprimeAnswer(a: nat, b: nat, d: nat, limit: nat)
    requires GcdOf(d, a, b) && 0 < limit && (0 < a && 0 < b ==> d % limit == d)
    ensures (d % limit == 1 <==> IsGcd(1, a, b)) <==> CoprimeIsRight(a, b, limit)
    ensures 0 < a && 0 < b ==> CoprimeIsRight(a, b, limit)
  {
    if a == 0 && b == 0 {
      SmallMod(0, limit);
      NotOneForZeros();
    } else {
      GcdIsOne(a, b, d);
      if a == 0 || b == 0 {
        GcdOfZero(d, a + b, a, b);
      }
    }
  }

  lemma GcdIsOne(a: nat, b: nat, d: nat)
    requires IsGcd(d, a, b)
    ensures IsGcd(1, a, b) <==> d == 1
  {
    if IsGcd(1, a, b) {
      GcdDivides(d, a, b);
      assert Divides(d, 1);
      if 1 < d { SmallMod(1, d); }
    }
  }

  lemma NotOneForZeros()
    ensures !IsGcd(1, 0, 0)
  {
    assert Divides(2, 0) && !Divides(2, 1);
  }

  /** With a zero, the result of mp_gcd is right just when the other number fits in the words of the shorter. */
  lemma GcdWithZero(d: nat, b: nat, limit: nat)
    requires IsGcd(d, 0, b) && 0 < b && 0 < limit
    ensures d == b && (d % limit == d <==> b < limit)
  {
    GcdOfZero(d, b, 0, b);
    CongMod(d, limit);
    if b < limit { SmallMod(b, limit); }
  }

  /** For instance: 0 in one word and a longer number that is 1 in its lowest word are taken for coprime. */
  lemma CoprimeWithZeroFails(w: nat)
    requires 2 <= w
    ensures IsGcd(w + 1, 0, w + 1) && (w + 1) % w == 1 && w + 1 != 1 && !CoprimeIsRight(0, w + 1, w)
  {
    ModAddMultiple(1, 1, w);
    SmallMod(1, w);
    forall c: nat | 0 < c ensures (Divides(c, 0) && Divides(c, w + 1)) <==> Divides(c, w + 1) {
      MultipleMod(0, c);
    }
  }
}
