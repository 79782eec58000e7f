/**
 Addition, subtraction and comparison of mp_ints, with mp_ints or with C integers.
 All results are modulo the size of the output, which may be shorter or longer
 than the inputs.
 */
module AddSub {
  import opened Arithmetic
  import opened Words
  import opened MpInts

  lemma NatMaskedResize(b: seq<Word>, n: nat, use: bool, flip: bool)
    ensures Nat(Masked(Resize(b, n), use, flip)) ==
            var u := if use then Nat(b) % Base(n) else 0;
            if flip then Base(n) - 1 - u else u
  {
    NatMasked(Resize(b, n), use, flip);
    NatResize(b, n);
  }

  /** Splitting a sum of two residues into a residue and a carry. */
  lemma CarryAdd(a: int, b: int, p: int, out: int, c: int)
    requires 0 < p && 0 <= out < p && 0 <= c <= 1
    requires out + c * p == a % p + b % p
    ensures out == (a + b) % p
    ensures c == 1 <==> a % p + b % p >= p
  {
    CongMod(a, p);
    CongMod(b, p);
    CongAdd(a % p, a, b % p, b, p);
    ModAddMultiple(out, c, p);
    SmallMod(out, p);
  }

  lemma CarrySub(a: int, b: int, p: int, out: int, c: int)
    requires 0 < p && 0 <= out < p && 0 <= c <= 1
    requires out + c * p == a % p + (p - 1 - b % p) + 1
    ensures out == (a - b) % p
    ensures c == 1 <==> a % p >= b % p
  {
    CongMod(a, p);
    CongMod(b, p);
    CongSub(a % p, a, b % p, b, p);
    Distribute(p, c, 1);
    ModAddMultiple(out, c - 1, p);
    SmallMod(out, p);
  }

  /** What the words written by the masked adder mean: a sum. */
  lemma SumIsAdd(out: seq<Word>, a: seq<Word>, b: seq<Word>, use: bool, c: nat)
    requires SumSoFar(out, a, b, use, false, 0, c) && c <= 1
    ensures var p, u := Base(|out|), if use then Nat(b) else 0;
            && Nat(out) == (Nat(a) + u) % p
            && (c == 1 <==> Nat(a) % p + u % p >= p)
  {
    hide Nat, Base;
    var p, u := Base(|out|), if use then Nat(b) else 0;
    assert Nat(out) + c * p == Nat(a) % p + u % p by {
      NatResize(a, |out|);
      NatMaskedResize(b, |out|, use, false);
      SmallMod(0, p);
    }
    NatBound(out);
    CarryAdd(Nat(a), u, p, Nat(out), c);
  }

  /** What the words written by the masked adder mean: a difference. */
  lemma SumIsSub(out: seq<Word>, a: seq<Word>, b: seq<Word>, c: nat)
    requires SumSoFar(out, a, b, true, true, 1, c) && c <= 1
    ensures var p := Base(|out|);
            && Nat(out) == (Nat(a) - Nat(b)) % p
            && (c == 1 <==> Nat(a) % p >= Nat(b) % p)
  {
    hide Nat, Base;
    var p := Base(|out|);
    assert Nat(out) + c * p == Nat(a) % p + (p - 1 - Nat(b) % p) + 1 by {
      NatResize(a, |out|);
      NatMaskedResize(b, |out|, true, true);
    }
    NatBound(out);
    CarrySub(Nat(a), Nat(b), p, Nat(out), c);
  }

  /** mp_add_into_internal. */
  method AddIntoCarry(r: MpInt, a: MpInt, b: MpInt) returns (c: nat)
    requires r.Valid() && a.Valid() && b.Valid() && ReadUp(r, a) && ReadUp(r, b)
    modifies r.mem
    ensures OnlyWrites(r) && c <= 1
    ensures r.Value() == (old(a.Value()) + old(b.Value())) % Base(r.nw)
    ensures c == 1 <==> old(a.Value()) % Base(r.nw) + old(b.Value()) % Base(r.nw) >= Base(r.nw)
  {
    c := AddMaskedInto(r, a, b, true, false, 0);
    SumIsAdd(r.Words(), old(a.Words()), old(b.Words()), true, c);
  }

  /** mp_add_into. */
  method AddInto(r: MpInt, a: MpInt, b: MpInt)
    requires r.Valid() && a.Valid() && b.Valid() && ReadUp(r, a) && ReadUp(r, b)
    modifies r.mem
    ensures OnlyWrites(r)
    ensures r.Value() == (old(a.Value()) + old(b.Value())) % Base(r.nw)
  {
    var _ := AddIntoCarry(r, a, b);
  }

  /** mp_sub_into. */
  method SubInto(r: MpInt, a: MpInt, b: MpInt)
    requires r.Valid() && a.Valid() && b.Valid() && ReadUp(r, a) && ReadUp(r, b)
    modifies r.mem
    ensures OnlyWrites(r)
    ensures r.Value() == (old(a.Value()) - old(b.Value())) % Base(r.nw)
  {
    var c := AddMaskedInto(r, a, b, true, true, 1);
    SumIsSub(r.Words(), old(a.Words()), old(b.Words()), c);
  }

  /** mp_cond_add_into. */
  method CondAddInto(r: MpInt, a: MpInt, b: MpInt, yes: bool)
    requires r.Valid() && a.Valid() && b.Valid() && ReadUp(r, a) && ReadUp(r, b)
    modifies r.mem
    ensures OnlyWrites(r)
    ensures r.Value() == (old(a.Value()) + if yes then old(b.Value()) else 0) % Base(r.nw)
  {
    var c := AddMaskedInto(r, a, b, yes, false, 0);
    SumIsAdd(r.Words(), old(a.Words()), old(b.Words()), yes, c);
  }

  /** mp_cond_sub_into. */
  method CondSubInto(r: MpInt, a: MpInt, b: MpInt, yes: bool)
    requires r.Valid() && a.Valid() && b.Valid() && ReadUp(r, a) && ReadUp(r, b)
    modifies r.mem
    ensures OnlyWrites(r)
    ensures r.Value() == (old(a.Value()) - if yes then old(b.Value()) else 0) % Base(r.nw)
  {
    var c := AddMaskedInto(r, a, b, yes, yes, if yes then 1 else 0);
    if yes {
      SumIsSub(r.Words(), old(a.Words()), old(b.Words()), c);
    } else {
      SumIsAdd(r.Words(), old(a.Words()), old(b.Words()), false, c);
    }
  }

  /** mp_neg_into. */
  method NegInto(r: MpInt, a: MpInt)
    requires r.Valid() && a.Valid() && ReadUp(r, a)
    modifies r.mem
    ensures OnlyWrites(r)
    ensures r.Value() == (0 - old(a.Value())) % Base(r.nw)
  {
    var zero := MakeSized(0);
    SubInto(r, zero, a);
  }

  // ------------------------------------------------------------------ comparison

  /** mp_cmp_hs: the carry out of a - b says whether a >= b. */
  method CmpHs(a: MpInt, b: MpInt) returns (hs: bool)
    requires a.Valid() && b.Valid()
    ensures hs <==> a.Value() >= b.Value()
  {
    hide Nat, Base;
    ghost var wa, wb, out: seq<Word> := a.Words(), b.Words(), [];
    var rw, i, c := Max(a.nw, b.nw), 0, 1;
    SumStart(wa, wb, true, true, 1);
    while i < rw
      invariant 0 <= i <= rw && c <= 1 && |out| == i
      invariant SumSoFar(out, wa, wb, true, true, 1, c)
    {
      ghost var c0 := c;
      var w;
      w, c := Adc(a.WordOf(i), MaskWord(b.WordOf(i), true, true), c);
      AdcStep(out, wa, wb, true, true, 1, w, c0, c);
      out, i := out + [w], i + 1;
    }
    SumIsSub(out, wa, wb, c);
    NatFits(wa, rw);
    NatFits(wb, rw);
    hs := c == 1;
  }

  /** mp_cmp_eq. */
  method CmpEq(a: MpInt, b: MpInt) returns (eq: bool)
    requires a.Valid() && b.Valid()
    ensures eq <==> a.Value() == b.Value()
  {
    ghost var wa, wb := a.Words(), b.Words();
    eq := true;
    var i, limit := 0, Max(a.nw, b.nw);
    while i < limit
      invariant 0 <= i <= limit
      invariant eq <==> SameWords(wa, wb, i)
    {
      eq := eq && a.WordOf(i) == b.WordOf(i);
      i := i + 1;
    }
    SameWordsSameValue(wa, wb, limit);
  }

  ghost predicate SameWords(a: seq<Word>, b: seq<Word>, n: nat) {
    forall j :: 0 <= j < n ==> WordAt(a, j) == WordAt(b, j)
  }

  lemma SameWordsSameValue(a: seq<Word>, b: seq<Word>, n: nat)
    requires |a| <= n && |b| <= n
    ensures Nat(a) == Nat(b) <==> SameWords(a, b, n)
  {
    NatResize(a, n);
    NatResize(b, n);
    if Nat(a) == Nat(b) {
      NatInjective(Resize(a, n), Resize(b, n));
    }
    ResizeSame(a, b, n);
  }

  lemma ResizeSame(a: seq<Word>, b: seq<Word>, n: nat)
    ensures Resize(a, n) == Resize(b, n) <==> SameWords(a, b, n)
  {
    var s, t := Resize(a, n), Resize(b, n);
    assert forall j :: 0 <= j < n ==> s[j] == WordAt(a, j) && t[j] == WordAt(b, j);
  }

  // ---------------------------------------------------------- C integer operands

  /** The words of a C integer, as repeated shift_right_by_one_word delivers them. */
  function Digits(n: nat, k: nat): (s: seq<Word>)
    ensures |s| == k
    decreases k
  {
    BaseIsBig();
    DivNonNeg(n, BASE);
    if k == 0 then [] else [n % BASE] + Digits(n / BASE, k - 1)
  }

  lemma {:induction false} NatDigits(n: nat, k: nat)
    ensures Nat(Digits(n, k)) == n % Base(k)
    decreases k
  {
    if k == 0 {
      assert Base(0) == 1;
      DivModUnique(n, 1, n, 0);
    } else {
      BaseIsBig();
      DivNonNeg(n, BASE);
      var m, low := n / BASE, n % BASE;
      NatDigits(m, k - 1);
      assert Digits(n, k)[1..] == Digits(m, k - 1);
      var high := Nat(Digits(m, k - 1));
      assert n % Base(k) == high * BASE + low by {
        BaseStep(k - 1);
        DivDiv(n, BASE, Base(k - 1));
      }
    }
  }

  lemma {:induction false} DigitsAt(n: nat, k: nat, i: nat)
    requires i < k
    ensures 0 <= n / Base(i)
    ensures Digits(n, k)[i] == n / Base(i) % BASE
    decreases k
  {
    BaseIsBig();
    DivNonNeg(n, Base(i));
    if i > 0 {
      DivNonNeg(n, BASE);
      DigitsAt(n / BASE, k - 1, i - 1);
      BaseStep(i - 1);
      DivDiv(n, BASE, Base(i - 1));
    }
  }

  /** mp_add_masked_integer_into with an output, for a mask of all ones. */
  method AddMaskedIntegerInto(r: MpInt, a: MpInt, n: nat, flip: bool, carry: nat) returns (c: nat)
    requires r.Valid() && a.Valid() && ReadUp(r, a) && carry <= 1
    modifies r.mem
    ensures OnlyWrites(r) && c <= 1
    ensures SumSoFar(r.Words(), old(a.Words()), Digits(n, r.nw), true, flip, carry, c)
  {
    hide Nat, Base;
    ghost var wa, wb, out: seq<Word> := a.Words(), Digits(n, r.nw), [];
    c := carry;
    SumStart(wa, wb, true, flip, carry);
    BaseStep(0);
    var i, b := 0, n;
    while i < r.nw
      invariant 0 <= i <= r.nw && c <= 1 && |out| == i
      invariant b == n / Base(i)
      invariant OnlyWrites(r)
      invariant forall j :: 0 <= j < i ==> r.Words()[j] == out[j]
      invariant SumSoFar(out, wa, wb, true, flip, carry, c)
      invariant forall j :: a.off + i <= j < a.off + a.nw ==> a.mem[j] == old(a.mem[j])
    {
      ghost var c0 := c;
      var w;
      NextDigit(n, r.nw, i);
      w, c := Adc(a.WordOf(i), MaskWord(b % BASE, true, flip), c);
      AdcStep(out, wa, wb, true, flip, carry, w, c0, c);
      SetWord(r, i, w);
      out, i, b := out + [w], i + 1, b / BASE;
    }
    assert r.Words() == out;
  }

  lemma NextDigit(n: nat, k: nat, i: nat)
    requires i < k
    ensures Digits(n, k)[i] == n / Base(i) % BASE
    ensures n / Base(i + 1) == n / Base(i) / BASE
  {
    BaseIsBig();
    DigitsAt(n, k, i);
    BaseStep(i);
    DivDiv(n, Base(i), BASE);
  }

  /** mp_copy_integer_into. */
  method CopyIntegerInto(r: MpInt, n: nat)
    requires r.Valid()
    modifies r.mem
    ensures OnlyWrites(r)
    ensures r.Value() == n % Base(r.nw)
  {
    hide Nat, Base, Digits;
    BaseStep(0);
    var i, b := 0, n;
    while i < r.nw
      invariant 0 <= i <= r.nw && b == n / Base(i)
      invariant OnlyWrites(r)
      invariant forall j :: 0 <= j < i ==> r.Words()[j] == Digits(n, r.nw)[j]
    {
      NextDigit(n, r.nw, i);
      SetWord(r, i, b % BASE);
      i, b := i + 1, b / BASE;
    }
    assert r.Words() == Digits(n, r.nw);
    NatDigits(n, r.nw);
  }

  /** mp_add_integer_into. */
  method AddIntegerInto(r: MpInt, a: MpInt, n: nat)
    requires r.Valid() && a.Valid() && ReadUp(r, a)
    modifies r.mem
    ensures OnlyWrites(r)
    ensures r.Value() == (old(a.Value()) + n) % Base(r.nw)
  {
    var c := AddMaskedIntegerInto(r, a, n, false, 0);
    SumIsAdd(r.Words(), old(a.Words()), Digits(n, r.nw), true, c);
    NatDigits(n, r.nw);
    CongMod(n, Base(r.nw));
    CongAdd(old(a.Value()), old(a.Value()), n % Base(r.nw), n, Base(r.nw));
  }

  /** mp_sub_integer_into. */
  method SubIntegerInto(r: MpInt, a: MpInt, n: nat)
    requires r.Valid() && a.Valid() && ReadUp(r, a)
    modifies r.mem
    ensures OnlyWrites(r)
    ensures r.Value() == (old(a.Value()) - n) % Base(r.nw)
  {
    var c := AddMaskedIntegerInto(r, a, n, true, 1);
    SumIsSub(r.Words(), old(a.Words()), Digits(n, r.nw), c);
    NatDigits(n, r.nw);
    CongMod(n, Base(r.nw));
    CongSub(old(a.Value()), old(a.Value()), n % Base(r.nw), n, Base(r.nw));
  }

  /** mp_eq_integer. */
  method EqInteger(x: MpInt, n: nat) returns (eq: bool)
    requires x.Valid() && n < Pow2(64)
    ensures eq <==> x.Value() == n
  {
    ghost var wx := x.Words();
    var limit := Max(x.nw, 64 / BIGNUM_INT_BITS);
    ghost var wn := Digits(n, limit);
    eq := true;
    var i, b := 0, n;
    while i < limit
      invariant 0 <= i <= limit && b == n / Base(i)
      invariant eq <==> SameWords(wx, wn, i)
    {
      NextDigit(n, limit, i);
      eq := eq && x.WordOf(i) == b % BASE;
      i, b := i + 1, b / BASE;
    }
    SameWordsSameValue(wx, wn, limit);
    NatDigits(n, limit);
    IntegerFits(n, limit);
  }

  lemma IntegerFits(n: nat, k: nat)
    requires n < Pow2(64) && 64 / BIGNUM_INT_BITS <= k
    ensures n < Base(k) && n % Base(k) == n
  {
    BaseIsPow2(64 / BIGNUM_INT_BITS);
    BaseLe(64 / BIGNUM_INT_BITS, k);
    SmallMod(n, Base(k));
  }
}
