/**
 Multiplication by the schoolbook: one word times one word, a number times a
 small one, and the multiply-accumulate loop that the recursion ends in.
 */
module Multiply {
  import opened Arithmetic
  import opened Words
  import opened MpInts

  // ------------------------------------------------------ schoolbook accumulation

  /** BignumMULADD2: the double-width value a*b + c + d as two words. */
  method MulAdd2(a: Word, b: Word, c: Word, d: Word) returns (hi: Word, lo: Word)
    ensures lo + hi * BASE == a * b + c + d
  {
    var t := a * b + c + d;
    DoubleWidth(a, b, c, d, BASE);
    hi, lo := t / BASE, t % BASE;
  }

  lemma DoubleWidth(a: nat, b: nat, c: nat, d: nat, m: nat)
    requires a < m && b < m && c < m && d < m
    ensures 0 <= (a * b + c + d) / m < m
    ensures 0 <= (a * b + c + d) % m < m
    ensures (a * b + c + d) % m + (a * b + c + d) / m * m == a * b + c + d
  {
    var t := a * b + c + d;
    assert t < m * m by {
      MulLeBoth(a, m - 1, b, m - 1);
      Distribute(m - 1, m, 1);
      Distribute(m, m, 1);
    }
    DivLt(t, m, m);
    DivNonNeg(t, m);
  }

  /** Replacing word k and passing a carry on accounts for what was added at position k. */
  lemma ReplaceWord(s: seq<Word>, k: nat, w: Word, carry: nat, carry': nat, add: int)
    requires k < |s| && w + carry' * BASE == s[k] + carry + add
    ensures Nat(s[k := w]) + carry' * Base(k + 1) == Nat(s) + carry * Base(k) + add * Base(k)
  {
    NatUpdate(s, k, w);
    BaseStep(k);
    var p := Base(k);
    calc {
      (w - s[k]) * p + carry' * (BASE * p);
      { MulAssoc(carry', BASE, p); Distribute(p, w - s[k], carry' * BASE); }
      (w - s[k] + carry' * BASE) * p;
      { Distribute(p, carry, add); }
      carry * p + add * p;
    }
  }

  /** What the inner loop of row i keeps: word times the low j words of b has been added in. */
  ghost predicate RowSoFar(s0: seq<Word>, s: seq<Word>, x: Word, b: seq<Word>, i: nat, j: nat, carry: nat)
    requires j <= |b|
  {
    |s| == |s0| && Nat(s) + carry * Base(i + j) == Nat(s0) + x * Nat(b[..j]) * Base(i)
  }

  lemma RowStart(s0: seq<Word>, x: Word, b: seq<Word>, i: nat)
    ensures RowSoFar(s0, s0, x, b, i, 0, 0)
  {
    NatEmpty(b);
  }

  lemma RowStep(s0: seq<Word>, s: seq<Word>, x: Word, b: seq<Word>, i: nat, j: nat, carry: nat, w: Word, carry': nat)
    requires j < |b| && i + j < |s| && RowSoFar(s0, s, x, b, i, j, carry)
    requires w + carry' * BASE == x * b[j] + s[i + j] + carry
    ensures RowSoFar(s0, s[i + j := w], x, b, i, j + 1, carry')
  {
    ReplaceWord(s, i + j, w, carry, carry', x * b[j]);
    NatStep(b, j);
    BaseAdd(i, j);
    RowArith(x, b[j], Nat(b[..j]), Base(i), Base(j));
  }

  lemma RowArith(x: int, y: int, n: int, p: int, q: int)
    ensures x * n * p + x * y * (p * q) == x * (n + y * q) * p
  {
    calc {
      x * (n + y * q) * p;
      { Distribute(x, n, y * q); Distribute(p, x * n, x * (y * q)); }
      x * n * p + x * (y * q) * p;
      { MulAssoc(x, y, q); MulAssoc(x * y, q, p); }
      x * n * p + x * y * (q * p);
    }
  }

  /** The multiplying part of one row of mp_mul_add_simple. */
  method MulRow(r: MpInt, x: Word, b: MpInt, i: nat) returns (carry: Word, j: nat)
    requires r.Valid() && b.Valid() && i <= r.nw && Apart(r, b)
    modifies r.mem
    ensures OnlyWrites(r) && j == Min(b.nw, r.nw - i)
    ensures RowSoFar(old(r.Words()), r.Words(), x, old(b.Words()), i, j, carry)
  {
    hide Nat, Base, RowSoFar;
    BaseIsBig();
    ghost var s0, wb := r.Words(), b.Words();
    RowStart(s0, x, wb, i);
    carry, j := 0, 0;
    while j < b.nw && i + j < r.nw
      invariant 0 <= j <= b.nw && i + j <= r.nw
      invariant OnlyWrites(r)
      invariant RowSoFar(s0, r.Words(), x, wb, i, j, carry)
    {
      Untouched((r, b));
      var c, w;
      c, w := MulAdd2(x, b.WordOf(j), r.WordOf(i + j), carry);
      RowStep(s0, r.Words(), x, wb, i, j, carry, w, c);
      SetWord(r, i + j, w);
      carry, j := c, j + 1;
    }
  }

  /** The carrying part of one row: push the carry towards the top of r. */
  method CarryUp(r: MpInt, k: nat, carry: Word) returns (c: Word)
    requires r.Valid() && k <= r.nw
    modifies r.mem
    ensures OnlyWrites(r)
    ensures r.Value() + c * Base(r.nw) == old(r.Value()) + carry * Base(k)
  {
    ghost var v0 := r.Value();
    var q := k;
    c := carry;
    while q < r.nw
      invariant k <= q <= r.nw
      invariant OnlyWrites(r)
      invariant r.Value() + c * Base(q) == v0 + carry * Base(k)
    {
      var w, c' := AddCarry(r.mem[r.off + q], c);
      ReplaceWord(r.Words(), q, w, c, c', 0);
      SetWord(r, q, w);
      c, q := c', q + 1;
    }
  }

  method AddCarry(a: Word, b: Word) returns (w: Word, c: Word)
    ensures w + c * BASE == a + b
  {
    BaseIsBig();
    w, c := Adc(a, b, 0);
  }

  /** mp_mul_add_simple: r becomes r + a*b, modulo the size of r. */
  method MulAddSimple(r: MpInt, a: MpInt, b: MpInt)
    requires r.Valid() && a.Valid() && b.Valid() && Apart(r, a) && Apart(r, b)
    modifies r.mem
    ensures OnlyWrites(r)
    ensures r.Value() == (old(r.Value()) + old(a.Value()) * old(b.Value())) % Base(r.nw)
  {
    hide Nat, Base;
    ghost var v0, wa, wb := r.Value(), a.Words(), b.Words();
    ValueBound(r);
    SmallMod(v0, Base(r.nw));
    NatEmpty(wa);
    var i := 0;
    while i < a.nw && i < r.nw
      invariant 0 <= i <= a.nw && i <= r.nw
      invariant OnlyWrites(r)
      invariant r.Value() == (v0 + Nat(wa[..i]) * Nat(wb)) % Base(r.nw)
    {
      Untouched((r, a));
      Untouched((r, b));
      MulAddRow(r, a.WordOf(i), b, i);
      RowsStep(v0, wa, wb, i, Base(r.nw));
      i := i + 1;
    }
    RowsDone(v0, wa, wb, i, r.nw);
  }

  /** One whole row: r becomes r + x * b * BASE^i, modulo the size of r. */
  method MulAddRow(r: MpInt, x: Word, b: MpInt, i: nat)
    requires r.Valid() && b.Valid() && i <= r.nw && Apart(r, b)
    modifies r.mem
    ensures OnlyWrites(r)
    ensures r.Value() == (old(r.Value()) + x * old(b.Value()) * Base(i)) % Base(r.nw)
  {
    ghost var s0, wb := r.Words(), b.Words();
    var carry, j := MulRow(r, x, b, i);
    var c := CarryUp(r, i + j, carry);
    ValueBound(r);
    RowTotal(Nat(s0), r.Value(), x, wb, i, j, c, r.nw);
  }

  /** Words of b that fall off the top of r, and the last carry, are multiples of BASE^rw. */
  lemma RowTotal(v0: nat, v: nat, x: Word, b: seq<Word>, i: nat, j: nat, c: nat, rw: nat)
    requires i <= rw && j == Min(|b|, rw - i) && v < Base(rw)
    requires v + c * Base(rw) == v0 + x * Nat(b[..j]) * Base(i)
    ensures v == (v0 + x * Nat(b) * Base(i)) % Base(rw)
  {
    hide Nat, Base;
    var p := Base(rw);
    NatSplit(b, j);
    var lo, hi := Nat(b[..j]), Nat(b[j..]);
    var k: int;
    if j == |b| {
      assert b[..j] == b;
      k := c;
    } else {
      assert x * Nat(b) * Base(i) == x * lo * Base(i) + x * hi * p by {
        BaseAdd(i, j);
        RowArith(x, hi, lo, Base(i), Base(j));
      }
      k := c + x * hi;
      Distribute(p, c, x * hi);
    }
    assert v0 + x * Nat(b) * Base(i) == v + k * p;
    ModAddMultiple(v, k, p);
    SmallMod(v, p);
  }

  lemma RowsStep(v0: int, a: seq<Word>, b: seq<Word>, i: nat, p: int)
    requires i < |a| && 0 < p
    ensures ((v0 + Nat(a[..i]) * Nat(b)) % p + a[i] * Nat(b) * Base(i)) % p == (v0 + Nat(a[..i + 1]) * Nat(b)) % p
  {
    hide Nat, Base;
    var m, t := v0 + Nat(a[..i]) * Nat(b), a[i] * Nat(b) * Base(i);
    CongMod(m, p);
    CongAdd(m % p, m, t, t, p);
    NatStep(a, i);
    Distribute(Nat(b), Nat(a[..i]), a[i] * Base(i));
    MulAssoc(a[i], Nat(b), Base(i));
    MulAssoc(a[i], Base(i), Nat(b));
  }

  lemma RowsDone(v0: int, a: seq<Word>, b: seq<Word>, i: nat, rw: nat)
    requires i <= |a| && i <= rw && (i == |a| || i == rw)
    ensures (v0 + Nat(a[..i]) * Nat(b)) % Base(rw) == (v0 + Nat(a) * Nat(b)) % Base(rw)
  {
    hide Nat, Base;
    var p := Base(rw);
    if i == |a| {
      assert a[..i] == a;
    } else {
      NatSplit(a, i);
      var lo, hi := Nat(a[..i]), Nat(a[i..]);
      Distribute(Nat(b), lo, hi * p);
      MulAssoc(Nat(b), hi, p);
      ModAddMultiple(v0 + lo * Nat(b), Nat(b) * hi, p);
    }
  }

  // -------------------------------------------------------------------- Karatsuba

  const KARATSUBA_THRESHOLD := 24

  function InLen(rw: nat, aw: nat, bw: nat): nat {
    Min(rw, Max(aw, bw))
  }

  /** mp_mul_scratchspace. */
  function ScratchSpace(rw: nat, aw: nat, bw: nat): nat {
    6 * InLen(rw, aw, bw)
  }

  /** What every multiplication asks of its operands: distinct memory, and enough scratch. */
  ghost predicate Ready(r: MpInt, a: MpInt, b: MpInt, scratch: MpInt) {
    && r.Valid() && a.Valid() && b.Valid() && scratch.Valid()
    && Apart(r, a) && Apart(r, b) && Apart(r, scratch) && Apart(scratch, a) && Apart(scratch, b)
    && ScratchSpace(r.nw, a.nw, b.nw) <= scratch.nw
  }

  // -------------------------------------------------------------- a one-word multiplier

  /** mp_mul_integer_into. The multiplier has sixteen bits, and the product has to fit. */
  method MulIntegerInto(r: MpInt, a: MpInt, n: nat)
    requires r.Valid() && a.Valid() && ReadUp(r, a) && n < 0x10000
    requires a.Value() % Base(r.nw) * n < Base(r.nw)
    modifies r.mem
    ensures OnlyWrites(r)
    ensures r.Value() == old(a.Value()) % Base(r.nw) * n
    ensures a.nw <= r.nw ==> r.Value() == old(a.Value()) * n
  {
    hide Nat, Base, Resize;
    BaseIsBig();
    ghost var s0, wa := a.Words(), Resize(a.Words(), r.nw);
    NatResize(s0, r.nw);
    ghost var out: seq<Word> := [];
    var carry: Word, mult: Word := 0, n;
    var i := 0;
    MulIntegerStart(wa, n);
    while i < r.nw
      invariant 0 <= i <= r.nw && |out| == i
      invariant OnlyWrites(r)
      invariant forall j :: 0 <= j < i ==> r.Words()[j] == out[j]
      invariant forall j :: a.off + i <= j < a.off + a.nw ==> a.mem[j] == old(a.mem[j])
      invariant Nat(out) + carry * Base(i) == Nat(wa[..i]) * n
    {
      var c, w;
      var aword := ResizedWord(a, i, r.nw, s0);
      c, w := MulAdd2(aword, mult, carry, 0);
      MulIntegerStep(out, wa, i, n, carry, w, c);
      SetWord(r, i, w);
      out, carry := out + [w], c;
      i := i + 1;
    }
    assert wa[..i] == wa;
    assert r.Words() == out;
    NatBound(out);
    NoCarryOut(Nat(out), carry, Base(i), Nat(wa) * n);
  }

  method ResizedWord(a: MpInt, i: nat, nw: nat, ghost s: seq<Word>) returns (w: Word)
    requires a.Valid() && |s| == a.nw && i < nw && (i < a.nw ==> a.mem[a.off + i] == s[i])
    ensures w == Resize(s, nw)[i]
  {
    w := a.WordOf(i);
  }

  lemma MulIntegerStart(wa: seq<Word>, n: nat)
    ensures Nat([]) + 0 * Base(0) == Nat(wa[..0]) * n
  {
  }

  lemma MulIntegerStep(out: seq<Word>, wa: seq<Word>, i: nat, n: nat, carry: nat, w: Word, c: nat)
    requires i < |wa| && |out| == i && w + c * BASE == wa[i] * n + carry + 0
    requires Nat(out) + carry * Base(i) == Nat(wa[..i]) * n
    ensures Nat(out + [w]) + c * Base(i + 1) == Nat(wa[..i + 1]) * n
  {
    hide Nat, Base;
    NatSnoc(out, w);
    NatStep(wa, i);
    BaseStep(i);
    MulIntegerArith(Nat(out), Nat(wa[..i]), wa[i], n, carry, w, c, Base(i));
  }

  lemma MulIntegerArith(t: nat, low: nat, x: nat, n: nat, carry: nat, w: nat, c: nat, b: nat)
    requires w + c * BASE == x * n + carry && t + carry * b == low * n
    ensures t + w * b + c * (BASE * b) == (low + x * b) * n
  {
    MulAssoc(c, BASE, b);
    Distribute(b, w, c * BASE);
    Distribute(b, x * n, carry);
    Distribute(n, low, x * b);
    MulAssoc(x, n, b);
    MulAssoc(x, b, n);
  }

  lemma NoCarryOut(t: nat, carry: nat, b: nat, total: nat)
    requires t + carry * b == total < b
    ensures carry == 0 && t == total
  {
    if 0 < carry { MulLe(1, carry, b); }
  }
}
