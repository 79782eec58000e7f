/**
 mp_int as a window on an array of words, and the operations that are single
 passes over the words: copying, selecting, adding, subtracting and comparing.

 An mp_int made by mp_make_sized owns a whole array; one made by mp_make_alias
 shares part of another's, so two mp_ints may overlap. Each operation requires
 of overlapping operands exactly what its reading order tolerates.
 */
module MpInts {
  import opened Arithmetic
  import opened Words

  datatype MpInt = MpInt(mem: array<Word>, off: nat, nw: nat) {
    ghost predicate Valid() {
      off + nw <= mem.Length
    }

    ghost function Words(): (s: seq<Word>)
      requires Valid()
      reads mem
      ensures |s| == nw
    {
      mem[off..off + nw]
    }

    /** The number held in the words. */
    ghost function Value(): nat
      requires Valid()
      reads mem
    {
      Nat(Words())
    }

    /** mp_word: the word at index i, or 0 beyond the end. */
    function WordOf(i: nat): (w: Word)
      requires Valid()
      reads mem
      ensures w == WordAt(Words(), i)
    {
      if i < nw then mem[off + i] else BaseIsBig(); 0
    }
  }

  /** The two windows have no word in common. */
  ghost predicate Apart(x: MpInt, y: MpInt) {
    x.mem != y.mem || x.off + x.nw <= y.off || y.off + y.nw <= x.off
  }

  /** Writing r upwards never overwrites a word of a that is still to be read. */
  ghost predicate ReadUp(r: MpInt, a: MpInt) {
    Apart(r, a) || r.off <= a.off
  }

  /** Writing r downwards never overwrites a word of a that is still to be read. */
  ghost predicate ReadDown(r: MpInt, a: MpInt) {
    Apart(r, a) || a.off <= r.off
  }

  /** No word of r's array outside r has changed. */
  twostate predicate OnlyWrites(r: MpInt)
    requires r.Valid()
    reads r.mem
  {
    forall i :: 0 <= i < r.mem.Length && !(r.off <= i < r.off + r.nw) ==> r.mem[i] == old(r.mem[i])
  }

  /** Writing only r leaves every number y apart from r as it was. (The pair is (r, y).) */
  twostate lemma Untouched(p: (MpInt, MpInt))
    requires p.0.Valid() && p.1.Valid() && Apart(p.0, p.1) && OnlyWrites(p.0)
    requires p.1.mem != p.0.mem ==> unchanged(p.1.mem)
    ensures p.1.Words() == old(p.1.Words()) && p.1.Value() == old(p.1.Value())
  {
    var y := p.1;
    assert forall i :: y.off <= i < y.off + y.nw ==> y.mem[i] == old(y.mem[i]);
  }

  /** Nothing outside the two windows r and s has changed. (The pair is (r, s).) */
  twostate predicate OnlyWritesBoth(p: (MpInt, MpInt))
    requires p.0.Valid() && p.1.Valid()
    reads p.0.mem, p.1.mem
  {
    var (r, s) := p;
    && (forall i :: 0 <= i < r.mem.Length && !Within(r, r.mem, i) && !Within(s, r.mem, i) ==>
                      r.mem[i] == old(r.mem[i]))
    && (forall i :: 0 <= i < s.mem.Length && !Within(r, s.mem, i) && !Within(s, s.mem, i) ==>
                      s.mem[i] == old(s.mem[i]))
  }

  ghost predicate Within(x: MpInt, mem: array<Word>, i: int) {
    mem == x.mem && x.off <= i < x.off + x.nw
  }

  /** Writing only r and s leaves every number y apart from both as it was. (The triple is (r, s, y).) */
  twostate lemma UntouchedByBoth(p: (MpInt, MpInt, MpInt))
    requires p.0.Valid() && p.1.Valid() && p.2.Valid() && Apart(p.0, p.2) && Apart(p.1, p.2)
    requires OnlyWritesBoth((p.0, p.1))
    requires p.2.mem != p.0.mem && p.2.mem != p.1.mem ==> unchanged(p.2.mem)
    ensures p.2.Words() == old(p.2.Words()) && p.2.Value() == old(p.2.Value())
  {
    var y := p.2;
    assert forall i :: y.off <= i < y.off + y.nw ==> y.mem[i] == old(y.mem[i]);
  }

  lemma ValueBound(x: MpInt)
    requires x.Valid()
    ensures x.Value() < Base(x.nw)
  {
    NatBound(x.Words());
  }

  /** mp_make_sized, without the rule that nw be positive: a zeroed number in memory of its own. */
  method MakeSized(nw: nat) returns (x: MpInt)
    ensures fresh(x.mem) && x.off == 0 && x.nw == nw == x.mem.Length
    ensures x.Valid() && x.Value() == 0
  {
    BaseIsBig();
    var mem := new Word[nw](_ => 0);
    x := MpInt(mem, 0, nw);
    assert x.Words() == Zeros(nw);
    NatZeros(nw);
  }

  /** mp_make_alias: a window on part of x, clipped to what x has. */
  function Alias(x: MpInt, offset: nat, len: nat): (y: MpInt)
    ensures x.Valid() ==> y.Valid()
    ensures y.mem == x.mem && x.off <= y.off && y.off + y.nw <= x.off + x.nw
    ensures offset + len <= x.nw ==> y.off == x.off + offset && y.nw == len
  {
    var offset := Min(offset, x.nw);
    var len := Min(len, x.nw - offset);
    MpInt(x.mem, x.off + offset, len)
  }

  lemma AliasWords(x: MpInt, offset: nat, len: nat)
    requires x.Valid()
    ensures var o := Min(offset, x.nw); Alias(x, offset, len).Words() == x.Words()[o..][..Min(len, x.nw - o)]
  {
    var y, s, o := Alias(x, offset, len), x.Words(), Min(offset, x.nw);
    var t := s[o..][..Min(len, x.nw - o)];
    assert |y.Words()| == |t|;
    assert forall i :: 0 <= i < |t| ==> y.Words()[i] == x.mem[x.off + o + i] == t[i];
  }

  /** The words from index o up, as a number. */
  lemma DropValue(s: seq<Word>, offset: nat)
    ensures Nat(s[Min(offset, |s|)..]) == Nat(s) / Base(offset)
  {
    hide Base;
    if offset <= |s| {
      NatParts(s, offset);
    } else {
      NatFits(s, offset);
      SmallMod(Nat(s), Base(offset));
      assert s[|s|..] == [];
    }
  }

  lemma TakeValue(s: seq<Word>, len: nat)
    ensures Nat(s[..Min(len, |s|)]) == Nat(s) % Base(len)
  {
    hide Nat, Base;
    if len <= |s| {
      NatParts(s, len);
    } else {
      NatFits(s, len);
      assert s[..|s|] == s;
    }
  }

  /** An alias holds a digit of x in a larger base. */
  lemma AliasValue(x: MpInt, offset: nat, len: nat)
    requires x.Valid()
    ensures Alias(x, offset, len).Value() == x.Value() / Base(offset) % Base(len)
  {
    hide Nat, Base;
    AliasWords(x, offset, len);
    DropValue(x.Words(), offset);
    TakeValue(x.Words()[Min(offset, x.nw)..], len);
  }

  /** mp_alloc_from_scratch: carve len words off the front of a pool. */
  method AllocFromScratch(pool: MpInt, len: nat) returns (x: MpInt, rest: MpInt)
    requires pool.Valid() && len <= pool.nw
    ensures x == MpInt(pool.mem, pool.off, len)
    ensures rest == MpInt(pool.mem, pool.off + len, pool.nw - len)
    ensures x.Valid() && rest.Valid() && Apart(x, rest)
  {
    x := Alias(pool, 0, len);
    rest := Alias(pool, len, pool.nw);
  }

  method SetWord(x: MpInt, i: nat, w: Word)
    requires x.Valid() && i < x.nw
    modifies x.mem
    ensures x.Words() == old(x.Words())[i := w]
    ensures forall j :: 0 <= j < x.mem.Length && j != x.off + i ==> x.mem[j] == old(x.mem[j])
  {
    x.mem[x.off + i] := w;
  }

  /** Setting word i of a zero number. */
  method SetWordOfZero(x: MpInt, i: nat, w: Word)
    requires x.Valid() && i < x.nw && x.Value() == 0
    modifies x.mem
    ensures OnlyWrites(x)
    ensures x.Value() == w * Base(i)
  {
    hide Nat, Base;
    ghost var s := x.Words();
    NatZero(s);
    SetWord(x, i, w);
    NatUpdate(s, i, w);
  }

  // ------------------------------------------------------- copying and selecting

  /** mp_copy_into. The words are moved as memmove does, so the windows may overlap in any way. */
  method CopyInto(dest: MpInt, src: MpInt)
    requires dest.Valid() && src.Valid()
    modifies dest.mem
    ensures OnlyWrites(dest)
    ensures dest.Words() == Resize(old(src.Words()), dest.nw)
    ensures dest.Value() == old(src.Value()) % Base(dest.nw)
    ensures src.nw <= dest.nw ==> dest.Value() == old(src.Value())
  {
    var words := src.mem[src.off..src.off + src.nw];
    var i := 0;
    while i < dest.nw
      invariant 0 <= i <= dest.nw
      invariant OnlyWrites(dest)
      invariant forall j :: 0 <= j < i ==> dest.Words()[j] == WordAt(words, j)
    {
      SetWord(dest, i, WordAt(words, i));
      i := i + 1;
    }
    assert dest.Words() == Resize(words, dest.nw);
    NatResize(words, dest.nw);
  }

  /** mp_select_into: dest becomes src1 if which, and otherwise src0. */
  method SelectInto(dest: MpInt, src0: MpInt, src1: MpInt, which: bool)
    requires dest.Valid() && src0.Valid() && src1.Valid()
    requires ReadUp(dest, src0) && ReadUp(dest, src1)
    modifies dest.mem
    ensures OnlyWrites(dest)
    ensures var src := if which then src1 else src0;
            && dest.Words() == Resize(old(src.Words()), dest.nw)
            && dest.Value() == old(src.Value()) % Base(dest.nw)
            && (src.nw <= dest.nw ==> dest.Value() == old(src.Value()))
  {
    CopyInto(dest, if which then src1 else src0);
  }

  /** mp_clear. */
  method Clear(x: MpInt)
    requires x.Valid()
    modifies x.mem
    ensures OnlyWrites(x)
    ensures x.Words() == Zeros(x.nw) && x.Value() == 0
  {
    CondClear(x, true);
    NatZeros(x.nw);
  }

  /** mp_cond_clear. */
  method CondClear(x: MpInt, clear: bool)
    requires x.Valid()
    modifies x.mem
    ensures OnlyWrites(x)
    ensures x.Words() == if clear then Zeros(x.nw) else old(x.Words())
    ensures x.Value() == if clear then 0 else old(x.Value())
  {
    BaseIsBig();
    var i := 0;
    while i < x.nw
      invariant 0 <= i <= x.nw
      invariant OnlyWrites(x)
      invariant forall j :: 0 <= j < i ==> x.Words()[j] == if clear then 0 else old(x.Words()[j])
      invariant forall j :: i <= j < x.nw ==> x.Words()[j] == old(x.Words()[j])
    {
      SetWord(x, i, if clear then 0 else x.WordOf(i));
      i := i + 1;
    }
    assert x.Words() == if clear then Zeros(x.nw) else old(x.Words());
    NatZeros(x.nw);
  }

  /** One word of the exchange below. */
  method SwapWord(x0: MpInt, x1: MpInt, i: nat)
    requires x0.Valid() && x1.Valid() && i < x0.nw && i < x1.nw && Apart(x0, x1)
    modifies x0.mem, x1.mem
    ensures x0.Words() == old(x0.Words())[i := old(x1.Words()[i])]
    ensures x1.Words() == old(x1.Words())[i := old(x0.Words()[i])]
    ensures forall j :: 0 <= j < x0.mem.Length && !Within(x0, x0.mem, j) && !Within(x1, x0.mem, j) ==> x0.mem[j] == old(x0.mem[j])
    ensures forall j :: 0 <= j < x1.mem.Length && !Within(x0, x1.mem, j) && !Within(x1, x1.mem, j) ==> x1.mem[j] == old(x1.mem[j])
  {
    var w0, w1 := x0.WordOf(i), x1.WordOf(i);
    SetWord(x0, i, w1);
    assert x1.Words() == old(x1.Words());
    label Halfway:
    SetWord(x1, i, w0);
    assert x0.Words() == old@Halfway(x0.Words());
  }

  lemma ExchangeStep(s: seq<Word>, t: seq<Word>, i: nat)
    requires i < |s| == |t|
    ensures (t[..i] + s[i..])[i := (s[..i] + t[i..])[i]] == t[..i + 1] + s[i + 1..]
  {
  }

  /** mp_cond_swap, of two numbers that do not overlap. */
  method CondSwap(x0: MpInt, x1: MpInt, swap: bool)
    requires x0.Valid() && x1.Valid() && x0.nw == x1.nw && Apart(x0, x1)
    modifies x0.mem, x1.mem
    ensures OnlyWritesBoth((x0, x1))
    ensures x0.Words() == if swap then old(x1.Words()) else old(x0.Words())
    ensures x1.Words() == if swap then old(x0.Words()) else old(x1.Words())
  {
    hide MpInt.Words;
    ghost var s0, s1 := x0.Words(), x1.Words();
    var i := 0;
    while i < x0.nw
      invariant 0 <= i <= x0.nw
      invariant OnlyWritesBoth((x0, x1))
      invariant x0.Words() == if swap then s1[..i] + s0[i..] else s0
      invariant x1.Words() == if swap then s0[..i] + s1[i..] else s1
    {
      if swap {
        ExchangeStep(s0, s1, i);
        ExchangeStep(s1, s0, i);
        SwapWord(x0, x1, i);
      }
      i := i + 1;
    }
  }

  // ------------------------------------------------------ adding and subtracting

  /** Word-wise form of (b & b_and) ^ b_xor for masks that are all ones or all zeros. */
  function Masked(s: seq<Word>, use: bool, flip: bool): (t: seq<Word>)
    ensures |t| == |s|
  {
    BaseIsBig();
    seq(|s|, i requires 0 <= i < |s| => MaskWord(s[i], use, flip))
  }

  function MaskWord(w: Word, use: bool, flip: bool): Word {
    BaseIsBig();
    var u := if use then w else 0;
    if flip then BASE - 1 - u else u
  }

  lemma {:induction false} NatMasked(s: seq<Word>, use: bool, flip: bool)
    ensures Nat(Masked(s, use, flip)) ==
            var u := if use then Nat(s) else 0;
            if flip then Base(|s|) - 1 - u else u
  {
    if |s| > 0 {
      assert Masked(s, use, flip)[1..] == Masked(s[1..], use, flip);
      NatMasked(s[1..], use, flip);
      BaseStep(|s| - 1);
      var u, p := if use then Nat(s[1..]) else 0, Base(|s| - 1);
      Distribute(BASE, p - 1, u);
      Distribute(BASE, p, 1);
    }
  }

  /** BignumADC: a sum of two words and a carry, as a word and a carry. */
  method Adc(a: Word, b: Word, c: nat) returns (ret: Word, retc: nat)
    requires c <= 1
    ensures ret + retc * BASE == a + b + c && retc <= 1
  {
    var t := a + b + c;
    if t < BASE { ret, retc := t, 0; } else { ret, retc := t - BASE, 1; }
  }

  lemma CarryScales(p: int, w: int, c': int, a: int, b: int, c: int)
    requires w + c' * BASE == a + b + c
    ensures w * p + c' * (BASE * p) == a * p + b * p + c * p
  {
    calc {
      w * p + c' * (BASE * p);
      { MulAssoc(c', BASE, p); }
      w * p + (c' * BASE) * p;
      { Distribute(p, w, c' * BASE); }
      (a + b + c) * p;
      { Distribute(p, a + b, c); Distribute(p, a, b); }
      a * p + b * p + c * p;
    }
  }

  /** The words out and the carry c are the sum of the low |out| words of a, masked b and carry. */
  ghost predicate SumSoFar(out: seq<Word>, a: seq<Word>, b: seq<Word>, use: bool, flip: bool, carry: nat, c: nat) {
    var i := |out|;
    Nat(out) + c * Base(i) == Nat(Resize(a, i)) + Nat(Masked(Resize(b, i), use, flip)) + carry
  }

  lemma ResizeStep(s: seq<Word>, i: nat)
    ensures Resize(s, i + 1) == Resize(s, i) + [WordAt(s, i)]
  {
  }

  lemma AdcStep(out: seq<Word>, a: seq<Word>, b: seq<Word>, use: bool, flip: bool, carry: nat,
                w: Word, c: nat, c': nat)
    requires SumSoFar(out, a, b, use, flip, carry, c)
    requires w + c' * BASE == WordAt(a, |out|) + MaskWord(WordAt(b, |out|), use, flip) + c
    ensures SumSoFar(out + [w], a, b, use, flip, carry, c')
  {
    var i := |out|;
    var wb := MaskWord(WordAt(b, i), use, flip);
    ResizeStep(a, i);
    ResizeStep(b, i);
    assert Masked(Resize(b, i + 1), use, flip) == Masked(Resize(b, i), use, flip) + [wb];
    NatSnoc(out, w);
    NatSnoc(Resize(a, i), WordAt(a, i));
    NatSnoc(Masked(Resize(b, i), use, flip), wb);
    BaseStep(i);
    CarryScales(Base(i), w, c', WordAt(a, i), wb, c);
  }

  lemma SumStart(a: seq<Word>, b: seq<Word>, use: bool, flip: bool, carry: nat)
    ensures SumSoFar([], a, b, use, flip, carry, carry)
  {
    assert Resize(a, 0) == [] && Masked(Resize(b, 0), use, flip) == [];
  }

  /** One pass of mp_add_masked_into: word i of r, and the carry into word i + 1. */
  method AddWord(r: MpInt, a: MpInt, b: MpInt, use: bool, flip: bool, i: nat, c: nat) returns (c': nat)
    requires r.Valid() && a.Valid() && b.Valid() && c <= 1 && i < r.nw
    modifies r.mem
    ensures c' <= 1
    ensures r.Words()[i] + c' * BASE == old(a.WordOf(i)) + MaskWord(old(b.WordOf(i)), use, flip) + c
    ensures forall j :: 0 <= j < r.nw && j != i ==> r.Words()[j] == old(r.Words()[j])
    ensures forall j :: 0 <= j < r.mem.Length && j != r.off + i ==> r.mem[j] == old(r.mem[j])
  {
    var w;
    w, c' := Adc(a.WordOf(i), MaskWord(b.WordOf(i), use, flip), c);
    SetWord(r, i, w);
  }

  /** mp_add_masked_into with an output: add b, its complement or nothing to a, with a carry in and out. */
  method AddMaskedInto(r: MpInt, a: MpInt, b: MpInt, use: bool, flip: bool, carry: nat) returns (c: nat)
    requires r.Valid() && a.Valid() && b.Valid() && ReadUp(r, a) && ReadUp(r, b) && carry <= 1
    modifies r.mem
    ensures OnlyWrites(r) && c <= 1
    ensures SumSoFar(r.Words(), old(a.Words()), old(b.Words()), use, flip, carry, c)
  {
    hide Nat, Base;
    ghost var wa, wb, out: seq<Word> := a.Words(), b.Words(), [];
    c := carry;
    SumStart(wa, wb, use, flip, carry);
    var i := 0;
    while i < r.nw
      invariant 0 <= i <= r.nw && c <= 1 && |out| == i
      invariant OnlyWrites(r)
      invariant forall j :: 0 <= j < i ==> r.Words()[j] == out[j]
      invariant SumSoFar(out, wa, wb, use, flip, carry, c)
      invariant forall j :: a.off + i <= j < a.off + a.nw ==> a.mem[j] == old(a.mem[j])
      invariant forall j :: b.off + i <= j < b.off + b.nw ==> b.mem[j] == old(b.mem[j])
    {
      ghost var c0 := c;
      c := AddWord(r, a, b, use, flip, i, c);
      ghost var w := r.Words()[i];
      AdcStep(out, wa, wb, use, flip, carry, w, c0, c);
      out, i := out + [w], i + 1;
    }
    assert r.Words() == out;
  }
}
