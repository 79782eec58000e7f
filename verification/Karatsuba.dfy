/**
 mp_mul_internal: divide-and-conquer multiplication, written over windows of the
 output and of one scratch pool. The recursion is proved to compute the product
 modulo the size of the output for every combination of widths, and to stay
 inside a pool of 6 * inlen words.
 */
module Karatsuba {
  import opened Arithmetic
  import opened Words
  import opened MpInts
  import opened AddSub
  import opened Multiply

  // ---------------------------------------------------------- the numbers involved

  /** The low inlen words of a number, as two digits in base BASE^bot. */
  lemma TwoDigits(a: nat, aw: nat, rw: nat, inlen: nat, bot: nat, top: nat)
    requires inlen == bot + top && inlen <= rw && (inlen == rw || aw <= inlen) && a < Base(aw)
    ensures Cong(a % Base(bot) + a / Base(bot) % Base(top) * Base(bot), a, Base(rw))
  {
    hide Nat, Base;
    BaseAdd(bot, top);
    DivDiv(a, Base(bot), Base(top));
    if inlen == rw {
      CongMod(a, Base(rw));
    } else {
      BaseLe(aw, inlen);
      SmallMod(a, Base(inlen));
    }
  }

  lemma ExpandDigits(u0: int, u1: int, v0: int, v1: int, d: int)
    ensures (u0 + u1 * d) * (v0 + v1 * d) == u0 * v0 + u1 * v1 * (d * d) + (u0 * v1 + u1 * v0) * d
  {
    calc {
      (u0 + u1 * d) * (v0 + v1 * d);
      { Distribute(v0 + v1 * d, u0, u1 * d); }
      u0 * (v0 + v1 * d) + u1 * d * (v0 + v1 * d);
      { Distribute(u0, v0, v1 * d); Distribute(u1 * d, v0, v1 * d); }
      u0 * v0 + u0 * (v1 * d) + u1 * d * v0 + u1 * d * (v1 * d);
      { MulAssoc(u0, v1, d); assert u1 * d * v0 == u1 * v0 * d; assert u1 * d * (v1 * d) == u1 * v1 * (d * d); }
      u0 * v0 + u0 * v1 * d + u1 * v0 * d + u1 * v1 * (d * d);
      { Distribute(d, u0 * v1, u1 * v0); }
      u0 * v0 + u1 * v1 * (d * d) + (u0 * v1 + u1 * v0) * d;
    }
  }

  /** The three coefficients in base d reassemble the product. */
  lemma Reassemble(a: int, b: int, u0: int, u1: int, v0: int, v1: int, d: int, p: int)
    requires 0 < p && Cong(u0 + u1 * d, a, p) && Cong(v0 + v1 * d, b, p)
    ensures Cong(u0 * v0 + u1 * v1 * (d * d) + (u0 * v1 + u1 * v0) * d, a * b, p)
  {
    ExpandDigits(u0, u1, v0, v1, d);
    CongMul(u0 + u1 * d, a, v0 + v1 * d, b, p);
  }

  /** The one multiplication that yields the middle coefficient. */
  lemma MiddleTerm(u0: int, u1: int, v0: int, v1: int)
    ensures (u0 + u1) * (v0 + v1) - u0 * v0 - u1 * v1 == u0 * v1 + u1 * v0
  {
    Distribute(v0 + v1, u0, u1);
    Distribute(u0, v0, v1);
    Distribute(u1, v0, v1);
  }

  // ------------------------------------------------------------ parts of the output

  /** A change confined to the words of r from index k up changes r by a multiple of BASE^k. */
  lemma HighPart(r: MpInt, k: nat)
    requires r.Valid() && k <= r.nw
    ensures r.Value() == Alias(r, 0, k).Value() + Alias(r, k, r.nw - k).Value() * Base(k)
    ensures Alias(r, 0, k).Value() < Base(k)
  {
    var s := r.Words();
    NatSplit(s, k);
    assert Alias(r, 0, k).Words() == s[..k];
    assert Alias(r, k, r.nw - k).Words() == s[k..];
    NatBound(s[..k]);
  }

  lemma AddAtOffset(lo: nat, hi: nat, c: nat, d: nat, q: nat)
    requires lo < d && 0 < q
    ensures 0 < d * q
    ensures lo + (hi + c) % q * d == (lo + hi * d + c * d) % (d * q)
  {
    ModScale(hi + c, q, d);
    var t := (hi + c) % q;
    var k := (hi + c) / q;
    calc {
      lo + hi * d + c * d;
      { Distribute(d, hi, c); }
      lo + (k * q + t) * d;
      { Distribute(d, k * q, t); MulAssoc(k, q, d); }
      k * (d * q) + (lo + t * d);
    }
    MulLe(t + 1, q, d);
    Distribute(d, t, 1);
    DivModUnique(lo + hi * d + c * d, d * q, k, lo + t * d);
  }

  /** Adding c to the words of r from index k up adds c * BASE^k to r. (The triple is (r, k, c).) */
  twostate lemma HighPartAdded(p: (MpInt, nat, nat))
    requires p.0.Valid() && p.1 <= p.0.nw
    requires var r0 := Alias(p.0, 0, p.1); r0.Words() == old(r0.Words())
    requires var r1 := Alias(p.0, p.1, p.0.nw - p.1); r1.Value() == (old(r1.Value()) + p.2) % Base(r1.nw)
    ensures p.0.Value() == (old(p.0.Value()) + p.2 * Base(p.1)) % Base(p.0.nw)
  {
    var (r, k, c) := p;
    var s := old(r.Words());
    assert old(Alias(r, 0, k).Words()) == s[..k];
    assert old(Alias(r, k, r.nw - k).Words()) == s[k..];
    HighPart(r, k);
    HighPartArith(s, k, c);
  }

  lemma HighPartArith(s: seq<Word>, k: nat, c: nat)
    requires k <= |s|
    ensures Nat(s[..k]) + (Nat(s[k..]) + c) % Base(|s| - k) * Base(k) == (Nat(s) + c * Base(k)) % Base(|s|)
  {
    hide Nat, Base;
    NatSplit(s, k);
    NatBound(s[..k]);
    AddAtOffset(Nat(s[..k]), Nat(s[k..]), c, Base(k), Base(|s| - k));
    BaseAdd(k, |s| - k);
  }

  // ------------------------------------------------------------------ the recursion

  /** mp_mul_internal: r becomes a*b modulo its size, whatever the three widths are. */
  method MulInternal(r: MpInt, a: MpInt, b: MpInt, scratch: MpInt)
    requires Ready(r, a, b, scratch)
    modifies r.mem, scratch.mem
    ensures OnlyWritesBoth((r, scratch))
    ensures r.Value() == (old(a.Value()) * old(b.Value())) % Base(r.nw)
    decreases InLen(r.nw, a.nw, b.nw), 2
  {
    hide Nat, Base;
    var inlen := InLen(r.nw, a.nw, b.nw);
    Clear(r);
    Untouched((r, a));
    Untouched((r, b));
    if inlen < KARATSUBA_THRESHOLD || a.nw == 0 || b.nw == 0 {
      MulAddSimple(r, a, b);
    } else {
      var toplen := inlen / 2;
      DivideAndConquer(r, a, b, scratch, inlen - toplen, toplen);
    }
  }

  /** The two halves of each input, as windows on it. */
  datatype Halves = Halves(a0: MpInt, a1: MpInt, b0: MpInt, b1: MpInt) {
    ghost predicate Valid() {
      a0.Valid() && a1.Valid() && b0.Valid() && b1.Valid()
    }

    ghost predicate ApartFrom(x: MpInt) {
      Apart(x, a0) && Apart(x, a1) && Apart(x, b0) && Apart(x, b1)
    }

    ghost predicate Denote(c: Coefficients)
      requires Valid()
      reads a0.mem, a1.mem, b0.mem, b1.mem
    {
      a0.Value() == c.u0 && a1.Value() == c.u1 && b0.Value() == c.v0 && b1.Value() == c.v1
    }
  }

  /** The values of the halves, and the coefficients of the product in base d. */
  datatype Coefficients = Coefficients(u0: nat, u1: nat, v0: nat, v1: nat) {
    function Outer(d: nat): nat { u0 * v0 + u1 * v1 * (d * d) }

    function Cross(): nat { u0 * v1 + u1 * v0 }
  }

  /** Halves of at most bot and top words, apart from the output and a pool of 6 * (bot + top) words. */
  ghost predicate Prepared(r: MpInt, h: Halves, pool: MpInt, bot: nat, top: nat) {
    && r.Valid() && pool.Valid() && h.Valid()
    && Apart(r, pool) && h.ApartFrom(r) && h.ApartFrom(pool)
    && h.a0.nw <= bot && h.b0.nw <= bot && h.a1.nw <= top && h.b1.nw <= top
    && top <= bot <= top + 1 && KARATSUBA_THRESHOLD <= bot + top <= r.nw
    && 6 * (bot + top) <= pool.nw
  }

  /** Writing only r and s leaves the halves as they were. (The triple is (r, s, h).) */
  twostate lemma HalvesUntouched(p: (MpInt, MpInt, Halves))
    requires p.0.Valid() && p.1.Valid() && p.2.Valid() && p.2.ApartFrom(p.0) && p.2.ApartFrom(p.1)
    requires OnlyWritesBoth((p.0, p.1))
    requires p.2.a0.mem != p.0.mem && p.2.a0.mem != p.1.mem ==> unchanged(p.2.a0.mem)
    requires p.2.a1.mem != p.0.mem && p.2.a1.mem != p.1.mem ==> unchanged(p.2.a1.mem)
    requires p.2.b0.mem != p.0.mem && p.2.b0.mem != p.1.mem ==> unchanged(p.2.b0.mem)
    requires p.2.b1.mem != p.0.mem && p.2.b1.mem != p.1.mem ==> unchanged(p.2.b1.mem)
    ensures p.2.a0.Value() == old(p.2.a0.Value()) && p.2.a1.Value() == old(p.2.a1.Value())
    ensures p.2.b0.Value() == old(p.2.b0.Value()) && p.2.b1.Value() == old(p.2.b1.Value())
  {
    UntouchedByBoth((p.0, p.1, p.2.a0));
    UntouchedByBoth((p.0, p.1, p.2.a1));
    UntouchedByBoth((p.0, p.1, p.2.b0));
    UntouchedByBoth((p.0, p.1, p.2.b1));
  }

  method DivideAndConquer(r: MpInt, a: MpInt, b: MpInt, scratch: MpInt, bot: nat, top: nat)
    requires Ready(r, a, b, scratch) && top <= bot <= top + 1
    requires KARATSUBA_THRESHOLD <= bot + top == InLen(r.nw, a.nw, b.nw)
    modifies r.mem, scratch.mem
    ensures OnlyWritesBoth((r, scratch))
    ensures r.Value() == (old(a.Value()) * old(b.Value())) % Base(r.nw)
    decreases bot + top, 1
  {
    hide Nat, Base, MpInt.Words, MpInt.Value, Coefficients.Outer, Coefficients.Cross;
    var h := Halves(Alias(a, 0, bot), Alias(a, bot, top), Alias(b, 0, bot), Alias(b, bot, top));
    ghost var c := Coefficients(h.a0.Value(), h.a1.Value(), h.b0.Value(), h.b1.Value());
    SplitProduct(r.nw, a, b, bot, top, h, c);
    Combine(r, h, scratch, bot, top, c);
  }

  lemma SplitProduct(rw: nat, a: MpInt, b: MpInt, bot: nat, top: nat, h: Halves, c: Coefficients)
    requires a.Valid() && b.Valid() && bot + top == InLen(rw, a.nw, b.nw)
    requires h == Halves(Alias(a, 0, bot), Alias(a, bot, top), Alias(b, 0, bot), Alias(b, bot, top))
    requires h.Denote(c)
    ensures (c.Outer(Base(bot)) + c.Cross() * Base(bot)) % Base(rw) == (a.Value() * b.Value()) % Base(rw)
  {
    hide Nat, Base;
    AliasOfNumber(a, bot, top);
    AliasOfNumber(b, bot, top);
    ValueBound(a);
    ValueBound(b);
    TwoDigits(a.Value(), a.nw, rw, bot + top, bot, top);
    TwoDigits(b.Value(), b.nw, rw, bot + top, bot, top);
    Reassemble(a.Value(), b.Value(), c.u0, c.u1, c.v0, c.v1, Base(bot), Base(rw));
  }

  lemma AliasOfNumber(a: MpInt, bot: nat, top: nat)
    requires a.Valid()
    ensures Alias(a, 0, bot).Value() == a.Value() % Base(bot)
    ensures Alias(a, bot, top).Value() == a.Value() / Base(bot) % Base(top)
  {
    hide Nat, Base;
    AliasValue(a, 0, bot);
    AliasValue(a, bot, top);
    BaseStep(0);
    DivModUnique(a.Value(), 1, a.Value(), 0);
  }

  method Combine(r: MpInt, h: Halves, pool: MpInt, bot: nat, top: nat, ghost c: Coefficients)
    requires Prepared(r, h, pool, bot, top) && h.Denote(c)
    modifies r.mem, pool.mem
    ensures OnlyWritesBoth((r, pool))
    ensures r.Value() == (c.Outer(Base(bot)) + c.Cross() * Base(bot)) % Base(r.nw)
    decreases bot + top, 0
  {
    hide Nat, Base, MpInt.Words, MpInt.Value, Coefficients.Outer, Coefficients.Cross;
    OuterProducts(r, h, pool, bot, top, c);
    HalvesUntouched((r, pool, h));
    if r.nw < 2 * (bot + top) {
      CrossTerms(r, h, pool, bot, top, c);
    } else {
      MiddleCoefficient(r, h, pool, bot, top, c);
    }
    ghost var x, y, p := c.Outer(Base(bot)), c.Cross() * Base(bot), Base(r.nw);
    CongMod(x, p);
    CongAdd(x % p, x, y, y, p);
  }

  /** a0*b0 and a1*b1, in their places in the output. */
  method OuterProducts(r: MpInt, h: Halves, pool: MpInt, bot: nat, top: nat, ghost c: Coefficients)
    requires Prepared(r, h, pool, bot, top) && h.Denote(c)
    modifies r.mem, pool.mem
    ensures OnlyWritesBoth((r, pool))
    ensures r.Value() == c.Outer(Base(bot)) % Base(r.nw)
    decreases bot + top, 0, 0
  {
    hide Nat, Base, MpInt.Words, MpInt.Value, Coefficients.Outer, Coefficients.Cross;
    ValueFits(h.a0, bot);
    ValueFits(h.b0, bot);
    var r0, r2 := Alias(r, 0, 2 * bot), Alias(r, 2 * bot, r.nw);
    MulInternal(r0, h.a0, h.b0, pool);
    HalvesUntouched((r0, pool, h));
    label First:
    MulInternal(r2, h.a1, h.b1, pool);
    UntouchedByBoth@First((r2, pool, r0));
    OuterLayout(r, bot, c);
  }

  lemma ValueFits(x: MpInt, n: nat)
    requires x.Valid() && x.nw <= n
    ensures x.Value() < Base(n)
  {
    NatFits(x.Words(), n);
  }

  lemma OuterLayout(r: MpInt, bot: nat, c: Coefficients)
    requires r.Valid() && c.u0 < Base(bot) && c.v0 < Base(bot)
    requires var r0 := Alias(r, 0, 2 * bot); r0.Value() == (c.u0 * c.v0) % Base(r0.nw)
    requires var r2 := Alias(r, 2 * bot, r.nw); r2.Value() == (c.u1 * c.v1) % Base(r2.nw)
    ensures r.Value() == c.Outer(Base(bot)) % Base(r.nw)
  {
    hide Nat, Base;
    var r0, r2 := Alias(r, 0, 2 * bot), Alias(r, 2 * bot, r.nw);
    OuterArith(r.nw, bot, c.u0, c.v0, c.u1 * c.v1, r0.Value(), r2.Value());
    if 2 * bot <= r.nw {
      HighPart(r, 2 * bot);
    } else {
      assert r0.Words() == r.Words();
    }
  }

  /** The two outer products laid side by side, with whatever does not fit cut off. */
  lemma OuterArith(rw: nat, bot: nat, u0: nat, v0: nat, t: nat, x0: nat, x2: nat)
    requires u0 < Base(bot) && v0 < Base(bot)
    requires x0 == (u0 * v0) % Base(Min(rw, 2 * bot))
    requires x2 == t % Base(rw - Min(rw, 2 * bot))
    ensures var d := Base(bot);
            (u0 * v0 + t * (d * d)) % Base(rw) == if 2 * bot <= rw then x0 + x2 * Base(2 * bot) else x0
  {
    hide Nat, Base;
    var d := Base(bot);
    BaseAdd(bot, bot);
    if 2 * bot <= rw {
      MulLtBoth(u0, d, v0, d);
      SmallMod(u0 * v0, d * d);
      BaseAdd(2 * bot, rw - 2 * bot);
      AddAtOffset(u0 * v0, t, 0, d * d, Base(rw - 2 * bot));
    } else {
      BaseAdd(rw, 2 * bot - rw);
      MulAssoc(t, Base(2 * bot - rw), Base(rw));
      ModAddMultiple(u0 * v0, t * Base(2 * bot - rw), Base(rw));
    }
  }

  lemma ProductFits(xw: nat, yw: nat, n: nat, x: nat, y: nat)
    requires x < Base(xw) && y < Base(yw) && xw + yw <= n
    ensures x * y < Base(n) && (x * y) % Base(n) == x * y
  {
    hide Base;
    BaseAdd(xw, yw);
    MulLtBoth(x, Base(xw), y, Base(yw));
    BaseLe(xw + yw, n);
    SmallMod(x * y, Base(n));
  }

  lemma ReadyInPool(r: MpInt, a: MpInt, b: MpInt, scratch: MpInt)
    requires r.Valid() && a.Valid() && b.Valid() && scratch.Valid()
    requires Apart(r, a) && Apart(r, b) && Apart(r, scratch) && Apart(scratch, a) && Apart(scratch, b)
    requires 6 * Max(a.nw, b.nw) <= scratch.nw
    ensures Ready(r, a, b, scratch) && InLen(r.nw, a.nw, b.nw) <= Max(a.nw, b.nw)
  {
  }

  /** Multiply into len words at the front of a pool, and add that into r1. */
  method AccumulateProduct(r1: MpInt, x: MpInt, y: MpInt, pool: MpInt, len: nat)
    requires r1.Valid() && x.Valid() && y.Valid() && pool.Valid()
    requires Apart(r1, pool) && Apart(pool, x) && Apart(pool, y)
    requires len <= r1.nw && (len == r1.nw || x.nw + y.nw <= len)
    requires len + 6 * Max(x.nw, y.nw) <= pool.nw
    modifies r1.mem, pool.mem
    ensures OnlyWritesBoth((r1, pool))
    ensures r1.Value() == (old(r1.Value()) + old(x.Value()) * old(y.Value())) % Base(r1.nw)
    decreases Max(x.nw, y.nw), 3
  {
    hide Nat, Base, MpInt.Words, MpInt.Value, Ready, ScratchSpace, InLen;
    ghost var v1, vx, vy := r1.Value(), x.Value(), y.Value();
    ValueBound(x);
    ValueBound(y);
    var s, rest := AllocFromScratch(pool, len);
    ReadyInPool(s, x, y, rest);
    MulInternal(s, x, y, rest);
    UntouchedByBoth((s, rest, r1));
    AddInto(r1, r1, s);
    TruncatedSum(v1, vx, vy, x.nw, y.nw, len, r1.nw);
  }

  lemma TruncatedSum(v: nat, x: nat, y: nat, xw: nat, yw: nat, len: nat, rw: nat)
    requires x < Base(xw) && y < Base(yw) && len <= rw && (len == rw || xw + yw <= len)
    ensures (v + (x * y) % Base(len)) % Base(rw) == (v + x * y) % Base(rw)
  {
    hide Base;
    if len == rw {
      CongMod(x * y, Base(rw));
      CongAdd(v, v, (x * y) % Base(rw), x * y, Base(rw));
    } else {
      ProductFits(xw, yw, len, x, y);
    }
  }

  /** An n-word number v after t has been added to it from word k up. */
  function AddedAt(v: nat, t: nat, k: nat, n: nat): nat {
    (v + t * Base(k)) % Base(n)
  }

  /** Add t = x * y into r from word k up. */
  method AccumulateAt(r: MpInt, k: nat, x: MpInt, y: MpInt, pool: MpInt, len: nat, ghost t: nat)
    requires r.Valid() && x.Valid() && y.Valid() && pool.Valid() && k <= r.nw
    requires Apart(r, pool) && Apart(pool, x) && Apart(pool, y)
    requires len <= r.nw - k && (len == r.nw - k || x.nw + y.nw <= len)
    requires len + 6 * Max(x.nw, y.nw) <= pool.nw
    requires t == x.Value() * y.Value()
    modifies r.mem, pool.mem
    ensures OnlyWritesBoth((r, pool))
    ensures r.Value() == AddedAt(old(r.Value()), t, k, r.nw)
    decreases Max(x.nw, y.nw), 4
  {
    hide Nat, Base, MpInt.Words, MpInt.Value;
    var r1 := Alias(r, k, r.nw - k);
    AccumulateProduct(r1, x, y, pool, len);
    UntouchedByBoth((r1, pool, Alias(r, 0, k)));
    HighPartAdded((r, k, t));
  }

  /** The output is too short for the whole product: add a0*b1 and a1*b0 one after the other. */
  method CrossTerms(r: MpInt, h: Halves, pool: MpInt, bot: nat, top: nat, ghost c: Coefficients)
    requires Prepared(r, h, pool, bot, top) && h.Denote(c)
    modifies r.mem, pool.mem
    ensures OnlyWritesBoth((r, pool))
    ensures r.Value() == AddedAt(old(r.Value()), c.Cross(), bot, r.nw)
    decreases bot + top, 0, 0
  {
    hide Nat, Base, MpInt.Words, MpInt.Value, Coefficients.Cross, AddedAt;
    ghost var v, x, y := r.Value(), c.u0 * c.v1, c.u1 * c.v0;
    CrossSum(v, c, x, y, bot, r.nw);
    var len := Min(bot + top, r.nw - bot);
    AccumulateAt(r, bot, h.a0, h.b1, pool, len, x);
    HalvesUntouched((r, pool, h));
    AccumulateAt(r, bot, h.a1, h.b0, pool, len, y);
  }

  lemma CrossSum(v: nat, c: Coefficients, x: nat, y: nat, k: nat, n: nat)
    requires x == c.u0 * c.v1 && y == c.u1 * c.v0
    ensures AddedAt(AddedAt(v, x, k, n), y, k, n) == AddedAt(v, c.Cross(), k, n)
  {
    hide Base;
    var d, p := Base(k), Base(n);
    CongMod(v + x * d, p);
    CongAdd((v + x * d) % p, v + x * d, y * d, y * d, p);
    Distribute(d, x, y);
  }

  /** a0 + a1 and b0 + b1, which have one word more than the halves. */
  method Sums(h: Halves, asum: MpInt, bsum: MpInt, bot: nat, top: nat, ghost c: Coefficients)
    requires h.Valid() && h.ApartFrom(asum) && h.ApartFrom(bsum) && h.Denote(c)
    requires h.a0.nw <= bot && h.b0.nw <= bot && h.a1.nw <= top && h.b1.nw <= top && top <= bot
    requires asum.Valid() && bsum.Valid() && Apart(asum, bsum) && asum.nw == bsum.nw == bot + 1
    modifies asum.mem, bsum.mem
    ensures OnlyWritesBoth((asum, bsum)) && asum.Value() == c.u0 + c.u1 && bsum.Value() == c.v0 + c.v1
  {
    hide Nat, Base, MpInt.Words, MpInt.Value;
    SumsFit(h, bot, top, c);
    AddInto(asum, h.a0, h.a1);
    Untouched((asum, h.b0));
    Untouched((asum, h.b1));
    label Summed:
    AddInto(bsum, h.b0, h.b1);
    Untouched@Summed((bsum, asum));
  }

  /** (a0 + a1) * (b0 + b1), computed at the front of the pool. */
  method SumProduct(h: Halves, pool: MpInt, bot: nat, top: nat, ghost c: Coefficients) returns (product: MpInt)
    requires h.Valid() && pool.Valid() && h.ApartFrom(pool) && h.Denote(c)
    requires h.a0.nw <= bot && h.b0.nw <= bot && h.a1.nw <= top && h.b1.nw <= top
    requires top <= bot <= top + 1 && KARATSUBA_THRESHOLD <= bot + top && 6 * (bot + top) <= pool.nw
    modifies pool.mem
    ensures product == MpInt(pool.mem, pool.off + 2 * bot + 2, 2 * bot + 1) && product.Valid()
    ensures OnlyWrites(pool)
    ensures product.Value() == (c.u0 + c.u1) * (c.v0 + c.v1) < Base(2 * bot + 1)
    decreases bot + top, 0, 0
  {
    hide Nat, Base, MpInt.Words, MpInt.Value, Ready, ScratchSpace, InLen;
    assert pool.nw >= 10 * bot + 9;
    var asum, p1 := AllocFromScratch(pool, bot + 1);
    var bsum, p2 := AllocFromScratch(p1, bot + 1);
    var rest;
    product, rest := AllocFromScratch(p2, 2 * bot + 1);
    SumsFit(h, bot, top, c);
    Sums(h, asum, bsum, bot, top, c);
    ReadyInPool(product, asum, bsum, rest);
    MulInternal(product, asum, bsum, rest);
  }

  lemma SumsFit(h: Halves, bot: nat, top: nat, c: Coefficients)
    requires h.Valid() && h.Denote(c) && top <= bot
    requires h.a0.nw <= bot && h.b0.nw <= bot && h.a1.nw <= top && h.b1.nw <= top
    ensures (c.u0 + c.u1) % Base(bot + 1) == c.u0 + c.u1
    ensures (c.v0 + c.v1) % Base(bot + 1) == c.v0 + c.v1
    ensures (c.u0 + c.u1) * (c.v0 + c.v1) < Base(2 * bot + 1)
    ensures ((c.u0 + c.u1) * (c.v0 + c.v1)) % Base(2 * bot + 1) == (c.u0 + c.u1) * (c.v0 + c.v1)
  {
    hide Nat, Base;
    ValueFits(h.a0, bot);
    ValueFits(h.a1, bot);
    ValueFits(h.b0, bot);
    ValueFits(h.b1, bot);
    SumsFitArith(c.u0 + c.u1, c.v0 + c.v1, bot);
  }

  lemma SumsFitArith(x: nat, y: nat, bot: nat)
    requires x < 2 * Base(bot) && y < 2 * Base(bot)
    ensures x % Base(bot + 1) == x && y % Base(bot + 1) == y
    ensures x * y < Base(2 * bot + 1) && (x * y) % Base(2 * bot + 1) == x * y
  {
    hide Base;
    BaseIsBig();
    var d := Base(bot);
    BaseStep(bot);
    MulLe(4, BASE, d);
    SmallMod(x, Base(bot + 1));
    SmallMod(y, Base(bot + 1));
    assert x * y < Base(2 * bot + 1) by {
      MulLtBoth(x, 2 * d, y, 2 * d);
      assert 2 * d * (2 * d) == 4 * (d * d);
      BaseAdd(bot, bot);
      BaseStep(2 * bot);
      MulLe(4, BASE, d * d);
    }
    SmallMod(x * y, Base(2 * bot + 1));
  }

  /** The full Karatsuba step: one multiplication yields a0*b1 + a1*b0. */
  method MiddleCoefficient(r: MpInt, h: Halves, pool: MpInt, bot: nat, top: nat, ghost c: Coefficients)
    requires Prepared(r, h, pool, bot, top) && h.Denote(c) && 2 * (bot + top) <= r.nw
    requires r.Value() == c.Outer(Base(bot)) % Base(r.nw)
    modifies r.mem, pool.mem
    ensures OnlyWritesBoth((r, pool))
    ensures r.Value() == AddedAt(old(r.Value()), c.Cross(), bot, r.nw)
    decreases bot + top, 0, 1
  {
    hide Nat, Base, MpInt.Words, MpInt.Value, Coefficients.Outer, Coefficients.Cross;
    var r0, r2 := Alias(r, 0, 2 * bot), Alias(r, 2 * bot, r.nw - 2 * bot);
    OuterPlaces(r, h, bot, top, c);
    var product := SumProduct(h, pool, bot, top, c);
    Untouched((pool, r));
    Untouched((pool, r0));
    Untouched((pool, r2));
    label Multiplied:
    SubtractOuter(product, r0, r2, c);
    Untouched@Multiplied((product, r));
    AddAt(r, bot, product);
  }

  /** r1 += x, where r1 is the part of r from word k up. */
  method AddAt(r: MpInt, k: nat, x: MpInt)
    requires r.Valid() && x.Valid() && Apart(r, x) && k <= r.nw
    modifies r.mem
    ensures OnlyWrites(r)
    ensures r.Value() == AddedAt(old(r.Value()), old(x.Value()), k, r.nw)
  {
    hide Nat, Base, MpInt.Words, MpInt.Value;
    ghost var v := x.Value();
    var r1 := Alias(r, k, r.nw - k);
    AddInto(r1, r1, x);
    Untouched((r1, Alias(r, 0, k)));
    HighPartAdded((r, k, v));
  }

  /** The output is long enough to hold both outer products whole, so they can be read back from it. */
  lemma OuterPlaces(r: MpInt, h: Halves, bot: nat, top: nat, c: Coefficients)
    requires r.Valid() && h.Valid() && h.Denote(c) && top <= bot && 2 * (bot + top) <= r.nw
    requires h.a0.nw <= bot && h.b0.nw <= bot && h.a1.nw <= top && h.b1.nw <= top
    requires r.Value() == c.Outer(Base(bot)) % Base(r.nw)
    ensures Alias(r, 0, 2 * bot).Value() == c.u0 * c.v0
    ensures Alias(r, 2 * bot, r.nw - 2 * bot).Value() == c.u1 * c.v1
  {
    hide Nat, Base;
    ValueFits(h.a0, bot);
    ValueFits(h.a1, top);
    ValueFits(h.b0, bot);
    ValueFits(h.b1, top);
    HighPart(r, 2 * bot);
    OuterPlacesArith(c.u0, c.v0, c.u1 * c.v1, bot, top, r.nw, c);
    DivModUnique(r.Value(), Base(2 * bot), Alias(r, 2 * bot, r.nw - 2 * bot).Value(), Alias(r, 0, 2 * bot).Value());
  }

  lemma OuterPlacesArith(u0: nat, v0: nat, t: nat, bot: nat, top: nat, rw: nat, c: Coefficients)
    requires c.u0 == u0 < Base(bot) && c.v0 == v0 < Base(bot) && c.u1 < Base(top) && c.v1 < Base(top)
    requires t == c.u1 * c.v1 && 2 * (bot + top) <= rw
    ensures var x := c.Outer(Base(bot)) % Base(rw); x % Base(2 * bot) == u0 * v0 && x / Base(2 * bot) == t
  {
    hide Base;
    ProductFits(bot, bot, 2 * bot, u0, v0);
    ProductFits(top, top, rw - 2 * bot, c.u1, c.v1);
    var d := Base(bot);
    BaseAdd(bot, bot);
    BaseAdd(2 * bot, rw - 2 * bot);
    AddAtOffset(u0 * v0, t, 0, d * d, Base(rw - 2 * bot));
    DivModUnique(u0 * v0 + t * (d * d), d * d, t, u0 * v0);
  }

  /** Two subtractions leave the middle coefficient. */
  method SubtractOuter(product: MpInt, r0: MpInt, r2: MpInt, ghost c: Coefficients)
    requires product.Valid() && r0.Valid() && r2.Valid() && Apart(product, r0) && Apart(product, r2)
    requires r0.Value() == c.u0 * c.v0 && r2.Value() == c.u1 * c.v1
    requires product.Value() == (c.u0 + c.u1) * (c.v0 + c.v1)
    modifies product.mem
    ensures OnlyWrites(product)
    ensures product.Value() == c.Cross()
  {
    hide Nat, Base, MpInt.Words, MpInt.Value;
    ValueBound(product);
    SubInto(product, product, r0);
    Untouched((product, r2));
    SubInto(product, product, r2);
    MiddleTerm(c.u0, c.u1, c.v0, c.v1);
    SubTwice(product.nw, (c.u0 + c.u1) * (c.v0 + c.v1), c.u0 * c.v0, c.u1 * c.v1, c.Cross());
  }

  lemma SubTwice(n: nat, x: nat, y: nat, z: nat, w: nat)
    requires x < Base(n) && x - y - z == w
    ensures ((x - y) % Base(n) - z) % Base(n) == w
  {
    hide Base;
    SmallMod(x - y, Base(n));
    SmallMod(w, Base(n));
  }

  // -------------------------------------------------------------- the public entries

  /** mp_mul_into. */
  method MulInto(r: MpInt, a: MpInt, b: MpInt)
    requires r.Valid() && a.Valid() && b.Valid() && Apart(r, a) && Apart(r, b)
    modifies r.mem
    ensures OnlyWrites(r)
    ensures r.Value() == (old(a.Value()) * old(b.Value())) % Base(r.nw)
  {
    hide Nat, Base, MpInt.Words, MpInt.Value;
    var scratch := MakeSized(ScratchSpace(r.nw, a.nw, b.nw));
    MulInternal(r, a, b, scratch);
  }

  /** mp_mul: an output wide enough for the whole product. */
  method Mul(x: MpInt, y: MpInt) returns (r: MpInt)
    requires x.Valid() && y.Valid()
    ensures fresh(r.mem) && r.off == 0 && r.Valid() && r.nw == x.nw + y.nw
    ensures r.Value() == x.Value() * y.Value()
  {
    hide Nat, Base, MpInt.Words, MpInt.Value;
    ValueBound(x);
    ValueBound(y);
    r := MakeSized(x.nw + y.nw);
    MulInto(r, x, y);
    ProductFits(x.nw, y.nw, r.nw, x.Value(), y.Value());
  }
}
