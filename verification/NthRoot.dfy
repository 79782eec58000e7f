/**
 The integer nth root.
 */
module NthRoot {
  import opened Arithmetic
  import opened Words
  import opened MpInts
  import opened AddSub
  import opened Multiply
  import opened Shifts
  import opened Binomial

  // ----------------------------------------------------------------------- the numbers

  /** x is the nth root of y rounded down to a multiple of 2^s. */
  ghost predicate RootSoFar(y: nat, n: nat, x: nat, s: nat) {
    Pow(x, n) <= y < Pow(x + Pow2(s), n) && x % Pow2(s) == 0
  }

  /** No root can be 2^(maxbits/n + 1) or more. */
  lemma RootStart(y: nat, n: nat, bits: nat, s: nat)
    requires 0 < n && y < Pow2(bits) && s == bits / n + 1
    ensures RootSoFar(y, n, 0, s)
  {
    hide Pow, Pow2;
    PowZero(n);
    SmallMod(0, Pow2(s));
    PowOfPow2(s, n);
    assert bits < n * s by { DivLt(bits, n, s); }
    Pow2Le(bits, n * s);
  }

  /** Trying one more bit: the guess is extended or refused, and either way it is exact to that bit. */
  lemma RootStep(y: nat, n: nat, x: nat, s: nat)
    requires 0 < n && RootSoFar(y, n, x, s + 1)
    ensures RootSoFar(y, n, if Pow(x + Pow2(s), n) <= y then x + Pow2(s) else x, s)
  {
    hide Pow, Pow2;
    Pow2Step(s);
    var b, k := Pow2(s), x / Pow2(s + 1);
    DivNonNeg(x, Pow2(s + 1));
    assert x == 2 * k * b;
    MultipleMod(2 * k, b);
    MultipleMod(2 * k + 1, b);
    assert (2 * k + 1) * b == 2 * k * b + b;
  }

  /** In one word more than y has, no power that is tried overflows. */
  lemma TrialFits(y: nat, n: nat, x: nat, s: nat, nw: nat)
    requires 0 < n <= 18 && RootSoFar(y, n, x, s + 1) && y < Base(nw) && n * s <= MaxBits(nw)
    ensures Pow(x + Pow2(s), n) < Base(nw + 1)
  {
    hide Pow, Pow2, Base, MaxBits;
    var b := Pow2(s);
    Pow2Step(s);
    BaseStep(nw);
    BaseIsBig();
    if x == 0 {
      PowOfPow2(s, n);
      Pow2Le(n * s, MaxBits(nw));
      BaseIsPow2(nw);
      MulLe(2, BASE, Base(nw));
    } else {
      assert 2 * b <= x by { LeastMultiple(x, 2 * b); }
      HalfMore(x, b, n);
      MulLt(Pow(x, n), Base(nw), 2048);
      MulLe(2048, BASE, Base(nw));
    }
  }

  lemma LeastMultiple(x: nat, d: nat)
    requires 0 < d && 0 < x && x % d == 0
    ensures d <= x
  {
    if x < d { SmallMod(x, d); }
  }

  lemma {:induction false} ThreeHalves(n: nat)
    requires n <= 18
    ensures Pow(3, n) <= 2048 * Pow2(n)
    decreases 18 - n
  {
    if n == 18 {
      assert Pow(3, 18) == 387420489 && Pow2(18) == 262144 by { Eighteenth(); }
    } else {
      ThreeHalves(n + 1);
      Pow2Step(n);
    }
  }

  lemma Eighteenth()
    ensures Pow(3, 18) == 387420489 && Pow2(18) == 262144
  {
    assert Pow(3, 3) == 27 && Pow2(3) == 8;
    PowAdd(3, 3, 3);
    PowAdd(3, 6, 3);
    PowAdd(3, 9, 9);
    Pow2Add(3, 3);
    Pow2Add(6, 3);
    Pow2Add(9, 9);
  }

  /** Adding at most half of x to x multiplies its nth power by at most (3/2)^18. */
  lemma HalfMore(x: nat, b: nat, n: nat)
    requires n <= 18 && 2 * b <= x
    ensures Pow(x + b, n) <= 2048 * Pow(x, n)
  {
    hide Pow;
    PowBaseLe(2 * (x + b), 3 * x, n);
    PowDistribute(2, x + b, n);
    PowDistribute(3, x, n);
    ThreeHalves(n);
    PowBaseLe(0, x, n);
    MulLe(Pow(3, n), 2048 * Pow2(n), Pow(x, n));
    MulAssoc(2048, Pow2(n), Pow(x, n));
    MulAssoc(Pow2(n), 2048, Pow(x, n));
    assert Pow(2, n) == Pow2(n) by { TwoIsTwo(n); }
    PowPos(2, n);
    MulLeCancel(Pow(x + b, n), 2048 * Pow(x, n), Pow2(n));
  }

  lemma TwoIsTwo(n: nat)
    ensures Pow(2, n) == Pow2(n)
  {
  }

  /** The sum of the terms added so far, with x^i, is at most (x + b)^i. */
  lemma {:induction false} PartialSum(x: nat, b: nat, i: nat, j: nat)
    requires j < i && 0 < b
    ensures 0 <= Choose(i, j) * Pow(x, j) <= Term(x, b, i, j)
    ensures 0 <= Pow(x, i) + Terms(x, b, i, j) <= Pow(x, i) + Terms(x, b, i, j + 1) <= Pow(x + b, i)
    ensures 0 <= Term(x, b, i, j) <= Pow(x + b, i)
  {
    hide Pow, Choose, Term;
    BinomialTheorem(x, b, i);
    LastIsPower(x, b, i);
    TermsGrow(x, b, i, j + 1, i);
    TermsGrow(x, b, i, 0, j);
    PowBaseLe(0, x, i);
    TermBound(x, b, i, j);
  }

  lemma TermBound(x: nat, b: nat, i: nat, j: nat)
    requires j <= i && 0 < b
    ensures 0 <= Choose(i, j) * Pow(x, j) <= Term(x, b, i, j)
    ensures Term(x, b, i, j) == Choose(i, j) * Pow(x, j) * Pow(b, i - j)
  {
    hide Pow, Choose;
    var c, p, q := Choose(i, j), Pow(x, j), Pow(b, i - j);
    PowBaseLe(0, x, j);
    PowPos(b, i - j);
    MulAssoc(c, p, q);
    MulLe(0, c, p);
    MulLe(1, q, c * p);
  }

  lemma LastIsPower(x: nat, b: nat, i: nat)
    ensures Terms(x, b, i, i + 1) == Terms(x, b, i, i) + Pow(x, i)
  {
    ChooseSelf(i);
    assert Pow(b, 0) == 1;
    assert Term(x, b, i, i) == Choose(i, i) * (Pow(x, i) * Pow(b, 0));
  }

  lemma {:induction false} TermsGrow(x: nat, b: nat, n: nat, j: nat, k: nat)
    requires j <= k <= n + 1 && 0 < b
    ensures Terms(x, b, n, j) <= Terms(x, b, n, k)
    decreases k - j
  {
    hide Term;
    if j < k {
      TermsGrow(x, b, n, j, k - 1);
      TermBound(x, b, n, k - 1);
    }
  }

  // ---------------------------------------------------------------------- the algorithm

  ghost predicate Shaped(ms: seq<MpInt>, nw: nat) {
    forall i :: 0 <= i < |ms| ==> ms[i].Valid() && ms[i].nw == nw
  }

  ghost predicate Separate(ms: seq<MpInt>) {
    forall i, j :: 0 <= i < j < |ms| ==> ms[i].mem != ms[j].mem
  }

  /** ms holds the powers of x, from the 0th. */
  ghost predicate PowersOf(ms: seq<MpInt>, x: int, nw: nat)
    requires Shaped(ms, nw)
    reads set m | m in ms :: m.mem
  {
    forall i :: 0 <= i < |ms| ==> ms[i].Value() == Pow(x, i)
  }

  /** One term: binom * powers[j] * 2^((i-j)s), exactly. */
  method AddTerm(r: MpInt, power: MpInt, scratch: MpInt, binom: nat, i: nat, j: nat, s: nat, ghost x: nat)
    requires r.Valid() && power.Valid() && scratch.Valid() && r.nw == power.nw == scratch.nw
    requires r.mem != scratch.mem && power.mem !in {r.mem, scratch.mem} && r.mem != scratch.mem
    requires j < i <= 18 && binom == Choose(i, j) && power.Value() == Pow(x, j)
    requires Pow(x + Pow2(s), i) < Base(r.nw)
    requires r.Value() == Pow(x, i) + Terms(x, Pow2(s), i, j)
    modifies r.mem, scratch.mem
    ensures r.Value() == Pow(x, i) + Terms(x, Pow2(s), i, j + 1)
  {
    hide Nat, Base, Pow, Pow2, Choose, Term, Terms, MpInt.Words, MpInt.Value, OnlyWrites;
    TermFits(x, s, i, j, Base(r.nw));
    ChooseSmall(i, j);
    MulIntegerInto(scratch, power, binom);
    LshiftFixedInto(scratch, scratch, (i - j) * s);
    AddInto(r, r, scratch);
  }

  /** Each intermediate value of a term is smaller than the power it goes into. */
  lemma TermFits(x: nat, s: nat, i: nat, j: nat, bound: nat)
    requires j < i && Pow(x + Pow2(s), i) < bound
    ensures 0 < bound && 0 <= Pow(x, j) && Pow(x, j) % bound * Choose(i, j) == Pow(x, j) * Choose(i, j) < bound
    ensures 0 <= (i - j) * s && (Pow(x, j) * Choose(i, j) * Pow2((i - j) * s)) % bound == Term(x, Pow2(s), i, j)
    ensures var sum := Pow(x, i) + Terms(x, Pow2(s), i, j);
            (sum + Term(x, Pow2(s), i, j)) % bound == Pow(x, i) + Terms(x, Pow2(s), i, j + 1)
  {
    hide Pow, Pow2, Choose, Term, Terms;
    var b, c, p := Pow2(s), Choose(i, j), Pow(x, j);
    PartialSum(x, b, i, j);
    TermBound(x, b, i, j);
    SumGrows(x, b, i, j);
    PowOfPow2(s, i - j);
    PowBaseLe(0, x, j);
    PowBaseLe(0, x + b, i);
    assert 0 < c by { ChoosePositive(i, j); }
    MulLe(1, c, p);
    SmallMod(p, bound);
    SmallMod(Term(x, b, i, j), bound);
    SmallMod(Pow(x, i) + Terms(x, b, i, j + 1), bound);
  }

  lemma ChoosePositive(n: nat, k: nat)
    requires k <= n
    ensures 0 < Choose(n, k)
  {
  }

  lemma SumGrows(x: nat, b: nat, i: nat, j: nat)
    requires j <= i
    ensures Terms(x, b, i, j + 1) == Terms(x, b, i, j) + Term(x, b, i, j)
  {
  }

  /** The coefficient's update stays within sixteen bits, and is exact. */
  method NextBinomial(binom: nat, i: nat, j: nat) returns (next: nat)
    requires j < i <= 18 && binom == Choose(i, j)
    ensures next == Choose(i, j + 1) < 0x10000 && binom * (i - j) < 0x1_0000_0000
  {
    hide Choose;
    NextCoefficient(i, j);
    ChooseSmall(i, j);
    ChooseSmall(i, j + 1);
    MulLeBoth(binom, 48620, i - j, 18);
    DivModUnique(binom * (i - j), j + 1, Choose(i, j + 1), 0);
    next := binom * (i - j) / (j + 1);
  }

  /** r := (x + 2^s)^i, from the powers of x. */
  method NewPower(r: MpInt, powers: seq<MpInt>, scratch: MpInt, i: nat, s: nat, ghost x: nat)
    requires i < |powers| <= 19 && r.Valid() && scratch.Valid() && Shaped(powers, r.nw) && r.nw == scratch.nw
    requires r.mem != scratch.mem
    requires forall j :: 0 <= j < |powers| ==> powers[j].mem != r.mem && powers[j].mem != scratch.mem
    requires PowersOf(powers, x, r.nw) && Pow(x + Pow2(s), i) < Base(r.nw)
    modifies r.mem, scratch.mem
    ensures PowersOf(powers, x, r.nw)
    ensures r.Value() == Pow(x + Pow2(s), i)
  {
    hide Nat, Base, Pow, Pow2, Choose, Term, Terms, MpInt.Words, MpInt.Value;
    ghost var b := Pow2(s);
    FirstTerms(x, b, i);
    var binom := 1;
    CopyInto(r, powers[i]);
    var j := 0;
    while j < i
      invariant 0 <= j <= i && binom == Choose(i, j)
      invariant PowersOf(powers, x, r.nw)
      invariant r.Value() == Pow(x, i) + Terms(x, b, i, j)
    {
      AddTerm(r, powers[j], scratch, binom, i, j, s, x);
      binom := NextBinomial(binom, i, j);
      j := j + 1;
    }
    BinomialTheorem(x, b, i);
    LastIsPower(x, b, i);
  }

  lemma FirstTerms(x: nat, b: nat, i: nat)
    ensures Terms(x, b, i, 0) == 0 && Choose(i, 0) == 1
  {
    ChooseZero(i);
  }

  /** The arrays of the two lists have nothing in common. */
  ghost predicate Disjoint(a: seq<MpInt>, b: seq<MpInt>) {
    forall i, j :: 0 <= i < |a| && 0 <= j < |b| ==> a[i].mem != b[j].mem
  }

  method Allocate(count: nat, nw: nat) returns (ms: seq<MpInt>)
    ensures |ms| == count && Shaped(ms, nw) && Separate(ms)
    ensures forall i :: 0 <= i < count ==> fresh(ms[i].mem) && ms[i].Value() == 0
  {
    hide Nat, MpInt.Words, MpInt.Value;
    ms := [];
    while |ms| < count
      invariant |ms| <= count && Shaped(ms, nw) && Separate(ms)
      invariant forall i :: 0 <= i < |ms| ==> fresh(ms[i].mem) && ms[i].Value() == 0
    {
      var m := MakeSized(nw);
      ms := ms + [m];
    }
  }

  /** newpowers := the powers of x + 2^s. */
  method AllNewPowers(powers: seq<MpInt>, newpowers: seq<MpInt>, scratch: MpInt, s: nat, ghost x: nat, nw: nat)
    requires 0 < |powers| == |newpowers| <= 19 && Shaped(powers, nw) && Shaped(newpowers, nw)
    requires scratch.Valid() && scratch.nw == nw
    requires Separate(newpowers) && Disjoint(powers, newpowers) && Disjoint(powers + newpowers, [scratch])
    requires PowersOf(powers, x, nw) && Pow(x + Pow2(s), |powers| - 1) < Base(nw)
    modifies (set m | m in newpowers :: m.mem), scratch.mem
    ensures PowersOf(powers, x, nw) && PowersOf(newpowers, x + Pow2(s), nw)
  {
    hide Nat, Base, Pow, Pow2, MpInt.Words, MpInt.Value;
    assert forall j :: 0 <= j < |powers| ==> powers[j].mem != scratch.mem by {
      assert forall j :: 0 <= j < |powers| ==> (powers + newpowers)[j] == powers[j] && [scratch][0] == scratch;
    }
    assert forall j :: 0 <= j < |powers| ==> newpowers[j].mem != scratch.mem by {
      assert forall j :: 0 <= j < |powers| ==> (powers + newpowers)[|powers| + j] == newpowers[j] && [scratch][0] == scratch;
    }
    var i := 0;
    while i < |powers|
      invariant 0 <= i <= |powers| && PowersOf(powers, x, nw)
      invariant forall j :: 0 <= j < i ==> newpowers[j].Value() == Pow(x + Pow2(s), j)
    {
      assert newpowers[i] in newpowers;
      PowLe(x + Pow2(s), i, |powers| - 1);
      NewPower(newpowers[i], powers, scratch, i, s, x);
      i := i + 1;
    }
  }

  /** The update of x, in all its powers. */
  method SelectAll(powers: seq<MpInt>, newpowers: seq<MpInt>, newbit: bool, nw: nat, ghost x: int, ghost x': int)
    requires |powers| == |newpowers| && Shaped(powers, nw) && Shaped(newpowers, nw)
    requires Separate(powers) && Disjoint(powers, newpowers)
    requires PowersOf(powers, x, nw) && PowersOf(newpowers, x', nw)
    modifies set m | m in powers :: m.mem
    ensures PowersOf(powers, if newbit then x' else x, nw)
  {
    hide Nat, Base, Pow, MpInt.Words, MpInt.Value;
    var i := 0;
    while i < |powers|
      invariant 0 <= i <= |powers| && PowersOf(newpowers, x', nw)
      invariant forall j :: 0 <= j < i ==> powers[j].Value() == Pow(if newbit then x' else x, j)
      invariant forall j :: i <= j < |powers| ==> powers[j].Value() == Pow(x, j)
    {
      assert powers[i] in powers;
      SelectInto(powers[i], powers[i], newpowers[i], newbit);
      i := i + 1;
    }
  }

  /** mp_nthroot, for the values of n whose binomial coefficients fit the code's sixteen bits. An absent remainder_out is
      one of no words. */
  method NthRoot(y: MpInt, n: nat, remainderOut: MpInt) returns (root: MpInt)
    requires y.Valid() && 0 < n <= 18 && remainderOut.Valid() && ReadUp(remainderOut, y)
    modifies remainderOut.mem
    ensures fresh(root.mem) && root.Valid()
    ensures Pow(root.Value(), n) <= old(y.Value()) < Pow(root.Value() + 1, n)
    ensures OnlyWrites(remainderOut)
    ensures remainderOut.Value() == (old(y.Value()) - Pow(root.Value(), n)) % Base(remainderOut.nw)
  {
    hide Nat, Base, Pow, Pow2, MpInt.Words, MpInt.Value, MaxBits, RootSoFar;
    ghost var v := y.Value();
    ValueBound(y);
    var powers;
    ghost var x;
    powers, x := FindRoot(y, n);
    SubInto(remainderOut, y, powers[n]);
    PowAtOne(x);
    RootAtZero(v, n, x);
    root := MakeSized(WordsForBits(MaxBits(y.nw) / n));
    RootSize(v, n, x, y.nw);
    SmallMod(x, Base(root.nw));
    CopyInto(root, powers[1]);
  }

  lemma RootAtZero(y: nat, n: nat, x: nat)
    requires RootSoFar(y, n, x, 0)
    ensures Pow(x, n) <= y < Pow(x + 1, n)
  {
  }

  /** The arrays that mp_nthroot works in. */
  ghost predicate Laid(powers: seq<MpInt>, newpowers: seq<MpInt>, scratch: MpInt, nw: nat) {
    && |powers| == |newpowers| && Shaped(powers, nw) && Shaped(newpowers, nw) && scratch.Valid() && scratch.nw == nw
    && Separate(powers) && Separate(newpowers) && Disjoint(powers, newpowers) && Disjoint(powers + newpowers, [scratch])
  }

  method Start(n: nat, nw: nat) returns (powers: seq<MpInt>, newpowers: seq<MpInt>, scratch: MpInt)
    requires 0 < nw
    ensures |powers| == n + 1 && Laid(powers, newpowers, scratch, nw) && PowersOf(powers, 0, nw)
    ensures fresh(scratch.mem) && forall i :: 0 <= i <= n ==> fresh(powers[i].mem) && fresh(newpowers[i].mem)
  {
    hide Nat, Base, Pow, MpInt.Words, MpInt.Value;
    var alloc := Allocate(2 * (n + 1) + 1, nw);
    powers, newpowers, scratch := alloc[..n + 1], alloc[n + 1..2 * n + 2], alloc[2 * n + 2];
    assert forall i :: 0 <= i < n + 1 ==> newpowers[i] == alloc[n + 1 + i];
    assert powers + newpowers == alloc[..2 * n + 2];
    CopyIntegerInto(powers[0], 1);
    PowersOfZero(powers, nw);
  }

  /** One iteration: x grows by 2^s if the root is that large. */
  method TryBit(y: MpInt, powers: seq<MpInt>, newpowers: seq<MpInt>, scratch: MpInt, n: nat, s: nat, ghost x: nat)
    returns (ghost x': nat)
    requires y.Valid() && 0 < n <= 18 && |powers| == n + 1 && Laid(powers, newpowers, scratch, y.nw + 1)
    requires Disjoint([y], powers + newpowers) && y.mem != scratch.mem
    requires PowersOf(powers, x, y.nw + 1) && RootSoFar(y.Value(), n, x, s + 1) && n * s <= MaxBits(y.nw)
    modifies (set m | m in powers :: m.mem), (set m | m in newpowers :: m.mem), scratch.mem
    ensures PowersOf(powers, x', y.nw + 1) && RootSoFar(y.Value(), n, x', s)
    ensures y.Value() == old(y.Value())
  {
    hide Nat, Base, Pow, Pow2, MpInt.Words, MpInt.Value, MaxBits, RootSoFar;
    ghost var v := y.Value();
    var nw := y.nw + 1;
    OutsideBoth(y, powers, newpowers);
    ValueBound(y);
    TrialFits(v, n, x, s, y.nw);
    RootStep(v, n, x, s);
    AllNewPowers(powers, newpowers, scratch, s, x, nw);
    var newbit := CmpHs(y, newpowers[n]);
    SelectAll(powers, newpowers, newbit, nw, x, x + Pow2(s));
    x' := if newbit then x + Pow2(s) else x;
  }

  lemma OutsideBoth(y: MpInt, powers: seq<MpInt>, newpowers: seq<MpInt>)
    requires Disjoint([y], powers + newpowers)
    ensures forall m :: m in powers ==> m.mem != y.mem
    ensures forall m :: m in newpowers ==> m.mem != y.mem
  {
    var all := powers + newpowers;
    assert forall j :: 0 <= j < |all| ==> [y][0].mem != all[j].mem;
    assert forall j :: 0 <= j < |powers| ==> all[j] == powers[j];
    assert forall j :: 0 <= j < |newpowers| ==> all[|powers| + j] == newpowers[j];
  }

  method FindRoot(y: MpInt, n: nat) returns (powers: seq<MpInt>, ghost x: nat)
    requires y.Valid() && 0 < n <= 18
    ensures |powers| == n + 1 && Shaped(powers, y.nw + 1) && PowersOf(powers, x, y.nw + 1)
    ensures forall i :: 0 <= i <= n ==> fresh(powers[i].mem)
    ensures RootSoFar(y.Value(), n, x, 0)
  {
    hide Nat, Base, Pow, Pow2, MpInt.Words, MpInt.Value, MaxBits, RootSoFar;
    var newpowers, scratch;
    powers, newpowers, scratch := Start(n, y.nw + 1);
    x := 0;
    ValueBound(y);
    BaseIsPow2(y.nw);
    var s := MaxBits(y.nw) / n + 1;
    RootStart(y.Value(), n, MaxBits(y.nw), s);
    while 0 < s
      invariant 0 <= s <= MaxBits(y.nw) / n + 1
      invariant PowersOf(powers, x, y.nw + 1) && RootSoFar(y.Value(), n, x, s)
    {
      s := s - 1;
      RootShiftFits(MaxBits(y.nw), n, s);
      x := TryBit(y, powers, newpowers, scratch, n, s, x);
    }
  }

  lemma RootShiftFits(bits: nat, n: nat, s: nat)
    requires 0 < n && s <= bits / n
    ensures n * s <= bits
  {
    MulLe(s, bits / n, n);
  }

  lemma PowersOfZero(powers: seq<MpInt>, nw: nat)
    requires 0 < |powers| && Shaped(powers, nw) && 0 < nw
    requires powers[0].Value() == 1 % Base(nw) && forall i :: 1 <= i < |powers| ==> powers[i].Value() == 0
    ensures PowersOf(powers, 0, nw)
  {
    hide Nat, Base, MpInt.Words, MpInt.Value;
    BaseStep(0);
    BaseIsBig();
    BaseLe(1, nw);
    SmallMod(1, Base(nw));
    forall i | 1 <= i < |powers| ensures Pow(0, i) == 0 { PowZero(i); }
  }

  /** The root has room: if n does not divide the number of bits, the leftover of the last word covers it. */
  lemma RootSize(y: nat, n: nat, x: nat, nw: nat)
    requires 0 < n <= 18 && Pow(x, n) <= y < Base(nw)
    ensures x < Base(WordsForBits(MaxBits(nw) / n))
  {
    hide Base, Pow, Pow2, WordsForBits, MaxBits;
    var words := WordsForBits(MaxBits(nw) / n);
    RootWords(nw, n);
    if Base(words) <= x {
      PowBaseLe(Base(words), x, n);
      BaseIsPow2(words);
      BaseIsPow2(nw);
      PowOfPow2(MaxBits(words), n);
      Pow2Le(MaxBits(nw), n * MaxBits(words));
    }
  }

  lemma RootWords(nw: nat, n: nat)
    requires 0 < n <= 18
    ensures MaxBits(nw) <= n * MaxBits(WordsForBits(MaxBits(nw) / n))
  {
    hide WordsForBits, MaxBits;
    var f := MaxBits(nw) / n;
    WordsForBitsFit(f);
    var words := WordsForBits(f);
    WordsAsBits(nw);
    WordsAsBits(words);
    LastWord(nw, n, words, MaxBits(nw), MaxBits(words), BIGNUM_INT_BITS);
  }

  lemma LastWord(nw: nat, n: nat, words: nat, bits: nat, room: nat, width: nat)
    requires 0 < n < width && bits == nw * width && room == words * width && bits / n <= room
    ensures bits <= n * room
  {
    var f := bits / n;
    if f == room {
      MulAssoc(n, words, width);
      WholeWord(nw, n * words, width, bits, n * room, n);
    } else {
      MulLe(f + 1, room, n);
    }
  }

  /** Two multiples of the width, less than it apart. */
  lemma WholeWord(i: int, j: int, width: nat, x: int, y: int, n: int)
    requires x == i * width && y == j * width && x < y + n && n < width
    ensures x <= y
  {
    if j + 1 <= i {
      MulLe(j + 1, i, width);
      Distribute(width, j, 1);
    }
  }

  /** The code's assertion on its coefficients holds for all powers up to n just when n is at most 18. */
  lemma CoefficientsFit(n: nat)
    ensures (forall i, j :: 0 <= j <= i <= n ==> Choose(i, j) < 0x10000) <==> n <= 18
  {
    hide Choose;
    if n <= 18 {
      forall i, j | 0 <= j <= i <= n ensures Choose(i, j) < 0x10000 {
        ChooseSmall(i, j);
      }
    } else {
      Nineteen();
      assert Choose(19, 9) == 92378;
    }
  }

  lemma Nineteen()
    ensures Choose(19, 9) == 92378
  {
    hide Choose;
    ChooseZero(19);
    NextCoefficient(19, 0);
    NextCoefficient(19, 1);
    NextCoefficient(19, 2);
    NextCoefficient(19, 3);
    NextCoefficient(19, 4);
    NextCoefficient(19, 5);
    NextCoefficient(19, 6);
    NextCoefficient(19, 7);
    NextCoefficient(19, 8);
  }
}
