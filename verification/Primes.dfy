/**
 Arithmetic modulo a prime: inverses, Fermat's little theorem and Euler's criterion.
 */
module Primes {
  import opened Arithmetic
  import opened Binomial

  ghost predicate IsPrime(p: int) {
    2 <= p && forall k :: 2 <= k < p ==> p % k != 0
  }

  lemma PrimePositive(p: int)
    requires IsPrime(p)
    ensures 2 <= p
  {
  }

  // ---------------------------------------------------------------------- inverses

  lemma {:induction false} Euclid(a: nat, b: nat) returns (x: int, y: int, g: nat)
    requires 0 < a || 0 < b
    ensures 0 < g && a % g == 0 && b % g == 0 && x * a + y * b == g
    decreases b
  {
    if b == 0 {
      x, y, g := 1, 0, a;
      MultipleMod(1, a);
      SmallMod(0, a);
    } else {
      var q, r := a / b, a % b;
      var x', y';
      x', y', g := Euclid(b, r);
      x, y := y', x' - q * y';
      EuclidStep(a, b, q, r, x', y', g);
    }
  }

  lemma EuclidStep(a: nat, b: nat, q: int, r: nat, x: int, y: int, g: nat)
    requires a == q * b + r && 0 < g && b % g == 0 && r % g == 0 && x * b + y * r == g
    ensures a % g == 0 && y * a + (x - q * y) * b == g
  {
    CongZero(b, g);
    CongZero(r, g);
    CongMul(q, q, b, 0, g);
    CongAdd(q * b, 0, r, 0, g);
    CongZero(a, g);
    Distribute(b, x, q * y);
    Distribute(y, q * b, r);
    MulAssoc(q, y, b);
    MulAssoc(y, q, b);
  }

  /** Every number that a prime does not divide has an inverse modulo it. */
  lemma PrimeInverse(p: nat, a: int) returns (s: int)
    requires IsPrime(p) && a % p != 0
    ensures Cong(a * s, 1, p)
  {
    var x, y, g := Euclid(a % p, p);
    assert g == 1 by {
      if g == p {
        SmallMod(a % p, p);
      } else if g > p {
        SmallMod(p, g);
      }
    }
    CongFromMultiple(x * (a % p), 1, 0 - y, p);
    CongMod(a, p);
    CongMul(x, x, a % p, a, p);
    s := x;
  }

  /** A prime that divides a product divides a factor. */
  lemma EuclidsLemma(p: nat, a: int, b: int)
    requires IsPrime(p) && (a * b) % p == 0
    ensures a % p == 0 || b % p == 0
  {
    if a % p != 0 {
      var s := PrimeInverse(p, a);
      CongZero(a * b, p);
      CongMul(a * b, 0, s, s, p);
      assert a * b * s == b * (a * s);
      CongMul(b, b, a * s, 1, p);
      CongZero(b, p);
    }
  }

  /** The only square roots of 1 are 1 and -1. */
  lemma RootsOfOne(p: nat, y: int)
    requires IsPrime(p) && Cong(y * y, 1, p)
    ensures Cong(y, 1, p) || Cong(y, 0 - 1, p)
  {
    assert (y - 1) * (y + 1) == y * y - 1 by { Distribute(y + 1, y, 1); Distribute(y, y, 1); }
    CongSub(y * y, 1, 1, 1, p);
    CongZero(y * y - 1, p);
    EuclidsLemma(p, y - 1, y + 1);
    if (y - 1) % p == 0 {
      CongZero(y - 1, p);
      CongAdd(y - 1, 0, 1, 1, p);
    } else {
      CongZero(y + 1, p);
      CongSub(y + 1, 0, 1, 1, p);
    }
  }

  // ------------------------------------------------------------ Fermat's little theorem

  lemma PrimeDividesChoose(p: nat, k: nat)
    requires IsPrime(p) && 0 < k < p
    ensures Choose(p, k) % p == 0
  {
    hide Choose;
    Absorption(p, k);
    MultipleMod(Choose(p - 1, k - 1), p);
    EuclidsLemma(p, Choose(p, k), k);
    SmallMod(k, p);
  }

  lemma {:induction false} MiddleTermsVanish(p: nat, a: int, k: nat)
    requires IsPrime(p) && 0 < k <= p
    ensures Cong(Terms(a, 1, p, k), 1, p)
    decreases k
  {
    if k == 1 {
      PowOne(p);
      assert Term(a, 1, p, 0) == 1;
      assert Terms(a, 1, p, 1) == Terms(a, 1, p, 0) + Term(a, 1, p, 0);
    } else {
      MiddleTermsVanish(p, a, k - 1);
      PrimeDividesChoose(p, k - 1);
      var t := Pow(a, k - 1) * Pow(1, p - (k - 1));
      CongZero(Choose(p, k - 1), p);
      CongMul(Choose(p, k - 1), 0, t, t, p);
      CongAdd(Terms(a, 1, p, k - 1), 1, Term(a, 1, p, k - 1), 0, p);
    }
  }

  lemma {:induction false} FermatNat(p: nat, a: nat)
    requires IsPrime(p)
    ensures Cong(Pow(a, p), a, p)
    decreases a
  {
    if a == 0 {
      PowZero(p);
    } else {
      var b := a - 1;
      FermatNat(p, b);
      BinomialTheorem(b, 1, p);
      MiddleTermsVanish(p, b, p);
      LastTerm(p, b);
      CongAdd(Terms(b, 1, p, p), 1, Pow(b, p), b, p);
    }
  }

  lemma LastTerm(p: nat, b: int)
    ensures Terms(b, 1, p, p + 1) == Terms(b, 1, p, p) + Pow(b, p)
  {
    ChooseSelf(p);
    assert Term(b, 1, p, p) == Pow(b, p);
  }

  /** Fermat's little theorem. */
  lemma Fermat(p: nat, a: int)
    requires IsPrime(p) && a % p != 0
    ensures Cong(Pow(a, p - 1), 1, p)
  {
    var r := a % p;
    CongMod(a, p);
    FermatNat(p, r);
    var s := PrimeInverse(p, r);
    assert Pow(r, p) == r * Pow(r, p - 1);
    CongMul(Pow(r, p), r, s, s, p);
    assert r * Pow(r, p - 1) * s == Pow(r, p - 1) * (r * s);
    CongMul(Pow(r, p - 1), Pow(r, p - 1), r * s, 1, p);
    CongPow(r, a, p - 1, p);
  }

  // ---------------------------------------------------------------- Euler's criterion

  ghost predicate IsSquare(p: nat, x: int)
    requires 0 < p
  {
    exists y: int :: Cong(y * y, x, p)
  }

  function Product(s: seq<nat>): nat {
    if |s| == 0 then 1 else MulLe(0, s[0], Product(s[1..])); s[0] * Product(s[1..])
  }

  function Without(s: seq<nat>, j: nat): seq<nat>
    requires j < |s|
  {
    s[..j] + s[j + 1..]
  }

  lemma {:induction false} ProductWithout(s: seq<nat>, j: nat)
    requires j < |s|
    ensures Product(s) == s[j] * Product(Without(s, j))
  {
    var t := Without(s, j);
    if j == 0 {
      assert t == s[1..];
    } else {
      ProductWithout(s[1..], j - 1);
      assert t[1..] == Without(s[1..], j - 1) && t[0] == s[0];
      MulAssoc(s[0], s[j], Product(t[1..]));
    }
  }

  ghost predicate Distinct(s: seq<nat>) {
    forall i, j :: 0 <= i < j < |s| ==> s[i] != s[j]
  }

  lemma WithoutMembers(s: seq<nat>, j: nat)
    requires j < |s| && Distinct(s)
    ensures Distinct(Without(s, j))
    ensures forall w :: w in Without(s, j) <==> w in s && w != s[j]
  {
    var t := Without(s, j);
    assert s == s[..j] + [s[j]] + s[j + 1..];
    assert forall i :: 0 <= i < |t| ==> t[i] == if i < j then s[i] else s[i + 1];
    forall w | w in s && w != s[j] ensures w in t {
      var i :| 0 <= i < |s| && s[i] == w;
      assert t[if i < j then i else i - 1] == w;
    }
  }

  /** Every member of s is a residue, and has a partner in s, different from itself, with product z. */
  ghost predicate PairedUp(p: nat, z: int, s: seq<nat>)
    requires 0 < p
  {
    forall x :: x in s ==> 0 < x < p && HasPartner(p, z, s, x)
  }

  ghost predicate HasPartner(p: nat, z: int, s: seq<nat>, x: nat)
    requires 0 < p
  {
    exists y :: y in s && y != x && Cong(x * y, z, p)
  }

  lemma PartnerUnique(p: nat, z: int, x: nat, y: nat, y': nat)
    requires IsPrime(p) && 0 < x < p && y < p && y' < p && Cong(x * y, z, p) && Cong(x * y', z, p)
    ensures y == y'
  {
    hide IsPrime;
    SmallMod(x, p);
    var s := PrimeInverse(p, x);
    CongMul(x * y, x * y', s, s, p);
    MulAssoc(y, x, s);
    MulAssoc(y', x, s);
    CongMul(y, y, x * s, 1, p);
    CongMul(y', y', x * s, 1, p);
    CongSmall(y, y', p);
  }

  /** t is s without a pair x, y: its members still pair up. */
  lemma RemovePair(p: nat, z: int, s: seq<nat>, t: seq<nat>, x: nat, y: nat)
    requires IsPrime(p) && PairedUp(p, z, s) && x in s && y in s && Cong(x * y, z, p)
    requires forall w :: w in t <==> w in s && w != x && w != y
    ensures PairedUp(p, z, t)
  {
    hide IsPrime, HasPartner;
    forall w | w in t ensures HasPartner(p, z, t, w) {
      RemainingPartner(p, z, s, t, x, y, w);
    }
  }

  lemma RemainingPartner(p: nat, z: int, s: seq<nat>, t: seq<nat>, x: nat, y: nat, w: nat)
    requires IsPrime(p) && PairedUp(p, z, s) && x in s && y in s && Cong(x * y, z, p)
    requires forall w :: w in t <==> w in s && w != x && w != y
    requires w in t
    ensures HasPartner(p, z, t, w)
  {
    hide IsPrime, Cong;
    assert HasPartner(p, z, s, w);
    var v :| v in s && v != w && Cong(w * v, z, p);
    assert w * v == v * w && x * y == y * x;
    if v == x {
      PartnerUnique(p, z, x, w, y);
    } else if v == y {
      PartnerUnique(p, z, y, w, x);
    }
    assert v in t;
  }

  /** The product of numbers that pair up is z to the number of pairs. */
  lemma {:induction false} PairedProduct(p: nat, z: int, s: seq<nat>)
    requires IsPrime(p) && Distinct(s) && PairedUp(p, z, s)
    ensures |s| % 2 == 0
    ensures Cong(Product(s), Pow(z, |s| / 2), p)
    decreases |s|
  {
    hide *;
    PrimePositive(p);
    if |s| == 0 {
      NoProduct(z, p, s);
    } else {
      var y := SomePartner(p, z, s);
      var t := DropPair(s, y);
      RemovePair(p, z, s, t, s[0], y);
      PairedProduct(p, z, t);
      OnePairMore(p, z, s[0] * y, Product(t), |t| / 2);
    }
  }

  lemma SomePartner(p: nat, z: int, s: seq<nat>) returns (y: nat)
    requires 0 < p && PairedUp(p, z, s) && 0 < |s|
    ensures y in s && y != s[0] && Cong(s[0] * y, z, p)
  {
    assert HasPartner(p, z, s, s[0]);
    y :| y in s && y != s[0] && Cong(s[0] * y, z, p);
  }

  lemma OnePairMore(p: nat, z: int, pair: int, rest: int, k: nat)
    requires 0 < p && Cong(pair, z, p) && Cong(rest, Pow(z, k), p)
    ensures Cong(pair * rest, Pow(z, k + 1), p)
  {
    CongMul(pair, z, rest, Pow(z, k), p);
  }

  lemma NoProduct(z: int, p: nat, s: seq<nat>)
    requires 0 < p && |s| == 0
    ensures Cong(Product(s), Pow(z, 0), p)
  {
  }

  lemma DropPair(s: seq<nat>, y: nat) returns (t: seq<nat>)
    requires Distinct(s) && 0 < |s| && y in s && y != s[0]
    ensures Distinct(t) && |t| == |s| - 2
    ensures forall w :: w in t <==> w in s && w != s[0] && w != y
    ensures Product(s) == s[0] * y * Product(t)
  {
    var s1 := Without(s, 0);
    WithoutMembers(s, 0);
    assert y in s1;
    var j :| 0 <= j < |s1| && s1[j] == y;
    t := Without(s1, j);
    WithoutMembers(s1, j);
    ProductWithout(s, 0);
    ProductWithout(s1, j);
    MulAssoc(s[0], y, Product(t));
  }

  /** The numbers from lo to hi - 1. */
  function Range(lo: nat, hi: nat): (s: seq<nat>)
    requires lo <= hi
    ensures |s| == hi - lo
    ensures forall i :: 0 <= i < |s| ==> s[i] == lo + i
  {
    seq(hi - lo, i => lo + i)
  }

  lemma RangeMembers(lo: nat, hi: nat)
    requires lo <= hi
    ensures Distinct(Range(lo, hi))
    ensures forall x :: x in Range(lo, hi) <==> lo <= x < hi
  {
    var s := Range(lo, hi);
    forall x | lo <= x < hi ensures x in s {
      assert s[x - lo] == x;
    }
  }

  /** The partner of x: z divided by x. */
  lemma Partner(p: nat, z: int, x: nat) returns (y: nat)
    requires IsPrime(p) && 0 < x < p && z % p != 0
    ensures 0 < y < p && Cong(x * y, z, p)
  {
    hide IsPrime;
    SmallMod(x, p);
    var s := PrimeInverse(p, x);
    y := (z * s) % p;
    CongMod(z * s, p);
    CongMul(x, x, y, z * s, p);
    MulAssoc(x, z, s);
    CongMul(z, z, x * s, 1, p);
    if y == 0 { SmallMod(0, p); }
  }

  /** Wilson's theorem. */
  lemma Wilson(p: nat)
    requires IsPrime(p) && 2 < p
    ensures Cong(Product(Range(1, p)), 0 - 1, p)
  {
    hide IsPrime, Product, HasPartner, Range;
    var s, t := Range(1, p), Range(2, p - 1);
    RangeMembers(2, p - 1);
    forall x | x in t ensures HasPartner(p, 1, t, x) {
      InversePartner(p, x);
    }
    PairedProduct(p, 1, t);
    PowOne(|t| / 2);
    EndsOfRange(p);
    ModAddMultiple(0 - 1, 1, p);
    CongMul(p - 1, 0 - 1, Product(t), 1, p);
  }

  lemma InversePartner(p: nat, x: nat)
    requires IsPrime(p) && 2 <= x < p - 1
    ensures HasPartner(p, 1, Range(2, p - 1), x)
  {
    hide IsPrime;
    SmallMod(1, p);
    var y := Partner(p, 1, x);
    NotSelfInverse(p, x, y);
    RangeMembers(2, p - 1);
    assert y in Range(2, p - 1);
  }

  lemma EndsOfRange(p: nat)
    requires 2 < p
    ensures Product(Range(1, p)) == (p - 1) * Product(Range(2, p - 1))
  {
    var s, t := Range(1, p), Range(2, p - 1);
    assert s[1..] == t + [p - 1];
    ProductWithout(t + [p - 1], |t|);
    assert Without(t + [p - 1], |t|) == t;
  }

  /** Between 2 and p-2, an inverse lies in the same range and is another number. */
  lemma NotSelfInverse(p: nat, x: nat, y: nat)
    requires IsPrime(p) && 2 <= x < p - 1 && 0 < y < p && Cong(x * y, 1, p)
    ensures y != x && 2 <= y < p - 1
  {
    SmallMod(x, p);
    SmallMod(1, p);
    ModAddMultiple(0 - 1, 1, p);
    SmallMod(p - 1, p);
    if y == x { RootsOfOne(p, x); }
    if y == p - 1 {
      CongMul(x, x, p - 1, 0 - 1, p);
      CongMul(x * y, 1, 0 - 1, 0 - 1, p);
      CongMul(x * (0 - 1), 1, 0 - 1, 0 - 1, p);
    }
  }

  /** Euler's criterion: a number that is not a square has -1 for its ((p-1)/2)th power. */
  lemma EulerNonSquare(p: nat, z: int)
    requires IsPrime(p) && 2 < p && !IsSquare(p, z)
    ensures p % 2 == 1
    ensures Cong(Pow(z, (p - 1) / 2), 0 - 1, p)
  {
    hide IsPrime, Product, HasPartner, Range, IsSquare;
    var s := Range(1, p);
    RangeMembers(1, p);
    forall x | x in s ensures HasPartner(p, z, s, x) {
      NonSquarePartner(p, z, x);
    }
    PairedProduct(p, z, s);
    Wilson(p);
  }

  lemma NonSquarePartner(p: nat, z: int, x: nat)
    requires IsPrime(p) && !IsSquare(p, z) && 0 < x < p
    ensures HasPartner(p, z, Range(1, p), x)
  {
    hide IsPrime;
    ZeroIsSquare(p, z);
    var y := Partner(p, z, x);
    RangeMembers(1, p);
    assert y in Range(1, p);
    if y == x {
      SquareIsSquare(p, z, x);
    }
  }

  lemma SquareIsSquare(p: nat, z: int, y: int)
    requires 0 < p && Cong(y * y, z, p)
    ensures IsSquare(p, z)
  {
  }

  lemma ZeroIsSquare(p: nat, z: int)
    requires 0 < p
    ensures z % p == 0 ==> IsSquare(p, z)
  {
    if z % p == 0 {
      CongZero(z, p);
      SquareIsSquare(p, z, 0);
    }
  }

  /** Euler's criterion: a square has 1 for its ((p-1)/2)th power. */
  lemma EulerSquare(p: nat, x: int)
    requires IsPrime(p) && p % 2 == 1 && x % p != 0 && IsSquare(p, x)
    ensures Cong(Pow(x, (p - 1) / 2), 1, p)
  {
    var y :| Cong(y * y, x, p);
    var h := (p - 1) / 2;
    CongPow(y * y, x, h, p);
    PowDistribute(y, y, h);
    PowAdd(y, h, h);
    if y % p == 0 {
      CongZero(y, p);
      CongMul(y, 0, y, 0, p);
      CongZero(x, p);
    }
    Fermat(p, y);
  }
}
