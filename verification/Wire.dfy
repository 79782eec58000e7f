/**
 Integers on the wire: the formats of SSH-1 and SSH-2.
 */
module Wire {
  import opened Arithmetic
  import opened Words
  import opened MpInts
  import opened Shifts
  import opened SafeShifts
  import opened Gcd
  import opened Bytes
  import opened Marshal

  // ------------------------------------------------------------------ bytes and bits of numbers

  lemma {:induction false} ByteBase(k: nat)
    ensures Pow(256, k) == Pow2(8 * k)
  {
    if k > 0 {
      ByteBase(k - 1);
      Pow2Add(8, 8 * (k - 1));
      Pow2At8();
    }
  }

  /** The number of significant bits. */
  function Nbits(v: nat): nat {
    if v == 0 then 0 else 1 + Nbits(v / 2)
  }

  lemma {:induction false} NbitsBounds(v: nat)
    ensures HasBits(v, Nbits(v))
  {
    if v > 0 {
      NbitsBounds(v / 2);
      Pow2Step(Nbits(v / 2));
      if Nbits(v / 2) > 0 {
        Pow2Step(Nbits(v / 2) - 1);
      }
    }
  }

  /** Leading zeros do not change the number. */
  lemma {:induction false} LeadingZero(s: seq<Byte>)
    requires |s| > 0 && s[0] == 0
    ensures BigEndian(s) == BigEndian(s[1..])
  {
    if |s| == 1 {
      assert s[..0] == [];
    } else {
      LeadingZero(s[..|s| - 1]);
      assert s[..|s| - 1][1..] == s[1..][..|s| - 2];
    }
  }

  /** A number whose first byte is known lies between multiples of the power below. */
  lemma {:induction false} FirstByteBounds(s: seq<Byte>)
    requires |s| > 0
    ensures s[0] * Pow(256, |s| - 1) <= BigEndian(s) < (s[0] + 1) * Pow(256, |s| - 1)
  {
    if |s| == 1 {
      assert s[..0] == [] && Pow(256, 0) == 1;
    } else {
      var init := s[..|s| - 1];
      FirstByteBounds(init);
      FirstByteArith(s[0], Pow(256, |s| - 2), BigEndian(init), s[|s| - 1]);
      assert Pow(256, |s| - 1) == 256 * Pow(256, |s| - 2);
    }
  }

  lemma FirstByteArith(b: nat, p: nat, v: nat, last: nat)
    requires b * p <= v < (b + 1) * p && last < 256
    ensures b * (256 * p) <= v * 256 + last < (b + 1) * (256 * p)
  {
    MulAssoc(b, 256, p);
    MulAssoc(b + 1, 256, p);
  }

  // ------------------------------------------------------------------------- SSH-2 integers

  /** The bytes of put_mp_ssh2: enough for one more bit than the number has. */
  function Ssh2Bytes(x: nat): seq<Byte> {
    Put(x, (Nbits(x) + 8) / 8)
  }

  function EncodeSsh2(x: nat): seq<Byte> {
    Put(|Ssh2Bytes(x)|, 4) + Ssh2Bytes(x)
  }

  /** The strings that get_mp_ssh2 accepts: no sign bit, and no zero byte in front unless it keeps the sign bit clear. */
  predicate Canonical(d: seq<Byte>) {
    |d| == 0 || (d[0] < 128 && (d[0] == 0 ==> |d| > 1 && d[1] >= 128))
  }

  /** BinarySource_get_mp_ssh2. */
  function GetMpSsh2(s: Source): (r: (nat, Source))
    requires s.Valid()
    ensures r.1.Valid()
  {
    var (d, s') := GetString(s);
    if s'.err != NoError then (0, s')
    else if !Canonical(d) then (0, s'.Fail(Invalid))
    else (BigEndian(d), s')
  }

  lemma BytesSuffice(x: nat)
    ensures x < Pow(256, |Ssh2Bytes(x)|)
    ensures 2 * x < Pow(256, |Ssh2Bytes(x)|)
    ensures |Ssh2Bytes(x)| > 0
    ensures 0 < x ==> Pow(256, |Ssh2Bytes(x)| - 1) <= 2 * x
  {
    hide Nbits, Pow2, Pow;
    var b, k := Nbits(x), (Nbits(x) + 8) / 8;
    NbitsBounds(x);
    ByteBase(k);
    ByteBase(k - 1);
    Pow2Le(b, 8 * k - 1);
    Pow2Step(8 * k - 1);
    if x > 0 {
      Pow2Step(b - 1);
      Pow2Le(8 * (k - 1), b);
    } else {
      Pow2Exceeds(8 * k);
    }
  }

  /** A positive number is written canonically; 0 is not. */
  lemma Ssh2BytesCanonical(x: nat)
    ensures Canonical(Ssh2Bytes(x)) <==> x > 0
  {
    hide Nbits, Pow;
    var d := Ssh2Bytes(x);
    var k := |d|;
    BytesSuffice(x);
    PutRoundTrip(x, k);
    if x == 0 {
      assert d == [0] by { assert Nbits(0) == 0 by { NbitsZero(); } OneByte(0); }
    } else {
      FirstByteBounds(d);
      Halves(d[0], Pow(256, k - 1), x, Pow(256, k));
      assert d[0] < 128 by { PowAdd(256, 1, k - 1); Pow256(); TopByteSmall(d[0], Pow(256, k - 1), x); }
      if d[0] == 0 {
        SecondByte(d, x);
      }
    }
  }

  lemma NbitsZero()
    ensures Nbits(0) == 0
  {
  }

  lemma Halves(b: nat, p: nat, x: nat, q: nat)
    requires b * p <= x && 2 * x < q
    ensures 2 * (b * p) < q
  {
  }

  lemma TopByteSmall(b: nat, p: nat, x: nat)
    requires b * p <= x && 2 * x < 256 * p && 0 < x
    ensures b < 128
  {
    if b >= 128 {
      MulLe(128, b, p);
    }
  }

  /** If the first byte is 0 there is a second one, and it has its top bit set. */
  lemma SecondByte(d: seq<Byte>, x: nat)
    requires |d| > 0 && d[0] == 0 && BigEndian(d) == x && 0 < x && Pow(256, |d| - 1) <= 2 * x
    ensures |d| > 1 && d[1] >= 128
  {
    hide Pow;
    LeadingZero(d);
    var t := d[1..];
    PositiveHasBytes(t);
    FirstByteBounds(t);
    PowAdd(256, 1, |t| - 1);
    Pow256();
    SecondArith(t[0], Pow(256, |t| - 1), x);
  }

  lemma PositiveHasBytes(t: seq<Byte>)
    requires 0 < BigEndian(t)
    ensures |t| > 0
  {
  }

  lemma SecondArith(b: nat, p: nat, x: nat)
    requires x < (b + 1) * p && 256 * p <= 2 * x
    ensures b >= 128
  {
    if b + 1 <= 128 {
      MulLe(b + 1, 128, p);
    }
  }

  /** Reading back what was written: the number itself, if it is positive; for 0, an error. */
  lemma Ssh2RoundTrip(s: Source, x: nat, rest: seq<Byte>)
    requires Before(s, EncodeSsh2(x), rest) && |Ssh2Bytes(x)| < 0x1_0000_0000
    ensures x > 0 ==> GetMpSsh2(s) == (x, s.Advance(4 + |Ssh2Bytes(x)|)) && GetMpSsh2(s).1.Left() == rest
    ensures x == 0 ==> EncodeSsh2(x) == [0, 0, 0, 1, 0] && GetMpSsh2(s).1.err == Invalid
  {
    hide Ssh2Bytes, Canonical, GetString, BigEndian, Put, Pow;
    var d := Ssh2Bytes(x);
    GetStringBack(s, d, rest);
    Ssh2BytesCanonical(x);
    BytesSuffice(x);
    assert BigEndian(d) == x by { BytesBack(x); }
    if x == 0 {
      ZeroEncoded();
    }
  }

  lemma ZeroEncoded()
    ensures EncodeSsh2(0) == [0, 0, 0, 1, 0]
  {
    NbitsZero();
    OneByte(0);
    assert Put(1, 4) == [0, 0, 0, 1] by { assert Put(0, 1) == [0] && Put(0, 2) == [0, 0] && Put(0, 3) == [0, 0, 0]; }
  }

  lemma BytesBack(x: nat)
    requires x < Pow(256, |Ssh2Bytes(x)|)
    ensures BigEndian(Ssh2Bytes(x)) == x
  {
    hide Nbits;
    PutRoundTrip(x, (Nbits(x) + 8) / 8);
  }

  /** And only one string is accepted for each positive number, the one that put_mp_ssh2 writes; for 0 it is the empty
      one. */
  lemma Ssh2Unique(d: seq<Byte>)
    requires Canonical(d)
    ensures if BigEndian(d) == 0 then d == [] else d == Ssh2Bytes(BigEndian(d))
  {
    hide Nbits, Pow, Put;
    var x := BigEndian(d);
    if |d| > 0 {
      CanonicalBounds(d);
      BytesSuffice(x);
      SameLength(|d|, |Ssh2Bytes(x)|, x);
      BigEndianRoundTrip(d);
      assert d == Put(x, |d|);
    }
  }

  lemma CanonicalBounds(d: seq<Byte>)
    requires Canonical(d) && |d| > 0
    ensures 0 < BigEndian(d) && 2 * BigEndian(d) < Pow(256, |d|) && Pow(256, |d| - 1) <= 2 * BigEndian(d)
  {
    hide Pow;
    var x, k := BigEndian(d), |d|;
    Pow256();
    PowAdd(256, 1, k - 1);
    PowPos(256, k - 1);
    FirstByteBounds(d);
    if d[0] == 0 {
      LeadingZero(d);
      FirstByteBounds(d[1..]);
      PowAdd(256, 1, k - 2);
      PowPos(256, k - 2);
      MulLe(128, d[1], Pow(256, k - 2));
    } else {
      MulLe(1, d[0], Pow(256, k - 1));
    }
    MulLe(d[0] + 1, 128, Pow(256, k - 1));
  }

  lemma SameLength(j: nat, k: nat, x: nat)
    requires 0 < j && 0 < k && 2 * x < Pow(256, j) && Pow(256, j - 1) <= 2 * x && 2 * x < Pow(256, k) && Pow(256, k - 1) <= 2 * x
    ensures j == k
  {
    hide Pow;
    if j < k {
      PowLe(256, j, k - 1);
    } else if k < j {
      PowLe(256, k, j - 1);
    }
  }

  // ------------------------------------------------------------------ integers from strings

  function StripZeros(d: seq<Byte>): (r: seq<Byte>)
    ensures |r| <= |d| && (|r| > 0 ==> r[0] != 0)
  {
    if |d| > 0 && d[0] == 0 then StripZeros(d[1..]) else d
  }

  /** put_mp_ssh2_from_string. */
  function Ssh2FromString(d: seq<Byte>): seq<Byte> {
    Put(|Unsigned(d)|, 4) + Unsigned(d)
  }

  lemma {:induction false} StripZerosValue(d: seq<Byte>)
    ensures BigEndian(StripZeros(d)) == BigEndian(d)
  {
    if |d| > 0 && d[0] == 0 {
      LeadingZero(d);
      StripZerosValue(d[1..]);
    }
  }

  /** The string with its sign made clear. */
  function Unsigned(d: seq<Byte>): seq<Byte> {
    var t := StripZeros(d);
    if |t| > 0 && t[0] >= 128 then [0] + t else t
  }

  lemma UnsignedCanonical(d: seq<Byte>)
    ensures Canonical(Unsigned(d)) && BigEndian(Unsigned(d)) == BigEndian(d) && |Unsigned(d)| <= |d| + 1
  {
    hide BigEndian, StripZeros;
    var t, u := StripZeros(d), Unsigned(d);
    StripZerosValue(d);
    if |t| > 0 && t[0] >= 128 {
      LeadingZero(u);
      assert u[1..] == t;
    }
  }

  /** A canonical string is accepted, and delivers its value. */
  lemma CanonicalAccepted(s: Source, d: seq<Byte>, rest: seq<Byte>)
    requires Before(s, Put(|d|, 4) + d, rest) && Canonical(d) && |d| < 0x1_0000_0000
    ensures s.pos + 4 + |d| <= |s.data|
    ensures GetMpSsh2(s) == (BigEndian(d), s.Advance(4 + |d|)) && Before(s.Advance(4 + |d|), [], rest)
  {
    hide BigEndian, Put, GetString, Before, Canonical;
    GetStringBack(s, d, rest);
    ErrorFree(s, Put(|d|, 4) + d, rest);
  }

  lemma ErrorFree(s: Source, d: seq<Byte>, rest: seq<Byte>)
    requires Before(s, d, rest)
    ensures s.Valid() && s.err == NoError
  {
  }

  /** Any string, the empty one and strings of zeros included, becomes an integer that is accepted, with the same value. */
  lemma FromStringRoundTrip(s: Source, d: seq<Byte>, rest: seq<Byte>)
    requires Before(s, Ssh2FromString(d), rest) && |d| + 1 < 0x1_0000_0000
    ensures GetMpSsh2(s).0 == BigEndian(d) && GetMpSsh2(s).1.err == NoError && GetMpSsh2(s).1.Left() == rest
  {
    hide *;
    var u := Unsigned(d);
    UnsignedCanonical(d);
    FromStringIs(d);
    CanonicalAccepted(s, u, rest);
    var s' := s.Advance(4 + |u|);
    LeftIs(s', rest);
    ErrorFree(s', [], rest);
  }

  lemma FromStringIs(d: seq<Byte>)
    ensures Ssh2FromString(d) == Put(|Unsigned(d)|, 4) + Unsigned(d)
  {
  }

  // ------------------------------------------------------------------------- SSH-1 integers

  /** BinarySink_put_mp_ssh1, whose assertion is that the number has fewer than 65536 bits. */
  function EncodeSsh1(x: nat): seq<Byte> {
    Put(Nbits(x), 2) + Put(x, (Nbits(x) + 7) / 8)
  }

  /** BinarySource_get_mp_ssh1. */
  function GetMpSsh1(s: Source): (r: (nat, Source))
    requires s.Valid()
    ensures r.1.Valid()
  {
    var (bitc, s1) := GetUint(s, 2);
    var (d, s2) := GetData(s1, (bitc + 7) / 8);
    if s2.err != NoError then (0, s2)
    else if Nbits(BigEndian(d)) > bitc then (0, s2.Fail(Invalid))
    else (BigEndian(d), s2)
  }

  lemma Ssh1RoundTrip(s: Source, x: nat, rest: seq<Byte>)
    requires Before(s, EncodeSsh1(x), rest) && Nbits(x) < 0x10000
    ensures GetMpSsh1(s) == (x, s.Advance(2 + (Nbits(x) + 7) / 8)) && GetMpSsh1(s).1.Left() == rest
  {
    hide Nbits, BigEndian, Put, Pow, GetUint, GetData, Before;
    var b, k := Nbits(x), (Nbits(x) + 7) / 8;
    Pow256();
    Reassociate(s, Put(b, 2), Put(x, k), rest);
    GetUintBack(s, b, 2, Put(x, k) + rest);
    Reassociate(s.Advance(2), [], Put(x, k), rest);
    GetDataBack(s.Advance(2), Put(x, k), rest);
    FitsInBytes(x);
    PutRoundTrip(x, k);
    assert s.Advance(2).Advance(k) == s.Advance(2 + k);
    LeftIs(s.Advance(2 + k), rest);
  }

  /** What is written counts the bits of the number exactly, though a reader would accept a larger count. */
  lemma Ssh1CountsBits(x: nat)
    requires Nbits(x) < 0x10000
    ensures var e := EncodeSsh1(x);
            |e| >= 2 && var bits := 256 * (e[0] as nat) + e[1] as nat; HasBits(x, bits) && |e| == 2 + (bits + 7) / 8
  {
    hide Nbits, Put, HasBits, Pow;
    var n, e := Nbits(x), EncodeSsh1(x);
    NbitsBounds(x);
    Pow256();
    PutRoundTrip(n, 2);
    assert e[..2] == Put(n, 2);
    assert BigEndian(e[..2][..1]) == e[0] as nat by { assert BigEndian(e[..2][..1][..0]) == 0; }
  }

  lemma LeftIs(s: Source, rest: seq<Byte>)
    requires Before(s, [], rest)
    ensures s.Left() == rest
  {
  }

  lemma FitsInBytes(x: nat)
    ensures x < Pow(256, (Nbits(x) + 7) / 8)
  {
    hide Nbits, Pow2, Pow;
    var b, k := Nbits(x), (Nbits(x) + 7) / 8;
    NbitsBounds(x);
    ByteBase(k);
    Pow2Le(b, 8 * k);
  }

  // ------------------------------------------------------------- writing and reading mp_ints

  const BIGNUM_INT_BYTES: nat := BIGNUM_INT_BITS / 8

  lemma ByteOfWord(n: nat, i: nat)
    ensures 0 <= i / BIGNUM_INT_BYTES && 8 * (i % BIGNUM_INT_BYTES) + 8 <= BIGNUM_INT_BITS
    ensures (8 * i) / BIGNUM_INT_BITS == i / BIGNUM_INT_BYTES && (8 * i) % BIGNUM_INT_BITS == 8 * (i % BIGNUM_INT_BYTES)
  {
    var q, r := i / BIGNUM_INT_BYTES, i % BIGNUM_INT_BYTES;
    assert BIGNUM_INT_BITS == 8 * BIGNUM_INT_BYTES;
    DivNonNeg(i, BIGNUM_INT_BYTES);
    assert 8 * i == q * BIGNUM_INT_BITS + 8 * r;
    DivModUnique(8 * i, BIGNUM_INT_BITS, q, 8 * r);
  }

  /** mp_get_byte. */
  function GetByteOf(x: MpInt, i: nat): (b: Byte)
    requires x.Valid()
    reads x.mem
    ensures 0 < Pow(256, i) && 0 <= x.Value() / Pow(256, i) && b == x.Value() / Pow(256, i) % 256
  {
    ByteIndex(x.Words(), i);
    x.WordOf(i / BIGNUM_INT_BYTES) / Pow2(8 * (i % BIGNUM_INT_BYTES)) % 256
  }

  lemma ByteIndex(s: seq<Word>, i: nat)
    ensures 0 <= i / BIGNUM_INT_BYTES && 0 <= 8 * (i % BIGNUM_INT_BYTES)
    ensures 0 < Pow(256, i) && 0 <= Nat(s) / Pow(256, i)
    ensures 0 <= WordAt(s, i / BIGNUM_INT_BYTES) / Pow2(8 * (i % BIGNUM_INT_BYTES)) % 256 < 256
    ensures WordAt(s, i / BIGNUM_INT_BYTES) / Pow2(8 * (i % BIGNUM_INT_BYTES)) % 256 == Nat(s) / Pow(256, i) % 256
  {
    hide Nat, Base, Pow2, Pow, WordAt;
    var n, words, o := Nat(s), i / BIGNUM_INT_BYTES, 8 * (i % BIGNUM_INT_BYTES);
    ByteOfWord(n, i);
    ByteBase(i);
    PowPos(256, i);
    SplitShift(n, 8 * i);
    NatDigit(s, words);
    DivNonNeg(n, Pow2(8 * i));
    DivNonNeg(n, Base(words));
    ByteBelowBase(n / Base(words), o);
  }

  lemma ByteBelowBase(y: nat, o: nat)
    requires o + 8 <= BIGNUM_INT_BITS
    ensures y / Pow2(o) % 256 == (y % BASE) / Pow2(o) % 256
  {
    hide Pow2;
    BaseSplit(o + 8);
    Pow2Add(o, 8);
    Pow2At8();
    var p, q := Pow2(o), Pow2(BIGNUM_INT_BITS - o - 8);
    assert BASE == p * (256 * q) by { MulAssoc(p, 256, q); }
    var k, z := y / BASE, y % BASE;
    assert y == z + (k * q * 256) * p by { assert y == z + k * BASE; ByteArith(k, p, q); }
    ModAddMultiple(z, k * q * 256, p);
    ModAddMultiple(z / p, k * q, 256);
  }

  lemma ByteArith(k: int, p: int, q: int)
    ensures k * (p * (256 * q)) == k * q * 256 * p
  {
    MulAssoc(p, 256, q);
    MulAssoc(k, q, 256);
    MulAssoc(k, q * 256, p);
    assert p * (256 * q) == q * 256 * p;
  }

  /** The loop of both writers: bytes from the top down. */
  method PutBytes(bs: BinarySink, x: MpInt, bytes: nat)
    requires x.Valid()
    modifies bs
    ensures bs.out == old(bs.out) + Put(x.Value(), bytes)
  {
    hide Nat, Pow, MpInt.Words, MpInt.Value, Put;
    ghost var v := x.Value();
    var i := bytes;
    PowPos(256, i);
    DivNonNeg(v, Pow(256, i));
    PutNone(v / Pow(256, i));
    while i > 0
      invariant 0 <= i <= bytes && 0 < Pow(256, i) && 0 <= v / Pow(256, i)
      invariant bs.out == old(bs.out) + Put(v / Pow(256, i), bytes - i)
    {
      i := i - 1;
      NextByte(v, i, bytes - i);
      bs.PutByte(GetByteOf(x, i));
    }
    WholeNumber(v);
  }

  lemma PutNone(v: nat)
    ensures Put(v, 0) == []
  {
  }

  lemma WholeNumber(v: nat)
    ensures v / Pow(256, 0) == v
  {
    assert Pow(256, 0) == 1;
    DivModUnique(v, 1, v, 0);
  }

  lemma NextByte(v: nat, i: nat, k: nat)
    requires 0 < k
    ensures 0 < Pow(256, i) && 0 < Pow(256, i + 1) && 0 <= v / Pow(256, i) && 0 <= v / Pow(256, i + 1)
    ensures Put(v / Pow(256, i), k) == Put(v / Pow(256, i + 1), k - 1) + [v / Pow(256, i) % 256]
  {
    hide Pow;
    PowPos(256, i);
    PowPos(256, i + 1);
    PowAdd(256, i, 1);
    Pow256();
    DivNonNeg(v, Pow(256, i));
    DivNonNeg(v, Pow(256, i + 1));
    DivDiv(v, Pow(256, i), 256);
  }

  /** BinarySink_put_mp_ssh2. */
  method PutMpSsh2(bs: BinarySink, x: MpInt)
    requires x.Valid()
    modifies bs
    ensures bs.out == old(bs.out) + EncodeSsh2(x.Value())
  {
    hide Nat, MpInt.Words, MpInt.Value, Put, HasBits;
    var bits := GetNbits(x);
    NbitsBounds(x.Value());
    BitsUnique(x.Value(), bits, Nbits(x.Value()));
    var bytes := (bits + 8) / 8;
    bs.PutUint(bytes, 4);
    PutBytes(bs, x, bytes);
  }

  /** BinarySink_put_mp_ssh1. */
  method PutMpSsh1(bs: BinarySink, x: MpInt)
    requires x.Valid() && Nbits(x.Value()) < 0x10000
    modifies bs
    ensures bs.out == old(bs.out) + EncodeSsh1(x.Value())
  {
    hide Nat, MpInt.Words, MpInt.Value, Put, HasBits;
    var bits := GetNbits(x);
    NbitsBounds(x.Value());
    BitsUnique(x.Value(), bits, Nbits(x.Value()));
    bs.PutUint(bits, 2);
    PutBytes(bs, x, (bits + 7) / 8);
  }

  /** BinarySink_put_mp_ssh2_from_string. */
  method PutMpSsh2FromString(bs: BinarySink, str: seq<Byte>)
    modifies bs
    ensures bs.out == old(bs.out) + Ssh2FromString(str)
  {
    hide Put;
    var bytes := str;
    while |bytes| > 0 && bytes[0] == 0
      invariant StripZeros(bytes) == StripZeros(str)
      decreases |bytes|
    {
      bytes := bytes[1..];
    }
    ghost var u, out := Unsigned(str), bs.out;
    if |bytes| > 0 && bytes[0] >= 128 {
      assert u == [0] + bytes;
      bs.PutUint(|bytes| + 1, 4);
      bs.PutByte(0);
      assert bs.out + bytes == out + (Put(|u|, 4) + u);
    } else {
      bs.PutUint(|bytes|, 4);
      assert bs.out + bytes == out + (Put(|u|, 4) + u);
    }
    bs.PutData(bytes);
  }

  /** Or-ing in a byte above everything that is there adds it. */
  lemma {:induction false} OrAbove(a: nat, b: nat, s: nat)
    requires a < Pow2(s)
    ensures Or(a, b * Pow2(s)) == a + b * Pow2(s)
  {
    if s == 0 {
      assert Pow2(0) == 1;
      OrZero(b);
    } else {
      Pow2Step(s - 1);
      var p := Pow2(s - 1);
      assert b * Pow2(s) == 2 * (b * p);
      assert (b * Pow2(s)) / 2 == b * p && (b * Pow2(s)) % 2 == 0;
      OrAbove(a / 2, b, s - 1);
    }
  }

  lemma {:induction false} OrZero(b: nat)
    ensures Or(0, b) == b
  {
    if b > 0 { OrZero(b / 2); }
  }

  /** mp_from_bytes_be. */
  method FromBytesBe(bytes: seq<Byte>) returns (n: MpInt)
    ensures fresh(n.mem) && n.Valid() && n.nw == Max(CeilDiv(|bytes|, BIGNUM_INT_BYTES), 1) && n.Value() == BigEndian(bytes)
  {
    hide Nat, Base, Pow, Pow2, MpInt.Words, MpInt.Value, BigEndian, CeilDiv;
    var len := |bytes|;
    var nw := Max(CeilDiv(len, BIGNUM_INT_BYTES), 1);
    n := MakeSized(nw);
    var i := 0;
    NoBytes(bytes);
    while i < len
      invariant 0 <= i <= len
      invariant n.Value() == BigEndian(bytes[len - i..])
    {
      WordForByte(len, i);
      OrInByte(n, i, bytes[len - 1 - i], bytes[len - i..]);
      OneMoreByte(bytes, i);
      i := i + 1;
    }
    assert bytes[0..] == bytes;
  }

  lemma WordForByte(len: nat, i: nat)
    requires i < len
    ensures 0 <= i / BIGNUM_INT_BYTES < CeilDiv(len, BIGNUM_INT_BYTES)
  {
    hide CeilDiv;
    CeilDivBounds(len, BIGNUM_INT_BYTES);
    DivNonNeg(i, BIGNUM_INT_BYTES);
    DivLt(i, BIGNUM_INT_BYTES, CeilDiv(len, BIGNUM_INT_BYTES));
  }

  lemma NoBytes(bytes: seq<Byte>)
    ensures BigEndian(bytes[|bytes|..]) == 0
  {
  }

  lemma OneMoreByte(bytes: seq<Byte>, i: nat)
    requires i < |bytes|
    ensures var len := |bytes|; BigEndian(bytes[len - i - 1..]) == BigEndian(bytes[len - i..]) + bytes[len - 1 - i] * Pow(256, i)
  {
    var len := |bytes|;
    var s := bytes[len - i - 1..];
    assert s[1..] == bytes[len - i..];
    FrontByte(s);
  }

  lemma {:induction false} FrontByte(s: seq<Byte>)
    requires |s| > 0
    ensures BigEndian(s) == s[0] * Pow(256, |s| - 1) + BigEndian(s[1..])
  {
    if |s| == 1 {
      assert s[..0] == [] && Pow(256, 0) == 1;
    } else {
      var init := s[..|s| - 1];
      FrontByte(init);
      assert init[1..] == s[1..][..|s| - 2];
      assert Pow(256, |s| - 1) == 256 * Pow(256, |s| - 2);
      MulAssoc(s[0], 256, Pow(256, |s| - 2));
    }
  }

  method OrInByte(n: MpInt, i: nat, b: Byte, ghost low: seq<Byte>)
    requires n.Valid() && i / BIGNUM_INT_BYTES < n.nw && |low| == i && n.Value() == BigEndian(low)
    modifies n.mem
    ensures n.Value() == BigEndian(low) + b * Pow(256, i)
  {
    hide Nat, Base, Pow, Pow2, BigEndian, Or;
    ghost var s := n.Words();
    ByteOfWord(Nat(s), i);
    var k, o := i / BIGNUM_INT_BYTES, 8 * (i % BIGNUM_INT_BYTES);
    BigEndianBound(low);
    ByteBase(i);
    LowWord(s, k, o, i);
    var w := n.WordOf(k);
    OrAbove(w, b, o);
    ByteFits(w, b, o);
    SetWord(n, k, Or(w, b * Pow2(o)));
    NatUpdate(s, k, Or(w, b * Pow2(o)));
    SplitShift(0, 8 * i);
    MulAssoc(b, Pow2(o), Base(k));
  }

  /** A number below 256^i has nothing in word k from bit o on. */
  lemma LowWord(s: seq<Word>, k: nat, o: nat, i: nat)
    requires k < |s| && Nat(s) < Pow2(8 * i) && (8 * i) / BIGNUM_INT_BITS == k && (8 * i) % BIGNUM_INT_BITS == o
    ensures s[k] < Pow2(o)
  {
    hide Nat, Base, Pow2, WordAt;
    SplitShift(Nat(s), 8 * i);
    NatDigit(s, k);
    assert WordAt(s, k) == s[k] by { AtIndex(s, k); }
    var y := Nat(s) / Base(k);
    DivNonNeg(Nat(s), Base(k));
    DivLt(Nat(s), Base(k), Pow2(o));
    BaseSplit(o);
    MaskFits(y, BASE);
  }

  lemma AtIndex(s: seq<Word>, k: nat)
    requires k < |s|
    ensures WordAt(s, k) == s[k]
  {
  }

  lemma ByteFits(w: nat, b: Byte, o: nat)
    requires w < Pow2(o) && o + 8 <= BIGNUM_INT_BITS
    ensures 0 <= b * Pow2(o) && w + b * Pow2(o) < BASE
  {
    hide Pow2;
    Pow2Add(o, 8);
    Pow2At8();
    BaseSplit(o + 8);
    MulLe(b + 1, 256, Pow2(o));
    Distribute(Pow2(o), b, 1);
    MulLe(1, Pow2(BIGNUM_INT_BITS - o - 8), Pow2(o + 8));
    MulLe(0, b, Pow2(o));
  }

  /** BinarySource_get_mp_ssh2. */
  method ReadMpSsh2(src: BinarySource) returns (x: MpInt)
    requires src.State().Valid()
    modifies src`pos, src`err
    ensures fresh(x.mem) && x.Valid() && (x.Value(), src.State()) == GetMpSsh2(old(src.State()))
  {
    hide Nat, MpInt.Words, MpInt.Value, BigEndian, GetString;
    var bytes := src.ReadString();
    if src.err != NoError {
      x := MakeSized(1);
    } else if |bytes| > 0 && (bytes[0] >= 128 || (bytes[0] == 0 && (|bytes| <= 1 || bytes[1] < 128))) {
      src.err := Invalid;
      x := MakeSized(1);
    } else {
      x := FromBytesBe(bytes);
    }
  }

  /** BinarySource_get_mp_ssh1. */
  method ReadMpSsh1(src: BinarySource) returns (x: MpInt)
    requires src.State().Valid()
    modifies src`pos, src`err
    ensures fresh(x.mem) && x.Valid() && (x.Value(), src.State()) == GetMpSsh1(old(src.State()))
  {
    hide Nat, MpInt.Words, MpInt.Value, BigEndian, GetData, HasBits;
    var bitc := src.ReadUint(2);
    var bytes := src.ReadData((bitc + 7) / 8);
    if src.err != NoError {
      x := MakeSized(1);
    } else {
      x := FromBytesBe(bytes);
      var bits := GetNbits(x);
      NbitsBounds(x.Value());
      BitsUnique(x.Value(), bits, Nbits(x.Value()));
      if bits > bitc {
        src.err := Invalid;
        x := MakeSized(1);
      }
    }
  }
}
