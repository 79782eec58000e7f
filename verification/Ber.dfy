/**
 ASN.1 BER headers: an identifier with its flags, and a length.
 */
module Ber {
  import opened Arithmetic
  import opened Bytes
  import opened Marshal
  import Wire

  // -------------------------------------------------------------------------- writing

  /** The least n from 1 up for which v >> (n * bits) is 0: how many digits v has, to the given base. */
  function DigitCount(v: nat, base: nat): (n: nat)
    requires 1 < base
    ensures 0 < n
  {
    if v < base then 1
    else
      DivNonNeg(v, base);
      DivLt(v, base, v);
      Smaller(v, base);
      1 + DigitCount(v / base, base)
  }

  lemma Smaller(v: nat, base: nat)
    requires 1 < base && 0 < v
    ensures 0 <= v / base < v
  {
    DivNonNeg(v, base);
    MulLt(1, base, v);
    DivLt(v, base, v);
  }

  lemma {:induction false} DigitCountBound(v: nat, base: nat)
    requires 1 < base
    ensures v < Pow(base, DigitCount(v, base))
  {
    if v < base {
      assert Pow(base, 1) == base * Pow(base, 0);
    } else {
      Smaller(v, base);
      DigitCountBound(v / base, base);
      var n := DigitCount(v / base, base);
      DivLt(v, base, Pow(base, n));
    }
  }

  lemma {:induction false} DigitCountLeast(v: nat, base: nat)
    requires 1 < base && 0 < v
    ensures Pow(base, DigitCount(v, base) - 1) <= v
  {
    if v < base {
      assert Pow(base, 0) == 1;
    } else {
      Smaller(v, base);
      DivLt(v, base, 1);
      DigitCountLeast(v / base, base);
      var n := DigitCount(v / base, base);
      DivLt(v, base, Pow(base, n - 1));
      assert Pow(base, n) == base * Pow(base, n - 1);
    }
  }

  /** The seven-bit groups before the last, each with the top bit set. */
  function Continued(v: nat, n: nat): (s: seq<Byte>)
    ensures |s| == n
  {
    if n == 0 then [] else Continued(v / 128, n - 1) + [128 + v % 128]
  }

  function IdBytes(id: nat, flags: nat): seq<Byte>
    requires flags % 32 == 0 && flags < 256
  {
    if id <= 30 then [id + flags]
    else [31 + flags] + Continued(id / 128, DigitCount(id, 128) - 1) + [id % 128]
  }

  function LengthBytes(length: nat): seq<Byte>
    requires DigitCount(length, 256) < 128
  {
    if length < 128 then [length] else [128 + DigitCount(length, 256)] + Put(length, DigitCount(length, 256))
  }

  /** put_ber_id_len. */
  method PutBerIdLen(bs: BinarySink, id: nat, length: nat, flags: nat)
    requires flags % 32 == 0 && flags < 256 && id < 0x1000_0000 && length < 0x100_0000
    modifies bs
    ensures DigitCount(length, 256) < 128 && bs.out == old(bs.out) + IdBytes(id, flags) + LengthBytes(length)
  {
    hide Put, Continued, Pow;
    FewDigits(length);
    if id <= 30 {
      bs.PutByte(id + flags);
    } else {
      PutLongId(bs, id, flags);
    }
    if length < 128 {
      bs.PutByte(length);
    } else {
      var n := CountDigits(length, 256);
      bs.PutByte(128 + n);
      PutDigits(bs, length, n);
    }
  }

  lemma FewDigits(length: nat)
    requires length < 0x100_0000
    ensures DigitCount(length, 256) <= 3
  {
    CountStart(length, 256);
    CountStart(length / 256, 256);
    CountStart(length / 256 / 256, 256);
    assert length / 256 / 256 / 256 == 0;
  }

  /** for (n = 1; (v >> (bits * n)) > 0; n++). */
  method CountDigits(v: nat, base: nat) returns (n: nat)
    requires 1 < base
    ensures n == DigitCount(v, base)
  {
    n := 1;
    var rest := v / base;
    DivNonNeg(v, base);
    CountStart(v, base);
    while rest > 0
      invariant 0 < n && 0 <= rest
      invariant DigitCount(v, base) == n + if rest == 0 then 0 else DigitCount(rest, base)
      decreases rest
    {
      CountStart(rest, base);
      Smaller(rest, base);
      rest := rest / base;
      n := n + 1;
    }
  }

  lemma CountStart(v: nat, base: nat)
    requires 1 < base
    ensures 0 <= v / base && DigitCount(v, base) == 1 + if v / base == 0 then 0 else DigitCount(v / base, base)
  {
    DivNonNeg(v, base);
    DivLt(v, base, 1);
  }

  method PutLongId(bs: BinarySink, id: nat, flags: nat)
    requires flags % 32 == 0 && flags < 256 && 30 < id
    modifies bs
    ensures bs.out == old(bs.out) + IdBytes(id, flags)
  {
    hide Pow, Continued, IdBytes;
    bs.PutByte(31 + flags);
    var n := CountDigits(id, 128);
    var k := n;
    ghost var out := bs.out;
    ContinuedNone(id, n);
    while k > 1
      invariant 1 <= k <= n && 0 < Pow(128, k) && 0 <= id / Pow(128, k)
      invariant bs.out == out + Continued(id / Pow(128, k), n - k)
      decreases k
    {
      k := k - 1;
      NextGroup(id, k, n - k);
      bs.PutByte(128 + id / Pow(128, k) % 128);
    }
    LongId(id, flags);
    bs.PutByte(id % 128);
    assert bs.out == old(bs.out) + ([31 + flags] + Continued(id / 128, n - 1) + [id % 128]);
  }

  lemma ContinuedNone(v: nat, n: nat)
    ensures 0 < Pow(128, n) && 0 <= v / Pow(128, n) && Continued(v / Pow(128, n), 0) == []
  {
    PowPos(128, n);
    DivNonNeg(v, Pow(128, n));
  }

  lemma NextGroup(v: nat, i: nat, k: nat)
    requires 0 < k
    ensures 0 < Pow(128, i) && 0 < Pow(128, i + 1) && 0 <= v / Pow(128, i) && 0 <= v / Pow(128, i + 1)
    ensures Continued(v / Pow(128, i), k) == Continued(v / Pow(128, i + 1), k - 1) + [128 + v / Pow(128, i) % 128]
  {
    hide Pow;
    PowPos(128, i);
    PowPos(128, i + 1);
    PowAdd(128, i, 1);
    assert Pow(128, 1) == 128 by { PowAtOne(128); }
    DivNonNeg(v, Pow(128, i));
    DivNonNeg(v, Pow(128, i + 1));
    DivDiv(v, Pow(128, i), 128);
  }

  lemma LongId(id: nat, flags: nat)
    requires flags % 32 == 0 && flags < 256 && 30 < id
    ensures Pow(128, 1) == 128
    ensures IdBytes(id, flags) == [31 + flags] + Continued(id / 128, DigitCount(id, 128) - 1) + [id % 128]
  {
    PowAtOne(128);
  }

  /** while (n--) put_byte(bs, (v >> (8*n)) & 0xFF). */
  method PutDigits(bs: BinarySink, v: nat, n: nat)
    modifies bs
    ensures bs.out == old(bs.out) + Put(v, n)
  {
    hide Pow, Put;
    var i := n;
    PowPos(256, i);
    DivNonNeg(v, Pow(256, i));
    Wire.PutNone(v / Pow(256, i));
    while i > 0
      invariant 0 <= i <= n && 0 < Pow(256, i) && 0 <= v / Pow(256, i)
      invariant bs.out == old(bs.out) + Put(v / Pow(256, i), n - i)
    {
      i := i - 1;
      Wire.NextByte(v, i, n - i);
      bs.PutByte(v / Pow(256, i) % 256);
    }
    Wire.WholeNumber(v);
  }

  // -------------------------------------------------------------------------- reading

  datatype BerItem = BerItem(id: nat, flags: nat, data: seq<Byte>)

  /** A byte other than 0 was really there. */
  lemma ByteRead(s: Source)
    requires s.Valid()
    ensures var (b, s') := GetUint(s, 1);
            && b < 256 && s'.data == s.data && s.pos <= s'.pos && (b != 0 ==> s'.pos == s.pos + 1)
  {
    var (d, s') := GetData(s, 1);
    BigEndianBound(d);
    Pow256();
    if |d| == 0 {
      assert BigEndian(d) == 0;
      assert Pow(256, 0) == 1;
    }
  }

  /** The loop that reads a long identifier: seven bits from each byte, up to one without the top bit. */
  function ReadId(s: Source, id: nat): (r: (nat, Source))
    requires s.Valid()
    ensures r.1.Valid()
    decreases |s.data| - s.pos
  {
    var (b, s') := GetUint(s, 1);
    ByteRead(s);
    if b >= 128 then ReadId(s', id * 128 + b % 128) else (id * 128 + b, s')
  }

  /** The loop that reads a long length, in a size_t. */
  function ReadLength(s: Source, n: nat, length: nat): (r: (nat, Source))
    requires s.Valid()
    ensures r.1.Valid()
    decreases n
  {
    if n == 0 then (length, s)
    else
      var (b, s') := GetUint(s, 1);
      ReadLength(s', n - 1, (length * 256 + b) % TWO64)
  }

  /** BinarySource_get_ber. */
  function GetBer(s: Source): (r: (BerItem, Source))
    requires s.Valid()
    ensures r.1.Valid()
  {
    var (lead, s1) := GetUint(s, 1);
    var (id, s2) := if lead % 32 == 31 then ReadId(s1, 0) else (lead % 32, s1);
    var (lenbyte, s3) := GetUint(s2, 1);
    var (length, s4) := if lenbyte >= 128 then ReadLength(s3, lenbyte - 128, 0) else (lenbyte, s3);
    var (data, s5) := GetData(s4, length);
    (BerItem(id, lead - lead % 32, data), s5)
  }

  method ReadLongId(src: BinarySource) returns (id: nat)
    requires src.State().Valid()
    modifies src`pos, src`err
    ensures src.State().Valid() && (id, src.State()) == ReadId(old(src.State()), 0)
  {
    hide GetUint;
    id := 0;
    var idbyte := 128;
    while idbyte >= 128
      invariant src.State().Valid()
      invariant ReadId(old(src.State()), 0) == if idbyte >= 128 then ReadId(src.State(), id) else (id, src.State())
      decreases if idbyte >= 128 then 1 + |src.data| - src.pos else 0
    {
      ByteRead(src.State());
      idbyte := src.ReadUint(1);
      id := id * 128 + idbyte % 128;
    }
  }

  method ReadLongLength(src: BinarySource, n: nat) returns (length: nat)
    requires src.State().Valid()
    modifies src`pos, src`err
    ensures src.State().Valid() && (length, src.State()) == ReadLength(old(src.State()), n, 0)
  {
    hide GetUint;
    var nbytes := n;
    length := 0;
    while nbytes > 0
      invariant src.State().Valid() && 0 <= nbytes
      invariant ReadLength(old(src.State()), n, 0) == ReadLength(src.State(), nbytes, length)
    {
      var b := src.ReadUint(1);
      length := (length * 256 + b) % TWO64;
      nbytes := nbytes - 1;
    }
  }

  /** BinarySource_get_ber. */
  method ReadBer(src: BinarySource) returns (item: BerItem)
    requires src.State().Valid()
    modifies src`pos, src`err
    ensures (item, src.State()) == GetBer(old(src.State()))
  {
    hide GetUint, GetData, ReadId, ReadLength;
    var lead := src.ReadUint(1);
    var id, length := lead % 32, 0;
    if lead % 32 == 31 {
      id := ReadLongId(src);
    }
    var lenbyte := src.ReadUint(1);
    if lenbyte >= 128 {
      length := ReadLongLength(src, lenbyte - 128);
    } else {
      length := lenbyte;
    }
    var data := src.ReadData(length);
    item := BerItem(id, lead - lead % 32, data);
  }

  // ----------------------------------------------------------------------- round trip

  lemma OneByteBack(s: Source, b: Byte, rest: seq<Byte>)
    requires Before(s, [b], rest)
    ensures s.pos < |s.data| && GetUint(s, 1) == (b, s.Advance(1)) && Before(s.Advance(1), [], rest)
  {
    hide BigEndian, Put;
    Pow256();
    OneByte(b);
    GetUintBack(s, b, 1, rest);
  }

  lemma AfterEmpty(s: Source, d: seq<Byte>, rest: seq<Byte>)
    requires Before(s, [], d + rest)
    ensures Before(s, d, rest) && s.pos + |d| <= |s.data|
  {
    assert [] + (d + rest) == d + rest;
  }

  /** Reading the groups of an identifier adds them to what has been read. */
  lemma {:induction false} GroupsBack(s: Source, id: nat, v: nat, n: nat, rest: seq<Byte>)
    requires Before(s, Continued(v, n), rest) && v < Pow(128, n)
    ensures s.pos + n <= |s.data| && Before(s.Advance(n), [], rest)
    ensures ReadId(s, id) == ReadId(s.Advance(n), id * Pow(128, n) + v)
    decreases n
  {
    hide GetUint, Before, Pow;
    if n == 0 {
      NoGroups(s, id, v, rest);
    } else {
      var init, last: Byte := Continued(v / 128, n - 1), 128 + v % 128;
      assert Continued(v, n) == init + [last];
      Reassociate(s, init, [last], rest);
      PowAdd(128, n - 1, 1);
      PowAtOne(128);
      GroupsBack(s, id, v / 128, n - 1, [last] + rest);
      var s' := s.Advance(n - 1);
      AfterEmpty(s', [last], rest);
      OneByteBack(s', last, rest);
      assert s'.Advance(1) == s.Advance(n);
      GroupArith(id, Pow(128, n - 1), v);
    }
  }

  lemma NoGroups(s: Source, id: nat, v: nat, rest: seq<Byte>)
    requires Before(s, Continued(v, 0), rest) && v < Pow(128, 0)
    ensures s.pos <= |s.data| && s.Advance(0) == s && Before(s, [], rest) && id * Pow(128, 0) + v == id
  {
    assert Pow(128, 0) == 1;
  }

  lemma GroupArith(id: nat, p: nat, v: nat)
    ensures (id * p + v / 128) * 128 + v % 128 == id * (p * 128) + v
  {
    Distribute(128, id * p, v / 128);
    MulAssoc(id, p, 128);
  }

  /** Likewise the bytes of a length, as long as it fits. */
  lemma {:induction false} LengthBack(s: Source, v: nat, n: nat, m: nat, rest: seq<Byte>)
    requires Before(s, Put(v, n), rest) && v < Pow(256, n) && v < TWO64
    ensures s.pos + n <= |s.data| && Before(s.Advance(n), [], rest)
    ensures ReadLength(s, n + m, 0) == ReadLength(s.Advance(n), m, v)
    decreases n
  {
    hide GetUint, Before, Pow;
    if n == 0 {
      NoLength(s, v, rest);
    } else {
      var init, last: Byte := Put(v / 256, n - 1), v % 256;
      assert Put(v, n) == init + [last];
      Reassociate(s, init, [last], rest);
      PowAdd(256, n - 1, 1);
      PowAtOne(256);
      LengthBack(s, v / 256, n - 1, m + 1, [last] + rest);
      var s' := s.Advance(n - 1);
      AfterEmpty(s', [last], rest);
      OneByteBack(s', last, rest);
      assert s'.Advance(1) == s.Advance(n);
      assert (v / 256 * 256 + last) % TWO64 == v;
    }
  }

  lemma NoLength(s: Source, v: nat, rest: seq<Byte>)
    requires Before(s, Put(v, 0), rest) && v < Pow(256, 0)
    ensures s.pos <= |s.data| && s.Advance(0) == s && Before(s, [], rest) && v == 0
  {
    assert Pow(256, 0) == 1;
  }

  lemma IdBack(s: Source, id: nat, flags: nat, rest: seq<Byte>)
    requires flags % 32 == 0 && flags < 256 && Before(s, IdBytes(id, flags), rest)
    ensures var n := |IdBytes(id, flags)|;
            && s.pos + n <= |s.data| && Before(s.Advance(n), [], rest)
            && (var (lead, s1) := GetUint(s, 1);
                && lead - lead % 32 == flags
                && (if lead % 32 == 31 then ReadId(s1, 0) else (lead % 32, s1)) == (id, s.Advance(n)))
  {
    hide GetUint, Before, Pow, ReadId;
    if id <= 30 {
      OneByteBack(s, id + flags, rest);
    } else {
      var n, lead: Byte, last: Byte := DigitCount(id, 128), 31 + flags, id % 128;
      var groups := Continued(id / 128, n - 1);
      assert IdBytes(id, flags) == [lead] + (groups + [last]);
      Reassociate(s, [lead], groups + [last], rest);
      OneByteBack(s, lead, groups + [last] + rest);
      var s1 := s.Advance(1);
      AfterEmpty(s1, groups + [last], rest);
      Reassociate(s1, groups, [last], rest);
      GroupsFit(id);
      GroupsBack(s1, 0, id / 128, n - 1, [last] + rest);
      var s2 := s1.Advance(n - 1);
      AfterEmpty(s2, [last], rest);
      OneByteBack(s2, last, rest);
      LastRead(s2, id / 128, last);
      assert s2.Advance(1) == s.Advance(n + 1);
    }
  }

  lemma GroupsFit(id: nat)
    requires 30 < id
    ensures id / 128 < Pow(128, DigitCount(id, 128) - 1) && 0 * Pow(128, DigitCount(id, 128) - 1) + id / 128 == id / 128
  {
    DigitCountBound(id, 128);
    var n := DigitCount(id, 128);
    assert Pow(128, n) == 128 * Pow(128, n - 1);
  }

  lemma LastRead(s: Source, id: nat, last: Byte)
    requires s.Valid() && last < 128 && s.pos < |s.data| && GetUint(s, 1) == (last as nat, s.Advance(1))
    ensures ReadId(s, id) == (id * 128 + last, s.Advance(1))
  {
  }

  lemma LengthBytesBack(s: Source, length: nat, rest: seq<Byte>)
    requires length < 0x100_0000 && DigitCount(length, 256) < 128 && Before(s, LengthBytes(length), rest)
    ensures var n := |LengthBytes(length)|;
            && s.pos + n <= |s.data| && Before(s.Advance(n), [], rest)
            && (var (lenbyte, s1) := GetUint(s, 1);
                lenbyte < 256 && (if lenbyte >= 128 then ReadLength(s1, lenbyte - 128, 0) else (lenbyte, s1)) == (length, s.Advance(n)))
  {
    hide GetUint, Before, Pow, Put;
    if length < 128 {
      OneByteBack(s, length, rest);
    } else {
      var n := DigitCount(length, 256);
      var first: Byte := 128 + n;
      Reassociate(s, [first], Put(length, n), rest);
      OneByteBack(s, first, Put(length, n) + rest);
      var s1 := s.Advance(1);
      AfterEmpty(s1, Put(length, n), rest);
      DigitCountBound(length, 256);
      LengthBack(s1, length, n, 0, rest);
      assert s1.Advance(n) == s.Advance(n + 1);
    }
  }

  /** A header and its content, read back: identifier, flags and content are those written, and exactly they are consumed. */
  lemma BerRoundTrip(s: Source, id: nat, flags: nat, content: seq<Byte>, rest: seq<Byte>)
    requires flags % 32 == 0 && flags < 256 && id < 0x1000_0000 && |content| < 0x100_0000 && DigitCount(|content|, 256) < 128
    requires Before(s, IdBytes(id, flags) + (LengthBytes(|content|) + content), rest)
    ensures GetBer(s).0 == BerItem(id, flags, content)
    ensures GetBer(s).1.err == NoError && GetBer(s).1.Left() == rest
  {
    hide GetUint, GetData, Before, ReadId, ReadLength, IdBytes, LengthBytes;
    var a, b := IdBytes(id, flags), LengthBytes(|content|);
    Reassociate(s, a, b + content, rest);
    assert b + content + rest == b + (content + rest);
    IdBack(s, id, flags, b + (content + rest));
    var s2 := s.Advance(|a|);
    AfterEmpty(s2, b, content + rest);
    LengthBytesBack(s2, |content|, content + rest);
    var s4 := s2.Advance(|b|);
    AfterEmpty(s4, content, rest);
    GetDataBack(s4, content, rest);
    Finished(s4.Advance(|content|), rest);
  }

  lemma Finished(s: Source, rest: seq<Byte>)
    requires Before(s, [], rest)
    ensures s.err == NoError && s.Valid() && s.Left() == rest
  {
  }
}
