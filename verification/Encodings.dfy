/**
 The formats that a BinarySource understands, described by their bytes alone, and
 the proof that each read accepts exactly its format.
 */
module Encodings {
  import opened Arithmetic
  import opened Bytes
  import opened Marshal
  import opened Wire
  import opened Ber
  import opened Reads

  // ----------------------------------------------------------------------- the formats

  /** The number in the low seven bits of each byte, most significant first. */
  function Sevens(d: seq<Byte>): nat {
    if |d| == 0 then 0 else Sevens(d[..|d| - 1]) * 128 + d[|d| - 1] % 128
  }

  /** The bytes of a long identifier: the last one, and only that, has its top bit clear. */
  ghost predicate IsGroups(d: seq<Byte>) {
    |d| > 0 && d[|d| - 1] < 128 && forall i :: 0 <= i < |d| - 1 ==> d[i] >= 128
  }

  /** The first part of a BER header. */
  ghost predicate IsIdentifier(d: seq<Byte>, id: nat, flags: nat) {
    |d| > 0 && flags == d[0] - d[0] % 32 && if d[0] % 32 == 31 then IsGroups(d[1..]) && id == Sevens(d[1..]) else |d| == 1 && id == d[0] % 32
  }

  /** The second part: one byte, or a count of bytes and then those bytes, as a size_t holds their number. */
  ghost predicate IsLength(d: seq<Byte>, length: nat) {
    |d| > 0 && if d[0] < 128 then |d| == 1 && length == d[0] else |d| == d[0] - 127 && length == BigEndian(d[1..]) % TWO64
  }

  ghost predicate IsItem(d: seq<Byte>, item: BerItem) {
    exists i, j :: 0 <= i <= j <= |d| && SplitsAt(d, item, i, j)
  }

  ghost predicate SplitsAt(d: seq<Byte>, item: BerItem, i: nat, j: nat)
    requires i <= j <= |d|
  {
    IsIdentifier(d[..i], item.id, item.flags) && IsLength(d[i..j], |d| - j) && item.data == d[j..]
  }

  /** A line: what stands before the newline, or before the end of the data if that comes first, less one carriage return. */
  ghost predicate IsLine(d: seq<Byte>, line: seq<Byte>, rest: seq<Byte>) {
    var body := if |d| > 0 && d[|d| - 1] == 10 then d[..|d| - 1] else d;
    && 10 !in body && (|body| == |d| ==> rest == [])
    && (body == line + [13] || (body == line && (line == [] || line[|line| - 1] != 13)))
  }

  /** The read, standing before the bytes d and then rest, is to deliver v and to consume d. */
  ghost predicate Encodes(op: Read, v: Delivered, d: seq<Byte>, rest: seq<Byte>) {
    match op
    case Data(n) => |d| == n && v == Content(d)
    case Uint(k) => |d| == k && v == Number(BigEndian(d))
    case String => |d| >= 4 && |d| - 4 == BigEndian(d[..4]) && v == Content(d[4..])
    case Pstring => |d| >= 1 && |d| - 1 == d[0] && v == Content(d[1..])
    case Asciz => |d| >= 1 && d[|d| - 1] == 0 && 0 !in d[..|d| - 1] && v == Content(d[..|d| - 1])
    case Chars(chars, wanted) =>
      v == Content(d) && (forall b :: b in d ==> (b in chars) == wanted) && |rest| > 0 && (rest[0] in chars) != wanted
    case ChompedLine => v.Content? && IsLine(d, v.d, rest)
    case MpSsh1 =>
      |d| >= 2 && var bits := 256 * (d[0] as nat) + d[1] as nat; |d| - 2 == (bits + 7) / 8 && v == Number(BigEndian(d[2..])) && v.v < Pow2(bits)
    case MpSsh2 => |d| >= 4 && |d| - 4 == BigEndian(d[..4]) && v == Number(BigEndian(d[4..])) && IsPositive(d[4..])
    case Item => v.Element? && IsItem(d, v.item)
  }

  /** The bytes of an integer without a sign bit, and without a zero in front that the sign bit does not ask for. */
  ghost predicate IsPositive(d: seq<Byte>) {
    |d| > 0 ==> d[0] <= 127 && (d[0] > 0 || (|d| >= 2 && d[1] > 127))
  }

  // ------------------------------------------------------------------- the simple reads

  lemma SoundData(s: Source, n: nat)
    requires s.Valid() && s.err == NoError && GetData(s, n).1.err == NoError
    ensures var (d, s') := GetData(s, n); s' == s.Advance(n) && d == s.data[s.pos..s.pos + n]
  {
  }

  lemma SoundUint(s: Source, k: nat)
    requires s.Valid() && s.err == NoError && GetUint(s, k).1.err == NoError
    ensures var (v, s') := GetUint(s, k); s.pos + k <= |s.data| && s' == s.Advance(k) && v == BigEndian(s.data[s.pos..s.pos + k])
  {
    hide BigEndian;
    SoundData(s, k);
  }

  /** A string is four bytes that say its length, and as many more. */
  lemma SoundString(s: Source)
    requires s.Valid() && s.err == NoError && GetString(s).1.err == NoError
    ensures var (d, s') := GetString(s);
            && s.data == s'.data && s.pos + 4 + |d| == s'.pos && d == s.data[s.pos + 4..s'.pos]
            && |d| == BigEndian(s.data[s.pos..s.pos + 4])
  {
    hide BigEndian, GetData, GetUint;
    var (len, s1) := GetUint(s, 4);
    SoundUint(s, 4);
    SoundData(s1, len);
  }

  lemma SoundPstring(s: Source)
    requires s.Valid() && s.err == NoError && GetPstring(s).1.err == NoError
    ensures var (d, s') := GetPstring(s);
            && s.data == s'.data && s.pos + 1 + |d| == s'.pos && d == s.data[s.pos + 1..s'.pos] && |d| == s.data[s.pos]
  {
    hide BigEndian, GetData, GetUint;
    var (len, s1) := GetUint(s, 1);
    SoundUint(s, 1);
    OneDigit(s.data[s.pos..s.pos + 1]);
    SoundData(s1, len);
  }

  lemma OneDigit(d: seq<Byte>)
    requires |d| == 1
    ensures BigEndian(d) == d[0]
  {
    assert BigEndian(d[..0]) == 0;
  }

  lemma TwoDigits(d: seq<Byte>)
    requires |d| == 2
    ensures BigEndian(d) == 256 * (d[0] as nat) + d[1] as nat
  {
    OneDigit(d[..1]);
  }

  lemma SoundAsciz(s: Source)
    requires s.Valid() && s.err == NoError && GetAsciz(s).1.err == NoError
    ensures var (v, s') := GetAsciz(s);
            && s.data == s'.data && s.pos + 1 + |v| == s'.pos <= |s.data|
            && var d := s.data[s.pos..s'.pos]; d[|d| - 1] == 0 && 0 !in d[..|d| - 1] && v == d[..|d| - 1]
  {
    hide FindByte;
    var n := FindByte(s.Left(), 0);
    var d := s.data[s.pos..s.pos + n + 1];
    assert d[..n] == s.Left()[..n];
  }

  lemma SoundChars(s: Source, chars: set<Byte>, wanted: bool)
    requires s.Valid() && s.err == NoError && GetChars(s, chars, wanted).1.err == NoError
    ensures var (v, s') := GetChars(s, chars, wanted);
            && s.data == s'.data && s.pos + |v| == s'.pos < |s.data| && v == s.data[s.pos..s'.pos]
            && (forall b :: b in v ==> (b in chars) == wanted) && (s.data[s'.pos] in chars) != wanted
  {
    hide SpanLength;
    var n := SpanLength(s.Left(), chars, wanted);
    assert s.data[s.pos..s.pos + n] == s.Left()[..n];
  }

  lemma SoundLine(s: Source)
    requires s.Valid() && s.err == NoError
    ensures var (v, s') := GetChompedLine(s);
            s.data == s'.data && s.pos <= s'.pos && s'.err == NoError && IsLine(s.data[s.pos..s'.pos], v, s'.Left())
  {
    hide FindByte, IsLine;
    var n := FindByte(s.Left(), 10);
    var (v, s') := GetChompedLine(s);
    assert s.Left()[..n] == s.data[s.pos..s.pos + n];
    assert s'.Left() == s.data[s'.pos..];
    LineIs(s.data[s.pos..s'.pos], s.Left()[..n], v, s'.Left());
  }

  lemma LineIs(d: seq<Byte>, body: seq<Byte>, line: seq<Byte>, rest: seq<Byte>)
    requires 10 !in body && (d == body + [10] || (d == body && rest == []))
    requires line == if |body| > 0 && body[|body| - 1] == 13 then body[..|body| - 1] else body
    ensures IsLine(d, line, rest)
  {
    if d == body {
      assert |d| > 0 ==> d[|d| - 1] in body;
    } else {
      assert d[..|d| - 1] == body;
    }
    if |body| > 0 && body[|body| - 1] == 13 {
      assert body == line + [13];
    }
  }

  lemma SoundSsh1(s: Source)
    requires s.Valid() && s.err == NoError && GetMpSsh1(s).1.err == NoError
    ensures var (v, s') := GetMpSsh1(s);
            && s.data == s'.data && s.pos + 2 <= s'.pos <= |s.data|
            && var d := s.data[s.pos..s'.pos]; Encodes(MpSsh1, Number(v), d, s'.Left())
  {
    hide BigEndian, GetData, GetUint, Nbits, Pow2;
    var (bits, s1) := GetUint(s, 2);
    if s1.err != NoError {
      ErrorsStay(s1, (bits + 7) / 8);
    }
    SoundUint(s, 2);
    var (e, s2) := GetData(s1, (bits + 7) / 8);
    SoundData(s1, (bits + 7) / 8);
    var d := s.data[s.pos..s2.pos];
    assert d[..2] == s.data[s.pos..s.pos + 2] && d[2..] == e;
    TwoDigits(d[..2]);
    BitsWithin(BigEndian(e), bits);
  }

  lemma ErrorsStay(s: Source, n: nat)
    requires s.Valid() && s.err != NoError
    ensures GetData(s, n) == ([], s)
  {
  }

  lemma BitsWithin(v: nat, bits: nat)
    ensures Nbits(v) <= bits <==> v < Pow2(bits)
  {
    hide Nbits, Pow2;
    var n := Nbits(v);
    NbitsBounds(v);
    Pow2Positive(bits);
    if n <= bits {
      Pow2Le(n, bits);
    } else {
      Pow2Le(bits, n - 1);
    }
  }

  lemma SoundSsh2(s: Source)
    requires s.Valid() && s.err == NoError && GetMpSsh2(s).1.err == NoError
    ensures var (v, s') := GetMpSsh2(s);
            && s.data == s'.data && s.pos + 4 <= s'.pos <= |s.data|
            && Encodes(MpSsh2, Number(v), s.data[s.pos..s'.pos], s'.Left())
  {
    hide BigEndian, GetString;
    SoundString(s);
    var (e, s') := GetString(s);
    var d := s.data[s.pos..s'.pos];
    assert d[..4] == s.data[s.pos..s.pos + 4] && d[4..] == e;
  }

  // ---------------------------------------------------------------------- BER items

  lemma {:induction false} FrontGroup(d: seq<Byte>)
    requires |d| > 0
    ensures Sevens(d) == d[0] % 128 * Pow(128, |d| - 1) + Sevens(d[1..])
  {
    if |d| == 1 {
      assert d[..0] == [] && Pow(128, 0) == 1;
    } else {
      var init := d[..|d| - 1];
      FrontGroup(init);
      assert init[1..] == d[1..][..|d| - 2];
      assert Pow(128, |d| - 1) == 128 * Pow(128, |d| - 2);
      MulAssoc(d[0] % 128, 128, Pow(128, |d| - 2));
    }
  }

  /** The loop over the bytes of an identifier, which adds them to what has been read. */
  lemma {:induction false} SoundId(s: Source, id: nat)
    requires s.Valid() && s.err == NoError && ReadId(s, id).1.err == NoError
    ensures var (v, s') := ReadId(s, id);
            && s.data == s'.data && s.pos < s'.pos <= |s.data|
            && var d := s.data[s.pos..s'.pos]; IsGroups(d) && v == id * Pow(128, |d|) + Sevens(d)
    decreases |s.data| - s.pos
  {
    hide BigEndian, GetUint, Pow, Sevens, IsGroups;
    var (b, s1) := GetUint(s, 1);
    ByteRead(s);
    IdErrorsStay(s1, id * 128 + b % 128);
    SoundUint(s, 1);
    OneDigit(s.data[s.pos..s.pos + 1]);
    if b >= 128 {
      SoundId(s1, id * 128 + b % 128);
    }
    var (v, s') := ReadId(s, id);
    var d := s.data[s.pos..s'.pos];
    assert d[1..] == s.data[s1.pos..s'.pos];
    GroupsFrom(d, id);
  }

  /** The first byte of an identifier, and the others. */
  lemma GroupsFrom(d: seq<Byte>, id: nat)
    requires |d| > 0
    ensures d[0] >= 128 ==> (IsGroups(d) <==> IsGroups(d[1..]))
    ensures d[0] < 128 ==> (IsGroups(d) <==> |d| == 1)
    ensures id * Pow(128, |d|) + Sevens(d) == (id * 128 + d[0] % 128) * Pow(128, |d| - 1) + Sevens(d[1..])
    ensures |d| == 1 ==> (id * 128 + d[0] % 128) * Pow(128, |d| - 1) + Sevens(d[1..]) == id * 128 + d[0] % 128
  {
    hide Pow, Sevens, IsGroups;
    GroupsTail(d);
    FrontGroup(d);
    PowPos(128, |d| - 1);
    PowAdd(128, 1, |d| - 1);
    PowAtOne(128);
    FoldGroup(id, d[0] % 128, Pow(128, |d| - 1), Sevens(d[1..]));
    if |d| == 1 {
      NoSevens(d[1..]);
    }
  }

  lemma GroupsTail(d: seq<Byte>)
    requires |d| > 0
    ensures d[0] >= 128 ==> (IsGroups(d) <==> IsGroups(d[1..]))
    ensures d[0] < 128 ==> (IsGroups(d) <==> |d| == 1)
  {
    var t := d[1..];
    assert forall i :: 0 < i < |d| ==> d[i] == t[i - 1];
    assert forall i :: 0 <= i < |t| ==> t[i] == d[i + 1];
  }

  lemma NoSevens(d: seq<Byte>)
    requires |d| == 0
    ensures Sevens(d) == 0 && Pow(128, 0) == 1
  {
  }

  lemma FoldGroup(id: nat, b: nat, p: nat, rest: nat)
    ensures (id * 128 + b) * p + rest == id * (128 * p) + (b * p + rest)
  {
    MulAssoc(id, 128, p);
  }

  lemma IdErrorsStay(s: Source, id: nat)
    requires s.Valid()
    ensures s.err != NoError ==> ReadId(s, id).1 == s
  {
    if s.err != NoError {
      assert BigEndian([]) == 0;
    }
  }

  lemma {:induction false} SoundLength(s: Source, n: nat, length: nat)
    requires s.Valid() && s.err == NoError && ReadLength(s, n, length).1.err == NoError && length < TWO64
    ensures var (v, s') := ReadLength(s, n, length);
            && s.data == s'.data && s.pos + n == s'.pos <= |s.data|
            && v == (length * Pow(256, n) + BigEndian(s.data[s.pos..s'.pos])) % TWO64
    decreases n
  {
    hide BigEndian, GetUint, Pow;
    if n == 0 {
      LengthNone(length, s.data[s.pos..s.pos]);
    } else {
      var (b, s1) := GetUint(s, 1);
      LengthOnward(s1, n - 1, (length * 256 + b) % TWO64);
      SoundUint(s, 1);
      OneDigit(s.data[s.pos..s.pos + 1]);
      SoundLength(s1, n - 1, (length * 256 + b) % TWO64);
      var d := s.data[s.pos..s.pos + n];
      assert d[0] == b && d[1..] == s.data[s1.pos..s1.pos + n - 1];
      LengthFrom(d, length);
    }
  }

  /** The first byte of a length, and the others. */
  lemma LengthFrom(d: seq<Byte>, length: nat)
    requires |d| > 0
    ensures ((length * 256 + d[0] as nat) % TWO64 * Pow(256, |d| - 1) + BigEndian(d[1..])) % TWO64 ==
            (length * Pow(256, |d|) + BigEndian(d)) % TWO64
  {
    hide Pow, BigEndian;
    FrontByte(d);
    PowPos(256, |d| - 1);
    PowAdd(256, 1, |d| - 1);
    PowAtOne(256);
    FoldLength(length, d[0], Pow(256, |d| - 1), BigEndian(d[1..]));
  }

  lemma LengthNone(length: nat, d: seq<Byte>)
    requires |d| == 0 && length < TWO64
    ensures length == (length * Pow(256, 0) + BigEndian(d)) % TWO64
  {
    assert Pow(256, 0) == 1;
  }

  lemma FoldLength(length: nat, b: nat, p: nat, rest: nat)
    ensures ((length * 256 + b) % TWO64 * p + rest) % TWO64 == (length * (256 * p) + (b * p + rest)) % TWO64
  {
    var x := length * 256 + b;
    var q := x / TWO64;
    assert x * p == length * (256 * p) + b * p by { MulAssoc(length, 256, p); }
    assert x * p == x % TWO64 * p + q * p * TWO64 by {
      assert x == x % TWO64 + q * TWO64;
      Distribute(p, x % TWO64, q * TWO64);
      MulAssoc(q, TWO64, p);
      MulAssoc(q, p, TWO64);
    }
    ModAddMultiple(x % TWO64 * p + rest, q * p, TWO64);
  }

  lemma SoundItem(s: Source)
    requires s.Valid() && s.err == NoError && GetBer(s).1.err == NoError
    ensures var (v, s') := GetBer(s);
            s.data == s'.data && s.pos <= s'.pos <= |s.data| && IsItem(s.data[s.pos..s'.pos], v)
  {
    hide GetBer, GetUint, GetData, ReadId, ReadLength, IsIdentifier, IsLength, IsItem;
    NoErrorInItem(s);
    var (lead, s1) := GetUint(s, 1);
    var (id, s2) := if lead % 32 == 31 then ReadId(s1, 0) else (lead % 32, s1);
    var (b, s3) := GetUint(s2, 1);
    var (length, s4) := if b >= 128 then ReadLength(s3, b - 128, 0) else (b, s3);
    SoundHeadId(s);
    SoundHeadLength(s2);
    SoundDataOf(s, s4, length);
    var (data, s5) := GetData(s4, length);
    var item := BerItem(id, lead - lead % 32, data);
    FromParts(s, item, s2, s4);
    PartsMake(s.data, s.pos, s2.pos, s4.pos, s5.pos, item);
  }

  lemma SoundDataOf(s: Source, s4: Source, length: nat)
    requires s.Valid() && s4.Valid() && s4.err == NoError && GetBer(s).1.err == NoError
    requires GetBer(s).1 == GetData(s4, length).1
    ensures var (d, s5) := GetData(s4, length); s5 == s4.Advance(length) && d == s4.data[s4.pos..s4.pos + length]
  {
    hide GetBer;
    SoundData(s4, length);
  }

  lemma PartsMake(data: seq<Byte>, p: nat, q: nat, r: nat, t: nat, item: BerItem)
    requires p <= q <= r <= t <= |data| && IsIdentifier(data[p..q], item.id, item.flags) && IsLength(data[q..r], t - r)
    requires item.data == data[r..t]
    ensures IsItem(data[p..t], item)
  {
    hide IsIdentifier, IsLength;
    ThreeParts(data, p, q, r, t);
    assert SplitsAt(data[p..t], item, q - p, r - p);
  }

  /** An error in any part of an item is an error at its end. */
  lemma NoErrorInItem(s: Source)
    requires s.Valid() && s.err == NoError && GetBer(s).1.err == NoError
    ensures var (lead, s1) := GetUint(s, 1);
            var (id, s2) := if lead % 32 == 31 then ReadId(s1, 0) else (lead % 32, s1);
            var (b, s3) := GetUint(s2, 1);
            && b < 256
            && var (length, s4) := if b >= 128 then ReadLength(s3, b - 128, 0) else (b, s3);
            s1.err == s2.err == s3.err == s4.err == NoError && GetBer(s).1 == GetData(s4, length).1
  {
    hide GetUint, GetData, ReadId, ReadLength;
    var (lead, s1) := GetUint(s, 1);
    var (id, s2) := if lead % 32 == 31 then ReadId(s1, 0) else (lead % 32, s1);
    var (b, s3) := GetUint(s2, 1);
    var (length, s4) := if b >= 128 then ReadLength(s3, b - 128, 0) else (b, s3);
    if s4.err != NoError {
      ErrorsStay(s4, length);
    }
    ByteRead(s2);
    if b >= 128 {
      LengthOnward(s3, b - 128, 0);
    }
    UintOnward(s2);
    IdErrorsStay(s1, 0);
  }

  lemma SliceOfSlice(data: seq<Byte>, p: nat, t: nat, i: nat, j: nat)
    requires p + i <= p + j <= t <= |data|
    ensures data[p..t][i..j] == data[p + i..p + j]
  {
    var d, e := data[p..t][i..j], data[p + i..p + j];
    forall k | 0 <= k < j - i ensures d[k] == e[k] {
      assert d[k] == data[p..t][i + k] == data[p + i + k];
    }
  }

  lemma ThreeParts(data: seq<Byte>, p: nat, q: nat, r: nat, t: nat)
    requires p <= q <= r <= t <= |data|
    ensures var d := data[p..t]; d[..q - p] == data[p..q] && d[q - p..r - p] == data[q..r] && d[r - p..] == data[r..t]
  {
    SliceOfSlice(data, p, t, 0, q - p);
    SliceOfSlice(data, p, t, q - p, r - p);
    SliceOfSlice(data, p, t, r - p, t - p);
    assert data[p..t][..q - p] == data[p..t][0..q - p];
  }

  lemma UintOnward(s: Source)
    requires s.Valid()
    ensures s.err != NoError ==> GetUint(s, 1).1 == s
  {
  }

  /** The identifier of a BER item, from the state before it. */
  lemma SoundHeadId(s: Source)
    requires s.Valid() && s.err == NoError
    requires var (lead, s1) := GetUint(s, 1); s1.err == NoError && (lead % 32 == 31 ==> ReadId(s1, 0).1.err == NoError)
    ensures var (lead, s1) := GetUint(s, 1);
            var (id, s2) := if lead % 32 == 31 then ReadId(s1, 0) else (lead % 32, s1);
            && s.data == s2.data && s.pos <= s2.pos <= |s.data| && s2.err == NoError
            && IsIdentifier(s.data[s.pos..s2.pos], id, lead - lead % 32)
  {
    hide BigEndian, GetUint, ReadId, IsGroups;
    var (lead, s1) := GetUint(s, 1);
    SoundUint(s, 1);
    OneDigit(s.data[s.pos..s.pos + 1]);
    if lead % 32 == 31 {
      SoundId(s1, 0);
      var s2 := ReadId(s1, 0).1;
      assert s.data[s.pos..s2.pos][1..] == s.data[s1.pos..s2.pos];
    }
  }

  lemma SoundHeadLength(s: Source)
    requires s.Valid() && s.err == NoError
    requires var (b, s1) := GetUint(s, 1);
             s1.err == NoError && b < 256 && (b >= 128 ==> ReadLength(s1, b - 128, 0).1.err == NoError)
    ensures var (b, s1) := GetUint(s, 1);
            var (length, s2) := if b >= 128 then ReadLength(s1, b - 128, 0) else (b, s1);
            && s.data == s2.data && s.pos <= s2.pos <= |s.data| && s2.err == NoError
            && IsLength(s.data[s.pos..s2.pos], length)
  {
    hide BigEndian, GetUint, ReadLength, Pow;
    var (b, s1) := GetUint(s, 1);
    SoundUint(s, 1);
    OneDigit(s.data[s.pos..s.pos + 1]);
    if b >= 128 {
      SoundLength(s1, b - 128, 0);
      var s2 := ReadLength(s1, b - 128, 0).1;
      assert s.data[s.pos..s2.pos][1..] == s.data[s1.pos..s2.pos];
    }
  }

  // ------------------------------------------------------------------ what each read accepts

  /** What a read delivers without an error is what the bytes that it consumed encode. */
  lemma Sound(s: Source, op: Read)
    requires s.Valid() && s.err == NoError && Perform(s, op).1.err == NoError
    ensures var (v, s') := Perform(s, op);
            && s.data == s'.data && s.pos <= s'.pos <= |s.data|
            && Encodes(op, v, s.data[s.pos..s'.pos], s'.Left())
  {
    hide BigEndian, GetData, GetUint, GetString, GetPstring, GetAsciz, GetChars, GetChompedLine, GetMpSsh1, GetMpSsh2, GetBer,
         IsLine, IsItem, IsPositive, Pow2;
    match op
    case Data(n) => SoundData(s, n);
    case Uint(k) => SoundUint(s, k);
    case String =>
      SoundString(s);
      Sliced(s, GetString(s).1, 4);
    case Pstring =>
      SoundPstring(s);
      Sliced(s, GetPstring(s).1, 1);
    case Asciz => SoundAsciz(s);
    case Chars(chars, wanted) => SoundChars(s, chars, wanted);
    case ChompedLine => SoundLine(s);
    case MpSsh1 => SoundSsh1(s);
    case MpSsh2 => SoundSsh2(s);
    case Item => SoundItem(s);
  }

  lemma Sliced(s: Source, s': Source, k: nat)
    requires s.data == s'.data && s.pos + k <= s'.pos <= |s.data|
    ensures var d := s.data[s.pos..s'.pos]; d[..k] == s.data[s.pos..s.pos + k] && d[k..] == s.data[s.pos + k..s'.pos]
  {
  }

  /** And what it consumes is a string of bytes that encodes something. */
  lemma Complete(s: Source, op: Read, v: Delivered, d: seq<Byte>, rest: seq<Byte>)
    requires Before(s, d, rest) && Encodes(op, v, d, rest)
    ensures s.pos + |d| <= |s.data| && Perform(s, op) == (v, s.Advance(|d|))
  {
    hide BigEndian, GetData, GetUint, GetString, GetPstring, GetAsciz, GetChars, GetChompedLine, GetMpSsh1, GetMpSsh2, GetBer,
         IsLine, IsItem, IsPositive, Pow2;
    match op
    case Data(n) => GetDataBack(s, d, rest);
    case Uint(k) => CompleteUint(s, d, rest);
    case String => CompleteString(s, d, rest);
    case Pstring => CompletePstring(s, d, rest);
    case Asciz =>
      assert d == d[..|d| - 1] + [0];
      GetAscizBack(s, d[..|d| - 1], rest);
    case Chars(chars, wanted) => CompleteChars(s, chars, wanted, d, rest);
    case ChompedLine => CompleteLine(s, d, v.d, rest);
    case MpSsh1 => CompleteSsh1(s, d, rest);
    case MpSsh2 => CompleteSsh2(s, d, rest);
    case Item => CompleteItem(s, d, v.item, rest);
  }

  lemma CompleteUint(s: Source, d: seq<Byte>, rest: seq<Byte>)
    requires Before(s, d, rest)
    ensures GetUint(s, |d|) == (BigEndian(d), s.Advance(|d|)) && Before(s.Advance(|d|), [], rest)
  {
    hide BigEndian;
    GetDataBack(s, d, rest);
  }

  lemma CompleteString(s: Source, d: seq<Byte>, rest: seq<Byte>)
    requires Before(s, d, rest) && |d| >= 4 && |d| - 4 == BigEndian(d[..4])
    ensures GetString(s) == (d[4..], s.Advance(|d|))
  {
    hide BigEndian, Put, GetString;
    BigEndianBound(d[..4]);
    Pow256();
    BigEndianRoundTrip(d[..4]);
    assert d == Put(|d[4..]|, 4) + d[4..];
    GetStringBack(s, d[4..], rest);
  }

  lemma CompletePstring(s: Source, d: seq<Byte>, rest: seq<Byte>)
    requires Before(s, d, rest) && |d| >= 1 && |d| - 1 == d[0]
    ensures GetPstring(s) == (d[1..], s.Advance(|d|))
  {
    hide GetPstring;
    assert d == [|d[1..]| as Byte] + d[1..];
    GetPstringBack(s, d[1..], rest);
  }

  lemma CompleteChars(s: Source, chars: set<Byte>, wanted: bool, d: seq<Byte>, rest: seq<Byte>)
    requires Before(s, d, rest) && (forall b :: b in d ==> (b in chars) == wanted)
    requires |rest| > 0 && (rest[0] in chars) != wanted
    ensures GetChars(s, chars, wanted) == (d, s.Advance(|d|))
  {
    hide SpanLength;
    var left, n := s.Left(), SpanLength(s.Left(), chars, wanted);
    assert left[|d|] == rest[0];
    assert forall i :: 0 <= i < |d| ==> left[i] == d[i] && left[i] in d;
    assert n == |d|;
    assert left[..n] == d;
  }

  lemma CompleteLine(s: Source, d: seq<Byte>, line: seq<Byte>, rest: seq<Byte>)
    requires Before(s, d, rest) && IsLine(d, line, rest)
    ensures GetChompedLine(s) == (line, s.Advance(|d|))
  {
    hide FindByte;
    var left := s.Left();
    var body := if |d| > 0 && d[|d| - 1] == 10 then d[..|d| - 1] else d;
    assert |body| < |d| ==> left[|body|] == 10;
    assert left[..|body|] == body;
    FoundAt(left, body);
    if body == line + [13] {
      assert body[..|body| - 1] == line;
    }
  }

  lemma FoundAt(left: seq<Byte>, body: seq<Byte>)
    requires body <= left && 10 !in body && (left == body || left[|body|] == 10)
    ensures FindByte(left, 10) == |body|
  {
    hide FindByte;
    assert forall i :: 0 <= i < |body| ==> left[i] == body[i] && left[i] in body;
  }

  lemma CompleteSsh1(s: Source, d: seq<Byte>, rest: seq<Byte>)
    requires Before(s, d, rest) && |d| >= 2 && Encodes(MpSsh1, Number(BigEndian(d[2..])), d, rest)
    ensures GetMpSsh1(s) == (BigEndian(d[2..]), s.Advance(|d|))
  {
    hide BigEndian, GetData, GetUint, Nbits, Pow2, Before;
    var a, e := d[..2], d[2..];
    assert d == a + e;
    TwoDigits(a);
    Reassociate(s, a, e, rest);
    CompleteUint(s, a, e + rest);
    AfterEmpty(s.Advance(2), e, rest);
    GetDataBack(s.Advance(2), e, rest);
    BitsWithin(BigEndian(e), BigEndian(a));
    assert s.Advance(2).Advance(|e|) == s.Advance(|d|);
  }

  lemma CompleteSsh2(s: Source, d: seq<Byte>, rest: seq<Byte>)
    requires Before(s, d, rest) && |d| >= 4 && Encodes(MpSsh2, Number(BigEndian(d[4..])), d, rest)
    ensures GetMpSsh2(s) == (BigEndian(d[4..]), s.Advance(|d|))
  {
    hide BigEndian, GetString;
    CompleteString(s, d, rest);
  }

  lemma {:induction false} CompleteId(s: Source, id: nat, d: seq<Byte>, rest: seq<Byte>)
    requires Before(s, d, rest) && IsGroups(d)
    ensures s.pos + |d| <= |s.data| && Before(s.Advance(|d|), [], rest)
    ensures ReadId(s, id) == (id * Pow(128, |d|) + Sevens(d), s.Advance(|d|))
    decreases |d|
  {
    hide GetUint, Before, Pow, Sevens;
    var b, t := d[0], d[1..];
    assert d == [b] + t;
    Reassociate(s, [b], t, rest);
    OneByteBack(s, b, t + rest);
    AfterEmpty(s.Advance(1), t, rest);
    GroupsFrom(d, id);
    if b >= 128 {
      CompleteId(s.Advance(1), id * 128 + b % 128, t, rest);
      assert s.Advance(1).Advance(|t|) == s.Advance(|d|);
    } else {
      assert t == [];
    }
  }

  lemma {:induction false} CompleteLength(s: Source, length: nat, d: seq<Byte>, rest: seq<Byte>)
    requires Before(s, d, rest) && length < TWO64
    ensures s.pos + |d| <= |s.data| && Before(s.Advance(|d|), [], rest)
    ensures ReadLength(s, |d|, length) == ((length * Pow(256, |d|) + BigEndian(d)) % TWO64, s.Advance(|d|))
    decreases |d|
  {
    hide BigEndian, GetUint, Before, Pow;
    if |d| == 0 {
      LengthNone(length, d);
      NothingRead(s, d, rest);
    } else {
      var b, t := d[0], d[1..];
      assert d == [b] + t;
      Reassociate(s, [b], t, rest);
      OneByteBack(s, b, t + rest);
      AfterEmpty(s.Advance(1), t, rest);
      CompleteLength(s.Advance(1), (length * 256 + b) % TWO64, t, rest);
      assert s.Advance(1).Advance(|t|) == s.Advance(|d|);
      LengthFrom(d, length);
    }
  }

  lemma NothingRead(s: Source, d: seq<Byte>, rest: seq<Byte>)
    requires Before(s, d, rest) && |d| == 0
    ensures s.pos <= |s.data| && s.Advance(0) == s && Before(s, [], rest)
  {
  }

  lemma CompleteItem(s: Source, d: seq<Byte>, item: BerItem, rest: seq<Byte>)
    requires Before(s, d, rest) && IsItem(d, item)
    ensures GetBer(s) == (item, s.Advance(|d|))
  {
    hide GetBer, IsIdentifier, IsLength, Before;
    var i, j :| 0 <= i <= j <= |d| && SplitsAt(d, item, i, j);
    assert d == d[..i] + (d[i..j] + d[j..]);
    CompleteParts(s, d[..i], d[i..j], d[j..], item, rest);
  }

  lemma CompleteParts(s: Source, x: seq<Byte>, y: seq<Byte>, z: seq<Byte>, item: BerItem, rest: seq<Byte>)
    requires Before(s, x + (y + z), rest) && IsIdentifier(x, item.id, item.flags) && IsLength(y, |z|) && item.data == z
    ensures GetBer(s) == (item, s.Advance(|x + (y + z)|))
  {
    hide GetBer, GetUint, GetData, ReadId, ReadLength, IsIdentifier, IsLength, Before;
    Reassociate(s, x, y + z, rest);
    assert y + z + rest == y + (z + rest);
    CompleteHeadId(s, x, item.id, item.flags, y + (z + rest));
    var s2 := s.Advance(|x|);
    AfterEmpty(s2, y, z + rest);
    CompleteHeadLength(s2, y, |z|, z + rest);
    var s4 := s2.Advance(|y|);
    AfterEmpty(s4, z, rest);
    GetDataBack(s4, z, rest);
    assert s4.Advance(|z|) == s.Advance(|x + (y + z)|);
    FromParts(s, item, s2, s4);
  }

  lemma FromParts(s: Source, item: BerItem, s2: Source, s4: Source)
    requires s.Valid() && s2.Valid() && s4.Valid()
    requires var (lead, s1) := GetUint(s, 1);
             && item.flags == lead - lead % 32
             && (if lead % 32 == 31 then ReadId(s1, 0) else (lead % 32, s1)) == (item.id, s2)
    requires var (b, s3) := GetUint(s2, 1);
             (if b >= 128 then ReadLength(s3, b - 128, 0) else (b, s3)) == (|item.data|, s4)
    requires GetData(s4, |item.data|).0 == item.data
    ensures GetBer(s) == (item, GetData(s4, |item.data|).1)
  {
    hide GetUint, GetData, ReadId, ReadLength;
  }

  lemma CompleteHeadId(s: Source, d: seq<Byte>, id: nat, flags: nat, rest: seq<Byte>)
    requires Before(s, d, rest) && IsIdentifier(d, id, flags)
    ensures s.pos + |d| <= |s.data| && Before(s.Advance(|d|), [], rest)
    ensures var (lead, s1) := GetUint(s, 1);
            && flags == lead - lead % 32
            && (if lead % 32 == 31 then ReadId(s1, 0) else (lead % 32, s1)) == (id, s.Advance(|d|))
  {
    hide GetUint, Before, ReadId, IsGroups, Sevens, Pow;
    var b, t := d[0], d[1..];
    assert d == [b] + t;
    Reassociate(s, [b], t, rest);
    OneByteBack(s, b, t + rest);
    AfterEmpty(s.Advance(1), t, rest);
    if b % 32 == 31 {
      CompleteId(s.Advance(1), 0, t, rest);
      assert s.Advance(1).Advance(|t|) == s.Advance(|d|);
    } else {
      assert t == [];
      NothingRead(s.Advance(1), t, rest);
    }
  }

  lemma CompleteHeadLength(s: Source, d: seq<Byte>, length: nat, rest: seq<Byte>)
    requires Before(s, d, rest) && IsLength(d, length)
    ensures s.pos + |d| <= |s.data| && Before(s.Advance(|d|), [], rest)
    ensures var (b, s1) := GetUint(s, 1);
            (if b >= 128 then ReadLength(s1, b - 128, 0) else (b, s1)) == (length, s.Advance(|d|))
  {
    hide BigEndian, GetUint, Before, ReadLength, Pow;
    var b, t := d[0], d[1..];
    assert d == [b] + t;
    Reassociate(s, [b], t, rest);
    OneByteBack(s, b, t + rest);
    AfterEmpty(s.Advance(1), t, rest);
    if b >= 128 {
      CompleteLength(s.Advance(1), 0, t, rest);
      assert s.Advance(1).Advance(|t|) == s.Advance(|d|);
    } else {
      assert t == [];
      NothingRead(s.Advance(1), t, rest);
    }
  }

  /** So a read succeeds exactly if what is left begins with the bytes of something that it understands. */
  lemma AcceptsExactly(s: Source, op: Read)
    requires s.Valid() && s.err == NoError
    ensures Perform(s, op).1.err == NoError <==>
            exists v, k: nat :: k <= |s.Left()| && Encodes(op, v, s.Left()[..k], s.Left()[k..])
  {
    hide Perform, Encodes;
    var left := s.Left();
    if Perform(s, op).1.err == NoError {
      Sound(s, op);
      var (v, s') := Perform(s, op);
      var k := s'.pos - s.pos;
      assert left[..k] == s.data[s.pos..s'.pos] && left[k..] == s'.Left();
      assert Encodes(op, v, left[..k], left[k..]);
    }
    forall v, k: nat | k <= |left| && Encodes(op, v, left[..k], left[k..]) ensures Perform(s, op).1.err == NoError {
      assert left == left[..k] + left[k..];
      Complete(s, op, v, left[..k], left[k..]);
    }
  }

  // ---------------------------------------------------------------------- failures

  /** What a read delivers that has nothing to deliver. */
  ghost predicate IsNothing(v: Delivered) {
    match v
    case Content(d) => d == []
    case Number(v) => v == 0
    case Element(item) => item.data == []
  }

  /** How a read fails: it delivers nothing, except that a run of characters is delivered although the data ends with it, and
      it goes no further than the length that it could not make sense of. */
  ghost predicate Fails(op: Read, s: Source, v: Delivered, s': Source)
    requires s.Valid()
  {
    var left := s.Left();
    match op
    case Data(_) => IsNothing(v) && s' == s.Fail(OutOfData)
    case Uint(_) => IsNothing(v) && s' == s.Fail(OutOfData)
    case String => IsNothing(v) && s' == (if |left| < 4 then s else s.Advance(4)).Fail(OutOfData)
    case Pstring => IsNothing(v) && s' == (if |left| < 1 then s else s.Advance(1)).Fail(OutOfData)
    case Asciz => IsNothing(v) && s' == s.Fail(OutOfData)
    case Chars(_, _) => v == Content(left) && s' == s.Advance(|left|).Fail(OutOfData)
    case ChompedLine => false
    case MpSsh1 =>
      IsNothing(v) &&
      if |left| < 2 then s' == s.Fail(OutOfData)
      else
        var n := (BigEndian(left[..2]) + 7) / 8;
        s' == if n > |left| - 2 then s.Advance(2).Fail(OutOfData) else s.Advance(2 + n).Fail(Invalid)
    case MpSsh2 =>
      IsNothing(v) &&
      if |left| < 4 then s' == s.Fail(OutOfData)
      else
        var n := BigEndian(left[..4]);
        s' == if n > |left| - 4 then s.Advance(4).Fail(OutOfData) else s.Advance(4 + n).Fail(Invalid)
    case Item => IsNothing(v) && s'.err == OutOfData && s'.data == s.data && s.pos <= s'.pos
  }

  lemma FailsExactly(s: Source, op: Read)
    requires s.Valid() && s.err == NoError && Perform(s, op).1.err != NoError
    ensures var (v, s') := Perform(s, op); Fails(op, s, v, s')
  {
    hide BigEndian, FindByte, SpanLength, GetMpSsh1, GetMpSsh2, GetBer;
    match op
    case Data(_) =>
    case Uint(_) => NothingIsZero();
    case String => StringFails(s);
    case Pstring =>
    case Asciz =>
    case Chars(_, _) =>
    case ChompedLine =>
    case MpSsh1 => Ssh1Fails(s);
    case MpSsh2 => Ssh2Fails(s);
    case Item => ItemFails(s);
  }

  lemma NothingIsZero()
    ensures BigEndian([]) == 0
  {
  }

  lemma StringFails(s: Source)
    requires s.Valid() && s.err == NoError && GetString(s).1.err != NoError
    ensures var (d, s') := GetString(s);
            d == [] && s' == (if |s.Left()| < 4 then s else s.Advance(4)).Fail(OutOfData)
    ensures |s.Left()| >= 4 ==> BigEndian(s.Left()[..4]) > |s.Left()| - 4
  {
    hide BigEndian;
    if |s.Left()| >= 4 {
      assert s.data[s.pos..s.pos + 4] == s.Left()[..4];
    }
  }

  lemma Ssh1Fails(s: Source)
    requires s.Valid() && s.err == NoError && GetMpSsh1(s).1.err != NoError
    ensures var (v, s') := GetMpSsh1(s); Fails(MpSsh1, s, Number(v), s')
  {
    hide BigEndian, Nbits;
    if |s.Left()| >= 2 {
      assert s.data[s.pos..s.pos + 2] == s.Left()[..2];
    }
  }

  lemma Ssh2Fails(s: Source)
    requires s.Valid() && s.err == NoError && GetMpSsh2(s).1.err != NoError
    ensures var (v, s') := GetMpSsh2(s); Fails(MpSsh2, s, Number(v), s')
  {
    hide BigEndian, GetString, Canonical;
    if GetString(s).1.err != NoError {
      StringFails(s);
    } else {
      SoundString(s);
      assert s.data[s.pos..s.pos + 4] == s.Left()[..4];
    }
  }

  lemma ItemFails(s: Source)
    requires s.Valid() && s.err == NoError && GetBer(s).1.err != NoError
    ensures var (item, s') := GetBer(s); Fails(Item, s, Element(item), s')
  {
    hide BigEndian, GetUint, GetData, ReadId, ReadLength;
    BerOnward(s);
    OnlyOutOfData(s, 1);
    var (lead, s1) := GetUint(s, 1);
    IdOutOfData(s1, 0);
    var (id, s2) := if lead % 32 == 31 then ReadId(s1, 0) else (lead % 32, s1);
    OnlyOutOfData(s2, 1);
    var (lenbyte, s3) := GetUint(s2, 1);
    var (length, s4) := if lenbyte >= 128 then ReadLength(s3, lenbyte - 128, 0) else (lenbyte, s3);
    if lenbyte >= 128 {
      LengthOutOfData(s3, lenbyte - 128, 0);
    }
    OnlyOutOfData(s4, length);
  }

  lemma OnlyOutOfData(s: Source, n: nat)
    requires s.Valid()
    ensures GetUint(s, n).1.err in {s.err, OutOfData} && GetData(s, n).1.err in {s.err, OutOfData}
    ensures GetData(s, n).1.err != NoError ==> GetData(s, n).0 == []
  {
  }

  lemma {:induction false} IdOutOfData(s: Source, id: nat)
    requires s.Valid()
    ensures ReadId(s, id).1.err in {s.err, OutOfData}
    decreases |s.data| - s.pos
  {
    hide BigEndian, GetUint;
    var (b, s') := GetUint(s, 1);
    ByteRead(s);
    OnlyOutOfData(s, 1);
    if b >= 128 {
      IdOutOfData(s', id * 128 + b % 128);
    }
  }

  lemma {:induction false} LengthOutOfData(s: Source, n: nat, length: nat)
    requires s.Valid()
    ensures ReadLength(s, n, length).1.err in {s.err, OutOfData}
    decreases n
  {
    hide BigEndian, GetUint;
    if n > 0 {
      var (b, s') := GetUint(s, 1);
      OnlyOutOfData(s, 1);
      LengthOutOfData(s', n - 1, (length * 256 + b) % TWO64);
    }
  }

  /** After an error nothing is delivered at all. */
  lemma NothingAfterError(s: Source, op: Read)
    requires s.Valid() && s.err != NoError
    ensures IsNothing(Perform(s, op).0) && Perform(s, op).1 == s
  {
    hide BigEndian, FindByte, SpanLength, GetMpSsh1, GetMpSsh2, GetBer, Nbits, Canonical;
    NothingIsZero();
    match op
    case MpSsh1 => Ssh1Nothing(s);
    case MpSsh2 => Ssh2Nothing(s);
    case Item =>
      BerOnward(s);
      ItemNothing(s);
    case _ =>
  }

  lemma Ssh1Nothing(s: Source)
    requires s.Valid() && s.err != NoError
    ensures GetMpSsh1(s) == (0, s)
  {
    hide BigEndian, Nbits;
  }

  lemma Ssh2Nothing(s: Source)
    requires s.Valid() && s.err != NoError
    ensures GetMpSsh2(s) == (0, s)
  {
    hide BigEndian, Canonical;
  }

  lemma ItemNothing(s: Source)
    requires s.Valid() && s.err != NoError && GetBer(s).1 == s
    ensures GetBer(s).0.data == []
  {
    hide BigEndian, GetUint, ReadId, ReadLength;
  }

  // -------------------------------------------------------------------------- runs

  /** If there is no error at the end of a run of reads, then each of them delivered what the bytes between two positions
      encode: it is enough to look for an error once. */
  lemma OneCheckAtTheEnd(s: Source, ops: seq<Read>, k: nat)
    requires s.Valid() && k < |ops| && AfterAll(s, ops).err == NoError
    ensures var s0, s1 := AfterAll(s, ops[..k]), AfterAll(s, ops[..k + 1]);
            && s.err == s0.err == s1.err == NoError && s.data == s0.data == s1.data && s.pos <= s0.pos <= s1.pos
            && Encodes(ops[k], PerformAll(s, ops).0[k], s.data[s0.pos..s1.pos], s1.Left())
  {
    hide Perform, PerformAll, Encodes;
    NoErrorBefore(s, ops, 0);
    NoErrorBefore(s, ops, k);
    NoErrorBefore(s, ops, k + 1);
    Sticky(s, ops[..k]);
    NthRead(s, ops, k);
    NoReads(s, ops);
    Sound(AfterAll(s, ops[..k]), ops[k]);
  }

  lemma NoReads(s: Source, ops: seq<Read>)
    requires s.Valid()
    ensures AfterAll(s, ops[..0]) == s
  {
  }

  /** The read after the first k. */
  lemma {:induction false} NthRead(s: Source, ops: seq<Read>, k: nat)
    requires s.Valid() && k < |ops|
    ensures Perform(AfterAll(s, ops[..k]), ops[k]) == (PerformAll(s, ops).0[k], AfterAll(s, ops[..k + 1]))
    decreases k
  {
    hide Perform;
    var s1 := Perform(s, ops[0]).1;
    if k == 0 {
      var first := ops[..1];
      assert first[0] == ops[0] && first[1..] == [] && ops[..0] == [];
      assert PerformAll(s1, first[1..]) == ([], s1);
    } else {
      NthRead(s1, ops[1..], k - 1);
      assert ops[..k][1..] == ops[1..][..k - 1] && ops[..k + 1][1..] == ops[1..][..k];
    }
  }

  // ------------------------------------------------------------------ the shortest headers

  /** The identifier that is written is the shortest there is: one byte, or no zero digit in front. */
  lemma IdBytesShortest(id: nat, flags: nat)
    requires flags % 32 == 0 && flags < 256
    ensures var d := IdBytes(id, flags); IsIdentifier(d, id, flags) && if id <= 30 then |d| == 1 else |d| > 1 && d[1] != 128
  {
    hide GetUint, ReadId, Sevens, Pow, DigitCount, Continued;
    var d := IdBytes(id, flags);
    var s := Source(d, 0, NoError);
    assert s.Left() == d + [];
    IdBack(s, id, flags, []);
    UintStays(s);
    SoundHeadId(s);
    assert d[0..|d|] == d;
    if id > 30 {
      var n := DigitCount(id, 128);
      DigitCountLeast(id, 128);
      var t := d[1..];
      assert |t| == n;
      if d[1] == 128 {
        FrontGroup(t);
        SevensBound(t[1..]);
      }
    }
  }

  lemma UintStays(s: Source)
    requires s.Valid() && s.err == NoError && s.pos < |s.data|
    ensures GetUint(s, 1).1.err == NoError
  {
  }

  lemma {:induction false} SevensBound(d: seq<Byte>)
    ensures Sevens(d) < Pow(128, |d|)
  {
    if |d| > 0 {
      SevensBound(d[..|d| - 1]);
    }
  }

  /** So is the length: one byte below 128, and otherwise no zero digit in front. */
  lemma LengthBytesShortest(length: nat)
    requires length < 0x100_0000
    ensures DigitCount(length, 256) < 128
    ensures var d := LengthBytes(length); IsLength(d, length) && if length < 128 then |d| == 1 else |d| > 1 && d[1] != 0
  {
    hide GetUint, ReadLength, Pow, DigitCount, Put, BigEndian;
    FewDigits(length);
    var d := LengthBytes(length);
    var s := Source(d, 0, NoError);
    assert s.Left() == d + [];
    LengthBytesBack(s, length, []);
    UintStays(s);
    SoundHeadLength(s);
    assert d[0..|d|] == d;
    if length >= 128 {
      var n := DigitCount(length, 256);
      DigitCountLeast(length, 256);
      DigitCountBound(length, 256);
      PutRoundTrip(length, n);
      var t := Put(length, n);
      assert d[1..] == t;
      FirstByteBounds(t);
    }
  }
}
