/**
 What the key files and the key blobs mean, told by reading them back with the
 reads of a BinarySource and nothing else.
 */
module KeyFormats {
  import opened Arithmetic
  import opened Bytes
  import opened Marshal
  import opened Wire
  import opened Ber
  import opened Reads
  import opened Encodings
  import opened KeyFiles
  import opened Sshcom

  // ------------------------------------------------------------------------ key blobs

  /** Numbers one after another, as put_mp_ssh2_from_string writes them. */
  function Fields(ss: seq<seq<Byte>>): seq<Byte> {
    if |ss| == 0 then [] else Ssh2FromString(ss[0]) + Fields(ss[1..])
  }

  function Numbers(ss: seq<seq<Byte>>): (r: seq<Delivered>)
    ensures |r| == |ss|
  {
    seq(|ss|, i requires 0 <= i < |ss| => Number(BigEndian(ss[i])))
  }

  function Times(op: Read, n: nat): (ops: seq<Read>)
    ensures |ops| == n
  {
    seq(n, _ => op)
  }

  /** Reading the data from its start gives these, and nothing is left. */
  ghost predicate ReadsAs(data: seq<Byte>, ops: seq<Read>, values: seq<Delivered>) {
    var (vs, s) := PerformAll(Source(data, 0, NoError), ops);
    vs == values && s.err == NoError && s.pos == |data|
  }

  /** The blobs of a key: a name and some numbers that are public, and some that are private. */
  ghost predicate HoldKey(blobs: Blobs, name: string, public: seq<seq<Byte>>, private: seq<seq<Byte>>) {
    && ReadsAs(blobs.public, [String] + Times(MpSsh2, |public|), [Content(Ascii(name))] + Numbers(public))
    && ReadsAs(blobs.private, Times(MpSsh2, |private|), Numbers(private))
  }

  lemma {:induction false} FieldsRead(s: Source, ss: seq<seq<Byte>>, rest: seq<Byte>)
    requires Before(s, Fields(ss), rest) && forall i :: 0 <= i < |ss| ==> |ss[i]| + 1 < 0x1_0000_0000
    ensures var (vs, s') := PerformAll(s, Times(MpSsh2, |ss|)); vs == Numbers(ss) && Before(s', [], rest) && s'.data == s.data
    decreases |ss|
  {
    hide GetMpSsh2, Ssh2FromString, BigEndian;
    if |ss| == 0 {
      assert Fields(ss) == [];
    } else {
      var d, tail := ss[0], Fields(ss[1..]);
      assert Ssh2FromString(d) + tail + rest == Ssh2FromString(d) + (tail + rest);
      FromStringRoundTrip(s, d, tail + rest);
      Ssh2Onward(s);
      var s1 := GetMpSsh2(s).1;
      FieldsRead(s1, ss[1..], rest);
      assert Times(MpSsh2, |ss|)[1..] == Times(MpSsh2, |ss| - 1);
      assert Numbers(ss) == [Number(BigEndian(d))] + Numbers(ss[1..]);
    }
  }

  /** Blobs that are put together from a name and such numbers. */
  lemma BlobsHold(name: string, tag: seq<Byte>, public: seq<seq<Byte>>, private: seq<seq<Byte>>)
    requires tag == Ascii(name) && |tag| < 0x1_0000_0000
    requires forall i :: 0 <= i < |public| ==> |public[i]| + 1 < 0x1_0000_0000
    requires forall i :: 0 <= i < |private| ==> |private[i]| + 1 < 0x1_0000_0000
    ensures HoldKey(Blobs(Str(tag) + Fields(public), Fields(private)), name, public, private)
  {
    hide GetMpSsh2, GetString, Fields, Put, Numbers, Times;
    var a, b := Str(tag) + Fields(public), Fields(private);
    var s, t := Source(a, 0, NoError), Source(b, 0, NoError);
    assert s.Left() == a && t.Left() == b && b + [] == b;
    FieldsRead(t, private, []);
    GetStringBack(s, tag, Fields(public));
    var s1 := s.Advance(4 + |tag|);
    assert Before(s1, Fields(public), []);
    FieldsRead(s1, public, []);
    var ops := [String] + Times(MpSsh2, |public|);
    assert ops[0] == String && ops[1..] == Times(MpSsh2, |public|);
  }

  lemma FieldsOf2(a: seq<Byte>, b: seq<Byte>)
    ensures Fields([a, b]) == Ssh2FromString(a) + Ssh2FromString(b)
  {
    hide Ssh2FromString;
    assert [a, b][1..] == [b] && [b][1..] == [] && Fields([]) == [];
  }

  lemma FieldsOf4(a: seq<Byte>, b: seq<Byte>, c: seq<Byte>, d: seq<Byte>)
    ensures Fields([a, b, c, d]) == Ssh2FromString(a) + Ssh2FromString(b) + Ssh2FromString(c) + Ssh2FromString(d)
  {
    hide Ssh2FromString;
    assert [a, b, c, d][1..] == [b, c, d] && [b, c, d][1..] == [c, d];
    FieldsOf2(c, d);
  }

  lemma FieldsOf1(a: seq<Byte>)
    ensures Fields([a]) == Ssh2FromString(a)
  {
    assert [a][1..] == [] && Fields([]) == [];
  }

  /** The blobs of an RSA key. */
  lemma RsaHold(e: seq<Byte>, n: seq<Byte>, d: seq<Byte>, p: seq<Byte>, q: seq<Byte>, iqmp: seq<Byte>)
    requires forall x :: x in [e, n, d, p, q, iqmp] ==> |x| + 1 < 0x1_0000_0000
    ensures HoldKey(Blobs(Str(SSH_RSA) + Ssh2FromString(e) + Ssh2FromString(n),
                          Ssh2FromString(d) + Ssh2FromString(p) + Ssh2FromString(q) + Ssh2FromString(iqmp)),
                    "ssh-rsa", [e, n], [d, p, q, iqmp])
  {
    hide Ssh2FromString, Str, HoldKey;
    assert e in [e, n, d, p, q, iqmp] && n in [e, n, d, p, q, iqmp] && d in [e, n, d, p, q, iqmp];
    assert p in [e, n, d, p, q, iqmp] && q in [e, n, d, p, q, iqmp] && iqmp in [e, n, d, p, q, iqmp];
    FieldsOf2(e, n);
    FieldsOf4(d, p, q, iqmp);
    BlobsHold("ssh-rsa", SSH_RSA, [e, n], [d, p, q, iqmp]);
    assert Str(SSH_RSA) + (Ssh2FromString(e) + Ssh2FromString(n)) == Str(SSH_RSA) + Ssh2FromString(e) + Ssh2FromString(n);
  }

  /** The blobs of a DSA key. */
  lemma DsaHold(p: seq<Byte>, q: seq<Byte>, g: seq<Byte>, y: seq<Byte>, x: seq<Byte>)
    requires forall t :: t in [p, q, g, y, x] ==> |t| + 1 < 0x1_0000_0000
    ensures HoldKey(Blobs(Str(SSH_DSS) + Ssh2FromString(p) + Ssh2FromString(q) + Ssh2FromString(g) + Ssh2FromString(y),
                          Ssh2FromString(x)),
                    "ssh-dss", [p, q, g, y], [x])
  {
    hide Ssh2FromString, Str, HoldKey;
    assert p in [p, q, g, y, x] && q in [p, q, g, y, x] && g in [p, q, g, y, x] && y in [p, q, g, y, x] && x in [p, q, g, y, x];
    FieldsOf4(p, q, g, y);
    FieldsOf1(x);
    BlobsHold("ssh-dss", SSH_DSS, [p, q, g, y], [x]);
    AfterFour(Str(SSH_DSS), Ssh2FromString(p), Ssh2FromString(q), Ssh2FromString(g), Ssh2FromString(y));
  }

  lemma AfterFour(front: seq<Byte>, a: seq<Byte>, b: seq<Byte>, c: seq<Byte>, d: seq<Byte>)
    ensures front + (a + b + c + d) == front + a + b + c + d
  {
  }

  /** The blobs of a key hold its numbers. */
  lemma KeyBlobs(key: Key)
    requires key.Valid()
    ensures key.Rsa? ==> HoldKey(key.ToBlobs(), "ssh-rsa", [key.e, key.n], [key.d, key.p, key.q, key.iqmp])
    ensures key.Dsa? ==> HoldKey(key.ToBlobs(), "ssh-dss", [key.p, key.q, key.g, key.y], [key.x])
  {
    hide Ssh2FromString, Canonical, Str, HoldKey, PemBlobs, PemNumbers, BigEndian;
    PemBlobsBack(key);
    if key.Rsa? {
      RsaMembers(key);
      RsaFromNumbers(key);
      RsaHold(key.e, key.n, key.d, key.p, key.q, key.iqmp);
    } else {
      DsaMembers(key);
      DsaFromNumbers(key);
      DsaHold(key.p, key.q, key.g, key.y, key.x);
    }
  }

  lemma RsaFromNumbers(key: Key)
    requires key.Valid() && key.Rsa?
    ensures PemBlobs(true, PemNumbers(key)) ==
            Ok(Blobs(Str(SSH_RSA) + Ssh2FromString(key.e) + Ssh2FromString(key.n),
                     Ssh2FromString(key.d) + Ssh2FromString(key.p) + Ssh2FromString(key.q) + Ssh2FromString(key.iqmp)))
  {
    hide Ssh2FromString, Str, PemNumbers, Key.Valid, BigEndian;
    RsaIntegers(key);
  }

  lemma DsaFromNumbers(key: Key)
    requires key.Dsa?
    ensures PemBlobs(false, PemNumbers(key)) ==
            Ok(Blobs(Str(SSH_DSS) + Ssh2FromString(key.p) + Ssh2FromString(key.q) + Ssh2FromString(key.g) + Ssh2FromString(key.y),
                     Ssh2FromString(key.x)))
  {
    hide Ssh2FromString, Str, PemNumbers;
    DsaIntegers(key);
  }

  // ------------------------------------------------------------------------ OpenSSH PEM

  function Integers(v: seq<seq<Byte>>): (r: seq<Delivered>)
    ensures |r| == |v|
  {
    seq(|v|, i requires 0 <= i < |v| => Element(BerItem(2, 0, v[i])))
  }

  lemma {:induction false} IntegersRead(s: Source, v: seq<seq<Byte>>, rest: seq<Byte>)
    requires (forall t :: t in v ==> |t| < 0x100_0000) && Before(s, BerIntegers(v), rest)
    ensures var (vs, s') := PerformAll(s, Times(Item, |v|)); vs == Integers(v) && Before(s', [], rest) && s'.data == s.data
    decreases |v|
  {
    hide GetBer, IdBytes, LengthBytes, DigitCount;
    if |v| == 0 {
      assert BerIntegers(v) == [];
    } else {
      var first, tail := v[0], BerIntegers(v[1..]);
      FewDigits(|first|);
      assert BerInteger(first) + tail + rest == BerInteger(first) + (tail + rest);
      BerRoundTrip(s, 2, 0, first, tail + rest);
      BerOnward(s);
      IntegersRead(GetBer(s).1, v[1..], rest);
      assert Times(Item, |v|)[1..] == Times(Item, |v| - 1);
      assert Integers(v) == [Element(BerItem(2, 0, first))] + Integers(v[1..]);
    }
  }

  /** The payload that is written is one constructed SEQUENCE of INTEGERs, in the universal class. */
  lemma PemIsSequence(v: seq<seq<Byte>>)
    requires (forall t :: t in v ==> |t| < 0x100_0000) && |BerIntegers(v)| < 0x100_0000
    ensures ReadsAs(PemPayload(v), [Item], [Element(BerItem(16, 0x20, BerIntegers(v)))])
    ensures ReadsAs(BerIntegers(v), Times(Item, |v|), Integers(v))
  {
    hide GetBer, IdBytes, LengthBytes, BerIntegers, DigitCount, Integers, Times;
    var content, payload := BerIntegers(v), PemPayload(v);
    FewDigits(|content|);
    assert payload + [] == payload && content + [] == content;
    var s, t := Source(payload, 0, NoError), Source(content, 0, NoError);
    assert s.Left() == payload && t.Left() == content;
    BerRoundTrip(s, 16, 32, content, []);
    BerOnward(s);
    IntegersRead(t, v, []);
    var ops := [Item];
    assert ops[1..] == [] && PerformAll(GetBer(s).1, []) == ([], GetBer(s).1);
  }

  /** What reading items gives, and what their identifiers are. */
  ghost predicate AllIntegers(vs: seq<Delivered>) {
    forall i :: 0 <= i < |vs| ==> vs[i].Element? && vs[i].item.id == 2
  }

  function ContentsOf(vs: seq<Delivered>): (r: seq<seq<Byte>>)
    ensures |r| == |vs|
  {
    seq(|vs|, i requires 0 <= i < |vs| => if vs[i].Element? then vs[i].item.data else [])
  }

  lemma {:induction false} IntegersExactly(s: Source, count: nat)
    requires s.Valid() && s.err == NoError
    ensures var (vs, s') := PerformAll(s, Times(Item, count));
            ReadIntegers(s, count) == if s'.err == NoError && AllIntegers(vs) then Ok(ContentsOf(vs)) else Failed
    decreases count
  {
    hide GetBer, AllIntegers, ContentsOf;
    if count == 0 {
      NoContents();
    } else {
      var (item, s1) := GetBer(s);
      var ops := Times(Item, count);
      assert ops[1..] == Times(Item, count - 1);
      Sticky(s1, ops[1..]);
      FirstContent(item, PerformAll(s1, ops[1..]).0);
      if s1.err == NoError {
        IntegersExactly(s1, count - 1);
      }
    }
  }

  lemma NoContents()
    ensures AllIntegers([]) && ContentsOf([]) == []
  {
  }

  lemma FirstContent(item: BerItem, vs: seq<Delivered>)
    ensures AllIntegers([Element(item)] + vs) <==> item.id == 2 && AllIntegers(vs)
    ensures ContentsOf([Element(item)] + vs) == [item.data] + ContentsOf(vs)
  {
    var all := [Element(item)] + vs;
    if item.id == 2 && AllIntegers(vs) {
      forall i | 0 <= i < |all| ensures all[i].Element? && all[i].item.id == 2 {
        assert i > 0 ==> all[i] == vs[i - 1];
      }
    }
    if AllIntegers(all) {
      assert all[0] == Element(item);
      forall i | 0 <= i < |vs| ensures vs[i].Element? && vs[i].item.id == 2 {
        assert vs[i] == all[i + 1];
      }
    }
  }

  lemma {:induction false} IntegersWithin(s: Source, count: nat)
    requires s.Valid()
    ensures var r := ReadIntegers(s, count); r.Ok? ==> forall i :: 0 <= i < count ==> |r.value[i]| <= |s.data|
    decreases count
  {
    hide GetBer;
    if count > 0 {
      BerOnward(s);
      ItemWithin(s);
      IntegersWithin(GetBer(s).1, count - 1);
    }
  }

  lemma ItemWithin(s: Source)
    requires s.Valid()
    ensures |GetBer(s).0.data| <= |s.data|
  {
    hide BigEndian, GetUint, ReadId, ReadLength;
    BerOnward(s);
    var (lead, s1) := GetUint(s, 1);
    UintData(s);
    IdOnward(s1, 0);
    var (id, s2) := if lead % 32 == 31 then ReadId(s1, 0) else (lead % 32, s1);
    UintData(s2);
    var (b, s3) := GetUint(s2, 1);
    if b >= 128 {
      LengthOnward(s3, b - 128, 0);
    }
  }

  lemma UintData(s: Source)
    requires s.Valid()
    ensures GetUint(s, 1).1.data == s.data
  {
  }

  /** openssh_pem_read, from the payload on: it succeeds exactly if the payload begins with a SEQUENCE, and that with as many
      INTEGERs as the key type has, of which the first is 0; and then the key has these integers, in this order. */
  lemma PemReadExactly(rsa: bool, payload: seq<Byte>)
    requires |payload| + 1 < 0x1_0000_0000
    ensures var (item, s) := GetBer(Source(payload, 0, NoError));
            var (vs, s') := PerformAll(Source(item.data, 0, NoError), Times(Item, if rsa then 9 else 6));
            var v, r := ContentsOf(vs), PemRead(rsa, payload);
            && (r.Ok? <==> s.err == NoError && item.id == 16 && s'.err == NoError && AllIntegers(vs) && v[0] == [0])
            && (r.Ok? && rsa ==> HoldKey(r.value, "ssh-rsa", [v[2], v[1]], [v[3], v[4], v[5], v[8]]))
            && (r.Ok? && !rsa ==> HoldKey(r.value, "ssh-dss", [v[1], v[2], v[3], v[4]], [v[5]]))
  {
    hide GetBer, ReadIntegers, PerformAll, AllIntegers, ContentsOf, HoldKey, Ssh2FromString, Str;
    var (item, s) := GetBer(Source(payload, 0, NoError));
    var t, n := Source(item.data, 0, NoError), if rsa then 9 else 6;
    IntegersExactly(t, n);
    IntegersWithin(t, n);
    ItemWithin(Source(payload, 0, NoError));
    var r := ReadIntegers(t, n);
    if r.Ok? {
      var v := r.value;
      if rsa {
        RsaHold(v[2], v[1], v[3], v[4], v[5], v[8]);
      } else {
        DsaHold(v[1], v[2], v[3], v[4], v[5]);
      }
    }
  }

  // ----------------------------------------------------------------------------- ssh.com

  /** d begins with these integers: for each, four bytes that count its bits, and enough bytes for them. */
  ghost predicate Spells(d: seq<Byte>, v: seq<seq<Byte>>)
    decreases |v|
  {
    |v| > 0 ==> |d| >= 4 && var k := (BigEndian(d[..4]) + 7) / 8; 4 + k <= |d| && v[0] == d[4..4 + k] && Spells(d[4 + k..], v[1..])
  }

  lemma GetSshcomExactly(s: Source)
    requires s.Valid() && s.err == NoError
    ensures var left, (t, s') := s.Left(), GetSshcom(s);
            if |left| >= 4 && 4 + (BigEndian(left[..4]) + 7) / 8 <= |left| then
              var k := (BigEndian(left[..4]) + 7) / 8; t == left[4..4 + k] && s' == s.Advance(4 + k) && s'.Left() == left[4 + k..]
            else s'.err != NoError && t == [] && s'.data == s.data
  {
    hide BigEndian;
    var left := s.Left();
    if |left| >= 4 {
      assert s.data[s.pos..s.pos + 4] == left[..4];
      var k := (BigEndian(left[..4]) + 7) / 8;
      if 4 + k <= |left| {
        assert s.data[s.pos + 4..s.pos + 4 + k] == left[4..4 + k];
      }
    }
  }

  lemma {:induction false} SshcomErrorsStay(s: Source, count: nat)
    requires s.Valid() && s.err != NoError
    ensures ReadSshcom(s, count).1 == s
    decreases count
  {
    if count > 0 {
      SshcomErrorsStay(GetSshcom(s).1, count - 1);
    }
  }

  lemma {:induction false} SshcomSound(s: Source, count: nat)
    requires s.Valid() && s.err == NoError && ReadSshcom(s, count).1.err == NoError
    ensures Spells(s.Left(), ReadSshcom(s, count).0)
    decreases count
  {
    hide GetSshcom, BigEndian;
    if count > 0 {
      var (t, s1) := GetSshcom(s);
      GetSshcomExactly(s);
      if s1.err != NoError {
        SshcomErrorsStay(s1, count - 1);
      }
      SshcomSound(s1, count - 1);
      var v := ReadSshcom(s1, count - 1).0;
      assert ([t] + v)[1..] == v;
    }
  }

  lemma {:induction false} SshcomComplete(s: Source, v: seq<seq<Byte>>)
    requires s.Valid() && s.err == NoError && Spells(s.Left(), v)
    ensures ReadSshcom(s, |v|).1.err == NoError && ReadSshcom(s, |v|).0 == v
    decreases |v|
  {
    hide GetSshcom, BigEndian;
    if |v| > 0 {
      GetSshcomExactly(s);
      SshcomComplete(GetSshcom(s).1, v[1..]);
      assert v == [v[0]] + v[1..];
    }
  }

  lemma {:induction false} SpellsWithin(d: seq<Byte>, v: seq<seq<Byte>>)
    requires Spells(d, v)
    ensures forall i :: 0 <= i < |v| ==> |v[i]| <= |d|
    decreases |v|
  {
    if |v| > 0 {
      var k := (BigEndian(d[..4]) + 7) / 8;
      SpellsWithin(d[4 + k..], v[1..]);
      assert forall i :: 0 < i < |v| ==> v[i] == v[1..][i - 1];
    }
  }

  /** The payload of a key: a string with its length in front, with the key's integers in it, after a zero word for DSA. */
  ghost predicate IsPayload(rsa: bool, payload: seq<Byte>, v: seq<seq<Byte>>) {
    |payload| >= 4 && var n := BigEndian(payload[..4]);
    4 + n <= |payload| && var d := payload[4..4 + n];
    if rsa then |v| == 6 && Spells(d, v) else |v| == 5 && [0, 0, 0, 0] <= d && Spells(d[4..], v)
  }

  /** sshcom_read, from the decrypted payload on: it succeeds exactly if the payload is one of these, and then the key has
      those integers, in this order. */
  lemma SshcomReadExactly(rsa: bool, payload: seq<Byte>)
    requires |payload| + 1 < 0x1_0000_0000
    ensures var r := SshcomRead(rsa, payload);
            && (r.Ok? <==> exists v :: IsPayload(rsa, payload, v))
            && (forall v :: r.Ok? && rsa && IsPayload(rsa, payload, v) ==>
                  HoldKey(r.value, "ssh-rsa", [v[0], v[2]], [v[1], v[5], v[4], v[3]]))
            && (forall v :: r.Ok? && !rsa && IsPayload(rsa, payload, v) ==>
                  HoldKey(r.value, "ssh-dss", [v[0], v[2], v[1], v[3]], [v[4]]))
  {
    hide SshcomRead, HoldKey, IsPayload;
    var r := SshcomRead(rsa, payload);
    if r.Ok? {
      var v := SshcomReadSound(rsa, payload);
    }
    forall v | IsPayload(rsa, payload, v)
      ensures r.Ok? && (rsa ==> |v| == 6 && HoldKey(r.value, "ssh-rsa", [v[0], v[2]], [v[1], v[5], v[4], v[3]]))
                    && (!rsa ==> |v| == 5 && HoldKey(r.value, "ssh-dss", [v[0], v[2], v[1], v[3]], [v[4]]))
    {
      SshcomReadComplete(rsa, payload, v);
    }
  }

  lemma SshcomReadSound(rsa: bool, payload: seq<Byte>) returns (v: seq<seq<Byte>>)
    requires SshcomRead(rsa, payload).Ok?
    ensures IsPayload(rsa, payload, v)
  {
    hide GetString, GetUint, ReadSshcom, BigEndian, SshcomBlobs, Spells;
    var s := Source(payload, 0, NoError);
    SoundString(s);
    var d := GetString(s).0;
    assert d == payload[4..4 + |d|] && payload[..4] == payload[0..4];
    var s0 := Source(d, 0, NoError);
    assert s0.Left() == d;
    if rsa {
      v := ReadSshcom(s0, 6).0;
      SshcomSound(s0, 6);
    } else {
      var (zero, s1) := GetUint(s0, 4);
      if s1.err != NoError {
        SshcomErrorsStay(s1, 5);
      }
      SoundUint(s0, 4);
      assert d[0..4] == d[..4] && s1.Left() == d[4..];
      ZeroWord(d[..4]);
      v := ReadSshcom(s1, 5).0;
      SshcomSound(s1, 5);
    }
  }

  lemma ZeroWord(d: seq<Byte>)
    requires |d| == 4
    ensures BigEndian(d) == 0 <==> d == [0, 0, 0, 0]
  {
    hide BigEndian;
    FourBytes(d);
  }

  lemma SshcomReadComplete(rsa: bool, payload: seq<Byte>, v: seq<seq<Byte>>)
    requires IsPayload(rsa, payload, v) && |payload| + 1 < 0x1_0000_0000
    ensures var r := SshcomRead(rsa, payload);
            && r.Ok? && (rsa ==> |v| == 6 && HoldKey(r.value, "ssh-rsa", [v[0], v[2]], [v[1], v[5], v[4], v[3]]))
            && (!rsa ==> |v| == 5 && HoldKey(r.value, "ssh-dss", [v[0], v[2], v[1], v[3]], [v[4]]))
  {
    hide GetString, GetUint, ReadSshcom, BigEndian, Spells, HoldKey, Ssh2FromString, Str;
    var n := BigEndian(payload[..4]);
    var d, s := payload[4..4 + n], Source(payload, 0, NoError);
    assert s.Left() == payload[..4 + n] + payload[4 + n..];
    assert payload[..4 + n][..4] == payload[..4] && payload[..4 + n][4..] == d;
    CompleteString(s, payload[..4 + n], payload[4 + n..]);
    var s0 := Source(d, 0, NoError);
    if rsa {
      assert s0.Left() == d;
      SshcomComplete(s0, v);
      SpellsWithin(d, v);
      RsaHold(v[0], v[2], v[1], v[5], v[4], v[3]);
    } else {
      assert s0.Left() == d[..4] + d[4..];
      CompleteUint(s0, d[..4], d[4..]);
      ZeroWord(d[..4]);
      assert s0.Advance(4).Left() == d[4..];
      SshcomComplete(s0.Advance(4), v);
      SpellsWithin(d[4..], v);
      DsaHold(v[0], v[2], v[1], v[3], v[4]);
    }
  }

  /** The key blob around it: sshcom_read refuses it for its header, or else goes by the payload. */
  lemma SshcomLoadExactly(blob: seq<Byte>, decrypt: seq<Byte> -> seq<Byte>)
    ensures var vs := PerformAll(Source(blob, 0, NoError), [Uint(4), Uint(4), String, String, String]).0;
            && vs[0].Number? && vs[2].Content? && vs[3].Content? && vs[4].Content?
            && var typ, cipher, body := vs[2].d, vs[3].d, vs[4].d;
            var rsa := |typ| > 16 && typ[..16] == Ascii("if-modn{sign{rsa");
            var dsa := |typ| > 16 && typ[..16] == Ascii("dl-modp{sign{dsa");
            var locked := cipher == Ascii("3des-cbc");
            var acceptable := vs[0].v == 0x3f6f_f9eb && (rsa || dsa) && (locked || cipher == Ascii("none"))
                              && 0 < |body| && (locked ==> |body| % 8 == 0);
            SshcomReadBlob(blob, decrypt) ==
            if !acceptable then Refused
            else
              match SshcomRead(rsa, if locked then decrypt(body) else body)
              case Ok(blobs) => Loaded(blobs)
              case Failed => if locked then WrongPassphrase else Refused
  {
    hide GetUint, GetString, SshcomRead, Ascii;
    HeaderReads(Source(blob, 0, NoError));
  }

  lemma HeaderReads(s: Source)
    requires s.Valid()
    ensures var (a, s0) := GetUint(s, 4);
            var (b, s1) := GetUint(s0, 4);
            var (c, s2) := GetString(s1);
            var (d, s3) := GetString(s2);
            var (e, s4) := GetString(s3);
            PerformAll(s, [Uint(4), Uint(4), String, String, String]) ==
            ([Number(a), Number(b), Content(c), Content(d), Content(e)], s4)
  {
    hide GetUint, GetString, PerformAll;
    var (a, s0) := GetUint(s, 4);
    var (b, s1) := GetUint(s0, 4);
    ThreeStrings(s1);
    FirstRead(s0, Uint(4), [String, String, String]);
    FirstRead(s, Uint(4), [Uint(4), String, String, String]);
    assert [Uint(4), Uint(4), String, String, String] == [Uint(4)] + [Uint(4), String, String, String];
    assert [Uint(4), String, String, String] == [Uint(4)] + [String, String, String];
    var vs := PerformAll(s1, [String, String, String]).0;
    assert [Number(a)] + ([Number(b)] + vs) == [Number(a), Number(b), vs[0], vs[1], vs[2]];
  }

  lemma ThreeStrings(s: Source)
    requires s.Valid()
    ensures var (c, s1) := GetString(s);
            var (d, s2) := GetString(s1);
            var (e, s3) := GetString(s2);
            PerformAll(s, [String, String, String]) == ([Content(c), Content(d), Content(e)], s3)
  {
    hide GetString, PerformAll;
    var (c, s1) := GetString(s);
    var (d, s2) := GetString(s1);
    var (e, s3) := GetString(s2);
    LastReads(s3);
    FirstRead(s2, String, []);
    FirstRead(s1, String, [String]);
    FirstRead(s, String, [String, String]);
    assert [String, String, String] == [String] + [String, String] && [String, String] == [String] + [String];
    assert [String] == [String] + [];
    assert [Content(e)] + [] == [Content(e)] && [Content(d)] + [Content(e)] == [Content(d), Content(e)];
    assert [Content(c)] + [Content(d), Content(e)] == [Content(c), Content(d), Content(e)];
  }

  lemma FirstRead(s: Source, op: Read, rest: seq<Read>)
    requires s.Valid()
    ensures var (v, s') := Perform(s, op); var (vs, s'') := PerformAll(s', rest); PerformAll(s, [op] + rest) == ([v] + vs, s'')
  {
    hide Perform;
    assert ([op] + rest)[1..] == rest;
  }

  lemma LastReads(s: Source)
    requires s.Valid()
    ensures PerformAll(s, []) == ([], s)
  {
  }

  // ---------------------------------------------------------------- what ssh.com files hold

  /** The key blob that is written: the magic number, the length of the whole, the key type and the cipher by name, and the
      payload, of a length that the cipher can take. */
  lemma SshcomBlobHolds(key: Key, protected: bool, padding: seq<Byte>, encrypt: seq<Byte> -> seq<Byte>)
    requires key.Valid() && |padding| == PaddingFor(|SshcomPayload(key)|) && forall x :: |encrypt(x)| == |x|
    ensures var body := Body(key, protected, padding, encrypt);
            var blob := Blob(key.Rsa?, protected, body);
            && ReadsAs(blob, [Uint(4), Uint(4), String, String, String],
                       [Number(0x3f6f_f9eb), Number(|blob|),
                        Content(if key.Rsa? then Ascii("if-modn{sign{rsa") + Ascii("-pkcs1-sha1},encrypt{rsa-pkcs1v2-oaep}}")
                                else Ascii("dl-modp{sign{dsa") + Ascii("-nist-sha1},dh{plain}}")),
                        Content(Ascii(if protected then "3des-cbc" else "none")), Content(body)])
            && (protected ==> |body| % 8 == 0 && |body| < |SshcomPayload(key)| + 8)
  {
    hide GetUint, GetString, Put, SshcomPayload, Ascii, Key.Valid, Pow, PerformAll, Blob;
    PayloadSize(key);
    var body := Body(key, protected, padding, encrypt);
    HeaderReads(Source(Blob(key.Rsa?, protected, body), 0, NoError));
    HeaderBack(key.Rsa?, protected, body);
  }

  /** The payload that is written holds the numbers of the key, in the order of ssh.com: for RSA the second prime is before
      the first. */
  lemma SshcomPayloadHolds(key: Key, v: seq<seq<Byte>>)
    requires key.Valid()
    requires v == if key.Rsa? then [key.e, key.d, key.n, key.iqmp, key.q, key.p] else [key.p, key.g, key.q, key.y, key.x]
    ensures IsPayload(key.Rsa?, SshcomPayload(key), Contents(v))
    ensures forall i :: 0 <= i < |v| ==> BigEndian(Contents(v)[i]) == BigEndian(v[i])
  {
    hide Put, Str, BigEndian, SshcomContent, SshcomIntegers, Spells, Key.Valid;
    assert v == SshcomNumbers(key);
    NumbersSmall(key);
    SshcomFits(v);
    ContentValues(v);
    var ints := SshcomIntegers(v);
    SpelledOut(v, []);
    assert ints + [] == ints;
    SmallCounts();
    var d := (if key.Dsa? then Put(0, 4) else []) + ints;
    StringAhead(d);
    var p := SshcomPayload(key);
    assert p == Str(d) && p[4..4 + |d|] == d;
    if key.Dsa? {
      assert d[..4] == [0, 0, 0, 0] && d[4..] == ints;
    } else {
      assert d == ints;
    }
  }

  lemma StringAhead(d: seq<Byte>)
    requires |d| < 0x1_0000_0000
    ensures var p := Str(d); |p| == 4 + |d| && BigEndian(p[..4]) == |d| && p[4..4 + |d|] == d
  {
    hide Put, BigEndian;
    Pow256();
    PutRoundTrip(|d|, 4);
    assert Str(d)[..4] == Put(|d|, 4);
  }

  lemma ContentValues(v: seq<seq<Byte>>)
    ensures forall i :: 0 <= i < |v| ==> BigEndian(Contents(v)[i]) == BigEndian(v[i])
  {
    hide BigEndian, SshcomContent;
    forall i | 0 <= i < |v| ensures BigEndian(Contents(v)[i]) == BigEndian(v[i]) {
      SshcomContentSize(v[i]);
      StripZerosValue(v[i]);
      StripZerosValue(SshcomContent(v[i]).0);
    }
  }

  lemma {:induction false} SpelledOut(v: seq<seq<Byte>>, rest: seq<Byte>)
    requires forall i :: 0 <= i < |v| ==> |v[i]| < 0x10_0000
    ensures Spells(SshcomIntegers(v) + rest, Contents(v))
    decreases |v|
  {
    hide Put, BigEndian, SshcomContent, Pow;
    if |v| > 0 {
      var (t, bits) := SshcomContent(v[0]);
      var tail := SshcomIntegers(v[1..]) + rest;
      var d := SshcomIntegers(v) + rest;
      SshcomContentSize(v[0]);
      Pow256();
      PutRoundTrip(bits, 4);
      assert d == Put(bits, 4) + t + tail;
      assert d[..4] == Put(bits, 4) && d[4..4 + |t|] == t && d[4 + |t|..] == tail;
      SpelledOut(v[1..], rest);
      assert Contents(v)[1..] == Contents(v[1..]);
    }
  }
}
