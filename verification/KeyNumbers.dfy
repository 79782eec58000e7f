/**
 The numbers that the writers of private key files take out of PuTTY's key blobs,
 and the two that they compute.
 */
module KeyNumbers {
  import opened Arithmetic
  import opened Words
  import opened MpInts
  import opened AddSub
  import opened SafeShifts
  import opened Division
  import opened Bytes
  import opened Marshal
  import opened Wire
  import opened KeyFiles

  /** The next string of a blob. */
  lemma NextString(s: Source, ss: seq<seq<Byte>>)
    requires |ss| > 0 && Before(s, Strs(ss), []) && |ss[0]| < 0x1_0000_0000
    ensures var (d, s') := GetString(s); d == ss[0] && Before(s', Strs(ss[1..]), [])
  {
    hide Put, GetString;
    var tail := Strs(ss[1..]);
    assert Strs(ss) + [] == Put(|ss[0]|, 4) + ss[0] + tail;
    GetStringBack(s, ss[0], tail);
    assert tail + [] == [] + tail;
  }

  lemma StartOfBlob(blob: seq<Byte>, ss: seq<seq<Byte>>)
    requires blob == Strs(ss)
    ensures Before(Source(blob, 0, NoError), Strs(ss), [])
  {
    assert Source(blob, 0, NoError).Left() == blob + [];
  }

  /** The strings of a blob, one get_string after another. */
  method GetStrings(blob: seq<Byte>, n: nat, ghost ss: seq<seq<Byte>>) returns (r: seq<seq<Byte>>)
    requires blob == Strs(ss) && |ss| == n && forall i :: 0 <= i < n ==> |ss[i]| < 0x1_0000_0000
    ensures r == ss
  {
    hide Strs, GetString, Before;
    var src := new BinarySource(blob);
    StartOfBlob(blob, ss);
    r := [];
    assert ss[0..] == ss;
    while |r| < n
      invariant |r| <= n && r == ss[..|r|] && src.State().Valid() && Before(src.State(), Strs(ss[|r|..]), [])
    {
      NextString(src.State(), ss[|r|..]);
      assert ss[|r|..][1..] == ss[|r| + 1..];
      var d := src.ReadString();
      r := r + [d];
    }
  }

  /** The bytes of d modulo p - 1, with room for a sign bit. */
  method Reduced(d: seq<Byte>, p: seq<Byte>) returns (r: seq<Byte>)
    requires BigEndian(p) > 1
    ensures 0 <= BigEndian(d) % (BigEndian(p) - 1) && r == Ssh2Bytes(BigEndian(d) % (BigEndian(p) - 1))
  {
    hide Nat, Base, MpInt.Words, MpInt.Value, BigEndian, Put, HasBits, Nbits;
    var bd := FromBytesBe(d);
    var bp := FromBytesBe(p);
    ValueBound(bp);
    SubIntegerInto(bp, bp, 1);
    SmallMod(BigEndian(p) - 1, Base(bp.nw));
    var rest := Mod(bd, bp);
    CongMod(BigEndian(d), BigEndian(p) - 1);
    var bits := GetNbits(rest);
    NbitsBounds(rest.Value());
    BitsUnique(rest.Value(), bits, Nbits(rest.Value()));
    var spareblob := new BinarySink();
    PutBytes(spareblob, rest, (bits + 8) / 8);
    r := spareblob.out;
  }

  /** The first part of openssh_pem_write: the integers to be written for a key, out of its blobs. */
  method PemNumbersOf(blobs: Blobs, rsa: bool, ghost key: Key) returns (numbers: seq<seq<Byte>>)
    requires key.Valid() && blobs == key.ToBlobs() && rsa == key.Rsa?
    ensures numbers == PemNumbers(key)
  {
    hide Strs, BigEndian, Canonical, PemNumbers;
    if rsa {
      numbers := RsaNumbersOf(blobs, key);
    } else {
      BlobStrings(key);
      DsaIntegers(key);
      var pub := GetStrings(blobs.public, 5, [SSH_DSS, key.p, key.q, key.g, key.y]);
      var priv := GetStrings(blobs.private, 1, [key.x]);
      numbers := [[0], pub[1], pub[2], pub[3], pub[4], priv[0]];
    }
  }

  method RsaNumbersOf(blobs: Blobs, ghost key: Key) returns (numbers: seq<seq<Byte>>)
    requires key.Valid() && blobs == key.ToBlobs() && key.Rsa?
    ensures numbers == PemNumbers(key)
  {
    hide Strs, BigEndian, Ssh2Bytes, Canonical, Key.ToBlobs, Key.Numbers;
    BlobStrings(key);
    var pub := GetStrings(blobs.public, 3, [SSH_RSA, key.e, key.n]);
    var priv := GetStrings(blobs.private, 4, [key.d, key.p, key.q, key.iqmp]);
    var e, n := pub[1], pub[2];
    var d, p, q, iqmp := priv[0], priv[1], priv[2], priv[3];
    var dmp1 := Reduced(d, p);
    var dmq1 := Reduced(d, q);
    numbers := [[0], n, e, d, p, q, dmp1, dmq1, iqmp];
  }

  /** openssh_pem_write, as far as the payload. */
  method PemWriteKey(outblob: BinarySink, blobs: Blobs, rsa: bool, ghost key: Key)
    requires key.Valid() && blobs == key.ToBlobs() && rsa == key.Rsa?
    modifies outblob
    ensures (forall s :: s in PemNumbers(key) ==> |s| < 0x100_0000) && |BerIntegers(PemNumbers(key))| < 0x100_0000
    ensures outblob.out == old(outblob.out) + PemPayload(PemNumbers(key))
  {
    hide PemNumbers, BerIntegers, Key.Valid, Key.ToBlobs, PemPayload;
    var numbers := PemNumbersOf(blobs, rsa, key);
    PemNumbersFit(key);
    PemWrite(outblob, numbers);
  }

  /** The first part of sshcom_write. */
  method SshcomNumbersOf(blobs: Blobs, rsa: bool, ghost key: Key) returns (numbers: seq<seq<Byte>>)
    requires key.Valid() && blobs == key.ToBlobs() && rsa == key.Rsa?
    ensures numbers == SshcomNumbers(key)
  {
    hide Strs, BigEndian, Canonical;
    BlobStrings(key);
    if rsa {
      var pub := GetStrings(blobs.public, 3, [SSH_RSA, key.e, key.n]);
      var priv := GetStrings(blobs.private, 4, [key.d, key.p, key.q, key.iqmp]);
      var e, n := pub[1], pub[2];
      var d, p, q, iqmp := priv[0], priv[1], priv[2], priv[3];
      numbers := [e, d, n, iqmp, q, p];
    } else {
      var pub := GetStrings(blobs.public, 5, [SSH_DSS, key.p, key.q, key.g, key.y]);
      var priv := GetStrings(blobs.private, 1, [key.x]);
      numbers := [pub[1], pub[3], pub[2], pub[4], priv[0]];
    }
  }

  lemma BlobStrings(key: Key)
    requires key.Valid()
    ensures key.Rsa? ==> key.ToBlobs() == Blobs(Strs([SSH_RSA, key.e, key.n]), Strs([key.d, key.p, key.q, key.iqmp]))
                         && forall s :: s in [SSH_RSA, key.e, key.n, key.d, key.p, key.q, key.iqmp] ==> |s| < 0x1_0000_0000
    ensures key.Dsa? ==> key.ToBlobs() == Blobs(Strs([SSH_DSS, key.p, key.q, key.g, key.y]), Strs([key.x]))
                         && forall s :: s in [SSH_DSS, key.p, key.q, key.g, key.y, key.x] ==> |s| < 0x1_0000_0000
  {
    hide Canonical, BigEndian, Str;
    if key.Rsa? {
      RsaMembers(key);
      assert [SSH_RSA, key.e, key.n][1..] == [key.e, key.n];
    } else {
      DsaMembers(key);
      assert [SSH_DSS, key.p, key.q, key.g, key.y][1..] == [key.p, key.q, key.g, key.y];
    }
  }
}
