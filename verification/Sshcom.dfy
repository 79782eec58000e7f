/**
 The key blob of an ssh.com private key file: a header with lengths that are
 filled in last, and the payload, padded and encrypted if there is a passphrase.
 */
module Sshcom {
  import opened Arithmetic
  import opened Bytes
  import opened Marshal
  import opened KeyFiles
  import opened KeyNumbers

  const SSHCOM_MAGIC_NUMBER: nat := 0x3f6f_f9eb

  function PrefixRsa(): seq<Byte> { Ascii("if-modn{sign{rsa") }
  function PrefixDsa(): seq<Byte> { Ascii("dl-modp{sign{dsa") }

  function NoCipher(): seq<Byte> { Ascii("none") }
  function TripleDes(): seq<Byte> { Ascii("3des-cbc") }

  function TypeString(rsa: bool): seq<Byte> {
    if rsa then PrefixRsa() + Ascii("-pkcs1-sha1},encrypt{rsa-pkcs1v2-oaep}}") else PrefixDsa() + Ascii("-nist-sha1},dh{plain}}")
  }

  function CipherName(protected: bool): seq<Byte> {
    if protected then TripleDes() else NoCipher()
  }

  /** How many bytes are missing to a multiple of the cipher's block size. */
  function PaddingFor(len: nat): nat {
    (8 - len % 8) % 8
  }

  /** The encrypted part, and the blob around it. */
  function Body(key: Key, protected: bool, padding: seq<Byte>, encrypt: seq<Byte> -> seq<Byte>): seq<Byte> {
    if protected then encrypt(SshcomPayload(key) + padding) else SshcomPayload(key)
  }

  function Blob(rsa: bool, protected: bool, body: seq<Byte>): seq<Byte> {
    var rest := Str(TypeString(rsa)) + Str(CipherName(protected)) + Str(body);
    Put(SSHCOM_MAGIC_NUMBER, 4) + Put(8 + |rest|, 4) + rest
  }

  // --------------------------------------------------------------------------- writing

  /** PUT_32BIT_MSB_FIRST, into a blob that is already there. */
  method Fill(outblob: BinarySink, pos: nat, v: nat)
    requires pos + 4 <= |outblob.out|
    modifies outblob
    ensures outblob.out == old(outblob.out)[..pos] + Put(v, 4) + old(outblob.out)[pos + 4..]
  {
    outblob.out := outblob.out[..pos] + Put(v, 4) + outblob.out[pos + 4..];
  }

  /** The integers of the payload, one after the other. */
  method PutNumbers(outblob: BinarySink, numbers: seq<seq<Byte>>)
    modifies outblob
    ensures outblob.out == old(outblob.out) + SshcomIntegers(numbers)
  {
    hide SshcomFromString;
    var i := 0;
    assert numbers[..0] == [] && SshcomIntegers([]) == [];
    while i < |numbers|
      invariant 0 <= i <= |numbers| && outblob.out == old(outblob.out) + SshcomIntegers(numbers[..i])
    {
      IntegersSnoc(numbers, i);
      PutMpSshcomFromString(outblob, numbers[i]);
      i := i + 1;
    }
    assert numbers[..i] == numbers;
  }

  lemma IntegersSnoc(ss: seq<seq<Byte>>, i: nat)
    requires i < |ss|
    ensures SshcomIntegers(ss[..i + 1]) == SshcomIntegers(ss[..i]) + SshcomFromString(ss[i])
  {
    assert ss[..i + 1] == ss[..i] + [ss[i]];
    IntegersAppend(ss[..i], ss[i]);
  }

  lemma {:induction false} IntegersAppend(ss: seq<seq<Byte>>, s: seq<Byte>)
    ensures SshcomIntegers(ss + [s]) == SshcomIntegers(ss) + SshcomFromString(s)
  {
    hide SshcomFromString;
    if |ss| == 0 {
      assert ss + [s] == [s] && SshcomIntegers([s][1..]) == [];
      assert SshcomIntegers(ss) == [];
    } else {
      assert (ss + [s])[1..] == ss[1..] + [s];
      IntegersAppend(ss[1..], s);
    }
  }

  /** The payload, whose length is filled in when it is there. */
  method PutPayload(outblob: BinarySink, rsa: bool, numbers: seq<seq<Byte>>, ghost key: Key)
    requires rsa == key.Rsa? && numbers == SshcomNumbers(key)
    modifies outblob
    ensures outblob.out == old(outblob.out) + SshcomPayload(key)
  {
    hide SshcomIntegers, Put, SshcomNumbers;
    ghost var front := outblob.out;
    var pos := |outblob.out|;
    outblob.PutUint(0, 4);
    if !rsa {
      outblob.PutUint(0, 4);
    }
    PutNumbers(outblob, numbers);
    ghost var inner := (if key.Dsa? then Put(0, 4) else []) + SshcomIntegers(SshcomNumbers(key));
    assert outblob.out == front + Put(0, 4) + inner;
    Filled(front, Put(0, 4), inner, Put(|inner|, 4));
    Fill(outblob, pos, |outblob.out| - (pos + 4));
    assert front + Put(|inner|, 4) + inner == front + Str(inner);
  }

  lemma Filled(a: seq<Byte>, z: seq<Byte>, b: seq<Byte>, v: seq<Byte>)
    requires |z| == |v| == 4
    ensures (a + z + b)[..|a|] + v + (a + z + b)[|a| + 4..] == a + v + b && |a + z + b| == |a| + 4 + |b|
  {
  }

  /** Everything before the encrypted part. */
  method PutHeader(outblob: BinarySink, rsa: bool, protected: bool)
    requires outblob.out == []
    modifies outblob
    ensures outblob.out == Put(SSHCOM_MAGIC_NUMBER, 4) + Put(0, 4) + (Str(TypeString(rsa)) + Str(CipherName(protected)))
  {
    hide Put, TypeString, CipherName;
    TypesShort(rsa, protected);
    outblob.PutUint(SSHCOM_MAGIC_NUMBER, 4);
    outblob.PutUint(0, 4);
    outblob.PutString(TypeString(rsa));
    outblob.PutString(CipherName(protected));
  }

  /** The key blob that sshcom_write makes out of the blobs of a key. The padding is of random bytes. */
  method SshcomWrite(blobs: Blobs, rsa: bool, protected: bool, padding: seq<Byte>, encrypt: seq<Byte> -> seq<Byte>, ghost key: Key)
    returns (outblob: BinarySink)
    requires key.Valid() && blobs == key.ToBlobs() && rsa == key.Rsa? && |padding| == PaddingFor(|SshcomPayload(key)|)
    requires forall x :: |encrypt(x)| == |x|
    ensures fresh(outblob) && outblob.out == Blob(key.Rsa?, protected, Body(key, protected, padding, encrypt))
  {
    hide Put, Key.Valid, Key.ToBlobs, SshcomPayload, SshcomNumbers, TypeString, CipherName, PaddingFor;
    var numbers := SshcomNumbersOf(blobs, rsa, key);
    outblob := new BinarySink();
    PutHeader(outblob, rsa, protected);
    var lenpos := |outblob.out|;
    ghost var magic, front := Put(SSHCOM_MAGIC_NUMBER, 4), Str(TypeString(rsa)) + Str(CipherName(protected));
    outblob.PutUint(0, 4);
    PutPayload(outblob, rsa, numbers, key);
    if protected {
      outblob.PutData(padding);
    }
    ghost var plain := SshcomPayload(key) + if protected then padding else [];
    assert outblob.out == magic + Put(0, 4) + front + Put(0, 4) + plain;
    Wrap(outblob, magic, front, plain, lenpos);
    var body := outblob.out[lenpos + 4..];
    assert body == plain;
    var cipher := if protected then encrypt(body) else body;
    assert cipher == Body(key, protected, padding, encrypt);
    outblob.out := outblob.out[..lenpos + 4] + cipher;
    Wrapped(magic, front, plain, cipher);
  }

  /** The lengths of the encrypted part and of the whole. */
  method Wrap(outblob: BinarySink, ghost magic: seq<Byte>, ghost front: seq<Byte>, ghost plain: seq<Byte>, lenpos: nat)
    requires |magic| == 4 && lenpos == 8 + |front| && outblob.out == magic + Put(0, 4) + front + Put(0, 4) + plain
    modifies outblob
    ensures outblob.out == magic + Put(12 + |front| + |plain|, 4) + front + Put(|plain|, 4) + plain
  {
    hide Put;
    ghost var zero, len := Put(0, 4), Put(|plain|, 4);
    var cipherlen := |outblob.out| - (lenpos + 4);
    Filled(magic + zero + front, zero, plain, len);
    Fill(outblob, lenpos, cipherlen);
    assert magic + zero + front + len + plain == magic + zero + (front + len + plain);
    Filled(magic, zero, front + len + plain, Put(|outblob.out|, 4));
    Fill(outblob, 4, |outblob.out|);
    ghost var total := Put(12 + |front| + |plain|, 4);
    assert magic + total + (front + len + plain) == magic + total + front + len + plain;
  }

  lemma Wrapped(magic: seq<Byte>, front: seq<Byte>, plain: seq<Byte>, cipher: seq<Byte>)
    requires |magic| == 4 && |plain| == |cipher|
    ensures var out, n := magic + Put(12 + |front| + |plain|, 4) + front + Put(|plain|, 4) + plain, 12 + |front|;
            && n <= |out| && out[n..] == plain
            && out[..n] + cipher == magic + Put(8 + |front + Str(cipher)|, 4) + (front + Str(cipher))
  {
    hide Put;
    var t, k := Put(12 + |front| + |plain|, 4), Put(|plain|, 4);
    var h := magic + t + front + k;
    assert |h| == 12 + |front|;
    assert (h + plain)[..|h|] == h && (h + plain)[|h|..] == plain;
    assert h + cipher == magic + t + (front + (k + cipher));
  }

  // --------------------------------------------------------------------------- reading

  datatype LoadResult = Loaded(blobs: Blobs) | Refused | WrongPassphrase

  predicate StartsWith(s: seq<Byte>, prefix: seq<Byte>) {
    |s| > |prefix| && s[..|prefix|] == prefix
  }

  /** sshcom_read, from the key blob on. */
  function SshcomReadBlob(blob: seq<Byte>, decrypt: seq<Byte> -> seq<Byte>): LoadResult {
    var (magic, s0) := GetUint(Source(blob, 0, NoError), 4);
    var (_, s1) := GetUint(s0, 4);
    var (typ, s2) := GetString(s1);
    var (name, s3) := GetString(s2);
    var (body, _) := GetString(s3);
    var rsa := StartsWith(typ, PrefixRsa());
    var encrypted := name == TripleDes();
    if magic != SSHCOM_MAGIC_NUMBER || !(rsa || StartsWith(typ, PrefixDsa())) then Refused
    else if !(encrypted || name == NoCipher()) || |body| == 0 || (encrypted && |body| % 8 != 0) then Refused
    else
      match SshcomRead(rsa, if encrypted then decrypt(body) else body)
      case Ok(blobs) => Loaded(blobs)
      case Failed => if encrypted then WrongPassphrase else Refused
  }

  /** What was written is read back, with a passphrase or without. */
  lemma SshcomRoundTrip(key: Key, protected: bool, padding: seq<Byte>, encrypt: seq<Byte> -> seq<Byte>,
                        decrypt: seq<Byte> -> seq<Byte>)
    requires key.Valid() && |padding| == PaddingFor(|SshcomPayload(key)|)
    requires forall x :: |encrypt(x)| == |x| && (|x| % 8 == 0 ==> decrypt(encrypt(x)) == x)
    ensures SshcomReadBlob(Blob(key.Rsa?, protected, Body(key, protected, padding, encrypt)), decrypt) == Loaded(key.ToBlobs())
  {
    hide SshcomRead, GetUint, GetString, Put, Key.Valid, Key.ToBlobs, SshcomPayload, TypeString, CipherName, StartsWith, Blob,
         TripleDes, NoCipher, PrefixRsa, PrefixDsa;
    var payload, body := SshcomPayload(key), Body(key, protected, padding, encrypt);
    PayloadSize(key);
    assert |body| == |payload| + (if protected then |padding| else 0);
    HeaderBack(key.Rsa?, protected, body);
    TypesDiffer();
    SshcomPayloadBack(key, padding);
    SshcomPayloadBack(key, []);
    assert payload + [] == payload;
  }

  lemma TypesDiffer()
    ensures StartsWith(TypeString(true), PrefixRsa())
    ensures StartsWith(TypeString(false), PrefixDsa()) && !StartsWith(TypeString(false), PrefixRsa())
    ensures CipherName(true) == TripleDes() != NoCipher() == CipherName(false)
  {
    assert TypeString(false)[0] == 'd' as int && PrefixRsa()[0] == 'i' as int;
    assert |TripleDes()| == 8 && |NoCipher()| == 4;
  }

  lemma PayloadSize(key: Key)
    requires key.Valid()
    ensures 0 < |SshcomPayload(key)| < 0x100_0000
  {
    hide SshcomIntegers, SshcomNumbers, Key.Valid;
    NumbersSmall(key);
    NumbersCount(key);
    SshcomFits(SshcomNumbers(key));
  }

  lemma NumbersCount(key: Key)
    ensures |SshcomNumbers(key)| <= 6
  {
  }

  /** The header and the strings after it. */
  lemma HeaderBack(rsa: bool, protected: bool, body: seq<Byte>)
    requires |body| < 0x200_0000
    ensures var (magic, s0) := GetUint(Source(Blob(rsa, protected, body), 0, NoError), 4);
            var (len, s1) := GetUint(s0, 4);
            var (typ, s2) := GetString(s1);
            var (name, s3) := GetString(s2);
            var (content, s4) := GetString(s3);
            && magic == SSHCOM_MAGIC_NUMBER && len == |Blob(rsa, protected, body)| && typ == TypeString(rsa)
            && name == CipherName(protected) && content == body && s4 == Source(Blob(rsa, protected, body), len, NoError)
  {
    hide GetUint, GetString, Put, TypeString, CipherName, Before, Pow;
    var typ, name := TypeString(rsa), CipherName(protected);
    var a, b, c := Str(typ), Str(name), Str(body);
    var s := Source(Blob(rsa, protected, body), 0, NoError);
    var len := 8 + |a + b + c|;
    TypesShort(rsa, protected);
    Pow256();
    StartOf(s, Put(SSHCOM_MAGIC_NUMBER, 4), Put(len, 4) + (a + b + c));
    GetUintBack(s, SSHCOM_MAGIC_NUMBER, 4, Put(len, 4) + (a + b + c));
    var s0 := s.Advance(4);
    Next(s0, Put(len, 4), a + b + c);
    GetUintBack(s0, len, 4, a + b + c);
    var s1 := s0.Advance(4);
    assert a + b + c == a + (b + c);
    Next(s1, a, b + c);
    GetStringBack(s1, typ, b + c);
    var s2 := s1.Advance(4 + |typ|);
    Next(s2, b, c);
    GetStringBack(s2, name, c);
    var s3 := s2.Advance(4 + |name|);
    assert c == c + [];
    Next(s3, c, []);
    GetStringBack(s3, body, []);
  }

  lemma TypesShort(rsa: bool, protected: bool)
    ensures |TypeString(rsa)| < 100 && |CipherName(protected)| < 100
  {
  }

  lemma StartOf(s: Source, d: seq<Byte>, rest: seq<Byte>)
    requires s == Source(d + rest, 0, NoError)
    ensures Before(s, d, rest)
  {
    assert s.Left() == d + rest;
  }

  lemma Next(s: Source, d: seq<Byte>, rest: seq<Byte>)
    requires Before(s, [], d + rest)
    ensures Before(s, d, rest)
  {
    assert [] + (d + rest) == d + rest;
  }
}
