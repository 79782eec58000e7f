/**
 The payloads of private key files: what the OpenSSH PEM and ssh.com writers
 produce, unencrypted, and what the readers make of it.
 */
module KeyFiles {
  import opened Arithmetic
  import opened Bytes
  import opened Marshal
  import opened Wire
  import opened Ber
  import opened SafeShifts
  import opened Primes

  // ---------------------------------------------------------------------------- key blobs

  /** A string with its length in front. */
  function Str(s: seq<Byte>): seq<Byte> {
    Put(|s|, 4) + s
  }

  function Strs(ss: seq<seq<Byte>>): seq<Byte> {
    if |ss| == 0 then [] else Str(ss[0]) + Strs(ss[1..])
  }

  /** The public and private parts of a key, as PuTTY keeps them. */
  datatype Blobs = Blobs(public: seq<Byte>, private: seq<Byte>)

  datatype Key =
    | Rsa(e: seq<Byte>, n: seq<Byte>, d: seq<Byte>, p: seq<Byte>, q: seq<Byte>, iqmp: seq<Byte>)
    | Dsa(p: seq<Byte>, q: seq<Byte>, g: seq<Byte>, y: seq<Byte>, x: seq<Byte>)
  {
    function Numbers(): seq<seq<Byte>> {
      match this
      case Rsa(e, n, d, p, q, iqmp) => [e, n, d, p, q, iqmp]
      case Dsa(p, q, g, y, x) => [p, q, g, y, x]
    }

    /** Each number is written as put_mp_ssh2 writes positive numbers, and is of a size that the formats can count. */
    ghost predicate Valid() {
      && (forall s :: s in Numbers() ==> Canonical(s) && |s| < 0x10_0000)
      && (Rsa? ==> BigEndian(p) > 1 && BigEndian(q) > 1)
    }

    function ToBlobs(): Blobs {
      match this
      case Rsa(e, n, d, p, q, iqmp) => Blobs(Str(SSH_RSA) + Strs([e, n]), Strs([d, p, q, iqmp]))
      case Dsa(p, q, g, y, x) => Blobs(Str(SSH_DSS) + Strs([p, q, g, y]), Strs([x]))
    }
  }

  const SSH_RSA: seq<Byte> := Ascii("ssh-rsa")
  const SSH_DSS: seq<Byte> := Ascii("ssh-dss")

  /** A canonical string goes through put_mp_ssh2_from_string unchanged. */
  lemma CanonicalUnchanged(s: seq<Byte>)
    requires Canonical(s)
    ensures Ssh2FromString(s) == Str(s)
  {
    hide Put;
    if |s| > 0 && s[0] == 0 {
      assert StripZeros(s) == StripZeros(s[1..]) == s[1..];
      assert [0 as Byte] + s[1..] == s;
    }
  }

  // ----------------------------------------------------------------------- OpenSSH PEM

  /** The ASN.1 INTEGER with the given content. */
  function BerInteger(s: seq<Byte>): seq<Byte>
    requires |s| < 0x100_0000
  {
    FewDigits(|s|);
    IdBytes(2, 0) + (LengthBytes(|s|) + s)
  }

  function BerIntegers(ss: seq<seq<Byte>>): seq<Byte>
    requires forall s :: s in ss ==> |s| < 0x100_0000
  {
    if |ss| == 0 then [] else BerInteger(ss[0]) + BerIntegers(ss[1..])
  }

  /** The integers that openssh_pem_write puts into the sequence. */
  function PemNumbers(key: Key): seq<seq<Byte>>
    requires key.Rsa? ==> BigEndian(key.p) > 1 && BigEndian(key.q) > 1
  {
    match key
    case Rsa(e, n, d, p, q, iqmp) =>
      CongMod(BigEndian(d), BigEndian(p) - 1);
      CongMod(BigEndian(d), BigEndian(q) - 1);
      var dmp1, dmq1 := BigEndian(d) % (BigEndian(p) - 1), BigEndian(d) % (BigEndian(q) - 1);
      [[0], n, e, d, p, q, Ssh2Bytes(dmp1), Ssh2Bytes(dmq1), iqmp]
    case Dsa(p, q, g, y, x) => [[0], p, q, g, y, x]
  }

  /** The integers of an RSAPrivateKey, in the order of PKCS #1: version, modulus, exponents, primes, the exponent reduced
      modulo each prime less 1, and the coefficient. */
  lemma RsaIntegers(key: Key)
    requires key.Valid() && key.Rsa?
    ensures var v := PemNumbers(key);
            && |v| == 9 && v[0] == [0] && v[1] == key.n && v[2] == key.e && v[3] == key.d && v[4] == key.p && v[5] == key.q
            && v[8] == key.iqmp
            && BigEndian(v[6]) < BigEndian(key.p) - 1 && Cong(BigEndian(v[6]), BigEndian(key.d), BigEndian(key.p) - 1)
            && BigEndian(v[7]) < BigEndian(key.q) - 1 && Cong(BigEndian(v[7]), BigEndian(key.d), BigEndian(key.q) - 1)
  {
    hide BigEndian, Ssh2Bytes, Canonical;
    ReducedExponent(BigEndian(key.d), BigEndian(key.p));
    ReducedExponent(BigEndian(key.d), BigEndian(key.q));
  }

  lemma ReducedExponent(d: nat, p: nat)
    requires p > 1
    ensures 0 <= d % (p - 1) < p - 1 && Cong(d % (p - 1), d, p - 1) && BigEndian(Ssh2Bytes(d % (p - 1))) == d % (p - 1)
  {
    CongMod(d, p - 1);
    BytesSuffice(d % (p - 1));
    BytesBack(d % (p - 1));
  }

  /** What the reduced exponents are for: they do to any number what the exponent itself does, modulo each of the primes. */
  lemma ReducedExponentsServe(key: Key, x: nat)
    requires key.Valid() && key.Rsa? && IsPrime(BigEndian(key.p)) && IsPrime(BigEndian(key.q))
    ensures var v, p := PemNumbers(key), BigEndian(key.p);
            x % p != 0 ==> Cong(Pow(x, BigEndian(v[6])), Pow(x, BigEndian(key.d)), p)
    ensures var v, q := PemNumbers(key), BigEndian(key.q);
            x % q != 0 ==> Cong(Pow(x, BigEndian(v[7])), Pow(x, BigEndian(key.d)), q)
  {
    hide BigEndian, IsPrime, Pow, PemNumbers, Key.Valid;
    RsaIntegers(key);
    var v, d := PemNumbers(key), BigEndian(key.d);
    ExponentsAgree(BigEndian(key.p), x, BigEndian(v[6]), d);
    ExponentsAgree(BigEndian(key.q), x, BigEndian(v[7]), d);
  }

  lemma ExponentsAgree(p: nat, x: nat, r: nat, d: nat)
    requires IsPrime(p) && p > 1 && r < p - 1 && Cong(r, d, p - 1)
    ensures x % p != 0 ==> Cong(Pow(x, r), Pow(x, d), p)
  {
    hide IsPrime, Pow;
    if x % p != 0 {
      var m := p - 1;
      SmallMod(r, m);
      DivNonNeg(d, m);
      var k := d / m;
      assert d == m * k + r;
      Fermat(p, x);
      PowAdd(x, m * k, r);
      PowMul(x, m, k);
      CongPow(Pow(x, m), 1, k, p);
      PowOne(k);
      CongMul(Pow(x, m * k), 1, Pow(x, r), Pow(x, r), p);
    }
  }

  /** The integers of a DSA key, after the version. */
  lemma DsaIntegers(key: Key)
    requires key.Dsa?
    ensures var v := PemNumbers(key);
            |v| == 6 && v[0] == [0] && v[1] == key.p && v[2] == key.q && v[3] == key.g && v[4] == key.y && v[5] == key.x
  {
  }

  /** The payload: a constructed SEQUENCE of INTEGERs. */
  function PemPayload(numbers: seq<seq<Byte>>): seq<Byte>
    requires (forall s :: s in numbers ==> |s| < 0x100_0000) && |BerIntegers(numbers)| < 0x100_0000
  {
    var content := BerIntegers(numbers);
    FewDigits(|content|);
    IdBytes(16, 32) + (LengthBytes(|content|) + content)
  }

  lemma {:induction false} BerIntegersSnoc(ss: seq<seq<Byte>>, s: seq<Byte>)
    requires (forall t :: t in ss ==> |t| < 0x100_0000) && |s| < 0x100_0000
    ensures forall t :: t in ss + [s] ==> |t| < 0x100_0000
    ensures BerIntegers(ss + [s]) == BerIntegers(ss) + BerInteger(s)
  {
    hide BerInteger;
    if |ss| == 0 {
      assert (ss + [s])[1..] == [];
      assert BerInteger(s) + [] == BerInteger(s);
    } else {
      assert (ss + [s])[1..] == ss[1..] + [s];
      BerIntegersSnoc(ss[1..], s);
    }
  }

  /** The part of openssh_pem_write that RSA and DSA share. */
  method PemWrite(outblob: BinarySink, numbers: seq<seq<Byte>>)
    requires (forall s :: s in numbers ==> |s| < 0x100_0000) && |BerIntegers(numbers)| < 0x100_0000
    modifies outblob
    ensures outblob.out == old(outblob.out) + PemPayload(numbers)
  {
    hide IdBytes, LengthBytes, BerIntegers, DigitCount;
    var content := new BinarySink();
    NoIntegers();
    var i := 0;
    while i < |numbers|
      invariant 0 <= i <= |numbers| && fresh(content) && outblob.out == old(outblob.out)
      invariant (forall s :: s in numbers[..i] ==> |s| < 0x100_0000) && content.out == BerIntegers(numbers[..i])
    {
      var s := numbers[i];
      assert numbers[..i + 1] == numbers[..i] + [s];
      BerIntegersSnoc(numbers[..i], s);
      ghost var before := content.out;
      PutBerIdLen(content, 2, |s|, 0);
      content.PutData(s);
      assert content.out == before + BerInteger(s);
      i := i + 1;
    }
    assert numbers[..i] == numbers;
    PutBerIdLen(outblob, 16, |content.out|, 32);
    outblob.PutData(content.out);
    assert outblob.out == old(outblob.out) + PemPayload(numbers);
  }

  lemma NoIntegers()
    ensures BerIntegers([]) == []
  {
  }

  datatype Result<T> = Ok(value: T) | Failed

  /** Reading count INTEGERs. */
  function ReadIntegers(s: Source, count: nat): (r: Result<seq<seq<Byte>>>)
    requires s.Valid()
    ensures r.Ok? ==> |r.value| == count
    decreases count
  {
    if count == 0 then Ok([])
    else
      var (item, s') := GetBer(s);
      if s'.err != NoError || item.id != 2 then Failed
      else
        match ReadIntegers(s', count - 1)
        case Failed => Failed
        case Ok(rest) => Ok([item.data] + rest)
  }

  /** What openssh_pem_read makes of the integers: they are put in PuTTY's order, and two are dropped. */
  function PemBlobs(rsa: bool, v: seq<seq<Byte>>): Result<Blobs>
    requires |v| == if rsa then 9 else 6
  {
    if v[0] != [0] then Failed
    else if rsa then
      Ok(Blobs(Str(SSH_RSA) + Ssh2FromString(v[2]) + Ssh2FromString(v[1]),
               Ssh2FromString(v[3]) + Ssh2FromString(v[4]) + Ssh2FromString(v[5]) + Ssh2FromString(v[8])))
    else
      Ok(Blobs(Str(SSH_DSS) + Ssh2FromString(v[1]) + Ssh2FromString(v[2]) + Ssh2FromString(v[3]) + Ssh2FromString(v[4]),
               Ssh2FromString(v[5])))
  }

  /** The unencrypted path of openssh_pem_read, from the payload to the blobs. */
  function PemRead(rsa: bool, payload: seq<Byte>): Result<Blobs> {
    var s := Source(payload, 0, NoError);
    var (item, s') := GetBer(s);
    if s'.err != NoError || item.id != 16 then Failed
    else
      match ReadIntegers(Source(item.data, 0, NoError), if rsa then 9 else 6)
      case Failed => Failed
      case Ok(v) => PemBlobs(rsa, v)
  }

  /** What the reader's loop appends to the blob for integer i. */
  function Appended(rsa: bool, v: seq<seq<Byte>>, i: nat): seq<Byte>
    requires i < |v|
  {
    if i == 0 then []
    else if !rsa then Ssh2FromString(v[i])
    else if i == 1 || i == 6 || i == 7 then []
    else if i == 2 then Ssh2FromString(v[2]) + Ssh2FromString(v[1])
    else Ssh2FromString(v[i])
  }

  /** The blob after k integers. */
  function Assembled(rsa: bool, v: seq<seq<Byte>>, k: nat): seq<Byte>
    requires k <= |v|
  {
    if k == 0 then Str(if rsa then SSH_RSA else SSH_DSS) else Assembled(rsa, v, k - 1) + Appended(rsa, v, k - 1)
  }

  /** The outcome in terms of the blob that was assembled, cut where the private part starts. */
  lemma AssembledIs(rsa: bool, v: seq<seq<Byte>>)
    requires |v| == (if rsa then 9 else 6) && v[0] == [0]
    ensures var cut := |Assembled(rsa, v, if rsa then 3 else 5)|;
            var blob := Assembled(rsa, v, |v|);
            cut <= |blob| && PemBlobs(rsa, v) == Ok(Blobs(blob[..cut], blob[cut..]))
  {
    if rsa {
      AssembledRsa(v);
    } else {
      AssembledDsa(v);
    }
  }

  lemma AssembledRsa(v: seq<seq<Byte>>)
    requires |v| == 9
    ensures var public := Str(SSH_RSA) + Ssh2FromString(v[2]) + Ssh2FromString(v[1]);
            var private := Ssh2FromString(v[3]) + Ssh2FromString(v[4]) + Ssh2FromString(v[5]) + Ssh2FromString(v[8]);
            Assembled(true, v, 3) == public && Assembled(true, v, 9) == public + private
  {
    hide Ssh2FromString, Str;
    var public := Str(SSH_RSA) + Ssh2FromString(v[2]) + Ssh2FromString(v[1]);
    assert Assembled(true, v, 1) == Str(SSH_RSA);
    assert Assembled(true, v, 2) == Str(SSH_RSA);
    assert Assembled(true, v, 3) == public;
    assert Assembled(true, v, 4) == public + Ssh2FromString(v[3]);
    assert Assembled(true, v, 5) == public + Ssh2FromString(v[3]) + Ssh2FromString(v[4]);
    var six := public + Ssh2FromString(v[3]) + Ssh2FromString(v[4]) + Ssh2FromString(v[5]);
    assert Assembled(true, v, 6) == six;
    assert Assembled(true, v, 7) == six;
    assert Assembled(true, v, 8) == six;
    assert Assembled(true, v, 9) == six + Ssh2FromString(v[8]);
  }

  lemma AssembledDsa(v: seq<seq<Byte>>)
    requires |v| == 6
    ensures var public := Str(SSH_DSS) + Ssh2FromString(v[1]) + Ssh2FromString(v[2]) + Ssh2FromString(v[3]) + Ssh2FromString(v[4]);
            Assembled(false, v, 5) == public && Assembled(false, v, 6) == public + Ssh2FromString(v[5])
  {
    hide Ssh2FromString, Str;
    assert Assembled(false, v, 1) == Str(SSH_DSS);
    assert Assembled(false, v, 2) == Str(SSH_DSS) + Ssh2FromString(v[1]);
    assert Assembled(false, v, 3) == Str(SSH_DSS) + Ssh2FromString(v[1]) + Ssh2FromString(v[2]);
    assert Assembled(false, v, 4) == Str(SSH_DSS) + Ssh2FromString(v[1]) + Ssh2FromString(v[2]) + Ssh2FromString(v[3]);
  }

  /** Integers already read, in front of those still to come. */
  function Prepend(front: seq<seq<Byte>>, r: Result<seq<seq<Byte>>>): Result<seq<seq<Byte>>> {
    match r
    case Failed => Failed
    case Ok(rest) => Ok(front + rest)
  }

  lemma LoopStart(rsa: bool, all: Result<seq<seq<Byte>>>)
    ensures Prepend([], all) == all && Assembled(rsa, [], 0) == [] + Put(7, 4) + (if rsa then SSH_RSA else SSH_DSS)
  {
    hide Put;
    if all.Ok? {
      assert [] + all.value == all.value;
    }
    assert |SSH_RSA| == 7 && |SSH_DSS| == 7;
  }

  lemma LoopStep(s: Source, seen: seq<seq<Byte>>, m: nat)
    requires s.Valid() && 0 < m
    ensures var (item, s') := GetBer(s);
            Prepend(seen, ReadIntegers(s, m)) ==
            if s'.err != NoError || item.id != 2 then Failed else Prepend(seen + [item.data], ReadIntegers(s', m - 1))
  {
    hide GetBer;
    var (item, s') := GetBer(s);
    var r := ReadIntegers(s', m - 1);
    if r.Ok? {
      assert seen + ([item.data] + r.value) == seen + [item.data] + r.value;
    }
  }

  lemma NoneLeft(seen: seq<seq<Byte>>, s: Source)
    requires s.Valid()
    ensures Prepend(seen, ReadIntegers(s, 0)) == Ok(seen)
  {
    assert seen + [] == seen;
  }

  lemma VersionMismatch(rsa: bool, all: Result<seq<seq<Byte>>>, data: seq<Byte>, rest: Result<seq<seq<Byte>>>)
    requires all == Prepend([data], rest) && data != [0] && (all.Ok? ==> |all.value| == if rsa then 9 else 6)
    ensures all.Ok? ==> PemBlobs(rsa, all.value) == Failed
  {
  }

  lemma {:induction false} AssembledPrefix(rsa: bool, v: seq<seq<Byte>>, w: seq<seq<Byte>>, k: nat)
    requires k <= |v| <= |w| && w[..|v|] == v
    ensures Assembled(rsa, w, k) == Assembled(rsa, v, k)
  {
    hide Appended;
    if k > 0 {
      AssembledPrefix(rsa, v, w, k - 1);
      AppendedPrefix(rsa, v, w, k - 1);
    }
  }

  lemma AppendedPrefix(rsa: bool, v: seq<seq<Byte>>, w: seq<seq<Byte>>, i: nat)
    requires i < |v| <= |w| && w[..|v|] == v
    ensures Appended(rsa, w, i) == Appended(rsa, v, i)
  {
    hide Ssh2FromString;
    assert w[i] == v[i];
    assert i > 1 ==> w[1] == v[1];
  }

  lemma AssembledMore(rsa: bool, seen: seq<seq<Byte>>, d: seq<Byte>)
    ensures Assembled(rsa, seen + [d], |seen| + 1) == Assembled(rsa, seen, |seen|) + Appended(rsa, seen + [d], |seen|)
    ensures 3 <= |seen| ==> Assembled(rsa, seen + [d], 3) == Assembled(rsa, seen, 3)
    ensures 5 <= |seen| ==> Assembled(rsa, seen + [d], 5) == Assembled(rsa, seen, 5)
  {
    hide Appended;
    AssembledPrefix(rsa, seen, seen + [d], |seen|);
    if 3 <= |seen| {
      AssembledPrefix(rsa, seen, seen + [d], 3);
    }
    if 5 <= |seen| {
      AssembledPrefix(rsa, seen, seen + [d], 5);
    }
  }

  /** What the loop does with integer i: the first is only checked, and the modulus waits for the next. */
  method PlaceInteger(blob: BinarySink, rsa: bool, i: nat, data: seq<Byte>, modulus: seq<Byte>, ghost v: seq<seq<Byte>>)
    requires i < |v| && v[i] == data && (rsa && i > 1 ==> modulus == v[1])
    modifies blob
    ensures blob.out == old(blob.out) + Appended(rsa, v, i)
  {
    hide Ssh2FromString;
    if i == 0 {
      return;
    }
    if rsa {
      if i != 1 && i != 6 && i != 7 {
        PutMpSsh2FromString(blob, data);
        if i == 2 {
          PutMpSsh2FromString(blob, modulus);
        }
      }
    } else {
      PutMpSsh2FromString(blob, data);
    }
  }

  /** The loop of openssh_pem_read over the integers of an RSA or DSA key. */
  method PemReadIntegers(src: BinarySource, rsa: bool) returns (r: Result<Blobs>)
    requires src.State().Valid()
    modifies src`pos, src`err
    ensures r == match ReadIntegers(old(src.State()), if rsa then 9 else 6)
                 case Failed => Failed
                 case Ok(v) => PemBlobs(rsa, v)
  {
    hide GetBer, Ssh2FromString, Str, Assembled, PemBlobs, ReadIntegers, Appended;
    var blob := new BinarySink();
    blob.PutString(if rsa then SSH_RSA else SSH_DSS);
    var n := if rsa then 9 else 6;
    var modulus: seq<Byte>, privptr, i := [], 0, 0;
    ghost var seen: seq<seq<Byte>> := [];
    ghost var all := ReadIntegers(src.State(), n);
    LoopStart(rsa, all);
    while i < n
      invariant 0 <= i <= n && |seen| == i && src.State().Valid() && fresh(blob)
      invariant all == Prepend(seen, ReadIntegers(src.State(), n - i))
      invariant blob.out == Assembled(rsa, seen, i)
      invariant i > 0 ==> seen[0] == [0]
      invariant rsa && i > 1 ==> modulus == seen[1]
      invariant (i > if rsa then 2 else 4) ==> privptr == |Assembled(rsa, seen, if rsa then 3 else 5)|
    {
      ghost var s := src.State();
      var item := ReadBer(src);
      LoopStep(s, seen, n - i);
      if src.err != NoError || item.id != 2 {
        return Failed;
      }
      if i == 0 && item.data != [0] {
        assert seen + [item.data] == [item.data];
        VersionMismatch(rsa, all, item.data, ReadIntegers(src.State(), n - 1));
        return Failed;
      }
      AssembledMore(rsa, seen, item.data);
      PlaceInteger(blob, rsa, i, item.data, modulus, seen + [item.data]);
      if rsa && i == 1 {
        modulus := item.data;
      }
      if i == if rsa then 2 else 4 {
        privptr := |blob.out|;
      }
      seen := seen + [item.data];
      i := i + 1;
    }
    NoneLeft(seen, src.State());
    AssembledIs(rsa, seen);
    r := Ok(Blobs(blob.out[..privptr], blob.out[privptr..]));
  }

  lemma {:induction false} ReadIntegersBack(s: Source, numbers: seq<seq<Byte>>, rest: seq<Byte>)
    requires (forall t :: t in numbers ==> |t| < 0x100_0000) && Before(s, BerIntegers(numbers), rest)
    ensures ReadIntegers(s, |numbers|) == Ok(numbers)
    decreases |numbers|
  {
    hide GetBer, IdBytes, LengthBytes;
    if |numbers| > 0 {
      var first, tail := numbers[0], BerIntegers(numbers[1..]);
      FewDigits(|first|);
      assert BerInteger(first) + tail + rest == BerInteger(first) + (tail + rest);
      BerRoundTrip(s, 2, 0, first, tail + rest);
      ReadIntegersBack(GetBer(s).1, numbers[1..], rest);
      assert [first] + numbers[1..] == numbers;
    }
  }

  lemma PayloadBack(numbers: seq<seq<Byte>>)
    requires (forall t :: t in numbers ==> |t| < 0x100_0000) && |BerIntegers(numbers)| < 0x100_0000
    ensures var s := Source(PemPayload(numbers), 0, NoError);
            && GetBer(s).0 == BerItem(16, 32, BerIntegers(numbers)) && GetBer(s).1.err == NoError
            && ReadIntegers(Source(BerIntegers(numbers), 0, NoError), |numbers|) == Ok(numbers)
  {
    hide GetBer, IdBytes, LengthBytes, ReadIntegers, BerIntegers;
    var content, payload := BerIntegers(numbers), PemPayload(numbers);
    FewDigits(|content|);
    assert payload + [] == payload && content + [] == content;
    assert payload[0..] == payload && content[0..] == content;
    BerRoundTrip(Source(payload, 0, NoError), 16, 32, content, []);
    ReadIntegersBack(Source(content, 0, NoError), numbers, []);
  }

  /** The integers of a key are small enough, and so is the whole sequence. */
  lemma PemNumbersFit(key: Key)
    requires key.Valid()
    ensures forall s :: s in PemNumbers(key) ==> |s| < 0x10_0001
    ensures |BerIntegers(PemNumbers(key))| < 0x100_0000
  {
    hide BerIntegers, Canonical, BigEndian, Ssh2Bytes;
    if key.Rsa? {
      ResidueBytes(BigEndian(key.d), BigEndian(key.p), key.p);
      ResidueBytes(BigEndian(key.d), BigEndian(key.q), key.q);
    }
    var v := PemNumbers(key);
    assert forall i :: 0 <= i < |v| ==> |v[i]| < 0x10_0001;
    IntegersFit(v);
  }

  /** A residue modulo a number less 1 needs no more bytes than one more than the number has. */
  lemma ResidueBytes(d: nat, m: nat, bytes: seq<Byte>)
    requires m == BigEndian(bytes) && m > 1
    ensures 0 <= d % (m - 1) && |Ssh2Bytes(d % (m - 1))| <= |bytes| + 1
  {
    hide Nbits, Pow;
    CongMod(d, m - 1);
    var r := d % (m - 1);
    BigEndianBound(bytes);
    BytesSuffice(r);
    if r == 0 {
      NbitsZero();
    } else if |Ssh2Bytes(r)| > |bytes| + 1 {
      PowLe(256, |bytes| + 1, |Ssh2Bytes(r)| - 1);
      PowAdd(256, |bytes|, 1);
      Pow256();
    }
  }

  lemma {:induction false} IntegersFit(v: seq<seq<Byte>>)
    requires |v| <= 9 && forall i :: 0 <= i < |v| ==> |v[i]| < 0x10_0001
    ensures forall s :: s in v ==> |s| < 0x100_0000
    ensures |BerIntegers(v)| <= |v| * 0x10_0010
  {
    if |v| > 0 {
      IntegersFit(v[1..]);
      HeaderFits(v[0]);
    }
  }

  lemma HeaderFits(s: seq<Byte>)
    requires |s| < 0x10_0001
    ensures |BerInteger(s)| <= 0x10_0010
  {
    FewDigits(|s|);
  }

  /** Writing a key and reading it back gives the same blobs. */
  lemma PemRoundTrip(key: Key)
    requires key.Valid()
    ensures (forall s :: s in PemNumbers(key) ==> |s| < 0x100_0000) && |BerIntegers(PemNumbers(key))| < 0x100_0000
    ensures PemRead(key.Rsa?, PemPayload(PemNumbers(key))) == Ok(key.ToBlobs())
  {
    hide GetBer, ReadIntegers, BerIntegers, PemPayload, PemNumbers, PemBlobs;
    PemNumbersFit(key);
    var v := PemNumbers(key);
    PayloadBack(v);
    assert |v| == if key.Rsa? then 9 else 6 by { NumberCount(key); }
    PemBlobsBack(key);
  }

  lemma NumberCount(key: Key)
    requires key.Rsa? ==> BigEndian(key.p) > 1 && BigEndian(key.q) > 1
    ensures |PemNumbers(key)| == if key.Rsa? then 9 else 6
  {
  }

  /** The reordering on reading undoes the one on writing. */
  lemma PemBlobsBack(key: Key)
    requires key.Valid()
    ensures |PemNumbers(key)| == if key.Rsa? then 9 else 6
    ensures PemBlobs(key.Rsa?, PemNumbers(key)) == Ok(key.ToBlobs())
  {
    if key.Rsa? {
      RsaBlobsBack(key);
    } else {
      DsaBlobsBack(key);
    }
  }

  lemma RsaBlobsBack(key: Key)
    requires key.Valid() && key.Rsa?
    ensures PemBlobs(true, PemNumbers(key)) == Ok(key.ToBlobs())
  {
    hide Canonical, Ssh2FromString, Str, Strs, BigEndian, Ssh2Bytes;
    forall s | s in key.Numbers() ensures Ssh2FromString(s) == Str(s) { CanonicalUnchanged(s); }
    assert key.e in key.Numbers() && key.n in key.Numbers() && key.d in key.Numbers();
    assert key.p in key.Numbers() && key.q in key.Numbers() && key.iqmp in key.Numbers();
    TwoStrings(Str(SSH_RSA), key.e, key.n);
    FourStrings([], key.d, key.p, key.q, key.iqmp);
    NothingInFront(Strs([key.d, key.p, key.q, key.iqmp]));
    NothingInFront(Str(key.d));
  }

  lemma DsaBlobsBack(key: Key)
    requires key.Valid() && key.Dsa?
    ensures PemBlobs(false, PemNumbers(key)) == Ok(key.ToBlobs())
  {
    hide Canonical, Ssh2FromString, Str, Strs;
    forall s | s in key.Numbers() ensures Ssh2FromString(s) == Str(s) { CanonicalUnchanged(s); }
    assert key.p in key.Numbers() && key.q in key.Numbers() && key.g in key.Numbers();
    assert key.y in key.Numbers() && key.x in key.Numbers();
    FourStrings(Str(SSH_DSS), key.p, key.q, key.g, key.y);
    OneString(key.x);
  }

  lemma NothingInFront(s: seq<Byte>)
    ensures [] + s == s
  {
  }

  lemma OneString(a: seq<Byte>)
    ensures Strs([a]) == Str(a)
  {
    assert Strs([]) == [];
    assert [a][1..] == [];
  }

  lemma TwoStrings(front: seq<Byte>, a: seq<Byte>, b: seq<Byte>)
    ensures front + Strs([a, b]) == front + Str(a) + Str(b)
  {
    hide Str;
    assert [a, b][1..] == [b];
    OneString(b);
  }

  lemma FourStrings(front: seq<Byte>, a: seq<Byte>, b: seq<Byte>, c: seq<Byte>, d: seq<Byte>)
    ensures front + Strs([a, b, c, d]) == front + Str(a) + Str(b) + Str(c) + Str(d)
  {
    hide Str;
    assert [a, b, c, d][1..] == [b, c, d] && [b, c, d][1..] == [c, d];
    TwoStrings([], c, d);
    assert Strs([c, d]) == [] + Strs([c, d]);
  }

  // --------------------------------------------------------------------------- ssh.com

  /** The content and the bit count that put_mp_sshcom_from_string writes: leading zeros go, except that a zero keeps one
      byte and counts one bit. */
  function SshcomContent(str: seq<Byte>): (seq<Byte>, nat) {
    var t := StripZeros(str);
    if |str| == 0 then ([], 0)
    else if |t| == 0 then ([0], 1)
    else (t, 8 * (|t| - 1) + Nbits(t[0]))
  }

  function SshcomFromString(str: seq<Byte>): seq<Byte> {
    Put(SshcomContent(str).1, 4) + SshcomContent(str).0
  }

  function SshcomIntegers(ss: seq<seq<Byte>>): seq<Byte> {
    if |ss| == 0 then [] else SshcomFromString(ss[0]) + SshcomIntegers(ss[1..])
  }

  /** get_mp_sshcom_as_string. */
  function GetSshcom(s: Source): (r: (seq<Byte>, Source))
    requires s.Valid()
    ensures r.1.Valid()
  {
    var (bits, s') := GetUint(s, 4);
    GetData(s', (bits + 7) / 8)
  }

  /** put_mp_sshcom_from_string, with its search for the top bit. */
  method PutMpSshcomFromString(bs: BinarySink, str: seq<Byte>)
    modifies bs
    ensures bs.out == old(bs.out) + SshcomFromString(str)
  {
    hide Put, Nbits, StripZeros, Pow2;
    var bytes := str;
    var bits: int := 8 * |str| - 1;
    SearchStart(str);
    while bits > 0
      invariant Searching(str, bytes, bits) && bs.out == old(bs.out)
      decreases bits
    {
      TopBitStep(str, bytes, bits);
      if bytes[0] / Pow2(bits % 8) % 2 == 1 {
        break;
      }
      if bits % 8 == 0 {
        bytes := bytes[1..];
      }
      bits := bits - 1;
    }
    Found(str, bytes, bits);
    ghost var out := bs.out;
    assert SshcomFromString(str) == Put(bits + 1, 4) + bytes;
    bs.PutUint(bits + 1, 4);
    bs.PutData(bytes);
    assert bs.out == out + (Put(bits + 1, 4) + bytes);
  }

  /** The search has come to bit bits % 8 of the first byte left; everything above is zero. */
  ghost predicate Searching(str: seq<Byte>, bytes: seq<Byte>, bits: int) {
    && StripZeros(bytes) == StripZeros(str)
    && if |str| == 0 then bytes == [] && bits == -1
       else |bytes| > 0 && 8 * (|bytes| - 1) <= bits < 8 * |bytes| && bytes[0] < Pow2(bits % 8 + 1)
  }

  lemma SearchStart(str: seq<Byte>)
    ensures Searching(str, str, 8 * |str| - 1)
  {
    Pow2At8();
  }

  lemma TopBitStep(str: seq<Byte>, bytes: seq<Byte>, bits: int)
    requires Searching(str, bytes, bits) && 0 < bits
    ensures |bytes| > 0
    ensures bytes[0] / Pow2(bits % 8) % 2 != 1 ==> Searching(str, if bits % 8 == 0 then bytes[1..] else bytes, bits - 1)
  {
    hide Pow2;
    var b, k := bytes[0], bits % 8;
    Pow2Step(k);
    DivLt(b, Pow2(k), 1);
    DivLt(b, Pow2(k), 2);
    DivNonNeg(b, Pow2(k));
    if b / Pow2(k) % 2 != 1 {
      assert b < Pow2(k);
      Pow2Step(0);
      Pow2At8();
      if k == 0 {
        assert (bits - 1) % 8 == 7 && |bytes| > 1;
        DropZero(bytes);
      } else {
        assert (bits - 1) % 8 == k - 1;
      }
    }
  }

  lemma DropZero(bytes: seq<Byte>)
    requires |bytes| > 0 && bytes[0] == 0
    ensures StripZeros(bytes) == StripZeros(bytes[1..])
  {
  }

  /** Where the search ends is the top bit. */
  lemma Found(str: seq<Byte>, bytes: seq<Byte>, bits: int)
    requires Searching(str, bytes, bits)
    requires bits <= 0 || (|bytes| > 0 && bytes[0] / Pow2(bits % 8) % 2 == 1)
    ensures 0 <= bits + 1 && SshcomContent(str) == (bytes, bits + 1)
  {
    hide Pow2, Nbits;
    if |str| > 0 {
      var b, k := bytes[0], bits % 8;
      Pow2Step(k);
      Pow2Step(0);
      DivNonNeg(b, Pow2(k));
      DivLt(b, Pow2(k), 1);
      if b == 0 {
        ZeroFound(bytes, bits);
      } else {
        StripNothing(bytes);
        NbitsBounds(b);
        BitsUnique(b, Nbits(b), k + 1);
      }
    }
  }

  lemma ZeroFound(bytes: seq<Byte>, bits: int)
    requires |bytes| > 0 && bytes[0] == 0 && 8 * (|bytes| - 1) <= bits < 8 * |bytes|
    requires bits <= 0 || 0 / Pow2(bits % 8) % 2 == 1
    ensures bytes == [0] && bits == 0 && StripZeros(bytes) == []
  {
    hide Pow2;
    Pow2Positive(bits % 8);
    DivModUnique(0, Pow2(bits % 8), 0, 0);
    assert bytes[1..] == [];
    DropZero(bytes);
  }

  lemma StripNothing(bytes: seq<Byte>)
    requires |bytes| > 0 && bytes[0] != 0
    ensures StripZeros(bytes) == bytes
  {
  }

  /** The bit count tells how many bytes there are. */
  lemma SshcomContentSize(str: seq<Byte>)
    ensures var (t, bits) := SshcomContent(str); (bits + 7) / 8 == |t| <= |str| && bits <= 8 * |str|
    ensures StripZeros(SshcomContent(str).0) == StripZeros(str)
  {
    hide Nbits;
    var t := StripZeros(str);
    if |str| > 0 && |t| > 0 {
      NbitsBounds(t[0]);
      NbitsOfByte(t[0]);
      StripNothing(t);
    } else if |str| > 0 {
      DropZero([0]);
      assert [0 as Byte][1..] == [];
      assert StripZeros([]) == [];
    }
  }

  /** What is written for a number: how many bits it has, and its bytes without leading zeros. A string of zeros counts one
      bit, and the empty string none. */
  lemma SshcomEncodes(str: seq<Byte>)
    requires |str| < 0x1000_0000
    ensures var e := SshcomFromString(str);
            && |e| >= 4 && BigEndian(e[4..]) == BigEndian(str)
            && (BigEndian(str) > 0 ==> HasBits(BigEndian(str), BigEndian(e[..4])) && |e| > 4 && e[4] != 0)
            && (BigEndian(str) == 0 ==> e == if |str| == 0 then [0, 0, 0, 0] else [0, 0, 0, 1, 0])
  {
    hide BigEndian, Put, StripZeros, HasBits, Nbits;
    var (t, bits) := SshcomContent(str);
    var e := SshcomFromString(str);
    assert e[..4] == Put(bits, 4) && e[4..] == t;
    StripZerosValue(str);
    SshcomContentSize(str);
    Pow256();
    PutRoundTrip(bits, 4);
    SmallCounts();
    var z := StripZeros(str);
    if |z| > 0 {
      BitsOfString(z);
    } else if |str| > 0 {
      assert BigEndian([]) == 0 && BigEndian([0]) == 0 by { ZeroByte(); }
      assert e == [0, 0, 0, 1, 0];
    } else {
      assert e == [0, 0, 0, 0];
    }
  }

  lemma ZeroByte()
    ensures BigEndian([]) == 0 && BigEndian([0]) == 0
  {
    assert [0 as Byte][..0] == [];
  }

  lemma SmallCounts()
    ensures Put(0, 4) == [0, 0, 0, 0] && Put(1, 4) == [0, 0, 0, 1] && BigEndian([]) == 0
  {
    assert Put(0, 1) == [0] && Put(0, 2) == [0, 0] && Put(0, 3) == [0, 0, 0];
  }

  lemma BitsOfString(z: seq<Byte>)
    requires |z| > 0 && z[0] != 0
    ensures BigEndian(z) > 0 && HasBits(BigEndian(z), 8 * (|z| - 1) + Nbits(z[0]))
  {
    hide BigEndian, Nbits, Pow, Pow2;
    var b, n := Nbits(z[0]), 8 * (|z| - 1);
    FirstByteBounds(z);
    ByteBase(|z| - 1);
    NbitsBounds(z[0]);
    NbitsOfByte(z[0]);
    Pow2Add(b - 1, n);
    Pow2Add(b, n);
    Pow2Positive(n);
    MulLe(Pow2(b - 1), z[0], Pow2(n));
    MulLe(z[0] as int + 1, Pow2(b), Pow2(n));
    MulLe(1, z[0], Pow2(n));
  }

  lemma NbitsOfByte(b: Byte)
    requires b != 0
    ensures 1 <= Nbits(b) <= 8
  {
    hide Pow2, Nbits;
    NbitsBounds(b);
    Pow2At8();
    if Nbits(b) > 8 {
      Pow2Le(8, Nbits(b) - 1);
    }
  }

  lemma GetSshcomBack(s: Source, str: seq<Byte>, rest: seq<Byte>)
    requires Before(s, SshcomFromString(str), rest) && |str| < 0x10_0000
    ensures GetSshcom(s).0 == SshcomContent(str).0 && Before(GetSshcom(s).1, [], rest)
  {
    hide Put, SshcomContent, GetUint, GetData, Before, Pow;
    var (t, bits) := SshcomContent(str);
    SshcomContentSize(str);
    Pow256();
    Reassociate(s, Put(bits, 4), t, rest);
    GetUintBack(s, bits, 4, t + rest);
    Reassociate(s.Advance(4), [], t, rest);
    GetDataBack(s.Advance(4), t, rest);
  }

  function ReadSshcom(s: Source, count: nat): (r: (seq<seq<Byte>>, Source))
    requires s.Valid()
    ensures r.1.Valid() && |r.0| == count
    decreases count
  {
    if count == 0 then ([], s)
    else
      var (t, s') := GetSshcom(s);
      var (rest, s'') := ReadSshcom(s', count - 1);
      ([t] + rest, s'')
  }

  function Contents(ss: seq<seq<Byte>>): (r: seq<seq<Byte>>)
    ensures |r| == |ss|
  {
    seq(|ss|, i requires 0 <= i < |ss| => SshcomContent(ss[i]).0)
  }

  lemma {:induction false} ReadSshcomBack(s: Source, ss: seq<seq<Byte>>, rest: seq<Byte>)
    requires Before(s, SshcomIntegers(ss), rest) && forall i :: 0 <= i < |ss| ==> |ss[i]| < 0x10_0000
    ensures ReadSshcom(s, |ss|).0 == Contents(ss) && ReadSshcom(s, |ss|).1.err == NoError
    decreases |ss|
  {
    hide SshcomFromString, GetSshcom, SshcomContent;
    if |ss| > 0 {
      var tail := SshcomIntegers(ss[1..]);
      Reassociate(s, SshcomFromString(ss[0]), tail, rest);
      GetSshcomBack(s, ss[0], tail + rest);
      AfterEmpty(GetSshcom(s).1, tail, rest);
      ReadSshcomBack(GetSshcom(s).1, ss[1..], rest);
      assert Contents(ss) == [SshcomContent(ss[0]).0] + Contents(ss[1..]);
    }
  }

  /** The order in which sshcom_write puts the integers. */
  function SshcomNumbers(key: Key): seq<seq<Byte>> {
    match key
    case Rsa(e, n, d, p, q, iqmp) => [e, d, n, iqmp, q, p]
    case Dsa(p, q, g, y, x) => [p, g, q, y, x]
  }

  /** The unencrypted payload: for DSA a zero word, and the integers; all as one string. */
  function SshcomPayload(key: Key): seq<Byte> {
    Str((if key.Dsa? then Put(0, 4) else []) + SshcomIntegers(SshcomNumbers(key)))
  }

  /** What sshcom_read makes of the integers. */
  function SshcomBlobs(rsa: bool, v: seq<seq<Byte>>): Blobs
    requires |v| == if rsa then 6 else 5
  {
    if rsa then
      Blobs(Str(SSH_RSA) + Ssh2FromString(v[0]) + Ssh2FromString(v[2]),
            Ssh2FromString(v[1]) + Ssh2FromString(v[5]) + Ssh2FromString(v[4]) + Ssh2FromString(v[3]))
    else
      Blobs(Str(SSH_DSS) + Ssh2FromString(v[0]) + Ssh2FromString(v[2]) + Ssh2FromString(v[1]) + Ssh2FromString(v[3]),
            Ssh2FromString(v[4]))
  }

  /** The unencrypted path of sshcom_read, from the payload to the blobs. */
  function SshcomRead(rsa: bool, payload: seq<Byte>): Result<Blobs> {
    var (str, s) := GetString(Source(payload, 0, NoError));
    if s.err != NoError then Failed
    else
      var s0 := Source(str, 0, NoError);
      if rsa then
        var (v, s1) := ReadSshcom(s0, 6);
        if s1.err != NoError then Failed else Ok(SshcomBlobs(true, v))
      else
        var (zero, s1) := GetUint(s0, 4);
        if zero != 0 then Failed
        else
          var (v, s2) := ReadSshcom(s1, 5);
          if s2.err != NoError then Failed else Ok(SshcomBlobs(false, v))
  }

  /** Stripped or not, a canonical string comes back as itself. */
  lemma ContentUnchanged(s: seq<Byte>)
    requires Canonical(s)
    ensures Ssh2FromString(SshcomContent(s).0) == Str(s)
  {
    hide SshcomContent, StripZeros, Canonical, Str;
    SshcomContentSize(s);
    CanonicalUnchanged(s);
    SameStripped(SshcomContent(s).0, s);
  }

  lemma SameStripped(s: seq<Byte>, t: seq<Byte>)
    requires StripZeros(s) == StripZeros(t)
    ensures Ssh2FromString(s) == Ssh2FromString(t)
  {
  }

  lemma SshcomBlobsBack(key: Key)
    requires key.Valid()
    ensures SshcomBlobs(key.Rsa?, Contents(SshcomNumbers(key))) == key.ToBlobs()
  {
    hide Canonical, Ssh2FromString, Str, Strs, BigEndian, SshcomContent;
    forall s | s in key.Numbers() ensures Ssh2FromString(SshcomContent(s).0) == Str(s) { ContentUnchanged(s); }
    if key.Rsa? {
      RsaMembers(key);
      TwoStrings(Str(SSH_RSA), key.e, key.n);
      FourStrings([], key.d, key.p, key.q, key.iqmp);
      NothingInFront(Strs([key.d, key.p, key.q, key.iqmp]));
      NothingInFront(Str(key.d));
    } else {
      DsaMembers(key);
      FourStrings(Str(SSH_DSS), key.p, key.q, key.g, key.y);
      OneString(key.x);
    }
  }

  lemma RsaMembers(key: Key)
    requires key.Rsa?
    ensures key.e in key.Numbers() && key.n in key.Numbers() && key.d in key.Numbers()
    ensures key.p in key.Numbers() && key.q in key.Numbers() && key.iqmp in key.Numbers()
  {
  }

  lemma DsaMembers(key: Key)
    requires key.Dsa?
    ensures key.p in key.Numbers() && key.q in key.Numbers() && key.g in key.Numbers()
    ensures key.y in key.Numbers() && key.x in key.Numbers()
  {
  }

  lemma {:induction false} SshcomFits(ss: seq<seq<Byte>>)
    requires |ss| <= 6 && forall i :: 0 <= i < |ss| ==> |ss[i]| < 0x10_0000
    ensures |SshcomIntegers(ss)| <= |ss| * 0x10_0004
  {
    hide SshcomContent;
    if |ss| > 0 {
      SshcomFits(ss[1..]);
      SshcomContentSize(ss[0]);
    }
  }

  /** The payload of an ssh.com key, with whatever follows it, reads back as the same blobs: the swap of p and q happens
      twice. */
  lemma SshcomPayloadBack(key: Key, padding: seq<Byte>)
    requires key.Valid()
    ensures SshcomRead(key.Rsa?, SshcomPayload(key) + padding) == Ok(key.ToBlobs())
  {
    hide Canonical, Put, Str, GetString, GetUint, ReadSshcom, SshcomIntegers, SshcomBlobs, Contents, Key.ToBlobs, Key.Numbers;
    var ss := SshcomNumbers(key);
    assert forall i :: 0 <= i < |ss| ==> |ss[i]| < 0x10_0000 by { NumbersSmall(key); }
    SshcomFits(ss);
    var inner := (if key.Dsa? then Put(0, 4) else []) + SshcomIntegers(ss);
    StrBack(inner, padding);
    InnerBack(key, ss, inner);
    SshcomBlobsBack(key);
  }

  lemma NumbersSmall(key: Key)
    requires key.Valid()
    ensures forall i :: 0 <= i < |SshcomNumbers(key)| ==> |SshcomNumbers(key)[i]| < 0x10_0000
  {
    hide Canonical;
    if key.Rsa? {
      RsaMembers(key);
    } else {
      DsaMembers(key);
    }
  }

  lemma StrBack(inner: seq<Byte>, rest: seq<Byte>)
    requires |inner| < 0x1_0000_0000
    ensures var r := GetString(Source(Str(inner) + rest, 0, NoError)); r.0 == inner && r.1.err == NoError
  {
    hide Put, GetString;
    var s := Source(Str(inner) + rest, 0, NoError);
    assert s.Left() == Str(inner) + rest;
    GetStringBack(s, inner, rest);
  }

  /** The integers inside the string, after the zero word that DSA has. */
  lemma InnerBack(key: Key, ss: seq<seq<Byte>>, inner: seq<Byte>)
    requires inner == (if key.Dsa? then Put(0, 4) else []) + SshcomIntegers(ss)
    requires forall i :: 0 <= i < |ss| ==> |ss[i]| < 0x10_0000
    ensures var s0 := Source(inner, 0, NoError);
            if key.Rsa? then ReadSshcom(s0, |ss|).0 == Contents(ss) && ReadSshcom(s0, |ss|).1.err == NoError
            else
              var (zero, s1) := GetUint(s0, 4);
              zero == 0 && ReadSshcom(s1, |ss|).0 == Contents(ss) && ReadSshcom(s1, |ss|).1.err == NoError
  {
    hide Put, GetUint, ReadSshcom, SshcomIntegers, Contents, Pow;
    var s0, ints := Source(inner, 0, NoError), SshcomIntegers(ss);
    if key.Rsa? {
      assert s0.Left() == ints + [];
      ReadSshcomBack(s0, ss, []);
    } else {
      Pow256();
      assert s0.Left() == Put(0, 4) + ints;
      GetUintBack(s0, 0, 4, ints);
      assert ints == ints + [];
      AfterEmpty(s0.Advance(4), ints, []);
      ReadSshcomBack(s0.Advance(4), ss, []);
    }
  }
}
