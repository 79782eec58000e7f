/**
 Bytes, and the fixed-size big-endian integers of the wire formats.
 */
module Bytes {
  import opened Arithmetic

  type Byte = x: nat | x < 256

  /** A string of characters as bytes. */
  function Ascii(s: string): (d: seq<Byte>)
    ensures |d| == |s| && forall i :: 0 <= i < |s| ==> d[i] == s[i] as int % 256
  {
    seq(|s|, i requires 0 <= i < |s| => s[i] as int % 256)
  }

  /** The number written most significant byte first. */
  function BigEndian(s: seq<Byte>): nat {
    if |s| == 0 then 0 else BigEndian(s[..|s| - 1]) * 256 + s[|s| - 1]
  }

  /** PUT_16BIT_MSB_FIRST and its wider relations: the low k bytes of v. */
  function Put(v: nat, k: nat): (s: seq<Byte>)
    ensures |s| == k
  {
    if k == 0 then [] else Put(v / 256, k - 1) + [v % 256]
  }

  lemma {:induction false} BigEndianBound(s: seq<Byte>)
    ensures BigEndian(s) < Pow(256, |s|)
  {
    if |s| > 0 {
      BigEndianBound(s[..|s| - 1]);
    }
  }

  /** What is put is read back, if it fits. */
  lemma {:induction false} PutRoundTrip(v: nat, k: nat)
    requires v < Pow(256, k)
    ensures BigEndian(Put(v, k)) == v
  {
    if k > 0 {
      PutRoundTrip(v / 256, k - 1);
      assert Put(v, k)[..k - 1] == Put(v / 256, k - 1);
    }
  }

  /** And what is read is what was put. */
  lemma {:induction false} BigEndianRoundTrip(s: seq<Byte>)
    ensures Put(BigEndian(s), |s|) == s
  {
    if |s| > 0 {
      BigEndianRoundTrip(s[..|s| - 1]);
      assert s == s[..|s| - 1] + [s[|s| - 1]];
    }
  }

  /** GET_32BIT_MSB_FIRST. */
  lemma FourBytes(s: seq<Byte>)
    requires |s| == 4
    ensures BigEndian(s) == 0x100_0000 * (s[0] as nat) + 0x1_0000 * (s[1] as nat) + 0x100 * (s[2] as nat) + s[3] as nat
  {
    var a, b, c := s[..3], s[..3][..2], s[..3][..2][..1];
    assert BigEndian(c[..0]) == 0;
    assert BigEndian(c) == s[0] as nat;
    assert BigEndian(b) == 0x100 * (s[0] as nat) + s[1] as nat;
    assert BigEndian(a) == 0x1_0000 * (s[0] as nat) + 0x100 * (s[1] as nat) + s[2] as nat;
  }

  lemma Pow256()
    ensures Pow(256, 1) == 0x100 && Pow(256, 2) == 0x10000 && Pow(256, 3) == 0x100_0000 && Pow(256, 4) == 0x1_0000_0000
  {
    assert Pow(256, 1) == 256 * Pow(256, 0);
    assert Pow(256, 2) == 256 * Pow(256, 1);
    assert Pow(256, 3) == 256 * Pow(256, 2);
    assert Pow(256, 4) == 256 * Pow(256, 3);
  }
}
