/**
 Runs of reads from a BinarySource: an error that stays, and a position to go back to.
 */
module Reads {
  import opened Arithmetic
  import opened Bytes
  import opened Marshal
  import opened Wire
  import opened Ber

  /** The reads that a caller can make, one after another. */
  datatype Read =
    | Data(n: nat) | Uint(k: nat) | String | Pstring | Asciz | Chars(chars: set<Byte>, wanted: bool) | ChompedLine
    | MpSsh1 | MpSsh2 | Item

  /** What a read delivers. */
  datatype Delivered = Content(d: seq<Byte>) | Number(v: nat) | Element(item: BerItem)

  function Perform(s: Source, op: Read): (r: (Delivered, Source))
    requires s.Valid()
    ensures r.1.Valid()
  {
    match op
    case Data(n) => var (d, s') := GetData(s, n); (Content(d), s')
    case Uint(k) => var (v, s') := GetUint(s, k); (Number(v), s')
    case String => var (d, s') := GetString(s); (Content(d), s')
    case Pstring => var (d, s') := GetPstring(s); (Content(d), s')
    case Asciz => var (d, s') := GetAsciz(s); (Content(d), s')
    case Chars(chars, wanted) => var (d, s') := GetChars(s, chars, wanted); (Content(d), s')
    case ChompedLine => var (d, s') := GetChompedLine(s); (Content(d), s')
    case MpSsh1 => var (v, s') := GetMpSsh1(s); (Number(v), s')
    case MpSsh2 => var (v, s') := GetMpSsh2(s); (Number(v), s')
    case Item => var (i, s') := GetBer(s); (Element(i), s')
  }

  /** A run of reads: everything it delivers, and the state at its end. */
  function PerformAll(s: Source, ops: seq<Read>): (r: (seq<Delivered>, Source))
    requires s.Valid()
    ensures r.1.Valid() && |r.0| == |ops|
    decreases |ops|
  {
    if |ops| == 0 then ([], s)
    else
      var (first, s1) := Perform(s, ops[0]);
      var (rest, s2) := PerformAll(s1, ops[1..]);
      ([first] + rest, s2)
  }

  function AfterAll(s: Source, ops: seq<Read>): (s': Source)
    requires s.Valid()
    ensures s'.Valid()
  {
    PerformAll(s, ops).1
  }

  /** The state after a read keeps the data, is not further back, and is the same as before if there was an error. */
  ghost predicate Onward(s: Source, s': Source) {
    s'.data == s.data && s.pos <= s'.pos && (s.err != NoError ==> s' == s)
  }

  lemma ReadMonotone(s: Source, op: Read)
    requires s.Valid()
    ensures Onward(s, Perform(s, op).1)
  {
    hide BigEndian, FindByte, SpanLength, GetMpSsh1, GetMpSsh2, GetBer;
    match op
    case MpSsh1 => Ssh1Onward(s);
    case MpSsh2 => Ssh2Onward(s);
    case Item => BerOnward(s);
    case _ =>
  }

  lemma Ssh1Onward(s: Source)
    requires s.Valid()
    ensures Onward(s, GetMpSsh1(s).1)
  {
    hide BigEndian, Nbits;
  }

  lemma Ssh2Onward(s: Source)
    requires s.Valid()
    ensures Onward(s, GetMpSsh2(s).1)
  {
    hide BigEndian, Canonical;
  }

  lemma {:induction false} IdOnward(s: Source, id: nat)
    requires s.Valid()
    ensures Onward(s, ReadId(s, id).1)
    decreases |s.data| - s.pos
  {
    hide BigEndian;
    var (b, s') := GetUint(s, 1);
    ByteRead(s);
    if b >= 128 {
      IdOnward(s', id * 128 + b % 128);
    }
  }

  lemma {:induction false} LengthOnward(s: Source, n: nat, length: nat)
    requires s.Valid()
    ensures Onward(s, ReadLength(s, n, length).1)
    decreases n
  {
    hide BigEndian;
    if n > 0 {
      var (b, s') := GetUint(s, 1);
      LengthOnward(s', n - 1, (length * 256 + b) % TWO64);
    }
  }

  lemma BerOnward(s: Source)
    requires s.Valid()
    ensures Onward(s, GetBer(s).1)
  {
    hide BigEndian, ReadId, ReadLength;
    var (lead, s1) := GetUint(s, 1);
    IdOnward(s1, 0);
    var (id, s2) := if lead % 32 == 31 then ReadId(s1, 0) else (lead % 32, s1);
    var (lenbyte, s3) := GetUint(s2, 1);
    if lenbyte >= 128 {
      LengthOnward(s3, lenbyte - 128, 0);
    }
  }

  /** An error, once there, survives any run of reads, and so does the position. */
  lemma {:induction false} Sticky(s: Source, ops: seq<Read>)
    requires s.Valid()
    ensures AfterAll(s, ops).data == s.data && s.pos <= AfterAll(s, ops).pos
    ensures s.err != NoError ==> AfterAll(s, ops) == s
    decreases |ops|
  {
    hide Perform;
    if |ops| > 0 {
      ReadMonotone(s, ops[0]);
      Sticky(Perform(s, ops[0]).1, ops[1..]);
    }
  }

  /** So the absence of an error at the end means that no read on the way had one. */
  lemma NoErrorBefore(s: Source, ops: seq<Read>, k: nat)
    requires s.Valid() && k <= |ops| && AfterAll(s, ops).err == NoError
    ensures AfterAll(s, ops[..k]).err == NoError
  {
    hide PerformAll;
    AfterAllSplit(s, ops, k);
    Sticky(AfterAll(s, ops[..k]), ops[k..]);
  }

  lemma {:induction false} AfterAllSplit(s: Source, ops: seq<Read>, k: nat)
    requires s.Valid() && k <= |ops|
    ensures AfterAll(s, ops) == AfterAll(AfterAll(s, ops[..k]), ops[k..])
    decreases k
  {
    hide Perform;
    if k == 0 {
      assert ops[..0] == [] && ops[0..] == ops;
    } else {
      AfterAllSplit(Perform(s, ops[0]).1, ops[1..], k - 1);
      assert ops[..k][1..] == ops[1..][..k - 1] && ops[k..] == ops[1..][k - 1..];
    }
  }

  /** Going back, after any run of reads, to a position noted when there was no error restores the source as it was then:
      whatever is read next is delivered as it would have been, errors of the run notwithstanding. */
  lemma RewindReplays(s: Source, ops: seq<Read>, next: seq<Read>)
    requires s.Valid() && s.err == NoError
    ensures Rewound(AfterAll(s, ops), s.pos) == s
    ensures PerformAll(Rewound(AfterAll(s, ops), s.pos), next) == PerformAll(s, next)
  {
    hide PerformAll;
    Sticky(s, ops);
  }

  /** Going to a position beyond the end is an error, from which no read recovers. */
  lemma RewindTooFar(s: Source, pos: nat, next: seq<Read>)
    requires s.Valid() && |s.data| < pos
    ensures AfterAll(Rewound(s, pos), next) == Rewound(s, pos) == Source(s.data, |s.data|, OutOfData)
  {
    hide PerformAll;
    Sticky(Rewound(s, pos), next);
  }
}
