/**
 Reading and writing of marshalled data: sources with a sticky error, and sinks.
 */
module Marshal {
  import opened Arithmetic
  import opened Bytes

  datatype Error = NoError | OutOfData | Invalid

  /** The state of a BinarySource. */
  datatype Source = Source(data: seq<Byte>, pos: nat, err: Error) {
    ghost predicate Valid() {
      pos <= |data|
    }

    function Left(): seq<Byte>
      requires Valid()
    {
      data[pos..]
    }

    function Advance(n: nat): (s: Source)
      requires pos + n <= |data|
    {
      Source(data, pos + n, err)
    }

    function Fail(e: Error): Source {
      Source(data, pos, e)
    }
  }

  // ------------------------------------------------------------ what each read delivers

  /** BinarySource_get_data. */
  function GetData(s: Source, wanted: nat): (r: (seq<Byte>, Source))
    requires s.Valid()
    ensures r.1.Valid()
  {
    if s.err != NoError then ([], s)
    else if wanted <= |s.data| - s.pos then (s.data[s.pos..s.pos + wanted], s.Advance(wanted))
    else ([], s.Fail(OutOfData))
  }

  /** BinarySource_get_byte, get_uint16, get_uint32 and get_uint64: k bytes, most significant first, and 0 on error. */
  function GetUint(s: Source, k: nat): (r: (nat, Source))
    requires s.Valid()
    ensures r.1.Valid()
  {
    var (d, s') := GetData(s, k);
    (BigEndian(d), s')
  }

  /** BinarySource_get_string. */
  function GetString(s: Source): (r: (seq<Byte>, Source))
    requires s.Valid()
    ensures r.1.Valid()
  {
    var (len, s') := GetUint(s, 4);
    if s'.err != NoError then ([], s') else GetData(s', len)
  }

  /** BinarySource_get_pstring. */
  function GetPstring(s: Source): (r: (seq<Byte>, Source))
    requires s.Valid()
    ensures r.1.Valid()
  {
    var (len, s') := GetUint(s, 1);
    if s'.err != NoError then ([], s') else GetData(s', len)
  }

  /** The index of the first c in s, or the length. */
  function FindByte(s: seq<Byte>, c: Byte): (i: nat)
    ensures i <= |s| && (i < |s| ==> s[i] == c) && forall j :: 0 <= j < i ==> s[j] != c
  {
    if |s| == 0 || s[0] == c then 0 else 1 + FindByte(s[1..], c)
  }

  /** BinarySource_get_asciz: up to a zero byte, which is consumed. */
  function GetAsciz(s: Source): (r: (seq<Byte>, Source))
    requires s.Valid()
    ensures r.1.Valid()
  {
    if s.err != NoError then ([], s)
    else
      var n := FindByte(s.Left(), 0);
      if n == |s.Left()| then ([], s.Fail(OutOfData)) else (s.Left()[..n], s.Advance(n + 1))
  }

  /** The number of leading bytes of s whose membership of chars is wanted. */
  function SpanLength(s: seq<Byte>, chars: set<Byte>, wanted: bool): (n: nat)
    ensures n <= |s| && (n < |s| ==> (s[n] in chars) != wanted)
    ensures forall j :: 0 <= j < n ==> (s[j] in chars) == wanted
  {
    if |s| == 0 || (s[0] in chars) != wanted then 0 else 1 + SpanLength(s[1..], chars, wanted)
  }

  /** BinarySource_get_chars and get_nonchars. Running into the end of the data is an error, though the bytes are
      delivered. */
  function GetChars(s: Source, chars: set<Byte>, wanted: bool): (r: (seq<Byte>, Source))
    requires s.Valid()
    ensures r.1.Valid()
  {
    if s.err != NoError then ([], s)
    else
      var n := SpanLength(s.Left(), chars, wanted);
      (s.Left()[..n], if n == |s.Left()| then s.Advance(n).Fail(OutOfData) else s.Advance(n))
  }

  /** BinarySource_get_chomped_line: a line without its newline and one carriage return before it. The end of the data also
      ends a line, and is no error. */
  function GetChompedLine(s: Source): (r: (seq<Byte>, Source))
    requires s.Valid()
    ensures r.1.Valid()
  {
    if s.err != NoError then ([], s)
    else
      var n := FindByte(s.Left(), 10);
      var line := s.Left()[..n];
      var chomped := if n > 0 && line[n - 1] == 13 then line[..n - 1] else line;
      (chomped, if n == |s.Left()| then s.Advance(n) else s.Advance(n + 1))
  }

  /** The same line, by its place in the data. */
  lemma ChompedFrom(data: seq<Byte>, start: nat, n: nat)
    requires start <= |data| && n == FindByte(data[start..], 10)
    ensures start + n <= |data|
    ensures start + n < |data| ==> data[start + n] == 10
    ensures n > 0 ==> data[start + n - 1] != 10 && data[start..][..n][n - 1] == data[start + n - 1]
    ensures data[start..][..n] == data[start..start + n]
    ensures n > 0 ==> data[start..][..n][..n - 1] == data[start..start + n - 1]
  {
    hide FindByte;
    var left := data[start..];
    assert n > 0 ==> left[n - 1] == data[start + n - 1];
  }

  /** BinarySource_REWIND_TO__: the only operation that clears an error. */
  function Rewound(s: Source, pos: nat): (r: Source)
    ensures r.Valid()
  {
    if pos <= |s.data| then Source(s.data, pos, NoError) else Source(s.data, |s.data|, OutOfData)
  }

  // ------------------------------------------------------------------------- the source

  /** BinarySource. */
  class BinarySource {
    const data: seq<Byte>
    var pos: nat
    var err: Error

    function State(): Source
      reads this
    {
      Source(data, pos, err)
    }

    constructor (data: seq<Byte>)
      ensures State() == Source(data, 0, NoError)
    {
      this.data, pos, err := data, 0, NoError;
    }

    /** BinarySource_data_avail. */
    method Avail(wanted: nat) returns (ok: bool)
      requires State().Valid()
      modifies this`err
      ensures ok <==> old(err) == NoError && wanted <= |data| - pos
      ensures err == if old(err) == NoError && !ok then OutOfData else old(err)
    {
      if err != NoError {
        return false;
      }
      if wanted <= |data| - pos {
        return true;
      }
      err := OutOfData;
      return false;
    }

    method ReadData(wanted: nat) returns (d: seq<Byte>)
      requires State().Valid()
      modifies this`pos, this`err
      ensures (d, State()) == GetData(old(State()), wanted)
    {
      var ok := Avail(wanted);
      if !ok {
        return [];
      }
      d := data[pos..pos + wanted];
      pos := pos + wanted;
    }

    method ReadUint(k: nat) returns (v: nat)
      requires State().Valid()
      modifies this`pos, this`err
      ensures (v, State()) == GetUint(old(State()), k)
    {
      var d := ReadData(k);
      v := BigEndian(d);
    }

    method ReadString() returns (d: seq<Byte>)
      requires State().Valid()
      modifies this`pos, this`err
      ensures (d, State()) == GetString(old(State()))
    {
      hide BigEndian;
      var ok := Avail(4);
      if !ok {
        return [];
      }
      var len := BigEndian(data[pos..pos + 4]);
      pos := pos + 4;
      d := ReadData(len);
    }

    method ReadPstring() returns (d: seq<Byte>)
      requires State().Valid()
      modifies this`pos, this`err
      ensures (d, State()) == GetPstring(old(State()))
    {
      var len := ReadUint(1);
      if err != NoError {
        return [];
      }
      d := ReadData(len);
    }

    method ReadAsciz() returns (d: seq<Byte>)
      requires State().Valid()
      modifies this`pos, this`err
      ensures (d, State()) == GetAsciz(old(State()))
    {
      hide FindByte;
      if err != NoError {
        return [];
      }
      var n := FindByte(data[pos..], 0);
      if n == |data| - pos {
        err := OutOfData;
        return [];
      }
      d := data[pos..][..n];
      pos := pos + n + 1;
    }

    /** BinarySource_get_chars_internal. */
    method ReadChars(chars: set<Byte>, wanted: bool) returns (d: seq<Byte>)
      requires State().Valid()
      modifies this`pos, this`err
      ensures (d, State()) == GetChars(old(State()), chars, wanted)
    {
      hide SpanLength;
      var start := pos;
      ghost var left := data[pos..];
      ghost var n := SpanLength(left, chars, wanted);
      var more := Avail(1);
      while more
        invariant start <= pos <= |data| && err == (if old(err) == NoError && !more then OutOfData else old(err))
        invariant old(err) == NoError ==> pos - start <= n
        invariant old(err) != NoError ==> pos == start
        invariant more <==> old(err) == NoError && pos < |data|
        decreases |data| - pos
      {
        assert data[pos] == left[pos - start];
        if (data[pos] in chars) != wanted {
          break;
        }
        pos := pos + 1;
        more := Avail(1);
      }
      d := data[start..pos];
      assert d == left[..pos - start];
    }

    method ReadChompedLine() returns (d: seq<Byte>)
      requires State().Valid()
      modifies this`pos, this`err
      ensures (d, State()) == GetChompedLine(old(State()))
    {
      hide FindByte;
      if err != NoError {
        return [];
      }
      var start := pos;
      var n := FindByte(data[pos..], 10);
      ChompedFrom(data, start, n);
      pos := if n < |data| - pos then pos + n + 1 else |data|;
      var end := pos;
      if end > start && data[end - 1] == 10 {
        end := end - 1;
      }
      if end > start && data[end - 1] == 13 {
        end := end - 1;
      }
      d := data[start..end];
    }

    /** BinarySource_REWIND_TO__. */
    method RewindTo(pos: nat)
      requires State().Valid()
      modifies this`pos, this`err
      ensures State() == Rewound(old(State()), pos)
    {
      if pos <= |data| {
        this.pos := pos;
        err := NoError;
      } else {
        this.pos := |data|;
        err := OutOfData;
      }
    }
  }

  // --------------------------------------------------------------------------- the sink

  /** BinarySink: whatever is written is appended. */
  class BinarySink {
    var out: seq<Byte>

    constructor ()
      ensures out == []
    {
      out := [];
    }

    method PutData(d: seq<Byte>)
      modifies this
      ensures out == old(out) + d
    {
      out := out + d;
    }

    method PutByte(b: Byte)
      modifies this
      ensures out == old(out) + [b]
    {
      out := out + [b];
    }

    /** BinarySink_put_uint16, put_uint32 and put_uint64. */
    method PutUint(v: nat, k: nat)
      modifies this
      ensures out == old(out) + Put(v, k)
    {
      out := out + Put(v, k);
    }

    /** BinarySink_put_padding: blocks of sixteen. */
    method PutPadding(len: nat, padbyte: Byte)
      modifies this
      ensures |out| == |old(out)| + len && out[..|old(out)|] == old(out)
      ensures forall i :: |old(out)| <= i < |out| ==> out[i] == padbyte
    {
      var left := len;
      while left > 0
        invariant 0 <= left <= len && |out| == |old(out)| + (len - left) && out[..|old(out)|] == old(out)
        invariant forall i :: |old(out)| <= i < |out| ==> out[i] == padbyte
      {
        var thislen := if left < 16 then left else 16;
        PutData(seq(thislen, _ => padbyte));
        left := left - thislen;
      }
    }

    /** BinarySink_put_string; the length must fit in four bytes. */
    method PutString(d: seq<Byte>)
      requires |d| < 0x1_0000_0000
      modifies this
      ensures out == old(out) + Put(|d|, 4) + d
    {
      PutUint(|d|, 4);
      PutData(d);
    }

    /** BinarySink_put_pstring: refuses what one byte cannot count. */
    method PutPstring(d: seq<Byte>) returns (ok: bool)
      modifies this
      ensures ok <==> |d| <= 255
      ensures out == if ok then old(out) + [|d| as Byte] + d else old(out)
    {
      if |d| > 255 {
        return false;
      }
      PutByte(|d|);
      PutData(d);
      return true;
    }
  }

  // ------------------------------------------------------------------------ round trips

  /** A source that stands, without error, before d and then rest. */
  ghost predicate Before(s: Source, d: seq<Byte>, rest: seq<Byte>) {
    s.Valid() && s.err == NoError && s.Left() == d + rest
  }

  lemma GetDataBack(s: Source, d: seq<Byte>, rest: seq<Byte>)
    requires Before(s, d, rest)
    ensures GetData(s, |d|) == (d, s.Advance(|d|)) && Before(s.Advance(|d|), [], rest)
  {
    var left := s.Left();
    assert s.data[s.pos..s.pos + |d|] == left[..|d|] == d;
    assert s.Advance(|d|).Left() == left[|d|..] == rest;
  }

  lemma GetUintBack(s: Source, v: nat, k: nat, rest: seq<Byte>)
    requires Before(s, Put(v, k), rest) && v < Pow(256, k)
    ensures GetUint(s, k) == (v, s.Advance(k)) && Before(s.Advance(k), [], rest)
  {
    hide BigEndian, Put, Pow;
    GetDataBack(s, Put(v, k), rest);
    PutRoundTrip(v, k);
  }

  lemma GetStringBack(s: Source, d: seq<Byte>, rest: seq<Byte>)
    requires Before(s, Put(|d|, 4) + d, rest) && |d| < 0x1_0000_0000
    ensures GetString(s) == (d, s.Advance(4 + |d|)) && Before(s.Advance(4 + |d|), [], rest)
  {
    hide BigEndian, Put, Pow, GetUint, GetData, Before;
    Pow256();
    Reassociate(s, Put(|d|, 4), d, rest);
    GetUintBack(s, |d|, 4, d + rest);
    Reassociate(s.Advance(4), [], d, rest);
    GetDataBack(s.Advance(4), d, rest);
    assert s.Advance(4).Advance(|d|) == s.Advance(4 + |d|);
  }

  lemma Reassociate(s: Source, a: seq<Byte>, b: seq<Byte>, rest: seq<Byte>)
    requires Before(s, a + b, rest) || Before(s, a, b + rest)
    ensures s.Valid() && s.err == NoError && |s.data| - s.pos == |a| + |b| + |rest|
    ensures Before(s, a, b + rest) && (|a| == 0 ==> Before(s, b, rest))
  {
    assert a + b + rest == a + (b + rest);
    assert |a| == 0 ==> a + (b + rest) == b + rest;
  }

  lemma GetPstringBack(s: Source, d: seq<Byte>, rest: seq<Byte>)
    requires |d| <= 255 && Before(s, [|d| as Byte] + d, rest)
    ensures GetPstring(s) == (d, s.Advance(1 + |d|))
  {
    hide BigEndian, Put, Pow;
    Pow256();
    assert Put(|d|, 1) == [|d| as Byte] by { OneByte(|d|); }
    assert [|d| as Byte] + d + rest == Put(|d|, 1) + (d + rest);
    GetUintBack(s, |d|, 1, d + rest);
    GetDataBack(s.Advance(1), d, rest);
  }

  lemma OneByte(v: nat)
    requires v < 256
    ensures Put(v, 1) == [v as Byte]
  {
    assert Put(v / 256, 0) == [];
  }

  lemma GetAscizBack(s: Source, d: seq<Byte>, rest: seq<Byte>)
    requires Before(s, d + [0], rest) && 0 !in d
    ensures GetAsciz(s) == (d, s.Advance(|d| + 1))
  {
    hide FindByte;
    var left := s.Left();
    assert left[|d|] == 0;
    assert forall j :: 0 <= j < |d| ==> left[j] == d[j];
    var n := FindByte(left, 0);
    assert n == |d|;
    assert left[..n] == d;
  }
}
