/**
 The splitter for a proxy command's standard error: lines out of a stream that
 arrives in arbitrary pieces, in a buffer of fixed size.
 */
module ProxyStderr {
  import opened Bytes

  const BUFFER_SIZE: nat := 8192
  const NEWLINE: Byte := 10
  const RETURN: Byte := 13

  // ------------------------------------------------------------------- the intended cut

  /** A line with its newline, at most as long as the buffer, or a full buffer without one. */
  ghost predicate IsPiece(s: seq<Byte>) {
    && 0 < |s| <= BUFFER_SIZE && NEWLINE !in s[..|s| - 1]
    && (s[|s| - 1] == NEWLINE || |s| == BUFFER_SIZE)
  }

  /** What waits for more input: no newline, and room left. */
  ghost predicate IsRemainder(s: seq<Byte>) {
    |s| < BUFFER_SIZE && NEWLINE !in s
  }

  function Flatten(pieces: seq<seq<Byte>>): seq<Byte> {
    if |pieces| == 0 then [] else pieces[0] + Flatten(pieces[1..])
  }

  ghost predicate AllPieces(pieces: seq<seq<Byte>>) {
    forall i :: 0 <= i < |pieces| ==> IsPiece(pieces[i])
  }

  /** pieces and rest are the way to cut s. */
  ghost predicate CutsTo(s: seq<Byte>, pieces: seq<seq<Byte>>, rest: seq<Byte>) {
    s == Flatten(pieces) + rest && AllPieces(pieces) && IsRemainder(rest)
  }

  /** There is only one way: so whatever respects the three conditions is a function of the input alone. */
  lemma {:induction false} CutUnique(s: seq<Byte>, ps: seq<seq<Byte>>, rest: seq<Byte>, qs: seq<seq<Byte>>, rest': seq<Byte>)
    requires CutsTo(s, ps, rest) && CutsTo(s, qs, rest')
    ensures ps == qs && rest == rest'
    decreases |ps|
  {
    if |ps| == 0 {
      assert s == rest;
      if |qs| == 0 {
        assert s == rest';
      } else {
        PieceWithinRemainder(s, qs, rest');
      }
    } else {
      if |qs| == 0 {
        assert s == rest';
        PieceWithinRemainder(s, ps, rest);
      } else {
        SameFirst(s, ps, rest, qs, rest');
        CutUnique(s[|ps[0]|..], ps[1..], rest, qs[1..], rest');
      }
    }
  }

  /** A remainder is never a piece with something after it. */
  lemma PieceWithinRemainder(s: seq<Byte>, ps: seq<seq<Byte>>, rest: seq<Byte>)
    requires CutsTo(s, ps, rest) && 0 < |ps|
    ensures !IsRemainder(s)
  {
    var first, tail := ps[0], Flatten(ps[1..]) + rest;
    assert s == first + tail;
    assert IsPiece(first);
    assert s[|first| - 1] == first[|first| - 1];
  }

  lemma SameFirst(s: seq<Byte>, ps: seq<seq<Byte>>, rest: seq<Byte>, qs: seq<seq<Byte>>, rest': seq<Byte>)
    requires CutsTo(s, ps, rest) && CutsTo(s, qs, rest') && 0 < |ps| && 0 < |qs|
    ensures ps[0] == qs[0]
    ensures CutsTo(s[|ps[0]|..], ps[1..], rest) && CutsTo(s[|ps[0]|..], qs[1..], rest')
  {
    var p, q := ps[0], qs[0];
    var p', q' := Flatten(ps[1..]) + rest, Flatten(qs[1..]) + rest';
    assert s == p + p' && s == q + q';
    NoShorterPiece(s, p, p', q, q');
    NoShorterPiece(s, q, q', p, p');
    assert p == s[..|p|] == s[..|q|] == q;
    assert s[|p|..] == p' == q';
  }

  lemma NoShorterPiece(s: seq<Byte>, p: seq<Byte>, p': seq<Byte>, q: seq<Byte>, q': seq<Byte>)
    requires s == p + p' && s == q + q' && IsPiece(p) && IsPiece(q)
    ensures |q| <= |p|
  {
    PieceInStream(s, p, p');
    PieceInStream(s, q, q');
  }

  lemma PieceInStream(s: seq<Byte>, p: seq<Byte>, p': seq<Byte>)
    requires s == p + p' && IsPiece(p)
    ensures forall k :: 0 <= k < |p| - 1 ==> s[k] != NEWLINE
    ensures |p| == BUFFER_SIZE || s[|p| - 1] == NEWLINE
  {
    forall k | 0 <= k < |p| - 1 ensures s[k] != NEWLINE {
      assert s[k] == p[..|p| - 1][k];
    }
  }

  // -------------------------------------------------------------------------- messages

  datatype Message = Line(text: seq<Byte>) | PartialLine(text: seq<Byte>)

  /** A line without the carriage returns at its end. */
  function StripReturns(s: seq<Byte>): (r: seq<Byte>)
    ensures r <= s && (forall i :: |r| <= i < |s| ==> s[i] == 13) && (|r| > 0 ==> r[|r| - 1] != 13)
  {
    if 0 < |s| && s[|s| - 1] == RETURN then StripReturns(s[..|s| - 1]) else s
  }

  /** What the format %.*s shows of a text: all of it, or what is before its first zero byte. */
  function Printed(s: seq<Byte>): (t: seq<Byte>)
    ensures t <= s && 0 !in t && (t == s || s[|t|] == 0)
  {
    if |s| == 0 || s[0] == 0 then [] else [s[0]] + Printed(s[1..])
  }

  /** The message logged for a piece. */
  function Render(piece: seq<Byte>): Message
    requires 0 < |piece|
  {
    if piece[|piece| - 1] == NEWLINE then Line(Printed(StripReturns(piece[..|piece| - 1]))) else PartialLine(Printed(piece))
  }

  /** What is to be logged for a piece: up to the carriage returns before its newline, or all of it if it is a full buffer
      without a newline, but nothing from a zero byte on. */
  ghost predicate ShownAs(piece: seq<Byte>, m: Message) {
    match m
    case Line(text) =>
      exists k: nat :: k < |piece| <= 8192 && piece[|piece| - 1] == 10 && 10 !in piece[..|piece| - 1]
                       && (forall i :: k <= i < |piece| - 1 ==> piece[i] == 13) && (k > 0 ==> piece[k - 1] != 13)
                       && Cut(piece[..k], text)
    case PartialLine(text) => |piece| == 8192 && 10 !in piece && Cut(piece, text)
  }

  /** t is s up to its first zero byte. */
  ghost predicate Cut(s: seq<Byte>, t: seq<Byte>) {
    t <= s && 0 !in t && (|t| < |s| ==> s[|t|] == 0)
  }

  lemma RenderShows(piece: seq<Byte>)
    requires IsPiece(piece)
    ensures ShownAs(piece, Render(piece))
  {
    hide StripReturns, Printed;
    var n := |piece| - 1;
    assert piece == piece[..n] + [piece[n]];
    if piece[n] == NEWLINE {
      var r := StripReturns(piece[..n]);
      assert piece[..|r|] == r;
      assert forall i :: |r| <= i < n ==> piece[i] == piece[..n][i];
    }
  }

  function RenderAll(pieces: seq<seq<Byte>>): (r: seq<Message>)
    requires forall i :: 0 <= i < |pieces| ==> 0 < |pieces[i]|
    ensures |r| == |pieces|
  {
    seq(|pieces|, i requires 0 <= i < |pieces| => Render(pieces[i]))
  }

  /** ProxyStderrBuf. The ghost fields record the input so far and how it was cut. */
  class ProxyStderrBuf {
    const buf: array<Byte>
    var size: nat
    var log: seq<Message>
    ghost var received: seq<Byte>
    ghost var pieces: seq<seq<Byte>>

    ghost predicate Valid()
      reads this, buf
    {
      && buf.Length == BUFFER_SIZE && size < BUFFER_SIZE
      && CutsTo(received, pieces, buf[..size])
      && log == RenderAll(pieces)
    }

    /** While a buffer is being worked through: the part from pos on is still to be cut. */
    ghost predicate Working(pos: nat)
      reads this, buf
    {
      && buf.Length == BUFFER_SIZE && pos <= size <= BUFFER_SIZE
      && received == Flatten(pieces) + buf[pos..size] && AllPieces(pieces)
      && log == RenderAll(pieces)
    }

    /** psb_init. */
    constructor ()
      ensures Valid() && fresh(buf) && received == [] && log == []
    {
      buf := new Byte[BUFFER_SIZE](_ => 0);
      size, log, received, pieces := 0, [], [], [];
      new;
      assert buf[..size] == [];
    }

    /** Copy the first n bytes of data to the end of what the buffer holds. */
    method Fill(data: seq<Byte>, n: nat)
      requires Valid() && n <= |data| && size + n <= BUFFER_SIZE
      modifies this`size, this`received, buf
      ensures Working(0) && size == old(size) + n && received == old(received) + data[..n]
      ensures log == old(log) && pieces == old(pieces)
    {
      hide RenderAll, AllPieces, Flatten;
      ghost var held := buf[..size];
      var i := 0;
      while i < n
        invariant 0 <= i <= n && size == old(size) && received == old(received) && buf[..size] == held
        invariant forall j :: 0 <= j < i ==> buf[size + j] == data[j]
      {
        buf[size + i] := data[i];
        i := i + 1;
      }
      assert buf[..size + n] == held + data[..n];
      size := size + n;
      received := received + data[..n];
      assert buf[0..size] == buf[..size];
      assert Flatten(pieces) + held + data[..n] == Flatten(pieces) + (held + data[..n]);
    }

    /** memchr: the first newline from pos on, or the end. */
    method FindNewline(pos: nat) returns (i: nat)
      requires buf.Length == BUFFER_SIZE && pos <= size <= BUFFER_SIZE
      ensures pos <= i <= size && (i < size ==> buf[i] == NEWLINE)
      ensures forall j :: pos <= j < i ==> buf[j] != NEWLINE
    {
      i := pos;
      while i < size && buf[i] != NEWLINE
        invariant pos <= i <= size && forall j :: pos <= j < i ==> buf[j] != NEWLINE
      {
        i := i + 1;
      }
    }

    /** The end of the line's text: trailing newlines and returns are dropped. */
    method TrimEnd(pos: nat, nlpos: nat) returns (endpos: nat)
      requires buf.Length == BUFFER_SIZE && pos <= nlpos < BUFFER_SIZE
      requires forall j :: pos <= j < nlpos ==> buf[j] != NEWLINE
      ensures pos <= endpos <= nlpos && buf[pos..endpos] == StripReturns(buf[pos..nlpos])
    {
      endpos := nlpos;
      while pos < endpos && (buf[endpos - 1] == NEWLINE || buf[endpos - 1] == RETURN)
        invariant pos <= endpos <= nlpos && StripReturns(buf[pos..endpos]) == StripReturns(buf[pos..nlpos])
      {
        assert buf[pos..endpos][..endpos - pos - 1] == buf[pos..endpos - 1];
        endpos := endpos - 1;
      }
      assert pos < endpos ==> buf[pos..endpos][endpos - pos - 1] == buf[endpos - 1];
    }

    /** Log one line that ends with the newline at nlpos. */
    method LogLine(pos: nat, nlpos: nat)
      requires Working(pos) && pos <= nlpos < size && buf[nlpos] == NEWLINE
      requires forall j :: pos <= j < nlpos ==> buf[j] != NEWLINE
      modifies this`log, this`pieces
      ensures Working(nlpos + 1)
    {
      hide RenderAll, Flatten, StripReturns, Printed;
      var endpos := TrimEnd(pos, nlpos);
      ghost var piece := buf[pos..nlpos + 1];
      assert piece[..|piece| - 1] == buf[pos..nlpos];
      assert IsPiece(piece);
      assert Render(piece) == Line(Printed(buf[pos..endpos]));
      assert buf[pos..size] == piece + buf[nlpos + 1..size];
      OneMore(pieces, piece, buf[nlpos + 1..size]);
      log := log + [Line(Printed(buf[pos..endpos]))];
      pieces := pieces + [piece];
    }

    /** Log a full buffer that holds no newline. */
    method LogPartial()
      requires Working(0) && size == BUFFER_SIZE && NEWLINE !in buf[..]
      modifies this`log, this`pieces, this`size
      ensures Working(0) && size == 0
    {
      hide RenderAll, Flatten, StripReturns, Printed;
      ghost var piece := buf[0..size];
      assert piece == buf[..];
      assert piece[|piece| - 1] == buf[size - 1] && piece[|piece| - 1] in buf[..];
      assert forall j :: 0 <= j < |piece| - 1 ==> piece[..|piece| - 1][j] == buf[..][j];
      assert IsPiece(piece);
      assert piece == piece + [];
      OneMore(pieces, piece, []);
      log := log + [PartialLine(Printed(buf[..]))];
      pieces := pieces + [piece];
      size := 0;
      assert buf[0..0] == [];
    }

    /** Move what is left down to the front. */
    method MoveDown(pos: nat)
      requires Working(pos) && IsRemainder(buf[pos..size])
      modifies this`size, buf
      ensures Valid() && received == old(received) && pieces == old(pieces) && log == old(log)
    {
      hide RenderAll, Flatten, AllPieces;
      ghost var left := buf[pos..size];
      var newsize := size - pos;
      var i := 0;
      while i < newsize
        invariant 0 <= i <= newsize && newsize == |left| == size - pos
        invariant forall j :: 0 <= j < i ==> buf[j] == left[j]
        invariant forall j :: pos + i <= j < size ==> buf[j] == left[j - pos]
      {
        buf[i] := buf[pos + i];
        i := i + 1;
      }
      size := newsize;
      assert buf[..size] == left;
    }

    /** One round of the outer loop, after the buffer has been filled. */
    method Drain()
      requires Working(0)
      modifies this`log, this`pieces, this`size, buf
      ensures Valid() && received == old(received)
    {
      hide RenderAll, Flatten, AllPieces, IsPiece;
      var pos := 0;
      while pos < size
        invariant Working(pos) && received == old(received)
        invariant size == old(size) && buf[..] == old(buf[..])
        decreases size - pos
      {
        var nlpos := FindNewline(pos);
        if nlpos == size {
          break;
        }
        LogLine(pos, nlpos);
        pos := nlpos + 1;
      }
      assert NEWLINE !in buf[pos..size];
      if pos == 0 && size == BUFFER_SIZE {
        assert buf[0..size] == buf[..];
        LogPartial();
        assert buf[0..0] == [];
      }
      MoveDown(pos);
    }

    /** log_proxy_stderr. */
    method LogProxyStderr(data: seq<Byte>)
      requires Valid()
      modifies this`log, this`pieces, this`size, this`received, buf
      ensures Valid() && received == old(received) + data
    {
      hide RenderAll, Flatten, AllPieces, IsPiece;
      var rest := data;
      assert received + data == received + rest;
      while |rest| > 0
        invariant Valid() && received + rest == old(received) + data
        decreases |rest|
      {
        var toConsume := BUFFER_SIZE - size;
        if toConsume > |rest| {
          toConsume := |rest|;
        }
        Fill(rest, toConsume);
        assert rest == rest[..toConsume] + rest[toConsume..];
        rest := rest[toConsume..];
        Drain();
      }
      assert rest == [];
    }
  }

  lemma OneMore(pieces: seq<seq<Byte>>, piece: seq<Byte>, rest: seq<Byte>)
    requires AllPieces(pieces) && IsPiece(piece)
    ensures AllPieces(pieces + [piece]) && RenderAll(pieces + [piece]) == RenderAll(pieces) + [Render(piece)]
    ensures Flatten(pieces) + (piece + rest) == Flatten(pieces + [piece]) + rest
  {
    FlattenSnoc(pieces, piece);
  }

  lemma {:induction false} FlattenSnoc(pieces: seq<seq<Byte>>, piece: seq<Byte>)
    ensures Flatten(pieces + [piece]) == Flatten(pieces) + piece
  {
    if |pieces| == 0 {
      assert (pieces + [piece])[1..] == [];
      assert Flatten([]) == [];
      assert piece + [] == piece;
    } else {
      assert (pieces + [piece])[1..] == pieces[1..] + [piece];
      FlattenSnoc(pieces[1..], piece);
    }
  }

  /** What has been received is cut into pieces, of which each has been logged in its turn, and a remainder that is in the
      buffer. */
  lemma LogIs(psb: ProxyStderrBuf)
    requires psb.Valid()
    ensures psb.received == Flatten(psb.pieces) + psb.buf[..psb.size] && |psb.log| == |psb.pieces|
    ensures forall i :: 0 <= i < |psb.log| ==> ShownAs(psb.pieces[i], psb.log[i])
    ensures psb.size < 8192 && forall j :: 0 <= j < psb.size ==> psb.buf[j] != 10
  {
    hide Render, ShownAs;
    assert psb.size <= psb.buf.Length;
    forall i | 0 <= i < |psb.log| ensures ShownAs(psb.pieces[i], psb.log[i]) {
      RenderShows(psb.pieces[i]);
    }
    forall j | 0 <= j < psb.size ensures psb.buf[j] != 10 {
      assert psb.buf[j] == psb.buf[..psb.size][j];
    }
  }

  /** A line of text, with or without carriage returns before its newline, is logged as that text. */
  lemma LineLogged(psb: ProxyStderrBuf, text: seq<Byte>, k: nat)
    requires psb.Valid() && psb.received == text + seq(k, _ => 13) + [10] && |text| + k < 8192
    requires 0 !in text && 10 !in text && (|text| > 0 ==> text[|text| - 1] != 13)
    ensures psb.log == [Line(text)] && psb.size == 0
  {
    hide Printed, StripReturns;
    var line: seq<Byte> := text + seq(k, _ => 13);
    var piece := line + [10];
    assert piece[..|piece| - 1] == line;
    assert forall i :: 0 <= i < |line| ==> line[i] in text || line[i] == 13;
    assert IsPiece(piece);
    assert Flatten([piece]) == piece by { assert [piece][1..] == [] && Flatten([]) == []; }
    assert CutsTo(psb.received, [piece], []);
    CutUnique(psb.received, psb.pieces, psb.buf[..psb.size], [piece], []);
    assert |psb.buf[..psb.size]| == psb.size;
    var r := StripReturns(line);
    assert r == text by { SameStripped(line, r, text); }
    assert Printed(text) == text;
  }

  lemma SameStripped(s: seq<Byte>, r: seq<Byte>, t: seq<Byte>)
    requires r <= s && (forall i :: |r| <= i < |s| ==> s[i] == 13) && (|r| > 0 ==> r[|r| - 1] != 13)
    requires t <= s && (forall i :: |t| <= i < |s| ==> s[i] == 13) && (|t| > 0 ==> t[|t| - 1] != 13)
    ensures r == t
  {
    assert |t| > 0 ==> t[|t| - 1] == s[|t| - 1];
    assert |r| > 0 ==> r[|r| - 1] == s[|r| - 1];
  }

  /** Two splitters that have received the same bytes, in whatever pieces, have logged the same messages and hold the same
      remainder. */
  lemma ChunkingDoesNotMatter(a: ProxyStderrBuf, b: ProxyStderrBuf)
    requires a.Valid() && b.Valid() && a.received == b.received
    ensures a.log == b.log && a.buf[..a.size] == b.buf[..b.size]
  {
    CutUnique(a.received, a.pieces, a.buf[..a.size], b.pieces, b.buf[..b.size]);
  }
}
