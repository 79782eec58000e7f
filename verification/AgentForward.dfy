/**
 SSH agent forwarding: framing of requests out of a byte stream that arrives in
 arbitrary pieces, under throttling and with replies that may come later.
 */
module AgentForward {
  import opened Bytes

  const AGENT_MAX_MSGLEN: nat := 262144

  // ---------------------------------------------------------------------- framing

  datatype Parsed = Incomplete | Oversized | Frame(message: seq<Byte>, rest: seq<Byte>)

  /** What the front of the buffer holds. */
  function ParseFront(s: seq<Byte>): (r: Parsed)
    ensures r.Frame? ==> |r.rest| + 4 <= |s| && |r.message| <= AGENT_MAX_MSGLEN - 4
  {
    if |s| < 4 then Incomplete
    else
      var length := BigEndian(s[..4]);
      if length > AGENT_MAX_MSGLEN - 4 then Oversized
      else if length > |s| - 4 then Incomplete
      else Frame(s[4..4 + length], s[4 + length..])
  }

  /** When each of the three is the case: the length is that of the bytes after it, and 256 kilobytes are the limit for
      both. */
  lemma FrontIs(s: seq<Byte>)
    ensures ParseFront(s).Incomplete? <==> |s| < 4 || |s| - 4 < LengthField(s) <= 262140
    ensures ParseFront(s).Oversized? <==> |s| >= 4 && LengthField(s) > 262140
    ensures ParseFront(s).Frame? ==>
              var n := LengthField(s); |s| >= 4 + n && ParseFront(s).message == s[4..4 + n] && ParseFront(s).rest == s[4 + n..]
  {
    hide BigEndian;
    if |s| >= 4 {
      FourBytes(s[..4]);
    }
  }

  function LengthField(s: seq<Byte>): nat {
    if |s| < 4 then 0 else 0x100_0000 * (s[0] as nat) + 0x1_0000 * (s[1] as nat) + 0x100 * (s[2] as nat) + s[3] as nat
  }

  /** A message as it travels: its length in four bytes, and then itself. */
  function Encoded(message: seq<Byte>): seq<Byte> {
    Put(|message|, 4) + message
  }

  function EncodedAll(messages: seq<seq<Byte>>): seq<Byte> {
    if |messages| == 0 then [] else Encoded(messages[0]) + EncodedAll(messages[1..])
  }

  ghost predicate Acceptable(messages: seq<seq<Byte>>) {
    forall i :: 0 <= i < |messages| ==> |messages[i]| <= AGENT_MAX_MSGLEN - 4
  }

  /** The complete messages at the front of a stream. */
  function FramesOf(s: seq<Byte>): seq<seq<Byte>>
    decreases |s|
  {
    match ParseFront(s)
    case Frame(message, rest) => [message] + FramesOf(rest)
    case _ => []
  }

  lemma EncodedParses(message: seq<Byte>, rest: seq<Byte>)
    requires |message| <= AGENT_MAX_MSGLEN - 4
    ensures ParseFront(Encoded(message) + rest) == Frame(message, rest)
  {
    hide BigEndian, Put;
    var s, n := Encoded(message) + rest, |message|;
    Pow256();
    PutRoundTrip(n, 4);
    assert s[..4] == Put(n, 4);
    assert s[4..4 + n] == message;
    assert s[4 + n..] == rest;
  }

  /** The front of the buffer, if it is a message, is that message encoded. */
  lemma ParsesEncoded(s: seq<Byte>)
    requires ParseFront(s).Frame?
    ensures s == Encoded(ParseFront(s).message) + ParseFront(s).rest
  {
    hide BigEndian, Put;
    BigEndianRoundTrip(s[..4]);
  }

  /** The messages of a stream that begins with encoded messages are those and then the rest's: whatever has been taken off
      the front is determined by the stream. */
  lemma {:induction false} FramesOfEncoded(messages: seq<seq<Byte>>, rest: seq<Byte>)
    requires Acceptable(messages)
    ensures FramesOf(EncodedAll(messages) + rest) == messages + FramesOf(rest)
  {
    hide Encoded, FramesOf;
    if |messages| == 0 {
      assert EncodedAll(messages) + rest == rest;
    } else {
      var tail := EncodedAll(messages[1..]) + rest;
      assert EncodedAll(messages) + rest == Encoded(messages[0]) + tail;
      FirstFrame(messages[0], tail);
      FramesOfEncoded(messages[1..], rest);
      assert [messages[0]] + (messages[1..] + FramesOf(rest)) == messages + FramesOf(rest);
    }
  }

  lemma FirstFrame(message: seq<Byte>, rest: seq<Byte>)
    requires |message| <= AGENT_MAX_MSGLEN - 4
    ensures FramesOf(Encoded(message) + rest) == [message] + FramesOf(rest)
  {
    hide Encoded, ParseFront;
    EncodedParses(message, rest);
  }

  lemma NoFrameInFront(s: seq<Byte>)
    requires !ParseFront(s).Frame?
    ensures FramesOf(s) == []
  {
  }

  lemma {:induction false} EncodedAllSnoc(messages: seq<seq<Byte>>, message: seq<Byte>)
    ensures EncodedAll(messages + [message]) == EncodedAll(messages) + Encoded(message)
  {
    hide Encoded;
    if |messages| == 0 {
      assert (messages + [message])[1..] == [];
      assert EncodedAll([]) == [];
      assert Encoded(message) + [] == Encoded(message);
    } else {
      assert (messages + [message])[1..] == messages[1..] + [message];
      EncodedAllSnoc(messages[1..], message);
    }
  }

  // -------------------------------------------------------------------- the channel

  /** The agent's answer: null stands for none of any kind. */
  datatype Answer = Null | Reply(data: seq<Byte>)

  /** What goes back over the channel. */
  datatype Output = Response(data: seq<Byte>) | Eof

  /** SSH_AGENT_FAILURE takes the place of an answer that never came. */
  function OnTheWire(answer: Answer): seq<Byte> {
    match answer
    case Null => [0, 0, 0, 1, 5]
    case Reply(data) => data
  }

  function Responses(written: seq<Output>): seq<seq<Byte>> {
    if |written| == 0 then []
    else
      var init := Responses(written[..|written| - 1]);
      match written[|written| - 1]
      case Response(data) => init + [data]
      case Eof => init
  }

  function AllOnTheWire(answers: seq<Answer>): (r: seq<seq<Byte>>)
    ensures |r| == |answers|
  {
    seq(|answers|, i requires 0 <= i < |answers| => OnTheWire(answers[i]))
  }

  /** The outputs that answers make. */
  function Replied(answers: seq<Answer>): (r: seq<Output>)
    ensures |r| == |answers|
  {
    seq(|answers|, i requires 0 <= i < |answers| => Response(OnTheWire(answers[i])))
  }

  /** Outputs for the answers since the first n, and then for one more. */
  lemma RepliedMore(written: seq<Output>, before: seq<Output>, answers: seq<Answer>, n: nat, answer: Answer)
    requires n <= |answers| && written == before + Replied(answers[n..])
    ensures written + [Response(OnTheWire(answer))] == before + Replied((answers + [answer])[n..])
  {
    hide OnTheWire;
    assert (answers + [answer])[n..] == answers[n..] + [answer];
    assert Replied(answers[n..] + [answer]) == Replied(answers[n..]) + [Response(OnTheWire(answer))];
  }

  /** An answer, and then outputs for those after it. */
  lemma RepliedFirst(before: seq<Output>, earlier: seq<Answer>, answer: Answer, answers: seq<Answer>, last: seq<Output>)
    requires earlier + [answer] <= answers
    ensures before + [Response(OnTheWire(answer))] + Replied(answers[|earlier + [answer]|..]) + last ==
            before + Replied(answers[|earlier|..]) + last
  {
    hide OnTheWire;
    var n := |earlier|;
    assert answers[n] == (earlier + [answer])[n] == answer;
    assert Replied(answers[n..]) == [Response(OnTheWire(answer))] + Replied(answers[n + 1..]);
  }

  lemma RepliedNone(written: seq<Output>, answers: seq<Answer>)
    ensures written == written + Replied(answers[|answers|..])
  {
  }

  lemma ResponsesSnoc(written: seq<Output>, o: Output)
    ensures Responses(written + [o]) == match o case Response(data) => Responses(written) + [data] case Eof => Responses(written)
  {
    assert (written + [o])[..|written|] == written;
  }

  /** The state of the run at the time of an output. */
  datatype Moment =
    Moment(received: seq<Byte>, requests: seq<seq<Byte>>, answers: seq<Answer>, inbuffer: seq<Byte>, rcvdEof: bool)

  /** All complete messages of the bytes received have been passed on and answered, and the peer has sent EOF, or else an
      oversized message is next. */
  ghost predicate Finished(m: Moment) {
    && m.requests == FramesOf(m.received) && |m.answers| == |m.requests|
    && m.received == EncodedAll(m.requests) + m.inbuffer
    && (m.rcvdEof || ParseFront(m.inbuffer).Oversized?)
  }

  /** An output was made earlier in a run, and is EOF only if all was finished then. */
  ghost predicate Justified(o: Output, before: seq<Output>, m: Moment, now: Moment, refusals: nat) {
    && m.received <= now.received && m.requests <= now.requests && m.answers <= now.answers && (m.rcvdEof ==> now.rcvdEof)
    && (refusals == 0 ==> Responses(before) == AllOnTheWire(m.answers))
    && (o == Eof ==> Finished(m))
  }

  ghost predicate AllJustified(written: seq<Output>, moments: seq<Moment>, now: Moment, refusals: nat) {
    |moments| == |written| &&
    forall j :: 0 <= j < |written| ==> Justified(written[j], written[..j], moments[j], now, refusals)
  }

  lemma StillJustified(written: seq<Output>, moments: seq<Moment>, now: Moment, later: Moment, refusals: nat, more: nat)
    requires AllJustified(written, moments, now, refusals) && refusals <= more
    requires now.received <= later.received && now.requests <= later.requests && now.answers <= later.answers
    requires now.rcvdEof ==> later.rcvdEof
    ensures AllJustified(written, moments, later, more)
  {
    hide Responses, AllOnTheWire, Finished;
  }

  lemma OneMoreJustified(written: seq<Output>, moments: seq<Moment>, now: Moment, refusals: nat, o: Output)
    requires AllJustified(written, moments, now, refusals)
    requires refusals == 0 ==> Responses(written) == AllOnTheWire(now.answers)
    requires o == Eof ==> Finished(now)
    ensures AllJustified(written + [o], moments + [now], now, refusals)
  {
    hide Responses, AllOnTheWire, Finished;
    var w := written + [o];
    assert w[..|written|] == written;
    assert forall j :: 0 <= j < |written| ==> w[..j] == written[..j];
  }

  /** A refusal and the EOF after it. */
  lemma RefusalJustified(written: seq<Output>, moments: seq<Moment>, now: Moment, refusals: nat, data: seq<Byte>)
    requires AllJustified(written, moments, now, refusals) && Finished(now)
    requires refusals == 0 ==> Responses(written) == AllOnTheWire(now.answers)
    ensures var w := written + [Response(data), Eof];
            AllJustified(w, moments + [now, now], now, refusals + 1) && |Responses(w)| == |Responses(written)| + 1
  {
    hide Responses, AllOnTheWire, Finished, AllJustified;
    var o := Response(data);
    assert written + [o, Eof] == written + [o] + [Eof];
    assert moments + [now, now] == moments + [now] + [now];
    ResponsesSnoc(written, o);
    ResponsesSnoc(written + [o], Eof);
    OneMoreJustified(written, moments, now, refusals, o);
    StillJustified(written + [o], moments + [now], now, now, refusals, refusals + 1);
    OneMoreJustified(written + [o], moments + [now], now, refusals + 1, Eof);
  }

  /** The outputs since before were made with the bytes, and the peer's EOF, that had been received by now, and an EOF among
      them in the very state of now. */
  ghost predicate Stamped(before: seq<Output>, written: seq<Output>, earlier: seq<Moment>, moments: seq<Moment>, now: Moment) {
    && before <= written && earlier <= moments && |earlier| == |before| && |moments| == |written|
    && (forall j :: |before| <= j < |written| ==> moments[j].received == now.received && moments[j].rcvdEof == now.rcvdEof)
    && (forall j :: |before| <= j < |written| && written[j] == Eof ==> moments[j] == now)
  }

  lemma NothingStamped(written: seq<Output>, moments: seq<Moment>, now: Moment)
    requires |moments| == |written|
    ensures Stamped(written, written, moments, moments, now) && Eof !in written[|written|..]
  {
  }

  /** One more output, after some responses. */
  lemma OneMoreStamped(before: seq<Output>, written: seq<Output>, earlier: seq<Moment>, moments: seq<Moment>, now: Moment,
                       o: Output, m: Moment, later: Moment)
    requires Stamped(before, written, earlier, moments, now) && Eof !in written[|before|..]
    requires later.received == m.received == now.received && later.rcvdEof == m.rcvdEof == now.rcvdEof
    requires o == Eof ==> m == later
    ensures Stamped(before, written + [o], earlier, moments + [m], later)
    ensures Eof in (written + [o])[|before|..] <==> o == Eof
  {
    assert (written + [o])[|before|..] == written[|before|..] + [o];
    forall j | |before| <= j < |written| ensures written[j] != Eof {
      assert written[j] == written[|before|..][j - |before|];
    }
  }

  lemma TwoMoreStamped(before: seq<Output>, written: seq<Output>, earlier: seq<Moment>, moments: seq<Moment>, now: Moment,
                       data: seq<Byte>)
    requires Stamped(before, written, earlier, moments, now) && Eof !in written[|before|..]
    ensures Stamped(before, written + [Response(data), Eof], earlier, moments + [now, now], now)
  {
    hide Stamped;
    OneMoreStamped(before, written, earlier, moments, now, Response(data), now, now);
    assert written + [Response(data), Eof] == written + [Response(data)] + [Eof];
    assert moments + [now, now] == moments + [now] + [now];
    OneMoreStamped(before, written + [Response(data)], earlier, moments + [now], now, Eof, now, now);
  }

  lemma StampedStill(before: seq<Output>, written: seq<Output>, earlier: seq<Moment>, moments: seq<Moment>, now: Moment, later: Moment)
    requires Stamped(before, written, earlier, moments, now) && Eof !in written[|before|..]
    requires later.received == now.received && later.rcvdEof == now.rcvdEof
    ensures Stamped(before, written, earlier, moments, later)
  {
    forall j | |before| <= j < |written| ensures written[j] != Eof {
      assert written[j] == written[|before|..][j - |before|];
    }
  }

  /** agentf. The ghost fields record the run: the bytes received, the requests passed to the agent, its answers, the
      times an oversized message was refused, and the moment of each output. */
  class AgentForwarder {
    var inbuffer: seq<Byte>
    var pending: bool
    var inputWanted: bool
    var rcvdEof: bool
    var written: seq<Output>
    ghost var received: seq<Byte>
    ghost var requests: seq<seq<Byte>>
    ghost var answers: seq<Answer>
    ghost var refusals: nat
    ghost var moments: seq<Moment>

    /** What holds between any two steps. */
    ghost predicate Kept()
      reads this
    {
      && received == EncodedAll(requests) + inbuffer && Acceptable(requests)
      && |requests| == |answers| + (if pending then 1 else 0)
      && |Responses(written)| == |answers| + refusals
      && (refusals == 0 ==> Responses(written) == AllOnTheWire(answers))
      && AllJustified(written, moments, Now(), refusals)
    }

    ghost function Now(): Moment
      reads this
    {
      Moment(received, requests, answers, inbuffer, rcvdEof)
    }

    /** Nothing is left to pass on: every complete message received has been passed on and answered, and the peer has sent
        EOF, or an oversized message is next. */
    ghost predicate Done()
      reads this
    {
      && !pending && requests == FramesOf(received) && |answers| == |requests|
      && (rcvdEof || ParseFront(inbuffer).Oversized?)
    }

    /** What holds between any two events: also, an idle channel that may write has no complete request left, and has closed
        if it should. */
    ghost predicate Valid()
      reads this
    {
      && Kept()
      && (!pending && inputWanted ==> FramesOf(inbuffer) == [])
      && (Closing() != [] ==> 0 < |written| && written[|written| - 1] == Eof)
    }

    /** What an idle channel that may write has to say last: an oversized message is refused before its rest has come, and
        either that or the peer's EOF is followed by EOF. */
    ghost function Closing(): seq<Output>
      reads this
    {
      if pending || !inputWanted then []
      else if ParseFront(inbuffer).Oversized? then [Response([0, 0, 0, 1, 5]), Eof]
      else if rcvdEof then [Eof]
      else []
    }

    /** An event that began with these outputs and answers has added a response for each answer since, in order, and what is
        to be said last, and nothing else. */
    ghost predicate Wrote(before: seq<Output>, earlier: seq<Answer>, refused: nat)
      reads this
    {
      && earlier <= answers && written == before + Replied(answers[|earlier|..]) + Closing()
      && refusals == refused + (if |Closing()| == 2 then 1 else 0)
    }

    /** agentf_new. */
    constructor ()
      ensures Valid() && received == [] && requests == [] && written == [] && refusals == 0
      ensures !pending && inputWanted && !rcvdEof && inbuffer == []
    {
      inbuffer, pending, inputWanted, rcvdEof, written := [], false, true, false, [];
      received, requests, answers, refusals, moments := [], [], [], 0, [];
    }

    /** agentf_got_response, for a request. */
    method GotResponse(answer: Answer)
      requires Kept() && pending
      modifies this`pending, this`written, this`answers, this`moments
      ensures Kept() && !pending && answers == old(answers) + [answer]
      ensures written == old(written) + [Response(OnTheWire(answer))] && moments == old(moments) + [old(Now())]
    {
      hide EncodedAll, FramesOf, AllJustified;
      ghost var o, before := Response(OnTheWire(answer)), Now();
      ResponsesSnoc(written, o);
      assert AllOnTheWire(answers + [answer]) == AllOnTheWire(answers) + [OnTheWire(answer)];
      OneMoreJustified(written, moments, before, refusals, o);
      moments := moments + [before];
      written := written + [Response(OnTheWire(answer))];
      pending := false;
      answers := answers + [answer];
      StillJustified(written, moments, before, Now(), refusals, refusals);
    }

    /** The refusal of an oversized message, and the EOF that follows it. */
    method Refuse()
      requires Kept() && !pending && ParseFront(inbuffer).Oversized?
      modifies this`written, this`refusals, this`moments
      ensures Kept() && refusals == old(refusals) + 1
      ensures written == old(written) + [Response([0, 0, 0, 1, 5]), Eof] && moments == old(moments) + [Now(), Now()] && Done()
    {
      hide EncodedAll, FramesOf, AllOnTheWire, AllJustified, Responses;
      NoFrameInFront(inbuffer);
      NothingLeft();
      RefusalJustified(written, moments, Now(), refusals, OnTheWire(Null));
      moments := moments + [Now(), Now()];
      written := written + [Response(OnTheWire(Null)), Eof];
      refusals := refusals + 1;
    }

    /** The EOF that answers the peer's. */
    method WriteEof()
      requires Kept() && !pending && rcvdEof && FramesOf(inbuffer) == []
      modifies this`written, this`moments
      ensures Kept() && written == old(written) + [Eof] && moments == old(moments) + [Now()] && Done()
    {
      hide EncodedAll, FramesOf, AllOnTheWire, AllJustified;
      ResponsesSnoc(written, Eof);
      NothingLeft();
      OneMoreJustified(written, moments, Now(), refusals, Eof);
      moments := moments + [Now()];
      written := written + [Eof];
    }

    lemma OneMomentEach()
      requires Kept()
      ensures |moments| == |written|
    {
    }

    /** An idle channel without a complete message in its buffer has passed on all messages. */
    lemma NothingLeft()
      requires Kept() && !pending && FramesOf(inbuffer) == []
      ensures requests == FramesOf(received) && |answers| == |requests|
    {
      hide EncodedAll, FramesOf, AllOnTheWire, Responses, AllJustified;
      FramesOfEncoded(requests, inbuffer);
    }

    /** Take the request at the front off the buffer and pass it to the agent. */
    method Submit() returns (message: seq<Byte>)
      requires Kept() && !pending && ParseFront(inbuffer).Frame?
      modifies this`inbuffer, this`pending, this`requests
      ensures Kept() && pending && requests == old(requests) + [message]
      ensures ParseFront(old(inbuffer)) == Frame(message, inbuffer)
    {
      hide EncodedAll, FramesOf, AllOnTheWire, Encoded, AllJustified;
      var front := ParseFront(inbuffer);
      message := front.message;
      ParsesEncoded(inbuffer);
      EncodedAllSnoc(requests, message);
      assert EncodedAll(requests) + (Encoded(message) + front.rest) == EncodedAll(requests) + Encoded(message) + front.rest;
      ghost var before := Now();
      inbuffer := front.rest;
      pending := true;
      requests := requests + [message];
      StillJustified(written, moments, before, Now(), refusals, refusals);
    }

    /** Pass the request at the front to the agent, which answers at once or later, as it chooses. */
    method Query() returns (later: bool)
      requires Kept() && !pending && ParseFront(inbuffer).Frame?
      modifies this`inbuffer, this`pending, this`requests, this`written, this`answers, this`moments
      ensures Kept() && pending == later && old(requests) <= requests && |inbuffer| < |old(inbuffer)|
      ensures later ==> written == old(written) && answers == old(answers) && moments == old(moments)
      ensures !later ==> |answers| == |old(answers)| + 1 && answers[..|old(answers)|] == old(answers)
                         && written == old(written) + [Response(OnTheWire(answers[|old(answers)|]))]
                         && |moments| == |old(moments)| + 1 && moments[..|old(moments)|] == old(moments)
                         && moments[|old(moments)|].received == received && moments[|old(moments)|].rcvdEof == rcvdEof
    {
      hide EncodedAll, Responses, AllOnTheWire, Acceptable, AllJustified, OnTheWire;
      var message := Submit();
      later := *;
      if !later {
        var answer: Answer := *;
        GotResponse(answer);
      }
    }

    /** agentf_try_forward. */
    method TryForward()
      requires Kept()
      modifies this`inbuffer, this`pending, this`written, this`requests, this`answers, this`refusals, this`moments
      ensures Valid() && old(requests) <= requests && Wrote(old(written), old(answers), old(refusals))
      ensures old(pending) || !inputWanted ==> requests == old(requests) && written == old(written) && pending == old(pending)
      ensures Stamped(old(written), written, old(moments), moments, Now()) && (Eof in written[|old(written)|..] ==> Done())
    {
      hide AgentForwarder.Kept, Stamped, Replied, OnTheWire, ParseFront, FramesOf;
      OneMomentEach();
      NothingStamped(written, moments, Now());
      RepliedNone(written, answers);
      if pending || !inputWanted {
        return;
      }
      while true
        invariant Kept() && !pending && refusals == old(refusals)
        invariant old(requests) <= requests && old(answers) <= answers
        invariant written == old(written) + Replied(answers[|old(answers)|..])
        invariant Eof !in written[|old(written)|..] && Stamped(old(written), written, old(moments), moments, Now())
        decreases |inbuffer|
      {
        ghost var w, m, a, now := written, moments, answers, Now();
        var front := ParseFront(inbuffer);
        if front.Incomplete? {
          break;
        }
        if front.Oversized? {
          NoFrameInFront(inbuffer);
          Refuse();
          TwoMoreStamped(old(written), w, old(moments), m, now, [0, 0, 0, 1, 5]);
          return;
        }
        var later := Query();
        if later {
          StampedStill(old(written), w, old(moments), m, now, Now());
          return;
        }
        ghost var answer := answers[|a|];
        assert answers == a + [answer] && moments == m + [moments[|m|]];
        RepliedMore(w, old(written), a, |old(answers)|, answer);
        OneMoreStamped(old(written), w, old(moments), m, now, Response(OnTheWire(answer)), moments[|m|], Now());
      }
      NoFrameInFront(inbuffer);
      if rcvdEof {
        OneMoreStamped(old(written), written, old(moments), moments, Now(), Eof, Now(), Now());
        WriteEof();
      }
    }

    /** agentf_callback: the answer to the pending request has come. */
    method Callback(answer: Answer)
      requires Valid() && pending
      modifies this`inbuffer, this`pending, this`written, this`requests, this`answers, this`refusals, this`moments
      ensures Valid() && old(requests) <= requests && old(answers) + [answer] <= answers
      ensures Wrote(old(written), old(answers), old(refusals))
      ensures Stamped(old(written), written, old(moments), moments, Now()) && (Eof in written[|old(written)|..] ==> Done())
    {
      hide EncodedAll, Responses, AllOnTheWire, Acceptable, FramesOf, AllJustified, Replied, OnTheWire, Closing;
      ghost var w, a := written, answers;
      GotResponse(answer);
      TryForward();
      RepliedFirst(w, a, answer, answers, Closing());
    }

    /** agentf_send. */
    method Send(data: seq<Byte>) returns (backlog: nat)
      requires Valid()
      modifies this`inbuffer, this`pending, this`written, this`requests, this`answers, this`refusals, this`moments, this`received
      ensures Valid() && received == old(received) + data && old(requests) <= requests
      ensures backlog == if pending then |inbuffer| else 0
      ensures Wrote(old(written), old(answers), old(refusals))
      ensures Stamped(old(written), written, old(moments), moments, Now()) && (Eof in written[|old(written)|..] ==> Done())
    {
      hide Responses, AllOnTheWire, Acceptable, FramesOf, EncodedAll, AllJustified;
      assert EncodedAll(requests) + (inbuffer + data) == EncodedAll(requests) + inbuffer + data;
      ghost var before := Now();
      inbuffer := inbuffer + data;
      received := received + data;
      StillJustified(written, moments, before, Now(), refusals, refusals);
      TryForward();
      backlog := if pending then |inbuffer| else 0;
    }

    /** agentf_send_eof. */
    method SendEof()
      requires Valid()
      modifies this`inbuffer, this`pending, this`written, this`requests, this`answers, this`refusals, this`moments, this`rcvdEof
      ensures Valid() && rcvdEof && old(requests) <= requests && Wrote(old(written), old(answers), old(refusals))
      ensures Stamped(old(written), written, old(moments), moments, Now()) && (Eof in written[|old(written)|..] ==> Done())
    {
      hide Responses, AllOnTheWire, Acceptable, FramesOf, EncodedAll, AllJustified;
      ghost var before := Now();
      rcvdEof := true;
      StillJustified(written, moments, before, Now(), refusals, refusals);
      TryForward();
    }

    /** agentf_set_input_wanted. */
    method SetInputWanted(wanted: bool)
      requires Valid()
      modifies this`inbuffer, this`pending, this`written, this`requests, this`answers, this`refusals, this`moments, this`inputWanted
      ensures Valid() && inputWanted == wanted && old(requests) <= requests && Wrote(old(written), old(answers), old(refusals))
      ensures Stamped(old(written), written, old(moments), moments, Now()) && (Eof in written[|old(written)|..] ==> Done())
    {
      hide Responses, AllOnTheWire, Acceptable, FramesOf, EncodedAll, AllJustified;
      OneMomentEach();
      RepliedNone(written, answers);
      inputWanted := wanted;
      if wanted {
        TryForward();
      }
    }
  }

  /** EOF is sent only when every complete message received until then has been passed on and answered, and its response
      sent, and then only after the peer's EOF or for an oversized message. */
  lemma EofMeansFinished(af: AgentForwarder, j: nat)
    requires af.Valid() && j < |af.written| && af.written[j] == Eof
    ensures var m := af.moments[j];
            && m.received <= af.received && m.requests == FramesOf(m.received) && |m.answers| == |m.requests|
            && (m.rcvdEof || ParseFront(m.inbuffer).Oversized?) && m.received == EncodedAll(m.requests) + m.inbuffer
            && (af.refusals == 0 ==> Responses(af.written[..j]) == AllOnTheWire(m.answers))
  {
    assert Justified(af.written[j], af.written[..j], af.moments[j], af.Now(), af.refusals);
  }

  /** The requests are the first messages of the bytes received, however those were cut up on the way; a channel that is
      idle and may write has passed on all of them; and, unless a message was refused, every request but the pending one has
      been answered, in order. */
  lemma RequestsAreFrames(af: AgentForwarder)
    requires af.Valid()
    ensures FramesOf(af.received) == af.requests + FramesOf(af.inbuffer)
    ensures !af.pending && af.inputWanted ==> af.requests == FramesOf(af.received)
    ensures af.refusals == 0 ==> |Responses(af.written)| == |af.requests| - (if af.pending then 1 else 0)
    ensures af.refusals == 0 ==> forall i :: 0 <= i < |af.answers| ==>
              Responses(af.written)[i] == if af.answers[i] == Null then [0, 0, 0, 1, 5] else af.answers[i].data
  {
    FramesOfEncoded(af.requests, af.inbuffer);
  }

  /** So two channels that have received the same bytes in different pieces, and are idle, have made the same requests. */
  lemma ChunkingDoesNotMatter(af: AgentForwarder, bf: AgentForwarder)
    requires af.Valid() && bf.Valid() && af.received == bf.received
    requires !af.pending && af.inputWanted && !bf.pending && bf.inputWanted
    ensures af.requests == bf.requests && af.inbuffer == bf.inbuffer
  {
    RequestsAreFrames(af);
    RequestsAreFrames(bf);
    var n := |EncodedAll(af.requests)|;
    assert af.inbuffer == af.received[n..] == bf.received[n..] == bf.inbuffer;
  }
}
