/** Two runs in which a client takes a wrong answer. */
module ClientCases {
  import opened Bytes
  import opened Struct
  import opened Pdu
  import opened PduLaws
  import opened Tcp
  import opened TcpStream
  import opened Responder
  import opened Client
  import opened ClientRuns

  lemma {:induction false} AfterOneMore(steps: seq<Step>, step: Step)
    ensures After(steps + [step]) == Do(After(steps), step)
    ensures Untorn(steps) && !(step.Await? && Torn(After(steps))) ==> Untorn(steps + [step])
    ensures step.Await? && Torn(After(steps)) ==> !Untorn(steps + [step])
  {
    hide Torn, Do;
    assert (steps + [step])[..|steps|] == steps;
  }

  /** A request sent and its answer served, from a client that has read all it was told. */
  lemma {:induction false} FirstServed(pdu: Pdu) returns (request: bytes, reply: bytes)
    requires Readable(pdu) && Answerable(pdu) && Len(pdu) < 0xFFFF
    ensures SerializeTcp(RequestPacket(0, 1, pdu)) == Some(request)
    ensures DeserializeRequest(request) == Read(RequestPacket(0, 1, pdu))
    ensures OnData(request, false) == Reply(reply) && IsFrame(reply) && AnswersNumber(reply, 0)
    ensures Serialize(Respond(pdu)) == Some(reply[HEADER_SIZE..])
    ensures After([Send(1, pdu, 0), Serve(false)])
         == System(1, Some(0), 1, [request], [0], [reply], 0, [], reply, false)
    ensures Untorn([Send(1, pdu, 0), Serve(false)])
  {
    hide SerializeTcp, OnData, Readable, Answerable, Respond, After, Untorn, Serialize, DeserializeRequest, IsFrame;
    hide AnswersNumber, Len;
    request := FirstRead(pdu);
    reply := FirstReply(pdu, request);
    FirstSteps(pdu, request, reply);
  }

  lemma {:induction false} FirstSteps(pdu: Pdu, request: bytes, reply: bytes)
    requires WellFormed(pdu) && SerializeTcp(RequestPacket(0, 1, pdu)) == Some(request)
    requires OnData(request, false) == Reply(reply)
    ensures After([Send(1, pdu, 0), Serve(false)])
         == System(1, Some(0), 1, [request], [0], [reply], 0, [], reply, false)
    ensures Untorn([Send(1, pdu, 0), Serve(false)])
  {
    hide SerializeTcp, OnData, WellFormed, Torn, RequestPacket;
    AfterOneMore([], Send(1, pdu, 0));
    assert [] + [Send(1, pdu, 0)] == [Send(1, pdu, 0)];
    AfterOneMore([Send(1, pdu, 0)], Serve(false));
    assert [Send(1, pdu, 0)] + [Serve(false)] == [Send(1, pdu, 0), Serve(false)];
  }

  lemma {:induction false} FirstRead(pdu: Pdu) returns (request: bytes)
    requires Readable(pdu) && Len(pdu) < 0xFFFF
    ensures SerializeTcp(RequestPacket(0, 1, pdu)) == Some(request)
    ensures DeserializeRequest(request) == Read(RequestPacket(0, 1, pdu))
  {
    var packet := RequestPacket(0, 1, pdu);
    RequestSerializes(pdu);
    SerializedSize(pdu);
    HeaderSerializesIff(packet.header);
    hide Serialize, SerializeHeader, DeserializeRequest;
    request := SerializeTcp(packet).value;
    RequestPrintThenRead(packet);
  }

  lemma {:induction false} FirstReply(pdu: Pdu, request: bytes) returns (reply: bytes)
    requires Readable(pdu) && Answerable(pdu) && DeserializeRequest(request) == Read(RequestPacket(0, 1, pdu))
    ensures OnData(request, false) == Reply(reply) && IsFrame(reply) && AnswersNumber(reply, 0)
    ensures Serialize(Respond(pdu)) == Some(reply[HEADER_SIZE..])
  {
    hide OnData, DeserializeRequest, SerializeTcp, Respond, Serialize, DeserializeResponse, IsFrame, HeaderOf;
    AnsweredIff(request, false);
    ReadRequest(request);
    reply := OnData(request, false).stream;
    ReplyReadsBack(request, false);
    ReplyOnTheWire(request, false);
  }

  // Identifiers that come round.

  const READ_STATUS := Pdu(Shipped(Request, 7), 7, [], [])

  lemma {:induction false} ReadStatusIsAnswered()
    ensures Readable(READ_STATUS) && Answerable(READ_STATUS) && Len(READ_STATUS) < 0xFFFF
  {
  }

  /** What sending leaves as it was, and what it adds to. */
  predicate SentMore(s: System, t: System, more: nat) {
    && t.claims == s.claims + more && t.replies == s.replies && t.taken == s.taken
    && t.unread == s.unread && t.coming == s.coming && t.closed == s.closed
    && s.numbers <= t.numbers
    && (s.pending.Some? ==> t.pending.Some?)
  }

  lemma {:induction false} OneMoreSent(r: System, s: System, more: nat, step: Step)
    requires SentMore(r, s, more) && step.Send? && WellFormed(step.pdu)
    ensures SentMore(r, Do(s, step), more + 1)
  {
    hide SerializeTcp, WellFormed, RequestPacket;
  }

  lemma {:induction false} ManySent(steps: seq<Step>, step: Step, more: nat)
    requires step.Send? && WellFormed(step.pdu)
    ensures SentMore(After(steps), After(steps + Copies(step, more)), more)
    ensures Untorn(steps) ==> Untorn(steps + Copies(step, more))
  {
    hide SentMore, After, Untorn, Torn, Do, WellFormed;
    if more == 0 {
      assert steps + Copies(step, 0) == steps;
      NoneSent(After(steps));
    } else {
      var before := steps + Copies(step, more - 1);
      ManySent(steps, step, more - 1);
      assert steps + Copies(step, more) == before + [step];
      AfterOneMore(before, step);
      OneMoreSent(After(steps), After(before), more - 1, step);
    }
  }

  lemma {:induction false} NoneSent(s: System)
    ensures SentMore(s, s, 0)
  {
  }

  /**
   A request sent, served and answered, and 65536 more sent: none of its waits was torn, and
   the next one takes the answer to the first request for that to the last.
   */
  lemma {:induction false} OneTooManyAnswersTheOldest(fails: bool) returns (steps: seq<Step>)
    ensures var s := After(steps);
      && Untorn(steps) && s.pending.Some?
      && s.claims - 1 == 65536 && Span(s) == 65536 + 1
      && Reused(s) && TakesReplyTo(s, WaitNow(s, fails), 0)
  {
    hide After, Untorn, WaitNow, Reused, TakesReplyTo, Readable, Answerable, Respond, Serialize, SerializeTcp;
    hide DeserializeRequest, OnData, IsFrame, AnswersNumber, Len, Torn, RequestPacket;
    ReadStatusIsAnswered();
    var request, reply := FirstServed(READ_STATUS);
    var first := [Send(1, READ_STATUS, 0), Serve(false)] + [Deliver(|reply|)];
    steps := first + Copies(Send(1, READ_STATUS, 0), 65536);
    AfterOneMore([Send(1, READ_STATUS, 0), Serve(false)], Deliver(|reply|));
    assert reply[..|reply|] == reply && [] + reply == reply;
    ManySent(first, Send(1, READ_STATUS, 0), 65536);
    RoundTaken(steps, fails);
  }

  lemma {:induction false} RoundTaken(steps: seq<Step>, fails: bool)
    requires Untorn(steps)
    requires var s := After(steps);
      && s.claims == 65536 + 1 && |s.replies| == 1 && s.taken == 0 && s.pending.Some?
      && s.numbers != [] && s.numbers[0] == 0 && s.unread == s.replies[0]
    ensures Reused(After(steps)) && TakesReplyTo(After(steps), WaitNow(After(steps), fails), 0)
  {
    hide After, Untorn, WaitNow, TakesReplyTo, Identifier, InOrder, Remembers, Increasing, Answers;
    var s := After(steps);
    EveryRun(steps);
    assert s.replies[0..] == s.replies;
    OneArrived(s);
    NextIdentifier(0);
    NextIdentifier(65536);
    assert SharesIdentifier(ArrivedNumbers(s), s.claims - 1, 0);
    WhatAWaitAnswers(steps, fails);
    OnlyTheFirst(s, WaitNow(s, fails));
  }

  lemma {:induction false} OneArrived(s: System)
    requires |s.replies| == 1 && s.taken == 0 && s.unread == s.replies[0] && s.numbers != []
    ensures ArrivedNumbers(s) == [s.numbers[0]]
  {
    assert s.replies[0..] == s.replies;
    assert WholeIn(s.replies[1..], 0) == 0;
  }

  lemma {:induction false} OnlyTheFirst(s: System, w: Waited)
    requires s.taken == 0 && |s.replies| == 1 && s.numbers != []
    ensures forall number: nat :: TakesReplyTo(s, w, number) ==> number == s.numbers[0]
  {
  }

  // A wait that is torn.

  lemma {:induction false} BytesUnpack(data: bytes)
    ensures CalcSize(Copies(B, |data|)) == |data| && Unpack(Copies(B, |data|), data) == Some(data)
  {
    CalcSizeCopies(B, |data|);
    if data != [] {
      BytesUnpack(data[1..]);
      assert Copies(B, |data|)[1..] == Copies(B, |data| - 1);
      assert [data[0] as int] + data[1..] == data;
    }
  }

  /** A request to identify the device that carries `data`. */
  function Identify(data: bytes): Pdu {
    Pdu(Shipped(Request, 43), 43, [0x0E], data)
  }

  lemma {:induction false} IdentifyOnTheWire(data: bytes)
    requires |data| < 0x100
    ensures Readable(Identify(data)) && Answerable(Identify(data)) && Len(Identify(data)) < 0xFFFF
    ensures Serialize(Identify(data)) == Some([43, 0x0E] + data)
    ensures Serialize(Respond(Identify(data))) == Some([43, 0x0E] + data)
  {
    hide Serialize;
    IdentifyIsReadable(data);
    IdentifyPacks(data);
    ResponseOnTheWire(Identify(data));
  }

  lemma {:induction false} IdentifyIsReadable(data: bytes)
    requires |data| < 0x100
    ensures Readable(Identify(data)) && Answerable(Identify(data)) && Len(Identify(data)) < 0xFFFF
  {
    assert CalcSize([B]) == 1;
  }

  lemma {:induction false} IdentifyPacks(data: bytes)
    ensures WellFormed(Identify(data)) && Serialize(Identify(data)) == Some([43, 0x0E] + data)
  {
    hide Pack, Unpack, CalcSize;
    var p, head: bytes := Identify(data), [43, 0x0E];
    TwoBytesUnpack(43, 0x0E);
    BytesUnpack(data);
    UnpackAppend([B, B], Copies(B, |data|), head, data);
    assert Format(p.cls, |data|) == [B, B] + Copies(B, |data|);
    assert Values(p) == [43, 0x0E] + data;
    PackIffUnpack(Format(p.cls, |data|), Values(p), head + data);
  }

  const STATUS := TcpPacket(Header(1, 0, 3, 1), Pdu(Shipped(Response, 7), 7, [0], []))

  /** The nine bytes in which a device with identifier 1 states its status. */
  lemma {:induction false} StatusBytes() returns (data: bytes)
    ensures SerializeTcp(STATUS) == Some(data) && |data| == 9
    ensures DeserializeResponse(data) == Some(STATUS) && AnswersNumber(data, 1)
  {
    hide Serialize, SerializeHeader, DeserializeResponse, IsFrame, Len;
    StatusSerializes();
    HeaderSerializesIff(STATUS.header);
    data := SerializeTcp(STATUS).value;
    PacketBytes(STATUS);
    SerializedSize(STATUS.pdu);
    ResponsePrintThenRead(STATUS);
    SerializedIsFrame(STATUS);
  }

  lemma {:induction false} StatusSerializes()
    ensures WellFormed(STATUS.pdu) && Serialize(STATUS.pdu).Some? && Len(STATUS.pdu) == 2
    ensures Travels(Response, STATUS.pdu)
  {
    hide Serialize;
    assert CalcSize([B]) == 1;
    SerializesIff(STATUS.pdu);
  }

  /**
   A wait times out when half of the first answer has arrived. The half is lost, and the
   rest of it, which the request asked to have echoed, reads as the answer to the second
   request: of which none has come, and which asked for something else.
   */
  lemma {:induction false} TornWaitAnswersWrong(fails: bool) returns (steps: seq<Step>, data: bytes)
    ensures SerializeTcp(STATUS) == Some(data)
    ensures steps == [Send(1, Identify(data), 0), Serve(false), Deliver(9), Await(true),
                      Send(1, Identify(data), 0), Deliver(9)]
    ensures var s := After(steps);
      && !Untorn(steps) && !s.closed
      && s.claims == 2 && s.numbers == [0, 1] && |s.replies| == 1 && s.pending == Some(1)
      && WaitNow(s, fails).outcome == Answered(STATUS)
  {
    hide After, Untorn, Wait, Readable, Answerable, Respond, Serialize, SerializeTcp, DeserializeRequest, OnData;
    hide IsFrame, AnswersNumber, DeserializeResponse, Len, Torn, RequestPacket;
    data := StatusBytes();
    var ask, request, reply := EchoedBytes(data);
    var first := [Send(1, ask, 0), Serve(false)];
    steps := first + [Deliver(9)] + [Await(true)] + [Send(1, ask, 0)] + [Deliver(9)];
    TornWait(first, request, reply);
    AskAgain(first + [Deliver(9)] + [Await(true)], ask, request, reply);
    StatusTaken(data, fails || !After(steps).closed);
  }

  lemma {:induction false} EchoedBytes(data: bytes) returns (ask: Pdu, request: bytes, reply: bytes)
    requires |data| == 9
    ensures ask == Identify(data) && WellFormed(ask) && Serialize(ask).Some? && 0 <= Len(ask) < 0xFFFF
    ensures |reply| == 18 && reply[9..] == data && AnswersNumber(reply, 0)
    ensures After([Send(1, ask, 0), Serve(false)])
         == System(1, Some(0), 1, [request], [0], [reply], 0, [], reply, false)
  {
    hide After, Untorn, Answerable, Respond, SerializeTcp, DeserializeRequest, OnData, AnswersNumber, RequestPacket;
    ask := Identify(data);
    IdentifyOnTheWire(data);
    SerializedSize(ask);
    hide Serialize, Len;
    request, reply := FirstServed(ask);
    assert reply == reply[..HEADER_SIZE] + ([43, 0x0E] + data);
  }

  lemma {:induction false} TornWait(steps: seq<Step>, request: bytes, reply: bytes)
    requires After(steps) == System(1, Some(0), 1, [request], [0], [reply], 0, [], reply, false)
    requires AnswersNumber(reply, 0) && |reply| > 9
    ensures var torn := steps + [Deliver(9)] + [Await(true)];
      After(torn) == System(1, Some(0), 1, [request], [0], [reply], 0, [], reply[9..], false) && !Untorn(torn)
  {
    hide Wait, AnswersNumber, Unfinished;
    var part := reply[..9];
    AfterOneMore(steps, Deliver(9));
    AfterOneMore(steps + [Deliver(9)], Await(true));
    var t := After(steps + [Deliver(9)]);
    assert t.unread == part && t.replies[0..] == [reply];
    assert Arrived(t) == [] && Part(t) == part;
    ReplyIsFrame(reply, 0);
    PartIsCutShort(reply, part);
    WaitsInVain(part, true, Some(0), 9);
  }

  lemma {:induction false} AskAgain(steps: seq<Step>, ask: Pdu, request: bytes, reply: bytes)
    requires |reply| == 18 && !Untorn(steps)
    requires After(steps) == System(1, Some(0), 1, [request], [0], [reply], 0, [], reply[9..], false)
    requires WellFormed(ask) && Serialize(ask).Some? && 0 <= Len(ask) < 0xFFFF
    ensures var again := steps + [Send(1, ask, 0)] + [Deliver(9)];
      var s := After(again);
      && !Untorn(again) && !s.closed && s.claims == 2 && s.pending == Some(1)
      && s.numbers == [0, 1] && s.replies == [reply] && s.unread == reply[9..]
  {
    hide Serialize, WellFormed, Len, Torn;
    HeaderSerializesIff(RequestPacket(1, 1, ask).header);
    AfterOneMore(steps, Send(1, ask, 0));
    AfterOneMore(steps + [Send(1, ask, 0)], Deliver(9));
    assert (steps + [Send(1, ask, 0)])[..|steps|] == steps;
    assert (steps + [Send(1, ask, 0)] + [Deliver(9)])[..|steps| + 1] == steps + [Send(1, ask, 0)];
    assert reply[9..][..9] == reply[9..] && [] + reply[9..] == reply[9..];
  }

  lemma {:induction false} StatusTaken(data: bytes, fails: bool)
    requires AnswersNumber(data, 1) && DeserializeResponse(data) == Some(STATUS)
    ensures Wait(data, fails, Some(1), 9).outcome == Answered(STATUS)
  {
    hide Wait, AnswersNumber;
    assert data + [] == data;
    WaitsOnce(data, [], fails, 1, Some(1), 9);
  }
}
