/** ModbusTcpSender and ModbusTcpReceiver of src/pyomb/transport/stream.py, end to end. */
module TcpTransfer {
  import opened Bytes
  import opened Pdu
  import opened PduLaws
  import opened Tcp
  import opened TcpStream

  /** A packet with the length its header is given before it is sent. */
  function Measured(p: TcpPacket): (q: TcpPacket)
    requires WellFormed(p.pdu)
    ensures q.pdu == p.pdu
  {
    p.(header := p.header.(length := Len(p.pdu) + 1))
  }

  /** The bytes a packet goes out as; None where it does not serialize. */
  function Outgoing(p: TcpPacket): Option<bytes>
    requires WellFormed(p.pdu)
  {
    SerializeTcp(Measured(p))
  }

  predicate AllWellFormed(packets: seq<TcpPacket>) {
    forall i :: 0 <= i < |packets| ==> WellFormed(packets[i].pdu)
  }

  /** How many packets go out before the first that does not serialize. */
  function Sendable(packets: seq<TcpPacket>): (n: nat)
    requires AllWellFormed(packets)
    ensures n <= |packets|
  {
    if packets == [] || Outgoing(packets[0]).None? then 0 else 1 + Sendable(packets[1..])
  }

  function WireOf(packets: seq<TcpPacket>): seq<bytes>
    requires AllWellFormed(packets)
  {
    if packets == [] || Outgoing(packets[0]).None? then [] else [Outgoing(packets[0]).value] + WireOf(packets[1..])
  }

  /** Every packet up to the first that fails has had its length set, that one too. */
  function AfterSending(packets: seq<TcpPacket>): seq<TcpPacket>
    requires AllWellFormed(packets)
  {
    if packets == [] then []
    else
      [Measured(packets[0])] + (if Outgoing(packets[0]).None? then packets[1..] else AfterSending(packets[1..]))
  }

  class ModbusTcpSender {
    const stream: ModbusTcpStream
    var packets: seq<TcpPacket>
    var fragSize: int
    var stopped: bool

    constructor (stream: ModbusTcpStream, packets: seq<TcpPacket>, fragSize: int)
      ensures this.stream == stream && this.packets == packets && this.fragSize == fragSize && !stopped
    {
      this.stream, this.packets, this.fragSize, stopped := stream, packets, fragSize, false;
    }

    /** False is ModbusPacketError: what was sendable before it has been written. */
    method RunOnce() returns (ok: bool)
      requires AllWellFormed(packets)
      modifies this, stream, stream.sock
      ensures stream.sock.inbox == old(stream.sock.inbox)
      ensures old(stopped) ==> ok && packets == old(packets) && stream.sock.sent == old(stream.sock.sent)
      ensures !old(stopped) && old(fragSize) >= 0 ==>
        && (ok <==> Sendable(old(packets)) == |old(packets)|)
        && packets == AfterSending(old(packets))
        && stream.sock.sent == old(stream.sock.sent) + Join(WireOf(old(packets)))
      ensures !old(stopped) && old(fragSize) < 0 ==>
        && (ok <==> old(packets) == [])
        && packets == (if old(packets) == [] then [] else [Measured(old(packets)[0])] + old(packets)[1..])
        && stream.sock.sent == old(stream.sock.sent)
    {
      hide Measured, SerializeTcp, WellFormed, Progress, Sendable, WireOf, AfterSending;
      if stopped {
        return true;
      }
      stream.fragSize := fragSize;
      ghost var before, sent, done := packets, stream.sock.sent, [];
      var i := 0;
      ProgressStarts(before, sent);
      while i < |packets|
        invariant AllWellFormed(before) && |done| == i <= |before| && packets == done + before[i..]
        invariant stream.fragSize == old(fragSize) && !old(stopped)
        invariant stream.sock.inbox == old(stream.sock.inbox)
        invariant old(fragSize) < 0 ==> i == 0 && stream.sock.sent == sent
        invariant old(fragSize) >= 0 ==> Progress(before, done, i, stream.sock.sent, sent)
      {
        ghost var rest := before[i..];
        assert packets[i] == rest[0] && rest[1..] == before[i + 1..];
        var packet := Measured(packets[i]);
        ReplaceNext(done, rest, packet);
        packets := packets[i := packet];
        var message := SerializeTcp(packet);
        assert message == Outgoing(rest[0]);
        if message.None? {
          if old(fragSize) >= 0 {
            ProgressEnds(before, done, i, stream.sock.sent, sent);
          }
          return false;
        }
        var sendOk := stream.Send(message.value);
        if !sendOk {
          return false;
        }
        ProgressStep(before, done, i, stream.sock.sent, message.value, sent);
        done := done + [packet];
        i := i + 1;
      }
      if old(fragSize) >= 0 {
        ProgressEnds(before, done, i, stream.sock.sent, sent);
      }
      return true;
    }
  }

  /** After `i` packets: those still to go, run on from here, complete what a whole run makes. */
  ghost predicate Progress(before: seq<TcpPacket>, done: seq<TcpPacket>, i: nat, sent: bytes, start: bytes)
    requires AllWellFormed(before) && i <= |before|
  {
    && Sendable(before) == i + Sendable(before[i..])
    && AfterSending(before) == done + AfterSending(before[i..])
    && start + Join(WireOf(before)) == sent + Join(WireOf(before[i..]))
  }

  lemma {:induction false} ProgressStarts(before: seq<TcpPacket>, start: bytes)
    requires AllWellFormed(before)
    ensures Progress(before, [], 0, start, start)
  {
    hide Sendable, WireOf, AfterSending;
    assert before[0..] == before && [] + AfterSending(before) == AfterSending(before);
  }

  lemma {:induction false} ProgressEnds(before: seq<TcpPacket>, done: seq<TcpPacket>, i: nat, sent: bytes, start: bytes)
    requires AllWellFormed(before) && i <= |before| && Progress(before, done, i, sent, start)
    requires i < |before| ==> Outgoing(before[i]).None?
    ensures Sendable(before) == i && sent == start + Join(WireOf(before))
    ensures AfterSending(before) == done + (if i < |before| then [Measured(before[i])] + before[i + 1..] else [])
  {
    hide Measured, Outgoing, WellFormed;
    var rest := before[i..];
    if rest != [] {
      assert rest[0] == before[i] && rest[1..] == before[i + 1..];
    }
    assert WireOf(rest) == [] && sent + [] == sent;
  }

  lemma {:induction false} ProgressStep(
      before: seq<TcpPacket>, done: seq<TcpPacket>, i: nat, sent: bytes, message: bytes, start: bytes)
    requires AllWellFormed(before) && i < |before| && |sent| >= |message|
    requires sent[|sent| - |message|..] == message
    requires Progress(before, done, i, sent[..|sent| - |message|], start)
    requires Outgoing(before[i]) == Some(message)
    ensures Progress(before, done + [Measured(before[i])], i + 1, sent, start)
  {
    hide Measured, Outgoing, WellFormed;
    var rest := before[i..];
    assert rest[1..] == before[i + 1..];
    var later := AfterSending(rest[1..]);
    assert done + ([Measured(rest[0])] + later) == done + [Measured(rest[0])] + later;
    var wire := WireOf(rest[1..]);
    assert WireOf(rest) == [message] + wire;
    assert sent[..|sent| - |message|] + (message + Join(wire)) == sent + Join(wire);
  }

  // Receiving.

  /** What a receiver makes of the messages it gets: those read before one that cannot be. */
  function ReadEach(messages: seq<bytes>): (packets: seq<TcpPacket>)
    ensures AllWellFormed(packets) && |packets| <= |messages|
  {
    if messages == [] || DeserializeTcp(messages[0]).None? then []
    else [DeserializeTcp(messages[0]).value] + ReadEach(messages[1..])
  }

  /** All messages read, then the peer closed. */
  predicate Clean(c: Capture) {
    c.end.Closed? && |ReadEach(c.messages)| == |c.messages|
  }

  class ModbusTcpReceiver {
    const stream: ModbusTcpStream
    var packets: seq<TcpPacket>
    var fragSize: int
    var stopped: bool

    constructor (stream: ModbusTcpStream, fragSize: int)
      ensures this.stream == stream && packets == [] && this.fragSize == fragSize && !stopped
    {
      this.stream, packets, this.fragSize, stopped := stream, [], fragSize, false;
    }

    /** False is whatever receive() or deserialize() raised; the packets before it are kept. */
    method RunOnce() returns (ok: bool)
      requires stopped || fragSize >= 0 || !ReachesPdu(stream.sock.inbox)
      modifies this, stream, stream.sock
      ensures old(stopped) ==> ok && packets == old(packets) && stream.sock.inbox == old(stream.sock.inbox)
      ensures !old(stopped) ==>
        var c := ReceiveAll(old(stream.sock.inbox), stream.sock.fails);
        (ok <==> Clean(c)) && packets == old(packets) + ReadEach(c.messages)
    {
      hide DeserializeTcp, Reception, ReceiveAll, ReachesPdu, Capturing, ReadEach;
      if stopped {
        return true;
      }
      stream.fragSize := fragSize;
      ghost var fails := stream.sock.fails;
      ghost var c := ReceiveAll(stream.sock.inbox, fails);
      ghost var n := 0;
      CapturingStarts(c, packets, stream.sock.inbox, fails);
      while true
        invariant stream.fragSize >= 0 || !ReachesPdu(stream.sock.inbox)
        invariant Capturing(c, old(packets), packets, n, stream.sock.inbox, fails)
        decreases |stream.sock.inbox|
      {
        CapturingStep(c, old(packets), packets, n, stream.sock.inbox, fails);
        HeaderAlone(stream.sock.inbox, fails);
        var outcome := stream.Receive();
        if outcome.Closed? {
          return true;
        }
        if !outcome.Message? {
          return false;
        }
        var packet := DeserializeTcp(outcome.message);
        if packet.None? {
          return false;
        }
        packets := packets + [packet.value];
        n := n + 1;
      }
    }
  }

  /** After `n` messages: what is still to come completes what the whole capture reads. */
  ghost predicate Capturing(
      c: Capture, start: seq<TcpPacket>, packets: seq<TcpPacket>, n: nat, inbox: bytes, fails: bool) {
    && n <= |c.messages| && ReceiveAll(inbox, fails) == c.(messages := c.messages[n..])
    && start + ReadEach(c.messages) == packets + ReadEach(c.messages[n..])
    && |ReadEach(c.messages)| == n + |ReadEach(c.messages[n..])|
  }

  lemma {:induction false} CapturingStarts(c: Capture, start: seq<TcpPacket>, inbox: bytes, fails: bool)
    requires c == ReceiveAll(inbox, fails)
    ensures Capturing(c, start, start, 0, inbox, fails)
  {
    hide ReceiveAll, ReadEach;
    assert c.messages[0..] == c.messages;
  }

  lemma {:induction false} CapturingStep(
      c: Capture, start: seq<TcpPacket>, packets: seq<TcpPacket>, n: nat, inbox: bytes, fails: bool)
    requires Capturing(c, start, packets, n, inbox, fails)
    ensures var (outcome, rest) := Reception(inbox, fails);
      if outcome.Message? && DeserializeTcp(outcome.message).Some? then
        Capturing(c, start, packets + [DeserializeTcp(outcome.message).value], n + 1, rest, fails)
      else
        && packets == start + ReadEach(c.messages)
        && (Clean(c) <==> outcome.Closed?)
  {
    hide DeserializeTcp, Reception;
    ReceiveAllStep(inbox, fails);
    hide ReceiveAll;
    var (outcome, rest) := Reception(inbox, fails);
    var left := c.messages[n..];
    if outcome.Message? {
      assert left[0] == outcome.message && left[1..] == c.messages[n + 1..];
      if DeserializeTcp(outcome.message).Some? {
        var packet := DeserializeTcp(outcome.message).value;
        assert packets + ([packet] + ReadEach(left[1..])) == packets + [packet] + ReadEach(left[1..]);
      }
    }
  }

  lemma {:induction false} ReceiveAllStep(inbox: bytes, fails: bool)
    ensures var (outcome, rest) := Reception(inbox, fails);
      ReceiveAll(inbox, fails) ==
        if outcome.Message? then Capture([outcome.message] + ReceiveAll(rest, fails).messages,
                                         ReceiveAll(rest, fails).end, ReceiveAll(rest, fails).unread)
        else Capture([], outcome, rest)
  {
    hide Reception;
  }

  /** A message without a PDU is no packet. */
  lemma {:induction false} HeaderAlone(inbox: bytes, fails: bool)
    ensures var (outcome, rest) := Reception(inbox, fails);
      outcome.Message? && !ReachesPdu(inbox) ==> DeserializeTcp(outcome.message).None?
  {
    var (outcome, rest) := Reception(inbox, fails);
    if outcome.Message? {
      GenericReadThenPrint(outcome.message);
    }
  }

  // End to end.

  lemma {:induction false} OutgoingIsFrame(p: TcpPacket)
    requires WellFormed(p.pdu) && Outgoing(p).Some?
    ensures IsFrame(Outgoing(p).value)
    ensures var q := DeserializeTcp(Outgoing(p).value);
      q.Some? && q.value.header == p.header.(length := Len(p.pdu) + 1) && SerializeTcp(q.value) == Some(Outgoing(p).value)
  {
    var h, m := Measured(p).header, Outgoing(p).value;
    var headerBytes, pduBytes := SerializeHeader(h).value, Serialize(p.pdu).value;
    SerializedSize(p.pdu);
    SerializedCode(p.pdu);
    HeaderOfWhole(h, headerBytes, pduBytes);
    HeaderRoundTrip(h, headerBytes);
    assert m[..HEADER_SIZE] == headerBytes;
    GenericReadThenPrint(m);
  }

  /** What was read for each packet prints as the bytes sent for it, and carries its header. */
  ghost predicate Faithful(packets: seq<TcpPacket>, captured: seq<TcpPacket>)
    requires AllWellFormed(packets) && AllWellFormed(captured)
  {
    && |captured| == |packets|
    && forall i :: 0 <= i < |packets| ==>
      && SerializeTcp(captured[i]) == Outgoing(packets[i])
      && captured[i].header == packets[i].header.(length := Len(packets[i].pdu) + 1)
  }

  lemma {:induction false} WireIsFrames(packets: seq<TcpPacket>)
    requires AllWellFormed(packets) && Sendable(packets) == |packets|
    ensures AllFrames(WireOf(packets)) && |WireOf(packets)| == |packets|
    ensures Faithful(packets, ReadEach(WireOf(packets)))
  {
    hide Outgoing, Measured, WellFormed, SerializeTcp, DeserializeTcp, IsFrame;
    if packets != [] {
      OutgoingIsFrame(packets[0]);
      WireIsFrames(packets[1..]);
      assert WireOf(packets)[1..] == WireOf(packets[1..]);
    }
  }

  /**
   What a sender writes, a receiver captures: as many packets, in order, with the same
   headers, each serializing to the very bytes that were written for it. It ends without an
   error exactly when the socket does.
   */
  lemma {:induction false} SenderToReceiver(packets: seq<TcpPacket>, fails: bool)
    requires AllWellFormed(packets) && Sendable(packets) == |packets|
    ensures var c := ReceiveAll(Join(WireOf(packets)), fails);
      && (Clean(c) <==> !fails) && c.unread == []
      && c.messages == WireOf(packets) && Faithful(packets, ReadEach(c.messages))
  {
    hide Outgoing, Measured, WellFormed, SerializeTcp, DeserializeTcp, IsFrame;
    WireIsFrames(packets);
    Reassembles(WireOf(packets), [], fails);
    assert Join(WireOf(packets)) + [] == Join(WireOf(packets));
    assert WireOf(packets) + [] == WireOf(packets);
  }

  // What is sent, by the bytes.

  /** A packet goes out under its own identifiers, with a length that counts the bytes behind it. */
  lemma {:induction false} OutgoingBytes(p: TcpPacket)
    requires WellFormed(p.pdu) && Outgoing(p).Some?
    ensures var out := Outgoing(p).value;
      && |out| >= 7
      && Word(out[0], out[1]) == p.header.transId && Word(out[2], out[3]) == p.header.protId
      && Word(out[4], out[5]) == |out| - 6 && out[6] == p.header.unitId
      && Serialize(p.pdu) == Some(out[7..])
  {
    hide Serialize, SerializeTcp;
    PacketBytes(Measured(p));
    SerializedSize(p.pdu);
  }

  /** Which packets go out, as what, and what becomes of their headers. */
  lemma {:induction false} SendingIs(packets: seq<TcpPacket>)
    requires AllWellFormed(packets)
    ensures var n, after := Sendable(packets), AfterSending(packets);
      && (forall i :: 0 <= i < n ==> Outgoing(packets[i]).Some?)
      && (n < |packets| ==> Outgoing(packets[n]).None?)
      && |WireOf(packets)| == n
      && (forall i :: 0 <= i < n ==> WireOf(packets)[i] == Outgoing(packets[i]).value)
      && |after| == |packets|
      && (forall i :: 0 <= i <= n && i < |packets| ==>
        after[i] == packets[i].(header := packets[i].header.(length := Len(packets[i].pdu) + 1)))
      && (forall i :: n < i < |packets| ==> after[i] == packets[i])
  {
    hide Outgoing, Len, WellFormed;
    if packets != [] {
      var rest, after := packets[1..], AfterSending(packets);
      SendingIs(rest);
      forall i | 0 < i < |packets| ensures packets[i] == rest[i - 1] {
      }
      if Outgoing(packets[0]).Some? {
        assert Sendable(packets) == 1 + Sendable(rest) && after == [Measured(packets[0])] + AfterSending(rest);
        assert WireOf(packets) == [Outgoing(packets[0]).value] + WireOf(rest);
        hide Sendable, WireOf, AfterSending;
      }
    }
  }

  /** Which messages a receiver keeps, and as what. */
  lemma {:induction false} ReadEachIs(messages: seq<bytes>)
    ensures var packets := ReadEach(messages);
      && |packets| <= |messages|
      && (forall i :: 0 <= i < |packets| ==> DeserializeTcp(messages[i]) == Some(packets[i]))
      && (|packets| < |messages| ==> DeserializeTcp(messages[|packets|]).None?)
  {
    hide DeserializeTcp;
    if messages != [] {
      ReadEachIs(messages[1..]);
    }
  }
}
