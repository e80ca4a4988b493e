/** The streaming classes of src/pyomb/transport/stream.py. */
module TcpStream {
  import opened Bytes
  import opened Tcp

  /**
   A connected socket. `inbox` is everything that arrives; recv takes any part of it that
   fits. After that the peer has closed, and recv comes back empty, or the socket `fails`:
   recv raises OSError, a timeout among them. `sent` is what has been written; a write is
   taken whole.
   */
  class Socket {
    const fails: bool
    var inbox: bytes
    var sent: bytes

    constructor (inbox: bytes, fails: bool)
      ensures this.inbox == inbox && this.fails == fails && sent == []
    {
      this.inbox, this.fails, sent := inbox, fails, [];
    }

    /** None is OSError. */
    method Recv(size: nat) returns (r: Option<bytes>)
      requires size > 0
      modifies this
      ensures sent == old(sent)
      ensures r.None? <==> old(inbox) == [] && fails
      ensures r.None? ==> inbox == []
      ensures r.Some? ==>
        && |r.value| <= size && |r.value| <= |old(inbox)|
        && r.value == old(inbox)[..|r.value|] && inbox == old(inbox)[|r.value|..]
        && (r.value == [] <==> old(inbox) == [])
    {
      if inbox == [] {
        return if fails then None else Some([]);
      }
      var n :| 0 < n <= size && n <= |inbox|;
      r := Some(inbox[..n]);
      inbox := inbox[n..];
    }

    method Send(fragment: bytes)
      modifies this
      ensures sent == old(sent) + fragment && inbox == old(inbox)
    {
      sent := sent + fragment;
    }
  }

  // Fragments.

  /** How a message is cut: the header, then pieces of `size` bytes of which the last may be shorter. */
  ghost predicate CutInto(message: bytes, size: nat, fragments: seq<bytes>) {
    && fragments != []
    && fragments[0] == (if |message| < HEADER_SIZE then message else message[..HEADER_SIZE])
    && (forall i :: 0 < i < |fragments| ==> 0 < |fragments[i]| <= size)
    && (forall i :: 0 < i < |fragments| - 1 ==> |fragments[i]| == size)
  }

  /** None is ModbusPacketError: a negative size. */
  method Fragment(message: bytes, fragSize: int) returns (r: Option<seq<bytes>>)
    ensures r.None? <==> fragSize < 0
    ensures r.Some? ==> Assemble(r.value) == message
    ensures fragSize == 0 ==> r == Some([message])
    ensures fragSize > 0 ==> CutInto(message, fragSize, r.value)
  {
    if fragSize < 0 {
      return None;
    }
    if fragSize == 0 {
      assert Join([message]) == message;
      return Some([message]);
    }
    hide CutInto;
    var header := if |message| < HEADER_SIZE then message else message[..HEADER_SIZE];
    var pdu := if |message| < HEADER_SIZE then [] else message[HEADER_SIZE..];
    var fragments := [header];
    assert Join(fragments) == header;
    CutStarts(message, fragSize);
    while pdu != []
      invariant Join(fragments) + pdu == message
      invariant CutInto(message, fragSize, fragments) && fragments != []
      invariant pdu != [] && |fragments| > 1 ==> |fragments[|fragments| - 1]| == fragSize
      decreases |pdu|
    {
      var n := if |pdu| < fragSize then |pdu| else fragSize;
      CutOneMore(message, fragSize, fragments, pdu[..n]);
      JoinAppend(fragments, [pdu[..n]]);
      assert Join([pdu[..n]]) == pdu[..n];
      assert pdu[..n] + pdu[n..] == pdu;
      fragments := fragments + [pdu[..n]];
      pdu := pdu[n..];
    }
    return Some(fragments);
  }

  lemma {:induction false} CutStarts(message: bytes, size: nat)
    ensures CutInto(message, size, [if |message| < HEADER_SIZE then message else message[..HEADER_SIZE]])
  {
  }

  lemma {:induction false} CutOneMore(message: bytes, size: nat, fragments: seq<bytes>, piece: bytes)
    requires CutInto(message, size, fragments) && 0 < |piece| <= size
    requires |fragments| > 1 ==> |fragments[|fragments| - 1]| == size
    ensures CutInto(message, size, fragments + [piece])
  {
  }

  function Assemble(fragments: seq<bytes>): bytes {
    Join(fragments)
  }

  // Receiving.

  datatype Outcome = Message(message: bytes) | Closed | NetworkError | PacketError

  /** How many bytes a complete header says follow it; negative where it describes no frame. */
  function PduLength(header: bytes): int
    requires |header| == HEADER_SIZE
  {
    DeserializeHeader(header).value.length - 1
  }

  /** What one receive() makes of the bytes that arrive before the end, and what it leaves. */
  function Reception(inbox: bytes, fails: bool): (r: (Outcome, bytes))
    ensures r.0.Message? ==> |r.1| < |inbox|
  {
    if inbox == [] then (if fails then NetworkError else Closed, [])
    else if |inbox| < HEADER_SIZE then (NetworkError, [])
    else
      var n := PduLength(inbox[..HEADER_SIZE]);
      if n < 0 then (PacketError, inbox[HEADER_SIZE..])
      else if |inbox| < HEADER_SIZE + n then (NetworkError, [])
      else (Message(inbox[..HEADER_SIZE + n]), inbox[HEADER_SIZE + n..])
  }

  /** Whether a header arrives that has PDU bytes behind it. */
  predicate ReachesPdu(inbox: bytes) {
    |inbox| >= HEADER_SIZE && PduLength(inbox[..HEADER_SIZE]) > 0
  }

  function AtMost(n: nat, inbox: bytes): (k: nat)
    ensures k <= n && k <= |inbox|
  {
    if n < |inbox| then n else |inbox|
  }

  class ModbusTcpStream {
    const sock: Socket
    var fragSize: int

    constructor (sock: Socket, fragSize: int)
      ensures this.sock == sock && this.fragSize == fragSize
    {
      this.sock, this.fragSize := sock, fragSize;
    }

    /** None is OSError; what was read before it is gone. */
    method RecvExactly(count: nat) returns (r: Option<bytes>)
      modifies sock
      ensures sock.sent == old(sock.sent)
      ensures var n := AtMost(count, old(sock.inbox));
        && sock.inbox == old(sock.inbox)[n..]
        && r == if n < count && sock.fails then None else Some(old(sock.inbox)[..n])
    {
      var held: bytes := [];
      var pending := count;
      while pending > 0
        invariant pending >= 0 && pending + |held| == count && |held| <= |old(sock.inbox)|
        invariant held == old(sock.inbox)[..|held|] && sock.inbox == old(sock.inbox)[|held|..]
        invariant sock.sent == old(sock.sent)
        decreases pending
      {
        ghost var n := |held|;
        var chunk := sock.Recv(pending);
        if chunk.None? || chunk.value == [] {
          assert |old(sock.inbox)[n..]| == 0;
          return if chunk.None? then None else Some(held);
        }
        ghost var k := |chunk.value|;
        assert old(sock.inbox)[..n + k] == old(sock.inbox)[..n] + old(sock.inbox)[n..][..k];
        held := held + chunk.value;
        pending := pending - |chunk.value|;
      }
      assert |held| == AtMost(count, old(sock.inbox));
      return Some(held);
    }

    /** One turn of the loop that reads a PDU; None is ModbusNetworkError. */
    method ReceiveChunk(pending: nat) returns (r: Option<bytes>)
      requires pending > 0
      modifies sock
      ensures sock.sent == old(sock.sent)
      ensures fragSize < 0 ==> r == Some([]) && sock.inbox == old(sock.inbox)
      ensures fragSize >= 0 && r.None? ==> |old(sock.inbox)| < pending && sock.inbox == []
      ensures fragSize >= 0 && r.Some? ==>
        && 0 < |r.value| <= pending && |r.value| <= |old(sock.inbox)|
        && r.value == old(sock.inbox)[..|r.value|] && sock.inbox == old(sock.inbox)[|r.value|..]
    {
      var chunkSize := if fragSize != 0 && fragSize < pending then fragSize else pending;
      var chunk := RecvExactly(if chunkSize < 0 then 0 else chunkSize);
      if chunk.None? || |chunk.value| < chunkSize {
        return None;
      }
      return chunk;
    }

    /** None is ModbusNetworkError: the peer closed, or the socket failed, before the whole PDU had come. */
    method ReceivePdu(pduLength: nat) returns (pdu: Option<bytes>)
      requires fragSize >= 0 || pduLength == 0
      modifies sock
      ensures sock.sent == old(sock.sent)
      ensures pdu.Some? <==> pduLength <= |old(sock.inbox)|
      ensures pdu.Some? ==>
        pdu.value == old(sock.inbox)[..pduLength] && sock.inbox == old(sock.inbox)[pduLength..]
      ensures pdu.None? ==> sock.inbox == []
    {
      var fragments: seq<bytes> := [];
      ghost var got := 0;
      var pending := pduLength;
      while pending > 0
        invariant got + pending == pduLength && pending >= 0 && 0 <= got <= |old(sock.inbox)|
        invariant Join(fragments) == old(sock.inbox)[..got] && sock.inbox == old(sock.inbox)[got..]
        invariant sock.sent == old(sock.sent)
        decreases pending
      {
        var read := ReceiveChunk(pending);
        if read.None? {
          return None;
        }
        var chunk := read.value;
        JoinAppend(fragments, [chunk]);
        assert Join([chunk]) == chunk;
        assert old(sock.inbox)[..got + |chunk|] == old(sock.inbox)[..got] + old(sock.inbox)[got..][..|chunk|];
        fragments := fragments + [chunk];
        pending := pending - |chunk|;
        got := got + |chunk|;
      }
      return Some(Assemble(fragments));
    }

    /** One message, whatever the socket's reads and whatever the fragment size. */
    method Receive() returns (outcome: Outcome)
      requires fragSize >= 0 || !ReachesPdu(sock.inbox)
      modifies sock
      ensures sock.sent == old(sock.sent)
      ensures (outcome, sock.inbox) == Reception(old(sock.inbox), sock.fails)
    {
      var read := RecvExactly(HEADER_SIZE);
      if read.None? {
        return NetworkError;
      }
      var header := read.value;
      if header == [] {
        return Closed;
      }
      if |header| < HEADER_SIZE {
        return NetworkError;
      }
      var pduLength := PduLength(header);
      if pduLength < 0 {
        return PacketError;
      }
      var pdu := ReceivePdu(pduLength);
      if pdu.None? {
        return NetworkError;
      }
      ghost var inbox := old(sock.inbox);
      assert inbox[..HEADER_SIZE] + inbox[HEADER_SIZE..][..pduLength] == inbox[..HEADER_SIZE + pduLength];
      return Message(header + pdu.value);
    }

    /** False is ModbusPacketError, raised before anything is written. */
    method Send(message: bytes) returns (ok: bool)
      modifies sock
      ensures ok <==> fragSize >= 0
      ensures sock.sent == old(sock.sent) + (if ok then message else [])
      ensures sock.inbox == old(sock.inbox)
    {
      var fragments := Fragment(message, fragSize);
      if fragments.None? {
        return false;
      }
      var parts := fragments.value;
      for i := 0 to |parts|
        invariant sock.sent == old(sock.sent) + Join(parts[..i])
        invariant sock.inbox == old(sock.inbox)
      {
        sock.Send(parts[i]);
        JoinAppend(parts[..i], [parts[i]]);
        assert Join([parts[i]]) == parts[i];
        assert parts[..i] + [parts[i]] == parts[..i + 1];
      }
      assert parts[..|parts|] == parts;
      return true;
    }
  }

  // Reassembly.

  /** A message as long as its header says. */
  predicate IsFrame(message: bytes) {
    |message| >= HEADER_SIZE && PduLength(message[..HEADER_SIZE]) == |message| - HEADER_SIZE
  }

  lemma {:induction false} ReceptionOfFrame(message: bytes, more: bytes, fails: bool)
    requires IsFrame(message)
    ensures Reception(message + more, fails) == (Message(message), more)
  {
    assert (message + more)[..HEADER_SIZE] == message[..HEADER_SIZE];
  }

  /** Receiving until something other than a message comes: the messages, how it ended, what is unread. */
  datatype Capture = Capture(messages: seq<bytes>, end: Outcome, unread: bytes)

  function ReceiveAll(inbox: bytes, fails: bool): Capture
    decreases |inbox|
  {
    var (outcome, rest) := Reception(inbox, fails);
    if outcome.Message? then
      var later := ReceiveAll(rest, fails);
      later.(messages := [outcome.message] + later.messages)
    else Capture([], outcome, rest)
  }

  predicate AllFrames(messages: seq<bytes>) {
    forall i :: 0 <= i < |messages| ==> IsFrame(messages[i])
  }

  /** Frames sent back to back come out as the frames they were. */
  lemma {:induction false} Reassembles(messages: seq<bytes>, tail: bytes, fails: bool)
    requires AllFrames(messages)
    ensures var later := ReceiveAll(tail, fails);
      ReceiveAll(Join(messages) + tail, fails) == later.(messages := messages + later.messages)
    decreases |messages|
  {
    hide Reception, IsFrame;
    var later := ReceiveAll(tail, fails).messages;
    if messages == [] {
      assert Join(messages) + tail == tail && messages + later == later;
    } else {
      var rest := Join(messages[1..]) + tail;
      assert Join(messages) + tail == messages[0] + rest;
      ReceptionOfFrame(messages[0], rest, fails);
      Reassembles(messages[1..], tail, fails);
      assert [messages[0]] + (messages[1..] + later) == messages + later;
    }
  }

  /** No part of `tail` is a whole frame. */
  predicate CutShort(tail: bytes) {
    tail != [] && (|tail| < HEADER_SIZE || PduLength(tail[..HEADER_SIZE]) > |tail| - HEADER_SIZE)
  }

  predicate NoFrame(tail: bytes) {
    |tail| >= HEADER_SIZE && PduLength(tail[..HEADER_SIZE]) < 0
  }

  /**
   The stream is the messages and a tail. It ends closed exactly when there is no tail and
   the socket does not fail, in a packet error exactly when a length field describes no
   frame, and in a network error when it ends inside a frame or the socket fails.
   */
  lemma {:induction false} ReceiveAllSplits(inbox: bytes, fails: bool) returns (tail: bytes)
    ensures var c := ReceiveAll(inbox, fails);
      && inbox == Join(c.messages) + tail && AllFrames(c.messages)
      && !c.end.Message?
      && (c.end.Closed? <==> tail == [] && !fails)
      && (c.end.NetworkError? <==> CutShort(tail) || (tail == [] && fails))
      && (c.end.PacketError? <==> NoFrame(tail))
    decreases |inbox|
  {
    hide Reception, IsFrame, CutShort, NoFrame;
    var (outcome, rest) := Reception(inbox, fails);
    ReceptionSplits(inbox, fails);
    if outcome.Message? {
      tail := ReceiveAllSplits(rest, fails);
      var later := ReceiveAll(rest, fails).messages;
      assert Join([outcome.message] + later) == outcome.message + Join(later);
    } else {
      tail := inbox;
    }
  }

  lemma {:induction false} ReceptionSplits(inbox: bytes, fails: bool)
    ensures var (outcome, rest) := Reception(inbox, fails);
      match outcome
      case Message(message) => inbox == message + rest && IsFrame(message)
      case Closed => inbox == [] && !fails && !CutShort(inbox) && !NoFrame(inbox)
      case NetworkError => (if inbox == [] then fails else CutShort(inbox)) && !NoFrame(inbox)
      case PacketError => inbox != [] && !CutShort(inbox) && NoFrame(inbox)
  {
    var (outcome, rest) := Reception(inbox, fails);
    if outcome.Message? {
      assert outcome.message[..HEADER_SIZE] == inbox[..HEADER_SIZE];
    }
  }

  /** The length field counts the unit identifier and the PDU. */
  lemma {:induction false} PduLengthIs(header: bytes)
    requires |header| == 7
    ensures PduLength(header) == Word(header[4], header[5]) - 1
  {
    hide DeserializeHeader;
    HeaderFields(header);
  }

  /** What one receive() makes of the bytes that arrive, by the bytes. */
  lemma {:induction false} ReceptionByBytes(inbox: bytes, fails: bool)
    ensures Reception(inbox, fails) ==
      if inbox == [] then (if fails then NetworkError else Closed, [])
      else if |inbox| < 7 then (NetworkError, [])
      else
        var n := 6 + Word(inbox[4], inbox[5]);
        if n == 6 then (PacketError, inbox[7..])
        else if |inbox| < n then (NetworkError, [])
        else (Message(inbox[..n]), inbox[n..])
  {
    if |inbox| >= 7 {
      PduLengthIs(inbox[..7]);
    }
  }
}
