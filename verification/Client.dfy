/** ModbusClientSimulator of src/pyomb/simulators/client.py: sending a request and waiting for its response. */
module Client {
  import opened Bytes
  import opened Pdu
  import opened PduLaws
  import opened Tcp
  import opened TcpStream

  const TRANS_ID_MODULO := 0x1_0000

  const MAX_STALE_RESPONSES := 8

  // What wait_response() comes to: a response, (None, None), an error receive() or
  // deserialize() raised, or the network error of too many responses to other requests.
  datatype Outcome = Answered(packet: TcpPacket) | NoPeer | Raised | TooManyStale

  // `frames` counts the responses that were read.
  datatype Waited = Waited(outcome: Outcome, unread: bytes, pending: Option<int>, frames: nat)

  /** The loop of wait_response(), with `budget` frames left to read. */
  function Wait(inbox: bytes, fails: bool, pending: Option<int>, budget: nat): Waited
    decreases budget
  {
    if budget == 0 then Waited(TooManyStale, inbox, pending, 0)
    else
      var (received, rest) := Reception(inbox, fails);
      match received
      case Closed => Waited(NoPeer, rest, pending, 0)
      case NetworkError => Waited(Raised, rest, pending, 0)
      case PacketError => Waited(Raised, rest, pending, 0)
      case Message(message) =>
        match DeserializeResponse(message)
        case None => Waited(Raised, rest, pending, 1)
        case Some(response) =>
          if pending.None? then Waited(Answered(response), rest, pending, 1)
          else if response.header.transId == pending.value then Waited(Answered(response), rest, None, 1)
          else OneMore(Wait(rest, fails, pending, budget - 1))
  }

  function OneMore(w: Waited): Waited {
    w.(frames := w.frames + 1)
  }

  /** The request packet send_request() builds. */
  function RequestPacket(transId: int, unitId: int, pdu: Pdu): TcpPacket
    requires WellFormed(pdu)
  {
    TcpPacket(Header(transId, 0, Len(pdu) + 1, unitId), pdu)
  }

  class ModbusClientSimulator {
    const sock: Socket
    const unitId: int
    const fragSize: int
    var nextTransId: int
    var pendingTransId: Option<int>

    constructor (sock: Socket, unitId: int, fragSize: int)
      ensures this.sock == sock && this.unitId == unitId && this.fragSize == fragSize
      ensures nextTransId == 0 && pendingTransId == None
    {
      this.sock, this.unitId, this.fragSize := sock, unitId, fragSize;
      nextTransId, pendingTransId := 0, None;
    }

    method TakeTransId() returns (transId: int)
      modifies this
      ensures transId == old(nextTransId)
      ensures nextTransId == (transId + 1) % TRANS_ID_MODULO && pendingTransId == Some(transId)
    {
      transId := nextTransId;
      nextTransId := (transId + 1) % TRANS_ID_MODULO;
      pendingTransId := Some(transId);
    }

    /** False is ModbusPacketError; the identifier has been claimed either way. */
    method SendRequest(pdu: Pdu) returns (ok: bool)
      requires WellFormed(pdu)
      modifies this, sock
      ensures nextTransId == (old(nextTransId) + 1) % TRANS_ID_MODULO
      ensures pendingTransId == Some(old(nextTransId))
      ensures sock.inbox == old(sock.inbox)
      ensures var message := SerializeTcp(RequestPacket(old(nextTransId), unitId, pdu));
        && (ok <==> message.Some? && fragSize >= 0)
        && sock.sent == old(sock.sent) + (if ok then message.value else [])
    {
      var transId := TakeTransId();
      var message := SerializeTcp(RequestPacket(transId, unitId, pdu));
      if message.None? {
        return false;
      }
      var sender := new ModbusTcpStream(sock, fragSize);
      ok := sender.Send(message.value);
    }

    method WaitResponse() returns (outcome: Outcome)
      modifies this, sock
      ensures var w := Wait(old(sock.inbox), sock.fails, old(pendingTransId), MAX_STALE_RESPONSES + 1);
        outcome == w.outcome && sock.inbox == w.unread && pendingTransId == w.pending
      ensures nextTransId == old(nextTransId) && sock.sent == old(sock.sent)
    {
      hide Reception, DeserializeResponse, Wait;
      var stream := new ModbusTcpStream(sock, 0);
      for i := 0 to MAX_STALE_RESPONSES + 1
        invariant stream.fragSize == 0 && fresh(stream) && stream.sock == sock
        invariant pendingTransId == old(pendingTransId) && nextTransId == old(nextTransId)
        invariant sock.sent == old(sock.sent)
        invariant var budget := MAX_STALE_RESPONSES + 1;
          var now := Wait(sock.inbox, sock.fails, pendingTransId, budget - i);
          now.(frames := now.frames + i) == Wait(old(sock.inbox), sock.fails, old(pendingTransId), budget)
      {
        WaitTurn(sock.inbox, sock.fails, pendingTransId, MAX_STALE_RESPONSES + 1 - i);
        var data := stream.Receive();
        if data.Closed? {
          return NoPeer;
        }
        if !data.Message? {
          return Raised;
        }
        var response := DeserializeResponse(data.message);
        if response.None? {
          return Raised;
        }
        if pendingTransId.None? {
          return Answered(response.value);
        }
        if response.value.header.transId == pendingTransId.value {
          pendingTransId := None;
          return Answered(response.value);
        }
      }
      WaitsNoMore(sock.inbox, sock.fails, pendingTransId);
      return TooManyStale;
    }
  }

  lemma {:induction false} WaitTurn(inbox: bytes, fails: bool, pending: Option<int>, budget: nat)
    requires budget > 0
    ensures var w, (received, rest) := Wait(inbox, fails, pending, budget), Reception(inbox, fails);
      match received
      case Closed => w == Waited(NoPeer, rest, pending, 0)
      case Message(message) =>
        var response := DeserializeResponse(message);
        if response.None? then w == Waited(Raised, rest, pending, 1)
        else if pending in {None, Some(response.value.header.transId)} then
          w == Waited(Answered(response.value), rest, None, 1)
        else w == OneMore(Wait(rest, fails, pending, budget - 1))
      case _ => w == Waited(Raised, rest, pending, 0)
  {
    hide Reception, DeserializeResponse;
  }

  lemma {:induction false} WaitsNoMore(inbox: bytes, fails: bool, pending: Option<int>)
    ensures Wait(inbox, fails, pending, 0) == Waited(TooManyStale, inbox, pending, 0)
  {
  }

  // What a wait finds.

  /** The identifier the claim with this number is given. */
  function Identifier(number: nat): int {
    if number < TRANS_ID_MODULO then number else Identifier(number - TRANS_ID_MODULO)
  }

  /** Identifiers step as the client steps them, and come round. */
  lemma {:induction false} NextIdentifier(number: nat)
    ensures Identifier(number) == number % 65536
    ensures Identifier(number + 1) == (Identifier(number) + 1) % 65536
  {
    if number >= TRANS_ID_MODULO {
      NextIdentifier(number - TRANS_ID_MODULO);
    }
  }

  /** Within one round of identifiers, equal ones are the same claim. */
  lemma {:induction false} SameIdentifier(a: nat, b: nat)
    requires a <= b < a + 65536
    ensures Identifier(a) == Identifier(b) <==> a == b
  {
    NextIdentifier(a);
    NextIdentifier(b);
  }

  /** Frames a client can read, answering the requests with these numbers in turn. */
  ghost predicate Answers(replies: seq<bytes>, numbers: seq<nat>) {
    |replies| == |numbers| && forall i :: 0 <= i < |replies| ==> AnswersNumber(replies[i], numbers[i])
  }

  ghost predicate AnswersNumber(reply: bytes, number: nat) {
    && IsFrame(reply)
    && DeserializeResponse(reply).Some?
    && DeserializeResponse(reply).value.header.transId == Identifier(number)
  }

  /** How many come ahead of the first number whose identifier is `x`; all of them where none is. */
  function Ahead(numbers: seq<nat>, x: int): (n: nat)
    ensures n <= |numbers|
  {
    if numbers == [] || Identifier(numbers[0]) == x then 0 else 1 + Ahead(numbers[1..], x)
  }

  lemma {:induction false} AheadIsFirst(numbers: seq<nat>, x: int)
    ensures var n := Ahead(numbers, x);
      && (n < |numbers| ==> Identifier(numbers[n]) == x)
      && forall i :: 0 <= i < n ==> Identifier(numbers[i]) != x
  {
    hide Identifier;
    if numbers != [] && Identifier(numbers[0]) != x {
      var rest, n := numbers[1..], Ahead(numbers, x);
      AheadIsFirst(rest, x);
      forall i | 0 <= i < n ensures Identifier(numbers[i]) != x {
        assert i > 0 ==> numbers[i] == rest[i - 1];
      }
    }
  }

  function ReadAs(reply: bytes): Outcome {
    match DeserializeResponse(reply)
    case Some(response) => Answered(response)
    case None => Raised
  }

  /** What a wait comes to where nothing whole is left to read: `part` of a frame, then the end. */
  function AtEnd(part: bytes, fails: bool): Outcome {
    if part == [] && !fails then NoPeer else Raised
  }

  /** The beginning of a frame, or nothing at all. */
  predicate Unfinished(part: bytes) {
    part == [] || CutShort(part)
  }

  /**
   Over responses of which number `n` is the first to match: that one, if it is within the
   budget and has come; and otherwise no answer at all.
   */
  function Found(replies: seq<bytes>, part: bytes, fails: bool, n: nat, x: int, budget: nat): Waited {
    if n < budget && n < |replies| then Waited(ReadAs(replies[n]), Join(replies[n + 1..]) + part, None, n + 1)
    else if budget <= |replies| then Waited(TooManyStale, Join(replies[budget..]) + part, Some(x), budget)
    else Waited(AtEnd(part, fails), [], Some(x), |replies|)
  }

  lemma {:induction false} FoundLater(replies: seq<bytes>, part: bytes, fails: bool, n: nat, x: int, budget: nat)
    requires replies != [] && n > 0 && budget > 0
    ensures Found(replies, part, fails, n, x, budget) == OneMore(Found(replies[1..], part, fails, n - 1, x, budget - 1))
  {
    hide ReadAs;
    var rest := replies[1..];
    if n < |replies| {
      assert rest[n - 1] == replies[n] && rest[n..] == replies[n + 1..];
    }
    if budget <= |replies| {
      assert rest[budget - 1..] == replies[budget..];
    }
  }

  /** One turn of the loop; with no identifier pending, whatever comes is passed through. */
  lemma {:induction false} WaitsOnce(
      reply: bytes, more: bytes, fails: bool, number: nat, pending: Option<int>, budget: nat)
    requires AnswersNumber(reply, number) && budget > 0
    ensures Wait(reply + more, fails, pending, budget) ==
      if pending in {None, Some(Identifier(number))} then Waited(ReadAs(reply), more, None, 1)
      else OneMore(Wait(more, fails, pending, budget - 1))
  {
    hide IsFrame, DeserializeResponse, Reception, Identifier;
    ReceptionOfFrame(reply, more, fails);
  }

  /** The beginning of a frame is read, and lost. */
  lemma {:induction false} WaitsInVain(part: bytes, fails: bool, pending: Option<int>, budget: nat)
    requires Unfinished(part) && budget > 0
    ensures Wait(part, fails, pending, budget) == Waited(AtEnd(part, fails), [], pending, 0)
  {
  }

  /** What a wait comes to, over responses to any requests and the beginning of one more. */
  lemma {:induction false} WaitFinds(
      replies: seq<bytes>, part: bytes, fails: bool, numbers: seq<nat>, x: int, budget: nat)
    requires Answers(replies, numbers) && Unfinished(part)
    ensures Wait(Join(replies) + part, fails, Some(x), budget)
         == Found(replies, part, fails, Ahead(numbers, x), x, budget)
    decreases budget
  {
    hide AnswersNumber, Found, Wait, ReadAs, Identifier, Unfinished;
    var n := Ahead(numbers, x);
    if budget == 0 || replies == [] {
      NothingFound(replies, part, fails, n, x, budget);
    } else {
      var more := Join(replies[1..]) + part;
      assert Join(replies) + part == replies[0] + more;
      WaitsOnce(replies[0], more, fails, numbers[0], Some(x), budget);
      if n == 0 {
        FoundNow(replies, part, fails, x, budget);
      } else {
        WaitFinds(replies[1..], part, fails, numbers[1..], x, budget - 1);
        FoundLater(replies, part, fails, n, x, budget);
      }
    }
  }

  lemma {:induction false} NothingFound(replies: seq<bytes>, part: bytes, fails: bool, n: nat, x: int, budget: nat)
    requires Unfinished(part) && (budget == 0 || replies == [])
    ensures Wait(Join(replies) + part, fails, Some(x), budget) == Found(replies, part, fails, n, x, budget)
  {
    hide Unfinished;
    assert replies[0..] == replies;
    if budget == 0 {
      WaitsNoMore(Join(replies) + part, fails, Some(x));
    } else {
      assert Join(replies) + part == part;
      WaitsInVain(part, fails, Some(x), budget);
    }
  }

  lemma {:induction false} FoundNow(replies: seq<bytes>, part: bytes, fails: bool, x: int, budget: nat)
    requires replies != [] && budget > 0
    ensures Found(replies, part, fails, 0, x, budget)
         == Waited(ReadAs(replies[0]), Join(replies[1..]) + part, None, 1)
  {
  }

  // What is sent, by the bytes.

  /** A request goes out under the identifier it was given and the client's unit, protocol 0. */
  lemma {:induction false} RequestBytes(transId: int, unitId: int, pdu: Pdu)
    requires WellFormed(pdu) && SerializeTcp(RequestPacket(transId, unitId, pdu)).Some?
    ensures var out := SerializeTcp(RequestPacket(transId, unitId, pdu)).value;
      && |out| >= 7
      && Word(out[0], out[1]) == transId && out[2] == 0 && out[3] == 0
      && Word(out[4], out[5]) == |out| - 6 && out[6] == unitId
      && Serialize(pdu) == Some(out[7..])
  {
    hide Serialize, SerializeTcp;
    PacketBytes(RequestPacket(transId, unitId, pdu));
    SerializedSize(pdu);
  }

  /** Which requests can be written. */
  lemma {:induction false} RequestSendsIff(transId: int, unitId: int, pdu: Pdu)
    requires WellFormed(pdu)
    ensures SerializeTcp(RequestPacket(transId, unitId, pdu)).Some? <==>
      && Serialize(pdu).Some? && 0 <= transId < 65536 && 0 <= unitId < 256 && Len(pdu) < 65535
  {
    hide Serialize, SerializeHeader;
    HeaderSerializesIff(RequestPacket(transId, unitId, pdu).header);
    if Serialize(pdu).Some? {
      SerializedSize(pdu);
    }
  }
}
