/** on_data, answer and ResponseFactory of src/pyomb/simulators/server.py. */
module Responder {
  import opened Bytes
  import opened Struct
  import opened Pdu
  import opened PduLaws
  import opened Tcp
  import opened TcpStream
  import opened WireForms

  const ILLEGAL_DATA_VALUE := 0x03
  const SLAVE_DEVICE_FAILURE := 0x04

  function ErrorPdu(fc: int, excCode: int): Pdu {
    Pdu(Exception, fc, [excCode], [])
  }

  function Shipping(code: int, fields: seq<int>, tail: seq<int>): Pdu {
    Pdu(Shipped(Response, code), code, fields, tail)
  }

  /** The factory the class of a request selects; an exception response for every other class. */
  function Respond(request: Pdu): (response: Pdu)
    requires WellFormed(request)
    requires request.cls.Shipped? ==> request.cls.side == Request
    requires forall i :: 0 <= i < |request.fields| ==> request.fields[i] >= 0
    ensures WellFormed(response)
  {
    var f := request.fields;
    if !request.cls.Shipped? || request.cls.code == 8 then ErrorPdu(request.fc, SLAVE_DEVICE_FAILURE)
    else
      var code := request.cls.code;
      if code in {1, 2} then Shipping(code, [(f[1] + 7) / 8], Copies(0xFF, (f[1] + 7) / 8))
      else if code in {3, 4} then Shipping(code, [2 * f[1]], Copies(0xFFFF, f[1]))
      else if code == 7 then Shipping(code, [0x00], [])
      else if code in {15, 16} then Shipping(code, [f[0], f[1]], [])
      else if code == 23 then Shipping(code, [2 * f[1]], Copies(0xFFFF, f[1]))
      else Shipping(code, f, request.tail)
  }

  /** answer(): the identifiers echoed, the length its own. None is ModbusPacketError. */
  function AnswerPacket(h: Header, response: Pdu): TcpPacket
    requires WellFormed(response)
  {
    TcpPacket(h.(length := Len(response) + 1), response)
  }

  // DeviceFailure is ModbusSlaveDeviceFailureError, Failure any other packet error.
  datatype Handled = Reply(stream: bytes) | DeviceFailure | Failure

  /** on_data(); `refused` is the fail flag, or a data handler that answered false. */
  function OnData(data: bytes, refused: bool): Handled {
    match DeserializeRequest(data)
    case Unreadable => Failure
    case Unparsable(h, fc) =>
      (match SerializeTcp(AnswerPacket(h, ErrorPdu(fc, ILLEGAL_DATA_VALUE)))
       case Some(stream) => Reply(stream)
       case None => Failure)
    case Read(packet) =>
      RequestFields(data);
      var response := if refused then ErrorPdu(packet.pdu.fc, SLAVE_DEVICE_FAILURE) else Respond(packet.pdu);
      (match SerializeTcp(AnswerPacket(packet.header, response))
       case Some(stream) => Reply(stream)
       case None => DeviceFailure)
  }

  /** A request that was read is of a request class, and its fields fit their widths. */
  lemma {:induction false} RequestFields(data: bytes)
    requires DeserializeRequest(data).Read?
    ensures var p := DeserializeRequest(data).packet.pdu;
      && p.cls == ClassOf(Request, data[HEADER_SIZE]) && WireCode(p) == data[HEADER_SIZE]
      && InRange(LayoutOf(p.cls).head, p.fields)
      && (LayoutOf(p.cls).tail.Some? ==>
        forall i :: 0 <= i < |p.tail| ==> 0 <= p.tail[i] < Limit(LayoutOf(p.cls).tail.value))
  {
    var p := DeserializeRequest(data).packet.pdu;
    ParseThenPrint(Request, data[HEADER_SIZE..]);
    SerializesIff(p);
    SerializedCode(p);
  }

  // When a request is answered.

  /** A request as a server reads it: of a request class, its fields within their widths. */
  predicate Readable(request: Pdu) {
    && WellFormed(request)
    && 0 <= WireCode(request) < 0x100 && request.cls == ClassOf(Request, WireCode(request))
    && InRange(LayoutOf(request.cls).head, request.fields)
    && (LayoutOf(request.cls).tail.Some? ==>
      forall i :: 0 <= i < |request.tail| ==> 0 <= request.tail[i] < Limit(LayoutOf(request.cls).tail.value))
  }

  /** The requests whose reply fits: what decides is the count byte of the response. */
  predicate Answerable(request: Pdu)
    requires Readable(request)
  {
    if request.cls.Generic? then request.fc < 0x80
    else
      var code := request.cls.code;
      && (code in {1, 2} ==> request.fields[1] <= 2040)
      && (code in {3, 4, 23} ==> request.fields[1] <= 127)
  }

  lemma {:induction false} ErrorSerializes(fc: int, excCode: byte)
    ensures Serialize(ErrorPdu(fc, excCode)).Some? <==> -0x80 <= fc < 0x80
    ensures Len(ErrorPdu(fc, excCode)) == 2
  {
    SerializesIff(ErrorPdu(fc, excCode));
    assert CalcSize([B]) == 1;
  }

  lemma {:induction false} ResponseSerializes(request: Pdu)
    requires Readable(request)
    ensures Serialize(Respond(request)).Some? <==> Answerable(request)
    ensures Answerable(request) ==> Travels(Response, Respond(request))
  {
    hide Serialize;
    var response := Respond(request);
    if response.cls == Exception {
      ErrorSerializes(request.fc, SLAVE_DEVICE_FAILURE);
    } else {
      SerializesIff(response);
    }
  }

  /** The header of a stream long enough to hold one. */
  function HeaderOf(data: bytes): Header
    requires |data| >= HEADER_SIZE
  {
    DeserializeHeader(data[..HEADER_SIZE]).value
  }

  lemma {:induction false} ReadRequest(data: bytes)
    requires !DeserializeRequest(data).Unreadable?
    ensures |data| >= HEADER_SIZE && ValidHeader(data) == Some(HeaderOf(data))
    ensures SerializeHeader(HeaderOf(data)).Some? && HeaderOf(data).length == |data| - HEADER_SIZE + 1
    ensures DeserializeRequest(data).Read? ==>
      var p := DeserializeRequest(data).packet;
      p.header == HeaderOf(data) && Readable(p.pdu) && Len(p.pdu) == |data| - HEADER_SIZE
    ensures DeserializeRequest(data).Unparsable? ==>
      DeserializeRequest(data).header == HeaderOf(data) && DeserializeRequest(data).fc < 0x80
  {
    hide Serialize, Unpack, Pack, DeserializeHeader, SerializeHeader;
    ValidHeaderBytes(data);
    var pduBytes := data[HEADER_SIZE..];
    if DeserializeRequest(data).Read? {
      RequestFields(data);
      ParseThenPrint(Request, pduBytes);
      SerializedSize(DeserializeRequest(data).packet.pdu);
    } else {
      GenericReadsAnything(pduBytes);
    }
  }

  lemma {:induction false} ResponseFits(request: Pdu)
    requires Readable(request) && Answerable(request)
    ensures 0 <= Len(Respond(request)) <= (if Len(request) < 257 then 257 else Len(request))
  {
    hide CalcSize;
    HeadSizes(request.cls);
    HeadSizes(Respond(request).cls);
  }

  /** What a server sends where it sends anything. */
  function ResponseTo(data: bytes, refused: bool): (response: Pdu)
    requires !DeserializeRequest(data).Unreadable?
    ensures WellFormed(response)
  {
    match DeserializeRequest(data)
    case Unparsable(_, fc) => ErrorPdu(fc, ILLEGAL_DATA_VALUE)
    case Read(packet) =>
      RequestFields(data);
      if refused then ErrorPdu(packet.pdu.fc, SLAVE_DEVICE_FAILURE) else Respond(packet.pdu)
  }

  /** Exactly when there is a reply. */
  ghost predicate Replies(data: bytes, refused: bool)
    requires !DeserializeRequest(data).Unreadable?
  {
    match DeserializeRequest(data)
    case Unparsable(_, _) => true
    case Read(packet) =>
      ReadRequest(data);
      if refused then packet.pdu.fc < 0x80 else Answerable(packet.pdu)
  }

  /** The response to a request serializes, travels and is short enough exactly when there is a reply. */
  lemma {:induction false} ResponseReady(data: bytes, refused: bool)
    requires !DeserializeRequest(data).Unreadable?
    ensures var response := ResponseTo(data, refused);
      && (Serialize(response).Some? <==> Replies(data, refused))
      && (Replies(data, refused) ==> Travels(Response, response) && 0 <= Len(response) < 0xFFFF)
  {
    hide Serialize, Answerable, Respond, DeserializeRequest;
    ReadRequest(data);
    HeaderSerializesIff(HeaderOf(data));
    match DeserializeRequest(data)
    case Unparsable(_, fc) =>
      ErrorSerializes(fc, ILLEGAL_DATA_VALUE);
    case Read(packet) =>
      if refused {
        ErrorSerializes(packet.pdu.fc, SLAVE_DEVICE_FAILURE);
      } else {
        ResponseSerializes(packet.pdu);
        if Answerable(packet.pdu) {
          ResponseFits(packet.pdu);
        }
      }
  }

  /** A request is answered exactly when its response can be written; otherwise the device has failed. */
  lemma {:induction false} AnsweredIff(data: bytes, refused: bool)
    ensures DeserializeRequest(data).Unreadable? ==> OnData(data, refused) == Failure
    ensures !DeserializeRequest(data).Unreadable? ==>
      var out := SerializeTcp(AnswerPacket(HeaderOf(data), ResponseTo(data, refused)));
      && (out.Some? <==> Replies(data, refused))
      && OnData(data, refused) == if out.Some? then Reply(out.value) else DeviceFailure
  {
    hide Serialize, Respond, Replies, DeserializeRequest;
    if !DeserializeRequest(data).Unreadable? {
      ReadRequest(data);
      ResponseReady(data, refused);
      HeaderSerializesIff(HeaderOf(data));
      HeaderSerializesIff(AnswerPacket(HeaderOf(data), ResponseTo(data, refused)).header);
      UnparsableReplies(data, refused);
    }
  }

  /** A request to read 2041 coils is read as one, and what it gets is a device failure. */
  lemma {:induction false} TooManyCoilsUnanswered() returns (data: bytes)
    ensures var pdu := Pdu(Shipped(Request, 1), 1, [0, 2041], []);
      && SerializeTcp(TcpPacket(Header(0, 0, 6, 1), pdu)) == Some(data)
      && DeserializeRequest(data) == Read(TcpPacket(Header(0, 0, 6, 1), pdu))
      && OnData(data, false) == DeviceFailure
  {
    var pdu := Pdu(Shipped(Request, 1), 1, [0, 2041], []);
    var packet := TcpPacket(Header(0, 0, 6, 1), pdu);
    assert CalcSize([H, H]) == 4;
    SerializesIff(pdu);
    HeaderSerializesIff(packet.header);
    data := SerializeTcp(packet).value;
    RequestPrintThenRead(packet);
    hide OnData, DeserializeRequest, SerializeTcp;
    AnsweredIff(data, false);
  }

  lemma {:induction false} UnparsableReplies(data: bytes, refused: bool)
    requires !DeserializeRequest(data).Unreadable?
    ensures DeserializeRequest(data).Unparsable? ==> Replies(data, refused)
  {
  }

  /** A reply is one whole frame that a client reads back as the response, under the identifiers sent. */
  lemma {:induction false} ReplyReadsBack(data: bytes, refused: bool)
    requires OnData(data, refused).Reply?
    ensures var stream := OnData(data, refused).stream;
      && |data| >= HEADER_SIZE && !DeserializeRequest(data).Unreadable?
      && IsFrame(stream)
      && DeserializeResponse(stream) == Some(AnswerPacket(HeaderOf(data), ResponseTo(data, refused)))
  {
    hide Serialize, SerializeHeader, Respond, Replies, DeserializeRequest, Travels;
    AnsweredIff(data, refused);
    ReadRequest(data);
    ResponseReady(data, refused);
    var packet := AnswerPacket(HeaderOf(data), ResponseTo(data, refused));
    ResponsePrintThenRead(packet);
    SerializedIsFrame(packet);
  }

  lemma {:induction false} SerializedIsFrame(p: TcpPacket)
    requires WellFormed(p.pdu) && SerializeTcp(p).Some? && p.header.length == Len(p.pdu) + 1
    ensures IsFrame(SerializeTcp(p).value)
  {
    var headerBytes, pduBytes := SerializeHeader(p.header).value, Serialize(p.pdu).value;
    SerializedSize(p.pdu);
    HeaderRoundTrip(p.header, headerBytes);
    assert SerializeTcp(p).value[..HEADER_SIZE] == headerBytes;
  }

  // Conformity.

  /** violations() of a request PDU is empty. */
  predicate ConformingRequest(p: Pdu)
    requires WellFormed(p) && p.cls.Shipped? && p.cls.side == Request
  {
    var code, f := p.cls.code, p.fields;
    && (code in {1, 2} ==> 1 <= f[1] <= 0x7D0)
    && (code in {3, 4} ==> 1 <= f[1] <= 0x7D)
    && (code == 5 ==> f[1] in {0x0000, 0xFF00})
    && (code == 8 ==> f[0] in DIAGNOSTIC_SUB_FUNCTIONS)
    && (code == 15 ==> 1 <= f[1] <= 0x7B0 && f[2] == (f[1] + 7) / 8)
    && (code == 16 ==> 1 <= f[1] <= 0x7B && f[2] == 2 * f[1])
    && (code == 23 ==> 1 <= f[1] <= 0x7D && 1 <= f[3] <= 0x79 && f[4] == 2 * f[3])
    && (code == 43 ==> f[0] == 0x0E)
  }

  /** violations() of a response PDU is empty. */
  predicate ConformingResponse(p: Pdu)
    requires WellFormed(p) && p.cls.Shipped? && p.cls.side == Response
  {
    var code, f := p.cls.code, p.fields;
    && (code in {1, 2} ==> f[0] == |p.tail|)
    && (code in {3, 4, 23} ==> f[0] == 2 * |p.tail|)
    && (code == 5 ==> f[1] in {0x0000, 0xFF00})
    && (code == 8 ==> f[0] in DIAGNOSTIC_SUB_FUNCTIONS)
    && (code == 15 ==> 1 <= f[1] <= 0x7B0)
    && (code == 16 ==> 1 <= f[1] <= 0x7B)
    && (code == 43 ==> f[0] == 0x0E)
  }

  /**
   A conforming request of a function code the server dispatches is answered with a
   conforming response of the same code, under the identifiers it came with and a length
   that counts the bytes sent.
   */
  lemma {:induction false} ConformingIsAnswered(data: bytes)
    requires DeserializeRequest(data).Read?
    requires var p := DeserializeRequest(data).packet.pdu;
      p.cls.Shipped? && p.cls.side == Request && p.cls.code != 8 && ConformingRequest(p)
    ensures OnData(data, false).Reply?
    ensures var stream, sent := OnData(data, false).stream, DeserializeRequest(data).packet;
      var got := DeserializeResponse(stream);
      && got.Some? && got.value.pdu.cls == Shipped(Response, sent.pdu.cls.code)
      && ConformingResponse(got.value.pdu)
      && got.value.header == sent.header.(length := |stream| - HEADER_SIZE + 1)
  {
    ReadRequest(data);
    AnsweredIff(data, false);
    ReplyReadsBack(data, false);
    ResponseConforms(DeserializeRequest(data).packet.pdu);
    ValidHeaderBytes(OnData(data, false).stream);
  }

  /** What a conforming request of each code is, by its bytes. */
  lemma {:induction false} ConformingRequestIff(s: bytes)
    requires Parse(Request, s).Some? && s[0] in CODES
    ensures WellFormed(Parse(Request, s).value) && Parse(Request, s).value.cls == Shipped(Request, s[0])
    ensures ConformingRequest(Parse(Request, s).value) <==>
      && (s[0] in {1, 2} ==> |s| == 5 && 1 <= At(s, 3) <= 2000)
      && (s[0] in {3, 4} ==> |s| == 5 && 1 <= At(s, 3) <= 125)
      && (s[0] == 5 ==> |s| == 5 && At(s, 3) in {0x0000, 0xFF00})
      && (s[0] == 8 ==> |s| >= 3 && (At(s, 1) <= 4 || 10 <= At(s, 1) <= 18 || At(s, 1) == 20))
      && (s[0] == 15 ==> |s| >= 6 && 1 <= At(s, 3) <= 1968 && 8 * (s[5] as int) - 8 < At(s, 3) <= 8 * (s[5] as int))
      && (s[0] == 16 ==> |s| >= 6 && 1 <= At(s, 3) <= 123 && s[5] == 2 * At(s, 3))
      && (s[0] == 23 ==>
        |s| >= 10 && 1 <= At(s, 3) <= 125 && 1 <= At(s, 7) <= 121 && s[9] == 2 * At(s, 7))
      && (s[0] == 43 ==> |s| >= 2 && s[1] == 14)
  {
    hide Parse, Words;
    ParseIsDecode(Request, s);
  }

  /** And a conforming response. */
  lemma {:induction false} ConformingResponseIff(s: bytes)
    requires Parse(Response, s).Some? && s[0] in CODES
    ensures WellFormed(Parse(Response, s).value) && Parse(Response, s).value.cls == Shipped(Response, s[0])
    ensures ConformingResponse(Parse(Response, s).value) <==>
      && (s[0] in {1, 2, 3, 4, 23} ==> |s| >= 2 && s[1] == |s| - 2)
      && (s[0] == 5 ==> |s| == 5 && At(s, 3) in {0x0000, 0xFF00})
      && (s[0] == 8 ==> |s| >= 3 && (At(s, 1) <= 4 || 10 <= At(s, 1) <= 18 || At(s, 1) == 20))
      && (s[0] == 15 ==> |s| == 5 && 1 <= At(s, 3) <= 1968)
      && (s[0] == 16 ==> |s| == 5 && 1 <= At(s, 3) <= 123)
      && (s[0] == 43 ==> |s| >= 2 && s[1] == 14)
  {
    hide Parse;
    ParseIsDecode(Response, s);
  }

  lemma {:induction false} ResponseConforms(request: Pdu)
    requires Readable(request) && request.cls.Shipped? && request.cls.code != 8 && ConformingRequest(request)
    ensures Answerable(request)
    ensures var response := Respond(request);
      response.cls == Shipped(Response, request.cls.code) && ConformingResponse(response)
  {
  }

  // What goes out.

  function AllOnes(n: nat): bytes {
    Copies<byte>(0xFF, n)
  }

  /** Every coil set and every register full is every bit set. */
  lemma {:induction false} CopiesUnpack(code: Code, n: nat)
    ensures CalcSize(Copies(code, n)) == n * Width(code)
    ensures Unpack(Copies(code, n), AllOnes(n * Width(code))) == Some(Copies(Limit(code) - 1, n))
  {
    CalcSizeCopies(code, n);
    if n > 0 {
      CopiesUnpack(code, n - 1);
      var w, rest := Width(code), (n - 1) * Width(code);
      assert n * w == w + rest;
      assert Copies(code, n)[1..] == Copies(code, n - 1);
      assert AllOnes(n * w)[w..] == AllOnes(rest);
      assert Copies(Limit(code) - 1, n) == [Limit(code) - 1] + Copies(Limit(code) - 1, n - 1);
    }
  }

  lemma {:induction false} OneBytePacks(b: byte)
    ensures Pack([B], [b as int]) == Some([b])
  {
    var format, values := [B], [b as int];
    assert format[1..] == [] && values[1..] == [];
    assert Pack(format[1..], values[1..]) == Some([]);
    assert [b] + [] == [b];
  }

  lemma {:induction false} TwoBytesUnpack(first: byte, second: byte)
    ensures CalcSize([B, B]) == 2 && Unpack([B, B], [first, second]) == Some([first as int, second as int])
  {
    var format, values := [B, B], [first as int, second as int];
    OneBytePacks(second);
    assert format[1..] == [B] && values[1..] == [second as int];
    assert [first] + [second] == [first, second];
    PackIffUnpack(format, values, [first, second]);
  }

  /** A read is answered with the count of the bytes that follow and those bytes, all ones. */
  lemma {:induction false} CountedOnTheWire(p: Pdu, code: Code, n: nat)
    requires WellFormed(p) && p.cls.Shipped? && LayoutOf(p.cls) == Counted([B], code)
    requires p.fields == [n * Width(code)] && p.tail == Copies(Limit(code) - 1, n)
    requires Serialize(p).Some?
    ensures n * Width(code) < 0x100 && 0 <= p.fc < 0x100
    ensures Serialize(p).value == [p.fc, n * Width(code)] + AllOnes(n * Width(code))
  {
    hide LayoutOf;
    SerializesIff(p);
    SerializedTail(p);
    CopiesUnpack(code, n);
    var head: bytes := [p.fc, n * Width(code)];
    TwoBytesUnpack(p.fc, n * Width(code));
    UnpackAppend([B, B], Copies(code, n), head, AllOnes(n * Width(code)));
    assert Format(p.cls, n) == [B, B] + Copies(code, n);
    assert Values(p) == [p.fc, n * Width(code)] + p.tail;
    PackIffUnpack(Format(p.cls, n), Values(p), head + AllOnes(n * Width(code)));
  }

  /** A write of many is answered with the address and quantity it came with. */
  lemma {:induction false} WriteManyOnTheWire(request: Pdu)
    requires Readable(request) && request.cls.Shipped? && request.cls.code in {15, 16}
    ensures var r := Serialize(request);
      r.Some? && |r.value| >= 5 && Serialize(Respond(request)) == Some(r.value[..5])
  {
    hide Pack, CalcSize;
    RequestSerializes(request);
    SerializedTail(request);
    var stream, response := Serialize(request).value, Respond(request);
    var format := Format(request.cls, |request.tail|);
    assert [B, H, H] <= format;
    PackFront([B, H, H], format, Values(request), stream);
    assert Values(response) == Values(request)[..3];
    assert Format(response.cls, 0) == [B, H, H];
    CodeAndWords();
  }

  lemma {:induction false} CodeAndWords()
    ensures CalcSize([B, H, H]) == 5
  {
    assert CalcSize([H, H]) == 4;
  }

  /**
   The bytes a request is answered with: writes of one item, mask writes and encapsulated
   requests come back unchanged, writes of many without what they wrote, and reads as many
   set bits or full registers as they asked for, to the next whole byte.
   */
  lemma {:induction false} ResponseOnTheWire(request: Pdu)
    requires Readable(request) && Answerable(request) && request.cls.Shipped? && request.cls.code != 8
    ensures Serialize(request).Some? && Serialize(Respond(request)).Some?
    ensures var sent, out, code := Serialize(request).value, Serialize(Respond(request)).value, request.cls.code;
      && (code in {5, 6, 22, 43} ==> out == sent)
      && (code in {15, 16} ==> |sent| >= 5 && out == sent[..5])
      && (code in {1, 2} ==> exists n: byte ::
        out == [code, n] + AllOnes(n) && n * 8 >= request.fields[1] > n * 8 - 8)
      && (code in {3, 4, 23} ==> out == [code, 2 * request.fields[1]] + AllOnes(2 * request.fields[1]))
      && (code == 7 ==> out == [7, 0])
  {
    hide Serialize;
    var code, response := request.cls.code, Respond(request);
    RequestSerializes(request);
    ResponseSerializes(request);
    if code in {1, 2} {
      var n: byte := (request.fields[1] + 7) / 8;
      CountedOnTheWire(response, B, n);
      assert n * 8 >= request.fields[1] > n * 8 - 8;
    } else if code in {3, 4, 23} {
      CountedOnTheWire(response, H, request.fields[1]);
    } else if code in {15, 16} {
      WriteManyOnTheWire(request);
    } else {
      EchoOnTheWire(request);
    }
  }

  lemma {:induction false} RequestSerializes(request: Pdu)
    requires Readable(request)
    ensures Serialize(request).Some?
  {
    SerializesIff(request);
  }

  lemma {:induction false} EchoOnTheWire(request: Pdu)
    requires Readable(request) && request.cls.Shipped? && request.cls.code in {5, 6, 7, 22, 43}
    ensures request.cls.code == 7 ==> Serialize(Respond(request)) == Some([7, 0])
    ensures request.cls.code != 7 ==> Serialize(Respond(request)) == Serialize(request)
  {
    var response := Respond(request);
    if request.cls.code == 7 {
      assert Format(response.cls, 0) == [B, B] && Values(response) == [7, 0];
      TwoBytesUnpack(7, 0);
      PackIffUnpack([B, B], [7, 0], [7, 0]);
    } else {
      assert LayoutOf(request.cls) == LayoutOf(response.cls);
      assert Values(request) == Values(response);
    }
  }

  /** A reply carries the three identifiers where the request had them, its own length, and the response. */
  lemma {:induction false} ReplyOnTheWire(data: bytes, refused: bool)
    requires OnData(data, refused).Reply?
    ensures var out := OnData(data, refused).stream;
      && |data| > HEADER_SIZE && |out| >= HEADER_SIZE && !DeserializeRequest(data).Unreadable?
      && out[..4] == data[..4] && out[6] == data[6] && Word(out[4], out[5]) == |out| - 6
      && Serialize(ResponseTo(data, refused)) == Some(out[HEADER_SIZE..])
  {
    hide Serialize, Respond, Replies, DeserializeRequest, Travels, DeserializeHeader, ResponseTo;
    AnsweredIff(data, refused);
    ReadRequest(data);
    RequestHasCode(data);
    var packet, out := AnswerPacket(HeaderOf(data), ResponseTo(data, refused)), OnData(data, refused).stream;
    PacketBytes(packet);
    HeaderFields(data[..HEADER_SIZE]);
    SerializedSize(packet.pdu);
    WordsDiffer(out[0], out[1], data[0], data[1]);
    WordsDiffer(out[2], out[3], data[2], data[3]);
    assert out[..4] == [out[0], out[1], out[2], out[3]] && data[..4] == [data[0], data[1], data[2], data[3]];
  }

  lemma {:induction false} WordsDiffer(a: byte, b: byte, c: byte, d: byte)
    ensures Word(a, b) == Word(c, d) <==> a == c && b == d
  {
  }

  lemma {:induction false} RequestHasCode(data: bytes)
    requires !DeserializeRequest(data).Unreadable?
    ensures |data| > HEADER_SIZE
  {
    GenericReadsAnything(if |data| >= HEADER_SIZE then data[HEADER_SIZE..] else []);
  }

  lemma {:induction false} ErrorOnTheWire(fc: int, excCode: byte)
    requires 0 <= fc < 0x80
    ensures Serialize(ErrorPdu(fc, excCode)) == Some([fc + 0x80, excCode])
  {
    var p := ErrorPdu(fc, excCode);
    assert Format(p.cls, 0) == [B, B] && Values(p) == [fc + 0x80, excCode as int];
    TwoBytesUnpack(fc + 0x80, excCode);
    PackIffUnpack([B, B], Values(p), [fc + 0x80, excCode]);
  }

  // Answers by the bytes of what is asked.

  /** A stream whose header can be answered: whole, and its length counts what came. */
  predicate Addressed(data: bytes) {
    |data| > 7 && Word(data[4], data[5]) == |data| - 6
  }

  /** The function codes with a branch of their own. */
  predicate Dispatched(code: byte) {
    code in {1, 2, 3, 4, 5, 6, 7, 15, 16, 22, 23, 43}
  }

  /** The quantity of a read whose response can count its bytes. */
  predicate Countable(data: bytes)
    requires Addressed(data)
  {
    && (data[7] in {1, 2} && |data| >= 12 ==> Word(data[10], data[11]) <= 2040)
    && (data[7] in {3, 4, 23} && |data| >= 12 ==> Word(data[10], data[11]) <= 127)
  }

  predicate RepliesWith(handled: Handled, pdu: bytes) {
    handled.Reply? && |handled.stream| >= 7 && handled.stream[7..] == pdu
  }

  /** What a request that was read is, by its bytes. */
  lemma {:induction false} ReadByBytes(data: bytes)
    requires DeserializeRequest(data).Read?
    ensures var p := DeserializeRequest(data).packet.pdu;
      && Addressed(data) && Readable(p) && p.fc == data[7]
      && (p.cls.Shipped? && p.cls.code != 8 <==> Dispatched(data[7]))
      && (Answerable(p) <==> Countable(data) && (data[7] in CODES || data[7] < 0x80))
  {
    hide Parse, DeserializeRequest, Words;
    RequestReadIff(data);
    ReadRequest(data);
    ParseIsDecode(Request, data[7..]);
  }

  /** A request is answered, failed or refused altogether by its length field, its parsing, its code and its quantity. */
  lemma {:induction false} HandledByBytes(data: bytes, refused: bool)
    ensures var r := OnData(data, refused);
      if !Addressed(data) then r == Failure
      else if Parse(Request, data[7..]).None? then data[7] < 0x80 && RepliesWith(r, [data[7] + 0x80, 3])
      else if refused || !Dispatched(data[7]) then
        if data[7] < 0x80 then RepliesWith(r, [data[7] + 0x80, 4]) else r == DeviceFailure
      else if Countable(data) then r.Reply?
      else r == DeviceFailure
  {
    hide Parse, OnData, DeserializeRequest, Serialize, Travels, Answerable;
    RequestReadIff(data);
    AnsweredIff(data, refused);
    if Addressed(data) {
      ReadRequest(data);
      if Parse(Request, data[7..]).Some? {
        ReadByBytes(data);
      }
      if OnData(data, refused).Reply? {
        ReplyOnTheWire(data, refused);
      }
      if data[7] < 0x80 {
        ErrorOnTheWire(data[7] as int, ILLEGAL_DATA_VALUE);
        ErrorOnTheWire(data[7] as int, SLAVE_DEVICE_FAILURE);
      }
    }
  }
}
