/** The TCP ADU of src/pyomb/adu/tcp.py: the MBAP header and the three packet classes. */
module Tcp {
  import opened Bytes
  import opened Struct
  import opened Pdu
  import opened PduLaws

  datatype Header = Header(transId: int, protId: int, length: int, unitId: int)

  const HEADER_FORMAT := [H, H, H, B]

  const HEADER_SIZE := 7

  lemma {:induction false} HeaderFormatSize()
    ensures CalcSize(HEADER_FORMAT) == HEADER_SIZE
  {
    assert CalcSize([H, B]) == 3;
  }

  function SerializeHeader(h: Header): Option<bytes> {
    Pack(HEADER_FORMAT, [h.transId, h.protId, h.length, h.unitId])
  }

  function DeserializeHeader(stream: bytes): (r: Option<Header>)
    ensures r.Some? <==> |stream| == HEADER_SIZE
  {
    HeaderFormatSize();
    match Unpack(HEADER_FORMAT, stream)
    case Some(v) => Some(Header(v[0], v[1], v[2], v[3]))
    case None => None
  }

  lemma {:induction false} HeaderRoundTrip(h: Header, stream: bytes)
    ensures SerializeHeader(h) == Some(stream) <==> DeserializeHeader(stream) == Some(h)
  {
    PackIffUnpack(HEADER_FORMAT, [h.transId, h.protId, h.length, h.unitId], stream);
    if v :| Unpack(HEADER_FORMAT, stream) == Some(v) {
      assert v == [v[0], v[1], v[2], v[3]];
    }
  }

  /** The fields a header is read with are the ones its widths can hold. */
  lemma {:induction false} HeaderFields(stream: bytes)
    requires |stream| == HEADER_SIZE
    ensures var h := DeserializeHeader(stream).value;
      && h.transId == Word(stream[0], stream[1]) && h.protId == Word(stream[2], stream[3])
      && h.length == Word(stream[4], stream[5]) && h.unitId == stream[6]
  {
    HeaderFormatSize();
    var f := HEADER_FORMAT;
    assert f[..1] == [H] && f[..2] == [H, H] && f[..3] == [H, H, H];
    assert CalcSize([H]) == 2 && CalcSize([H, H]) == 4 && CalcSize([H, H, H]) == 2 + CalcSize([H, H]);
    UnpackAt(f, stream, 0);
    UnpackAt(f, stream, 1);
    UnpackAt(f, stream, 2);
    UnpackAt(f, stream, 3);
  }

  lemma {:induction false} HeaderSerializesIff(h: Header)
    ensures SerializeHeader(h).Some? <==>
      && 0 <= h.transId < 0x1_0000 && 0 <= h.protId < 0x1_0000
      && 0 <= h.length < 0x1_0000 && 0 <= h.unitId < 0x100
  {
    hide Pack;
    var v := [h.transId, h.protId, h.length, h.unitId];
    PacksIff(HEADER_FORMAT, v);
    assert v[0] == h.transId && v[1] == h.protId && v[2] == h.length && v[3] == h.unitId;
  }

  // Packets.

  datatype TcpPacket = TcpPacket(header: Header, pdu: Pdu)

  function SerializeTcp(p: TcpPacket): Option<bytes>
    requires WellFormed(p.pdu)
  {
    match (SerializeHeader(p.header), Serialize(p.pdu))
    case (Some(header), Some(pdu)) => Some(header + pdu)
    case _ => None
  }

  /** The header of a stream whose length field agrees with the bytes received. */
  function ValidHeader(stream: bytes): Option<Header> {
    match DeserializeHeader(if |stream| < HEADER_SIZE then stream else stream[..HEADER_SIZE])
    case Some(h) => if |stream| == HEADER_SIZE + h.length - 1 then Some(h) else None
    case None => None
  }

  /** ModbusTcpPacket.deserialize: the PDU is read generically. None is ModbusPacketError. */
  function DeserializeTcp(stream: bytes): (r: Option<TcpPacket>)
    ensures r.Some? ==> WellFormed(r.value.pdu)
  {
    match ValidHeader(stream)
    case None => None
    case Some(h) =>
      match Deserialize(Generic, stream[HEADER_SIZE..])
      case Some(pdu) => Some(TcpPacket(h, pdu))
      case None => None
  }

  // Unreadable is ModbusPacketError; Unparsable is ModbusPduParseError, whose header can
  // still be answered.
  datatype RequestRead = Read(packet: TcpPacket) | Unreadable | Unparsable(header: Header, fc: byte)

  /** ModbusTcpRequest.deserialize */
  function DeserializeRequest(stream: bytes): (r: RequestRead)
    ensures r.Read? ==> WellFormed(r.packet.pdu)
  {
    match ValidHeader(stream)
    case None => Unreadable
    case Some(h) =>
      var pduBytes := stream[HEADER_SIZE..];
      match Parse(Request, pduBytes)
      case Some(pdu) => Read(TcpPacket(h, pdu))
      case None => if pduBytes == [] then Unreadable else Unparsable(h, pduBytes[0])
  }

  /** ModbusTcpResponse.deserialize */
  function DeserializeResponse(stream: bytes): (r: Option<TcpPacket>)
    ensures r.Some? ==> WellFormed(r.value.pdu)
  {
    match ValidHeader(stream)
    case None => None
    case Some(h) =>
      match Parse(Response, stream[HEADER_SIZE..])
      case Some(pdu) => Some(TcpPacket(h, pdu))
      case None => None
  }

  /** Header bytes and PDU bytes that agree make a stream whose header is valid. */
  lemma {:induction false} HeaderOfWhole(h: Header, headerBytes: bytes, pduBytes: bytes)
    requires SerializeHeader(h) == Some(headerBytes)
    ensures |headerBytes| == HEADER_SIZE
    ensures (headerBytes + pduBytes)[HEADER_SIZE..] == pduBytes
    ensures ValidHeader(headerBytes + pduBytes) == if h.length == |pduBytes| + 1 then Some(h) else None
  {
    HeaderRoundTrip(h, headerBytes);
    assert (headerBytes + pduBytes)[..HEADER_SIZE] == headerBytes;
  }

  lemma {:induction false} ValidHeaderBytes(stream: bytes)
    requires ValidHeader(stream).Some?
    ensures var h := ValidHeader(stream).value;
      && |stream| >= HEADER_SIZE
      && SerializeHeader(h) == Some(stream[..HEADER_SIZE])
      && h.length == |stream| - HEADER_SIZE + 1
  {
    HeaderRoundTrip(ValidHeader(stream).value, stream[..HEADER_SIZE]);
  }

  /** A request that was read prints as the bytes it was read from. */
  lemma {:induction false} RequestReadThenPrint(stream: bytes)
    requires DeserializeRequest(stream).Read?
    ensures SerializeTcp(DeserializeRequest(stream).packet) == Some(stream)
  {
    ValidHeaderBytes(stream);
    ParseThenPrint(Request, stream[HEADER_SIZE..]);
    assert stream == stream[..HEADER_SIZE] + stream[HEADER_SIZE..];
  }

  /** A packet whose length field counts its PDU prints as bytes that read back as it. */
  lemma {:induction false} ResponsePrintThenRead(p: TcpPacket)
    requires WellFormed(p.pdu) && SerializeTcp(p).Some?
    requires Travels(Response, p.pdu) && p.header.length == Len(p.pdu) + 1
    ensures DeserializeResponse(SerializeTcp(p).value) == Some(p)
  {
    var headerBytes, pduBytes := SerializeHeader(p.header).value, Serialize(p.pdu).value;
    SerializedSize(p.pdu);
    HeaderOfWhole(p.header, headerBytes, pduBytes);
    PrintThenParse(Response, p.pdu);
  }

  lemma {:induction false} RequestPrintThenRead(p: TcpPacket)
    requires WellFormed(p.pdu) && SerializeTcp(p).Some?
    requires Travels(Request, p.pdu) && p.header.length == Len(p.pdu) + 1
    ensures DeserializeRequest(SerializeTcp(p).value) == Read(p)
  {
    var headerBytes, pduBytes := SerializeHeader(p.header).value, Serialize(p.pdu).value;
    SerializedSize(p.pdu);
    HeaderOfWhole(p.header, headerBytes, pduBytes);
    PrintThenParse(Request, p.pdu);
  }

  /** The frames a generic packet reads, and that it prints each as it came. */
  lemma {:induction false} GenericReadThenPrint(stream: bytes)
    ensures DeserializeTcp(stream).Some? <==> ValidHeader(stream).Some? && |stream| > HEADER_SIZE
    ensures DeserializeTcp(stream).Some? ==> SerializeTcp(DeserializeTcp(stream).value) == Some(stream)
  {
    if ValidHeader(stream).Some? {
      ValidHeaderBytes(stream);
      GenericReadsAnything(stream[HEADER_SIZE..]);
      assert stream == stream[..HEADER_SIZE] + stream[HEADER_SIZE..];
    }
  }

  // Streams by their bytes.

  /** A header is valid exactly where it is whole and its length counts what follows the length field. */
  lemma {:induction false} ValidHeaderIff(stream: bytes)
    ensures ValidHeader(stream) ==
      if |stream| >= 7 && Word(stream[4], stream[5]) == |stream| - 6 then
        Some(Header(Word(stream[0], stream[1]), Word(stream[2], stream[3]), |stream| - 6, stream[6]))
      else None
  {
    hide DeserializeHeader;
    if |stream| >= 7 {
      HeaderFields(stream[..7]);
    }
  }

  /** Which streams a request cannot be read from at all, and which only for its PDU. */
  lemma {:induction false} RequestReadIff(stream: bytes)
    ensures var r := DeserializeRequest(stream);
      && (r.Unreadable? <==> |stream| <= 7 || Word(stream[4], stream[5]) != |stream| - 6)
      && (!r.Unreadable? ==>
        var h := Header(Word(stream[0], stream[1]), Word(stream[2], stream[3]), |stream| - 6, stream[6]);
        match Parse(Request, stream[7..])
        case Some(pdu) => r == Read(TcpPacket(h, pdu))
        case None => r == Unparsable(h, stream[7]))
  {
    hide ValidHeader, Deserialize;
    ValidHeaderIff(stream);
    NothingParses(Request);
  }

  /** A response is read exactly where its header is valid and its PDU parses. */
  lemma {:induction false} ResponseReadIff(stream: bytes)
    ensures DeserializeResponse(stream) ==
      if |stream| <= 7 || Word(stream[4], stream[5]) != |stream| - 6 then None
      else
        var h := Header(Word(stream[0], stream[1]), Word(stream[2], stream[3]), |stream| - 6, stream[6]);
        match Parse(Response, stream[7..])
        case Some(pdu) => Some(TcpPacket(h, pdu))
        case None => None
  {
    hide ValidHeader, Deserialize;
    ValidHeaderIff(stream);
    NothingParses(Response);
  }

  lemma {:induction false} NothingParses(side: Side)
    ensures Parse(side, []) == None
  {
  }

  /** A generic packet is read exactly where its header is valid and a PDU byte is there. */
  lemma {:induction false} GenericReadIff(stream: bytes)
    ensures var r := DeserializeTcp(stream);
      && (r.Some? <==> |stream| > 7 && Word(stream[4], stream[5]) == |stream| - 6)
      && (r.Some? ==>
        && r.value.header
           == Header(Word(stream[0], stream[1]), Word(stream[2], stream[3]), |stream| - 6, stream[6])
        && Serialize(r.value.pdu) == Some(stream[7..]))
  {
    hide ValidHeader, Deserialize, Serialize;
    ValidHeaderIff(stream);
    if |stream| >= 7 {
      GenericReadsAnything(stream[7..]);
    }
  }

  /** The bytes of a packet. */
  lemma {:induction false} PacketBytes(p: TcpPacket)
    requires WellFormed(p.pdu) && SerializeTcp(p).Some?
    ensures var out, h := SerializeTcp(p).value, p.header;
      && |out| >= 7 && Serialize(p.pdu) == Some(out[7..])
      && Word(out[0], out[1]) == h.transId && Word(out[2], out[3]) == h.protId
      && Word(out[4], out[5]) == h.length && out[6] == h.unitId
  {
    hide Serialize, SerializeHeader, DeserializeHeader;
    var headerBytes := SerializeHeader(p.header).value;
    HeaderRoundTrip(p.header, headerBytes);
    HeaderFields(headerBytes);
  }
}
