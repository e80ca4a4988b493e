/** The RTU frame of src/pyomb/adu/rtu.py, and read_rtu_frame of src/pyomb/transport/rtu.py. */
module Rtu {
  import opened Bytes
  import opened Struct
  import opened Crc
  import opened Pdu
  import opened PduLaws

  // No frame is shorter than one with an empty data field.
  const MIN_RTU_FRAME := 1 + 1 + CRC_SIZE

  const MAX_RTU_FRAME := 256

  datatype RtuPacket = RtuPacket(slaveId: int, pdu: Pdu, crc: word)

  /** What serialize() emits; the checksum field plays no part in it. */
  function SerializeRtu(slaveId: int, pdu: Pdu): Option<bytes>
    requires WellFormed(pdu)
  {
    match (PackOne(B, slaveId), Serialize(pdu))
    case (Some(id), Some(body)) => Some(id + body + Wire(Crc16(id + body)))
    case _ => None
  }

  /** A packet object: serializing it recomputes the checksum it carries. */
  class ModbusRtuPacket {
    var slaveId: int
    var pdu: Pdu
    var crc: word

    constructor (slaveId: int, pdu: Pdu)
      ensures this.slaveId == slaveId && this.pdu == pdu && crc == INITIAL
    {
      this.slaveId, this.pdu, crc := slaveId, pdu, INITIAL;
    }

    method SetCrc(value: word)
      modifies this`crc
      ensures crc == value
    {
      crc := value;
    }

    method SerializePacket() returns (r: Option<bytes>)
      requires WellFormed(pdu)
      modifies this`crc
      ensures r == SerializeRtu(slaveId, pdu)
      ensures r.Some? ==> |r.value| >= CRC_SIZE && crc == Received(r.value)
      ensures r.None? ==> crc == old(crc)
    {
      var id, body := PackOne(B, slaveId), Serialize(pdu);
      if id.None? || body.None? {
        return None;
      }
      crc := CalcCrc16(id.value + body.value);
      WireRoundTrip(crc, Wire(crc)[0], Wire(crc)[1]);
      return Some(id.value + body.value + Wire(crc));
    }
  }

  /** ModbusRtuPacket.deserialize: None is ModbusPacketError. */
  function DeserializeRtu(stream: bytes, verifyCrc: bool): (r: Option<RtuPacket>)
    ensures r.Some? ==> WellFormed(r.value.pdu)
  {
    if verifyCrc && !Accepts(stream) then None
    else if |stream| < 1 || |stream| < CRC_SIZE then None
    else
      var body := if |stream| == CRC_SIZE then [] else stream[1..|stream| - CRC_SIZE];
      match Deserialize(Generic, body)
      case Some(pdu) => Some(RtuPacket(stream[0], pdu, Received(stream)))
      case None => None
  }

  /** A packet object made from a stream: None is ModbusPacketError. */
  method DeserializePacket(stream: bytes, verifyCrc: bool) returns (r: Option<ModbusRtuPacket>)
    ensures r.Some? <==> DeserializeRtu(stream, verifyCrc).Some?
    ensures r.Some? ==>
      && fresh(r.value)
      && RtuPacket(r.value.slaveId, r.value.pdu, r.value.crc) == DeserializeRtu(stream, verifyCrc).value
  {
    var read := DeserializeRtu(stream, verifyCrc);
    if read.None? {
      return None;
    }
    var packet := new ModbusRtuPacket(read.value.slaveId, read.value.pdu);
    packet.SetCrc(read.value.crc);
    return Some(packet);
  }

  /** When a stream deserializes, and which of its bytes the packet is made of. */
  lemma {:induction false} DeserializedFields(stream: bytes, verifyCrc: bool)
    ensures var r := DeserializeRtu(stream, verifyCrc);
      && (r.Some? <==> |stream| >= MIN_RTU_FRAME && (verifyCrc ==> Accepts(stream)))
      && (r.Some? ==>
        && r.value.slaveId == stream[0] && r.value.crc == Received(stream)
        && r.value.pdu.cls == Generic
        && Serialize(r.value.pdu) == Some(stream[1..|stream| - CRC_SIZE]))
  {
    GenericReadsAnything(if |stream| < CRC_SIZE + 1 then [] else stream[1..|stream| - CRC_SIZE]);
  }

  /** Unverified, a frame deserializes whenever it is long enough; serializing it again mends its checksum. */
  lemma {:induction false} ReserializeMends(stream: bytes)
    ensures DeserializeRtu(stream, false).Some? <==> |stream| >= MIN_RTU_FRAME
    ensures |stream| >= MIN_RTU_FRAME ==>
      var packet := DeserializeRtu(stream, false).value;
      var body := stream[..|stream| - CRC_SIZE];
      SerializeRtu(packet.slaveId, packet.pdu) == Some(body + Wire(Crc16(body)))
  {
    if |stream| >= CRC_SIZE {
      var body := if |stream| == CRC_SIZE then [] else stream[1..|stream| - CRC_SIZE];
      GenericReadsAnything(body);
      assert |stream| >= MIN_RTU_FRAME ==> [stream[0]] + body == stream[..|stream| - CRC_SIZE];
    }
  }

  /** The frames that deserialize are those that come back byte for byte. */
  lemma {:induction false} AcceptsIffReproduced(stream: bytes)
    requires |stream| >= MIN_RTU_FRAME
    ensures Accepts(stream) <==> DeserializeRtu(stream, true).Some?
    ensures DeserializeRtu(stream, false).Some?
    ensures var packet := DeserializeRtu(stream, false).value;
      Accepts(stream) <==> SerializeRtu(packet.slaveId, packet.pdu) == Some(stream)
  {
    ReserializeMends(stream);
    var n := |stream| - CRC_SIZE;
    assert stream == stream[..n] + [stream[n], stream[n + 1]];
    WireRoundTrip(Crc16(stream[..n]), stream[n], stream[n + 1]);
    var out := stream[..n] + Wire(Crc16(stream[..n]));
    assert out[n..] == Wire(Crc16(stream[..n])) && stream[n..] == [stream[n], stream[n + 1]];
  }

  /** The packet an accepted frame deserializes to. */
  function Packet(frame: bytes): (packet: RtuPacket)
    requires Accepts(frame)
    ensures WellFormed(packet.pdu) && SerializeRtu(packet.slaveId, packet.pdu) == Some(frame)
  {
    AcceptsIffReproduced(frame);
    DeserializeRtu(frame, true).value
  }

  // The verdict on a buffer.

  datatype RtuRead =
    | Frame(packet: RtuPacket, length: nat)
    | Incomplete(wanted: nat)
    | Rejected
    | Unsizable

  function ReadRtuFrame(side: Side, stream: bytes): (r: RtuRead)
    ensures r.Frame? ==> MIN_RTU_FRAME <= r.length <= |stream|
    ensures r.Incomplete? ==> r.wanted > 0
    ensures !r.Incomplete? ==> |stream| >= MIN_RTU_FRAME
  {
    if |stream| < MIN_RTU_FRAME then Incomplete(MIN_RTU_FRAME - |stream|)
    else
      var prefix := stream[1..];
      match ExpectedSize(ClassOf(side, prefix[0]), prefix)
      case NoSize => Unsizable
      case Short => Incomplete(1)
      case Size(size) =>
        var end := 1 + size + CRC_SIZE;
        if |stream| < end then Incomplete(end - |stream|)
        else
          match DeserializeRtu(stream[..end], true)
          case None => Rejected
          case Some(packet) => Frame(packet, end)
  }

  /** A frame that checks and is as long as its content says. */
  predicate SizableFrame(side: Side, frame: bytes) {
    && Accepts(frame)
    && ExpectedSize(ClassOf(side, frame[1]), frame[1..]) == Size(|frame| - 1 - CRC_SIZE)
  }

  /** A size once stated is not changed by what follows it, nor by cutting what lies beyond it. */
  lemma {:induction false} SizeStable(cls: PduClass, prefix: bytes, more: bytes)
    ensures !ExpectedSize(cls, prefix).Short? ==> ExpectedSize(cls, prefix + more) == ExpectedSize(cls, prefix)
    ensures ExpectedSize(cls, prefix + more).Size? && ExpectedSize(cls, prefix + more).bytes <= |prefix|
      ==> ExpectedSize(cls, prefix) == ExpectedSize(cls, prefix + more)
  {
  }

  /** A decided verdict is final. */
  lemma {:induction false} VerdictStable(side: Side, stream: bytes, more: bytes)
    requires !ReadRtuFrame(side, stream).Incomplete?
    ensures ReadRtuFrame(side, stream + more) == ReadRtuFrame(side, stream)
  {
    var cls := ClassOf(side, stream[1]);
    assert (stream + more)[1..] == stream[1..] + more;
    SizeStable(cls, stream[1..], more);
    if ExpectedSize(cls, stream[1..]).Size? {
      var end := 1 + ExpectedSize(cls, stream[1..]).bytes + CRC_SIZE;
      assert (stream + more)[..end] == stream[..end];
    }
  }

  /** Fewer bytes than were wanted decide nothing, and the rest of them are still wanted. */
  lemma {:induction false} WantedIsTight(side: Side, stream: bytes, more: bytes)
    requires ReadRtuFrame(side, stream).Incomplete?
    requires |more| < ReadRtuFrame(side, stream).wanted
    ensures ReadRtuFrame(side, stream + more) == Incomplete(ReadRtuFrame(side, stream).wanted - |more|)
  {
    if |stream| >= MIN_RTU_FRAME {
      assert (stream + more)[1..] == stream[1..] + more;
      SizeStable(ClassOf(side, stream[1]), stream[1..], more);
      if more == [] {
        assert stream + more == stream;
      }
    }
  }

  /** A frame is read exactly where a sizable frame starts, and it is that frame. */
  lemma {:induction false} ReadsSizableFrame(side: Side, frame: bytes, more: bytes)
    requires SizableFrame(side, frame)
    ensures ReadRtuFrame(side, frame + more) == Frame(Packet(frame), |frame|)
  {
    AcceptsIffReproduced(frame);
    assert frame[..|frame|] == frame;
    assert ReadRtuFrame(side, frame) == Frame(Packet(frame), |frame|);
    VerdictStable(side, frame, more);
  }

  lemma {:induction false} ReadFrameIsSizable(side: Side, stream: bytes)
    requires ReadRtuFrame(side, stream).Frame?
    ensures var r := ReadRtuFrame(side, stream);
      SizableFrame(side, stream[..r.length]) && r.packet == Packet(stream[..r.length])
  {
    var n := ReadRtuFrame(side, stream).length;
    AcceptsIffReproduced(stream[..n]);
    assert stream[..n][1..] + stream[n..] == stream[1..];
    SizeStable(ClassOf(side, stream[1]), stream[..n][1..], stream[n..]);
  }

  /** Every PDU that states its size makes a frame the reader finds. */
  lemma {:induction false} StatedSizeMakesFrame(side: Side, slaveId: int, pdu: Pdu)
    requires WellFormed(pdu) && SerializeRtu(slaveId, pdu).Some?
    requires Travels(side, pdu) && StatesItsSize(pdu)
    ensures SizableFrame(side, SerializeRtu(slaveId, pdu).value)
  {
    var frame, body := SerializeRtu(slaveId, pdu).value, Serialize(pdu).value;
    SerializedCode(pdu);
    SizedIffStated(pdu, frame[1 + |body|..]);
    assert frame[1..] == body + frame[1 + |body|..];
    assert frame[..|frame| - CRC_SIZE] == [slaveId] + body;
    var n := |frame| - CRC_SIZE;
    WireRoundTrip(Crc16([slaveId] + body), frame[n], frame[n + 1]);
    assert frame[n..] == Wire(Crc16([slaveId] + body));
  }

  /** The largest frame either side can size: FC23 requests and byte-counted responses. */
  function LargestFrame(side: Side): nat {
    if side == Request then 268 else 260
  }

  lemma {:induction false} IncompleteIsSmall(side: Side, stream: bytes)
    requires ReadRtuFrame(side, stream).Incomplete?
    ensures |stream| < LargestFrame(side)
  {
    if |stream| >= MIN_RTU_FRAME {
      HeadSizes(ClassOf(side, stream[1]));
    }
  }

  /**
   The sized path has no limit of its own. A frame read is longer than the 256 bytes of a
   serial-line ADU exactly when its layout counts its payload and the count byte says more than fits,
   with the head, into the 253 bytes a serial line leaves for a PDU.
   */
  lemma {:induction false} SizedFrameMayExceedLimit(side: Side, stream: bytes)
    requires ReadRtuFrame(side, stream).Frame?
    ensures var cls := ClassOf(side, stream[1]);
      && (LayoutOf(cls).counted ==> HeadSize(cls) < |stream|)
      && (ReadRtuFrame(side, stream).length > MAX_RTU_FRAME <==>
        LayoutOf(cls).counted && stream[HeadSize(cls)] > 253 - HeadSize(cls))
  {
    hide Accepts, DeserializeRtu;
    HeadSizes(ClassOf(side, stream[1]));
  }

  /** A write of 2040 coils, whose count byte is as large as a byte goes, makes such a frame. */
  lemma {:induction false} LongFrameExists() returns (pdu: Pdu, frame: bytes)
    ensures WellFormed(pdu) && SerializeRtu(1, pdu) == Some(frame)
    ensures pdu.cls == Shipped(Request, 15) && pdu.fields == [0, 2040, 255]
    ensures |frame| == 264 && ReadRtuFrame(Request, frame) == Frame(Packet(frame), 264)
  {
    pdu := Pdu(Shipped(Request, 15), 15, [0, 2040, 255], seq(255, _ => 0));
    assert LayoutOf(pdu.cls) == Counted([H, H, B], B);
    assert CalcSize([H, H, B]) == 5;
    SerializesIff(pdu);
    SerializedSize(pdu);
    frame := SerializeRtu(1, pdu).value;
    StatedSizeMakesFrame(Request, 1, pdu);
    ReadsSizableFrame(Request, frame, []);
    assert frame + [] == frame;
  }
}
