/**
 The PDU classes of src/pyomb/pdu: one layout per registered class, and the sizing,
 packing and parsing that every class derives from its layout.
 */
module Pdu {
  import opened Bytes
  import opened Struct

  datatype Side = Request | Response

  // The base class, the exception response, and the classes the library registers.
  datatype PduClass = Generic | Exception | Shipped(side: Side, code: int)

  // Every one of these is registered in both directions.
  const REGISTERED: set<int> := {1, 2, 3, 4, 5, 6, 7, 8, 15, 16, 22, 23, 43}

  const ERROR_MASK := 0x80

  predicate Known(cls: PduClass) {
    cls.Shipped? ==> cls.code in REGISTERED
  }

  function Registry(side: Side, code: int): PduClass {
    if code in REGISTERED then Shipped(side, code) else Generic
  }

  /** The class behind a function code, by the direction it travels. */
  function ClassOf(side: Side, funcCode: byte): (cls: PduClass)
    ensures Known(cls)
  {
    if side == Response && funcCode >= ERROR_MASK then Exception else Registry(side, funcCode)
  }

  // What follows the function code: named fields, then perhaps a sequence. Where the
  // layout counts, the last field counts the bytes of that sequence.
  datatype Layout = Layout(head: seq<Code>, tail: Option<Code>, counted: bool)

  function Fixed(head: seq<Code>): Layout {
    Layout(head, None, false)
  }

  function Counted(head: seq<Code>, tail: Code): Layout {
    Layout(head, Some(tail), true)
  }

  function Open(head: seq<Code>, tail: Code): Layout {
    Layout(head, Some(tail), false)
  }

  function LayoutOf(cls: PduClass): (layout: Layout)
    ensures layout.counted ==> layout.tail.Some? && layout.head != [] && layout.head[|layout.head| - 1] == B
  {
    match cls
    case Generic => Open([], B)
    case Exception => Fixed([B])
    case Shipped(Request, code) =>
      if code == 7 then Fixed([])
      else if code == 8 then Open([H], H)
      else if code == 15 then Counted([H, H, B], B)
      else if code == 16 then Counted([H, H, B], H)
      else if code == 22 then Fixed([H, H, H])
      else if code == 23 then Counted([H, H, H, H, B], H)
      else if code == 43 then Open([B], B)
      else Fixed([H, H])
    case Shipped(Response, code) =>
      if code in {1, 2} then Counted([B], B)
      else if code in {3, 4, 23} then Counted([B], H)
      else if code == 7 then Fixed([B])
      else if code == 8 then Open([H], H)
      else if code == 22 then Fixed([H, H, H])
      else if code == 43 then Open([B], B)
      else Fixed([H, H])
  }

  function HeadSize(cls: PduClass): nat {
    1 + CalcSize(LayoutOf(cls).head)
  }

  function TailWidth(cls: PduClass): nat {
    match LayoutOf(cls).tail
    case Some(code) => Width(code)
    case None => 0
  }

  /** The format string with `n` written into its placeholder. */
  function Format(cls: PduClass, n: nat): seq<Code> {
    var layout := LayoutOf(cls);
    [B] + layout.head + (if layout.tail.Some? then Copies(layout.tail.value, n) else [])
  }

  lemma {:induction false} FormatSize(cls: PduClass, n: nat)
    ensures CalcSize(Format(cls, n)) == HeadSize(cls) + n * TailWidth(cls)
  {
    hide LayoutOf;
    var layout := LayoutOf(cls);
    CalcSizeAppend([B], layout.head);
    if layout.tail.Some? {
      CalcSizeCopies(layout.tail.value, n);
      CalcSizeAppend([B] + layout.head, Copies(layout.tail.value, n));
    } else {
      assert Format(cls, n) == [B] + layout.head;
    }
  }

  // Sizing a PDU that has only begun to arrive.

  datatype Sizing = Size(bytes: nat) | Short | NoSize

  const DIAGNOSTICS := 8

  const DIAGNOSTIC_SUB_FUNCTIONS: set<int> :=
    {0x00, 0x01, 0x02, 0x03, 0x04, 0x0A, 0x0B, 0x0C, 0x0D, 0x0E, 0x0F, 0x10, 0x11, 0x12, 0x14}

  const DIAGNOSTIC_ECHO_SUB_FUNCTION := 0x0000

  // A function code, a sub-function and one data word.
  const DIAGNOSTIC_SIZE := 5

  function DiagnosticSize(prefix: bytes): Sizing {
    if |prefix| < 3 then Short
    else
      var subFunction := Word(prefix[1], prefix[2]);
      if subFunction == DIAGNOSTIC_ECHO_SUB_FUNCTION then NoSize
      else if subFunction !in DIAGNOSTIC_SUB_FUNCTIONS then NoSize
      else Size(DIAGNOSTIC_SIZE)
  }

  /** The size of the PDU that `prefix` begins: Short is None, NoSize the packet error. */
  function ExpectedSize(cls: PduClass, prefix: bytes): Sizing {
    if cls.Shipped? && cls.code == DIAGNOSTICS then DiagnosticSize(prefix)
    else
      var layout := LayoutOf(cls);
      if layout.tail.None? then Size(HeadSize(cls))
      else if !layout.counted then NoSize
      else if |prefix| < HeadSize(cls) then Short
      else Size(HeadSize(cls) + prefix[HeadSize(cls) - 1])
  }

  // Values.

  datatype Pdu = Pdu(cls: PduClass, fc: int, fields: seq<int>, tail: seq<int>)

  /** The shape every constructor gives. */
  predicate WellFormed(p: Pdu) {
    && Known(p.cls)
    && |p.fields| == |LayoutOf(p.cls).head|
    && (LayoutOf(p.cls).tail.None? ==> p.tail == [])
    && (p.cls.Shipped? ==> p.fc == p.cls.code)
  }

  /** FC1 and FC2 responses write their byte count into the format, every other class its length. */
  predicate FormatsByCount(cls: PduClass) {
    cls.Shipped? && cls.side == Response && cls.code in {1, 2}
  }

  function TailCount(p: Pdu): int
    requires WellFormed(p)
  {
    if FormatsByCount(p.cls) then p.fields[0] else |p.tail|
  }

  /** __len__ */
  function Len(p: Pdu): int
    requires WellFormed(p)
  {
    HeadSize(p.cls) + TailCount(p) * TailWidth(p.cls)
  }

  function WireCode(p: Pdu): int {
    if p.cls == Exception then p.fc + ERROR_MASK else p.fc
  }

  function Values(p: Pdu): seq<int> {
    [WireCode(p)] + p.fields + p.tail
  }

  /** None is ModbusPacketError. */
  function Serialize(p: Pdu): Option<bytes>
    requires WellFormed(p)
  {
    if TailCount(p) < 0 then None else Pack(Format(p.cls, TailCount(p)), Values(p))
  }

  /** How many items a stream leaves for the tail; negative where it cannot hold the head. */
  function ItemsIn(cls: PduClass, stream: bytes): int {
    if TailWidth(cls) == 0 then 0 else (|stream| - HeadSize(cls)) / TailWidth(cls)
  }

  function Deserialize(cls: PduClass, stream: bytes): (r: Option<Pdu>)
    requires Known(cls)
    ensures r.Some? ==> WellFormed(r.value) && r.value.cls == cls
  {
    if ItemsIn(cls, stream) < 0 then None
    else
      match Unpack(Format(cls, ItemsIn(cls, stream)), stream)
      case None => None
      case Some(values) =>
        var k := 1 + |LayoutOf(cls).head|;
        var fc := match cls
                  case Generic => values[0]
                  case Exception => values[0] - ERROR_MASK
                  case Shipped(_, code) => code;
        Some(Pdu(cls, fc, values[1..k], values[k..]))
  }

  /** parse_request and parse_response. */
  function Parse(side: Side, stream: bytes): (r: Option<Pdu>)
    ensures r.Some? ==> WellFormed(r.value)
  {
    if stream == [] then None else Deserialize(ClassOf(side, stream[0]), stream)
  }
}
