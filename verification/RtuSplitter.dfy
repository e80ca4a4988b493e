/** ModbusRtuSplitter of src/pyomb/transport/rtu.py: cutting frames out of pushed bytes. */
module RtuSplitter {
  import opened Bytes
  import opened Crc
  import opened Pdu
  import opened PduLaws
  import opened Rtu

  // What becomes of the bytes that leave the buffer, in order.
  datatype Item = Got(packet: RtuPacket) | Lost(noise: byte)

  datatype Drained = Drained(trace: seq<Item>, rest: bytes)

  /** Everything a buffer holds that can be decided, and what is left over. */
  function Drain(side: Side, buffer: bytes): Drained
    decreases |buffer|
  {
    var read := ReadRtuFrame(side, buffer);
    if read.Incomplete? then Drained([], buffer)
    else if read.Frame? then Then([Got(read.packet)], Drain(side, buffer[read.length..]))
    else Then([Lost(buffer[0])], Drain(side, buffer[1..]))
  }

  function Then(first: seq<Item>, later: Drained): Drained {
    Drained(first + later.trace, later.rest)
  }

  function Packets(trace: seq<Item>): seq<RtuPacket> {
    if trace == [] then []
    else (if trace[0].Got? then [trace[0].packet] else []) + Packets(trace[1..])
  }

  /** How many bytes were discarded. */
  function Losses(trace: seq<Item>): nat {
    if trace == [] then 0 else (if trace[0].Lost? then 1 else 0) + Losses(trace[1..])
  }

  lemma {:induction false} TraceAppend(a: seq<Item>, b: seq<Item>)
    ensures Packets(a + b) == Packets(a) + Packets(b)
    ensures Losses(a + b) == Losses(a) + Losses(b)
  {
    if a == [] {
      assert a + b == b;
    } else {
      var first := if a[0].Got? then [a[0].packet] else [];
      assert (a + b)[1..] == a[1..] + b;
      TraceAppend(a[1..], b);
      assert first + (Packets(a[1..]) + Packets(b)) == first + Packets(a[1..]) + Packets(b);
    }
  }

  lemma {:induction false} ThenAssociates(a: seq<Item>, b: seq<Item>, d: Drained)
    ensures Then(a, Then(b, d)) == Then(a + b, d)
    ensures Then([], d) == d
  {
    assert a + (b + d.trace) == a + b + d.trace;
  }

  lemma {:induction false} DrainStops(side: Side, buffer: bytes)
    ensures ReadRtuFrame(side, Drain(side, buffer).rest).Incomplete?
    ensures |Drain(side, buffer).rest| < LargestFrame(side)
    decreases |buffer|
  {
    hide ReadRtuFrame;
    var read := ReadRtuFrame(side, buffer);
    if read.Incomplete? {
      IncompleteIsSmall(side, buffer);
    } else {
      DrainStops(side, if read.Frame? then buffer[read.length..] else buffer[1..]);
    }
  }

  // Chunking.

  /** Bytes that arrive later never change what was already decided. */
  lemma {:induction false} DrainInTwo(side: Side, early: bytes, late: bytes)
    ensures var d := Drain(side, early); Drain(side, early + late) == Then(d.trace, Drain(side, d.rest + late))
    decreases |early|
  {
    hide ReadRtuFrame;
    var read := ReadRtuFrame(side, early);
    ThenAssociates([], [], Drain(side, early + late));
    if !read.Incomplete? {
      VerdictStable(side, early, late);
      var n := if read.Frame? then read.length else 1;
      var item := if read.Frame? then Got(read.packet) else Lost(early[0]);
      DrainInTwo(side, early[n..], late);
      assert (early + late)[n..] == early[n..] + late;
      var tail := Drain(side, early[n..]);
      ThenAssociates([item], tail.trace, Drain(side, tail.rest + late));
    }
  }

  // What a splitter's caller sees.
  datatype View = View(found: seq<RtuPacket>, pending: bytes, resyncs: nat)

  /** One push: the frames it returns, the bytes then held, the discards counted so far. */
  function Pushed(side: Side, held: bytes, resyncs: nat, data: bytes): View {
    var d := Drain(side, held + data);
    View(Packets(d.trace), d.rest, resyncs + Losses(d.trace))
  }

  /** A run of pushes, the frames of all of them in one sequence. */
  function PushAll(side: Side, held: bytes, resyncs: nat, chunks: seq<bytes>): View
    decreases |chunks|
  {
    if chunks == [] then View([], held, resyncs)
    else
      var first := Pushed(side, held, resyncs, chunks[0]);
      var later := PushAll(side, first.pending, first.resyncs, chunks[1..]);
      View(first.found + later.found, later.pending, later.resyncs)
  }

  /** Pushing piece by piece is pushing the whole at once. */
  lemma {:induction false} ChunksAreOnePush(side: Side, held: bytes, resyncs: nat, chunks: seq<bytes>)
    requires ReadRtuFrame(side, held).Incomplete?
    ensures PushAll(side, held, resyncs, chunks) == Pushed(side, held, resyncs, Join(chunks))
    decreases |chunks|
  {
    hide ReadRtuFrame;
    if chunks == [] {
      assert held + Join(chunks) == held;
    } else {
      var d := Drain(side, held + chunks[0]);
      DrainStops(side, held + chunks[0]);
      ChunksAreOnePush(side, d.rest, resyncs + Losses(d.trace), chunks[1..]);
      DrainInTwo(side, held + chunks[0], Join(chunks[1..]));
      assert held + chunks[0] + Join(chunks[1..]) == held + Join(chunks);
      TraceAppend(d.trace, Drain(side, d.rest + Join(chunks[1..])).trace);
    }
  }

  /** However the same bytes are cut, the frames, the bytes pending and the discards are the same. */
  lemma {:induction false} ChunkingIndependence(side: Side, one: seq<bytes>, other: seq<bytes>)
    requires Join(one) == Join(other)
    ensures PushAll(side, [], 0, one) == PushAll(side, [], 0, other)
  {
    ChunksAreOnePush(side, [], 0, one);
    ChunksAreOnePush(side, [], 0, other);
  }

  // Conservation.

  /**
   `buffer` is made of the bytes the trace accounts for, in order, and then `rest`: frames
   as they serialize, discards as they came.
   */
  predicate Spells(trace: seq<Item>, rest: bytes, buffer: bytes) {
    if trace == [] then buffer == rest
    else
      match SpellOne(trace[0])
      case Some(first) => first <= buffer && Spells(trace[1..], rest, buffer[|first|..])
      case None => false
  }

  function SpellOne(item: Item): Option<bytes> {
    match item
    case Lost(noise) => Some([noise])
    case Got(packet) => if WellFormed(packet.pdu) then SerializeRtu(packet.slaveId, packet.pdu) else None
  }

  /** What leaves the front of a buffer spells exactly the bytes that left. */
  lemma {:induction false} StepConserves(side: Side, buffer: bytes)
    requires !ReadRtuFrame(side, buffer).Incomplete?
    ensures var read := ReadRtuFrame(side, buffer);
      if read.Frame? then SpellOne(Got(read.packet)) == Some(buffer[..read.length])
      else SpellOne(Lost(buffer[0])) == Some(buffer[..1])
  {
    if ReadRtuFrame(side, buffer).Frame? {
      ReadFrameIsSizable(side, buffer);
    } else {
      assert buffer[..1] == [buffer[0]];
    }
  }

  /** No byte is invented, altered, reordered or dropped uncounted. */
  lemma {:induction false} DrainConserves(side: Side, buffer: bytes)
    ensures Spells(Drain(side, buffer).trace, Drain(side, buffer).rest, buffer)
    decreases |buffer|
  {
    hide ReadRtuFrame, SpellOne;
    var read := ReadRtuFrame(side, buffer);
    if !read.Incomplete? {
      StepConserves(side, buffer);
      var n := if read.Frame? then read.length else 1;
      DrainConserves(side, buffer[n..]);
      assert Drain(side, buffer).trace[1..] == Drain(side, buffer[n..]).trace;
    }
  }

  function FrameBytes(packets: seq<RtuPacket>): nat {
    if packets == [] then 0
    else (match SpellOne(Got(packets[0])) case Some(frame) => |frame| case None => 0) + FrameBytes(packets[1..])
  }

  lemma {:induction false} SpellLength(trace: seq<Item>, rest: bytes, buffer: bytes)
    requires Spells(trace, rest, buffer)
    ensures |buffer| == FrameBytes(Packets(trace)) + Losses(trace) + |rest|
  {
    hide SpellOne;
    if trace != [] {
      SpellLength(trace[1..], rest, buffer[|SpellOne(trace[0]).value|..]);
      if trace[0].Got? {
        assert Packets(trace)[1..] == Packets(trace[1..]);
      } else {
        LostByteIsOneByte(trace[0]);
        assert Packets(trace) == Packets(trace[1..]);
      }
    }
  }

  lemma {:induction false} LostByteIsOneByte(item: Item)
    requires item.Lost?
    ensures SpellOne(item) == Some([item.noise])
  {
  }

  /** The bytes pushed are the frames returned, the bytes discarded and the bytes pending. */
  lemma {:induction false} PushAccounting(side: Side, chunks: seq<bytes>)
    ensures var v := PushAll(side, [], 0, chunks);
      |Join(chunks)| == FrameBytes(v.found) + v.resyncs + |v.pending|
  {
    hide ReadRtuFrame, SpellOne;
    var d := Drain(side, Join(chunks));
    ChunksAreOnePush(side, [], 0, chunks);
    assert [] + Join(chunks) == Join(chunks);
    DrainConserves(side, Join(chunks));
    SpellLength(d.trace, d.rest, Join(chunks));
  }

  // Completeness.

  predicate AllSizable(side: Side, frames: seq<bytes>) {
    forall i :: 0 <= i < |frames| ==> SizableFrame(side, frames[i])
  }

  function PacketsOf(side: Side, frames: seq<bytes>): seq<RtuPacket>
    requires AllSizable(side, frames)
  {
    if frames == [] then [] else [Packet(frames[0])] + PacketsOf(side, frames[1..])
  }

  lemma {:induction false} DrainsWholeFrames(side: Side, frames: seq<bytes>)
    requires AllSizable(side, frames)
    ensures var d := Drain(side, Join(frames));
      Packets(d.trace) == PacketsOf(side, frames) && Losses(d.trace) == 0 && d.rest == []
    decreases |frames|
  {
    hide ReadRtuFrame;
    if frames != [] {
      var first, later := frames[0], Join(frames[1..]);
      ReadsSizableFrame(side, first, later);
      assert Join(frames)[|first|..] == later;
      DrainsWholeFrames(side, frames[1..]);
      TraceAppend([Got(Packet(first))], Drain(side, later).trace);
      assert Packets([Got(Packet(first))]) == [Packet(first)];
    }
  }

  /** Whole frames, however cut, all come back: in order, none lost, nothing pending. */
  lemma {:induction false} SplitterComplete(side: Side, frames: seq<bytes>, chunks: seq<bytes>)
    requires AllSizable(side, frames)
    requires Join(chunks) == Join(frames)
    ensures PushAll(side, [], 0, chunks) == View(PacketsOf(side, frames), [], 0)
  {
    ChunksAreOnePush(side, [], 0, chunks);
    assert [] + Join(chunks) == Join(frames);
    DrainsWholeFrames(side, frames);
  }

  // A message, and the frame it goes out as.
  datatype Sent = Sent(slaveId: int, pdu: Pdu)

  predicate Sendable(side: Side, m: Sent) {
    && WellFormed(m.pdu) && SerializeRtu(m.slaveId, m.pdu).Some?
    && Travels(side, m.pdu) && StatesItsSize(m.pdu)
  }

  function FrameOf(side: Side, m: Sent): bytes
    requires Sendable(side, m)
  {
    SerializeRtu(m.slaveId, m.pdu).value
  }

  function FramesOf(side: Side, messages: seq<Sent>): (frames: seq<bytes>)
    requires forall i :: 0 <= i < |messages| ==> Sendable(side, messages[i])
    ensures |frames| == |messages|
    ensures forall i :: 0 <= i < |messages| ==> frames[i] == FrameOf(side, messages[i])
  {
    seq(|messages|, i requires 0 <= i < |messages| => FrameOf(side, messages[i]))
  }

  /** What a packet off the line says: its slave, and the PDU its bytes parse to. */
  predicate Says(side: Side, packet: RtuPacket, m: Sent) {
    && packet.slaveId == m.slaveId
    && WellFormed(packet.pdu)
    && match Serialize(packet.pdu)
       case Some(body) => Parse(side, body) == Some(m.pdu)
       case None => false
  }

  lemma {:induction false} PacketSays(side: Side, m: Sent)
    requires Sendable(side, m)
    ensures SizableFrame(side, FrameOf(side, m)) && Accepts(FrameOf(side, m))
    ensures Says(side, Packet(FrameOf(side, m)), m)
  {
    var frame, body := FrameOf(side, m), Serialize(m.pdu).value;
    StatedSizeMakesFrame(side, m.slaveId, m.pdu);
    AcceptsIffReproduced(frame);
    SerializedCode(m.pdu);
    assert frame[0] == m.slaveId && frame[1..|frame| - 2] == body;
    GenericReadsAnything(body);
    PrintThenParse(side, m.pdu);
  }

  lemma {:induction false} PacketsOfAt(side: Side, frames: seq<bytes>, i: nat)
    requires AllSizable(side, frames) && i < |frames|
    ensures |PacketsOf(side, frames)| == |frames| && PacketsOf(side, frames)[i] == Packet(frames[i])
    decreases |frames|
  {
    hide Packet, SizableFrame;
    if i > 0 {
      PacketsOfAt(side, frames[1..], i - 1);
    } else if |frames| > 1 {
      PacketsOfAt(side, frames[1..], 0);
    }
  }

  /** Messages sent back to back and cut anywhere arrive as themselves. */
  lemma {:induction false} MessagesArrive(side: Side, messages: seq<Sent>, chunks: seq<bytes>)
    requires forall i :: 0 <= i < |messages| ==> Sendable(side, messages[i])
    requires Join(chunks) == Join(FramesOf(side, messages))
    ensures var v := PushAll(side, [], 0, chunks);
      && v.pending == [] && v.resyncs == 0 && |v.found| == |messages|
      && forall i :: 0 <= i < |messages| ==> Says(side, v.found[i], messages[i])
  {
    hide Sendable, SizableFrame, Says, Packet, FrameOf, PushAll;
    var frames := FramesOf(side, messages);
    forall i | 0 <= i < |messages|
      ensures SizableFrame(side, frames[i])
      ensures Accepts(frames[i]) && Says(side, Packet(frames[i]), messages[i])
    {
      PacketSays(side, messages[i]);
    }
    SplitterComplete(side, frames, chunks);
    forall i | 0 <= i < |messages|
      ensures |PacketsOf(side, frames)| == |messages| && Says(side, PacketsOf(side, frames)[i], messages[i])
    {
      PacketsOfAt(side, frames, i);
    }
    assert messages == [] ==> PacketsOf(side, frames) == [];
  }

  class ModbusRtuSplitter {
    const side: Side
    var buffer: bytes
    var resyncs: nat

    // Every byte pushed since construction or reset, and what became of those that left.
    ghost var pushed: bytes
    ghost var trace: seq<Item>

    /** What has been decided and what the buffer still decides make up what was pushed. */
    ghost predicate Consistent()
      reads this
    {
      && Drain(side, pushed) == Then(trace, Drain(side, buffer))
      && resyncs == Losses(trace)
    }

    ghost predicate Valid()
      reads this
    {
      Consistent() && ReadRtuFrame(side, buffer).Incomplete?
    }

    constructor (side: Side)
      ensures Valid()
      ensures this.side == side && buffer == [] && resyncs == 0 && pushed == [] && trace == []
    {
      this.side := side;
      buffer, resyncs := [], 0;
      pushed, trace := [], [];
    }

    method Reset()
      modifies this
      ensures Valid()
      ensures buffer == [] && resyncs == 0 && pushed == [] && trace == []
    {
      buffer, resyncs := [], 0;
      pushed, trace := [], [];
    }

    method Push(data: bytes) returns (found: seq<RtuPacket>)
      requires Valid()
      modifies this
      ensures Valid()
      ensures pushed == old(pushed) + data
      ensures View(found, buffer, resyncs) == Pushed(side, old(buffer), old(resyncs), data)
      ensures Packets(trace) == old(Packets(trace)) + found
    {
      hide ReadRtuFrame;
      DrainInTwo(side, pushed, data);
      buffer := buffer + data;
      pushed := pushed + data;
      found := [];
      var packet := Take();
      while packet.Some?
        invariant Consistent() && pushed == old(pushed) + data
        invariant packet.None? ==> Valid()
        invariant Packets(trace) == old(Packets(trace)) + found + (if packet.Some? then [packet.value] else [])
        decreases |buffer|, packet.Some?
      {
        found := found + [packet.value];
        packet := Take();
      }
      ghost var d := Drain(side, old(buffer) + data);
      assert trace == old(trace) + d.trace && buffer == d.rest;
      TraceAppend(old(trace), d.trace);
      assert found == Packets(trace)[|old(Packets(trace))|..];
    }

    method Discard()
      requires buffer != []
      modifies this
      ensures buffer == old(buffer)[1..] && resyncs == old(resyncs) + 1
      ensures trace == old(trace) + [Lost(old(buffer)[0])] && pushed == old(pushed)
    {
      trace := trace + [Lost(buffer[0])];
      buffer := buffer[1..];
      resyncs := resyncs + 1;
    }

    method Take() returns (packet: Option<RtuPacket>)
      requires Consistent()
      modifies this
      ensures Consistent() && pushed == old(pushed) && |buffer| <= old(|buffer|)
      ensures packet.None? ==> Valid() && Packets(trace) == old(Packets(trace))
      ensures packet.Some? ==> |buffer| < old(|buffer|) && Packets(trace) == old(Packets(trace)) + [packet.value]
    {
      hide ReadRtuFrame;
      while |buffer| >= MIN_RTU_FRAME
        invariant Consistent() && pushed == old(pushed) && |buffer| <= old(|buffer|)
        invariant Packets(trace) == old(Packets(trace))
        decreases |buffer|
      {
        var read := ReadRtuFrame(side, buffer);
        if read.Frame? {
          TraceAppend(trace, [Got(read.packet)]);
          trace := trace + [Got(read.packet)];
          buffer := buffer[read.length..];
          return Some(read.packet);
        }
        if read.Incomplete? {
          return None;
        }
        TraceAppend(trace, [Lost(buffer[0])]);
        Discard();
      }
      return None;
    }
  }
}
