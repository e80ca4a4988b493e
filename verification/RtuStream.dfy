/** ModbusRtuStream of src/pyomb/transport/rtu.py: receiving frames from a port. */
module RtuStream {
  import opened Bytes
  import opened Crc
  import opened Pdu
  import opened Rtu

  /**
   A port the caller opened. `inbox` is what arrives before the line next goes quiet; a
   read takes any part of it that fits, and comes back empty only on silence.
   */
  class Port {
    var inbox: bytes

    constructor (inbox: bytes)
      ensures this.inbox == inbox
    {
      this.inbox := inbox;
    }

    method Read(size: nat) returns (chunk: bytes)
      requires size > 0
      modifies this
      ensures |chunk| <= size && |chunk| <= |old(inbox)|
      ensures chunk == old(inbox)[..|chunk|] && inbox == old(inbox)[|chunk|..]
      ensures chunk == [] <==> old(inbox) == []
    {
      if inbox == [] {
        return [];
      }
      var n :| 0 < n <= size && n <= |inbox|;
      chunk := inbox[..n];
      inbox := inbox[n..];
    }
  }

  // Receiving as a function of what is held and what arrives before the silence.

  // How the search for a frame at the head ends.
  datatype Search =
    | Head(length: nat, held: bytes, unread: bytes, dropped: nat)
    | Unsized(held: bytes, unread: bytes)
    | Quiet(held: bytes, dropped: nat)

  /** The loop of receive(), with the bytes arriving one at a time. */
  function Seek(side: Side, held: bytes, inbox: bytes, noise: nat): (s: Search)
    ensures s.Head? ==> 0 < s.length <= |s.held|
    ensures s.Head? ==> s.dropped + |s.held| + |s.unread| == noise + |held| + |inbox|
    decreases 2 * |inbox| + |held|
  {
    var read := ReadRtuFrame(side, held);
    if read.Frame? then Head(read.length, held, inbox, noise)
    else if read.Unsizable? && noise == 0 then Unsized(held, inbox)
    else if !read.Incomplete? then Seek(side, held[1..], inbox, noise + 1)
    else if inbox == [] then Quiet(held, noise)
    else Seek(side, held + inbox[..1], inbox[1..], noise)
  }

  /** The smallest offset at which a frame can be read. */
  function FirstFrame(side: Side, held: bytes): (at: Option<nat>)
    ensures at.Some? ==> at.value <= |held| && ReadRtuFrame(side, held[at.value..]).Frame?
    decreases |held|
  {
    if |held| < MIN_RTU_FRAME then None
    else if ReadRtuFrame(side, held).Frame? then
      assert held[0..] == held;
      Some(0)
    else
      match FirstFrame(side, held[1..])
      case Some(at) =>
        assert held[1..][at..] == held[1 + at..];
        Some(1 + at)
      case None => None
  }

  datatype Outcome = Returned(frame: bytes) | TimedOut | BadPacket

  datatype Received = Received(outcome: Outcome, held: bytes, unread: bytes, dropped: nat)

  function AfterSilence(side: Side, held: bytes, unread: bytes, dropped: nat): Received {
    if held == [] then Received(TimedOut, held, unread, dropped)
    else
      match FirstFrame(side, held)
      case Some(at) =>
        var n := ReadRtuFrame(side, held[at..]).length;
        Received(Returned(held[at..at + n]), held[at + n..], unread, dropped + at)
      case None => Received(BadPacket, [], unread, dropped + |held| - Uncounted(held))
  }

  /** The tail too short to be read, which a packet error clears without counting. */
  function Uncounted(held: bytes): (n: nat)
    ensures n <= |held| && n < MIN_RTU_FRAME
  {
    if |held| < MIN_RTU_FRAME then |held| else MIN_RTU_FRAME - 1
  }

  /** How many more bytes are read when a frame ends only with silence. */
  function Room(held: bytes, unread: bytes): (n: nat)
    ensures n <= |unread|
  {
    if |held| >= MAX_RTU_FRAME then 0
    else if |unread| < MAX_RTU_FRAME - |held| then |unread|
    else MAX_RTU_FRAME - |held|
  }

  function BySilence(side: Side, held: bytes, unread: bytes): Received {
    var n := Room(held, unread);
    var whole := held + unread[..n];
    if Accepts(whole) then Received(Returned(whole), [], unread[n..], 0)
    else AfterSilence(side, whole, unread[n..], 0)
  }

  function Reception(side: Side, held: bytes, inbox: bytes): Received {
    match Seek(side, held, inbox, 0)
    case Head(n, now, unread, dropped) => Received(Returned(now[..n]), now[n..], unread, dropped)
    case Unsized(now, unread) => BySilence(side, now, unread)
    case Quiet(now, dropped) => AfterSilence(side, now, [], dropped)
  }

  /** How the bytes a verdict wants are cut into reads makes no difference. */
  lemma {:induction false} SeekAcrossRead(side: Side, held: bytes, inbox: bytes, noise: nat, k: nat)
    requires ReadRtuFrame(side, held).Incomplete?
    requires k <= ReadRtuFrame(side, held).wanted && k <= |inbox|
    ensures Seek(side, held, inbox, noise) == Seek(side, held + inbox[..k], inbox[k..], noise)
    decreases k
  {
    hide ReadRtuFrame;
    if k == 0 {
      assert held + inbox[..0] == held;
    } else {
      var next := held + inbox[..1];
      if k > 1 {
        WantedIsTight(side, held, inbox[..1]);
        SeekAcrossRead(side, next, inbox[1..], noise, k - 1);
      } else {
        assert next + inbox[1..][..0] == next;
      }
      assert next + inbox[1..][..k - 1] == held + inbox[..k];
      assert inbox[1..][k - 1..] == inbox[k..];
    }
  }

  /** What one turn of the loop that looks for a frame after silence settles. */
  lemma {:induction false} AfterSilenceStep(side: Side, held: bytes, unread: bytes, dropped: nat)
    requires held != []
    ensures AfterSilence(side, held, unread, dropped) ==
      var read := ReadRtuFrame(side, held);
      if |held| < MIN_RTU_FRAME then Received(BadPacket, [], unread, dropped)
      else if read.Frame? then Received(Returned(held[..read.length]), held[read.length..], unread, dropped)
      else AfterSilence(side, held[1..], unread, dropped + 1)
  {
    hide ReadRtuFrame;
    assert held[0..] == held;
    var rest := held[1..];
    var at := FirstFrame(side, rest);
    if at.Some? && |held| >= MIN_RTU_FRAME && !ReadRtuFrame(side, held).Frame? {
      assert rest[at.value..] == held[1 + at.value..];
      var n := ReadRtuFrame(side, rest[at.value..]).length;
      assert rest[at.value..at.value + n] == held[1 + at.value..1 + at.value + n];
      assert rest[at.value + n..] == held[1 + at.value + n..];
    }
  }

  lemma {:induction false} SilentAndEmpty(side: Side, unread: bytes, dropped: nat)
    ensures AfterSilence(side, [], unread, dropped) == Received(TimedOut, [], unread, dropped)
  {
  }

  lemma {:induction false} BySilenceAcrossRead(side: Side, held: bytes, unread: bytes, k: nat)
    requires k <= Room(held, unread)
    ensures BySilence(side, held + unread[..k], unread[k..]) == BySilence(side, held, unread)
  {
    hide Accepts, AfterSilence;
    var n := Room(held, unread);
    assert Room(held + unread[..k], unread[k..]) == n - k;
    assert held + unread[..k] + unread[k..][..n - k] == held + unread[..n];
    assert unread[k..][n - k..] == unread[n..];
  }

  /** With no room left, or nothing left to read, the bytes held are one frame or are searched. */
  lemma {:induction false} BySilenceFull(side: Side, held: bytes, unread: bytes)
    requires Room(held, unread) == 0
    ensures BySilence(side, held, unread) ==
      if DeserializeRtu(held, true).Some? then Received(Returned(held[..|held|]), held[|held|..], unread, 0)
      else AfterSilence(side, held, unread, 0)
  {
    hide Accepts, AfterSilence;
    AcceptsIffDeserializes(held);
    assert held + unread[..0] == held && unread[0..] == unread;
  }

  class ModbusRtuStream {
    const side: Side
    const port: Port
    var buffer: bytes
    var resyncs: nat
    var noise: nat

    constructor (port: Port, side: Side)
      ensures this.port == port && this.side == side && buffer == [] && resyncs == 0
    {
      this.port, this.side := port, side;
      buffer, resyncs, noise := [], 0, 0;
    }

    method Discard()
      requires buffer != []
      modifies this
      ensures buffer == old(buffer)[1..] && resyncs == old(resyncs) + 1 && noise == old(noise) + 1
    {
      buffer := buffer[1..];
      resyncs := resyncs + 1;
      noise := noise + 1;
    }

    method Take(length: nat) returns (frame: bytes)
      requires length <= |buffer|
      modifies this
      ensures frame == old(buffer)[..length] && buffer == old(buffer)[length..]
      ensures resyncs == old(resyncs) && noise == old(noise)
    {
      frame := buffer[..length];
      buffer := buffer[length..];
    }

    method ReceiveAfterSilence() returns (outcome: Outcome)
      modifies this
      ensures resyncs >= old(resyncs)
      ensures Received(outcome, buffer, port.inbox, resyncs - old(resyncs))
           == AfterSilence(side, old(buffer), old(port.inbox), 0)
    {
      hide ReadRtuFrame, AfterSilence, FirstFrame;
      if buffer == [] {
        SilentAndEmpty(side, port.inbox, 0);
        return TimedOut;
      }
      while |buffer| >= MIN_RTU_FRAME
        invariant buffer != [] && port.inbox == old(port.inbox) && resyncs >= old(resyncs)
        invariant AfterSilence(side, buffer, port.inbox, resyncs - old(resyncs))
               == AfterSilence(side, old(buffer), port.inbox, 0)
        decreases |buffer|
      {
        AfterSilenceStep(side, buffer, port.inbox, resyncs - old(resyncs));
        var read := ReadRtuFrame(side, buffer);
        if read.Frame? {
          var frame := Take(read.length);
          return Returned(frame);
        }
        Discard();
      }
      AfterSilenceStep(side, buffer, port.inbox, resyncs - old(resyncs));
      buffer := [];
      return BadPacket;
    }

    method ReceiveBySilence() returns (outcome: Outcome)
      modifies this, port
      ensures resyncs >= old(resyncs)
      ensures Received(outcome, buffer, port.inbox, resyncs - old(resyncs))
           == BySilence(side, old(buffer), old(port.inbox))
    {
      hide ReadRtuFrame, Accepts, AfterSilence, BySilence;
      while |buffer| < MAX_RTU_FRAME
        invariant resyncs == old(resyncs)
        invariant BySilence(side, buffer, port.inbox) == BySilence(side, old(buffer), old(port.inbox))
        decreases MAX_RTU_FRAME - |buffer|
      {
        ghost var before, inbox := buffer, port.inbox;
        var chunk := port.Read(MAX_RTU_FRAME - |buffer|);
        if chunk == [] {
          break;
        }
        BySilenceAcrossRead(side, before, inbox, |chunk|);
        buffer := buffer + chunk;
      }
      BySilenceFull(side, buffer, port.inbox);
      if DeserializeRtu(buffer, true).None? {
        outcome := ReceiveAfterSilence();
        return;
      }
      var frame := Take(|buffer|);
      return Returned(frame);
    }

    method Receive() returns (outcome: Outcome)
      modifies this, port
      ensures resyncs >= old(resyncs)
      ensures Received(outcome, buffer, port.inbox, resyncs - old(resyncs))
           == Reception(side, old(buffer), old(port.inbox))
    {
      hide ReadRtuFrame;
      noise := 0;
      while true
        invariant resyncs == old(resyncs) + noise
        invariant Seek(side, buffer, port.inbox, noise) == Seek(side, old(buffer), old(port.inbox), 0)
        decreases 2 * |port.inbox| + |buffer|
      {
        var read := ReadRtuFrame(side, buffer);
        if read.Frame? {
          var frame := Take(read.length);
          return Returned(frame);
        }
        if read.Unsizable? && noise == 0 {
          outcome := ReceiveBySilence();
          return;
        }
        if !read.Incomplete? {
          Discard();
          continue;
        }
        ghost var before, inbox := buffer, port.inbox;
        var chunk := port.Read(read.wanted);
        if chunk == [] {
          outcome := ReceiveAfterSilence();
          return;
        }
        SeekAcrossRead(side, before, inbox, noise, |chunk|);
        buffer := buffer + chunk;
      }
    }
  }

  lemma {:induction false} AcceptsIffDeserializes(stream: bytes)
    ensures Accepts(stream) <==> DeserializeRtu(stream, true).Some?
  {
    if |stream| >= MIN_RTU_FRAME {
      AcceptsIffReproduced(stream);
    }
  }
}
