/** What receive() promises, and how it agrees with the splitter. */
module RtuStreamLaws {
  import opened Bytes
  import opened Crc
  import opened Pdu
  import opened Rtu
  import opened RtuSplitter
  import opened RtuStream
  import opened WireForms

  // No over-read.

  /** Short of its last byte, a frame is never decided. */
  lemma {:induction false} PrefixUndecided(side: Side, frame: bytes, n: nat)
    requires SizableFrame(side, frame) && n < |frame|
    ensures ReadRtuFrame(side, frame[..n]).Incomplete?
  {
    hide ReadRtuFrame, SizableFrame, Packet;
    ReadsSizableFrame(side, frame, []);
    assert frame + [] == frame[..n] + frame[n..];
    if !ReadRtuFrame(side, frame[..n]).Incomplete? {
      VerdictStable(side, frame[..n], frame[n..]);
    }
  }

  lemma {:induction false} SeeksWholeFrame(side: Side, frame: bytes, n: nat, more: bytes)
    requires SizableFrame(side, frame) && n <= |frame|
    ensures Seek(side, frame[..n], frame[n..] + more, 0) == Head(|frame|, frame, more, 0)
    decreases |frame| - n
  {
    hide ReadRtuFrame, SizableFrame, Packet, Seek;
    var inbox := frame[n..] + more;
    if n == |frame| {
      ReadsSizableFrame(side, frame, []);
      assert frame + [] == frame == frame[..n] && inbox == more;
      SeekHasFrame(side, frame, more);
    } else {
      PrefixUndecided(side, frame, n);
      SeekReadsOne(side, frame[..n], inbox, 0);
      SeeksWholeFrame(side, frame, n + 1, more);
      assert frame[..n] + inbox[..1] == frame[..n + 1] && inbox[1..] == frame[n + 1..] + more;
    }
  }

  lemma {:induction false} SeekHasFrame(side: Side, held: bytes, inbox: bytes)
    requires ReadRtuFrame(side, held).Frame?
    ensures Seek(side, held, inbox, 0) == Head(ReadRtuFrame(side, held).length, held, inbox, 0)
  {
    hide ReadRtuFrame;
  }

  lemma {:induction false} SeekReadsOne(side: Side, held: bytes, inbox: bytes, noise: nat)
    requires ReadRtuFrame(side, held).Incomplete? && inbox != []
    ensures Seek(side, held, inbox, noise) == Seek(side, held + inbox[..1], inbox[1..], noise)
  {
    hide ReadRtuFrame;
  }

  /** From an empty buffer, a sizable frame is returned and not one byte past it is taken. */
  lemma {:induction false} NoOverRead(side: Side, frame: bytes, more: bytes)
    requires SizableFrame(side, frame)
    ensures Reception(side, [], frame + more) == Received(Returned(frame), [], more, 0)
  {
    SeeksWholeFrame(side, frame, 0, more);
    assert frame[..0] == [] && frame[0..] + more == frame + more;
    assert frame[..|frame|] == frame && frame[|frame|..] == [];
  }

  // Silence.

  /** The search for a frame after silence finds the smallest offset that has one. */
  lemma {:induction false} FirstFrameIsFirst(side: Side, held: bytes)
    ensures var at := FirstFrame(side, held);
      forall j :: 0 <= j < (if at.Some? then at.value else |held|) ==> !ReadRtuFrame(side, held[j..]).Frame?
    decreases |held|
  {
    if |held| >= MIN_RTU_FRAME {
      assert held[0..] == held;
      if !ReadRtuFrame(side, held).Frame? {
        var rest := held[1..];
        FirstFrameIsFirst(side, rest);
        var at := FirstFrame(side, held);
        forall j | 0 < j < (if at.Some? then at.value else |held|) ensures !ReadRtuFrame(side, held[j..]).Frame? {
          assert rest[j - 1..] == held[j..];
        }
      }
    }
  }

  /** A frame can be read at an offset exactly when one that is sized and checks starts there. */
  predicate FrameAt(side: Side, held: bytes, at: nat, n: nat) {
    at + n <= |held| && SizableFrame(side, held[at..at + n])
  }

  lemma {:induction false} ReadableIffFrameAt(side: Side, held: bytes, at: nat)
    requires at <= |held|
    ensures ReadRtuFrame(side, held[at..]).Frame? <==> exists n: nat :: FrameAt(side, held, at, n)
    ensures ReadRtuFrame(side, held[at..]).Frame? ==> FrameAt(side, held, at, ReadRtuFrame(side, held[at..]).length)
  {
    hide ReadRtuFrame, SizableFrame, Packet;
    var tail := held[at..];
    if ReadRtuFrame(side, tail).Frame? {
      var n := ReadRtuFrame(side, tail).length;
      ReadFrameIsSizable(side, tail);
      assert tail[..n] == held[at..at + n];
      assert FrameAt(side, held, at, n);
    } else if n: nat :| FrameAt(side, held, at, n) {
      assert tail == held[at..at + n] + held[at + n..];
      ReadsSizableFrame(side, held[at..at + n], held[at + n..]);
      assert false;
    }
  }

  /** No frame starts before an offset. */
  ghost predicate NoneBefore(side: Side, heard: bytes, at: nat) {
    forall j: nat, n: nat :: j < at ==> !FrameAt(side, heard, j, n)
  }

  ghost predicate FirstFrameAt(side: Side, heard: bytes, at: nat, n: nat) {
    FrameAt(side, heard, at, n) && NoneBefore(side, heard, at)
  }

  ghost predicate NoFrame(side: Side, heard: bytes) {
    forall j: nat, n: nat :: !FrameAt(side, heard, j, n)
  }

  /**
   Once the line is quiet, what was held gives up the sized frame at its smallest offset;
   where no offset has one, the packet error leaves nothing held.
   */
  lemma {:induction false} AfterSilenceOutcome(side: Side, held: bytes, unread: bytes, dropped: nat)
    requires held != []
    ensures var r := AfterSilence(side, held, unread, dropped);
      && r.outcome != TimedOut
      && (r.outcome == BadPacket <==> NoFrame(side, held))
      && (r.outcome == BadPacket ==> r.held == [])
      && (r.outcome.Returned? ==>
        && dropped <= r.dropped && FirstFrameAt(side, held, r.dropped - dropped, |r.outcome.frame|)
        && held[r.dropped - dropped..] == r.outcome.frame + r.held)
  {
    hide ReadRtuFrame, FrameAt, Uncounted;
    ScanIsFirst(side, held);
    var at := FirstFrame(side, held);
    if at.Some? {
      var n := ReadRtuFrame(side, held[at.value..]).length;
      assert held[at.value..] == held[at.value..at.value + n] + held[at.value + n..];
      assert FrameAt(side, held, at.value, n);
    }
  }

  lemma {:induction false} ScanIsFirst(side: Side, held: bytes)
    ensures match FirstFrame(side, held)
      case Some(at) => FirstFrameAt(side, held, at, ReadRtuFrame(side, held[at..]).length)
      case None => NoFrame(side, held)
  {
    hide ReadRtuFrame, SizableFrame;
    FirstFrameIsFirst(side, held);
    var at := FirstFrame(side, held);
    forall j: nat, n: nat | j < (if at.Some? then at.value else |held|) ensures !FrameAt(side, held, j, n) {
      ReadableIffFrameAt(side, held, j);
    }
    if at.Some? {
      ReadableIffFrameAt(side, held, at.value);
    } else {
      EmptyIsNoFrame(side, held);
    }
  }

  lemma {:induction false} EmptyIsNoFrame(side: Side, held: bytes)
    ensures forall j: nat, n: nat :: j >= |held| ==> !FrameAt(side, held, j, n)
  {
  }

  /** A search never discards from fewer than four bytes, so three are left of those it had. */
  lemma {:induction false} SeekKeepsSome(side: Side, held: bytes, inbox: bytes, noise: nat)
    ensures var s, n := Seek(side, held, inbox, noise), |held| + |inbox|;
      && (s.Quiet? && n < MIN_RTU_FRAME ==> |s.held| == n)
      && (s.Quiet? && n >= MIN_RTU_FRAME ==> |s.held| >= MIN_RTU_FRAME - 1)
      && (s.Unsized? ==> s.held != [])
    decreases 2 * |inbox| + |held|
  {
    hide ReadRtuFrame;
    var read := ReadRtuFrame(side, held);
    if read.Frame? || (read.Unsizable? && noise == 0) {
    } else if !read.Incomplete? {
      SeekKeepsSome(side, held[1..], inbox, noise + 1);
    } else if inbox != [] {
      SeekKeepsSome(side, held + inbox[..1], inbox[1..], noise);
    }
  }

  /** receive() times out exactly when nothing was held and nothing arrived. */
  lemma {:induction false} TimesOutIffNothing(side: Side, held: bytes, inbox: bytes)
    ensures Reception(side, held, inbox).outcome == TimedOut <==> held == [] && inbox == []
  {
    hide ReadRtuFrame, Accepts;
    SeekKeepsSome(side, held, inbox, 0);
  }

  // Accounting.

  /** What a search leaves: the bytes held and those still to come, and how many it dropped. */
  function Left(s: Search): bytes {
    match s
    case Head(_, now, unread, _) => now + unread
    case Unsized(now, unread) => now + unread
    case Quiet(now, _) => now
  }

  function Dropped(s: Search): nat {
    if s.Unsized? then 0 else s.dropped
  }

  /** Every byte that was held or arrived is still there, in order, behind those discarded. */
  lemma {:induction false} SeekConserves(side: Side, held: bytes, inbox: bytes, noise: nat)
    ensures var s := Seek(side, held, inbox, noise);
      && noise <= Dropped(s) <= noise + |held| + |inbox|
      && (held + inbox)[Dropped(s) - noise..] == Left(s)
    decreases 2 * |inbox| + |held|
  {
    hide ReadRtuFrame, Seek, Left, Dropped;
    var whole, s := held + inbox, Seek(side, held, inbox, noise);
    if Stops(side, held, inbox, noise) {
      SeekStops(side, held, inbox, noise);
      assert whole[0..] == whole;
    } else {
      var next, rest, n := SeekOnce(side, held, inbox, noise);
      SeekConserves(side, next, rest, n);
      DropTwice(whole, n - noise, Dropped(s) - n);
    }
  }

  predicate Stops(side: Side, held: bytes, inbox: bytes, noise: nat) {
    var read := ReadRtuFrame(side, held);
    read.Frame? || (read.Unsizable? && noise == 0) || (read.Incomplete? && inbox == [])
  }

  lemma {:induction false} SeekStops(side: Side, held: bytes, inbox: bytes, noise: nat)
    requires Stops(side, held, inbox, noise)
    ensures var s := Seek(side, held, inbox, noise); Dropped(s) == noise && Left(s) == held + inbox
  {
    hide ReadRtuFrame;
    assert inbox == [] ==> held + inbox == held;
  }

  /** One turn of the search: a byte discarded, or one more read. */
  lemma {:induction false} SeekOnce(side: Side, held: bytes, inbox: bytes, noise: nat)
      returns (next: bytes, rest: bytes, n: nat)
    requires !Stops(side, held, inbox, noise)
    ensures Seek(side, held, inbox, noise) == Seek(side, next, rest, n)
    ensures noise <= n <= noise + 1 && n - noise <= |held| + |inbox| && next + rest == (held + inbox)[n - noise..]
    ensures 2 * |rest| + |next| < 2 * |inbox| + |held|
    ensures n > noise ==> !ReadRtuFrame(side, held).Incomplete?
  {
    hide ReadRtuFrame;
    if ReadRtuFrame(side, held).Incomplete? {
      next, rest, n := held + inbox[..1], inbox[1..], noise;
      assert next + rest == held + inbox == (held + inbox)[0..];
    } else {
      next, rest, n := held[1..], inbox, noise + 1;
      assert next + rest == (held + inbox)[1..];
    }
  }

  lemma {:induction false} DropTwice(s: bytes, n: nat, m: nat)
    requires n + m <= |s|
    ensures s[n..][m..] == s[n + m..]
  {
  }

  // What receive() comes to, said of the bytes held and to come.

  lemma {:induction false} FrameAtShift(side: Side, whole: bytes, k: nat, j: nat, n: nat)
    requires k <= |whole|
    ensures FrameAt(side, whole[k..], j, n) <==> FrameAt(side, whole, k + j, n)
  {
    hide SizableFrame;
    if k + j + n <= |whole| {
      SliceOfDrop(whole, k, j, j + n);
    }
  }

  /** Frames looked for in the rest of the bytes, once none starts in front of it. */
  lemma {:induction false} FramesShift(side: Side, whole: bytes, k: nat, at: nat, n: nat)
    requires k <= |whole| && NoneBefore(side, whole, k)
    ensures NoneBefore(side, whole[k..], at) <==> NoneBefore(side, whole, k + at)
    ensures FirstFrameAt(side, whole[k..], at, n) <==> FirstFrameAt(side, whole, k + at, n)
    ensures NoFrame(side, whole[k..]) <==> NoFrame(side, whole)
  {
    hide FrameAt;
    forall j: nat, m: nat ensures FrameAt(side, whole[k..], j, m) <==> FrameAt(side, whole, k + j, m) {
      FrameAtShift(side, whole, k, j, m);
    }
    forall j: nat, m: nat | j >= k && FrameAt(side, whole, j, m) ensures FrameAt(side, whole[k..], j - k, m) {
      assert FrameAt(side, whole, k + (j - k), m);
    }
  }

  lemma {:induction false} NoFrameAtHead(side: Side, whole: bytes)
    requires !ReadRtuFrame(side, whole).Frame?
    ensures NoneBefore(side, whole, 1)
  {
    hide ReadRtuFrame, SizableFrame;
    assert whole[0..] == whole;
    ReadableIffFrameAt(side, whole, 0);
  }

  /** The search passes over no frame, and stops at none but the first. */
  lemma {:induction false} SeekPassesNoFrame(side: Side, held: bytes, inbox: bytes, noise: nat)
    ensures var s := Seek(side, held, inbox, noise);
      && 0 <= Dropped(s) - noise <= |held| + |inbox|
      && NoneBefore(side, held + inbox, Dropped(s) - noise)
      && (s.Head? ==> FirstFrameAt(side, held + inbox, Dropped(s) - noise, s.length))
    decreases 2 * |inbox| + |held|
  {
    hide ReadRtuFrame, Seek, FrameAt, Dropped;
    var whole, s := held + inbox, Seek(side, held, inbox, noise);
    SeekConserves(side, held, inbox, noise);
    if Stops(side, held, inbox, noise) {
      SeekStops(side, held, inbox, noise);
      StopsAtFrame(side, held, inbox, noise);
    } else {
      var next, rest, n := SeekOnce(side, held, inbox, noise);
      SeekPassesNoFrame(side, next, rest, n);
      if n == noise {
        assert whole[0..] == whole;
      } else {
        PassedHead(side, held, inbox, noise, n);
        FramesShift(side, whole, 1, Dropped(s) - n, if s.Head? then s.length else 0);
      }
    }
  }

  lemma {:induction false} StopsAtFrame(side: Side, held: bytes, inbox: bytes, noise: nat)
    requires Stops(side, held, inbox, noise)
    ensures var s := Seek(side, held, inbox, noise);
      s.Head? ==> FrameAt(side, held + inbox, 0, s.length)
  {
    hide ReadRtuFrame, SizableFrame;
    var whole := held + inbox;
    if ReadRtuFrame(side, held).Frame? {
      VerdictStable(side, held, inbox);
      assert whole[0..] == whole;
      ReadableIffFrameAt(side, whole, 0);
    }
  }

  lemma {:induction false} PassedHead(side: Side, held: bytes, inbox: bytes, noise: nat, n: nat)
    requires !Stops(side, held, inbox, noise) && !ReadRtuFrame(side, held).Incomplete?
    ensures NoneBefore(side, held + inbox, 1)
  {
    hide ReadRtuFrame, NoneBefore;
    VerdictStable(side, held, inbox);
    NoFrameAtHead(side, held + inbox);
  }

  /** What there is to go by when the line has gone quiet, or one frame's room is full. */
  function Heard(side: Side, held: bytes, inbox: bytes): (heard: bytes)
    ensures heard <= held + inbox
  {
    if ReadRtuFrame(side, held + inbox).Unsizable? then
      assert held + inbox[..Room(held, inbox)] <= held + inbox;
      held + inbox[..Room(held, inbox)]
    else held + inbox
  }

  /** Where silence decides, at most 256 bytes are heard, or what was held already. */
  lemma {:induction false} HeardLength(side: Side, held: bytes, inbox: bytes)
    ensures var whole, heard := held + inbox, Heard(side, held, inbox);
      |heard| == if !ReadRtuFrame(side, whole).Unsizable? || |whole| <= 256 then |whole|
                 else if |held| >= 256 then |held| else 256
  {
    hide ReadRtuFrame;
  }

  /** A head no content sizes, and all that was heard a frame by its checksum. */
  predicate Alone(side: Side, held: bytes, inbox: bytes) {
    ReadRtuFrame(side, held + inbox).Unsizable? && Accepts(Heard(side, held, inbox))
  }

  /** When receive() finds nothing to return in bytes that did arrive. */
  ghost predicate FramesToNothing(side: Side, held: bytes, inbox: bytes) {
    held + inbox != [] && !Alone(side, held, inbox) && NoFrame(side, Heard(side, held, inbox))
  }

  /** A search that has discarded a byte leaves it to silence no more. */
  lemma {:induction false} NoisySearchSizes(side: Side, held: bytes, inbox: bytes, noise: nat)
    requires noise > 0
    ensures !Seek(side, held, inbox, noise).Unsized?
    decreases 2 * |inbox| + |held|
  {
    hide ReadRtuFrame;
    var read := ReadRtuFrame(side, held);
    if read.Unsizable? || read.Rejected? {
      NoisySearchSizes(side, held[1..], inbox, noise + 1);
    } else if read.Incomplete? && inbox != [] {
      NoisySearchSizes(side, held + inbox[..1], inbox[1..], noise);
    }
  }

  /** Silence decides exactly when the bytes held and to come start with a head no content sizes. */
  lemma {:induction false} UnsizedIff(side: Side, held: bytes, inbox: bytes)
    ensures var s := Seek(side, held, inbox, 0);
      && (s.Unsized? <==> ReadRtuFrame(side, held + inbox).Unsizable?)
      && (s.Unsized? ==> s.held + s.unread[..Room(s.held, s.unread)] == held + inbox[..Room(held, inbox)])
    decreases |inbox|
  {
    hide ReadRtuFrame, Room;
    var read := ReadRtuFrame(side, held);
    if !read.Incomplete? {
      VerdictStable(side, held, inbox);
      if read.Rejected? {
        NoisySearchSizes(side, held[1..], inbox, 1);
      }
    } else if inbox == [] {
      assert held + inbox == held;
    } else {
      var next, rest := held + inbox[..1], inbox[1..];
      assert next + rest == held + inbox;
      UnsizedIff(side, next, rest);
      if ReadRtuFrame(side, held + inbox).Unsizable? {
        UnsizableEarly(side, held, inbox);
        RoomAcrossRead(held, inbox);
      }
    }
  }

  lemma {:induction false} RoomAcrossRead(held: bytes, inbox: bytes)
    requires |held| < MAX_RTU_FRAME && inbox != []
    ensures var next, rest := held + inbox[..1], inbox[1..];
      next + rest[..Room(next, rest)] == held + inbox[..Room(held, inbox)]
  {
    assert inbox[1..][..Room(held, inbox) - 1] == inbox[1..Room(held, inbox)];
  }

  lemma {:induction false} UnsizableEarly(side: Side, held: bytes, inbox: bytes)
    requires ReadRtuFrame(side, held).Incomplete? && ReadRtuFrame(side, held + inbox).Unsizable?
    ensures |held| < MIN_RTU_FRAME
  {
    hide ReadRtuFrame;
    var whole := held + inbox;
    UnsizableFromFour(side, whole);
    if |held| >= MIN_RTU_FRAME {
      assert whole[..MIN_RTU_FRAME] + held[MIN_RTU_FRAME..] == held;
      VerdictStable(side, whole[..MIN_RTU_FRAME], held[MIN_RTU_FRAME..]);
    }
  }

  /**
   What receive() comes to, from what is held and what arrives before the line is quiet: a
   timeout exactly when that is nothing; a head no content sizes and all that was heard, if
   the checksum accepts it; otherwise the frame at the smallest offset that has one, and a
   packet error exactly when none has.
   */
  lemma {:induction false} ReceptionOutcome(side: Side, held: bytes, inbox: bytes)
    ensures var r, whole, heard := Reception(side, held, inbox), held + inbox, Heard(side, held, inbox);
      && (r.outcome == TimedOut <==> whole == [])
      && (r.outcome == BadPacket <==> FramesToNothing(side, held, inbox))
      && (Alone(side, held, inbox) ==> r == Received(Returned(heard), [], whole[|heard|..], 0))
      && (r.outcome.Returned? && !Alone(side, held, inbox) ==>
        FirstFrameAt(side, heard, r.dropped, |r.outcome.frame|))
  {
    hide ReadRtuFrame, Seek, Accepts, FrameAt, AfterSilence, Room;
    var s := Seek(side, held, inbox, 0);
    UnsizedIff(side, held, inbox);
    TimesOutIffNothing(side, held, inbox);
    SeekPassesNoFrame(side, held, inbox, 0);
    SeekConserves(side, held, inbox, 0);
    SeekKeepsSome(side, held, inbox, 0);
    match s
    case Head(n, now, unread, dropped) =>
      assert |now[..n]| == n;
    case Quiet(now, dropped) =>
      if now != [] {
        AfterSilenceOutcome(side, now, [], dropped);
        var r := AfterSilence(side, now, [], dropped);
        FramesShift(side, held + inbox, dropped,
          if r.outcome.Returned? then r.dropped - dropped else 0, if r.outcome.Returned? then |r.outcome.frame| else 0);
      }
    case Unsized(now, unread) =>
      UnsizedOutcome(side, held, inbox);
  }

  lemma {:induction false} UnsizedOutcome(side: Side, held: bytes, inbox: bytes)
    requires ReadRtuFrame(side, held + inbox).Unsizable?
    ensures var r, whole, heard := Reception(side, held, inbox), held + inbox, Heard(side, held, inbox);
      if Accepts(heard) then r == Received(Returned(heard), [], whole[|heard|..], 0)
      else
        && (r.outcome == BadPacket <==> NoFrame(side, heard))
        && (r.outcome.Returned? ==> FirstFrameAt(side, heard, r.dropped, |r.outcome.frame|))
        && r.outcome != TimedOut
  {
    hide ReadRtuFrame, Seek, Accepts, FrameAt, AfterSilence, Room;
    var s, heard := Seek(side, held, inbox, 0), Heard(side, held, inbox);
    UnsizedIff(side, held, inbox);
    SeekConserves(side, held, inbox, 0);
    SeekKeepsSome(side, held, inbox, 0);
    var k := Room(s.held, s.unread);
    assert s.held + s.unread == held + inbox;
    DropTail(s.held, s.unread, k);
    if !Accepts(heard) {
      AfterSilenceOutcome(side, heard, s.unread[k..], 0);
    }
  }

  lemma {:induction false} DropTail(a: bytes, b: bytes, k: nat)
    requires k <= |b|
    ensures (a + b)[|a + b[..k]|..] == b[k..] && (a + b)[0..] == a + b
  {
  }

  lemma {:induction false} NothingHeard(side: Side, held: bytes, inbox: bytes)
    ensures Heard(side, held, inbox) == [] <==> held + inbox == []
  {
    assert ReadRtuFrame(side, held + inbox).Unsizable? ==> |held + inbox| >= MIN_RTU_FRAME;
  }

  /** What receive() clears without counting it: the last bytes, too few to be read, of what framed to nothing. */
  ghost function Cleared(side: Side, held: bytes, inbox: bytes): (cleared: bytes)
    ensures |cleared| < MIN_RTU_FRAME
    ensures cleared != [] <==> FramesToNothing(side, held, inbox)
  {
    NothingHeard(side, held, inbox);
    var heard := Heard(side, held, inbox);
    if FramesToNothing(side, held, inbox) then heard[|heard| - Uncounted(heard)..] else []
  }

  /** What a call hands out. */
  function Handed(outcome: Outcome): bytes {
    match outcome
    case Returned(frame) => frame
    case _ => []
  }

  /**
   Bytes in are bytes out, in order: first those discarded and counted, then the frame or
   the bytes cleared, then what is still held and unread.
   */
  lemma {:induction false} ReceptionConserves(side: Side, held: bytes, inbox: bytes)
    ensures var r, whole := Reception(side, held, inbox), held + inbox;
      && r.dropped <= |whole|
      && whole[r.dropped..] == Handed(r.outcome) + Cleared(side, held, inbox) + r.held + r.unread
  {
    hide ReadRtuFrame, Reception, Seek, Cleared;
    match Seek(side, held, inbox, 0)
    case Head(_, _, _, _) =>
      HeadConserves(side, held, inbox);
    case Quiet(_, _) =>
      QuietConserves(side, held, inbox);
    case Unsized(_, _) =>
      UnsizedIff(side, held, inbox);
      UnsizedConserves(side, held, inbox);
  }

  lemma {:induction false} HeadConserves(side: Side, held: bytes, inbox: bytes)
    requires Seek(side, held, inbox, 0).Head?
    ensures var r, whole := Reception(side, held, inbox), held + inbox;
      && r.dropped <= |whole|
      && whole[r.dropped..] == Handed(r.outcome) + Cleared(side, held, inbox) + r.held + r.unread
  {
    hide ReadRtuFrame, Seek, FramesToNothing, Reception, Cleared;
    var s := Seek(side, held, inbox, 0);
    SeekConserves(side, held, inbox, 0);
    HeadReception(side, held, inbox);
    NothingCleared(side, held, inbox);
    assert s.held + s.unread == s.held[..s.length] + [] + s.held[s.length..] + s.unread;
  }

  lemma {:induction false} NothingCleared(side: Side, held: bytes, inbox: bytes)
    ensures Reception(side, held, inbox).outcome != BadPacket ==> Cleared(side, held, inbox) == []
  {
    hide ReadRtuFrame, Reception, Cleared, FramesToNothing, Alone, Heard, FirstFrameAt;
    ReceptionOutcome(side, held, inbox);
  }

  lemma {:induction false} HeadReception(side: Side, held: bytes, inbox: bytes)
    requires Seek(side, held, inbox, 0).Head?
    ensures var s := Seek(side, held, inbox, 0);
      Reception(side, held, inbox) == Received(Returned(s.held[..s.length]), s.held[s.length..], s.unread, s.dropped)
  {
    hide ReadRtuFrame, Seek;
  }

  /** The scan after silence: what it drops, hands out, clears and keeps. */
  predicate ScanConserves(r: Received, held: bytes, unread: bytes, dropped: nat) {
    && dropped <= r.dropped <= dropped + |held| && r.unread == unread
    && held[r.dropped - dropped..] == Handed(r.outcome) + r.held
       + (if r.outcome == BadPacket then held[|held| - Uncounted(held)..] else [])
    && (r.outcome == BadPacket ==> r.held == [])
  }

  lemma {:induction false} SilenceConserves(side: Side, held: bytes, unread: bytes, dropped: nat)
    ensures ScanConserves(AfterSilence(side, held, unread, dropped), held, unread, dropped)
  {
    hide ReadRtuFrame, Uncounted, AfterSilence, FirstFrameAt, NoFrame;
    var r := AfterSilence(side, held, unread, dropped);
    if held == [] {
      SilentAndEmpty(side, unread, dropped);
    } else {
      AfterSilenceOutcome(side, held, unread, dropped);
      AfterSilenceCounts(side, held, unread, dropped);
      assert Handed(r.outcome) + r.held + [] == Handed(r.outcome) + r.held;
    }
  }

  lemma {:induction false} AfterSilenceCounts(side: Side, held: bytes, unread: bytes, dropped: nat)
    requires held != []
    ensures var r := AfterSilence(side, held, unread, dropped);
      && dropped <= r.dropped <= dropped + |held| && r.unread == unread
      && (r.outcome == BadPacket ==> r.dropped - dropped == |held| - Uncounted(held))
  {
    hide ReadRtuFrame, Uncounted;
  }

  lemma {:induction false} QuietConserves(side: Side, held: bytes, inbox: bytes)
    requires Seek(side, held, inbox, 0).Quiet?
    ensures var r, whole := Reception(side, held, inbox), held + inbox;
      && r.dropped <= |whole|
      && whole[r.dropped..] == Handed(r.outcome) + Cleared(side, held, inbox) + r.held + r.unread
  {
    hide ReadRtuFrame, AfterSilence, Seek, Cleared, Handed, Uncounted, ScanConserves;
    var s, whole := Seek(side, held, inbox, 0), held + inbox;
    SeekConserves(side, held, inbox, 0);
    QuietCleared(side, held, inbox);
    SilenceConserves(side, s.held, [], s.dropped);
    assert s.held + [] == s.held;
    ScanSpends(AfterSilence(side, s.held, [], s.dropped), s.held, [], s.dropped, whole);
  }

  lemma {:induction false} QuietCleared(side: Side, held: bytes, inbox: bytes)
    requires Seek(side, held, inbox, 0).Quiet?
    ensures var now := Seek(side, held, inbox, 0).held;
      Cleared(side, held, inbox) ==
        if Reception(side, held, inbox).outcome == BadPacket then now[|now| - Uncounted(now)..] else []
  {
    hide ReadRtuFrame, Reception, Seek, FramesToNothing, Room, Uncounted;
    var s, whole := Seek(side, held, inbox, 0), held + inbox;
    SeekConserves(side, held, inbox, 0);
    UnsizedIff(side, held, inbox);
    ReceptionOutcome(side, held, inbox);
    SameUncounted(side, held, inbox);
    DropTwice(whole, s.dropped, |s.held| - Uncounted(s.held));
  }

  lemma {:induction false} SameUncounted(side: Side, held: bytes, inbox: bytes)
    requires Seek(side, held, inbox, 0).Quiet?
    ensures Uncounted(Seek(side, held, inbox, 0).held) == Uncounted(held + inbox)
  {
    hide Seek;
    SeekConserves(side, held, inbox, 0);
    SeekKeepsSome(side, held, inbox, 0);
  }

  lemma {:induction false} UnsizedConserves(side: Side, held: bytes, inbox: bytes)
    requires ReadRtuFrame(side, held + inbox).Unsizable?
    ensures var r, whole := Reception(side, held, inbox), held + inbox;
      && r.dropped <= |whole|
      && whole[r.dropped..] == Handed(r.outcome) + Cleared(side, held, inbox) + r.held + r.unread
  {
    hide ReadRtuFrame, AfterSilence, Seek, Accepts, Room, FramesToNothing, Uncounted, ScanConserves;
    var s, whole, heard := Seek(side, held, inbox, 0), held + inbox, Heard(side, held, inbox);
    SeekConserves(side, held, inbox, 0);
    UnsizedIff(side, held, inbox);
    ReceptionOutcome(side, held, inbox);
    var unread := s.unread[Room(s.held, s.unread)..];
    assert whole[0..] == whole == heard + unread;
    if !Accepts(heard) {
      SilenceConserves(side, heard, unread, 0);
      ScanSpends(AfterSilence(side, heard, unread, 0), heard, unread, 0, whole);
    } else {
      assert heard + [] + [] + unread == whole;
    }
  }

  /** In the order a call spends them. */
  lemma {:induction false} ScanSpends(r: Received, held: bytes, unread: bytes, dropped: nat, whole: bytes)
    requires ScanConserves(r, held, unread, dropped)
    requires dropped <= |whole| && whole[dropped..] == held + unread
    ensures r.dropped <= |whole|
    ensures whole[r.dropped..] == Handed(r.outcome)
      + (if r.outcome == BadPacket then held[|held| - Uncounted(held)..] else []) + r.held + r.unread
  {
    hide Uncounted;
    var k := r.dropped - dropped;
    DropTwice(whole, dropped, k);
    assert (held + unread)[k..] == held[k..] + unread;
    var tail := if r.outcome == BadPacket then held[|held| - Uncounted(held)..] else [];
    assert Handed(r.outcome) + r.held + tail == Handed(r.outcome) + tail + r.held;
  }

  /** One stray byte is received as a packet error, cleared, and counted nowhere. */
  lemma {:induction false} StrayByteUncounted(side: Side)
    ensures Reception(side, [], [0x11]) == Received(BadPacket, [], [], 0)
    ensures Cleared(side, [], [0x11]) == [0x11]
  {
    var inbox: bytes := [0x11];
    assert inbox[..1] == inbox && inbox[1..] == [] && [] + inbox == inbox;
    assert Seek(side, inbox, [], 0) == Quiet(inbox, 0);
    assert Seek(side, [], inbox, 0) == Quiet(inbox, 0);
    ReceptionOutcome(side, [], inbox);
  }

  // Any number of calls.

  // Where the bytes that one call took out of the buffer went.
  datatype Spent = Spent(skipped: bytes, frame: bytes, cleared: bytes)

  datatype Ledger = Ledger(calls: seq<Spent>, held: bytes, unread: bytes, resyncs: nat)

  /** A run: before each call some bytes arrive, perhaps none; what a call leaves, the next one finds. */
  ghost function ReceiveEach(side: Side, arrivals: seq<bytes>): Ledger {
    if arrivals == [] then Ledger([], [], [], 0)
    else
      var before := ReceiveEach(side, arrivals[..|arrivals| - 1]);
      var inbox := before.unread + arrivals[|arrivals| - 1];
      var r := Reception(side, before.held, inbox);
      Ledger(before.calls + [SpentBy(side, before.held, inbox)], r.held, r.unread, before.resyncs + r.dropped)
  }

  ghost function SpentBy(side: Side, held: bytes, inbox: bytes): Spent {
    var r, whole := Reception(side, held, inbox), held + inbox;
    Spent(if r.dropped <= |whole| then whole[..r.dropped] else [], Handed(r.outcome), Cleared(side, held, inbox))
  }

  function BytesOf(call: Spent): bytes {
    call.skipped + call.frame + call.cleared
  }

  function AllBytes(calls: seq<Spent>): bytes {
    if calls == [] then [] else AllBytes(calls[..|calls| - 1]) + BytesOf(calls[|calls| - 1])
  }

  function FrameBytesOf(calls: seq<Spent>): nat {
    if calls == [] then 0 else FrameBytesOf(calls[..|calls| - 1]) + |calls[|calls| - 1].frame|
  }

  function ClearedBytesOf(calls: seq<Spent>): nat {
    if calls == [] then 0 else ClearedBytesOf(calls[..|calls| - 1]) + |calls[|calls| - 1].cleared|
  }

  /**
   Over any arrivals and any number of calls, the bytes that arrived are, in order, what
   each call skipped, handed out and cleared, and then what is held and unread; and their
   count is that of the frames, `resyncs`, the bytes cleared, held and unread.
   */
  lemma {:induction false} RunConserves(side: Side, arrivals: seq<bytes>)
    ensures var l := ReceiveEach(side, arrivals);
      && Join(arrivals) == AllBytes(l.calls) + (l.held + l.unread)
      && |Join(arrivals)| == FrameBytesOf(l.calls) + l.resyncs + ClearedBytesOf(l.calls) + |l.held| + |l.unread|
    decreases |arrivals|
  {
    hide Reception, Cleared, SpentBy, BytesOf;
    if arrivals != [] {
      var early, data := arrivals[..|arrivals| - 1], arrivals[|arrivals| - 1];
      var before := ReceiveEach(side, early);
      var inbox := before.unread + data;
      RunConserves(side, early);
      CallConserves(side, before.held, inbox);
      JoinAppend(early, [data]);
      assert early + [data] == arrivals && Join([data]) == data;
      var l, call := ReceiveEach(side, arrivals), SpentBy(side, before.held, inbox);
      assert l.calls[..|l.calls| - 1] == before.calls && l.calls[|l.calls| - 1] == call;
      hide ReceiveEach;
      Regroup(AllBytes(before.calls), before.held, before.unread, data, BytesOf(call), l.held + l.unread);
    }
  }

  lemma {:induction false} Regroup(early: bytes, held: bytes, unread: bytes, data: bytes, spent: bytes, left: bytes)
    requires held + (unread + data) == spent + left
    ensures early + (held + unread) + data == early + spent + left
  {
    assert early + (held + unread) + data == early + (held + (unread + data));
  }

  lemma {:induction false} CallConserves(side: Side, held: bytes, inbox: bytes)
    ensures var r, call := Reception(side, held, inbox), SpentBy(side, held, inbox);
      && held + inbox == BytesOf(call) + (r.held + r.unread)
      && |held| + |inbox| == |call.frame| + r.dropped + |call.cleared| + |r.held| + |r.unread|
      && |BytesOf(call)| == |call.frame| + r.dropped + |call.cleared|
  {
    hide Reception, Cleared, FramesToNothing;
    ReceptionConserves(side, held, inbox);
    var r, whole := Reception(side, held, inbox), held + inbox;
    assert whole == whole[..r.dropped] + whole[r.dropped..];
  }

  // Frames no content sizes.

  /** An unsizable frame that arrives alone comes back whole when the line goes quiet. */
  lemma {:induction false} UnsizableFrameAlone(side: Side, frame: bytes)
    requires Accepts(frame) && |frame| <= MAX_RTU_FRAME
    requires ReadRtuFrame(side, frame).Unsizable?
    ensures Reception(side, [], frame) == Received(Returned(frame), [], [], 0)
  {
    hide Accepts;
    UnsizableFromFour(side, frame);
    var head := frame[..MIN_RTU_FRAME];
    SeekAcrossRead(side, [], frame, 0, MIN_RTU_FRAME);
    assert [] + head == head;
    hide ReadRtuFrame;
    var unread := frame[MIN_RTU_FRAME..];
    assert head + unread[..Room(head, unread)] == frame;
  }

  /** So does every frame of a function code whose class states no size. */
  lemma {:induction false} UnstatedFrameAlone(side: Side, frame: bytes)
    requires Accepts(frame) && |frame| <= 256
    requires frame[1] !in {1, 2, 3, 4, 5, 6, 7, 8, 15, 16, 22, 23} && (side == Response ==> frame[1] < 0x80)
    ensures Reception(side, [], frame) == Received(Returned(frame), [], [], 0)
  {
    hide Accepts, ReadRtuFrame, Reception;
    FourAtLeast(frame);
    UnsizableIff(side, frame);
    UnsizableFrameAlone(side, frame);
  }

  lemma {:induction false} FourAtLeast(frame: bytes)
    requires Accepts(frame)
    ensures |frame| >= 4
  {
  }

  lemma {:induction false} UnsizableFromFour(side: Side, frame: bytes)
    requires ReadRtuFrame(side, frame).Unsizable?
    ensures ReadRtuFrame(side, frame[..MIN_RTU_FRAME]).Unsizable?
  {
    assert frame[..MIN_RTU_FRAME][1..] == frame[1..MIN_RTU_FRAME];
  }

  // The two drivers.

  function Noise(lost: bytes): (trace: seq<Item>)
    ensures |trace| == |lost|
  {
    seq(|lost|, i requires 0 <= i < |lost| => Lost(lost[i]))
  }

  lemma {:induction false} NoiseCounts(lost: bytes)
    ensures Packets(Noise(lost)) == [] && Losses(Noise(lost)) == |lost|
  {
    if lost != [] {
      assert Noise(lost)[1..] == Noise(lost[1..]);
      NoiseCounts(lost[1..]);
    }
  }

  /** The items a search settles: what it drops, then the frame at the head if there is one. */
  function Settled(side: Side, whole: bytes, s: Search, noise: nat): seq<Item> {
    Noise(if noise <= Dropped(s) <= noise + |whole| then whole[..Dropped(s) - noise] else []) + Gained(side, s)
  }

  function Gained(side: Side, s: Search): seq<Item> {
    match s
    case Head(_, now, _, _) =>
      var read := ReadRtuFrame(side, now);
      if read.Frame? then [Got(read.packet)] else []
    case _ => []
  }

  /** What there is left to read after that. */
  function Remaining(s: Search): bytes {
    match s
    case Head(n, now, unread, _) => (if n <= |now| then now[n..] else []) + unread
    case _ => Left(s)
  }

  lemma {:induction false} SettledOneMore(side: Side, whole: bytes, s: Search, noise: nat)
    requires noise < Dropped(s) <= noise + |whole|
    ensures Settled(side, whole, s, noise) == [Lost(whole[0])] + Settled(side, whole[1..], s, noise + 1)
  {
    hide Gained;
    var n := Dropped(s) - noise;
    assert whole[..n] == [whole[0]] + whole[1..][..n - 1];
    assert Noise(whole[..n]) == [Lost(whole[0])] + Noise(whole[1..][..n - 1]);
  }

  lemma {:induction false} DropRefines(side: Side, whole: bytes, s: Search, noise: nat, after: Drained)
    requires !ReadRtuFrame(side, whole).Incomplete? && !ReadRtuFrame(side, whole).Frame?
    requires noise < Dropped(s) <= noise + |whole|
    requires Drain(side, whole[1..]) == Then(Settled(side, whole[1..], s, noise + 1), after)
    ensures Drain(side, whole) == Then(Settled(side, whole, s, noise), after)
  {
    hide ReadRtuFrame, Settled;
    SettledOneMore(side, whole, s, noise);
    ThenAssociates([Lost(whole[0])], Settled(side, whole[1..], s, noise + 1), after);
  }

  lemma {:induction false} StopRefines(side: Side, held: bytes, inbox: bytes, noise: nat)
    requires Stops(side, held, inbox, noise)
    ensures var s := Seek(side, held, inbox, noise);
      Drain(side, held + inbox) == Then(Settled(side, held + inbox, s, noise), Drain(side, Remaining(s)))
  {
    hide ReadRtuFrame;
    var read, whole, s := ReadRtuFrame(side, held), held + inbox, Seek(side, held, inbox, noise);
    if read.Frame? {
      VerdictStable(side, held, inbox);
      assert whole[read.length..] == Remaining(s);
      assert Settled(side, whole, s, noise) == [Got(read.packet)];
    } else {
      assert Settled(side, whole, s, noise) == [] && Remaining(s) == whole;
      ThenAssociates([], [], Drain(side, whole));
    }
  }

  /** A search settles what the splitter, given all those bytes, settles first. */
  lemma {:induction false} SeekRefinesDrain(side: Side, held: bytes, inbox: bytes, noise: nat)
    ensures var s := Seek(side, held, inbox, noise);
      Drain(side, held + inbox) == Then(Settled(side, held + inbox, s, noise), Drain(side, Remaining(s)))
    decreases 2 * |inbox| + |held|
  {
    hide ReadRtuFrame, Settled, Remaining, Drain, Seek, Dropped;
    var whole, s := held + inbox, Seek(side, held, inbox, noise);
    if Stops(side, held, inbox, noise) {
      StopRefines(side, held, inbox, noise);
    } else {
      var next, rest, n := SeekOnce(side, held, inbox, noise);
      SeekRefinesDrain(side, next, rest, n);
      if n == noise {
        assert whole[0..] == whole;
      } else {
        VerdictStable(side, held, inbox);
        SeekConserves(side, next, rest, n);
        DropRefines(side, whole, s, noise, Drain(side, Remaining(s)));
      }
    }
  }

  /** A search depends on no byte it has not read. */
  lemma {:induction false} SeekReadsOnly(
      side: Side, held: bytes, read: bytes, unread: bytes, other: bytes, noise: nat)
    requires var s := Seek(side, held, read + unread, noise); !s.Quiet? && s.unread == unread
    ensures Seek(side, held, read + other, noise) == Seek(side, held, read + unread, noise).(unread := other)
    decreases 2 * |read| + |held|
  {
    hide ReadRtuFrame;
    var r, inbox, instead := ReadRtuFrame(side, held), read + unread, read + other;
    if r.Frame? || (r.Unsizable? && noise == 0) {
      assert |read| == 0;
      assert instead == other;
    } else if !r.Incomplete? {
      SeekReadsOnly(side, held[1..], read, unread, other, noise + 1);
    } else {
      SeekUnreadShrinks(side, held + inbox[..1], inbox[1..], noise);
      assert read != [];
      assert inbox[..1] == read[..1] == instead[..1];
      assert inbox[1..] == read[1..] + unread && instead[1..] == read[1..] + other;
      SeekReadsOnly(side, held + inbox[..1], read[1..], unread, other, noise);
    }
  }

  lemma {:induction false} SeekUnreadShrinks(side: Side, held: bytes, inbox: bytes, noise: nat)
    ensures var s := Seek(side, held, inbox, noise);
      !s.Quiet? ==> |s.unread| <= |inbox| && s.unread == inbox[|inbox| - |s.unread|..]
    decreases 2 * |inbox| + |held|
  {
    hide ReadRtuFrame;
    var r := ReadRtuFrame(side, held);
    if r.Frame? || (r.Unsizable? && noise == 0) {
    } else if !r.Incomplete? {
      SeekUnreadShrinks(side, held[1..], inbox, noise + 1);
    } else if inbox != [] {
      SeekUnreadShrinks(side, held + inbox[..1], inbox[1..], noise);
    }
  }

  // A run of receive() calls over what arrives before the line goes quiet: the items
  // settled, the bytes held and unread at the end, and whether the silence was met.
  datatype Session = Session(trace: seq<Item>, held: bytes, unread: bytes, silent: bool)

  /** At most `calls` calls; it stops at the first silent read or unsizable head. */
  function Listen(side: Side, held: bytes, inbox: bytes, calls: nat): Session
    decreases calls
  {
    if calls == 0 then Session([], held, inbox, false)
    else
      var s := Seek(side, held, inbox, 0);
      match s
      case Head(n, now, unread, _) =>
        var later := Listen(side, now[n..], unread, calls - 1);
        later.(trace := Settled(side, held + inbox, s, 0) + later.trace)
      case Unsized(now, unread) => Session([], now, unread, false)
      case Quiet(now, _) => Session(Settled(side, held + inbox, s, 0), now, [], true)
  }

  /** Each call that finds a head returns its frame, counts its discards, and adds just these. */
  lemma {:induction false} ListenIsReception(side: Side, held: bytes, inbox: bytes)
    requires Seek(side, held, inbox, 0).Head?
    ensures var s, r := Seek(side, held, inbox, 0), Reception(side, held, inbox);
      && r.outcome.Returned? && SizableFrame(side, r.outcome.frame)
      && Packets(Settled(side, held + inbox, s, 0)) == [Packet(r.outcome.frame)]
      && Losses(Settled(side, held + inbox, s, 0)) == r.dropped
      && Listen(side, held, inbox, 1) == Session(Settled(side, held + inbox, s, 0), r.held, r.unread, false)
  {
    hide ReadRtuFrame, SizableFrame, Packet;
    var s := Seek(side, held, inbox, 0);
    HeadIsFrame(side, held, inbox, 0);
    ReadFrameIsSizable(side, s.held);
    SeekConserves(side, held, inbox, 0);
    var lost := (held + inbox)[..Dropped(s)];
    NoiseCounts(lost);
    TraceAppend(Noise(lost), Gained(side, s));
    assert Gained(side, s)[1..] == [];
    assert Settled(side, held + inbox, s, 0) + [] == Settled(side, held + inbox, s, 0);
  }

  lemma {:induction false} HeadIsFrame(side: Side, held: bytes, inbox: bytes, noise: nat)
    ensures var s := Seek(side, held, inbox, noise);
      && (s.Head? ==> ReadRtuFrame(side, s.held).Frame? && ReadRtuFrame(side, s.held).length == s.length)
      && (s.Quiet? ==> ReadRtuFrame(side, s.held).Incomplete?)
    decreases 2 * |inbox| + |held|
  {
    hide ReadRtuFrame;
    var r := ReadRtuFrame(side, held);
    if r.Frame? || (r.Unsizable? && noise == 0) {
    } else if !r.Incomplete? {
      HeadIsFrame(side, held[1..], inbox, noise + 1);
    } else if inbox != [] {
      HeadIsFrame(side, held + inbox[..1], inbox[1..], noise);
    }
  }

  lemma {:induction false} ListenRefinesDrain(side: Side, held: bytes, inbox: bytes, calls: nat)
    ensures var l := Listen(side, held, inbox, calls);
      && Drain(side, held + inbox) == Then(l.trace, Drain(side, l.held + l.unread))
      && (l.silent ==> l.unread == [] && ReadRtuFrame(side, l.held).Incomplete?)
    decreases calls
  {
    hide ReadRtuFrame, Settled;
    if calls == 0 {
      ThenAssociates([], [], Drain(side, held + inbox));
    } else {
      var s := Seek(side, held, inbox, 0);
      SeekRefinesDrain(side, held, inbox, 0);
      HeadIsFrame(side, held, inbox, 0);
      match s
      case Head(n, now, unread, _) =>
        ListenRefinesDrain(side, now[n..], unread, calls - 1);
        var later := Listen(side, now[n..], unread, calls - 1);
        ThenAssociates(Settled(side, held + inbox, s, 0), later.trace, Drain(side, later.held + later.unread));
      case Unsized(now, unread) =>
        SeekConserves(side, held, inbox, 0);
        assert (held + inbox)[0..] == held + inbox;
        ThenAssociates([], [], Drain(side, held + inbox));
      case Quiet(now, _) =>
        assert now + [] == now;
    }
  }

  lemma {:induction false} SettledReadsOnly(side: Side, whole: bytes, other: bytes, s: Search, n: nat)
    requires Dropped(s) <= n <= |whole| && n <= |other| && whole[..n] == other[..n]
    ensures Settled(side, whole, s, 0) == Settled(side, other, s, 0)
  {
    hide Gained;
    assert whole[..n][..Dropped(s)] == whole[..Dropped(s)] && other[..n][..Dropped(s)] == other[..Dropped(s)];
  }

  /** A search that found a frame finds it, and settles the same, whatever follows what it read. */
  lemma {:induction false} HeadReadsOnly(side: Side, held: bytes, read: bytes, unread: bytes, other: bytes)
    requires var s := Seek(side, held, read + unread, 0); s.Head? && s.unread == unread
    ensures var s := Seek(side, held, read + unread, 0);
      && Seek(side, held, read + other, 0) == s.(unread := other)
      && Settled(side, held + (read + other), s.(unread := other), 0) == Settled(side, held + (read + unread), s, 0)
  {
    hide ReadRtuFrame, Settled, Noise, Gained;
    var s := Seek(side, held, read + unread, 0);
    SeekReadsOnly(side, held, read, unread, other, 0);
    SeekReadsOnly(side, held, read, unread, [], 0);
    assert read + [] == read;
    SeekConserves(side, held, read, 0);
    var n := |held| + |read|;
    assert (held + (read + other))[..n] == held + read == (held + (read + unread))[..n];
    SettledReadsOnly(side, held + (read + other), held + (read + unread), s, n);
    UnreadSettlesNothing(side, held + (read + other), s, other);
  }

  lemma {:induction false} UnreadSettlesNothing(side: Side, whole: bytes, s: Search, other: bytes)
    requires s.Head?
    ensures Settled(side, whole, s.(unread := other), 0) == Settled(side, whole, s, 0)
  {
    hide ReadRtuFrame;
  }

  lemma {:induction false} ListenReadsOnlyHead(side: Side, held: bytes, inbox: bytes, calls: nat)
    requires calls > 0
    requires var s := Seek(side, held, inbox, 0);
      && s.Head? && |s.unread| <= |inbox| && s.unread == inbox[|inbox| - |s.unread|..]
      && var l := Listen(side, s.held[s.length..], s.unread, calls - 1);
      && |l.unread| <= |s.unread|
      && s.unread == s.unread[..|s.unread| - |l.unread|] + l.unread
      && Listen(side, s.held[s.length..], s.unread[..|s.unread| - |l.unread|], calls - 1) == l.(unread := [])
    ensures var l := Listen(side, held, inbox, calls);
      && |l.unread| <= |inbox|
      && inbox == inbox[..|inbox| - |l.unread|] + l.unread
      && Listen(side, held, inbox[..|inbox| - |l.unread|], calls) == l.(unread := [])
  {
    hide ReadRtuFrame, Settled, Seek, Listen;
    var s := Seek(side, held, inbox, 0);
    var later := Listen(side, s.held[s.length..], s.unread, calls - 1);
    var first := inbox[..|inbox| - |s.unread|];
    var second := s.unread[..|s.unread| - |later.unread|];
    assert inbox == first + s.unread;
    HeadReadsOnly(side, held, first, s.unread, second);
    assert inbox[..|inbox| - |later.unread|] == first + second;
    ListenOnce(side, held, inbox, calls);
    ListenOnce(side, held, first + second, calls);
  }

  lemma {:induction false} ListenOnce(side: Side, held: bytes, inbox: bytes, calls: nat)
    requires calls > 0 && Seek(side, held, inbox, 0).Head?
    ensures var s := Seek(side, held, inbox, 0);
      var later := Listen(side, s.held[s.length..], s.unread, calls - 1);
      Listen(side, held, inbox, calls) == later.(trace := Settled(side, held + inbox, s, 0) + later.trace)
  {
    hide ReadRtuFrame, Settled, Seek;
  }

  /** A run of calls depends on no byte it has not read. */
  lemma {:induction false} ListenReadsOnly(side: Side, held: bytes, inbox: bytes, calls: nat)
    ensures var l := Listen(side, held, inbox, calls);
      && |l.unread| <= |inbox|
      && inbox == inbox[..|inbox| - |l.unread|] + l.unread
      && Listen(side, held, inbox[..|inbox| - |l.unread|], calls) == l.(unread := [])
    decreases calls
  {
    hide ReadRtuFrame, Settled;
    if calls == 0 {
      assert inbox[..0] == [];
    } else {
      var s, l := Seek(side, held, inbox, 0), Listen(side, held, inbox, calls);
      SeekUnreadShrinks(side, held, inbox, 0);
      hide Seek;
      if s.Head? {
        ListenReadsOnly(side, s.held[s.length..], s.unread, calls - 1);
        ListenReadsOnlyHead(side, held, inbox, calls);
      } else if s.Unsized? {
        var read := inbox[..|inbox| - |s.unread|];
        assert inbox == read + s.unread;
        SeekReadsOnly(side, held, read, s.unread, [], 0);
        assert read + [] == read;
      } else {
        assert inbox[..|inbox|] == inbox;
      }
    }
  }

  /**
   From an empty buffer, however the port cuts its reads and the pusher its chunks: the
   frames received are the first the splitter returns for the same bytes, and once the
   line has gone quiet the frames, the bytes held and the discards all coincide.
   */
  lemma {:induction false} DriversAgree(side: Side, inbox: bytes, calls: nat, chunks: seq<bytes>)
    requires Join(chunks) == inbox[..|inbox| - UnreadAfter(side, inbox, calls)]
    ensures var l, v := Listen(side, [], inbox, calls), PushAll(side, [], 0, chunks);
      && Packets(l.trace) <= v.found
      && (l.silent ==> v == View(Packets(l.trace), l.held, Losses(l.trace)))
  {
    hide ReadRtuFrame, Settled;
    var read, l := Join(chunks), Listen(side, [], inbox, calls);
    ListenReadsOnly(side, [], inbox, calls);
    ListenRefinesDrain(side, [], read, calls);
    ChunksAreOnePush(side, [], 0, chunks);
    assert [] + read == read && l.held + [] == l.held;
    var after := Drain(side, l.held);
    TraceAppend(l.trace, after.trace);
    assert Packets(l.trace) <= Packets(l.trace) + Packets(after.trace);
    if l.silent {
      assert l.trace + [] == l.trace;
    }
  }

  function UnreadAfter(side: Side, inbox: bytes, calls: nat): (n: nat)
    ensures n <= |inbox|
  {
    ListenReadsOnly(side, [], inbox, calls);
    |Listen(side, [], inbox, calls).unread|
  }
}
