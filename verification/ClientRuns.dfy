/** Runs of a client and a server that answers in order: which request a wait takes the answer to. */
module ClientRuns {
  import opened Bytes
  import opened Pdu
  import opened Tcp
  import opened TcpStream
  import opened Responder
  import opened Client

  /**
   A client and a server that answers in order, over channels that keep order. `claims`
   counts the identifiers the client has claimed; `requests` is every request sent and
   `numbers` which claim each was sent under; `replies` is every answer so far, and `taken`
   counts the messages the client has read. Of the bytes answered, `unread` have arrived
   and are not read yet, and `coming` are still on their way, unless the peer has closed.
   */
  datatype System = System(
    next: int, pending: Option<int>, claims: nat, requests: seq<bytes>, numbers: seq<nat>,
    replies: seq<bytes>, taken: nat, unread: bytes, coming: bytes, closed: bool)

  const START := System(0, None, 0, [], [], [], 0, [], [], false)

  // A client sends and waits, a server serves, the network delivers some bytes and the peer
  // closes, in any order. A wait that has read all there is meets the close, if the peer has
  // closed and the socket does not fail, and else a failure, as when it times out.
  datatype Step =
    | Send(unitId: int, pdu: Pdu, fragSize: int)
    | Serve(refused: bool)
    | Deliver(count: nat)
    | Close
    | Await(fails: bool)

  function WaitNow(s: System, fails: bool): Waited {
    Wait(s.unread, fails || !s.closed, s.pending, MAX_STALE_RESPONSES + 1)
  }

  /** send_request(): an identifier claimed, and a request written unless that fails. */
  function Sending(s: System, unitId: int, pdu: Pdu, fragSize: int): System
    requires WellFormed(pdu)
  {
    var message := SerializeTcp(RequestPacket(s.next, unitId, pdu));
    var claimed := s.(next := (s.next + 1) % TRANS_ID_MODULO, pending := Some(s.next), claims := s.claims + 1);
    if message.Some? && fragSize >= 0 then
      claimed.(requests := s.requests + [message.value], numbers := s.numbers + [s.claims])
    else claimed
  }

  /** One step; a step that cannot be taken leaves everything as it was. */
  function Do(s: System, step: Step): System {
    match step
    case Send(unitId, pdu, fragSize) =>
      if WellFormed(pdu) then Sending(s, unitId, pdu, fragSize) else s
    case Serve(refused) =>
      if |s.replies| < |s.requests| then
        match OnData(s.requests[|s.replies|], refused)
        case Reply(stream) =>
          s.(replies := s.replies + [stream], coming := s.coming + (if s.closed then [] else stream))
        case _ => s
      else s
    case Deliver(count) =>
      var n := if count < |s.coming| then count else |s.coming|;
      s.(unread := s.unread + s.coming[..n], coming := s.coming[n..])
    case Close => s.(coming := [], closed := true)
    case Await(fails) =>
      var w := WaitNow(s, fails);
      s.(pending := w.pending, taken := s.taken + w.frames, unread := w.unread)
  }

  function After(steps: seq<Step>): System {
    if steps == [] then START else Do(After(steps[..|steps| - 1]), steps[|steps| - 1])
  }

  // What every run keeps.

  ghost predicate Numbered(requests: seq<bytes>, numbers: seq<nat>) {
    |requests| == |numbers| && forall k :: 0 <= k < |requests| ==> IsNumber(requests[k], numbers[k])
  }

  ghost predicate IsNumber(request: bytes, number: nat) {
    |request| >= HEADER_SIZE && HeaderOf(request).transId == Identifier(number)
  }

  /** What a server said to a request, refused or not. */
  ghost predicate IsReplyTo(reply: bytes, request: bytes) {
    exists refused :: OnData(request, refused) == Reply(reply)
  }

  ghost predicate Replied(replies: seq<bytes>, requests: seq<bytes>) {
    |replies| <= |requests| && forall i :: 0 <= i < |replies| ==> IsReplyTo(replies[i], requests[i])
  }

  predicate Increasing(numbers: seq<nat>, bound: nat) {
    && (forall i, j :: 0 <= i < j < |numbers| ==> numbers[i] < numbers[j])
    && (forall i :: 0 <= i < |numbers| ==> numbers[i] < bound)
  }

  /** The channels: what was sent and answered, under which numbers. */
  ghost predicate InOrder(s: System) {
    && Numbered(s.requests, s.numbers)
    && Replied(s.replies, s.requests)
    && Answers(s.replies, s.numbers[..|s.replies|])
    && Increasing(s.numbers, s.claims)
  }

  /** The client's memory: the identifiers step with the claims, and the latest is the one pending. */
  ghost predicate Remembers(s: System) {
    && s.next == Identifier(s.claims)
    && (s.pending.Some? ==> s.claims > 0 && s.pending.value == Identifier(s.claims - 1))
  }

  ghost predicate Invariant(s: System) {
    InOrder(s) && Remembers(s)
  }

  lemma {:induction false} SendKeeps(s: System, unitId: int, pdu: Pdu, fragSize: int)
    requires Invariant(s)
    ensures Invariant(Do(s, Send(unitId, pdu, fragSize)))
  {
    hide SerializeTcp, IsNumber, IsReplyTo, AnswersNumber, WellFormed, Identifier;
    if WellFormed(pdu) {
      var t := Sending(s, unitId, pdu, fragSize);
      NextIdentifier(s.claims);
      if |t.requests| > |s.requests| {
        RequestCarriesId(s.next, unitId, pdu, s.claims);
      }
      assert t.numbers[..|t.replies|] == s.numbers[..|s.replies|];
    }
  }

  lemma {:induction false} RequestCarriesId(transId: int, unitId: int, pdu: Pdu, number: nat)
    requires WellFormed(pdu) && SerializeTcp(RequestPacket(transId, unitId, pdu)).Some?
    requires transId == Identifier(number)
    ensures IsNumber(SerializeTcp(RequestPacket(transId, unitId, pdu)).value, number)
  {
    var p := RequestPacket(transId, unitId, pdu);
    var headerBytes := SerializeHeader(p.header).value;
    HeaderRoundTrip(p.header, headerBytes);
    assert SerializeTcp(p).value[..HEADER_SIZE] == headerBytes;
  }

  lemma {:induction false} ServeKeeps(s: System, refused: bool)
    requires Invariant(s)
    ensures Invariant(Do(s, Serve(refused)))
  {
    hide OnData, IsNumber, AnswersNumber, Identifier;
    var t, n := Do(s, Serve(refused)), |s.replies|;
    if t != s {
      ReplyCarriesId(s.requests[n], refused, s.numbers[n]);
      assert IsReplyTo(t.replies[n], s.requests[n]);
      assert t.numbers[..n + 1] == s.numbers[..n] + [s.numbers[n]];
    }
  }

  lemma {:induction false} ReplyCarriesId(request: bytes, refused: bool, number: nat)
    requires IsNumber(request, number) && OnData(request, refused).Reply?
    ensures AnswersNumber(OnData(request, refused).stream, number)
  {
    hide DeserializeRequest, DeserializeResponse, IsFrame, ResponseTo, OnData;
    ReplyReadsBack(request, refused);
  }

  /** A wait leaves the identifier pending or none. */
  lemma {:induction false} WaitForgetsOrKeeps(inbox: bytes, fails: bool, pending: Option<int>, budget: nat)
    ensures Wait(inbox, fails, pending, budget).pending in {None, pending}
    decreases budget
  {
    hide Reception, DeserializeResponse;
    if budget > 0 {
      WaitForgetsOrKeeps(Reception(inbox, fails).1, fails, pending, budget - 1);
    }
  }

  /** Every run, of any steps in any order, keeps the invariant. */
  lemma {:induction false} EveryRun(steps: seq<Step>)
    ensures Invariant(After(steps))
    decreases |steps|
  {
    hide InOrder;
    if steps == [] {
      AtStart();
    } else {
      var before, step := steps[..|steps| - 1], steps[|steps| - 1];
      var s := After(before);
      EveryRun(before);
      match step
      case Send(unitId, pdu, fragSize) => SendKeeps(s, unitId, pdu, fragSize);
      case Serve(refused) => ServeKeeps(s, refused);
      case Deliver(count) => StillInOrder(s, Do(s, step));
      case Close => StillInOrder(s, Do(s, step));
      case Await(fails) =>
        WaitForgetsOrKeeps(s.unread, fails || !s.closed, s.pending, 9);
        StillInOrder(s, Do(s, step));
    }
  }

  lemma {:induction false} StillInOrder(s: System, t: System)
    requires InOrder(s)
    requires t.requests == s.requests && t.numbers == s.numbers && t.replies == s.replies && t.claims == s.claims
    ensures InOrder(t)
  {
  }

  lemma {:induction false} AtStart()
    ensures Invariant(START)
  {
  }

  // Where in the replies the client reads.

  /** What the client has yet to read starts where a reply starts, the one after those it has read. */
  predicate Steady(s: System) {
    && s.taken <= |s.replies|
    && s.unread + s.coming <= Join(s.replies[s.taken..])
    && (s.closed ==> s.coming == [])
    && (!s.closed ==> s.unread + s.coming == Join(s.replies[s.taken..]))
  }

  /** How many replies `n` bytes hold whole. */
  function WholeIn(replies: seq<bytes>, n: nat): (k: nat)
    ensures k <= |replies|
  {
    if replies == [] || n < |replies[0]| then 0 else 1 + WholeIn(replies[1..], n - |replies[0]|)
  }

  function ArrivedCount(s: System): (k: nat)
    ensures s.taken <= |s.replies| ==> s.taken + k <= |s.replies|
  {
    if s.taken <= |s.replies| then WholeIn(s.replies[s.taken..], |s.unread|) else 0
  }

  /** The replies that have arrived whole and are not read yet. */
  function Arrived(s: System): (arrived: seq<bytes>)
    ensures s.taken <= |s.replies| ==> |arrived| == ArrivedCount(s)
  {
    if s.taken <= |s.replies| then s.replies[s.taken..s.taken + ArrivedCount(s)] else []
  }

  /** The claims they answer. */
  function ArrivedNumbers(s: System): seq<nat> {
    if s.taken <= |s.replies| <= |s.numbers| then s.numbers[s.taken..s.taken + ArrivedCount(s)] else []
  }

  /** What has arrived of the reply after those. */
  function Part(s: System): bytes {
    var n := |Join(Arrived(s))|;
    if n <= |s.unread| then s.unread[n..] else []
  }

  /**
   The bytes that arrived end inside a reply, and a wait would read on into it: fewer than
   nine whole replies are ahead, and none of them is one the wait would stop at.
   */
  predicate Torn(s: System) {
    && !s.closed && Part(s) != []
    && match s.pending
       case None => Arrived(s) == []
       case Some(x) => |Arrived(s)| <= 8 && Ahead(ArrivedNumbers(s), x) == |Arrived(s)|
  }

  /** A stream that is the beginning of some replies is the first of them and part of the next. */
  lemma {:induction false} StreamSplits(replies: seq<bytes>, stream: bytes)
    requires stream <= Join(replies)
    ensures var k := WholeIn(replies, |stream|);
      var whole := Join(replies[..k]);
      && whole <= stream
      && (k == |replies| ==> stream == whole)
      && (k < |replies| ==> stream[|whole|..] <= replies[k] && |stream[|whole|..]| < |replies[k]|)
  {
    if replies == [] || |stream| < |replies[0]| {
      assert replies[..0] == [] && stream[0..] == stream;
      assert replies != [] ==> replies[0] <= Join(replies);
    } else {
      var first, rest := replies[0], replies[1..];
      var later := stream[|first|..];
      assert Join(replies) == first + Join(rest);
      assert stream == first + later && later <= Join(rest) by {
        assert stream[..|first|] == Join(replies)[..|stream|][..|first|] == first;
        assert later == Join(replies)[..|stream|][|first|..] == Join(rest)[..|later|];
      }
      StreamSplits(rest, later);
      var k := WholeIn(rest, |later|);
      assert replies[..k + 1] == [first] + rest[..k];
      assert Join(replies[..k + 1]) == first + Join(rest[..k]);
      hide Join;
      SliceOfDrop(stream, |first|, |Join(rest[..k])|, |later|);
    }
  }

  lemma {:induction false} PartIsCutShort(frame: bytes, part: bytes)
    requires IsFrame(frame) && part <= frame && |part| < |frame|
    ensures Unfinished(part)
  {
    if |part| >= HEADER_SIZE {
      assert part[..HEADER_SIZE] == frame[..HEADER_SIZE];
    }
  }

  lemma {:induction false} UnreadSplits(s: System)
    requires Steady(s)
    ensures var part, next := Part(s), s.taken + |Arrived(s)|;
      && s.unread == Join(Arrived(s)) + part
      && (next == |s.replies| ==> part == [])
      && (next < |s.replies| ==> part <= s.replies[next] && |part| < |s.replies[next]|)
  {
    var replies, k := s.replies[s.taken..], ArrivedCount(s);
    StreamSplits(replies, s.unread);
    assert replies[..k] == Arrived(s);
  }

  /** What has arrived answers claims in the order they were made. */
  lemma {:induction false} ArrivedAnswers(s: System)
    requires InOrder(s) && s.taken <= |s.replies|
    ensures var numbers := ArrivedNumbers(s);
      && Answers(Arrived(s), numbers)
      && (forall i :: 0 <= i < |numbers| ==> numbers[i] == s.numbers[s.taken + i])
      && Increasing(numbers, s.claims)
  {
    hide AnswersNumber, IsNumber, IsReplyTo, WholeIn;
    forall i | 0 <= i < ArrivedCount(s) ensures AnswersNumber(Arrived(s)[i], ArrivedNumbers(s)[i]) {
      assert AnswersNumber(s.replies[s.taken + i], s.numbers[..|s.replies|][s.taken + i]);
    }
  }

  /** What a steady client has before it. */
  lemma {:induction false} UnreadIs(s: System)
    requires InOrder(s) && Steady(s)
    ensures s.unread == Join(Arrived(s)) + Part(s) && Unfinished(Part(s))
  {
    hide AnswersNumber, IsNumber, IsReplyTo, CutShort, Unfinished, Arrived, Part, Steady;
    UnreadSplits(s);
    var next := s.taken + |Arrived(s)|;
    ArrivedAtMost(s);
    if next < |s.replies| {
      assert AnswersNumber(s.replies[next], s.numbers[..|s.replies|][next]);
      ReplyIsFrame(s.replies[next], s.numbers[next]);
      PartIsCutShort(s.replies[next], Part(s));
    } else {
      NothingUnfinished();
    }
  }

  lemma {:induction false} ArrivedAtMost(s: System)
    requires Steady(s)
    ensures s.taken <= |s.replies| && s.taken + |Arrived(s)| <= |s.replies|
    ensures forall i :: 0 <= i < |Arrived(s)| ==> Arrived(s)[i] == s.replies[s.taken + i]
  {
  }

  lemma {:induction false} ReplyIsFrame(reply: bytes, number: nat)
    requires AnswersNumber(reply, number)
    ensures IsFrame(reply) && reply != [] && ReadAs(reply).Answered?
  {
  }

  lemma {:induction false} NothingUnfinished()
    ensures Unfinished([])
  {
  }

  // What a wait does to where the client reads.

  /** The last identifier claimed went out with a request. */
  predicate LatestSent(s: System) {
    s.numbers != [] && s.numbers[|s.numbers| - 1] == s.claims - 1
  }

  function Unanswered(s: System): int {
    |s.requests| - s.taken
  }

  /** While an identifier is pending, the answer to its request has not been read. */
  predicate AnswerUnread(s: System) {
    s.pending.Some? && LatestSent(s) ==> Unanswered(s) > 0
  }

  /** The wait read on to the reply to the request sent under claim `number`, and took it for its answer. */
  predicate TakesReplyTo(s: System, w: Waited, number: nat) {
    && w.outcome.Answered? && w.pending == None
    && 0 < w.frames && s.taken + w.frames <= |s.replies| && s.taken + w.frames <= |s.numbers|
    && s.numbers[s.taken + w.frames - 1] == number
    && w.outcome == ReadAs(s.replies[s.taken + w.frames - 1])
  }

  /** How far a wait gets: to the first reply that matches, to its ninth, or to the end. */
  function Reach(s: System): (n: nat)
    ensures n <= |Arrived(s)|
  {
    match s.pending
    case None => if Arrived(s) == [] then 0 else 1
    case Some(x) =>
      var n := Ahead(ArrivedNumbers(s), x);
      if n <= 8 && n < |Arrived(s)| then n + 1
      else if |Arrived(s)| <= 8 then |Arrived(s)|
      else 9
  }

  /** Whether a reply a wait would stop at is within its reach. */
  predicate Stops(s: System) {
    match s.pending
    case None => Arrived(s) != []
    case Some(x) =>
      var n := Ahead(ArrivedNumbers(s), x);
      n <= 8 && n < |Arrived(s)|
  }

  /** A wait, in terms of the replies that have arrived whole and the part of one more. */
  lemma {:induction false} WaitReads(s: System, fails: bool)
    requires InOrder(s) && Steady(s)
    ensures Reads(s, WaitNow(s, fails), fails)
  {
    hide InOrder, Wait, Arrived, ArrivedNumbers, Part, Steady, Answers, Reads, Join;
    ArrivedAtMost(s);
    UnreadIs(s);
    AnswersArrived(s);
    match s.pending
    case Some(x) => ReadsMatch(s, fails, x);
    case None => ReadsAny(s, fails);
  }

  ghost predicate Reads(s: System, w: Waited, fails: bool) {
    var k := Reach(s);
    && w.frames == k
    && w.unread == (if !Stops(s) && k <= 8 then [] else Join(Arrived(s)[k..]) + Part(s))
    && (if Stops(s) then
         && w.pending == None && k > 0 && w.outcome == ReadAs(Arrived(s)[k - 1]) && w.outcome.Answered?
       else
         && w.pending == s.pending
         && w.outcome == if k <= 8 then AtEnd(Part(s), fails || !s.closed) else TooManyStale)
  }

  lemma {:induction false} AnswersArrived(s: System)
    requires InOrder(s) && s.taken <= |s.replies|
    ensures Answers(Arrived(s), ArrivedNumbers(s))
  {
    hide InOrder, Arrived, ArrivedNumbers, Answers;
    ArrivedAnswers(s);
  }

  lemma {:induction false} ReadsMatch(s: System, fails: bool, x: int)
    requires s.pending == Some(x) && s.unread == Join(Arrived(s)) + Part(s)
    requires Answers(Arrived(s), ArrivedNumbers(s)) && Unfinished(Part(s))
    ensures Reads(s, WaitNow(s, fails), fails)
  {
    hide Wait, Ahead, Arrived, ArrivedNumbers, Part, Unfinished, AtEnd, ReadAs, Join, AnswersNumber;
    WaitReadsMatch(Arrived(s), Part(s), fails || !s.closed, ArrivedNumbers(s), x);
  }

  lemma {:induction false} ReadsAny(s: System, fails: bool)
    requires s.pending == None && s.unread == Join(Arrived(s)) + Part(s)
    requires Answers(Arrived(s), ArrivedNumbers(s)) && Unfinished(Part(s))
    ensures Reads(s, WaitNow(s, fails), fails)
  {
    hide Wait, Arrived, ArrivedNumbers, Part, Unfinished, AtEnd, ReadAs, Join, AnswersNumber;
    WaitReadsAny(Arrived(s), Part(s), fails || !s.closed, ArrivedNumbers(s));
  }

  lemma {:induction false} WaitReadsMatch(
      arrived: seq<bytes>, part: bytes, fails: bool, numbers: seq<nat>, x: int)
    requires Answers(arrived, numbers) && Unfinished(part)
    ensures var w, n := Wait(Join(arrived) + part, fails, Some(x), 9), Ahead(numbers, x);
      && w == Found(arrived, part, fails, n, x, 9)
      && (n < |arrived| ==> ReadAs(arrived[n]).Answered?)
  {
    hide AnswersNumber, Wait, Ahead, Identifier, Unfinished, ReadAs, Found;
    WaitFinds(arrived, part, fails, numbers, x, 9);
    var n := Ahead(numbers, x);
    if n < |arrived| {
      ReplyIsFrame(arrived[n], numbers[n]);
    }
  }

  lemma {:induction false} WaitReadsAny(arrived: seq<bytes>, part: bytes, fails: bool, numbers: seq<nat>)
    requires Answers(arrived, numbers) && Unfinished(part)
    ensures Wait(Join(arrived) + part, fails, None, 9) ==
      if arrived == [] then Waited(AtEnd(part, fails), [], None, 0)
      else Waited(ReadAs(arrived[0]), Join(arrived[1..]) + part, None, 1)
    ensures arrived != [] ==> ReadAs(arrived[0]).Answered?
  {
    hide AnswersNumber, Wait, Identifier, Unfinished, ReadAs, AtEnd;
    if arrived == [] {
      assert Join(arrived) + part == part;
      WaitsInVain(part, fails, None, 9);
    } else {
      var more := Join(arrived[1..]) + part;
      assert Join(arrived) + part == arrived[0] + more;
      WaitsOnce(arrived[0], more, fails, numbers[0], None, 9);
      ReplyIsFrame(arrived[0], numbers[0]);
    }
  }

  /** What is left to read once `k` replies have been read whole. */
  lemma {:induction false} ReadOn(s: System, k: nat)
    requires Steady(s) && k <= |Arrived(s)|
    ensures s.taken + k <= |s.replies|
    ensures var left := Join(Arrived(s)[k..]) + Part(s);
      && left + s.coming <= Join(s.replies[s.taken + k..])
      && (!s.closed ==> left + s.coming == Join(s.replies[s.taken + k..]))
      && |s.unread| == |Join(s.replies[s.taken..s.taken + k])| + |left|
  {
    hide Part, Join, ArrivedCount;
    UnreadSplits(s);
    var arrived, replies := Arrived(s), s.replies[s.taken..];
    var before, left := Join(arrived[..k]), Join(arrived[k..]) + Part(s);
    JoinSplits(arrived, k);
    JoinSplits(replies, k);
    assert replies[..k] == arrived[..k] == s.replies[s.taken..s.taken + k];
    assert replies[k..] == s.replies[s.taken + k..];
    assert s.unread == before + left;
    assert s.unread + s.coming == before + (left + s.coming);
    PrefixAfter(before, left + s.coming, Join(replies[k..]));
  }

  lemma {:induction false} JoinSplits(parts: seq<bytes>, k: nat)
    requires k <= |parts|
    ensures Join(parts) == Join(parts[..k]) + Join(parts[k..])
  {
    assert parts == parts[..k] + parts[k..];
    JoinAppend(parts[..k], parts[k..]);
  }

  lemma {:induction false} PrefixAfter(front: bytes, a: bytes, b: bytes)
    ensures front + a <= front + b <==> a <= b
    ensures front + a == front + b <==> a == b
  {
    assert (front + a)[|front|..] == a && (front + b)[|front|..] == b;
    if front + a <= front + b {
      assert (front + b)[..|front + a|][|front|..] == b[..|a|];
    }
  }

  lemma {:induction false} TornReach(s: System)
    requires s.taken <= |s.replies|
    ensures Torn(s) <==> !s.closed && Part(s) != [] && !Stops(s) && Reach(s) <= 8
    ensures !Stops(s) && Reach(s) <= 8 ==> Reach(s) == |Arrived(s)|
    ensures Stops(s) ==> Reach(s) > 0
  {
    hide Arrived, Part, Identifier;
    SameCount(s);
  }

  lemma {:induction false} SameCount(s: System)
    requires s.taken <= |s.replies|
    ensures |s.replies| <= |s.numbers| ==> |ArrivedNumbers(s)| == |Arrived(s)|
  {
  }

  /** A wait keeps the client steady exactly when it is not torn; torn, it leaves every boundary behind. */
  lemma {:induction false} AwaitSteadyIff(s: System, fails: bool)
    requires InOrder(s) && Steady(s)
    ensures Steady(Do(s, Await(fails))) <==> !Torn(s)
    ensures Torn(s) ==> OffBoundary(Do(s, Await(fails)))
  {
    hide InOrder, WaitNow, Arrived, Part, Torn, Stops, Reach, Steady, OffBoundary, Join;
    var t, k := Do(s, Await(fails)), Reach(s);
    ArrivedAtMost(s);
    WaitReads(s, fails);
    TornReach(s);
    if Torn(s) {
      LosesPart(s, t);
    } else if !Stops(s) && k <= 8 {
      ReadsToEnd(s, t);
    } else {
      ReadsWhole(s, t, k);
    }
  }

  lemma {:induction false} ReadsWhole(s: System, t: System, k: nat)
    requires Steady(s) && k <= |Arrived(s)|
    requires t.replies == s.replies && t.taken == s.taken + k && t.closed == s.closed && t.coming == s.coming
    requires t.unread == Join(Arrived(s)[k..]) + Part(s)
    ensures Steady(t)
  {
    hide Arrived, Part;
    ReadOn(s, k);
  }

  lemma {:induction false} ReadsToEnd(s: System, t: System)
    requires Steady(s) && (s.closed || Part(s) == [])
    requires t.replies == s.replies && t.taken == s.taken + |Arrived(s)| && t.closed == s.closed && t.coming == s.coming
    requires t.unread == []
    ensures Steady(t)
  {
    hide Arrived, Part, Join;
    var k := |Arrived(s)|;
    ReadOn(s, k);
    JoinOfNone(Arrived(s)[k..]);
    assert Join(Arrived(s)[k..]) + Part(s) == Part(s);
  }

  lemma {:induction false} JoinOfNone(parts: seq<bytes>)
    ensures parts == [] ==> Join(parts) == []
  {
  }

  /** What there is left to read begins at no reply. */
  ghost predicate OffBoundary(s: System) {
    forall k :: 0 <= k <= |s.replies| ==> s.unread + s.coming != Join(s.replies[k..])
  }

  lemma {:induction false} LosesPart(s: System, t: System)
    requires Steady(s) && !s.closed && Part(s) != []
    requires t.replies == s.replies && t.taken == s.taken + |Arrived(s)| && t.closed == s.closed
    requires t.unread == [] && t.coming == s.coming
    ensures !Steady(t) && OffBoundary(t)
  {
    hide WholeIn, Arrived, Part, Join;
    var k, next := |Arrived(s)|, s.taken + |Arrived(s)|;
    ArrivedAtMost(s);
    UnreadSplits(s);
    ReadOn(s, k);
    JoinOfNone(Arrived(s)[k..]);
    assert Join(s.replies[next..]) == Part(s) + s.coming;
    JoinOfMore(s.replies, next);
    forall k | 0 <= k <= |s.replies| ensures |s.coming| != |Join(s.replies[k..])| {
      if k <= next {
        JoinShrinks(s.replies, k, next);
      } else {
        JoinShrinks(s.replies, next + 1, k);
      }
    }
    assert t.unread + t.coming == s.coming;
  }

  lemma {:induction false} JoinOfMore(parts: seq<bytes>, i: nat)
    requires i < |parts|
    ensures Join(parts[i..]) == parts[i] + Join(parts[i + 1..])
  {
    assert parts[i..][1..] == parts[i + 1..];
  }

  lemma {:induction false} JoinShrinks(parts: seq<bytes>, i: nat, j: nat)
    requires i <= j <= |parts|
    ensures |Join(parts[j..])| <= |Join(parts[i..])|
    decreases j - i
  {
    if i < j {
      assert parts[i..][1..] == parts[i + 1..];
      JoinShrinks(parts, i + 1, j);
    }
  }

  lemma {:induction false} ServeSteady(s: System, refused: bool)
    requires Steady(s)
    ensures Steady(Do(s, Serve(refused)))
  {
    hide OnData;
    var t := Do(s, Serve(refused));
    if t != s {
      var reply, late := t.replies[|s.replies|], s.replies[s.taken..];
      assert t.replies[s.taken..] == late + [reply];
      JoinAppend(late, [reply]);
      assert Join([reply]) == reply;
      hide Join;
      assert !s.closed ==> t.unread + t.coming == s.unread + s.coming + reply;
    }
  }

  lemma {:induction false} DeliverSteady(s: System, count: nat)
    requires Steady(s)
    ensures Steady(Do(s, Deliver(count)))
  {
    hide Join;
    var n := if count < |s.coming| then count else |s.coming|;
    assert s.unread + s.coming[..n] + s.coming[n..] == s.unread + s.coming;
  }

  lemma {:induction false} CloseSteady(s: System)
    requires Steady(s)
    ensures Steady(Do(s, Close))
  {
    hide Join;
    assert s.unread + [] == s.unread;
  }

  /** What keeps the client steady, step by step. */
  lemma {:induction false} StepSteadyIff(s: System, step: Step)
    requires InOrder(s) && Steady(s)
    ensures Steady(Do(s, step)) <==> !(step.Await? && Torn(s))
    ensures step.Await? && Torn(s) ==> OffBoundary(Do(s, step))
  {
    hide InOrder, Torn, OffBoundary;
    match step
    case Send(unitId, pdu, fragSize) => SendSteady(s, unitId, pdu, fragSize);
    case Serve(refused) => ServeSteady(s, refused);
    case Deliver(count) => DeliverSteady(s, count);
    case Close => CloseSteady(s);
    case Await(fails) => AwaitSteadyIff(s, fails);
  }

  lemma {:induction false} SendSteady(s: System, unitId: int, pdu: Pdu, fragSize: int)
    requires Steady(s)
    ensures Steady(Do(s, Send(unitId, pdu, fragSize)))
  {
    hide SerializeTcp, WellFormed;
  }

  /** No wait of the run was torn. */
  predicate Untorn(steps: seq<Step>) {
    steps != [] ==>
      && Untorn(steps[..|steps| - 1])
      && !(steps[|steps| - 1].Await? && Torn(After(steps[..|steps| - 1])))
  }

  /** The client was steady all through the run. */
  predicate AlwaysSteady(steps: seq<Step>) {
    && Steady(After(steps))
    && (steps != [] ==> AlwaysSteady(steps[..|steps| - 1]))
  }

  /**
   Over a run the client reads from where a reply starts, exactly when no wait found the
   bytes that had arrived to end inside a reply it had to read.
   */
  lemma {:induction false} SteadyIffUntorn(steps: seq<Step>)
    ensures AlwaysSteady(steps) <==> Untorn(steps)
    decreases |steps|
  {
    hide Steady, Torn, InOrder, Remembers, Do;
    if steps == [] {
      StartIsSteady();
    } else {
      var before, step := steps[..|steps| - 1], steps[|steps| - 1];
      SteadyIffUntorn(before);
      EveryRun(before);
      if Steady(After(before)) {
        StepSteadyIff(After(before), step);
      }
    }
  }

  lemma {:induction false} StartIsSteady()
    ensures Steady(START) && AnswerUnread(START)
  {
  }

  lemma {:induction false} AwaitLeavesLatest(s: System, fails: bool)
    requires Invariant(s) && Steady(s) && AnswerUnread(s)
    ensures AnswerUnread(Do(s, Await(fails)))
  {
    hide InOrder, WaitNow, Steady, ReadAs, Identifier, AtEnd, Part, Arrived, Reach, Stops;
    WaitReads(s, fails);
    if s.pending.Some? && LatestSent(s) && !Stops(s) {
      PassedNotLatest(s);
    }
  }

  /** A wait that stops at no reply has not read the latest request's. */
  lemma {:induction false} PassedNotLatest(s: System)
    requires Invariant(s) && Steady(s) && AnswerUnread(s) && s.pending.Some? && LatestSent(s) && !Stops(s)
    ensures s.taken + Reach(s) < |s.requests|
  {
    hide InOrder, Steady, Identifier, Arrived, ArrivedNumbers, Ahead, Increasing, Answers;
    var numbers, k := ArrivedNumbers(s), Reach(s);
    ArrivedAtMost(s);
    ArrivedAnswers(s);
    Sizes(s);
    AheadIsFirst(numbers, s.pending.value);
    if k > 0 {
      assert numbers[k - 1] == s.numbers[s.taken + k - 1];
      assert Identifier(numbers[k - 1]) != s.pending.value;
    }
  }

  lemma {:induction false} Sizes(s: System)
    requires InOrder(s)
    ensures |s.requests| == |s.numbers| && |s.replies| <= |s.requests|
    ensures s.taken <= |s.replies| ==> |ArrivedNumbers(s)| == |Arrived(s)|
    ensures s.numbers != [] ==> s.numbers[|s.numbers| - 1] < s.claims
  {
    hide IsNumber, IsReplyTo, AnswersNumber;
  }

  /** A run no wait of which was torn. */
  lemma {:induction false} UntornRun(steps: seq<Step>)
    requires Untorn(steps)
    ensures Invariant(After(steps)) && Steady(After(steps)) && AnswerUnread(After(steps))
    decreases |steps|
  {
    hide Steady, Torn, InOrder, Remembers, Do, AnswerUnread;
    EveryRun(steps);
    if steps == [] {
      StartIsSteady();
    } else {
      var before, step := steps[..|steps| - 1], steps[|steps| - 1];
      UntornRun(before);
      StepSteadyIff(After(before), step);
      match step
      case Send(unitId, pdu, fragSize) => SendKeepsUnread(After(before), unitId, pdu, fragSize);
      case Await(fails) => AwaitLeavesLatest(After(before), fails);
      case _ => ChannelKeepsUnread(After(before), step);
    }
  }

  lemma {:induction false} ChannelKeepsUnread(s: System, step: Step)
    requires AnswerUnread(s) && (step.Serve? || step.Deliver? || step.Close?)
    ensures AnswerUnread(Do(s, step))
  {
    hide OnData;
  }

  lemma {:induction false} SendKeepsUnread(s: System, unitId: int, pdu: Pdu, fragSize: int)
    requires InOrder(s) && Steady(s) && AnswerUnread(s)
    ensures AnswerUnread(Do(s, Send(unitId, pdu, fragSize)))
  {
    hide SerializeTcp, WellFormed, InOrder, Steady;
    Sizes(s);
    ArrivedAtMost(s);
  }

  // Which request a wait takes the answer to.

  /** A claim other than the latest, under the identifier of the latest. */
  predicate SharesIdentifier(numbers: seq<nat>, latest: nat, i: nat) {
    i < |numbers| && numbers[i] != latest && Identifier(numbers[i]) == Identifier(latest)
  }

  predicate Shared(numbers: seq<nat>, latest: nat, reach: nat) {
    exists i :: 0 <= i <= reach && SharesIdentifier(numbers, latest, i)
  }

  /** One of the next nine replies that have arrived answers an earlier request under the pending identifier. */
  predicate Reused(s: System) {
    s.claims > 0 && Shared(ArrivedNumbers(s), s.claims - 1, 8)
  }

  /** The latest request went out, and its answer, with all before it, has arrived. */
  predicate LatestArrived(s: System) {
    LatestSent(s) && s.taken + |Arrived(s)| == |s.requests|
  }

  /** Where the first match is, over claims in order of which none is after `latest`. */
  lemma {:induction false} FirstMatch(numbers: seq<nat>, latest: nat, reach: nat)
    requires Increasing(numbers, latest + 1)
    ensures var n := Ahead(numbers, Identifier(latest));
      && (n < |numbers| && n <= reach && numbers[n] != latest <==> Shared(numbers, latest, reach))
      && (n < |numbers| && n <= reach && numbers[n] == latest <==>
        !Shared(numbers, latest, reach) && 0 < |numbers| <= reach + 1 && numbers[|numbers| - 1] == latest)
      && (n < |numbers| && numbers[n] == latest ==> n == |numbers| - 1)
  {
    hide Ahead, Identifier;
    var n, last := Ahead(numbers, Identifier(latest)), |numbers| - 1;
    AheadIsFirst(numbers, Identifier(latest));
    if n < |numbers| && n <= reach && numbers[n] != latest {
      assert SharesIdentifier(numbers, latest, n);
    }
    if i :| 0 <= i <= reach && SharesIdentifier(numbers, latest, i) {
      assert n <= i && numbers[i] < latest;
      assert n < i ==> numbers[n] < numbers[i];
    }
    if numbers != [] && numbers[last] == latest {
      assert n <= last;
    }
  }

  /** The reply a wait takes is the first that matches. */
  lemma {:induction false} TakesFirstMatch(s: System, fails: bool)
    requires Invariant(s) && Steady(s) && s.pending.Some?
    ensures var w, numbers := WaitNow(s, fails), ArrivedNumbers(s);
      var n := Ahead(numbers, s.pending.value);
      if n <= 8 && n < |numbers| then
        w.frames == n + 1 && TakesReplyTo(s, w, numbers[n])
      else
        w.pending == s.pending && w.outcome in {NoPeer, Raised, TooManyStale}
  {
    hide InOrder, WaitNow, Steady, ReadAs, Identifier, Part, Arrived, ArrivedNumbers, Increasing, Answers, Ahead, Join;
    WaitReads(s, fails);
    AtTheReach(s);
  }

  /** The last reply a wait reads, and the claim it answers. */
  lemma {:induction false} AtTheReach(s: System)
    requires Invariant(s) && Steady(s)
    ensures var k := Reach(s);
      && |ArrivedNumbers(s)| == |Arrived(s)| && s.taken + k <= |s.replies| <= |s.numbers|
      && (k > 0 ==> Arrived(s)[k - 1] == s.replies[s.taken + k - 1])
      && (k > 0 ==> ArrivedNumbers(s)[k - 1] == s.numbers[s.taken + k - 1])
  {
    hide InOrder, Steady, Reach, Answers, Increasing, Arrived, ArrivedNumbers;
    ArrivedAtMost(s);
    ArrivedAnswers(s);
    Sizes(s);
  }

  /** The latest request's answer has arrived exactly when the last of what has arrived is it. */
  lemma {:induction false} LatestIsLast(s: System)
    requires Invariant(s) && Steady(s) && AnswerUnread(s) && s.pending.Some?
    ensures var numbers := ArrivedNumbers(s);
      && (LatestArrived(s) <==> numbers != [] && numbers[|numbers| - 1] == s.claims - 1)
      && (LatestArrived(s) ==> |numbers| == Unanswered(s))
  {
    hide InOrder, Remembers, Steady, Arrived, ArrivedNumbers, Increasing, Answers;
    ArrivedAtMost(s);
    ArrivedAnswers(s);
    Sizes(s);
    OnlyLastIsLatest(s);
  }

  lemma {:induction false} OnlyLastIsLatest(s: System)
    requires InOrder(s)
    ensures forall i :: 0 <= i < |s.numbers| && s.numbers[i] == s.claims - 1 ==> i == |s.numbers| - 1
  {
    hide IsNumber, IsReplyTo, AnswersNumber;
    var last := |s.numbers| - 1;
    forall i | 0 <= i < last ensures s.numbers[i] != s.claims - 1 {
      assert s.numbers[i] < s.numbers[last] < s.claims;
    }
  }

  lemma {:induction false} OneReply(s: System, w: Waited)
    ensures forall a: nat, b: nat :: TakesReplyTo(s, w, a) && TakesReplyTo(s, w, b) ==> a == b
    ensures forall a: nat :: TakesReplyTo(s, w, a) ==> w.outcome.Answered?
  {
  }

  /**
   After any run of which no wait was torn, a wait with a request pending takes the answer
   to another request exactly when one of the next nine replies answers a request whose
   identifier has come round; it takes the answer to the latest request exactly when there
   is no such reply, that request went out, its response has arrived, and at most eight are
   ahead of it. Otherwise it answers nothing and stays pending.
   */
  lemma {:induction false} WhatAWaitAnswers(steps: seq<Step>, fails: bool)
    requires Untorn(steps) && After(steps).pending.Some?
    ensures var s := After(steps); var w := WaitNow(s, fails);
      && s.claims > 0
      && ((exists number: nat :: TakesReplyTo(s, w, number) && number != s.claims - 1) <==> Reused(s))
      && (TakesReplyTo(s, w, s.claims - 1) <==>
        !Reused(s) && LatestArrived(s) && Unanswered(s) <= 9)
      && (w.outcome.Answered? <==> exists number: nat :: TakesReplyTo(s, w, number))
      && (!w.outcome.Answered? ==> w.pending == s.pending && w.outcome in {NoPeer, Raised, TooManyStale})
  {
    hide After, Untorn, WaitNow, TakesReplyTo, Ahead, Identifier, SharesIdentifier, Increasing, Steady, AnswerUnread;
    hide LatestArrived, InOrder;
    var s, w := After(steps), WaitNow(After(steps), fails);
    UntornRun(steps);
    ArrivedAtMost(s);
    ArrivedAnswers(s);
    var numbers := ArrivedNumbers(s);
    var n := Ahead(numbers, s.pending.value);
    TakesFirstMatch(s, fails);
    NoneAfter(numbers, s.claims);
    FirstMatch(numbers, s.claims - 1, 8);
    OneReply(s, w);
    LatestIsLast(s);
  }

  lemma {:induction false} NoneAfter(numbers: seq<nat>, claims: nat)
    requires claims > 0 && Increasing(numbers, claims)
    ensures Increasing(numbers, claims - 1 + 1)
  {
  }

  /** How many identifiers have been claimed from the oldest unanswered request on. */
  function Span(s: System): int {
    if s.taken < |s.numbers| then s.claims - s.numbers[s.taken] else 0
  }

  /** Within one round of identifiers, none is reused. */
  lemma {:induction false} ReusedNeedsARound(s: System)
    requires InOrder(s) && s.taken <= |s.replies|
    ensures Reused(s) ==> Span(s) > 65536
  {
    hide Identifier, AnswersNumber, IsNumber, IsReplyTo, WholeIn;
    ArrivedAnswers(s);
    Sizes(s);
    if Reused(s) {
      var numbers := ArrivedNumbers(s);
      var i :| 0 <= i <= 8 && SharesIdentifier(numbers, s.claims - 1, i);
      if Span(s) <= 65536 {
        SameIdentifier(numbers[i], s.claims - 1);
      }
    }
  }

  /** The answer given is what the server said to the latest request, under the identifier it was sent with. */
  ghost predicate LatestAnswer(s: System, packet: TcpPacket) {
    s.requests != [] && LatestSent(s) &&
    var request := s.requests[|s.requests| - 1];
    && IsNumber(request, s.claims - 1)
    && packet.header.transId == HeaderOf(request).transId
    && SaidTo(packet, request)
  }

  ghost predicate SaidTo(packet: TcpPacket, request: bytes) {
    && |request| >= HEADER_SIZE && !DeserializeRequest(request).Unreadable?
    && exists refused :: packet == AnswerPacket(HeaderOf(request), ResponseTo(request, refused))
  }

  /**
   After any run of which no wait was torn, and while at most 65536 identifiers have been
   claimed from the oldest unanswered request on, a wait with a request pending either
   answers it, and then with what the server said to the very latest request and having
   read everything, or answers nothing.
   */
  lemma {:induction false} AnswersTheLatest(steps: seq<Step>, fails: bool)
    requires Untorn(steps) && After(steps).pending.Some? && Span(After(steps)) <= 65536
    ensures var s := After(steps); var w := WaitNow(s, fails);
      && (w.outcome.Answered? <==> LatestArrived(s) && Unanswered(s) <= 9)
      && (w.outcome.Answered? ==>
        && LatestAnswer(s, w.outcome.packet)
        && w.pending == None && w.unread == [] && w.frames == Unanswered(s))
      && (!w.outcome.Answered? ==> w.pending == s.pending && w.outcome in {NoPeer, Raised, TooManyStale})
  {
    hide WaitNow, LatestAnswer, After, Untorn, InOrder, Remembers, TakesReplyTo, Reused, LatestArrived, Steady;
    hide AnswerUnread;
    var s, w := After(steps), WaitNow(After(steps), fails);
    UntornRun(steps);
    ArrivedAtMost(s);
    WhatAWaitAnswers(steps, fails);
    ReusedNeedsARound(s);
    TakenIsLatest(s, fails);
  }

  lemma {:induction false} TakenIsLatest(s: System, fails: bool)
    requires Invariant(s) && Steady(s)
    ensures var w := WaitNow(s, fails);
      s.claims > 0 && LatestArrived(s) && TakesReplyTo(s, w, s.claims - 1) ==>
      && LatestAnswer(s, w.outcome.packet)
      && w.pending == None && w.unread == [] && w.frames == Unanswered(s)
  {
    hide InOrder, Remembers, WaitNow, ReadAs, Steady, TakesReplyTo, LatestArrived, LatestAnswer;
    var w := WaitNow(s, fails);
    if s.claims > 0 && LatestArrived(s) && TakesReplyTo(s, w, s.claims - 1) {
      ArrivedAtMost(s);
      LastTaken(s, w);
      LatestSaid(s);
      LastReadsAll(s, fails);
    }
  }

  lemma {:induction false} LatestSaid(s: System)
    requires InOrder(s) && |s.replies| == |s.requests| == |s.numbers| > 0
    requires s.numbers[|s.requests| - 1] == s.claims - 1
    ensures var read := ReadAs(s.replies[|s.requests| - 1]); read.Answered? && LatestAnswer(s, read.packet)
  {
    hide InOrder, IsNumber, IsReplyTo, SaidTo, ReadAs, HeaderOf;
    var last := |s.requests| - 1;
    SaidInOrder(s, last);
    LatestReply(s.requests[last], s.replies[last], s.numbers[last]);
  }

  lemma {:induction false} LastReadsAll(s: System, fails: bool)
    requires InOrder(s) && Steady(s) && s.taken + WaitNow(s, fails).frames == |s.replies|
    requires WaitNow(s, fails).outcome.Answered?
    ensures WaitNow(s, fails).unread == []
  {
    hide InOrder, WaitNow, Arrived, Part, Reach, Stops, Join, ReadAs, AtEnd, Steady;
    WaitReads(s, fails);
    UnreadSplits(s);
    ArrivedAtMost(s);
    JoinOfNone(Arrived(s)[Reach(s)..]);
  }

  lemma {:induction false} SaidInOrder(s: System, i: nat)
    requires InOrder(s) && i < |s.replies|
    ensures |s.replies| <= |s.requests| == |s.numbers|
    ensures IsReplyTo(s.replies[i], s.requests[i]) && IsNumber(s.requests[i], s.numbers[i])
  {
    hide IsReplyTo, IsNumber, AnswersNumber;
  }

  lemma {:induction false} LastTaken(s: System, w: Waited)
    requires InOrder(s) && s.claims > 0 && LatestArrived(s) && TakesReplyTo(s, w, s.claims - 1)
    requires s.taken <= |s.replies|
    ensures s.taken + w.frames == |s.requests| == |s.replies| && w.pending == None && w.outcome.Answered?
    ensures |s.numbers| == |s.requests| > 0 && s.numbers[|s.requests| - 1] == s.claims - 1
    ensures w.outcome == ReadAs(s.replies[|s.requests| - 1])
  {
    hide AnswersNumber, IsNumber, IsReplyTo, WholeIn, ReadAs;
    assert s.taken + w.frames - 1 == |s.requests| - 1;
  }

  lemma {:induction false} LatestReply(request: bytes, reply: bytes, number: nat)
    requires IsNumber(request, number) && IsReplyTo(reply, request)
    ensures ReadAs(reply).Answered? && SaidTo(ReadAs(reply).packet, request)
    ensures ReadAs(reply).packet.header.transId == HeaderOf(request).transId
  {
    hide HeaderOf, DeserializeResponse, DeserializeRequest, IsFrame, ResponseTo, OnData;
    var refused :| OnData(request, refused) == Reply(reply);
    ReplyReadsBack(request, refused);
  }
}
