/** Every PDU and every frame by its bytes: where each class keeps its fields, and how long it says it is. */
module WireForms {
  import opened Bytes
  import opened Struct
  import opened Crc
  import opened Pdu
  import opened PduLaws
  import opened Rtu

  /** The word that starts at a byte. */
  function At(s: bytes, i: nat): int
    requires i + 2 <= |s|
  {
    0x100 * (s[i] as int) + s[i + 1]
  }

  /** A sequence of bytes as the words they spell. */
  function Words(s: bytes): (words: seq<int>)
    ensures |words| == |s| / 2
    ensures forall i :: 0 <= i < |s| / 2 ==> words[i] == At(s, 2 * i)
  {
    seq(|s| / 2, i requires 0 <= i < |s| / 2 => At(s, 2 * i))
  }

  // The fields of a PDU, and the sequence that follows them.
  datatype Content = Content(fields: seq<int>, tail: seq<int>)

  /** What a registered function code's bytes hold; None where they are not such a PDU. */
  function ContentOf(side: Side, s: bytes): Option<Content>
    requires s != []
  {
    var code := s[0];
    if code in {5, 6} || (side == Request && code in {1, 2, 3, 4}) || (side == Response && code in {15, 16}) then
      if |s| == 5 then Some(Content([At(s, 1), At(s, 3)], [])) else None
    else if code == 7 then
      if side == Request then if |s| == 1 then Some(Content([], [])) else None
      else if |s| == 2 then Some(Content([s[1]], [])) else None
    else if code == 8 then
      if |s| >= 3 && |s| % 2 == 1 then Some(Content([At(s, 1)], Words(s[3..]))) else None
    else if code == 22 then
      if |s| == 7 then Some(Content([At(s, 1), At(s, 3), At(s, 5)], [])) else None
    else if code == 43 then
      if |s| >= 2 then Some(Content([s[1]], s[2..])) else None
    else if code == 15 then
      if |s| >= 6 then Some(Content([At(s, 1), At(s, 3), s[5]], s[6..])) else None
    else if code == 16 then
      if |s| >= 6 && |s| % 2 == 0 then Some(Content([At(s, 1), At(s, 3), s[5]], Words(s[6..]))) else None
    else if code == 23 && side == Request then
      if |s| >= 10 && |s| % 2 == 0 then
        Some(Content([At(s, 1), At(s, 3), At(s, 5), At(s, 7), s[9]], Words(s[10..])))
      else None
    else if code in {1, 2} then
      if |s| >= 2 then Some(Content([s[1]], s[2..])) else None
    else if |s| >= 2 && |s| % 2 == 0 then Some(Content([s[1]], Words(s[2..])))
    else None
  }

  const CODES: set<int> := {1, 2, 3, 4, 5, 6, 7, 8, 15, 16, 22, 23, 43}

  /** The PDU that bytes travelling in one direction are. */
  function Decode(side: Side, s: bytes): Option<Pdu> {
    if s == [] then None
    else if side == Response && s[0] >= 0x80 then
      if |s| == 2 then Some(Pdu(Exception, s[0] - 0x80, [s[1]], [])) else None
    else if s[0] !in CODES then Some(Pdu(Generic, s[0], [], s[1..]))
    else
      match ContentOf(side, s)
      case Some(content) => Some(Pdu(Shipped(side, s[0]), s[0], content.fields, content.tail))
      case None => None
  }

  // Unpacking, letter by letter.

  lemma {:induction false} UnpackByte(rest: seq<Code>, s: bytes)
    ensures Unpack([B] + rest, s) ==
      if s == [] || Unpack(rest, s[1..]).None? then None else Some([s[0] as int] + Unpack(rest, s[1..]).value)
  {
    assert ([B] + rest)[1..] == rest;
  }

  lemma {:induction false} UnpackWord(rest: seq<Code>, s: bytes)
    ensures Unpack([H] + rest, s) ==
      if |s| < 2 || Unpack(rest, s[2..]).None? then None else Some([At(s, 0)] + Unpack(rest, s[2..]).value)
  {
    assert ([H] + rest)[1..] == rest;
  }

  lemma {:induction false} UnpackBytes(n: nat, s: bytes)
    ensures Unpack(Copies(B, n), s) == if |s| == n then Some(s) else None
  {
    CalcSizeCopies(B, n);
    if n > 0 {
      assert Copies(B, n) == [B] + Copies(B, n - 1);
      UnpackByte(Copies(B, n - 1), s);
      if s != [] {
        UnpackBytes(n - 1, s[1..]);
        assert [s[0] as int] + s[1..] == s;
      }
    }
  }

  lemma {:induction false} UnpackWords(n: nat, s: bytes)
    ensures Unpack(Copies(H, n), s) == if |s| == 2 * n then Some(Words(s)) else None
  {
    CalcSizeCopies(H, n);
    if n == 0 {
      assert s == [] ==> Words(s) == [];
    } else {
      hide Unpack;
      assert Copies(H, n) == [H] + Copies(H, n - 1);
      UnpackWord(Copies(H, n - 1), s);
      if |s| >= 2 {
        UnpackWords(n - 1, s[2..]);
        FirstWord(s);
      }
    }
  }

  lemma {:induction false} FirstWord(s: bytes)
    requires |s| >= 2
    ensures [At(s, 0)] + Words(s[2..]) == Words(s)
  {
    forall i | 0 < i < |s| / 2 ensures Words(s)[i] == Words(s[2..])[i - 1] {
      assert Words(s[2..])[i - 1] == At(s[2..], 2 * (i - 1));
    }
  }

  /** A tail of either kind. */
  function TailOf(code: Code, s: bytes): seq<int> {
    if code == B then s else Words(s)
  }

  lemma {:induction false} UnpackTail(code: Code, n: nat, s: bytes)
    ensures Unpack(Copies(code, n), s) == if |s| == n * Width(code) then Some(TailOf(code, s)) else None
  {
    if code == B {
      UnpackBytes(n, s);
    } else {
      UnpackWords(n, s);
    }
  }

  /** What a class makes of a stream, head and tail apart. */
  lemma {:induction false} DeserializesAs(cls: PduClass, s: bytes, head: seq<Code>, values: seq<int>)
    requires Known(cls) && LayoutOf(cls).head == head && HeadSize(cls) >= 1
    requires |s| >= HeadSize(cls) ==>
      && Unpack([B] + head, s[..HeadSize(cls)]).Some?
      && Unpack([B] + head, s[..HeadSize(cls)]).value == values
    ensures var h, tail := HeadSize(cls), LayoutOf(cls).tail;
      var fits := |s| >= h && (if tail.None? then |s| == h else (|s| - h) % Width(tail.value) == 0);
      && (Deserialize(cls, s).Some? <==> fits)
      && (fits ==>
        && |values| == 1 + |head|
        && Deserialize(cls, s).value.fields == values[1..]
        && Deserialize(cls, s).value.tail == (if tail.None? then [] else TailOf(tail.value, s[h..]))
        && Deserialize(cls, s).value.fc == match cls
           case Generic => values[0]
           case Exception => values[0] - ERROR_MASK
           case Shipped(_, code) => code)
  {
    hide LayoutOf, Unpack, TailOf;
    var h, n, tail := HeadSize(cls), ItemsIn(cls, s), LayoutOf(cls).tail;
    if n >= 0 {
      FormatSize(cls, n);
      if tail.None? {
        assert Format(cls, n) == [B] + head && n == 0;
        assert |s| == h ==> s[..h] == s;
      } else if |s| >= h {
        UnpackTail(tail.value, n, s[h..]);
        assert s == s[..h] + s[h..];
        CalcSizeAppend([B], head);
        CalcSizeCopies(tail.value, n);
        if |s| - h == n * Width(tail.value) {
          UnpackAppend([B] + head, Copies(tail.value, n), s[..h], s[h..]);
        }
      }
    }
  }

  // The heads there are.

  lemma {:induction false} UnpackTwoWords(rest: seq<Code>, s: bytes)
    ensures Unpack([H, H] + rest, s) ==
      if |s| < 4 || Unpack(rest, s[4..]).None? then None else Some([At(s, 0), At(s, 2)] + Unpack(rest, s[4..]).value)
  {
    hide Unpack;
    assert [H, H] + rest == [H] + ([H] + rest);
    UnpackWord([H] + rest, s);
    if |s| >= 2 {
      UnpackWord(rest, s[2..]);
      if |s| >= 4 {
        assert s[2..][2..] == s[4..] && At(s[2..], 0) == At(s, 2);
        if Unpack(rest, s[4..]).Some? {
          var later := Unpack(rest, s[4..]).value;
          assert [At(s, 0)] + ([At(s, 2)] + later) == [At(s, 0), At(s, 2)] + later;
        }
      }
    }
  }

  lemma {:induction false} UnpackNothing(s: bytes)
    ensures Unpack([], s) == if s == [] then Some([]) else None
  {
  }

  lemma {:induction false} CodeAlone(s: bytes)
    requires |s| == 1
    ensures Unpack([B], s).Some? && Unpack([B], s).value == [s[0] as int] && CalcSize([B]) == 1
  {
    assert [B] == [B] + [];
    UnpackByte([], s);
    assert [s[0] as int] + [] == [s[0] as int];
  }

  lemma {:induction false} CodeAndByte(s: bytes)
    requires |s| == 2
    ensures Unpack([B, B], s).Some? && Unpack([B, B], s).value == [s[0] as int, s[1] as int]
  {
    assert [B, B] == [B] + [B];
    UnpackByte([B], s);
    CodeAlone(s[1..]);
  }

  lemma {:induction false} CodeAndWord(s: bytes)
    requires |s| == 3
    ensures Unpack([B, H], s).Some? && Unpack([B, H], s).value == [s[0] as int, At(s, 1)] && CalcSize([H]) == 2
  {
    assert [B, H] == [B] + [H] && [H] == [H] + [];
    UnpackByte([H], s);
    UnpackWord([], s[1..]);
    assert At(s[1..], 0) == At(s, 1);
  }

  lemma {:induction false} CodeAndTwo(s: bytes)
    requires |s| == 5
    ensures Unpack([B, H, H], s).Some? && Unpack([B, H, H], s).value == [s[0] as int, At(s, 1), At(s, 3)] && CalcSize([H, H]) == 4
  {
    hide Unpack;
    assert [B, H, H] == [B] + [H, H] && [H, H] == [H, H] + [];
    UnpackByte([H, H], s);
    UnpackTwoWords([], s[1..]);
    UnpackNothing(s[1..][4..]);
    assert At(s[1..], 0) == At(s, 1) && At(s[1..], 2) == At(s, 3);
  }

  lemma {:induction false} CodeAndThree(s: bytes)
    requires |s| == 7
    ensures Unpack([B, H, H, H], s).Some? && Unpack([B, H, H, H], s).value == [s[0] as int, At(s, 1), At(s, 3), At(s, 5)] && CalcSize([H, H, H]) == 6
  {
    hide Unpack;
    assert [B, H, H, H] == [B] + [H, H, H] && [H, H, H] == [H, H] + [H] && [H] == [H] + [];
    UnpackByte([H, H, H], s);
    UnpackTwoWords([H], s[1..]);
    UnpackWord([], s[1..][4..]);
    UnpackNothing(s[1..][4..][2..]);
    assert At(s[1..], 0) == At(s, 1) && At(s[1..], 2) == At(s, 3) && At(s[1..][4..], 0) == At(s, 5);
    assert CalcSize([H, H]) == 4;
  }

  lemma {:induction false} CodeTwoAndCount(s: bytes)
    requires |s| == 6
    ensures Unpack([B, H, H, B], s).Some? && Unpack([B, H, H, B], s).value == [s[0] as int, At(s, 1), At(s, 3), s[5] as int] && CalcSize([H, H, B]) == 5
  {
    hide Unpack;
    assert [B, H, H, B] == [B] + [H, H, B] && [H, H, B] == [H, H] + [B];
    UnpackByte([H, H, B], s);
    UnpackTwoWords([B], s[1..]);
    CodeAlone(s[1..][4..]);
    assert At(s[1..], 0) == At(s, 1) && At(s[1..], 2) == At(s, 3);
    CalcSizeAppend([H, H], [B]);
    assert CalcSize([H, H]) == 4;
  }

  lemma {:induction false} CodeFourAndCount(s: bytes)
    requires |s| == 10
    ensures Unpack([B, H, H, H, H, B], s).Some? && Unpack([B, H, H, H, H, B], s).value == [s[0] as int, At(s, 1), At(s, 3), At(s, 5), At(s, 7), s[9] as int]
    ensures CalcSize([H, H, H, H, B]) == 9
  {
    hide Unpack;
    assert [B, H, H, H, H, B] == [B] + [H, H, H, H, B] && [H, H, H, H, B] == [H, H] + [H, H, B];
    assert [H, H, B] == [H, H] + [B];
    var t := s[1..];
    UnpackByte([H, H, H, H, B], s);
    UnpackTwoWords([H, H, B], t);
    UnpackTwoWords([B], t[4..]);
    CodeAlone(t[4..][4..]);
    assert At(t, 0) == At(s, 1) && At(t, 2) == At(s, 3) && At(t[4..], 0) == At(s, 5) && At(t[4..], 2) == At(s, 7);
    CalcSizeAppend([H, H], [H, H, B]);
    CalcSizeAppend([H, H], [B]);
    assert CalcSize([H, H]) == 4;
  }

  // Parsing, head by head.

  lemma {:induction false} ParseCode(side: Side, s: bytes)
    requires s != [] && (s[0] !in CODES || (side == Request && s[0] == 7)) && (side == Response ==> s[0] < 0x80)
    ensures Parse(side, s) == Decode(side, s)
  {
    hide Unpack, Deserialize;
    assert [B] + [] == [B];
    CodeAlone(s[..1]);
    DeserializesAs(ClassOf(side, s[0]), s, [], [s[0] as int]);
  }

  lemma {:induction false} ParseByte(side: Side, s: bytes)
    requires s != [] && ((side == Response && s[0] in {1, 2, 3, 4, 7, 23}) || s[0] == 43 || (side == Response && s[0] >= 0x80))
    ensures Parse(side, s) == Decode(side, s)
  {
    hide Unpack, Deserialize;
    assert [B] + [B] == [B, B];
    CodeAlone([0]);
    CodeAndByte(if |s| >= 2 then s[..2] else [0, 0]);
    DeserializesAs(ClassOf(side, s[0]), s, [B], if |s| >= 2 then [s[0], s[1]] else []);
  }

  lemma {:induction false} ParseWord(side: Side, s: bytes)
    requires s != [] && s[0] == 8
    ensures Parse(side, s) == Decode(side, s)
  {
    hide Unpack, Deserialize;
    assert [B] + [H] == [B, H];
    CodeAndWord(if |s| >= 3 then s[..3] else [0, 0, 0]);
    DeserializesAs(ClassOf(side, s[0]), s, [H], if |s| >= 3 then [s[0], At(s, 1)] else []);
  }

  lemma {:induction false} ParseTwo(side: Side, s: bytes)
    requires s != [] && (s[0] in {5, 6} || (side == Request && s[0] in {1, 2, 3, 4}) || (side == Response && s[0] in {15, 16}))
    ensures Parse(side, s) == Decode(side, s)
  {
    hide Unpack, Deserialize;
    assert [B] + [H, H] == [B, H, H];
    CodeAndTwo(if |s| >= 5 then s[..5] else [0, 0, 0, 0, 0]);
    DeserializesAs(ClassOf(side, s[0]), s, [H, H], if |s| >= 5 then [s[0], At(s, 1), At(s, 3)] else []);
  }

  lemma {:induction false} ParseThree(side: Side, s: bytes)
    requires s != [] && s[0] == 22
    ensures Parse(side, s) == Decode(side, s)
  {
    hide Unpack, Deserialize;
    assert [B] + [H, H, H] == [B, H, H, H];
    CodeAndThree(if |s| >= 7 then s[..7] else [0, 0, 0, 0, 0, 0, 0]);
    DeserializesAs(ClassOf(side, s[0]), s, [H, H, H], if |s| >= 7 then [s[0], At(s, 1), At(s, 3), At(s, 5)] else []);
  }

  lemma {:induction false} ParseWrites(side: Side, s: bytes)
    requires s != [] && side == Request && s[0] in {15, 16}
    ensures Parse(side, s) == Decode(side, s)
  {
    hide Unpack, Deserialize;
    assert [B] + [H, H, B] == [B, H, H, B];
    CodeTwoAndCount(if |s| >= 6 then s[..6] else [0, 0, 0, 0, 0, 0]);
    DeserializesAs(ClassOf(side, s[0]), s, [H, H, B], if |s| >= 6 then [s[0], At(s, 1), At(s, 3), s[5]] else []);
  }

  lemma {:induction false} ParseReadWrite(side: Side, s: bytes)
    requires s != [] && side == Request && s[0] == 23
    ensures Parse(side, s) == Decode(side, s)
  {
    hide Unpack, Deserialize;
    assert [B] + [H, H, H, H, B] == [B, H, H, H, H, B];
    CodeFourAndCount(if |s| >= 10 then s[..10] else [0, 0, 0, 0, 0, 0, 0, 0, 0, 0]);
    DeserializesAs(ClassOf(side, s[0]), s, [H, H, H, H, B], if |s| >= 10 then [s[0], At(s, 1), At(s, 3), At(s, 5), At(s, 7), s[9]] else []);
  }

  /** Parsing is decoding, class by class and byte by byte. */
  lemma {:induction false} ParseIsDecode(side: Side, s: bytes)
    ensures Parse(side, s) == Decode(side, s)
  {
    hide Parse, Decode;
    if s == [] {
      NothingParses(side);
    } else if (side == Response && s[0] >= 0x80) || s[0] == 43 || (side == Response && s[0] in {1, 2, 3, 4, 7, 23}) {
      ParseByte(side, s);
    } else if s[0] !in CODES || s[0] == 7 {
      ParseCode(side, s);
    } else if s[0] == 8 {
      ParseWord(side, s);
    } else if s[0] == 22 {
      ParseThree(side, s);
    } else if s[0] == 23 {
      ParseReadWrite(side, s);
    } else if side == Request && s[0] in {15, 16} {
      ParseWrites(side, s);
    } else {
      ParseTwo(side, s);
    }
  }

  lemma {:induction false} NothingParses(side: Side)
    ensures Parse(side, []) == Decode(side, [])
  {
  }

  /** A PDU prints as the bytes it decodes from, and as no others. */
  lemma {:induction false} PrintsAs(side: Side, p: Pdu, s: bytes)
    requires WellFormed(p) && Travels(side, p)
    ensures Serialize(p) == Some(s) <==>
      && Decode(side, s) == Some(p)
      && (side == Response && s != [] && s[0] in {1, 2} ==> p.fields == [|p.tail|])
  {
    hide Serialize, Parse, Decode;
    ParseIsDecode(side, s);
    if Serialize(p) == Some(s) {
      PrintThenParse(side, p);
      SerializedTail(p);
    }
    if Decode(side, s) == Some(p) {
      ParseThenPrint(side, s);
      CountedBits(side, p, s);
      assert |p.fields| == 1 ==> (p.fields == [|p.tail|] <==> p.fields[0] == |p.tail|);
    }
  }

  lemma {:induction false} CountedBits(side: Side, p: Pdu, s: bytes)
    requires WellFormed(p) && Decode(side, s) == Some(p)
    ensures s != [] && (FormatsByCount(p.cls) <==> side == Response && s[0] in {1, 2})
    ensures FormatsByCount(p.cls) ==> |p.fields| == 1 && TailCount(p) == p.fields[0]
  {
  }

  // Frames.

  // How long a frame on a serial line says it is; not until more of it has come, or never.
  datatype Length = Bytes(n: nat) | Unknown | Never

  /** What the first bytes of a frame say of its length, slave identifier and checksum included. */
  function LengthOf(side: Side, s: bytes): Length
    requires |s| >= 4
  {
    var code := s[1];
    if side == Response && code >= 0x80 then Bytes(5)
    else if code in {5, 6} || (side == Request && code in {1, 2, 3, 4}) || (side == Response && code in {15, 16}) then
      Bytes(8)
    else if code == 7 then Bytes(if side == Request then 4 else 5)
    else if code == 22 then Bytes(10)
    else if side == Response && code in {1, 2, 3, 4, 23} then Bytes(5 + s[2] as int)
    else if side == Request && code in {15, 16} then if |s| < 7 then Unknown else Bytes(9 + s[6] as int)
    else if side == Request && code == 23 then if |s| < 11 then Unknown else Bytes(13 + s[10] as int)
    else if code == 8 && At(s, 2) in {1, 2, 3, 4, 10, 11, 12, 13, 14, 15, 16, 17, 18, 20} then Bytes(8)
    else Never
  }

  /** The verdict on a buffer head, by its bytes and its checksum. */
  lemma {:induction false} VerdictByBytes(side: Side, s: bytes)
    ensures ReadRtuFrame(side, s) ==
      if |s| < 4 then Incomplete(4 - |s|)
      else
        match LengthOf(side, s)
        case Never => Unsizable
        case Unknown => Incomplete(1)
        case Bytes(n) =>
          if |s| < n then Incomplete(n - |s|)
          else if Accepts(s[..n]) then Frame(Packet(s[..n]), n)
          else Rejected
  {
    hide DeserializeRtu, Accepts, Packet;
    if |s| >= 4 {
      SizeByBytes(side, s);
      match LengthOf(side, s)
      case Bytes(n) =>
        if |s| >= n {
          PacketIfAccepted(s[..n]);
        }
      case _ =>
    }
  }

  lemma {:induction false} PacketIfAccepted(frame: bytes)
    requires |frame| >= 4
    ensures DeserializeRtu(frame, true) == if Accepts(frame) then Some(Packet(frame)) else None
  {
    AcceptsIffReproduced(frame);
  }

  lemma {:induction false} SizeByBytes(side: Side, s: bytes)
    requires |s| >= 4
    ensures ExpectedSize(ClassOf(side, s[1]), s[1..]) ==
      match LengthOf(side, s)
      case Never => NoSize
      case Unknown => Short
      case Bytes(n) => if n >= 3 then Size(n - 3) else NoSize
  {
    hide CalcSize;
    HeadLengths();
    assert s[1..][1] == s[2] && s[1..][2] == s[3];
    assert |s| >= 7 ==> s[1..][5] == s[6];
    assert |s| >= 11 ==> s[1..][9] == s[10];
  }

  lemma {:induction false} HeadLengths()
    ensures CalcSize([]) == 0 && CalcSize([B]) == 1 && CalcSize([H]) == 2 && CalcSize([H, H]) == 4
    ensures CalcSize([H, H, H]) == 6 && CalcSize([H, H, B]) == 5 && CalcSize([H, H, H, H, B]) == 9
  {
    CodeAndThree([0, 0, 0, 0, 0, 0, 0]);
    CodeTwoAndCount([0, 0, 0, 0, 0, 0]);
    CodeFourAndCount([0, 0, 0, 0, 0, 0, 0, 0, 0, 0]);
    assert CalcSize([H, H]) == 4;
  }

  /** The heads that only silence can bound, by function code. */
  lemma {:induction false} UnsizableIff(side: Side, s: bytes)
    ensures ReadRtuFrame(side, s).Unsizable? <==>
      && |s| >= 4 && !(side == Response && s[1] >= 0x80)
      && (s[1] !in {1, 2, 3, 4, 5, 6, 7, 8, 15, 16, 22, 23}
        || (s[1] == 8 && At(s, 2) !in {1, 2, 3, 4, 10, 11, 12, 13, 14, 15, 16, 17, 18, 20}))
  {
    hide ReadRtuFrame;
    VerdictByBytes(side, s);
  }
}
