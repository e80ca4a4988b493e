/** Parsing, printing and sizing agree. */
module PduLaws {
  import opened Bytes
  import opened Struct
  import opened Pdu

  lemma {:induction false} SerializedSize(p: Pdu)
    requires WellFormed(p) && Serialize(p).Some?
    ensures |Serialize(p).value| == Len(p)
  {
    PackIffUnpack(Format(p.cls, TailCount(p)), Values(p), Serialize(p).value);
    FormatSize(p.cls, TailCount(p));
  }

  lemma {:induction false} SerializedCode(p: Pdu)
    requires WellFormed(p) && Serialize(p).Some?
    ensures |Serialize(p).value| > 0 && Serialize(p).value[0] == WireCode(p)
  {
    var format, stream := Format(p.cls, TailCount(p)), Serialize(p).value;
    PackIffUnpack(format, Values(p), stream);
    UnpackAt(format, stream, 0);
  }

  /** A PDU that serializes holds as many items as its format says. */
  lemma {:induction false} SerializedTail(p: Pdu)
    requires WellFormed(p) && Serialize(p).Some?
    ensures TailCount(p) == |p.tail|
  {
    if TailCount(p) != |p.tail| {
      PackNeedsOneValueEach(Format(p.cls, TailCount(p)), Values(p));
    }
  }

  predicate InRange(format: seq<Code>, values: seq<int>) {
    |format| == |values| && forall i :: 0 <= i < |format| ==> 0 <= values[i] < Limit(format[i])
  }

  /** A PDU serializes exactly when its code, its fields and its items fit, and its items are counted. */
  lemma {:induction false} SerializesIff(p: Pdu)
    requires WellFormed(p)
    ensures Serialize(p).Some? <==>
      && TailCount(p) == |p.tail|
      && 0 <= WireCode(p) < 0x100
      && InRange(LayoutOf(p.cls).head, p.fields)
      && (LayoutOf(p.cls).tail.Some? ==>
        forall i :: 0 <= i < |p.tail| ==> 0 <= p.tail[i] < Limit(LayoutOf(p.cls).tail.value))
  {
    assert FormatsByCount(p.cls) ==> LayoutOf(p.cls).tail == Some(B);
    hide LayoutOf, Pack;
    var layout, n := LayoutOf(p.cls), |p.tail|;
    if TailCount(p) != n {
      if TailCount(p) >= 0 {
        PackNeedsOneValueEach(Format(p.cls, TailCount(p)), Values(p));
      }
    } else {
      var format, values, k := Format(p.cls, n), Values(p), 1 + |layout.head|;
      PacksIff(format, values);
      assert format[0] == B && values[0] == WireCode(p);
      assert format[1..k] == layout.head && values[1..k] == p.fields && values[k..] == p.tail;
      assert layout.tail.Some? ==> format[k..] == Copies(layout.tail.value, n);
      RangesSplit(format, values, k);
    }
  }

  lemma {:induction false} RangesSplit(format: seq<Code>, values: seq<int>, k: nat)
    requires 1 <= k <= |format| == |values|
    ensures InRange(format, values) <==>
      && 0 <= values[0] < Limit(format[0])
      && InRange(format[1..k], values[1..k])
      && InRange(format[k..], values[k..])
  {
    if InRange(format[1..k], values[1..k]) && InRange(format[k..], values[k..]) && 0 <= values[0] < Limit(format[0]) {
      forall i | 0 <= i < |format| ensures 0 <= values[i] < Limit(format[i]) {
        if 0 < i < k {
          assert format[1..k][i - 1] == format[i] && values[1..k][i - 1] == values[i];
        } else if k <= i {
          assert format[k..][i - k] == format[i] && values[k..][i - k] == values[i];
        }
      }
    }
  }

  // Parse, then print.

  lemma {:induction false} DeserializedValues(cls: PduClass, stream: bytes)
    requires Known(cls) && Deserialize(cls, stream).Some?
    requires cls.Shipped? ==> stream != [] && stream[0] == cls.code
    ensures var p := Deserialize(cls, stream).value;
      && |p.tail| == ItemsIn(cls, stream)
      && Pack(Format(cls, |p.tail|), Values(p)) == Some(stream)
      && (FormatsByCount(cls) ==> p.fields[0] >= 0)
  {
    hide Pack, Unpack, Copies;
    var n := ItemsIn(cls, stream);
    var format := Format(cls, n);
    var values := Unpack(format, stream).value;
    ByteAt([], format, stream);
    var p := Deserialize(cls, stream).value;
    assert Values(p) == values;
    PackIffUnpack(format, values, stream);
    if FormatsByCount(cls) {
      UnpackInRange(format, stream, 1);
    }
  }

  /**
   Printing what was parsed gives the bytes back, except that an FC1 or FC2 response
   cannot be printed when its count byte is not the number of status bytes that came.
   */
  lemma {:induction false} ParseThenPrint(side: Side, stream: bytes)
    requires Parse(side, stream).Some?
    ensures var p := Parse(side, stream).value;
      Serialize(p) == if FormatsByCount(p.cls) && p.fields[0] != |p.tail| then None else Some(stream)
  {
    var p := Parse(side, stream).value;
    DeserializedValues(p.cls, stream);
    if FormatsByCount(p.cls) && p.fields[0] != |p.tail| {
      PackNeedsOneValueEach(Format(p.cls, p.fields[0]), Values(p));
    }
  }

  /** A coil response that counts two status bytes and carries one is parsed, and cannot be printed. */
  lemma {:induction false} WrongCountCannotBePrinted()
    ensures var p := Parse(Response, [0x01, 0x02, 0xFF]);
      && p == Some(Pdu(Shipped(Response, 1), 1, [0x02], [0xFF]))
      && Serialize(p.value) == None
  {
    var cls, stream: bytes := Shipped(Response, 1), [0x01, 0x02, 0xFF];
    assert CalcSize([B]) == 1;
    assert HeadSize(cls) == 2 && ItemsIn(cls, stream) == 1;
    assert Format(cls, 1) == [B, B, B];
    ThreeBytesUnpack(0x01, 0x02, 0xFF);
    var values := [0x01, 0x02, 0xFF];
    assert values[1..2] == [0x02] && values[2..] == [0xFF];
    assert Deserialize(cls, stream) == Some(Pdu(cls, 1, [0x02], [0xFF]));
    ParseThenPrint(Response, stream);
  }

  lemma {:induction false} ThreeBytesUnpack(a: byte, b: byte, c: byte)
    ensures Unpack([B, B, B], [a, b, c]) == Some([a as int, b as int, c as int])
  {
    var stream: bytes := [a, b, c];
    assert [B, B, B][1..] == [B, B] && [B, B][1..] == [B] && [B][1..] == [];
    assert stream[1..] == [b, c] && stream[1..][1..] == [c] && stream[1..][1..][1..] == [];
    assert CalcSize([B, B]) == 2 && CalcSize([B, B, B]) == 3;
    UnpackAt([B, B, B], stream, 0);
    UnpackAt([B, B, B], stream, 1);
    UnpackAt([B, B, B], stream, 2);
    assert [B, B, B][..0] == [] && [B, B, B][..1] == [B] && [B, B, B][..2] == [B, B];
    assert CalcSize([B]) == 1;
    var values := Unpack([B, B, B], stream).value;
    assert values == [values[0], values[1], values[2]];
  }

  lemma {:induction false} GenericReadsAnything(stream: bytes)
    ensures Deserialize(Generic, stream).Some? <==> stream != []
    ensures stream != [] ==> Serialize(Deserialize(Generic, stream).value) == Some(stream)
  {
    FormatSize(Generic, if stream == [] then 0 else |stream| - 1);
    if stream != [] {
      DeserializedValues(Generic, stream);
    }
  }

  /** The PDUs whose function code leads a parser back to their own class. */
  predicate Travels(side: Side, p: Pdu) {
    0 <= WireCode(p) < 0x100 && ClassOf(side, WireCode(p)) == p.cls
  }

  /** Parsing what was printed gives the PDU back. */
  lemma {:induction false} PrintThenParse(side: Side, p: Pdu)
    requires WellFormed(p) && Travels(side, p) && Serialize(p).Some?
    ensures Parse(side, Serialize(p).value) == Some(p)
  {
    var stream := Serialize(p).value;
    SerializedCode(p);
    SerializedTail(p);
    SerializedSize(p);
    assert ItemsIn(p.cls, stream) == |p.tail|;
    PackIffUnpack(Format(p.cls, |p.tail|), Values(p), stream);
    var k := 1 + |LayoutOf(p.cls).head|;
    assert Values(p)[1..k] == p.fields && Values(p)[k..] == p.tail;
  }

  // Sizing.

  /** No head is longer than that of an FC23 request; a counting response has the shortest. */
  lemma {:induction false} HeadSizes(cls: PduClass)
    ensures HeadSize(cls) <= 10
    ensures LayoutOf(cls).counted && cls.side == Response ==> HeadSize(cls) == 2
  {
    assert CalcSize([H, H, B]) == 5 && CalcSize([H, H]) == 4;
    assert CalcSize([H, H, H, H, B]) == 4 + CalcSize([H, H, B]);
    assert CalcSize([H, H, H]) == 2 + CalcSize([H, H]);
  }

  /** The PDUs whose own content says how long they are. */
  predicate StatesItsSize(p: Pdu)
    requires WellFormed(p)
  {
    var layout := LayoutOf(p.cls);
    if p.cls.Shipped? && p.cls.code == DIAGNOSTICS then
      && |p.tail| == 1
      && p.fields[0] in DIAGNOSTIC_SUB_FUNCTIONS
      && p.fields[0] != DIAGNOSTIC_ECHO_SUB_FUNCTION
    else
      || layout.tail.None?
      || (layout.counted && p.fields[|p.fields| - 1] == |p.tail| * TailWidth(p.cls))
  }

  /** The last field of a counting layout is the last byte of the head. */
  lemma {:induction false} CountOnTheWire(p: Pdu)
    requires WellFormed(p) && Serialize(p).Some?
    requires LayoutOf(p.cls).counted
    ensures var stream, n := Serialize(p).value, HeadSize(p.cls);
      n <= |stream| && stream[n - 1] == p.fields[|p.fields| - 1]
  {
    hide LayoutOf, CalcSize, Pack, Unpack, Copies;
    var head, format, stream := LayoutOf(p.cls).head, Format(p.cls, TailCount(p)), Serialize(p).value;
    PackIffUnpack(format, Values(p), stream);
    ByteAt([B] + head[..|head| - 1], format, stream);
    CalcSizeAppend([B] + head[..|head| - 1], [B]);
    assert [B] + head == [B] + head[..|head| - 1] + [B];
    CalcSizeAppend([B], head);
    CalcSizeOne();
  }

  lemma {:induction false} ByteAt(before: seq<Code>, format: seq<Code>, stream: bytes)
    requires before + [B] <= format && Unpack(format, stream).Some?
    ensures CalcSize(before) < |stream| && stream[CalcSize(before)] == Unpack(format, stream).value[|before|]
  {
    assert format[..|before|] == before;
    UnpackAt(format, stream, |before|);
  }

  lemma {:induction false} CalcSizeOne()
    ensures CalcSize([B]) == 1
  {
  }

  lemma {:induction false} WordAfterCode(format: seq<Code>, stream: bytes)
    requires |format| >= 2 && format[..2] == [B, H] && |stream| == CalcSize(format)
    ensures |stream| >= 3 && Unpack(format, stream).value[1] == Word(stream[1], stream[2])
  {
    assert format[..1] == [B] && CalcSize(format[..1]) == 1;
    UnpackAt(format, stream, 1);
  }

  lemma {:induction false} SubFunctionOnTheWire(p: Pdu)
    requires WellFormed(p) && Serialize(p).Some?
    requires p.cls.Shipped? && p.cls.code == DIAGNOSTICS
    ensures var stream := Serialize(p).value;
      |stream| == 3 + 2 * |p.tail| && Word(stream[1], stream[2]) == p.fields[0]
  {
    assert LayoutOf(p.cls) == Open([H], H) && CalcSize([H]) == 2;
    var format, stream := Format(p.cls, |p.tail|), Serialize(p).value;
    SerializedSize(p);
    SerializedTail(p);
    PackIffUnpack(format, Values(p), stream);
    assert format[..2] == [B, H];
    WordAfterCode(format, stream);
    assert Values(p)[1] == p.fields[0];
  }

  /** Whatever follows it on the line, a PDU is sized right exactly when it states its size. */
  lemma {:induction false} SizedIffStated(p: Pdu, rest: bytes)
    requires WellFormed(p) && Serialize(p).Some?
    ensures var stream := Serialize(p).value;
      ExpectedSize(p.cls, stream + rest) == Size(|stream|) <==> StatesItsSize(p)
  {
    SerializedSize(p);
    SerializedTail(p);
    if p.cls.Shipped? && p.cls.code == DIAGNOSTICS {
      SubFunctionOnTheWire(p);
    } else if LayoutOf(p.cls).counted {
      CountOnTheWire(p);
    }
  }

  /** From any prefix, the size is right or, while the head is cut, not yet known. */
  lemma {:induction false} SizedFromPrefix(p: Pdu, n: nat)
    requires WellFormed(p) && Serialize(p).Some? && StatesItsSize(p)
    requires n <= |Serialize(p).value|
    ensures var stream := Serialize(p).value;
      ExpectedSize(p.cls, stream[..n]) ==
        if LayoutOf(p.cls).tail.Some? && n < HeadSize(p.cls) then Short else Size(|stream|)
  {
    SerializedSize(p);
    SerializedTail(p);
    if p.cls.Shipped? && p.cls.code == DIAGNOSTICS {
      SubFunctionOnTheWire(p);
    } else if LayoutOf(p.cls).counted {
      CountOnTheWire(p);
    }
  }
}
