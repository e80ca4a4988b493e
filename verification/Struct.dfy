/** The big-endian half of Python's struct module that the PDU layouts use. */
module Struct {
  import opened Bytes

  // The two format letters every layout is made of.
  datatype Code = B | H

  function Width(code: Code): nat {
    if code == B then 1 else 2
  }

  function CalcSize(format: seq<Code>): nat {
    if format == [] then 0 else Width(format[0]) + CalcSize(format[1..])
  }

  function Limit(code: Code): nat {
    if code == B then 0x100 else 0x1_0000
  }

  function PackOne(code: Code, value: int): Option<bytes> {
    if !(0 <= value < Limit(code)) then None
    else if code == B then Some([value])
    else Some([value / 0x100, value % 0x100])
  }

  /** None is struct.error: a value out of range, or not one value a letter. */
  function Pack(format: seq<Code>, values: seq<int>): Option<bytes> {
    if format == [] || values == [] then
      if format == [] && values == [] then Some([]) else None
    else
      match (PackOne(format[0], values[0]), Pack(format[1..], values[1..]))
      case (Some(first), Some(rest)) => Some(first + rest)
      case _ => None
  }

  function UnpackOne(code: Code, stream: bytes): (value: int)
    requires |stream| == Width(code)
    ensures 0 <= value < Limit(code)
    ensures PackOne(code, value) == Some(stream)
  {
    if code == B then
      assert stream == [stream[0]];
      stream[0] as int
    else
      assert stream == [stream[0], stream[1]];
      Word(stream[0], stream[1])
  }

  /** None is struct.error: the stream is not exactly the size of the format. */
  function Unpack(format: seq<Code>, stream: bytes): (r: Option<seq<int>>)
    ensures r.Some? <==> |stream| == CalcSize(format)
    ensures r.Some? ==> |r.value| == |format|
  {
    if format == [] then
      if stream == [] then Some([]) else None
    else if |stream| < Width(format[0]) then None
    else
      var w := Width(format[0]);
      match Unpack(format[1..], stream[w..])
      case Some(rest) => Some([UnpackOne(format[0], stream[..w])] + rest)
      case None => None
  }

  lemma {:induction false} PackThenUnpack(format: seq<Code>, values: seq<int>)
    requires Pack(format, values).Some?
    ensures Unpack(format, Pack(format, values).value) == Some(values)
  {
    if format != [] {
      var w, stream := Width(format[0]), Pack(format, values).value;
      var rest := Pack(format[1..], values[1..]).value;
      PackThenUnpack(format[1..], values[1..]);
      assert stream[w..] == rest && stream[..w] == PackOne(format[0], values[0]).value;
      assert UnpackOne(format[0], stream[..w]) == values[0];
      assert values == [values[0]] + values[1..];
    }
  }

  lemma {:induction false} UnpackThenPack(format: seq<Code>, stream: bytes)
    requires Unpack(format, stream).Some?
    ensures Pack(format, Unpack(format, stream).value) == Some(stream)
  {
    if format != [] {
      var w := Width(format[0]);
      UnpackThenPack(format[1..], stream[w..]);
      var values := Unpack(format, stream).value;
      assert values[1..] == Unpack(format[1..], stream[w..]).value;
      assert stream == stream[..w] + stream[w..];
    }
  }

  /** Packing and unpacking under one format are each other's inverse. */
  lemma {:induction false} PackIffUnpack(format: seq<Code>, values: seq<int>, stream: bytes)
    ensures Pack(format, values) == Some(stream) <==> Unpack(format, stream) == Some(values)
  {
    if Pack(format, values) == Some(stream) {
      PackThenUnpack(format, values);
    }
    if Unpack(format, stream) == Some(values) {
      UnpackThenPack(format, stream);
    }
  }

  lemma {:induction false} CalcSizeAppend(a: seq<Code>, b: seq<Code>)
    ensures CalcSize(a + b) == CalcSize(a) + CalcSize(b)
  {
    if a == [] {
      assert a + b == b;
    } else {
      assert (a + b)[1..] == a[1..] + b;
      CalcSizeAppend(a[1..], b);
    }
  }

  lemma {:induction false} CalcSizeCopies(code: Code, n: nat)
    ensures CalcSize(Copies(code, n)) == n * Width(code)
  {
    if n > 0 {
      assert Copies(code, n)[1..] == Copies(code, n - 1);
      CalcSizeCopies(code, n - 1);
    }
  }

  /** Unpacking a format made of two reads the stream in two. */
  lemma {:induction false} UnpackAppend(a: seq<Code>, b: seq<Code>, x: bytes, y: bytes)
    requires |x| == CalcSize(a) && |y| == CalcSize(b)
    ensures Unpack(a + b, x + y) == Some(Unpack(a, x).value + Unpack(b, y).value)
  {
    CalcSizeAppend(a, b);
    if a == [] {
      assert a + b == b && x + y == y;
      assert Unpack(a, x).value + Unpack(b, y).value == Unpack(b, y).value;
    } else {
      var w := Width(a[0]);
      assert (a + b)[1..] == a[1..] + b;
      assert (x + y)[w..] == x[w..] + y && (x + y)[..w] == x[..w];
      UnpackAppend(a[1..], b, x[w..], y);
      var first := [UnpackOne(a[0], x[..w])];
      var front, back := Unpack(a[1..], x[w..]).value, Unpack(b, y).value;
      assert Unpack(a + b, x + y).value == first + (front + back);
      assert first + (front + back) == (first + front) + back;
    }
  }

  /** The front of what was packed is what the front of the values packs to. */
  lemma {:induction false} PackFront(front: seq<Code>, format: seq<Code>, values: seq<int>, stream: bytes)
    requires front <= format && Pack(format, values) == Some(stream)
    ensures |front| <= |values| && CalcSize(front) <= |stream|
    ensures Pack(front, values[..|front|]) == Some(stream[..CalcSize(front)])
  {
    PackIffUnpack(format, values, stream);
    var back := format[|front|..];
    assert format == front + back;
    CalcSizeAppend(front, back);
    var x, y := stream[..CalcSize(front)], stream[CalcSize(front)..];
    assert stream == x + y;
    UnpackAppend(front, back, x, y);
    assert values[..|front|] == Unpack(front, x).value;
    PackIffUnpack(front, values[..|front|], x);
  }

  /** Every value unpacked is one its letter can hold. */
  lemma {:induction false} UnpackInRange(format: seq<Code>, stream: bytes, i: nat)
    requires |stream| == CalcSize(format) && i < |format|
    ensures 0 <= Unpack(format, stream).value[i] < Limit(format[i])
  {
    var w, rest := Width(format[0]), format[1..];
    if i > 0 {
      UnpackInRange(rest, stream[w..], i - 1);
      assert Unpack(format, stream).value[i] == Unpack(rest, stream[w..]).value[i - 1];
    }
  }

  /** Where in the stream each value sits. */
  lemma {:induction false} UnpackAt(format: seq<Code>, stream: bytes, i: nat)
    requires |stream| == CalcSize(format) && i < |format|
    ensures var at := CalcSize(format[..i]);
      && at + Width(format[i]) <= |stream|
      && Unpack(format, stream).value[i] == UnpackOne(format[i], stream[at..at + Width(format[i])])
  {
    var w, rest := Width(format[0]), format[1..];
    if i == 0 {
      assert format[..0] == [];
    } else {
      UnpackAt(rest, stream[w..], i - 1);
      assert format[..i][1..] == rest[..i - 1];
      var at := CalcSize(rest[..i - 1]);
      SliceOfDrop(stream, w, at, at + Width(format[i]));
    }
  }

  lemma {:induction false} PackNeedsOneValueEach(format: seq<Code>, values: seq<int>)
    requires |format| != |values|
    ensures Pack(format, values).None?
  {
    if format != [] && values != [] {
      PackNeedsOneValueEach(format[1..], values[1..]);
    }
  }

  /** A format packs exactly one value a letter, each within its letter's range. */
  lemma {:induction false} PacksIff(format: seq<Code>, values: seq<int>)
    ensures Pack(format, values).Some? <==>
      |format| == |values| && forall i :: 0 <= i < |format| ==> 0 <= values[i] < Limit(format[i])
  {
    if format != [] && values != [] {
      var f, v := format[1..], values[1..];
      PacksIff(f, v);
      if |format| == |values| {
        assert (forall i :: 0 <= i < |f| ==> 0 <= v[i] < Limit(f[i])) <==>
          forall i :: 1 <= i < |format| ==> 0 <= values[i] < Limit(format[i]) by {
          if forall i :: 0 <= i < |f| ==> 0 <= v[i] < Limit(f[i]) {
            forall i | 1 <= i < |format| ensures 0 <= values[i] < Limit(format[i]) {
              assert 0 <= v[i - 1] < Limit(f[i - 1]);
            }
          }
        }
      }
    }
  }
}
