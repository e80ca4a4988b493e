/** The published check value that tests/adu/test_rtu_crc.py holds the checksum to. */
module CrcVectors {
  import opened Bytes
  import opened Crc

  /** Exclusive or with one bit flips it. */
  lemma {:induction false} XorOneBit(k: nat, high: nat, low: nat)
    requires low < Up(k, 1)
    ensures Xor(Up(k, high) + low, Up(k, 1)) == Up(k, if high % 2 == 1 then high - 1 else high + 1) + low
  {
    var x, flipped := Up(k, high) + low, if high % 2 == 1 then high - 1 else high + 1;
    XorStep(x, Up(k, 1));
    hide Xor;
    if k == 0 {
      XorCancels(high / 2, 0);
    } else {
      XorOneBit(k - 1, high, low / 2);
      assert x / 2 == Up(k - 1, high) + low / 2 && x % 2 == low % 2;
      assert Up(k, 1) / 2 == Up(k - 1, 1);
      assert Up(k, flipped) == 2 * Up(k - 1, flipped);
    }
  }

  lemma {:induction false} XorStep(a: nat, b: nat)
    ensures Xor(a, b) == 2 * Xor(a / 2, b / 2) + (if a % 2 == b % 2 then 0 else 1)
  {
  }

  lemma {:induction false} UpThirteen(x: nat)
    ensures Up(13, x) == 0x2000 * x
  {
    UpByte(x);
    assert Up(10, x) == 4 * Up(8, x);
    assert Up(12, x) == 4 * Up(10, x);
  }

  function FlipLowest(x: nat): nat {
    if x % 2 == 1 then x - 1 else x + 1
  }

  /** A shift in arithmetic alone: bits 15, 13 and 0 are flipped when a one was shifted out. */
  function PlainShift(crc: nat): nat {
    if crc % 2 == 0 then crc / 2
    else FlipLowest(0x8000 + 0x2000 * FlipLowest(crc / 2 / 0x2000) + crc / 2 % 0x2000)
  }

  lemma {:induction false} GeneratorBits()
    ensures Xor(0x8000, Xor(0x2000, 1)) == GENERATOR
  {
    hide Xor;
    Powers();
    UpThirteen(1);
    XorAdds(1, 0x1000, 1);
    XorAdds(15, 1, 0x2001);
  }

  lemma {:induction false} ShiftIsPlain(crc: word)
    ensures Shift(crc) == PlainShift(crc)
  {
    hide Xor;
    if crc % 2 == 1 {
      var x := crc / 2;
      Powers();
      UpThirteen(1);
      UpThirteen(x / 0x2000);
      UpThirteen(FlipLowest(x / 0x2000));
      XorOneBit(13, x / 0x2000, x % 0x2000);
      var y := Xor(x, 0x2000);
      assert y == 0x2000 * FlipLowest(x / 0x2000) + x % 0x2000;
      XorAdds(15, 1, y);
      XorOneBit(0, 0x8000 + y, 0);
      GeneratorBits();
      XorCommutes(0x8000, y);
      XorAssociates(x, 0x2000, 0x8000);
      XorAssociates(x, Xor(0x2000, 0x8000), 1);
      XorCommutes(0x2000, 0x8000);
      XorAssociates(0x8000, 0x2000, 1);
    }
  }

  lemma {:induction false} FourShifts(a: word, b: word, c: word, d: word, e: word)
    requires PlainShift(a) == b && PlainShift(b) == c && PlainShift(c) == d && PlainShift(d) == e
    ensures Shifts(4, a) == e
  {
    hide PlainShift;
    ShiftIsPlain(a);
    ShiftIsPlain(b);
    ShiftIsPlain(c);
    ShiftIsPlain(d);
    assert Shifts(1, a) == b && Shifts(2, a) == c && Shifts(3, a) == d;
  }

  /** What the two low bits of a byte do to the register. */
  lemma {:induction false} FoldSmall(crc: word)
    ensures Fold(crc, 0) == crc
    ensures Fold(crc, 1) == FlipLowest(crc)
    ensures Fold(crc, 3) == FlipLowest(2 * FlipLowest(crc / 2) + crc % 2)
  {
    hide Xor;
    XorCancels(crc, 0);
    XorOneBit(0, crc, 0);
    XorOneBit(1, crc / 2, crc % 2);
    XorAdds(1, 1, 1);
    XorOneBit(0, Xor(crc, 2), 0);
    XorAssociates(crc, 2, 1);
  }

  function PlainFold(crc: nat, b: byte): nat {
    if b == 0 then crc else if b == 1 then FlipLowest(crc) else FlipLowest(2 * FlipLowest(crc / 2) + crc % 2)
  }

  /** The shifts that the six bytes below take the register through. */
  lemma {:induction false} FirstShifts()
    ensures Shifts(4, 0xFFFE) == 0x87FE && Shifts(4, 0x87FE) == 0x807E
    ensures Shifts(4, 0x807D) == 0x9406 && Shifts(4, 0x9406) == 0x2140
    ensures Shifts(4, 0x2140) == 0x0214 && Shifts(4, 0x0214) == 0xF020
  {
    hide Shifts;
    FourShifts(0xFFFE, 0x7FFF, 0x9FFE, 0x4FFF, 0x87FE);
    FourShifts(0x87FE, 0x43FF, 0x81FE, 0x40FF, 0x807E);
    FourShifts(0x807D, 0xE03F, 0xD01E, 0x680F, 0x9406);
    FourShifts(0x9406, 0x4A03, 0x8500, 0x4280, 0x2140);
    FourShifts(0x2140, 0x10A0, 0x0850, 0x0428, 0x0214);
    FourShifts(0x0214, 0x010A, 0x0085, 0xA043, 0xF020);
  }

  lemma {:induction false} LastShifts()
    ensures Shifts(4, 0xF020) == 0x0F02 && Shifts(4, 0x0F02) == 0xD8F1
    ensures Shifts(4, 0xD8F1) == 0xC18E && Shifts(4, 0xC18E) == 0x8419
    ensures Shifts(4, 0x8418) == 0xA840 && Shifts(4, 0xA840) == 0x0A84
  {
    hide Shifts;
    FourShifts(0xF020, 0x7810, 0x3C08, 0x1E04, 0x0F02);
    FourShifts(0x0F02, 0x0781, 0xA3C1, 0xF1E1, 0xD8F1);
    FourShifts(0xD8F1, 0xCC79, 0xC63D, 0xC31F, 0xC18E);
    FourShifts(0xC18E, 0x60C7, 0x9062, 0x4831, 0x8419);
    FourShifts(0x8418, 0x420C, 0x2106, 0x1083, 0xA840);
    FourShifts(0xA840, 0x5420, 0x2A10, 0x1508, 0x0A84);
  }

  /** One more byte, by way of the register half way through it. */
  lemma {:induction false} AbsorbsTo(data: bytes, b: byte, folded: word, half: word, after: word)
    requires b in {0, 1, 3} && folded == PlainFold(Crc16(data), b)
    requires Shifts(4, folded) == half && Shifts(4, half) == after
    ensures Crc16(data + [b]) == after
  {
    hide Shifts, FlipLowest;
    var longer := data + [b];
    assert longer[..|data| + 1] == longer && longer[..|data|] == data;
    RegisterStep(INITIAL, longer, |data|);
    FoldSmall(Crc16(data));
    ShiftsCompose(4, 4, folded);
  }

  /** 01 03 00 00 00 01 checks to 0A84, and is accepted with 84 0A behind it. */
  lemma {:induction false} PublishedVector()
    ensures Crc16([]) == 0xFFFF
    ensures Crc16([0x01, 0x03, 0x00, 0x00, 0x00, 0x01]) == 0x0A84
    ensures Accepts([0x01, 0x03, 0x00, 0x00, 0x00, 0x01, 0x84, 0x0A])
  {
    EmptyChecksToSeed();
    FirstShifts();
    LastShifts();
    hide Crc16, Shifts;
    AbsorbsTo([], 1, 0xFFFE, 0x87FE, 0x807E);
    AbsorbsTo([] + [1], 3, 0x807D, 0x9406, 0x2140);
    AbsorbsTo([] + [1] + [3], 0, 0x2140, 0x0214, 0xF020);
    AbsorbsTo([] + [1] + [3] + [0], 0, 0xF020, 0x0F02, 0xD8F1);
    AbsorbsTo([] + [1] + [3] + [0] + [0], 0, 0xD8F1, 0xC18E, 0x8419);
    AbsorbsTo([] + [1] + [3] + [0] + [0] + [0], 1, 0x8418, 0xA840, 0x0A84);
    var data: bytes := [0x01, 0x03, 0x00, 0x00, 0x00, 0x01];
    assert [] + [1] + [3] + [0] + [0] + [0] + [1] == data;
    var frame: bytes := [0x01, 0x03, 0x00, 0x00, 0x00, 0x01, 0x84, 0x0A];
    assert frame[..6] == data;
  }

  lemma {:induction false} EmptyChecksToSeed()
    ensures Crc16([]) == 0xFFFF
  {
  }
}
