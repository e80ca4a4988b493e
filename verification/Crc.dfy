/** The CRC-16 loop of src/pyomb/adu/rtu.py, and the damage it detects. */
module Crc {
  import opened Bytes

  const INITIAL: word := 0xFFFF

  // x^16 + x^15 + x^2 + 1, its bits in the order the register shifts them.
  const GENERATOR: word := 0xA001

  // Every frame ends with two bytes of checksum.
  const CRC_SIZE := 2

  /** Exclusive or within a 16-bit register. */
  function Fold(a: word, b: word): word {
    Powers();
    XorBelow(16, a, b);
    Xor(a, b)
  }

  /** One pass of the inner loop. */
  function Shift(crc: word): word {
    if crc % 2 == 1 then Fold(crc / 2, GENERATOR) else crc / 2
  }

  function Shifts(n: nat, crc: word): word {
    if n == 0 then crc else Shift(Shifts(n - 1, crc))
  }

  /** One pass of the outer loop. */
  function Absorb(crc: word, b: byte): word {
    Shifts(8, Fold(crc, b))
  }

  /** The register after `data`, started from `seed`. */
  function Register(seed: word, data: bytes): word {
    if data == [] then seed else Absorb(Register(seed, data[..|data| - 1]), data[|data| - 1])
  }

  function Crc16(data: bytes): word {
    Register(INITIAL, data)
  }

  method CalcCrc16(data: bytes) returns (crc: word)
    ensures crc == Crc16(data)
  {
    crc := INITIAL;
    for i := 0 to |data|
      invariant crc == Register(INITIAL, data[..i])
    {
      crc := Fold(crc, data[i]);
      ghost var folded := crc;
      for k := 0 to 8
        invariant crc == Shifts(k, folded)
      {
        if crc % 2 == 1 {
          crc := crc / 2;
          crc := Fold(crc, GENERATOR);
        } else {
          crc := crc / 2;
        }
      }
      assert data[..i + 1][..i] == data[..i];
    }
    assert data[..|data|] == data;
  }

  /** The checksum on the wire: low byte first. */
  function Wire(crc: word): bytes {
    [crc % 0x100, crc / 0x100]
  }

  function FromWire(lo: byte, hi: byte): word {
    Word(hi, lo)
  }

  lemma {:induction false} WireRoundTrip(crc: word, lo: byte, hi: byte)
    ensures Wire(crc) == [lo, hi] <==> crc == FromWire(lo, hi)
  {
  }

  /** What the trailing two bytes of a frame say the checksum is. */
  function Received(frame: bytes): word
    requires |frame| >= CRC_SIZE
  {
    FromWire(frame[|frame| - 2], frame[|frame| - 1])
  }

  /** The frames validate_crc lets through. */
  predicate Accepts(frame: bytes) {
    && |frame| >= 2 + CRC_SIZE
    && Received(frame) == Crc16(frame[..|frame| - CRC_SIZE])
  }

  // Algebra of the shift.

  lemma {:induction false} ShiftLinear(a: word, b: word)
    ensures Shift(Fold(a, b)) == Fold(Shift(a), Shift(b))
  {
    if a % 2 == b % 2 == 1 {
      XorInterchange(a / 2, GENERATOR, b / 2, GENERATOR);
      XorCancels(GENERATOR, GENERATOR);
      XorCancels(Xor(a / 2, b / 2), 0);
    } else if a % 2 == 1 {
      XorAssociates(a / 2, GENERATOR, b / 2);
      XorCommutes(GENERATOR, b / 2);
      XorAssociates(a / 2, b / 2, GENERATOR);
    } else if b % 2 == 1 {
      XorAssociates(a / 2, b / 2, GENERATOR);
    }
  }

  lemma {:induction false} ShiftsLinear(n: nat, a: word, b: word)
    ensures Shifts(n, Fold(a, b)) == Fold(Shifts(n, a), Shifts(n, b))
  {
    if n > 0 {
      ShiftsLinear(n - 1, a, b);
      ShiftLinear(Shifts(n - 1, a), Shifts(n - 1, b));
    }
  }

  lemma {:induction false} ShiftsCompose(n: nat, m: nat, crc: word)
    ensures Shifts(n + m, crc) == Shifts(n, Shifts(m, crc))
  {
    if n > 0 {
      ShiftsCompose(n - 1, m, crc);
    }
  }

  /** The bit shifted out is fed back to the top. */
  lemma {:induction false} TopBitIsFeedback(crc: word)
    ensures Shift(crc) >= 0x8000 <==> crc % 2 == 1
  {
    if crc % 2 == 1 {
      Powers();
      XorAdds(15, 1, GENERATOR - 0x8000);
      XorAssociates(crc / 2, 0x8000, GENERATOR - 0x8000);
      XorCommutes(crc / 2, 0x8000);
      XorAssociates(0x8000, crc / 2, GENERATOR - 0x8000);
      XorBelow(15, crc / 2, GENERATOR - 0x8000);
      XorAdds(15, 1, Xor(crc / 2, GENERATOR - 0x8000));
    }
  }

  /** Only a register of zeros shifts to zero. */
  lemma {:induction false} ShiftsZero(n: nat, crc: word)
    ensures Shifts(n, crc) == 0 <==> crc == 0
  {
    if n > 0 {
      ShiftsZero(n - 1, crc);
      TopBitIsFeedback(Shifts(n - 1, crc));
    }
  }

  lemma {:induction false} ShiftsInjective(n: nat, a: word, b: word)
    requires Shifts(n, a) == Shifts(n, b)
    ensures a == b
  {
    ShiftsLinear(n, a, b);
    XorCancels(Shifts(n, a), Shifts(n, b));
    ShiftsZero(n, Fold(a, b));
    XorCancels(a, b);
  }

  /** A result with its top `n` bits clear had nothing fed back: every shift was a plain one. */
  lemma {:induction false} NothingFedBack(n: nat, crc: word)
    requires n <= 16 && Shifts(n, crc) < Up(16 - n, 1)
    ensures crc == Up(n, Shifts(n, crc))
  {
    if n > 0 {
      Powers();
      UpMonotone(16 - n, 15);
      TopBitIsFeedback(Shifts(n - 1, crc));
      NothingFedBack(n - 1, crc);
      UpDouble(n - 1, Shifts(n, crc));
    }
  }

  lemma {:induction false} PlainShifts(n: nat, x: nat)
    requires Up(n, x) < 0x1_0000
    ensures Shifts(n, Up(n, x)) == x
  {
    if n > 0 {
      UpDouble(n - 1, x);
      PlainShifts(n - 1, 2 * x);
    }
  }

  // The residue.

  lemma {:induction false} AbsorbsToZero(crc: word, lo: byte, hi: byte)
    ensures Absorb(Absorb(crc, lo), hi) == 0 <==> crc == FromWire(lo, hi)
  {
    var mid := Absorb(crc, lo);
    ShiftsZero(8, Fold(mid, hi));
    XorCancels(mid, hi);
    var whole := FromWire(lo, hi);
    assert Absorb(whole, lo) == hi by {
      Powers();
      UpByte(hi);
      XorAdds(8, hi, lo);
      XorUndoes(Up(8, hi), lo);
      PlainShifts(8, hi);
    }
    if mid == hi {
      ShiftsInjective(8, Fold(crc, lo), Fold(whole, lo));
      XorUndoes(crc, lo);
      XorUndoes(whole, lo);
    }
  }

  lemma {:induction false} RegisterStep(seed: word, data: bytes, n: nat)
    requires n < |data|
    ensures Register(seed, data[..n + 1]) == Absorb(Register(seed, data[..n]), data[n])
  {
    assert data[..n + 1][..n] == data[..n];
  }

  /** validate_crc accepts a frame exactly when the checksum of the whole of it is zero. */
  lemma {:induction false} AcceptsIffResidueZero(frame: bytes)
    requires |frame| >= 2 + CRC_SIZE
    ensures Accepts(frame) <==> Crc16(frame) == 0
  {
    var n := |frame|;
    RegisterStep(INITIAL, frame, n - 2);
    RegisterStep(INITIAL, frame, n - 1);
    assert frame[..n] == frame;
    AbsorbsToZero(Crc16(frame[..n - 2]), frame[n - 2], frame[n - 1]);
  }

  // Two frames of one length.

  function Difference(a: bytes, b: bytes): (d: bytes)
    requires |a| == |b|
    ensures |d| == |a|
  {
    seq(|a|, i requires 0 <= i < |a| => XorByte(a[i], b[i]))
  }

  function XorByte(a: byte, b: byte): byte {
    Powers();
    XorBelow(8, a, b);
    Xor(a, b)
  }

  lemma {:induction false} RegisterLinear(s: word, t: word, a: bytes, b: bytes)
    requires |a| == |b|
    ensures Register(Fold(s, t), Difference(a, b)) == Fold(Register(s, a), Register(t, b))
    decreases |a|
  {
    if a != [] {
      var n := |a| - 1;
      RegisterLinear(s, t, a[..n], b[..n]);
      assert Difference(a, b)[..n] == Difference(a[..n], b[..n]);
      var u, v := Register(s, a[..n]), Register(t, b[..n]);
      XorInterchange(u, v, a[n], b[n]);
      ShiftsLinear(8, Fold(u, a[n]), Fold(v, b[n]));
    }
  }

  /** Whether a damaged copy passes depends on the damage alone. */
  lemma {:induction false} DamagedCopyAccepted(f: bytes, g: bytes)
    requires |f| == |g| && Accepts(f)
    ensures Accepts(g) <==> Register(0, Difference(f, g)) == 0
  {
    AcceptsIffResidueZero(f);
    AcceptsIffResidueZero(g);
    RegisterLinear(INITIAL, INITIAL, f, g);
    XorCancels(INITIAL, INITIAL);
    XorCancels(Crc16(f), Crc16(g));
  }

  /** Trailing zeros neither make nor mend a difference. */
  lemma {:induction false} ZerosChangeNothing(n: nat, data: bytes)
    requires n <= |data| && forall i :: n <= i < |data| ==> data[i] == 0
    ensures Register(0, data) == 0 <==> Register(0, data[..n]) == 0
    decreases |data|
  {
    if n < |data| {
      var front := data[..|data| - 1];
      ZerosChangeNothing(n, front);
      assert front[..n] == data[..n];
      XorCancels(Register(0, front), 0);
      ShiftsZero(8, Register(0, front));
    } else {
      assert data[..n] == data;
    }
  }

  // Bursts.

  /** Bit `p` of a frame in transmission order: a serial line sends each byte low bit first. */
  predicate FrameBit(data: bytes, p: nat)
    requires p < 8 * |data|
  {
    Bit(data[p / 8], p % 8)
  }

  /** Every bit in which the frames differ lies among the 16 from bit `p` on. */
  ghost predicate DiffersWithin(f: bytes, g: bytes, p: nat)
    requires |f| == |g|
  {
    forall q :: 0 <= q < 8 * |f| && FrameBit(f, q) != FrameBit(g, q) ==> p <= q < p + 16
  }

  lemma {:induction false} DamageOutsideWindow(f: bytes, g: bytes, p: nat, i: nat, k: nat)
    requires |f| == |g| && i < |f| && k < 8 && DiffersWithin(f, g, p)
    requires !(p <= 8 * i + k < p + 16)
    ensures !Bit(Difference(f, g)[i], k)
  {
    var q := 8 * i + k;
    assert q / 8 == i && q % 8 == k;
    assert FrameBit(f, q) == FrameBit(g, q);
    BitOfXor(f[i], g[i], k);
  }

  lemma {:induction false} UntouchedByte(f: bytes, g: bytes, p: nat, i: nat)
    requires |f| == |g| && i < |f| && DiffersWithin(f, g, p)
    requires 8 * i + 8 <= p || p + 16 <= 8 * i
    ensures Difference(f, g)[i] == 0
  {
    Powers();
    var d := Difference(f, g);
    forall k | 0 <= k < 8 ensures !Bit(d[i], k) {
      DamageOutsideWindow(f, g, p, i, k);
    }
    HighBitsClear(d[i], 0, 8);
  }

  lemma {:induction false} AbsorbFromZero(x: byte)
    ensures Absorb(0, x) == Shifts(8, x)
  {
    XorCommutes(0, x);
    XorCancels(x, 0);
  }

  /** No burst that starts at bit `k` of `x` and spans 16 bits leaves the register zero. */
  lemma {:induction false} BurstLeavesTrace(x: byte, y: byte, z: byte, k: nat)
    requires k < 8
    requires forall j :: 0 <= j < k ==> !Bit(x, j)
    requires forall j :: k <= j < 8 ==> !Bit(z, j)
    requires Absorb(Absorb(Absorb(0, x), y), z) == 0
    ensures x == y == z == 0
  {
    AbsorbFromZero(x);
    AbsorbsToZero(Absorb(0, x), y, z);
    Powers();
    HighBitsClear(z, k, 8);
    var r := Shifts(8, x);
    var v := LowBitsClear(x, k);
    PlainShifts(k, v);
    ShiftsCompose(8 - k, k, x);
    UpByte(Up(k, 1));
    UpCompose(8, k, 1);
    NothingFedBack(8 - k, v);
    UpCompose(k, 8 - k, r);
    UpByte(r);
  }

  /** With every other byte zero, three bytes decide the register. */
  lemma {:induction false} ThreeBytesDecide(d: bytes, i: nat)
    requires i + 3 <= |d|
    requires forall j :: 0 <= j < |d| && !(i <= j < i + 3) ==> d[j] == 0
    ensures Register(0, d) == 0 <==> Absorb(Absorb(Absorb(0, d[i]), d[i + 1]), d[i + 2]) == 0
  {
    ZerosChangeNothing(i + 3, d);
    ZerosChangeNothing(0, d[..i]);
    RegisterStep(0, d, i);
    RegisterStep(0, d, i + 1);
    RegisterStep(0, d, i + 2);
  }

  lemma {:induction false} DamageShows(f: bytes, g: bytes)
    requires |f| == |g| && f != g
    ensures exists i :: 0 <= i < |f| && Difference(f, g)[i] != 0
  {
    var i :| 0 <= i < |f| && f[i] != g[i];
    XorCancels(f[i], g[i]);
    assert Difference(f, g)[i] != 0;
  }

  /** A burst within three bytes of a longer difference leaves a register that is not zero. */
  lemma {:induction false} BurstSurvives(f: bytes, g: bytes, p: nat)
    requires |f| == |g| && f != g
    requires DiffersWithin(f, g, p)
    ensures Register(0, Difference(f, g) + [0, 0, 0]) != 0
  {
    var d, i, k := Difference(f, g), p / 8, p % 8;
    DamageShows(f, g);
    forall j | 0 <= j < |d| && !(i <= j < i + 3) ensures d[j] == 0 {
      UntouchedByte(f, g, p, j);
    }
    var wide := d + [0, 0, 0];
    ThreeBytesDecide(wide, i);
    var x, y, z := wide[i], wide[i + 1], wide[i + 2];
    forall j | 0 <= j < k ensures !Bit(x, j) {
      DamageOutsideWindow(f, g, p, i, j);
    }
    forall j | k <= j < 8 ensures !Bit(z, j) {
      if i + 2 < |d| {
        DamageOutsideWindow(f, g, p, i + 2, j);
      } else {
        ZeroHasNoBits(j);
      }
    }
    if Register(0, wide) == 0 {
      BurstLeavesTrace(x, y, z, k);
    }
  }

  /** Every burst of at most 16 bits is caught, wherever it starts and however long the frame. */
  lemma {:induction false} BurstDetected(f: bytes, g: bytes, p: nat)
    requires |f| == |g| && f != g && Accepts(f)
    requires DiffersWithin(f, g, p)
    ensures !Accepts(g)
  {
    var d := Difference(f, g);
    BurstSurvives(f, g, p);
    DamagedCopyAccepted(f, g);
    ZerosChangeNothing(|d|, d + [0, 0, 0]);
    assert (d + [0, 0, 0])[..|d|] == d;
  }

  // Odd damage.

  function FlippedBits(f: bytes, g: bytes): nat
    requires |f| == |g|
  {
    if f == [] then 0
    else FlippedBits(f[..|f| - 1], g[..|g| - 1]) + Ones(XorByte(f[|f| - 1], g[|g| - 1]))
  }

  lemma {:induction false} ShiftKeepsParity(crc: word)
    ensures OddBits(Shift(crc)) == OddBits(crc)
  {
    OddBitsOfXor(crc / 2, GENERATOR);
    assert OddBits(0xA00) == OddBits(0x280) == OddBits(5) == false;
    assert OddBits(0xA001);
  }

  lemma {:induction false} ShiftsKeepParity(n: nat, crc: word)
    ensures OddBits(Shifts(n, crc)) == OddBits(crc)
  {
    if n > 0 {
      ShiftsKeepParity(n - 1, crc);
      ShiftKeepsParity(Shifts(n - 1, crc));
    }
  }

  lemma {:induction false} AbsorbAddsParity(crc: word, b: byte)
    ensures OddBits(Absorb(crc, b)) <==> (OddBits(crc) != (Ones(b) % 2 == 1))
  {
    ShiftsKeepParity(8, Fold(crc, b));
    OddBitsOfXor(crc, b);
    OddBitsCountsOnes(b);
  }

  lemma {:induction false} RegisterParity(f: bytes, g: bytes)
    requires |f| == |g|
    ensures OddBits(Register(0, Difference(f, g))) <==> FlippedBits(f, g) % 2 == 1
    decreases |f|
  {
    if f != [] {
      var n := |f| - 1;
      RegisterParity(f[..n], g[..n]);
      assert Difference(f, g)[..n] == Difference(f[..n], g[..n]);
      AbsorbAddsParity(Register(0, Difference(f[..n], g[..n])), XorByte(f[n], g[n]));
    }
  }

  /** Any odd number of flipped bits is caught. */
  lemma {:induction false} OddDamageDetected(f: bytes, g: bytes)
    requires |f| == |g| && Accepts(f)
    requires FlippedBits(f, g) % 2 == 1
    ensures !Accepts(g)
  {
    DamagedCopyAccepted(f, g);
    RegisterParity(f, g);
  }
}
