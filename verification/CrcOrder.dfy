/** How long the register takes to come round, and the damage of two bits that follows from it. */
module CrcOrder {
  import opened Bytes
  import opened Crc
  import opened CrcVectors

  /** After this many shifts, and no fewer, a register that holds one bit holds it again. */
  const ROUND := 32767

  // The shift as multiplication by x.

  lemma {:induction false} ShiftsSwap(n: nat, m: nat, w: word)
    ensures Shifts(n, Shifts(m, w)) == Shifts(n + m, w) == Shifts(m, Shifts(n, w))
  {
    ShiftsCompose(n, m, w);
    ShiftsCompose(m, n, w);
  }

  /** The registers that the trinomial x^15 + x + 1 takes to zero. */
  predicate InField(w: word) {
    Shifts(15, w) == Fold(Shifts(1, w), w)
  }

  lemma {:induction false} FieldShifts(n: nat, w: word)
    requires InField(w)
    ensures InField(Shifts(n, w))
  {
    hide Shifts, Fold;
    ShiftsSwap(15, n, w);
    ShiftsSwap(1, n, w);
    ShiftsLinear(n, Shifts(1, w), w);
  }

  /** Sums that share a term. */
  lemma {:induction false} FoldCancels(a: word, b: word, c: word)
    ensures Fold(Fold(a, b), Fold(b, c)) == Fold(a, c) && Fold(a, Fold(a, b)) == b && Fold(a, b) == Fold(b, a)
  {
    hide Xor;
    XorAssociates(a, b, Xor(b, c));
    XorAssociates(b, b, c);
    XorAssociates(a, a, b);
    XorCancels(b, b);
    XorCancels(a, a);
    XorCommutes(0, c);
    XorCommutes(0, b);
    XorCancels(c, 0);
    XorCancels(b, 0);
    XorCommutes(a, b);
  }

  /** As many shifts as a power of two has. */
  function Power(k: nat, w: word): word {
    Shifts(Up(k, 1), w)
  }

  lemma {:induction false} PowerTwice(k: nat, w: word)
    ensures Power(k, Power(k, w)) == Power(k + 1, w)
  {
    hide Shifts;
    ShiftsSwap(Up(k, 1), Up(k, 1), w);
  }

  /** Squaring again and again: x^16 is x^2 + x, so every 2^(k+4)-th power is a sum of two. */
  lemma {:induction false} Squares(k: nat, w: word)
    requires InField(w)
    ensures Power(k + 4, w) == Fold(Power(k + 1, w), Power(k, w))
    decreases k, 0
  {
    hide Fold, InField;
    if k == 0 {
      SquaresStart(w);
    } else {
      SquaresStep(k - 1, w, Power(k, w), Power(k - 1, w));
    }
  }

  lemma {:induction false} SquaresStart(w: word)
    requires InField(w)
    ensures Power(4, w) == Fold(Power(1, w), Power(0, w))
  {
    hide Shifts, Fold;
    assert Up(4, 1) == 16 && Up(1, 1) == 2 && Up(0, 1) == 1;
    ShiftsSwap(1, 15, w);
    ShiftsLinear(1, Shifts(1, w), w);
    ShiftsSwap(1, 1, w);
  }

  lemma {:induction false} SquaresStep(k: nat, w: word, a: word, b: word)
    requires InField(w) && a == Power(k + 1, w) && b == Power(k, w)
    ensures Power(k + 5, w) == Fold(Power(k + 2, w), Power(k + 1, w))
    decreases k, 1
  {
    hide Shifts, Fold, InField;
    Squares(k, w);
    PowerTwice(k + 4, w);
    FieldShifts(Up(k + 1, 1), w);
    FieldShifts(Up(k, 1), w);
    ShiftsLinear(Up(k + 4, 1), a, b);
    Squares(k, a);
    Squares(k, b);
    PowerTwice(k + 1, w);
    PowerTwice(k, w);
    ShiftsSwap(Up(k, 1), Up(k + 1, 1), w);
    FoldCancels(Power(k + 2, w), Power(k, a), Power(k + 1, w));
  }

  /** Twice over: every 2^(k+8)-th power likewise. */
  lemma {:induction false} Fourths(k: nat, w: word)
    requires InField(w)
    ensures Power(k + 8, w) == Fold(Power(k + 2, w), Power(k, w))
  {
    hide Power, Fold, InField;
    Squares(k + 4, w);
    Squares(k + 1, w);
    Squares(k, w);
    FoldCancels(Power(k + 2, w), Power(k + 1, w), Power(k, w));
  }

  /** The 2^15-th power is the first. */
  lemma {:induction false} ComesRound(w: word)
    requires InField(w)
    ensures Shifts(ROUND, w) == w
  {
    hide Power, Fold, InField, Shifts;
    Fourths(7, w);
    Fourths(1, w);
    Squares(3, w);
    Squares(0, w);
    FoldCancels(Power(1, w), Power(3, w), Power(4, w));
    FoldCancels(Power(3, w), Power(4, w), w);
    FoldCancels(Power(1, w), Power(0, w), w);
    PowerFifteen(w);
    ShiftsSwap(1, ROUND, w);
    ShiftsInjective(1, Shifts(ROUND, w), w);
  }

  lemma {:induction false} PowerFifteen(w: word)
    ensures Power(15, w) == Shifts(ROUND + 1, w) && Power(0, w) == Shifts(1, w)
  {
    hide Shifts;
    Powers();
    assert Up(15, 1) == ROUND + 1;
  }

  // A register in the field that comes round no sooner.

  /** One bit, shifted once and folded into itself. */
  const FIELD: word := 0xA000

  lemma {:induction false} NibbleSums()
    ensures Xor(5, 10) == 15 && Xor(5, 4) == 1 && Xor(1, 2) == 3
  {
  }

  lemma {:induction false} MoreNibbleSums()
    ensures Xor(4, 8) == 12 && Xor(1, 5) == 4 && Xor(3, 15) == 12
  {
  }

  /** Sums digit by digit. */
  lemma {:induction false} XorSplits(n: nat, a: nat, b: nat, x: nat, y: nat)
    requires x < Up(n, 1) && y < Up(n, 1)
    ensures Xor(Up(n, a) + x, Up(n, b) + y) == Up(n, Xor(a, b)) + Xor(x, y)
  {
    hide Xor, Up;
    UpNone();
    if n == 0 {
      XorNothing(0);
    } else {
      UpHalves(n, a, x);
      UpHalves(n, b, y);
      UpHalves(n, Xor(a, b), 0);
      XorSplits(n - 1, a, b, x / 2, y / 2);
      XorHalves(Up(n, a) + x, Up(n, b) + y, x, y);
    }
  }

  lemma {:induction false} UpNone()
    ensures forall x: nat :: Up(0, x) == x
  {
  }

  lemma {:induction false} XorHalves(s: nat, t: nat, x: nat, y: nat)
    requires s % 2 == x % 2 && t % 2 == y % 2
    ensures Xor(s, t) - 2 * Xor(s / 2, t / 2) == Xor(x, y) - 2 * Xor(x / 2, y / 2)
  {
    hide Xor;
    XorStep(s, t);
    XorStep(x, y);
  }

  lemma {:induction false} UpHalves(n: nat, a: nat, x: nat)
    requires n > 0
    ensures Up(n, a) == 2 * Up(n - 1, a) && (x < Up(n, 1) ==> x / 2 < Up(n - 1, 1))
    ensures (Up(n, a) + x) / 2 == Up(n - 1, a) + x / 2 && (Up(n, a) + x) % 2 == x % 2
  {
  }

  lemma {:induction false} XorDigits(a: nat, b: nat, x: nat, y: nat)
    ensures x < 0x10 && y < 0x10 ==> Xor(0x10 * a + x, 0x10 * b + y) == 0x10 * Xor(a, b) + Xor(x, y)
    ensures x < 0x100 && y < 0x100 ==> Xor(0x100 * a + x, 0x100 * b + y) == 0x100 * Xor(a, b) + Xor(x, y)
  {
    hide Xor;
    FourUp(a);
    FourUp(b);
    FourUp(Xor(a, b));
    FourUp(1);
    UpByte(a);
    UpByte(b);
    UpByte(Xor(a, b));
    UpByte(1);
    if x < 0x10 && y < 0x10 {
      XorSplits(4, a, b, x, y);
    }
    if x < 0x100 && y < 0x100 {
      XorSplits(8, a, b, x, y);
    }
  }

  lemma {:induction false} FourUp(x: nat)
    ensures Up(4, x) == 0x10 * x
  {
    assert Up(1, x) == 2 * x;
    assert Up(3, x) == 4 * Up(1, x);
  }

  lemma {:induction false} XorNothing(a: nat)
    ensures Xor(a, 0) == a && Xor(0, a) == a
  {
    XorCancels(a, 0);
    XorCommutes(a, 0);
  }

  /** The sums met below. */
  lemma {:induction false} WordSums()
    ensures Xor(0x5000, 0xA000) == 0xF000 && Xor(0x0500, 0x1400) == 0x1100 && Xor(0x0014, 0x0028) == 0x003C
    ensures Xor(0x1100, 0x5003) == 0x4103 && Xor(0x3C00, 0x0005) == 0x3C05 && Xor(0x03FC, 0xFF00) == 0xFCFC
  {
    NibbleSums();
    MoreNibbleSums();
    hide Xor;
    XorNothing(0);
    XorNothing(1);
    XorNothing(3);
    XorNothing(5);
    XorNothing(0xF);
    XorNothing(0x3C);
    XorNothing(0xFC);
    XorDigits(0x5, 0xA, 0, 0);
    XorDigits(0x50, 0xA0, 0, 0);
    XorDigits(0x0, 0x1, 0x5, 0x4);
    XorCommutes(5, 4);
    XorDigits(0x05, 0x14, 0, 0);
    XorDigits(0x1, 0x2, 0x4, 0x8);
    XorDigits(0x1, 0x5, 0x1, 0x0);
    XorDigits(0x11, 0x50, 0x00, 0x03);
    XorDigits(0x3C, 0x00, 0x00, 0x05);
    XorDigits(0x0, 0xF, 0x3, 0xF);
    XorDigits(0x03, 0xFF, 0xFC, 0x00);
  }

  lemma {:induction false} SmallPowers(w: word)
    ensures Power(0, w) == Shifts(1, w) && Power(1, w) == Shifts(2, w)
    ensures Power(2, w) == Shifts(4, w) && Power(3, w) == Shifts(8, w)
  {
    hide Shifts;
    assert Up(0, 1) == 1 && Up(1, 1) == 2 && Up(2, 1) == 4 && Up(3, 1) == 8;
  }

  lemma {:induction false} FourMore(w: word, half: word, all: word)
    requires Shifts(4, w) == half && Shifts(4, half) == all
    ensures Shifts(8, w) == all
  {
    hide Shifts;
    ShiftsSwap(4, 4, w);
  }

  lemma {:induction false} FewShifts(a: word, b: word, c: word, d: word, e: word)
    requires PlainShift(a) == b && PlainShift(b) == c && PlainShift(c) == d && PlainShift(d) == e
    ensures Shifts(1, a) == b && Shifts(2, a) == c && Shifts(3, a) == d && Shifts(4, a) == e
  {
    hide PlainShift;
    ShiftIsPlain(a);
    ShiftIsPlain(b);
    ShiftIsPlain(c);
    ShiftIsPlain(d);
  }

  lemma {:induction false} FieldStarts()
    ensures Fold(Shift(1), 1) == FIELD && InField(FIELD)
  {
    ShiftOne();
    hide Shift, Shifts, Xor;
    XorOneBit(0, 0xA001, 0);
    FifteenShifts();
    WordSums();
  }

  lemma {:induction false} ShiftOne()
    ensures Shift(1) == GENERATOR
  {
    hide Xor;
    XorNothing(GENERATOR);
  }

  lemma {:induction false} FifteenShifts()
    ensures Shifts(1, FIELD) == 0x5000 && Shifts(15, FIELD) == 0xF000
  {
    hide Shifts;
    FewShifts(0xA000, 0x5000, 0x2800, 0x1400, 0x0A00);
    FewShifts(0x0A00, 0x0500, 0x0280, 0x0140, 0x00A0);
    FewShifts(0x00A0, 0x0050, 0x0028, 0x0014, 0x000A);
    FewShifts(0x000A, 0x0005, 0xA003, 0xF000, 0x7800);
    ShiftsSwap(4, 4, FIELD);
    ShiftsSwap(4, 8, FIELD);
    ShiftsSwap(3, 12, FIELD);
  }

  /** A power of a register that the field's own has reached. */
  lemma {:induction false} PowerAt(k: nat, n: nat, w: word)
    requires Shifts(n, FIELD) == w
    ensures InField(w) && Power(k, w) == Shifts(Up(k, 1) + n, FIELD)
  {
    hide Shifts, InField, Power;
    FieldStarts();
    PowerOf(k, n, FIELD, w);
  }

  lemma {:induction false} PowerOf(k: nat, n: nat, v: word, w: word)
    requires InField(v) && Shifts(n, v) == w
    ensures InField(w) && Power(k, w) == Shifts(Up(k, 1) + n, v)
  {
    hide Shifts, InField;
    FieldShifts(n, v);
    ShiftsSwap(Up(k, 1), n, v);
  }

  lemma {:induction false} SmallUps()
    ensures Up(3, 1) == 8 && Up(4, 1) == 16 && Up(5, 1) == 32 && Up(6, 1) == 64 && Up(7, 1) == 128
    ensures Up(9, 1) == 512 && Up(10, 1) == 1024 && Up(12, 1) == 4096
  {
    assert Up(1, 1) == 2;
    Powers();
    assert Up(9, 1) == 2 * Up(8, 1) && Up(10, 1) == 2 * Up(9, 1);
    assert Up(12, 1) == 4 * Up(10, 1);
  }

  /** 1057, a round divided by 31, is 1 + 2^5 + 2^10. */
  lemma {:induction false} NotAThirtyFirst()
    ensures Shifts(1057, FIELD) != FIELD
  {
    hide Shifts, Power, InField, Xor;
    FifteenShifts();
    SmallUps();
    FewShifts(0x5000, 0x2800, 0x1400, 0x0A00, 0x0500);
    FewShifts(0x1100, 0x0880, 0x0440, 0x0220, 0x0110);
    WordSums();
    PowerAt(5, 1, 0x5000);
    Squares(1, 0x5000);
    SmallPowers(0x5000);
    PowerAt(10, 33, 0x1100);
    Fourths(2, 0x1100);
    Squares(0, 0x1100);
    SmallPowers(0x1100);
    Powers();
    XorBelow(15, 0x0440, 0x0880);
    XorBelow(15, Xor(0x0440, 0x0880), 0x0110);
  }

  /** 217, a round divided by 151, is 1 + 2^3 + 2^4 + 2^6 + 2^7. */
  lemma {:induction false} NotAHundredFiftyFirst()
    ensures Shifts(217, FIELD) != FIELD
  {
    hide Shifts, Power, InField, Xor;
    FifteenShifts();
    SmallUps();
    FewShifts(0x5000, 0x2800, 0x1400, 0x0A00, 0x0500);
    FewShifts(0x0500, 0x0280, 0x0140, 0x00A0, 0x0050);
    FourMore(0x5000, 0x0500, 0x0050);
    FewShifts(0x0050, 0x0028, 0x0014, 0x000A, 0x0005);
    FewShifts(0x003C, 0x001E, 0x000F, 0xA006, 0x5003);
    FewShifts(0x5003, 0x8800, 0x4400, 0x2200, 0x1100);
    FourMore(0x003C, 0x5003, 0x1100);
    FewShifts(0x4103, 0x8080, 0x4040, 0x2020, 0x1010);
    FewShifts(0x1010, 0x0808, 0x0404, 0x0202, 0x0101);
    FourMore(0x4103, 0x1010, 0x0101);
    WordSums();
    PowerAt(3, 1, 0x5000);
    SmallPowers(0x5000);
    PowerAt(4, 9, 0x0050);
    Squares(0, 0x0050);
    SmallPowers(0x0050);
    PowerAt(6, 25, 0x003C);
    Squares(2, 0x003C);
    SmallPowers(0x003C);
    PowerAt(7, 89, 0x4103);
    Squares(3, 0x4103);
    Squares(0, 0x4103);
    SmallPowers(0x4103);
    XorStep(0x4040, 0x8080);
    XorStep(Xor(0x4040, 0x8080), 0x0101);
  }

  /** 4681, a round divided by 7, is 1 + 2^3 + 2^6 + 2^9 + 2^12. */
  lemma {:induction false} NotASeventh()
    ensures Shifts(4681, FIELD) != FIELD
  {
    hide Shifts, Power, InField, Xor;
    FifteenShifts();
    SmallUps();
    FewShifts(0x5000, 0x2800, 0x1400, 0x0A00, 0x0500);
    FewShifts(0x0500, 0x0280, 0x0140, 0x00A0, 0x0050);
    FourMore(0x5000, 0x0500, 0x0050);
    FewShifts(0x0050, 0x0028, 0x0014, 0x000A, 0x0005);
    FewShifts(0x0005, 0xA003, 0xF000, 0x7800, 0x3C00);
    FourMore(0x0050, 0x0005, 0x3C00);
    FewShifts(0x3C05, 0xBE03, 0xFF00, 0x7F80, 0x3FC0);
    FewShifts(0x3FC0, 0x1FE0, 0x0FF0, 0x07F8, 0x03FC);
    FourMore(0x3C05, 0x3FC0, 0x03FC);
    FewShifts(0xFCFC, 0x7E7E, 0x3F3F, 0xBF9E, 0x5FCF);
    FewShifts(0x5FCF, 0x8FE6, 0x47F3, 0x83F8, 0x41FC);
    FourMore(0xFCFC, 0x5FCF, 0x41FC);
    WordSums();
    PowerAt(3, 1, 0x5000);
    SmallPowers(0x5000);
    PowerAt(6, 9, 0x0050);
    Squares(2, 0x0050);
    SmallPowers(0x0050);
    PowerAt(9, 73, 0x3C05);
    Fourths(1, 0x3C05);
    SmallPowers(0x3C05);
    PowerAt(12, 585, 0xFCFC);
    Fourths(4, 0xFCFC);
    Squares(2, 0xFCFC);
    Squares(0, 0xFCFC);
    SmallPowers(0xFCFC);
    Powers();
    XorBelow(15, 0x41FC, 0x5FCF);
    XorBelow(15, 0x3F3F, 0x7E7E);
    XorBelow(15, Xor(0x41FC, 0x5FCF), Xor(0x3F3F, 0x7E7E));
  }

  // Periods.

  predicate Period(n: nat, w: word) {
    Shifts(n, w) == w
  }

  lemma {:induction false} PeriodTimes(n: nat, k: nat, w: word)
    requires Period(n, w)
    ensures Period(n * k, w)
  {
    hide Shifts;
    if k == 0 {
      NoShift(w);
    } else {
      PeriodTimes(n, k - 1, w);
      assert n * k == n + n * (k - 1);
      ShiftsSwap(n, n * (k - 1), w);
    }
  }

  lemma {:induction false} NoShift(w: word)
    ensures Shifts(0, w) == w
  {
  }

  /** The difference of two periods is one. */
  lemma {:induction false} PeriodLess(a: nat, b: nat, w: word)
    requires Period(a, w) && Period(b, w) && a <= b
    ensures Period(b - a, w)
  {
    hide Shifts;
    ShiftsSwap(a, b - a, w);
    ShiftsInjective(a, Shifts(b - a, w), w);
  }

  /** Where `n * a` and `n * b` are periods, so is `n` times a common measure of `a` and `b`. */
  lemma {:induction false} CommonMeasure(n: nat, a: nat, b: nat, w: word) returns (g: nat, i: nat, j: nat)
    requires a > 0 && b > 0 && Period(n * a, w) && Period(n * b, w)
    ensures g > 0 && a == g * i && b == g * j && Period(n * g, w)
    decreases a + b, a
  {
    hide Period;
    if a == b {
      g, i, j := a, 1, 1;
    } else if a < b {
      assert n * b - n * a == n * (b - a) && n * a <= n * b by {
        assert n * b == n * a + n * (b - a);
      }
      PeriodLess(n * a, n * b, w);
      g, i, j := CommonMeasure(n, a, b - a, w);
      assert g * (i + j) == g * i + g * j;
      j := i + j;
    } else {
      g, j, i := CommonMeasure(n, b, a, w);
    }
  }

  /** The factors of a round divide only by themselves. */
  lemma {:induction false} NoFactor(q: nat, g: nat, i: nat)
    requires q in {7, 31, 151} && q == g * i
    ensures g == 1 || g == q
  {
    if g <= 12 {
      SmallFactor(q, g, i);
    } else if i <= 12 {
      SmallFactor(q, i, g);
    } else {
      Product(g, i);
    }
  }

  lemma {:induction false} Product(g: nat, i: nat)
    requires g > 12 && i > 12
    ensures g * i >= 169
  {
    assert (g - 13) * i >= 0;
  }

  lemma {:induction false} SmallFactor(q: nat, g: nat, i: nat)
    requires q in {7, 31, 151} && q == g * i && g <= 12
    ensures g == 1 || g == q
  {
    assert g == 2 ==> q == 2 * i;
    assert g == 3 ==> q == 3 * i;
    assert g == 4 ==> q == 4 * i;
    assert g == 5 ==> q == 5 * i;
    assert g == 6 ==> q == 6 * i;
    assert g == 7 ==> q == 7 * i;
    assert g == 8 ==> q == 8 * i;
    assert g == 9 ==> q == 9 * i;
    assert g == 10 ==> q == 10 * i;
    assert g == 11 ==> q == 11 * i;
    assert g == 12 ==> q == 12 * i;
  }

  /** A period is a multiple of every factor that a round cannot do without. */
  lemma {:induction false} FactorNeeded(q: nat, n: nat, d: nat, w: word) returns (k: nat)
    requires q in {7, 31, 151} && d > 0 && Period(n * q, w) && !Period(n, w) && Period(d, w)
    ensures d == q * k
  {
    hide Period;
    PeriodTimes(d, n, w);
    assert d * n == n * d;
    var g, i, j := CommonMeasure(n, q, d, w);
    NoFactor(q, g, i);
    assert g == 1 ==> n * g == n;
    k := j;
  }

  /** The field's register comes round after whole rounds and not before. */
  lemma {:induction false} FieldPeriod(d: nat)
    requires Period(d, FIELD)
    ensures d % ROUND == 0
  {
    hide Period, InField;
    if d > 0 {
      FieldStarts();
      RoundIsPeriod();
      NotRounds();
      var a := FactorNeeded(7, 4681, d, FIELD);
      var b := FactorNeeded(31, 1057, d, FIELD);
      var c := FactorNeeded(151, 217, d, FIELD);
      AllThree(d, a, b, c);
    }
  }

  lemma {:induction false} RoundIsPeriod()
    ensures Period(ROUND, FIELD)
  {
    hide Shifts, InField;
    FieldStarts();
    ComesRound(FIELD);
  }

  lemma {:induction false} NotRounds()
    ensures !Period(4681, FIELD) && !Period(1057, FIELD) && !Period(217, FIELD)
  {
    hide Shifts;
    NotASeventh();
    NotAThirtyFirst();
    NotAHundredFiftyFirst();
  }

  lemma {:induction false} AllThree(d: nat, a: nat, b: nat, c: nat)
    requires d == 7 * a == 31 * b == 151 * c
    ensures d % ROUND == 0
  {
    var m := 5 * a - 22 * b;
    assert b == 7 * m && d == 217 * m;
    var n := 23 * m - 16 * c;
    assert m == 151 * n && d == ROUND * n;
  }

  /** A register that a shift leaves alone is empty, or holds an odd number of bits. */
  lemma {:induction false} Unshifted(z: word)
    requires Shift(z) == z
    ensures z == 0 || OddBits(z)
  {
    ShiftIsPlain(z);
    if z % 2 == 1 {
      assert z == 0xC001;
      OddBitsOf();
    }
  }

  lemma {:induction false} OddBitsOf()
    ensures OddBits(0xC001) && OddBits(1)
  {
    assert OddBits(0x3) == OddBits(0xC) == false;
    assert OddBits(0x30) == OddBits(0xC0) == false;
    assert OddBits(0x300) == OddBits(0xC00) == false;
    assert OddBits(0x3000) == OddBits(0x6000) == false;
  }

  /** One bit comes round after whole rounds and not before. */
  lemma {:induction false} OneBitPeriod(d: nat)
    ensures Shifts(d, 1) == 1 <==> d % ROUND == 0
  {
    hide InField, Shift;
    if Shifts(d, 1) == 1 {
      FieldStarts();
      OneThenField(d);
      FieldPeriod(d);
    }
    if d % ROUND == 0 {
      RoundOfOne();
      PeriodTimes(ROUND, d / ROUND, 1);
      assert ROUND * (d / ROUND) == d;
    }
  }

  lemma {:induction false} OneThenField(d: nat)
    ensures Shifts(d, FIELD) == Fold(Shift(Shifts(d, 1)), Shifts(d, 1))
  {
    hide Shift, Xor, Fold, InField;
    FieldStarts();
    ShiftsLinear(d, Shift(1), 1);
    assert Shifts(1, 1) == Shift(1) by {
      ShiftedOnce(1);
    }
    ShiftsSwap(d, 1, 1);
    ShiftedOnce(Shifts(d, 1));
  }

  lemma {:induction false} ShiftedOnce(w: word)
    ensures Shifts(1, w) == Shift(w)
  {
    NoShift(w);
  }

  lemma {:induction false} RoundOfOne()
    ensures Period(ROUND, 1)
  {
    hide Shifts, Shift, Xor, InField, OddBits;
    var last := Shifts(ROUND, 1);
    FieldStarts();
    RoundIsPeriod();
    OneThenField(ROUND);
    var z := Fold(last, 1);
    ShiftLinear(last, 1);
    FoldCancels(Shift(last), last, 0);
    EqualSums(Shift(last), last, Shift(1), 1);
    Unshifted(z);
    ShiftsKeepParity(ROUND, 1);
    OddBitsOfXor(last, 1);
    XorCancels(last, 1);
  }

  lemma {:induction false} EqualSums(a: word, b: word, c: word, d: word)
    requires Fold(a, b) == Fold(c, d)
    ensures Fold(a, c) == Fold(b, d)
  {
    hide Xor;
    XorInterchange(a, c, b, d);
    XorInterchange(a, b, c, d);
    XorCancels(Xor(a, b), Xor(c, d));
    XorCancels(Xor(a, c), Xor(b, d));
  }

  // Flipped bits.

  /** A frame with bit `p`, in the order they are transmitted, flipped. */
  function FlipBit(f: bytes, p: nat): (g: bytes)
    requires p < 8 * |f|
    ensures |g| == |f|
  {
    f[p / 8 := XorByte(f[p / 8], BitByte(p % 8))]
  }

  function BitByte(k: nat): byte
    requires k < 8
  {
    UpMonotone(k, 7);
    Powers();
    Up(k, 1)
  }

  /** A bit `k` places up is shifted down in as many shifts. */
  lemma {:induction false} BitShifts(k: nat)
    requires k < 8
    ensures Shifts(8, BitByte(k)) == Shifts(8 - k, 1)
  {
    hide Shifts;
    UpMonotone(k, 7);
    Powers();
    PlainShifts(k, 1);
    ShiftsSwap(8 - k, k, BitByte(k));
  }

  /** What a flipped bit does to the checksum depends only on how far from the end it is. */
  lemma {:induction false} FlipShows(seed: word, f: bytes, p: nat)
    requires p < 8 * |f|
    ensures Register(seed, FlipBit(f, p)) == Fold(Register(seed, f), Shifts(8 * |f| - p, 1))
    decreases |f|
  {
    hide Shifts, Xor, XorByte;
    var n, g := |f| - 1, FlipBit(f, p);
    var crc := Register(seed, f[..n]);
    if p / 8 == n {
      assert g[..n] == f[..n];
      FlipLast(crc, f[n], p % 8);
      assert 8 - p % 8 == 8 * |f| - p;
    } else {
      assert g[..n] == FlipBit(f[..n], p) && g[n] == f[n];
      FlipShows(seed, f[..n], p);
      FlipEarlier(crc, f[n], 8 * n - p);
    }
  }

  lemma {:induction false} FlipLast(crc: word, b: byte, k: nat)
    requires k < 8
    ensures Absorb(crc, XorByte(b, BitByte(k))) == Fold(Absorb(crc, b), Shifts(8 - k, 1))
  {
    hide Shifts, Xor, BitByte;
    XorAssociates(crc, b, BitByte(k));
    ShiftsLinear(8, Fold(crc, b), BitByte(k));
    BitShifts(k);
  }

  lemma {:induction false} FlipEarlier(crc: word, b: byte, m: nat)
    ensures Absorb(Fold(crc, Shifts(m, 1)), b) == Fold(Absorb(crc, b), Shifts(m + 8, 1))
  {
    hide Shifts, Xor;
    var x := Shifts(m, 1);
    XorAssociates(crc, x, b);
    XorCommutes(x, b);
    XorAssociates(crc, b, x);
    ShiftsLinear(8, Fold(crc, b), x);
    ShiftsSwap(8, m, 1);
  }

  /**
   Two flipped bits go unnoticed exactly when they are a whole number of rounds apart,
   whatever the frame and its length.
   */
  lemma {:induction false} TwoFlipsPassIff(f: bytes, p: nat, q: nat)
    requires Accepts(f) && p < 8 * |f| && q < 8 * |f|
    ensures Accepts(FlipBit(FlipBit(f, p), q)) <==> (p - q) % ROUND == 0
  {
    hide Shifts, Xor, FlipBit, Register;
    var g := FlipBit(FlipBit(f, p), q);
    var a, b := Shifts(8 * |f| - p, 1), Shifts(8 * |f| - q, 1);
    AcceptsIffResidueZero(f);
    AcceptsIffResidueZero(g);
    FlipShows(INITIAL, f, p);
    FlipShows(INITIAL, FlipBit(f, p), q);
    XorNothing(a);
    XorCancels(a, b);
    if p <= q {
      SameBit(8 * |f| - q, q - p);
    } else {
      SameBit(8 * |f| - p, p - q);
    }
  }

  lemma {:induction false} SameBit(n: nat, d: nat)
    ensures Shifts(n + d, 1) == Shifts(n, 1) <==> d % ROUND == 0
  {
    hide Shifts;
    ShiftsSwap(n, d, 1);
    OneBitPeriod(d);
    if Shifts(n + d, 1) == Shifts(n, 1) {
      ShiftsInjective(n, Shifts(d, 1), 1);
    }
  }

  lemma {:induction false} LowestOne(x: nat) returns (k: nat)
    requires x > 0
    ensures Up(k, 1) <= x && Ones(Xor(x, Up(k, 1))) == Ones(x) - 1
  {
    hide Xor, Up, Ones;
    UpNone();
    if x % 2 == 1 {
      k := 0;
      OddLosesOne(x);
    } else {
      OnesUp(x / 2);
      var j := LowestOne(x / 2);
      k := j + 1;
      XorStep(x, Up(k, 1));
      UpHalves(k, 1, 0);
      OnesUp(Xor(x / 2, Up(j, 1)));
    }
  }

  lemma {:induction false} OddLosesOne(x: nat)
    requires x % 2 == 1
    ensures Ones(Xor(x, 1)) == Ones(x) - 1
  {
    hide Xor;
    XorOneBit(0, x, 0);
  }

  lemma {:induction false} OnesUp(x: nat)
    ensures Ones(2 * x) == Ones(x)
  {
  }

  /** Flipping a bit in which two frames differ brings them one bit nearer. */
  lemma {:induction false} FlipNearer(f: bytes, g: bytes) returns (p: nat)
    requires |f| == |g| && FlippedBits(f, g) > 0
    ensures p < 8 * |g| && FlippedBits(f, FlipBit(g, p)) == FlippedBits(f, g) - 1
    decreases |f|
  {
    hide Xor, Ones;
    var n := |f| - 1;
    if FlippedBits(f[..n], g[..n]) > 0 {
      p := FlipNearer(f[..n], g[..n]);
      var h := FlipBit(g, p);
      assert h[..n] == FlipBit(g[..n], p) && h[n] == g[n];
    } else {
      var k := FlipInByte(f[n], g[n]);
      p := 8 * n + k;
      var h := FlipBit(g, p);
      assert h[..n] == g[..n] && h[n] == XorByte(g[n], BitByte(k));
    }
  }

  lemma {:induction false} FlipInByte(a: byte, b: byte) returns (k: nat)
    requires Ones(XorByte(a, b)) > 0
    ensures k < 8 && Ones(XorByte(a, XorByte(b, BitByte(k)))) == Ones(XorByte(a, b)) - 1
  {
    var x := XorByte(a, b);
    k := LowestOne(x);
    if k >= 8 {
      UpMonotone(8, k);
      Powers();
    }
    XorAssociates(a, b, Up(k, 1));
  }

  lemma {:induction false} NoneFlipped(f: bytes, g: bytes)
    requires |f| == |g| && FlippedBits(f, g) == 0
    ensures f == g
    decreases |f|
  {
    if f != [] {
      var n := |f| - 1;
      NoneFlipped(f[..n], g[..n]);
      NoOnes(XorByte(f[n], g[n]));
      XorCancels(f[n], g[n]);
      assert f == f[..n] + [f[n]] && g == g[..n] + [g[n]];
    }
  }

  lemma {:induction false} NoOnes(x: nat)
    requires Ones(x) == 0
    ensures x == 0
  {
    if x > 0 {
      NoOnes(x / 2);
    }
  }

  lemma {:induction false} FlipTwice(f: bytes, p: nat)
    requires p < 8 * |f|
    ensures FlipBit(FlipBit(f, p), p) == f
  {
    XorUndoes(f[p / 8], BitByte(p % 8));
  }

  /**
   Any change of one, two or three bits is caught in a frame of up to 4095 bytes; a serial
   line allows 256.
   */
  lemma {:induction false} ThreeFlipsDetected(f: bytes, g: bytes)
    requires |f| == |g| <= 4095 && Accepts(f)
    requires 1 <= FlippedBits(f, g) <= 3
    ensures !Accepts(g)
  {
    hide Accepts, FlippedBits, FlipBit;
    if FlippedBits(f, g) == 2 {
      var p := FlipNearer(f, g);
      var h := FlipBit(g, p);
      var q := FlipNearer(f, h);
      NoneFlipped(f, FlipBit(h, q));
      if p == q {
        FlipTwice(g, p);
      }
      if Accepts(g) {
        TwoFlipsPassIff(g, p, q);
      }
    } else {
      OddDamageDetected(f, g);
    }
  }
}
