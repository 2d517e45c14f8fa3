/** Double-bit errors. The shift step walks through all 32767 non-zero even-parity or odd-parity words before it
    comes back, so two flipped wire bits can only cancel when they are a multiple of 32767 bits apart. */
module CrcOrder {
  import opened Words
  import opened Crc
  import opened CrcAlgebra
  import opened CrcTheory

  /** The polynomial 1, and its powers under the shift step. */
  const UNIT: bv16 := 0x8000

  function Power(n: nat): bv16 {
    ShiftBy(UNIT, n)
  }

  // ---- Squaring polynomials, to compute high powers ----

  function Top(b: bv16): bv16 {
    if b & 0x8000 != 0 then UNIT else 0
  }

  function Twice(b: bv16): bv16 {
    b << 1
  }

  /** Mixes t in below a term that is moved two places. */
  function Next(t: bv16, rest: bv16): bv16 {
    Xor(t, Shift(Shift(rest)))
  }

  /** The square of the polynomial b, its n leading coefficients only. */
  function SquareFirst(b: bv16, n: nat): bv16
    decreases n
  {
    if n == 0 then 0 else Next(Top(b), SquareFirst(Twice(b), n - 1))
  }

  function Up4(b: bv16): bv16 {
    b << 4
  }

  function Four(b: bv16, rest: bv16): bv16 {
    Next(Top(b), Next(Top(b << 1), Next(Top(b << 2), Next(Top(b << 3), rest))))
  }

  function Square(b: bv16): bv16 {
    Four(b, Four(Up4(b), Four(Up4(Up4(b)), Four(Up4(Up4(Up4(b))), 0))))
  }

  lemma TwiceFour(b: bv16)
    ensures Twice(b) == b << 1 && Twice(Twice(b)) == b << 2 && Twice(Twice(Twice(b))) == b << 3
    ensures Twice(Twice(Twice(Twice(b)))) == Up4(b)
  {
  }

  lemma UpFour(b: bv16)
    ensures Up4(Up4(Up4(Up4(b)))) == 0
  {
  }

  lemma FourTerms(b: bv16, n: nat)
    ensures SquareFirst(b, n + 4) == Four(b, SquareFirst(Up4(b), n))
  {
    hide Top, Twice, Next;
    TwiceFour(b);
    assert SquareFirst(b << 3, n + 1) == Next(Top(b << 3), SquareFirst(Up4(b), n));
    assert SquareFirst(b << 2, n + 2) == Next(Top(b << 2), SquareFirst(b << 3, n + 1));
    assert SquareFirst(b << 1, n + 3) == Next(Top(b << 1), SquareFirst(b << 2, n + 2));
  }

  lemma SquareUnrolled(b: bv16)
    ensures SquareFirst(b, 16) == Square(b)
  {
    hide Four, Up4;
    FourTerms(b, 12);
    FourTerms(Up4(b), 8);
    FourTerms(Up4(Up4(b)), 4);
    FourTerms(Up4(Up4(Up4(b))), 0);
  }

  lemma TopXor(b: bv16, c: bv16)
    ensures Top(Xor(b, c)) == Xor(Top(b), Top(c))
    ensures Twice(Xor(b, c)) == Xor(Twice(b), Twice(c))
  {
  }

  lemma {:induction false} SquareLinear(b: bv16, c: bv16, n: nat)
    ensures SquareFirst(Xor(b, c), n) == Xor(SquareFirst(b, n), SquareFirst(c, n))
    decreases n
  {
    if n == 0 {
      XorUnit(0);
    } else {
      hide Top, Twice, Xor, Shift;
      TopXor(b, c);
      SquareLinear(Twice(b), Twice(c), n - 1);
      var x, y := SquareFirst(Twice(b), n - 1), SquareFirst(Twice(c), n - 1);
      ShiftLinear(x, y);
      ShiftLinear(Shift(x), Shift(y));
      XorInterchange(Top(b), Top(c), Shift(Shift(x)), Shift(Shift(y)));
    }
  }

  predicate Spent(b: bv16, n: nat)
    decreases n
  {
    if n == 0 then b == 0 else Spent(Twice(b), n - 1)
  }

  lemma TwiceZero()
    ensures Twice(0) == 0 && Top(0) == 0
  {
  }

  /** Coefficients that are not there add nothing. */
  lemma {:induction false} SquareSpent(b: bv16, n: nat)
    requires Spent(b, n)
    ensures SquareFirst(b, n + 1) == SquareFirst(b, n)
    decreases n
  {
    hide Top, Twice, Xor, Shift;
    if n == 0 {
      TwiceZero();
      ShiftZero();
      XorUnit(0);
    } else {
      SquareSpent(Twice(b), n - 1);
    }
  }

  lemma FourSpent(b: bv16, n: nat)
    requires Spent(Up4(b), n)
    ensures Spent(b, n + 4)
  {
    hide Twice;
    TwiceFour(b);
    assert Spent(b << 3, n + 1);
    assert Spent(b << 2, n + 2);
    assert Spent(b << 1, n + 3);
  }

  lemma AllSpent(b: bv16)
    ensures Spent(b, 16)
  {
    hide Twice, Up4;
    UpFour(b);
    FourSpent(Up4(Up4(Up4(b))), 0);
    FourSpent(Up4(Up4(b)), 4);
    FourSpent(Up4(b), 8);
    FourSpent(b, 12);
  }

  lemma HalfFacts(b: bv16)
    ensures Top(Half(b)) == 0
    ensures b & 1 == 0 ==> Twice(Half(b)) == b && Shift(b) == Half(b)
  {
  }

  lemma SquareSlides(b: bv16)
    requires b & 1 == 0
    ensures SquareFirst(Shift(b), 16) == Shift(Shift(SquareFirst(b, 16)))
  {
    hide Top, Twice, Xor, Shift, Half;
    HalfFacts(b);
    AllSpent(Half(b));
    SquareSpent(Half(b), 16);
    XorUnit(Shift(Shift(SquareFirst(b, 16))));
  }

  lemma SquareOfLast()
    ensures SquareFirst(Shift(1), 16) == Shift(Shift(SquareFirst(1, 16)))
  {
    SquareUnrolled(1);
    SquareUnrolled(0xA001);
    assert Square(1) == 0x6001;
    assert Square(0xA001) == 0xE801;
  }

  lemma SplitLow(b: bv16)
    ensures (b & 0xFFFE) & 1 == 0
    ensures b & 1 == 0 ==> b & 0xFFFE == b
    ensures b & 1 == 1 ==> Xor(b & 0xFFFE, 1) == b
  {
  }

  /** Squaring turns one shift into two. */
  lemma SquareOfShift(b: bv16)
    ensures SquareFirst(Shift(b), 16) == Shift(Shift(SquareFirst(b, 16)))
  {
    hide Xor, Shift, Top, Twice, SquareFirst;
    LowBit(b);
    SplitLow(b);
    var even := b & 0xFFFE;
    SquareSlides(even);
    if b & 1 == 1 {
      SquareOfLast();
      ShiftLinear(even, 1);
      SquareLinear(Shift(even), Shift(1), 16);
      SquareLinear(even, 1, 16);
      ShiftLinear(SquareFirst(even, 16), SquareFirst(1, 16));
      ShiftLinear(Shift(SquareFirst(even, 16)), Shift(SquareFirst(1, 16)));
    }
  }

  lemma SquareOfUnit()
    ensures SquareFirst(UNIT, 16) == UNIT
  {
    SquareUnrolled(UNIT);
    assert Square(0x8000) == 0x8000;
  }

  lemma {:induction false} PowerDoubles(n: nat)
    ensures SquareFirst(Power(n), 16) == Power(2 * n)
  {
    hide Shift, SquareFirst;
    if n == 0 {
      SquareOfUnit();
    } else {
      PowerDoubles(n - 1);
      SquareOfShift(Power(n - 1));
      assert Power(2 * n) == Shift(Power(2 * n - 1));
    }
  }

  lemma Double(n: nat, x: bv16, y: bv16)
    requires Power(n) == x && Square(x) == y
    ensures Power(2 * n) == y
  {
    hide Square, ShiftBy;
    PowerDoubles(n);
    SquareUnrolled(x);
  }

  lemma DoubleAndOne(n: nat, x: bv16, y: bv16)
    requires Power(n) == x && Shift(Square(x)) == y
    ensures Power(2 * n + 1) == y
  {
    hide Square, Shift;
    Double(n, x, Square(x));
  }

  lemma FirstPower()
    ensures Power(1) == 0x4000
  {
  }

  // The powers that settle the order, by repeated squaring.

  lemma Power217()
    ensures Power(217) == 0x3E55
  {
    hide Power;
    FirstPower();
    DoubleAndOne(1, 0x4000, 0x1000);
    Double(3, 0x1000, 0x0200);
    DoubleAndOne(6, 0x0200, 0x0004);
    DoubleAndOne(13, 0x0004, 0xC00D);
    Double(27, 0xC00D, 0xC079);
    Double(54, 0xC079, 0xDFE1);
    DoubleAndOne(108, 0xDFE1, 0x3E55);
  }

  lemma Power1057()
    ensures Power(1057) == 0xCE41
  {
    hide Power;
    FirstPower();
    Double(1, 0x4000, 0x2000);
    Double(2, 0x2000, 0x0800);
    Double(4, 0x0800, 0x0080);
    Double(8, 0x0080, 0xA001);
    DoubleAndOne(16, 0xA001, 0xD401);
    Double(33, 0xD401, 0xC221);
    Double(66, 0xC221, 0x0608);
    Double(132, 0x0608, 0xC049);
    Double(264, 0xC049, 0xD861);
    DoubleAndOne(528, 0xD861, 0xCE41);
  }

  lemma Power4681()
    ensures Power(4681) == 0x8C69
  {
    hide Power;
    FirstPower();
    Double(1, 0x4000, 0x2000);
    Double(2, 0x2000, 0x0800);
    DoubleAndOne(4, 0x0800, 0x0040);
    Double(9, 0x0040, 0xD801);
    Double(18, 0xD801, 0xC281);
    DoubleAndOne(36, 0xC281, 0x3004);
    Double(73, 0x3004, 0xCA19);
    Double(146, 0xCA19, 0xC169);
    DoubleAndOne(292, 0xC169, 0x0F31);
    Double(585, 0x0F31, 0x672B);
    Double(1170, 0x672B, 0x8E4C);
    DoubleAndOne(2340, 0x8E4C, 0x8C69);
  }

  lemma Power32767()
    ensures Power(32767) == UNIT
  {
    hide Power;
    FirstPower();
    DoubleAndOne(1, 0x4000, 0x1000);
    DoubleAndOne(3, 0x1000, 0x0100);
    DoubleAndOne(7, 0x0100, 0x0001);
    DoubleAndOne(15, 0x0001, 0x9001);
    DoubleAndOne(31, 0x9001, 0xD101);
    DoubleAndOne(63, 0xD101, 0xC100);
    DoubleAndOne(127, 0xC100, 0x5001);
    DoubleAndOne(255, 0x5001, 0x8101);
    DoubleAndOne(511, 0x8101, 0xD000);
    DoubleAndOne(1023, 0xD000, 0x5100);
    DoubleAndOne(2047, 0x5100, 0x1101);
    DoubleAndOne(4095, 0x1101, 0x9100);
    DoubleAndOne(8191, 0x9100, 0x4101);
    DoubleAndOne(16383, 0x4101, 0x8000);
  }

  // ---- The order ----

  predicate Returns(n: nat) {
    Power(n) == UNIT
  }

  lemma ReturnsSubtract(m: nat, n: nat)
    requires Returns(n) && n <= m
    ensures Returns(m - n) <==> Returns(m)
  {
    hide ShiftBy;
    ShiftByAdds(UNIT, n, m - n);
  }

  lemma {:induction false} ReturnsMultiple(n: nat, k: nat)
    requires Returns(n)
    ensures Returns(n * k)
    decreases k
  {
    if k > 0 {
      ReturnsMultiple(n, k - 1);
      assert n * k == n * (k - 1) + n;
      ReturnsSubtract(n * k, n);
    }
  }

  /** Division with remainder, by subtraction, so that the remainder is seen to return too. */
  lemma {:induction false} ReturnsRemainder(m: nat, n: nat) returns (q: nat, r: nat)
    requires Returns(n) && Returns(m) && n > 0
    ensures m == n * q + r && r < n && Returns(r)
    decreases m
  {
    hide Returns;
    if m >= n {
      ReturnsSubtract(m, n);
      var p;
      p, r := ReturnsRemainder(m - n, n);
      q := p + 1;
      assert n * q == n * p + n;
    } else {
      q, r := 0, m;
    }
  }

  lemma SmallDivisor(n: nat, q: nat)
    requires 2 <= q <= 181 && n * q == 32767
    ensures q == 7 || q == 31 || q == 151
  {
  }

  lemma ProductGrows(n: nat, q: nat)
    requires n >= 182 && q >= 182
    ensures n * q >= 182 * 182
  {
    assert n * q >= 182 * q;
  }

  lemma DivisorPair(n: nat, q: nat)
    requires n * q == 32767 && n < 32767
    ensures exists r: nat :: n * r == 217 || n * r == 1057 || n * r == 4681
  {
    if q <= 181 {
      SmallDivisor(n, q);
      if q == 7 {
        assert n * 1 == 4681;
      } else if q == 31 {
        assert n * 1 == 1057;
      } else {
        assert n * 1 == 217;
      }
    } else {
      if n >= 182 {
        ProductGrows(n, q);
      }
      if n == 1 {
        assert n * 217 == 217;
      } else {
        assert n != 0;
        SmallDivisor(q, n);
        if n == 7 {
          assert n * 31 == 217;
        } else if n == 31 {
          assert n * 7 == 217;
        } else {
          assert n * 7 == 1057;
        }
      }
    }
  }

  /** No power short of the 32767th is 1. */
  lemma {:induction false} OrderIsFull(n: nat)
    requires 0 < n < 32767
    ensures !Returns(n)
    decreases n
  {
    hide Power;
    if Returns(n) {
      Power32767();
      var q, r := ReturnsRemainder(32767, n);
      if r > 0 {
        OrderIsFull(r);
      } else {
        DivisorPair(n, q);
        var k: nat :| n * k == 217 || n * k == 1057 || n * k == 4681;
        ReturnsMultiple(n, k);
        Power217();
        Power1057();
        Power4681();
      }
    }
  }

  // ---- Two flipped bits ----

  lemma FifteenthPower()
    ensures Power(15) == 1
  {
    assert Power(1) == 0x4000 && Power(2) == 0x2000 && Power(3) == 0x1000 && Power(4) == 0x0800;
    assert Power(5) == 0x0400 && Power(6) == 0x0200 && Power(7) == 0x0100 && Power(8) == 0x0080;
    assert Power(9) == 0x0040 && Power(10) == 0x0020 && Power(11) == 0x0010 && Power(12) == 0x0008;
    assert Power(13) == 0x0004 && Power(14) == 0x0002;
  }

  /** The powers come back to 1 exactly every 32767 shifts. */
  lemma PowerPeriod(n: nat)
    ensures Returns(n) <==> n % 32767 == 0
  {
    hide Power;
    Power32767();
    if Returns(n) {
      var q, r := ReturnsRemainder(n, 32767);
      if r > 0 {
        OrderIsFull(r);
      }
    }
    if n % 32767 == 0 {
      ReturnsMultiple(32767, n / 32767);
    }
  }

  lemma FlippedBitStays(n: nat)
    ensures ShiftBy(1, n) == 1 <==> n % 32767 == 0
  {
    hide ShiftBy;
    FifteenthPower();
    PowerPeriod(n);
    ShiftByAdds(UNIT, 15, n);
    ShiftByAdds(UNIT, n, 15);
    if ShiftBy(1, n) == 1 {
      ShiftByCancels(Power(n), UNIT, 15);
    }
  }

  lemma {:induction false} ShiftByCancels(a: bv16, b: bv16, n: nat)
    requires ShiftBy(a, n) == ShiftBy(b, n)
    ensures a == b
  {
    hide Shift;
    if n > 0 {
      ShiftInjective(ShiftBy(a, n - 1), ShiftBy(b, n - 1));
      ShiftByCancels(a, b, n - 1);
    }
  }

  /** The difference that two flipped bits leave in the register is back to nothing after the frame exactly when the
      first flip's has come back to a single bit by the second. */
  lemma TwoFlipsDelta(a: seq<byte>, b: seq<byte>, i: nat, j: nat)
    requires |a| == |b| && i < j < 8 * |a|
    requires forall k | 0 <= k < 8 * |a| :: Differ(a, b, k) <==> k == i || k == j
    ensures Delta(a, b, 8 * |a|) == 0 <==> ShiftBy(1, j - i) == 1
  {
    hide Shift, Xor, Crc16, Differ, ShiftBy;
    var n := 8 * |a|;
    XorZero(SEED, SEED);
    AgreementKeepsDelta(a, b, 0, i);
    DeltaStep(a, b, i);
    XorUnit(1);
    assert Delta(a, b, i + 1) == Shift(1);
    AgreementKeepsDelta(a, b, i + 1, j);
    ShiftOnce(1);
    ShiftByAdds(1, 1, j - i - 1);
    DeltaStep(a, b, j);
    XorZero(Delta(a, b, j), 1);
    ShiftByZero(Xor(Delta(a, b, j), 1), 1);
    ShiftOnce(Xor(Delta(a, b, j), 1));
    AgreementKeepsDelta(a, b, j + 1, n);
  }

  /** Two frames of one length that differ in exactly two wire bits have the same checksum exactly when those bits
      are a multiple of 32767 apart, and then either both are accepted or neither. */
  lemma TwoFlips(a: seq<byte>, b: seq<byte>, i: nat, j: nat)
    requires |a| == |b| && i < j < 8 * |a|
    requires forall k | 0 <= k < 8 * |a| :: Differ(a, b, k) <==> k == i || k == j
    ensures Crc16(a) == Crc16(b) <==> (j - i) % 32767 == 0
    ensures VerifyCrc(a) ==> (VerifyCrc(b) <==> (j - i) % 32767 == 0)
  {
    hide Xor, Crc16, Differ, ShiftBy;
    TwoFlipsDelta(a, b, i, j);
    FlippedBitStays(j - i);
    Crc16IsBitSerial(a);
    Crc16IsBitSerial(b);
    XorZero(Crc16(a), Crc16(b));
    ResidueZero(a);
    ResidueZero(b);
  }

  lemma ShiftOnce(x: bv16)
    ensures ShiftBy(x, 1) == Shift(x)
  {
  }

  // ---- Minimum distance ----

  lemma {:induction false} NoFlips(a: seq<byte>, b: seq<byte>, n: nat)
    requires |a| == |b| && n <= 8 * |a|
    requires Flips(a, b, n) == 0
    ensures forall k | 0 <= k < n :: !Differ(a, b, k)
  {
    if n > 0 {
      NoFlips(a, b, n - 1);
    }
  }

  lemma {:induction false} LastFlip(a: seq<byte>, b: seq<byte>, n: nat) returns (j: nat)
    requires |a| == |b| && n <= 8 * |a|
    requires Flips(a, b, n) > 0
    ensures j < n && Differ(a, b, j) && Flips(a, b, j) == Flips(a, b, n) - 1
    ensures forall k | j < k < n :: !Differ(a, b, k)
  {
    hide Differ;
    if Differ(a, b, n - 1) {
      j := n - 1;
    } else {
      j := LastFlip(a, b, n - 1);
    }
  }

  /** b differs from a in exactly two wire bits, a multiple of 32767 apart. */
  predicate PeriodApart(a: seq<byte>, b: seq<byte>, i: nat, j: nat)
    requires |a| == |b|
  {
    i < j < 8 * |a| && Differ(a, b, i) && Differ(a, b, j) && (j - i) % 32767 == 0
  }

  lemma {:induction false} FlipsCount(a: seq<byte>, b: seq<byte>, n: nat, i: nat, j: nat)
    requires |a| == |b| && i < j < n <= 8 * |a|
    requires Differ(a, b, i) && Differ(a, b, j) && Flips(a, b, n) <= 2
    ensures forall k | 0 <= k < n && Differ(a, b, k) :: k == i || k == j
    decreases n
  {
    hide Differ;
    if j == n - 1 {
      OneFlip(a, b, n - 1, i);
    } else if Differ(a, b, n - 1) {
      OneFlip(a, b, n - 1, i);
      assert false;
    } else {
      FlipsCount(a, b, n - 1, i, j);
    }
  }

  lemma {:induction false} OneFlip(a: seq<byte>, b: seq<byte>, n: nat, i: nat)
    requires |a| == |b| && i < n <= 8 * |a|
    requires Differ(a, b, i) && Flips(a, b, n) <= 1
    ensures forall k | 0 <= k < n && Differ(a, b, k) :: k == i
    decreases n
  {
    hide Differ;
    if i == n - 1 || Differ(a, b, n - 1) {
      NoFlips(a, b, n - 1);
    } else {
      OneFlip(a, b, n - 1, i);
    }
  }

  /** One to three flipped bits, anywhere in an accepted frame of any length, go unnoticed exactly if they are two, a
      multiple of 32767 bits apart. */
  lemma ThreeFlips(a: seq<byte>, b: seq<byte>)
    requires |a| == |b| && VerifyCrc(a)
    requires 1 <= Flips(a, b, 8 * |a|) <= 3
    ensures VerifyCrc(b) <==> Flips(a, b, 8 * |a|) == 2 && exists i, j :: PeriodApart(a, b, i, j)
  {
    hide VerifyCrc, Differ;
    var n := 8 * |a|;
    if Flips(a, b, n) == 2 {
      var j := LastFlip(a, b, n);
      var i := LastFlip(a, b, j);
      NoFlips(a, b, i);
      TwoFlips(a, b, i, j);
      if (j - i) % 32767 == 0 {
        assert PeriodApart(a, b, i, j);
      }
      forall i', j' | PeriodApart(a, b, i', j')
        ensures i' == i && j' == j
      {
        FlipsCount(a, b, n, i, j);
      }
    } else {
      OddFlipsDetected(a, b);
    }
  }

  /** So in a frame of at most 4095 bytes, and no Modbus frame is longer, they are always noticed. */
  lemma ThreeFlipsDetected(a: seq<byte>, b: seq<byte>)
    requires |a| == |b| <= 4095 && VerifyCrc(a)
    requires 1 <= Flips(a, b, 8 * |a|) <= 3
    ensures !VerifyCrc(b)
  {
    hide VerifyCrc, Differ, Flips;
    ThreeFlips(a, b);
  }
}
