/** The algebra behind the checksum: words under exclusive or, the shift step, and bytes as words. */
module CrcAlgebra {
  import opened Words
  import opened Crc

  // ---- Bytes as words ----

  /** Bit k of a byte is the same bit of its 16-bit register image. */
  lemma RegisterBits(b: byte)
    ensures Image(b) & 0xFF00 == 0
    ensures (Bit(b, 0) == 1 <==> Image(b) & 0x01 != 0) && (Bit(b, 1) == 1 <==> Image(b) & 0x02 != 0)
    ensures (Bit(b, 2) == 1 <==> Image(b) & 0x04 != 0) && (Bit(b, 3) == 1 <==> Image(b) & 0x08 != 0)
    ensures (Bit(b, 4) == 1 <==> Image(b) & 0x10 != 0) && (Bit(b, 5) == 1 <==> Image(b) & 0x20 != 0)
    ensures (Bit(b, 6) == 1 <==> Image(b) & 0x40 != 0) && (Bit(b, 7) == 1 <==> Image(b) & 0x80 != 0)
  {
  }

  lemma SameImage(b: byte, c: byte)
    requires Image(b) == Image(c)
    ensures b == c
  {
    hide Image, Bit;
    RegisterBits(b);
    RegisterBits(c);
    BitsDetermine(b, c);
  }

  lemma ImageBack(x: bv16)
    requires x <= 0xFF
    ensures Image(x as byte) == x
  {
  }

  lemma JoinSplit(crc: bv16)
    ensures (crc & 0xFF) | ((crc >> 8) << 8) == crc
  {
  }

  lemma SplitWord(crc: bv16)
    ensures LittleEndian(CrcLow(crc), CrcHigh(crc)) == crc
  {
    hide Image;
    ImageBack(crc & 0xFF);
    ImageBack(crc >> 8);
    JoinSplit(crc);
  }

  lemma JoinedBytes(lo: byte, hi: byte)
    ensures CrcLow(LittleEndian(lo, hi)) == lo && CrcHigh(LittleEndian(lo, hi)) == hi
  {
    hide Image, Bit;
    RegisterBits(lo);
    RegisterBits(hi);
    SplitJoin(Image(lo), Image(hi));
    var w := LittleEndian(lo, hi);
    assert w & 0xFF <= 0xFF && w >> 8 <= 0xFF;
    ImageBack(w & 0xFF);
    ImageBack(w >> 8);
    SameImage(CrcLow(w), lo);
    SameImage(CrcHigh(w), hi);
  }

  lemma SplitJoin(lo: bv16, hi: bv16)
    requires lo & 0xFF00 == 0 && hi & 0xFF00 == 0
    ensures (lo | (hi << 8)) & 0xFF == lo && (lo | (hi << 8)) >> 8 == hi
  {
  }

  function Half(x: bv16): bv16 {
    x >> 1
  }

  predicate Low(x: bv16) {
    x & 1 != 0
  }

  /** Shifted down k places. */
  function Down(x: bv16, k: nat): bv16 {
    if k == 0 then x else Half(Down(x, k - 1))
  }

  lemma DownBits(x: bv16)
    requires x & 0xFF00 == 0
    ensures (Down(x, 0) & 1 != 0 <==> x & 0x01 != 0) && (Down(x, 1) & 1 != 0 <==> x & 0x02 != 0)
    ensures (Down(x, 2) & 1 != 0 <==> x & 0x04 != 0) && (Down(x, 3) & 1 != 0 <==> x & 0x08 != 0)
    ensures (Down(x, 4) & 1 != 0 <==> x & 0x10 != 0) && (Down(x, 5) & 1 != 0 <==> x & 0x20 != 0)
    ensures (Down(x, 6) & 1 != 0 <==> x & 0x40 != 0) && (Down(x, 7) & 1 != 0 <==> x & 0x80 != 0)
    ensures Down(x, 8) == 0
  {
    assert Down(x, 1) == x >> 1;
    assert Down(x, 2) == x >> 2;
    assert Down(x, 3) == x >> 3;
    assert Down(x, 4) == x >> 4;
    assert Down(x, 5) == x >> 5;
    assert Down(x, 6) == x >> 6;
    assert Down(x, 7) == x >> 7;
    assert Down(x, 8) == x >> 8;
  }

  function AsWord(bit: u16): bv16 {
    if bit == 1 then 1 else 0
  }

  /** The bits of a byte come out of its image one by one, least significant first. */
  lemma ByteBits(b: byte, k: nat)
    requires k < 8
    ensures Down(Image(b), k) & 1 == AsWord(Bit(b, k))
    ensures Down(Image(b), 8) == 0
  {
    hide Image, Bit, Down;
    RegisterBits(b);
    DownBits(Image(b));
    LowBit(Down(Image(b), k));
  }

  lemma LowBit(x: bv16)
    ensures x & 1 == 0 || x & 1 == 1
  {
  }

  // ---- Exclusive or ----

  lemma XorUnit(a: bv16)
    ensures Xor(a, 0) == a && Xor(0, a) == a
  {
  }

  lemma XorCommutes(a: bv16, b: bv16)
    ensures Xor(a, b) == Xor(b, a)
  {
  }

  lemma XorAssoc(a: bv16, b: bv16, c: bv16)
    ensures Xor(Xor(a, b), c) == Xor(a, Xor(b, c))
  {
  }

  lemma XorSelf(a: bv16)
    ensures Xor(a, a) == 0
  {
  }

  lemma XorZero(a: bv16, b: bv16)
    ensures Xor(a, b) == 0 <==> a == b
  {
    hide Xor;
    XorSelf(a);
    XorAssoc(a, a, b);
    XorUnit(a);
    XorUnit(b);
  }

  lemma XorInterchange(a: bv16, b: bv16, p: bv16, q: bv16)
    ensures Xor(Xor(a, p), Xor(b, q)) == Xor(Xor(a, b), Xor(p, q))
  {
    hide Xor;
    XorAssoc(a, p, Xor(b, q));
    XorAssoc(p, b, q);
    XorCommutes(p, b);
    XorAssoc(b, p, q);
    XorAssoc(a, b, Xor(p, q));
  }

  // ---- The shift step ----

  lemma ShiftXor00(a: bv16, b: bv16)
    requires a & 1 == 0 && b & 1 == 0
    ensures Shift(a ^ b) == Shift(a) ^ Shift(b)
  {
  }

  lemma ShiftXor01(a: bv16, b: bv16)
    requires a & 1 == 0 && b & 1 == 1
    ensures Shift(a ^ b) == Shift(a) ^ Shift(b)
  {
  }

  lemma ShiftXor10(a: bv16, b: bv16)
    requires a & 1 == 1 && b & 1 == 0
    ensures Shift(a ^ b) == Shift(a) ^ Shift(b)
  {
  }

  lemma ShiftXor11(a: bv16, b: bv16)
    requires a & 1 == 1 && b & 1 == 1
    ensures Shift(a ^ b) == Shift(a) ^ Shift(b)
  {
  }

  /** The shift step is linear over exclusive or. */
  lemma ShiftLinear(a: bv16, b: bv16)
    ensures Shift(Xor(a, b)) == Xor(Shift(a), Shift(b))
  {
    hide Shift;
    LowBit(a);
    LowBit(b);
    if a & 1 == 0 {
      if b & 1 == 0 {
        ShiftXor00(a, b);
      } else {
        ShiftXor01(a, b);
      }
    } else if b & 1 == 0 {
      ShiftXor10(a, b);
    } else {
      ShiftXor11(a, b);
    }
  }

  /** Undoes one shift: the top bit tells whether the polynomial was mixed in. */
  function Unshift(x: bv16): bv16 {
    if x & 0x8000 != 0 then ((x ^ 0xA001) << 1) | 1 else x << 1
  }

  /** The shift step loses nothing. */
  lemma ShiftBack(x: bv16)
    ensures Unshift(Shift(x)) == x
  {
  }

  lemma ShiftInjective(a: bv16, b: bv16)
    requires Shift(a) == Shift(b)
    ensures a == b
  {
    hide Shift, Unshift;
    ShiftBack(a);
    ShiftBack(b);
  }

  lemma ShiftZero()
    ensures Shift(0) == 0
  {
  }

  lemma {:induction false} ShiftByLinear(a: bv16, b: bv16, n: nat)
    ensures ShiftBy(Xor(a, b), n) == Xor(ShiftBy(a, n), ShiftBy(b, n))
  {
    hide Shift, Xor;
    if n > 0 {
      ShiftByLinear(a, b, n - 1);
      ShiftLinear(ShiftBy(a, n - 1), ShiftBy(b, n - 1));
    }
  }

  lemma {:induction false} ShiftByZero(x: bv16, n: nat)
    ensures ShiftBy(x, n) == 0 <==> x == 0
  {
    hide Shift;
    if n > 0 {
      ShiftByZero(x, n - 1);
      ShiftZero();
      if Shift(ShiftBy(x, n - 1)) == 0 {
        ShiftInjective(ShiftBy(x, n - 1), 0);
      }
    }
  }

  lemma {:induction false} ShiftByAdds(x: bv16, m: nat, n: nat)
    ensures ShiftBy(x, m + n) == ShiftBy(ShiftBy(x, m), n)
  {
    hide Shift;
    if n > 0 {
      ShiftByAdds(x, m, n - 1);
    }
  }

  lemma LowAndRest(x: bv16)
    ensures Xor(x & 1, (x >> 1) << 1) == x
    ensures Shift((x >> 1) << 1) == x >> 1
  {
  }

  /** A word mixed into the register may be let in one bit at a time. */
  lemma PeelBit(r: bv16, x: bv16)
    ensures Shift(Xor(r, x)) == Xor(Shift(Xor(r, x & 1)), x >> 1)
  {
    hide Shift, Xor;
    LowAndRest(x);
    XorAssoc(r, x & 1, (x >> 1) << 1);
    ShiftLinear(Xor(r, x & 1), (x >> 1) << 1);
  }

  lemma SlideDown(x: bv16)
    requires x & 1 == 0
    ensures Shift(x) == x >> 1
  {
  }

  /** A byte mixed in above eight zero bits is, eight shifts later, at the low end. */
  lemma HighByteArrives(hi: bv16)
    requires hi & 0xFF00 == 0
    ensures ShiftBy(hi << 8, 8) == hi
  {
    hide Shift;
    SlideDown(hi << 8);
    assert ShiftBy(hi << 8, 1) == hi << 7;
    SlideDown(hi << 7);
    assert ShiftBy(hi << 8, 2) == hi << 6;
    SlideDown(hi << 6);
    assert ShiftBy(hi << 8, 3) == hi << 5;
    SlideDown(hi << 5);
    assert ShiftBy(hi << 8, 4) == hi << 4;
    SlideDown(hi << 4);
    assert ShiftBy(hi << 8, 5) == hi << 3;
    SlideDown(hi << 3);
    assert ShiftBy(hi << 8, 6) == hi << 2;
    SlideDown(hi << 2);
    assert ShiftBy(hi << 8, 7) == hi << 1;
    SlideDown(hi << 1);
  }

  lemma MixWord(crc: bv16, l: bv16, h: bv16)
    requires l & 0xFF00 == 0
    ensures Xor(crc, l | (h << 8)) == Xor(Xor(crc, l), h << 8)
  {
  }

  /** Feeding two bytes is mixing in their little-endian word and shifting sixteen times. */
  lemma FeedWord(crc: bv16, lo: byte, hi: byte)
    ensures FeedByte(FeedByte(crc, lo), hi) == ShiftBy(Xor(crc, LittleEndian(lo, hi)), 16)
  {
    hide Shift, Xor, Image, ShiftBy;
    var l, h := Image(lo), Image(hi);
    RegisterBits(lo);
    RegisterBits(hi);
    MixWord(crc, l, h);
    ShiftByLinear(Xor(crc, l), h << 8, 8);
    HighByteArrives(h);
    ShiftByAdds(Xor(crc, LittleEndian(lo, hi)), 8, 8);
  }

  // ---- Words with few low bits ----

  /** x has no set bit above its n lowest. */
  predicate Fits(x: bv16, n: nat)
    decreases n
  {
    if n == 0 then x == 0 else Fits(Half(x), n - 1)
  }

  lemma {:induction false} FitsDown(x: bv16, n: nat)
    ensures Fits(x, n) <==> Down(x, n) == 0
    decreases n
  {
    hide Half;
    if n > 0 {
      FitsDown(Half(x), n - 1);
      DownInside(x, n - 1);
    }
  }

  lemma {:induction false} DownInside(x: bv16, n: nat)
    ensures Down(x, n + 1) == Down(Half(x), n)
    decreases n
  {
    hide Half;
    if n > 0 {
      DownInside(x, n - 1);
    }
  }

  lemma {:induction false} FitsWider(x: bv16, m: nat, n: nat)
    requires m <= n && Fits(x, m)
    ensures Fits(x, n)
    decreases n
  {
    hide Half;
    if m > 0 {
      FitsWider(Half(x), m - 1, n - 1);
    } else if n > 0 {
      assert Half(0) == 0 by { HalfZero(); }
      FitsWider(0, 0, n - 1);
    }
  }

  lemma HalfZero()
    ensures Half(0) == 0
  {
  }

  lemma DownFar(x: bv16)
    ensures Down(x, 15) == x >> 15 && Down(x, 16) == 0
  {
    assert Down(x, 1) == x >> 1;
    assert Down(x, 2) == x >> 2;
    assert Down(x, 3) == x >> 3;
    assert Down(x, 4) == x >> 4;
    assert Down(x, 5) == x >> 5;
    assert Down(x, 6) == x >> 6;
    assert Down(x, 7) == x >> 7;
    assert Down(x, 8) == x >> 8;
    assert Down(x, 9) == x >> 9;
    assert Down(x, 10) == x >> 10;
    assert Down(x, 11) == x >> 11;
    assert Down(x, 12) == x >> 12;
    assert Down(x, 13) == x >> 13;
    assert Down(x, 14) == x >> 14;
    assert Down(x, 15) == x >> 15;
  }

  lemma TopClear(y: bv16)
    requires y >> 15 == 0
    ensures y & 0x8000 == 0
  {
  }

  /** Without its top bit set, a shifted word came from a plain shift. */
  lemma PlainShift(x: bv16, d: bv16)
    requires d == 0 || d == 1
    requires Shift(Xor(x, d)) & 0x8000 == 0
    ensures Shift(Xor(x, d)) == Half(x)
    ensures x == 0 ==> d == 0
  {
  }

  /** One step back from a register of n <= 15 low bits: one more low bit at most, and zero only if no bit
      was mixed in. */
  lemma StepBack(x: bv16, d: bv16, n: nat)
    requires d == 0 || d == 1
    requires n <= 15 && Fits(Shift(Xor(x, d)), n)
    ensures Fits(x, n + 1)
    ensures x == 0 ==> d == 0 && Shift(Xor(x, d)) == 0
  {
    hide Shift, Xor, Half;
    var y := Shift(Xor(x, d));
    FitsWider(y, n, 15);
    FitsDown(y, 15);
    DownFar(y);
    TopClear(y);
    PlainShift(x, d);
    HalfZero();
  }

  // ---- Parity ----

  /** The number of set bits among the n lowest of x is odd. */
  predicate Odd(x: bv16, n: nat)
    decreases n
  {
    n > 0 && (Low(x) != Odd(Half(x), n - 1))
  }

  lemma XorBits(x: bv16, y: bv16)
    ensures Low(Xor(x, y)) <==> (Low(x) != Low(y))
    ensures Half(Xor(x, y)) == Xor(Half(x), Half(y))
  {
  }

  lemma {:induction false} OddXor(x: bv16, y: bv16, n: nat)
    ensures Odd(Xor(x, y), n) <==> (Odd(x, n) != Odd(y, n))
    decreases n
  {
    hide Xor, Half, Low;
    if n > 0 {
      XorBits(x, y);
      OddXor(Half(x), Half(y), n - 1);
    }
  }

  lemma {:induction false} OddHighZero(x: bv16, n: nat)
    requires Fits(x, n)
    ensures Odd(x, n + 1) <==> Odd(x, n)
    decreases n
  {
    if n > 0 {
      hide Half, Low;
      OddHighZero(Half(x), n - 1);
    }
  }

  /** The polynomial has an odd number of terms, so a shift never changes the parity. */
  lemma OddOfShift(x: bv16)
    ensures Odd(Shift(x), 16) <==> Odd(x, 16)
  {
    hide Xor, Half, Low, Shift;
    FitsDown(x, 16);
    DownFar(x);
    OddHighZero(Half(x), 15);
    OddXor(Half(x), 0xA001, 16);
    OddPolynomial();
    ShiftAsXor(x);
  }

  lemma ShiftAsXor(x: bv16)
    ensures Shift(x) == if Low(x) then Xor(Half(x), 0xA001) else Half(x)
  {
  }

  lemma OddPolynomial()
    ensures Odd(0xA001, 16)
  {
    assert Odd(0x1, 1);
    assert Odd(0x2, 2);
    assert !Odd(0x5, 3);
    assert !Odd(0xA, 4);
    assert !Odd(0x14, 5);
    assert !Odd(0x28, 6);
    assert !Odd(0x50, 7);
    assert !Odd(0xA0, 8);
    assert !Odd(0x140, 9);
    assert !Odd(0x280, 10);
    assert !Odd(0x500, 11);
    assert !Odd(0xA00, 12);
    assert !Odd(0x1400, 13);
    assert !Odd(0x2800, 14);
    assert !Odd(0x5000, 15);
  }

  lemma OddBit(bit: u16)
    requires bit <= 1
    ensures Odd(AsWord(bit), 16) <==> bit == 1
  {
    EvenZero(15);
    assert Half(AsWord(bit)) == 0;
  }

  lemma EvenZero(n: nat)
    ensures !Odd(0, n)
  {
  }

  lemma EvenSeed()
    ensures !Odd(0xFFFF, 16)
  {
    assert !Odd(0x3, 2);
    assert !Odd(0xF, 4);
    assert !Odd(0x3F, 6);
    assert !Odd(0xFF, 8);
    assert !Odd(0x3FF, 10);
    assert !Odd(0xFFF, 12);
    assert !Odd(0x3FFF, 14);
  }
}
