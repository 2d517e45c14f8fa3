/** What the RTU checksum detects, for frames of any length.

    A frame goes on the wire one byte after the other, each byte least significant bit first; "wire bit i"
    of a frame is bit i % 8 of its byte i / 8. */
module CrcTheory {
  import opened Words
  import opened Crc
  import opened CrcAlgebra

  function WireBit(frame: seq<byte>, i: nat): u16
    requires i < 8 * |frame|
  {
    Bit(frame[i / 8], i % 8)
  }

  /** The checksum as a shift register fed one wire bit at a time. */
  function BitRun(seed: bv16, frame: seq<byte>, n: nat): bv16
    requires n <= 8 * |frame|
  {
    if n == 0 then seed else Shift(Xor(BitRun(seed, frame, n - 1), AsWord(WireBit(frame, n - 1))))
  }

  // ---- The byte-wise algorithm is the bit-serial register ----

  /** After k of the 8 inner turns, byte i of the frame has been let in up to its bit k. */
  lemma {:induction false} InnerTurns(seed: bv16, frame: seq<byte>, i: nat, k: nat)
    requires i < |frame| && k <= 8
    ensures ShiftBy(Xor(BitRun(seed, frame, 8 * i), Image(frame[i])), k)
         == Xor(BitRun(seed, frame, 8 * i + k), Down(Image(frame[i]), k))
  {
    hide Shift, Xor, Image, Bit, AsWord;
    if k > 0 {
      InnerTurns(seed, frame, i, k - 1);
      var r := BitRun(seed, frame, 8 * i + k - 1);
      PeelBit(r, Down(Image(frame[i]), k - 1));
      ByteBits(frame[i], k - 1);
      assert WireBit(frame, 8 * i + k - 1) == Bit(frame[i], k - 1);
    }
  }

  lemma {:induction false} RegisterIsBitRun(seed: bv16, frame: seq<byte>, m: nat)
    requires m <= |frame|
    ensures Register(seed, frame[..m]) == BitRun(seed, frame, 8 * m)
  {
    hide Shift, Xor, Image, AsWord, ShiftBy, Register, Down;
    if m == 0 {
      RegisterEmpty(seed);
    } else {
      RegisterIsBitRun(seed, frame, m - 1);
      RegisterStep(seed, frame, m - 1);
      InnerTurns(seed, frame, m - 1, 8);
      ByteBits(frame[m - 1], 0);
      XorUnit(BitRun(seed, frame, 8 * m));
    }
  }

  /** The nested loops compute the bit-serial checksum of the wire bits. */
  lemma Crc16IsBitSerial(frame: seq<byte>)
    ensures Crc16(frame) == BitRun(SEED, frame, 8 * |frame|)
  {
    RegisterIsBitRun(SEED, frame, |frame|);
    assert frame[..|frame|] == frame;
  }

  // ---- Residue ----

  /** A frame with its checksum appended is accepted, provided it is long enough to be one. */
  lemma AppendedVerifies(frame: seq<byte>)
    ensures VerifyCrc(AppendCrc(frame)) <==> |frame| >= 2
  {
    SplitWord(Crc16(frame));
  }

  /** An accepted frame is exactly its own body with the checksum appended. */
  lemma VerifiedIsAppended(frame: seq<byte>)
    requires VerifyCrc(frame)
    ensures frame == AppendCrc(frame[..|frame| - 2])
  {
    var lo, hi := frame[|frame| - 2], frame[|frame| - 1];
    JoinedBytes(lo, hi);
    assert frame == frame[..|frame| - 2] + [lo, hi];
  }

  lemma {:induction false} LastTwo(body: seq<byte>, lo: byte, hi: byte)
    ensures Crc16(body + [lo, hi]) == FeedByte(FeedByte(Crc16(body), lo), hi)
  {
    hide FeedByte;
    assert (body + [lo, hi])[..|body| + 1] == body + [lo];
    assert (body + [lo])[..|body|] == body;
    assert Crc16(body + [lo]) == FeedByte(Crc16(body), lo);
  }

  /** A frame of at least four bytes is accepted exactly when the checksum of the whole frame, its own
      checksum bytes included, is zero. */
  lemma ResidueZero(frame: seq<byte>)
    ensures VerifyCrc(frame) <==> |frame| >= 4 && Crc16(frame) == 0
  {
    hide Shift, Xor, Image, ShiftBy, Crc16, FeedByte, LittleEndian;
    if |frame| >= 4 {
      var body, lo, hi := frame[..|frame| - 2], frame[|frame| - 2], frame[|frame| - 1];
      assert frame == body + [lo, hi];
      LastTwo(body, lo, hi);
      FeedWord(Crc16(body), lo, hi);
      ShiftByZero(Xor(Crc16(body), LittleEndian(lo, hi)), 16);
      XorZero(Crc16(body), LittleEndian(lo, hi));
    }
  }

  // ---- The preset ----

  lemma {:induction false} ZerosMoveOn(seed: bv16, data: seq<byte>)
    requires forall i | 0 <= i < |data| :: data[i] == 0
    ensures Register(seed, data) == 0 <==> seed == 0
  {
    hide Shift, Xor, ShiftBy;
    if data == [] {
      RegisterEmpty(seed);
    } else {
      var front := data[..|data| - 1];
      ZerosMoveOn(seed, front);
      XorUnit(Register(seed, front));
      ShiftByZero(Register(seed, front), 8);
    }
  }

  /** A line stuck at zero is never mistaken for a frame, however long it is: the register starts at something else. */
  lemma ZerosRejected(frame: seq<byte>)
    requires forall i | 0 <= i < |frame| :: frame[i] == 0
    ensures Crc16(frame) != 0
    ensures !VerifyCrc(frame)
  {
    hide Register, VerifyCrc;
    ZerosMoveOn(SEED, frame);
    ResidueZero(frame);
  }

  /** The published example of Appendix B of MODBUS over Serial Line V1.02: the checksum of 02 07 is 0x1241, which goes on
      the wire as 41 12. */
  lemma PublishedChecksum()
    ensures Crc16([2, 7]) == 0x1241
    ensures AppendCrc([2, 7]) == [0x02, 0x07, 0x41, 0x12]
  {
    hide FeedByte, Register;
    RegisterEmpty(0xFFFF);
    RegisterStep(0xFFFF, [2, 7], 0);
    RegisterStep(0xFFFF, [2, 7], 1);
    assert [2, 7][..0] == [] && [2, 7][..2] == [2, 7];
    FirstByte();
    SecondByte();
    assert CrcLow(0x1241) == 0x41 && CrcHigh(0x1241) == 0x12;
  }

  lemma FirstByte()
    ensures FeedByte(0xFFFF, 2) == 0x813E
  {
    assert Xor(0xFFFF, Image(2)) == 0xFFFD;
    assert Shift(0xFFFD) == 0xDFFF && Shift(0xDFFF) == 0xCFFE && Shift(0xCFFE) == 0x67FF && Shift(0x67FF) == 0x93FE;
    assert Shift(0x93FE) == 0x49FF && Shift(0x49FF) == 0x84FE && Shift(0x84FE) == 0x427F && Shift(0x427F) == 0x813E;
    var x: bv16 := 0xFFFD;
    assert ShiftBy(x, 1) == 0xDFFF;
    assert ShiftBy(x, 2) == 0xCFFE;
    assert ShiftBy(x, 3) == 0x67FF;
    assert ShiftBy(x, 4) == 0x93FE;
    assert ShiftBy(x, 5) == 0x49FF;
    assert ShiftBy(x, 6) == 0x84FE;
    assert ShiftBy(x, 7) == 0x427F;
  }

  lemma SecondByte()
    ensures FeedByte(0x813E, 7) == 0x1241
  {
    assert Xor(0x813E, Image(7)) == 0x8139;
    assert Shift(0x8139) == 0xE09D && Shift(0xE09D) == 0xD04F && Shift(0xD04F) == 0xC826 && Shift(0xC826) == 0x6413;
    assert Shift(0x6413) == 0x9208 && Shift(0x9208) == 0x4904 && Shift(0x4904) == 0x2482 && Shift(0x2482) == 0x1241;
    var x: bv16 := 0x8139;
    assert ShiftBy(x, 1) == 0xE09D;
    assert ShiftBy(x, 2) == 0xD04F;
    assert ShiftBy(x, 3) == 0xC826;
    assert ShiftBy(x, 4) == 0x6413;
    assert ShiftBy(x, 5) == 0x9208;
    assert ShiftBy(x, 6) == 0x4904;
    assert ShiftBy(x, 7) == 0x2482;
  }

  // ---- Differences between two frames ----

  /** The difference of the two registers after n wire bits. */
  function Delta(a: seq<byte>, b: seq<byte>, n: nat): bv16
    requires |a| == |b| && n <= 8 * |a|
  {
    Xor(BitRun(SEED, a, n), BitRun(SEED, b, n))
  }

  predicate Differ(a: seq<byte>, b: seq<byte>, i: nat)
    requires |a| == |b| && i < 8 * |a|
  {
    WireBit(a, i) != WireBit(b, i)
  }

  function Flip(a: seq<byte>, b: seq<byte>, i: nat): bv16
    requires |a| == |b| && i < 8 * |a|
  {
    if Differ(a, b, i) then 1 else 0
  }

  lemma DeltaStep(a: seq<byte>, b: seq<byte>, n: nat)
    requires |a| == |b| && n < 8 * |a|
    ensures Delta(a, b, n + 1) == Shift(Xor(Delta(a, b, n), Flip(a, b, n)))
  {
    hide Shift, Xor, Bit;
    var ra, rb := BitRun(SEED, a, n), BitRun(SEED, b, n);
    var da, db := AsWord(WireBit(a, n)), AsWord(WireBit(b, n));
    ShiftLinear(Xor(ra, da), Xor(rb, db));
    XorInterchange(ra, rb, da, db);
    XorZero(da, db);
    XorUnit(da);
    XorUnit(db);
  }

  /** Where the frames agree, a zero difference stays zero and a non-zero difference stays non-zero. */
  lemma {:induction false} AgreementKeepsDelta(a: seq<byte>, b: seq<byte>, from: nat, to: nat)
    requires |a| == |b| && from <= to <= 8 * |a|
    requires forall i | from <= i < to :: !Differ(a, b, i)
    ensures Delta(a, b, to) == ShiftBy(Delta(a, b, from), to - from)
    ensures Delta(a, b, to) == 0 <==> Delta(a, b, from) == 0
  {
    hide Shift, Xor, Delta;
    if from < to {
      AgreementKeepsDelta(a, b, from, to - 1);
      DeltaStep(a, b, to - 1);
      XorUnit(Delta(a, b, to - 1));
    }
    ShiftByZero(Delta(a, b, from), to - from);
  }

  lemma SameWireBits(a: seq<byte>, b: seq<byte>)
    requires |a| == |b|
    requires forall i | 0 <= i < 8 * |a| :: !Differ(a, b, i)
    ensures a == b
  {
    forall j | 0 <= j < |a|
      ensures a[j] == b[j]
    {
      forall k | 0 <= k < 8
        ensures Bit(a[j], k) == Bit(b[j], k)
      {
        assert !Differ(a, b, 8 * j + k);
      }
      BitsDetermine(a[j], b[j]);
    }
  }

  // ---- Bursts ----

  /** Read backwards from a vanished difference, j wire bits leave at most j low bits in the register. */
  lemma {:induction false} BurstBackwards(a: seq<byte>, b: seq<byte>, end: nat, j: nat)
    requires |a| == |b| && j <= 16 && j <= end <= 8 * |a|
    requires Delta(a, b, end) == 0
    ensures Fits(Delta(a, b, end - j), j)
    ensures Delta(a, b, end - j) == 0 ==> forall i | end - j <= i < end :: !Differ(a, b, i)
  {
    hide Shift, Xor, Delta, Differ, Half;
    if j > 0 {
      BurstBackwards(a, b, end, j - 1);
      DeltaStep(a, b, end - j);
      StepBack(Delta(a, b, end - j), Flip(a, b, end - j), j - 1);
    }
  }

  /** Burst errors: two different frames of one length whose differences all lie within sixteen consecutive
      wire bits never have the same checksum. */
  lemma BurstDetected(a: seq<byte>, b: seq<byte>, start: nat)
    requires |a| == |b| && a != b
    requires forall i | 0 <= i < 8 * |a| && Differ(a, b, i) :: start <= i < start + 16
    ensures Crc16(a) != Crc16(b)
    ensures !(VerifyCrc(a) && VerifyCrc(b))
  {
    hide Shift, Xor, Crc16, Differ;
    var n := 8 * |a|;
    var from := if start <= n then start else n;
    var to := if start + 16 <= n then start + 16 else n;
    Crc16IsBitSerial(a);
    Crc16IsBitSerial(b);
    XorZero(Crc16(a), Crc16(b));
    ResidueZero(a);
    ResidueZero(b);
    XorZero(SEED, SEED);
    AgreementKeepsDelta(a, b, 0, from);
    if Crc16(a) == Crc16(b) {
      AgreementKeepsDelta(a, b, to, n);
      BurstBackwards(a, b, to, to - from);
      SameWireBits(a, b);
    }
  }

  /** In bytes: corrupting one byte, or two neighbouring bytes, of an accepted frame makes it rejected. */
  lemma AdjacentBytesDetected(frame: seq<byte>, j: nat, x: byte, y: byte)
    requires j + 1 < |frame|
    requires VerifyCrc(frame)
    ensures VerifyCrc(frame[j := x][j + 1 := y]) <==> x == frame[j] && y == frame[j + 1]
  {
    var other := frame[j := x][j + 1 := y];
    if x == frame[j] && y == frame[j + 1] {
      assert other == frame;
    } else {
      assert other[j] != frame[j] || other[j + 1] != frame[j + 1];
      forall i | 0 <= i < 8 * |frame| && Differ(frame, other, i)
        ensures 8 * j <= i < 8 * j + 16
      {
        assert other[i / 8] != frame[i / 8];
      }
      BurstDetected(frame, other, 8 * j);
    }
  }

  // ---- Parity ----

  /** The number of set bits among the first n wire bits. */
  function Ones(frame: seq<byte>, n: nat): nat
    requires n <= 8 * |frame|
  {
    if n == 0 then 0 else Ones(frame, n - 1) + WireBit(frame, n - 1)
  }

  /** The number of wire bits in which two frames differ. */
  function Flips(a: seq<byte>, b: seq<byte>, n: nat): nat
    requires |a| == |b| && n <= 8 * |a|
  {
    if n == 0 then 0 else Flips(a, b, n - 1) + (if Differ(a, b, n - 1) then 1 else 0)
  }

  lemma {:induction false} ParityTracksOnes(frame: seq<byte>, n: nat)
    requires n <= 8 * |frame|
    ensures Odd(BitRun(SEED, frame, n), 16) <==> Ones(frame, n) % 2 == 1
  {
    hide Shift, Xor, Bit, Odd;
    if n == 0 {
      EvenSeed();
    } else {
      ParityTracksOnes(frame, n - 1);
      var r, d := BitRun(SEED, frame, n - 1), AsWord(WireBit(frame, n - 1));
      OddXor(r, d, 16);
      OddBit(WireBit(frame, n - 1));
      OddOfShift(Xor(r, d));
    }
  }

  /** The parity of the checksum is the parity of the data: it has an odd number of set bits exactly if they have. */
  lemma ChecksumParity(data: seq<byte>)
    ensures Odd(Crc16(data), 16) <==> Ones(data, 8 * |data|) % 2 == 1
  {
    Crc16IsBitSerial(data);
    ParityTracksOnes(data, 8 * |data|);
  }

  /** Every accepted frame carries an even number of set bits. */
  lemma AcceptedIsEven(frame: seq<byte>)
    requires VerifyCrc(frame)
    ensures Ones(frame, 8 * |frame|) % 2 == 0
  {
    ResidueZero(frame);
    ChecksumParity(frame);
    OddBit(0);
  }

  lemma {:induction false} FlipsAndOnes(a: seq<byte>, b: seq<byte>, n: nat)
    requires |a| == |b| && n <= 8 * |a|
    ensures (Ones(a, n) + Ones(b, n) + Flips(a, b, n)) % 2 == 0
  {
    hide Bit;
    if n > 0 {
      FlipsAndOnes(a, b, n - 1);
      var x, y := WireBit(a, n - 1), WireBit(b, n - 1);
      assert (x + y + (if x != y then 1 else 0)) % 2 == 0;
    }
  }

  /** Any odd number of flipped bits, anywhere in an accepted frame, is rejected. */
  lemma OddFlipsDetected(a: seq<byte>, b: seq<byte>)
    requires |a| == |b| && VerifyCrc(a)
    requires Flips(a, b, 8 * |a|) % 2 == 1
    ensures !VerifyCrc(b)
  {
    hide VerifyCrc, Ones, Flips;
    FlipsAndOnes(a, b, 8 * |a|);
    AcceptedIsEven(a);
    if VerifyCrc(b) {
      AcceptedIsEven(b);
    }
  }
}
