/** Bytes, 16-bit words and their big-endian layout, as used by every frame in the program. */
module Words {

  type byte = x: int | 0 <= x < 0x100

  type u16 = x: int | 0 <= x < 0x1_0000

  datatype Option<+T> = None | Some(value: T)

  /** byte(w >> 8), given by its bounds, which are cheaper to reason about than a division. */
  function Hi(w: u16): byte {
    assert w / 0x100 * 0x100 <= w < w / 0x100 * 0x100 + 0x100;
    var h: byte :| h * 0x100 <= w < h * 0x100 + 0x100;
    h
  }

  /** byte(w). */
  function Lo(w: u16): byte {
    w - Hi(w) * 0x100
  }

  function Word(hi: byte, lo: byte): u16 {
    hi * 0x100 + lo
  }

  /** The two bytes that PutUint16 stores, most significant first. */
  function BigEndian(w: u16): seq<byte> {
    [Hi(w), Lo(w)]
  }

  function WordAt(s: seq<byte>, i: nat): u16
    requires i + 1 < |s|
  {
    Word(s[i], s[i + 1])
  }

  function Pow2(k: nat): nat
    requires k < 8
  {
    match k
    case 0 => 1
    case 1 => 2
    case 2 => 4
    case 3 => 8
    case 4 => 16
    case 5 => 32
    case 6 => 64
    case _ => 128
  }

  /** Bit k of b, counted from the least significant end: (b >> k) & 1. */
  function Bit(b: byte, k: nat): (r: u16)
    requires k < 8
    ensures r <= 1
  {
    b / Pow2(k) % 2
  }

  /** The byte whose bits, from the least significant end, are the given ones. */
  function FromBits(b0: u16, b1: u16, b2: u16, b3: u16, b4: u16, b5: u16, b6: u16, b7: u16): byte
    requires b0 <= 1 && b1 <= 1 && b2 <= 1 && b3 <= 1 && b4 <= 1 && b5 <= 1 && b6 <= 1 && b7 <= 1
  {
    b0 + 2 * b1 + 4 * b2 + 8 * b3 + 16 * b4 + 32 * b5 + 64 * b6 + 128 * b7
  }

  lemma FromBitsBit(b0: u16, b1: u16, b2: u16, b3: u16, b4: u16, b5: u16, b6: u16, b7: u16)
    requires b0 <= 1 && b1 <= 1 && b2 <= 1 && b3 <= 1 && b4 <= 1 && b5 <= 1 && b6 <= 1 && b7 <= 1
    ensures var b := FromBits(b0, b1, b2, b3, b4, b5, b6, b7);
            && Bit(b, 0) == b0 && Bit(b, 1) == b1 && Bit(b, 2) == b2 && Bit(b, 3) == b3
            && Bit(b, 4) == b4 && Bit(b, 5) == b5 && Bit(b, 6) == b6 && Bit(b, 7) == b7
  {
    hide FromBits, Bit, HalfOf, ParityOf;
    var b := FromBits(b0, b1, b2, b3, b4, b5, b6, b7);
    var h6 := b6 + 2 * b7;
    var h5 := b5 + 2 * h6;
    var h4 := b4 + 2 * h5;
    var h3 := b3 + 2 * h4;
    var h2 := b2 + 2 * h3;
    var h1 := b1 + 2 * h2;
    FromBitsNested(b0, b1, b2, b3, b4, b5, b6, b7);
    BitsAreRemainders(b);
    Halved(b0, h1);
    Halved(b1, h2);
    Halved(b2, h3);
    Halved(b3, h4);
    Halved(b4, h5);
    Halved(b5, h6);
    Halved(b6, b7);
    Halved(b7, 0);
  }

  lemma FromBitsNested(b0: u16, b1: u16, b2: u16, b3: u16, b4: u16, b5: u16, b6: u16, b7: u16)
    requires b0 <= 1 && b1 <= 1 && b2 <= 1 && b3 <= 1 && b4 <= 1 && b5 <= 1 && b6 <= 1 && b7 <= 1
    ensures FromBits(b0, b1, b2, b3, b4, b5, b6, b7) ==
            b0 + 2 * (b1 + 2 * (b2 + 2 * (b3 + 2 * (b4 + 2 * (b5 + 2 * (b6 + 2 * b7))))))
  {
  }

  function HalfOf(x: nat): nat {
    x / 2
  }

  function ParityOf(x: nat): nat {
    x % 2
  }

  lemma Halved(bit: u16, half: nat)
    requires bit <= 1
    ensures HalfOf(bit + 2 * half) == half && ParityOf(bit + 2 * half) == bit
  {
  }

  /** Bit k is the remainder after k halvings. */
  lemma BitsAreRemainders(b: byte)
    ensures var q := HalfOf(HalfOf(HalfOf(HalfOf(b))));
            && Bit(b, 0) == ParityOf(b) && Bit(b, 1) == ParityOf(HalfOf(b))
            && Bit(b, 2) == ParityOf(HalfOf(HalfOf(b))) && Bit(b, 3) == ParityOf(HalfOf(HalfOf(HalfOf(b))))
            && Bit(b, 4) == ParityOf(q) && Bit(b, 5) == ParityOf(HalfOf(q))
            && Bit(b, 6) == ParityOf(HalfOf(HalfOf(q))) && Bit(b, 7) == ParityOf(HalfOf(HalfOf(HalfOf(q))))
  {
    Halving(b);
  }

  lemma Halving(b: byte)
    ensures b / 4 == b / 2 / 2 && b / 8 == b / 4 / 2 && b / 16 == b / 8 / 2
    ensures b / 32 == b / 16 / 2 && b / 64 == b / 32 / 2 && b / 128 == b / 64 / 2
  {
  }

  /** Every byte is put together again from its own bits. */
  lemma BitsOfByte(b: byte)
    ensures b == FromBits(Bit(b, 0), Bit(b, 1), Bit(b, 2), Bit(b, 3), Bit(b, 4), Bit(b, 5), Bit(b, 6), Bit(b, 7))
  {
    hide Bit;
    BitsHalve(b);
  }

  /** Each bit is what halving takes off what is left of the byte. */
  lemma BitsHalve(b: byte)
    ensures b == Bit(b, 0) + 2 * (b / 2) && b / 2 == Bit(b, 1) + 2 * (b / 4)
    ensures b / 4 == Bit(b, 2) + 2 * (b / 8) && b / 8 == Bit(b, 3) + 2 * (b / 16)
    ensures b / 16 == Bit(b, 4) + 2 * (b / 32) && b / 32 == Bit(b, 5) + 2 * (b / 64)
    ensures b / 64 == Bit(b, 6) + 2 * (b / 128) && b / 128 == Bit(b, 7)
  {
    Halving(b);
  }

  /** b | (1 << k). */
  function WithBit(b: byte, k: nat): (r: byte)
    requires k < 8
    ensures Bit(r, k) == 1
    ensures forall j | 0 <= j < 8 && j != k :: Bit(r, j) == Bit(b, j)
  {
    var x := (j: nat) requires j < 8 => if j == k then 1 else Bit(b, j);
    FromBitsBit(x(0), x(1), x(2), x(3), x(4), x(5), x(6), x(7));
    FromBits(x(0), x(1), x(2), x(3), x(4), x(5), x(6), x(7))
  }

  /** Eight bits determine a byte. */
  lemma BitsDetermine(b: byte, c: byte)
    requires forall k | 0 <= k < 8 :: Bit(b, k) == Bit(c, k)
    ensures b == c
  {
    BitsOfByte(b);
    BitsOfByte(c);
  }

  /** Splitting a word and joining its halves are inverse, both ways. */
  lemma WordSplits(w: u16, hi: byte, lo: byte)
    ensures Word(Hi(w), Lo(w)) == w
    ensures Hi(Word(hi, lo)) == hi && Lo(Word(hi, lo)) == lo
  {
  }

  lemma HalvesAreQuotients(w: u16)
    ensures Hi(w) == w / 0x100 && Lo(w) == w % 0x100
  {
  }
}
