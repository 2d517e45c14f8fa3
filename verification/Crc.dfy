/** The RTU checksum: its byte-at-a-time computation and how it is attached to and checked on a frame. */
module Crc {
  import opened Words

  /** uint16(b). */
  function Image(b: byte): bv16 {
    b as bv16
  }

  function Xor(x: bv16, y: bv16): bv16 {
    x ^ y
  }

  /** One turn of the inner loop. */
  function Shift(crc: bv16): bv16 {
    if crc & 1 != 0 then (crc >> 1) ^ 0xA001 else crc >> 1
  }

  function ShiftBy(crc: bv16, n: nat): bv16 {
    if n == 0 then crc else Shift(ShiftBy(crc, n - 1))
  }

  function FeedByte(crc: bv16, b: byte): bv16 {
    ShiftBy(Xor(crc, Image(b)), 8)
  }

  /** The register after all of data, started from seed. */
  function Register(seed: bv16, data: seq<byte>): bv16 {
    if data == [] then seed else FeedByte(Register(seed, data[..|data| - 1]), data[|data| - 1])
  }

  const SEED: bv16 := 0xFFFF

  function Crc16(data: seq<byte>): bv16 {
    Register(SEED, data)
  }

  lemma RegisterStep(seed: bv16, data: seq<byte>, i: nat)
    requires i < |data|
    ensures Register(seed, data[..i + 1]) == FeedByte(Register(seed, data[..i]), data[i])
  {
    hide FeedByte;
    assert data[..i + 1][..i] == data[..i];
  }

  /** The checksum by the program's two nested loops. */
  method ComputeCrc16(data: seq<byte>) returns (crc: bv16)
    ensures crc == Crc16(data)
  {
    hide Register;
    crc := SEED;
    assert Register(SEED, data[..0]) == SEED by { RegisterEmpty(SEED); }
    for i := 0 to |data|
      invariant crc == Register(SEED, data[..i])
    {
      RegisterStep(SEED, data, i);
      crc := crc ^ (data[i] as bv16);
      ghost var mixed := crc;
      for n := 0 to 8
        invariant crc == ShiftBy(mixed, n)
      {
        if crc & 1 != 0 {
          crc := (crc >> 1) ^ 0xA001;
        } else {
          crc := crc >> 1;
        }
      }
    }
    assert data[..|data|] == data;
  }

  lemma RegisterEmpty(seed: bv16)
    ensures Register(seed, []) == seed
  {
  }

  /** byte(crc) and byte(crc >> 8), the order in which the checksum goes on the wire. */
  function CrcLow(crc: bv16): byte {
    (crc & 0xFF) as byte
  }

  function CrcHigh(crc: bv16): byte {
    (crc >> 8) as byte
  }

  /** Little-endian 16-bit word. */
  function LittleEndian(lo: byte, hi: byte): bv16 {
    Image(lo) | (Image(hi) << 8)
  }

  function AppendCrc(frame: seq<byte>): (r: seq<byte>)
    ensures |r| == |frame| + 2 && r[..|frame|] == frame
  {
    frame + [CrcLow(Crc16(frame)), CrcHigh(Crc16(frame))]
  }

  predicate VerifyCrc(frame: seq<byte>) {
    && |frame| >= 4
    && LittleEndian(frame[|frame| - 2], frame[|frame| - 1]) == Crc16(frame[..|frame| - 2])
  }
}
