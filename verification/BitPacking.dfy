/** Coils and discrete inputs on the wire: eight to a byte, the first in the least significant bit. */
module BitPacking {
  import opened Words

  function ByteCount(n: nat): nat {
    (n + 7) / 8
  }

  /** Value i as a wire bit; positions past the end are padding. */
  function Flag(values: seq<u16>, i: nat): (r: u16)
    ensures r <= 1
  {
    if i < |values| && values[i] != 0 then 1 else 0
  }

  function PackedByte(values: seq<u16>, j: nat): byte {
    FromBits(Flag(values, 8 * j), Flag(values, 8 * j + 1), Flag(values, 8 * j + 2), Flag(values, 8 * j + 3),
             Flag(values, 8 * j + 4), Flag(values, 8 * j + 5), Flag(values, 8 * j + 6), Flag(values, 8 * j + 7))
  }

  function Packed(values: seq<u16>): (r: seq<byte>)
    ensures |r| == ByteCount(|values|)
  {
    seq(ByteCount(|values|), (j: nat) => PackedByte(values, j))
  }

  /** The first n wire bits of data as values. */
  function Unpacked(data: seq<byte>, n: nat): (r: seq<u16>)
    requires n <= 8 * |data|
    ensures |r| == n
    ensures forall i | 0 <= i < n :: r[i] == Bit(data[i / 8], i % 8)
  {
    seq(n, i requires 0 <= i < n => Bit(data[i / 8], i % 8))
  }

  /** Every non-zero value collapsed to 1. */
  function Flags(values: seq<u16>): (r: seq<u16>)
    ensures |r| == |values|
    ensures forall i | 0 <= i < |r| :: r[i] == Flag(values, i)
  {
    seq(|values|, (i: nat) => Flag(values, i))
  }

  predicate AllBits(values: seq<u16>) {
    forall i | 0 <= i < |values| :: values[i] <= 1
  }

  lemma PackedByteBit(values: seq<u16>, j: nat, k: nat)
    requires k < 8
    ensures Bit(PackedByte(values, j), k) == Flag(values, 8 * j + k)
  {
    hide Bit, FromBits, Flag;
    FromBitsBit(Flag(values, 8 * j), Flag(values, 8 * j + 1), Flag(values, 8 * j + 2), Flag(values, 8 * j + 3),
                Flag(values, 8 * j + 4), Flag(values, 8 * j + 5), Flag(values, 8 * j + 6), Flag(values, 8 * j + 7));
  }

  /** Wire bit i of a packed list is value i, and every padding bit of the last byte is 0. */
  lemma PackedBit(values: seq<u16>, i: nat)
    requires i < 8 * ByteCount(|values|)
    ensures Bit(Packed(values)[i / 8], i % 8) == Flag(values, i)
  {
    hide Bit, PackedByte, Flag;
    PackedByteBit(values, i / 8, i % 8);
  }

  /** Unpacking what was packed, from the front of any data that starts with it. */
  lemma UnpackPacked(values: seq<u16>, rest: seq<byte>)
    ensures Unpacked(Packed(values) + rest, |values|) == Flags(values)
    ensures AllBits(values) ==> Unpacked(Packed(values) + rest, |values|) == values
  {
    hide Bit, PackedByte;
    var data := Packed(values) + rest;
    forall i | 0 <= i < |values|
      ensures Unpacked(data, |values|)[i] == Flag(values, i)
    {
      PackedBit(values, i);
      assert data[i / 8] == Packed(values)[i / 8];
    }
  }

  /** Packing is the only encoding with zero padding: it is recovered from the values it unpacks to. */
  lemma PackUnpacked(data: seq<byte>, n: nat)
    requires |data| == ByteCount(n)
    requires forall i | n <= i < 8 * |data| :: Bit(data[i / 8], i % 8) == 0
    ensures Packed(Unpacked(data, n)) == data
  {
    hide Bit, PackedByte;
    var values := Unpacked(data, n);
    forall j | 0 <= j < |data|
      ensures Packed(values)[j] == data[j]
    {
      forall k | 0 <= k < 8
        ensures Bit(Packed(values)[j], k) == Bit(data[j], k)
      {
        var i := 8 * j + k;
        assert i / 8 == j && i % 8 == k;
        PackedBit(values, i);
        BitIsBit(data[j], k);
      }
      BitsDetermine(Packed(values)[j], data[j]);
    }
  }

  lemma BitIsBit(b: byte, k: nat)
    requires k < 8
    ensures Bit(b, k) == 0 || Bit(b, k) == 1
  {
  }

  /** The packing loop of the master and of the slave, over a zeroed stretch of the frame being built. */
  method PackInto(values: seq<u16>, out: array<byte>, base: nat)
    requires base + ByteCount(|values|) <= out.Length
    requires forall j | base <= j < base + ByteCount(|values|) :: out[j] == 0
    modifies out
    ensures out[..] == old(out[..base]) + Packed(values) + old(out[base + ByteCount(|values|)..])
  {
    hide Bit, PackedByte, WithBit;
    var n := ByteCount(|values|);
    forall k | 0 <= k < 8
      ensures Bit(0, k) == 0
    {
      ZeroBit(k);
    }
    for i := 0 to |values|
      invariant forall j | 0 <= j < base :: out[j] == old(out[j])
      invariant forall j | base + n <= j < out.Length :: out[j] == old(out[j])
      invariant forall m, k | base <= m < base + n && 0 <= k < 8 ::
                  Bit(out[m], k) == if 8 * (m - base) + k < i then Flag(values, 8 * (m - base) + k) else 0
    {
      if values[i] != 0 {
        out[base + i / 8] := WithBit(out[base + i / 8], i % 8);
      }
    }
    forall j | 0 <= j < n
      ensures out[base + j] == Packed(values)[j]
    {
      forall k | 0 <= k < 8
        ensures Bit(out[base + j], k) == Bit(Packed(values)[j], k)
      {
        PackedByteBit(values, j, k);
      }
      BitsDetermine(out[base + j], Packed(values)[j]);
    }
  }

  lemma ZeroBit(k: nat)
    requires k < 8
    ensures Bit(0, k) == 0
  {
  }

  /** The unpacking loop shared by the slave and both response parsers. It runs off the end of the data, which stops
      the program, exactly when there are too few bytes for n bits. */
  method UnpackBits(data: seq<byte>, base: nat, n: nat) returns (values: seq<u16>, inRange: bool)
    requires base <= |data|
    ensures inRange <==> base + ByteCount(n) <= |data|
    ensures inRange ==> values == Unpacked(data[base..], n)
  {
    hide Bit;
    var out := new u16[n](_ => 0);
    for i := 0 to n
      invariant i > 0 ==> base + (i - 1) / 8 < |data|
      invariant forall k | 0 <= k < i :: base + k / 8 < |data| && out[k] == Bit(data[base + k / 8], k % 8)
    {
      if base + i / 8 >= |data| {
        return [], false;
      }
      out[i] := Bit(data[base + i / 8], i % 8);
    }
    assert out[..] == Unpacked(data[base..], n);
    return out[..], true;
  }
}
