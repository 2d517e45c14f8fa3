/** The protocol byte by byte: what a request, a reply and a refusal look like on the wire and which cells they are about,
    in the numbers of sections 4, 6.1 to 6.6, 6.11, 6.12 and 7 of MODBUS Application Protocol Specification V1.1b3. */
module Wire {
  import opened Words
  import opened BitPacking
  import opened StoreModel
  import opened StoreTheory
  import opened Codec
  import opened Slave
  import opened SlaveTheory
  import opened EndToEnd

  /** A word on the wire: most significant byte first. */
  predicate WordOnWire(s: seq<byte>, at: nat, w: int) {
    at + 2 <= |s| && s[at] as int * 256 + s[at + 1] as int == w
  }

  /** Bit i of the packed bits that start at a byte of s, the first bit in the least significant place. */
  predicate BitOnWire(s: seq<byte>, at: nat, i: nat, bit: int) {
    at + i / 8 < |s| && s[at + i / 8] as int / Weight(i % 8) % 2 == bit
  }

  function Weight(k: nat): (w: nat)
    requires k < 8
    ensures w >= 1
  {
    if k == 0 then 1 else 2 * Weight(k - 1)
  }

  lemma WeightIsPow2(k: nat)
    requires k < 8
    ensures Weight(k) == Pow2(k)
  {
    assert Weight(0) == 1 && Weight(1) == 2 && Weight(2) == 4 && Weight(3) == 8;
    assert Weight(4) == 16 && Weight(5) == 32 && Weight(6) == 64 && Weight(7) == 128;
  }

  lemma BitIsOnWire(s: seq<byte>, at: nat, i: nat)
    requires at + i / 8 < |s|
    ensures BitOnWire(s, at, i, Bit(s[at + i / 8], i % 8))
  {
    hide Weight, Pow2;
    WeightIsPow2(i % 8);
  }

  lemma WordIsOnWire(s: seq<byte>, at: nat)
    requires at + 2 <= |s|
    ensures WordOnWire(s, at, WordAt(s, at))
  {
  }

  // ---- Requests ----

  /** The bytes of the PDU of every valid request. */
  lemma RequestBytes(req: Request)
    requires Valid(req)
    ensures var p := Pdu(req);
            && |p| >= 5 && p[0] == req.fc && WordOnWire(p, 1, req.address)
            && (req.fc in {1, 2, 3, 4} ==> |p| == 5 && WordOnWire(p, 3, req.quantity))
            && (req.fc == 5 ==> |p| == 5 && p[3..] == (if req.value == 1 then [0xFF, 0x00] else [0x00, 0x00]))
            && (req.fc == 6 ==> |p| == 5 && WordOnWire(p, 3, req.value))
            && (req.fc == 15 ==> ListBytes(p, |req.values|, (|req.values| + 7) / 8))
            && (req.fc == 16 ==> ListBytes(p, |req.values|, 2 * |req.values|))
    ensures req.fc == 15 ==>
              && (forall i | 0 <= i < |req.values| :: BitOnWire(Pdu(req), 6, i, req.values[i]))
              && (forall i | |req.values| <= i < 8 * ((|req.values| + 7) / 8) :: BitOnWire(Pdu(req), 6, i, 0))
    ensures req.fc == 16 ==> forall i | 0 <= i < |req.values| :: WordOnWire(Pdu(req), 6 + 2 * i, req.values[i])
  {
    hide Pdu, Packed, Registers, Bit, BitOnWire;
    var p := Pdu(req);
    PduHead(req);
    if req.fc == 5 {
      WordBytes(p, 3);
    } else if req.fc == 15 {
      forall i | 0 <= i < 8 * ByteCount(|req.values|)
        ensures BitOnWire(p, 6, i, Flag(req.values, i))
      {
        PackedBit(req.values, i);
        assert p[6 + i / 8] == p[6..][i / 8];
        BitIsOnWire(p, 6, i);
      }
      forall i | 0 <= i < |req.values|
        ensures BitOnWire(p, 6, i, req.values[i])
      {
        assert BitOnWire(p, 6, i, Flag(req.values, i));
      }
      forall i | |req.values| <= i < 8 * ((|req.values| + 7) / 8)
        ensures BitOnWire(p, 6, i, 0)
      {
        assert BitOnWire(p, 6, i, Flag(req.values, i));
      }
    } else if req.fc == 16 {
      assert p[6..] + [] == p[6..] && Registers(req.values) + [] == Registers(req.values);
      RegistersRoundTrip(req.values, []);
      forall i | 0 <= i < |req.values|
        ensures WordOnWire(p, 6 + 2 * i, req.values[i])
      {
        assert RegistersAt(p[6..], |req.values|)[i] == WordAt(p[6..], 2 * i);
        assert WordAt(p[6..], 2 * i) == WordAt(p, 6 + 2 * i);
      }
    }
  }

  /** A multi-write: quantity, byte count, and that many bytes. */
  predicate ListBytes(p: seq<byte>, quantity: nat, count: nat) {
    |p| == 6 + count && WordOnWire(p, 3, quantity) && p[5] as int == count
  }

  lemma WordBytes(p: seq<byte>, at: nat)
    requires at + 2 <= |p|
    ensures WordAt(p, at) == 0xFF00 ==> p[at..at + 2] == [0xFF, 0x00]
    ensures WordAt(p, at) == 0 ==> p[at..at + 2] == [0x00, 0x00]
  {
  }

  // ---- Refusals ----

  /** A request that is refused for its own sake: too short, or a quantity, value or byte count that is none. */
  predicate Malformed(pdu: seq<byte>)
    requires pdu != [] && pdu[0] in {1, 2, 3, 4, 5, 6, 15, 16}
  {
    var fc := pdu[0];
    || |pdu| < 5
    || (var word := pdu[3] as int * 256 + pdu[4] as int;
        match fc
        case 1 => word < 1 || word > 2000
        case 2 => word < 1 || word > 2000
        case 3 => word < 1 || word > 125
        case 4 => word < 1 || word > 125
        case 5 => word != 0xFF00 && word != 0x0000
        case 6 => false
        case 15 => word < 1 || word > 1968 || |pdu| < 6 || pdu[5] as int != (word + 7) / 8 || |pdu| < 6 + pdu[5] as int
        case _ => word < 1 || word > 123 || |pdu| < 6 || pdu[5] as int != 2 * word || |pdu| < 6 + pdu[5] as int)
  }

  /** What every PDU that is not served is answered with, and when: exception 3 to nothing at all, 1 to a function there is
      not, 3 to a malformed request, and 2, for anything well formed, exactly if the store refuses. */
  lemma ExceptionsExactly(st: State, slave: byte, pdu: seq<byte>)
    ensures pdu == [] ==> Serve(st, slave, pdu) == Reply(st, [0x80, 3], true)
    ensures pdu != [] ==>
              var marked: byte := if pdu[0] < 128 then pdu[0] + 128 else pdu[0];
              var r := Serve(st, slave, pdu);
              if pdu[0] !in {1, 2, 3, 4, 5, 6, 15, 16} then r == Reply(st, [marked, 1], true)
              else if Malformed(pdu) then r == Reply(st, [marked, 3], true)
              else r.failed ==> r.pdu == [marked, 2]
  {
    hide Read, Write, ReadReply, Unpacked, RegistersAt;
  }

  /** So a master that sends a valid request and gets an exception back gets a 2. */
  lemma ValidRefusedWithTwo(st: State, req: Request)
    requires Valid(req) && Serve(st, req.slave, Pdu(req)).failed
    ensures Serve(st, req.slave, Pdu(req)).pdu == [req.fc + 0x80, 2]
  {
    hide Serve, Pdu, Packed, Registers, BitOnWire;
    RequestBytes(req);
    ExceptionsExactly(st, req.slave, Pdu(req));
  }

  // ---- Replies to reads ----

  /** The cells a read is about: coils for 1, discrete inputs for 2, holding registers for 3, input registers for 4. */
  function CellRead(st: State, req: Request, i: nat): Option<u16>
    requires 1 <= req.fc <= 4 && req.address + i < 65536
  {
    match req.fc
    case 1 => Cell(st, req.slave, Coil, req.address + i)
    case 2 => Cell(st, req.slave, Discrete, req.address + i)
    case 3 => Cell(st, req.slave, Holding, req.address + i)
    case _ => Cell(st, req.slave, Input, req.address + i)
  }

  /** The reply to every valid read: refused exactly if the store is strict and a cell is not mapped, and otherwise function
      code, byte count, and each cell in its place, bits as whether the cell is other than 0, padded with 0. The store is not
      touched. */
  lemma ReadBytes(st: State, req: Request)
    requires Valid(req) && req.fc <= 4
    ensures var r := Serve(st, req.slave, Pdu(req));
            && r.state == st
            && (r.failed <==> st.strict && exists i | 0 <= i < req.quantity :: CellRead(st, req, i).None?)
            && (!r.failed && req.fc <= 2 ==>
                && |r.pdu| == 2 + (req.quantity + 7) / 8 && r.pdu[0] == req.fc && r.pdu[1] as int == (req.quantity + 7) / 8
                && (forall i | 0 <= i < req.quantity ::
                      BitOnWire(r.pdu, 2, i, if Shown(CellRead(st, req, i)) != 0 then 1 else 0))
                && (forall i | req.quantity as int <= i < 8 * ((req.quantity + 7) / 8) :: BitOnWire(r.pdu, 2, i, 0)))
            && (!r.failed && req.fc > 2 ==>
                && |r.pdu| == 2 + 2 * req.quantity && r.pdu[0] == req.fc && r.pdu[1] as int == 2 * req.quantity
                && forall i | 0 <= i < req.quantity :: WordOnWire(r.pdu, 2 + 2 * i, Shown(CellRead(st, req, i))))
  {
    hide Pdu, Read, Cell, Packed, Registers, Bit, BitOnWire, Word;
    PduHead(req);
    var table := ReadTable(req.fc);
    ReadMeans(st, table, req.slave, req.address, req.quantity);
    ReadUnmapped(st, req);
    var read := Read(st, table, req.slave, req.address, req.quantity);
    if read.Values? {
      assert forall i | 0 <= i < req.quantity :: read.values[i] == Shown(CellRead(st, req, i));
      if req.fc <= 2 {
        BitReplyBytes(req.fc, read.values);
      } else {
        WordReplyBytes(req.fc, read.values);
      }
    }
  }

  lemma ReadUnmapped(st: State, req: Request)
    requires Valid(req) && req.fc <= 4
    ensures AllMapped(st, req.slave, ReadTable(req.fc), req.address, req.quantity) <==>
            forall i | 0 <= i < req.quantity :: CellRead(st, req, i).Some?
  {
    hide Cell;
    if forall i | 0 <= i < req.quantity :: CellRead(st, req, i).Some? {
      forall a: u16 | req.address <= a < req.address + req.quantity
        ensures Cell(st, req.slave, ReadTable(req.fc), a).Some?
      {
        assert CellRead(st, req, a - req.address).Some?;
      }
    }
  }

  lemma BitReplyBytes(fc: byte, values: seq<u16>)
    requires 1 <= fc <= 2 && |values| <= 2000
    ensures var r, n := ReadReply(fc, values), (|values| + 7) / 8;
            && |r| == 2 + n && r[0] == fc && r[1] as int == n
            && (forall i | 0 <= i < |values| :: BitOnWire(r, 2, i, if values[i] != 0 then 1 else 0))
            && (forall i | |values| <= i < 8 * n :: BitOnWire(r, 2, i, 0))
  {
    hide Packed, Bit, BitOnWire;
    var r := ReadReply(fc, values);
    forall i | 0 <= i < 8 * ByteCount(|values|)
      ensures BitOnWire(r, 2, i, Flag(values, i))
    {
      PackedBit(values, i);
      BitIsOnWire(r, 2, i);
    }
    forall i | 0 <= i < |values|
      ensures BitOnWire(r, 2, i, if values[i] != 0 then 1 else 0)
    {
      assert BitOnWire(r, 2, i, Flag(values, i));
    }
    forall i | |values| <= i < 8 * ((|values| + 7) / 8)
      ensures BitOnWire(r, 2, i, 0)
    {
      assert BitOnWire(r, 2, i, Flag(values, i));
    }
  }

  lemma WordReplyBytes(fc: byte, values: seq<u16>)
    requires 3 <= fc <= 4 && |values| <= 125
    ensures var r := ReadReply(fc, values);
            && |r| == 2 + 2 * |values| && r[0] == fc && r[1] as int == 2 * |values|
            && forall i | 0 <= i < |values| :: WordOnWire(r, 2 + 2 * i, values[i])
  {
    hide Registers;
    var r := ReadReply(fc, values);
    assert r[2..] == Registers(values) + [];
    RegistersRoundTrip(values, []);
    forall i | 0 <= i < |values|
      ensures WordOnWire(r, 2 + 2 * i, values[i])
    {
      assert RegistersAt(r[2..], |values|)[i] == WordAt(r[2..], 2 * i);
      assert WordAt(r[2..], 2 * i) == WordAt(r, 2 + 2 * i);
    }
  }

  // ---- Writes ----

  /** What entry i of a valid write puts where: coils for 5 and 15, holding registers for 6 and 16. */
  function EntriesOf(req: Request): nat {
    if req.fc == 5 || req.fc == 6 then 1 else |req.values|
  }

  predicate IsEntry(req: Request, t: Table, a: u16, value: u16) {
    && t == (if req.fc == 5 || req.fc == 15 then Coil else Holding)
    && req.address <= a < req.address + EntriesOf(req)
    && value == (if req.fc == 5 || req.fc == 6 then req.value else if a - req.address < |req.values| then req.values[a - req.address] else 0)
  }

  /** Every valid write to a slave that is not the relay succeeds in either mode, is echoed by its first five bytes, puts
      each of its values in its own cell of its own table, and touches no other cell of any slave. */
  lemma WriteCells(st: State, req: Request)
    requires Valid(req) && req.fc > 4 && IsPlain(st, req.slave)
    ensures var r := Serve(st, req.slave, Pdu(req));
            && !r.failed && r.pdu == Pdu(req)[..5]
            && (forall t: Table, a: u16, v: u16 | IsEntry(req, t, a, v) :: Cell(r.state, req.slave, t, a) == Some(v))
            && forall s: byte, t: Table, a: u16 ::
              Cell(r.state, s, t, a) != Cell(st, s, t, a) ==> s == req.slave && exists v: u16 :: IsEntry(req, t, a, v)
  {
    hide Pdu, Cell, Serve, Write, BitPrefix, EffectOf;
    var values := Written(req);
    EffectOfRequest(req);
    ServeByEffect(st, req.slave, Pdu(req));
    BitPrefixFull(values);
    PlainWriteMeans(st, WrittenTable(req.fc), req.slave, req.address, values);
    var r := Serve(st, req.slave, Pdu(req));
    forall s: byte, t: Table, a: u16 | Cell(r.state, s, t, a) != Cell(st, s, t, a)
      ensures s == req.slave && exists v: u16 :: IsEntry(req, t, a, v)
    {
      assert IsEntry(req, t, a, values[a - req.address]);
    }
  }

  // ---- What a master makes of a reply ----

  /** A master decodes a reply to its valid request exactly if it carries the function code it sent; for a read, as many
      bytes as it says, and for bits enough of them, for registers twice the quantity; for a write, the very head it sent,
      a coil value in place of the one it sent being taken, and any register value. What it decodes is what is there, or for
      multi-writes what was sent. */
  lemma DecodesExactly(req: Request, pdu: seq<byte>)
    requires Valid(req)
    ensures ParsePdu(req, Expected(req), pdu).Decoded? <==> IsReplyTo(req, pdu)
    ensures ParsePdu(req, Expected(req), pdu).Decoded? ==>
              var v := ParsePdu(req, Expected(req), pdu).values;
              && (req.fc in {1, 2} ==> |v| == req.quantity && forall i | 0 <= i < |v| :: BitOnWire(pdu, 2, i, v[i]))
              && (req.fc in {3, 4} ==> |v| == req.quantity && forall i | 0 <= i < |v| :: WordOnWire(pdu, 2 + 2 * i, v[i]))
              && (req.fc == 5 ==> v == [if pdu[3] == 0xFF then 1 else 0])
              && (req.fc == 6 ==> |v| == 1 && WordOnWire(pdu, 3, v[0]))
              && (req.fc in {15, 16} ==> v == req.values)
  {
    hide Pdu, BitOnWire, ParsePdu;
    if req.fc <= 2 {
      BitsDecode(req, pdu);
    } else if req.fc <= 4 {
      WordsDecode(req, pdu);
    } else {
      EchoDecodes(req, pdu);
    }
  }

  lemma BitsDecode(req: Request, pdu: seq<byte>)
    requires Valid(req) && req.fc <= 2
    ensures ParsePdu(req, Expected(req), pdu).Decoded? <==> IsReplyTo(req, pdu)
    ensures ParsePdu(req, Expected(req), pdu).Decoded? ==>
              var v := ParsePdu(req, Expected(req), pdu).values;
              |v| == req.quantity && forall i | 0 <= i < |v| :: BitOnWire(pdu, 2, i, v[i])
  {
    hide Bit, BitOnWire;
    var parsed := ParsePdu(req, Expected(req), pdu);
    if parsed.Decoded? {
      forall i | 0 <= i < req.quantity
        ensures BitOnWire(pdu, 2, i, parsed.values[i])
      {
        assert pdu[2..][i / 8] == pdu[2 + i / 8];
        BitIsOnWire(pdu, 2, i);
      }
    }
  }

  lemma WordsDecode(req: Request, pdu: seq<byte>)
    requires Valid(req) && 3 <= req.fc <= 4
    ensures ParsePdu(req, Expected(req), pdu).Decoded? <==> IsReplyTo(req, pdu)
    ensures ParsePdu(req, Expected(req), pdu).Decoded? ==>
              var v := ParsePdu(req, Expected(req), pdu).values;
              |v| == req.quantity && forall i | 0 <= i < |v| :: WordOnWire(pdu, 2 + 2 * i, v[i])
  {
    hide Word, WordOnWire;
    var parsed := ParsePdu(req, Expected(req), pdu);
    if parsed.Decoded? {
      forall i | 0 <= i < req.quantity
        ensures WordOnWire(pdu, 2 + 2 * i, parsed.values[i])
      {
        assert WordAt(pdu[2..], 2 * i) == WordAt(pdu, 2 + 2 * i);
        WordIsOnWire(pdu, 2 + 2 * i);
      }
    }
  }

  lemma EchoDecodes(req: Request, pdu: seq<byte>)
    requires Valid(req) && req.fc > 4
    ensures ParsePdu(req, Expected(req), pdu).Decoded? <==> IsReplyTo(req, pdu)
    ensures ParsePdu(req, Expected(req), pdu).Decoded? ==>
              var v := ParsePdu(req, Expected(req), pdu).values;
              && (req.fc == 5 ==> v == [if pdu[3] == 0xFF then 1 else 0])
              && (req.fc == 6 ==> |v| == 1 && WordOnWire(pdu, 3, v[0]))
              && (req.fc in {15, 16} ==> v == req.values)
  {
    hide Pdu, Bit, BitOnWire;
    RequestBytes(req);
    var p := Pdu(req);
    if |pdu| >= 5 {
      assert pdu[..3] == p[..3] <==> pdu[0] == p[0] && pdu[1] == p[1] && pdu[2] == p[2];
      assert pdu[..5] == p[..5] <==> pdu[..3] == p[..3] && pdu[3] == p[3] && pdu[4] == p[4];
      WordBytes(pdu, 3);
    }
  }

  predicate IsReplyTo(req: Request, pdu: seq<byte>)
    requires Valid(req)
  {
    match req.fc
    case 5 => |pdu| >= 5 && pdu[..3] == Pdu(req)[..3] && (pdu[3..5] == [0xFF, 0x00] || pdu[3..5] == [0x00, 0x00])
    case 6 => |pdu| >= 5 && pdu[..3] == Pdu(req)[..3]
    case 15 => |pdu| >= 5 && pdu[..5] == Pdu(req)[..5]
    case 16 => |pdu| >= 5 && pdu[..5] == Pdu(req)[..5]
    case fc =>
      && |pdu| >= 2 && pdu[0] == fc && |pdu| >= 2 + pdu[1] as int
      && if fc <= 2 then 8 * (|pdu| - 2) >= req.quantity else pdu[1] as int == 2 * req.quantity
  }

  /** And what it says of any other. */
  lemma RefusesExactly(req: Request, pdu: seq<byte>)
    requires Valid(req)
    ensures var r := ParsePdu(req, Expected(req), pdu);
            && (forall code: byte :: r == Refused(Exception(code)) <==> |pdu| >= 2 && pdu[0] >= 128 && pdu[1] == code)
            && (r == Refused(FunctionMismatch) <==> |pdu| >= 2 && pdu[0] < 128 && pdu[0] != req.fc)
            && (r == Refused(Truncated) <==>
                || |pdu| < 2
                || (pdu[0] == req.fc && ((req.fc in {1, 2} && |pdu| < 2 + pdu[1] as int) || (req.fc in {15, 16} && |pdu| < 5))))
            && (r == Refused(ByteCountMismatch) <==>
                && |pdu| >= 2 && pdu[0] == req.fc && req.fc in {3, 4}
                && (pdu[1] as int != 2 * req.quantity || |pdu| < 2 + pdu[1] as int))
            && (r == Refused(EchoMismatch) <==>
                && |pdu| >= 2 && pdu[0] == req.fc
                && ((req.fc in {5, 6} && (|pdu| < 5 || pdu[1..3] != Pdu(req)[1..3]))
                    || (req.fc in {15, 16} && |pdu| >= 5 && pdu[1..5] != Pdu(req)[1..5])))
            && (r == Refused(BadEchoValue) <==>
                && |pdu| >= 5 && req.fc == 5 && pdu[..3] == Pdu(req)[..3]
                && pdu[3..5] != [0xFF, 0x00] && pdu[3..5] != [0x00, 0x00])
  {
    hide Pdu, Bit, BitOnWire;
    RequestBytes(req);
    var p := Pdu(req);
    if |pdu| >= 5 {
      assert pdu[..3] == p[..3] <==> pdu[0] == p[0] && pdu[1] == p[1] && pdu[2] == p[2];
      assert pdu[1..3] == p[1..3] <==> pdu[1] == p[1] && pdu[2] == p[2];
      assert pdu[1..5] == p[1..5] <==> pdu[1..3] == p[1..3] && pdu[3] == p[3] && pdu[4] == p[4];
      WordBytes(pdu, 3);
    }
  }
}
