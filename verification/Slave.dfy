/** The slave's side: what a PDU does to the store and what PDU answers it, the same for both transports. */
module Slave {
  import opened Words
  import opened BitPacking
  import opened StoreModel
  import opened StoreImpl
  import opened Codec

  datatype Reply = Reply(state: State, pdu: seq<byte>, failed: bool)

  /** fc | 0x80. */
  function Marked(fc: byte): byte {
    if fc < 0x80 then fc + 0x80 else fc
  }

  const ILLEGAL_FUNCTION: byte := 1
  const ILLEGAL_ADDRESS: byte := 2
  const ILLEGAL_VALUE: byte := 3

  function ExceptionPdu(fc: byte, code: byte): seq<byte> {
    [Marked(fc), code]
  }

  function ReadTable(fc: byte): Table {
    if fc == 1 then Coil else if fc == 2 then Discrete else if fc == 3 then Holding else Input
  }

  function ReadReply(fc: byte, values: seq<u16>): seq<byte> {
    if fc <= 2 then [fc, Truncate8(ByteCount(|values|))] + Packed(values)
    else [fc, Truncate8(2 * |values|)] + Registers(values)
  }

  function WriteReply(st: State, table: Table, slave: byte, address: u16, values: seq<u16>, fc: byte, echo: seq<byte>): Reply {
    var r := Write(st, table, slave, address, values);
    if r.error.Some? then Reply(r.state, ExceptionPdu(fc, ILLEGAL_ADDRESS), true) else Reply(r.state, echo, false)
  }

  /** Sections 6.1 to 6.6, 6.11, 6.12 and 7 of MODBUS Application Protocol Specification V1.1b3, as the program
      serves them. */
  function Serve(st: State, slave: byte, pdu: seq<byte>): Reply {
    if |pdu| < 1 then Reply(st, ExceptionPdu(0, ILLEGAL_VALUE), true)
    else
      var fc := pdu[0];
      if 1 <= fc <= 4 then
        if |pdu| < 5 || WordAt(pdu, 3) < 1 || WordAt(pdu, 3) > MaxRead(fc) then
          Reply(st, ExceptionPdu(fc, ILLEGAL_VALUE), true)
        else
          match Read(st, ReadTable(fc), slave, WordAt(pdu, 1), WordAt(pdu, 3))
          case ReadRefused(_) => Reply(st, ExceptionPdu(fc, ILLEGAL_ADDRESS), true)
          case Values(v) => Reply(st, ReadReply(fc, v), false)
      else if fc == 5 then
        if |pdu| < 5 || (WordAt(pdu, 3) != 0 && WordAt(pdu, 3) != COIL_ON) then
          Reply(st, ExceptionPdu(fc, ILLEGAL_VALUE), true)
        else
          WriteReply(st, Coil, slave, WordAt(pdu, 1), [if WordAt(pdu, 3) == COIL_ON then 1 else 0], fc, pdu[..5])
      else if fc == 6 then
        if |pdu| < 5 then Reply(st, ExceptionPdu(fc, ILLEGAL_VALUE), true)
        else WriteReply(st, Holding, slave, WordAt(pdu, 1), [WordAt(pdu, 3)], fc, pdu[..5])
      else if fc == 15 then
        if !GoodPayload(pdu, 1968, ByteCount) then Reply(st, ExceptionPdu(fc, ILLEGAL_VALUE), true)
        else
          WriteReply(st, Coil, slave, WordAt(pdu, 1), Unpacked(pdu[6..], WordAt(pdu, 3)), fc, pdu[..5])
      else if fc == 16 then
        if !GoodPayload(pdu, 123, n => 2 * n) then Reply(st, ExceptionPdu(fc, ILLEGAL_VALUE), true)
        else
          WriteReply(st, Holding, slave, WordAt(pdu, 1), RegistersAt(pdu[6..], WordAt(pdu, 3)), fc, pdu[..5])
      else
        Reply(st, ExceptionPdu(fc, ILLEGAL_FUNCTION), true)
  }

  /** A multi-write whose quantity, byte count and length agree. */
  predicate GoodPayload(pdu: seq<byte>, max: nat, size: nat -> nat) {
    && |pdu| >= 6
    && 1 <= WordAt(pdu, 3) <= max
    && pdu[5] as int == size(WordAt(pdu, 3))
    && |pdu| >= 6 + pdu[5] as int
  }

  // ---- The dispatcher, in place ----

  method BitAnswer(fc: byte, values: seq<u16>) returns (out: seq<byte>)
    requires fc <= 2
    ensures out == ReadReply(fc, values)
  {
    hide Packed;
    var byteCount := ByteCount(|values|);
    var buffer := new byte[2 + byteCount](_ => 0);
    buffer[0], buffer[1] := fc, Truncate8(byteCount);
    ghost var head := buffer[..2];
    PackInto(values, buffer, 2);
    assert buffer[..] == head + Packed(values);
    return buffer[..];
  }

  method WordAnswer(fc: byte, values: seq<u16>) returns (out: seq<byte>)
    requires fc > 2
    ensures out == ReadReply(fc, values)
  {
    hide Registers;
    var buffer := new byte[2 + 2 * |values|](_ => 0);
    buffer[0], buffer[1] := fc, Truncate8(2 * |values|);
    ghost var head := buffer[..2];
    PutRegisters(values, buffer, 2);
    assert buffer[..] == head + Registers(values);
    return buffer[..];
  }

  method EchoHead(fc: byte, address: u16, quantity: u16) returns (out: seq<byte>)
    ensures out == [fc] + BigEndian(address) + BigEndian(quantity)
  {
    var buffer := new byte[5](_ => 0);
    buffer[0] := fc;
    PutUint16(buffer, 1, address);
    PutUint16(buffer, 3, quantity);
    assert buffer[..] == [fc] + BigEndian(address) + BigEndian(quantity);
    return buffer[..];
  }

  lemma HeadIsEcho(pdu: seq<byte>)
    requires |pdu| >= 5
    ensures pdu[..5] == [pdu[0]] + BigEndian(WordAt(pdu, 1)) + BigEndian(WordAt(pdu, 3))
  {
    hide Hi, Lo, Word;
    WordSplits(0, pdu[1], pdu[2]);
    WordSplits(0, pdu[3], pdu[4]);
  }

  /** Dispatch never indexes past a PDU, whatever its bytes, and does to the store and answers exactly what Serve
      says. */
  method Dispatch(store: Store, slave: byte, pdu: seq<byte>) returns (out: seq<byte>, failed: bool)
    modifies store`slaves
    ensures Reply(store.View(), out, failed) == Serve(old(store.View()), slave, pdu)
  {
    hide StoreModel.Read, StoreModel.Write, ReadReply;
    if |pdu| < 1 {
      return ExceptionPdu(0, ILLEGAL_VALUE), true;
    }
    var fc := pdu[0];
    if fc == 1 || fc == 2 || fc == 3 || fc == 4 {
      if |pdu| < 5 {
        return ExceptionPdu(fc, ILLEGAL_VALUE), true;
      }
      var address, quantity := WordAt(pdu, 1), WordAt(pdu, 3);
      var max := if fc <= 2 then 2000 else 125;
      if quantity < 1 || quantity > max {
        return ExceptionPdu(fc, ILLEGAL_VALUE), true;
      }
      var r := store.Read(ReadTable(fc), slave, address, quantity);
      if r.ReadRefused? {
        return ExceptionPdu(fc, ILLEGAL_ADDRESS), true;
      }
      ReadLength(store.View(), ReadTable(fc), slave, address, quantity);
      if fc <= 2 {
        out := BitAnswer(fc, r.values);
      } else {
        out := WordAnswer(fc, r.values);
      }
      return out, false;
    } else if fc == 5 {
      if |pdu| < 5 {
        return ExceptionPdu(fc, ILLEGAL_VALUE), true;
      }
      var address, raw := WordAt(pdu, 1), WordAt(pdu, 3);
      if raw != 0 && raw != COIL_ON {
        return ExceptionPdu(fc, ILLEGAL_VALUE), true;
      }
      var value: u16 := 0;
      if raw == COIL_ON {
        value := 1;
      }
      var error := store.Write(Coil, slave, address, [value]);
      if error.Some? {
        return ExceptionPdu(fc, ILLEGAL_ADDRESS), true;
      }
      return pdu[..5], false;
    } else if fc == 6 {
      if |pdu| < 5 {
        return ExceptionPdu(fc, ILLEGAL_VALUE), true;
      }
      var address, value := WordAt(pdu, 1), WordAt(pdu, 3);
      var error := store.Write(Holding, slave, address, [value]);
      if error.Some? {
        return ExceptionPdu(fc, ILLEGAL_ADDRESS), true;
      }
      return pdu[..5], false;
    } else if fc == 15 {
      if |pdu| < 6 {
        return ExceptionPdu(fc, ILLEGAL_VALUE), true;
      }
      var address, quantity := WordAt(pdu, 1), WordAt(pdu, 3);
      var byteCount: nat := pdu[5];
      if quantity < 1 || quantity > 1968 || byteCount != ByteCount(quantity) || |pdu| < 6 + byteCount {
        return ExceptionPdu(fc, ILLEGAL_VALUE), true;
      }
      var values, inRange := UnpackBits(pdu, 6, quantity);
      assert inRange;
      var error := store.Write(Coil, slave, address, values);
      if error.Some? {
        return ExceptionPdu(fc, ILLEGAL_ADDRESS), true;
      }
      HeadIsEcho(pdu);
      out := EchoHead(fc, address, quantity);
      return out, false;
    } else if fc == 16 {
      if |pdu| < 6 {
        return ExceptionPdu(fc, ILLEGAL_VALUE), true;
      }
      var address, quantity := WordAt(pdu, 1), WordAt(pdu, 3);
      var byteCount: nat := pdu[5];
      if quantity < 1 || quantity > 123 || byteCount != 2 * quantity || |pdu| < 6 + byteCount {
        return ExceptionPdu(fc, ILLEGAL_VALUE), true;
      }
      var values := GetRegisters(pdu, 6, quantity);
      var error := store.Write(Holding, slave, address, values[..]);
      if error.Some? {
        return ExceptionPdu(fc, ILLEGAL_ADDRESS), true;
      }
      HeadIsEcho(pdu);
      out := EchoHead(fc, address, quantity);
      return out, false;
    }
    return ExceptionPdu(fc, ILLEGAL_FUNCTION), true;
  }

  lemma ReadLength(st: State, table: Table, slave: byte, address: u16, quantity: u16)
    ensures Read(st, table, slave, address, quantity).Values? ==>
              |Read(st, table, slave, address, quantity).values| == quantity
  {
  }
}
