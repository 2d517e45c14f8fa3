/** The master's side of the protocol: which requests may be sent, the PDU a request becomes, and how the PDU of a
    reply is read. */
module Codec {
  import opened Words
  import opened BitPacking

  datatype Request = Request(slave: byte, fc: byte, address: u16, quantity: u16, value: u16, values: seq<u16>)

  datatype Refusal =
    | BadSlave
    | UnsupportedFunction
    | BadQuantity
    | BadValue
    | BadCount
    | BadRange

  predicate Supported(fc: byte) {
    fc in {1, 2, 3, 4, 5, 6, 15, 16}
  }

  function MaxRead(fc: byte): nat {
    if fc <= 2 then 2000 else 125
  }

  /** How many registers a request covers. */
  function Span(req: Request): nat {
    if req.fc == 5 || req.fc == 6 then 1
    else if req.fc == 15 || req.fc == 16 then |req.values|
    else req.quantity
  }

  /** The requests that sections 6.1 to 6.6, 6.11 and 6.12 of MODBUS Application Protocol Specification V1.1b3 let a
      master send. */
  predicate Valid(req: Request) {
    && 1 <= req.slave <= 247
    && Supported(req.fc)
    && (req.fc <= 4 ==> 1 <= req.quantity <= MaxRead(req.fc))
    && (req.fc == 5 ==> req.value <= 1)
    && (req.fc == 15 ==> 1 <= |req.values| <= 1968 && AllBits(req.values))
    && (req.fc == 16 ==> 1 <= |req.values| <= 123)
    && req.address + Span(req) <= 65536
  }

  /** The checks in the program's order: a request passes them exactly when it is valid, and is otherwise refused for
      the first thing wrong with it. */
  method ValidateProtocol(req: Request) returns (refusal: Option<Refusal>)
    ensures refusal == None <==> Valid(req)
    ensures refusal == Some(BadSlave) <==> !(1 <= req.slave <= 247)
    ensures refusal == Some(UnsupportedFunction) <==> 1 <= req.slave <= 247 && !Supported(req.fc)
    ensures refusal == Some(BadQuantity) <==>
            1 <= req.slave <= 247 && 1 <= req.fc <= 4 && !(1 <= req.quantity <= MaxRead(req.fc))
    ensures refusal == Some(BadCount) <==>
            && 1 <= req.slave <= 247
            && ((req.fc == 15 && !(1 <= |req.values| <= 1968)) || (req.fc == 16 && !(1 <= |req.values| <= 123)))
    ensures refusal == Some(BadValue) <==>
            && 1 <= req.slave <= 247
            && ((req.fc == 5 && req.value > 1) || (req.fc == 15 && 1 <= |req.values| <= 1968 && !AllBits(req.values)))
  {
    if req.slave < 1 || req.slave > 247 {
      return Some(BadSlave);
    }
    if !Supported(req.fc) {
      return Some(UnsupportedFunction);
    }
    if req.fc == 1 || req.fc == 2 {
      if req.quantity < 1 || req.quantity > 2000 {
        return Some(BadQuantity);
      }
    } else if req.fc == 3 || req.fc == 4 {
      if req.quantity < 1 || req.quantity > 125 {
        return Some(BadQuantity);
      }
    } else if req.fc == 5 {
      if req.value > 1 {
        return Some(BadValue);
      }
    } else if req.fc == 15 {
      if |req.values| < 1 || |req.values| > 1968 {
        return Some(BadCount);
      }
      for i := 0 to |req.values|
        invariant forall k | 0 <= k < i :: req.values[k] <= 1
      {
        if req.values[i] > 1 {
          return Some(BadValue);
        }
      }
    } else if req.fc == 16 {
      if |req.values| < 1 || |req.values| > 123 {
        return Some(BadCount);
      }
    }
    var quantity: nat := req.quantity;
    if req.fc == 5 || req.fc == 6 {
      quantity := 1;
    } else if req.fc == 15 || req.fc == 16 {
      quantity := |req.values|;
    }
    if req.address + quantity > 65536 {
      return Some(BadRange);
    }
    return None;
  }

  // ---- Requests as PDUs ----

  /** Registers on the wire, each most significant byte first. */
  function Registers(values: seq<u16>): (r: seq<byte>)
    ensures |r| == 2 * |values|
  {
    seq(2 * |values|, i requires 0 <= i < 2 * |values| => if i % 2 == 0 then Hi(values[i / 2]) else Lo(values[i / 2]))
  }

  /** uint16(n). */
  function Truncate16(n: nat): u16 {
    if n < 65536 then n else n % 65536
  }

  function Truncate8(n: nat): byte {
    n % 256
  }

  const COIL_ON: u16 := 0xFF00

  /** The PDU of a request, for any request with a supported function code. */
  function Pdu(req: Request): seq<byte>
    requires Supported(req.fc)
  {
    if req.fc <= 4 then
      [req.fc] + BigEndian(req.address) + BigEndian(req.quantity)
    else if req.fc == 5 then
      [5] + BigEndian(req.address) + BigEndian(if req.value != 0 then COIL_ON else 0)
    else if req.fc == 6 then
      [6] + BigEndian(req.address) + BigEndian(req.value)
    else if req.fc == 15 then
      [15] + BigEndian(req.address) + BigEndian(Truncate16(|req.values|))
      + [Truncate8(ByteCount(|req.values|))] + Packed(req.values)
    else
      [16] + BigEndian(req.address) + BigEndian(Truncate16(|req.values|))
      + [Truncate8(2 * |req.values|)] + Registers(req.values)
  }

  /** The quantity the master remembers for reading the reply. */
  function Expected(req: Request): u16 {
    Truncate16(Span(req))
  }

  method PutUint16(out: array<byte>, at: nat, w: u16)
    requires at + 2 <= out.Length
    modifies out
    ensures out[..] == old(out[..at]) + BigEndian(w) + old(out[at + 2..])
  {
    out[at] := Hi(w);
    out[at + 1] := Lo(w);
    assert out[..] == old(out[..at]) + BigEndian(w) + old(out[at + 2..]);
  }

  /** The register loop of the master and of the slave. */
  method PutRegisters(values: seq<u16>, out: array<byte>, base: nat)
    requires base + 2 * |values| == out.Length
    modifies out
    ensures out[..] == old(out[..base]) + Registers(values)
  {
    for i := 0 to |values|
      invariant out[..base + 2 * i] == old(out[..base]) + Registers(values)[..2 * i]
    {
      ghost var before := out[..];
      PutUint16(out, base + 2 * i, values[i]);
      assert out[..base + 2 * i] == before[..base + 2 * i];
      assert Registers(values)[..2 * (i + 1)] == Registers(values)[..2 * i] + BigEndian(values[i]);
      assert out[..base + 2 * (i + 1)] == out[..base + 2 * i] + BigEndian(values[i]);
    }
    assert out[..] == out[..base + 2 * |values|];
    assert Registers(values)[..2 * |values|] == Registers(values);
  }

  /** The five-byte PDUs, built in a buffer. */
  method BuildWordPdu(fc: byte, address: u16, word: u16) returns (pdu: seq<byte>)
    ensures pdu == [fc] + BigEndian(address) + BigEndian(word)
  {
    hide Hi, Lo;
    var buffer := new byte[5](_ => 0);
    buffer[0] := fc;
    PutUint16(buffer, 1, address);
    PutUint16(buffer, 3, word);
    return buffer[..];
  }

  /** The six bytes that open a multi-write. */
  method PutWriteHead(out: array<byte>, fc: byte, address: u16, quantity: u16, count: byte)
    requires out.Length >= 6
    modifies out
    ensures out[..] == [fc] + BigEndian(address) + BigEndian(quantity) + [count] + old(out[6..])
  {
    hide Hi, Lo;
    out[0] := fc;
    PutUint16(out, 1, address);
    PutUint16(out, 3, quantity);
    out[5] := count;
  }

  method BuildCoilsPdu(req: Request) returns (pdu: seq<byte>)
    requires req.fc == 15
    ensures pdu == Pdu(req)
  {
    hide Packed, BigEndian;
    var byteCount := ByteCount(|req.values|);
    var buffer := new byte[6 + byteCount](_ => 0);
    PutWriteHead(buffer, 15, req.address, Truncate16(|req.values|), Truncate8(byteCount));
    ghost var head := buffer[..6];
    assert forall j | 6 <= j < buffer.Length :: buffer[j] == 0;
    PackInto(req.values, buffer, 6);
    assert buffer[..] == head + Packed(req.values);
    return buffer[..];
  }

  method BuildRegistersPdu(req: Request) returns (pdu: seq<byte>)
    requires req.fc == 16
    ensures pdu == Pdu(req)
  {
    hide Registers, BigEndian;
    var buffer := new byte[6 + 2 * |req.values|](_ => 0);
    PutWriteHead(buffer, 16, req.address, Truncate16(|req.values|), Truncate8(2 * |req.values|));
    ghost var head := buffer[..6];
    PutRegisters(req.values, buffer, 6);
    assert buffer[..] == head + Registers(req.values);
    return buffer[..];
  }

  method BuildPdu(req: Request) returns (r: Option<(seq<byte>, u16)>)
    ensures r == if Supported(req.fc) then Some((Pdu(req), Expected(req))) else None
  {
    hide BigEndian, Packed, Registers;
    var pdu: seq<byte>;
    if req.fc == 1 || req.fc == 2 || req.fc == 3 || req.fc == 4 {
      pdu := BuildWordPdu(req.fc, req.address, req.quantity);
      return Some((pdu, req.quantity));
    } else if req.fc == 5 {
      var raw: u16 := 0;
      if req.value != 0 {
        raw := COIL_ON;
      }
      pdu := BuildWordPdu(req.fc, req.address, raw);
      return Some((pdu, 1));
    } else if req.fc == 6 {
      pdu := BuildWordPdu(req.fc, req.address, req.value);
      return Some((pdu, 1));
    } else if req.fc == 15 {
      pdu := BuildCoilsPdu(req);
      return Some((pdu, Truncate16(|req.values|)));
    } else if req.fc == 16 {
      pdu := BuildRegistersPdu(req);
      return Some((pdu, Truncate16(|req.values|)));
    }
    return None;
  }

  // ---- Reading a reply ----

  datatype ReplyError =
    | Truncated
    | Exception(code: byte)
    | FunctionMismatch
    | ByteCountMismatch
    | EchoMismatch
    | BadEchoValue
    | UnsupportedReply
    | HeaderMismatch

  /** Panic is the program's index out of range. */
  datatype Parsed = Decoded(values: seq<u16>, quantity: u16) | Refused(error: ReplyError) | Panic

  function RegistersAt(data: seq<byte>, n: nat): (r: seq<u16>)
    requires 2 * n <= |data|
    ensures |r| == n
    ensures forall i | 0 <= i < n :: r[i] == WordAt(data, 2 * i)
  {
    seq(n, i requires 0 <= i < n => WordAt(data, 2 * i))
  }

  function ParsePdu(req: Request, quantity: u16, pdu: seq<byte>): Parsed {
    if |pdu| < 2 then Refused(Truncated)
    else if pdu[0] >= 0x80 then Refused(Exception(pdu[1]))
    else if pdu[0] != req.fc then Refused(FunctionMismatch)
    else if req.fc == 1 || req.fc == 2 then
      if |pdu| < 2 + pdu[1] as int then Refused(Truncated)
      else if |pdu| < 2 + ByteCount(quantity) then Panic
      else Decoded(Unpacked(pdu[2..], quantity), quantity)
    else if req.fc == 3 || req.fc == 4 then
      if pdu[1] != 2 * quantity || |pdu| < 2 + pdu[1] as int then Refused(ByteCountMismatch)
      else Decoded(RegistersAt(pdu[2..], quantity), quantity)
    else if req.fc == 5 then
      if |pdu| < 5 || WordAt(pdu, 1) != req.address then Refused(EchoMismatch)
      else if WordAt(pdu, 3) == COIL_ON then Decoded([1], 1)
      else if WordAt(pdu, 3) == 0 then Decoded([0], 1)
      else Refused(BadEchoValue)
    else if req.fc == 6 then
      if |pdu| < 5 || WordAt(pdu, 1) != req.address then Refused(EchoMismatch)
      else Decoded([WordAt(pdu, 3)], 1)
    else if req.fc == 15 || req.fc == 16 then
      if |pdu| < 5 then Refused(Truncated)
      else if WordAt(pdu, 1) != req.address || WordAt(pdu, 3) != quantity then Refused(EchoMismatch)
      else Decoded(req.values, quantity)
    else
      Refused(UnsupportedReply)
  }

  /** The parser itself, for any bytes. The source does not compare the byte count of a bit reply with the quantity. */
  method ParsePduResponse(req: Request, quantity: u16, pdu: seq<byte>) returns (r: Parsed)
    ensures r == ParsePdu(req, quantity, pdu)
  {
    if |pdu| < 2 {
      return Refused(Truncated);
    }
    var fc := pdu[0];
    if fc >= 0x80 {
      return Refused(Exception(pdu[1]));
    }
    if fc != req.fc {
      return Refused(FunctionMismatch);
    }
    if fc == 1 || fc == 2 {
      var count: nat := pdu[1];
      if |pdu| < 2 + count {
        return Refused(Truncated);
      }
      var values, inRange := UnpackBits(pdu, 2, quantity);
      if !inRange {
        return Panic;
      }
      return Decoded(values, quantity);
    } else if fc == 3 || fc == 4 {
      var count: nat := pdu[1];
      if count != quantity * 2 || |pdu| < 2 + count {
        return Refused(ByteCountMismatch);
      }
      var values := GetRegisters(pdu, 2, quantity);
      return Decoded(values[..], quantity);
    } else if fc == 5 {
      if |pdu| < 5 || WordAt(pdu, 1) != req.address {
        return Refused(EchoMismatch);
      }
      var raw := WordAt(pdu, 3);
      if raw == COIL_ON {
        return Decoded([1], 1);
      }
      if raw == 0 {
        return Decoded([0], 1);
      }
      return Refused(BadEchoValue);
    } else if fc == 6 {
      if |pdu| < 5 || WordAt(pdu, 1) != req.address {
        return Refused(EchoMismatch);
      }
      return Decoded([WordAt(pdu, 3)], 1);
    } else if fc == 15 || fc == 16 {
      if |pdu| < 5 {
        return Refused(Truncated);
      }
      if WordAt(pdu, 1) != req.address || WordAt(pdu, 3) != quantity {
        return Refused(EchoMismatch);
      }
      return Decoded(req.values, quantity);
    }
    return Refused(UnsupportedReply);
  }

  method GetRegisters(data: seq<byte>, base: nat, n: nat) returns (values: array<u16>)
    requires base + 2 * n <= |data|
    ensures fresh(values)
    ensures values[..] == RegistersAt(data[base..], n)
  {
    values := new u16[n](_ => 0);
    for i := 0 to n
      invariant forall k | 0 <= k < i :: values[k] == WordAt(data, base + 2 * k)
    {
      values[i] := WordAt(data, base + 2 * i);
    }
    assert values[..] == RegistersAt(data[base..], n);
  }

  /** The parser runs off the end of a reply exactly when it is a bit reply to this request whose bytes, though as
      many as its byte count announces, are too few for the quantity asked for. A byte count that covers the quantity
      rules it out. */
  lemma PanicsExactly(req: Request, quantity: u16, pdu: seq<byte>)
    ensures ParsePdu(req, quantity, pdu) == Panic <==>
            && (req.fc == 1 || req.fc == 2) && |pdu| >= 2 && pdu[0] == req.fc
            && 2 + pdu[1] as int <= |pdu| && 8 * (|pdu| - 2) < quantity
    ensures |pdu| >= 2 && 8 * pdu[1] as int >= quantity ==> ParsePdu(req, quantity, pdu) != Panic
  {
  }

  /** Registers decode to what was encoded, from the front of any data that starts with them. */
  lemma RegistersRoundTrip(values: seq<u16>, rest: seq<byte>)
    ensures RegistersAt(Registers(values) + rest, |values|) == values
  {
    hide Hi, Lo, Word;
    var data := Registers(values) + rest;
    forall i | 0 <= i < |values|
      ensures RegistersAt(data, |values|)[i] == values[i]
    {
      assert data[2 * i] == Hi(values[i]);
      assert data[2 * i + 1] == Lo(values[i]);
      WordSplits(values[i], 0, 0);
    }
  }
}
