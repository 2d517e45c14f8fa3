/** What a request means: the master's encoding, the slave's interpretation and the master's decoding composed. */
module EndToEnd {
  import opened Words
  import opened BitPacking
  import opened StoreModel
  import opened StoreTheory
  import opened Codec
  import opened Slave
  import Relay

  /** What a request does to a store and what its sender learns, with no wire in between. */
  datatype Meaning = Meaning(state: State, answer: Parsed)

  function WrittenTable(fc: byte): Table {
    if fc == 5 || fc == 15 then Coil else Holding
  }

  function Written(req: Request): seq<u16> {
    if req.fc == 5 || req.fc == 6 then [req.value] else req.values
  }

  function Direct(st: State, req: Request): Meaning {
    if req.fc <= 4 then
      match Read(st, ReadTable(req.fc), req.slave, req.address, req.quantity)
      case ReadRefused(_) => Meaning(st, Refused(Exception(ILLEGAL_ADDRESS)))
      case Values(v) => Meaning(st, Decoded(if req.fc <= 2 then Flags(v) else v, req.quantity))
    else
      var r := Write(st, WrittenTable(req.fc), req.slave, req.address, Written(req));
      Meaning(r.state, if r.error.Some? then Refused(Exception(ILLEGAL_ADDRESS))
                       else Decoded(Written(req), Expected(req)))
  }

  // ---- The shape of a request PDU ----

  lemma PduHead(req: Request)
    requires Valid(req)
    ensures |Pdu(req)| >= 5 && Pdu(req)[0] == req.fc && WordAt(Pdu(req), 1) == req.address
    ensures WordAt(Pdu(req), 3) == if req.fc == 5 then (if req.value != 0 then COIL_ON else 0)
                                   else if req.fc == 6 then req.value
                                   else Expected(req)
    ensures req.fc <= 6 ==> |Pdu(req)| == 5
    ensures req.fc == 15 ==> |Pdu(req)| == 6 + ByteCount(|req.values|) && Pdu(req)[5] == ByteCount(|req.values|) as int
                             && Pdu(req)[6..] == Packed(req.values)
    ensures req.fc == 16 ==> |Pdu(req)| == 6 + 2 * |req.values| && Pdu(req)[5] == 2 * |req.values|
                             && Pdu(req)[6..] == Registers(req.values)
  {
    hide Hi, Lo, Word, PackedByte;
    WordSplits(req.address, 0, 0);
    WordSplits(req.quantity, 0, 0);
    WordSplits(req.value, 0, 0);
    WordSplits(Expected(req), 0, 0);
    WordSplits(COIL_ON, 0, 0);
    WordSplits(0, 0, 0);
  }

  // ---- Reads ----

  lemma BitReplyParses(req: Request, v: seq<u16>)
    requires Valid(req) && req.fc <= 2 && |v| == req.quantity
    ensures ParsePdu(req, req.quantity, ReadReply(req.fc, v)) == Decoded(Flags(v), req.quantity)
  {
    hide Packed, Unpacked, Flags;
    var pdu := ReadReply(req.fc, v);
    UnpackPacked(v, []);
    assert pdu[2..] == Packed(v) + [];
  }

  lemma WordReplyParses(req: Request, v: seq<u16>)
    requires Valid(req) && 3 <= req.fc <= 4 && |v| == req.quantity
    ensures ParsePdu(req, req.quantity, ReadReply(req.fc, v)) == Decoded(v, req.quantity)
  {
    hide Registers, RegistersAt;
    var pdu := ReadReply(req.fc, v);
    RegistersRoundTrip(v, []);
    assert pdu[2..] == Registers(v) + [];
  }

  lemma ReadEndToEnd(st: State, req: Request)
    requires Valid(req) && req.fc <= 4
    ensures Serve(st, req.slave, Pdu(req)).state == Direct(st, req).state
    ensures ParsePdu(req, Expected(req), Serve(st, req.slave, Pdu(req)).pdu) == Direct(st, req).answer
    ensures Serve(st, req.slave, Pdu(req)).failed <==> Direct(st, req).answer.Refused?
  {
    hide Read, ReadReply, Pdu, Bit, Word, ParsePdu;
    PduHead(req);
    ExceptionParses(req, ILLEGAL_ADDRESS);
    ReadLength(st, ReadTable(req.fc), req.slave, req.address, req.quantity);
    match Read(st, ReadTable(req.fc), req.slave, req.address, req.quantity)
    case ReadRefused(_) =>
    case Values(v) =>
      if req.fc <= 2 {
        BitReplyParses(req, v);
      } else {
        WordReplyParses(req, v);
      }
  }

  lemma ExceptionParses(req: Request, code: byte)
    requires Supported(req.fc)
    ensures ParsePdu(req, Expected(req), ExceptionPdu(req.fc, code)) == Refused(Exception(code))
  {
  }

  /** Bit reads collapse every non-zero cell to 1, so they are exact exactly when the cells read are bits. */
  lemma BitReadExact(st: State, req: Request)
    requires Valid(req) && req.fc <= 2
    requires Read(st, ReadTable(req.fc), req.slave, req.address, req.quantity).Values?
    ensures var v := Read(st, ReadTable(req.fc), req.slave, req.address, req.quantity).values;
            ParsePdu(req, Expected(req), Serve(st, req.slave, Pdu(req)).pdu) == Decoded(v, req.quantity) <==> AllBits(v)
  {
    hide Read, Serve, ParsePdu, Pdu;
    ReadEndToEnd(st, req);
    var v := Read(st, ReadTable(req.fc), req.slave, req.address, req.quantity).values;
    if Flags(v) == v {
      assert forall i | 0 <= i < |v| :: v[i] == Flags(v)[i];
    } else if AllBits(v) {
      assert forall i | 0 <= i < |v| :: v[i] == Flag(v, i);
    }
  }

  // ---- Writes ----

  lemma EchoParses(req: Request)
    requires Valid(req) && req.fc > 4
    ensures ParsePdu(req, Expected(req), Pdu(req)[..5]) == Decoded(Written(req), Expected(req))
  {
    hide Pdu, Bit, Word;
    PduHead(req);
    var echo := Pdu(req)[..5];
    assert WordAt(echo, 1) == WordAt(Pdu(req), 1);
    assert WordAt(echo, 3) == WordAt(Pdu(req), 3);
  }

  /** The slave reads out of a write PDU exactly the values the master put in. */
  lemma WriteEndToEnd(st: State, req: Request)
    requires Valid(req) && req.fc > 4
    ensures Serve(st, req.slave, Pdu(req)).state == Direct(st, req).state
    ensures ParsePdu(req, Expected(req), Serve(st, req.slave, Pdu(req)).pdu) == Direct(st, req).answer
    ensures Serve(st, req.slave, Pdu(req)).failed <==> Direct(st, req).answer.Refused?
  {
    hide Write, Pdu, Bit, Word, PackedByte, Hi, Lo;
    PduHead(req);
    EchoParses(req);
    if req.fc == 15 {
      UnpackPacked(req.values, []);
      assert Packed(req.values) + [] == Packed(req.values);
    } else if req.fc == 16 {
      RegistersRoundTrip(req.values, []);
      assert Registers(req.values) + [] == Registers(req.values);
    }
  }

  /** The main result: for every valid request and every store, strict or not, relay or not, encoding the request,
      serving it and decoding the answer does to the store and tells the sender exactly what the store operation
      behind it does. */
  lemma RoundTrip(st: State, req: Request)
    requires Valid(req)
    ensures Serve(st, req.slave, Pdu(req)).state == Direct(st, req).state
    ensures ParsePdu(req, Expected(req), Serve(st, req.slave, Pdu(req)).pdu) == Direct(st, req).answer
    ensures Serve(st, req.slave, Pdu(req)).failed <==> Direct(st, req).answer.Refused?
  {
    if req.fc <= 4 {
      ReadEndToEnd(st, req);
    } else {
      WriteEndToEnd(st, req);
    }
  }

  /** On a non-strict store whose bit tables hold bits, every valid request succeeds: a read returns exactly what the
      store reads and changes nothing, a write leaves exactly the store the store's own write leaves and returns the
      values asked for. */
  lemma ValidRequestsSucceed(st: State, req: Request)
    requires Valid(req) && !st.strict && Relay.BitsOnly(st)
    ensures var reply := Serve(st, req.slave, Pdu(req));
            var answer := ParsePdu(req, Expected(req), reply.pdu);
            && !reply.failed
            && (req.fc <= 4 ==>
                && reply.state == st
                && Read(st, ReadTable(req.fc), req.slave, req.address, req.quantity).Values?
                && answer == Decoded(Read(st, ReadTable(req.fc), req.slave, req.address, req.quantity).values, req.quantity))
            && (req.fc > 4 ==>
                && Write(st, WrittenTable(req.fc), req.slave, req.address, Written(req)) == Outcome(reply.state, None)
                && answer == Decoded(Written(req), Expected(req)))
  {
    hide Serve, ParsePdu, Pdu, Read, Write, Cell;
    RoundTrip(st, req);
    if req.fc <= 4 {
      var table := ReadTable(req.fc);
      ReadMeans(st, table, req.slave, req.address, req.quantity);
      var v := Read(st, table, req.slave, req.address, req.quantity).values;
      if req.fc <= 2 {
        assert AllBits(v);
        assert Flags(v) == v;
      }
    } else {
      NonStrictWrite(st, req);
    }
  }

  lemma NonStrictWrite(st: State, req: Request)
    requires Valid(req) && !st.strict && req.fc > 4
    ensures Write(st, WrittenTable(req.fc), req.slave, req.address, Written(req)).error == None
  {
  }
}
