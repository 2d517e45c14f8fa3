/** Modbus TCP: MBAP framing (section 3.1.3 of MODBUS Messaging on TCP/IP V1.0b), the server's connection loop and
    the client's exchange. A connection is the bytes its peer sends; io.ReadFull either gets all it asks for or
    fails. */
module Tcp {
  import opened Words
  import opened BitPacking
  import opened StoreModel
  import opened StoreImpl
  import opened Codec
  import opened Slave
  import opened SlaveTheory

  function Mbap(tx: u16, unit: byte, pdu: seq<byte>): (frame: seq<byte>)
    ensures |frame| == 7 + |pdu|
  {
    BigEndian(tx) + BigEndian(0) + BigEndian(Truncate16(|pdu| + 1)) + [unit] + pdu
  }

  lemma MbapFields(tx: u16, unit: byte, pdu: seq<byte>)
    requires |pdu| < 65535
    ensures var f := Mbap(tx, unit, pdu);
            && |f| == 7 + |pdu| && f[..4] == BigEndian(tx) + BigEndian(0)
            && WordAt(f, 0) == tx && WordAt(f, 2) == 0 && WordAt(f, 4) == |pdu| + 1
            && f[6] == unit && f[7..] == pdu
  {
    hide Hi, Lo, Word;
    WordSplits(tx, 0, 0);
    WordSplits(0, 0, 0);
    WordSplits(|pdu| + 1, 0, 0);
  }

  /** The client's buffer, filled field by field. */
  method BuildFrame(tx: u16, unit: byte, pdu: seq<byte>) returns (frame: seq<byte>)
    requires |pdu| < 65535
    ensures frame == Mbap(tx, unit, pdu)
  {
    hide Hi, Lo;
    var buffer := new byte[7 + |pdu|](_ => 0);
    PutUint16(buffer, 0, tx);
    PutUint16(buffer, 2, 0);
    PutUint16(buffer, 4, |pdu| + 1);
    buffer[6] := unit;
    assert buffer[..7] == BigEndian(tx) + BigEndian(0) + BigEndian(Truncate16(|pdu| + 1)) + [unit];
    CopyInto(pdu, buffer, 7);
    return buffer[..];
  }

  /** copy(out[at:], data). */
  method CopyInto(data: seq<byte>, out: array<byte>, at: nat)
    requires at + |data| <= out.Length
    modifies out
    ensures out[..] == old(out[..at]) + data + old(out[at + |data|..])
  {
    for i := 0 to |data|
      invariant forall k | 0 <= k < i :: out[at + k] == data[k]
      invariant forall k | 0 <= k < at || at + i <= k < out.Length :: out[k] == old(out[k])
    {
      out[at + i] := data[i];
    }
  }

  // ---- Server ----

  /** What serving a connection comes to: the store it leaves, the frames written, and the two counters' growth. */
  datatype Session = Session(state: State, replies: seq<seq<byte>>, requests: nat, errors: nat)

  function Then(before: Session, after: Session): Session {
    Session(after.state, before.replies + after.replies, before.requests + after.requests, before.errors + after.errors)
  }

  /** One request frame at the front of the input, or why there is none. */
  datatype Head = NoFrame | BadHeader | Frame(unit: byte, pdu: seq<byte>, size: nat)

  function NextFrame(input: seq<byte>): (h: Head)
    ensures h.Frame? ==> 8 <= h.size <= |input| && h.pdu == input[7..h.size]
  {
    if |input| < 7 then NoFrame
    else if WordAt(input, 4) < 2 || WordAt(input, 4) > 254 || WordAt(input, 2) != 0 then BadHeader
    else if |input| < 6 + WordAt(input, 4) as int then NoFrame
    else Frame(input[6], input[7..6 + WordAt(input, 4) as int], 6 + WordAt(input, 4) as int)
  }

  function ReplyFrame(input: seq<byte>, pdu: seq<byte>): seq<byte>
    requires |input| >= 7
  {
    input[..4] + BigEndian(Truncate16(|pdu| + 1)) + [input[6]] + pdu
  }

  /** A whole connection, of which the first `writes` writes succeed and the next one fails. */
  function Serving(st: State, input: seq<byte>, writes: nat): Session
    decreases |input|
  {
    match NextFrame(input)
    case NoFrame => Session(st, [], 0, 0)
    case BadHeader => Session(st, [], 0, 1)
    case Frame(unit, pdu, size) =>
      var r := Serve(st, unit, pdu);
      var errors := if r.failed then 1 else 0;
      if writes == 0 then
        Session(r.state, [], 1, errors)
      else
        Then(Session(r.state, [ReplyFrame(input, r.pdu)], 1, errors), Serving(r.state, input[size..], writes - 1))
  }

  class Connection {
    var input: seq<byte>
    var replies: seq<seq<byte>>
    var writes: nat

    constructor (input: seq<byte>, writes: nat)
      ensures this.input == input && this.writes == writes && replies == []
    {
      this.input := input;
      this.writes := writes;
      replies := [];
    }

    method ReadFull(n: nat) returns (data: seq<byte>, ok: bool)
      modifies this`input
      ensures ok <==> |old(input)| >= n
      ensures ok ==> data == old(input)[..n] && input == old(input)[n..]
    {
      if |input| < n {
        input := [];
        return [], false;
      }
      data, ok := input[..n], true;
      input := input[n..];
    }

    method Write(frame: seq<byte>) returns (ok: bool)
      modifies this`replies, this`writes
      ensures ok <==> old(writes) > 0
      ensures ok ==> replies == old(replies) + [frame] && writes == old(writes) - 1
      ensures !ok ==> replies == old(replies)
    {
      if writes == 0 {
        return false;
      }
      replies := replies + [frame];
      writes := writes - 1;
      return true;
    }
  }

  class Server {
    const store: Store
    var requests: nat
    var errors: nat

    constructor (store: Store)
      ensures this.store == store && requests == 0 && errors == 0
    {
      this.store := store;
      requests := 0;
      errors := 0;
    }

    /** Serves a connection until its peer stops sending whole frames or a write fails. */
    method HandleConn(conn: Connection)
      modifies this`requests, this`errors, store`slaves, conn
      ensures var s := Serving(old(store.View()), old(conn.input), old(conn.writes));
              && store.View() == s.state
              && conn.replies == old(conn.replies) + s.replies
              && requests == old(requests) + s.requests
              && errors == old(errors) + s.errors
    {
      hide Serve, ReplyFrame, NextFrame, Serving, Word;
      ghost var all := Serving(store.View(), conn.input, conn.writes);
      ghost var rest := all;
      while true
        invariant rest == Serving(store.View(), conn.input, conn.writes)
        invariant rest.state == all.state
        invariant conn.replies + rest.replies == old(conn.replies) + all.replies
        invariant requests + rest.requests == old(requests) + all.requests
        invariant errors + rest.errors == old(errors) + all.errors
        decreases |conn.input|
      {
        ghost var input, st := conn.input, store.View();
        ServingUnfolds(st, input, conn.writes);
        ReadsFrame(input);
        var header, ok := conn.ReadFull(7);
        if !ok {
          return;
        }
        var length := WordAt(header, 4);
        if length < 2 || length > 254 || WordAt(header, 2) != 0 {
          errors := errors + 1;
          return;
        }
        var pdu;
        pdu, ok := conn.ReadFull(length - 1);
        if !ok {
          return;
        }
        requests := requests + 1;
        ReplyShape(store.View(), header[6], pdu);
        var response, failed := Dispatch(store, header[6], pdu);
        if failed {
          errors := errors + 1;
        }
        var frame := BuildReply(header, response);
        SameReply(input, header, response);
        ghost var sent := conn.replies;
        ok := conn.Write(frame);
        if !ok {
          return;
        }
        assert conn.input == input[6 + length as int..];
        ghost var next := Serving(store.View(), conn.input, conn.writes);
        assert rest.replies == [frame] + next.replies;
        assert conn.replies + next.replies == sent + rest.replies;
        rest := next;
      }
    }
  }

  lemma ServingUnfolds(st: State, input: seq<byte>, writes: nat)
    ensures match NextFrame(input)
            case NoFrame => Serving(st, input, writes) == Session(st, [], 0, 0)
            case BadHeader => Serving(st, input, writes) == Session(st, [], 0, 1)
            case Frame(unit, pdu, size) =>
              var r := Serve(st, unit, pdu);
              var first := Session(r.state, if writes == 0 then [] else [ReplyFrame(input, r.pdu)], 1, if r.failed then 1 else 0);
              Serving(st, input, writes) ==
                if writes == 0 then first else Then(first, Serving(r.state, input[size..], writes - 1))
  {
    hide Serve, NextFrame, ReplyFrame;
  }

  /** The two reads of a turn, header then PDU, see exactly the next frame. */
  lemma ReadsFrame(input: seq<byte>)
    ensures |input| < 7 ==> NextFrame(input).NoFrame?
    ensures |input| >= 7 ==>
              var header, after := input[..7], input[7..];
              var length: nat := WordAt(header, 4);
              if length < 2 || length > 254 || WordAt(header, 2) != 0 then NextFrame(input).BadHeader?
              else if |after| < length - 1 then NextFrame(input).NoFrame?
              else NextFrame(input) == Frame(header[6], after[..length - 1], 6 + length)
  {
    hide Word;
    if |input| >= 7 {
      var header := input[..7];
      assert WordAt(header, 4) == WordAt(input, 4) && WordAt(header, 2) == WordAt(input, 2);
    }
  }

  lemma SameReply(input: seq<byte>, header: seq<byte>, pdu: seq<byte>)
    requires |input| >= 7 && header == input[..7]
    ensures ReplyFrame(input, pdu) == ReplyFrame(header, pdu)
  {
    assert input[..4] == header[..4];
  }

  method BuildReply(header: seq<byte>, response: seq<byte>) returns (frame: seq<byte>)
    requires |header| == 7 && |response| < 65535
    ensures frame == ReplyFrame(header, response)
  {
    hide Hi, Lo;
    var buffer := new byte[7 + |response|](_ => 0);
    CopyInto(header[..4], buffer, 0);
    ghost var start := buffer[..];
    assert start[..4] == header[..4];
    PutUint16(buffer, 4, |response| + 1);
    assert buffer[..6] == header[..4] + BigEndian(Truncate16(|response| + 1));
    buffer[6] := header[6];
    assert buffer[..7] == header[..4] + BigEndian(Truncate16(|response| + 1)) + [header[6]];
    CopyInto(response, buffer, 7);
    return buffer[..];
  }

  // ---- Client ----

  /** The reply frame exchange reads off the connection, if it gets one. */
  function TakeReply(answer: seq<byte>): Option<seq<byte>> {
    if |answer| < 7 || WordAt(answer, 4) < 2 || WordAt(answer, 4) > 254 || |answer| < 6 + WordAt(answer, 4) as int then None
    else Some(answer[..6 + WordAt(answer, 4) as int])
  }

  /** A reply frame is read by checking its header and then reading its PDU just as the RTU master does. */
  function ParseFrame(req: Request, tx: u16, quantity: u16, frame: seq<byte>): Parsed {
    if |frame| < 9 then Refused(Truncated)
    else if WordAt(frame, 0) != tx || WordAt(frame, 2) != 0 || frame[6] != req.slave then Refused(HeaderMismatch)
    else ParsePdu(req, quantity, frame[7..])
  }

  /** The TCP parser, which works on offsets into the whole frame. */
  method ParseResponse(req: Request, tx: u16, quantity: u16, frame: seq<byte>) returns (r: Parsed)
    ensures r == ParseFrame(req, tx, quantity, frame)
  {
    if |frame| < 9 {
      return Refused(Truncated);
    }
    if WordAt(frame, 0) != tx {
      return Refused(HeaderMismatch);
    }
    if WordAt(frame, 2) != 0 {
      return Refused(HeaderMismatch);
    }
    if frame[6] != req.slave {
      return Refused(HeaderMismatch);
    }
    ghost var pdu := frame[7..];
    assert |frame| >= 12 ==> WordAt(frame, 8) == WordAt(pdu, 1) && WordAt(frame, 10) == WordAt(pdu, 3);
    assert frame[9..] == pdu[2..];
    var fc := frame[7];
    if fc >= 0x80 {
      return Refused(Exception(frame[8]));
    }
    if fc != req.fc {
      return Refused(FunctionMismatch);
    }
    if fc == 1 || fc == 2 {
      var byteCount: nat := frame[8];
      if |frame| < 9 + byteCount {
        return Refused(Truncated);
      }
      var values, inRange := UnpackBits(frame, 9, quantity);
      if !inRange {
        return Panic;
      }
      return Decoded(values, quantity);
    } else if fc == 3 || fc == 4 {
      var byteCount: nat := frame[8];
      if byteCount != quantity * 2 || |frame| < 9 + byteCount {
        return Refused(ByteCountMismatch);
      }
      var values := GetRegisters(frame, 9, quantity);
      return Decoded(values[..], quantity);
    } else if fc == 5 {
      if |frame| < 12 || WordAt(frame, 8) != req.address {
        return Refused(EchoMismatch);
      }
      var raw := WordAt(frame, 10);
      if raw == COIL_ON {
        return Decoded([1], 1);
      }
      if raw == 0 {
        return Decoded([0], 1);
      }
      return Refused(BadEchoValue);
    } else if fc == 6 {
      if |frame| < 12 || WordAt(frame, 8) != req.address {
        return Refused(EchoMismatch);
      }
      return Decoded([WordAt(frame, 10)], 1);
    } else if fc == 15 || fc == 16 {
      if |frame| < 12 {
        return Refused(Truncated);
      }
      var address, written := WordAt(frame, 8), WordAt(frame, 10);
      if address != req.address || written != quantity {
        return Refused(EchoMismatch);
      }
      return Decoded(req.values, written);
    }
    return Refused(UnsupportedReply);
  }

  /** What a client makes of the bytes a server answers it with. */
  datatype Answer = Invalid | NoReply | Parsed(parsed: Codec.Parsed)

  function Hear(req: Request, tx: u16, answer: seq<byte>): Answer {
    match TakeReply(answer)
    case None => NoReply
    case Some(frame) => Parsed(ParseFrame(req, tx, Expected(req), frame))
  }

  /** The client crashes on an answer exactly if it takes a whole frame off it with its own transaction and unit, the
      function code of the bit read it sent and all the bytes that are announced, and those and any others in the frame
      are too few for the quantity. */
  lemma TcpPanicsExactly(req: Request, tx: u16, answer: seq<byte>)
    ensures Hear(req, tx, answer) == Parsed(Panic) <==>
            && (req.fc == 1 || req.fc == 2)
            && TakeReply(answer).Some?
            && var frame := TakeReply(answer).value;
               && |frame| >= 9 && WordAt(frame, 0) == tx && WordAt(frame, 2) == 0 && frame[6] == req.slave
               && frame[7] == req.fc && |frame| >= 9 + frame[8] as int
               && 8 * (|frame| - 9) < req.quantity
  {
    hide Word, TakeReply;
    if TakeReply(answer).Some? {
      var frame := TakeReply(answer).value;
      if |frame| >= 9 {
        PanicsExactly(req, Expected(req), frame[7..]);
      }
    }
  }

  /** Such an answer gets through: nine bits asked for, one byte of them sent back. */
  lemma TcpPanicHappens(tx: u16, slave: byte)
    requires 1 <= slave <= 247
    ensures var req := Request(slave, 1, 0, 9, 0, []);
            Valid(req) && Hear(req, tx, Mbap(tx, slave, [1, 1, 0xFF])) == Parsed(Panic)
  {
    hide Mbap, TakeReply;
    var pdu: seq<byte> := [1, 1, 0xFF];
    MbapTaken(tx, slave, pdu, []);
    var frame := Mbap(tx, slave, pdu);
    assert frame + [] == frame;
    assert frame[7] == frame[7..][0] && frame[8] == frame[7..][1] && |frame| == 10 by { MbapFields(tx, slave, pdu); }
    TcpPanicsExactly(Request(slave, 1, 0, 9, 0, []), tx, frame);
  }

  /** The white space that TrimSpace trims. */
  predicate IsSpace(c: char) {
    var x := c as int;
    9 <= x <= 13 || 0x2000 <= x <= 0x200A || x in {0x20, 0x85, 0xA0, 0x1680, 0x2028, 0x2029, 0x202F, 0x205F, 0x3000}
  }

  predicate Blank(host: string) {
    forall i | 0 <= i < |host| :: IsSpace(host[i])
  }

  class Client {
    /** The atomic transaction counter, a uint32. */
    var transactions: nat

    constructor ()
      ensures transactions == 0
    {
      transactions := 0;
    }

    /** ExecuteTCP, the peer answering with the given bytes. */
    method Execute(host: string, port: int, req: Request, answer: seq<byte>) returns (sent: seq<byte>, r: Answer)
      modifies this
      ensures !(!Blank(host) && 1 <= port <= 65535 && Valid(req)) ==>
                r == Invalid && sent == [] && transactions == old(transactions)
      ensures !Blank(host) && 1 <= port <= 65535 && Valid(req) ==>
                && transactions == (old(transactions) + 1) % 0x1_0000_0000
                && sent == Mbap(Truncate16(transactions), req.slave, Pdu(req))
                && r == Hear(req, Truncate16(transactions), answer)
    {
      sent := [];
      var blank := true;
      for i := 0 to |host|
        invariant blank <==> forall k | 0 <= k < i :: IsSpace(host[k])
      {
        if !IsSpace(host[i]) {
          blank := false;
        }
      }
      if blank || port < 1 || port > 65535 {
        return [], Invalid;
      }
      var refusal := ValidateProtocol(req);
      if refusal.Some? {
        return [], Invalid;
      }
      var built := BuildPdu(req);
      var (pdu, quantity) := built.value;
      transactions := (transactions + 1) % 0x1_0000_0000;
      var tx := Truncate16(transactions);
      assert |pdu| < 65535;
      sent := BuildFrame(tx, req.slave, pdu);
      var conn := new Connection(answer, 0);
      var header, ok := conn.ReadFull(7);
      if !ok {
        return sent, NoReply;
      }
      var length := WordAt(header, 4);
      if length < 2 || length > 254 {
        return sent, NoReply;
      }
      var body;
      body, ok := conn.ReadFull(length - 1);
      if !ok {
        return sent, NoReply;
      }
      assert header + body == answer[..6 + length as int];
      var parsed := ParseResponse(req, tx, quantity, header + body);
      return sent, Parsed(parsed);
    }
  }

  // ---- Pipelining ----

  datatype Call = Call(tx: u16, unit: byte, pdu: seq<byte>)

  predicate Sendable(call: Call) {
    1 <= |call.pdu| <= 253
  }

  function Stream(calls: seq<Call>): seq<byte> {
    if calls == [] then [] else Mbap(calls[0].tx, calls[0].unit, calls[0].pdu) + Stream(calls[1..])
  }

  /** The store after serving the calls one after the other. */
  function Served(st: State, calls: seq<Call>): State
    decreases |calls|
  {
    if calls == [] then st else Served(Serve(st, calls[0].unit, calls[0].pdu).state, calls[1..])
  }

  function Replies(st: State, calls: seq<Call>): (r: seq<seq<byte>>)
    ensures |r| == |calls|
    decreases |calls|
  {
    if calls == [] then []
    else
      var r := Serve(st, calls[0].unit, calls[0].pdu);
      [Mbap(calls[0].tx, calls[0].unit, r.pdu)] + Replies(r.state, calls[1..])
  }

  function Failures(st: State, calls: seq<Call>): (n: nat)
    ensures n <= |calls|
    decreases |calls|
  {
    if calls == [] then 0
    else
      var r := Serve(st, calls[0].unit, calls[0].pdu);
      (if r.failed then 1 else 0) + Failures(r.state, calls[1..])
  }

  lemma FrameAtHead(call: Call, tail: seq<byte>)
    requires Sendable(call)
    ensures var input := Mbap(call.tx, call.unit, call.pdu) + tail;
            && NextFrame(input) == Frame(call.unit, call.pdu, 7 + |call.pdu|)
            && input[7 + |call.pdu|..] == tail
            && forall pdu: seq<byte> :: ReplyFrame(input, pdu) == Mbap(call.tx, call.unit, pdu)
  {
    hide Word, BigEndian;
    MbapFields(call.tx, call.unit, call.pdu);
    var f := Mbap(call.tx, call.unit, call.pdu);
    var input := f + tail;
    assert input[..4] == f[..4];
    assert WordAt(input, 4) == WordAt(f, 4) && WordAt(input, 2) == WordAt(f, 2);
    assert input[7..7 + |call.pdu|] == f[7..];
  }

  lemma ThenJoins(a: Session, b: Session, c: Session)
    ensures Then(a, Then(b, c)) == Then(Then(a, b), c)
  {
  }

  /** Any number of request frames sent back to back are answered in order, each reply carrying its own request's
      transaction and unit; the store is left as if the PDUs had been served one by one; and the bytes after them are
      served as if they had come first, on that store. */
  lemma {:induction false} Pipelining(st: State, calls: seq<Call>, tail: seq<byte>, writes: nat)
    requires forall i | 0 <= i < |calls| :: Sendable(calls[i])
    ensures Serving(st, Stream(calls) + tail, |calls| + writes) ==
            Then(Session(Served(st, calls), Replies(st, calls), |calls|, Failures(st, calls)),
                 Serving(Served(st, calls), tail, writes))
    decreases |calls|
  {
    hide Serve, NextFrame, ReplyFrame, Mbap, Serving;
    if calls == [] {
      assert Stream(calls) + tail == tail;
    } else {
      var call, rest := calls[0], Stream(calls[1..]) + tail;
      assert Stream(calls) + tail == Mbap(call.tx, call.unit, call.pdu) + rest;
      FrameAtHead(call, rest);
      ServingUnfolds(st, Mbap(call.tx, call.unit, call.pdu) + rest, |calls| + writes);
      var r := Serve(st, call.unit, call.pdu);
      Pipelining(r.state, calls[1..], tail, writes);
      var after := Serving(Served(st, calls), tail, writes);
      var first := Session(r.state, [Mbap(call.tx, call.unit, r.pdu)], 1, if r.failed then 1 else 0);
      var others := Session(Served(r.state, calls[1..]), Replies(r.state, calls[1..]), |calls| - 1, Failures(r.state, calls[1..]));
      assert Serving(st, Stream(calls) + tail, |calls| + writes) == Then(first, Then(others, after));
      ThenJoins(first, others, after);
    }
  }

  /** Every reply passes the client's own length check and carries its call's transaction and unit. */
  lemma {:induction false} RepliesTaken(st: State, calls: seq<Call>, i: nat, extra: seq<byte>)
    requires i < |calls|
    ensures var reply := Replies(st, calls)[i];
            && TakeReply(reply + extra) == Some(reply)
            && |reply| >= 9 && WordAt(reply, 0) == calls[i].tx && WordAt(reply, 2) == 0 && reply[6] == calls[i].unit
    decreases i
  {
    hide Serve, Mbap, Word;
    var call, r := calls[0], Serve(st, calls[0].unit, calls[0].pdu);
    if i == 0 {
      ReplyShape(st, call.unit, call.pdu);
      MbapTaken(call.tx, call.unit, r.pdu, extra);
    } else {
      RepliesTaken(r.state, calls[1..], i - 1, extra);
    }
  }

  lemma MbapTaken(tx: u16, unit: byte, pdu: seq<byte>, extra: seq<byte>)
    requires 2 <= |pdu| <= 252
    ensures var reply := Mbap(tx, unit, pdu);
            && TakeReply(reply + extra) == Some(reply)
            && |reply| >= 9 && WordAt(reply, 0) == tx && WordAt(reply, 2) == 0 && reply[6] == unit
            && reply[7..] == pdu
  {
    hide Word, BigEndian;
    MbapFields(tx, unit, pdu);
    var f := Mbap(tx, unit, pdu);
    assert WordAt(f + extra, 4) == WordAt(f, 4);
  }

  /** On any input whatever, errors grow by at most one more than requests do. */
  lemma {:induction false} ErrorsBounded(st: State, input: seq<byte>, writes: nat)
    ensures Serving(st, input, writes).errors <= Serving(st, input, writes).requests + 1
    ensures |Serving(st, input, writes).replies| <= Serving(st, input, writes).requests
    decreases |input|
  {
    hide Serve, ReplyFrame, Serving, NextFrame;
    ServingUnfolds(st, input, writes);
    match NextFrame(input)
    case NoFrame =>
    case BadHeader =>
    case Frame(unit, pdu, size) =>
      if writes > 0 {
        ErrorsBounded(Serve(st, unit, pdu).state, input[size..], writes - 1);
      }
  }
  // ---- Exactly the frames of the protocol ----

  /** The bytes of an MBAP frame: transaction, protocol 0, length of what follows, unit, PDU. */
  lemma MbapBytes(tx: u16, unit: byte, pdu: seq<byte>)
    requires |pdu| < 65535
    ensures var f := Mbap(tx, unit, pdu);
            && |f| == 7 + |pdu|
            && f[0] as int * 256 + f[1] as int == tx && f[2] == 0 && f[3] == 0
            && f[4] as int * 256 + f[5] as int == |pdu| + 1 && f[6] == unit && f[7..] == pdu
  {
    MbapFields(tx, unit, pdu);
    assert WordAt(Mbap(tx, unit, pdu), 2) == 0;
  }

  lemma FrameFromFields(f: seq<byte>)
    requires 7 <= |f| < 65535 && WordAt(f, 2) == 0 && WordAt(f, 4) as int == |f| - 6
    ensures f == Mbap(WordAt(f, 0), f[6], f[7..])
  {
    hide Hi, Lo, Word;
    WordSplits(0, f[0], f[1]);
    WordSplits(0, f[2], f[3]);
    WordSplits(0, f[4], f[5]);
    assert BigEndian(WordAt(f, 0)) == [f[0], f[1]];
    assert BigEndian(0) == [f[2], f[3]];
    assert BigEndian(Truncate16(|f| - 6)) == [f[4], f[5]];
  }

  /** The server takes a frame off its input exactly if the input starts with the MBAP frame of a PDU of 1 to 253 bytes; it
      gives up on a header exactly if it is whole but names another protocol or a length outside 2..254. */
  lemma TakesExactlyMbap(input: seq<byte>)
    ensures NextFrame(input).BadHeader? <==>
            && |input| >= 7
            && (input[2] != 0 || input[3] != 0
                || !(2 <= input[4] as int * 256 + input[5] as int <= 254))
    ensures match NextFrame(input)
            case Frame(unit, pdu, size) =>
              && 1 <= |pdu| <= 253 && size == 7 + |pdu|
              && input[..size] == Mbap(input[0] as int * 256 + input[1] as int, unit, pdu)
            case _ =>
              forall tx: u16, unit: byte, pdu: seq<byte> :: 1 <= |pdu| <= 253 ==> !(Mbap(tx, unit, pdu) <= input)
  {
    hide Mbap;
    var h := NextFrame(input);
    if h.Frame? {
      var f := input[..h.size];
      assert WordAt(f, 0) == WordAt(input, 0) && WordAt(f, 2) == WordAt(input, 2) && WordAt(f, 4) == WordAt(input, 4);
      FrameFromFields(f);
      assert f[7..] == h.pdu;
    } else {
      forall tx: u16, unit: byte, pdu: seq<byte> | 1 <= |pdu| <= 253
        ensures !(Mbap(tx, unit, pdu) <= input)
      {
        if Mbap(tx, unit, pdu) <= input {
          var tail := input[|Mbap(tx, unit, pdu)|..];
          assert input == Mbap(tx, unit, pdu) + tail;
          FrameAtHead(Call(tx, unit, pdu), tail);
        }
      }
    }
  }

  /** How a connection ends: with too few bytes for a frame, nothing more happens; with a bad header, one error more; and if
      the reply cannot be written, the request has been served and counted all the same. */
  lemma ConnectionEnds(st: State, input: seq<byte>, writes: nat)
    ensures NextFrame(input).NoFrame? ==> Serving(st, input, writes) == Session(st, [], 0, 0)
    ensures NextFrame(input).BadHeader? ==> Serving(st, input, writes) == Session(st, [], 0, 1)
    ensures NextFrame(input).Frame? ==>
              var r := Serve(st, NextFrame(input).unit, NextFrame(input).pdu);
              Serving(st, input, 0) == Session(r.state, [], 1, if r.failed then 1 else 0)
  {
    hide Serve, NextFrame, ReplyFrame;
  }

  /** The client takes a reply frame off its answer exactly if it starts with one of 8 to 260 bytes that announces its own
      length; the rest of the answer is left. */
  lemma TakesReplyExactly(answer: seq<byte>, frame: seq<byte>)
    ensures TakeReply(answer) == Some(frame) <==>
            frame <= answer && 8 <= |frame| <= 260 && frame[4] as int * 256 + frame[5] as int == |frame| - 6
  {
    if 8 <= |frame| && frame <= answer {
      assert frame[4] == answer[4] && frame[5] == answer[5] && frame == answer[..|frame|];
    }
  }

  /** A client decodes an answer, or runs off its end, only if it starts with an MBAP frame under its own transaction and
      unit, and then just as the PDU in it reads; and it reads every such frame so. */
  lemma HearsOnlyItsOwn(req: Request, tx: u16, answer: seq<byte>)
    ensures Hear(req, tx, answer).Parsed? && (Hear(req, tx, answer).parsed.Decoded? || Hear(req, tx, answer).parsed.Panic?) ==>
              && TakeReply(answer).Some?
              && var frame := TakeReply(answer).value;
                 && frame <= answer && 9 <= |frame| <= 260
                 && frame[0] as int * 256 + frame[1] as int == tx && frame[2] == 0 && frame[3] == 0
                 && frame[4] as int * 256 + frame[5] as int == |frame| - 6 && frame[6] == req.slave
                 && Hear(req, tx, answer) == Parsed(ParsePdu(req, Expected(req), frame[7..]))
  {
    hide ParsePdu, TakeReply;
    if TakeReply(answer).Some? {
      TakesReplyExactly(answer, TakeReply(answer).value);
    }
  }

  lemma HearsItsOwn(req: Request, tx: u16, pdu: seq<byte>, extra: seq<byte>)
    requires 2 <= |pdu| <= 253
    ensures Hear(req, tx, Mbap(tx, req.slave, pdu) + extra) == Parsed(ParsePdu(req, Expected(req), pdu))
  {
    hide Mbap, ParsePdu, Word, BigEndian;
    MbapFields(tx, req.slave, pdu);
    var f := Mbap(tx, req.slave, pdu);
    assert WordAt(f + extra, 4) == WordAt(f, 4);
    assert (f + extra)[..|f|] == f;
  }
}
