/** Whole runs of requests, each sent over either transport. */
module Transports {
  import opened Words
  import opened BitPacking
  import opened Crc
  import opened CrcTheory
  import opened StoreModel
  import opened Codec
  import opened Slave
  import opened SlaveTheory
  import opened EndToEnd
  import opened Tcp
  import opened Rtu
  import opened RtuDevices
  import Relay

  /** The store after an exchange, and what the master decoded, if it got as far as decoding. */
  datatype Exchange = Exchange(state: State, parsed: Option<Codec.Parsed>)

  function Front(replies: seq<seq<byte>>): seq<byte> {
    if replies == [] then [] else replies[0]
  }

  /** A request on its own connection: MBAP frame out, the server's loop over it, the reply frame back. */
  function OverTcp(st: State, tx: u16, req: Request): Exchange
    requires Valid(req)
  {
    var session := Serving(st, Mbap(tx, req.slave, Pdu(req)), 1);
    Exchange(session.state,
             match Hear(req, tx, Front(session.replies))
             case Parsed(p) => Some(p)
             case _ => None)
  }

  /** A request on the serial line: frame and checksum out, cut and served by the slave, reply frame back. */
  function OverRtu(st: State, req: Request): Exchange
    requires Valid(req)
  {
    var line := RtuFrame(req.slave, Pdu(req));
    match SplitRequest(line)
    case Whole(size) =>
      var session := AnswerFrame(st, line[..size]);
      Exchange(session.state,
               match HearRtu(req, Front(session.replies))
               case Heard(p) => Some(p)
               case _ => None)
    case _ => Exchange(st, None)
  }

  lemma PduFits(req: Request)
    requires Valid(req)
    ensures 5 <= |Pdu(req)| <= 252
  {
    PduHead(req);
  }

  lemma NothingNext()
    ensures NextFrame([]) == NoFrame
  {
  }

  /** Over TCP, a valid request does to the store, and tells its sender, exactly what the store operation does. */
  lemma TcpIsDirect(st: State, tx: u16, req: Request)
    requires Valid(req)
    ensures OverTcp(st, tx, req) == Exchange(Direct(st, req).state, Some(Direct(st, req).answer))
  {
    hide Serve, Pdu, Direct, ParsePdu, Mbap, NextFrame, ReplyFrame;
    PduFits(req);
    RoundTrip(st, req);
    var call := Call(tx, req.slave, Pdu(req));
    var r := Serve(st, req.slave, Pdu(req));
    FrameAtHead(call, []);
    assert Mbap(tx, req.slave, Pdu(req)) + [] == Mbap(tx, req.slave, Pdu(req));
    ServingUnfolds(st, Mbap(tx, req.slave, Pdu(req)), 1);
    ServingUnfolds(r.state, [], 0);
    assert NextFrame([]) == NoFrame by { NothingNext(); }
    ReplyShape(st, req.slave, Pdu(req));
    MbapTaken(tx, req.slave, r.pdu, []);
    assert Mbap(tx, req.slave, r.pdu) + [] == Mbap(tx, req.slave, r.pdu);
  }

  /** And so it does over RTU. */
  lemma RtuIsDirect(st: State, req: Request)
    requires Valid(req)
    ensures OverRtu(st, req) == Exchange(Direct(st, req).state, Some(Direct(st, req).answer))
  {
    hide Serve, Pdu, Direct, HearRtu, VerifyCrc, SplitRequest, RtuFrame;
    RoundTrip(st, req);
    ValidRequestFrames(req);
    ValidParts(req);
    HearOneRtu(st, req);
    var line := RtuFrame(req.slave, Pdu(req));
    assert line[..|line|] == line;
  }

  // ---- Runs ----

  datatype Via = ViaTcp(tx: u16) | ViaRtu

  datatype Sent = Sent(via: Via, req: Request)

  predicate AllValid(run: seq<Sent>) {
    forall i | 0 <= i < |run| :: Valid(run[i].req)
  }

  function Send(st: State, s: Sent): Exchange
    requires Valid(s.req)
  {
    match s.via
    case ViaTcp(tx) => OverTcp(st, tx, s.req)
    case ViaRtu => OverRtu(st, s.req)
  }

  datatype Outcomes = Outcomes(state: State, heard: seq<Option<Codec.Parsed>>)

  function Run(st: State, run: seq<Sent>): Outcomes
    requires AllValid(run)
    decreases |run|
  {
    if run == [] then Outcomes(st, [])
    else
      assert Valid(run[0].req);
      var x := Send(st, run[0]);
      var rest := Run(x.state, run[1..]);
      Outcomes(rest.state, [x.parsed] + rest.heard)
  }

  predicate SameRequests(a: seq<Sent>, b: seq<Sent>) {
    |a| == |b| && forall i | 0 <= i < |a| :: a[i].req == b[i].req
  }

  /** Transport equivalence: a sequence of valid requests yields the same decoded results, exceptions included, and the
      same store, whatever transport each of them takes, from any store, strict or not. */
  lemma {:induction false} TransportsAgree(st: State, a: seq<Sent>, b: seq<Sent>)
    requires AllValid(a) && AllValid(b) && SameRequests(a, b)
    ensures Run(st, a) == Run(st, b)
    decreases |a|
  {
    hide OverTcp, OverRtu, Direct, Valid;
    if a != [] {
      assert Valid(a[0].req) && a[0].req == b[0].req;
      EitherIsDirect(st, a[0]);
      EitherIsDirect(st, b[0]);
      TransportsAgree(Direct(st, a[0].req).state, a[1..], b[1..]);
    }
  }

  lemma EitherIsDirect(st: State, s: Sent)
    requires Valid(s.req)
    ensures Send(st, s) == Exchange(Direct(st, s.req).state, Some(Direct(st, s.req).answer))
  {
    hide OverTcp, OverRtu, Direct, Valid;
    match s.via
    case ViaTcp(tx) => TcpIsDirect(st, tx, s.req);
    case ViaRtu => RtuIsDirect(st, s.req);
  }

  lemma DirectKeeps(st: State, req: Request)
    requires Valid(req)
    ensures Direct(st, req).state.strict == st.strict
    ensures Relay.BitsOnly(st) ==> Relay.BitsOnly(Direct(st, req).state)
  {
    hide Serve, Direct, Pdu, Relay.BitsOnly;
    RoundTrip(st, req);
    SlaveTheory.ServeWrites(st, req.slave, Pdu(req));
    ModeStays(st, req.slave, Pdu(req));
    if Relay.BitsOnly(st) {
      ServeKeepsBits(st, req.slave, Pdu(req));
    }
  }

  lemma ModeStays(st: State, slave: byte, pdu: seq<byte>)
    ensures Serve(st, slave, pdu).state.strict == st.strict
    ensures Serve(st, slave, pdu).state.relay == st.relay
  {
    hide Serve, EffectOf, Switched, AcceptedPrefix;
    ServeWrites(st, slave, pdu);
  }

  /** On a non-strict store of bits, every request of every run is answered with values. */
  lemma {:induction false} RunsSucceed(st: State, run: seq<Sent>)
    requires AllValid(run) && !st.strict && Relay.BitsOnly(st)
    ensures |Run(st, run).heard| == |run|
    ensures forall i | 0 <= i < |run| :: Run(st, run).heard[i].Some? && Run(st, run).heard[i].value.Decoded?
    decreases |run|
  {
    hide OverTcp, OverRtu, Direct, Valid, Relay.BitsOnly, Serve, ParsePdu, Pdu;
    if run != [] {
      var req := run[0].req;
      assert Valid(req);
      EitherIsDirect(st, run[0]);
      RoundTrip(st, req);
      ValidRequestsSucceed(st, req);
      DirectKeeps(st, req);
      RunsSucceed(Direct(st, req).state, run[1..]);
    }
  }

  // ---- Streams ----

  /** The requests' meanings one after the other, with no wire in between. */
  function DirectRun(st: State, reqs: seq<Request>): Outcomes
    decreases |reqs|
  {
    if reqs == [] then Outcomes(st, [])
    else
      var m := Direct(st, reqs[0]);
      var rest := DirectRun(m.state, reqs[1..]);
      Outcomes(rest.state, [Some(m.answer)] + rest.heard)
  }

  function Calls(reqs: seq<Request>, tx: u16): (r: seq<Call>)
    requires forall i | 0 <= i < |reqs| :: Valid(reqs[i])
    ensures |r| == |reqs|
    decreases |reqs|
  {
    if reqs == [] then []
    else
      assert Valid(reqs[0]);
      [Call(tx, reqs[0].slave, Pdu(reqs[0]))] + Calls(reqs[1..], (tx + 1) % 65536)
  }

  /** Valid requests sent back to back on one connection: the server leaves the store their meanings leave, and reply i
      decodes to what request i means. */
  lemma {:induction false} ConnectionIsDirect(st: State, reqs: seq<Request>, tx: u16)
    requires forall i | 0 <= i < |reqs| :: Valid(reqs[i])
    ensures var s := Serving(st, Stream(Calls(reqs, tx)), |reqs|);
            && s.state == DirectRun(st, reqs).state && s.requests == |reqs| && |s.replies| == |reqs|
            && |DirectRun(st, reqs).heard| == |reqs|
            && forall i | 0 <= i < |reqs| ::
              DirectRun(st, reqs).heard[i].Some?
              && Hear(reqs[i], Calls(reqs, tx)[i].tx, s.replies[i]) == Parsed(DirectRun(st, reqs).heard[i].value)
    decreases |reqs|
  {
    hide Serve, Pdu, Direct, Valid, Hear, Mbap, NextFrame, ReplyFrame, Serving;
    var calls := Calls(reqs, tx);
    var input := Stream(calls);
    ServingUnfolds(st, input, |reqs|);
    if reqs == [] {
      NothingNext();
    } else {
      var req, rest := reqs[0], Stream(calls[1..]);
      assert Valid(req);
      ValidParts(req);
      PduFits(req);
      RoundTrip(st, req);
      FrameAtHead(calls[0], rest);
      HearOne(st, tx, req);
      var next := Direct(st, req).state;
      assert calls[1..] == Calls(reqs[1..], (tx + 1) % 65536);
      ConnectionIsDirect(next, reqs[1..], (tx + 1) % 65536);
      var s := Serving(st, input, |reqs|);
      assert s.replies == [Mbap(tx, req.slave, Serve(st, req.slave, Pdu(req)).pdu)]
                        + Serving(next, rest, |reqs| - 1).replies;
    }
  }

  lemma HearOne(st: State, tx: u16, req: Request)
    requires Valid(req)
    ensures Hear(req, tx, Mbap(tx, req.slave, Serve(st, req.slave, Pdu(req)).pdu)) == Parsed(Direct(st, req).answer)
  {
    hide Serve, Pdu, Direct, ParsePdu, Mbap;
    RoundTrip(st, req);
    ReplyShape(st, req.slave, Pdu(req));
    var pdu := Serve(st, req.slave, Pdu(req)).pdu;
    MbapTaken(tx, req.slave, pdu, []);
    assert Mbap(tx, req.slave, pdu) + [] == Mbap(tx, req.slave, pdu);
  }

  /** Answering the requests' frames in order comes to the same. */
  lemma {:induction false} AnswersAreDirect(st: State, reqs: seq<Request>)
    requires forall i | 0 <= i < |reqs| :: Valid(reqs[i])
    ensures AllRequestFrames(RequestFrames(reqs))
    ensures var s := Answers(st, RequestFrames(reqs));
            && s.state == DirectRun(st, reqs).state && s.requests == |reqs| && |s.replies| == |reqs|
            && |DirectRun(st, reqs).heard| == |reqs|
            && forall i | 0 <= i < |reqs| ::
              DirectRun(st, reqs).heard[i].Some?
              && HearRtu(reqs[i], s.replies[i]) == Heard(DirectRun(st, reqs).heard[i].value)
    decreases |reqs|
  {
    hide Serve, Pdu, Direct, Valid, HearRtu, VerifyCrc, RtuFrame, RequestFrame;
    forall i | 0 <= i < |reqs|
      ensures RequestFrame(RequestFrames(reqs)[i])
    {
      assert Valid(reqs[i]);
      ValidRequestFrames(reqs[i]);
    }
    if reqs != [] {
      var req := reqs[0];
      assert Valid(req);
      ValidParts(req);
      RoundTrip(st, req);
      ValidRequestFrames(req);
      HearOneRtu(st, req);
      assert RequestFrames(reqs)[1..] == RequestFrames(reqs[1..]);
      AnswersAreDirect(Direct(st, req).state, reqs[1..]);
      var s := Answers(st, RequestFrames(reqs));
      assert s.replies == [RtuFrame(req.slave, Serve(st, req.slave, Pdu(req)).pdu)]
                        + Answers(Direct(st, req).state, RequestFrames(reqs[1..])).replies;
    }
  }

  /** What the first n requests, served on a line, leave on it and tell their senders. */
  ghost predicate ServedOnLine(before: Line, after: Line, reqs: seq<Request>, n: nat, rest: seq<byte>)
    requires forall i | 0 <= i < |reqs| :: Valid(reqs[i])
    requires n <= |reqs|
  {
    var meaning := DirectRun(before.store, reqs[..n]);
    && after.pending == Joined(RequestFrames(reqs)[n..]) + rest
    && after.store == meaning.state
    && after.requests == before.requests + n
    && |meaning.heard| == n && |after.written| == |before.written| + n
    && before.written <= after.written
    && forall i | 0 <= i < n ::
      meaning.heard[i].Some? && HearRtu(reqs[i], after.written[|before.written| + i]) == Heard(meaning.heard[i].value)
  }

  /** Valid requests back to back on the serial line, whatever follows them: the slave's loop serves one at each turn that
      its reader does not break off, idle timeouts in between or not, as long as no reader gives up in the middle of a
      frame: the store is left as the requests' meanings leave it, reply i decodes to what request i means, and the
      requests not reached yet are still on the line, untouched. */
  lemma LineIsDirect(before: Line, after: Line, turns: seq<Turn>, reqs: seq<Request>, rest: seq<byte>)
    requires forall i | 0 <= i < |reqs| :: Valid(reqs[i])
    requires Looped(before, after, turns, false) && LostNothing(turns)
    requires before.pending == Joined(RequestFrames(reqs)) + rest
    requires |turns| - Breaks(turns) <= |reqs|
    ensures Frames(turns) == RequestFrames(reqs)[..|turns| - Breaks(turns)]
    ensures ServedOnLine(before, after, reqs, |turns| - Breaks(turns), rest)
  {
    hide Valid, Answers, Joined, Bytes, Frames, Breaks, LostNothing, AllWellCut, AllRequestFrames, RequestFrames, ServedOnLine;
    var n := |turns| - Breaks(turns);
    AllRequestsFrame(reqs);
    LoopCutsInOrder(RequestFrames(reqs), rest, turns, after.pending);
    FirstFrames(reqs, n);
    AnsweredOnLine(before, after, reqs, n, rest);
  }

  lemma FirstFrames(reqs: seq<Request>, n: nat)
    requires forall i | 0 <= i < |reqs| :: Valid(reqs[i])
    requires n <= |reqs|
    ensures RequestFrames(reqs)[..n] == RequestFrames(reqs[..n])
  {
    hide Valid, RtuFrame;
  }

  lemma AnsweredOnLine(before: Line, after: Line, reqs: seq<Request>, n: nat, rest: seq<byte>)
    requires forall i | 0 <= i < |reqs| :: Valid(reqs[i])
    requires n <= |reqs| && AllRequestFrames(RequestFrames(reqs[..n]))
    requires after.pending == Joined(RequestFrames(reqs)[n..]) + rest
    requires var s := Answers(before.store, RequestFrames(reqs[..n]));
             && after.store == s.state
             && after.requests == before.requests + s.requests
             && after.written == before.written + s.replies
    ensures ServedOnLine(before, after, reqs, n, rest)
  {
    hide Valid, Answers, Joined, RequestFrames, AllRequestFrames, DirectRun, HearRtu;
    AnswersAreDirect(before.store, reqs[..n]);
    var s := Answers(before.store, RequestFrames(reqs[..n]));
    forall i | 0 <= i < n
      ensures after.written[|before.written| + i] == s.replies[i]
    {
    }
  }

  /** In particular, if no operation of the port fails and no reader times out, the loop does not die and every turn serves
      one request. */
  lemma UndisturbedLine(before: Line, after: Line, turns: seq<Turn>, dead: bool, reqs: seq<Request>, rest: seq<byte>)
    requires forall i | 0 <= i < |reqs| :: Valid(reqs[i])
    requires Looped(before, after, turns, dead)
    requires after.faults == before.faults && after.timeouts == before.timeouts
    requires before.pending == Joined(RequestFrames(reqs)) + rest && |turns| <= |reqs|
    ensures !dead
    ensures Frames(turns) == RequestFrames(reqs)[..|turns|]
    ensures ServedOnLine(before, after, reqs, |turns|, rest)
  {
    hide Valid, Answers, Joined, Bytes, Frames, RequestFrames, ServedOnLine, AllWellCut;
    assert Breaks(turns) == 0;
    LineIsDirect(before, after, turns, reqs, rest);
  }

  lemma AllRequestsFrame(reqs: seq<Request>)
    requires forall i | 0 <= i < |reqs| :: Valid(reqs[i])
    ensures AllRequestFrames(RequestFrames(reqs))
  {
    hide Valid, RequestFrame, RtuFrame;
    forall i | 0 <= i < |reqs|
      ensures RequestFrame(RequestFrames(reqs)[i])
    {
      ValidRequestFrames(reqs[i]);
    }
  }

  // ---- Arbitrary PDUs ----

  /** A PDU whose end the RTU slave finds: five bytes for the fixed-length functions, as many as the byte count says for
      the two multi-writes. */
  predicate SelfDelimiting(pdu: seq<byte>) {
    && |pdu| >= 5 && Supported(pdu[0])
    && (if pdu[0] <= 6 then |pdu| == 5 else |pdu| >= 6 && |pdu| == 6 + pdu[5] as int)
  }

  /** What the first turn of the slave's loop does with a line: it answers the frame it cuts off, if it cuts one. */
  function FirstTurn(st: State, line: seq<byte>): Session {
    match SplitRequest(line)
    case Whole(size) => AnswerFrame(st, line[..size])
    case _ => Session(st, [], 0, 0)
  }

  /** What serving one PDU comes to, its reply being framed as given. */
  function ServedOnce(st: State, unit: byte, pdu: seq<byte>, reply: seq<byte>): Session {
    var r := Serve(st, unit, pdu);
    Session(r.state, [reply], 1, if r.failed then 1 else 0)
  }

  /** Over TCP any PDU is served once and answered in a TCP frame. */
  lemma TcpServesOne(st: State, tx: u16, unit: byte, pdu: seq<byte>)
    requires 1 <= |pdu| <= 253
    ensures Serving(st, Mbap(tx, unit, pdu), 1) == ServedOnce(st, unit, pdu, Mbap(tx, unit, Serve(st, unit, pdu).pdu))
  {
    hide Serve, Mbap, NextFrame, ReplyFrame, Serving;
    FrameAtHead(Call(tx, unit, pdu), []);
    assert Mbap(tx, unit, pdu) + [] == Mbap(tx, unit, pdu);
    ServingUnfolds(st, Mbap(tx, unit, pdu), 1);
    ServingUnfolds(Serve(st, unit, pdu).state, [], 0);
    NothingNext();
  }

  /** On the line it is served just so, with the same effect on store and counters and the same PDU coming back, exactly if
      it is not a broadcast and the slave on the line cuts a frame off it, at wherever it takes the end to be, whose
      checksum happens to be right. */
  lemma AlikeExactly(st: State, unit: byte, pdu: seq<byte>)
    requires pdu != []
    ensures var line := RtuFrame(unit, pdu);
            FirstTurn(st, line) == ServedOnce(st, unit, pdu, RtuFrame(unit, Serve(st, unit, pdu).pdu)) <==>
            unit != 0 && SplitRequest(line).Whole? && VerifyCrc(line[..SplitRequest(line).size])
  {
    hide Serve, VerifyCrc, RtuFrame, SplitRequest;
    var line := RtuFrame(unit, pdu);
    if SplitRequest(line).Whole? {
      var size := SplitRequest(line).size;
      CutPrefix(st, unit, pdu);
      assert line[..size][1..size - 2] == pdu[..size - 3];
      assert line[..size][0] == unit by { FrameParts(unit, pdu); }
    }
  }

  /** The PDU in the frame that is cut off is the front of the one that was sent, and as good as all of it. */
  lemma CutPrefix(st: State, unit: byte, pdu: seq<byte>)
    requires |pdu| >= 1 && SplitRequest(RtuFrame(unit, pdu)).Whole?
    ensures var line, size := RtuFrame(unit, pdu), SplitRequest(RtuFrame(unit, pdu)).size;
            && 8 <= size <= |line| && |line| == |pdu| + 3 && line[..size][1..size - 2] == pdu[..size - 3]
            && Serve(st, unit, pdu[..size - 3]) == Serve(st, unit, pdu)
  {
    hide Serve, RtuFrame;
    FrameParts(unit, pdu);
    var line, size := RtuFrame(unit, pdu), SplitRequest(RtuFrame(unit, pdu)).size;
    assert forall i | 0 <= i < size - 3 :: line[1 + i] == pdu[i];
    assert line[..size][1..size - 2] == pdu[..size - 3];
    assert |pdu| >= 6 ==> line[6] == pdu[5];
    ServePrefix(st, unit, pdu, size - 3);
  }

  /** Bytes after the part of a PDU that its function needs change nothing. */
  lemma ServePrefix(st: State, slave: byte, pdu: seq<byte>, n: nat)
    requires 5 <= n <= |pdu|
    requires 1 <= pdu[0] <= 6 || ((pdu[0] == 15 || pdu[0] == 16) && n >= 6 && n == 6 + pdu[5] as int)
    ensures Serve(st, slave, pdu[..n]) == Serve(st, slave, pdu)
  {
    hide Read, Write, ReadReply, Word, Bit;
    var front := pdu[..n];
    assert WordAt(front, 1) == WordAt(pdu, 1) && WordAt(front, 3) == WordAt(pdu, 3) && front[..5] == pdu[..5];
    if pdu[0] == 15 && GoodPayload(pdu, 1968, ByteCount) {
      assert Unpacked(front[6..], WordAt(pdu, 3)) == Unpacked(pdu[6..], WordAt(pdu, 3));
    } else if pdu[0] == 16 && GoodPayload(pdu, 123, n => 2 * n) {
      assert RegistersAt(front[6..], WordAt(pdu, 3)) == RegistersAt(pdu[6..], WordAt(pdu, 3));
    }
  }

  /** A PDU that delimits itself is cut out whole as it was sent, and no other is; so it is treated alike, or if it is a
      broadcast only counted as an error on the line. */
  lemma SelfDelimitingAlike(st: State, unit: byte, pdu: seq<byte>)
    requires pdu != []
    ensures RequestFrame(RtuFrame(unit, pdu)) <==> SelfDelimiting(pdu)
    ensures SelfDelimiting(pdu) ==>
              FirstTurn(st, RtuFrame(unit, pdu)) ==
                if unit != 0 then ServedOnce(st, unit, pdu, RtuFrame(unit, Serve(st, unit, pdu).pdu))
                else Session(st, [], 0, 1)
  {
    hide Serve, VerifyCrc, RtuFrame, ServedOnce;
    var line := RtuFrame(unit, pdu);
    FrameParts(unit, pdu);
    AppendedOnLine(unit, pdu);
    assert line[..|line|] == line;
    AlikeExactly(st, unit, pdu);
  }

  /** But it is not the only kind that is: a read request sent with its own checksum as part of the PDU is cut after eight
      of its bytes, where the checksum is right. */
  lemma AlikeByAccident(st: State, unit: byte)
    requires unit != 0
    ensures var pdu := RtuFrame(unit, [3, 0, 0, 0, 1])[1..];
            && |pdu| == 7 && !SelfDelimiting(pdu)
            && FirstTurn(st, RtuFrame(unit, pdu)) == ServedOnce(st, unit, pdu, RtuFrame(unit, Serve(st, unit, pdu).pdu))
  {
    hide Serve, VerifyCrc, RtuFrame, ServedOnce;
    var inner := RtuFrame(unit, [3, 0, 0, 0, 1]);
    FrameParts(unit, [3, 0, 0, 0, 1]);
    AppendedOnLine(unit, [3, 0, 0, 0, 1]);
    var pdu := inner[1..];
    FrameParts(unit, pdu);
    var line := RtuFrame(unit, pdu);
    assert forall i | 0 <= i < 7 :: line[1 + i] == pdu[i];
    assert inner[1] == [3, 0, 0, 0, 1][0];
    assert line[..8] == inner;
    AlikeExactly(st, unit, pdu);
  }

  lemma AppendedOnLine(unit: byte, pdu: seq<byte>)
    requires |pdu| >= 1
    ensures VerifyCrc(RtuFrame(unit, pdu))
  {
    hide VerifyCrc, AppendCrc;
    AppendedVerifies([unit] + pdu);
  }

  /** The slave on the line never answers that a function is not supported: it does not read such a request. */
  lemma NeverIllegalFunction(st: State, frame: seq<byte>)
    requires RequestFrame(frame)
    ensures forall reply | reply in AnswerFrame(st, frame).replies ::
              exists pdu: seq<byte> :: reply == RtuFrame(frame[0], pdu) && |pdu| >= 2
                && !(pdu[0] >= 0x80 && pdu[1] == ILLEGAL_FUNCTION)
  {
    hide Serve, VerifyCrc, RtuFrame;
    var pdu := frame[1..|frame| - 2];
    assert Supported(pdu[0]);
    ReplyShape(st, frame[0], pdu);
  }

  lemma ValidParts(req: Request)
    requires Valid(req)
    ensures req.slave != 0 && Supported(req.fc)
  {
  }

  lemma HearOneRtu(st: State, req: Request)
    requires Valid(req)
    ensures HearRtu(req, RtuFrame(req.slave, Serve(st, req.slave, Pdu(req)).pdu)) == Heard(Direct(st, req).answer)
  {
    hide Serve, Pdu, Direct, ParsePdu, VerifyCrc, SplitReply, RtuFrame;
    RoundTrip(st, req);
    ReplyFrames(st, req.slave, Pdu(req), []);
    var back := RtuFrame(req.slave, Serve(st, req.slave, Pdu(req)).pdu);
    assert back + [] == back;
  }
}
