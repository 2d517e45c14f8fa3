/** The two ends of a serial line: the slave's loop and the master's request. */
module RtuDevices {
  import opened Words
  import opened Crc
  import opened CrcTheory
  import opened StoreModel
  import opened StoreImpl
  import opened Codec
  import opened Slave
  import opened Tcp
  import opened Rtu

  // ---- Slave ----

  /** What the slave does with one frame: a bad checksum or a broadcast is counted and dropped, anything else is
      served and answered. */
  function AnswerFrame(st: State, frame: seq<byte>): Session {
    if !VerifyCrc(frame) || frame[0] == 0 then
      Session(st, [], 0, 1)
    else
      var r := Serve(st, frame[0], frame[1..|frame| - 2]);
      Session(r.state, [RtuFrame(frame[0], r.pdu)], 1, if r.failed then 1 else 0)
  }

  predicate AllRequestFrames(frames: seq<seq<byte>>) {
    forall i | 0 <= i < |frames| :: RequestFrame(frames[i])
  }

  function Answers(st: State, frames: seq<seq<byte>>): Session
    requires AllRequestFrames(frames)
    decreases |frames|
  {
    if frames == [] then Session(st, [], 0, 0)
    else
      assert RequestFrame(frames[0]);
      var first := AnswerFrame(st, frames[0]);
      Then(first, Answers(first.state, frames[1..]))
  }

  lemma {:induction false} AnswersGrow(st: State, frames: seq<seq<byte>>, frame: seq<byte>)
    requires AllRequestFrames(frames) && RequestFrame(frame)
    ensures Answers(st, frames + [frame]) == Then(Answers(st, frames), AnswerFrame(Answers(st, frames).state, frame))
    decreases |frames|
  {
    hide AnswerFrame, RequestFrame;
    if frames == [] {
      assert [frame][1..] == [];
    } else {
      var first := AnswerFrame(st, frames[0]);
      assert (frames + [frame])[1..] == frames[1..] + [frame];
      AnswersGrow(first.state, frames[1..], frame);
      var rest := Answers(first.state, frames[1..]);
      ThenJoins(first, rest, AnswerFrame(rest.state, frame));
    }
  }

  // ---- The loop's turns ----

  /** One turn of the loop: it took a whole frame off the line, or refused one after its first two bytes, or its reader
      broke off after taking some bytes, often none. */
  datatype Turn = Took(frame: seq<byte>) | Skipped(head: seq<byte>) | Broke(lost: seq<byte>)

  function BytesOf(turn: Turn): seq<byte> {
    match turn
    case Took(frame) => frame
    case Skipped(head) => head
    case Broke(lost) => lost
  }

  function Bytes(turns: seq<Turn>): seq<byte> {
    if turns == [] then [] else Bytes(turns[..|turns| - 1]) + BytesOf(turns[|turns| - 1])
  }

  predicate WellCut(turn: Turn) {
    match turn
    case Took(frame) => RequestFrame(frame)
    case Skipped(head) => |head| == 2 && SplitRequest(head) == Refuse
    case Broke(_) => true
  }

  predicate AllWellCut(turns: seq<Turn>) {
    forall i | 0 <= i < |turns| :: WellCut(turns[i])
  }

  /** The frames that were taken, in order. */
  function Frames(turns: seq<Turn>): (frames: seq<seq<byte>>)
    requires AllWellCut(turns)
    ensures AllRequestFrames(frames)
  {
    if turns == [] then []
    else
      var last := turns[|turns| - 1];
      assert WellCut(last);
      Frames(turns[..|turns| - 1]) + if last.Took? then [last.frame] else []
  }

  function Breaks(turns: seq<Turn>): (n: nat)
    ensures n <= |turns|
    ensures n == 0 ==> forall i | 0 <= i < |turns| :: !turns[i].Broke?
  {
    if turns == [] then 0
    else Breaks(turns[..|turns| - 1]) + if turns[|turns| - 1].Broke? then 1 else 0
  }

  /** No reader took bytes and then gave up; an idle line may time out as often as it likes. */
  predicate LostNothing(turns: seq<Turn>) {
    forall i | 0 <= i < |turns| && turns[i].Broke? :: turns[i].lost == []
  }

  /** All there is to see of a slave on its line. */
  datatype Line = Line(store: State, requests: nat, errors: nat, pending: seq<byte>, written: seq<seq<byte>>,
                       faults: nat, timeouts: nat, now: nat)

  /** What running the loop comes to, given its turns. Every byte that left the line belongs to one of the turns. What was
      done to the store, the counters and the line is what answering the frames taken in order comes to, the last reply
      possibly missing if the loop died on it. Every broken turn, and the death, is one failed operation of the port or
      one timeout, and for each timeout its time has passed. */
  predicate Looped(before: Line, after: Line, turns: seq<Turn>, dead: bool) {
    && AllWellCut(turns)
    && before.pending == Bytes(turns) + after.pending
    && (var s := Answers(before.store, Frames(turns));
        && after.store == s.state
        && after.requests == before.requests + s.requests
        && after.errors == before.errors + s.errors + (if dead then 1 else 0)
        && (!dead ==> after.written == before.written + s.replies)
        && (dead ==>
            && s.replies != []
            && before.written + s.replies[..|s.replies| - 1] <= after.written <= before.written + s.replies))
    && after.faults >= before.faults && after.timeouts >= before.timeouts
    && after.faults + after.timeouts == before.faults + before.timeouts + Breaks(turns) + (if dead then 1 else 0)
    && after.now >= before.now + (READ_TIMEOUT + 1) * (after.timeouts - before.timeouts)
  }

  lemma OneMoreTurn(turns: seq<Turn>, turn: Turn)
    requires AllWellCut(turns) && WellCut(turn)
    ensures AllWellCut(turns + [turn])
    ensures Bytes(turns + [turn]) == Bytes(turns) + BytesOf(turn)
    ensures Frames(turns + [turn]) == Frames(turns) + if turn.Took? then [turn.frame] else []
    ensures Breaks(turns + [turn]) == Breaks(turns) + if turn.Broke? then 1 else 0
  {
    hide WellCut;
    assert (turns + [turn])[..|turns|] == turns;
  }

  lemma LoopedNot(line: Line)
    ensures Looped(line, line, [], false)
  {
  }

  /** A turn that takes no frame. */
  lemma LoopedIdle(before: Line, mid: Line, after: Line, turns: seq<Turn>, turn: Turn)
    requires Looped(before, mid, turns, false) && WellCut(turn) && !turn.Took?
    requires mid.pending == BytesOf(turn) + after.pending
    requires after.store == mid.store && after.requests == mid.requests && after.errors == mid.errors
    requires after.written == mid.written
    requires Disturbance(!turn.Broke?, READ_TIMEOUT, mid.faults, mid.timeouts, mid.now, after.faults, after.timeouts, after.now)
    ensures Looped(before, after, turns + [turn], false)
  {
    hide Answers, Bytes, Breaks, Frames, WellCut, AllWellCut;
    OneMoreTurn(turns, turn);
    assert Bytes(turns) + BytesOf(turn) + after.pending == Bytes(turns) + mid.pending;
    assert Frames(turns + [turn]) == Frames(turns);
  }

  /** A turn that takes one and answers it. */
  lemma LoopedOn(before: Line, mid: Line, after: Line, turns: seq<Turn>, frame: seq<byte>, dead: bool)
    requires Looped(before, mid, turns, false) && RequestFrame(frame)
    requires mid.pending == frame + after.pending
    requires var s := AnswerFrame(mid.store, frame);
             && after.store == s.state
             && after.requests == mid.requests + s.requests
             && after.errors == mid.errors + s.errors + (if dead then 1 else 0)
             && (!dead ==> after.written == mid.written + s.replies)
             && (dead ==> |s.replies| == 1 && mid.written <= after.written <= mid.written + s.replies)
    requires after.faults == mid.faults + (if dead then 1 else 0) && after.timeouts == mid.timeouts
    requires after.now >= mid.now
    ensures Looped(before, after, turns + [Took(frame)], dead)
  {
    hide Answers, AnswerFrame, RequestFrame, Bytes, Breaks, Frames, AllWellCut;
    OneMoreTurn(turns, Took(frame));
    assert Bytes(turns) + frame + after.pending == Bytes(turns) + mid.pending;
    AnswersGrow(before.store, Frames(turns), frame);
    var s := Answers(before.store, Frames(turns));
    var t := AnswerFrame(mid.store, frame);
    if dead {
      assert (s.replies + t.replies)[..|s.replies + t.replies| - 1] == s.replies;
      assert before.written + (s.replies + t.replies) == mid.written + t.replies;
    }
  }

  const READ_TIMEOUT := 150

  class RtuSlave {
    const store: Store
    var requests: nat
    var errors: nat

    constructor (store: Store)
      ensures this.store == store && requests == 0 && errors == 0
    {
      this.store := store;
      requests := 0;
      errors := 0;
    }

    ghost function On(p: Port): Line
      reads this, store, p
    {
      Line(store.View(), requests, errors, p.pending, p.written, p.faults, p.timeouts, p.now)
    }

    /** One frame that has been read whole. */
    method Handle(p: Port, frame: seq<byte>) returns (dead: bool)
      modifies this`requests, this`errors, store`slaves, p`written, p`faults
      ensures var s := AnswerFrame(old(store.View()), frame);
              && store.View() == s.state
              && requests == old(requests) + s.requests
              && errors == old(errors) + s.errors + (if dead then 1 else 0)
              && (!dead ==> p.written == old(p.written) + s.replies)
              && (dead ==> |s.replies| == 1 && old(p.written) <= p.written <= old(p.written) + s.replies)
      ensures p.faults == old(p.faults) + (if dead then 1 else 0)
    {
      hide Serve, Crc16;
      if !VerifyCrc(frame) {
        errors := errors + 1;
        return false;
      }
      var slave := frame[0];
      if slave == 0 {
        errors := errors + 1;
        return false;
      }
      requests := requests + 1;
      var response, failed := Dispatch(store, slave, frame[1..|frame| - 2]);
      if failed {
        errors := errors + 1;
      }
      dead := p.Write(AppendCrc([slave] + response));
      if dead {
        errors := errors + 1;
        return;
      }
      dead := p.Drain();
      if dead {
        errors := errors + 1;
      }
    }

    /** The slave's loop until its stop channel is seen closed, which happens after the given number of turns, or a
        write or drain fails. */
    method Loop(p: Port, limit: nat) returns (ghost turns: seq<Turn>, dead: bool)
      modifies this`requests, this`errors, store`slaves, p
      ensures Looped(old(On(p)), On(p), turns, dead)
      ensures |turns| <= limit && (!dead ==> |turns| == limit)
    {
      hide RequestFrame, AnswerFrame, Looped;
      ghost var before := On(p);
      turns, dead := [], false;
      LoopedNot(before);
      for i := 0 to limit
        invariant |turns| == i && !dead
        invariant Looped(before, On(p), turns, false)
      {
        ghost var mid := On(p);
        var received := ReadRequest(p, READ_TIMEOUT);
        if received.Got? {
          var frame := received.frame;
          FrameRead(mid.pending, frame);
          dead := Handle(p, frame);
          LoopedOn(before, mid, On(p), turns, frame, dead);
          turns := turns + [Took(frame)];
          if dead {
            return;
          }
        } else {
          ghost var turn := TurnWithout(mid.pending, p.pending, received);
          LoopedIdle(before, mid, On(p), turns, turn);
          turns := turns + [turn];
        }
      }
    }
  }

  ghost function TurnWithout(coming: seq<byte>, left: seq<byte>, received: Received): (turn: Turn)
    requires received.Broken? || (received == Rejected(Refuse) && SplitRequest(coming) == Refuse && left == coming[2..])
    requires exists k | 0 <= k <= |coming| :: left == coming[k..]
    ensures !turn.Took? && WellCut(turn) && (turn.Broke? <==> received.Broken?)
    ensures coming == BytesOf(turn) + left
  {
    if received.Broken? then Broke(coming[..|coming| - |left|]) else Skipped(coming[..2])
  }

  lemma FrameRead(coming: seq<byte>, frame: seq<byte>)
    requires SplitRequest(coming) == Whole(|frame|) && frame == coming[..|frame|]
    ensures RequestFrame(frame) && |frame| >= 8 && coming == frame + coming[|frame|..]
  {
    RequestEndsItself(coming, []);
  }

  /** Off a stream of request frames, a loop whose readers lose nothing takes exactly those frames, in order, one for each
      turn that does not break off, and leaves the rest of the stream untouched. */
  lemma {:induction false} LoopCutsInOrder(frames: seq<seq<byte>>, rest: seq<byte>, turns: seq<Turn>, left: seq<byte>)
    requires AllRequestFrames(frames) && AllWellCut(turns) && LostNothing(turns)
    requires Joined(frames) + rest == Bytes(turns) + left
    requires |turns| - Breaks(turns) <= |frames|
    ensures var n := |turns| - Breaks(turns);
            Frames(turns) == frames[..n] && left == Joined(frames[n..]) + rest
    decreases |turns|
  {
    hide RequestFrame, Joined, SplitRequest;
    if turns == [] {
      assert Bytes(turns) + left == left;
      assert frames[0..] == frames;
    } else {
      var before, last := turns[..|turns| - 1], turns[|turns| - 1];
      var n := |before| - Breaks(before);
      assert WellCut(last);
      assert forall i | 0 <= i < |before| :: before[i] == turns[i];
      assert Bytes(turns) + left == Bytes(before) + (BytesOf(last) + left);
      LoopCutsInOrder(frames, rest, before, BytesOf(last) + left);
      if last.Broke? {
        assert BytesOf(last) + left == left;
      } else {
        assert RequestFrame(frames[n]);
        JoinedStep(frames[n..], rest);
        assert frames[n..][1..] == frames[n + 1..];
        match last
        case Took(frame) =>
          SameHead(frame, left, frames[n], Joined(frames[n + 1..]) + rest);
          assert frames[..n + 1] == frames[..n] + [frames[n]];
        case Skipped(head) =>
          NotSkipped(head, left, frames[n], Joined(frames[n + 1..]) + rest);
      }
    }
  }

  lemma NotSkipped(head: seq<byte>, a: seq<byte>, frame: seq<byte>, b: seq<byte>)
    requires RequestFrame(frame) && |head| == 2 && SplitRequest(head) == Refuse
    ensures head + a != frame + b
  {
    assert (head + a)[1] == head[1] && (frame + b)[1] == frame[1];
  }

  function RequestFrames(reqs: seq<Request>): (r: seq<seq<byte>>)
    requires forall i | 0 <= i < |reqs| :: Valid(reqs[i])
    ensures |r| == |reqs|
  {
    seq(|reqs|, i requires 0 <= i < |reqs| =>
      (assert Valid(reqs[i]); RtuFrame(reqs[i].slave, Pdu(reqs[i]))))
  }

  // ---- Master ----

  datatype MasterResult = NotValid | NotOpen | Lost | Heard(parsed: Codec.Parsed)

  /** What the master makes of the bytes that answer its request. */
  function HearRtu(req: Request, answer: seq<byte>): MasterResult {
    match SplitReply(answer, req.slave)
    case Whole(size) =>
      if VerifyCrc(answer[..size]) then Heard(ParsePdu(req, Expected(req), answer[1..size - 2])) else Lost
    case _ => Lost
  }

  /** The master on the line crashes on an answer exactly if the answer is a whole frame of its slave with a right checksum,
      has the function code of the bit read it sent, and carries too few bytes for the quantity. */
  lemma RtuPanicsExactly(req: Request, answer: seq<byte>)
    ensures HearRtu(req, answer) == Heard(Panic) <==>
            && (req.fc == 1 || req.fc == 2)
            && SplitReply(answer, req.slave).Whole? && answer[1] == req.fc
            && VerifyCrc(answer[..SplitReply(answer, req.slave).size])
            && 8 * answer[2] as int < req.quantity
  {
    hide VerifyCrc;
    var split := SplitReply(answer, req.slave);
    if split.Whole? {
      PanicsExactly(req, Expected(req), answer[1..split.size - 2]);
    }
  }

  /** Such an answer gets through: nine bits asked for, one byte of them sent back. */
  lemma RtuPanicHappens(slave: byte)
    requires 1 <= slave <= 247
    ensures var req := Request(slave, 1, 0, 9, 0, []);
            Valid(req) && HearRtu(req, AppendCrc([slave, 1, 1, 0xFF])) == Heard(Panic)
  {
    hide VerifyCrc, Crc16, CrcLow, CrcHigh;
    var answer := AppendCrc([slave, 1, 1, 0xFF]);
    AppendedVerifies([slave, 1, 1, 0xFF]);
    assert answer[..6] == answer;
    RtuPanicsExactly(Request(slave, 1, 0, 9, 0, []), answer);
  }

  lemma TrimPrefix(s: seq<byte>, n: nat)
    requires 3 <= n <= |s|
    ensures s[..n][1..n - 2] == s[1..n - 2]
  {
  }

  class RtuMaster {
    var port: Port?

    constructor (port: Port?)
      ensures this.port == port
    {
      this.port := port;
    }

    /** Execute, the far end answering with the given bytes once the request is out. A request that is not valid sends
        nothing; any failure on the line closes the port; a reply that arrives but does not parse leaves it open. */
    method Execute(req: Request, answer: seq<byte>, timeout: nat) returns (r: MasterResult)
      modifies this, port
      ensures !Valid(req) ==> r == NotValid && port == old(port)
      ensures Valid(req) && old(port) == null ==> r == NotOpen && port == null
      ensures Valid(req) && old(port) != null ==>
                var p := old(port);
                && (r == Lost ==> port == null)
                && (r != Lost ==>
                    && port == p && r == HearRtu(req, answer)
                    && p.written == old(p.written) + [RtuFrame(req.slave, Pdu(req))])
                && (p.faults == old(p.faults) && p.timeouts == old(p.timeouts) ==> r == HearRtu(req, answer))
    {
      hide VerifyCrc, Pdu, SplitReply, ParsePdu, Crc16, Valid;
      var refusal := ValidateProtocol(req);
      if refusal.Some? {
        return NotValid;
      }
      var built := BuildPdu(req);
      var (pdu, quantity) := built.value;
      var frame := AppendCrc([req.slave] + pdu);
      if port == null {
        return NotOpen;
      }
      port.pending := [];
      var fault := port.Write(frame);
      if fault {
        port := null;
        return Lost;
      }
      fault := port.Drain();
      if fault {
        port := null;
        return Lost;
      }
      port.pending := port.pending + answer;
      assert port.pending == answer;
      var received := ReadResponse(port, req.slave, timeout);
      if !received.Got? {
        port := null;
        return Lost;
      }
      var response := received.frame;
      TrimPrefix(answer, |response|);
      var parsed := ParsePduResponse(req, quantity, response[1..|response| - 2]);
      return Heard(parsed);
    }
  }
}
