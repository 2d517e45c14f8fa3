/** Modbus RTU: frames on a serial line (section 2.5.1 of MODBUS over Serial Line V1.02), how each side cuts them out
    of the byte stream, and the serial port they are read from. */
module Rtu {
  import opened Words
  import opened BitPacking
  import opened Crc
  import opened CrcTheory
  import opened StoreModel
  import opened Codec
  import opened Slave
  import opened SlaveTheory
  import opened EndToEnd

  function RtuFrame(slave: byte, pdu: seq<byte>): seq<byte> {
    AppendCrc([slave] + pdu)
  }

  /** How a reader cuts the front of a stream: a whole frame of the given size, a frame it refuses after its first two
      bytes, or not enough bytes to tell or to finish. */
  datatype Split = Whole(size: nat) | Refuse | WrongSlave | Short

  function Enough(s: seq<byte>, size: nat): (r: Split)
    ensures r.Whole? ==> r.size == size <= |s|
  {
    if |s| < size then Short else Whole(size)
  }

  function SplitRequest(s: seq<byte>): (r: Split)
    ensures r.Whole? ==> 8 <= r.size <= |s|
  {
    if |s| < 2 then Short
    else if 1 <= s[1] <= 6 then Enough(s, 8)
    else if s[1] == 15 || s[1] == 16 then (if |s| < 7 then Short else Enough(s, 9 + s[6] as int))
    else Refuse
  }

  function SplitReply(s: seq<byte>, slave: byte): (r: Split)
    ensures r.Whole? ==> 5 <= r.size <= |s|
  {
    if |s| < 2 then Short
    else if s[0] != slave then WrongSlave
    else if s[1] >= 0x80 then Enough(s, 5)
    else if 1 <= s[1] <= 4 then (if |s| < 3 then Short else Enough(s, 5 + s[2] as int))
    else if s[1] in {5, 6, 15, 16} then Enough(s, 8)
    else Refuse
  }

  // ---- Serial port ----

  /** A serial port: the bytes still to come from the far end, what was written, a clock in milliseconds, and counts
      of the things that can go wrong: reads, writes or drains that failed, and readers that gave up at their deadline.
      A read delivers as many of the coming bytes as it likes, or none. */
  class Port {
    var pending: seq<byte>
    var written: seq<seq<byte>>
    var now: nat
    var faults: nat
    var timeouts: nat

    constructor (pending: seq<byte>)
      ensures this.pending == pending && written == [] && faults == 0 && timeouts == 0
    {
      this.pending := pending;
      written, now, faults, timeouts := [], 0, 0, 0;
    }

    method Read(room: nat) returns (data: seq<byte>, fault: bool)
      modifies this`pending, this`now, this`faults
      ensures |data| <= room && data <= old(pending) && pending == old(pending)[|data|..]
      ensures now >= old(now)
      ensures faults == old(faults) + (if fault then 1 else 0)
    {
      var n: nat :| n <= room && n <= |pending|;
      var elapsed: nat :| true;
      fault := *;
      data := pending[..n];
      pending := pending[n..];
      now := now + elapsed;
      if fault {
        faults := faults + 1;
      }
    }

    method Sleep()
      modifies this`now
      ensures now > old(now)
    {
      now := now + 1;
    }

    /** Either hands the whole frame over or fails. */
    method Write(frame: seq<byte>) returns (fault: bool)
      modifies this`written, this`faults
      ensures !fault ==> written == old(written) + [frame] && faults == old(faults)
      ensures fault ==> written == old(written) && faults == old(faults) + 1
    {
      fault := *;
      if fault {
        faults := faults + 1;
      } else {
        written := written + [frame];
      }
    }

    /** Waits until what was written is out, or fails. */
    method Drain() returns (fault: bool)
      modifies this`faults
      ensures faults == old(faults) + (if fault then 1 else 0)
    {
      fault := *;
      if fault {
        faults := faults + 1;
      }
    }
  }

  datatype ReadOutcome = Done | PortError | TimedOut

  /** Fills the buffer from the port. However the bytes are dealt out, what is read is the front of what was coming;
      the buffer is filled unless a read reports an error, even one that came with the last bytes, or the deadline
      passes first. */
  method ReadExact(p: Port, buf: array<byte>, timeout: nat) returns (offset: nat, outcome: ReadOutcome)
    modifies p`pending, p`now, p`faults, p`timeouts, buf
    ensures offset <= buf.Length && offset <= |old(p.pending)|
    ensures buf[..offset] == old(p.pending)[..offset] && p.pending == old(p.pending)[offset..]
    ensures p.now >= old(p.now)
    ensures outcome == Done ==> offset == buf.Length
    ensures outcome == TimedOut ==> offset < buf.Length && p.now > old(p.now) + timeout
    ensures p.faults == old(p.faults) + (if outcome == PortError then 1 else 0)
    ensures p.timeouts == old(p.timeouts) + (if outcome == TimedOut then 1 else 0)
  {
    var deadline := p.now + timeout;
    offset := 0;
    while offset < buf.Length
      invariant offset <= buf.Length && offset <= |old(p.pending)|
      invariant buf[..offset] == old(p.pending)[..offset] && p.pending == old(p.pending)[offset..]
      invariant p.now >= old(p.now) && p.faults == old(p.faults) && p.timeouts == old(p.timeouts)
      decreases buf.Length - offset, deadline + 1 - p.now
    {
      var data, fault := p.Read(buf.Length - offset);
      ghost var before := buf[..offset];
      forall i | 0 <= i < |data| {
        buf[offset + i] := data[i];
      }
      assert buf[..offset + |data|] == before + data;
      offset := offset + |data|;
      if fault {
        return offset, PortError;
      }
      if offset == buf.Length {
        return offset, Done;
      }
      if p.now > deadline {
        p.timeouts := p.timeouts + 1;
        return offset, TimedOut;
      }
      if |data| == 0 {
        p.Sleep();
      }
    }
    return offset, Done;
  }

  /** A fresh buffer of n bytes, filled by ReadExact. */
  method ReadBytes(p: Port, n: nat, timeout: nat) returns (data: seq<byte>, ok: bool)
    modifies p`pending, p`now, p`faults, p`timeouts
    ensures |data| <= |old(p.pending)|
    ensures data == old(p.pending)[..|data|] && p.pending == old(p.pending)[|data|..]
    ensures ok ==> |data| == n
    ensures Disturbance(ok, timeout, old(p.faults), old(p.timeouts), old(p.now), p.faults, p.timeouts, p.now)
  {
    var buf := new byte[n](_ => 0);
    var offset, outcome := ReadExact(p, buf, timeout);
    return buf[..offset], outcome == Done;
  }

  /** What a reader leaves on the port's counters: nothing if it came to an end, and otherwise one failed read, or one
      timeout, for which more time than the limit has passed. */
  predicate Disturbance(ok: bool, timeout: nat, faults: nat, timeouts: nat, start: nat, faults': nat, timeouts': nat, end: nat) {
    && end >= start
    && (ok ==> faults' == faults && timeouts' == timeouts)
    && (!ok ==>
        || (faults' == faults + 1 && timeouts' == timeouts)
        || (faults' == faults && timeouts' == timeouts + 1 && end > start + timeout))
  }

  lemma Reassemble(all: seq<byte>, i: nat, n: nat)
    requires i + n <= |all|
    ensures all[..i] + all[i..][..n] == all[..i + n] && all[i..][n..] == all[i + n..]
  {
  }

  /** What a frame reader comes back with. */
  datatype Received = Got(frame: seq<byte>) | Rejected(split: Split) | Corrupt(size: nat) | Broken

  /** Reads one request frame. Unless one read failed or timed out, the outcome is decided by the coming bytes alone,
      and exactly that frame is taken off the line. */
  method ReadRequest(p: Port, timeout: nat) returns (r: Received)
    modifies p`pending, p`now, p`faults, p`timeouts
    ensures Disturbance(r != Broken, timeout, old(p.faults), old(p.timeouts), old(p.now), p.faults, p.timeouts, p.now)
    ensures match r
            case Got(frame) =>
              && SplitRequest(old(p.pending)) == Whole(|frame|)
              && frame == old(p.pending)[..|frame|] && p.pending == old(p.pending)[|frame|..]
            case Rejected(split) =>
              split == Refuse && SplitRequest(old(p.pending)) == Refuse && p.pending == old(p.pending)[2..]
            case Corrupt(_) => false
            case Broken => exists k | 0 <= k <= |old(p.pending)| :: p.pending == old(p.pending)[k..]
  {
    ghost var all := p.pending;
    var head, ok := ReadBytes(p, 2, timeout);
    if !ok {
      return Broken;
    }
    var fc := head[1];
    if fc == 15 || fc == 16 {
      var fixed;
      fixed, ok := ReadBytes(p, 5, timeout);
      Reassemble(all, 2, |fixed|);
      if !ok {
        return Broken;
      }
      var count: nat := fixed[4];
      assert count == all[6];
      var rest;
      rest, ok := ReadBytes(p, count + 2, timeout);
      Reassemble(all, 7, |rest|);
      if !ok {
        return Broken;
      }
      return Got(head + fixed + rest);
    }
    if !(1 <= fc <= 6) {
      return Rejected(Refuse);
    }
    var tail;
    tail, ok := ReadBytes(p, 6, timeout);
    Reassemble(all, 2, |tail|);
    if !ok {
      return Broken;
    }
    return Got(head + tail);
  }

  /** Reads one reply frame, checksum and all. */
  method ReadResponse(p: Port, slave: byte, timeout: nat) returns (r: Received)
    modifies p`pending, p`now, p`faults, p`timeouts
    ensures Disturbance(r != Broken, timeout, old(p.faults), old(p.timeouts), old(p.now), p.faults, p.timeouts, p.now)
    ensures match r
            case Got(frame) =>
              && SplitReply(old(p.pending), slave) == Whole(|frame|)
              && frame == old(p.pending)[..|frame|] && VerifyCrc(frame) && p.pending == old(p.pending)[|frame|..]
            case Corrupt(size) =>
              && SplitReply(old(p.pending), slave) == Whole(size) && !VerifyCrc(old(p.pending)[..size])
              && p.pending == old(p.pending)[size..]
            case Rejected(split) =>
              && (split == Refuse || split == WrongSlave)
              && SplitReply(old(p.pending), slave) == split && p.pending == old(p.pending)[2..]
            case Broken => exists k | 0 <= k <= |old(p.pending)| :: p.pending == old(p.pending)[k..]
  {
    hide VerifyCrc;
    ghost var all := p.pending;
    var head, ok := ReadBytes(p, 2, timeout);
    if !ok {
      return Broken;
    }
    if head[0] != slave {
      return Rejected(WrongSlave);
    }
    var fc := head[1];
    var remaining := 0;
    if fc >= 0x80 {
      remaining := 3;
    } else if fc == 1 || fc == 2 || fc == 3 || fc == 4 {
      var count;
      count, ok := ReadBytes(p, 1, timeout);
      Reassemble(all, 2, |count|);
      if !ok {
        return Broken;
      }
      head := head + count;
      remaining := count[0] as int + 2;
    } else if fc == 5 || fc == 6 || fc == 15 || fc == 16 {
      remaining := 6;
    } else {
      return Rejected(Refuse);
    }
    var tail;
    tail, ok := ReadBytes(p, remaining, timeout);
    Reassemble(all, |head|, |tail|);
    if !ok {
      return Broken;
    }
    var frame := head + tail;
    if !VerifyCrc(frame) {
      return Corrupt(|frame|);
    }
    return Got(frame);
  }

  // ---- Frames delimit themselves ----

  /** More bytes after a whole frame do not change where it ends, and the frame alone ends there too. */
  lemma RequestEndsItself(s: seq<byte>, more: seq<byte>)
    requires SplitRequest(s).Whole?
    ensures SplitRequest(s + more) == SplitRequest(s)
    ensures SplitRequest(s[..SplitRequest(s).size]) == SplitRequest(s)
  {
  }

  predicate RequestFrame(frame: seq<byte>) {
    SplitRequest(frame) == Whole(|frame|)
  }

  function Joined(frames: seq<seq<byte>>): seq<byte> {
    if frames == [] then [] else frames[0] + Joined(frames[1..])
  }

  lemma SameHead(f: seq<byte>, a: seq<byte>, g: seq<byte>, b: seq<byte>)
    requires RequestFrame(f) && RequestFrame(g) && f + a == g + b
    ensures f == g && a == b
  {
    hide SplitRequest;
    RequestEndsItself(f, a);
    RequestEndsItself(g, b);
    assert f == (f + a)[..|f|] && a == (f + a)[|f|..];
    assert g == (g + b)[..|g|] && b == (g + b)[|g|..];
  }

  /** A stream can be cut into request frames in one way only: whatever frames a reader has cut off the front of a
      stream of request frames are the first of them, in order, and the rest of the stream is untouched. */
  lemma {:induction false} CutInOrder(frames: seq<seq<byte>>, rest: seq<byte>, got: seq<seq<byte>>, left: seq<byte>)
    requires forall i | 0 <= i < |frames| :: RequestFrame(frames[i])
    requires forall i | 0 <= i < |got| :: RequestFrame(got[i])
    requires Joined(frames) + rest == Joined(got) + left && |got| <= |frames|
    ensures got == frames[..|got|] && left == Joined(frames[|got|..]) + rest
    decreases |got|
  {
    hide RequestFrame, Joined;
    if got == [] {
      JoinedNothing(left);
      assert frames[0..] == frames;
    } else {
      var n := |got|;
      JoinedStep(frames, rest);
      JoinedStep(got, left);
      SameHead(frames[0], Joined(frames[1..]) + rest, got[0], Joined(got[1..]) + left);
      CutInOrder(frames[1..], rest, got[1..], left);
      assert got == [got[0]] + got[1..];
      assert frames[..n] == [frames[0]] + frames[1..][..n - 1];
      assert frames[1..][n - 1..] == frames[n..];
    }
  }

  lemma JoinedNothing(rest: seq<byte>)
    ensures Joined([]) + rest == rest
  {
  }

  lemma JoinedStep(frames: seq<seq<byte>>, rest: seq<byte>)
    requires frames != []
    ensures Joined(frames) + rest == frames[0] + (Joined(frames[1..]) + rest)
  {
  }

  /** The frame of every valid request is a request frame, and its checksum is right. */
  lemma ValidRequestFrames(req: Request)
    requires Valid(req)
    ensures var frame := RtuFrame(req.slave, Pdu(req));
            && RequestFrame(frame) && VerifyCrc(frame)
            && frame[0] == req.slave && frame[1..|frame| - 2] == Pdu(req)
  {
    hide Crc16, CrcLow, CrcHigh, VerifyCrc, Pdu, WordAt, Packed, Registers;
    PduHead(req);
    AppendedVerifies([req.slave] + Pdu(req));
    FrameParts(req.slave, Pdu(req));
  }

  lemma FrameParts(slave: byte, pdu: seq<byte>)
    ensures var frame := RtuFrame(slave, pdu);
            && |frame| == |pdu| + 3 && frame[0] == slave && frame[1..|frame| - 2] == pdu
            && forall i | 0 <= i < |pdu| :: frame[1 + i] == pdu[i]
  {
    hide Crc16, CrcLow, CrcHigh;
  }

  /** The frame of every reply a slave can give, exceptions included, is cut out whole by the reader of replies. */
  lemma ReplyFrames(st: State, slave: byte, pdu: seq<byte>, more: seq<byte>)
    ensures var frame := RtuFrame(slave, Serve(st, slave, pdu).pdu);
            && SplitReply(frame + more, slave) == Whole(|frame|) && (frame + more)[..|frame|] == frame
            && VerifyCrc(frame) && frame[1..|frame| - 2] == Serve(st, slave, pdu).pdu
  {
    hide Crc16, CrcLow, CrcHigh, VerifyCrc, Serve;
    var r := Serve(st, slave, pdu);
    ReplyShape(st, slave, pdu);
    FrameParts(slave, r.pdu);
    AppendedVerifies([slave] + r.pdu);
    if !r.failed {
      ReplyCount(st, slave, pdu);
    }
  }
}
