/** Damaged frames on the serial line, and whose frames each end listens to. */
module Noise {
  import opened Words
  import opened Crc
  import opened CrcTheory
  import opened CrcOrder
  import opened StoreModel
  import opened Codec
  import opened Slave
  import opened Tcp
  import opened Rtu
  import opened RtuDevices

  // ---- The slave ----

  /** A frame is served exactly if it is that of some PDU sent to a unit other than 0. Any other, with a wrong checksum or
      sent to everybody, is counted as one error and not answered, and the store is not touched. */
  lemma ServesExactlyFrames(st: State, frame: seq<byte>)
    ensures !VerifyCrc(frame) ==> AnswerFrame(st, frame) == Session(st, [], 0, 1)
    ensures VerifyCrc(frame) ==> |frame| >= 4 && frame == RtuFrame(frame[0], frame[1..|frame| - 2])
    ensures VerifyCrc(frame) && frame[0] == 0 ==> AnswerFrame(st, frame) == Session(st, [], 0, 1)
    ensures VerifyCrc(frame) && frame[0] != 0 ==>
              var r := Serve(st, frame[0], frame[1..|frame| - 2]);
              AnswerFrame(st, frame) == Session(r.state, [RtuFrame(frame[0], r.pdu)], 1, if r.failed then 1 else 0)
  {
    hide Serve, Crc16, AppendCrc, LittleEndian;
    if VerifyCrc(frame) {
      VerifiedIsAppended(frame);
      assert frame[..|frame| - 2] == [frame[0]] + frame[1..|frame| - 2];
    }
  }

  /** The frames with right checksums, in order. */
  function Sound(frames: seq<seq<byte>>): (r: seq<seq<byte>>)
    ensures |r| <= |frames|
    ensures AllRequestFrames(frames) ==> AllRequestFrames(r)
  {
    if frames == [] then []
    else (if VerifyCrc(frames[0]) then [frames[0]] else []) + Sound(frames[1..])
  }

  /** Frames with wrong checksums between the others are as if they had not been there, but that each is counted as one
      error. */
  lemma {:induction false} NoiseIsDropped(st: State, frames: seq<seq<byte>>)
    requires AllRequestFrames(frames)
    ensures var s := Answers(st, Sound(frames));
            Answers(st, frames) == s.(errors := s.errors + |frames| - |Sound(frames)|)
    decreases |frames|
  {
    hide VerifyCrc, AnswerFrame, RequestFrame;
    if frames != [] {
      ServesExactlyFrames(st, frames[0]);
      var first := AnswerFrame(st, frames[0]);
      NoiseIsDropped(first.state, frames[1..]);
      if VerifyCrc(frames[0]) {
        assert Sound(frames) == [frames[0]] + Sound(frames[1..]);
        assert Sound(frames)[1..] == Sound(frames[1..]);
      } else {
        assert Sound(frames) == Sound(frames[1..]);
      }
    }
  }

  /** A frame that differs from an accepted one of its length in up to 16 consecutive wire bits, in an odd number of them, or,
      if it is no longer than 4095 bytes, in up to three. */
  ghost predicate Damaged(sent: seq<byte>, got: seq<byte>) {
    && VerifyCrc(sent) && |sent| == |got|
    && (|| (sent != got && exists start: nat :: Burst(sent, got, start))
        || Flips(sent, got, 8 * |sent|) % 2 == 1
        || (|sent| <= 4095 && 1 <= Flips(sent, got, 8 * |sent|) <= 3))
  }

  predicate Burst(a: seq<byte>, b: seq<byte>, start: nat)
    requires |a| == |b|
  {
    forall i | 0 <= i < 8 * |a| && Differ(a, b, i) :: start <= i < start + 16
  }

  lemma DamageShows(sent: seq<byte>, got: seq<byte>)
    requires Damaged(sent, got)
    ensures !VerifyCrc(got)
  {
    hide VerifyCrc, Differ, Flips;
    if sent != got && exists start: nat :: Burst(sent, got, start) {
      var start: nat :| Burst(sent, got, start);
      BurstDetected(sent, got, start);
    } else if Flips(sent, got, 8 * |sent|) % 2 == 1 {
      OddFlipsDetected(sent, got);
    } else {
      ThreeFlipsDetected(sent, got);
    }
  }

  /** The slave's loop, on a line where each frame it takes is either what was sent or damaged: the store, the replies and the
      count of requests are those of the undamaged frames alone, and each damaged one adds one error. */
  lemma LoopIgnoresDamage(before: Line, after: Line, turns: seq<Turn>, sent: seq<seq<byte>>)
    requires Looped(before, after, turns, false)
    requires |sent| == |Frames(turns)|
    requires forall i | 0 <= i < |sent| :: Damaged(sent[i], Frames(turns)[i]) || (Frames(turns)[i] == sent[i] && VerifyCrc(sent[i]))
    ensures var clean := Kept(sent, Frames(turns));
            && AllRequestFrames(clean)
            && var s := Answers(before.store, clean);
               && after.store == s.state
               && after.written == before.written + s.replies
               && after.requests == before.requests + s.requests
               && after.errors == before.errors + s.errors + |sent| - |clean|
  {
    hide VerifyCrc, Answers, Damaged, RequestFrame, Bytes, Breaks, Frames, AllWellCut;
    var got := Frames(turns);
    NoiseIsDropped(before.store, got);
    forall i | 0 <= i < |sent|
      ensures VerifyCrc(got[i]) <==> got[i] == sent[i]
    {
      if Damaged(sent[i], got[i]) {
        DamageShows(sent[i], got[i]);
        DamageIsFromSound(sent[i], got[i]);
      }
    }
    KeptIsSound(sent, got);
  }

  lemma DamageIsFromSound(sent: seq<byte>, got: seq<byte>)
    requires Damaged(sent, got)
    ensures VerifyCrc(sent)
  {
    hide VerifyCrc, Differ, Flips;
  }

  /** The frames that arrived as they were sent. */
  function Kept(sent: seq<seq<byte>>, got: seq<seq<byte>>): (r: seq<seq<byte>>)
    requires |sent| == |got|
    ensures |r| <= |sent|
  {
    if sent == [] then []
    else (if got[0] == sent[0] then [sent[0]] else []) + Kept(sent[1..], got[1..])
  }

  lemma {:induction false} KeptIsSound(sent: seq<seq<byte>>, got: seq<seq<byte>>)
    requires |sent| == |got|
    requires forall i | 0 <= i < |sent| :: VerifyCrc(got[i]) <==> got[i] == sent[i]
    ensures Kept(sent, got) == Sound(got)
    decreases |sent|
  {
    hide VerifyCrc;
    if sent != [] {
      assert VerifyCrc(got[0]) <==> got[0] == sent[0];
      KeptIsSound(sent[1..], got[1..]);
    }
  }

  // ---- The master ----

  /** Where the reader of replies takes the end of a frame of its slave to be: after five bytes for an exception, by the byte
      count for a read, after eight bytes for a write; it takes no frame of any other function. */
  lemma CutsRepliesExactly(answer: seq<byte>, slave: byte, size: nat)
    ensures SplitReply(answer, slave) == Whole(size) <==>
            && 5 <= size <= |answer| && answer[0] == slave
            && (if answer[1] >= 128 then size == 5
                else if answer[1] in {1, 2, 3, 4} then size == 5 + answer[2] as int
                else answer[1] in {5, 6, 15, 16} && size == 8)
  {
  }

  /** The master hears an answer only if it starts with the frame of a PDU from the very slave it asked, and then just as that
      PDU reads: an answer of another slave, or one whose first frame has a wrong checksum, is lost. */
  lemma HearsOnlyItsSlave(req: Request, answer: seq<byte>)
    ensures HearRtu(req, answer).Heard? ==>
              && SplitReply(answer, req.slave).Whole?
              && var frame := answer[..SplitReply(answer, req.slave).size];
                 && |frame| >= 5 && frame == RtuFrame(req.slave, frame[1..|frame| - 2])
                 && HearRtu(req, answer) == Heard(ParsePdu(req, Expected(req), frame[1..|frame| - 2]))
    ensures answer != [] && answer[0] != req.slave ==> HearRtu(req, answer) == Lost
  {
    hide Crc16, AppendCrc, LittleEndian, ParsePdu;
    if HearRtu(req, answer).Heard? {
      var frame := answer[..SplitReply(answer, req.slave).size];
      VerifiedIsAppended(frame);
      assert frame[..|frame| - 2] == [frame[0]] + frame[1..|frame| - 2];
      TrimPrefix(answer, |frame|);
    }
  }

  /** So is a reply that is damaged on its way. */
  lemma DamagedReplyIsLost(req: Request, sent: seq<byte>, got: seq<byte>, rest: seq<byte>)
    requires Damaged(sent, got)
    requires SplitReply(got + rest, req.slave) == Whole(|got|)
    ensures HearRtu(req, got + rest) == Lost
  {
    hide VerifyCrc, Damaged, SplitReply;
    DamageShows(sent, got);
    assert (got + rest)[..|got|] == got;
  }
}
