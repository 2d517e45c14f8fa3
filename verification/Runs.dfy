/** Whole lives of the store: any interleaving of everything that reaches it. */
module Runs {
  import opened Words
  import BitPacking
  import Crc
  import opened StoreModel
  import opened StoreTheory
  import opened Relay
  import opened Codec
  import opened Slave
  import opened SlaveTheory
  import opened RtuDevices
  import opened Transports
  import opened Simulator
  import opened Api

  /** A PDU in a TCP frame, a frame on the serial line, an API call, or a reset. The PDUs, frames and arguments are
      arbitrary. */
  datatype Event =
    | TcpPdu(unit: byte, pdu: seq<byte>)
    | RtuLine(frame: seq<byte>)
    | ApiWrite(slave: int, table: Table, address: u16, values: seq<u16>)
    | ApiInject(unit: byte, table: Table, address: u16, values: seq<u16>)
    | ApiReset

  function After(st: State, e: Event, profile: Profile): State {
    match e
    case TcpPdu(unit, pdu) => Serve(st, unit, pdu).state
    case RtuLine(frame) => AnswerFrame(st, frame).state
    case ApiWrite(slave, table, address, values) => Writing(st, slave, table, address, values).state
    case ApiInject(unit, table, address, values) => Injecting(st, unit, table, address, values).state
    case ApiReset => Resetting(st, profile).state
  }

  function AfterAll(st: State, events: seq<Event>, profile: Profile): State
    decreases |events|
  {
    if events == [] then st else AfterAll(After(st, events[0], profile), events[1..], profile)
  }

  /** A store as it is made. */
  function NewStore(strict: bool): State {
    State(map[], strict, None)
  }

  ghost predicate Sound(st: State) {
    Mirrored(st) && BitsOnly(st)
  }

  predicate BitProfile(profile: Profile) {
    GoodProfile(profile) && profile.relay.coilOn <= 1 && profile.relay.coilOff <= 1
  }

  lemma EventKeepsSound(st: State, e: Event, profile: Profile)
    requires Sound(st) && BitProfile(profile)
    ensures Sound(After(st, e, profile))
  {
    hide Mirrored, BitsOnly, Serve, Write, Set, Read, Reset, Crc.Crc16, GoodProfile;
    match e
    case TcpPdu(unit, pdu) =>
      ServeKeepsMirror(st, unit, pdu);
      ServeKeepsBits(st, unit, pdu);
    case RtuLine(frame) =>
      if Crc.VerifyCrc(frame) {
        ServeKeepsMirror(st, frame[0], frame[1..|frame| - 2]);
        ServeKeepsBits(st, frame[0], frame[1..|frame| - 2]);
      }
    case ApiWrite(slave, table, address, values) =>
      if 1 <= slave <= 247 {
        WriteKeepsMirror(st, table, slave, address, values);
        WriteKeepsBits(st, table, slave, address, values);
      }
    case ApiInject(unit, table, address, values) =>
      if table == Holding || table == Coil {
        WriteKeepsMirror(st, table, unit, address, values);
        WriteKeepsBits(st, table, unit, address, values);
      } else {
        SetOffRelayKeepsMirror(st, table, unit, address, values);
        SetKeepsBits(st, table, unit, address, values);
      }
    case ApiReset =>
      ResetKeepsInvariants(st, profile);
  }

  lemma {:induction false} RunKeepsSound(st: State, events: seq<Event>, profile: Profile)
    requires Sound(st) && BitProfile(profile)
    ensures Sound(AfterAll(st, events, profile))
    decreases |events|
  {
    hide Sound, BitProfile, After;
    if events != [] {
      EventKeepsSound(st, events[0], profile);
      RunKeepsSound(After(st, events[0], profile), events[1..], profile);
    }
  }

  /** After any interleaving of arbitrary Modbus traffic on both transports, API writes, injections and resets, from a
      new store in either mode, every relay channel is on in both views or off in both views, and every coil and
      discrete cell of every slave holds a bit. */
  lemma AlwaysMirrored(strict: bool, events: seq<Event>)
    ensures Mirrored(AfterAll(NewStore(strict), events, SWS_LAB))
    ensures BitsOnly(AfterAll(NewStore(strict), events, SWS_LAB))
  {
    hide Mirrored, AfterAll, GoodProfile, Disjoint;
    LabIsGood();
    assert Mirrored(NewStore(strict)) by { NothingToMirror(strict); }
    RunKeepsSound(NewStore(strict), events, SWS_LAB);
  }

  lemma NothingToMirror(strict: bool)
    ensures Mirrored(NewStore(strict))
  {
  }

  // ---- Mapped cells ----

  lemma EventKeepsMapped(st: State, e: Event, profile: Profile, s: byte, t: Table, a: u16)
    ensures Cell(st, s, t, a).Some? ==> Cell(After(st, e, profile), s, t, a).Some?
    ensures After(st, e, profile).strict == st.strict
  {
    hide Cell, Serve, Write, Set, Read, Reset, Crc.Crc16;
    match e
    case TcpPdu(unit, pdu) =>
      ServeKeepsMapped(st, unit, pdu, s, t, a);
    case RtuLine(frame) =>
      if Crc.VerifyCrc(frame) {
        ServeKeepsMapped(st, frame[0], frame[1..|frame| - 2], s, t, a);
      }
    case ApiWrite(slave, table, address, values) =>
      if 1 <= slave <= 247 {
        WriteKeepsMapped(st, table, slave, address, values, s, t, a);
      }
    case ApiInject(unit, table, address, values) =>
      WriteKeepsMapped(st, table, unit, address, values, s, t, a);
      SetKeepsMapped(st, table, unit, address, values, s, t, a);
    case ApiReset =>
      ResetKeepsMapped(st, profile, s, t, a);
  }

  /** Once mapped, a cell stays mapped through any run; and the mode of a store never changes. */
  lemma {:induction false} MappedStaysMapped(st: State, events: seq<Event>, profile: Profile, s: byte, t: Table, a: u16)
    ensures Cell(st, s, t, a).Some? ==> Cell(AfterAll(st, events, profile), s, t, a).Some?
    ensures AfterAll(st, events, profile).strict == st.strict
    decreases |events|
  {
    hide Cell, After;
    if events != [] {
      EventKeepsMapped(st, events[0], profile, s, t, a);
      MappedStaysMapped(After(st, events[0], profile), events[1..], profile, s, t, a);
    }
  }

  /** The handlers' Write or Set and the Read after it are two operations of the store, and anything may come between them.
      Whatever does, that Read succeeds, in strict mode too, with one value for each that was written: a write is never
      answered with an empty list, nor an injection with a server error. */
  lemma ReadAfterWriteSucceeds(st: State, slave: byte, table: Table, address: u16, values: seq<u16>,
                               between: seq<Event>, profile: Profile)
    requires !BadTarget(slave, table, address, |values|) && 1 <= |values| <= 2000
    requires Stored(st, slave, table, address, values).error == None
    ensures var later := AfterAll(Stored(st, slave, table, address, values).state, between, profile);
            match Read(later, table, slave, address, |values|)
            case Values(v) =>
              |v| == |values| && forall i | 0 <= i < |v| :: v[i] == Shown(Cell(later, slave, table, address + i))
            case ReadRefused(_) => false
  {
    hide Cell, Read, Stored, AfterAll;
    var written := Stored(st, slave, table, address, values).state;
    var later := AfterAll(written, between, profile);
    ReadMeans(later, table, slave, address, |values|);
    MappedStaysMapped(written, between, profile, slave, table, address);
    if later.strict {
      forall a: u16 | address <= a < address + |values|
        ensures Cell(later, slave, table, a).Some?
      {
        StoredIsMapped(st, slave, table, address, values, a);
        MappedStaysMapped(written, between, profile, slave, table, a);
      }
    }
  }

  /** The first of the two operations. */
  function Stored(st: State, slave: byte, table: Table, address: u16, values: seq<u16>): Outcome {
    if table == Holding || table == Coil then Write(st, table, slave, address, values)
    else Set(st, table, slave, address, values)
  }

  lemma StoredIsMapped(st: State, slave: byte, table: Table, address: u16, values: seq<u16>, a: u16)
    requires !BadTarget(slave, table, address, |values|) && address <= a < address + |values|
    requires Stored(st, slave, table, address, values).error == None
    requires Stored(st, slave, table, address, values).state.strict
    ensures Cell(Stored(st, slave, table, address, values).state, slave, table, a).Some?
  {
    hide Cell, Write, Set, Taken;
    if table == Holding || table == Coil {
      WriteKeepsMode(st, table, slave, address, values);
      WriteSucceeds(st, table, slave, address, values);
      assert Taken(st, table, slave, address, values, a - address);
      EntryStored(st, table, slave, address, values, a - address);
    } else {
      SetMeans(st, table, slave, address, values);
    }
  }

  // ---- Read-only tables ----

  predicate IsModbus(e: Event) {
    e.TcpPdu? || e.RtuLine?
  }

  /** No sequence of arbitrary Modbus traffic changes an input or a discrete cell of any slave. */
  lemma {:induction false} InputsReadOnly(st: State, events: seq<Event>, profile: Profile, s: byte, t: Table, a: u16)
    requires forall i | 0 <= i < |events| :: IsModbus(events[i])
    requires t == Input || t == Discrete
    ensures Cell(AfterAll(st, events, profile), s, t, a) == Cell(st, s, t, a)
    decreases |events|
  {
    hide Cell, Serve, Crc.Crc16;
    if events != [] {
      assert IsModbus(events[0]);
      match events[0] {
        case TcpPdu(unit, pdu) =>
          ServeSparesInputs(st, unit, pdu, s, t, a);
        case RtuLine(frame) =>
          if Crc.VerifyCrc(frame) {
            ServeSparesInputs(st, frame[0], frame[1..|frame| - 2], s, t, a);
          }
      }
      InputsReadOnly(After(st, events[0], profile), events[1..], profile, s, t, a);
    }
  }

  // ---- Through the API, out over the wire ----

  function FunctionFor(table: Table): byte
    requires IsTable(table)
  {
    match table
    case Coil => 1
    case Discrete => 2
    case Holding => 3
    case Input => 4
  }

  function PollOf(slave: byte, table: Table, address: u16, quantity: u16): Request
    requires IsTable(table)
  {
    Request(slave, FunctionFor(table), address, quantity, 0, [])
  }

  /** A master polling cells that read as bits or words gets exactly those, on either transport. */
  lemma PollHears(st: State, s: Sent, table: Table, values: seq<u16>)
    requires IsTable(table) && |values| < 65536 && s.req == PollOf(s.req.slave, table, s.req.address, |values|)
    requires Read(st, table, s.req.slave, s.req.address, |values|) == Values(values)
    requires |values| <= (if IsBits(table) then 2000 else 125)
    requires IsBits(table) ==> BitPacking.AllBits(values)
    ensures Valid(s.req) && Send(st, s) == Exchange(st, Some(Decoded(values, |values|)))
  {
    hide Send, Read, Write;
    ReadMeans(st, table, s.req.slave, s.req.address, |values|);
    EitherIsDirect(st, s);
    if IsBits(table) {
      assert BitPacking.Flags(values) == values;
    }
  }

  /** What an injection answers is what a master polling the same range hears, over TCP and over RTU: exactly what was
      injected, or, on the relay, what it made of it. */
  lemma InjectThenPoll(st: State, slave: byte, table: Table, address: u16, values: seq<u16>, via: Via)
    requires Injecting(st, slave, table, address, values).response.Ok?
    requires IsPlain(st, slave) || BitsOnly(st)
    requires |values| <= (if IsBits(table) then 2000 else 125)
    ensures IsTable(table) && |values| < 65536 && Valid(PollOf(slave, table, address, |values|))
    ensures var h := Injecting(st, slave, table, address, values);
            && Send(h.state, Sent(via, PollOf(slave, table, address, |values|)))
                 == Exchange(h.state, Some(Decoded(h.response.values, |values|)))
            && (IsPlain(st, slave) ==> h.response.values == values)
  {
    hide Send, Read, Write, Set, Taken, BitsOnly, Cell;
    InjectionReadsBack(st, slave, table, address, values);
    var h := Injecting(st, slave, table, address, values);
    if IsPlain(st, slave) {
      PlainBits(st, slave, table, address, values);
      PlainAnswer(st, slave, table, address, values, h.response.values);
    } else {
      RelayBits(st, slave, table, address, values);
    }
    PollHears(h.state, Sent(via, PollOf(slave, table, address, |values|)), table, h.response.values);
  }

  lemma PlainBits(st: State, slave: byte, table: Table, address: u16, values: seq<u16>)
    requires IsPlain(st, slave) && IsTable(table) && address + |values| <= 65536
    requires AllTaken(st, table, slave, address, values)
    ensures IsBits(table) ==> BitPacking.AllBits(values)
  {
    if table == Coil {
      forall i | 0 <= i < |values|
        ensures values[i] <= 1
      {
        assert Taken(st, table, slave, address, values, i);
      }
    }
  }

  lemma RelayBits(st: State, slave: byte, table: Table, address: u16, values: seq<u16>)
    requires BitsOnly(st) && Injecting(st, slave, table, address, values).response.Ok?
    ensures IsBits(table) ==> BitPacking.AllBits(Injecting(st, slave, table, address, values).response.values)
  {
    hide Read, Write, Set, Cell;
    WriteKeepsBits(st, table, slave, address, values);
    SetKeepsBits(st, table, slave, address, values);
    var h := Injecting(st, slave, table, address, values);
    ReadMeans(h.state, table, slave, address, |values|);
  }

  /** After a reset from any state, every range of a profile of disjoint ranges is heard as listed, over TCP and over
      RTU. */
  lemma ResetThenPoll(st: State, profile: Profile, i: nat, via: Via)
    requires GoodProfile(profile) && Disjoint(profile) && i < |Jobs(profile.devices)|
    requires |Jobs(profile.devices)[i].range.values| <= 125
    ensures var job := Jobs(profile.devices)[i];
            var after := Reset(st, profile).state;
            var n := |job.range.values|;
            && IsTable(job.range.table) && Valid(PollOf(job.slave, job.range.table, job.range.address, n))
            && Send(after, Sent(via, PollOf(job.slave, job.range.table, job.range.address, n)))
                 == Exchange(after, Some(Decoded(job.range.values, n)))
  {
    hide Send, Read, Reset, Jobs, Disjoint;
    var job := Jobs(profile.devices)[i];
    assert Settable(job);
    BitPrefixFull(job.range.values);
    ProfileReadsBack(st, profile, i);
    PollHears(Reset(st, profile).state,
              Sent(via, PollOf(job.slave, job.range.table, job.range.address, |job.range.values|)),
              job.range.table, job.range.values);
  }
}
