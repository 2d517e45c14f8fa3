/** What holds of every PDU a slave may be sent, well formed or not. */
module SlaveTheory {
  import opened Words
  import opened BitPacking
  import opened StoreModel
  import opened StoreTheory
  import opened Codec
  import opened Slave
  import opened EndToEnd
  import opened Relay

  /** The reply to any byte sequence fits a frame on either transport and says whose reply it is: the function code,
      or the marked function code followed by one of three exception codes. */
  lemma ReplyShape(st: State, slave: byte, pdu: seq<byte>)
    ensures var r := Serve(st, slave, pdu);
            && 2 <= |r.pdu| <= 252
            && (!r.failed ==> pdu != [] && Supported(pdu[0]) && r.pdu[0] == pdu[0])
            && (r.failed ==> |r.pdu| == 2 && r.pdu[0] == Marked(if pdu == [] then 0 else pdu[0]) && 1 <= r.pdu[1] <= 3)
            && (r.failed && r.pdu[1] == ILLEGAL_FUNCTION <==> pdu != [] && !Supported(pdu[0]))
  {
    hide Read, Write, Word, Unpacked, PackedByte, Bit;
    if |pdu| >= 5 && 1 <= pdu[0] <= 4 {
      ReadLength(st, ReadTable(pdu[0]), slave, WordAt(pdu, 1), WordAt(pdu, 3));
    }
  }

  /** A successful reply also announces its own length, which the RTU readers rely on. */
  lemma ReplyCount(st: State, slave: byte, pdu: seq<byte>)
    requires !Serve(st, slave, pdu).failed
    ensures var r := Serve(st, slave, pdu).pdu;
            && (r[0] <= 4 ==> |r| == 2 + r[1] as int)
            && (r[0] > 4 ==> |r| == 5)
            && r[0] < 0x80
  {
    hide Read, Write, Word, Unpacked, PackedByte, Bit;
    if |pdu| >= 5 && 1 <= pdu[0] <= 4 {
      ReadLength(st, ReadTable(pdu[0]), slave, WordAt(pdu, 1), WordAt(pdu, 3));
    }
  }

  // ---- Effects ----

  /** The write a PDU amounts to, if it gets that far. */
  datatype Effect = NoEffect | WriteEffect(table: Table, address: u16, values: seq<u16>)

  function EffectOf(pdu: seq<byte>): (e: Effect)
    ensures e.WriteEffect? ==> (e.table == Coil || e.table == Holding) && e.values != []
    ensures e.WriteEffect? && e.table == Coil ==> AllBits(e.values)
  {
    if |pdu| < 5 then NoEffect
    else if pdu[0] == 5 && (WordAt(pdu, 3) == 0 || WordAt(pdu, 3) == COIL_ON) then
      WriteEffect(Coil, WordAt(pdu, 1), [if WordAt(pdu, 3) == COIL_ON then 1 else 0])
    else if pdu[0] == 6 then
      WriteEffect(Holding, WordAt(pdu, 1), [WordAt(pdu, 3)])
    else if pdu[0] == 15 && GoodPayload(pdu, 1968, ByteCount) then
      WriteEffect(Coil, WordAt(pdu, 1), Unpacked(pdu[6..], WordAt(pdu, 3)))
    else if pdu[0] == 16 && GoodPayload(pdu, 123, n => 2 * n) then
      WriteEffect(Holding, WordAt(pdu, 1), RegistersAt(pdu[6..], WordAt(pdu, 3)))
    else
      NoEffect
  }

  /** All that serving a PDU can do to the store is one Write. */
  lemma ServeWrites(st: State, slave: byte, pdu: seq<byte>)
    ensures match EffectOf(pdu)
            case NoEffect => Serve(st, slave, pdu).state == st
            case WriteEffect(table, address, values) =>
              var r := Write(st, table, slave, address, values);
              Serve(st, slave, pdu).state == r.state && (Serve(st, slave, pdu).failed <==> r.error.Some?)
  {
    hide Read, Write, Word, Unpacked, RegistersAt, ReadReply;
  }

  /** In non-strict mode an exception reply means nothing was changed. */
  lemma ExceptionChangesNothing(st: State, slave: byte, pdu: seq<byte>)
    requires !st.strict && Serve(st, slave, pdu).failed
    ensures Serve(st, slave, pdu).state == st
  {
    hide Serve, EffectOf, Switched, PutCells;
    ServeWrites(st, slave, pdu);
    var e := EffectOf(pdu);
    if e.WriteEffect? {
      if e.address + |e.values| <= 65536 && IsPlain(st, slave) {
        BitPrefixFull(e.values);
      }
    }
  }

  /** In strict mode an exception may follow a partial write: then the write was to the relay, and the cells changed
      are exactly those of the entries before the first one the relay refused. */
  lemma StrictException(st: State, slave: byte, pdu: seq<byte>)
    requires st.strict && Serve(st, slave, pdu).failed
    ensures || Serve(st, slave, pdu).state == st
            || (exists e: Effect ::
                  && e == EffectOf(pdu) && e.WriteEffect? && !IsPlain(st, slave)
                  && e.address + |e.values| <= 65536
                  && var n := AcceptedPrefix(st.relay.value, e.table, e.address, e.values);
                     && n < |e.values|
                     && forall s: byte, t: Table, a: u16 ::
                       Cell(Serve(st, slave, pdu).state, s, t, a) ==
                         if s == slave then RelayCell(st, e.table, e.address, e.values[..n], t, a)
                         else Cell(st, s, t, a))
  {
    hide Serve, EffectOf, Switched, PutCells, Cell, RelayCell, AcceptedPrefix;
    ServeWrites(st, slave, pdu);
    var e := EffectOf(pdu);
    if e.WriteEffect? && e.address + |e.values| <= 65536 {
      if IsPlain(st, slave) {
        BitPrefixFull(e.values);
      } else {
        RelayWriteMeans(st, e.table, e.address, e.values);
        assert EntryCount(st, e.table, e.address, e.values)
            == AcceptedPrefix(st.relay.value, e.table, e.address, e.values);
      }
    }
  }

  /** Channel k reads as on, or as off, in both views. */
  predicate Shows(st: State, spec: RelaySpec, k: u16, on: bool) {
    && Cell(st, spec.slave, Coil, Wrap(spec.coilStart, k)) == Some(if on then spec.coilOn else spec.coilOff)
    && Cell(st, spec.slave, Holding, Wrap(spec.holdingStart, k)) == Some(if on then spec.holdingOn else spec.holdingOff)
  }

  /** Entry i of a relay write asks for what its channel already shows. */
  predicate AsksNothingNew(st: State, table: Table, address: u16, values: seq<u16>, i: nat)
    requires st.relay.Some? && (table == Coil || table == Holding)
    requires i < |values| && address + |values| <= 65536
  {
    match Judge(st.relay.value, table, address + i, values[i])
    case Switch(k, on) => Shows(st, st.relay.value, k, on)
    case Reject(_) => true
  }

  /** A write that reaches the relay's own entries. */
  predicate ReachesRelay(st: State, slave: byte, e: Effect) {
    e.WriteEffect? && !IsPlain(st, slave) && e.address + |e.values| <= 65536
  }

  /** In strict mode an exception reply leaves every cell as it was exactly if the PDU does not reach the relay, or each
      entry before the first refused one asks for what its channel already shows. */
  lemma StrictExceptionExactly(st: State, slave: byte, pdu: seq<byte>)
    requires st.strict && Serve(st, slave, pdu).failed
    ensures var e := EffectOf(pdu);
            SameView(Serve(st, slave, pdu).state, st) <==>
            (ReachesRelay(st, slave, e) ==>
               forall i | 0 <= i < AcceptedPrefix(st.relay.value, e.table, e.address, e.values) ::
                 AsksNothingNew(st, e.table, e.address, e.values, i))
  {
    hide Serve, EffectOf, Switched, PutCells, Cell, RelayCell, AcceptedPrefix, AsksNothingNew, SameView, WriteRelay, Judge;
    ServeWrites(st, slave, pdu);
    var e := EffectOf(pdu);
    if ReachesRelay(st, slave, e) {
      PrefixSame(st, e.table, e.address, e.values);
      assert Serve(st, slave, pdu).state == Write(st, e.table, slave, e.address, e.values).state;
    } else {
      SameAsItself(st);
      if e.WriteEffect? && e.address + |e.values| <= 65536 {
        BitPrefixFull(e.values);
      }
    }
  }

  lemma SameAsItself(st: State)
    ensures SameView(st, st)
  {
  }

  /** A strict write to the relay changes no cell exactly if every entry it applies asks for nothing new. */
  lemma PrefixSame(st: State, table: Table, address: u16, values: seq<u16>)
    requires st.strict && st.relay.Some? && (table == Coil || table == Holding)
    requires values != [] && address + |values| <= 65536
    ensures SameView(Write(st, table, st.relay.value.slave, address, values).state, st) <==>
            forall i | 0 <= i < AcceptedPrefix(st.relay.value, table, address, values) ::
              AsksNothingNew(st, table, address, values, i)
  {
    hide Cell, Asked, Judge, AcceptedPrefix, Wrap, ChannelOf, Write;
    var spec := st.relay.value;
    var n := AcceptedPrefix(spec, table, address, values);
    var after := Write(st, table, spec.slave, address, values).state;
    RelayWriteMeans(st, table, address, values);
    if SameView(after, st) {
      forall i: nat | i < n
        ensures AsksNothingNew(st, table, address, values, i)
      {
        var v := Judge(spec, table, address + i, values[i]);
        AskedMeans(spec, table, address, values[..n], v.channel, v.on);
        assert Judge(spec, table, address + i, values[..n][i]) == Switch(v.channel, v.on);
        WrapBack(spec.coilStart, v.channel);
        WrapBack(spec.holdingStart, v.channel);
        assert Cell(after, spec.slave, Coil, Wrap(spec.coilStart, v.channel))
            == Cell(st, spec.slave, Coil, Wrap(spec.coilStart, v.channel));
        assert Cell(after, spec.slave, Holding, Wrap(spec.holdingStart, v.channel))
            == Cell(st, spec.slave, Holding, Wrap(spec.holdingStart, v.channel));
      }
    }
    if forall i: nat | i < n :: AsksNothingNew(st, table, address, values, i) {
      forall s: byte, t: Table, a: u16
        ensures Cell(after, s, t, a) == Cell(st, s, t, a)
      {
        if s == spec.slave && (t == Coil || t == Holding) {
          var start := if t == Coil then spec.coilStart else spec.holdingStart;
          var k := ChannelOf(start, a);
          WrapOfChannel(start, a);
          var asked := Asked(spec, table, address, values[..n], k);
          if asked.Some? {
            AskedMeans(spec, table, address, values[..n], k, asked.value);
            var i :| 0 <= i < n && Judge(spec, table, address + i, values[..n][i]) == Switch(k, asked.value);
            assert AsksNothingNew(st, table, address, values, i);
          }
        }
      }
    }
  }

  /** And the partial write does happen: on a strict store with a relay of eight channels, all off, a request to set the
      first channel's holding register to on and the second's to a value that is neither is answered with an exception
      after the first channel has been switched on. */
  lemma StrictExceptionCanChange()
    ensures var st := EnableRelay(State(map[], true, None), LAB_RELAY).state;
            var reply := Serve(st, 5, [16, 0, 1, 0, 2, 4, 1, 0, 0, 7]);
            && st.strict && reply.failed
            && Cell(st, 5, Holding, 1) == Some(512) && Cell(reply.state, 5, Holding, 1) == Some(256)
  {
    hide Cell, EnableRelay, Serve, Write, Asked, AcceptedPrefix;
    var pdu: seq<byte> := [16, 0, 1, 0, 2, 4, 1, 0, 0, 7];
    var st0 := State(map[], true, None);
    var st := EnableRelay(st0, LAB_RELAY).state;
    EnableMeans(st0, LAB_RELAY);
    WitnessEffect(pdu);
    ServeWrites(st, 5, pdu);
    var values: seq<u16> := [256, 7];
    RelayWriteMeans(st, Holding, 1, values);
    var n := AcceptedPrefix(LAB_RELAY, Holding, 1, values);
    assert Judge(LAB_RELAY, Holding, 1 + 0, values[0]) == Switch(0, true);
    assert Judge(LAB_RELAY, Holding, 1 + 1, values[1]) == Reject(RelayValue);
    assert n == 1;
    AskedMeans(LAB_RELAY, Holding, 1, values[..1], 0, true);
    assert Judge(LAB_RELAY, Holding, 1 + 0, values[..1][0]) == Switch(0, true);
  }

  lemma WitnessEffect(pdu: seq<byte>)
    requires pdu == [16, 0, 1, 0, 2, 4, 1, 0, 0, 7]
    ensures EffectOf(pdu) == WriteEffect(Holding, 1, [256, 7])
  {
    assert WordAt(pdu, 1) == 1 && WordAt(pdu, 3) == 2;
    assert RegistersAt(pdu[6..], 2) == [256, 7];
  }

  // ---- Invariants under arbitrary PDUs ----

  lemma ServeKeepsMirror(st: State, slave: byte, pdu: seq<byte>)
    requires Mirrored(st)
    ensures Mirrored(Serve(st, slave, pdu).state)
  {
    hide Serve, EffectOf, Write;
    ServeWrites(st, slave, pdu);
    var e := EffectOf(pdu);
    if e.WriteEffect? {
      WriteKeepsMirror(st, e.table, slave, e.address, e.values);
    }
  }

  lemma ServeKeepsBits(st: State, slave: byte, pdu: seq<byte>)
    requires BitsOnly(st)
    ensures BitsOnly(Serve(st, slave, pdu).state)
  {
    hide Serve, EffectOf, Write;
    ServeWrites(st, slave, pdu);
    var e := EffectOf(pdu);
    if e.WriteEffect? {
      WriteKeepsBits(st, e.table, slave, e.address, e.values);
    }
  }

  /** No PDU unmaps a cell or changes the mode. */
  lemma ServeKeepsMapped(st: State, slave: byte, pdu: seq<byte>, s: byte, t: Table, a: u16)
    ensures Cell(st, s, t, a).Some? ==> Cell(Serve(st, slave, pdu).state, s, t, a).Some?
    ensures Serve(st, slave, pdu).state.strict == st.strict
  {
    hide Serve, EffectOf, Write, Cell;
    ServeWrites(st, slave, pdu);
    var e := EffectOf(pdu);
    if e.WriteEffect? {
      WriteKeepsMapped(st, e.table, slave, e.address, e.values, s, t, a);
    }
  }

  /** Input and discrete cells are read-only to the protocol: no PDU changes any of them, of any slave. */
  lemma ServeSparesInputs(st: State, slave: byte, pdu: seq<byte>, s: byte, t: Table, a: u16)
    requires t == Input || t == Discrete
    ensures Cell(Serve(st, slave, pdu).state, s, t, a) == Cell(st, s, t, a)
  {
    hide Serve, EffectOf, Write, Cell;
    ServeWrites(st, slave, pdu);
    var e := EffectOf(pdu);
    if e.WriteEffect? {
      WriteSparesInputs(st, e.table, slave, e.address, e.values, s, t, a);
    }
  }

  // ---- Canonical requests ----

  /** The request a PDU stands for. */
  function Canonical(slave: byte, pdu: seq<byte>): Request
    requires |pdu| >= 5 && Supported(pdu[0])
  {
    var fc, address, word := pdu[0], WordAt(pdu, 1), WordAt(pdu, 3);
    if fc <= 4 then Request(slave, fc, address, word, 0, [])
    else if fc == 5 then Request(slave, fc, address, 0, if word == COIL_ON then 1 else 0, [])
    else if fc == 6 then Request(slave, fc, address, 0, word, [])
    else if fc == 15 then
      Request(slave, fc, address, 0, 0, if GoodPayload(pdu, 1968, ByteCount) then Unpacked(pdu[6..], word) else [])
    else
      Request(slave, fc, address, 0, 0, if GoodPayload(pdu, 123, n => 2 * n) then RegistersAt(pdu[6..], word) else [])
  }

  /** A PDU that is answered without an exception, by some store in either mode, stands for a valid request. */
  lemma AnsweredIsValid(st: State, slave: byte, pdu: seq<byte>)
    requires 1 <= slave <= 247 && !Serve(st, slave, pdu).failed
    ensures |pdu| >= 5 && Supported(pdu[0])
    ensures Valid(Canonical(slave, pdu))
  {
    hide Word, Unpacked, RegistersAt, ReadReply, Switched, PutCells, Bit;
  }

  lemma EffectOfRequest(req: Request)
    requires Valid(req) && req.fc > 4
    ensures EffectOf(Pdu(req)) == WriteEffect(WrittenTable(req.fc), req.address, Written(req))
  {
    hide Pdu, Bit, Word, PackedByte, Hi, Lo;
    PduHead(req);
    if req.fc == 15 {
      UnpackPacked(req.values, []);
      assert Packed(req.values) + [] == Packed(req.values);
    } else if req.fc == 16 {
      RegistersRoundTrip(req.values, []);
      assert Registers(req.values) + [] == Registers(req.values);
    }
  }

  /** What a supported PDU of at least five bytes is answered with, once its effect is known. */
  lemma ServeByEffect(st: State, slave: byte, pdu: seq<byte>)
    requires EffectOf(pdu).WriteEffect?
    ensures var e := EffectOf(pdu);
            Serve(st, slave, pdu) == WriteReply(st, e.table, slave, e.address, e.values, pdu[0], pdu[..5])
  {
    hide Word, Write, Unpacked, RegistersAt;
  }

  /** Canonical form: a PDU answered without an exception is, to every store in every state, the same as the PDU of
      one valid request: same reply, same store afterwards. Trailing bytes and padding bits carry no meaning. */
  lemma CanonicalForm(st: State, slave: byte, pdu: seq<byte>, other: State)
    requires 1 <= slave <= 247 && !Serve(st, slave, pdu).failed
    ensures |pdu| >= 5 && Supported(pdu[0]) && Valid(Canonical(slave, pdu))
    ensures Serve(other, slave, pdu) == Serve(other, slave, Pdu(Canonical(slave, pdu)))
  {
    AnsweredIsValid(st, slave, pdu);
    var req := Canonical(slave, pdu);
    if pdu[0] <= 4 {
      CanonicalRead(slave, pdu, other);
    } else {
      CanonicalWrite(st, slave, pdu);
      EffectOfRequest(req);
      ServeByEffect(other, slave, pdu);
      ServeByEffect(other, slave, Pdu(req));
    }
  }

  lemma CanonicalRead(slave: byte, pdu: seq<byte>, st: State)
    requires |pdu| >= 5 && 1 <= pdu[0] <= 4 && Valid(Canonical(slave, pdu))
    ensures Serve(st, slave, pdu) == Serve(st, slave, Pdu(Canonical(slave, pdu)))
  {
    hide Read, Word, ReadReply, Pdu;
    PduHead(Canonical(slave, pdu));
  }

  lemma CanonicalWrite(st: State, slave: byte, pdu: seq<byte>)
    requires |pdu| >= 5 && pdu[0] > 4 && Supported(pdu[0])
    requires Valid(Canonical(slave, pdu)) && !Serve(st, slave, pdu).failed
    ensures var req := Canonical(slave, pdu);
            && EffectOf(pdu) == WriteEffect(WrittenTable(req.fc), req.address, Written(req))
            && Pdu(req)[0] == pdu[0] && Pdu(req)[..5] == pdu[..5]
  {
    hide Write, Word, Unpacked, RegistersAt, Pdu, Bit, BigEndian;
    var req := Canonical(slave, pdu);
    PduHead(req);
    HeadIsEcho(pdu);
    HeadIsEcho(Pdu(req));
  }
}
