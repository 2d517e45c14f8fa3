/** What the store operations mean, cell by cell.

    A cell is a (slave, table, address) triple; it is mapped to a value or unmapped. This total view is all that
    the operations are said to depend on and to change: which banks happen to exist is not part of it. */
module StoreTheory {
  import opened Words
  import opened StoreModel

  function Cell(st: State, slave: byte, table: Table, a: u16): Option<u16> {
    if slave in st.slaves && IsTable(table) && a in BankFor(st.slaves[slave], table).value then
      Some(BankFor(st.slaves[slave], table).value[a])
    else
      None
  }

  /** What a non-strict read shows of a cell. */
  function Shown(cell: Option<u16>): u16 {
    if cell.Some? then cell.value else 0
  }

  ghost predicate AllMapped(st: State, slave: byte, table: Table, address: u16, quantity: u16) {
    forall a: u16 | address <= a < address + quantity :: Cell(st, slave, table, a).Some?
  }

  /** Two stores with the same cells, mode and relay, whatever banks they have created. */
  ghost predicate SameView(s: State, t: State) {
    && s.strict == t.strict
    && s.relay == t.relay
    && forall slave: byte, table: Table, a: u16 :: Cell(s, slave, table, a) == Cell(t, slave, table, a)
  }

  // ---- Read ----

  /** A read of one of the four tables succeeds exactly when its arguments are in range and, in strict mode, every
      cell is mapped; it returns the cells, 0 standing for an unmapped one. */
  lemma ReadMeans(st: State, table: Table, slave: byte, address: u16, quantity: u16)
    requires IsTable(table)
    ensures match Read(st, table, slave, address, quantity)
            case Values(v) =>
              && 1 <= slave <= 247 && quantity >= 1 && address + quantity <= 65536
              && (st.strict ==> AllMapped(st, slave, table, address, quantity))
              && |v| == quantity
              && forall i | 0 <= i < quantity :: v[i] == Shown(Cell(st, slave, table, address + i))
            case ReadRefused(e) =>
              if slave < 1 || slave > 247 || quantity < 1 then e == InvalidSlave
              else if address + quantity > 65536 then e == RangeExceeded
              else e == NotMapped && st.strict && !AllMapped(st, slave, table, address, quantity)
  {
    if 1 <= slave <= 247 && quantity >= 1 && address + quantity <= 65536 {
      assert address <= address < address + quantity;
      if slave !in st.slaves {
        assert !Cell(st, slave, table, address).Some?;
      } else {
        var bank := BankFor(st.slaves[slave], table).value;
        assert forall a: u16 :: Cell(st, slave, table, a).Some? <==> a in bank;
        assert forall a: u16 :: Shown(Cell(st, slave, table, a)) == Get(bank, a);
      }
    }
  }

  lemma ReadRespectsView(s: State, t: State, table: Table, slave: byte, address: u16, quantity: u16)
    requires IsTable(table) && SameView(s, t)
    ensures Read(s, table, slave, address, quantity) == Read(t, table, slave, address, quantity)
  {
    hide Read, Cell;
    ReadMeans(s, table, slave, address, quantity);
    ReadMeans(t, table, slave, address, quantity);
    var r, q := Read(s, table, slave, address, quantity), Read(t, table, slave, address, quantity);
    if r.Values? && q.Values? {
      assert r.values == q.values;
    }
  }

  /** The one read that does see whether banks exist is of a table that is none of the four. */
  lemma OtherTableSeesBanks(st: State, name: string, slave: byte, address: u16, quantity: u16)
    requires !st.strict && 1 <= slave <= 247 && quantity >= 1 && address + quantity <= 65536
    ensures Read(st, Other(name), slave, address, quantity).Values? <==> slave !in st.slaves
    ensures SameView(st, Ensure(st, slave))
    ensures Read(Ensure(st, slave), Other(name), slave, address, quantity) == ReadRefused(InvalidTable)
  {
  }

  // ---- Set and plain Write ----

  /** Nothing is held back exactly when every value is a bit. */
  lemma BitPrefixFull(values: seq<u16>)
    ensures BitPrefix(values) == |values| <==> forall i | 0 <= i < |values| :: values[i] <= 1
  {
    var n := BitPrefix(values);
    if n < |values| {
      assert values[n] > 1;
    }
  }

  lemma CellAfterPut(st: State, slave: byte, table: Table, address: u16, values: seq<u16>, s: byte, t: Table, a: u16)
    requires IsTable(table) && address + |values| <= 65536
    ensures Cell(PutCells(Ensure(st, slave), slave, table, address, values), s, t, a) ==
            if s == slave && t == table && address <= a < address + |values| then Some(values[a - address])
            else Cell(st, s, t, a)
  {
  }

  /** How many of the values Set stores: all of them, or those before the first a bit table cannot hold. */
  function SetCount(table: Table, slave: byte, address: u16, values: seq<u16>): (n: nat)
    ensures n <= |values|
  {
    if slave < 1 || slave > 247 || address + |values| > 65536 || !IsTable(table) then 0
    else if IsBits(table) then BitPrefix(values)
    else |values|
  }

  /** Set stores exactly that prefix, reports an error exactly when it is not everything, and leaves every other
      cell, the mode and the relay alone. */
  lemma SetMeans(st: State, table: Table, slave: byte, address: u16, values: seq<u16>)
    ensures var r, n := Set(st, table, slave, address, values), SetCount(table, slave, address, values);
            && (r.error == None <==> values != [] && n == |values|)
            && r.state.strict == st.strict && r.state.relay == st.relay
            && forall s: byte, t: Table, a: u16 ::
              Cell(r.state, s, t, a) ==
                if s == slave && t == table && address <= a < address + n then Some(values[a - address])
                else Cell(st, s, t, a)
  {
    hide Cell, BitPrefix;
    var n := SetCount(table, slave, address, values);
    forall s: byte, t: Table, a: u16
      ensures Cell(Set(st, table, slave, address, values).state, s, t, a) ==
              if s == slave && t == table && address <= a < address + n then Some(values[a - address])
              else Cell(st, s, t, a)
    {
      CellAfterEnsure(st, slave, s, t, a);
      if IsTable(table) && address + |values| <= 65536 {
        CellAfterPut(st, slave, table, address, values[..n], s, t, a);
      }
    }
  }

  lemma CellAfterEnsure(st: State, slave: byte, s: byte, t: Table, a: u16)
    ensures Cell(Ensure(st, slave), s, t, a) == Cell(st, s, t, a)
  {
  }

  /** A write that is not to the relay slave. */
  predicate IsPlain(st: State, slave: byte) {
    st.relay.Some? ==> st.relay.value.slave != slave
  }

  /** How many of the values a plain Write stores. The slave id is not looked at. */
  function WriteCount(table: Table, address: u16, values: seq<u16>): (n: nat)
    ensures n <= |values|
  {
    if (table != Holding && table != Coil) || address + |values| > 65536 then 0
    else if table == Coil then BitPrefix(values)
    else |values|
  }

  lemma PlainWriteMeans(st: State, table: Table, slave: byte, address: u16, values: seq<u16>)
    requires IsPlain(st, slave)
    ensures var r, n := Write(st, table, slave, address, values), WriteCount(table, address, values);
            && (r.error == None <==> values != [] && n == |values|)
            && r.state.strict == st.strict && r.state.relay == st.relay
            && forall s: byte, t: Table, a: u16 ::
              Cell(r.state, s, t, a) ==
                if s == slave && t == table && address <= a < address + n then Some(values[a - address])
                else Cell(st, s, t, a)
  {
    hide Cell, BitPrefix;
    var n := WriteCount(table, address, values);
    forall s: byte, t: Table, a: u16
      ensures Cell(Write(st, table, slave, address, values).state, s, t, a) ==
              if s == slave && t == table && address <= a < address + n then Some(values[a - address])
              else Cell(st, s, t, a)
    {
      if IsTable(table) && address + |values| <= 65536 {
        CellAfterPut(st, slave, table, address, values[..n], s, t, a);
      }
    }
  }

  /** What Set refuses, and as what: the first thing wrong. */
  lemma SetRefusals(st: State, table: Table, slave: byte, address: u16, values: seq<u16>)
    ensures var e := Set(st, table, slave, address, values).error;
            var addressed := 1 <= slave <= 247 && values != [];
            var fits := addressed && address + |values| <= 65536;
            && (e == Some(InvalidSlave) <==> !addressed)
            && (e == Some(RangeExceeded) <==> addressed && address + |values| > 65536)
            && (e == Some(InvalidTable) <==> fits && table.Other?)
            && (e == Some(BadBit) <==> fits && (table == Coil || table == Discrete) && exists i | 0 <= i < |values| :: values[i] > 1)
            && (e.Some? ==> e.value in {InvalidSlave, RangeExceeded, InvalidTable, BadBit})
  {
    hide PutCells, BitPrefix, Ensure;
    BitPrefixFull(values);
  }

  /** What Write refuses, and as what; on the relay, as what is wrong with the first entry it refuses, in strict mode only. */
  lemma WriteRefusals(st: State, table: Table, slave: byte, address: u16, values: seq<u16>)
    ensures var e := Write(st, table, slave, address, values).error;
            var writable := table == Holding || table == Coil;
            var fits := writable && values != [] && address + |values| <= 65536;
            && (e == Some(NotWritable) <==> !writable)
            && (e == Some(ValuesRequired) <==> writable && values == [])
            && (e == Some(RangeExceeded) <==> writable && values != [] && address + |values| > 65536)
            && (e == Some(BadBit) <==>
                fits && IsPlain(st, slave) && table == Coil && exists i | 0 <= i < |values| :: values[i] > 1)
            && (e == Some(RelayAddress) || e == Some(RelayValue) ==>
                && fits && !IsPlain(st, slave) && st.strict
                && exists n | 0 <= n < |values| ::
                     && Judge(st.relay.value, table, address + n, values[n]) == Reject(e.value)
                     && forall i | 0 <= i < n :: Judge(st.relay.value, table, address + i, values[i]).Switch?)
            && (e.Some? ==> e.value in {NotWritable, ValuesRequired, RangeExceeded, BadBit, RelayAddress, RelayValue})
  {
    hide PutCells, BitPrefix, Ensure, Judge, WriteRelay;
    BitPrefixFull(values);
    if (table == Holding || table == Coil) && values != [] && address + |values| <= 65536 && !IsPlain(st, slave) {
      RelayRefusal(st, table, address, values);
    }
  }

  lemma RelayRefusal(st: State, table: Table, address: u16, values: seq<u16>)
    requires st.relay.Some? && (table == Coil || table == Holding)
    requires values != [] && address + |values| <= 65536
    ensures var e, n := Write(st, table, st.relay.value.slave, address, values).error, EntryCount(st, table, address, values);
            if n == |values| then e == None
            else
              && st.strict && e.Some? && (e.value == RelayAddress || e.value == RelayValue)
              && Judge(st.relay.value, table, address + n, values[n]) == Reject(e.value)
              && forall i | 0 <= i < n :: Judge(st.relay.value, table, address + i, values[i]).Switch?
  {
    hide Switched, Judge, AcceptedPrefix;
    var n := EntryCount(st, table, address, values);
    if n < |values| {
      JudgeMeans(st.relay.value, table, address + n, values[n]);
    }
  }

  // ---- Write to the relay slave ----

  /** How many entries a relay write looks at: in strict mode it stops at the first the relay refuses. */
  function EntryCount(st: State, table: Table, address: u16, values: seq<u16>): (n: nat)
    requires st.relay.Some?
    requires table == Coil || table == Holding
    requires address + |values| <= 65536
    ensures n <= |values|
  {
    if st.strict then AcceptedPrefix(st.relay.value, table, address, values) else |values|
  }

  /** The cell of the relay slave after each entry that asks for its channel has been applied to both views. */
  function RelayCell(st: State, table: Table, address: u16, values: seq<u16>, t: Table, a: u16): Option<u16>
    requires st.relay.Some?
    requires table == Coil || table == Holding
    requires address + |values| <= 65536
  {
    var spec := st.relay.value;
    match t
    case Coil =>
      (match Asked(spec, table, address, values, ChannelOf(spec.coilStart, a))
       case Some(on) => Some(if on then spec.coilOn else spec.coilOff)
       case None => Cell(st, spec.slave, t, a))
    case Holding =>
      (match Asked(spec, table, address, values, ChannelOf(spec.holdingStart, a))
       case Some(on) => Some(if on then spec.holdingOn else spec.holdingOff)
       case None => Cell(st, spec.slave, t, a))
    case _ => Cell(st, spec.slave, t, a)
  }

  lemma RelayWriteMeans(st: State, table: Table, address: u16, values: seq<u16>)
    requires st.relay.Some?
    requires table == Coil || table == Holding
    requires values != [] && address + |values| <= 65536
    ensures var spec := st.relay.value;
            var r, n := Write(st, table, spec.slave, address, values), EntryCount(st, table, address, values);
            && (r.error == None <==> n == |values|)
            && r.state.strict == st.strict && r.state.relay == st.relay
            && forall s: byte, t: Table, a: u16 ::
              Cell(r.state, s, t, a) ==
                if s == spec.slave then RelayCell(st, table, address, values[..n], t, a) else Cell(st, s, t, a)
  {
    hide Asked, AcceptedPrefix, Judge, Cell, Switched, RelayCell;
    var spec := st.relay.value;
    var st1, n := Ensure(st, spec.slave), EntryCount(st, table, address, values);
    assert Write(st, table, spec.slave, address, values) == WriteRelay(st1, spec, table, address, values);
    forall s: byte, t: Table, a: u16
      ensures Cell(Write(st, table, spec.slave, address, values).state, s, t, a) ==
              if s == spec.slave then RelayCell(st, table, address, values[..n], t, a) else Cell(st, s, t, a)
    {
      CellAfterSwitched(st, table, address, values[..n], s, t, a);
    }
  }

  lemma CellAfterSwitched(st: State, table: Table, address: u16, values: seq<u16>, s: byte, t: Table, a: u16)
    requires st.relay.Some?
    requires table == Coil || table == Holding
    requires address + |values| <= 65536
    ensures var st1, spec := Ensure(st, st.relay.value.slave), st.relay.value;
            Cell(st1.(slaves := st1.slaves[spec.slave := Switched(st1.slaves[spec.slave], spec, table, address, values)]),
                 s, t, a) ==
              if s == spec.slave then RelayCell(st, table, address, values, t, a) else Cell(st, s, t, a)
  {
    hide Asked, ChannelOf;
  }

  /** What an entry must be for the relay to act on it: its address lies in the window of its own table, and the
      window ends below 65536, for an upper bound that wraps closes the window; and its value is the on or the off
      value of that table. */
  lemma JudgeMeans(spec: RelaySpec, table: Table, address: u16, raw: u16)
    requires table == Coil || table == Holding
    ensures var start := if table == Coil then spec.coilStart else spec.holdingStart;
            var on := if table == Coil then spec.coilOn else spec.holdingOn;
            var off := if table == Coil then spec.coilOff else spec.holdingOff;
            && (Judge(spec, table, address, raw).Switch? <==>
                && start + spec.count <= 65535
                && start <= address < start + spec.count
                && (raw == on || raw == off))
            && (Judge(spec, table, address, raw).Switch? ==>
                Judge(spec, table, address, raw) == Switch(address - start, raw == on))
            && (Judge(spec, table, address, raw) == Reject(RelayAddress) <==>
                !(start + spec.count <= 65535 && start <= address < start + spec.count))
            && (Judge(spec, table, address, raw).Reject? ==> Judge(spec, table, address, raw).error in {RelayAddress, RelayValue})
  {
  }

  /** A channel is asked for exactly when some entry addresses it and is acceptable. */
  lemma AskedMeans(spec: RelaySpec, table: Table, address: u16, values: seq<u16>, k: u16, on: bool)
    requires table == Coil || table == Holding
    requires address + |values| <= 65536
    ensures Asked(spec, table, address, values, k) == Some(on) <==>
            exists i | 0 <= i < |values| :: Judge(spec, table, address + i, values[i]) == Switch(k, on)
  {
    var start := if table == Coil then spec.coilStart else spec.holdingStart;
    if Asked(spec, table, address, values, k) == Some(on) {
      var i := start + k - address;
      assert Judge(spec, table, address + i, values[i]) == Switch(k, on);
    }
  }

  // ---- Refinement of the total view ----

  /** Every operation does the same to stores with the same view: it returns the same error and leaves stores with
      the same view again. Banks created on the way are never seen. */
  lemma SetRespectsView(s: State, t: State, table: Table, slave: byte, address: u16, values: seq<u16>)
    requires SameView(s, t)
    ensures SameView(Set(s, table, slave, address, values).state, Set(t, table, slave, address, values).state)
    ensures Set(s, table, slave, address, values).error == Set(t, table, slave, address, values).error
  {
    hide Cell, PutCells, BitPrefix, SetCount;
    SetMeans(s, table, slave, address, values);
    SetMeans(t, table, slave, address, values);
  }

  lemma WriteRespectsView(s: State, t: State, table: Table, slave: byte, address: u16, values: seq<u16>)
    requires SameView(s, t)
    ensures SameView(Write(s, table, slave, address, values).state, Write(t, table, slave, address, values).state)
    ensures Write(s, table, slave, address, values).error == Write(t, table, slave, address, values).error
  {
    hide Cell, PutCells, BitPrefix, Asked, AcceptedPrefix, Judge, Switched;
    if IsPlain(s, slave) {
      PlainWriteMeans(s, table, slave, address, values);
      PlainWriteMeans(t, table, slave, address, values);
    } else if (table == Holding || table == Coil) && values != [] && address + |values| <= 65536 {
      RelayWriteMeans(s, table, address, values);
      RelayWriteMeans(t, table, address, values);
    }
  }

  lemma EnableMeans(st: State, spec: RelaySpec)
    requires ValidRelay(spec)
    ensures var r := EnableRelay(st, spec);
            && r.error == None && r.state.strict == st.strict && r.state.relay == Some(spec)
            && forall s: byte, t: Table, a: u16 ::
              Cell(r.state, s, t, a) ==
                if s == spec.slave && t == Coil && ChannelOf(spec.coilStart, a) < spec.count then Some(spec.coilOff)
                else if s == spec.slave && t == Holding && ChannelOf(spec.holdingStart, a) < spec.count then
                  Some(spec.holdingOff)
                else Cell(st, s, t, a)
  {
    hide ChannelOf;
  }

  /** A relay is accepted exactly if it has a slave that can be read and 1 to 64 channels; otherwise nothing changes. */
  lemma EnableSucceeds(st: State, spec: RelaySpec)
    ensures EnableRelay(st, spec).error == None <==> 1 <= spec.slave <= 247 && 1 <= spec.count <= 64
    ensures EnableRelay(st, spec).error.Some? ==> EnableRelay(st, spec) == Outcome(st, Some(InvalidRelay))
  {
    hide Ensure, OffView;
  }

  lemma EnableRespectsView(s: State, t: State, spec: RelaySpec)
    requires SameView(s, t)
    ensures SameView(EnableRelay(s, spec).state, EnableRelay(t, spec).state)
    ensures EnableRelay(s, spec).error == EnableRelay(t, spec).error
  {
    hide Cell, ChannelOf, OffView;
    if ValidRelay(spec) {
      EnableMeans(s, spec);
      EnableMeans(t, spec);
    }
  }

  /** Entry i of a write is stored: the relay acts on it, or, off the relay, its table can hold it. */
  predicate Taken(st: State, table: Table, slave: byte, address: u16, values: seq<u16>, i: nat)
    requires (table == Coil || table == Holding) && i < |values| && address + |values| <= 65536
  {
    if IsPlain(st, slave) then table == Coil ==> values[i] <= 1
    else Judge(st.relay.value, table, address + i, values[i]).Switch?
  }

  /** When a write in range succeeds: if every entry is taken; or else only on the relay in non-strict mode, which skips
      the others. */
  lemma WriteSucceeds(st: State, table: Table, slave: byte, address: u16, values: seq<u16>)
    requires (table == Coil || table == Holding) && values != [] && address + |values| <= 65536
    ensures Write(st, table, slave, address, values).error == None <==>
            || (forall i | 0 <= i < |values| :: Taken(st, table, slave, address, values, i))
            || (!IsPlain(st, slave) && !st.strict)
  {
    hide Cell, Judge, Write;
    if IsPlain(st, slave) {
      PlainWriteMeans(st, table, slave, address, values);
      BitPrefixFull(values);
      var n := BitPrefix(values);
      if table == Coil && n < |values| {
        assert !Taken(st, table, slave, address, values, n);
      }
    } else {
      RelayWriteMeans(st, table, address, values);
      var n := AcceptedPrefix(st.relay.value, table, address, values);
      assert n < |values| ==> !Taken(st, table, slave, address, values, n);
    }
  }

  /** The cell an entry of a successful write addresses then holds the entry, if it was taken, and otherwise what it held
      before. */
  lemma EntryStored(st: State, table: Table, slave: byte, address: u16, values: seq<u16>, i: nat)
    requires (table == Coil || table == Holding) && i < |values| && address + |values| <= 65536
    requires Write(st, table, slave, address, values).error == None
    ensures Cell(Write(st, table, slave, address, values).state, slave, table, address + i) ==
            if Taken(st, table, slave, address, values, i) then Some(values[i]) else Cell(st, slave, table, address + i)
  {
    hide Cell, Asked, Judge, Write, BitPrefix, ChannelOf;
    if IsPlain(st, slave) {
      PlainWriteMeans(st, table, slave, address, values);
      BitPrefixFull(values);
    } else {
      var spec := st.relay.value;
      RelayWriteMeans(st, table, address, values);
      assert values[..|values|] == values;
      AskedByEntry(spec, table, address, values, i);
    }
  }

  /** The channel behind the cell that entry i addresses is asked for by entry i or by none. */
  lemma AskedByEntry(spec: RelaySpec, table: Table, address: u16, values: seq<u16>, i: nat)
    requires (table == Coil || table == Holding) && i < |values| && address + |values| <= 65536
    ensures var start := if table == Coil then spec.coilStart else spec.holdingStart;
            var v := Judge(spec, table, address + i, values[i]);
            Asked(spec, table, address, values, ChannelOf(start, address + i)) == if v.Switch? then Some(v.on) else None
    ensures var v := Judge(spec, table, address + i, values[i]);
            v.Switch? ==> values[i] == if table == Coil then (if v.on then spec.coilOn else spec.coilOff)
                                       else (if v.on then spec.holdingOn else spec.holdingOff)
  {
  }

  /** Read-after-write on any slave, the relay included: after a write that succeeded, a read of the same range succeeds,
      in strict mode too, and shows every entry that was taken, and for the others what was there before. */
  lemma ReadBack(st: State, table: Table, slave: byte, address: u16, values: seq<u16>)
    requires (table == Coil || table == Holding) && |values| < 65536 && 1 <= slave <= 247
    requires Write(st, table, slave, address, values).error == None
    ensures address + |values| <= 65536
    ensures match Read(Write(st, table, slave, address, values).state, table, slave, address, |values|)
            case Values(v) =>
              && |v| == |values|
              && forall i | 0 <= i < |values| ::
                v[i] == if Taken(st, table, slave, address, values, i) then values[i]
                        else Shown(Cell(st, slave, table, address + i))
            case ReadRefused(_) => false
  {
    hide Cell, Read, Write, Taken;
    var after := Write(st, table, slave, address, values).state;
    WriteInRange(st, table, slave, address, values);
    WriteKeepsMode(st, table, slave, address, values);
    WriteSucceeds(st, table, slave, address, values);
    ReadMeans(after, table, slave, address, |values|);
    if st.strict {
      forall a: u16 | address <= a < address + |values|
        ensures Cell(after, slave, table, a).Some?
      {
        assert Taken(st, table, slave, address, values, a - address);
        EntryStored(st, table, slave, address, values, a - address);
      }
    }
    forall i | 0 <= i < |values|
      ensures Cell(after, slave, table, address + i) ==
              if Taken(st, table, slave, address, values, i) then Some(values[i]) else Cell(st, slave, table, address + i)
    {
      EntryStored(st, table, slave, address, values, i);
    }
  }

  lemma WriteInRange(st: State, table: Table, slave: byte, address: u16, values: seq<u16>)
    requires Write(st, table, slave, address, values).error == None
    ensures values != [] && address + |values| <= 65536 && (table == Coil || table == Holding)
  {
  }

  lemma WriteKeepsMode(st: State, table: Table, slave: byte, address: u16, values: seq<u16>)
    ensures Write(st, table, slave, address, values).state.strict == st.strict
  {
  }

  /** A write to a slave id outside 1..247 is accepted by the store, and no read can see it. */
  lemma HiddenSlave(st: State, table: Table, slave: byte, address: u16, values: seq<u16>,
                    t: Table, s: byte, b: u16, q: u16)
    requires (slave < 1 || slave > 247) && IsPlain(st, slave) && IsTable(t)
    ensures Read(Write(st, table, slave, address, values).state, t, s, b, q) == Read(st, t, s, b, q)
    ensures Write(st, table, slave, address, values).error == None <==>
            values != [] && WriteCount(table, address, values) == |values|
  {
    hide Cell, Read, Write, BitPrefix, WriteCount;
    var after := Write(st, table, slave, address, values).state;
    PlainWriteMeans(st, table, slave, address, values);
    ReadMeans(after, t, s, b, q);
    ReadMeans(st, t, s, b, q);
    var r0, r1 := Read(st, t, s, b, q), Read(after, t, s, b, q);
    if r0.Values? && r1.Values? {
      assert r0.values == r1.values;
    }
  }
}
