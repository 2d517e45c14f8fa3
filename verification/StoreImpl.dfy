/** The register store as the program runs it: one object whose banks its methods change entry by entry. */
module StoreImpl {
  import opened Words
  import opened StoreModel

  class Store {
    var slaves: map<byte, Banks>
    var strict: bool
    var relay: Option<RelaySpec>

    /** The store as a value. */
    function View(): State
      reads this
    {
      State(slaves, strict, relay)
    }

    constructor (isStrict: bool)
      ensures View() == State(map[], isStrict, None)
    {
      slaves := map[];
      strict := isStrict;
      relay := None;
    }

    method EnsureSlave(slave: byte)
      modifies this`slaves
      ensures View() == Ensure(old(View()), slave)
      ensures slave in slaves
    {
      if slave !in slaves {
        slaves := slaves[slave := EMPTY_BANKS];
      }
    }

    method Read(table: Table, slave: byte, address: u16, quantity: u16) returns (r: ReadResult)
      ensures r == StoreModel.Read(View(), table, slave, address, quantity)
    {
      if slave < 1 || slave > 247 || quantity < 1 {
        return ReadRefused(InvalidSlave);
      }
      if address + quantity > 65536 {
        return ReadRefused(RangeExceeded);
      }
      if slave !in slaves {
        if strict {
          return ReadRefused(NotMapped);
        }
        return Values(seq(quantity, _ => 0));
      }
      var found := BankFor(slaves[slave], table);
      if found == None {
        return ReadRefused(InvalidTable);
      }
      var bank := found.value;
      var out := new u16[quantity];
      for i := 0 to quantity
        invariant strict ==> forall a: u16 | address <= a < address + i :: a in bank
        invariant forall k | 0 <= k < i :: out[k] == Get(bank, address + k)
      {
        if address + i !in bank && strict {
          return ReadRefused(NotMapped);
        }
        out[i] := Get(bank, address + i);
      }
      return Values(out[..]);
    }

    method Set(table: Table, slave: byte, address: u16, values: seq<u16>) returns (error: Option<StoreError>)
      modifies this`slaves
      ensures Outcome(View(), error) == StoreModel.Set(old(View()), table, slave, address, values)
    {
      if slave < 1 || slave > 247 || values == [] {
        return Some(InvalidSlave);
      }
      if address + |values| > 65536 {
        return Some(RangeExceeded);
      }
      EnsureSlave(slave);
      if !IsTable(table) {
        return Some(InvalidTable);
      }
      error := Fill(table, IsBits(table), slave, address, values);
    }

    /** The entry loop of Set and of a plain Write: it stops at the first value a bit table cannot hold, with the
        values before it already stored. */
    method Fill(table: Table, bits: bool, slave: byte, address: u16, values: seq<u16>)
      returns (error: Option<StoreError>)
      requires IsTable(table) && slave in slaves && address + |values| <= 65536
      modifies this`slaves
      ensures var n := if bits then BitPrefix(values) else |values|;
              Outcome(View(), error) == Outcome(PutCells(old(View()), slave, table, address, values[..n]),
                                                if n < |values| then Some(BadBit) else None)
    {
      hide PutCells, WithBank, BankFor;
      ghost var n := if bits then BitPrefix(values) else |values|;
      ghost var st := View();
      assert values[..0] == [];
      PutCellsNothing(st, slave, table, address);
      for i := 0 to |values|
        invariant i <= n
        invariant View() == PutCells(st, slave, table, address, values[..i])
        invariant slave in slaves
      {
        if bits && values[i] > 1 {
          return Some(BadBit);
        }
        PutCellsGrows(st, slave, table, address, values, i);
        var b := slaves[slave];
        slaves := slaves[slave := WithBank(b, table, BankFor(b, table).value[address + i := values[i]])];
      }
      assert values[..|values|] == values;
      return None;
    }

    method Write(table: Table, slave: byte, address: u16, values: seq<u16>) returns (error: Option<StoreError>)
      modifies this`slaves
      ensures Outcome(View(), error) == StoreModel.Write(old(View()), table, slave, address, values)
    {
      if table != Holding && table != Coil {
        return Some(NotWritable);
      }
      if values == [] {
        return Some(ValuesRequired);
      }
      if address + |values| > 65536 {
        return Some(RangeExceeded);
      }
      EnsureSlave(slave);
      if relay.Some? && relay.value.slave == slave {
        error := WriteEntries(table, address, values);
        return;
      }
      error := Fill(table, table == Coil, slave, address, values);
    }

    /** The relay's entry loop: a refused entry is skipped, or in strict mode ends the write. */
    method WriteEntries(table: Table, address: u16, values: seq<u16>) returns (error: Option<StoreError>)
      requires table == Coil || table == Holding
      requires relay.Some? && relay.value.slave in slaves && address + |values| <= 65536
      modifies this`slaves
      ensures Outcome(View(), error) == WriteRelay(old(View()), relay.value, table, address, values)
    {
      hide Switched, Judge, SwitchChannel, AcceptedPrefix;
      var spec := relay.value;
      ghost var b0 := slaves[spec.slave];
      ghost var n := if strict then AcceptedPrefix(spec, table, address, values) else |values|;
      SwitchedNothing(b0, spec, table, address);
      assert values[..0] == [];
      for i := 0 to |values|
        invariant i <= n
        invariant View() == old(View()).(slaves := old(slaves)[spec.slave := Switched(b0, spec, table, address, values[..i])])
        invariant spec.slave in slaves
      {
        SwitchedGrows(b0, spec, table, address, values, i);
        var refused := WriteOne(table, address + i, values[i]);
        if refused.Some? && strict {
          return refused;
        }
      }
      assert values[..|values|] == values;
      return None;
    }

    method WriteOne(table: Table, address: u16, raw: u16) returns (error: Option<StoreError>)
      requires table == Coil || table == Holding
      requires relay.Some? && relay.value.slave in slaves
      modifies this`slaves
      ensures match Judge(relay.value, table, address, raw)
              case Reject(e) => error == Some(e) && slaves == old(slaves)
              case Switch(k, on) =>
                && error == None
                && slaves == old(slaves)[relay.value.slave :=
                                         SwitchChannel(old(slaves)[relay.value.slave], relay.value, k, on)]
    {
      var spec := relay.value;
      var index: u16;
      var on: bool;
      if table == Coil {
        if address < spec.coilStart || address >= WindowEnd(spec.coilStart, spec.count) {
          return Some(RelayAddress);
        }
        if raw != spec.coilOn && raw != spec.coilOff {
          return Some(RelayValue);
        }
        index := address - spec.coilStart;
        on := raw == spec.coilOn;
      } else {
        if address < spec.holdingStart || address >= WindowEnd(spec.holdingStart, spec.count) {
          return Some(RelayAddress);
        }
        if raw != spec.holdingOn && raw != spec.holdingOff {
          return Some(RelayValue);
        }
        index := address - spec.holdingStart;
        on := raw == spec.holdingOn;
      }
      var b := slaves[spec.slave];
      var c, h := Wrap(spec.coilStart, index), Wrap(spec.holdingStart, index);
      if on {
        b := b.(coil := b.coil[c := spec.coilOn]);
        b := b.(holding := b.holding[h := spec.holdingOn]);
      } else {
        b := b.(coil := b.coil[c := spec.coilOff]);
        b := b.(holding := b.holding[h := spec.holdingOff]);
      }
      slaves := slaves[spec.slave := b];
      return None;
    }

    method EnableRelay(spec: RelaySpec) returns (error: Option<StoreError>)
      modifies this`slaves, this`relay
      ensures Outcome(View(), error) == StoreModel.EnableRelay(old(View()), spec)
    {
      if spec.slave < 1 || spec.slave > 247 || spec.count < 1 || spec.count > 64 {
        return Some(InvalidRelay);
      }
      relay := Some(spec);
      EnsureSlave(spec.slave);
      ghost var b0 := slaves[spec.slave];
      ghost var all := slaves;
      OffNothing(b0.coil, spec.coilStart, spec.coilOff);
      OffNothing(b0.holding, spec.holdingStart, spec.holdingOff);
      for i := 0 to spec.count
        invariant relay == Some(spec)
        invariant slaves == all[spec.slave := b0.(coil := OffView(b0.coil, spec.coilStart, i, spec.coilOff),
                                                  holding := OffView(b0.holding, spec.holdingStart, i, spec.holdingOff))]
      {
        OffGrows(b0.coil, spec.coilStart, i, spec.coilOff);
        OffGrows(b0.holding, spec.holdingStart, i, spec.holdingOff);
        var b := slaves[spec.slave];
        b := b.(coil := b.coil[Wrap(spec.coilStart, i) := spec.coilOff]);
        b := b.(holding := b.holding[Wrap(spec.holdingStart, i) := spec.holdingOff]);
        slaves := slaves[spec.slave := b];
      }
      return None;
    }
  }

  // ---- One more entry ----

  lemma PutNothing(bank: Bank, address: u16)
    ensures Put(bank, address, []) == bank
  {
  }

  lemma WithOwnBank(b: Banks, table: Table)
    requires IsTable(table)
    ensures WithBank(b, table, BankFor(b, table).value) == b
  {
  }

  lemma PutGrows(bank: Bank, address: u16, values: seq<u16>, i: nat)
    requires i < |values| && address + |values| <= 65536
    ensures Put(bank, address, values[..i + 1]) == Put(bank, address, values[..i])[address + i := values[i]]
  {
  }

  lemma PutCellsNothing(st: State, slave: byte, table: Table, address: u16)
    requires IsTable(table) && slave in st.slaves
    ensures PutCells(st, slave, table, address, []) == st
  {
    hide Put;
    PutNothing(BankFor(st.slaves[slave], table).value, address);
    WithOwnBank(st.slaves[slave], table);
  }

  lemma PutCellsGrows(st: State, slave: byte, table: Table, address: u16, values: seq<u16>, i: nat)
    requires IsTable(table) && slave in st.slaves && i < |values| && address + |values| <= 65536
    ensures var before := PutCells(st, slave, table, address, values[..i]);
            var b := before.slaves[slave];
            && BankFor(b, table).Some?
            && PutCells(st, slave, table, address, values[..i + 1]) ==
                 before.(slaves := before.slaves[slave :=
                   WithBank(b, table, BankFor(b, table).value[address + i := values[i]])])
  {
    hide Put;
    PutGrows(BankFor(st.slaves[slave], table).value, address, values, i);
  }

  lemma SwitchedNothing(b: Banks, spec: RelaySpec, table: Table, address: u16)
    requires table == Coil || table == Holding
    ensures Switched(b, spec, table, address, []) == b
  {
    assert SwitchedView(b.coil, spec.coilStart, spec.coilOn, spec.coilOff, spec, table, address, []) == b.coil;
    assert SwitchedView(b.holding, spec.holdingStart, spec.holdingOn, spec.holdingOff, spec, table, address, [])
        == b.holding;
  }

  /** The entries address different channels, so one more entry changes what is asked of one channel only. */
  lemma AskedGrows(spec: RelaySpec, table: Table, address: u16, values: seq<u16>, i: nat, k: u16)
    requires table == Coil || table == Holding
    requires i < |values| && address + |values| <= 65536
    ensures var verdict := Judge(spec, table, address + i, values[i]);
            Asked(spec, table, address, values[..i + 1], k) ==
              if verdict.Switch? && verdict.channel == k then Some(verdict.on)
              else Asked(spec, table, address, values[..i], k)
  {
  }

  lemma ChannelWraps(start: u16, a: u16, k: u16)
    ensures a == Wrap(start, k) <==> ChannelOf(start, a) == k
  {
  }

  lemma ViewGrows(view: Bank, start: u16, on: u16, off: u16, spec: RelaySpec, table: Table,
                  address: u16, values: seq<u16>, i: nat)
    requires table == Coil || table == Holding
    requires i < |values| && address + |values| <= 65536
    ensures var before := SwitchedView(view, start, on, off, spec, table, address, values[..i]);
            SwitchedView(view, start, on, off, spec, table, address, values[..i + 1]) ==
              match Judge(spec, table, address + i, values[i])
              case Reject(_) => before
              case Switch(k, isOn) => before[Wrap(start, k) := if isOn then on else off]
  {
    hide Asked, Judge, ChannelOf, Wrap;
    forall a: u16
      ensures var verdict := Judge(spec, table, address + i, values[i]);
              Asked(spec, table, address, values[..i + 1], ChannelOf(start, a)) ==
                if verdict.Switch? && a == Wrap(start, verdict.channel) then Some(verdict.on)
                else Asked(spec, table, address, values[..i], ChannelOf(start, a))
    {
      AskedGrows(spec, table, address, values, i, ChannelOf(start, a));
      var verdict := Judge(spec, table, address + i, values[i]);
      if verdict.Switch? {
        ChannelWraps(start, a, verdict.channel);
      }
    }
  }

  lemma SwitchedGrows(b: Banks, spec: RelaySpec, table: Table, address: u16, values: seq<u16>, i: nat)
    requires table == Coil || table == Holding
    requires i < |values| && address + |values| <= 65536
    ensures var before := Switched(b, spec, table, address, values[..i]);
            Switched(b, spec, table, address, values[..i + 1]) ==
              match Judge(spec, table, address + i, values[i])
              case Reject(_) => before
              case Switch(k, on) => SwitchChannel(before, spec, k, on)
  {
    hide Judge, SwitchedView;
    ViewGrows(b.coil, spec.coilStart, spec.coilOn, spec.coilOff, spec, table, address, values, i);
    ViewGrows(b.holding, spec.holdingStart, spec.holdingOn, spec.holdingOff, spec, table, address, values, i);
  }

  lemma OffNothing(view: Bank, start: u16, off: u16)
    ensures OffView(view, start, 0, off) == view
  {
  }

  lemma OffGrows(view: Bank, start: u16, i: u16, off: u16)
    requires i < 65535
    ensures OffView(view, start, i + 1, off) == OffView(view, start, i, off)[Wrap(start, i) := off]
  {
    forall a: u16
      ensures ChannelOf(start, a) < i + 1 <==> ChannelOf(start, a) < i || a == Wrap(start, i)
    {
      ChannelWraps(start, a, i);
    }
  }
}
