/** Invariants of the store: the relay's coil and holding views always mirror each other, and bit tables hold
    bits. */
module Relay {
  import opened Words
  import opened StoreModel
  import opened StoreTheory

  /** Channel k reads as on in both views or as off in both views. */
  predicate ChannelMirrored(st: State, spec: RelaySpec, k: u16) {
    var coil := Cell(st, spec.slave, Coil, Wrap(spec.coilStart, k));
    var holding := Cell(st, spec.slave, Holding, Wrap(spec.holdingStart, k));
    || (coil == Some(spec.coilOn) && holding == Some(spec.holdingOn))
    || (coil == Some(spec.coilOff) && holding == Some(spec.holdingOff))
  }

  ghost predicate Mirrored(st: State) {
    st.relay.Some? ==>
      ValidRelay(st.relay.value) && forall k: u16 | k < st.relay.value.count :: ChannelMirrored(st, st.relay.value, k)
  }

  lemma WrapBack(start: u16, k: u16)
    ensures ChannelOf(start, Wrap(start, k)) == k
  {
  }

  /** EnableRelay puts every channel in the off state. */
  lemma EnableMirrors(st: State, spec: RelaySpec)
    ensures Mirrored(st) ==> Mirrored(EnableRelay(st, spec).state)
    ensures ValidRelay(spec) ==> Mirrored(EnableRelay(st, spec).state)
  {
    hide Cell, EnableRelay, Wrap, ChannelOf;
    if ValidRelay(spec) {
      EnableMeans(st, spec);
      forall k: u16 | k < spec.count
        ensures ChannelMirrored(EnableRelay(st, spec).state, spec, k)
      {
        WrapBack(spec.coilStart, k);
        WrapBack(spec.holdingStart, k);
      }
    } else {
      assert EnableRelay(st, spec).state == st by {
        EnableRefused(st, spec);
      }
    }
  }

  lemma EnableRefused(st: State, spec: RelaySpec)
    requires !ValidRelay(spec)
    ensures EnableRelay(st, spec) == Outcome(st, Some(InvalidRelay))
  {
  }

  /** No write, to any slave and of any entries, accepted, skipped, or cut short, ever separates the two views;
      windows that wrap around 65535 included. */
  lemma WriteKeepsMirror(st: State, table: Table, slave: byte, address: u16, values: seq<u16>)
    requires Mirrored(st)
    ensures Mirrored(Write(st, table, slave, address, values).state)
  {
    hide Cell, Wrap, ChannelOf, BitPrefix, Asked, Judge, AcceptedPrefix, Write;
    var after := Write(st, table, slave, address, values).state;
    if IsPlain(st, slave) {
      PlainWriteMeans(st, table, slave, address, values);
      if st.relay.Some? {
        forall k: u16 | k < st.relay.value.count
          ensures ChannelMirrored(after, st.relay.value, k)
        {
          assert ChannelMirrored(st, st.relay.value, k);
        }
      }
    } else if (table == Holding || table == Coil) && values != [] && address + |values| <= 65536 {
      var spec := st.relay.value;
      RelayWriteMeans(st, table, address, values);
      forall k: u16 | k < spec.count
        ensures ChannelMirrored(after, spec, k)
      {
        assert ChannelMirrored(st, spec, k);
        WrapBack(spec.coilStart, k);
        WrapBack(spec.holdingStart, k);
      }
    } else {
      WriteRefused(st, table, slave, address, values);
    }
  }

  lemma WriteRefused(st: State, table: Table, slave: byte, address: u16, values: seq<u16>)
    requires (table != Holding && table != Coil) || values == [] || address + |values| > 65536
    ensures Write(st, table, slave, address, values).state == st
    ensures Write(st, table, slave, address, values).error.Some?
  {
  }

  /** Entry i of a Set falls on no channel of the relay's view of that table, or is the on or off value there and the
      other view already shows the channel so. */
  predicate AgreesWithOtherView(st: State, spec: RelaySpec, table: Table, address: u16, values: seq<u16>, i: nat)
    requires table == Coil || table == Holding
    requires i < |values| && address + |values| <= 65536
  {
    if table == Coil then
      var k := ChannelOf(spec.coilStart, address + i);
      var other := Cell(st, spec.slave, Holding, Wrap(spec.holdingStart, k));
      || k >= spec.count
      || (values[i] == spec.coilOn && other == Some(spec.holdingOn))
      || (values[i] == spec.coilOff && other == Some(spec.holdingOff))
    else
      var k := ChannelOf(spec.holdingStart, address + i);
      var other := Cell(st, spec.slave, Coil, Wrap(spec.coilStart, k));
      || k >= spec.count
      || (values[i] == spec.holdingOn && other == Some(spec.coilOn))
      || (values[i] == spec.holdingOff && other == Some(spec.coilOff))
  }

  /** A Set that stores something in one of the relay's own two tables, where it goes round the relay. */
  predicate SetsView(st: State, table: Table, slave: byte, address: u16, values: seq<u16>) {
    !IsPlain(st, slave) && (table == Coil || table == Holding) && SetCount(table, slave, address, values) > 0
  }

  /** Set keeps the mirror exactly if every entry it stores in one of the relay's two views agrees with the other. */
  lemma SetKeepsMirror(st: State, table: Table, slave: byte, address: u16, values: seq<u16>)
    requires Mirrored(st)
    ensures Mirrored(Set(st, table, slave, address, values).state) <==>
            (SetsView(st, table, slave, address, values) ==>
               forall i | 0 <= i < SetCount(table, slave, address, values) ::
                 AgreesWithOtherView(st, st.relay.value, table, address, values, i))
  {
    hide Cell, Wrap, ChannelOf, BitPrefix, Set, SetCount;
    var after, n := Set(st, table, slave, address, values).state, SetCount(table, slave, address, values);
    SetMeans(st, table, slave, address, values);
    if st.relay.Some? {
      var spec := st.relay.value;
      if SetsView(st, table, slave, address, values) {
        SetFits(table, slave, address, values);
        forall i: nat | i < n
          ensures EntryMirrored(st, after, table, address, values, i) <==>
                  AgreesWithOtherView(st, spec, table, address, values, i)
        {
          var k := ChannelOf(if table == Coil then spec.coilStart else spec.holdingStart, address + i);
          WrapOfChannel(if table == Coil then spec.coilStart else spec.holdingStart, address + i);
          if k < spec.count {
            assert ChannelMirrored(st, spec, k);
          }
        }
        if forall i: nat | i < n :: EntryMirrored(st, after, table, address, values, i) {
          forall k: u16 | k < spec.count
            ensures ChannelMirrored(after, spec, k)
          {
            assert ChannelMirrored(st, spec, k);
            var a := Wrap(if table == Coil then spec.coilStart else spec.holdingStart, k);
            WrapBack(if table == Coil then spec.coilStart else spec.holdingStart, k);
            if address <= a < address + n {
              assert EntryMirrored(st, after, table, address, values, a - address);
            }
          }
        }
      } else {
        forall k: u16 | k < spec.count
          ensures ChannelMirrored(after, spec, k)
        {
          assert ChannelMirrored(st, spec, k);
        }
      }
    }
  }

  /** The channel entry i falls on, if any, is mirrored afterwards. */
  predicate EntryMirrored(st: State, after: State, table: Table, address: u16, values: seq<u16>, i: nat)
    requires st.relay.Some? && (table == Coil || table == Holding)
    requires i < |values| && address + |values| <= 65536
  {
    var spec := st.relay.value;
    var k := ChannelOf(if table == Coil then spec.coilStart else spec.holdingStart, address + i);
    k < spec.count ==> ChannelMirrored(after, spec, k)
  }

  lemma SetFits(table: Table, slave: byte, address: u16, values: seq<u16>)
    requires SetCount(table, slave, address, values) > 0
    ensures address + |values| <= 65536 && IsTable(table)
  {
  }

  lemma WrapOfChannel(start: u16, a: u16)
    ensures Wrap(start, ChannelOf(start, a)) == a
  {
  }

  /** So a Set of another slave, or of an input or discrete table, keeps it. */
  lemma SetOffRelayKeepsMirror(st: State, table: Table, slave: byte, address: u16, values: seq<u16>)
    requires Mirrored(st)
    requires IsPlain(st, slave) || (table != Coil && table != Holding)
    ensures Mirrored(Set(st, table, slave, address, values).state)
  {
    hide Mirrored, Set, SetCount;
    SetKeepsMirror(st, table, slave, address, values);
  }

  /** Used on the relay's coils, Set does break it. */
  lemma SetCanBreakMirror()
    ensures var st := EnableRelay(State(map[], false, None), LAB_RELAY).state;
            Mirrored(st) && !Mirrored(Set(st, Coil, 5, 0, [0]).state)
  {
    hide Cell, EnableRelay, Set;
    var st0 := State(map[], false, None);
    var st := EnableRelay(st0, LAB_RELAY).state;
    EnableMirrors(st0, LAB_RELAY);
    EnableMeans(st0, LAB_RELAY);
    SetMeans(st, Coil, 5, 0, [0]);
    var after := Set(st, Coil, 5, 0, [0]).state;
    assert BitPrefix([0]) == 1;
    assert SetCount(Coil, 5, 0, [0]) == 1;
    assert Cell(after, 5, Coil, 0) == Some(0);
    assert Cell(after, 5, Holding, 1) == Some(512);
    assert !ChannelMirrored(after, LAB_RELAY, 0);
  }

  /** A channel can be switched at all only if its window ends below 65536: an end of exactly 65536 or more wraps in
      16 bits, and every entry of that table is then refused. */
  lemma ClosedWindow(st: State, table: Table, address: u16, values: seq<u16>)
    requires st.relay.Some? && (table == Coil || table == Holding)
    requires values != [] && address + |values| <= 65536
    requires (if table == Coil then st.relay.value.coilStart else st.relay.value.holdingStart) + st.relay.value.count > 65535
    ensures SameView(Write(st, table, st.relay.value.slave, address, values).state, st)
    ensures Write(st, table, st.relay.value.slave, address, values).error ==
            if st.strict then Some(RelayAddress) else None
  {
    hide Cell, Switched;
    var spec := st.relay.value;
    forall a: u16, raw: u16
      ensures Judge(spec, table, a, raw) == Reject(RelayAddress)
    {
      JudgeMeans(spec, table, a, raw);
    }
    RelayWriteMeans(st, table, address, values);
  }

  // ---- Bits ----

  ghost predicate BitsOnly(st: State) {
    && (forall s: byte, t: Table, a: u16 | IsBits(t) && Cell(st, s, t, a).Some? :: Cell(st, s, t, a).value <= 1)
    && (st.relay.Some? ==> st.relay.value.coilOn <= 1 && st.relay.value.coilOff <= 1)
  }

  lemma SetKeepsBits(st: State, table: Table, slave: byte, address: u16, values: seq<u16>)
    requires BitsOnly(st)
    ensures BitsOnly(Set(st, table, slave, address, values).state)
  {
    hide Cell, Set;
    SetMeans(st, table, slave, address, values);
  }

  lemma WriteKeepsBits(st: State, table: Table, slave: byte, address: u16, values: seq<u16>)
    requires BitsOnly(st)
    ensures BitsOnly(Write(st, table, slave, address, values).state)
  {
    hide Cell, Write, Asked, Judge, AcceptedPrefix, ChannelOf;
    if IsPlain(st, slave) {
      PlainWriteMeans(st, table, slave, address, values);
    } else if (table == Holding || table == Coil) && values != [] && address + |values| <= 65536 {
      RelayWriteMeans(st, table, address, values);
    } else {
      WriteRefused(st, table, slave, address, values);
    }
  }

  /** EnableRelay keeps bit tables bits exactly when its own coil values are bits. */
  lemma EnableKeepsBits(st: State, spec: RelaySpec)
    requires BitsOnly(st) && ValidRelay(spec)
    ensures BitsOnly(EnableRelay(st, spec).state) <==> spec.coilOn <= 1 && spec.coilOff <= 1
  {
    hide Cell, EnableRelay, ChannelOf;
    EnableMeans(st, spec);
  }

  // ---- Input and discrete cells ----

  /** Write never touches an input or a discrete cell of any slave. */
  lemma WriteSparesInputs(st: State, table: Table, slave: byte, address: u16, values: seq<u16>, s: byte, t: Table, a: u16)
    requires t == Input || t == Discrete
    ensures Cell(Write(st, table, slave, address, values).state, s, t, a) == Cell(st, s, t, a)
  {
    hide Cell, Write, Asked, AcceptedPrefix;
    if IsPlain(st, slave) {
      PlainWriteMeans(st, table, slave, address, values);
    } else if (table == Holding || table == Coil) && values != [] && address + |values| <= 65536 {
      RelayWriteMeans(st, table, address, values);
    } else {
      WriteRefused(st, table, slave, address, values);
    }
  }
  // ---- Mapped cells ----

  /** No operation unmaps a cell, whatever its outcome, or changes the mode. */
  lemma WriteKeepsMapped(st: State, table: Table, slave: byte, address: u16, values: seq<u16>, s: byte, t: Table, a: u16)
    ensures Cell(st, s, t, a).Some? ==> Cell(Write(st, table, slave, address, values).state, s, t, a).Some?
    ensures Write(st, table, slave, address, values).state.strict == st.strict
  {
    hide Cell, Write, Asked, AcceptedPrefix;
    if IsPlain(st, slave) {
      PlainWriteMeans(st, table, slave, address, values);
    } else if (table == Holding || table == Coil) && values != [] && address + |values| <= 65536 {
      RelayWriteMeans(st, table, address, values);
    } else {
      WriteRefused(st, table, slave, address, values);
    }
  }

  lemma SetKeepsMapped(st: State, table: Table, slave: byte, address: u16, values: seq<u16>, s: byte, t: Table, a: u16)
    ensures Cell(st, s, t, a).Some? ==> Cell(Set(st, table, slave, address, values).state, s, t, a).Some?
    ensures Set(st, table, slave, address, values).state.strict == st.strict
  {
    hide Cell, Set, SetCount;
    SetMeans(st, table, slave, address, values);
  }

  lemma EnableKeepsMapped(st: State, spec: RelaySpec, s: byte, t: Table, a: u16)
    ensures Cell(st, s, t, a).Some? ==> Cell(EnableRelay(st, spec).state, s, t, a).Some?
    ensures EnableRelay(st, spec).state.strict == st.strict
  {
    hide Cell, EnableRelay, ChannelOf;
    if ValidRelay(spec) {
      EnableMeans(st, spec);
    } else {
      EnableRefused(st, spec);
    }
  }
}
