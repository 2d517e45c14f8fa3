/** What the register store holds and what each of its operations does to it, as values. The class in StoreImpl
    is proved to do exactly this; StoreTheory and Relay say what it means. */
module StoreModel {
  import opened Words

  /** A table is a string in the program; any name but the four is Other. */
  datatype Table = Coil | Discrete | Holding | Input | Other(name: string)

  type Bank = map<u16, u16>

  datatype Banks = Banks(holding: Bank, input: Bank, coil: Bank, discrete: Bank)

  const EMPTY_BANKS := Banks(map[], map[], map[], map[])

  datatype RelaySpec = RelaySpec(slave: byte, count: u16, coilStart: u16, holdingStart: u16,
                                 coilOn: u16, coilOff: u16, holdingOn: u16, holdingOff: u16)

  /** The relay of the built-in lab profile. */
  const LAB_RELAY := RelaySpec(5, 8, 0, 1, 0, 1, 256, 512)

  datatype State = State(slaves: map<byte, Banks>, strict: bool, relay: Option<RelaySpec>)

  datatype StoreError =
    | InvalidSlave
    | RangeExceeded
    | NotMapped
    | InvalidTable
    | BadBit
    | NotWritable
    | ValuesRequired
    | RelayAddress
    | RelayValue
    | InvalidRelay

  datatype ReadResult = Values(values: seq<u16>) | ReadRefused(error: StoreError)

  /** The state an operation leaves, and its error if it returned one. */
  datatype Outcome = Outcome(state: State, error: Option<StoreError>)

  // ---- Banks ----

  predicate IsBits(table: Table) {
    table == Coil || table == Discrete
  }

  predicate IsTable(table: Table) {
    !table.Other?
  }

  function BankFor(b: Banks, table: Table): Option<Bank> {
    match table
    case Holding => Some(b.holding)
    case Input => Some(b.input)
    case Coil => Some(b.coil)
    case Discrete => Some(b.discrete)
    case Other(_) => None
  }

  function WithBank(b: Banks, table: Table, bank: Bank): Banks
    requires IsTable(table)
  {
    match table
    case Holding => b.(holding := bank)
    case Input => b.(input := bank)
    case Coil => b.(coil := bank)
    case Discrete => b.(discrete := bank)
  }

  /** The state after a slave's banks exist. */
  function Ensure(st: State, slave: byte): State {
    if slave in st.slaves then st else st.(slaves := st.slaves[slave := EMPTY_BANKS])
  }

  /** bank with values at address, address + 1, ... */
  function Put(bank: Bank, address: u16, values: seq<u16>): Bank {
    map a: u16 | a in bank || address <= a < address + |values| ::
      if address <= a < address + |values| then values[a - address] else bank[a]
  }

  function PutCells(st: State, slave: byte, table: Table, address: u16, values: seq<u16>): State
    requires IsTable(table) && slave in st.slaves
  {
    var b := st.slaves[slave];
    st.(slaves := st.slaves[slave := WithBank(b, table, Put(BankFor(b, table).value, address, values))])
  }

  function Get(bank: Bank, a: u16): u16 {
    if a in bank then bank[a] else 0
  }

  /** The length of the longest prefix of 0s and 1s. */
  function BitPrefix(values: seq<u16>): (n: nat)
    ensures n <= |values|
    ensures forall i | 0 <= i < n :: values[i] <= 1
    ensures n < |values| ==> values[n] > 1
  {
    if values == [] || values[0] > 1 then 0 else 1 + BitPrefix(values[1..])
  }

  // ---- Operations ----

  function Read(st: State, table: Table, slave: byte, address: u16, quantity: u16): ReadResult {
    if slave < 1 || slave > 247 || quantity < 1 then
      ReadRefused(InvalidSlave)
    else if address + quantity > 65536 then
      ReadRefused(RangeExceeded)
    else if slave !in st.slaves then
      if st.strict then ReadRefused(NotMapped) else Values(seq(quantity, _ => 0))
    else
      match BankFor(st.slaves[slave], table)
      case None => ReadRefused(InvalidTable)
      case Some(bank) =>
        if st.strict && exists a: u16 | address <= a < address + quantity :: a !in bank then
          ReadRefused(NotMapped)
        else
          Values(seq<u16>(quantity, i requires 0 <= i < quantity => Get(bank, address + i)))
  }

  function Set(st: State, table: Table, slave: byte, address: u16, values: seq<u16>): Outcome {
    if slave < 1 || slave > 247 || values == [] then
      Outcome(st, Some(InvalidSlave))
    else if address + |values| > 65536 then
      Outcome(st, Some(RangeExceeded))
    else if !IsTable(table) then
      Outcome(Ensure(st, slave), Some(InvalidTable))
    else
      var n := if IsBits(table) then BitPrefix(values) else |values|;
      Outcome(PutCells(Ensure(st, slave), slave, table, address, values[..n]),
              if n < |values| then Some(BadBit) else None)
  }

  function Write(st: State, table: Table, slave: byte, address: u16, values: seq<u16>): Outcome {
    if table != Holding && table != Coil then
      Outcome(st, Some(NotWritable))
    else if values == [] then
      Outcome(st, Some(ValuesRequired))
    else if address + |values| > 65536 then
      Outcome(st, Some(RangeExceeded))
    else if st.relay.Some? && st.relay.value.slave == slave then
      WriteRelay(Ensure(st, slave), st.relay.value, table, address, values)
    else
      var n := if table == Coil then BitPrefix(values) else |values|;
      Outcome(PutCells(Ensure(st, slave), slave, table, address, values[..n]),
              if n < |values| then Some(BadBit) else None)
  }

  // ---- The relay slave ----

  /** What one entry of a write asks of the relay. */
  datatype Verdict = Switch(channel: u16, on: bool) | Reject(error: StoreError)

  /** Upper window bound, computed in 16 bits: it wraps. */
  function WindowEnd(start: u16, count: u16): u16 {
    (start + count) % 65536
  }

  function Judge(spec: RelaySpec, table: Table, address: u16, raw: u16): Verdict
    requires table == Coil || table == Holding
  {
    var start := if table == Coil then spec.coilStart else spec.holdingStart;
    var on := if table == Coil then spec.coilOn else spec.holdingOn;
    var off := if table == Coil then spec.coilOff else spec.holdingOff;
    if address < start || address >= WindowEnd(start, spec.count) then Reject(RelayAddress)
    else if raw != on && raw != off then Reject(RelayValue)
    else Switch(address - start, raw == on)
  }

  /** start + k in 16 bits. */
  function Wrap(start: u16, k: u16): u16 {
    (start + k) % 65536
  }

  /** The k with Wrap(start, k) == a. */
  function ChannelOf(start: u16, a: u16): u16 {
    (a - start) % 65536
  }

  function SwitchChannel(b: Banks, spec: RelaySpec, channel: u16, on: bool): Banks {
    b.(coil := b.coil[Wrap(spec.coilStart, channel) := if on then spec.coilOn else spec.coilOff],
       holding := b.holding[Wrap(spec.holdingStart, channel) := if on then spec.holdingOn else spec.holdingOff])
  }

  /** What a whole list of entries asks of channel k, if anything: at most one entry addresses it. */
  function Asked(spec: RelaySpec, table: Table, address: u16, values: seq<u16>, k: u16): Option<bool>
    requires table == Coil || table == Holding
    requires address + |values| <= 65536
  {
    var start := if table == Coil then spec.coilStart else spec.holdingStart;
    var i := start + k - address;
    if 0 <= i < |values| then
      match Judge(spec, table, address + i, values[i])
      case Switch(_, on) => Some(on)
      case Reject(_) => None
    else
      None
  }

  /** One view of the relay after the entries: each channel that was asked for shows on or off, every other cell
      is as it was. */
  function SwitchedView(view: Bank, start: u16, on: u16, off: u16,
                        spec: RelaySpec, table: Table, address: u16, values: seq<u16>): Bank
    requires table == Coil || table == Holding
    requires address + |values| <= 65536
  {
    map a: u16 | a in view || Asked(spec, table, address, values, ChannelOf(start, a)).Some? ::
      match Asked(spec, table, address, values, ChannelOf(start, a))
      case Some(isOn) => if isOn then on else off
      case None => view[a]
  }

  function Switched(b: Banks, spec: RelaySpec, table: Table, address: u16, values: seq<u16>): Banks
    requires table == Coil || table == Holding
    requires address + |values| <= 65536
  {
    b.(coil := SwitchedView(b.coil, spec.coilStart, spec.coilOn, spec.coilOff, spec, table, address, values),
       holding := SwitchedView(b.holding, spec.holdingStart, spec.holdingOn, spec.holdingOff, spec, table, address, values))
  }

  /** The length of the longest prefix of entries the relay accepts. */
  function AcceptedPrefix(spec: RelaySpec, table: Table, address: u16, values: seq<u16>): (n: nat)
    requires table == Coil || table == Holding
    requires address + |values| <= 65536
    ensures n <= |values|
    ensures forall i | 0 <= i < n :: Judge(spec, table, address + i, values[i]).Switch?
    ensures n < |values| ==> Judge(spec, table, address + n, values[n]).Reject?
    decreases |values|
  {
    if values == [] || Judge(spec, table, address, values[0]).Reject? then 0
    else if |values| == 1 then 1
    else 1 + AcceptedPrefix(spec, table, address + 1, values[1..])
  }

  function WriteRelay(st: State, spec: RelaySpec, table: Table, address: u16, values: seq<u16>): Outcome
    requires table == Coil || table == Holding
    requires address + |values| <= 65536
    requires spec.slave in st.slaves
  {
    var n := if st.strict then AcceptedPrefix(spec, table, address, values) else |values|;
    var b := Switched(st.slaves[spec.slave], spec, table, address, values[..n]);
    Outcome(st.(slaves := st.slaves[spec.slave := b]),
            if n < |values| then Some(Judge(spec, table, address + n, values[n]).error) else None)
  }

  predicate ValidRelay(spec: RelaySpec) {
    1 <= spec.slave <= 247 && 1 <= spec.count <= 64
  }

  /** One view with every channel off. */
  function OffView(view: Bank, start: u16, count: u16, off: u16): Bank {
    map a: u16 | a in view || ChannelOf(start, a) < count :: if ChannelOf(start, a) < count then off else view[a]
  }

  function EnableRelay(st: State, spec: RelaySpec): Outcome {
    if !ValidRelay(spec) then
      Outcome(st, Some(InvalidRelay))
    else
      var st1 := Ensure(st, spec.slave);
      var b := st1.slaves[spec.slave];
      var off := b.(coil := OffView(b.coil, spec.coilStart, spec.count, spec.coilOff),
                    holding := OffView(b.holding, spec.holdingStart, spec.count, spec.holdingOff));
      Outcome(State(st1.slaves[spec.slave := off], st.strict, Some(spec)), None)
  }
}
