/** The control API's ways into the store, each behind its own guards. */
module Api {
  import opened Words
  import opened StoreModel
  import opened StoreTheory
  import opened StoreImpl
  import opened Simulator

  datatype Response = Ok(values: seq<u16>) | BadRequest | NotFound | ServerError

  datatype Handled = Handled(state: State, response: Response)

  predicate BadTarget(slave: int, table: Table, address: u16, count: nat) {
    slave < 1 || slave > 247 || !IsTable(table) || address + count > 65536
  }

  /** Simulator injection: holding and coil cells go through Write, so that the relay stays whole; input and discrete
      cells, which Write refuses, through Set. */
  function Injecting(st: State, slave: byte, table: Table, address: u16, values: seq<u16>): Handled {
    if BadTarget(slave, table, address, |values|) || |values| < 1 || |values| > 2000 then Handled(st, BadRequest)
    else
      var r := if table == Holding || table == Coil then Write(st, table, slave, address, values)
               else Set(st, table, slave, address, values);
      if r.error.Some? then Handled(r.state, BadRequest)
      else
        match Read(r.state, table, slave, address, |values|)
        case ReadRefused(_) => Handled(r.state, ServerError)
        case Values(v) => Handled(r.state, Ok(v))
  }

  function MaxWrite(table: Table): nat {
    if table == Coil then 1968 else 123
  }

  /** A register write; WritingMeans says what it answers. */
  function Writing(st: State, slave: int, table: Table, address: u16, values: seq<u16>): Handled {
    if BadTarget(slave, table, address, |values|) || (table != Holding && table != Coil)
       || |values| < 1 || |values| > MaxWrite(table) then Handled(st, BadRequest)
    else
      var r := Write(st, table, slave, address, values);
      if r.error.Some? then Handled(r.state, BadRequest)
      else
        match Read(r.state, table, slave, address, |values|)
        case ReadRefused(_) => Handled(r.state, Ok([]))
        case Values(v) => Handled(r.state, Ok(v))
  }

  /** A register read; ReadingMeans says what it answers. */
  function Reading(st: State, slave: int, table: Table, address: u16, quantity: int): Response {
    if slave < 1 || slave > 247 || !IsTable(table) || quantity < 1
       || quantity > (if IsBits(table) then 2000 else 125) || address + quantity > 65536 then BadRequest
    else
      match Read(st, table, slave, address, quantity)
      case ReadRefused(_) => NotFound
      case Values(v) => Ok(v)
  }

  function Resetting(st: State, profile: Profile): Handled {
    var r := Reset(st, profile);
    Handled(r.state, if r.error.Some? then ServerError else Ok([]))
  }

  class Handlers {
    const store: Store

    constructor (store: Store)
      ensures this.store == store
    {
      this.store := store;
    }

    method WriteSimulatorRegisters(slave: byte, table: Table, address: u16, values: seq<u16>) returns (r: Response)
      modifies store`slaves
      ensures Handled(store.View(), r) == Injecting(old(store.View()), slave, table, address, values)
    {
      hide StoreModel.Write, StoreModel.Set, StoreModel.Read;
      if slave < 1 || slave > 247 {
        return BadRequest;
      }
      if !IsTable(table) {
        return BadRequest;
      }
      if |values| < 1 || |values| > 2000 {
        return BadRequest;
      }
      if address + |values| > 65536 {
        return BadRequest;
      }
      var error;
      if table == Holding || table == Coil {
        error := store.Write(table, slave, address, values);
      } else {
        error := store.Set(table, slave, address, values);
      }
      if error.Some? {
        return BadRequest;
      }
      var read := store.Read(table, slave, address, |values|);
      if read.ReadRefused? {
        return ServerError;
      }
      return Ok(read.values);
    }

    method WriteRegisters(slave: int, table: Table, address: u16, values: seq<u16>) returns (r: Response)
      modifies store`slaves
      ensures Handled(store.View(), r) == Writing(old(store.View()), slave, table, address, values)
    {
      hide StoreModel.Write, StoreModel.Read;
      if slave < 1 || slave > 247 {
        return BadRequest;
      }
      if !IsTable(table) {
        return BadRequest;
      }
      if table != Holding && table != Coil {
        return BadRequest;
      }
      var maxValues := 123;
      if table == Coil {
        maxValues := 1968;
      }
      if |values| < 1 || |values| > maxValues {
        return BadRequest;
      }
      if address + |values| > 65536 {
        return BadRequest;
      }
      var error := store.Write(table, slave, address, values);
      if error.Some? {
        return BadRequest;
      }
      var read := store.Read(table, slave, address, |values|);
      if read.ReadRefused? {
        return Ok([]);
      }
      return Ok(read.values);
    }

    method ReadRegisters(slave: int, table: Table, address: u16, quantity: int) returns (r: Response)
      ensures r == Reading(store.View(), slave, table, address, quantity)
    {
      if slave < 1 || slave > 247 {
        return BadRequest;
      }
      if !IsTable(table) {
        return BadRequest;
      }
      var maxQuantity := if table == Coil || table == Discrete then 2000 else 125;
      if quantity < 1 || quantity > maxQuantity {
        return BadRequest;
      }
      if address + quantity > 65536 {
        return BadRequest;
      }
      var read := store.Read(table, slave, address, quantity);
      if read.ReadRefused? {
        return NotFound;
      }
      return Ok(read.values);
    }

    method ResetSimulator(profile: Profile) returns (r: Response)
      modifies store`slaves, store`relay
      ensures Handled(store.View(), r) == Resetting(old(store.View()), profile)
    {
      hide Reset;
      var error := ResetProfile(store, profile);
      if error.Some? {
        return ServerError;
      }
      return Ok([]);
    }
  }

  // ---- What the handlers answer ----

  /** Every entry can be stored: on the relay, it acts on all of them; elsewhere bit tables get bits. */
  predicate AllTaken(st: State, table: Table, slave: byte, address: u16, values: seq<u16>)
    requires IsTable(table) && address + |values| <= 65536
  {
    if table == Holding || table == Coil then
      forall i | 0 <= i < |values| :: Taken(st, table, slave, address, values, i)
    else
      IsBits(table) ==> forall i | 0 <= i < |values| :: values[i] <= 1
  }

  /** What a writer is answered with: entries that were stored as they were sent, and, where a non-strict relay skipped
      one, what the cell held before. */
  ghost predicate AnswersWith(st: State, table: Table, slave: byte, address: u16, values: seq<u16>, v: seq<u16>)
    requires IsTable(table) && address + |values| <= 65536
  {
    && |v| == |values|
    && forall i | 0 <= i < |values| ::
         v[i] == if (table == Holding || table == Coil) && !Taken(st, table, slave, address, values, i)
                 then Shown(Cell(st, slave, table, address + i)) else values[i]
  }

  /** A register write succeeds exactly if its arguments are within the limits of the protocol and the store can take all
      of it, or the non-strict relay whatever it can; otherwise it is a bad request, and refused arguments change nothing.
      It answers with what it stored, never with an empty list. */
  lemma WritingMeans(st: State, slave: int, table: Table, address: u16, values: seq<u16>)
    ensures var h := Writing(st, slave, table, address, values);
            var within := 1 <= slave <= 247 && (table == Holding || table == Coil) && address + |values| <= 65536
                          && 1 <= |values| <= (if table == Coil then 1968 else 123);
            && (h.response.Ok? || h.response == BadRequest)
            && (!within ==> h == Handled(st, BadRequest))
            && (within ==>
                && h.state == Write(st, table, slave, address, values).state
                && (h.response.Ok? <==>
                    AllTaken(st, table, slave, address, values) || (!IsPlain(st, slave) && !st.strict))
                && (h.response.Ok? ==> AnswersWith(st, table, slave, address, values, h.response.values)))
  {
    hide Read, Cell, Write, Taken;
    if !BadTarget(slave, table, address, |values|) && (table == Holding || table == Coil)
       && 1 <= |values| <= MaxWrite(table) {
      WriteSucceeds(st, table, slave, address, values);
      if Write(st, table, slave, address, values).error == None {
        ReadBack(st, table, slave, address, values);
      }
    }
  }

  /** A register read is a bad request exactly if its arguments are outside the limits of the protocol, not found exactly
      if a strict store has not mapped all of the range, and otherwise shows each cell. */
  lemma ReadingMeans(st: State, slave: int, table: Table, address: u16, quantity: int)
    ensures var r := Reading(st, slave, table, address, quantity);
            var within := 1 <= slave <= 247 && !table.Other?
                          && 1 <= quantity <= (if table == Coil || table == Discrete then 2000 else 125) && address + quantity <= 65536;
            && r != ServerError
            && (r == BadRequest <==> !within)
            && (r == NotFound <==> within && st.strict && !AllMapped(st, slave, table, address, quantity))
            && (r.Ok? ==>
                && |r.values| == quantity
                && forall i | 0 <= i < quantity :: r.values[i] == Shown(Cell(st, slave, table, address + i)))
  {
    hide Read, Cell, AllMapped;
    if 1 <= slave <= 247 && IsTable(table) && 1 <= quantity <= (if IsBits(table) then 2000 else 125)
       && address + quantity <= 65536 {
      ReadMeans(st, table, slave, address, quantity);
    }
  }

  /** A reset answers with success exactly if the profile is good, whatever the store, and with a server error otherwise. */
  lemma ResettingMeans(st: State, profile: Profile)
    ensures Resetting(st, profile).response == if GoodProfile(profile) then Ok([]) else ServerError
    ensures Resetting(st, profile).state == Reset(st, profile).state
  {
    hide Reset, GoodProfile;
    ResetSucceeds(st, profile);
  }

  /** An injection, into any slave, the relay included, succeeds exactly if its arguments are in range and the store can
      take all of it, or the non-strict relay whatever it can; and it answers with what it stored. It never ends in a
      server error. */
  lemma InjectionReadsBack(st: State, slave: byte, table: Table, address: u16, values: seq<u16>)
    ensures var h := Injecting(st, slave, table, address, values);
            var within := 1 <= slave <= 247 && !table.Other? && address + |values| <= 65536 && 1 <= |values| <= 2000;
            && (h.response.Ok? || h.response == BadRequest)
            && (!within ==> h == Handled(st, BadRequest))
            && (within ==>
                && h.state == (if table == Holding || table == Coil then Write(st, table, slave, address, values)
                               else Set(st, table, slave, address, values)).state
                && (h.response.Ok? <==>
                    || AllTaken(st, table, slave, address, values)
                    || ((table == Holding || table == Coil) && !IsPlain(st, slave) && !st.strict))
                && (h.response.Ok? ==> AnswersWith(st, table, slave, address, values, h.response.values)))
  {
    hide Read, Cell, Write, Set, Taken;
    if !BadTarget(slave, table, address, |values|) && 1 <= |values| <= 2000 {
      if table == Holding || table == Coil {
        WriteSucceeds(st, table, slave, address, values);
        if Write(st, table, slave, address, values).error == None {
          ReadBack(st, table, slave, address, values);
        }
      } else {
        SetReadsBack(st, slave, table, address, values);
      }
    }
  }

  lemma SetReadsBack(st: State, slave: byte, table: Table, address: u16, values: seq<u16>)
    requires !BadTarget(slave, table, address, |values|) && 1 <= |values| <= 2000
    ensures var r := Set(st, table, slave, address, values);
            && (r.error == None <==> (IsBits(table) ==> forall i | 0 <= i < |values| :: values[i] <= 1))
            && (r.error == None ==> Read(r.state, table, slave, address, |values|) == Values(values))
  {
    hide Read, Cell, Set;
    BitPrefixFull(values);
    SetMeans(st, table, slave, address, values);
    var r := Set(st, table, slave, address, values);
    ReadMeans(r.state, table, slave, address, |values|);
    var read := Read(r.state, table, slave, address, |values|);
    if r.error == None && read.Values? {
      assert read.values == values;
    }
  }

  /** Off the relay what comes back is exactly what was sent. */
  lemma PlainAnswer(st: State, slave: byte, table: Table, address: u16, values: seq<u16>, v: seq<u16>)
    requires IsPlain(st, slave) && IsTable(table) && address + |values| <= 65536
    requires AllTaken(st, table, slave, address, values) && AnswersWith(st, table, slave, address, values, v)
    ensures v == values
  {
    hide Cell;
  }
}
