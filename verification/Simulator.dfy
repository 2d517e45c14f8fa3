/** The simulated device bus and its reset. */
module Simulator {
  import opened Words
  import opened StoreModel
  import opened StoreTheory
  import opened StoreImpl
  import opened Relay

  datatype Range = Range(table: Table, address: u16, values: seq<u16>)

  datatype Device = Device(key: string, slave: byte, ranges: seq<Range>)

  datatype Profile = Profile(devices: seq<Device>, relay: RelaySpec)

  const RELAY_KEY := "relay-8ch"

  const XY_MD02 := Device("xy-md02", 8, [Range(Input, 1, [285, 720])])
  const FLOWMETER := Device("flowmeter-15", 15, [Range(Holding, 0, [125, 4582])])
  const EC4400 := Device("ec4400", 2, [Range(Holding, 0, [1800])])
  const SENSOR_6 := Device("sensor-6", 6, [Range(Holding, 0, [65, 55])])
  const SENSOR_1 := Device("sensor-1", 1, [Range(Holding, 0, [270, 72])])
  const METER_3 := Device("meter-3", 3, [Range(Holding, 0, [1234, 56700])])
  const CHLORINE := Device("chlorine", 4, [Range(Holding, 2, [0x4020, 0x0000])])
  const RELAY_COILS := Range(Coil, 0, [1, 1, 1, 1, 1, 1, 1, 1])
  const RELAY_HOLDING := Range(Holding, 1, [512, 512, 512, 512, 512, 512, 512, 512])
  const RELAY_8CH := Device(RELAY_KEY, 5, [RELAY_COILS, RELAY_HOLDING])

  const SWS_LAB := Profile(
    [XY_MD02, FLOWMETER, EC4400, SENSOR_6, SENSOR_1, METER_3, CHLORINE, RELAY_8CH],
    LAB_RELAY)

  // ---- Reset as a value ----

  /** One range to be set. */
  datatype Job = Job(slave: byte, range: Range)

  function RangeJobs(slave: byte, ranges: seq<Range>): (r: seq<Job>)
    ensures |r| == |ranges|
    ensures forall i | 0 <= i < |r| :: r[i] == Job(slave, ranges[i])
  {
    seq(|ranges|, i requires 0 <= i < |ranges| => Job(slave, ranges[i]))
  }

  /** The ranges reset sets, in order: those of every device but the relay. */
  function Jobs(devices: seq<Device>): seq<Job> {
    if devices == [] then []
    else (if devices[0].key == RELAY_KEY then [] else RangeJobs(devices[0].slave, devices[0].ranges)) + Jobs(devices[1..])
  }

  function SetJob(st: State, job: Job): Outcome {
    Set(st, job.range.table, job.slave, job.range.address, job.range.values)
  }

  /** The jobs done in order, up to the first error. */
  function SetAll(st: State, jobs: seq<Job>): Outcome
    decreases |jobs|
  {
    if jobs == [] then Outcome(st, None)
    else
      var r := SetJob(st, jobs[0]);
      if r.error.Some? then r else SetAll(r.state, jobs[1..])
  }

  function Reset(st: State, profile: Profile): Outcome {
    var r := SetAll(st, Jobs(profile.devices));
    if r.error.Some? then r else EnableRelay(r.state, profile.relay)
  }

  // ---- The two loops ----

  lemma {:induction false} SetAllJoin(st: State, a: seq<Job>, b: seq<Job>)
    ensures SetAll(st, a + b) ==
            if SetAll(st, a).error.Some? then SetAll(st, a) else SetAll(SetAll(st, a).state, b)
    decreases |a|
  {
    hide SetJob;
    if a == [] {
      assert a + b == b;
    } else {
      assert (a + b)[1..] == a[1..] + b;
      SetAllJoin(SetJob(st, a[0]).state, a[1..], b);
    }
  }

  lemma {:induction false} JobsJoin(a: seq<Device>, b: seq<Device>)
    ensures Jobs(a + b) == Jobs(a) + Jobs(b)
    decreases |a|
  {
    if a == [] {
      assert a + b == b;
    } else {
      assert (a + b)[1..] == a[1..] + b;
      JobsJoin(a[1..], b);
    }
  }

  method SetRanges(store: Store, slave: byte, ranges: seq<Range>) returns (error: Option<StoreError>)
    modifies store`slaves
    ensures Outcome(store.View(), error) == SetAll(old(store.View()), RangeJobs(slave, ranges))
  {
    hide Set;
    ghost var st, jobs := store.View(), RangeJobs(slave, ranges);
    assert jobs[..0] == [];
    for i := 0 to |ranges|
      invariant SetAll(st, jobs[..i]) == Outcome(store.View(), None)
    {
      SetAllJoin(st, jobs[..i], jobs[i..]);
      assert jobs == jobs[..i] + jobs[i..];
      SetAllJoin(st, jobs[..i], [jobs[i]]);
      assert jobs[..i + 1] == jobs[..i] + [jobs[i]];
      error := store.Set(ranges[i].table, slave, ranges[i].address, ranges[i].values);
      if error.Some? {
        return;
      }
    }
    assert jobs[..|ranges|] == jobs;
    return None;
  }

  /** Sets every sensor range and then switches the relay on in its off state, stopping at the first error. */
  method ResetProfile(store: Store, profile: Profile) returns (error: Option<StoreError>)
    modifies store`slaves, store`relay
    ensures Outcome(store.View(), error) == Reset(old(store.View()), profile)
  {
    hide StoreModel.EnableRelay;
    ghost var st, all := store.View(), profile.devices;
    assert all[..0] == [];
    for i := 0 to |profile.devices|
      invariant SetAll(st, Jobs(all[..i])) == Outcome(store.View(), None)
    {
      var device := profile.devices[i];
      ghost var mine := if device.key == RELAY_KEY then [] else RangeJobs(device.slave, device.ranges);
      assert all[..i + 1] == all[..i] + [device];
      JobsJoin(all[..i], [device]);
      assert Jobs([device]) == mine + Jobs([device][1..]);
      assert Jobs([device]) == mine;
      SetAllJoin(st, Jobs(all[..i]), mine);
      assert all == all[..i + 1] + all[i + 1..];
      JobsJoin(all[..i + 1], all[i + 1..]);
      SetAllJoin(st, Jobs(all[..i + 1]), Jobs(all[i + 1..]));
      if device.key == RELAY_KEY {
        continue;
      }
      error := SetRanges(store, device.slave, device.ranges);
      if error.Some? {
        return;
      }
    }
    assert all[..|all|] == all;
    error := store.EnableRelay(profile.relay);
  }

  // ---- What a reset restores ----

  predicate Covers(job: Job, s: byte, t: Table, a: u16) {
    s == job.slave && t == job.range.table
    && job.range.address <= a < job.range.address + |job.range.values|
  }

  /** A range that Set accepts whole. */
  predicate Settable(job: Job) {
    && 1 <= job.slave <= 247 && job.range.values != [] && IsTable(job.range.table)
    && job.range.address + |job.range.values| <= 65536
    && (IsBits(job.range.table) ==> BitPrefix(job.range.values) == |job.range.values|)
  }

  predicate AllSettable(jobs: seq<Job>) {
    forall i | 0 <= i < |jobs| :: Settable(jobs[i])
  }

  /** The value the jobs leave in a cell: that of the last one that covers it. */
  function LastValue(jobs: seq<Job>, s: byte, t: Table, a: u16): Option<u16>
    decreases |jobs|
  {
    if jobs == [] then None
    else
      var job := jobs[|jobs| - 1];
      if Covers(job, s, t, a) then Some(job.range.values[a - job.range.address])
      else LastValue(jobs[..|jobs| - 1], s, t, a)
  }

  lemma SettableSets(st: State, job: Job)
    requires Settable(job)
    ensures SetJob(st, job).error == None
    ensures SetJob(st, job).state.strict == st.strict && SetJob(st, job).state.relay == st.relay
    ensures forall s: byte, t: Table, a: u16 ::
              Cell(SetJob(st, job).state, s, t, a) ==
                if Covers(job, s, t, a) then Some(job.range.values[a - job.range.address]) else Cell(st, s, t, a)
  {
    hide Cell, Set, BitPrefix;
    SetMeans(st, job.range.table, job.slave, job.range.address, job.range.values);
  }

  lemma {:induction false} SetAllMeans(st: State, jobs: seq<Job>)
    requires AllSettable(jobs)
    ensures var r := SetAll(st, jobs);
            && r.error == None && r.state.strict == st.strict && r.state.relay == st.relay
            && forall s: byte, t: Table, a: u16 ::
              Cell(r.state, s, t, a) ==
                if LastValue(jobs, s, t, a).Some? then LastValue(jobs, s, t, a) else Cell(st, s, t, a)
    decreases |jobs|
  {
    hide Cell, SetJob, Settable, Covers;
    if jobs != [] {
      var front, job := jobs[..|jobs| - 1], jobs[|jobs| - 1];
      assert jobs == front + [job];
      SetAllMeans(st, front);
      SetAllJoin(st, front, [job]);
      assert Settable(job);
      SettableSets(SetAll(st, front).state, job);
      assert [job][1..] == [];
    }
  }

  function InRelay(spec: RelaySpec, s: byte, t: Table, a: u16): Option<u16> {
    if s == spec.slave && t == Coil && ChannelOf(spec.coilStart, a) < spec.count then Some(spec.coilOff)
    else if s == spec.slave && t == Holding && ChannelOf(spec.holdingStart, a) < spec.count then Some(spec.holdingOff)
    else None
  }

  /** The value a reset to this profile leaves in a cell, if the profile says anything of it: the relay's channels are
      off in both views, and every other listed cell has the value listed last. */
  function Listed(profile: Profile, s: byte, t: Table, a: u16): Option<u16> {
    if InRelay(profile.relay, s, t, a).Some? then InRelay(profile.relay, s, t, a)
    else LastValue(Jobs(profile.devices), s, t, a)
  }

  predicate GoodProfile(profile: Profile) {
    AllSettable(Jobs(profile.devices)) && ValidRelay(profile.relay)
  }

  /** From any state whatever, a reset succeeds, gives every listed cell its listed value and leaves every other cell,
      of every slave, alone. */
  lemma ResetRestores(st: State, profile: Profile)
    requires GoodProfile(profile)
    ensures var r := Reset(st, profile);
            && r.error == None && r.state.strict == st.strict && r.state.relay == Some(profile.relay)
            && forall s: byte, t: Table, a: u16 ::
              Cell(r.state, s, t, a) ==
                if Listed(profile, s, t, a).Some? then Listed(profile, s, t, a) else Cell(st, s, t, a)
  {
    hide Cell, SetAll, LastValue, EnableRelay, Jobs;
    SetAllMeans(st, Jobs(profile.devices));
    EnableMeans(SetAll(st, Jobs(profile.devices)).state, profile.relay);
  }

  lemma {:induction false} SetAllSucceeds(st: State, jobs: seq<Job>)
    ensures SetAll(st, jobs).error == None <==> AllSettable(jobs)
    decreases |jobs|
  {
    hide Set, BitPrefix, Cell;
    if jobs != [] {
      var job := jobs[0];
      SetMeans(st, job.range.table, job.slave, job.range.address, job.range.values);
      SetAllSucceeds(SetJob(st, job).state, jobs[1..]);
      assert jobs == [job] + jobs[1..];
    }
  }

  /** Whether a reset succeeds depends on the profile alone: it does exactly if the profile is good. */
  lemma ResetSucceeds(st: State, profile: Profile)
    ensures Reset(st, profile).error == None <==> GoodProfile(profile)
  {
    hide SetAll, AllSettable, Jobs;
    SetAllSucceeds(st, Jobs(profile.devices));
  }

  /** A reset that fails has done the ranges before the first that cannot be set, and that one as far as Set goes; it has done
      nothing after it and not touched the relay. */
  lemma ResetStops(st: State, profile: Profile, before: seq<Job>, bad: Job, after: seq<Job>)
    requires Jobs(profile.devices) == before + [bad] + after
    requires AllSettable(before) && !Settable(bad)
    ensures Reset(st, profile) == SetJob(SetAll(st, before).state, bad)
    ensures Reset(st, profile).error.Some? && Reset(st, profile).state.relay == st.relay
  {
    hide SetJob, Jobs, AllSettable, Settable;
    SetAllJoin(st, before + [bad], after);
    SetAllJoin(st, before, [bad]);
    SetAllMeans(st, before);
    BadJobFails(SetAll(st, before).state, bad);
    assert [bad][1..] == [];
  }

  lemma BadJobFails(st: State, job: Job)
    requires !Settable(job)
    ensures SetJob(st, job).error.Some? && SetJob(st, job).state.relay == st.relay
  {
    hide Set, Cell, BitPrefix;
    SetMeans(st, job.range.table, job.slave, job.range.address, job.range.values);
  }

  /** No reset, successful or not, unmaps a cell or changes the mode. */
  lemma ResetKeepsMapped(st: State, profile: Profile, s: byte, t: Table, a: u16)
    ensures Cell(st, s, t, a).Some? ==> Cell(Reset(st, profile).state, s, t, a).Some?
    ensures Reset(st, profile).state.strict == st.strict
  {
    hide Cell, SetAll, Jobs, EnableRelay;
    var jobs := Jobs(profile.devices);
    SetAllKeepsMapped(st, jobs, s, t, a);
    EnableKeepsMapped(SetAll(st, jobs).state, profile.relay, s, t, a);
  }

  lemma {:induction false} SetAllKeepsMapped(st: State, jobs: seq<Job>, s: byte, t: Table, a: u16)
    ensures Cell(st, s, t, a).Some? ==> Cell(SetAll(st, jobs).state, s, t, a).Some?
    ensures SetAll(st, jobs).state.strict == st.strict
    decreases |jobs|
  {
    hide Cell, Set;
    if jobs != [] {
      SetKeepsMapped(st, jobs[0].range.table, jobs[0].slave, jobs[0].range.address, jobs[0].range.values, s, t, a);
      SetAllKeepsMapped(SetJob(st, jobs[0]).state, jobs[1..], s, t, a);
    }
  }

  /** Resetting twice is resetting once. */
  lemma ResetIdempotent(st: State, profile: Profile)
    requires GoodProfile(profile)
    ensures SameView(Reset(Reset(st, profile).state, profile).state, Reset(st, profile).state)
  {
    hide Cell, Reset, Listed;
    ResetRestores(st, profile);
    ResetRestores(Reset(st, profile).state, profile);
  }

  /** A reset relay reads off in both views, and stays within the two invariants of the store. */
  lemma ResetKeepsInvariants(st: State, profile: Profile)
    requires GoodProfile(profile)
    ensures Mirrored(Reset(st, profile).state)
    ensures BitsOnly(st) && profile.relay.coilOn <= 1 && profile.relay.coilOff <= 1 ==> BitsOnly(Reset(st, profile).state)
  {
    hide Cell, SetAll, EnableRelay, Jobs, Mirrored, AllSettable;
    var jobs := Jobs(profile.devices);
    SetAllMeans(st, jobs);
    EnableMirrors(SetAll(st, jobs).state, profile.relay);
    if BitsOnly(st) && profile.relay.coilOn <= 1 && profile.relay.coilOff <= 1 {
      SetAllKeepsBits(st, jobs);
      EnableKeepsBits(SetAll(st, jobs).state, profile.relay);
    }
  }

  lemma {:induction false} SetAllKeepsBits(st: State, jobs: seq<Job>)
    requires BitsOnly(st)
    ensures BitsOnly(SetAll(st, jobs).state)
    decreases |jobs|
  {
    hide BitsOnly, Set;
    if jobs != [] {
      SetKeepsBits(st, jobs[0].range.table, jobs[0].slave, jobs[0].range.address, jobs[0].range.values);
      SetAllKeepsBits(SetJob(st, jobs[0]).state, jobs[1..]);
    }
  }

  // ---- Reading the profile back ----

  predicate Overlap(x: Job, y: Job) {
    && x.slave == y.slave && x.range.table == y.range.table
    && x.range.address < y.range.address + |y.range.values|
    && y.range.address < x.range.address + |x.range.values|
  }

  ghost predicate ClearOfRelay(job: Job, spec: RelaySpec) {
    forall a: u16 :: Covers(job, job.slave, job.range.table, a) ==> InRelay(spec, job.slave, job.range.table, a) == None
  }

  /** No two ranges overlap, and none reaches into the relay's windows. */
  ghost predicate Disjoint(profile: Profile) {
    var jobs := Jobs(profile.devices);
    && (forall i, j | 0 <= i < j < |jobs| :: !Overlap(jobs[i], jobs[j]))
    && (forall i | 0 <= i < |jobs| :: ClearOfRelay(jobs[i], profile.relay))
  }

  lemma {:induction false} LastCovering(jobs: seq<Job>, i: nat, s: byte, t: Table, a: u16)
    requires i < |jobs| && Covers(jobs[i], s, t, a)
    requires forall j | i < j < |jobs| :: !Overlap(jobs[i], jobs[j])
    ensures LastValue(jobs, s, t, a) == Some(jobs[i].range.values[a - jobs[i].range.address])
    decreases |jobs|
  {
    var n := |jobs| - 1;
    if i < n {
      assert !Overlap(jobs[i], jobs[n]);
      assert jobs[..n][i] == jobs[i];
      forall j | i < j < n
        ensures !Overlap(jobs[..n][i], jobs[..n][j])
      {
        assert !Overlap(jobs[i], jobs[j]);
      }
      LastCovering(jobs[..n], i, s, t, a);
    }
  }

  /** After a reset, from any state and in either mode, every range of a profile of disjoint ranges reads back exactly
      as listed. */
  lemma ProfileReadsBack(st: State, profile: Profile, i: nat)
    requires GoodProfile(profile) && Disjoint(profile) && i < |Jobs(profile.devices)|
    ensures var job := Jobs(profile.devices)[i];
            |job.range.values| < 65536 ==>
              Read(Reset(st, profile).state, job.range.table, job.slave, job.range.address, |job.range.values|) ==
                Values(job.range.values)
  {
    hide Reset, Read, BitPrefix, Jobs, InRelay, LastValue;
    var jobs := Jobs(profile.devices);
    var job := jobs[i];
    assert Settable(job);
    forall k: u16 | k as int < |job.range.values| && job.range.address + k < 65536
      ensures Listed(profile, job.slave, job.range.table, job.range.address + k) == Some(job.range.values[k])
    {
      LastCovering(jobs, i, job.slave, job.range.table, job.range.address + k);
      assert ClearOfRelay(job, profile.relay);
      assert Covers(job, job.slave, job.range.table, job.range.address + k);
    }
    if |job.range.values| < 65536 {
      RangeReadsBack(st, profile, job);
    }
  }

  /** The profile gives this range these values. */
  predicate Alone(profile: Profile, job: Job) {
    forall k: u16 | k as int < |job.range.values| && job.range.address + k < 65536 ::
      Listed(profile, job.slave, job.range.table, job.range.address + k) == Some(job.range.values[k])
  }

  lemma RangeReadsBack(st: State, profile: Profile, job: Job)
    requires GoodProfile(profile) && Settable(job) && |job.range.values| < 65536 && Alone(profile, job)
    ensures Read(Reset(st, profile).state, job.range.table, job.slave, job.range.address, |job.range.values|)
         == Values(job.range.values)
  {
    hide Cell, Reset, Listed, Read, BitPrefix;
    var after := Reset(st, profile).state;
    ResetRestores(st, profile);
    forall k: u16 | k as int < |job.range.values|
      ensures Cell(after, job.slave, job.range.table, job.range.address + k) == Some(job.range.values[k])
    {
      assert Listed(profile, job.slave, job.range.table, job.range.address + k) == Some(job.range.values[k]);
    }
    assert AllMapped(after, job.slave, job.range.table, job.range.address, |job.range.values|) by {
      forall a: u16 | job.range.address <= a < job.range.address + |job.range.values|
        ensures Cell(after, job.slave, job.range.table, a).Some?
      {
        var k: u16 := a - job.range.address;
        assert k as int < |job.range.values| && job.range.address + k == a;
        assert Cell(after, job.slave, job.range.table, job.range.address + k) == Some(job.range.values[k]);
        assert Cell(after, job.slave, job.range.table, job.range.address + k).Some?;
      }
    }
    ReadMeans(after, job.range.table, job.slave, job.range.address, |job.range.values|);
    var r := Read(after, job.range.table, job.slave, job.range.address, |job.range.values|);
    if r.Values? {
      forall i | 0 <= i < |job.range.values|
        ensures r.values[i] == job.range.values[i]
      {
        var k: u16 := i;
        assert Cell(after, job.slave, job.range.table, job.range.address + k) == Some(job.range.values[k]);
      }
      assert r.values == job.range.values;
    }
  }

  // ---- The built-in profile ----

  lemma OneSensor(device: Device, range: Range, rest: seq<Device>)
    requires device.ranges == [range] && device.key != RELAY_KEY
    ensures Jobs([device] + rest) == [Job(device.slave, range)] + Jobs(rest)
  {
    assert ([device] + rest)[1..] == rest;
  }

  lemma NoSensor(device: Device)
    requires device.key == RELAY_KEY
    ensures Jobs([device]) == []
  {
    assert [device][1..] == [];
  }

  lemma SensorKeys()
    ensures XY_MD02.key != RELAY_KEY && FLOWMETER.key != RELAY_KEY && EC4400.key != RELAY_KEY
    ensures SENSOR_6.key != RELAY_KEY && SENSOR_1.key != RELAY_KEY && METER_3.key != RELAY_KEY
    ensures CHLORINE.key != RELAY_KEY && RELAY_8CH.key == RELAY_KEY
  {
    assert |RELAY_KEY| == 9 && |XY_MD02.key| == 7 && |FLOWMETER.key| == 12 && |EC4400.key| == 6;
    assert |SENSOR_6.key| == 8 && |SENSOR_1.key| == 8 && |METER_3.key| == 7 && |CHLORINE.key| == 8;
  }

  const LAB_JOBS: seq<Job> :=
    [ Job(8, Range(Input, 1, [285, 720])), Job(15, Range(Holding, 0, [125, 4582])), Job(2, Range(Holding, 0, [1800])),
      Job(6, Range(Holding, 0, [65, 55])), Job(1, Range(Holding, 0, [270, 72])),
      Job(3, Range(Holding, 0, [1234, 56700])), Job(4, Range(Holding, 2, [0x4020, 0x0000])) ]

  lemma LabJobs()
    ensures Jobs(SWS_LAB.devices) == LAB_JOBS
  {
    hide Jobs;
    SensorKeys();
    var d7 := [RELAY_8CH];
    NoSensor(RELAY_8CH);
    var d6 := [CHLORINE] + d7;
    OneSensor(CHLORINE, Range(Holding, 2, [0x4020, 0x0000]), d7);
    var d5 := [METER_3] + d6;
    OneSensor(METER_3, Range(Holding, 0, [1234, 56700]), d6);
    var d4 := [SENSOR_1] + d5;
    OneSensor(SENSOR_1, Range(Holding, 0, [270, 72]), d5);
    var d3 := [SENSOR_6] + d4;
    OneSensor(SENSOR_6, Range(Holding, 0, [65, 55]), d4);
    var d2 := [EC4400] + d3;
    OneSensor(EC4400, Range(Holding, 0, [1800]), d3);
    var d1 := [FLOWMETER] + d2;
    OneSensor(FLOWMETER, Range(Holding, 0, [125, 4582]), d2);
    var d0 := [XY_MD02] + d1;
    OneSensor(XY_MD02, Range(Input, 1, [285, 720]), d1);
    assert d0 == SWS_LAB.devices;
  }

  lemma LabJob(i: nat)
    requires i < 7
    ensures Settable(LAB_JOBS[i]) && LAB_JOBS[i].slave != 5
  {
    hide BitPrefix;
  }

  lemma LabSlaves(i: nat, j: nat)
    requires i < j < 7
    ensures LAB_JOBS[i].slave != LAB_JOBS[j].slave
  {
  }

  /** The built-in lab profile is good and its ranges are disjoint, so it is restored as described above. */
  lemma LabIsGood()
    ensures GoodProfile(SWS_LAB) && Disjoint(SWS_LAB)
    ensures SWS_LAB.relay.coilOn <= 1 && SWS_LAB.relay.coilOff <= 1
  {
    hide Jobs, Settable, LAB_JOBS;
    LabJobs();
    assert |LAB_JOBS| == 7 by { LabCount(); }
    forall i | 0 <= i < 7
      ensures Settable(LAB_JOBS[i]) && ClearOfRelay(LAB_JOBS[i], LAB_RELAY)
    {
      LabJob(i);
    }
    forall i, j | 0 <= i < j < 7
      ensures !Overlap(LAB_JOBS[i], LAB_JOBS[j])
    {
      LabSlaves(i, j);
    }
  }

  lemma LabCount()
    ensures |LAB_JOBS| == 7
  {
  }

  /** Its relay device's two listed ranges read back as listed as well: they are the off state of the relay. */
  lemma LabRelayReadsBack(st: State)
    ensures Read(Reset(st, SWS_LAB).state, Coil, 5, 0, 8) == Values(RELAY_COILS.values)
    ensures Read(Reset(st, SWS_LAB).state, Holding, 5, 1, 8) == Values(RELAY_HOLDING.values)
  {
    hide Reset, Read, GoodProfile, Disjoint;
    LabIsGood();
    RelayAlone();
    RangeReadsBack(st, SWS_LAB, Job(5, RELAY_COILS));
    RangeReadsBack(st, SWS_LAB, Job(5, RELAY_HOLDING));
  }

  lemma RelayAlone()
    ensures Settable(Job(5, RELAY_COILS)) && Alone(SWS_LAB, Job(5, RELAY_COILS))
    ensures Settable(Job(5, RELAY_HOLDING)) && Alone(SWS_LAB, Job(5, RELAY_HOLDING))
  {
    hide LastValue, Jobs, BitPrefix, InRelay;
    BitPrefixFull(RELAY_COILS.values);
    forall k: u16 | k < 8
      ensures InRelay(LAB_RELAY, 5, Coil, 0 + k) == Some(1) && RELAY_COILS.values[k] == 1
      ensures InRelay(LAB_RELAY, 5, Holding, 1 + k) == Some(512) && RELAY_HOLDING.values[k] == 512
    {
      LabChannel(k);
    }
  }

  lemma LabChannel(k: u16)
    requires k < 8
    ensures InRelay(LAB_RELAY, 5, Coil, k) == Some(1) && RELAY_COILS.values[k] == 1
    ensures InRelay(LAB_RELAY, 5, Holding, 1 + k) == Some(512) && RELAY_HOLDING.values[k] == 512
  {
  }
  /** What the lab reads after a reset from any state, in either mode, device by device. */
  lemma LabReads(st: State)
    ensures var after := Reset(st, SWS_LAB).state;
            && Read(after, Input, 8, 1, 2) == Values([285, 720])
            && Read(after, Holding, 15, 0, 2) == Values([125, 4582])
            && Read(after, Holding, 2, 0, 1) == Values([1800])
            && Read(after, Holding, 6, 0, 2) == Values([65, 55])
            && Read(after, Holding, 1, 0, 2) == Values([270, 72])
            && Read(after, Holding, 3, 0, 2) == Values([1234, 56700])
            && Read(after, Holding, 4, 2, 2) == Values([0x4020, 0x0000])
            && Read(after, Coil, 5, 0, 8) == Values([1, 1, 1, 1, 1, 1, 1, 1])
            && Read(after, Holding, 5, 1, 8) == Values([512, 512, 512, 512, 512, 512, 512, 512])
  {
    hide Reset, Read, GoodProfile, Disjoint, Jobs;
    LabIsGood();
    LabJobs();
    forall i | 0 <= i < 7
      ensures var job := LAB_JOBS[i];
              Read(Reset(st, SWS_LAB).state, job.range.table, job.slave, job.range.address, |job.range.values|)
                == Values(job.range.values)
    {
      ProfileReadsBack(st, SWS_LAB, i);
    }
    LabRelayReadsBack(st);
    LabJobList();
  }

  lemma LabJobList()
    ensures |LAB_JOBS| == 7
    ensures LAB_JOBS[0] == Job(8, Range(Input, 1, [285, 720])) && LAB_JOBS[1] == Job(15, Range(Holding, 0, [125, 4582]))
    ensures LAB_JOBS[2] == Job(2, Range(Holding, 0, [1800])) && LAB_JOBS[3] == Job(6, Range(Holding, 0, [65, 55]))
    ensures LAB_JOBS[4] == Job(1, Range(Holding, 0, [270, 72])) && LAB_JOBS[5] == Job(3, Range(Holding, 0, [1234, 56700]))
    ensures LAB_JOBS[6] == Job(4, Range(Holding, 2, [0x4020, 0x0000]))
  {
  }

  /** And what its relay does then: it is active low, so a coil written as 0 or a holding register written as 256 switches its
      channel on, 1 or 512 off, each seen in the other view. */
  lemma LabSwitches(st: State, k: u16, on: bool)
    requires k < 8
    ensures var lab := Reset(st, SWS_LAB).state;
            var byCoil := Write(lab, Coil, 5, k, [if on then 0 else 1]);
            var byHolding := Write(lab, Holding, 5, 1 + k, [if on then 256 else 512]);
            && byCoil.error == None && byHolding.error == None
            && Cell(byCoil.state, 5, Holding, 1 + k) == Some(if on then 256 else 512)
            && Cell(byCoil.state, 5, Coil, k) == Some(if on then 0 else 1)
            && Cell(byHolding.state, 5, Coil, k) == Some(if on then 0 else 1)
            && Cell(byHolding.state, 5, Holding, 1 + k) == Some(if on then 256 else 512)
  {
    hide Reset, Cell, Write, GoodProfile, Disjoint, Judge, Asked, AcceptedPrefix, ChannelOf, Wrap;
    LabIsGood();
    ResetRestores(st, SWS_LAB);
    var lab := Reset(st, SWS_LAB).state;
    LabSwitch(lab, Coil, k, if on then 0 else 1, k, on);
    LabSwitch(lab, Holding, 1 + k, if on then 256 else 512, k, on);
  }

  lemma LabSwitch(lab: State, table: Table, a: u16, raw: u16, k: u16, on: bool)
    requires lab.relay == Some(LAB_RELAY) && k < 8
    requires (table == Coil && a == k && raw == if on then 0 else 1)
             || (table == Holding && a == 1 + k && raw == if on then 256 else 512)
    ensures var r := Write(lab, table, 5, a, [raw]);
            && r.error == None
            && Cell(r.state, 5, Coil, k) == Some(if on then 0 else 1)
            && Cell(r.state, 5, Holding, 1 + k) == Some(if on then 256 else 512)
  {
    hide Cell, Write, AcceptedPrefix, Asked;
    var values := [raw];
    RelayWriteMeans(lab, table, a, values);
    assert Judge(LAB_RELAY, table, a + 0, values[0]) == Switch(k, on);
    var n := AcceptedPrefix(LAB_RELAY, table, a, values);
    assert n == 1;
    assert values[..1] == values;
    AskedMeans(LAB_RELAY, table, a, values, k, on);
    assert ChannelOf(0, k) == k && ChannelOf(1, 1 + k) == k;
  }
}
