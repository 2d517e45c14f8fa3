/** Starting and closing the RTU slave, as interleaved steps.

    Start and Close each have one critical section under the slave's mutex; the loop's rereading of port and stop
    channel is another. Between them any goroutine may run. A step is one such section, or one of the actions outside
    the mutex: Close closing the port it took, the two halves of Close's wait, and the loop's select, turn and failed
    write. */
module Lifecycle {
  import opened Words

  /** Where a loop goroutine is. A loop counts in the wait group until it is Gone. */
  datatype Loop = AtTop | Fetched(port: nat, stop: nat) | Reading(port: nat) | Gone

  /** A call of Close that found a port: it holds the port; has closed it; waits on the wait group; has been released
      by it but has not run yet; has returned. */
  datatype Closer = Holding(port: nat) | Unwaited | Waiting | Waking | Returned

  /** Ports and stop channels are numbered in the order they come into being. panicked is set by closing a closed
      channel or a negative wait group, reused by a waiter that wakes up to find the wait group in use again: both are
      run-time panics. */
  datatype Slave = Slave(port: Option<nat>, stop: nat, closed: set<nat>, waitGroup: int,
                         loops: seq<Loop>, closers: seq<Closer>, ports: nat, stops: nat, panicked: bool, reused: bool)

  const INITIAL := Slave(None, 0, {}, 0, [], [], 0, 1, false, false)

  datatype Step =
    | Start
    | Take
    | Shut(closer: nat)
    | Wait(closer: nat)
    | Wake(closer: nat)
    | Fetch(loop: nat)
    | Select(loop: nat)
    | Turn(loop: nat)
    | Fail(loop: nat)

  predicate Enabled(s: Slave, step: Step) {
    match step
    case Start => true
    case Take => true
    case Shut(c) => c < |s.closers| && s.closers[c].Holding?
    case Wait(c) => c < |s.closers| && s.closers[c].Unwaited?
    case Wake(c) => c < |s.closers| && s.closers[c].Waking?
    case Fetch(l) => l < |s.loops| && s.loops[l].AtTop?
    case Select(l) => l < |s.loops| && s.loops[l].Fetched?
    case Turn(l) => l < |s.loops| && s.loops[l].Reading?
    case Fail(l) => l < |s.loops| && s.loops[l].Reading?
  }

  function Released(closers: seq<Closer>): (r: seq<Closer>)
    ensures |r| == |closers|
  {
    seq(|closers|, i requires 0 <= i < |closers| => if closers[i].Waiting? then Waking else closers[i])
  }

  /** The loop returns: its Done counts the wait group down and, at zero, releases every waiter. */
  function Leave(s: Slave, l: nat): Slave
    requires l < |s.loops|
  {
    s.(loops := s.loops[l := Gone], waitGroup := s.waitGroup - 1, panicked := s.panicked || s.waitGroup <= 0,
       closers := if s.waitGroup == 1 then Released(s.closers) else s.closers)
  }

  function Next(s: Slave, step: Step): Slave
    requires Enabled(s, step)
  {
    match step
    case Start =>
      if s.port.Some? then s.(ports := s.ports + 1)
      else
        s.(port := Some(s.ports), ports := s.ports + 1, stop := s.stops, stops := s.stops + 1,
           waitGroup := s.waitGroup + 1, loops := s.loops + [AtTop])
    case Take =>
      if s.port.None? then s
      else
        s.(closed := s.closed + {s.stop}, panicked := s.panicked || s.stop in s.closed,
           port := None, closers := s.closers + [Holding(s.port.value)])
    case Shut(c) => s.(closers := s.closers[c := Unwaited])
    case Wait(c) => s.(closers := s.closers[c := if s.waitGroup == 0 then Returned else Waiting])
    case Wake(c) => s.(closers := s.closers[c := Returned], reused := s.reused || s.waitGroup != 0)
    case Fetch(l) =>
      if s.port.None? then Leave(s, l) else s.(loops := s.loops[l := Fetched(s.port.value, s.stop)])
    case Select(l) =>
      if s.loops[l].stop in s.closed then Leave(s, l) else s.(loops := s.loops[l := Reading(s.loops[l].port)])
    case Turn(l) => s.(loops := s.loops[l := AtTop])
    case Fail(l) => Leave(s, l)
  }

  /** The state after the steps, if each could be taken in turn. */
  function Run(s: Slave, steps: seq<Step>): Option<Slave>
    decreases |steps|
  {
    if steps == [] then Some(s)
    else if !Enabled(s, steps[0]) then None
    else Run(Next(s, steps[0]), steps[1..])
  }

  // ---- Counting ----

  function Sum(weights: seq<nat>): nat {
    if weights == [] then 0 else weights[0] + Sum(weights[1..])
  }

  lemma {:induction false} SumUpdate(weights: seq<nat>, i: nat, w: nat)
    requires i < |weights|
    ensures Sum(weights[i := w]) + weights[i] == Sum(weights) + w
  {
    if i == 0 {
      assert weights[0 := w][1..] == weights[1..];
    } else {
      assert weights[i := w][1..] == weights[1..][i - 1 := w];
      SumUpdate(weights[1..], i - 1, w);
    }
  }

  lemma {:induction false} SumAppend(weights: seq<nat>, w: nat)
    ensures Sum(weights + [w]) == Sum(weights) + w
  {
    if weights != [] {
      assert (weights + [w])[1..] == weights[1..] + [w];
      SumAppend(weights[1..], w);
    }
  }

  lemma {:induction false} SumZero(weights: seq<nat>)
    ensures Sum(weights) == 0 <==> forall i | 0 <= i < |weights| :: weights[i] == 0
  {
    if weights != [] {
      SumZero(weights[1..]);
      assert weights == [weights[0]] + weights[1..];
    }
  }

  function LoopWeights(loops: seq<Loop>): (r: seq<nat>)
    ensures |r| == |loops|
  {
    seq(|loops|, i requires 0 <= i < |loops| => if loops[i].Gone? then 0 else 1)
  }

  function CloserWeights(closers: seq<Closer>): (r: seq<nat>)
    ensures |r| == |closers|
  {
    seq(|closers|, i requires 0 <= i < |closers| => if closers[i].Waking? || closers[i].Returned? then 0 else 1)
  }

  /** How many loops are live, and how many calls of Close the wait group has not let go yet. */
  function Live(s: Slave): nat {
    Sum(LoopWeights(s.loops))
  }

  function Closing(s: Slave): nat {
    Sum(CloserWeights(s.closers))
  }

  lemma LoopChanges(s: Slave, l: nat, to: Loop)
    requires l < |s.loops| && !s.loops[l].Gone?
    ensures Sum(LoopWeights(s.loops[l := to])) == if to.Gone? then Live(s) - 1 else Live(s)
    ensures Live(s) >= 1
  {
    var w := if to.Gone? then 0 else 1;
    SumUpdate(LoopWeights(s.loops), l, w);
    assert LoopWeights(s.loops)[l := w] == LoopWeights(s.loops[l := to]);
    SumZero(LoopWeights(s.loops));
    assert LoopWeights(s.loops)[l] == 1;
  }

  lemma NoneLive(s: Slave)
    requires Live(s) == 0
    ensures forall l | 0 <= l < |s.loops| :: s.loops[l].Gone?
  {
    SumZero(LoopWeights(s.loops));
    forall l | 0 <= l < |s.loops|
      ensures s.loops[l].Gone?
    {
      assert LoopWeights(s.loops)[l] == 0;
    }
  }

  lemma LoopStarts(s: Slave)
    ensures Sum(LoopWeights(s.loops + [AtTop])) == Live(s) + 1
  {
    SumAppend(LoopWeights(s.loops), 1);
    assert LoopWeights(s.loops) + [1] == LoopWeights(s.loops + [AtTop]);
  }

  lemma CloserChanges(s: Slave, c: nat, to: Closer)
    requires c < |s.closers| && !s.closers[c].Returned? && !s.closers[c].Waking?
    ensures Sum(CloserWeights(s.closers[c := to])) == if to.Returned? || to.Waking? then Closing(s) - 1 else Closing(s)
    ensures Closing(s) >= 1
  {
    var w := if to.Returned? || to.Waking? then 0 else 1;
    SumUpdate(CloserWeights(s.closers), c, w);
    assert CloserWeights(s.closers)[c := w] == CloserWeights(s.closers[c := to]);
    SumZero(CloserWeights(s.closers));
    assert CloserWeights(s.closers)[c] == 1;
  }

  lemma CloserWakes(s: Slave, c: nat)
    requires c < |s.closers| && s.closers[c].Waking?
    ensures Sum(CloserWeights(s.closers[c := Returned])) == Closing(s)
  {
    assert CloserWeights(s.closers[c := Returned]) == CloserWeights(s.closers);
  }

  lemma CloserStarts(s: Slave, p: nat)
    ensures Sum(CloserWeights(s.closers + [Holding(p)])) == Closing(s) + 1
  {
    SumAppend(CloserWeights(s.closers), 1);
    assert CloserWeights(s.closers) + [1] == CloserWeights(s.closers + [Holding(p)]);
  }

  // ---- Safety under every interleaving ----

  function Open(s: Slave): nat {
    if s.port.Some? then 1 else 0
  }

  predicate Safe(s: Slave) {
    && !s.panicked
    && s.waitGroup == Live(s)
    && (forall c | 0 <= c < |s.closers| && s.closers[c].Waiting? :: s.waitGroup > 0)
    && (s.port.Some? ==> s.stop !in s.closed)
    && Live(s) <= Closing(s) + Open(s)
    && Numbered(s)
  }

  /** Every port and stop channel in hand has been given its number, and no Close is about to close the open port. */
  predicate Numbered(s: Slave) {
    && s.stop < s.stops
    && (forall c | c in s.closed :: c < s.stops)
    && (s.port.Some? ==> s.port.value < s.ports)
    && (forall l | 0 <= l < |s.loops| && s.loops[l].Fetched? :: s.loops[l].port < s.ports)
    && (forall l | 0 <= l < |s.loops| && s.loops[l].Reading? :: s.loops[l].port < s.ports)
    && (forall c | 0 <= c < |s.closers| && s.closers[c].Holding? :: s.closers[c].port < s.ports)
    && (s.port.Some? ==> forall c | 0 <= c < |s.closers| && s.closers[c].Holding? :: s.closers[c].port != s.port.value)
  }

  lemma StepNumbered(s: Slave, step: Step)
    requires Numbered(s) && Enabled(s, step)
    ensures Numbered(Next(s, step))
  {
    hide Released;
    var next := Next(s, step);
    forall c | 0 <= c < |next.closers| && next.closers[c].Holding?
      ensures next.closers[c].port < s.ports
      ensures c < |s.closers| ==> s.closers[c] == next.closers[c]
      ensures c >= |s.closers| ==> step.Take? && s.port == Some(next.closers[c].port)
    {
      ReleasedHolding(s.closers);
    }
    forall l | 0 <= l < |next.loops| && (next.loops[l].Fetched? || next.loops[l].Reading?)
      ensures next.loops[l].port < s.ports
    {
    }
  }

  lemma ReleasedHolding(closers: seq<Closer>)
    ensures forall c | 0 <= c < |closers| && Released(closers)[c].Holding? :: closers[c] == Released(closers)[c]
  {
  }

  lemma StepSafe(s: Slave, step: Step)
    requires Safe(s) && Enabled(s, step)
    ensures Safe(Next(s, step))
  {
    hide Sum, LoopWeights, CloserWeights, Numbered;
    assert s.stop < s.stops && forall c | c in s.closed :: c < s.stops by { NumbersKnown(s); }
    StepNumbered(s, step);
    match step
    case Start => LoopStarts(s);
    case Take => if s.port.Some? { CloserStarts(s, s.port.value); }
    case Shut(c) => CloserChanges(s, c, Unwaited);
    case Wait(c) =>
      CloserChanges(s, c, Returned);
      CloserChanges(s, c, Waiting);
    case Wake(c) => CloserWakes(s, c);
    case Fetch(l) =>
      LoopChanges(s, l, Gone);
      if s.port.Some? {
        LoopChanges(s, l, Fetched(s.port.value, s.stop));
      }
    case Select(l) =>
      LoopChanges(s, l, Gone);
      LoopChanges(s, l, Reading(s.loops[l].port));
    case Turn(l) => LoopChanges(s, l, AtTop);
    case Fail(l) => LoopChanges(s, l, Gone);
  }

  lemma NumbersKnown(s: Slave)
    requires Numbered(s)
    ensures s.stop < s.stops && forall c | c in s.closed :: c < s.stops
  {
  }

  lemma InitialSafe()
    ensures Safe(INITIAL)
  {
  }

  lemma {:induction false} RunSafe(s: Slave, steps: seq<Step>)
    requires Safe(s) && Run(s, steps).Some?
    ensures Safe(Run(s, steps).value)
    decreases |steps|
  {
    hide Safe, Next, Enabled;
    if steps != [] {
      StepSafe(s, steps[0]);
      RunSafe(Next(s, steps[0]), steps[1..]);
    }
  }

  ghost predicate Reachable(s: Slave) {
    exists steps :: Run(INITIAL, steps) == Some(s)
  }

  /** In every state any interleaving of any number of Starts, Closes and loops can reach: no stop channel was ever
      closed twice and the wait group never went negative; an open port has an open stop channel, and is not one that a
      Close is about to close; the wait group counts the live loops, and nobody is left waiting on it at zero; and there
      are no more live loops than one for an open port and one for each Close it has not let go. */
  lemma AlwaysSafe(s: Slave)
    requires Reachable(s)
    ensures !s.panicked && s.waitGroup == Live(s)
    ensures s.port.Some? ==> s.stop !in s.closed
    ensures forall c | 0 <= c < |s.closers| && s.closers[c].Holding? :: s.port != Some(s.closers[c].port)
    ensures forall c | 0 <= c < |s.closers| && s.closers[c].Waiting? :: Live(s) > 0
    ensures Live(s) <= Closing(s) + Open(s)
  {
    ReachableSafe(s);
  }

  lemma ReachableSafe(s: Slave)
    requires Reachable(s)
    ensures Safe(s)
  {
    InitialSafe();
    var steps :| Run(INITIAL, steps) == Some(s);
    RunSafe(INITIAL, steps);
  }

  /** So whenever the wait group has let every Close go, at most one loop is live, and none if the port is closed. */
  lemma QuietMeansOneLoop(s: Slave)
    requires Reachable(s) && Closing(s) == 0
    ensures Live(s) <= 1
    ensures s.port.None? ==> Live(s) == 0
  {
    AlwaysSafe(s);
  }

  /** A Close returns at a step where no loop is live, or panics: it does the latter exactly when it wakes up to find a
      loop that was started after the one it waited for had gone. */
  lemma CloseReturnsAlone(s: Slave, step: Step, c: nat)
    requires Reachable(s) && Enabled(s, step) && !s.reused
    requires c < |s.closers| && !s.closers[c].Returned? && Next(s, step).closers[c].Returned?
    ensures Next(s, step).reused <==> Live(Next(s, step)) > 0
    ensures Next(s, step).reused ==> step == Wake(c)
  {
    hide Sum, LoopWeights;
    AlwaysSafe(s);
  }

  // ---- No loop turns to a port that was taken ----

  /** A loop that has fetched has its port and stop channel from one look: they are the current ones, or the channel is
      closed. */
  predicate FetchedTogether(s: Slave) {
    forall l | 0 <= l < |s.loops| && s.loops[l].Fetched? ::
      s.loops[l].stop in s.closed || (s.port == Some(s.loops[l].port) && s.loops[l].stop == s.stop)
  }

  lemma StepFetchedTogether(s: Slave, step: Step)
    requires FetchedTogether(s) && Enabled(s, step)
    ensures FetchedTogether(Next(s, step))
  {
    var next := Next(s, step);
    forall l | 0 <= l < |next.loops| && next.loops[l].Fetched?
      ensures next.loops[l].stop in next.closed || (next.port == Some(next.loops[l].port) && next.loops[l].stop == next.stop)
    {
      assert step == Fetch(l) || (l < |s.loops| && s.loops[l].Fetched?);
    }
  }

  lemma {:induction false} RunFetchedTogether(s: Slave, steps: seq<Step>)
    requires FetchedTogether(s) && Run(s, steps).Some?
    ensures FetchedTogether(Run(s, steps).value)
    decreases |steps|
  {
    hide FetchedTogether, Next, Enabled;
    if steps != [] {
      StepFetchedTogether(s, steps[0]);
      RunFetchedTogether(Next(s, steps[0]), steps[1..]);
    }
  }

  /** In every reachable state, whatever the step: a loop starts to read a port only while that port is open, so once a Close
      has taken a port no loop turns to it any more; and a loop that finds its stop channel closed returns. */
  lemma NeverTurnsToTakenPort(s: Slave, step: Step, l: nat, p: nat)
    requires Reachable(s) && Enabled(s, step)
    ensures var next := Next(s, step);
            && (l < |next.loops| && next.loops[l] == Reading(p) && s.port != Some(p) ==> l < |s.loops| && s.loops[l] == Reading(p))
            && (step == Select(l) && s.loops[l].stop in s.closed ==> next.loops[l] == Gone && next.waitGroup == s.waitGroup - 1)
            && (step == Select(l) && s.loops[l].stop !in s.closed ==>
                s.port == Some(s.loops[l].port) && next.loops[l] == Reading(s.loops[l].port))
  {
    var steps :| Run(INITIAL, steps) == Some(s);
    RunFetchedTogether(INITIAL, steps);
  }

  // ---- What can go wrong, and exactly when ----

  /** Things an operator expects of the slave at every moment: at most one loop is live; no two loops have the open port in
      hand; some loop serves an open port; the newest loop does; and no Close that has been let go would, if it woke now,
      find the wait group in use. */
  datatype Expectation = OneLoop | OneReader | PortServed | NewestServes | CalmWait

  /** Loop l has taken port p to read from. */
  predicate HasPort(s: Slave, l: nat, p: nat)
    requires l < |s.loops|
  {
    match s.loops[l]
    case Fetched(port, _) => port == p
    case Reading(port) => port == p
    case _ => false
  }

  predicate SomeOtherHasPort(s: Slave, l: nat, p: nat) {
    exists m | 0 <= m < |s.loops| && m != l :: HasPort(s, m, p)
  }

  /** Loop l goes on to read an open port: it is live, and its next look at its stop channel will not end it. */
  predicate Serves(s: Slave, l: nat)
    requires l < |s.loops|
  {
    !s.loops[l].Gone? && (s.loops[l].Fetched? ==> s.loops[l].stop == s.stop)
  }

  predicate SomeoneServes(s: Slave) {
    exists l | 0 <= l < |s.loops| :: Serves(s, l)
  }

  predicate SomeOtherServes(s: Slave, l: nat) {
    exists m | 0 <= m < |s.loops| && m != l :: Serves(s, m)
  }

  predicate SomeoneWakes(s: Slave) {
    exists c | 0 <= c < |s.closers| :: s.closers[c].Waking?
  }

  predicate Holds(e: Expectation, s: Slave) {
    match e
    case OneLoop => Live(s) <= 1
    case OneReader =>
      s.port.Some? ==> forall l, m | 0 <= l < m < |s.loops| :: !(HasPort(s, l, s.port.value) && HasPort(s, m, s.port.value))
    case PortServed => s.port.Some? ==> SomeoneServes(s)
    case NewestServes => s.port.Some? ==> s.loops != [] && Serves(s, |s.loops| - 1)
    case CalmWait => SomeoneWakes(s) ==> s.waitGroup == 0
  }

  predicate Commits(s: Slave, step: Step) {
    step.Start? && s.port.None?
  }

  /** The steps that disappoint: a Start that commits while the wait group is not zero; a loop's fetching of the open port
      while another has it; a failed write on an open port of the only loop that serves it, or of the newest; a Start that
      commits while a released Close has not run yet. */
  predicate Disappoints(e: Expectation, s: Slave, step: Step) {
    match e
    case OneLoop => Commits(s, step) && s.waitGroup > 0
    case OneReader => s.port.Some? && step.Fetch? && SomeOtherHasPort(s, step.loop, s.port.value)
    case PortServed => s.port.Some? && step.Fail? && !SomeOtherServes(s, step.loop)
    case NewestServes => s.port.Some? && step.Fail? && step.loop == |s.loops| - 1
    case CalmWait => Commits(s, step) && SomeoneWakes(s)
  }

  lemma ReaderHolds(s: Slave, step: Step)
    requires Safe(s) && Enabled(s, step) && Holds(OneReader, s)
    ensures Holds(OneReader, Next(s, step)) <==> !Disappoints(OneReader, s, step)
  {
    hide Sum, LoopWeights, CloserWeights;
    var next := Next(s, step);
    if Disappoints(OneReader, s, step) {
      var p, l := s.port.value, step.loop;
      var m :| 0 <= m < |s.loops| && m != l && HasPort(s, m, p);
      assert HasPort(next, l, p) && HasPort(next, m, p);
    } else if next.port.Some? {
      var p := next.port.value;
      forall l, m | 0 <= l < m < |next.loops|
        ensures !(HasPort(next, l, p) && HasPort(next, m, p))
      {
        if s.port.Some? {
          assert !(HasPort(s, l, p) && HasPort(s, m, p));
          if step.Fetch? {
            assert l == step.loop ==> !HasPort(s, m, p);
            assert m == step.loop ==> !HasPort(s, l, p);
          }
        }
      }
    }
  }

  lemma ServedHolds(s: Slave, step: Step)
    requires Safe(s) && Enabled(s, step) && Holds(PortServed, s)
    ensures Holds(PortServed, Next(s, step)) <==> !Disappoints(PortServed, s, step)
  {
    hide Sum, LoopWeights, CloserWeights;
    var next := Next(s, step);
    if s.port.Some? && next.port.Some? {
      if step.Fail? {
        if SomeOtherServes(s, step.loop) {
          var m :| 0 <= m < |s.loops| && m != step.loop && Serves(s, m);
          assert Serves(next, m);
        } else {
          forall m | 0 <= m < |next.loops|
            ensures !Serves(next, m)
          {
            assert m != step.loop ==> !Serves(s, m);
          }
        }
      } else {
        var l :| 0 <= l < |s.loops| && Serves(s, l);
        assert Serves(next, l);
      }
    } else if next.port.Some? {
      assert Serves(next, |s.loops|);
    }
  }

  lemma StepHolds(e: Expectation, s: Slave, step: Step)
    requires Safe(s) && Enabled(s, step) && Holds(e, s)
    ensures Holds(e, Next(s, step)) <==> !Disappoints(e, s, step)
  {
    hide Sum, LoopWeights, CloserWeights;
    match e
    case OneReader => ReaderHolds(s, step);
    case PortServed => ServedHolds(s, step);
    case _ => CountHolds(e, s, step);
  }

  lemma CountHolds(e: Expectation, s: Slave, step: Step)
    requires Safe(s) && Enabled(s, step) && Holds(e, s)
    requires e == OneLoop || e == NewestServes || e == CalmWait
    ensures Holds(e, Next(s, step)) <==> !Disappoints(e, s, step)
  {
    hide Sum, LoopWeights, CloserWeights, HasPort;
    match step
    case Start => LoopStarts(s);
    case Fetch(l) =>
      LoopChanges(s, l, Gone);
      if s.port.Some? {
        LoopChanges(s, l, Fetched(s.port.value, s.stop));
      }
    case Select(l) =>
      LoopChanges(s, l, Gone);
      LoopChanges(s, l, Reading(s.loops[l].port));
    case Turn(l) => LoopChanges(s, l, AtTop);
    case Fail(l) => LoopChanges(s, l, Gone);
    case _ =>
  }

  /** The expectation is met before, between and after the steps. */
  predicate Throughout(e: Expectation, s: Slave, steps: seq<Step>)
    decreases |steps|
  {
    Holds(e, s) && (steps != [] && Enabled(s, steps[0]) ==> Throughout(e, Next(s, steps[0]), steps[1..]))
  }

  predicate Avoids(e: Expectation, s: Slave, steps: seq<Step>)
    decreases |steps|
  {
    steps != [] && Enabled(s, steps[0]) ==> !Disappoints(e, s, steps[0]) && Avoids(e, Next(s, steps[0]), steps[1..])
  }

  lemma {:induction false} ThroughoutIff(e: Expectation, s: Slave, steps: seq<Step>)
    requires Safe(s) && Holds(e, s) && Run(s, steps).Some?
    ensures Throughout(e, s, steps) <==> Avoids(e, s, steps)
    ensures Throughout(e, s, steps) ==> Holds(e, Run(s, steps).value)
    decreases |steps|
  {
    hide Safe, Holds, Disappoints, Next, Enabled;
    if steps != [] {
      StepSafe(s, steps[0]);
      StepHolds(e, s, steps[0]);
      if Holds(e, Next(s, steps[0])) {
        ThroughoutIff(e, Next(s, steps[0]), steps[1..]);
      } else {
        assert !Throughout(e, Next(s, steps[0]), steps[1..]);
      }
    }
  }

  /** In every run from the beginning: at most one loop is live throughout exactly if every Start that commits finds the
      wait group at zero; no two loops ever have the open port in hand exactly if no loop fetches it while another has it;
      an open port is served throughout exactly if no loop fails a write on an open port that no other loop serves, and by
      the newest loop exactly if that one never does; and no Close is ever in a position to panic exactly if no Start
      commits while a released Close has not run yet. */
  lemma ExpectationsExactly(e: Expectation, steps: seq<Step>)
    requires Run(INITIAL, steps).Some?
    ensures Throughout(e, INITIAL, steps) <==> Avoids(e, INITIAL, steps)
    ensures Throughout(e, INITIAL, steps) ==> Holds(e, Run(INITIAL, steps).value)
  {
    InitialSafe();
    ThroughoutIff(e, INITIAL, steps);
  }

  /** Where nobody would wake into a wait group in use, no step panics; where somebody would, one can. */
  lemma ReuseExactly(s: Slave)
    requires Reachable(s) && !s.reused
    ensures Holds(CalmWait, s) <==> forall step | Enabled(s, step) :: !Next(s, step).reused
  {
    AlwaysSafe(s);
    if !Holds(CalmWait, s) {
      var c :| 0 <= c < |s.closers| && s.closers[c].Waking?;
      assert Enabled(s, Wake(c)) && Next(s, Wake(c)).reused;
    }
  }

  /** Start commits only while no Close is inside. */
  predicate Polite(s: Slave, step: Step) {
    Commits(s, step) ==> forall c | 0 <= c < |s.closers| :: s.closers[c].Returned?
  }

  predicate PoliteRun(s: Slave, steps: seq<Step>)
    decreases |steps|
  {
    steps != [] && Enabled(s, steps[0]) ==> Polite(s, steps[0]) && PoliteRun(Next(s, steps[0]), steps[1..])
  }

  lemma PoliteStep(s: Slave, step: Step)
    requires Safe(s) && Polite(s, step)
    ensures !Disappoints(OneLoop, s, step) && !Disappoints(CalmWait, s, step)
  {
    hide Sum, LoopWeights;
    SumZero(CloserWeights(s.closers));
  }

  lemma {:induction false} PoliteAvoids(s: Slave, steps: seq<Step>)
    requires Safe(s) && Run(s, steps).Some? && PoliteRun(s, steps)
    ensures Avoids(OneLoop, s, steps) && Avoids(CalmWait, s, steps)
    decreases |steps|
  {
    hide Safe, Polite, Disappoints, Next, Enabled;
    if steps != [] {
      StepSafe(s, steps[0]);
      PoliteStep(s, steps[0]);
      PoliteAvoids(Next(s, steps[0]), steps[1..]);
    }
  }

  /** In particular, if no Start commits while a Close is inside, at most one loop is ever live and no wait is ever
      surprised. */
  lemma OneLoopFromStart(steps: seq<Step>)
    requires Run(INITIAL, steps).Some? && PoliteRun(INITIAL, steps)
    ensures Throughout(OneLoop, INITIAL, steps) && Throughout(CalmWait, INITIAL, steps)
    ensures Live(Run(INITIAL, steps).value) <= 1
  {
    InitialSafe();
    PoliteAvoids(INITIAL, steps);
    ExpectationsExactly(OneLoop, steps);
    ExpectationsExactly(CalmWait, steps);
  }

  // ---- Each of them does go wrong ----

  lemma RunOne(s: Slave, step: Step, rest: seq<Step>, next: Slave)
    requires Enabled(s, step) && Next(s, step) == next
    ensures Run(s, [step] + rest) == Run(next, rest)
  {
    hide Next, Enabled;
    assert ([step] + rest)[1..] == rest;
  }

  lemma RunNone(s: Slave)
    ensures Run(s, []) == Some(s)
  {
  }

  /** A Start that lands inside an unfinished Close can leave the old loop, which rereads the port, and the new one both
      reading the new port, while that Close goes on waiting. */
  lemma TwoLoopsOnOnePort()
    ensures var steps := [Start, Fetch(0), Select(0), Take, Start, Turn(0), Fetch(0), Select(0), Fetch(1), Select(1), Shut(0), Wait(0)];
            var end := Run(INITIAL, steps);
            && end.Some? && end.value.loops == [Reading(1), Reading(1)]
            && end.value.port == Some(1) && end.value.closers == [Waiting] && !Holds(OneReader, end.value)
  {
    hide Run;
    var s1 := Slave(Some(0), 1, {}, 1, [AtTop], [], 1, 2, false, false);
    var s2 := s1.(loops := [Fetched(0, 1)]);
    var s3 := s1.(loops := [Reading(0)]);
    var s4 := Slave(None, 1, {1}, 1, [Reading(0)], [Holding(0)], 1, 2, false, false);
    var s5 := Slave(Some(1), 2, {1}, 2, [Reading(0), AtTop], [Holding(0)], 2, 3, false, false);
    var s6 := s5.(loops := [AtTop, AtTop]);
    var s7 := s5.(loops := [Fetched(1, 2), AtTop]);
    var s8 := s5.(loops := [Reading(1), AtTop]);
    var s9 := s5.(loops := [Reading(1), Fetched(1, 2)]);
    var s10 := s5.(loops := [Reading(1), Reading(1)]);
    var s11 := s10.(closers := [Unwaited]);
    var s12 := s10.(closers := [Waiting]);
    var r12: seq<Step> := [];
    var r11 := [Wait(0)] + r12;
    var r10 := [Shut(0)] + r11;
    var r9 := [Select(1)] + r10;
    var r8 := [Fetch(1)] + r9;
    var r7 := [Select(0)] + r8;
    var r6 := [Fetch(0)] + r7;
    var r5 := [Turn(0)] + r6;
    var r4 := [Start] + r5;
    var r3 := [Take] + r4;
    var r2 := [Select(0)] + r3;
    var r1 := [Fetch(0)] + r2;
    var r0 := [Start] + r1;
    RunOne(INITIAL, Start, r1, s1);
    RunOne(s1, Fetch(0), r2, s2);
    RunOne(s2, Select(0), r3, s3);
    RunOne(s3, Take, r4, s4);
    RunOne(s4, Start, r5, s5);
    RunOne(s5, Turn(0), r6, s6);
    RunOne(s6, Fetch(0), r7, s7);
    RunOne(s7, Select(0), r8, s8);
    RunOne(s8, Fetch(1), r9, s9);
    RunOne(s9, Select(1), r10, s10);
    RunOne(s10, Shut(0), r11, s11);
    RunOne(s11, Wait(0), r12, s12);
    RunNone(s12);
    assert HasPort(s12, 0, 1) && HasPort(s12, 1, 1);
    assert r0 == [Start, Fetch(0), Select(0), Take, Start, Turn(0), Fetch(0), Select(0), Fetch(1), Select(1), Shut(0), Wait(0)];
  }

  /** A Start that lands between the release of a waiting Close and its waking makes that Close panic. */
  lemma StartSurprisesClose()
    ensures var steps := [Start, Take, Shut(0), Wait(0), Fetch(0), Start, Wake(0)];
            Run(INITIAL, steps).Some? && Run(INITIAL, steps).value.reused
  {
    hide Run;
    var s1 := Slave(Some(0), 1, {}, 1, [AtTop], [], 1, 2, false, false);
    var s2 := Slave(None, 1, {1}, 1, [AtTop], [Holding(0)], 1, 2, false, false);
    var s3 := s2.(closers := [Unwaited]);
    var s4 := s2.(closers := [Waiting]);
    var s5 := s2.(waitGroup := 0, loops := [Gone], closers := [Waking]);
    var s6 := Slave(Some(1), 2, {1}, 1, [Gone, AtTop], [Waking], 2, 3, false, false);
    var s7 := s6.(closers := [Returned], reused := true);
    var r7: seq<Step> := [];
    var r6 := [Wake(0)] + r7;
    var r5 := [Start] + r6;
    var r4 := [Fetch(0)] + r5;
    var r3 := [Wait(0)] + r4;
    var r2 := [Shut(0)] + r3;
    var r1 := [Take] + r2;
    var r0 := [Start] + r1;
    RunOne(INITIAL, Start, r1, s1);
    RunOne(s1, Take, r2, s2);
    RunOne(s2, Shut(0), r3, s3);
    RunOne(s3, Wait(0), r4, s4);
    RunOne(s4, Fetch(0), r5, s5);
    RunOne(s5, Start, r6, s6);
    RunOne(s6, Wake(0), r7, s7);
    RunNone(s7);
    assert r0 == [Start, Take, Shut(0), Wait(0), Fetch(0), Start, Wake(0)];
  }

  /** A failed write ends its loop and leaves the port open, with one loop fewer and, if no Close is unfinished, none at
      all: Start then refuses, until a Close. */
  lemma FailedWriteLeavesPort(s: Slave, l: nat)
    requires Reachable(s) && Enabled(s, Fail(l)) && s.port.Some?
    ensures var dead := Next(s, Fail(l));
            && dead.port == s.port && Live(dead) == Live(s) - 1
            && (Closing(s) == 0 ==> Live(dead) == 0 && !Holds(PortServed, dead))
            && Next(dead, Start) == dead.(ports := dead.ports + 1)
            && Next(dead, Take).port == None
  {
    hide Sum, LoopWeights;
    AlwaysSafe(s);
    LoopChanges(s, l, Gone);
    if Closing(s) == 0 {
      NoneLive(Next(s, Fail(l)));
    }
  }

  // ---- Close gets to return ----

  function WorkOf(loop: Loop): nat {
    match loop
    case Gone => 0
    case AtTop => 1
    case Reading(_) => 2
    case Fetched(_, _) => 3
  }

  function WorkWeights(loops: seq<Loop>): (r: seq<nat>)
    ensures |r| == |loops|
  {
    seq(|loops|, i requires 0 <= i < |loops| => WorkOf(loops[i]))
  }

  /** How many steps the loops have left in them once the port is gone. */
  function Work(s: Slave): nat {
    Sum(WorkWeights(s.loops))
  }

  predicate IsLoopStep(step: Step) {
    step.Fetch? || step.Select? || step.Turn? || step.Fail?
  }

  function LoopSteps(steps: seq<Step>): nat {
    if steps == [] then 0 else (if IsLoopStep(steps[0]) then 1 else 0) + LoopSteps(steps[1..])
  }

  lemma WorkChanges(s: Slave, l: nat, to: Loop)
    requires l < |s.loops|
    ensures Sum(WorkWeights(s.loops[l := to])) + WorkOf(s.loops[l]) == Work(s) + WorkOf(to)
  {
    SumUpdate(WorkWeights(s.loops), l, WorkOf(to));
    assert WorkWeights(s.loops)[l := WorkOf(to)] == WorkWeights(s.loops[l := to]);
  }

  lemma WorkDrops(s: Slave, step: Step)
    requires Enabled(s, step) && s.port.None? && !step.Start?
    ensures Next(s, step).port.None?
    ensures IsLoopStep(step) ==> Work(Next(s, step)) < Work(s)
    ensures !IsLoopStep(step) ==> Work(Next(s, step)) == Work(s)
  {
    hide Sum, WorkWeights;
    match step
    case Fetch(l) => WorkChanges(s, l, Gone);
    case Select(l) =>
      WorkChanges(s, l, Gone);
      WorkChanges(s, l, Reading(s.loops[l].port));
    case Turn(l) => WorkChanges(s, l, AtTop);
    case Fail(l) => WorkChanges(s, l, Gone);
    case _ =>
  }

  /** With the port gone and no Start, the loops take at most Work more steps between them, whatever is interleaved. */
  lemma {:induction false} LoopsRunOut(s: Slave, steps: seq<Step>)
    requires s.port.None? && Run(s, steps).Some?
    requires forall i | 0 <= i < |steps| :: !steps[i].Start?
    ensures LoopSteps(steps) + Work(Run(s, steps).value) <= Work(s)
    ensures Run(s, steps).value.port.None?
    decreases |steps|
  {
    hide Next, Enabled, Work, IsLoopStep;
    if steps != [] {
      WorkDrops(s, steps[0]);
      LoopsRunOut(Next(s, steps[0]), steps[1..]);
    }
  }

  /** Until it is used up, some loop can take a step; once it is, nobody is left waiting, and every Close that has
      closed its port can return. */
  lemma CloseCanReturn(s: Slave)
    requires Reachable(s) && s.port.None?
    ensures Work(s) > 0 ==> exists step :: IsLoopStep(step) && Enabled(s, step)
    ensures Work(s) == 0 ==> forall c | 0 <= c < |s.closers| ::
              && !s.closers[c].Waiting?
              && (s.closers[c].Unwaited? ==> Next(s, Wait(c)).closers[c] == Returned)
              && (s.closers[c].Waking? ==> Next(s, Wake(c)).closers[c] == Returned && Next(s, Wake(c)).reused == s.reused)
  {
    hide Sum;
    AlwaysSafe(s);
    SumZero(WorkWeights(s.loops));
    SumZero(LoopWeights(s.loops));
    if Work(s) > 0 {
      var l :| 0 <= l < |s.loops| && WorkWeights(s.loops)[l] != 0;
      match s.loops[l]
      case AtTop => assert IsLoopStep(Fetch(l)) && Enabled(s, Fetch(l));
      case Fetched(_, _) => assert IsLoopStep(Select(l)) && Enabled(s, Select(l));
      case Reading(_) => assert IsLoopStep(Turn(l)) && Enabled(s, Turn(l));
    } else {
      forall i | 0 <= i < |s.loops|
        ensures LoopWeights(s.loops)[i] == 0
      {
        assert WorkWeights(s.loops)[i] == 0;
      }
    }
  }
}
