/** Cables that join two ports of one switch, with frames in flight on them.
    Once every cable has a dead end the storm burns out within a bound fixed in
    advance, and one delivered round of probes gives every cable a dead end. */
module Storm {
  import opened Prelude
  import opened OrderedSets
  import opened Frame
  import opened LoopGuard
  import opened Ports
  import opened MacTables
  import opened SwitchModel
  import SwitchLaws
  import SwitchRuns
  import DaemonModel

  type Cables = map<PortId, PortId>

  type Bytes = seq<u8>

  /** Every cable joins two different ports and is the same cable from both ends. */
  ghost predicate ValidCables(cables: Cables) {
    forall p | p in cables :: cables[p] != p && cables[p] in cables && cables[cables[p]] == p
  }

  /** A frame about to arrive at `port`. */
  datatype InFlight = InFlight(port: PortId, bytes: Bytes)

  datatype Loop = Loop(sw: State, wire: seq<InFlight>)

  datatype LoopStep =
    | Arrive(i: nat, now: nat)
    | Inject(port: PortId, bytes: Bytes)
    | Tick(senders: seq<PortId>)
    | Manage(op: Op)

  /** Nothing brings a port to life: no `add_port`, no `unblock_port`. */
  predicate Calm(step: LoopStep) {
    step.Manage? ==> step.op.OpRemovePort? || step.op.OpBlockPort? || step.op.OpAgeOut?
  }

  /** What deliveries become on the cables: each one to a cabled port arrives at its far end. */
  function Echo(cables: Cables, sent: seq<Delivery>): seq<InFlight> {
    if sent == [] then
      []
    else
      var d := sent[|sent| - 1];
      var before := Echo(cables, sent[..|sent| - 1]);
      if d.port in cables then before + [InFlight(cables[d.port], d.bytes)] else before
  }

  /** Exactly those: nothing sent into a cable is lost, and nothing else appears. */
  lemma {:induction false} EchoExactly(cables: Cables, sent: seq<Delivery>, f: InFlight)
    ensures f in Echo(cables, sent) <==>
            exists d :: d in sent && d.port in cables && f == InFlight(cables[d.port], d.bytes)
  {
    if sent != [] {
      var n := |sent| - 1;
      EchoExactly(cables, sent[..n], f);
      assert sent == sent[..n] + [sent[n]];
    }
  }

  /** The switch's probe, sent raw out of each of `senders`, on the cables. */
  function ProbeRound(cables: Cables, senders: seq<PortId>, probeId: u64): seq<InFlight> {
    if senders == [] then
      []
    else
      var p := senders[|senders| - 1];
      var before := ProbeRound(cables, senders[..|senders| - 1], probeId);
      if p in cables then before + [InFlight(cables[p], ProbeBytes(probeId))] else before
  }

  function Without<T>(s: seq<T>, i: nat): seq<T>
    requires i < |s|
  {
    s[..i] + s[i + 1..]
  }

  ghost function ArriveAt(cables: Cables, s: State, f: InFlight, now: nat): Loop {
    if Parse(f.bytes).Err? then
      Loop(s, [])
    else
      var (t, r) := Forward(s, f.port, Parse(f.bytes).value, now);
      Loop(t, if r.Ok? then Echo(cables, r.value) else [])
  }

  ghost function Next(cables: Cables, l: Loop, step: LoopStep): Loop {
    match step
    case Arrive(i, now) =>
      if i >= |l.wire| then
        l
      else
        var after := ArriveAt(cables, l.sw, l.wire[i], now);
        Loop(after.sw, Without(l.wire, i) + after.wire)
    case Inject(port, bytes) => l.(wire := l.wire + [InFlight(port, bytes)])
    case Tick(senders) => l.(wire := l.wire + ProbeRound(cables, senders, l.sw.probeId))
    case Manage(op) => l.(sw := Step(l.sw, op))
  }

  ghost function RunLoop(cables: Cables, l: Loop, steps: seq<LoopStep>): Loop {
    if steps == [] then l
    else Next(cables, RunLoop(cables, l, steps[..|steps| - 1]), steps[|steps| - 1])
  }

  /** A port that lets traffic through. */
  predicate Active(s: State, p: PortId) {
    p in s.ports && !s.ports[p].blocked
  }

  /** Every cable has an end that is blocked or gone. */
  ghost predicate Contained(cables: Cables, s: State) {
    forall p | p in cables :: !Active(s, p) || !Active(s, cables[p])
  }

  // ---------------------------------------------------------------- ports only die

  lemma CalmStepKills(cables: Cables, l: Loop, step: LoopStep, p: PortId)
    requires Calm(step)
    ensures Active(Next(cables, l, step).sw, p) ==> Active(l.sw, p)
    ensures Next(cables, l, step).sw.ports.Keys <= l.sw.ports.Keys
    ensures Next(cables, l, step).sw.probeId == l.sw.probeId
  {
    if step.Arrive? && step.i < |l.wire| && Parse(l.wire[step.i].bytes).Ok? {
      SwitchRuns.ForwardTable(l.sw, l.wire[step.i].port, Parse(l.wire[step.i].bytes).value, step.now);
    }
  }

  lemma CalmStepKeepsValid(cables: Cables, l: Loop, step: LoopStep)
    requires SwitchLaws.Valid(l.sw) && Calm(step)
    ensures SwitchLaws.Valid(Next(cables, l, step).sw)
  {
    if step.Arrive? && step.i < |l.wire| && Parse(l.wire[step.i].bytes).Ok? {
      SwitchLaws.ForwardKeepsValid(l.sw, l.wire[step.i].port, Parse(l.wire[step.i].bytes).value, step.now);
    } else if step.Manage? {
      SwitchLaws.StepKeepsValid(l.sw, step.op);
    }
  }

  // ---------------------------------------------------------------- the measure

  /** An arrival at a live port can be answered by at most `n` more, at a dead one by none. */
  function Weight(s: State, n: nat, f: InFlight): nat {
    if Active(s, f.port) then n + 1 else 1
  }

  function Measure(s: State, n: nat, wire: seq<InFlight>): nat {
    if wire == [] then 0 else Measure(s, n, wire[..|wire| - 1]) + Weight(s, n, wire[|wire| - 1])
  }

  lemma {:induction false} MeasureConcat(s: State, n: nat, a: seq<InFlight>, b: seq<InFlight>)
    ensures Measure(s, n, a + b) == Measure(s, n, a) + Measure(s, n, b)
  {
    if b == [] {
      assert a + b == a;
    } else {
      MeasureConcat(s, n, a, b[..|b| - 1]);
      assert (a + b)[..|a + b| - 1] == a + b[..|b| - 1];
    }
  }

  lemma MeasureWithout(s: State, n: nat, wire: seq<InFlight>, i: nat)
    requires i < |wire|
    ensures Measure(s, n, wire) == Measure(s, n, Without(wire, i)) + Weight(s, n, wire[i])
  {
    assert wire == wire[..i] + [wire[i]] + wire[i + 1..];
    MeasureConcat(s, n, wire[..i] + [wire[i]], wire[i + 1..]);
    MeasureConcat(s, n, wire[..i], [wire[i]]);
    MeasureConcat(s, n, wire[..i], wire[i + 1..]);
    assert [wire[i]][..0] == [];
  }

  lemma {:induction false} MeasureFallsWithActivity(s: State, t: State, n: nat, wire: seq<InFlight>)
    requires forall p :: Active(t, p) ==> Active(s, p)
    ensures Measure(t, n, wire) <= Measure(s, n, wire)
  {
    if wire != [] {
      MeasureFallsWithActivity(s, t, n, wire[..|wire| - 1]);
    }
  }

  lemma {:induction false} MeasureBound(s: State, n: nat, wire: seq<InFlight>)
    ensures Measure(s, n, wire) <= (n + 1) * |wire|
  {
    if wire != [] {
      MeasureBound(s, n, wire[..|wire| - 1]);
    }
  }

  /** In a contained loop whatever a switch sends lands on dead ports. */
  lemma {:induction false} EchoIsLight(cables: Cables, s: State, n: nat, sent: seq<Delivery>)
    requires Contained(cables, s) && forall d | d in sent :: Active(s, d.port)
    ensures Measure(s, n, Echo(cables, sent)) == |Echo(cables, sent)| <= |sent|
  {
    if sent != [] {
      var k := |sent| - 1;
      assert forall d | d in sent[..k] :: d in sent;
      EchoIsLight(cables, s, n, sent[..k]);
      assert Active(s, sent[k].port);
      if sent[k].port in cables {
        var f := InFlight(cables[sent[k].port], sent[k].bytes);
        MeasureConcat(s, n, Echo(cables, sent[..k]), [f]);
        assert [f][..0] == [];
      }
    }
  }

  /** Forwarding sends at most one copy per registered port, and only through live ones. */
  lemma SentBound(s: State, ingress: PortId, frame: EthernetFrame, now: nat)
    requires SwitchLaws.Valid(s)
    ensures var r := Forward(s, ingress, frame, now).1;
            r.Ok? ==>
              && |r.value| <= |s.ports|
              && (!Active(s, ingress) ==> r.value == [])
              && forall d | d in r.value :: Active(s, d.port)
  {
    SwitchLaws.DeliveredOnlyToCarriers(s, ingress, frame, now);
    var admitted := Admitted(s, ingress, frame);
    if admitted.Some? {
      SwitchLaws.ForwardRefinesHub(s, ingress, frame, now);
      var targets := FloodTargets(s.ports, admitted.value, ingress);
      SwitchLaws.DeliveriesCount(s.ports, targets, admitted.value, frame);
      SubsetSize(FloodSet(s.ports, admitted.value, ingress), s.ports.Keys);
      SubsetSize({ingress}, s.ports.Keys);
      assert |s.ports| == |s.ports.Keys|;
    }
  }

  /** One arrival strictly lowers the measure of a contained loop. */
  lemma ArrivalLowersMeasure(cables: Cables, l: Loop, i: nat, now: nat, n: nat)
    requires SwitchLaws.Valid(l.sw) && Contained(cables, l.sw) && |l.sw.ports| <= n && i < |l.wire|
    ensures var m := Next(cables, l, Arrive(i, now));
            Measure(m.sw, n, m.wire) < Measure(l.sw, n, l.wire)
  {
    var f := l.wire[i];
    var rest := Without(l.wire, i);
    var after := ArriveAt(cables, l.sw, f, now);
    MeasureWithout(l.sw, n, l.wire, i);
    MeasureConcat(l.sw, n, rest, after.wire);
    if Parse(f.bytes).Ok? {
      var r := Forward(l.sw, f.port, Parse(f.bytes).value, now).1;
      SentBound(l.sw, f.port, Parse(f.bytes).value, now);
      if r.Ok? {
        EchoIsLight(cables, l.sw, n, r.value);
      }
    }
    assert Measure(l.sw, n, after.wire) < Weight(l.sw, n, f);
    forall p
      ensures Active(after.sw, p) ==> Active(l.sw, p)
    {
      CalmStepKills(cables, l, Arrive(i, now), p);
    }
    MeasureFallsWithActivity(l.sw, after.sw, n, rest + after.wire);
  }

  // ---------------------------------------------------------------- the storm ends

  /** How many frames `step` takes off the wire. */
  function Taken(l: Loop, step: LoopStep): nat {
    if step.Arrive? && step.i < |l.wire| then 1 else 0
  }

  ghost function Arrivals(cables: Cables, l: Loop, steps: seq<LoopStep>): nat {
    if steps == [] then
      0
    else
      var k := |steps| - 1;
      Arrivals(cables, l, steps[..k]) + Taken(RunLoop(cables, l, steps[..k]), steps[k])
  }

  /** What a step may add from outside, at n + 1 for each frame: an injected one, or one probe a sender. */
  function Feed(n: nat, step: LoopStep): nat {
    match step
    case Inject(_, _) => n + 1
    case Tick(senders) => (n + 1) * |senders|
    case _ => 0
  }

  function Budget(n: nat, steps: seq<LoopStep>): nat {
    if steps == [] then 0 else Budget(n, steps[..|steps| - 1]) + Feed(n, steps[|steps| - 1])
  }

  lemma {:induction false} ProbeRoundLength(cables: Cables, senders: seq<PortId>, probeId: u64)
    ensures |ProbeRound(cables, senders, probeId)| <= |senders|
  {
    if senders != [] {
      ProbeRoundLength(cables, senders[..|senders| - 1], probeId);
    }
  }

  lemma CalmStepKeepsContained(cables: Cables, l: Loop, step: LoopStep)
    requires Contained(cables, l.sw) && Calm(step)
    ensures Contained(cables, Next(cables, l, step).sw)
    ensures |Next(cables, l, step).sw.ports| <= |l.sw.ports|
  {
    var m := Next(cables, l, step);
    forall p | p in cables
      ensures !Active(m.sw, p) || !Active(m.sw, cables[p])
    {
      CalmStepKills(cables, l, step, p);
      CalmStepKills(cables, l, step, cables[p]);
    }
    CalmStepKills(cables, l, step, 0);
    SubsetSize(m.sw.ports.Keys, l.sw.ports.Keys);
    assert |m.sw.ports| == |m.sw.ports.Keys| && |l.sw.ports| == |l.sw.ports.Keys|;
  }

  /** How any calm step moves the measure: an arrival lowers it, a fed frame raises it by at most n + 1. */
  lemma StepMovesMeasure(cables: Cables, l: Loop, step: LoopStep, n: nat)
    requires SwitchLaws.Valid(l.sw) && Contained(cables, l.sw) && |l.sw.ports| <= n && Calm(step)
    ensures var m := Next(cables, l, step);
            Measure(m.sw, n, m.wire) + Taken(l, step) <= Measure(l.sw, n, l.wire) + Feed(n, step)
  {
    match step
    case Arrive(i, now) =>
      if i < |l.wire| {
        ArrivalLowersMeasure(cables, l, i, now, n);
      }
    case Inject(port, bytes) =>
      var fed := [InFlight(port, bytes)];
      MeasureConcat(l.sw, n, l.wire, fed);
      assert fed[..0] == [];
    case Tick(senders) =>
      TickRaisesMeasure(cables, l, senders, n);
    case Manage(op) =>
      ManageKeepsMeasure(cables, l, op, n);
  }

  lemma TickRaisesMeasure(cables: Cables, l: Loop, senders: seq<PortId>, n: nat)
    ensures Measure(l.sw, n, l.wire + ProbeRound(cables, senders, l.sw.probeId))
            <= Measure(l.sw, n, l.wire) + (n + 1) * |senders|
  {
    var probes := ProbeRound(cables, senders, l.sw.probeId);
    ProbeRoundLength(cables, senders, l.sw.probeId);
    MeasureConcat(l.sw, n, l.wire, probes);
    MeasureBound(l.sw, n, probes);
    MulMono(n + 1, |probes|, |senders|);
  }

  lemma MulMono(a: nat, b: nat, c: nat)
    requires b <= c
    ensures a * b <= a * c
  {
  }

  lemma ManageKeepsMeasure(cables: Cables, l: Loop, op: Op, n: nat)
    requires Calm(Manage(op))
    ensures Measure(Step(l.sw, op), n, l.wire) <= Measure(l.sw, n, l.wire)
  {
    forall p
      ensures Active(Step(l.sw, op), p) ==> Active(l.sw, p)
    {
      CalmStepKills(cables, l, Manage(op), p);
    }
    MeasureFallsWithActivity(l.sw, Step(l.sw, op), n, l.wire);
  }

  /** Once every cable has a dead end, and while no port is added or unblocked, a run of any length
      contains only so many arrivals: a number fixed by what is on the wire at its start, plus n + 1
      for each frame fed in from outside. Nothing keeps circulating. */
  lemma {:induction false} StormEnds(cables: Cables, l: Loop, steps: seq<LoopStep>, n: nat)
    requires SwitchLaws.Valid(l.sw) && Contained(cables, l.sw) && n == |l.sw.ports|
    requires forall step | step in steps :: Calm(step)
    ensures var m := RunLoop(cables, l, steps);
            && SwitchLaws.Valid(m.sw) && Contained(cables, m.sw) && |m.sw.ports| <= n
            && Arrivals(cables, l, steps) + Measure(m.sw, n, m.wire) <= Measure(l.sw, n, l.wire) + Budget(n, steps)
  {
    if steps != [] {
      var k := |steps| - 1;
      assert forall step | step in steps[..k] :: step in steps;
      StormEnds(cables, l, steps[..k], n);
      var before := RunLoop(cables, l, steps[..k]);
      assert steps[k] in steps;
      StepMovesMeasure(cables, before, steps[k], n);
      CalmStepKeepsContained(cables, before, steps[k]);
      CalmStepKeepsValid(cables, before, steps[k]);
    }
  }

  // ---------------------------------------------------------------- probes

  predicate IsOwnProbeInFlight(s: State, f: InFlight) {
    f.bytes == ProbeBytes(s.probeId)
  }

  /** The port is dead already, or this switch's own probe is on its way to it. */
  ghost predicate Doomed(l: Loop, p: PortId) {
    !Active(l.sw, p) || exists f :: f in l.wire && f.port == p && IsOwnProbeInFlight(l.sw, f)
  }

  ghost predicate AllProbesDelivered(l: Loop) {
    forall f | f in l.wire :: !IsOwnProbeInFlight(l.sw, f)
  }

  lemma DoomFulfilled(l: Loop, p: PortId)
    requires Doomed(l, p) && AllProbesDelivered(l)
    ensures !Active(l.sw, p)
  {
  }

  lemma {:induction false} ProbeRoundReaches(cables: Cables, senders: seq<PortId>, probeId: u64, p: PortId)
    requires p in senders && p in cables
    ensures InFlight(cables[p], ProbeBytes(probeId)) in ProbeRound(cables, senders, probeId)
  {
    var k := |senders| - 1;
    if senders[k] != p {
      assert senders == senders[..k] + [senders[k]];
      ProbeRoundReaches(cables, senders[..k], probeId, p);
    }
  }

  /** An own probe kills the port it arrives at and is not answered. */
  lemma OwnProbeKills(cables: Cables, s: State, f: InFlight, now: nat)
    requires IsOwnProbeInFlight(s, f)
    ensures !Active(ArriveAt(cables, s, f, now).sw, f.port)
    ensures ArriveAt(cables, s, f, now).wire == []
  {
    ProbeRecognition(s.probeId, s.probeId, []);
    assert f.bytes + [] == f.bytes;
  }

  lemma OthersStay<T>(s: seq<T>, i: nat, x: T)
    requires i < |s| && x in s && x != s[i]
    ensures x in Without(s, i)
  {
    var k :| 0 <= k < |s| && s[k] == x;
    assert Without(s, i)[if k < i then k else k - 1] == x;
  }

  lemma DoomedStaysDoomed(cables: Cables, l: Loop, step: LoopStep, p: PortId)
    requires Calm(step) && Doomed(l, p)
    ensures Doomed(Next(cables, l, step), p)
  {
    var m := Next(cables, l, step);
    CalmStepKills(cables, l, step, p);
    if Active(m.sw, p) {
      var f :| f in l.wire && f.port == p && IsOwnProbeInFlight(l.sw, f);
      if step.Arrive? && step.i < |l.wire| {
        OwnProbeKills(cables, l.sw, f, step.now);
        OthersStay(l.wire, step.i, f);
      }
      assert f in m.wire;
    }
  }

  lemma {:induction false} DoomHolds(cables: Cables, l: Loop, steps: seq<LoopStep>, p: PortId)
    requires Doomed(l, p) && forall step | step in steps :: Calm(step)
    ensures Doomed(RunLoop(cables, l, steps), p)
  {
    if steps != [] {
      var k := |steps| - 1;
      assert forall step | step in steps[..k] :: step in steps;
      DoomHolds(cables, l, steps[..k], p);
      assert steps[k] in steps;
      DoomedStaysDoomed(cables, RunLoop(cables, l, steps[..k]), steps[k], p);
    }
  }

  /** One round of probes sent out of every cabled port, and every probe of it delivered, in whatever
      order and amid whatever other traffic: both ends of every cable are then blocked or gone. */
  lemma ProbeRoundContains(cables: Cables, l: Loop, senders: seq<PortId>, steps: seq<LoopStep>)
    requires ValidCables(cables) && forall p | p in cables :: p in senders
    requires forall step | step in steps :: Calm(step)
    requires var m := RunLoop(cables, Next(cables, l, Tick(senders)), steps);
             AllProbesDelivered(m)
    ensures var m := RunLoop(cables, Next(cables, l, Tick(senders)), steps);
            && (forall p | p in cables :: !Active(m.sw, p))
            && Contained(cables, m.sw)
  {
    var ticked := Next(cables, l, Tick(senders));
    var m := RunLoop(cables, ticked, steps);
    forall p | p in cables
      ensures !Active(m.sw, p)
    {
      ProbeRoundReaches(cables, senders, l.sw.probeId, cables[p]);
      var probe := InFlight(p, ProbeBytes(l.sw.probeId));
      assert probe in ticked.wire && IsOwnProbeInFlight(ticked.sw, probe);
      DoomHolds(cables, ticked, steps, p);
      DoomFulfilled(m, p);
    }
  }

  lemma {:induction false} CalmRunKeepsValid(cables: Cables, l: Loop, steps: seq<LoopStep>)
    requires SwitchLaws.Valid(l.sw) && forall step | step in steps :: Calm(step)
    ensures SwitchLaws.Valid(RunLoop(cables, l, steps).sw)
  {
    if steps != [] {
      var k := |steps| - 1;
      assert forall step | step in steps[..k] :: step in steps;
      CalmRunKeepsValid(cables, l, steps[..k]);
      assert steps[k] in steps;
      CalmStepKeepsValid(cables, RunLoop(cables, l, steps[..k]), steps[k]);
    }
  }

  /** The loop guard ends any storm on self-loops: after one delivered round of probes, every further
      run has boundedly many arrivals, whatever was circulating before. */
  lemma GuardEndsStorm(cables: Cables, l: Loop, senders: seq<PortId>, steps: seq<LoopStep>, later: seq<LoopStep>)
    requires SwitchLaws.Valid(l.sw)
    requires ValidCables(cables) && forall p | p in cables :: p in senders
    requires forall step | step in steps + later :: Calm(step)
    requires var m := RunLoop(cables, Next(cables, l, Tick(senders)), steps);
             AllProbesDelivered(m)
    ensures var m := RunLoop(cables, Next(cables, l, Tick(senders)), steps);
            var n := |m.sw.ports|;
            Arrivals(cables, m, later) <= Measure(m.sw, n, m.wire) + Budget(n, later)
  {
    assert forall step | step in steps :: step in steps + later;
    assert forall step | step in later :: step in steps + later;
    ProbeRoundContains(cables, l, senders, steps);
    var ticked := Next(cables, l, Tick(senders));
    CalmRunKeepsValid(cables, ticked, steps);
    var m := RunLoop(cables, ticked, steps);
    StormEnds(cables, m, later, |m.sw.ports|);
  }

  /** How many frames in flight a switch would recognise as probes of any switch. */
  function Probes(wire: seq<InFlight>): nat {
    if wire == [] then
      0
    else
      var f := wire[|wire| - 1];
      Probes(wire[..|wire| - 1]) + (if Parse(f.bytes).Ok? && IsAnyProbe(Parse(f.bytes).value) then 1 else 0)
  }

  lemma {:induction false} ProbesConcat(a: seq<InFlight>, b: seq<InFlight>)
    ensures Probes(a + b) == Probes(a) + Probes(b)
  {
    if b == [] {
      assert a + b == a;
    } else {
      ProbesConcat(a, b[..|b| - 1]);
      assert (a + b)[..|a + b| - 1] == a + b[..|b| - 1];
    }
  }

  lemma {:induction false} EchoHasNoProbes(cables: Cables, sent: seq<Delivery>)
    requires forall d | d in sent :: Parse(d.bytes).Ok? && !IsAnyProbe(Parse(d.bytes).value)
    ensures Probes(Echo(cables, sent)) == 0
  {
    if sent != [] {
      var k := |sent| - 1;
      assert forall d | d in sent[..k] :: d in sent;
      EchoHasNoProbes(cables, sent[..k]);
      assert Parse(sent[k].bytes).Ok? && !IsAnyProbe(Parse(sent[k].bytes).value);
      if sent[k].port in cables {
        var f := InFlight(cables[sent[k].port], sent[k].bytes);
        ProbesConcat(Echo(cables, sent[..k]), [f]);
        assert [f][..0] == [];
      }
    }
  }

  /** Probes never multiply: an arrival takes one off the wire if it was one, and never adds any. */
  lemma ProbesNeverMultiply(cables: Cables, l: Loop, i: nat, now: nat)
    requires SwitchLaws.Valid(l.sw) && i < |l.wire|
    ensures Probes(Next(cables, l, Arrive(i, now)).wire) == Probes(l.wire) - Probes([l.wire[i]])
  {
    var f := l.wire[i];
    var after := ArriveAt(cables, l.sw, f, now);
    assert l.wire == l.wire[..i] + [f] + l.wire[i + 1..];
    ProbesConcat(l.wire[..i] + [f], l.wire[i + 1..]);
    ProbesConcat(l.wire[..i], [f]);
    ProbesConcat(l.wire[..i], l.wire[i + 1..]);
    ProbesConcat(Without(l.wire, i), after.wire);
    if Parse(f.bytes).Ok? {
      var frame := Parse(f.bytes).value;
      var r := Forward(l.sw, f.port, frame, now).1;
      SwitchLaws.DeliveredOnlyToCarriers(l.sw, f.port, frame, now);
      if r.Ok? {
        forall d | d in r.value
          ensures Parse(d.bytes).Ok? && !IsAnyProbe(Parse(d.bytes).value)
        {
          ParseThenWrite(f.bytes);
          var mode := l.sw.ports[d.port].mode;
          SwitchLaws.OneHop(mode, mode, d.port, Admitted(l.sw, f.port, frame).value, frame);
        }
        EchoHasNoProbes(cables, r.value);
      }
    }
  }

  // ---------------------------------------------------------------- without the guard

  /** A cable between two live access ports of one VLAN, with a broadcast about to arrive at `p`. */
  ghost predicate Circulating(cables: Cables, l: Loop, p: PortId, bytes: Bytes) {
    && SwitchLaws.Valid(l.sw)
    && p in cables && cables[p] != p && cables[p] in cables && cables[cables[p]] == p
    && Active(l.sw, p) && Active(l.sw, cables[p])
    && l.sw.ports[p].mode.Access? && l.sw.ports[cables[p]].mode == l.sw.ports[p].mode
    && IsPlainBroadcast(bytes)
    && InFlight(p, bytes) in l.wire
  }

  predicate IsPlainBroadcast(bytes: Bytes) {
    && Parse(bytes).Ok?
    && Parse(bytes).value.tag.None?
    && Parse(bytes).value.dst == BROADCAST
    && !IsAnyProbe(Parse(bytes).value)
  }

  lemma {:induction false} EchoMember(cables: Cables, sent: seq<Delivery>, d: Delivery)
    requires d in sent && d.port in cables
    ensures InFlight(cables[d.port], d.bytes) in Echo(cables, sent)
  {
    var k := |sent| - 1;
    if d != sent[k] {
      assert sent == sent[..k] + [sent[k]];
      EchoMember(cables, sent[..k], d);
    }
  }

  /** Such a broadcast is flooded into the other end and is back where it was, byte for byte. */
  lemma BroadcastComesBack(cables: Cables, l: Loop, p: PortId, bytes: Bytes, i: nat, now: nat)
    requires Circulating(cables, l, p, bytes) && i < |l.wire| && l.wire[i] == InFlight(p, bytes)
    ensures Circulating(cables, Next(cables, l, Arrive(i, now)), p, bytes)
  {
    var frame := Parse(bytes).value;
    var q := cables[p];
    var vlan := l.sw.ports[p].mode.vlan;
    ParseThenWrite(bytes);
    SwitchLaws.ForwardKeepsValid(l.sw, p, frame, now);
    SwitchRuns.ForwardTable(l.sw, p, frame, now);
    SwitchLaws.ForwardRefinesHub(l.sw, p, frame, now);
    var hub := SwitchLaws.HubDeliveries(l.sw, p, vlan, frame);
    assert EgressFrame(l.sw.ports[q].mode, vlan, frame) == frame;
    SwitchLaws.DeliveriesMembers(l.sw.ports, FloodTargets(l.sw.ports, vlan, p), vlan, frame, Delivery(q, bytes));
    EchoMember(cables, hub, Delivery(q, bytes));
  }

  /** Without a dead end the storm need not stop: from such a loop there are runs, made of arrivals
      alone, of every length. */
  lemma {:induction false} LiveCableCirculates(cables: Cables, l: Loop, p: PortId, bytes: Bytes, k: nat)
      returns (steps: seq<LoopStep>)
    requires Circulating(cables, l, p, bytes)
    ensures |steps| == k && forall step | step in steps :: step.Arrive? && Calm(step)
    ensures Arrivals(cables, l, steps) == k
    ensures Circulating(cables, RunLoop(cables, l, steps), p, bytes)
  {
    if k == 0 {
      steps := [];
    } else {
      var before := LiveCableCirculates(cables, l, p, bytes, k - 1);
      var m := RunLoop(cables, l, before);
      var i :| 0 <= i < |m.wire| && m.wire[i] == InFlight(p, bytes);
      BroadcastComesBack(cables, m, p, bytes, i, 0);
      steps := before + [Arrive(i, 0)];
      assert steps[..k - 1] == before;
    }
  }

  // ---------------------------------------------------------------- the daemon's probes

  lemma {:induction false} ProbeRoundExactly(cables: Cables, senders: seq<PortId>, probeId: u64, f: InFlight)
    ensures f in ProbeRound(cables, senders, probeId) <==>
            exists p :: p in senders && p in cables && f == InFlight(cables[p], ProbeBytes(probeId))
  {
    if senders != [] {
      var n := |senders| - 1;
      ProbeRoundExactly(cables, senders[..n], probeId, f);
      assert senders == senders[..n] + [senders[n]];
    }
  }

  /** A round of probes is what the daemon's probe tick puts in its queues, once its writers have put
      that on the cables: the last frame of each queue that had room. */
  lemma RoundIsTheDaemons(cables: Cables, w: DaemonModel.World, senders: seq<PortId>, f: InFlight)
    requires forall p :: p in senders <==> p in w.d.handles && |w.d.handles[p]| < 256
    ensures var ticked := DaemonModel.Next(w, DaemonModel.ProbeTick).d.handles;
            && (forall p | p in senders :: p in ticked && |ticked[p]| == |w.d.handles[p]| + 1)
            && (f in ProbeRound(cables, senders, w.d.sw.probeId) <==>
                exists p :: p in senders && p in cables && f == InFlight(cables[p], ticked[p][|ticked[p]| - 1]))
  {
    forall p | p in senders
      ensures DaemonModel.Next(w, DaemonModel.ProbeTick).d.handles[p]
              == w.d.handles[p] + [ProbeBytes(w.d.sw.probeId)]
    {
      DaemonModel.ProbeTickQueues(w, p);
    }
    ProbeRoundExactly(cables, senders, w.d.sw.probeId, f);
  }
}
