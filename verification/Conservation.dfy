/** Counters conserve traffic: over any run, what the ports counted plus what
    was thrown away with removed ports is what the VLANs counted. */
module Conservation {
  import opened Prelude
  import opened OrderedSets
  import opened Frame
  import opened Ports
  import opened SwitchModel
  import opened SwitchLaws
  import opened SwitchRuns
  import LoopGuard

  /** The traffic counters. Drops are left aside: VLANs count none. */
  datatype Field = FramesIn | BytesIn | FramesOut | BytesOut

  function Get(c: Counters, f: Field): nat {
    match f
    case FramesIn => c.framesIn
    case BytesIn => c.bytesIn
    case FramesOut => c.framesOut
    case BytesOut => c.bytesOut
  }

  /** The sum of one counter over `keys`. */
  ghost function Sum<K>(m: map<K, Counters>, keys: set<K>, f: Field): int {
    if keys == {} then
      0
    else
      var k := Pick(keys);
      Sum(m, keys - {k}, f) + Get(CountersOf(m, k), f)
  }

  ghost function Total<K>(m: map<K, Counters>, f: Field): int {
    Sum(m, m.Keys, f)
  }

  /** Any key can be split off a sum, not just the one its definition picks. */
  lemma {:induction false} SumSplit<K>(m: map<K, Counters>, keys: set<K>, k: K, f: Field)
    requires k in keys
    ensures Sum(m, keys, f) == Sum(m, keys - {k}, f) + Get(CountersOf(m, k), f)
  {
    var j := Pick(keys);
    if j != k {
      SumSplit(m, keys - {j}, k, f);
      SumSplit(m, keys - {k}, j, f);
      assert keys - {j} - {k} == keys - {k} - {j};
    }
  }

  lemma {:induction false} SumAgree<K>(m: map<K, Counters>, n: map<K, Counters>, keys: set<K>, f: Field)
    requires forall k | k in keys :: CountersOf(m, k) == CountersOf(n, k)
    ensures Sum(m, keys, f) == Sum(n, keys, f)
  {
    if keys != {} {
      SumAgree(m, n, keys - {Pick(keys)}, f);
    }
  }

  /** Removing a key takes exactly its counters out of the sum. */
  lemma TotalWithout<K>(m: map<K, Counters>, k: K, f: Field)
    ensures Total(m, f) == Total(m - {k}, f) + Get(CountersOf(m, k), f)
  {
    if k in m {
      SumSplit(m, m.Keys, k, f);
      SumAgree(m, m - {k}, m.Keys - {k}, f);
      assert (m - {k}).Keys == m.Keys - {k};
    } else {
      assert m - {k} == m;
    }
  }

  /** Replacing the counters under one key changes the sum by the difference. */
  lemma TotalUpdate<K>(m: map<K, Counters>, k: K, c: Counters, f: Field)
    ensures Total(m[k := c], f) == Total(m, f) - Get(CountersOf(m, k), f) + Get(c, f)
  {
    TotalWithout(m, k, f);
    TotalWithout(m[k := c], k, f);
    assert m[k := c] - {k} == m - {k};
  }

  lemma TotalCountIn<K>(m: map<K, Counters>, k: K, len: nat, f: Field)
    ensures Total(CountIn(m, k, len), f) == Total(m, f) + Get(Counters(1, len, 0, 0, 0), f)
  {
    var c := CountersOf(m, k);
    TotalUpdate(m, k, c.(framesIn := c.framesIn + 1, bytesIn := c.bytesIn + len), f);
  }

  lemma TotalCountOut<K>(m: map<K, Counters>, k: K, len: nat, f: Field)
    ensures Total(CountOut(m, k, len), f) == Total(m, f) + Get(Counters(0, 0, 1, len, 0), f)
  {
    var c := CountersOf(m, k);
    TotalUpdate(m, k, c.(framesOut := c.framesOut + 1, bytesOut := c.bytesOut + len), f);
  }

  lemma TotalCountDrop<K>(m: map<K, Counters>, k: K, f: Field)
    ensures Total(CountDrop(m, k), f) == Total(m, f)
  {
    var c := CountersOf(m, k);
    TotalUpdate(m, k, c.(drops := c.drops + 1), f);
  }

  /** How much more the VLANs counted than the ports. */
  ghost function Surplus(s: State, f: Field): int {
    Total(s.vlanCounters, f) - Total(s.portCounters, f)
  }

  lemma {:induction false} DeliveriesBalance(s: State, vlan: Vlan, ds: seq<Delivery>, f: Field)
    ensures Surplus(CountDeliveries(s, vlan, ds), f) == Surplus(s, f)
  {
    if ds != [] {
      var n := |ds| - 1;
      DeliveriesBalance(s, vlan, ds[..n], f);
      var t := CountDeliveries(s, vlan, ds[..n]);
      TotalCountOut(t.portCounters, ds[n].port, |ds[n].bytes|, f);
      TotalCountOut(t.vlanCounters, vlan, |ds[n].bytes|, f);
    }
  }

  lemma ForwardBalances(s: State, ingress: PortId, frame: EthernetFrame, now: nat, f: Field)
    ensures Surplus(Forward(s, ingress, frame, now).0, f) == Surplus(s, f)
  {
    TotalCountDrop(s.portCounters, ingress, f);
    var admitted := Admitted(s, ingress, frame);
    if admitted.Some? {
      var t := Ingested(s, ingress, admitted.value, frame, now);
      TotalCountIn(s.portCounters, ingress, frame.WireLen(), f);
      TotalCountIn(s.vlanCounters, admitted.value, frame.WireLen(), f);
      DeliveriesBalance(t, admitted.value,
        Deliveries(t.ports, EgressPorts(t, ingress, admitted.value, frame.dst), admitted.value, frame), f);
    }
  }

  /** What `op` throws away of one counter: that of a removed port. */
  function RetiredBy(s: State, op: Op, f: Field): nat {
    if op.OpRemovePort? then Get(CountersOf(s.portCounters, op.port), f) else 0
  }

  ghost function Retired(s: State, ops: seq<Op>, f: Field): nat {
    if ops == [] then
      0
    else
      var n := |ops| - 1;
      Retired(s, ops[..n], f) + RetiredBy(Run(s, ops[..n]), ops[n], f)
  }

  lemma StepBalances(s: State, op: Op, f: Field)
    ensures Surplus(Step(s, op), f) == Surplus(s, f) + RetiredBy(s, op, f)
  {
    match op
    case OpForward(ingress, frame, now) => ForwardBalances(s, ingress, frame, now, f);
    case OpRemovePort(port) => TotalWithout(s.portCounters, port, f);
    case _ =>
  }

  /** Frames in, bytes in, frames out and bytes out: over any run, the sum over the ports plus what
      removed ports took with them is the sum over the VLANs. */
  lemma {:induction false} TrafficIsConserved(probeId: u64, ops: seq<Op>, f: Field)
    ensures var s := Run(Init(probeId), ops);
            Total(s.portCounters, f) + Retired(Init(probeId), ops, f) == Total(s.vlanCounters, f)
  {
    if ops != [] {
      var n := |ops| - 1;
      TrafficIsConserved(probeId, ops[..n], f);
      StepBalances(Run(Init(probeId), ops[..n]), ops[n], f);
    }
  }

  /** Along any run only registered ports have counters, and no VLAN ever counts a drop. */
  lemma CountersStayWithPorts(probeId: u64, ops: seq<Op>, v: Vlan)
    requires Legal(ops)
    ensures var s := Run(Init(probeId), ops);
            && s.portCounters.Keys <= s.ports.Keys
            && CountersOf(s.vlanCounters, v).drops == 0
  {
    assert ops[..|ops|] == ops;
    ReachableIsValid(probeId, ops, |ops|);
  }

  /** Every non-probe frame that arrives on a registered port is counted there exactly once, as a frame
      in or as a drop. */
  lemma EveryArrivalCountedOnce(s: State, ingress: PortId, frame: EthernetFrame, now: nat)
    requires ingress in s.ports && !LoopGuard.IsAnyProbe(frame)
    ensures var before := CountersOf(s.portCounters, ingress);
            var after := CountersOf(Forward(s, ingress, frame, now).0.portCounters, ingress);
            after.framesIn + after.drops == before.framesIn + before.drops + 1
  {
    ForwardCountsExactly(s, ingress, frame, now, ingress, 1);
  }
}
