/** The switch with its maps updated in place. Each method is proved to take the
    state `Model()` exactly where the function of the same name in `SwitchModel`
    says, and to keep the invariant. */
module Switches {
  import opened Prelude
  import opened OrderedSets
  import opened Frame
  import opened Ports
  import opened MacTables
  import opened SwitchModel
  import opened SwitchLaws
  import LoopGuard
  import M = SwitchModel

  class Switch {
    var ports: PortMap
    const macTable: MacTable
    var portCounters: map<PortId, Counters>
    var vlanCounters: map<Vlan, Counters>
    const probeId: u64

    ghost function Model(): State
      reads this, macTable
    {
      State(ports, macTable.entries, portCounters, vlanCounters, probeId)
    }

    ghost predicate Valid()
      reads this, macTable
    {
      SwitchLaws.Valid(Model())
    }

    constructor WithProbeId(probeId: u64)
      ensures Model() == Init(probeId) && Valid()
      ensures fresh(macTable)
    {
      this.ports := map[];
      this.macTable := new MacTable();
      this.portCounters := map[];
      this.vlanCounters := map[];
      this.probeId := probeId;
    }

    method AddPort(port: PortId, mode: PortMode)
      requires Valid() && mode.Valid()
      modifies this, macTable
      ensures Model() == M.AddPort(old(Model()), port, mode) && Valid()
    {
      macTable.RemovePort(port);
      ports := ports[port := PortEntry(mode, false)];
      StepKeepsValid(old(Model()), OpAddPort(port, mode));
    }

    method RemovePort(port: PortId)
      requires Valid()
      modifies this, macTable
      ensures Model() == M.RemovePort(old(Model()), port) && Valid()
    {
      ports := ports - {port};
      macTable.RemovePort(port);
      portCounters := portCounters - {port};
      StepKeepsValid(old(Model()), OpRemovePort(port));
    }

    method AgeOut(maxAge: nat, now: nat) returns (evicted: nat)
      requires Valid()
      modifies macTable
      ensures Model() == M.AgeOut(old(Model()), maxAge, now) && Valid()
      ensures evicted == |old(Model()).table| - |Model().table|
    {
      evicted := macTable.EvictOlderThan(maxAge, now);
      StepKeepsValid(old(Model()), OpAgeOut(maxAge, now));
    }

    method BuildLoopProbe() returns (bytes: seq<u8>)
      ensures bytes == LoopGuard.ProbeBytes(probeId)
    {
      bytes := LoopGuard.BuildProbe(probeId);
    }

    method BlockPort(port: PortId)
      requires Valid()
      modifies this, macTable
      ensures Model() == M.BlockPort(old(Model()), port) && Valid()
    {
      if port in ports {
        ports := ports[port := ports[port].(blocked := true)];
      }
      macTable.RemovePort(port);
      StepKeepsValid(old(Model()), OpBlockPort(port));
    }

    method UnblockPort(port: PortId)
      requires Valid()
      modifies this
      ensures Model() == M.UnblockPort(old(Model()), port) && Valid()
    {
      if port in ports {
        ports := ports[port := ports[port].(blocked := false)];
      }
      StepKeepsValid(old(Model()), OpUnblockPort(port));
    }

    /** Every registered port's counters, block status and mode; all-zero counters if it has none. */
    function PortSnapshot(port: PortId): Option<(Counters, bool, PortMode)>
      reads this
    {
      if port in ports
      then Some((CountersOf(portCounters, port), ports[port].blocked, ports[port].mode))
      else None
    }

    method Forward(ingress: PortId, frame: EthernetFrame, now: nat) returns (r: Outcome)
      requires Valid()
      modifies this, macTable
      ensures (Model(), r) == M.Forward(old(Model()), ingress, frame, now) && Valid()
    {
      ForwardKeepsValid(Model(), ingress, frame, now);
      if LoopGuard.IsAnyProbe(frame) {
        r := HandleLoopProbe(ingress, frame);
        return;
      }
      if ingress !in ports {
        return Err(UnknownPort(ingress));
      }
      if ports[ingress].blocked {
        portCounters := CountDrop(portCounters, ingress);
        return Err(PortBlocked(ingress));
      }
      var resolved := IngressVlan(ports, ingress, frame);
      if resolved.Err? {
        portCounters := CountDrop(portCounters, ingress);
        return Err(resolved.error);
      }
      var deliveries := Admit(ingress, resolved.value, frame, now);
      return Ok(deliveries);
    }

    /** Counts and learns a frame that belongs to `vlan`, and encodes and counts its deliveries. */
    method Admit(ingress: PortId, vlan: Vlan, frame: EthernetFrame, now: nat) returns (deliveries: seq<Delivery>)
      modifies this, macTable
      ensures var t := Ingested(old(Model()), ingress, vlan, frame, now);
              && deliveries == Deliveries(t.ports, EgressPorts(t, ingress, vlan, frame.dst), vlan, frame)
              && Model() == CountDeliveries(t, vlan, deliveries)
    {
      portCounters := CountIn(portCounters, ingress, frame.WireLen());
      vlanCounters := CountIn(vlanCounters, vlan, frame.WireLen());
      if !IsGroupAddress(frame.src) {
        macTable.Learn(vlan, frame.src, ingress, now);
      }
      ghost var ingested := Model();
      assert ingested == Ingested(old(Model()), ingress, vlan, frame, now);

      var egressPorts := ChooseEgress(ingress, vlan, frame.dst);
      deliveries := EncodeAll(egressPorts, vlan, frame);
      CountAll(vlan, deliveries);
    }

    method CountAll(vlan: Vlan, deliveries: seq<Delivery>)
      modifies this
      ensures Model() == CountDeliveries(old(Model()), vlan, deliveries)
    {
      ghost var s := Model();
      for i := 0 to |deliveries|
        invariant macTable.entries == s.table
        invariant Model() == CountDeliveries(s, vlan, deliveries[..i])
      {
        assert deliveries[..i + 1][..i] == deliveries[..i];
        var len := |deliveries[i].bytes|;
        portCounters := CountOut(portCounters, deliveries[i].port, len);
        vlanCounters := CountOut(vlanCounters, vlan, len);
      }
      assert deliveries[..|deliveries|] == deliveries;
    }

    method ChooseEgress(ingress: PortId, vlan: Vlan, dst: Mac) returns (egressPorts: seq<PortId>)
      ensures egressPorts == EgressPorts(Model(), ingress, vlan, dst)
    {
      if dst == BROADCAST {
        egressPorts := CollectFloodTargets(vlan, ingress);
      } else {
        match macTable.Lookup(vlan, dst)
        case Some(egress) => egressPorts := if egress == ingress then [] else [egress];
        case None => egressPorts := CollectFloodTargets(vlan, ingress);
      }
    }

    method EncodeAll(egressPorts: seq<PortId>, vlan: Vlan, frame: EthernetFrame) returns (deliveries: seq<Delivery>)
      ensures deliveries == Deliveries(ports, egressPorts, vlan, frame)
    {
      deliveries := [];
      for i := 0 to |egressPorts|
        invariant deliveries == Deliveries(ports, egressPorts[..i], vlan, frame)
      {
        assert egressPorts[..i + 1][..i] == egressPorts[..i];
        var d := EncodeFor(egressPorts[i], vlan, frame);
        if d.Some? {
          deliveries := deliveries + [d.value];
        }
      }
      assert egressPorts[..|egressPorts|] == egressPorts;
    }

    method HandleLoopProbe(ingress: PortId, frame: EthernetFrame) returns (r: Outcome)
      requires Valid()
      modifies this, macTable
      ensures (Model(), r) == M.HandleLoopProbe(old(Model()), ingress, frame) && Valid()
    {
      if ingress !in ports {
        return Err(UnknownPort(ingress));
      }
      if LoopGuard.IsOwnProbe(frame, probeId) {
        BlockPort(ingress);
      }
      return Ok([]);
    }

    /** The frame as `port` should receive it, or nothing when that port is gone or blocked or the
        frame cannot be written. */
    method EncodeFor(port: PortId, vlan: Vlan, frame: EthernetFrame) returns (r: Option<Delivery>)
      ensures r == EncodeForEgress(ports, port, vlan, frame)
    {
      if port !in ports || ports[port].blocked {
        return None;
      }
      var out := EgressFrame(ports[port].mode, vlan, frame);
      var bytes := new Vec<u8>();
      var written := WriteInto(out, bytes);
      if written.Err? {
        return None;
      }
      assert bytes.items == Encode(out);
      return Some(Delivery(port, bytes.items));
    }

    /** Filters the port map in whatever order it yields its entries, then sorts. */
    method CollectFloodTargets(vlan: Vlan, exclude: PortId) returns (targets: seq<PortId>)
      ensures targets == FloodTargets(ports, vlan, exclude)
    {
      targets := [];
      var todo := ports.Keys;
      while todo != {}
        invariant todo <= ports.Keys
        invariant forall p :: p in targets <==> p in FloodSet(ports, vlan, exclude) && p !in todo
        invariant DistinctKeys(targets, IdOf)
        decreases todo
      {
        Inhabited(todo);
        var p :| p in todo;
        if p != exclude && !ports[p].blocked && ports[p].mode.Carries(vlan) {
          assert p !in targets;
          targets := targets + [p];
        }
        todo := todo - {p};
      }
      targets := SortByKey(targets, IdOf);
      FloodTargetsUnique(ports, vlan, exclude, targets);
    }
  }

  function IdOf(p: PortId): int {
    p
  }

  lemma Inhabited<T>(xs: set<T>)
    requires xs != {}
    ensures exists x :: x in xs
  {
    var _ := Pick(xs);
  }
}
