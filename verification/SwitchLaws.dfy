/** What one operation of the switch guarantees: the invariant every operation
    keeps, forwarding as a refinement of a plain VLAN hub, which deliveries are
    lost in encoding, and what is counted. */
module SwitchLaws {
  import opened Prelude
  import opened OrderedSets
  import opened Frame
  import opened LoopGuard
  import opened Ports
  import opened MacTables
  import opened SwitchModel

  // ---------------------------------------------------------------- invariant

  /** A learned address points at a registered, unblocked port that carries its VLAN, and is never
      a group address. The unicast path relies on this without checking it. */
  ghost predicate EntryValid(ports: PortMap, key: Key, e: Entry) {
    && e.port in ports
    && !ports[e.port].blocked
    && ports[e.port].mode.Carries(key.0)
    && !IsGroupAddress(key.1)
  }

  ghost predicate Valid(s: State) {
    && (forall p | p in s.ports :: s.ports[p].mode.Valid())
    && (forall k | k in s.table :: EntryValid(s.ports, k, s.table[k]))
    && s.portCounters.Keys <= s.ports.Keys
    && (forall v | v in s.vlanCounters :: IsAssignable(v) && s.vlanCounters[v].drops == 0)
  }

  /** The VLAN a port of this mode puts its untagged frames in. */
  function UntaggedVlan(mode: PortMode): Option<Vlan> {
    match mode
    case Access(vlan) => Some(vlan)
    case Trunk(native, _) => native
  }

  /** A frame is put in a VLAN exactly when the port carries it and either the frame is untagged and it
      is the port's untagged VLAN, or the port is a trunk and the tag says so; otherwise the error
      names the port and what was wrong. */
  lemma ResolveExactly(port: PortId, mode: PortMode, tag: Option<Dot1qTag>, vlan: Vlan)
    ensures ResolveVlan(port, mode, tag) == Ok(vlan) <==>
              mode.Carries(vlan) && (if tag.Some? then mode.Trunk? && tag.value.vid == vlan
                                     else UntaggedVlan(mode) == Some(vlan))
    ensures ResolveVlan(port, mode, tag).Err? <==>
              if tag.Some? then mode.Access? || !mode.Carries(tag.value.vid) else UntaggedVlan(mode).None?
    ensures match ResolveVlan(port, mode, tag)
            case Err(TaggedFrameOnAccessPort(p)) => p == port && tag.Some? && mode.Access?
            case Err(VlanNotAllowedOnTrunk(p, v)) => p == port && mode.Trunk? && tag.Some? && tag.value.vid == v
            case Err(UntaggedFrameOnTrunkWithoutNative(p)) => p == port && mode.Trunk? && tag.None?
            case Err(_) => false
            case Ok(_) => true
  {
  }

  lemma ResolvedIsCarried(port: PortId, mode: PortMode, tag: Option<Dot1qTag>)
    requires ResolveVlan(port, mode, tag).Ok?
    ensures mode.Carries(ResolveVlan(port, mode, tag).value)
    ensures mode.Valid() ==> IsAssignable(ResolveVlan(port, mode, tag).value)
  {
  }

  lemma CarriedIsAssignable(mode: PortMode, v: Vlan)
    requires mode.Valid() && mode.Carries(v)
    ensures IsAssignable(v)
  {
  }

  lemma DeliveriesMembers(ports: PortMap, targets: seq<PortId>, vlan: Vlan, frame: EthernetFrame, d: Delivery)
    ensures d in Deliveries(ports, targets, vlan, frame)
            <==> d.port in targets && EncodeForEgress(ports, d.port, vlan, frame) == Some(d)
  {
    if targets != [] {
      var n := |targets| - 1;
      DeliveriesMembers(ports, targets[..n], vlan, frame, d);
      assert targets == targets[..n] + [targets[n]];
    }
  }

  lemma {:induction false} DeliveriesCount(ports: PortMap, targets: seq<PortId>, vlan: Vlan, frame: EthernetFrame)
    ensures |Deliveries(ports, targets, vlan, frame)| <= |targets|
  {
    if targets != [] {
      DeliveriesCount(ports, targets[..|targets| - 1], vlan, frame);
    }
  }

  lemma {:induction false} CountDeliveriesFrame(s: State, vlan: Vlan, ds: seq<Delivery>)
    ensures var t := CountDeliveries(s, vlan, ds);
            && t.ports == s.ports && t.table == s.table && t.probeId == s.probeId
            && (forall p :: p in t.portCounters <==> p in s.portCounters || exists d :: d in ds && d.port == p)
            && t.vlanCounters.Keys <= s.vlanCounters.Keys + {vlan}
            && (forall v :: CountersOf(t.vlanCounters, v).drops == CountersOf(s.vlanCounters, v).drops)
  {
    if ds != [] {
      var n := |ds| - 1;
      CountDeliveriesFrame(s, vlan, ds[..n]);
      assert ds == ds[..n] + [ds[n]];
    }
  }

  /** Every state an operation can reach from a valid one is valid. */
  lemma StepKeepsValid(s: State, op: Op)
    requires Valid(s) && op.Legal()
    ensures Valid(Step(s, op))
  {
    if op.OpForward? {
      ForwardKeepsValid(s, op.ingress, op.frame, op.now);
    }
  }

  lemma IngestedValid(s: State, ingress: PortId, frame: EthernetFrame, now: nat)
    requires Valid(s) && Admitted(s, ingress, frame).Some?
    ensures Valid(Ingested(s, ingress, Admitted(s, ingress, frame).value, frame, now))
  {
    ResolvedIsCarried(ingress, s.ports[ingress].mode, frame.tag);
  }

  lemma DeliveriesKeepValid(s: State, targets: seq<PortId>, vlan: Vlan, frame: EthernetFrame)
    requires Valid(s) && IsAssignable(vlan)
    ensures Valid(CountDeliveries(s, vlan, Deliveries(s.ports, targets, vlan, frame)))
  {
    var ds := Deliveries(s.ports, targets, vlan, frame);
    var t := CountDeliveries(s, vlan, ds);
    CountDeliveriesFrame(s, vlan, ds);
    forall d | d in ds
      ensures d.port in s.ports
    {
      DeliveriesMembers(s.ports, targets, vlan, frame, d);
    }
    forall v | v in t.vlanCounters
      ensures t.vlanCounters[v].drops == 0
    {
      assert CountersOf(t.vlanCounters, v).drops == CountersOf(s.vlanCounters, v).drops;
    }
  }

  lemma ForwardKeepsValid(s: State, ingress: PortId, frame: EthernetFrame, now: nat)
    requires Valid(s)
    ensures Valid(Forward(s, ingress, frame, now).0)
  {
    var admitted := Admitted(s, ingress, frame);
    if admitted.Some? {
      var t := Ingested(s, ingress, admitted.value, frame, now);
      IngestedValid(s, ingress, frame, now);
      ResolvedIsCarried(ingress, s.ports[ingress].mode, frame.tag);
      DeliveriesKeepValid(t, EgressPorts(t, ingress, admitted.value, frame.dst), admitted.value, frame);
    }
  }

  // ---------------------------------------------------------------- the hub

  /** What a switch with no MAC table at all would send: the frame to every other unblocked carrier. */
  ghost function HubDeliveries(s: State, ingress: PortId, vlan: Vlan, frame: EthernetFrame): seq<Delivery> {
    Deliveries(s.ports, FloodTargets(s.ports, vlan, ingress), vlan, frame)
  }

  /** Whether the table knows no port for the destination; `s` is the state after forwarding. */
  ghost predicate MustFlood(s: State, vlan: Vlan, dst: Mac) {
    IsGroupAddress(dst) || (vlan, dst) !in s.table
  }

  /** In a valid state every port the table can name is one a flood would have reached, or the
      ingress itself. */
  lemma UnicastTargetIsFloodTarget(s: State, ingress: PortId, vlan: Vlan, dst: Mac)
    requires Valid(s) && (vlan, dst) in s.table
    ensures s.table[(vlan, dst)].port == ingress
            || s.table[(vlan, dst)].port in FloodTargets(s.ports, vlan, ingress)
  {
    assert EntryValid(s.ports, (vlan, dst), s.table[(vlan, dst)]);
  }

  /** What forwarding an admitted frame does, step by step. */
  lemma ForwardAdmitted(s: State, ingress: PortId, frame: EthernetFrame, now: nat)
    requires Valid(s) && Admitted(s, ingress, frame).Some?
    ensures var vlan := Admitted(s, ingress, frame).value;
            var t := Ingested(s, ingress, vlan, frame, now);
            var ds := Deliveries(s.ports, EgressPorts(t, ingress, vlan, frame.dst), vlan, frame);
            && Valid(t)
            && Forward(s, ingress, frame, now) == (CountDeliveries(t, vlan, ds), Ok(ds))
            && CountDeliveries(t, vlan, ds).ports == s.ports
            && CountDeliveries(t, vlan, ds).table == t.table
  {
    var vlan := Admitted(s, ingress, frame).value;
    var t := Ingested(s, ingress, vlan, frame, now);
    IngestedValid(s, ingress, frame, now);
    CountDeliveriesFrame(t, vlan, Deliveries(s.ports, EgressPorts(t, ingress, vlan, frame.dst), vlan, frame));
  }

  lemma EgressPortsCases(s: State, ingress: PortId, vlan: Vlan, dst: Mac)
    requires Valid(s)
    ensures MustFlood(s, vlan, dst) ==> EgressPorts(s, ingress, vlan, dst) == FloodTargets(s.ports, vlan, ingress)
    ensures !MustFlood(s, vlan, dst) ==>
              var egress := s.table[(vlan, dst)].port;
              && EgressPorts(s, ingress, vlan, dst) == (if egress == ingress then [] else [egress])
              && (egress != ingress ==> egress in FloodTargets(s.ports, vlan, ingress))
  {
    GroupIsNeverLearned(s, vlan, dst);
    if (vlan, dst) in s.table {
      UnicastTargetIsFloodTarget(s, ingress, vlan, dst);
    }
  }

  /** The MAC table only ever narrows a flood. An admitted frame is flooded byte for byte as the hub
      would when its destination is a group or unknown, and otherwise goes to exactly those hub
      deliveries, at most one, that are for the port where the destination was last learned. */
  lemma ForwardRefinesHub(s: State, ingress: PortId, frame: EthernetFrame, now: nat)
    requires Valid(s) && Admitted(s, ingress, frame).Some?
    ensures var vlan := Admitted(s, ingress, frame).value;
            var (t, r) := Forward(s, ingress, frame, now);
            var hub := HubDeliveries(s, ingress, vlan, frame);
            && r.Ok?
            && (MustFlood(t, vlan, frame.dst) ==> r.value == hub)
            && (!MustFlood(t, vlan, frame.dst) ==>
                  && |r.value| <= 1
                  && forall d :: d in r.value <==> d in hub && d.port == t.table[(vlan, frame.dst)].port)
  {
    var vlan := Admitted(s, ingress, frame).value;
    var t := Ingested(s, ingress, vlan, frame, now);
    ForwardAdmitted(s, ingress, frame, now);
    EgressPortsCases(t, ingress, vlan, frame.dst);
    if !MustFlood(t, vlan, frame.dst) {
      var targets := EgressPorts(t, ingress, vlan, frame.dst);
      DeliveriesCount(s.ports, targets, vlan, frame);
      forall d
        ensures d in Deliveries(s.ports, targets, vlan, frame)
                <==> d in HubDeliveries(s, ingress, vlan, frame) && d.port == t.table[(vlan, frame.dst)].port
      {
        DeliveriesMembers(s.ports, targets, vlan, frame, d);
        DeliveriesMembers(s.ports, FloodTargets(s.ports, vlan, ingress), vlan, frame, d);
      }
    }
  }

  lemma GroupIsNeverLearned(s: State, vlan: Vlan, dst: Mac)
    requires Valid(s)
    ensures IsGroupAddress(dst) ==> (vlan, dst) !in s.table
  {
    if (vlan, dst) in s.table {
      assert EntryValid(s.ports, (vlan, dst), s.table[(vlan, dst)]);
    }
  }

  /** The flood list depends on the port set alone: any ascending list of the unblocked carriers
      other than the ingress, however the port map was enumerated, is this one. */
  lemma FloodTargetsUnique(ports: PortMap, vlan: Vlan, exclude: PortId, listed: seq<PortId>)
    ensures Ascending(listed) && (forall p :: p in listed <==> p in FloodSet(ports, vlan, exclude))
            <==> listed == FloodTargets(ports, vlan, exclude)
  {
    var targets := FloodTargets(ports, vlan, exclude);
    if Ascending(listed) && (forall p :: p in listed <==> p in FloodSet(ports, vlan, exclude)) {
      assert Elements(listed) == Elements(targets);
      AscendingUnique(listed, targets);
    }
  }

  /** Only admitted frames are ever delivered anywhere, and only to registered, unblocked carriers of
      the frame's VLAN other than the ingress; no other port's wire is touched. */
  lemma DeliveredOnlyToCarriers(s: State, ingress: PortId, frame: EthernetFrame, now: nat)
    requires Valid(s)
    ensures var r := Forward(s, ingress, frame, now).1;
            r.Ok? ==>
              && (r.value != [] ==> Admitted(s, ingress, frame).Some?)
              && forall d | d in r.value ::
                   && d.port in FloodSet(s.ports, Admitted(s, ingress, frame).value, ingress)
                   && EncodeForEgress(s.ports, d.port, Admitted(s, ingress, frame).value, frame) == Some(d)
  {
    if Admitted(s, ingress, frame).Some? {
      var vlan := Admitted(s, ingress, frame).value;
      ForwardRefinesHub(s, ingress, frame, now);
      forall d | d in Forward(s, ingress, frame, now).1.value
        ensures d.port in FloodSet(s.ports, vlan, ingress)
        ensures EncodeForEgress(s.ports, d.port, vlan, frame) == Some(d)
      {
        DeliveriesMembers(s.ports, FloodTargets(s.ports, vlan, ingress), vlan, frame, d);
      }
    }
  }

  /** Exactly what an admitted frame is delivered as and to whom, with no reference to how targets are
      chosen: to every registered, unblocked carrier of its VLAN other than the ingress that either
      must be flooded to or is where the destination was last learned, in that port's wire form, if
      the frame has one. */
  lemma DeliveredExactly(s: State, ingress: PortId, frame: EthernetFrame, now: nat, d: Delivery)
    requires Valid(s) && Admitted(s, ingress, frame).Some?
    ensures var vlan := Admitted(s, ingress, frame).value;
            var (t, r) := Forward(s, ingress, frame, now);
            r.Ok? && (d in r.value <==>
              && d.port in s.ports && !s.ports[d.port].blocked
              && s.ports[d.port].mode.Carries(vlan)
              && d.port != ingress
              && (MustFlood(t, vlan, frame.dst) || t.table[(vlan, frame.dst)].port == d.port)
              && EgressFrame(s.ports[d.port].mode, vlan, frame).Writable()
              && d.bytes == Encode(EgressFrame(s.ports[d.port].mode, vlan, frame)))
  {
    var vlan := Admitted(s, ingress, frame).value;
    ForwardRefinesHub(s, ingress, frame, now);
    DeliveriesMembers(s.ports, FloodTargets(s.ports, vlan, ingress), vlan, frame, d);
  }

  /** The lowest bit of an address's first byte decides everything about it. An admitted frame from an
      address with that bit clear is learned at its ingress, now, and nothing else changes in the
      table; with the bit set it teaches nothing. A frame to an address with the bit set is
      delivered as the hub would, and one to an address with it clear goes, once that address has
      been learned, to exactly the hub's deliveries for the port where it was. */
  lemma GroupBitDecides(s: State, ingress: PortId, frame: EthernetFrame, now: nat)
    requires Valid(s) && Admitted(s, ingress, frame).Some?
    ensures var vlan := Admitted(s, ingress, frame).value;
            var (t, r) := Forward(s, ingress, frame, now);
            var hub := HubDeliveries(s, ingress, vlan, frame);
            && r.Ok?
            && (frame.src[0] % 2 == 0 ==>
                  && LookupIn(t.table, vlan, frame.src) == Some(ingress)
                  && t.table == s.table[(vlan, frame.src) := Entry(ingress, now)])
            && (frame.src[0] % 2 == 1 ==> t.table == s.table)
            && (frame.dst[0] % 2 == 1 ==> r.value == hub)
            && (frame.dst[0] % 2 == 0 ==>
                  match LookupIn(t.table, vlan, frame.dst)
                  case None => r.value == hub
                  case Some(p) => |r.value| <= 1 && forall d :: d in r.value <==> d in hub && d.port == p)
  {
    ForwardAdmitted(s, ingress, frame, now);
    ForwardRefinesHub(s, ingress, frame, now);
  }

  /** Who is to get an arriving frame, told from the state before it alone: every registered, unblocked
      carrier of its VLAN other than the ingress that can write it, if the destination is a group or
      was never learned; the one where it was last learned, if it was; nobody, if the sender
      addresses itself or the frame is not admitted. */
  ghost predicate GoesTo(s: State, ingress: PortId, frame: EthernetFrame, p: PortId) {
    match Admitted(s, ingress, frame)
    case None => false
    case Some(vlan) =>
      && p in s.ports && p != ingress
      && !s.ports[p].blocked
      && s.ports[p].mode.Carries(vlan)
      && (frame.dst[0] % 2 == 1
          || (frame.dst != frame.src
              && ((vlan, frame.dst) in s.table ==> s.table[(vlan, frame.dst)].port == p)))
      && !(frame.ethertype == 0x8100 && UntaggedVlan(s.ports[p].mode) == Some(vlan))
  }

  /** The bytes it gets. */
  function WireImage(s: State, ingress: PortId, frame: EthernetFrame, p: PortId): seq<u8>
    requires p in s.ports && Admitted(s, ingress, frame).Some?
  {
    Encode(EgressFrame(s.ports[p].mode, Admitted(s, ingress, frame).value, frame))
  }

  ghost predicate PortsAscend(ds: seq<Delivery>) {
    forall i, j | 0 <= i < j < |ds| :: ds[i].port < ds[j].port
  }

  /** A frame is delivered to exactly those ports, as exactly those bytes, each of them once, in strictly
      ascending order of ports. */
  lemma ForwardGoesTo(s: State, ingress: PortId, frame: EthernetFrame, now: nat)
    requires Valid(s)
    ensures var r := Forward(s, ingress, frame, now).1;
            var sent := if r.Ok? then r.value else [];
            && (forall d :: d in sent <==>
                  GoesTo(s, ingress, frame, d.port) && d.bytes == WireImage(s, ingress, frame, d.port))
            && PortsAscend(sent)
  {
    if Admitted(s, ingress, frame).Some? {
      var vlan := Admitted(s, ingress, frame).value;
      ForwardAdmitted(s, ingress, frame, now);
      forall d
        ensures d in Forward(s, ingress, frame, now).1.value <==>
                GoesTo(s, ingress, frame, d.port) && d.bytes == WireImage(s, ingress, frame, d.port)
      {
        DeliveredIfGoesTo(s, ingress, frame, now, d);
      }
      var t := Ingested(s, ingress, vlan, frame, now);
      EgressPortsCases(t, ingress, vlan, frame.dst);
      DeliveriesAscend(s.ports, EgressPorts(t, ingress, vlan, frame.dst), vlan, frame);
    }
  }

  lemma DeliveredIfGoesTo(s: State, ingress: PortId, frame: EthernetFrame, now: nat, d: Delivery)
    requires Valid(s) && Admitted(s, ingress, frame).Some? && Forward(s, ingress, frame, now).1.Ok?
    ensures d in Forward(s, ingress, frame, now).1.value <==>
            GoesTo(s, ingress, frame, d.port) && d.bytes == WireImage(s, ingress, frame, d.port)
  {
    var vlan := Admitted(s, ingress, frame).value;
    var t := Forward(s, ingress, frame, now).0;
    DeliveredExactly(s, ingress, frame, now, d);
    GroupBitDecides(s, ingress, frame, now);
    GroupIsNeverLearned(s, vlan, frame.dst);
    assert !IsGroupAddress(frame.dst) && frame.dst != frame.src ==>
             LookupIn(t.table, vlan, frame.dst) == LookupIn(s.table, vlan, frame.dst);
    if d.port in s.ports && s.ports[d.port].mode.Carries(vlan) {
      UntaggedIsUnwritable(s.ports[d.port].mode, vlan, frame);
    }
  }

  lemma UntaggedIsUnwritable(mode: PortMode, vlan: Vlan, frame: EthernetFrame)
    requires mode.Carries(vlan)
    ensures EgressFrame(mode, vlan, frame).Writable()
            <==> !(frame.ethertype == 0x8100 && UntaggedVlan(mode) == Some(vlan))
  {
  }

  lemma AppendAscends(ds: seq<Delivery>, d: Delivery)
    requires PortsAscend(ds) && forall e | e in ds :: e.port < d.port
    ensures PortsAscend(ds + [d])
  {
  }

  lemma {:induction false} DeliveriesAscend(ports: PortMap, targets: seq<PortId>, vlan: Vlan, frame: EthernetFrame)
    requires Ascending(targets)
    ensures PortsAscend(Deliveries(ports, targets, vlan, frame))
  {
    if targets != [] {
      var n := |targets| - 1;
      DeliveriesAscend(ports, targets[..n], vlan, frame);
      var before := Deliveries(ports, targets[..n], vlan, frame);
      forall d | d in before
        ensures d.port < targets[n]
      {
        DeliveriesMembers(ports, targets[..n], vlan, frame, d);
        var k :| 0 <= k < n && targets[..n][k] == d.port;
        assert targets[k] == d.port;
      }
      var last := EncodeForEgress(ports, targets[n], vlan, frame);
      if last.Some? {
        AppendAscends(before, last.value);
      }
    }
  }

  /** When an arrival is refused and with which error, and when it is not. */
  lemma OutcomeExactly(s: State, ingress: PortId, frame: EthernetFrame, now: nat)
    ensures var r := Forward(s, ingress, frame, now).1;
            && (r == Err(UnknownPort(ingress)) <==> ingress !in s.ports)
            && (r == Err(PortBlocked(ingress)) <==> IsBlocked(s, ingress) && !IsAnyProbe(frame))
            && (r.Ok? <==> ingress in s.ports && (IsAnyProbe(frame) || Admitted(s, ingress, frame).Some?))
            && (ingress in s.ports && !s.ports[ingress].blocked && !IsAnyProbe(frame) ==>
                  (r.Ok? <==> ResolveVlan(ingress, s.ports[ingress].mode, frame.tag).Ok?)
                  && (r.Err? ==> r.error == ResolveVlan(ingress, s.ports[ingress].mode, frame.tag).error))
  {
  }

  // ---------------------------------------------------------------- administration

  /** What the four administrative operations do to the port they name: it is gone without a trace, or
      registered as asked; blocking keeps its mode and counters and forgets its addresses, and
      unblocking undoes the block and nothing else. */
  lemma AdministrationOfPort(s: State, p: PortId, mode: PortMode)
    ensures p !in RemovePort(s, p).ports && p !in RemovePort(s, p).portCounters
    ensures AddPort(s, p, mode).ports == s.ports[p := PortEntry(mode, false)]
    ensures AddPort(s, p, mode).portCounters == BlockPort(s, p).portCounters == s.portCounters
    ensures forall t | t in [RemovePort(s, p), AddPort(s, p, mode), BlockPort(s, p)] ::
              && t.vlanCounters == s.vlanCounters && t.probeId == s.probeId
              && forall k :: k in t.table <==> k in s.table && s.table[k].port != p
    ensures p in s.ports ==> IsBlocked(BlockPort(s, p), p) && BlockPort(s, p).ports[p].mode == s.ports[p].mode
    ensures !IsBlocked(s, p) ==> UnblockPort(BlockPort(s, p), p).ports == s.ports
    ensures UnblockPort(s, p) == s.(ports := UnblockPort(s, p).ports) && !IsBlocked(UnblockPort(s, p), p)
  {
    if p in s.ports {
      assert s.ports[p := s.ports[p]] == s.ports;
    }
  }

  /** And that they touch no other port: its entry, its counters and the addresses learned on it stay. */
  lemma AdministrationSparesOthers(s: State, op: Op, p: PortId, q: PortId)
    requires op in [OpRemovePort(p), OpBlockPort(p), OpUnblockPort(p)] || (op.OpAddPort? && op.port == p)
    requires q != p
    ensures var t := Step(s, op);
            && (q in t.ports <==> q in s.ports) && (q in s.ports ==> t.ports[q] == s.ports[q])
            && CountersOf(t.portCounters, q) == CountersOf(s.portCounters, q)
            && forall k | k in s.table && s.table[k].port == q :: k in t.table && t.table[k] == s.table[k]
  {
  }

  // ---------------------------------------------------------------- the wire form

  /** The two ends of a link do not disagree on what an untagged frame means. */
  predicate UntaggedAgree(a: PortMode, b: PortMode) {
    UntaggedVlan(a).Some? && UntaggedVlan(b).Some? ==> UntaggedVlan(a) == UntaggedVlan(b)
  }

  /** Everything about a frame but its tag. */
  predicate SameContent(a: EthernetFrame, b: EthernetFrame) {
    a.dst == b.dst && a.src == b.src && a.ethertype == b.ethertype && a.payload == b.payload
  }

  /** What goes out on a carrier of the VLAN reads back at the other end of the link as the same
      frame with the egress tag, and is there rejected or put in the same VLAN; a peer of the same
      mode never rejects it. */
  lemma OneHop(mode: PortMode, peer: PortMode, at: PortId, vlan: Vlan, frame: EthernetFrame)
    requires mode.Valid() && mode.Carries(vlan) && UntaggedAgree(mode, peer)
    requires frame.TagInRange() && EgressFrame(mode, vlan, frame).Writable()
    ensures var got := Parse(Encode(EgressFrame(mode, vlan, frame)));
            && got == Ok(EgressFrame(mode, vlan, frame))
            && SameContent(got.value, frame)
            && (IsAnyProbe(got.value) <==> IsAnyProbe(frame))
            && (frame.tag.Some? && got.value.tag.Some? ==>
                  got.value.tag.value == frame.tag.value.(vid := vlan))
            && (frame.tag.None? && got.value.tag.Some? ==> got.value.tag.value == Dot1qTag(0, false, vlan))
            && (got.value.tag.None? <==> UntaggedVlan(mode) == Some(vlan))
            && (ResolveVlan(at, peer, got.value.tag).Ok? ==> ResolveVlan(at, peer, got.value.tag).value == vlan)
            && (peer == mode ==> ResolveVlan(at, peer, got.value.tag) == Ok(vlan))
  {
    CarriedIsAssignable(mode, vlan);
    WriteThenParse(EgressFrame(mode, vlan, frame));
  }

  /** That agreement on untagged frames is exactly what keeps a link from moving frames between VLANs. */
  lemma LinkIsSafeIffEndsAgree(mode: PortMode, peer: PortMode, at: PortId)
    requires mode.Valid()
    ensures UntaggedAgree(mode, peer) <==>
            forall vlan: Vlan, frame: EthernetFrame
              | mode.Carries(vlan) && frame.TagInRange() && EgressFrame(mode, vlan, frame).Writable() ::
              var got := Parse(Encode(EgressFrame(mode, vlan, frame)));
              got.Ok? && (ResolveVlan(at, peer, got.value.tag).Ok? ==> ResolveVlan(at, peer, got.value.tag).value == vlan)
  {
    if UntaggedAgree(mode, peer) {
      forall vlan: Vlan, frame: EthernetFrame
        | mode.Carries(vlan) && frame.TagInRange() && EgressFrame(mode, vlan, frame).Writable()
        ensures var got := Parse(Encode(EgressFrame(mode, vlan, frame)));
                got.Ok? && (ResolveVlan(at, peer, got.value.tag).Ok? ==> ResolveVlan(at, peer, got.value.tag).value == vlan)
      {
        OneHop(mode, peer, at, vlan, frame);
      }
    } else {
      var vlan := UntaggedVlan(mode).value;
      var frame := EthernetFrame(BROADCAST, BROADCAST, None, 0x0800, []);
      WriteThenParse(EgressFrame(mode, vlan, frame));
      assert mode.Carries(vlan) && frame.TagInRange() && EgressFrame(mode, vlan, frame).Writable();
    }
  }

  /** A chosen egress port gets nothing exactly when the frame's inner EtherType is 0x8100 and that
      port sends the VLAN untagged; any other one gets one copy, longer or shorter than the arrival
      by the tag alone. */
  lemma EncodingLossExact(s: State, ingress: PortId, frame: EthernetFrame, now: nat, p: PortId)
    requires Valid(s) && Admitted(s, ingress, frame).Some?
    requires var vlan := Admitted(s, ingress, frame).value;
             p in EgressPorts(Ingested(s, ingress, vlan, frame, now), ingress, vlan, frame.dst)
    ensures var vlan := Admitted(s, ingress, frame).value;
            var r := Forward(s, ingress, frame, now).1;
            && r.Ok?
            && p in s.ports
            && ((forall d | d in r.value :: d.port != p)
                <==> frame.ethertype == 0x8100 && SendsUntagged(s.ports[p].mode, vlan))
            && forall d | d in r.value && d.port == p ::
                 |d.bytes| == frame.WireLen() + (if SendsUntagged(s.ports[p].mode, vlan) then 0 else 4)
                                              - (if frame.tag.Some? then 4 else 0)
  {
    var vlan := Admitted(s, ingress, frame).value;
    var t := Ingested(s, ingress, vlan, frame, now);
    ForwardAdmitted(s, ingress, frame, now);
    var targets := EgressPorts(t, ingress, vlan, frame.dst);
    var ds := Deliveries(t.ports, targets, vlan, frame);
    EgressPortsCases(t, ingress, vlan, frame.dst);
    assert p in FloodSet(s.ports, vlan, ingress);
    var out := EgressFrame(s.ports[p].mode, vlan, frame);
    WireLenIsEncodedLength(out);
    DeliveriesMembers(t.ports, targets, vlan, frame, Delivery(p, Encode(out)));
    forall d | d in ds && d.port == p
      ensures d == Delivery(p, Encode(out)) && out.Writable()
    {
      DeliveriesMembers(t.ports, targets, vlan, frame, d);
    }
  }

  /** For frames taken off the wire, that loss needs a second tag behind the first, so a tagged
      arrival on a trunk. */
  lemma LossNeedsTaggedTrunkArrival(s: State, ingress: PortId, bytes: seq<u8>)
    requires Parse(bytes).Ok? && Parse(bytes).value.ethertype == 0x8100
    requires Admitted(s, ingress, Parse(bytes).value).Some?
    ensures Parse(bytes).value.tag.Some? && s.ports[ingress].mode.Trunk?
  {
    ParseThenWrite(bytes);
  }

  // ---------------------------------------------------------------- what is counted

  function FramesTo(ds: seq<Delivery>, p: PortId): nat {
    if ds == [] then 0
    else FramesTo(ds[..|ds| - 1], p) + (if ds[|ds| - 1].port == p then 1 else 0)
  }

  function BytesTo(ds: seq<Delivery>, p: PortId): nat {
    if ds == [] then 0
    else BytesTo(ds[..|ds| - 1], p) + (if ds[|ds| - 1].port == p then |ds[|ds| - 1].bytes| else 0)
  }

  function BytesOf(ds: seq<Delivery>): nat {
    if ds == [] then 0 else BytesOf(ds[..|ds| - 1]) + |ds[|ds| - 1].bytes|
  }

  /** `c` plus one frame in if `arrived`, and `frames` frames of `bytes` bytes out. */
  function AddTraffic(c: Counters, arrived: bool, len: nat, frames: nat, bytes: nat): Counters {
    Counters(c.framesIn + (if arrived then 1 else 0), c.bytesIn + (if arrived then len else 0),
             c.framesOut + frames, c.bytesOut + bytes, c.drops)
  }

  lemma {:induction false} PortDeliveriesCounted(s: State, vlan: Vlan, ds: seq<Delivery>, p: PortId)
    ensures CountersOf(CountDeliveries(s, vlan, ds).portCounters, p)
            == AddTraffic(CountersOf(s.portCounters, p), false, 0, FramesTo(ds, p), BytesTo(ds, p))
  {
    if ds != [] {
      PortDeliveriesCounted(s, vlan, ds[..|ds| - 1], p);
    }
  }

  lemma {:induction false} VlanDeliveriesCounted(s: State, vlan: Vlan, ds: seq<Delivery>, v: Vlan)
    ensures CountersOf(CountDeliveries(s, vlan, ds).vlanCounters, v)
            == if v == vlan then AddTraffic(CountersOf(s.vlanCounters, v), false, 0, |ds|, BytesOf(ds))
               else CountersOf(s.vlanCounters, v)
  {
    if ds != [] {
      VlanDeliveriesCounted(s, vlan, ds[..|ds| - 1], v);
    }
  }

  lemma IngestedCounts(s: State, ingress: PortId, vlan: Vlan, frame: EthernetFrame, now: nat, p: PortId, v: Vlan)
    ensures var t := Ingested(s, ingress, vlan, frame, now);
            && CountersOf(t.portCounters, p)
               == AddTraffic(CountersOf(s.portCounters, p), p == ingress, frame.WireLen(), 0, 0)
            && CountersOf(t.vlanCounters, v)
               == AddTraffic(CountersOf(s.vlanCounters, v), v == vlan, frame.WireLen(), 0, 0)
  {
  }

  lemma AddTrafficTwice(c: Counters, arrived: bool, len: nat, frames: nat, bytes: nat)
    ensures AddTraffic(AddTraffic(c, arrived, len, 0, 0), false, 0, frames, bytes)
            == AddTraffic(c, arrived, len, frames, bytes)
    ensures AddTraffic(c, false, len, 0, 0) == c
  {
  }

  lemma AdmittedCounts(s: State, ingress: PortId, frame: EthernetFrame, now: nat, vlan: Vlan, p: PortId, v: Vlan)
    requires Admitted(s, ingress, frame) == Some(vlan)
    ensures var (t, r) := Forward(s, ingress, frame, now);
            && r.Ok?
            && CountersOf(t.portCounters, p) == AddTraffic(
                 CountersOf(s.portCounters, p), p == ingress, frame.WireLen(), FramesTo(r.value, p), BytesTo(r.value, p))
            && CountersOf(t.vlanCounters, v) == (
                 if v == vlan
                 then AddTraffic(CountersOf(s.vlanCounters, v), true, frame.WireLen(), |r.value|, BytesOf(r.value))
                 else CountersOf(s.vlanCounters, v))
  {
    var t := Ingested(s, ingress, vlan, frame, now);
    var ds := Deliveries(t.ports, EgressPorts(t, ingress, vlan, frame.dst), vlan, frame);
    assert Forward(s, ingress, frame, now) == (CountDeliveries(t, vlan, ds), Ok(ds));
    IngestedCounts(s, ingress, vlan, frame, now, p, v);
    PortDeliveriesCounted(t, vlan, ds, p);
    VlanDeliveriesCounted(t, vlan, ds, v);
    AddTrafficTwice(CountersOf(s.portCounters, p), p == ingress, frame.WireLen(), FramesTo(ds, p), BytesTo(ds, p));
    AddTrafficTwice(CountersOf(s.vlanCounters, v), v == vlan, frame.WireLen(), |ds|, BytesOf(ds));
  }

  /** A frame that earns a drop: not a probe, on a registered port, and not admitted. */
  predicate Refused(s: State, ingress: PortId, frame: EthernetFrame) {
    !IsAnyProbe(frame) && ingress in s.ports && Admitted(s, ingress, frame).None?
  }

  /** The exact effect of an arrival on every counter. A probe or an unregistered port touches none;
      a refused frame adds one drop at its ingress and nothing else; an admitted one adds one frame
      and its wire length in at the ingress and at its VLAN, and per delivery one frame and its
      length out at the target and at the VLAN. */
  lemma ForwardCountsExactly(s: State, ingress: PortId, frame: EthernetFrame, now: nat, p: PortId, v: Vlan)
    ensures var (t, r) := Forward(s, ingress, frame, now);
            var c := CountersOf(s.portCounters, p);
            var w := CountersOf(s.vlanCounters, v);
            match Admitted(s, ingress, frame)
            case Some(vlan) =>
              && r.Ok?
              && CountersOf(t.portCounters, p)
                 == AddTraffic(c, p == ingress, frame.WireLen(), FramesTo(r.value, p), BytesTo(r.value, p))
              && CountersOf(t.vlanCounters, v)
                 == (if v == vlan then AddTraffic(w, true, frame.WireLen(), |r.value|, BytesOf(r.value)) else w)
            case None =>
              && (r.Ok? ==> r.value == [])
              && CountersOf(t.portCounters, p)
                 == (if Refused(s, ingress, frame) && p == ingress then c.(drops := c.drops + 1) else c)
              && CountersOf(t.vlanCounters, v) == w
    ensures Refused(s, ingress, frame)
            <==> Forward(s, ingress, frame, now).1.Err? && Forward(s, ingress, frame, now).1 != Err(UnknownPort(ingress))
  {
    match Admitted(s, ingress, frame)
    case Some(vlan) => AdmittedCounts(s, ingress, frame, now, vlan, p, v);
    case None =>
  }
}
