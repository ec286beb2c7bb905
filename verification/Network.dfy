/** Any number of switches joined port to port. Frames wait on the wire and
    arrive in any order, interleaved with blocking, ageing, removal and
    re-registration of ports. */
module Network {
  import opened Prelude
  import opened Frame
  import opened LoopGuard
  import opened Ports
  import opened SwitchModel
  import SwitchLaws
  import SwitchRuns

  type SwitchId = nat
  type Place = (SwitchId, PortId)

  /** The fixed part of a network: the mode each port has whenever it is registered, and where the far
      end of each port's cable is. */
  datatype Topology = Topology(modes: map<Place, PortMode>, links: map<Place, Place>) {
    /** The two ends of a link never disagree on their untagged VLAN. */
    ghost predicate Valid() {
      && (forall a | a in modes :: modes[a].Valid())
      && (forall a | a in links ::
            && a in modes
            && links[a] in modes
            && SwitchLaws.UntaggedAgree(modes[a], modes[links[a]]))
    }
  }

  /** The frame as it was when a switch first admitted it, and the VLAN it was put in there. */
  datatype Origin = Origin(vlan: Vlan, frame: EthernetFrame)

  /** A frame on the wire, about to arrive at `place`. */
  datatype Copy = Copy(place: Place, bytes: seq<u8>, origin: Option<Origin>)

  /** One arrival of a copy with a known origin: the VLAN it was admitted to, if any, and what the
      switch sent on. */
  datatype Hop = Hop(place: Place, origin: Origin, frame: EthernetFrame, admitted: Option<Vlan>, sent: seq<Delivery>)

  datatype Net = Net(switches: map<SwitchId, State>, wire: seq<Copy>, log: seq<Hop>)

  datatype NetStep =
    | Inject(place: Place, bytes: seq<u8>)
    | Arrive(i: nat, now: nat)
    | Manage(id: SwitchId, op: Op)

  ghost predicate Legal(topo: Topology, step: NetStep) {
    match step
    case Manage(id, op) =>
      && !op.OpForward?
      && (op.OpAddPort? ==> (id, op.port) in topo.modes && op.mode == topo.modes[(id, op.port)])
    case _ => true
  }

  /** The copies that `sent` puts on the wire: one per delivery to a cabled port, at the far end. */
  function Spread(topo: Topology, id: SwitchId, sent: seq<Delivery>, origin: Origin): seq<Copy> {
    if sent == [] then
      []
    else
      var d := sent[|sent| - 1];
      var before := Spread(topo, id, sent[..|sent| - 1], origin);
      if (id, d.port) in topo.links then before + [Copy(topo.links[(id, d.port)], d.bytes, Some(origin))] else before
  }

  /** The network once a switch has moved to `t` and what it did has been recorded as `hop`. */
  function Record(topo: Topology, net: Net, t: State, rest: seq<Copy>, hop: Hop): Net {
    Net(net.switches[hop.place.0 := t],
        rest + Spread(topo, hop.place.0, hop.sent, hop.origin),
        net.log + [hop])
  }

  /** What arrives at a place is parsed and forwarded there; malformed bytes and frames for a switch
      that does not exist are lost. */
  ghost function ArriveAt(topo: Topology, net: Net, c: Copy, rest: seq<Copy>, now: nat): Net {
    var (id, port) := c.place;
    if id !in net.switches || Parse(c.bytes).Err? then
      net.(wire := rest)
    else
      var s := net.switches[id];
      var frame := Parse(c.bytes).value;
      var (t, r) := Forward(s, port, frame, now);
      var admitted := Admitted(s, port, frame);
      if c.origin.None? && admitted.None? then
        Net(net.switches[id := t], rest, net.log)
      else
        var origin := if c.origin.Some? then c.origin.value else Origin(admitted.value, frame);
        Record(topo, net, t, rest, Hop(c.place, origin, frame, admitted, SentBy(r)))
  }

  function SentBy(r: Outcome): seq<Delivery> {
    if r.Ok? then r.value else []
  }

  ghost function NextNet(topo: Topology, net: Net, step: NetStep): Net {
    match step
    case Inject(place, bytes) => net.(wire := net.wire + [Copy(place, bytes, None)])
    case Arrive(i, now) =>
      if i >= |net.wire| then net
      else ArriveAt(topo, net, net.wire[i], net.wire[..i] + net.wire[i + 1..], now)
    case Manage(id, op) =>
      if id !in net.switches then net
      else net.(switches := net.switches[id := Step(net.switches[id], op)])
  }

  ghost function RunNet(topo: Topology, net: Net, steps: seq<NetStep>): Net {
    if steps == [] then net
    else NextNet(topo, RunNet(topo, net, steps[..|steps| - 1]), steps[|steps| - 1])
  }

  /** Fresh switches, nothing on the wire. */
  ghost predicate Initial(net: Net) {
    && net.wire == [] && net.log == []
    && forall id | id in net.switches :: net.switches[id] == Init(net.switches[id].probeId)
  }

  // ---------------------------------------------------------------- frames get through

  lemma {:induction false} SpreadReaches(topo: Topology, id: SwitchId, sent: seq<Delivery>, origin: Origin, d: Delivery)
    requires d in sent && (id, d.port) in topo.links
    ensures Copy(topo.links[(id, d.port)], d.bytes, Some(origin)) in Spread(topo, id, sent, origin)
  {
    var n := |sent| - 1;
    if d != sent[n] {
      SpreadReaches(topo, id, sent[..n], origin, d);
    }
  }

  lemma ArriveAtReaches(topo: Topology, net: Net, c: Copy, rest: seq<Copy>, now: nat, origin: Origin, p: PortId)
    requires c.place.0 in net.switches && Parse(c.bytes).Ok? && SwitchLaws.Valid(net.switches[c.place.0])
    requires SwitchLaws.GoesTo(net.switches[c.place.0], c.place.1, Parse(c.bytes).value, p)
    requires (c.place.0, p) in topo.links
    requires origin == if c.origin.Some? then c.origin.value
                       else Origin(Admitted(net.switches[c.place.0], c.place.1, Parse(c.bytes).value).value,
                                   Parse(c.bytes).value)
    ensures var (id, port) := c.place;
            var s, frame, after := net.switches[id], Parse(c.bytes).value, ArriveAt(topo, net, c, rest, now);
            && Copy(topo.links[(id, p)], SwitchLaws.WireImage(s, port, frame, p), Some(origin)) in after.wire
            && after.switches == net.switches[id := Forward(s, port, frame, now).0]
            && rest <= after.wire
  {
    var (id, port) := c.place;
    var s, frame := net.switches[id], Parse(c.bytes).value;
    var (t, r) := Forward(s, port, frame, now);
    SwitchLaws.ForwardGoesTo(s, port, frame, now);
    var sent := SentBy(r);
    SpreadReaches(topo, id, sent, origin, Delivery(p, SwitchLaws.WireImage(s, port, frame, p)));
    var hop := Hop(c.place, origin, frame, Admitted(s, port, frame), sent);
    assert ArriveAt(topo, net, c, rest, now) == Record(topo, net, t, rest, hop);
  }

  /** The network does carry traffic. When a copy is admitted where it arrives, then for every cabled
      port the frame goes to, its image there is on the wire to the far end, with the copy's origin,
      or with itself as origin if it had none; and no other copy is lost. */
  lemma ArrivalReachesFarEnds(topo: Topology, net: Net, i: nat, now: nat, p: PortId)
    requires i < |net.wire| && net.wire[i].place.0 in net.switches && Parse(net.wire[i].bytes).Ok?
    requires var (id, port) := net.wire[i].place;
             && SwitchLaws.Valid(net.switches[id])
             && SwitchLaws.GoesTo(net.switches[id], port, Parse(net.wire[i].bytes).value, p)
             && (id, p) in topo.links
    ensures var (id, port) := net.wire[i].place;
            var s, frame, after := net.switches[id], Parse(net.wire[i].bytes).value, NextNet(topo, net, Arrive(i, now));
            var origin := if net.wire[i].origin.Some? then net.wire[i].origin
                          else Some(Origin(Admitted(s, port, frame).value, frame));
            && Copy(topo.links[(id, p)], SwitchLaws.WireImage(s, port, frame, p), origin) in after.wire
            && after.switches == net.switches[id := Forward(s, port, frame, now).0]
            && net.wire[..i] + net.wire[i + 1..] <= after.wire
  {
    var c := net.wire[i];
    var frame := Parse(c.bytes).value;
    var origin := if c.origin.Some? then c.origin.value
                  else Origin(Admitted(net.switches[c.place.0], c.place.1, frame).value, frame);
    ArriveAtReaches(topo, net, c, net.wire[..i] + net.wire[i + 1..], now, origin, p);
  }

  /** In particular a frame put on the wire from outside travels: one arrival later it is at the far end
      of every cabled port it goes to. */
  lemma InjectedFrameTravels(topo: Topology, net: Net, place: Place, bytes: seq<u8>, now: nat, p: PortId)
    requires place.0 in net.switches && Parse(bytes).Ok?
    requires var s := net.switches[place.0];
             SwitchLaws.Valid(s) && SwitchLaws.GoesTo(s, place.1, Parse(bytes).value, p) && (place.0, p) in topo.links
    ensures var s, frame := net.switches[place.0], Parse(bytes).value;
            Copy(topo.links[(place.0, p)],
                 SwitchLaws.WireImage(s, place.1, frame, p),
                 Some(Origin(Admitted(s, place.1, frame).value, frame)))
            in NextNet(topo, NextNet(topo, net, Inject(place, bytes)), Arrive(|net.wire|, now)).wire
  {
    var injected := NextNet(topo, net, Inject(place, bytes));
    assert injected.wire[|net.wire|] == Copy(place, bytes, None);
    ArrivalReachesFarEnds(topo, injected, |net.wire|, now, p);
  }

  /** What one step of the network asks of switch `id`. */
  function OpsAt(net: Net, step: NetStep, id: SwitchId): seq<Op> {
    match step
    case Inject(_, _) => []
    case Arrive(i, now) =>
      if i < |net.wire| && net.wire[i].place.0 == id && Parse(net.wire[i].bytes).Ok?
      then [OpForward(net.wire[i].place.1, Parse(net.wire[i].bytes).value, now)]
      else []
    case Manage(at, op) => if at == id then [op] else []
  }

  ghost function SwitchOps(topo: Topology, net: Net, steps: seq<NetStep>, id: SwitchId): seq<Op> {
    if steps == [] then
      []
    else
      var n := |steps| - 1;
      SwitchOps(topo, net, steps[..n], id) + OpsAt(RunNet(topo, net, steps[..n]), steps[n], id)
  }

  lemma OneStepOfSwitch(topo: Topology, net: Net, step: NetStep, id: SwitchId)
    requires id in net.switches
    ensures var ops := OpsAt(net, step, id);
            && |ops| <= 1
            && id in NextNet(topo, net, step).switches
            && NextNet(topo, net, step).switches[id]
               == if ops == [] then net.switches[id] else Step(net.switches[id], ops[0])
  {
  }

  /** Each switch of a network makes a run of its own, of the operations asked of it and the frames that
      arrive at it, whatever the others do; so every law about runs of one switch holds in it. */
  lemma {:induction false} EachSwitchRuns(topo: Topology, net: Net, steps: seq<NetStep>, id: SwitchId)
    requires id in net.switches
    ensures var after := RunNet(topo, net, steps);
            id in after.switches && after.switches[id] == Run(net.switches[id], SwitchOps(topo, net, steps, id))
  {
    if steps != [] {
      var n := |steps| - 1;
      EachSwitchRuns(topo, net, steps[..n], id);
      var before := RunNet(topo, net, steps[..n]);
      var ops, last := SwitchOps(topo, net, steps[..n], id), OpsAt(before, steps[n], id);
      OneStepOfSwitch(topo, before, steps[n], id);
      if last == [] {
        assert ops + last == ops;
      } else {
        assert (ops + last)[..|ops|] == ops && |last| == 1;
      }
    }
  }

  // ---------------------------------------------------------------- isolation

  /** The copy carries its origin's content and cannot be put in any other VLAN where it arrives. */
  ghost predicate CopyIsolated(topo: Topology, c: Copy) {
    c.origin.Some? ==>
      && Parse(c.bytes).Ok?
      && SwitchLaws.SameContent(Parse(c.bytes).value, c.origin.value.frame)
      && !IsAnyProbe(Parse(c.bytes).value)
      && c.place in topo.modes
      && var vlan := ResolveVlan(c.place.1, topo.modes[c.place], Parse(c.bytes).value.tag);
         vlan.Ok? ==> vlan.value == c.origin.value.vlan
  }

  /** The switch either turned the frame away and sent nothing, or put it in its origin's VLAN and sent
      it on, its content intact, through ports that carry that VLAN and no others. */
  ghost predicate HopIsolated(topo: Topology, h: Hop) {
    && SwitchLaws.SameContent(h.frame, h.origin.frame)
    && (h.admitted == Some(h.origin.vlan) || (h.admitted.None? && h.sent == []))
    && forall d | d in h.sent ::
         && (h.place.0, d.port) in topo.modes
         && topo.modes[(h.place.0, d.port)].Carries(h.origin.vlan)
         && d.port != h.place.1
         && Parse(d.bytes).Ok?
         && SwitchLaws.SameContent(Parse(d.bytes).value, h.origin.frame)
  }

  /** A switch of the network: in a valid state, each registered port in its fixed mode. */
  ghost predicate SwitchFits(topo: Topology, id: SwitchId, s: State) {
    && SwitchLaws.Valid(s)
    && forall p | p in s.ports :: (id, p) in topo.modes && s.ports[p].mode == topo.modes[(id, p)]
  }

  ghost predicate NetInvariant(topo: Topology, net: Net) {
    && (forall id | id in net.switches :: SwitchFits(topo, id, net.switches[id]))
    && (forall c | c in net.wire :: CopyIsolated(topo, c))
    && (forall h | h in net.log :: HopIsolated(topo, h))
  }

  lemma {:induction false} SpreadMembers(topo: Topology, id: SwitchId, sent: seq<Delivery>, origin: Origin, c: Copy)
    requires c in Spread(topo, id, sent, origin)
    ensures exists d :: d in sent && (id, d.port) in topo.links
                        && c == Copy(topo.links[(id, d.port)], d.bytes, Some(origin))
  {
    var n := |sent| - 1;
    var d := sent[n];
    if c !in Spread(topo, id, sent[..n], origin) {
      assert d in sent && c == Copy(topo.links[(id, d.port)], d.bytes, Some(origin));
    } else {
      SpreadMembers(topo, id, sent[..n], origin, c);
      var e :| e in sent[..n] && (id, e.port) in topo.links
               && c == Copy(topo.links[(id, e.port)], e.bytes, Some(origin));
      assert e in sent;
    }
  }

  lemma ForwardKeepsModes(s: State, ingress: PortId, frame: EthernetFrame, now: nat)
    ensures var t := Forward(s, ingress, frame, now).0;
            t.ports.Keys == s.ports.Keys && forall p | p in s.ports :: t.ports[p].mode == s.ports[p].mode
  {
    SwitchRuns.ForwardTable(s, ingress, frame, now);
  }

  lemma StepKeepsFit(topo: Topology, id: SwitchId, s: State, op: Op)
    requires topo.Valid() && SwitchFits(topo, id, s)
    requires op.OpAddPort? ==> (id, op.port) in topo.modes && op.mode == topo.modes[(id, op.port)]
    ensures SwitchFits(topo, id, Step(s, op))
  {
    SwitchLaws.StepKeepsValid(s, op);
    if op.OpForward? {
      ForwardKeepsModes(s, op.ingress, op.frame, op.now);
    }
  }

  /** One delivery of an admitted frame: it is for a carrier of the VLAN, and whatever is at the other
      end of the cable cannot take it for another VLAN. */
  lemma DeliveryIsolated(topo: Topology, id: SwitchId, s: State, port: PortId, bytes: seq<u8>, now: nat, origin: Origin,
                         d: Delivery)
    requires topo.Valid() && SwitchFits(topo, id, s) && Parse(bytes).Ok?
    requires Admitted(s, port, Parse(bytes).value) == Some(origin.vlan)
    requires SwitchLaws.SameContent(Parse(bytes).value, origin.frame)
    requires Forward(s, port, Parse(bytes).value, now).1.Ok?
    requires d in Forward(s, port, Parse(bytes).value, now).1.value
    ensures (id, d.port) in topo.modes && topo.modes[(id, d.port)].Carries(origin.vlan) && d.port != port
    ensures Parse(d.bytes).Ok? && SwitchLaws.SameContent(Parse(d.bytes).value, origin.frame)
    ensures (id, d.port) in topo.links ==>
              CopyIsolated(topo, Copy(topo.links[(id, d.port)], d.bytes, Some(origin)))
  {
    var frame := Parse(bytes).value;
    ParseThenWrite(bytes);
    SwitchLaws.DeliveredOnlyToCarriers(s, port, frame, now);
    var mode := topo.modes[(id, d.port)];
    SwitchLaws.OneHop(mode, mode, d.port, origin.vlan, frame);
    if (id, d.port) in topo.links {
      var far := topo.links[(id, d.port)];
      SwitchLaws.OneHop(mode, topo.modes[far], far.1, origin.vlan, frame);
    }
  }

  /** Everything one arrival sends on is isolated, and so is the record of it. */
  lemma SentIsolated(topo: Topology, id: SwitchId, s: State, port: PortId, bytes: seq<u8>, now: nat, origin: Origin)
    requires topo.Valid() && SwitchFits(topo, id, s) && Parse(bytes).Ok?
    requires var admitted := Admitted(s, port, Parse(bytes).value); admitted.Some? ==> admitted.value == origin.vlan
    requires SwitchLaws.SameContent(Parse(bytes).value, origin.frame)
    ensures var frame := Parse(bytes).value;
            var sent := SentBy(Forward(s, port, frame, now).1);
            && HopIsolated(topo, Hop((id, port), origin, frame, Admitted(s, port, frame), sent))
            && forall x | x in Spread(topo, id, sent, origin) :: CopyIsolated(topo, x)
  {
    var frame := Parse(bytes).value;
    var sent := SentBy(Forward(s, port, frame, now).1);
    SwitchLaws.DeliveredOnlyToCarriers(s, port, frame, now);
    forall d | d in sent
      ensures (id, d.port) in topo.modes && topo.modes[(id, d.port)].Carries(origin.vlan) && d.port != port
      ensures Parse(d.bytes).Ok? && SwitchLaws.SameContent(Parse(d.bytes).value, origin.frame)
      ensures (id, d.port) in topo.links ==>
                CopyIsolated(topo, Copy(topo.links[(id, d.port)], d.bytes, Some(origin)))
    {
      DeliveryIsolated(topo, id, s, port, bytes, now, origin, d);
    }
    forall x | x in Spread(topo, id, sent, origin)
      ensures CopyIsolated(topo, x)
    {
      SpreadMembers(topo, id, sent, origin, x);
    }
  }

  /** A copy with a known origin is only ever admitted to that origin's VLAN. */
  lemma AdmittedToOrigin(topo: Topology, id: SwitchId, s: State, c: Copy)
    requires SwitchFits(topo, id, s) && c.place.0 == id && CopyIsolated(topo, c)
    requires c.origin.Some? && Parse(c.bytes).Ok?
    ensures var admitted := Admitted(s, c.place.1, Parse(c.bytes).value);
            admitted.Some? ==> admitted.value == c.origin.value.vlan
  {
  }

  lemma RecordKeepsInvariant(topo: Topology, net: Net, t: State, rest: seq<Copy>, hop: Hop)
    requires NetInvariant(topo, net) && (forall x | x in rest :: x in net.wire)
    requires SwitchFits(topo, hop.place.0, t) && HopIsolated(topo, hop)
    requires forall x | x in Spread(topo, hop.place.0, hop.sent, hop.origin) :: CopyIsolated(topo, x)
    ensures NetInvariant(topo, Record(topo, net, t, rest, hop))
  {
  }

  lemma ArrivalIsolated(topo: Topology, net: Net, c: Copy, rest: seq<Copy>, now: nat)
    requires topo.Valid() && NetInvariant(topo, net)
    requires c in net.wire && (forall x | x in rest :: x in net.wire)
    ensures NetInvariant(topo, ArriveAt(topo, net, c, rest, now))
  {
    var (id, port) := c.place;
    if id in net.switches && Parse(c.bytes).Ok? {
      var s := net.switches[id];
      var frame := Parse(c.bytes).value;
      var (t, r) := Forward(s, port, frame, now);
      var admitted := Admitted(s, port, frame);
      assert t == Step(s, OpForward(port, frame, now));
      StepKeepsFit(topo, id, s, OpForward(port, frame, now));
      if c.origin.Some? || admitted.Some? {
        var origin := if c.origin.Some? then c.origin.value else Origin(admitted.value, frame);
        if c.origin.Some? {
          AdmittedToOrigin(topo, id, s, c);
        }
        SentIsolated(topo, id, s, port, c.bytes, now, origin);
        RecordKeepsInvariant(topo, net, t, rest, Hop(c.place, origin, frame, admitted, SentBy(r)));
      }
    }
  }

  lemma NextKeepsInvariant(topo: Topology, net: Net, step: NetStep)
    requires topo.Valid() && NetInvariant(topo, net) && Legal(topo, step)
    ensures NetInvariant(topo, NextNet(topo, net, step))
  {
    match step
    case Inject(_, _) =>
    case Arrive(i, now) =>
      if i < |net.wire| {
        ArrivalIsolated(topo, net, net.wire[i], net.wire[..i] + net.wire[i + 1..], now);
      }
    case Manage(id, op) =>
      if id in net.switches {
        StepKeepsFit(topo, id, net.switches[id], op);
      }
  }

  /** VLAN isolation across the whole network. In every run from fresh switches, at every switch a copy
      ever reaches, it is turned away or put in the VLAN its origin was first put in; and it only ever
      leaves, with its content intact, through ports that carry that VLAN. */
  lemma {:induction false} VlanIsolation(topo: Topology, net: Net, steps: seq<NetStep>)
    requires topo.Valid() && Initial(net)
    requires forall step | step in steps :: Legal(topo, step)
    ensures NetInvariant(topo, RunNet(topo, net, steps))
    ensures forall h | h in RunNet(topo, net, steps).log :: HopIsolated(topo, h)
  {
    if steps != [] {
      var n := |steps| - 1;
      assert forall step | step in steps[..n] :: step in steps;
      VlanIsolation(topo, net, steps[..n]);
      assert steps[n] in steps;
      NextKeepsInvariant(topo, RunNet(topo, net, steps[..n]), steps[n]);
    }
  }
}
