/** The switch as a value: its four maps, and each operation as a function from
    state to state. `Switch.dfy` proves that the class with mutable fields does
    exactly this; the other files prove what it amounts to. */
module SwitchModel {
  import opened Prelude
  import opened OrderedSets
  import opened Frame
  import opened LoopGuard
  import opened Ports
  import opened MacTables

  const BROADCAST: Mac := [0xFF, 0xFF, 0xFF, 0xFF, 0xFF, 0xFF]

  datatype PortEntry = PortEntry(mode: PortMode, blocked: bool)

  datatype Counters = Counters(framesIn: nat, bytesIn: nat, framesOut: nat, bytesOut: nat, drops: nat)

  const ZERO_COUNTERS := Counters(0, 0, 0, 0, 0)

  datatype Delivery = Delivery(port: PortId, bytes: seq<u8>)

  datatype SwitchError =
    | UnknownPort(port: PortId)
    | VlanNotAllowedOnTrunk(port: PortId, vlan: Vlan)
    | UntaggedFrameOnTrunkWithoutNative(port: PortId)
    | TaggedFrameOnAccessPort(port: PortId)
    | PortBlocked(port: PortId)

  type PortMap = map<PortId, PortEntry>

  datatype State = State(
    ports: PortMap,
    table: Table,
    portCounters: map<PortId, Counters>,
    vlanCounters: map<Vlan, Counters>,
    probeId: u64)

  /** The I/G bit of a MAC address. */
  predicate IsGroupAddress(mac: Mac) {
    mac[0] % 2 != 0
  }

  // ---------------------------------------------------------------- counters

  function CountersOf<K>(m: map<K, Counters>, k: K): Counters {
    if k in m then m[k] else ZERO_COUNTERS
  }

  function CountIn<K>(m: map<K, Counters>, k: K, len: nat): map<K, Counters> {
    var c := CountersOf(m, k);
    m[k := c.(framesIn := c.framesIn + 1, bytesIn := c.bytesIn + len)]
  }

  function CountOut<K>(m: map<K, Counters>, k: K, len: nat): map<K, Counters> {
    var c := CountersOf(m, k);
    m[k := c.(framesOut := c.framesOut + 1, bytesOut := c.bytesOut + len)]
  }

  function CountDrop<K>(m: map<K, Counters>, k: K): map<K, Counters> {
    var c := CountersOf(m, k);
    m[k := c.(drops := c.drops + 1)]
  }

  /** Every delivery counted at its port and at the VLAN. */
  function CountDeliveries(s: State, vlan: Vlan, ds: seq<Delivery>): State {
    if ds == [] then
      s
    else
      var t := CountDeliveries(s, vlan, ds[..|ds| - 1]);
      var d := ds[|ds| - 1];
      t.(portCounters := CountOut(t.portCounters, d.port, |d.bytes|),
         vlanCounters := CountOut(t.vlanCounters, vlan, |d.bytes|))
  }

  // ---------------------------------------------------------------- administration

  function Init(probeId: u64): State {
    State(map[], map[], map[], map[], probeId)
  }

  function AddPort(s: State, port: PortId, mode: PortMode): State {
    s.(table := WithoutPort(s.table, port), ports := s.ports[port := PortEntry(mode, false)])
  }

  function RemovePort(s: State, port: PortId): State {
    s.(ports := s.ports - {port},
       table := WithoutPort(s.table, port),
       portCounters := s.portCounters - {port})
  }

  function SetBlocked(ports: PortMap, port: PortId, blocked: bool): PortMap {
    if port in ports then ports[port := ports[port].(blocked := blocked)] else ports
  }

  function BlockPort(s: State, port: PortId): State {
    s.(ports := SetBlocked(s.ports, port, true), table := WithoutPort(s.table, port))
  }

  function UnblockPort(s: State, port: PortId): State {
    s.(ports := SetBlocked(s.ports, port, false))
  }

  function AgeOut(s: State, maxAge: nat, now: nat): State {
    s.(table := Evict(s.table, maxAge, now))
  }

  predicate IsBlocked(s: State, port: PortId) {
    port in s.ports && s.ports[port].blocked
  }

  // ---------------------------------------------------------------- forwarding

  /** The VLAN of a frame with this tag arriving on a port of this mode. */
  function ResolveVlan(port: PortId, mode: PortMode, tag: Option<Dot1qTag>): Result<Vlan, SwitchError> {
    match (mode, tag)
    case (Access(_), Some(_)) => Err(TaggedFrameOnAccessPort(port))
    case (Trunk(native, allowed), Some(t)) =>
      if t.vid in allowed || native == Some(t.vid) then Ok(t.vid) else Err(VlanNotAllowedOnTrunk(port, t.vid))
    case (Access(vlan), None) => Ok(vlan)
    case (Trunk(Some(vlan), _), None) => Ok(vlan)
    case (Trunk(None, _), None) => Err(UntaggedFrameOnTrunkWithoutNative(port))
  }

  function IngressVlan(ports: PortMap, port: PortId, frame: EthernetFrame): Result<Vlan, SwitchError> {
    if port !in ports then Err(UnknownPort(port)) else ResolveVlan(port, ports[port].mode, frame.tag)
  }

  /** Whether a port of this mode sends `vlan` without a tag. */
  predicate SendsUntagged(mode: PortMode, vlan: Vlan) {
    match mode
    case Access(_) => true
    case Trunk(native, _) => native == Some(vlan)
  }

  /** The frame as a port of this mode puts it on the wire. */
  function EgressFrame(mode: PortMode, vlan: Vlan, frame: EthernetFrame): EthernetFrame {
    var tag :=
      if SendsUntagged(mode, vlan) then None
      else match frame.tag
           case Some(t) => Some(Dot1qTag(t.pcp, t.dei, vlan))
           case None => Some(Dot1qTag(0, false, vlan));
    frame.(tag := tag)
  }

  function EncodeForEgress(ports: PortMap, port: PortId, vlan: Vlan, frame: EthernetFrame): Option<Delivery> {
    if port !in ports || ports[port].blocked then
      None
    else
      var out := EgressFrame(ports[port].mode, vlan, frame);
      if out.Writable() then Some(Delivery(port, Encode(out))) else None
  }

  function Deliveries(ports: PortMap, targets: seq<PortId>, vlan: Vlan, frame: EthernetFrame): seq<Delivery> {
    if targets == [] then
      []
    else
      var n := |targets| - 1;
      var last := EncodeForEgress(ports, targets[n], vlan, frame);
      Deliveries(ports, targets[..n], vlan, frame) + (if last.Some? then [last.value] else [])
  }

  /** The unblocked carriers of `vlan` other than `exclude`. */
  function FloodSet(ports: PortMap, vlan: Vlan, exclude: PortId): set<PortId> {
    set p | p in ports && p != exclude && !ports[p].blocked && ports[p].mode.Carries(vlan)
  }

  ghost function FloodTargets(ports: PortMap, vlan: Vlan, exclude: PortId): (targets: seq<PortId>)
    ensures Ascending(targets)
    ensures forall p :: p in targets <==> p in FloodSet(ports, vlan, exclude)
    ensures |targets| == |FloodSet(ports, vlan, exclude)|
  {
    var sorted := Sorted(FloodSet(ports, vlan, exclude));
    assert forall p :: p in sorted <==> p in Elements(sorted);
    assert forall i | 0 <= i < |sorted| :: sorted[i] in sorted && sorted[i] in FloodSet(ports, vlan, exclude);
    sorted
  }

  ghost function EgressPorts(s: State, ingress: PortId, vlan: Vlan, dst: Mac): seq<PortId> {
    if dst == BROADCAST then
      FloodTargets(s.ports, vlan, ingress)
    else
      match LookupIn(s.table, vlan, dst)
      case Some(egress) => if egress == ingress then [] else [egress]
      case None => FloodTargets(s.ports, vlan, ingress)
  }

  function Learn(t: Table, vlan: Vlan, src: Mac, port: PortId, now: nat): Table {
    if IsGroupAddress(src) then t else t[(vlan, src) := Entry(port, now)]
  }

  /** The state once an accepted frame has been counted in and its source learned. */
  function Ingested(s: State, ingress: PortId, vlan: Vlan, frame: EthernetFrame, now: nat): State {
    s.(portCounters := CountIn(s.portCounters, ingress, frame.WireLen()),
       vlanCounters := CountIn(s.vlanCounters, vlan, frame.WireLen()),
       table := Learn(s.table, vlan, frame.src, ingress, now))
  }

  type Outcome = Result<seq<Delivery>, SwitchError>

  function HandleLoopProbe(s: State, ingress: PortId, frame: EthernetFrame): (State, Outcome) {
    if ingress !in s.ports then
      (s, Err(UnknownPort(ingress)))
    else
      (if IsOwnProbe(frame, s.probeId) then BlockPort(s, ingress) else s, Ok([]))
  }

  ghost function Forward(s: State, ingress: PortId, frame: EthernetFrame, now: nat): (State, Outcome) {
    if IsAnyProbe(frame) then
      HandleLoopProbe(s, ingress, frame)
    else if ingress !in s.ports then
      (s, Err(UnknownPort(ingress)))
    else if s.ports[ingress].blocked then
      (s.(portCounters := CountDrop(s.portCounters, ingress)), Err(PortBlocked(ingress)))
    else
      match IngressVlan(s.ports, ingress, frame)
      case Err(e) => (s.(portCounters := CountDrop(s.portCounters, ingress)), Err(e))
      case Ok(vlan) =>
        var t := Ingested(s, ingress, vlan, frame, now);
        var ds := Deliveries(t.ports, EgressPorts(t, ingress, vlan, frame.dst), vlan, frame);
        (CountDeliveries(t, vlan, ds), Ok(ds))
  }

  /** The VLAN a frame is admitted to, if it is admitted at all. */
  function Admitted(s: State, ingress: PortId, frame: EthernetFrame): Option<Vlan> {
    if IsAnyProbe(frame) || ingress !in s.ports || s.ports[ingress].blocked then
      None
    else
      match IngressVlan(s.ports, ingress, frame)
      case Err(_) => None
      case Ok(vlan) => Some(vlan)
  }

  // ---------------------------------------------------------------- runs

  datatype Op =
    | OpAddPort(port: PortId, mode: PortMode)
    | OpRemovePort(port: PortId)
    | OpBlockPort(port: PortId)
    | OpUnblockPort(port: PortId)
    | OpAgeOut(maxAge: nat, now: nat)
    | OpForward(ingress: PortId, frame: EthernetFrame, now: nat)
  {
    /** What the source asks of its callers: a mode built by one of the constructors. */
    ghost predicate Legal() {
      OpAddPort? ==> mode.Valid()
    }
  }

  ghost function Step(s: State, op: Op): State {
    match op
    case OpAddPort(port, mode) => AddPort(s, port, mode)
    case OpRemovePort(port) => RemovePort(s, port)
    case OpBlockPort(port) => BlockPort(s, port)
    case OpUnblockPort(port) => UnblockPort(s, port)
    case OpAgeOut(maxAge, now) => AgeOut(s, maxAge, now)
    case OpForward(ingress, frame, now) => Forward(s, ingress, frame, now).0
  }

  ghost function Run(s: State, ops: seq<Op>): State {
    if ops == [] then s else Step(Run(s, ops[..|ops| - 1]), ops[|ops| - 1])
  }

  ghost predicate Legal(ops: seq<Op>) {
    forall op | op in ops :: op.Legal()
  }
}
