/** The daemon's one task as a state machine: frames and deaths of ports arrive
    through one queue, and a reload tears everything down and rebuilds it while
    events of the old ports may still be queued. */
module DaemonModel {
  import opened Prelude
  import opened OrderedSets
  import opened Frame
  import opened LoopGuard
  import opened Ports
  import opened MacTables
  import opened SwitchModel
  import SwitchLaws
  import SwitchRuns

  const OUTBOUND_QUEUE_DEPTH: nat := 256
  const MAC_MAX_AGE: nat := 300
  const LAST_ID: u32 := 0xFFFF_FFFF

  type Bytes = seq<u8>

  /** A port's outbound queue; the port is running as long as its handle is kept. */
  type Handles = map<PortId, seq<Bytes>>

  datatype Daemon = Daemon(sw: State, handles: Handles, nextId: u32)

  datatype PortEvent = Frame(bytes: Bytes) | Down

  /** What the operating system does when a device is opened: it fails outright, or fails when asked
      for the device's name, after the port has been registered, or works. */
  datatype Opening = OpenFails | NameFails | Opens

  datatype PortSpec = PortSpec(name: string, mode: PortMode, opening: Opening)

  /** A bounded queue drops what does not fit. */
  function TrySend(queue: seq<Bytes>, bytes: Bytes): seq<Bytes> {
    if |queue| < OUTBOUND_QUEUE_DEPTH then queue + [bytes] else queue
  }

  function Deliver(handles: Handles, port: PortId, bytes: Bytes): Handles {
    if port in handles then handles[port := TrySend(handles[port], bytes)] else handles
  }

  function DeliverAll(handles: Handles, ds: seq<Delivery>): Handles {
    if ds == [] then
      handles
    else
      var d := ds[|ds| - 1];
      Deliver(DeliverAll(handles, ds[..|ds| - 1]), d.port, d.bytes)
  }

  ghost function HandleEvent(d: Daemon, ingress: PortId, event: PortEvent, now: nat): Daemon {
    match event
    case Down => d.(sw := RemovePort(d.sw, ingress), handles := d.handles - {ingress})
    case Frame(bytes) =>
      match Parse(bytes)
      case Err(_) => d
      case Ok(frame) =>
        var (t, r) := Forward(d.sw, ingress, frame, now);
        d.(sw := t, handles := if r.Ok? then DeliverAll(d.handles, r.value) else d.handles)
  }

  /** Registers `spec` under `port`, as far as opening its device gets. */
  function SpawnPort(d: Daemon, port: PortId, spec: PortSpec): Daemon {
    match spec.opening
    case OpenFails => d
    case NameFails => d.(sw := AddPort(d.sw, port, spec.mode))
    case Opens => d.(sw := AddPort(d.sw, port, spec.mode), handles := d.handles[port := []])
  }

  /** Spawns each spec under the next id, and stops for good when ids run out. */
  function SpawnAll(d: Daemon, specs: seq<PortSpec>): Daemon
    decreases |specs|
  {
    if specs == [] || d.nextId == LAST_ID then
      d
    else
      SpawnAll(SpawnPort(d.(nextId := d.nextId + 1), d.nextId, specs[0]), specs[1..])
  }

  /** Spawning from place `i` on is spawning the one there, if an id is left, and then the rest. */
  lemma SpawnNext(d: Daemon, specs: seq<PortSpec>, i: nat)
    requires i < |specs|
    ensures SpawnAll(d, specs[i..]) ==
            if d.nextId == LAST_ID then d
            else SpawnAll(SpawnPort(d.(nextId := d.nextId + 1), d.nextId, specs[i]), specs[i + 1..])
  {
    assert specs[i..][1..] == specs[i + 1..];
  }

  /** The ids those spawns hand out. */
  function SpawnedIds(nextId: u32, specs: seq<PortSpec>): seq<PortId>
    decreases |specs|
  {
    if specs == [] || nextId == LAST_ID then [] else [nextId] + SpawnedIds(nextId + 1, specs[1..])
  }

  /** `config` is what loading and checking the file came to, if it came to anything. */
  function Reload(d: Daemon, config: Option<seq<PortSpec>>, probeId: u64): Daemon {
    match config
    case None => d
    case Some(specs) => SpawnAll(Daemon(Init(probeId), map[], d.nextId), specs)
  }

  function SendProbe(d: Daemon): Daemon {
    d.(handles := map p | p in d.handles :: TrySend(d.handles[p], ProbeBytes(d.sw.probeId)))
  }

  /** A writer task takes the oldest frame off its queue. */
  function Drain(d: Daemon, port: PortId): Daemon {
    if port in d.handles && d.handles[port] != []
    then d.(handles := d.handles[port := d.handles[port][1..]])
    else d
  }

  // ---------------------------------------------------------------- the task and its queue

  /** The daemon, its event queue, and every id it has ever handed out. */
  datatype World = World(d: Daemon, queue: seq<(PortId, PortEvent)>, issued: seq<PortId>)

  /** One turn of the loop, or something its tasks do meanwhile. A reader may still send for a port that
      is gone: it is stopped at its next yield point, not at once. */
  datatype Happening =
    | ReaderSends(port: PortId, event: PortEvent)
    | NextEvent(now: nat)
    | AgeSweep(now: nat)
    | ProbeTick
    | WriterDrains(port: PortId)
    | Sighup(config: Option<seq<PortSpec>>, probeId: u64)

  /** A config that was accepted holds only modes the constructors build. */
  ghost predicate Legal(h: Happening) {
    h.Sighup? && h.config.Some? ==> forall spec | spec in h.config.value :: spec.mode.Valid()
  }

  ghost function Next(w: World, h: Happening): World {
    match h
    case ReaderSends(port, event) =>
      if port in w.issued then w.(queue := w.queue + [(port, event)]) else w
    case NextEvent(now) =>
      if w.queue == [] then w
      else w.(d := HandleEvent(w.d, w.queue[0].0, w.queue[0].1, now), queue := w.queue[1..])
    case AgeSweep(now) => w.(d := w.d.(sw := AgeOut(w.d.sw, MAC_MAX_AGE, now)))
    case ProbeTick => w.(d := SendProbe(w.d))
    case WriterDrains(port) => w.(d := Drain(w.d, port))
    case Sighup(config, probeId) =>
      w.(d := Reload(w.d, config, probeId),
         issued := w.issued + (if config.Some? then SpawnedIds(w.d.nextId, config.value) else []))
  }

  ghost function Run(w: World, hs: seq<Happening>): World {
    if hs == [] then w else Next(Run(w, hs[..|hs| - 1]), hs[|hs| - 1])
  }

  /** The daemon just after startup: every device opened, or `run` would have returned an error. */
  ghost predicate Started(w: World, specs: seq<PortSpec>, probeId: u64) {
    && (forall spec | spec in specs :: spec.opening.Opens? && spec.mode.Valid())
    && |specs| <= LAST_ID
    && w == World(SpawnAll(Daemon(Init(probeId), map[], 0), specs), [], SpawnedIds(0, specs))
  }

  // ---------------------------------------------------------------- invariant

  ghost predicate DaemonValid(d: Daemon) {
    && SwitchLaws.Valid(d.sw)
    && d.handles.Keys <= d.sw.ports.Keys
    && (forall p | p in d.handles :: |d.handles[p]| <= OUTBOUND_QUEUE_DEPTH)
    && forall p | p in d.sw.ports :: p < d.nextId
  }

  ghost predicate WorldValid(w: World) {
    && DaemonValid(w.d)
    && (forall e | e in w.queue :: e.0 < w.d.nextId)
    && (forall id | id in w.issued :: id < w.d.nextId)
    && Ascending(w.issued)
    && (forall p | p in w.d.sw.ports :: p in w.issued)
  }

  lemma SpawnPortValid(d: Daemon, spec: PortSpec)
    requires DaemonValid(d) && spec.mode.Valid() && d.nextId < LAST_ID
    ensures DaemonValid(SpawnPort(d.(nextId := d.nextId + 1), d.nextId, spec))
  {
    SwitchLaws.StepKeepsValid(d.sw, OpAddPort(d.nextId, spec.mode));
  }

  lemma {:induction false} SpawnAllValid(d: Daemon, specs: seq<PortSpec>)
    requires DaemonValid(d) && forall spec | spec in specs :: spec.mode.Valid()
    ensures DaemonValid(SpawnAll(d, specs))
    decreases |specs|
  {
    if specs != [] && d.nextId < LAST_ID {
      assert specs[0] in specs;
      SpawnPortValid(d, specs[0]);
      SpawnAllValid(SpawnPort(d.(nextId := d.nextId + 1), d.nextId, specs[0]), specs[1..]);
    }
  }

  lemma {:induction false} SpawnAllPorts(d: Daemon, specs: seq<PortSpec>)
    ensures forall p | p in SpawnAll(d, specs).sw.ports :: p in d.sw.ports || p in SpawnedIds(d.nextId, specs)
    decreases |specs|
  {
    if specs != [] && d.nextId < LAST_ID {
      SpawnAllPorts(SpawnPort(d.(nextId := d.nextId + 1), d.nextId, specs[0]), specs[1..]);
    }
  }

  lemma {:induction false} SpawnedIdsAscend(d: Daemon, specs: seq<PortSpec>)
    ensures var ids := SpawnedIds(d.nextId, specs);
            Ascending(ids) && forall id | id in ids :: d.nextId <= id < SpawnAll(d, specs).nextId
    decreases |specs|
  {
    if specs != [] && d.nextId < LAST_ID {
      var e := SpawnPort(d.(nextId := d.nextId + 1), d.nextId, specs[0]);
      SpawnedIdsAscend(e, specs[1..]);
      SpawnAllNeverRewinds(e, specs[1..]);
      AscendingConcat([d.nextId], SpawnedIds(e.nextId, specs[1..]), e.nextId);
    }
  }

  lemma {:induction false} SpawnAllNeverRewinds(d: Daemon, specs: seq<PortSpec>)
    ensures SpawnAll(d, specs).nextId >= d.nextId
    decreases |specs|
  {
    if specs != [] && d.nextId < LAST_ID {
      SpawnAllNeverRewinds(SpawnPort(d.(nextId := d.nextId + 1), d.nextId, specs[0]), specs[1..]);
    }
  }

  lemma {:induction false} DeliverAllKeys(handles: Handles, ds: seq<Delivery>)
    requires forall p | p in handles :: |handles[p]| <= OUTBOUND_QUEUE_DEPTH
    ensures DeliverAll(handles, ds).Keys == handles.Keys
    ensures forall p | p in handles :: |DeliverAll(handles, ds)[p]| <= OUTBOUND_QUEUE_DEPTH
  {
    if ds != [] {
      DeliverAllKeys(handles, ds[..|ds| - 1]);
    }
  }

  /** The frames among `ds` for port `p`, in order. */
  function FramesFor(ds: seq<Delivery>, p: PortId): seq<Bytes> {
    if ds == [] then
      []
    else
      var d := ds[|ds| - 1];
      var before := FramesFor(ds[..|ds| - 1], p);
      if d.port == p then before + [d.bytes] else before
  }

  /** Delivery is tail-drop: a running port's queue becomes what it was followed by its frames in order,
      cut off at the bound, and what does not fit or has no running port is dropped. */
  lemma {:induction false} DeliveryIsTailDrop(handles: Handles, ds: seq<Delivery>, p: PortId)
    requires p in handles && |handles[p]| <= 256
    ensures p in DeliverAll(handles, ds)
    ensures var all := handles[p] + FramesFor(ds, p);
            DeliverAll(handles, ds)[p] == if |all| <= 256 then all else all[..256]
  {
    if ds == [] {
      assert handles[p] + [] == handles[p];
    } else {
      var n := |ds| - 1;
      DeliveryIsTailDrop(handles, ds[..n], p);
      var all := handles[p] + FramesFor(ds[..n], p);
      if ds[n].port == p {
        assert handles[p] + FramesFor(ds, p) == all + [ds[n].bytes];
      }
    }
  }

  lemma HandleEventValid(d: Daemon, ingress: PortId, event: PortEvent, now: nat)
    requires DaemonValid(d)
    ensures DaemonValid(HandleEvent(d, ingress, event, now))
    ensures HandleEvent(d, ingress, event, now).sw.ports.Keys <= d.sw.ports.Keys
  {
    match event
    case Down => SwitchLaws.StepKeepsValid(d.sw, OpRemovePort(ingress));
    case Frame(bytes) =>
      if Parse(bytes).Ok? {
        var frame := Parse(bytes).value;
        SwitchLaws.ForwardKeepsValid(d.sw, ingress, frame, now);
        SwitchRuns.ForwardTable(d.sw, ingress, frame, now);
        var r := Forward(d.sw, ingress, frame, now).1;
        if r.Ok? {
          DeliverAllKeys(d.handles, r.value);
        }
      }
  }

  // ---------------------------------------------------------------- what one event does

  lemma {:induction false} NoFramesFor(ds: seq<Delivery>, p: PortId)
    requires forall d | d in ds :: d.port != p
    ensures FramesFor(ds, p) == []
  {
    if ds != [] {
      NoFramesFor(ds[..|ds| - 1], p);
    }
  }

  lemma {:induction false} OneFrameFor(ds: seq<Delivery>, p: PortId, d: Delivery)
    requires SwitchLaws.PortsAscend(ds)
    requires d in ds && d.port == p
    ensures FramesFor(ds, p) == [d.bytes]
  {
    var n := |ds| - 1;
    if ds[n].port == p {
      NoFramesFor(ds[..n], p);
    } else {
      OneFrameFor(ds[..n], p, d);
    }
  }

  /** The one frame for a running port among what an arrival sends, or none. */
  lemma FramesForGoesTo(s: State, ingress: PortId, frame: EthernetFrame, now: nat, p: PortId)
    requires SwitchLaws.Valid(s) && Forward(s, ingress, frame, now).1.Ok?
    ensures FramesFor(Forward(s, ingress, frame, now).1.value, p)
            == if SwitchLaws.GoesTo(s, ingress, frame, p) then [SwitchLaws.WireImage(s, ingress, frame, p)] else []
  {
    var sent := Forward(s, ingress, frame, now).1.value;
    SwitchLaws.ForwardGoesTo(s, ingress, frame, now);
    if SwitchLaws.GoesTo(s, ingress, frame, p) {
      var d := Delivery(p, SwitchLaws.WireImage(s, ingress, frame, p));
      assert d in sent;
      OneFrameFor(sent, p, d);
    } else {
      NoFramesFor(sent, p);
    }
  }

  /** From the wire to the queues. A frame event gives a running port exactly one frame more, in that
      port's wire form, if the bytes parse, the frame goes to that port and the queue holds fewer
      than 256; in every other case its queue stays as it was. No port starts or stops running. */
  lemma FrameEventQueues(d: Daemon, ingress: PortId, bytes: Bytes, now: nat, p: PortId)
    requires DaemonValid(d) && p in d.handles
    ensures var e := HandleEvent(d, ingress, Frame(bytes), now);
            && e.handles.Keys == d.handles.Keys && e.nextId == d.nextId
            && e.handles[p] ==
               if && Parse(bytes).Ok?
                  && SwitchLaws.GoesTo(d.sw, ingress, Parse(bytes).value, p)
                  && |d.handles[p]| < 256
               then d.handles[p] + [SwitchLaws.WireImage(d.sw, ingress, Parse(bytes).value, p)]
               else d.handles[p]
  {
    if Parse(bytes).Ok? {
      var frame := Parse(bytes).value;
      var r := Forward(d.sw, ingress, frame, now).1;
      if r.Ok? {
        FramesForGoesTo(d.sw, ingress, frame, now, p);
        DeliverAllKeys(d.handles, r.value);
        DeliveryIsTailDrop(d.handles, r.value, p);
        assert d.handles[p] + [] == d.handles[p];
      }
    }
  }

  /** So that is what the loop does with a frame event it takes off its queue. */
  lemma NextFrameQueues(w: World, ingress: PortId, bytes: Bytes, rest: seq<(PortId, PortEvent)>, now: nat, p: PortId)
    requires WorldValid(w) && w.queue == [(ingress, Frame(bytes))] + rest && p in w.d.handles
    ensures var v := Next(w, NextEvent(now));
            && v.queue == rest
            && v.d.handles.Keys == w.d.handles.Keys
            && v.d.handles[p] ==
               if && Parse(bytes).Ok?
                  && SwitchLaws.GoesTo(w.d.sw, ingress, Parse(bytes).value, p)
                  && |w.d.handles[p]| < 256
               then w.d.handles[p] + [SwitchLaws.WireImage(w.d.sw, ingress, Parse(bytes).value, p)]
               else w.d.handles[p]
  {
    assert w.queue[0] == (ingress, Frame(bytes));
    FrameEventQueues(w.d, ingress, bytes, now, p);
  }

  /** What arrives on a port that is not registered, or is not a frame at all, changes nothing. */
  lemma UselessFrameEvent(d: Daemon, ingress: PortId, bytes: Bytes, now: nat)
    requires Parse(bytes).Err? || ingress !in d.sw.ports
    ensures HandleEvent(d, ingress, Frame(bytes), now) == d
  {
  }

  /** A port's death takes its registration, counters, addresses and queue with it and nothing of any
      other port's; traffic counted by VLAN stays. */
  lemma DownSparesOthers(d: Daemon, id: PortId, now: nat, q: PortId)
    requires DaemonValid(d) && q != id
    ensures var e := HandleEvent(d, id, Down, now);
            && id !in e.sw.ports && id !in e.sw.portCounters && id !in e.handles
            && (forall k | k in e.sw.table :: e.sw.table[k].port != id)
            && (q in e.sw.ports <==> q in d.sw.ports) && (q in d.sw.ports ==> e.sw.ports[q] == d.sw.ports[q])
            && (q in e.sw.portCounters <==> q in d.sw.portCounters)
            && CountersOf(e.sw.portCounters, q) == CountersOf(d.sw.portCounters, q)
            && (forall k :: (k in e.sw.table && e.sw.table[k].port == q)
                            <==> (k in d.sw.table && d.sw.table[k].port == q))
            && (forall k | k in e.sw.table :: k in d.sw.table && e.sw.table[k] == d.sw.table[k])
            && (q in e.handles <==> q in d.handles) && (q in d.handles ==> e.handles[q] == d.handles[q])
            && e.sw.vlanCounters == d.sw.vlanCounters && e.sw.probeId == d.sw.probeId && e.nextId == d.nextId
  {
  }

  /** A probe tick appends exactly one frame to the queue of every running port that has room, and
      changes nothing else of the world. */
  lemma ProbeTickQueues(w: World, p: PortId)
    requires p in w.d.handles && |w.d.handles[p]| <= 256
    ensures var v := Next(w, ProbeTick);
            && v.d.sw == w.d.sw && v.d.nextId == w.d.nextId && v.queue == w.queue && v.issued == w.issued
            && v.d.handles.Keys == w.d.handles.Keys
            && v.d.handles[p] ==
               if |w.d.handles[p]| < 256 then w.d.handles[p] + [ProbeBytes(w.d.sw.probeId)] else w.d.handles[p]
  {
  }

  /** And that frame does its work. However a cable pads it, and whatever has happened to the switch
      since, as long as it is the same switch: if it comes in on a registered port, that port is
      blocked and forgotten by the table, nothing is queued anywhere, and no other port is affected. */
  lemma QueuedProbeBlocks(w: World, p: PortId, d: Daemon, q: PortId, padding: Bytes, now: nat)
    requires p in w.d.handles && |w.d.handles[p]| < 256
    requires d.sw.probeId == w.d.sw.probeId && q in d.sw.ports
    ensures var sent := Next(w, ProbeTick).d.handles[p][|w.d.handles[p]|];
            var e := HandleEvent(d, q, Frame(sent + padding), now);
            && Parse(sent + padding).Ok? && IsOwnProbe(Parse(sent + padding).value, w.d.sw.probeId)
            && e == d.(sw := BlockPort(d.sw, q))
            && IsBlocked(e.sw, q) && (forall k | k in e.sw.table :: e.sw.table[k].port != q)
            && forall o | o in d.sw.ports && o != q :: e.sw.ports[o] == d.sw.ports[o]
  {
    ProbeTickQueues(w, p);
    ProbeRecognition(w.d.sw.probeId, w.d.sw.probeId, padding);
    SwitchRuns.ProbeArrival(d.sw, q, w.d.sw.probeId, padding, now);
  }

  /** A writer takes the oldest frame of its own queue and touches no other. */
  lemma WriterTakesOldest(w: World, p: PortId, q: PortId)
    requires q in w.d.handles
    ensures var v := Next(w, WriterDrains(p));
            && v.d.sw == w.d.sw && v.d.nextId == w.d.nextId && v.queue == w.queue && v.issued == w.issued
            && v.d.handles.Keys == w.d.handles.Keys
            && (if p == q && w.d.handles[q] != [] then w.d.handles[q] == [w.d.handles[q][0]] + v.d.handles[q]
                else v.d.handles[q] == w.d.handles[q])
  {
  }

  /** A sweep forgets exactly the addresses last seen 300 seconds ago or earlier. */
  lemma SweepForgetsAt300(w: World, now: nat, k: Key)
    ensures var v := Next(w, AgeSweep(now));
            && (k in v.d.sw.table <==> k in w.d.sw.table && now < w.d.sw.table[k].lastSeen + 300)
            && (k in v.d.sw.table ==> v.d.sw.table[k] == w.d.sw.table[k])
            && v == w.(d := w.d.(sw := w.d.sw.(table := v.d.sw.table)))
  {
    EvictExactly(w.d.sw.table, 300, now, k);
  }

  // ---------------------------------------------------------------- the switch within

  /** What one happening asks of the switch: a frame off the queue is forwarded, a death removes its
      port, a sweep ages at 300 s, and nothing else reaches it. */
  function OpsOf(w: World, h: Happening): seq<Op> {
    match h
    case NextEvent(now) =>
      if w.queue == [] then
        []
      else (
        match w.queue[0].1
        case Down => [OpRemovePort(w.queue[0].0)]
        case Frame(bytes) => if Parse(bytes).Ok? then [OpForward(w.queue[0].0, Parse(bytes).value, now)] else []
      )
    case AgeSweep(now) => [OpAgeOut(300, now)]
    case _ => []
  }

  ghost function SwitchOps(w: World, hs: seq<Happening>): seq<Op> {
    if hs == [] then
      []
    else
      var n := |hs| - 1;
      SwitchOps(w, hs[..n]) + OpsOf(Run(w, hs[..n]), hs[n])
  }

  /** Between reloads the daemon's switch makes a run of the switch with just those operations, so that
      every law about runs of the switch is one about the daemon. */
  lemma {:induction false} DaemonRunsItsSwitch(w: World, hs: seq<Happening>)
    requires forall h | h in hs :: h.Sighup? ==> h.config.None?
    ensures Run(w, hs).d.sw == SwitchModel.Run(w.d.sw, SwitchOps(w, hs))
  {
    if hs != [] {
      var n := |hs| - 1;
      assert forall h | h in hs[..n] :: h in hs;
      DaemonRunsItsSwitch(w, hs[..n]);
      assert hs[n] in hs;
      var before := Run(w, hs[..n]);
      var ops, last := SwitchOps(w, hs[..n]), OpsOf(before, hs[n]);
      OneStepOfSwitch(before, hs[n]);
      if last == [] {
        assert ops + last == ops;
      } else {
        assert (ops + last)[..|ops|] == ops && |last| == 1;
      }
    }
  }

  lemma OneStepOfSwitch(w: World, h: Happening)
    requires h.Sighup? ==> h.config.None?
    ensures var ops := OpsOf(w, h);
            && |ops| <= 1
            && Next(w, h).d.sw == if ops == [] then w.d.sw else Step(w.d.sw, ops[0])
  {
  }

  // ---------------------------------------------------------------- the event queue

  /** The events readers sent during a run, in order; a reader exists only for an id handed out. */
  ghost function SentEvents(w: World, hs: seq<Happening>): seq<(PortId, PortEvent)> {
    if hs == [] then
      []
    else
      var n := |hs| - 1;
      SentEvents(w, hs[..n])
      + (if hs[n].ReaderSends? && hs[n].port in Run(w, hs[..n]).issued then [(hs[n].port, hs[n].event)] else [])
  }

  /** The events that were handled during a run, in order. */
  ghost function HandledEvents(w: World, hs: seq<Happening>): seq<(PortId, PortEvent)> {
    if hs == [] then
      []
    else
      var n := |hs| - 1;
      var queue := Run(w, hs[..n]).queue;
      HandledEvents(w, hs[..n]) + (if hs[n].NextEvent? && queue != [] then [queue[0]] else [])
  }

  /** No event is lost, invented, repeated or overtaken, not even by a reload: over any run, what was
      queued and what was sent, in order, is what was handled and what is still queued. */
  lemma {:induction false} EventsInOrder(w: World, hs: seq<Happening>)
    ensures w.queue + SentEvents(w, hs) == HandledEvents(w, hs) + Run(w, hs).queue
  {
    if hs != [] {
      var n := |hs| - 1;
      EventsInOrder(w, hs[..n]);
      var before := Run(w, hs[..n]);
      var sent, handled := SentEvents(w, hs[..n]), HandledEvents(w, hs[..n]);
      assert sent + [] == sent && handled + [] == handled;
      match hs[n]
      case ReaderSends(port, event) =>
        if port in before.issued {
          var e := [(port, event)];
          assert w.queue + (sent + e) == (w.queue + sent) + e == handled + (before.queue + e);
        }
      case NextEvent(now) =>
        if before.queue != [] {
          assert before.queue == [before.queue[0]] + before.queue[1..];
        }
      case _ =>
    }
  }

  lemma ReloadValid(w: World, config: Option<seq<PortSpec>>, probeId: u64)
    requires WorldValid(w) && Legal(Sighup(config, probeId))
    ensures WorldValid(Next(w, Sighup(config, probeId)))
    ensures config.Some? ==>
              forall p | p in Next(w, Sighup(config, probeId)).d.sw.ports :: w.d.nextId <= p
  {
    if config.Some? {
      var blank := Daemon(Init(probeId), map[], w.d.nextId);
      SpawnAllValid(blank, config.value);
      SpawnAllPorts(blank, config.value);
      SpawnAllNeverRewinds(blank, config.value);
      SpawnedIdsAscend(blank, config.value);
      AscendingConcat(w.issued, SpawnedIds(w.d.nextId, config.value), w.d.nextId);
    }
  }

  lemma AscendingConcat(a: seq<int>, b: seq<int>, cut: int)
    requires Ascending(a) && Ascending(b)
    requires (forall x | x in a :: x < cut) && (forall x | x in b :: cut <= x)
    ensures Ascending(a + b)
  {
    forall i, j | 0 <= i < j < |a + b|
      ensures (a + b)[i] < (a + b)[j]
    {
      if i < |a| <= j {
        assert a[i] in a && b[j - |a|] in b;
      }
    }
  }

  lemma NextValid(w: World, h: Happening)
    requires WorldValid(w) && Legal(h)
    ensures WorldValid(Next(w, h))
    ensures Next(w, h).d.nextId >= w.d.nextId
  {
    match h
    case NextEvent(now) =>
      if w.queue != [] {
        HandleEventValid(w.d, w.queue[0].0, w.queue[0].1, now);
      }
    case AgeSweep(now) => SwitchLaws.StepKeepsValid(w.d.sw, OpAgeOut(MAC_MAX_AGE, now));
    case Sighup(config, probeId) =>
      ReloadValid(w, config, probeId);
      if config.Some? {
        SpawnAllNeverRewinds(Daemon(Init(probeId), map[], w.d.nextId), config.value);
      }
    case _ =>
  }

  /** Startup establishes the invariant. */
  lemma StartedIsValid(w: World, specs: seq<PortSpec>, probeId: u64)
    requires Started(w, specs, probeId)
    ensures WorldValid(w)
  {
    var blank := Daemon(Init(probeId), map[], 0);
    SpawnAllValid(blank, specs);
    SpawnAllPorts(blank, specs);
    SpawnedIdsAscend(blank, specs);
  }

  /** After startup every spec given is a registered, unblocked port in its mode, running with an empty
      queue, under the id of its place; and there is no other. */
  lemma StartedRunsAll(w: World, specs: seq<PortSpec>, probeId: u64, id: PortId)
    requires Started(w, specs, probeId)
    ensures id in w.d.sw.ports <==> id < |specs|
    ensures id in w.d.handles <==> id < |specs|
    ensures id < |specs| ==> w.d.sw.ports[id] == PortEntry(specs[id].mode, false) && w.d.handles[id] == []
    ensures w.d.sw.probeId == probeId && w.d.nextId == |specs|
  {
    var blank := Daemon(Init(probeId), map[], 0);
    SpawnAllClean(blank, specs);
    SpawnAllExtent(blank, specs, id);
    if id < |specs| {
      assert specs[id] in specs;
      SpawnAllPlaces(blank, specs, id);
    }
  }

  /** Over whole daemon runs: ids are handed out in strictly ascending order, so never twice; every
      handle belongs to a registered port, every registered port and queued event to an id that was handed
      out and lies below the allocator, and no outbound queue outgrows its bound. */
  lemma {:induction false} RunValid(w: World, hs: seq<Happening>)
    requires WorldValid(w) && forall h | h in hs :: Legal(h)
    ensures WorldValid(Run(w, hs))
    ensures Ascending(Run(w, hs).issued)
    ensures Run(w, hs).d.handles.Keys <= Run(w, hs).d.sw.ports.Keys
    ensures forall p | p in Run(w, hs).d.handles :: |Run(w, hs).d.handles[p]| <= 256
    ensures Run(w, hs).d.nextId >= w.d.nextId
  {
    if hs != [] {
      var n := |hs| - 1;
      assert forall h | h in hs[..n] :: h in hs;
      RunValid(w, hs[..n]);
      assert hs[n] in hs;
      NextValid(Run(w, hs[..n]), hs[n]);
    }
  }

  // ---------------------------------------------------------------- stale events

  /** An id that was handed out once and names no port any more. */
  ghost predicate Dead(d: Daemon, id: PortId) {
    id < d.nextId && id !in d.sw.ports
  }

  /** An event for a dead id changes nothing at all. */
  lemma DeadEventIsNoOp(d: Daemon, id: PortId, event: PortEvent, now: nat)
    requires DaemonValid(d) && Dead(d, id)
    ensures HandleEvent(d, id, event, now) == d
  {
    assert id !in d.handles;
    match event
    case Down =>
      assert d.sw.ports - {id} == d.sw.ports;
      assert d.sw.portCounters - {id} == d.sw.portCounters;
      assert d.handles - {id} == d.handles;
      NoEntriesForUnregistered(d.sw, id);
    case Frame(bytes) =>
      if Parse(bytes).Ok? && !IsAnyProbe(Parse(bytes).value) {
        assert Forward(d.sw, id, Parse(bytes).value, now) == (d.sw, Err(UnknownPort(id)));
      }
  }

  lemma NoEntriesForUnregistered(s: State, p: PortId)
    requires SwitchLaws.Valid(s) && p !in s.ports
    ensures WithoutPort(s.table, p) == s.table
  {
    forall k | k in s.table
      ensures s.table[k].port != p
    {
      assert SwitchLaws.EntryValid(s.ports, k, s.table[k]);
    }
  }

  lemma DeadStaysDead(w: World, h: Happening, id: PortId)
    requires WorldValid(w) && Legal(h) && Dead(w.d, id)
    ensures Dead(Next(w, h).d, id)
  {
    NextValid(w, h);
    match h
    case NextEvent(now) =>
      if w.queue != [] {
        HandleEventValid(w.d, w.queue[0].0, w.queue[0].1, now);
      }
    case Sighup(config, probeId) => ReloadValid(w, config, probeId);
    case _ =>
  }

  lemma {:induction false} DeadForever(w: World, hs: seq<Happening>, id: PortId)
    requires WorldValid(w) && (forall h | h in hs :: Legal(h)) && Dead(w.d, id)
    ensures Dead(Run(w, hs).d, id)
  {
    if hs != [] {
      var n := |hs| - 1;
      assert forall h | h in hs[..n] :: h in hs;
      DeadForever(w, hs[..n], id);
      RunValid(w, hs[..n]);
      assert hs[n] in hs;
      DeadStaysDead(Run(w, hs[..n]), hs[n], id);
    }
  }

  /** Whatever happens after a successful reload, any event for any id handed out before it, in
      particular every event that was still queued then, leaves switch, table, counters, handles and
      their queues exactly as they are. */
  lemma StaleEventsAreHarmless(w: World, specs: seq<PortSpec>, probeId: u64, hs: seq<Happening>,
                               id: PortId, event: PortEvent, now: nat)
    requires WorldValid(w) && Legal(Sighup(Some(specs), probeId)) && forall h | h in hs :: Legal(h)
    requires id in w.issued || exists e :: e in w.queue && e.0 == id
    ensures var later := Run(Next(w, Sighup(Some(specs), probeId)), hs);
            && id !in later.d.sw.ports && id !in later.d.handles
            && HandleEvent(later.d, id, event, now) == later.d
  {
    var reloaded := Next(w, Sighup(Some(specs), probeId));
    ReloadValid(w, Some(specs), probeId);
    NextValid(w, Sighup(Some(specs), probeId));
    assert id < w.d.nextId;
    assert Dead(reloaded.d, id);
    DeadForever(reloaded, hs, id);
    RunValid(reloaded, hs);
    DeadEventIsNoOp(Run(reloaded, hs).d, id, event, now);
  }

  /** The same holds for a port that died on its own: once its `Down` has been handled, nothing that
      is still queued for it, then or later, has any effect. */
  lemma EventsAfterDownAreHarmless(w: World, rest: seq<(PortId, PortEvent)>, now: nat, hs: seq<Happening>,
                                   id: PortId, event: PortEvent, later: nat)
    requires WorldValid(w) && w.queue == [(id, Down)] + rest && forall h | h in hs :: Legal(h)
    ensures var after := Run(Next(w, NextEvent(now)), hs);
            HandleEvent(after.d, id, event, later) == after.d
  {
    assert w.queue[0] == (id, Down);
    var handled := Next(w, NextEvent(now));
    NextValid(w, NextEvent(now));
    assert Dead(handled.d, id);
    DeadForever(handled, hs, id);
    RunValid(handled, hs);
    DeadEventIsNoOp(Run(handled, hs).d, id, event, later);
  }

  /** A reload that cannot load its config changes nothing, and one that can starts from nothing: all
      ports are under ids never used before, none is blocked, all counters and learned addresses are
      gone, and every queue is empty. */
  lemma ReloadStartsClean(w: World, config: Option<seq<PortSpec>>, probeId: u64)
    requires WorldValid(w) && Legal(Sighup(config, probeId))
    ensures config.None? ==> Next(w, Sighup(config, probeId)) == w
    ensures config.Some? ==>
              var d := Next(w, Sighup(config, probeId)).d;
              && d.sw.table == map[] && d.sw.portCounters == map[] && d.sw.vlanCounters == map[]
              && (forall p | p in d.handles :: d.handles[p] == [])
              && (forall p | p in d.sw.ports :: p !in w.issued && !d.sw.ports[p].blocked)
  {
    if config.Some? {
      SpawnAllClean(Daemon(Init(probeId), map[], w.d.nextId), config.value);
      ReloadValid(w, config, probeId);
    } else {
      assert w.issued + [] == w.issued;
    }
  }

  /** And exactly which ports there are after it. The spec at place `i` gets the id `i` above the
      allocator, as far as ids go: its port is registered in its mode unless its device failed to
      open, and runs, with nothing queued, exactly when it opened fully. No other port is
      registered or runs, and the switch has the new probe id. */
  lemma ReloadPlaces(w: World, specs: seq<PortSpec>, probeId: u64, id: PortId)
    requires WorldValid(w) && Legal(Sighup(Some(specs), probeId))
    ensures var d := Next(w, Sighup(Some(specs), probeId)).d;
            var i := id - w.d.nextId;
            var placed := 0 <= i < |specs| && id < 0xFFFF_FFFF;
            && (id in d.sw.ports <==> placed && !specs[i].opening.OpenFails?)
            && (id in d.sw.ports ==> d.sw.ports[id] == PortEntry(specs[i].mode, false))
            && (id in d.handles <==> placed && specs[i].opening.Opens?)
            && (id in d.handles ==> d.handles[id] == [])
            && d.sw.probeId == probeId
            && d.nextId == if w.d.nextId + |specs| <= 0xFFFF_FFFF then w.d.nextId + |specs| else 0xFFFF_FFFF
    ensures Next(w, Sighup(Some(specs), probeId)).queue == w.queue
  {
    var blank := Daemon(Init(probeId), map[], w.d.nextId);
    SpawnAllClean(blank, specs);
    SpawnAllExtent(blank, specs, id);
    if 0 <= id - w.d.nextId < |specs| && id < 0xFFFF_FFFF {
      SpawnAllPlaces(blank, specs, id - w.d.nextId);
    }
  }

  lemma {:induction false} SpawnAllExtent(d: Daemon, specs: seq<PortSpec>, id: PortId)
    ensures var e := SpawnAll(d, specs);
            && e.nextId == (if d.nextId + |specs| <= 0xFFFF_FFFF then d.nextId + |specs| else 0xFFFF_FFFF)
            && e.sw.probeId == d.sw.probeId
            && (id < d.nextId || id >= d.nextId + |specs| || id == 0xFFFF_FFFF ==>
                  && (id in e.sw.ports <==> id in d.sw.ports)
                  && (id in e.handles <==> id in d.handles))
    decreases |specs|
  {
    if specs != [] && d.nextId < 0xFFFF_FFFF {
      SpawnAllExtent(SpawnPort(d.(nextId := d.nextId + 1), d.nextId, specs[0]), specs[1..], id);
    }
  }

  lemma {:induction false} SpawnAllClean(d: Daemon, specs: seq<PortSpec>)
    requires d.sw.table == map[] && d.sw.portCounters == map[] && d.sw.vlanCounters == map[]
    requires forall p | p in d.handles :: d.handles[p] == []
    requires forall p | p in d.sw.ports :: !d.sw.ports[p].blocked
    ensures var e := SpawnAll(d, specs);
            && e.sw.table == map[] && e.sw.portCounters == map[] && e.sw.vlanCounters == map[]
            && (forall p | p in e.handles :: e.handles[p] == [])
            && (forall p | p in e.sw.ports :: !e.sw.ports[p].blocked)
    decreases |specs|
  {
    if specs != [] && d.nextId < LAST_ID {
      SpawnAllClean(SpawnPort(d.(nextId := d.nextId + 1), d.nextId, specs[0]), specs[1..]);
    }
  }

  /** Each spec gets the id at its place after the allocator, and is a registered port with its mode
      unless its device failed to open, and a running one exactly when it opened fully. */
  lemma {:induction false} SpawnAllPlaces(d: Daemon, specs: seq<PortSpec>, i: nat)
    requires i < |specs| && d.nextId + i < 0xFFFF_FFFF
    requires forall p | p in d.sw.ports :: p < d.nextId
    requires d.handles.Keys <= d.sw.ports.Keys
    ensures var e := SpawnAll(d, specs);
            var id: PortId := d.nextId + i;
            && (id in e.sw.ports <==> specs[i].opening != OpenFails)
            && (id in e.sw.ports ==> e.sw.ports[id] == PortEntry(specs[i].mode, false))
            && (id in e.handles <==> specs[i].opening == Opens)
    decreases i
  {
    var e := SpawnPort(d.(nextId := d.nextId + 1), d.nextId, specs[0]);
    if i > 0 {
      SpawnAllPlaces(e, specs[1..], i - 1);
    } else {
      SpawnAllKeepsOld(e, specs[1..], d.nextId);
    }
  }

  lemma {:induction false} SpawnAllKeepsOld(d: Daemon, specs: seq<PortSpec>, p: PortId)
    requires p < d.nextId
    ensures var e := SpawnAll(d, specs);
            && (p in e.sw.ports <==> p in d.sw.ports)
            && (p in e.sw.ports ==> e.sw.ports[p] == d.sw.ports[p])
            && (p in e.handles <==> p in d.handles)
    decreases |specs|
  {
    if specs != [] && d.nextId < LAST_ID {
      SpawnAllKeepsOld(SpawnPort(d.(nextId := d.nextId + 1), d.nextId, specs[0]), specs[1..], p);
    }
  }

  // ---------------------------------------------------------------- ageing

  /** With sweeps at most 30 s apart and a clock that does not run backwards, no learned address is
      ever 330 s old or more, across events and reloads alike. */
  lemma {:induction false} EntriesStayUnder330(w: World, hs: seq<Happening>, i: nat, now: nat)
    requires i < |hs| && hs[i].AgeSweep?
    requires hs[i].now <= now <= hs[i].now + 30
    requires forall j | i < j < |hs| && hs[j].NextEvent? :: hs[i].now <= hs[j].now
    ensures SwitchRuns.FresherThan(Run(w, hs).d.sw.table, 330, now)
  {
    var n := |hs| - 1;
    if i < n {
      EntriesStayUnder330(w, hs[..n], i, now);
      var before := Run(w, hs[..n]);
      match hs[n]
      case NextEvent(t) =>
        if before.queue != [] {
          HandleEventKeepsFresh(before.d, before.queue[0].0, before.queue[0].1, t, now);
        }
      case AgeSweep(t) => SwitchRuns.StepKeepsFresh(before.d.sw, OpAgeOut(MAC_MAX_AGE, t), 330, now);
      case Sighup(config, probeId) =>
        if config.Some? {
          SpawnAllClean(Daemon(Init(probeId), map[], before.d.nextId), config.value);
        }
      case _ =>
    }
  }

  lemma HandleEventKeepsFresh(d: Daemon, ingress: PortId, event: PortEvent, t: nat, now: nat)
    requires SwitchRuns.FresherThan(d.sw.table, 330, now) && Age(now, t) < 330
    ensures SwitchRuns.FresherThan(HandleEvent(d, ingress, event, t).sw.table, 330, now)
  {
    match event
    case Down => SwitchRuns.StepKeepsFresh(d.sw, OpRemovePort(ingress), 330, now);
    case Frame(bytes) =>
      if Parse(bytes).Ok? {
        var op := OpForward(ingress, Parse(bytes).value, t);
        SwitchRuns.StepKeepsFresh(d.sw, op, 330, now);
        assert HandleEvent(d, ingress, event, t).sw == Step(d.sw, op);
      }
  }
}
