/** The daemon's state updated in place: the id allocator, the handling of one
    event, reload, and the two timers. Each method is proved to do what the
    function of the same purpose in `DaemonModel` says. */
module Daemons {
  import opened Prelude
  import opened OrderedSets
  import opened Frame
  import opened Ports
  import opened SwitchModel
  import opened Switches
  import opened DaemonModel
  import LoopGuard
  import D = DaemonModel

  datatype TooManyPorts = TooManyPorts

  /** Hands out ids that are never reused. */
  class PortIdAllocator {
    var next: u32

    constructor ()
      ensures next == 0
    {
      next := 0;
    }

    method Next() returns (r: Result<PortId, TooManyPorts>)
      modifies this
      ensures old(next) == 0xFFFF_FFFF ==> r.Err? && next == old(next)
      ensures old(next) != 0xFFFF_FFFF ==> r == Ok(old(next)) && next == old(next) + 1
    {
      var id := next;
      if next == LAST_ID {
        return Err(TooManyPorts);
      }
      next := next + 1;
      return Ok(id);
    }
  }

  class Daemon {
    var switch: Switch
    var handles: Handles
    const portIds: PortIdAllocator

    ghost function Model(): D.Daemon
      reads this, switch, switch.macTable, portIds
    {
      D.Daemon(switch.Model(), handles, portIds.next)
    }

    ghost predicate Valid()
      reads this, switch, switch.macTable, portIds
    {
      DaemonValid(Model())
    }

    constructor (probeId: u64)
      ensures Model() == D.Daemon(Init(probeId), map[], 0) && Valid()
      ensures fresh(switch) && fresh(switch.macTable) && fresh(portIds)
    {
      switch := new Switch.WithProbeId(probeId);
      handles := map[];
      portIds := new PortIdAllocator();
    }

    /** Registers a port as far as opening its device gets, and keeps its handle if it is now to run. */
    method Spawn(port: PortId, spec: PortSpec) returns (up: bool)
      requires switch.Valid() && spec.mode.Valid()
      modifies this`handles, switch, switch.macTable
      ensures switch == old(switch) && switch.Valid()
      ensures Model() == SpawnPort(old(Model()), port, spec)
      ensures up <==> spec.opening.Opens?
    {
      if spec.opening.OpenFails? {
        return false;
      }
      switch.AddPort(port, spec.mode);
      up := spec.opening.Opens?;
      if up {
        handles := handles[port := []];
      }
    }

    /** Startup: opens every port in turn and gives up at the first that cannot be. */
    method Start(specs: seq<PortSpec>) returns (ok: bool)
      requires Valid() && portIds.next == 0
      requires forall spec | spec in specs :: spec.mode.Valid()
      modifies this`handles, switch, switch.macTable, portIds
      ensures switch == old(switch) && switch.Valid()
      ensures ok <==> |specs| <= 0xFFFF_FFFF && forall spec | spec in specs :: spec.opening.Opens?
      ensures ok ==> Model() == SpawnAll(old(Model()), specs) && Valid()
    {
      ghost var d := Model();
      for i := 0 to |specs|
        invariant switch.Valid() && portIds.next == i <= LAST_ID
        invariant forall k | 0 <= k < i :: specs[k].opening.Opens?
        invariant SpawnAll(Model(), specs[i..]) == SpawnAll(d, specs)
      {
        assert specs[i] in specs;
        SpawnNext(Model(), specs, i);
        var port := portIds.Next();
        if port.Err? {
          return false;
        }
        var up := Spawn(port.value, specs[i]);
        if !up {
          return false;
        }
      }
      SpawnAllValid(d, specs);
      return true;
    }

    /** Handles one event off the queue. */
    method HandleFrameEvent(ingress: PortId, event: PortEvent, now: nat)
      requires Valid()
      modifies this`handles, switch, switch.macTable
      ensures Model() == HandleEvent(old(Model()), ingress, event, now) && Valid()
      ensures switch == old(switch)
    {
      HandleEventValid(Model(), ingress, event, now);
      match event
      case Down =>
        switch.RemovePort(ingress);
        handles := handles - {ingress};
      case Frame(bytes) =>
        var parsed := Parse(bytes);
        if parsed.Ok? {
          var decision := switch.Forward(ingress, parsed.value, now);
          if decision.Ok? {
            SendAll(decision.value);
          }
        }
    }

    /** Hands each delivery to its port's outbound queue, if that port is running. */
    method SendAll(deliveries: seq<Delivery>)
      modifies this`handles
      ensures handles == DeliverAll(old(handles), deliveries)
    {
      ghost var before := handles;
      for i := 0 to |deliveries|
        invariant handles == DeliverAll(before, deliveries[..i])
      {
        assert deliveries[..i + 1][..i] == deliveries[..i];
        if deliveries[i].port in handles {
          var queue := TrySend(handles[deliveries[i].port], deliveries[i].bytes);
          handles := handles[deliveries[i].port := queue];
        }
      }
      assert deliveries[..|deliveries|] == deliveries;
    }

    /** Tears every port down and rebuilds from the config, if it could be loaded. A port that cannot
        be up is skipped; running out of ids ends the rebuild. */
    method Reload(config: Option<seq<PortSpec>>, probeId: u64)
      requires Valid()
      requires config.Some? ==> forall spec | spec in config.value :: spec.mode.Valid()
      modifies this, portIds
      ensures Model() == D.Reload(old(Model()), config, probeId) && Valid()
      ensures switch == old(switch) || (fresh(switch) && fresh(switch.macTable))
    {
      if config.None? {
        return;
      }
      var specs := config.value;
      handles := map[];
      switch := new Switch.WithProbeId(probeId);
      ghost var d := Model();
      SpawnAllValid(d, specs);

      var i := 0;
      while i < |specs|
        invariant 0 <= i <= |specs|
        invariant fresh(switch) && fresh(switch.macTable) && switch.Valid()
        invariant SpawnAll(Model(), specs[i..]) == SpawnAll(d, specs)
      {
        assert specs[i] in specs;
        SpawnNext(Model(), specs, i);
        var port := portIds.Next();
        if port.Err? {
          break;
        }
        var _ := Spawn(port.value, specs[i]);
        i := i + 1;
      }
    }

    method SweepAddresses(now: nat) returns (evicted: nat)
      requires Valid()
      modifies switch.macTable
      ensures Model() == old(Model()).(sw := AgeOut(old(Model()).sw, MAC_MAX_AGE, now)) && Valid()
      ensures evicted == |old(Model()).sw.table| - |Model().sw.table|
    {
      evicted := switch.AgeOut(MAC_MAX_AGE, now);
    }

    /** Sends the probe raw to every running port's queue, in whatever order the map yields them. */
    method SendProbes()
      requires Valid()
      modifies this`handles
      ensures Model() == SendProbe(old(Model())) && Valid()
    {
      ghost var before := handles;
      var probe := switch.BuildLoopProbe();
      var todo := handles.Keys;
      while todo != {}
        invariant todo <= before.Keys == handles.Keys
        invariant forall p | p in before ::
                    handles[p] == if p in todo then before[p] else TrySend(before[p], probe)
        decreases todo
      {
        Inhabited(todo);
        var p :| p in todo;
        handles := handles[p := TrySend(handles[p], probe)];
        todo := todo - {p};
      }
    }
  }
}
