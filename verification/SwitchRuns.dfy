/** What whole runs of one switch guarantee: every reachable state is valid, the
    MAC table is a replay of the history, a blocked port stays silent, and no
    address outlives the ageing schedule. */
module SwitchRuns {
  import opened Prelude
  import opened OrderedSets
  import opened Frame
  import opened LoopGuard
  import opened Ports
  import opened MacTables
  import opened SwitchModel
  import opened SwitchLaws

  /** The state in which `ops[i]` runs. */
  ghost function At(s: State, ops: seq<Op>, i: nat): State
    requires i <= |ops|
  {
    Run(s, ops[..i])
  }

  lemma AtPrefix(s: State, ops: seq<Op>, n: nat, i: nat)
    requires i <= n <= |ops|
    ensures At(s, ops[..n], i) == At(s, ops, i)
  {
    assert ops[..n][..i] == ops[..i];
  }

  lemma {:induction false} RunKeepsValid(s: State, ops: seq<Op>)
    requires Valid(s) && Legal(ops)
    ensures Valid(Run(s, ops))
  {
    if ops != [] {
      var n := |ops| - 1;
      assert forall op | op in ops[..n] :: op in ops;
      RunKeepsValid(s, ops[..n]);
      assert ops[n] in ops;
      StepKeepsValid(Run(s, ops[..n]), ops[n]);
    }
  }

  /** The invariant holds in every reachable state. */
  lemma ReachableIsValid(probeId: u64, ops: seq<Op>, i: nat)
    requires Legal(ops) && i <= |ops|
    ensures Valid(At(Init(probeId), ops, i))
  {
    assert forall op | op in ops[..i] :: op in ops;
    RunKeepsValid(Init(probeId), ops[..i]);
  }

  // ---------------------------------------------------------------- the table is a replay

  /** What `op` teaches the switch: an admitted frame's non-group source, at its VLAN and ingress. */
  ghost function Learned(s: State, op: Op): Option<(Key, Entry)> {
    match op
    case OpForward(ingress, frame, now) =>
      var admitted := Admitted(s, ingress, frame);
      if admitted.Some? && !IsGroupAddress(frame.src)
      then Some(((admitted.value, frame.src), Entry(ingress, now)))
      else None
    case _ => None
  }

  /** Whether `op` flushes a port: it is added, removed or blocked, or its own probe comes back on it. */
  ghost predicate Flushes(s: State, op: Op, port: PortId) {
    match op
    case OpAddPort(p, _) => p == port
    case OpRemovePort(p) => p == port
    case OpBlockPort(p) => p == port
    case OpForward(ingress, frame, _) =>
      ingress == port && ingress in s.ports && IsOwnProbe(frame, s.probeId)
    case _ => false
  }

  ghost predicate SweepsOut(op: Op, e: Entry) {
    op.OpAgeOut? && Age(op.now, e.lastSeen) >= op.maxAge
  }

  /** Whether `op` ends the life of entry `e` under `key`. */
  ghost predicate Forgets(s: State, op: Op, key: Key, e: Entry) {
    || (Learned(s, op).Some? && Learned(s, op).value.0 == key)
    || Flushes(s, op, e.port)
    || SweepsOut(op, e)
  }

  ghost predicate Holds(t: Table, key: Key, e: Entry) {
    key in t && t[key] == e
  }

  lemma ForwardTable(s: State, ingress: PortId, frame: EthernetFrame, now: nat)
    ensures var t := Forward(s, ingress, frame, now).0;
            var admitted := Admitted(s, ingress, frame);
            && t.table == (if admitted.Some? then Learn(s.table, admitted.value, frame.src, ingress, now)
                           else if ingress in s.ports && IsOwnProbe(frame, s.probeId)
                           then WithoutPort(s.table, ingress)
                           else s.table)
            && t.ports == (if ingress in s.ports && IsOwnProbe(frame, s.probeId)
                           then SetBlocked(s.ports, ingress, true)
                           else s.ports)
            && t.probeId == s.probeId
  {
    var admitted := Admitted(s, ingress, frame);
    if admitted.Some? {
      var t := Ingested(s, ingress, admitted.value, frame, now);
      var ds := Deliveries(t.ports, EgressPorts(t, ingress, admitted.value, frame.dst), admitted.value, frame);
      CountDeliveriesFrame(t, admitted.value, ds);
    }
  }

  lemma StepTable(s: State, op: Op, key: Key, e: Entry)
    ensures Holds(Step(s, op).table, key, e)
            <==> Learned(s, op) == Some((key, e)) || (Holds(s.table, key, e) && !Forgets(s, op, key, e))
  {
    if op.OpForward? {
      ForwardTable(s, op.ingress, op.frame, op.now);
    }
  }

  /** The entry was learned by `ops[i]` and nothing since then has replaced, flushed or aged it. */
  ghost predicate Survives(s: State, ops: seq<Op>, i: int, key: Key, e: Entry) {
    && 0 <= i < |ops|
    && Learned(At(s, ops, i), ops[i]) == Some((key, e))
    && forall j | i < j < |ops| :: !Forgets(At(s, ops, j), ops[j], key, e)
  }

  lemma SurvivesPrefix(s: State, ops: seq<Op>, n: nat, i: int, key: Key, e: Entry)
    requires n < |ops| && Survives(s, ops, i, key, e)
    ensures i < n ==> Survives(s, ops[..n], i, key, e)
  {
    if i < n {
      AtPrefix(s, ops, n, i);
      forall j | i < j < n
        ensures !Forgets(At(s, ops[..n], j), ops[..n][j], key, e)
      {
        AtPrefix(s, ops, n, j);
      }
    }
  }

  lemma SurvivesExtend(s: State, ops: seq<Op>, n: nat, i: int, key: Key, e: Entry)
    requires n + 1 == |ops| && Survives(s, ops[..n], i, key, e)
    requires !Forgets(At(s, ops, n), ops[n], key, e)
    ensures Survives(s, ops, i, key, e)
  {
    AtPrefix(s, ops, n, i);
    forall j | i < j < |ops|
      ensures !Forgets(At(s, ops, j), ops[j], key, e)
    {
      if j < n {
        AtPrefix(s, ops, n, j);
        assert !Forgets(At(s, ops[..n], j), ops[..n][j], key, e);
      }
    }
  }

  lemma {:induction false} EntryIsReplay(probeId: u64, ops: seq<Op>, key: Key, e: Entry)
    ensures Holds(Run(Init(probeId), ops).table, key, e)
            <==> exists i :: Survives(Init(probeId), ops, i, key, e)
  {
    var s := Init(probeId);
    if ops != [] {
      var n := |ops| - 1;
      EntryIsReplay(probeId, ops[..n], key, e);
      StepTable(Run(s, ops[..n]), ops[n], key, e);
      if Holds(Run(s, ops).table, key, e) {
        if Learned(At(s, ops, n), ops[n]) == Some((key, e)) {
          assert Survives(s, ops, n, key, e);
        } else {
          var i :| Survives(s, ops[..n], i, key, e);
          SurvivesExtend(s, ops, n, i, key, e);
        }
      }
      forall i | Survives(s, ops, i, key, e)
        ensures Holds(Run(s, ops).table, key, e)
      {
        SurvivesPrefix(s, ops, n, i, key, e);
      }
    }
  }

  /** A lookup answers `port` exactly when the last thing learned for that address in that VLAN was
      learned there and no later step flushed the port or swept the entry out. */
  lemma LookupIsReplay(probeId: u64, ops: seq<Op>, vlan: Vlan, mac: Mac, port: PortId)
    ensures LookupIn(Run(Init(probeId), ops).table, vlan, mac) == Some(port)
            <==> exists i :: && 0 <= i < |ops| && ops[i].OpForward?
                             && Survives(Init(probeId), ops, i, (vlan, mac), Entry(port, ops[i].now))
  {
    var s := Init(probeId);
    var t := Run(s, ops).table;
    if LookupIn(t, vlan, mac) == Some(port) {
      var e := t[(vlan, mac)];
      EntryIsReplay(probeId, ops, (vlan, mac), e);
      var i :| Survives(s, ops, i, (vlan, mac), e);
      assert e == Entry(port, ops[i].now);
    }
    forall i | 0 <= i < |ops| && ops[i].OpForward?
               && Survives(s, ops, i, (vlan, mac), Entry(port, ops[i].now))
      ensures LookupIn(t, vlan, mac) == Some(port)
    {
      EntryIsReplay(probeId, ops, (vlan, mac), Entry(port, ops[i].now));
    }
  }

  // ---------------------------------------------------------------- blocking holds

  /** Whether `op` is none of the three that can let traffic through a blocked port again or forget it. */
  predicate Keeps(op: Op, port: PortId) {
    match op
    case OpAddPort(p, _) => p != port
    case OpRemovePort(p) => p != port
    case OpUnblockPort(p) => p != port
    case _ => true
  }

  /** No frame leaves through `port` when `op` runs in `s`. */
  ghost predicate SilentOn(s: State, op: Op, port: PortId) {
    op.OpForward? ==>
      var r := Forward(s, op.ingress, op.frame, op.now).1;
      r.Ok? ==> forall d | d in r.value :: d.port != port
  }

  ghost predicate Isolated(s: State, port: PortId) {
    && IsBlocked(s, port)
    && forall k | k in s.table :: s.table[k].port != port
  }

  /** How many non-probe frames `ops` has arriving on `port`. */
  function Knocks(ops: seq<Op>, port: PortId): nat {
    if ops == [] then
      0
    else
      var op := ops[|ops| - 1];
      Knocks(ops[..|ops| - 1], port)
      + (if op.OpForward? && op.ingress == port && !IsAnyProbe(op.frame) then 1 else 0)
  }

  lemma FramesToAbsent(ds: seq<Delivery>, p: PortId)
    requires forall d | d in ds :: d.port != p
    ensures FramesTo(ds, p) == 0 && BytesTo(ds, p) == 0
  {
    if ds != [] {
      assert forall d | d in ds[..|ds| - 1] :: d in ds;
      FramesToAbsent(ds[..|ds| - 1], p);
    }
  }

  lemma BlockedStep(s: State, op: Op, port: PortId)
    requires Valid(s) && IsBlocked(s, port) && op.Legal() && Keeps(op, port)
    ensures IsBlocked(Step(s, op), port)
    ensures SilentOn(s, op, port)
    ensures var c := CountersOf(s.portCounters, port);
            CountersOf(Step(s, op).portCounters, port) == c.(drops := c.drops + Knocks([op], port))
  {
    assert [op][..0] == [];
    if op.OpForward? {
      BlockedForward(s, op.ingress, op.frame, op.now, port);
    }
  }

  lemma BlockedForward(s: State, ingress: PortId, frame: EthernetFrame, now: nat, port: PortId)
    requires Valid(s) && IsBlocked(s, port)
    ensures var (t, r) := Forward(s, ingress, frame, now);
            var c := CountersOf(s.portCounters, port);
            && IsBlocked(t, port)
            && (r.Ok? ==> forall d | d in r.value :: d.port != port)
            && CountersOf(t.portCounters, port)
               == c.(drops := c.drops + if ingress == port && !IsAnyProbe(frame) then 1 else 0)
  {
    ForwardTable(s, ingress, frame, now);
    var admitted := Admitted(s, ingress, frame);
    if admitted.Some? {
      DeliveredOnlyToCarriers(s, ingress, frame, now);
      AdmittedCounts(s, ingress, frame, now, admitted.value, port, admitted.value);
      FramesToAbsent(Forward(s, ingress, frame, now).1.value, port);
    } else {
      ForwardCountsExactly(s, ingress, frame, now, port, 1);
    }
  }

  /** Blocking a registered port isolates it at once, whoever blocks it. */
  lemma BlockingIsolates(s: State, port: PortId, frame: EthernetFrame, now: nat)
    requires port in s.ports
    ensures Isolated(BlockPort(s, port), port)
    ensures IsOwnProbe(frame, s.probeId) ==> Isolated(Forward(s, port, frame, now).0, port)
  {
  }

  /** From then on, until it is unblocked, re-added or removed: it stays blocked, no address points at
      it, and its counters stand still but for one drop per frame that arrives on it. */
  lemma {:induction false} BlockedStaysFrozen(s: State, ops: seq<Op>, port: PortId)
    requires Valid(s) && IsBlocked(s, port) && Legal(ops)
    requires forall op | op in ops :: Keeps(op, port)
    ensures Valid(Run(s, ops)) && Isolated(Run(s, ops), port)
    ensures var c := CountersOf(s.portCounters, port);
            CountersOf(Run(s, ops).portCounters, port) == c.(drops := c.drops + Knocks(ops, port))
  {
    RunKeepsValid(s, ops);
    if ops != [] {
      var n := |ops| - 1;
      assert forall op | op in ops[..n] :: op in ops;
      BlockedStaysFrozen(s, ops[..n], port);
      assert ops[n] in ops;
      BlockedStep(Run(s, ops[..n]), ops[n], port);
      assert [ops[n]][..0] == [];
    }
    ValidEntriesAvoidBlocked(Run(s, ops), port);
  }

  /** And no step of such a run delivers anything to it. */
  lemma BlockedStaysSilent(s: State, ops: seq<Op>, port: PortId, i: nat)
    requires Valid(s) && IsBlocked(s, port) && Legal(ops)
    requires forall op | op in ops :: Keeps(op, port)
    requires i < |ops|
    ensures SilentOn(At(s, ops, i), ops[i], port)
  {
    assert forall op | op in ops[..i] :: op in ops;
    BlockedStaysFrozen(s, ops[..i], port);
    assert ops[i] in ops;
    BlockedStep(At(s, ops, i), ops[i], port);
  }

  lemma ValidEntriesAvoidBlocked(s: State, port: PortId)
    requires Valid(s)
    ensures IsBlocked(s, port) ==> forall k | k in s.table :: s.table[k].port != port
  {
    forall k | k in s.table
      ensures IsBlocked(s, port) ==> s.table[k].port != port
    {
      assert EntryValid(s.ports, k, s.table[k]);
    }
  }

  /** Only blocking blocks: an arrival changes a port's block exactly when it is this switch's own probe
      coming back on that port. */
  lemma OnlyOwnProbesBlock(s: State, ingress: PortId, frame: EthernetFrame, now: nat, p: PortId)
    ensures IsBlocked(Forward(s, ingress, frame, now).0, p)
            <==> IsBlocked(s, p) || (p == ingress && p in s.ports && IsOwnProbe(frame, s.probeId))
  {
    ForwardTable(s, ingress, frame, now);
  }

  /** Over the wire, padded or not: any switch's probe is absorbed without an answer, and it shuts the
      port it arrives on exactly when the id in it is this switch's own. */
  lemma ProbeArrival(s: State, ingress: PortId, id: u64, padding: seq<u8>, now: nat)
    requires ingress in s.ports
    ensures var parsed := Parse(ProbeBytes(id) + padding);
            && parsed.Ok?
            && Forward(s, ingress, parsed.value, now)
               == (if id == s.probeId then BlockPort(s, ingress) else s, Ok([]))
  {
    ProbeRecognition(id, s.probeId, padding);
  }

  /** What is absorbed as a probe, tag or no tag, is everything with the EtherType and the four magic
      bytes. Only if the eight id bytes are there too, and are this switch's, does its port shut: a
      probe cut short changes nothing. Anything else on a registered port shows in its counters. */
  lemma AbsorbedExactly(s: State, ingress: PortId, frame: EthernetFrame, now: nat)
    requires ingress in s.ports
    ensures var probe := frame.ethertype == 0x88B7 && [0x56, 0x4C, 0x50, 0x42] <= frame.payload;
            var id := if |frame.payload| < 12 then None else Some(FromBigEndian(frame.payload[4..12]));
            var (t, outcome) := Forward(s, ingress, frame, now);
            if probe then
              t == (if id == Some(s.probeId) then BlockPort(s, ingress) else s) && outcome == Ok([])
            else
              CountersOf(t.portCounters, ingress) != CountersOf(s.portCounters, ingress)
  {
    if !IsAnyProbe(frame) {
      ForwardCountsExactly(s, ingress, frame, now, ingress, 1);
    }
  }

  // ---------------------------------------------------------------- ageing bound

  /** Every learned address was last seen less than `limit` before `now`. */
  ghost predicate FresherThan(t: Table, limit: nat, now: nat) {
    forall k | k in t :: Age(now, t[k].lastSeen) < limit
  }

  lemma StepKeepsFresh(s: State, op: Op, limit: nat, now: nat)
    requires FresherThan(s.table, limit, now)
    requires op.OpForward? ==> Age(now, op.now) < limit
    ensures FresherThan(Step(s, op).table, limit, now)
  {
    var t := Step(s, op).table;
    forall k | k in t
      ensures Age(now, t[k].lastSeen) < limit
    {
      StepTable(s, op, k, t[k]);
    }
  }

  /** If the last sweep was at most `gap` ago and nothing was learned with an older timestamp since,
      then no surviving entry is `maxAge + gap` old. */
  lemma {:induction false} SurvivorsAreFresh(s: State, ops: seq<Op>, i: nat, maxAge: nat, gap: nat, now: nat)
    requires i < |ops| && maxAge > 0
    requires ops[i].OpAgeOut? && ops[i].maxAge == maxAge && ops[i].now <= now <= ops[i].now + gap
    requires forall j | i < j < |ops| && ops[j].OpForward? :: ops[i].now <= ops[j].now
    ensures FresherThan(Run(s, ops).table, maxAge + gap, now)
  {
    var n := |ops| - 1;
    if i < n {
      SurvivorsAreFresh(s, ops[..n], i, maxAge, gap, now);
      StepKeepsFresh(Run(s, ops[..n]), ops[n], maxAge + gap, now);
    }
  }
}
