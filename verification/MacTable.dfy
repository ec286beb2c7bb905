/** Learned addresses, scoped per VLAN, and how they age. */
module MacTables {
  import opened Prelude
  import opened Frame
  import opened Ports

  datatype Entry = Entry(port: PortId, lastSeen: nat)

  type Key = (Vlan, Mac)
  type Table = map<Key, Entry>

  /** Time since `then`, or zero when `then` is not in the past. */
  function Age(now: nat, lastSeen: nat): nat {
    if now >= lastSeen then now - lastSeen else 0
  }

  function WithoutPort(t: Table, port: PortId): Table {
    map k | k in t && t[k].port != port :: t[k]
  }

  function Evict(t: Table, maxAge: nat, now: nat): Table {
    map k | k in t && Age(now, t[k].lastSeen) < maxAge :: t[k]
  }

  function LookupIn(t: Table, vlan: Vlan, mac: Mac): Option<PortId> {
    if (vlan, mac) in t then Some(t[(vlan, mac)].port) else None
  }

  class MacTable {
    var entries: Table

    constructor ()
      ensures entries == map[]
    {
      entries := map[];
    }

    method Learn(vlan: Vlan, mac: Mac, port: PortId, now: nat)
      modifies this
      ensures entries == old(entries)[(vlan, mac) := Entry(port, now)]
    {
      entries := entries[(vlan, mac) := Entry(port, now)];
    }

    function Lookup(vlan: Vlan, mac: Mac): Option<PortId>
      reads this
    {
      LookupIn(entries, vlan, mac)
    }

    method RemovePort(port: PortId)
      modifies this
      ensures entries == WithoutPort(old(entries), port)
    {
      entries := map k | k in entries && entries[k].port != port :: entries[k];
    }

    /** Drops every entry at least `maxAge` old and returns how many that were. */
    method EvictOlderThan(maxAge: nat, now: nat) returns (evicted: nat)
      modifies this
      ensures entries == Evict(old(entries), maxAge, now)
      ensures evicted == |old(entries)| - |entries|
    {
      var before := |entries|;
      entries := map k | k in entries && Age(now, entries[k].lastSeen) < maxAge :: entries[k];
      EvictShrinks(old(entries), maxAge, now);
      evicted := before - |entries|;
    }
  }

  lemma SubmapSize(a: Table, b: Table)
    requires a.Keys <= b.Keys
    ensures |a| <= |b|
  {
    SubsetSize(a.Keys, b.Keys);
    assert |a| == |a.Keys| && |b| == |b.Keys|;
  }

  lemma SubsetSize<T>(a: set<T>, b: set<T>)
    requires a <= b
    ensures |a| <= |b|
  {
    assert b == a + (b - a);
  }

  lemma EvictShrinks(t: Table, maxAge: nat, now: nat)
    ensures |Evict(t, maxAge, now)| <= |t|
  {
    SubmapSize(Evict(t, maxAge, now), t);
  }

  // ---------------------------------------------------------------- ageing

  /** A sweep leaves exactly the entries seen within the last `maxAge`, untouched; with a maximum of
      zero it leaves none, and an entry stamped later than the sweep counts as new. */
  lemma EvictExactly(t: Table, maxAge: nat, now: nat, key: Key)
    ensures key in Evict(t, maxAge, now) <==> key in t && maxAge > 0 && now < t[key].lastSeen + maxAge
    ensures key in Evict(t, maxAge, now) ==> Evict(t, maxAge, now)[key] == t[key]
  {
  }

  /** The table after sweeping at each of `times` in turn. */
  function Sweeps(t: Table, maxAge: nat, times: seq<nat>): Table {
    if times == [] then t else Evict(Sweeps(t, maxAge, times[..|times| - 1]), maxAge, times[|times| - 1])
  }

  /** The sum of the counts those sweeps return. */
  function SweptCount(t: Table, maxAge: nat, times: seq<nat>): int {
    if times == [] then
      0
    else
      var before := Sweeps(t, maxAge, times[..|times| - 1]);
      SweptCount(t, maxAge, times[..|times| - 1])
      + |before| - |Evict(before, maxAge, times[|times| - 1])|
  }

  ghost predicate NonDecreasing(times: seq<nat>) {
    forall i, j | 0 <= i < j < |times| :: times[i] <= times[j]
  }

  /** A series of sweeps leaves what its last sweep alone would have left, and the counts add up to
      the number of entries that are gone. */
  lemma {:induction false} SweepsCompose(t: Table, maxAge: nat, times: seq<nat>)
    requires NonDecreasing(times)
    ensures times != [] ==> Sweeps(t, maxAge, times) == Evict(t, maxAge, times[|times| - 1])
    ensures SweptCount(t, maxAge, times) == |t| - |Sweeps(t, maxAge, times)|
  {
    if times != [] {
      var last := |times| - 1;
      SweepsCompose(t, maxAge, times[..last]);
      if last > 0 {
        assert times[..last][last - 1] == times[last - 1];
        assert times[last - 1] <= times[last];
      }
    }
  }
}
