# vlan-rs, modelled and proved in Dafny

vlan-rs is an 802.1Q software switch: it parses and builds tagged Ethernet
frames, learns addresses per VLAN, forwards between access and trunk ports,
guards itself against self-loops with probe frames, and runs under a daemon
that can tear down and rebuild every port while events of the old ports are
still queued. This project models its frame codec, its switch core, its loop
guard, the daemon's single task, the command line's port specs and the
dashboard's JSON, and proves what they promise, for every frame, every
configuration and every run.

## How it is laid out

| file | contents |
|---|---|
| `Prelude.dfy`, `OrderedSets.dfy` | machine integers, result types, the growable buffer; sorting and the uniqueness of sorted listings |
| `Frame.dfy` | frames and tags, parser, writer, and the laws that make them inverse |
| `Ports.dfy`, `MacTable.dfy`, `LoopGuard.dfy` | port modes; learned addresses and ageing; probe frames |
| `SwitchModel.dfy` | the switch as a value, each operation as a function, and runs |
| `Switch.dfy` | the class with mutable maps; each method does what the function of its name says |
| `SwitchLaws.dfy` | one operation: the invariant, the hub refinement, who gets a frame and in what form, encoding loss, counters |
| `SwitchRuns.dfy`, `Conservation.dfy` | whole runs: the table as a replay, blocking, ageing; conserved traffic |
| `Network.dfy` | many switches joined by cables: VLAN isolation end to end, and that frames do get through |
| `Storm.dfy` | cables between ports of one switch: storms, and how the guard ends them |
| `DaemonModel.dfy`, `Daemon.dfy` | the daemon's task as a state machine, from events to outbound queues, and its state updated in place |
| `Decimal.dfy`, `PortSpecs.dfy` | numerals; the port-spec parser against a grammar |
| `Json.dfy`, `Dashboard.dfy` | a JSON printer and reader; the counters document, written and read back |

State that the source updates in place is a class whose methods are proved to
take its abstract value (`Model()`) where a function on values says; the laws
are proved about those functions, so they hold of the methods too. Sets and
maps are enumerated with an arbitrary choice at each step, which stands for
hash-map order.

Bit fields are written with division and remainder: on the non-negative
values concerned, `(x >> 13) & 7` is `(x / 0x2000) % 8`, `x & 0x0FFF` is
`x % 0x1000`, and an `|` of disjoint fields is their sum. Time is a natural
number, in the daemon of seconds, supplied by the caller as in the source.

## Where the code and its own comments differ

The model follows the code.

- The comment at `src/switch/forwarding.rs:379-386` calls the untagged 0x8100
  case effectively unreachable. It is reached exactly when a frame tagged on a
  trunk carries an inner EtherType 0x8100 and a target sends the VLAN untagged
  (`EncodingLossExact`, `LossNeedsTaggedTrunkArrival`).
- The comment at `src/switch/forwarding.rs:225-226` says a probe is recognised
  by its EtherType alone; `is_any_probe` also wants the four magic bytes, and
  needs nothing more, so a truncated probe is absorbed without blocking.
- `src/switch/forwarding.rs:379-381` says every caller takes the egress port
  from the port map. On the unicast path it comes from the MAC table, and is
  registered only because of an invariant nothing in the code checks
  (`UnicastTargetIsFloodTarget`, kept by `StepKeepsValid`).

## Model

| member | source | states |
|---|---|---|
| Frame.TciRoundTrip | src/frame/dot1q.rs:14-27 | decoding any 16-bit TCI gives fields that fit 3, 1 and 12 bits, and encoding them gives the TCI back |
| Frame.TagRoundTrip | src/frame/dot1q.rs:14-27 | encoding a tag and decoding it masks its fields, so it is the identity exactly on tags that fit the wire (IEEE Std 802.1Q clause 9.6) |
| Frame.WireLenIsEncodedLength | src/frame/ethernet.rs:23-30 | the announced length is the length of what is written |
| Frame.WriteInto | src/frame/ethernet.rs:77-97 | appends exactly the frame's image, or refuses exactly the untagged 0x8100 frame and leaves the buffer alone |
| Frame.ParseThenWrite | src/frame/ethernet.rs:38-97 | anything the parser accepts can be written and gives back the same bytes |
| Frame.WriteThenParse | src/frame/ethernet.rs:38-97 | every writable frame reads back with its tag masked, so as itself exactly when the tag is in range |
| Frame.ParseAcceptsExactlyEncodings | src/frame/ethernet.rs:38-75 | the accepted byte strings are exactly the images of writable in-range frames; all others are errors |
| Frame.WireFormat | src/frame/ethernet.rs:77-97 | every byte of a written frame by offset and value: address order, 81 00, the priority, drop and VLAN bits of the tag, the EtherType high byte first; and that only the untagged frame of type 0x8100 is refused |
| Frame.ParseFormat | src/frame/ethernet.rs:38-75 | what the parser makes of any bytes: under 14 is too short, 81 00 with under 18 a truncated tag, there is a tag exactly when 81 00 stands at offset 12, and where every field is read from |
| Ports.ConstructorsBuildValidModes | src/switch/port.rs:65-101 | the mode constructors succeed exactly on VLANs from 1 to 4094 with at least one of them, and an error names an offending argument or an empty trunk |
| MacTables.MacTable.Learn | src/switch/mac_table.rs:28-36 | sets the one entry, in place |
| MacTables.MacTable.RemovePort | src/switch/mac_table.rs:43-45 | purges exactly the entries of that port, in every VLAN |
| MacTables.MacTable.EvictOlderThan | src/switch/mac_table.rs:49-54 | leaves the entries younger than the maximum and returns how many are gone |
| MacTables.EvictExactly | src/switch/mac_table.rs:49-54 | which entries a sweep leaves, without the saturating difference: none at a maximum age of zero, all those stamped later than the sweep |
| MacTables.SweepsCompose | src/switch/mac_table.rs:49-54 | a series of sweeps at non-decreasing times leaves what the last one alone leaves, and the counts add up |
| LoopGuard.BuildProbe | src/switch/loop_guard.rs:84-106 | builds, through fixed arrays, exactly the probe's wire image |
| LoopGuard.ProbeWireFormat | src/switch/loop_guard.rs:84-106 | the sixty bytes of a probe by offset and value: broadcast, from 02 and the id, 88 B7, the magic, the id most significant byte first, zeros |
| LoopGuard.ProbeRecognition | src/switch/loop_guard.rs:84-134 | with any padding appended, a probe parses as a probe, as one's own exactly when the ids agree, from a unicast source, and is 60 bytes unpadded |
| LoopGuard.OwnProbeIsProbe | src/switch/loop_guard.rs:111-122 | every own probe is a probe, so the early check never misses one |
| SwitchLaws.ResolveExactly | src/switch/forwarding.rs:332-361 | a frame is put in a VLAN exactly when the port carries it and the tag, or the port's untagged VLAN, says so; each error has its one cause |
| SwitchLaws.StepKeepsValid | src/switch/forwarding.rs:81-308 | every operation keeps: modes valid, table entries on registered, unblocked carriers and never for group addresses, counters only for registered ports, no VLAN drops |
| SwitchLaws.UnicastTargetIsFloodTarget | src/switch/forwarding.rs:282-290 | a port named by the table is one a flood would reach, or the ingress |
| SwitchLaws.FloodTargetsUnique | src/switch/forwarding.rs:421-431 | the flood list is the only ascending list of the unblocked carriers other than the ingress, whatever the map's order |
| SwitchLaws.ForwardRefinesHub | src/switch/forwarding.rs:240-308 | deliveries are byte for byte those of a plain VLAN hub when the destination is unknown or a group, and otherwise exactly the hub's for the port where it was last learned, at most one |
| SwitchLaws.GroupBitDecides | src/switch/forwarding.rs:278-290 | by the lowest bit of the first byte alone: clear in the source, the address is learned at the ingress, now, and nothing else changes; set, nothing is learned; set in the destination, the frame is flooded, clear, it follows the table |
| SwitchLaws.ForwardGoesTo | src/switch/forwarding.rs:240-308 | from the state before alone: exactly which ports are sent the frame and as which bytes, each once, in ascending order |
| SwitchLaws.DeliveredExactly | src/switch/forwarding.rs:282-308 | if and only if: who gets an admitted frame and as which bytes |
| SwitchLaws.DeliveredOnlyToCarriers | src/switch/forwarding.rs:240-308 | nothing is delivered for a frame that was not admitted, and no port but an unblocked carrier other than the ingress is delivered to |
| SwitchLaws.OutcomeExactly | src/switch/forwarding.rs:246-265 | when each error arises, and when the call succeeds |
| SwitchLaws.AdministrationOfPort | src/switch/forwarding.rs:81-192 | what adding, removing, blocking and unblocking do to the port they name; unblocking undoes blocking |
| SwitchLaws.AdministrationSparesOthers | src/switch/forwarding.rs:81-192 | none of them touches another port's entry, counters or learned addresses |
| SwitchLaws.OneHop | src/switch/forwarding.rs:332-419 | what is sent for a VLAN reads back at the far end with the same content, priority kept from tag to tag, and is there rejected or put in the same VLAN; never rejected by a peer of the same mode; a non-probe stays one |
| SwitchLaws.LinkIsSafeIffEndsAgree | src/switch/forwarding.rs:332-419 | a link can move no frame between VLANs if and only if its ends do not disagree on their untagged VLAN |
| SwitchLaws.EncodingLossExact | src/switch/forwarding.rs:363-419 | a chosen target gets nothing exactly when the inner EtherType is 0x8100 and it sends the VLAN untagged; every other delivery's length differs from the arrival's by the tags alone |
| SwitchLaws.LossNeedsTaggedTrunkArrival | src/switch/forwarding.rs:379-386 | off the wire, that loss needs a tagged arrival on a trunk |
| SwitchLaws.ForwardCountsExactly | src/switch/forwarding.rs:253-305 | the exact change of every port's and every VLAN's counters on every arrival; a drop exactly for non-probes refused on registered ports |
| Switches.Switch.AddPort | src/switch/forwarding.rs:81-90 | the method does what the function on values does, and keeps the invariant |
| Switches.Switch.RemovePort | src/switch/forwarding.rs:95-99 | likewise: port, its addresses and its counters go, VLAN counters stay |
| Switches.Switch.AgeOut | src/switch/forwarding.rs:105-107 | likewise, and returns how many entries went |
| Switches.Switch.BlockPort | src/switch/forwarding.rs:180-185 | likewise: blocks if registered, purges its addresses |
| Switches.Switch.UnblockPort | src/switch/forwarding.rs:188-192 | likewise: clears the block |
| Switches.Switch.Forward | src/switch/forwarding.rs:240-308 | the whole method, maps and loops, yields the state and outcome of the function the laws are about |
| Switches.Switch.HandleLoopProbe | src/switch/forwarding.rs:310-322 | absorbs any probe and blocks exactly on an own one |
| Switches.Switch.EncodeFor | src/switch/forwarding.rs:387-419 | encodes for one port, or yields nothing when it is gone, blocked or the frame unwritable |
| Switches.Switch.CollectFloodTargets | src/switch/forwarding.rs:421-431 | filtering in any order and sorting yields the one flood list |
| SwitchRuns.ReachableIsValid | src/switch/forwarding.rs:66-308 | the invariant holds in every state any run passes through |
| SwitchRuns.LookupIsReplay | src/switch/mac_table.rs:28-54 | a lookup answers a port exactly when the last admitted frame from that address in that VLAN came in there and nothing since has added, removed or blocked the port, brought its own probe back, or swept the entry out |
| SwitchRuns.OnlyOwnProbesBlock | src/switch/forwarding.rs:310-322 | an arrival blocks exactly the port on which this switch's own probe came back |
| SwitchRuns.ProbeArrival | src/switch/loop_guard.rs:84-134 | from the wire, padded or not: any probe is absorbed, and blocks its ingress exactly when the id is the switch's |
| SwitchRuns.AbsorbedExactly | src/switch/loop_guard.rs:111-134 | on a registered port exactly the frames with the EtherType and the magic are absorbed, tagged or cut short as they may be; the port shuts only for the full id of this switch, and every other frame shows in its counters |
| SwitchRuns.BlockingIsolates | src/switch/forwarding.rs:180-185 | blocking takes effect at once: blocked and no address left on the port, whether asked for or by a probe |
| SwitchRuns.BlockedStaysFrozen | src/switch/forwarding.rs:160-192 | through any run without unblocking, re-adding or removing it: still blocked, no address on it, counters unchanged but for one drop per frame arriving on it |
| SwitchRuns.BlockedStaysSilent | src/switch/forwarding.rs:160-192 | and no step of such a run delivers anything to it |
| SwitchRuns.SurvivorsAreFresh | src/switch/forwarding.rs:101-107 | no entry is ever as old as the maximum age plus the time since the last sweep |
| Conservation.TrafficIsConserved | src/switch/forwarding.rs:267-305 | over any run, for frames and bytes in and out: sum over ports plus what removed ports took equals sum over VLANs |
| Conservation.CountersStayWithPorts | src/switch/forwarding.rs:81-308 | along any run only registered ports have counters and VLANs count no drops |
| Conservation.EveryArrivalCountedOnce | src/switch/forwarding.rs:253-270 | each non-probe arrival on a registered port is one frame in or one drop there |
| Network.VlanIsolation | src/switch/forwarding.rs:219-431 | in every run of any network whose link ends agree, each copy of a frame is at each switch turned away or put in the VLAN it was first put in, keeps its content, and leaves only through carriers of that VLAN |
| Network.ArrivalReachesFarEnds | src/switch/forwarding.rs:240-308 | and the network does carry: an admitted copy is on the wire to the far end of every cabled port it goes to |
| Network.EachSwitchRuns | src/switch/forwarding.rs:66-308 | each switch of a network makes a run of its own, so every law about runs of one switch holds there |
| Storm.StormEnds | src/switch/forwarding.rs:253-265 | once every cable has a dead end, and with no port added or unblocked, any run has at most a number of arrivals fixed by what is in flight and fed in |
| Storm.ArrivalLowersMeasure | src/switch/forwarding.rs:240-308 | each arrival strictly lowers the storm's measure |
| Storm.ProbeRoundContains | src/daemon.rs:357-371 | one delivered round of probes, amid any traffic, leaves both ends of every cable blocked or gone |
| Storm.GuardEndsStorm | src/switch/forwarding.rs:246-257 | so after that round every further run is bounded, whatever was circulating |
| Storm.ProbesNeverMultiply | src/switch/forwarding.rs:246-248 | an arrival takes a probe off the wire if it was one and never puts one on |
| Storm.EchoExactly | src/switch/forwarding.rs:282-308 | what is sent into a cable comes out at its other end, and nothing else does |
| Storm.RoundIsTheDaemons | src/daemon.rs:357-371 | a round of probes is exactly what the daemon's tick puts last in the queues that had room |
| Storm.LiveCableCirculates | src/switch/forwarding.rs:282-295 | without a dead end a broadcast goes round for ever: there are runs of every length |
| DaemonModel.StartedIsValid | src/daemon.rs:297-306 | startup establishes the daemon's invariant |
| DaemonModel.StartedRunsAll | src/daemon.rs:297-306 | after startup exactly the given ports are registered, in their modes and unblocked, and all of them run |
| DaemonModel.RunValid | src/daemon.rs:333-514 | over any run: ids handed out strictly ascend, handles are a subset of registered ports, both and all queued events below the allocator, queues within bounds |
| DaemonModel.StaleEventsAreHarmless | src/daemon.rs:384-451 | any event for an id from before a reload, however much later it is handled, changes nothing |
| DaemonModel.EventsAfterDownAreHarmless | src/daemon.rs:415-424 | nor does any event for a port whose death has been handled |
| DaemonModel.FrameEventQueues | src/daemon.rs:409-451 | a frame event adds to a running port's queue exactly the frame in its wire form if the bytes parse, the frame goes there and the queue holds under 256, and otherwise nothing |
| DaemonModel.NextFrameQueues | src/daemon.rs:335-344 | so does the loop with the frame event at the head of its queue |
| DaemonModel.DownSparesOthers | src/daemon.rs:415-424 | a port's death takes all that is its own, and no other port's registration, counters, addresses or queue |
| DaemonModel.EventsInOrder | src/daemon.rs:333-344 | over any run, reloads included, no event is lost, invented, repeated or overtaken |
| DaemonModel.DaemonRunsItsSwitch | src/daemon.rs:333-357 | between reloads the daemon's switch makes a run of the switch, of the forwards, removals and 300 s sweeps asked of it |
| DaemonModel.ProbeTickQueues | src/daemon.rs:357-371 | a tick appends the switch's own probe, once, to every running port's queue under 256 and changes nothing else |
| DaemonModel.QueuedProbeBlocks | src/daemon.rs:357-371 | that frame, padded or not, blocks whatever port of the same switch it comes back on, and does nothing else |
| DaemonModel.WriterTakesOldest | src/daemon.rs:175-186 | a writer takes the oldest frame of its own queue only |
| DaemonModel.SweepForgetsAt300 | src/daemon.rs:351-356 | a sweep forgets exactly the addresses last seen 300 s ago or earlier |
| DaemonModel.ReloadStartsClean | src/daemon.rs:453-514 | a failed load changes nothing; a successful one leaves only unblocked ports under fresh ids, no addresses, no counters, empty queues |
| DaemonModel.ReloadPlaces | src/daemon.rs:489-513 | exactly which ports are registered and which run after a reload, in which mode, under which id, for every way a device can fail and wherever ids run out; queued events stay queued |
| DaemonModel.SpawnAllPlaces | src/daemon.rs:495-512 | which id each spec gets, and whether it ends up registered and running, for every way its device can fail |
| DaemonModel.DeliveryIsTailDrop | src/daemon.rs:239-246 | a running port's queue gets its frames in order, cut off at 256 |
| DaemonModel.EntriesStayUnder330 | src/daemon.rs:25-31 | with sweeps at most 30 s apart no learned address is ever 330 s old, across events and reloads |
| Daemons.PortIdAllocator.Next | src/daemon.rs:398-406 | hands out the next id or, at the end of the range, an error without moving |
| Daemons.Daemon.Spawn | src/daemon.rs:163-173 | registers the port once its device is open and runs it only if nothing failed after that; a device that fails on its name leaves it registered |
| Daemons.Daemon.Start | src/daemon.rs:302-306 | succeeds exactly when every device opens and ids suffice, with every spec registered and running |
| Daemons.Daemon.HandleFrameEvent | src/daemon.rs:409-451 | the method does what the state machine's event step does |
| Daemons.Daemon.Reload | src/daemon.rs:453-514 | likewise for reload: teardown, new switch, skipping devices that fail, stopping when ids run out |
| Daemons.Daemon.SendProbes | src/daemon.rs:357-371 | queues the probe at every running port, in any map order |
| Daemons.Daemon.SweepAddresses | src/daemon.rs:351-356 | sweeps at the daemon's maximum age |
| PortSpecs.ParseSpecIff | src/daemon.rs:46-97 | the parser accepts exactly the texts of the grammar and returns the name and mode they denote |
| PortSpecs.ParseU16Exactly | src/daemon.rs:62-92 | a VLAN id is a decimal numeral, leading zeros and one plus sign allowed, and nothing else |
| Decimal.NumeralDigits | src/dashboard.rs:196-276 | a numeral's characters are its number's base-ten digits, by position |
| PortSpecs.CanonicalRoundTrip | src/daemon.rs:42-97 | printing any valid mode and parsing it returns it, in whatever order and with whatever repetition its VLANs are listed |
| PortSpecs.RejectDuplicateNames | src/daemon.rs:117-128 | fails exactly on a repeated name, and names the first that repeats |
| PortSpecs.ParsePortSpecsIff | src/daemon.rs:109-115 | a command line is accepted exactly when every argument is a spec and names are distinct, in argument order |
| PortSpecs.NoColonRefused | src/daemon.rs:46-54 | the missing colon is reported exactly when there is none |
| PortSpecs.AccessRefusals | src/daemon.rs:46-97 | which access specs are refused, and as what |
| PortSpecs.TrunkRefusals | src/daemon.rs:56-92 | which trunk specs are refused, as what, and in which order the parts are looked at |
| PortSpecs.FirstErrorWins | src/daemon.rs:109-115 | the first argument that is not a spec decides the error of the command line |
| PortSpecs.FirstRepeatIsFirst | src/daemon.rs:117-128 | the duplicate reported is the first name to come up a second time |
| Json.ReadsBack | src/dashboard.rs:177-190 | the JSON text of any document reads back as that document |
| Json.QuotedForm | src/dashboard.rs:230-276 | strings and keys stand between double quotes, and a colon follows a key |
| Dashboard.DocumentReadsBack | src/dashboard.rs:196-276 | from the text of the counters document exactly its records are recovered, for any number of ports, VLANs and any counter values |
| Dashboard.ListingsUnique | src/dashboard.rs:197-210 | a switch has one listing of its ports and one of its VLANs, so map order cannot show |
| Dashboard.ListingsAreTheSwitch | src/dashboard.rs:197-241 | that listing has a record for each registered port and each counted VLAN and no other, strictly ascending, each field as the switch has it |
| Dashboard.RenderCountersJson | src/dashboard.rs:196-228 | the rendered text reads back as one record per registered port and per counted VLAN, ascending, each field as in the switch |
| Dashboard.WritePort | src/dashboard.rs:230-241 | appends exactly the port's record |
| Dashboard.WriteMode | src/dashboard.rs:243-268 | appends exactly the mode, VLANs sorted |
| Dashboard.WriteVlan | src/dashboard.rs:270-276 | appends exactly the VLAN's record |

## Left out

- Switches.Switch.Forward: counters are unbounded here, while the source's are 64 bits wide and would wrap or abort after 2^64.
- Ports.ConstructorsBuildValidModes: which of several unassignable VLANs a trunk error names is left open, as the source's hash set leaves it.
- Network.VlanIsolation: frames on a cable are not corrupted or truncated; loss, delay and reordering are covered, since nothing makes a copy arrive.
- Storm.ProbeRoundContains: assumes that the round's probes are delivered; a full outbound queue can drop one, as the source notes, and the next round tries again.
- DaemonModel.RunValid: a reload is one step; the source awaits the old tasks in between, when readers can still queue events, which the model lets them do at any time.
- DaemonModel.DownSparesOthers: the writer of a port that died goes on to write what was already queued for it; here that queue goes with its handle.
- PortSpecs.ParseSpecIff: error texts are not modelled, only which kind of error arises.
- TAP devices, sockets, the HTTP server, signals, timers and task scheduling: only their effects appear, as steps that may happen in any order.
- TOML parsing: a loaded configuration is a list of specs with valid modes, or nothing.
- The random choice of the probe id: it is a parameter.
- The counter dump on SIGUSR1 and log output: display only.
- Loops across two switches, double tagging and automatic unblocking: the source does not implement them.
