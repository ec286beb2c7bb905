/** The dashboard's JSON: one record per registered port and one per VLAN that
    has counted anything, written piece by piece onto one string, and read back
    without loss. */
module Dashboard {
  import opened Prelude
  import opened OrderedSets
  import opened Ports
  import opened Decimal
  import opened SwitchModel
  import opened Switches
  import Json

  datatype PortRecord = PortRecord(port: PortId, blocked: bool, mode: PortMode, counters: Counters)

  /** VLAN records carry no drops. */
  datatype VlanRecord = VlanRecord(vlan: Vlan, framesIn: nat, bytesIn: nat, framesOut: nat, bytesOut: nat)

  function PortKey(r: PortRecord): int {
    r.port
  }

  function VlanKey(r: VlanRecord): int {
    r.vlan
  }

  function VlanId(v: Vlan): int {
    v
  }

  function PortRecordOf(s: State, p: PortId): PortRecord
    requires p in s.ports
  {
    PortRecord(p, s.ports[p].blocked, s.ports[p].mode, CountersOf(s.portCounters, p))
  }

  function VlanRecordOf(s: State, v: Vlan): VlanRecord
    requires v in s.vlanCounters
  {
    var c := s.vlanCounters[v];
    VlanRecord(v, c.framesIn, c.bytesIn, c.framesOut, c.bytesOut)
  }

  /** `rs` lists every registered port once, in ascending order, as it is in `s`. */
  ghost predicate ListsPorts(s: State, rs: seq<PortRecord>) {
    && AscendingBy(rs, PortKey)
    && forall r :: r in rs <==> r.port in s.ports && r == PortRecordOf(s, r.port)
  }

  ghost predicate ListsVlans(s: State, rs: seq<VlanRecord>) {
    && AscendingBy(rs, VlanKey)
    && forall r :: r in rs <==> r.vlan in s.vlanCounters && r == VlanRecordOf(s, r.vlan)
  }

  // ---------------------------------------------------------------- the document

  function CounterField(key: string, n: nat): Json.Field {
    Json.Field(key, Json.Text(Numeral(n)))
  }

  function NumberItems(vs: seq<Vlan>): seq<Json.Value> {
    seq(|vs|, i requires 0 <= i < |vs| => Json.Number(vs[i]))
  }

  ghost function AscendingVlans(vs: set<Vlan>): (s: seq<Vlan>)
    ensures Ascending(s) && Elements(s) == vs
  {
    var s := Sorted(vs);
    assert forall i | 0 <= i < |s| :: s[i] in Elements(s);
    s
  }

  ghost function ModeJson(mode: PortMode): Json.Value {
    match mode
    case Access(vlan) =>
      Json.Record([Json.Field("kind", Json.Text("access")), Json.Field("vlan", Json.Number(vlan))])
    case Trunk(native, allowed) =>
      Json.Record([Json.Field("kind", Json.Text("trunk")),
                   Json.Field("native", if native.Some? then Json.Number(native.value) else Json.Null),
                   Json.Field("allowed", Json.List(NumberItems(AscendingVlans(allowed))))])
  }

  ghost function PortJson(r: PortRecord): Json.Value {
    Json.Record([Json.Field("port", Json.Number(r.port)),
                 Json.Field("blocked", Json.Flag(r.blocked)),
                 Json.Field("mode", ModeJson(r.mode)),
                 CounterField("frames_in", r.counters.framesIn),
                 CounterField("bytes_in", r.counters.bytesIn),
                 CounterField("frames_out", r.counters.framesOut),
                 CounterField("bytes_out", r.counters.bytesOut),
                 CounterField("drops", r.counters.drops)])
  }

  function VlanJson(r: VlanRecord): Json.Value {
    Json.Record([Json.Field("vlan", Json.Number(r.vlan)),
                 CounterField("frames_in", r.framesIn),
                 CounterField("bytes_in", r.bytesIn),
                 CounterField("frames_out", r.framesOut),
                 CounterField("bytes_out", r.bytesOut)])
  }

  ghost function PortItems(rs: seq<PortRecord>): seq<Json.Value> {
    seq(|rs|, i requires 0 <= i < |rs| => PortJson(rs[i]))
  }

  ghost function VlanItems(rs: seq<VlanRecord>): seq<Json.Value> {
    seq(|rs|, i requires 0 <= i < |rs| => VlanJson(rs[i]))
  }

  ghost function Document(ports: seq<PortRecord>, vlans: seq<VlanRecord>): Json.Value {
    Json.Record([Json.Field("ports", Json.List(PortItems(ports))),
                 Json.Field("vlans", Json.List(VlanItems(vlans)))])
  }

  // ---------------------------------------------------------------- reading it back

  function DecodePortId(v: Json.Value): Option<PortId> {
    if v.Number? && v.n < 0x1_0000_0000 then Some(v.n) else None
  }

  function DecodeCounter(f: Json.Field, key: string): Option<nat> {
    if f.key == key && f.value.Text? && AllDigits(f.value.s) then Some(Denotes(f.value.s)) else None
  }

  function DecodeVlanId(v: Json.Value): Option<Vlan> {
    if v.Number? && v.n < 0x1_0000 then Some(v.n) else None
  }

  function DecodeAll<T>(items: seq<Json.Value>, decode: Json.Value -> Option<T>): Option<seq<T>> {
    if items == [] then
      Some([])
    else
      match (decode(items[0]), DecodeAll(items[1..], decode))
      case (Some(x), Some(xs)) => Some([x] + xs)
      case _ => None
  }

  function DecodeTrunk(native: Json.Value, allowed: seq<Json.Value>): Option<PortMode> {
    match (DecodeVlanId(native), DecodeAll(allowed, DecodeVlanId))
    case (Some(v), Some(vs)) => Some(Trunk(Some(v), Elements(vs)))
    case (None, Some(vs)) => if native.Null? then Some(Trunk(None, Elements(vs))) else None
    case _ => None
  }

  function DecodeMode(v: Json.Value): Option<PortMode> {
    if && v.Record? && |v.fields| == 2
       && v.fields[0] == Json.Field("kind", Json.Text("access")) && v.fields[1].key == "vlan" then
      match DecodeVlanId(v.fields[1].value)
      case Some(vlan) => Some(Access(vlan))
      case None => None
    else if && v.Record? && |v.fields| == 3
            && v.fields[0] == Json.Field("kind", Json.Text("trunk"))
            && v.fields[1].key == "native" && v.fields[2].key == "allowed" && v.fields[2].value.List? then
      DecodeTrunk(v.fields[1].value, v.fields[2].value.items)
    else
      None
  }

  function DecodePort(v: Json.Value): Option<PortRecord> {
    if v.Record? && |v.fields| == 8 && v.fields[0].key == "port" && v.fields[1].key == "blocked"
       && v.fields[1].value.Flag? && v.fields[2].key == "mode" then
      match (DecodePortId(v.fields[0].value), DecodeMode(v.fields[2].value),
             DecodeCounter(v.fields[3], "frames_in"), DecodeCounter(v.fields[4], "bytes_in"),
             DecodeCounter(v.fields[5], "frames_out"), DecodeCounter(v.fields[6], "bytes_out"),
             DecodeCounter(v.fields[7], "drops"))
      case (Some(port), Some(mode), Some(fi), Some(bi), Some(fo), Some(bo), Some(drops)) =>
        Some(PortRecord(port, v.fields[1].value.b, mode, Counters(fi, bi, fo, bo, drops)))
      case _ => None
    else
      None
  }

  function DecodeVlan(v: Json.Value): Option<VlanRecord> {
    if v.Record? && |v.fields| == 5 && v.fields[0].key == "vlan" then
      match (DecodeVlanId(v.fields[0].value),
             DecodeCounter(v.fields[1], "frames_in"), DecodeCounter(v.fields[2], "bytes_in"),
             DecodeCounter(v.fields[3], "frames_out"), DecodeCounter(v.fields[4], "bytes_out"))
      case (Some(vlan), Some(fi), Some(bi), Some(fo), Some(bo)) => Some(VlanRecord(vlan, fi, bi, fo, bo))
      case _ => None
    else
      None
  }

  function DecodeDocument(v: Json.Value): Option<(seq<PortRecord>, seq<VlanRecord>)> {
    if v.Record? && |v.fields| == 2 && v.fields[0].key == "ports" && v.fields[0].value.List?
       && v.fields[1].key == "vlans" && v.fields[1].value.List? then
      match (DecodeAll(v.fields[0].value.items, DecodePort), DecodeAll(v.fields[1].value.items, DecodeVlan))
      case (Some(ports), Some(vlans)) => Some((ports, vlans))
      case _ => None
    else
      None
  }

  /** Reads a whole text as one JSON document and takes the records out of it. */
  function ReadBack(text: string): Option<(seq<PortRecord>, seq<VlanRecord>)> {
    match Json.Read(text)
    case None => None
    case Some((v, rest)) => if rest == "" then DecodeDocument(v) else None
  }

  // ---------------------------------------------------------------- decoding undoes encoding

  lemma {:induction false} DecodesAll<T>(items: seq<Json.Value>, decode: Json.Value -> Option<T>, xs: seq<T>)
    requires |items| == |xs| && forall i | 0 <= i < |xs| :: decode(items[i]) == Some(xs[i])
    ensures DecodeAll(items, decode) == Some(xs)
  {
    if items != [] {
      DecodesAll(items[1..], decode, xs[1..]);
      assert xs == [xs[0]] + xs[1..];
    }
  }

  lemma DecodesTrunk(native: Option<Vlan>, allowed: set<Vlan>)
    ensures DecodeTrunk(if native.Some? then Json.Number(native.value) else Json.Null,
                        NumberItems(AscendingVlans(allowed)))
            == Some(Trunk(native, allowed))
  {
    var vs := AscendingVlans(allowed);
    DecodesAll(NumberItems(vs), DecodeVlanId, vs);
  }

  lemma DecodesMode(mode: PortMode)
    ensures DecodeMode(ModeJson(mode)) == Some(mode)
  {
    if mode.Trunk? {
      DecodesTrunk(mode.native, mode.allowed);
    }
  }

  lemma DecodesCounter(key: string, n: nat)
    ensures DecodeCounter(CounterField(key, n), key) == Some(n)
  {
    NumeralRoundTrip(n);
  }

  lemma DecodesPort(r: PortRecord)
    ensures DecodePort(PortJson(r)) == Some(r)
  {
    DecodesMode(r.mode);
    DecodesCounter("frames_in", r.counters.framesIn);
    DecodesCounter("bytes_in", r.counters.bytesIn);
    DecodesCounter("frames_out", r.counters.framesOut);
    DecodesCounter("bytes_out", r.counters.bytesOut);
    DecodesCounter("drops", r.counters.drops);
  }

  lemma DecodesVlan(r: VlanRecord)
    ensures DecodeVlan(VlanJson(r)) == Some(r)
  {
    DecodesCounter("frames_in", r.framesIn);
    DecodesCounter("bytes_in", r.bytesIn);
    DecodesCounter("frames_out", r.framesOut);
    DecodesCounter("bytes_out", r.bytesOut);
  }

  lemma DecodesRecords(ports: seq<PortRecord>, vlans: seq<VlanRecord>)
    ensures DecodeAll(PortItems(ports), DecodePort) == Some(ports)
    ensures DecodeAll(VlanItems(vlans), DecodeVlan) == Some(vlans)
  {
    forall i | 0 <= i < |ports|
      ensures DecodePort(PortItems(ports)[i]) == Some(ports[i])
    {
      DecodesPort(ports[i]);
    }
    DecodesAll(PortItems(ports), DecodePort, ports);
    forall i | 0 <= i < |vlans|
      ensures DecodeVlan(VlanItems(vlans)[i]) == Some(vlans[i])
    {
      DecodesVlan(vlans[i]);
    }
    DecodesAll(VlanItems(vlans), DecodeVlan, vlans);
  }

  lemma PlainCounter(key: string, n: nat)
    requires Json.QUOTE !in key
    ensures Json.PlainField(CounterField(key, n))
  {
    NumeralRoundTrip(n);
  }

  lemma PlainNumbers(vs: seq<Vlan>)
    ensures Json.Plain(Json.List(NumberItems(vs)))
  {
    forall i | 0 <= i < |vs|
      ensures Json.Plain(NumberItems(vs)[i])
    {
      assert NumberItems(vs)[i].Number?;
    }
  }

  lemma PlainTrunk(native: Json.Value, vs: seq<Vlan>)
    requires Json.Plain(native)
    ensures Json.Plain(Json.Record([Json.Field("kind", Json.Text("trunk")),
                                    Json.Field("native", native),
                                    Json.Field("allowed", Json.List(NumberItems(vs)))]))
  {
    PlainNumbers(vs);
  }

  lemma PlainMode(mode: PortMode)
    ensures Json.Plain(ModeJson(mode))
  {
    if mode.Trunk? {
      PlainTrunk(if mode.native.Some? then Json.Number(mode.native.value) else Json.Null,
                 AscendingVlans(mode.allowed));
    }
  }

  lemma PlainPort(r: PortRecord)
    ensures Json.Plain(PortJson(r))
  {
    PlainMode(r.mode);
    PlainCounter("frames_in", r.counters.framesIn);
    PlainCounter("bytes_in", r.counters.bytesIn);
    PlainCounter("frames_out", r.counters.framesOut);
    PlainCounter("bytes_out", r.counters.bytesOut);
    PlainCounter("drops", r.counters.drops);
  }

  lemma PlainVlan(r: VlanRecord)
    ensures Json.Plain(VlanJson(r))
  {
    PlainCounter("frames_in", r.framesIn);
    PlainCounter("bytes_in", r.bytesIn);
    PlainCounter("frames_out", r.framesOut);
    PlainCounter("bytes_out", r.bytesOut);
  }

  lemma PlainDocument(ports: seq<PortRecord>, vlans: seq<VlanRecord>)
    ensures Json.Plain(Document(ports, vlans))
  {
    forall i | 0 <= i < |ports|
      ensures Json.Plain(PortItems(ports)[i])
    {
      PlainPort(ports[i]);
    }
    forall i | 0 <= i < |vlans|
      ensures Json.Plain(VlanItems(vlans)[i])
    {
      PlainVlan(vlans[i]);
    }
    assert Json.Plain(Json.List(PortItems(ports))) && Json.Plain(Json.List(VlanItems(vlans)));
    var fields := Document(ports, vlans).fields;
    assert Json.PlainField(fields[0]) && Json.PlainField(fields[1]);
  }

  /** Reading the text of any document recovers exactly the records it was made of: any number of
      them, any VLAN sets, any counter values. */
  lemma DocumentReadsBack(ports: seq<PortRecord>, vlans: seq<VlanRecord>)
    ensures ReadBack(Json.Print(Document(ports, vlans))) == Some((ports, vlans))
  {
    var doc := Document(ports, vlans);
    PlainDocument(ports, vlans);
    Json.ReadsBack(doc, "");
    assert Json.Print(doc) + "" == Json.Print(doc);
    DecodesRecords(ports, vlans);
  }

  /** What a listing is, field by field: strictly ascending, a record for everything there is and for
      nothing else, and each record as the switch has it, zeros for a port that has counted nothing. */
  lemma ListingsAreTheSwitch(s: State, ports: seq<PortRecord>, vlans: seq<VlanRecord>)
    requires ListsPorts(s, ports) && ListsVlans(s, vlans)
    ensures forall i, j | 0 <= i < j < |ports| :: ports[i].port < ports[j].port
    ensures forall i, j | 0 <= i < j < |vlans| :: vlans[i].vlan < vlans[j].vlan
    ensures (set r | r in ports :: r.port) == s.ports.Keys
    ensures (set r | r in vlans :: r.vlan) == s.vlanCounters.Keys
    ensures forall r | r in ports ::
              && r.blocked == s.ports[r.port].blocked
              && r.mode == s.ports[r.port].mode
              && r.counters == if r.port in s.portCounters then s.portCounters[r.port] else Counters(0, 0, 0, 0, 0)
    ensures forall r | r in vlans ::
              && r.framesIn == s.vlanCounters[r.vlan].framesIn
              && r.bytesIn == s.vlanCounters[r.vlan].bytesIn
              && r.framesOut == s.vlanCounters[r.vlan].framesOut
              && r.bytesOut == s.vlanCounters[r.vlan].bytesOut
  {
    forall p | p in s.ports
      ensures p in set r | r in ports :: r.port
    {
      assert PortRecordOf(s, p) in ports;
    }
    forall v | v in s.vlanCounters
      ensures v in set r | r in vlans :: r.vlan
    {
      assert VlanRecordOf(s, v) in vlans;
    }
    forall i, j | 0 <= i < j < |ports|
      ensures ports[i].port < ports[j].port
    {
      assert PortKey(ports[i]) < PortKey(ports[j]);
    }
    forall i, j | 0 <= i < j < |vlans|
      ensures vlans[i].vlan < vlans[j].vlan
    {
      assert VlanKey(vlans[i]) < VlanKey(vlans[j]);
    }
  }

  /** A state has only one listing of its ports and one of its VLANs, so the order in which the hash
      maps yield them cannot show. */
  lemma ListingsUnique(s: State, a: seq<PortRecord>, b: seq<PortRecord>, c: seq<VlanRecord>, d: seq<VlanRecord>)
    requires ListsPorts(s, a) && ListsPorts(s, b) && ListsVlans(s, c) && ListsVlans(s, d)
    ensures a == b && c == d
  {
    AscendingByUnique(a, b, PortKey);
    AscendingByUnique(c, d, VlanKey);
  }

  // ---------------------------------------------------------------- rendering

  /** `"key":`, after what separates it from the field before. */
  method WriteKey(out: Vec<char>, lead: string, key: string)
    modifies out
    ensures out.items == old(out.items) + lead + Json.Quoted(key) + ":"
  {
    out.Extend(lead);
    out.Extend(Json.Quoted(key));
    out.Extend(":");
  }

  /** What has been written of a record so far: its opening brace and `fields`. */
  ghost predicate Wrote(text: string, base: string, fields: seq<Json.Field>) {
    text == base + ("{" + Json.PrintFields(fields))
  }

  lemma WroteField(text: string, base: string, fields: seq<Json.Field>, f: Json.Field, lead: string)
    requires if fields == [] then text == base && lead == "{" else Wrote(text, base, fields) && lead == ","
    ensures Wrote(text + lead + Json.Quoted(f.key) + ":" + Json.Print(f.value), base, fields + [f])
  {
    Json.PrintFieldsSnoc(fields, f);
    var field := Json.PrintField(f);
    assert text + lead + Json.Quoted(f.key) + ":" + Json.Print(f.value) == text + lead + field;
    if fields == [] {
      assert base + "{" + field == base + ("{" + field);
    } else {
      var written := Json.PrintFields(fields);
      assert base + ("{" + written) + "," + field == base + ("{" + (written + "," + field));
    }
  }

  lemma WroteRecord(text: string, base: string, fields: seq<Json.Field>)
    requires Wrote(text, base, fields)
    ensures text + "}" == base + Json.Print(Json.Record(fields))
  {
    assert base + ("{" + Json.PrintFields(fields)) + "}" == base + ("{" + Json.PrintFields(fields) + "}");
  }

  method WriteNumberField(out: Vec<char>, lead: string, key: string, n: nat,
                          ghost base: string, ghost fields: seq<Json.Field>)
    requires if fields == [] then out.items == base && lead == "{" else Wrote(out.items, base, fields) && lead == ","
    modifies out
    ensures Wrote(out.items, base, fields + [Json.Field(key, Json.Number(n))])
  {
    WroteField(out.items, base, fields, Json.Field(key, Json.Number(n)), lead);
    WriteKey(out, lead, key);
    out.Extend(Numeral(n));
  }

  /** A counter is written as a string: a browser would round a bare integer above 2^53. */
  method WriteCounterField(out: Vec<char>, key: string, n: nat, ghost base: string, ghost fields: seq<Json.Field>)
    requires fields != [] && Wrote(out.items, base, fields)
    modifies out
    ensures Wrote(out.items, base, fields + [CounterField(key, n)])
  {
    WroteField(out.items, base, fields, CounterField(key, n), ",");
    WriteKey(out, ",", key);
    out.Extend(Json.Quoted(Numeral(n)));
  }

  /** What has been written of a list so far: its opening bracket and `items`. */
  ghost predicate WroteItems(text: string, base: string, items: seq<Json.Value>) {
    text == base + ("[" + Json.PrintItems(items))
  }

  lemma WroteItem(text: string, base: string, items: seq<Json.Value>, i: nat, lead: string)
    requires i < |items| && WroteItems(text, base, items[..i]) && lead == (if i == 0 then "" else ",")
    ensures WroteItems(text + lead + Json.Print(items[i]), base, items[..i + 1])
  {
    Json.PrintItemsSnoc(items[..i], items[i]);
    assert items[..i + 1] == items[..i] + [items[i]];
    var before := Json.PrintItems(items[..i]);
    assert base + ("[" + before) + lead + Json.Print(items[i]) == base + ("[" + (before + lead + Json.Print(items[i])));
  }

  lemma WroteList(text: string, base: string, items: seq<Json.Value>)
    requires WroteItems(text, base, items[..|items|])
    ensures text + "]" == base + Json.Print(Json.List(items))
  {
    assert items[..|items|] == items;
    assert base + ("[" + Json.PrintItems(items)) + "]" == base + ("[" + Json.PrintItems(items) + "]");
  }

  method WriteNumbers(out: Vec<char>, vs: seq<Vlan>)
    modifies out
    ensures out.items == old(out.items) + Json.Print(Json.List(NumberItems(vs)))
  {
    ghost var base := out.items;
    out.Extend("[");
    ghost var items := NumberItems(vs);
    for i := 0 to |vs|
      invariant WroteItems(out.items, base, items[..i])
    {
      WroteItem(out.items, base, items, i, if i == 0 then "" else ",");
      if i > 0 {
        out.Extend(",");
      }
      out.Extend(Numeral(vs[i]));
    }
    WroteList(out.items, base, items);
    out.Extend("]");
  }

  method SortVlans(vs: set<Vlan>) returns (sorted: seq<Vlan>)
    ensures sorted == AscendingVlans(vs)
  {
    sorted := [];
    var todo := vs;
    while todo != {}
      invariant todo <= vs
      invariant forall v :: v in sorted <==> v in vs && v !in todo
      invariant DistinctKeys(sorted, VlanId)
      decreases todo
    {
      Inhabited(todo);
      var v :| v in todo;
      sorted := sorted + [v];
      todo := todo - {v};
    }
    sorted := SortByKey(sorted, VlanId);
    assert Elements(sorted) == vs;
    AscendingUnique(sorted, AscendingVlans(vs));
  }

  method WriteMode(out: Vec<char>, mode: PortMode)
    modifies out
    ensures out.items == old(out.items) + Json.Print(ModeJson(mode))
  {
    match mode
    case Access(vlan) => WriteAccess(out, vlan);
    case Trunk(native, allowed) => WriteTrunk(out, native, allowed);
  }

  method WriteAccess(out: Vec<char>, vlan: Vlan)
    modifies out
    ensures out.items == old(out.items) + Json.Print(ModeJson(Access(vlan)))
  {
    ghost var base := out.items;
    ghost var kind := Json.Field("kind", Json.Text("access"));
    WroteField(base, base, [], kind, "{");
    WriteKey(out, "{", "kind");
    out.Extend(Json.Quoted("access"));
    ghost var done := [] + [kind];
    WriteNumberField(out, ",", "vlan", vlan, base, done);
    done := done + [Json.Field("vlan", Json.Number(vlan))];
    assert done == ModeJson(Access(vlan)).fields;
    WroteRecord(out.items, base, done);
    out.Extend("}");
  }

  method WriteTrunk(out: Vec<char>, native: Option<Vlan>, allowed: set<Vlan>)
    modifies out
    ensures out.items == old(out.items) + Json.Print(ModeJson(Trunk(native, allowed)))
  {
    var sorted := SortVlans(allowed);
    ghost var base := out.items;
    ghost var kind := Json.Field("kind", Json.Text("trunk"));
    WroteField(base, base, [], kind, "{");
    WriteKey(out, "{", "kind");
    out.Extend(Json.Quoted("trunk"));
    ghost var done := [] + [kind];
    ghost var nativeField := Json.Field("native", if native.Some? then Json.Number(native.value) else Json.Null);
    WroteField(out.items, base, done, nativeField, ",");
    WriteKey(out, ",", "native");
    out.Extend(if native.Some? then Numeral(native.value) else "null");
    done := done + [nativeField];
    ghost var allowedField := Json.Field("allowed", Json.List(NumberItems(sorted)));
    WroteField(out.items, base, done, allowedField, ",");
    WriteKey(out, ",", "allowed");
    WriteNumbers(out, sorted);
    done := done + [allowedField];
    assert done == ModeJson(Trunk(native, allowed)).fields;
    WroteRecord(out.items, base, done);
    out.Extend("}");
  }

  method WritePort(out: Vec<char>, r: PortRecord)
    modifies out
    ensures out.items == old(out.items) + Json.Print(PortJson(r))
  {
    ghost var base := out.items;
    WriteNumberField(out, "{", "port", r.port, base, []);
    ghost var done := [] + [Json.Field("port", Json.Number(r.port))];
    WroteField(out.items, base, done, Json.Field("blocked", Json.Flag(r.blocked)), ",");
    WriteKey(out, ",", "blocked");
    out.Extend(if r.blocked then "true" else "false");
    done := done + [Json.Field("blocked", Json.Flag(r.blocked))];
    WroteField(out.items, base, done, Json.Field("mode", ModeJson(r.mode)), ",");
    WriteKey(out, ",", "mode");
    WriteMode(out, r.mode);
    done := done + [Json.Field("mode", ModeJson(r.mode))];
    WriteCounterField(out, "frames_in", r.counters.framesIn, base, done);
    done := done + [CounterField("frames_in", r.counters.framesIn)];
    WriteCounterField(out, "bytes_in", r.counters.bytesIn, base, done);
    done := done + [CounterField("bytes_in", r.counters.bytesIn)];
    WriteCounterField(out, "frames_out", r.counters.framesOut, base, done);
    done := done + [CounterField("frames_out", r.counters.framesOut)];
    WriteCounterField(out, "bytes_out", r.counters.bytesOut, base, done);
    done := done + [CounterField("bytes_out", r.counters.bytesOut)];
    WriteCounterField(out, "drops", r.counters.drops, base, done);
    done := done + [CounterField("drops", r.counters.drops)];
    assert done == PortJson(r).fields;
    WroteRecord(out.items, base, done);
    out.Extend("}");
  }

  method WriteVlan(out: Vec<char>, r: VlanRecord)
    modifies out
    ensures out.items == old(out.items) + Json.Print(VlanJson(r))
  {
    ghost var base := out.items;
    WriteNumberField(out, "{", "vlan", r.vlan, base, []);
    ghost var done := [] + [Json.Field("vlan", Json.Number(r.vlan))];
    WriteCounterField(out, "frames_in", r.framesIn, base, done);
    done := done + [CounterField("frames_in", r.framesIn)];
    WriteCounterField(out, "bytes_in", r.bytesIn, base, done);
    done := done + [CounterField("bytes_in", r.bytesIn)];
    WriteCounterField(out, "frames_out", r.framesOut, base, done);
    done := done + [CounterField("frames_out", r.framesOut)];
    WriteCounterField(out, "bytes_out", r.bytesOut, base, done);
    done := done + [CounterField("bytes_out", r.bytesOut)];
    assert done == VlanJson(r).fields;
    WroteRecord(out.items, base, done);
    out.Extend("}");
  }

  method WritePorts(out: Vec<char>, ports: seq<PortRecord>)
    modifies out
    ensures out.items == old(out.items) + Json.Print(Json.List(PortItems(ports)))
  {
    ghost var base := out.items;
    out.Extend("[");
    ghost var items := PortItems(ports);
    for i := 0 to |ports|
      invariant WroteItems(out.items, base, items[..i])
    {
      WroteItem(out.items, base, items, i, if i == 0 then "" else ",");
      if i > 0 {
        out.Extend(",");
      }
      WritePort(out, ports[i]);
    }
    WroteList(out.items, base, items);
    out.Extend("]");
  }

  method WriteVlans(out: Vec<char>, vlans: seq<VlanRecord>)
    modifies out
    ensures out.items == old(out.items) + Json.Print(Json.List(VlanItems(vlans)))
  {
    ghost var base := out.items;
    out.Extend("[");
    ghost var items := VlanItems(vlans);
    for i := 0 to |vlans|
      invariant WroteItems(out.items, base, items[..i])
    {
      WroteItem(out.items, base, items, i, if i == 0 then "" else ",");
      if i > 0 {
        out.Extend(",");
      }
      WriteVlan(out, vlans[i]);
    }
    WroteList(out.items, base, items);
    out.Extend("]");
  }

  method CollectPorts(switch: Switch) returns (rs: seq<PortRecord>)
    ensures ListsPorts(switch.Model(), rs)
  {
    rs := [];
    var todo := switch.ports.Keys;
    while todo != {}
      invariant todo <= switch.ports.Keys
      invariant forall r :: r in rs <==>
                  r.port in switch.ports && r.port !in todo && r == PortRecordOf(switch.Model(), r.port)
      invariant DistinctKeys(rs, PortKey)
      decreases todo
    {
      Inhabited(todo);
      var p :| p in todo;
      var snapshot := switch.PortSnapshot(p);
      rs := rs + [PortRecord(p, snapshot.value.1, snapshot.value.2, snapshot.value.0)];
      todo := todo - {p};
    }
    rs := SortByKey(rs, PortKey);
  }

  method CollectVlans(switch: Switch) returns (rs: seq<VlanRecord>)
    ensures ListsVlans(switch.Model(), rs)
  {
    rs := [];
    var todo := switch.vlanCounters.Keys;
    while todo != {}
      invariant todo <= switch.vlanCounters.Keys
      invariant forall r :: r in rs <==>
                  r.vlan in switch.vlanCounters && r.vlan !in todo && r == VlanRecordOf(switch.Model(), r.vlan)
      invariant DistinctKeys(rs, VlanKey)
      decreases todo
    {
      Inhabited(todo);
      var v :| v in todo;
      var c := switch.vlanCounters[v];
      rs := rs + [VlanRecord(v, c.framesIn, c.bytesIn, c.framesOut, c.bytesOut)];
      todo := todo - {v};
    }
    rs := SortByKey(rs, VlanKey);
  }

  /** The two fields of the document, one after the other. */
  lemma WroteDocument(text: string, ports: seq<PortRecord>, vlans: seq<VlanRecord>)
    requires var portsField := Json.Field("ports", Json.List(PortItems(ports)));
             var vlansField := Json.Field("vlans", Json.List(VlanItems(vlans)));
             Wrote(text, "", [portsField] + [vlansField])
    ensures text + "}" == Json.Print(Document(ports, vlans))
  {
    WroteRecord(text, "", Document(ports, vlans).fields);
  }

  method RenderDocument(ports: seq<PortRecord>, vlans: seq<VlanRecord>) returns (text: string)
    ensures text == Json.Print(Document(ports, vlans))
  {
    var out := new Vec<char>();
    ghost var portsField := Json.Field("ports", Json.List(PortItems(ports)));
    ghost var vlansField := Json.Field("vlans", Json.List(VlanItems(vlans)));
    WroteField("", "", [], portsField, "{");
    WriteKey(out, "{", "ports");
    WritePorts(out, ports);
    assert [] + [portsField] == [portsField];
    WroteField(out.items, "", [portsField], vlansField, ",");
    WriteKey(out, ",", "vlans");
    WriteVlans(out, vlans);
    WroteDocument(out.items, ports, vlans);
    out.Extend("}");
    text := out.items;
  }

  /** Renders the switch. Reading the text back gives one record for each registered port and for each
      VLAN with counters, in ascending order, every field as it is in the switch. */
  method RenderCountersJson(switch: Switch) returns (text: string)
    ensures exists ports, vlans ::
              && ListsPorts(switch.Model(), ports) && ListsVlans(switch.Model(), vlans)
              && text == Json.Print(Document(ports, vlans))
              && ReadBack(text) == Some((ports, vlans))
  {
    var ports := CollectPorts(switch);
    var vlans := CollectVlans(switch);
    text := RenderDocument(ports, vlans);
    DocumentReadsBack(ports, vlans);
  }
}
