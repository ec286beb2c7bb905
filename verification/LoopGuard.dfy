/** The loop guard's probe frames: how they are built and how they are told apart. */
module LoopGuard {
  import opened Prelude
  import opened Frame

  const PROBE_ETHERTYPE: u16 := 0x88B7
  const PROBE_MAGIC: seq<u8> := [0x56, 0x4C, 0x50, 0x42]
  const PROBE_PAYLOAD_LEN: nat := 46
  const PROBE_SRC_PREFIX: u8 := 0x02

  /** The low `width` bytes of `n`, most significant first. */
  function BigEndian(n: nat, width: nat): (s: seq<u8>)
    ensures |s| == width
  {
    if width == 0 then [] else BigEndian(n / 0x100, width - 1) + [n % 0x100]
  }

  function FromBigEndian(s: seq<u8>): nat {
    if s == [] then 0 else FromBigEndian(s[..|s| - 1]) * 0x100 + s[|s| - 1]
  }

  function Pow256(k: nat): nat {
    if k == 0 then 1 else 0x100 * Pow256(k - 1)
  }

  lemma {:induction false} BigEndianRoundTrip(n: nat, width: nat)
    requires n < Pow256(width)
    ensures FromBigEndian(BigEndian(n, width)) == n
  {
    if width > 0 {
      var s := BigEndian(n, width);
      var high, m := n / 0x100, Pow256(width - 1);
      assert high < m by {
        assert n < 0x100 * m;
      }
      assert s[..width - 1] == BigEndian(high, width - 1);
      BigEndianRoundTrip(high, width - 1);
    }
  }

  lemma {:induction false} FromBigEndianBound(s: seq<u8>)
    ensures FromBigEndian(s) < Pow256(|s|)
  {
    if s != [] {
      FromBigEndianBound(s[..|s| - 1]);
    }
  }

  lemma Pow256Eight()
    ensures Pow256(8) == 0x1_0000_0000_0000_0000
  {
    assert Pow256(4) == 0x1_0000_0000;
    assert Pow256(6) == 0x1_0000_0000_0000;
  }

  lemma U64RoundTrip(id: u64)
    ensures FromBigEndian(BigEndian(id, 8)) == id
  {
    Pow256Eight();
    BigEndianRoundTrip(id, 8);
  }

  /** The id in a probe payload; trailing padding is ignored. */
  function PayloadProbeId(payload: seq<u8>): Option<nat> {
    if !(PROBE_MAGIC <= payload) then
      None
    else if |payload| < 12 then
      None
    else
      Some(FromBigEndian(payload[4..12]))
  }

  predicate IsOwnProbe(frame: EthernetFrame, probeId: u64) {
    frame.ethertype == PROBE_ETHERTYPE && PayloadProbeId(frame.payload) == Some(probeId)
  }

  /** Whether the frame is a probe at all; neither the tag nor the id's presence matters. */
  predicate IsAnyProbe(frame: EthernetFrame) {
    frame.ethertype == PROBE_ETHERTYPE && PROBE_MAGIC <= frame.payload
  }

  function ProbeFrame(probeId: u64): EthernetFrame {
    EthernetFrame(
      seq(6, _ => 0xFF),
      [PROBE_SRC_PREFIX] + BigEndian(probeId, 8)[0..5],
      None,
      PROBE_ETHERTYPE,
      PROBE_MAGIC + BigEndian(probeId, 8) + seq(34, _ => 0))
  }

  function ProbeBytes(probeId: u64): seq<u8> {
    Encode(ProbeFrame(probeId))
  }

  method BuildProbe(probeId: u64) returns (bytes: seq<u8>)
    ensures bytes == ProbeBytes(probeId)
  {
    var id := BigEndian(probeId, 8);
    var src := new u8[6](_ => 0);
    src[0] := PROBE_SRC_PREFIX;
    forall i | 0 <= i < 5 {
      src[1 + i] := id[i];
    }
    var payload := new u8[PROBE_PAYLOAD_LEN](_ => 0);
    forall i | 0 <= i < 4 {
      payload[i] := PROBE_MAGIC[i];
    }
    forall i | 0 <= i < 8 {
      payload[4 + i] := id[i];
    }
    assert src[..] == ProbeFrame(probeId).src;
    assert payload[..] == ProbeFrame(probeId).payload;
    var frame := EthernetFrame(seq(6, _ => 0xFF), src[..], None, PROBE_ETHERTYPE, payload[..]);
    var out := new Vec<u8>();
    var _ := WriteInto(frame, out);
    bytes := out.items;
  }

  // ---------------------------------------------------------------- laws

  lemma OwnProbeIsProbe(frame: EthernetFrame, probeId: u64)
    requires IsOwnProbe(frame, probeId)
    ensures IsAnyProbe(frame)
  {
  }

  /** Appending bytes to a writable untagged frame's image extends the parsed payload and nothing else. */
  lemma ParsePadded(frame: EthernetFrame, padding: seq<u8>)
    requires frame.Writable() && frame.tag.None?
    ensures Parse(Encode(frame) + padding) == Ok(frame.(payload := frame.payload + padding))
  {
    var padded := frame.(payload := frame.payload + padding);
    WriteThenParse(padded);
    var head := frame.dst + frame.src + TagBytes(frame.tag) + BigEndian16(frame.ethertype);
    assert Encode(frame) + padding == head + (frame.payload + padding);
  }

  /** A probe with any padding appended is still a probe, carries exactly its sender's id, and is
      60 bytes long before padding. It goes out untagged to the broadcast address, from a locally
      administered unicast source that bridges on the way will not refuse. */
  lemma ProbeRecognition(a: u64, b: u64, padding: seq<u8>)
    ensures |ProbeBytes(a)| == 60
    ensures Parse(ProbeBytes(a) + padding).Ok?
    ensures var frame := Parse(ProbeBytes(a) + padding).value;
            && IsAnyProbe(frame) && (IsOwnProbe(frame, b) <==> a == b)
            && frame.tag.None? && (forall i | 0 <= i < 6 :: frame.dst[i] == 0xFF)
            && frame.src[0] % 2 == 0 && frame.src[0] / 2 % 2 == 1
  {
    var probe := ProbeFrame(a);
    WireLenIsEncodedLength(probe);
    ParsePadded(probe, padding);
    var payload := probe.payload + padding;
    assert payload[..4] == PROBE_MAGIC;
    assert payload[4..12] == BigEndian(a, 8);
    U64RoundTrip(a);
  }

  lemma {:induction false} BigEndianDigits(n: nat, width: nat, i: nat)
    requires i < width
    ensures Pow256(width - 1 - i) > 0
    ensures BigEndian(n, width)[i] == n / Pow256(width - 1 - i) % 256
  {
    if i < width - 1 {
      BigEndianDigits(n / 0x100, width - 1, i);
      DivideTwice(n, 0x100, Pow256(width - 2 - i));
    }
  }

  /** The sixty bytes of a probe: broadcast, from 02 and the id's first five bytes, EtherType 88 B7, no
      tag, the letters VLPB, the id with its most significant byte first, zeros. */
  lemma ProbeWireFormat(id: u64, i: nat)
    requires i < 8
    ensures var s := ProbeBytes(id);
            && |s| == 60
            && s[0..6] == [0xFF, 0xFF, 0xFF, 0xFF, 0xFF, 0xFF]
            && s[6] == 0x02
            && s[7..12] == s[18..23]
            && s[12..18] == [0x88, 0xB7, 'V' as int, 'L' as int, 'P' as int, 'B' as int]
            && Pow256(7 - i) > 0 && s[18 + i] == id / Pow256(7 - i) % 256
            && s[26..] == seq(34, _ => 0)
  {
    var id8 := BigEndian(id, 8);
    ProbePieces(id, id8);
    BigEndianDigits(id, 8, i);
    assert ProbeBytes(id)[18 + i] == ProbeBytes(id)[18..26][i];
  }

  lemma ProbePieces(id: u64, id8: seq<u8>)
    requires id8 == BigEndian(id, 8)
    ensures var s := ProbeBytes(id);
            && |s| == 60
            && s[0..6] == [0xFF, 0xFF, 0xFF, 0xFF, 0xFF, 0xFF]
            && s[6] == 0x02
            && s[7..12] == s[18..23]
            && s[12..18] == [0x88, 0xB7, 0x56, 0x4C, 0x50, 0x42]
            && s[18..26] == id8
            && s[26..] == seq(34, _ => 0)
  {
    var s := ProbeBytes(id);
    ProbeLayout(id, id8);
    FivePieces([0xFF, 0xFF, 0xFF, 0xFF, 0xFF, 0xFF, 0x02], id8[..5], [0x88, 0xB7, 0x56, 0x4C, 0x50, 0x42], id8,
               seq(34, _ => 0));
    assert s[0..6] == s[0..7][..6];
    assert s[18..23] == s[18..26][..5];
    assert s[6] == s[0..7][6];
  }

  lemma FivePieces(a: seq<u8>, b: seq<u8>, c: seq<u8>, d: seq<u8>, e: seq<u8>)
    requires |a| == 7 && |b| == 5 && |c| == 6 && |d| == 8
    ensures var s := a + b + c + d + e;
            s[0..7] == a && s[7..12] == b && s[12..18] == c && s[18..26] == d && s[26..] == e
  {
    var s := a + b + c + d;
    assert s[0..7] == a && s[7..12] == b && s[12..18] == c && s[18..26] == d;
  }

  lemma ProbeLayout(id: u64, id8: seq<u8>)
    requires id8 == BigEndian(id, 8)
    ensures ProbeBytes(id) == [0xFF, 0xFF, 0xFF, 0xFF, 0xFF, 0xFF, 0x02] + id8[..5]
                              + [0x88, 0xB7, 0x56, 0x4C, 0x50, 0x42] + id8 + seq(34, _ => 0)
  {
  }
}
