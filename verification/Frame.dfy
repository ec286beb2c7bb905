/** Ethernet II frames with at most one 802.1Q tag: the parser, the writer, and
    the laws that make them inverse to each other. */
module Frame {
  import opened Prelude

  const TPID_802_1Q: u16 := 0x8100
  const UNTAGGED_HEADER_LEN: nat := 14
  const TAGGED_HEADER_LEN: nat := 18

  type Mac = m: seq<u8> | |m| == 6 witness [0, 0, 0, 0, 0, 0]

  /** A tag's control information. `pcp` and `vid` are wider here than on the wire. */
  datatype Dot1qTag = Dot1qTag(pcp: u8, dei: bool, vid: u16) {
    /** Fits the 3-bit and 12-bit fields of IEEE Std 802.1Q clause 9.6. */
    predicate InRange() {
      pcp < 8 && vid < 0x1000
    }

    /** The tag with its fields cut down to their width on the wire. */
    function Masked(): Dot1qTag {
      Dot1qTag(pcp % 8, dei, vid % 0x1000)
    }
  }

  function FromTci(tci: u16): Dot1qTag {
    Dot1qTag((tci / 0x2000) % 8, (tci / 0x1000) % 2 != 0, tci % 0x1000)
  }

  function ToTci(tag: Dot1qTag): u16 {
    (tag.pcp % 8) * 0x2000 + (if tag.dei then 0x1000 else 0) + tag.vid % 0x1000
  }

  datatype EthernetFrame = EthernetFrame(
    dst: Mac,
    src: Mac,
    tag: Option<Dot1qTag>,
    ethertype: u16,
    payload: seq<u8>)
  {
    function WireLen(): nat {
      (if tag.Some? then TAGGED_HEADER_LEN else UNTAGGED_HEADER_LEN) + |payload|
    }

    /** An untagged frame of type 0x8100 would read back as a tagged one. */
    predicate Writable() {
      tag.Some? || ethertype != TPID_802_1Q
    }

    predicate TagInRange() {
      tag.Some? ==> tag.value.InRange()
    }

    function TagMasked(): EthernetFrame {
      if tag.Some? then this.(tag := Some(tag.value.Masked())) else this
    }
  }

  datatype ParseError = TooShort(len: nat) | TruncatedTag(len: nat)

  datatype WriteError = AmbiguousUntaggedEtherType

  function BigEndian16(x: u16): (s: seq<u8>)
    ensures |s| == 2
  {
    [x / 0x100, x % 0x100]
  }

  function FromBigEndian16(hi: u8, lo: u8): u16 {
    hi * 0x100 + lo
  }

  function Parse(bytes: seq<u8>): Result<EthernetFrame, ParseError> {
    if |bytes| < UNTAGGED_HEADER_LEN then
      Err(TooShort(|bytes|))
    else
      var dst := bytes[0..6];
      var src := bytes[6..12];
      var next := FromBigEndian16(bytes[12], bytes[13]);
      if next == TPID_802_1Q then
        if |bytes| < TAGGED_HEADER_LEN then
          Err(TruncatedTag(|bytes|))
        else
          var tci := FromBigEndian16(bytes[14], bytes[15]);
          var ethertype := FromBigEndian16(bytes[16], bytes[17]);
          Ok(EthernetFrame(dst, src, Some(FromTci(tci)), ethertype, bytes[TAGGED_HEADER_LEN..]))
      else
        Ok(EthernetFrame(dst, src, None, next, bytes[UNTAGGED_HEADER_LEN..]))
  }

  /** Everything the writer puts between the source address and the EtherType. */
  function TagBytes(tag: Option<Dot1qTag>): seq<u8> {
    match tag
    case None => []
    case Some(t) => BigEndian16(TPID_802_1Q) + BigEndian16(ToTci(t))
  }

  /** The wire image of a frame. */
  function Encode(frame: EthernetFrame): seq<u8> {
    frame.dst + frame.src + TagBytes(frame.tag) + BigEndian16(frame.ethertype) + frame.payload
  }

  /** Appends the frame to `out`, or refuses it and leaves `out` alone. */
  method WriteInto(frame: EthernetFrame, out: Vec<u8>) returns (r: Result<(), WriteError>)
    modifies out
    ensures r.Ok? <==> frame.Writable()
    ensures r.Ok? ==> out.items == old(out.items) + Encode(frame)
    ensures r.Err? ==> out.items == old(out.items)
  {
    if frame.tag.None? && frame.ethertype == TPID_802_1Q {
      return Err(AmbiguousUntaggedEtherType);
    }
    out.Extend(frame.dst);
    out.Extend(frame.src);
    if frame.tag.Some? {
      out.Extend(BigEndian16(TPID_802_1Q));
      out.Extend(BigEndian16(ToTci(frame.tag.value)));
    }
    out.Extend(BigEndian16(frame.ethertype));
    out.Extend(frame.payload);
    return Ok(());
  }

  // ---------------------------------------------------------------- laws

  /** Reading a TCI and writing it back is the identity on all 16-bit values. */
  lemma TciRoundTrip(tci: u16)
    ensures FromTci(tci).InRange()
    ensures ToTci(FromTci(tci)) == tci
  {
    var high := tci / 0x1000;
    assert high / 2 == tci / 0x2000;
  }

  /** Writing a tag and reading it back masks it, so it is the identity exactly on in-range tags. */
  lemma TagRoundTrip(tag: Dot1qTag)
    ensures FromTci(ToTci(tag)) == tag.Masked()
    ensures FromTci(ToTci(tag)) == tag <==> tag.InRange()
  {
    var pcp, dei, vid := tag.pcp % 8, if tag.dei then 1 else 0, tag.vid % 0x1000;
    var tci := ToTci(tag);
    assert tci == (2 * pcp + dei) * 0x1000 + vid;
    assert tci / 0x1000 == 2 * pcp + dei;
    assert tci / 0x2000 == pcp;
  }

  lemma WireLenIsEncodedLength(frame: EthernetFrame)
    ensures |Encode(frame)| == frame.WireLen()
  {
    assert |TagBytes(frame.tag)| == if frame.tag.Some? then 4 else 0;
  }

  /** A string is the concatenation of its consecutive pieces. */
  lemma CutIntoPieces(s: seq<u8>, tagEnd: nat)
    requires 12 <= tagEnd && tagEnd + 2 <= |s|
    ensures s[0..6] + s[6..12] + s[12..tagEnd] + s[tagEnd..tagEnd + 2] + s[tagEnd + 2..] == s
  {
    assert s[0..6] + s[6..12] == s[..12];
    assert s[..12] + s[12..tagEnd] == s[..tagEnd];
    assert s[..tagEnd] + s[tagEnd..tagEnd + 2] == s[..tagEnd + 2];
  }

  /** The pieces of a concatenation are found at their offsets. */
  lemma PiecesOfConcatenation(dst: Mac, src: Mac, tag: seq<u8>, ethertype: seq<u8>, payload: seq<u8>)
    requires |ethertype| == 2
    ensures var s := dst + src + tag + ethertype + payload;
            && s[0..6] == dst
            && s[6..12] == src
            && s[12..12 + |tag|] == tag
            && s[12 + |tag|..14 + |tag|] == ethertype
            && s[14 + |tag|..] == payload
  {
    var head := dst + src;
    assert head[0..6] == dst && head[6..12] == src;
    var tagged := head + tag;
    assert tagged[..12] == head && tagged[12..] == tag;
    var typed := tagged + ethertype;
    assert typed[..12 + |tag|] == tagged && typed[12 + |tag|..] == ethertype;
    var s := typed + payload;
    assert s[..14 + |tag|] == typed && s[14 + |tag|..] == payload;
    assert s[0..6] == typed[0..6] == tagged[0..6] == head[0..6];
    assert s[6..12] == typed[6..12] == tagged[6..12] == head[6..12];
    assert s[12..12 + |tag|] == typed[12..12 + |tag|] == tagged[12..];
    assert s[12 + |tag|..14 + |tag|] == typed[12 + |tag|..];
  }

  /** Two bytes are the big-endian form of the number they denote. */
  lemma BigEndian16RoundTrip(s: seq<u8>, i: nat)
    requires i + 2 <= |s|
    ensures BigEndian16(FromBigEndian16(s[i], s[i + 1])) == s[i..i + 2]
  {
  }

  /** Whatever the parser accepts can be written, and writing it gives back the same bytes. */
  lemma ParseThenWrite(bytes: seq<u8>)
    requires Parse(bytes).Ok?
    ensures Parse(bytes).value.Writable() && Parse(bytes).value.TagInRange()
    ensures Encode(Parse(bytes).value) == bytes
  {
    BigEndian16RoundTrip(bytes, 12);
    if Parse(bytes).value.tag.Some? {
      TciRoundTrip(FromBigEndian16(bytes[14], bytes[15]));
      BigEndian16RoundTrip(bytes, 14);
      BigEndian16RoundTrip(bytes, 16);
      assert bytes[12..14] + bytes[14..16] == bytes[12..16];
      CutIntoPieces(bytes, 16);
    } else {
      assert bytes[12..12] == [];
      CutIntoPieces(bytes, 12);
    }
  }

  /** Every writable frame reads back as itself up to the width of its tag's fields. */
  lemma WriteThenParse(frame: EthernetFrame)
    requires frame.Writable()
    ensures Parse(Encode(frame)) == Ok(frame.TagMasked())
    ensures Parse(Encode(frame)) == Ok(frame) <==> frame.TagInRange()
  {
    var bytes := Encode(frame);
    var tag := TagBytes(frame.tag);
    PiecesOfConcatenation(frame.dst, frame.src, tag, BigEndian16(frame.ethertype), frame.payload);
    WireLenIsEncodedLength(frame);
    if frame.tag.Some? {
      TagRoundTrip(frame.tag.value);
      TaggedHeader(bytes, tag, frame.tag.value, frame.ethertype);
    } else {
      UntaggedHeader(bytes, frame.ethertype);
    }
  }

  lemma TaggedHeader(bytes: seq<u8>, tag: seq<u8>, t: Dot1qTag, ethertype: u16)
    requires |bytes| >= 18 && tag == TagBytes(Some(t))
    requires bytes[12..16] == tag && bytes[16..18] == BigEndian16(ethertype)
    ensures FromBigEndian16(bytes[12], bytes[13]) == TPID_802_1Q
    ensures FromBigEndian16(bytes[14], bytes[15]) == ToTci(t)
    ensures FromBigEndian16(bytes[16], bytes[17]) == ethertype
  {
    assert bytes[12] == tag[0] && bytes[13] == tag[1] && bytes[14] == tag[2] && bytes[15] == tag[3];
    assert bytes[16] == bytes[16..18][0] && bytes[17] == bytes[16..18][1];
  }

  lemma UntaggedHeader(bytes: seq<u8>, ethertype: u16)
    requires |bytes| >= 14 && bytes[12..14] == BigEndian16(ethertype)
    ensures FromBigEndian16(bytes[12], bytes[13]) == ethertype
  {
    assert bytes[12] == bytes[12..14][0] && bytes[13] == bytes[12..14][1];
  }

  /** The parser accepts exactly the wire images of writable frames with in-range tags, and on
      those it is injective: its error cases are precisely the strings no frame has as its image. */
  lemma ParseAcceptsExactlyEncodings(bytes: seq<u8>)
    ensures Parse(bytes).Ok? <==>
            exists frame: EthernetFrame :: frame.Writable() && frame.TagInRange() && Encode(frame) == bytes
  {
    if Parse(bytes).Ok? {
      ParseThenWrite(bytes);
    }
    forall frame: EthernetFrame | frame.Writable() && frame.TagInRange() && Encode(frame) == bytes
      ensures Parse(bytes).Ok?
    {
      WriteThenParse(frame);
    }
  }

  // ---------------------------------------------------------------- the wire format, byte by byte

  /** Every byte of a frame's image: addresses first, destination before source, then, only if there is
      a tag, 81 00 and the tag with the priority in the top three bits, then the EtherType, high byte
      first. The untagged frame that may not be written is the one of EtherType 0x8100. */
  lemma WireFormat(frame: EthernetFrame)
    ensures frame.Writable() <==> !(frame.tag.None? && frame.ethertype == 0x8100)
    ensures var s := Encode(frame);
            var h := if frame.tag.Some? then 16 else 12;
            && |s| == h + 2 + |frame.payload|
            && s[0..6] == frame.dst
            && s[6..12] == frame.src
            && s[h] as int * 256 + s[h + 1] == frame.ethertype
            && s[h + 2..] == frame.payload
            && (frame.tag.Some? ==>
                  var t := frame.tag.value;
                  && s[12] == 0x81 && s[13] == 0x00
                  && s[14] == (t.pcp % 8) * 32 + (if t.dei then 16 else 0) + t.vid % 4096 / 256
                  && s[15] == t.vid % 256)
  {
    var s, tag := Encode(frame), TagBytes(frame.tag);
    WireLenIsEncodedLength(frame);
    PiecesOfConcatenation(frame.dst, frame.src, tag, BigEndian16(frame.ethertype), frame.payload);
    if frame.tag.Some? {
      TciBytes(frame.tag.value);
      assert s[12..16] == tag;
      assert s[12] == tag[0] && s[13] == tag[1] && s[14] == tag[2] && s[15] == tag[3];
      assert s[16] == s[16..18][0] && s[17] == s[16..18][1];
    } else {
      assert s[12] == s[12..14][0] && s[13] == s[12..14][1];
    }
  }

  lemma TciBytes(t: Dot1qTag)
    ensures ToTci(t) / 256 == (t.pcp % 8) * 32 + (if t.dei then 16 else 0) + t.vid % 4096 / 256
    ensures ToTci(t) % 256 == t.vid % 256
  {
    var high := (t.pcp % 8) * 32 + (if t.dei then 16 else 0);
    assert ToTci(t) == high * 256 + t.vid % 4096;
  }

  /** What the parser makes of any bytes at all: which strings it refuses and why, and where each field
      of the others is read from. There is a tag exactly when 81 00 follows the addresses. */
  lemma ParseFormat(bytes: seq<u8>)
    ensures var tagged := |bytes| >= 14 && bytes[12] == 0x81 && bytes[13] == 0x00;
            if |bytes| < 14 then
              Parse(bytes) == Err(TooShort(|bytes|))
            else if tagged && |bytes| < 18 then
              Parse(bytes) == Err(TruncatedTag(|bytes|))
            else
              var h := if tagged then 16 else 12;
              && Parse(bytes).Ok?
              && var frame := Parse(bytes).value;
                 && frame.dst == bytes[0..6]
                 && frame.src == bytes[6..12]
                 && (frame.tag.Some? <==> tagged)
                 && (tagged ==> frame.tag.value.pcp == bytes[14] / 32
                                && (frame.tag.value.dei <==> bytes[14] / 16 % 2 == 1)
                                && frame.tag.value.vid == bytes[14] as int % 16 * 256 + bytes[15])
                 && frame.ethertype == bytes[h] as int * 256 + bytes[h + 1]
                 && frame.payload == bytes[h + 2..]
  {
    if |bytes| >= 14 {
      assert FromBigEndian16(bytes[12], bytes[13]) == 0x8100 <==> bytes[12] == 0x81 && bytes[13] == 0x00;
      if |bytes| >= 18 {
        TciFields(bytes[14], bytes[15]);
      }
    }
  }

  lemma TciFields(hi: u8, lo: u8)
    ensures FromTci(FromBigEndian16(hi, lo)) == Dot1qTag(hi / 32, hi / 16 % 2 == 1, hi % 16 * 256 + lo)
  {
    var tci := FromBigEndian16(hi, lo);
    assert hi == (hi / 16) * 16 + hi % 16;
    assert tci == (hi / 16) * 4096 + (hi % 16 * 256 + lo);
    assert tci / 0x1000 == hi / 16;
    assert tci / 0x2000 == hi / 32;
  }
}
