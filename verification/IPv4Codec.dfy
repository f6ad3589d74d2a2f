/** The IPv4 half of the packet codec: option framing, marshalling over aliased memory, and parsing back. */
module IPv4Codec {
  import opened Wrappers
  import opened Bytes
  import opened Checksum

  /** The semantic packet. Addresses are four octets, or sixteen for IPv6 and IPv4-mapped ones. */
  datatype IPPacket = IPPacket(
    source: seq<Byte>, destination: seq<Byte>, protocol: int, hopLimit: int, trafficClass: int, flowLabel: nat,
    identification: U16, dontFragment: bool, moreFragments: bool, fragmentOffset: int,
    options: seq<Byte>, payload: seq<Byte>)

  /** An IPv4-mapped IPv6 address stands for its IPv4 address. */
  function Unmap(address: seq<Byte>): (a: seq<Byte>) {
    if |address| == 16 && address[..10] == Zeros(10) && address[10] == 0xFF && address[11] == 0xFF then address[12..] else address
  }

  // ---------------------------------------------------------------- option framing

  const END := 0
  const NOP := 1

  /** The end of the option content at or after `at`: just past End, or the end of the area; none if the framing is broken. */
  function ContentEnd(options: seq<Byte>, at: nat): (end: int)
    requires at <= |options|
    ensures end == -1 || at <= end <= |options|
    decreases |options| - at
  {
    if at == |options| then at
    else if options[at] == END then at + 1
    else if options[at] == NOP then ContentEnd(options, at + 1)
    else if |options| - at < 2 || options[at + 1] < 2 || at + options[at + 1] > |options| then -1
    else ContentEnd(options, at + options[at + 1])
  }

  predicate Framed(options: seq<Byte>) {
    ContentEnd(options, 0) >= 0
  }

  /** The loop that validates the framing and returns the octets through End. */
  method OptionsContentLength(options: seq<Byte>) returns (length: nat, valid: bool)
    ensures valid <==> Framed(options)
    ensures valid ==> length == ContentEnd(options, 0)
  {
    var offset := 0;
    while offset < |options|
      invariant 0 <= offset <= |options|
      invariant ContentEnd(options, 0) == ContentEnd(options, offset)
    {
      if options[offset] == END {
        return offset + 1, true;
      }
      if options[offset] == NOP {
        offset := offset + 1;
        continue;
      }
      if |options| - offset < 2 {
        return 0, false;
      }
      var size := options[offset + 1];
      if size < 2 || size > |options| - offset {
        return 0, false;
      }
      offset := offset + size;
    }
    return |options|, true;
  }

  /** What a sender writes: the content as given, and zeros in place of everything behind End, up to the next word. */
  function Canonical(options: seq<Byte>): (r: seq<Byte>)
    requires Framed(options)
    ensures |r| == CeilTo4(|options|)
  {
    var end := ContentEnd(options, 0);
    options[..end] + Zeros(CeilTo4(|options|) - end)
  }

  /** Replacing everything behind the content by zeros, and appending more, keeps the framing and the content. */
  lemma {:induction false} ZerosKeepContent(options: seq<Byte>, other: seq<Byte>, at: nat)
    requires at <= |options| <= |other|
    requires ContentEnd(options, at) >= 0
    requires other[..ContentEnd(options, at)] == options[..ContentEnd(options, at)]
    requires forall i :: ContentEnd(options, at) <= i < |other| ==> other[i] == 0
    ensures ContentEnd(options, at) <= ContentEnd(other, at)
    decreases |options| - at
  {
    var end := ContentEnd(options, at);
    if at < end {
      assert other[at] == other[..end][at] == options[at];
      if options[at] == NOP {
        ZerosKeepContent(options, other, at + 1);
      } else if options[at] != END {
        assert other[at + 1] == other[..end][at + 1] == options[at + 1];
        ZerosKeepContent(options, other, at + options[at + 1]);
      }
    }
  }

  lemma CanonicalIsStable(options: seq<Byte>)
    requires Framed(options)
    ensures Framed(Canonical(options)) && Canonical(Canonical(options)) == Canonical(options)
  {
    var r := Canonical(options);
    ZerosKeepContent(options, r, 0);
    assert Canonical(r) == r[..ContentEnd(r, 0)] + Zeros(|r| - ContentEnd(r, 0));
  }

  // ---------------------------------------------------------------- layout

  /** The common bounds of an IPv4 or IPv6 fragment's offset, M flag and payload. */
  predicate ValidFragmentPayload(offset: int, more: bool, size: int, maximum: int) {
    && 0 <= offset <= 65528 && offset % 8 == 0 && size >= 0 && maximum >= 0
    && (offset != 0 || more ==> size != 0)
    && (more ==> size % 8 == 0)
    && size <= maximum && offset <= maximum - size
  }

  function HeaderSize(options: seq<Byte>): (n: nat) {
    20 + CeilTo4(|options|)
  }

  /** The checks made before anything is written, in their order; the value is the packet with unmapped addresses. */
  function Layout(p: IPPacket): (r: Result<IPPacket>)
    requires |Unmap(p.source)| == 4
  {
    if |Unmap(p.destination)| != 4 || !(0 <= p.protocol <= 255) || !(0 <= p.hopLimit <= 255) || !(0 <= p.trafficClass <= 255) then Err(Invalid)
    else if p.flowLabel != 0 || |p.options| > 40 || !Framed(p.options) then Err(Invalid)
    else if |p.payload| > 65535 - HeaderSize(p.options) then Err(TooLarge)
    else if !ValidFragmentPayload(p.fragmentOffset, p.moreFragments, |p.payload|, 65535 - 20) then Err(Invalid)
    else Ok(p.(source := Unmap(p.source), destination := Unmap(p.destination)))
  }

  /** A packet that passed every check. */
  predicate Encodable(p: IPPacket) {
    && |p.source| == 4 && |p.destination| == 4
    && 0 <= p.protocol <= 255 && 0 <= p.hopLimit <= 255 && 0 <= p.trafficClass <= 255 && p.flowLabel == 0
    && |p.options| <= 40 && Framed(p.options)
    && HeaderSize(p.options) + |p.payload| <= 65535
    && ValidFragmentPayload(p.fragmentOffset, p.moreFragments, |p.payload|, 65535 - 20)
  }

  lemma LayoutIsEncodable(p: IPPacket)
    requires |Unmap(p.source)| == 4
    ensures Layout(p).Ok? ==> Encodable(Layout(p).value)
    ensures Encodable(p) ==> Layout(p) == Ok(p)
  {
  }

  function FlagWord(p: IPPacket): (w: U16)
    requires 0 <= p.fragmentOffset <= 65528
  {
    p.fragmentOffset / 8 + (if p.dontFragment then 0x4000 else 0) + (if p.moreFragments then 0x2000 else 0)
  }

  /** The fixed fields before the addresses, with a zero checksum. */
  function FixedFields(p: IPPacket): (h: seq<Byte>)
    requires Encodable(p)
    ensures |h| == 12
  {
    [(0x40 + HeaderSize(p.options) / 4) as Byte, p.trafficClass] + Encode16(HeaderSize(p.options) + |p.payload|)
    + Encode16(p.identification) + Encode16(FlagWord(p)) + [p.hopLimit, p.protocol, 0, 0]
  }

  /** The header with a zero checksum. */
  function BareHeader(p: IPPacket): (h: seq<Byte>)
    requires Encodable(p)
    ensures |h| == HeaderSize(p.options)
  {
    FixedFields(p) + p.source + p.destination + Canonical(p.options)
  }

  function Header(p: IPPacket): (h: seq<Byte>)
    requires Encodable(p)
    ensures |h| == HeaderSize(p.options)
  {
    Splice(BareHeader(p), 10, Encode16(Internet(BareHeader(p))))
  }

  function Wire(p: IPPacket): (w: seq<Byte>)
    requires Encodable(p)
    ensures |w| == HeaderSize(p.options) + |p.payload|
  {
    Header(p) + p.payload
  }

  // ---------------------------------------------------------------- parsing

  /** The accepted packets, for octets whose version nibble is 4. */
  predicate Accepts(packet: seq<Byte>) {
    && |packet| >= 20 && packet[0] / 16 == 4
    && var headerSize := packet[0] % 16 * 4;
    var total := Read16(packet, 2);
    var word := Read16(packet, 6);
    && 20 <= headerSize <= total <= |packet|
    && word / 0x8000 == 0
    && (word % 0x4000 != 0 ==>
          ValidFragmentPayload(word % 0x2000 * 8, word / 0x2000 % 2 == 1, total - headerSize, 65535 - 20))
    && Internet(packet[..headerSize]) == 0
    && Framed(packet[20..headerSize])
  }

  /** The IPv4 branch of the parser. Octets beyond the declared length are link-layer padding. */
  function Parse(packet: seq<Byte>): (r: Result<IPPacket>) {
    if !Accepts(packet) then Err(Invalid)
    else
      var headerSize := packet[0] % 16 * 4;
      var word := Read16(packet, 6);
      Ok(IPPacket(
        packet[12..16], packet[16..20], packet[9], packet[8], packet[1], 0,
        Read16(packet, 4), word / 0x4000 % 2 == 1, word / 0x2000 % 2 == 1, word % 0x2000 * 8,
        packet[20..headerSize], packet[headerSize..Read16(packet, 2)]))
  }

  /** The packet a receiver sees: options zeroed behind End and padded to a word. */
  function Normal(p: IPPacket): (n: IPPacket)
    requires Framed(p.options)
  {
    p.(options := Canonical(p.options))
  }

  lemma FlagWordFields(p: IPPacket)
    requires Encodable(p)
    ensures var w := FlagWord(p);
      && w / 0x8000 == 0 && w % 0x2000 * 8 == p.fragmentOffset
      && (w / 0x2000 % 2 == 1 <==> p.moreFragments) && (w / 0x4000 % 2 == 1 <==> p.dontFragment)
  {
    var k := p.fragmentOffset / 8;
    assert p.fragmentOffset == 8 * k && 0 <= k <= 8191;
  }

  /** Each field of the written header, read back. */
  lemma HeaderFields(p: IPPacket)
    requires Encodable(p)
    ensures var h := Header(p);
      && h[0] / 16 == 4 && h[0] % 16 * 4 == |h| && h[1] == p.trafficClass && h[8] == p.hopLimit && h[9] == p.protocol
      && Read16(h, 2) == |h| + |p.payload| && Read16(h, 4) == p.identification && Read16(h, 6) == FlagWord(p)
      && h[12..16] == p.source && h[16..20] == p.destination && h[20..] == Canonical(p.options)
  {
    var f, b, h := FixedFields(p), BareHeader(p), Header(p);
    assert b[..12] == f;
    assert forall i :: 0 <= i < |h| && i != 10 && i != 11 ==> h[i] == b[i];
    assert |h| % 4 == 0 && 20 <= |h| <= 60;
    assert Read16(f, 2) == |h| + |p.payload| && Read16(f, 4) == p.identification && Read16(f, 6) == FlagWord(p);
    assert forall i :: 0 <= i < 10 ==> h[i] == b[..12][i];
    assert b[12..16] == p.source && b[16..20] == p.destination && b[20..] == Canonical(p.options);
    assert h[12..16] == b[12..16] && h[16..20] == b[16..20] && h[20..] == b[20..];
  }

  lemma HeaderVerifies(p: IPPacket)
    requires Encodable(p)
    ensures Internet(Header(p)) == 0
  {
    assert BareHeader(p)[10] == 0 && BareHeader(p)[11] == 0;
    VerifiesExactlyWhenStored(BareHeader(p), 10, Internet(BareHeader(p)));
  }

  lemma ReadPrefix(head: seq<Byte>, rest: seq<Byte>, at: nat)
    requires at + 2 <= |head|
    ensures Read16(head + rest, at) == Read16(head, at)
  {
  }

  /** Parsing what was marshalled, whatever padding follows, returns the normal form of the packet. */
  lemma ParseOfMarshal(p: IPPacket, padding: seq<Byte>)
    requires Encodable(p)
    ensures Parse(Wire(p) + padding) == Ok(Normal(p))
  {
    var h, rest := Header(p), p.payload + padding;
    var packet := Wire(p) + padding;
    assert packet == h + rest;
    HeaderFields(p);
    HeaderVerifies(p);
    FlagWordFields(p);
    CanonicalIsStable(p.options);
    ReadPrefix(h, rest, 2);
    ReadPrefix(h, rest, 4);
    ReadPrefix(h, rest, 6);
    assert packet[..|h|] == h;
    assert packet[12..16] == h[12..16] && packet[16..20] == h[16..20] && packet[20..|h|] == h[20..];
    assert packet[|h|..|h| + |p.payload|] == p.payload;
  }

  /** Normalization is settled after one round: the normal form encodes to the same octets. */
  lemma NormalEncodesTheSame(p: IPPacket)
    requires Encodable(p)
    ensures Encodable(Normal(p)) && Wire(Normal(p)) == Wire(p) && Normal(Normal(p)) == Normal(p)
  {
    CanonicalIsStable(p.options);
    assert BareHeader(Normal(p)) == BareHeader(p);
  }

  /** Marshalling is idempotent through the parser. */
  lemma MarshalIsIdempotent(p: IPPacket)
    requires Encodable(p)
    ensures Parse(Wire(p)).Ok?
    ensures var again := Parse(Wire(p)).value;
      Encodable(again) && Wire(again) == Wire(p) && Parse(Wire(again)) == Ok(again)
  {
    assert Wire(p) + [] == Wire(p);
    ParseOfMarshal(p, []);
    NormalEncodesTheSame(p);
  }

  /** Everything the parser accepts can be marshalled. */
  lemma ParsedIsEncodable(packet: seq<Byte>)
    requires Accepts(packet)
    ensures Encodable(Parse(packet).value)
  {
    var word := Read16(packet, 6);
    if word % 0x4000 == 0 {
      assert word % 0x2000 == 0 && word / 0x2000 % 2 == 0;
    }
  }

  lemma EncodeOfRead(data: seq<Byte>, at: nat)
    requires at + 2 <= |data|
    ensures Encode16(Read16(data, at)) == [data[at], data[at + 1]]
  {
  }

  lemma FlagWordOfParse(packet: seq<Byte>)
    requires Accepts(packet)
    ensures 0 <= Parse(packet).value.fragmentOffset <= 65528 && FlagWord(Parse(packet).value) == Read16(packet, 6)
  {
  }

  lemma FixedOfParse(packet: seq<Byte>)
    requires Accepts(packet) && Encodable(Parse(packet).value)
    ensures FixedFields(Parse(packet).value) == Splice(packet[..12], 10, [0, 0])
  {
    var p := Parse(packet).value;
    EncodeOfRead(packet, 2);
    EncodeOfRead(packet, 4);
    EncodeOfRead(packet, 6);
    FlagWordOfParse(packet);
    assert HeaderSize(p.options) + |p.payload| == Read16(packet, 2);
  }

  /**
   * Re-encoding a received packet reproduces its octets exactly when nothing but zeros follows the option
   * content and the checksum is not the second representation of zero.
   */
  lemma MarshalOfParse(packet: seq<Byte>)
    requires Accepts(packet)
    ensures Encodable(Parse(packet).value)
    ensures var p := Parse(packet).value; var header := packet[..packet[0] % 16 * 4];
      Wire(p) == packet[..Read16(packet, 2)] <==>
      Canonical(p.options) == p.options && !(Read16(packet, 10) == 0xFFFF && Internet(Splice(header, 10, [0, 0])) == 0)
  {
    ParsedIsEncodable(packet);
    var p := Parse(packet).value;
    var header := packet[..packet[0] % 16 * 4];
    assert packet[..Read16(packet, 2)] == header + p.payload;
    SameOctets(p, header);
    if Canonical(p.options) == p.options {
      BareOfParse(packet);
      StoredChecksum(header);
    }
  }

  /** A header whose option area holds End and then an octet that is not zero; without its checksum. */
  function DirtyHeader(): (h: seq<Byte>)
    ensures |h| == 24
  {
    [0x46, 0, 0, 24, 0, 0, 0, 0, 64, 59, 0, 0] + [10, 0, 0, 1] + [10, 0, 0, 2] + [END, 5, 0, 0]
  }

  function DirtyPacket(): (packet: seq<Byte>)
    ensures |packet| == 24
  {
    Splice(DirtyHeader(), 10, Encode16(Internet(DirtyHeader())))
  }

  /** A received packet that re-encoding changes: something stands behind the End of its options. */
  lemma ReencodingChanges()
    ensures Accepts(DirtyPacket()) && Encodable(Parse(DirtyPacket()).value) && Wire(Parse(DirtyPacket()).value) != DirtyPacket()
  {
    VerifiesExactlyWhenStored(DirtyHeader(), 10, Internet(DirtyHeader()));
    DirtyOctets();
    DirtyAccepted(DirtyPacket());
  }

  /** So is every packet like it. */
  lemma DirtyAccepted(w: seq<Byte>)
    requires |w| == 24 && w[0] == 0x46 && Read16(w, 2) == 24 && Read16(w, 6) == 0 && w[20] == END && w[21] != 0 && Internet(w) == 0
    ensures Accepts(w) && Encodable(Parse(w).value) && Wire(Parse(w).value) != w
  {
    var options := w[20..24];
    assert options[0] == END && options[1] == w[21] && ContentEnd(options, 0) == 1;
    assert w[..24] == w && Canonical(options)[1] == 0;
    MarshalOfParse(w);
  }

  lemma DirtyOctets()
    ensures var w := DirtyPacket();
      && w[0] == 0x46 && Read16(w, 2) == 24 && Read16(w, 6) == 0 && w[20] == END && w[21] == 5
  {
    var w, bare := DirtyPacket(), DirtyHeader();
    assert forall i :: 0 <= i < 24 && i != 10 && i != 11 ==> w[i] == bare[i];
    assert bare[0] == 0x46 && bare[2] == 0 && bare[3] == 24 && bare[6] == 0 && bare[7] == 0;
    assert bare[20] == END && bare[21] == 5;
  }

  lemma BareOfParse(packet: seq<Byte>)
    requires Accepts(packet) && Encodable(Parse(packet).value)
    requires Canonical(Parse(packet).value.options) == Parse(packet).value.options
    ensures BareHeader(Parse(packet).value) == Splice(packet[..packet[0] % 16 * 4], 10, [0, 0])
  {
    FixedOfParse(packet);
    var p := Parse(packet).value;
    assert packet[..packet[0] % 16 * 4] == packet[..12] + p.source + p.destination + p.options;
  }

  /** A header that verifies holds its own checksum, unless it holds the other representation of zero. */
  lemma StoredChecksum(header: seq<Byte>)
    requires |header| >= 20 && Internet(header) == 0
    ensures var bare := Splice(header, 10, [0, 0]);
      Splice(bare, 10, Encode16(Internet(bare))) == header <==> !(Read16(header, 10) == 0xFFFF && Internet(bare) == 0)
  {
    var bare := Splice(header, 10, [0, 0]);
    var stored := Read16(header, 10);
    EncodeOfRead(header, 10);
    assert Splice(bare, 10, Encode16(stored)) == header;
    VerifiesExactlyWhenStored(bare, 10, stored);
    SpliceTells(bare, 10, Internet(bare), stored);
  }

  lemma SpliceTells(data: seq<Byte>, at: nat, a: U16, b: U16)
    requires at + 2 <= |data|
    ensures Splice(data, at, Encode16(a)) == Splice(data, at, Encode16(b)) <==> a == b
  {
    assert Read16(Splice(data, at, Encode16(a)), at) == a;
    assert Read16(Splice(data, at, Encode16(b)), at) == b;
  }

  /** Equal packets have equal headers and equal option areas. */
  lemma SameOctets(p: IPPacket, header: seq<Byte>)
    requires Encodable(p) && |header| == HeaderSize(p.options) && |header| >= 20 && header[20..] == p.options
    ensures Wire(p) == header + p.payload <==> Header(p) == header
    ensures Header(p) == header ==> Canonical(p.options) == p.options
  {
    assert Wire(p)[..|header|] == Header(p) && (header + p.payload)[..|header|] == header;
    HeaderFields(p);
  }
}
