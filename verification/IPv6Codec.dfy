/** The IPv6 half of the packet codec: sender normalization of extension headers, marshalling, and parsing back. */
module IPv6Codec {
  import opened Wrappers
  import opened Bytes
  import opened IPv6Chain
  import V4 = IPv4Codec

  type IPPacket = V4.IPPacket

  const PAD_N := 1
  const MAXIMUM_FLOW_LABEL := 0xF_FFFF

  // ---------------------------------------------------------------- normalized options

  /** An option area as a sender writes it: the contents of PadN options are zeros. */
  function NormalOptions(options: seq<Byte>, at: nat): (r: seq<Byte>)
    requires at <= |options| && GoodOptions(options, at)
    ensures |r| == |options| - at
    decreases |options| - at
  {
    if at == |options| then []
    else if options[at] == PAD_ONE then [options[at]] + NormalOptions(options, at + 1)
    else
      var n: int := options[at + 1] as int + 2;
      (if options[at] == PAD_N then [options[at], options[at + 1]] + Zeros(n - 2) else options[at..at + n]) + NormalOptions(options, at + n)
  }

  /** From `at` on, `normal` is the normal form of the options. */
  predicate NormalFrom(options: seq<Byte>, normal: seq<Byte>, at: nat) {
    at <= |options| == |normal| && GoodOptions(options, at) && normal[at..] == NormalOptions(options, at)
  }

  function OptionSize(options: seq<Byte>, at: nat): (n: nat)
    requires at < |options| && GoodOptions(options, at)
    ensures n > 0 && at + n <= |options| && (options[at] != PAD_ONE ==> n >= 2)
  {
    if options[at] == PAD_ONE then 1 else options[at + 1] as int + 2
  }

  /** Normalized options are framed like the original ones, and normalizing them again changes nothing. */
  lemma {:induction false} NormalOptionsStay(options: seq<Byte>, normal: seq<Byte>, at: nat)
    requires NormalFrom(options, normal, at)
    ensures NormalFrom(normal, normal, at)
    decreases |options| - at
  {
    if at < |options| {
      var n := OptionSize(options, at);
      NormalOption(options, normal, at, n);
      NormalOptionsStay(options, normal, at + n);
      NormalBehind(normal, at, n);
    }
  }

  /** One option, octet by octet. */
  lemma NormalOption(options: seq<Byte>, normal: seq<Byte>, at: nat, n: nat)
    requires at < |options| && NormalFrom(options, normal, at) && n == OptionSize(options, at)
    ensures NormalFrom(options, normal, at + n)
    ensures forall i :: at <= i < at + n ==> normal[i] == if options[at] == PAD_N && i >= at + 2 then 0 else options[i]
  {
    var tail := normal[at..];
    assert tail[n..] == normal[at + n..];
    assert forall i :: at <= i < at + n ==> normal[i] == tail[i - at];
  }

  /** A normalized option in front of normalized options. */
  lemma NormalBehind(normal: seq<Byte>, at: nat, n: nat)
    requires at < at + n <= |normal| && NormalFrom(normal, normal, at + n)
    requires if normal[at] == PAD_ONE then n == 1 else at + 1 < |normal| && n == normal[at + 1] as int + 2 && normal[at] != JUMBO
    requires normal[at] == PAD_N ==> forall i :: at + 2 <= i < at + n ==> normal[i] == 0
    ensures NormalFrom(normal, normal, at)
  {
    assert normal[at..] == normal[at..at + n] + normal[at + n..];
    assert normal[at] == PAD_N ==> normal[at..at + n] == [normal[at], normal[at + 1]] + Zeros(n - 2);
  }

  // ---------------------------------------------------------------- normalized headers

  /** A header as a sender writes it; integrity-protected headers are left alone. */
  function NormalHeader(h: Header): (n: Header)
    requires GoodHeader(h)
    ensures n.kind == h.kind && |n.data| == |h.data|
  {
    if HasOptions(h.kind) then h.(data := [h.data[0]] + NormalOptions(h.data[1..], 0))
    else if h.kind == FRAGMENT then h.(data := [0] + Encode16(FieldOf(h.data)) + h.data[3..])
    else h
  }

  /** Offset and More flag without the reserved bits between them. */
  function FieldOf(data: seq<Byte>): (f: U16)
    requires |data| == 7
  {
    OffsetOf(data) + if MoreOf(data) then 1 else 0
  }

  lemma NormalHeaderStays(h: Header)
    requires GoodHeader(h)
    ensures GoodHeader(NormalHeader(h)) && NormalHeader(NormalHeader(h)) == NormalHeader(h)
    ensures h.kind == FRAGMENT ==> OffsetOf(NormalHeader(h).data) == OffsetOf(h.data) && MoreOf(NormalHeader(h).data) == MoreOf(h.data)
  {
    var n := NormalHeader(h);
    if HasOptions(h.kind) {
      assert n.data[1..] == NormalOptions(h.data[1..], 0) == n.data[1..][0..];
      NormalOptionsStay(h.data[1..], n.data[1..], 0);
      assert NormalOptions(n.data[1..], 0) == n.data[1..];
    } else if h.kind == FRAGMENT {
      NormalFieldStays(h.data, n.data);
    }
  }

  lemma NormalFieldStays(data: seq<Byte>, normal: seq<Byte>)
    requires |data| == 7 && normal == [0] + Encode16(FieldOf(data)) + data[3..]
    ensures OffsetOf(normal) == OffsetOf(data) && MoreOf(normal) == MoreOf(data) && normal == [0] + Encode16(FieldOf(normal)) + normal[3..]
  {
    assert Read16(normal, 1) == FieldOf(data);
    assert normal[3..] == data[3..];
  }

  ghost predicate AllGood(headers: seq<Header>) { forall h :: h in headers ==> GoodHeader(h) }

  lemma {:induction false} ProperIsGood(c: Chain, first: bool, seen: bool)
    requires Proper(c, first, seen)
    ensures AllGood(c.headers)
    decreases |c.headers|
  {
    if c.headers != [] {
      var h := c.headers[0];
      if h.kind == FRAGMENT && !Atomic(h.data) {
        assert c.headers == [h];
      } else {
        ProperIsGood(Rest(c), false, seen || h.kind == FRAGMENT);
        assert c.headers == [h] + Rest(c).headers;
      }
    }
  }

  function NormalHeaders(headers: seq<Header>): (n: seq<Header>)
    requires AllGood(headers)
    ensures |n| == |headers|
    ensures forall i :: 0 <= i < |n| ==> n[i] == NormalHeader(headers[i])
  {
    seq(|headers|, i requires 0 <= i < |headers| => NormalHeader(headers[i]))
  }

  function NormalChain(c: Chain): (n: Chain)
    requires AllGood(c.headers)
  {
    c.(headers := NormalHeaders(c.headers))
  }

  lemma NormalRest(c: Chain)
    requires AllGood(c.headers) && c.headers != []
    ensures AllGood(Rest(c).headers) && Rest(NormalChain(c)) == NormalChain(Rest(c))
    ensures NormalChain(c).headers == [NormalHeader(c.headers[0])] + NormalChain(Rest(c)).headers
    ensures First(NormalChain(c)) == First(c) && First(Rest(NormalChain(c))) == First(Rest(c))
  {
    NormalTail(c.headers);
    assert First(NormalChain(Rest(c))) == First(Rest(c));
  }

  lemma NormalTail(headers: seq<Header>)
    requires AllGood(headers) && headers != []
    ensures AllGood(headers[1..]) && NormalHeaders(headers)[1..] == NormalHeaders(headers[1..])
    ensures NormalHeaders(headers) == [NormalHeader(headers[0])] + NormalHeaders(headers[1..])
  {
    assert headers == [headers[0]] + headers[1..];
  }

  /** Normalizing a proper chain leaves a proper chain of the same shape. */
  lemma {:induction false} NormalIsProper(c: Chain, first: bool, seen: bool)
    requires Proper(c, first, seen) && AllGood(c.headers)
    ensures Proper(NormalChain(c), first, seen) && |Encoded(NormalChain(c))| == |Encoded(c)|
    decreases |c.headers|
  {
    if c.headers != [] {
      var h := c.headers[0];
      NormalHeaderStays(h);
      NormalRest(c);
      if h.kind == FRAGMENT && !Atomic(h.data) {
        assert Rest(c) == Chain([], c.protocol, c.payload) && NormalChain(Rest(c)).headers == [];
      } else {
        NormalIsProper(Rest(c), false, seen || h.kind == FRAGMENT);
      }
    }
  }

  /** Doing it again changes nothing, and a fragment stays a fragment. */
  lemma NormalChainStays(c: Chain)
    requires AllGood(c.headers)
    ensures var n := NormalChain(c); AllGood(n.headers) && NormalChain(n) == n && First(n) == First(c) && EndsInFragment(n) == EndsInFragment(c)
  {
    var n := NormalChain(c);
    forall i | 0 <= i < |n.headers| ensures GoodHeader(n.headers[i]) && NormalHeader(n.headers[i]) == n.headers[i] {
      NormalHeaderStays(c.headers[i]);
    }
    assert NormalHeaders(n.headers) == n.headers;
    if c.headers != [] {
      NormalHeaderStays(c.headers[|c.headers| - 1]);
    }
  }

  // ---------------------------------------------------------------- layout

  /** The checks made before anything is written, in their order. */
  function Layout(p: IPPacket): (r: Result<IPPacket>)
    requires |V4.Unmap(p.source)| == 16
  {
    if |V4.Unmap(p.destination)| != 16 || !(0 <= p.protocol <= 255) || !(0 <= p.hopLimit <= 255) || !(0 <= p.trafficClass <= 255) then Err(Invalid)
    else if p.flowLabel > MAXIMUM_FLOW_LABEL || p.identification != 0 || p.dontFragment || p.moreFragments || p.fragmentOffset != 0 || p.options != []
      then Err(Invalid)
    else if |p.payload| > 65535 then Err(TooLarge)
    else if UpperLayer(p.protocol, p.payload, true, false).None? then Err(Invalid)
    else Ok(p)
  }

  /** A packet that passed every check but those of its chain. */
  predicate Framed(p: IPPacket) {
    && |p.source| == 16 && |p.destination| == 16 && V4.Unmap(p.source) == p.source && V4.Unmap(p.destination) == p.destination
    && 0 <= p.protocol <= 255 && 0 <= p.hopLimit <= 255 && 0 <= p.trafficClass <= 255 && p.flowLabel <= MAXIMUM_FLOW_LABEL
    && p.identification == 0 && !p.dontFragment && !p.moreFragments && p.fragmentOffset == 0 && p.options == []
    && |p.payload| <= 65535
  }

  predicate Encodable(p: IPPacket) {
    Framed(p) && Split(p.protocol, p.payload, true, false).Some?
  }

  lemma LayoutIsEncodable(p: IPPacket)
    requires |V4.Unmap(p.source)| == 16
    ensures Layout(p).Ok? ==> Encodable(p) && Layout(p).value == p
    ensures Encodable(p) ==> Layout(p) == Ok(p)
  {
    if 0 <= p.protocol <= 255 {
      UpperLayerAgrees(p.protocol, p.payload, true, false);
    }
  }

  function ChainOf(p: IPPacket): (c: Chain)
    requires Encodable(p)
  {
    Split(p.protocol, p.payload, true, false).value
  }

  lemma ChainIsProper(p: IPPacket)
    requires Encodable(p)
    ensures var c := ChainOf(p); Proper(c, true, false) && First(c) == p.protocol && Encoded(c) == p.payload && AllGood(c.headers)
  {
    JoinOfSplit(p.protocol, p.payload, true, false);
    ProperIsGood(ChainOf(p), true, false);
  }

  /** The packet that carries a chain. */
  function WithChain(p: IPPacket, c: Chain): (q: IPPacket) {
    p.(protocol := First(c), payload := Encoded(c))
  }

  lemma WithChainEncodable(p: IPPacket, c: Chain)
    requires Framed(p) && Proper(c, true, false) && |Encoded(c)| <= 65535
    ensures Encodable(WithChain(p, c)) && ChainOf(WithChain(p, c)) == c
  {
    SplitOfJoin(c, true, false);
  }

  /** The packet a receiver sees. */
  function Normal(p: IPPacket): (q: IPPacket)
    requires Encodable(p)
  {
    ChainIsProper(p);
    WithChain(p, NormalChain(ChainOf(p)))
  }

  lemma NormalStays(p: IPPacket)
    requires Encodable(p)
    ensures AllGood(ChainOf(p).headers)
    ensures Encodable(Normal(p)) && ChainOf(Normal(p)) == NormalChain(ChainOf(p)) && Normal(Normal(p)) == Normal(p)
    ensures |Normal(p).payload| == |p.payload| && Normal(p).protocol == p.protocol
  {
    ChainIsProper(p);
    var c := ChainOf(p);
    NormalIsProper(c, true, false);
    NormalChainStays(c);
    WithChainEncodable(p, NormalChain(c));
  }

  // ---------------------------------------------------------------- the base header

  /** The fixed header of a packet with `size` octets behind it, the first of kind `next`. */
  function BaseHeader(p: IPPacket, next: Byte, size: U16): (h: seq<Byte>)
    requires Framed(p)
    ensures |h| == 40
  {
    FirstWord(p) + Encode16(size) + [next, p.hopLimit] + p.source + p.destination
  }

  function FirstWord(p: IPPacket): (w: seq<Byte>)
    requires Framed(p)
    ensures |w| == 4
  {
    [0x60 + p.trafficClass / 16, p.trafficClass % 16 * 16 + p.flowLabel / 0x1_0000] + Encode16(p.flowLabel % 0x1_0000)
  }

  /** A packet's octets as given, before normalization. */
  function RawWire(p: IPPacket): (w: seq<Byte>)
    requires Framed(p)
  {
    BaseHeader(p, p.protocol, |p.payload|) + p.payload
  }

  function Wire(p: IPPacket): (w: seq<Byte>)
    requires Encodable(p)
  {
    NormalStays(p);
    RawWire(Normal(p))
  }

  // ---------------------------------------------------------------- parsing

  predicate Accepts(packet: seq<Byte>) {
    && |packet| >= 40 && packet[0] / 16 == 6
    && 40 + Read16(packet, 4) <= |packet|
    && |V4.Unmap(packet[8..24])| == 16 && |V4.Unmap(packet[24..40])| == 16
    && UpperLayer(packet[6], packet[40..40 + Read16(packet, 4)], true, false).Some?
  }

  /** The IPv6 branch of the parser. */
  function Parse(packet: seq<Byte>): (r: Result<IPPacket>) {
    if !Accepts(packet) then Err(Invalid)
    else Ok(V4.IPPacket(packet[8..24], packet[24..40], packet[6], packet[7],
      packet[0] % 16 * 16 + packet[1] / 16, packet[1] % 16 * 0x1_0000 + Read16(packet, 2),
      0, false, false, 0, [], packet[40..40 + Read16(packet, 4)]))
  }

  lemma FirstWordFields(p: IPPacket)
    requires Framed(p)
    ensures var w := FirstWord(p); w[0] / 16 == 6 && w[0] % 16 * 16 + w[1] / 16 == p.trafficClass && w[1] % 16 * 0x1_0000 + Read16(w, 2) == p.flowLabel
  {
    var high := p.flowLabel / 0x1_0000;
    assert 0 <= high < 16;
    assert Read16(FirstWord(p), 2) == p.flowLabel % 0x1_0000;
  }

  lemma BaseFields(p: IPPacket, next: Byte, size: U16, rest: seq<Byte>)
    requires Framed(p)
    ensures var w := BaseHeader(p, next, size) + rest;
      && w[..4] == FirstWord(p) && Read16(w, 4) == size && w[6] == next && w[7] == p.hopLimit
      && w[8..24] == p.source && w[24..40] == p.destination && w[40..] == rest
  {
  }

  /** Octets written without normalization parse back to the packet itself. */
  lemma ParseOfRaw(p: IPPacket, padding: seq<Byte>)
    requires Encodable(p)
    ensures Parse(RawWire(p) + padding) == Ok(p)
  {
    var w := RawWire(p) + padding;
    assert w == BaseHeader(p, p.protocol, |p.payload|) + (p.payload + padding);
    BaseFields(p, p.protocol, |p.payload|, p.payload + padding);
    FirstWordFields(p);
    assert forall i :: 0 <= i < 4 ==> w[i] == w[..4][i];
    assert w[40..40 + |p.payload|] == w[40..][..|p.payload|] == p.payload;
    UpperLayerAgrees(p.protocol, p.payload, true, false);
  }

  /** Parsing what was marshalled, whatever padding follows, returns the normal form of the packet. */
  lemma ParseOfMarshal(p: IPPacket, padding: seq<Byte>)
    requires Encodable(p)
    ensures Parse(Wire(p) + padding) == Ok(Normal(p))
  {
    NormalStays(p);
    ParseOfRaw(Normal(p), padding);
  }

  /** Marshalling is idempotent through the parser. */
  lemma MarshalIsIdempotent(p: IPPacket)
    requires Encodable(p)
    ensures Parse(Wire(p)).Ok?
    ensures var again := Parse(Wire(p)).value; Encodable(again) && Wire(again) == Wire(p) && Parse(Wire(again)) == Ok(again)
  {
    assert Wire(p) + [] == Wire(p);
    ParseOfMarshal(p, []);
    NormalStays(p);
  }

  lemma ParsedIsEncodable(packet: seq<Byte>)
    requires Accepts(packet)
    ensures Encodable(Parse(packet).value)
  {
    UpperLayerAgrees(packet[6], packet[40..40 + Read16(packet, 4)], true, false);
  }

  lemma WordOfParse(packet: seq<Byte>)
    requires Accepts(packet) && Framed(Parse(packet).value)
    ensures FirstWord(Parse(packet).value) == packet[..4]
  {
    V4.EncodeOfRead(packet, 2);
    FlowWord(packet[1] % 16, Read16(packet, 2));
    assert packet[..4] == [packet[0], packet[1]] + [packet[2], packet[3]];
  }

  lemma FlowWord(high: nat, low: U16)
    requires high < 16
    ensures var flow := high * 0x1_0000 + low; flow / 0x1_0000 == high && flow % 0x1_0000 == low
  {
  }

  lemma RawOfParse(packet: seq<Byte>)
    requires Accepts(packet) && Framed(Parse(packet).value)
    ensures RawWire(Parse(packet).value) == packet[..40 + Read16(packet, 4)]
  {
    var p := Parse(packet).value;
    WordOfParse(packet);
    V4.EncodeOfRead(packet, 4);
    assert packet[..40 + |p.payload|] == packet[..4] + [packet[4], packet[5]] + [packet[6], packet[7]] + packet[8..24] + packet[24..40] + p.payload;
  }

  // ---------------------------------------------------------------- which received packets are in normal form

  /** From `at` on, every PadN option holds nothing but zeros. */
  predicate PadsAreZero(options: seq<Byte>, at: nat)
    requires at <= |options|
    decreases |options| - at
  {
    if at == |options| then true
    else if options[at] == PAD_ONE then PadsAreZero(options, at + 1)
    else if |options| - at < 2 || at + 2 + options[at + 1] > |options| then true
    else
      var next := at + 2 + options[at + 1];
      (options[at] == PAD_N ==> forall i :: at + 2 <= i < next ==> options[i] == 0) && PadsAreZero(options, next)
  }

  /** What a sender would not change in a header: zeros in PadN options, and in a Fragment header's reserved octet and bits. */
  predicate Clean(kind: Byte, data: seq<Byte>) {
    && (HasOptions(kind) ==> |data| >= 1 && PadsAreZero(data[1..], 0))
    && (kind == FRAGMENT ==> |data| == 7 && data[0] == 0 && Read16(data, 1) / 2 % 4 == 0)
  }

  /** The same of every header in received octets, up to the upper layer or a fragment's octets. */
  predicate CleanOctets(next: Byte, rest: seq<Byte>)
    decreases |rest|
  {
    if !Traversable(next) || LengthOf(next, rest) < 0 then true
    else
      var n := LengthOf(next, rest);
      Clean(next, rest[1..n]) && ((next == FRAGMENT && !Atomic(rest[1..n])) || CleanOctets(rest[0], rest[n..]))
  }

  lemma {:induction false} CleanOptions(options: seq<Byte>, normal: seq<Byte>, at: nat)
    requires NormalFrom(options, normal, at)
    ensures (forall i :: at <= i < |options| ==> normal[i] == options[i]) <==> PadsAreZero(options, at)
    decreases |options| - at
  {
    if at < |options| {
      var n := OptionSize(options, at);
      NormalOption(options, normal, at, n);
      CleanOptions(options, normal, at + n);
    }
  }

  lemma CleanHeader(h: Header)
    requires GoodHeader(h)
    ensures NormalHeader(h) == h <==> Clean(h.kind, h.data)
  {
    if HasOptions(h.kind) {
      var options, normal := h.data[1..], NormalOptions(h.data[1..], 0);
      assert normal[0..] == normal;
      CleanOptions(options, normal, 0);
      assert h.data == [h.data[0]] + options && NormalHeader(h).data[1..] == normal;
    } else if h.kind == FRAGMENT {
      CleanFragment(h.data);
    }
  }

  lemma CleanFragment(data: seq<Byte>)
    requires |data| == 7
    ensures [0] + Encode16(FieldOf(data)) + data[3..] == data <==> data[0] == 0 && Read16(data, 1) / 2 % 4 == 0
  {
    var normal := [0] + Encode16(FieldOf(data)) + data[3..];
    assert Read16(normal, 1) == FieldOf(data);
    V4.EncodeOfRead(data, 1);
    assert data == [data[0]] + [data[1], data[2]] + data[3..];
    NoReserved(Read16(data, 1));
  }

  lemma NoReserved(v: U16)
    ensures v / 8 * 8 + v % 2 == v <==> v / 2 % 4 == 0
  {
  }

  /** The octets show whether the headers are in normal form. */
  lemma {:induction false} CleanChain(next: Byte, rest: seq<Byte>, first: bool, seen: bool)
    requires Split(next, rest, first, seen).Some?
    ensures var c := Split(next, rest, first, seen).value;
      AllGood(c.headers) && ((forall h :: h in c.headers ==> NormalHeader(h) == h) <==> CleanOctets(next, rest))
    decreases |rest|
  {
    JoinOfSplit(next, rest, first, seen);
    var c := Split(next, rest, first, seen).value;
    ProperIsGood(c, first, seen);
    if Traversable(next) {
      var n := LengthOf(next, rest);
      var h := Header(next, rest[1..n]);
      assert c.headers[0] == h && h in c.headers;
      CleanHeader(h);
      if next == FRAGMENT && !Atomic(h.data) {
        assert c.headers == [h];
      } else {
        CleanChain(rest[0], rest[n..], false, seen || next == FRAGMENT);
        assert c.headers == [h] + Split(rest[0], rest[n..], false, seen || next == FRAGMENT).value.headers;
      }
    }
  }

  lemma NormalOnce(c: Chain)
    requires AllGood(c.headers)
    ensures NormalChain(c) == c <==> forall h :: h in c.headers ==> NormalHeader(h) == h
  {
    if NormalChain(c) == c {
      forall h | h in c.headers ensures NormalHeader(h) == h {
        var i :| 0 <= i < |c.headers| && c.headers[i] == h;
        assert NormalHeaders(c.headers)[i] == NormalHeader(h);
      }
    } else {
      assert NormalHeaders(c.headers) != c.headers;
      var i :| 0 <= i < |c.headers| && NormalHeaders(c.headers)[i] != c.headers[i];
      assert c.headers[i] in c.headers;
    }
  }

  /**
   * Re-encoding a received packet reproduces its octets exactly when every PadN option in it holds zeros and its Fragment
   * header's reserved octet and bits are zero.
   */
  lemma MarshalOfParse(packet: seq<Byte>)
    requires Accepts(packet)
    ensures Encodable(Parse(packet).value)
    ensures Wire(Parse(packet).value) == packet[..40 + Read16(packet, 4)] <==> CleanOctets(packet[6], packet[40..40 + Read16(packet, 4)])
  {
    ParsedIsEncodable(packet);
    var p := Parse(packet).value;
    NormalStays(p);
    RawOfParse(packet);
    ChainIsProper(p);
    CleanChain(p.protocol, p.payload, true, false);
    NormalOnce(ChainOf(p));
    if Wire(p) == RawWire(p) {
      assert Wire(p)[40..] == Normal(p).payload && RawWire(p)[40..] == p.payload;
      assert Normal(p) == p;
    }
  }

  /** A packet with a Destination Options header that holds one PadN option, and nothing else. */
  function PaddedPacket(): (packet: seq<Byte>) {
    [0x60, 0, 0, 0, 0, 8, DESTINATION, 64] + seq(16, _ => 1) + seq(16, _ => 2) + [NO_NEXT_HEADER, 0, PAD_N, 4, 0, 1, 0, 0]
  }

  lemma AreaOf(header: seq<Byte>)
    requires |header| == 8
    ensures header[2..8] == header[2..] && header[1..8][1..] == header[2..]
  {
  }

  /** A received packet that re-encoding changes: its PadN option holds an octet that is not zero. */
  lemma ReencodingChanges()
    ensures Accepts(PaddedPacket()) && Encodable(Parse(PaddedPacket()).value)
    ensures Wire(Parse(PaddedPacket()).value) != PaddedPacket()
  {
    var w := PaddedPacket();
    var payload := [NO_NEXT_HEADER, 0, PAD_N, 4, 0, 1, 0, 0];
    var options := payload[2..];
    assert Read16(w, 4) == 8 && w[40..48] == payload && w[..48] == w;
    assert w[8] == 1 && w[24] == 2 && w[8..24][0] == 1 && w[24..40][0] == 2;
    AreaOf(payload);
    assert options[0] == PAD_N && options[1] == 4;
    assert GoodOptions(options, 6);
    assert GoodOptions(options, 0);
    assert UpperLayer(NO_NEXT_HEADER, payload[8..], false, false).Some?;
    assert LengthOf(DESTINATION, payload) == 8;
    assert options[0] == PAD_N && options[1] == 4 && options[3] == 1;
    assert !PadsAreZero(options, 0);
    assert !CleanOctets(DESTINATION, payload);
    MarshalOfParse(w);
  }
}
