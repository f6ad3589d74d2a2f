/** Fragments of an IPv6 packet, arriving in any order with any repeats, restore it without its atomic Fragment header. */
module IPv6RoundTrip {
  import opened Wrappers
  import opened Bytes
  import opened IPv6Chain
  import opened IPv6Codec
  import opened IPv6Fragments
  import opened FragmentRanges
  import Public = PublicReassembly
  import Reassembly
  import PacketCodec
  import ArrivalOrder
  import V4 = IPv4Codec

  // ---------------------------------------------------------------- where the receiver finds the Fragment header

  /** Headers before a Fragment header are passed one by one. */
  lemma {:induction false} PlainSuffix(c: Chain, first: bool, seen: bool, i: nat)
    requires Proper(c, first, seen) && i <= |c.headers| && forall j :: 0 <= j < i ==> c.headers[j].kind != FRAGMENT
    ensures Proper(Suffix(c, i), first && i == 0, seen)
    decreases i
  {
    if i == 0 {
      assert Suffix(c, 0) == c;
    } else {
      assert forall j :: 0 <= j < i - 1 ==> Rest(c).headers[j] == c.headers[j + 1];
      PlainSuffix(Rest(c), false, seen, i - 1);
      assert Suffix(Rest(c), i - 1) == Suffix(c, i);
    }
  }

  lemma PlainAt(c: Chain, i: nat)
    requires Proper(c, true, false) && i < |c.headers| && forall j :: 0 <= j < i ==> c.headers[j].kind != FRAGMENT
    ensures var at := Size(c.headers[..i]); var h := c.headers[i]; var octets := Encoded(c);
      && at <= |octets| && Traversable(h.kind) && LengthOf(h.kind, octets[at..]) == 1 + |h.data|
      && octets[at..][0] == KindAt(c, i + 1) && octets[at..][1..1 + |h.data|] == h.data
      && octets[at..][1 + |h.data|..] == Encoded(Suffix(c, i + 1)) && Size(c.headers[..i + 1]) == at + 1 + |h.data| <= |octets|
  {
    EncodedSplits(c, i);
    SizeSnoc(c.headers, i);
    PlainSuffix(c, true, false, i);
    EncodedFront(Suffix(c, i));
    assert Rest(Suffix(c, i)) == Suffix(c, i + 1);
  }

  /** One header the locator passes. */
  lemma LocateStep(c: Chain, i: nat)
    requires Proper(c, true, false) && i < |c.headers| && forall j :: 0 <= j <= i ==> c.headers[j].kind != FRAGMENT
    ensures PreviousAt(c.headers, i) < Size(c.headers[..i]) < Size(c.headers[..i + 1]) <= |Encoded(c)|
    ensures PreviousAt(c.headers, i + 1) == Size(c.headers[..i])
    ensures Locate(KindAt(c, i), Encoded(c), Size(c.headers[..i]), PreviousAt(c.headers, i))
      == Locate(KindAt(c, i + 1), Encoded(c), Size(c.headers[..i + 1]), PreviousAt(c.headers, i + 1))
  {
    PlainAt(c, i);
    PreviousBefore(c.headers, i);
    LocatePasses(KindAt(c, i), Encoded(c), Size(c.headers[..i]), PreviousAt(c.headers, i), 1 + |c.headers[i].data|);
  }

  lemma LocatePasses(next: Byte, octets: seq<Byte>, at: nat, previous: int, n: nat)
    requires at <= |octets| && -1 <= previous < at && Traversable(next) && next != FRAGMENT && LengthOf(next, octets[at..]) == n
    ensures at + n <= |octets| && Locate(next, octets, at, previous) == Locate(octets[at..][0], octets, at + n, at)
  {
  }

  /** The locator stops at the first Fragment header. */
  lemma {:induction false} LocatedAt(c: Chain, k: nat, i: nat)
    requires Proper(c, true, false) && i <= k < |c.headers| && c.headers[k].kind == FRAGMENT
    requires forall j :: 0 <= j < k ==> c.headers[j].kind != FRAGMENT
    ensures Size(c.headers[..i]) <= |Encoded(c)| && PreviousAt(c.headers, i) < Size(c.headers[..i])
    ensures Locate(KindAt(c, i), Encoded(c), Size(c.headers[..i]), PreviousAt(c.headers, i))
      == Some(Place(Size(c.headers[..k]), LinkOf(PreviousAt(c.headers, k))))
    decreases k - i
  {
    if i < k {
      LocateStep(c, i);
      LocatedAt(c, k, i + 1);
    } else {
      PlainAt(c, k);
      PreviousBefore(c.headers, k);
    }
  }

  /** So does the accessor. */
  lemma {:induction false} FoundAt(c: Chain, k: nat, i: nat)
    requires Proper(c, true, false) && i <= k < |c.headers| && c.headers[k].kind == FRAGMENT
    requires forall j :: 0 <= j < k ==> c.headers[j].kind != FRAGMENT
    ensures Size(c.headers[..i]) <= |Encoded(c)|
    ensures FragmentOf(KindAt(c, i), Encoded(c)[Size(c.headers[..i])..]) == Some(View(KindAt(c, k + 1), c.headers[k].data, Encoded(Suffix(c, k + 1))))
    decreases k - i
  {
    PlainAt(c, i);
    if i < k {
      FoundAt(c, k, i + 1);
      assert Encoded(c)[Size(c.headers[..i])..][1 + |c.headers[i].data|..] == Encoded(c)[Size(c.headers[..i + 1])..];
    }
  }

  lemma PreviousBefore(headers: seq<Header>, i: nat)
    requires i <= |headers|
    ensures -1 <= PreviousAt(headers, i) < Size(headers[..i])
    ensures LinkOf(PreviousAt(headers, i)) == Link(headers[..i])
    ensures i < |headers| ==> PreviousAt(headers, i + 1) == Size(headers[..i])
  {
    if i > 0 {
      SizeSnoc(headers, i - 1);
      assert headers[..i][..i - 1] == headers[..i - 1];
    }
  }

  // ---------------------------------------------------------------- what the receiver makes of one fragment

  /** The machine's view of the fragment that carries `range`. */
  ghost predicate Seen(q: Template, d: WholeChain, range: Range, id: nat, f: Reassembly.Fragment) {
    var k := PerFragment(d);
    && Carriable(d, k, range, id)
    && f.v6 && f.source == q.source && f.target == q.destination && f.identifier == id && f.ecn == q.trafficClass % 4 && !f.df && f.packetSize > 0
    && f.offset == range.offset && f.more == range.more && f.payload == Body(d)[range.offset..range.End()]
    && (range.offset == 0 ==>
          && f.protocol == KindAt(d, k) && f.nextHeader == Link(d.headers[..k])
          && f.maximum == 65535 - Size(d.headers[..k])
          && f.header == Front(q, d.headers[..k], FRAGMENT, Size(d.headers[..k]) + 8 + range.size))
  }

  /** The positions in one fragment. */
  lemma FragmentPlaces(q: Template, d: WholeChain, range: Range, id: nat)
    requires Carriable(d, PerFragment(d), range, id)
    ensures var k := PerFragment(d); var p := FragmentPacket(q, d, k, range, id); var data := FragmentData(range, id);
      && FragmentOf(p.protocol, p.payload) == Some(View(KindAt(d, k), data, Body(d)[range.offset..range.End()]))
      && Locate(p.protocol, p.payload, 0, -1) == Some(Place(Size(d.headers[..k]), Link(d.headers[..k])))
      && |p.payload| == Size(d.headers[..k]) + 8 + range.size
  {
    var k := PerFragment(d);
    FragmentIsProper(d, k, range, id);
    FragmentFound(d, k, range, id, FragmentChain(d, k, range, id));
    FragmentLocated(d, k, range, id, FragmentChain(d, k, range, id));
  }

  lemma FragmentFound(d: WholeChain, k: nat, range: Range, id: nat, f: Chain)
    requires Carriable(d, k, range, id) && f == FragmentChain(d, k, range, id) && Proper(f, true, false)
    ensures FragmentOf(First(f), Encoded(f)) == Some(View(KindAt(d, k), FragmentData(range, id), Encoded(Suffix(d, k))[range.offset..range.End()]))
  {
    assert forall j :: 0 <= j < k ==> f.headers[j] == d.headers[j] && d.headers[j] in d.headers;
    FoundAt(f, k, 0);
    assert f.headers[..0] == [] && Encoded(f)[0..] == Encoded(f);
    assert Suffix(f, k + 1) == Chain([], f.protocol, f.payload);
  }

  lemma FragmentLocated(d: WholeChain, k: nat, range: Range, id: nat, f: Chain)
    requires Carriable(d, k, range, id) && f == FragmentChain(d, k, range, id) && Proper(f, true, false)
    ensures Locate(First(f), Encoded(f), 0, -1) == Some(Place(Size(d.headers[..k]), Link(d.headers[..k])))
  {
    assert forall j :: 0 <= j < k ==> f.headers[j] == d.headers[j] && d.headers[j] in d.headers;
    LocatedAt(f, k, 0);
    PreviousBefore(f.headers, k);
    assert f.headers[..k] == d.headers[..k] && f.headers[..0] == [];
  }

  /** A receiver accepts every fragment: the first one passes the check that it holds all headers. */
  lemma FragmentIsSeen(q: Template, d: WholeChain, range: Range, id: nat)
    requires Carriable(d, PerFragment(d), range, id)
    requires range.offset == 0 ==> HeadersEnd(KindAt(d, PerFragment(d)), Body(d)[..range.size]) >= 0
    ensures var p := FragmentPacket(q, d, PerFragment(d), range, id);
      Public.PublicFragment(p).Ok? && Seen(q, d, range, id, Public.PublicFragment(p).value)
  {
    var k := PerFragment(d);
    var p := FragmentPacket(q, d, k, range, id);
    FragmentEncodable(q, d, k, range, id);
    FragmentPlaces(q, d, range, id);
    var view := View(KindAt(d, k), FragmentData(range, id), Body(d)[range.offset..range.End()]);
    var place := Place(Size(d.headers[..k]), Link(d.headers[..k]));
    assert Body(d)[0..range.size] == Body(d)[..range.size];
    Accepted(p, view, place);
    ViewIsSeen(q, d, range, id, view, place);
  }

  lemma Accepted(p: IPPacket, view: View, place: Place)
    requires Encodable(p) && FragmentOf(p.protocol, p.payload) == Some(view) && Locate(p.protocol, p.payload, 0, -1) == Some(place)
    requires |view.data| == 7 && !Atomic(view.data) && place.header + 8 <= |p.payload|
    requires OffsetOf(view.data) == 0 ==> HeadersEnd(view.protocol, view.payload) >= 0
    ensures Public.PublicFragment(p) == Ok(Public.ViewOf6(p, view, place))
  {
    LayoutIsEncodable(p);
  }

  lemma ViewIsSeen(q: Template, d: WholeChain, range: Range, id: nat, view: View, place: Place)
    requires Carriable(d, PerFragment(d), range, id)
    requires view == View(KindAt(d, PerFragment(d)), FragmentData(range, id), Body(d)[range.offset..range.End()])
    requires place == Place(Size(d.headers[..PerFragment(d)]), Link(d.headers[..PerFragment(d)]))
    ensures var p := FragmentPacket(q, d, PerFragment(d), range, id);
      Encodable(p) && place.header + 8 <= |p.payload| && Seen(q, d, range, id, Public.ViewOf6(p, view, place))
  {
    FragmentEncodable(q, d, PerFragment(d), range, id);
    FrontOfFragment(q, d, range, id);
    var w := FragmentWire(q, d, PerFragment(d), range, id);
    assert w[40..] == FragmentPacket(q, d, PerFragment(d), range, id).payload;
  }

  /** The front of a fragment's octets, and what follows its Fragment header. */
  lemma FrontOfFragment(q: Template, d: WholeChain, range: Range, id: nat)
    requires Carriable(d, PerFragment(d), range, id)
    ensures var k := PerFragment(d); var w := FragmentWire(q, d, k, range, id); var at := 40 + Size(d.headers[..k]);
      && at + 8 <= |w| && w[..at] == Front(q, d.headers[..k], FRAGMENT, Size(d.headers[..k]) + 8 + range.size)
      && w[at + 8..] == Body(d)[range.offset..range.End()]
      && w[40..][Size(d.headers[..k]) + 8..] == w[at + 8..]
  {
    FragmentOctets(q, d, PerFragment(d), range, id);
  }

  // ---------------------------------------------------------------- the fragments are a split of the datagram

  /** The datagram as the receiver reassembles it; its header is that of the first fragment. */
  function Origin(q: Template, d: WholeChain, first: nat): (o: ArrivalOrder.Datagram)
    requires Size(d.headers[..PerFragment(d)]) + 8 + first <= 65535
  {
    var hs := d.headers[..PerFragment(d)];
    ArrivalOrder.Datagram(true, KindAt(d, PerFragment(d)), Front(q, hs, FRAGMENT, Size(hs) + 8 + first), Link(hs), false, Body(d))
  }

  /** Views of the fragments of a plan. */
  ghost predicate AllSeen(q: Template, d: WholeChain, ranges: seq<Range>, id: nat, fs: seq<Reassembly.Fragment>) {
    |fs| == |ranges| && forall n :: 0 <= n < |fs| ==> Seen(q, d, ranges[n], id, fs[n]) && Reassembly.ValidFragment(fs[n])
  }

  lemma SeenIsPart(q: Template, d: WholeChain, ranges: seq<Range>, capacity: int, id: nat, fs: seq<Reassembly.Fragment>, n: nat)
    requires Tiles(ranges, 0, |Body(d)|, capacity) && AllSeen(q, d, ranges, id, fs) && n < |fs|
    ensures Size(d.headers[..PerFragment(d)]) + 8 + ranges[0].size <= 65535
    ensures ArrivalOrder.PartOf(Origin(q, d, ranges[0].size), fs[n])
  {
    assert Seen(q, d, ranges[0], id, fs[0]) && Seen(q, d, ranges[n], id, fs[n]);
    TileEnds(ranges, 0, |Body(d)|, capacity, n);
    BodySize(d);
    if n > 0 {
      LaterStarts(ranges, |Body(d)|, capacity, n);
    }
  }

  lemma {:induction false} LaterStarts(ranges: seq<Range>, total: nat, capacity: int, n: nat)
    requires Tiles(ranges, 0, total, capacity) && 0 < n < |ranges|
    ensures ranges[n].offset > 0
  {
    if n > 1 {
      LaterStarts(ranges, total, capacity, n - 1);
    }
  }

  lemma SeenIsSplit(q: Template, d: WholeChain, ranges: seq<Range>, capacity: int, id: nat, fs: seq<Reassembly.Fragment>)
    requires Tiles(ranges, 0, |Body(d)|, capacity) && AllSeen(q, d, ranges, id, fs) && |fs| > 0
    ensures Size(d.headers[..PerFragment(d)]) + 8 + ranges[0].size <= 65535
    ensures ArrivalOrder.Split(Origin(q, d, ranges[0].size), fs)
    ensures ArrivalOrder.EcnOf(fs, ArrivalOrder.Everything(fs)) == {q.trafficClass % 4}
  {
    SeenIsPart(q, d, ranges, capacity, id, fs, 0);
    forall n | 0 <= n < |fs| ensures ArrivalOrder.PartOf(Origin(q, d, ranges[0].size), fs[n]) {
      SeenIsPart(q, d, ranges, capacity, id, fs, n);
    }
    assert forall n :: 0 <= n < |fs| ==> Seen(q, d, ranges[n], id, fs[n]);
    BodySize(d);
    assert 0 in ArrivalOrder.Everything(fs);
    assert ArrivalOrder.EcnOf(fs, ArrivalOrder.Everything(fs)) == {q.trafficClass % 4};
  }

  // ---------------------------------------------------------------- what they restore

  /** Marking a datagram with the ECN of its fragments, all of which carry its own, changes nothing. */
  lemma SameEcn(q: Template, hs: seq<Header>, next: Byte, size: U16, ecn: nat)
    requires ecn == Reassembly.CombinedEcn({q.trafficClass % 4})
    ensures Reassembly.RaiseBits(Front(q, hs, next, size)[1], 16, ecn) == Front(q, hs, next, size)[1]
  {
    var b := Front(q, hs, next, size)[1];
    var low := q.flowLabel / 0x1_0000;
    assert 0 <= low < 16 && b == q.trafficClass % 16 * 16 + low;
    assert b / 16 % 4 == q.trafficClass % 4;
  }

  /** The rebuilt header is the front with the other link and size. */
  lemma HeaderRestored(q: Template, hs: seq<Header>, next: Byte, size: U16, total: nat, ecn: nat, whole: U16)
    requires whole == Size(hs) + total && ecn in {0, 3}
    requires var front := Front(q, hs, FRAGMENT, size); Reassembly.RaiseBits(front[1], 16, ecn) == front[1]
    ensures Link(hs) < 40 + Size(hs)
    ensures Reassembly.WholeHeader6(Front(q, hs, FRAGMENT, size), Link(hs), next, total, ecn) == Front(q, hs, next, whole)
  {
    FrontAgain(q, hs, FRAGMENT, next, size);
    FrontResized(q, hs, next, size, whole);
    Rebuilt(Front(q, hs, FRAGMENT, size), Link(hs), next, total, ecn, Front(q, hs, next, size), whole);
  }

  lemma Rebuilt(header: seq<Byte>, link: nat, next: Byte, total: nat, ecn: nat, relinked: seq<Byte>, size: nat)
    requires 40 <= |header| && link < |header| && size == |header| - 40 + total <= 65535 && ecn in {0, 3}
    requires Reassembly.RaiseBits(header[1], 16, ecn) == header[1] && header[link := next] == relinked
    ensures Reassembly.WholeHeader6(header, link, next, total, ecn) == Splice(relinked, 4, Encode16(size))
  {
    assert header[1 := header[1]] == header;
  }

  /** Relinking and resizing the first fragment's front gives back the front of the datagram. */
  lemma FrontRestored(q: Template, d: WholeChain, first: nat)
    requires Size(d.headers[..PerFragment(d)]) + 8 + first <= 65535
    ensures ArrivalOrder.Fits(Origin(q, d, first))
    ensures ArrivalOrder.Restored(Origin(q, d, first), {q.trafficClass % 4}) == RawWire(WithChain(q, d))
  {
    var k := PerFragment(d);
    var hs, ecn := d.headers[..k], Reassembly.CombinedEcn({q.trafficClass % 4});
    BodySize(d);
    SameEcn(q, hs, FRAGMENT, Size(hs) + 8 + first, ecn);
    HeaderRestored(q, hs, KindAt(d, k), Size(hs) + 8 + first, |Body(d)|, ecn, |Encoded(d)|);
    FrontSplits(q, d, k);
  }

  // ---------------------------------------------------------------- the main theorem

  /** A packet as it is sent: normalized, and without an atomic Fragment header. */
  ghost function Sent(p: IPPacket): (s: IPPacket)
    requires Encodable(p)
  {
    NormalStays(p);
    WithChain(Normal(p), Whole(ChainOf(Normal(p))))
  }

  /** What is restored encodes to exactly its octets; without a Fragment header in the original it is the original encoding. */
  lemma SentEncodes(p: IPPacket)
    requires Encodable(p) && !EndsInFragment(ChainOf(p))
    ensures Encodable(Sent(p)) && Wire(Sent(p)) == RawWire(Sent(p)) && Normal(Sent(p)) == Sent(p)
    ensures (forall h :: h in ChainOf(p).headers ==> h.kind != FRAGMENT) ==> Sent(p) == Normal(p) && Wire(Sent(p)) == Wire(p)
  {
    NormalStays(p);
    NormalChainForm(ChainOf(p));
    NormalChainStays(ChainOf(p));
    WholeEncodes(Normal(p));
    if forall h :: h in ChainOf(p).headers ==> h.kind != FRAGMENT {
      NothingToRemove(ChainOf(p));
      ChainIsProper(Normal(p));
    }
  }

  lemma WholeEncodes(q: IPPacket)
    requires Encodable(q) && InNormalForm(ChainOf(q).headers) && !EndsInFragment(ChainOf(q))
    ensures var s := WithChain(q, Whole(ChainOf(q))); Encodable(s) && Normal(s) == s && Wire(s) == RawWire(s)
  {
    var c := ChainOf(q);
    ChainIsProper(q);
    WholeIsProper(c);
    WholeKeeps(c);
    forall h | h in Whole(c).headers ensures h in c.headers {
    }
    NormalFormStays(Whole(c));
    WithChainEncodable(q, Whole(c));
  }

  lemma NothingToRemove(c: Chain)
    requires AllGood(c.headers) && forall h :: h in c.headers ==> h.kind != FRAGMENT
    ensures Whole(NormalChain(c)) == NormalChain(c)
  {
    var n := NormalChain(c);
    assert forall i :: 0 <= i < |n.headers| ==> n.headers[i].kind == c.headers[i].kind && c.headers[i] in c.headers;
  }

  function Indices(ws: seq<seq<Byte>>): (all: set<nat>) {
    set n: nat {:trigger ws[n]} | n < |ws|
  }

  /** What the receiver parses from the packets as they arrive. */
  function Delivered(ws: seq<seq<Byte>>, order: seq<nat>): (ps: seq<IPPacket>)
    requires forall i :: 0 <= i < |order| ==> order[i] < |ws| && PacketCodec.ParseIPPacket(ws[order[i]]).Ok?
  {
    seq(|order|, i requires 0 <= i < |order| => PacketCodec.ParseIPPacket(ws[order[i]]).value)
  }

  /** Octet for octet, a fragment's packet parses back to what was encoded. */
  lemma RawParses(p: IPPacket)
    requires Encodable(p)
    ensures PacketCodec.ParseIPPacket(RawWire(p)) == Ok(p)
  {
    ParseOfRaw(p, []);
    assert RawWire(p) + [] == RawWire(p);
  }

  /** A packet that its receiver parses and accepts as a fragment. */
  predicate Readable(w: seq<Byte>) {
    PacketCodec.ParseIPPacket(w).Ok? && Public.PublicFragment(PacketCodec.ParseIPPacket(w).value).Ok?
  }

  function Reading(w: seq<Byte>): (f: Reassembly.Fragment)
    requires Readable(w)
  {
    Public.PublicFragment(PacketCodec.ParseIPPacket(w).value).value
  }

  ghost predicate WireSeen(q: Template, d: WholeChain, range: Range, id: nat, w: seq<Byte>) {
    Readable(w) && Seen(q, d, range, id, Reading(w)) && Reassembly.ValidFragment(Reading(w))
  }

  /** One packet of a plan: it parses, and the receiver accepts what it parses to. */
  lemma WireIsSeen(q: Template, d: WholeChain, mtu: nat, id: nat, n: nat)
    requires |Encoded(d)| > mtu - 48 && mtu <= 40 + 65535 && id < 0x1_0000_0000 && Serves(d, mtu)
    requires n < |CutWhole(q, d, mtu, id).value|
    ensures n < |Plan(0, |Body(d)|, Capacity(d, mtu))|
    ensures WireSeen(q, d, Plan(0, |Body(d)|, Capacity(d, mtu))[n], id, CutWhole(q, d, mtu, id).value[n])
  {
    var ranges := Plan(0, |Body(d)|, Capacity(d, mtu));
    PlanTiles(0, |Body(d)|, Capacity(d, mtu));
    WireAt(q, d, ranges, mtu, id, n);
    if ranges[n].offset == 0 {
      FirstHoldsHeaders(d, mtu, n);
    }
    FragmentWireIsSeen(q, d, ranges[n], id);
  }

  lemma FragmentWireIsSeen(q: Template, d: WholeChain, range: Range, id: nat)
    requires Carriable(d, PerFragment(d), range, id)
    requires range.offset == 0 ==> HeadersEnd(KindAt(d, PerFragment(d)), Body(d)[..range.size]) >= 0
    ensures WireSeen(q, d, range, id, FragmentWire(q, d, PerFragment(d), range, id))
  {
    var p := FragmentPacket(q, d, PerFragment(d), range, id);
    FragmentEncodable(q, d, PerFragment(d), range, id);
    RawParses(p);
    FragmentIsSeen(q, d, range, id);
    Public.PublicIsValid(p);
  }

  /** The first of several ranges holds every header, as section 5 of RFC 7112 demands. */
  lemma FirstHoldsHeaders(d: WholeChain, mtu: nat, n: nat)
    requires |Encoded(d)| > mtu - 48 && Serves(d, mtu)
    requires n < |Plan(0, |Body(d)|, Capacity(d, mtu))| && Plan(0, |Body(d)|, Capacity(d, mtu))[n].offset == 0
    ensures var range := Plan(0, |Body(d)|, Capacity(d, mtu))[n];
      range.size <= |Body(d)| && HeadersEnd(KindAt(d, PerFragment(d)), Body(d)[..range.size]) >= 0
  {
    var ranges := Plan(0, |Body(d)|, Capacity(d, mtu));
    PlanTiles(0, |Body(d)|, Capacity(d, mtu));
    BodySize(d);
    if n > 0 {
      LaterStarts(ranges, |Body(d)|, Capacity(d, mtu), n);
    }
    assert |Body(d)| > Capacity(d, mtu) && ranges[0] == Range(0, FloorTo8(Capacity(d, mtu)), true);
    HeadersSurviveCut(KindAt(d, PerFragment(d)), Body(d), FloorTo8(Capacity(d, mtu)));
  }

  function Readings(ws: seq<seq<Byte>>): (fs: seq<Reassembly.Fragment>)
    requires forall n :: 0 <= n < |ws| ==> Readable(ws[n])
    ensures |fs| == |ws| && forall n :: 0 <= n < |fs| ==> fs[n] == Reading(ws[n])
  {
    seq(|ws|, n requires 0 <= n < |ws| => Reading(ws[n]))
  }

  /** Views of the same datagram match one assembly. */
  lemma ArrivalsMatch(q: Template, d: WholeChain, ranges: seq<Range>, id: nat, ws: seq<seq<Byte>>, order: seq<nat>)
    requires |ws| == |ranges| && |order| > 0
    requires forall n :: 0 <= n < |ws| ==> Readable(ws[n]) && WireSeen(q, d, ranges[n], id, ws[n])
    requires forall i :: 0 <= i < |order| ==> order[i] < |ws|
    ensures AllSeen(q, d, ranges, id, Readings(ws))
    ensures Public.SameDatagram(Reassembly.Started(Readings(ws)[order[0]]), Delivered(ws, order), ArrivalOrder.Arrivals(Readings(ws), order))
  {
    var fs := Readings(ws);
    assert WireSeen(q, d, ranges[order[0]], id, ws[order[0]]);
    forall i | 0 <= i < |order| ensures Reassembly.Matches(Reassembly.Started(fs[order[0]]), fs[order[i]]) {
      assert WireSeen(q, d, ranges[order[i]], id, ws[order[i]]);
    }
  }

  lemma CutRestores(q: Template, d: WholeChain, mtu: nat, id: nat, order: seq<nat>)
    requires |Encoded(d)| > mtu - 48 && mtu <= 40 + 65535 && id < 0x1_0000_0000 && Serves(d, mtu)
    requires var ws := CutWhole(q, d, mtu, id).value;
      |order| > 0 && (forall i :: 0 <= i < |order| ==> order[i] < |ws|) && ArrivalOrder.Distinct(order[..|order| - 1]) != Indices(ws)
    ensures var ws := CutWhole(q, d, mtu, id).value;
      && (forall i :: 0 <= i < |order| ==> PacketCodec.ParseIPPacket(ws[order[i]]).Ok?)
      && Public.AddAll(None, Delivered(ws, order)).1 ==
        (if ArrivalOrder.Distinct(order) == Indices(ws) then Public.Whole(Ok(WithChain(q, d))) else Public.Incomplete)
  {
    var ws := CutWhole(q, d, mtu, id).value;
    var ranges := Plan(0, |Body(d)|, Capacity(d, mtu));
    PlanTiles(0, |Body(d)|, Capacity(d, mtu));
    forall n | 0 <= n < |ws| ensures Readable(ws[n]) && WireSeen(q, d, ranges[n], id, ws[n]) {
      WireIsSeen(q, d, mtu, id, n);
    }
    var fs := Readings(ws);
    ArrivalsMatch(q, d, ranges, id, ws, order);
    Public.FirstAddStarts(Delivered(ws, order), ArrivalOrder.Arrivals(fs, order));
    SeenRuns(q, d, ranges, Capacity(d, mtu), id, fs, order);
    assert Indices(ws) == ArrivalOrder.Everything(fs);
    WithChainEncodable(q, d);
    RawParses(WithChain(q, d));
  }

  lemma SeenRuns(q: Template, d: WholeChain, ranges: seq<Range>, capacity: int, id: nat, fs: seq<Reassembly.Fragment>, order: seq<nat>)
    requires Tiles(ranges, 0, |Body(d)|, capacity) && AllSeen(q, d, ranges, id, fs) && |fs| > 0
    requires |order| > 0 && forall i :: 0 <= i < |order| ==> order[i] < |fs|
    requires ArrivalOrder.Distinct(order[..|order| - 1]) != ArrivalOrder.Everything(fs)
    ensures var o := Reassembly.Run(Reassembly.Started(fs[order[0]]), ArrivalOrder.Arrivals(fs, order), 0);
      if ArrivalOrder.Distinct(order) == ArrivalOrder.Everything(fs) then o.Complete? && o.wire == RawWire(WithChain(q, d)) else o.Pending?
  {
    SeenIsSplit(q, d, ranges, capacity, id, fs);
    ArrivalOrder.AnyOrderRestores(Origin(q, d, ranges[0].size), fs, order, 0);
    FrontRestored(q, d, ranges[0].size);
  }

  /**
   * An IPv6 packet that does not fit the MTU, its fragments arriving in any order with any repeats: nothing is refused,
   * nothing completes while a fragment is missing, and the last missing one yields the packet, without its atomic
   * Fragment header if it had one.
   */
  lemma AnyOrderRestores(p: IPPacket, mtu: int, id: nat, order: seq<nat>)
    requires |V4.Unmap(p.source)| == 16 && id < 0x1_0000_0000 && FragmentWires(p, mtu, id).Ok?
    requires var ws := FragmentWires(p, mtu, id).value;
      && |ws| > 1 && |order| > 0 && (forall i :: 0 <= i < |order| ==> order[i] < |ws|)
      && ArrivalOrder.Distinct(order[..|order| - 1]) != Indices(ws)
    ensures var ws := FragmentWires(p, mtu, id).value;
      && Encodable(p)
      && (forall i :: 0 <= i < |order| ==> PacketCodec.ParseIPPacket(ws[order[i]]).Ok?)
      && Public.AddAll(None, Delivered(ws, order)).1 ==
        (if ArrivalOrder.Distinct(order) == Indices(ws) then Public.Whole(Ok(Sent(p))) else Public.Incomplete)
  {
    LayoutIsEncodable(p);
    EveryWireFits(p, mtu, id, 0);
    NormalIsCuttable(p, mtu);
    CuttableIsSendable(Normal(p), mtu);
    CutRestores(Normal(p), Whole(ChainOf(Normal(p))), mtu, id, order);
  }
}
