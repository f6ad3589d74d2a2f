/** IPv4 fragments, cut again and again at smaller MTUs, still reassemble to the packet they came from. */
module Refragmentation {
  import opened Wrappers
  import opened Bytes
  import opened Checksum
  import opened IPv4Codec
  import opened FragmentRanges
  import opened IPv4Fragments
  import opened PublicReassembly
  import Coverage
  import Reassembly
  import PacketCodec
  import ArrivalOrder

  // ---------------------------------------------------------------- the rebuilt header

  /** The packet a rebuilt header stands for. */
  function Rejoined(q: IPPacket, data: seq<Byte>, dontFragment: bool, ecn: nat): (p: IPPacket)
    requires Encodable(q) && ecn in {0, 3}
  {
    q.(trafficClass := Reassembly.RaiseBits(q.trafficClass, 1, ecn), dontFragment := dontFragment,
       moreFragments := false, fragmentOffset := 0, payload := data)
  }

  lemma RejoinedFixed(q: IPPacket, data: seq<Byte>, dontFragment: bool, ecn: nat)
    requires Encodable(q) && ecn in {0, 3} && HeaderSize(q.options) + |data| <= 65535
    ensures var p := Rejoined(q, data, dontFragment, ecn);
      && Encodable(p) && |FixedFields(p)| == |FixedFields(q)| == 12
      && FixedFields(p)[0] == FixedFields(q)[0] && FixedFields(p)[1] == Reassembly.RaiseBits(FixedFields(q)[1], 1, ecn)
      && FixedFields(p)[2..4] == Encode16(HeaderSize(q.options) + |data|)
      && FixedFields(p)[4] == FixedFields(q)[4] && FixedFields(p)[5] == FixedFields(q)[5]
      && FixedFields(p)[6..8] == Encode16(if dontFragment then 0x4000 else 0)
      && FixedFields(p)[8] == FixedFields(q)[8] && FixedFields(p)[9] == FixedFields(q)[9]
      && FixedFields(p)[10] == 0 && FixedFields(p)[11] == 0
  {
  }

  lemma HeaderHalves(q: IPPacket)
    requires Encodable(q)
    ensures Header(q)[..10] == FixedFields(q)[..10]
    ensures Header(q)[12..] == BareHeader(q)[12..] == q.source + q.destination + Canonical(q.options)
    ensures BareHeader(q) == FixedFields(q) + (q.source + q.destination + Canonical(q.options))
  {
    assert BareHeader(q)[..12] == FixedFields(q);
  }

  /** The in-place edits of a rebuilt header, with the checksum cleared. */
  function Edited(h: seq<Byte>, total: U16, flags: U16, ecn: nat): (r: seq<Byte>)
    requires |h| >= 20 && ecn in {0, 3}
    ensures |r| == |h|
  {
    Splice(Splice(Splice(h[1 := Reassembly.RaiseBits(h[1], 1, ecn)], 2, Encode16(total)), 6, Encode16(flags)), 10, [0, 0])
  }

  lemma EditedFields(h: seq<Byte>, total: U16, flags: U16, ecn: nat)
    requires |h| >= 20 && ecn in {0, 3}
    ensures var r := Edited(h, total, flags, ecn);
      && r[12..] == h[12..]
      && r[..12] == [h[0], Reassembly.RaiseBits(h[1], 1, ecn)] + Encode16(total) + h[4..6] + Encode16(flags) + h[8..10] + [0, 0]
  {
  }

  lemma SameTwelve(h: seq<Byte>, f: seq<Byte>, g: seq<Byte>, marked: Byte, total: seq<Byte>, flags: seq<Byte>)
    requires |h| >= 12 && |f| == |g| == 12 && h[..10] == f[..10]
    requires g[0] == f[0] && g[1] == marked && g[2..4] == total && g[4] == f[4] && g[5] == f[5]
    requires g[6..8] == flags && g[8] == f[8] && g[9] == f[9] && g[10] == 0 && g[11] == 0
    ensures g == [h[0], marked] + total + h[4..6] + flags + h[8..10] + [0, 0]
  {
    assert forall i :: 0 <= i < 10 ==> h[i] == h[..10][i] == f[i];
    assert g == g[..2] + g[2..4] + g[4..6] + g[6..8] + g[8..10] + g[10..];
    assert g[4..6] == h[4..6] && g[8..10] == h[8..10];
  }

  lemma EditedIs(h: seq<Byte>, f: seq<Byte>, g: seq<Byte>, rest: seq<Byte>, total: U16, flags: U16, ecn: nat)
    requires |h| >= 20 && ecn in {0, 3} && |f| == |g| == 12 && h[..10] == f[..10] && h[12..] == rest
    requires g[0] == f[0] && g[1] == Reassembly.RaiseBits(f[1], 1, ecn) && g[2..4] == Encode16(total) && g[4] == f[4] && g[5] == f[5]
    requires g[6..8] == Encode16(flags) && g[8] == f[8] && g[9] == f[9] && g[10] == 0 && g[11] == 0
    ensures Edited(h, total, flags, ecn) == g + rest
  {
    assert h[1] == h[..10][1];
    EditedFields(h, total, flags, ecn);
    SameTwelve(h, f, g, g[1], Encode16(total), Encode16(flags));
    var r := Edited(h, total, flags, ecn);
    assert r == r[..12] + r[12..];
  }

  lemma EditedIsBare(q: IPPacket, data: seq<Byte>, dontFragment: bool, ecn: nat, flags: U16)
    requires Encodable(q) && ecn in {0, 3} && HeaderSize(q.options) + |data| <= 65535
    requires flags == (if dontFragment then 0x4000 else 0)
    ensures var p := Rejoined(q, data, dontFragment, ecn);
      Encodable(p) && Edited(Header(q), |Header(q)| + |data|, flags, ecn) == BareHeader(p)
  {
    var p := Rejoined(q, data, dontFragment, ecn);
    RejoinedFixed(q, data, dontFragment, ecn);
    HeaderHalves(q);
    HeaderHalves(p);
    EditedIs(Header(q), FixedFields(q), FixedFields(p), q.source + q.destination + Canonical(q.options), |Header(q)| + |data|, flags, ecn);
  }

  /** The header rebuilt in place is the one the encoder would write. */
  lemma WholeHeaderIsHeader(q: IPPacket, data: seq<Byte>, dontFragment: bool, ecn: nat)
    requires Encodable(q) && ecn in {0, 3} && HeaderSize(q.options) + |data| <= 65535
    ensures var p := Rejoined(q, data, dontFragment, ecn);
      Encodable(p) && Reassembly.WholeHeader4(Header(q), |data|, dontFragment, ecn) == Header(p)
  {
    var flags: U16 := if dontFragment then 0x4000 else 0;
    EditedIsBare(q, data, dontFragment, ecn, flags);
    WholeOfEdited(Header(q), |data|, dontFragment, ecn, flags);
  }

  lemma WholeOfEdited(h: seq<Byte>, total: nat, dontFragment: bool, ecn: nat, flags: U16)
    requires |h| >= 20 && |h| + total <= 65535 && ecn in {0, 3} && flags == (if dontFragment then 0x4000 else 0)
    ensures var edited := Edited(h, |h| + total, flags, ecn);
      Reassembly.WholeHeader4(h, total, dontFragment, ecn) == Splice(edited, 10, Encode16(Internet(edited)))
  {
  }

  // ---------------------------------------------------------------- a completed assembly always parses

  /** A sound assembly whose header, once there, is one the encoder wrote. */
  ghost predicate Owned(s: Reassembly.State) {
    && Reassembly.Inv(s) && !s.v6
    && (s.header != [] ==> exists q :: Written(q, s.header))
  }

  ghost predicate Written(q: IPPacket, header: seq<Byte>) {
    Encodable(q) && header == Header(q)
  }

  /** What one arrival does to the retained header. */
  lemma HeaderAfter(s: Reassembly.State, f: Reassembly.Fragment)
    requires Reassembly.ValidFragment(f) && f.v6 == s.v6
    ensures var o := Reassembly.Step(s, f, 0);
      && (o.Pending? ==> o.next.v6 == s.v6 && o.next.header in {s.header, f.header} && (o.next.header != s.header ==> f.offset == 0))
      && (o.Complete? ==> o.last.v6 == s.v6 && o.last.header in {s.header, f.header} && (o.last.header != s.header ==> f.offset == 0))
  {
  }

  lemma AssembledParses(s: Reassembly.State, q: IPPacket)
    requires Reassembly.Buildable(s) && !s.v6 && Written(q, s.header) && s.total <= 65515
    ensures Parse(Reassembly.Assembled(s)).Ok?
  {
    var ecn := Reassembly.CombinedEcn(Reassembly.Seen(s.ecnMask));
    var df := s.maxDFSize != 0 && s.maxDFSize == s.maxSize;
    var data := Reassembly.Gathered(s.pieces, s.total);
    WholeHeaderIsHeader(q, data, df, ecn);
    var p := Rejoined(q, data, df, ecn);
    assert Reassembly.Assembled(s) == Wire(p) == Wire(p) + [];
    ParseOfMarshal(p, []);
  }

  /** Whatever fragments were added before, a completed packet is never lost to a parse error. */
  lemma AddKeepsOwned(s: Option<Reassembly.State>, p: IPPacket)
    requires |Unmap(p.source)| == 4 && (s.Some? ==> Owned(s.value))
    ensures AddStep(s, p).0.Some? ==> Owned(AddStep(s, p).0.value)
    ensures AddStep(s, p).1.Whole? ==> AddStep(s, p).1.packet.Ok?
  {
    PublicIsValid(p);
    LayoutIsEncodable(p);
    var view := PublicFragment(p);
    if view.Ok? && (s.None? || Reassembly.Matches(s.value, view.value)) {
      var q, f := Layout(p).value, view.value;
      var before := if s.Some? then s.value else Reassembly.Started(f);
      Reassembly.StartedInv(f);
      assert Owned(before);
      OwnedAfter(before, f, q);
    }
  }

  lemma OwnedAfter(s: Reassembly.State, f: Reassembly.Fragment, q: IPPacket)
    requires Owned(s) && Encodable(q) && f == ViewOf(q) && Reassembly.ValidFragment(f)
    ensures var o := Reassembly.Step(s, f, 0);
      && (o.Pending? ==> Owned(o.next))
      && (o.Complete? ==> Parse(o.wire).Ok?)
  {
    Reassembly.StepIsSound(s, f, 0);
    HeaderAfter(s, f);
    var o := Reassembly.Step(s, f, 0);
    assert f.offset == 0 ==> Written(q, f.header);
    if o.Complete? {
      assert Coverage.Covered(o.last.pieces, 0) by {
        Reassembly.StepInv(s, f, 0);
      }
      var w :| Written(w, o.last.header);
      AssembledParses(o.last, w);
    }
  }

  // ---------------------------------------------------------------- slices of one packet

  /** `q` carries one range of `p`'s payload; only the one at offset zero must carry `p`'s own options. */
  ghost predicate SliceOf(p: IPPacket, q: IPPacket) {
    && Encodable(q) && |q.payload| > 0
    && q == p.(dontFragment := false, moreFragments := q.moreFragments, fragmentOffset := q.fragmentOffset, options := q.options, payload := q.payload)
    && q.fragmentOffset + |q.payload| <= |p.payload|
    && q.payload == p.payload[q.fragmentOffset..q.fragmentOffset + |q.payload|]
    && (q.moreFragments <==> q.fragmentOffset + |q.payload| < |p.payload|)
    && HeaderSize(q.options) == HeaderSize(p.options)
    && (q.fragmentOffset == 0 ==> Framed(p.options) && Canonical(q.options) == Canonical(p.options))
  }

  ghost predicate NormalSlice(p: IPPacket, q: IPPacket) {
    SliceOf(p, q) && Normal(q) == q
  }

  /** Each packet starts where the one before it ended. */
  ghost predicate Linked(qs: seq<IPPacket>, start: int, end: int) {
    && |qs| > 0
    && qs[0].fragmentOffset == start
    && (forall k :: 0 < k < |qs| ==> qs[k].fragmentOffset == qs[k - 1].fragmentOffset + |qs[k - 1].payload|)
    && qs[|qs| - 1].fragmentOffset + |qs[|qs| - 1].payload| == end
  }

  ghost predicate AllSlices(p: IPPacket, qs: seq<IPPacket>) {
    forall q :: q in qs ==> NormalSlice(p, q)
  }

  /** `w` is the encoding of the normal packet `q`. */
  predicate IsWire(w: seq<Byte>, q: IPPacket) {
    Encodable(q) && Normal(q) == q && w == Wire(q)
  }

  ghost predicate Related<A, B>(a: seq<A>, b: seq<B>, related: (A, B) -> bool) {
    |a| == |b| && forall k :: 0 <= k < |a| ==> related(a[k], b[k])
  }

  lemma PieceIsSlice(p: IPPacket, q: IPPacket, range: Range, later: seq<Byte>)
    requires SliceOf(p, q) && range.End() <= |q.payload| && range.size > 0 && (range.more <==> range.End() < |q.payload|)
    requires Replaces(later, q.options) && Encodable(FragmentPacket(q, range, later))
    ensures SliceOf(p, Normal(FragmentPacket(q, range, later)))
    ensures Normal(Normal(FragmentPacket(q, range, later))) == Normal(FragmentPacket(q, range, later))
  {
    var f := FragmentPacket(q, range, later);
    NormalEncodesTheSame(f);
    SliceOfSlice(p.payload, q.fragmentOffset, q.fragmentOffset + |q.payload|, range.offset, range.End());
    RangeIsSlice(p, q, range, f, Normal(f));
  }

  lemma RangeIsSlice(p: IPPacket, q: IPPacket, range: Range, f: IPPacket, n: IPPacket)
    requires SliceOf(p, q) && range.End() <= |q.payload| && range.size > 0 && (range.more <==> range.End() < |q.payload|)
    requires f.payload == p.payload[q.fragmentOffset + range.offset..q.fragmentOffset + range.End()]
    requires f == q.(dontFragment := false, moreFragments := q.moreFragments || range.more, fragmentOffset := q.fragmentOffset + range.offset,
      options := f.options, payload := f.payload)
    requires range.offset == 0 ==> f.options == q.options || q.fragmentOffset != 0
    requires HeaderSize(f.options) == HeaderSize(q.options)
    requires Encodable(f) && Encodable(n) && n == f.(options := Canonical(f.options)) && Canonical(n.options) == n.options
    ensures SliceOf(p, n)
  {
  }

  lemma SliceOfSlice(data: seq<Byte>, start: nat, end: nat, from: nat, to: nat)
    requires start <= end <= |data| && from <= to <= end - start
    ensures data[start..end][from..to] == data[start + from..start + to]
  {
    assert forall i :: 0 <= i < to - from ==> data[start..end][from..to][i] == data[start + from..start + to][i];
  }

  function Pieces(q: IPPacket, ranges: seq<Range>, later: seq<Byte>, mtu: nat): (qs: seq<IPPacket>)
    requires Encodable(q) && Replaces(later, q.options)
    requires Tiles(ranges, 0, |q.payload|, mtu - HeaderSize(q.options))
  {
    seq(|ranges|, k requires 0 <= k < |ranges| =>
      FragmentFits(q, ranges, later, mtu, k);
      Normal(FragmentPacket(q, ranges[k], later)))
  }

  lemma PieceAt(p: IPPacket, q: IPPacket, ranges: seq<Range>, later: seq<Byte>, mtu: nat, k: nat)
    requires SliceOf(p, q) && Replaces(later, q.options) && k < |ranges|
    requires Tiles(ranges, 0, |q.payload|, mtu - HeaderSize(q.options))
    ensures var f := Pieces(q, ranges, later, mtu)[k];
      NormalSlice(p, f) && IsWire(Wires(q, ranges, later, mtu)[k], f)
  {
    FragmentFits(q, ranges, later, mtu, k);
    TileEnds(ranges, 0, |q.payload|, mtu - HeaderSize(q.options), k);
    PieceIsSlice(p, q, ranges[k], later);
    WiresCarry(q, ranges, later, mtu, k);
    NormalEncodesTheSame(FragmentPacket(q, ranges[k], later));
  }

  /** The fragments of a slice are consecutive slices over the same range. */
  lemma PiecesChain(p: IPPacket, q: IPPacket, ranges: seq<Range>, later: seq<Byte>, mtu: nat)
    requires SliceOf(p, q) && Replaces(later, q.options)
    requires Tiles(ranges, 0, |q.payload|, mtu - HeaderSize(q.options))
    ensures AllSlices(p, Pieces(q, ranges, later, mtu))
    ensures Related(Wires(q, ranges, later, mtu), Pieces(q, ranges, later, mtu), IsWire)
  {
    var qs := Pieces(q, ranges, later, mtu);
    forall f | f in qs ensures NormalSlice(p, f) {
      var k :| 0 <= k < |qs| && qs[k] == f;
      PieceAt(p, q, ranges, later, mtu, k);
    }
    forall k | 0 <= k < |qs| ensures IsWire(Wires(q, ranges, later, mtu)[k], qs[k]) {
      PieceAt(p, q, ranges, later, mtu, k);
    }
  }

  lemma PiecesLinked(q: IPPacket, ranges: seq<Range>, later: seq<Byte>, mtu: nat)
    requires Encodable(q) && |q.payload| > 0 && Replaces(later, q.options)
    requires Tiles(ranges, 0, |q.payload|, mtu - HeaderSize(q.options))
    ensures Linked(Pieces(q, ranges, later, mtu), q.fragmentOffset, q.fragmentOffset + |q.payload|)
  {
    var qs := Pieces(q, ranges, later, mtu);
    forall k | 0 <= k < |qs| ensures qs[k].fragmentOffset == q.fragmentOffset + ranges[k].offset && |qs[k].payload| == ranges[k].size {
      FragmentFits(q, ranges, later, mtu, k);
    }
  }

  lemma WireParses(w: seq<Byte>, q: IPPacket)
    requires IsWire(w, q)
    ensures Parse(w) == Ok(q)
  {
    ParseOfMarshal(q, []);
    assert Wire(q) + [] == w;
  }

  function Replaced<T>(s: seq<T>, i: nat, middle: seq<T>): (r: seq<T>)
    requires i < |s|
  {
    s[..i] + middle + s[i + 1..]
  }

  lemma ReplacedLinked(qs: seq<IPPacket>, i: nat, middle: seq<IPPacket>, start: int, end: int)
    requires Linked(qs, start, end) && i < |qs|
    requires Linked(middle, qs[i].fragmentOffset, qs[i].fragmentOffset + |qs[i].payload|)
    ensures Linked(Replaced(qs, i, middle), start, end)
  {
    var r := Replaced(qs, i, middle);
    ReplacedAt(qs, i, middle, 0);
    ReplacedAt(qs, i, middle, |r| - 1);
    forall k | 0 < k < |r| ensures r[k].fragmentOffset == r[k - 1].fragmentOffset + |r[k - 1].payload| {
      ReplacedAt(qs, i, middle, k - 1);
      ReplacedAt(qs, i, middle, k);
    }
  }

  lemma ReplacedAt<T>(s: seq<T>, i: nat, middle: seq<T>, k: nat)
    requires i < |s| && k < |s| - 1 + |middle|
    ensures |Replaced(s, i, middle)| == |s| - 1 + |middle|
    ensures Replaced(s, i, middle)[k] == if k < i then s[k] else if k < i + |middle| then middle[k - i] else s[k - |middle| + 1]
  {
  }

  lemma ReplacedRelated<A, B>(a: seq<A>, b: seq<B>, i: nat, c: seq<A>, d: seq<B>, related: (A, B) -> bool)
    requires Related(a, b, related) && i < |a| && Related(c, d, related)
    ensures Related(Replaced(a, i, c), Replaced(b, i, d), related)
  {
    var r, t, n := Replaced(a, i, c), Replaced(b, i, d), |c|;
    forall k | 0 <= k < |r| ensures related(r[k], t[k]) {
      if k < i {
        assert r[k] == a[k] && t[k] == b[k];
      } else if k < i + n {
        assert r[k] == c[k - i] && t[k] == d[k - i];
      } else {
        assert r[k] == a[k - n + 1] && t[k] == b[k - n + 1];
      }
    }
  }

  lemma ReplacedSlices(p: IPPacket, qs: seq<IPPacket>, i: nat, middle: seq<IPPacket>)
    requires AllSlices(p, qs) && i < |qs| && AllSlices(p, middle)
    ensures AllSlices(p, Replaced(qs, i, middle))
  {
    forall q | q in Replaced(qs, i, middle) ensures NormalSlice(p, q) {
      assert q in qs[..i] || q in middle || q in qs[i + 1..];
    }
  }

  // ---------------------------------------------------------------- any tree of hops

  /** One router on the path of one packet in flight: parse it and send on what fits its MTU. */
  datatype Hop = Hop(packet: nat, mtu: int)

  function Forward(ws: seq<seq<Byte>>, hop: Hop): (r: Result<seq<seq<Byte>>>)
  {
    if hop.packet >= |ws| then Err(Invalid)
    else
      var q := Parse(ws[hop.packet]);
      if q.Err? then Err(q.error)
      else
        FourOctets(ws[hop.packet]);
        var cut := FragmentWires(q.value, hop.mtu);
        if cut.Err? then Err(cut.error) else Ok(Replaced(ws, hop.packet, cut.value))
  }

  lemma FourOctets(w: seq<Byte>)
    requires Parse(w).Ok?
    ensures |Unmap(Parse(w).value.source)| == 4 && |Parse(w).value.source| == 4
  {
  }

  /** Every packet in flight may be cut again, in any order and any number of times. */
  function Travel(ws: seq<seq<Byte>>, hops: seq<Hop>): (r: Result<seq<seq<Byte>>>)
    decreases |hops|
  {
    if hops == [] then Ok(ws)
    else
      var next := Forward(ws, hops[0]);
      if next.Err? then next else Travel(next.value, hops[1..])
  }

  /** Consecutive slices of the whole packet, and their encodings. */
  ghost predicate Cut(p: IPPacket, qs: seq<IPPacket>, ws: seq<seq<Byte>>) {
    !p.dontFragment && AllSlices(p, qs) && Linked(qs, 0, |p.payload|) && Related(ws, qs, IsWire)
  }

  /** The packets in flight are either the original alone or consecutive slices of it. */
  ghost predicate InFlight(p: IPPacket, ws: seq<seq<Byte>>)
    requires Encodable(p)
  {
    ws == [Wire(p)] || exists qs :: Cut(p, qs, ws)
  }

  predicate Unfragmented(p: IPPacket) {
    Encodable(p) && p.fragmentOffset == 0 && !p.moreFragments
  }

  /** Forwarding one slice puts consecutive slices of the same range in its place. */
  lemma ForwardSlice(p: IPPacket, q: IPPacket, mtu: int) returns (cut: seq<IPPacket>)
    requires SliceOf(p, q) && Normal(q) == q && FragmentWires(q, mtu).Ok?
    ensures AllSlices(p, cut) && Linked(cut, q.fragmentOffset, q.fragmentOffset + |q.payload|)
    ensures Related(FragmentWires(q, mtu).value, cut, IsWire)
  {
    LayoutIsEncodable(q);
    if |Wire(q)| <= mtu {
      cut := [q];
    } else {
      LaterIsFramed(q.options);
      var ranges := Plan(0, |q.payload|, mtu - HeaderSize(q.options));
      PlanTiles(0, |q.payload|, mtu - HeaderSize(q.options));
      cut := Pieces(q, ranges, Later(q.options, 0), mtu);
      PiecesChain(p, q, ranges, Later(q.options, 0), mtu);
      PiecesLinked(q, ranges, Later(q.options, 0), mtu);
    }
  }

  lemma WholeIsSlice(p: IPPacket)
    requires Unfragmented(p) && !p.dontFragment && |p.payload| > 0
    ensures SliceOf(p, Normal(p)) && Normal(Normal(p)) == Normal(p)
  {
    NormalEncodesTheSame(p);
    CanonicalIsStable(p.options);
  }

  lemma WholeForwarded(p: IPPacket, mtu: int)
    requires Unfragmented(p) && FragmentWires(Normal(p), mtu).Ok?
    ensures InFlight(p, FragmentWires(Normal(p), mtu).value)
  {
    NormalEncodesTheSame(p);
    LayoutIsEncodable(Normal(p));
    if |Wire(p)| > mtu {
      assert |p.payload| > 0 && !p.dontFragment;
      WholeIsSlice(p);
      var qs := ForwardSlice(p, Normal(p), mtu);
      assert Cut(p, qs, FragmentWires(Normal(p), mtu).value);
    }
  }

  /** One more hop keeps the packets in flight consecutive slices of the original. */
  lemma ForwardKeeps(p: IPPacket, ws: seq<seq<Byte>>, hop: Hop)
    requires Unfragmented(p) && InFlight(p, ws) && Forward(ws, hop).Ok?
    ensures InFlight(p, Forward(ws, hop).value)
  {
    if ws == [Wire(p)] {
      ForwardWhole(p, ws, hop);
    } else {
      var qs :| Cut(p, qs, ws);
      ForwardCut(p, qs, ws, hop);
    }
  }

  lemma ForwardWhole(p: IPPacket, ws: seq<seq<Byte>>, hop: Hop)
    requires Unfragmented(p) && ws == [Wire(p)] && Forward(ws, hop).Ok?
    ensures InFlight(p, Forward(ws, hop).value)
  {
    WholeParses(p);
    var cut := ForwardIs(ws, hop, Normal(p));
    WholeForwarded(p, hop.mtu);
    assert Replaced(ws, 0, cut) == cut;
  }

  lemma WholeParses(p: IPPacket)
    requires Encodable(p)
    ensures Parse(Wire(p)) == Ok(Normal(p)) && |Unmap(Normal(p).source)| == 4
  {
    ParseOfMarshal(p, []);
    assert Wire(p) + [] == Wire(p);
  }

  lemma ForwardIs(ws: seq<seq<Byte>>, hop: Hop, q: IPPacket) returns (cut: seq<seq<Byte>>)
    requires hop.packet < |ws| && Parse(ws[hop.packet]) == Ok(q) && |Unmap(q.source)| == 4 && Forward(ws, hop).Ok?
    ensures FragmentWires(q, hop.mtu) == Ok(cut) && Forward(ws, hop) == Ok(Replaced(ws, hop.packet, cut))
  {
    cut := FragmentWires(q, hop.mtu).value;
  }

  lemma ForwardCut(p: IPPacket, qs: seq<IPPacket>, ws: seq<seq<Byte>>, hop: Hop)
    requires Unfragmented(p) && Cut(p, qs, ws) && Forward(ws, hop).Ok?
    ensures InFlight(p, Forward(ws, hop).value)
  {
    var i := hop.packet;
    assert IsWire(ws[i], qs[i]) && NormalSlice(p, qs[i]);
    WireParses(ws[i], qs[i]);
    var cut := FragmentWires(qs[i], hop.mtu).value;
    var middle := ForwardSlice(p, qs[i], hop.mtu);
    ReplacedLinked(qs, i, middle, 0, |p.payload|);
    ReplacedSlices(p, qs, i, middle);
    ReplacedRelated(ws, qs, i, cut, middle, IsWire);
    assert Cut(p, Replaced(qs, i, middle), Replaced(ws, i, cut));
  }

  lemma {:induction false} TravelKeeps(p: IPPacket, ws: seq<seq<Byte>>, hops: seq<Hop>)
    requires Unfragmented(p) && InFlight(p, ws) && Travel(ws, hops).Ok?
    ensures InFlight(p, Travel(ws, hops).value)
    decreases |hops|
  {
    if hops != [] {
      ForwardKeeps(p, ws, hops[0]);
      TravelKeeps(p, Forward(ws, hops[0]).value, hops[1..]);
    }
  }

  /** No hop ever emits a packet larger than its MTU. */
  lemma EveryHopFits(ws: seq<seq<Byte>>, hop: Hop, k: nat)
    requires Forward(ws, hop).Ok? && hop.packet <= k
    requires k < hop.packet + |Forward(ws, hop).value| - (|ws| - 1)
    ensures |Forward(ws, hop).value[k]| <= hop.mtu
  {
    FourOctets(ws[hop.packet]);
    EveryWireFits(Parse(ws[hop.packet]).value, hop.mtu, k - hop.packet);
  }

  // ---------------------------------------------------------------- the receiver

  function Views(qs: seq<IPPacket>): (fs: seq<Reassembly.Fragment>)
    requires forall q :: q in qs ==> Encodable(q)
  {
    seq(|qs|, k requires 0 <= k < |qs| => ViewOf(qs[k]))
  }

  function Origin(p: IPPacket, first: IPPacket): (d: ArrivalOrder.Datagram)
    requires Encodable(p) && Encodable(first)
  {
    ArrivalOrder.Datagram(false, p.protocol, Header(first), 9, false, p.payload)
  }

  lemma SliceIsPart(p: IPPacket, q: IPPacket, first: IPPacket)
    requires Encodable(p) && Encodable(first)
    requires NormalSlice(p, q) && NormalSlice(p, first) && first.fragmentOffset == 0
    requires q.fragmentOffset == 0 ==> q == first
    ensures ArrivalOrder.PartOf(Origin(p, first), ViewOf(q)) && ViewOf(q).ecn == p.trafficClass % 4
  {
    ViewIsValid(q);
  }

  lemma {:induction false} LaterOffsets(qs: seq<IPPacket>, start: int, end: int, k: nat)
    requires Linked(qs, start, end) && k < |qs| && forall q :: q in qs ==> |q.payload| > 0
    ensures start <= qs[k].fragmentOffset && (k > 0 ==> start < qs[k].fragmentOffset)
  {
    if k > 0 {
      LaterOffsets(qs, start, end, k - 1);
      assert qs[k - 1] in qs;
    }
  }

  lemma CutParts(p: IPPacket, qs: seq<IPPacket>, ws: seq<seq<Byte>>, k: nat)
    requires Unfragmented(p) && Cut(p, qs, ws) && k < |qs|
    ensures forall q :: q in qs ==> Encodable(q)
    ensures ArrivalOrder.PartOf(Origin(p, qs[0]), ViewOf(qs[k])) && ViewOf(qs[k]).ecn == p.trafficClass % 4
  {
    assert forall q :: q in qs ==> NormalSlice(p, q);
    LaterOffsets(qs, 0, |p.payload|, k);
    SliceIsPart(p, qs[k], qs[0]);
  }

  lemma OneEcn(fs: seq<Reassembly.Fragment>, ecn: nat)
    requires |fs| > 0 && forall k :: 0 <= k < |fs| ==> fs[k].ecn == ecn
    ensures ArrivalOrder.EcnOf(fs, ArrivalOrder.Everything(fs)) == {ecn}
  {
    assert 0 in ArrivalOrder.Everything(fs) && fs[0].ecn == ecn;
  }

  lemma LinkedSplit(d: ArrivalOrder.Datagram, qs: seq<IPPacket>, fs: seq<Reassembly.Fragment>)
    requires Linked(qs, 0, |d.payload|) && |fs| == |qs| && |d.payload| <= 65515
    requires forall k :: 0 <= k < |fs| ==> fs[k].offset == qs[k].fragmentOffset && |fs[k].payload| == |qs[k].payload|
    requires forall k :: 0 <= k < |fs| ==> ArrivalOrder.PartOf(d, fs[k])
    requires Reassembly.EcnConsistent(ArrivalOrder.EcnOf(fs, ArrivalOrder.Everything(fs)))
    ensures ArrivalOrder.Split(d, fs)
  {
  }

  /** Consecutive slices are a split of the datagram in the sense of the arrival theorem. */
  lemma CutIsSplit(p: IPPacket, qs: seq<IPPacket>, ws: seq<seq<Byte>>)
    requires Unfragmented(p) && Cut(p, qs, ws)
    ensures forall q :: q in qs ==> Encodable(q)
    ensures ArrivalOrder.Split(Origin(p, qs[0]), Views(qs))
    ensures ArrivalOrder.EcnOf(Views(qs), ArrivalOrder.Everything(Views(qs))) == {p.trafficClass % 4}
  {
    CutParts(p, qs, ws, 0);
    var d, fs := Origin(p, qs[0]), Views(qs);
    forall k | 0 <= k < |qs| ensures ArrivalOrder.PartOf(d, fs[k]) && fs[k].ecn == p.trafficClass % 4
      && fs[k].offset == qs[k].fragmentOffset && |fs[k].payload| == |qs[k].payload| {
      CutParts(p, qs, ws, k);
    }
    OneEcn(fs, p.trafficClass % 4);
    LinkedSplit(d, qs, fs);
  }

  lemma RejoinedIsOriginal(p: IPPacket, first: IPPacket, ecn: nat)
    requires Unfragmented(p) && !p.dontFragment && SliceOf(p, first)
    requires ecn == Reassembly.CombinedEcn({p.trafficClass % 4})
    ensures Rejoined(first, p.payload, false, ecn) == p.(options := first.options)
  {
  }

  lemma SameOptionsSameHeader(p: IPPacket, options: seq<Byte>)
    requires Encodable(p) && Encodable(p.(options := options)) && Canonical(options) == Canonical(p.options)
    ensures Header(p.(options := options)) == Header(p)
  {
    HeaderHalves(p);
    HeaderHalves(p.(options := options));
    assert FixedFields(p) == FixedFields(p.(options := options));
  }

  /** What the fragments restore is the encoding of the original packet. */
  lemma RestoredIsOriginal(p: IPPacket, first: IPPacket)
    requires Unfragmented(p) && !p.dontFragment && SliceOf(p, first) && first.fragmentOffset == 0
    ensures ArrivalOrder.Fits(Origin(p, first))
    ensures ArrivalOrder.Restored(Origin(p, first), {p.trafficClass % 4}) == Wire(p)
  {
    var ecn := Reassembly.CombinedEcn({p.trafficClass % 4});
    RejoinedIsOriginal(p, first, ecn);
    WholeHeaderIsHeader(first, p.payload, false, ecn);
    SameOptionsSameHeader(p, first.options);
  }

  // ---------------------------------------------------------------- the main theorem

  function Indices(ws: seq<seq<Byte>>): (all: set<nat>) {
    set k: nat {:trigger ws[k]} | k < |ws|
  }

  /** What the receiver parses from the packets as they arrive. */
  function Delivered(ws: seq<seq<Byte>>, order: seq<nat>): (ps: seq<IPPacket>)
    requires forall i :: 0 <= i < |order| ==> order[i] < |ws| && Parse(ws[order[i]]).Ok?
    ensures forall k :: 0 <= k < |ps| ==> |Unmap(ps[k].source)| == 4
  {
    seq(|order|, i requires 0 <= i < |order| => Parse(ws[order[i]]).value)
  }

  lemma DeliveredIs(qs: seq<IPPacket>, ws: seq<seq<Byte>>, order: seq<nat>, i: nat)
    requires Related(ws, qs, IsWire) && i < |order| && order[i] < |ws|
    ensures Parse(ws[order[i]]) == Ok(qs[order[i]])
  {
    assert IsWire(ws[order[i]], qs[order[i]]);
    WireParses(ws[order[i]], qs[order[i]]);
  }

  lemma ArrivalsMatch(p: IPPacket, qs: seq<IPPacket>, ws: seq<seq<Byte>>, order: seq<nat>)
    requires Unfragmented(p) && Cut(p, qs, ws) && |ws| > 1 && |order| > 0
    requires forall i :: 0 <= i < |order| ==> order[i] < |ws| && Parse(ws[order[i]]) == Ok(qs[order[i]])
    requires forall q :: q in qs ==> Encodable(q)
    ensures forall i :: 0 <= i < |order| ==> Reassembly.ValidFragment(Views(qs)[order[i]])
    ensures SameDatagram(Reassembly.Started(Views(qs)[order[0]]), Delivered(ws, order), ArrivalOrder.Arrivals(Views(qs), order))
  {
    var first := Views(qs)[order[0]];
    forall i | 0 <= i < |order| ensures OneDatagram(p, qs[order[i]]) {
      ArrivalMatches(p, qs, order[i]);
    }
  }

  /** The machine's view of `q` is a fragment of the datagram that `p` was. */
  ghost predicate OneDatagram(p: IPPacket, q: IPPacket) {
    && Encodable(q) && PublicFragment(q) == Ok(ViewOf(q))
    && var f := ViewOf(q);
      && Reassembly.ValidFragment(f) && !f.v6
      && f.source == p.source && f.target == p.destination && f.identifier == p.identification && f.protocol == p.protocol
  }

  lemma ArrivalMatches(p: IPPacket, qs: seq<IPPacket>, k: nat)
    requires AllSlices(p, qs) && Linked(qs, 0, |p.payload|) && |qs| > 1 && k < |qs| && Encodable(qs[k])
    ensures OneDatagram(p, qs[k])
  {
    assert NormalSlice(p, qs[k]);
    ViewIsValid(qs[k]);
    LayoutIsEncodable(qs[k]);
    NotWhole(p, qs, k);
  }

  lemma NotWhole(p: IPPacket, qs: seq<IPPacket>, k: nat)
    requires AllSlices(p, qs) && Linked(qs, 0, |p.payload|) && |qs| > 1 && k < |qs|
    ensures qs[k].moreFragments || qs[k].fragmentOffset != 0
  {
    assert forall q :: q in qs ==> NormalSlice(p, q);
    LaterOffsets(qs, 0, |p.payload|, k);
    LaterOffsets(qs, 0, |p.payload|, 1);
    if k == 0 {
      assert NormalSlice(p, qs[0]) && NormalSlice(p, qs[1]);
    }
  }

  /**
   * An unfragmented packet, cut by any number of routers with any MTUs along any tree of paths, its
   * fragments arriving in any order with any repeats: nothing is refused, nothing completes while a
   * fragment is missing, and the last missing one yields the original packet, whose encoding is the
   * original one.
   */
  lemma AnyTreeAnyOrder(p: IPPacket, hops: seq<Hop>, order: seq<nat>)
    requires Unfragmented(p) && Travel([Wire(p)], hops).Ok?
    requires var ws := Travel([Wire(p)], hops).value;
      && |ws| > 1 && |order| > 0 && (forall i :: 0 <= i < |order| ==> order[i] < |ws|)
      && ArrivalOrder.Distinct(order[..|order| - 1]) != Indices(ws)
    ensures var ws := Travel([Wire(p)], hops).value;
      && (forall i :: 0 <= i < |order| ==> Parse(ws[order[i]]).Ok?)
      && AddAll(None, Delivered(ws, order)).1 ==
        (if ArrivalOrder.Distinct(order) == Indices(ws) then Whole(Ok(Normal(p))) else Incomplete)
    ensures Encodable(Normal(p)) && Wire(Normal(p)) == Wire(p)
  {
    var ws := Travel([Wire(p)], hops).value;
    NormalEncodesTheSame(p);
    TravelKeeps(p, [Wire(p)], hops);
    var qs :| Cut(p, qs, ws);
    CutReassembles(p, qs, ws, order);
  }

  lemma CutReassembles(p: IPPacket, qs: seq<IPPacket>, ws: seq<seq<Byte>>, order: seq<nat>)
    requires Unfragmented(p) && Cut(p, qs, ws) && |ws| > 1
    requires |order| > 0 && forall i :: 0 <= i < |order| ==> order[i] < |ws|
    requires ArrivalOrder.Distinct(order[..|order| - 1]) != Indices(ws)
    ensures forall i :: 0 <= i < |order| ==> Parse(ws[order[i]]).Ok?
    ensures AddAll(None, Delivered(ws, order)).1 ==
      (if ArrivalOrder.Distinct(order) == Indices(ws) then Whole(Ok(Normal(p))) else Incomplete)
  {
    forall i | 0 <= i < |order| ensures Parse(ws[order[i]]) == Ok(qs[order[i]]) {
      DeliveredIs(qs, ws, order, i);
    }
    CutIsSplit(p, qs, ws);
    CutAdds(p, qs, ws, order);
  }

  lemma CutAdds(p: IPPacket, qs: seq<IPPacket>, ws: seq<seq<Byte>>, order: seq<nat>)
    requires Unfragmented(p) && Cut(p, qs, ws) && |ws| > 1 && forall q :: q in qs ==> Encodable(q)
    requires |order| > 0 && forall i :: 0 <= i < |order| ==> order[i] < |ws| && Parse(ws[order[i]]) == Ok(qs[order[i]])
    requires ArrivalOrder.Distinct(order[..|order| - 1]) != Indices(ws)
    ensures AddAll(None, Delivered(ws, order)).1 ==
      (if ArrivalOrder.Distinct(order) == Indices(ws) then Whole(Ok(Normal(p))) else Incomplete)
  {
    ArrivalsMatch(p, qs, ws, order);
    FirstAddStarts(Delivered(ws, order), ArrivalOrder.Arrivals(Views(qs), order));
    CutRuns(p, qs, ws, order);
    OriginalParses(p);
  }

  lemma OriginalParses(p: IPPacket)
    requires Encodable(p)
    ensures PacketCodec.ParseIPPacket(Wire(p)) == Ok(Normal(p))
  {
    ParseOfMarshal(p, []);
    assert Wire(p) + [] == Wire(p);
    PacketCodec.FourParses(Wire(p));
  }

  lemma CutRuns(p: IPPacket, qs: seq<IPPacket>, ws: seq<seq<Byte>>, order: seq<nat>)
    requires Unfragmented(p) && Cut(p, qs, ws) && forall q :: q in qs ==> Encodable(q)
    requires |order| > 0 && forall i :: 0 <= i < |order| ==> order[i] < |ws| && Reassembly.ValidFragment(Views(qs)[order[i]])
    requires ArrivalOrder.Distinct(order[..|order| - 1]) != Indices(ws)
    ensures var fs := Views(qs);
      var o := Reassembly.Run(Reassembly.Started(fs[order[0]]), ArrivalOrder.Arrivals(fs, order), 0);
      if ArrivalOrder.Distinct(order) == Indices(ws) then o.Complete? && o.wire == Wire(p) else o.Pending?
  {
    CutIsSplit(p, qs, ws);
    assert ArrivalOrder.Everything(Views(qs)) == Indices(ws);
    ArrivalOrder.AnyOrderRestores(Origin(p, qs[0]), Views(qs), order, 0);
    assert NormalSlice(p, qs[0]);
    RestoredIsOriginal(p, qs[0]);
  }
}