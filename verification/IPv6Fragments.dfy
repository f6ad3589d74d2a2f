/** Cutting one IPv6 packet into fragments (section 4.5 of RFC 8200, section 5 of RFC 7112). */
module IPv6Fragments {
  import opened Wrappers
  import opened Bytes
  import opened IPv6Chain
  import opened IPv6Codec
  import opened FragmentRanges
  import InPlace = IPv6InPlace
  import V4 = IPv4Codec

  // ---------------------------------------------------------------- positions in a chain

  /** The octets that some headers take. */
  function Size(headers: seq<Header>): (n: nat) {
    if headers == [] then 0 else 1 + |headers[0].data| + Size(headers[1..])
  }

  function Suffix(c: Chain, i: nat): (s: Chain)
    requires i <= |c.headers|
  {
    Chain(c.headers[i..], c.protocol, c.payload)
  }

  /** What the link in front of position `i` says. */
  function KindAt(c: Chain, i: nat): (kind: Byte)
    requires i <= |c.headers|
    ensures kind == First(Suffix(c, i))
  {
    if i < |c.headers| then c.headers[i].kind else c.protocol
  }

  /** Headers linked to each other, the last of them to `next`. */
  function Linked(headers: seq<Header>, next: Byte): (octets: seq<Byte>)
    ensures |octets| == Size(headers)
  {
    if headers == [] then []
    else [if |headers| > 1 then headers[1].kind else next] + headers[0].data + Linked(headers[1..], next)
  }

  lemma {:induction false} SizeSnoc(headers: seq<Header>, i: nat)
    requires i < |headers|
    ensures Size(headers[..i + 1]) == Size(headers[..i]) + 1 + |headers[i].data|
    decreases i
  {
    if i > 0 {
      SizeSnoc(headers[1..], i - 1);
      assert headers[1..][..i] == headers[..i + 1][1..] && headers[1..][..i - 1] == headers[..i][1..];
    }
  }

  lemma Grouped(a: seq<Byte>, b: seq<Byte>, c: seq<Byte>)
    ensures a + (b + c) == a + b + c
  {
  }

  /** A chain is its first headers, linked to the rest, and the rest. */
  lemma {:induction false} EncodedSplits(c: Chain, i: nat)
    requires i <= |c.headers|
    ensures Encoded(c) == Linked(c.headers[..i], KindAt(c, i)) + Encoded(Suffix(c, i))
    decreases i
  {
    if i == 0 {
      assert Suffix(c, 0) == c;
    } else {
      var hs, next := c.headers[..i], KindAt(c, i);
      EncodedSplits(Rest(c), i - 1);
      assert Suffix(Rest(c), i - 1) == Suffix(c, i);
      assert hs[1..] == Rest(c).headers[..i - 1];
      var head := [First(Rest(c))] + c.headers[0].data;
      assert Linked(hs, next) == head + Linked(hs[1..], next) by {
        assert First(Rest(c)) == if |hs| > 1 then hs[1].kind else next;
      }
      Grouped(head, Linked(hs[1..], next), Encoded(Suffix(c, i)));
    }
  }

  lemma {:induction false} ProperSuffix(c: Chain, first: bool, seen: bool, i: nat) returns (later: bool)
    requires Proper(c, first, seen) && !EndsInFragment(c) && i <= |c.headers|
    ensures Proper(Suffix(c, i), first && i == 0, later)
    ensures later == (seen || AnyFragment(c.headers, i))
    decreases i
  {
    if i == 0 {
      assert Suffix(c, 0) == c;
      later := seen;
    } else {
      SuffixEnds(c, 0);
      later := ProperSuffix(Rest(c), false, seen || c.headers[0].kind == FRAGMENT, i - 1);
      assert Suffix(Rest(c), i - 1) == Suffix(c, i);
      AnyFragmentRest(c.headers, i);
    }
  }

  /** Whether a Fragment header is among the first `i`. */
  predicate AnyFragment(headers: seq<Header>, i: nat)
    requires i <= |headers|
  {
    exists j :: 0 <= j < i && headers[j].kind == FRAGMENT
  }

  lemma AnyFragmentRest(headers: seq<Header>, i: nat)
    requires 0 < i <= |headers|
    ensures AnyFragment(headers, i) <==> headers[0].kind == FRAGMENT || AnyFragment(headers[1..], i - 1)
  {
    var rest := headers[1..];
    assert forall j :: 0 <= j < i - 1 ==> rest[j] == headers[j + 1];
    assert forall j :: 0 < j < i ==> headers[j] == rest[j - 1];
  }

  /** The octets of header `i` where they lie. */
  lemma HeaderAt(c: Chain, i: nat) returns (seen: bool)
    requires Proper(c, true, false) && !EndsInFragment(c) && i < |c.headers|
    ensures var at := Size(c.headers[..i]); var h := c.headers[i]; var n := 1 + |h.data|; var octets := Encoded(c);
      && at + n == Size(c.headers[..i + 1]) <= |octets| && n >= 8 && LengthOf(h.kind, octets[at..]) == n
      && octets[at] == KindAt(c, i + 1) && octets[at + 1..at + n] == h.data && GoodHeader(h)
      && (h.kind == HOP_BY_HOP ==> i == 0) && (h.kind == FRAGMENT ==> !seen && Atomic(h.data))
    ensures seen == AnyFragment(c.headers, i)
  {
    EncodedSplits(c, i);
    SizeSnoc(c.headers, i);
    seen := ProperSuffix(c, true, false, i);
    var s := Suffix(c, i);
    EncodedFront(s);
    SuffixEnds(c, i);
    FrontCut(Encoded(c), Linked(c.headers[..i], KindAt(c, i)), Encoded(s), 1 + |c.headers[i].data|);
    assert Rest(s) == Suffix(c, i + 1);
  }

  lemma FrontCut(octets: seq<Byte>, front: seq<Byte>, rest: seq<Byte>, n: nat)
    requires octets == front + rest && 1 <= n <= |rest|
    ensures var at := |front|;
      octets[at..] == rest && octets[at] == rest[0] && octets[at + 1..at + n] == rest[1..n]
  {
  }

  lemma SuffixEnds(c: Chain, i: nat)
    requires i < |c.headers| && !EndsInFragment(c)
    ensures !EndsInFragment(Suffix(c, i))
  {
  }

  // ---------------------------------------------------------------- the fragmentation point

  /** Where a Fragment header belongs, what follows there, and where an atomic one stands already. */
  datatype Point = Point(link: nat, insertion: nat, next: Byte, atomicAt: int, atomicLink: int)

  /** The packet octet that names what follows some headers. */
  function Link(headers: seq<Header>): (at: nat) {
    if headers == [] then 6 else 40 + Size(headers[..|headers| - 1])
  }

  /** The Per-Fragment headers reach through the last Hop-by-Hop or Routing header among the first `i`. */
  function Boundary(headers: seq<Header>, i: nat): (k: nat)
    requires i <= |headers|
    ensures k <= i
  {
    if i == 0 then 0
    else if headers[i - 1].kind == HOP_BY_HOP || headers[i - 1].kind == ROUTING then i
    else Boundary(headers, i - 1)
  }

  /** The last Fragment header among the first `i`, or -1. */
  function AtomicIndex(headers: seq<Header>, i: nat): (j: int)
    requires i <= |headers|
    ensures -1 <= j < i && (j >= 0 ==> headers[j].kind == FRAGMENT)
    ensures j < 0 <==> forall n :: 0 <= n < i ==> headers[n].kind != FRAGMENT
  {
    if i == 0 then -1 else if headers[i - 1].kind == FRAGMENT then i - 1 else AtomicIndex(headers, i - 1)
  }

  /** Whether the fragmentable part has begun among the first `i` headers. */
  predicate Started(headers: seq<Header>, i: nat)
    requires i <= |headers|
  {
    exists j :: 0 <= j < i && (headers[j].kind == AUTHENTICATION || headers[j].kind == MOBILITY)
  }

  /** No Routing header stands behind the start of the fragmentable part. */
  predicate Placeable(headers: seq<Header>, i: nat)
    requires i <= |headers|
  {
    forall j :: 0 <= j < i && headers[j].kind == ROUTING ==> !Started(headers, j)
  }

  function PointAt(c: Chain, i: nat): (p: Point)
    requires i <= |c.headers|
  {
    var k, j := Boundary(c.headers, i), AtomicIndex(c.headers, i);
    Point(Link(c.headers[..k]), 40 + Size(c.headers[..k]), KindAt(c, k),
      if j < 0 then -1 else 40 + Size(c.headers[..j]), if j < 0 then -1 else Link(c.headers[..j]))
  }

  /** One header of the inspection below. */
  lemma PointNext(c: Chain, i: nat)
    requires i < |c.headers|
    ensures PointAt(c, i + 1) == Moved(PointAt(c, i), c, i)
  {
    var hs := c.headers;
    LinkBehind(hs, i);
    LinkBehind(hs, i + 1);
    var k, j := Boundary(hs, i + 1), AtomicIndex(hs, i + 1);
    assert k == if hs[i].kind == HOP_BY_HOP || hs[i].kind == ROUTING then i + 1 else Boundary(hs, i);
    assert j == if hs[i].kind == FRAGMENT then i else AtomicIndex(hs, i);
  }

  lemma LinkBehind(headers: seq<Header>, i: nat)
    requires i <= |headers|
    ensures Link(headers[..i]) == if i == 0 then 6 else 40 + Size(headers[..i - 1])
  {
    assert i > 0 ==> headers[..i][..i - 1] == headers[..i - 1];
  }

  /** What header `i` does to the point. */
  function Moved(p: Point, c: Chain, i: nat): (q: Point)
    requires i < |c.headers|
  {
    var h := c.headers[i];
    if h.kind == HOP_BY_HOP || h.kind == ROUTING
    then p.(link := 40 + Size(c.headers[..i]), insertion := 40 + Size(c.headers[..i + 1]), next := KindAt(c, i + 1))
    else if h.kind == FRAGMENT then p.(atomicAt := 40 + Size(c.headers[..i]), atomicLink := if i == 0 then 6 else 40 + Size(c.headers[..i - 1]))
    else p
  }

  lemma PlaceableNext(headers: seq<Header>, i: nat)
    requires i < |headers|
    ensures Placeable(headers, i + 1) <==> Placeable(headers, i) && !(headers[i].kind == ROUTING && Started(headers, i))
    ensures Started(headers, i + 1) <==> Started(headers, i) || headers[i].kind == AUTHENTICATION || headers[i].kind == MOBILITY
  {
  }

  lemma {:induction false} NotPlaceable(headers: seq<Header>, i: nat)
    requires i <= |headers| && !Placeable(headers, i)
    ensures !Placeable(headers, |headers|)
  {
  }

  /** Where the header before position `i` starts, or -1. */
  function PreviousAt(headers: seq<Header>, i: nat): (at: int)
    requires i <= |headers|
  {
    if i == 0 then -1 else Size(headers[..i - 1])
  }

  /** Inspects header `i` of a packet whose chain is `c`; refused if it makes the packet unfit for fragmentation. */
  method InspectHeader(payload: seq<Byte>, next: Byte, offset: nat, previous: int, started: bool, point: Point, ghost c: Chain, ghost i: nat)
    returns (behind: nat, after: Point, refused: bool)
    requires payload == Encoded(c) && Proper(c, true, false) && !EndsInFragment(c) && i < |c.headers|
    requires offset == Size(c.headers[..i]) && next == c.headers[i].kind && previous == PreviousAt(c.headers, i)
    requires point.atomicAt >= 0 <==> AtomicIndex(c.headers, i) >= 0
    ensures refused <==> next == ROUTING && started
    ensures behind == Size(c.headers[..i + 1]) <= |payload| && offset < behind && payload[offset] == KindAt(c, i + 1)
    ensures !refused ==> after == Moved(point, c, i)
  {
    ghost var seen := HeaderAt(c, i);
    var length := LengthOf(next, payload[offset..]);
    behind, after := offset + length, point;
    refused := (next == HOP_BY_HOP && offset != 0) || (next == ROUTING && started)
      || (next == FRAGMENT && (point.atomicAt >= 0 || !Atomic(payload[offset + 1..offset + length])));
    if next == HOP_BY_HOP || next == ROUTING {
      after := point.(link := 40 + offset, insertion := 40 + behind, next := payload[offset]);
    } else if next == FRAGMENT {
      after := point.(atomicAt := 40 + offset, atomicLink := LinkOf(previous));
    }
  }

  /** The inspection has come to position `i`. */
  predicate Inspected(c: Chain, i: nat, next: Byte, offset: nat, previous: int, started: bool, point: Point) {
    && i <= |c.headers| && next == KindAt(c, i) && offset == Size(c.headers[..i]) && previous == PreviousAt(c.headers, i)
    && started == Started(c.headers, i) && Placeable(c.headers, i) && point == PointAt(c, i)
  }

  lemma InspectedNext(c: Chain, i: nat, next: Byte, offset: nat, previous: int, started: bool, point: Point)
    requires i < |c.headers| && Inspected(c, i, next, offset, previous, started, point)
    ensures if next == ROUTING && started then !Placeable(c.headers, |c.headers|)
      else Inspected(c, i + 1, KindAt(c, i + 1), Size(c.headers[..i + 1]), offset,
                     started || next == AUTHENTICATION || next == MOBILITY, Moved(point, c, i))
  {
    PointNext(c, i);
    PlaceableNext(c.headers, i);
    if next == ROUTING && started {
      NotPlaceable(c.headers, i + 1);
    }
  }

  /** Finds the boundary between the Per-Fragment headers and fragmentable data, and an atomic Fragment header. */
  method InspectFragmentPoint(packet: seq<Byte>, ghost c: Chain) returns (r: Option<Point>)
    requires |packet| >= 40 && packet[40..] == Encoded(c) && packet[6] == First(c) && Proper(c, true, false) && !EndsInFragment(c)
    ensures r == if Placeable(c.headers, |c.headers|) then Some(PointAt(c, |c.headers|)) else None
  {
    var payload := packet[40..];
    var next, offset, previous, started := packet[6], 0, -1, false;
    var point := Point(6, 40, packet[6], -1, -1);
    ghost var i := 0;
    while Traversable(next)
      invariant Inspected(c, i, next, offset, previous, started, point)
      decreases |c.headers| - i
    {
      LastIsTerminal(c);
      InspectedNext(c, i, next, offset, previous, started, point);
      var behind, after, refused := InspectHeader(payload, next, offset, previous, started, point, c, i);
      if refused {
        return None;
      }
      started := started || next == AUTHENTICATION || next == MOBILITY;
      next, offset, previous, point := payload[offset], behind, offset, after;
      i := i + 1;
    }
    AllInspected(c, i);
    return Some(point);
  }

  /** A chain of whole datagrams ends in something that is not an extension header, and only there. */
  lemma LastIsTerminal(c: Chain)
    requires Proper(c, true, false) && !EndsInFragment(c)
    ensures !Traversable(c.protocol)
  {
    var seen := ProperSuffix(c, true, false, |c.headers|);
  }

  lemma AllInspected(c: Chain, i: nat)
    requires Proper(c, true, false) && !EndsInFragment(c) && i <= |c.headers| && !Traversable(KindAt(c, i))
    ensures i == |c.headers|
  {
    if i < |c.headers| {
      var seen := HeaderAt(c, i);
    }
  }

  // ---------------------------------------------------------------- removing an atomic Fragment header

  /** The chain without its atomic Fragment header. */
  function Whole(c: Chain): (d: Chain) {
    var j := AtomicIndex(c.headers, |c.headers|);
    if j < 0 then c else Chain(c.headers[..j] + c.headers[j + 1..], c.protocol, c.payload)
  }

  lemma {:induction false} ProperWithout(c: Chain, j: nat, first: bool, seen: bool)
    requires Proper(c, first, seen) && !EndsInFragment(c) && j < |c.headers| && c.headers[j].kind == FRAGMENT
    ensures Proper(Chain(c.headers[..j] + c.headers[j + 1..], c.protocol, c.payload), first, true)
    decreases j
  {
    var d := Chain(c.headers[..j] + c.headers[j + 1..], c.protocol, c.payload);
    if j == 0 {
      assert d == Rest(c);
      if first {
        ProperFirst(d);
      }
    } else {
      SuffixEnds(c, 1);
      assert Suffix(c, 1) == Rest(c);
      assert Rest(c).headers[j - 1] in Rest(c).headers;
      if c.headers[0].kind == FRAGMENT {
        ProperUnseen(Rest(c), false);
      }
      ProperWithout(Rest(c), j - 1, false, seen);
      RestWithout(c.headers, j);
    }
  }

  lemma RestWithout<T>(s: seq<T>, j: nat)
    requires 0 < j < |s|
    ensures (s[..j] + s[j + 1..])[1..] == s[1..][..j - 1] + s[1..][j..]
  {
  }

  lemma ProperFirst(c: Chain)
    requires Proper(c, false, true)
    ensures Proper(c, true, true)
  {
  }

  /** With the Fragment header gone, none is left. */
  lemma {:induction false} ProperUnseen(c: Chain, first: bool)
    requires Proper(c, first, true)
    ensures Proper(c, first, false) && forall h :: h in c.headers ==> h.kind != FRAGMENT
    decreases |c.headers|
  {
    if c.headers != [] {
      ProperUnseen(Rest(c), false);
      assert c.headers == [c.headers[0]] + Rest(c).headers;
    }
  }

  lemma WholeIsProper(c: Chain)
    requires Proper(c, true, false) && !EndsInFragment(c)
    ensures var d := Whole(c); Proper(d, true, false) && forall h :: h in d.headers ==> h.kind != FRAGMENT
  {
    var j := AtomicIndex(c.headers, |c.headers|);
    if j >= 0 {
      ProperWithout(c, j, true, false);
      ProperUnseen(Whole(c), true);
    } else {
      assert forall h :: h in c.headers ==> h.kind != FRAGMENT;
    }
  }

  /** Removal changes neither where a Fragment header may go nor, but for its own eight octets, the size. */
  lemma WholeKeeps(c: Chain)
    requires Proper(c, true, false) && !EndsInFragment(c)
    ensures var d := Whole(c);
      && |Encoded(d)| <= |Encoded(c)| <= |Encoded(d)| + 8
      && Placeable(d.headers, |d.headers|) == Placeable(c.headers, |c.headers|)
  {
    var j := AtomicIndex(c.headers, |c.headers|);
    if j >= 0 {
      WholeSize(c, j);
      PlaceableWithout(c.headers, j);
    }
  }

  lemma WholeSize(c: Chain, j: nat)
    requires Proper(c, true, false) && !EndsInFragment(c) && j < |c.headers| && c.headers[j].kind == FRAGMENT
    ensures |Encoded(c)| == |Encoded(Chain(c.headers[..j] + c.headers[j + 1..], c.protocol, c.payload))| + 8
  {
    var d := Chain(c.headers[..j] + c.headers[j + 1..], c.protocol, c.payload);
    EncodedSplits(c, j + 1);
    EncodedSplits(d, j);
    SizeSnoc(c.headers, j);
    var seen := HeaderAt(c, j);
    assert d.headers[..j] == c.headers[..j] && Suffix(d, j) == Suffix(c, j + 1);
  }

  lemma PlaceableWithout(headers: seq<Header>, j: nat)
    requires j < |headers| && headers[j].kind == FRAGMENT
    ensures var rest := headers[..j] + headers[j + 1..]; Placeable(rest, |rest|) == Placeable(headers, |headers|)
  {
    var rest := headers[..j] + headers[j + 1..];
    forall n | 0 <= n < |rest| ensures Started(rest, n) == Started(headers, if n < j then n else n + 1) {
      StartedWithout(headers, j, n);
    }
    assert forall n :: 0 <= n < |rest| ==> rest[n] == headers[if n < j then n else n + 1];
    if !Placeable(headers, |headers|) {
      var n :| 0 <= n < |headers| && headers[n].kind == ROUTING && Started(headers, n);
      assert rest[if n < j then n else n - 1].kind == ROUTING;
    }
  }

  lemma StartedWithout(headers: seq<Header>, j: nat, n: nat)
    requires j < |headers| && headers[j].kind == FRAGMENT && n < |headers| - 1
    ensures Started(headers[..j] + headers[j + 1..], n) == Started(headers, if n < j then n else n + 1)
  {
    var rest := headers[..j] + headers[j + 1..];
    var m := if n < j then n else n + 1;
    if Started(headers, m) {
      var i :| 0 <= i < m && (headers[i].kind == AUTHENTICATION || headers[i].kind == MOBILITY);
      assert rest[if i < j then i else i - 1] == headers[i];
    }
  }

  // ---------------------------------------------------------------- the octets in front of a position

  /** The base header and some headers behind it, linked to `next`; `size` octets follow the base header in all. */
  function Front(p: IPPacket, headers: seq<Header>, next: Byte, size: U16): (octets: seq<Byte>)
    requires Framed(p)
    ensures |octets| == 40 + Size(headers)
  {
    BaseHeader(p, if headers == [] then next else headers[0].kind, size) + Linked(headers, next)
  }

  lemma FrontSplits(p: IPPacket, c: Chain, i: nat)
    requires Framed(p) && i <= |c.headers| && |Encoded(c)| <= 65535
    ensures RawWire(WithChain(p, c)) == Front(p, c.headers[..i], KindAt(c, i), |Encoded(c)|) + Encoded(Suffix(c, i))
  {
    EncodedSplits(c, i);
    var base := BaseHeader(p, First(c), |Encoded(c)|);
    assert BaseHeader(WithChain(p, c), First(c), |Encoded(c)|) == base;
    Grouped(base, Linked(c.headers[..i], KindAt(c, i)), Encoded(Suffix(c, i)));
  }

  /** Overwriting the last link of some headers links them to something else. */
  lemma {:induction false} LinkedAgain(headers: seq<Header>, a: Byte, b: Byte)
    requires headers != []
    ensures var at := Size(headers[..|headers| - 1]);
      at < Size(headers) && Linked(headers, a)[at] == a && Linked(headers, a)[at := b] == Linked(headers, b)
    decreases |headers|
  {
    SizeSnoc(headers, |headers| - 1);
    assert headers[..|headers|] == headers;
    if |headers| > 1 {
      LinkedAgain(headers[1..], a, b);
      assert headers[..|headers| - 1][1..] == headers[1..][..|headers| - 2];
      var head := [headers[1].kind] + headers[0].data;
      assert Linked(headers, a) == head + Linked(headers[1..], a) && Linked(headers, b) == head + Linked(headers[1..], b);
    }
  }

  lemma FrontAgain(p: IPPacket, headers: seq<Header>, a: Byte, b: Byte, size: U16)
    requires Framed(p)
    ensures var front := Front(p, headers, a, size);
      Link(headers) < |front| && front[Link(headers)] == a && front[Link(headers) := b] == Front(p, headers, b, size)
  {
    if headers != [] {
      LinkedAgain(headers, a, b);
    }
  }

  lemma FrontResized(p: IPPacket, headers: seq<Header>, next: Byte, size: U16, other: U16)
    requires Framed(p)
    ensures Splice(Front(p, headers, next, size), 4, Encode16(other)) == Front(p, headers, next, other)
  {
  }

  /** Cuts an atomic Fragment header out of a packet and relinks what stood before it. */
  method RemoveAtomic(packet: seq<Byte>, at: nat, link: nat, ghost q: IPPacket, ghost c: Chain) returns (whole: seq<Byte>)
    requires Framed(q) && Proper(c, true, false) && !EndsInFragment(c) && |Encoded(c)| <= 65535
    requires packet == RawWire(WithChain(q, c)) && AtomicIndex(c.headers, |c.headers|) >= 0
    requires at == PointAt(c, |c.headers|).atomicAt && link == PointAt(c, |c.headers|).atomicLink
    ensures |Encoded(Whole(c))| + 8 == |Encoded(c)| && whole == RawWire(WithChain(q, Whole(c)))
  {
    ghost var front, rest, size := WholeOctets(q, c, AtomicIndex(c.headers, |c.headers|), at, link);
    CutOut(front, rest, link, size);
    whole := CutAndRelink(packet, at, link, size);
  }

  /** The octets' work: relinks, moves the rest down, shortens, and stores the new length. */
  method CutAndRelink(packet: seq<Byte>, at: nat, link: nat, ghost size: U16) returns (whole: seq<Byte>)
    requires link < at && at + 8 <= |packet| && |packet| == 48 + size && at >= 40
    ensures var relinked := packet[link := packet[at]];
      whole == Splice(relinked[..at] + relinked[at + 8..], 4, Encode16(size))
  {
    whole := packet[link := packet[at]];
    whole := whole[..at] + whole[at + 8..];
    whole := Splice(whole, 4, Encode16(|whole| - 40));
  }

  /** The packet around an atomic Fragment header, and without it. */
  lemma WholeOctets(q: IPPacket, c: Chain, j: nat, at: nat, link: nat) returns (front: seq<Byte>, rest: seq<Byte>, size: U16)
    requires Framed(q) && Proper(c, true, false) && !EndsInFragment(c) && |Encoded(c)| <= 65535
    requires j == AtomicIndex(c.headers, |c.headers|) && at == 40 + Size(c.headers[..j]) && link == Link(c.headers[..j])
    ensures |Encoded(Whole(c))| + 8 == |Encoded(c)| && |rest| >= 8 && size == |front| + |rest| - 48
    ensures RawWire(WithChain(q, c)) == front + rest && 40 <= |front| == at && link < |front|
    ensures RawWire(WithChain(q, Whole(c))) == Splice(front[link := rest[0]], 4, Encode16(size)) + rest[8..]
  {
    var d, hs := Whole(c), c.headers[..j];
    WholeSize(c, j);
    front, rest, size := Front(q, hs, FRAGMENT, |Encoded(c)|), Encoded(Suffix(c, j)), |Encoded(d)|;
    FrontSplits(q, c, j);
    FragmentHeaderFront(c, j);
    FrontAgain(q, hs, FRAGMENT, rest[0], |Encoded(c)|);
    assert d.headers[..j] == hs && Suffix(d, j) == Suffix(c, j + 1);
    FrontSplits(q, d, j);
    FrontResized(q, hs, rest[0], |Encoded(c)|, |Encoded(d)|);
  }

  lemma FragmentHeaderFront(c: Chain, j: nat)
    requires Proper(c, true, false) && !EndsInFragment(c) && j < |c.headers| && c.headers[j].kind == FRAGMENT
    ensures var rest := Encoded(Suffix(c, j)); |rest| >= 8 && rest[0] == KindAt(c, j + 1) && rest[8..] == Encoded(Suffix(c, j + 1))
  {
    var seen := HeaderAt(c, j);
    EncodedSplits(c, j);
    SuffixEnds(c, j);
    EncodedFront(Suffix(c, j));
    assert Rest(Suffix(c, j)) == Suffix(c, j + 1);
  }

  /** The octets' part of the removal. */
  lemma CutOut(front: seq<Byte>, rest: seq<Byte>, link: nat, size: U16)
    requires link < |front| && |rest| >= 8 && 40 <= |front| && |front| + |rest| == 48 + size
    ensures var packet, at := front + rest, |front|; var relinked := packet[link := packet[at]]; var cut := relinked[..at] + relinked[at + 8..];
      |cut| == 40 + size && Splice(cut, 4, Encode16(size)) == Splice(front[link := rest[0]], 4, Encode16(size)) + rest[8..]
  {
    var packet, at := front + rest, |front|;
    var relinked := packet[link := packet[at]];
    assert relinked[..at] == front[link := rest[0]] && relinked[at + 8..] == rest[8..];
    SpliceHead(front[link := rest[0]], rest[8..], 4, Encode16(size));
  }

  // ---------------------------------------------------------------- the first fragment

  /** How far into the upper layer the first fragment must reach, or -1 if its known header is cut short. */
  function UpperRequired(protocol: Byte, payload: seq<Byte>): (n: int)
    ensures n == -1 || 0 <= n <= |payload|
  {
    var required: int :=
      if protocol == 6 then if |payload| < 20 then -1 else AtLeast(payload[12] as int / 16 * 4, 20)
      else if protocol in {1, 2, 17, 50, 58, 136} then 8
      else if protocol == 4 then if |payload| < 20 then -1 else AtLeast(payload[0] as int % 16 * 4, 20)
      else if protocol == 33 then
        if |payload| < 12 then -1 else AtLeast(payload[4] as int * 4, if payload[8] % 2 == 1 then 16 else 12)
      else if protocol == 41 then 40
      else if protocol == 132 then 12
      else 0;
    if required > |payload| then -1 else required
  }

  function AtLeast(n: int, least: int): (m: int) { if n < least then least else n }

  /** How far the extension headers and the upper-layer header reach, or -1 if they are not all there. */
  function HeadersEnd(next: Byte, rest: seq<Byte>): (n: int)
    ensures n == -1 || 0 <= n <= |rest|
    decreases |rest|
  {
    if !Traversable(next) then UpperRequired(next, rest)
    else if next == FRAGMENT || LengthOf(next, rest) < 0 then -1
    else
      var n := LengthOf(next, rest);
      var more := HeadersEnd(rest[0], rest[n..]);
      if more < 0 then -1 else n + more
  }

  /** What a walk that has come to `offset` makes of the end it finds from there. */
  function EndFrom(offset: nat, end: int): (n: int) { if end < 0 then -1 else offset + end }

  /** Where the headers end that a walk finds from `offset` on. */
  function EndAt(kind: Byte, payload: seq<Byte>, offset: nat): (n: int)
    requires offset <= |payload|
  {
    EndFrom(offset, HeadersEnd(kind, payload[offset..]))
  }

  lemma HeadersEndStep(kind: Byte, payload: seq<Byte>, offset: nat)
    requires offset <= |payload|
    ensures var rest := payload[offset..]; var n := LengthOf(kind, rest);
      EndAt(kind, payload, offset) ==
        if !Traversable(kind) then EndFrom(offset, UpperRequired(kind, rest))
        else if kind == FRAGMENT || n < 0 then -1
        else EndAt(payload[offset], payload, offset + n)
  {
    var n := LengthOf(kind, payload[offset..]);
    if n >= 0 {
      assert payload[offset..][n..] == payload[offset + n..];
    }
  }

  /** The walker's loop. */
  method FirstFragmentHeadersEnd(next: Byte, payload: seq<Byte>) returns (end: int)
    ensures end == HeadersEnd(next, payload)
  {
    var kind, offset := next, 0;
    ghost var goal := HeadersEnd(next, payload);
    assert payload[0..] == payload;
    HeadersEndStep(kind, payload, offset);
    while Traversable(kind)
      invariant 0 <= offset <= |payload| && goal == EndAt(kind, payload, offset)
      decreases |payload| - offset
    {
      HeadersEndStep(kind, payload, offset);
      var n := LengthOf(kind, payload[offset..]);
      if kind == FRAGMENT || n < 0 {
        return -1;
      }
      kind, offset := payload[offset], offset + n;
    }
    HeadersEndStep(kind, payload, offset);
    return EndFrom(offset, UpperRequired(kind, payload[offset..]));
  }

  /** A cut behind the headers leaves all of them visible: the first fragment passes the receiver's check of RFC 7112. */
  lemma {:induction false} HeadersSurviveCut(next: Byte, rest: seq<Byte>, cut: nat)
    requires 0 <= HeadersEnd(next, rest) <= cut <= |rest|
    ensures HeadersEnd(next, rest[..cut]) == HeadersEnd(next, rest)
    decreases |rest|
  {
    if Traversable(next) {
      var n := LengthOf(next, rest);
      assert rest[..cut][n..] == rest[n..][..cut - n];
      HeadersSurviveCut(rest[0], rest[n..], cut - n);
    }
  }

  // ---------------------------------------------------------------- one packet into fragments

  /** The data of a Fragment header for one range. */
  function FragmentData(range: Range, id: nat): (data: seq<Byte>)
    requires range.offset < 0xFFFF && range.offset % 8 == 0 && id < 0x1_0000_0000
    ensures |data| == 7 && OffsetOf(data) == range.offset && MoreOf(data) == range.more && Read32(data, 3) == id
    ensures data == [0] + Encode16(FieldOf(data)) + data[3..]
  {
    var data: seq<Byte> := [0] + Encode16(range.offset + if range.more then 1 else 0) + Encode32(id);
    assert Read16(data, 1) == range.offset + if range.more then 1 else 0;
    assert data[3..] == Encode32(id);
    data
  }

  /** The chain of the fragment that carries one range of what follows the first `k` headers. */
  function FragmentChain(d: Chain, k: nat, range: Range, id: nat): (f: Chain)
    requires k <= |d.headers| && range.End() <= |Encoded(Suffix(d, k))|
    requires range.offset < 0xFFFF && range.offset % 8 == 0 && id < 0x1_0000_0000
  {
    Chain(d.headers[..k] + [Header(FRAGMENT, FragmentData(range, id))], KindAt(d, k), Encoded(Suffix(d, k))[range.offset..range.End()])
  }

  lemma FragmentOctets(q: IPPacket, d: Chain, k: nat, range: Range, id: nat)
    requires Framed(q) && k <= |d.headers| && range.End() <= |Encoded(Suffix(d, k))| <= 65535
    requires range.offset < 0xFFFF && range.offset % 8 == 0 && id < 0x1_0000_0000 && Size(d.headers[..k]) + 8 + range.size <= 65535
    ensures var f := FragmentChain(d, k, range, id);
      && |Encoded(f)| == Size(d.headers[..k]) + 8 + range.size
      && RawWire(WithChain(q, f)) == Front(q, d.headers[..k], FRAGMENT, |Encoded(f)|) + ([KindAt(d, k)] + FragmentData(range, id) + f.payload)
  {
    var f := FragmentChain(d, k, range, id);
    EncodedSplits(f, k);
    assert f.headers[..k] == d.headers[..k] && f.headers[k..] == [Header(FRAGMENT, FragmentData(range, id))];
    var s := Suffix(f, k);
    assert Rest(s) == Chain([], f.protocol, f.payload);
    assert Encoded(s) == [KindAt(d, k)] + FragmentData(range, id) + f.payload;
    FrontSplits(q, f, k);
  }

  // ---------------------------------------------------------------- what the fragments are

  ghost predicate InNormalForm(headers: seq<Header>) {
    forall h :: h in headers ==> GoodHeader(h) && NormalHeader(h) == h
  }

  lemma NormalFormStays(c: Chain)
    requires InNormalForm(c.headers)
    ensures AllGood(c.headers) && NormalChain(c) == c
  {
    assert forall i :: 0 <= i < |c.headers| ==> c.headers[i] in c.headers;
    assert NormalHeaders(c.headers) == c.headers;
  }

  lemma NormalChainForm(c: Chain)
    requires AllGood(c.headers)
    ensures InNormalForm(NormalChain(c).headers)
  {
    forall h | h in NormalChain(c).headers ensures GoodHeader(h) && NormalHeader(h) == h {
      var i :| 0 <= i < |c.headers| && NormalChain(c).headers[i] == h;
      NormalHeaderStays(c.headers[i]);
    }
  }

  /** Some leading headers of a proper chain, closed by the header of a fragment, are a proper chain. */
  lemma {:induction false} ProperFront(d: Chain, k: nat, first: bool, seen: bool, h: Header, f: Chain)
    requires Proper(d, first, seen) && k <= |d.headers| && forall i :: 0 <= i < k ==> d.headers[i].kind != FRAGMENT
    requires !seen && h.kind == FRAGMENT && GoodHeader(h) && !Atomic(h.data) && f.headers == d.headers[..k] + [h] && ValidFragment(h.data, |f.payload|)
    ensures Proper(f, first, seen)
    decreases k
  {
    if k > 0 {
      assert f.headers[0] == d.headers[0];
      assert Rest(f).headers == Rest(d).headers[..k - 1] + [h];
      forall i | 0 <= i < k - 1 ensures Rest(d).headers[i].kind != FRAGMENT {
        assert Rest(d).headers[i] == d.headers[i + 1];
      }
      ProperFront(Rest(d), k - 1, false, seen, h, Rest(f));
    }
  }

  /** What every fragment of a plan with more than one range has to have. */
  predicate Carriable(d: Chain, k: nat, range: Range, id: nat) {
    && k <= |d.headers| && range.End() <= |Encoded(Suffix(d, k))| <= 65535 && range.size > 0
    && range.offset < 0xFFFF && range.offset % 8 == 0 && id < 0x1_0000_0000
    && Size(d.headers[..k]) + 8 + range.size <= 65535
    && (range.offset != 0 || range.more) && (range.more ==> range.size % 8 == 0)
  }

  /** A datagram's chain as fragmentation takes it: proper, in normal form, without a Fragment header. */
  ghost predicate Sendable(d: Chain) {
    && Proper(d, true, false) && InNormalForm(d.headers) && (forall h :: h in d.headers ==> h.kind != FRAGMENT)
    && |Encoded(d)| <= 65535
  }

  type WholeChain = d: Chain | Sendable(d) ghost witness Chain([], NO_NEXT_HEADER, [])

  /** A packet's fields, to be sent with other chains. */
  type Template = p: IPPacket | Framed(p)
    ghost witness V4.IPPacket(seq(16, _ => 1), seq(16, _ => 1), 0, 0, 0, 0, 0, false, false, 0, [], [])

  lemma FragmentIsProper(d: WholeChain, k: nat, range: Range, id: nat)
    requires Carriable(d, k, range, id)
    ensures var f := FragmentChain(d, k, range, id);
      Proper(f, true, false) && InNormalForm(f.headers) && EndsInFragment(f) && |Encoded(f)| == Size(d.headers[..k]) + 8 + range.size
  {
    var f := FragmentChain(d, k, range, id);
    var data := FragmentData(range, id);
    ProperFront(d, k, true, false, Header(FRAGMENT, data), f);
    EncodedSplits(f, k);
    assert f.headers[..k] == d.headers[..k];
    assert Rest(Suffix(f, k)) == Chain([], f.protocol, f.payload);
    FragmentNormal(data);
    forall h | h in f.headers ensures GoodHeader(h) && NormalHeader(h) == h {
      assert h in d.headers || h == Header(FRAGMENT, data);
    }
  }

  lemma FragmentNormal(data: seq<Byte>)
    requires |data| == 7 && data == [0] + Encode16(FieldOf(data)) + data[3..]
    ensures GoodHeader(Header(FRAGMENT, data)) && NormalHeader(Header(FRAGMENT, data)) == Header(FRAGMENT, data)
  {
  }

  /** The packet of one fragment. */
  function FragmentPacket(q: IPPacket, d: Chain, k: nat, range: Range, id: nat): (f: IPPacket)
    requires Carriable(d, k, range, id)
  {
    WithChain(q, FragmentChain(d, k, range, id))
  }

  lemma FragmentEncodable(q: Template, d: WholeChain, k: nat, range: Range, id: nat)
    requires Carriable(d, k, range, id)
    ensures var f := FragmentPacket(q, d, k, range, id);
      && Encodable(f) && ChainOf(f) == FragmentChain(d, k, range, id) && Normal(f) == f && Wire(f) == RawWire(f)
      && |RawWire(f)| == 48 + Size(d.headers[..k]) + range.size
  {
    FragmentIsProper(d, k, range, id);
    var c := FragmentChain(d, k, range, id);
    WithChainEncodable(q, c);
    NormalFormStays(c);
    NormalStays(WithChain(q, c));
  }

  /** The octets of one fragment. */
  ghost function FragmentWire(q: Template, d: WholeChain, k: nat, range: Range, id: nat): (w: seq<Byte>)
    requires Carriable(d, k, range, id)
  {
    FragmentEncodable(q, d, k, range, id);
    RawWire(FragmentPacket(q, d, k, range, id))
  }

  /** The ranges of a plan for a packet that does not fit can all be carried, each within the MTU. */
  lemma RangeCarriable(d: Chain, k: nat, ranges: seq<Range>, mtu: nat, id: nat, n: nat)
    requires k <= |d.headers| && id < 0x1_0000_0000 && |Encoded(Suffix(d, k))| + Size(d.headers[..k]) <= 65535
    requires |Encoded(Suffix(d, k))| > mtu - 48 - Size(d.headers[..k]) && mtu <= 40 + 65535
    requires Tiles(ranges, 0, |Encoded(Suffix(d, k))|, mtu - 48 - Size(d.headers[..k])) && n < |ranges|
    ensures Carriable(d, k, ranges[n], id) && 48 + Size(d.headers[..k]) + ranges[n].size <= mtu
  {
    var total, capacity := |Encoded(Suffix(d, k))|, mtu - 48 - Size(d.headers[..k]);
    TileStarts(ranges, 0, total, capacity, n);
    TileEnds(ranges, 0, total, capacity, n);
  }

  // ---------------------------------------------------------------- the whole operation

  function PerFragment(d: Chain): (k: nat)
    ensures k <= |d.headers|
  {
    Boundary(d.headers, |d.headers|)
  }

  function Body(d: Chain): (octets: seq<Byte>) { Encoded(Suffix(d, PerFragment(d))) }

  function Capacity(d: Chain, mtu: nat): (n: int) { mtu - 48 - Size(d.headers[..PerFragment(d)]) }

  /** An MTU serves if it leaves room for a unit of eight octets and for all headers in the first fragment. */
  predicate Serves(d: Chain, mtu: nat) {
    && |Body(d)| > 0 && Capacity(d, mtu) >= 8
    && 0 <= HeadersEnd(KindAt(d, PerFragment(d)), Body(d)) <= FloorTo8(Capacity(d, mtu))
  }

  lemma BodySize(d: Chain)
    ensures |Encoded(d)| == Size(d.headers[..PerFragment(d)]) + |Body(d)|
  {
    EncodedSplits(d, PerFragment(d));
  }

  /** One wire packet for each range. */
  ghost function Wires(q: Template, d: WholeChain, ranges: seq<Range>, mtu: nat, id: nat): (ws: seq<seq<Byte>>)
    requires |Encoded(d)| > mtu - 48 && mtu <= 40 + 65535 && id < 0x1_0000_0000
    requires Tiles(ranges, 0, |Body(d)|, Capacity(d, mtu))
    ensures |ws| == |ranges|
  {
    seq(|ranges|, n requires 0 <= n < |ranges| =>
      BodySize(d);
      RangeCarriable(d, PerFragment(d), ranges, mtu, id, n);
      FragmentWire(q, d, PerFragment(d), ranges[n], id))
  }

  lemma WireAt(q: Template, d: WholeChain, ranges: seq<Range>, mtu: nat, id: nat, n: nat)
    requires |Encoded(d)| > mtu - 48 && mtu <= 40 + 65535 && id < 0x1_0000_0000
    requires Tiles(ranges, 0, |Body(d)|, Capacity(d, mtu)) && n < |ranges|
    ensures Carriable(d, PerFragment(d), ranges[n], id)
    ensures Wires(q, d, ranges, mtu, id)[n] == FragmentWire(q, d, PerFragment(d), ranges[n], id)
    ensures 48 <= |FragmentWire(q, d, PerFragment(d), ranges[n], id)| <= mtu
  {
    BodySize(d);
    RangeCarriable(d, PerFragment(d), ranges, mtu, id, n);
    FragmentEncodable(q, d, PerFragment(d), ranges[n], id);
  }

  /** A normalized packet without a fragment of a larger datagram. */
  ghost predicate Cuttable(q: IPPacket, mtu: nat) {
    Encodable(q) && InNormalForm(ChainOf(q).headers) && !EndsInFragment(ChainOf(q)) && mtu < 40 + |q.payload|
  }

  lemma CuttableIsSendable(q: IPPacket, mtu: nat)
    requires Cuttable(q, mtu)
    ensures Sendable(Whole(ChainOf(q))) && |Encoded(Whole(ChainOf(q)))| > mtu - 48 && mtu < 40 + 65535
  {
    ChainIsProper(q);
    WholeIsProper(ChainOf(q));
    WholeKeeps(ChainOf(q));
    var j := AtomicIndex(ChainOf(q).headers, |ChainOf(q).headers|);
    forall h | h in Whole(ChainOf(q)).headers ensures h in ChainOf(q).headers {
    }
  }

  /** The fragments of a packet that does not fit, or why there are none. */
  ghost function CutWires(q: IPPacket, mtu: nat, id: nat): (r: Result<seq<seq<Byte>>>)
    requires Cuttable(q, mtu) && id < 0x1_0000_0000
  {
    var c := ChainOf(q);
    CuttableIsSendable(q, mtu);
    if !Placeable(c.headers, |c.headers|) then Err(Invalid)
    else CutWhole(q, Whole(c), mtu, id)
  }

  /** The fragments of a packet without a Fragment header. */
  ghost function CutWhole(q: Template, d: WholeChain, mtu: nat, id: nat): (r: Result<seq<seq<Byte>>>)
    requires |Encoded(d)| > mtu - 48 && mtu <= 40 + 65535 && id < 0x1_0000_0000
  {
    if !Serves(d, mtu) then Err(TooLarge)
    else
      PlanTiles(0, |Body(d)|, Capacity(d, mtu));
      Ok(Wires(q, d, Plan(0, |Body(d)|, Capacity(d, mtu)), mtu, id))
  }

  /** What the fragmenting encoder returns; a fitting packet is encoded whole. */
  ghost function FragmentWires(p: IPPacket, mtu: int, id: nat): (r: Result<seq<seq<Byte>>>)
    requires |V4.Unmap(p.source)| == 16 && id < 0x1_0000_0000
  {
    LayoutIsEncodable(p);
    if Layout(p).Err? then Err(Layout(p).error)
    else if mtu <= 0 then Err(TooLarge)
    else if 40 + |p.payload| <= mtu then Ok([Wire(p)])
    else if EndsInFragment(ChainOf(p)) then Err(TooLarge)
    else
      NormalIsCuttable(p, mtu);
      CutWires(Normal(p), mtu, id)
  }

  lemma NormalIsCuttable(p: IPPacket, mtu: nat)
    requires Encodable(p) && !EndsInFragment(ChainOf(p)) && mtu < 40 + |p.payload|
    ensures Cuttable(Normal(p), mtu)
  {
    NormalStays(p);
    ChainIsProper(p);
    NormalChainForm(ChainOf(p));
    NormalChainStays(ChainOf(p));
  }

  /** Nothing larger than the MTU is ever emitted, and a cut packet has more than one fragment. */
  lemma EveryWireFits(p: IPPacket, mtu: int, id: nat, n: nat)
    requires |V4.Unmap(p.source)| == 16 && id < 0x1_0000_0000
    requires FragmentWires(p, mtu, id).Ok? && n < |FragmentWires(p, mtu, id).value|
    ensures 40 <= |FragmentWires(p, mtu, id).value[n]| <= mtu
    ensures |FragmentWires(p, mtu, id).value| == 1 <==> 40 + |p.payload| <= mtu
  {
    LayoutIsEncodable(p);
    NormalStays(p);
    if 40 + |p.payload| > mtu {
      NormalIsCuttable(p, mtu);
      EveryCutFits(Normal(p), mtu, id, n);
    }
  }

  lemma EveryCutFits(q: IPPacket, mtu: nat, id: nat, n: nat)
    requires Cuttable(q, mtu) && id < 0x1_0000_0000 && CutWires(q, mtu, id).Ok? && n < |CutWires(q, mtu, id).value|
    ensures 40 <= |CutWires(q, mtu, id).value[n]| <= mtu && |CutWires(q, mtu, id).value| > 1
  {
    CuttableIsSendable(q, mtu);
    var d := Whole(ChainOf(q));
    var ranges := Plan(0, |Body(d)|, Capacity(d, mtu));
    PlanTiles(0, |Body(d)|, Capacity(d, mtu));
    BodySize(d);
    WireAt(q, d, ranges, mtu, id, n);
  }

  // ---------------------------------------------------------------- building the fragments

  /** The Fragment header of one range. */
  function FragmentHeader(next: Byte, range: Range, id: nat): (h: seq<Byte>)
    requires range.offset < 0xFFFF && id < 0x1_0000_0000
    ensures |h| == 8
  {
    [next, 0] + Encode16(range.offset + if range.more then 1 else 0) + Encode32(id)
  }

  /** The front of a packet, relinked and resized; a Fragment header; and the range. */
  function Filled(front: seq<Byte>, link: nat, header: seq<Byte>, slice: seq<Byte>): (octets: seq<Byte>)
    requires 40 <= |front| && link < |front| && |header| == 8 && |front| + 8 + |slice| <= 40 + 65535
  {
    Splice(front[link := FRAGMENT], 4, Encode16(|front| - 32 + |slice|)) + header + slice
  }

  lemma FragmentIsFilled(q: Template, d: WholeChain, k: nat, range: Range, id: nat, front: seq<Byte>, link: nat, slice: seq<Byte>)
    requires Carriable(d, k, range, id) && link == Link(d.headers[..k])
    requires front == Front(q, d.headers[..k], KindAt(d, k), |Encoded(d)|) && slice == Encoded(Suffix(d, k))[range.offset..range.End()]
    ensures link < |front| && FragmentWire(q, d, k, range, id) == Filled(front, link, FragmentHeader(KindAt(d, k), range, id), slice)
  {
    var hs, next, f := d.headers[..k], KindAt(d, k), FragmentChain(d, k, range, id);
    FrontAgain(q, hs, next, FRAGMENT, |Encoded(d)|);
    FragmentOctets(q, d, k, range, id);
    FrontResized(q, hs, FRAGMENT, |Encoded(d)|, |Encoded(f)|);
    HeaderOctets(next, range, id);
    FillFits(FragmentWire(q, d, k, range, id), front, link, [next] + FragmentData(range, id), FragmentHeader(next, range, id), slice, |Encoded(f)|);
  }

  lemma HeaderOctets(next: Byte, range: Range, id: nat)
    requires range.offset < 0xFFFF && range.offset % 8 == 0 && id < 0x1_0000_0000
    ensures [next] + FragmentData(range, id) == FragmentHeader(next, range, id)
  {
  }

  lemma FillFits(wire: seq<Byte>, front: seq<Byte>, link: nat, h: seq<Byte>, header: seq<Byte>, slice: seq<Byte>, size: U16)
    requires 40 <= |front| && link < |front| && |header| == 8 && |front| + 8 + |slice| == 40 + size && h == header
    requires wire == Splice(front[link := FRAGMENT], 4, Encode16(size)) + (h + slice)
    ensures wire == Filled(front, link, header, slice)
  {
  }

  /** The two halves of a whole packet. */
  lemma WholeHalves(q: Template, d: WholeChain, wire: seq<Byte>, at: nat)
    requires wire == RawWire(WithChain(q, d)) && at == PointAt(d, |d.headers|).insertion
    ensures at <= |wire| && wire[..at] == Front(q, d.headers[..PerFragment(d)], KindAt(d, PerFragment(d)), |Encoded(d)|) && wire[at..] == Body(d)
  {
    FrontSplits(q, d, PerFragment(d));
  }

  /** Fills one fragment: the front, relinked; the Fragment header; its range; and last the length. */
  method BuildFragment(wire: seq<Byte>, point: Point, range: Range, id: nat, ghost q: Template, ghost d: WholeChain) returns (octets: seq<Byte>)
    requires Carriable(d, PerFragment(d), range, id)
    requires wire == RawWire(WithChain(q, d)) && point == PointAt(d, |d.headers|)
    ensures octets == FragmentWire(q, d, PerFragment(d), range, id)
  {
    WholeHalves(q, d, wire, point.insertion);
    var front, slice := wire[..point.insertion], wire[point.insertion..][range.offset..range.offset + range.size];
    FragmentIsFilled(q, d, PerFragment(d), range, id, front, point.link, slice);
    octets := FillFragment(front, point.link, FragmentHeader(point.next, range, id), slice);
  }

  method FillFragment(front: seq<Byte>, link: nat, header: seq<Byte>, slice: seq<Byte>) returns (octets: seq<Byte>)
    requires 40 <= |front| && link < |front| && |header| == 8 && |front| + 8 + |slice| <= 40 + 65535
    ensures octets == Filled(front, link, header, slice)
  {
    var fragment := new Byte[|front| + 8 + |slice|](_ => 0);
    assert fragment[..] == Zeros(|front|) + Zeros(8) + Zeros(|slice|);
    CopyInto(fragment, 0, front);
    SpliceHead(Zeros(|front|) + Zeros(8), Zeros(|slice|), 0, front);
    fragment[link] := FRAGMENT;
    ghost var linked := front[link := FRAGMENT];
    assert fragment[..] == linked + (Zeros(8) + Zeros(|slice|));
    CopyInto(fragment, |front|, header);
    CopyInto(fragment, |front| + 8, slice);
    TailFilled(linked, header, slice);
    assert fragment[..] == linked + (header + slice);
    var size := fragment.Length - 40;
    CopyInto(fragment, 4, Encode16(size));
    SpliceHead(linked, header + slice, 4, Encode16(size));
    FillFits(fragment[..], front, link, header, header, slice, size);
    octets := fragment[..];
  }

  lemma TailFilled(front: seq<Byte>, header: seq<Byte>, slice: seq<Byte>)
    requires |header| == 8
    ensures Splice(Splice(front + (Zeros(8) + Zeros(|slice|)), |front|, header), |front| + 8, slice) == front + (header + slice)
  {
  }

  /** The fragments of every range of a plan. */
  method CutLoop(wire: seq<Byte>, point: Point, ranges: seq<Range>, id: nat, ghost q: Template, ghost d: WholeChain, ghost mtu: nat)
    returns (fragments: seq<seq<Byte>>)
    requires |Encoded(d)| > mtu - 48 && mtu <= 40 + 65535 && id < 0x1_0000_0000
    requires wire == RawWire(WithChain(q, d)) && point == PointAt(d, |d.headers|)
    requires Tiles(ranges, 0, |Body(d)|, Capacity(d, mtu))
    ensures fragments == Wires(q, d, ranges, mtu, id)
  {
    ghost var all := Wires(q, d, ranges, mtu, id);
    fragments := [];
    for n := 0 to |ranges|
      invariant fragments == all[..n]
    {
      WireAt(q, d, ranges, mtu, id, n);
      var fragment := BuildFragment(wire, point, ranges[n], id, q, d);
      fragments := fragments + [fragment];
    }
  }

  /** Plans the ranges of fragmentable octets, if the capacity serves. */
  method PlanBody(fragmentable: seq<Byte>, next: Byte, capacity: int) returns (ranges: seq<Range>, serves: bool)
    ensures serves <==> |fragmentable| > 0 && capacity >= 8 && 0 <= HeadersEnd(next, fragmentable) <= FloorTo8(capacity)
    ensures serves ==> ranges == Plan(0, |fragmentable|, capacity) && Tiles(ranges, 0, |fragmentable|, capacity)
  {
    ranges, serves := PlanRanges(|fragmentable|, capacity);
    if serves {
      var end := FirstFragmentHeadersEnd(next, fragmentable);
      serves := 0 <= end <= FloorTo8(capacity);
    }
  }

  /** Cuts a whole packet, the fragmentation point of which is known. */
  method CutAtPoint(wire: seq<Byte>, point: Point, mtu: nat, id: nat, ghost q: Template, ghost d: WholeChain)
    returns (r: Result<seq<seq<Byte>>>)
    requires |Encoded(d)| > mtu - 48 && mtu <= 40 + 65535 && id < 0x1_0000_0000
    requires wire == RawWire(WithChain(q, d)) && point == PointAt(d, |d.headers|)
    ensures r == CutWhole(q, d, mtu, id)
  {
    WholeHalves(q, d, wire, point.insertion);
    assert Capacity(d, mtu) == mtu - point.insertion - 8 && point.next == KindAt(d, PerFragment(d));
    var fragmentable, capacity := wire[point.insertion..], mtu - point.insertion - 8;
    var ranges, serves := PlanBody(fragmentable, point.next, capacity);
    r := Err(TooLarge);
    CutIsWires(q, d, ranges, serves, mtu, id, fragmentable, point.next, capacity);
    if serves {
      var fragments := CutLoop(wire, point, ranges, id, q, d, mtu);
      r := Ok(fragments);
    }
  }

  /** The specification on a plan that has been made. */
  lemma CutIsWires(q: Template, d: WholeChain, ranges: seq<Range>, serves: bool, mtu: nat, id: nat,
    fragmentable: seq<Byte>, next: Byte, capacity: int)
    requires |Encoded(d)| > mtu - 48 && mtu <= 40 + 65535 && id < 0x1_0000_0000
    requires fragmentable == Body(d) && next == KindAt(d, PerFragment(d)) && capacity == Capacity(d, mtu)
    requires serves <==> |fragmentable| > 0 && capacity >= 8 && 0 <= HeadersEnd(next, fragmentable) <= FloorTo8(capacity)
    requires serves ==> ranges == Plan(0, |fragmentable|, capacity) && Tiles(ranges, 0, |fragmentable|, capacity)
    ensures serves ==> Tiles(ranges, 0, |Body(d)|, Capacity(d, mtu))
    ensures CutWhole(q, d, mtu, id) == if serves then Ok(Wires(q, d, ranges, mtu, id)) else Err(TooLarge)
  {
  }

  /** Inserts one Fragment header into each fragment of a packet with extension headers, replacing an atomic one. */
  method MarshalPublicIPv6Fragments(p: IPPacket, mtu: nat, id: nat) returns (r: Result<seq<seq<Byte>>>)
    requires Encodable(p) && Cuttable(Normal(p), mtu) && id < 0x1_0000_0000
    ensures r == CutWires(Normal(p), mtu, id)
  {
    ghost var q := Normal(p);
    CuttableIsSendable(q, mtu);
    var wire := InPlace.MarshalBinary(p);
    r := Err(Invalid);
    var point, whole := FindPoint(wire, q, mtu);
    if point.Some? {
      r := CutAtPoint(whole, point.value, mtu, id, q, Whole(ChainOf(q)));
    }
  }

  /** The packet without an atomic Fragment header. */
  ghost function WholeWire(q: IPPacket, mtu: nat): (w: seq<Byte>)
    requires Cuttable(q, mtu)
  {
    CuttableIsSendable(q, mtu);
    RawWire(WithChain(q, Whole(ChainOf(q))))
  }

  /** Locates the fragmentation point, first taking an atomic Fragment header out of the packet. */
  method FindPoint(wire: seq<Byte>, ghost q: IPPacket, ghost mtu: nat) returns (point: Option<Point>, whole: seq<Byte>)
    requires Cuttable(q, mtu) && wire == RawWire(q)
    ensures var c := ChainOf(q);
      && (point.Some? <==> Placeable(c.headers, |c.headers|))
      && (point.Some? ==> point.value == PointAt(Whole(c), |Whole(c).headers|) && whole == WholeWire(q, mtu))
  {
    ghost var c := ChainOf(q);
    ChainIsProper(q);
    CuttableIsSendable(q, mtu);
    assert WithChain(q, c) == q && wire[40..] == q.payload && wire[6] == First(c);
    WholeKeeps(c);
    whole := wire;
    point := InspectFragmentPoint(wire, c);
    if point.Some? && point.value.atomicAt >= 0 {
      whole := RemoveAtomic(wire, point.value.atomicAt, point.value.atomicLink, q, c);
      var again := InspectWhole(whole, q, Whole(c));
      point := Some(again);
    }
  }

  /** The second inspection, behind the removal, always succeeds and finds no Fragment header. */
  method InspectWhole(whole: seq<Byte>, ghost q: Template, ghost d: WholeChain) returns (point: Point)
    requires whole == RawWire(WithChain(q, d)) && Placeable(d.headers, |d.headers|)
    ensures point == PointAt(d, |d.headers|) && point.atomicAt < 0
  {
    assert whole[40..] == Encoded(d) && whole[6] == First(d);
    assert !EndsInFragment(d);
    var found := InspectFragmentPoint(whole, d);
    point := found.value;
  }

  // ---------------------------------------------------------------- a payload without extension headers

  /** Such a packet's chain has no headers, and a fragment of it has one. */
  lemma PlainWire(q: Template, d: WholeChain, range: Range, id: nat)
    requires d.headers == [] && Carriable(d, 0, range, id)
    ensures FragmentWire(q, d, 0, range, id) ==
      BaseHeader(q, FRAGMENT, 8 + range.size) + FragmentHeader(d.protocol, range, id) + d.payload[range.offset..range.End()]
  {
    var base := BaseHeader(q, d.protocol, |d.payload|);
    assert Front(q, [], d.protocol, |d.payload|) == base;
    FragmentIsFilled(q, d, 0, range, id, base, 6, d.payload[range.offset..range.End()]);
    BaseEdited(q, d.protocol, |d.payload|, 8 + range.size);
  }

  lemma BaseEdited(q: Template, next: Byte, size: U16, other: U16)
    ensures Splice(BaseHeader(q, next, size)[6 := FRAGMENT], 4, Encode16(other)) == BaseHeader(q, FRAGMENT, other)
  {
  }

  /** The fragments of a payload, without an unfragmented copy of the packet. */
  method PayloadLoop(q: Template, mtu: nat, id: nat, ranges: seq<Range>, ghost d: WholeChain) returns (fragments: seq<seq<Byte>>)
    requires d == Chain([], q.protocol, q.payload) && |Encoded(d)| > mtu - 48 && mtu <= 40 + 65535 && id < 0x1_0000_0000
    requires Tiles(ranges, 0, |Body(d)|, Capacity(d, mtu))
    ensures fragments == Wires(q, d, ranges, mtu, id)
  {
    ghost var all := Wires(q, d, ranges, mtu, id);
    fragments := [];
    for n := 0 to |ranges|
      invariant fragments == all[..n]
    {
      WireAt(q, d, ranges, mtu, id, n);
      var fragment := PayloadFragment(q, id, ranges[n], d);
      fragments := fragments + [fragment];
    }
  }

  method PayloadFragment(q: Template, id: nat, range: Range, ghost d: WholeChain) returns (fragment: seq<Byte>)
    requires d == Chain([], q.protocol, q.payload) && Carriable(d, 0, range, id)
    ensures fragment == FragmentWire(q, d, 0, range, id)
  {
    PlainWire(q, d, range, id);
    fragment := BaseHeader(q, FRAGMENT, 8 + range.size) + FragmentHeader(q.protocol, range, id)
      + q.payload[range.offset..range.offset + range.size];
  }

  method MarshalPublicIPv6PayloadFragments(q: IPPacket, mtu: nat, id: nat) returns (r: Result<seq<seq<Byte>>>)
    requires Cuttable(q, mtu) && !Traversable(q.protocol) && id < 0x1_0000_0000
    ensures r == CutWires(q, mtu, id)
  {
    ghost var d := PlainChain(q, mtu);
    var ranges, serves := PlanBody(q.payload, q.protocol, mtu - 48);
    r := Err(TooLarge);
    if serves {
      var fragments := PayloadLoop(q, mtu, id, ranges, d);
      r := Ok(fragments);
    }
  }

  lemma PlainChain(q: IPPacket, mtu: nat) returns (d: WholeChain)
    requires Cuttable(q, mtu) && !Traversable(q.protocol)
    ensures d == Chain([], q.protocol, q.payload) == ChainOf(q) == Whole(ChainOf(q)) && Placeable(d.headers, |d.headers|)
    ensures Body(d) == q.payload && KindAt(d, PerFragment(d)) == q.protocol && Capacity(d, mtu) == mtu - 48 && |Encoded(d)| > mtu - 48
  {
    CuttableIsSendable(q, mtu);
    d := Whole(ChainOf(q));
    assert Suffix(d, 0) == d;
  }

  /** Whether a valid packet is a fragment of a larger datagram, as its own accessor tells. */
  lemma {:induction false} FragmentTells(c: Chain, first: bool, seen: bool)
    requires Proper(c, first, seen)
    ensures FragmentIn(c).Some? ==> |FragmentIn(c).value.data| == 7
    ensures EndsInFragment(c) <==> FragmentIn(c).Some? && !Atomic(FragmentIn(c).value.data)
    decreases |c.headers|
  {
    if c.headers != [] {
      var h := c.headers[0];
      if h.kind != FRAGMENT {
        FragmentTells(Rest(c), false, seen);
      } else if Atomic(h.data) {
        assert |c.headers| > 1 ==> c.headers[|c.headers| - 1] in Rest(c).headers;
        ProperUnseen(Rest(c), false);
      }
    }
  }

  /** The entry point: validate, encode whole when it fits, refuse to cut a fragment again, otherwise cut. */
  method MarshalFragments(p: IPPacket, mtu: int, id: nat) returns (r: Result<seq<seq<Byte>>>)
    requires |V4.Unmap(p.source)| == 16 && id < 0x1_0000_0000
    ensures r == FragmentWires(p, mtu, id)
  {
    LayoutIsEncodable(p);
    var layout := Layout(p);
    if layout.Err? {
      return Err(layout.error);
    }
    if mtu <= 0 {
      return Err(TooLarge);
    }
    NormalStays(p);
    if 40 + |p.payload| <= mtu {
      var wire := InPlace.MarshalBinary(p);
      return Ok([wire]);
    }
    r := CutPacket(p, mtu, id);
  }

  /** A valid packet's own accessor says whether it is a fragment of a larger datagram. */
  method IsFragment(p: IPPacket) returns (b: bool)
    requires Encodable(p)
    ensures b == EndsInFragment(ChainOf(p))
  {
    ChainIsProper(p);
    FragmentAgrees(p.protocol, p.payload, true, false);
    FragmentTells(ChainOf(p), true, false);
    var view := FragmentOf(p.protocol, p.payload);
    b := view.Some? && !Atomic(view.value.data);
  }

  method CutPacket(p: IPPacket, mtu: nat, id: nat) returns (r: Result<seq<seq<Byte>>>)
    requires Encodable(p) && 0 < mtu < 40 + |p.payload| && id < 0x1_0000_0000
    ensures if EndsInFragment(ChainOf(p)) then r == Err(TooLarge)
      else Cuttable(Normal(p), mtu) && r == CutWires(Normal(p), mtu, id)
  {
    var fragment := IsFragment(p);
    if fragment {
      return Err(TooLarge);
    }
    NormalIsCuttable(p, mtu);
    if Traversable(p.protocol) {
      r := MarshalPublicIPv6Fragments(p, mtu, id);
    } else {
      PlainIsNormal(p);
      r := MarshalPublicIPv6PayloadFragments(p, mtu, id);
    }
  }

  lemma PlainIsNormal(p: IPPacket)
    requires Encodable(p) && !Traversable(p.protocol)
    ensures Normal(p) == p
  {
    ChainIsProper(p);
    assert NormalHeaders([]) == [];
  }
}
