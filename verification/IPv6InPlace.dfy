/** Writing an IPv6 packet into memory that may overlap its own payload, normalizing the extension headers where they lie. */
module IPv6InPlace {
  import opened Bytes
  import opened IPv6Chain
  import opened IPv6Codec
  import opened MarshalInPlace
  import V4 = IPv4Codec

  /** Zeroes the contents of the PadN options of one area, option by option. */
  method NormalizeOptions(target: array<Byte>, from: nat, to: nat)
    requires from <= to <= target.Length && GoodOptions(target[from..to], 0)
    modifies target
    ensures target[..] == Splice(old(target[..]), from, NormalOptions(old(target[from..to]), 0))
  {
    ghost var options := target[from..to];
    ghost var whole := NormalOptions(options, 0);
    var at := 0;
    assert whole[0..] == whole;
    while at < to - from
      invariant 0 <= at <= to - from && NormalFrom(options, whole, at)
      invariant forall i :: 0 <= i < target.Length ==> target[i] == if from <= i < from + at then whole[i - from] else old(target[i])
    {
      assert target[from + at] == options[at] && (options[at] != PAD_ONE ==> target[from + at + 1] == options[at + 1]);
      var n := if target[from + at] == PAD_ONE then 1 else target[from + at + 1] as int + 2;
      NormalOption(options, whole, at, n);
      ZeroPadding(target, from + at, n);
      at := at + n;
    }
  }

  /** Zeros in place of a PadN option's contents. */
  method ZeroPadding(target: array<Byte>, at: nat, n: nat)
    requires n > 0 && at + n <= target.Length && (target[at] == PAD_N ==> n >= 2)
    modifies target
    ensures forall i :: 0 <= i < target.Length ==> target[i] == if old(target[at]) == PAD_N && at + 2 <= i < at + n then 0 else old(target[i])
  {
    if target[at] == PAD_N {
      CopyInto(target, at + 2, Zeros(n - 2));
    }
  }

  /** One header; its link is left for the caller's chain. */
  method NormalizeHeader(target: array<Byte>, at: nat, kind: Byte, length: nat, ghost h: Header)
    requires length >= 2 && at + length <= target.Length && GoodHeader(h) && h == Header(kind, target[at + 1..at + length])
    modifies target
    ensures target[..] == Splice(old(target[..]), at + 1, NormalHeader(h).data)
  {
    ghost var before := target[..];
    if HasOptions(kind) {
      assert h.data[1..] == target[at + 2..at + length];
      NormalizeOptions(target, at + 2, at + length);
      SpliceAfter(before, at + 1, h.data[0], NormalOptions(h.data[1..], 0));
    } else if kind == FRAGMENT {
      NormalizeFragment(target, at);
      assert target[at + 1..at + 8] == [0] + Encode16(FieldOf(h.data)) + h.data[3..];
      SpliceIs(before, at + 1, target[at + 1..at + 8], target[..]);
    } else {
      SpliceIs(before, at + 1, h.data, before);
    }
  }

  lemma SpliceAfter(before: seq<Byte>, at: nat, first: Byte, field: seq<Byte>)
    requires at + 1 + |field| <= |before| && before[at] == first
    ensures Splice(before, at + 1, field) == Splice(before, at, [first] + field)
  {
  }

  lemma SpliceIs(before: seq<Byte>, at: nat, field: seq<Byte>, after: seq<Byte>)
    requires |before| == |after| && at + |field| <= |before| && after[at..at + |field|] == field
    requires forall i :: 0 <= i < |before| && !(at <= i < at + |field|) ==> after[i] == before[i]
    ensures after == Splice(before, at, field)
  {
    assert after[..at] == before[..at] && after[at + |field|..] == before[at + |field|..];
  }

  method NormalizeFragment(target: array<Byte>, at: nat)
    requires at + 8 <= target.Length
    modifies target
    ensures target[at + 1..at + 4] == [0] + Encode16(FieldOf(old(target[at + 1..at + 8])))
    ensures forall i :: 0 <= i < target.Length && !(at + 1 <= i < at + 4) ==> target[i] == old(target[i])
  {
    ghost var data := target[at + 1..at + 8];
    var field := target[at + 2] as int * 256 + target[at + 3];
    assert field == Read16(data, 1);
    target[at + 1] := 0;
    CopyInto(target, at + 2, Encode16(field / 8 * 8 + field % 2));
    assert target[at + 2..at + 4] == Encode16(FieldOf(data));
  }

  /** What is done already, the chain still to do, and what the octets will be at the end. */
  ghost predicate Left(octets: seq<Byte>, done: seq<Byte>, d: Chain, goal: seq<Byte>) {
    octets == done + Encoded(d) && AllGood(d.headers) && done + Encoded(NormalChain(d)) == goal
  }

  lemma Replaced(a: seq<Byte>, link: seq<Byte>, data: seq<Byte>, rest: seq<Byte>, field: seq<Byte>)
    requires |field| == |data| && |link| == 1
    ensures Splice(a + (link + data + rest), |a| + 1, field) == (a + (link + field)) + rest
    ensures (a + (link + data)) + rest == a + (link + data + rest)
  {
  }

  lemma Suffix(a: seq<Byte>, b: seq<Byte>)
    ensures (a + b)[|a|..] == b && (a + b)[..|a|] == a
  {
  }

  /** The header in front, as the octets show it. */
  lemma HeaderInFront(octets: seq<Byte>, done: seq<Byte>, d: Chain, goal: seq<Byte>)
    requires Left(octets, done, d, goal) && d.headers != []
    ensures var h := d.headers[0]; var at := |done|; var n := 1 + |h.data|;
      && at + n <= |octets| && LengthOf(h.kind, octets[at..]) == n && octets[at] == First(Rest(d)) && octets[at + 1..at + n] == h.data
      && GoodHeader(h) && n >= 2
  {
    EncodedFront(d);
    Suffix(done, Encoded(d));
    var tail := octets[|done|..];
    assert octets[|done| + 1..|done| + 1 + |d.headers[0].data|] == tail[1..1 + |d.headers[0].data|] && octets[|done|] == tail[0];
  }

  lemma HeaderDone(octets: seq<Byte>, done: seq<Byte>, d: Chain, goal: seq<Byte>)
    requires Left(octets, done, d, goal) && d.headers != []
    ensures |done| + 1 + |d.headers[0].data| <= |octets| && AllGood(Rest(d).headers)
    ensures var field := NormalHeader(d.headers[0]).data;
      Left(Splice(octets, |done| + 1, field), done + ([First(Rest(d))] + field), Rest(d), goal)
  {
    var h := d.headers[0];
    NormalRest(d);
    var field := NormalHeader(h).data;
    Replaced(done, [First(Rest(d))], h.data, Encoded(Rest(d)), field);
    Replaced(done, [First(Rest(d))], field, Encoded(NormalChain(Rest(d))), field);
    assert Encoded(NormalChain(d)) == [First(Rest(d))] + field + Encoded(NormalChain(Rest(d)));
  }

  /** A field written in front of `end` changes nothing from there on. */
  lemma SpliceBefore(octets: seq<Byte>, end: nat, at: nat, field: seq<Byte>)
    requires at + |field| <= end <= |octets|
    ensures Splice(octets, at, field)[..end] == Splice(octets[..end], at, field) && Splice(octets, at, field)[end..] == octets[end..]
  {
  }

  /** One header of the walk: normalizes it and moves behind it; nothing follows a fragment of a larger datagram. */
  method NormalizeNext(target: array<Byte>, at: nat, end: nat, kind: Byte, ghost done: seq<Byte>, ghost d: Chain, ghost goal: seq<Byte>)
    returns (next: Byte, behind: nat, more: bool, ghost grown: seq<Byte>)
    requires at == |done| && end <= target.Length && Left(target[..end], done, d, goal) && d.headers != [] && kind == First(d)
    modifies target
    ensures behind == |grown| && Left(target[..end], grown, Rest(d), goal) && next == First(Rest(d))
    ensures more == (kind != FRAGMENT || (|d.headers[0].data| == 7 && Atomic(d.headers[0].data)))
    ensures target[end..] == old(target[end..])
  {
    ghost var h, before := d.headers[0], target[..];
    assert before[..end] == target[..end] && before[end..] == target[end..];
    HeaderInFront(target[..end], done, d, goal);
    HeaderDone(target[..end], done, d, goal);
    assert target[..end][at..] == target[at..end];
    var length := LengthOf(kind, target[at..end]);
    assert target[..end][at + 1..at + length] == target[at + 1..at + length];
    more := kind != FRAGMENT || Atomic(target[at + 1..at + length]);
    next, behind := target[at], at + length;
    SpliceBefore(before, end, at + 1, NormalHeader(h).data);
    NormalizeHeader(target, at, kind, length, h);
    assert target[..][..end] == target[..end] && target[..][end..] == target[end..];
    grown := done + ([First(Rest(d))] + NormalHeader(h).data);
  }

  /** Walks the chain of a validated payload that lies from `start` to `end`. */
  method NormalizeExtensionFields(target: array<Byte>, start: nat, end: nat, first: Byte)
    requires start <= end <= target.Length && Split(first, target[start..end], true, false).Some?
    modifies target
    ensures var c := Split(first, old(target[start..end]), true, false).value;
      AllGood(c.headers) && target[..end] == old(target[..start]) + Encoded(NormalChain(c))
    ensures target[end..] == old(target[end..])
  {
    ghost var d := Split(first, target[start..end], true, false).value;
    JoinOfSplit(first, target[start..end], true, false);
    ProperIsGood(d, true, false);
    ghost var done := target[..start];
    ghost var goal := done + Encoded(NormalChain(d));
    ghost var seen, begun := false, true;
    var next, at, more := first, start, true;
    assert target[..end] == done + Encoded(d);
    while more && Traversable(next)
      invariant at == |done| && Left(target[..end], done, d, goal) && target[end..] == old(target[end..])
      invariant if more then next == First(d) && Proper(d, begun, seen) else d.headers == []
      decreases |d.headers|, more
    {
      ProperRest(d, begun, seen);
      seen, begun := seen || next == FRAGMENT, false;
      next, at, more, done := NormalizeNext(target, at, end, next, done, d, goal);
      d := Rest(d);
    }
    NothingLeft(d);
  }

  lemma ProperRest(d: Chain, first: bool, seen: bool)
    requires d.headers != [] && Proper(d, first, seen)
    ensures var h := d.headers[0];
      if h.kind == FRAGMENT && !Atomic(h.data) then Rest(d).headers == [] else Proper(Rest(d), false, seen || h.kind == FRAGMENT)
  {
  }

  lemma NothingLeft(d: Chain)
    requires d.headers == []
    ensures AllGood(d.headers) && NormalChain(d) == d
  {
  }

  /** Writes one validated packet anywhere into a buffer. The payload is read as it was before the call, wherever it lies. */
  method MarshalPublicIPPacket(target: array<Byte>, start: nat, p: IPPacket, payloadIn: array<Byte>, payloadAt: nat)
    requires Encodable(p) && start + 40 + |p.payload| <= target.Length
    requires payloadAt + |p.payload| <= payloadIn.Length && payloadIn[payloadAt..payloadAt + |p.payload|] == p.payload
    modifies target
    ensures |Wire(p)| == 40 + |p.payload| && target[..] == Splice(old(target[..]), start, Wire(p))
  {
    WireIs(p);
    ghost var before, base, body := target[..], BaseHeader(p, p.protocol, |p.payload|), Encoded(NormalChain(ChainOf(p)));
    PlaceBody(target, start + 40, p, payloadIn, payloadAt);
    CopyInto(target, start, BaseHeader(p, p.protocol, |p.payload|));
    HeaderBeforeBody(before, start, base, body);
  }

  /** Copies the payload to its place first, then normalizes it there. */
  method PlaceBody(target: array<Byte>, at: nat, p: IPPacket, payloadIn: array<Byte>, payloadAt: nat)
    requires Encodable(p) && at + |p.payload| <= target.Length
    requires payloadAt + |p.payload| <= payloadIn.Length && payloadIn[payloadAt..payloadAt + |p.payload|] == p.payload
    modifies target
    ensures AllGood(ChainOf(p).headers) && |Encoded(NormalChain(ChainOf(p)))| == |p.payload|
    ensures target[..] == Splice(old(target[..]), at, Encoded(NormalChain(ChainOf(p))))
  {
    ghost var before := target[..];
    var end := at + |p.payload|;
    Move(target, at, payloadIn, payloadAt, |p.payload|);
    SplicedParts(target[..], before, at, p.payload);
    assert target[at..end] == p.payload && target[..at] == before[..at] && target[end..] == before[end..];
    NormalizeExtensionFields(target, at, end, p.protocol);
    WireIs(p);
    IsSplice(target[..], before, at, Encoded(NormalChain(ChainOf(p))));
  }

  lemma SplicedParts(whole: seq<Byte>, before: seq<Byte>, at: nat, field: seq<Byte>)
    requires at + |field| <= |before| && whole == Splice(before, at, field)
    ensures var end := at + |field|; whole[at..end] == field && whole[..at] == before[..at] && whole[end..] == before[end..]
  {
  }

  lemma IsSplice(whole: seq<Byte>, before: seq<Byte>, at: nat, field: seq<Byte>)
    requires at + |field| <= |before| == |whole|
    requires whole[..at + |field|] == before[..at] + field && whole[at + |field|..] == before[at + |field|..]
    ensures whole == Splice(before, at, field)
  {
    assert whole == whole[..at + |field|] + whole[at + |field|..];
  }

  lemma HeaderBeforeBody(before: seq<Byte>, start: nat, base: seq<Byte>, body: seq<Byte>)
    requires start + |base| + |body| <= |before|
    ensures Splice(Splice(before, start + |base|, body), start, base) == Splice(before, start, base + body)
  {
  }

  lemma WireIs(p: IPPacket)
    requires Encodable(p)
    ensures AllGood(ChainOf(p).headers)
    ensures Wire(p) == BaseHeader(p, p.protocol, |p.payload|) + Encoded(NormalChain(ChainOf(p)))
    ensures |Encoded(NormalChain(ChainOf(p)))| == |p.payload|
  {
    NormalStays(p);
    SameBase(p, Normal(p), p.protocol, |p.payload|);
    assert Wire(p) == RawWire(Normal(p));
  }

  lemma SameBase(p: IPPacket, q: IPPacket, next: Byte, size: U16)
    requires Framed(p) && Framed(q) && q.(protocol := p.protocol, payload := p.payload) == p
    ensures BaseHeader(q, next, size) == BaseHeader(p, next, size)
  {
  }

  /** Encodes one validated packet into octets of its own. */
  method MarshalBinary(p: IPPacket) returns (wire: seq<Byte>)
    requires Encodable(p)
    ensures wire == Wire(p)
  {
    var payload := new Byte[|p.payload|](i requires 0 <= i < |p.payload| => p.payload[i]);
    assert payload[0..|p.payload|] == p.payload;
    var target := new Byte[40 + |p.payload|](_ => 0);
    MarshalPublicIPPacket(target, 0, p, payload, 0);
    wire := target[..];
  }

  /** Appends the encoding of a validated packet behind the first `length` octets of `dst`, in place when the capacity allows it. */
  method AppendValid(dst: array<Byte>, length: nat, p: IPPacket, payloadIn: array<Byte>, payloadAt: nat) returns (total: nat, out: array<Byte>)
    requires length <= dst.Length && Encodable(p)
    requires payloadAt + |p.payload| <= payloadIn.Length && payloadIn[payloadAt..payloadAt + |p.payload|] == p.payload
    modifies dst
    ensures total <= out.Length && out[..total] == old(dst[..length]) + Wire(p)
    ensures out == dst ==> dst[total..] == old(dst[total..])
    ensures out != dst ==> fresh(out) && dst[..] == old(dst[..])
  {
    out, total := dst, length + 40 + |p.payload|;
    if total > dst.Length {
      out := new Byte[total](i => 0);
      CopyInto(out, 0, dst[..length]);
      assert out[..length] == old(dst[..length]);
    }
    ghost var before := out[..];
    MarshalPublicIPPacket(out, length, p, payloadIn, payloadAt);
    assert out[..total] == before[..length] + Wire(p) && out[total..] == before[total..];
  }
}
