/** Writing an IPv4 packet into memory that may overlap its own payload and options. */
module MarshalInPlace {
  import opened Wrappers
  import opened Bytes
  import opened Checksum
  import opened IPv4Codec

  /** Copies `count` octets between regions that may overlap, as if through a temporary. */
  method Move(target: array<Byte>, to: nat, source: array<Byte>, from: nat, count: nat)
    requires to + count <= target.Length && from + count <= source.Length
    modifies target
    ensures target[..] == Splice(old(target[..]), to, old(source[from..from + count]))
  {
    ghost var before, moved := target[..], source[from..from + count];
    if target != source || to <= from {
      MoveUp(target, to, source, from, count);
    } else {
      MoveDown(target, to, from, count);
    }
    assert target[..] == Splice(before, to, moved);
  }

  /** From the first octet on, when no octet is overwritten before it is read. */
  method MoveUp(target: array<Byte>, to: nat, source: array<Byte>, from: nat, count: nat)
    requires to + count <= target.Length && from + count <= source.Length && (target != source || to <= from)
    modifies target
    ensures forall i :: 0 <= i < target.Length ==> target[i] == if to <= i < to + count then old(source[from + (i - to)]) else old(target[i])
  {
    for k := 0 to count
      invariant forall i :: 0 <= i < target.Length ==>
        target[i] == if to <= i < to + k then old(source[from + (i - to)]) else old(target[i])
    {
      target[to + k] := source[from + k];
    }
  }

  /** From the last octet on, within one array. */
  method MoveDown(target: array<Byte>, to: nat, from: nat, count: nat)
    requires from < to && to + count <= target.Length
    modifies target
    ensures forall i :: 0 <= i < target.Length ==> target[i] == if to <= i < to + count then old(target[from + (i - to)]) else old(target[i])
  {
    for k := count downto 0
      invariant forall i :: 0 <= i < target.Length ==>
        target[i] == if to + k <= i < to + count then old(target[from + (i - to)]) else old(target[i])
    {
      target[to + k] := target[from + k];
    }
  }

  lemma NestedSplice(outer: seq<Byte>, start: nat, region: seq<Byte>, at: nat, field: seq<Byte>)
    requires start + |region| <= |outer| && at + |field| <= |region|
    ensures Splice(Splice(outer, start, region), start + at, field) == Splice(outer, start, Splice(region, at, field))
  {
  }

  /** Writes one field of a header whose packet occupies `target` from `start`. */
  method PutField(target: array<Byte>, start: nat, at: nat, field: seq<Byte>, ghost before: seq<Byte>, ghost head: seq<Byte>, ghost body: seq<Byte>)
    requires at + |field| <= |head| && start + |head| + |body| <= target.Length == |before|
    requires target[..] == Splice(before, start, head + body)
    modifies target
    ensures target[..] == Splice(before, start, Splice(head, at, field) + body)
  {
    CopyInto(target, start + at, field);
    NestedSplice(before, start, head + body, at, field);
    SpliceHead(head, body, at, field);
  }

  /** The octets through End, copied aside, followed by zeros up to the options' own length. */
  method NormalizeOptions(source: array<Byte>, at: nat, length: nat) returns (options: seq<Byte>)
    requires at + length <= source.Length && Framed(source[at..at + length])
    ensures options + Zeros(CeilTo4(length) - length) == Canonical(source[at..at + length])
    ensures |options| == length
  {
    var content, valid := OptionsContentLength(source[at..at + length]);
    options := source[at..at + content] + Zeros(length - content);
    assert source[at..at + length][..content] == source[at..at + content];
  }

  /** Payload first, then the options, so that the packet may be built over either of them. */
  method PlaceBody(target: array<Byte>, start: nat, ghost p: IPPacket, headerSize: nat,
                   payloadIn: array<Byte>, payloadAt: nat, payloadLength: nat, optionsIn: array<Byte>, optionsAt: nat, optionsLength: nat)
    returns (ghost head: seq<Byte>)
    requires Encodable(p) && headerSize == HeaderSize(p.options) && start + headerSize + |p.payload| <= target.Length
    requires payloadAt + payloadLength <= payloadIn.Length && payloadIn[payloadAt..payloadAt + payloadLength] == p.payload
    requires optionsAt + optionsLength <= optionsIn.Length && optionsIn[optionsAt..optionsAt + optionsLength] == p.options
    modifies target
    ensures |head| == headerSize && head[20..] == Canonical(p.options)
    ensures target[..] == Splice(old(target[..]), start, head + p.payload)
  {
    ghost var before := target[..];
    var options := NormalizeOptions(optionsIn, optionsAt, optionsLength);
    Move(target, start + headerSize, payloadIn, payloadAt, payloadLength);
    head := before[start..start + headerSize];
    BodyPlaced(before, start, headerSize, p.payload);
    PutField(target, start, 20, options, before, head, p.payload);
    PutField(target, start, 20 + optionsLength, Zeros(headerSize - 20 - optionsLength), before, Splice(head, 20, options), p.payload);
    OptionsPlaced(head, options, Zeros(headerSize - 20 - optionsLength));
    head := Splice(Splice(head, 20, options), 20 + optionsLength, Zeros(headerSize - 20 - optionsLength));
  }

  lemma BodyPlaced(before: seq<Byte>, start: nat, headerSize: nat, body: seq<Byte>)
    requires start + headerSize + |body| <= |before|
    ensures Splice(before, start + headerSize, body) == Splice(before, start, before[start..start + headerSize] + body)
  {
  }

  lemma OptionsPlaced(head: seq<Byte>, options: seq<Byte>, zeros: seq<Byte>)
    requires |head| == 20 + |options| + |zeros|
    ensures Splice(Splice(head, 20, options), 20 + |options|, zeros)[20..] == options + zeros
  {
  }

  /** The fields in the order they are written, whatever octets were there before. */
  lemma FieldsMakeHeader(p: IPPacket, head: seq<Byte>, filled: seq<Byte>)
    requires Encodable(p) && |head| == |filled| == HeaderSize(p.options)
    requires head[20..] == Canonical(p.options)
    requires filled == Splice(Splice(Splice(Splice(head, 0, FixedFields(p)[..10]), 12, p.source), 16, p.destination), 10, [0, 0])
    ensures filled == BareHeader(p)
  {
    assert filled[20..] == head[20..];
    assert filled[12..16] == p.source && filled[16..20] == p.destination;
    assert FixedFields(p)[10] == 0 && FixedFields(p)[11] == 0;
    assert filled[..12] == FixedFields(p);
    assert filled == filled[..12] + filled[12..16] + filled[16..20] + filled[20..];
  }

  lemma FixedPlaced(p: IPPacket, head: seq<Byte>)
    requires Encodable(p) && |head| >= 20
    ensures var h1 := Splice(Splice(head, 0, FixedFields(p)[..2]), 8, [p.hopLimit, p.protocol]);
      var h2 := Splice(Splice(h1, 2, Encode16(HeaderSize(p.options) + |p.payload|)), 4, Encode16(p.identification));
      Splice(h2, 6, Encode16(FlagWord(p))) == Splice(head, 0, FixedFields(p)[..10])
  {
    var f := FixedFields(p);
    assert f[2..4] == Encode16(HeaderSize(p.options) + |p.payload|) && f[4..6] == Encode16(p.identification) && f[6..8] == Encode16(FlagWord(p));
    assert f[2] == f[2..4][0] && f[3] == f[2..4][1] && f[4] == f[4..6][0] && f[5] == f[4..6][1] && f[6] == f[6..8][0] && f[7] == f[6..8][1];
    assert f[8] == p.hopLimit && f[9] == p.protocol;
  }

  /** The fixed fields that come before the checksum: first single octets, then words. */
  method PutFixed(target: array<Byte>, start: nat, p: IPPacket, headerSize: nat, ghost before: seq<Byte>, ghost head: seq<Byte>)
    requires Encodable(p) && headerSize == HeaderSize(p.options) == |head| && start + |head| + |p.payload| <= target.Length == |before|
    requires target[..] == Splice(before, start, head + p.payload)
    modifies target
    ensures target[..] == Splice(before, start, Splice(head, 0, FixedFields(p)[..10]) + p.payload)
  {
    assert FixedFields(p)[..2] == [0x40 + headerSize / 4, p.trafficClass];
    ghost var h := PutSingles(target, start, [0x40 + headerSize / 4, p.trafficClass], [p.hopLimit, p.protocol], before, head, p.payload);
    h := PutWords(target, start, headerSize + |p.payload|, p.identification, FlagWord(p), before, h, p.payload);
    FixedPlaced(p, head);
  }

  method PutSingles(target: array<Byte>, start: nat, first: seq<Byte>, last: seq<Byte>, ghost before: seq<Byte>, ghost head: seq<Byte>, ghost body: seq<Byte>)
    returns (ghost h: seq<Byte>)
    requires |head| >= 20 && |first| == |last| == 2 && start + |head| + |body| <= target.Length == |before|
    requires target[..] == Splice(before, start, head + body)
    modifies target
    ensures h == Splice(Splice(head, 0, first), 8, last) && target[..] == Splice(before, start, h + body)
  {
    PutField(target, start, 0, first, before, head, body);
    h := Splice(head, 0, first);
    PutField(target, start, 8, last, before, h, body);
    h := Splice(h, 8, last);
  }

  method PutWords(target: array<Byte>, start: nat, size: U16, id: U16, flags: U16, ghost before: seq<Byte>, ghost head: seq<Byte>, ghost body: seq<Byte>)
    returns (ghost h: seq<Byte>)
    requires |head| >= 20 && start + |head| + |body| <= target.Length == |before|
    requires target[..] == Splice(before, start, head + body)
    modifies target
    ensures h == Splice(Splice(Splice(head, 2, Encode16(size)), 4, Encode16(id)), 6, Encode16(flags))
    ensures target[..] == Splice(before, start, h + body)
  {
    h := head;
    PutField(target, start, 2, Encode16(size), before, h, body);
    h := Splice(h, 2, Encode16(size));
    PutField(target, start, 4, Encode16(id), before, h, body);
    h := Splice(h, 4, Encode16(id));
    PutField(target, start, 6, Encode16(flags), before, h, body);
    h := Splice(h, 6, Encode16(flags));
  }

  /** Computes the checksum over the header just written and stores it. */
  method PutChecksum(target: array<Byte>, start: nat, p: IPPacket, headerSize: nat, ghost before: seq<Byte>)
    requires Encodable(p) && headerSize == HeaderSize(p.options) && start + headerSize + |p.payload| <= target.Length == |before|
    requires target[..] == Splice(before, start, BareHeader(p) + p.payload)
    modifies target
    ensures target[..] == Splice(before, start, Wire(p))
  {
    assert target[start..start + headerSize] == BareHeader(p) by {
      assert target[..][start..start + headerSize] == BareHeader(p);
    }
    var c := ChecksumOf(target[start..start + headerSize], false);
    PutField(target, start, 10, Encode16(c), before, BareHeader(p), p.payload);
  }

  /** Writes one validated packet. The source regions may overlap the destination in any way. */
  method MarshalPublicIPPacket(target: array<Byte>, start: nat, p: IPPacket, headerSize: nat,
                               payloadIn: array<Byte>, payloadAt: nat, optionsIn: array<Byte>, optionsAt: nat)
    requires Encodable(p) && headerSize == HeaderSize(p.options) && start + headerSize + |p.payload| <= target.Length
    requires payloadAt + |p.payload| <= payloadIn.Length && payloadIn[payloadAt..payloadAt + |p.payload|] == p.payload
    requires optionsAt + |p.options| <= optionsIn.Length && optionsIn[optionsAt..optionsAt + |p.options|] == p.options
    modifies target
    ensures target[..] == Splice(old(target[..]), start, Wire(p))
  {
    ghost var before := target[..];
    ghost var placed := PlaceBody(target, start, p, headerSize, payloadIn, payloadAt, |p.payload|, optionsIn, optionsAt, |p.options|);
    PutFixed(target, start, p, headerSize, before, placed);
    ghost var head := Splice(placed, 0, FixedFields(p)[..10]);
    PutField(target, start, 12, p.source, before, head, p.payload);
    PutField(target, start, 16, p.destination, before, Splice(head, 12, p.source), p.payload);
    head := Splice(Splice(head, 12, p.source), 16, p.destination);
    PutField(target, start, 10, [0, 0], before, head, p.payload);
    FieldsMakeHeader(p, placed, Splice(head, 10, [0, 0]));
    PutChecksum(target, start, p, headerSize, before);
  }

  /** Appends the encoding of a validated packet behind the first `length` octets of `dst`, in place when the capacity allows it. */
  method AppendValid(dst: array<Byte>, length: nat, q: IPPacket, payloadIn: array<Byte>, payloadAt: nat, optionsIn: array<Byte>, optionsAt: nat)
    returns (total: nat, out: array<Byte>)
    requires length <= dst.Length && Encodable(q)
    requires payloadAt + |q.payload| <= payloadIn.Length && payloadIn[payloadAt..payloadAt + |q.payload|] == q.payload
    requires optionsAt + |q.options| <= optionsIn.Length && optionsIn[optionsAt..optionsAt + |q.options|] == q.options
    modifies dst
    ensures total <= out.Length && out[..total] == old(dst[..length]) + Wire(q)
    ensures out == dst ==> dst[total..] == old(dst[total..])
    ensures out != dst ==> fresh(out) && dst[..] == old(dst[..])
  {
    out, total := dst, length + HeaderSize(q.options) + |q.payload|;
    if total > dst.Length {
      out := new Byte[total](i => 0);
      CopyInto(out, 0, dst[..length]);
      assert out[..length] == old(dst[..length]);
    }
    ghost var before := out[..];
    MarshalPublicIPPacket(out, length, q, HeaderSize(q.options), payloadIn, payloadAt, optionsIn, optionsAt);
    assert out[..total] == before[..length] + Wire(q) && out[total..] == before[total..];
  }
}
