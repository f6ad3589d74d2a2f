/** Cutting one IPv4 packet, itself possibly a fragment, into fragments that fit an MTU. */
module IPv4Fragments {
  import opened Wrappers
  import opened Bytes
  import opened IPv4Codec
  import opened FragmentRanges

  // ---------------------------------------------------------------- options of later fragments

  function Ones(n: nat): (r: seq<Byte>)
    ensures |r| == n && forall i :: 0 <= i < n ==> r[i] == NOP
  {
    seq(n, _ => 1)
  }

  /** The length of the option at `at`, zero when its framing is broken. */
  function OptionLength(options: seq<Byte>, at: nat): (n: nat)
    requires at < |options|
    ensures at + n <= |options|
  {
    if |options| - at < 2 || options[at + 1] < 2 || at + options[at + 1] > |options| then 0 else options[at + 1]
  }

  /** How far the walk moves at `at`; zero stops it. */
  function Stride(options: seq<Byte>, at: nat): (n: nat)
    requires at < |options|
    ensures at + n <= |options|
  {
    if options[at] == END then 0 else if options[at] == NOP then 1 else OptionLength(options, at)
  }

  /** One option as later fragments carry it: copied ones as they are, all others as NOPs. */
  function LaterOption(options: seq<Byte>, at: nat): (r: seq<Byte>)
    requires at < |options| && Stride(options, at) > 0
    ensures |r| == Stride(options, at)
  {
    if options[at] >= 0x80 then options[at..at + Stride(options, at)] else Ones(Stride(options, at))
  }

  /** The option area from `at` on as later fragments carry it. */
  function Later(options: seq<Byte>, at: nat): (r: seq<Byte>)
    requires at <= |options|
    ensures |r| == |options| - at
    decreases |options| - at
  {
    if at == |options| then []
    else if options[at] == END then [END] + Zeros(|options| - at - 1)
    else if Stride(options, at) == 0 then options[at..]
    else LaterOption(options, at) + Later(options, at + Stride(options, at))
  }

  /** From `at` on, `whole` is what later fragments carry. */
  predicate LaterFrom(options: seq<Byte>, whole: seq<Byte>, at: nat) {
    at <= |options| == |whole| && whole[at..] == Later(options, at)
  }

  /** The walk over a copy of the option area, overwriting what later fragments do not carry. */
  method LaterIPv4FragmentOptions(options: seq<Byte>) returns (result: seq<Byte>)
    ensures result == Later(options, 0)
  {
    result := options;
    var offset := 0;
    ghost var whole := Later(options, 0);
    assert whole[0..] == whole;
    while offset < |options| && Stride(options, offset) > 0
      invariant 0 <= offset <= |options| && |result| == |options| && LaterFrom(options, whole, offset)
      invariant forall i :: 0 <= i < |options| ==> result[i] == if i < offset then whole[i] else options[i]
      decreases |options| - offset
    {
      LaterOctets(options, whole, offset);
      result, offset := OverwriteNext(options, result, offset, whole);
    }
    LaterEnd(options, whole, offset);
    if offset < |options| && options[offset] == END {
      result := Splice(result, offset + 1, Zeros(|options| - offset - 1));
    }
  }

  /** One option: left as it is if later fragments carry it, and replaced by NOPs otherwise. */
  method OverwriteNext(options: seq<Byte>, octets: seq<Byte>, at: nat, ghost whole: seq<Byte>) returns (r: seq<Byte>, next: nat)
    requires at < |options| == |octets| == |whole| && Stride(options, at) > 0
    requires forall i :: 0 <= i < |options| ==> octets[i] == if i < at then whole[i] else options[i]
    requires forall i :: at <= i < at + Stride(options, at) ==> whole[i] == if options[at] < 0x80 then NOP else options[i]
    ensures next == at + Stride(options, at) && |r| == |octets|
    ensures forall i :: 0 <= i < |options| ==> r[i] == if i < next then whole[i] else options[i]
  {
    r, next := octets, at + Stride(options, at);
    if options[at] < 0x80 {
      r := Splice(octets, at, Ones(next - at));
    }
  }

  /** One option of the walk, octet by octet. */
  lemma LaterOctets(options: seq<Byte>, whole: seq<Byte>, at: nat)
    requires LaterFrom(options, whole, at) && at < |options| && Stride(options, at) > 0
    ensures LaterFrom(options, whole, at + Stride(options, at))
    ensures forall i :: at <= i < at + Stride(options, at) ==> whole[i] == if options[at] < 0x80 then NOP else options[i]
  {
    var tail, n := whole[at..], Stride(options, at);
    assert tail[n..] == whole[at + n..];
    assert forall i :: at <= i < at + n ==> whole[i] == tail[i - at];
  }

  /** Where the walk ends: at the end, at End, or at an option it cannot pass. */
  lemma LaterEnd(options: seq<Byte>, whole: seq<Byte>, at: nat)
    requires LaterFrom(options, whole, at) && (at < |options| ==> Stride(options, at) == 0)
    ensures forall i :: at <= i < |options| ==> whole[i] == if options[at] == END && i > at then 0 else options[i]
  {
    var tail := whole[at..];
    assert forall i :: at <= i < |options| ==> whole[i] == tail[i - at];
  }

  /** Later options are framed like the original ones. */
  lemma {:induction false} LaterContent(options: seq<Byte>, later: seq<Byte>, at: nat)
    requires LaterFrom(options, later, at) && ContentEnd(options, at) >= 0
    ensures ContentEnd(later, at) == ContentEnd(options, at)
    decreases |options| - at
  {
    if at < |options| {
      var n := Stride(options, at);
      ContentStride(options, at, n);
      if n > 0 {
        PassesOption(options, later, at, n);
        LaterContent(options, later, at + n);
      } else {
        LaterEnd(options, later, at);
        StopsAtEnd(options, at);
        StopsAtEnd(later, at);
      }
    }
  }

  lemma StopsAtEnd(options: seq<Byte>, at: nat)
    requires at < |options| && options[at] == END
    ensures ContentEnd(options, at) == at + 1
  {
  }

  lemma PassesOption(options: seq<Byte>, later: seq<Byte>, at: nat, n: nat)
    requires LaterFrom(options, later, at) && at < |options| && n == Stride(options, at) > 0
    ensures LaterFrom(options, later, at + n) && ContentEnd(later, at) == ContentEnd(later, at + n)
  {
    LaterOctets(options, later, at);
    OptionContent(options, later, at, n);
  }

  /** Framing moves in the strides of the walk, and framed options stop it only at End. */
  lemma ContentStride(options: seq<Byte>, at: nat, n: nat)
    requires at < |options| && ContentEnd(options, at) >= 0 && n == Stride(options, at)
    ensures if n > 0 then ContentEnd(options, at) == ContentEnd(options, at + n) else options[at] == END
  {
  }

  lemma OptionContent(options: seq<Byte>, later: seq<Byte>, at: nat, n: nat)
    requires at < |options| == |later| && n == Stride(options, at) > 0
    requires forall i :: at <= i < at + n ==> later[i] == if options[at] < 0x80 then NOP else options[i]
    ensures ContentEnd(later, at) == ContentEnd(later, at + n)
  {
    if options[at] < 0x80 {
      NopsAreSkipped(later, at, at + n);
    }
  }

  lemma {:induction false} NopsAreSkipped(options: seq<Byte>, at: nat, end: nat)
    requires at <= end <= |options|
    requires forall i :: at <= i < end ==> options[i] == NOP
    ensures ContentEnd(options, at) == ContentEnd(options, end)
    decreases end - at
  {
    if at < end {
      NopsAreSkipped(options, at + 1, end);
    }
  }

  lemma LaterIsFramed(options: seq<Byte>)
    requires Framed(options)
    ensures Framed(Later(options, 0)) && |Canonical(Later(options, 0))| == |Canonical(options)|
  {
    LaterContent(options, Later(options, 0), 0);
  }

  /** The walk that starts at `at` comes to an option at `k`. */
  predicate Reaches(options: seq<Byte>, at: nat, k: nat)
    requires at <= |options|
    ensures Reaches(options, at, k) ==> at <= k < |options| && Stride(options, k) > 0
    decreases |options| - at
  {
    at < |options| && Stride(options, at) > 0 && (at == k || Reaches(options, at + Stride(options, at), k))
  }

  /** RFC 791's copied options stay whole and at the same place in every fragment; all others become NOPs. */
  lemma {:induction false} CopiedOptionsStay(options: seq<Byte>, whole: seq<Byte>, at: nat, k: nat)
    requires LaterFrom(options, whole, at) && Reaches(options, at, k)
    ensures |whole| == |options|
    ensures forall i :: k <= i < k + Stride(options, k) ==> whole[i] == if options[k] >= 0x80 then options[i] else NOP
    decreases |options| - at
  {
    LaterOctets(options, whole, at);
    if at != k {
      CopiedOptionsStay(options, whole, at + Stride(options, at), k);
    }
  }

  // ---------------------------------------------------------------- one packet into fragments

  /** An option area of the same size that is framed when the original is. */
  predicate Replaces(later: seq<Byte>, options: seq<Byte>) {
    |later| == |options| && (Framed(options) ==> Framed(later))
  }

  /** The fragment that carries one range; only the one at offset zero keeps every option. */
  function FragmentPacket(p: IPPacket, range: Range, later: seq<Byte>): (f: IPPacket)
    requires range.End() <= |p.payload|
  {
    p.(dontFragment := false,
       moreFragments := p.moreFragments || range.more,
       fragmentOffset := p.fragmentOffset + range.offset,
       options := if p.fragmentOffset + range.offset == 0 then p.options else later,
       payload := p.payload[range.offset..range.End()])
  }

  /** Every planned range makes an encodable fragment no larger than the MTU. */
  lemma FragmentFits(p: IPPacket, ranges: seq<Range>, later: seq<Byte>, mtu: nat, k: nat)
    requires Encodable(p) && Tiles(ranges, 0, |p.payload|, mtu - HeaderSize(p.options)) && k < |ranges|
    requires Replaces(later, p.options)
    ensures ranges[k].End() <= |p.payload|
    ensures Encodable(FragmentPacket(p, ranges[k], later)) && |Wire(FragmentPacket(p, ranges[k], later))| <= mtu
  {
    TileStarts(ranges, 0, |p.payload|, mtu - HeaderSize(p.options), k);
    TileEnds(ranges, 0, |p.payload|, mtu - HeaderSize(p.options), k);
    RangeEncodable(p, ranges[k], later, mtu);
  }

  lemma RangeEncodable(p: IPPacket, range: Range, later: seq<Byte>, mtu: nat)
    requires Encodable(p) && range.End() <= |p.payload| && 0 < range.size <= mtu - HeaderSize(p.options)
    requires range.offset % 8 == 0 && (range.more || |p.payload| % 8 == 0 ==> range.size % 8 == 0)
    requires Replaces(later, p.options)
    ensures Encodable(FragmentPacket(p, range, later)) && |Wire(FragmentPacket(p, range, later))| <= mtu
  {
  }

  /** `w` is the encoding of the fragment that carries `range`. */
  predicate Carries(q: IPPacket, range: Range, later: seq<Byte>, w: seq<Byte>) {
    range.End() <= |q.payload| && Encodable(FragmentPacket(q, range, later)) && w == Wire(FragmentPacket(q, range, later))
  }

  function Wires(q: IPPacket, ranges: seq<Range>, later: seq<Byte>, mtu: nat): (ws: seq<seq<Byte>>)
    requires Encodable(q) && Replaces(later, q.options)
    requires Tiles(ranges, 0, |q.payload|, mtu - HeaderSize(q.options))
    ensures |ws| == |ranges|
  {
    seq(|ranges|, k requires 0 <= k < |ranges| =>
      FragmentFits(q, ranges, later, mtu, k);
      Wire(FragmentPacket(q, ranges[k], later)))
  }

  lemma WiresCarry(q: IPPacket, ranges: seq<Range>, later: seq<Byte>, mtu: nat, k: nat)
    requires Encodable(q) && Replaces(later, q.options)
    requires Tiles(ranges, 0, |q.payload|, mtu - HeaderSize(q.options)) && k < |ranges|
    ensures Carries(q, ranges[k], later, Wires(q, ranges, later, mtu)[k])
    ensures 0 < |Wires(q, ranges, later, mtu)[k]| <= mtu
  {
    FragmentFits(q, ranges, later, mtu, k);
  }

  /** The fragments of a packet that does not fit, unless the MTU leaves no room for a unit of eight octets. */
  function CutWires(q: IPPacket, later: seq<Byte>, mtu: nat): (r: Result<seq<seq<Byte>>>)
    requires Encodable(q) && Replaces(later, q.options)
  {
    if |q.payload| == 0 || mtu - HeaderSize(q.options) < 8 then Err(TooLarge)
    else
      PlanTiles(0, |q.payload|, mtu - HeaderSize(q.options));
      Ok(Wires(q, Plan(0, |q.payload|, mtu - HeaderSize(q.options)), later, mtu))
  }

  /** What the fragmenting encoder returns; a fitting packet is encoded whole. */
  function FragmentWires(p: IPPacket, mtu: int): (r: Result<seq<seq<Byte>>>)
    requires |Unmap(p.source)| == 4
  {
    LayoutIsEncodable(p);
    if Layout(p).Err? then Err(Layout(p).error)
    else
      var q := Layout(p).value;
      if mtu <= 0 then Err(TooLarge)
      else if |Wire(q)| <= mtu then Ok([Wire(q)])
      else if q.dontFragment then Err(TooLarge)
      else
        LaterIsFramed(q.options);
        CutWires(q, Later(q.options, 0), mtu)
  }

  /** Nothing larger than the MTU is ever emitted. */
  lemma EveryWireFits(p: IPPacket, mtu: int, k: nat)
    requires |Unmap(p.source)| == 4 && FragmentWires(p, mtu).Ok? && k < |FragmentWires(p, mtu).value|
    ensures 0 < |FragmentWires(p, mtu).value[k]| <= mtu
  {
    LayoutIsEncodable(p);
    var q := Layout(p).value;
    if |Wire(q)| > mtu {
      LaterIsFramed(q.options);
      EveryCutFits(q, Later(q.options, 0), mtu, k);
    }
  }

  lemma EveryCutFits(q: IPPacket, later: seq<Byte>, mtu: nat, k: nat)
    requires Encodable(q) && Replaces(later, q.options) && CutWires(q, later, mtu).Ok? && k < |CutWires(q, later, mtu).value|
    ensures 0 < |CutWires(q, later, mtu).value[k]| <= mtu
  {
    PlanTiles(0, |q.payload|, mtu - HeaderSize(q.options));
    WiresCarry(q, Plan(0, |q.payload|, mtu - HeaderSize(q.options)), later, mtu, k);
  }

  /** One fragment of the plan. */
  method BuildFragment(q: IPPacket, range: Range, later: seq<Byte>, mtu: nat, ghost plan: seq<Range>, ghost k: nat, ghost wires: seq<seq<Byte>>)
    returns (wire: seq<Byte>)
    requires Encodable(q) && Tiles(plan, 0, |q.payload|, mtu - HeaderSize(q.options)) && k < |plan| && range == plan[k]
    requires Replaces(later, q.options) && wires == Wires(q, plan, later, mtu)
    ensures wire == wires[k]
  {
    FragmentFits(q, plan, later, mtu, k);
    WiresCarry(q, plan, later, mtu, k);
    var options := if q.fragmentOffset + range.offset == 0 then q.options else later;
    var fragment := q.(dontFragment := false, moreFragments := q.moreFragments || range.more,
                       fragmentOffset := q.fragmentOffset + range.offset, options := options,
                       payload := q.payload[range.offset..range.offset + range.size]);
    wire := Wire(fragment);
  }

  /** Builds every fragment of the cursor's plan. */
  method CutLoop(q: IPPacket, later: seq<Byte>, mtu: nat, ranges: seq<Range>) returns (fragments: seq<seq<Byte>>)
    requires Encodable(q) && Replaces(later, q.options)
    requires Tiles(ranges, 0, |q.payload|, mtu - HeaderSize(q.options))
    ensures fragments == Wires(q, ranges, later, mtu)
  {
    ghost var wires := Wires(q, ranges, later, mtu);
    fragments := [];
    for k := 0 to |ranges|
      invariant fragments == wires[..k]
    {
      var wire := BuildFragment(q, ranges[k], later, mtu, ranges, k, wires);
      fragments := fragments + [wire];
    }
  }

  /** Fragments or refragments one validated packet. */
  method MarshalPublicIPv4Fragments(q: IPPacket, mtu: nat) returns (r: Result<seq<seq<Byte>>>)
    requires Encodable(q)
    ensures Replaces(Later(q.options, 0), q.options)
    ensures r == CutWires(q, Later(q.options, 0), mtu)
  {
    LaterIsFramed(q.options);
    var ranges, valid := PlanRanges(|q.payload|, mtu - (20 + CeilTo4(|q.options|)));
    if !valid {
      return Err(TooLarge);
    }
    var later := LaterIPv4FragmentOptions(q.options);
    var fragments := CutLoop(q, later, mtu, ranges);
    return Ok(fragments);
  }

  /** The entry point: validate, encode whole when it fits, honour Don't Fragment, otherwise cut. */
  method MarshalFragments(p: IPPacket, mtu: int) returns (r: Result<seq<seq<Byte>>>)
    requires |Unmap(p.source)| == 4
    ensures r == FragmentWires(p, mtu)
  {
    LayoutIsEncodable(p);
    var layout := Layout(p);
    if layout.Err? {
      return Err(layout.error);
    }
    var q := layout.value;
    if mtu <= 0 {
      return Err(TooLarge);
    }
    if |Wire(q)| <= mtu {
      return Ok([Wire(q)]);
    }
    if q.dontFragment {
      return Err(TooLarge);
    }
    r := MarshalPublicIPv4Fragments(q, mtu);
  }
}
