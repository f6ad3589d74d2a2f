/** The public reassembly of one packet from parsed fragments. */
module PublicReassembly {
  import opened Wrappers
  import opened Bytes
  import opened Reassembly
  import Codec = IPv4Codec
  import V6 = IPv6Codec
  import Chain = IPv6Chain
  import Fragments6 = IPv6Fragments
  import PacketCodec

  /** Validates one packet and converts it to the view the machine takes; only offset zero carries a wire image. */
  function PublicFragment(p: Codec.IPPacket): (r: Result<Fragment>) {
    if |Codec.Unmap(p.source)| == 4 then PublicFragment4(p)
    else if |Codec.Unmap(p.source)| == 16 then PublicFragment6(p)
    else Err(Invalid)
  }

  function PublicFragment4(p: Codec.IPPacket): (r: Result<Fragment>)
    requires |Codec.Unmap(p.source)| == 4
  {
    Codec.LayoutIsEncodable(p);
    if Codec.Layout(p).Err? then Err(Codec.Layout(p).error)
    else if p.fragmentOffset == 0 && !p.moreFragments then Err(Invalid)
    else Ok(ViewOf(Codec.Layout(p).value))
  }

  function ViewOf(q: Codec.IPPacket): (f: Fragment)
    requires Codec.Encodable(q)
  {
    var first := q.fragmentOffset == 0;
    Fragment(false, q.source, q.destination, q.identification, q.protocol, q.fragmentOffset, q.moreFragments, q.payload,
             q.trafficClass % 4, MAXIMUM_DATAGRAM - Codec.HeaderSize(q.options), |Codec.Wire(q)|, q.dontFragment,
             if first then Codec.Header(q) else [], 9, if first then Codec.Wire(q) else [])
  }

  lemma ViewIsValid(q: Codec.IPPacket)
    requires Codec.Encodable(q)
    ensures ValidFragment(ViewOf(q))
  {
    if q.fragmentOffset == 0 {
      assert Codec.Wire(q)[|Codec.Header(q)|..] == q.payload;
      assert Codec.Wire(q)[..|Codec.Header(q)|] == Codec.Header(q);
    }
  }

  /** The IPv6 branch: a fragment of a larger datagram, and the first one only with all its headers. */
  function PublicFragment6(p: Codec.IPPacket): (r: Result<Fragment>)
    requires |Codec.Unmap(p.source)| == 16
  {
    V6.LayoutIsEncodable(p);
    if V6.Layout(p).Err? then Err(V6.Layout(p).error)
    else
      var view := Chain.FragmentOf(p.protocol, p.payload);
      var place := Chain.Locate(p.protocol, p.payload, 0, -1);
      if view.None? || |view.value.data| != 7 || Chain.Atomic(view.value.data) then Err(Invalid)
      else if place.None? || place.value.header + 8 > |p.payload| then Err(Invalid)
      else if Chain.OffsetOf(view.value.data) == 0 && Chain.MoreOf(view.value.data)
        && Fragments6.HeadersEnd(view.value.protocol, view.value.payload) < 0 then Err(Invalid)
      else Ok(ViewOf6(p, view.value, place.value))
  }

  function ViewOf6(p: Codec.IPPacket, view: Chain.View, place: Chain.Place): (f: Fragment)
    requires V6.Encodable(p) && |view.data| == 7 && place.header + 8 <= |p.payload|
  {
    V6.NormalStays(p);
    var first := Chain.OffsetOf(view.data) == 0;
    var at := 40 + place.header;
    Fragment(true, p.source, p.destination, Read32(view.data, 3), view.protocol, Chain.OffsetOf(view.data), Chain.MoreOf(view.data),
             if first then V6.Wire(p)[at + 8..] else p.payload[place.header + 8..],
             p.trafficClass % 4, MAXIMUM_DATAGRAM - (if first then place.header else 0), 40 + |p.payload|, false,
             if first then V6.Wire(p)[..at] else [], if first then place.link else 0, if first then V6.Wire(p) else [])
  }

  /** The octet that names a header stands in front of it. */
  lemma {:induction false} LinkInFront(next: Byte, payload: seq<Byte>, offset: nat, previous: int)
    requires offset <= |payload| && -1 <= previous < offset
    ensures var p := Chain.Locate(next, payload, offset, previous); p.Some? ==> p.value.link < 40 + p.value.header
    decreases |payload| - offset
  {
    if Chain.Traversable(next) && Chain.LengthOf(next, payload[offset..]) >= 0 && next != Chain.FRAGMENT {
      LinkInFront(payload[offset], payload, offset + Chain.LengthOf(next, payload[offset..]), offset);
    }
  }

  lemma ViewIsValid6(p: Codec.IPPacket, view: Chain.View, place: Chain.Place)
    requires V6.Encodable(p) && |view.data| == 7 && place.header + 8 <= |p.payload| && place.link < 40 + place.header
    ensures ValidFragment(ViewOf6(p, view, place))
  {
    V6.NormalStays(p);
  }

  lemma PublicIsValid(p: Codec.IPPacket)
    ensures PublicFragment(p).Ok? ==> ValidFragment(PublicFragment(p).value)
  {
    if |Codec.Unmap(p.source)| == 4 {
      Codec.LayoutIsEncodable(p);
      if PublicFragment(p).Ok? {
        ViewIsValid(Codec.Layout(p).value);
      }
    } else if PublicFragment(p).Ok? {
      V6.LayoutIsEncodable(p);
      LinkInFront(p.protocol, p.payload, 0, -1);
      ViewIsValid6(p, Chain.FragmentOf(p.protocol, p.payload).value, Chain.Locate(p.protocol, p.payload, 0, -1).value);
    }
  }

  datatype AddResult =
    | Refused(code: Error)      // not a fragment of this packet; nothing changed
    | Broken(error: Error)            // the assembly was reset
    | Incomplete
    | Whole(packet: Result<Codec.IPPacket>)

  /** One call, on the value of the state; `None` is a reset assembly. */
  ghost function AddStep(s: Option<State>, p: Codec.IPPacket): (r: (Option<State>, AddResult)) {
    PublicIsValid(p);
    var view := PublicFragment(p);
    if view.Err? then (s, Refused(view.error))
    else if s.Some? && !Matches(s.value, view.value) then (s, Refused(Invalid))
    else Closed(Step(if s.Some? then s.value else Started(view.value), view.value, 0))
  }

  /** What a machine outcome means for the assembly. */
  function Closed(o: Outcome): (r: (Option<State>, AddResult)) {
    match o
    case Rejected(e) => (None, Broken(e))
    case Pending(next, _) => (Some(next), Incomplete)
    case Complete(_, wire) => (None, Whole(PacketCodec.ParseIPPacket(wire)))
  }

  class IPPacketReassembly {
    var machine: Reassembler?

    ghost predicate Valid() reads this, machine {
      machine != null ==> machine.Valid()
    }

    ghost function Model(): Option<State> reads this, machine {
      if machine == null then None else Some(machine.state)
    }

    constructor ()
      ensures Valid() && Model() == None
    {
      machine := null;
    }

    /** Discards an incomplete packet. */
    method Reset()
      modifies this
      ensures Valid() && Model() == None
    {
      machine := null;
    }

    /** Adds one parsed packet. */
    method Add(p: Codec.IPPacket) returns (r: AddResult)
      requires Valid()
      modifies this, machine
      ensures Valid() && (Model(), r) == AddStep(old(Model()), p)
      ensures machine != null && machine != old(machine) ==> fresh(machine)
    {
      PublicIsValid(p);
      var view := PublicFragment(p);
      if view.Err? {
        return Refused(view.error);
      }
      if machine == null {
        machine := new Reassembler(view.value);
      } else if !Matches(machine.state, view.value) {
        return Refused(Invalid);
      }
      var outcome := machine.AddFragment(view.value, 0);
      r := Closed(outcome).1;
      if !outcome.Pending? {
        Reset();
      }
    }
  }

  // ---------------------------------------------------------------- calls in sequence

  /** Feeds packets until one of them is not simply retained. */
  ghost function AddAll(s: Option<State>, packets: seq<Codec.IPPacket>): (r: (Option<State>, AddResult))
    decreases |packets|
  {
    if packets == [] then (s, Incomplete)
    else
      var r := AddStep(s, packets[0]);
      if r.1 == Incomplete then AddAll(r.0, packets[1..]) else r
  }

  /** The fragments of one datagram all match its assembly, so feeding them runs the machine. */
  ghost predicate SameDatagram(s: State, packets: seq<Codec.IPPacket>, fragments: seq<Fragment>) {
    |packets| == |fragments| &&
    forall k :: 0 <= k < |packets| ==>
      && ValidFragment(fragments[k]) && PublicFragment(packets[k]) == Ok(fragments[k]) && Matches(s, fragments[k])
  }

  lemma MatchesAfter(s: State, f: Fragment)
    requires ValidFragment(f) && Matches(s, f)
    ensures Step(s, f, 0).Pending? ==>
      var t := Step(s, f, 0).next;
      t.v6 == s.v6 && t.source == s.source && t.target == s.target && t.identifier == s.identifier && (s.v6 || t.protocol == s.protocol)
  {
  }

  lemma {:induction false} AddAllRuns(s: State, packets: seq<Codec.IPPacket>, fragments: seq<Fragment>)
    requires SameDatagram(s, packets, fragments)
    ensures AddAll(Some(s), packets) == Closed(Run(s, fragments, 0))
    decreases |packets|
  {
    if packets != [] {
      assert Matches(s, fragments[0]) && PublicFragment(packets[0]) == Ok(fragments[0]);
      var o := Step(s, fragments[0], 0);
      MatchesAfter(s, fragments[0]);
      if o.Pending? {
        assert SameDatagram(o.next, packets[1..], fragments[1..]);
        AddAllRuns(o.next, packets[1..], fragments[1..]);
      }
    }
  }

  lemma FirstAddStarts(packets: seq<Codec.IPPacket>, fragments: seq<Fragment>)
    requires |packets| > 0 && |packets| == |fragments| && ValidFragment(fragments[0])
    requires SameDatagram(Started(fragments[0]), packets, fragments)
    ensures AddAll(None, packets) == Closed(Run(Started(fragments[0]), fragments, 0))
  {
    AddAllRuns(Started(fragments[0]), packets, fragments);
    assert PublicFragment(packets[0]) == Ok(fragments[0]);
    assert AddStep(None, packets[0]) == AddStep(Some(Started(fragments[0])), packets[0]);
  }
}
