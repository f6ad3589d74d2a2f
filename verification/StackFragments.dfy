/**
 * The stack's own parser for fragments that arrive on the wire, which the table feeds from. Which options a host admits
 * is its own policy; it enters as two predicates, one for an IPv4 option area and one for an IPv6 options header.
 */
module StackFragments {
  import opened Wrappers
  import opened Bytes
  import opened Checksum
  import opened IPv6Chain
  import Reassembly
  import Fragments6 = IPv6Fragments

  /** The walk over an inbound IPv6 chain to its Fragment header, in the payload from `offset` on. */
  function Seek(next: Byte, payload: seq<Byte>, offset: nat, previous: int, admits: seq<Byte> -> bool): (p: Option<Place>)
    requires offset <= |payload| && -1 <= previous < offset
    decreases |payload| - offset
  {
    if next !in {HOP_BY_HOP, DESTINATION, ROUTING, FRAGMENT} || LengthOf(next, payload[offset..]) < 0 then None
    else
      var n := LengthOf(next, payload[offset..]);
      if next == FRAGMENT then
        if Atomic(payload[offset + 1..offset + 8]) then None else Some(Place(offset, LinkOf(previous)))
      else if (next == HOP_BY_HOP && offset != 0) || (HasOptions(next) && !admits(payload[offset..offset + n]))
        || (next == ROUTING && payload[offset + 3] != 0) then None
      else Seek(payload[offset], payload, offset + n, offset, admits)
  }

  /** Whatever it finds, the public locator finds too. */
  lemma {:induction false} SeekAgrees(next: Byte, payload: seq<Byte>, offset: nat, previous: int, admits: seq<Byte> -> bool)
    requires offset <= |payload| && -1 <= previous < offset
    ensures var p := Seek(next, payload, offset, previous, admits);
      p.Some? ==>
        && p == Locate(next, payload, offset, previous) && offset <= p.value.header && p.value.header + 8 <= |payload|
        && p.value.link < 40 + p.value.header && !Atomic(payload[p.value.header + 1..p.value.header + 8])
    decreases |payload| - offset
  {
    if Seek(next, payload, offset, previous, admits).Some? && next != FRAGMENT {
      SeekAgrees(payload[offset], payload, offset + LengthOf(next, payload[offset..]), offset, admits);
    }
  }

  /** The walk as a loop. */
  method SeekFragment(first: Byte, payload: seq<Byte>, admits: seq<Byte> -> bool) returns (p: Option<Place>)
    ensures p == Seek(first, payload, 0, -1, admits)
  {
    var next, offset, previous := first, 0, -1;
    while next in {HOP_BY_HOP, DESTINATION, ROUTING, FRAGMENT}
      invariant -1 <= previous < offset <= |payload|
      invariant Seek(first, payload, 0, -1, admits) == Seek(next, payload, offset, previous, admits)
      decreases |payload| - offset
    {
      var n := LengthOf(next, payload[offset..]);
      if n < 0 || (next == HOP_BY_HOP && offset != 0) {
        return None;
      }
      if next == FRAGMENT {
        return if Atomic(payload[offset + 1..offset + 8]) then None else Some(Place(offset, LinkOf(previous)));
      }
      if (HasOptions(next) && !admits(payload[offset..offset + n])) || (next == ROUTING && payload[offset + 3] != 0) {
        return None;
      }
      next, offset, previous := payload[offset], offset + n, offset;
    }
    return None;
  }

  /** The IPv4 branch: what reassembly gets of a packet, or nothing if it is dropped or answered with an error. */
  function Parse4(packet: seq<Byte>, skipChecksum: bool, admits: seq<Byte> -> bool): (f: Option<Reassembly.Fragment>)
    requires |packet| >= 1 && packet[0] / 16 == 4
  {
    if |packet| < 20 then None
    else
      var headerSize: nat := packet[0] % 16 * 4;
      var total := Read16(packet, 2);
      var field := Read16(packet, 6);
      if headerSize < 20 || total <= headerSize || total > |packet| || (!skipChecksum && Internet(packet[..headerSize]) != 0)
        || field % 0x4000 == 0 || field / 0x8000 != 0 || !admits(packet[20..headerSize]) then None
      else Some(Reassembly.Fragment(
        false, packet[12..16], packet[16..20], Read16(packet, 4), packet[9],
        field % 0x2000 * 8, field / 0x2000 % 2 == 1, packet[headerSize..total], packet[1] % 4,
        65535 - headerSize, total, field / 0x4000 % 2 == 1, packet[..headerSize], 9, packet[..total]))
  }

  /** The IPv6 branch. */
  function Parse6(packet: seq<Byte>, admits: seq<Byte> -> bool): (f: Option<Reassembly.Fragment>)
    requires |packet| >= 1 && packet[0] / 16 == 6
  {
    if |packet| < 48 || 40 + Read16(packet, 4) > |packet| then None
    else
      var end := 40 + Read16(packet, 4);
      var payload := packet[40..end];
      var place := Seek(packet[6], payload, 0, -1, admits);
      if place.None? then None
      else
        SeekAgrees(packet[6], payload, 0, -1, admits);
        Accept6(packet, payload, place.value)
  }

  /** The fragment behind the Fragment header that was found, unless its length or its first fragment's headers are wrong. */
  function Accept6(packet: seq<Byte>, payload: seq<Byte>, place: Place): (f: Option<Reassembly.Fragment>)
    requires 40 + |payload| <= |packet| && place.header + 8 <= |payload|
  {
    var data := payload[place.header + 1..place.header + 8];
    var body := payload[place.header + 8..];
    var maximum: int := 65535 - if OffsetOf(data) == 0 then place.header else 0;
    if (MoreOf(data) && |body| % 8 != 0) || OffsetOf(data) > maximum - |body| then None
    else if OffsetOf(data) == 0 && MoreOf(data) && Fragments6.HeadersEnd(payload[place.header], body) < 0 then None
    else Some(Reassembly.Fragment(
      true, packet[8..24], packet[24..40], Read32(data, 3), payload[place.header],
      OffsetOf(data), MoreOf(data), body, packet[1] / 16 % 4, maximum, 0, false,
      packet[..40 + place.header], place.link, packet[..40 + |payload|]))
  }

  /** The parser. */
  function Parse(packet: seq<Byte>, skipChecksum: bool, admits4: seq<Byte> -> bool, admits6: seq<Byte> -> bool): (f: Option<Reassembly.Fragment>) {
    if |packet| < 1 then None
    else if packet[0] / 16 == 4 then Parse4(packet, skipChecksum, admits4)
    else if packet[0] / 16 == 6 then Parse6(packet, admits6)
    else None
  }

  /** Whatever arrives and whatever the host admits, what reaches reassembly meets everything the machine assumes. */
  lemma ParsedIsValid(packet: seq<Byte>, skipChecksum: bool, admits4: seq<Byte> -> bool, admits6: seq<Byte> -> bool)
    ensures var f := Parse(packet, skipChecksum, admits4, admits6); f.Some? ==> Reassembly.ValidFragment(f.value)
  {
    if Parse(packet, skipChecksum, admits4, admits6).Some? && packet[0] / 16 == 6 {
      var payload := packet[40..40 + Read16(packet, 4)];
      SeekAgrees(packet[6], payload, 0, -1, admits6);
      Valid6(packet, payload, Seek(packet[6], payload, 0, -1, admits6).value);
    }
  }

  lemma Valid6(packet: seq<Byte>, payload: seq<Byte>, place: Place)
    requires |packet| >= 40 + |payload| && packet[40..40 + |payload|] == payload && |payload| <= 65535
    requires place.header + 8 <= |payload| && place.link < 40 + place.header
    ensures Accept6(packet, payload, place).Some? ==> Reassembly.ValidFragment(Accept6(packet, payload, place).value)
  {
    var original := packet[..40 + |payload|];
    assert original[..40 + place.header] == packet[..40 + place.header];
    assert original[40 + place.header + 8..] == payload[place.header + 8..];
  }

  /** The stack sees the Fragment header that the public accessor and locator see, and keeps the octet that names it. */
  lemma StackAgrees(packet: seq<Byte>, admits: seq<Byte> -> bool)
    requires |packet| >= 1 && packet[0] / 16 == 6 && Parse6(packet, admits).Some?
    ensures 40 + Read16(packet, 4) <= |packet|
    ensures var f := Parse6(packet, admits).value; var view := FragmentOf(packet[6], packet[40..40 + Read16(packet, 4)]);
      && view.Some? && |view.value.data| == 7 && f.protocol == view.value.protocol && f.offset == OffsetOf(view.value.data)
      && f.more == MoreOf(view.value.data) && f.identifier == Read32(view.value.data, 3) && f.payload == view.value.payload
      && 0 <= f.nextHeader < |packet| && packet[f.nextHeader] == FRAGMENT
  {
    var payload := packet[40..40 + Read16(packet, 4)];
    SeekAgrees(packet[6], payload, 0, -1, admits);
    Located(packet, payload, Seek(packet[6], payload, 0, -1, admits).value);
  }

  lemma Located(packet: seq<Byte>, payload: seq<Byte>, p: Place)
    requires |packet| >= 40 + |payload| && packet[40..40 + |payload|] == payload && Locate(packet[6], payload, 0, -1) == Some(p)
    ensures var view := FragmentOf(packet[6], payload);
      && view.Some? && |view.value.data| == 7 && p.header + 8 <= |payload|
      && payload[p.header] == view.value.protocol && payload[p.header + 1..p.header + 8] == view.value.data
      && payload[p.header + 8..] == view.value.payload && p.link < |packet| && packet[p.link] == FRAGMENT
  {
    var base := packet[..40];
    assert payload[0..] == payload && base + payload == packet[..40 + |payload|];
    LocateAgrees(base, packet[6], payload, 0, -1);
    FragmentShape(packet[6], payload);
    assert payload[p.header + 1..p.header + 8] == payload[p.header..p.header + 8][1..];
    assert (base + payload)[p.link] == packet[p.link];
  }

  lemma {:induction false} FragmentShape(next: Byte, rest: seq<Byte>)
    ensures FragmentOf(next, rest).Some? ==> |FragmentOf(next, rest).value.data| == 7
    decreases |rest|
  {
    if Traversable(next) && LengthOf(next, rest) >= 0 && next != FRAGMENT {
      FragmentShape(rest[0], rest[LengthOf(next, rest)..]);
    }
  }
}
