/** The per-datagram reassembly machine: any fragments, in any order, with duplicates, overlaps and lying lengths. */
module Reassembly {
  import opened Wrappers
  import opened Bytes
  import opened Coverage
  import opened Checksum

  const MAXIMUM_DATAGRAM := 65535

  /** The validated view of one fragment packet that the parsers hand to reassembly. */
  datatype Fragment = Fragment(
    v6: bool, source: seq<Byte>, target: seq<Byte>, identifier: nat, protocol: Byte,
    offset: nat, more: bool, payload: seq<Byte>, ecn: nat,
    maximum: int, packetSize: int, df: bool,
    header: seq<Byte>, nextHeader: int, original: seq<Byte>)

  /** Everything one datagram under reassembly retains. */
  datatype State = State(
    v6: bool, source: seq<Byte>, target: seq<Byte>, identifier: nat, protocol: Byte,
    pieces: seq<Piece>, total: int, bytes: int, ecnMask: nat,
    maximum: int, maxSize: int, maxDFSize: int,
    header: seq<Byte>, nextHeader: int, firstPacket: seq<Byte>)

  datatype Outcome =
    | Rejected(error: Error)
    | Pending(next: State, added: bool)
    | Complete(last: State, wire: seq<Byte>)

  // ---------------------------------------------------------------- what the parsers guarantee

  /** Octets that precede the payload in the retained first packet. */
  function Overhead(v6: bool, header: seq<Byte>): (n: nat) {
    if header == [] then 0 else |header| + if v6 then 8 else 0
  }

  /** The header the whole datagram keeps: a complete IPv4 header, or the IPv6 Per-Fragment headers. */
  predicate HeaderFits(v6: bool, header: seq<Byte>, nextHeader: int, maximum: int) {
    if v6 then |header| >= 40 && 0 <= nextHeader < |header| && maximum == MAXIMUM_DATAGRAM - (|header| - 40)
    else |header| >= 20 && maximum == MAXIMUM_DATAGRAM - |header|
  }

  predicate ValidFragment(f: Fragment) {
    && f.ecn < 4
    && (!f.v6 && f.more ==> |f.original| >= |f.payload| % 8)
    && (f.offset == 0 ==>
          && HeaderFits(f.v6, f.header, f.nextHeader, f.maximum)
          && |f.original| == Overhead(f.v6, f.header) + |f.payload|
          && |f.payload| <= f.maximum
          && f.header == f.original[..|f.header|]
          && f.payload == f.original[Overhead(f.v6, f.header)..])
    && (f.v6 && f.offset != 0 ==> f.maximum == MAXIMUM_DATAGRAM)
  }

  /** IPv4 receivers discard the octets of a non-final fragment beyond the last whole unit of eight. */
  function Trimmed(f: Fragment): (t: Fragment)
    requires !f.v6 && f.more ==> |f.original| >= |f.payload| % 8
    ensures t.payload <= f.payload
  {
    if !f.v6 && f.more && |f.payload| % 8 != 0 then
      var discarded := |f.payload| % 8;
      f.(payload := f.payload[..|f.payload| - discarded],
         original := f.original[..|f.original| - discarded],
         packetSize := f.packetSize - discarded)
    else f
  }

  function Started(f: Fragment): (s: State)
    requires f.ecn < 4
  {
    State(f.v6, f.source, f.target, f.identifier, f.protocol, [], -1, 0, EcnBit(f.ecn),
          if f.v6 || f.offset == 0 then f.maximum else MAXIMUM_DATAGRAM - 20, 0, 0, [], 0, [])
  }

  predicate Matches(s: State, f: Fragment) {
    s.v6 == f.v6 && s.source == f.source && s.target == f.target && s.identifier == f.identifier
    && (s.v6 || s.protocol == f.protocol)
  }

  // ---------------------------------------------------------------- the reference machine

  /** One ECN codepoint in the mask of those seen: `1 << ecn`. */
  function EcnBit(ecn: nat): (b: nat)
    requires ecn < 4
  {
    if ecn == 0 then 1 else if ecn == 1 then 2 else if ecn == 2 then 4 else 8
  }

  predicate HasBit(mask: nat, ecn: nat)
    requires ecn < 4
  {
    if ecn == 0 then mask % 2 == 1 else if ecn == 1 then mask / 2 % 2 == 1
    else if ecn == 2 then mask / 4 % 2 == 1 else mask / 8 % 2 == 1
  }

  /** `mask | 1 << ecn`. */
  function WithBit(mask: nat, ecn: nat): (m: nat)
    requires ecn < 4
  {
    if HasBit(mask, ecn) then mask else mask + EcnBit(ecn)
  }

  /** The codepoints a mask stands for. */
  function Seen(mask: nat): (ecns: set<nat>) {
    set e: nat | e < 4 && HasBit(mask, e)
  }

  /** Section 5.3 of RFC 3168: not-ECT never mixes with an ECN codepoint. */
  predicate EcnConsistent(ecns: set<nat>) {
    0 in ecns ==> ecns == {0}
  }

  /** Congestion experienced by any fragment marks the whole datagram. */
  function CombinedEcn(ecns: set<nat>): (e: nat)
    ensures e == 0 || e == 3
  {
    if 3 in ecns then 3 else 0
  }

  /** Every octet of the announced length has arrived. */
  ghost predicate Whole(pieces: seq<Piece>, total: int) {
    total >= 0 && CoversAll(pieces, 0, total)
  }

  ghost function Gathered(pieces: seq<Piece>, total: nat): (data: seq<Byte>)
    ensures |data| == total
  {
    seq(total, i => OctetAt(pieces, i))
  }

  function RaiseBits(b: Byte, unit: nat, ecn: nat): (r: Byte)
    requires unit in {1, 16} && ecn in {0, 3}
  {
    if ecn == 0 then b else b - b / unit % 4 * unit + 3 * unit
  }

  /** The unfragmented IPv4 header rebuilt from the first fragment's header. */
  function WholeHeader4(header: seq<Byte>, total: nat, dontFragment: bool, ecn: nat): (h: seq<Byte>)
    requires |header| >= 20 && |header| + total <= MAXIMUM_DATAGRAM && ecn in {0, 3}
    ensures |h| == |header|
  {
    var marked := header[1 := RaiseBits(header[1], 1, ecn)];
    var sized := Splice(marked, 2, Encode16(|header| + total));
    var flagged := Splice(sized, 6, Encode16(if dontFragment then 0x4000 else 0));
    var cleared := Splice(flagged, 10, [0, 0]);
    Splice(cleared, 10, Encode16(Internet(cleared)))
  }

  /** The IPv6 Per-Fragment headers relinked around the removed Fragment header. */
  function WholeHeader6(header: seq<Byte>, nextHeader: int, protocol: Byte, total: nat, ecn: nat): (h: seq<Byte>)
    requires |header| >= 40 && 0 <= nextHeader < |header| && |header| - 40 + total <= MAXIMUM_DATAGRAM && ecn in {0, 3}
    ensures |h| == |header|
  {
    var marked := header[1 := RaiseBits(header[1], 16, ecn)];
    Splice(marked[nextHeader := protocol], 4, Encode16(|header| - 40 + total))
  }

  predicate Buildable(s: State) {
    s.total >= 0 &&
    if s.v6 then |s.header| >= 40 && 0 <= s.nextHeader < |s.header| && |s.header| - 40 + s.total <= MAXIMUM_DATAGRAM
    else |s.header| >= 20 && |s.header| + s.total <= MAXIMUM_DATAGRAM
  }

  /** The complete packet: the restored header followed by every octet in its place. */
  ghost function Assembled(s: State): (wire: seq<Byte>)
    requires Buildable(s)
  {
    var ecn := CombinedEcn(Seen(s.ecnMask));
    (if s.v6 then WholeHeader6(s.header, s.nextHeader, s.protocol, s.total, ecn)
     else WholeHeader4(s.header, s.total, s.maxDFSize != 0 && s.maxDFSize == s.maxSize, ecn))
    + Gathered(s.pieces, s.total)
  }

  function Larger(a: int, b: int): int { if a > b then a else b }

  /** A final fragment announces the length. */
  function WithTotal(s: State, f: Fragment): (r: State) {
    if f.more then s else s.(total := f.offset + |f.payload|)
  }

  /** The first fragment decides the protocol, where to relink it, and how long the datagram may be. */
  function WithRoute(s: State, f: Fragment): (r: State) {
    if f.offset == 0 then s.(protocol := f.protocol, nextHeader := f.nextHeader, maximum := f.maximum) else s
  }

  /** The first fragment's packet is kept whole, every other one's payload only. */
  function WithRange(s: State, f: Fragment): (r: State)
    requires f.ecn < 4
  {
    var kept := s.(pieces := Inserted(s.pieces, Piece(f.offset, f.payload)), ecnMask := WithBit(s.ecnMask, f.ecn));
    if f.offset == 0 then kept.(header := f.header, firstPacket := f.original, bytes := s.bytes + |f.original|)
    else kept.(bytes := s.bytes + |f.payload|)
  }

  /** The largest packet, and the largest that forbade fragmentation. */
  function WithSizes(s: State, f: Fragment): (r: State) {
    s.(maxSize := Larger(f.packetSize, s.maxSize),
       maxDFSize := if f.df then Larger(f.packetSize, s.maxDFSize) else s.maxDFSize)
  }

  /** The state once `f` is retained. */
  function Retained(s: State, f: Fragment): (r: State)
    requires f.ecn < 4
  {
    WithSizes(WithRange(WithRoute(WithTotal(s, f), f), f), f)
  }

  /** What a newly retained range leads to: the packet once every octet is covered. */
  ghost function Settled(next: State): (o: Outcome) {
    if !Whole(next.pieces, next.total) then Pending(next, true)
    else if Buildable(next) then Complete(next, Assembled(next))
    else Rejected(Invalid)
  }

  /** A range that touches nothing retained is refused only for its header, the piece limit, or its ECN. */
  ghost function Admitted(s: State, f: Fragment, limit: nat): (o: Outcome)
    requires f.ecn < 4
  {
    if f.offset == 0 && (WithTotal(s, f).total > f.maximum || !EndsBy(s.pieces, f.maximum)) then Rejected(Invalid)
    else if limit > 0 && |s.pieces| >= limit then Rejected(ResourceLimit)
    else if !EcnConsistent(Seen(s.ecnMask) + {f.ecn}) then Rejected(Invalid)
    else Settled(Retained(s, f))
  }

  /**
   * One arrival, told by the octets covered: a range that is partly covered, a length that contradicts
   * an earlier one, or inconsistent ECN spoils the datagram; a covered range is a duplicate; otherwise
   * the range is retained and the datagram is complete once every octet is covered.
   */
  ghost function Step(s: State, fragment: Fragment, limit: nat): (o: Outcome)
    requires ValidFragment(fragment)
  {
    var f := Trimmed(fragment);
    var end := f.offset + |f.payload|;
    if |f.payload| == 0 || end > s.maximum || s.total > s.maximum || (s.total >= 0 && end > s.total) then Rejected(Invalid)
    else Judged(s, f, end, limit)
  }

  /** What becomes of a nonempty range within the lengths that are known. */
  ghost function Judged(s: State, f: Fragment, end: nat, limit: nat): (o: Outcome)
    requires ValidFragment(f)
  {
    if TouchesAny(s.pieces, f.offset, end) && !CoversAll(s.pieces, f.offset, end) then Rejected(Invalid)
    else if !f.more && s.total >= 0 && s.total != end then Rejected(Invalid)
    else if !f.more && !EndsBy(s.pieces, end) then Rejected(Invalid)
    else if CoversAll(s.pieces, f.offset, end) then Pending(WithTotal(s, f), false)
    else Admitted(s, f, limit)
  }

  // ---------------------------------------------------------------- the invariant

  /** The pieces are disjoint and within every length announced. */
  ghost predicate PiecesInv(s: State) {
    && Sorted(s.pieces)
    && EndsBy(s.pieces, s.maximum)
    && -1 <= s.total <= s.maximum <= MAXIMUM_DATAGRAM
    && (s.total >= 0 ==> EndsBy(s.pieces, s.total))
  }

  /** The header is there exactly when the first octet is, and the byte counter includes it. */
  ghost predicate HeaderInv(s: State) {
    && (s.header == [] <==> !Covered(s.pieces, 0))
    && (s.header != [] ==> HeaderFits(s.v6, s.header, s.nextHeader, s.maximum) && s.header <= s.firstPacket)
    && s.bytes == RetainedBytes(s.pieces) + Overhead(s.v6, s.header)
  }

  ghost predicate EcnInv(mask: nat) {
    0 < mask < 16 && EcnConsistent(Seen(mask))
  }

  /** What holds of every state reachable from arbitrary fragments. */
  ghost predicate Inv(s: State) {
    PiecesInv(s) && HeaderInv(s) && EcnInv(s.ecnMask)
  }

  lemma StartedInv(f: Fragment)
    requires ValidFragment(f)
    ensures Inv(Started(f))
    ensures forall i :: !Covered(Started(f).pieces, i)
  {
  }

  /** The byte counters decide completeness: the count the code compares is right in every valid state. */
  lemma CompleteByCounting(s: State)
    requires Inv(s)
    ensures s.total >= 0 && s.bytes - Overhead(s.v6, s.header) == s.total <==> Whole(s.pieces, s.total)
  {
    if s.total >= 0 {
      ByteCountDecides(s.pieces, s.total);
    }
  }

  /** A complete datagram can always be built: header, size and ECN were settled when each piece was accepted. */
  lemma WholeIsBuildable(s: State)
    requires Inv(s) && Whole(s.pieces, s.total) && s.total > 0
    ensures Buildable(s)
  {
    assert Covered(s.pieces, 0);
  }

  /** The arrivals that are retained: new octets only, inside every length announced so far. */
  ghost predicate Untouched(s: State, f: Fragment) {
    var end := f.offset + |f.payload|;
    && 0 < |f.payload| && end <= s.maximum
    && (s.total >= 0 ==> end <= s.total)
    && !TouchesAny(s.pieces, f.offset, end)
    && (!f.more ==> (s.total < 0 || s.total == end) && EndsBy(s.pieces, end))
  }

  /** Such an arrival whose header and ECN agree with what was retained before. */
  ghost predicate Fresh(s: State, f: Fragment)
    requires f.ecn < 4
  {
    && Untouched(s, f)
    && (f.offset == 0 ==> WithTotal(s, f).total <= f.maximum && EndsBy(s.pieces, f.maximum))
    && EcnConsistent(Seen(s.ecnMask) + {f.ecn})
  }

  /** The arrivals that repeat what is already retained. */
  ghost predicate Repeats(s: State, f: Fragment) {
    var end := f.offset + |f.payload|;
    && 0 < |f.payload| && end <= s.maximum
    && (s.total >= 0 ==> end <= s.total)
    && CoversAll(s.pieces, f.offset, end)
    && (!f.more ==> (s.total < 0 || s.total == end) && EndsBy(s.pieces, end))
  }

  /** A fresh range is retained unless the piece limit is reached; a repeated one may only settle the length. */
  lemma StepCases(s: State, fragment: Fragment, limit: nat)
    requires Inv(s) && ValidFragment(fragment)
    ensures var f := Trimmed(fragment); var o := Step(s, fragment, limit);
      if Repeats(s, f) then o == Pending(WithTotal(s, f), false)
      else if !Fresh(s, f) then o.Rejected?
      else if limit > 0 && |s.pieces| >= limit then o == Rejected(ResourceLimit)
      else o == Settled(Retained(s, f))
  {
    if Repeats(s, Trimmed(fragment)) {
      StepOfRepeat(s, fragment, limit);
    } else {
      StepOfNew(s, fragment, limit);
    }
  }

  lemma StepOfRepeat(s: State, fragment: Fragment, limit: nat)
    requires Inv(s) && ValidFragment(fragment) && Repeats(s, Trimmed(fragment))
    ensures Step(s, fragment, limit) == Pending(WithTotal(s, Trimmed(fragment)), false)
  {
  }

  lemma StepOfNew(s: State, fragment: Fragment, limit: nat)
    requires Inv(s) && ValidFragment(fragment) && !Repeats(s, Trimmed(fragment))
    ensures var f := Trimmed(fragment); var o := Step(s, fragment, limit);
      if !Fresh(s, f) then o.Rejected?
      else if limit > 0 && |s.pieces| >= limit then o == Rejected(ResourceLimit)
      else o == Settled(Retained(s, f))
  {
    StepOfRange(s, fragment, limit);
  }

  /** A range that is not a duplicate is admitted if it touches nothing and contradicts no length. */
  lemma StepOfRange(s: State, fragment: Fragment, limit: nat)
    requires Inv(s) && ValidFragment(fragment) && !Repeats(s, Trimmed(fragment))
    ensures var f := Trimmed(fragment); var o := Step(s, fragment, limit);
      if Untouched(s, f) then o == Admitted(s, f, limit) else o.Rejected?
  {
    var f := Trimmed(fragment);
    assert |f.payload| > 0 && CoversAll(s.pieces, f.offset, f.offset + |f.payload|) ==> Covered(s.pieces, f.offset);
  }

  lemma RetainedCoverage(s: State, f: Fragment)
    requires Sorted(s.pieces) && f.ecn < 4 && Untouched(s, f)
    ensures Sorted(Retained(s, f).pieces) && |Retained(s, f).pieces| == |s.pieces| + 1
    ensures RetainedBytes(Retained(s, f).pieces) == RetainedBytes(s.pieces) + |f.payload|
    ensures forall i :: Covered(Retained(s, f).pieces, i) <==> Covered(s.pieces, i) || f.offset <= i < f.offset + |f.payload|
    ensures forall limit :: EndsBy(s.pieces, limit) && f.offset + |f.payload| <= limit ==> EndsBy(Retained(s, f).pieces, limit)
  {
    var piece := Piece(f.offset, f.payload);
    InsertKeepsSorted(s.pieces, piece);
    var next := Inserted(s.pieces, piece);
    assert Retained(s, f).pieces == next;
    forall i ensures Covered(next, i) <==> Covered(s.pieces, i) || f.offset <= i < f.offset + |f.payload| {
      CoveredAfterInsert(s.pieces, piece, i);
    }
    forall limit | EndsBy(s.pieces, limit) && piece.End() <= limit ensures EndsBy(next, limit) {
      EndsByGrows(s.pieces, piece, limit);
    }
  }

  lemma EndsByGrows(pieces: seq<Piece>, piece: Piece, limit: int)
    requires Sorted(pieces) && EndsBy(pieces, limit) && piece.End() <= limit
    ensures EndsBy(Inserted(pieces, piece), limit)
  {
    var next := Inserted(pieces, piece);
    forall k | 0 <= k < |next| ensures next[k].End() <= limit {
      assert next[k] in next;
    }
  }

  lemma RetainedPieces(s: State, f: Fragment)
    requires PiecesInv(s) && ValidFragment(f) && Fresh(s, f)
    ensures PiecesInv(Retained(s, f))
  {
    RetainedCoverage(s, f);
  }

  lemma RetainedInv(s: State, f: Fragment)
    requires Inv(s) && ValidFragment(f) && f.v6 == s.v6 && Fresh(s, f)
    ensures Inv(Retained(s, f)) && |Retained(s, f).pieces| == |s.pieces| + 1
  {
    RetainedPieces(s, f);
    RetainedCoverage(s, f);
    MaskFacts(s.ecnMask, f.ecn);
    assert f.offset == 0 ==> !Covered(s.pieces, 0);
  }

  lemma CoveredAfterInsert(pieces: seq<Piece>, piece: Piece, i: int)
    requires forall q :: q in Inserted(pieces, piece) <==> q == piece || q in pieces
    ensures Covered(Inserted(pieces, piece), i) <==> Covered(pieces, i) || piece.Holds(i)
  {
    var r := Inserted(pieces, piece);
    if Covered(r, i) {
      var k :| 0 <= k < |r| && r[k].Holds(i);
      assert r[k] in r;
    }
    if Covered(pieces, i) {
      var k :| 0 <= k < |pieces| && pieces[k].Holds(i);
      assert pieces[k] in r;
    }
    assert piece in r;
  }

  lemma TrimmedValid(f: Fragment)
    requires ValidFragment(f)
    ensures ValidFragment(Trimmed(f))
  {
  }

  /** Every arrival keeps the invariant, and a datagram whose octets have all arrived is never refused at the end. */
  lemma StepInv(s: State, f: Fragment, limit: nat)
    requires Inv(s) && ValidFragment(f) && f.v6 == s.v6
    ensures Step(s, f, limit).Pending? ==> Inv(Step(s, f, limit).next)
    ensures Step(s, f, limit).Pending? && limit > 0 && |s.pieces| <= limit ==> |Step(s, f, limit).next.pieces| <= limit
    ensures var t := Trimmed(f);
      Fresh(s, t) && (limit == 0 || |s.pieces| < limit) && Whole(Retained(s, t).pieces, Retained(s, t).total)
      <==> Step(s, f, limit).Complete?
    ensures Step(s, f, limit).Complete? ==> Inv(Step(s, f, limit).last) && Step(s, f, limit).last.total > 0
  {
    StepCases(s, f, limit);
    TrimmedValid(f);
    OutcomeInv(s, Trimmed(f), limit, Step(s, f, limit));
  }

  /** What the machine makes of a fragment in each case keeps the invariant. */
  lemma OutcomeInv(s: State, t: Fragment, limit: nat, o: Outcome)
    requires Inv(s) && ValidFragment(t) && t.v6 == s.v6
    requires
      if Repeats(s, t) then o == Pending(WithTotal(s, t), false)
      else if !Fresh(s, t) then o.Rejected?
      else if limit > 0 && |s.pieces| >= limit then o == Rejected(ResourceLimit)
      else o == Settled(Retained(s, t))
    ensures o.Pending? ==> Inv(o.next)
    ensures o.Pending? && limit > 0 && |s.pieces| <= limit ==> |o.next.pieces| <= limit
    ensures o.Complete? <==> Fresh(s, t) && (limit == 0 || |s.pieces| < limit) && Whole(Retained(s, t).pieces, Retained(s, t).total)
    ensures o.Complete? ==> Inv(o.last) && o.last.total > 0
  {
    if Fresh(s, t) {
      assert !Covered(s.pieces, t.offset);
      assert !Repeats(s, t);
      SettledInv(s, t);
    }
  }

  lemma SettledInv(s: State, f: Fragment)
    requires Inv(s) && ValidFragment(f) && f.v6 == s.v6 && Fresh(s, f)
    ensures Inv(Retained(s, f)) && |Retained(s, f).pieces| == |s.pieces| + 1
    ensures Settled(Retained(s, f)).Complete? <==> Whole(Retained(s, f).pieces, Retained(s, f).total)
    ensures Settled(Retained(s, f)).Complete? ==> Retained(s, f).total > 0
  {
    RetainedInv(s, f);
    RetainedCoverage(s, f);
    assert Covered(Retained(s, f).pieces, f.offset);
    if Whole(Retained(s, f).pieces, Retained(s, f).total) {
      WholeIsBuildable(Retained(s, f));
    }
  }

  // ---------------------------------------------------------------- runs

  /** Feeds arrivals one by one until the datagram is rejected or complete. */
  ghost function Run(s: State, arrivals: seq<Fragment>, limit: nat): (o: Outcome)
    requires forall k :: 0 <= k < |arrivals| ==> ValidFragment(arrivals[k])
    decreases |arrivals|
  {
    if arrivals == [] then Pending(s, false)
    else match Step(s, arrivals[0], limit)
      case Pending(next, _) => Run(next, arrivals[1..], limit)
      case done => done
  }

  /** What one outcome guarantees, whatever arrived. */
  ghost predicate Sound(o: Outcome, v6: bool, limit: nat, held: nat) {
    match o
    case Rejected(_) => true
    case Pending(next, _) => Inv(next) && next.v6 == v6 && (limit > 0 && held <= limit ==> |next.pieces| <= limit)
    case Complete(last, wire) => Inv(last) && Whole(last.pieces, last.total) && Buildable(last) && wire == Assembled(last)
  }

  lemma StepIsSound(s: State, f: Fragment, limit: nat)
    requires Inv(s) && ValidFragment(f) && f.v6 == s.v6
    ensures Sound(Step(s, f, limit), s.v6, limit, |s.pieces|)
  {
    StepInv(s, f, limit);
    StepCases(s, f, limit);
  }

  /** Whatever arrives, for as long as a datagram is pending its state is sound and within the piece limit. */
  lemma {:induction false} EveryRunIsSound(s: State, arrivals: seq<Fragment>, limit: nat)
    requires Inv(s)
    requires forall k :: 0 <= k < |arrivals| ==> ValidFragment(arrivals[k]) && arrivals[k].v6 == s.v6
    ensures Sound(Run(s, arrivals, limit), s.v6, limit, |s.pieces|)
    decreases |arrivals|
  {
    if arrivals != [] {
      StepIsSound(s, arrivals[0], limit);
      if Step(s, arrivals[0], limit).Pending? {
        EveryRunIsSound(Step(s, arrivals[0], limit).next, arrivals[1..], limit);
      }
    }
  }

  // ---------------------------------------------------------------- the machine as it runs

  /** The mask test the code makes is the consistency of the codepoints it stands for. */
  lemma MaskFacts(mask: nat, ecn: nat)
    requires ecn < 4 && mask < 16
    ensures Seen(WithBit(mask, ecn)) == Seen(mask) + {ecn}
    ensures 0 < WithBit(mask, ecn) < 16
    ensures var candidate := WithBit(mask, ecn);
      candidate % 2 != 0 && candidate != 1 <==> !EcnConsistent(Seen(mask) + {ecn})
  {
    var candidate := WithBit(mask, ecn);
    forall e: nat | e < 4 ensures HasBit(candidate, e) <==> HasBit(mask, e) || e == ecn {
    }
    assert Seen(candidate) == Seen(mask) + {ecn};
    assert forall e: nat :: e in Seen(candidate) <==> e < 4 && HasBit(candidate, e);
    assert 0 in Seen(candidate) <==> HasBit(candidate, 0);
    if candidate % 2 != 0 && candidate != 1 {
      assert HasBit(candidate, 1) || HasBit(candidate, 2) || HasBit(candidate, 3);
      assert 1 in Seen(candidate) || 2 in Seen(candidate) || 3 in Seen(candidate);
    }
    if candidate == 1 {
      assert Seen(candidate) == {0};
    }
  }

  /** The ECN bits to raise in the rebuilt header; a mixed mask has none. */
  function FragmentEcn(mask: nat): (r: Option<nat>) {
    if mask == 1 || mask == 2 || mask == 4 || mask == 6 then Some(0)
    else if mask == 8 || mask == 10 || mask == 12 || mask == 14 then Some(3)
    else None
  }

  lemma FragmentEcnIsCombined(mask: nat)
    requires 0 < mask < 16 && EcnConsistent(Seen(mask))
    ensures FragmentEcn(mask) == Some(CombinedEcn(Seen(mask)))
  {
    assert forall e: nat :: e in Seen(mask) <==> e < 4 && HasBit(mask, e);
    assert 3 in Seen(mask) <==> HasBit(mask, 3);
    assert 0 in Seen(mask) <==> HasBit(mask, 0);
    if HasBit(mask, 0) {
      assert 1 !in Seen(mask) && 2 !in Seen(mask) && 3 !in Seen(mask);
      assert !HasBit(mask, 1) && !HasBit(mask, 2) && !HasBit(mask, 3);
    }
  }

  /** Whether some piece ends beyond `limit`. */
  method AnyEndsAfter(pieces: seq<Piece>, limit: int) returns (found: bool)
    ensures found <==> !EndsBy(pieces, limit)
  {
    for k := 0 to |pieces|
      invariant forall j :: 0 <= j < k ==> pieces[j].End() <= limit
    {
      if pieces[k].End() > limit {
        return true;
      }
    }
    return false;
  }

  // ---------------------------------------------------------------- building the packet

  lemma OctetGrows(pieces: seq<Piece>, k: nat, i: int)
    requires Sorted(pieces) && k < |pieces|
    ensures OctetAt(pieces[..k + 1], i) == if pieces[k].Holds(i) then pieces[k].data[i - pieces[k].offset] else OctetAt(pieces[..k], i)
  {
    var longer := pieces[..k + 1];
    SortedPrefix(pieces, k);
    SortedPrefix(pieces, k + 1);
    assert longer[..k] == pieces[..k];
    if pieces[k].Holds(i) {
      OctetOfPiece(longer, k, i);
    } else {
      OctetStays(longer, k, i);
    }
  }

  lemma SortedPrefix(pieces: seq<Piece>, n: nat)
    requires Sorted(pieces) && n <= |pieces|
    ensures Sorted(pieces[..n])
  {
  }

  /** A last piece that does not hold an octet leaves it as it was. */
  lemma OctetStays(pieces: seq<Piece>, k: nat, i: int)
    requires |pieces| == k + 1 && Sorted(pieces) && Sorted(pieces[..k]) && !pieces[k].Holds(i)
    ensures OctetAt(pieces, i) == OctetAt(pieces[..k], i)
  {
    var shorter := pieces[..k];
    if Covered(shorter, i) {
      var j :| 0 <= j < |shorter| && shorter[j].Holds(i);
      OctetOfPiece(pieces, j, i);
      OctetOfPiece(shorter, j, i);
    } else {
      forall j | 0 <= j < |pieces| ensures !pieces[j].Holds(i) {
        assert j < k ==> pieces[j] == shorter[j];
      }
    }
  }

  /** The header, and behind it the first `k` pieces in their places among zeros. */
  ghost predicate Placing(packet: seq<Byte>, header: seq<Byte>, pieces: seq<Piece>, k: nat) {
    && k <= |pieces| && |header| <= |packet|
    && (forall i :: 0 <= i < |header| ==> packet[i] == header[i])
    && (forall j :: |header| <= j < |packet| ==> packet[j] == OctetAt(pieces[..k], j - |header|))
  }

  lemma PlacedNext(before: seq<Byte>, header: seq<Byte>, pieces: seq<Piece>, k: nat)
    requires Sorted(pieces) && k < |pieces| && Placing(before, header, pieces, k) && |header| + pieces[k].End() <= |before|
    ensures Placing(Splice(before, |header| + pieces[k].offset, pieces[k].data), header, pieces, k + 1)
  {
    var after := Splice(before, |header| + pieces[k].offset, pieces[k].data);
    forall j | |header| <= j < |after| ensures after[j] == OctetAt(pieces[..k + 1], j - |header|) {
      OctetGrows(pieces, k, j - |header|);
      assert before[j] == OctetAt(pieces[..k], j - |header|);
    }
  }

  lemma PlacedAll(packet: seq<Byte>, header: seq<Byte>, pieces: seq<Piece>, total: nat)
    requires |packet| == |header| + total && Placing(packet, header, pieces, |pieces|)
    ensures packet == header + Gathered(pieces, total)
  {
    assert pieces[..|pieces|] == pieces;
  }

  /** Copies every piece to its place behind the header. */
  method PlacePieces(packet: array<Byte>, start: nat, pieces: seq<Piece>, total: nat, ghost header: seq<Byte>)
    requires start == |header| && packet.Length == start + total
    requires Sorted(pieces) && EndsBy(pieces, total)
    requires packet[..] == header + Zeros(total)
    modifies packet
    ensures packet[..] == header + Gathered(pieces, total)
  {
    for k := 0 to |pieces|
      invariant Placing(packet[..], header, pieces, k)
    {
      PlacedNext(packet[..], header, pieces, k);
      CopyInto(packet, start + pieces[k].offset, pieces[k].data);
    }
    PlacedAll(packet[..], header, pieces, total);
  }

  /** The IPv4 branch: restores length, flags and header checksum. */
  method BuildReassembled4(s: State, dontFragment: bool, ecn: nat) returns (wire: Option<seq<Byte>>)
    requires !s.v6 && s.total >= 0 && ecn in {0, 3} && Sorted(s.pieces) && EndsBy(s.pieces, s.total)
    ensures wire.Some? <==> Buildable(s)
    ensures wire.Some? ==> wire.value == WholeHeader4(s.header, s.total, dontFragment, ecn) + Gathered(s.pieces, s.total)
  {
    if |s.header| < 20 || |s.header| + s.total > MAXIMUM_DATAGRAM {
      return None;
    }
    var size := |s.header| + s.total;
    var packet := new Byte[size](_ => 0);
    assert packet[..] == Zeros(size);
    CopyInto(packet, 0, s.header);
    packet[1] := RaiseBits(packet[1], 1, ecn);
    ghost var head := s.header[1 := RaiseBits(s.header[1], 1, ecn)];
    assert packet[..] == head + Zeros(s.total);
    PlacePieces(packet, |s.header|, s.pieces, s.total, head);
    ghost var body := Gathered(s.pieces, s.total);
    var flags: U16 := if dontFragment then 0x4000 else 0;
    ghost var c;
    head, c := RestoreHeader4(packet, |s.header|, size, flags, head, body);
    EditedHeader4(s.header, s.total, dontFragment, ecn, size, flags, head, c);
    wire := Some(packet[..]);
  }

  /** Writes length, flags, and the checksum over a cleared checksum field. */
  method RestoreHeader4(packet: array<Byte>, n: nat, size: U16, flags: U16, ghost before: seq<Byte>, ghost body: seq<Byte>)
    returns (ghost head: seq<Byte>, ghost c: U16)
    requires 20 <= n == |before| <= MAXIMUM_DATAGRAM && packet[..] == before + body
    modifies packet
    ensures head == Splice(Splice(Splice(before, 2, Encode16(size)), 6, Encode16(flags)), 10, [0, 0])
    ensures c == Internet(head) && packet[..] == Splice(head, 10, Encode16(c)) + body
  {
    CopyInto(packet, 2, Encode16(size));
    SpliceHead(before, body, 2, Encode16(size));
    head := Splice(before, 2, Encode16(size));
    CopyInto(packet, 6, Encode16(flags));
    SpliceHead(head, body, 6, Encode16(flags));
    head := Splice(head, 6, Encode16(flags));
    CopyInto(packet, 10, [0, 0]);
    SpliceHead(head, body, 10, [0, 0]);
    head := Splice(head, 10, [0, 0]);
    assert packet[..n] == head;
    var sum := ChecksumOf(packet[..n], false);
    c := sum;
    CopyInto(packet, 10, Encode16(sum));
    SpliceHead(head, body, 10, Encode16(sum));
  }

  /** The header's fields in the order they are written. */
  lemma EditedHeader4(header: seq<Byte>, total: nat, dontFragment: bool, ecn: nat, size: U16, flags: U16, head: seq<Byte>, c: U16)
    requires |header| >= 20 && size == |header| + total && size <= MAXIMUM_DATAGRAM && ecn in {0, 3}
    requires flags == if dontFragment then 0x4000 else 0
    requires head == Splice(Splice(Splice(header[1 := RaiseBits(header[1], 1, ecn)], 2, Encode16(size)), 6, Encode16(flags)), 10, [0, 0])
    requires c == Internet(head)
    ensures WholeHeader4(header, total, dontFragment, ecn) == Splice(head, 10, Encode16(c))
  {
  }

  /** The IPv6 branch: relinks the Next Header field and restores the payload length. */
  method BuildReassembled6(s: State, ecn: nat) returns (wire: Option<seq<Byte>>)
    requires s.v6 && s.total >= 0 && ecn in {0, 3} && Sorted(s.pieces) && EndsBy(s.pieces, s.total)
    ensures wire.Some? <==> Buildable(s)
    ensures wire.Some? ==> wire.value == WholeHeader6(s.header, s.nextHeader, s.protocol, s.total, ecn) + Gathered(s.pieces, s.total)
  {
    if |s.header| < 40 || s.nextHeader < 0 || s.nextHeader >= |s.header| || |s.header| - 40 + s.total > MAXIMUM_DATAGRAM {
      return None;
    }
    var packet := new Byte[|s.header| + s.total](_ => 0);
    assert packet[..] == Zeros(|s.header| + s.total);
    CopyInto(packet, 0, s.header);
    packet[1] := RaiseBits(packet[1], 16, ecn);
    packet[s.nextHeader] := s.protocol;
    ghost var head := s.header[1 := RaiseBits(s.header[1], 16, ecn)][s.nextHeader := s.protocol];
    assert packet[..] == head + Zeros(s.total);
    PlacePieces(packet, |s.header|, s.pieces, s.total, head);
    CopyInto(packet, 4, Encode16(packet.Length - 40));
    SpliceHead(head, Gathered(s.pieces, s.total), 4, Encode16(packet.Length - 40));
    wire := Some(packet[..]);
  }

  /** The in-place state machine one datagram owns. */
  class Reassembler {
    var state: State

    ghost predicate Valid() reads this {
      Inv(state)
    }

    /** Starts an empty state for one validated fragment. */
    constructor (f: Fragment)
      requires ValidFragment(f)
      ensures Valid() && state == Started(f)
    {
      state := Started(f);
      new;
      StartedInv(f);
    }

    /** Resumes a state taken from the fragment table. */
    constructor Resume(s: State)
      requires Inv(s)
      ensures Valid() && state == s
    {
      state := s;
    }

    /** Whether the byte counter has reached the announced length. */
    predicate CountsComplete() reads this {
      state.total >= 0 && state.bytes - Overhead(state.v6, state.header) == state.total
    }

    /** Constructs the complete packet, or nothing when ECN, header or size forbid it. */
    method FinishWire() returns (wire: Option<seq<Byte>>)
      requires Valid() && state.total >= 0
      ensures wire.Some? <==> Buildable(state)
      ensures wire.Some? ==> wire.value == Assembled(state)
    {
      var ecn := FragmentEcn(state.ecnMask);
      FragmentEcnIsCombined(state.ecnMask);
      if state.v6 {
        wire := BuildReassembled6(state, ecn.value);
      } else {
        wire := BuildReassembled4(state, state.maxDFSize != 0 && state.maxDFSize == state.maxSize, ecn.value);
      }
    }

    /** Adds one validated fragment. A rejected or completed state is terminal and belongs to the caller. */
    method AddFragment(fragment: Fragment, maximumPieces: nat) returns (outcome: Outcome)
      requires Valid() && ValidFragment(fragment) && fragment.v6 == state.v6
      modifies this
      ensures outcome == Step(old(state), fragment, maximumPieces)
      ensures outcome.Pending? ==> Valid() && state == outcome.next
      ensures outcome.Complete? ==> Valid() && state == outcome.last
    {
      outcome := Classify(fragment, maximumPieces);
      StepIsSound(old(state), fragment, maximumPieces);
    }

    /** The checks in the order they are made. */
    method Classify(fragment: Fragment, maximumPieces: nat) returns (outcome: Outcome)
      requires Valid() && ValidFragment(fragment) && fragment.v6 == state.v6
      modifies this
      ensures outcome == Step(old(state), fragment, maximumPieces)
      ensures outcome.Pending? ==> state == outcome.next
      ensures outcome.Complete? ==> state == outcome.last
    {
      TrimmedValid(fragment);
      var f := Trimmed(fragment);
      var end := f.offset + |f.payload|;
      outcome := Rejected(Invalid);
      if |f.payload| != 0 && end <= state.maximum && state.total <= state.maximum && (state.total < 0 || end <= state.total) {
        outcome := Judge(f, end, maximumPieces);
      }
    }

    /** Refuses an overlap and a contradicted length; repeats a duplicate; and admits what is new. */
    method Judge(f: Fragment, end: nat, maximumPieces: nat) returns (outcome: Outcome)
      requires Valid() && ValidFragment(f) && f.v6 == state.v6 && |f.payload| != 0 && end == f.offset + |f.payload|
      requires end <= state.maximum && state.total <= state.maximum && (state.total < 0 || end <= state.total)
      modifies this
      ensures outcome == Judged(old(state), f, end, maximumPieces)
      ensures outcome.Pending? ==> state == outcome.next
      ensures outcome.Complete? ==> state == outcome.last
    {
      outcome := Rejected(Invalid);
      var duplicate, overlaps := RangeState(state.pieces, f.offset, end);
      if !overlaps || duplicate {
        var consistent := SettleLength(f, end);
        if consistent && duplicate {
          outcome := Pending(state, false);
        } else if consistent {
          outcome := Admit(f, maximumPieces, old(state));
        }
      }
    }

    /** A final fragment fixes the total, unless an earlier one or a retained piece contradicts it. */
    method SettleLength(f: Fragment, end: nat) returns (consistent: bool)
      requires end == f.offset + |f.payload|
      modifies this
      ensures consistent <==> f.more || ((old(state).total < 0 || old(state).total == end) && EndsBy(old(state).pieces, end))
      ensures consistent ==> state == WithTotal(old(state), f)
    {
      if !f.more && state.total >= 0 && state.total != end {
        return false;
      }
      if !f.more {
        state := state.(total := end);
        var beyond := AnyEndsAfter(state.pieces, end);
        return !beyond;
      }
      return true;
    }

    /** Admits a range that touches nothing retained, or rejects it for its header, number or ECN. */
    method Admit(f: Fragment, maximumPieces: nat, ghost before: State) returns (outcome: Outcome)
      requires Inv(before) && ValidFragment(f) && f.v6 == before.v6
      requires state == WithTotal(before, f)
      requires Untouched(before, f)
      modifies this
      ensures outcome == Admitted(before, f, maximumPieces)
      ensures !outcome.Rejected? ==> state == Retained(before, f)
    {
      if f.offset == 0 {
        state := state.(protocol := f.protocol, nextHeader := f.nextHeader, maximum := f.maximum);
        var beyond := AnyEndsAfter(state.pieces, f.maximum);
        if state.total > f.maximum || beyond {
          return Rejected(Invalid);
        }
      }
      assert state == WithRoute(WithTotal(before, f), f);
      if maximumPieces > 0 && |state.pieces| >= maximumPieces {
        return Rejected(ResourceLimit);
      }
      var candidate := WithBit(state.ecnMask, f.ecn);
      MaskFacts(before.ecnMask, f.ecn);
      if candidate % 2 != 0 && candidate != 1 {
        return Rejected(Invalid);
      }
      outcome := Settle(f, before);
    }

    /** Retains a fresh range and reports whether it was the last one missing. */
    method Settle(f: Fragment, ghost before: State) returns (outcome: Outcome)
      requires Inv(before) && ValidFragment(f) && f.v6 == before.v6 && Fresh(before, f)
      requires state == WithRoute(WithTotal(before, f), f)
      modifies this
      ensures state == Retained(before, f)
      ensures outcome == Settled(Retained(before, f))
    {
      StoreRange(f);
      NoteSizes(f);
      RetainedInv(before, f);
      CompleteByCounting(state);
      if !CountsComplete() {
        return Pending(state, true);
      }
      var wire := FinishWire();
      outcome := if wire.Some? then Complete(state, wire.value) else Rejected(Invalid);
    }

    /** Copies a fresh range into the state. */
    method StoreRange(f: Fragment)
      requires f.ecn < 4 && Sorted(state.pieces)
      modifies this
      ensures state == WithRange(old(state), f)
    {
      var pieces := InsertPiece(state.pieces, Piece(f.offset, f.payload));
      state := state.(ecnMask := WithBit(state.ecnMask, f.ecn), pieces := pieces);
      if f.offset == 0 {
        state := state.(header := f.header, firstPacket := f.original, bytes := state.bytes + |f.original|);
      } else {
        state := state.(bytes := state.bytes + |f.payload|);
      }
    }

    /** Records the packet sizes that decide Don't Fragment. */
    method NoteSizes(f: Fragment)
      modifies this
      ensures state == WithSizes(old(state), f)
    {
      if f.packetSize > state.maxSize {
        state := state.(maxSize := f.packetSize);
      }
      if f.df && f.packetSize > state.maxDFSize {
        state := state.(maxDFSize := f.packetSize);
      }
    }
  }
}
