/** Any split of a datagram, arriving in any order with any repeats, reassembles to that datagram. */
module ArrivalOrder {
  import opened Bytes
  import opened Coverage
  import opened Reassembly

  /** The datagram before fragmentation: its payload and the header every first fragment carries. */
  datatype Datagram = Datagram(v6: bool, protocol: Byte, header: seq<Byte>, nextHeader: int, df: bool, payload: seq<Byte>)

  function End(f: Fragment): nat { f.offset + |f.payload| }

  /** The first fragment carries the datagram's header; the others only their range. */
  ghost predicate PartOf(d: Datagram, f: Fragment) {
    && ValidFragment(f) && f.v6 == d.v6 && f.df == d.df && f.packetSize > 0
    && |f.payload| > 0 && End(f) <= |d.payload|
    && f.payload == d.payload[f.offset..End(f)]
    && (f.more <==> End(f) < |d.payload|)
    && (f.more ==> |f.payload| % 8 == 0)
    && (f.offset == 0 ==> f.header == d.header && f.nextHeader == d.nextHeader && f.protocol == d.protocol && |d.payload| <= f.maximum)
  }

  /** Consecutive ranges that make up the whole payload. */
  ghost predicate Split(d: Datagram, parts: seq<Fragment>) {
    && |parts| > 0
    && (forall k :: 0 <= k < |parts| ==> PartOf(d, parts[k]))
    && parts[0].offset == 0
    && (forall k :: 0 < k < |parts| ==> parts[k].offset == End(parts[k - 1]))
    && End(parts[|parts| - 1]) == |d.payload|
    && |d.payload| <= MAXIMUM_DATAGRAM - (if d.v6 then 0 else 20)
    && EcnConsistent(EcnOf(parts, Everything(parts)))
  }

  function Everything(parts: seq<Fragment>): (all: set<nat>) {
    set k: nat {:trigger parts[k]} | k < |parts|
  }

  function EcnOf(parts: seq<Fragment>, got: set<nat>): (ecns: set<nat>) {
    set k: nat | k in got && k < |parts| :: parts[k].ecn
  }

  ghost predicate Within(f: Fragment, i: int) {
    f.offset <= i < End(f)
  }

  /** Position `i` lies in a part already received. */
  ghost predicate Received(parts: seq<Fragment>, got: set<nat>, i: int) {
    exists k: nat :: k in got && k < |parts| && Within(parts[k], i)
  }

  lemma {:induction false} OffsetsGrow(d: Datagram, parts: seq<Fragment>, j: nat, k: nat)
    requires Split(d, parts) && j < k < |parts|
    ensures End(parts[j]) <= parts[k].offset
    decreases k
  {
    if j < k - 1 {
      OffsetsGrow(d, parts, j, k - 1);
    }
  }

  lemma OnePart(d: Datagram, parts: seq<Fragment>, j: nat, k: nat, i: int)
    requires Split(d, parts) && j < |parts| && k < |parts| && Within(parts[j], i) && Within(parts[k], i)
    ensures j == k
  {
    if j < k {
      OffsetsGrow(d, parts, j, k);
    } else if k < j {
      OffsetsGrow(d, parts, k, j);
    }
  }

  lemma {:induction false} SomePart(d: Datagram, parts: seq<Fragment>, i: nat, k: nat) returns (j: nat)
    requires Split(d, parts) && k < |parts| && i < End(parts[k])
    ensures j <= k && Within(parts[j], i)
    decreases k
  {
    if parts[k].offset <= i {
      j := k;
    } else {
      j := SomePart(d, parts, i, k - 1);
    }
  }

  // ---------------------------------------------------------------- the state after part of the arrivals

  /** Position `i` is held exactly when it was received, and then with the datagram's octet. */
  ghost predicate HoldsOne(pieces: seq<Piece>, d: Datagram, parts: seq<Fragment>, got: set<nat>, i: int) {
    && (Covered(pieces, i) <==> Received(parts, got, i))
    && (0 <= i < |d.payload| && Covered(pieces, i) ==> OctetAt(pieces, i) == d.payload[i])
  }

  ghost predicate Holds(pieces: seq<Piece>, d: Datagram, parts: seq<Fragment>, got: set<nat>) {
    forall i :: HoldsOne(pieces, d, parts, got, i)
  }

  /** The scalar fields once the parts in `got` have arrived. */
  ghost predicate TracksFields(s: State, d: Datagram, parts: seq<Fragment>, got: set<nat>) {
    && s.v6 == d.v6
    && s.total == (if |parts| - 1 in got then |d.payload| else -1)
    && |d.payload| <= s.maximum
    && (0 in got ==> s.header == d.header && s.nextHeader == d.nextHeader && s.protocol == d.protocol)
    && (if d.df then s.maxSize == s.maxDFSize && (got != {} ==> s.maxSize > 0) else s.maxDFSize == 0)
  }

  /** `s` is the state once the parts in `got` have arrived, the assembly having been started by part `first`. */
  ghost predicate Tracks(s: State, d: Datagram, parts: seq<Fragment>, first: nat, got: set<nat>) {
    && Inv(s)
    && got <= Everything(parts) && first < |parts|
    && Holds(s.pieces, d, parts, got)
    && |s.pieces| == |got|
    && TracksFields(s, d, parts, got)
    && Seen(s.ecnMask) == EcnOf(parts, got + {first})
  }

  lemma StartTracks(d: Datagram, parts: seq<Fragment>, first: nat)
    requires Split(d, parts) && first < |parts|
    ensures Tracks(Started(parts[first]), d, parts, first, {})
  {
    var f := parts[first];
    StartedInv(f);
    assert HasBit(EcnBit(f.ecn), f.ecn) && forall e: nat | e < 4 && e != f.ecn :: !HasBit(EcnBit(f.ecn), e);
    assert Seen(EcnBit(f.ecn)) == {f.ecn};
    assert PartOf(d, parts[0]);
    assert EcnOf(parts, {} + {first}) == {f.ecn};
  }

  /** The header and payload together are a legal packet. */
  predicate Fits(d: Datagram) {
    if d.v6 then |d.header| >= 40 && 0 <= d.nextHeader < |d.header| && |d.header| - 40 + |d.payload| <= MAXIMUM_DATAGRAM
    else |d.header| >= 20 && |d.header| + |d.payload| <= MAXIMUM_DATAGRAM
  }

  /** The packet the datagram reassembles to. */
  ghost function Restored(d: Datagram, ecns: set<nat>): (wire: seq<Byte>)
    requires Fits(d)
  {
    (if d.v6 then WholeHeader6(d.header, d.nextHeader, d.protocol, |d.payload|, CombinedEcn(ecns))
     else WholeHeader4(d.header, |d.payload|, d.df, CombinedEcn(ecns))) + d.payload
  }

  lemma SplitIsBuildable(d: Datagram, parts: seq<Fragment>)
    requires Split(d, parts)
    ensures Fits(d)
  {
    assert PartOf(d, parts[0]);
  }

  /** A part already received is a duplicate; it never completes the datagram. */
  lemma RepeatedPart(s: State, d: Datagram, parts: seq<Fragment>, first: nat, got: set<nat>, k: nat, limit: nat)
    requires Split(d, parts) && Tracks(s, d, parts, first, got) && k in got
    ensures Step(s, parts[k], limit) == Pending(s, false)
  {
    var f := parts[k];
    assert PartOf(d, f);
    EndsWithin(s, d, parts, first, got);
    LastPart(d, parts, k);
    assert Repeats(s, f) by {
      forall i | f.offset <= i < End(f) ensures Covered(s.pieces, i) {
        assert HoldsOne(s.pieces, d, parts, got, i) && Within(f, i);
      }
    }
    StepCases(s, f, limit);
  }

  lemma LastPart(d: Datagram, parts: seq<Fragment>, k: nat)
    requires Split(d, parts) && k < |parts|
    ensures !parts[k].more <==> k == |parts| - 1
    ensures parts[k].offset == 0 <==> k == 0
  {
    assert PartOf(d, parts[k]) && PartOf(d, parts[0]);
    if k < |parts| - 1 {
      OffsetsGrow(d, parts, k, |parts| - 1);
      assert PartOf(d, parts[|parts| - 1]);
    }
    if k > 0 {
      OffsetsGrow(d, parts, 0, k);
    }
  }

  lemma EndsWithin(s: State, d: Datagram, parts: seq<Fragment>, first: nat, got: set<nat>)
    requires Split(d, parts) && Tracks(s, d, parts, first, got)
    ensures EndsBy(s.pieces, |d.payload|)
  {
    forall k | 0 <= k < |s.pieces| ensures s.pieces[k].End() <= |d.payload| {
      var i := s.pieces[k].End() - 1;
      assert s.pieces[k].Holds(i);
      assert Covered(s.pieces, i) && HoldsOne(s.pieces, d, parts, got, i);
      var j: nat :| j in got && j < |parts| && Within(parts[j], i);
      assert PartOf(d, parts[j]);
    }
  }

  lemma FreshPart(s: State, d: Datagram, parts: seq<Fragment>, first: nat, got: set<nat>, k: nat)
    requires Split(d, parts) && Tracks(s, d, parts, first, got) && k < |parts| && k !in got
    ensures Fresh(s, parts[k])
  {
    var f := parts[k];
    assert PartOf(d, f);
    LastPart(d, parts, k);
    EndsWithin(s, d, parts, first, got);
    forall i | f.offset <= i < End(f) ensures !Covered(s.pieces, i) {
      assert HoldsOne(s.pieces, d, parts, got, i);
      if Received(parts, got, i) {
        var j: nat :| j in got && j < |parts| && Within(parts[j], i);
        OnePart(d, parts, j, k, i);
      }
    }
    EcnGrows(d, parts, s.ecnMask, got + {first}, k);
  }

  lemma EcnGrows(d: Datagram, parts: seq<Fragment>, mask: nat, got: set<nat>, k: nat)
    requires Split(d, parts) && got <= Everything(parts) && k < |parts| && Seen(mask) == EcnOf(parts, got)
    ensures EcnConsistent(Seen(mask) + {parts[k].ecn})
    ensures EcnOf(parts, got + {k}) == Seen(mask) + {parts[k].ecn}
  {
    assert EcnOf(parts, got + {k}) == Seen(mask) + {parts[k].ecn};
    forall e | e in EcnOf(parts, got + {k}) ensures e in EcnOf(parts, Everything(parts)) {
      var j: nat :| j in got + {k} && j < |parts| && parts[j].ecn == e;
      assert j in Everything(parts);
    }
    var some := parts[k].ecn;
    assert some in Seen(mask) + {some};
    if 0 in Seen(mask) + {some} {
      assert EcnOf(parts, Everything(parts)) == {0};
    }
  }

  lemma ReceivedGrows(parts: seq<Fragment>, got: set<nat>, k: nat, i: int)
    requires k < |parts|
    ensures Received(parts, got + {k}, i) <==> Received(parts, got, i) || Within(parts[k], i)
  {
    if Received(parts, got + {k}, i) {
      var j: nat :| j in got + {k} && j < |parts| && Within(parts[j], i);
      assert j in got ==> Received(parts, got, i);
    }
    if Received(parts, got, i) {
      var j: nat :| j in got && j < |parts| && Within(parts[j], i);
      assert j in got + {k};
    }
    if Within(parts[k], i) {
      assert k in got + {k};
    }
  }

  /** Storing a new part adds exactly its positions, each with the datagram's octet. */
  lemma HoldsAt(pieces: seq<Piece>, d: Datagram, parts: seq<Fragment>, got: set<nat>, k: nat, i: int)
    requires k < |parts| && PartOf(d, parts[k])
    requires Sorted(pieces) && Sorted(Inserted(pieces, Piece(parts[k].offset, parts[k].payload)))
    requires HoldsOne(pieces, d, parts, got, i)
    requires Covered(Inserted(pieces, Piece(parts[k].offset, parts[k].payload)), i)
      <==> Covered(pieces, i) || Within(parts[k], i)
    ensures HoldsOne(Inserted(pieces, Piece(parts[k].offset, parts[k].payload)), d, parts, got + {k}, i)
  {
    var piece := Piece(parts[k].offset, parts[k].payload);
    ReceivedGrows(parts, got, k, i);
    if Covered(Inserted(pieces, piece), i) {
      InsertedOctets(pieces, piece, i);
    }
  }

  lemma HoldsAfter(s: State, d: Datagram, parts: seq<Fragment>, got: set<nat>, k: nat)
    requires k < |parts| && PartOf(d, parts[k])
    requires Sorted(s.pieces) && Holds(s.pieces, d, parts, got) && Untouched(s, parts[k])
    ensures Holds(Retained(s, parts[k]).pieces, d, parts, got + {k})
  {
    var piece := Piece(parts[k].offset, parts[k].payload);
    InsertKeepsSorted(s.pieces, piece);
    forall i ensures HoldsOne(Inserted(s.pieces, piece), d, parts, got + {k}, i) {
      CoveredAfterInsert(s.pieces, piece, i);
      assert HoldsOne(s.pieces, d, parts, got, i);
      HoldsAt(s.pieces, d, parts, got, k, i);
    }
  }

  lemma FieldsAfter(s: State, d: Datagram, parts: seq<Fragment>, got: set<nat>, k: nat)
    requires Split(d, parts) && k < |parts| && k !in got
    requires TracksFields(s, d, parts, got)
    ensures TracksFields(Retained(s, parts[k]), d, parts, got + {k})
  {
    assert PartOf(d, parts[k]);
    LastPart(d, parts, k);
  }

  lemma EcnAfter(s: State, d: Datagram, parts: seq<Fragment>, got: set<nat>, k: nat)
    requires Split(d, parts) && k < |parts| && got <= Everything(parts) && s.ecnMask < 16
    requires PartOf(d, parts[k]) && Seen(s.ecnMask) == EcnOf(parts, got)
    ensures Seen(Retained(s, parts[k]).ecnMask) == EcnOf(parts, got + {k})
  {
    MaskFacts(s.ecnMask, parts[k].ecn);
    EcnGrows(d, parts, s.ecnMask, got, k);
  }

  lemma TracksAfter(s: State, d: Datagram, parts: seq<Fragment>, first: nat, got: set<nat>, k: nat)
    requires Split(d, parts) && Tracks(s, d, parts, first, got) && k < |parts| && k !in got
    requires Fresh(s, parts[k]) && PartOf(d, parts[k])
    requires Inv(Retained(s, parts[k])) && |Retained(s, parts[k]).pieces| == |s.pieces| + 1
    ensures Tracks(Retained(s, parts[k]), d, parts, first, got + {k})
  {
    var t, all := Retained(s, parts[k]), got + {k};
    EcnWithFirst(s, d, parts, first, got, k);
    assert Seen(t.ecnMask) == EcnOf(parts, all + {first}) && |t.pieces| == |all|;
    FieldsAfter(s, d, parts, got, k);
    HoldsAfter(s, d, parts, got, k);
    assert Holds(t.pieces, d, parts, all) && TracksFields(t, d, parts, all);
    TracksBy(t, d, parts, first, all);
  }

  lemma TracksBy(t: State, d: Datagram, parts: seq<Fragment>, first: nat, got: set<nat>)
    requires Inv(t) && Holds(t.pieces, d, parts, got) && TracksFields(t, d, parts, got)
    requires got <= Everything(parts) && first < |parts| && |t.pieces| == |got| && Seen(t.ecnMask) == EcnOf(parts, got + {first})
    ensures Tracks(t, d, parts, first, got)
  {
  }

  lemma EcnWithFirst(s: State, d: Datagram, parts: seq<Fragment>, first: nat, got: set<nat>, k: nat)
    requires Split(d, parts) && k < |parts| && first < |parts| && got <= Everything(parts) && s.ecnMask < 16
    requires PartOf(d, parts[k]) && Seen(s.ecnMask) == EcnOf(parts, got + {first})
    ensures Seen(Retained(s, parts[k]).ecnMask) == EcnOf(parts, got + {k} + {first})
    ensures got + {k} <= Everything(parts)
  {
    EcnAfter(s, d, parts, got + {first}, k);
    assert got + {first} + {k} == got + {k} + {first};
  }

  lemma CoveredWhenAll(pieces: seq<Piece>, d: Datagram, parts: seq<Fragment>, got: set<nat>)
    requires Split(d, parts) && Holds(pieces, d, parts, got) && got <= Everything(parts)
    ensures CoversAll(pieces, 0, |d.payload|) <==> got == Everything(parts)
  {
    if got == Everything(parts) {
      forall i | 0 <= i < |d.payload| ensures Covered(pieces, i) {
        var j := SomePart(d, parts, i, |parts| - 1);
        assert j in Everything(parts) && HoldsOne(pieces, d, parts, got, i);
      }
    }
    if CoversAll(pieces, 0, |d.payload|) {
      forall k: nat | k < |parts| ensures k in got {
        PartNeeded(pieces, d, parts, got, k);
      }
    }
  }

  lemma PartNeeded(pieces: seq<Piece>, d: Datagram, parts: seq<Fragment>, got: set<nat>, k: nat)
    requires Split(d, parts) && Holds(pieces, d, parts, got) && k < |parts|
    requires CoversAll(pieces, 0, |d.payload|)
    ensures k in got
  {
    var i := parts[k].offset;
    assert PartOf(d, parts[k]) && Within(parts[k], i);
    assert Covered(pieces, i) && HoldsOne(pieces, d, parts, got, i);
    var j: nat :| j in got && j < |parts| && Within(parts[j], i);
    OnePart(d, parts, j, k, i);
  }

  /** The datagram is whole exactly when every part has been received. */
  lemma WholeWhenAll(s: State, d: Datagram, parts: seq<Fragment>, first: nat, got: set<nat>)
    requires Split(d, parts) && Tracks(s, d, parts, first, got)
    ensures Whole(s.pieces, s.total) <==> got == Everything(parts)
  {
    CoveredWhenAll(s.pieces, d, parts, got);
    assert |parts| - 1 in Everything(parts);
  }

  lemma GatheredIsPayload(pieces: seq<Piece>, d: Datagram, parts: seq<Fragment>)
    requires Split(d, parts) && Holds(pieces, d, parts, Everything(parts))
    ensures Gathered(pieces, |d.payload|) == d.payload
  {
    CoveredWhenAll(pieces, d, parts, Everything(parts));
    forall i | 0 <= i < |d.payload| ensures Gathered(pieces, |d.payload|)[i] == d.payload[i] {
      assert HoldsOne(pieces, d, parts, Everything(parts), i);
    }
  }

  lemma AssembledIsRestored(s: State, d: Datagram, parts: seq<Fragment>, first: nat)
    requires Split(d, parts) && Tracks(s, d, parts, first, Everything(parts)) && Buildable(s)
    ensures Fits(d) && Assembled(s) == Restored(d, EcnOf(parts, Everything(parts)))
  {
    SplitIsBuildable(d, parts);
    GatheredIsPayload(s.pieces, d, parts);
    assert 0 in Everything(parts) && |parts| - 1 in Everything(parts);
    assert Everything(parts) + {first} == Everything(parts);
  }

  /** An outcome after the parts in `got`: pending while one is missing, else the restored datagram; never rejected. */
  ghost predicate Reached(o: Outcome, d: Datagram, parts: seq<Fragment>, first: nat, got: set<nat>) {
    match o
    case Pending(next, _) => got != Everything(parts) && Tracks(next, d, parts, first, got)
    case Complete(_, wire) => got == Everything(parts) && Fits(d) && wire == Restored(d, EcnOf(parts, Everything(parts)))
    case Rejected(_) => false
  }

  lemma NewPart(s: State, d: Datagram, parts: seq<Fragment>, first: nat, got: set<nat>, k: nat, limit: nat)
    requires Split(d, parts) && Tracks(s, d, parts, first, got) && k < |parts| && k !in got
    requires limit == 0 || |parts| <= limit
    ensures PartOf(d, parts[k]) && Step(s, parts[k], limit) == Settled(Retained(s, parts[k]))
    ensures Reached(Settled(Retained(s, parts[k])), d, parts, first, got + {k})
  {
    assert PartOf(d, parts[k]);
    FreshPart(s, d, parts, first, got, k);
    FewerThanAll(parts, got, k);
    StepCases(s, parts[k], limit);
    assert !Repeats(s, parts[k]) by {
      assert !Covered(s.pieces, parts[k].offset);
    }
    SettledInv(s, parts[k]);
    TracksAfter(s, d, parts, first, got, k);
    WholeWhenAll(Retained(s, parts[k]), d, parts, first, got + {k});
    if got + {k} == Everything(parts) {
      AssembledIsRestored(Retained(s, parts[k]), d, parts, first);
    }
  }

  /** The next part: a repeat changes nothing, a new one is kept, and the last missing one completes the datagram. */
  lemma NextPart(s: State, d: Datagram, parts: seq<Fragment>, first: nat, got: set<nat>, k: nat, limit: nat)
    requires Split(d, parts) && Tracks(s, d, parts, first, got) && k < |parts| && got != Everything(parts)
    requires limit == 0 || |parts| <= limit
    ensures PartOf(d, parts[k]) && Reached(Step(s, parts[k], limit), d, parts, first, got + {k})
    ensures k in got ==> Step(s, parts[k], limit) == Pending(s, false)
  {
    assert PartOf(d, parts[k]);
    if k in got {
      RepeatedPart(s, d, parts, first, got, k, limit);
      assert got + {k} == got;
    } else {
      NewPart(s, d, parts, first, got, k, limit);
    }
  }

  lemma FewerThanAll(parts: seq<Fragment>, got: set<nat>, k: nat)
    requires got <= Everything(parts) && k < |parts| && k !in got
    ensures |got| < |parts|
  {
    EverythingSize(parts);
    assert k in Everything(parts);
    SubsetSize(got, Everything(parts) - {k});
  }

  lemma SubsetSize(a: set<nat>, b: set<nat>)
    requires a <= b
    ensures |a| <= |b|
  {
    assert b == a + (b - a);
  }

  lemma {:induction false} EverythingSize(parts: seq<Fragment>)
    ensures |Everything(parts)| == |parts|
    decreases |parts|
  {
    if |parts| > 0 {
      var front := parts[..|parts| - 1];
      EverythingSize(front);
      assert Everything(parts) == Everything(front) + {|front|};
    }
  }

  // ---------------------------------------------------------------- whole runs

  function Arrivals(parts: seq<Fragment>, order: seq<nat>): (fs: seq<Fragment>)
    requires forall i :: 0 <= i < |order| ==> order[i] < |parts|
  {
    seq(|order|, i requires 0 <= i < |order| => parts[order[i]])
  }

  function Distinct(order: seq<nat>): (got: set<nat>) {
    set i | 0 <= i < |order| :: order[i]
  }

  lemma DistinctCons(order: seq<nat>)
    requires |order| > 0
    ensures Distinct(order) == {order[0]} + Distinct(order[1..])
    ensures |order| > 1 ==> Distinct(order[..|order| - 1]) == {order[0]} + Distinct(order[1..][..|order| - 2])
  {
    assert order == [order[0]] + order[1..];
    if |order| > 1 {
      assert order[..|order| - 1] == [order[0]] + order[1..][..|order| - 2];
    }
  }

  /** The arrivals still to come are parts, and complete the datagram at the earliest with the last of them. */
  ghost predicate Remaining(parts: seq<Fragment>, got: set<nat>, order: seq<nat>) {
    && got <= Everything(parts)
    && |order| > 0 && (forall i :: 0 <= i < |order| ==> order[i] < |parts| && ValidFragment(parts[order[i]]))
    && got + Distinct(order[..|order| - 1]) != Everything(parts)
  }

  /** The set bookkeeping of one step of the run below. */
  lemma Bookkeeping(parts: seq<Fragment>, got: set<nat>, order: seq<nat>)
    requires Remaining(parts, got, order)
    ensures got != Everything(parts)
    ensures got + {order[0]} + Distinct(order[1..]) == got + Distinct(order)
    ensures |order| == 1 ==> got + {order[0]} == got + Distinct(order)
    ensures |order| > 1 ==> got + {order[0]} != Everything(parts) && Remaining(parts, got + {order[0]}, order[1..])
  {
    DistinctCons(order);
    forall j | j in Distinct(order[..|order| - 1]) ensures j in Everything(parts) {
      var i :| 0 <= i < |order| - 1 && order[..|order| - 1][i] == j;
      assert order[i] == j;
    }
    if |order| == 1 {
      assert Distinct(order[1..]) == {};
    } else {
      assert got + Distinct(order[..|order| - 1]) == got + {order[0]} + Distinct(order[1..][..|order| - 2]);
    }
  }

  /** A run is its first step followed by the rest of the run. */
  lemma RunSplits(s: State, parts: seq<Fragment>, order: seq<nat>, limit: nat)
    requires |order| > 0 && forall i :: 0 <= i < |order| ==> order[i] < |parts| && ValidFragment(parts[order[i]])
    ensures Run(s, Arrivals(parts, order), limit) ==
      match Step(s, parts[order[0]], limit)
      case Pending(next, _) => Run(next, Arrivals(parts, order[1..]), limit)
      case done => done
  {
    assert Arrivals(parts, order)[1..] == Arrivals(parts, order[1..]);
  }

  lemma {:induction false} RunTracks(s: State, d: Datagram, parts: seq<Fragment>, first: nat, got: set<nat>, order: seq<nat>, limit: nat)
    requires Split(d, parts) && Tracks(s, d, parts, first, got) && Remaining(parts, got, order)
    requires limit == 0 || |parts| <= limit
    ensures Reached(Run(s, Arrivals(parts, order), limit), d, parts, first, got + Distinct(order))
    decreases |order|
  {
    var o := Step(s, parts[order[0]], limit);
    Bookkeeping(parts, got, order);
    NextPart(s, d, parts, first, got, order[0], limit);
    RunSplits(s, parts, order, limit);
    if |order| > 1 {
      RunTracks(o.next, d, parts, first, got + {order[0]}, order[1..], limit);
    } else if o.Pending? {
      RunNothing(o.next, parts, order[1..], limit);
    }
  }

  lemma RunNothing(s: State, parts: seq<Fragment>, order: seq<nat>, limit: nat)
    requires order == []
    ensures Run(s, Arrivals(parts, order), limit) == Pending(s, false)
  {
  }

  /**
   * Whatever the split, the order and the repetitions: nothing is refused, the datagram stays pending
   * while a part is missing, and the arrival of the last missing part returns it octet for octet.
   */
  lemma AnyOrderRestores(d: Datagram, parts: seq<Fragment>, order: seq<nat>, limit: nat)
    requires Split(d, parts) && |order| > 0
    requires forall i :: 0 <= i < |order| ==> order[i] < |parts|
    requires limit == 0 || |parts| <= limit
    requires Distinct(order[..|order| - 1]) != Everything(parts)
    ensures forall i :: 0 <= i < |order| ==> ValidFragment(parts[order[i]])
    ensures var o := Run(Started(parts[order[0]]), Arrivals(parts, order), limit);
      if Distinct(order) == Everything(parts)
      then o.Complete? && Fits(d) && o.wire == Restored(d, EcnOf(parts, Everything(parts)))
      else o.Pending?
  {
    forall i | 0 <= i < |order| ensures PartOf(d, parts[order[i]]) {
    }
    StartTracks(d, parts, order[0]);
    assert {} + Distinct(order) == Distinct(order);
    assert {} + Distinct(order[..|order| - 1]) == Distinct(order[..|order| - 1]);
    RunTracks(Started(parts[order[0]]), d, parts, order[0], {}, order, limit);
  }
}
