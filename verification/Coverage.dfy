/** Which octets of a datagram a list of retained pieces covers, and the two fast tests that decide it. */
module Coverage {
  import opened Bytes

  /** One retained range of a datagram. */
  datatype Piece = Piece(offset: nat, data: seq<Byte>) {
    function End(): nat { offset + |data| }
    predicate Holds(i: int) { offset <= i < End() }
  }

  /** Sorted by offset, nonempty and pairwise disjoint. */
  ghost predicate Sorted(pieces: seq<Piece>) {
    && (forall k :: 0 <= k < |pieces| ==> |pieces[k].data| > 0)
    && (forall j, k :: 0 <= j < k < |pieces| ==> pieces[j].End() <= pieces[k].offset)
  }

  ghost predicate Covered(pieces: seq<Piece>, i: int) {
    exists k :: 0 <= k < |pieces| && pieces[k].Holds(i)
  }

  ghost predicate CoversAll(pieces: seq<Piece>, start: int, end: int) {
    forall i :: start <= i < end ==> Covered(pieces, i)
  }

  ghost predicate TouchesAny(pieces: seq<Piece>, start: int, end: int) {
    exists i :: start <= i < end && Covered(pieces, i)
  }

  ghost predicate EndsBy(pieces: seq<Piece>, limit: int) {
    forall k :: 0 <= k < |pieces| ==> pieces[k].End() <= limit
  }

  /** The octet retained for position `i`, zero where nothing is retained. */
  ghost function OctetAt(pieces: seq<Piece>, i: int): Byte {
    if k :| 0 <= k < |pieces| && pieces[k].Holds(i) then pieces[k].data[i - pieces[k].offset] else 0
  }

  lemma OneHolder(pieces: seq<Piece>, j: nat, k: nat, i: int)
    requires Sorted(pieces) && j < |pieces| && k < |pieces|
    requires pieces[j].Holds(i) && pieces[k].Holds(i)
    ensures j == k
  {
  }

  lemma OctetOfPiece(pieces: seq<Piece>, k: nat, i: int)
    requires Sorted(pieces) && k < |pieces| && pieces[k].Holds(i)
    ensures OctetAt(pieces, i) == pieces[k].data[i - pieces[k].offset]
  {
    var j :| 0 <= j < |pieces| && pieces[j].Holds(i) && OctetAt(pieces, i) == pieces[j].data[i - pieces[j].offset];
    OneHolder(pieces, j, k, i);
  }

  // ---------------------------------------------------------------- the byte-count test

  function RetainedBytes(pieces: seq<Piece>): (n: nat) {
    if |pieces| == 0 then 0 else RetainedBytes(pieces[..|pieces| - 1]) + |pieces[|pieces| - 1].data|
  }

  /** Disjoint pieces inside [0, limit) hold at most `limit` octets, and exactly `limit` only if they cover it. */
  lemma {:induction false} ByteCountDecides(pieces: seq<Piece>, limit: nat)
    requires Sorted(pieces) && EndsBy(pieces, limit)
    ensures RetainedBytes(pieces) <= limit
    ensures RetainedBytes(pieces) == limit <==> CoversAll(pieces, 0, limit)
    decreases |pieces|
  {
    if |pieces| == 0 {
      assert limit > 0 ==> !Covered(pieces, 0);
    } else {
      var front, last := pieces[..|pieces| - 1], pieces[|pieces| - 1];
      ByteCountDecides(front, last.offset);
      LastPieceDecides(pieces, limit);
    }
  }

  lemma LastPieceDecides(pieces: seq<Piece>, limit: nat)
    requires Sorted(pieces) && EndsBy(pieces, limit) && |pieces| > 0
    ensures CoversAll(pieces, 0, limit) <==>
      pieces[|pieces| - 1].End() == limit && CoversAll(pieces[..|pieces| - 1], 0, pieces[|pieces| - 1].offset)
  {
    var front, last := pieces[..|pieces| - 1], pieces[|pieces| - 1];
    if CoversAll(pieces, 0, limit) {
      assert Covered(pieces, limit - 1);
      assert last.End() == limit;
      forall i | 0 <= i < last.offset ensures Covered(front, i) {
        assert Covered(pieces, i);
        var k :| 0 <= k < |pieces| && pieces[k].Holds(i);
        assert front[k].Holds(i);
      }
    }
    if last.End() == limit && CoversAll(front, 0, last.offset) {
      forall i | 0 <= i < limit ensures Covered(pieces, i) {
        if i < last.offset {
          assert Covered(front, i);
          var k :| 0 <= k < |front| && front[k].Holds(i);
          assert pieces[k].Holds(i);
        } else {
          assert pieces[|pieces| - 1].Holds(i);
        }
      }
    }
  }

  // ---------------------------------------------------------------- insertion in offset order

  /** How many pieces start at or before `offset`. */
  function Slot(pieces: seq<Piece>, offset: nat): (at: nat)
    ensures at <= |pieces|
  {
    if |pieces| == 0 || pieces[0].offset > offset then 0 else 1 + Slot(pieces[1..], offset)
  }

  function Inserted(pieces: seq<Piece>, piece: Piece): (r: seq<Piece>) {
    var at := Slot(pieces, piece.offset);
    pieces[..at] + [piece] + pieces[at..]
  }

  lemma {:induction false} SlotSplits(pieces: seq<Piece>, offset: nat, at: nat)
    requires Sorted(pieces) && at <= |pieces|
    requires forall k :: 0 <= k < at ==> pieces[k].offset <= offset
    requires forall k :: at <= k < |pieces| ==> pieces[k].offset > offset
    ensures Slot(pieces, offset) == at
    decreases |pieces|
  {
    if |pieces| > 0 && at > 0 {
      SlotSplits(pieces[1..], offset, at - 1);
    }
  }

  lemma {:induction false} SlotBounds(pieces: seq<Piece>, offset: nat)
    requires Sorted(pieces)
    ensures forall k :: 0 <= k < Slot(pieces, offset) ==> pieces[k].offset <= offset
    ensures forall k :: Slot(pieces, offset) <= k < |pieces| ==> pieces[k].offset > offset
    decreases |pieces|
  {
    if |pieces| > 0 {
      SlotBounds(pieces[1..], offset);
      assert forall k :: 0 < k < |pieces| ==> pieces[k] == pieces[1..][k - 1];
      assert forall k :: 0 < k < |pieces| ==> pieces[0].End() <= pieces[k].offset;
    }
  }

  /** An untouched range keeps the order, and the coverage grows by exactly that range. */
  lemma InsertKeepsSorted(pieces: seq<Piece>, piece: Piece)
    requires Sorted(pieces) && |piece.data| > 0
    requires !TouchesAny(pieces, piece.offset, piece.End())
    ensures Sorted(Inserted(pieces, piece))
    ensures forall q :: q in Inserted(pieces, piece) <==> q == piece || q in pieces
    ensures RetainedBytes(Inserted(pieces, piece)) == RetainedBytes(pieces) + |piece.data|
  {
    var at := Slot(pieces, piece.offset);
    SlotBounds(pieces, piece.offset);
    UntouchedNeighbours(pieces, piece, at);
    InsertedAt(pieces, piece, at);
    InsertedMembers(pieces, piece);
    InsertedBytes(pieces, piece, at);
  }

  lemma UntouchedNeighbours(pieces: seq<Piece>, piece: Piece, at: nat)
    requires Sorted(pieces) && |piece.data| > 0 && at <= |pieces|
    requires !TouchesAny(pieces, piece.offset, piece.End())
    requires forall k :: 0 <= k < at ==> pieces[k].offset <= piece.offset
    requires forall k :: at <= k < |pieces| ==> pieces[k].offset > piece.offset
    ensures forall k :: 0 <= k < at ==> pieces[k].End() <= piece.offset
    ensures forall k :: at <= k < |pieces| ==> piece.End() <= pieces[k].offset
  {
    forall k | 0 <= k < at ensures pieces[k].End() <= piece.offset {
      assert pieces[k].Holds(piece.offset) ==> Covered(pieces, piece.offset);
    }
    forall k | at <= k < |pieces| ensures piece.End() <= pieces[k].offset {
      assert pieces[k].Holds(pieces[k].offset) && Covered(pieces, pieces[k].offset);
    }
  }

  lemma InsertedAt(pieces: seq<Piece>, piece: Piece, at: nat)
    requires Sorted(pieces) && |piece.data| > 0 && at <= |pieces|
    requires forall k :: 0 <= k < at ==> pieces[k].End() <= piece.offset
    requires forall k :: at <= k < |pieces| ==> piece.End() <= pieces[k].offset
    ensures Sorted(pieces[..at] + [piece] + pieces[at..])
  {
    var r := pieces[..at] + [piece] + pieces[at..];
    forall j, k | 0 <= j < k < |r| ensures r[j].End() <= r[k].offset {
      var before, after := if j <= at then j else j - 1, if k <= at then k else k - 1;
      assert j != at ==> r[j] == pieces[before];
      assert k != at ==> r[k] == pieces[after];
      assert j != at && k != at ==> pieces[before].End() <= pieces[after].offset;
    }
  }

  lemma InsertedMembers(pieces: seq<Piece>, piece: Piece)
    ensures forall q :: q in Inserted(pieces, piece) <==> q == piece || q in pieces
  {
    var at := Slot(pieces, piece.offset);
    assert pieces == pieces[..at] + pieces[at..];
  }

  /** Insertion adds the new octets and leaves every other one as it was. */
  lemma InsertedOctets(pieces: seq<Piece>, piece: Piece, i: int)
    requires Sorted(pieces) && Sorted(Inserted(pieces, piece))
    requires Covered(Inserted(pieces, piece), i)
    ensures OctetAt(Inserted(pieces, piece), i) == if piece.Holds(i) then piece.data[i - piece.offset] else OctetAt(pieces, i)
  {
    var longer := Inserted(pieces, piece);
    var at := Slot(pieces, piece.offset);
    var k :| 0 <= k < |longer| && longer[k].Holds(i);
    OctetOfPiece(longer, k, i);
    assert longer[at] == piece;
    if piece.Holds(i) {
      OneHolder(longer, at, k, i);
    } else {
      OldPiece(pieces, piece, at, k);
      OctetOfPiece(pieces, if k < at then k else k - 1, i);
    }
  }

  /** Every piece but the new one stood in the sequence before. */
  lemma OldPiece(pieces: seq<Piece>, piece: Piece, at: nat, k: nat)
    requires at == Slot(pieces, piece.offset) && k < |Inserted(pieces, piece)| && k != at
    ensures var j := if k < at then k else k - 1; j < |pieces| && pieces[j] == Inserted(pieces, piece)[k]
  {
  }

  lemma InsertedBytes(pieces: seq<Piece>, piece: Piece, at: nat)
    requires at == Slot(pieces, piece.offset)
    ensures RetainedBytes(Inserted(pieces, piece)) == RetainedBytes(pieces) + |piece.data|
  {
    RetainedConcat(pieces[..at], [piece] + pieces[at..]);
    RetainedConcat([piece], pieces[at..]);
    RetainedConcat(pieces[..at], pieces[at..]);
    assert Inserted(pieces, piece) == pieces[..at] + ([piece] + pieces[at..]);
    assert pieces == pieces[..at] + pieces[at..];
    assert [piece][..0] == [];
  }

  lemma {:induction false} RetainedConcat(a: seq<Piece>, b: seq<Piece>)
    ensures RetainedBytes(a + b) == RetainedBytes(a) + RetainedBytes(b)
    decreases |b|
  {
    if |b| == 0 {
      assert a + b == a;
    } else {
      assert (a + b)[..|a + b| - 1] == a + b[..|b| - 1];
      RetainedConcat(a, b[..|b| - 1]);
    }
  }

  // ---------------------------------------------------------------- the searches

  /** Binary search for the first piece that ends after `start`. */
  method FirstEndingAfter(pieces: seq<Piece>, start: int) returns (first: nat)
    requires Sorted(pieces)
    ensures first <= |pieces|
    ensures forall k :: 0 <= k < first ==> pieces[k].End() <= start
    ensures forall k :: first <= k < |pieces| ==> pieces[k].End() > start
  {
    var low, high := 0, |pieces|;
    while low < high
      invariant 0 <= low <= high <= |pieces|
      invariant forall k :: 0 <= k < low ==> pieces[k].End() <= start
      invariant forall k :: high <= k < |pieces| ==> pieces[k].End() > start
    {
      var middle := (low + high) / 2;
      if pieces[middle].End() > start {
        high := middle;
      } else {
        low := middle + 1;
      }
    }
    first := low;
  }

  /** Binary search for the insertion point of a new piece. */
  method FindSlot(pieces: seq<Piece>, offset: nat) returns (at: nat)
    requires Sorted(pieces)
    ensures at == Slot(pieces, offset)
  {
    var low, high := 0, |pieces|;
    while low < high
      invariant 0 <= low <= high <= |pieces|
      invariant forall k :: 0 <= k < low ==> pieces[k].offset <= offset
      invariant forall k :: high <= k < |pieces| ==> pieces[k].offset > offset
    {
      var middle := (low + high) / 2;
      if pieces[middle].offset > offset {
        assert forall k :: middle < k < |pieces| ==> pieces[middle].End() <= pieces[k].offset;
        high := middle;
      } else {
        assert forall k :: 0 <= k < middle ==> pieces[k].End() <= pieces[middle].offset;
        low := middle + 1;
      }
    }
    at := low;
    SlotSplits(pieces, offset, at);
  }

  /** Opens a slot at the insertion point and stores the piece there. */
  method InsertPiece(pieces: seq<Piece>, piece: Piece) returns (longer: seq<Piece>)
    requires Sorted(pieces)
    ensures longer == Inserted(pieces, piece)
  {
    var at := FindSlot(pieces, piece.offset);
    longer := pieces[..at] + [piece] + pieces[at..];
  }

  /** Decides by one binary search and one scan whether a range is covered and whether it is touched. */
  method RangeState(pieces: seq<Piece>, start: nat, end: nat) returns (covered: bool, overlaps: bool)
    requires Sorted(pieces)
    ensures start < end ==> (covered <==> CoversAll(pieces, start, end)) && (overlaps <==> TouchesAny(pieces, start, end))
    ensures start >= end ==> !covered && !overlaps
  {
    if start >= end {
      return false, false;
    }
    var first := FirstEndingAfter(pieces, start);
    if first == |pieces| || pieces[first].offset >= end {
      NotTouched(pieces, start, end, first);
      return false, false;
    }
    var touched := if pieces[first].offset > start then pieces[first].offset else start;
    assert pieces[first].Holds(touched) && Covered(pieces, touched);
    var cursor := start;
    var k := first;
    while k < |pieces| && pieces[k].offset < end
      invariant first <= k <= |pieces|
      invariant start <= cursor < end
      invariant CoversAll(pieces, start, cursor)
      invariant forall j :: 0 <= j < k ==> pieces[j].End() <= cursor
    {
      if pieces[k].offset > cursor {
        assert forall j :: k < j < |pieces| ==> pieces[k].End() <= pieces[j].offset;
        assert !Covered(pieces, cursor);
        return false, true;
      }
      assert forall i :: pieces[k].Holds(i) ==> Covered(pieces, i);
      cursor := pieces[k].End();
      if cursor >= end {
        return true, true;
      }
      k := k + 1;
    }
    assert forall j :: k < j < |pieces| ==> pieces[k].End() <= pieces[j].offset;
    assert !Covered(pieces, cursor);
    return false, true;
  }

  lemma NotTouched(pieces: seq<Piece>, start: nat, end: nat, first: nat)
    requires Sorted(pieces) && start < end && first <= |pieces|
    requires forall k :: 0 <= k < first ==> pieces[k].End() <= start
    requires first < |pieces| ==> pieces[first].offset >= end
    ensures !TouchesAny(pieces, start, end) && !CoversAll(pieces, start, end)
  {
    assert forall k :: first < k < |pieces| ==> pieces[first].End() <= pieces[k].offset;
    forall i | start <= i < end ensures !Covered(pieces, i) {
    }
    assert !Covered(pieces, start);
  }
}
