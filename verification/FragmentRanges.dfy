/** The range planner that splits one fragmentable payload (section 3.2 of RFC 791, section 4.5 of RFC 8200). */
module FragmentRanges {
  import opened Bytes

  /** One planned fragment: `size` octets from `offset`, followed by others when `more`. */
  datatype Range = Range(offset: nat, size: nat, more: bool) {
    function End(): nat { offset + size }
  }

  /**
   * The ranges partition [start, total): consecutive, nonempty, within capacity, eight-octet multiples
   * except the one that ends the payload, and flagged `more` exactly when something follows.
   */
  ghost predicate Tiles(ranges: seq<Range>, start: nat, total: nat, capacity: int) {
    && (start < total <==> |ranges| > 0)
    && (|ranges| > 0 ==> ranges[0].offset == start)
    && (forall k :: 0 < k < |ranges| ==> ranges[k].offset == ranges[k - 1].End())
    && (forall k :: 0 <= k < |ranges| ==>
          && 0 < ranges[k].size <= capacity
          && (ranges[k].more <==> k + 1 < |ranges|)
          && (ranges[k].more ==> ranges[k].size % 8 == 0))
    && (|ranges| > 0 ==> ranges[|ranges| - 1].End() == total)
  }

  /** Cutting the aligned capacity off the front until the remainder fits whole. */
  function Plan(start: nat, total: nat, capacity: nat): (ranges: seq<Range>)
    requires capacity >= 8
    decreases total - start
  {
    if start >= total then []
    else if total - start <= capacity then [Range(start, total - start, false)]
    else [Range(start, FloorTo8(capacity), true)] + Plan(start + FloorTo8(capacity), total, capacity)
  }

  lemma {:induction false} PlanTiles(start: nat, total: nat, capacity: nat)
    requires capacity >= 8
    ensures Tiles(Plan(start, total, capacity), start, total, capacity)
    decreases total - start
  {
    if start < total && total - start > capacity {
      PlanTiles(start + FloorTo8(capacity), total, capacity);
    }
  }

  /** The final range may use the whole capacity: no plan that respects the rules has fewer ranges. */
  lemma {:induction false} PlanIsShortest(start: nat, total: nat, capacity: nat, other: seq<Range>)
    requires capacity >= 8
    requires Tiles(other, start, total, capacity)
    ensures |Plan(start, total, capacity)| <= |other|
    decreases |other|
  {
    if start < total && total - start > capacity {
      var rest := other[1..];
      assert |other| > 1 && other[0].more;
      assert Tiles(rest, start + other[0].size, total, capacity) by {
        assert forall k :: 0 <= k < |rest| ==> rest[k] == other[k + 1];
        assert other[1].offset == other[0].End();
      }
      PlanIsShortest(start + other[0].size, total, capacity, rest);
      PlanShrinks(start + other[0].size, start + FloorTo8(capacity), total, capacity);
    }
  }

  /** Starting later never needs more ranges. */
  lemma {:induction false} PlanShrinks(start: nat, later: nat, total: nat, capacity: nat)
    requires capacity >= 8
    requires start <= later
    ensures |Plan(later, total, capacity)| <= |Plan(start, total, capacity)|
    decreases total - start
  {
    if later < total && total - later > capacity {
      PlanShrinks(start + FloorTo8(capacity), later + FloorTo8(capacity), total, capacity);
    }
  }

  /** Every range of a tiling starts on a unit of eight octets, counted from the start. */
  lemma {:induction false} TileStarts(ranges: seq<Range>, start: nat, total: nat, capacity: int, k: nat)
    requires Tiles(ranges, start, total, capacity) && k < |ranges|
    ensures start <= ranges[k].offset && ranges[k].offset % 8 == start % 8
    ensures total % 8 == start % 8 ==> ranges[k].size % 8 == 0
  {
    if k > 0 {
      TileStarts(ranges, start, total, capacity, k - 1);
      assert ranges[k].offset == ranges[k - 1].End() && ranges[k - 1].more;
      Aligned(ranges[k - 1].offset, ranges[k - 1].size, start);
    }
    if total % 8 == start % 8 && !ranges[k].more {
      assert ranges[k].End() == total;
      AlignedRest(ranges[k].offset, ranges[k].size, start);
    }
  }

  lemma Aligned(offset: nat, size: nat, start: nat)
    requires offset % 8 == start % 8 && size % 8 == 0
    ensures (offset + size) % 8 == start % 8
  {
  }

  lemma AlignedRest(offset: nat, size: nat, start: nat)
    requires offset % 8 == start % 8 && (offset + size) % 8 == start % 8
    ensures size % 8 == 0
  {
  }

  /** Every range ends within the payload, the last one alone at its end. */
  lemma {:induction false} TileEnds(ranges: seq<Range>, start: nat, total: nat, capacity: int, k: nat)
    requires Tiles(ranges, start, total, capacity) && k < |ranges|
    ensures ranges[k].End() <= total && (ranges[k].more <==> ranges[k].End() < total)
    decreases |ranges| - k
  {
    if k + 1 < |ranges| {
      TileEnds(ranges, start, total, capacity, k + 1);
    }
  }

  class RangeCursor {
    const total: nat
    const capacity: nat
    const alignedCapacity: nat
    var offset: nat

    ghost predicate Valid() reads this {
      total > 0 && capacity >= 8 && alignedCapacity == FloorTo8(capacity)
    }

    constructor (total: nat, capacity: nat)
      requires total > 0 && capacity >= 8
      ensures Valid() && offset == 0 && this.total == total && this.capacity == capacity
    {
      this.total, this.capacity, this.alignedCapacity, this.offset := total, capacity, FloorTo8(capacity), 0;
    }

    /** Returns the next range, or nothing when the payload is exhausted. */
    method Next() returns (range: Range, ok: bool)
      requires Valid()
      modifies this`offset
      ensures Valid()
      ensures ok <==> Plan(old(offset), total, capacity) != []
      ensures ok ==> Plan(old(offset), total, capacity) == [range] + Plan(offset, total, capacity)
      ensures !ok ==> offset == old(offset)
      ensures ok ==> old(offset) < offset == range.End() <= total
    {
      if offset >= total {
        return Range(0, 0, false), false;
      }
      var size := total - offset;
      if size > capacity {
        size := alignedCapacity;
      }
      range := Range(offset, size, offset + size < total);
      offset := offset + size;
      ok := true;
    }
  }

  /** Runs the cursor over one payload; a length or capacity it cannot serve yields nothing. */
  method PlanRanges(total: int, capacity: int) returns (ranges: seq<Range>, valid: bool)
    ensures valid <==> total > 0 && capacity >= 8
    ensures valid ==> ranges == Plan(0, total, capacity) && Tiles(ranges, 0, total, capacity)
  {
    ranges := [];
    valid := total > 0 && capacity >= 8;
    if valid {
      ranges := Drain(total, capacity);
      PlanTiles(0, total, capacity);
    }
  }

  /** Takes every range off a new cursor. */
  method Drain(total: nat, capacity: nat) returns (ranges: seq<Range>)
    requires total > 0 && capacity >= 8
    ensures ranges == Plan(0, total, capacity)
  {
    ranges := [];
    ghost var goal := Plan(0, total, capacity);
    var cursor := new RangeCursor(total, capacity);
    var range, ok := cursor.Next();
    while ok
      invariant cursor.Valid() && cursor.total == total && cursor.capacity == capacity && fresh(cursor)
      invariant ok ==> cursor.offset <= total
      invariant if ok then goal == ranges + [range] + Plan(cursor.offset, total, capacity) else goal == ranges
      decreases total - cursor.offset, ok
    {
      ranges := ranges + [range];
      ghost var left := Plan(cursor.offset, total, capacity);
      range, ok := cursor.Next();
      assert ok ==> ranges + left == ranges + [range] + Plan(cursor.offset, total, capacity);
    }
  }
}
