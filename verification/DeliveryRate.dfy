/** Delivery-rate sampling: 31-bit byte counters and 32-bit microsecond stamps that wrap, and losses reported once. */
module DeliveryRate {

  const WORD32 := 0x1_0000_0000
  const WORD64 := 0x1_0000_0000_0000_0000
  const FLAG := 0x8000_0000
  const MICROSECOND := 1000

  type Stamp = t: int | 0 <= t < WORD32

  // ---------------------------------------------------------------- compact stamps

  /** Compacts a nanosecond stamp; zero stays "never", and no other stamp becomes zero. */
  function StampAt(nanoseconds: nat): (t: Stamp)
    ensures t == 0 <==> nanoseconds == 0
  {
    if nanoseconds == 0 then 0
    else
      var value := ((nanoseconds - 1) / MICROSECOND + 1) % WORD32;
      if value == 0 then 1 else value
  }

  /** The interval between two stamps in nanoseconds, by unsigned 32-bit subtraction; zero if either is missing. */
  function Duration(later: Stamp, earlier: Stamp): (d: nat) {
    if later == 0 || earlier == 0 then 0 else (later - earlier) % WORD32 * MICROSECOND
  }

  /** The microsecond tick a nanosecond stamp falls in. */
  function Tick(nanoseconds: nat): (k: nat)
    requires nanoseconds > 0
  {
    (nanoseconds - 1) / MICROSECOND
  }

  /** One tick in every 2^32 shares its stamp with the next, because zero is taken. */
  predicate Doubled(nanoseconds: nat)
    requires nanoseconds > 0
  {
    (Tick(nanoseconds) + 1) % WORD32 == 0
  }

  lemma ModOf(x: int, q: int, r: int)
    requires x == q * WORD32 + r && 0 <= r < WORD32
    ensures x % WORD32 == r
  {
  }

  /**
   * The recovered interval is the number of ticks passed, moved by one only when exactly one end falls in a
   * doubled tick; this is exact for every interval shorter than the wrap.
   */
  lemma IntervalRecovered(later: nat, earlier: nat)
    requires 0 < earlier <= later && Tick(later) - Tick(earlier) < WORD32 - 1
    ensures Duration(StampAt(later), StampAt(earlier)) ==
      (Tick(later) - Tick(earlier) + (if Doubled(later) then 1 else 0) - (if Doubled(earlier) then 1 else 0)) * MICROSECOND
  {
    var a, b := Tick(earlier) + 1, Tick(later) + 1;
    var x, y := StampAt(earlier) as int, StampAt(later) as int;
    var n := Tick(later) - Tick(earlier) + (if Doubled(later) then 1 else 0) - (if Doubled(earlier) then 1 else 0);
    assert Tick(earlier) <= Tick(later);
    assert a == a / WORD32 * WORD32 + a % WORD32 && b == b / WORD32 * WORD32 + b % WORD32;
    assert x == a % WORD32 + (if Doubled(earlier) then 1 else 0) && y == b % WORD32 + (if Doubled(later) then 1 else 0);
    assert y - x == n + (a / WORD32 - b / WORD32) * WORD32;
    if Doubled(earlier) && Tick(later) == Tick(earlier) {
      assert n == 0;
    }
    ModOf(y - x, a / WORD32 - b / WORD32, n);
  }

  /** How far into its tick a stamp lies. */
  function Into(nanoseconds: nat): (r: nat)
    requires nanoseconds > 0
  {
    (nanoseconds - 1) % MICROSECOND
  }

  /** Neither end in a doubled tick, or both, or the shift that one of them causes is undone by where the ends lie. */
  predicate Evens(later: nat, earlier: nat)
    requires later > 0 && earlier > 0
  {
    || Doubled(later) == Doubled(earlier)
    || (Doubled(later) && Into(later) > Into(earlier))
    || (Doubled(earlier) && Into(later) < Into(earlier))
  }

  /**
   * So it never differs from the true interval by two microseconds, nor from the ticks by more than one; and it is
   * within one microsecond of the true interval exactly when the doubled ticks even out.
   */
  lemma IntervalIsClose(later: nat, earlier: nat)
    requires 0 < earlier <= later && Tick(later) - Tick(earlier) < WORD32 - 1
    ensures var d := Duration(StampAt(later), StampAt(earlier)); var ticks := (Tick(later) - Tick(earlier)) * MICROSECOND;
      && -MICROSECOND <= d - ticks <= MICROSECOND
      && -2 * MICROSECOND < d - (later - earlier) < 2 * MICROSECOND
      && (-MICROSECOND < d - (later - earlier) < MICROSECOND <==> Evens(later, earlier))
  {
    IntervalRecovered(later, earlier);
  }

  /** The bound of one microsecond fails for a nanosecond that crosses into the doubled tick: two microseconds come back. */
  lemma CloseFails()
    ensures var earlier := (WORD32 - 1) * MICROSECOND; var later := earlier + 1;
      && Tick(later) - Tick(earlier) == 1 && !Evens(later, earlier)
      && Duration(StampAt(later), StampAt(earlier)) == 2 * MICROSECOND
  {
    IntervalRecovered((WORD32 - 1) * MICROSECOND + 1, (WORD32 - 1) * MICROSECOND);
  }

  // ---------------------------------------------------------------- the packed counter

  /** What one transmission remembers; the low 31 bits of the delivered count share a word with a flag. */
  datatype Snapshot = Snapshot(firstSent: Stamp, deliveredStamp: Stamp, deliveredFlags: nat) {
    function Delivered(): nat { deliveredFlags % FLAG }
    predicate ApplicationLimited() { deliveredFlags / FLAG % 2 == 1 }
  }

  /** The count delivered since the snapshot is exact exactly when it fits in 31 bits. */
  lemma DeliveredRecovered(before: nat, since: nat)
    ensures var now := (before + since) % WORD64;
      var sampled := (now % WORD32 - before % WORD32 % FLAG) % FLAG;
      sampled == since <==> since < FLAG
  {
    var total := before + since;
    LowBits(total);
    LowBits(before);
    Congruent(total % WORD64 % WORD32, before % FLAG, total, before);
    SinceRemainder(before, since);
  }

  lemma LowBits(n: nat)
    ensures n % WORD64 % WORD32 % FLAG == n % FLAG && n % WORD32 % FLAG == n % FLAG
  {
    var q, r := n / WORD64, n % WORD64;
    SameLow(r, n, q * 0x2_0000_0000);
    SameLow(r % WORD32, r, r / WORD32 * 2);
    SameLow(n % WORD32, n, n / WORD32 * 2);
  }

  lemma SameLow(low: nat, n: nat, k: nat)
    requires n == low + k * FLAG
    ensures low % FLAG == n % FLAG
  {
  }

  lemma Congruent(a: int, b: int, c: int, d: int)
    requires a % FLAG == c % FLAG && b % FLAG == d % FLAG
    ensures (a - b) % FLAG == (c - d) % FLAG
  {
  }

  lemma SinceRemainder(before: nat, since: nat)
    ensures (before + since - before) % FLAG == since <==> since < FLAG
  {
  }

  // ---------------------------------------------------------------- the estimator

  /** One acknowledgement's observation; `priorStamp` zero means no transmission was selected. */
  datatype Sample = Sample(
    priorDelivered: nat, priorStamp: Stamp, firstSent: Stamp, lastSent: nat, retransmitted: bool,
    acked: nat, losses: nat, rtt: nat, delivered: nat, priorDeliveredTotal: nat, interval: nat, valid: bool)

  function Longer(a: nat, b: nat): nat { if b > a then b else a }

  class Estimator {
    /** The low 64 bits of all octets delivered. */
    var delivered: nat
    var deliveredStamp: Stamp
    var firstSent: Stamp
    var applicationLimitedUntil: nat
    var schedulerLimitedUntil: nat
    var totalLost: nat
    var sampledLost: nat
    /** All octets delivered, without wrapping. */
    ghost var everDelivered: nat

    ghost predicate Valid()
      reads this
    {
      delivered == everDelivered % WORD64 && sampledLost <= totalLost
    }

    constructor (stamp: nat)
      ensures Valid() && everDelivered == 0 && totalLost == 0 && sampledLost == 0
      ensures deliveredStamp == firstSent == StampAt(stamp)
    {
      delivered, applicationLimitedUntil, schedulerLimitedUntil, totalLost, sampledLost := 0, 0, 0, 0, 0;
      deliveredStamp, firstSent := StampAt(stamp), StampAt(stamp);
      everDelivered := 0;
    }

    /** Starts the stamps of a newly nonempty flight. */
    method RestartFlight(stamp: nat)
      modifies this`firstSent, this`deliveredStamp
      ensures firstSent == deliveredStamp == StampAt(stamp)
    {
      firstSent, deliveredStamp := StampAt(stamp), StampAt(stamp);
    }

    /** Captures the delivery state for one transmission; both packed fields can be read back. */
    method TakeSnapshot() returns (s: Snapshot)
      requires Valid()
      ensures s.Delivered() == everDelivered % FLAG
      ensures s.ApplicationLimited() <==> applicationLimitedUntil != 0
      ensures s.firstSent == firstSent && s.deliveredStamp == deliveredStamp
    {
      var flags := delivered % WORD32 % FLAG;
      if applicationLimitedUntil != 0 {
        flags := flags + FLAG;
      }
      s := Snapshot(firstSent, deliveredStamp, flags);
    }

    /** Advances delivery accounting and completes the sample with the longer of its two phases. */
    method FinishRateSample(sample: Sample, acknowledged: nat, nowStamp: nat, minimumRTT: nat, sampleRTT: nat,
                            ghost before: nat) returns (r: Sample)
      requires Valid() && acknowledged < WORD32
      requires sample.priorStamp != 0 ==> before <= everDelivered && sample.priorDelivered == before % FLAG
      requires !sample.valid
      modifies this
      ensures Valid() && everDelivered == old(everDelivered) + acknowledged
      ensures r.losses == old(totalLost - sampledLost) && sampledLost == totalLost == old(totalLost)
      ensures deliveredStamp == if acknowledged != 0 then StampAt(nowStamp) else old(deliveredStamp)
      ensures sample.priorStamp != 0 && everDelivered - before < FLAG ==>
        r.delivered == everDelivered - before && r.priorDeliveredTotal == before % WORD64
      ensures sample.priorStamp != 0 ==> firstSent == StampAt(sample.lastSent)
      ensures r.valid <==> sample.priorStamp != 0 && r.interval > 0 && r.interval >= minimumRTT
      ensures sample.priorStamp != 0 && r.valid ==>
        r.interval == Longer(Duration(StampAt(sample.lastSent), sample.firstSent), Duration(StampAt(nowStamp), sample.priorStamp))
      ensures old(applicationLimitedUntil) != 0 ==> (applicationLimitedUntil == 0 <==> delivered > old(applicationLimitedUntil))
      ensures r.acked == acknowledged
    {
      r := sample.(acked := acknowledged, losses := totalLost - sampledLost, rtt := sampleRTT, interval := 0);
      sampledLost := totalLost;
      AdvanceDelivered(acknowledged, nowStamp);
      if r.priorStamp == 0 {
        return;
      }
      var now, sent := StampAt(nowStamp), StampAt(r.lastSent);
      firstSent := sent;
      if !r.retransmitted && Duration(now, sent) > 0 {
        r := r.(rtt := Duration(now, sent));
      }
      var since := (delivered % WORD32 - r.priorDelivered) % FLAG;
      SnapshotRecovered(before, everDelivered);
      r := r.(delivered := since, priorDeliveredTotal := (delivered - since) % WORD64);
      var interval := Longer(Duration(sent, r.firstSent), Duration(now, r.priorStamp));
      if interval == 0 || (minimumRTT > 0 && interval < minimumRTT) {
        return;
      }
      r := r.(interval := interval, valid := true);
    }

    /** Counts what was delivered and forgets a limit that has been passed. */
    method AdvanceDelivered(acknowledged: nat, nowStamp: nat)
      requires Valid()
      modifies this`delivered, this`everDelivered, this`deliveredStamp, this`applicationLimitedUntil, this`schedulerLimitedUntil
      ensures Valid() && everDelivered == old(everDelivered) + acknowledged
      ensures deliveredStamp == if acknowledged != 0 then StampAt(nowStamp) else old(deliveredStamp)
      ensures applicationLimitedUntil == if delivered > old(applicationLimitedUntil) then 0 else old(applicationLimitedUntil)
    {
      if acknowledged != 0 {
        WrappedSum(everDelivered, acknowledged);
        delivered := (delivered + acknowledged) % WORD64;
        deliveredStamp := StampAt(nowStamp);
      }
      everDelivered := everDelivered + acknowledged;
      if applicationLimitedUntil != 0 && delivered > applicationLimitedUntil {
        applicationLimitedUntil := 0;
      }
      if schedulerLimitedUntil != 0 && delivered > schedulerLimitedUntil {
        schedulerLimitedUntil := 0;
      }
    }

    /** Records one loss; a loss found by a timer is consumed at once, so that the next sample does not repeat it. */
    method RecordLoss(bytes: nat, duringACK: bool)
      requires Valid()
      modifies this`totalLost, this`sampledLost
      ensures Valid() && totalLost == old(totalLost) + bytes
      ensures sampledLost == if duringACK then old(sampledLost) else totalLost
    {
      totalLost := totalLost + bytes;
      if !duringACK {
        sampledLost := totalLost;
      }
    }

    /** Remembers the boundary that drains a sender bubble. */
    method MarkApplicationLimited(flight: nat)
      requires Valid() && flight < WORD32
      modifies this`applicationLimitedUntil
      ensures applicationLimitedUntil != 0
      ensures applicationLimitedUntil == (delivered + flight) % WORD64 || (delivered + flight) % WORD64 == 0
    {
      var limit := (delivered + flight) % WORD64;
      applicationLimitedUntil := if limit == 0 then 1 else limit;
    }
  }

  lemma WrappedSum(total: nat, more: nat)
    ensures (total % WORD64 + more) % WORD64 == (total + more) % WORD64
  {
    assert total == total / WORD64 * WORD64 + total % WORD64;
  }

  /** Both counts of a sample are exact when fewer than 2^31 octets were delivered since the snapshot. */
  lemma SnapshotRecovered(before: nat, now: nat)
    requires before <= now
    ensures now - before < FLAG ==>
      var since := (now % WORD64 % WORD32 - before % FLAG) % FLAG;
      since == now - before && (now % WORD64 - since) % WORD64 == before % WORD64
  {
    DeliveredRecovered(before, now - before);
    LowBits(before);
    SameWord(now % WORD64 - (now - before), before, now / WORD64);
  }

  lemma SameWord(x: int, n: nat, k: nat)
    requires n == x + k * WORD64
    ensures x % WORD64 == n % WORD64
  {
  }

  // ---------------------------------------------------------------- losses over a run

  /** A loss declared by an acknowledgement, a loss found by a timer, or the end of an acknowledgement's sample. */
  datatype Event = AckLoss(bytes: nat) | TimerLoss(bytes: nat) | FinishSample

  /** What the samples reported, what is still to be reported, and what a timer took from an unfinished sample. */
  datatype Ledger = Ledger(total: nat, sampled: nat, reported: nat, swallowed: nat)

  function Entered(l: Ledger, e: Event): (r: Ledger) {
    match e
    case AckLoss(n) => l.(total := l.total + n)
    case TimerLoss(n) => l.(total := l.total + n, sampled := l.total + n, swallowed := l.swallowed + (if l.total >= l.sampled then l.total - l.sampled else 0))
    case FinishSample => l.(sampled := l.total, reported := l.reported + (if l.total >= l.sampled then l.total - l.sampled else 0))
  }

  function Ledgers(l: Ledger, events: seq<Event>): (r: Ledger)
    decreases |events|
  {
    if events == [] then l else Ledgers(Entered(l, events[0]), events[1..])
  }

  function AckLosses(events: seq<Event>): (n: nat) {
    if events == [] then 0 else AckLosses(events[1..]) + if events[0].AckLoss? then events[0].bytes else 0
  }

  /** Every timer-driven loss comes when all acknowledgement losses before it have been sampled. */
  predicate Sampled(unsampled: nat, events: seq<Event>)
    decreases |events|
  {
    events == [] ||
    match events[0]
    case AckLoss(n) => Sampled(unsampled + n, events[1..])
    case TimerLoss(_) => unsampled == 0 && Sampled(0, events[1..])
    case FinishSample => Sampled(0, events[1..])
  }

  lemma {:induction false} LossesBalance(l: Ledger, events: seq<Event>)
    requires l.sampled <= l.total
    ensures var r := Ledgers(l, events);
      && r.sampled <= r.total
      && r.reported + r.swallowed + (r.total - r.sampled) == l.reported + l.swallowed + (l.total - l.sampled) + AckLosses(events)
      && r.swallowed >= l.swallowed
      && (r.swallowed == l.swallowed <==> Sampled(l.total - l.sampled, events))
    decreases |events|
  {
    if events != [] {
      LossesBalance(Entered(l, events[0]), events[1..]);
    }
  }

  /**
   * Once every sample is finished, the samples report each acknowledgement loss exactly once if and only if
   * no timer-driven loss came between an acknowledgement's losses and the end of its sample.
   */
  lemma LossesReportedOnce(events: seq<Event>)
    requires events != [] && events[|events| - 1] == FinishSample
    ensures Ledgers(Ledger(0, 0, 0, 0), events).reported == AckLosses(events) <==> Sampled(0, events)
  {
    LossesBalance(Ledger(0, 0, 0, 0), events);
    FinishedIsEmpty(Ledger(0, 0, 0, 0), events);
  }

  /** A timer loss between an acknowledgement's loss and its sample swallows that loss: the sample reports nothing. */
  lemma SwallowedLoss(lost: nat, timed: nat)
    requires lost > 0
    ensures var events := [AckLoss(lost), TimerLoss(timed), FinishSample];
      && AckLosses(events) == lost && !Sampled(0, events)
      && Ledgers(Ledger(0, 0, 0, 0), events) == Ledger(lost + timed, lost + timed, 0, lost)
  {
    var events := [AckLoss(lost), TimerLoss(timed), FinishSample];
    var first := Ledger(lost, 0, 0, 0);
    var second := Ledger(lost + timed, lost + timed, 0, lost);
    assert events[1..] == [TimerLoss(timed), FinishSample] && events[1..][1..] == [FinishSample];
    assert Ledgers(second, [FinishSample]) == second && AckLosses([FinishSample]) == 0;
    assert Ledgers(first, events[1..]) == second && AckLosses(events[1..]) == 0 && !Sampled(lost, events[1..]);
  }

  lemma {:induction false} FinishedIsEmpty(l: Ledger, events: seq<Event>)
    requires events != [] && events[|events| - 1] == FinishSample
    ensures Ledgers(l, events).sampled == Ledgers(l, events).total
    decreases |events|
  {
    if |events| > 1 {
      FinishedIsEmpty(Entered(l, events[0]), events[1..]);
    } else {
      assert events[1..] == [];
    }
  }

  /** The estimator's own steps are the ledger's. */
  method Account(d: Estimator, e: Event, ghost l: Ledger) returns (reported: nat)
    requires d.Valid() && l.total == d.totalLost && l.sampled == d.sampledLost
    modifies d
    ensures d.Valid()
    ensures var r := Entered(l, e); d.totalLost == r.total && d.sampledLost == r.sampled && reported == r.reported - l.reported
  {
    reported := 0;
    match e {
      case AckLoss(n) => d.RecordLoss(n, true);
      case TimerLoss(n) => d.RecordLoss(n, false);
      case FinishSample =>
        var s := d.FinishRateSample(Sample(0, 0, 0, 0, false, 0, 0, 0, 0, 0, 0, false), 0, 1, 0, 0, 0);
        reported := s.losses;
    }
  }
}
