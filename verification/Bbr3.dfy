/**
 * BBRv3's control state: the mode, the PROBE_BW phase, the ACK phase, and the bounds that the congestion window obeys.
 * What the floating-point path model computes reaches this machine as numbers and comparisons (`Estimates`).
 */
module Bbr3 {
  import opened Wrappers

  const MAX := 65535 * 0x4000
  const MINIMUM_SEGMENTS := 4
  const SCALE := 256
  const LOSS_THRESHOLD := 5
  const LOSS_RETAINED := 180
  const HEADROOM := 38
  const FULL_LOSS_EVENTS := 6
  const FULL_ROUNDS := 3
  const PROBE_MAXIMUM_ROUNDS := 63
  const SECOND := 1_000_000_000
  const PROBE_BASE := 2 * SECOND
  const PROBE_RTT_WINDOW := 5 * SECOND
  const MINIMUM_RTT_WINDOW := 10 * SECOND
  const PROBE_RTT_DURATION := SECOND / 5

  type U32 = v: int | 0 <= v < 0x1_0000_0000

  /** The connection's segment size. */
  type Mss = m: int | 1 <= m <= 0xFFFF witness 1

  /** How often the slope of a probe has doubled. */
  type Doublings = n: int | 0 <= n <= 30

  /** Nanoseconds since some origin; zero is no time at all. */
  type Time = n: int | 0 <= n

  datatype Mode = Startup | Drain | ProbeBandwidth | ProbeRTT

  datatype Phase = Up | Down | Cruise | Refill

  datatype AckPhase = Initial | Refilling | ProbeStarting | ProbeFeedback | ProbeStopping

  /** What one ACK's rate sample says. */
  datatype Sample = Sample(
    valid: bool, hasInterval: bool, lossEvidence: bool, priorDelivered: U32, delivered: U32, acked: U32, losses: nat,
    priorInFlight: U32, inFlight: U32, rtt: int, ackTime: Time, ackDelayed: bool,
    applicationLimited: bool, schedulerLimited: bool, recovery: bool, fastRecovery: bool, tailLossProbe: bool)

  /** A transmission's saved state. */
  datatype Packet = Packet(inflight: U32, lost: U32, applicationLimited: bool)

  /** What the path model says at each place that asks it, and the generator's draws for a new probe wait. */
  datatype Estimates = Estimates(
    grew: bool, pipe: nat, effectivePipe: nat, drainingInNetwork: U32, probingInNetwork: U32,
    probeRTTPipe: U32, growthTarget: nat, doubleInitialWindow: nat, waitRounds: U32, waitRandom: nat)

  /** The transport's cumulative counts and whether the application limits it, as every event that needs them carries them. */
  datatype Transport = Transport(delivered: nat, lost: nat, applicationLimited: bool)

  /** The stages of a recovery that the transport asks about. */
  datatype Stage = SelectFlight | Enter(flight: U32) | Keep(previousWindow: U32) | Undo

  /** Everything that happens to a controller. */
  datatype Event =
    | Initialize(state: Transport, minimumRTT: nat, now: Time)
    | Ack(state: Transport, sample: Option<Sample>, packet: Packet)
    | LossOrEcn
    | TimedOut(state: Transport)
    | Sent(now: Time, outstanding: U32, applicationLimited: bool)
    | Retransmitted
    | Lost(state: Transport, bytes: U32, packet: Packet, evidence: bool, now: Time)
    | ProbeRecovered(state: Transport, bytes: U32, packet: Packet, now: Time)
    | Recovering(stage: Stage)
    | Pacing
    | MtuChanged
    | Diagnostics(state: Transport)

  /** The two windowed minima of the round-trip time, zero for none: the model's, and the one that PROBE_RTT refreshes. */
  datatype Filters = Filters(minimum: nat, minimumStamp: Time, probe: nat, probeStamp: Time)

  /** The bounds a recovery may give back. */
  datatype Saved = Saved(valid: bool, low: U32, high: U32)

  datatype Position = Position(mode: Mode, phase: Phase)

  // ---------------------------------------------------------------- the moves a controller may make

  /** One move of the mode or of the PROBE_BW phase. */
  predicate Edge(a: Position, b: Position) {
    match a.mode
    case Startup => b.mode != ProbeBandwidth && b.mode != Startup && b.phase == a.phase
    case Drain => b == Position(ProbeBandwidth, Down) || b == Position(ProbeRTT, a.phase)
    case ProbeRTT => b == Position(ProbeBandwidth, Down) || b == Position(Startup, a.phase)
    case ProbeBandwidth => b == Position(ProbeRTT, a.phase) || (b.mode == ProbeBandwidth && Cycles(a.phase, b.phase))
  }

  predicate Cycles(a: Phase, b: Phase) {
    match a
    case Down => b == Cruise || b == Refill
    case Cruise => b == Refill
    case Refill => b == Up
    case Up => b == Down
  }

  /** Every position a controller has been in, oldest first. */
  predicate Walk(trail: seq<Position>) {
    && trail != [] && trail[0] == Position(Startup, Down)
    && forall i :: 0 < i < |trail| ==> Edge(trail[i - 1], trail[i])
  }

  /** The two phases agree: UP exactly with starting or feedback, REFILL exactly with refilling, neither outside PROBE_BW. */
  predicate Agree(mode: Mode, phase: Phase, ack: AckPhase) {
    && (ack == ProbeStarting || ack == ProbeFeedback <==> mode == ProbeBandwidth && phase == Up)
    && (ack == Refilling <==> mode == ProbeBandwidth && phase == Refill)
  }

  /** Probing upward is only reached through refilling, and that through draining or cruising. */
  lemma UpFollowsRefill(trail: seq<Position>, i: nat)
    requires Walk(trail) && i < |trail| && trail[i] == Position(ProbeBandwidth, Up)
    ensures i >= 3 && trail[i - 1] == Position(ProbeBandwidth, Refill)
    ensures trail[i - 2].mode == ProbeBandwidth && (trail[i - 2].phase == Down || trail[i - 2].phase == Cruise)
  {
    assert Edge(trail[i - 1], trail[i]);
    assert Edge(trail[i - 2], trail[i - 1]);
    if trail[i - 2].mode == ProbeBandwidth {
      assert Edge(trail[i - 3], trail[i - 2]);
    }
  }

  /** Between two separate upward probes the queue is drained: a DOWN stands between any two UPs. */
  lemma {:induction false} DownBetweenUps(trail: seq<Position>, i: nat, j: nat) returns (k: nat)
    requires Walk(trail) && i < j < |trail|
    requires trail[i] == Position(ProbeBandwidth, Up) && trail[j] == Position(ProbeBandwidth, Up)
    ensures i < k < j && trail[k] == Position(ProbeBandwidth, Down)
  {
    k := LastDown(trail, j);
    assert Edge(trail[i], trail[i + 1]);
  }

  /** The last DOWN before a later position in PROBE_BW. */
  lemma {:induction false} LastDown(trail: seq<Position>, j: nat) returns (k: nat)
    requires Walk(trail) && j < |trail| && trail[j].mode == ProbeBandwidth
    ensures k <= j && trail[k] == Position(ProbeBandwidth, Down)
    ensures forall i :: k < i <= j ==> trail[i].mode == ProbeBandwidth && trail[i].phase != Down
    decreases j
  {
    if trail[j].phase == Down {
      k := j;
    } else {
      assert Edge(trail[j - 1], trail[j]);
      k := LastDown(trail, j - 1);
    }
  }

  // ---------------------------------------------------------------- arithmetic

  function Least(a: int, b: int): (m: int) { if b < a then b else a }

  function Most(a: int, b: int): (m: int) { if b > a then b else a }

  /** Saturation at the largest window the API can carry. */
  function Clamp(v: nat): (c: U32) { Least(v, MAX) }

  function Grow(window: U32, delta: U32): (w: U32) { Clamp(window + delta) }

  /** Whether `value` is at or after `reference` in 31-bit serial order. */
  predicate AfterEqual(value: U32, reference: U32) {
    (value - reference) % 0x8000_0000 < 0x4000_0000
  }

  predicate TooHigh(lost: nat, inflight: U32) {
    lost != 0 && inflight != 0 && lost > inflight * LOSS_THRESHOLD / SCALE
  }

  predicate WindowLimited(window: U32, flight: U32, mss: Mss) {
    flight >= window || window - flight <= mss
  }

  function Pow2(n: nat): (p: nat)
    ensures p >= 1
  {
    if n == 0 then 1 else 2 * Pow2(n - 1)
  }

  /** Zero stands for no bound, so the wider of two bounds is none if either is none. */
  function Wider(a: U32, b: U32): (w: U32) {
    if a == 0 || b == 0 then 0 else Most(a, b)
  }

  /** The flight at which a packet's losses first were too many, from what was in flight and lost before its own loss. */
  function CrossingPoint(before: U32, lostBefore: U32): (point: nat) {
    var budget := (before * LOSS_THRESHOLD + SCALE - 1) / SCALE;
    before + if lostBefore < budget then (budget - lostBefore) * SCALE / (SCALE - LOSS_THRESHOLD) else 0
  }

  /** Counting every further octet as lost, one octet past it the losses exceed the threshold, one short of it they do not. */
  lemma CrossingIsTight(before: U32, lostBefore: U32)
    ensures var prefix := CrossingPoint(before, lostBefore) - before;
      && SCALE * (lostBefore + prefix + 1) > LOSS_THRESHOLD * (before + prefix + 1)
      && (prefix > 0 ==> SCALE * (lostBefore + prefix - 1) < LOSS_THRESHOLD * (before + prefix))
  {
  }

  /** `inflight_hi` less the room kept for other flows. */
  function WithHeadroom(high: U32, mss: Mss): (n: nat) {
    if high == 0 then MAX
    else
      var room := Most(high * HEADROOM / SCALE, mss);
      Most(if room >= high then 0 else high - room, MINIMUM_SEGMENTS * mss)
  }

  /** The largest window the bounds of a position allow. */
  function Cap(at: Position, high: U32, low: U32, mss: Mss): (n: nat) {
    var upper: int :=
      if at.mode == ProbeBandwidth && at.phase != Cruise then if high != 0 then high else MAX
      else if at.mode == ProbeRTT || at.mode == ProbeBandwidth then WithHeadroom(high, mss)
      else MAX;
    Most(if low != 0 && low < upper then low else upper, MINIMUM_SEGMENTS * mss)
  }

  /** A window within its limits and under every bound that is in force. */
  predicate UnderBounds(window: nat, at: Position, high: U32, low: U32, probeRTTPipe: U32, mss: Mss) {
    var floor := MINIMUM_SEGMENTS * mss;
    && floor <= window <= MAX
    && (at.mode == ProbeBandwidth && high != 0 ==> window <= Most(floor, high))
    && ((at.mode == ProbeRTT || at == Position(ProbeBandwidth, Cruise)) && high != 0 ==>
      window <= Most(floor, high - Most(mss, high * HEADROOM / SCALE)))
    && (low != 0 ==> window <= Most(floor, low))
    && (at.mode == ProbeRTT ==> window <= Most(floor, probeRTTPipe))
  }

  /** The window after an ACK, in terms of what the ACK grew it to. */
  function Bounded(window: nat, at: Position, high: U32, low: U32, probeRTTPipe: U32, mss: Mss): (w: nat) {
    var capped := Clamp(Least(Most(window, MINIMUM_SEGMENTS * mss), Cap(at, high, low, mss)));
    if at.mode == ProbeRTT then Least(capped, Most(probeRTTPipe, MINIMUM_SEGMENTS * mss)) else capped
  }

  /** The result is under the bounds, and no window up to the grown one that is under them is larger. */
  lemma BoundedIsGreatest(window: nat, at: Position, high: U32, low: U32, probeRTTPipe: U32, mss: Mss, other: nat)
    ensures UnderBounds(Bounded(window, at, high, low, probeRTTPipe, mss), at, high, low, probeRTTPipe, mss)
    ensures UnderBounds(other, at, high, low, probeRTTPipe, mss) && other <= Most(window, MINIMUM_SEGMENTS * mss)
      ==> other <= Bounded(window, at, high, low, probeRTTPipe, mss)
  {
  }

  // ---------------------------------------------------------------- the ACK's own growth

  /** What recovery a controller believes it is in. */
  datatype Recovery = Recovery(timeout: bool, fast: bool, conserving: bool)

  /** The recovery state behind an ACK: each kind ends with the transport's, and conservation lasts as long as the fast kind. */
  function NextRecovery(r: Recovery, sample: Sample): (n: Recovery) {
    if sample.acked == 0 then r
    else Recovery(r.timeout && sample.recovery, sample.fastRecovery,
      if sample.fastRecovery == r.fast then r.conserving else sample.fastRecovery)
  }

  /** The window recovery leaves: losses taken off, the saved window given back at an end, flight plus ACK at a start. */
  function RecoveredWindow(window: U32, r: Recovery, sample: Sample, prior: U32, mss: Mss): (w: U32) {
    var lossless := if sample.losses == 0 then window else if sample.losses >= window then mss else window - sample.losses;
    if sample.fastRecovery && !r.fast then Grow(sample.inFlight, sample.acked)
    else if (r.timeout && !sample.recovery) || (!sample.fastRecovery && r.fast) then Most(lossless, prior)
    else lossless
  }

  /** The window one ACK asks for before any bound. */
  function GrownWindow(window: U32, r: Recovery, sample: Sample, prior: U32, mode: Mode, full: bool, e: Estimates, mss: Mss): (w: U32) {
    if sample.acked == 0 then window
    else
      var recovered := RecoveredWindow(window, r, sample, prior, mss);
      if NextRecovery(r, sample).conserving then Most(recovered, Grow(sample.inFlight, sample.acked))
      else if mode == ProbeRTT then recovered
      else if full then Least(Grow(recovered, sample.acked), Clamp(e.growthTarget))
      else if recovered < e.growthTarget || recovered < e.doubleInitialWindow then Grow(recovered, sample.acked)
      else recovered
  }

  // ---------------------------------------------------------------- the controller

  class Controller {
    var mode: Mode
    var probePhase: Phase
    var ackPhase: AckPhase
    var roundStart: bool
    var fullRounds: nat
    var fullBandwidthNow: bool
    var fullBandwidthReached: bool
    var lossRoundStart: bool
    var lossInRound: bool
    var lossEventsInRound: nat
    var probeRound: bool
    var probeUpRounds: Doublings
    var probeSamples: bool
    var stoppedRiskyProbe: bool
    var previousProbeTooHigh: bool
    var idleRestart: bool
    var recovery: Recovery
    var undo: Saved
    var inflightLow: U32
    var inflightHigh: U32
    var latestInflight: U32
    var nextRoundDelivered: U32
    var lossRoundDelivered: U32
    var priorWindow: U32
    var roundsSinceProbe: U32
    var probeUpCount: U32
    var rtt: Filters
    var probeDone: Time
    var probeStarted: Time
    var probeWait: nat
    var probeUpACKed: U32
    /** What the transport last said. */
    var transport: Transport
    /** Every position so far. */
    ghost var trail: seq<Position>

    function At(): (p: Position)
      reads `mode, `probePhase
    {
      Position(mode, probePhase)
    }

    /** Where the controller stands, and that it came there by allowed moves. */
    ghost predicate Walked()
      reads `mode, `probePhase, `trail
    {
      Walk(trail) && trail[|trail| - 1] == At()
    }

    /** Holds between the steps of an event. */
    ghost predicate Consistent()
      reads this
    {
      && Walked() && Agree(mode, probePhase, ackPhase)
      && (!fullBandwidthReached ==> (mode == Startup || mode == ProbeRTT) && probePhase == Down)
      && (mode == ProbeBandwidth && (probePhase == Refill || probePhase == Up) ==> inflightLow == 0)
      && (probeSamples ==> ackPhase != Initial)
      && (stoppedRiskyProbe ==> !previousProbeTooHigh && (ackPhase == Initial || ackPhase == ProbeStopping))
    }

    /** Holds between events: STARTUP ends with the event that finds the pipe full. */
    ghost predicate Valid()
      reads this
    {
      Consistent() && (mode == Startup ==> !fullBandwidthReached)
    }

    constructor ()
      ensures Valid() && At() == Position(Startup, Down) && ackPhase == Initial && trail == [At()]
    {
      mode, probePhase, ackPhase := Startup, Down, Initial;
      roundStart, fullRounds, fullBandwidthNow, fullBandwidthReached := false, 0, false, false;
      lossRoundStart, lossInRound, lossEventsInRound := false, false, 0;
      probeRound, probeUpRounds, probeSamples, stoppedRiskyProbe, previousProbeTooHigh := false, 0, false, false, false;
      idleRestart, recovery, undo := false, Recovery(false, false, false), Saved(false, 0, 0);
      inflightLow, inflightHigh, latestInflight, nextRoundDelivered, lossRoundDelivered := 0, 0, 0, 0, 1;
      priorWindow, roundsSinceProbe, probeUpCount := 0, 0, 0;
      rtt := Filters(0, 0, 0, 0);
      probeDone, probeStarted, probeWait, probeUpACKed := 0, 0, 0, 0;
      transport := Transport(0, 0, false);
      trail := [Position(Startup, Down)];
    }

    // -------------------------------------------------------------- phases

    /** Puts the current position on the trail. */
    ghost method Record()
      requires Walk(trail) && Edge(trail[|trail| - 1], At())
      modifies `trail
      ensures Walked() && trail == old(trail) + [At()]
    {
      trail := trail + [At()];
    }

    /** Entering a phase of PROBE_BW, one method for each case of the source's. */
    method EnterDown(now: Time, e: Estimates)
      requires mode == ProbeBandwidth && Walk(trail) && Edge(trail[|trail| - 1], Position(ProbeBandwidth, Down))
      modifies `probePhase, `ackPhase, `lossInRound, `latestInflight, `probeUpCount, `roundsSinceProbe, `probeStarted, `probeWait,
        `nextRoundDelivered, `fullBandwidthNow, `trail
      ensures Walked() && old(trail) <= trail && probePhase == Down && ackPhase == ProbeStopping
      ensures !lossInRound && latestInflight == 0 && probeUpCount == 0xFFFF_FFFF && !fullBandwidthNow
      ensures roundsSinceProbe <= 1 && probeStarted == now && PROBE_BASE <= probeWait < PROBE_BASE + SECOND
      ensures nextRoundDelivered == transport.delivered % 0x8000_0000
    {
      probePhase := Down;
      ResetCongestionSignals();
      probeUpCount := 0xFFFF_FFFF;
      roundsSinceProbe, probeStarted, probeWait := e.waitRounds % 2, now, PROBE_BASE + e.waitRandom % SECOND;
      ackPhase := ProbeStopping;
      nextRoundDelivered := transport.delivered % 0x8000_0000;
      fullBandwidthNow := false;
      Record();
    }

    method EnterCruise()
      requires Consistent() && At() == Position(ProbeBandwidth, Down)
      modifies `probePhase, `inflightLow, `trail
      ensures Consistent() && old(trail) <= trail && probePhase == Cruise
      ensures inflightLow == if inflightHigh == 0 then old(inflightLow) else Least(old(inflightLow), inflightHigh)
    {
      probePhase := Cruise;
      if inflightLow != 0 && inflightHigh != 0 && inflightLow > inflightHigh {
        inflightLow := inflightHigh;
      }
      Record();
    }

    method EnterRefill()
      requires Consistent() && (At() == Position(ProbeBandwidth, Down) || At() == Position(ProbeBandwidth, Cruise))
      modifies `probePhase, `ackPhase, `inflightLow, `probeUpRounds, `probeUpACKed, `stoppedRiskyProbe, `nextRoundDelivered, `trail
      ensures Consistent() && old(trail) <= trail && probePhase == Refill && ackPhase == Refilling
      ensures inflightLow == 0 && probeUpRounds == 0 && probeUpACKed == 0 && !stoppedRiskyProbe
      ensures nextRoundDelivered == transport.delivered % 0x8000_0000
    {
      probePhase := Refill;
      inflightLow, probeUpRounds, probeUpACKed, stoppedRiskyProbe := 0, 0, 0, false;
      ackPhase := Refilling;
      nextRoundDelivered := transport.delivered % 0x8000_0000;
      Record();
    }

    /** Entering UP, with what its one caller does straight after. */
    method EnterUp()
      requires Consistent() && At() == Position(ProbeBandwidth, Refill)
      modifies `probePhase, `ackPhase, `probeUpACKed, `probeSamples, `fullRounds, `fullBandwidthNow, `trail
      ensures Consistent() && old(trail) <= trail && probePhase == Up && ackPhase == ProbeStarting
      ensures probeUpACKed == 0 && probeSamples && fullRounds == 0 && !fullBandwidthNow
    {
      probePhase := Up;
      probeUpACKed := 0;
      Record();
      ackPhase := ProbeStarting;
      probeSamples := true;
      ResetFullBandwidth();
    }

    method ResetCongestionSignals()
      modifies `lossInRound, `latestInflight
      ensures !lossInRound && latestInflight == 0
    {
      lossInRound, latestInflight := false, 0;
    }

    method ResetFullBandwidth()
      modifies `fullRounds, `fullBandwidthNow
      ensures fullRounds == 0 && !fullBandwidthNow
    {
      fullRounds, fullBandwidthNow := 0, false;
    }

    /** Doubles the growth of `inflight_hi` for each round of a probe. */
    method RaiseProbeSlope(window: U32, mss: Mss)
      modifies `probeUpRounds, `probeUpCount
      ensures probeUpRounds == Least(old(probeUpRounds) + 1, 30) && probeUpCount == Slope(window, old(probeUpRounds), mss)
    {
      var growth := Pow2(probeUpRounds);
      if probeUpRounds < 30 {
        probeUpRounds := probeUpRounds + 1;
      }
      var count := window / growth;
      SlopeFits(window, growth);
      if count < mss {
        count := mss;
      }
      probeUpCount := Clamp(count);
    }

    // -------------------------------------------------------------- delivery and loss signals

    /** Notices a packet-timed round. */
    method UpdateRound(sample: Sample)
      modifies `roundStart, `nextRoundDelivered, `recovery, `roundsSinceProbe
      ensures roundStart == (sample.valid && sample.hasInterval && AfterEqual(sample.priorDelivered, old(nextRoundDelivered)))
      ensures roundStart ==> nextRoundDelivered == transport.delivered % 0x8000_0000 && roundsSinceProbe == Least(old(roundsSinceProbe) + 1, 0xFFFF_FFFF)
      ensures !roundStart ==> nextRoundDelivered == old(nextRoundDelivered) && roundsSinceProbe == old(roundsSinceProbe)
      ensures recovery == if roundStart then old(recovery).(conserving := false) else old(recovery)
    {
      roundStart := false;
      if sample.valid && sample.hasInterval && AfterEqual(sample.priorDelivered, nextRoundDelivered) {
        nextRoundDelivered := transport.delivered % 0x8000_0000;
        roundStart := true;
        recovery := recovery.(conserving := false);
        if roundsSinceProbe != 0xFFFF_FFFF {
          roundsSinceProbe := roundsSinceProbe + 1;
        }
      }
    }

    method UpdateLatestDelivery(sample: Sample)
      modifies `lossRoundStart, `latestInflight, `lossRoundDelivered
      ensures sample.valid && sample.acked != 0 ==> latestInflight == Most(old(latestInflight), sample.delivered)
      ensures lossRoundStart == (sample.valid && sample.acked != 0 && AfterEqual(sample.priorDelivered, old(lossRoundDelivered)))
      ensures !lossRoundStart ==> lossRoundDelivered == old(lossRoundDelivered)
    {
      lossRoundStart := false;
      if sample.valid && sample.acked != 0 {
        if sample.delivered > latestInflight {
          latestInflight := sample.delivered;
        }
        lossRoundStart := AfterEqual(sample.priorDelivered, lossRoundDelivered);
        if lossRoundStart {
          lossRoundDelivered := transport.delivered % 0x8000_0000;
        }
      }
    }

    method NoteLossRound()
      modifies `lossRoundDelivered, `lossInRound
      ensures lossInRound && lossRoundDelivered == if old(lossInRound) then old(lossRoundDelivered) else transport.delivered % 0x8000_0000
    {
      if !lossInRound {
        lossRoundDelivered := transport.delivered % 0x8000_0000;
      }
      lossInRound := true;
    }

    predicate Probing()
      reads `mode, `probePhase
    {
      mode == Startup || (mode == ProbeBandwidth && (probePhase == Refill || probePhase == Up))
    }

    /** At the end of a round with losses, outside probes, lowers the short-term bound, but not below what was delivered. */
    method UpdateCongestionSignals(sample: Sample, window: U32)
      modifies `lossRoundDelivered, `lossInRound, `inflightLow
      ensures lossInRound == ((old(lossInRound) || sample.losses != 0) && !lossRoundStart)
      ensures inflightLow ==
        if lossRoundStart && (old(lossInRound) || sample.losses != 0) && !Probing()
        then Most((if old(inflightLow) == 0 then window else old(inflightLow)) * LOSS_RETAINED / SCALE, latestInflight)
        else old(inflightLow)
    {
      if sample.losses != 0 {
        NoteLossRound();
      }
      if lossRoundStart {
        if lossInRound && !Probing() {
          if inflightLow == 0 {
            inflightLow := window;
          }
          var retained := inflightLow * LOSS_RETAINED / SCALE;
          if latestInflight > retained {
            retained := latestInflight;
          }
          inflightLow := retained;
        }
        lossInRound := false;
      }
    }

    function LossesSince(packet: Packet): (n: U32)
      reads `transport
    {
      (transport.lost % 0x1_0000_0000 - packet.lost) % 0x1_0000_0000
    }

    // -------------------------------------------------------------- leaving STARTUP

    /** Ends STARTUP's growth after a round with too many loss events. */
    method CheckStartupLoss(sample: Sample, packet: Packet, e: Estimates)
      requires Consistent()
      modifies `lossEventsInRound, `fullBandwidthReached, `inflightHigh
      ensures Consistent() && (old(fullBandwidthReached) ==> fullBandwidthReached && inflightHigh == old(inflightHigh))
      ensures fullBandwidthReached && !old(fullBandwidthReached) ==>
        sample.lossEvidence && lossRoundStart && sample.fastRecovery && TooHigh(LossesSince(packet), packet.inflight)
        && inflightHigh == Clamp(Most(e.pipe, latestInflight))
      ensures !fullBandwidthReached ==> inflightHigh == old(inflightHigh)
    {
      if !fullBandwidthReached {
        if sample.losses != 0 && lossEventsInRound < 15 {
          lossEventsInRound := lossEventsInRound + 1;
        }
        if sample.lossEvidence && lossRoundStart && sample.fastRecovery && lossEventsInRound >= FULL_LOSS_EVENTS
          && TooHigh(LossesSince(packet), packet.inflight) {
          fullBandwidthReached := true;
          inflightHigh := Clamp(Most(e.pipe, latestInflight));
        }
        if lossRoundStart {
          lossEventsInRound := 0;
        }
      }
    }

    /** Declares the pipe full after three rounds in a row without growth. */
    method CheckFullBandwidth(sample: Sample, e: Estimates)
      requires Consistent()
      modifies `fullRounds, `fullBandwidthNow, `fullBandwidthReached
      ensures Consistent() && (old(fullBandwidthReached) ==> fullBandwidthReached)
      ensures fullBandwidthReached != old(fullBandwidthReached) ==> fullBandwidthNow
      ensures fullBandwidthNow && !old(fullBandwidthNow) ==>
        roundStart && sample.valid && !sample.applicationLimited && !e.grew && FULL_ROUNDS <= fullRounds <= Most(old(fullRounds), 254) + 1
      ensures old(fullBandwidthNow) ==> fullBandwidthNow && fullRounds == old(fullRounds)
    {
      var skip := fullBandwidthNow || sample.applicationLimited || !sample.valid
        || (fullBandwidthReached && At() != Position(ProbeBandwidth, Up)) || (sample.schedulerLimited && !roundStart);
      if !skip {
        if e.grew {
          fullRounds := 0;
        } else if roundStart {
          if fullRounds < 255 {
            fullRounds := fullRounds + 1;
          }
          if fullRounds >= FULL_ROUNDS {
            fullBandwidthNow, fullBandwidthReached := true, true;
          }
        }
      }
    }

    method EnterDrain()
      requires Consistent() && mode == Startup && fullBandwidthReached
      modifies `mode, `lossInRound, `latestInflight, `trail
      ensures Valid() && old(trail) <= trail && mode == Drain && latestInflight == 0 && !lossInRound
    {
      mode := Drain;
      Record();
      ResetCongestionSignals();
    }

    /** Moves from STARTUP to DRAIN once the pipe is full, and on to PROBE_BW once the queue is gone. */
    method CheckDrain(sample: Sample, e: Estimates) returns (threshold: U32)
      requires Consistent()
      modifies `mode, `probePhase, `ackPhase, `lossInRound, `latestInflight, `probeUpCount, `roundsSinceProbe, `probeStarted, `probeWait,
        `nextRoundDelivered, `fullBandwidthNow, `trail
      ensures Valid() && old(trail) <= trail
      ensures threshold == if old(mode) == Startup && fullBandwidthReached then Clamp(e.pipe) else 0
      ensures At() ==
        if !(old(mode) == Startup && fullBandwidthReached) && old(mode) != Drain then old(At())
        else if e.drainingInNetwork <= e.pipe then Position(ProbeBandwidth, Down)
        else Position(Drain, old(probePhase))
    {
      threshold := 0;
      if mode == Startup && fullBandwidthReached {
        EnterDrain();
        threshold := Clamp(e.pipe);
      }
      if mode == Drain && e.drainingInNetwork <= e.pipe {
        mode := ProbeBandwidth;
        EnterDown(sample.ackTime, e);
      }
    }

    // -------------------------------------------------------------- probing for bandwidth

    /** Lowers `inflight_hi` after too many losses, and stops probing upward. */
    method HandleInflightTooHigh(inflight: nat, limited: bool, window: U32, now: Time, e: Estimates)
      requires Consistent()
      modifies `previousProbeTooHigh, `stoppedRiskyProbe, `probeSamples, `inflightHigh, `probePhase, `ackPhase, `lossInRound, `latestInflight,
        `probeUpCount, `roundsSinceProbe, `probeStarted, `probeWait, `nextRoundDelivered, `fullBandwidthNow, `trail
      ensures Consistent() && old(trail) <= trail
      ensures previousProbeTooHigh && !stoppedRiskyProbe && !probeSamples
      ensures inflightHigh == if limited then old(inflightHigh) else Clamp(Most(inflight, Retained(e.effectivePipe, window)))
      ensures At() == if old(At()) == Position(ProbeBandwidth, Up) then Position(ProbeBandwidth, Down) else old(At())
    {
      previousProbeTooHigh, stoppedRiskyProbe, probeSamples := true, false, false;
      if !limited {
        inflightHigh := Clamp(Most(inflight, Retained(e.effectivePipe, window)));
      }
      if mode == ProbeBandwidth && probePhase == Up {
        EnterDown(now, e);
      }
    }

    /** Spends acknowledged octets on raising `inflight_hi`, while the window is what limits the flight. */
    method ProbeInflightHighUpward(acked: U32, flight: U32, window: U32, mss: Mss)
      modifies `probeUpRounds, `probeUpCount, `probeUpACKed, `inflightHigh
      ensures if inflightHigh != old(inflightHigh) then old(inflightHigh) != 0 && WindowLimited(window, flight, mss) && window >= old(inflightHigh)
        else true
      ensures old(inflightHigh) != 0 && WindowLimited(window, flight, mss) && window >= old(inflightHigh) ==>
        var count := if old(probeUpCount) == 0 then Slope(window, old(probeUpRounds), mss) else old(probeUpCount);
        inflightHigh == Raised(old(inflightHigh), old(probeUpACKed) + acked, count, mss)
        && probeUpACKed == (old(probeUpACKed) + acked) % count
    {
      if inflightHigh != 0 && WindowLimited(window, flight, mss) && window >= inflightHigh {
        if probeUpCount == 0 {
          RaiseProbeSlope(window, mss);
        }
        var credit := probeUpACKed + acked;
        inflightHigh := Raised(inflightHigh, credit, probeUpCount, mss);
        probeUpACKed := credit % probeUpCount;
        if roundStart {
          RaiseProbeSlope(window, mss);
        }
      }
    }

    /** Feeds one ACK to the upper bounds; true if it has restarted a probe that stopped only for caution. */
    method AdaptUpperBounds(sample: Sample, packet: Packet, window: U32, mss: Mss, e: Estimates) returns (restarted: bool)
      requires Consistent()
      modifies `previousProbeTooHigh, `stoppedRiskyProbe, `probeSamples, `inflightHigh, `probePhase, `ackPhase, `lossInRound, `latestInflight,
        `probeUpCount, `roundsSinceProbe, `probeStarted, `probeWait, `nextRoundDelivered, `fullBandwidthNow, `trail,
        `inflightLow, `probeUpRounds, `probeUpACKed
      ensures Consistent() && old(trail) <= trail
      ensures restarted ==> At() == Position(ProbeBandwidth, Refill) && old(stoppedRiskyProbe)
      ensures !restarted ==> At() == old(At()) || (old(At()) == Position(ProbeBandwidth, Up) && At() == Position(ProbeBandwidth, Down))
    {
      restarted := false;
      if fullBandwidthReached {
        if ackPhase == ProbeStarting && roundStart {
          ackPhase := ProbeFeedback;
        }
        if ackPhase == ProbeStopping && roundStart {
          probeSamples := false;
          ackPhase := Initial;
          restarted := mode == ProbeBandwidth && stoppedRiskyProbe && !previousProbeTooHigh;
        }
        if restarted {
          EnterRefill();
        } else {
          LearnUpperBound(sample, packet, window, mss, e);
        }
      }
    }

    /** The second half of `AdaptUpperBounds`: what losses or the lack of them say about `inflight_hi`. */
    method LearnUpperBound(sample: Sample, packet: Packet, window: U32, mss: Mss, e: Estimates)
      requires Consistent()
      modifies `previousProbeTooHigh, `stoppedRiskyProbe, `probeSamples, `inflightHigh, `probePhase, `ackPhase, `lossInRound, `latestInflight,
        `probeUpCount, `roundsSinceProbe, `probeStarted, `probeWait, `nextRoundDelivered, `fullBandwidthNow, `trail, `probeUpRounds, `probeUpACKed
      ensures Consistent() && old(trail) <= trail
      ensures At() == old(At()) || (old(At()) == Position(ProbeBandwidth, Up) && At() == Position(ProbeBandwidth, Down))
      ensures At() != Position(ProbeBandwidth, Up) && old(At()) == At() && !old(probeSamples) ==>
        inflightHigh == Observed(old(inflightHigh), sample.lossEvidence && TooHigh(LossesSince(packet), packet.inflight), packet.inflight)
    {
      if sample.lossEvidence && TooHigh(LossesSince(packet), packet.inflight) {
        if probeSamples {
          HandleInflightTooHigh(packet.inflight, packet.applicationLimited, window, sample.ackTime, e);
        }
      } else {
        LearnFromDelivery(sample, packet, window, mss);
      }
    }

    /** A flight that did not lose too much raises the bound to itself, and an upward probe raises it further. */
    method LearnFromDelivery(sample: Sample, packet: Packet, window: U32, mss: Mss)
      modifies `probeUpRounds, `probeUpCount, `probeUpACKed, `inflightHigh
      ensures old(inflightHigh) == 0 ==> inflightHigh == 0
      ensures At() != Position(ProbeBandwidth, Up) && old(inflightHigh) != 0 ==> inflightHigh == Most(old(inflightHigh), packet.inflight)
    {
      if inflightHigh != 0 && packet.inflight > inflightHigh {
        inflightHigh := packet.inflight;
      }
      if mode == ProbeBandwidth && probePhase == Up {
        ProbeInflightHighUpward(sample.acked, sample.priorInFlight, window, mss);
      }
    }

    /** Whether time or rounds call for another probe. */
    predicate ProbeDue(now: Time, window: U32, mss: Mss, e: Estimates)
      reads `probeStarted, `probeWait, `roundsSinceProbe
    {
      (probeStarted != 0 && now - probeStarted > probeWait)
      || roundsSinceProbe >= Most(1, Least(Within(e.effectivePipe, window) / mss, PROBE_MAXIMUM_ROUNDS))
    }

    /** Feeds one ACK to the bounds and then, unless that restarted a probe, to the phases of PROBE_BW. */
    method UpdateProbeBandwidth(sample: Sample, packet: Packet, window: U32, mss: Mss, e: Estimates)
      requires Valid()
      modifies `previousProbeTooHigh, `stoppedRiskyProbe, `probeSamples, `inflightHigh, `probePhase, `ackPhase, `lossInRound, `latestInflight,
        `probeUpCount, `roundsSinceProbe, `probeStarted, `probeWait, `nextRoundDelivered, `fullBandwidthNow, `fullRounds, `trail,
        `inflightLow, `probeUpRounds, `probeUpACKed
      ensures Valid() && old(trail) <= trail
    {
      var restarted := AdaptUpperBounds(sample, packet, window, mss, e);
      if !restarted && mode == ProbeBandwidth && rtt.minimum > 0 {
        AdvancePhase(sample, window, mss, e);
      }
    }

    /** One ACK's move along the cycle of phases. */
    method AdvancePhase(sample: Sample, window: U32, mss: Mss, e: Estimates)
      requires Consistent() && mode == ProbeBandwidth
      modifies `previousProbeTooHigh, `stoppedRiskyProbe, `probeSamples, `probePhase, `ackPhase, `lossInRound, `latestInflight,
        `probeUpCount, `roundsSinceProbe, `probeStarted, `probeWait, `nextRoundDelivered, `fullBandwidthNow, `fullRounds, `trail,
        `inflightLow, `probeUpRounds, `probeUpACKed
      ensures Consistent() && old(trail) <= trail
      ensures old(probePhase) != Up ==>
        probePhase == NextPhase(old(probePhase), roundStart, old(ProbeDue(sample.ackTime, window, mss, e)), Drained(inflightHigh, mss, e))
      ensures old(probePhase) == Up ==> probePhase == Up || probePhase == Down
    {
      match probePhase {
        case Cruise =>
          if ProbeDue(sample.ackTime, window, mss, e) {
            EnterRefill();
          }
        case Refill =>
          if roundStart {
            EnterUp();
            RaiseProbeSlope(window, mss);
          }
        case Up => UpdateUp(sample, window, mss, e);
        case Down =>
          if ProbeDue(sample.ackTime, window, mss, e) {
            EnterRefill();
          } else if Drained(inflightHigh, mss, e) {
            EnterCruise();
          }
      }
    }

    /** Ends an upward probe when it is risky or has found the pipe full; a window at the bound keeps it going. */
    method UpdateUp(sample: Sample, window: U32, mss: Mss, e: Estimates)
      requires Consistent() && At() == Position(ProbeBandwidth, Up)
      modifies `previousProbeTooHigh, `stoppedRiskyProbe, `probePhase, `ackPhase, `lossInRound, `latestInflight,
        `probeUpCount, `roundsSinceProbe, `probeStarted, `probeWait, `nextRoundDelivered, `fullBandwidthNow, `fullRounds, `trail
      ensures Consistent() && old(trail) <= trail
      ensures stoppedRiskyProbe == (old(previousProbeTooHigh) && inflightHigh != 0 && e.probingInNetwork >= inflightHigh)
      ensures At() == Position(ProbeBandwidth,
        if stoppedRiskyProbe
          || (old(fullBandwidthNow) && !(inflightHigh != 0 && WindowLimited(window, sample.priorInFlight, mss) && window >= inflightHigh))
        then Down else Up)
      ensures previousProbeTooHigh == (old(previousProbeTooHigh) && probePhase == Up)
    {
      var done := false;
      if previousProbeTooHigh && inflightHigh != 0 && e.probingInNetwork >= inflightHigh {
        stoppedRiskyProbe := true;
        done := true;
      } else if inflightHigh != 0 && WindowLimited(window, sample.priorInFlight, mss) && window >= inflightHigh {
        ResetFullBandwidth();
      } else if fullBandwidthNow {
        done := true;
      }
      if done {
        previousProbeTooHigh := false;
        EnterDown(sample.ackTime, e);
      }
    }

    // -------------------------------------------------------------- PROBE_RTT

    /** Restarts the minimum filters; true if the PROBE_RTT interval has passed. */
    method FilterRTT(sample: Sample) returns (expired: bool)
      modifies `rtt
      ensures expired == (old(rtt).probe != 0 && sample.ackTime - old(rtt).probeStamp > PROBE_RTT_WINDOW)
      ensures sample.rtt > 0 ==> 0 < rtt.probe && (old(rtt).probe > 0 && (!expired || sample.ackDelayed) ==>
        rtt.probe == Least(old(rtt).probe, sample.rtt))
      ensures rtt.probe > 0 ==> rtt.minimum <= rtt.probe || rtt.minimum == old(rtt).minimum
    {
      expired := rtt.probe != 0 && sample.ackTime - rtt.probeStamp > PROBE_RTT_WINDOW;
      var minimumExpired := rtt.minimum != 0 && sample.ackTime - rtt.minimumStamp > MINIMUM_RTT_WINDOW;
      if sample.rtt > 0 && (rtt.probe == 0 || sample.rtt < rtt.probe || (expired && !sample.ackDelayed)) {
        rtt := rtt.(probe := sample.rtt, probeStamp := sample.ackTime);
      }
      if rtt.probe > 0 && (rtt.minimum == 0 || rtt.probe <= rtt.minimum || minimumExpired) {
        rtt := rtt.(minimum := rtt.probe, minimumStamp := rtt.probeStamp);
      }
    }

    method EnterProbeRTT(window: U32)
      requires Valid() && mode != ProbeRTT
      modifies `mode, `ackPhase, `probeDone, `probeRound, `nextRoundDelivered, `priorWindow, `undo, `trail
      ensures Valid() && old(trail) <= trail && At() == Position(ProbeRTT, probePhase) && ackPhase == ProbeStopping
      ensures probeDone == 0 && !probeRound
      ensures priorWindow == Most(old(priorWindow), window)
    {
      mode := ProbeRTT;
      Record();
      SaveWindow(window);
      probeDone, probeRound := 0, false;
      ackPhase := ProbeStopping;
      nextRoundDelivered := transport.delivered % 0x8000_0000;
    }

    /** Back to where PROBE_RTT came from: to cruising, by way of draining, or to STARTUP if the pipe was never full. */
    method ExitProbeRTT(now: Time, e: Estimates)
      requires Consistent() && mode == ProbeRTT
      modifies `mode, `probePhase, `ackPhase, `lossInRound, `latestInflight, `probeUpCount, `roundsSinceProbe, `probeStarted, `probeWait,
        `nextRoundDelivered, `fullBandwidthNow, `inflightLow, `trail
      ensures Valid() && old(trail) <= trail
      ensures At() == if fullBandwidthReached then Position(ProbeBandwidth, Cruise) else Position(Startup, Down)
      ensures inflightLow <= old(inflightLow)
    {
      if fullBandwidthReached {
        mode := ProbeBandwidth;
        EnterDown(now, e);
        EnterCruise();
      } else {
        mode := Startup;
        Record();
      }
    }

    /** Runs PROBE_RTT: into it when the minimum is stale, out of it after its interval and one round at the reduced window. */
    method UpdateMinimumRTT(window: U32, sample: Sample, mss: Mss, e: Estimates) returns (w: U32)
      requires Valid()
      modifies `rtt, `mode, `ackPhase, `probeDone, `probeRound, `nextRoundDelivered,
        `priorWindow, `undo, `trail, `probePhase, `lossInRound, `latestInflight, `probeUpCount,
        `roundsSinceProbe, `probeStarted, `probeWait, `fullBandwidthNow, `inflightLow
      ensures Valid() && old(trail) <= trail
      ensures mode != ProbeRTT && old(mode) == ProbeRTT ==> w == Most(window, old(priorWindow)) && inflightLow == 0
      ensures mode == ProbeRTT || old(mode) != ProbeRTT ==> w == window
      ensures old(mode) != ProbeRTT ==> mode == old(mode) || mode == ProbeRTT
    {
      w := window;
      var expired := FilterRTT(sample);
      if expired && !idleRestart && mode != ProbeRTT {
        EnterProbeRTT(window);
        StartMeasuring(sample, mss, e);
      } else if mode == ProbeRTT {
        StartMeasuring(sample, mss, e);
        w := FinishMeasuring(window, sample, e);
      }
    }

    /** Ends PROBE_RTT once the interval and a round are over, and gives the saved window back. */
    method FinishMeasuring(window: U32, sample: Sample, e: Estimates) returns (w: U32)
      requires Valid() && mode == ProbeRTT
      modifies `rtt, `mode, `probePhase, `ackPhase, `lossInRound, `latestInflight, `probeUpCount, `roundsSinceProbe, `probeStarted, `probeWait,
        `nextRoundDelivered, `fullBandwidthNow, `inflightLow, `trail
      ensures Valid() && old(trail) <= trail
      ensures mode != ProbeRTT <==> old(probeDone != 0 && probeRound && sample.ackTime >= probeDone)
      ensures if mode == ProbeRTT then w == window else w == Most(window, priorWindow) && inflightLow == 0
    {
      w := window;
      if probeDone != 0 && probeRound && sample.ackTime >= probeDone {
        rtt := rtt.(probeStamp := sample.ackTime);
        w := Most(window, priorWindow);
        inflightLow := 0;
        ExitProbeRTT(sample.ackTime, e);
      }
    }

    /** Starts the interval once the flight is small enough, and notices the round that follows. */
    method StartMeasuring(sample: Sample, mss: Mss, e: Estimates)
      modifies `probeDone, `probeRound, `nextRoundDelivered
      ensures old(probeDone) == 0 && sample.inFlight <= Most(e.probeRTTPipe, MINIMUM_SEGMENTS * mss)
        ==> probeDone == sample.ackTime + PROBE_RTT_DURATION && !probeRound
      ensures old(probeDone) == 0 && sample.inFlight > Most(e.probeRTTPipe, MINIMUM_SEGMENTS * mss)
        ==> probeDone == 0 && probeRound == old(probeRound)
      ensures old(probeDone) != 0 ==> probeDone == old(probeDone) && probeRound == (old(probeRound) || roundStart)
    {
      if probeDone == 0 && sample.inFlight <= Most(e.probeRTTPipe, MINIMUM_SEGMENTS * mss) {
        probeDone, probeRound := sample.ackTime + PROBE_RTT_DURATION, false;
        nextRoundDelivered := transport.delivered % 0x8000_0000;
      } else if probeDone != 0 && roundStart {
        probeRound := true;
      }
    }

    // -------------------------------------------------------------- the congestion window

    /** The window after an ACK: recovery, growth, and then every bound in force. */
    method SetCongestionWindow(window: U32, sample: Sample, mss: Mss, e: Estimates) returns (w: U32)
      modifies `recovery, `nextRoundDelivered
      ensures recovery == NextRecovery(old(recovery), sample)
      ensures w == Bounded(GrownWindow(window, old(recovery), sample, priorWindow, mode, fullBandwidthReached, e, mss),
        At(), inflightHigh, inflightLow, e.probeRTTPipe, mss)
      ensures UnderBounds(w, At(), inflightHigh, inflightLow, e.probeRTTPipe, mss)
    {
      w := window;
      if sample.acked != 0 {
        w := Recover(w, sample, mss);
        if recovery.conserving {
          w := Most(w, Grow(sample.inFlight, sample.acked));
        } else if mode != ProbeRTT {
          if fullBandwidthReached {
            var grown := Grow(w, sample.acked);
            w := if grown > e.growthTarget then Clamp(e.growthTarget) else grown;
          } else if w < e.growthTarget || w < e.doubleInitialWindow {
            w := Grow(w, sample.acked);
          }
        }
      }
      ghost var grown := w;
      if w < MINIMUM_SEGMENTS * mss {
        w := MINIMUM_SEGMENTS * mss;
      }
      w := Clamp(Least(w, Cap(At(), inflightHigh, inflightLow, mss)));
      if mode == ProbeRTT && w > Most(e.probeRTTPipe, MINIMUM_SEGMENTS * mss) {
        w := Most(e.probeRTTPipe, MINIMUM_SEGMENTS * mss);
      }
      BoundedIsGreatest(grown, At(), inflightHigh, inflightLow, e.probeRTTPipe, mss, 0);
    }

    /** The part of it that recovery decides. */
    method Recover(window: U32, sample: Sample, mss: Mss) returns (w: U32)
      requires sample.acked != 0
      modifies `recovery, `nextRoundDelivered
      ensures recovery == NextRecovery(old(recovery), sample)
      ensures w == RecoveredWindow(window, old(recovery), sample, priorWindow, mss)
    {
      w := window;
      if sample.losses != 0 {
        w := if sample.losses >= window then mss else window - sample.losses;
      }
      if recovery.timeout && !sample.recovery {
        recovery := recovery.(timeout := false);
        w := Most(w, priorWindow);
      }
      if sample.fastRecovery && !recovery.fast {
        recovery := recovery.(fast := true, conserving := true);
        nextRoundDelivered := transport.delivered % 0x8000_0000;
        w := Grow(sample.inFlight, sample.acked);
      } else if !sample.fastRecovery && recovery.fast {
        recovery := recovery.(fast := false, conserving := false);
        w := Most(w, priorWindow);
      }
    }

    // -------------------------------------------------------------- events

    /** Checkpoints the bounds and the window in front of a recovery or a PROBE_RTT. */
    method SaveWindow(window: U32)
      modifies `undo, `priorWindow
      ensures priorWindow == if !recovery.fast && !recovery.timeout && mode != ProbeRTT then window else Most(old(priorWindow), window)
      ensures undo == if !recovery.fast && !recovery.timeout then Saved(true, inflightLow, inflightHigh) else old(undo)
    {
      if !recovery.fast && !recovery.timeout {
        undo := Saved(true, inflightLow, inflightHigh);
      }
      if !recovery.fast && !recovery.timeout && mode != ProbeRTT {
        priorWindow := window;
      } else if window > priorWindow {
        priorWindow := window;
      }
    }

    /** One ACK with a rate sample. */
    method AckSample(window: U32, mss: Mss, sample: Sample, packet: Packet, e: Estimates) returns (w: U32, threshold: U32)
      requires Valid()
      modifies this
      ensures Valid() && old(trail) <= trail && transport == old(transport)
      ensures UnderBounds(w, At(), inflightHigh, inflightLow, e.probeRTTPipe, mss)
      ensures old(fullBandwidthReached) ==> fullBandwidthReached && threshold == 0
    {
      w, threshold := UpdateModel(window, mss, sample, packet, e);
      w := SetCongestionWindow(w, sample, mss, e);
      if lossRoundStart && !sample.tailLossProbe {
        latestInflight := sample.delivered;
      }
    }

    /** The path model's part of an ACK, with PROBE_RTT's. */
    method UpdateModel(window: U32, mss: Mss, sample: Sample, packet: Packet, e: Estimates) returns (w: U32, threshold: U32)
      requires Valid()
      modifies this
      ensures Valid() && old(trail) <= trail && transport == old(transport)
      ensures old(fullBandwidthReached) ==> fullBandwidthReached && threshold == 0
    {
      threshold := UpdatePath(window, mss, sample, packet, e);
      w := UpdateMinimumRTT(window, sample, mss, e);
      if sample.delivered != 0 {
        idleRestart := false;
      }
    }

    method UpdatePath(window: U32, mss: Mss, sample: Sample, packet: Packet, e: Estimates) returns (threshold: U32)
      requires Valid()
      modifies this
      ensures Valid() && old(trail) <= trail && transport == old(transport)
      ensures old(fullBandwidthReached) ==> fullBandwidthReached && threshold == 0
    {
      UpdateSignals(sample, window);
      threshold := LeaveStartup(sample, packet, e);
      UpdateProbeBandwidth(sample, packet, window, mss, e);
    }

    method UpdateSignals(sample: Sample, window: U32)
      requires Valid()
      modifies `roundStart, `nextRoundDelivered, `recovery, `roundsSinceProbe, `lossRoundStart, `latestInflight, `lossRoundDelivered,
        `lossInRound, `inflightLow
      ensures Valid() && (Probing() ==> inflightLow == old(inflightLow))
    {
      UpdateRound(sample);
      UpdateLatestDelivery(sample);
      UpdateCongestionSignals(sample, window);
    }

    /** Ends STARTUP on excessive loss or a full pipe, and DRAIN on an empty queue. */
    method LeaveStartup(sample: Sample, packet: Packet, e: Estimates) returns (threshold: U32)
      requires Valid()
      modifies `lossEventsInRound, `fullBandwidthReached, `inflightHigh, `fullRounds, `fullBandwidthNow, `mode, `probePhase, `ackPhase,
        `lossInRound, `latestInflight, `probeUpCount, `roundsSinceProbe, `probeStarted, `probeWait, `nextRoundDelivered, `trail
      ensures Valid() && old(trail) <= trail
      ensures old(fullBandwidthReached) ==> fullBandwidthReached && threshold == 0
    {
      CheckStartupLoss(sample, packet, e);
      CheckFullBandwidth(sample, e);
      threshold := CheckDrain(sample, e);
    }

    /** Takes over the transport's counts. */
    method SyncDeliveryState(state: Transport)
      modifies `transport
      ensures transport == state
    {
      transport := state;
    }

    /** A round-trip time known in advance starts both minimum filters. */
    method Initialize(known: nat, now: Time)
      modifies `rtt
      ensures rtt == if known > 0 then Filters(known, now, known, now) else old(rtt)
    {
      if known > 0 {
        rtt := Filters(known, now, known, now);
      }
    }

    /** The window a stage of the transport's recovery asks for. */
    method HandleRecovery(stage: Stage, window: U32, mss: Mss) returns (w: U32)
      requires Valid()
      modifies `fullRounds, `fullBandwidthNow, `recovery, `lossInRound, `lossEventsInRound, `inflightLow, `inflightHigh, `undo
      ensures Valid()
      ensures match stage
        case SelectFlight => w == window
        case Enter(flight) => w == Most(flight, MINIMUM_SEGMENTS * mss)
        case Keep(previous) => w == previous
        case Undo => w == Most(window, priorWindow)
      ensures stage != Undo ==> inflightLow == old(inflightLow) && inflightHigh == old(inflightHigh) && recovery == old(recovery)
    {
      match stage {
        case SelectFlight => w := window;
        case Enter(flight) => w := Most(flight, MINIMUM_SEGMENTS * mss);
        case Keep(previous) => w := previous;
        case Undo => w := UndoRecovery(window);
      }
    }

    /** Any event. The phases agree and the moves are allowed after every one of them, the window is bounded after an ACK's. */
    method HandleCongestionEvent(event: Event, window: U32, mss: Mss, e: Estimates) returns (w: U32, threshold: U32)
      requires Valid()
      modifies this
      ensures Valid() && old(trail) <= trail
      ensures event.Ack? && event.sample.Some? ==> UnderBounds(w, At(), inflightHigh, inflightLow, e.probeRTTPipe, mss)
      ensures !(event.Ack? && event.sample.Some?) && !event.Sent? && !event.Recovering? ==> w == window
      ensures !event.Ack? ==> threshold == 0
      ensures event.Initialize? || event.Ack? || event.TimedOut? || event.Lost? || event.ProbeRecovered? || event.Diagnostics? ==>
        transport == event.state
    {
      w, threshold := window, 0;
      match event {
        case Initialize(state, known, now) =>
          SyncDeliveryState(state);
          Initialize(known, now);
        case Ack(state, sample, packet) =>
          SyncDeliveryState(state);
          if sample.Some? {
            w, threshold := AckSample(window, mss, sample.value, packet, e);
          }
        case LossOrEcn => SaveWindow(window);
        case TimedOut(state) =>
          SyncDeliveryState(state);
          Timeout(window);
        case Sent(now, outstanding, limited) => w := PacketSent(now, outstanding, window, limited, e);
        case Retransmitted =>
        case Lost(state, bytes, packet, evidence, now) =>
          SyncDeliveryState(state);
          PacketLost(bytes, packet, evidence, window, now, e);
        case ProbeRecovered(state, bytes, packet, now) =>
          SyncDeliveryState(state);
          TailLossProbeRecovered(bytes, packet, window, now, e);
        case Recovering(stage) => w := HandleRecovery(stage, window, mss);
        case Pacing =>
        case MtuChanged =>
        case Diagnostics(state) => SyncDeliveryState(state);
      }
    }

    method Timeout(window: U32)
      requires Valid()
      modifies `undo, `priorWindow, `recovery, `fullRounds, `fullBandwidthNow
      ensures Valid() && recovery == Recovery(true, false, false)
    {
      SaveWindow(window);
      recovery := Recovery(true, false, false);
      ResetFullBandwidth();
    }

    /** A recovery turns out to have been unnecessary: each bound becomes the wider of what it is and what it was. */
    method UndoRecovery(window: U32) returns (w: U32)
      requires Valid()
      modifies `fullRounds, `fullBandwidthNow, `recovery, `lossInRound, `lossEventsInRound, `inflightLow, `inflightHigh, `undo
      ensures Valid() && recovery == Recovery(false, false, false) && !undo.valid && w == Most(window, priorWindow)
      ensures inflightLow == if old(undo).valid then Wider(old(inflightLow), old(undo).low) else old(inflightLow)
      ensures inflightHigh == if old(undo).valid then Wider(old(inflightHigh), old(undo).high) else old(inflightHigh)
    {
      ResetFullBandwidth();
      recovery := Recovery(false, false, false);
      lossInRound, lossEventsInRound := false, 0;
      if undo.valid {
        inflightLow := Wider(inflightLow, undo.low);
        inflightHigh := Wider(inflightHigh, undo.high);
        undo := undo.(valid := false);
      }
      w := Most(window, priorWindow);
    }

    /** A transmission, which may end PROBE_RTT after an idle time. */
    method PacketSent(now: Time, outstanding: U32, window: U32, limited: bool, e: Estimates) returns (w: U32)
      requires Valid()
      modifies `transport, `idleRestart, `rtt, `mode, `probePhase, `ackPhase, `lossInRound, `latestInflight, `probeUpCount,
        `roundsSinceProbe, `probeStarted, `probeWait, `nextRoundDelivered, `fullBandwidthNow, `inflightLow, `trail
      ensures Valid() && old(trail) <= trail
      ensures old(mode) != ProbeRTT || outstanding != 0 ==> At() == old(At()) && w == window
      ensures mode != old(mode) ==> w == Most(window, priorWindow)
    {
      w := window;
      transport := transport.(applicationLimited := limited);
      if outstanding == 0 && limited {
        idleRestart := true;
      }
      if outstanding == 0 && idleRestart && mode == ProbeRTT && probeDone != 0 && now >= probeDone {
        rtt := rtt.(probeStamp := now);
        w := Most(window, priorWindow);
        ExitProbeRTT(now, e);
      }
    }

    /** A transmission accounted as lost: if its flight lost too much, the bound falls to where the losses became too many. */
    method PacketLost(bytes: U32, packet: Packet, evidence: bool, window: U32, now: Time, e: Estimates)
      requires Valid()
      modifies `previousProbeTooHigh, `stoppedRiskyProbe, `probeSamples, `inflightHigh, `probePhase, `ackPhase, `lossInRound, `latestInflight,
        `probeUpCount, `roundsSinceProbe, `probeStarted, `probeWait, `nextRoundDelivered, `fullBandwidthNow, `trail, `lossRoundDelivered
      ensures Valid() && old(trail) <= trail
      ensures !evidence || bytes == 0 || !old(probeSamples) || !TooHigh(LossesSince(packet), packet.inflight) ==>
        At() == old(At()) && inflightHigh == old(inflightHigh)
      ensures evidence && bytes != 0 && old(probeSamples) && TooHigh(LossesSince(packet), packet.inflight) && !packet.applicationLimited ==>
        inflightHigh == Clamp(Most(LossPoint(bytes, packet.inflight, LossesSince(packet)), Retained(e.effectivePipe, window)))
    {
      NoteLossRound();
      if evidence && bytes != 0 && probeSamples {
        var lossesSince := LossesSince(packet);
        if TooHigh(lossesSince, packet.inflight) {
          HandleInflightTooHigh(LossPoint(bytes, packet.inflight, lossesSince), packet.applicationLimited, window, now, e);
        }
      }
    }

    /** A tail loss probe repaired a loss. */
    method TailLossProbeRecovered(bytes: U32, packet: Packet, window: U32, now: Time, e: Estimates)
      requires Valid()
      modifies `previousProbeTooHigh, `stoppedRiskyProbe, `probeSamples, `inflightHigh, `probePhase, `ackPhase, `lossInRound, `latestInflight,
        `probeUpCount, `roundsSinceProbe, `probeStarted, `probeWait, `nextRoundDelivered, `fullBandwidthNow, `trail, `lossRoundDelivered
      ensures Valid() && old(trail) <= trail
      ensures !old(probeSamples) || bytes == 0 || !TooHigh(bytes, Grow(old(latestInflight), bytes)) ==>
        At() == old(At()) && inflightHigh == old(inflightHigh)
    {
      NoteLossRound();
      if probeSamples && bytes != 0 {
        var inflight := Grow(latestInflight, bytes);
        if TooHigh(bytes, inflight) {
          HandleInflightTooHigh(inflight, packet.applicationLimited, window, now, e);
        }
      }
    }
  }

  /** Acknowledged octets per step of `inflight_hi` in one round of a probe. */
  function Slope(window: U32, rounds: nat, mss: Mss): (n: U32)
    ensures n > 0
  {
    SlopeFits(window, Pow2(rounds));
    Clamp(Most(window / Pow2(rounds), mss))
  }

  /** Where one ACK takes a phase other than UP. */
  function NextPhase(phase: Phase, round: bool, due: bool, drained: bool): (n: Phase) {
    match phase
    case Cruise => if due then Refill else Cruise
    case Refill => if round then Up else Refill
    case Down => if due then Refill else if drained then Cruise else Down
    case Up => Up
  }

  /** Whether the flight has fallen to the pipe, with room to spare. */
  predicate Drained(high: U32, mss: Mss, e: Estimates) {
    e.probingInNetwork <= e.pipe && e.probingInNetwork <= WithHeadroom(high, mss)
  }

  /** `inflight_hi` after one flight was seen to arrive. */
  function Observed(high: U32, lossy: bool, inflight: U32): (h: U32) {
    if high == 0 || lossy then high else Most(high, inflight)
  }

  lemma SlopeFits(window: U32, growth: nat)
    requires growth >= 1
    ensures 0 <= window / growth <= window
  {
    assert window / growth * growth <= window;
  }

  /** What a bound keeps of a model target. */
  function Retained(target: nat, window: U32): (n: nat) { Within(target, window) * LOSS_RETAINED / SCALE }

  /** Where a loss of `bytes` from a flight lowers the bound to, with `lost` octets lost since the flight left. */
  function LossPoint(bytes: U32, inflight: U32, lost: U32): (point: U32) {
    var before := inflight - Least(bytes, inflight);
    var lostBefore := if lost > bytes then lost - bytes else 0;
    Clamp(CrossingPoint(before, lostBefore))
  }

  /** A model target, but no more than the window unless that is unknown. */
  function Within(target: nat, window: U32): (n: nat) {
    if window != 0 then Least(target, window) else target
  }

  /** The bound after spending all whole groups of the credit. */
  function Raised(high: U32, credit: nat, count: U32, mss: Mss): (h: U32)
    requires count > 0
    ensures high <= MAX ==> high <= h <= MAX
  {
    if credit < count then high else Clamp(high + credit / count * mss)
  }
}
