/**
 * The state-change reports of one multicast group, and the listener that follows them over a lossy link
 * (section 5.1 of RFC 9776, section 6.1 of RFC 3810).
 */
module MulticastReports {
  import opened Wrappers

  /** A source address. */
  type Source = n: int | 0 <= n

  datatype Mode = Include | Exclude

  /** A source filter; the filter of a group that was not joined is INCLUDE of nothing. */
  datatype Filter = Filter(mode: Mode, sources: set<Source>) {
    predicate Accepts(source: Source) {
      if mode == Include then source in sources else source !in sources
    }
  }

  const NOTHING := Filter(Include, {})

  /** What one group still has to announce: the mode `modeRemaining` times, then each changed source. */
  datatype Pending = Pending(filter: Filter, joined: bool, modeRemaining: nat, allow: map<Source, nat>, block: map<Source, nat>)

  datatype Record = ToMode(filter: Filter) | Allow(sources: set<Source>) | Block(sources: set<Source>)

  const NEVER := Pending(NOTHING, false, 0, map[], map[])

  // ---------------------------------------------------------------- one interface transition

  /** Counters with `added` set to `times`. */
  function Counting(counters: map<Source, nat>, added: set<Source>, times: nat): (r: map<Source, nat>) {
    map s | s in counters.Keys + added :: if s in added then times else counters[s]
  }

  /** The sources a transition within one mode starts or stops accepting. */
  function Gained(before: Filter, current: Filter): (r: set<Source>) {
    if current.mode == Include then current.sources - before.sources else before.sources - current.sources
  }

  function Dropped(before: Filter, current: Filter): (r: set<Source>) {
    if current.mode == Include then before.sources - current.sources else current.sources - before.sources
  }

  /** A mode change replaces everything pending; a source change overrides what was pending for those sources. */
  function Merged(p: Pending, before: Filter, current: Filter, joined: bool, robustness: nat): (r: Pending) {
    if before.mode != current.mode then Pending(current, joined, robustness, map[], map[])
    else
      var gained := Gained(before, current);
      var dropped := Dropped(before, current);
      Pending(current, joined, p.modeRemaining,
              Counting(p.allow, gained, robustness) - dropped, Counting(p.block - gained, dropped, robustness))
  }

  /** A transition that changes nothing announces nothing. */
  function Noted(pending: Option<Pending>, before: Filter, wasJoined: bool, current: Filter, joined: bool, robustness: nat): (r: Option<Pending>) {
    if before == current && wasJoined == joined then pending
    else Some(Merged(if pending.Some? then pending.value else NEVER, before, current, joined, robustness))
  }

  // ---------------------------------------------------------------- one report

  /** Counters after one transmission. */
  function Advanced(counters: map<Source, nat>): (r: map<Source, nat>) {
    map s | s in counters && counters[s] > 1 :: counters[s] - 1
  }

  /** The records of the next report. */
  function Records(p: Pending): (records: seq<Record>) {
    if p.modeRemaining != 0 then [ToMode(p.filter)]
    else (if |p.allow| != 0 then [Allow(p.allow.Keys)] else []) + (if |p.block| != 0 then [Block(p.block.Keys)] else [])
  }

  function AfterReport(p: Pending): (r: Pending) {
    if p.modeRemaining != 0 then p.(modeRemaining := p.modeRemaining - 1)
    else p.(allow := Advanced(p.allow), block := Advanced(p.block))
  }

  predicate Remains(p: Pending) {
    p.modeRemaining != 0 || |p.allow| != 0 || |p.block| != 0
  }

  // ---------------------------------------------------------------- the machine as it runs

  /** `left` minus `right`. */
  method SourceDifference(left: set<Source>, right: set<Source>) returns (result: set<Source>)
    ensures result == left - right
  {
    result := {};
    var rest := left;
    while rest != {}
      invariant rest <= left && result == (left - rest) - right
      decreases |rest|
    {
      var s :| s in rest;
      rest := rest - {s};
      if s !in right {
        result := result + {s};
      }
    }
  }

  class Retransmission {
    var filter: Filter
    var joined: bool
    var modeRemaining: nat
    var allow: map<Source, nat>
    var block: map<Source, nat>

    function Model(): Pending reads this {
      Pending(filter, joined, modeRemaining, allow, block)
    }

    constructor ()
      ensures Model() == NEVER
    {
      filter, joined, modeRemaining, allow, block := NOTHING, false, 0, map[], map[];
    }

    /** Merges one transition into what is pending; the caller has checked that something changed. */
    method Note(before: Filter, current: Filter, joined: bool, robustness: nat)
      modifies this
      ensures Model() == Merged(old(Model()), before, current, joined, robustness)
    {
      filter, this.joined := current, joined;
      if before.mode != current.mode {
        modeRemaining, allow, block := robustness, map[], map[];
        return;
      }
      var gained, dropped: set<Source>;
      if current.mode == Include {
        gained := SourceDifference(current.sources, before.sources);
        dropped := SourceDifference(before.sources, current.sources);
      } else {
        gained := SourceDifference(before.sources, current.sources);
        dropped := SourceDifference(current.sources, before.sources);
      }
      var a, b := Override(allow, block, gained, robustness);
      var c, d := Override(b, a, dropped, robustness);
      allow, block := d, c;
    }

    /** Creates the next report and counts down every source it carries. */
    method Advance() returns (records: seq<Record>, remains: bool)
      modifies this
      ensures records == Records(old(Model())) && Model() == AfterReport(old(Model()))
      ensures remains <==> Remains(Model())
    {
      if modeRemaining != 0 {
        modeRemaining := modeRemaining - 1;
        return [ToMode(filter)], modeRemaining != 0 || |allow| != 0 || |block| != 0;
      }
      records := [];
      if |allow| != 0 {
        var sources, counters := AdvanceSourceCounters(allow);
        records, allow := records + [Allow(sources)], counters;
      } else {
        assert allow == map[];
      }
      if |block| != 0 {
        var sources, counters := AdvanceSourceCounters(block);
        records, block := records + [Block(sources)], counters;
      } else {
        assert block == map[];
      }
      remains := |allow| != 0 || |block| != 0;
    }
  }

  /** Starts counting `sources` afresh and forgets what the other direction still had for them. */
  method Override(counters: map<Source, nat>, other: map<Source, nat>, sources: set<Source>, robustness: nat)
    returns (more: map<Source, nat>, less: map<Source, nat>)
    ensures more == Counting(counters, sources, robustness) && less == other - sources
  {
    more, less := counters, other;
    var rest := sources;
    while rest != {}
      invariant rest <= sources
      invariant forall s :: s in more <==> s in counters || (s in sources && s !in rest)
      invariant forall s :: s in more ==> more[s] == if s in sources && s !in rest then robustness else counters[s]
      invariant forall s :: s in less <==> s in other && !(s in sources && s !in rest)
      invariant forall s :: s in less ==> less[s] == other[s]
      decreases |rest|
    {
      var s :| s in rest;
      rest := rest - {s};
      more, less := more[s := robustness], less - {s};
    }
  }

  /** Snapshots the counted sources and decrements each counter, dropping those that reach zero. */
  method AdvanceSourceCounters(counters: map<Source, nat>) returns (sources: set<Source>, next: map<Source, nat>)
    ensures sources == counters.Keys && next == Advanced(counters)
  {
    sources, next := {}, counters;
    var rest := counters.Keys;
    while rest != {}
      invariant rest <= counters.Keys && sources == counters.Keys - rest
      invariant forall s :: s in next <==> s in counters && (s in rest || counters[s] > 1)
      invariant forall s :: s in next ==> next[s] == if s in rest then counters[s] else counters[s] - 1
      decreases |rest|
    {
      var s :| s in rest;
      rest, sources := rest - {s}, sources + {s};
      next := if counters[s] <= 1 then next - {s} else next[s := counters[s] - 1];
    }
  }

  // ---------------------------------------------------------------- the listener

  /** What a router keeps of this host after one record. */
  function Heard(l: Filter, record: Record): (r: Filter) {
    match record
    case ToMode(f) => f
    case Allow(sources) => if l.mode == Include then Filter(Include, l.sources + sources) else Filter(Exclude, l.sources - sources)
    case Block(sources) => if l.mode == Include then Filter(Include, l.sources - sources) else Filter(Exclude, l.sources + sources)
  }

  function HeardAll(l: Filter, records: seq<Record>): (r: Filter)
    decreases |records|
  {
    if records == [] then l else HeardAll(Heard(l, records[0]), records[1..])
  }

  // ---------------------------------------------------------------- the protocol

  /** The interface, its pending announcements, the listener, and how many reports in a row were lost last. */
  datatype World = World(filter: Filter, joined: bool, pending: Option<Pending>, listener: Filter, lostInARow: nat)

  datatype Event = Change(filter: Filter, joined: bool) | Emit(lost: bool)

  const START := World(NOTHING, false, None, NOTHING, 0)

  /** Anything the membership can do, and one report that arrives or not. */
  function Next(w: World, robustness: nat, e: Event): (r: World) {
    match e
    case Change(f, j) => w.(filter := f, joined := j, pending := Noted(w.pending, w.filter, w.joined, f, j, robustness))
    case Emit(lost) =>
      if w.pending.None? then w
      else
        var p := w.pending.value;
        var rest := if Remains(AfterReport(p)) then Some(AfterReport(p)) else None;
        if Records(p) == [] then w.(pending := rest)
        else if lost then w.(pending := rest, lostInARow := w.lostInARow + 1)
        else w.(pending := rest, listener := HeardAll(w.listener, Records(p)), lostInARow := 0)
  }

  function Run(w: World, robustness: nat, events: seq<Event>): (r: World)
    decreases |events|
  {
    if events == [] then w else Run(Next(w, robustness, events[0]), robustness, events[1..])
  }

  /** Never as many consecutive losses as the robustness value. */
  predicate Tolerable(w: World, robustness: nat, events: seq<Event>)
    decreases |events|
  {
    w.lostInARow < robustness &&
    (events == [] || Tolerable(Next(w, robustness, events[0]), robustness, events[1..]))
  }

  /** What is pending describes the current filter: nothing is announced both ways, and each way as the filter says. */
  ghost predicate Consistent(w: World, robustness: nat) {
    w.pending.Some? ==>
      var p := w.pending.value;
      && p.filter == w.filter && p.joined == w.joined
      && p.modeRemaining <= robustness
      && p.allow.Keys !! p.block.Keys
      && (forall s :: s in p.allow ==> w.filter.Accepts(s) && 0 < p.allow[s] <= robustness)
      && (forall s :: s in p.block ==> !w.filter.Accepts(s) && 0 < p.block[s] <= robustness)
  }

  function ModeAnnouncements(pending: Option<Pending>): (n: nat) {
    if pending.None? then 0 else pending.value.modeRemaining
  }

  /** Every difference between listener and interface still has enough announcements to outlast the losses. */
  ghost predicate Covered(w: World, robustness: nat) {
    && (w.listener.mode != w.filter.mode ==> ModeAnnouncements(w.pending) + w.lostInARow >= robustness)
    && (forall s :: w.listener.Accepts(s) != w.filter.Accepts(s) ==> CoveredFor(w, robustness, s))
  }

  /** One source's difference is covered by the mode announcements or by its own. */
  ghost predicate CoveredFor(w: World, robustness: nat, s: Source) {
    || ModeAnnouncements(w.pending) + w.lostInARow >= robustness
    || (w.pending.Some? && s in w.pending.value.allow && w.pending.value.allow[s] + w.lostInARow >= robustness)
    || (w.pending.Some? && s in w.pending.value.block && w.pending.value.block[s] + w.lostInARow >= robustness)
  }

  ghost predicate Inv(w: World, robustness: nat) {
    Consistent(w, robustness) && Covered(w, robustness)
  }

  lemma StartInv(robustness: nat)
    ensures Inv(START, robustness)
  {
  }

  lemma SameFilter(a: Filter, b: Filter)
    requires a.mode == b.mode && forall s :: a.Accepts(s) <==> b.Accepts(s)
    ensures a == b
  {
    forall s ensures s in a.sources <==> s in b.sources {
      assert a.Accepts(s) <==> b.Accepts(s);
    }
  }

  lemma ChangeInv(w: World, robustness: nat, f: Filter, j: bool)
    requires Inv(w, robustness) && robustness > 0
    ensures Inv(Next(w, robustness, Change(f, j)), robustness)
  {
    var n := Next(w, robustness, Change(f, j));
    if n.pending != w.pending && w.filter.mode == f.mode {
      forall s | n.listener.Accepts(s) != f.Accepts(s) ensures CoveredFor(n, robustness, s) {
        if w.filter.Accepts(s) == f.Accepts(s) {
          assert CoveredFor(w, robustness, s);
        } else {
          assert s in Gained(w.filter, f) || s in Dropped(w.filter, f);
        }
      }
    }
  }

  lemma LossCovers(w: World, robustness: nat, s: Source)
    requires Inv(w, robustness) && w.lostInARow + 1 < robustness && CoveredFor(w, robustness, s)
    ensures CoveredFor(Next(w, robustness, Emit(true)), robustness, s)
  {
    var p := w.pending.value;
    var q := AfterReport(p);
    if p.modeRemaining == 0 {
      if s in p.allow && p.allow[s] + w.lostInARow >= robustness {
        assert s in q.allow && |q.allow| != 0 && |p.allow| != 0;
      } else {
        assert s in q.block && |q.block| != 0 && |p.block| != 0;
      }
    } else {
      assert s in q.allow ==> |q.allow| != 0;
      assert s in q.block ==> |q.block| != 0;
    }
  }

  lemma LossInv(w: World, robustness: nat)
    requires Inv(w, robustness) && w.lostInARow + 1 < robustness
    ensures Inv(Next(w, robustness, Emit(true)), robustness)
  {
    var n := Next(w, robustness, Emit(true));
    forall s | n.listener.Accepts(s) != n.filter.Accepts(s) ensures CoveredFor(n, robustness, s) {
      assert CoveredFor(w, robustness, s);
      LossCovers(w, robustness, s);
    }
  }

  /** Any report that arrives brings the listener level with the interface. */
  lemma DeliveryLevels(w: World, robustness: nat)
    requires Inv(w, robustness) && w.lostInARow < robustness && w.pending.Some? && Records(w.pending.value) != []
    ensures Next(w, robustness, Emit(false)).listener == w.filter
    ensures Inv(Next(w, robustness, Emit(false)), robustness)
  {
    var p := w.pending.value;
    var n := Next(w, robustness, Emit(false));
    if p.modeRemaining != 0 {
      assert HeardAll(w.listener, [ToMode(p.filter)]) == p.filter;
    } else {
      SourcesHeard(w.listener, p);
      forall s ensures n.listener.Accepts(s) <==> w.filter.Accepts(s) {
        assert w.listener.Accepts(s) != w.filter.Accepts(s) ==> CoveredFor(w, robustness, s);
      }
      SameFilter(n.listener, w.filter);
    }
  }

  lemma SourcesHeard(l: Filter, p: Pending)
    requires p.modeRemaining == 0 && p.allow.Keys !! p.block.Keys
    ensures var h := HeardAll(l, Records(p));
      h.mode == l.mode &&
      forall s :: h.Accepts(s) <==> if s in p.allow then true else if s in p.block then false else l.Accepts(s)
  {
    var a := if |p.allow| != 0 then Heard(l, Allow(p.allow.Keys)) else l;
    assert |p.allow| == 0 ==> p.allow == map[];
    assert |p.block| == 0 ==> p.block == map[];
    var records := Records(p);
    if |p.allow| != 0 {
      assert records[1..] == if |p.block| != 0 then [Block(p.block.Keys)] else [];
    }
    assert |p.block| != 0 ==> HeardAll(a, [Block(p.block.Keys)]) == Heard(a, Block(p.block.Keys));
    assert HeardAll(l, records) == if |p.block| != 0 then Heard(a, Block(p.block.Keys)) else a;
  }

  lemma StepInv(w: World, robustness: nat, e: Event)
    requires Inv(w, robustness) && w.lostInARow < robustness && Next(w, robustness, e).lostInARow < robustness
    ensures Inv(Next(w, robustness, e), robustness)
    ensures e == Emit(false) && w.pending.Some? && Records(w.pending.value) != [] ==>
      Next(w, robustness, e).listener == Next(w, robustness, e).filter
  {
    match e
    case Change(f, j) => ChangeInv(w, robustness, f, j);
    case Emit(lost) =>
      if w.pending.Some? && Records(w.pending.value) != [] {
        if lost {
          LossInv(w, robustness);
        } else {
          DeliveryLevels(w, robustness);
        }
      } else {
        SilentInv(w, robustness, lost);
      }
  }

  /** With nothing left to say the pending record is dropped without a report. */
  lemma SilentInv(w: World, robustness: nat, lost: bool)
    requires Inv(w, robustness) && w.lostInARow < robustness
    requires w.pending.None? || Records(w.pending.value) == []
    ensures Inv(Next(w, robustness, Emit(lost)), robustness)
  {
    if w.pending.Some? {
      var p := w.pending.value;
      assert |p.allow| == 0 && |p.block| == 0;
      assert p.allow == map[] && p.block == map[];
    }
  }

  lemma {:induction false} RunInv(w: World, robustness: nat, events: seq<Event>)
    requires Inv(w, robustness) && Tolerable(w, robustness, events)
    ensures Inv(Run(w, robustness, events), robustness) && Run(w, robustness, events).lostInARow < robustness
    decreases |events|
  {
    if events != [] {
      StepInv(w, robustness, events[0]);
      RunInv(Next(w, robustness, events[0]), robustness, events[1..]);
    }
  }

  lemma QuietIsLevel(w: World, robustness: nat)
    requires Inv(w, robustness) && w.lostInARow < robustness && w.pending.None?
    ensures w.listener == w.filter
  {
    forall s ensures w.listener.Accepts(s) <==> w.filter.Accepts(s) {
      assert w.listener.Accepts(s) != w.filter.Accepts(s) ==> CoveredFor(w, robustness, s);
    }
    SameFilter(w.listener, w.filter);
  }

  /**
   * Over every run of membership changes and reports in which fewer than `robustness` reports in a row are
   * lost, the listener holds exactly the interface filter whenever nothing is pending.
   */
  lemma ListenerConverges(robustness: nat, events: seq<Event>)
    requires Tolerable(START, robustness, events)
    ensures var w := Run(START, robustness, events); w.pending.None? ==> w.listener == w.filter
  {
    StartInv(robustness);
    RunInv(START, robustness, events);
    if Run(START, robustness, events).pending.None? {
      QuietIsLevel(Run(START, robustness, events), robustness);
    }
  }

  /** In every such run each report that arrives brings the listener level at once, whatever is still pending. */
  lemma EveryDeliveryLevels(robustness: nat, events: seq<Event>)
    requires Tolerable(START, robustness, events)
    ensures var w := Run(START, robustness, events);
      w.pending.Some? && Records(w.pending.value) != [] ==> Next(w, robustness, Emit(false)).listener == w.filter
  {
    StartInv(robustness);
    RunInv(START, robustness, events);
    var w := Run(START, robustness, events);
    if w.pending.Some? && Records(w.pending.value) != [] {
      DeliveryLevels(w, robustness);
    }
  }

  function Losses(events: seq<Event>): (n: nat) {
    if events == [] then 0 else Losses(events[1..]) + if events[0] == Emit(true) then 1 else 0
  }

  /** In particular, fewer than `robustness` losses over the whole run are tolerable. */
  lemma {:induction false} FewLossesAreTolerable(w: World, robustness: nat, events: seq<Event>)
    requires w.lostInARow + Losses(events) < robustness
    ensures Tolerable(w, robustness, events)
    decreases |events|
  {
    if events != [] {
      FewLossesAreTolerable(Next(w, robustness, events[0]), robustness, events[1..]);
    }
  }

  // ---------------------------------------------------------------- termination, and the limit of tolerance

  function Emits(losses: seq<bool>): (events: seq<Event>)
    ensures |events| == |losses|
  {
    seq(|losses|, i requires 0 <= i < |losses| => Emit(losses[i]))
  }

  /** Nothing pending is announced more than `mode` times as a mode and then `sources` times as sources. */
  ghost predicate Bounded(pending: Option<Pending>, mode: nat, sources: nat) {
    pending.Some? ==>
      var p := pending.value;
      && p.modeRemaining <= mode
      && (forall s :: s in p.allow ==> 0 < p.allow[s] <= sources)
      && (forall s :: s in p.block ==> 0 < p.block[s] <= sources)
  }

  lemma EmitShrinks(w: World, robustness: nat, lost: bool, mode: nat, sources: nat)
    requires Bounded(w.pending, mode, sources)
    ensures var n := Next(w, robustness, Emit(lost));
      if mode > 0 then Bounded(n.pending, mode - 1, sources) || Bounded(n.pending, 0, if sources > 0 then sources - 1 else 0)
      else Bounded(n.pending, 0, if sources > 0 then sources - 1 else 0)
    ensures mode == 0 && sources <= 1 ==> Next(w, robustness, Emit(lost)).pending.None?
  {
    if w.pending.Some? && mode == 0 && sources <= 1 {
      var q := AfterReport(w.pending.value);
      assert q.allow == map[] && q.block == map[];
    }
  }

  /** Once the membership rests, at most twice `robustness` reports, lost or not, finish every announcement. */
  lemma {:induction false} QuietEventually(w: World, robustness: nat, losses: seq<bool>, mode: nat, sources: nat)
    requires Bounded(w.pending, mode, sources) && mode + sources <= |losses| && |losses| > 0
    ensures Run(w, robustness, Emits(losses)).pending.None?
    decreases |losses|
  {
    var n := Next(w, robustness, Emit(losses[0]));
    assert Emits(losses)[0] == Emit(losses[0]) && Emits(losses)[1..] == Emits(losses[1..]);
    EmitShrinks(w, robustness, losses[0], mode, sources);
    if |losses| > 1 {
      if mode > 0 && Bounded(n.pending, mode - 1, sources) {
        QuietEventually(n, robustness, losses[1..], mode - 1, sources);
      } else {
        QuietEventually(n, robustness, losses[1..], 0, if sources > 0 then sources - 1 else 0);
      }
    }
  }

  /** Joined and left alone, the listener is level for good after at most twice `robustness` reports. */
  lemma SettlesAfterChanges(robustness: nat, events: seq<Event>, losses: seq<bool>)
    requires Tolerable(START, robustness, events + Emits(losses)) && |losses| >= 2 * robustness
    ensures var w := Run(START, robustness, events + Emits(losses)); w.pending.None? && w.listener == w.filter
  {
    RunConcat(START, robustness, events, Emits(losses));
    StartInv(robustness);
    RunInv(START, robustness, events);
    QuietEventually(Run(START, robustness, events), robustness, losses, robustness, robustness);
    ListenerConverges(robustness, events + Emits(losses));
  }

  lemma {:induction false} RunConcat(w: World, robustness: nat, a: seq<Event>, b: seq<Event>)
    ensures Run(w, robustness, a + b) == Run(Run(w, robustness, a), robustness, b)
    ensures Tolerable(w, robustness, a + b) ==> Tolerable(w, robustness, a)
    decreases |a|
  {
    if a == [] {
      assert a + b == b;
    } else {
      assert (a + b)[0] == a[0] && (a + b)[1..] == a[1..] + b;
      RunConcat(Next(w, robustness, a[0]), robustness, a[1..], b);
    }
  }

  /** The bound is tight: `robustness` losses in a row leave the listener wrong with nothing left to announce. */
  lemma TooManyLosses(robustness: nat, f: Filter)
    requires robustness > 0 && f.mode == Exclude
    ensures var w := Run(START, robustness, [Change(f, true)] + Emits(seq(robustness, _ => true)));
      w.pending.None? && w.listener != w.filter && w.lostInARow == robustness
  {
    var w := Next(START, robustness, Change(f, true));
    var losses := seq(robustness, _ => true);
    assert ([Change(f, true)] + Emits(losses))[1..] == Emits(losses);
    AllModeReportsLost(w, robustness, losses);
  }

  lemma {:induction false} AllModeReportsLost(w: World, robustness: nat, losses: seq<bool>)
    requires w.pending.Some? && w.pending.value.modeRemaining == |losses| > 0
    requires w.pending.value.allow == map[] && w.pending.value.block == map[]
    requires forall i :: 0 <= i < |losses| ==> losses[i]
    ensures var n := Run(w, robustness, Emits(losses));
      n.pending.None? && n.listener == w.listener && n.filter == w.filter && n.lostInARow == w.lostInARow + |losses|
    decreases |losses|
  {
    var n := Next(w, robustness, Emit(true));
    assert Emits(losses)[0] == Emit(true) && Emits(losses)[1..] == Emits(losses[1..]);
    if |losses| > 1 {
      AllModeReportsLost(n, robustness, losses[1..]);
    }
  }
}
