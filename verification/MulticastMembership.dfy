/**
 * Multicast memberships of one interface: per-socket filters, their merge into one interface filter
 * (section 3.2 of RFC 9776, section 4.2 of RFC 3810), and the copy-on-write data that lock-free readers follow.
 */
module MulticastMembership {
  import opened Wrappers
  import opened MulticastReports

  /** A group address, with what its octets decide: its family, whether routers must hear of it, and whether everyone is in it. */
  datatype Group = Group(v6: bool, reported: bool, allHosts: bool, address: nat)

  type Endpoint = n: int | 0 <= n

  datatype Operation = JoinAny | LeaveGroup | JoinSource | LeaveSource | ExcludeSource | IncludeSource

  // ---------------------------------------------------------------- what a merge means

  /** The one interface filter that accepts what some member accepts. */
  function Interface(members: map<Endpoint, Filter>): (f: Filter) {
    if exists e :: e in members && members[e].mode == Exclude then
      Filter(Exclude, set e, s | e in members && members[e].mode == Exclude && s in members[e].sources
                        && (forall d :: d in members ==> !members[d].Accepts(s)) :: s)
    else Filter(Include, set e, s | e in members && s in members[e].sources :: s)
  }

  lemma InterfaceAccepts(members: map<Endpoint, Filter>, s: Source)
    ensures Interface(members).Accepts(s) <==> exists e :: e in members && members[e].Accepts(s)
  {
    var f := Interface(members);
    if x :| x in members && members[x].mode == Exclude {
      assert f.mode == Exclude;
      if forall d :: d in members ==> !members[d].Accepts(s) {
        assert !members[x].Accepts(s) && s in members[x].sources;
        assert s in f.sources;
      }
    } else {
      if e :| e in members && members[e].Accepts(s) {
        assert members[e].mode == Include && s in members[e].sources;
      }
    }
  }

  /** A filter with the right mode that accepts exactly what some member accepts is the interface filter. */
  lemma InterfaceIsUnique(members: map<Endpoint, Filter>, f: Filter)
    requires f.mode == Exclude <==> exists e :: e in members && members[e].mode == Exclude
    requires forall s :: f.Accepts(s) <==> exists e :: e in members && members[e].Accepts(s)
    ensures f == Interface(members)
  {
    forall s ensures f.Accepts(s) <==> Interface(members).Accepts(s) {
      InterfaceAccepts(members, s);
    }
    SameFilter(f, Interface(members));
  }

  // ---------------------------------------------------------------- shared memory

  /** A mutable source set on the heap; once a published filter refers to it, nobody may write it. */
  class SourceMap {
    var elements: set<Source>

    constructor (elements: set<Source>)
      ensures this.elements == elements
    {
      this.elements := elements;
    }

    method Add(s: Source)
      modifies this
      ensures elements == old(elements) + {s}
    {
      elements := elements + {s};
    }

    method Delete(s: Source)
      modifies this
      ensures elements == old(elements) - {s}
    {
      elements := elements - {s};
    }
  }

  /** One filter as sockets and snapshots hold it: a mode and a shared source set, absent when empty. */
  datatype FilterRef = FilterRef(mode: Mode, sources: SourceMap?)

  function Elements(m: SourceMap?): (s: set<Source>)
    reads m
  {
    if m == null then {} else m.elements
  }

  function ValueOf(f: FilterRef): (v: Filter)
    reads f.sources
  {
    Filter(f.mode, Elements(f.sources))
  }

  function MapsOf(members: map<Endpoint, FilterRef>): (maps: set<SourceMap?>) {
    set e | e in members :: members[e].sources
  }

  ghost function Values(members: map<Endpoint, FilterRef>): (v: map<Endpoint, Filter>)
    reads MapsOf(members)
  {
    map e | e in members :: ValueOf(members[e])
  }

  /** The shared sets hold what the sockets asked for. */
  ghost predicate Holds(members: map<Endpoint, FilterRef>, values: map<Endpoint, Filter>)
    reads MapsOf(members)
  {
    members.Keys == values.Keys && forall e :: e in members ==> ValueOf(members[e]) == values[e]
  }

  /** What readers get for one group: the interface filter and every socket's own filter. */
  datatype DispatchGroup = DispatchGroup(filter: FilterRef, members: map<Endpoint, FilterRef>)

  class GroupState {
    var members: map<Endpoint, FilterRef>
    var aggregate: FilterRef
    var dispatch: Option<DispatchGroup>
    /** The sockets' filters and their merge, as values. */
    ghost var values: map<Endpoint, Filter>

    constructor ()
      ensures members == map[] && dispatch == None && values == map[]
    {
      members, aggregate, dispatch := map[], FilterRef(Include, null), None;
      values := map[];
    }

    /** Replaces the group's membership and publishes one immutable entry for readers. */
    method Publish(members: map<Endpoint, FilterRef>, aggregate: FilterRef, ghost values: map<Endpoint, Filter>)
      requires Holds(members, values) && GoodMerge(values, ValueOf(aggregate))
      modifies this
      ensures Settled() && this.members == members && this.aggregate == aggregate && this.values == values
    {
      this.members, this.aggregate, this.dispatch := members, aggregate, Some(DispatchGroup(aggregate, members));
      this.values := values;
    }

    /** The merge is right and readers see it. */
    ghost predicate Settled()
      reads this, MapsOf(members), aggregate.sources
    {
      && Holds(members, values)
      && GoodMerge(values, ValueOf(aggregate))
      && dispatch == Some(DispatchGroup(aggregate, members))
    }
  }

  /** A nonempty group without empty INCLUDE filters, and its interface filter. */
  ghost predicate GoodMerge(values: map<Endpoint, Filter>, f: Filter) {
    values != map[] && NoneEmpty(values) && f == Interface(values)
  }

  /** No socket keeps an INCLUDE filter of nothing: that is a leave. */
  predicate NoneEmpty(values: map<Endpoint, Filter>) {
    forall e :: e in values ==> values[e] != NOTHING
  }

  /** Merges the members' filters; a single member's own filter is shared instead of copied. */
  method AggregateMulticastFilter(members: map<Endpoint, FilterRef>, ghost values: map<Endpoint, Filter>) returns (result: FilterRef)
    requires members != map[] && Holds(members, values)
    ensures ValueOf(result) == Interface(values)
    ensures result.sources == null || fresh(result.sources) || result.sources in MapsOf(members)
  {
    if |members| == 1 {
      var e :| e in members;
      OneMember(members, values, e);
      return members[e];
    }
    var mode, sources := MergeSources(members, values);
    var own := new SourceMap(sources);
    result := FilterRef(mode, own);
  }

  /** One pass over the members: sources listed by INCLUDE filters, and sources every EXCLUDE filter rejects. */
  method MergeSources(members: map<Endpoint, FilterRef>, ghost values: map<Endpoint, Filter>) returns (mode: Mode, result: set<Source>)
    requires Holds(members, values)
    ensures Filter(mode, result) == Interface(values)
  {
    var sources, listed := {}, {};
    mode := Include;
    var rest := members.Keys;
    while rest != {}
      invariant rest <= members.Keys
      invariant MergedOver(values, values.Keys - rest, mode, listed, sources)
      decreases |rest|
    {
      var e :| e in rest;
      NextMember(values, rest, e, mode, listed, sources);
      rest := rest - {e};
      var some := Elements(members[e].sources);
      assert some == values[e].sources && members[e].mode == values[e].mode;
      if members[e].mode == Include {
        listed := listed + some;
      } else if mode == Include {
        mode, sources := Exclude, some;
      } else {
        sources := sources * some;
      }
    }
    assert values.Keys - {} == values.Keys;
    MergedAll(values, mode, listed, sources);
    result := if mode == Include then listed else sources - listed;
  }

  /** The merge of the members in `seen`. */
  ghost predicate MergedOver(values: map<Endpoint, Filter>, seen: set<Endpoint>, mode: Mode, listed: set<Source>, sources: set<Source>)
    requires seen <= values.Keys
  {
    && (mode == Exclude <==> exists e :: e in seen && values[e].mode == Exclude)
    && (forall s :: s in listed <==> exists e :: e in seen && values[e].mode == Include && s in values[e].sources)
    && (mode == Exclude ==> forall s :: s in sources <==> forall e :: e in seen && values[e].mode == Exclude ==> s in values[e].sources)
  }

  lemma MergeOneMore(values: map<Endpoint, Filter>, seen: set<Endpoint>, e: Endpoint, mode: Mode, listed: set<Source>, sources: set<Source>)
    requires seen <= values.Keys && e in values && MergedOver(values, seen, mode, listed, sources)
    ensures values[e].mode == Include ==> MergedOver(values, seen + {e}, mode, listed + values[e].sources, sources)
    ensures values[e].mode == Exclude ==>
      MergedOver(values, seen + {e}, Exclude, listed, if mode == Include then values[e].sources else sources * values[e].sources)
  {
  }

  lemma NextMember(values: map<Endpoint, Filter>, rest: set<Endpoint>, e: Endpoint, mode: Mode, listed: set<Source>, sources: set<Source>)
    requires rest <= values.Keys && e in rest && MergedOver(values, values.Keys - rest, mode, listed, sources)
    ensures values[e].mode == Include ==> MergedOver(values, values.Keys - (rest - {e}), mode, listed + values[e].sources, sources)
    ensures values[e].mode == Exclude && mode == Include ==> MergedOver(values, values.Keys - (rest - {e}), Exclude, listed, values[e].sources)
    ensures values[e].mode == Exclude && mode == Exclude ==>
      MergedOver(values, values.Keys - (rest - {e}), Exclude, listed, sources * values[e].sources)
  {
    MergeOneMore(values, values.Keys - rest, e, mode, listed, sources);
    assert values.Keys - rest + {e} == values.Keys - (rest - {e});
  }

  lemma MergedAll(values: map<Endpoint, Filter>, mode: Mode, listed: set<Source>, sources: set<Source>)
    requires MergedOver(values, values.Keys, mode, listed, sources)
    ensures Filter(mode, if mode == Include then listed else sources - listed) == Interface(values)
  {
    var f := Filter(mode, if mode == Include then listed else sources - listed);
    forall s ensures f.Accepts(s) <==> exists e :: e in values && values[e].Accepts(s) {
      if mode == Exclude && s in listed {
        var e :| e in values && values[e].mode == Include && s in values[e].sources;
        assert values[e].Accepts(s);
      } else if mode == Exclude && s !in sources {
        var e :| e in values && values[e].mode == Exclude && s !in values[e].sources;
        assert values[e].Accepts(s);
      }
    }
    InterfaceIsUnique(values, f);
  }

  lemma OneMember(members: map<Endpoint, FilterRef>, values: map<Endpoint, Filter>, e: Endpoint)
    requires |members| == 1 && e in members && Holds(members, values)
    ensures ValueOf(members[e]) == Interface(values)
  {
    assert |members.Keys - {e}| == 0;
    assert forall d :: d in members ==> d == e || d in members.Keys - {e};
    assert values.Keys == {e};
    OneValue(values, e);
  }

  lemma OneValue(values: map<Endpoint, Filter>, e: Endpoint)
    requires values.Keys == {e}
    ensures values[e] == Interface(values)
  {
    assert e in values;
    forall s ensures values[e].Accepts(s) <==> exists d :: d in values && values[d].Accepts(s) {
      assert forall d :: d in values ==> d == e;
    }
    InterfaceIsUnique(values, values[e]);
  }

  // ---------------------------------------------------------------- one socket's filter

  /** What each operation makes of one socket's filter, or why it is refused; `None` is no membership. */
  function Applied(f: Option<Filter>, op: Operation, source: Source): (r: Result<Option<Filter>>) {
    match op
    case JoinAny => if f.Some? then Err(AddressInUse) else Ok(Some(Filter(Exclude, {})))
    case LeaveGroup => if f.None? then Err(NotAvailable) else Ok(None)
    case JoinSource =>
      if f.None? then Ok(Some(Filter(Include, {source})))
      else if f.value.mode != Include then Err(Invalid)
      else if source in f.value.sources then Err(AddressInUse)
      else Ok(Some(Filter(Include, f.value.sources + {source})))
    case LeaveSource =>
      if f.None? || f.value.mode != Include then Err(Invalid)
      else if source !in f.value.sources then Err(NotAvailable)
      else if f.value.sources == {source} then Ok(None)
      else Ok(Some(Filter(Include, f.value.sources - {source})))
    case ExcludeSource =>
      if f.None? || f.value.mode != Exclude then Err(Invalid)
      else if source in f.value.sources then Err(AddressInUse)
      else Ok(Some(Filter(Exclude, f.value.sources + {source})))
    case IncludeSource =>
      if f.None? || f.value.mode != Exclude then Err(Invalid)
      else if source !in f.value.sources then Err(NotAvailable)
      else Ok(Some(Filter(Exclude, f.value.sources - {source})))
  }

  /** Detaches a filter's source set from the one that snapshots share. */
  method CloneMulticastFilter(f: FilterRef) returns (copy: SourceMap)
    ensures fresh(copy) && copy.elements == Elements(f.sources)
  {
    copy := new SourceMap(Elements(f.sources));
  }

  /** Applies one operation to a private copy of the filter. */
  method ApplyOperation(current: Option<FilterRef>, op: Operation, source: Source) returns (r: Result<Option<FilterRef>>)
    ensures var spec := Applied(if current.Some? then Some(ValueOf(current.value)) else None, op, source);
      && (r.Err? <==> spec.Err?) && (r.Err? ==> r.error == spec.error)
      && (r.Ok? ==> (r.value.Some? <==> spec.value.Some?))
      && (r.Ok? && r.value.Some? ==> r.value.value.sources != null && fresh(r.value.value.sources))
      && (r.Ok? && r.value.Some? ==> ValueOf(r.value.value) == spec.value.value)
  {
    var listed := current.Some? && source in Elements(current.value.sources);
    match op {
      case JoinAny => if current.Some? { return Err(AddressInUse); }
      case LeaveGroup => if current.None? { return Err(NotAvailable); }
      case JoinSource =>
        if current.Some? && current.value.mode != Include { return Err(Invalid); }
        if listed { return Err(AddressInUse); }
      case LeaveSource =>
        if current.None? || current.value.mode != Include { return Err(Invalid); }
        if !listed { return Err(NotAvailable); }
      case ExcludeSource =>
        if current.None? || current.value.mode != Exclude { return Err(Invalid); }
        if listed { return Err(AddressInUse); }
      case IncludeSource =>
        if current.None? || current.value.mode != Exclude { return Err(Invalid); }
        if !listed { return Err(NotAvailable); }
    }
    if op == LeaveGroup {
      return Ok(None);
    }
    var sources: SourceMap;
    if current.Some? {
      sources := CloneMulticastFilter(current.value);
    } else {
      sources := new SourceMap({});
    }
    if op == JoinSource || op == ExcludeSource {
      sources.Add(source);
    } else if op == LeaveSource || op == IncludeSource {
      sources.Delete(source);
    }
    if op == LeaveSource && sources.elements == {} {
      return Ok(None);
    }
    r := Ok(Some(FilterRef(if op == JoinAny || op == ExcludeSource || op == IncludeSource then Exclude else Include, sources)));
  }

  // ---------------------------------------------------------------- the interface's state

  /** One group of the memberships replaced. */
  function WithGroup(view: map<Group, map<Endpoint, Filter>>, a: Group, members: map<Endpoint, Filter>): (r: map<Group, map<Endpoint, Filter>>) {
    if members == map[] then view - {a} else view[a := members]
  }

  /** Every socket's filter for every group, as values. */
  function Updated(view: map<Group, map<Endpoint, Filter>>, a: Group, e: Endpoint, f: Option<Filter>): (r: map<Group, map<Endpoint, Filter>>) {
    var mine := if a in view then view[a] else map[];
    WithGroup(view, a, if f.Some? then mine[e := f.value] else mine - {e})
  }

  /** How many groups of one family routers must hear of. */
  ghost function Count(keys: set<Group>, v6: bool): (n: nat) {
    |Members(keys, v6)|
  }

  ghost function Members(keys: set<Group>, v6: bool): (members: set<Group>) {
    set g | g in keys && g.reported && g.v6 == v6
  }

  lemma CountChanges(keys: set<Group>, a: Group, v6: bool)
    ensures a !in keys ==> Count(keys + {a}, v6) == Count(keys, v6) + if a.reported && a.v6 == v6 then 1 else 0
    ensures a in keys ==> Count(keys - {a}, v6) == Count(keys, v6) - if a.reported && a.v6 == v6 then 1 else 0
  {
    var members := Members(keys, v6);
    MembersChange(keys, a, v6);
    if a.reported && a.v6 == v6 {
      assert a in members <==> a in keys;
      assert a !in members ==> |members + {a}| == |members| + 1;
      assert a in members ==> |members - {a}| == |members| - 1;
    }
  }

  lemma MembersChange(keys: set<Group>, a: Group, v6: bool)
    ensures Members(keys + {a}, v6) == if a.reported && a.v6 == v6 then Members(keys, v6) + {a} else Members(keys, v6)
    ensures Members(keys - {a}, v6) == if a.reported && a.v6 == v6 then Members(keys, v6) - {a} else Members(keys, v6)
  {
  }

  /** What one transition of the interface filter leaves to announce; implicit groups are never announced. */
  function Announced(pending: map<Group, Pending>, a: Group, before: Filter, wasJoined: bool, current: Filter, joined: bool, robustness: nat): (r: map<Group, Pending>) {
    var noted := Noted(if a in pending then Some(pending[a]) else None, before, wasJoined, current, joined, robustness);
    if a.reported && noted.Some? then pending[a := noted.value] else pending
  }

  /** The interface filter of one group; that of a group nobody joined is INCLUDE of nothing. */
  function InterfaceIn(view: map<Group, map<Endpoint, Filter>>, a: Group): (f: Filter) {
    if a in view then Interface(view[a]) else NOTHING
  }

  /** A socket's filter for a group, if it has joined. */
  function HeldIn(view: map<Group, map<Endpoint, Filter>>, a: Group, e: Endpoint): (f: Option<Filter>) {
    if a in view && e in view[a] then Some(view[a][e]) else None
  }

  /** Every pending announcement is about a reported group and carries its interface filter. */
  ghost predicate Current(pending: map<Group, Pending>, view: map<Group, map<Endpoint, Filter>>) {
    forall a :: a in pending ==>
      a.reported && pending[a].filter == InterfaceIn(view, a) && (pending[a].joined <==> a in view)
  }

  /** What the transition from one membership to another, in one group, leaves to announce. */
  function Transition(pending: map<Group, Pending>, a: Group, before: map<Group, map<Endpoint, Filter>>, after: map<Group, map<Endpoint, Filter>>, robustness: nat): (r: map<Group, Pending>) {
    Announced(pending, a, InterfaceIn(before, a), a in before, InterfaceIn(after, a), a in after, robustness)
  }

  /** A transition keeps every announcement current. */
  lemma TransitionIsCurrent(pending: map<Group, Pending>, a: Group, before: map<Group, map<Endpoint, Filter>>, members: map<Endpoint, Filter>, robustness: nat)
    requires Current(pending, before)
    ensures Current(Transition(pending, a, before, WithGroup(before, a, members), robustness), WithGroup(before, a, members))
  {
    var after := WithGroup(before, a, members);
    AnnouncedIsCurrent(pending, a, InterfaceIn(before, a), a in before, InterfaceIn(after, a), a in after, robustness);
    forall g | g != a ensures InterfaceIn(after, g) == InterfaceIn(before, g) && (g in after <==> g in before) {
    }
  }

  /** In every group visited, what is pending is what its transition leaves; in the others it is as before. */
  ghost predicate AnnouncedIn(pending: map<Group, Pending>, before: map<Group, map<Endpoint, Filter>>, done: set<Group>,
                              now: map<Group, Pending>, view: map<Group, map<Endpoint, Filter>>, robustness: nat) {
    forall a :: SameFor(now, if a in done then Transition(pending, a, before, view, robustness) else pending, a)
  }

  predicate SameFor(x: map<Group, Pending>, y: map<Group, Pending>, a: Group) {
    (a in x <==> a in y) && (a in x ==> x[a] == y[a])
  }

  lemma NothingToAnnounce(pending: map<Group, Pending>, a: Group, view: map<Group, map<Endpoint, Filter>>, robustness: nat)
    ensures Transition(pending, a, view, view, robustness) == pending
  {
  }

  lemma AnnouncedNext(pending: map<Group, Pending>, before: map<Group, map<Endpoint, Filter>>, keys: set<Group>,
                      now: map<Group, Pending>, view: map<Group, map<Endpoint, Filter>>, a: Group, members: map<Endpoint, Filter>, robustness: nat)
    requires AnnouncedIn(pending, before, before.Keys - keys, now, view, robustness)
    requires a in keys && keys <= before.Keys && a in view && view[a] == before[a]
    ensures AnnouncedIn(pending, before, before.Keys - (keys - {a}), Transition(now, a, view, WithGroup(view, a, members), robustness),
                        WithGroup(view, a, members), robustness)
  {
    var after := WithGroup(view, a, members);
    var next := Transition(now, a, view, after, robustness);
    forall g ensures SameFor(next, if g in before.Keys - (keys - {a}) then Transition(pending, g, before, after, robustness) else pending, g) {
      assert SameFor(now, if g in before.Keys - keys then Transition(pending, g, before, view, robustness) else pending, g);
      if g != a {
        assert InterfaceIn(after, g) == InterfaceIn(view, g) && (g in after <==> g in view);
      }
    }
  }

  lemma AnnouncedIsCurrent(pending: map<Group, Pending>, a: Group, before: Filter, wasJoined: bool, current: Filter, joined: bool, robustness: nat)
    requires a in pending ==> a.reported && pending[a].filter == before && pending[a].joined == wasJoined
    ensures var r := Announced(pending, a, before, wasJoined, current, joined, robustness);
      && (a in r ==> a.reported && r[a].filter == current && r[a].joined == joined)
      && (forall g :: g != a ==> (g in r <==> g in pending) && (g in r ==> r[g] == pending[g]))
  {
  }

  lemma WithGroupIs(before: map<Group, map<Endpoint, Filter>>, after: map<Group, map<Endpoint, Filter>>, a: Group, members: map<Endpoint, Filter>)
    requires after.Keys == (if members == map[] then before.Keys - {a} else before.Keys + {a})
    requires a in after ==> after[a] == members
    requires forall g :: g in after && g != a ==> after[g] == before[g]
    ensures after == WithGroup(before, a, members)
  {
  }

  /** A group stays settled when neither it nor any older source set is written. */
  twostate lemma UntouchedStaysSettled(state: GroupState)
    requires old(state.Settled())
    requires state.members == old(state.members) && state.aggregate == old(state.aggregate)
    requires state.dispatch == old(state.dispatch) && state.values == old(state.values)
    requires forall m: SourceMap {:trigger m.elements} :: old(allocated(m)) ==> m.elements == old(m.elements)
    ensures state.Settled()
  {
    forall e | e in state.members ensures ValueOf(state.members[e]) == state.values[e] {
      assert old(allocated(state.members[e].sources));
      assert old(ValueOf(state.members[e])) == state.values[e];
    }
    assert old(allocated(state.aggregate.sources));
  }

  twostate lemma StaySettled(others: set<GroupState>)
    requires forall o: GroupState :: o in others ==> old(allocated(o)) && old(o.Settled())
    requires forall o: GroupState :: o in others ==> unchanged(o)
    requires forall m: SourceMap {:trigger m.elements} :: old(allocated(m)) ==> m.elements == old(m.elements)
    ensures forall o: GroupState :: o in others ==> o.Settled()
  {
    forall o: GroupState | o in others ensures o.Settled() {
      UntouchedStaysSettled(o);
    }
  }

  /** What readers find by `index` while groups are going: each group still there, and nothing for those that have gone. */
  ghost predicate Safe(index: map<Group, GroupState>, groups: map<Group, GroupState>)
    reads index.Values
  {
    && (forall a, b :: a in index && b in index && index[a] == index[b] ==> a == b)
    && (forall a :: a in groups ==> a in index && index[a] == groups[a])
    && (forall a :: a in index && a !in groups ==> index[a].dispatch == None)
  }

  lemma HoldsChanged(members: map<Endpoint, FilterRef>, values: map<Endpoint, Filter>, e: Endpoint, f: Option<FilterRef>, value: Option<Filter>)
    requires Holds(members, values) && NoneEmpty(values)
    requires (f.Some? <==> value.Some?) && (f.Some? ==> ValueOf(f.value) == value.value != NOTHING)
    ensures f.Some? ==> Holds(members[e := f.value], values[e := value.value]) && NoneEmpty(values[e := value.value])
    ensures f.None? ==> Holds(members - {e}, values - {e}) && NoneEmpty(values - {e})
  {
  }

  class MulticastState {
    var groups: map<Group, GroupState>
    /** The published address index that readers load without the lock. */
    var index: map<Group, GroupState>
    var groups4: int
    var groups6: int
    var retransmissions: map<Group, Pending>
    const robustness: nat

    /** The interface filter of one group. */
    ghost function InterfaceOf(a: Group): Filter
      reads *
    {
      if a in groups then ValueOf(groups[a].aggregate) else NOTHING
    }

    ghost predicate Injective()
      reads this
    {
      forall a, b :: a in groups && b in groups && groups[a] == groups[b] ==> a == b
    }

    ghost predicate Counted()
      reads this
    {
      groups4 == Count(groups.Keys, false) && groups6 == Count(groups.Keys, true)
    }

    ghost predicate AllSettled()
      reads *
    {
      forall a {:trigger groups[a].Settled()} :: a in groups ==> groups[a].Settled()
    }

    /** What is still to be announced describes the interface filter as it is. */
    ghost predicate PendingCurrent()
      reads this, groups.Values
    {
      Current(retransmissions, View())
    }

    /** Everything but the index and the announcements. */
    ghost predicate Sound()
      reads *
    {
      Injective() && Counted() && AllSettled()
    }

    ghost predicate Valid()
      reads *
    {
      Sound() && PendingCurrent() && index == groups
    }

    constructor (robustness: nat)
      ensures Valid() && groups == map[] && retransmissions == map[] && this.robustness == robustness
    {
      groups, index, groups4, groups6, retransmissions := map[], map[], 0, 0, map[];
      this.robustness := robustness;
    }

    /** Publishes the active address-to-group index. */
    method RebuildDispatchIndex()
      modifies this`index
      ensures index == groups
    {
      index := groups;
    }

    /** Publishes one group's entry; the index only when the group is not in it as such. */
    method RebuildGroupDispatch(a: Group)
      modifies this`index, groups.Values
      ensures a in groups ==> groups[a].dispatch == Some(DispatchGroup(groups[a].aggregate, groups[a].members))
      ensures a in groups ==> groups[a].members == old(groups[a].members) && groups[a].aggregate == old(groups[a].aggregate)
      ensures forall o :: o in groups.Values && (a !in groups || o != groups[a]) ==> unchanged(o)
      ensures index == (if a in groups && a in old(index) && old(index)[a] == groups[a] then old(index) else groups)
    {
      if a !in groups {
        RebuildDispatchIndex();
        return;
      }
      var state := groups[a];
      state.dispatch := Some(DispatchGroup(state.aggregate, state.members));
      if a !in index || index[a] != state {
        RebuildDispatchIndex();
      }
    }

    /** Removes one empty group and its family count. */
    method RemoveGroup(a: Group, state: GroupState)
      requires a in groups && groups[a] == state && Counted()
      modifies this`groups, this`groups4, this`groups6, state`dispatch
      ensures groups == old(groups) - {a} && Counted()
      ensures state.dispatch == None
    {
      CountChanges(groups.Keys, a, false);
      CountChanges(groups.Keys, a, true);
      state.dispatch := None;
      assert (groups - {a}).Keys == groups.Keys - {a};
      groups := groups - {a};
      if a.reported {
        if a.v6 {
          groups6 := groups6 - 1;
        } else {
          groups4 := groups4 - 1;
        }
      }
    }

    /** The state of a group, created on first use. */
    method GroupFor(a: Group) returns (state: GroupState)
      requires Counted()
      modifies this`groups, this`groups4, this`groups6
      ensures Counted() && a in groups && groups[a] == state
      ensures a in old(groups) ==> groups == old(groups)
      ensures a !in old(groups) ==> fresh(state) && groups == old(groups)[a := state]
    {
      if a in groups {
        return groups[a];
      }
      CountChanges(groups.Keys, a, false);
      CountChanges(groups.Keys, a, true);
      state := new GroupState();
      assert (groups[a := state]).Keys == groups.Keys + {a};
      groups := groups[a := state];
      if a.reported {
        if a.v6 {
          groups6 := groups6 + 1;
        } else {
          groups4 := groups4 + 1;
        }
      }
    }

    /** Merges one transition of the interface filter into what is pending. */
    method InterfaceStateChanged(a: Group, before: Filter, wasJoined: bool, current: Filter, joined: bool)
      modifies this`retransmissions
      ensures retransmissions == Announced(old(retransmissions), a, before, wasJoined, current, joined, robustness)
    {
      if (before == current && wasJoined == joined) || !a.reported {
        assert a in retransmissions ==> retransmissions[a := retransmissions[a]] == retransmissions;
        return;
      }
      var pending := if a in retransmissions then retransmissions[a] else NEVER;
      retransmissions := retransmissions[a := Merged(pending, before, current, joined, robustness)];
    }

    /** The group's new members are merged, announced and published; an empty group goes. */
    method Commit(a: Group, members: map<Endpoint, FilterRef>, ghost values: map<Endpoint, Filter>, deferIndex: bool)
      requires Sound() && Holds(members, values) && NoneEmpty(values)
      requires members != map[] || a in groups
      requires if deferIndex then a in groups && a in index && index[a] == groups[a] else index == groups
      modifies this`groups, this`index, this`groups4, this`groups6, this`retransmissions, if a in groups then {groups[a]} else {}
      ensures Sound()
      ensures groups.Keys == if members == map[] then old(groups).Keys - {a} else old(groups).Keys + {a}
      ensures forall g :: g in groups && g != a ==> g in old(groups) && groups[g] == old(groups)[g] && unchanged(groups[g])
      ensures a in groups ==> groups[a].values == values && (if a in old(groups) then groups[a] == old(groups)[a] else fresh(groups[a]))
      ensures a in old(groups) && members == map[] ==> old(groups)[a].dispatch == None
      ensures retransmissions == Announced(old(retransmissions), a, old(InterfaceOf(a)), a in old(groups), InterfaceOf(a), a in groups, robustness)
      ensures index == if deferIndex then old(index) else groups
    {
      if members == map[] {
        CommitEmpty(a, deferIndex);
      } else {
        CommitMembers(a, members, values, deferIndex);
      }
    }

    /** The last member has left. */
    method CommitEmpty(a: Group, deferIndex: bool)
      requires Sound() && a in groups
      modifies this`groups, this`index, this`groups4, this`groups6, this`retransmissions, groups[a]
      ensures Sound() && groups == old(groups) - {a} && old(groups)[a].dispatch == None
      ensures retransmissions == Announced(old(retransmissions), a, old(InterfaceOf(a)), true, NOTHING, false, robustness)
      ensures index == if deferIndex then old(index) else groups
    {
      Retire(a, groups[a], deferIndex);
      StaySettled(set g | g in groups :: groups[g]);
    }

    /** Takes an empty group out of the maps, tells routers, and withdraws what readers saw. */
    method Retire(a: Group, state: GroupState, deferIndex: bool)
      requires Counted() && a in groups && groups[a] == state
      modifies this`groups, this`index, this`groups4, this`groups6, this`retransmissions, state
      ensures Counted() && groups == old(groups) - {a} && state.dispatch == None
      ensures retransmissions == Announced(old(retransmissions), a, old(InterfaceOf(a)), true, NOTHING, false, robustness)
      ensures index == if deferIndex then old(index) else groups
    {
      var before := ValueOf(state.aggregate);
      state.members := map[];
      RemoveGroup(a, state);
      InterfaceStateChanged(a, before, true, NOTHING, false);
      if !deferIndex {
        RebuildDispatchIndex();
      }
    }

    /** A group with members is merged, announced and published. */
    method CommitMembers(a: Group, members: map<Endpoint, FilterRef>, ghost values: map<Endpoint, Filter>, deferIndex: bool)
      requires Sound() && Holds(members, values) && NoneEmpty(values) && members != map[]
      requires if deferIndex then a in groups && a in index && index[a] == groups[a] else index == groups
      modifies this`groups, this`index, this`groups4, this`groups6, this`retransmissions, if a in groups then {groups[a]} else {}
      ensures Sound()
      ensures a in groups && groups.Keys == old(groups).Keys + {a} && groups[a].values == values
      ensures if a in old(groups) then groups[a] == old(groups)[a] else fresh(groups[a])
      ensures forall g :: g in groups && g != a ==> g in old(groups) && groups[g] == old(groups)[g]
      ensures retransmissions == Announced(old(retransmissions), a, old(InterfaceOf(a)), a in old(groups), InterfaceOf(a), true, robustness)
      ensures index == if deferIndex then old(index) else groups
    {
      var state := Refresh(a, members, values);
      StaySettled(set g | g in groups && g != a :: groups[g]);
    }

    /** Merges the members into the group's state, tells routers, and publishes. */
    method Refresh(a: Group, members: map<Endpoint, FilterRef>, ghost values: map<Endpoint, Filter>) returns (state: GroupState)
      requires Counted() && Holds(members, values) && NoneEmpty(values) && members != map[]
      modifies this`groups, this`index, this`groups4, this`groups6, this`retransmissions, if a in groups then {groups[a]} else {}
      ensures Counted() && a in groups && groups[a] == state && state.Settled() && state.values == values
      ensures if a in old(groups) then groups == old(groups) else fresh(state) && groups == old(groups)[a := state]
      ensures retransmissions == Announced(old(retransmissions), a, old(InterfaceOf(a)), a in old(groups), InterfaceOf(a), true, robustness)
      ensures a in old(index) && old(index)[a] == state ==> index == old(index)
      ensures !(a in old(index) && old(index)[a] == state) ==> index == groups
      ensures forall m: SourceMap {:trigger m.elements} :: old(allocated(m)) ==> m.elements == old(m.elements)
    {
      state := MergeMembers(a, members, values);
      PublishState(a, state);
    }

    /** Merges the members into the group's state and tells routers. */
    method MergeMembers(a: Group, members: map<Endpoint, FilterRef>, ghost values: map<Endpoint, Filter>) returns (state: GroupState)
      requires Counted() && Holds(members, values) && NoneEmpty(values) && members != map[]
      modifies this`groups, this`groups4, this`groups6, this`retransmissions, if a in groups then {groups[a]} else {}
      ensures Counted() && a in groups && groups[a] == state && state.Settled() && state.values == values
      ensures if a in old(groups) then groups == old(groups) else fresh(state) && groups == old(groups)[a := state]
      ensures retransmissions == Announced(old(retransmissions), a, old(InterfaceOf(a)), a in old(groups), InterfaceOf(a), true, robustness)
      ensures forall m: SourceMap {:trigger m.elements} :: old(allocated(m)) ==> m.elements == old(m.elements)
    {
      var before, wasJoined := NOTHING, a in groups;
      if wasJoined {
        before := ValueOf(groups[a].aggregate);
      }
      state := Install(a, members, values);
      InterfaceStateChanged(a, before, wasJoined, ValueOf(state.aggregate), true);
    }

    /** Publishes the index if readers would not find the group's state by it. */
    method PublishState(a: Group, state: GroupState)
      modifies this`index
      ensures a in old(index) && old(index)[a] == state ==> index == old(index)
      ensures !(a in old(index) && old(index)[a] == state) ==> index == groups
    {
      if a !in index || index[a] != state {
        RebuildDispatchIndex();
      }
    }

    /** Merges the members into the group's state, which is created on first use. */
    method Install(a: Group, members: map<Endpoint, FilterRef>, ghost values: map<Endpoint, Filter>) returns (state: GroupState)
      requires Counted() && Holds(members, values) && NoneEmpty(values) && members != map[]
      modifies this`groups, this`groups4, this`groups6, if a in groups then {groups[a]} else {}
      ensures Counted() && a in groups && groups[a] == state && state.Settled() && state.values == values
      ensures if a in old(groups) then groups == old(groups) else fresh(state) && groups == old(groups)[a := state]
      ensures forall m: SourceMap {:trigger m.elements} :: old(allocated(m)) ==> m.elements == old(m.elements)
    {
      var aggregate := AggregateMulticastFilter(members, values);
      state := GroupFor(a);
      state.Publish(members, aggregate, values);
    }

    /** The memberships as values. */
    ghost function View(): map<Group, map<Endpoint, Filter>>
      reads this, groups.Values
    {
      map a | a in groups :: groups[a].values
    }

    /** One socket's filter for one group. */
    function FilterOf(a: Group, e: Endpoint): Option<FilterRef>
      reads this, groups.Values
    {
      if a in groups && e in groups[a].members then Some(groups[a].members[e]) else None
    }

    lemma FilterOfIsHeld(a: Group, e: Endpoint)
      requires AllSettled()
      ensures var f := FilterOf(a, e); HeldIn(View(), a, e) == if f.Some? then Some(ValueOf(f.value)) else None
    {
      assert a in groups ==> groups[a].Settled();
    }

    lemma InterfaceOfIs(a: Group)
      requires AllSettled()
      ensures InterfaceOf(a) == InterfaceIn(View(), a)
    {
      assert a in groups ==> groups[a].Settled();
    }

    /** The same, told by the memberships as values. */
    method CommitView(a: Group, members: map<Endpoint, FilterRef>, ghost values: map<Endpoint, Filter>, deferIndex: bool)
      requires Sound() && Holds(members, values) && NoneEmpty(values)
      requires members != map[] || a in groups
      requires if deferIndex then a in groups && a in index && index[a] == groups[a] else index == groups
      modifies this`groups, this`index, this`groups4, this`groups6, this`retransmissions, if a in groups then {groups[a]} else {}
      ensures Sound()
      ensures View() == WithGroup(old(View()), a, values)
      ensures forall g :: g in groups && g != a ==> g in old(groups) && groups[g] == old(groups)[g] && unchanged(groups[g])
      ensures a in groups && a in old(groups) ==> groups[a] == old(groups)[a]
      ensures old(groups).Keys - {a} <= groups.Keys <= old(groups).Keys + {a}
      ensures a !in groups && a in old(groups) ==> old(groups)[a].dispatch == None
      ensures retransmissions == Transition(old(retransmissions), a, old(View()), View(), robustness)
      ensures index == if deferIndex then old(index) else groups
    {
      ghost var before := View();
      InterfaceOfIs(a);
      Commit(a, members, values, deferIndex);
      InterfaceOfIs(a);
      assert members == map[] <==> values == map[] by {
        assert members.Keys == values.Keys;
      }
      WithGroupIs(before, View(), a, values);
    }

    /** The same, and what is pending stays current. */
    method CommitAnnounced(a: Group, members: map<Endpoint, FilterRef>, ghost values: map<Endpoint, Filter>, deferIndex: bool)
      requires PendingCurrent()
      requires Sound() && Holds(members, values) && NoneEmpty(values)
      requires members != map[] || a in groups
      requires if deferIndex then a in groups && a in index && index[a] == groups[a] else index == groups
      modifies this`groups, this`index, this`groups4, this`groups6, this`retransmissions, if a in groups then {groups[a]} else {}
      ensures PendingCurrent()
      ensures Sound()
      ensures View() == WithGroup(old(View()), a, values)
      ensures forall g :: g in groups && g != a ==> g in old(groups) && groups[g] == old(groups)[g]
      ensures a in groups && a in old(groups) ==> groups[a] == old(groups)[a]
      ensures old(groups).Keys - {a} <= groups.Keys <= old(groups).Keys + {a}
      ensures a !in groups && a in old(groups) ==> old(groups)[a].dispatch == None
      ensures retransmissions == Transition(old(retransmissions), a, old(View()), View(), robustness)
      ensures index == if deferIndex then old(index) else groups
    {
      TransitionIsCurrent(retransmissions, a, View(), values, robustness);
      CommitView(a, members, values, deferIndex);
    }

    /** Replaces or removes one socket's filter in one group. */
    method SetMember(a: Group, e: Endpoint, f: Option<FilterRef>, ghost value: Option<Filter>, deferIndex: bool)
      requires PendingCurrent()
      requires Sound() && (f.Some? <==> value.Some?) && (f.Some? ==> ValueOf(f.value) == value.value != NOTHING)
      requires f.None? ==> a in groups
      requires if deferIndex then a in groups && a in index && index[a] == groups[a] else index == groups
      modifies this`groups, this`index, this`groups4, this`groups6, this`retransmissions, if a in groups then {groups[a]} else {}
      ensures PendingCurrent()
      ensures Sound()
      ensures View() == Updated(old(View()), a, e, value)
      ensures forall g :: g in groups && g != a ==> g in old(groups) && groups[g] == old(groups)[g]
      ensures a in groups && a in old(groups) ==> groups[a] == old(groups)[a]
      ensures old(groups).Keys - {a} <= groups.Keys <= old(groups).Keys + {a}
      ensures a !in groups && a in old(groups) ==> old(groups)[a].dispatch == None
      ensures retransmissions == Transition(old(retransmissions), a, old(View()), View(), robustness)
      ensures index == if deferIndex then old(index) else groups
    {
      var members := if a in groups then groups[a].members else map[];
      ghost var values: map<Endpoint, Filter> := if a in groups then groups[a].values else map[];
      assert a in groups ==> groups[a].Settled();
      HoldsChanged(members, values, e, f, value);
      members := if f.Some? then members[e := f.value] else members - {e};
      values := if f.Some? then values[e := value.value] else values - {e};
      assert f.Some? ==> e in members;
      CommitAnnounced(a, members, values, deferIndex);
    }

    /** Applies one membership change of one socket. */
    method Change(e: Endpoint, op: Operation, a: Group, source: Source) returns (r: Result<()>)
      requires Valid()
      modifies this, if a in groups then {groups[a]} else {}
      ensures Valid()
      ensures var spec := Applied(HeldIn(old(View()), a, e), op, source);
        && (r.Err? <==> spec.Err?) && (r.Err? ==> r.error == spec.error && View() == old(View()))
        && (r.Ok? ==> View() == Updated(old(View()), a, e, spec.value))
      ensures retransmissions == Transition(old(retransmissions), a, old(View()), View(), robustness)
    {
      var current := FilterOf(a, e);
      ghost var before, spec := View(), Applied(HeldIn(View(), a, e), op, source);
      FilterOfIsHeld(a, e);
      var changed := ApplyOperation(current, op, source);
      if changed.Err? {
        assert View() == before;
        return Err(changed.error);
      }
      SetMember(a, e, changed.value, spec.value, false);
      assert View() == Updated(before, a, e, spec.value);
      return Ok(());
    }

    /** Replaces one socket's complete filter; a socket that never joined is refused. */
    method Set(e: Endpoint, a: Group, mode: Mode, sources: SourceMap) returns (r: Result<()>)
      requires Valid()
      modifies this, if a in groups then {groups[a]} else {}
      ensures Valid()
      ensures var f := Filter(mode, sources.elements); var joined := HeldIn(old(View()), a, e).Some?;
        && (r.Ok? <==> joined)
        && (r.Err? ==> r.error == (if f == NOTHING then NotAvailable else Invalid))
        && View() == (if joined then Updated(old(View()), a, e, if f == NOTHING then None else Some(f)) else old(View()))
      ensures retransmissions == Transition(old(retransmissions), a, old(View()), View(), robustness)
    {
      FilterOfIsHeld(a, e);
      if FilterOf(a, e).None? {
        return Err(if mode == Include && sources.elements == {} then NotAvailable else Invalid);
      }
      if mode == Include && sources.elements == {} {
        SetMember(a, e, None, None, false);
      } else {
        SetMember(a, e, Some(FilterRef(mode, sources)), Some(Filter(mode, sources.elements)), false);
      }
      return Ok(());
    }

    // -------------------------------------------------------------- the readers

    /** Loads one immutable entry without the lock. */
    function LoadDispatchGroup(a: Group): (d: Option<DispatchGroup>)
      reads this, index.Values
    {
      if a in index then index[a].dispatch else None
    }

    /** Whether built-in protocols take a packet to the group from the source. */
    predicate AcceptsSource(a: Group, source: Source)
      reads *
    {
      a.allHosts || (var d := LoadDispatchGroup(a); d.Some? && ValueOf(d.value.filter).Accepts(source))
    }

    /** The interface accepts a source exactly when some socket's filter does, also while groups are being removed. */
    lemma InterfaceAcceptsWhatSomeSocketAccepts(a: Group, source: Source)
      requires Sound() && ReadersSafe() && !a.allHosts
      ensures AcceptsSource(a, source) <==> a in View() && exists e :: e in View()[a] && View()[a][e].Accepts(source)
    {
      if a in groups {
        assert groups[a].Settled();
        InterfaceAccepts(groups[a].values, source);
      }
    }

    /** Readers deliver to exactly the sockets that joined, each with its own filter. */
    lemma ReadersSeeEverySocket(a: Group)
      requires Sound() && ReadersSafe()
      ensures LoadDispatchGroup(a).Some? <==> a in View()
      ensures a in View() ==> Holds(LoadDispatchGroup(a).value.members, View()[a])
    {
      if a in groups {
        assert groups[a].Settled();
      }
    }

    /** No group without members and no INCLUDE filter without sources survives any operation. */
    lemma NothingEmpty(a: Group)
      requires Sound() && a in View()
      ensures View()[a] != map[] && NoneEmpty(View()[a])
    {
      assert groups[a].Settled();
    }

    /** What readers find while groups are going: each group still there, and nothing for those that have gone. */
    ghost predicate ReadersSafe()
      reads this, index.Values
    {
      Safe(index, groups)
    }

    /** Replaces one group's members while the index waits to be rebuilt. */
    method CommitDeferred(a: Group, members: map<Endpoint, FilterRef>, ghost values: map<Endpoint, Filter>)
      requires PendingCurrent()
      requires Sound() && ReadersSafe() && a in groups && Holds(members, values) && NoneEmpty(values)
      modifies this, groups[a]
      ensures PendingCurrent()
      ensures Sound() && ReadersSafe() && index == old(index)
      ensures View() == WithGroup(old(View()), a, values)
      ensures retransmissions == Transition(old(retransmissions), a, old(View()), View(), robustness)
      ensures old(groups).Keys - {a} <= groups.Keys <= old(groups).Keys
      ensures forall g :: g in groups ==> groups[g] == old(groups)[g]
    {
      ghost var state, before := groups[a], groups;
      CommitAnnounced(a, members, values, true);
      forall g | g in index && g !in groups ensures index[g].dispatch == None {
        if g != a {
          assert g !in before && index[g] != state && old(index[g].dispatch) == None;
        }
      }
    }

    /** One group of the sweep; a group it does not change is left alone, its filters still shared. */
    method Visit(a: Group, sweep: Sweep, ghost left: map<Endpoint, Filter>)
      requires PendingCurrent()
      requires Sound() && ReadersSafe() && a in groups && left == Swept(sweep, a, groups[a].values)
      modifies this, groups[a]
      ensures PendingCurrent()
      ensures Sound() && ReadersSafe()
      ensures View() == WithGroup(old(View()), a, left)
      ensures retransmissions == Transition(old(retransmissions), a, old(View()), View(), robustness)
      ensures old(groups).Keys - {a} <= groups.Keys <= old(groups).Keys
      ensures forall g :: g in groups ==> groups[g] == old(groups)[g]
    {
      assert groups[a].Settled();
      ghost var before := View();
      var members, changed := SweepMembers(a, groups[a].members, groups[a].values, sweep);
      assert View() == before;
      if changed {
        CommitDeferred(a, members, left);
      } else {
        assert before[a] == groups[a].values;
        WithGroupIs(before, before, a, left);
        NothingToAnnounce(retransmissions, a, before, robustness);
      }
    }

    /** Visits one more of the groups in `keys`. */
    method VisitNext(keys: set<Group>, sweep: Sweep, ghost before: map<Group, map<Endpoint, Filter>>, ghost pending: map<Group, Pending>)
      returns (rest: set<Group>)
      requires PendingCurrent()
      requires keys != {} && keys <= groups.Keys && keys <= before.Keys && Sound() && ReadersSafe()
      requires AnnouncedIn(pending, before, before.Keys - keys, retransmissions, View(), robustness)
      requires View() == SweptIn(before, before.Keys - keys, sweep)
      modifies this, groups.Values
      ensures PendingCurrent()
      ensures rest < keys && rest <= groups.Keys <= old(groups).Keys && Sound() && ReadersSafe()
      ensures forall a :: a in groups ==> groups[a] == old(groups)[a]
      ensures AnnouncedIn(pending, before, before.Keys - rest, retransmissions, View(), robustness)
      ensures View() == SweptIn(before, before.Keys - rest, sweep)
    {
      var a :| a in keys;
      SweptNext(before, keys, a, sweep);
      SweptSoFar(before, keys, a, sweep);
      assert View()[a] == groups[a].values;
      ghost var left := Swept(sweep, a, groups[a].values);
      AnnouncedNext(pending, before, keys, retransmissions, View(), a, left, robustness);
      Visit(a, sweep, left);
      rest := keys - {a};
    }

    /** Visits every group while the index waits to be rebuilt. */
    method SweepGroups(sweep: Sweep)
      requires Valid()
      modifies this, groups.Values
      ensures PendingCurrent()
      ensures Sound() && ReadersSafe()
      ensures View() == SweptIn(old(View()), old(groups).Keys, sweep)
      ensures AnnouncedIn(old(retransmissions), old(View()), old(groups).Keys, retransmissions, View(), robustness)
    {
      ghost var before := View();
      ghost var pending := retransmissions;
      SweptStarts(before, sweep);
      assert before.Keys == groups.Keys;
      var keys := groups.Keys;
      while keys != {}
        invariant keys <= groups.Keys <= old(groups).Keys && Sound() && ReadersSafe() && PendingCurrent()
        invariant forall a :: a in groups ==> groups[a] == old(groups)[a]
        invariant View() == SweptIn(before, before.Keys - keys, sweep)
        invariant AnnouncedIn(pending, before, before.Keys - keys, retransmissions, View(), robustness)
        decreases keys
      {
        keys := VisitNext(keys, sweep, before, pending);
      }
      assert before.Keys - {} == old(groups).Keys;
    }

    /** Readers see the groups as they are now. */
    method PublishIndex()
      requires Sound() && PendingCurrent()
      modifies this`index
      ensures Valid() && View() == old(View())
    {
      RebuildDispatchIndex();
      StaySettled(set g | g in groups :: groups[g]);
      assert View() == old(View());
    }

    method SweepAndPublish(sweep: Sweep)
      requires Valid()
      modifies this, groups.Values
      ensures Valid()
      ensures View() == SweptAll(old(View()), sweep)
      ensures AnnouncedIn(old(retransmissions), old(View()), old(View()).Keys, retransmissions, View(), robustness)
    {
      ghost var before := View();
      assert before.Keys == groups.Keys;
      SweptEnds(before, sweep);
      SweepGroups(sweep);
      PublishIndex();
    }

    /** Drops every membership of one closing socket. */
    method RemoveEndpoint(e: Endpoint)
      requires Valid()
      modifies this, groups.Values
      ensures Valid()
      ensures View() == SweptAll(old(View()), Leaving(e))
      ensures AnnouncedIn(old(retransmissions), old(View()), old(View()).Keys, retransmissions, View(), robustness)
    {
      SweepAndPublish(Leaving(e));
    }

    /** Drops the sources that a prefix change made invalid, and the memberships left with nothing. */
    method RemoveInvalidSources(valid: (Source, Group) -> bool)
      requires Valid()
      modifies this, groups.Values
      ensures Valid()
      ensures View() == SweptAll(old(View()), Scrubbing(valid))
      ensures AnnouncedIn(old(retransmissions), old(View()), old(View()).Keys, retransmissions, View(), robustness)
    {
      SweepAndPublish(Scrubbing(valid));
    }
  }

  /** The members one sweep leaves, sharing every filter it does not change. */
  method SweepMembers(a: Group, members: map<Endpoint, FilterRef>, ghost values: map<Endpoint, Filter>, sweep: Sweep)
    returns (left: map<Endpoint, FilterRef>, changed: bool)
    requires Holds(members, values) && NoneEmpty(values)
    ensures Holds(left, Swept(sweep, a, values)) && NoneEmpty(Swept(sweep, a, values))
    ensures !changed ==> Swept(sweep, a, values) == values
  {
    match sweep {
      case Leaving(e) =>
        left, changed := members - {e}, e in members;
        assert e !in values ==> values - {e} == values;
      case Scrubbing(valid) =>
        left, changed := ScrubMembers(a, members, values, valid);
    }
  }

  /** Scrubs every member, copying only the filters that lose a source. */
  method ScrubMembers(a: Group, members: map<Endpoint, FilterRef>, ghost values: map<Endpoint, Filter>, valid: (Source, Group) -> bool)
    returns (left: map<Endpoint, FilterRef>, changed: bool)
    requires Holds(members, values) && NoneEmpty(values)
    ensures Holds(left, Swept(Scrubbing(valid), a, values))
    ensures !changed ==> Swept(Scrubbing(valid), a, values) == values
  {
    left, changed := members, false;
    var keys := members.Keys;
    while keys != {}
      invariant keys <= members.Keys
      invariant Holds(left, PartlyScrubbed(values, keys, valid, a))
      invariant !changed ==> PartlyScrubbed(values, keys, valid, a) == values
      decreases keys
    {
      var e :| e in keys;
      var f, scrubbed := ScrubFilter(members[e], valid, a);
      ScrubStep(values, keys, e, valid, a);
      if scrubbed {
        changed := true;
        left := if f.mode == Include && Elements(f.sources) == {} then left - {e} else left[e := f];
      }
      keys := keys - {e};
    }
  }

  /** The members once every endpoint outside `keys` has been scrubbed. */
  ghost function PartlyScrubbed(values: map<Endpoint, Filter>, keys: set<Endpoint>, valid: (Source, Group) -> bool, a: Group): (r: map<Endpoint, Filter>) {
    map e | e in values && (e in keys || Scrubbed(values[e], valid, a) != NOTHING) :: if e in keys then values[e] else Scrubbed(values[e], valid, a)
  }

  lemma ScrubStep(values: map<Endpoint, Filter>, keys: set<Endpoint>, e: Endpoint, valid: (Source, Group) -> bool, a: Group)
    requires e in keys && keys <= values.Keys && NoneEmpty(values)
    ensures var f := Scrubbed(values[e], valid, a); var before := PartlyScrubbed(values, keys, valid, a);
      PartlyScrubbed(values, keys - {e}, valid, a) == if f == NOTHING then before - {e} else before[e := f]
    ensures Scrubbed(values[e], valid, a) == values[e] ==> PartlyScrubbed(values, keys - {e}, valid, a) == PartlyScrubbed(values, keys, valid, a)
  {
  }

  /** Copies a filter only if it lists an invalid source. */
  method ScrubFilter(f: FilterRef, valid: (Source, Group) -> bool, a: Group) returns (r: FilterRef, changed: bool)
    ensures ValueOf(r) == Scrubbed(ValueOf(f), valid, a)
    ensures !changed ==> r == f && Scrubbed(ValueOf(f), valid, a) == ValueOf(f)
    ensures changed ==> r.sources != null && fresh(r.sources)
  {
    var updated: SourceMap? := null;
    var sources := Elements(f.sources);
    while sources != {}
      invariant sources <= Elements(f.sources)
      invariant updated == null ==> forall s :: s in Elements(f.sources) - sources ==> valid(s, a)
      invariant updated != null ==> fresh(updated)
      invariant updated != null ==> forall s :: s in updated.elements <==> s in Elements(f.sources) && (s in sources || valid(s, a))
      decreases |sources|
    {
      var s :| s in sources;
      sources := sources - {s};
      if !valid(s, a) {
        if updated == null {
          updated := CloneMulticastFilter(f);
        }
        updated.Delete(s);
      }
    }
    if updated == null {
      assert Scrubbed(ValueOf(f), valid, a).sources == ValueOf(f).sources;
      return f, false;
    }
    assert Scrubbed(ValueOf(f), valid, a).sources == updated.elements;
    return FilterRef(f.mode, updated), true;
  }

  /** What visits every group at once: a socket closes, or a prefix change makes sources invalid. */
  datatype Sweep = Leaving(endpoint: Endpoint) | Scrubbing(valid: (Source, Group) -> bool)

  /** A filter without its invalid sources. */
  function Scrubbed(f: Filter, valid: (Source, Group) -> bool, a: Group): (r: Filter) {
    Filter(f.mode, set s | s in f.sources && valid(s, a))
  }

  /** One group's members after the sweep; an INCLUDE filter left empty is gone. */
  function Swept(sweep: Sweep, a: Group, members: map<Endpoint, Filter>): (r: map<Endpoint, Filter>) {
    match sweep
    case Leaving(e) => members - {e}
    case Scrubbing(valid) => map e | e in members && Scrubbed(members[e], valid, a) != NOTHING :: Scrubbed(members[e], valid, a)
  }

  /** All memberships after the sweep; a group left without members is gone. */
  function SweptAll(view: map<Group, map<Endpoint, Filter>>, sweep: Sweep): (r: map<Group, map<Endpoint, Filter>>) {
    map a | a in view && Swept(sweep, a, view[a]) != map[] :: Swept(sweep, a, view[a])
  }

  /** The same when only the groups in `done` have been visited. */
  ghost function SweptIn(view: map<Group, map<Endpoint, Filter>>, done: set<Group>, sweep: Sweep): (r: map<Group, map<Endpoint, Filter>>) {
    map a | a in view && (a in done ==> Swept(sweep, a, view[a]) != map[]) :: if a in done then Swept(sweep, a, view[a]) else view[a]
  }

  lemma SweptSoFar(view: map<Group, map<Endpoint, Filter>>, keys: set<Group>, a: Group, sweep: Sweep)
    requires a in keys && keys <= view.Keys
    ensures a in SweptIn(view, view.Keys - keys, sweep) && SweptIn(view, view.Keys - keys, sweep)[a] == view[a]
  {
  }

  lemma SweptNext(view: map<Group, map<Endpoint, Filter>>, keys: set<Group>, a: Group, sweep: Sweep)
    requires a in keys && keys <= view.Keys
    ensures SweptIn(view, view.Keys - (keys - {a}), sweep) ==
      WithGroup(SweptIn(view, view.Keys - keys, sweep), a, Swept(sweep, a, SweptIn(view, view.Keys - keys, sweep)[a]))
    ensures a in SweptIn(view, view.Keys - keys, sweep)
  {
    assert SweptIn(view, view.Keys - keys, sweep)[a] == view[a];
  }

  lemma SweptEnds(view: map<Group, map<Endpoint, Filter>>, sweep: Sweep)
    ensures SweptIn(view, view.Keys, sweep) == SweptAll(view, sweep)
  {
  }

  lemma SweptStarts(view: map<Group, map<Endpoint, Filter>>, sweep: Sweep)
    ensures SweptIn(view, view.Keys - view.Keys, sweep) == view
  {
  }

  // ---------------------------------------------------------------- any operation, seen by a reader

  datatype Call =
    | OnChange(endpoint: Endpoint, op: Operation, group: Group, source: Source)
    | OnSet(endpoint: Endpoint, group: Group, mode: Mode, sources: SourceMap)
    | OnClose(endpoint: Endpoint)
    | OnPrefixChange(valid: (Source, Group) -> bool)

  /** Whatever happens to the memberships, an entry some reader already loaded keeps its every filter. */
  method SnapshotSurvives(state: MulticastState, held: DispatchGroup, call: Call)
    requires state.Valid()
    modifies state, state.groups.Values
    ensures state.Valid()
    ensures Values(held.members) == old(Values(held.members)) && ValueOf(held.filter) == old(ValueOf(held.filter))
  {
    Perform(state, call);
  }

  method Perform(state: MulticastState, call: Call)
    requires state.Valid()
    modifies state, state.groups.Values
    ensures state.Valid()
  {
    match call {
      case OnChange(e, op, a, source) => var r := state.Change(e, op, a, source);
      case OnSet(e, a, mode, sources) => var r := state.Set(e, a, mode, sources);
      case OnClose(e) => state.RemoveEndpoint(e);
      case OnPrefixChange(valid) => state.RemoveInvalidSources(valid);
    }
  }
}
