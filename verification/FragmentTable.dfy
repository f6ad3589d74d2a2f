/** The bounded table that holds one reassembly machine per incomplete datagram. */
module FragmentTable {
  import opened Wrappers
  import opened Bytes
  import opened Reassembly
  import Coverage

  const MAXIMUM_SETS := 128
  const MAXIMUM_PIECES := 256
  const MAXIMUM_BYTES := 4 * 1024 * 1024
  const SECOND := 1_000_000_000
  const IPV4_LIFETIME := 30 * SECOND
  const IPV6_LIFETIME := 60 * SECOND

  /** Identifies one fragmented datagram; internal loopback is kept apart from the link. */
  datatype Key = Key(source: seq<Byte>, target: seq<Byte>, identifier: nat, protocol: Byte, v6: bool, loopback: bool)

  /** One machine's state with its table bookkeeping. */
  datatype Entry = Entry(state: State, created: int, updated: int, accounted: int)

  function KeyOf(f: Fragment, loopback: bool): (k: Key) {
    Key(f.source, f.target, f.identifier, if f.v6 then 0 else f.protocol, f.v6, loopback)
  }

  function Lifetime(v6: bool): (d: int) {
    if v6 then IPV6_LIFETIME else IPV4_LIFETIME
  }

  function Expiry(e: Entry): (t: int) {
    e.created + Lifetime(e.state.v6)
  }

  // ---------------------------------------------------------------- accounting

  /** All octets charged to the table. */
  ghost function Total(m: map<Key, Entry>): (n: int)
    decreases |m|
  {
    if m == map[] then 0 else var k :| k in m; Total(m - {k}) + m[k].accounted
  }

  lemma {:induction false} TotalWithout(m: map<Key, Entry>, k: Key)
    requires k in m
    ensures Total(m) == Total(m - {k}) + m[k].accounted
    decreases |m|
  {
    var j :| j in m && Total(m) == Total(m - {j}) + m[j].accounted;
    if j != k {
      TotalWithout(m - {j}, k);
      TotalWithout(m - {k}, j);
      assert m - {j} - {k} == m - {k} - {j};
    }
  }

  lemma KeysUpdated<T>(m: map<Key, T>, k: Key, v: T)
    ensures (m[k := v]).Keys == m.Keys + {k}
    ensures |m[k := v]| == |m| + if k in m then 0 else 1
  {
    var n := m[k := v];
    assert n.Keys == m.Keys + {k};
    assert |n| == |n.Keys| && |m| == |m.Keys|;
    if k in m {
      assert n.Keys == m.Keys;
    }
  }

  lemma TotalUpdated(m: map<Key, Entry>, k: Key, e: Entry)
    ensures Total(m[k := e]) == Total(m) - (if k in m then m[k].accounted else 0) + e.accounted
  {
    TotalWithout(m[k := e], k);
    assert m[k := e] - {k} == m - {k};
    if k in m {
      TotalWithout(m, k);
    } else {
      assert m - {k} == m;
    }
  }

  lemma {:induction false} TotalNotNegative(m: map<Key, Entry>)
    requires forall k :: k in m ==> m[k].accounted >= 0
    ensures Total(m) >= 0
    decreases |m|
  {
    if m != map[] {
      var k :| k in m && Total(m) == Total(m - {k}) + m[k].accounted;
      TotalNotNegative(m - {k});
    }
  }

  /** The earliest of some arrival times. */
  function Earliest(times: seq<int>): (t: int)
    requires |times| > 0
    ensures t in times && forall i :: 0 <= i < |times| ==> t <= times[i]
  {
    if |times| == 1 then times[0]
    else
      var t := Earliest(times[..|times| - 1]);
      if times[|times| - 1] < t then times[|times| - 1] else t
  }

  /** One set as the table keeps it: sound, within the piece limit, fully charged, and dated by its earliest fragment. */
  ghost predicate EntryInv(k: Key, e: Entry, times: seq<int>) {
    && Inv(e.state) && e.state.v6 == k.v6
    && |e.state.pieces| <= MAXIMUM_PIECES
    && e.accounted == e.state.bytes
    && |times| > 0 && e.created == Earliest(times)
  }

  /** An expired set whose sender can be told, because the first fragment is there to quote. */
  predicate IsDue(e: Entry, now: int) {
    now >= Expiry(e) && e.state.firstPacket != []
  }

  class Table {
    var fragments: map<Key, Entry>
    var fragmentBytes: int
    var evictions: nat
    var timeouts: nat
    var closed: bool
    /** When each fragment of every present set arrived. */
    ghost var arrivals: map<Key, seq<int>>

    /** The books are straight: this holds whenever the lock is held. */
    ghost predicate Accounted() reads this {
      && fragments.Keys == arrivals.Keys
      && fragmentBytes == Total(fragments)
      && |fragments| <= MAXIMUM_SETS
    }

    /** What holds whenever the lock is free. */
    ghost predicate Valid() reads this {
      Accounted() && AllSound(fragments, arrivals) && 0 <= fragmentBytes <= MAXIMUM_BYTES
    }

    constructor ()
      ensures Valid() && fragments == map[] && !closed
    {
      fragments, fragmentBytes, evictions, timeouts, closed := map[], 0, 0, 0, false;
      arrivals := map[];
    }

    /** Deletes an entry and returns its octets to the budget. */
    method Remove(key: Key)
      requires Accounted()
      modifies this`fragments, this`fragmentBytes, this`arrivals
      ensures Accounted()
      ensures fragments == old(fragments) - {key} && arrivals == old(arrivals) - {key}
    {
      if key !in fragments {
        assert fragments - {key} == fragments && arrivals - {key} == arrivals;
        return;
      }
      TotalWithout(fragments, key);
      fragmentBytes := fragmentBytes - fragments[key].accounted;
      fragments := fragments - {key};
      arrivals := arrivals - {key};
    }

    /** Removes every expired set; those whose first fragment is known are due a diagnostic. */
    method Clean(now: int) returns (expired: map<Key, Entry>)
      requires Accounted()
      modifies this`fragments, this`fragmentBytes, this`arrivals, this`timeouts
      ensures Accounted()
      ensures forall k :: k in fragments <==> k in old(fragments) && now < Expiry(old(fragments)[k])
      ensures forall k :: k in fragments ==> fragments[k] == old(fragments)[k] && arrivals[k] == old(arrivals)[k]
      ensures timeouts == old(timeouts) + |old(fragments)| - |fragments| >= old(timeouts)
      ensures forall k :: k in expired <==> k in old(fragments) && IsDue(old(fragments)[k], now)
      ensures forall k :: k in expired ==> expired[k] == old(fragments)[k]
    {
      expired := map[];
      var keys := fragments.Keys;
      while keys != {}
        invariant Accounted() && keys <= fragments.Keys <= old(fragments).Keys
        invariant forall k :: k in fragments ==> fragments[k] == old(fragments)[k] && arrivals[k] == old(arrivals)[k]
        invariant forall k :: k in old(fragments) && k !in keys ==> (k in fragments <==> now < Expiry(old(fragments)[k]))
        invariant timeouts == old(timeouts) + |old(fragments)| - |fragments| >= old(timeouts)
        invariant forall k :: k in expired <==> k in old(fragments) && k !in keys && IsDue(old(fragments)[k], now)
        invariant forall k :: k in expired ==> expired[k] == old(fragments)[k]
        decreases |keys|
      {
        var k :| k in keys;
        var entry := fragments[k];
        keys := keys - {k};
        RemoveExpired(k, now);
        if now >= Expiry(entry) && |entry.state.firstPacket| != 0 {
          expired := expired[k := entry];
        }
      }
    }

    /** Removes one set if it has expired. */
    method RemoveExpired(key: Key, now: int)
      requires Accounted() && key in fragments
      modifies this`fragments, this`fragmentBytes, this`arrivals, this`timeouts
      ensures Accounted()
      ensures var gone := now >= Expiry(old(fragments)[key]);
        && fragments == (if gone then old(fragments) - {key} else old(fragments))
        && arrivals == (if gone then old(arrivals) - {key} else old(arrivals))
      ensures timeouts + |fragments| == old(timeouts) + |old(fragments)| && timeouts >= old(timeouts)
    {
      if now >= Expiry(fragments[key]) {
        Remove(key);
        timeouts := timeouts + 1;
        assert old(fragments).Keys == fragments.Keys + {key};
      }
    }

    /** The earliest pending deadline. */
    method NextExpiry() returns (next: Option<int>)
      ensures next.None? <==> fragments == map[]
      ensures next.Some? ==> (exists k :: k in fragments && Expiry(fragments[k]) == next.value)
      ensures next.Some? ==> forall k :: k in fragments ==> next.value <= Expiry(fragments[k])
    {
      next := None;
      var keys := fragments.Keys;
      while keys != {}
        invariant keys <= fragments.Keys
        invariant next.None? <==> keys == fragments.Keys
        invariant next.Some? ==> (exists k :: k in fragments && Expiry(fragments[k]) == next.value)
        invariant next.Some? ==> forall k :: k in fragments && k !in keys ==> next.value <= Expiry(fragments[k])
        decreases |keys|
      {
        var k :| k in keys;
        var expiry := Expiry(fragments[k]);
        if next.None? || expiry < next.value {
          next := Some(expiry);
        }
        keys := keys - {k};
      }
      assert fragments != map[] ==> fragments.Keys != {};
    }

    /** Removes the set that has gone longest without new octets, sparing `except`. */
    method EvictOldestExcept(except: Option<Key>) returns (found: bool, ghost gone: Key)
      requires Accounted()
      modifies this`fragments, this`fragmentBytes, this`arrivals, this`evictions
      ensures Accounted()
      ensures found <==> exists k :: k in old(fragments) && except != Some(k)
      ensures !found ==> fragments == old(fragments) && arrivals == old(arrivals) && evictions == old(evictions)
      ensures found ==> gone in old(fragments) && except != Some(gone) && evictions == old(evictions) + 1
      ensures found ==> fragments == old(fragments) - {gone} && arrivals == old(arrivals) - {gone}
      ensures found ==> forall k :: k in old(fragments) && except != Some(k) ==> old(fragments)[gone].updated <= old(fragments)[k].updated
    {
      var oldest: Option<Key> := None;
      var keys := fragments.Keys;
      while keys != {}
        invariant keys <= fragments.Keys
        invariant oldest.None? <==> forall k :: k in fragments && k !in keys ==> except == Some(k)
        invariant oldest.Some? ==> oldest.value in fragments && except != oldest
        invariant oldest.Some? ==> forall k :: k in fragments && k !in keys && except != Some(k) ==>
          fragments[oldest.value].updated <= fragments[k].updated
        decreases |keys|
      {
        var k :| k in keys;
        if except != Some(k) && (oldest.None? || fragments[k].updated < fragments[oldest.value].updated) {
          oldest := Some(k);
        }
        keys := keys - {k};
      }
      found := oldest.Some?;
      if oldest.Some? {
        gone := oldest.value;
        Remove(oldest.value);
        evictions := evictions + 1;
      } else {
        gone :| true;
      }
    }

    /** Drops whatever is held of one datagram. */
    method DiscardFragment(key: Key)
      requires Valid()
      modifies this`fragments, this`fragmentBytes, this`arrivals
      ensures Valid() && fragments == old(fragments) - {key}
    {
      WithinSound(fragments, arrivals, fragments - {key}, arrivals - {key});
      Remove(key);
    }

    /** Drops every datagram whose destination is no longer accepted. */
    method PruneFragments(accepts: (seq<Byte>, bool) -> bool)
      requires Valid()
      modifies this`fragments, this`fragmentBytes, this`arrivals
      ensures Valid()
      ensures forall k :: k in fragments <==> k in old(fragments) && accepts(k.target, k.loopback)
      ensures Within(fragments, old(fragments)) && Within(arrivals, old(arrivals))
    {
      RemoveRefused(accepts);
      WithinSound(old(fragments), old(arrivals), fragments, arrivals);
    }

    method RemoveRefused(accepts: (seq<Byte>, bool) -> bool)
      requires Accounted()
      modifies this`fragments, this`fragmentBytes, this`arrivals
      ensures Accounted()
      ensures forall k :: k in fragments <==> k in old(fragments) && accepts(k.target, k.loopback)
      ensures Within(fragments, old(fragments)) && Within(arrivals, old(arrivals))
    {
      var keys := fragments.Keys;
      while keys != {}
        invariant Accounted() && keys <= fragments.Keys
        invariant Within(fragments, old(fragments)) && Within(arrivals, old(arrivals))
        invariant forall k :: k in old(fragments) && k !in keys ==> (k in fragments <==> accepts(k.target, k.loopback))
        decreases |keys|
      {
        var k :| k in keys;
        keys := keys - {k};
        if !accepts(k.target, k.loopback) {
          Remove(k);
        }
      }
    }

    /** Makes room for one more set. */
    method MakeRoom()
      requires Accounted()
      modifies this`fragments, this`fragmentBytes, this`arrivals, this`evictions
      ensures Accounted() && |fragments| < MAXIMUM_SETS && evictions >= old(evictions)
      ensures Within(fragments, old(fragments)) && Within(arrivals, old(arrivals))
      ensures |old(fragments)| < MAXIMUM_SETS ==> evictions == old(evictions)
      ensures evictions == old(evictions) ==> fragments == old(fragments)
      ensures OldestGone(old(fragments), fragments, None)
    {
      while |fragments| >= MAXIMUM_SETS
        invariant OldestGone(old(fragments), fragments, None)
        invariant Accounted() && evictions >= old(evictions)
        invariant Within(fragments, old(fragments)) && Within(arrivals, old(arrivals))
        invariant |old(fragments)| < MAXIMUM_SETS ==> evictions == old(evictions)
        invariant evictions == old(evictions) ==> fragments == old(fragments)
        decreases |fragments|
      {
        assert fragments != map[];
        var found, gone := EvictOldestExcept(None);
      }
    }

    /** Evicts other sets until the budget holds or only `key` is left. */
    method Shed(key: Key)
      requires Accounted() && key in fragments
      modifies this`fragments, this`fragmentBytes, this`arrivals, this`evictions
      ensures Accounted() && key in fragments && evictions >= old(evictions)
      ensures Within(fragments, old(fragments)) && Within(arrivals, old(arrivals))
      ensures fragmentBytes <= MAXIMUM_BYTES || fragments.Keys == {key}
      ensures old(fragmentBytes) <= MAXIMUM_BYTES ==> evictions == old(evictions)
      ensures evictions == old(evictions) ==> fragments == old(fragments)
      ensures OldestGone(old(fragments), fragments, Some(key))
    {
      while fragmentBytes > MAXIMUM_BYTES && |fragments| > 1
        invariant OldestGone(old(fragments), fragments, Some(key))
        invariant Accounted() && key in fragments && evictions >= old(evictions)
        invariant Within(fragments, old(fragments)) && Within(arrivals, old(arrivals))
        invariant old(fragmentBytes) <= MAXIMUM_BYTES ==> evictions == old(evictions)
        invariant evictions == old(evictions) ==> fragments == old(fragments)
        decreases |fragments|
      {
        var found, gone := EvictOldestExcept(Some(key));
        if !found {
          break;
        }
      }
      assert |fragments.Keys - {key}| == |fragments| - 1;
      if |fragments| <= 1 {
        assert fragments.Keys - {key} == {};
      }
    }

    /** Enters or replaces one set and charges the difference. */
    method Store(key: Key, entry: Entry, ghost times: seq<int>)
      requires Accounted() && (key in fragments || |fragments| < MAXIMUM_SETS)
      modifies this`fragments, this`fragmentBytes, this`arrivals
      ensures Accounted()
      ensures fragments == old(fragments)[key := entry] && arrivals == old(arrivals)[key := times]
      ensures fragmentBytes == old(fragmentBytes) - (if key in old(fragments) then old(fragments)[key].accounted else 0) + entry.accounted
    {
      TotalUpdated(fragments, key, entry);
      fragmentBytes := fragmentBytes + entry.accounted - (if key in fragments then fragments[key].accounted else 0);
      KeysUpdated(fragments, key, entry);
      KeysUpdated(arrivals, key, times);
      fragments := fragments[key := entry];
      arrivals := arrivals[key := times];
    }

    /** The entry this fragment joins: the live one of its datagram, or a new one dated now. */
    method Join(key: Key, f: Fragment, now: int) returns (entry: Entry)
      requires Accounted() && f.ecn < 4
      modifies this`fragments, this`fragmentBytes, this`arrivals, this`evictions
      ensures Accounted() && key in fragments && fragments[key] == entry && evictions >= old(evictions)
      ensures key in old(fragments) ==> fragments == old(fragments) && arrivals == old(arrivals) && evictions == old(evictions)
      ensures key !in old(fragments) ==> entry == Entry(Started(f), now, now, 0) && arrivals[key] == []
      ensures Within(fragments - {key}, old(fragments)) && Within(arrivals - {key}, old(arrivals))
      ensures |old(fragments)| < MAXIMUM_SETS ==> evictions == old(evictions)
      ensures evictions == old(evictions) ==> fragments - {key} == old(fragments) - {key}
      ensures fragmentBytes == Total(fragments)
      ensures OldestGone(old(fragments), fragments, Some(key))
    {
      if key in fragments {
        return fragments[key];
      }
      MakeRoom();
      entry := Entry(Started(f), now, now, 0);
      ghost var room, times := fragments, arrivals;
      Store(key, entry, []);
      AddedThenRemoved(room, key, entry);
      AddedThenRemoved(times, key, []);
      OldestGoneAdded(old(fragments), room, key, entry);
    }

    /** Feeds the fragment to its set and settles what the outcome means for the table. */
    method Apply(key: Key, f: Fragment, now: int, entry: Entry) returns (packet: Option<seq<Byte>>, pending: bool)
      requires Accounted() && fragmentBytes <= MAXIMUM_BYTES
      requires key in fragments && fragments[key] == entry && entry.accounted >= 0
      requires ValidFragment(f) && Inv(entry.state) && entry.state.v6 == f.v6
      modifies this`fragments, this`fragmentBytes, this`arrivals, this`evictions
      ensures Accounted() && fragmentBytes <= MAXIMUM_BYTES && evictions >= old(evictions)
      ensures Within(fragments - {key}, old(fragments)) && Within(arrivals - {key}, old(arrivals))
      ensures var o := Step(entry.state, f, MAXIMUM_PIECES);
        && (pending <==> o.Pending?) && (pending <==> key in fragments)
        && packet == (if o.Complete? then Some(o.wire) else None)
        && (pending ==> fragments[key] == Renewed(entry, o.next, o.added, now) && arrivals[key] == old(arrivals)[key] + [now])
        && (pending && old(fragmentBytes) - entry.accounted + o.next.bytes <= MAXIMUM_BYTES ==> evictions == old(evictions))
        && (!pending ==> evictions == old(evictions))
      ensures evictions == old(evictions) ==> fragments - {key} == old(fragments) - {key}
      ensures OldestGone(old(fragments), fragments, Some(key))
    {
      var machine := new Reassembler.Resume(entry.state);
      var outcome := machine.AddFragment(f, MAXIMUM_PIECES);
      if !outcome.Pending? {
        Drop(key);
        return if outcome.Complete? then Some(outcome.wire) else None, false;
      }
      StepIsSound(entry.state, f, MAXIMUM_PIECES);
      Retain(key, Renewed(entry, outcome.next, outcome.added, now), now);
      return None, true;
    }

    /** Charges a pending set and sheds others until the budget holds; alone it always fits. */
    method Retain(key: Key, renewed: Entry, ghost now: int)
      requires Accounted() && key in fragments
      requires Inv(renewed.state) && renewed.accounted == renewed.state.bytes
      modifies this`fragments, this`fragmentBytes, this`arrivals, this`evictions
      ensures Accounted() && fragmentBytes <= MAXIMUM_BYTES && evictions >= old(evictions)
      ensures key in fragments && fragments[key] == renewed && arrivals[key] == old(arrivals)[key] + [now]
      ensures Within(fragments - {key}, old(fragments)) && Within(arrivals - {key}, old(arrivals))
      ensures old(fragmentBytes) - old(fragments)[key].accounted + renewed.accounted <= MAXIMUM_BYTES ==> evictions == old(evictions)
      ensures evictions == old(evictions) ==> fragments - {key} == old(fragments) - {key}
      ensures OldestGone(old(fragments), fragments, Some(key))
    {
      Store(key, renewed, arrivals[key] + [now]);
      Shed(key);
      OldestGoneReplaced(old(fragments), key, renewed, fragments);
      ghost var left := fragments;
      if fragmentBytes > MAXIMUM_BYTES {
        Remove(key);
        OnlySetFits(left, key);
        assert false;
      }
    }

    /** Removes a set that is rejected or complete. */
    method Drop(key: Key)
      requires Accounted() && fragmentBytes <= MAXIMUM_BYTES && key in fragments && fragments[key].accounted >= 0
      modifies this`fragments, this`fragmentBytes, this`arrivals
      ensures Accounted() && fragmentBytes <= MAXIMUM_BYTES
      ensures fragments == old(fragments) - {key} && arrivals == old(arrivals) - {key}
    {
      TotalWithout(fragments, key);
      Remove(key);
    }

    /**
     * Admits one parsed fragment. Expired sets go first; the fragment then joins its live set or starts one.
     * Every other set that is still there is untouched, and none is evicted while there is room.
     */
    method Reassemble(f: Fragment, now: int, loopback: bool, admitted: bool)
      returns (packet: Option<seq<Byte>>, pending: bool, ghost o: Outcome, ghost from: Entry, ghost times: seq<int>)
      requires Valid() && ValidFragment(f)
      modifies this
      ensures Valid() && closed == old(closed)
      ensures closed || !admitted ==> packet == None && !pending && fragments == old(fragments) && evictions == old(evictions)
      ensures !closed && admitted ==>
        var key := KeyOf(f, loopback);
        && Base(old(fragments), old(arrivals), key, f, now, from, times)
        && o == Step(from.state, f, MAXIMUM_PIECES)
        && Served(o, from, times, now, packet, pending, key, fragments, arrivals)
      ensures !closed && admitted ==> OthersKept(old(fragments), fragments, KeyOf(f, loopback), now, evictions == old(evictions))
      ensures |old(fragments)| < MAXIMUM_SETS && old(fragmentBytes) + 2 * MAXIMUM_DATAGRAM <= MAXIMUM_BYTES ==> evictions == old(evictions)
    {
      if !admitted || closed {
        return None, false, Rejected(Invalid), Entry(Started(f), now, now, 0), [];
      }
      var key := KeyOf(f, loopback);
      packet, pending, o, from, times := Admit(key, f, now);
    }

    /** The part of admission that runs with the lock held. */
    method Admit(key: Key, f: Fragment, now: int)
      returns (packet: Option<seq<Byte>>, pending: bool, ghost o: Outcome, ghost from: Entry, ghost times: seq<int>)
      requires Valid() && ValidFragment(f) && key.v6 == f.v6
      modifies this`fragments, this`fragmentBytes, this`arrivals, this`evictions, this`timeouts
      ensures Valid()
      ensures Base(old(fragments), old(arrivals), key, f, now, from, times)
      ensures o == Step(from.state, f, MAXIMUM_PIECES)
      ensures Served(o, from, times, now, packet, pending, key, fragments, arrivals)
      ensures OthersKept(old(fragments), fragments, key, now, evictions == old(evictions))
      ensures |old(fragments)| < MAXIMUM_SETS && old(fragmentBytes) + 2 * MAXIMUM_DATAGRAM <= MAXIMUM_BYTES ==> evictions == old(evictions)
    {
      var expired := Clean(now);
      ghost var live := fragments;
      WithinSound(old(fragments), old(arrivals), fragments, arrivals);
      from := if key in fragments then fragments[key] else Entry(Started(f), now, now, 0);
      times := if key in fragments then arrivals[key] else [];
      packet, pending, o := Enter(key, f, now, from, times);
      OthersKeptLive(old(fragments), live, fragments, key, now, evictions == old(evictions));
    }

    /** Admission once nothing in the table has expired. */
    method Enter(key: Key, f: Fragment, now: int, ghost from: Entry, ghost times: seq<int>)
      returns (packet: Option<seq<Byte>>, pending: bool, ghost o: Outcome)
      requires Valid() && ValidFragment(f) && key.v6 == f.v6
      requires from == (if key in fragments then fragments[key] else Entry(Started(f), now, now, 0))
      requires times == (if key in fragments then arrivals[key] else [])
      modifies this`fragments, this`fragmentBytes, this`arrivals, this`evictions
      ensures Valid() && evictions >= old(evictions)
      ensures Served(o, from, times, now, packet, pending, key, fragments, arrivals)
      ensures o == Step(from.state, f, MAXIMUM_PIECES)
      ensures Within(fragments - {key}, old(fragments))
      ensures evictions == old(evictions) ==> fragments - {key} == old(fragments) - {key}
      ensures OldestGone(old(fragments), fragments, Some(key))
      ensures |old(fragments)| < MAXIMUM_SETS && old(fragmentBytes) + 2 * MAXIMUM_DATAGRAM <= MAXIMUM_BYTES ==> evictions == old(evictions)
    {
      var entry := Join(key, f, now);
      JoinedSound(old(fragments), old(arrivals), fragments, arrivals, key, entry, f, now);
      StepFits(entry.state, f);
      ghost var joined, joinedTimes := fragments, arrivals;
      o := Step(entry.state, f, MAXIMUM_PIECES);
      packet, pending := Apply(key, f, now, entry);
      AppliedSound(joined, joinedTimes, fragments, arrivals, key, entry, f, now);
      OldestGoneTwice(old(fragments), joined, fragments, key);
    }
  }

  /** The set a fragment joins: the one of its datagram while it has not expired, else a new one. */
  ghost predicate Base(m: map<Key, Entry>, arrivals: map<Key, seq<int>>, key: Key, f: Fragment, now: int, from: Entry, times: seq<int>)
    requires m.Keys == arrivals.Keys && f.ecn < 4
  {
    if key in m && now < Expiry(m[key]) then from == m[key] && times == arrivals[key]
    else from == Entry(Started(f), now, now, 0) && times == []
  }

  /** The set `from` has taken a fragment with outcome `o`: it stays while pending, and is gone once rejected or complete. */
  ghost predicate Served(o: Outcome, from: Entry, times: seq<int>, now: int, packet: Option<seq<Byte>>, pending: bool,
                         key: Key, m: map<Key, Entry>, arrivals: map<Key, seq<int>>)
    requires m.Keys == arrivals.Keys
  {
    && (pending <==> o.Pending?) && (pending <==> key in m)
    && packet == (if o.Complete? then Some(o.wire) else None)
    && (pending ==> m[key] == Renewed(from, o.next, o.added, now) && arrivals[key] == times + [now])
  }

  /** Of the sets in `whole`, those that are gone from `m` went at least as long without new octets as those still there. */
  ghost predicate OldestGone(whole: map<Key, Entry>, m: map<Key, Entry>, spared: Option<Key>) {
    forall g, k :: g in whole && g !in m && spared != Some(g) && k in m && k in whole && spared != Some(k) ==>
      whole[g].updated <= whole[k].updated
  }

  /**
   * What admission does to the sets of other datagrams: those still there are live and untouched; a live one is gone only
   * by eviction, and then it went at least as long without new octets as any still there.
   */
  ghost predicate OthersKept(before: map<Key, Entry>, m: map<Key, Entry>, key: Key, now: int, spared: bool) {
    && (forall k :: k in m && k != key ==> k in before && m[k] == before[k] && now < Expiry(m[k]))
    && (spared ==> forall k :: k in before && now < Expiry(before[k]) && k != key ==> k in m)
    && (forall g, k :: g in before && now < Expiry(before[g]) && g !in m && g != key && k in m && k != key ==>
          before[g].updated <= m[k].updated)
  }

  lemma OldestGoneTwice(whole: map<Key, Entry>, joined: map<Key, Entry>, m: map<Key, Entry>, key: Key)
    requires Within(joined - {key}, whole) && Within(m - {key}, joined)
    requires OldestGone(whole, joined, Some(key)) && OldestGone(joined, m, Some(key))
    ensures OldestGone(whole, m, Some(key))
  {
    forall g, k | g in whole && g !in m && g != key && k in m && k in whole && k != key ensures whole[g].updated <= whole[k].updated {
      assert k in m - {key} && k in joined && k in joined - {key};
      if g in joined {
        assert g in joined - {key};
      }
    }
  }

  lemma AddedThenRemoved<V>(m: map<Key, V>, key: Key, v: V)
    requires key !in m
    ensures m[key := v] - {key} == m
  {
  }

  lemma OldestGoneAdded(whole: map<Key, Entry>, room: map<Key, Entry>, key: Key, e: Entry)
    requires key !in whole && OldestGone(whole, room, None)
    ensures OldestGone(whole, room[key := e], Some(key))
  {
  }

  lemma OldestGoneReplaced(whole: map<Key, Entry>, key: Key, e: Entry, m: map<Key, Entry>)
    requires key in whole && OldestGone(whole[key := e], m, Some(key))
    ensures OldestGone(whole, m, Some(key))
  {
    forall g, k | g in whole && g !in m && g != key && k in m && k in whole && k != key ensures whole[g].updated <= whole[k].updated {
      assert whole[key := e][g] == whole[g] && whole[key := e][k] == whole[k];
    }
  }

  lemma OthersKeptLive(before: map<Key, Entry>, live: map<Key, Entry>, m: map<Key, Entry>, key: Key, now: int, spared: bool)
    requires forall k :: k in live <==> k in before && now < Expiry(before[k])
    requires forall k :: k in live ==> live[k] == before[k]
    requires OldestGone(live, m, Some(key)) && Within(m - {key}, live) && (spared ==> m - {key} == live - {key})
    ensures OthersKept(before, m, key, now, spared)
  {
    forall k | k in m && k != key ensures k in live && m[k] == live[k] {
      assert k in m - {key};
    }
    if spared {
      forall k | k in live && k != key ensures k in m {
        assert k in live - {key};
      }
    }
  }

  /** Nothing but removals separates `m` from `whole`. */
  ghost predicate Within<V>(m: map<Key, V>, whole: map<Key, V>) {
    m.Keys <= whole.Keys && forall k :: k in m ==> m[k] == whole[k]
  }

  lemma WithinSound(m: map<Key, Entry>, times: map<Key, seq<int>>, fewer: map<Key, Entry>, left: map<Key, seq<int>>)
    requires AllSound(m, times) && Within(fewer, m) && Within(left, times) && fewer.Keys == left.Keys
    ensures AllSound(fewer, left) && 0 <= Total(fewer) <= Total(m)
  {
    forall k | k in fewer ensures EntryInv(k, fewer[k], left[k]) {
      assert EntryInv(k, m[k], times[k]);
    }
    FewerOctets(m, times, fewer);
  }

  /** One datagram can never exhaust the budget alone. */
  lemma OneSetFits(s: State)
    requires Inv(s)
    ensures 0 <= s.bytes <= 2 * MAXIMUM_DATAGRAM < MAXIMUM_BYTES
  {
    assert forall k :: 0 <= k < |s.pieces| ==> s.pieces[k].End() <= s.maximum;
    if s.maximum >= 0 {
      Coverage.ByteCountDecides(s.pieces, s.maximum);
    }
  }

  ghost predicate AllSound(m: map<Key, Entry>, times: map<Key, seq<int>>) {
    m.Keys == times.Keys && forall k {:trigger EntryInv(k, m[k], times[k])} :: k in m ==> EntryInv(k, m[k], times[k])
  }

  lemma ChargesNotNegative(m: map<Key, Entry>, times: map<Key, seq<int>>)
    requires AllSound(m, times)
    ensures forall k :: k in m ==> m[k].accounted >= 0
  {
    forall k | k in m ensures m[k].accounted >= 0 {
      assert EntryInv(k, m[k], times[k]);
    }
  }

  /** Removing sets never raises the total. */
  lemma FewerOctets(m: map<Key, Entry>, times: map<Key, seq<int>>, fewer: map<Key, Entry>)
    requires AllSound(m, times) && fewer.Keys <= m.Keys && forall k :: k in fewer ==> fewer[k] == m[k]
    ensures 0 <= Total(fewer) <= Total(m)
  {
    ChargesNotNegative(m, times);
    SubTotal(m, fewer);
    TotalNotNegative(fewer);
  }

  lemma {:induction false} SubTotal(m: map<Key, Entry>, fewer: map<Key, Entry>)
    requires fewer.Keys <= m.Keys && forall k :: k in fewer ==> fewer[k] == m[k]
    requires forall k :: k in m ==> m[k].accounted >= 0
    ensures Total(fewer) <= Total(m)
    decreases |m|
  {
    if k :| k in m && k !in fewer {
      TotalWithout(m, k);
      SubTotal(m - {k}, fewer);
    } else {
      assert fewer == m;
    }
  }

  /** The bookkeeping after one retained or repeated fragment: the start may only move back, the renewal only forward. */
  function Renewed(e: Entry, next: State, added: bool, now: int): (r: Entry) {
    Entry(next, if now < e.created then now else e.created, if added && now > e.updated then now else e.updated, next.bytes)
  }

  lemma OnlySetFits(m: map<Key, Entry>, key: Key)
    requires m.Keys == {key} && Inv(m[key].state) && m[key].accounted == m[key].state.bytes
    ensures Total(m) < MAXIMUM_BYTES
  {
    OneSetFits(m[key].state);
    TotalWithout(m, key);
    assert m - {key} == map[];
  }

  /** The joined set is new and empty, or one of the sound ones. */
  ghost predicate Joined(m: map<Key, Entry>, times: map<Key, seq<int>>, key: Key, entry: Entry, now: int) {
    && m.Keys == times.Keys && key in m && m[key] == entry
    && (forall k :: k in m && k != key ==> EntryInv(k, m[k], times[k]))
    && Inv(entry.state) && entry.state.v6 == key.v6 && |entry.state.pieces| <= MAXIMUM_PIECES && entry.accounted == entry.state.bytes
    && (if times[key] == [] then entry.created == now else entry.created == Earliest(times[key]))
  }

  lemma JoinedSound(clean: map<Key, Entry>, times: map<Key, seq<int>>, m: map<Key, Entry>, left: map<Key, seq<int>>,
                    key: Key, entry: Entry, f: Fragment, now: int)
    requires AllSound(clean, times) && m.Keys == left.Keys && ValidFragment(f) && key.v6 == f.v6
    requires key in m && m[key] == entry && Within(m - {key}, clean) && Within(left - {key}, times)
    requires if key in clean then m == clean && left == times else entry == Entry(Started(f), now, now, 0) && left[key] == []
    ensures Joined(m, left, key, entry, now) && 0 <= Total(m) <= Total(clean)
  {
    StartedInv(f);
    forall k | k in m && k != key ensures EntryInv(k, m[k], left[k]) {
      assert k in m - {key} && k in left - {key};
      assert EntryInv(k, clean[k], times[k]);
    }
    if key in clean {
      assert EntryInv(key, clean[key], times[key]);
      WithinSound(clean, times, clean, times);
    } else {
      TotalWithout(m, key);
      FewerOctets(clean, times, m - {key});
    }
  }

  lemma StepFits(s: State, f: Fragment)
    requires Inv(s) && ValidFragment(f) && f.v6 == s.v6
    ensures s.bytes >= 0
    ensures Step(s, f, MAXIMUM_PIECES).Pending? ==> Step(s, f, MAXIMUM_PIECES).next.bytes <= 2 * MAXIMUM_DATAGRAM
  {
    OneSetFits(s);
    StepIsSound(s, f, MAXIMUM_PIECES);
    if Step(s, f, MAXIMUM_PIECES).Pending? {
      OneSetFits(Step(s, f, MAXIMUM_PIECES).next);
    }
  }

  lemma AppliedSound(joined: map<Key, Entry>, times: map<Key, seq<int>>, m: map<Key, Entry>, left: map<Key, seq<int>>,
                     key: Key, entry: Entry, f: Fragment, now: int)
    requires Joined(joined, times, key, entry, now) && m.Keys == left.Keys && ValidFragment(f) && key.v6 == f.v6
    requires Within(m - {key}, joined) && Within(left - {key}, times)
    requires key in m ==> Step(entry.state, f, MAXIMUM_PIECES).Pending?
    requires key in m ==> left[key] == times[key] + [now]
    requires key in m ==>
      m[key] == Renewed(entry, Step(entry.state, f, MAXIMUM_PIECES).next, Step(entry.state, f, MAXIMUM_PIECES).added, now)
    ensures AllSound(m, left) && Total(m) >= 0
  {
    forall k | k in m ensures EntryInv(k, m[k], left[k]) {
      if k == key {
        StepIsSound(entry.state, f, MAXIMUM_PIECES);
        EarliestGrows(times[key], now);
      } else {
        assert k in m - {key} && k in left - {key};
        assert EntryInv(k, joined[k], times[k]);
      }
    }
    FewerOctets(m, left, m);
  }

  lemma EarliestGrows(times: seq<int>, now: int)
    ensures Earliest(times + [now]) == if times == [] || now < Earliest(times) then now else Earliest(times)
  {
    assert (times + [now])[..|times|] == times;
  }

  /** Later fragments never extend the deadline: it stays the earliest arrival plus the family's lifetime. */
  lemma DeadlineIsEarliest(k: Key, e: Entry, times: seq<int>, next: State, added: bool, now: int)
    requires EntryInv(k, e, times) && next.v6 == k.v6
    ensures Expiry(e) == Earliest(times) + Lifetime(k.v6)
    ensures Expiry(Renewed(e, next, added, now)) == Earliest(times + [now]) + Lifetime(k.v6)
    ensures Expiry(Renewed(e, next, added, now)) <= Expiry(e)
  {
    EarliestGrows(times, now);
  }
}
