/**
 * The life of a forwarded UDP request under every interleaving of its handler, concurrent replies and
 * terminal actions, configuration updates and close. Every step is one atomic access of the program: a
 * compare-and-swap on a request's state word, a block under the forwarder's lock, or one counter increment.
 */
module Forwarder {

  type Tuple = n: int | 0 <= n

  /** The atomic state word of one request. */
  datatype Word = Pending | ReplyStarted | Claimed | Accepted | Rejected | Dropped | Detached | Completed

  /** What the winner of the final transition still has to do: leave the table, then count the outcome. */
  datatype Todo = Nothing | RemoveThenCount | OnlyRemove | OnlyCount

  /** The handler runs, has tried its first swap on return, or is done with the request. */
  datatype Handler = Running | Returning | Returned

  /** One request; `replies` counts the replies that began. */
  datatype Request = Request(tuple: Tuple, word: Word, todo: Todo, handler: Handler, replies: nat)

  /** Where a configuration update stands with the entry it is visiting. */
  datatype Visit = Between | Tried(tuple: Tuple) | DroppedIt(tuple: Tuple) | CompletedIt(tuple: Tuple)

  /** The forwarder's lock: free between blocks, or held by an update with these tuples still to visit. */
  datatype Lock = Free | Updating(refused: set<Tuple>, left: set<Tuple>, at: Visit)

  datatype State = State(
    requests: seq<Request>, table: map<Tuple, nat>, closed: bool, lock: Lock,
    closing: set<nat>, closingSecond: set<nat>,
    accepted: nat, rejected: nat, dropped: nat, duplicates: nat)

  const START := State([], map[], false, Free, {}, {}, 0, 0, 0, 0)

  datatype Event =
    | Admit(tuple: Tuple)
    | BeginReply(r: nat)
    | Claim(r: nat)
    | Finish(r: nat, outcome: Word)
    | Detach(r: nat)
    | Complete(r: nat, outcome: Word)
    | HandlerFirst(r: nat)
    | HandlerSecond(r: nat)
    | Remove(r: nat)
    | Count(r: nat)
    | UpdateStart(refused: set<Tuple>)
    | UpdateFirst(tuple: Tuple)
    | UpdateSecond
    | UpdateDelete
    | UpdateEnd
    | CloseStart
    | CloseFirst(r: nat)
    | CloseSecond(r: nat)

  predicate Undecided(w: Word) { w == Pending || w == ReplyStarted }

  predicate Final(w: Word) { !Undecided(w) && w != Claimed }

  // ---------------------------------------------------------------- the atomic steps

  function Put(s: State, r: nat, q: Request): (t: State)
    requires r < |s.requests|
  {
    s.(requests := s.requests[r := q])
  }

  /** The table without the request, if it is still the tuple's current one. */
  function Leave(s: State, r: nat): (table: map<Tuple, nat>)
    requires r < |s.requests|
  {
    var tuple := s.requests[r].tuple;
    if tuple in s.table && s.table[tuple] == r then s.table - {tuple} else s.table
  }

  function Counted(s: State, w: Word): (t: State) {
    match w
    case Accepted => s.(accepted := s.accepted + 1)
    case Rejected => s.(rejected := s.rejected + 1)
    case Dropped => s.(dropped := s.dropped + 1)
    case _ => s
  }

  /** Whether the program can take the step at all; a failed swap changes nothing and is not a step here. */
  predicate Enabled(s: State, e: Event) {
    match e
    case Admit(_) => s.lock == Free && !s.closed
    case BeginReply(r) => r < |s.requests| && Undecided(s.requests[r].word)
    case Claim(r) => r < |s.requests| && Undecided(s.requests[r].word)
    case Finish(r, outcome) => r < |s.requests| && s.requests[r].word == Claimed && outcome in {Accepted, Dropped}
    case Detach(r) => r < |s.requests| && s.requests[r].word == Claimed && s.lock == Free && !s.closed
    case Complete(r, outcome) => r < |s.requests| && Undecided(s.requests[r].word) && outcome in {Dropped, Rejected}
    case HandlerFirst(r) => r < |s.requests| && s.requests[r].handler == Running
    case HandlerSecond(r) => r < |s.requests| && s.requests[r].handler == Returning
    case Remove(r) => r < |s.requests| && s.requests[r].todo in {RemoveThenCount, OnlyRemove} && s.lock == Free
    case Count(r) => r < |s.requests| && s.requests[r].todo == OnlyCount
    case UpdateStart(_) => s.lock == Free
    case UpdateFirst(t) => s.lock.Updating? && s.lock.at == Between && t in s.lock.left && t in s.table && s.table[t] < |s.requests|
    case UpdateSecond => s.lock.Updating? && s.lock.at.Tried? && s.lock.at.tuple in s.table && s.table[s.lock.at.tuple] < |s.requests|
    case UpdateDelete => s.lock.Updating? && (s.lock.at.DroppedIt? || s.lock.at.CompletedIt?)
    case UpdateEnd => s.lock.Updating? && s.lock.at == Between && s.lock.left == {}
    case CloseStart => s.lock == Free && !s.closed
    case CloseFirst(r) => r in s.closing && r < |s.requests|
    case CloseSecond(r) => r in s.closingSecond && r < |s.requests|
  }

  function Next(s: State, e: Event): (t: State)
    requires Enabled(s, e)
  {
    match e
    case Admit(t) =>
      if t in s.table then s.(dropped := s.dropped + 1, duplicates := s.duplicates + 1)
      else s.(requests := s.requests + [Request(t, Pending, Nothing, Running, 0)], table := s.table[t := |s.requests|])
    case BeginReply(r) => Put(s, r, s.requests[r].(word := ReplyStarted, replies := s.requests[r].replies + 1))
    case Claim(r) => Put(s, r, s.requests[r].(word := Claimed))
    case Finish(r, outcome) => Put(s, r, s.requests[r].(word := outcome, todo := RemoveThenCount))
    case Detach(r) => Put(s, r, s.requests[r].(word := Detached)).(table := Leave(s, r))
    case Complete(r, outcome) => Put(s, r, s.requests[r].(word := outcome, todo := RemoveThenCount))
    case HandlerFirst(r) =>
      var q := s.requests[r];
      if q.word == Pending then Put(s, r, q.(word := Dropped, todo := RemoveThenCount, handler := Returned))
      else Put(s, r, q.(handler := Returning))
    case HandlerSecond(r) =>
      var q := s.requests[r];
      if q.word == ReplyStarted then Put(s, r, q.(word := Completed, todo := OnlyRemove, handler := Returned))
      else Put(s, r, q.(handler := Returned))
    case Remove(r) =>
      var q := s.requests[r];
      Put(s, r, q.(todo := if q.todo == RemoveThenCount then OnlyCount else Nothing)).(table := Leave(s, r))
    case Count(r) => Counted(Put(s, r, s.requests[r].(todo := Nothing)), s.requests[r].word)
    case UpdateStart(refused) => s.(lock := Updating(refused, s.table.Keys * refused, Between))
    case UpdateFirst(t) =>
      var q := s.requests[s.table[t]];
      if q.word == Pending then Put(s, s.table[t], q.(word := Dropped)).(lock := s.lock.(left := s.lock.left - {t}, at := DroppedIt(t)))
      else s.(lock := s.lock.(left := s.lock.left - {t}, at := Tried(t)))
    case UpdateSecond =>
      var t := s.lock.at.tuple;
      var q := s.requests[s.table[t]];
      if q.word == ReplyStarted then Put(s, s.table[t], q.(word := Completed)).(lock := s.lock.(at := CompletedIt(t)))
      else s.(lock := s.lock.(at := Between))
    case UpdateDelete =>
      s.(table := s.table - {s.lock.at.tuple}, dropped := s.dropped + (if s.lock.at.DroppedIt? then 1 else 0),
         lock := s.lock.(at := Between))
    case UpdateEnd => s.(lock := Free)
    case CloseStart => s.(closed := true, closing := s.table.Values, table := map[])
    case CloseFirst(r) =>
      var q := s.requests[r];
      if q.word == Pending then Put(s, r, q.(word := Dropped, todo := OnlyCount)).(closing := s.closing - {r})
      else s.(closing := s.closing - {r}, closingSecond := s.closingSecond + {r})
    case CloseSecond(r) =>
      var q := s.requests[r];
      (if q.word == ReplyStarted then Put(s, r, q.(word := Completed)) else s).(closingSecond := s.closingSecond - {r})
  }

  predicate Possible(s: State, events: seq<Event>)
    decreases |events|
  {
    events == [] || (Enabled(s, events[0]) && Possible(Next(s, events[0]), events[1..]))
  }

  function Run(s: State, events: seq<Event>): (t: State)
    requires Possible(s, events)
    decreases |events|
  {
    if events == [] then s else Run(Next(s, events[0]), events[1..])
  }

  // ---------------------------------------------------------------- one outcome, no late reply, claims undisturbed

  /** A final outcome never changes, a claim is settled only by its claimer, and replies begin only while undecided. */
  lemma StepRespectsDecisions(s: State, e: Event, r: nat)
    requires Enabled(s, e) && r < |s.requests|
    ensures r < |Next(s, e).requests| && Next(s, e).requests[r].tuple == s.requests[r].tuple
    ensures Final(s.requests[r].word) ==> Next(s, e).requests[r].word == s.requests[r].word
    ensures s.requests[r].word == Claimed ==>
      Next(s, e).requests[r].word == Claimed || e == Detach(r) || (e.Finish? && e.r == r)
    ensures !Undecided(s.requests[r].word) ==> Next(s, e).requests[r].replies == s.requests[r].replies
    ensures !Undecided(s.requests[r].word) ==> !Undecided(Next(s, e).requests[r].word)
  {
    StepRespects(s, e, r);
  }

  /** What a step may make of one request. */
  predicate Respects(was: Request, now: Request, claimer: bool) {
    && now.tuple == was.tuple
    && (Final(was.word) ==> now.word == was.word)
    && (was.word == Claimed ==> now.word == Claimed || claimer)
    && (!Undecided(was.word) ==> now.replies == was.replies && !Undecided(now.word))
  }

  lemma StepRespects(s: State, e: Event, r: nat)
    requires Enabled(s, e) && r < |s.requests|
    ensures r < |Next(s, e).requests|
    ensures Respects(s.requests[r], Next(s, e).requests[r], e == Detach(r) || (e.Finish? && e.r == r))
  {
    OneWrite(s, e);
    if r == Touched(s, e) {
      TouchedRespects(s, e, r);
    }
  }

  lemma TouchedRespects(s: State, e: Event, r: nat)
    requires Enabled(s, e) && r == Touched(s, e) < |Next(s, e).requests| && r < |s.requests|
    ensures Respects(s.requests[r], Next(s, e).requests[r], e == Detach(r) || (e.Finish? && e.r == r))
  {
  }

  /** Over any continuation of a run: one final outcome, and no reply after it. */
  lemma {:induction false} OutcomeIsFinal(s: State, events: seq<Event>, r: nat)
    requires Possible(s, events) && r < |s.requests| && Final(s.requests[r].word)
    ensures var t := Run(s, events);
      r < |t.requests| && t.requests[r].word == s.requests[r].word && t.requests[r].replies == s.requests[r].replies
    decreases |events|
  {
    if events != [] {
      StepRespectsDecisions(s, events[0], r);
      OutcomeIsFinal(Next(s, events[0]), events[1..], r);
    }
  }

  /** A claimed request keeps its claim and its replies until its claimer acts. */
  lemma {:induction false} ClaimIsUndisturbed(s: State, events: seq<Event>, r: nat)
    requires Possible(s, events) && r < |s.requests| && s.requests[r].word == Claimed
    requires forall i :: 0 <= i < |events| ==> events[i] != Detach(r) && !(events[i].Finish? && events[i].r == r)
    ensures var t := Run(s, events);
      r < |t.requests| && t.requests[r].word == Claimed && t.requests[r].replies == s.requests[r].replies
    decreases |events|
  {
    if events != [] {
      StepRespectsDecisions(s, events[0], r);
      ClaimIsUndisturbed(Next(s, events[0]), events[1..], r);
    }
  }

  // ---------------------------------------------------------------- the invariant

  /** The table names requests by their own tuples, and every open request is in it while the forwarder is open. */
  ghost predicate TableInv(s: State) {
    && (s.closed ==> s.table == map[])
    && (forall t :: t in s.table ==> s.table[t] < |s.requests| && s.requests[s.table[t]].tuple == t)
    && (!s.closed ==> forall r :: 0 <= r < |s.requests| && (Undecided(s.requests[r].word) || s.requests[r].word == Claimed) ==>
          s.requests[r].tuple in s.table && s.table[s.requests[r].tuple] == r)
  }

  /** An update holds the lock only over entries of the table; what it refused and is done with is decided. */
  ghost predicate LockInv(s: State) {
    s.lock.Updating? ==>
      && s.lock.left <= s.table.Keys && s.lock.left <= s.lock.refused
      && (s.lock.at != Between ==> s.lock.at.tuple in s.table && s.lock.at.tuple !in s.lock.left && s.lock.at.tuple in s.lock.refused)
      && (s.lock.at.Tried? ==> s.table[s.lock.at.tuple] < |s.requests| && s.requests[s.table[s.lock.at.tuple]].word != Pending)
      && (s.lock.at.DroppedIt? || s.lock.at.CompletedIt? ==>
            s.table[s.lock.at.tuple] < |s.requests| && Final(s.requests[s.table[s.lock.at.tuple]].word))
      && (forall r :: 0 <= r < |s.requests| && Undecided(s.requests[r].word) && s.requests[r].tuple in s.lock.refused && !s.closed ==>
            s.requests[r].tuple in s.lock.left || s.lock.at == Tried(s.requests[r].tuple))
  }

  ghost predicate CloseInv(s: State) {
    && (s.closing != {} || s.closingSecond != {} ==> s.closed)
    && (forall r :: r in s.closing || r in s.closingSecond ==> r < |s.requests|)
    && (forall r :: r in s.closingSecond ==> s.requests[r].word != Pending)
    && (s.closed ==> forall r :: 0 <= r < |s.requests| && Undecided(s.requests[r].word) ==> r in s.closing || r in s.closingSecond)
  }

  ghost predicate RequestInv(s: State, r: nat)
    requires r < |s.requests|
  {
    var q := s.requests[r];
    && (q.todo != Nothing ==> Final(q.word))
    && (q.todo in {RemoveThenCount, OnlyCount} ==> q.word in {Accepted, Rejected, Dropped})
    && (q.todo == OnlyRemove ==> q.word == Completed)
    && (q.handler == Returning ==> q.word != Pending)
    && (q.handler == Returned ==> !Undecided(q.word))
  }

  ghost predicate RequestsInv(s: State) {
    forall r {:trigger RequestInv(s, r)} :: 0 <= r < |s.requests| ==> RequestInv(s, r)
  }

  ghost predicate Inv(s: State) {
    TableInv(s) && LockInv(s) && CloseInv(s) && RequestsInv(s) && Books(s)
  }

  // ---------------------------------------------------------------- counting

  function Tally(rs: seq<Request>, p: Request -> bool): (n: nat) {
    if rs == [] then 0 else Tally(rs[..|rs| - 1], p) + if p(rs[|rs| - 1]) then 1 else 0
  }

  lemma {:induction false} TallyUpdate(rs: seq<Request>, r: nat, q: Request, p: Request -> bool)
    requires r < |rs|
    ensures Tally(rs[r := q], p) == Tally(rs, p) - (if p(rs[r]) then 1 else 0) + (if p(q) then 1 else 0)
    decreases |rs|
  {
    var front := rs[..|rs| - 1];
    if r < |rs| - 1 {
      assert rs[r := q][..|rs| - 1] == front[r := q];
      TallyUpdate(front, r, q, p);
    } else {
      assert rs[r := q][..|rs| - 1] == front;
    }
  }

  /** The request has this outcome and nothing about it is still to be counted. */
  function Settled(w: Word): (p: Request -> bool) {
    (q: Request) => q.word == w && q.todo != RemoveThenCount && q.todo != OnlyCount
  }

  /** One drop the update has made but not yet counted. */
  function Owed(s: State): (n: nat) {
    if s.lock.Updating? && s.lock.at.DroppedIt? then 1 else 0
  }

  /** The counters agree with the outcomes, up to what is still to be counted. */
  ghost predicate Books(s: State) {
    && s.accepted == Tally(s.requests, Settled(Accepted))
    && s.rejected == Tally(s.requests, Settled(Rejected))
    && s.dropped + Owed(s) == s.duplicates + Tally(s.requests, Settled(Dropped))
  }

  /** The request whose state word or bookkeeping the step writes. */
  function Touched(s: State, e: Event): (r: int)
    requires Enabled(s, e)
  {
    match e
    case BeginReply(r) => r
    case Claim(r) => r
    case Finish(r, _) => r
    case Detach(r) => r
    case Complete(r, _) => r
    case HandlerFirst(r) => r
    case HandlerSecond(r) => r
    case Remove(r) => r
    case Count(r) => r
    case UpdateFirst(t) => s.table[t]
    case UpdateSecond => s.table[s.lock.at.tuple]
    case CloseFirst(r) => r
    case CloseSecond(r) => r
    case _ => -1
  }

  /** One outcome's tally moves with the one request the step writes. */
  ghost predicate Moves(s: State, e: Event, w: Word)
    requires Enabled(s, e)
  {
    var t, r := Next(s, e), Touched(s, e);
    r < |s.requests| <= |t.requests| &&
    Tally(t.requests, Settled(w)) == Tally(s.requests, Settled(w))
      - (if r >= 0 && Settled(w)(s.requests[r]) then 1 else 0) + (if r >= 0 && Settled(w)(t.requests[r]) then 1 else 0)
  }

  lemma TallyStep(s: State, e: Event, w: Word)
    requires Enabled(s, e) && Final(w)
    ensures Moves(s, e, w)
  {
    var t, r := Next(s, e), Touched(s, e);
    OneWrite(s, e);
    TallyWrite(s.requests, t.requests, r, Settled(w));
  }

  /** A step writes one request, adds one that is undecided, or touches none. */
  lemma OneWrite(s: State, e: Event)
    requires Enabled(s, e)
    ensures Written(s.requests, Next(s, e).requests, Touched(s, e))
  {
    var t, r := Next(s, e), Touched(s, e);
    assert r >= 0 ==> t.requests == s.requests[r := t.requests[r]];
  }

  predicate Written(before: seq<Request>, after: seq<Request>, r: int) {
    if r >= 0 then r < |before| == |after| && after == before[r := after[r]]
    else after == before || (|after| > 0 && after == before + [after[|after| - 1]] && Undecided(after[|after| - 1].word))
  }

  lemma TallyWrite(before: seq<Request>, after: seq<Request>, r: int, p: Request -> bool)
    requires Written(before, after, r) && forall q: Request :: Undecided(q.word) ==> !p(q)
    ensures r < |before| <= |after|
    ensures Tally(after, p) == Tally(before, p) - (if r >= 0 && p(before[r]) then 1 else 0) + (if r >= 0 && p(after[r]) then 1 else 0)
  {
    if r >= 0 {
      TallyUpdate(before, r, after[r], p);
    } else if after != before {
      assert after[..|after| - 1] == before;
    }
  }

  /** The steps taken by requests themselves: swaps on their own word, and the bookkeeping of their winner. */
  predicate OwnStep(e: Event) {
    e.BeginReply? || e.Claim? || e.Finish? || e.Complete? || e.HandlerFirst? || e.HandlerSecond? || e.Count?
  }

  predicate LeavingStep(e: Event) { e.Detach? || e.Remove? }

  predicate UpdateStep(e: Event) {
    e.UpdateStart? || e.UpdateFirst? || e.UpdateSecond? || e.UpdateDelete? || e.UpdateEnd?
  }

  predicate CloseEvent(e: Event) { e.CloseStart? || e.CloseFirst? || e.CloseSecond? }

  lemma BooksStep(s: State, e: Event)
    requires Books(s) && RequestsInv(s) && Enabled(s, e)
    ensures Books(Next(s, e))
  {
    TallyStep(s, e, Accepted);
    TallyStep(s, e, Rejected);
    TallyStep(s, e, Dropped);
    if OwnStep(e) {
      BooksOwn(s, e);
    } else if UpdateStep(e) {
      BooksUpdate(s, e);
    } else {
      BooksOther(s, e);
    }
  }

  lemma BooksOwn(s: State, e: Event)
    requires Books(s) && RequestsInv(s) && Enabled(s, e) && OwnStep(e)
    requires Moves(s, e, Accepted) && Moves(s, e, Rejected) && Moves(s, e, Dropped)
    ensures Books(Next(s, e))
  {
    assert RequestInv(s, Touched(s, e));
    if e.Count? {
      BooksCount(s, e);
    }
  }

  /** Counting an outcome settles it. */
  lemma BooksCount(s: State, e: Event)
    requires Books(s) && RequestsInv(s) && Enabled(s, e) && e.Count? && RequestInv(s, e.r)
    requires Moves(s, e, Accepted) && Moves(s, e, Rejected) && Moves(s, e, Dropped)
    ensures Books(Next(s, e))
  {
  }

  lemma BooksUpdate(s: State, e: Event)
    requires Books(s) && RequestsInv(s) && Enabled(s, e) && UpdateStep(e)
    requires Moves(s, e, Accepted) && Moves(s, e, Rejected) && Moves(s, e, Dropped)
    ensures Books(Next(s, e))
  {
    var r := Touched(s, e);
    if r >= 0 {
      assert RequestInv(s, r);
    }
  }

  lemma BooksOther(s: State, e: Event)
    requires Books(s) && RequestsInv(s) && Enabled(s, e) && !OwnStep(e) && !UpdateStep(e)
    requires Moves(s, e, Accepted) && Moves(s, e, Rejected) && Moves(s, e, Dropped)
    ensures Books(Next(s, e))
  {
    var r := Touched(s, e);
    if r >= 0 {
      assert RequestInv(s, r);
    }
  }

  lemma RequestsStep(s: State, e: Event)
    requires RequestsInv(s) && LockInv(s) && CloseInv(s) && Enabled(s, e)
    ensures RequestsInv(Next(s, e))
  {
    var t := Next(s, e);
    forall r {:trigger RequestInv(t, r)} | 0 <= r < |t.requests| ensures RequestInv(t, r) {
      if r < |s.requests| {
        assert RequestInv(s, r);
        OneWrite(s, e);
        if r == Touched(s, e) {
          RequestStep(s, e, r);
        }
      }
    }
  }

  lemma RequestStep(s: State, e: Event, r: nat)
    requires Enabled(s, e) && r == Touched(s, e) < |s.requests| && RequestInv(s, r) && LockInv(s) && CloseInv(s)
    ensures r < |Next(s, e).requests| && RequestInv(Next(s, e), r)
  {
  }

  predicate Open(w: Word) { Undecided(w) || w == Claimed }

  lemma TablePut(s: State, r: nat, q: Request)
    requires TableInv(s) && r < |s.requests| && q.tuple == s.requests[r].tuple
    requires Open(q.word) ==> Open(s.requests[r].word)
    ensures TableInv(Put(s, r, q))
  {
  }

  lemma TableLeave(s: State, r: nat)
    requires TableInv(s) && r < |s.requests| && Final(s.requests[r].word)
    ensures TableInv(s.(table := Leave(s, r)))
  {
  }

  lemma TableStep(s: State, e: Event)
    requires TableInv(s) && LockInv(s) && RequestsInv(s) && Enabled(s, e)
    ensures TableInv(Next(s, e))
  {
    if OwnStep(e) {
      assert RequestInv(s, e.r);
      TablePut(s, e.r, Next(s, e).requests[e.r]);
    } else if LeavingStep(e) {
      assert RequestInv(s, e.r);
      TablePut(s, e.r, Next(s, e).requests[e.r]);
      TableLeave(Put(s, e.r, Next(s, e).requests[e.r]), e.r);
    } else if UpdateStep(e) {
      TableUpdate(s, e);
    } else if CloseEvent(e) {
      TableClose(s, e);
    } else {
      TableAdmit(s, e);
    }
  }

  lemma TableAdmit(s: State, e: Event)
    requires TableInv(s) && Enabled(s, e) && e.Admit?
    ensures TableInv(Next(s, e))
  {
  }

  lemma TableUpdate(s: State, e: Event)
    requires TableInv(s) && LockInv(s) && Enabled(s, e) && UpdateStep(e)
    ensures TableInv(Next(s, e))
  {
    var r := Touched(s, e);
    if r >= 0 {
      TablePut(s, r, Next(s, e).requests[r]);
    } else if e.UpdateDelete? {
      TableLeave(s, s.table[s.lock.at.tuple]);
    }
  }

  lemma TableClose(s: State, e: Event)
    requires TableInv(s) && Enabled(s, e) && CloseEvent(e)
    ensures TableInv(Next(s, e))
  {
  }

  /** An update is not disturbed by what requests do to their own words. */
  lemma LockPut(s: State, r: nat, q: Request)
    requires LockInv(s) && r < |s.requests| && q.tuple == s.requests[r].tuple
    requires !Undecided(s.requests[r].word) || s.requests[r].word == Pending || q.word != Pending
    requires Undecided(q.word) ==> Undecided(s.requests[r].word)
    requires Final(s.requests[r].word) ==> Final(q.word)
    requires q.word == Pending ==> s.requests[r].word == Pending
    ensures LockInv(Put(s, r, q))
  {
  }

  lemma LockStep(s: State, e: Event)
    requires TableInv(s) && LockInv(s) && RequestsInv(s) && Enabled(s, e)
    ensures LockInv(Next(s, e))
  {
    if OwnStep(e) || e.CloseSecond? {
      assert RequestInv(s, e.r);
      LockPut(s, e.r, Next(s, e).requests[e.r]);
    } else if UpdateStep(e) {
      LockUpdate(s, e);
    } else if e.CloseFirst? {
      LockPut(s, e.r, Next(s, e).requests[e.r]);
    }
  }

  lemma LockUpdate(s: State, e: Event)
    requires TableInv(s) && LockInv(s) && Enabled(s, e) && UpdateStep(e)
    ensures LockInv(Next(s, e))
  {
  }

  lemma CloseStep(s: State, e: Event)
    requires TableInv(s) && CloseInv(s) && Enabled(s, e)
    ensures CloseInv(Next(s, e))
  {
    if CloseEvent(e) {
      CloseByClose(s, e);
    } else if UpdateStep(e) {
      CloseByUpdate(s, e);
    } else if e.Admit? {
      CloseByAdmission(s, e);
    } else {
      ClosePut(s, Next(s, e), e.r, Next(s, e).requests[e.r]);
    }
  }

  /** One request is written: it stays decided once it was, and is not pending again. */
  lemma ClosePut(s: State, t: State, r: nat, q: Request)
    requires CloseInv(s) && r < |s.requests| && t.requests == s.requests[r := q]
    requires t.closed == s.closed && t.closing == s.closing && t.closingSecond == s.closingSecond
    requires (Undecided(q.word) ==> Undecided(s.requests[r].word)) && (q.word == Pending ==> s.requests[r].word == Pending)
    ensures CloseInv(t)
  {
  }

  lemma CloseByClose(s: State, e: Event)
    requires TableInv(s) && CloseInv(s) && Enabled(s, e) && CloseEvent(e)
    ensures CloseInv(Next(s, e))
  {
  }

  lemma CloseByUpdate(s: State, e: Event)
    requires TableInv(s) && CloseInv(s) && Enabled(s, e) && UpdateStep(e)
    ensures CloseInv(Next(s, e))
  {
    var r := Touched(s, e);
    if r >= 0 {
      ClosePut(s, Next(s, e), r, Next(s, e).requests[r]);
    }
  }

  lemma CloseByAdmission(s: State, e: Event)
    requires TableInv(s) && CloseInv(s) && Enabled(s, e) && e.Admit?
    ensures CloseInv(Next(s, e))
  {
  }

  lemma StepKeepsInv(s: State, e: Event)
    requires Inv(s) && Enabled(s, e)
    ensures Inv(Next(s, e))
  {
    TableStep(s, e);
    LockStep(s, e);
    CloseStep(s, e);
    RequestsStep(s, e);
    BooksStep(s, e);
  }

  lemma StartInv()
    ensures Inv(START)
  {
  }

  lemma {:induction false} RunKeepsInv(s: State, events: seq<Event>)
    requires Inv(s) && Possible(s, events)
    ensures Inv(Run(s, events))
    decreases |events|
  {
    if events != [] {
      StepKeepsInv(s, events[0]);
      RunKeepsInv(Next(s, events[0]), events[1..]);
    }
  }

  // ---------------------------------------------------------------- what every run guarantees

  /** While the forwarder is open, one four-tuple has at most one request that is not decided. */
  lemma OneUndecidedPerTuple(events: seq<Event>, a: nat, b: nat)
    requires Possible(START, events)
    requires var s := Run(START, events);
      && !s.closed && a < |s.requests| && b < |s.requests| && s.requests[a].tuple == s.requests[b].tuple
      && Open(s.requests[a].word) && Open(s.requests[b].word)
    ensures a == b
  {
    StartInv();
    RunKeepsInv(START, events);
  }

  /** Once close has gone through its requests, none is left undecided, whether or not its handler has returned. */
  lemma CloseDecidesAll(events: seq<Event>, r: nat)
    requires Possible(START, events)
    requires var s := Run(START, events);
      s.closed && s.closing == {} && s.closingSecond == {} && r < |s.requests|
    ensures !Undecided(Run(START, events).requests[r].word)
  {
    StartInv();
    RunKeepsInv(START, events);
  }

  /** When an update lets go of the lock, no request to a destination it refused is left undecided. */
  lemma UpdateDecidesRefused(events: seq<Event>, r: nat)
    requires Possible(START, events)
    requires var s := Run(START, events);
      && Enabled(s, UpdateEnd) && !s.closed && r < |s.requests| && s.requests[r].tuple in s.lock.refused
    ensures !Undecided(Run(START, events).requests[r].word)
  {
    StartInv();
    RunKeepsInv(START, events);
  }

  /** A handler that has returned leaves its request claimed or decided. */
  lemma ReturnDecides(events: seq<Event>, r: nat)
    requires Possible(START, events)
    requires var s := Run(START, events); r < |s.requests| && s.requests[r].handler == Returned
    ensures !Undecided(Run(START, events).requests[r].word)
  {
    StartInv();
    RunKeepsInv(START, events);
    assert RequestInv(Run(START, events), r);
  }

  /** Nothing is running: every handler has returned, every claim is settled and everything is counted. */
  ghost predicate AtRest(s: State) {
    && s.lock == Free && s.closing == {} && s.closingSecond == {}
    && forall r :: 0 <= r < |s.requests| ==>
          s.requests[r].handler == Returned && s.requests[r].todo == Nothing && s.requests[r].word != Claimed
  }

  function WithWord(w: Word): (p: Request -> bool) {
    (q: Request) => q.word == w
  }

  lemma {:induction false} EveryRequestHasOneWord(rs: seq<Request>)
    requires forall r :: 0 <= r < |rs| ==> Final(rs[r].word) && rs[r].todo == Nothing
    ensures |rs| == Tally(rs, Settled(Accepted)) + Tally(rs, Settled(Rejected)) + Tally(rs, Settled(Dropped))
      + Tally(rs, WithWord(Detached)) + Tally(rs, WithWord(Completed))
    decreases |rs|
  {
    if rs != [] {
      EveryRequestHasOneWord(rs[..|rs| - 1]);
    }
  }

  /**
   * At rest the books balance: every request was accepted, rejected, dropped, detached, or completed by
   * replies alone, where datagrams dropped because their tuple was busy are not requests.
   */
  lemma ConservationAtRest(events: seq<Event>)
    requires Possible(START, events) && AtRest(Run(START, events))
    ensures var s := Run(START, events);
      |s.requests| == s.accepted + s.rejected + (s.dropped - s.duplicates)
        + Tally(s.requests, WithWord(Detached)) + Tally(s.requests, WithWord(Completed))
  {
    StartInv();
    RunKeepsInv(START, events);
    var s := Run(START, events);
    forall r | 0 <= r < |s.requests| ensures Final(s.requests[r].word) {
      assert RequestInv(s, r);
    }
    EveryRequestHasOneWord(s.requests);
  }
}
