/** The constant-space windowed maximum of delivery rates, with 32-bit round numbers that wrap. */
module BandwidthFilter {

  const WRAP := 0x1_0000_0000

  /** One retained measurement; `round` is the low 32 bits of the packet-timed round. */
  datatype Sample = Sample(rate: real, round: nat)

  /** One measurement as it happened, its round counted without wrapping. */
  datatype Observation = Observation(rate: real, round: nat)

  function Kept(o: Observation): (s: Sample) {
    Sample(o.rate, o.round % WRAP)
  }

  /** Unsigned 32-bit subtraction. */
  function Minus(a: nat, b: nat): (d: nat)
    ensures d < WRAP
  {
    (a - b) % WRAP
  }

  /** The wrapped subtraction is the true age exactly when the age is shorter than the wrap. */
  lemma MinusIsAge(later: nat, earlier: nat)
    requires earlier <= later
    ensures Minus(later % WRAP, earlier % WRAP) == later - earlier <==> later - earlier < WRAP
  {
    var q, p := later / WRAP, earlier / WRAP;
    assert later == q * WRAP + later % WRAP && earlier == p * WRAP + earlier % WRAP;
  }

  /** Rounds never go back. */
  ghost predicate Ordered(history: seq<Observation>) {
    forall j, k :: 0 <= j <= k < |history| ==> history[j].round <= history[k].round
  }

  /** Nothing measured since `from` was faster than the measurement at `from`. */
  ghost predicate Tops(history: seq<Observation>, from: nat)
    requires from < |history|
  {
    forall k :: from <= k < |history| ==> history[k].rate <= history[from].rate
  }

  /** Which three measurements the filter holds. */
  datatype Choice = Choice(first: nat, second: nat, third: nat)

  /**
   * The three candidates are real measurements in the order they were made, none slower than the next,
   * and each tops everything measured since.
   */
  ghost predicate Held(samples: seq<Sample>, history: seq<Observation>, c: Choice) {
    && |samples| == 3 && Ordered(history)
    && c.first <= c.second <= c.third < |history|
    && samples[0] == Kept(history[c.first]) && samples[1] == Kept(history[c.second]) && samples[2] == Kept(history[c.third])
    && Tops(history, c.first) && Tops(history, c.second) && Tops(history, c.third)
  }

  /** How many rounds ago three held measurements were made. */
  datatype Ages = Ages(first: nat, second: nat, third: nat)

  ghost function AgesOf(history: seq<Observation>, c: Choice, round: nat): (a: Ages)
    requires Ordered(history) && history != [] && history[|history| - 1].round <= round
    requires c.first <= c.second <= c.third < |history|
  {
    Ages(round - history[c.first].round, round - history[c.second].round, round - history[c.third].round)
  }

  /**
   * Whether 32 bits tell the age of the candidate that an update ends up answering with: always if it starts over or
   * answers with the newest measurement; else the age of the first candidate that its wrapped subtraction does not
   * put outside the window must be shorter than the wrap.
   */
  predicate Told(window: nat, rate: real, samples: seq<Sample>, a: Ages)
    requires |samples| == 3
  {
    if rate >= samples[0].rate || a.third % WRAP > window then true
    else if a.first % WRAP <= window then a.first < WRAP
    else if rate >= samples[1].rate then true
    else if a.second % WRAP <= window then a.second < WRAP
    else rate >= samples[2].rate || a.third < WRAP
  }

  /** The ages once the newest measurement, of age zero, has taken its places. */
  function Admitted(a: Ages, rate: real, samples: seq<Sample>): (b: Ages)
    requires |samples| == 3
  {
    if rate >= samples[1].rate then Ages(a.first, 0, 0) else if rate >= samples[2].rate then Ages(a.first, a.second, 0) else a
  }

  /** The age of the candidate that the wrapped ages leave in front. */
  function Answer(b: Ages, window: nat): (age: nat) {
    if b.first % WRAP <= window then b.first else if b.second % WRAP <= window then b.second else b.third
  }

  lemma AnswerIsTold(window: nat, rate: real, samples: seq<Sample>, a: Ages)
    requires |samples| == 3 && window < WRAP && rate < samples[0].rate && a.third % WRAP <= window
    ensures Answer(Admitted(a, rate, samples), window) <= window <==> Told(window, rate, samples, a)
  {
    forall age | age in {a.first, a.second, a.third, 0} && age % WRAP <= window ensures age <= window <==> age < WRAP {
      Unwrapped(age, window);
    }
  }

  lemma Unwrapped(age: nat, window: nat)
    requires window < WRAP && age % WRAP <= window
    ensures age <= window <==> age < WRAP
  {
  }

  /** In particular, whenever the oldest candidate's age is. */
  lemma YoungIsTold(window: nat, rate: real, samples: seq<Sample>, a: Ages)
    requires |samples| == 3 && a.third <= a.second <= a.first < WRAP
    ensures Told(window, rate, samples, a)
  {
  }

  /** A pause of exactly 2^32 rounds is not noticed: a slower measurement leaves the old maximum in place. */
  lemma LongPauseIsNotTold(window: nat, fast: real, slow: real)
    requires slow < fast
    ensures var s := Sample(fast, 0); !Told(window, slow, [s, s, s], Ages(WRAP, WRAP, WRAP))
  {
  }

  lemma TopsLonger(history: seq<Observation>, from: nat, o: Observation)
    requires from < |history| && Tops(history, from) && o.rate <= history[from].rate
    ensures Tops(history + [o], from)
  {
  }

  lemma OrderedLonger(history: seq<Observation>, o: Observation)
    requires Ordered(history) && (history != [] ==> history[|history| - 1].round <= o.round)
    ensures Ordered(history + [o])
  {
  }

  /** The wrapped subtractions the filter makes are the ages modulo 2^32. */
  lemma WrappedAges(samples: seq<Sample>, history: seq<Observation>, c: Choice, round: nat)
    requires Held(samples, history, c) && history[|history| - 1].round <= round
    ensures var a := AgesOf(history, c, round);
      && Minus(round % WRAP, samples[0].round) == a.first % WRAP
      && Minus(round % WRAP, samples[1].round) == a.second % WRAP
      && Minus(round % WRAP, samples[2].round) == a.third % WRAP
      && a.third <= a.second <= a.first
  {
    MinusWraps(round, history[c.first].round);
    MinusWraps(round, history[c.second].round);
    MinusWraps(round, history[c.third].round);
  }

  lemma MinusWraps(later: nat, earlier: nat)
    requires earlier <= later
    ensures Minus(later % WRAP, earlier % WRAP) == (later - earlier) % WRAP
  {
    var q, p := later / WRAP, earlier / WRAP;
    assert later == q * WRAP + later % WRAP && earlier == p * WRAP + earlier % WRAP;
    SameRemainder(later % WRAP - earlier % WRAP, later - earlier, q - p);
  }

  lemma SameRemainder(x: int, n: int, k: int)
    requires n == x + k * WRAP
    ensures x % WRAP == n % WRAP
  {
  }

  class Filter {
    const samples: array<Sample>
    ghost var history: seq<Observation>
    ghost var choice: Choice

    /** Before the first measurement all candidates are zero. */
    ghost predicate Valid()
      reads this, samples
    {
      && samples.Length == 3
      && if history == [] then forall k :: 0 <= k < 3 ==> samples[k] == Sample(0.0, 0)
         else Held(samples[..], history, choice)
    }

    /** The answer lies within the window. */
    ghost predicate Current(window: nat)
      requires history != [] && choice.first < |history|
      reads this
    {
      history[|history| - 1].round - history[choice.first].round <= window
    }

    constructor ()
      ensures Valid() && history == [] && fresh(samples)
    {
      samples := new Sample[3](_ => Sample(0.0, 0));
      history := [];
      choice := Choice(0, 0, 0);
    }

    /** Replaces every candidate with one measurement. */
    method Reset(round: nat, rate: real, ghost o: Observation) returns (best: real)
      requires samples.Length == 3 && Kept(o) == Sample(rate, round) && Ordered(history + [o])
      modifies this`history, this`choice, samples
      ensures Valid() && history == old(history) + [o] && best == rate == samples[0].rate
      ensures choice == Choice(|old(history)|, |old(history)|, |old(history)|)
    {
      var sample := Sample(rate, round);
      samples[0], samples[1], samples[2] := sample, sample, sample;
      choice := Choice(|history|, |history|, |history|);
      history := history + [o];
      return rate;
    }

    /**
     * Takes one measurement and returns a rate really measured, at least every rate measured since. It was measured
     * within the last `window` rounds exactly when 32 bits told its age.
     */
    method Update(window: nat, round: nat, rate: real, ghost o: Observation) returns (best: real)
      requires Valid() && rate >= 0.0 && Kept(o) == Sample(rate, round) && window < WRAP
      requires history != [] ==> history[|history| - 1].round <= o.round
      modifies this`history, this`choice, samples
      ensures Valid() && history == old(history) + [o]
      ensures best == history[choice.first].rate
      ensures forall k :: choice.first <= k < |history| ==> history[k].rate <= best
      ensures samples[0].rate >= samples[1].rate >= samples[2].rate
      ensures rate >= old(samples[0].rate) ==> best == rate
      ensures Current(window) <==>
        old(history) == [] || Told(window, rate, old(samples[..]), AgesOf(old(history), old(choice), o.round))
    {
      OrderedLonger(history, o);
      if history != [] {
        WrappedAges(samples[..], history, choice, o.round);
      }
      var sample := Sample(rate, round);
      if rate >= samples[0].rate || Minus(round, samples[2].round) > window {
        best := Reset(round, rate, o);
        return;
      }
      ghost var ages, before := AgesOf(history, choice, o.round), samples[..];
      AnswerIsTold(window, rate, before, ages);
      Admit(sample, o);
      assert AgesOf(history, choice, o.round) == Admitted(ages, rate, before);
      best := Expire(window, sample, o);
    }

    /** A measurement slower than the best takes the place of those it is not slower than. */
    method Admit(sample: Sample, ghost o: Observation)
      requires samples.Length == 3 && history != [] && Kept(o) == sample && Held(samples[..], history, choice)
      requires sample.rate < samples[0].rate && Ordered(history + [o])
      modifies this`history, this`choice, samples
      ensures history == old(history) + [o] && Held(samples[..], history, choice)
      ensures var c, n := old(choice), |old(history)|;
        choice == if sample.rate >= old(samples[1].rate) then c.(second := n, third := n)
          else if sample.rate >= old(samples[2].rate) then c.(third := n) else c
    {
      ghost var n := |history|;
      ghost var longer := history + [o];
      assert samples[..][0] == samples[0] && samples[..][1] == samples[1] && samples[..][2] == samples[2];
      TopsLonger(history, choice.first, o);
      if sample.rate >= samples[1].rate {
        samples[1], samples[2] := sample, sample;
        choice := choice.(second := n, third := n);
      } else {
        TopsLonger(history, choice.second, o);
        if sample.rate >= samples[2].rate {
          samples[2] := sample;
          choice := choice.(third := n);
        } else {
          TopsLonger(history, choice.third, o);
        }
      }
      history := longer;
    }

    /** Drops candidates that seem to have left the window and spreads the others over it. */
    method Expire(window: nat, sample: Sample, ghost o: Observation) returns (best: real)
      requires samples.Length == 3 && history != [] && history[|history| - 1] == o && Kept(o) == sample
      requires Held(samples[..], history, choice)
      modifies this`choice, samples
      ensures Held(samples[..], history, choice)
      ensures best == samples[0].rate == history[choice.first].rate
      ensures var a := AgesOf(history, old(choice), o.round);
        o.round - history[choice.first].round == Answer(a, window)
    {
      ghost var n := |history| - 1;
      assert samples[..][0] == samples[0] && samples[..][1] == samples[1] && samples[..][2] == samples[2];
      WrappedAges(samples[..], history, choice, o.round);
      var delta := Minus(sample.round, samples[0].round);
      if delta > window {
        Shift(sample, n);
        if Minus(sample.round, samples[0].round) > window {
          Shift(sample, n);
        }
      } else if samples[1].round == samples[0].round && delta > window / 4 {
        samples[1], samples[2] := sample, sample;
        choice := choice.(second := n, third := n);
      } else if samples[2].round == samples[1].round && delta > window / 2 {
        samples[2] := sample;
        choice := choice.(third := n);
      }
      best := samples[0].rate;
    }

    /** The second candidate becomes the first, and the newest measurement the last. */
    method Shift(sample: Sample, ghost n: nat)
      requires samples.Length == 3 && n + 1 == |history| && Kept(history[n]) == sample
      requires Held(samples[..], history, choice)
      modifies this`choice, samples
      ensures Held(samples[..], history, choice)
      ensures choice == Choice(old(choice).second, old(choice).third, n) && samples[0] == old(samples[1])
    {
      assert samples[..][0] == samples[0] && samples[..][1] == samples[1] && samples[..][2] == samples[2];
      samples[0], samples[1], samples[2] := samples[1], samples[2], sample;
      choice := Choice(choice.second, choice.third, n);
    }
  }
}
