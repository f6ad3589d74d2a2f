/** The multiply-and-reject reduction of a 64-bit random word to a bounded value, and why it is exactly uniform. */
module UniformRandom {
  import opened Wrappers

  const WORDS := 0x1_0000_0000_0000_0000

  // ---------------------------------------------------------------- the reduction

  /** The high word of the 128-bit product. */
  function High(v: nat, limit: nat): (h: nat) {
    v * limit / WORDS
  }

  /** The low word of the 128-bit product. */
  function Low(v: nat, limit: nat): (l: nat)
    ensures l < WORDS
  {
    v * limit % WORDS
  }

  /** `-limit % limit` in unsigned 64-bit arithmetic. */
  function Threshold(limit: nat): (t: nat)
    requires 0 < limit < WORDS
    ensures t < limit
  {
    (WORDS - limit) % limit
  }

  /** The reduction of one word, or nothing when the word is rejected. */
  function Reduced(v: nat, limit: nat): (r: Option<nat>)
    requires 0 < limit < WORDS
  {
    if Low(v, limit) >= Threshold(limit) then Some(High(v, limit)) else None
  }

  /** The words that reduce to `k`. */
  ghost function Preimage(k: nat, limit: nat): (vs: set<nat>)
    requires 0 < limit < WORDS
  {
    set v: nat | v < WORDS && Reduced(v, limit) == Some(k)
  }

  // ---------------------------------------------------------------- counting

  /** `count` consecutive numbers. */
  function Range(from: nat, count: nat): (r: set<nat>)
    ensures |r| == count
    ensures forall v: nat {:trigger v in r} :: v in r <==> from <= v < from + count
  {
    if count == 0 then {} else Range(from, count - 1) + {from + count - 1}
  }

  lemma DivisionFacts(a: nat, d: nat)
    requires d > 0
    ensures a == d * (a / d) + a % d && 0 <= a % d < d
  {
  }

  /** The quotient and the remainder are the only ones that fit. */
  lemma DivisionIsUnique(a: nat, d: nat, q: int, r: int)
    requires d > 0 && a == d * q + r && 0 <= r < d
    ensures a / d == q && a % d == r
  {
    DivisionFacts(a, d);
    if a / d > q {
      assert d * (a / d) >= d * (q + 1) by { Monotone(d, q + 1, a / d); }
    } else if a / d < q {
      assert d * q >= d * (a / d + 1) by { Monotone(d, a / d + 1, q); }
    }
  }

  lemma Monotone(d: nat, a: int, b: int)
    requires a <= b
    ensures d * a <= d * b
  {
    assert d * b - d * a == d * (b - a);
  }

  lemma QuotientBelow(a: nat, d: nat, q: nat)
    requires d > 0 && a < d * q
    ensures a / d < q
  {
    DivisionFacts(a, d);
    if a / d >= q {
      Monotone(d, q, a / d);
    }
  }

  lemma ThresholdIsRemainder(limit: nat)
    requires 0 < limit < WORDS
    ensures Threshold(limit) == WORDS % limit
  {
    DivisionFacts(WORDS, limit);
    var q, r := WORDS / limit, WORDS % limit;
    assert limit * q == limit * (q - 1) + limit;
    DivisionIsUnique(WORDS - limit, limit, q - 1, r);
  }

  /** The first multiple of `d` at or after `a`. */
  function CeilDiv(a: nat, d: nat): (q: nat)
    requires d > 0
    ensures d * q >= a && (q > 0 ==> d * (q - 1) < a)
  {
    DivisionFacts(a, d);
    assert d * (a / d + 1) == d * (a / d) + d;
    if a % d == 0 then
      assert d * (a / d - 1) == d * (a / d) - d;
      a / d
    else a / d + 1
  }

  /** A word reduces to `k` exactly when its product lies in the part of the k-th interval above the threshold. */
  lemma ReducesTo(v: nat, k: nat, limit: nat)
    requires 0 < limit < WORDS
    ensures Reduced(v, limit) == Some(k) <==> k * WORDS + Threshold(limit) <= v * limit < (k + 1) * WORDS
  {
    var p := v * limit;
    DivisionFacts(p, WORDS);
    if k * WORDS + Threshold(limit) <= p < (k + 1) * WORDS {
      DivisionIsUnique(p, WORDS, k, p - k * WORDS);
    }
  }

  /** The length of that part is a multiple of the limit. */
  lemma IntervalLength(limit: nat)
    requires 0 < limit < WORDS
    ensures WORDS - Threshold(limit) == limit * (WORDS / limit)
  {
    ThresholdIsRemainder(limit);
    DivisionFacts(WORDS, limit);
  }

  /** So it holds exactly as many products as the quotient, wherever it starts. */
  lemma PreimageIsRange(k: nat, limit: nat)
    requires 0 < limit < WORDS && k < limit
    ensures Preimage(k, limit) == Range(CeilDiv(k * WORDS + Threshold(limit), limit), WORDS / limit)
  {
    var start := k * WORDS + Threshold(limit);
    var from, q := CeilDiv(start, limit), WORDS / limit;
    IntervalLength(limit);
    assert (k + 1) * WORDS == start + limit * q;
    forall v: nat {:trigger v in Preimage(k, limit)} ensures v in Preimage(k, limit) <==> v in Range(from, q) {
      ReducesTo(v, k, limit);
      InRange(v, from, q, start, limit);
      if from <= v < from + q {
        BelowWords(v, k, limit);
      }
    }
  }

  lemma InRange(v: nat, from: nat, q: nat, start: nat, limit: nat)
    requires limit > 0 && limit * from >= start && (from > 0 ==> limit * (from - 1) < start)
    ensures start <= v * limit < start + limit * q <==> from <= v < from + q
  {
    assert v * limit == limit * v;
    assert limit * (from + q) == limit * from + limit * q;
    if v < from {
      Monotone(limit, v, from - 1);
    } else {
      Monotone(limit, from, v);
      if v < from + q {
        Monotone(limit, v, from + q - 1);
        assert limit * (from + q - 1) == limit * (from - 1) + limit * q;
      } else {
        Monotone(limit, from + q, v);
      }
    }
  }

  lemma BelowWords(v: nat, k: nat, limit: nat)
    requires 0 < limit < WORDS && k < limit && v * limit < (k + 1) * WORDS
    ensures v < WORDS
  {
    Monotone(WORDS, k + 1, limit);
    assert limit * v == v * limit;
    if v >= WORDS {
      Monotone(limit, WORDS, v);
    }
  }

  /** Every result has exactly the same number of accepted words: the reduction is exactly uniform. */
  lemma ExactlyUniform(k: nat, limit: nat)
    requires 0 < limit < WORDS && k < limit
    ensures |Preimage(k, limit)| == WORDS / limit
  {
    PreimageIsRange(k, limit);
  }

  /** Nothing outside [0, limit) is ever returned. */
  lemma ResultsAreBounded(v: nat, limit: nat)
    requires 0 < limit < WORDS && v < WORDS
    ensures Reduced(v, limit).Some? ==> Reduced(v, limit).value < limit
  {
    Monotone(limit, v, WORDS - 1);
    assert v * limit == limit * v && limit * (WORDS - 1) == limit * WORDS - limit;
    QuotientBelow(v * limit, WORDS, limit);
  }

  // ---------------------------------------------------------------- the loops

  /** The words the generator yields are given; the reduction of the first accepted one, or nothing if all are rejected. */
  function FirstAccepted(words: seq<nat>, limit: nat): (r: Option<nat>)
    requires 0 < limit < WORDS
  {
    if words == [] then None
    else if Reduced(words[0], limit).Some? then Reduced(words[0], limit) else FirstAccepted(words[1..], limit)
  }

  /** A bounded value from the generator's next words. */
  method RandomBelow(words: seq<nat>, limit: nat) returns (r: Option<nat>)
    requires limit < WORDS && forall i :: 0 <= i < |words| ==> words[i] < WORDS
    ensures limit <= 1 ==> r == Some(0)
    ensures limit > 1 ==> r == FirstAccepted(words, limit)
    ensures limit > 1 && r.Some? ==> r.value < limit
  {
    if limit <= 1 {
      return Some(0);
    }
    var threshold := (WORDS - limit) % limit;
    for i := 0 to |words|
      invariant FirstAccepted(words, limit) == FirstAccepted(words[i..], limit)
    {
      var result, remainder := words[i] * limit / WORDS, words[i] * limit % WORDS;
      if remainder >= threshold {
        ResultsAreBounded(words[i], limit);
        return Some(result);
      }
      assert words[i..][1..] == words[i + 1..];
    }
    return None;
  }

  // ---------------------------------------------------------------- the initial phase of the gain cycle

  const PHASES := 8
  const DRAIN := 1

  /** The phase a choice stands for: counting back from the end, so that draining is never first. */
  function PhaseOf(choice: nat): (p: nat) {
    (PHASES - choice % PHASES) % PHASES
  }

  /** The words that start the cycle in phase `p`. */
  ghost function PhaseWords(p: nat): (vs: set<nat>) {
    set v: nat {:trigger Reduced(v, PHASES - 1)} | v < WORDS && Reduced(v, PHASES - 1).Some? && PhaseOf(Reduced(v, PHASES - 1).value) == p
  }

  /** Every phase but draining is equally likely, exactly, and draining never comes first. */
  lemma InitialPhaseIsUniform(p: nat)
    requires p < PHASES
    ensures |PhaseWords(p)| == if p == DRAIN then 0 else WORDS / (PHASES - 1)
  {
    var choice := if p == 0 then 0 else PHASES - p;
    if p == DRAIN {
      if v :| v in PhaseWords(p) {
        ResultsAreBounded(v, PHASES - 1);
        assert false;
      }
      assert PhaseWords(p) == {};
    } else {
      forall v | v in PhaseWords(p) ensures v in Preimage(choice, PHASES - 1) {
        ResultsAreBounded(v, PHASES - 1);
      }
      assert PhaseWords(p) == Preimage(choice, PHASES - 1);
      ExactlyUniform(choice, PHASES - 1);
    }
  }

  /** Draws the initial phase of the gain cycle. */
  method InitialCycle(words: seq<nat>) returns (p: Option<nat>)
    requires forall i :: 0 <= i < |words| ==> words[i] < WORDS
    ensures p.Some? <==> FirstAccepted(words, PHASES - 1).Some?
    ensures p.Some? ==> p.value == PhaseOf(FirstAccepted(words, PHASES - 1).value) && p.value < PHASES && p.value != DRAIN
  {
    var choice := RandomBelow(words, PHASES - 1);
    if choice.None? {
      return None;
    }
    return Some((PHASES - choice.value) % PHASES);
  }
}
