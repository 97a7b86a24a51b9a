/**
 * The longest-run tail probability (cormap.py, `proba_longest_run`): the
 * probability that n fair coin tosses contain a run of identical outcomes
 * longer than c, computed as 1 - A(n-1, c-1) / 2^(n-1). Probabilities are
 * exact rationals (`real`).
 */
module Survival {
  import opened BinaryWords
  import opened RunCount

  /**
   * `proba_longest_run(n, c)`. For n = 0 the source evaluates A(-1, c-1),
   * which is 2^-1 when c - 1 >= -1 and the empty sum 0 otherwise, and then
   * divides by 2^-1; the branch below is the value that expression takes.
   */
  function ProbaLongestRun(n: nat, c: int): (r: real)
    ensures 0.0 <= r <= 1.0
  {
    if n == 0 then (if -1 <= c - 1 then 0.0 else 1.0)
    else
      ABounds(n - 1, c - 1);
      FractionBounds(A(n - 1, c - 1) as real, Pow2(n - 1) as real);
      1.0 - (A(n - 1, c - 1) as real) / (Pow2(n - 1) as real)
  }

  lemma FractionBounds(k: real, d: real)
    requires 0.0 <= k <= d && d > 0.0
    ensures 0.0 <= k / d <= 1.0
  {
  }

  /** Reading `w` after an open run of r copies of `b` never makes a run of equal letters longer than c. */
  predicate SignsOk(w: seq<bool>, b: bool, r: nat, c: int)
  {
    if |w| == 0 then true
    else if w[0] == b then r + 1 <= c && SignsOk(w[1..], b, r + 1, c)
    else SignsOk(w[1..], w[0], 1, c)
  }

  lemma {:induction false} SignsOkMeaning(w: seq<bool>, b: bool, r: nat, c: int)
    requires 1 <= r <= c
    ensures SignsOk(w, b, r, c) <==> r + Lead(b, w) <= c && Longest(w) <= c
  {
    if |w| > 0 {
      if w[0] == b {
        if r + 1 <= c {
          SignsOkMeaning(w[1..], b, r + 1, c);
        }
      } else {
        SignsOkMeaning(w[1..], w[0], 1, c);
      }
    }
  }

  /** One step of the automaton: the first letter either extends the open run or starts a new one. */
  lemma SignsOkFirst(w: seq<bool>, b: bool, r: nat, c: int)
    ensures SignsOk([b] + w, b, r, c) == (r + 1 <= c && SignsOk(w, b, r + 1, c))
    ensures SignsOk([!b] + w, b, r, c) == SignsOk(w, !b, 1, c)
  {
  }

  /**
   * Runs of equal letters after an open run of r behave like runs of ones
   * in the change indicator after an open block of r - 1: the count is the
   * same automaton count with the bound lowered by one.
   */
  lemma {:induction false} SignsOkCount(m: nat, b: bool, r: nat, c: int)
    requires 1 <= r <= c
    ensures Count(Words(m), w => SignsOk(w, b, r, c)) == Continuations(m, r - 1, c - 1)
  {
    if m > 0 {
      SignsOkSplit(m - 1, b, r, c);
      SignsOkCount(m - 1, !b, 1, c);
      if r + 1 <= c {
        SignsOkCount(m - 1, b, r + 1, c);
      }
    }
  }

  /** Counting the accepted words of length m+1 by whether the first letter extends the open run. */
  lemma SignsOkSplit(m: nat, b: bool, r: nat, c: int)
    ensures Count(Words(m + 1), w => SignsOk(w, b, r, c)) ==
      Count(Words(m), w => SignsOk(w, !b, 1, c)) +
      (if r + 1 <= c then Count(Words(m), w => SignsOk(w, b, r + 1, c)) else 0)
  {
    var extend := w => r + 1 <= c && SignsOk(w, b, r + 1, c);
    forall w ensures SignsOk([b] + w, b, r, c) == extend(w) && SignsOk([!b] + w, b, r, c) == SignsOk(w, !b, 1, c) {
      SignsOkFirst(w, b, r, c);
    }
    CountByLetter(m, b, w => SignsOk(w, b, r, c), extend, w => SignsOk(w, !b, 1, c));
    if r + 1 <= c {
      CountCongruent(Words(m), extend, w => SignsOk(w, b, r + 1, c));
    } else {
      CountNone(Words(m), extend);
    }
  }

  /** Among the 2^n words of length n >= 1, exactly 2 A(n-1, c-1) have no run of equal letters longer than c. */
  lemma LongestRunCount(n: nat, c: int)
    requires n >= 1
    ensures Count(Words(n), w => Longest(w) <= c) == 2 * A(n - 1, c - 1)
  {
    if c <= 0 {
      LongestRunCountNone(n, c);
    } else {
      LongestRunCountPositive(n, c);
    }
  }

  /** For a bound c >= 1, each first letter leaves an automaton whose count is A(n-1, c-1). */
  lemma LongestRunCountPositive(n: nat, c: int)
    requires n >= 1 && c >= 1
    ensures Count(Words(n), w => Longest(w) <= c) == 2 * A(n - 1, c - 1)
  {
    LongestRunCountByFirst(n, c);
    SignsOkCount(n - 1, false, 1, c);
    SignsOkCount(n - 1, true, 1, c);
    AIsContinuations(n - 1, c - 1);
  }

  /** A word of length n >= 1 always has a run of length at least 1, so no word stays within c <= 0. */
  lemma LongestRunCountNone(n: nat, c: int)
    requires n >= 1 && c <= 0
    ensures Count(Words(n), w => Longest(w) <= c) == 0
  {
    var p := w => Longest(w) <= c;
    forall w | w in Words(n) ensures !p(w) {
      LongestPositive(w);
    }
    CountNone(Words(n), p);
  }

  /** Splitting by the first letter: after it, the automaton starts with an open run of one. */
  lemma LongestRunCountByFirst(n: nat, c: int)
    requires n >= 1 && c >= 1
    ensures Count(Words(n), w => Longest(w) <= c) ==
      Count(Words(n - 1), w => SignsOk(w, false, 1, c)) + Count(Words(n - 1), w => SignsOk(w, true, 1, c))
  {
    var p := w => Longest(w) <= c;
    var p0 := w => SignsOk(w, false, 1, c);
    var p1 := w => SignsOk(w, true, 1, c);
    forall w ensures p0(w) == p([false] + w) && p1(w) == p([true] + w) {
      assert ([false] + w)[1..] == w;
      assert ([true] + w)[1..] == w;
      SignsOkMeaning(w, false, 1, c);
      SignsOkMeaning(w, true, 1, c);
    }
    CountByFirst(n - 1, p, p0, p1);
  }

  /**
   * The docstring's promise: `ProbaLongestRun(n, c)` is the fraction of the
   * 2^n equally likely toss sequences of length n that contain a run of
   * identical outcomes longer than c.
   */
  lemma ProbaIsRunFrequency(n: nat, c: int)
    ensures ProbaLongestRun(n, c) == RunLongerFrequency(n, c)
  {
    if n == 0 {
      ProbaFrequencyEmpty(c);
    } else {
      var longer := w => Longest(w) > c;
      var within := w => Longest(w) <= c;
      CountComplement(Words(n), longer, within);
      LongestRunCount(n, c);
      FrequencyFromCount(n, c, Count(Words(n), longer));
    }
  }

  /** If K words exceed the bound and the other 2 A(n-1, c-1) do not, the probability is K / 2^n. */
  lemma FrequencyFromCount(n: nat, c: int, longerCount: nat)
    requires n >= 1
    requires longerCount + 2 * A(n - 1, c - 1) == Pow2(n)
    ensures ProbaLongestRun(n, c) == (longerCount as real) / (Pow2(n) as real)
  {
    var h := Pow2(n - 1);
    var k := A(n - 1, c - 1);
    assert longerCount as real == 2.0 * (h as real) - 2.0 * (k as real);
    assert Pow2(n) as real == 2.0 * (h as real);
    HalvedFraction(h as real, k as real);
  }

  /** The empty toss sequence has a longest run of 0, which exceeds c exactly when c < 0. */
  lemma ProbaFrequencyEmpty(c: int)
    ensures ProbaLongestRun(0, c) == RunLongerFrequency(0, c)
  {
  }

  lemma Cancel(t: real, u: real, d: real)
    requires d != 0.0 && t * d == u * d
    ensures t == u
  {
  }

  lemma HalvedFraction(h: real, k: real)
    requires h > 0.0
    ensures (2.0 * h - 2.0 * k) / (2.0 * h) == 1.0 - k / h
  {
    var q := k / h;
    var t := (2.0 * h - 2.0 * k) / (2.0 * h);
    assert q * h == k;
    assert t * (2.0 * h) == 2.0 * h - 2.0 * k;
    assert (1.0 - q) * (2.0 * h) == 2.0 * h - 2.0 * q * h;
    Cancel(t, 1.0 - q, 2.0 * h);
  }

  lemma DivideMonotone(lo: real, hi: real, d: real)
    requires lo <= hi && d > 0.0
    ensures lo / d <= hi / d
  {
  }

  /** Reference definition: the fraction of the 2^n toss sequences of length n with a run longer than c. */
  function RunLongerFrequency(n: nat, c: int): real
  {
    (Count(Words(n), w => Longest(w) > c) as real) / (Pow2(n) as real)
  }

  /** Reference definition: the fraction of the 2^n toss sequences of length n with a run of at least L. */
  function RunAtLeastFrequency(n: nat, L: int): real
  {
    (Count(Words(n), w => Longest(w) >= L) as real) / (Pow2(n) as real)
  }

  /** With the bound one below an observed length L: the probability of a run at least L long. */
  lemma ProbaAtLeast(n: nat, L: int)
    ensures ProbaLongestRun(n, L - 1) == RunAtLeastFrequency(n, L)
  {
    ProbaIsRunFrequency(n, L - 1);
    CountCongruent(Words(n), w => Longest(w) > L - 1, w => Longest(w) >= L);
  }

  /** A bound of c <= 0 is exceeded by every non-empty toss sequence. */
  lemma ProbaCertainBelowOne(n: nat, c: int)
    requires n >= 1 && c <= 0
    ensures ProbaLongestRun(n, c) == 1.0
  {
  }

  /** Raising the bound never makes a longer run more likely. */
  lemma ProbaNonIncreasing(n: nat, c: int)
    ensures ProbaLongestRun(n, c + 1) <= ProbaLongestRun(n, c)
  {
    ProbaIsRunFrequency(n, c);
    ProbaIsRunFrequency(n, c + 1);
    CountMonotone(Words(n), w => Longest(w) > c + 1, w => Longest(w) > c);
    DivideMonotone(Count(Words(n), w => Longest(w) > c + 1) as real,
                   Count(Words(n), w => Longest(w) > c) as real, Pow2(n) as real);
  }

  /** The values asserted at the end of cormap.py: 107/256 and 48/256. */
  lemma ProbaTestValues()
    ensures ProbaLongestRun(9, 3) == 0.41796875
    ensures ProbaLongestRun(9, 4) == 0.1875
  {
    assert A(0, 2) == 1 && A(1, 2) == 2 && A(2, 2) == 4;
    assert A(3, 2) == 7;
    assert A(4, 2) == 13;
    assert A(5, 2) == 24;
    assert A(6, 2) == 44;
    assert A(7, 2) == 81;
    assert A(8, 2) == 149;
    ATestValues();
    assert Pow2(8) == 256;
  }
}
