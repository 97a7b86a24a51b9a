/**
 * The pairwise correlation map (cormap.py, `pval` and `make_cormap`):
 * every pair of curves is compared through the longest run of same-signed
 * residuals, and the resulting p-values are Bonferroni-corrected, clamped
 * at 1 and stored in a symmetric N x N matrix.
 */
module CorMap {
  import opened BinaryWords
  import opened RunCount
  import opened Survival
  import opened RunScanner

  /** Elementwise residual `b - a` of two curves of the same length. */
  function Diff(b: seq<real>, a: seq<real>): (r: seq<real>)
    requires |a| == |b|
    ensures |r| == |a|
    ensures forall k :: 0 <= k < |a| ==> r[k] == b[k] - a[k]
  {
    seq(|a|, k requires 0 <= k < |a| => b[k] - a[k])
  }

  /**
   * `pval(a, b)`: the probability of a run at least as long as the longest
   * run of the residual `b - a`, computed as the probability of a run
   * longer than that length minus one.
   */
  function PVal(a: seq<real>, b: seq<real>): (r: real)
    requires |a| == |b|
    ensures 0.0 <= r <= 1.0
  {
    ProbaLongestRun(|a|, LongestRun(Diff(b, a)) - 1)
  }

  /**
   * The p-value is the fraction of the 2^n equally likely toss sequences
   * of length n whose longest run is at least the observed one.
   */
  lemma PValIsTailProbability(a: seq<real>, b: seq<real>)
    requires |a| == |b|
    ensures PVal(a, b) == RunAtLeastFrequency(|a|, LongestRun(Diff(b, a)))
  {
    ProbaAtLeast(|a|, LongestRun(Diff(b, a)));
  }

  /** Swapping the curves negates the residual, which keeps its longest run. */
  lemma PValSymmetric(a: seq<real>, b: seq<real>)
    requires |a| == |b|
    ensures PVal(a, b) == PVal(b, a)
  {
    assert Diff(a, b) == Negate(Diff(b, a));
    LongestRunNegate(Diff(b, a));
  }

  /** A curve compared with itself has an all-zero residual, no run, and p-value 1. */
  lemma PValSelf(a: seq<real>)
    ensures PVal(a, a) == 1.0
  {
    LongestRunBounds(Diff(a, a));
    if |a| > 0 {
      ProbaCertainBelowOne(|a|, -1);
    }
  }

  /** `sum(range(n))`: the number of unordered pairs of n curves. */
  function Correction(n: nat): (r: nat)
    ensures 2 * r == n * (n - 1)
  {
    if n == 0 then 0 else Correction(n - 1) + (n - 1)
  }

  /** The p-value of one pair multiplied by the Bonferroni `correction` and clamped at 1 as `min(1.0, p)` does. */
  function AdjustedPVal(a: seq<real>, b: seq<real>, correction: nat): (r: real)
    requires |a| == |b|
    ensures 0.0 <= r <= 1.0
  {
    Adjust(PVal(a, b), correction)
  }

  /** A p-value multiplied by `correction` and clamped as `min(1.0, p)` does. */
  function Adjust(p: real, correction: nat): (r: real)
    requires 0.0 <= p
    ensures 0.0 <= r <= 1.0
    ensures r == p * (correction as real) || (r == 1.0 && p * (correction as real) >= 1.0)
  {
    var q := p * (correction as real);
    if q < 1.0 then q else 1.0
  }

  /** A smaller p-value never adjusts to a larger one, so the correction keeps the order of the pairs. */
  lemma AdjustMonotone(p: real, q: real, correction: nat)
    requires 0.0 <= p <= q
    ensures Adjust(p, correction) <= Adjust(q, correction)
  {
    var k := correction as real;
    assert q * k - p * k == (q - p) * k;
  }

  /** The adjusted p-value does not depend on the order of the pair. */
  lemma AdjustedPValSymmetric(a: seq<real>, b: seq<real>, correction: nat)
    requires |a| == |b|
    ensures AdjustedPVal(a, b, correction) == AdjustedPVal(b, a, correction)
  {
    PValSymmetric(a, b);
  }

  /**
   * The diagonal: a curve against itself has p-value 1, so the entry is the
   * correction clamped at 1, which is 1 for two or more curves and 0 for one.
   */
  lemma AdjustedPValSelf(a: seq<real>, n: nat)
    requires n >= 1
    ensures AdjustedPVal(a, a, Correction(n)) == if n >= 2 then 1.0 else 0.0
  {
    PValSelf(a);
    CorrectionSmall(n);
    var k := Correction(n) as real;
    assert PVal(a, a) * k == k;
    if n >= 2 {
      assert k >= 1.0;
    } else {
      assert k == 0.0;
    }
  }

  /** There is at least one pair once there are two curves, and none with a single curve. */
  lemma CorrectionSmall(n: nat)
    ensures n >= 2 ==> Correction(n) >= 1
    ensures n <= 1 ==> Correction(n) == 0
  {
  }

  /** All curves of the collection have the same length. */
  ghost predicate SameLength(data: seq<seq<real>>)
  {
    forall i, j :: 0 <= i < |data| && 0 <= j < |data| ==> |data[i]| == |data[j]|
  }

  /**
   * The loops of `make_cormap`: for every i and every j from i on, the
   * entry `f(i, j)` is written at (i, j) and mirrored at (j, i).
   */
  method FillMirrored(n: nat, f: (int, int) -> real) returns (m: array2<real>)
    ensures m.Length0 == n && m.Length1 == n
    ensures forall r, s :: 0 <= r <= s < n ==> m[r, s] == f(r, s) && m[s, r] == f(r, s)
  {
    m := new real[n, n]((_, _) => 0.0);
    for i := 0 to n
      invariant forall r, s :: 0 <= r < i && r <= s < n ==> m[r, s] == f(r, s) && m[s, r] == f(r, s)
    {
      for j := i to n
        invariant forall r, s :: 0 <= r < i && r <= s < n ==> m[r, s] == f(r, s) && m[s, r] == f(r, s)
        invariant forall s :: i <= s < j ==> m[i, s] == f(i, s) && m[s, i] == f(i, s)
      {
        var p := f(i, j);
        m[i, j] := p;
        m[j, i] := p;
      }
    }
  }

  /**
   * `make_cormap(data)`: the N x N map whose entry (i, j) is the adjusted
   * p-value of curves i and j, filled on the upper triangle, diagonal
   * included, and mirrored into the lower one.
   */
  method MakeCorMap(data: seq<seq<real>>) returns (cormap: array2<real>)
    requires SameLength(data)
    ensures cormap.Length0 == |data| && cormap.Length1 == |data|
    ensures forall i, j :: 0 <= i < |data| && 0 <= j < |data| ==>
      cormap[i, j] == AdjustedPVal(data[i], data[j], Correction(|data|))
    ensures forall i, j :: 0 <= i < |data| && 0 <= j < |data| ==>
      cormap[i, j] == cormap[j, i] && 0.0 <= cormap[i, j] <= 1.0
    ensures forall i :: 0 <= i < |data| ==> cormap[i, i] == if |data| >= 2 then 1.0 else 0.0
  {
    var n := |data|;
    var correction := Correction(n);
    var entry := (r: int, s: int) =>
      if 0 <= r < n && 0 <= s < n then AdjustedPVal(data[r], data[s], correction) else 0.0;
    cormap := FillMirrored(n, entry);
    forall i, j | 0 <= i < n && 0 <= j < n
      ensures cormap[i, j] == AdjustedPVal(data[i], data[j], correction)
    {
      if j < i {
        AdjustedPValSymmetric(data[j], data[i], correction);
      }
    }
    forall i | 0 <= i < n
      ensures cormap[i, i] == if n >= 2 then 1.0 else 0.0
    {
      AdjustedPValSelf(data[i], n);
    }
  }
}
