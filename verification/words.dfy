/**
 * Binary words (coin-toss outcomes) of a fixed length, an explicit
 * enumeration of all of them, and counting of the words that satisfy a
 * predicate. The run-count recurrence and the longest-run probability are
 * given their meaning by counting over this enumeration.
 */
module BinaryWords {
  import opened Extrema

  /** 2^n as an exact natural number. */
  function Pow2(n: nat): (r: nat)
    ensures r >= 1
  {
    if n == 0 then 1 else 2 * Pow2(n - 1)
  }

  /** Prefix every word of `ws` with the letter `b`. */
  function Prepend(b: bool, ws: seq<seq<bool>>): (r: seq<seq<bool>>)
    ensures |r| == |ws|
    ensures forall i :: 0 <= i < |ws| ==> r[i] == [b] + ws[i]
  {
    seq(|ws|, i requires 0 <= i < |ws| => [b] + ws[i])
  }

  /** Every word of length n: those starting with `false`, then those starting with `true`. */
  function Words(n: nat): (r: seq<seq<bool>>)
    ensures |r| == Pow2(n)
    ensures forall i :: 0 <= i < |r| ==> |r[i]| == n
  {
    if n == 0 then [[]] else Prepend(false, Words(n - 1)) + Prepend(true, Words(n - 1))
  }

  /** The enumeration is complete: every word appears in it, at the position its letters spell in binary. */
  lemma {:induction false} WordsComplete(w: seq<bool>) returns (i: nat)
    ensures i < |Words(|w|)| && Words(|w|)[i] == w
  {
    if |w| == 0 {
      i := 0;
    } else {
      var tail := w[1..];
      var j := WordsComplete(tail);
      WordsHalves(|tail|, j);
      assert w == [w[0]] + tail;
      i := if w[0] then |Words(|tail|)| + j else j;
    }
  }

  /** Position i of each half of the words of length n+1 is the i-th word of length n, prefixed. */
  lemma WordsHalves(n: nat, i: nat)
    requires i < |Words(n)|
    ensures Words(n + 1)[i] == [false] + Words(n)[i]
    ensures Words(n + 1)[|Words(n)| + i] == [true] + Words(n)[i]
  {
  }

  /** The enumeration has no repetition, so it lists each word exactly once. */
  lemma {:induction false} WordsDistinct(n: nat)
    ensures forall i, j :: 0 <= i < j < |Words(n)| ==> Words(n)[i] != Words(n)[j]
  {
    if n > 0 {
      WordsDistinct(n - 1);
      var ws := Words(n);
      var half := |Words(n - 1)|;
      forall i, j | 0 <= i < j < |ws|
        ensures ws[i] != ws[j]
      {
        var ri := if i < half then i else i - half;
        var rj := if j < half then j else j - half;
        assert ws[i] == [i >= half] + Words(n - 1)[ri];
        assert ws[j] == [j >= half] + Words(n - 1)[rj];
        if (i < half) == (j < half) {
          // same first letter, distinct earlier words after it
          assert ri < rj;
          assert ws[i][1..] != ws[j][1..];
        } else {
          assert ws[i][0] != ws[j][0];
        }
      }
    }
  }

  /** Number of words of `ws` (with repetition) that satisfy `p`. */
  function Count(ws: seq<seq<bool>>, p: seq<bool> -> bool): (r: nat)
    ensures r <= |ws|
  {
    if |ws| == 0 then 0 else (if p(ws[0]) then 1 else 0) + Count(ws[1..], p)
  }

  lemma {:induction false} CountAppend(a: seq<seq<bool>>, b: seq<seq<bool>>, p: seq<bool> -> bool)
    ensures Count(a + b, p) == Count(a, p) + Count(b, p)
  {
    if |a| > 0 {
      assert (a + b)[1..] == a[1..] + b;
      CountAppend(a[1..], b, p);
    } else {
      assert a + b == b;
    }
  }

  /** Counting the prefixed words with `p` is counting the bare words with `q`. */
  lemma {:induction false} CountPrepend(b: bool, ws: seq<seq<bool>>, p: seq<bool> -> bool, q: seq<bool> -> bool)
    requires forall w :: q(w) == p([b] + w)
    ensures Count(Prepend(b, ws), p) == Count(ws, q)
  {
    if |ws| > 0 {
      assert Prepend(b, ws)[1..] == Prepend(b, ws[1..]);
      CountPrepend(b, ws[1..], p, q);
    }
  }

  /** Predicates that agree on the listed words count alike. */
  lemma {:induction false} CountCongruent(ws: seq<seq<bool>>, p: seq<bool> -> bool, q: seq<bool> -> bool)
    requires forall w :: w in ws ==> p(w) == q(w)
    ensures Count(ws, p) == Count(ws, q)
  {
    if |ws| > 0 {
      assert forall w :: w in ws[1..] ==> w in ws;
      CountCongruent(ws[1..], p, q);
    }
  }

  /** A predicate weaker on the listed words counts at least as many of them. */
  lemma {:induction false} CountMonotone(ws: seq<seq<bool>>, p: seq<bool> -> bool, q: seq<bool> -> bool)
    requires forall w :: w in ws ==> p(w) ==> q(w)
    ensures Count(ws, p) <= Count(ws, q)
  {
    if |ws| > 0 {
      assert forall w :: w in ws[1..] ==> w in ws;
      CountMonotone(ws[1..], p, q);
    }
  }

  /** A predicate and its negation split the words between them. */
  lemma {:induction false} CountComplement(ws: seq<seq<bool>>, p: seq<bool> -> bool, q: seq<bool> -> bool)
    requires forall w :: w in ws ==> q(w) == !p(w)
    ensures Count(ws, p) + Count(ws, q) == |ws|
  {
    if |ws| > 0 {
      assert forall w :: w in ws[1..] ==> w in ws;
      CountComplement(ws[1..], p, q);
    }
  }

  /** A predicate none of the listed words satisfies counts nothing. */
  lemma {:induction false} CountNone(ws: seq<seq<bool>>, p: seq<bool> -> bool)
    requires forall w :: w in ws ==> !p(w)
    ensures Count(ws, p) == 0
  {
    if |ws| > 0 {
      assert forall w :: w in ws[1..] ==> w in ws;
      CountNone(ws[1..], p);
    }
  }

  /** Counting the words of length n+1 by their first letter. */
  lemma CountByFirst(n: nat, p: seq<bool> -> bool, p0: seq<bool> -> bool, p1: seq<bool> -> bool)
    requires forall w :: p0(w) == p([false] + w)
    requires forall w :: p1(w) == p([true] + w)
    ensures Count(Words(n + 1), p) == Count(Words(n), p0) + Count(Words(n), p1)
  {
    CountAppend(Prepend(false, Words(n)), Prepend(true, Words(n)), p);
    CountPrepend(false, Words(n), p, p0);
    CountPrepend(true, Words(n), p, p1);
  }

  /** Counting the words of length n+1 by whether they start with `b`. */
  lemma CountByLetter(n: nat, b: bool, p: seq<bool> -> bool, pb: seq<bool> -> bool, po: seq<bool> -> bool)
    requires forall w :: pb(w) == p([b] + w) && po(w) == p([!b] + w)
    ensures Count(Words(n + 1), p) == Count(Words(n), pb) + Count(Words(n), po)
  {
    if b {
      CountByFirst(n, p, po, pb);
    } else {
      CountByFirst(n, p, pb, po);
    }
  }

  /** Length of the block of `b`s at the start of `w`. */
  function Lead(b: bool, w: seq<bool>): (r: nat)
    ensures r <= |w|
  {
    if |w| == 0 || w[0] != b then 0 else 1 + Lead(b, w[1..])
  }

  /** Length of the longest block of consecutive `true`s (ones) in `w`. */
  function LongestOnes(w: seq<bool>): nat
  {
    if |w| == 0 then 0 else Max(Lead(true, w), LongestOnes(w[1..]))
  }

  /** Length of the longest block of equal consecutive letters in `w` (heads or tails). */
  function Longest(w: seq<bool>): nat
  {
    if |w| == 0 then 0 else Max(Lead(w[0], w), Longest(w[1..]))
  }

  lemma {:induction false} LeadAtMostLongestOnes(w: seq<bool>)
    ensures Lead(true, w) <= LongestOnes(w)
  {
  }

  /** A non-empty word has a longest run of at least one letter. */
  lemma LongestPositive(w: seq<bool>)
    requires |w| > 0
    ensures Longest(w) >= 1
  {
  }
}
