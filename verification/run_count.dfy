/**
 * Schilling's run-count recurrence A(n, c) (cormap.py, `A`), its meaning
 * as a count of binary words, and the memoised evaluation that the
 * `@cache` decorator performs.
 */
module RunCount {
  import opened BinaryWords

  /**
   * A(n, c): for n <= c every one of the 2^n words qualifies; otherwise the
   * sum of A(n-1-j, c) for j = c down to 0. For c < 0 that range is empty
   * and the sum is 0.
   */
  function A(n: nat, c: int): (r: nat)
    ensures c < 0 ==> r == 0
    ensures 0 <= c ==> r >= 1
    decreases n, 1, 0
  {
    if n <= c then Pow2(n) else Tail(n, c, 0)
  }

  /** The part of the sum in `A(n, c)` over j = lo .. c, that is, A(n-1-j, c) summed. */
  function Tail(n: nat, c: int, lo: nat): (r: nat)
    requires c < n
    ensures lo <= c ==> r >= 1
    decreases n, 0, c + 1 - lo
  {
    if c < lo then 0 else A(n - 1 - lo, c) + Tail(n, c, lo + 1)
  }

  /**
   * Automaton reference count: the number of words of length m that can
   * follow an open block of r ones without any block of ones exceeding c.
   */
  function Continuations(m: nat, r: nat, c: int): nat
  {
    if m == 0 then 1
    else Continuations(m - 1, 0, c) + (if r + 1 <= c then Continuations(m - 1, r + 1, c) else 0)
  }

  /** Reading `w` after an open block of r ones never makes a block of ones longer than c. */
  predicate OnesOk(w: seq<bool>, r: nat, c: int)
  {
    if |w| == 0 then true
    else if w[0] then r + 1 <= c && OnesOk(w[1..], r + 1, c)
    else OnesOk(w[1..], 0, c)
  }

  /** The automaton accepts exactly the words whose blocks of ones, the first one extended by r, stay within c. */
  lemma {:induction false} OnesOkMeaning(w: seq<bool>, r: nat, c: int)
    requires r <= c
    ensures OnesOk(w, r, c) <==> r + Lead(true, w) <= c && LongestOnes(w) <= c
  {
    if |w| > 0 {
      LeadAtMostLongestOnes(w[1..]);
      if w[0] {
        if r + 1 <= c {
          OnesOkMeaning(w[1..], r + 1, c);
        }
      } else {
        OnesOkMeaning(w[1..], 0, c);
      }
    }
  }

  /** One step of the automaton: a zero closes the open block of ones, a one extends it. */
  lemma OnesOkFirst(w: seq<bool>, r: nat, c: int)
    ensures OnesOk([false] + w, r, c) == OnesOk(w, 0, c)
    ensures OnesOk([true] + w, r, c) == (r + 1 <= c && OnesOk(w, r + 1, c))
  {
  }

  /** The automaton count is the number of accepted words of length m. */
  lemma {:induction false} ContinuationsCountWords(m: nat, r: nat, c: int)
    ensures Count(Words(m), w => OnesOk(w, r, c)) == Continuations(m, r, c)
  {
    if m > 0 {
      OnesOkSplit(m - 1, r, c);
      ContinuationsCountWords(m - 1, 0, c);
      if r + 1 <= c {
        ContinuationsCountWords(m - 1, r + 1, c);
      }
    }
  }

  /** Counting the accepted words of length m+1 by their first letter. */
  lemma OnesOkSplit(m: nat, r: nat, c: int)
    ensures Count(Words(m + 1), w => OnesOk(w, r, c)) ==
      Count(Words(m), w => OnesOk(w, 0, c)) +
      (if r + 1 <= c then Count(Words(m), w => OnesOk(w, r + 1, c)) else 0)
  {
    var extend := w => r + 1 <= c && OnesOk(w, r + 1, c);
    forall w ensures OnesOk([false] + w, r, c) == OnesOk(w, 0, c) && OnesOk([true] + w, r, c) == extend(w) {
      OnesOkFirst(w, r, c);
    }
    CountByFirst(m, w => OnesOk(w, r, c), w => OnesOk(w, 0, c), extend);
    if r + 1 <= c {
      CountCongruent(Words(m), extend, w => OnesOk(w, r + 1, c));
    } else {
      CountNone(Words(m), extend);
    }
  }

  /** The automaton count satisfies the recurrence, with the block of ones already open. */
  lemma {:induction false} ContinuationsRecurrence(m: nat, r: nat, c: int)
    requires r <= c
    ensures m <= c - r ==> Continuations(m, r, c) == Pow2(m)
    ensures m > c - r ==> Continuations(m, r, c) == DTail(m + r, c, r)
  {
    if m > 0 {
      ContinuationsRecurrence(m - 1, 0, c);
      if r + 1 <= c {
        ContinuationsRecurrence(m - 1, r + 1, c);
      }
      if m > c - r {
        assert DTail(m + r, c, r) == Continuations(m - 1, 0, c) + DTail(m + r, c, r + 1);
      }
    }
  }

  /** `Tail` with `Continuations(_, 0, c)` in place of A. */
  function DTail(n: nat, c: int, lo: nat): nat
    requires c < n
    decreases c + 1 - lo
  {
    if c < lo then 0 else Continuations(n - 1 - lo, 0, c) + DTail(n, c, lo + 1)
  }

  /** The recurrence A agrees with the automaton count for every bound c >= 0. */
  lemma {:induction false} AIsContinuations(n: nat, c: int)
    requires 0 <= c
    ensures A(n, c) == Continuations(n, 0, c)
    decreases n, 1, 0
  {
    ContinuationsRecurrence(n, 0, c);
    if n > c {
      TailIsDTail(n, c, 0);
    }
  }

  lemma {:induction false} TailIsDTail(n: nat, c: int, lo: nat)
    requires 0 <= c < n
    ensures Tail(n, c, lo) == DTail(n, c, lo)
    decreases n, 0, c + 1 - lo
  {
    if lo <= c {
      AIsContinuations(n - 1 - lo, c);
      TailIsDTail(n, c, lo + 1);
    }
  }

  /** For c < 0 the summation range is empty, so no length admits any word. */
  lemma ANegativeBound(n: nat, c: int)
    requires c < 0
    ensures A(n, c) == 0
  {
  }

  /**
   * What A counts: the number of words of length n whose longest block of
   * ones is at most c (none when c < 0, since even the empty word has a
   * longest block of length 0).
   */
  lemma ACountsWords(n: nat, c: int)
    ensures A(n, c) == Count(Words(n), w => LongestOnes(w) <= c)
  {
    if c < 0 {
      CountNone(Words(n), w => LongestOnes(w) <= c);
    } else {
      AIsContinuations(n, c);
      ContinuationsCountWords(n, 0, c);
      forall w ensures OnesOk(w, 0, c) == (LongestOnes(w) <= c) {
        OnesOkMeaning(w, 0, c);
        LeadAtMostLongestOnes(w);
      }
      CountCongruent(Words(n), w => OnesOk(w, 0, c), w => LongestOnes(w) <= c);
    }
  }

  /** A(n, c) lies between 0 and 2^n, and equals 2^n once the bound covers the length. */
  lemma ABounds(n: nat, c: int)
    ensures A(n, c) <= Pow2(n)
    ensures n <= c ==> A(n, c) == Pow2(n)
  {
    ACountsWords(n, c);
  }

  /** Allowing longer blocks never admits fewer words. */
  lemma AMonotone(n: nat, c: int)
    ensures A(n, c) <= A(n, c + 1)
  {
    ACountsWords(n, c);
    ACountsWords(n, c + 1);
    CountMonotone(Words(n), w => LongestOnes(w) <= c, w => LongestOnes(w) <= c + 1);
  }

  /** The values asserted at the end of cormap.py. */
  lemma ATestValues()
    ensures A(6, 3) == 56 && A(7, 3) == 108 && A(8, 3) == 208
  {
    assert A(0, 3) == 1 && A(1, 3) == 2 && A(2, 3) == 4 && A(3, 3) == 8;
    assert A(4, 3) == 15;
    assert A(5, 3) == 29;
  }

  /** The cache of the `@cache` decorator: every stored entry is A at its key. */
  ghost predicate Consistent(cache: map<(int, int), nat>)
  {
    forall k :: k in cache ==> k.0 >= 0 && cache[k] == A(k.0, k.1)
  }

  /**
   * Memoised A: looks the key up first, otherwise evaluates the recurrence
   * (summing j = c down to 0, as the source does) through the cache and
   * stores the result. Entries already present are never changed.
   */
  method MemoA(n: nat, c: int, cache: map<(int, int), nat>) returns (r: nat, cache': map<(int, int), nat>)
    requires Consistent(cache)
    ensures r == A(n, c)
    ensures Consistent(cache') && (n, c) in cache' && cache'[(n, c)] == r
    ensures forall k :: k in cache ==> k in cache' && cache'[k] == cache[k]
    decreases n
  {
    if (n, c) in cache {
      return cache[(n, c)], cache;
    }
    cache' := cache;
    if n <= c {
      r := Pow2(n);
    } else {
      var s := 0;
      var j := c;
      while j >= 0
        invariant j <= c && (-1 <= j || j == c)
        invariant s == Tail(n, c, if j < 0 then 0 else j + 1)
        invariant Consistent(cache')
        invariant forall k :: k in cache ==> k in cache' && cache'[k] == cache[k]
        decreases j
      {
        var v;
        v, cache' := MemoA(n - 1 - j, c, cache');
        s := s + v;
        j := j - 1;
      }
      r := s;
    }
    cache' := cache'[(n, c) := r];
  }
}
