/**
 * The run scanner (cormap.py, `longest_run`): the length of the longest
 * block of consecutive strictly positive, or consecutive strictly
 * negative, elements of a real sequence. Zeros belong to no run and end
 * any run in progress.
 */
module RunScanner {
  import opened Extrema

  /** The sign the scanner assigns to an element: 1, -1 or 0. */
  function Sign(v: real): (r: int)
    ensures -1 <= r <= 1
    ensures r > 0 <==> v > 0.0
    ensures r < 0 <==> v < 0.0
  {
    if v > 0.0 then 1 else if v < 0.0 then -1 else 0
  }

  function Abs(v: int): nat
  {
    if v < 0 then -v else v
  }

  /** `x[i..j]` is a run: every element in it is positive, or every element in it is negative. */
  ghost predicate IsRun(x: seq<real>, i: int, j: int)
  {
    && 0 <= i <= j <= |x|
    && ((forall k :: i <= k < j ==> x[k] > 0.0) || (forall k :: i <= k < j ==> x[k] < 0.0))
  }

  /** A run of length L starts at i. */
  ghost predicate RunAt(x: seq<real>, i: int, L: int)
  {
    IsRun(x, i, i + L)
  }

  /** L is the longest run length of `x`: some run has length L and none is longer. */
  ghost predicate IsLongestRunLength(x: seq<real>, L: int)
  {
    && (exists i :: RunAt(x, i, L))
    && (forall i, j :: IsRun(x, i, j) ==> j - i <= L)
  }

  /** Number of trailing elements of `x` whose sign is `s`. */
  function TrailOf(x: seq<real>, s: int): (r: nat)
    ensures r <= |x|
  {
    if |x| == 0 || Sign(x[|x| - 1]) != s then 0 else 1 + TrailOf(x[..|x| - 1], s)
  }

  /** Length of the run that ends at the last element (0 if `x` is empty or ends in a zero). */
  function TrailRun(x: seq<real>): nat
  {
    if |x| == 0 || Sign(x[|x| - 1]) == 0 then 0 else TrailOf(x, Sign(x[|x| - 1]))
  }

  /** Reference definition: the longest of the runs ending at each position. */
  function LongestRun(x: seq<real>): nat
  {
    if |x| == 0 then 0 else Max(LongestRun(x[..|x| - 1]), TrailRun(x))
  }

  lemma {:induction false} TrailOfIsBlock(x: seq<real>, s: int)
    ensures forall k :: |x| - TrailOf(x, s) <= k < |x| ==> Sign(x[k]) == s
  {
    if |x| > 0 && Sign(x[|x| - 1]) == s {
      var p := x[..|x| - 1];
      TrailOfIsBlock(p, s);
      assert forall k :: 0 <= k < |p| ==> p[k] == x[k];
    }
  }

  lemma {:induction false} TrailOfIsMaximal(x: seq<real>, s: int, i: int)
    requires 0 <= i <= |x|
    requires forall k :: i <= k < |x| ==> Sign(x[k]) == s
    ensures |x| - i <= TrailOf(x, s)
  {
    if i < |x| {
      var p := x[..|x| - 1];
      assert forall k :: 0 <= k < |p| ==> p[k] == x[k];
      TrailOfIsMaximal(p, s, i);
    }
  }

  /** A run that stops before the last element is a run of the prefix without it. */
  lemma RunOfPrefix(x: seq<real>, i: int, j: int)
    requires |x| > 0 && j < |x|
    ensures IsRun(x, i, j) <==> IsRun(x[..|x| - 1], i, j)
  {
  }

  /** The trailing run is a run, and every run reaching the end is no longer. */
  lemma TrailRunIsRun(x: seq<real>)
    ensures IsRun(x, |x| - TrailRun(x), |x|)
    ensures forall i :: IsRun(x, i, |x|) ==> |x| - i <= TrailRun(x)
  {
    if |x| > 0 {
      var s := Sign(x[|x| - 1]);
      if s != 0 {
        TrailOfIsBlock(x, s);
      }
      forall i | IsRun(x, i, |x|) ensures |x| - i <= TrailRun(x) {
        if i < |x| {
          if x[|x| - 1] > 0.0 {
            assert forall k :: i <= k < |x| ==> Sign(x[k]) == 1;
          } else {
            assert forall k :: i <= k < |x| ==> Sign(x[k]) == -1;
          }
          TrailOfIsMaximal(x, s, i);
        }
      }
    }
  }

  /** Appending one element: the new trailing run either extends the old one, restarts at 1, or is 0 after a zero. */
  lemma Snoc(p: seq<real>, v: real)
    ensures TrailRun(p + [v]) ==
      if Sign(v) == 0 then 0
      else if |p| > 0 && Sign(p[|p| - 1]) == Sign(v) then TrailRun(p) + 1
      else 1
    ensures LongestRun(p + [v]) == Max(LongestRun(p), TrailRun(p + [v]))
  {
  }

  /** The reference definition meets the block characterisation of the longest run. */
  lemma {:induction false} LongestRunIsLongest(x: seq<real>)
    ensures IsLongestRunLength(x, LongestRun(x))
  {
    var L := LongestRun(x);
    if |x| == 0 {
      assert RunAt(x, 0, 0);
    } else {
      var p := x[..|x| - 1];
      LongestRunIsLongest(p);
      TrailRunIsRun(x);
      if TrailRun(x) <= LongestRun(p) {
        var i :| RunAt(p, i, LongestRun(p));
        RunOfPrefix(x, i, i + L);
        assert RunAt(x, i, L);
      } else {
        assert RunAt(x, |x| - L, L);
      }
      forall i, j | IsRun(x, i, j) ensures j - i <= L {
        if j < |x| {
          RunOfPrefix(x, i, j);
        }
      }
    }
  }

  /** The block characterisation determines the length. */
  lemma LongestRunLengthUnique(x: seq<real>, L1: int, L2: int)
    requires IsLongestRunLength(x, L1) && IsLongestRunLength(x, L2)
    ensures L1 == L2
  {
  }

  /** The longest run is at most the whole sequence, and is 0 exactly when every element is zero. */
  lemma LongestRunBounds(x: seq<real>)
    ensures LongestRun(x) <= |x|
    ensures LongestRun(x) == 0 <==> forall k :: 0 <= k < |x| ==> x[k] == 0.0
  {
  }

  /** Elementwise negation. */
  function Negate(x: seq<real>): (r: seq<real>)
    ensures |r| == |x|
    ensures forall k :: 0 <= k < |x| ==> r[k] == -x[k]
  {
    seq(|x|, k requires 0 <= k < |x| => -x[k])
  }

  /** Negating every element swaps positive and negative runs and keeps the longest run. */
  lemma LongestRunNegate(x: seq<real>)
    ensures LongestRun(Negate(x)) == LongestRun(x)
  {
    var y := Negate(x);
    assert forall i, j :: IsRun(x, i, j) <==> IsRun(y, i, j);
    LongestRunIsLongest(x);
    LongestRunIsLongest(y);
    LongestRunLengthUnique(y, LongestRun(x), LongestRun(y));
  }

  /**
   * `longest_run(x)`: one pass keeping the previous sign and a signed run
   * length; a zero or a change of sign closes the current run.
   */
  method LongestRunScan(x: seq<real>) returns (longest: int)
    ensures longest == LongestRun(x)
    ensures IsLongestRunLength(x, longest)
  {
    var d := 0;
    var last := 0;
    var length := 0;
    longest := 0;
    for i := 0 to |x|
      invariant last == if i == 0 then 0 else Sign(x[i - 1])
      invariant length == last * TrailRun(x[..i])
      invariant 0 <= longest
      invariant Max(longest, Abs(length)) == LongestRun(x[..i])
    {
      assert x[..i + 1] == x[..i] + [x[i]];
      Snoc(x[..i], x[i]);
      if x[i] > 0.0 {
        d := 1;
      } else if x[i] < 0.0 {
        d := -1;
      } else {
        d := 0;
      }
      if d * last <= 0 {
        longest := Max(longest, Abs(length));
        length := d;
      } else {
        length := length + d;
      }
      last := d;
    }
    longest := Max(longest, Abs(length));
    assert x[..|x|] == x;
    LongestRunIsLongest(x);
  }

  /** The run lengths asserted at the end of cormap.py, one lemma per vector. */
  lemma TestVectorMixed()
    ensures LongestRun([1.0, 2.0, 3.0, -5.0, -5.0, 4.0, 3.0, -5.0, -1.0, -2.0, -4.0]) == 4
  {
    var s: seq<real> := [];
    Snoc(s, 1.0); s := s + [1.0];
    assert TrailRun(s) == 1 && LongestRun(s) == 1;
    Snoc(s, 2.0); s := s + [2.0];
    assert TrailRun(s) == 2 && LongestRun(s) == 2;
    Snoc(s, 3.0); s := s + [3.0];
    assert TrailRun(s) == 3 && LongestRun(s) == 3;
    Snoc(s, -5.0); s := s + [-5.0];
    assert TrailRun(s) == 1 && LongestRun(s) == 3;
    Snoc(s, -5.0); s := s + [-5.0];
    assert TrailRun(s) == 2 && LongestRun(s) == 3;
    Snoc(s, 4.0); s := s + [4.0];
    assert TrailRun(s) == 1 && LongestRun(s) == 3;
    Snoc(s, 3.0); s := s + [3.0];
    assert TrailRun(s) == 2 && LongestRun(s) == 3;
    Snoc(s, -5.0); s := s + [-5.0];
    assert TrailRun(s) == 1 && LongestRun(s) == 3;
    Snoc(s, -1.0); s := s + [-1.0];
    assert TrailRun(s) == 2 && LongestRun(s) == 3;
    Snoc(s, -2.0); s := s + [-2.0];
    assert TrailRun(s) == 3 && LongestRun(s) == 3;
    Snoc(s, -4.0); s := s + [-4.0];
    assert TrailRun(s) == 4 && LongestRun(s) == 4;
    assert s == [1.0, 2.0, 3.0, -5.0, -5.0, 4.0, 3.0, -5.0, -1.0, -2.0, -4.0];
  }

  lemma TestVectorNegatives()
    ensures LongestRun([-1.0, -1.0, -1.0, 0.0, 0.0, 0.0]) == 3
  {
    var s: seq<real> := [];
    Snoc(s, -1.0); s := s + [-1.0];
    assert TrailRun(s) == 1 && LongestRun(s) == 1;
    Snoc(s, -1.0); s := s + [-1.0];
    assert TrailRun(s) == 2 && LongestRun(s) == 2;
    Snoc(s, -1.0); s := s + [-1.0];
    assert TrailRun(s) == 3 && LongestRun(s) == 3;
    Snoc(s, 0.0); s := s + [0.0];
    assert TrailRun(s) == 0 && LongestRun(s) == 3;
    Snoc(s, 0.0); s := s + [0.0];
    assert TrailRun(s) == 0 && LongestRun(s) == 3;
    Snoc(s, 0.0); s := s + [0.0];
    assert TrailRun(s) == 0 && LongestRun(s) == 3;
    assert s == [-1.0, -1.0, -1.0, 0.0, 0.0, 0.0];
  }

  lemma TestVectorPositives()
    ensures LongestRun([1.0, 1.0, 1.0, 0.0, 0.0, 0.0]) == 3
  {
    var s: seq<real> := [];
    Snoc(s, 1.0); s := s + [1.0];
    assert TrailRun(s) == 1 && LongestRun(s) == 1;
    Snoc(s, 1.0); s := s + [1.0];
    assert TrailRun(s) == 2 && LongestRun(s) == 2;
    Snoc(s, 1.0); s := s + [1.0];
    assert TrailRun(s) == 3 && LongestRun(s) == 3;
    Snoc(s, 0.0); s := s + [0.0];
    assert TrailRun(s) == 0 && LongestRun(s) == 3;
    Snoc(s, 0.0); s := s + [0.0];
    assert TrailRun(s) == 0 && LongestRun(s) == 3;
    Snoc(s, 0.0); s := s + [0.0];
    assert TrailRun(s) == 0 && LongestRun(s) == 3;
    assert s == [1.0, 1.0, 1.0, 0.0, 0.0, 0.0];
  }

  lemma TestVectorSingle()
    ensures LongestRun([0.0, 0.0, -1.0, 0.0, 0.0, 0.0]) == 1
  {
    var s: seq<real> := [];
    Snoc(s, 0.0); s := s + [0.0];
    assert TrailRun(s) == 0 && LongestRun(s) == 0;
    Snoc(s, 0.0); s := s + [0.0];
    assert TrailRun(s) == 0 && LongestRun(s) == 0;
    Snoc(s, -1.0); s := s + [-1.0];
    assert TrailRun(s) == 1 && LongestRun(s) == 1;
    Snoc(s, 0.0); s := s + [0.0];
    assert TrailRun(s) == 0 && LongestRun(s) == 1;
    Snoc(s, 0.0); s := s + [0.0];
    assert TrailRun(s) == 0 && LongestRun(s) == 1;
    Snoc(s, 0.0); s := s + [0.0];
    assert TrailRun(s) == 0 && LongestRun(s) == 1;
    assert s == [0.0, 0.0, -1.0, 0.0, 0.0, 0.0];
  }
}
