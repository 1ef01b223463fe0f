/** The sequence-level work of the three combinators: the cumulative
    probabilities and the bucket selection of MultipleClickModel, the
    pointwise `np.all` / `np.any` reduction of ConditionedClickModel, and the
    prefix-count truncation of MaxClicksModel. */
module Combinators {
  import opened Masks

  // ---------------------------------------------------------------------
  // MultipleClickModel: validation and cumulative-bucket selection
  // ---------------------------------------------------------------------

  /** `np.sum` over probabilities, exact. */
  function SumReal(p: seq<real>): (total: real) {
    if p == [] then 0.0 else SumReal(p[..|p| - 1]) + p[|p| - 1]
  }

  /** `np.array(p).cumsum()`: entry `i` is the sum of the first `i + 1`
      probabilities. */
  function CumSum(p: seq<real>): (c: seq<real>)
    ensures |c| == |p|
    ensures forall i :: 0 <= i < |p| ==> c[i] == SumReal(p[..i + 1])
  {
    if p == [] then []
    else
      var init := p[..|p| - 1];
      forall i | 0 <= i < |init|
        ensures CumSum(init)[i] == SumReal(p[..i + 1])
      {
        assert init[..i + 1] == p[..i + 1];
      }
      assert p[..|p|] == p;
      CumSum(init) + [SumReal(p)]
  }

  function Abs(x: real): (r: real) {
    if x < 0.0 then -x else x
  }

  function Max(x: real, y: real): (r: real) {
    if x < y then y else x
  }

  /** The default relative tolerance of Python's `math.isclose`. */
  const RelTol: real := 0.000000001

  /** The absolute tolerance the probabilities' sum is checked with. */
  const SumTolerance: real := 0.00001

  /** `math.isclose(a, b, abs_tol=absTol)` with its default relative
      tolerance. */
  predicate IsClose(a: real, b: real, absTol: real) {
    Abs(a - b) <= Max(RelTol * Max(Abs(a), Abs(b)), absTol)
  }

  /** Near 1.0 the relative tolerance never matters: the constructor's check
      is exactly |sum - 1| <= 1e-5. */
  lemma IsCloseToOne(s: real)
    ensures IsClose(s, 1.0, SumTolerance) <==> Abs(s - 1.0) <= SumTolerance
  {
    if s > 1.0 {
      assert RelTol * Max(Abs(s), 1.0) == RelTol * s;
    }
  }

  /** `np.argmax` over a boolean array: the first True, or 0 when every entry
      is False. */
  function ArgMax(bs: seq<bool>): (r: nat)
    requires |bs| > 0
    ensures r < |bs|
    ensures (exists i :: 0 <= i < |bs| && bs[i]) ==> bs[r] && forall j :: 0 <= j < r ==> !bs[j]
    ensures (forall i :: 0 <= i < |bs| ==> !bs[i]) ==> r == 0
  {
    if bs[0] || |bs| == 1 then 0
    else
      var r := ArgMax(bs[1..]);
      assert forall i :: 1 <= i < |bs| ==> bs[i] == bs[1..][i - 1];
      if bs[1..][r] then 1 + r else 0
  }

  /** `np.argmax(u < cumulative)`: the child a draw `u` selects. */
  function Select(u: real, cumulative: seq<real>): (r: nat)
    requires |cumulative| > 0
    ensures r < |cumulative|
    ensures (exists i :: 0 <= i < |cumulative| && u < cumulative[i]) ==>
              u < cumulative[r] && forall j :: 0 <= j < r ==> cumulative[j] <= u
    ensures (forall i :: 0 <= i < |cumulative| ==> cumulative[i] <= u) ==> r == 0
  {
    var below := seq(|cumulative|, i requires 0 <= i < |cumulative| => u < cumulative[i]);
    assert forall i :: 0 <= i < |cumulative| ==> (below[i] <==> u < cumulative[i]);
    ArgMax(below)
  }

  lemma SumRealStep(p: seq<real>, i: nat)
    requires i < |p|
    ensures SumReal(p[..i + 1]) == SumReal(p[..i]) + p[i]
  {
    assert p[..i + 1][..i] == p[..i];
  }

  /** `CumSum`'s postcondition at one index, so that callers can instantiate
      it without the quantifier being matched against every slice in scope. */
  lemma CumSumAt(p: seq<real>, i: nat)
    requires i < |p|
    ensures CumSum(p)[i] == SumReal(p[..i + 1])
  {
  }

  /** Each cumulative sum adds one probability to the one before it; the
      last is the total. */
  lemma CumSumStep(p: seq<real>, i: nat)
    requires i < |p|
    ensures CumSum(p)[i] == (if i == 0 then 0.0 else CumSum(p)[i - 1]) + p[i]
    ensures i == |p| - 1 ==> CumSum(p)[i] == SumReal(p)
  {
    CumSumAt(p, i);
    SumRealStep(p, i);
    if i > 0 {
      CumSumAt(p, i - 1);
    }
    assert p[..|p|] == p;
  }

  /** With a draw in [0, total) of the probabilities, the selected child `r`
      is the one whose bucket [c[r-1], c[r]) of the cumulative sums `c`
      holds the draw (the bucket of child 0 starts at 0); in particular a
      child of probability 0 (or less) is never selected. */
  lemma SelectBucket(p: seq<real>, u: real)
    requires |p| > 0
    requires 0.0 <= u < SumReal(p)
    ensures var c := CumSum(p);
            var r := Select(u, c);
            && (if r == 0 then 0.0 else c[r - 1]) <= u < c[r]
            && p[r] > 0.0
  {
    var c := CumSum(p);
    CumSumStep(p, |p| - 1);
    assert u < c[|p| - 1];
    var r := Select(u, c);
    CumSumStep(p, r);
    if r > 0 {
      assert c[r - 1] <= u;
    }
  }

  /** The fallback of `np.argmax`: a draw at or above every cumulative sum,
      possible when the probabilities sum to slightly less than 1 yet pass the
      1e-5 check, selects child 0, even when child 0 has probability 0. */
  lemma ZeroProbabilityFallback()
    ensures IsClose(SumReal([0.0, 0.999995]), 1.0, SumTolerance)
    ensures Select(0.999999, CumSum([0.0, 0.999995])) == 0
  {
    var p := [0.0, 0.999995];
    assert p[..1] == [0.0] && p[..2] == p;
    assert SumReal(p) == 0.999995;
    var c := CumSum(p);
    assert c[0] == 0.0 && c[1] == 0.999995;
  }

  // ---------------------------------------------------------------------
  // ConditionedClickModel: the pointwise reductions
  // ---------------------------------------------------------------------

  /** The two reductions the source names, `np.all` and `np.any`. */
  datatype Combiner = All | Any

  /** Every one of the `masks` has length `n`. */
  predicate AllOfLength(masks: seq<seq<int>>, n: nat) {
    forall j :: 0 <= j < |masks| ==> |masks[j]| == n
  }

  /** `combiner(masks, 0)`: reduce the masks along the "which model" axis,
      one mask at a time (`logical_and.reduce` / `logical_or.reduce`), with
      True as 1. */
  function Combine(c: Combiner, masks: seq<seq<int>>, n: nat): (r: seq<int>)
    requires AllOfLength(masks, n)
    ensures |r| == n && IsBinary(r)
    decreases |masks|
  {
    if masks == [] then
      seq(n, _ => if c == All then 1 else 0)
    else
      var acc := Combine(c, masks[..|masks| - 1], n);
      var last := masks[|masks| - 1];
      seq(n, i requires 0 <= i < n =>
        if c == All then (if acc[i] != 0 && last[i] != 0 then 1 else 0)
        else (if acc[i] != 0 || last[i] != 0 then 1 else 0))
  }

  /** With `np.all` a document is clicked iff every mask has a nonzero entry
      there; with `np.any` iff some mask has. */
  lemma {:induction false} CombineAt(c: Combiner, masks: seq<seq<int>>, n: nat, i: nat)
    requires AllOfLength(masks, n) && i < n
    ensures c == All ==>
              (Combine(c, masks, n)[i] == 1 <==> forall j :: 0 <= j < |masks| ==> masks[j][i] != 0)
    ensures c == Any ==>
              (Combine(c, masks, n)[i] == 1 <==> exists j :: 0 <= j < |masks| && masks[j][i] != 0)
    decreases |masks|
  {
    if masks != [] {
      var init := masks[..|masks| - 1];
      CombineAt(c, init, n, i);
      assert forall j :: 0 <= j < |init| ==> init[j] == masks[j];
    }
  }

  /** The ConditionedClickModel example: `np.all` and `np.any` over
      [1,0,1] and [1,1,1]. */
  lemma CombineExample()
    ensures Combine(All, [[1, 0, 1], [1, 1, 1]], 3) == [1, 0, 1]
    ensures Combine(Any, [[1, 0, 1], [1, 1, 1]], 3) == [1, 1, 1]
  {
    var ms := [[1, 0, 1], [1, 1, 1]];
    forall i | 0 <= i < 3
      ensures Combine(All, ms, 3)[i] == [1, 0, 1][i]
      ensures Combine(Any, ms, 3)[i] == [1, 1, 1][i]
    {
      CombineAt(All, ms, 3, i);
      CombineAt(Any, ms, 3, i);
    }
  }

  // ---------------------------------------------------------------------
  // MaxClicksModel: keep clicks while the running count stays within k
  // ---------------------------------------------------------------------

  /** `underlying * (underlying.cumsum() <= k)`: entry `i` survives when the
      clicks up to and including `i` number at most `k`. */
  function Truncate(u: seq<int>, k: int): (r: seq<int>)
    ensures |r| == |u|
    ensures IsBinary(u) ==> IsBinary(r)
  {
    seq(|u|, i requires 0 <= i < |u| => u[i] * (if Sum(u[..i + 1]) <= k then 1 else 0))
  }

  /** The running count in document order: one pass with a counter, the
      imperative form of the `cumsum` comparison. */
  method KeepFirstClicks(u: seq<int>, k: int) returns (out: seq<int>)
    ensures out == Truncate(u, k)
  {
    var count := 0;
    out := [];
    for i := 0 to |u|
      invariant count == Sum(u[..i])
      invariant |out| == i
      invariant forall j :: 0 <= j < i ==> out[j] == Truncate(u, k)[j]
    {
      assert u[..i + 1][..i] == u[..i];
      count := count + u[i];
      out := out + [if count <= k then u[i] else 0];
    }
  }

  /** The number of clicks kept: none when `k` is negative, otherwise the
      underlying number capped at `k`. */
  function Capped(clicks: int, k: int): (kept: int) {
    if k < 0 then 0 else if clicks <= k then clicks else k
  }

  lemma TruncatePrefix(u: seq<int>, k: int, m: nat)
    requires m <= |u|
    ensures Truncate(u, k)[..m] == Truncate(u[..m], k)
  {
    forall i | 0 <= i < m
      ensures Truncate(u, k)[i] == Truncate(u[..m], k)[i]
    {
      assert u[..m][..i + 1] == u[..i + 1];
    }
  }

  /** A clicked document is kept or dropped, never added: the output is
      pointwise at most the underlying mask. */
  lemma TruncateBelow(u: seq<int>, k: int)
    requires IsBinary(u)
    ensures forall i :: 0 <= i < |u| ==> Truncate(u, k)[i] <= u[i]
    ensures forall i :: 0 <= i < |u| ==> Truncate(u, k)[i] == u[i] || Truncate(u, k)[i] == 0
  {
  }

  /** Exactly min(k, clicks) clicks remain (none for negative k). */
  lemma {:induction false} TruncateSum(u: seq<int>, k: int)
    requires IsBinary(u)
    ensures Sum(Truncate(u, k)) == Capped(Sum(u), k)
  {
    if u != [] {
      var m := |u| - 1;
      var t := Truncate(u, k);
      TruncatePrefix(u, k, m);
      assert t[..m] == Truncate(u[..m], k);
      TruncateSum(u[..m], k);
      assert u[..m + 1] == u;
      SumBinaryBounds(u[..m]);
    }
  }

  /** Limiting twice to the same `k` is limiting once. */
  lemma TruncateIdempotent(u: seq<int>, k: int)
    requires IsBinary(u)
    ensures Truncate(Truncate(u, k), k) == Truncate(u, k)
  {
    var t := Truncate(u, k);
    forall i | 0 <= i < |u|
      ensures Truncate(t, k)[i] == t[i]
    {
      TruncatePrefix(u, k, i + 1);
      TruncateSum(u[..i + 1], k);
      SumBinaryBounds(u[..i + 1]);
      assert t[..i + 1] == Truncate(u[..i + 1], k);
    }
  }

  lemma {:induction false} SumPrefixAtMost(u: seq<int>, m: nat)
    requires IsBinary(u) && m <= |u|
    ensures Sum(u[..m]) <= Sum(u)
    decreases |u|
  {
    if m < |u| {
      var init := u[..|u| - 1];
      assert init[..m] == u[..m];
      SumPrefixAtMost(init, m);
    } else {
      assert u[..m] == u;
    }
  }

  /** A mask with at most `k` clicks passes through unchanged. */
  lemma TruncateWithinLimit(u: seq<int>, k: int)
    requires IsBinary(u) && Sum(u) <= k
    ensures Truncate(u, k) == u
  {
    forall i | 0 <= i < |u|
      ensures Truncate(u, k)[i] == u[i]
    {
      SumPrefixAtMost(u, i + 1);
    }
  }

  /** The MaxClicksModel example: limit 2 over [1,1,1,0,1]. */
  lemma TruncateExample()
    ensures Truncate([1, 1, 1, 0, 1], 2) == [1, 1, 0, 0, 0]
  {
    var u := [1, 1, 1, 0, 1];
    assert u[..1] == [1] && u[..2] == [1, 1] && u[..3] == [1, 1, 1];
    assert u[..4] == [1, 1, 1, 0] && u[..5] == u;
    assert [1, 1, 1, 0][..3] == [1, 1, 1] && [1, 1, 1][..2] == [1, 1] && [1, 1][..1] == [1];
    assert u[..|u| - 1] == [1, 1, 1, 0];
    assert Sum([1]) == 1 && Sum([1, 1]) == 2 && Sum([1, 1, 1]) == 3;
    assert Sum([1, 1, 1, 0]) == 3 && Sum(u) == 4;
  }
}
