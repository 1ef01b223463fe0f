/** Click masks: one integer per document, in rank order, 1 for a click and
    0 for no click. This module holds what the click models share: the
    all-zero mask, the number of clicks in a mask, and numpy's fancy-index
    assignment `mask[positions] = 1`, both as a specification function and
    as the in-place loop over an array. */
module Masks {

  /** Every entry is 0 or 1 (the masked value -1 is never produced). */
  predicate IsBinary(s: seq<int>) {
    forall i :: 0 <= i < |s| ==> s[i] == 0 || s[i] == 1
  }

  /** `np.repeat(0, n)`. */
  function Zeros(n: nat): (r: seq<int>)
    ensures |r| == n && IsBinary(r)
  {
    seq(n, _ => 0)
  }

  /** The sum of the entries; for a binary mask, its number of clicks.
      Peeling the last entry off makes prefix sums (`cumsum`) easy to state. */
  function Sum(s: seq<int>): (total: int) {
    if s == [] then 0 else Sum(s[..|s| - 1]) + s[|s| - 1]
  }

  lemma {:induction false} SumZeros(n: nat)
    ensures Sum(Zeros(n)) == 0
  {
    if n > 0 {
      assert Zeros(n)[..n - 1] == Zeros(n - 1);
      SumZeros(n - 1);
    }
  }

  lemma {:induction false} SumBinaryBounds(s: seq<int>)
    requires IsBinary(s)
    ensures 0 <= Sum(s) <= |s|
  {
    if s != [] {
      SumBinaryBounds(s[..|s| - 1]);
    }
  }

  /** Setting one 0 entry to 1 adds exactly one click. */
  lemma {:induction false} SumSetOne(s: seq<int>, i: int)
    requires 0 <= i < |s| && s[i] == 0
    ensures Sum(s[i := 1]) == Sum(s) + 1
  {
    var t := s[i := 1];
    var last := |s| - 1;
    if i == last {
      assert t[..last] == s[..last];
    } else {
      assert t[..last] == s[..last][i := 1];
      SumSetOne(s[..last], i);
    }
  }

  /** Every position is a valid numpy index into `n` documents: negative
      positions count from the end, anything outside [-n, n) raises. */
  predicate InBounds(positions: seq<int>, n: nat) {
    forall j :: 0 <= j < |positions| ==> -(n as int) <= positions[j] < n
  }

  /** The document a valid numpy index refers to. */
  function Wrap(p: int, n: nat): (i: nat)
    requires -(n as int) <= p < n
    ensures i < n && (i == p || i == p + n)
  {
    if p < 0 then p + n else p
  }

  /** Position `p` addresses document `i` of `n`. */
  predicate Addresses(positions: seq<int>, i: int, n: nat) {
    i in positions || i - n in positions
  }

  /** `mask[positions] = 1`: the positions are written one after another. */
  function Scatter(mask: seq<int>, positions: seq<int>): (r: seq<int>)
    requires InBounds(positions, |mask|)
    ensures |r| == |mask|
    ensures IsBinary(mask) ==> IsBinary(r)
    decreases |positions|
  {
    if positions == [] then mask
    else
      var init := positions[..|positions| - 1];
      Scatter(mask, init)[Wrap(positions[|positions| - 1], |mask|) := 1]
  }

  /** After the assignment a document holds 1 exactly when some position
      addresses it, and keeps its old entry otherwise. */
  lemma {:induction false} ScatterAt(mask: seq<int>, positions: seq<int>, i: int)
    requires InBounds(positions, |mask|) && 0 <= i < |mask|
    ensures Scatter(mask, positions)[i] ==
            if Addresses(positions, i, |mask|) then 1 else mask[i]
  {
    if positions != [] {
      var init := positions[..|positions| - 1];
      var p := positions[|positions| - 1];
      assert positions == init + [p];
      ScatterAt(mask, init, i);
      assert Addresses(positions, i, |mask|) <==>
             Addresses(init, i, |mask|) || i == p || i - |mask| == p;
    }
  }

  /** Writing positions that are distinct and in [0, n) into a zero mask
      leaves exactly one click per position. */
  lemma {:induction false} ScatterDistinctSum(n: nat, positions: seq<int>)
    requires forall j :: 0 <= j < |positions| ==> 0 <= positions[j] < n
    requires forall j, k :: 0 <= j < k < |positions| ==> positions[j] != positions[k]
    ensures Sum(Scatter(Zeros(n), positions)) == |positions|
  {
    if positions == [] {
      SumZeros(n);
    } else {
      var init := positions[..|positions| - 1];
      var p := positions[|positions| - 1];
      ScatterDistinctSum(n, init);
      ScatterAt(Zeros(n), init, p);
      assert !Addresses(init, p, n);
      SumSetOne(Scatter(Zeros(n), init), p);
    }
  }

  /** The imperative form of `mask = np.repeat(0, n); mask[positions] = 1`:
      a zero array written one position at a time. */
  method MarkPositions(n: nat, positions: seq<int>) returns (mask: seq<int>)
    requires InBounds(positions, n)
    ensures mask == Scatter(Zeros(n), positions)
  {
    var a := new int[n](_ => 0);
    assert a[..] == Zeros(n);
    for k := 0 to |positions|
      invariant InBounds(positions[..k], n)
      invariant a[..] == Scatter(Zeros(n), positions[..k])
    {
      assert positions[..k + 1][..k] == positions[..k];
      a[Wrap(positions[k], n)] := 1;
    }
    assert positions[..|positions|] == positions;
    mask := a[..];
  }
}
