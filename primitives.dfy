/** The three primitive click models, each as the mask it produces from the
    documents' relevance labels, its own configuration and, for the random
    model, the sample the random generator returned. */
module Primitives {
  import opened Masks

  /** What `np.random.choice(range(n), size=k, replace=False)` can return:
      `k` distinct indices of the `n` documents. */
  predicate IsSample(sample: seq<int>, n: nat, k: int) {
    && |sample| == k
    && (forall j :: 0 <= j < |sample| ==> 0 <= sample[j] < n)
    && (forall j, l :: 0 <= j < l < |sample| ==> sample[j] != sample[l])
  }

  /** RandomClickModel: ones at the sampled indices of a zero mask. */
  function RandomMask(n: nat, sample: seq<int>): (mask: seq<int>)
    requires forall j :: 0 <= j < |sample| ==> 0 <= sample[j] < n
  {
    Scatter(Zeros(n), sample)
  }

  /** A sample of `k` distinct indices gives exactly `k` clicks, at the
      sampled documents and nowhere else; such a sample exists only for
      0 <= k <= n. */
  lemma RandomMaskClicks(n: nat, k: int, sample: seq<int>)
    requires IsSample(sample, n, k)
    ensures |RandomMask(n, sample)| == n && IsBinary(RandomMask(n, sample))
    ensures Sum(RandomMask(n, sample)) == k
    ensures forall i :: 0 <= i < n ==> (RandomMask(n, sample)[i] == 1 <==> i in sample)
    ensures 0 <= k <= n
  {
    ScatterDistinctSum(n, sample);
    SumBinaryBounds(RandomMask(n, sample));
    forall i | 0 <= i < n
      ensures RandomMask(n, sample)[i] == 1 <==> i in sample
    {
      ScatterAt(Zeros(n), sample, i);
      assert i - n !in sample;
    }
  }

  /** FixedClickModel: ones at the configured positions of a zero mask. */
  function FixedMask(n: nat, positions: seq<int>): (mask: seq<int>)
    requires InBounds(positions, n)
  {
    Scatter(Zeros(n), positions)
  }

  /** A document is clicked exactly when some configured position (counted
      from the end when negative) addresses it; every other entry is 0. */
  lemma FixedMaskAt(n: nat, positions: seq<int>)
    requires InBounds(positions, n)
    ensures |FixedMask(n, positions)| == n && IsBinary(FixedMask(n, positions))
    ensures forall i :: 0 <= i < n ==>
              (FixedMask(n, positions)[i] == 1 <==> i in positions || i - n in positions)
  {
    forall i | 0 <= i < n
      ensures FixedMask(n, positions)[i] == 1 <==> i in positions || i - n in positions
    {
      ScatterAt(Zeros(n), positions, i);
    }
  }

  /** Repeating a position, or listing the positions in another order,
      does not change the mask: only the set of positions matters. */
  lemma FixedMaskDuplicates(n: nat, positions: seq<int>, others: seq<int>)
    requires InBounds(positions, n) && InBounds(others, n)
    requires forall p :: p in positions <==> p in others
    ensures FixedMask(n, positions) == FixedMask(n, others)
  {
    forall i | 0 <= i < n
      ensures FixedMask(n, positions)[i] == FixedMask(n, others)[i]
    {
      ScatterAt(Zeros(n), positions, i);
      ScatterAt(Zeros(n), others, i);
    }
  }

  /** OnlyRelevantClickModel: `np.array(y) >= threshold`, with True as 1. */
  function RelevantMask(y: seq<real>, threshold: real): (mask: seq<int>)
    ensures |mask| == |y| && IsBinary(mask)
    ensures forall i :: 0 <= i < |y| ==> (mask[i] == 1 <==> y[i] >= threshold)
  {
    seq(|y|, i requires 0 <= i < |y| => if y[i] >= threshold then 1 else 0)
  }
}
