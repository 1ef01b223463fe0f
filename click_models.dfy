/** The click-model family as one recursive datatype: three primitives and
    three combinators that hold child models. `Click` is the common `click`
    operation. The random generator is an explicit stream of draws, consumed
    in the order the models ask for them (children of a ConditionedClickModel
    left to right); every call returns the mask and the draws left over. */
module ClickModels {
  import opened Wrappers
  import opened Masks
  import opened Primitives
  import opened Combinators

  /** One answer of the random generator. */
  datatype Draw =
    | Sample(indices: seq<int>)  // np.random.choice(range(n), size=k, replace=False)
    | Uniform(u: real)           // np.random.rand()

  datatype Error =
    | InvalidSampleSize           // n_clicks negative or above the number of documents
    | IndexOutOfRange             // a click position or a selected child index out of range
    | EmptyArgMax                 // argmax over an empty cumulative vector
    | ProbabilitiesDoNotSumToOne  // MultipleClickModel's constructor assertion
    | BadDraw                     // no draw left, or one the generator could not have returned
    | NonIntegerIndex             // the empty float sample of zero documents used as an index

  datatype ClickModel =
    | RandomClicks(nClicks: int)
    | FixedClicks(clickPositions: seq<int>)
    | OnlyRelevant(relevancyThreshold: real)
      /** `cumulative` is what the constructor stores: the prefix sums of the
          probabilities. */
    | Multiple(clickModels: seq<ClickModel>, cumulative: seq<real>)
    | Conditioned(clickModels: seq<ClickModel>, combiner: Combiner)
      /** `None` is "no limit". */
    | MaxClicks(clickModel: ClickModel, maxClicks: Option<int>)

  /** The mask a call produced and the draws it did not consume. */
  datatype Clicked = Clicked(mask: seq<int>, rest: seq<Draw>)

  datatype ClickedAll = ClickedAll(masks: seq<seq<int>>, rest: seq<Draw>)

  /** `rest` is what is left of `draws` once some draws were taken from the front. */
  predicate IsSuffix(rest: seq<Draw>, draws: seq<Draw>) {
    |rest| <= |draws| && rest == draws[|draws| - |rest|..]
  }

  /** MultipleClickModel's constructor: the probabilities must sum to 1 within
      `math.isclose(..., abs_tol=1e-5)`; the model keeps their prefix sums. */
  function NewMultiple(models: seq<ClickModel>, probabilities: seq<real>): (r: Result<ClickModel, Error>)
    ensures r.Ok? <==> Abs(SumReal(probabilities) - 1.0) <= SumTolerance
    ensures r.Err? ==> r.error == ProbabilitiesDoNotSumToOne
    ensures r.Ok? ==> r.value.Multiple? && r.value.clickModels == models
    ensures r.Ok? ==> |r.value.cumulative| == |probabilities|
    ensures r.Ok? ==> forall i :: 0 <= i < |probabilities| ==>
                        r.value.cumulative[i] == SumReal(probabilities[..i + 1])
  {
    IsCloseToOne(SumReal(probabilities));
    if IsClose(SumReal(probabilities), 1.0, SumTolerance) then
      Ok(Multiple(models, CumSum(probabilities)))
    else
      Err(ProbabilitiesDoNotSumToOne)
  }

  /** A constructed MultipleClickModel has at least one probability, and its
      last cumulative sum is within 1e-5 of 1. */
  lemma NewMultipleCumulative(models: seq<ClickModel>, probabilities: seq<real>)
    requires NewMultiple(models, probabilities).Ok?
    ensures |probabilities| > 0
    ensures var c := NewMultiple(models, probabilities).value.cumulative;
            Abs(c[|c| - 1] - 1.0) <= SumTolerance
  {
    assert probabilities[..|probabilities|] == probabilities;
  }

  /** Probabilities summing to 0.9 are refused. */
  lemma NewMultipleRejects(models: seq<ClickModel>)
    ensures NewMultiple(models, [0.5, 0.4]) == Err(ProbabilitiesDoNotSumToOne)
  {
    var p := [0.5, 0.4];
    assert p[..1] == [0.5];
    assert SumReal(p) == 0.9;
  }

  /** `click(documents)`: the mask for documents with relevance labels `y`.
      Only `y`'s labels and length matter; the feature matrix is ignored by
      every model. Every mask produced has one 0/1 entry per document. */
  function Click(m: ClickModel, y: seq<real>, draws: seq<Draw>): (r: Result<Clicked, Error>)
    ensures r.Ok? ==> |r.value.mask| == |y| && IsBinary(r.value.mask)
    ensures r.Ok? ==> IsSuffix(r.value.rest, draws)
    decreases m, 1
  {
    var n := |y|;
    match m
    case RandomClicks(k) =>
      if k < 0 || k > n then Err(InvalidSampleSize)
      // np.random.choice over range(0) returns an empty float array, which
      // numpy refuses as an index
      else if n == 0 then Err(NonIntegerIndex)
      else if draws == [] || !draws[0].Sample? || !IsSample(draws[0].indices, n, k) then Err(BadDraw)
      else Ok(Clicked(RandomMask(n, draws[0].indices), draws[1..]))
    case FixedClicks(positions) =>
      if InBounds(positions, n) then Ok(Clicked(FixedMask(n, positions), draws))
      else Err(IndexOutOfRange)
    case OnlyRelevant(threshold) =>
      Ok(Clicked(RelevantMask(y, threshold), draws))
    case Multiple(models, cumulative) =>
      if draws == [] || !draws[0].Uniform? || !(0.0 <= draws[0].u < 1.0) then Err(BadDraw)
      else if cumulative == [] then Err(EmptyArgMax)
      else
        var i := Select(draws[0].u, cumulative);
        if i < |models| then
          var r := Click(models[i], y, draws[1..]);
          assert r.Ok? ==> IsSuffix(r.value.rest, draws[1..]);
          r
        else Err(IndexOutOfRange)
    case Conditioned(models, combiner) =>
      var all :- ClickAll(models, y, draws);
      Ok(Clicked(Combine(combiner, all.masks, n), all.rest))
    case MaxClicks(child, limit) =>
      var under :- Click(child, y, draws);
      match limit
      case None => Ok(under)
      case Some(k) => Ok(Clicked(Truncate(under.mask, k), under.rest))
  }

  /** `[click_model.click(documents) for click_model in click_models]`: every
      child in order, each taking its draws after the ones before it. */
  function ClickAll(models: seq<ClickModel>, y: seq<real>, draws: seq<Draw>): (r: Result<ClickedAll, Error>)
    ensures r.Ok? ==> |r.value.masks| == |models| && AllOfLength(r.value.masks, |y|)
    ensures r.Ok? ==> forall j :: 0 <= j < |models| ==> IsBinary(r.value.masks[j])
    ensures r.Ok? ==> IsSuffix(r.value.rest, draws)
    decreases models, 0
  {
    if models == [] then Ok(ClickedAll([], draws))
    else
      var first :- Click(models[0], y, draws);
      var others :- ClickAll(models[1..], y, first.rest);
      assert IsSuffix(others.rest, draws);
      Ok(ClickedAll([first.mask] + others.masks, others.rest))
  }

  // ---------------------------------------------------------------------
  // The primitives through `Click`
  // ---------------------------------------------------------------------

  /** RandomClickModel with a valid sample of `k` of the documents: exactly
      `k` clicks, at the sampled documents; one draw is consumed. */
  lemma ClickRandom(k: int, y: seq<real>, sample: seq<int>, rest: seq<Draw>)
    requires |y| > 0 && IsSample(sample, |y|, k)
    ensures var r := Click(RandomClicks(k), y, [Sample(sample)] + rest);
            && r.Ok? && r.value.rest == rest
            && Sum(r.value.mask) == k
            && forall i :: 0 <= i < |y| ==> (r.value.mask[i] == 1 <==> i in sample)
  {
    RandomMaskClicks(|y|, k, sample);
    var draws := [Sample(sample)] + rest;
    assert draws[0] == Sample(sample) && draws[1..] == rest;
    assert Click(RandomClicks(k), y, draws) == Ok(Clicked(RandomMask(|y|, sample), rest));
  }

  /** With no documents the sample is an empty float array, and assigning
      through it fails even for zero clicks. */
  lemma ClickRandomNoDocuments(k: int, draws: seq<Draw>)
    ensures Click(RandomClicks(k), [], draws).Err?
    ensures Click(RandomClicks(k), [], draws).error ==
            if k == 0 then NonIntegerIndex else InvalidSampleSize
  {
  }

  /** Sampling without replacement cannot take a negative number of clicks
      or more clicks than documents: the call fails whatever the draws. */
  lemma ClickRandomTooMany(k: int, y: seq<real>, draws: seq<Draw>)
    requires k < 0 || k > |y|
    ensures Click(RandomClicks(k), y, draws) == Err(InvalidSampleSize)
  {
  }

  /** FixedClickModel: a click exactly where some configured position points,
      no draw consumed, so every call gives the same mask; a position outside
      [-n, n) fails. */
  lemma ClickFixed(positions: seq<int>, y: seq<real>, draws: seq<Draw>)
    ensures var r := Click(FixedClicks(positions), y, draws);
            && (r.Ok? <==> InBounds(positions, |y|))
            && (r.Err? ==> r.error == IndexOutOfRange)
            && (r.Ok? ==> r.value.rest == draws)
            && (r.Ok? ==> forall i :: 0 <= i < |y| ==>
                  (r.value.mask[i] == 1 <==> i in positions || i - |y| in positions))
  {
    if InBounds(positions, |y|) {
      assert Click(FixedClicks(positions), y, draws) == Ok(Clicked(FixedMask(|y|, positions), draws));
      FixedMaskAt(|y|, positions);
    }
  }

  /** OnlyRelevantClickModel: a click exactly where the relevance label is
      at least the threshold; no draw consumed. */
  lemma ClickOnlyRelevant(threshold: real, y: seq<real>, draws: seq<Draw>)
    ensures var r := Click(OnlyRelevant(threshold), y, draws);
            && r.Ok? && r.value.rest == draws
            && forall i :: 0 <= i < |y| ==> (r.value.mask[i] == 1 <==> y[i] >= threshold)
  {
  }

  // ---------------------------------------------------------------------
  // The combinators through `Click`
  // ---------------------------------------------------------------------

  /** MultipleClickModel consumes one uniform draw and hands the rest of
      the call, unchanged, to the child it selects: the first whose cumulative
      probability exceeds the draw, or child 0 when none does. */
  lemma ClickMultiple(models: seq<ClickModel>, cumulative: seq<real>, y: seq<real>, u: real, rest: seq<Draw>)
    requires 0.0 <= u < 1.0 && |cumulative| > 0
    requires Select(u, cumulative) < |models|
    ensures Click(Multiple(models, cumulative), y, [Uniform(u)] + rest)
            == Click(models[Select(u, cumulative)], y, rest)
    ensures (exists i :: 0 <= i < |cumulative| && u < cumulative[i]) ==>
              var s := Select(u, cumulative);
              u < cumulative[s] && forall j :: 0 <= j < s ==> cumulative[j] <= u
    ensures (forall i :: 0 <= i < |cumulative| ==> cumulative[i] <= u) ==> Select(u, cumulative) == 0
  {
    assert ([Uniform(u)] + rest)[1..] == rest;
  }

  /** A MultipleClickModel over one child with probability 1.0 is accepted
      and always reproduces that child's result. */
  lemma ClickMultipleSingle(m: ClickModel, y: seq<real>, u: real, rest: seq<Draw>)
    requires 0.0 <= u < 1.0
    ensures NewMultiple([m], [1.0]) == Ok(Multiple([m], [1.0]))
    ensures Click(Multiple([m], [1.0]), y, [Uniform(u)] + rest) == Click(m, y, rest)
  {
    assert [1.0][..1] == [1.0];
    CumSumAt([1.0], 0);
    assert CumSum([1.0]) == [1.0];
    assert SumReal([1.0]) == 1.0;
    assert Select(u, [1.0]) == 0;
    ClickMultiple([m], [1.0], y, u, rest);
  }

  /** ConditionedClickModel: with `np.all` a document is clicked iff every
      child's mask has a nonzero entry there, with `np.any` iff some child's
      has. */
  lemma ClickConditioned(models: seq<ClickModel>, c: Combiner, y: seq<real>, draws: seq<Draw>)
    requires ClickAll(models, y, draws).Ok?
    ensures var r := Click(Conditioned(models, c), y, draws);
            var all := ClickAll(models, y, draws).value;
            && r.Ok? && r.value.rest == all.rest
            && (c == All ==> forall i :: 0 <= i < |y| ==>
                  (r.value.mask[i] == 1 <==> forall j :: 0 <= j < |models| ==> all.masks[j][i] != 0))
            && (c == Any ==> forall i :: 0 <= i < |y| ==>
                  (r.value.mask[i] == 1 <==> exists j :: 0 <= j < |models| && all.masks[j][i] != 0))
  {
    var all := ClickAll(models, y, draws).value;
    assert Click(Conditioned(models, c), y, draws) == Ok(Clicked(Combine(c, all.masks, |y|), all.rest));
    forall i | 0 <= i < |y|
      ensures c == All ==>
                (Combine(c, all.masks, |y|)[i] == 1 <==> forall j :: 0 <= j < |models| ==> all.masks[j][i] != 0)
      ensures c == Any ==>
                (Combine(c, all.masks, |y|)[i] == 1 <==> exists j :: 0 <= j < |models| && all.masks[j][i] != 0)
    {
      CombineAt(c, all.masks, |y|, i);
    }
  }

  /** MaxClicksModel without a limit returns the child's result unchanged. */
  lemma ClickMaxClicksUnlimited(m: ClickModel, y: seq<real>, draws: seq<Draw>)
    ensures Click(MaxClicks(m, None), y, draws) == Click(m, y, draws)
  {
  }

  /** MaxClicksModel with limit `k`: the clicks of the child are kept in
      document order while the running count is at most `k`; the result has
      no click the child did not have, and exactly min(k, child's clicks)
      clicks (none for negative `k`). */
  lemma ClickMaxClicks(m: ClickModel, k: int, y: seq<real>, draws: seq<Draw>)
    requires Click(m, y, draws).Ok?
    ensures var under := Click(m, y, draws).value;
            var r := Click(MaxClicks(m, Some(k)), y, draws);
            && r.Ok? && r.value.rest == under.rest
            && (forall i :: 0 <= i < |y| ==>
                  r.value.mask[i] == (if Sum(under.mask[..i + 1]) <= k then under.mask[i] else 0))
            && (forall i :: 0 <= i < |y| ==> r.value.mask[i] <= under.mask[i])
            && Sum(r.value.mask) == Capped(Sum(under.mask), k)
  {
    var under := Click(m, y, draws).value;
    TruncateBelow(under.mask, k);
    TruncateSum(under.mask, k);
  }

  /** Limiting a limited model again to the same `k` changes nothing. */
  lemma ClickMaxClicksIdempotent(m: ClickModel, k: int, y: seq<real>, draws: seq<Draw>)
    ensures Click(MaxClicks(MaxClicks(m, Some(k)), Some(k)), y, draws)
            == Click(MaxClicks(m, Some(k)), y, draws)
  {
    var r := Click(m, y, draws);
    if r.Ok? {
      TruncateIdempotent(r.value.mask, k);
    }
  }
}
