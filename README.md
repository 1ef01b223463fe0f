# allRank click models in Dafny

This project models the click models of allRank (`allrank/click_models/base.py`).
A click model simulates a user on a search results page. It takes a ranked list of documents,
given as features and relevance labels, and returns a click mask. The mask has one entry per
document, in rank order: 1 means clicked and 0 means not clicked.

There are three primitive models:

- `RandomClickModel` clicks `n_clicks` distinct documents drawn at random.
- `FixedClickModel` clicks the configured positions.
- `OnlyRelevantClickModel` clicks every document whose relevance is at least a threshold.

There are three combinators, and each is itself a click model:

- `MultipleClickModel` picks one child by comparing one uniform draw with the cumulative
  probabilities, then hands the call to that child.
- `ConditionedClickModel` reduces all children's masks pointwise, with `np.all` or `np.any`.
- `MaxClicksModel` keeps the child's clicks in document order while the running count is at
  most `max_clicks`.

Layout, one module per file:

- `wrappers.dfy` (`Wrappers`): `Option` (used for "no limit") and `Result` (used for the
  errors the source raises).
- `masks.dfy` (`Masks`): the shared mask operations.
  - `Sum` counts the clicks in a mask.
  - `Scatter` is numpy's fancy assignment `mask[positions] = 1`, including numpy's negative
    indices.
  - `MarkPositions` is the in-place form of `Scatter`: a loop that writes 1s into a zero array.
    It is proved equal to `Scatter`.
- `primitives.dfy` (`Primitives`): the masks of the three primitive models.
- `combinators.dfy` (`Combinators`): the sequence-level work of the combinators.
  - For `MultipleClickModel`: `math.isclose`, `cumsum`, `np.argmax` and the bucket selection.
  - For `ConditionedClickModel`: the pointwise `all`/`any` reduction.
  - For `MaxClicksModel`: the `cumsum <= k` truncation, and `KeepFirstClicks`, a loop with a
    running counter that is proved equal to it.
- `click_models.dfy` (`ClickModels`): the parts that tie the tree together.
  - The `ClickModel` datatype, one constructor per class, where combinators hold their children.
  - `NewMultiple`, the `MultipleClickModel` constructor check.
  - `Click`, the common `click` operation, and the lemmas about each variant as seen through it.

Randomness is an explicit stream of draws:

- `RandomClickModel` takes a `Sample(indices)`, standing for the result of
  `np.random.choice(range(n), size=k, replace=False)`.
- `MultipleClickModel` takes a `Uniform(u)`, standing for `np.random.rand()`.

`Click` takes draws from the front of the stream in the order the models ask for them. The
children of a `ConditionedClickModel` are visited left to right. `Click` returns the mask
together with the draws it left unused. If the next draw is missing, or is one numpy could not
have returned, the result is `BadDraw`. `BadDraw` is the model's own error and has no
counterpart in the source.

Errors the source raises are modelled as `Err` results rather than preconditions:

- `n_clicks` negative or above the number of documents gives `InvalidSampleSize` (numpy raises
  `ValueError`).
- A fixed position outside `[-n, n)` gives `IndexOutOfRange` (numpy raises `IndexError`).
  Negative positions inside that range count from the end, as in numpy.
- Probabilities that fail the sum check give `ProbabilitiesDoNotSumToOne` (the constructor's
  `assert`).
- A selected child index beyond the list of children gives `IndexOutOfRange`. The source does
  not check that the two lists have the same length.
- An empty stored cumulative vector gives `EmptyArgMax` (numpy raises `ValueError` on
  `np.argmax` of an empty array). The constructor's sum check rules this out, since an empty
  list sums to 0.
- `RandomClickModel` over zero documents gives `NonIntegerIndex`, even for `n_clicks` 0.
  `np.random.choice(range(0), size=0, replace=False)` returns an empty float array, and numpy
  refuses a float array as an index (numpy raises `IndexError`).

Two behaviours of the code are worth stating plainly, and the model keeps both:

- Negative fixed positions in `[-n, 0)` are accepted and count from the end, as numpy
  indexing does (allrank/click_models/base.py:64).
- A child with probability 0 can still be selected through the `np.argmax` fallback
  (allrank/click_models/base.py:85). `np.argmax` over an all-False array returns 0, so a draw
  at or above every cumulative sum selects child 0 whatever its probability. This happens
  when the probabilities sum to slightly less than 1, which the 1e-5 tolerance allows.
  `ZeroProbabilityFallback` shows such a draw.

## Model

| member | source | states |
|---|---|---|
| `ClickModels.Click` | allrank/click_models/base.py:14-19 | every successful click, of any model however nested, returns one entry per document (length of `y`), each 0 or 1, and consumes draws only from the front of the stream |
| `ClickModels.ClickAll` | allrank/click_models/base.py:105-106 | clicking every child in order yields one mask per child, each of the documents' length and 0/1, and consumes draws only from the front |
| `Masks.ScatterAt` | allrank/click_models/base.py:44 | after `mask[positions] = 1` an entry is 1 exactly when some position (counted from the end when negative) addresses it, and keeps its old value otherwise |
| `Masks.MarkPositions` | allrank/click_models/base.py:63-64 | the in-place loop that writes 1s into a zero array yields exactly the `mask[positions] = 1` result |
| `Primitives.RandomMaskClicks` | allrank/click_models/base.py:40-45 | a sample of `k` distinct indices in `[0, n)` gives a 0/1 mask of length `n` with exactly `k` clicks, a click at document `i` iff `i` was sampled, and such a sample exists only when `0 <= k <= n` |
| `ClickModels.ClickRandom` | allrank/click_models/base.py:40-45 | RandomClickModel over at least one document with a valid sample consumes exactly that draw and returns exactly `n_clicks` clicks, at the sampled documents and nowhere else |
| `ClickModels.ClickRandomNoDocuments` | allrank/click_models/base.py:42-44 | over zero documents the random model always fails: with `NonIntegerIndex` for `n_clicks` 0, and with `InvalidSampleSize` otherwise |
| `ClickModels.ClickRandomTooMany` | allrank/click_models/base.py:42 | `n_clicks` negative or above the number of documents fails with `InvalidSampleSize`, whatever the draws |
| `Primitives.FixedMaskAt` | allrank/click_models/base.py:61-65 | the fixed mask has length `n`, is 0/1, and is 1 at `i` iff `i` (or `i - n`) is among the positions |
| `Primitives.FixedMaskDuplicates` | allrank/click_models/base.py:64 | two position lists with the same elements (duplicates or order aside) give the same mask |
| `ClickModels.ClickFixed` | allrank/click_models/base.py:61-65 | FixedClickModel succeeds iff every position is in `[-n, n)`, otherwise fails with `IndexOutOfRange`; it consumes no draw, so every call gives the same mask, clicked exactly at the positions |
| `Primitives.RelevantMask` | allrank/click_models/base.py:146-148 | the mask has the documents' length, is 0/1, and is 1 at `i` iff `y[i] >= threshold` (inclusive) |
| `ClickModels.ClickOnlyRelevant` | allrank/click_models/base.py:133-148 | OnlyRelevantClickModel always succeeds, consumes no draw, and clicks exactly the documents with relevance at least the threshold |
| `Combinators.IsCloseToOne` | allrank/click_models/base.py:80 | `math.isclose(s, 1.0, abs_tol=1e-5)` with its default relative tolerance holds iff `abs(s - 1) <= 1e-5` |
| `ClickModels.NewMultiple` | allrank/click_models/base.py:73-82 | construction succeeds iff the probabilities sum to 1 within 1e-5, and otherwise fails with `ProbabilitiesDoNotSumToOne`; it keeps the child list and stores the prefix sums of the probabilities |
| `ClickModels.NewMultipleCumulative` | allrank/click_models/base.py:80-82 | an accepted probability list is non-empty, and its last cumulative sum is within 1e-5 of 1 |
| `ClickModels.NewMultipleRejects` | allrank/click_models/base.py:80-81 | probabilities summing to 0.9 are rejected |
| `Combinators.CumSum` | allrank/click_models/base.py:82 | the cumulative vector has one entry per probability, entry `i` being the sum of the first `i + 1` probabilities |
| `Combinators.ArgMax` | allrank/click_models/base.py:85 | `np.argmax` over a boolean array returns the first True index, or 0 when all are False |
| `Combinators.Select` | allrank/click_models/base.py:85 | the selected index is the first `i` with `u < cumulative[i]`, or 0 when no such `i` exists |
| `Combinators.SelectBucket` | allrank/click_models/base.py:82-85 | for a draw in `[0, total)` the selected child's bucket `[c[r-1], c[r])` holds the draw and the child's probability is positive, so a child of probability 0 is never chosen |
| `Combinators.ZeroProbabilityFallback` | allrank/click_models/base.py:80-85 | probabilities `[0, 0.999995]` pass the sum check, and draw 0.999999 selects child 0 even though its probability is 0 |
| `ClickModels.ClickMultiple` | allrank/click_models/base.py:84-87 | MultipleClickModel consumes one uniform draw and returns exactly what the selected child returns on the remaining draws; the selected child is the first whose cumulative probability exceeds the draw, or child 0 when none does |
| `ClickModels.ClickMultipleSingle` | allrank/click_models/base.py:73-87 | a single child with probabilities `[1.0]` is accepted and always reproduces that child's result |
| `Combinators.CombineAt` | allrank/click_models/base.py:100-107 | with `np.all` the combined entry is 1 iff every mask is nonzero there; with `np.any` iff some mask is |
| `Combinators.CombineExample` | allrank/click_models/base.py:106-107 | `all` over `[1,0,1]` and `[1,1,1]` gives `[1,0,1]`; `any` gives `[1,1,1]` |
| `ClickModels.ClickConditioned` | allrank/click_models/base.py:105-107 | ConditionedClickModel's entry is 1 iff all (resp. some) of the children's masks are nonzero there, and it leaves the draws its children left |
| `Combinators.Truncate` | allrank/click_models/base.py:128-129 | the truncated mask has the underlying mask's length and stays 0/1 |
| `Combinators.KeepFirstClicks` | allrank/click_models/base.py:128-129 | one pass with a running click counter gives exactly `underlying * (underlying.cumsum() <= k)` |
| `Combinators.TruncateBelow` | allrank/click_models/base.py:128-129 | every entry of the result is the underlying entry or 0, so the result is pointwise at most the underlying mask |
| `Combinators.TruncateSum` | allrank/click_models/base.py:128-129 | the result has exactly `min(k, clicks)` clicks, and none when `k` is negative |
| `Combinators.TruncateIdempotent` | allrank/click_models/base.py:128-129 | truncating twice to the same `k` equals truncating once |
| `Combinators.TruncateWithinLimit` | allrank/click_models/base.py:128-129 | a mask with at most `k` clicks passes through unchanged |
| `Combinators.TruncateExample` | allrank/click_models/base.py:128-129 | limit 2 over `[1,1,1,0,1]` gives `[1,1,0,0,0]` |
| `ClickModels.ClickMaxClicks` | allrank/click_models/base.py:125-129 | with limit `k` the entry at `i` is the child's entry when the child's clicks up to and including `i` are at most `k`, and 0 otherwise; the result is pointwise at most the child's mask and has `min(k, child's clicks)` clicks |
| `ClickModels.ClickMaxClicksUnlimited` | allrank/click_models/base.py:127-130 | with `max_clicks` None the child's result is returned unchanged |
| `ClickModels.ClickMaxClicksIdempotent` | allrank/click_models/base.py:125-129 | wrapping a MaxClicksModel in another with the same limit gives the same result |

## Left out

- The random generator: numpy's global generator is not modelled. Its answers are the `Draw`
  stream passed to `Click`, and `BadDraw` marks a stream numpy could not have produced. The
  uniform distribution of `np.random.choice` and `np.random.rand` is not modelled.
- Floating point: probabilities, relevance labels and the thresholds are exact `real`s. The
  rounding of `np.sum` and `cumsum` is not modelled.
- The feature matrix `X`: every model unpacks it and ignores it, so `Click` takes only the
  relevance labels.
- User-supplied combiner callables: only the `np.all` and `np.any` reductions that the doc
  comment names are modelled.
- The masked value -1: the `click` contract allows it, but no model produces it, and `Click`
  proves every entry is 0 or 1.
- Data types: `OnlyRelevantClickModel` and `ConditionedClickModel` return numpy boolean
  arrays. They are modelled as 0/1 integers. `cumsum` and the product in `MaxClicksModel`
  give the same 0/1 values on either kind.
- `ConditionedClickModel` with no children: numpy returns a single boolean, not a mask. The
  model returns the mask that boolean broadcasts to: all ones for `all`, all zeros for `any`.
- `ClickModels.ClickAll`: its contract gives only the count, length and 0/1 shape of the masks
  and the consumed draws. It does not say that mask `j` is child `j`'s click on the draws the
  children before it left; that follows from its definition.
- Python's abstract base class machinery: it is not modelled. The datatype's constructors are
  the concrete classes.
- The error messages of the source's exceptions: they are not modelled. Only which error
  occurs is modelled.
- `ClickModels.NewMultiple`: it always checks the probabilities' sum. In the source the check
  is a Python `assert`, which `python -O` removes. The model does not cover running without
  assertions.
