# Selection, clustering and buffer bookkeeping of ELPT-EPIG, in Dafny

This project models the discrete bookkeeping of `matrix.py` in the ELPT-EPIG
active-learning / test-time adaptation loop. It covers how `obtain_label`
ranks pool samples by energy and neighbour similarity, derives the `thre_a`
and `thre_w` energy thresholds, and scans a candidate list against the
persistent ledger of already-labelled samples (`already_labeled_idx`). It also
covers how ledger samples are forced to their true label and to the energy
-100000 before `pred_idx` is read off. From `clustering` it models how
pseudo-labels are mapped through `labelset` and numpy's first-minimum
`argmin`, and from `collect_data` how the prediction buffer is split and
carried over.

Energies, similarities, information-gain scores and distances are Dafny
`real`s. Only their order matters. The floating-point tensor work is an input:
the energy of each sample, the similarity bank, the information-gain scores,
the classifier's arg-max predictions and the clustering distance matrices are
all passed in. The module-level ledger is an explicit `seq<nat>` argument and
result, returned on the failure paths too.

Modules, one per concern:

- `Results` and `Python` hold the error type and the Python semantics used:
  `int()` truncation, negative indexing, and slices with negative bounds.
- `StableSort`: Python's stable `sorted` on a key list. It is an insertion
  sort over positions, ordered by key and then by position. A lemma proves
  that this order has exactly one sorted result.
- `Counting` counts pool samples above or below an energy.
- `Ranking` covers lines 192-214: the energy order, the 7% candidate prefix
  re-sorted by similarity, and the two thresholds.
- `Ledger` covers lines 244-264: the scan, as a recursive reference function
  and as the source's loop.
- `Selection` covers one selection round in either ranking mode.
- `Oracle` covers lines 296-305: the override and the `np.where` filters.
- `Clustering` covers lines 313-329: the label set, argmin and refinement
  rounds.
- `Buffer` covers lines 332-360: `collect_data`.
- `Obtain` composes these into the label-producing skeleton of `obtain_label`.

Three consequences of the code shape what the model can prove:

- A ten-sample pool never reaches line 213. `int(0.07*10) == 0`, so the
  unpacking at line 210 raises. Every non-empty pool of fewer than 15 samples
  fails this way (`Ranking.SmallPoolHasNoCandidates`). The threshold lines on
  their own, applied to the energies `5 … -4` with `percen = 0.5`, give
  `thre_a = 0` and `thre_w = 3` (`Ranking.ThresholdsExample`).
- Line 213 indexes with `-p`, where `p = int(l*percen)`. When `p > 0` this
  counts from the end of the descending energy order. When `p == 0` (for
  `percen = 0`, or whenever `l*percen < 1`) it reads index 0, the largest
  energy. When `p < 0` it counts from the front (`Ranking.ThresholdRanks`).
- The refinement round at lines 322-328 keeps the `labelset` computed once
  from `predict`. A class of it that the first round gave no sample has a
  zero centroid, its cosine distances are NaN, and numpy's argmin picks that
  class for every sample (see "## Findings"). The model's `clustering` does
  the same (`Clustering.ClusterLabels`). The version that recomputes the label
  set in each round is `Clustering.ClusterCorrected`.

## Model

| member | source | states |
|---|---|---|
| `StableSort.SortPositions` | matrix.py:198 | The stable sort of the first `n` positions is a rearrangement of `0..n-1`. Every earlier position has a strictly larger key, or an equal key and a smaller position, so ties keep their original order in both directions. |
| `StableSort.SortPositionsCharacterised` | matrix.py:198 | Any rearrangement of `0..n-1` ordered this way is exactly the result of `SortPositions`, so the stable sort has one possible outcome. |
| `Ranking.PoolSize` | matrix.py:197 | The ranked pool is as long as the shorter of the energy and similarity lists, because `zip` stops at the shorter one. |
| `Ranking.PrefixLength` | matrix.py:204-205 | `int(0.07*l)` is the largest `k` with `100*k <= 7*l`, and never exceeds `l`. |
| `Ranking.PercenCountRange` | matrix.py:213 | `int(l*percen)` lies between 0 and `l` for a fraction in [0, 1], and is not positive for a negative fraction. |
| `Ranking.Candidates` | matrix.py:204-210 | The similarity-sorted candidate list has exactly `k` entries, each drawn from the first `k` samples of the energy order. |
| `Ranking.Rank` | matrix.py:193-214 | The ranking fails exactly where the source raises. An empty pool fails at line 200, an empty 7% prefix at line 210, and a `thre_a` index outside the list at line 213. When the pool and the prefix are non-empty, the only possible failure is the `thre_a` index. Otherwise it returns the stable energy order, its energies and the candidate list. |
| `Ranking.RankOrder` | matrix.py:197-200 | The energy order is the stable descending sort of the pool. `sorted_eng_list` is non-increasing and holds the pool energies in that order. |
| `Ranking.CandidatesPermutePrefix` | matrix.py:204-210 | The candidate list holds exactly the first `int(0.07*l)` samples of the energy order, each once. |
| `Ranking.CandidatesAscending` | matrix.py:207-210 | The candidate list is ordered by non-decreasing similarity. |
| `Ranking.PrefixDominates` | matrix.py:198-205 | A sample outside the first `k` of the energy order has no more energy than the sample at any rank below `k`. |
| `Ranking.RankCandidates` | matrix.py:196-212 | For a successful ranking, the candidates are a duplicate-free rearrangement of the top-energy prefix, in ascending similarity. No left-out sample has more energy than a candidate. |
| `Ranking.Thresholds` | matrix.py:213-214 | The thresholds exist exactly when `-l < int(l*percen) <= l`. `thre_a` is `sorted[l - int(l*percen)]`, or `sorted[-int(l*percen)]` when the count is not positive, as Python's negative index resolves. `thre_w` is `sorted[int(l*0.2)]`. |
| `Ranking.ThresholdRanks` | matrix.py:213-214 | For a successful ranking, `thre_a` is the energy at rank `l - p` of the energy order, or at rank `-p` when `p = int(l*percen)` is not positive. `thre_w` is the energy at rank `int(l*0.2)`. |
| `Ranking.RankCounts` | matrix.py:198-200 | The energy at rank `j` of the descending order has at most `j` pool energies strictly above it and at least `j+1` at or above it. It has fewer than `n-j` strictly below it and at least `n-j` at or below it. |
| `Ranking.NegativeIndexCounts` | matrix.py:213 | Reading the descending energy order at Python index `-p` gives an energy with fewer than `p` energies strictly below it and at least `p` at or below it when `p > 0`. Otherwise it gives the energy at rank `-p` from the top, with at most `-p` energies strictly above it and more than `-p` at or above it. |
| `Ranking.ThresholdPercentiles` | matrix.py:213-214 | `thre_a` is the `(1-percen)` percentile: fewer than `p = int(l*percen)` energies lie strictly below it and at least `p` lie at or below it. When `p <= 0` the index counts from the front instead: at most `-p` energies lie strictly above it and more than `-p` lie at or above it. `thre_w` has at most `int(l*0.2)` energies strictly above it and more than that at or above it. |
| `Ranking.ThresholdsExample` | matrix.py:213-214 | Energies `5 … -4` with `percen = 0.5` give `thre_a = 0` and `thre_w = 3`. |
| `Ranking.SmallPoolHasNoCandidates` | matrix.py:204-210 | Every non-empty pool of fewer than 15 samples fails with an empty candidate prefix. |
| `Ledger.SelectProperties` | matrix.py:256-264 | The picks appear in candidate order and number at most `label_cnt`. None was in the ledger. None repeats, even when the candidate list does. The scan returns fewer than `label_cnt` only when every candidate ends up labelled. |
| `Ledger.Select` | matrix.py:256-264 | The reference scan never picks more samples than there are candidates. Its other properties are stated by `Ledger.SelectProperties` and `Ledger.SelectGreedy`. |
| `Ledger.SelectGreedy` | matrix.py:246-264 | A candidate that is neither labelled nor picked was passed over only because `label_cnt` samples had already been picked, and every pick lies before it in the list. So the picks are the first new candidates. |
| `Ledger.ScanLedger` | matrix.py:246-264 | The source's loop, with `selected_cnt + pre_lbl == cur_idx` as an invariant, returns exactly the reference picks and a ledger that is the old ledger followed by the picks. It inherits every property of the picks. |
| `Ledger.SubsequenceKeepsOrder` | matrix.py:241-254 | Whatever the scan keeps of a stably sorted list stays in that order. |
| `Ledger.SuccessiveRounds` | matrix.py:248-250 | Two rounds that thread the ledger never pick a sample twice, and never pick one labelled before the first round. |
| `Selection.CandidateList` | matrix.py:241-257 | In energy/diversity mode the scanned list is the similarity-sorted candidate list. In information-gain mode it holds every position once, ordered by non-increasing score, with ties kept in position order. |
| `Selection.SelectRound` | matrix.py:192-264 | A round fails exactly when the energy ranking fails, in either mode, and with the ranking's fault. Otherwise the new ledger is the old one followed by the round's picks. |
| `Selection.EnergyRoundPicks` | matrix.py:204-212 | In energy/diversity mode, the picks are new, distinct and at most `label_cnt`, and come from the candidate prefix. No sample outside the prefix has more energy than a pick, and every pick is a pool position. Fewer picks mean the whole prefix is labelled. |
| `Selection.InformationGainPicks` | matrix.py:241-254 | In information-gain mode, the picks are new, distinct and at most `label_cnt`, in the stable order of non-increasing score. Fewer picks mean every position is labelled. |
| `Oracle.OracleOverride` | matrix.py:296-298 | The override fails exactly when a ledger index is outside the arrays. Otherwise every ledger sample gets its true label and energy -100000, and every other sample keeps its label and energy. |
| `Oracle.OodIndices` | matrix.py:302 | `ood_idx` holds exactly the positions whose energy is at least `thre_w`, in increasing order. |
| `Oracle.PredIndices` | matrix.py:303-305 | `pred_idx` holds exactly the positions whose energy is below `thre_a`, or below 0 in the last round, in increasing order. |
| `Oracle.Where` | matrix.py:302-305 | `np.where(cond)[0]` holds exactly the positions that satisfy the condition, in increasing order. |
| `Oracle.LedgerSamplesConfident` | matrix.py:296-305 | After the override, a ledger sample carries its true label. It is in `pred_idx` whenever `thre_a > -100000`, and always in the last round. It is not in `ood_idx` unless `thre_w <= -100000`. |
| `Clustering.LabelSet` | matrix.py:316-318 | `labelset` holds exactly the classes below `K` that occur in `predict`, in strictly ascending order. |
| `Clustering.ArgMin` | matrix.py:320 | `argmin` returns a minimal position with every earlier entry strictly larger, that is, the first minimum. |
| `Clustering.ArgMinUnique` | matrix.py:320 | A position is the argmin if and only if it is minimal and strictly below every earlier entry. |
| `Clustering.Assign` | matrix.py:319-321 | Every mapped label is a member of `labelset`, one per sample. |
| `Clustering.AssignNearest` | matrix.py:319-321 | A sample gets `labelset[j]` if and only if centroid `j` is nearest to it and no earlier centroid is as near. |
| `Clustering.AscendingUnique` | matrix.py:316-318 | Two strictly ascending lists with the same members are equal, so a label set is determined by the classes it holds. |
| `Clustering.FirstUnused` | matrix.py:323-327 | Finds the first class of `labelset` that no sample carries: every earlier class is carried, and none is missing exactly when every class is carried. |
| `Clustering.RoundAsWritten` | matrix.py:323-328 | One refinement round as written, with one label per sample, each a class of `labelset`. |
| `Clustering.EmptyClassCollapses` | matrix.py:323-328 | As written, if the previous round left some `labelset` class without samples, every sample gets one and the same class, and it is a class that no sample had before. |
| `Clustering.CollapseExample` | matrix.py:323-328 | Two samples nearest class 0 after a round that used only class 0 are both moved to class 1 as written, and both stay at class 0 when empty classes are excluded. |
| `Clustering.Round` | matrix.py:316-328 | The corrected refinement round, with the label set recomputed from the previous labels. There is one label per sample, and each is a class the previous round used. |
| `Clustering.RoundsAgreeWithoutEmptyClass` | matrix.py:316-328 | While every `labelset` class still has a sample, the recomputed label set is the original one, and the corrected round equals the round as written. |
| `Clustering.Refine` | matrix.py:322-328 | The corrected refinement loop. Any number of its rounds gives one label per sample. Every label is a class below `K` that the starting labels already used. |
| `Clustering.Cluster` | matrix.py:313-329 | `clustering` as written, with its single refinement round. It fails exactly when a prediction is not a class below `K`, or when there are no samples. Otherwise it returns one label per sample, each in `labelset`. |
| `Clustering.ClusterCorrected` | matrix.py:313-329 | `clustering` with empty classes excluded in the refinement round. It fails in exactly the same cases and otherwise returns one label per sample, each in `labelset`. |
| `Clustering.RefineFixedPoint` | matrix.py:322-328 | A labelling that one round maps to itself is returned unchanged by any number of rounds. |
| `Clustering.ClusterLabels` | matrix.py:313-329 | Every returned label is a predicted class below `K`. If the first round left some `labelset` class without samples, every sample gets the first such class, which the first round gave no sample. Otherwise each sample gets `labelset` at the first argmin of the refinement round's distances, which are computed from the first round's labels. |
| `Clustering.ClusterCorrectedLabels` | matrix.py:313-329 | In the corrected clustering, every returned label is a predicted class below `K` that the first round already used. It is the first nearest class among those, in the refinement round's distances. |
| `Python.Trunc` | matrix.py:204-214 | `int(x)` truncates toward zero. For `x >= 0` it is the largest integer not above `x`; for `x < 0` it is the smallest integer not below `x`. |
| `Python.Index` | matrix.py:213 | A Python index `k` into a list of length `n` is valid exactly when `-n <= k < n`, and it resolves to the position congruent to `k` modulo `n`. |
| `Python.SliceBounds` | matrix.py:343-351 | `s[:k]` is a prefix and `s[k:]` a suffix of `s`, with the lengths that Python's clipping of a positive or negative `k` gives. |
| `Buffer.CollectData` | matrix.py:336-360 | The ready flag is 1 exactly when the buffered and new inputs reach `batch_size`. When the flag is 0, nothing is flushed. |
| `Buffer.CollectDataFixed` | matrix.py:336-360 | The corrected buffer, which always carries `inputs_new[split:]`, has the same flag behaviour. |
| `Buffer.FlushAsWritten` | matrix.py:336-352 | With between 1 and `batch_size - 1` inputs buffered and the threshold reached, exactly `batch_size` inputs are flushed. Flushed followed by carried equals buffered followed by new. |
| `Buffer.FlushDropsNewInputs` | matrix.py:346-348 | As written, a full buffer (`split == 0`) loses the new inputs: one buffered input, batch size 1 and one new input flush `[10]` and carry nothing. |
| `Buffer.FullBufferDropsNewInputs` | matrix.py:343-352 | For every input, a buffer holding exactly `batch_size` inputs plus at least one new input flushes the buffer and its predictions unchanged and carries nothing. So every new input and prediction is lost. |
| `Buffer.FlushConserves` | matrix.py:343-352 | In the corrected buffer, flushed followed by carried equals buffered followed by new, for all inputs. Whenever 1 to `batch_size` inputs were buffered and the flag is 1, exactly `batch_size` are flushed. |
| `Buffer.FlushKeepsPairs` | matrix.py:343-352 | When predictions pair with inputs on entry, the corrected buffer keeps them paired, flushed and carried alike, and loses no prediction. |
| `Buffer.EmptyBufferLargeBatch` | matrix.py:337-341 | An empty buffer with at least `batch_size` new inputs flushes all of them, possibly more than `batch_size`, and carries nothing. |
| `Buffer.UnderThreshold` | matrix.py:353-360 | Below the threshold, nothing is flushed and the flag is 0. The carry is buffered followed by new, and the predictions are `pred_new` alone when the buffer was empty. |
| `Buffer.EightPlusFive` | matrix.py:343-352 | Eight buffered and five new inputs with batch size 10 flush ten (the eight plus two) and carry three. |
| `Obtain.ConfirmLedger` | matrix.py:296-305 | The step fails exactly on an unaddressable ledger index. Otherwise ledger samples get their true labels and other labels are unchanged. `pred_idx` holds exactly the positions whose energy, after ledger samples are forced to -100000, is below `thre_a`, or below 0 in the last round, in increasing order. |
| `Obtain.LabelPool` | matrix.py:281-305 | Clustering followed by the ledger override fails exactly on an unaddressable ledger index. Otherwise ledger samples carry their true labels and every other sample carries exactly the label that `clustering` gave it, as written (`Clustering.ClusterLabels`). `pred_idx` is exact, as in `Obtain.ConfirmLedger`. |
| `Obtain.ObtainLabel` | matrix.py:192-310 | The end-to-end skeleton. A failure is one of the source's raise points and nothing else. Ranking failures are passed on. After a successful ranking, the source's divisions by zero fail in its order. Line 215 fails when no energy lies below `thre_a`. Line 217 fails when none lies above `thre_w`. Line 294 fails when `label_cnt > 0` and nothing was picked. A bad ledger index fails last. The ledger after the call is the old ledger on a ranking failure and at lines 215 and 217, and grows by exactly the round's picks otherwise, even when line 294 or line 297 raises. On success, `labeled_cnt` counts the picks and `thre_w` is the ranking's. Ledger samples carry true labels. Every other sample carries exactly its label from `clustering` as written. `pred_idx` holds exactly the positions whose overridden energy is below the round's bound, in increasing order. |

## Left out

- EPIG estimator (`KL`, `logmeanexp`, `conditional_predict`, `conditional_epig_from_logprobs`, `epig_*`, `estimate_epig`, lines 14-146): these are floating-point `exp`/`log` over stochastic forward passes. The information-gain scores are an input. Line 146 slices the target log-probabilities with `len(feature_target)` rather than `len(feature_pool)`, so no contract about those scores would match the code.
- `train_knn` (lines 363-416): the banks, `topk`, the neighbour loss and the optimizer step are GPU floating-point and autograd work.
- Centroids and cosine distances in `clustering` (lines 314-315, 319, 323-326), and the feature down-weighting at lines 275-280: floating-point linear algebra. The first round's distance matrix is an input. The refinement round's distances are a function of the previous round's labels, passed in as `geometry`.
- Random selection mode (lines 265-273): it depends on `random.choice` and never terminates when `label_cnt` exceeds the pool. Line 270 checks each draw only against the current round's list, not the ledger, so a random round can relabel a ledger sample.
- Banks of different lengths: `zip` at line 197 truncates to the shorter list instead of raising, so the model ranks the first `min(len(eng_list), len(sim_list))` samples (`Ranking.PoolSize`). No error is modelled for the mismatch, because the source raises none.
- Data loading, feature extraction, softmax and arg-max, printing and `args.out_file` logging (lines 154-190, 219, 282-283, 288, 293, 300-301, 306-307): I/O and floating-point reporting. The arg-max predictions, true labels and energies are inputs.
- `Obtain.ObtainLabel`: the rates at lines 215, 217, 282, 294, 300 and 308 are not computed. Only the divisions that raise in Python are modelled, at lines 215, 217 and 294. Line 308 divides numpy scalars, which yields a NaN with a warning instead of raising, so an empty `pred_idx` is not a failure.
- The chunked information-gain loop (lines 231-241) is left out beyond its final stable descending sort. Chunking only concatenates per-chunk scores.
- `Ranking.PrefixLength`, `Ranking.PercenCount`: `int(0.07*l)`, `int(l*percen)` and `int(l*0.2)` are computed with exact rationals, not with floating-point rounding. A float product that lands just below an integer would truncate one lower in the source.
- `Clustering.Cluster`: an empty pool is reported as a failure, because numpy's argmin over an empty axis raises. NaN distances are modelled only where the refinement round creates them (`Clustering.RoundAsWritten`): a class with no sample after the first round has an all-zero column in `aff` (line 323), a zero centroid (lines 324-325) and NaN cosine distances (line 326). numpy's argmin returns the first NaN (line 327), so every sample gets the first such class. Apart from that case, the distances are reals and no NaN is modelled.
- `Obtain.ObtainLabel`: it requires the predictions, true labels and energies to describe the same pool, because they are concatenated from the same loader batches (lines 164-176). It requires every prediction to be a class below `K`, because each one is an arg-max over `K` columns (line 179). It requires the distance matrices to have one row per sample and one column per class of the round's label set, as `cdist` produces them.
- The second return value of `clustering` (the last distance matrix) is not returned, because `obtain_label` discards it. `ood_idx` is modelled (`Oracle.OodIndices`) but, as in the source, not returned.

## Findings

| source | as written | input that shows it | evidently intended | confidence | as-written member | corrected member |
|---|---|---|---|---|---|---|
| matrix.py:346-351 | When `split == 0` (exactly `batch_size` inputs already buffered), `inputs_next` and `pred_next` are set to `[]`, which discards every new input and prediction. | `inputs_test = [10]`, `inputs_new = [20]`, `batch_size = 1`: flushes `[10]` and carries `[]`, so `20` is lost. | Carry `inputs_new[split:]`, which for `split == 0` is all of `inputs_new`. | medium, not executed | `Buffer.CollectData` (shown by `Buffer.FullBufferDropsNewInputs`, `Buffer.FlushDropsNewInputs`) | `Buffer.CollectDataFixed` (proved by `Buffer.FlushConserves`, `Buffer.FlushKeepsPairs`) |
| matrix.py:322-328 | The refinement round reuses the `labelset` computed from `predict`. A class that the first round gave no sample gets an all-zero `aff` column, so its centroid is `0 / 1e-8 = 0`, every cosine distance to it is `0/0 = NaN`, and `argmin` returns that NaN column for every sample. | `labelset = [0, 1]`, first-round labels `[0, 0]`, distances to class 0 smaller for both samples: the refinement labels both samples `1`. | Exclude classes without samples in each round, by recomputing `labelset` from the previous round's labels. Then every centroid averages at least one sample. | medium, not executed | `Clustering.RoundAsWritten` (shown by `Clustering.EmptyClassCollapses`, `Clustering.CollapseExample`) | `Clustering.Round` in `Clustering.ClusterCorrected` (proved by `Clustering.RoundsAgreeWithoutEmptyClass`, `Clustering.Refine`, `Clustering.ClusterCorrectedLabels`) |
