/** The label bookkeeping of `clustering` (matrix.py:313-329). The centroid
    geometry (affinity-weighted means, cosine distances) is abstracted: the
    first round's distance matrix is given, and the refinement round's
    distances come from a function of the previous round's hard labels. What
    is modelled is the label set, numpy's first-minimum argmin and the mapping
    of argmin positions back to class labels. The refinement round is modelled
    twice: as written, where a class left without samples captures every
    sample through a NaN distance, and corrected, with the label set
    recomputed from the previous round's labels. */
module Clustering {
  import opened Results

  /** `labelset`: the classes below `k` predicted for at least one sample, in
      ascending order (lines 316-318). */
  function LabelSet(predict: seq<nat>, k: nat): (r: seq<nat>)
    ensures forall c :: c in r <==> c < k && c in predict
    ensures forall a, b :: 0 <= a < b < |r| ==> r[a] < r[b]
  {
    if k == 0 then []
    else
      var front := LabelSet(predict, k - 1);
      assert forall a :: 0 <= a < |front| ==> front[a] < k - 1 by {
        forall a | 0 <= a < |front|
          ensures front[a] < k - 1
        {
          assert front[a] in front;
        }
      }
      front + (if k - 1 in predict then [k - 1] else [])
  }

  /** `row.argmin()`: the first position holding the minimum. */
  function ArgMin(row: seq<real>): (r: nat)
    requires |row| > 0
    ensures r < |row|
    ensures forall j :: 0 <= j < |row| ==> row[r] <= row[j]
    ensures forall j :: 0 <= j < r ==> row[r] < row[j]
  {
    if |row| == 1 then 0
    else
      var m := ArgMin(row[..|row| - 1]);
      if row[|row| - 1] < row[m] then |row| - 1 else m
  }

  /** ArgMin is the only position that is minimal and strictly below every
      earlier entry. */
  lemma ArgMinUnique(row: seq<real>, j: nat)
    requires j < |row|
    ensures j == ArgMin(row) <==>
      (forall i :: 0 <= i < |row| ==> row[j] <= row[i]) && (forall i :: 0 <= i < j ==> row[j] < row[i])
  {
  }

  /** `dd` has `n` rows of `m` distances each. */
  predicate Shaped(dd: seq<seq<real>>, n: nat, m: nat)
  {
    |dd| == n && forall i :: 0 <= i < n ==> |dd[i]| == m
  }

  /** `labelset[dd.argmin(axis=1)]` (lines 320-321 and 327-328). */
  function Assign(labelset: seq<nat>, dd: seq<seq<real>>): (r: seq<nat>)
    requires |labelset| > 0 && Shaped(dd, |dd|, |labelset|)
    ensures |r| == |dd|
    ensures forall i :: 0 <= i < |r| ==> r[i] in labelset
  {
    seq(|dd|, i requires 0 <= i < |dd| => labelset[ArgMin(dd[i])])
  }

  /** A sample is assigned class `labelset[j]` exactly when the `j`-th
      centroid is nearest to it and no earlier centroid is as near. */
  lemma AssignNearest(labelset: seq<nat>, dd: seq<seq<real>>, i: nat, j: nat)
    requires |labelset| > 0 && Shaped(dd, |dd|, |labelset|)
    requires forall a, b :: 0 <= a < b < |labelset| ==> labelset[a] < labelset[b]
    requires i < |dd| && j < |labelset|
    ensures Assign(labelset, dd)[i] == labelset[j] <==>
      (forall c :: 0 <= c < |labelset| ==> dd[i][j] <= dd[i][c]) && (forall c :: 0 <= c < j ==> dd[i][j] < dd[i][c])
  {
    var m := ArgMin(dd[i]);
    ArgMinUnique(dd[i], j);
    if m < j {
      assert labelset[m] < labelset[j];
    } else if j < m {
      assert labelset[j] < labelset[m];
    }
  }

  /** Two sequences with the same members are both empty or both not. */
  lemma SameMembersEmpty(a: seq<nat>, b: seq<nat>)
    requires forall x :: x in a <==> x in b
    ensures |a| == 0 <==> |b| == 0
  {
    if |a| > 0 {
      assert a[0] in b;
    }
    if |b| > 0 {
      assert b[0] in a;
    }
  }

  /** Past a shared first element, a member of the tail of one ascending
      sequence is in the tail of any ascending sequence holding all its
      members. */
  lemma AscendingTail(a: seq<nat>, b: seq<nat>, x: nat)
    requires 0 < |a| && 0 < |b| && a[0] == b[0]
    requires forall i, j :: 0 <= i < j < |a| ==> a[i] < a[j]
    requires forall i, j :: 0 <= i < j < |b| ==> b[i] < b[j]
    requires forall y :: y in a ==> y in b
    requires x in a[1..]
    ensures x in b[1..]
  {
    var i :| 0 <= i < |a[1..]| && a[1..][i] == x;
    assert a[i + 1] == x;
    assert x in b;
    var j :| 0 <= j < |b| && b[j] == x;
    assert j != 0;
    assert b[1..][j - 1] == x;
  }

  /** Two strictly ascending sequences with the same members are equal. */
  lemma {:induction false} AscendingUnique(a: seq<nat>, b: seq<nat>)
    requires forall i, j :: 0 <= i < j < |a| ==> a[i] < a[j]
    requires forall i, j :: 0 <= i < j < |b| ==> b[i] < b[j]
    requires forall x :: x in a <==> x in b
    ensures a == b
    decreases |a|
  {
    SameMembersEmpty(a, b);
    if |a| > 0 {
      assert a[0] in b;
      var j :| 0 <= j < |b| && b[j] == a[0];
      assert b[0] in a;
      var i :| 0 <= i < |a| && a[i] == b[0];
      assert a[0] <= a[i] && b[0] <= b[j];
      forall x
        ensures x in a[1..] <==> x in b[1..]
      {
        if x in a[1..] {
          AscendingTail(a, b, x);
        }
        if x in b[1..] {
          AscendingTail(b, a, x);
        }
      }
      AscendingUnique(a[1..], b[1..]);
      assert a == [a[0]] + a[1..];
      assert b == [b[0]] + b[1..];
    }
  }

  /** The number of refinement rounds after the first assignment (line 322). */
  const RefinementRounds: nat := 1

  /** The position in `labelset` of the first class that no sample of
      `labels` carries, if there is one. */
  function FirstUnused(labelset: seq<nat>, labels: seq<nat>): (r: Option<nat>)
    ensures r.None? <==> forall c :: c in labelset ==> c in labels
    ensures r.Some? ==>
      && r.value < |labelset| && labelset[r.value] !in labels
      && forall j :: 0 <= j < r.value ==> labelset[j] in labels
  {
    if |labelset| == 0 then None
    else if labelset[0] !in labels then Some(0)
    else match FirstUnused(labelset[1..], labels)
      case None =>
        assert labelset == [labelset[0]] + labelset[1..];
        None
      case Some(j) =>
        assert forall i :: 1 <= i <= j ==> labelset[i] == labelset[1..][i - 1];
        Some(j + 1)
  }

  /** One refinement round as lines 323-328 compute it. A class of `labelset`
      that no sample of `labels` carries gets an all-zero column in `aff`
      (line 323), so its centroid is `0 / 1e-8`, the zero vector (lines
      324-325), and its cosine distance to every sample is `0/0`, a NaN (line
      326). numpy's argmin returns the first NaN of a row (line 327), so every
      sample is given the first such class. `dd` holds the distances to the
      classes still in use; its entries for the other classes are never
      read. */
  function RoundAsWritten(labelset: seq<nat>, labels: seq<nat>, dd: seq<seq<real>>): (r: seq<nat>)
    requires |labelset| > 0 && Shaped(dd, |labels|, |labelset|)
    ensures |r| == |labels|
    ensures forall i :: 0 <= i < |r| ==> r[i] in labelset
  {
    assert Shaped(dd, |dd|, |labelset|);
    match FirstUnused(labelset, labels)
    case Some(j) => seq(|dd|, i => labelset[j])
    case None => Assign(labelset, dd)
  }

  /** As written, once the previous round leaves one class of `labelset`
      without samples, the refinement round gives EVERY sample one and the
      same class, and it is a class no sample had before. */
  lemma EmptyClassCollapses(labelset: seq<nat>, labels: seq<nat>, dd: seq<seq<real>>)
    requires |labelset| > 0 && Shaped(dd, |labels|, |labelset|)
    requires exists c :: c in labelset && c !in labels
    ensures var r := RoundAsWritten(labelset, labels, dd);
      forall i, i' :: 0 <= i < |r| && 0 <= i' < |r| ==> r[i] == r[i'] && r[i] in labelset && r[i] !in labels
  {
    var j := FirstUnused(labelset, labels).value;
    assert RoundAsWritten(labelset, labels, dd) == seq(|dd|, i => labelset[j]);
  }

  /** Two samples that both sit nearest class 0 after a first round that used
      only class 0: as written the refinement moves both to class 1, while
      the round that excludes the empty class keeps both at class 0. */
  lemma CollapseExample()
    ensures RoundAsWritten([0, 1], [0, 0], [[0.0, 1.0], [0.0, 1.0]]) == [1, 1]
    ensures LabelSet([0, 0], 2) == [0]
    ensures Round(2, [0, 0], [[0.0], [0.0]]) == [0, 0]
  {
    assert FirstUnused([0, 1], [0, 0]) == Some(1) by {
      assert [0, 1][1..] == [1];
      assert 1 !in [0, 0];
    }
    assert LabelSet([0, 0], 1) == [0];
    assert 1 !in [0, 0];
  }

  /** One refinement round with the classes that went empty left out: the
      label set is recomputed from the previous round's labels, as lines
      316-318 compute it from `predict`, so every centroid averages at least
      one sample. `dd` holds the distances to the classes of that set. */
  function Round(k: nat, labels: seq<nat>, dd: seq<seq<real>>): (r: seq<nat>)
    requires 0 < |labels| && forall i :: 0 <= i < |labels| ==> labels[i] < k
    requires Shaped(dd, |labels|, |LabelSet(labels, k)|)
    ensures |r| == |labels|
    ensures forall i :: 0 <= i < |r| ==> r[i] in labels && r[i] < k
  {
    assert labels[0] in LabelSet(labels, k);
    assert Shaped(dd, |dd|, |LabelSet(labels, k)|);
    Assign(LabelSet(labels, k), dd)
  }

  /** While every class of `labelset` still has a sample, the round that
      excludes empty classes computes the same labels as the source's round:
      the recomputed label set is the original one. */
  lemma RoundsAgreeWithoutEmptyClass(predict: seq<nat>, k: nat, labels: seq<nat>, dd: seq<seq<real>>)
    requires 0 < |labels| && |LabelSet(predict, k)| > 0
    requires forall i :: 0 <= i < |labels| ==> labels[i] in LabelSet(predict, k)
    requires forall c :: c in LabelSet(predict, k) ==> c in labels
    requires Shaped(dd, |labels|, |LabelSet(predict, k)|)
    ensures LabelSet(labels, k) == LabelSet(predict, k)
    ensures RoundAsWritten(LabelSet(predict, k), labels, dd) == Round(k, labels, dd)
  {
    var labelset := LabelSet(predict, k);
    forall c
      ensures c in LabelSet(labels, k) <==> c in labelset
    {
      if c in labels {
        var i :| 0 <= i < |labels| && labels[i] == c;
      }
    }
    AscendingUnique(LabelSet(labels, k), labelset);
  }

  /** The corrected refinement: recompute the label set and the distances
      from the previous round's hard labels and reassign, `rounds` times
      (lines 322-328 with empty classes excluded in every round). No round
      introduces a class the previous round did not use. */
  function Refine(k: nat, geometry: seq<nat> -> seq<seq<real>>, n: nat,
                  labels: seq<nat>, rounds: nat): (r: seq<nat>)
    requires 0 < n && |labels| == n && forall i :: 0 <= i < n ==> labels[i] < k
    requires forall a :: Shaped(geometry(a), n, |LabelSet(a, k)|)
    ensures |r| == n
    ensures forall i :: 0 <= i < n ==> r[i] in labels && r[i] < k
    decreases rounds
  {
    if rounds == 0 then labels
    else
      var next := Round(k, labels, geometry(labels));
      var r := Refine(k, geometry, n, next, rounds - 1);
      assert forall i :: 0 <= i < n ==> r[i] in labels by {
        forall i | 0 <= i < n
          ensures r[i] in labels
        {
          var j :| 0 <= j < n && next[j] == r[i];
        }
      }
      r
  }

  /** `clustering(aff, all_fea, K, predict)` with the distances abstracted:
      one first assignment against `labelset` and the single refinement round
      of line 322, as written. An out-of-range class makes `np.eye(K)[predict]`
      raise, and with no samples the argmin over an empty axis raises. */
  function Cluster(predict: seq<nat>, k: nat, dd0: seq<seq<real>>,
                   geometry: seq<nat> -> seq<seq<real>>): (r: Result<seq<nat>>)
    requires Shaped(dd0, |predict|, |LabelSet(predict, k)|)
    requires forall a :: Shaped(geometry(a), |predict|, |LabelSet(predict, k)|)
    ensures r.Fail? <==> |predict| == 0 || exists j :: 0 <= j < |predict| && predict[j] >= k
    ensures r.Ok? ==> |r.value| == |predict| && forall i :: 0 <= i < |predict| ==> r.value[i] in LabelSet(predict, k)
  {
    if exists j :: 0 <= j < |predict| && predict[j] >= k then Fail(ClassOutOfRange)
    else if |predict| == 0 then Fail(EmptyPool)
    else
      var labelset := LabelSet(predict, k);
      assert predict[0] in labelset;
      var first := Assign(labelset, dd0);
      Ok(RoundAsWritten(labelset, first, geometry(first)))
  }

  /** `clustering` corrected: the refinement rounds exclude the classes the
      previous round left empty, so the geometry gives one column per class
      of each round's own label set. */
  function ClusterCorrected(predict: seq<nat>, k: nat, dd0: seq<seq<real>>,
                   geometry: seq<nat> -> seq<seq<real>>): (r: Result<seq<nat>>)
    requires Shaped(dd0, |predict|, |LabelSet(predict, k)|)
    requires forall a :: Shaped(geometry(a), |predict|, |LabelSet(a, k)|)
    ensures r.Fail? <==> |predict| == 0 || exists j :: 0 <= j < |predict| && predict[j] >= k
    ensures r.Ok? ==> |r.value| == |predict| && forall i :: 0 <= i < |predict| ==> r.value[i] in LabelSet(predict, k)
  {
    if exists j :: 0 <= j < |predict| && predict[j] >= k then Fail(ClassOutOfRange)
    else if |predict| == 0 then Fail(EmptyPool)
    else
      var labelset := LabelSet(predict, k);
      assert predict[0] in labelset;
      var first := Assign(labelset, dd0);
      var refined := Refine(k, geometry, |predict|, first, RefinementRounds);
      assert forall i :: 0 <= i < |predict| ==> refined[i] in labelset by {
        forall i | 0 <= i < |predict|
          ensures refined[i] in labelset
        {
          var j :| 0 <= j < |predict| && first[j] == refined[i];
        }
      }
      Ok(refined)
  }

  /** A labelling the geometry maps back onto itself is left unchanged by any
      number of refinement rounds. */
  lemma {:induction false} RefineFixedPoint(k: nat, geometry: seq<nat> -> seq<seq<real>>,
                                            n: nat, labels: seq<nat>, rounds: nat)
    requires 0 < n && |labels| == n && forall i :: 0 <= i < n ==> labels[i] < k
    requires forall a :: Shaped(geometry(a), n, |LabelSet(a, k)|)
    requires Round(k, labels, geometry(labels)) == labels
    ensures Refine(k, geometry, n, labels, rounds) == labels
    decreases rounds
  {
    if rounds > 0 {
      RefineFixedPoint(k, geometry, n, labels, rounds - 1);
    }
  }

  /** What `clustering` returns, by whether the first round left a class of
      `labelset` without samples. If it did, every sample gets the first such
      class, one the first round gave no sample. If it did not, each sample
      gets the class of the centroid nearest it in the refinement round's
      distances (the first such centroid on a tie). */
  lemma ClusterLabels(predict: seq<nat>, k: nat, dd0: seq<seq<real>>, geometry: seq<nat> -> seq<seq<real>>)
    requires Shaped(dd0, |predict|, |LabelSet(predict, k)|)
    requires forall a :: Shaped(geometry(a), |predict|, |LabelSet(predict, k)|)
    requires Cluster(predict, k, dd0, geometry).Ok?
    ensures var labels := Cluster(predict, k, dd0, geometry).value; var labelset := LabelSet(predict, k);
      && |labels| == |predict|
      && (forall i :: 0 <= i < |labels| ==> labels[i] < k && labels[i] in predict)
      && |labelset| > 0
      && var first := Assign(labelset, dd0);
         && (FirstUnused(labelset, first).Some? ==>
               forall i :: 0 <= i < |labels| ==>
                 labels[i] == labelset[FirstUnused(labelset, first).value] && labels[i] !in first)
         && (FirstUnused(labelset, first).None? ==>
               forall i :: 0 <= i < |labels| ==> labels[i] == labelset[ArgMin(geometry(first)[i])])
  {
    var labelset := LabelSet(predict, k);
    assert predict[0] in labelset;
  }

  /** Every label the corrected `clustering` returns is a class of `labelset`
      that the first round already used, and is the class of the centroid nearest the
      sample in the refinement round's distances (the first such centroid on
      a tie), among the classes the first round used. */
  lemma ClusterCorrectedLabels(predict: seq<nat>, k: nat, dd0: seq<seq<real>>, geometry: seq<nat> -> seq<seq<real>>)
    requires Shaped(dd0, |predict|, |LabelSet(predict, k)|)
    requires forall a :: Shaped(geometry(a), |predict|, |LabelSet(a, k)|)
    requires ClusterCorrected(predict, k, dd0, geometry).Ok?
    ensures var labels := ClusterCorrected(predict, k, dd0, geometry).value; var labelset := LabelSet(predict, k);
      && |labels| == |predict|
      && (forall i :: 0 <= i < |labels| ==> labels[i] < k && labels[i] in predict)
      && |labelset| > 0
      && var first := Assign(labelset, dd0);
         && (forall i :: 0 <= i < |labels| ==> labels[i] in first)
         && |LabelSet(first, k)| > 0
         && forall i :: 0 <= i < |labels| ==> labels[i] == LabelSet(first, k)[ArgMin(geometry(first)[i])]
  {
    var labelset := LabelSet(predict, k);
    assert predict[0] in labelset;
    var first := Assign(labelset, dd0);
    assert first[0] in LabelSet(first, k);
    var next := Round(k, first, geometry(first));
    assert Refine(k, geometry, |predict|, first, 1) == Refine(k, geometry, |predict|, next, 0);
  }
}
