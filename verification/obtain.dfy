/** The discrete skeleton of `obtain_label` (matrix.py:151-310): select new
    samples against the ledger, cluster, override the ledger samples with
    their true labels, and read off the confidently labelled indices. Feature
    extraction, the values of the accuracy statistics and logging are not part
    of the model; the classifier's predictions, true labels and the
    clustering distances come in as arguments. */
module Obtain {
  import opened Results
  import opened Counting
  import opened Ranking
  import opened Selection
  import opened Clustering
  import opened Oracle

  /** `(pred_label, pred_idx, labeled_cnt, thre_w)`, the value line 310 returns. */
  datatype Labelled = Labelled(labels: seq<nat>, predIdx: seq<nat>, labeledCnt: nat, threW: real)

  /** Lines 296-305: override the ledger samples, then collect `pred_idx`. */
  method ConfirmLedger(labels: seq<nat>, trueLabels: seq<nat>, energies: seq<real>, ledger: seq<nat>,
                       threA: real, last: bool)
    returns (r: Result<(seq<nat>, seq<nat>)>)
    requires |labels| == |trueLabels| == |energies|
    ensures r.Fail? <==> !Addressable(ledger, |labels|)
    ensures r.Fail? ==> r.fault == LedgerIndexOutOfRange
    ensures r.Ok? ==>
      && |r.value.0| == |labels|
      && (forall i :: 0 <= i < |labels| && i in ledger ==> r.value.0[i] == trueLabels[i])
      && (forall i :: 0 <= i < |labels| && i !in ledger ==> r.value.0[i] == labels[i])
      && (forall i :: i in r.value.1 <==>
            0 <= i < |labels| && OverriddenEnergy(energies, ledger, i) < PredBound(threA, last))
      && (forall a, b :: 0 <= a < b < |r.value.1| ==> r.value.1[a] < r.value.1[b])
      && (forall i :: 0 <= i < |labels| && i in ledger && (last || threA > ForcedEnergy) ==> i in r.value.1)
  {
    var o := OracleOverride(labels, trueLabels, energies, ledger);
    if o.Fail? {
      return Fail(o.fault);
    }
    var ov := o.value;
    var predIdx := PredIndices(ov.energies, threA, last);
    forall i | 0 <= i < |labels| && i in ledger && (last || threA > ForcedEnergy)
      ensures i in predIdx
    {
      LedgerSamplesConfident(labels, trueLabels, energies, ledger, ov, threA, 0.0, last, i);
    }
    return Ok((ov.labels, predIdx));
  }

  /** Lines 281 and 296-305: cluster the pool, then confirm the ledger samples.
      A ledger sample gets its true label; every other sample keeps the label
      the clustering gave it. */
  method LabelPool(predict: seq<nat>, trueLabels: seq<nat>, energies: seq<real>, k: nat,
                   dd0: seq<seq<real>>, geometry: seq<nat> -> seq<seq<real>>,
                   ledger: seq<nat>, threA: real, last: bool)
    returns (r: Result<(seq<nat>, seq<nat>)>)
    requires 0 < |predict| == |energies| == |trueLabels|
    requires forall j :: 0 <= j < |predict| ==> predict[j] < k
    requires Shaped(dd0, |predict|, |LabelSet(predict, k)|)
    requires forall a :: Shaped(geometry(a), |predict|, |LabelSet(predict, k)|)
    ensures r.Fail? <==> !Addressable(ledger, |predict|)
    ensures r.Fail? ==> r.fault == LedgerIndexOutOfRange
    ensures r.Ok? ==>
      && Cluster(predict, k, dd0, geometry).Ok?
      && |r.value.0| == |predict|
      && (forall i :: 0 <= i < |predict| && i in ledger ==> r.value.0[i] == trueLabels[i])
      && (forall i :: 0 <= i < |predict| && i !in ledger ==>
            r.value.0[i] == Cluster(predict, k, dd0, geometry).value[i])
      && (forall i :: 0 <= i < |predict| && i !in ledger ==> r.value.0[i] in LabelSet(predict, k))
      && (forall i :: i in r.value.1 <==>
            0 <= i < |predict| && OverriddenEnergy(energies, ledger, i) < PredBound(threA, last))
      && (forall a, b :: 0 <= a < b < |r.value.1| ==> r.value.1[a] < r.value.1[b])
      && (forall i :: 0 <= i < |predict| && i in ledger && (last || threA > ForcedEnergy) ==> i in r.value.1)
  {
    var clustered := Cluster(predict, k, dd0, geometry);
    ClusterLabels(predict, k, dd0, geometry);
    var labels := clustered.value;
    var confirmed := ConfirmLedger(labels, trueLabels, energies, ledger, threA, last);
    if confirmed.Fail? {
      return Fail(confirmed.fault);
    }
    var (final, predIdx) := confirmed.value;
    forall i | 0 <= i < |predict| && i !in ledger
      ensures final[i] in LabelSet(predict, k)
    {
      assert labels[i] < k && labels[i] in predict;
    }
    return Ok((final, predIdx));
  }

  /** Lines 192-310 with the classifier outputs given: `predict`, the true
      labels and the energies describe the same pool of samples, and in
      information-gain mode there is one score per sample (lines 234-237).
      The three rates the source logs (lines 215, 217 and 294) are not
      computed, but their divisions by zero are: the source raises there, and
      so does the model, in the same order. `ledgerAfter` is the module-level
      ledger once the call has returned or raised: the scan at lines 246-264
      appends the round's picks before lines 294 and 297 can raise. */
  method ObtainLabel(mode: Mode, energies: seq<real>, sims: seq<real>, epig: seq<real>, percen: real,
                     labelCnt: int, ledger: seq<nat>, predict: seq<nat>, trueLabels: seq<nat>,
                     k: nat, dd0: seq<seq<real>>, geometry: seq<nat> -> seq<seq<real>>, last: bool)
    returns (r: Result<Labelled>, ledgerAfter: seq<nat>)
    requires |predict| == |energies| == |trueLabels|
    requires mode == InformationGain ==> |epig| == |energies|
    requires forall j :: 0 <= j < |predict| ==> predict[j] < k
    requires Shaped(dd0, |predict|, |LabelSet(predict, k)|)
    requires forall a :: Shaped(geometry(a), |predict|, |LabelSet(predict, k)|)
    ensures r.Fail? ==> r.fault in {EmptyPool, EmptyCandidates, ThresholdOutOfRange,
                                    NoConfidentSample, NoUnknownSample, NothingLabelled, LedgerIndexOutOfRange}
    ensures Rank(energies, sims, percen).Ok? && r.Fail? ==>
      r.fault in {NoConfidentSample, NoUnknownSample, NothingLabelled, LedgerIndexOutOfRange}
    ensures Rank(energies, sims, percen).Fail? ==>
      r == Fail(Rank(energies, sims, percen).fault) && ledgerAfter == ledger
    ensures Rank(energies, sims, percen).Ok? ==>
      var rd := SelectRound(mode, energies, sims, epig, percen, labelCnt, ledger).value;
      var confident := CountPool(energies, |energies|, Below, rd.ranking.threA);
      var unknown := CountPool(energies, |energies|, Above, rd.ranking.threW);
      && (r == Fail(NoConfidentSample) <==> confident == 0)
      && (r == Fail(NoUnknownSample) <==> confident > 0 && unknown == 0)
      && (r == Fail(NothingLabelled) <==> confident > 0 && unknown > 0 && labelCnt > 0 && rd.picked == [])
      && (r == Fail(LedgerIndexOutOfRange) <==>
            confident > 0 && unknown > 0 && !(labelCnt > 0 && rd.picked == []) &&
            !Addressable(rd.ledger, |predict|))
      && (r == Fail(NoConfidentSample) || r == Fail(NoUnknownSample) ==> ledgerAfter == ledger)
      && (r.Ok? || r == Fail(NothingLabelled) || r == Fail(LedgerIndexOutOfRange) ==> ledgerAfter == ledger + rd.picked)
    ensures r.Ok? ==>
      var rd := SelectRound(mode, energies, sims, epig, percen, labelCnt, ledger).value;
      && r.value.labeledCnt == |rd.picked|
      && r.value.threW == rd.ranking.threW
      && |r.value.labels| == |predict|
      && Cluster(predict, k, dd0, geometry).Ok?
      && (forall i :: 0 <= i < |predict| && i in ledgerAfter ==> r.value.labels[i] == trueLabels[i])
      && (forall i :: 0 <= i < |predict| && i !in ledgerAfter ==>
            r.value.labels[i] == Cluster(predict, k, dd0, geometry).value[i])
      && (forall i :: 0 <= i < |predict| && i !in ledgerAfter ==> r.value.labels[i] in LabelSet(predict, k))
      && (forall i :: i in r.value.predIdx <==>
            0 <= i < |predict| &&
            OverriddenEnergy(energies, ledgerAfter, i) < PredBound(rd.ranking.threA, last))
      && (forall a, b :: 0 <= a < b < |r.value.predIdx| ==> r.value.predIdx[a] < r.value.predIdx[b])
      && (forall i :: 0 <= i < |predict| && i in ledgerAfter && (last || rd.ranking.threA > ForcedEnergy) ==>
            i in r.value.predIdx)
  {
    var round := SelectRound(mode, energies, sims, epig, percen, labelCnt, ledger);
    if round.Fail? {
      return Fail(round.fault), ledger;
    }
    var rd := round.value;
    if CountPool(energies, |energies|, Below, rd.ranking.threA) == 0 {
      return Fail(NoConfidentSample), ledger;
    }
    if CountPool(energies, |energies|, Above, rd.ranking.threW) == 0 {
      return Fail(NoUnknownSample), ledger;
    }
    if labelCnt > 0 && rd.picked == [] {
      return Fail(NothingLabelled), rd.ledger;
    }
    var labelled := LabelPool(predict, trueLabels, energies, k, dd0, geometry, rd.ledger, rd.ranking.threA, last);
    if labelled.Fail? {
      return Fail(labelled.fault), rd.ledger;
    }
    var (final, predIdx) := labelled.value;
    return Ok(Labelled(final, predIdx, |rd.picked|, rd.ranking.threW)), rd.ledger;
  }
}
