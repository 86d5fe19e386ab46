/** The oracle override at the end of `obtain_label` (matrix.py:296-305):
    every sample in the ledger gets its true label and an energy of -100000,
    and the returned index sets are read off the overridden energies. */
module Oracle {
  import opened Results

  /** The energy an oracle-labelled sample is forced to (line 298). */
  const ForcedEnergy: real := -100000.0

  datatype Overridden = Overridden(labels: seq<nat>, energies: seq<real>)

  /** Every ledger index addresses the prediction, label and energy arrays. */
  predicate Addressable(ledger: seq<nat>, n: nat)
  {
    forall j :: 0 <= j < |ledger| ==> ledger[j] < n
  }

  function Min3(a: nat, b: nat, c: nat): (m: nat)
    ensures m <= a && m <= b && m <= c
    ensures m == a || m == b || m == c
  {
    if a <= b && a <= c then a else if b <= c then b else c
  }

  /** Lines 296-298, walking the ledger as the source does. An index outside
      the arrays raises IndexError in the source. */
  method OracleOverride(predLabels: seq<nat>, trueLabels: seq<nat>, energies: seq<real>, ledger: seq<nat>)
    returns (r: Result<Overridden>)
    ensures r.Fail? <==> !Addressable(ledger, Min3(|predLabels|, |trueLabels|, |energies|))
    ensures r.Fail? ==> r.fault == LedgerIndexOutOfRange
    ensures r.Ok? ==>
      && |r.value.labels| == |predLabels| && |r.value.energies| == |energies|
      && (forall i :: 0 <= i < |predLabels| ==>
            r.value.labels[i] == if i in ledger then trueLabels[i] else predLabels[i])
      && (forall i :: 0 <= i < |energies| ==>
            r.value.energies[i] == if i in ledger then ForcedEnergy else energies[i])
  {
    var n := Min3(|predLabels|, |trueLabels|, |energies|);
    var labels, eng := predLabels, energies;
    var k := 0;
    while k < |ledger|
      invariant 0 <= k <= |ledger|
      invariant Addressable(ledger[..k], n)
      invariant |labels| == |predLabels| && |eng| == |energies|
      invariant forall i :: 0 <= i < |labels| ==>
        labels[i] == if i in ledger[..k] then trueLabels[i] else predLabels[i]
      invariant forall i :: 0 <= i < |eng| ==>
        eng[i] == if i in ledger[..k] then ForcedEnergy else energies[i]
    {
      var i := ledger[k];
      if n <= i {
        assert !Addressable(ledger, n);
        return Fail(LedgerIndexOutOfRange);
      }
      labels := labels[i := trueLabels[i]];
      eng := eng[i := ForcedEnergy];
      assert ledger[..k + 1] == ledger[..k] + [i];
      k := k + 1;
    }
    assert ledger[..k] == ledger;
    return Ok(Overridden(labels, eng));
  }

  /** `np.where(keep(e))[0]`: the positions, in increasing order, whose value
      passes the test. */
  function Where(e: seq<real>, keep: real -> bool): (r: seq<nat>)
    ensures forall i :: i in r <==> 0 <= i < |e| && keep(e[i])
    ensures forall a, b :: 0 <= a < b < |r| ==> r[a] < r[b]
  {
    if |e| == 0 then []
    else
      var front := Where(e[..|e| - 1], keep);
      assert forall i :: 0 <= i < |e| - 1 ==> e[..|e| - 1][i] == e[i];
      assert forall a :: 0 <= a < |front| ==> front[a] < |e| - 1 by {
        forall a | 0 <= a < |front|
          ensures front[a] < |e| - 1
        {
          assert front[a] in front;
        }
      }
      front + (if keep(e[|e| - 1]) then [|e| - 1] else [])
  }

  /** A sample's energy after lines 296-298. */
  function OverriddenEnergy(energies: seq<real>, ledger: seq<nat>, i: nat): real
    requires i < |energies|
  {
    if i in ledger then ForcedEnergy else energies[i]
  }

  /** The energy `pred_idx` compares against: `thre_a`, or 0 in the last
      round (lines 303-305). */
  function PredBound(threA: real, last: bool): real
  {
    if last then 0.0 else threA
  }

  /** Line 302: `ood_idx` holds the samples at or above `thre_w`, in order. */
  function OodIndices(energies: seq<real>, threW: real): (r: seq<nat>)
    ensures forall i :: i in r <==> 0 <= i < |energies| && energies[i] >= threW
    ensures forall a, b :: 0 <= a < b < |r| ==> r[a] < r[b]
  {
    Where(energies, x => x >= threW)
  }

  /** Lines 303-305: `pred_idx` holds the samples strictly below `thre_a`, or
      strictly below 0 in the last round, in order. */
  function PredIndices(energies: seq<real>, threA: real, last: bool): (r: seq<nat>)
    ensures forall i :: i in r <==> 0 <= i < |energies| && energies[i] < PredBound(threA, last)
    ensures forall a, b :: 0 <= a < b < |r| ==> r[a] < r[b]
  {
    if last then Where(energies, x => x < 0.0) else Where(energies, x => x < threA)
  }

  /** After the override every ledger sample carries its true label, is
      returned as confidently labelled whenever `thre_a` exceeds the forced
      energy (always in the last round), and is never flagged as unknown
      unless `thre_w` is at or below the forced energy. */
  lemma LedgerSamplesConfident(predLabels: seq<nat>, trueLabels: seq<nat>, energies: seq<real>,
                               ledger: seq<nat>, o: Overridden, threA: real, threW: real, last: bool, i: nat)
    requires |predLabels| == |trueLabels| == |energies|
    requires |o.labels| == |predLabels| && |o.energies| == |energies|
    requires forall j :: 0 <= j < |predLabels| ==>
      o.labels[j] == if j in ledger then trueLabels[j] else predLabels[j]
    requires forall j :: 0 <= j < |energies| ==>
      o.energies[j] == if j in ledger then ForcedEnergy else energies[j]
    requires i in ledger && i < |energies|
    ensures o.labels[i] == trueLabels[i]
    ensures (last || threA > ForcedEnergy) ==> i in PredIndices(o.energies, threA, last)
    ensures threW > ForcedEnergy ==> i !in OodIndices(o.energies, threW)
  {
  }
}
