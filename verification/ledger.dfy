/** The ledger scan of `obtain_label` (matrix.py:244-264). A candidate list is
    walked in order; a candidate already in the persistent ledger of labelled
    samples is skipped, any other is picked and appended to the ledger, until
    `label_cnt` samples are picked or the list runs out. The module-level list
    `already_labeled_idx` is threaded here as an explicit argument and result. */
module Ledger {
  import opened StableSort

  /** `xs` occurs in `ys` in the same order, possibly with gaps. */
  predicate Subsequence(xs: seq<nat>, ys: seq<nat>)
    decreases |ys|
  {
    |xs| == 0 ||
    (|ys| > 0 &&
     if xs[0] == ys[0] then Subsequence(xs[1..], ys[1..]) else Subsequence(xs, ys[1..]))
  }

  predicate Distinct(s: seq<nat>)
  {
    forall i, j :: 0 <= i < j < |s| ==> s[i] != s[j]
  }

  /** Everything a subsequence holds is in the sequence it is taken from. */
  lemma {:induction false} SubsequenceMembers(xs: seq<nat>, ys: seq<nat>)
    requires Subsequence(xs, ys)
    ensures forall x :: x in xs ==> x in ys
    decreases |ys|
  {
    if |xs| > 0 {
      if xs[0] == ys[0] {
        SubsequenceMembers(xs[1..], ys[1..]);
        assert xs == [xs[0]] + xs[1..];
      } else {
        SubsequenceMembers(xs, ys[1..]);
      }
      assert ys == [ys[0]] + ys[1..];
    }
  }

  /** A subsequence of a stably ordered list is stably ordered. */
  lemma {:induction false} SubsequenceKeepsOrder(keys: seq<real>, descending: bool, xs: seq<nat>, ys: seq<nat>)
    requires Subsequence(xs, ys)
    requires InRange(keys, ys) && Ordered(keys, descending, ys)
    ensures InRange(keys, xs) && Ordered(keys, descending, xs)
    decreases |ys|
  {
    SubsequenceMembers(xs, ys);
    if |xs| > 0 {
      if xs[0] == ys[0] {
        SubsequenceKeepsOrder(keys, descending, xs[1..], ys[1..]);
        SubsequenceMembers(xs[1..], ys[1..]);
        forall j | 0 < j < |xs|
          ensures Before(keys, descending, xs[0], xs[j])
        {
          assert xs[j] in xs[1..];
          var m :| 0 <= m < |ys[1..]| && ys[1..][m] == xs[j];
          assert ys[m + 1] == xs[j];
        }
      } else {
        SubsequenceKeepsOrder(keys, descending, xs, ys[1..]);
      }
    }
  }

  /** The scan as a recursive reference definition: the picks lines 246-264
      (or 256-264) make from `cands` with `budget` picks left, given the
      ledger as it stands. */
  function Select(cands: seq<nat>, ledger: seq<nat>, budget: int): (r: seq<nat>)
    ensures |r| <= |cands|
    decreases |cands|
  {
    if budget <= 0 || |cands| == 0 then []
    else if cands[0] in ledger then Select(cands[1..], ledger, budget)
    else [cands[0]] + Select(cands[1..], ledger + [cands[0]], budget - 1)
  }

  /** What the scan promises: its picks appear in candidate order, number at
      most the budget, were not in the ledger, repeat nothing (even when the
      candidate list does, since every pick joins the ledger at once), and
      fall short of the budget only when every candidate ends up labelled. */
  lemma {:induction false} SelectProperties(cands: seq<nat>, ledger: seq<nat>, budget: int)
    ensures var picked := Select(cands, ledger, budget);
      && Subsequence(picked, cands)
      && (|picked| <= budget || |picked| == 0)
      && (forall x :: x in picked ==> x !in ledger)
      && Distinct(picked)
      && (|picked| < budget ==> forall x :: x in cands ==> x in ledger || x in picked)
    decreases |cands|
  {
    if budget <= 0 || |cands| == 0 {
    } else if cands[0] in ledger {
      SelectProperties(cands[1..], ledger, budget);
      var picked := Select(cands, ledger, budget);
      if |picked| > 0 {
        assert picked[0] != cands[0];
      }
      assert cands == [cands[0]] + cands[1..];
    } else {
      var rest := Select(cands[1..], ledger + [cands[0]], budget - 1);
      SelectProperties(cands[1..], ledger + [cands[0]], budget - 1);
      assert forall j :: 0 <= j < |rest| ==> rest[j] != cands[0] by {
        forall j | 0 <= j < |rest|
          ensures rest[j] != cands[0]
        {
          assert rest[j] in rest;
        }
      }
      assert ([cands[0]] + rest)[1..] == rest;
      assert cands == [cands[0]] + cands[1..];
    }
  }

  /** The scan is greedy: a candidate that was neither labelled nor picked
      was passed over only because the budget had run out, and every pick
      comes from the candidates ahead of it. */
  lemma {:induction false} SelectGreedy(cands: seq<nat>, ledger: seq<nat>, budget: int)
    ensures var picked := Select(cands, ledger, budget);
      forall j :: 0 <= j < |cands| && cands[j] !in ledger && cands[j] !in picked ==>
        |picked| >= budget && forall x :: x in picked ==> x in cands[..j]
    decreases |cands|
  {
    var picked := Select(cands, ledger, budget);
    if budget <= 0 || |cands| == 0 {
    } else if cands[0] in ledger {
      SelectGreedy(cands[1..], ledger, budget);
      forall j | 0 <= j < |cands| && cands[j] !in ledger && cands[j] !in picked
        ensures |picked| >= budget && forall x :: x in picked ==> x in cands[..j]
      {
        assert cands[1..][j - 1] == cands[j];
        assert cands[1..][..j - 1] == cands[1..j];
      }
    } else {
      var rest := Select(cands[1..], ledger + [cands[0]], budget - 1);
      SelectGreedy(cands[1..], ledger + [cands[0]], budget - 1);
      assert picked == [cands[0]] + rest;
      forall j | 0 <= j < |cands| && cands[j] !in ledger && cands[j] !in picked
        ensures |picked| >= budget && forall x :: x in picked ==> x in cands[..j]
      {
        assert picked[0] == cands[0];
        assert j != 0;
        assert cands[1..][j - 1] == cands[j];
        assert cands[j] !in rest;
        assert cands[1..][..j - 1] == cands[1..j];
        assert cands[..j] == [cands[0]] + cands[1..j];
      }
    }
  }

  /** One step of the scan at position `i`. */
  lemma SelectStep(cands: seq<nat>, i: nat, ledger: seq<nat>, budget: int)
    requires i < |cands| && 0 < budget
    ensures Select(cands[i..], ledger, budget) ==
      if cands[i] in ledger then Select(cands[i + 1..], ledger, budget)
      else [cands[i]] + Select(cands[i + 1..], ledger + [cands[i]], budget - 1)
  {
    assert cands[i..][1..] == cands[i + 1..];
  }

  /** Lines 246-264 as the loop the source runs. `pre_lbl` counts the
      candidates skipped because they were already labelled. */
  method ScanLedger(cands: seq<nat>, ledger: seq<nat>, labelCnt: int)
    returns (picked: seq<nat>, ledger': seq<nat>)
    ensures picked == Select(cands, ledger, labelCnt)
    ensures ledger' == ledger + picked
    ensures Subsequence(picked, cands) && Distinct(picked)
    ensures |picked| <= labelCnt || |picked| == 0
    ensures forall x :: x in picked ==> x !in ledger
    ensures |picked| < labelCnt ==> forall x :: x in cands ==> x in ledger'
  {
    picked, ledger' := [], ledger;
    var selectedCnt, curIdx, preLbl := 0, 0, 0;
    while selectedCnt < labelCnt && curIdx < |cands|
      invariant 0 <= curIdx <= |cands|
      invariant selectedCnt == |picked| && selectedCnt + preLbl == curIdx
      invariant ledger' == ledger + picked
      invariant picked + Select(cands[curIdx..], ledger', labelCnt - selectedCnt)
                == Select(cands, ledger, labelCnt)
    {
      var now := cands[curIdx];
      ghost var rest := Select(cands[curIdx + 1..], ledger' + [now], labelCnt - selectedCnt - 1);
      SelectStep(cands, curIdx, ledger', labelCnt - selectedCnt);
      if now !in ledger' {
        assert picked + ([now] + rest) == (picked + [now]) + rest;
        picked := picked + [now];
        ledger' := ledger' + [now];
        selectedCnt := selectedCnt + 1;
      } else {
        preLbl := preLbl + 1;
      }
      curIdx := curIdx + 1;
    }
    assert Select(cands[curIdx..], ledger', labelCnt - selectedCnt) == [];
    assert picked + [] == picked;
    SelectProperties(cands, ledger, labelCnt);
  }

  /** Two successive selection rounds against the same, threaded ledger never
      pick a sample twice and never pick one labelled before the first round. */
  lemma SuccessiveRounds(c1: seq<nat>, c2: seq<nat>, ledger: seq<nat>, n1: int, n2: int)
    ensures var p1 := Select(c1, ledger, n1); var p2 := Select(c2, ledger + p1, n2);
      && Distinct(p1 + p2)
      && (forall x :: x in p1 + p2 ==> x !in ledger)
  {
    var p1 := Select(c1, ledger, n1);
    var p2 := Select(c2, ledger + p1, n2);
    SelectProperties(c1, ledger, n1);
    SelectProperties(c2, ledger + p1, n2);
    forall i, j | 0 <= i < j < |p1 + p2|
      ensures (p1 + p2)[i] != (p1 + p2)[j]
    {
      if i < |p1| <= j {
        assert (p1 + p2)[i] in ledger + p1;
      }
    }
  }
}
