/** One selection round of `obtain_label` (matrix.py:192-264): rank the pool,
    choose the candidate list of the configured mode and scan it against the
    ledger. The `args.bada` / `args.ran` flags become an explicit mode. */
module Selection {
  import opened Results
  import opened StableSort
  import opened Ranking
  import opened Ledger

  /** `args.bada` off: energy + diversity ranking (line 255); on: ranking by
      information gain (line 244). The random mode is not modelled. */
  datatype Mode = EnergyDiversity | InformationGain

  /** The list the scan walks. In information-gain mode it is every pool
      position stably sorted by descending score (line 241). */
  function CandidateList(mode: Mode, rk: Ranking, epig: seq<real>): (r: seq<nat>)
    ensures mode == EnergyDiversity ==> r == rk.candidates
    ensures mode == InformationGain ==>
      && multiset(r) == multiset(Iota(|epig|))
      && InRange(epig, r) && Ordered(epig, true, r)
  {
    match mode
    case EnergyDiversity => rk.candidates
    case InformationGain => SortPositions(epig, true, |epig|)
  }

  datatype Round = Round(ranking: Ranking, picked: seq<nat>, ledger: seq<nat>)

  /** Lines 192-264 for either mode. The energy ranking and its thresholds are
      computed, and can fail, in both modes. */
  function SelectRound(mode: Mode, energies: seq<real>, sims: seq<real>, epig: seq<real>,
                       percen: real, labelCnt: int, ledger: seq<nat>): (r: Result<Round>)
    ensures Rank(energies, sims, percen).Fail? <==> r.Fail?
    ensures r.Fail? ==> r.fault == Rank(energies, sims, percen).fault
    ensures r.Ok? ==> r.value.ranking == Rank(energies, sims, percen).value
    ensures r.Ok? ==> r.value.ledger == ledger + r.value.picked
  {
    var rk :- Rank(energies, sims, percen);
    var picked := Select(CandidateList(mode, rk, epig), ledger, labelCnt);
    Ok(Round(rk, picked, ledger + picked))
  }

  /** In energy + diversity mode a round picks at most `label_cnt` samples,
      none labelled before, none twice, each from the high-energy prefix: no
      sample outside the prefix has more energy than a picked one. It picks
      fewer than `label_cnt` only when the whole prefix is labelled. */
  lemma EnergyRoundPicks(energies: seq<real>, sims: seq<real>, epig: seq<real>, percen: real, labelCnt: int, ledger: seq<nat>)
    requires SelectRound(EnergyDiversity, energies, sims, epig, percen, labelCnt, ledger).Ok?
    ensures var rd := SelectRound(EnergyDiversity, energies, sims, epig, percen, labelCnt, ledger).value;
      var n := PoolSize(energies, sims);
      && (|rd.picked| <= labelCnt || |rd.picked| == 0)
      && Distinct(rd.picked)
      && (forall x :: x in rd.picked ==> x !in ledger && x in rd.ranking.candidates)
      && (forall x, y :: x in rd.picked && 0 <= y < n && y !in rd.ranking.candidates ==>
            x < n && energies[x] >= energies[y])
      && (|rd.picked| < labelCnt ==> forall x :: x in rd.ranking.candidates ==> x in rd.ledger)
  {
    var rd := SelectRound(EnergyDiversity, energies, sims, epig, percen, labelCnt, ledger).value;
    var c := rd.ranking.candidates;
    SelectProperties(c, ledger, labelCnt);
    RankCandidates(energies, sims, percen);
    SubsequenceMembers(rd.picked, c);
    forall x, y | x in rd.picked && 0 <= y < PoolSize(energies, sims) && y !in c
      ensures x < PoolSize(energies, sims) && energies[x] >= energies[y]
    {
      var i :| 0 <= i < |c| && c[i] == x;
    }
  }

  /** In information-gain mode a round picks at most `label_cnt` samples,
      none labelled before, none twice, each a position of the score list,
      in the stable order of non-increasing information gain; it picks fewer
      only when every position ends up labelled. */
  lemma InformationGainPicks(epig: seq<real>, labelCnt: int, ledger: seq<nat>)
    ensures var picked := Select(SortPositions(epig, true, |epig|), ledger, labelCnt);
      && (|picked| <= labelCnt || |picked| == 0)
      && Distinct(picked)
      && (forall x :: x in picked ==> x !in ledger)
      && InRange(epig, picked) && Ordered(epig, true, picked)
      && (|picked| < labelCnt ==> forall x :: 0 <= x < |epig| ==> x in ledger + picked)
  {
    var order := SortPositions(epig, true, |epig|);
    var picked := Select(order, ledger, labelCnt);
    SelectProperties(order, ledger, labelCnt);
    SubsequenceKeepsOrder(epig, true, picked, order);
    forall x | 0 <= x < |epig|
      ensures |picked| < labelCnt ==> x in ledger + picked
    {
      IotaMembers(|epig|, x);
      assert x in multiset(order);
    }
  }
}
