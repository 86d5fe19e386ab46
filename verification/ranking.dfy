/** The energy/similarity ranking of `obtain_label` (matrix.py:192-214): pool
    samples are stably sorted by descending energy, the top `int(0.07*l)` are
    stably re-sorted by ascending neighbour similarity to form the candidate
    list, and two energy thresholds are read off the energy-sorted list. */
module Ranking {
  import opened Results
  import Python
  import opened StableSort
  import opened Counting

  /** What lines 193-214 produce. */
  datatype Ranking = Ranking(
    order: seq<nat>,          // pool positions, stably sorted by descending energy
    sortedEnergy: seq<real>,  // the energies in that order (sorted_eng_list)
    candidates: seq<nat>,     // ori_sorted_idx_list
    threA: real,              // confident-pseudo-label threshold
    threW: real)              // likely-unknown threshold

  /** `zip(eng_list, idx_list, sim_list)` stops at the shorter list. */
  function PoolSize(energies: seq<real>, sims: seq<real>): (n: nat)
    ensures n <= |energies| && n <= |sims|
    ensures n == |energies| || n == |sims|
  {
    if |energies| <= |sims| then |energies| else |sims|
  }

  /** `int(0.07 * l)`, with the product taken exactly. */
  function PrefixLength(l: nat): (k: nat)
    ensures k <= l
    ensures 100 * k <= 7 * l < 100 * (k + 1)
  {
    (7 * l) / 100
  }

  /** `int(l * percen)`, with the product taken exactly. */
  function PercenCount(l: nat, percen: real): int
  {
    Python.Trunc(l as real * percen)
  }

  /** For a fraction `percen` in [0, 1], `int(l*percen)` counts at most the
      whole pool; a negative fraction gives a count no larger than zero. */
  lemma PercenCountRange(l: nat, percen: real)
    ensures 0.0 <= percen <= 1.0 ==> 0 <= PercenCount(l, percen) <= l
    ensures percen < 0.0 ==> PercenCount(l, percen) <= 0
  {
    if 0.0 <= percen <= 1.0 {
      assert (l as real) * (1.0 - percen) >= 0.0;
    }
  }

  /** `thre_a = sorted_eng_list[-int(l*percen)]` and
      `thre_w = sorted_eng_list[int(l*0.2)]` (lines 213-214). */
  function Thresholds(sortedEnergy: seq<real>, percen: real): (r: Result<(real, real)>)
    requires |sortedEnergy| > 0
    ensures var l := |sortedEnergy|; var p := PercenCount(l, percen);
      && (r.Ok? <==> -(l as int) < p <= l)
      && (r.Fail? ==> r.fault == ThresholdOutOfRange)
      && (r.Ok? && 0 < p ==> r.value.0 == sortedEnergy[l - p])
      && (r.Ok? && p <= 0 ==> r.value.0 == sortedEnergy[-p])
      && (r.Ok? ==> r.value.1 == sortedEnergy[l / 5])
  {
    var l := |sortedEnergy|;
    match Python.Index(l, -PercenCount(l, percen))
    case None => Fail(ThresholdOutOfRange)
    case Some(a) => Ok((sortedEnergy[a], sortedEnergy[l / 5]))
  }

  /** The values at the listed positions, in list order. */
  function Gather(values: seq<real>, ps: seq<nat>): (r: seq<real>)
    requires InRange(values, ps)
    ensures |r| == |ps|
    ensures forall i :: 0 <= i < |ps| ==> r[i] == values[ps[i]]
  {
    seq(|ps|, i requires 0 <= i < |ps| => values[ps[i]])
  }

  /** Lines 204-210: the first `k` positions of the energy order, stably
      re-sorted by ascending similarity. */
  function Candidates(order: seq<nat>, sims: seq<real>, k: nat): (c: seq<nat>)
    requires k <= |order| && InRange(sims, order)
    ensures |c| == k
    ensures forall i :: 0 <= i < k ==> c[i] in order[..k]
  {
    var q := SortPositions(Gather(sims, order[..k]), false, k);
    seq(k, i requires 0 <= i < k => order[q[i]])
  }

  /** Lines 193-214. Fails where the Python raises: an empty pool cannot be
      unpacked at line 200, an empty 7% prefix cannot be unpacked at line 210,
      and the `thre_a` index may fall outside the list at line 213. */
  function Rank(energies: seq<real>, sims: seq<real>, percen: real): (r: Result<Ranking>)
    ensures var n := PoolSize(energies, sims);
      && (n == 0 <==> r == Fail(EmptyPool))
      && (n > 0 && PrefixLength(n) == 0 <==> r == Fail(EmptyCandidates))
      && (n > 0 && PrefixLength(n) > 0 ==>
            (r.Ok? <==> -(n as int) < PercenCount(n, percen) <= n))
    ensures PoolSize(energies, sims) > 0 && PrefixLength(PoolSize(energies, sims)) > 0 && r.Fail? ==>
      r == Fail(ThresholdOutOfRange)
    ensures r.Ok? ==>
      && r.value.order == SortPositions(energies, true, PoolSize(energies, sims))
      && r.value.sortedEnergy == Gather(energies, r.value.order)
      && r.value.candidates == Candidates(r.value.order, sims, PrefixLength(PoolSize(energies, sims)))
  {
    var n := PoolSize(energies, sims);
    if n == 0 then Fail(EmptyPool)
    else
      var order := SortPositions(energies, true, n);
      var k := PrefixLength(n);
      if k == 0 then Fail(EmptyCandidates)
      else
        var sortedEnergy := Gather(energies, order);
        var (threA, threW) :- Thresholds(sortedEnergy, percen);
        Ok(Ranking(order, sortedEnergy, Candidates(order, sims, k), threA, threW))
  }

  /** The number of pool samples whose energy compares as `c` with `t`. */
  function CountPool(energies: seq<real>, n: nat, c: Cmp, t: real): nat
  {
    Count(energies, Iota(n), c, t)
  }

  lemma IotaMembers(n: nat, y: nat)
    requires y < n
    ensures y in multiset(Iota(n))
  {
    assert Iota(n)[y] == y;
  }

  /** The energy order is the stable descending sort of the pool, and the
      sorted energy list is the pool's energies in that order. */
  lemma RankOrder(energies: seq<real>, sims: seq<real>, percen: real)
    requires Rank(energies, sims, percen).Ok?
    ensures var rk := Rank(energies, sims, percen).value; var n := PoolSize(energies, sims);
      && rk.order == SortPositions(energies, true, n)
      && multiset(rk.order) == multiset(Iota(n))
      && (forall i, j :: 0 <= i < j < n ==> rk.sortedEnergy[i] >= rk.sortedEnergy[j])
      && (forall i :: 0 <= i < n ==> rk.sortedEnergy[i] == energies[rk.order[i]])
  {
    var rk := Rank(energies, sims, percen).value;
    var order := SortPositions(energies, true, PoolSize(energies, sims));
    assert rk.order == order && rk.sortedEnergy == Gather(energies, order);
    OrderedKeysDescend(energies, order);
  }

  /** The candidate list is the first `k` positions of the order, each
      once, in some rearrangement. */
  lemma CandidatesPermutePrefix(order: seq<nat>, sims: seq<real>, k: nat)
    requires k <= |order| && InRange(sims, order)
    requires forall i, j :: 0 <= i < j < |order| ==> order[i] != order[j]
    ensures var c := Candidates(order, sims, k);
      && |c| == k
      && (forall x :: x in c <==> x in order[..k])
      && (forall i, j :: 0 <= i < j < k ==> c[i] != c[j])
  {
    var q := SortPositions(Gather(sims, order[..k]), false, k);
    var c := Candidates(order, sims, k);
    assert forall i :: 0 <= i < k ==> c[i] == order[q[i]];
    OrderedDistinct(Gather(sims, order[..k]), false, q);
    forall x | x in order[..k]
      ensures x in c
    {
      var j :| 0 <= j < k && order[j] == x;
      IotaMembers(k, j);
      var i :| 0 <= i < k && q[i] == j;
      assert c[i] == x;
    }
  }

  /** The candidate list runs from the least to the most similar sample. */
  lemma CandidatesAscending(order: seq<nat>, sims: seq<real>, k: nat)
    requires k <= |order| && InRange(sims, order)
    ensures var c := Candidates(order, sims, k);
      forall i, j :: 0 <= i < j < k ==> sims[c[i]] <= sims[c[j]]
  {
    var prefixSims := Gather(sims, order[..k]);
    var q := SortPositions(prefixSims, false, k);
    var c := Candidates(order, sims, k);
    forall i, j | 0 <= i < j < k
      ensures sims[c[i]] <= sims[c[j]]
    {
      assert Before(prefixSims, false, q[i], q[j]);
    }
  }

  /** A sample outside the first `k` of the descending energy order has no
      more energy than the sample at any rank `i < k`. */
  lemma PrefixDominates(energies: seq<real>, n: nat, k: nat, i: nat, y: nat)
    requires n <= |energies| && i < k <= n && y < n
    ensures var order := SortPositions(energies, true, n);
      y !in order[..k] ==> energies[order[i]] >= energies[y]
  {
    var order := SortPositions(energies, true, n);
    if y in order[..k] {
      return;
    }
    IotaMembers(n, y);
    assert y in multiset(order);
    var m :| 0 <= m < n && order[m] == y;
    assert Before(energies, true, order[i], order[m]);
  }

  /** The candidate list (ori_sorted_idx_list): it holds exactly the first
      `int(0.07*l)` samples of the energy order, each once, sorted by
      ascending similarity; and no sample left out has a higher energy than
      any candidate. */
  lemma RankCandidates(energies: seq<real>, sims: seq<real>, percen: real)
    requires Rank(energies, sims, percen).Ok?
    ensures var rk := Rank(energies, sims, percen).value;
      var n := PoolSize(energies, sims); var k := PrefixLength(n); var c := rk.candidates;
      && |c| == k
      && (forall x :: x in c <==> x in rk.order[..k])
      && (forall i, j :: 0 <= i < j < k ==> c[i] != c[j])
      && (forall i, j :: 0 <= i < j < k ==> sims[c[i]] <= sims[c[j]])
      && (forall i, y :: 0 <= i < k && 0 <= y < n && y !in c ==> energies[c[i]] >= energies[y])
  {
    var rk := Rank(energies, sims, percen).value;
    var n := PoolSize(energies, sims);
    var k := PrefixLength(n);
    OrderedDistinct(energies, true, rk.order);
    CandidatesPermutePrefix(rk.order, sims, k);
    CandidatesAscending(rk.order, sims, k);
    var c := rk.candidates;
    forall i, y | 0 <= i < k && 0 <= y < n && y !in c
      ensures energies[c[i]] >= energies[y]
    {
      assert c[i] in c;
      var j :| 0 <= j < k && rk.order[j] == c[i];
      PrefixDominates(energies, n, k, j, y);
    }
  }

  /** In the descending energy order, the energy at rank `j` has at most `j`
      pool energies strictly above it, at least `j + 1` at or above it, fewer
      than `n - j` strictly below it and at least `n - j` at or below it. */
  lemma RankCounts(energies: seq<real>, n: nat, j: nat)
    requires n <= |energies| && j < n
    ensures var order := SortPositions(energies, true, n); var t := energies[order[j]];
      && CountPool(energies, n, Above, t) <= j < CountPool(energies, n, AtLeast, t)
      && CountPool(energies, n, Below, t) < n - j <= CountPool(energies, n, AtMost, t)
  {
    var order := SortPositions(energies, true, n);
    var t := energies[order[j]];
    forall i, k | 0 <= i < k < n
      ensures energies[order[i]] >= energies[order[k]]
    {
      assert Before(energies, true, order[i], order[k]);
    }
    CountAtRank(energies, order, j);
    CountComplement(energies, order, t);
    CountPermutation(energies, Iota(n), order, Above, t);
    CountPermutation(energies, Iota(n), order, AtLeast, t);
    CountPermutation(energies, Iota(n), order, Below, t);
    CountPermutation(energies, Iota(n), order, AtMost, t);
  }

  /** The thresholds of a successful ranking are read from the energy order
      at ranks `l - int(l*percen)` (or 0) and `int(l*0.2)`. */
  lemma ThresholdRanks(energies: seq<real>, sims: seq<real>, percen: real)
    requires Rank(energies, sims, percen).Ok?
    ensures var rk := Rank(energies, sims, percen).value;
      var n := PoolSize(energies, sims); var p := PercenCount(n, percen);
      && -(n as int) < p <= n
      && rk.threA == energies[rk.order[if 0 < p then n - p else -p]]
      && rk.threW == energies[rk.order[n / 5]]
  {
    var rk := Rank(energies, sims, percen).value;
    assert (rk.threA, rk.threW) == Thresholds(rk.sortedEnergy, percen).value;
  }

  /** Reading the descending energy order at Python index `-p` gives the
      `p`-th smallest energy when `p > 0` (fewer than `p` energies lie
      strictly below it, at least `p` at or below it), and the energy at rank
      `-p` from the top otherwise. */
  lemma NegativeIndexCounts(energies: seq<real>, n: nat, p: int)
    requires n <= |energies| && -(n as int) < p <= n
    ensures var order := SortPositions(energies, true, n);
      var t := energies[order[if 0 < p then n - p else -p]];
      && (0 < p ==> CountPool(energies, n, Below, t) < p <= CountPool(energies, n, AtMost, t))
      && (p <= 0 ==> CountPool(energies, n, Above, t) <= -p < CountPool(energies, n, AtLeast, t))
  {
    if 0 < p {
      RankCounts(energies, n, n - p);
    } else {
      RankCounts(energies, n, -p);
    }
  }

  /** `thre_a` is the energy at the `(1 - percen)` percentile: fewer than
      `int(l*percen)` pool energies lie strictly below it and at least that
      many lie at or below it. A count `p <= 0` indexes from the front instead,
      so at most `-p` energies lie strictly above it (none when `p == 0`).
      `thre_w` is the energy at rank `int(l*0.2)` from the top: at most that
      many energies lie strictly above it and more lie at or above it. */
  lemma ThresholdPercentiles(energies: seq<real>, sims: seq<real>, percen: real)
    requires Rank(energies, sims, percen).Ok?
    ensures var rk := Rank(energies, sims, percen).value;
      var n := PoolSize(energies, sims); var p := PercenCount(n, percen);
      && (0 < p ==> CountPool(energies, n, Below, rk.threA) < p <= CountPool(energies, n, AtMost, rk.threA))
      && (p <= 0 ==> CountPool(energies, n, Above, rk.threA) <= -p < CountPool(energies, n, AtLeast, rk.threA))
      && CountPool(energies, n, Above, rk.threW) <= n / 5 < CountPool(energies, n, AtLeast, rk.threW)
  {
    var rk := Rank(energies, sims, percen).value;
    var n := PoolSize(energies, sims);
    var p := PercenCount(n, percen);
    var order := SortPositions(energies, true, n);
    ThresholdRanks(energies, sims, percen);
    assert rk.order == order;
    assert rk.threA == energies[order[if 0 < p then n - p else -p]];
    assert rk.threW == energies[order[n / 5]];
    NegativeIndexCounts(energies, n, p);
    RankCounts(energies, n, n / 5);
  }

  /** Ten energies 5, 4, ..., -4 with percen 0.5: `thre_a` is 0 and `thre_w`
      is 3. */
  lemma ThresholdsExample()
    ensures Thresholds([5.0, 4.0, 3.0, 2.0, 1.0, 0.0, -1.0, -2.0, -3.0, -4.0], 0.5) == Ok((0.0, 3.0))
  {
  }

  /** The same ten-sample pool never reaches the thresholds: `int(0.07*10)` is
      0, so the similarity re-sort at line 210 has nothing to unpack. */
  lemma SmallPoolHasNoCandidates(energies: seq<real>, sims: seq<real>, percen: real)
    requires 0 < PoolSize(energies, sims) < 15
    ensures Rank(energies, sims, percen) == Fail(EmptyCandidates)
  {
  }
}
