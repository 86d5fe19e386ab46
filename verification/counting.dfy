/** Counting pool samples by how their energy compares with a threshold. The
    threshold semantics of the selection policy ("the energy at a percentile")
    are stated with these counts. */
module Counting {

  /** How an energy is compared with the threshold. */
  datatype Cmp = Below | AtMost | Above | AtLeast

  predicate Holds(c: Cmp, x: real, t: real)
  {
    match c
    case Below => x < t
    case AtMost => x <= t
    case Above => x > t
    case AtLeast => x >= t
  }

  /** The number of positions in `ps` whose energy compares as `c` with `t`
      (positions outside `e` are not counted). */
  function Count(e: seq<real>, ps: seq<nat>, c: Cmp, t: real): nat
  {
    if |ps| == 0 then 0
    else (if ps[0] < |e| && Holds(c, e[ps[0]], t) then 1 else 0) + Count(e, ps[1..], c, t)
  }

  lemma {:induction false} CountConcat(e: seq<real>, u: seq<nat>, v: seq<nat>, c: Cmp, t: real)
    ensures Count(e, u + v, c, t) == Count(e, u, c, t) + Count(e, v, c, t)
    decreases |u|
  {
    if |u| > 0 {
      assert (u + v)[1..] == u[1..] + v;
      CountConcat(e, u[1..], v, c, t);
    } else {
      assert u + v == v;
    }
  }

  lemma RemoveAtMultiset(b: seq<nat>, k: nat)
    requires k < |b|
    ensures multiset(b[..k] + b[k + 1..]) == multiset(b) - multiset{b[k]}
  {
    assert b == b[..k] + [b[k]] + b[k + 1..];
  }

  lemma CountRemoveAt(e: seq<real>, b: seq<nat>, k: nat, c: Cmp, t: real)
    requires k < |b|
    ensures Count(e, b, c, t) == Count(e, b[..k] + b[k + 1..], c, t) + Count(e, [b[k]], c, t)
  {
    assert b == b[..k] + [b[k]] + b[k + 1..];
    CountConcat(e, b[..k], b[k + 1..], c, t);
    CountConcat(e, b[..k] + [b[k]], b[k + 1..], c, t);
    CountConcat(e, b[..k], [b[k]], c, t);
  }

  /** Removing the head of `a`, wherever it sits in a rearrangement `b`,
      leaves rearrangements of each other. */
  lemma RemoveMatching(a: seq<nat>, b: seq<nat>, k: nat)
    requires multiset(a) == multiset(b) && |a| > 0 && k < |b| && b[k] == a[0]
    ensures multiset(a[1..]) == multiset(b[..k] + b[k + 1..])
  {
    RemoveAtMultiset(b, k);
    assert a == [a[0]] + a[1..];
    assert multiset(a[1..]) == multiset(a) - multiset{a[0]};
  }

  /** A count does not depend on the order in which the positions are listed. */
  lemma {:induction false} CountPermutation(e: seq<real>, a: seq<nat>, b: seq<nat>, c: Cmp, t: real)
    requires multiset(a) == multiset(b)
    ensures Count(e, a, c, t) == Count(e, b, c, t)
    decreases |a|
  {
    if |a| == 0 {
      assert |b| == |multiset(b)| == 0;
    } else {
      assert a[0] in multiset(b);
      var k :| 0 <= k < |b| && b[k] == a[0];
      RemoveMatching(a, b, k);
      CountPermutation(e, a[1..], b[..k] + b[k + 1..], c, t);
      CountRemoveAt(e, b, k, c, t);
    }
  }

  /** Every position either lies strictly below the threshold or at or above
      it, and either at or below it or strictly above it. */
  lemma {:induction false} CountComplement(e: seq<real>, ps: seq<nat>, t: real)
    requires forall i :: 0 <= i < |ps| ==> ps[i] < |e|
    ensures Count(e, ps, Below, t) + Count(e, ps, AtLeast, t) == |ps|
    ensures Count(e, ps, AtMost, t) + Count(e, ps, Above, t) == |ps|
  {
    if |ps| > 0 {
      CountComplement(e, ps[1..], t);
    }
  }

  /** No position counts when every listed energy is at most `t`. */
  lemma {:induction false} CountAboveNone(e: seq<real>, ps: seq<nat>, t: real)
    requires forall i :: 0 <= i < |ps| ==> ps[i] < |e| && e[ps[i]] <= t
    ensures Count(e, ps, Above, t) == 0
  {
    if |ps| > 0 {
      CountAboveNone(e, ps[1..], t);
    }
  }

  /** In a list of positions ordered by non-increasing energy, the energy at
      rank `j` has at most `j` energies strictly above it and at least `j + 1`
      energies at or above it. */
  lemma {:induction false} CountAtRank(e: seq<real>, ps: seq<nat>, j: nat)
    requires forall i :: 0 <= i < |ps| ==> ps[i] < |e|
    requires forall i, k :: 0 <= i < k < |ps| ==> e[ps[i]] >= e[ps[k]]
    requires j < |ps|
    ensures Count(e, ps, Above, e[ps[j]]) <= j
    ensures Count(e, ps, AtLeast, e[ps[j]]) >= j + 1
  {
    if j == 0 {
      CountAboveNone(e, ps, e[ps[0]]);
    } else {
      CountAtRank(e, ps[1..], j - 1);
      assert ps[1..][j - 1] == ps[j];
    }
  }
}
