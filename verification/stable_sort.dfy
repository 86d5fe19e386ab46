/** Python's `sorted(..., key=k, reverse=d)` applied to a list whose items
    carry a real-valued key. `sorted` is stable in both directions: items with
    equal keys keep their original order. The model therefore sorts POSITIONS
    of the key list by a strict total order, the key in the requested direction
    with the position as tie-break, so that the sorted result is unique. */
module StableSort {

  /** Position `a` comes before position `b` in the stable order. */
  predicate Before(keys: seq<real>, descending: bool, a: nat, b: nat)
    requires a < |keys| && b < |keys|
  {
    if descending then keys[a] > keys[b] || (keys[a] == keys[b] && a < b)
    else keys[a] < keys[b] || (keys[a] == keys[b] && a < b)
  }

  /** Every element of `s` is a position of `keys`. */
  predicate InRange(keys: seq<real>, s: seq<nat>)
  {
    forall i :: 0 <= i < |s| ==> s[i] < |keys|
  }

  /** `s` lists positions of `keys` in the stable order. */
  predicate Ordered(keys: seq<real>, descending: bool, s: seq<nat>)
    requires InRange(keys, s)
  {
    forall i, j :: 0 <= i < j < |s| ==> Before(keys, descending, s[i], s[j])
  }

  /** The positions 0, 1, ..., n-1 in their original order. */
  function Iota(n: nat): (r: seq<nat>)
    ensures |r| == n
    ensures forall i :: 0 <= i < n ==> r[i] == i
  {
    if n == 0 then [] else Iota(n - 1) + [n - 1]
  }

  /** A rearrangement of 0, ..., n-1 holds only positions below `n`. */
  lemma IotaBound(r: seq<nat>, n: nat)
    requires multiset(r) == multiset(Iota(n))
    ensures forall i :: 0 <= i < |r| ==> r[i] < n
  {
    forall i | 0 <= i < |r|
      ensures r[i] < n
    {
      assert r[i] in multiset(Iota(n));
    }
  }

  /** In a list ordered descending, keys never increase along the list. */
  lemma OrderedKeysDescend(keys: seq<real>, s: seq<nat>)
    requires InRange(keys, s) && Ordered(keys, true, s)
    ensures forall i, j :: 0 <= i < j < |s| ==> keys[s[i]] >= keys[s[j]]
  {
    forall i, j | 0 <= i < j < |s|
      ensures keys[s[i]] >= keys[s[j]]
    {
      assert Before(keys, true, s[i], s[j]);
    }
  }

  lemma BeforeTotal(keys: seq<real>, descending: bool, a: nat, b: nat)
    requires a < |keys| && b < |keys| && a != b
    ensures Before(keys, descending, a, b) != Before(keys, descending, b, a)
  {
  }

  /** If the head of an ordered list comes before `x`, it comes before every
      element of any rearrangement of its tail together with `x`. */
  lemma HeadBeforeAll(keys: seq<real>, descending: bool, x: nat, s: seq<nat>, rest: seq<nat>)
    requires x < |keys| && InRange(keys, s) && |s| > 0 && InRange(keys, rest)
    requires Ordered(keys, descending, s)
    requires Before(keys, descending, s[0], x)
    requires multiset(rest) == multiset(s[1..]) + multiset{x}
    ensures forall i :: 0 <= i < |rest| ==> Before(keys, descending, s[0], rest[i])
  {
    forall i | 0 <= i < |rest|
      ensures Before(keys, descending, s[0], rest[i])
    {
      assert rest[i] in multiset(rest);
      if rest[i] != x {
        assert rest[i] in multiset(s[1..]);
        var k :| 0 <= k < |s[1..]| && s[1..][k] == rest[i];
        assert s[k + 1] == rest[i];
      }
    }
  }

  /** Inserts position `x` into the stably ordered list `s`. */
  function Insert(keys: seq<real>, descending: bool, x: nat, s: seq<nat>): (r: seq<nat>)
    requires x < |keys| && InRange(keys, s) && x !in s
    requires Ordered(keys, descending, s)
    ensures multiset(r) == multiset(s) + multiset{x}
    ensures InRange(keys, r) && Ordered(keys, descending, r)
  {
    if |s| == 0 then [x]
    else if Before(keys, descending, x, s[0]) then [x] + s
    else
      var rest := Insert(keys, descending, x, s[1..]);
      BeforeTotal(keys, descending, x, s[0]);
      HeadBeforeAll(keys, descending, x, s, rest);
      assert s == [s[0]] + s[1..];
      [s[0]] + rest
  }

  /** The first `n` positions of `keys`, stably sorted: the position list of
      `sorted(zip(keys[:n], range(n)), key=..., reverse=descending)`. */
  function SortPositions(keys: seq<real>, descending: bool, n: nat): (r: seq<nat>)
    requires n <= |keys|
    ensures multiset(r) == multiset(Iota(n))
    ensures InRange(keys, r) && Ordered(keys, descending, r)
    ensures |r| == n && forall i :: 0 <= i < n ==> r[i] < n
  {
    if n == 0 then []
    else
      var s := SortPositions(keys, descending, n - 1);
      assert n - 1 !in multiset(Iota(n - 1));
      var r := Insert(keys, descending, n - 1, s);
      assert Iota(n) == Iota(n - 1) + [n - 1];
      assert |r| == |multiset(r)| == n;
      IotaBound(r, n);
      r
  }

  /** A stably ordered list contains no position twice. */
  lemma OrderedDistinct(keys: seq<real>, descending: bool, s: seq<nat>)
    requires InRange(keys, s) && Ordered(keys, descending, s)
    ensures forall i, j :: 0 <= i < j < |s| ==> s[i] != s[j]
  {
    forall i, j | 0 <= i < j < |s|
      ensures s[i] != s[j]
    {
      assert Before(keys, descending, s[i], s[j]);
    }
  }

  /** Two stably ordered lists with the same elements start alike: the head
      of each comes before every other element of the other. */
  lemma OrderedSameHead(keys: seq<real>, descending: bool, a: seq<nat>, b: seq<nat>)
    requires InRange(keys, a) && Ordered(keys, descending, a)
    requires InRange(keys, b) && Ordered(keys, descending, b)
    requires multiset(a) == multiset(b) && |a| > 0
    ensures |b| > 0 && a[0] == b[0]
  {
    assert a[0] in multiset(b);
    var k :| 0 <= k < |b| && b[k] == a[0];
    assert b[0] in multiset(a);
    var m :| 0 <= m < |a| && a[m] == b[0];
    // k != 0 and m != 0 would put b[0] before a[0] and a[0] before b[0]
  }

  lemma TailMultiset(a: seq<nat>)
    requires |a| > 0
    ensures multiset(a[1..]) == multiset(a) - multiset{a[0]}
  {
    assert a == [a[0]] + a[1..];
  }

  /** Two stably ordered lists with the same elements are equal: the stable
      sort has exactly one possible result. */
  lemma {:induction false} OrderedUnique(keys: seq<real>, descending: bool, a: seq<nat>, b: seq<nat>)
    requires InRange(keys, a) && Ordered(keys, descending, a)
    requires InRange(keys, b) && Ordered(keys, descending, b)
    requires multiset(a) == multiset(b)
    ensures a == b
    decreases |a|
  {
    if |a| == 0 {
      assert |b| == |multiset(b)| == 0;
    } else {
      OrderedSameHead(keys, descending, a, b);
      TailMultiset(a);
      TailMultiset(b);
      OrderedUnique(keys, descending, a[1..], b[1..]);
      assert a == [a[0]] + a[1..] && b == [b[0]] + b[1..];
    }
  }

  /** The reference characterisation of the stable sort: any permutation of
      the first `n` positions that respects the stable order IS the result of
      `SortPositions`. */
  lemma SortPositionsCharacterised(keys: seq<real>, descending: bool, n: nat, t: seq<nat>)
    requires n <= |keys|
    requires InRange(keys, t) && Ordered(keys, descending, t)
    requires multiset(t) == multiset(Iota(n))
    ensures t == SortPositions(keys, descending, n)
  {
    OrderedUnique(keys, descending, t, SortPositions(keys, descending, n));
  }
}
