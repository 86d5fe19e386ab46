/** The few pieces of Python semantics the model relies on: `int()` on a
    number, negative sequence indexing and slicing with a possibly negative
    bound. */
module Python {
  import opened Results

  /** `int(x)`: rounds toward zero. */
  function Trunc(x: real): (r: int)
    ensures 0.0 <= x ==> 0 <= r && r as real <= x < r as real + 1.0
    ensures x < 0.0 ==> r <= 0 && r as real - 1.0 < x <= r as real
  {
    if 0.0 <= x then x.Floor else -((-x).Floor)
  }

  /** The position `s[k]` reads for a sequence of length `n`, or None when
      Python raises IndexError. */
  function Index(n: nat, k: int): (r: Option<nat>)
    ensures r.Some? <==> -(n as int) <= k < n
    ensures r.Some? ==> r.value < n && (r.value as int - k) % n == 0
  {
    if 0 <= k < n then Some(k)
    else if -(n as int) <= k < 0 then Some(n + k)
    else None
  }

  /** The position a slice bound `k` resolves to in a sequence of length `n`. */
  function Bound(n: nat, k: int): (r: nat)
    ensures r <= n
    ensures 0 <= k ==> r == if k < n then k else n
    ensures k < 0 ==> r + (if -k < n then -k else n) == n
  {
    if 0 <= k then (if k < n then k else n)
    else if n + k < 0 then 0 else n + k
  }

  /** `s[:k]`: the first `k` items, or all but the last `-k` when `k` is
      negative, clipped to the sequence. */
  function Take<T>(s: seq<T>, k: int): seq<T>
  {
    s[..Bound(|s|, k)]
  }

  /** `s[k:]`: everything from item `k` on, or the last `-k` items when `k`
      is negative, clipped to the sequence. */
  function Drop<T>(s: seq<T>, k: int): seq<T>
  {
    s[Bound(|s|, k)..]
  }

  /** What Python's slices give: `s[:k]` is a prefix and `s[k:]` a suffix of
      `s`, with the lengths Python's clipping of `k` produces. */
  lemma SliceBounds<T>(s: seq<T>, k: int)
    ensures 0 <= k ==> |Take(s, k)| == (if k < |s| then k else |s|)
    ensures k < 0 ==> |Take(s, k)| == (if -k < |s| then |s| + k else 0)
    ensures 0 <= k ==> |Drop(s, k)| == (if k < |s| then |s| - k else 0)
    ensures k < 0 ==> |Drop(s, k)| == (if -k < |s| then -k else |s|)
    ensures Take(s, k) == s[..|Take(s, k)|]
    ensures Drop(s, k) == s[|s| - |Drop(s, k)|..]
  {
  }

  /** A slice bound within the sequence takes exactly that many items. */
  lemma TakeLength<T>(s: seq<T>, k: int)
    requires 0 <= k <= |s|
    ensures |Take(s, k)| == k
  {
  }

  /** `s[:k] + s[k:] == s` for every bound, negative ones included. */
  lemma TakeDrop<T>(s: seq<T>, k: int)
    ensures Take(s, k) + Drop(s, k) == s
  {
    assert s[..Bound(|s|, k)] + s[Bound(|s|, k)..] == s;
  }
}
