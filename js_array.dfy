/**
  `Array.prototype.slice(start, end)` of ECMAScript on integer arguments: a negative
  index counts back from the end, every index is clamped to the array, an absent end
  means the length, and an empty range gives the empty array.
*/
module JsArray {
  import opened Wrappers

  function Min(a: int, b: int): int {
    if a <= b then a else b
  }

  /** The clamped position a `slice` argument denotes in an array of length `len`. */
  function RelativeIndex(k: int, len: nat): (r: nat)
    ensures r <= len
  {
    if k < 0 then (if len + k < 0 then 0 else len + k)
    else if k < len then k
    else len
  }

  function Slice<T>(s: seq<T>, start: int, end: Option<int>): (r: seq<T>)
    ensures |r| <= |s|
  {
    var from := RelativeIndex(start, |s|);
    var to := if end.Some? then RelativeIndex(end.value, |s|) else |s|;
    if from < to then s[from..to] else []
  }

  /** `slice(0, k)` with k > 0 keeps the first k elements, or all of them if fewer. */
  lemma SlicePrefix<T>(s: seq<T>, k: int)
    requires 0 < k
    ensures Slice(s, 0, Some(k)) == s[..Min(k, |s|)]
    ensures |Slice(s, 0, Some(k))| <= k
  {
  }

  /** `slice(-k)` with k > 0 keeps the last k elements, or all of them if fewer. */
  lemma SliceSuffix<T>(s: seq<T>, k: int)
    requires 0 < k
    ensures Slice(s, -k, None) == s[|s| - Min(k, |s|)..]
    ensures |Slice(s, -k, None)| <= k
  {
  }

  /** `slice(0)` (and so `slice(-0)`) copies the whole array. */
  lemma SliceWhole<T>(s: seq<T>)
    ensures Slice(s, 0, None) == s
  {
  }

  /** Every slice is the contiguous run between two clamped positions. */
  lemma SliceIsRange<T>(s: seq<T>, start: int, end: Option<int>)
    ensures exists i, j :: 0 <= i <= j <= |s| && Slice(s, start, end) == s[i..j]
  {
    var from := RelativeIndex(start, |s|);
    var to := if end.Some? then RelativeIndex(end.value, |s|) else |s|;
    if from < to {
      assert Slice(s, start, end) == s[from..to];
    } else {
      assert Slice(s, start, end) == s[from..from];
    }
  }

  /**
    The part `[lo, hi)` of an array of length `len` that `slice(0, first)` (applied only
    when `first` is non-zero) followed by `slice(-last)` keeps.
  */
  function SlicedBounds(len: nat, first: int, last: int): (r: (nat, nat))
    ensures r.0 <= r.1 <= len
    ensures first > 0 ==> r.1 == Min(first, len)
    ensures first == 0 ==> r.1 == len
    ensures last > 0 ==> r.0 == r.1 - Min(last, r.1)
    ensures last == 0 ==> r.0 == 0
  {
    var kept := if first != 0 then RelativeIndex(first, len) else len;
    (RelativeIndex(-last, kept), kept)
  }

  /** The two slices keep the contiguous part `SlicedBounds` of the array. */
  lemma SlicesCompose<T>(x: seq<T>, len: nat, first: int, last: int, y: seq<T>)
    requires len == |x|
    requires y == if first != 0 then Slice(x, 0, Some(first)) else x
    ensures Slice(y, -last, None) == x[SlicedBounds(len, first, last).0..SlicedBounds(len, first, last).1]
  {
  }
}
