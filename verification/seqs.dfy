/** Sequence helpers with Python's semantics where the crawler relies on them. */
module Seqs {

  /** Python's `xs[:n]` for a non-negative `n`: the first `n` elements, or all of them. */
  function Take<T>(xs: seq<T>, n: nat): (r: seq<T>)
    ensures |r| == if n < |xs| then n else |xs|
    ensures r <= xs
  {
    if n < |xs| then xs[..n] else xs
  }

  /** Normalises one bound of a Python slice: a negative bound counts from the end,
      and the result is clamped to `0..n`. */
  function SliceBound(i: int, n: nat): (b: nat)
    ensures b <= n
    ensures 0 <= i <= n ==> b == i
  {
    if i < 0 then (if i + n < 0 then 0 else i + n)
    else if i > n then n
    else i
  }

  /** Python's `xs[start:stop]` (step 1), which never fails: out-of-range bounds are
      clamped, negative bounds count from the end, and a reversed range is empty. */
  function PySlice<T>(xs: seq<T>, start: int, stop: int): (r: seq<T>)
    ensures |r| <= |xs|
    ensures 0 <= start <= stop <= |xs| ==> r == xs[start..stop]
    ensures 0 <= start && |xs| <= stop ==> r == xs[SliceBound(start, |xs|)..]
  {
    var a := SliceBound(start, |xs|);
    var b := SliceBound(stop, |xs|);
    if a < b then xs[a..b] else []
  }

  /** The positions of `xs` whose element `keep` accepts, in increasing order. */
  function Selected<T>(xs: seq<T>, keep: T -> bool): (idx: seq<nat>)
    ensures forall k :: 0 <= k < |idx| ==> idx[k] < |xs| && keep(xs[idx[k]])
    ensures forall k, l :: 0 <= k < l < |idx| ==> idx[k] < idx[l]
    ensures forall i :: 0 <= i < |xs| && keep(xs[i]) ==> i in idx
  {
    if xs == [] then []
    else
      var init := xs[..|xs| - 1];
      assert forall i :: 0 <= i < |init| ==> init[i] == xs[i];
      Selected(init, keep) + (if keep(xs[|xs| - 1]) then [|xs| - 1] else [])
  }

  /** A slice inside a prefix is the same slice of the whole sequence. */
  lemma PrefixSlice<T>(xs: seq<T>, ys: seq<T>, a: nat, b: nat)
    requires xs <= ys && a <= b <= |xs|
    ensures xs[a..b] == ys[a..b]
  {
    assert forall k :: a <= k < b ==> xs[k] == ys[k];
  }

  /** The sum of a sequence of counters. */
  function Sum(xs: seq<nat>): nat
  {
    if xs == [] then 0 else Sum(xs[..|xs| - 1]) + xs[|xs| - 1]
  }
}
