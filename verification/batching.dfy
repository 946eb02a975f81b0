/** Cutting a list into consecutive batches, as `for i in range(0, len(xs), size):
    xs[i:i + size]` does. */
module Batching {
  import opened Seqs

  /** The batches of `xs` of `size` elements each, the last one possibly shorter. */
  function Slices<T>(xs: seq<T>, size: nat): (r: seq<seq<T>>)
    requires size > 0
    ensures forall k :: 0 <= k < |r| ==> 0 < |r[k]| <= size
    decreases |xs|
  {
    if |xs| == 0 then []
    else if |xs| <= size then [xs]
    else [xs[..size]] + Slices(xs[size..], size)
  }

  /** Nothing is lost or reordered: the batches put back together are the list. */
  lemma {:induction false} SlicesConcat<T>(xs: seq<T>, size: nat)
    requires size > 0
    ensures Concat(Slices(xs, size)) == xs
    decreases |xs|
  {
    if |xs| == 0 {
    } else if |xs| <= size {
      ConcatSingle(xs);
    } else {
      SlicesConcat(xs[size..], size);
      assert Slices(xs, size)[1..] == Slices(xs[size..], size);
      assert xs == xs[..size] + xs[size..];
    }
  }

  /** There are ceil(|xs| / size) batches: the fewest batches of `size` that hold the
      whole list. */
  lemma {:induction false} SlicesCount<T>(xs: seq<T>, size: nat)
    requires size > 0
    ensures |xs| <= |Slices(xs, size)| * size
    ensures (|Slices(xs, size)| - 1) * size < |xs| || |xs| == 0
    ensures |xs| == 0 <==> |Slices(xs, size)| == 0
    decreases |xs|
  {
    if |xs| > size {
      SlicesCount(xs[size..], size);
      var c := |Slices(xs[size..], size)|;
      assert |Slices(xs, size)| == 1 + c;
      assert (1 + c) * size == size + c * size;
      assert (1 + c - 1) * size == c * size;
    }
  }

  /** Batch `k` is `xs[k * size : (k + 1) * size]`, cut short at the end of the list. */
  lemma {:induction false} SliceAt<T>(xs: seq<T>, size: nat, k: nat)
    requires size > 0 && k < |Slices(xs, size)|
    ensures k * size < |xs|
    ensures Slices(xs, size)[k] == xs[k * size..Min(k * size + size, |xs|)]
    decreases |xs|
  {
    if |xs| > size && k > 0 {
      var rest := xs[size..];
      assert Slices(xs, size)[k] == Slices(rest, size)[k - 1];
      SliceAt(rest, size, k - 1);
      var j := (k - 1) * size;
      var hi := Min(j + size, |rest|);
      ShiftedBounds(k, size, |xs|);
      ShiftedSlice(xs, size, j, hi);
    }
  }

  /** The bounds of batch `k` of a list are those of batch `k - 1` of its tail, shifted
      by one batch. */
  lemma ShiftedBounds(k: nat, size: nat, n: nat)
    requires 0 < k && size < n && (k - 1) * size < n - size
    ensures (k - 1) * size + size == k * size
    ensures k * size < n
    ensures size + Min((k - 1) * size + size, n - size) == Min(k * size + size, n)
  {
    assert (k - 1) * size + size == k * size;
  }

  lemma ShiftedSlice<T>(xs: seq<T>, size: nat, j: nat, hi: nat)
    requires size <= |xs| && j <= hi <= |xs| - size
    ensures xs[size..][j..hi] == xs[size + j..size + hi]
  {
  }
}
