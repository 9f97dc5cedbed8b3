/**
 The minibatch loop of the PPO update (iem_ppo.py lines 358-364): the batch
 indices are shuffled into some permutation `b_inds`, and the slices
 `b_inds[start:start + minibatch_size]` for `start` in
 `range(0, batch_size, minibatch_size)` are the minibatches of one epoch.
 */
module Minibatches {
  import opened Results
  import opened Numbers

  /** `np.arange(n)`. */
  function Range(n: nat): seq<int> {
    seq(n, k requires 0 <= k < n => k)
  }

  /** What `np.random.shuffle(np.arange(n))` may produce: some reordering of `0 .. n - 1`. */
  predicate IsPermutation(p: seq<int>, n: nat) {
    multiset(p) == multiset(Range(n))
  }

  predicate Distinct(s: seq<int>) {
    forall i, j :: 0 <= i < j < |s| ==> s[i] != s[j]
  }

  /** `range` with a zero step raises `ValueError`. */
  datatype RangeError = ZeroStep

  /** Concatenation of the minibatches, in order. */
  function Flatten(ss: seq<seq<int>>): seq<int>
    decreases |ss|
  {
    if |ss| == 0 then [] else ss[0] + Flatten(ss[1..])
  }

  /** The slices from `start` on; a Python slice past the end is cut short. */
  function SlicesFrom(inds: seq<int>, start: nat, size: nat): seq<seq<int>>
    requires size > 0
    decreases |inds| - start
  {
    if start >= |inds| then []
    else [inds[start..Min(start + size, |inds|)]] + SlicesFrom(inds, start + size, size)
  }

  /**
   The minibatches of one epoch over the shuffled indices `inds`
   (`batch_size == |inds|`). A negative step gives an empty range.
   */
  function EpochMinibatches(inds: seq<int>, minibatchSize: int): (r: Result<seq<seq<int>>, RangeError>)
    ensures r.Err? <==> minibatchSize == 0
    ensures minibatchSize < 0 ==> r == Ok([])
    ensures minibatchSize > 0 ==> r.Ok? && Flatten(r.value) == inds
  {
    if minibatchSize == 0 then Err(ZeroStep)
    else if minibatchSize < 0 then Ok([])
    else
      SlicesPartition(inds, 0, minibatchSize);
      Ok(SlicesFrom(inds, 0, minibatchSize))
  }

  /** Concatenating the slices from `start` gives back `inds[start..]`. */
  lemma {:induction false} SlicesPartition(inds: seq<int>, start: nat, size: nat)
    requires size > 0 && start <= |inds|
    ensures Flatten(SlicesFrom(inds, start, size)) == inds[start..]
    decreases |inds| - start
  {
    if start < |inds| {
      var ss := SlicesFrom(inds, start, size);
      assert ss[1..] == SlicesFrom(inds, start + size, size);
      if start + size < |inds| {
        SlicesPartition(inds, start + size, size);
        assert inds[start..] == inds[start..start + size] + inds[start + size..];
      } else {
        assert SlicesFrom(inds, start + size, size) == [];
      }
    }
  }

  /**
   Every slice but the last has exactly `size` indices, the last has between
   1 and `size`, and there are `c` slices with `(c - 1) * size < rest <= c * size`
   for `rest = |inds| - start`, that is `c` is the ceiling of `rest / size`.
   */
  lemma {:induction false} SliceSizes(inds: seq<int>, start: nat, size: nat)
    requires size > 0 && start <= |inds|
    ensures var ss := SlicesFrom(inds, start, size);
      && (forall k :: 0 <= k < |ss| - 1 ==> |ss[k]| == size)
      && (|ss| > 0 ==> 0 < |ss[|ss| - 1]| <= size)
      && (|ss| - 1) * size < |inds| - start <= |ss| * size
      && (|ss| == 0 <==> start == |inds|)
    decreases |inds| - start
  {
    var ss := SlicesFrom(inds, start, size);
    if start < |inds| {
      if start + size < |inds| {
        SliceSizes(inds, start + size, size);
        var rest := SlicesFrom(inds, start + size, size);
        assert ss == [ss[0]] + rest;
        assert |ss| * size == size + |rest| * size;
        assert (|ss| - 1) * size == size + (|rest| - 1) * size;
      } else {
        assert SlicesFrom(inds, start + size, size) == [];
      }
    }
  }

  /** No index of a permutation of `0 .. n - 1` occurs twice. */
  lemma {:induction false} RangeOnce(n: nat, x: int)
    ensures multiset(Range(n))[x] == if 0 <= x < n then 1 else 0
  {
    if n > 0 {
      RangeOnce(n - 1, x);
      assert Range(n) == Range(n - 1) + [n - 1];
    }
  }

  lemma PermutationDistinct(p: seq<int>, n: nat)
    requires IsPermutation(p, n)
    ensures Distinct(p)
  {
    forall i, j | 0 <= i < j < |p|
      ensures p[i] != p[j]
    {
      if p[i] == p[j] {
        assert p == p[..j] + p[j..];
        assert multiset(p) == multiset(p[..j]) + multiset(p[j..]);
        assert p[i] in p[..j];
        assert p[j] in p[j..];
        RangeOnce(n, p[i]);
        assert false;
      }
    }
  }

  /** Blocks of a duplicate-free concatenation share no element. */
  lemma {:induction false} FlattenDisjoint(ss: seq<seq<int>>)
    requires Distinct(Flatten(ss))
    ensures forall k1, k2, x :: 0 <= k1 < k2 < |ss| && x in ss[k1] ==> x !in ss[k2]
    decreases |ss|
  {
    if |ss| > 0 {
      var f := Flatten(ss);
      var tail := Flatten(ss[1..]);
      assert f == ss[0] + tail;
      DistinctAppend(ss[0], tail);
      FlattenDisjoint(ss[1..]);
      forall k2, x | 0 < k2 < |ss| && x in ss[0]
        ensures x !in ss[k2]
      {
        if x in ss[k2] {
          FlattenContains(ss[1..], k2 - 1, x);
          assert false;
        }
      }
      forall k1, k2, x | 0 < k1 < k2 < |ss| && x in ss[k1]
        ensures x !in ss[k2]
      {
        assert ss[k1] == ss[1..][k1 - 1] && ss[k2] == ss[1..][k2 - 1];
      }
    }
  }

  lemma DistinctAppend(a: seq<int>, c: seq<int>)
    requires Distinct(a + c)
    ensures Distinct(c)
    ensures forall x :: x in a ==> x !in c
  {
    var f := a + c;
    forall i, j | 0 <= i < j < |c|
      ensures c[i] != c[j]
    {
      assert c[i] == f[|a| + i] && c[j] == f[|a| + j];
    }
    forall x | x in a
      ensures x !in c
    {
      var i :| 0 <= i < |a| && a[i] == x;
      forall j | 0 <= j < |c|
        ensures c[j] != x
      {
        assert f[i] == a[i] && f[|a| + j] == c[j];
      }
    }
  }

  lemma {:induction false} FlattenContains(ss: seq<seq<int>>, k: nat, x: int)
    requires k < |ss| && x in ss[k]
    ensures x in Flatten(ss)
    decreases |ss|
  {
    if k > 0 {
      FlattenContains(ss[1..], k - 1, x);
    }
  }

  /**
   For a permutation `inds` of `0 .. n - 1` and a positive minibatch size the
   minibatches of an epoch are pairwise disjoint and together contain every
   index exactly once.
   */
  lemma EpochCoversEveryIndex(inds: seq<int>, n: nat, minibatchSize: int)
    requires IsPermutation(inds, n) && minibatchSize > 0
    ensures var ss := EpochMinibatches(inds, minibatchSize).value;
      && (forall x :: multiset(Flatten(ss))[x] == if 0 <= x < n then 1 else 0)
      && (forall k1, k2, x :: 0 <= k1 < k2 < |ss| && x in ss[k1] ==> x !in ss[k2])
  {
    var ss := EpochMinibatches(inds, minibatchSize).value;
    forall x
      ensures multiset(Flatten(ss))[x] == if 0 <= x < n then 1 else 0
    {
      RangeOnce(n, x);
    }
    PermutationDistinct(inds, n);
    FlattenDisjoint(ss);
  }

  /** Slice `k` is `inds[start + k * size : start + (k + 1) * size]`, cut short at the end. */
  lemma {:induction false} SliceAt(inds: seq<int>, start: nat, size: nat, k: nat)
    requires size > 0 && start <= |inds| && k < |SlicesFrom(inds, start, size)|
    ensures start + k * size < |inds|
    ensures SlicesFrom(inds, start, size)[k]
         == inds[start + k * size..Min(start + (k + 1) * size, |inds|)]
    decreases |inds| - start
  {
    if k > 0 {
      var rest := SlicesFrom(inds, start + size, size);
      assert SlicesFrom(inds, start, size)[k] == rest[k - 1];
      if start + size > |inds| {
        assert false;
      }
      SliceAt(inds, start + size, size, k - 1);
      ShiftBlock(start, size, k);
    }
  }

  lemma ShiftBlock(start: nat, size: nat, k: nat)
    requires k > 0
    ensures start + size + (k - 1) * size == start + k * size
    ensures start + size + k * size == start + (k + 1) * size
  {
  }

  /**
   When `num_minibatches` divides `batch_size` (and `batch_size >= num_minibatches`)
   the epoch has exactly `num_minibatches` slices, all of size
   `batch_size / num_minibatches`.
   */
  lemma ExactMinibatchCount(inds: seq<int>, numMinibatches: nat)
    requires numMinibatches > 0 && |inds| >= numMinibatches
    requires |inds| % numMinibatches == 0
    ensures var ss := EpochMinibatches(inds, |inds| / numMinibatches).value;
      && |ss| == numMinibatches
      && forall k :: 0 <= k < |ss| ==> |ss[k]| == |inds| / numMinibatches
  {
    var q := |inds| / numMinibatches;
    assert |inds| == numMinibatches * q;
    ExactCount(inds, numMinibatches, q);
  }

  lemma ExactCount(inds: seq<int>, m: nat, q: nat)
    requires q > 0 && |inds| == m * q
    ensures var ss := SlicesFrom(inds, 0, q);
      && |ss| == m
      && forall k :: 0 <= k < |ss| ==> |ss[k]| == q
  {
    SliceSizes(inds, 0, q);
    var ss := SlicesFrom(inds, 0, q);
    var c := |ss|;
    CancelFactor(c - 1, m, q);
    CancelFactor(m - 1, c, q);
    forall k | 0 <= k < c
      ensures |ss[k]| == q
    {
      SliceAt(inds, 0, q, k);
      MulMono(k + 1, m, q);
      assert (k + 1) * q == k * q + q;
    }
  }

  lemma MulMono(a: int, b: int, q: nat)
    requires a <= b
    ensures a * q <= b * q
  {
  }

  lemma CancelFactor(a: int, b: int, q: int)
    requires q > 0 && a * q < b * q
    ensures a < b
  {
  }
}
