/**
 `StateBuffer.get_all_pairs`: every ordered pair (i, j) with i <= j of the
 retained entries, in row-major order, with the timestamp gap of each pair.
 The three tensors the source stacks are modelled as three parallel columns.
 */
module PairGeneration {
  import opened Results
  import opened StateBuffers

  /** One element of the pair list the nested loop builds. */
  datatype LabelledPair<T> = LabelledPair(earlier: T, later: T, gap: int)

  /** The returned `(state1, state2, steps)`: three columns of equal length. */
  datatype PairBatch<T> = PairBatch(earlier: seq<T>, later: seq<T>, steps: seq<int>)

  function PairOf<T>(es: seq<Entry<T>>, i: nat, j: nat): LabelledPair<T>
    requires i <= j < |es|
  {
    LabelledPair(es[i].features, es[j].features, es[j].timestamp - es[i].timestamp)
  }

  /** The inner loop for row `i`: the pairs (i, i), (i, i + 1), ..., (i, n - 1). */
  function Row<T>(es: seq<Entry<T>>, i: nat): seq<LabelledPair<T>>
    requires i < |es|
  {
    seq(|es| - i, d requires 0 <= d < |es| - i => PairOf(es, i, i + d))
  }

  /** The outer loop from row `i` on. */
  function Rows<T>(es: seq<Entry<T>>, i: nat): seq<LabelledPair<T>>
    requires i <= |es|
    decreases |es| - i
  {
    if i == |es| then [] else Row(es, i) + Rows(es, i + 1)
  }

  function Gaps<T>(ps: seq<LabelledPair<T>>): seq<int> {
    seq(|ps|, k requires 0 <= k < |ps| => ps[k].gap)
  }

  /** `torch.stack` of the two components and `torch.tensor` of the gaps. */
  function Stack<T>(ps: seq<LabelledPair<T>>): PairBatch<T> {
    PairBatch(
      seq(|ps|, k requires 0 <= k < |ps| => ps[k].earlier),
      seq(|ps|, k requires 0 <= k < |ps| => ps[k].later),
      Gaps(ps))
  }

  /** Number of pairs in rows `0 .. i - 1` of an `n`-entry buffer: where row `i` starts. */
  function Offset(n: nat, i: nat): nat
    requires i <= n
  {
    if i == 0 then 0 else Offset(n, i - 1) + (n - (i - 1))
  }

  /** Where the pair (i, j) sits in the output. */
  function Position(n: nat, i: nat, j: nat): nat
    requires i <= j < n
  {
    Offset(n, i) + (j - i)
  }

  lemma {:induction false} OffsetClosedForm(n: nat, i: nat)
    requires i <= n
    ensures 2 * Offset(n, i) == 2 * i * n - i * (i - 1)
  {
    if i > 0 {
      OffsetClosedForm(n, i - 1);
      assert 2 * (i - 1) * n - (i - 1) * (i - 2) + 2 * (n - (i - 1))
          == 2 * i * n - i * (i - 1);
    }
  }

  lemma {:induction false} OffsetMonotone(n: nat, i: nat, i': nat)
    requires i <= i' <= n
    ensures Offset(n, i) <= Offset(n, i')
    decreases i' - i
  {
    if i < i' {
      OffsetMonotone(n, i, i' - 1);
    }
  }

  lemma {:induction false} RowsLength<T>(es: seq<Entry<T>>, i: nat)
    requires i <= |es|
    ensures |Rows(es, i)| + Offset(|es|, i) == Offset(|es|, |es|)
    decreases |es| - i
  {
    if i < |es| {
      RowsLength(es, i + 1);
    }
  }

  /** Row-major placement: pair (i, j) of rows `i0..` sits at `Position(i, j) - Offset(i0)`. */
  lemma {:induction false} RowsIndex<T>(es: seq<Entry<T>>, i0: nat, i: nat, j: nat)
    requires i0 <= i <= j < |es|
    ensures Offset(|es|, i0) <= Position(|es|, i, j)
    ensures Position(|es|, i, j) - Offset(|es|, i0) < |Rows(es, i0)|
    ensures Rows(es, i0)[Position(|es|, i, j) - Offset(|es|, i0)] == PairOf(es, i, j)
    decreases i - i0
  {
    RowsLength(es, i0);
    RowsLength(es, i);
    OffsetMonotone(|es|, i0, i);
    if i0 < i {
      RowsIndex(es, i0 + 1, i, j);
    }
  }

  /** Every output position is the position of some pair (i, j) with `i0 <= i <= j`. */
  lemma {:induction false} RowsCover<T>(es: seq<Entry<T>>, i0: nat, k: nat)
    requires i0 <= |es| && k < |Rows(es, i0)|
    ensures exists i: nat, j: nat :: i0 <= i <= j < |es| && Position(|es|, i, j) == Offset(|es|, i0) + k
    decreases |es| - i0
  {
    if k < |es| - i0 {
      assert Position(|es|, i0, i0 + k) == Offset(|es|, i0) + k;
    } else {
      RowsCover(es, i0 + 1, k - (|es| - i0));
    }
  }

  /**
   `get_all_pairs`: the "none" result below two entries; otherwise the
   stacked pair list with one element per ordered pair, n(n+1)/2 in all.
   */
  function AllPairs<T>(b: StateBuffer<T>): (r: Option<PairBatch<T>>)
    ensures r.None? <==> |b.entries| < 2
    ensures r.Some? ==>
      var n := |b.entries|;
      && |r.value.earlier| == n * (n + 1) / 2
      && |r.value.later| == n * (n + 1) / 2
      && |r.value.steps| == n * (n + 1) / 2
  {
    if |b.entries| < 2 then None
    else
      RowsLength(b.entries, 0);
      OffsetClosedForm(|b.entries|, |b.entries|);
      Some(Stack(Rows(b.entries, 0)))
  }

  /**
   Completeness: for every 0 <= i <= j < n the pair (entry i, entry j) and its
   gap `t_j - t_i` appear, at the row-major position of (i, j).
   */
  lemma AllPairsComplete<T>(b: StateBuffer<T>, i: nat, j: nat)
    requires |b.entries| >= 2 && i <= j < |b.entries|
    ensures var batch := AllPairs(b).value;
      var k := Position(|b.entries|, i, j);
      && k < |batch.steps|
      && batch.earlier[k] == b.entries[i].features
      && batch.later[k] == b.entries[j].features
      && batch.steps[k] == b.entries[j].timestamp - b.entries[i].timestamp
  {
    RowsIndex(b.entries, 0, i, j);
  }

  /** Soundness: every output position holds some pair (i, j) with i <= j, and no other. */
  lemma AllPairsSound<T>(b: StateBuffer<T>, k: nat)
    requires |b.entries| >= 2 && k < |AllPairs(b).value.steps|
    ensures exists i: nat, j: nat :: i <= j < |b.entries| && Position(|b.entries|, i, j) == k
  {
    RowsCover(b.entries, 0, k);
  }

  /** Row-major order: (i, j) comes before (i', j') exactly when it is lexicographically smaller. */
  lemma PositionOrder(n: nat, i: nat, j: nat, i': nat, j': nat)
    requires i <= j < n && i' <= j' < n
    ensures Position(n, i, j) < Position(n, i', j') <==> i < i' || (i == i' && j < j')
  {
    if i < i' {
      OffsetMonotone(n, i + 1, i');
    } else if i' < i {
      OffsetMonotone(n, i' + 1, i);
    }
  }

  /** Number of zero gaps in a gap column. */
  function CountZeros(s: seq<int>): nat
    decreases |s|
  {
    if |s| == 0 then 0 else (if s[0] == 0 then 1 else 0) + CountZeros(s[1..])
  }

  lemma {:induction false} CountZerosAppend(a: seq<int>, c: seq<int>)
    ensures CountZeros(a + c) == CountZeros(a) + CountZeros(c)
    decreases |a|
  {
    if |a| == 0 {
      assert a + c == c;
    } else {
      assert (a + c)[0] == a[0];
      assert (a + c)[1..] == a[1..] + c;
      CountZerosAppend(a[1..], c);
    }
  }

  lemma {:induction false} CountZerosPositive(s: seq<int>)
    requires forall k :: 0 <= k < |s| ==> s[k] > 0
    ensures CountZeros(s) == 0
    decreases |s|
  {
    if |s| > 0 {
      CountZerosPositive(s[1..]);
    }
  }

  /** Under the invariant the gap of (i, j) is `j - i`, so the diagonal is the only zero in a row. */
  lemma RowZeros<T>(es: seq<Entry<T>>, ct: nat, i: nat)
    requires i < |es|
    requires forall k :: 0 <= k < |es| ==> es[k].timestamp == ct - |es| + k
    ensures CountZeros(Gaps(Row(es, i))) == 1
  {
    var row := Row(es, i);
    var g := Gaps(row);
    assert row[0] == PairOf(es, i, i);
    forall k | 0 <= k < |g[1..]|
      ensures g[1..][k] > 0
    {
      assert row[k + 1] == PairOf(es, i, i + k + 1);
    }
    CountZerosPositive(g[1..]);
  }

  lemma {:induction false} RowsZeros<T>(es: seq<Entry<T>>, ct: nat, i: nat)
    requires i <= |es|
    requires forall k :: 0 <= k < |es| ==> es[k].timestamp == ct - |es| + k
    ensures CountZeros(Gaps(Rows(es, i))) == |es| - i
    decreases |es| - i
  {
    if i < |es| {
      assert Gaps(Rows(es, i)) == Gaps(Row(es, i)) + Gaps(Rows(es, i + 1));
      CountZerosAppend(Gaps(Row(es, i)), Gaps(Rows(es, i + 1)));
      RowZeros(es, ct, i);
      RowsZeros(es, ct, i + 1);
    }
  }

  /**
   For a buffer reachable from `Init`, the gap of pair (i, j) is `j - i`;
   hence every gap lies in `0 .. n - 1`.
   */
  lemma GapsUnderInvariant<T>(b: StateBuffer<T>)
    requires Valid(b) && |b.entries| >= 2
    ensures var steps := AllPairs(b).value.steps;
      && (forall i: nat, j: nat :: i <= j < |b.entries| ==>
            Position(|b.entries|, i, j) < |steps| && steps[Position(|b.entries|, i, j)] == j - i)
      && (forall k :: 0 <= k < |steps| ==> 0 <= steps[k] < |b.entries|)
  {
    var steps := AllPairs(b).value.steps;
    forall i: nat, j: nat | i <= j < |b.entries|
      ensures Position(|b.entries|, i, j) < |steps| && steps[Position(|b.entries|, i, j)] == j - i
    {
      AllPairsComplete(b, i, j);
    }
    forall k | 0 <= k < |steps|
      ensures 0 <= steps[k] < |b.entries|
    {
      AllPairsSound(b, k);
      var i: nat, j: nat :| i <= j < |b.entries| && Position(|b.entries|, i, j) == k;
      AllPairsComplete(b, i, j);
    }
  }

  /** Exactly `n` of the reported gaps are zero: the `i == j` pairs. */
  lemma ZeroGapCount<T>(b: StateBuffer<T>)
    requires Valid(b) && |b.entries| >= 2
    ensures CountZeros(AllPairs(b).value.steps) == |b.entries|
  {
    RowsZeros(b.entries, b.currentTimestamp, 0);
  }
}
