/**
 The per-environment sliding window of feature embeddings (`StateBuffer` in
 iem_ppo.py). Each entry carries the value of a counter that only ever grows;
 once the window holds `capacity` entries, every further `Add` evicts the oldest.
 */
module StateBuffers {
  import opened Numbers

  /** One retained embedding and the logical step at which it was added. */
  datatype Entry<T> = Entry(features: T, timestamp: nat)

  /**
   The buffer record: `capacity` is the constructor's `num_steps`, `featureDim`
   its `feature_dim` (stored but never consulted), `entries` the list in
   chronological order and `currentTimestamp` the tag the next entry will get.
   */
  datatype StateBuffer<T> = StateBuffer(
    capacity: nat,
    featureDim: nat,
    entries: seq<Entry<T>>,
    currentTimestamp: nat)

  /**
   The retained timestamps are exactly the consecutive run
   `currentTimestamp - |entries| .. currentTimestamp - 1`.
   */
  predicate Consecutive<T>(b: StateBuffer<T>) {
    && |b.entries| <= b.currentTimestamp
    && forall k :: 0 <= k < |b.entries| ==>
         b.entries[k].timestamp == b.currentTimestamp - |b.entries| + k
  }

  /** The invariant every buffer reachable from `Init` keeps. */
  predicate Valid<T>(b: StateBuffer<T>) {
    |b.entries| <= b.capacity && Consecutive(b)
  }

  /** `StateBuffer(num_steps, feature_dim)`: an empty window whose counter starts at 0. */
  function Init<T>(numSteps: nat, featureDim: nat): (r: StateBuffer<T>)
    ensures Valid<T>(r) && |r.entries| == 0 && r.currentTimestamp == 0
    ensures r.capacity == numSteps && r.featureDim == featureDim
  {
    StateBuffer(numSteps, featureDim, [], 0)
  }

  /**
   `add`: append the embedding tagged with the current counter, advance the
   counter, then drop the oldest entry if the window is over capacity.
   */
  function Add<T>(b: StateBuffer<T>, x: T): (r: StateBuffer<T>)
    ensures r.capacity == b.capacity && r.featureDim == b.featureDim
    ensures r.currentTimestamp == b.currentTimestamp + 1
    // the new entry is the newest one, unless a zero capacity evicts it at once
    ensures b.capacity > 0 ==>
      |r.entries| > 0 && r.entries[|r.entries| - 1] == Entry(x, b.currentTimestamp)
    // below capacity nothing is dropped
    ensures |b.entries| < b.capacity ==>
      r.entries == b.entries + [Entry(x, b.currentTimestamp)]
    // at capacity only the oldest entry goes; the others keep their order
    ensures |b.entries| >= b.capacity && |b.entries| > 0 ==>
      r.entries == b.entries[1..] + [Entry(x, b.currentTimestamp)]
    ensures |b.entries| <= b.capacity ==> |r.entries| == Min(|b.entries| + 1, b.capacity)
    ensures Valid(b) ==> Valid(r)
  {
    var appended := b.entries + [Entry(x, b.currentTimestamp)];
    var kept := if |appended| > b.capacity then appended[1..] else appended;
    StateBuffer(b.capacity, b.featureDim, kept, b.currentTimestamp + 1)
  }

  /** A sequence of `add` calls, oldest embedding first. */
  function AddMany<T>(b: StateBuffer<T>, xs: seq<T>): StateBuffer<T>
    decreases |xs|
  {
    if |xs| == 0 then b else Add(AddMany(b, xs[..|xs| - 1]), xs[|xs| - 1])
  }

  /** The retained embeddings are the last `|b.entries|` elements of `xs`, in order. */
  ghost predicate HoldsSuffix<T>(b: StateBuffer<T>, xs: seq<T>) {
    && |b.entries| <= |xs|
    && forall k :: 0 <= k < |b.entries| ==> b.entries[k].features == xs[|xs| - |b.entries| + k]
  }

  /** One `add` of `x` turns "the tail of `xs`" into "the tail of `xs + [x]`". */
  lemma AddExtendsSuffix<T>(b: StateBuffer<T>, xs: seq<T>, x: T)
    requires |b.entries| <= b.capacity && HoldsSuffix(b, xs)
    ensures HoldsSuffix(Add(b, x), xs + [x])
  {
  }

  /**
   From an empty start, after the adds `xs` the buffer holds the last
   `min(|xs|, capacity)` embeddings of `xs` in order, the counter equals
   `|xs|`, and the oldest retained timestamp is `max(0, |xs| - capacity)`.
   */
  lemma {:induction false} FillFromEmpty<T>(numSteps: nat, featureDim: nat, xs: seq<T>)
    ensures var r := AddMany(Init<T>(numSteps, featureDim), xs);
      && Valid(r)
      && r.capacity == numSteps
      && r.currentTimestamp == |xs|
      && |r.entries| == Min(|xs|, numSteps)
      && (|r.entries| > 0 ==> r.entries[0].timestamp == Max(0, |xs| - numSteps))
      && HoldsSuffix(r, xs)
    decreases |xs|
  {
    var init := Init<T>(numSteps, featureDim);
    if |xs| == 0 {
      assert AddMany(init, xs) == init;
    } else {
      var prefix := xs[..|xs| - 1];
      FillFromEmpty(numSteps, featureDim, prefix);
      var p := AddMany(init, prefix);
      assert AddMany(init, xs) == Add(p, xs[|xs| - 1]);
      AddExtendsSuffix(p, prefix, xs[|xs| - 1]);
      assert prefix + [xs[|xs| - 1]] == xs;
    }
  }
}
