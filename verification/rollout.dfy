/**
 The part of the rollout loop that feeds the buffers: one `StateBuffer` per
 environment (iem_ppo.py line 273), `global_step += num_envs` on every step
 (line 291) and one `add` per environment with that environment's current
 embedding (lines 317-318). Buffers are never reset, neither at episode ends
 nor between iterations.
 */
module Rollout {
  import opened Numbers
  import opened StateBuffers
  import opened PairGeneration

  /** The embedding width the buffers are created with. */
  const FeatureDim: nat := 512

  /** `global_step` and the per-environment buffers, as carried across the whole run. */
  datatype Collector<T> = Collector(globalStep: int, buffers: seq<StateBuffer<T>>)

  function Start<T>(numEnvs: nat, numSteps: nat): (c: Collector<T>)
    ensures c.globalStep == 0 && |c.buffers| == numEnvs
    ensures forall e :: 0 <= e < numEnvs ==> Valid<T>(c.buffers[e]) && |c.buffers[e].entries| == 0
    ensures forall e :: 0 <= e < numEnvs ==>
      c.buffers[e].capacity == numSteps && c.buffers[e].currentTimestamp == 0
  {
    var empty := Init<T>(numSteps, FeatureDim);
    Collector(0, seq(numEnvs, e requires 0 <= e < numEnvs => empty))
  }

  /** One synchronous step: `features[e]` is environment `e`'s current embedding. */
  function CollectStep<T>(c: Collector<T>, features: seq<T>): (r: Collector<T>)
    requires |features| == |c.buffers|
    ensures r.globalStep == c.globalStep + |c.buffers|
    ensures |r.buffers| == |c.buffers|
    ensures forall e :: 0 <= e < |c.buffers| ==>
      r.buffers[e].currentTimestamp == c.buffers[e].currentTimestamp + 1
    ensures forall e :: 0 <= e < |c.buffers| ==> Valid(c.buffers[e]) ==> Valid(r.buffers[e])
    // buffer `e` receives environment `e`'s embedding as its newest entry
    ensures forall e :: 0 <= e < |c.buffers| && c.buffers[e].capacity > 0 ==>
      |r.buffers[e].entries| > 0 &&
      r.buffers[e].entries[|r.buffers[e].entries| - 1].features == features[e]
  {
    Collector(c.globalStep + |c.buffers|,
      seq(|c.buffers|, e requires 0 <= e < |c.buffers| => Add(c.buffers[e], features[e])))
  }

  predicate WellShaped<T>(steps: seq<seq<T>>, numEnvs: nat) {
    forall t :: 0 <= t < |steps| ==> |steps[t]| == numEnvs
  }

  /** The steps of a run so far, oldest first. */
  function Collect<T>(c: Collector<T>, steps: seq<seq<T>>): (r: Collector<T>)
    requires WellShaped(steps, |c.buffers|)
    ensures |r.buffers| == |c.buffers|
    decreases |steps|
  {
    if |steps| == 0 then c
    else CollectStep(Collect(c, steps[..|steps| - 1]), steps[|steps| - 1])
  }

  /** Environment `e`'s embeddings across the steps. */
  function Column<T>(steps: seq<seq<T>>, e: nat): seq<T>
    requires forall t :: 0 <= t < |steps| ==> e < |steps[t]|
  {
    seq(|steps|, t requires 0 <= t < |steps| => steps[t][e])
  }

  /** Each environment's buffer sees exactly its own column of embeddings, in order. */
  lemma {:induction false} CollectPerEnvironment<T>(numEnvs: nat, numSteps: nat, steps: seq<seq<T>>)
    requires WellShaped(steps, numEnvs)
    ensures var c := Collect(Start<T>(numEnvs, numSteps), steps);
      && c.globalStep == numEnvs * |steps|
      && forall e :: 0 <= e < numEnvs ==>
           c.buffers[e] == AddMany(Init<T>(numSteps, FeatureDim), Column(steps, e))
    decreases |steps|
  {
    var init := Init<T>(numSteps, FeatureDim);
    if |steps| == 0 {
      forall e | 0 <= e < numEnvs
        ensures Collect(Start<T>(numEnvs, numSteps), steps).buffers[e]
             == AddMany(init, Column(steps, e))
      {
        assert AddMany(init, Column(steps, e)) == init;
      }
    } else {
      var prefix := steps[..|steps| - 1];
      CollectPerEnvironment(numEnvs, numSteps, prefix);
      var before := Collect(Start<T>(numEnvs, numSteps), prefix);
      var last := steps[|steps| - 1];
      var c := Collect(Start<T>(numEnvs, numSteps), steps);
      assert c == CollectStep(before, last);
      assert numEnvs * |steps| == numEnvs * |prefix| + numEnvs;
      forall e | 0 <= e < numEnvs
        ensures c.buffers[e] == AddMany(init, Column(steps, e))
      {
        var col := Column(steps, e);
        assert col[..|col| - 1] == Column(prefix, e);
        assert col[|col| - 1] == last[e];
        assert AddMany(init, col) == Add(AddMany(init, Column(prefix, e)), last[e]);
        assert c.buffers[e] == Add(before.buffers[e], last[e]);
      }
    }
  }

  /**
   After `k` synchronous steps every buffer's counter equals `k`, so
   `global_step == num_envs * current_timestamp`; each buffer keeps the
   invariant, holds `min(k, num_steps)` entries, and its oldest timestamp is
   `max(0, k - num_steps)`.
   */
  lemma {:induction false} BuffersTrackGlobalStep<T>(numEnvs: nat, numSteps: nat, steps: seq<seq<T>>)
    requires WellShaped(steps, numEnvs)
    ensures var c := Collect(Start<T>(numEnvs, numSteps), steps);
      forall e :: 0 <= e < numEnvs ==>
        var b := c.buffers[e];
        && Valid(b)
        && c.globalStep == numEnvs * b.currentTimestamp
        && |b.entries| == Min(|steps|, numSteps)
        && (|b.entries| > 0 ==> b.entries[0].timestamp == Max(0, |steps| - numSteps))
  {
    forall e | 0 <= e < numEnvs {
      BufferTracks(numEnvs, numSteps, steps, e);
    }
  }

  lemma {:induction false} BufferTracks<T>(numEnvs: nat, numSteps: nat, steps: seq<seq<T>>, e: nat)
    requires WellShaped(steps, numEnvs) && e < numEnvs
    ensures var c := Collect(Start<T>(numEnvs, numSteps), steps);
      var b := c.buffers[e];
      && Valid(b)
      && c.globalStep == numEnvs * b.currentTimestamp
      && |b.entries| == Min(|steps|, numSteps)
      && (|b.entries| > 0 ==> b.entries[0].timestamp == Max(0, |steps| - numSteps))
  {
    var c := Collect(Start<T>(numEnvs, numSteps), steps);
    CollectPerEnvironment(numEnvs, numSteps, steps);
    var col := Column(steps, e);
    var b := c.buffers[e];
    assert b == AddMany(Init<T>(numSteps, FeatureDim), col);
    FillFromEmpty<T>(numSteps, FeatureDim, col);
    assert |col| == |steps|;
    assert b.currentTimestamp == |steps|;
    assert c.globalStep == numEnvs * |steps|;
  }

  /**
   The update phase runs after at least one full rollout of `num_steps` steps;
   from then on every buffer yields `num_steps * (num_steps + 1) / 2` pairs when
   `num_steps >= 2`, and the "none" result whenever `num_steps < 2`.
   */
  lemma {:induction false} PairsAtUpdate<T>(numEnvs: nat, numSteps: nat, steps: seq<seq<T>>, e: nat)
    requires WellShaped(steps, numEnvs) && |steps| >= numSteps && e < numEnvs
    ensures var b := Collect(Start<T>(numEnvs, numSteps), steps).buffers[e];
      && (numSteps >= 2 ==>
            AllPairs(b).Some? && |AllPairs(b).value.steps| == numSteps * (numSteps + 1) / 2)
      && (numSteps < 2 ==> AllPairs(b).None?)
  {
    BuffersTrackGlobalStep(numEnvs, numSteps, steps);
  }

  /**
   `Collector.globalStep` and `TrainingSizes.CountSteps` are two views of the
   one `global_step` counter: after `k` full iterations of `num_steps` steps
   the collector's counter is `k * num_envs * num_steps`, the value
   `CountSteps` records at the end of iteration `k`.
   */
  lemma {:induction false} GlobalStepAtIterationEnd<T>(numEnvs: nat, numSteps: nat, k: nat, steps: seq<seq<T>>)
    requires WellShaped(steps, numEnvs) && |steps| == k * numSteps
    ensures Collect(Start<T>(numEnvs, numSteps), steps).globalStep == k * (numEnvs * numSteps)
  {
    CollectPerEnvironment(numEnvs, numSteps, steps);
    Reassociate(numEnvs, k, numSteps);
  }

  lemma Reassociate(a: int, b: int, c: int)
    ensures a * (b * c) == b * (a * c)
  {
  }
}
