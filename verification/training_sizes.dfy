/**
 The integer bookkeeping of the training loop in iem_ppo.py: the sizes derived
 from the configuration and the `global_step` counter of the rollout loop.
 */
module TrainingSizes {
  import opened Results

  /** The configuration fields the derived sizes are computed from. */
  datatype Config = Config(numEnvs: int, numSteps: int, numMinibatches: int, totalTimesteps: int)

  /** `batch_size`, `minibatch_size` and `num_iterations` as filled in at run time. */
  datatype Sizes = Sizes(batchSize: int, minibatchSize: int, numIterations: int)

  /** Python's `ZeroDivisionError` from `//`. */
  datatype SizeError = ZeroDivision

  /**
   Python's `a // d`, which rounds toward negative infinity (Dafny's `/` is
   Euclidean, so the two differ for a negative divisor).
   */
  function FloorDiv(a: int, d: int): (q: int)
    requires d != 0
    ensures d > 0 ==> d * q <= a < d * q + d
    ensures d < 0 ==> d * q + d < a <= d * q
  {
    if d > 0 then a / d else (-a) / (-d)
  }

  /** Lines 222-224: the three derived sizes, or the error the first zero divisor raises. */
  function DerivedSizes(c: Config): (r: Result<Sizes, SizeError>)
    ensures r.Err? <==> c.numMinibatches == 0 || c.numEnvs * c.numSteps == 0
    ensures r.Ok? ==> r.value.batchSize == c.numEnvs * c.numSteps
    ensures r.Ok? && c.numMinibatches > 0 ==>
      var s := r.value;
      c.numMinibatches * s.minibatchSize <= s.batchSize < c.numMinibatches * (s.minibatchSize + 1)
    ensures r.Ok? && c.numMinibatches < 0 ==>
      var s := r.value;
      c.numMinibatches * (s.minibatchSize + 1) < s.batchSize <= c.numMinibatches * s.minibatchSize
    ensures r.Ok? && r.value.batchSize < 0 ==>
      var s := r.value;
      s.batchSize * (s.numIterations + 1) < c.totalTimesteps <= s.batchSize * s.numIterations
    // an exact division leaves no index outside the minibatches
    ensures r.Ok? && c.numMinibatches > 0 && r.value.batchSize % c.numMinibatches == 0 ==>
      r.value.minibatchSize * c.numMinibatches == r.value.batchSize
    ensures r.Ok? && r.value.batchSize > 0 ==>
      var s := r.value;
      s.batchSize * s.numIterations <= c.totalTimesteps < s.batchSize * (s.numIterations + 1)
  {
    var batchSize := c.numEnvs * c.numSteps;
    if c.numMinibatches == 0 then Err(ZeroDivision)
    else
      var minibatchSize := FloorDiv(batchSize, c.numMinibatches);
      if batchSize == 0 then Err(ZeroDivision)
      else Ok(Sizes(batchSize, minibatchSize, FloorDiv(c.totalTimesteps, batchSize)))
  }

  /**
   Lines 276 and 283-291: `global_step` grows by `num_envs` on every inner
   step, so at the end of iteration `k` it equals `k * num_envs * num_steps`.
   `atIterationEnd` records its value after each iteration. Both counts are
   non-negative because the rollout tensors of shape `(num_steps, num_envs)`
   are allocated before the loop.
   */
  method CountSteps(numEnvs: nat, numSteps: nat, numIterations: int)
    returns (globalStep: int, atIterationEnd: seq<int>)
    ensures |atIterationEnd| == if numIterations > 0 then numIterations else 0
    ensures forall k :: 0 <= k < |atIterationEnd| ==>
      atIterationEnd[k] == (k + 1) * (numEnvs * numSteps)
    ensures globalStep == |atIterationEnd| * (numEnvs * numSteps)
  {
    globalStep := 0;
    atIterationEnd := [];
    var iteration := 1;
    while iteration <= numIterations
      invariant 1 <= iteration
      invariant numIterations > 0 ==> iteration <= numIterations + 1
      invariant numIterations <= 0 ==> iteration == 1
      invariant |atIterationEnd| == iteration - 1
      invariant forall k :: 0 <= k < |atIterationEnd| ==>
        atIterationEnd[k] == (k + 1) * (numEnvs * numSteps)
      invariant globalStep == (iteration - 1) * (numEnvs * numSteps)
    {
      var step := 0;
      while step < numSteps
        invariant 0 <= step <= numSteps
        invariant globalStep == (iteration - 1) * (numEnvs * numSteps) + step * numEnvs
      {
        globalStep := globalStep + numEnvs;
        step := step + 1;
      }
      assert globalStep == iteration * (numEnvs * numSteps);
      atIterationEnd := atIterationEnd + [globalStep];
      iteration := iteration + 1;
    }
  }
}
