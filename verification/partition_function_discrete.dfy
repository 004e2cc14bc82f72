/** The discrete multistate partition function (`PartitionFunctionDiscrete`): score conformations
    from an enumeration and add their Boltzmann weights to q* until the effective epsilon reaches
    the target, a per-call conformation cap is hit, or a score-weight target is reached.

    The enumeration is a finite sequence of conformation scores; the Boltzmann weight and the
    effective epsilon of the partition-function values are oracles (the values class is not part
    of this model), with NaN as `None`. */
module PartitionFunctionDiscrete {
  import opened Wrappers
  import opened JavaInt

  datatype Status = Estimating | Estimated | NotEnoughConformations | NotEnoughFiniteEnergies

  /** Only an estimate in progress or a finished one may be continued. */
  predicate CanContinue(s: Status) {
    s == Estimating || s == Estimated
  }

  /** The fields `compute` reads and writes. */
  datatype PFD = PFD(
    status: Status,
    qstar: real,
    qprime: real,
    numConfsEvaluated: int,
    numConfsToScore: int,
    qstarScoreWeights: real)

  datatype Context = Context(
    targetEpsilon: real,
    w: real -> real,
    epsilon: (real, real) -> Option<real>)

  datatype Error = IllegalState

  /** The two `compute` overloads differ in what a scored conf updates. */
  datatype Mode = ByCount | ByWeight

  ghost predicate NonNegativeWeights(w: real -> real) {
    forall e: real :: w(e) >= 0.0
  }

  /** The status after a conf has been accumulated: NaN means not enough finite energies, an
      epsilon within the target means estimated. */
  function UpdateStatus(st: PFD, ctx: Context): (r: PFD)
    ensures ctx.epsilon(st.qstar, st.qprime).None? ==> r == st.(status := NotEnoughFiniteEnergies)
    ensures ctx.epsilon(st.qstar, st.qprime).Some? && ctx.epsilon(st.qstar, st.qprime).value <= ctx.targetEpsilon
      ==> r == st.(status := Estimated)
    ensures ctx.epsilon(st.qstar, st.qprime).Some? && ctx.epsilon(st.qstar, st.qprime).value > ctx.targetEpsilon
      ==> r == st
  {
    match ctx.epsilon(st.qstar, st.qprime)
    case None => st.(status := NotEnoughFiniteEnergies)
    case Some(eps) => if eps <= ctx.targetEpsilon then st.(status := Estimated) else st
  }

  /** The end of the enumeration: an estimate in progress has too few conformations. */
  function Exhausted(st: PFD): PFD {
    if st.status != Estimated then st.(status := NotEnoughConformations) else st
  }

  /** One pass of the loop body after the continue check, for a conf with the given score.
      Returns the new state and whether the loop breaks. */
  function ScoreOne(st: PFD, ctx: Context, score: real, mode: Mode): (r: (PFD, bool))
    ensures r.0.numConfsEvaluated == (if mode == ByCount then st.numConfsEvaluated + 1 else Wrap32(st.numConfsEvaluated + 1))
    ensures r.1 <==> ctx.w(score) == 0.0
    ensures r.1 ==> r.0.status == (if st.status == Estimated then Estimated else NotEnoughFiniteEnergies)
    ensures st.status != Estimating || r.1 ==>
      r.0.qstar == st.qstar && r.0.qprime == st.qprime && r.0.qstarScoreWeights == st.qstarScoreWeights
      && r.0.numConfsToScore == st.numConfsToScore
    ensures st.status == Estimated ==> r.0.status == Estimated
    ensures st.status == Estimating && !r.1 ==>
      && r.0.qstar == st.qstar + ctx.w(score)
      && r.0.numConfsToScore == (if mode == ByCount then st.numConfsToScore - 1 else st.numConfsToScore)
      && r.0.qprime == ctx.w(score) * r.0.numConfsToScore as real
      && r.0.qstarScoreWeights == (if mode == ByWeight then st.qstarScoreWeights + ctx.w(score) else st.qstarScoreWeights)
  {
    var evaluated := if mode == ByCount then st.numConfsEvaluated + 1 else Wrap32(st.numConfsEvaluated + 1);
    var st1 := st.(numConfsEvaluated := evaluated);
    var weight := ctx.w(score);
    if weight == 0.0 then
      (if st1.status != Estimated then st1.(status := NotEnoughFiniteEnergies) else st1, true)
    else if st1.status == Estimating then
      var toScore := if mode == ByCount then st1.numConfsToScore - 1 else st1.numConfsToScore;
      var weights := if mode == ByWeight then st1.qstarScoreWeights + weight else st1.qstarScoreWeights;
      var st2 := st1.(numConfsToScore := toScore, qstarScoreWeights := weights,
                      qstar := st1.qstar + weight, qprime := UpdateQprime(weight, toScore));
      (UpdateStatus(st2, ctx), false)
    else (st1, false)
  }

  predicate IsSuffix(rest: seq<real>, stream: seq<real>) {
    |rest| <= |stream| && rest == stream[|stream| - |rest|..]
  }

  /** The loop of `compute(int)` with its stop conf. */
  function RunByCount(st: PFD, ctx: Context, stopAtConf: int, stream: seq<real>): (r: (PFD, seq<real>))
    ensures IsSuffix(r.1, stream)
    ensures r.0.numConfsEvaluated == st.numConfsEvaluated + (|stream| - |r.1|)
    ensures st.numConfsEvaluated <= stopAtConf ==> r.0.numConfsEvaluated <= stopAtConf
    ensures st.numConfsEvaluated > stopAtConf ==> r == (st, stream)
    ensures || !CanContinue(r.0.status) || r.0.numConfsEvaluated >= stopAtConf || |r.1| == 0
            || (|r.1| < |stream| && ctx.w(stream[|stream| - |r.1| - 1]) == 0.0)
    decreases |stream|
  {
    if !CanContinue(st.status) || st.numConfsEvaluated >= stopAtConf then (st, stream)
    else if |stream| == 0 then (Exhausted(st), [])
    else
      var next := ScoreOne(st, ctx, stream[0], ByCount);
      assert stream[1..] == stream[|stream| - |stream[1..]|..];
      if next.1 then (next.0, stream[1..]) else RunByCount(next.0, ctx, stopAtConf, stream[1..])
  }

  /** `stopAtConf` as written: Java `int` addition, which wraps for large caps: a sum past the
      largest `int` comes out negative. */
  function StopAtConfAsWritten(numConfsEvaluated: int, maxNumConfs: int): (r: int)
    ensures IsInt32(r)
    ensures IsInt32(numConfsEvaluated + maxNumConfs) ==> r == numConfsEvaluated + maxNumConfs
    ensures IntMax < numConfsEvaluated + maxNumConfs <= 2 * IntMax + 1 ==>
      r == numConfsEvaluated + maxNumConfs - 0x1_0000_0000 && r < 0
  {
    Wrap32(numConfsEvaluated + maxNumConfs)
  }

  /** `stopAtConf` as intended: the cap counted from the confs evaluated so far, saturating at the
      largest `int`. */
  function StopAtConf(numConfsEvaluated: int, maxNumConfs: int): (r: int)
    ensures IsInt32(numConfsEvaluated) && IsInt32(maxNumConfs) ==> IsInt32(r)
    ensures IsInt32(numConfsEvaluated + maxNumConfs) ==> r == numConfsEvaluated + maxNumConfs
    ensures numConfsEvaluated + maxNumConfs > IntMax ==> r == IntMax
    ensures numConfsEvaluated + maxNumConfs < IntMin ==> r == IntMin
  {
    var sum := numConfsEvaluated + maxNumConfs;
    if sum > IntMax then IntMax else if sum < IntMin then IntMin else sum
  }

  /** `compute(maxNumConfs)` exactly as written.  It agrees with the corrected computation
      whenever the stop count does not overflow. */
  function ComputeAsWritten(st: PFD, ctx: Context, maxNumConfs: int, stream: seq<real>): (r: Result<(PFD, seq<real>), Error>)
    ensures r.Failure? <==> !CanContinue(st.status)
    ensures IsInt32(st.numConfsEvaluated + maxNumConfs) && CanContinue(st.status) ==>
      r == Success(RunByCount(st, ctx, StopAtConf(st.numConfsEvaluated, maxNumConfs), stream))
  {
    if !CanContinue(st.status) then Failure(IllegalState)
    else Success(RunByCount(st, ctx, StopAtConfAsWritten(st.numConfsEvaluated, maxNumConfs), stream))
  }

  /** With one conf already evaluated and a cap of `Integer.MAX_VALUE`, the written stop conf wraps
      to `Integer.MIN_VALUE` and the call evaluates nothing, although a conf is available. */
  lemma AsWrittenLargeCapEvaluatesNothing(ctx: Context)
    ensures var st := PFD(Estimating, 0.0, 0.0, 1, 10, 0.0);
      ComputeAsWritten(st, ctx, IntMax, [0.0]) == Success((st, [0.0]))
  {
    assert StopAtConfAsWritten(1, IntMax) == IntMin;
  }

  /** `compute(maxNumConfs)` with the stop conf saturating.  Fails when the status cannot
      continue; otherwise evaluates at most `maxNumConfs` confs from the front of the stream. */
  method Compute(st: PFD, ctx: Context, maxNumConfs: int, stream: seq<real>)
    returns (r: Result<(PFD, seq<real>), Error>)
    requires IsInt32(st.numConfsEvaluated) && IsInt32(maxNumConfs)
    ensures r.Failure? <==> !CanContinue(st.status)
    ensures r.Failure? ==> r.error == IllegalState
    ensures r.Success? ==> r.value == RunByCount(st, ctx, StopAtConf(st.numConfsEvaluated, maxNumConfs), stream)
    ensures r.Success? ==>
      && IsSuffix(r.value.1, stream)
      && |stream| - |r.value.1| <= (if maxNumConfs > 0 then maxNumConfs else 0)
      && IsInt32(r.value.0.numConfsEvaluated)
    ensures r.Success? && maxNumConfs > 0 && |stream| > 0 && st.numConfsEvaluated < IntMax ==> |r.value.1| < |stream|
  {
    if !CanContinue(st.status) {
      return Failure(IllegalState);
    }
    var stop := StopAtConf(st.numConfsEvaluated, maxNumConfs);
    var cur, rest := st, stream;
    var done := false;
    while !done
      invariant !done ==> RunByCount(cur, ctx, stop, rest) == RunByCount(st, ctx, stop, stream)
      invariant done ==> (cur, rest) == RunByCount(st, ctx, stop, stream)
      decreases |rest|, if done then 0 else 1
    {
      if !CanContinue(cur.status) || cur.numConfsEvaluated >= stop {
        done := true;
      } else if |rest| == 0 {
        cur := Exhausted(cur);
        done := true;
      } else {
        var next := ScoreOne(cur, ctx, rest[0], ByCount);
        cur, rest := next.0, rest[1..];
        done := next.1;
      }
    }
    r := Success((cur, rest));
  }

  /** With nonnegative weights q* never decreases during `compute(maxNumConfs)`. */
  lemma {:induction false} RunByCountQStarGrows(st: PFD, ctx: Context, stopAtConf: int, stream: seq<real>)
    requires NonNegativeWeights(ctx.w)
    ensures st.qstar <= RunByCount(st, ctx, stopAtConf, stream).0.qstar
    decreases |stream|
  {
    if CanContinue(st.status) && st.numConfsEvaluated < stopAtConf && |stream| > 0 {
      var next := ScoreOne(st, ctx, stream[0], ByCount);
      assert ctx.w(stream[0]) >= 0.0;
      if !next.1 {
        RunByCountQStarGrows(next.0, ctx, stopAtConf, stream[1..]);
      }
    }
  }

  /** Once estimated, a call only consumes confs: the status and q* stay as they are. */
  lemma {:induction false} EstimatedIsFinal(st: PFD, ctx: Context, stopAtConf: int, stream: seq<real>)
    requires st.status == Estimated
    ensures RunByCount(st, ctx, stopAtConf, stream).0.status == Estimated
    ensures RunByCount(st, ctx, stopAtConf, stream).0.qstar == st.qstar
    decreases |stream|
  {
    if st.numConfsEvaluated < stopAtConf && |stream| > 0 {
      var next := ScoreOne(st, ctx, stream[0], ByCount);
      if !next.1 {
        EstimatedIsFinal(next.0, ctx, stopAtConf, stream[1..]);
      }
    }
  }

  /** The loop of `compute(targetScoreWeights)`.  It does not decrement the number of confs left to
      score, unlike `compute(int)`; that is modelled as written. */
  function RunByWeight(st: PFD, ctx: Context, target: real, stream: seq<real>): (r: (PFD, seq<real>))
    ensures IsSuffix(r.1, stream)
    ensures r.0.qstar - st.qstar == r.0.qstarScoreWeights - st.qstarScoreWeights
    ensures r.0.numConfsToScore == st.numConfsToScore
    ensures || !CanContinue(r.0.status) || r.0.qstarScoreWeights >= target || |r.1| == 0
            || (|r.1| < |stream| && ctx.w(stream[|stream| - |r.1| - 1]) == 0.0)
    decreases |stream|
  {
    if !CanContinue(st.status) || st.qstarScoreWeights >= target then (st, stream)
    else if |stream| == 0 then (Exhausted(st), [])
    else
      var next := ScoreOne(st, ctx, stream[0], ByWeight);
      assert stream[1..] == stream[|stream| - |stream[1..]|..];
      if next.1 then (next.0, stream[1..]) else RunByWeight(next.0, ctx, target, stream[1..])
  }

  /** `compute(targetScoreWeights)`. */
  function ComputeToWeight(st: PFD, ctx: Context, target: real, stream: seq<real>): (r: Result<(PFD, seq<real>), Error>)
    ensures r.Failure? <==> !CanContinue(st.status)
    ensures r.Success? ==> r.value == RunByWeight(st, ctx, target, stream)
    ensures r.Success? && st.qstarScoreWeights >= target ==> r.value == (st, stream)
  {
    if !CanContinue(st.status) then Failure(IllegalState)
    else Success(RunByWeight(st, ctx, target, stream))
  }

  /** `updateQprime(val)`: every conf still to score is charged the latest weight. */
  function UpdateQprime(weight: real, numConfsToScore: int): (r: real)
    ensures weight >= 0.0 && numConfsToScore >= 0 ==> r >= 0.0
    ensures numConfsToScore == 0 ==> r == 0.0
  {
    weight * numConfsToScore as real
  }
}
