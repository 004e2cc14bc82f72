/** The traditional partition-function accumulator (`PFTrad`): enumerate conformations in order
    of their energy bound, add each one's Boltzmann weight to q*, and stop once the effective
    epsilon reaches the target.

    The conformation tree is a finite stream of (conf, energy bound) candidates; minimization is
    an oracle from a conf to its minimized energy. */
module PFTrad {
  import opened Wrappers
  import opened PFAbstract

  /** A conformation the tree returns, with its energy bound. */
  datatype Candidate = Candidate(conf: seq<int>, energyBound: real)

  /** What the accumulator consults besides its own state.  `product` gives
      `productUndefinedRots()` for the pruning interval in force. */
  datatype Context = Context(
    settings: Settings,
    fullyDefined: bool,
    suppressOutput: bool,
    w: real -> real,
    minimizedEnergy: seq<int> -> real,
    product: real -> int)

  /** `updateQStar(conf)`: keep the conf in the top-conf buffer when requested, add its weight
      to q*, and count it as minimized. */
  function UpdateQStar(pf: PF, ctx: Context, conf: KSConf): (r: Result<PF, Error>)
    ensures ctx.settings.saveTopConfsAsPDB ==>
      (r.Failure? <==> SaveTopConf(pf.topConfs, ctx.settings.numTopConfsToSave, conf).Failure?)
    ensures !ctx.settings.saveTopConfsAsPDB ==> r.Success? && r.value.topConfs == pf.topConfs
    ensures ctx.settings.saveTopConfsAsPDB && r.Success? ==>
      r.value.topConfs == SaveTopConf(pf.topConfs, ctx.settings.numTopConfsToSave, conf).value
    ensures r.Success? ==>
      && r.value.qStar == pf.qStar + ctx.w(conf.energy)
      && r.value.minimizedConfs == pf.minimizedConfs + 1
      && r.value.minimizedDuringInterval == pf.minimizedDuringInterval + 1
      && r.value == pf.(qStar := r.value.qStar, minimizedConfs := r.value.minimizedConfs,
                        minimizedDuringInterval := r.value.minimizedDuringInterval,
                        topConfs := r.value.topConfs)
  {
    var topConfs :- if ctx.settings.saveTopConfsAsPDB
                    then SaveTopConf(pf.topConfs, ctx.settings.numTopConfsToSave, conf)
                    else Success(pf.topConfs);
    Success(pf.(topConfs := topConfs,
                qStar := pf.qStar + ctx.w(conf.energy),
                minimizedConfs := pf.minimizedConfs + 1,
                minimizedDuringInterval := pf.minimizedDuringInterval + 1))
  }

  /** The energy `accumulate` charges a conf: its minimized energy for a fully defined sequence,
      its bound otherwise. */
  function ConfEnergy(ctx: Context, c: Candidate): real {
    if ctx.fullyDefined then ctx.minimizedEnergy(c.conf) else c.energyBound
  }

  /** The state after `updateQStar`, the new Et and q', before the status is decided. */
  function Charged(pf: PF, ctx: Context, c: Candidate): (r: Result<PF, Error>)
    ensures r.Success? ==>
      && r.value.qStar == pf.qStar + ctx.w(ConfEnergy(ctx, c))
      && r.value.minimizedConfs == pf.minimizedConfs + 1
      && r.value.et == c.energyBound
      && r.value.qPrime == ctx.w(c.energyBound) * (pf.unPrunedConfs - pf.minimizedConfs - 1) as real
      && r.value.effectiveEpsilon == EffectiveEpsilon(r.value.qStar, r.value.qPrime, pf.pStar)
      && r.value.pruningInterval == pf.pruningInterval
      && r.value.unPrunedConfs == pf.unPrunedConfs
      && r.value.pStar == pf.pStar
  {
    var pf1 :- UpdateQStar(pf, ctx, KSConf(c.conf, c.energyBound, ConfEnergy(ctx, c)));
    var pf2 := UpdateQPrime(pf1.(et := c.energyBound), ctx.w);
    Success(pf2.(effectiveEpsilon := EffectiveEpsilon(pf2.qStar, pf2.qPrime, pf2.pStar)))
  }

  /** `accumulate(conf)`. */
  function Accumulate(pf: PF, ctx: Context, c: Candidate): (r: Result<PF, Error>)
    ensures r.Failure? <==> Charged(pf, ctx, c).Failure?
    ensures r.Success? ==>
      var e := ConfEnergy(ctx, c);
      var q := pf.qStar + ctx.w(e);
      var qp := ctx.w(c.energyBound) * (pf.unPrunedConfs - pf.minimizedConfs - 1) as real;
      var eps := EffectiveEpsilon(q, qp, pf.pStar);
      && r.value.minimizedConfs == pf.minimizedConfs + 1
      && r.value.et == c.energyBound
      && r.value.qPrime == qp
      && r.value.effectiveEpsilon == eps
      && (r.value.status == NotPossible <==> eps < 0.0)
      && (r.value.status == Reached <==>
            eps >= 0.0 && (eps <= ctx.settings.targetEpsilon || MaxKSConfsReached(ctx.settings, r.value)))
      && r.value.status != NotStable
      && (r.value.qStar == q ||
            (&& !ctx.fullyDefined && r.value.status == Reached && ctx.product(pf.pruningInterval) != 0
             && r.value.qStar == q * ctx.product(pf.pruningInterval) as real))
      && (r.value.status != Reached || ctx.fullyDefined || ctx.product(pf.pruningInterval) == 0 ==> r.value.qStar == q)
      && r.value.pruningInterval == pf.pruningInterval
      && r.value.unPrunedConfs == pf.unPrunedConfs
      && r.value.pStar == pf.pStar
  {
    var pf3 :- Charged(pf, ctx, c);
    Success(Conclude(pf3, ctx))
  }

  /** The second half of `accumulate`: decide the status from the new effective epsilon and,
      once reached for a sequence that is not fully defined, scale q* by the product of the
      undefined positions' RC counts. */
  function Conclude(pf3: PF, ctx: Context): (r: PF)
    ensures r.status == (if pf3.effectiveEpsilon < 0.0 then NotPossible
                         else if pf3.effectiveEpsilon <= ctx.settings.targetEpsilon
                                 || MaxKSConfsReached(ctx.settings, pf3) then Reached
                         else NotReached)
    ensures r.qStar == (if r.status == Reached && !ctx.fullyDefined && ctx.product(pf3.pruningInterval) != 0
                        then pf3.qStar * ctx.product(pf3.pruningInterval) as real else pf3.qStar)
    ensures && r.minimizedConfs == pf3.minimizedConfs && r.et == pf3.et && r.qPrime == pf3.qPrime
            && r.effectiveEpsilon == pf3.effectiveEpsilon && r.pruningInterval == pf3.pruningInterval
            && r.unPrunedConfs == pf3.unPrunedConfs && r.pStar == pf3.pStar
  {
    if pf3.effectiveEpsilon < 0.0 then pf3.(status := NotPossible)
    else
      var pf4 := if ctx.suppressOutput then pf3 else pf3.(printedHeader := true);
      var reached := pf4.effectiveEpsilon <= ctx.settings.targetEpsilon || MaxKSConfsReached(ctx.settings, pf4);
      var pf5 := pf4.(status := if reached then Reached else NotReached);
      if !ctx.fullyDefined && pf5.status == Reached
      then AdjustQStar(pf5, false, ctx.product(pf5.pruningInterval))
      else pf5
  }

  ghost predicate PositiveWeights(w: real -> real) {
    forall e: real :: w(e) > 0.0
  }

  /** With positive weights and nothing negative already accumulated, q* stays positive after a
      conf is accumulated, so the "not possible" branch of `accumulate` is never taken. */
  lemma AccumulateNeverImpossible(pf: PF, ctx: Context, c: Candidate)
    requires PositiveWeights(ctx.w)
    requires pf.qStar >= 0.0 && pf.pStar >= 0.0 && pf.minimizedConfs < pf.unPrunedConfs
    requires Accumulate(pf, ctx, c).Success?
    ensures Accumulate(pf, ctx, c).value.status != NotPossible
  {
    var e := ConfEnergy(ctx, c);
    assert ctx.w(e) > 0.0;
    assert ctx.w(c.energyBound) > 0.0;
    var qp := ctx.w(c.energyBound) * (pf.unPrunedConfs - pf.minimizedConfs - 1) as real;
    assert qp >= 0.0;
  }

  /** `iterate()`: take the next conf and accumulate it; with the tree exhausted, a FALSE status
      becomes NOT_POSSIBLE.  The skip of already-minimized confs never fires, because it looks up
      an `int[]` in a set of lists, so it is not modelled. */
  function Iterate(pf: PF, ctx: Context, stream: seq<Candidate>): (r: Result<(PF, seq<Candidate>), Error>)
    ensures |stream| == 0 ==> r == Success((if pf.status == NotReached then pf.(status := NotPossible) else pf, []))
    ensures |stream| > 0 ==>
      (r.Failure? <==> Accumulate(pf, ctx, stream[0]).Failure?) &&
      (r.Success? ==> r.value == (Accumulate(pf, ctx, stream[0]).value, stream[1..]))
  {
    if |stream| == 0 then
      Success((if pf.status == NotReached then pf.(status := NotPossible) else pf, []))
    else
      var pf' :- Accumulate(pf, ctx, stream[0]);
      Success((pf', stream[1..]))
  }

  /** The reference meaning of `compute()`: iterate while the status is FALSE. */
  function ComputeSpec(pf: PF, ctx: Context, stream: seq<Candidate>): Result<(PF, seq<Candidate>), Error>
    decreases |stream|, if pf.status == NotReached then 1 else 0
  {
    if pf.status != NotReached then Success((pf, stream))
    else
      var next :- Iterate(pf, ctx, stream);
      ComputeSpec(next.0, ctx, next.1)
  }

  /** `compute()`: the loop runs `iterate()` while the status is FALSE and exits on any other. */
  method Compute(pf: PF, ctx: Context, stream: seq<Candidate>) returns (r: Result<(PF, seq<Candidate>), Error>)
    ensures r == ComputeSpec(pf, ctx, stream)
    ensures r.Success? ==> r.value.0.status != NotReached
    ensures pf.status != NotReached ==> r == Success((pf, stream))
  {
    var cur, rest := pf, stream;
    while cur.status == NotReached
      invariant ComputeSpec(cur, ctx, rest) == ComputeSpec(pf, ctx, stream)
      invariant pf.status != NotReached ==> cur == pf && rest == stream
      decreases |rest|, if cur.status == NotReached then 1 else 0
    {
      var next := Step(cur, ctx, rest);
      if next.Failure? {
        return Failure(next.error);
      }
      cur, rest := next.value.0, next.value.1;
    }
    r := Success((cur, rest));
  }

  /** One pass of the `compute()` loop, `iterate()`: a failure is the outcome of the whole
      computation; otherwise the rest of the computation is unchanged, one conf further on
      (or with the status settled when the tree is exhausted). */
  method Step(cur: PF, ctx: Context, rest: seq<Candidate>) returns (next: Result<(PF, seq<Candidate>), Error>)
    requires cur.status == NotReached
    ensures next.Failure? ==> ComputeSpec(cur, ctx, rest) == Failure(next.error)
    ensures next.Success? ==> ComputeSpec(next.value.0, ctx, next.value.1) == ComputeSpec(cur, ctx, rest)
    ensures next.Success? && |rest| == 0 ==> next.value.1 == [] && next.value.0.status != NotReached
    ensures next.Success? && |rest| > 0 ==> next.value.1 == rest[1..]
    ensures next.Failure? <==> |rest| > 0 && Accumulate(cur, ctx, rest[0]).Failure?
    ensures next.Success? && |rest| > 0 ==> next.value.0 == Accumulate(cur, ctx, rest[0]).value
    ensures next.Success? && |rest| == 0 ==> next.value.0 == cur.(status := NotPossible)
  {
    next := Iterate(cur, ctx, rest);
  }

  /** One `iterate()` on a nonempty stream consumes exactly its first conf, counts it as
      minimized, and leaves the rest of `compute()` to the remaining stream. */
  lemma IterateShape(pf: PF, ctx: Context, stream: seq<Candidate>)
    requires pf.status == NotReached && |stream| > 0
    ensures Iterate(pf, ctx, stream).Success? ==>
      && ComputeSpec(pf, ctx, stream)
           == ComputeSpec(Iterate(pf, ctx, stream).value.0, ctx, Iterate(pf, ctx, stream).value.1)
      && Iterate(pf, ctx, stream).value.1 == stream[1..]
      && Iterate(pf, ctx, stream).value.0.minimizedConfs == pf.minimizedConfs + 1
  {
  }

  /** `runToCompletion()`: compute; on NOT_POSSIBLE restart with a wider pruning window and, if that
      reopened the search, compute again over the fresh tree (`restartStream`).  Writing the top
      confs and cleanup are output only.  `restarted` is the state `restart()` left, when it ran
      and succeeded. */
  method RunToCompletion(pf: PF, ctx: Context, stream: seq<Candidate>, restartStream: seq<Candidate>,
                         countsAt: real -> (int, int))
    returns (r: Result<PF, Error>, ghost restarted: Option<PF>)
    ensures r.Success? ==> r.value.status != NotReached
    ensures ComputeSpec(pf, ctx, stream).Success? && ComputeSpec(pf, ctx, stream).value.0.status != NotPossible ==>
      r == Success(ComputeSpec(pf, ctx, stream).value.0)
    ensures ComputeSpec(pf, ctx, stream).Failure? ==> r == Failure(ComputeSpec(pf, ctx, stream).error)
    // The restart path: it is taken exactly when the first computation ends NOT_POSSIBLE, and
    // fails only on a target epsilon of 1.
    ensures var first := ComputeSpec(pf, ctx, stream);
      first.Success? && first.value.0.status == NotPossible ==>
        (restarted.None? <==> ctx.settings.targetEpsilon == 1.0)
        && (restarted.None? ==> r == Failure(NumberFormat))
    ensures restarted.Some? ==>
      var first := ComputeSpec(pf, ctx, stream);
      && first.Success? && first.value.0.status == NotPossible
      && (restarted.value.status == NotPossible || restarted.value.status == NotReached)
    // A restart that could not widen the window enough stays NOT_POSSIBLE.
    ensures restarted.Some? && restarted.value.status == NotPossible ==> r == Success(restarted.value)
    // A restart that reopened the search starts afresh and the result is the second computation.
    ensures restarted.Some? && restarted.value.status == NotReached ==>
      && restarted.value.restarted && restarted.value.minimizedConfs == 0
      && var second := ComputeSpec(restarted.value, ctx, restartStream);
         && (second.Failure? ==> r == Failure(second.error))
         && (second.Success? ==> r == Success(second.value.0))
  {
    restarted := None;
    var first := Compute(pf, ctx, stream);
    if first.Failure? {
      return Failure(first.error), None;
    }
    var cur := first.value.0;
    if cur.status == NotPossible {
      var restarted' := Restart(cur, ctx.settings.targetEpsilon, ctx.w, countsAt);
      if restarted'.Failure? {
        return Failure(restarted'.error), None;
      }
      cur := restarted'.value;
      restarted := Some(cur);
      if cur.status == NotReached {
        var second := Compute(cur, ctx, restartStream);
        if second.Failure? {
          return Failure(second.error), restarted;
        }
        cur := second.value.0;
      }
    }
    r := Success(cur);
  }
}
