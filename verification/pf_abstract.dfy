/** The bookkeeping shared by the K* partition-function implementations (`PFAbstract`).

    `BigDecimal` quantities (q*, q', p*) are reals and `BigInteger` counts are integers.  The
    Boltzmann weight `exp(-E/RT)` is an oracle `w` from energies to reals; where a property needs
    it, the oracle is asked to be nonnegative.  Decimal rounding of `BigDecimal.divide` is not
    modelled. */
module PFAbstract {
  import opened Wrappers
  import opened Strings
  import opened JavaInt

  /** `EApproxReached`: TRUE, FALSE, NOT_POSSIBLE, NOT_STABLE. */
  datatype EApprox = Reached | NotReached | NotPossible | NotStable

  /** A minimized conformation with its energy bound and its energy. */
  datatype KSConf = KSConf(conf: seq<int>, energyBound: real, energy: real)

  datatype Error = NullPointer | InvalidPFuncMethod | NumberFormat

  /** The fields of a partition function the accumulators read and write.  `pruningInterval`
      is the pruning interval of the search problem's pruning matrix. */
  datatype PF = PF(
    status: EApprox,
    qStar: real,
    qPrime: real,
    pStar: real,
    et: real,
    e0: real,
    effectiveEpsilon: real,
    prunedConfs: int,
    unPrunedConfs: int,
    minimizedConfs: int,
    minimizedDuringInterval: int,
    minimizingConfs: int,
    topConfs: seq<KSConf>,
    pruningInterval: real,
    restarted: bool,
    printedHeader: bool)

  /** The static settings the accumulators consult. */
  datatype Settings = Settings(
    targetEpsilon: real,
    useMaxKSConfs: bool,
    maxKSConfs: int,
    saveTopConfsAsPDB: bool,
    numTopConfsToSave: int)

  ghost predicate NonNegativeWeights(w: real -> real) {
    forall e: real :: w(e) >= 0.0
  }

  // ---------------------------------------------------------------------------
  // Effective epsilon and the epsilon status.

  /** `computeEffectiveEpsilon`: -1 when q* + q' + p* is zero, otherwise one minus q* divided by
      q* + q' + p*, which is the share of the bound not yet enumerated. */
  function EffectiveEpsilon(qStar: real, qPrime: real, pStar: real): (r: real)
    ensures qStar + qPrime + pStar == 0.0 ==> r == -1.0
    ensures qStar + qPrime + pStar != 0.0 ==> r == (qPrime + pStar) / (qStar + qPrime + pStar)
    ensures qStar >= 0.0 && qPrime >= 0.0 && pStar >= 0.0 && qStar + qPrime + pStar != 0.0 ==> 0.0 <= r <= 1.0
  {
    var divisor := qStar + qPrime + pStar;
    if divisor == 0.0 then -1.0 else 1.0 - qStar / divisor
  }

  /** For nonnegative sums the value is negative exactly when it is the "never reachable" sentinel. */
  lemma EpsilonNegativeIffNoWeight(qStar: real, qPrime: real, pStar: real)
    requires qStar >= 0.0 && qPrime >= 0.0 && pStar >= 0.0
    ensures EffectiveEpsilon(qStar, qPrime, pStar) < 0.0 <==> qStar + qPrime + pStar == 0.0
  {
  }

  /** `epsilonPossible()`: FALSE and NOT_POSSIBLE become NOT_POSSIBLE and the answer is no;
      otherwise the answer is yes and nothing changes. */
  function EpsilonPossible(pf: PF): (r: (PF, bool))
    ensures r.1 <==> (pf.status == Reached || pf.status == NotStable)
    ensures r.1 ==> r.0 == pf
    ensures !r.1 ==> r.0 == pf.(status := NotPossible)
  {
    match pf.status
    case NotReached | NotPossible => (pf.(status := NotPossible), false)
    case Reached | NotStable => (pf, true)
  }

  // ---------------------------------------------------------------------------
  // Counts and bounds.

  /** `getNumUnEnumerated()`: unpruned confs not yet minimized.  It never goes negative while no
      more confs were minimized than were unpruned, and never exceeds the unpruned count. */
  function NumUnEnumerated(pf: PF): (r: int)
    ensures pf.minimizedConfs <= pf.unPrunedConfs ==> r >= 0
    ensures pf.minimizedConfs >= 0 ==> r <= pf.unPrunedConfs
    ensures r == 0 <==> pf.minimizedConfs == pf.unPrunedConfs
  {
    pf.unPrunedConfs - pf.minimizedConfs
  }

  /** `updateQPrime()`: every unenumerated conf is charged the weight of the last energy bound. */
  function UpdateQPrime(pf: PF, w: real -> real): (r: PF)
    ensures r == pf.(qPrime := w(pf.et) * (pf.unPrunedConfs - pf.minimizedConfs) as real)
  {
    pf.(qPrime := w(pf.et) * NumUnEnumerated(pf) as real)
  }

  /** `getUpperBound()`: q* once the approximation is reached, otherwise q* + q' with q' refreshed. */
  function UpperBound(pf: PF, w: real -> real): (r: (PF, real))
    ensures pf.status == Reached ==> r == (pf, pf.qStar)
    ensures pf.status != Reached ==>
      && r.0 == pf.(qPrime := w(pf.et) * (pf.unPrunedConfs - pf.minimizedConfs) as real)
      && r.1 == pf.qStar + w(pf.et) * (pf.unPrunedConfs - pf.minimizedConfs) as real
  {
    if pf.status == Reached then (pf, pf.qStar)
    else
      var pf' := UpdateQPrime(pf, w);
      (pf', pf'.qStar + pf'.qPrime)
  }

  /** The lower bound `getLowerBound()` (q*) never exceeds the upper bound while the weights are
      nonnegative and no more confs were minimized than were unpruned. */
  lemma LowerBoundBelowUpperBound(pf: PF, w: real -> real)
    requires w(pf.et) >= 0.0 && pf.minimizedConfs <= pf.unPrunedConfs
    ensures pf.qStar <= UpperBound(pf, w).1
  {
  }

  // ---------------------------------------------------------------------------
  // The top-conformation buffer.

  /** The head of the top-conf priority queue.  The queue's comparator (`KSConfMinEComparator`)
      is not part of this model; the head is taken to be a conf of highest energy, the only order
      under which `saveTopConf` keeps the lowest-energy confs (`SaveTopConfKeepsLowest`).  Among
      confs of equal energy the first is chosen; the energy-level properties below do not depend
      on which. */
  function HeadIndex(buf: seq<KSConf>): (k: nat)
    requires |buf| > 0
    ensures k < |buf|
    ensures forall j | 0 <= j < |buf| :: buf[j].energy <= buf[k].energy
  {
    if |buf| == 1 then 0
    else
      var k' := HeadIndex(buf[1..]) + 1;
      assert forall j | 1 <= j < |buf| :: buf[j] == buf[1..][j - 1];
      if buf[0].energy >= buf[k'].energy then 0 else k'
  }

  function RemoveAt(buf: seq<KSConf>, k: nat): (r: seq<KSConf>)
    requires k < |buf|
    ensures |r| == |buf| - 1
    ensures multiset(r) == multiset(buf) - multiset{buf[k]}
  {
    assert buf == buf[..k] + [buf[k]] + buf[k + 1..];
    buf[..k] + buf[k + 1..]
  }

  /** `saveTopConf(conf)`: while the buffer has room the conf is added; once it is full the conf
      replaces the head only if its energy is below the head's.  A full buffer with no head (a
      capacity of zero or less) dereferences a null head. */
  function SaveTopConf(buf: seq<KSConf>, cap: int, conf: KSConf): (r: Result<seq<KSConf>, Error>)
    ensures r.Failure? <==> |buf| == 0 && cap <= 0
    ensures |buf| < cap ==> r == Success(buf + [conf])
    ensures r.Success? && |buf| >= cap ==>
      var h := HeadIndex(buf);
      if conf.energy < buf[h].energy then
        && multiset(r.value) == multiset(buf) - multiset{buf[h]} + multiset{conf}
        && |r.value| == |buf|
      else r.value == buf
    ensures r.Success? && 1 <= cap && |buf| <= cap ==> |r.value| <= cap
  {
    if |buf| >= cap then
      if |buf| == 0 then Failure(NullPointer)
      else
        var h := HeadIndex(buf);
        if buf[h].energy > conf.energy then Success(RemoveAt(buf, h) + [conf]) else Success(buf)
    else Success(buf + [conf])
  }

  /** The conf `saveTopConf` drops, if any: the displaced head or the rejected newcomer. */
  function DroppedConf(buf: seq<KSConf>, cap: int, conf: KSConf): Option<KSConf> {
    if |buf| >= cap && |buf| > 0 then
      var h := HeadIndex(buf);
      if buf[h].energy > conf.energy then Some(buf[h]) else Some(conf)
    else None
  }

  function OptionSeq(o: Option<KSConf>): seq<KSConf> {
    if o.Some? then [o.value] else []
  }

  /** Every kept conf has energy at most that of every dropped one, and nothing is lost: the kept
      confs and the dropped ones are exactly the confs ever offered. */
  predicate KeepsLowest(kept: seq<KSConf>, dropped: seq<KSConf>) {
    forall a, b | a in kept && b in dropped :: a.energy <= b.energy
  }

  /** Nothing offered to the buffer is lost: the kept confs and the dropped one are the old
      contents and the newcomer. */
  lemma SaveTopConfConserves(buf: seq<KSConf>, cap: int, conf: KSConf)
    requires SaveTopConf(buf, cap, conf).Success?
    ensures multiset(SaveTopConf(buf, cap, conf).value) + multiset(OptionSeq(DroppedConf(buf, cap, conf)))
      == multiset(buf) + multiset{conf}
  {
  }

  /** Once something was dropped the buffer stays full, and every kept conf has energy at most
      that of every dropped one. */
  lemma SaveTopConfKeepsLowest(buf: seq<KSConf>, cap: int, conf: KSConf, dropped: seq<KSConf>)
    requires SaveTopConf(buf, cap, conf).Success?
    requires KeepsLowest(buf, dropped)
    requires |dropped| > 0 ==> |buf| >= cap
    ensures KeepsLowest(SaveTopConf(buf, cap, conf).value, dropped + OptionSeq(DroppedConf(buf, cap, conf)))
    ensures |dropped + OptionSeq(DroppedConf(buf, cap, conf))| > 0 ==> |SaveTopConf(buf, cap, conf).value| >= cap
  {
    if |buf| >= cap && |buf| > 0 {
      var h := HeadIndex(buf);
      if buf[h].energy > conf.energy {
        ReplacedHeadKeepsLowest(buf, h, conf, dropped);
      } else {
        RejectedKeepsLowest(buf, h, conf, dropped);
      }
    }
  }

  lemma ReplacedHeadKeepsLowest(buf: seq<KSConf>, h: nat, conf: KSConf, dropped: seq<KSConf>)
    requires h < |buf| && forall j | 0 <= j < |buf| :: buf[j].energy <= buf[h].energy
    requires conf.energy < buf[h].energy
    requires KeepsLowest(buf, dropped)
    ensures KeepsLowest(RemoveAt(buf, h) + [conf], dropped + [buf[h]])
  {
    var kept := RemoveAt(buf, h) + [conf];
    forall a, b | a in kept && b in dropped + [buf[h]] ensures a.energy <= b.energy {
      if a == conf {
        assert buf[h].energy <= b.energy by {
          if b in dropped { assert buf[h] in buf; }
        }
      } else {
        assert a in buf by {
          assert a in RemoveAt(buf, h);
          assert a in multiset(RemoveAt(buf, h));
        }
        var j :| 0 <= j < |buf| && buf[j] == a;
      }
    }
  }

  lemma RejectedKeepsLowest(buf: seq<KSConf>, h: nat, conf: KSConf, dropped: seq<KSConf>)
    requires h < |buf| && forall j | 0 <= j < |buf| :: buf[j].energy <= buf[h].energy
    requires conf.energy >= buf[h].energy
    requires KeepsLowest(buf, dropped)
    ensures KeepsLowest(buf, dropped + [conf])
  {
    forall a, b | a in buf && b in dropped + [conf] ensures a.energy <= b.energy {
      var j :| 0 <= j < |buf| && buf[j] == a;
    }
  }

  // ---------------------------------------------------------------------------
  // Adjusting q* for the undefined positions of a partial sequence.

  /** The positions `0 .. numPos-1` left after removing the flexible-residue indexes, in order. */
  function UndefinedPositions(numPos: nat, flexResIndexes: seq<int>): (r: seq<nat>)
    ensures forall p: int :: p in r <==> 0 <= p < numPos && p !in flexResIndexes
    ensures forall i | 0 <= i < |r| :: r[i] < numPos
    ensures forall i, j | 0 <= i < j < |r| :: r[i] < r[j]
  {
    if numPos == 0 then []
    else
      var rest := UndefinedPositions(numPos - 1, flexResIndexes);
      if (numPos - 1) in flexResIndexes then rest
      else
        assert forall i | 0 <= i < |rest| :: rest[i] < numPos - 1;
        rest + [numPos - 1]
  }

  /** `rcNumAtPos`: the minimum (rigid side chains) or maximum (continuous flexibility) of the
      unpruned-RC counts over the allowed amino acids, started at `Integer.MAX_VALUE` or
      `Integer.MIN_VALUE`. */
  function RCNumAtPos(counts: seq<int>, minimize: bool): (r: int)
    ensures |counts| == 0 ==> r == (if minimize then IntMax else IntMin)
    ensures (forall k | 0 <= k < |counts| :: IsInt32(counts[k])) && |counts| > 0 ==>
      && (exists k | 0 <= k < |counts| :: r == counts[k])
      && (forall k | 0 <= k < |counts| :: if minimize then r <= counts[k] else r >= counts[k])
  {
    if |counts| == 0 then (if minimize then IntMax else IntMin)
    else
      var rest := RCNumAtPos(counts[..|counts| - 1], minimize);
      var c := counts[|counts| - 1];
      assert forall k | 0 <= k < |counts| - 1 :: counts[..|counts| - 1][k] == counts[k];
      if minimize then (if rest <= c then rest else c) else (if rest >= c then rest else c)
  }

  /** The unpruned-RC counts of one position for each allowed amino acid. */
  function CountsAt(pos: nat, aas: seq<string>, numUnpruned: (nat, string) -> int): (r: seq<int>)
    ensures |r| == |aas|
    ensures forall k | 0 <= k < |aas| :: r[k] == numUnpruned(pos, aas[k])
  {
    seq(|aas|, k requires 0 <= k < |aas| => numUnpruned(pos, aas[k]))
  }

  /** The factor position `p` contributes to the product. */
  function PosFactor(p: nat, allowedAAs: seq<seq<string>>, numUnpruned: (nat, string) -> int, minimize: bool): int
    requires p < |allowedAAs|
  {
    RCNumAtPos(CountsAt(p, allowedAAs[p], numUnpruned), minimize)
  }

  function ProductOver(positions: seq<nat>, allowedAAs: seq<seq<string>>,
                       numUnpruned: (nat, string) -> int, minimize: bool): int
    requires forall i | 0 <= i < |positions| :: positions[i] < |allowedAAs|
  {
    if |positions| == 0 then 1
    else
      ProductOver(positions[..|positions| - 1], allowedAAs, numUnpruned, minimize)
        * PosFactor(positions[|positions| - 1], allowedAAs, numUnpruned, minimize)
  }

  lemma MulZeroIff(a: int, b: int)
    ensures a * b == 0 <==> a == 0 || b == 0
  {
  }

  /** `productUndefinedRots()`: the product of `rcNumAtPos` over the undefined positions. */
  function ProductUndefinedRots(numPos: nat, flexResIndexes: seq<int>, allowedAAs: seq<seq<string>>,
                                numUnpruned: (nat, string) -> int, contSCFlex: bool): (r: int)
    requires numPos <= |allowedAAs|
    ensures (forall p | 0 <= p < numPos && p !in flexResIndexes :: PosFactor(p, allowedAAs, numUnpruned, !contSCFlex) == 1)
            ==> r == 1
  {
    var positions := UndefinedPositions(numPos, flexResIndexes);
    assert forall i | 0 <= i < |positions| :: positions[i] in positions;
    ProductOfOnes(positions, allowedAAs, numUnpruned, !contSCFlex);
    ProductOver(positions, allowedAAs, numUnpruned, !contSCFlex)
  }

  /** A product of factors that are all 1 is 1 (every undefined position has a single RC). */
  lemma {:induction false} ProductOfOnes(positions: seq<nat>, allowedAAs: seq<seq<string>>,
                                         numUnpruned: (nat, string) -> int, minimize: bool)
    requires forall i | 0 <= i < |positions| :: positions[i] < |allowedAAs|
    ensures (forall i | 0 <= i < |positions| :: PosFactor(positions[i], allowedAAs, numUnpruned, minimize) == 1)
            ==> ProductOver(positions, allowedAAs, numUnpruned, minimize) == 1
  {
    if |positions| > 0 {
      ProductOfOnes(positions[..|positions| - 1], allowedAAs, numUnpruned, minimize);
    }
  }

  /** The product is zero exactly when some undefined position has no unpruned RC for its best
      amino acid. */
  lemma {:induction false} ProductOverZeroIff(positions: seq<nat>, allowedAAs: seq<seq<string>>,
                                              numUnpruned: (nat, string) -> int, minimize: bool)
    requires forall i | 0 <= i < |positions| :: positions[i] < |allowedAAs|
    ensures ProductOver(positions, allowedAAs, numUnpruned, minimize) == 0
      <==> exists i | 0 <= i < |positions| :: PosFactor(positions[i], allowedAAs, numUnpruned, minimize) == 0
  {
    if |positions| > 0 {
      var n := |positions| - 1;
      var init := positions[..n];
      ProductOverZeroIff(init, allowedAAs, numUnpruned, minimize);
      MulZeroIff(ProductOver(init, allowedAAs, numUnpruned, minimize),
                 PosFactor(positions[n], allowedAAs, numUnpruned, minimize));
      assert forall i | 0 <= i < |init| :: init[i] == positions[i];
    }
  }

  lemma ProductUndefinedRotsZeroIff(numPos: nat, flexResIndexes: seq<int>, allowedAAs: seq<seq<string>>,
                                    numUnpruned: (nat, string) -> int, contSCFlex: bool)
    requires numPos <= |allowedAAs|
    ensures ProductUndefinedRots(numPos, flexResIndexes, allowedAAs, numUnpruned, contSCFlex) == 0
      <==> exists p :: 0 <= p < numPos && p !in flexResIndexes
             && PosFactor(p, allowedAAs, numUnpruned, !contSCFlex) == 0
  {
    var positions := UndefinedPositions(numPos, flexResIndexes);
    ProductOverZeroIff(positions, allowedAAs, numUnpruned, !contSCFlex);
    if ProductOver(positions, allowedAAs, numUnpruned, !contSCFlex) == 0 {
      var i :| 0 <= i < |positions| && PosFactor(positions[i], allowedAAs, numUnpruned, !contSCFlex) == 0;
      assert positions[i] in positions;
    } else {
      forall p | 0 <= p < numPos && p !in flexResIndexes
        ensures PosFactor(p, allowedAAs, numUnpruned, !contSCFlex) != 0
      {
        assert p in positions;
        var i :| 0 <= i < |positions| && positions[i] == p;
      }
    }
  }

  /** `adjustQStar()`: q* is scaled by the undefined-rotamer product only once the approximation
      is reached, for a partial sequence, and when the product is nonzero. */
  function AdjustQStar(pf: PF, fullyDefined: bool, product: int): (r: PF)
    ensures pf.status == Reached && !fullyDefined && product != 0 ==> r == pf.(qStar := pf.qStar * product as real)
    ensures !(pf.status == Reached && !fullyDefined && product != 0) ==> r == pf
  {
    if pf.status != Reached then pf
    else if fullyDefined then pf
    else if product == 0 then pf
    else pf.(qStar := pf.qStar * product as real)
  }

  // ---------------------------------------------------------------------------
  // Restart: widen the pruning window until few enough confs are pruned.

  function Min(a: real, b: real): real {
    if a <= b then a else b
  }

  /** The pruning window after `j` widening steps from `start`. */
  function WindowAt(start: real, j: nat): real {
    Min(start + j as real, 100.0)
  }

  function Ceil(x: real): int {
    -((-x).Floor)
  }

  /** `BigDecimal.toBigInteger()`: truncation toward zero. */
  function TruncTowardZero(x: real): (r: int)
    ensures x >= 0.0 ==> r as real <= x < r as real + 1.0
    ensures x < 0.0 ==> r as real - 1.0 < x <= r as real
  {
    if x >= 0.0 then x.Floor else -((-x).Floor)
  }

  /** The do-while of `restart()`: raise the window by one (capped at 100), re-prune and count the
      pruned confs, until the count is within the target or the window reached 100. */
  method WidenPruningWindow(start: real, target: int, numPrunedAt: real -> int)
    returns (interval: real, numPruned: int, steps: nat)
    ensures steps >= 1 && interval == WindowAt(start, steps)
    ensures numPruned == numPrunedAt(interval)
    ensures numPruned <= target || interval >= 100.0
    ensures forall j | 1 <= j < steps :: numPrunedAt(WindowAt(start, j)) > target && WindowAt(start, j) < 100.0
  {
    steps := 1;
    interval := WindowAt(start, 1);
    numPruned := numPrunedAt(interval);
    while numPruned > target && interval < 100.0
      invariant steps >= 1 && interval == WindowAt(start, steps)
      invariant numPruned == numPrunedAt(interval)
      invariant forall j | 1 <= j < steps :: numPrunedAt(WindowAt(start, j)) > target && WindowAt(start, j) < 100.0
      decreases Ceil(100.0 - interval)
    {
      interval := Min(interval + 1.0, 100.0);
      steps := steps + 1;
      numPruned := numPrunedAt(interval);
    }
  }

  /** The number of pruned confs `restart()` aims for.  With `x = q* rho / B(E0)` the count of
      confs that may stay pruned, the target is the integer just below `x` (in `[x - 1, x)`) as
      long as `prunedConfs - x + 1` is nonnegative; past that the truncation rounds the other way
      and the target lies in `(x - 2, x - 1]`. */
  function PruningTarget(pf: PF, rho: real, bE0: real): (r: int)
    requires bE0 != 0.0
    ensures var x := (pf.qStar * rho) / bE0;
      pf.prunedConfs as real - x + 1.0 >= 0.0 ==> x - 1.0 <= r as real < x
    ensures var x := (pf.qStar * rho) / bE0;
      pf.prunedConfs as real - x + 1.0 < 0.0 ==> x - 2.0 < r as real <= x - 1.0
  {
    var l := pf.prunedConfs as real - (pf.qStar * rho) / bE0;
    pf.prunedConfs - TruncTowardZero(l + 1.0)
  }

  /** `restart()`, given the (pruned, unpruned) conf counts that pruning with a window produces.
      The restart itself (`start()`) is not part of this model.  A target epsilon of exactly 1
      makes rho infinite, which `BigDecimal.valueOf` rejects. */
  method Restart(pf: PF, targetEpsilon: real, w: real -> real, countsAt: real -> (int, int))
    returns (r: Result<PF, Error>)
    ensures targetEpsilon == 1.0 <==> r == Failure(NumberFormat)
    ensures r.Failure? ==> r.error == NumberFormat
    ensures r.Success? && w(pf.e0) == 0.0 ==>
      r.value == pf.(status := NotReached, pruningInterval := 100.0,
                     prunedConfs := countsAt(100.0).0, unPrunedConfs := countsAt(100.0).1,
                     printedHeader := false, restarted := true, minimizedConfs := 0, minimizingConfs := 0)
    ensures r.Success? && w(pf.e0) != 0.0 ==>
      var target := PruningTarget(pf, targetEpsilon / (1.0 - targetEpsilon), w(pf.e0));
      var window := r.value.pruningInterval;
      && (exists n: nat | n >= 1 :: window == WindowAt(pf.pruningInterval, n)
            && forall j | 1 <= j < n ::
                 countsAt(WindowAt(pf.pruningInterval, j)).0 > target && WindowAt(pf.pruningInterval, j) < 100.0)
      && (countsAt(window).0 <= target || window >= 100.0)
      && (r.value.status == NotPossible <==> countsAt(window).0 > target)
      && (r.value.status == NotPossible ==> r.value == pf.(status := NotPossible, pruningInterval := window))
      && (r.value.status != NotPossible ==>
            r.value == pf.(status := NotReached, pruningInterval := window,
                           prunedConfs := countsAt(window).0, unPrunedConfs := countsAt(window).1,
                           printedHeader := false, restarted := true, minimizedConfs := 0, minimizingConfs := 0))
  {
    if targetEpsilon == 1.0 {
      return Failure(NumberFormat);
    }
    var rho := targetEpsilon / (1.0 - targetEpsilon);
    var bE0 := w(pf.e0);
    var interval := pf.pruningInterval;
    if bE0 == 0.0 {
      interval := 100.0;
    } else {
      var target := PruningTarget(pf, rho, bE0);
      var numPruned, steps;
      interval, numPruned, steps := WidenPruningWindow(pf.pruningInterval, target, (i: real) => countsAt(i).0);
      if numPruned > target {
        return Success(pf.(status := NotPossible, pruningInterval := interval));
      }
    }
    var counts := countsAt(interval);
    r := Success(pf.(status := NotReached, pruningInterval := interval,
                     prunedConfs := counts.0, unPrunedConfs := counts.1,
                     printedHeader := false, restarted := true, minimizedConfs := 0, minimizingConfs := 0));
  }

  // ---------------------------------------------------------------------------
  // Parameter setters.

  /** `setNumPEs`: clamp a requested thread or fiber count to `[1, availableProcessors]`. */
  function SetNumPEs(requested: int, available: int): (r: int)
    ensures available >= 1 ==> 1 <= r <= available
    ensures 1 <= requested <= available ==> r == requested
    ensures requested < 1 ==> r == 1
    ensures requested >= 1 && requested > available ==> r == available
  {
    if requested < 1 then 1 else if requested > available then available else requested
  }

  lemma SetNumPEsIdempotent(requested: int, available: int)
    requires available >= 1
    ensures SetNumPEs(SetNumPEs(requested, available), available) == SetNumPEs(requested, available)
  {
  }

  /** `setConfsThreadBuffer`: only positive values replace the current buffer size. */
  function SetConfsThreadBuffer(current: int, requested: int): (r: int)
    ensures requested > 0 ==> r == requested
    ensures requested <= 0 ==> r == current
    ensures current > 0 ==> r > 0
  {
    if requested > 0 then requested else current
  }

  /** `setNumRemoteClients`: at most one client per server, counting an empty list as one server. */
  function SetNumRemoteClients(clients: int, servers: seq<string>): (r: int)
    ensures r <= clients
    ensures r <= (if |servers| == 0 then 1 else |servers|)
    ensures r == clients || r == (if |servers| == 0 then 1 else |servers|)
  {
    var nServers := if |servers| == 0 then 1 else |servers|;
    if clients > nServers then nServers else clients
  }

  /** `setStabilityThresh`: negative thresholds become 0. */
  function SetStabilityThresh(threshold: real): (r: real)
    ensures r >= 0.0
    ensures threshold >= 0.0 ==> r == threshold
    ensures threshold < 0.0 ==> r == 0.0
  {
    if threshold < 0.0 then 0.0 else threshold
  }

  /** `setMaxKSconfs`: values below 1 become 1. */
  function SetMaxKSConfs(requested: int): (r: int)
    ensures r >= 1
    ensures requested >= 1 ==> r == requested
    ensures requested < 1 ==> r == 1
  {
    if requested < 1 then 1 else requested
  }

  /** Setting a value the setters already accepted keeps it: each clamp is idempotent. */
  lemma SettersIdempotent(threshold: real, requested: int)
    ensures SetStabilityThresh(SetStabilityThresh(threshold)) == SetStabilityThresh(threshold)
    ensures SetMaxKSConfs(SetMaxKSConfs(requested)) == SetMaxKSConfs(requested)
  {
  }

  /** `maxKSConfsReached()`. */
  function MaxKSConfsReached(s: Settings, pf: PF): (r: bool)
    ensures 0 <= pf.minimizedConfs < 0x8000_0000_0000_0000 ==>
      (r <==> s.useMaxKSConfs && pf.minimizedConfs >= s.maxKSConfs)
  {
    s.useMaxKSConfs && LongValue(pf.minimizedConfs) >= s.maxKSConfs
  }

  const PFuncMethods: set<string> := {"trad", "new00", "new01", "new02", "new03", "new04"}

  /** `setCFGImpl`: the name is checked case-insensitively and stored as given. */
  function SetCFGImpl(implementation: string): (r: Result<string, Error>)
    ensures r.Success? <==> ToLower(implementation) in PFuncMethods
    ensures r.Success? ==> r.value == implementation
    ensures r.Failure? ==> r.error == InvalidPFuncMethod
  {
    if ToLower(implementation) in PFuncMethods then Success(implementation) else Failure(InvalidPFuncMethod)
  }

  /** The method names are already lower case. */
  lemma MethodsAreLowerCase()
    ensures forall m | m in PFuncMethods :: ToLower(m) == m
  {
    assert ToLower("trad") == "trad";
    assert ToLower("new00") == "new00";
    assert ToLower("new01") == "new01";
    assert ToLower("new02") == "new02";
    assert ToLower("new03") == "new03";
    assert ToLower("new04") == "new04";
  }

  /** Every spelling of a method name that differs from it only in letter case is accepted and
      stored as spelled ("TRAD", "New03", ...). */
  lemma SetCFGImplAcceptsAnyCase(implementation: string, m: string)
    requires m in PFuncMethods && EqualsIgnoreCase(implementation, m)
    ensures SetCFGImpl(implementation) == Success(implementation)
  {
    MethodsAreLowerCase();
  }

  /** Every name that matches no method name in any letter case is rejected ("new05", ""). */
  lemma SetCFGImplRejectsUnknown(implementation: string)
    requires forall m | m in PFuncMethods :: !EqualsIgnoreCase(implementation, m)
    ensures SetCFGImpl(implementation) == Failure(InvalidPFuncMethod)
  {
    MethodsAreLowerCase();
    forall m | m in PFuncMethods
      ensures ToLower(implementation) != m
    {
      assert !EqualsIgnoreCase(implementation, m);
    }
  }
}
