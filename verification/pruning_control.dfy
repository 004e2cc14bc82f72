/** The DEE fixed-point driver (`PruningControl.prune`).

    The pruning matrix is the pair of sets of pruned RCs and pruned RC pairs, drawn from a
    finite universe.  A pruning pass of the `Pruner` is an abstract step that only ever adds
    flags and stays inside the universe; that is what makes the repeat-until-no-change loop
    terminate. */
module PruningControl {

  /** The pruned RCs and pruned pairs of the pruning matrix, each identified by an integer id. */
  datatype PruneState = PruneState(rcs: set<int>, pairs: set<int>)

  /** The passes `prune` runs: "GOLDSTEIN" every run, "GOLDSTEIN PAIRS FULL" on a stalled run. */
  datatype PassKind = Goldstein | GoldsteinPairsFull

  datatype Config = Config(algOption: int, useFlags: bool, preDACS: bool)

  datatype RunResult = RunResult(state: PruneState, ranFullPairsPass: bool)

  predicate Within(s: PruneState, universe: PruneState) {
    s.rcs <= universe.rcs && s.pairs <= universe.pairs
  }

  /** A pruner pass only adds flags, and only flags of the universe. */
  ghost predicate Monotone(step: (PassKind, PruneState) -> PruneState, universe: PruneState) {
    forall k: PassKind, s: PruneState | Within(s, universe) ::
      && Within(step(k, s), universe)
      && s.rcs <= step(k, s).rcs
      && s.pairs <= step(k, s).pairs
  }

  /** Pair counts are taken only when pair pruning is performed. */
  predicate TracksPairs(c: Config) {
    c.useFlags || c.algOption >= 3
  }

  /** `countPrunedPairs()` when pair pruning is performed, and 0 otherwise. */
  function PairCount(c: Config, s: PruneState): nat {
    if TracksPairs(c) then |s.pairs| else 0
  }

  /** One run of the loop body, given the counts recorded after the previous run. */
  function RunOnce(c: Config, step: (PassKind, PruneState) -> PruneState, s: PruneState,
                   numPrunedRot: int, numPrunedPairs: int): (r: RunResult)
    ensures r.ranFullPairsPass <==>
      && |step(Goldstein, s).rcs| == numPrunedRot
      && PairCount(c, step(Goldstein, s)) == numPrunedPairs
      && !c.preDACS
      && c.algOption >= 3
    ensures r.state == if r.ranFullPairsPass then step(GoldsteinPairsFull, step(Goldstein, s)) else step(Goldstein, s)
  {
    var afterSingles := step(Goldstein, s);
    if |afterSingles.rcs| == numPrunedRot && PairCount(c, afterSingles) == numPrunedPairs && !c.preDACS then
      if c.algOption >= 3 then RunResult(step(GoldsteinPairsFull, afterSingles), true)
      else RunResult(afterSingles, false)
    else RunResult(afterSingles, false)
  }

  lemma SubsetSameSizeEqual(a: set<int>, b: set<int>)
    requires a <= b && |b| <= |a|
    ensures a == b
  {
    assert b == a + (b - a);
    assert |b - a| == 0;
  }

  lemma SubsetSize(a: set<int>, b: set<int>)
    requires a <= b
    ensures |a| <= |b|
  {
    assert b == a + (b - a);
  }

  /** `prune()`: repeat runs until a run prunes no new RC and no new (tracked) pair.  Returns the
      final pruning state and the state the final run started from, with the counts recorded
      before that run. */
  method Prune(c: Config, step: (PassKind, PruneState) -> PruneState, universe: PruneState, s0: PruneState)
    returns (s: PruneState, last: PruneState, lastRot: int, lastPairs: int)
    requires Monotone(step, universe)
    requires Within(s0, universe)
    ensures Within(s, universe) && s0.rcs <= s.rcs && s0.pairs <= s.pairs
    ensures s == RunOnce(c, step, last, lastRot, lastPairs).state
    ensures |s.rcs| == lastRot && PairCount(c, s) == lastPairs
    ensures last.rcs == s.rcs
    ensures TracksPairs(c) ==> last.pairs == s.pairs
    ensures TracksPairs(c) ==> RunOnce(c, step, s, |s.rcs|, PairCount(c, s)).state == s
  {
    var done := false;
    var numPrunedRot, numPrunedPairs := 0, 0;
    s := s0;
    last, lastRot, lastPairs := s0, 0, 0;
    while !done
      invariant Within(s, universe) && s0.rcs <= s.rcs && s0.pairs <= s.pairs
      invariant 0 <= numPrunedRot <= |s.rcs|
      invariant TracksPairs(c) ==> 0 <= numPrunedPairs <= |s.pairs|
      invariant !TracksPairs(c) ==> numPrunedPairs == 0
      invariant done ==> && Within(last, universe)
                         && s == RunOnce(c, step, last, lastRot, lastPairs).state
                         && |s.rcs| == lastRot && PairCount(c, s) == lastPairs
                         && last.rcs <= s.rcs && last.pairs <= s.pairs
                         && lastRot <= |last.rcs|
                         && (TracksPairs(c) ==> lastPairs <= |last.pairs|)
      decreases if done then 0 else 1, (|universe.rcs| - numPrunedRot) + (|universe.pairs| - numPrunedPairs)
    {
      SubsetSize(s.rcs, universe.rcs);
      SubsetSize(s.pairs, universe.pairs);
      var prev := s;
      var run := RunOnce(c, step, s, numPrunedRot, numPrunedPairs);
      var afterSingles := step(Goldstein, s);
      assert Within(afterSingles, universe);
      s := run.state;
      assert Within(s, universe) && prev.rcs <= s.rcs && prev.pairs <= s.pairs;
      SubsetSize(prev.rcs, s.rcs);
      SubsetSize(prev.pairs, s.pairs);
      SubsetSize(s.rcs, universe.rcs);
      SubsetSize(s.pairs, universe.pairs);
      var newNumPrunedRot := |s.rcs|;
      var newNumPrunedPairs := PairCount(c, s);
      if newNumPrunedRot - numPrunedRot == 0 && newNumPrunedPairs - numPrunedPairs == 0 {
        done := true;
        last, lastRot, lastPairs := prev, numPrunedRot, numPrunedPairs;
      }
      numPrunedRot, numPrunedPairs := newNumPrunedRot, newNumPrunedPairs;
    }
    SubsetSize(last.rcs, s.rcs);
    SubsetSameSizeEqual(last.rcs, s.rcs);
    if TracksPairs(c) {
      SubsetSize(last.pairs, s.pairs);
      SubsetSameSizeEqual(last.pairs, s.pairs);
    }
  }
}
