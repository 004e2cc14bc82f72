/** The conformation-search factory built from a configuration (`ConfSearchFactory.Tools
    .makeFromConfig(...).make`): which tree, heuristic scorer, node order and MPLP updater a
    search uses.  The trees themselves are not part of this model; the result names the choice. */
module ConfSearchFactory {
  import opened Wrappers
  import opened Strings

  datatype Updater = NodeUpdater | EdgeUpdater

  datatype HScorer =
    | TraditionalPairwise
    | MPLPPairwise(updater: Updater, numIters: int, convergenceThreshold: real)

  datatype Order = DynamicHMean | StaticScoreHMean

  /** The search `make` returns: the old full `ConfTree`, its multi-sequence variant, or a
      `ConfAStarTree` with a pairwise g-scorer and the chosen h-scorer and order. */
  datatype Search =
    | FullConfTree
    | FullMultiSequenceTree
    | AStarTree(hscorer: HScorer, order: Order, threads: int)

  /** The facts `make` consults, already read from the matrices, search problem and parameters. */
  datatype Request = Request(
    ematNumPos: int,
    pmatNumPos: int,
    needsHigherOrderTerms: bool,
    useEPIC: bool,
    hasGMECMutFile: bool,
    isMultiSequence: bool,
    fullyAssigned: bool,
    numMPLPIters: int,
    mplpAlg: string,
    convergenceThreshold: real,
    astarThreads: int)

  datatype Error = MatrixMismatch

  /** Whether the old A* code is needed: higher-order terms, EPIC, or a GMEC mutation file. */
  predicate NeedsFullTree(q: Request) {
    q.needsHigherOrderTerms || q.useEPIC || q.hasGMECMutFile
  }

  function Make(q: Request): (r: Result<Search, Error>)
    ensures r.Failure? <==> q.ematNumPos != q.pmatNumPos
    ensures r == Success(FullConfTree) <==> q.ematNumPos == q.pmatNumPos && NeedsFullTree(q)
    ensures r == Success(FullMultiSequenceTree) <==>
      q.ematNumPos == q.pmatNumPos && !NeedsFullTree(q) && q.isMultiSequence && !q.fullyAssigned
    ensures r.Success? && r.value.AStarTree? ==>
      && (r.value.hscorer.TraditionalPairwise? <==> q.numMPLPIters <= 0)
      && (r.value.order == DynamicHMean <==> q.numMPLPIters <= 0)
      && (r.value.hscorer.MPLPPairwise? ==>
            (r.value.hscorer.updater == NodeUpdater <==> EqualsIgnoreCase(q.mplpAlg, "node")))
      && (r.value.hscorer.MPLPPairwise? ==>
            r.value.hscorer.numIters == q.numMPLPIters && r.value.hscorer.convergenceThreshold == q.convergenceThreshold)
      && r.value.threads == q.astarThreads
  {
    if q.ematNumPos != q.pmatNumPos then Failure(MatrixMismatch)
    else if NeedsFullTree(q) then Success(FullConfTree)
    else if q.isMultiSequence && !q.fullyAssigned then Success(FullMultiSequenceTree)
    else if q.numMPLPIters <= 0 then Success(AStarTree(TraditionalPairwise, DynamicHMean, q.astarThreads))
    else
      var updater := if EqualsIgnoreCase(q.mplpAlg, "node") then NodeUpdater else EdgeUpdater;
      Success(AStarTree(MPLPPairwise(updater, q.numMPLPIters, q.convergenceThreshold), StaticScoreHMean, q.astarThreads))
  }

  /** A pairwise A* tree is built exactly when the matrices agree and neither special tree is
      needed, and then the order always matches the scorer: dynamic for the traditional heuristic,
      static for MPLP. */
  lemma AStarOrderMatchesScorer(q: Request)
    ensures Make(q).Success? && Make(q).value.AStarTree? <==>
      q.ematNumPos == q.pmatNumPos && !NeedsFullTree(q) && !(q.isMultiSequence && !q.fullyAssigned)
    ensures Make(q).Success? && Make(q).value.AStarTree? ==>
      (Make(q).value.order == DynamicHMean <==> Make(q).value.hscorer == TraditionalPairwise)
  {
  }

  /** The higher-order case is checked first: with it, the multi-sequence flags and MPLP settings
      make no difference. */
  lemma FullTreeIgnoresLaterChoices(q: Request, multi: bool, isAssigned: bool, iters: int, alg: string)
    requires q.ematNumPos == q.pmatNumPos && NeedsFullTree(q)
    ensures Make(q.(isMultiSequence := multi, fullyAssigned := isAssigned, numMPLPIters := iters, mplpAlg := alg))
         == Make(q)
  {
  }

  /** Without MPLP iterations the MPLP algorithm name and threshold are never consulted. */
  lemma TraditionalIgnoresMPLPSettings(q: Request, alg: string, threshold: real)
    requires q.numMPLPIters <= 0
    ensures Make(q.(mplpAlg := alg, convergenceThreshold := threshold)) == Make(q)
  {
  }

  /** The updater name is compared without regard to case: every spelling of "node" selects
      the node updater, and every other name (including "edge") selects the edge updater. */
  lemma NodeUpdaterAnyCase(q: Request)
    requires q.ematNumPos == q.pmatNumPos && !NeedsFullTree(q) && !(q.isMultiSequence && !q.fullyAssigned)
    requires q.numMPLPIters > 0
    ensures EqualsIgnoreCase(q.mplpAlg, "node") ==> Make(q).value.hscorer.updater == NodeUpdater
    ensures !EqualsIgnoreCase(q.mplpAlg, "node") ==> Make(q).value.hscorer.updater == EdgeUpdater
    ensures Make(q.(mplpAlg := "NODE")) == Make(q.(mplpAlg := "node"))
    ensures Make(q.(mplpAlg := "edge")).value.hscorer.updater == EdgeUpdater
  {
    assert ToLower("NODE") == "node";
    assert ToLower("node") == "node";
    assert ToLower("edge") == "edge";
  }
}
