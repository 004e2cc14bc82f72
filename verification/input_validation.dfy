/** The sanity checks of a multistate design's configuration (`InputValidation`), over values that
    have already been read from the configuration files: the objective function and constraints,
    the agreement of the minimization flags across states, the per-state strand parameters, and
    the correspondence of the allowed amino acids between states.

    Each check returns `Pass` or the first error it meets, in the order the checks are made.
    Parsing of numbers, the parameter store and the PDB read are not part of this model: a
    parameter is given already parsed, and a missing parameter is `None` or a missing map key. */
module InputValidation {
  import opened Wrappers
  import opened Strings
  import opened JavaInt
  import DAminoAcidHandler

  datatype Error =
    | ObjFcnCoeffCount | ObjFcnZeroCoeff | ConstraintCoeffCount
    | NoStates | NullState | ImindeeMismatch | DoMinimizeMismatch
    | EpsilonRange | StrandConstrCount | TooFewStrands | StrandMutNumsCount | MissingStrandLine
    | MutNumsSum | MissingParam | DistinctMutCount(strand: int) | StrandTokens | StrandBounds
    | ResAllowedMissing | ResAllowedNotMutable | IndexOutOfBounds | StrandsOverlap
    | AACountMismatch(pos: int) | AAMismatch(pos: int)

  // ---------------------------------------------------------------------------
  // Objective function and constraints.

  /** `handleObjFcn`: exactly one coefficient per state, and none of them zero. */
  function HandleObjFcn(numStates: int, coeffs: seq<real>): (r: Outcome<Error>)
    ensures r.Pass? <==> |coeffs| == numStates && forall i | 0 <= i < |coeffs| :: coeffs[i] != 0.0
    ensures |coeffs| != numStates ==> r == Fail(ObjFcnCoeffCount)
    ensures r.Fail? && |coeffs| == numStates ==> r == Fail(ObjFcnZeroCoeff)
  {
    if |coeffs| != numStates then Fail(ObjFcnCoeffCount)
    else if exists i | 0 <= i < |coeffs| :: coeffs[i] == 0.0 then Fail(ObjFcnZeroCoeff)
    else Pass
  }

  /** `handleConstraints`: every constraint has exactly one coefficient per state. */
  function HandleConstraints(numStates: int, constraints: seq<seq<real>>): (r: Outcome<Error>)
    ensures r.Pass? <==> forall i | 0 <= i < |constraints| :: |constraints[i]| == numStates
    ensures r.Fail? ==> r == Fail(ConstraintCoeffCount)
  {
    if exists i | 0 <= i < |constraints| :: |constraints[i]| != numStates then Fail(ConstraintCoeffCount)
    else Pass
  }

  // ---------------------------------------------------------------------------
  // Minimization flags.

  /** The two flags of a state's parameters. */
  datatype MinimizeFlags = MinimizeFlags(imindee: bool, doMinimize: bool)

  /** What the check expects of one (non-null) state, given state 0's `DOMINIMIZE`. */
  predicate StateFlagsAgree(f: MinimizeFlags, doMinimize: bool) {
    f.imindee == f.doMinimize && f.doMinimize == doMinimize
  }

  /** The error the check raises for a state whose flags disagree. */
  function FlagsError(f: MinimizeFlags): Error {
    if f.imindee != f.doMinimize then ImindeeMismatch else DoMinimizeMismatch
  }

  /** The loop of `handleDoMinimize` from state `from` on; null states are skipped. */
  function DoMinimizeFrom(cfps: seq<Option<MinimizeFlags>>, doMinimize: bool, from: nat): (r: Outcome<Error>)
    requires from <= |cfps|
    ensures r.Pass? <==>
      forall k | from <= k < |cfps| :: cfps[k].Some? ==> StateFlagsAgree(cfps[k].value, doMinimize)
    ensures r.Fail? ==> exists k | from <= k < |cfps| ::
      && cfps[k].Some? && !StateFlagsAgree(cfps[k].value, doMinimize)
      && r.error == FlagsError(cfps[k].value)
      && (forall j | from <= j < k :: cfps[j].Some? ==> StateFlagsAgree(cfps[j].value, doMinimize))
    decreases |cfps| - from
  {
    if from == |cfps| then Pass
    else if cfps[from].Some? && !StateFlagsAgree(cfps[from].value, doMinimize) then Fail(FlagsError(cfps[from].value))
    else DoMinimizeFrom(cfps, doMinimize, from + 1)
  }

  /** `handleDoMinimize(cfps)`: state 0 must exist and sets the expected `DOMINIMIZE`; every
      non-null state needs `IMINDEE == DOMINIMIZE` and that same `DOMINIMIZE`. */
  function HandleDoMinimize(cfps: seq<Option<MinimizeFlags>>): (r: Outcome<Error>)
    ensures |cfps| == 0 ==> r == Fail(NoStates)
    ensures |cfps| > 0 && cfps[0].None? ==> r == Fail(NullState)
    ensures r.Pass? <==>
      && |cfps| > 0 && cfps[0].Some?
      && forall k | 0 <= k < |cfps| :: cfps[k].Some? ==> StateFlagsAgree(cfps[k].value, cfps[0].value.doMinimize)
  {
    if |cfps| == 0 then Fail(NoStates)
    else if cfps[0].None? then Fail(NullState)
    else DoMinimizeFrom(cfps, cfps[0].value.doMinimize, 0)
  }

  /** With the check passed, all non-null states share one `DOMINIMIZE` and one `IMINDEE`. */
  lemma DoMinimizeAgreement(cfps: seq<Option<MinimizeFlags>>, i: nat, j: nat)
    requires HandleDoMinimize(cfps).Pass?
    requires i < |cfps| && j < |cfps| && cfps[i].Some? && cfps[j].Some?
    ensures cfps[i].value == cfps[j].value
  {
  }

  // ---------------------------------------------------------------------------
  // Sorting the strand limits.

  predicate Sorted(s: seq<int>) {
    forall i, j | 0 <= i < j < |s| :: s[i] <= s[j]
  }

  function Insert(x: int, s: seq<int>): (r: seq<int>)
    requires Sorted(s)
    ensures Sorted(r) && multiset(r) == multiset(s) + multiset{x}
    ensures |r| == |s| + 1 && (r[0] == x || (|s| > 0 && r[0] == s[0]))
  {
    if |s| == 0 then [x]
    else if x <= s[0] then [x] + s
    else
      var rest := Insert(x, s[1..]);
      assert s == [s[0]] + s[1..];
      ConsSorted(s[0], rest);
      [s[0]] + rest
  }

  /** A value no larger than the head of a sorted list can go in front of it. */
  lemma ConsSorted(x: int, rest: seq<int>)
    requires Sorted(rest) && |rest| > 0 && x <= rest[0]
    ensures Sorted([x] + rest)
  {
    forall i, j | 0 <= i < j < |[x] + rest| ensures ([x] + rest)[i] <= ([x] + rest)[j] {
      assert ([x] + rest)[j] == rest[j - 1];
      if i > 0 {
        assert ([x] + rest)[i] == rest[i - 1];
      } else {
        assert rest[0] <= rest[j - 1];
      }
    }
  }

  /** `Collections.sort` on a list of integers. */
  function Sort(s: seq<int>): (r: seq<int>)
    ensures Sorted(r) && multiset(r) == multiset(s) && |r| == |s|
  {
    if |s| == 0 then []
    else
      assert s == [s[0]] + s[1..];
      Insert(s[0], Sort(s[1..]))
  }

  /** The first two entries of a sorted two-element list are its minimum and maximum. */
  lemma SortTwo(a: int, b: int)
    ensures Sort([a, b]) == [Min(a, b), Max(a, b)]
  {
    assert [a, b][1..] == [b];
    assert Sort([b]) == [b];
  }

  // ---------------------------------------------------------------------------
  // Strand parameters of one state.

  /** The parameters `handleStateParams` reads, already parsed: `strandMut[k]` and `strand[k]` are
      the tokens of `STRANDMUTk` and `STRANDk`, `resAllowed` maps a residue number to its
      `RESALLOWED` value, `listedStrandConstr` is the number of `STRANDCONSTR` parameters other than
      `NUMSTRANDCONSTR`, and `strandLineCount` the number of `STRANDk` lines with a numeric k. */
  datatype StateParams = StateParams(
    epsilon: real,
    numStrandConstr: int,
    listedStrandConstr: nat,
    numOfStrands: int,
    strandMutNums: seq<int>,
    strandLineCount: nat,
    strandMut: map<int, seq<int>>,
    strand: map<int, seq<int>>,
    resAllowed: map<int, string>)

  /** `STRANDMUTNUMS` summed with Java `int` addition. */
  function WrappedSum(s: seq<int>): (r: int)
    ensures IsInt32(r)
  {
    if |s| == 0 then 0 else Wrap32(WrappedSum(s[..|s| - 1]) + s[|s| - 1])
  }

  function Sum(s: seq<int>): int {
    if |s| == 0 then 0 else Sum(s[..|s| - 1]) + s[|s| - 1]
  }

  /** Two 32-bit values that agree modulo 2^32 are equal. */
  lemma Int32Congruent(a: int, b: int)
    requires IsInt32(a) && IsInt32(b) && (a - b) % 0x1_0000_0000 == 0
    ensures a == b
  {
  }

  /** Adding one term at a time with wrap-around is the 32-bit wrap of the true sum. */
  lemma {:induction false} WrappedSumIsWrap(s: seq<int>)
    ensures WrappedSum(s) == Wrap32(Sum(s))
  {
    if |s| > 0 {
      var init := s[..|s| - 1];
      WrappedSumIsWrap(init);
      var x := s[|s| - 1];
      var a := Wrap32(WrappedSum(init) + x);
      var b := Wrap32(Sum(init) + x);
      assert (a - b) % 0x1_0000_0000 == 0 by {
        assert (a - (WrappedSum(init) + x)) % 0x1_0000_0000 == 0;
        assert (b - (Sum(init) + x)) % 0x1_0000_0000 == 0;
        assert (WrappedSum(init) - Sum(init)) % 0x1_0000_0000 == 0;
        ModSum(a - (WrappedSum(init) + x), WrappedSum(init) - Sum(init), b - (Sum(init) + x));
      }
      Int32Congruent(a, b);
    }
  }

  /** Differences of multiples of the modulus are multiples of it. */
  lemma ModSum(p: int, q: int, t: int)
    requires p % 0x1_0000_0000 == 0 && q % 0x1_0000_0000 == 0 && t % 0x1_0000_0000 == 0
    ensures (p + q - t) % 0x1_0000_0000 == 0
  {
    var m := 0x1_0000_0000;
    assert p == (p / m) * m && q == (q / m) * m && t == (t / m) * m;
    assert p + q - t == (p / m + q / m - t / m) * m;
  }

  /** The distinct residues listed for strand k. */
  function MutSet(toks: seq<int>): set<int> {
    set x | x in toks
  }

  /** A `RESALLOWED` value is declared when it is present and nonempty. */
  predicate Declared(p: StateParams, res: int) {
    res in p.resAllowed && |p.resAllowed[res]| != 0
  }

  /** The bounds test as written: a residue below the lower limit and above the upper one. */
  predicate OutOfBoundsAsWritten(res: int, lims: seq<int>)
    requires |lims| == 2
  {
    var sorted := Sort(lims);
    res < sorted[0] && res > sorted[1]
  }

  /** The bounds test never rejects anything: no integer lies below the smaller of two limits and
      above the larger one. */
  lemma BoundsCheckNeverFires(res: int, lims: seq<int>)
    requires |lims| == 2
    ensures !OutOfBoundsAsWritten(res, lims)
  {
    SortTwo(lims[0], lims[1]);
    assert lims == [lims[0], lims[1]];
  }

  /** What strand k must satisfy, as the loop body checks it (the limits read are those of the
      state's own strand line, `STRAND` + state). */
  predicate StrandOk(p: StateParams, state: int, k: nat)
    requires k < |p.strandMutNums|
  {
    && k in p.strandMut
    && |MutSet(p.strandMut[k])| == p.strandMutNums[k]
    && state in p.strand && |p.strand[state]| == 2
    && (forall res | res in MutSet(p.strandMut[k]) :: !OutOfBoundsAsWritten(res, p.strand[state]))
    && (forall res | res in MutSet(p.strandMut[k]) :: Declared(p, res))
  }

  /** The loop body for strand k: the residues it adds to the global list, or the error. */
  function CheckStrand(p: StateParams, state: int, k: nat): (r: Result<set<int>, Error>)
    requires k < |p.strandMutNums|
    ensures r.Success? <==> StrandOk(p, state, k)
    ensures r.Success? ==> r.value == MutSet(p.strandMut[k])
  {
    if k !in p.strandMut then Failure(MissingParam)
    else
      var muts := MutSet(p.strandMut[k]);
      if |muts| != p.strandMutNums[k] then Failure(DistinctMutCount(k))
      else if state !in p.strand then Failure(MissingParam)
      else if |p.strand[state]| != 2 then Failure(StrandTokens)
      else if exists res | res in muts :: OutOfBoundsAsWritten(res, p.strand[state]) then Failure(StrandBounds)
      else if exists res | res in muts :: !Declared(p, res) then Failure(ResAllowedMissing)
      else Success(muts)
  }

  /** The strand loop from strand `from` on: the union of the strands' residues. */
  function CheckStrands(p: StateParams, state: int, from: nat): (r: Result<set<int>, Error>)
    requires from <= |p.strandMutNums|
    ensures r.Success? <==> forall k | from <= k < |p.strandMutNums| :: StrandOk(p, state, k)
    ensures r.Success? ==> forall res :: res in r.value <==>
      exists k | from <= k < |p.strandMutNums| :: k in p.strandMut && res in p.strandMut[k]
    decreases |p.strandMutNums| - from
  {
    if from == |p.strandMutNums| then Success({})
    else
      var here :- CheckStrand(p, state, from);
      var rest :- CheckStrands(p, state, from + 1);
      Success(here + rest)
  }

  /** The final check on strands 0 and 1, after sorting each one's limits: it reads the first
      limit of each and the second of each, so a strand line with too few tokens is an index
      error when reached. */
  function CheckDisjoint(lims0: seq<int>, lims1: seq<int>): (r: Outcome<Error>)
    ensures r.Pass? <==>
      && |lims0| >= 1 && |lims1| >= 2
      && (Sort(lims0)[0] > Sort(lims1)[1] || (|lims0| >= 2 && Sort(lims1)[0] > Sort(lims0)[1]))
    ensures |lims0| >= 2 && |lims1| >= 2 ==>
      (r == Fail(StrandsOverlap) <==> Sort(lims0)[0] <= Sort(lims1)[1] && Sort(lims1)[0] <= Sort(lims0)[1])
    ensures |lims0| >= 2 && |lims1| >= 2 ==> r != Fail(IndexOutOfBounds)
  {
    var a := Sort(lims0);
    var b := Sort(lims1);
    if |a| < 1 || |b| < 2 then Fail(IndexOutOfBounds)
    else if !(a[0] <= b[1]) then Pass
    else if |a| < 2 then Fail(IndexOutOfBounds)
    else if b[0] <= a[1] then Fail(StrandsOverlap)
    else Pass
  }

  /** For strands given by two limits each, the check rejects exactly the strands that share a
      residue number. */
  lemma DisjointMeansNoSharedResidue(lo0: int, hi0: int, lo1: int, hi1: int)
    ensures CheckDisjoint([lo0, hi0], [lo1, hi1]) == Fail(StrandsOverlap) <==>
      exists x :: InRange(x, lo0, hi0) && InRange(x, lo1, hi1)
    ensures CheckDisjoint([lo0, hi0], [lo1, hi1]) != Fail(StrandsOverlap) ==>
      CheckDisjoint([lo0, hi0], [lo1, hi1]) == Pass
  {
    CheckDisjointOfLimits(lo0, hi0, lo1, hi1);
    var overlap := Min(lo0, hi0) <= Max(lo1, hi1) && Min(lo1, hi1) <= Max(lo0, hi0);
    if overlap {
      var x := Max(Min(lo0, hi0), Min(lo1, hi1));
      assert InRange(x, lo0, hi0) && InRange(x, lo1, hi1);
    } else {
      forall x ensures !(InRange(x, lo0, hi0) && InRange(x, lo1, hi1)) {
      }
    }
  }

  /** With two limits per strand, the check compares the ranges the limits span. */
  lemma CheckDisjointOfLimits(lo0: int, hi0: int, lo1: int, hi1: int)
    ensures CheckDisjoint([lo0, hi0], [lo1, hi1])
      == if Min(lo0, hi0) <= Max(lo1, hi1) && Min(lo1, hi1) <= Max(lo0, hi0) then Fail(StrandsOverlap) else Pass
  {
    SortTwo(lo0, hi0);
    SortTwo(lo1, hi1);
  }

  /** A residue number within the range two limits span, in either order. */
  predicate InRange(x: int, lim1: int, lim2: int) {
    Min(lim1, lim2) <= x <= Max(lim1, lim2)
  }

  function Min(a: int, b: int): int {
    if a <= b then a else b
  }

  function Max(a: int, b: int): int {
    if a <= b then b else a
  }

  /** Every `RESALLOWED` residue is one of the mutable ones, when there are more `RESALLOWED`
      entries than mutable residues (otherwise the check is skipped). */
  function CheckResAllowed(p: StateParams, numMutsRes: int, global: set<int>): (r: Outcome<Error>)
    ensures r.Pass? <==> |p.resAllowed| <= numMutsRes || p.resAllowed.Keys <= global
    ensures r.Fail? ==> r == Fail(ResAllowedNotMutable)
  {
    if |p.resAllowed| > numMutsRes && exists res | res in p.resAllowed :: res !in global then Fail(ResAllowedNotMutable)
    else Pass
  }

  /** The header checks, in order, before the strand loop. */
  function CheckHeader(p: StateParams, numMutRes: int): (r: Outcome<Error>)
    ensures r.Pass? <==>
      && 0.0 <= p.epsilon < 1.0
      && p.numStrandConstr == p.listedStrandConstr
      && p.numOfStrands >= 2
      && |p.strandMutNums| == p.numOfStrands
      && p.strandLineCount == p.numOfStrands
      && WrappedSum(p.strandMutNums) == numMutRes
    ensures !(0.0 <= p.epsilon < 1.0) ==> r == Fail(EpsilonRange)
  {
    if p.epsilon >= 1.0 || p.epsilon < 0.0 then Fail(EpsilonRange)
    else if p.numStrandConstr != p.listedStrandConstr then Fail(StrandConstrCount)
    else if p.numOfStrands < 2 then Fail(TooFewStrands)
    else if |p.strandMutNums| != p.numOfStrands then Fail(StrandMutNumsCount)
    else if p.strandLineCount != p.numOfStrands then Fail(MissingStrandLine)
    else if WrappedSum(p.strandMutNums) != numMutRes then Fail(MutNumsSum)
    else Pass
  }

  /** Everything `handleStateParams` demands of a state's parameters, stated declaratively. */
  predicate StateParamsValid(p: StateParams, state: int, numMutRes: int) {
    && CheckHeader(p, numMutRes).Pass?
    && (forall k | 0 <= k < |p.strandMutNums| :: StrandOk(p, state, k))
    && (|p.resAllowed| <= numMutRes
        || forall res | res in p.resAllowed :: exists k | 0 <= k < |p.strandMutNums| :: k in p.strandMut && res in p.strandMut[k])
    && (forall k | 0 <= k < |p.strandMutNums| :: k in p.strand)
    && 0 in p.strand && 1 in p.strand
    && CheckDisjoint(p.strand[0], p.strand[1]).Pass?
  }

  /** `handleStateParams(state, sParams, msParams)`. */
  function HandleStateParams(p: StateParams, state: int, numMutRes: int): (r: Outcome<Error>)
    ensures r.Pass? <==> StateParamsValid(p, state, numMutRes)
    ensures !(0.0 <= p.epsilon < 1.0) ==> r == Fail(EpsilonRange)
  {
    var header := CheckHeader(p, numMutRes);
    if header.Fail? then header
    else
      var strands := CheckStrands(p, state, 0);
      if strands.Failure? then Fail(strands.error)
      else
        var ra := CheckResAllowed(p, WrappedSum(p.strandMutNums), strands.value);
        assert ra.Pass? <==> (|p.resAllowed| <= numMutRes
          || forall res | res in p.resAllowed :: exists k | 0 <= k < |p.strandMutNums| :: k in p.strandMut && res in p.strandMut[k]);
        if ra.Fail? then ra
        else if exists k | 0 <= k < |p.strandMutNums| :: k !in p.strand then Fail(MissingParam)
        else
          assert 0 in p.strand && 1 in p.strand;
          CheckDisjoint(p.strand[0], p.strand[1])
  }

  // ---------------------------------------------------------------------------
  // Amino-acid options across states.

  /** The correspondence check of `handleAATypeOptions` at one mutable position: the option list
      of state 0 (`defaults`) and of the current state must have the same length, and entries that
      are standard L amino acids in both must name the same amino acid up to case. */
  function CompareAAOptions(info: DAminoAcidHandler.ResidueInfo, defaults: seq<string>, current: seq<string>,
                            mutPos: int): (r: Outcome<Error>)
    ensures |defaults| != |current| <==> r == Fail(AACountMismatch(mutPos))
    ensures r.Pass? <==> |defaults| == |current| && forall a | 0 <= a < |defaults| :: AAsCorrespond(info, defaults[a], current[a])
    ensures r.Fail? ==> r == Fail(AACountMismatch(mutPos)) || r == Fail(AAMismatch(mutPos))
  {
    if |defaults| != |current| then Fail(AACountMismatch(mutPos))
    else if exists a | 0 <= a < |defaults| :: !AAsCorrespond(info, defaults[a], current[a]) then Fail(AAMismatch(mutPos))
    else Pass
  }

  /** Two entries correspond unless both are standard L amino acids with different names. */
  predicate AAsCorrespond(info: DAminoAcidHandler.ResidueInfo, aa1: string, aa2: string) {
    !DAminoAcidHandler.IsStandardLAminoAcid(info, aa1) || !DAminoAcidHandler.IsStandardLAminoAcid(info, aa2)
    || EqualsIgnoreCase(aa1, aa2)
  }

  /** A state's option list always corresponds to itself. */
  lemma CompareAAOptionsReflexive(info: DAminoAcidHandler.ResidueInfo, options: seq<string>, mutPos: int)
    ensures CompareAAOptions(info, options, options, mutPos) == Pass
  {
  }

  /** The comparison does not depend on which of the two states is called the default. */
  lemma CompareAAOptionsSymmetric(info: DAminoAcidHandler.ResidueInfo, xs: seq<string>, ys: seq<string>, mutPos: int)
    ensures CompareAAOptions(info, xs, ys, mutPos).Pass? <==> CompareAAOptions(info, ys, xs, mutPos).Pass?
  {
  }

  /** Whether the list holds the name up to case (`StringParsing.containsIgnoreCase`). */
  predicate ContainsIgnoreCase(options: seq<string>, name: string) {
    exists i | 0 <= i < |options| :: EqualsIgnoreCase(options[i], name)
  }

  /** `List.indexOf`: the position of the first entry equal to the name. */
  function FirstIndex(options: seq<string>, name: string): (i: nat)
    requires name in options
    ensures i < |options| && options[i] == name && name !in options[..i]
  {
    if options[0] == name then 0
    else
      assert options[1..][..FirstIndex(options[1..], name)]
          == options[1..FirstIndex(options[1..], name) + 1];
      FirstIndex(options[1..], name) + 1
  }

  /** `List.remove(Object)`: drop the first entry equal to the name, if there is one; the other
      entries keep their order. */
  function RemoveFirst(options: seq<string>, name: string): (r: seq<string>)
    ensures name in options ==> multiset(r) == multiset(options) - multiset{name} && |r| == |options| - 1
    ensures name !in options ==> r == options
    ensures name in options ==>
      r == options[..FirstIndex(options, name)] + options[FirstIndex(options, name) + 1..]
  {
    if |options| == 0 then []
    else if options[0] == name then
      assert options == [name] + options[1..];
      options[1..]
    else
      var rest := RemoveFirst(options[1..], name);
      RemoveFirstCons(options, name, rest);
      [options[0]] + rest
  }

  /** The step of `RemoveFirst` past a head that is not the name: what holds of the tail's result
      holds of the whole list once the head is put back. */
  lemma RemoveFirstCons(options: seq<string>, name: string, rest: seq<string>)
    requires |options| > 0 && options[0] != name
    requires name in options[1..] ==>
      && multiset(rest) == multiset(options[1..]) - multiset{name} && |rest| == |options| - 2
      && rest == options[1..][..FirstIndex(options[1..], name)] + options[1..][FirstIndex(options[1..], name) + 1..]
    requires name !in options[1..] ==> rest == options[1..]
    ensures name in options ==>
      multiset([options[0]] + rest) == multiset(options) - multiset{name} && |[options[0]] + rest| == |options| - 1
    ensures name !in options ==> [options[0]] + rest == options
    ensures name in options ==>
      [options[0]] + rest == options[..FirstIndex(options, name)] + options[FirstIndex(options, name) + 1..]
  {
    assert options == [options[0]] + options[1..];
    if name in options {
      assert name in options[1..];
      RemoveFirstConsCount(options[0], options[1..], name, rest);
      RemoveFirstConsSplice(options, name, rest);
    }
  }

  /** Putting a head back in front of the tail's removal removes one copy from the whole. */
  lemma RemoveFirstConsCount(head: string, tail: seq<string>, name: string, rest: seq<string>)
    requires name in tail && multiset(rest) == multiset(tail) - multiset{name}
    ensures multiset([head] + rest) == multiset([head] + tail) - multiset{name}
  {
    assert multiset(tail)[name] > 0;
    assert multiset([head] + tail) == multiset{head} + multiset(tail);
  }

  /** Past a head that is not the name, the first copy of the name sits one place later. */
  lemma RemoveFirstConsSplice(options: seq<string>, name: string, rest: seq<string>)
    requires |options| > 0 && options[0] != name && name in options[1..]
    requires rest == options[1..][..FirstIndex(options[1..], name)] + options[1..][FirstIndex(options[1..], name) + 1..]
    ensures [options[0]] + rest == options[..FirstIndex(options, name)] + options[FirstIndex(options, name) + 1..]
  {
    var k := FirstIndex(options[1..], name);
    assert options == [options[0]] + options[1..];
    assert FirstIndex(options, name) == k + 1;
    assert options[..k + 1] == [options[0]] + options[1..][..k];
    assert options[k + 2..] == options[1..][k + 1..];
  }

  /** With `AddWT`, the wild-type name is put in front: a copy found up to case is removed first,
      but the removal matches exactly, so a copy that differs in case stays. */
  function PutWildTypeFirst(options: seq<string>, wt: string): (r: seq<string>)
    ensures |r| > 0 && r[0] == wt
    ensures wt in options ==> multiset(r) == multiset(options)
    ensures !ContainsIgnoreCase(options, wt) ==> r == [wt] + options
    ensures ContainsIgnoreCase(options, wt) && wt !in options ==> r == [wt] + options
    ensures wt in options ==>
      r == [wt] + options[..FirstIndex(options, wt)] + options[FirstIndex(options, wt) + 1..]
  {
    if ContainsIgnoreCase(options, wt) then
      var rest := RemoveFirst(options, wt);
      WildTypeMoved(options, wt, rest);
      [wt] + rest
    else
      ExactCopyIsCaseCopy(options, wt);
      [wt] + options
  }

  /** An exact copy is also a copy up to case. */
  lemma ExactCopyIsCaseCopy(options: seq<string>, wt: string)
    ensures wt in options ==> ContainsIgnoreCase(options, wt)
  {
    if wt in options {
      var i := FirstIndex(options, wt);
      assert EqualsIgnoreCase(options[i], wt);
    }
  }

  /** Moving an exact copy to the front keeps the options as a multiset, and the others in order. */
  lemma WildTypeMoved(options: seq<string>, wt: string, rest: seq<string>)
    requires wt in options ==> multiset(rest) == multiset(options) - multiset{wt}
    requires wt !in options ==> rest == options
    requires wt in options ==>
      rest == options[..FirstIndex(options, wt)] + options[FirstIndex(options, wt) + 1..]
    ensures wt in options ==> multiset([wt] + rest) == multiset(options)
    ensures wt !in options ==> [wt] + rest == [wt] + options
    ensures wt in options ==>
      [wt] + rest == [wt] + options[..FirstIndex(options, wt)] + options[FirstIndex(options, wt) + 1..]
  {
    if wt in options {
      assert multiset(options)[wt] > 0;
      var k := FirstIndex(options, wt);
      assert [wt] + (options[..k] + options[k + 1..]) == [wt] + options[..k] + options[k + 1..];
    }
  }
}
