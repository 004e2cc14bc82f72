/** The matrix bookkeeping of a search problem (`SearchProblem`): whether a matrix cached on disk
    is valid for the current pruning interval, computing and storing it when it is not, which
    energy matrix the search consults for higher-order terms, and the corrections applied to a
    minimized energy.

    The file store is a map from file names to stored matrices; a matrix is described by its
    pruning interval and whether it has higher-order terms.  Computing a matrix and the energy
    terms of a conformation are oracles. */
module SearchProblem {
  import opened Wrappers

  datatype MatrixType = EMat | TupExpEMat | EPICMat

  /** `MatrixType.name()`. */
  function TypeName(t: MatrixType): string {
    match t
    case EMat => "EMAT"
    case TupExpEMat => "TUPEXPEMAT"
    case EPICMat => "EPICMAT"
  }

  datatype Interval = Finite(v: real) | Infinite

  datatype Matrix = Matrix(pruningInterval: Interval, hasHigherOrderTerms: bool)

  /** The three matrix fields; `None` is a null field. */
  datatype Slots = Slots(emat: Option<Matrix>, tupExpEMat: Option<Matrix>, epicMat: Option<Matrix>)

  datatype Error = NotPrunedYet | NullMatrix

  function Slot(s: Slots, t: MatrixType): Option<Matrix> {
    match t
    case EMat => s.emat
    case TupExpEMat => s.tupExpEMat
    case EPICMat => s.epicMat
  }

  function SetSlot(s: Slots, t: MatrixType, m: Option<Matrix>): (r: Slots)
    ensures Slot(r, t) == m
    ensures forall u: MatrixType | u != t :: Slot(r, u) == Slot(s, u)
  {
    match t
    case EMat => s.(emat := m)
    case TupExpEMat => s.(tupExpEMat := m)
    case EPICMat => s.(epicMat := m)
  }

  /** The file a search problem named `name` keeps a matrix of type `t` in. */
  function MatrixFileName(name: string, t: MatrixType): (r: string)
    ensures r == name + "." + TypeName(t) + ".dat"
  {
    name + "." + TypeName(t) + ".dat"
  }

  /** Different matrix types never share a file. */
  lemma MatrixFileNamesDistinct(name: string, t: MatrixType, u: MatrixType)
    requires t != u
    ensures MatrixFileName(name, t) != MatrixFileName(name, u)
  {
    var a := MatrixFileName(name, t);
    var b := MatrixFileName(name, u);
    var n := |name| + 1;
    assert a[n..|a| - 4] == TypeName(t);
    assert b[n..|b| - 4] == TypeName(u);
  }

  /** Whether a loaded matrix may be used with the current pruning interval (`None` when nothing has
      been pruned yet): a matrix for an infinite interval covers every RC; any other needs an
      interval at least the current one, and there must be one to compare against. */
  function MatrixValid(m: Matrix, pruneInterval: Option<real>): (r: Result<bool, Error>)
    ensures m.pruningInterval == Infinite ==> r == Success(true)
    ensures m.pruningInterval.Finite? && pruneInterval.None? ==> r == Failure(NotPrunedYet)
    ensures m.pruningInterval.Finite? && pruneInterval.Some? ==>
      r == Success(m.pruningInterval.v >= pruneInterval.value)
  {
    match m.pruningInterval
    case Infinite => Success(true)
    case Finite(v) => if pruneInterval.None? then Failure(NotPrunedYet) else Success(v >= pruneInterval.value)
  }

  /** `loadMatrixFromFile`: the field is set to whatever the file holds (null when it is missing or
      unreadable), and the answer says whether that matrix is usable. */
  function LoadMatrixFromFile(s: Slots, t: MatrixType, fileName: string, files: map<string, Matrix>,
                              pruneInterval: Option<real>): (r: Result<(Slots, bool), Error>)
    ensures fileName !in files ==> r == Success((SetSlot(s, t, None), false))
    ensures fileName in files ==>
      match MatrixValid(files[fileName], pruneInterval)
      case Failure(e) => r == Failure(e)
      case Success(ok) => r == Success((SetSlot(s, t, Some(files[fileName])), ok))
  {
    if fileName !in files then Success((SetSlot(s, t, None), false))
    else
      var ok :- MatrixValid(files[fileName], pruneInterval);
      Success((SetSlot(s, t, Some(files[fileName])), ok))
  }

  /** The cached file is missing or holds a matrix for too small a pruning interval. */
  predicate Stale(files: map<string, Matrix>, fileName: string, pruneInterval: Option<real>) {
    fileName !in files || MatrixValid(files[fileName], pruneInterval) == Success(false)
  }

  /** `loadMatrix`: load the cached matrix; if it is missing or stale, compute it, write it to the
      same file and load it again (the second answer is not checked).  Loading fails only when a
      finite-interval matrix is met before anything has been pruned: in the cached file, or, when
      that is stale, in the freshly computed one. */
  function LoadMatrix(s: Slots, files: map<string, Matrix>, name: string, t: MatrixType,
                      pruneInterval: Option<real>, compute: MatrixType -> Matrix): (r: Result<(Slots, map<string, Matrix>), Error>)
    ensures var fileName := MatrixFileName(name, t);
      r.Failure? <==>
        || (fileName in files && MatrixValid(files[fileName], pruneInterval).Failure?)
        || (Stale(files, fileName, pruneInterval) && MatrixValid(compute(t), pruneInterval).Failure?)
    ensures r.Failure? ==> r.error == NotPrunedYet
    ensures var fileName := MatrixFileName(name, t);
      fileName in files && MatrixValid(files[fileName], pruneInterval) == Success(true) ==>
        r == Success((SetSlot(s, t, Some(files[fileName])), files))
    ensures var fileName := MatrixFileName(name, t);
      r.Success? && Stale(files, fileName, pruneInterval) ==>
        r.value == (SetSlot(s, t, Some(compute(t))), files[fileName := compute(t)])
    ensures var fileName := MatrixFileName(name, t);
      r.Success? ==>
        && (r.value.1 == files || r.value.1 == files[fileName := compute(t)])
        && fileName in r.value.1
        && Slot(r.value.0, t) == Some(r.value.1[fileName])
        && r.value.1.Keys == files.Keys + {fileName}
        && (forall u: MatrixType | u != t :: Slot(r.value.0, u) == Slot(s, u))
  {
    var fileName := MatrixFileName(name, t);
    var first :- LoadMatrixFromFile(s, t, fileName, files, pruneInterval);
    if first.1 then Success((first.0, files))
    else
      var files' := files[fileName := compute(t)];
      var second :- LoadMatrixFromFile(first.0, t, fileName, files', pruneInterval);
      Success((second.0, files'))
  }

  /** A valid cached matrix is used as is, and the file store is left alone. */
  lemma LoadValidCachedMatrix(s: Slots, files: map<string, Matrix>, name: string, t: MatrixType,
                              pruneInterval: Option<real>, compute: MatrixType -> Matrix)
    requires MatrixFileName(name, t) in files
    requires MatrixValid(files[MatrixFileName(name, t)], pruneInterval) == Success(true)
    ensures LoadMatrix(s, files, name, t, pruneInterval, compute)
         == Success((SetSlot(s, t, Some(files[MatrixFileName(name, t)])), files))
  {
  }

  /** When the computed matrix is itself valid, loading twice is the same as loading once: the
      second load finds the freshly written file and keeps it. */
  lemma LoadMatrixIdempotent(s: Slots, files: map<string, Matrix>, name: string, t: MatrixType,
                             pruneInterval: Option<real>, compute: MatrixType -> Matrix)
    requires MatrixValid(compute(t), pruneInterval) == Success(true)
    requires LoadMatrix(s, files, name, t, pruneInterval, compute).Success?
    ensures var once := LoadMatrix(s, files, name, t, pruneInterval, compute).value;
      LoadMatrix(once.0, once.1, name, t, pruneInterval, compute) == Success(once)
  {
    var fileName := MatrixFileName(name, t);
    var once := LoadMatrix(s, files, name, t, pruneInterval, compute).value;
    var first := LoadMatrixFromFile(s, t, fileName, files, pruneInterval);
    if first.value.1 {
      assert once == (first.value.0, files);
    } else {
      assert once.1[fileName] == compute(t);
    }
    assert SetSlot(once.0, t, Some(once.1[fileName])) == once.0 by {
      assert Slot(once.0, t) == Some(once.1[fileName]);
      match t
      case EMat =>
      case TupExpEMat =>
      case EPICMat =>
    }
  }

  /** `searchNeedsHigherOrderTerms()`: the tuple-expansion matrix is consulted when the search uses
      it, the energy matrix otherwise; a null matrix is dereferenced. */
  function SearchNeedsHigherOrderTerms(useTupExpForSearch: bool, s: Slots): (r: Result<bool, Error>)
    ensures var m := if useTupExpForSearch then s.tupExpEMat else s.emat;
      && (m.None? <==> r == Failure(NullMatrix))
      && (m.Some? ==> r == Success(m.value.hasHigherOrderTerms))
  {
    var m := if useTupExpForSearch then s.tupExpEMat else s.emat;
    if m.None? then Failure(NullMatrix) else Success(m.value.hasHigherOrderTerms)
  }

  /** The sources of a conformation's energy. */
  datatype Energies = Energies(
    voxelG: seq<int> -> real,
    minimize: seq<int> -> real,
    eRef: seq<int> -> real,
    resEntropy: seq<int> -> real)

  datatype EnergyFlags = EnergyFlags(useVoxelG: bool, useERef: bool, addResEntropy: bool)

  /** `minimizedEnergy(conf)`: the voxel free energy when requested; otherwise the minimized energy,
      less the reference energy when reference energies are used, plus the residue entropy when
      it is added. */
  function MinimizedEnergy(conf: seq<int>, flags: EnergyFlags, en: Energies): (r: real)
    ensures flags.useVoxelG ==> r == en.voxelG(conf)
  {
    if flags.useVoxelG then en.voxelG(conf)
    else
      var e0 := en.minimize(conf);
      var e1 := if flags.useERef then e0 - en.eRef(conf) else e0;
      if flags.addResEntropy then e1 + en.resEntropy(conf) else e1
  }

  /** The two corrections are independent of each other: each changes the energy by exactly its
      own term, whatever the other flag says. */
  lemma MinimizedEnergyCorrections(conf: seq<int>, flags: EnergyFlags, en: Energies)
    requires !flags.useVoxelG
    ensures MinimizedEnergy(conf, flags.(useERef := true), en)
         == MinimizedEnergy(conf, flags.(useERef := false), en) - en.eRef(conf)
    ensures MinimizedEnergy(conf, flags.(addResEntropy := true), en)
         == MinimizedEnergy(conf, flags.(addResEntropy := false), en) + en.resEntropy(conf)
    ensures MinimizedEnergy(conf, flags.(useERef := false, addResEntropy := false), en) == en.minimize(conf)
  {
  }
}
