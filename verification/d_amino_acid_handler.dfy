/** D-amino-acid naming (`DAminoAcidHandler`): a D amino acid is named "DX" followed by the
    one-letter code of its L form, except the alternate protonation states, which have names of
    their own in a fixed table.

    The one-letter/three-letter tables of `HardCodedResidueInfo` are not part of this model; they
    are a parameter (`ResidueInfo`), and `getOneLet(name)` is the `three2one` lookup.  The
    coordinates and the measured dihedral of a residue are a parameter of the rename decision. */
module DAminoAcidHandler {
  import opened Wrappers
  import opened Strings

  /** `three2one` and `one2three`. */
  datatype ResidueInfo = ResidueInfo(three2one: map<string, string>, one2three: map<string, string>)

  datatype Error = NoDForm | NameTooShort | MissingBackboneAtom

  /** `altProtStateDNames`: the D names of the alternate protonation states (L to D). */
  const AltProtStateDNames: map<string, string> := map[
    "HID" := "DHD", "HIE" := "DHE", "HIP" := "DHP", "CYX" := "DCX",
    "CYM" := "DCM", "ASH" := "DDH", "GLH" := "DEH", "LYN" := "DKN"]

  predicate Injective(m: map<string, string>) {
    forall a, b | a in m && b in m && a != b :: m[a] != m[b]
  }

  /** The map the static block builds by putting every key of `m` under its value. */
  function Invert(m: map<string, string>): (r: map<string, string>)
    requires Injective(m)
  {
    map k | k in m :: m[k] := k
  }

  /** Putting every key under its value inverts an injective map exactly. */
  lemma InvertIsInverse(m: map<string, string>)
    requires Injective(m)
    ensures Invert(m).Keys == m.Values
    ensures forall k | k in m :: m[k] in Invert(m) && Invert(m)[m[k]] == k
    ensures forall v | v in Invert(m) :: Invert(m)[v] in m && m[Invert(m)[v]] == v
  {
    forall v | v in Invert(m) ensures Invert(m)[v] in m && m[Invert(m)[v]] == v {
      var k :| k in m && m[k] == v;
    }
  }

  /** `altProtStateLNames`: the reverse lookup (D to L). */
  const AltProtStateLNames: map<string, string> :=
    assert Injective(AltProtStateDNames); Invert(AltProtStateDNames)

  /** The L-to-D table has eight entries, and the D-to-L table is its exact inverse. */
  lemma AltTablesInverse()
    ensures |AltProtStateDNames| == 8
    ensures AltProtStateLNames.Keys == AltProtStateDNames.Values
    ensures forall l | l in AltProtStateDNames ::
      AltProtStateDNames[l] in AltProtStateLNames && AltProtStateLNames[AltProtStateDNames[l]] == l
    ensures forall d | d in AltProtStateLNames ::
      AltProtStateLNames[d] in AltProtStateDNames && AltProtStateDNames[AltProtStateLNames[d]] == d
  {
    AltTableSize();
    AltTableInjective();
    InvertIsInverse(AltProtStateDNames);
  }

  lemma AltTableInjective()
    ensures Injective(AltProtStateDNames)
  {
  }

  lemma AltTableSize()
    ensures |AltProtStateDNames| == 8
  {
  }

  lemma AltDNamesShape()
    ensures forall l | l in AltProtStateDNames :: |AltProtStateDNames[l]| == 3 && AltProtStateDNames[l][1] != 'X'
  {
  }

  /** No alternate-state D name begins with "DX", so the two naming schemes never overlap. */
  lemma AltDNamesNotDX()
    ensures forall d | d in AltProtStateLNames :: !StartsWith(d, "DX")
  {
    AltTablesInverse();
    AltDNamesShape();
  }

  /** `getDName(L)`: "DX" plus the one-letter code for a name with one, the table's D name for an
      alternate protonation state, and an error otherwise. */
  function GetDName(info: ResidueInfo, lName: string): (r: Result<string, Error>)
    ensures lName in info.three2one ==> r == Success("DX" + info.three2one[lName])
    ensures lName !in info.three2one && lName in AltProtStateDNames ==> r == Success(AltProtStateDNames[lName])
    ensures r.Failure? <==> lName !in info.three2one && lName !in AltProtStateDNames
  {
    if lName in info.three2one then Success("DX" + info.three2one[lName])
    else if lName in AltProtStateDNames then Success(AltProtStateDNames[lName])
    else Failure(NoDForm)
  }

  /** `isStandardLAminoAcid(name)`: exactly the names that have a D form. */
  predicate IsStandardLAminoAcid(info: ResidueInfo, name: string): (b: bool)
    ensures b <==> GetDName(info, name).Success?
  {
    name in info.three2one || name in AltProtStateDNames
  }

  /** A D name exists exactly for the standard L amino acids. */
  lemma DNameIffStandard(info: ResidueInfo, name: string)
    ensures GetDName(info, name).Success? <==> IsStandardLAminoAcid(info, name)
  {
  }

  /** `isDAminoAcidName(name)`: exactly the names that have an L equivalent. */
  predicate IsDAminoAcidName(info: ResidueInfo, name: string): (b: bool)
    ensures b <==> GetLEquivalent(info, name).Some?
  {
    AltDNamesNotDX();
    (StartsWith(name, "DX") && name[2..] in info.one2three) || name in AltProtStateLNames
  }

  /** `getLEquivalent(name)`: a "DX" name is looked up by its code (null when the code is unknown);
      any other name in the alternate-state table; `None` stands for null. */
  function GetLEquivalent(info: ResidueInfo, name: string): (r: Option<string>)
    ensures StartsWith(name, "DX") ==>
      (r.Some? <==> name[2..] in info.one2three) && (r.Some? ==> r.value == info.one2three[name[2..]])
    ensures !StartsWith(name, "DX") ==>
      (r.Some? <==> name in AltProtStateLNames) && (r.Some? ==> r.value == AltProtStateLNames[name])
  {
    if StartsWith(name, "DX") then
      if name[2..] in info.one2three then Some(info.one2three[name[2..]]) else None
    else if name in AltProtStateLNames then Some(AltProtStateLNames[name])
    else None
  }

  /** A name is a D-amino-acid name exactly when it has an L equivalent. */
  lemma DNameIffLEquivalent(info: ResidueInfo, name: string)
    ensures IsDAminoAcidName(info, name) <==> GetLEquivalent(info, name).Some?
  {
    AltDNamesNotDX();
  }

  /** The one-letter table inverts the three-letter one. */
  predicate CodesInverse(info: ResidueInfo) {
    forall l | l in info.three2one :: info.three2one[l] in info.one2three && info.one2three[info.three2one[l]] == l
  }

  /** Round trip: the L equivalent of the D name of a standard L amino acid is that amino acid,
      and the D name is recognised as one.  Alternate states need nothing; the names with a
      one-letter code need the code tables to invert each other. */
  lemma DNameRoundTrip(info: ResidueInfo, lName: string)
    requires IsStandardLAminoAcid(info, lName)
    requires lName in info.three2one ==> CodesInverse(info)
    ensures GetLEquivalent(info, GetDName(info, lName).value) == Some(lName)
    ensures IsDAminoAcidName(info, GetDName(info, lName).value)
  {
    var d := GetDName(info, lName).value;
    if lName in info.three2one {
      assert StartsWith(d, "DX") && d[2..] == info.three2one[lName];
    } else {
      AltTablesInverse();
      AltDNamesNotDX();
    }
    DNameIffLEquivalent(info, d);
  }

  /** `tryRenamingAsD(res)` on the residue's full name: the first three characters name the amino
      acid; a standard L amino acid other than glycine whose dihedral over CB, CA, N and HA is
      negative is renamed to its D name followed by the rest of the full name.  `dihedral` is
      `None` when one of those atoms is missing, which is an error; a full name shorter than three
      characters cannot be cut and is an error too. */
  function TryRenamingAsD(info: ResidueInfo, fullName: string, dihedral: Option<real>): (r: Result<string, Error>)
    ensures |fullName| < 3 <==> r == Failure(NameTooShort)
    ensures r == Failure(MissingBackboneAtom) <==>
      |fullName| >= 3 && IsStandardLAminoAcid(info, fullName[..3])
      && !EqualsIgnoreCase(fullName[..3], "GLY") && dihedral.None?
    ensures r.Success? && r.value != fullName ==>
      && IsStandardLAminoAcid(info, fullName[..3])
      && !EqualsIgnoreCase(fullName[..3], "GLY")
      && dihedral.Some? && dihedral.value < 0.0
      && r.value == GetDName(info, fullName[..3]).value + fullName[3..]
    ensures |fullName| >= 3 && IsStandardLAminoAcid(info, fullName[..3])
      && !EqualsIgnoreCase(fullName[..3], "GLY") && dihedral.Some? && dihedral.value < 0.0
      ==> r == Success(GetDName(info, fullName[..3]).value + fullName[3..])
    ensures |fullName| >= 3 && (!IsStandardLAminoAcid(info, fullName[..3]) || EqualsIgnoreCase(fullName[..3], "GLY"))
      ==> r == Success(fullName)
  {
    if |fullName| < 3 then Failure(NameTooShort)
    else
      var origName := fullName[..3];
      if !IsStandardLAminoAcid(info, origName) || EqualsIgnoreCase(origName, "GLY") then Success(fullName)
      else if dihedral.None? then Failure(MissingBackboneAtom)
      else if dihedral.value < 0.0 then Success(GetDName(info, origName).value + fullName[3..])
      else Success(fullName)
  }

  /** A renamed residue keeps its suffix, and its new prefix leads back to the original amino acid
      (for names with a one-letter code, when the code tables invert each other). */
  lemma RenameRecoversLName(info: ResidueInfo, fullName: string, dihedral: Option<real>)
    requires TryRenamingAsD(info, fullName, dihedral).Success?
    requires TryRenamingAsD(info, fullName, dihedral).value != fullName
    requires CodesInverse(info)
    ensures var r := TryRenamingAsD(info, fullName, dihedral).value;
      var d := GetDName(info, fullName[..3]).value;
      && r == d + fullName[3..]
      && GetLEquivalent(info, d) == Some(fullName[..3])
  {
    DNameRoundTrip(info, fullName[..3]);
  }
}
