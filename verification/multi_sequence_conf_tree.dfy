/** The traditional A* node score of the multi-sequence conformation tree
    (`MultiSequenceConfTree`).

    The tree sees positions in "index space": indices `0 .. numPos-1` are the positions the
    current sequence assigns (`allowed`), the indices after them are the remaining positions
    (`notAllowed`).  Energies are read from an energy matrix in absolute position space, so
    every lookup goes through the index-to-absolute map.

    Energies are reals.  The start values `+infinity` (lower-bound mode) and `-infinity`
    (upper-bound mode) of the running min/max are `Unbounded`; within one mode every infinity
    has the same sign, so `Unbounded` is the identity of the best-of and absorbs sums. */
module MultiSequenceConfTree {
  import opened Wrappers

  datatype Bound = Finite(v: real) | Unbounded

  /** The energy matrix, as oracles over absolute positions.  `higherOrder` returns `None`
      when the matrix holds no higher-order terms for the pair (a null `HigherTupleFinder`)
      and otherwise the bound the recursive higher-order walk computes. */
  datatype EnergyMatrix = EnergyMatrix(
    constTerm: real,
    internal: seq<(int, int)> -> real,
    oneBody: (int, int) -> real,
    pairwise: (int, int, int, int) -> real,
    higherOrder: (int, int, int, int, seq<(int, int)>) -> Option<real>)

  /** A tree after `init`: `unpruned[p]` lists the unpruned RCs at index position `p`, for
      every position of the conformation space, assigned or not. */
  datatype Tree = Tree(
    lowerBounds: bool,
    traditional: bool,
    allowed: seq<int>,
    notAllowed: seq<int>,
    unpruned: seq<seq<int>>,
    emat: EnergyMatrix)

  datatype Error = Unsupported

  /** `init` asserts that the index map covers exactly the conformation space's positions. */
  predicate WellFormed(t: Tree) {
    |t.allowed| + |t.notAllowed| == |t.unpruned|
  }

  function TotalPos(t: Tree): nat {
    |t.unpruned|
  }

  // ---------------------------------------------------------------------------
  // The index-to-absolute position map.

  /** `init`'s map: index `i < |allowed|` goes to `allowed[i]`, the later indices go to the
      not-allowed positions in order. */
  function IndexMap(allowed: seq<int>, notAllowed: seq<int>): (m: map<int, int>)
    ensures forall i :: i in m <==> 0 <= i < |allowed| + |notAllowed|
    ensures forall i | 0 <= i < |allowed| :: m[i] == allowed[i]
    ensures forall i | 0 <= i < |notAllowed| :: m[|allowed| + i] == notAllowed[i]
  {
    map i | 0 <= i < |allowed| + |notAllowed| ::
      if i < |allowed| then allowed[i] else notAllowed[i - |allowed|]
  }

  function Abs(t: Tree, i: int): int
    requires WellFormed(t) && 0 <= i < TotalPos(t)
  {
    IndexMap(t.allowed, t.notAllowed)[i]
  }

  predicate Distinct(s: seq<int>) {
    forall i, j | 0 <= i < j < |s| :: s[i] != s[j]
  }

  function Range(n: nat): (r: set<int>)
    ensures forall i :: i in r <==> 0 <= i < n
    ensures |r| == n
  {
    if n == 0 then {} else Range(n - 1) + {n - 1}
  }

  lemma {:induction false} DistinctElementsSize(s: seq<int>)
    requires Distinct(s)
    ensures |set x | x in s| == |s|
  {
    if |s| > 0 {
      var tail := s[1..];
      assert Distinct(tail) by {
        forall i, j | 0 <= i < j < |tail| ensures tail[i] != tail[j] {
          assert tail[i] == s[i + 1] && tail[j] == s[j + 1];
        }
      }
      DistinctElementsSize(tail);
      assert s[0] !in tail by {
        forall k | 0 <= k < |tail| ensures tail[k] != s[0] {
          assert tail[k] == s[k + 1];
        }
      }
      assert (set x | x in s) == (set x | x in tail) + {s[0]} by {
        assert s == [s[0]] + tail;
      }
    }
  }

  /** When the allowed and not-allowed positions partition the conformation space's positions
      `0 .. n-1`, the index map is a bijection of `0 .. n-1` onto itself: it has `n` entries
      (the size `init` asserts), different indices map to different positions, and every
      position is the image of some index. */
  lemma IndexMapIsPermutation(allowed: seq<int>, notAllowed: seq<int>, n: nat)
    requires Distinct(allowed + notAllowed)
    requires forall p :: p in allowed + notAllowed <==> 0 <= p < n
    ensures |IndexMap(allowed, notAllowed)| == n
    ensures forall i, j | i in IndexMap(allowed, notAllowed) && j in IndexMap(allowed, notAllowed) && i != j ::
      IndexMap(allowed, notAllowed)[i] != IndexMap(allowed, notAllowed)[j]
    ensures forall p :: p in IndexMap(allowed, notAllowed).Values <==> 0 <= p < n
  {
    var all := allowed + notAllowed;
    var m := IndexMap(allowed, notAllowed);
    IndexMapIsConcat(allowed, notAllowed);
    assert |all| == n by {
      DistinctElementsSize(all);
      assert (set x | x in all) == Range(n);
    }
    assert m.Keys == Range(|all|);
    forall p ensures p in m.Values <==> 0 <= p < n {
      if 0 <= p < n {
        assert p in all;
        var i :| 0 <= i < |all| && all[i] == p;
        assert m[i] == p;
      }
      if p in m.Values {
        var i :| i in m && m[i] == p;
        assert all[i] in all;
      }
    }
  }

  lemma IndexMapIsConcat(allowed: seq<int>, notAllowed: seq<int>)
    ensures forall i | 0 <= i < |allowed + notAllowed| :: IndexMap(allowed, notAllowed)[i] == (allowed + notAllowed)[i]
  {
  }

  // ---------------------------------------------------------------------------
  // Best-of and sums over bounds.

  /** `Math.min` in lower-bound mode, `Math.max` in upper-bound mode. */
  function Best(lower: bool, a: Bound, b: Bound): Bound {
    match (a, b)
    case (Unbounded, _) => b
    case (_, Unbounded) => a
    case (Finite(x), Finite(y)) =>
      if lower then Finite(if x <= y then x else y) else Finite(if x >= y then x else y)
  }

  function Plus(a: Bound, b: Bound): Bound {
    if a.Finite? && b.Finite? then Finite(a.v + b.v) else Unbounded
  }

  /** `x` is at least as good as `y` for the mode: no larger for lower bounds, no smaller for upper. */
  predicate AtLeastAsGood(lower: bool, x: real, y: real) {
    if lower then x <= y else x >= y
  }

  /** The running best over `xs`, started at the mode's infinity. */
  function BestOver(lower: bool, xs: seq<Bound>): (r: Bound)
    ensures r.Unbounded? <==> forall k | 0 <= k < |xs| :: xs[k].Unbounded?
    ensures r.Finite? ==> exists k | 0 <= k < |xs| :: xs[k] == r
    ensures r.Finite? ==> forall k | 0 <= k < |xs| && xs[k].Finite? :: AtLeastAsGood(lower, r.v, xs[k].v)
  {
    if |xs| == 0 then Unbounded
    else
      var rest := BestOver(lower, xs[..|xs| - 1]);
      assert forall k | 0 <= k < |xs| - 1 :: xs[..|xs| - 1][k] == xs[k];
      Best(lower, rest, xs[|xs| - 1])
  }

  // ---------------------------------------------------------------------------
  // Partial conformations in index space.

  /** `rcTuple.set(conf)` keeps the positions whose entry is not -1. */
  predicate InTuple(conf: seq<int>, p: int) {
    0 <= p < |conf| && conf[p] != -1
  }

  /** The defined index positions below `n`, in increasing order. */
  function DefinedSlots(conf: seq<int>, n: nat): (ps: seq<int>)
    requires n <= |conf|
    ensures forall k | 0 <= k < |ps| :: 0 <= ps[k] < n && InTuple(conf, ps[k])
    ensures forall j, k | 0 <= j < k < |ps| :: ps[j] < ps[k]
  {
    if n == 0 then []
    else if conf[n - 1] != -1 then DefinedSlots(conf, n - 1) + [n - 1]
    else DefinedSlots(conf, n - 1)
  }

  /** No defined index position below `n` is missed. */
  lemma {:induction false} DefinedSlotsComplete(conf: seq<int>, n: nat)
    requires n <= |conf|
    ensures forall p | 0 <= p < n && InTuple(conf, p) :: p in DefinedSlots(conf, n)
  {
    if n > 0 {
      DefinedSlotsComplete(conf, n - 1);
    }
  }

  /** The defined tuple converted to absolute positions (`setAbsolutePos`). */
  function AbsTuple(t: Tree, conf: seq<int>, n: nat): (r: seq<(int, int)>)
    requires WellFormed(t) && n <= |conf| <= TotalPos(t)
    ensures |r| <= n
    ensures forall k | 0 <= k < |r| :: r[k].1 != -1
  {
    if n == 0 then []
    else if conf[n - 1] != -1 then AbsTuple(t, conf, n - 1) + [(Abs(t, n - 1), conf[n - 1])]
    else AbsTuple(t, conf, n - 1)
  }

  /** Entry k of the absolute tuple belongs to the k-th defined index position. */
  lemma {:induction false} AbsTupleAt(t: Tree, conf: seq<int>, n: nat)
    requires WellFormed(t) && n <= |conf| <= TotalPos(t)
    ensures |DefinedSlots(conf, n)| == |AbsTuple(t, conf, n)|
    ensures forall k | 0 <= k < |AbsTuple(t, conf, n)| ::
      AbsTuple(t, conf, n)[k] == (Abs(t, DefinedSlots(conf, n)[k]), conf[DefinedSlots(conf, n)[k]])
  {
    if n > 0 {
      AbsTupleAt(t, conf, n - 1);
    }
  }

  /** The entries of the absolute tuple, exactly: one per defined index position below `n`, in
      increasing index order, each the position's absolute number and its RC. */
  lemma AbsTupleEntries(t: Tree, conf: seq<int>, n: nat) returns (ps: seq<int>)
    requires WellFormed(t) && n <= |conf| <= TotalPos(t)
    ensures |ps| == |AbsTuple(t, conf, n)|
    ensures forall k | 0 <= k < |ps| ::
      && 0 <= ps[k] < n && InTuple(conf, ps[k])
      && AbsTuple(t, conf, n)[k] == (Abs(t, ps[k]), conf[ps[k]])
    ensures forall j, k | 0 <= j < k < |ps| :: ps[j] < ps[k]
    ensures forall p | 0 <= p < n && InTuple(conf, p) :: p in ps
  {
    ps := DefinedSlots(conf, n);
    AbsTupleAt(t, conf, n);
    DefinedSlotsComplete(conf, n);
  }

  /** Every defined index position below `n` shows up in the absolute tuple with its RC. */
  lemma AbsTupleListsDefined(t: Tree, conf: seq<int>, n: nat, p: int)
    requires WellFormed(t) && n <= |conf| <= TotalPos(t)
    requires 0 <= p < n && InTuple(conf, p)
    ensures (Abs(t, p), conf[p]) in AbsTuple(t, conf, n)
  {
    var ps := AbsTupleEntries(t, conf, n);
    var k :| 0 <= k < |ps| && ps[k] == p;
    assert AbsTuple(t, conf, n)[k] == (Abs(t, p), conf[p]);
  }

  /** When the index map is injective (the two position lists do not repeat), no absolute
      position appears twice in the absolute tuple. */
  lemma AbsTupleDistinctPositions(t: Tree, conf: seq<int>)
    requires WellFormed(t) && |conf| <= TotalPos(t)
    requires Distinct(t.allowed + t.notAllowed)
    ensures forall j, k | 0 <= j < k < |AbsTuple(t, conf, |conf|)| ::
      AbsTuple(t, conf, |conf|)[j].0 != AbsTuple(t, conf, |conf|)[k].0
  {
    var ps := AbsTupleEntries(t, conf, |conf|);
    IndexMapIsConcat(t.allowed, t.notAllowed);
    forall j, k | 0 <= j < k < |ps| ensures Abs(t, ps[j]) != Abs(t, ps[k]) {
      assert (t.allowed + t.notAllowed)[ps[j]] != (t.allowed + t.notAllowed)[ps[k]];
    }
  }

  /** The `higherOrderContrib` of an RC pair: 0 when the matrix holds no higher-order terms for it. */
  function HigherOrderContrib(t: Tree, conf: seq<int>, pos1: int, rc1: int, pos2: int, rc2: int): (r: real)
    requires WellFormed(t) && |conf| <= TotalPos(t)
    requires 0 <= pos1 < TotalPos(t) && 0 <= pos2 < TotalPos(t)
    ensures t.emat.higherOrder(Abs(t, pos1), rc1, Abs(t, pos2), rc2, AbsTuple(t, conf, |conf|)).None? ==> r == 0.0
  {
    match t.emat.higherOrder(Abs(t, pos1), rc1, Abs(t, pos2), rc2, AbsTuple(t, conf, |conf|))
    case None => 0.0
    case Some(e) => e
  }

  function PairTerm(t: Tree, conf: seq<int>, pos1: int, rc1: int, pos2: int, rc2: int): real
    requires WellFormed(t) && |conf| <= TotalPos(t)
    requires 0 <= pos1 < TotalPos(t) && 0 <= pos2 < TotalPos(t)
  {
    t.emat.pairwise(Abs(t, pos1), rc1, Abs(t, pos2), rc2) + HigherOrderContrib(t, conf, pos1, rc1, pos2, rc2)
  }

  /** The best interaction of `(pos1, rc1)` with any unpruned RC at `pos2`. */
  function PosContrib(t: Tree, conf: seq<int>, pos1: int, rc1: int, pos2: int): Bound
    requires WellFormed(t) && |conf| <= TotalPos(t)
    requires 0 <= pos1 < TotalPos(t) && 0 <= pos2 < TotalPos(t)
  {
    var rcs := t.unpruned[pos2];
    BestOver(t.lowerBounds, seq(|rcs|, k requires 0 <= k < |rcs| => Finite(PairTerm(t, conf, pos1, rc1, pos2, rcs[k]))))
  }

  /** Whether `getUndefinedRCEnergy` for `pos1` charges the interactions with `pos2`:
      defined positions and lower-numbered ones. */
  predicate Charged(conf: seq<int>, pos1: int, pos2: int) {
    InTuple(conf, pos2) || pos2 < pos1
  }

  function ChargedSum(t: Tree, conf: seq<int>, pos1: int, rc1: int, n: nat): Bound
    requires WellFormed(t) && |conf| <= TotalPos(t)
    requires 0 <= pos1 < TotalPos(t) && n <= TotalPos(t)
  {
    if n == 0 then Finite(0.0)
    else
      var rest := ChargedSum(t, conf, pos1, rc1, n - 1);
      if Charged(conf, pos1, n - 1) then Plus(rest, PosContrib(t, conf, pos1, rc1, n - 1)) else rest
  }

  /** `getUndefinedRCEnergy(pos1, rc1, definedTuple)`: the one-body energy plus the best
      interaction with every charged position.  It is infinite exactly when some charged position
      has no unpruned RC to interact with. */
  function UndefinedRCEnergy(t: Tree, conf: seq<int>, pos1: int, rc1: int): (r: Bound)
    requires WellFormed(t) && |conf| <= TotalPos(t)
    requires 0 <= pos1 < TotalPos(t)
    ensures r.Unbounded? <==> exists q | 0 <= q < TotalPos(t) :: Charged(conf, pos1, q) && |t.unpruned[q]| == 0
  {
    ChargedSumUnboundedIff(t, conf, pos1, rc1, TotalPos(t));
    Plus(Finite(t.emat.oneBody(Abs(t, pos1), rc1)), ChargedSum(t, conf, pos1, rc1, TotalPos(t)))
  }

  /** The best undefined-RC energy over the unpruned RCs at `pos`. */
  function PosHScore(t: Tree, conf: seq<int>, pos: int): Bound
    requires WellFormed(t) && |conf| <= TotalPos(t)
    requires 0 <= pos < TotalPos(t)
  {
    var rcs := t.unpruned[pos];
    BestOver(t.lowerBounds, seq(|rcs|, k requires 0 <= k < |rcs| => UndefinedRCEnergy(t, conf, pos, rcs[k])))
  }

  /** The h-score: the sum of `PosHScore` over the positions below `n` the tuple leaves undefined. */
  function HScore(t: Tree, conf: seq<int>, n: nat): (r: Bound)
    requires WellFormed(t) && |conf| <= TotalPos(t) && n <= TotalPos(t)
    ensures r.Finite? ==> forall p | 0 <= p < n && !InTuple(conf, p) :: PosHScore(t, conf, p).Finite?
  {
    if n == 0 then Finite(0.0)
    else
      var rest := HScore(t, conf, n - 1);
      if InTuple(conf, n - 1) then rest else Plus(rest, PosHScore(t, conf, n - 1))
  }

  /** The g-score: the constant term plus the internal energy of the defined tuple. */
  function GScore(t: Tree, conf: seq<int>): real
    requires WellFormed(t) && |conf| <= TotalPos(t)
  {
    t.emat.constTerm + t.emat.internal(AbsTuple(t, conf, |conf|))
  }

  /** Some position of the conformation space is still unassigned. */
  predicate SomeUndefined(t: Tree, conf: seq<int>) {
    exists p | 0 <= p < TotalPos(t) :: !InTuple(conf, p)
  }

  /** Some position of the conformation space has no unpruned RC left. */
  predicate SomeEmpty(t: Tree) {
    exists q | 0 <= q < TotalPos(t) :: |t.unpruned[q]| == 0
  }

  /** The absolute tuple, and so the g-score, depends only on the assigned entries. */
  lemma {:induction false} AbsTupleSameDefined(t: Tree, a: seq<int>, b: seq<int>, n: nat)
    requires WellFormed(t) && n <= |a| == |b| <= TotalPos(t)
    requires forall p | 0 <= p < |a| :: InTuple(a, p) <==> InTuple(b, p)
    requires forall p | 0 <= p < |a| && InTuple(a, p) :: a[p] == b[p]
    ensures AbsTuple(t, a, n) == AbsTuple(t, b, n)
  {
    if n > 0 {
      AbsTupleSameDefined(t, a, b, n - 1);
      assert InTuple(a, n - 1) <==> InTuple(b, n - 1);
    }
  }

  /** Two conformations that assign the same RCs to the same positions have the same g-score,
      whatever their unassigned entries hold. */
  lemma GScoreDependsOnlyOnDefined(t: Tree, a: seq<int>, b: seq<int>)
    requires WellFormed(t) && |a| == |b| <= TotalPos(t)
    requires forall p | 0 <= p < |a| :: InTuple(a, p) <==> InTuple(b, p)
    requires forall p | 0 <= p < |a| && InTuple(a, p) :: a[p] == b[p]
    ensures GScore(t, a) == GScore(t, b)
  {
    AbsTupleSameDefined(t, a, b, |a|);
  }

  /** `scoreNode(partialConf)`: only the traditional score is implemented.  The score is the
      g-score plus the h-score; it is infinite exactly when some position is still unassigned
      while some position has no unpruned RC, and a conformation that assigns every position
      scores its g-score alone. */
  function ScoreNode(t: Tree, conf: seq<int>): (r: Result<Bound, Error>)
    requires WellFormed(t) && |conf| <= TotalPos(t)
    ensures !t.traditional <==> r == Failure(Unsupported)
    ensures t.traditional ==> r == Success(Plus(Finite(GScore(t, conf)), HScore(t, conf, TotalPos(t))))
    ensures t.traditional ==> (r.value.Unbounded? <==> SomeUndefined(t, conf) && SomeEmpty(t))
    ensures t.traditional && !SomeUndefined(t, conf) ==> r == Success(Finite(GScore(t, conf)))
  {
    if t.traditional then
      HScoreInfiniteIff(t, conf);
      HScoreOfDefined(t, conf);
      Success(Plus(Finite(GScore(t, conf)), HScore(t, conf, TotalPos(t))))
    else Failure(Unsupported)
  }

  /** The best undefined-RC energy at a position is infinite exactly when the position has no
      unpruned RC, or some position charged to it has none. */
  lemma PosHScoreUnboundedIff(t: Tree, conf: seq<int>, p: int)
    requires WellFormed(t) && |conf| <= TotalPos(t) && 0 <= p < TotalPos(t)
    ensures PosHScore(t, conf, p).Unbounded?
      <==> |t.unpruned[p]| == 0 || exists q | 0 <= q < TotalPos(t) :: Charged(conf, p, q) && |t.unpruned[q]| == 0
  {
    var rcs := t.unpruned[p];
    var xs := seq(|rcs|, k requires 0 <= k < |rcs| => UndefinedRCEnergy(t, conf, p, rcs[k]));
    assert PosHScore(t, conf, p) == BestOver(t.lowerBounds, xs);
    forall k | 0 <= k < |rcs|
      ensures xs[k].Unbounded?
        <==> exists q | 0 <= q < TotalPos(t) :: Charged(conf, p, q) && |t.unpruned[q]| == 0
    {
      ChargedSumUnboundedIff(t, conf, p, rcs[k], TotalPos(t));
    }
    if |rcs| > 0 {
      assert xs[0].Unbounded? <==> BestOver(t.lowerBounds, xs).Unbounded?;
    }
  }

  /** The h-score over the first `n` positions is infinite exactly when some unassigned position
      below `n` has an infinite best undefined-RC energy. */
  lemma {:induction false} HScoreUnboundedIff(t: Tree, conf: seq<int>, n: nat)
    requires WellFormed(t) && |conf| <= TotalPos(t) && n <= TotalPos(t)
    ensures HScore(t, conf, n).Unbounded?
      <==> exists p | 0 <= p < n :: !InTuple(conf, p) && PosHScore(t, conf, p).Unbounded?
  {
    if n > 0 {
      HScoreUnboundedIff(t, conf, n - 1);
    }
  }

  /** The h-score is infinite exactly when some position is unassigned and some position has no
      unpruned RC: an unassigned position without RCs is infinite itself, and an assigned one
      without RCs is charged to every unassigned position. */
  lemma HScoreInfiniteIff(t: Tree, conf: seq<int>)
    requires WellFormed(t) && |conf| <= TotalPos(t)
    ensures HScore(t, conf, TotalPos(t)).Unbounded? <==> SomeUndefined(t, conf) && SomeEmpty(t)
  {
    HScoreUnboundedIff(t, conf, TotalPos(t));
    if HScore(t, conf, TotalPos(t)).Unbounded? {
      var p :| 0 <= p < TotalPos(t) && !InTuple(conf, p) && PosHScore(t, conf, p).Unbounded?;
      PosHScoreUnboundedIff(t, conf, p);
    }
    if SomeUndefined(t, conf) && SomeEmpty(t) {
      var p :| 0 <= p < TotalPos(t) && !InTuple(conf, p);
      var q :| 0 <= q < TotalPos(t) && |t.unpruned[q]| == 0;
      if InTuple(conf, q) {
        PosHScoreUnboundedIff(t, conf, p);
        assert Charged(conf, p, q);
      } else {
        PosHScoreUnboundedIff(t, conf, q);
      }
    }
  }

  lemma HScoreOfDefined(t: Tree, conf: seq<int>)
    requires WellFormed(t) && |conf| <= TotalPos(t)
    ensures !SomeUndefined(t, conf) ==> HScore(t, conf, TotalPos(t)) == Finite(0.0)
  {
    if !SomeUndefined(t, conf) {
      FullyDefinedHasNoHScore(t, conf, TotalPos(t));
    }
  }

  // ---------------------------------------------------------------------------
  // Properties of the score.

  /** An RC pair without higher-order terms contributes its pairwise energy alone. */
  lemma NoHigherOrderIsPairwise(t: Tree, conf: seq<int>, pos1: int, rc1: int, pos2: int, rc2: int)
    requires WellFormed(t) && |conf| <= TotalPos(t)
    requires 0 <= pos1 < TotalPos(t) && 0 <= pos2 < TotalPos(t)
    requires t.emat.higherOrder(Abs(t, pos1), rc1, Abs(t, pos2), rc2, AbsTuple(t, conf, |conf|)) == None
    ensures PairTerm(t, conf, pos1, rc1, pos2, rc2) == t.emat.pairwise(Abs(t, pos1), rc1, Abs(t, pos2), rc2)
  {
  }

  /** The charged sum over the first `n` positions is infinite exactly when some charged position
      below `n` has no unpruned RC. */
  lemma {:induction false} ChargedSumUnboundedIff(t: Tree, conf: seq<int>, pos1: int, rc1: int, n: nat)
    requires WellFormed(t) && |conf| <= TotalPos(t)
    requires 0 <= pos1 < TotalPos(t) && n <= TotalPos(t)
    ensures ChargedSum(t, conf, pos1, rc1, n).Unbounded?
      <==> exists p | 0 <= p < n :: Charged(conf, pos1, p) && |t.unpruned[p]| == 0
  {
    if n > 0 {
      ChargedSumUnboundedIff(t, conf, pos1, rc1, n - 1);
      var rcs := t.unpruned[n - 1];
      if |rcs| > 0 {
        assert PosContrib(t, conf, pos1, rc1, n - 1).Finite? by {
          var ys := seq(|rcs|, k requires 0 <= k < |rcs| => Finite(PairTerm(t, conf, pos1, rc1, n - 1, rcs[k])));
          assert ys[0].Finite?;
        }
      }
    }
  }

  /** The undefined-RC energy of `(pos1, rc1)` does not depend on which RCs are unpruned at a
      higher-numbered undefined position: such positions are never charged to `pos1`. */
  lemma {:induction false} LaterUndefinedNotCharged(t: Tree, conf: seq<int>, pos1: int, rc1: int, pos2: int, rcs: seq<int>, n: nat)
    requires WellFormed(t) && |conf| <= TotalPos(t)
    requires 0 <= pos1 < pos2 < TotalPos(t) && n <= TotalPos(t)
    requires !InTuple(conf, pos2)
    ensures ChargedSum(t.(unpruned := t.unpruned[pos2 := rcs]), conf, pos1, rc1, n)
         == ChargedSum(t, conf, pos1, rc1, n)
  {
    if n > 0 {
      LaterUndefinedNotCharged(t, conf, pos1, rc1, pos2, rcs, n - 1);
      var t' := t.(unpruned := t.unpruned[pos2 := rcs]);
      if n - 1 != pos2 {
        assert t'.unpruned[n - 1] == t.unpruned[n - 1];
        assert forall i | 0 <= i < TotalPos(t) :: Abs(t', i) == Abs(t, i);
        assert AbsTuple(t', conf, |conf|) == AbsTuple(t, conf, |conf|) by {
          AbsTupleSameMap(t, t', conf, |conf|);
        }
        assert PosContrib(t', conf, pos1, rc1, n - 1) == PosContrib(t, conf, pos1, rc1, n - 1) by {
          var r := t.unpruned[n - 1];
          assert forall k | 0 <= k < |r| :: PairTerm(t', conf, pos1, rc1, n - 1, r[k]) == PairTerm(t, conf, pos1, rc1, n - 1, r[k]);
          assert seq(|r|, k requires 0 <= k < |r| => Finite(PairTerm(t', conf, pos1, rc1, n - 1, r[k])))
              == seq(|r|, k requires 0 <= k < |r| => Finite(PairTerm(t, conf, pos1, rc1, n - 1, r[k])));
        }
      }
    }
  }

  lemma {:induction false} AbsTupleSameMap(t: Tree, t': Tree, conf: seq<int>, n: nat)
    requires WellFormed(t) && n <= |conf| <= TotalPos(t)
    requires t'.allowed == t.allowed && t'.notAllowed == t.notAllowed && TotalPos(t') == TotalPos(t)
    ensures AbsTuple(t', conf, n) == AbsTuple(t, conf, n)
  {
    if n > 0 {
      AbsTupleSameMap(t, t', conf, n - 1);
    }
  }

  /** A conformation that defines every position has no h-score: its score is its g-score. */
  lemma {:induction false} FullyDefinedHasNoHScore(t: Tree, conf: seq<int>, n: nat)
    requires WellFormed(t) && |conf| <= TotalPos(t) && n <= TotalPos(t)
    requires forall p | 0 <= p < n :: InTuple(conf, p)
    ensures HScore(t, conf, n) == Finite(0.0)
  {
    if n > 0 {
      FullyDefinedHasNoHScore(t, conf, n - 1);
    }
  }

  lemma FullyDefinedScoreIsGScore(t: Tree, conf: seq<int>)
    requires WellFormed(t) && t.traditional && |conf| == TotalPos(t)
    requires forall p | 0 <= p < |conf| :: conf[p] != -1
    ensures ScoreNode(t, conf) == Success(Finite(GScore(t, conf)))
  {
    FullyDefinedHasNoHScore(t, conf, TotalPos(t));
  }

  // ---------------------------------------------------------------------------
  // posComesBefore: defined positions first, then undefined ones, each by number.

  predicate PosComesBefore(pos1: int, pos2: int, defined: set<int>): (b: bool)
    ensures b ==> pos1 != pos2
    ensures pos1 in defined && pos2 !in defined ==> b
    ensures pos1 !in defined && pos2 in defined ==> !b
  {
    if pos2 in defined then pos1 < pos2 && pos1 in defined
    else pos1 < pos2 || pos1 in defined
  }

  /** The ordering key: 0 for defined positions, 1 for undefined, then the position number. */
  function Group(p: int, defined: set<int>): int {
    if p in defined then 0 else 1
  }

  /** `posComesBefore` is exactly the lexicographic order on (group, position). */
  lemma PosComesBeforeIsLexicographic(pos1: int, pos2: int, defined: set<int>)
    ensures PosComesBefore(pos1, pos2, defined)
      <==> (|| Group(pos1, defined) < Group(pos2, defined)
            || (Group(pos1, defined) == Group(pos2, defined) && pos1 < pos2))
  {
  }

  /** It is a strict total order on positions. */
  lemma PosComesBeforeIsStrictTotalOrder(defined: set<int>)
    ensures forall p :: !PosComesBefore(p, p, defined)
    ensures forall p, q, r | PosComesBefore(p, q, defined) && PosComesBefore(q, r, defined) :: PosComesBefore(p, r, defined)
    ensures forall p, q | p != q :: PosComesBefore(p, q, defined) || PosComesBefore(q, p, defined)
  {
  }

  // ---------------------------------------------------------------------------
  // scoreConfDifferential.

  /** The conformation `scoreConfDifferential` scores: the parent's, with `childPos` set to
      `childRc` when `childPos` names a child.  The source asserts that the parent leaves
      `childPos` unassigned. */
  function ChildConf(parent: seq<int>, childPos: int, childRc: int): (r: seq<int>)
    requires childPos < |parent|
    requires childPos >= 0 ==> parent[childPos] < 0
    ensures |r| == |parent|
    ensures childPos < 0 ==> r == parent
    ensures childPos >= 0 ==> r[childPos] == childRc && forall p | 0 <= p < |r| && p != childPos :: r[p] == parent[p]
  {
    if childPos >= 0 then parent[childPos := childRc] else parent
  }

  /** A child assignment defines exactly one more position than its parent. */
  lemma ChildDefinesOneMore(parent: seq<int>, childPos: int, childRc: int)
    requires 0 <= childPos < |parent| && parent[childPos] < 0 && childRc >= 0
    ensures forall p :: InTuple(ChildConf(parent, childPos, childRc), p) <==> InTuple(parent, p) || p == childPos
  {
  }

  /** `scoreConfDifferential(parent, childPos, childRc)`: the score of the child conformation,
      which is the parent's own score when there is no child position.  Assigning one more
      position never makes a finite score infinite, and assigning the last unassigned position
      leaves the g-score alone. */
  function ScoreConfDifferential(t: Tree, parent: seq<int>, childPos: int, childRc: int): (r: Result<Bound, Error>)
    requires WellFormed(t) && |parent| <= TotalPos(t)
    requires childPos < |parent|
    requires childPos >= 0 ==> parent[childPos] < 0
    ensures r == ScoreNode(t, ChildConf(parent, childPos, childRc))
    ensures childPos < 0 ==> r == ScoreNode(t, parent)
    ensures t.traditional && childRc != -1 && ScoreNode(t, parent).value.Finite? ==> r.value.Finite?
    ensures t.traditional && childPos >= 0 && childRc != -1
      && (forall p | 0 <= p < TotalPos(t) && p != childPos :: InTuple(parent, p))
      ==> r == Success(Finite(GScore(t, ChildConf(parent, childPos, childRc))))
  {
    ChildUndefinedWithinParent(t, parent, childPos, childRc);
    ScoreNode(t, ChildConf(parent, childPos, childRc))
  }

  /** An assigned child leaves unassigned only positions its parent leaves unassigned, and none
      at all when the child position was the parent's last unassigned one. */
  lemma ChildUndefinedWithinParent(t: Tree, parent: seq<int>, childPos: int, childRc: int)
    requires WellFormed(t) && |parent| <= TotalPos(t)
    requires childPos < |parent|
    requires childPos >= 0 ==> parent[childPos] < 0
    ensures childPos >= 0 && childRc != -1 ==>
      (SomeUndefined(t, ChildConf(parent, childPos, childRc)) ==> SomeUndefined(t, parent))
    ensures childPos >= 0 && childRc != -1
      && (forall p | 0 <= p < TotalPos(t) && p != childPos :: InTuple(parent, p))
      ==> !SomeUndefined(t, ChildConf(parent, childPos, childRc))
  {
    var child := ChildConf(parent, childPos, childRc);
    if childPos >= 0 && childRc != -1 {
      if SomeUndefined(t, child) {
        var p :| 0 <= p < TotalPos(t) && !InTuple(child, p);
        assert p != childPos && !InTuple(parent, p);
      }
      if forall p | 0 <= p < TotalPos(t) && p != childPos :: InTuple(parent, p) {
        forall p | 0 <= p < TotalPos(t) ensures InTuple(child, p) {
          if p != childPos { assert InTuple(parent, p); }
        }
      }
    }
  }
}
