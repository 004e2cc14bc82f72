/** The partial-assignment index of the A* conformation search (`ConfIndex`).

    An index splits the positions `0 .. numPos-1` of a conformation space into the
    positions a search node has assigned ("defined", each with its residue conformation,
    RC) and the positions it has not ("undefined").  The Java class keeps the defined side
    as two parallel arrays `definedPos` / `definedRCs`; here it is one sequence of links,
    and `Positions` / `RCs` recover the two arrays. */
module ConfIndex {
  import opened Wrappers

  /** One decision of a search path: position `pos` takes RC `rc`. */
  datatype Link = Link(pos: int, rc: int)

  /** A search node, given by its decision chain read from the node up to (excluding) the root. */
  datatype Node = Node(chain: seq<Link>)

  /** `node` is the node this index was derived from, when it was derived from a node
      (the incremental derivation leaves it unset). */
  datatype Index = Index(numPos: nat, node: Option<Node>, defined: seq<Link>, undefined: seq<int>)

  /** A freshly constructed index: nothing indexed yet. */
  function Fresh(numPos: nat): Index {
    Index(numPos, None, [], [])
  }

  /** The positions of a link sequence, in order: the `definedPos` array of an index. */
  function Positions(links: seq<Link>): (r: seq<int>)
    ensures |r| == |links|
    ensures forall k | 0 <= k < |links| :: r[k] == links[k].pos
  {
    if |links| == 0 then [] else [links[0].pos] + Positions(links[1..])
  }

  /** The RCs of a link sequence, in order: the `definedRCs` array of an index. */
  function RCs(links: seq<Link>): (r: seq<int>)
    ensures |r| == |links|
    ensures forall k | 0 <= k < |links| :: r[k] == links[k].rc
  {
    if |links| == 0 then [] else [links[0].rc] + RCs(links[1..])
  }

  /** `isDefined(pos)`: some defined entry is at `pos`. */
  predicate IsDefined(idx: Index, pos: int): (b: bool)
    ensures b <==> exists i | 0 <= i < |idx.defined| :: idx.defined[i].pos == pos
  {
    pos in Positions(idx.defined)
  }

  /** `isUndefined(pos)`: `pos` occurs in the undefined list. */
  predicate IsUndefined(idx: Index, pos: int) {
    pos in idx.undefined
  }

  predicate StrictlyIncreasing(s: seq<int>) {
    forall i, j | 0 <= i < j < |s| :: s[i] < s[j]
  }

  predicate InRange(s: seq<int>, lo: int, hi: int) {
    forall k | 0 <= k < |s| :: lo <= s[k] < hi
  }

  predicate LinksInRange(s: seq<Link>, lo: int, hi: int) {
    forall k | 0 <= k < |s| :: lo <= s[k].pos < hi
  }

  predicate NoDuplicates(s: seq<int>) {
    forall i, j | 0 <= i < j < |s| :: s[i] != s[j]
  }

  predicate LinksIncreasing(s: seq<Link>) {
    forall i, j | 0 <= i < j < |s| :: s[i].pos < s[j].pos
  }

  predicate LinksSorted(s: seq<Link>) {
    forall i, j | 0 <= i < j < |s| :: s[i].pos <= s[j].pos
  }

  /** Putting a link in front of strictly ordered links whose positions are all larger. */
  lemma ConsIncreasing(x: Link, rest: seq<Link>)
    requires LinksIncreasing(rest)
    requires forall j | 0 <= j < |rest| :: x.pos < rest[j].pos
    ensures LinksIncreasing([x] + rest)
  {
    forall i, j | 0 <= i < j < |[x] + rest| ensures ([x] + rest)[i].pos < ([x] + rest)[j].pos {
      if i > 0 {
        assert ([x] + rest)[i] == rest[i - 1];
      }
      assert ([x] + rest)[j] == rest[j - 1];
    }
  }

  /** Putting a position in front of strictly increasing positions that are all larger. */
  lemma ConsStrict(x: int, rest: seq<int>)
    requires StrictlyIncreasing(rest)
    requires forall j | 0 <= j < |rest| :: x < rest[j]
    ensures StrictlyIncreasing([x] + rest)
  {
    forall i, j | 0 <= i < j < |[x] + rest| ensures ([x] + rest)[i] < ([x] + rest)[j] {
      if i > 0 {
        assert ([x] + rest)[i] == rest[i - 1];
      }
      assert ([x] + rest)[j] == rest[j - 1];
    }
  }

  /** Cutting a sequence after its head at `k + 1` cuts its tail at `k`. */
  lemma ConsSlices<T>(s: seq<T>, k: nat)
    requires k < |s|
    ensures s[..k + 1] == [s[0]] + s[1..][..k]
    ensures s[k + 1..] == s[1..][k..]
  {
  }

  /** The invariant every index derived from a node keeps: the defined and undefined
      positions partition `0 .. numPos-1`, each side in increasing position order. */
  predicate Valid(idx: Index) {
    && |idx.defined| + |idx.undefined| == idx.numPos
    && LinksIncreasing(idx.defined)
    && StrictlyIncreasing(idx.undefined)
    && LinksInRange(idx.defined, 0, idx.numPos)
    && InRange(idx.undefined, 0, idx.numPos)
    && (forall p | 0 <= p < idx.numPos :: IsDefined(idx, p) <==> !IsUndefined(idx, p))
  }

  /** In a valid index `isUndefined` is the complement of `isDefined` within the index's
      positions, and no position outside them is either. */
  lemma UndefinedIsComplement(idx: Index, pos: int)
    requires Valid(idx)
    ensures 0 <= pos < idx.numPos ==> (IsUndefined(idx, pos) <==> !IsDefined(idx, pos))
    ensures !(0 <= pos < idx.numPos) ==> !IsUndefined(idx, pos) && !IsDefined(idx, pos)
  {
    if IsDefined(idx, pos) {
      var i :| 0 <= i < |idx.defined| && idx.defined[i].pos == pos;
    }
  }

  /** A decision chain as the search builds it: every position at most once, all in range. */
  predicate WellFormedChain(chain: seq<Link>, numPos: nat) {
    NoDuplicates(Positions(chain)) && LinksInRange(chain, 0, numPos)
  }

  // ---------------------------------------------------------------------------
  // Sorting the link chain (Collections.sort on the links, ordered by position).

  /** Stable insertion of `l` in front of the first link whose position is not smaller. */
  function InsertByPos(l: Link, s: seq<Link>): (r: seq<Link>)
    requires LinksSorted(s)
    ensures LinksSorted(r)
    ensures multiset(r) == multiset(s) + multiset{l}
    ensures |r| == |s| + 1 && (r[0] == l || (|s| > 0 && r[0] == s[0]))
  {
    if |s| == 0 || l.pos <= s[0].pos then [l] + s
    else
      assert s == [s[0]] + s[1..];
      [s[0]] + InsertByPos(l, s[1..])
  }

  /** Inserting a link whose position is new into strictly ordered links keeps them strictly ordered. */
  lemma {:induction false} InsertByPosStrict(l: Link, s: seq<Link>)
    requires LinksIncreasing(s) && l.pos !in Positions(s)
    ensures LinksIncreasing(InsertByPos(l, s))
  {
    if |s| > 0 {
      assert Positions(s)[0] == s[0].pos;
      if l.pos > s[0].pos {
        assert Positions(s[1..]) == Positions(s)[1..];
        InsertByPosStrict(l, s[1..]);
        var rest := InsertByPos(l, s[1..]);
        forall j | 0 <= j < |rest| ensures s[0].pos < rest[j].pos {
          if j > 0 {
            assert rest[0].pos < rest[j].pos;
          }
        }
        ConsIncreasing(s[0], rest);
        assert InsertByPos(l, s) == [s[0]] + rest;
      }
    }
  }

  function SortByPos(s: seq<Link>): (r: seq<Link>)
    ensures LinksSorted(r)
    ensures multiset(r) == multiset(s)
    ensures |r| == |s|
  {
    if |s| == 0 then []
    else
      assert s == [s[0]] + s[1..];
      InsertByPos(s[0], SortByPos(s[1..]))
  }

  /** Sorting a chain whose positions are distinct orders it strictly by position. */
  lemma {:induction false} SortDistinctIsIncreasing(s: seq<Link>)
    requires NoDuplicates(Positions(s))
    ensures LinksIncreasing(SortByPos(s))
  {
    if |s| > 0 {
      assert Positions(s[1..]) == Positions(s)[1..];
      SortDistinctIsIncreasing(s[1..]);
      var t := SortByPos(s[1..]);
      forall k | 0 <= k < |t| ensures t[k].pos != s[0].pos {
        assert t[k] in multiset(s[1..]);
        var j :| 0 <= j < |s[1..]| && s[1..][j] == t[k];
        assert Positions(s)[j + 1] == t[k].pos;
      }
      assert s[0].pos !in Positions(t);
      InsertByPosStrict(s[0], t);
    }
  }

  // ---------------------------------------------------------------------------
  // index(node): walk the positions, matching them against the sorted links.

  /** The position walk of `index(node)` from position `pos` on, with `links` the sorted
      links not yet matched: a position equal to the next link's position is defined
      (and the walk moves to the following link), any other position is undefined. */
  function SplitFrom(numPos: nat, pos: nat, links: seq<Link>): (r: (seq<Link>, seq<int>))
    requires pos <= numPos
    decreases numPos - pos
    ensures |r.0| + |r.1| == numPos - pos
    ensures LinksIncreasing(r.0) && StrictlyIncreasing(r.1)
    ensures LinksInRange(r.0, pos, numPos) && InRange(r.1, pos, numPos)
    ensures forall k | 0 <= k < |r.0| :: r.0[k] in links
    ensures forall p | pos <= p < numPos :: p in Positions(r.0) <==> p !in r.1
  {
    if pos == numPos then ([], [])
    else if |links| > 0 && links[0].pos == pos then
      var rest := SplitFrom(numPos, pos + 1, links[1..]);
      SplitDefinedStep(numPos, pos, links, rest);
      ([links[0]] + rest.0, rest.1)
    else
      var rest := SplitFrom(numPos, pos + 1, links);
      SplitUndefinedStep(numPos, pos, links, rest);
      (rest.0, [pos] + rest.1)
  }

  /** What the walk from `pos` produces: the positions `pos .. numPos-1` split into defined
      links (taken from `links`) and undefined positions, each side strictly increasing. */
  predicate SplitShape(r: (seq<Link>, seq<int>), numPos: nat, pos: nat, links: seq<Link>) {
    && pos <= numPos
    && |r.0| + |r.1| == numPos - pos
    && LinksIncreasing(r.0) && StrictlyIncreasing(r.1)
    && LinksInRange(r.0, pos, numPos) && InRange(r.1, pos, numPos)
    && (forall k | 0 <= k < |r.0| :: r.0[k] in links)
    && (forall p | pos <= p < numPos :: p in Positions(r.0) <==> p !in r.1)
  }

  lemma SplitDefinedStep(numPos: nat, pos: nat, links: seq<Link>, rest: (seq<Link>, seq<int>))
    requires pos < numPos && |links| > 0 && links[0].pos == pos
    requires SplitShape(rest, numPos, pos + 1, links[1..])
    ensures SplitShape(([links[0]] + rest.0, rest.1), numPos, pos, links)
  {
    forall k | 0 <= k < |rest.0| ensures rest.0[k] in links {
      var j :| 0 <= j < |links[1..]| && links[1..][j] == rest.0[k];
      assert links[j + 1] == rest.0[k];
    }
    assert Positions([links[0]] + rest.0) == [pos] + Positions(rest.0);
    ConsIncreasing(links[0], rest.0);
    var d := [links[0]] + rest.0;
    forall k | 0 <= k < |d| ensures d[k] in links {
      if k > 0 {
        assert d[k] == rest.0[k - 1];
      }
    }
  }

  lemma SplitUndefinedStep(numPos: nat, pos: nat, links: seq<Link>, rest: (seq<Link>, seq<int>))
    requires pos < numPos
    requires SplitShape(rest, numPos, pos + 1, links)
    ensures SplitShape((rest.0, [pos] + rest.1), numPos, pos, links)
  {
    ConsStrict(pos, rest.1);
    assert pos !in Positions(rest.0);
  }

  /** `index(node)`: nothing happens when `idx` already indexes `node`; otherwise the chain
      is sorted by position and the positions are split against it. */
  function IndexNode(idx: Index, node: Node): (r: Index)
    ensures r.numPos == idx.numPos && r.node == Some(node)
    ensures idx.node == Some(node) ==> r == idx
    ensures idx.node != Some(node) ==> Valid(r)
    ensures idx.node != Some(node) ==> forall k | 0 <= k < |r.defined| :: r.defined[k] in node.chain
  {
    if idx.node == Some(node) then idx
    else
      var sorted := SortByPos(node.chain);
      var split := SplitFrom(idx.numPos, 0, sorted);
      assert forall k | 0 <= k < |split.0| :: split.0[k] in node.chain by {
        forall k | 0 <= k < |split.0| ensures split.0[k] in node.chain {
          assert split.0[k] in multiset(sorted);
        }
      }
      Index(idx.numPos, Some(node), split.0, split.1)
  }

  /** Re-indexing the node an index already holds changes nothing. */
  lemma IndexNodeIdempotent(idx: Index, node: Node)
    ensures IndexNode(IndexNode(idx, node), node) == IndexNode(idx, node)
  {
  }

  /** The walk over increasing links that all lie in `pos .. numPos-1` defines exactly those links. */
  lemma {:induction false} SplitConsumesLinks(numPos: nat, pos: nat, links: seq<Link>)
    requires pos <= numPos
    requires LinksIncreasing(links)
    requires LinksInRange(links, pos, numPos)
    ensures SplitFrom(numPos, pos, links).0 == links
    decreases numPos - pos
  {
    if |links| > 0 {
      assert pos <= links[0].pos < numPos;
    }
    if pos == numPos {
    } else if |links| > 0 && links[0].pos == pos {
      var tail := links[1..];
      TailFromNext(links, pos, numPos);
      SplitConsumesLinks(numPos, pos + 1, tail);
      SplitFromStep(numPos, pos, links);
      assert links == [links[0]] + tail;
    } else {
      SkipPos(links, pos, numPos);
      SplitConsumesLinks(numPos, pos + 1, links);
      SplitFromStep(numPos, pos, links);
    }
  }

  /** One step of the walk: a position matching the next link defines it, any other is skipped. */
  lemma SplitFromStep(numPos: nat, pos: nat, links: seq<Link>)
    requires pos < numPos
    ensures |links| > 0 && links[0].pos == pos ==>
      SplitFrom(numPos, pos, links).0 == [links[0]] + SplitFrom(numPos, pos + 1, links[1..]).0
    ensures !(|links| > 0 && links[0].pos == pos) ==>
      SplitFrom(numPos, pos, links).0 == SplitFrom(numPos, pos + 1, links).0
  {
  }

  /** Once the first link is at `pos`, the others are strictly ordered and lie after it. */
  lemma TailFromNext(links: seq<Link>, pos: int, numPos: int)
    requires LinksIncreasing(links) && LinksInRange(links, pos, numPos)
    requires |links| > 0 && links[0].pos == pos
    ensures LinksIncreasing(links[1..]) && LinksInRange(links[1..], pos + 1, numPos)
  {
    forall k | 0 <= k < |links[1..]| ensures pos + 1 <= links[1..][k].pos < numPos {
      assert links[1..][k] == links[k + 1];
    }
    forall i, j | 0 <= i < j < |links[1..]| ensures links[1..][i].pos < links[1..][j].pos {
      assert links[1..][i] == links[i + 1] && links[1..][j] == links[j + 1];
    }
  }

  /** When no link sits at `pos`, all of them lie after it. */
  lemma SkipPos(links: seq<Link>, pos: int, numPos: int)
    requires LinksIncreasing(links) && LinksInRange(links, pos, numPos)
    requires |links| == 0 || links[0].pos != pos
    ensures LinksInRange(links, pos + 1, numPos)
  {
    forall k | 0 <= k < |links| ensures pos + 1 <= links[k].pos < numPos {
      if k > 0 {
        assert links[0].pos < links[k].pos;
      }
    }
  }

  /** For a well-formed chain, `index(node)` defines exactly the chain's links sorted by position,
      so `definedRCs[k]` is the RC the chain gives to `definedPos[k]`. */
  lemma IndexNodeDefinesChain(idx: Index, chain: seq<Link>)
    requires idx.node != Some(Node(chain))
    requires WellFormedChain(chain, idx.numPos)
    ensures IndexNode(idx, Node(chain)).defined == SortByPos(chain)
    ensures multiset(IndexNode(idx, Node(chain)).defined) == multiset(chain)
    ensures |IndexNode(idx, Node(chain)).undefined| == idx.numPos - |chain|
  {
    var sorted := SortByPos(chain);
    SortDistinctIsIncreasing(chain);
    assert LinksInRange(sorted, 0, idx.numPos) by {
      forall k | 0 <= k < |sorted| ensures 0 <= sorted[k].pos < idx.numPos {
        assert sorted[k] in multiset(chain);
        var j :| 0 <= j < |chain| && chain[j] == sorted[k];
      }
    }
    SplitConsumesLinks(idx.numPos, 0, sorted);
  }

  // ---------------------------------------------------------------------------
  // index(other, nextPos, nextRc): the incremental derivation.

  /** The undefined-side loop: copy every position except `p`, keeping their order. */
  function RemovePos(undefined: seq<int>, p: int): (r: seq<int>)
    ensures |r| <= |undefined|
    ensures p !in r
  {
    if |undefined| == 0 then []
    else if undefined[0] != p then [undefined[0]] + RemovePos(undefined[1..], p)
    else RemovePos(undefined[1..], p)
  }

  /** Number of leading entries whose position is below `p`: the rank `p` is inserted at. */
  function Rank(defined: seq<Link>, p: int): (k: nat)
    ensures k <= |defined|
    ensures forall j | 0 <= j < k :: defined[j].pos < p
    ensures k < |defined| ==> p <= defined[k].pos
  {
    if |defined| == 0 || p <= defined[0].pos then 0 else 1 + Rank(defined[1..], p)
  }

  /** The defined-side loop of the incremental index copies the entries before `next`'s rank,
      writes `next` at its rank and shifts the later entries up by one: that is `InsertByPos`. */
  lemma {:induction false} InsertAtRankIsSplice(defined: seq<Link>, next: Link)
    requires LinksSorted(defined)
    ensures InsertByPos(next, defined)
      == defined[..Rank(defined, next.pos)] + [next] + defined[Rank(defined, next.pos)..]
  {
    if |defined| > 0 && next.pos > defined[0].pos {
      InsertAtRankIsSplice(defined[1..], next);
      ConsSlices(defined, Rank(defined[1..], next.pos));
    }
  }

  lemma {:induction false} RankBounds(defined: seq<Link>, p: int)
    requires LinksIncreasing(defined)
    ensures forall j | 0 <= j < Rank(defined, p) :: defined[j].pos < p
    ensures forall j | Rank(defined, p) <= j < |defined| :: p <= defined[j].pos
  {
    if |defined| > 0 {
      if p <= defined[0].pos {
        assert forall j | 0 <= j < |defined| :: defined[0].pos <= defined[j].pos;
      } else {
        RankBounds(defined[1..], p);
        assert forall j | 0 < j < |defined| :: defined[j] == defined[1..][j - 1];
      }
    }
  }

  lemma {:induction false} RemovePosMembers(s: seq<int>, p: int)
    ensures forall q :: q in RemovePos(s, p) <==> q in s && q != p
  {
    if |s| > 0 {
      RemovePosMembers(s[1..], p);
      assert s == [s[0]] + s[1..];
    }
  }

  lemma {:induction false} RemovePosAbsent(s: seq<int>, p: int)
    requires p !in s
    ensures RemovePos(s, p) == s
  {
    if |s| > 0 {
      RemovePosAbsent(s[1..], p);
      assert s == [s[0]] + s[1..];
    }
  }

  /** Removing a position that occurs once leaves a gap: putting it back at `i` restores the list. */
  lemma {:induction false} RemovePosSplits(s: seq<int>, p: int) returns (i: nat)
    requires StrictlyIncreasing(s)
    requires p in s
    ensures i <= |RemovePos(s, p)|
    ensures s == RemovePos(s, p)[..i] + [p] + RemovePos(s, p)[i..]
  {
    assert s == [s[0]] + s[1..];
    if s[0] == p {
      assert p !in s[1..] by {
        forall k | 0 <= k < |s[1..]| ensures s[1..][k] != p {
          assert s[0] < s[k + 1];
        }
      }
      RemovePosAbsent(s[1..], p);
      i := 0;
    } else {
      var tail := s[1..];
      assert StrictlyIncreasing(tail) by { TailIncreasing(s); }
      assert p in tail;
      var j := RemovePosSplits(tail, p);
      var rest := RemovePos(tail, p);
      var r := RemovePos(s, p);
      assert r == [s[0]] + rest;
      SpliceCons(s[0], tail, rest, p, j);
      i := j + 1;
    }
  }

  /** A gap in the tail is a gap one further along in the whole sequence. */
  lemma SpliceCons(x: int, tail: seq<int>, rest: seq<int>, p: int, j: nat)
    requires j <= |rest| && tail == rest[..j] + [p] + rest[j..]
    ensures [x] + tail == ([x] + rest)[..j + 1] + [p] + ([x] + rest)[j + 1..]
  {
    ConsSlices([x] + rest, j);
    assert ([x] + rest)[1..] == rest;
  }

  lemma TailIncreasing(s: seq<int>)
    requires StrictlyIncreasing(s) && |s| > 0
    ensures StrictlyIncreasing(s[1..])
  {
    forall i, j | 0 <= i < j < |s[1..]| ensures s[1..][i] < s[1..][j] {
      assert s[1..][i] == s[i + 1] && s[1..][j] == s[j + 1];
    }
  }

  lemma {:induction false} RemovePosKeepsOrder(s: seq<int>, p: int)
    requires StrictlyIncreasing(s)
    ensures StrictlyIncreasing(RemovePos(s, p))
  {
    if |s| > 0 {
      RemovePosKeepsOrder(s[1..], p);
      RemovePosMembers(s[1..], p);
      var rest := RemovePos(s[1..], p);
      forall k | 0 <= k < |rest| ensures s[0] < rest[k] {
        assert rest[k] in rest;
        var j :| 0 <= j < |s[1..]| && s[1..][j] == rest[k];
        assert s[j + 1] == rest[k];
      }
    }
  }

  lemma {:induction false} RemovePosInRange(s: seq<int>, p: int, lo: int, hi: int)
    requires InRange(s, lo, hi)
    ensures InRange(RemovePos(s, p), lo, hi)
  {
    if |s| > 0 {
      assert InRange(s[1..], lo, hi) by {
        forall k | 0 <= k < |s[1..]| ensures lo <= s[1..][k] < hi {
          assert s[1..][k] == s[k + 1];
        }
      }
      RemovePosInRange(s[1..], p, lo, hi);
    }
  }

  /** Inserting a link adds exactly its position to the positions. */
  lemma {:induction false} InsertByPosPositions(l: Link, s: seq<Link>)
    requires LinksSorted(s)
    ensures forall q :: q in Positions(InsertByPos(l, s)) <==> q == l.pos || q in Positions(s)
  {
    if |s| > 0 && l.pos > s[0].pos {
      InsertByPosPositions(l, s[1..]);
      assert Positions(s) == [s[0].pos] + Positions(s[1..]);
    }
  }

  lemma {:induction false} InsertByPosInRange(l: Link, s: seq<Link>, lo: int, hi: int)
    requires LinksSorted(s)
    requires LinksInRange(s, lo, hi) && lo <= l.pos < hi
    ensures LinksInRange(InsertByPos(l, s), lo, hi)
  {
    if |s| > 0 && l.pos > s[0].pos {
      assert LinksInRange(s[1..], lo, hi) by {
        forall k | 0 <= k < |s[1..]| ensures lo <= s[1..][k].pos < hi {
          assert s[1..][k] == s[k + 1];
        }
      }
      InsertByPosInRange(l, s[1..], lo, hi);
    }
  }

  /** What the defined-side loop achieves: the new link goes in at its rank, the order stays
      strict and the positions gain exactly the new one. */
  lemma DefinedSideInsert(defined: seq<Link>, next: Link, numPos: nat)
    requires LinksIncreasing(defined) && LinksInRange(defined, 0, numPos)
    requires 0 <= next.pos < numPos && next.pos !in Positions(defined)
    ensures LinksIncreasing(InsertByPos(next, defined))
    ensures LinksInRange(InsertByPos(next, defined), 0, numPos)
    ensures forall q :: q in Positions(InsertByPos(next, defined)) <==> q == next.pos || q in Positions(defined)
    ensures exists k | 0 <= k <= |defined| ::
      && InsertByPos(next, defined) == defined[..k] + [next] + defined[k..]
      && (forall j | 0 <= j < k :: defined[j].pos < next.pos)
      && (forall j | k <= j < |defined| :: next.pos <= defined[j].pos)
  {
    var ins := InsertByPos(next, defined);
    assert LinksIncreasing(ins) by { InsertByPosStrict(next, defined); }
    assert LinksInRange(ins, 0, numPos) by { InsertByPosInRange(next, defined, 0, numPos); }
    assert forall q :: q in Positions(ins) <==> q == next.pos || q in Positions(defined) by {
      InsertByPosPositions(next, defined);
    }
    var k := InsertAtRank(defined, next);
  }

  /** The rank the new link is inserted at: everything before it is smaller, nothing after is. */
  lemma InsertAtRank(defined: seq<Link>, next: Link) returns (k: nat)
    requires LinksIncreasing(defined)
    ensures k <= |defined|
    ensures InsertByPos(next, defined) == defined[..k] + [next] + defined[k..]
    ensures forall j | 0 <= j < k :: defined[j].pos < next.pos
    ensures forall j | k <= j < |defined| :: next.pos <= defined[j].pos
  {
    k := Rank(defined, next.pos);
    InsertAtRankIsSplice(defined, next);
    RankBounds(defined, next.pos);
  }

  /** What the undefined-side loop achieves: the position leaves a gap, the rest keep order. */
  lemma UndefinedSideRemove(undefined: seq<int>, p: int, numPos: nat)
    requires StrictlyIncreasing(undefined) && InRange(undefined, 0, numPos) && p in undefined
    ensures StrictlyIncreasing(RemovePos(undefined, p))
    ensures InRange(RemovePos(undefined, p), 0, numPos)
    ensures |RemovePos(undefined, p)| == |undefined| - 1
    ensures forall q :: q in RemovePos(undefined, p) <==> q in undefined && q != p
    ensures exists i | 0 <= i <= |RemovePos(undefined, p)| ::
      undefined == RemovePos(undefined, p)[..i] + [p] + RemovePos(undefined, p)[i..]
  {
    var i := RemovePosSplits(undefined, p);
    RemovePosMembers(undefined, p);
    RemovePosKeepsOrder(undefined, p);
    RemovePosInRange(undefined, p, 0, numPos);
  }

  /** `index(other, nextPos, nextRc)`: the index of the child that also assigns `nextPos`.
      The source asserts that `nextPos` is undefined and not defined in `other`; `Valid(other)`
      is the invariant every index derived from a node keeps. */
  function IndexNext(other: Index, nextPos: int, nextRc: int): (r: Index)
    requires Valid(other)
    requires IsUndefined(other, nextPos) && !IsDefined(other, nextPos)
    ensures Valid(r)
    ensures r.numPos == other.numPos && r.node == None
    ensures |r.defined| == |other.defined| + 1 && |r.undefined| == |other.undefined| - 1
    ensures exists k | 0 <= k <= |other.defined| ::
      && r.defined == other.defined[..k] + [Link(nextPos, nextRc)] + other.defined[k..]
      && (forall j | 0 <= j < k :: other.defined[j].pos < nextPos)
      && (forall j | k <= j < |other.defined| :: nextPos <= other.defined[j].pos)
    ensures exists i | 0 <= i <= |r.undefined| ::
      other.undefined == r.undefined[..i] + [nextPos] + r.undefined[i..]
    ensures IsDefined(r, nextPos) && !IsUndefined(r, nextPos)
    ensures forall q | q != nextPos :: IsDefined(r, q) == IsDefined(other, q)
    ensures forall q | q != nextPos :: IsUndefined(r, q) == IsUndefined(other, q)
  {
    var next := Link(nextPos, nextRc);
    assert 0 <= nextPos < other.numPos by {
      var i :| 0 <= i < |other.undefined| && other.undefined[i] == nextPos;
    }
    DefinedSideInsert(other.defined, next, other.numPos);
    UndefinedSideRemove(other.undefined, nextPos, other.numPos);
    var r := Index(other.numPos, None, InsertByPos(next, other.defined), RemovePos(other.undefined, nextPos));
    assert forall p | 0 <= p < r.numPos :: IsDefined(r, p) <==> !IsUndefined(r, p) by {
      forall p | 0 <= p < r.numPos ensures IsDefined(r, p) <==> !IsUndefined(r, p) {
        assert IsDefined(other, p) <==> !IsUndefined(other, p);
      }
    }
    r
  }

  /** In a valid index the defined side determines the undefined side. */
  lemma UndefinedDeterminedByDefined(a: Index, b: Index)
    requires Valid(a) && Valid(b)
    requires a.numPos == b.numPos && a.defined == b.defined
    ensures a.undefined == b.undefined
  {
    forall q ensures q in a.undefined <==> q in b.undefined {
      if !(0 <= q < a.numPos) {
        InRangeExcludes(a.undefined, 0, a.numPos, q);
        InRangeExcludes(b.undefined, 0, b.numPos, q);
      } else {
        assert IsDefined(a, q) <==> !IsUndefined(a, q);
        assert IsDefined(b, q) <==> !IsUndefined(b, q);
      }
    }
    IncreasingIntsEqual(a.undefined, b.undefined);
  }

  lemma InRangeExcludes(s: seq<int>, lo: int, hi: int, q: int)
    requires InRange(s, lo, hi)
    requires !(lo <= q < hi)
    ensures q !in s
  {
  }

  /** A position the chain does not assign is undefined in the chain's index. */
  lemma ChainIndexLacks(numPos: nat, chain: seq<Link>, p: int)
    requires WellFormedChain(chain, numPos)
    requires 0 <= p < numPos && p !in Positions(chain)
    ensures IsUndefined(IndexNode(Fresh(numPos), Node(chain)), p)
    ensures !IsDefined(IndexNode(Fresh(numPos), Node(chain)), p)
  {
    var idx := IndexNode(Fresh(numPos), Node(chain));
    forall k | 0 <= k < |idx.defined| ensures idx.defined[k].pos != p {
      var a :| 0 <= a < |chain| && chain[a] == idx.defined[k];
      assert Positions(chain)[a] == idx.defined[k].pos;
    }
  }

  /** Deriving a child's index incrementally gives the same index as re-deriving it from the
      child's whole decision chain. */
  lemma IncrementalMatchesFull(numPos: nat, chain: seq<Link>, nextPos: int, nextRc: int)
    requires WellFormedChain(chain, numPos)
    requires 0 <= nextPos < numPos
    requires nextPos !in Positions(chain)
    ensures
      var parent := IndexNode(Fresh(numPos), Node(chain));
      && IsUndefined(parent, nextPos) && !IsDefined(parent, nextPos)
      && IndexNext(parent, nextPos, nextRc).defined
           == IndexNode(Fresh(numPos), Node([Link(nextPos, nextRc)] + chain)).defined
      && IndexNext(parent, nextPos, nextRc).undefined
           == IndexNode(Fresh(numPos), Node([Link(nextPos, nextRc)] + chain)).undefined
  {
    var next := Link(nextPos, nextRc);
    var childChain := [next] + chain;
    IndexNodeDefinesChain(Fresh(numPos), chain);
    assert WellFormedChain(childChain, numPos) by {
      assert Positions(childChain) == [nextPos] + Positions(chain);
    }
    IndexNodeDefinesChain(Fresh(numPos), childChain);
    ChainIndexLacks(numPos, chain, nextPos);
    var parent := IndexNode(Fresh(numPos), Node(chain));
    var inc := IndexNext(parent, nextPos, nextRc);
    var full := IndexNode(Fresh(numPos), Node(childChain));
    assert inc.defined == full.defined by {
      assert childChain[1..] == chain;
    }
    UndefinedDeterminedByDefined(inc, full);
  }

  lemma {:induction false} IncreasingIntsEqual(a: seq<int>, b: seq<int>)
    requires StrictlyIncreasing(a) && StrictlyIncreasing(b)
    requires forall q :: q in a <==> q in b
    ensures a == b
  {
    if |a| > 0 {
      assert a[0] in a;
    }
    if |b| > 0 {
      assert b[0] in b;
    }
    if |a| > 0 && |b| > 0 {
      var i :| 0 <= i < |b| && b[i] == a[0];
      var j :| 0 <= j < |a| && a[j] == b[0];
      assert i == 0 by {
        assert a[0] <= a[j];
        assert b[0] <= b[i];
      }
      assert a == [a[0]] + a[1..] && b == [b[0]] + b[1..];
      forall q ensures q in a[1..] <==> q in b[1..] {
        assert q in a <==> q in b;
      }
      IncreasingIntsEqual(a[1..], b[1..]);
    }
  }
}
