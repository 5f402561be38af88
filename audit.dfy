/** What the counting part of PrintViolations counts, as definitions over a grid
    value, and the facts the scan needs to compute them. */
module Audit {
  import opened Board

  type Pair = (Position, Position)

  /** The flagged violations: ordered pairs (occupied cell p, occupied on-grid
      orthogonal neighbour q) where q's occupant is named in p's occupant's own
      flagged list. A mutually flagged adjacent pair is two violations. */
  function FlaggedPairs(s: Setup, m: Occupancy): set<Pair>
  {
    set p, q | p in m && q in m && OnGrid(s, p) && Adjacent(p, q) && FlaggedNeighbour(s, m, m[p], q) :: (p, q)
  }

  function FlaggedViolations(s: Setup, m: Occupancy): nat
  {
    |FlaggedPairs(s, m)|
  }

  /** A student with at least one friend, none of whom is placed next to them
      (a student who is not on the grid has no one next to them). */
  predicate Separated(s: Setup, m: Occupancy, name: string)
  {
    && name in s.friendships
    && |s.friendships[name]| > 0
    && !exists f :: f in s.friendships[name] && Find(s, m, f) != NotFound && Adjacent(Find(s, m, name), Find(s, m, f))
  }

  /** Positions in the roster of the separated students among the first k. */
  function SeparatedAmong(s: Setup, m: Occupancy, students: seq<string>, k: nat): set<int>
  {
    set i | 0 <= i < k && i < |students| && Separated(s, m, students[i])
  }

  /** The friend separation violations: one per roster entry that is separated. */
  function FriendViolations(s: Setup, m: Occupancy, students: seq<string>): nat
  {
    |SeparatedAmong(s, m, students, |students|)|
  }

  // ---------------------------------------------------------------- properties

  /** Two adjacent students who flag each other are counted twice. */
  lemma MutualFlagsCountTwice(s: Setup, m: Occupancy, p: Position, q: Position)
    requires p in m && q in m && OnGrid(s, p) && OnGrid(s, q) && Adjacent(p, q)
    requires m[p] in s.flaggedPairs && m[q] in s.flaggedPairs[m[p]]
    requires m[q] in s.flaggedPairs && m[p] in s.flaggedPairs[m[q]]
    ensures (p, q) in FlaggedPairs(s, m) && (q, p) in FlaggedPairs(s, m) && (p, q) != (q, p)
  {
    assert FlaggedNeighbour(s, m, m[p], q) && FlaggedNeighbour(s, m, m[q], p);
  }

  /** A flag is one-directional: a neighbour's flag on a student who does not
      flag back counts once, from the flagging side only. */
  lemma OneSidedFlagCountsOnce(s: Setup, m: Occupancy, p: Position, q: Position)
    requires p in m && q in m && OnGrid(s, p) && OnGrid(s, q) && Adjacent(p, q)
    requires m[p] in s.flaggedPairs && m[q] in s.flaggedPairs[m[p]]
    requires m[q] !in s.flaggedPairs
    ensures (p, q) in FlaggedPairs(s, m) && (q, p) !in FlaggedPairs(s, m)
  {
    assert FlaggedNeighbour(s, m, m[p], q);
  }

  /** A student with friends who is not on the grid is always separated. */
  lemma UnplacedIsSeparated(s: Setup, m: Occupancy, name: string)
    requires name in s.friendships && |s.friendships[name]| > 0
    requires forall p :: !Holds(s, m, p, name)
    ensures Separated(s, m, name)
  {
    FindPosition(s, m, name);
    forall f | f in s.friendships[name] && Find(s, m, f) != NotFound
      ensures !Adjacent(Find(s, m, name), Find(s, m, f))
    {
      FindPosition(s, m, f);
    }
  }

  // ---------------------------------------------------------------- the scans

  /** The flagged violations recorded while the row-major scan stands at `cut`. */
  function FlaggedPairsBefore(s: Setup, m: Occupancy, cut: Position): set<Pair>
  {
    set p, q | p in m && q in m && OnGrid(s, p) && RowMajorBefore(p, cut) && Adjacent(p, q) && FlaggedNeighbour(s, m, m[p], q) :: (p, q)
  }

  /** How many flagged violations the row-major scan has counted at `cut`. */
  function CountedBefore(s: Setup, m: Occupancy, cut: Position): nat
  {
    |FlaggedPairsBefore(s, m, cut)|
  }

  /** The scan starts with nothing counted ... */
  lemma CountedBeforeStart(s: Setup, m: Occupancy)
    ensures CountedBefore(s, m, (0, 0)) == 0
  {
    FlaggedPairsBeforeStart(s, m);
  }

  /** ... and ends with every violation counted. */
  lemma CountedBeforeEnd(s: Setup, m: Occupancy)
    ensures CountedBefore(s, m, (s.rows, 0)) == FlaggedViolations(s, m)
  {
    FlaggedPairsBeforeEnd(s, m);
  }

  /** Each cell adds its own violations. */
  lemma CountedBeforeStep(s: Setup, m: Occupancy, r: int, c: int, count: nat, here: nat)
    requires OnGrid(s, (r, c))
    requires count == CountedBefore(s, m, (r, c)) && here == |FlaggedPairsAt(s, m, (r, c), 4)|
    ensures count + here == CountedBefore(s, m, (r, c + 1))
  {
    FlaggedPairsBeforeStep(s, m, (r, c));
  }

  /** Nothing is lost at the end of a row. */
  lemma CountedBeforeNextRow(s: Setup, m: Occupancy, r: int)
    ensures CountedBefore(s, m, (r, s.cols)) == CountedBefore(s, m, (r + 1, 0))
  {
    FlaggedPairsBeforeNextRow(s, m, r);
  }

  /** The flagged violations of cell `p` found in its first k directions. */
  function FlaggedPairsAt(s: Setup, m: Occupancy, p: Position, k: nat): set<Pair>
    requires k <= 4
  {
    set d | 0 <= d < k && p in m && FlaggedNeighbour(s, m, m[p], Neighbour(p, d)) :: (p, Neighbour(p, d))
  }

  lemma NeighboursDiffer(p: Position, d: nat, e: nat)
    requires d < 4 && e < 4 && d != e
    ensures Neighbour(p, d) != Neighbour(p, e)
  {
  }

  lemma FlaggedPairsAtStep(s: Setup, m: Occupancy, p: Position, k: nat)
    requires k < 4
    ensures |FlaggedPairsAt(s, m, p, k + 1)| ==
      |FlaggedPairsAt(s, m, p, k)| + if p in m && FlaggedNeighbour(s, m, m[p], Neighbour(p, k)) then 1 else 0
  {
    var q := Neighbour(p, k);
    if p in m && FlaggedNeighbour(s, m, m[p], q) {
      assert FlaggedPairsAt(s, m, p, k + 1) == FlaggedPairsAt(s, m, p, k) + {(p, q)};
      forall d | 0 <= d < k ensures Neighbour(p, d) != q {
        NeighboursDiffer(p, d, k);
      }
      assert (p, q) !in FlaggedPairsAt(s, m, p, k);
    } else {
      assert FlaggedPairsAt(s, m, p, k + 1) == FlaggedPairsAt(s, m, p, k);
    }
  }

  lemma FlaggedPairsAtEmpty(s: Setup, m: Occupancy, p: Position)
    ensures FlaggedPairsAt(s, m, p, 0) == {}
  {
  }

  lemma FlaggedPairsBeforeStart(s: Setup, m: Occupancy)
    ensures FlaggedPairsBefore(s, m, (0, 0)) == {}
  {
  }

  /** Finishing cell p adds exactly the violations of p's four directions. */
  lemma FlaggedPairsBeforeStep(s: Setup, m: Occupancy, p: Position)
    requires OnGrid(s, p)
    ensures |FlaggedPairsBefore(s, m, (p.0, p.1 + 1))| ==
      |FlaggedPairsBefore(s, m, p)| + |FlaggedPairsAt(s, m, p, 4)|
  {
    var before := FlaggedPairsBefore(s, m, p);
    var at := FlaggedPairsAt(s, m, p, 4);
    var after := FlaggedPairsBefore(s, m, (p.0, p.1 + 1));
    AfterIsBeforeAndAt(s, m, p);
    assert before !! at;
    assert |before + at| == |before| + |at|;
  }

  lemma AfterIsBeforeAndAt(s: Setup, m: Occupancy, p: Position)
    requires OnGrid(s, p)
    ensures FlaggedPairsBefore(s, m, (p.0, p.1 + 1)) == FlaggedPairsBefore(s, m, p) + FlaggedPairsAt(s, m, p, 4)
  {
    var before := FlaggedPairsBefore(s, m, p);
    var at := FlaggedPairsAt(s, m, p, 4);
    var after := FlaggedPairsBefore(s, m, (p.0, p.1 + 1));
    forall x | x in after ensures x in before || x in at {
      if x.0 == p {
        AdjacentIsNeighbour(p, x.1);
        var d :| 0 <= d < 4 && x.1 == Neighbour(p, d);
      }
    }
    forall x | x in at ensures x in after {
      var d :| 0 <= d < 4 && p in m && FlaggedNeighbour(s, m, m[p], Neighbour(p, d)) && x == (p, Neighbour(p, d));
      NeighbourIsAdjacent(p, d);
    }
  }

  /** Passing the end of a row loses nothing: no cell lies beyond the last column. */
  lemma FlaggedPairsBeforeNextRow(s: Setup, m: Occupancy, r: int)
    ensures FlaggedPairsBefore(s, m, (r, s.cols)) == FlaggedPairsBefore(s, m, (r + 1, 0))
  {
  }

  lemma FlaggedPairsBeforeEnd(s: Setup, m: Occupancy)
    ensures FlaggedPairsBefore(s, m, (s.rows, 0)) == FlaggedPairs(s, m)
  {
  }

  lemma SeparatedAmongStep(s: Setup, m: Occupancy, students: seq<string>, k: nat)
    requires k < |students|
    ensures |SeparatedAmong(s, m, students, k + 1)| ==
      |SeparatedAmong(s, m, students, k)| + if Separated(s, m, students[k]) then 1 else 0
  {
    if Separated(s, m, students[k]) {
      assert SeparatedAmong(s, m, students, k + 1) == SeparatedAmong(s, m, students, k) + {k};
    } else {
      assert SeparatedAmong(s, m, students, k + 1) == SeparatedAmong(s, m, students, k);
    }
  }

  lemma SeparatedAmongStart(s: Setup, m: Occupancy, students: seq<string>)
    ensures SeparatedAmong(s, m, students, 0) == {}
  {
  }
}
