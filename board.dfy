/** The grid as a value: positions, which cells are taken by whom, the
    neighbourhood relation, the row-major name search and the directional
    flagged-conflict test of SeatingArrangement (Program.cs). */
module Board {

  /** A cell as (row, col); (-1, -1) is the "not found" answer of the name search. */
  type Position = (int, int)

  /** Which cells are taken and by whom: a key is an occupied cell, its value the
      occupant's name; a cell without a key is empty. */
  type Occupancy = map<Position, string>

  /** A directional relation keyed by name: a name's entry lists other names. */
  type Relation = map<string, seq<string>>

  /** The fixed inputs of one arrangement: grid size and the two relations. */
  datatype Setup = Setup(rows: nat, cols: nat, friendships: Relation, flaggedPairs: Relation)

  const NotFound: Position := (-1, -1)

  /** The four orthogonal offsets in the order every scan visits them: up, down, left, right. */
  const Directions: seq<Position> := [(-1, 0), (1, 0), (0, -1), (0, 1)]

  predicate IsValidPosition(s: Setup, r: int, c: int)
  {
    0 <= r < s.rows && 0 <= c < s.cols
  }

  predicate OnGrid(s: Setup, p: Position)
  {
    IsValidPosition(s, p.0, p.1)
  }

  /** Every occupied cell lies on the grid. */
  predicate InGrid(s: Setup, m: Occupancy)
  {
    forall p :: p in m ==> OnGrid(s, p)
  }

  function Neighbour(p: Position, d: nat): Position
    requires d < |Directions|
  {
    (p.0 + Directions[d].0, p.1 + Directions[d].1)
  }

  function Abs(x: int): nat
  {
    if x < 0 then -x else x
  }

  /** Manhattan distance 1, written as the audit writes it. */
  predicate Adjacent(p: Position, q: Position)
  {
    (Abs(p.0 - q.0) == 1 && p.1 == q.1) || (Abs(p.1 - q.1) == 1 && p.0 == q.0)
  }

  /** The four offsets reach exactly the orthogonal neighbours. */
  lemma AdjacentIsNeighbour(p: Position, q: Position)
    ensures Adjacent(p, q) <==> exists d :: 0 <= d < 4 && q == Neighbour(p, d)
  {
    if Adjacent(p, q) {
      if q.0 == p.0 - 1 { assert q == Neighbour(p, 0); }
      else if q.0 == p.0 + 1 { assert q == Neighbour(p, 1); }
      else if q.1 == p.1 - 1 { assert q == Neighbour(p, 2); }
      else { assert q == Neighbour(p, 3); }
    }
  }

  lemma NeighbourIsAdjacent(p: Position, d: nat)
    requires d < 4
    ensures Adjacent(p, Neighbour(p, d))
  {
  }

  /** `p` comes strictly before `q` in row-major order. */
  predicate RowMajorBefore(p: Position, q: Position)
  {
    p.0 < q.0 || (p.0 == q.0 && p.1 < q.1)
  }

  /** An on-grid cell whose occupant is called `name`. */
  predicate Holds(s: Setup, m: Occupancy, p: Position, name: string)
  {
    OnGrid(s, p) && p in m && m[p] == name
  }

  /** The row-major search of FindStudentPosition, resumed at (r, c). */
  function FindFrom(s: Setup, m: Occupancy, name: string, r: nat, c: nat): Position
    decreases s.rows - r, s.cols - c
  {
    if r >= s.rows then NotFound
    else if c >= s.cols then FindFrom(s, m, name, r + 1, 0)
    else if (r, c) in m && m[(r, c)] == name then (r, c)
    else FindFrom(s, m, name, r, c + 1)
  }

  function Find(s: Setup, m: Occupancy, name: string): Position
  {
    FindFrom(s, m, name, 0, 0)
  }

  lemma {:induction false} FindFromFirst(s: Setup, m: Occupancy, name: string, r: nat, c: nat)
    ensures var p := FindFrom(s, m, name, r, c);
      && (p == NotFound <==> forall q :: Holds(s, m, q, name) ==> RowMajorBefore(q, (r, c)))
      && (p != NotFound ==> Holds(s, m, p, name) && !RowMajorBefore(p, (r, c)))
      && (p != NotFound ==> forall q :: Holds(s, m, q, name) && RowMajorBefore(q, p) ==> RowMajorBefore(q, (r, c)))
    decreases s.rows - r, s.cols - c
  {
    if r >= s.rows {
    } else if c >= s.cols {
      FindFromFirst(s, m, name, r + 1, 0);
    } else if (r, c) in m && m[(r, c)] == name {
      assert Holds(s, m, (r, c), name);
    } else {
      FindFromFirst(s, m, name, r, c + 1);
    }
  }

  /** FindStudentPosition answers the first cell, in row-major order, whose
      occupant carries the name, and (-1, -1) exactly when no cell does. */
  lemma FindPosition(s: Setup, m: Occupancy, name: string)
    ensures Find(s, m, name) == NotFound <==> forall q :: !Holds(s, m, q, name)
    ensures Find(s, m, name) != NotFound ==>
      && Holds(s, m, Find(s, m, name), name)
      && IsValidPosition(s, Find(s, m, name).0, Find(s, m, name).1)
      && forall q :: Holds(s, m, q, name) ==> !RowMajorBefore(q, Find(s, m, name))
  {
    FindFromFirst(s, m, name, 0, 0);
    forall q | Holds(s, m, q, name) ensures !RowMajorBefore(q, (0, 0)) { }
  }

  /** A neighbour that makes the cell forbidden for `name`: on the grid, occupied,
      and named in `name`'s OWN flagged list. */
  predicate FlaggedNeighbour(s: Setup, m: Occupancy, name: string, q: Position)
  {
    OnGrid(s, q) && q in m && name in s.flaggedPairs && m[q] in s.flaggedPairs[name]
  }

  /** HasFlaggedConflict: only the candidate's own flagged list is consulted;
      the neighbours' lists never are. */
  function FlaggedConflict(s: Setup, m: Occupancy, name: string, r: int, c: int): (b: bool)
    ensures name !in s.flaggedPairs ==> !b
    ensures b <==> exists q :: Adjacent((r, c), q) && FlaggedNeighbour(s, m, name, q)
  {
    AdjacentDirections((r, c));
    name in s.flaggedPairs &&
    exists d :: 0 <= d < 4 && FlaggedNeighbour(s, m, name, Neighbour((r, c), d))
  }

  lemma AdjacentDirections(p: Position)
    ensures forall q :: Adjacent(p, q) <==> exists d :: 0 <= d < 4 && q == Neighbour(p, d)
  {
    forall q ensures Adjacent(p, q) <==> exists d :: 0 <= d < 4 && q == Neighbour(p, d) {
      AdjacentIsNeighbour(p, q);
    }
  }

  /** Whether a cell is forbidden depends on nothing in the flagged map but the
      candidate's own entry. */
  lemma ConflictIsDirectional(s: Setup, t: Setup, m: Occupancy, name: string, r: int, c: int)
    requires s.rows == t.rows && s.cols == t.cols
    requires name in s.flaggedPairs <==> name in t.flaggedPairs
    requires name in s.flaggedPairs ==> s.flaggedPairs[name] == t.flaggedPairs[name]
    ensures FlaggedConflict(s, m, name, r, c) == FlaggedConflict(t, m, name, r, c)
  {
  }

  /** All cells of the grid. */
  function Cells(rows: nat, cols: nat): set<Position>
  {
    set r, c | 0 <= r < rows && 0 <= c < cols :: (r, c)
  }

  function RowCells(r: int, cols: nat): set<Position>
  {
    set c | 0 <= c < cols :: (r, c)
  }

  lemma {:induction false} RowCellsSize(r: int, cols: nat)
    ensures |RowCells(r, cols)| == cols
  {
    if cols == 0 {
      assert RowCells(r, cols) == {};
    } else {
      assert RowCells(r, cols) == RowCells(r, cols - 1) + {(r, cols - 1)};
      RowCellsSize(r, cols - 1);
    }
  }

  /** IsValidPosition admits exactly rows * cols cells. */
  lemma {:induction false} CellsSize(s: Setup)
    ensures forall p :: p in Cells(s.rows, s.cols) <==> OnGrid(s, p)
    ensures |Cells(s.rows, s.cols)| == s.rows * s.cols
  {
    BlockSize(s.rows, s.cols);
  }

  lemma {:induction false} BlockSize(rows: nat, cols: nat)
    ensures |Cells(rows, cols)| == rows * cols
  {
    if rows == 0 {
      assert Cells(rows, cols) == {};
    } else {
      CellsSplit(rows - 1, cols);
      BlockSize(rows - 1, cols);
      RowCellsSize(rows - 1, cols);
      RowMore(rows - 1, cols);
    }
  }

  /** The grid of r + 1 rows is the grid of r rows plus a disjoint last row. */
  lemma CellsSplit(r: nat, cols: nat)
    ensures Cells(r + 1, cols) == Cells(r, cols) + RowCells(r, cols)
    ensures Cells(r, cols) !! RowCells(r, cols)
  {
    forall p | p in Cells(r + 1, cols) ensures p in Cells(r, cols) + RowCells(r, cols) {
      if p.0 < r {
        assert p in Cells(r, cols);
      } else {
        assert p in RowCells(r, cols);
      }
    }
  }

  lemma RowMore(r: nat, cols: nat)
    ensures (r + 1) * cols == r * cols + cols
  {
  }

  lemma {:induction false} SubsetSize<T>(a: set<T>, b: set<T>)
    requires a <= b
    ensures |a| <= |b|
    decreases |b|
  {
    if a != {} {
      var x :| x in a;
      SubsetSize(a - {x}, b - {x});
    }
  }

  /** An occupancy confined to the grid has at most rows * cols occupied cells. */
  lemma OccupancyBound(s: Setup, m: Occupancy)
    requires InGrid(s, m)
    ensures |m| <= s.rows * s.cols
  {
    CellsSize(s);
    assert m.Keys <= Cells(s.rows, s.cols);
    SubsetSize(m.Keys, Cells(s.rows, s.cols));
  }
}
