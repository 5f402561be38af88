# Seating arrangement generator, modelled in Dafny

This project models `SeatingArrangement` (Program.cs), a generator that seats
a roster of students on a `rows x cols` grid. There are two name-keyed
relations:

- the friendship map names people a student would like to sit next to;
- the flagged map names people a student must not sit next to.

`GenerateValidArrangement` makes up to 1000 attempts. Each attempt shuffles
the roster in place (Fisher-Yates) and then tries to seat everyone on a fresh,
empty grid:

- **Weighted phase.** Students are visited by non-increasing constraint weight
  (friends plus flagged partners). The sort is stable, so ties keep their
  shuffled order.
- **Remainder phase.** The queue of students not yet placed is seated in order.

For each student, `TryFindSeatForStudent` takes one of two seats:

- the first open cell next to an already placed friend, trying friends in list
  order and, for each friend, the directions up, down, left and right;
- otherwise, the first open cell in row-major order.

A cell is open when it is on the grid, empty, and has no orthogonal neighbour
named in the student's *own* flagged list. `PrintViolations` then counts flagged
violations and friend separations on the final grid.

The model has two layers:

- **Value model** (modules `Board`, `Ordering`, `Placement`, `Audit`). The grid
  is a map from positions to names. Every step of the program is a function on
  values, and the properties are lemmas about those functions.
- **Imperative model** (module `Seating`). It is the `SeatingArrangement` class,
  with an `array2<Seat>` grid and a roster field, and it keeps the source's
  state-changing loops and grid scans. Two read-only scans are functions of
  the value model instead: the weight loop of `CalculateConstraintWeights`
  (`Ordering.ConstraintWeights`) and the direction loop of `HasFlaggedConflict`
  (an `exists` in `Board.FlaggedConflict`). Each method is proved against the
  value model through the ghost view `Occupants()` of the grid.

Module `Scenarios` works through two small fixed inputs.

What the proofs establish:

- **Shuffle.** It is a permutation of the roster, made of the swaps the draws
  dictate, and it keeps names unique.
- **Placement order.** It is a permutation of the roster, sorted by
  non-increasing weight, and stable.
- **Seat choice.**
  - A student only ever takes an open cell.
  - A student fails exactly when no open cell exists.
  - A friend-phase seat is next to a placed friend.
  - Whenever a listed friend is placed and has an open neighbour, the student
    sits next to a placed friend: the first such friend in list order, at the
    first open direction.
  - A fallback seat is the first open cell in row-major order.
- **A successful attempt:**
  - seats every student in exactly one cell;
  - stays on the grid;
  - never moves anyone already seated;
  - cannot succeed with more students than cells.
- **Remainder phase.** The weighted phase already visits every student, so the
  remainder queue of `TryPlaceStudents` is always empty when that phase
  succeeds.
- **`GenerateValidArrangement`:**
  - it makes at most 1000 attempts;
  - every attempt before the last failed;
  - every attempt used a permutation of the original roster;
  - the final grid is exactly the last attempt's result.
- **Counting.** The counting loops of `PrintViolations` compute exactly:
  - the number of ordered (cell, neighbour) pairs where the neighbour is named
    in the occupant's own flagged list;
  - the number of roster entries with friends, none of whom sits next to them.
- **Directional flags.** The conflict check is directional, so a successful
  attempt can still leave a flagged violation (`Scenarios`). What the check
  does guarantee: in every violation an attempt leaves, the flagged neighbour
  was seated after the student whose list names them. So when every flag goes
  both ways, an attempt leaves no flagged violation at all. A mutually flagged
  pair on a 1 x 2 grid makes every attempt fail.

## Model

| member | source | states |
|---|---|---|
| Board.FlaggedConflict | Program.cs:159-175 | A cell conflicts for a student iff some orthogonal neighbour on the grid is occupied by someone in that student's own flagged list. A student with no flagged entry never conflicts. |
| Board.ConflictIsDirectional | Program.cs:159-175 | The conflict verdict depends on the flagged map only through the candidate's own entry; neighbours' lists are never consulted. |
| Board.AdjacentIsNeighbour | Program.cs:234-235 | The audit's distance-1 test holds exactly for the cells the four direction offsets reach. |
| Board.FindPosition | Program.cs:141-152 | The search answers (-1, -1) iff no cell holds the name. Otherwise it answers an on-grid cell holding the name, with no such cell earlier in row-major order. |
| Board.CellsSize | Program.cs:154-157 | IsValidPosition admits exactly the rows x cols cells of the grid. |
| Board.OccupancyBound | Program.cs:154-157 | A grid whose occupied cells are all valid positions holds at most rows x cols students. |
| Ordering.ShuffleStepsPermutes | Program.cs:47-56 | Applying the swaps of a sequence of in-range draws yields a permutation of the roster. |
| Ordering.ShuffleKeepsDistinct | Program.cs:47-56 | Shuffling a roster of unique names leaves the names unique. |
| Ordering.ConstraintWeights | Program.cs:81-94 | One entry per roster student, in roster order. Each entry weighs the length of the student's friend list plus the length of their flagged list. |
| Ordering.ConstraintWeightsSpec | Program.cs:81-94 | The weights are keyed by exactly the roster, in its order. A student with neither entry weighs 0. |
| Ordering.SortByWeightSorted | Program.cs:64 | The sorted weights are non-increasing. |
| Ordering.SortByWeightPermutes | Program.cs:64 | The sorted weights are a permutation of the input weights. |
| Ordering.SortByWeightStable | Program.cs:64 | For every weight, the entries of that weight keep their relative input order. |
| Ordering.PlacementOrderSpec | Program.cs:63-64 | The weighted phase's order is a permutation of the shuffled roster. Weights never increase along it, and students of equal weight keep their shuffled order. |
| Placement.ChooseSeatSound | Program.cs:96-139 | A chosen seat is on the grid, empty and conflict-free. No seat is chosen iff no such cell exists for the student. |
| Placement.ChooseSeatPlacement | Program.cs:96-139 | A friend-phase seat is adjacent to a placed friend. A fallback seat is the first open cell in row-major order. |
| Placement.ChooseSeatPrefersFriend | Program.cs:96-121 | If some listed friend is placed and has an open neighbour, the seat taken is the friend phase's, next to a placed friend. |
| Placement.FriendSeatOpen | Program.cs:98-121 | A seat found in the friend phase is open and next to some already placed friend from the student's list. |
| Placement.FriendSeatNone | Program.cs:98-121 | The friend phase finds no seat iff no listed, placed friend has an open neighbour. |
| Placement.FriendSeatFirst | Program.cs:98-121 | A seat the friend phase finds is the neighbour search's answer for the first listed, placed friend whose search succeeds; every earlier placed friend's search failed. |
| Placement.NeighbourSeatOpen | Program.cs:106-118 | A seat found around a friend is open and orthogonally adjacent to that friend. |
| Placement.NeighbourSeatNone | Program.cs:106-118 | The search around a friend finds no seat iff none of the remaining directions leads to an open cell. |
| Placement.NeighbourSeatFirst | Program.cs:106-118 | A seat found around a friend is the first direction, in the order up, down, left, right, that leads to an open cell. |
| Placement.FirstOpenFromFirst | Program.cs:123-136 | The row-major scan answers the first open cell at or after its start, or none exactly when no open cell lies there. |
| Placement.PlaceAllKeeps | Program.cs:71-76 | Seating students one by one keeps every seated student on the grid and in exactly one cell. |
| Placement.PlaceAllStays | Program.cs:110-116 | Seating further students never moves or removes a student already seated. |
| Placement.PlaceAllFills | Program.cs:71-78 | On success, the occupants are exactly those seated before plus the students seated now. One new cell is filled per student. |
| Placement.PlaceAllFromEmpty | Program.cs:60-78 | From an empty grid, success seats exactly the students of the order, one cell each. More students than cells cannot succeed. |
| Placement.WithoutMembers | Program.cs:68 | The filtered queue keeps every other student and drops the one just seated. |
| Placement.RemainingMembers | Program.cs:61-69 | After the weighted phase, the queue holds exactly the roster students the phase did not visit. |
| Placement.RemainderIsEmpty | Program.cs:61-76 | The weighted phase visits every student, so the remainder queue is always empty and its loop never seats anyone. |
| Placement.AttemptSeatsEveryone | Program.cs:58-79 | A successful attempt seats every roster student in exactly one on-grid cell and fills exactly as many cells as there are students. With more students than cells the attempt fails. |
| Placement.SeatKeepsFlagsOrdered | Program.cs:109-131 | Seating a student in a cell the conflict check allowed creates flagged violations only with the new student as the flagged, later side. |
| Placement.PlaceAllFlagsOrdered | Program.cs:63-76 | Seating a sequence keeps every flagged violation ordered: the flagged neighbour was seated after the student who flags them. |
| Placement.AttemptFlagsOrdered | Program.cs:58-79 | In the grid an attempt leaves, whether it succeeds or not, the flagged neighbour of every flagged violation comes later in the placement order than the student who flags them. |
| Placement.SymmetricFlagsAttemptClean | Program.cs:58-79 | When every flag goes both ways, an attempt leaves no flagged violation at all. |
| Audit.MutualFlagsCountTwice | Program.cs:203-216 | Two adjacent students who flag each other are counted as two violations. |
| Audit.OneSidedFlagCountsOnce | Program.cs:203-216 | A one-sided flag between adjacent students is counted once, from the flagging side only. |
| Audit.UnplacedIsSeparated | Program.cs:222-246 | A student with friends who is not on the grid always counts as a friend separation. |
| Scenarios.OneSidedFlagSurvivesPlacement | Program.cs:159-175 | With b flagging a on a 1 x 2 grid, the attempt succeeds with a next to b, and the flagged count is still positive. |
| Scenarios.MutualPairNeverFits | Program.cs:34-44 | Two mutually flagged students never fit a 1 x 2 grid, whatever the shuffle, so every attempt fails. |
| Seating.SeatingArrangement.constructor | Program.cs:18-30 | Stores the dimensions, roster and relations, and starts from an empty grid. |
| Seating.SeatingArrangement.GenerateValidArrangement | Program.cs:32-45 | Makes at most 1000 attempts, each on a permutation of the roster; every attempt but the last failed. The grid and the answer are those of the last attempt, and a false answer means all 1000 failed. |
| Seating.SeatingArrangement.ShuffleAndPlace | Program.cs:36-37 | One round: the roster is permuted in place, then the grid and the answer are exactly the attempt on the new roster order. |
| Seating.SeatingArrangement.ShuffleStudents | Program.cs:47-56 | The new roster is the original after the swaps of the recorded draws, one draw in [0, i] for each i from the last index down to 1. |
| Seating.SeatingArrangement.TryPlaceStudents | Program.cs:58-79 | The answer and the new grid are exactly the weighted phase on a fresh empty grid, followed by the remainder phase. |
| Seating.SeatingArrangement.PlaceInOrder | Program.cs:63-70 | Seats the weighted order one by one, stopping at the first failure. On success, the queue returned holds the roster minus the students seated. |
| Seating.SeatingArrangement.PlaceQueue | Program.cs:71-76 | Seats the queue from its head, stopping at the first failure. |
| Seating.SeatingArrangement.TryFindSeatForStudent | Program.cs:96-139 | Succeeds exactly when the seat choice finds a cell. That cell, and nothing else, gains the student; on failure the grid is unchanged. |
| Seating.SeatingArrangement.FriendSeatFor | Program.cs:98-121 | The friend phase read off the grid equals the value model's friend phase. |
| Seating.SeatingArrangement.NeighbourSeatFor | Program.cs:105-118 | Answers the first open neighbour of the friend's cell, in the order up, down, left, right. |
| Seating.SeatingArrangement.FirstOpenSeatFor | Program.cs:123-136 | The row-major fallback scan answers the value model's first open cell. |
| Seating.SeatingArrangement.TakeSeat | Program.cs:131 | Writing the student into an empty cell adds exactly that one entry to the grid. |
| Seating.SeatingArrangement.HasFlaggedConflict | Program.cs:159-175 | The grid reading of the conflict check equals the directional conflict of the value model. |
| Seating.SeatingArrangement.FindStudentPosition | Program.cs:141-152 | Answers the value model's row-major search on the current grid. |
| Seating.SeatingArrangement.CountViolations | Program.cs:191-247 | Returns the flagged count and the friend separation count of the current grid and roster. |
| Seating.SeatingArrangement.CountFlaggedViolations | Program.cs:196-220 | The nested scan counts exactly the ordered flagged pairs of adjacent occupied cells. |
| Seating.SeatingArrangement.CountRowViolations | Program.cs:198-219 | Scanning one row adds exactly that row's flagged pairs to the count so far. |
| Seating.SeatingArrangement.CountCellViolations | Program.cs:200-218 | An empty cell adds nothing. An occupied cell adds one per direction whose on-grid occupied neighbour is in the occupant's own flagged list. |
| Seating.SeatingArrangement.CountFriendViolations | Program.cs:222-247 | Counts exactly the roster entries that are separated: friends listed, and none of them sitting next to the entry. |
| Seating.SeatingArrangement.IsSeparated | Program.cs:224-246 | For one roster entry, the early-exit friend loop decides exactly whether the entry is separated. |

## Left out

- Console output is not modelled: the messages of `GenerateValidArrangement`, all of `PrintSeatingArrangement` (Program.cs:177-189), and the messages `PrintViolations` writes. `CountViolations` returns the two totals instead of printing them.
- The extra `_random.Next()` after a successful attempt (Program.cs:40) only advances the generator for printing, so it is left out.
- `System.Random` and the constructor's `seed` parameter are not modelled. Each `Next(i + 1)` is an arbitrary value in `[0, i]`, recorded as a ghost draw, and nothing is claimed about uniformity.
- `Student` is modelled by its name only. The roster's names are required to be unique. That makes the `Dictionary<Student, int>` keys and the reference comparison in the `Where` filter (Program.cs:68) agree with name comparison.
- The weights dictionary is assumed to enumerate in insertion (roster) order. `OrderByDescending` is modelled as a stable insertion sort by non-increasing weight. The internals of LINQ and `Dictionary` are not modelled.
- Integers are unbounded. A weight or count that overflows 32 bits would need more than two billion list entries or cells.
- `Main` and the sample data are not part of this model.
- The constructor keeps the caller's `List<Student>` by reference (Program.cs:25), so `ShuffleStudents` also reorders the caller's list. The model copies the roster into a `seq` field, so that aliasing is not captured; nothing in the class depends on it.
- Seating.SeatingArrangement.PlaceInOrder: says nothing about the queue it returns when a student finds no seat, because `TryPlaceStudents` returns at once without using it.
