/** SeatingArrangement (Program.cs): the roster, the two relations, and the
    seating grid the greedy placer fills cell by cell. Each method is proved
    against the value model: the grid's abstract value is Occupants(). */
module Seating {
  import opened Wrappers
  import opened Board
  import opened Ordering
  import opened Placement
  import opened Audit

  /** A grid cell: empty (null in the source) or a student, known by name. */
  datatype Seat = Empty | Taken(name: string)

  class SeatingArrangement {
    const rows: nat
    const cols: nat
    const friendships: Relation
    const flaggedPairs: Relation
    const maxAttempts: nat := 1000
    var students: seq<string>
    var grid: array2<Seat>

    function Config(): Setup
    {
      Setup(rows, cols, friendships, flaggedPairs)
    }

    ghost predicate Valid()
      reads this
    {
      grid.Length0 == rows && grid.Length1 == cols && Distinct(students)
    }

    /** Which cells are taken and by whom. */
    ghost function Occupants(): (m: Occupancy)
      reads this, grid
      requires Valid()
      ensures InGrid(Config(), m)
    {
      map r, c | 0 <= r < rows && 0 <= c < cols && grid[r, c].Taken? :: (r, c) := grid[r, c].name
    }

    /** The roster's names must be unique: they key both relations. */
    constructor (rows: nat, cols: nat, students: seq<string>, friendships: Relation, flaggedPairs: Relation)
      requires Distinct(students)
      ensures Valid() && fresh(grid)
      ensures this.rows == rows && this.cols == cols && this.students == students
      ensures this.friendships == friendships && this.flaggedPairs == flaggedPairs
      ensures Occupants() == map[]
    {
      this.rows := rows;
      this.cols := cols;
      this.students := students;
      this.friendships := friendships;
      this.flaggedPairs := flaggedPairs;
      grid := new Seat[rows, cols]((r, c) => Empty);
    }

    /** Up to maxAttempts rounds of shuffle-then-place; stops at the first round
        that seats everyone. `tried` records the roster order of each round. */
    method GenerateValidArrangement() returns (found: bool, ghost tried: seq<seq<string>>)
      requires Valid()
      modifies this`students, this`grid
      ensures Valid()
      ensures 1 <= |tried| <= maxAttempts
      ensures forall k :: 0 <= k < |tried| ==> multiset(tried[k]) == multiset(old(students))
      ensures forall k :: 0 <= k < |tried| - 1 ==> !Attempt(Config(), tried[k]).0
      ensures students == tried[|tried| - 1]
      ensures (found, Occupants()) == Attempt(Config(), students)
      ensures !found ==> |tried| == maxAttempts
    {
      ghost var roster := students;
      found := false;
      tried := [];
      var attempt := 0;
      while attempt < maxAttempts
        invariant 0 <= attempt <= maxAttempts && |tried| == attempt
        invariant Valid() && (attempt == 0 ==> students == roster)
        invariant forall k :: 0 <= k < |tried| ==> multiset(tried[k]) == multiset(roster)
        invariant forall k :: 0 <= k < |tried| ==> !Attempt(Config(), tried[k]).0
        invariant attempt > 0 ==> tried[attempt - 1] == students
        invariant attempt > 0 ==> Occupants() == Attempt(Config(), students).1
      {
        found := ShuffleAndPlace();
        LogRound(Config(), tried, students, roster, found);
        tried := tried + [students];
        if found {
          return;
        }
        attempt := attempt + 1;
      }
    }

    /** One round of GenerateValidArrangement: a fresh shuffle, then one attempt. */
    method ShuffleAndPlace() returns (placed: bool)
      requires Valid()
      modifies this`students, this`grid
      ensures Valid()
      ensures multiset(students) == multiset(old(students))
      ensures placed == Attempt(Config(), students).0 && Occupants() == Attempt(Config(), students).1
    {
      ghost var draws := ShuffleStudents();
      ShuffleStepsPermutes(old(students), draws);
      placed := TryPlaceStudents();
    }

    /** Fisher-Yates: for i from the last index down to 1, swap element i with a
        drawn element j in [0, i]. Each draw of Random.Next(i + 1) is an arbitrary
        value in that range; `draws` records them. */
    method ShuffleStudents() returns (ghost draws: seq<int>)
      requires Valid()
      modifies this`students
      ensures Valid()
      ensures AllDraws(draws, |old(students)|)
      ensures students == ShuffleSteps(old(students), draws)
    {
      ghost var original := students;
      draws := [];
      var i := |students| - 1;
      while i > 0
        invariant -1 <= i < |original| && i == |original| - 1 - |draws|
        invariant DrawsFit(draws, |original|)
        invariant students == ShuffleSteps(original, draws)
        invariant Distinct(students)
      {
        var j :| 0 <= j <= i;
        SwapKeepsDistinct(students, i, j);
        ShuffleStepsNext(original, draws, j);
        students := Swap(students, i, j);
        draws := draws + [j];
        i := i - 1;
      }
    }

    /** One attempt on a fresh empty grid: the weighted phase in order of
        non-increasing weight, then whoever is still queued. */
    method TryPlaceStudents() returns (ok: bool)
      requires Valid()
      modifies this`grid
      ensures Valid() && fresh(grid)
      ensures (ok, Occupants()) == Attempt(Config(), students)
    {
      grid := new Seat[rows, cols]((r, c) => Empty);
      assert Occupants() == map[];
      var weights := ConstraintWeights(Config(), students);
      var order := Keys(SortByWeight(weights));
      var remaining;
      ok, remaining := PlaceInOrder(order, students, map[]);
      if !ok {
        return;
      }
      ok := PlaceQueue(remaining, Occupants());
    }

    /** The weighted phase: seats `order` one student at a time, dropping each
        seated student from the queue; stops at the first student without a seat. */
    method PlaceInOrder(order: seq<string>, queue: seq<string>, ghost m: Occupancy) returns (ok: bool, remaining: seq<string>)
      requires Valid() && m == Occupants()
      modifies grid
      ensures Valid()
      ensures (ok, Occupants()) == PlaceAll(Config(), m, order)
      ensures ok ==> remaining == Remaining(queue, order)
    {
      ghost var s := Config();
      ghost var placed := m;
      remaining := queue;
      var k := 0;
      while k < |order|
        invariant 0 <= k <= |order|
        invariant Valid() && Occupants() == placed
        invariant PlaceAll(s, m, order) == PlaceAll(s, placed, order[k..])
        invariant remaining == Remaining(queue, order[..k])
      {
        PlaceAllStep(s, placed, order, k);
        var seated := TryFindSeatForStudent(order[k], placed);
        if !seated {
          return false, remaining;
        }
        placed := placed[ChooseSeat(s, placed, order[k]).value := order[k]];
        RemainingNext(queue, order, k);
        remaining := Without(remaining, order[k]);
        k := k + 1;
      }
      assert order[..k] == order;
      return true, remaining;
    }

    /** The remainder phase: seats the queue from its head; stops at the first
        student without a seat. */
    method PlaceQueue(queue: seq<string>, ghost m: Occupancy) returns (ok: bool)
      requires Valid() && m == Occupants()
      modifies grid
      ensures Valid()
      ensures (ok, Occupants()) == PlaceAll(Config(), m, queue)
    {
      ghost var s := Config();
      ghost var placed := m;
      var remaining := queue;
      while |remaining| > 0
        invariant Valid() && Occupants() == placed
        invariant PlaceAll(s, m, queue) == PlaceAll(s, placed, remaining)
      {
        PlaceAllHead(s, placed, remaining);
        var student := remaining[0];
        remaining := remaining[1..];
        var seated := TryFindSeatForStudent(student, placed);
        if !seated {
          return false;
        }
        placed := placed[ChooseSeat(s, placed, student).value := student];
      }
      return true;
    }

    /** The constraint of a candidate cell, read off the grid: some on-grid
        neighbour is occupied by a student named in the candidate's own list. */
    function HasFlaggedConflict(name: string, r: int, c: int): (b: bool)
      reads this, grid
      requires Valid()
      ensures b == FlaggedConflict(Config(), Occupants(), name, r, c)
    {
      name in flaggedPairs &&
      exists d :: 0 <= d < 4 && FlaggedAt(name, Neighbour((r, c), d))
    }

    function FlaggedAt(name: string, q: Position): bool
      reads this, grid
      requires Valid()
    {
      IsValidPosition(Config(), q.0, q.1) && grid[q.0, q.1].Taken? &&
      name in flaggedPairs && grid[q.0, q.1].name in flaggedPairs[name]
    }

    /** The seat search: next to a placed friend, friend by friend in list order
        and direction by direction; otherwise the first open cell in row-major
        order. At most one cell, an open one, changes. */
    method TryFindSeatForStudent(name: string, ghost m: Occupancy) returns (ok: bool)
      requires Valid() && m == Occupants()
      modifies grid
      ensures Valid()
      ensures ok == ChooseSeat(Config(), m, name).Some?
      ensures ok ==> Occupants() == m[ChooseSeat(Config(), m, name).value := name]
      ensures !ok ==> Occupants() == m
    {
      var seat := FriendSeatFor(name);
      if seat.None? {
        seat := FirstOpenSeatFor(name, Config(), m);
      }
      if seat.None? {
        return false;
      }
      ChooseSeatSound(Config(), Occupants(), name);
      TakeSeat(seat.value, name);
      return true;
    }

    /** The friend phase: the first open neighbour, up, down, left, right, of
        the first placed friend in list order that has one. */
    method FriendSeatFor(name: string) returns (seat: Option<Position>)
      requires Valid()
      ensures seat == FriendPhase(Config(), Occupants(), name)
    {
      if name !in friendships {
        return None;
      }
      var friends := friendships[name];
      var k := 0;
      while k < |friends|
        invariant 0 <= k <= |friends|
        invariant FriendSeat(Config(), Occupants(), name, friends) == FriendSeat(Config(), Occupants(), name, friends[k..])
      {
        var at := FindStudentPosition(friends[k]);
        if at != NotFound {
          seat := NeighbourSeatFor(name, at);
          if seat.Some? {
            return;
          }
        }
        assert friends[k..][1..] == friends[k + 1..];
        k := k + 1;
      }
      return None;
    }

    /** The first of the four neighbours of `at` that `name` may take. */
    method NeighbourSeatFor(name: string, at: Position) returns (seat: Option<Position>)
      requires Valid()
      ensures seat == NeighbourSeat(Config(), Occupants(), name, at, 0)
    {
      var d := 0;
      while d < 4
        invariant 0 <= d <= 4
        invariant NeighbourSeat(Config(), Occupants(), name, at, 0) == NeighbourSeat(Config(), Occupants(), name, at, d)
      {
        var q := Neighbour(at, d);
        if IsValidPosition(Config(), q.0, q.1) && grid[q.0, q.1] == Empty {
          if !HasFlaggedConflict(name, q.0, q.1) {
            return Some(q);
          }
        }
        d := d + 1;
      }
      return None;
    }

    /** The fallback phase: the first cell in row-major order that `name` may take. */
    method FirstOpenSeatFor(name: string, ghost s: Setup, ghost m: Occupancy) returns (seat: Option<Position>)
      requires Valid() && s == Config() && m == Occupants()
      ensures seat == FirstOpenFrom(s, m, name, 0, 0)
    {
      var row := 0;
      while row < rows
        invariant 0 <= row <= rows
        invariant FirstOpenFrom(s, m, name, 0, 0) == FirstOpenFrom(s, m, name, row, 0)
        invariant s == Config() && m == Occupants()
      {
        var col := 0;
        while col < cols
          invariant 0 <= col <= cols
          invariant FirstOpenFrom(s, m, name, 0, 0) == FirstOpenFrom(s, m, name, row, col)
          invariant s == Config() && m == Occupants()
        {
          ScanStep(name, row, col, s, m);
          if grid[row, col] == Empty {
            if !HasFlaggedConflict(name, row, col) {
              return Some((row, col));
            }
          }
          col := col + 1;
        }
        row := row + 1;
      }
      return None;
    }

    /** One cell of the fallback scan, read off the grid. */
    lemma ScanStep(name: string, row: nat, col: nat, s: Setup, m: Occupancy)
      requires Valid() && row < rows && col < cols && s == Config() && m == Occupants()
      ensures FirstOpenFrom(s, m, name, row, col) ==
        if grid[row, col] == Empty && !HasFlaggedConflict(name, row, col) then Some((row, col))
        else FirstOpenFrom(s, m, name, row, col + 1)
    {
    }

    /** Writing `name` into the empty cell `p`: the grid's value gains exactly
        that one entry. */
    method TakeSeat(p: Position, name: string)
      requires Valid() && OnGrid(Config(), p) && p !in Occupants()
      modifies grid
      ensures Valid()
      ensures Occupants() == old(Occupants())[p := name]
    {
      grid[p.0, p.1] := Taken(name);
      var now := Occupants();
      forall q | q in now ensures q in old(Occupants())[p := name] && now[q] == old(Occupants())[p := name][q] {
      }
      forall q | q in old(Occupants())[p := name] ensures q in now {
      }
    }

    /** The first cell, in row-major order, whose occupant carries `name`, or
        (-1, -1). */
    method FindStudentPosition(name: string) returns (p: Position)
      requires Valid()
      ensures p == Find(Config(), Occupants(), name)
    {
      var row := 0;
      while row < rows
        invariant 0 <= row <= rows
        invariant Find(Config(), Occupants(), name) == FindFrom(Config(), Occupants(), name, row, 0)
      {
        var col := 0;
        while col < cols
          invariant 0 <= col <= cols
          invariant Find(Config(), Occupants(), name) == FindFrom(Config(), Occupants(), name, row, col)
        {
          if grid[row, col].Taken? && grid[row, col].name == name {
            return (row, col);
          }
          col := col + 1;
        }
        row := row + 1;
      }
      return NotFound;
    }

    /** The counts PrintViolations reports; the grid is left as it is. */
    method CountViolations() returns (flaggedViolations: nat, friendViolations: nat)
      requires Valid()
      ensures flaggedViolations == FlaggedViolations(Config(), Occupants())
      ensures friendViolations == FriendViolations(Config(), Occupants(), students)
    {
      flaggedViolations := CountFlaggedViolations();
      friendViolations := CountFriendViolations();
    }

    /** Every occupied cell, every direction: one violation per on-grid occupied
        neighbour named in the occupant's own flagged list. */
    method CountFlaggedViolations() returns (count: nat)
      requires Valid()
      ensures count == FlaggedViolations(Config(), Occupants())
    {
      count := CountRows(Config(), Occupants());
    }

    /** The row-major scan of CountFlaggedViolations, against snapshots of the
        configuration and the grid. */
    method CountRows(ghost s: Setup, ghost m: Occupancy) returns (count: nat)
      requires Valid() && s == Config() && m == Occupants()
      ensures count == FlaggedViolations(s, m)
    {
      CountedBeforeStart(s, m);
      count := 0;
      var row := 0;
      while row < rows
        invariant 0 <= row <= rows
        invariant count == CountedBefore(s, m, (row, 0))
        invariant s == Config() && m == Occupants()
      {
        count := CountRowViolations(row, count, s, m);
        row := row + 1;
      }
      CountedBeforeEnd(s, m);
    }

    /** The scan of one row, adding its violations to the `before` counted in
        the rows above it. */
    method CountRowViolations(row: nat, before: nat, ghost s: Setup, ghost m: Occupancy) returns (count: nat)
      requires Valid() && row < rows
      requires s == Config() && m == Occupants()
      requires before == CountedBefore(s, m, (row, 0))
      ensures count == CountedBefore(s, m, (row + 1, 0))
    {
      count := before;
      var col := 0;
      while col < cols
        invariant 0 <= col <= cols
        invariant count == CountedBefore(s, m, (row, col))
        invariant s == Config() && m == Occupants()
      {
        var here := CountCellViolations(row, col, s, m);
        CountedBeforeStep(s, m, row, col, count, here);
        count := count + here;
        col := col + 1;
      }
      CountedBeforeNextRow(s, m, row);
    }

    /** The violations of one cell: none when it is empty, otherwise one per
        direction whose on-grid neighbour is in the occupant's flagged list. */
    method CountCellViolations(row: nat, col: nat, ghost s: Setup, ghost m: Occupancy) returns (count: nat)
      requires Valid() && row < rows && col < cols
      requires s == Config() && m == Occupants()
      ensures count == |FlaggedPairsAt(s, m, (row, col), 4)|
    {
      FlaggedPairsAtEmpty(s, m, (row, col));
      count := 0;
      var current := grid[row, col];
      if current.Taken? {
        assert (row, col) in m && m[(row, col)] == current.name;
        var d := 0;
        while d < 4
          invariant 0 <= d <= 4
          invariant count == |FlaggedPairsAt(s, m, (row, col), d)|
          invariant s == Config() && m == Occupants()
        {
          var q := Neighbour((row, col), d);
          FlaggedPairsAtStep(s, m, (row, col), d);
          if IsValidPosition(Config(), q.0, q.1) && grid[q.0, q.1].Taken? {
            var neighbour := grid[q.0, q.1].name;
            assert q in m && m[q] == neighbour;
            if current.name in flaggedPairs && neighbour in flaggedPairs[current.name] {
              count := count + 1;
            }
          } else {
            assert !OnGrid(s, q) || q !in m;
          }
          d := d + 1;
        }
      } else {
        assert (row, col) !in m;
        assert FlaggedPairsAt(s, m, (row, col), 4) == {};
      }
    }

    /** Every roster entry with a non-empty friend list none of whose friends is
        placed at distance 1 is one violation. */
    method CountFriendViolations() returns (count: nat)
      requires Valid()
      ensures count == FriendViolations(Config(), Occupants(), students)
    {
      count := CountSeparated(Config(), Occupants());
    }

    /** The roster scan of CountFriendViolations, against snapshots of the
        configuration and the grid. */
    method CountSeparated(ghost s: Setup, ghost m: Occupancy) returns (count: nat)
      requires Valid() && s == Config() && m == Occupants()
      ensures count == FriendViolations(s, m, students)
    {
      SeparatedAmongStart(s, m, students);
      count := 0;
      var i := 0;
      while i < |students|
        invariant 0 <= i <= |students|
        invariant count == |SeparatedAmong(s, m, students, i)|
        invariant s == Config() && m == Occupants()
      {
        var separated := IsSeparated(students[i], s, m);
        SeparatedAmongStep(s, m, students, i);
        if separated {
          count := count + 1;
        }
        i := i + 1;
      }
    }

    /** One roster entry: listed in the friendships, with friends, and none of
        them found next to it. */
    method IsSeparated(student: string, ghost s: Setup, ghost m: Occupancy) returns (separated: bool)
      requires Valid() && s == Config() && m == Occupants()
      ensures separated == Separated(s, m, student)
    {
      separated := false;
      if student in friendships {
        var hasNearbyFriend := false;
        var pos := FindStudentPosition(student);
        var friends := friendships[student];
        var k := 0;
        while k < |friends|
          invariant 0 <= k <= |friends|
          invariant !hasNearbyFriend ==> forall f :: f in friends[..k] && Find(s, m, f) != NotFound ==> !Adjacent(pos, Find(s, m, f))
          invariant s == Config() && m == Occupants()
          invariant hasNearbyFriend ==> exists f :: f in friends && Find(s, m, f) != NotFound && Adjacent(pos, Find(s, m, f))
        {
          var friendPos := FindStudentPosition(friends[k]);
          if friendPos != NotFound && Adjacent(pos, friendPos) {
            hasNearbyFriend := true;
            break;
          }
          assert friends[..k + 1] == friends[..k] + [friends[k]];
          k := k + 1;
        }
        if !hasNearbyFriend {
          assert friends[..k] == friends;
        }
        separated := !hasNearbyFriend && |friends| > 0;
      }
    }
  }
}
