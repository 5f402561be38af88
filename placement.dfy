/** One attempt of the greedy placer as values: the seat TryFindSeatForStudent
    picks for a student (next to an already placed friend first, else the first
    open cell in row-major order), the sequential placement of a visiting order,
    and the attempt of TryPlaceStudents (weighted phase, then remainder phase). */
module Placement {
  import opened Wrappers
  import opened Board
  import opened Ordering
  import opened Audit

  /** A cell `name` may take: on the grid, empty, and without a flagged conflict. */
  predicate Open(s: Setup, m: Occupancy, name: string, p: Position)
  {
    OnGrid(s, p) && p !in m && !FlaggedConflict(s, m, name, p.0, p.1)
  }

  /** The first open cell among the neighbours of `p`, trying directions d, d+1, ... */
  function NeighbourSeat(s: Setup, m: Occupancy, name: string, p: Position, d: nat): Option<Position>
    requires d <= 4
    decreases 4 - d
  {
    if d == 4 then None
    else if Open(s, m, name, Neighbour(p, d)) then Some(Neighbour(p, d))
    else NeighbourSeat(s, m, name, p, d + 1)
  }

  /** The friend phase: for each friend in list order that is already placed, the
      first open cell next to them. */
  function FriendSeat(s: Setup, m: Occupancy, name: string, friends: seq<string>): Option<Position>
    decreases |friends|
  {
    if friends == [] then None
    else
      var at := Find(s, m, friends[0]);
      var here := if at != NotFound then NeighbourSeat(s, m, name, at, 0) else None;
      if here.Some? then here else FriendSeat(s, m, name, friends[1..])
  }

  /** The fallback phase: the first open cell in row-major order from (r, c) on. */
  function FirstOpenFrom(s: Setup, m: Occupancy, name: string, r: nat, c: nat): Option<Position>
    decreases s.rows - r, s.cols - c
  {
    if r >= s.rows then None
    else if c >= s.cols then FirstOpenFrom(s, m, name, r + 1, 0)
    else if Open(s, m, name, (r, c)) then Some((r, c))
    else FirstOpenFrom(s, m, name, r, c + 1)
  }

  function FriendPhase(s: Setup, m: Occupancy, name: string): Option<Position>
  {
    if name in s.friendships then FriendSeat(s, m, name, s.friendships[name]) else None
  }

  /** The seat TryFindSeatForStudent takes, or None when it fails. */
  function ChooseSeat(s: Setup, m: Occupancy, name: string): Option<Position>
  {
    var friendly := FriendPhase(s, m, name);
    if friendly.Some? then friendly else FirstOpenFrom(s, m, name, 0, 0)
  }

  // ---------------------------------------------------------------- seat search

  lemma {:induction false} NeighbourSeatOpen(s: Setup, m: Occupancy, name: string, p: Position, d: nat)
    requires d <= 4
    ensures var q := NeighbourSeat(s, m, name, p, d);
      q.Some? ==> Open(s, m, name, q.value) && Adjacent(p, q.value)
    decreases 4 - d
  {
    if d < 4 {
      NeighbourIsAdjacent(p, d);
      NeighbourSeatOpen(s, m, name, p, d + 1);
    }
  }

  lemma {:induction false} FriendSeatOpen(s: Setup, m: Occupancy, name: string, friends: seq<string>)
    ensures var q := FriendSeat(s, m, name, friends);
      q.Some? ==>
        && Open(s, m, name, q.value)
        && exists f :: f in friends && Find(s, m, f) != NotFound && Adjacent(Find(s, m, f), q.value)
    decreases |friends|
  {
    if friends != [] {
      var at := Find(s, m, friends[0]);
      if at != NotFound {
        NeighbourSeatOpen(s, m, name, at, 0);
      }
      FriendSeatOpen(s, m, name, friends[1..]);
      var q := FriendSeat(s, m, name, friends);
      if q.Some? && !(at != NotFound && NeighbourSeat(s, m, name, at, 0).Some?) {
        var f :| f in friends[1..] && Find(s, m, f) != NotFound && Adjacent(Find(s, m, f), q.value);
        assert f in friends;
      }
    }
  }

  /** The neighbour search fails only when none of the remaining directions
      leads to an open cell. */
  lemma {:induction false} NeighbourSeatNone(s: Setup, m: Occupancy, name: string, p: Position, d: nat)
    requires d <= 4
    ensures NeighbourSeat(s, m, name, p, d).None? <==>
      forall e :: d <= e < 4 ==> !Open(s, m, name, Neighbour(p, e))
    decreases 4 - d
  {
    if d < 4 {
      NeighbourSeatNone(s, m, name, p, d + 1);
    }
  }

  /** The neighbour search takes the first open direction, in the order up,
      down, left, right. */
  lemma {:induction false} NeighbourSeatFirst(s: Setup, m: Occupancy, name: string, p: Position, d: nat)
    requires d <= 4
    ensures NeighbourSeat(s, m, name, p, d).Some? ==>
      exists e :: d <= e < 4 && NeighbourSeat(s, m, name, p, d).value == Neighbour(p, e)
        && forall e' :: d <= e' < e ==> !Open(s, m, name, Neighbour(p, e'))
    decreases 4 - d
  {
    if d < 4 && !Open(s, m, name, Neighbour(p, d)) {
      NeighbourSeatFirst(s, m, name, p, d + 1);
    }
  }

  /** The friend phase fails only when no listed friend who is already placed
      has an open neighbour. */
  lemma {:induction false} FriendSeatNone(s: Setup, m: Occupancy, name: string, friends: seq<string>)
    ensures FriendSeat(s, m, name, friends).None? <==>
      forall f, e :: f in friends && Find(s, m, f) != NotFound && 0 <= e < 4 ==>
        !Open(s, m, name, Neighbour(Find(s, m, f), e))
    decreases |friends|
  {
    if friends != [] {
      var at := Find(s, m, friends[0]);
      if at != NotFound {
        NeighbourSeatNone(s, m, name, at, 0);
      }
      FriendSeatNone(s, m, name, friends[1..]);
      assert forall f :: f in friends <==> f == friends[0] || f in friends[1..];
    }
  }

  /** The friend phase takes the first open neighbour of the first listed,
      placed friend who has one. */
  lemma {:induction false} FriendSeatFirst(s: Setup, m: Occupancy, name: string, friends: seq<string>)
    ensures FriendSeat(s, m, name, friends).Some? ==>
      exists k :: 0 <= k < |friends| && Find(s, m, friends[k]) != NotFound
        && FriendSeat(s, m, name, friends) == NeighbourSeat(s, m, name, Find(s, m, friends[k]), 0)
        && forall i :: 0 <= i < k && Find(s, m, friends[i]) != NotFound ==>
             NeighbourSeat(s, m, name, Find(s, m, friends[i]), 0).None?
    decreases |friends|
  {
    if friends != [] {
      var at := Find(s, m, friends[0]);
      if !(at != NotFound && NeighbourSeat(s, m, name, at, 0).Some?) {
        FriendSeatFirst(s, m, name, friends[1..]);
        if FriendSeat(s, m, name, friends).Some? {
          var k :| 0 <= k < |friends[1..]| && Find(s, m, friends[1..][k]) != NotFound
            && FriendSeat(s, m, name, friends[1..]) == NeighbourSeat(s, m, name, Find(s, m, friends[1..][k]), 0)
            && forall i :: 0 <= i < k && Find(s, m, friends[1..][i]) != NotFound ==>
                 NeighbourSeat(s, m, name, Find(s, m, friends[1..][i]), 0).None?;
          assert friends[k + 1] == friends[1..][k];
          forall i | 0 <= i < k + 1 && Find(s, m, friends[i]) != NotFound
            ensures NeighbourSeat(s, m, name, Find(s, m, friends[i]), 0).None?
          {
            if i > 0 {
              assert friends[i] == friends[1..][i - 1];
            }
          }
        }
      }
    }
  }

  lemma {:induction false} FirstOpenFromFirst(s: Setup, m: Occupancy, name: string, r: nat, c: nat)
    ensures var q := FirstOpenFrom(s, m, name, r, c);
      && (q.None? <==> forall p :: Open(s, m, name, p) ==> RowMajorBefore(p, (r, c)))
      && (q.Some? ==> Open(s, m, name, q.value) && !RowMajorBefore(q.value, (r, c)))
      && (q.Some? ==> forall p :: Open(s, m, name, p) && RowMajorBefore(p, q.value) ==> RowMajorBefore(p, (r, c)))
    decreases s.rows - r, s.cols - c
  {
    if r >= s.rows {
    } else if c >= s.cols {
      FirstOpenFromFirst(s, m, name, r + 1, 0);
    } else if Open(s, m, name, (r, c)) {
    } else {
      FirstOpenFromFirst(s, m, name, r, c + 1);
    }
  }

  /** TryFindSeatForStudent only ever takes an empty, conflict-free cell on the
      grid, and it fails exactly when the grid has no such cell for the student. */
  lemma ChooseSeatSound(s: Setup, m: Occupancy, name: string)
    ensures ChooseSeat(s, m, name).Some? ==> Open(s, m, name, ChooseSeat(s, m, name).value)
    ensures ChooseSeat(s, m, name).None? <==> forall p :: !Open(s, m, name, p)
  {
    FirstOpenFromFirst(s, m, name, 0, 0);
    if name in s.friendships {
      FriendSeatOpen(s, m, name, s.friendships[name]);
    }
    if forall p :: !Open(s, m, name, p) {
      assert FriendPhase(s, m, name).None?;
    } else {
      var p :| Open(s, m, name, p);
      assert !RowMajorBefore(p, (0, 0));
    }
  }

  /** The friend preference takes effect: whenever some listed friend is placed
      and has an open neighbour, the student sits next to a placed friend. */
  lemma ChooseSeatPrefersFriend(s: Setup, m: Occupancy, name: string)
    requires name in s.friendships
    requires exists f, e ::
      f in s.friendships[name] && Find(s, m, f) != NotFound && 0 <= e < 4 && Open(s, m, name, Neighbour(Find(s, m, f), e))
    ensures ChooseSeat(s, m, name) == FriendPhase(s, m, name) && ChooseSeat(s, m, name).Some?
    ensures exists f ::
      f in s.friendships[name] && Find(s, m, f) != NotFound && Adjacent(Find(s, m, f), ChooseSeat(s, m, name).value)
  {
    FriendSeatNone(s, m, name, s.friendships[name]);
    ChooseSeatPlacement(s, m, name);
  }

  /** A seat found in the friend phase is next to an already placed friend; a seat
      found in the fallback phase is the first open cell in row-major order. */
  lemma ChooseSeatPlacement(s: Setup, m: Occupancy, name: string)
    ensures FriendPhase(s, m, name).Some? ==>
      exists f :: f in s.friendships[name] && Find(s, m, f) != NotFound &&
        Adjacent(Find(s, m, f), ChooseSeat(s, m, name).value)
    ensures FriendPhase(s, m, name).None? && ChooseSeat(s, m, name).Some? ==>
      forall p :: Open(s, m, name, p) ==> !RowMajorBefore(p, ChooseSeat(s, m, name).value)
  {
    if name in s.friendships {
      FriendSeatOpen(s, m, name, s.friendships[name]);
    }
    FirstOpenFromFirst(s, m, name, 0, 0);
  }

  // ---------------------------------------------------------------- placing a sequence

  /** Places `order` one student at a time; stops at the first student without a
      seat, answering false and the grid as it stands at that point. */
  function PlaceAll(s: Setup, m: Occupancy, order: seq<string>): (bool, Occupancy)
    decreases |order|
  {
    if order == [] then (true, m)
    else
      match ChooseSeat(s, m, order[0])
      case None => (false, m)
      case Some(p) => PlaceAll(s, m[p := order[0]], order[1..])
  }

  /** Placing from the k-th student on: seat that student, then go on from k + 1. */
  lemma PlaceAllStep(s: Setup, m: Occupancy, order: seq<string>, k: nat)
    requires k < |order|
    ensures PlaceAll(s, m, order[k..]) ==
      if ChooseSeat(s, m, order[k]).None? then (false, m)
      else PlaceAll(s, m[ChooseSeat(s, m, order[k]).value := order[k]], order[k + 1..])
  {
    assert order[k..][0] == order[k];
    assert order[k..][1..] == order[k + 1..];
  }

  /** Placing a queue: seat its head, then go on with the rest. */
  lemma PlaceAllHead(s: Setup, m: Occupancy, queue: seq<string>)
    requires queue != []
    ensures PlaceAll(s, m, queue) ==
      if ChooseSeat(s, m, queue[0]).None? then (false, m)
      else PlaceAll(s, m[ChooseSeat(s, m, queue[0]).value := queue[0]], queue[1..])
  {
  }

  /** No two cells hold the same student. */
  predicate OneCellEach(m: Occupancy)
  {
    forall p, q :: p in m && q in m && m[p] == m[q] ==> p == q
  }

  /** Seating one more student in an empty on-grid cell. */
  lemma SeatOne(s: Setup, m: Occupancy, p: Position, name: string)
    requires InGrid(s, m) && OneCellEach(m) && OnGrid(s, p) && p !in m && name !in m.Values
    ensures var m1 := m[p := name];
      && InGrid(s, m1) && OneCellEach(m1)
      && m1.Values == m.Values + {name}
      && |m1| == |m| + 1
  {
    var m1 := m[p := name];
    assert m1.Keys == m.Keys + {p};
    assert |m1| == |m| + 1;
    assert InGrid(s, m1);
    SeatOneValues(m, p, name);
  }

  lemma SeatOneValues(m: Occupancy, p: Position, name: string)
    requires OneCellEach(m) && p !in m && name !in m.Values
    ensures m[p := name].Values == m.Values + {name}
    ensures OneCellEach(m[p := name])
  {
    var m1 := m[p := name];
    forall x ensures x in m1.Values <==> x in m.Values || x == name {
      if x in m.Values {
        var q :| q in m && m[q] == x;
        assert m1[q] == x;
      }
      assert m1[p] == name;
    }
  }

  /** Placing a sequence never leaves the grid and never seats a student twice. */
  lemma {:induction false} PlaceAllKeeps(s: Setup, m: Occupancy, order: seq<string>)
    requires InGrid(s, m) && OneCellEach(m) && Distinct(order)
    requires forall x :: x in order ==> x !in m.Values
    ensures InGrid(s, PlaceAll(s, m, order).1)
    ensures OneCellEach(PlaceAll(s, m, order).1)
    decreases |order|
  {
    if order != [] && ChooseSeat(s, m, order[0]).Some? {
      var m1 := NextSeated(s, m, order);
      PlaceAllKeeps(s, m1, order[1..]);
    }
  }

  /** Placing a sequence leaves everyone already seated where they are. */
  lemma {:induction false} PlaceAllStays(s: Setup, m: Occupancy, order: seq<string>)
    ensures forall p :: p in m ==> p in PlaceAll(s, m, order).1 && PlaceAll(s, m, order).1[p] == m[p]
    decreases |order|
  {
    if order != [] && ChooseSeat(s, m, order[0]).Some? {
      var p := ChooseSeat(s, m, order[0]).value;
      ChooseSeatSound(s, m, order[0]);
      var m1 := m[p := order[0]];
      assert PlaceAll(s, m, order) == PlaceAll(s, m1, order[1..]);
      PlaceAllStays(s, m1, order[1..]);
      var m' := PlaceAll(s, m1, order[1..]).1;
      forall q | q in m ensures q in m' && m'[q] == m[q] {
        assert q in m1 && m1[q] == m[q];
      }
    }
  }

  /** On success, placing a sequence seats each of its students in one new cell. */
  lemma {:induction false} PlaceAllFills(s: Setup, m: Occupancy, order: seq<string>)
    requires InGrid(s, m) && OneCellEach(m) && Distinct(order)
    requires forall x :: x in order ==> x !in m.Values
    ensures PlaceAll(s, m, order).0 ==> forall x :: x in PlaceAll(s, m, order).1.Values <==> x in m.Values || x in order
    ensures PlaceAll(s, m, order).0 ==> |PlaceAll(s, m, order).1| == |m| + |order|
    decreases |order|
  {
    if order != [] && ChooseSeat(s, m, order[0]).Some? {
      var m1 := NextSeated(s, m, order);
      PlaceAllFills(s, m1, order[1..]);
      assert forall x :: x in order <==> x == order[0] || x in order[1..];
    }
  }

  /** The grid after seating the head of `order`, with what the rest of the
      placement needs of it. */
  lemma NextSeated(s: Setup, m: Occupancy, order: seq<string>) returns (m1: Occupancy)
    requires InGrid(s, m) && OneCellEach(m) && Distinct(order)
    requires forall x :: x in order ==> x !in m.Values
    requires order != [] && ChooseSeat(s, m, order[0]).Some?
    ensures m1 == m[ChooseSeat(s, m, order[0]).value := order[0]]
    ensures PlaceAll(s, m, order) == PlaceAll(s, m1, order[1..])
    ensures InGrid(s, m1) && OneCellEach(m1) && Distinct(order[1..])
    ensures m1.Values == m.Values + {order[0]} && |m1| == |m| + 1
    ensures ChooseSeat(s, m, order[0]).value !in m
    ensures forall x :: x in order[1..] ==> x !in m1.Values
  {
    var name := order[0];
    var p := ChooseSeat(s, m, name).value;
    ChooseSeatSound(s, m, name);
    m1 := m[p := name];
    SeatOne(s, m, p, name);
    forall x | x in order[1..] ensures x !in m1.Values {
      var k :| 0 <= k < |order[1..]| && order[1..][k] == x;
      assert order[k + 1] == x && x != name && x in order;
    }
  }

  /** A successful placement from an empty grid seats every student of the order
      in exactly one cell, and fills exactly as many cells; it cannot succeed with
      more students than the grid has cells. */
  lemma PlaceAllFromEmpty(s: Setup, order: seq<string>)
    requires Distinct(order)
    ensures var (ok, m) := PlaceAll(s, map[], order);
      && InGrid(s, m)
      && OneCellEach(m)
      && (ok ==> forall x :: x in m.Values <==> x in order)
      && (ok ==> |m| == |order|)
      && (|order| > s.rows * s.cols ==> !ok)
  {
    PlaceAllKeeps(s, map[], order);
    PlaceAllFills(s, map[], order);
    OccupancyBound(s, PlaceAll(s, map[], order).1);
  }

  // ---------------------------------------------------------------- one attempt

  /** The queue after removing one student (the Where filter of TryPlaceStudents). */
  function Without(queue: seq<string>, name: string): seq<string>
    decreases |queue|
  {
    if queue == [] then []
    else (if queue[0] == name then [] else [queue[0]]) + Without(queue[1..], name)
  }

  /** The filter keeps every other student and drops `name`. */
  lemma {:induction false} WithoutMembers(queue: seq<string>, name: string)
    ensures forall x :: x in Without(queue, name) <==> x in queue && x != name
    decreases |queue|
  {
    if queue != [] {
      WithoutMembers(queue[1..], name);
      assert forall x :: x in queue <==> x == queue[0] || x in queue[1..];
    }
  }

  /** The queue left for the remainder phase once the weighted phase has placed `placed`. */
  function Remaining(queue: seq<string>, placed: seq<string>): seq<string>
    decreases |placed|
  {
    if placed == [] then queue
    else Remaining(Without(queue, placed[0]), placed[1..])
  }

  /** The remainder queue holds exactly the students not yet placed. */
  lemma {:induction false} RemainingMembers(queue: seq<string>, placed: seq<string>)
    ensures forall x :: x in Remaining(queue, placed) <==> x in queue && x !in placed
    decreases |placed|
  {
    if placed != [] {
      WithoutMembers(queue, placed[0]);
      RemainingMembers(Without(queue, placed[0]), placed[1..]);
      assert forall x :: x in placed <==> x == placed[0] || x in placed[1..];
    }
  }

  /** Filtering out one more placed student at the end of the weighted phase. */
  lemma {:induction false} RemainingThenWithout(queue: seq<string>, placed: seq<string>, name: string)
    ensures Remaining(queue, placed + [name]) == Without(Remaining(queue, placed), name)
    decreases |placed|
  {
    if placed == [] {
      assert [name][1..] == [];
    } else {
      assert (placed + [name])[1..] == placed[1..] + [name];
      RemainingThenWithout(Without(queue, placed[0]), placed[1..], name);
    }
  }

  /** The queue after the weighted phase has placed the first k + 1 of `order`. */
  lemma RemainingNext(queue: seq<string>, order: seq<string>, k: nat)
    requires k < |order|
    ensures Remaining(queue, order[..k + 1]) == Without(Remaining(queue, order[..k]), order[k])
  {
    assert order[..k + 1] == order[..k] + [order[k]];
    RemainingThenWithout(queue, order[..k], order[k]);
  }

  /** The weighted phase already covers every student, so the remainder phase of
      TryPlaceStudents never has anyone left to place. */
  lemma RemainderIsEmpty(s: Setup, students: seq<string>)
    ensures Remaining(students, PlacementOrder(s, students)) == []
  {
    var order := PlacementOrder(s, students);
    PlacementOrderSpec(s, students);
    forall x | x in students ensures x in order {
      assert x in multiset(students);
    }
    var r := Remaining(students, order);
    RemainingMembers(students, order);
    if r != [] {
      assert r[0] in r;
    }
  }

  /** TryPlaceStudents on a fresh grid: the weighted phase in PlacementOrder,
      then the students still queued, in roster order. */
  function Attempt(s: Setup, students: seq<string>): (bool, Occupancy)
  {
    var order := PlacementOrder(s, students);
    var (ok, m) := PlaceAll(s, map[], order);
    if !ok then (false, m) else PlaceAll(s, m, Remaining(students, order))
  }

  /** Appending one more round to the log of GenerateValidArrangement. */
  lemma LogRound(s: Setup, tried: seq<seq<string>>, x: seq<string>, roster: seq<string>, ok: bool)
    requires forall k :: 0 <= k < |tried| ==> multiset(tried[k]) == multiset(roster)
    requires forall k :: 0 <= k < |tried| ==> !Attempt(s, tried[k]).0
    requires multiset(x) == multiset(roster) && ok == Attempt(s, x).0
    ensures forall k :: 0 <= k < |tried + [x]| ==> multiset((tried + [x])[k]) == multiset(roster)
    ensures !ok ==> forall k :: 0 <= k < |tried + [x]| ==> !Attempt(s, (tried + [x])[k]).0
    ensures forall k :: 0 <= k < |tried + [x]| - 1 ==> !Attempt(s, (tried + [x])[k]).0
    ensures (tried + [x])[|tried|] == x
  {
  }

  /** A successful attempt seats every student in exactly one cell and fills as
      many cells as there are students; with more students than cells it fails. */
  lemma AttemptSeatsEveryone(s: Setup, students: seq<string>)
    requires Distinct(students)
    ensures var (ok, m) := Attempt(s, students);
      && InGrid(s, m)
      && OneCellEach(m)
      && (ok ==> forall x :: x in m.Values <==> x in students)
      && (ok ==> |m| == |students|)
      && (|students| > s.rows * s.cols ==> !ok)
  {
    var order := PlacementOrder(s, students);
    RemainderIsEmpty(s, students);
    assert Attempt(s, students) == PlaceAll(s, map[], order);
    PlacementOrderSpec(s, students);
    PermutationKeepsDistinct(students, order);
    PlaceAllFromEmpty(s, order);
    assert forall x :: x in order <==> x in students by {
      forall x ensures x in order <==> x in students {
        assert x in order <==> x in multiset(order);
        assert x in students <==> x in multiset(students);
      }
    }
  }

  // ---------------------------------------------------------------- flags after an attempt

  /** `a` comes before `b` in the order students were seated. */
  predicate SeatedBefore(seated: seq<string>, a: string, b: string)
  {
    exists i, j :: 0 <= i < j < |seated| && seated[i] == a && seated[j] == b
  }

  /** Every occupant of the grid appears in the seating order. */
  predicate AllSeated(m: Occupancy, seated: seq<string>)
  {
    forall p :: p in m ==> m[p] in seated
  }

  /** Every flagged violation on the grid was made by the student seated later:
      the flagged neighbour arrived after the one who flags them. */
  predicate FlagsOrdered(s: Setup, m: Occupancy, seated: seq<string>)
  {
    forall p, q :: p in m && q in m && (p, q) in FlaggedPairs(s, m) ==> SeatedBefore(seated, m[p], m[q])
  }

  /** Seating `x` in a cell the seat check allowed keeps the flagged violations
      ordered: `x`'s own flagged list names no neighbour yet, so every violation
      it takes part in has `x` as the flagged, later side. */
  lemma SeatKeepsFlagsOrdered(s: Setup, m: Occupancy, seated: seq<string>, c: Position, x: string)
    requires FlagsOrdered(s, m, seated) && AllSeated(m, seated)
    requires Open(s, m, x, c)
    ensures FlagsOrdered(s, m[c := x], seated + [x])
    ensures AllSeated(m[c := x], seated + [x])
  {
    var m1 := m[c := x];
    var seated1 := seated + [x];
    assert forall q :: Adjacent(c, q) ==> !FlaggedNeighbour(s, m, x, q);
    forall p, q | p in m1 && q in m1 && (p, q) in FlaggedPairs(s, m1)
      ensures SeatedBefore(seated1, m1[p], m1[q])
    {
      assert Adjacent(p, q) && FlaggedNeighbour(s, m1, m1[p], q) && OnGrid(s, p);
      if q == c {
        var i :| 0 <= i < |seated| && seated[i] == m[p];
        assert seated1[i] == m1[p] && seated1[|seated|] == m1[q];
      } else if p != c {
        assert (p, q) in FlaggedPairs(s, m);
        var i, j :| 0 <= i < j < |seated| && seated[i] == m[p] && seated[j] == m[q];
        assert seated1[i] == m1[p] && seated1[j] == m1[q];
      }
    }
    forall p | p in m1 ensures m1[p] in seated1 {
      if p != c {
        assert m[p] in seated;
      }
    }
  }

  /** Placing a sequence keeps every flagged violation ordered by seating time. */
  lemma {:induction false} PlaceAllFlagsOrdered(s: Setup, m: Occupancy, seated: seq<string>, order: seq<string>)
    requires FlagsOrdered(s, m, seated) && AllSeated(m, seated)
    ensures FlagsOrdered(s, PlaceAll(s, m, order).1, seated + order)
    decreases |order|
  {
    if order == [] {
      assert seated + order == seated;
    } else if ChooseSeat(s, m, order[0]).None? {
      SeatedBeforeGrows(seated, order);
    } else {
      var c := ChooseSeat(s, m, order[0]).value;
      ChooseSeatSound(s, m, order[0]);
      SeatKeepsFlagsOrdered(s, m, seated, c, order[0]);
      PlaceAllFlagsOrdered(s, m[c := order[0]], seated + [order[0]], order[1..]);
      assert (seated + [order[0]]) + order[1..] == seated + order;
    }
  }

  lemma SeatedBeforeGrows(seated: seq<string>, more: seq<string>)
    ensures forall a, b :: SeatedBefore(seated, a, b) ==> SeatedBefore(seated + more, a, b)
  {
    forall a, b | SeatedBefore(seated, a, b) ensures SeatedBefore(seated + more, a, b) {
      var i, j :| 0 <= i < j < |seated| && seated[i] == a && seated[j] == b;
      assert (seated + more)[i] == a && (seated + more)[j] == b;
    }
  }

  /** In an attempt's grid, every flagged violation pairs a student with a
      flagged neighbour who was seated after them: the seat check only ever
      looks at the arriving student's own list. */
  lemma AttemptFlagsOrdered(s: Setup, students: seq<string>)
    requires Distinct(students)
    ensures var m := Attempt(s, students).1;
      forall p, q :: p in m && q in m && (p, q) in FlaggedPairs(s, m) ==>
        SeatedBefore(PlacementOrder(s, students), m[p], m[q])
  {
    var order := PlacementOrder(s, students);
    RemainderIsEmpty(s, students);
    assert Attempt(s, students) == PlaceAll(s, map[], order);
    PlaceAllFlagsOrdered(s, map[], [], order);
    assert [] + order == order;
  }

  /** Flags that always go both ways. */
  predicate SymmetricFlags(s: Setup)
  {
    forall a, b :: a in s.flaggedPairs && b in s.flaggedPairs[a] ==> b in s.flaggedPairs && a in s.flaggedPairs[b]
  }

  /** With symmetric flags, an attempt never leaves a flagged violation, whether
      it succeeds or not. */
  lemma SymmetricFlagsAttemptClean(s: Setup, students: seq<string>)
    requires Distinct(students) && SymmetricFlags(s)
    ensures FlaggedViolations(s, Attempt(s, students).1) == 0
  {
    var order := PlacementOrder(s, students);
    AttemptFlagsOrdered(s, students);
    PlacementOrderSpec(s, students);
    PermutationKeepsDistinct(students, order);
    OrderedSymmetricIsClean(s, Attempt(s, students).1, order);
  }

  /** Ordered violations under symmetric flags: there are none, since each would
      come with its mirror image, ordered the other way. */
  lemma OrderedSymmetricIsClean(s: Setup, m: Occupancy, seated: seq<string>)
    requires Distinct(seated) && SymmetricFlags(s) && FlagsOrdered(s, m, seated)
    ensures FlaggedPairs(s, m) == {}
  {
    forall x | x in FlaggedPairs(s, m) ensures (x.1, x.0) in FlaggedPairs(s, m) {
      assert FlaggedNeighbour(s, m, m[x.1], x.0);
    }
    forall x ensures x !in FlaggedPairs(s, m) {
      if x.0 in m && x.1 in m && SeatedBefore(seated, m[x.0], m[x.1]) {
        SeatedBeforeOneWay(seated, m[x.0], m[x.1]);
      }
    }
  }

  lemma SeatedBeforeOneWay(seated: seq<string>, a: string, b: string)
    requires Distinct(seated) && SeatedBefore(seated, a, b)
    ensures !SeatedBefore(seated, b, a)
  {
    var i, j :| 0 <= i < j < |seated| && seated[i] == a && seated[j] == b;
    forall i', j' | 0 <= i' < j' < |seated| && seated[i'] == b ensures seated[j'] != a {
      assert i' == j;
    }
  }

  lemma PermutationKeepsDistinct(a: seq<string>, b: seq<string>)
    requires Distinct(a) && multiset(a) == multiset(b)
    ensures Distinct(b)
  {
    forall i, j | 0 <= i < j < |b| ensures b[i] != b[j] {
      if b[i] == b[j] {
        TwiceCounted(b, i, j);
        DistinctOnce(a, b[i]);
      }
    }
  }

  lemma TwiceCounted(b: seq<string>, i: nat, j: nat)
    requires i < j < |b| && b[i] == b[j]
    ensures multiset(b)[b[i]] >= 2
  {
    assert b == b[..j] + b[j..];
    assert b[i] in b[..j] && b[j] in b[j..];
  }

  lemma {:induction false} DistinctOnce(s: seq<string>, x: string)
    requires Distinct(s)
    ensures multiset(s)[x] <= 1
    decreases |s|
  {
    if s != [] {
      assert s == [s[0]] + s[1..];
      DistinctOnce(s[1..], x);
      if s[0] == x {
        assert x !in s[1..];
      }
    }
  }
}
