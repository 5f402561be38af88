/** Small fixed inputs that show what the directional conflict check means for
    a whole attempt. */
module Scenarios {
  import opened Wrappers
  import opened Board
  import opened Ordering
  import opened Placement
  import opened Audit

  /** b flags a; a flags no one; no friendships; one row of two cells. */
  function OneSided(): Setup
  {
    Setup(1, 2, map[], map["b" := ["a"]])
  }

  /** b outweighs a, so the weighted phase visits b first. */
  lemma OneSidedOrder()
    ensures PlacementOrder(OneSided(), ["a", "b"]) == ["b", "a"]
  {
    var s := OneSided();
    assert "a" != "b";
    assert Weight(s, "a") == 0 && Weight(s, "b") == 1;
    var ws := ConstraintWeights(s, ["a", "b"]);
    assert ws == [("a", 0), ("b", 1)];
    assert ws[1..] == [("b", 1)];
    assert SortByWeight(ws[1..]) == [("b", 1)];
    assert InsertByWeight(("a", 0), []) == [("a", 0)];
    assert InsertByWeight(("a", 0), [("b", 1)]) == [("b", 1), ("a", 0)];
    assert SortByWeight(ws) == [("b", 1), ("a", 0)];
  }

  /** a's own list is empty, so nothing stops a from sitting next to b. */
  lemma OneSidedSeats()
    ensures PlaceAll(OneSided(), map[], ["b", "a"]) == (true, map[(0, 0) := "b", (0, 1) := "a"])
  {
    var s := OneSided();
    assert "a" != "b";
    assert Open(s, map[], "b", (0, 0));
    assert FirstOpenFrom(s, map[], "b", 0, 0) == Some((0, 0));
    var m1 := map[(0, 0) := "b"];
    assert !FlaggedConflict(s, m1, "a", 0, 1);
    assert !Open(s, m1, "a", (0, 0)) && Open(s, m1, "a", (0, 1));
    assert FirstOpenFrom(s, m1, "a", 0, 1) == Some((0, 1));
    assert FirstOpenFrom(s, m1, "a", 0, 0) == Some((0, 1));
    assert PlaceAll(s, m1, ["a"]) == (true, m1[(0, 1) := "a"]);
  }

  /** The whole attempt: the weighted phase seats both, nobody remains. */
  lemma OneSidedAttempt()
    ensures Attempt(OneSided(), ["a", "b"]) == (true, map[(0, 0) := "b", (0, 1) := "a"])
  {
    var m := map[(0, 0) := "b", (0, 1) := "a"];
    OneSidedOrder();
    OneSidedSeats();
    RemainderIsEmpty(OneSided(), ["a", "b"]);
    assert Attempt(OneSided(), ["a", "b"]) == PlaceAll(OneSided(), m, []);
  }

  /** b sits next to a and flags a: one ordered pair the audit counts. */
  lemma OneSidedAudit()
    ensures ((0, 0), (0, 1)) in FlaggedPairs(OneSided(), map[(0, 0) := "b", (0, 1) := "a"])
  {
    var m := map[(0, 0) := "b", (0, 1) := "a"];
    assert FlaggedNeighbour(OneSided(), m, "b", (0, 1));
    assert Adjacent((0, 0), (0, 1));
  }

  /** The attempt succeeds with a next to b, and the audit still counts b's
      flag on a: a successful attempt does not mean no flagged violations. */
  lemma OneSidedFlagSurvivesPlacement()
    ensures var (ok, m) := Attempt(OneSided(), ["a", "b"]);
      ok && m[(0, 1)] == "a" && FlaggedViolations(OneSided(), m) > 0
  {
    OneSidedAttempt();
    OneSidedAudit();
  }

  /** a and b flag each other; one row of two cells. */
  function MutualPair(): Setup
  {
    Setup(1, 2, map[], map["a" := ["b"], "b" := ["a"]])
  }

  /** Equal weights keep the shuffled order. */
  lemma MutualPairOrder(x: string, y: string)
    requires (x == "a" && y == "b") || (x == "b" && y == "a")
    ensures PlacementOrder(MutualPair(), [x, y]) == [x, y]
  {
    var s := MutualPair();
    assert Weight(s, x) == 1 && Weight(s, y) == 1;
    var ws := ConstraintWeights(s, [x, y]);
    assert ws == [(x, 1), (y, 1)];
    assert ws[1..] == [(y, 1)];
    assert SortByWeight(ws[1..]) == [(y, 1)];
    assert InsertByWeight((x, 1), [(y, 1)]) == [(x, 1), (y, 1)];
  }

  /** Whoever comes second finds the only other cell next to someone on their
      own flagged list. */
  lemma MutualPairSeats(x: string, y: string)
    requires (x == "a" && y == "b") || (x == "b" && y == "a")
    ensures !PlaceAll(MutualPair(), map[], [x, y]).0
  {
    var s := MutualPair();
    assert Open(s, map[], x, (0, 0));
    assert FirstOpenFrom(s, map[], x, 0, 0) == Some((0, 0));
    assert ChooseSeat(s, map[], x) == Some((0, 0));
    var m1 := map[(0, 0) := x];
    assert FlaggedNeighbour(s, m1, y, Neighbour((0, 1), 2));
    forall p ensures !Open(s, m1, y, p) {
      if p == (0, 1) {
        assert FlaggedConflict(s, m1, y, 0, 1);
      }
    }
    ChooseSeatSound(s, m1, y);
    assert [x, y][1..] == [y];
  }

  /** No shuffle of a mutually flagged pair fits a 1 x 2 grid, so every attempt
      fails and GenerateValidArrangement gives up after its last attempt. */
  lemma MutualPairNeverFits(students: seq<string>)
    requires multiset(students) == multiset{"a", "b"}
    ensures !Attempt(MutualPair(), students).0
  {
    assert |students| == 2;
    assert students[0] in multiset(students) && students[1] in multiset(students);
    var x, y := students[0], students[1];
    assert students == [x, y];
    assert multiset(students)[x] == multiset{"a", "b"}[x];
    MutualPairOrder(x, y);
    MutualPairSeats(x, y);
  }
}
