/** The order in which one attempt visits the students: the Fisher-Yates
    shuffle of the roster (ShuffleStudents), the constraint weights
    (CalculateConstraintWeights) and the stable sort by non-increasing weight
    that OrderByDescending performs on them. */
module Ordering {
  import opened Board

  predicate Distinct<T(==)>(s: seq<T>)
  {
    forall i, j :: 0 <= i < j < |s| ==> s[i] != s[j]
  }

  // ---------------------------------------------------------------- shuffle

  function Swap<T>(s: seq<T>, i: nat, j: nat): (r: seq<T>)
    requires i < |s| && j < |s|
    ensures |r| == |s| && r[i] == s[j] && r[j] == s[i]
    ensures forall k :: 0 <= k < |s| && k != i && k != j ==> r[k] == s[k]
  {
    s[i := s[j]][j := s[i]]
  }

  /** Draws a shuffle of `n` elements may have made so far: draw k swaps index
      n - 1 - k with a partner drawn from [0, n - 1 - k], and no draw is made for
      index 0. */
  predicate DrawsFit(d: seq<int>, n: nat)
  {
    (d == [] || |d| < n) && forall k :: 0 <= k < |d| ==> 0 <= d[k] <= n - 1 - k
  }

  /** All the draws of one full shuffle of `n` elements. */
  predicate AllDraws(d: seq<int>, n: nat)
  {
    DrawsFit(d, n) && |d| == if n == 0 then 0 else n - 1
  }

  /** The roster after the swaps of draws `d`, in the order ShuffleStudents makes them. */
  function ShuffleSteps<T>(s: seq<T>, d: seq<int>): (r: seq<T>)
    requires DrawsFit(d, |s|)
    ensures |r| == |s|
    decreases |d|
  {
    if d == [] then s
    else
      var before := ShuffleSteps(s, d[..|d| - 1]);
      Swap(before, |s| - |d|, d[|d| - 1])
  }

  /** One more draw: the next swap, at the next index down. */
  lemma {:induction false} ShuffleStepsNext<T>(s: seq<T>, d: seq<int>, j: int)
    requires DrawsFit(d, |s|) && |d| + 1 < |s| && 0 <= j <= |s| - 1 - |d|
    ensures DrawsFit(d + [j], |s|)
    ensures ShuffleSteps(s, d + [j]) == Swap(ShuffleSteps(s, d), |s| - 1 - |d|, j)
  {
    var d1 := d + [j];
    DrawsFitNext(d, |s|, j);
    assert d1[..|d1| - 1] == d;
    ShuffleStepsLast(s, d1, d, j);
  }

  /** Unfolding ShuffleSteps once at draws `d1` that are `d` and then `j`. */
  lemma {:induction false} ShuffleStepsLast<T>(s: seq<T>, d1: seq<int>, d: seq<int>, j: int)
    requires DrawsFit(d1, |s|) && DrawsFit(d, |s|) && |d1| == |d| + 1 < |s|
    requires d1[..|d1| - 1] == d && d1[|d1| - 1] == j
    ensures ShuffleSteps(s, d1) == Swap(ShuffleSteps(s, d), |s| - 1 - |d|, j)
  {
  }

  /** A swap only reorders. */
  lemma SwapPermutes<T>(s: seq<T>, i: nat, j: nat)
    requires i < |s| && j < |s|
    ensures multiset(Swap(s, i, j)) == multiset(s)
  {
  }

  /** The shuffle is a permutation of the roster. */
  lemma {:induction false} ShuffleStepsPermutes<T>(s: seq<T>, d: seq<int>)
    requires DrawsFit(d, |s|)
    ensures multiset(ShuffleSteps(s, d)) == multiset(s)
    decreases |d|
  {
    if d != [] {
      ShuffleStepsPermutes(s, d[..|d| - 1]);
      SwapPermutes(ShuffleSteps(s, d[..|d| - 1]), |s| - |d|, d[|d| - 1]);
    }
  }

  lemma DrawsFitNext(d: seq<int>, n: nat, j: int)
    requires DrawsFit(d, n) && |d| + 1 < n && 0 <= j <= n - 1 - |d|
    ensures DrawsFit(d + [j], n)
  {
    var d1 := d + [j];
    forall k | 0 <= k < |d1| ensures 0 <= d1[k] <= n - 1 - k {
      if k < |d| {
        assert d1[k] == d[k];
      }
    }
  }

  lemma {:induction false} ShuffleKeepsDistinct<T>(s: seq<T>, d: seq<int>)
    requires DrawsFit(d, |s|) && Distinct(s)
    ensures Distinct(ShuffleSteps(s, d))
    decreases |d|
  {
    if d != [] {
      ShuffleKeepsDistinct(s, d[..|d| - 1]);
      SwapKeepsDistinct(ShuffleSteps(s, d[..|d| - 1]), |s| - |d|, d[|d| - 1]);
    }
  }

  lemma SwapKeepsDistinct<T>(s: seq<T>, i: nat, j: nat)
    requires i < |s| && j < |s| && Distinct(s)
    ensures Distinct(Swap(s, i, j))
  {
    var r := Swap(s, i, j);
    forall a, b | 0 <= a < b < |r| ensures r[a] != r[b] {
      var a' := if a == i then j else if a == j then i else a;
      var b' := if b == i then j else if b == j then i else b;
      assert r[a] == s[a'] && r[b] == s[b'];
    }
  }

  // ---------------------------------------------------------------- weights

  /** A weighted entry: a student's name and their constraint weight. */
  type Weighted = (string, int)

  function Weight(s: Setup, name: string): nat
  {
    (if name in s.friendships then |s.friendships[name]| else 0) +
    (if name in s.flaggedPairs then |s.flaggedPairs[name]| else 0)
  }

  /** CalculateConstraintWeights: one entry per student, in roster order (the
      order a dictionary filled in that order enumerates), weighing the length of
      the student's friend list plus that of their flagged list, a missing entry
      counting 0. */
  function ConstraintWeights(s: Setup, students: seq<string>): (ws: seq<Weighted>)
    ensures |ws| == |students|
    ensures forall i :: 0 <= i < |ws| ==> ws[i] == (students[i], Weight(s, students[i]))
    decreases |students|
  {
    if students == [] then []
    else [(students[0], Weight(s, students[0]))] + ConstraintWeights(s, students[1..])
  }

  /** The weights are keyed by the roster, in its order; a student with neither
      a friend list nor a flagged list weighs 0. */
  lemma ConstraintWeightsSpec(s: Setup, students: seq<string>)
    ensures Keys(ConstraintWeights(s, students)) == students
    ensures forall i :: 0 <= i < |students| && students[i] !in s.friendships && students[i] !in s.flaggedPairs ==>
      ConstraintWeights(s, students)[i].1 == 0
  {
  }

  function Keys(ws: seq<Weighted>): (names: seq<string>)
    ensures |names| == |ws|
    ensures forall i :: 0 <= i < |ws| ==> names[i] == ws[i].0
  {
    if ws == [] then [] else [ws[0].0] + Keys(ws[1..])
  }

  // ---------------------------------------------------------------- stable sort

  predicate NonIncreasing(ws: seq<Weighted>)
  {
    forall i, j :: 0 <= i < j < |ws| ==> ws[i].1 >= ws[j].1
  }

  /** Inserts `x` in front of the first entry that does not outweigh it, so that
      `x` stays ahead of the entries of equal weight that followed it. */
  function InsertByWeight(x: Weighted, ws: seq<Weighted>): (r: seq<Weighted>)
    ensures |r| == |ws| + 1
    decreases |ws|
  {
    if ws == [] || ws[0].1 <= x.1 then
      [x] + ws
    else
      [ws[0]] + InsertByWeight(x, ws[1..])
  }

  /** Insertion adds `x` and loses nothing. */
  lemma {:induction false} InsertByWeightCount(x: Weighted, ws: seq<Weighted>)
    ensures multiset(InsertByWeight(x, ws)) == multiset(ws) + multiset{x}
    decreases |ws|
  {
    if ws != [] && ws[0].1 > x.1 {
      InsertByWeightCount(x, ws[1..]);
      assert ws == [ws[0]] + ws[1..];
    }
  }

  /** Insertion adds `x`'s name and loses no name. */
  lemma {:induction false} InsertByWeightKeys(x: Weighted, ws: seq<Weighted>)
    ensures multiset(Keys(InsertByWeight(x, ws))) == multiset(Keys(ws)) + multiset{x.0}
    decreases |ws|
  {
    if ws == [] || ws[0].1 <= x.1 {
      KeysAppend([x], ws);
      assert Keys([x] + ws) == [x.0] + Keys(ws);
    } else {
      var tail := InsertByWeight(x, ws[1..]);
      InsertByWeightKeys(x, ws[1..]);
      KeysAppend([ws[0]], tail);
      assert Keys([ws[0]] + tail) == [ws[0].0] + Keys(tail);
      assert Keys(ws) == [ws[0].0] + Keys(ws[1..]);
      assert multiset([ws[0].0] + Keys(tail)) == multiset{ws[0].0} + multiset(Keys(tail));
    }
  }

  /** Every entry after insertion is `x` or was already there. */
  lemma {:induction false} InsertByWeightMembers(x: Weighted, ws: seq<Weighted>)
    ensures forall y :: y in InsertByWeight(x, ws) ==> y == x || y in ws
    decreases |ws|
  {
    if ws != [] && ws[0].1 > x.1 {
      InsertByWeightMembers(x, ws[1..]);
      assert forall y :: y in ws[1..] ==> y in ws;
    }
  }

  lemma {:induction false} InsertByWeightSorted(x: Weighted, ws: seq<Weighted>)
    requires NonIncreasing(ws)
    ensures NonIncreasing(InsertByWeight(x, ws))
    decreases |ws|
  {
    if ws != [] && ws[0].1 > x.1 {
      var tail := InsertByWeight(x, ws[1..]);
      InsertByWeightSorted(x, ws[1..]);
      InsertByWeightMembers(x, ws[1..]);
      forall j | 0 <= j < |tail| ensures ws[0].1 >= tail[j].1 {
        assert tail[j] in tail;
        if tail[j] != x {
          var k :| 0 <= k < |ws[1..]| && ws[1..][k] == tail[j];
          assert ws[k + 1] == tail[j];
        }
      }
      var r := [ws[0]] + tail;
      forall i, j | 0 <= i < j < |r| ensures r[i].1 >= r[j].1 {
        if i > 0 {
          assert r[i] == tail[i - 1] && r[j] == tail[j - 1];
        } else {
          assert r[j] == tail[j - 1];
        }
      }
    }
  }

  /** OrderByDescending on the weights: a stable insertion sort by non-increasing weight. */
  function SortByWeight(ws: seq<Weighted>): (r: seq<Weighted>)
    ensures |r| == |ws|
    decreases |ws|
  {
    if ws == [] then [] else InsertByWeight(ws[0], SortByWeight(ws[1..]))
  }

  /** The sort yields non-increasing weights. */
  lemma {:induction false} SortByWeightSorted(ws: seq<Weighted>)
    ensures NonIncreasing(SortByWeight(ws))
    decreases |ws|
  {
    if ws != [] {
      SortByWeightSorted(ws[1..]);
      InsertByWeightSorted(ws[0], SortByWeight(ws[1..]));
    }
  }

  /** The sort is a permutation of its input. */
  lemma {:induction false} SortByWeightPermutes(ws: seq<Weighted>)
    ensures multiset(SortByWeight(ws)) == multiset(ws)
    decreases |ws|
  {
    if ws != [] {
      SortByWeightPermutes(ws[1..]);
      InsertByWeightCount(ws[0], SortByWeight(ws[1..]));
      assert ws == [ws[0]] + ws[1..];
    }
  }

  /** The sorted names are a permutation of the input's names. */
  lemma {:induction false} SortByWeightKeys(ws: seq<Weighted>)
    ensures multiset(Keys(SortByWeight(ws))) == multiset(Keys(ws))
    decreases |ws|
  {
    if ws != [] {
      SortByWeightKeys(ws[1..]);
      InsertByWeightKeys(ws[0], SortByWeight(ws[1..]));
      assert ws == [ws[0]] + ws[1..];
      KeysAppend([ws[0]], ws[1..]);
    }
  }

  /** The entries of weight `w`, in their order. */
  function OfWeight(ws: seq<Weighted>, w: int): seq<Weighted>
    decreases |ws|
  {
    if ws == [] then []
    else (if ws[0].1 == w then [ws[0]] else []) + OfWeight(ws[1..], w)
  }

  lemma OfWeightCons(a: Weighted, t: seq<Weighted>, w: int)
    ensures OfWeight([a] + t, w) == (if a.1 == w then [a] else []) + OfWeight(t, w)
  {
    assert ([a] + t)[0] == a && ([a] + t)[1..] == t;
  }

  /** Insertion puts `x` ahead of every entry of its own weight: it only passes
      entries that outweigh it. */
  lemma {:induction false} InsertByWeightStable(x: Weighted, ws: seq<Weighted>, w: int)
    ensures OfWeight(InsertByWeight(x, ws), w) ==
            (if x.1 == w then [x] else []) + OfWeight(ws, w)
    decreases |ws|
  {
    if ws == [] || ws[0].1 <= x.1 {
      OfWeightCons(x, ws, w);
    } else {
      var tail := InsertByWeight(x, ws[1..]);
      assert InsertByWeight(x, ws) == [ws[0]] + tail;
      InsertByWeightStable(x, ws[1..], w);
      OfWeightCons(ws[0], tail, w);
      assert ws == [ws[0]] + ws[1..];
      OfWeightCons(ws[0], ws[1..], w);
      if x.1 == w {
        assert ws[0].1 != w;
      }
    }
  }

  /** The sort is stable: entries of each weight keep their relative order. */
  lemma {:induction false} SortByWeightStable(ws: seq<Weighted>, w: int)
    ensures OfWeight(SortByWeight(ws), w) == OfWeight(ws, w)
    decreases |ws|
  {
    if ws != [] {
      SortByWeightStable(ws[1..], w);
      InsertByWeightStable(ws[0], SortByWeight(ws[1..]), w);
    }
  }

  // ---------------------------------------------------------------- placement order

  /** The order of the weighted phase of TryPlaceStudents. */
  function PlacementOrder(s: Setup, students: seq<string>): seq<string>
  {
    Keys(SortByWeight(ConstraintWeights(s, students)))
  }

  /** The names of weight `w`, in their order. */
  function NamesOfWeight(s: Setup, names: seq<string>, w: int): seq<string>
    decreases |names|
  {
    if names == [] then []
    else (if Weight(s, names[0]) == w then [names[0]] else []) + NamesOfWeight(s, names[1..], w)
  }

  /** Every entry carries its own name's weight. */
  predicate Tagged(s: Setup, ws: seq<Weighted>)
  {
    forall i :: 0 <= i < |ws| ==> ws[i].1 == Weight(s, ws[i].0)
  }

  lemma {:induction false} TaggedOfWeight(s: Setup, ws: seq<Weighted>, w: int)
    requires Tagged(s, ws)
    ensures Keys(OfWeight(ws, w)) == NamesOfWeight(s, Keys(ws), w)
    decreases |ws|
  {
    if ws != [] {
      TaggedOfWeight(s, ws[1..], w);
      assert Keys(ws)[1..] == Keys(ws[1..]);
      var head: seq<Weighted> := if ws[0].1 == w then [ws[0]] else [];
      KeysAppend(head, OfWeight(ws[1..], w));
    }
  }

  lemma {:induction false} KeysAppend(a: seq<Weighted>, b: seq<Weighted>)
    ensures Keys(a + b) == Keys(a) + Keys(b)
  {
  }

  /** The weighted phase visits every student once, heaviest first, and students
      of equal weight in their shuffled order. */
  lemma PlacementOrderSpec(s: Setup, students: seq<string>)
    ensures var order := PlacementOrder(s, students);
      && |order| == |students|
      && multiset(order) == multiset(students)
      && (forall i, j :: 0 <= i < j < |order| ==> Weight(s, order[i]) >= Weight(s, order[j]))
      && (forall w :: NamesOfWeight(s, order, w) == NamesOfWeight(s, students, w))
  {
    var ws := ConstraintWeights(s, students);
    var sorted := SortByWeight(ws);
    var order := Keys(sorted);
    ConstraintWeightsSpec(s, students);
    SortByWeightSorted(ws);
    SortByWeightPermutes(ws);
    SortByWeightKeys(ws);
    assert Tagged(s, ws);
    assert Tagged(s, sorted) by {
      forall i | 0 <= i < |sorted| ensures sorted[i].1 == Weight(s, sorted[i].0) {
        assert sorted[i] in multiset(ws);
        var k :| 0 <= k < |ws| && ws[k] == sorted[i];
      }
    }
    forall w ensures NamesOfWeight(s, order, w) == NamesOfWeight(s, students, w) {
      SortByWeightStable(ws, w);
      TaggedOfWeight(s, ws, w);
      TaggedOfWeight(s, sorted, w);
    }
  }
}
