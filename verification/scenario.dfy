/**
  A worked example of the chaining on four frames with scores
  0-1 = 2, 1-2 = 3, 0-2 = 40, 2-3 = 50, 0-3 = 60, 1-3 = 55: any threshold
  from 3 up to (not including) 50, such as 10, links 0-1-2 and leaves 3
  alone.
 */
module Scenario {
  import opened Options
  import opened Scores
  import opened Matrix
  import opened Successor
  import opened Chain
  import opened Partitioner
  import opened Select

  function FourFrames(): (m: Table)
    ensures WellFormed(m) && |m| == 4
  {
    [ [Max,         Value(2.0),  Value(40.0), Value(60.0)],
      [Value(2.0),  Max,         Value(3.0),  Value(55.0)],
      [Value(40.0), Value(3.0),  Max,         Value(50.0)],
      [Value(60.0), Value(55.0), Value(50.0), Max] ]
  }

  // The growths the scenario passes through are consistent with the table.

  lemma ZeroConsistent()
    ensures Consistent(FourFrames(), Growth([0], [true, false, false, false]))
  {
  }

  lemma ZeroOneConsistent()
    ensures Consistent(FourFrames(), Growth([0, 1], [true, true, false, false]))
  {
  }

  lemma ZeroOneTwoConsistent()
    ensures Consistent(FourFrames(), Growth([0, 1, 2], [true, true, true, false]))
  {
  }

  lemma ThreeConsistent()
    ensures Consistent(FourFrames(), Growth([3], [true, true, true, true]))
  {
  }

  /** Frame 0 picks 1 at score 2. */
  lemma PickFromZero()
    ensures GetSucc(0, FourFrames(), [true, false, false, false]) == (1, Value(2.0))
  {
    assert IsBest(0, FourFrames()[0], [true, false, false, false], 1);
    BestIsUnique(0, FourFrames(), [true, false, false, false], 1);
  }

  /** Frame 1 picks 2 at score 3. */
  lemma PickFromOne()
    ensures GetSucc(1, FourFrames(), [true, true, false, false]) == (2, Value(3.0))
  {
    assert IsBest(1, FourFrames()[1], [true, true, false, false], 2);
    BestIsUnique(1, FourFrames(), [true, true, false, false], 2);
  }

  /** Frame 2 is left with frame 3 at score 50, and frame 0 with frame 3 at score 60. */
  lemma PicksAboveThreshold()
    ensures GetSucc(2, FourFrames(), [true, true, true, false]) == (3, Value(50.0))
    ensures GetSucc(0, FourFrames(), [true, true, true, false]) == (3, Value(60.0))
  {
    assert IsBest(2, FourFrames()[2], [true, true, true, false], 3);
    BestIsUnique(2, FourFrames(), [true, true, true, false], 3);
    assert IsBest(0, FourFrames()[0], [true, true, true, false], 3);
    BestIsUnique(0, FourFrames(), [true, true, true, false], 3);
  }

  /** From [0, 1, 2] the forward loop stops: frame 3 is the only candidate and scores 50. */
  lemma ForwardFromTwo(t: real)
    requires 3.0 <= t < 50.0
    ensures Consistent(FourFrames(), Growth([0, 1, 2], [true, true, true, false]))
    ensures Grow(FourFrames(), t, Growth([0, 1, 2], [true, true, true, false]), Forward)
            == Growth([0, 1, 2], [true, true, true, false])
  {
    ZeroOneTwoConsistent();
    var g := Growth([0, 1, 2], [true, true, true, false]);
    assert End(g.chain, Forward) == 2;
    PicksAboveThreshold();
    GrowStops(FourFrames(), t, g, Forward);
  }

  /** From [0, 1] the forward loop attaches 2. */
  lemma AttachTwoToOne(t: real)
    requires 3.0 <= t < 50.0
    ensures Consistent(FourFrames(), Growth([0, 1], [true, true, false, false]))
            && Consistent(FourFrames(), Growth([0, 1, 2], [true, true, true, false]))
    ensures Grow(FourFrames(), t, Growth([0, 1], [true, true, false, false]), Forward)
            == Grow(FourFrames(), t, Growth([0, 1, 2], [true, true, true, false]), Forward)
  {
    ZeroOneConsistent();
    ZeroOneTwoConsistent();
    var m := FourFrames();
    var g := Growth([0, 1], [true, true, false, false]);
    assert End(g.chain, Forward) == 1;
    PickFromOne();
    GrowAttaches(m, t, g, Forward, 2);
    assert Growth(Attach(g.chain, 2, Forward), g.used[2 := true]) == Growth([0, 1, 2], [true, true, true, false]);
  }

  /** The forward loop from [0, 1] ends at [0, 1, 2]. */
  lemma ForwardFromOne(t: real)
    requires 3.0 <= t < 50.0
    ensures Consistent(FourFrames(), Growth([0, 1], [true, true, false, false]))
    ensures Grow(FourFrames(), t, Growth([0, 1], [true, true, false, false]), Forward)
            == Growth([0, 1, 2], [true, true, true, false])
  {
    ZeroOneConsistent();
    AttachTwoToOne(t);
    ForwardFromTwo(t);
  }

  /** From [0] the forward loop attaches 1. */
  lemma AttachOneToZero(t: real)
    requires 3.0 <= t < 50.0
    ensures Consistent(FourFrames(), Growth([0], [true, false, false, false]))
            && Consistent(FourFrames(), Growth([0, 1], [true, true, false, false]))
    ensures Grow(FourFrames(), t, Growth([0], [true, false, false, false]), Forward)
            == Grow(FourFrames(), t, Growth([0, 1], [true, true, false, false]), Forward)
  {
    ZeroConsistent();
    ZeroOneConsistent();
    var m := FourFrames();
    var g := Growth([0], [true, false, false, false]);
    assert End(g.chain, Forward) == 0;
    PickFromZero();
    GrowAttaches(m, t, g, Forward, 1);
    assert Growth(Attach(g.chain, 1, Forward), g.used[1 := true]) == Growth([0, 1], [true, true, false, false]);
  }

  /** The forward loop from the seed 0 ends at [0, 1, 2]. */
  lemma ForwardFromZero(t: real)
    requires 3.0 <= t < 50.0
    ensures Consistent(FourFrames(), Growth([0], [true, false, false, false]))
    ensures Grow(FourFrames(), t, Growth([0], [true, false, false, false]), Forward)
            == Growth([0, 1, 2], [true, true, true, false])
  {
    ZeroConsistent();
    AttachOneToZero(t);
    ForwardFromOne(t);
  }

  /** The backward loop from [0, 1, 2] stops at once: frame 3 scores 60 against frame 0. */
  lemma BackwardFromZero(t: real)
    requires 3.0 <= t < 50.0
    ensures Consistent(FourFrames(), Growth([0, 1, 2], [true, true, true, false]))
    ensures Grow(FourFrames(), t, Growth([0, 1, 2], [true, true, true, false]), Backward)
            == Growth([0, 1, 2], [true, true, true, false])
  {
    ZeroOneTwoConsistent();
    var g := Growth([0, 1, 2], [true, true, true, false]);
    assert End(g.chain, Backward) == 0;
    PicksAboveThreshold();
    GrowStops(FourFrames(), t, g, Backward);
  }

  /** `build_sequence` seeded at 0 yields [0, 1, 2]. */
  lemma SeedZero(t: real)
    requires 3.0 <= t < 50.0
    ensures BuildSequence(0, [false, false, false, false], FourFrames(), t)
            == Growth([0, 1, 2], [true, true, true, false])
  {
    var m := FourFrames();
    var seed := Growth([0], [false, false, false, false][0 := true]);
    assert seed == Growth([0], [true, false, false, false]);
    var fwd := Grow(m, t, seed, Forward);
    ForwardFromZero(t);
    assert fwd == Growth([0, 1, 2], [true, true, true, false]);
    BackwardFromZero(t);
  }

  /** `build_sequence` seeded at 3, the last unused frame, yields [3] for every threshold. */
  lemma SeedThree(t: real)
    ensures BuildSequence(3, [true, true, true, false], FourFrames(), t)
            == Growth([3], [true, true, true, true])
  {
    var m := FourFrames();
    var seed := Growth([3], [true, true, true, false][3 := true]);
    assert seed == Growth([3], [true, true, true, true]);
    GetSuccAllUsed(3, m, [true, true, true, true]);
    assert End(seed.chain, Forward) == 3 && End(seed.chain, Backward) == 3;
    GrowStops(m, t, seed, Forward);
    GrowStops(m, t, seed, Backward);
  }

  /** With 0, 1 and 2 used, the driver loop pushes [3] and stops. */
  lemma PartitionFromThree(t: real)
    ensures Partition(FourFrames(), t, [true, true, true, false]) == [[3]]
  {
    var m := FourFrames();
    var used := [true, true, true, false];
    assert FirstUnused(used) == Some(3);
    var g := BuildSequence(3, used, m, t);
    SeedThree(t);
    assert FirstUnused(g.used) == None;
    assert Partition(m, t, g.used) == [];
  }

  /** The driver loop seeds at 0 and then at 3, yielding the chains [0, 1, 2] and [3]. */
  lemma ScenarioPartition(t: real)
    requires 3.0 <= t < 50.0
    ensures Partition(FourFrames(), t, NoneUsed(4)) == [[0, 1, 2], [3]]
  {
    var m := FourFrames();
    var used := NoneUsed(4);
    assert used == [false, false, false, false];
    assert FirstUnused(used) == Some(0);
    var g := BuildSequence(0, used, m, t);
    SeedZero(t);
    assert g == Growth([0, 1, 2], [true, true, true, false]);
    PartitionFromThree(t);
    assert Partition(m, t, used) == [g.chain] + Partition(m, t, g.used);
  }

  /** Of the chains [0, 1, 2] and [3], the first is selected. */
  lemma SelectFromScenarioChains()
    ensures SelectSequence([[0, 1, 2], [3]], false) == Some([0, 1, 2])
    ensures SelectSequence([[0, 1, 2], [3]], true) == Some([2, 1, 0])
  {
    assert LongestPrefix([[0, 1, 2], [3]], 2) == (0, 3);
    var r := Reverse([0, 1, 2]);
    assert r[0] == 2 && r[1] == 1 && r[2] == 0;
    assert r == [2, 1, 0];
  }

  /** The selection is [0, 1, 2], or [2, 1, 0] when reversed; frame 3 is dropped. */
  lemma ScenarioResult(t: real)
    requires 3.0 <= t < 50.0
    ensures SelectSequence(Partition(FourFrames(), t, NoneUsed(4)), false) == Some([0, 1, 2])
    ensures SelectSequence(Partition(FourFrames(), t, NoneUsed(4)), true) == Some([2, 1, 0])
  {
    ScenarioPartition(t);
    SelectFromScenarioChains();
  }
}
