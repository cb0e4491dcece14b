/**
  The driver loop of `unshuffle_video`: while some frame is unused, seed a
  new chain at the lowest unused index and grow it with `build_sequence`.
 */
module Partitioner {
  import opened Options
  import opened Scores
  import opened Matrix
  import opened Chain

  /** `used.iter().position(|elt| !elt)`: the lowest unused index, if any. */
  function FirstUnused(used: seq<bool>): (r: Option<nat>)
    ensures r.None? <==> forall i :: 0 <= i < |used| ==> used[i]
    ensures r.Some? ==> r.value < |used| && !used[r.value]
                        && forall i :: 0 <= i < r.value ==> used[i]
  {
    if |used| == 0 then None
    else if !used[0] then Some(0)
    else match FirstUnused(used[1..])
      case None => None
      case Some(i) => Some(i + 1)
  }

  /** Setting flags never increases the number of unused frames, and setting an unused one decreases it. */
  lemma {:induction false} CountUnusedShrinks(used: seq<bool>, used': seq<bool>, k: nat)
    requires |used| == |used'| && k < |used| && !used[k] && used'[k]
    requires forall i :: 0 <= i < |used| && used[i] ==> used'[i]
    ensures CountUnused(used') < CountUnused(used)
    decreases |used|
  {
    if k == 0 {
      CountUnusedMonotone(used[1..], used'[1..]);
    } else {
      CountUnusedShrinks(used[1..], used'[1..], k - 1);
    }
  }

  lemma {:induction false} CountUnusedMonotone(used: seq<bool>, used': seq<bool>)
    requires |used| == |used'|
    requires forall i :: 0 <= i < |used| && used[i] ==> used'[i]
    ensures CountUnused(used') <= CountUnused(used)
    decreases |used|
  {
    if |used| > 0 {
      CountUnusedMonotone(used[1..], used'[1..]);
    }
  }

  /** No frame belongs to two different chains. */
  predicate Disjoint(chains: seq<seq<nat>>) {
    forall k1, k2, x :: 0 <= k1 < k2 < |chains| && x in chains[k1] ==> x !in chains[k2]
  }

  /** Frame `x` belongs to one of the chains. */
  predicate Covered(chains: seq<seq<nat>>, x: nat) {
    exists k :: 0 <= k < |chains| && x in chains[k]
  }

  /** No frame of the chains is below `s`. */
  predicate LowerBound(s: nat, chains: seq<seq<nat>>) {
    forall k, i :: 0 <= k < |chains| && 0 <= i < |chains[k]| ==> s <= chains[k][i]
  }

  /**
    Each chain holds a frame (its seed) that is no greater than any frame of
    that chain or of the chains after it. With every frame covered, this says
    chain `k` was seeded at the lowest frame no earlier chain had taken.
   */
  predicate SeededAtLowest(chains: seq<seq<nat>>) {
    forall k :: 0 <= k < |chains| ==> HasSeed(chains, k)
  }

  predicate HasSeed(chains: seq<seq<nat>>, k: nat)
    requires k < |chains|
  {
    exists s :: s in chains[k] && LowerBound(s, chains[k..])
  }

  /**
    The driver loop run from the flags `used`: while some frame is unused,
    seed a chain at the lowest one, grow it, and push it.
   */
  function Partition(m: Table, threshold: real, used: seq<bool>): (chains: seq<seq<nat>>)
    requires WellFormed(m) && |used| == |m|
    ensures chains == [] <==> forall i :: 0 <= i < |used| ==> used[i]
    ensures |chains| <= CountUnused(used)
    decreases CountUnused(used)
  {
    match FirstUnused(used)
    case None => []
    case Some(start) =>
      var g := BuildSequence(start, used, m, threshold);
      BuildSequenceUsed(start, used, m, threshold);
      CountUnusedShrinks(used, g.used, start);
      [g.chain] + Partition(m, threshold, g.used)
  }

  /** Every chain is in range and each of its frames is within the threshold of the next. */
  predicate NeighboursWithin(m: Table, threshold: real, chains: seq<seq<nat>>) {
    forall k :: 0 <= k < |chains| ==>
      IsSquare(m) && InRange(chains[k], |m|) && LinkedForward(m, threshold, chains[k], 0)
  }

  /** Every frame of the chains is in range and was unused in `used`. */
  predicate FromUnused(chains: seq<seq<nat>>, used: seq<bool>) {
    forall k, i :: 0 <= k < |chains| && 0 <= i < |chains[k]| ==>
      chains[k][i] < |used| && !used[chains[k][i]]
  }

  /** Every chain the loop pushes is non-empty, duplicate-free, and made of frames that were unused. */
  lemma {:induction false} PartitionFromUnused(m: Table, threshold: real, used: seq<bool>)
    requires WellFormed(m) && |used| == |m|
    ensures var chains := Partition(m, threshold, used);
            && (forall k :: 0 <= k < |chains| ==> |chains[k]| > 0 && Distinct(chains[k]))
            && FromUnused(chains, used)
    decreases CountUnused(used)
  {
    match FirstUnused(used)
    case None =>
    case Some(start) =>
      var g := BuildSequence(start, used, m, threshold);
      BuildSequenceUsed(start, used, m, threshold);
      CountUnusedShrinks(used, g.used, start);
      var rest := Partition(m, threshold, g.used);
      assert Partition(m, threshold, used) == [g.chain] + rest;
      PartitionFromUnused(m, threshold, g.used);
      assert ChainStep(used, g.chain, g.used);
      PushUnused(used, g.chain, g.used, rest);
      PushShape(g.chain, rest);
  }

  /** No frame ends up in two chains. */
  lemma {:induction false} PartitionDisjoint(m: Table, threshold: real, used: seq<bool>)
    requires WellFormed(m) && |used| == |m|
    ensures Disjoint(Partition(m, threshold, used))
    decreases CountUnused(used)
  {
    match FirstUnused(used)
    case None =>
    case Some(start) =>
      var g := BuildSequence(start, used, m, threshold);
      BuildSequenceUsed(start, used, m, threshold);
      CountUnusedShrinks(used, g.used, start);
      var rest := Partition(m, threshold, g.used);
      assert Partition(m, threshold, used) == [g.chain] + rest;
      PartitionFromUnused(m, threshold, g.used);
      PartitionDisjoint(m, threshold, g.used);
      assert ChainStep(used, g.chain, g.used);
      PushDisjoint(used, g.chain, g.used, rest);
  }

  /** Every frame unused in `used` ends up in some chain. */
  lemma {:induction false} PartitionCovers(m: Table, threshold: real, used: seq<bool>)
    requires WellFormed(m) && |used| == |m|
    ensures forall x :: 0 <= x < |m| && !used[x] ==> Covered(Partition(m, threshold, used), x)
    decreases CountUnused(used)
  {
    match FirstUnused(used)
    case None =>
    case Some(start) =>
      var g := BuildSequence(start, used, m, threshold);
      BuildSequenceUsed(start, used, m, threshold);
      CountUnusedShrinks(used, g.used, start);
      var rest := Partition(m, threshold, g.used);
      assert Partition(m, threshold, used) == [g.chain] + rest;
      PartitionCovers(m, threshold, g.used);
      assert ChainStep(used, g.chain, g.used);
      PushCovered(used, g.chain, g.used, rest);
  }

  /** Each chain holds the lowest frame left unused when it was seeded. */
  lemma {:induction false} PartitionSeeded(m: Table, threshold: real, used: seq<bool>)
    requires WellFormed(m) && |used| == |m|
    ensures SeededAtLowest(Partition(m, threshold, used))
    decreases CountUnused(used)
  {
    match FirstUnused(used)
    case None =>
    case Some(start) =>
      var g := BuildSequence(start, used, m, threshold);
      BuildSequenceUsed(start, used, m, threshold);
      CountUnusedShrinks(used, g.used, start);
      var rest := Partition(m, threshold, g.used);
      assert Partition(m, threshold, used) == [g.chain] + rest;
      PartitionFromUnused(m, threshold, g.used);
      PartitionSeeded(m, threshold, g.used);
      assert ChainStep(used, g.chain, g.used);
      PushSeeded(used, start, g.chain, g.used, rest);
  }

  /** In a symmetric table, neighbours in every chain are within the threshold. */
  lemma {:induction false} PartitionLinked(m: Table, threshold: real, used: seq<bool>)
    requires WellFormed(m) && Symmetric(m) && |used| == |m|
    ensures NeighboursWithin(m, threshold, Partition(m, threshold, used))
    decreases CountUnused(used)
  {
    match FirstUnused(used)
    case None =>
    case Some(start) =>
      var g := BuildSequence(start, used, m, threshold);
      BuildSequenceUsed(start, used, m, threshold);
      CountUnusedShrinks(used, g.used, start);
      var rest := Partition(m, threshold, g.used);
      assert Partition(m, threshold, used) == [g.chain] + rest;
      PartitionLinked(m, threshold, g.used);
      BuiltChainWithinThreshold(start, used, m, threshold);
      PushLinked(m, threshold, g.chain, rest);
  }

  /** What the loop needs to know of one built chain `c` and the flags `used'` after it. */
  predicate ChainStep(used: seq<bool>, c: seq<nat>, used': seq<bool>) {
    && |used'| == |used|
    && (forall i :: 0 <= i < |c| ==> c[i] < |used| && !used[c[i]])
    && (forall i :: 0 <= i < |used| ==> used'[i] == (used[i] || i in c))
  }

  lemma {:induction false} PushUnused(used: seq<bool>, c: seq<nat>, used': seq<bool>, rest: seq<seq<nat>>)
    requires ChainStep(used, c, used')
    requires FromUnused(rest, used')
    ensures FromUnused([c] + rest, used)
  {
    var chains := [c] + rest;
    forall k, i | 0 <= k < |chains| && 0 <= i < |chains[k]|
      ensures chains[k][i] < |used| && !used[chains[k][i]]
    {
      if k > 0 {
        assert chains[k][i] == rest[k - 1][i];
      }
    }
  }

  lemma {:induction false} PushShape(c: seq<nat>, rest: seq<seq<nat>>)
    requires |c| > 0 && Distinct(c)
    requires forall k :: 0 <= k < |rest| ==> |rest[k]| > 0 && Distinct(rest[k])
    ensures forall k :: 0 <= k < |[c] + rest| ==> |([c] + rest)[k]| > 0 && Distinct(([c] + rest)[k])
  {
    var chains := [c] + rest;
    forall k | 0 <= k < |chains|
      ensures |chains[k]| > 0 && Distinct(chains[k])
    {
      if k > 0 {
        assert chains[k] == rest[k - 1];
      }
    }
  }

  lemma {:induction false} PushDisjoint(used: seq<bool>, c: seq<nat>, used': seq<bool>, rest: seq<seq<nat>>)
    requires ChainStep(used, c, used')
    requires FromUnused(rest, used')
    requires Disjoint(rest)
    ensures Disjoint([c] + rest)
  {
    var chains := [c] + rest;
    forall k1, k2, x | 0 <= k1 < k2 < |chains| && x in chains[k1]
      ensures x !in chains[k2]
    {
      if k1 == 0 {
      } else {
        assert x in rest[k1 - 1];
        assert chains[k2] == rest[k2 - 1];
      }
    }
  }

  lemma {:induction false} PushCovered(used: seq<bool>, c: seq<nat>, used': seq<bool>, rest: seq<seq<nat>>)
    requires ChainStep(used, c, used')
    requires forall x :: 0 <= x < |used| && !used'[x] ==> Covered(rest, x)
    ensures forall x :: 0 <= x < |used| && !used[x] ==> Covered([c] + rest, x)
  {
    var chains := [c] + rest;
    forall x | 0 <= x < |used| && !used[x]
      ensures Covered(chains, x)
    {
      if x in c {
        assert x in chains[0];
      } else {
        var k :| 0 <= k < |rest| && x in rest[k];
        assert x in chains[k + 1];
      }
    }
  }

  lemma {:induction false} PushSeeded(used: seq<bool>, start: nat, c: seq<nat>, used': seq<bool>, rest: seq<seq<nat>>)
    requires ChainStep(used, c, used')
    requires start in c && forall j :: 0 <= j < start && j < |used| ==> used[j]
    requires FromUnused(rest, used')
    requires SeededAtLowest(rest)
    ensures SeededAtLowest([c] + rest)
  {
    var chains := [c] + rest;
    forall k | 0 <= k < |chains|
      ensures HasSeed(chains, k)
    {
      if k == 0 {
        assert start in chains[0];
        forall k2, i | 0 <= k2 < |chains| && 0 <= i < |chains[k2]|
          ensures start <= chains[k2][i]
        {
          if k2 > 0 {
            assert chains[k2][i] == rest[k2 - 1][i];
            assert !used[rest[k2 - 1][i]];
          } else {
            assert !used[c[i]];
          }
        }
        assert LowerBound(start, chains[0..]);
      } else {
        assert chains[k..] == rest[k - 1..];
        assert 0 <= k - 1 < |rest|;
        assert HasSeed(rest, k - 1);
        var s :| s in rest[k - 1] && LowerBound(s, rest[k - 1..]);
        assert s in chains[k] && LowerBound(s, chains[k..]);
      }
    }
  }

  lemma {:induction false} PushLinked(m: Table, threshold: real, c: seq<nat>, rest: seq<seq<nat>>)
    requires IsSquare(m) && InRange(c, |m|)
    requires forall i :: 0 <= i < |c| - 1 ==> Within(m[c[i]][c[i + 1]], threshold)
    requires NeighboursWithin(m, threshold, rest)
    ensures NeighboursWithin(m, threshold, [c] + rest)
  {
    var chains := [c] + rest;
    assert LinkedForward(m, threshold, c, 0);
    forall k | 0 <= k < |chains|
      ensures IsSquare(m) && InRange(chains[k], |m|) && LinkedForward(m, threshold, chains[k], 0)
    {
      if k > 0 {
        assert chains[k] == rest[k - 1];
      }
    }
  }

  /** `vec![false; frames_count]`. */
  function NoneUsed(n: nat): seq<bool> {
    seq(n, _ => false)
  }

  /**
    Run from flags that are all clear, the loop covers exactly the frames
    `0 .. N-1`, so with the disjointness and duplicate-freedom Partition
    guarantees, every frame lies in exactly one chain; there is a chain
    exactly when there is a frame.
   */
  lemma PartitionIsComplete(m: Table, threshold: real)
    requires WellFormed(m)
    ensures var chains := Partition(m, threshold, NoneUsed(|m|));
            && (forall x: nat :: x < |m| <==> Covered(chains, x))
            && (|m| > 0 <==> |chains| > 0)
  {
    var chains := Partition(m, threshold, NoneUsed(|m|));
    PartitionFromUnused(m, threshold, NoneUsed(|m|));
    PartitionCovers(m, threshold, NoneUsed(|m|));
    forall x: nat | Covered(chains, x)
      ensures x < |m|
    {
      var k :| 0 <= k < |chains| && x in chains[k];
      var i :| 0 <= i < |chains[k]| && chains[k][i] == x;
    }
    if |m| > 0 {
      assert Covered(chains, 0);
    }
  }
}
