/**
  Chain growth (`build_sequence`): starting from a seed, attach the best
  unused neighbour at the end of the chain while its score is within the
  threshold, then do the same at the front.
 */
module Chain {
  import opened Scores
  import opened Matrix
  import opened Successor

  /** Forward growth appends after the last frame; backward growth inserts before the first. */
  datatype Direction = Forward | Backward

  /** A chain under construction together with the used flags. */
  datatype Growth = Growth(chain: seq<nat>, used: seq<bool>)

  /** The number of frames not yet in any chain: the measure every growth step shrinks. */
  function CountUnused(used: seq<bool>): nat
  {
    if |used| == 0 then 0 else (if used[0] then 0 else 1) + CountUnused(used[1..])
  }

  lemma {:induction false} MarkUsedShrinks(used: seq<bool>, i: nat)
    requires i < |used| && !used[i]
    ensures CountUnused(used[i := true]) < CountUnused(used)
    decreases |used|
  {
    if i == 0 {
      assert used[i := true][1..] == used[1..];
    } else {
      MarkUsedShrinks(used[1..], i - 1);
      assert used[i := true][1..] == used[1..][i - 1 := true];
    }
  }

  predicate Distinct(s: seq<nat>) {
    forall i, j :: 0 <= i < j < |s| ==> s[i] != s[j]
  }

  predicate InRange(s: seq<nat>, n: nat) {
    forall i :: 0 <= i < |s| ==> s[i] < n
  }

  /** The end of the chain a direction grows from (`sequence[len - 1]` or `sequence[0]`). */
  function End(chain: seq<nat>, dir: Direction): nat
    requires |chain| > 0
  {
    if dir == Forward then chain[|chain| - 1] else chain[0]
  }

  /** `sequence.push(x)` or `sequence.insert(0, x)`. */
  function Attach(chain: seq<nat>, x: nat, dir: Direction): seq<nat> {
    if dir == Forward then chain + [x] else [x] + chain
  }

  /**
    Attaching puts the new frame at the end the loop grows from, leaves the
    opposite end in place, and adds exactly that one frame.
   */
  lemma AttachAtEnd(chain: seq<nat>, x: nat, dir: Direction)
    ensures End(Attach(chain, x, dir), dir) == x
    ensures |chain| > 0 ==>
              var other := if dir == Forward then Backward else Forward;
              End(Attach(chain, x, dir), other) == End(chain, other)
    ensures multiset(Attach(chain, x, dir)) == multiset(chain) + multiset{x}
  {
  }

  /** The chain is non-empty, duplicate-free, in range, and all its frames are marked used. */
  predicate Consistent(m: Table, g: Growth) {
    && WellFormed(m)
    && |g.used| == |m|
    && |g.chain| > 0
    && Distinct(g.chain)
    && InRange(g.chain, |m|)
    && (forall i :: 0 <= i < |g.chain| ==> g.used[g.chain[i]])
  }

  /** Every pair `(c[i], c[i+1])` with `i >= from` was attached forward: `c[i]` chose `c[i+1]`. */
  predicate LinkedForward(m: Table, threshold: real, c: seq<nat>, from: int)
    requires IsSquare(m) && InRange(c, |m|)
  {
    forall i :: from <= i && 0 <= i < |c| - 1 ==> Within(m[c[i]][c[i + 1]], threshold)
  }

  /** Every pair `(c[i], c[i+1])` with `i < upto` was attached backward: `c[i+1]` chose `c[i]`. */
  predicate LinkedBackward(m: Table, threshold: real, c: seq<nat>, upto: int)
    requires IsSquare(m) && InRange(c, |m|)
  {
    forall i :: 0 <= i < upto && i < |c| - 1 ==> Within(m[c[i + 1]][c[i]], threshold)
  }

  /** Growing from `g` to `r` marks exactly the frames of `r`'s chain, and every frame it adds was unused in `g`. */
  predicate FlagsFollow(m: Table, g: Growth, r: Growth)
    requires Consistent(m, g) && Consistent(m, r)
  {
    && (forall i :: 0 <= i < |m| ==> r.used[i] == (g.used[i] || i in r.chain))
    && (forall i :: 0 <= i < |r.chain| && r.chain[i] !in g.chain ==> !g.used[r.chain[i]])
  }

  /** `r`'s chain is `g`'s with frames attached at the `dir` end, each within the threshold of the frame that chose it. */
  predicate GrowsAt(m: Table, threshold: real, g: Growth, r: Growth, dir: Direction)
    requires Consistent(m, g) && Consistent(m, r)
  {
    && |g.chain| <= |r.chain|
    && (dir == Forward ==>
          r.chain[..|g.chain|] == g.chain && LinkedForward(m, threshold, r.chain, |g.chain| - 1))
    && (dir == Backward ==>
          r.chain[|r.chain| - |g.chain|..] == g.chain
          && LinkedBackward(m, threshold, r.chain, |r.chain| - |g.chain|))
  }

  /** `r` is what growing `g` at the `dir` end can produce. */
  predicate Extends(m: Table, threshold: real, g: Growth, r: Growth, dir: Direction)
    requires Consistent(m, g) && Consistent(m, r)
  {
    FlagsFollow(m, g, r) && GrowsAt(m, threshold, g, r, dir)
  }

  /** Attaching an unused frame keeps the chain consistent. */
  lemma AttachConsistent(m: Table, g: Growth, succ: nat, dir: Direction)
    requires Consistent(m, g) && succ < |m| && !g.used[succ]
    ensures Consistent(m, Growth(Attach(g.chain, succ, dir), g.used[succ := true]))
  {
    forall i | 0 <= i < |g.chain| ensures g.chain[i] != succ {
      assert g.used[g.chain[i]];
    }
  }

  /** The flags after one attachment and then growth to `r` follow `r` from before the attachment. */
  lemma {:induction false} FlagsStep(m: Table, g: Growth, succ: nat, r: Growth, dir: Direction)
    requires Consistent(m, g) && succ < |m| && !g.used[succ]
    requires Consistent(m, Growth(Attach(g.chain, succ, dir), g.used[succ := true]))
    requires Consistent(m, r)
    requires FlagsFollow(m, Growth(Attach(g.chain, succ, dir), g.used[succ := true]), r)
    requires succ in r.chain
    ensures FlagsFollow(m, g, r)
  {
    var g' := Growth(Attach(g.chain, succ, dir), g.used[succ := true]);
    forall i | 0 <= i < |r.chain| && r.chain[i] !in g.chain
      ensures !g.used[r.chain[i]]
    {
      if r.chain[i] != succ {
        assert r.chain[i] !in g'.chain;
      }
    }
  }

  /** One forward attachment followed by forward growth to `r` is forward growth to `r`. */
  lemma {:induction false} GrowsForwardStep(m: Table, threshold: real, g: Growth, succ: nat, r: Growth)
    requires Consistent(m, g) && succ < |m| && !g.used[succ]
    requires Within(m[End(g.chain, Forward)][succ], threshold)
    requires Consistent(m, Growth(Attach(g.chain, succ, Forward), g.used[succ := true]))
    requires Consistent(m, r)
    requires GrowsAt(m, threshold, Growth(Attach(g.chain, succ, Forward), g.used[succ := true]), r, Forward)
    ensures GrowsAt(m, threshold, g, r, Forward)
    ensures succ in r.chain
  {
    var c' := Attach(g.chain, succ, Forward);
    assert r.chain[..|c'|][..|g.chain|] == g.chain;
    assert r.chain[|g.chain|] == c'[|g.chain|] == succ;
  }

  /** One backward attachment followed by backward growth to `r` is backward growth to `r`. */
  lemma {:induction false} GrowsBackwardStep(m: Table, threshold: real, g: Growth, succ: nat, r: Growth)
    requires Consistent(m, g) && succ < |m| && !g.used[succ]
    requires Within(m[End(g.chain, Backward)][succ], threshold)
    requires Consistent(m, Growth(Attach(g.chain, succ, Backward), g.used[succ := true]))
    requires Consistent(m, r)
    requires GrowsAt(m, threshold, Growth(Attach(g.chain, succ, Backward), g.used[succ := true]), r, Backward)
    ensures GrowsAt(m, threshold, g, r, Backward)
    ensures succ in r.chain
  {
    var c' := Attach(g.chain, succ, Backward);
    var s := |r.chain| - |c'|;
    assert r.chain[s..][1..] == g.chain;
    assert r.chain[s] == c'[0] == succ;
  }

  /** Growing on from `g` after one attachment is growing from `g`. */
  lemma {:induction false} ExtendsStep(m: Table, threshold: real, g: Growth, succ: nat, r: Growth, dir: Direction)
    requires Consistent(m, g) && succ < |m| && !g.used[succ]
    requires Within(m[End(g.chain, dir)][succ], threshold)
    requires Consistent(m, Growth(Attach(g.chain, succ, dir), g.used[succ := true]))
    requires Consistent(m, r)
    requires Extends(m, threshold, Growth(Attach(g.chain, succ, dir), g.used[succ := true]), r, dir)
    ensures Extends(m, threshold, g, r, dir)
  {
    if dir == Forward {
      GrowsForwardStep(m, threshold, g, succ, r);
    } else {
      GrowsBackwardStep(m, threshold, g, succ, r);
    }
    FlagsStep(m, g, succ, r, dir);
  }

  /**
    One of the two loops of `build_sequence`: repeatedly ask `get_succ` for
    the best neighbour of the growing end, stop as soon as its score exceeds
    the threshold, otherwise attach it and mark it used. The sentinel
    diagonal makes the fallback `(prev, f64::MAX)` stop the loop, so every
    attached frame was unused and the loop ends.
   */
  function Grow(m: Table, threshold: real, g: Growth, dir: Direction): (r: Growth)
    requires Consistent(m, g)
    ensures Consistent(m, r)
    decreases CountUnused(g.used)
  {
    var prev := End(g.chain, dir);
    var (succ, coef) := GetSucc(prev, m, g.used);
    if Exceeds(coef, threshold) then
      g
    else
      MarkUsedShrinks(g.used, succ);
      AttachConsistent(m, g, succ, dir);
      Grow(m, threshold, Growth(Attach(g.chain, succ, dir), g.used[succ := true]), dir)
  }

  /** Growth only attaches unused frames at the `dir` end, each within the threshold of the frame that chose it. */
  lemma {:induction false} GrowExtends(m: Table, threshold: real, g: Growth, dir: Direction)
    requires Consistent(m, g)
    ensures Extends(m, threshold, g, Grow(m, threshold, g, dir), dir)
    decreases CountUnused(g.used)
  {
    var prev := End(g.chain, dir);
    var (succ, coef) := GetSucc(prev, m, g.used);
    if Exceeds(coef, threshold) {
      assert g.chain[..|g.chain|] == g.chain;
      assert g.chain[|g.chain| - |g.chain|..] == g.chain;
    } else {
      PickWithin(prev, m, g.used, threshold);
      MarkUsedShrinks(g.used, succ);
      AttachConsistent(m, g, succ, dir);
      var g' := Growth(Attach(g.chain, succ, dir), g.used[succ := true]);
      GrowExtends(m, threshold, g', dir);
      ExtendsStep(m, threshold, g, succ, Grow(m, threshold, g', dir), dir);
    }
  }

  /** Growth stops only where the best pick from the growing end exceeds the threshold. */
  lemma {:induction false} GrowEndsAboveThreshold(m: Table, threshold: real, g: Growth, dir: Direction)
    requires Consistent(m, g)
    ensures var r := Grow(m, threshold, g, dir);
            Exceeds(GetSucc(End(r.chain, dir), m, r.used).1, threshold)
    decreases CountUnused(g.used)
  {
    var prev := End(g.chain, dir);
    var (succ, coef) := GetSucc(prev, m, g.used);
    if !Exceeds(coef, threshold) {
      MarkUsedShrinks(g.used, succ);
      AttachConsistent(m, g, succ, dir);
      GrowEndsAboveThreshold(m, threshold, Growth(Attach(g.chain, succ, dir), g.used[succ := true]), dir);
    }
  }

  /** Unfolding `Grow` once when the best pick exceeds the threshold: the loop stops. */
  lemma GrowStops(m: Table, threshold: real, g: Growth, dir: Direction)
    requires Consistent(m, g)
    requires Exceeds(GetSucc(End(g.chain, dir), m, g.used).1, threshold)
    ensures Grow(m, threshold, g, dir) == g
  {
  }

  /** Unfolding `Grow` once when the best pick is within the threshold: it is attached and growth goes on. */
  lemma GrowAttaches(m: Table, threshold: real, g: Growth, dir: Direction, succ: nat)
    requires Consistent(m, g)
    requires GetSucc(End(g.chain, dir), m, g.used).0 == succ
    requires !Exceeds(GetSucc(End(g.chain, dir), m, g.used).1, threshold)
    ensures succ < |m| && !g.used[succ]
    ensures Within(m[End(g.chain, dir)][succ], threshold)
    ensures Consistent(m, Growth(Attach(g.chain, succ, dir), g.used[succ := true]))
    ensures Grow(m, threshold, g, dir)
            == Grow(m, threshold, Growth(Attach(g.chain, succ, dir), g.used[succ := true]), dir)
  {
    PickWithin(End(g.chain, dir), m, g.used, threshold);
    AttachConsistent(m, g, succ, dir);
  }

  /** The flags and contents after growing forward from the seed and then backward. */
  lemma {:induction false} BothWaysUsed(m: Table, threshold: real, start: nat, used: seq<bool>, fwd: Growth, bwd: Growth)
    requires WellFormed(m) && |used| == |m| && start < |m| && !used[start]
    requires Consistent(m, Growth([start], used[start := true])) && Consistent(m, fwd) && Consistent(m, bwd)
    requires Extends(m, threshold, Growth([start], used[start := true]), fwd, Forward)
    requires Extends(m, threshold, fwd, bwd, Backward)
    ensures start in bwd.chain
    ensures forall i :: 0 <= i < |bwd.chain| ==> !used[bwd.chain[i]]
    ensures forall i :: 0 <= i < |m| ==> bwd.used[i] == (used[i] || i in bwd.chain)
  {
    var s := |bwd.chain| - |fwd.chain|;
    assert fwd.chain[..1] == [start];
    assert bwd.chain[s..] == fwd.chain;
    assert bwd.chain[s] == start;
    forall i | 0 <= i < |m| && i in fwd.chain
      ensures i in bwd.chain
    {
      var k :| 0 <= k < |fwd.chain| && fwd.chain[k] == i;
      assert bwd.chain[s + k] == i;
    }
    forall i | 0 <= i < |bwd.chain|
      ensures !used[bwd.chain[i]]
    {
      var x := bwd.chain[i];
      if x !in fwd.chain {
        assert !fwd.used[x];
      } else if x != start {
        assert !used[start := true][x];
      }
    }
  }

  /** The forward links sit after the seed's position, the backward links before it. */
  lemma {:induction false} BothWaysLinked(m: Table, threshold: real, start: nat, used: seq<bool>, fwd: Growth, bwd: Growth)
    requires WellFormed(m) && |used| == |m| && start < |m| && !used[start]
    requires Consistent(m, Growth([start], used[start := true])) && Consistent(m, fwd) && Consistent(m, bwd)
    requires Extends(m, threshold, Growth([start], used[start := true]), fwd, Forward)
    requires Extends(m, threshold, fwd, bwd, Backward)
    ensures exists s :: 0 <= s < |bwd.chain| && bwd.chain[s] == start
                        && LinkedBackward(m, threshold, bwd.chain, s)
                        && LinkedForward(m, threshold, bwd.chain, s)
    ensures bwd.chain[|bwd.chain| - 1] == fwd.chain[|fwd.chain| - 1]
  {
    var s := |bwd.chain| - |fwd.chain|;
    assert fwd.chain[..1] == [start];
    assert bwd.chain[s..] == fwd.chain;
    assert bwd.chain[s] == start;
    assert bwd.chain[|bwd.chain| - 1] == bwd.chain[s..][|fwd.chain| - 1];
    assert LinkedForward(m, threshold, bwd.chain, s) by {
      forall i | s <= i < |bwd.chain| - 1
        ensures Within(m[bwd.chain[i]][bwd.chain[i + 1]], threshold)
      {
        assert bwd.chain[i] == fwd.chain[i - s] && bwd.chain[i + 1] == fwd.chain[i - s + 1];
      }
    }
  }

  /**
    `build_sequence(start, used, percents, threshold)`: the chain grown
    forward and then backward from the seed `start`, with the used flags
    after it.
   */
  function BuildSequence(start: nat, used: seq<bool>, m: Table, threshold: real): (r: Growth)
    requires WellFormed(m) && |used| == |m| && start < |m| && !used[start]
    ensures Consistent(m, r)
  {
    var fwd := Grow(m, threshold, Growth([start], used[start := true]), Forward);
    Grow(m, threshold, fwd, Backward)
  }

  /**
    The built chain contains the seed, every frame of it was unused and is
    now used, and no other flag changes.
   */
  lemma BuildSequenceUsed(start: nat, used: seq<bool>, m: Table, threshold: real)
    requires WellFormed(m) && |used| == |m| && start < |m| && !used[start]
    ensures var r := BuildSequence(start, used, m, threshold);
            && start in r.chain
            && (forall i :: 0 <= i < |r.chain| ==> !used[r.chain[i]])
            && (forall i :: 0 <= i < |m| ==> r.used[i] == (used[i] || i in r.chain))
  {
    var seed := Growth([start], used[start := true]);
    var fwd := Grow(m, threshold, seed, Forward);
    var bwd := Grow(m, threshold, fwd, Backward);
    GrowExtends(m, threshold, seed, Forward);
    GrowExtends(m, threshold, fwd, Backward);
    BothWaysUsed(m, threshold, start, used, fwd, bwd);
  }

  /**
    In a built chain the links after the seed were made forward (each frame
    chose the next) and those before it backward (each frame chose the
    previous), all within the threshold.
   */
  lemma BuildSequenceLinked(start: nat, used: seq<bool>, m: Table, threshold: real)
    requires WellFormed(m) && |used| == |m| && start < |m| && !used[start]
    ensures var c := BuildSequence(start, used, m, threshold).chain;
            exists s :: 0 <= s < |c| && c[s] == start
                        && LinkedBackward(m, threshold, c, s)
                        && LinkedForward(m, threshold, c, s)
  {
    var seed := Growth([start], used[start := true]);
    var fwd := Grow(m, threshold, seed, Forward);
    var bwd := Grow(m, threshold, fwd, Backward);
    GrowExtends(m, threshold, seed, Forward);
    GrowExtends(m, threshold, fwd, Backward);
    BothWaysLinked(m, threshold, start, used, fwd, bwd);
  }

  /**
    Growth stops exactly when the best pick exceeds the threshold: once the
    chain is built, neither its last nor its first frame has an unused
    neighbour within the threshold.
   */
  lemma BuildSequenceIsMaximal(start: nat, used: seq<bool>, m: Table, threshold: real)
    requires WellFormed(m) && |used| == |m| && start < |m| && !used[start]
    ensures var r := BuildSequence(start, used, m, threshold);
            && Exceeds(GetSucc(r.chain[0], m, r.used).1, threshold)
            && Exceeds(GetSucc(r.chain[|r.chain| - 1], m, r.used).1, threshold)
  {
    FrontIsMaximal(start, used, m, threshold);
    BackIsMaximal(start, used, m, threshold);
  }

  /** The backward loop ends only where the first frame's best pick exceeds the threshold. */
  lemma FrontIsMaximal(start: nat, used: seq<bool>, m: Table, threshold: real)
    requires WellFormed(m) && |used| == |m| && start < |m| && !used[start]
    ensures var r := BuildSequence(start, used, m, threshold);
            Exceeds(GetSucc(r.chain[0], m, r.used).1, threshold)
  {
    var fwd := Grow(m, threshold, Growth([start], used[start := true]), Forward);
    GrowEndsAboveThreshold(m, threshold, fwd, Backward);
  }

  /** The backward loop leaves the last frame last and only sets flags. */
  lemma BackwardKeepsLast(m: Table, threshold: real, fwd: Growth)
    requires Consistent(m, fwd)
    ensures var bwd := Grow(m, threshold, fwd, Backward);
            && bwd.chain[|bwd.chain| - 1] == fwd.chain[|fwd.chain| - 1]
            && |bwd.used| == |fwd.used|
            && forall i :: 0 <= i < |fwd.used| && fwd.used[i] ==> bwd.used[i]
  {
    var bwd := Grow(m, threshold, fwd, Backward);
    GrowExtends(m, threshold, fwd, Backward);
    var s := |bwd.chain| - |fwd.chain|;
    assert bwd.chain[s..] == fwd.chain;
    assert bwd.chain[|bwd.chain| - 1] == bwd.chain[s..][|fwd.chain| - 1];
  }

  /** A last frame whose best pick exceeds the threshold still has one after the backward loop. */
  lemma BackwardKeepsMaximalLast(m: Table, threshold: real, fwd: Growth)
    requires Consistent(m, fwd)
    requires Exceeds(GetSucc(End(fwd.chain, Forward), m, fwd.used).1, threshold)
    ensures var bwd := Grow(m, threshold, fwd, Backward);
            Exceeds(GetSucc(bwd.chain[|bwd.chain| - 1], m, bwd.used).1, threshold)
  {
    var bwd := Grow(m, threshold, fwd, Backward);
    BackwardKeepsLast(m, threshold, fwd);
    ExceedsStaysExceeded(End(fwd.chain, Forward), m, fwd.used, bwd.used, threshold);
  }

  /**
    The forward loop ended where the last frame's best pick exceeded the
    threshold; the backward loop keeps that frame last and only sets more
    flags, so the pick still exceeds it.
   */
  lemma BackIsMaximal(start: nat, used: seq<bool>, m: Table, threshold: real)
    requires WellFormed(m) && |used| == |m| && start < |m| && !used[start]
    ensures var r := BuildSequence(start, used, m, threshold);
            Exceeds(GetSucc(r.chain[|r.chain| - 1], m, r.used).1, threshold)
  {
    var seed := Growth([start], used[start := true]);
    GrowEndsAboveThreshold(m, threshold, seed, Forward);
    BackwardKeepsMaximalLast(m, threshold, Grow(m, threshold, seed, Forward));
  }

  /** In a symmetric table every pair of neighbours in a built chain is within the threshold both ways. */
  lemma BuiltChainWithinThreshold(start: nat, used: seq<bool>, m: Table, threshold: real)
    requires WellFormed(m) && Symmetric(m) && |used| == |m| && start < |m| && !used[start]
    ensures var c := BuildSequence(start, used, m, threshold).chain;
            forall i :: 0 <= i < |c| - 1 ==>
              Within(m[c[i]][c[i + 1]], threshold) && Within(m[c[i + 1]][c[i]], threshold)
  {
    var c := BuildSequence(start, used, m, threshold).chain;
    BuildSequenceLinked(start, used, m, threshold);
    var s :| 0 <= s < |c| && c[s] == start
             && LinkedBackward(m, threshold, c, s) && LinkedForward(m, threshold, c, s);
    forall i | 0 <= i < |c| - 1
      ensures Within(m[c[i]][c[i + 1]], threshold) && Within(m[c[i + 1]][c[i]], threshold)
    {
      assert m[c[i]][c[i + 1]] == m[c[i + 1]][c[i]];
    }
  }
}
