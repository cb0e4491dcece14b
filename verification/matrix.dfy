/**
  The N x N dissimilarity table (`fill_percents`).
 */
module Matrix {
  import opened Scores
  import opened Pixels

  type Table = seq<seq<Score>>

  /** Every row has one cell per frame. */
  predicate IsSquare(m: Table) {
    forall i :: 0 <= i < |m| ==> |m[i]| == |m|
  }

  /** Every diagonal cell holds the `f64::MAX` sentinel, so no frame is its own neighbour. */
  predicate SentinelDiagonal(m: Table)
    requires IsSquare(m)
  {
    forall i :: 0 <= i < |m| ==> m[i][i] == Max
  }

  predicate Symmetric(m: Table)
    requires IsSquare(m)
  {
    forall i, j :: 0 <= i < |m| && 0 <= j < |m| ==> m[i][j] == m[j][i]
  }

  /** The table the chaining works on: square with the sentinel on the diagonal. */
  predicate WellFormed(m: Table) {
    IsSquare(m) && SentinelDiagonal(m)
  }

  /**
    The cell for frames `i` and `j`: the sentinel on the diagonal, otherwise
    the score computed with the lower-indexed frame first (that frame's
    dimensions normalise the score).
   */
  function Cell(frames: seq<Frame>, i: nat, j: nat): (s: Score)
    requires i < |frames| && j < |frames|
    ensures s.Max? <==> i == j
    ensures i != j ==>
              (s.NaN? <==> var f := frames[if i < j then i else j]; f.width * f.height == 0)
  {
    if i == j then Max
    else if i < j then Percent(frames[i], frames[j])
    else Percent(frames[j], frames[i])
  }

  /** Reference definition of the table `fill_percents` returns. */
  function PercentTable(frames: seq<Frame>): (m: Table)
    ensures |m| == |frames| && WellFormed(m) && Symmetric(m)
  {
    seq(|frames|, i requires 0 <= i < |frames| =>
      seq(|frames|, j requires 0 <= j < |frames| => Cell(frames, i, j)))
  }

  /** Scores off the diagonal lie in [0, 100] when every frame is a valid, non-empty grid. */
  lemma PercentTableInRange(frames: seq<Frame>, i: nat, j: nat)
    requires forall k :: 0 <= k < |frames| ==> ValidFrame(frames[k]) && |frames[k].pixels| > 0
    requires i < |frames| && j < |frames| && i != j
    ensures PercentTable(frames)[i][j].Value?
    ensures 0.0 <= PercentTable(frames)[i][j].v <= 100.0
  {
    assert ValidFrame(frames[i]) && ValidFrame(frames[j]);
  }

  /**
    After the writes for every pair `(i, j)`, `i < j`, that comes before
    `(i1, idx2)` in the loop order: those cells and their mirrors hold the
    pair's score, the diagonal still holds the sentinel.
   */
  predicate FilledBefore(frames: seq<Frame>, m: Table, i1: nat, idx2: nat)
  {
    && |m| == |frames| && IsSquare(m)
    && (forall i :: 0 <= i < |m| ==> m[i][i] == Max)
    && (forall i, j :: (i < i1 || (i == i1 && j < idx2)) && 0 <= i < j < |m| ==>
          m[i][j] == Cell(frames, i, j) && m[j][i] == Cell(frames, j, i))
  }

  /** Writes `s` into cell `(i, j)` and its mirror `(j, i)`. */
  function WritePair(m: Table, i: nat, j: nat, s: Score): (m': Table)
    requires IsSquare(m) && i < |m| && j < |m|
    ensures |m'| == |m| && IsSquare(m')
  {
    var m1 := m[i := m[i][j := s]];
    m1[j := m1[j][i := s]]
  }

  lemma WritePairStep(frames: seq<Frame>, m: Table, i1: nat, idx2: nat)
    requires FilledBefore(frames, m, i1, idx2) && i1 < idx2 < |frames|
    ensures FilledBefore(frames, WritePair(m, i1, idx2, Percent(frames[i1], frames[idx2])), i1, idx2 + 1)
  {
  }

  lemma RowDone(frames: seq<Frame>, m: Table, i1: nat)
    requires FilledBefore(frames, m, i1, |frames|)
    ensures FilledBefore(frames, m, i1 + 1, i1 + 2)
  {
  }

  lemma AllFilled(frames: seq<Frame>, m: Table, i1: nat)
    requires FilledBefore(frames, m, i1, i1 + 1) && i1 >= |frames|
    ensures m == PercentTable(frames)
  {
    var t := PercentTable(frames);
    forall i | 0 <= i < |m|
      ensures m[i] == t[i]
    {
      forall j | 0 <= j < |m|
        ensures m[i][j] == t[i][j]
      {
        if i > j {
          assert m[j][i] == Cell(frames, j, i);
        }
      }
    }
  }

  /**
    `fill_percents`: start from a table filled with the sentinel, then for
    every pair `i1 < idx2` write the pair's score into both `(i1, idx2)` and
    `(idx2, i1)`. The result is the reference table.
   */
  method FillPercents(frames: seq<Frame>) returns (m: Table)
    ensures m == PercentTable(frames)
  {
    var n := |frames|;
    m := seq(n, _ => seq(n, _ => Max));
    var i1 := 0;
    while i1 < n
      invariant 0 <= i1 <= n
      invariant FilledBefore(frames, m, i1, i1 + 1)
    {
      var idx2 := i1 + 1;
      while idx2 < n
        invariant i1 + 1 <= idx2 <= n
        invariant FilledBefore(frames, m, i1, idx2)
      {
        var percent := Percent(frames[i1], frames[idx2]);
        WritePairStep(frames, m, i1, idx2);
        m := WritePair(m, i1, idx2, percent);
        idx2 := idx2 + 1;
      }
      RowDone(frames, m, i1);
      i1 := i1 + 1;
    }
    AllFilled(frames, m, i1);
  }
}
