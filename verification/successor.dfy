/**
  The nearest-neighbour pick (`get_succ`): a left fold over one row of the
  table that skips `prev` and the used frames and keeps a strict minimum.
 */
module Successor {
  import opened Scores
  import opened Matrix

  /** Frame `i` may follow `prev`: it is another frame and is not yet in a chain. */
  predicate IsCandidate(prev: nat, used: seq<bool>, i: nat) {
    i != prev && i < |used| && !used[i]
  }

  /**
    The fold's accumulator after the first `k` cells of `row`, starting from
    `(prev, row[prev])`. A cell replaces the accumulator only when it is a
    candidate whose score is strictly below the accumulated one.
   */
  function SuccPrefix(prev: nat, row: seq<Score>, used: seq<bool>, k: nat): (r: (nat, Score))
    requires prev < |row| <= |used| && k <= |row|
    ensures r.0 == prev ==> r.1 == row[prev]
    ensures r.0 == prev ==>
              forall i :: 0 <= i < k && IsCandidate(prev, used, i) ==> !Less(row[i], row[prev])
    ensures r.0 != prev ==>
              r.0 < k && IsCandidate(prev, used, r.0) && r.1 == row[r.0] && Less(r.1, row[prev])
    ensures forall i :: 0 <= i < k && IsCandidate(prev, used, i) ==> !Less(row[i], r.1)
    ensures r.0 != prev ==> forall i :: 0 <= i < r.0 && IsCandidate(prev, used, i) ==> row[i] != r.1
    decreases k
  {
    if k == 0 then (prev, row[prev])
    else
      var acc := SuccPrefix(prev, row, used, k - 1);
      var i := k - 1;
      if i == prev || used[i] then acc
      else if Less(row[i], acc.1) then
        assert forall a, b, c :: Less(a, b) && Less(b, c) ==> Less(a, c);
        (i, row[i])
      else acc
  }

  /**
    `k` is the pick the fold makes when it leaves the default: a candidate
    scoring strictly below the default, with no candidate scoring strictly
    below it and no lower-indexed candidate scoring the same.
   */
  predicate IsBest(prev: nat, row: seq<Score>, used: seq<bool>, k: nat)
    requires prev < |row|
  {
    && k < |row|
    && IsCandidate(prev, used, k)
    && Less(row[k], row[prev])
    && (forall i :: 0 <= i < |row| && IsCandidate(prev, used, i) ==> !Less(row[i], row[k]))
    && (forall i :: 0 <= i < k && IsCandidate(prev, used, i) ==> row[i] != row[k])
  }

  /**
    `get_succ(prev, percents, used)`: the unused frame other than `prev` with
    the lowest score in row `prev`, the lowest index among equal scores; or
    `(prev, percents[prev][prev])` when no candidate scores strictly below
    that default.
   */
  function GetSucc(prev: nat, m: Table, used: seq<bool>): (r: (nat, Score))
    requires prev < |m| && prev < |m[prev]| <= |used|
    ensures r.0 == prev <==>
              forall i :: 0 <= i < |m[prev]| && IsCandidate(prev, used, i) ==> !Less(m[prev][i], m[prev][prev])
    ensures r.0 == prev ==> r.1 == m[prev][prev]
    ensures r.0 != prev ==> IsBest(prev, m[prev], used, r.0) && r.1 == m[prev][r.0]
  {
    SuccPrefix(prev, m[prev], used, |m[prev]|)
  }

  /** When every other frame is used, the pick falls back to `prev` and the default score. */
  lemma GetSuccAllUsed(prev: nat, m: Table, used: seq<bool>)
    requires prev < |m| && prev < |m[prev]| <= |used|
    requires forall i :: 0 <= i < |used| && i != prev ==> used[i]
    ensures GetSucc(prev, m, used) == (prev, m[prev][prev])
  {
  }

  /** At most one index is the best pick, so `IsBest` characterises `GetSucc` exactly. */
  lemma {:induction false} BestIsUnique(prev: nat, m: Table, used: seq<bool>, k: nat)
    requires prev < |m| && prev < |m[prev]| <= |used|
    requires IsBest(prev, m[prev], used, k)
    ensures GetSucc(prev, m, used) == (k, m[prev][k])
  {
    var row := m[prev];
    var r := GetSucc(prev, m, used);
    assert r.0 != prev;
    LessIsStrictOrder(row[k], r.1, row[prev]);
  }

  /**
    A pick that passes the threshold test is never the fallback: it is an
    unused frame other than `prev`, and its score is finite and at most the
    threshold. The sentinel on the diagonal is what rules out the fallback
    and a NaN pick alike.
   */
  lemma PickWithin(prev: nat, m: Table, used: seq<bool>, threshold: real)
    requires prev < |m| && prev < |m[prev]| <= |used|
    requires m[prev][prev] == Max
    requires !Exceeds(GetSucc(prev, m, used).1, threshold)
    ensures IsCandidate(prev, used, GetSucc(prev, m, used).0)
    ensures GetSucc(prev, m, used).0 < |m[prev]|
    ensures Within(GetSucc(prev, m, used).1, threshold)
    ensures GetSucc(prev, m, used).1 == m[prev][GetSucc(prev, m, used).0]
  {
  }

  /**
    Marking more frames used never turns a pick above the threshold into one
    at or below it: the best remaining score can only get worse.
   */
  lemma {:induction false} ExceedsStaysExceeded(prev: nat, m: Table, used: seq<bool>, used': seq<bool>, threshold: real)
    requires prev < |m| && prev < |m[prev]| <= |used| == |used'|
    requires m[prev][prev] == Max
    requires forall i :: 0 <= i < |used| && used[i] ==> used'[i]
    requires Exceeds(GetSucc(prev, m, used).1, threshold)
    ensures Exceeds(GetSucc(prev, m, used').1, threshold)
  {
    var s := GetSucc(prev, m, used).1;
    var r' := GetSucc(prev, m, used');
    if r'.0 != prev && !Exceeds(r'.1, threshold) {
      assert IsCandidate(prev, used, r'.0);
      assert !Less(m[prev][r'.0], s);
      BelowThresholdIsLess(r'.1, s, threshold);
    }
  }
}
