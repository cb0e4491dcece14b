/**
  Choosing the result among the chains (`get_biggest_sequence`), the
  optional reversal, and the order in which `copy_images` numbers the output.
 */
module Select {
  import opened Options

  /**
    The accumulator `(pos, len)` of the fold in `get_biggest_sequence` after
    the first `k` chains, starting from `(0, 0)`; a chain replaces it only
    when it is strictly longer.
   */
  function LongestPrefix(chains: seq<seq<nat>>, k: nat): (r: (nat, nat))
    requires k <= |chains|
    ensures k == 0 ==> r == (0, 0)
    ensures k > 0 ==> r.0 < k && r.1 == |chains[r.0]|
    ensures forall j :: 0 <= j < k ==> |chains[j]| <= r.1
    ensures forall j :: 0 <= j < r.0 ==> |chains[j]| < r.1
    decreases k
  {
    if k == 0 then (0, 0)
    else
      var acc := LongestPrefix(chains, k - 1);
      if |chains[k - 1]| > acc.1 then (k - 1, |chains[k - 1]|) else acc
  }

  /** `p` is the first position holding a chain of maximal length. */
  predicate IsFirstLongest(chains: seq<seq<nat>>, p: nat) {
    && p < |chains|
    && (forall j :: 0 <= j < |chains| ==> |chains[j]| <= |chains[p]|)
    && (forall j :: 0 <= j < p ==> |chains[j]| < |chains[p]|)
  }

  /**
    `get_biggest_sequence`: the first chain of maximal length. The source
    indexes `sequences[0]` when there are no chains and panics; here that is
    `None`.
   */
  function GetBiggestSequence(chains: seq<seq<nat>>): (r: Option<seq<nat>>)
    ensures r.None? <==> |chains| == 0
    ensures r.Some? ==> exists p: nat :: IsFirstLongest(chains, p) && chains[p] == r.value
  {
    if |chains| == 0 then None
    else
      var p := LongestPrefix(chains, |chains|).0;
      assert IsFirstLongest(chains, p);
      Some(chains[p])
  }

  /** At most one position is the first longest, so the selected chain is determined by the lengths. */
  lemma FirstLongestIsUnique(chains: seq<seq<nat>>, p: nat, q: nat)
    requires IsFirstLongest(chains, p) && IsFirstLongest(chains, q)
    ensures p == q
  {
    assert |chains[p]| == |chains[q]|;
  }

  /** `Vec::reverse`: the mirror image. */
  function Reverse(s: seq<nat>): (r: seq<nat>)
    ensures |r| == |s|
    ensures forall i :: 0 <= i < |s| ==> r[i] == s[|s| - 1 - i]
  {
    if |s| == 0 then [] else Reverse(s[1..]) + [s[0]]
  }

  lemma ReverseIsInvolution(s: seq<nat>)
    ensures Reverse(Reverse(s)) == s
  {
  }

  /** The selected chain, reversed when `is_rev` is set; `None` when there are no chains. */
  function SelectSequence(chains: seq<seq<nat>>, isRev: bool): (r: Option<seq<nat>>)
    ensures r.None? <==> |chains| == 0
    ensures r.Some? ==> exists p: nat :: IsFirstLongest(chains, p) &&
                          r.value == (if isRev then Reverse(chains[p]) else chains[p])
  {
    match GetBiggestSequence(chains)
    case None => None
    case Some(biggest) => Some(if isRev then Reverse(biggest) else biggest)
  }

  /** Selecting with and without reversal gives mirror images of each other. */
  lemma SelectReversedIsMirror(chains: seq<seq<nat>>)
    ensures SelectSequence(chains, true).Some? <==> SelectSequence(chains, false).Some?
    ensures SelectSequence(chains, false).Some? ==>
              SelectSequence(chains, true).value == Reverse(SelectSequence(chains, false).value)
  {
  }

  /**
    `copy_images` without the file system: the list of copies it performs,
    as `(frame index, output ordinal)` pairs in the order they happen. Output
    ordinal `i` receives element `i` of the sequence.
   */
  method CopyImages(sequence: seq<nat>) returns (copies: seq<(nat, nat)>)
    ensures |copies| == |sequence|
    ensures forall i :: 0 <= i < |sequence| ==> copies[i] == (sequence[i], i)
  {
    copies := [];
    var i := 0;
    while i < |sequence|
      invariant i <= |sequence| && |copies| == i
      invariant forall j :: 0 <= j < i ==> copies[j] == (sequence[j], j)
    {
      copies := copies + [(sequence[i], i)];
      i := i + 1;
    }
  }
}
