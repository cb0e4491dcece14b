/**
  The reconstruction pipeline of `unshuffle_video` once the frames are
  decoded: build the table, partition the frames into chains, select the
  first longest chain (reversed on request) and list the copies that
  materialise it.
 */
module Unshuffle {
  import opened Options
  import opened Scores
  import opened Pixels
  import opened Matrix
  import opened Chain
  import opened Partitioner
  import opened Select

  /** The chains the driver loop produces for a table, starting with no frame used. */
  function Chains(m: Table, threshold: real): seq<seq<nat>>
    requires WellFormed(m)
  {
    Partition(m, threshold, NoneUsed(|m|))
  }

  /** Reversing a chain keeps it duplicate-free and in range and, in a symmetric table, keeps its neighbours within the threshold. */
  lemma ReverseKeepsChainShape(m: Table, threshold: real, c: seq<nat>)
    requires WellFormed(m) && Symmetric(m)
    requires Distinct(c) && InRange(c, |m|)
    requires forall i :: 0 <= i < |c| - 1 ==> Within(m[c[i]][c[i + 1]], threshold)
    ensures Distinct(Reverse(c)) && InRange(Reverse(c), |m|)
    ensures forall i :: 0 <= i < |c| - 1 ==> Within(m[Reverse(c)[i]][Reverse(c)[i + 1]], threshold)
  {
    ReverseKeepsElements(c, |m|);
    ReverseKeepsLinks(m, threshold, c);
  }

  lemma ReverseKeepsElements(c: seq<nat>, n: nat)
    requires Distinct(c) && InRange(c, n)
    ensures Distinct(Reverse(c)) && InRange(Reverse(c), n)
  {
    var r := Reverse(c);
    forall i, j | 0 <= i < j < |r|
      ensures r[i] != r[j]
    {
      assert r[i] == c[|c| - 1 - i] && r[j] == c[|c| - 1 - j];
    }
    forall i | 0 <= i < |r|
      ensures r[i] < n
    {
      assert r[i] == c[|c| - 1 - i];
    }
  }

  lemma ReverseKeepsLinks(m: Table, threshold: real, c: seq<nat>)
    requires WellFormed(m) && Symmetric(m) && InRange(c, |m|)
    requires forall i :: 0 <= i < |c| - 1 ==> Within(m[c[i]][c[i + 1]], threshold)
    ensures InRange(Reverse(c), |m|)
    ensures forall i :: 0 <= i < |c| - 1 ==> Within(m[Reverse(c)[i]][Reverse(c)[i + 1]], threshold)
  {
    var r := Reverse(c);
    forall i | 0 <= i < |r|
      ensures r[i] < |m|
    {
      assert r[i] == c[|c| - 1 - i];
    }
    forall i | 0 <= i < |c| - 1
      ensures Within(m[r[i]][r[i + 1]], threshold)
    {
      var j := |c| - 2 - i;
      var a, b := c[j], c[j + 1];
      assert r[i] == b && r[i + 1] == a;
      assert Within(m[a][b], threshold);
      assert m[a][b] == m[b][a];
    }
  }

  /**
    `unshuffle_video` from the decoded frames on: the recovered order and the
    copies that write it out. With no frames there is no order (the source
    panics in `get_biggest_sequence`) and nothing is copied. Otherwise the
    order is a non-empty, duplicate-free list of frame indices whose
    neighbours score within the threshold, no chain of the partition is
    longer, and it is the first longest chain, reversed when `isRev` holds.
   */
  method UnshuffleVideo(frames: seq<Frame>, threshold: real, isRev: bool)
    returns (order: Option<seq<nat>>, copies: seq<(nat, nat)>)
    ensures order.None? <==> |frames| == 0
    ensures order.None? ==> copies == []
    ensures order.Some? ==>
              && |order.value| > 0
              && Distinct(order.value)
              && InRange(order.value, |frames|)
    ensures order.Some? ==>
              forall i :: 0 <= i < |order.value| - 1 ==>
                Within(PercentTable(frames)[order.value[i]][order.value[i + 1]], threshold)
    ensures order.Some? ==>
              var chains := Chains(PercentTable(frames), threshold);
              && (forall k :: 0 <= k < |chains| ==> |chains[k]| <= |order.value|)
              && exists p: nat :: IsFirstLongest(chains, p) &&
                   order.value == (if isRev then Reverse(chains[p]) else chains[p])
    ensures order.Some? ==>
              |copies| == |order.value| &&
              forall i :: 0 <= i < |copies| ==> copies[i] == (order.value[i], i)
  {
    var percents := FillPercents(frames);
    var chains := Chains(percents, threshold);
    PartitionFromUnused(percents, threshold, NoneUsed(|percents|));
    PartitionLinked(percents, threshold, NoneUsed(|percents|));
    PartitionIsComplete(percents, threshold);
    order := SelectSequence(chains, isRev);
    match order {
      case None =>
        copies := [];
      case Some(biggest) =>
        var p: nat :| IsFirstLongest(chains, p) &&
                      biggest == (if isRev then Reverse(chains[p]) else chains[p]);
        assert InRange(chains[p], |frames|);
        if isRev {
          ReverseKeepsChainShape(percents, threshold, chains[p]);
        }
        copies := CopyImages(biggest);
    }
  }
}
