/// The contour hierarchy cv::findContours builds in tree mode: one node of
/// four integer links per contour, a negative link meaning "none".
module Hierarchy {
  /** The links of one contour, in the slot order of cv::Vec4i:
      [0] next sibling, [1] previous sibling, [2] first child, [3] parent. */
  datatype Node = Node(next: int, prev: int, firstChild: int, parent: int)

  /** The two links the matcher dereferences, first child and slot [1], stay below
      the number of contours. Negative links need no bound: they end the walk. */
  predicate Linked(h: seq<Node>)
  {
    forall j :: 0 <= j < |h| ==> h[j].firstChild < |h| && h[j].prev < |h|
  }

  /** `rank` strictly decreases along every slot-[1] link from one positive index to
      another, so the sibling walk cannot run in a cycle. */
  ghost predicate Ranked(h: seq<Node>, rank: seq<nat>)
  {
    |rank| == |h| && forall j :: 0 < j < |h| ==> RankDrops(h, rank, j)
  }

  /** The slot-[1] link of contour `j`, when it leads to a positive index, leads to a lower rank. */
  ghost predicate RankDrops(h: seq<Node>, rank: seq<nat>, j: int)
    requires |rank| == |h| && 0 < j < |h|
  {
    0 < h[j].prev < |h| ==> rank[h[j].prev] < rank[j]
  }

  /** The indices visited by `for (j = start; j > 0; j = hierarchy[j][1])`, in visiting order. */
  ghost function Chain(h: seq<Node>, rank: seq<nat>, start: int): (r: seq<nat>)
    requires Linked(h) && Ranked(h, rank) && start < |h|
    decreases if start > 0 then rank[start] + 1 else 0
  {
    if start <= 0 then []
    else
      assert RankDrops(h, rank, start);
      [start] + Chain(h, rank, h[start].prev)
  }

  /** Every index on the walk is a real contour other than contour 0: the test `j > 0`
      stops the walk on the -1 sentinel and on index 0 alike. */
  lemma {:induction false} ChainInRange(h: seq<Node>, rank: seq<nat>, start: int)
    requires Linked(h) && Ranked(h, rank) && start < |h|
    ensures forall k :: 0 <= k < |Chain(h, rank, start)| ==> 0 < Chain(h, rank, start)[k] < |h|
    decreases if start > 0 then rank[start] + 1 else 0
  {
    if start > 0 {
      assert RankDrops(h, rank, start);
      ChainInRange(h, rank, h[start].prev);
      assert Chain(h, rank, start) == [start] + Chain(h, rank, h[start].prev);
    }
  }

  /** The index reached from `start` by `k` slot-[1] steps, where the steps stop
      at the first index that is not positive. */
  function Follow(h: seq<Node>, start: int, k: nat): (r: int)
    requires Linked(h) && start < |h|
    decreases k
  {
    if k == 0 || start <= 0 then start else Follow(h, h[start].prev, k - 1)
  }

  /** The chain is exactly the run of link iterates before the first non-positive one:
      its k-th element is the k-th iterate, and the iterate just past its end is <= 0. */
  lemma {:induction false} ChainFollows(h: seq<Node>, rank: seq<nat>, start: int)
    requires Linked(h) && Ranked(h, rank) && start < |h|
    ensures forall k :: 0 <= k < |Chain(h, rank, start)| ==> Chain(h, rank, start)[k] == Follow(h, start, k)
    ensures Follow(h, start, |Chain(h, rank, start)|) <= 0
    decreases if start > 0 then rank[start] + 1 else 0
  {
    if start > 0 {
      assert RankDrops(h, rank, start);
      var p := h[start].prev;
      ChainFollows(h, rank, p);
      var c := Chain(h, rank, start);
      assert c == [start] + Chain(h, rank, p);
      forall k | 0 <= k < |c| ensures c[k] == Follow(h, start, k) {
        if k > 0 {
          assert c[k] == Chain(h, rank, p)[k - 1];
        }
      }
    }
  }

  /** Ranks strictly decrease along the chain. */
  lemma {:induction false} ChainRanksDecrease(h: seq<Node>, rank: seq<nat>, start: int)
    requires Linked(h) && Ranked(h, rank) && start < |h|
    ensures forall k :: 0 <= k < |Chain(h, rank, start)| ==> 0 < Chain(h, rank, start)[k] < |h|
    ensures forall a, b :: 0 <= a < b < |Chain(h, rank, start)| ==>
      rank[Chain(h, rank, start)[b]] < rank[Chain(h, rank, start)[a]]
    decreases if start > 0 then rank[start] + 1 else 0
  {
    ChainInRange(h, rank, start);
    if start > 0 {
      assert RankDrops(h, rank, start);
      var p := h[start].prev;
      ChainRanksDecrease(h, rank, p);
      var c := Chain(h, rank, start);
      var t := Chain(h, rank, p);
      assert c == [start] + t;
      forall a, b | 0 <= a < b < |c| ensures rank[c[b]] < rank[c[a]] {
        if a == 0 {
          assert t[0] == p;
          assert c[b] == t[b - 1];
        } else {
          assert c[a] == t[a - 1] && c[b] == t[b - 1];
        }
      }
    }
  }

  /** The walk never visits a contour twice, so it ends after fewer than |h| steps. */
  lemma ChainVisitsOnce(h: seq<Node>, rank: seq<nat>, start: int)
    requires Linked(h) && Ranked(h, rank) && start < |h|
    ensures forall a, b :: 0 <= a < b < |Chain(h, rank, start)| ==>
      Chain(h, rank, start)[a] != Chain(h, rank, start)[b]
  {
    ChainRanksDecrease(h, rank, start);
  }

  /** cv::findContours heads every child list with a first child whose slot-[1]
      (previous sibling) link is -1. */
  predicate FirstChildrenHeadLists(h: seq<Node>)
  {
    forall o :: 0 <= o < |h| && 0 <= h[o].firstChild < |h| ==> h[h[o].firstChild].prev == -1
  }

  /** On such a hierarchy the walk from a first child stops after that child alone:
      the rest of its sibling list is never reached. */
  lemma ChainFromFirstChild(h: seq<Node>, rank: seq<nat>, o: nat)
    requires Linked(h) && Ranked(h, rank) && FirstChildrenHeadLists(h) && o < |h|
    ensures Chain(h, rank, h[o].firstChild) ==
      if h[o].firstChild > 0 then [h[o].firstChild] else []
  {
    var fc := h[o].firstChild;
    if fc > 0 {
      assert Chain(h, rank, fc) == [fc] + Chain(h, rank, -1);
    }
  }
}
