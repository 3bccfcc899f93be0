/// The quad-pair matcher of the tracker's main loop: every four-vertex polygon
/// is an outer candidate, and every four-vertex contour met on the walk from its
/// first child along slot-[1] links is paired with it as an inner candidate.
module Matcher {
  import opened Geometry
  import opened Hierarchy

  /** One (outer, inner) candidate, or one line "outer = i, inner = j" of the trace. */
  datatype Pair = Pair(outer: nat, inner: nat)

  /** What the matcher needs of its inputs: one polygon per hierarchy node, the links it
      follows in range, and a rank that makes the sibling walk terminate. */
  ghost predicate WellFormed(h: seq<Node>, polygons: seq<Polygon>, rank: seq<nat>)
  {
    |polygons| == |h| && Linked(h) && Ranked(h, rank)
  }

  /** Contour `x` exists and its polygon has four vertices. */
  predicate QuadAt(polygons: seq<Polygon>, x: int)
  {
    0 <= x < |polygons| && IsQuad(polygons[x])
  }

  /** `outer` paired with each of `cs`, in order. */
  function Tag(outer: nat, cs: seq<nat>): (r: seq<Pair>)
  {
    if cs == [] then [] else [Pair(outer, cs[0])] + Tag(outer, cs[1..])
  }

  /** The members of `cs` whose polygon has four vertices, in their order in `cs`. */
  function Quads(polygons: seq<Polygon>, cs: seq<nat>): (r: seq<nat>)
  {
    if cs == [] then []
    else if QuadAt(polygons, cs[0]) then [cs[0]] + Quads(polygons, cs[1..])
    else Quads(polygons, cs[1..])
  }

  /** The trace of the outer loop's first `n` iterations: for every outer with four
      vertices, one line per contour on the walk from its first child. */
  ghost function TraceUpTo(h: seq<Node>, polygons: seq<Polygon>, rank: seq<nat>, n: nat): (r: seq<Pair>)
    requires WellFormed(h, polygons, rank) && n <= |h|
  {
    if n == 0 then []
    else if IsQuad(polygons[n - 1]) then
      TraceUpTo(h, polygons, rank, n - 1) + Tag(n - 1, Chain(h, rank, h[n - 1].firstChild))
    else TraceUpTo(h, polygons, rank, n - 1)
  }

  /** The pairs of the outer loop's first `n` iterations: for every outer with four
      vertices, one pair per four-vertex contour on the walk from its first child. */
  ghost function PairsUpTo(h: seq<Node>, polygons: seq<Polygon>, rank: seq<nat>, n: nat): (r: seq<Pair>)
    requires WellFormed(h, polygons, rank) && n <= |h|
  {
    if n == 0 then []
    else if IsQuad(polygons[n - 1]) then
      PairsUpTo(h, polygons, rank, n - 1) + Tag(n - 1, Quads(polygons, Chain(h, rank, h[n - 1].firstChild)))
    else PairsUpTo(h, polygons, rank, n - 1)
  }

  /** Filtering the head of a chain: it stays ahead of the rest exactly when it is a quad. */
  lemma QuadsStep(polygons: seq<Polygon>, j: nat, rest: seq<nat>)
    ensures Quads(polygons, [j] + rest) ==
      if QuadAt(polygons, j) then [j] + Quads(polygons, rest) else Quads(polygons, rest)
  {
    assert ([j] + rest)[0] == j && ([j] + rest)[1..] == rest;
  }

  /** One iteration of the sibling walk keeps the walk's invariant: what has been
      visited, followed by the rest of the walk, is the whole walk. */
  lemma WalkStep(h: seq<Node>, polygons: seq<Polygon>, rank: seq<nat>, j: int,
                 visited: seq<nat>, found: seq<nat>, all: seq<nat>)
    requires WellFormed(h, polygons, rank) && 0 < j < |h|
    requires visited + Chain(h, rank, j) == all
    requires found + Quads(polygons, Chain(h, rank, j)) == Quads(polygons, all)
    ensures (visited + [j]) + Chain(h, rank, h[j].prev) == all
    ensures (if QuadAt(polygons, j) then found + [j] else found) + Quads(polygons, Chain(h, rank, h[j].prev)) ==
      Quads(polygons, all)
  {
    var rest := Chain(h, rank, h[j].prev);
    assert RankDrops(h, rank, j);
    assert Chain(h, rank, j) == [j] + rest;
    QuadsStep(polygons, j, rest);
    assert visited + ([j] + rest) == (visited + [j]) + rest;
    if QuadAt(polygons, j) {
      var q := Quads(polygons, rest);
      assert found + ([j] + q) == (found + [j]) + q;
    }
  }

  /** The inner loop of lines 53-56: walk from the first child of outer `i` along
      slot-[1] links while the index is positive; `visited` is every contour met,
      `found` those of them with four vertices, both in walking order. */
  method WalkChildren(h: seq<Node>, polygons: seq<Polygon>, ghost rank: seq<nat>, i: nat)
    returns (visited: seq<nat>, found: seq<nat>)
    requires WellFormed(h, polygons, rank) && i < |h|
    ensures visited == Chain(h, rank, h[i].firstChild)
    ensures found == Quads(polygons, Chain(h, rank, h[i].firstChild))
  {
    visited, found := [], [];
    ghost var all := Chain(h, rank, h[i].firstChild);
    var j := h[i].firstChild;
    assert [] + all == all && [] + Quads(polygons, all) == Quads(polygons, all);
    while j > 0
      invariant j < |h|
      invariant visited + Chain(h, rank, j) == all
      invariant found + Quads(polygons, Chain(h, rank, j)) == Quads(polygons, all)
      decreases if j > 0 then rank[j] + 1 else 0
    {
      WalkStep(h, polygons, rank, j, visited, found, all);
      assert RankDrops(h, rank, j);
      visited := visited + [j];
      if IsQuad(polygons[j]) {
        found := found + [j];
      }
      j := h[j].prev;
    }
    assert Chain(h, rank, j) == [] && Quads(polygons, []) == [];
    assert visited + [] == visited && found + [] == found;
  }

  /** Lines 47-56 of the main loop. `trace` stands for the lines written to standard
      output, `pairs` for the pairs that go on to the ring mask. */
  method MatchQuadPairs(h: seq<Node>, polygons: seq<Polygon>, ghost rank: seq<nat>)
    returns (trace: seq<Pair>, pairs: seq<Pair>)
    requires WellFormed(h, polygons, rank)
    ensures trace == TraceUpTo(h, polygons, rank, |polygons|)
    ensures pairs == PairsUpTo(h, polygons, rank, |polygons|)
  {
    trace, pairs := [], [];
    var i := 0;
    while i < |polygons|
      invariant 0 <= i <= |polygons|
      invariant trace == TraceUpTo(h, polygons, rank, i)
      invariant pairs == PairsUpTo(h, polygons, rank, i)
    {
      if IsQuad(polygons[i]) {
        var visited, found := WalkChildren(h, polygons, rank, i);
        trace := trace + Tag(i, visited);
        pairs := pairs + Tag(i, found);
      }
      i := i + 1;
    }
  }
}
