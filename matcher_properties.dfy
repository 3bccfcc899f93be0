/// What the quad-pair matcher emits, stated without reference to its loops:
/// which pairs, in which order, with which vertex counts and index bounds, and
/// how the pairs it keeps relate to the trace it prints.
module MatcherProperties {
  import opened Geometry
  import opened Hierarchy
  import opened Matcher

  /** The inner indices paired with `o` in `ps`, in order. */
  function InnersOf(ps: seq<Pair>, o: nat): (r: seq<nat>)
  {
    if ps == [] then []
    else if ps[0].outer == o then [ps[0].inner] + InnersOf(ps[1..], o)
    else InnersOf(ps[1..], o)
  }

  lemma {:induction false} InnersOfSplit(a: seq<Pair>, b: seq<Pair>, o: nat)
    ensures InnersOf(a + b, o) == InnersOf(a, o) + InnersOf(b, o)
  {
    if a == [] {
      assert a + b == b;
    } else {
      InnersOfSplit(a[1..], b, o);
      assert (a + b)[0] == a[0] && (a + b)[1..] == a[1..] + b;
    }
  }

  lemma {:induction false} InnersOfTag(m: nat, cs: seq<nat>, o: nat)
    ensures InnersOf(Tag(m, cs), o) == if m == o then cs else []
  {
    if cs != [] {
      InnersOfTag(m, cs[1..], o);
      var t := Tag(m, cs);
      assert t[0] == Pair(m, cs[0]) && t[1..] == Tag(m, cs[1..]);
      if m == o {
        assert cs == [cs[0]] + cs[1..];
      }
    }
  }

  lemma {:induction false} InnersOfMembers(ps: seq<Pair>, o: nat, x: nat)
    ensures x in InnersOf(ps, o) <==> Pair(o, x) in ps
  {
    if ps != [] {
      InnersOfMembers(ps[1..], o, x);
      assert ps == [ps[0]] + ps[1..];
    }
  }

  lemma {:induction false} QuadsMembers(polygons: seq<Polygon>, cs: seq<nat>, x: nat)
    ensures x in Quads(polygons, cs) <==> x in cs && QuadAt(polygons, x)
  {
    if cs != [] {
      QuadsMembers(polygons, cs[1..], x);
      assert cs == [cs[0]] + cs[1..];
    }
  }

  /** Appending the lines of one outer `m` adds `cs` to the inners of `m` and nothing to others. */
  lemma InnersOfStep(a: seq<Pair>, m: nat, cs: seq<nat>, o: nat)
    ensures m == o ==> InnersOf(a + Tag(m, cs), o) == InnersOf(a, o) + cs
    ensures m != o ==> InnersOf(a + Tag(m, cs), o) == InnersOf(a, o)
  {
    InnersOfSplit(a, Tag(m, cs), o);
    InnersOfTag(m, cs, o);
    if m != o {
      assert InnersOf(a, o) + [] == InnersOf(a, o);
    }
  }

  /** The trace lists, for each outer `o` among the first `n` whose polygon has four
      vertices, every contour on the walk from its first child, in walking order,
      whatever their vertex counts; it lists nothing for any other `o`. */
  lemma {:induction false} TraceInnersOf(h: seq<Node>, polygons: seq<Polygon>, rank: seq<nat>, n: nat, o: nat)
    requires WellFormed(h, polygons, rank) && n <= |h|
    ensures InnersOf(TraceUpTo(h, polygons, rank, n), o) ==
      if o < n && IsQuad(polygons[o]) then Chain(h, rank, h[o].firstChild) else []
  {
    if n > 0 {
      TraceInnersOf(h, polygons, rank, n - 1, o);
      if IsQuad(polygons[n - 1]) {
        InnersOfStep(TraceUpTo(h, polygons, rank, n - 1), n - 1, Chain(h, rank, h[n - 1].firstChild), o);
        if o == n - 1 {
          assert [] + Chain(h, rank, h[o].firstChild) == Chain(h, rank, h[o].firstChild);
        }
      }
    }
  }

  /** The pairs list, for each outer `o` among the first `n` whose polygon has four
      vertices, every four-vertex contour on the walk from its first child, in walking
      order: not only the first such sibling, and nothing for any other `o`. */
  lemma {:induction false} PairsInnersOf(h: seq<Node>, polygons: seq<Polygon>, rank: seq<nat>, n: nat, o: nat)
    requires WellFormed(h, polygons, rank) && n <= |h|
    ensures InnersOf(PairsUpTo(h, polygons, rank, n), o) ==
      if o < n && IsQuad(polygons[o]) then Quads(polygons, Chain(h, rank, h[o].firstChild)) else []
  {
    if n > 0 {
      PairsInnersOf(h, polygons, rank, n - 1, o);
      if IsQuad(polygons[n - 1]) {
        var q := Quads(polygons, Chain(h, rank, h[n - 1].firstChild));
        InnersOfStep(PairsUpTo(h, polygons, rank, n - 1), n - 1, q, o);
        if o == n - 1 {
          assert [] + q == q;
        }
      }
    }
  }

  /** The pair (o, x) is emitted exactly when `o` is a four-vertex polygon among the
      first `n`, `x` lies on the walk from the first child of `o`, and `x` has four
      vertices too. */
  lemma PairsExactly(h: seq<Node>, polygons: seq<Polygon>, rank: seq<nat>, n: nat, o: nat, x: nat)
    requires WellFormed(h, polygons, rank) && n <= |h|
    ensures Pair(o, x) in PairsUpTo(h, polygons, rank, n) <==>
      o < n && IsQuad(polygons[o]) && x in Chain(h, rank, h[o].firstChild) && QuadAt(polygons, x)
  {
    PairsInnersOf(h, polygons, rank, n, o);
    InnersOfMembers(PairsUpTo(h, polygons, rank, n), o, x);
    if o < n && IsQuad(polygons[o]) {
      QuadsMembers(polygons, Chain(h, rank, h[o].firstChild), x);
    }
  }

  /** The line for (o, x) is printed exactly when `o` is a four-vertex polygon among the
      first `n` and `x` lies on the walk from its first child, whatever the vertex count
      of `x`: a sibling without four vertices is skipped, and the walk goes on past it. */
  lemma TraceExactly(h: seq<Node>, polygons: seq<Polygon>, rank: seq<nat>, n: nat, o: nat, x: nat)
    requires WellFormed(h, polygons, rank) && n <= |h|
    ensures Pair(o, x) in TraceUpTo(h, polygons, rank, n) <==>
      o < n && IsQuad(polygons[o]) && x in Chain(h, rank, h[o].firstChild)
  {
    TraceInnersOf(h, polygons, rank, n, o);
    InnersOfMembers(TraceUpTo(h, polygons, rank, n), o, x);
  }

  /** Every emitted pair has a four-vertex outer below `n` and a four-vertex inner at a
      positive index: contour 0 is never an inner, even when it is a sibling on the walk. */
  lemma PairsInRange(h: seq<Node>, polygons: seq<Polygon>, rank: seq<nat>, n: nat)
    requires WellFormed(h, polygons, rank) && n <= |h|
    ensures forall k :: 0 <= k < |PairsUpTo(h, polygons, rank, n)| ==>
      var p := PairsUpTo(h, polygons, rank, n)[k];
      p.outer < n && 0 < p.inner < |h| && IsQuad(polygons[p.outer]) && IsQuad(polygons[p.inner])
  {
    var ps := PairsUpTo(h, polygons, rank, n);
    forall k | 0 <= k < |ps|
      ensures ps[k].outer < n && 0 < ps[k].inner < |h|
      ensures IsQuad(polygons[ps[k].outer]) && IsQuad(polygons[ps[k].inner])
    {
      var p := ps[k];
      PairsExactly(h, polygons, rank, n, p.outer, p.inner);
      ChainInRange(h, rank, h[p.outer].firstChild);
    }
  }

  /** Every trace line has a four-vertex outer below `n` and an inner at a positive index. */
  lemma TraceInRange(h: seq<Node>, polygons: seq<Polygon>, rank: seq<nat>, n: nat)
    requires WellFormed(h, polygons, rank) && n <= |h|
    ensures forall k :: 0 <= k < |TraceUpTo(h, polygons, rank, n)| ==>
      var p := TraceUpTo(h, polygons, rank, n)[k];
      p.outer < n && 0 < p.inner < |h| && IsQuad(polygons[p.outer])
  {
    var ts := TraceUpTo(h, polygons, rank, n);
    forall k | 0 <= k < |ts|
      ensures ts[k].outer < n && 0 < ts[k].inner < |h| && IsQuad(polygons[ts[k].outer])
    {
      var p := ts[k];
      TraceExactly(h, polygons, rank, n, p.outer, p.inner);
      ChainInRange(h, rank, h[p.outer].firstChild);
    }
  }

  lemma {:induction false} TagOuter(m: nat, cs: seq<nat>)
    ensures |Tag(m, cs)| == |cs|
    ensures forall k :: 0 <= k < |cs| ==> Tag(m, cs)[k] == Pair(m, cs[k])
  {
    if cs != [] {
      TagOuter(m, cs[1..]);
    }
  }

  /** Pairs come out grouped by outer, in ascending outer order; within one outer they
      follow the walk (PairsInnersOf). */
  lemma {:induction false} PairsByAscendingOuter(h: seq<Node>, polygons: seq<Polygon>, rank: seq<nat>, n: nat)
    requires WellFormed(h, polygons, rank) && n <= |h|
    ensures forall a, b :: 0 <= a < b < |PairsUpTo(h, polygons, rank, n)| ==>
      PairsUpTo(h, polygons, rank, n)[a].outer <= PairsUpTo(h, polygons, rank, n)[b].outer
  {
    if n > 0 && IsQuad(polygons[n - 1]) {
      PairsByAscendingOuter(h, polygons, rank, n - 1);
      PairsInRange(h, polygons, rank, n - 1);
      var before := PairsUpTo(h, polygons, rank, n - 1);
      var q := Quads(polygons, Chain(h, rank, h[n - 1].firstChild));
      TagOuter(n - 1, q);
      var ps := before + Tag(n - 1, q);
      assert PairsUpTo(h, polygons, rank, n) == ps;
      forall a, b | 0 <= a < b < |ps| ensures ps[a].outer <= ps[b].outer {
        if b >= |before| {
          assert ps[b] == Tag(n - 1, q)[b - |before|];
          if a >= |before| {
            assert ps[a] == Tag(n - 1, q)[a - |before|];
          }
        }
      }
    } else if n > 0 {
      PairsByAscendingOuter(h, polygons, rank, n - 1);
    }
  }

  /** The lines of `ps` whose inner polygon has four vertices, in order. */
  function QuadInners(polygons: seq<Polygon>, ps: seq<Pair>): (r: seq<Pair>)
  {
    if ps == [] then []
    else if QuadAt(polygons, ps[0].inner) then [ps[0]] + QuadInners(polygons, ps[1..])
    else QuadInners(polygons, ps[1..])
  }

  lemma {:induction false} QuadInnersSplit(polygons: seq<Polygon>, a: seq<Pair>, b: seq<Pair>)
    ensures QuadInners(polygons, a + b) == QuadInners(polygons, a) + QuadInners(polygons, b)
  {
    if a == [] {
      assert a + b == b;
    } else {
      QuadInnersSplit(polygons, a[1..], b);
      assert (a + b)[0] == a[0] && (a + b)[1..] == a[1..] + b;
    }
  }

  lemma {:induction false} QuadInnersTag(polygons: seq<Polygon>, m: nat, cs: seq<nat>)
    ensures QuadInners(polygons, Tag(m, cs)) == Tag(m, Quads(polygons, cs))
  {
    if cs != [] {
      QuadInnersTag(polygons, m, cs[1..]);
      var t := Tag(m, cs);
      assert t[0] == Pair(m, cs[0]) && t[1..] == Tag(m, cs[1..]);
      if QuadAt(polygons, cs[0]) {
        var q := Quads(polygons, cs[1..]);
        assert ([cs[0]] + q)[0] == cs[0] && ([cs[0]] + q)[1..] == q;
      }
    }
  }

  /** The emitted pairs are exactly the trace lines whose inner has four vertices, in
      trace order: the vertex test on a sibling filters it out of the pairs without
      ending the walk. */
  lemma {:induction false} PairsFilterTrace(h: seq<Node>, polygons: seq<Polygon>, rank: seq<nat>, n: nat)
    requires WellFormed(h, polygons, rank) && n <= |h|
    ensures PairsUpTo(h, polygons, rank, n) == QuadInners(polygons, TraceUpTo(h, polygons, rank, n))
  {
    if n > 0 {
      PairsFilterTrace(h, polygons, rank, n - 1);
      if IsQuad(polygons[n - 1]) {
        var c := Chain(h, rank, h[n - 1].firstChild);
        QuadInnersSplit(polygons, TraceUpTo(h, polygons, rank, n - 1), Tag(n - 1, c));
        QuadInnersTag(polygons, n - 1, c);
      }
    }
  }

  /** On a hierarchy laid out as cv::findContours lays it out, where every first child
      has no previous sibling, following slot [1] from the first child ends at once:
      each outer is paired at most with its first child, and only when that child is
      at a positive index and has four vertices. Later siblings are never examined. */
  lemma OnlyFirstChildPaired(h: seq<Node>, polygons: seq<Polygon>, rank: seq<nat>, o: nat)
    requires WellFormed(h, polygons, rank) && FirstChildrenHeadLists(h) && o < |h|
    ensures InnersOf(PairsUpTo(h, polygons, rank, |h|), o) ==
      var fc := h[o].firstChild;
      if IsQuad(polygons[o]) && fc > 0 && QuadAt(polygons, fc) then [fc] else []
  {
    PairsInnersOf(h, polygons, rank, |h|, o);
    ChainFromFirstChild(h, rank, o);
    var fc := h[o].firstChild;
    if fc > 0 {
      assert Quads(polygons, [fc]) == if QuadAt(polygons, fc) then [fc] else [] by {
        assert [fc][1..] == [];
      }
    }
  }
}
