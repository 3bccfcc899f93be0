/// The ring mask of one candidate pair (lines 59-63 of the main loop): two zeroed
/// 8-bit rasters of the image's size, each painted 255 inside one polygon, and their
/// saturating difference.
module Masks {
  /** One CV_8U pixel. */
  newtype byte = x: int | 0 <= x < 256

  /** Element-wise subtraction of CV_8U matrices saturates at 0 instead of wrapping. */
  function SatSub(a: byte, b: byte): (r: byte)
  {
    if a <= b then 0 else a - b
  }

  /** On 0/255 pixels the saturating difference is 255 exactly when the first is set and
      the second is not; every other combination gives 0. */
  lemma SatSubOnMasks(a: byte, b: byte)
    requires (a == 0 || a == 255) && (b == 0 || b == 255)
    ensures SatSub(a, b) == if a == 255 && b == 0 then 255 else 0
  {
  }

  /** `m` is the ring of a pair: rows x cols, 255 on pixels the outer polygon covers and the
      inner one does not, 0 everywhere else: inside the inner polygon, outside the outer one,
      and wherever the inner polygon sticks out of the outer one. */
  ghost predicate IsRing(m: array2<byte>, rows: nat, cols: nat,
                         outerCovers: (int, int) -> bool, innerCovers: (int, int) -> bool)
    reads m
  {
    m.Length0 == rows && m.Length1 == cols &&
    forall r, c :: 0 <= r < rows && 0 <= c < cols ==>
      m[r, c] == if outerCovers(r, c) && !innerCovers(r, c) then 255 else 0
  }

  /** cv::fillConvexPoly with colour 255: every pixel that the polygon covers becomes 255, the
      others keep their value. Which pixels a polygon covers is the rasteriser's business
      and is given as `covers`. */
  method Fill(m: array2<byte>, covers: (int, int) -> bool)
    modifies m
    ensures forall r, c :: 0 <= r < m.Length0 && 0 <= c < m.Length1 ==>
      m[r, c] == if covers(r, c) then 255 else old(m[r, c])
  {
    var r := 0;
    while r < m.Length0
      invariant 0 <= r <= m.Length0
      invariant forall r', c' :: 0 <= r' < m.Length0 && 0 <= c' < m.Length1 ==>
        m[r', c'] == if r' < r && covers(r', c') then 255 else old(m[r', c'])
    {
      var c := 0;
      while c < m.Length1
        invariant 0 <= c <= m.Length1
        invariant forall r', c' :: 0 <= r' < m.Length0 && 0 <= c' < m.Length1 ==>
          m[r', c'] == if (r' < r || (r' == r && c' < c)) && covers(r', c') then 255 else old(m[r', c'])
      {
        if covers(r, c) {
          m[r, c] := 255;
        }
        c := c + 1;
      }
      r := r + 1;
    }
  }

  /** `a - b` on two CV_8U matrices of one size: a new matrix of that size holding the
      saturating difference pixel by pixel. */
  method Subtract(a: array2<byte>, b: array2<byte>) returns (d: array2<byte>)
    requires a.Length0 == b.Length0 && a.Length1 == b.Length1
    ensures fresh(d)
    ensures d.Length0 == a.Length0 && d.Length1 == a.Length1
    ensures forall r, c :: 0 <= r < d.Length0 && 0 <= c < d.Length1 ==> d[r, c] == SatSub(a[r, c], b[r, c])
  {
    d := new byte[a.Length0, a.Length1];
    var r := 0;
    while r < a.Length0
      invariant 0 <= r <= a.Length0
      invariant forall r', c' :: 0 <= r' < r && 0 <= c' < a.Length1 ==> d[r', c'] == SatSub(a[r', c'], b[r', c'])
    {
      var c := 0;
      while c < a.Length1
        invariant 0 <= c <= a.Length1
        invariant forall r', c' :: 0 <= r' < r && 0 <= c' < a.Length1 ==> d[r', c'] == SatSub(a[r', c'], b[r', c'])
        invariant forall c' :: 0 <= c' < c ==> d[r, c'] == SatSub(a[r, c'], b[r, c'])
      {
        d[r, c] := SatSub(a[r, c], b[r, c]);
        c := c + 1;
      }
      r := r + 1;
    }
  }

  /** Lines 59-63: allocate both masks zeroed, paint the inner and the outer polygon with
      255, and subtract the inner mask from the outer one. */
  method RingMask(rows: nat, cols: nat, outerCovers: (int, int) -> bool, innerCovers: (int, int) -> bool)
    returns (mask: array2<byte>)
    ensures fresh(mask)
    ensures IsRing(mask, rows, cols, outerCovers, innerCovers)
  {
    var maskInner := new byte[rows, cols]((_, _) => 0);
    var maskOuter := new byte[rows, cols]((_, _) => 0);
    Fill(maskInner, innerCovers);
    Fill(maskOuter, outerCovers);
    mask := Subtract(maskOuter, maskInner);
    forall r, c | 0 <= r < rows && 0 <= c < cols
      ensures mask[r, c] == if outerCovers(r, c) && !innerCovers(r, c) then 255 else 0
    {
      SatSubOnMasks(maskOuter[r, c], maskInner[r, c]);
    }
  }
}
