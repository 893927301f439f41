/** The edge box of a rectangular frame (Values::FrameEdge): derived from the
    frame's centre (x, y), width and height. Each axis is computed on its own,
    and an edge is missing exactly when an input of its axis is missing. */
module FrameEdges {
  import opened Wrappers

  datatype FrameEdge = FrameEdge(x: Option<real>, y: Option<real>, width: Option<real>, height: Option<real>)

  /** `x - width / 2`, missing when x or width is missing. */
  function Left(f: FrameEdge): (r: Option<real>)
    ensures r.Some? <==> f.x.Some? && f.width.Some?
  {
    if f.x.None? || f.width.None? then None else Some(f.x.value - f.width.value / 2.0)
  }

  /** `x + width / 2`: the right edge lies one width past the left edge, and
      the centre is halfway between them. */
  function Right(f: FrameEdge): (r: Option<real>)
    ensures r.Some? <==> f.x.Some? && f.width.Some?
    ensures r.Some? ==> r.value - Left(f).value == f.width.value
    ensures r.Some? ==> (Left(f).value + r.value) / 2.0 == f.x.value
  {
    if f.x.None? || f.width.None? then None else Some(f.x.value + f.width.value / 2.0)
  }

  /** `y - height / 2`, missing when y or height is missing. */
  function Bottom(f: FrameEdge): (r: Option<real>)
    ensures r.Some? <==> f.y.Some? && f.height.Some?
  {
    if f.y.None? || f.height.None? then None else Some(f.y.value - f.height.value / 2.0)
  }

  /** `y + height / 2`: the top edge lies one height above the bottom edge,
      and the centre is halfway between them. */
  function Top(f: FrameEdge): (r: Option<real>)
    ensures r.Some? <==> f.y.Some? && f.height.Some?
    ensures r.Some? ==> r.value - Bottom(f).value == f.height.value
    ensures r.Some? ==> (Bottom(f).value + r.value) / 2.0 == f.y.value
  {
    if f.y.None? || f.height.None? then None else Some(f.y.value + f.height.value / 2.0)
  }

  /** The two axes are independent: changing y or height leaves left and right
      as they were, and changing x or width leaves bottom and top. */
  lemma AxesIndependent(f: FrameEdge, y: Option<real>, height: Option<real>, x: Option<real>, width: Option<real>)
    ensures Left(f.(y := y, height := height)) == Left(f)
    ensures Right(f.(y := y, height := height)) == Right(f)
    ensures Bottom(f.(x := x, width := width)) == Bottom(f)
    ensures Top(f.(x := x, width := width)) == Top(f)
  {
  }

  /** A frame of non-negative size has its edges in order. */
  lemma EdgesOrdered(f: FrameEdge)
    ensures Left(f).Some? && f.width.value >= 0.0 ==> Left(f).value <= Right(f).value
    ensures Bottom(f).Some? && f.height.value >= 0.0 ==> Bottom(f).value <= Top(f).value
  {
  }

  /** The frame (10, 20) of size 4 x 6 spans 8..12 by 17..23. */
  lemma Example()
    ensures var f := FrameEdge(Some(10.0), Some(20.0), Some(4.0), Some(6.0));
      Left(f) == Some(8.0) && Right(f) == Some(12.0) && Bottom(f) == Some(17.0) && Top(f) == Some(23.0)
  {
  }
}
