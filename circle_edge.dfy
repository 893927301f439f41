/** The edge box of a circle (Values::CircleEdge): derived from the centre
    (x, y) and the diameter, and the boundary-inclusive containment test
    against a frame's edge box. */
module CircleEdges {
  import opened Wrappers
  import FrameEdges

  datatype CircleEdge = CircleEdge(x: Option<real>, y: Option<real>, diameter: Option<real>)

  /** Half the diameter; missing when the diameter is missing. */
  function Radius(e: CircleEdge): (r: Option<real>)
    ensures r.Some? <==> e.diameter.Some?
    ensures r.Some? ==> r.value + r.value == e.diameter.value
  {
    if e.diameter.None? then None else Some(e.diameter.value / 2.0)
  }

  /** `x - radius`, missing when x or the radius is missing. */
  function Left(e: CircleEdge): (r: Option<real>)
    ensures r.Some? <==> e.x.Some? && e.diameter.Some?
  {
    if e.x.None? || Radius(e).None? then None else Some(e.x.value - Radius(e).value)
  }

  /** `x + radius`: one diameter right of the left edge, with the centre
      halfway between. */
  function Right(e: CircleEdge): (r: Option<real>)
    ensures r.Some? <==> e.x.Some? && e.diameter.Some?
    ensures r.Some? ==> r.value - Left(e).value == e.diameter.value
    ensures r.Some? ==> (Left(e).value + r.value) / 2.0 == e.x.value
  {
    if e.x.None? || Radius(e).None? then None else Some(e.x.value + Radius(e).value)
  }

  /** `y - radius`, missing when y or the radius is missing. */
  function Bottom(e: CircleEdge): (r: Option<real>)
    ensures r.Some? <==> e.y.Some? && e.diameter.Some?
  {
    if e.y.None? || Radius(e).None? then None else Some(e.y.value - Radius(e).value)
  }

  /** `y + radius`: one diameter above the bottom edge, with the centre
      halfway between. */
  function Top(e: CircleEdge): (r: Option<real>)
    ensures r.Some? <==> e.y.Some? && e.diameter.Some?
    ensures r.Some? ==> r.value - Bottom(e).value == e.diameter.value
    ensures r.Some? ==> (Bottom(e).value + r.value) / 2.0 == e.y.value
  {
    if e.y.None? || Radius(e).None? then None else Some(e.y.value + Radius(e).value)
  }

  /** All four edges of the circle are known. */
  predicate Complete(e: CircleEdge) {
    Left(e).Some? && Right(e).Some? && Bottom(e).Some? && Top(e).Some?
  }

  /** All four edges of the frame are known. */
  predicate FrameComplete(f: FrameEdges.FrameEdge) {
    FrameEdges.Left(f).Some? && FrameEdges.Right(f).Some? && FrameEdges.Bottom(f).Some? && FrameEdges.Top(f).Some?
  }

  /** Whether the circle's edge box lies inside the frame's, touching allowed.
      A missing input on either side makes the answer false; a circle that
      is inside is no wider and no taller than the frame. */
  function WithinFrame(e: CircleEdge, f: FrameEdges.FrameEdge): (inside: bool)
    ensures inside ==> e.x.Some? && e.y.Some? && e.diameter.Some?
    ensures inside ==> f.x.Some? && f.y.Some? && f.width.Some? && f.height.Some?
    ensures inside ==> e.diameter.value <= f.width.value && e.diameter.value <= f.height.value
  {
    if !Complete(e) then false
    else if !FrameComplete(f) then false
    else
      Left(e).value >= FrameEdges.Left(f).value &&
      Right(e).value <= FrameEdges.Right(f).value &&
      Bottom(e).value >= FrameEdges.Bottom(f).value &&
      Top(e).value <= FrameEdges.Top(f).value
  }

  /** With all eight inputs present, containment is exactly the four
      inequalities on the centres and sizes, each one closed. */
  lemma WithinFrameExactly(e: CircleEdge, f: FrameEdges.FrameEdge)
    requires e.x.Some? && e.y.Some? && e.diameter.Some?
    requires f.x.Some? && f.y.Some? && f.width.Some? && f.height.Some?
    ensures WithinFrame(e, f) <==>
      e.x.value - e.diameter.value / 2.0 >= f.x.value - f.width.value / 2.0 &&
      e.x.value + e.diameter.value / 2.0 <= f.x.value + f.width.value / 2.0 &&
      e.y.value - e.diameter.value / 2.0 >= f.y.value - f.height.value / 2.0 &&
      e.y.value + e.diameter.value / 2.0 <= f.y.value + f.height.value / 2.0
  {
  }

  /** Sticking out past any single side of the frame makes the circle not
      contained, whatever the other three sides do. */
  lemma SticksOut(e: CircleEdge, f: FrameEdges.FrameEdge)
    requires Complete(e) && FrameComplete(f)
    requires Left(e).value < FrameEdges.Left(f).value || Right(e).value > FrameEdges.Right(f).value ||
             Bottom(e).value < FrameEdges.Bottom(f).value || Top(e).value > FrameEdges.Top(f).value
    ensures !WithinFrame(e, f)
  {
  }

  /** The circle (10, 20) of diameter 4 has radius 2 and spans 8..12 by
      18..22; with x, y or the diameter missing, the affected edges are too. */
  lemma EdgeExamples()
    ensures var e := CircleEdge(Some(10.0), Some(20.0), Some(4.0));
      Radius(e) == Some(2.0) && Left(e) == Some(8.0) && Right(e) == Some(12.0) &&
      Bottom(e) == Some(18.0) && Top(e) == Some(22.0)
    ensures var e := CircleEdge(None, Some(20.0), Some(4.0));
      Left(e) == None && Right(e) == None && Bottom(e) == Some(18.0) && Top(e) == Some(22.0)
    ensures var e := CircleEdge(Some(10.0), None, Some(4.0));
      Bottom(e) == None && Top(e) == None && Left(e) == Some(8.0) && Right(e) == Some(12.0)
    ensures var e := CircleEdge(Some(10.0), Some(20.0), None);
      Radius(e) == None && Left(e) == None && Right(e) == None && Bottom(e) == None && Top(e) == None
  {
  }

  /** Against the frame (10, 10) of size 8 x 8 (bounds 6..14 both ways):
      strictly inside, exactly filling it and touching one side are inside;
      sticking out past each side, or lying wholly outside, is not. */
  lemma WithinFrameExamples()
    ensures var f := FrameEdges.FrameEdge(Some(10.0), Some(10.0), Some(8.0), Some(8.0));
      WithinFrame(CircleEdge(Some(10.0), Some(10.0), Some(2.0)), f) &&
      WithinFrame(CircleEdge(Some(10.0), Some(10.0), Some(8.0)), f) &&
      WithinFrame(CircleEdge(Some(8.0), Some(10.0), Some(4.0)), f) &&
      !WithinFrame(CircleEdge(Some(7.0), Some(10.0), Some(4.0)), f) &&
      !WithinFrame(CircleEdge(Some(13.0), Some(10.0), Some(4.0)), f) &&
      !WithinFrame(CircleEdge(Some(10.0), Some(7.0), Some(4.0)), f) &&
      !WithinFrame(CircleEdge(Some(10.0), Some(13.0), Some(4.0)), f) &&
      !WithinFrame(CircleEdge(Some(20.0), Some(20.0), Some(4.0)), f)
  {
  }
}
