/** The Circle record's geometric validations: the boundary check against
    its frame and the overlap check against the stored circles of the same
    frame. Each appends its message to the record's error list and changes
    nothing else, apart from the edge cache that the boundary check resets. */
module Circles {
  import opened Wrappers
  import FrameEdges
  import CircleEdges
  import opened CircleScopes

  const BoundaryMessage: string := "Circle must be within frame boundaries"
  const OverlapMessage: string := "Circle overlaps with existing circle(s)"

  /** The frame a circle belongs to: its centre and size. */
  datatype FrameRecord = FrameRecord(x: Option<real>, y: Option<real>, width: Option<real>, height: Option<real>)

  /** The frame's edge value object. */
  function FrameEdgeOf(f: FrameRecord): FrameEdges.FrameEdge {
    FrameEdges.FrameEdge(f.x, f.y, f.width, f.height)
  }

  /** What the boundary validation adds: nothing without a frame, otherwise
      the boundary message exactly when the circle is not inside it. */
  function BoundaryErrors(c: CircleRecord, frame: Option<FrameRecord>): (errs: seq<string>)
    ensures errs == [] || errs == [BoundaryMessage]
    ensures errs != [] <==> frame.Some? && !CircleEdges.WithinFrame(EdgeOf(c), FrameEdgeOf(frame.value))
  {
    if frame.None? then []
    else if CircleEdges.WithinFrame(EdgeOf(c), FrameEdgeOf(frame.value)) then []
    else [BoundaryMessage]
  }

  /** What the overlap validation adds: the overlap message exactly when a
      stored circle of the same frame, other than `c`, overlaps it. */
  function OverlapErrors(store: seq<CircleRecord>, c: CircleRecord): (errs: seq<string>)
    ensures errs == [] || errs == [OverlapMessage]
    ensures errs != [] <==> exists i :: 0 <= i < |store| && Sibling(store[i], c) && Overlaps(c, store[i])
  {
    if OverlapWithOtherCircles(store, c) then [OverlapMessage] else []
  }

  /** Both geometric validations in declaration order. Neither one stops the
      other, so a circle can collect both messages; each at most once. */
  function GeometricErrors(c: CircleRecord, frame: Option<FrameRecord>, store: seq<CircleRecord>): (errs: seq<string>)
    ensures |errs| <= 2
    ensures BoundaryMessage in errs <==> frame.Some? && !CircleEdges.WithinFrame(EdgeOf(c), FrameEdgeOf(frame.value))
    ensures OverlapMessage in errs <==> OverlapWithOtherCircles(store, c)
    ensures errs ==
      (if frame.Some? && !CircleEdges.WithinFrame(EdgeOf(c), FrameEdgeOf(frame.value)) then [BoundaryMessage] else []) +
      (if OverlapWithOtherCircles(store, c) then [OverlapMessage] else [])
  {
    BoundaryErrors(c, frame) + OverlapErrors(store, c)
  }

  /** The two checks are independent: the boundary verdict does not depend
      on the stored circles and the overlap verdict does not depend on the
      frame. */
  lemma ChecksIndependent(c: CircleRecord, frame: Option<FrameRecord>, frame': Option<FrameRecord>,
                          store: seq<CircleRecord>, store': seq<CircleRecord>)
    ensures (BoundaryMessage in GeometricErrors(c, frame, store)) == (BoundaryMessage in GeometricErrors(c, frame, store'))
    ensures (OverlapMessage in GeometricErrors(c, frame, store)) == (OverlapMessage in GeometricErrors(c, frame', store))
  {
  }

  /** A circle sticking out of its frame and overlapping a sibling gets both
      messages. */
  lemma BothErrorsAtOnce()
    ensures var frame := FrameRecord(Some(10.0), Some(10.0), Some(8.0), Some(8.0));
      var sibling := CircleRecord(Some(1), Some(7), Some(6.0), Some(10.0), Some(4.0));
      var c := CircleRecord(None, Some(7), Some(5.0), Some(10.0), Some(4.0));
      GeometricErrors(c, Some(frame), [sibling]) == [BoundaryMessage, OverlapMessage]
  {
    var frame := FrameRecord(Some(10.0), Some(10.0), Some(8.0), Some(8.0));
    var sibling := CircleRecord(Some(1), Some(7), Some(6.0), Some(10.0), Some(4.0));
    var c := CircleRecord(None, Some(7), Some(5.0), Some(10.0), Some(4.0));
    assert Sibling([sibling][0], c) && Overlaps(c, [sibling][0]);
  }

  /** An ActiveRecord Circle: its attributes, the associated frame (given
      as it is, not tied to frameId), the cached edge value object and the
      error list. */
  class Circle {
    var id: Option<nat>
    var frameId: Option<nat>
    var x: Option<real>
    var y: Option<real>
    var diameter: Option<real>
    var frame: Option<FrameRecord>
    var edgeCache: Option<CircleEdges.CircleEdge>
    var errors: seq<string>

    constructor (id: Option<nat>, frameId: Option<nat>, x: Option<real>, y: Option<real>, diameter: Option<real>,
                 frame: Option<FrameRecord>)
      ensures Record() == CircleRecord(id, frameId, x, y, diameter) && this.frame == frame
      ensures edgeCache == None && errors == []
    {
      this.id := id;
      this.frameId := frameId;
      this.x := x;
      this.y := y;
      this.diameter := diameter;
      this.frame := frame;
      edgeCache := None;
      errors := [];
    }

    /** The current attribute values as a row. */
    function Record(): CircleRecord
      reads this
    {
      CircleRecord(id, frameId, x, y, diameter)
    }

    /** The `edge` aggregation: the cached value object if there is one,
      otherwise one built from the current x, y and diameter, which is then
      cached. */
    method Edge() returns (e: CircleEdges.CircleEdge)
      modifies this`edgeCache
      ensures e == if old(edgeCache).Some? then old(edgeCache).value else EdgeOf(Record())
      ensures edgeCache == Some(e)
    {
      if edgeCache.None? {
        edgeCache := Some(EdgeOf(Record()));
      }
      e := edgeCache.value;
    }

    /** within_frame_boundaries: without a frame, does nothing; otherwise
      drops the cached edge so the check sees the current attributes, and
      appends the boundary message when the circle is not inside the frame. */
    method WithinFrameBoundaries()
      modifies this`edgeCache, this`errors
      ensures errors == old(errors) + BoundaryErrors(Record(), frame)
      ensures edgeCache == if frame.None? then old(edgeCache) else Some(EdgeOf(Record()))
      ensures Record() == old(Record()) && frame == old(frame)
    {
      if frame.None? {
        return;
      }
      edgeCache := None;
      var e := Edge();
      if !CircleEdges.WithinFrame(e, FrameEdgeOf(frame.value)) {
        errors := errors + [BoundaryMessage];
      }
    }

    /** no_overlapping_circles: appends the overlap message when a stored
      circle of the same frame, other than this one, overlaps it. */
    method NoOverlappingCircles(store: seq<CircleRecord>)
      modifies this`errors
      ensures errors == old(errors) + OverlapErrors(store, Record())
      ensures Record() == old(Record()) && frame == old(frame) && edgeCache == old(edgeCache)
    {
      if !OverlapWithOtherCircles(store, Record()) {
        return;
      }
      errors := errors + [OverlapMessage];
    }

    /** Runs the geometric validations from a cleared error list, as a
      validation pass does. The result depends only on the attributes, the
      frame and the stored rows, none of which it changes, so validating an
      unchanged circle again gives the same list. */
    method Validate(store: seq<CircleRecord>)
      modifies this`edgeCache, this`errors
      ensures errors == GeometricErrors(Record(), frame, store)
      ensures edgeCache == if frame.None? then old(edgeCache) else Some(EdgeOf(Record()))
      ensures Record() == old(Record()) && frame == old(frame)
    {
      errors := [];
      WithinFrameBoundaries();
      NoOverlappingCircles(store);
    }
  }
}
