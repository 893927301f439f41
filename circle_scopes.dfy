/** The read-only side of the Circle model: a circle row, its radius and
    position, the SQL scopes (in_frame, triangulate_overlapping, within_edge
    and the "not this id" filter) as filters over a sequence of rows, the
    overlap verdict they feed, and the four extremal queries. */
module CircleScopes {
  import opened Wrappers
  import CircleEdges

  /** A row of the circles table, or an in-memory candidate: the id is
      missing until the row is saved, and any attribute may be missing. */
  datatype CircleRecord = CircleRecord(
    id: Option<nat>, frameId: Option<nat>, x: Option<real>, y: Option<real>, diameter: Option<real>)

  /** The edge value object built from the row's x, y and diameter. */
  function EdgeOf(c: CircleRecord): CircleEdges.CircleEdge {
    CircleEdges.CircleEdge(c.x, c.y, c.diameter)
  }

  /** Circle#radius: half the diameter, agreeing with the edge's radius. */
  function Radius(c: CircleRecord): (r: Option<real>)
    ensures r == CircleEdges.Radius(EdgeOf(c))
    ensures r.Some? <==> c.diameter.Some?
    ensures r.Some? ==> r.value + r.value == c.diameter.value
  {
    if c.diameter.None? then None else Some(c.diameter.value / 2.0)
  }

  /** Circle#position: the pair (x, y), which is the centre of the circle's
      edge box on each axis where that box is known. */
  function Position(c: CircleRecord): (p: (Option<real>, Option<real>))
    ensures p == (c.x, c.y)
    ensures p.0.Some? <==> c.x.Some?
    ensures p.1.Some? <==> c.y.Some?
    ensures CircleEdges.Left(EdgeOf(c)).Some? ==>
      p.0.value == (CircleEdges.Left(EdgeOf(c)).value + CircleEdges.Right(EdgeOf(c)).value) / 2.0
    ensures CircleEdges.Bottom(EdgeOf(c)).Some? ==>
      p.1.value == (CircleEdges.Bottom(EdgeOf(c)).value + CircleEdges.Top(EdgeOf(c)).value) / 2.0
  {
    (c.x, c.y)
  }

  // ---------------------------------------------------------------------
  // Distances without square roots

  /** The squared distance between two centres. */
  function SquaredDistance(x1: real, y1: real, x2: real, y2: real): (d2: real)
    ensures d2 >= 0.0
    ensures d2 >= (x1 - x2) * (x1 - x2) && d2 >= (y1 - y2) * (y1 - y2)
  {
    (x1 - x2) * (x1 - x2) + (y1 - y2) * (y1 - y2)
  }

  /** `SQRT(d2) < s`, stated without the square root. */
  predicate RootBelow(d2: real, s: real) {
    s > 0.0 && d2 < s * s
  }

  /** `SQRT(d2) <= t`, stated without the square root. */
  predicate RootAtMost(d2: real, t: real) {
    t >= 0.0 && d2 <= t * t
  }

  lemma SquareMonotone(a: real, b: real)
    requires 0.0 <= a <= b
    ensures a * a <= b * b
  {
    assert a * (b - a) >= 0.0 && a * (b - a) == a * b - a * a;
    assert b * (b - a) >= 0.0 && b * (b - a) == b * b - a * b;
  }

  lemma SquareStrictMonotone(a: real, b: real)
    requires 0.0 <= a < b
    ensures a * a < b * b
  {
    assert a * (b - a) >= 0.0 && a * (b - a) == a * b - a * a;
    assert b * (b - a) > 0.0 && b * (b - a) == b * b - a * b;
  }

  /** RootBelow is the comparison `dist < s` for the non-negative root `dist`
      of `d2`, whatever the sign of `s`. */
  lemma RootBelowMeans(dist: real, d2: real, s: real)
    requires dist >= 0.0 && dist * dist == d2
    ensures RootBelow(d2, s) <==> dist < s
  {
    if dist < s {
      SquareStrictMonotone(dist, s);
    } else if s > 0.0 {
      SquareMonotone(s, dist);
    }
  }

  /** RootAtMost is the comparison `dist <= t` for the non-negative root
      `dist` of `d2`, whatever the sign of `t`. */
  lemma RootAtMostMeans(dist: real, d2: real, t: real)
    requires dist >= 0.0 && dist * dist == d2
    ensures RootAtMost(d2, t) <==> dist <= t
  {
    if dist <= t {
      SquareMonotone(dist, t);
    } else if t >= 0.0 {
      SquareStrictMonotone(t, dist);
    }
  }

  /** From `a * a <= t * t` with `t >= 0`, `a` lies in `-t..t`. */
  lemma SquareBound(a: real, t: real)
    requires t >= 0.0 && a * a <= t * t
    ensures -t <= a <= t
  {
    if a > t {
      SquareStrictMonotone(t, a);
    } else if -a > t {
      SquareStrictMonotone(t, -a);
    }
  }

  // ---------------------------------------------------------------------
  // Scopes

  /** A WHERE clause: the rows that satisfy `keep`, in their order. */
  function Where(rows: seq<CircleRecord>, keep: CircleRecord -> bool): (r: seq<CircleRecord>)
    ensures |r| <= |rows|
    ensures forall c :: c in r <==> c in rows && keep(c)
  {
    if rows == [] then []
    else (if keep(rows[0]) then [rows[0]] else []) + Where(rows[1..], keep)
  }

  /** `where(frame_id: frame_id)`: a missing frame id matches `IS NULL`. */
  function InFrame(rows: seq<CircleRecord>, frameId: Option<nat>): (r: seq<CircleRecord>)
    ensures forall c :: c in r <==> c in rows && c.frameId == frameId
  {
    Where(rows, (c: CircleRecord) => c.frameId == frameId)
  }

  /** The WHERE condition of triangulate_overlapping for one row: the
      distance between the row's centre and (x, y) is strictly less than the
      row's radius plus `radius`. Any missing operand is NULL in SQL, and
      the row does not match. */
  predicate Triangulates(c: CircleRecord, x: Option<real>, y: Option<real>, radius: Option<real>) {
    c.x.Some? && c.y.Some? && c.diameter.Some? && x.Some? && y.Some? && radius.Some? &&
    RootBelow(SquaredDistance(c.x.value, c.y.value, x.value, y.value), c.diameter.value / 2.0 + radius.value)
  }

  function TriangulateOverlapping(rows: seq<CircleRecord>, x: Option<real>, y: Option<real>, radius: Option<real>)
    : (r: seq<CircleRecord>)
    ensures forall c :: c in r <==> c in rows && Triangulates(c, x, y, radius)
  {
    Where(rows, (c: CircleRecord) => Triangulates(c, x, y, radius))
  }

  /** `where.not(id: id)`: `id <> ?`, or `id IS NOT NULL` when id is missing;
      a row without an id never matches either. */
  predicate OtherId(c: CircleRecord, id: Option<nat>) {
    c.id.Some? && c.id != id
  }

  function WhereNotId(rows: seq<CircleRecord>, id: Option<nat>): (r: seq<CircleRecord>)
    ensures forall c :: c in r <==> c in rows && OtherId(c, id)
  {
    Where(rows, (c: CircleRecord) => OtherId(c, id))
  }

  /** The WHERE condition of within_edge for one row: the distance between
      the centres plus the row's radius is at most the edge's radius. */
  predicate InsideEdge(c: CircleRecord, e: CircleEdges.CircleEdge) {
    c.x.Some? && c.y.Some? && c.diameter.Some? &&
    e.x.Some? && e.y.Some? && CircleEdges.Radius(e).Some? &&
    RootAtMost(SquaredDistance(c.x.value, c.y.value, e.x.value, e.y.value),
               CircleEdges.Radius(e).value - c.diameter.value / 2.0)
  }

  /** The within_edge scope: the rows whose disk lies inside the circle `e`. */
  function WithinEdge(rows: seq<CircleRecord>, e: CircleEdges.CircleEdge): (r: seq<CircleRecord>)
    ensures forall c :: c in r <==> c in rows && InsideEdge(c, e)
  {
    Where(rows, (c: CircleRecord) => InsideEdge(c, e))
  }

  // ---------------------------------------------------------------------
  // Overlap between circles

  /** Whether stored row `other` is found by triangulate_overlapping at the
      centre and radius of `c`: their centres are strictly closer than the
      sum of their radii. */
  predicate Overlaps(c: CircleRecord, other: CircleRecord) {
    Triangulates(other, c.x, c.y, Radius(c))
  }

  /** A stored row the overlap check compares `c` against: same frame, and
      a saved row other than `c` itself. */
  predicate Sibling(row: CircleRecord, c: CircleRecord) {
    row.frameId == c.frameId && OtherId(row, c.id)
  }

  /** Circle#overlap_with_other_circles?: the chained scopes
      `in_frame(frame_id).triangulate_overlapping(x, y, radius).where.not(id: id).exists?`
      over the stored rows. It holds exactly when some sibling overlaps. */
  function OverlapWithOtherCircles(store: seq<CircleRecord>, c: CircleRecord): (found: bool)
    ensures found <==> exists i :: 0 <= i < |store| && Sibling(store[i], c) && Overlaps(c, store[i])
  {
    var r := WhereNotId(TriangulateOverlapping(InFrame(store, c.frameId), c.x, c.y, Radius(c)), c.id);
    if r != [] then
      assert r[0] in r;
      true
    else
      assert forall i :: 0 <= i < |store| && Sibling(store[i], c) && Overlaps(c, store[i]) ==> store[i] in r;
      false
  }

  /** With every value present, overlap is `distance < r1 + r2` for the
      Euclidean distance `dist` between the centres. */
  lemma OverlapsMeansDistance(c: CircleRecord, other: CircleRecord, dist: real)
    requires c.x.Some? && c.y.Some? && c.diameter.Some?
    requires other.x.Some? && other.y.Some? && other.diameter.Some?
    requires dist >= 0.0
    requires dist * dist == (c.x.value - other.x.value) * (c.x.value - other.x.value) +
                            (c.y.value - other.y.value) * (c.y.value - other.y.value)
    ensures Overlaps(c, other) <==> dist < c.diameter.value / 2.0 + other.diameter.value / 2.0
  {
    var d2 := SquaredDistance(other.x.value, other.y.value, c.x.value, c.y.value);
    assert d2 == dist * dist;
    RootBelowMeans(dist, d2, other.diameter.value / 2.0 + c.diameter.value / 2.0);
  }

  /** Overlap does not depend on which of the two circles is the candidate. */
  lemma OverlapsSymmetric(a: CircleRecord, b: CircleRecord)
    ensures Overlaps(a, b) <==> Overlaps(b, a)
  {
    if a.x.Some? && a.y.Some? && b.x.Some? && b.y.Some? {
      assert SquaredDistance(a.x.value, a.y.value, b.x.value, b.y.value)
          == SquaredDistance(b.x.value, b.y.value, a.x.value, a.y.value);
    }
  }

  /** Circles whose centres are exactly the sum of their radii apart touch
      and do not overlap. */
  lemma TouchingDoesNotOverlap(a: CircleRecord, b: CircleRecord)
    requires a.x.Some? && a.y.Some? && a.diameter.Some?
    requires b.x.Some? && b.y.Some? && b.diameter.Some?
    requires var s := a.diameter.value / 2.0 + b.diameter.value / 2.0;
      (a.x.value - b.x.value) * (a.x.value - b.x.value) + (a.y.value - b.y.value) * (a.y.value - b.y.value) == s * s
    ensures !Overlaps(a, b) && !Overlaps(b, a)
  {
    OverlapsSymmetric(a, b);
    assert SquaredDistance(b.x.value, b.y.value, a.x.value, a.y.value)
        == (a.x.value - b.x.value) * (a.x.value - b.x.value) + (a.y.value - b.y.value) * (a.y.value - b.y.value);
  }

  /** Rows in another frame, rows without an id and the row of the circle
      itself never change the overlap verdict. */
  lemma OverlapIgnoresNonSiblings(store: seq<CircleRecord>, row: CircleRecord, c: CircleRecord)
    requires !Sibling(row, c)
    ensures OverlapWithOtherCircles(store + [row], c) == OverlapWithOtherCircles(store, c)
  {
    var s := store + [row];
    if OverlapWithOtherCircles(s, c) {
      var i :| 0 <= i < |s| && Sibling(s[i], c) && Overlaps(c, s[i]);
      assert i < |store| && s[i] == store[i];
    }
    if OverlapWithOtherCircles(store, c) {
      var i :| 0 <= i < |store| && Sibling(store[i], c) && Overlaps(c, store[i]);
      assert s[i] == store[i];
    }
  }

  /** Centres (45, 45) and (49, 45) with diameter 4 touch; (45, 45) and
      (47, 45) overlap. */
  lemma OverlapExamples()
    ensures !Overlaps(CircleRecord(None, Some(1), Some(45.0), Some(45.0), Some(4.0)),
                      CircleRecord(Some(1), Some(1), Some(49.0), Some(45.0), Some(4.0)))
    ensures Overlaps(CircleRecord(None, Some(1), Some(45.0), Some(45.0), Some(4.0)),
                     CircleRecord(Some(1), Some(1), Some(47.0), Some(45.0), Some(4.0)))
  {
  }

  // ---------------------------------------------------------------------
  // Circle inside circle

  /** With every value present, within_edge is `distance + radius <= edge
      radius` for the Euclidean distance `dist` between the centres. */
  lemma InsideEdgeMeansDistance(c: CircleRecord, e: CircleEdges.CircleEdge, dist: real)
    requires c.x.Some? && c.y.Some? && c.diameter.Some?
    requires e.x.Some? && e.y.Some? && e.diameter.Some?
    requires dist >= 0.0
    requires dist * dist == (c.x.value - e.x.value) * (c.x.value - e.x.value) +
                            (c.y.value - e.y.value) * (c.y.value - e.y.value)
    ensures InsideEdge(c, e) <==> dist + c.diameter.value / 2.0 <= CircleEdges.Radius(e).value
  {
    RootAtMostMeans(dist, SquaredDistance(c.x.value, c.y.value, e.x.value, e.y.value),
                    CircleEdges.Radius(e).value - c.diameter.value / 2.0);
  }

  /** A row inside the circle `e` has a radius no larger than `e`'s. */
  lemma InsideEdgeRadius(c: CircleRecord, e: CircleEdges.CircleEdge)
    requires InsideEdge(c, e)
    ensures CircleEdges.Radius(EdgeOf(c)).value <= CircleEdges.Radius(e).value
  {
  }

  /** A row inside the circle `e` has its edge box inside `e`'s edge box. */
  lemma InsideEdgeBox(c: CircleRecord, e: CircleEdges.CircleEdge)
    requires InsideEdge(c, e)
    ensures CircleEdges.Left(EdgeOf(c)).value >= CircleEdges.Left(e).value
    ensures CircleEdges.Right(EdgeOf(c)).value <= CircleEdges.Right(e).value
    ensures CircleEdges.Bottom(EdgeOf(c)).value >= CircleEdges.Bottom(e).value
    ensures CircleEdges.Top(EdgeOf(c)).value <= CircleEdges.Top(e).value
  {
    var t := CircleEdges.Radius(e).value - c.diameter.value / 2.0;
    SquareBound(c.x.value - e.x.value, t);
    SquareBound(c.y.value - e.y.value, t);
  }

  /** A row of positive size inside the circle `e` is also found by
      triangulate_overlapping at `e`'s centre and radius: containment is a
      kind of overlap. */
  lemma InsideEdgeOverlaps(c: CircleRecord, e: CircleEdges.CircleEdge)
    requires InsideEdge(c, e) && c.diameter.value > 0.0
    ensures Triangulates(c, e.x, e.y, CircleEdges.Radius(e))
  {
    var r := c.diameter.value / 2.0;
    var t := CircleEdges.Radius(e).value - r;
    var s := r + CircleEdges.Radius(e).value;
    SquareStrictMonotone(t, s);
  }

  // ---------------------------------------------------------------------
  // Extremal queries

  datatype Direction = Top | Bottom | Left | Right

  /** A row with every geometric column set, as every saved row is. */
  predicate Placed(c: CircleRecord) {
    c.x.Some? && c.y.Some? && c.diameter.Some?
  }

  /** The row's edge value in a direction: centre plus or minus the radius. */
  function EdgeValue(c: CircleRecord, dir: Direction): real
    requires Placed(c)
  {
    match dir
    case Top => CircleEdges.Top(EdgeOf(c)).value
    case Bottom => CircleEdges.Bottom(EdgeOf(c)).value
    case Left => CircleEdges.Left(EdgeOf(c)).value
    case Right => CircleEdges.Right(EdgeOf(c)).value
  }

  /** `a` reaches at least as far as `b` in the direction: ordered
      descending for top and right, ascending for bottom and left. */
  predicate AtLeastAsFar(dir: Direction, a: CircleRecord, b: CircleRecord)
    requires Placed(a) && Placed(b)
  {
    if dir == Top || dir == Right then EdgeValue(a, dir) >= EdgeValue(b, dir)
    else EdgeValue(a, dir) <= EdgeValue(b, dir)
  }

  /** The index of a row reaching furthest in the direction. */
  function ExtremeIndex(rows: seq<CircleRecord>, dir: Direction): (k: nat)
    requires |rows| > 0
    requires forall i :: 0 <= i < |rows| ==> rows[i].x.Some? && rows[i].y.Some? && rows[i].diameter.Some?
    ensures k < |rows|
    ensures forall j :: 0 <= j < |rows| ==> AtLeastAsFar(dir, rows[k], rows[j])
  {
    if |rows| == 1 then 0
    else
      var k := ExtremeIndex(rows[..|rows| - 1], dir);
      if AtLeastAsFar(dir, rows[k], rows[|rows| - 1]) then k else |rows| - 1
  }

  /** `order(<edge expression>).pick(:x, :y)`: the position of a row reaching
      furthest in the direction, or nothing for no rows. */
  function Pick(rows: seq<CircleRecord>, dir: Direction): (p: Option<(real, real)>)
    requires forall i :: 0 <= i < |rows| ==> rows[i].x.Some? && rows[i].y.Some? && rows[i].diameter.Some?
    ensures p.None? <==> rows == []
    ensures p.Some? ==>
      exists i :: 0 <= i < |rows| && p.value == (rows[i].x.value, rows[i].y.value) &&
        (forall j :: 0 <= j < |rows| ==> AtLeastAsFar(dir, rows[i], rows[j]))
  {
    if rows == [] then None
    else
      var k := ExtremeIndex(rows, dir);
      Some((rows[k].x.value, rows[k].y.value))
  }

  /** Circle.topmost: the position of a circle whose top `y + d/2` is
      highest; any one of several tied circles may be chosen. */
  function Topmost(rows: seq<CircleRecord>): (p: Option<(real, real)>)
    requires forall i :: 0 <= i < |rows| ==> rows[i].x.Some? && rows[i].y.Some? && rows[i].diameter.Some?
    ensures p.None? <==> rows == []
    ensures p.Some? ==>
      exists i :: 0 <= i < |rows| && p.value == (rows[i].x.value, rows[i].y.value) &&
        (forall j :: 0 <= j < |rows| ==>
          rows[j].y.value + rows[j].diameter.value / 2.0 <= rows[i].y.value + rows[i].diameter.value / 2.0)
  {
    Pick(rows, Top)
  }

  /** Circle.bottommost: the position of a circle whose bottom `y - d/2` is
      lowest. */
  function Bottommost(rows: seq<CircleRecord>): (p: Option<(real, real)>)
    requires forall i :: 0 <= i < |rows| ==> rows[i].x.Some? && rows[i].y.Some? && rows[i].diameter.Some?
    ensures p.None? <==> rows == []
    ensures p.Some? ==>
      exists i :: 0 <= i < |rows| && p.value == (rows[i].x.value, rows[i].y.value) &&
        (forall j :: 0 <= j < |rows| ==>
          rows[i].y.value - rows[i].diameter.value / 2.0 <= rows[j].y.value - rows[j].diameter.value / 2.0)
  {
    Pick(rows, Bottom)
  }

  /** Circle.leftmost: the position of a circle whose left `x - d/2` is
      smallest. */
  function Leftmost(rows: seq<CircleRecord>): (p: Option<(real, real)>)
    requires forall i :: 0 <= i < |rows| ==> rows[i].x.Some? && rows[i].y.Some? && rows[i].diameter.Some?
    ensures p.None? <==> rows == []
    ensures p.Some? ==>
      exists i :: 0 <= i < |rows| && p.value == (rows[i].x.value, rows[i].y.value) &&
        (forall j :: 0 <= j < |rows| ==>
          rows[i].x.value - rows[i].diameter.value / 2.0 <= rows[j].x.value - rows[j].diameter.value / 2.0)
  {
    Pick(rows, Left)
  }

  /** Circle.rightmost: the position of a circle whose right `x + d/2` is
      largest. */
  function Rightmost(rows: seq<CircleRecord>): (p: Option<(real, real)>)
    requires forall i :: 0 <= i < |rows| ==> rows[i].x.Some? && rows[i].y.Some? && rows[i].diameter.Some?
    ensures p.None? <==> rows == []
    ensures p.Some? ==>
      exists i :: 0 <= i < |rows| && p.value == (rows[i].x.value, rows[i].y.value) &&
        (forall j :: 0 <= j < |rows| ==>
          rows[j].x.value + rows[j].diameter.value / 2.0 <= rows[i].x.value + rows[i].diameter.value / 2.0)
  {
    Pick(rows, Right)
  }

  /** The ranking is by edge, not by centre: a lower circle with a larger
      radius that reaches higher is the topmost, and it is the bottommost
      too when it also reaches lower. */
  lemma ExtremalByEdgeExample()
    ensures var rows := [CircleRecord(Some(1), Some(1), Some(0.0), Some(10.0), Some(2.0)),
                         CircleRecord(Some(2), Some(1), Some(0.0), Some(9.0), Some(6.0))];
      Topmost(rows) == Some((0.0, 9.0)) && Bottommost(rows) == Some((0.0, 9.0))
  {
  }
}
