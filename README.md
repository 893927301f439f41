# Frames and circles: the geometric validation engine

This project models the geometric core of a Rails application that keeps
circles inside rectangular frames:

- the edge value objects `Values::FrameEdge` and `Values::CircleEdge`, which
  derive left, right, bottom and top from a centre and a size and let a
  missing input make the affected edges missing;
- the boundary-inclusive containment test `CircleEdge#within_frame?`;
- the `Circle` model's SQL scopes (`in_frame`, `triangulate_overlapping`,
  `within_edge`, and the `where.not(id: id)` filter), read as filters over a
  sequence of stored rows;
- the overlap verdict `overlap_with_other_circles?`, which is strict, so
  circles that touch do not overlap;
- the four extremal queries `topmost`, `bottommost`, `leftmost` and
  `rightmost`, which rank circles by edge (centre plus or minus radius);
- the two validations `within_frame_boundaries` and `no_overlapping_circles`,
  which append messages to the record's error list.

Numbers are exact `real`s, and a missing value (`nil`, SQL `NULL`) is `None`.
A square root compared with a bound, `SQRT(d2) < s`, is written as
`s > 0 && d2 < s * s` (`RootBelow`). `SQRT(d2) <= t` is written as
`t >= 0 && d2 <= t * t` (`RootAtMost`). The lemmas `RootBelowMeans` and
`RootAtMostMeans` show that each form agrees with the comparison on the
non-negative root, whatever the sign of the bound. So no condition on the
radii is needed.

Modules:

- `Wrappers`: the `Option` type.
- `FrameEdges`: models `app/models/values/frame_edge.rb`.
- `CircleEdges`: models `app/models/values/circle_edge.rb`.
- `CircleScopes`: the read-only part of `app/models/circle.rb`. It covers the row
  type, radius, position, the scopes, the overlap verdict, `within_edge` and
  the extremal queries.
- `Circles`: the validating part of `app/models/circle.rb`. It holds a class
  `Circle` with the record's attributes, its frame, the cached edge and the
  `errors` list. Its methods append to `errors` and say what else stays the same.

The store is a `seq` of `CircleRecord(id, frameId, x, y, diameter)` rows.
The scopes follow SQL's treatment of `NULL`:

- `where(frame_id: nil)` is `IS NULL`, so `InFrame` uses equality of options.
- `where.not(id: nil)` is `IS NOT NULL`, and `where.not(id: k)` never matches
  a row whose id is `NULL`. So a row is a sibling only if its id is present
  and differs from the candidate's.
- A `NULL` operand in the overlap or `within_edge` condition makes that row
  not match.

Missing inputs act per axis:

- A missing `x` makes only `left` and `right` missing, and leaves `bottom`
  and `top` defined.
- A missing `y` makes only `bottom` and `top` missing.
- A missing diameter makes all four of a circle's edges missing.
- For a frame, `x` or `width` missing affects only `left` and `right`, and
  `y` or `height` missing affects only `bottom` and `top`.

The two error messages are "Circle must be within frame boundaries" and
"Circle overlaps with existing circle(s)".

## Model

| member | source | states |
|---|---|---|
| FrameEdges.Left | app/models/values/frame_edge.rb:9-13 | left is present exactly when x and width both are |
| FrameEdges.Right | app/models/values/frame_edge.rb:15-19 | right is present exactly when x and width are; right - left == width; the centre x is the midpoint of left and right |
| FrameEdges.Bottom | app/models/values/frame_edge.rb:21-25 | bottom is present exactly when y and height both are |
| FrameEdges.Top | app/models/values/frame_edge.rb:27-31 | top is present exactly when y and height are; top - bottom == height; the centre y is the midpoint of bottom and top |
| FrameEdges.AxesIndependent | app/models/values/frame_edge.rb:9-31 | changing y or height leaves left and right unchanged, and changing x or width leaves bottom and top unchanged |
| FrameEdges.EdgesOrdered | app/models/values/frame_edge.rb:9-31 | with width >= 0, left <= right; with height >= 0, bottom <= top |
| FrameEdges.Example | spec/models/values/frame_edge_spec.rb:5-24 | the frame (10, 20) of size 4 x 6 has edges 8, 12, 17, 23 |
| CircleEdges.Radius | app/models/values/circle_edge.rb:9-13 | the radius is present exactly when the diameter is, and twice the radius is the diameter |
| CircleEdges.Left | app/models/values/circle_edge.rb:15-19 | left is present exactly when x and the diameter are |
| CircleEdges.Right | app/models/values/circle_edge.rb:21-25 | right is present exactly when x and the diameter are; right - left == diameter; x is the midpoint |
| CircleEdges.Bottom | app/models/values/circle_edge.rb:27-31 | bottom is present exactly when y and the diameter are |
| CircleEdges.Top | app/models/values/circle_edge.rb:33-37 | top is present exactly when y and the diameter are; top - bottom == diameter; y is the midpoint |
| CircleEdges.WithinFrame | app/models/values/circle_edge.rb:40-48 | containment is false whenever any of the circle's or the frame's inputs is missing; a contained circle's diameter is at most the frame's width and at most its height |
| CircleEdges.WithinFrameExactly | app/models/values/circle_edge.rb:44-47 | with all inputs present, containment holds iff x - d/2 >= fx - w/2, x + d/2 <= fx + w/2, y - d/2 >= fy - h/2 and y + d/2 <= fy + h/2, all non-strict |
| CircleEdges.SticksOut | app/models/values/circle_edge.rb:44-47 | sticking out past any one side of the frame makes containment false |
| CircleEdges.EdgeExamples | spec/models/values/circle_edge_spec.rb:16-65 | (10, 20, 4) has radius 2 and edges 8, 12, 18, 22; missing x, y or diameter leaves exactly the affected edges missing |
| CircleEdges.WithinFrameExamples | spec/models/values/circle_edge_spec.rb:68-123 | against the 8 x 8 frame at (10, 10): inside, exactly filling and touching one side are contained; sticking out on each side or lying wholly outside is not |
| CircleScopes.Radius | app/models/circle.rb:49-53 | the record's radius agrees with its edge's radius: present exactly when the diameter is, and half of it |
| CircleScopes.Position | app/models/circle.rb:45-47 | the position is exactly (x, y), each present exactly when its attribute is, and it is the centre of the circle's edge box |
| CircleScopes.SquaredDistance | app/models/circle.rb:19 | the squared centre distance is non-negative and at least the square of each coordinate difference |
| CircleScopes.RootBelowMeans | app/models/circle.rb:19 | the squared form of the overlap test agrees with `SQRT(d2) < s` for every bound s |
| CircleScopes.RootAtMostMeans | app/models/circle.rb:26 | the squared form of the within_edge test agrees with `SQRT(d2) <= t` for every bound t |
| CircleScopes.Where | app/models/circle.rb:14 | a WHERE clause keeps exactly the rows that satisfy its condition and no more rows than it was given |
| CircleScopes.InFrame | app/models/circle.rb:14 | in_frame keeps exactly the rows whose frame id equals the given one |
| CircleScopes.TriangulateOverlapping | app/models/circle.rb:18-20 | keeps exactly the rows, with every operand present, whose centre distance to (x, y) is strictly below their radius plus the given radius |
| CircleScopes.WhereNotId | app/models/circle.rb:76 | keeps exactly the rows that have an id different from the given one |
| CircleScopes.WithinEdge | app/models/circle.rb:25-27 | keeps exactly the rows whose centre distance to the edge's centre plus their radius is at most the edge's radius |
| CircleScopes.OverlapWithOtherCircles | app/models/circle.rb:73-78 | the verdict holds iff some stored row is in the same frame, has an id different from the circle's, and overlaps it |
| CircleScopes.OverlapsMeansDistance | app/models/circle.rb:18-20 | with all values present, overlap is exactly distance < r1 + r2 for the Euclidean distance |
| CircleScopes.OverlapsSymmetric | app/models/circle.rb:18-20 | overlap does not depend on which circle is the candidate |
| CircleScopes.TouchingDoesNotOverlap | app/models/circle.rb:18-20 | circles whose centres are exactly r1 + r2 apart do not overlap, in either order |
| CircleScopes.OverlapIgnoresNonSiblings | app/models/circle.rb:73-78 | adding a row from another frame, a row without an id or the circle's own row never changes the verdict |
| CircleScopes.OverlapExamples | app/models/circle.rb:18-20 | centres (45, 45) and (49, 45) with diameter 4 touch and do not overlap; (45, 45) and (47, 45) overlap |
| CircleScopes.InsideEdgeMeansDistance | app/models/circle.rb:24-26 | with all values present, within_edge selects a row exactly when the Euclidean centre distance plus its radius is at most the edge's radius |
| CircleScopes.InsideEdgeRadius | app/models/circle.rb:25-27 | a circle selected by within_edge has a radius no larger than the edge's |
| CircleScopes.InsideEdgeBox | app/models/circle.rb:25-27 | a circle selected by within_edge has its edge box inside the edge's box on all four sides |
| CircleScopes.InsideEdgeOverlaps | app/models/circle.rb:18-27 | a circle of positive size selected by within_edge is also selected by triangulate_overlapping at the edge's centre and radius |
| CircleScopes.ExtremeIndex | app/models/circle.rb:29-43 | for a non-empty set, picks an index whose edge in the direction is at least as far as every other row's |
| CircleScopes.Pick | app/models/circle.rb:29-43 | returns nothing exactly for no rows, otherwise the (x, y) of a row whose edge is at least as far as every row's |
| CircleScopes.Topmost | app/models/circle.rb:29-31 | nothing exactly for an empty set, otherwise the (x, y) of a circle whose y + d/2 is maximal; any of the tied circles is allowed |
| CircleScopes.Bottommost | app/models/circle.rb:33-35 | nothing exactly for an empty set, otherwise the (x, y) of a circle whose y - d/2 is minimal |
| CircleScopes.Leftmost | app/models/circle.rb:37-39 | nothing exactly for an empty set, otherwise the (x, y) of a circle whose x - d/2 is minimal |
| CircleScopes.Rightmost | app/models/circle.rb:41-43 | nothing exactly for an empty set, otherwise the (x, y) of a circle whose x + d/2 is maximal |
| CircleScopes.ExtremalByEdgeExample | app/models/circle.rb:29-35 | a lower circle with a larger radius that reaches higher is the topmost, not the one with the higher centre |
| Circles.BoundaryErrors | app/models/circle.rb:57-65 | without a frame, nothing; otherwise the boundary message exactly when the circle is not within the frame's edges |
| Circles.OverlapErrors | app/models/circle.rb:67-71 | the overlap message exactly when a sibling in the same frame, other than the circle, overlaps it |
| Circles.GeometricErrors | app/models/circle.rb:11-12 | exactly the boundary message when a frame is present and the circle is not within it, followed by the overlap message when the overlap verdict holds, and nothing else |
| Circles.ChecksIndependent | app/models/circle.rb:11-12 | the boundary message does not depend on the stored circles, and the overlap message does not depend on the frame |
| Circles.BothErrorsAtOnce | app/models/circle.rb:11-12 | a circle sticking out of its frame and overlapping a sibling gets both messages, in declaration order |
| Circles.Circle.Edge | app/models/circle.rb:4-6 | the edge aggregation returns the cached value object if there is one, else one built from the current x, y, diameter, and caches it |
| Circles.Circle.WithinFrameBoundaries | app/models/circle.rb:57-65 | appends exactly the boundary errors; with a frame, the cache is rebuilt from the current attributes; the attributes and frame are unchanged |
| Circles.Circle.NoOverlappingCircles | app/models/circle.rb:67-71 | appends exactly the overlap errors; the attributes, frame and cache are unchanged |
| Circles.Circle.Validate | app/models/circle.rb:11-12 | from a cleared list, the errors become exactly the geometric errors of the unchanged attributes, frame and store, so repeating the call gives the same list; with a frame the cache is rebuilt from the current attributes, without one it is kept |

## Left out

- Presence and numericality validators (app/models/circle.rb:8-10, app/models/frame.rb:5-6) are not modelled. Missing values are `None`, and no check is made that the diameter, width or height is positive. The geometric checks treat a missing value as the source does.
- The `composed_of` constructor (app/models/circle.rb:4-6) calls `CircleEdge.new` with keyword arguments, but the initializer at app/models/values/circle_edge.rb:5 takes three positional ones. In Ruby that raises an argument error. The model instead builds the edge directly from x, y and the diameter, as the mapping intends.
- `clear_aggregation_cache` is modelled only as dropping the cached edge (`edgeCache`), and `WithinFrameBoundaries` drops it unconditionally. ActiveRecord clears that cache only for persisted records, so a new record that keeps a stale cached edge is not modelled. The rest of ActiveRecord's aggregation machinery is not modelled either.
- Frame-to-frame overlap and the "can't destroy a frame with circles" gating are not modelled. Tests assert them, but app/models/frame.rb has no code for either, so there is nothing to model.
- The frame's `edge` is taken to be `FrameEdge(x, y, width, height)` (`Circles.FrameEdgeOf`). app/models/frame.rb does not show that aggregation.
- Loading the `belongs_to :frame` association is not modelled. The frame is a field of `Circle`, and nothing ties its id to `frameId`. `validates_associated` is not modelled either.
- Topmost, Bottommost, Leftmost, Rightmost: these require every row to have x, y and a diameter, as every row saved through the validations does. Where a column is `NULL`, the SQL order depends on the database, and that order is not modelled.
- The extremal queries' choice among tied circles follows an unspecified SQL order. The contracts allow any tied circle, and the functions return the first one in sequence order.
- Decimal and floating-point rounding, and `SQRT`, are replaced by exact reals and the squared comparison.
- The migration, the HTTP controllers, routes and API documentation are not modelled. They hold no geometric logic.
- Concurrency is not modelled: a concurrent insert could slip in between the overlap query and the commit.
