/**
 * The geometry the connectors rely on, as oracles: geopy's geodesic distance
 * and scipy's KDTree radius query. Neither is modelled; the steps only
 * depend on the query returning positions of the indexed points.
 */
module Spatial {
  import opened Graphs

  /** A `[lat, lon]` pair, holding whatever values the node dictionaries carry. */
  datatype Point = Point(lat: Value, lon: Value)

  /** `geodesic(a, b).meters`. */
  type Geodesic = (Point, Point) -> real

  /**
   * `KDTree(points).query_ball_point(centre, radius)`: positions, into
   * `points`, of the points within `radius` of `centre`, in some order.
   */
  type BallQuery = (seq<Point>, Point, real) -> seq<nat>

  /** Every position a query returns indexes the points it was asked about. */
  ghost predicate InRange(query: BallQuery)
  {
    forall pts, centre, radius, k :: 0 <= k < |query(pts, centre, radius)| ==> query(pts, centre, radius)[k] < |pts|
  }
}
