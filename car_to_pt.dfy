/**
 * The car-to-PT connector (connections/car_to_pt.py).
 *
 * Every road node whose lat and lon are both truthy is indexed. For each
 * train station, the connector asks the radius query for nearby road nodes and keeps
 * the first one at the smallest exact distance within the walking budget.
 * It records one connection per station it could connect, and counts the
 * others as too far. A run that connects no station is an error.
 */
module CarToPt {
  import opened Graphs
  import opened Config
  import opened Spatial
  import opened TrainStations

  /** One record of the connections file. */
  datatype Connection = Connection(stationId: NodeId, stationName: Value, stationLat: Value, stationLon: Value,
                                   roadNode: NodeId, roadLat: Value, roadLon: Value, distance: real, walkTime: real)

  /** The coordinate test of the index: `if lat and lon`, so None and 0 both fail it. */
  predicate HasTruthyCoords(a: Attrs)
  {
    Truthy(Get(a, "lat")) && Truthy(Get(a, "lon"))
  }

  /** The indexed road nodes among `ids`, in order. */
  function RoadsOf(nodes: map<NodeId, Attrs>, ids: seq<NodeId>): (r: seq<NodeId>)
    requires forall n :: n in ids ==> n in nodes
    ensures forall n :: n in r <==> n in ids && HasTruthyCoords(nodes[n])
    ensures |r| <= |ids|
    decreases |ids|
  {
    if ids == [] then []
    else
      var front := RoadsOf(nodes, ids[..|ids| - 1]);
      var n := ids[|ids| - 1];
      assert forall m :: m in ids <==> m in ids[..|ids| - 1] || m == n by {
        assert ids == ids[..|ids| - 1] + [n];
      }
      if HasTruthyCoords(nodes[n]) then front + [n] else front
  }

  lemma RoadsOfStep(nodes: map<NodeId, Attrs>, ids: seq<NodeId>, k: nat)
    requires k < |ids| && forall n :: n in ids ==> n in nodes
    ensures RoadsOf(nodes, ids[..k + 1])
         == RoadsOf(nodes, ids[..k]) + if HasTruthyCoords(nodes[ids[k]]) then [ids[k]] else []
  {
    assert ids[..k + 1][..k] == ids[..k];
  }

  /** The point the index stores for a road node: `[lat, lon]`. */
  function PointOf(a: Attrs): Point
  {
    Point(Get(a, "lat"), Get(a, "lon"))
  }

  /** Index position k holds the point of road_nodes[k]. */
  function PointsOf(nodes: map<NodeId, Attrs>, roads: seq<NodeId>): (pts: seq<Point>)
    requires forall n :: n in roads ==> n in nodes
    ensures |pts| == |roads|
    ensures forall k :: 0 <= k < |roads| ==> pts[k] == PointOf(nodes[roads[k]])
    decreases |roads|
  {
    if roads == [] then []
    else PointsOf(nodes, roads[..|roads| - 1]) + [PointOf(nodes[roads[|roads| - 1]])]
  }

  lemma {:induction false} RoadsOfNoDup(nodes: map<NodeId, Attrs>, ids: seq<NodeId>)
    requires NoDup(ids) && forall n :: n in ids ==> n in nodes
    ensures NoDup(RoadsOf(nodes, ids))
  {
    if ids != [] {
      var front := ids[..|ids| - 1];
      var n := ids[|ids| - 1];
      assert NoDup(front) && n !in front;
      RoadsOfNoDup(nodes, front);
      if HasTruthyCoords(nodes[n]) {
        NoDupAppend(RoadsOf(nodes, front), n);
      }
    }
  }

  /** What `find_connections` works with: the indexed car graph, the budget and the oracles. */
  datatype Index = Index(graph: Graph, roads: seq<NodeId>, coords: seq<Point>, maxDistance: real, speed: real,
                         geodesic: Geodesic, query: BallQuery)
  {
    ghost predicate Ok()
    {
      && |roads| == |coords| && InRange(query) && speed != 0.0
      && forall n :: n in roads ==> n in graph.nodes && "lat" in graph.nodes[n] && "lon" in graph.nodes[n]
    }

    /** The exact distance from a station to index position k. */
    function Dist(at: Point, k: nat): real
      requires Ok() && k < |coords|
    {
      geodesic(at, coords[k])
    }

    /** `max_distance / 111320`: the search radius in degrees. */
    function Radius(): real
    {
      maxDistance / MetresPerDegree
    }

    /** `road_tree.query_ball_point(station_coord, search_radius_deg)`. */
    function Nearby(at: Point): (js: seq<nat>)
      requires Ok()
      ensures forall k :: 0 <= k < |js| ==> js[k] < |roads|
    {
      query(coords, at, Radius())
    }
  }

  /**
   * The inner loop over the query results `js`: the road node and distance
   * it keeps (None while `closest_road` is None and `min_distance` is
   * infinite). A candidate replaces the current one only when it is
   * strictly closer and within the budget.
   */
  function Closest(ix: Index, at: Point, js: seq<nat>): (r: Option<(NodeId, real)>)
    requires ix.Ok() && forall k :: 0 <= k < |js| ==> js[k] < |ix.roads|
    ensures r.Some? ==> r.value.0 in ix.roads && r.value.1 <= ix.maxDistance
    decreases |js|
  {
    if js == [] then None
    else
      var best := Closest(ix, at, js[..|js| - 1]);
      var j := js[|js| - 1];
      var d := ix.Dist(at, j);
      if (best.None? || d < best.value.1) && d <= ix.maxDistance then Some((ix.roads[j], d)) else best
  }

  /** Closest keeps a candidate within budget at the least distance, the first one reaching it. */
  ghost predicate FirstNearest(ix: Index, at: Point, js: seq<nat>, r: Option<(NodeId, real)>)
    requires ix.Ok() && forall k :: 0 <= k < |js| ==> js[k] < |ix.roads|
  {
    match r
    case None => forall k :: 0 <= k < |js| ==> ix.Dist(at, js[k]) > ix.maxDistance
    case Some(best) =>
      && (forall k :: 0 <= k < |js| && ix.Dist(at, js[k]) <= ix.maxDistance ==> best.1 <= ix.Dist(at, js[k]))
      && exists k :: && 0 <= k < |js| && ix.roads[js[k]] == best.0 && ix.Dist(at, js[k]) == best.1
                     && best.1 <= ix.maxDistance
                     && forall m :: 0 <= m < k ==> ix.Dist(at, js[m]) > best.1 || ix.Dist(at, js[m]) > ix.maxDistance
  }

  lemma {:induction false} ClosestIsFirstNearest(ix: Index, at: Point, js: seq<nat>)
    requires ix.Ok() && forall k :: 0 <= k < |js| ==> js[k] < |ix.roads|
    ensures FirstNearest(ix, at, js, Closest(ix, at, js))
    decreases |js|
  {
    if js != [] {
      var front := js[..|js| - 1];
      var j := js[|js| - 1];
      ClosestIsFirstNearest(ix, at, front);
      var best := Closest(ix, at, front);
      var d := ix.Dist(at, j);
      assert forall k :: 0 <= k < |front| ==> js[k] == front[k];
      if (best.None? || d < best.value.1) && d <= ix.maxDistance {
        assert ix.roads[js[|js| - 1]] == ix.roads[j];
      } else if best.Some? {
        var k :| && 0 <= k < |front| && ix.roads[front[k]] == best.value.0 && ix.Dist(at, front[k]) == best.value.1
                 && best.value.1 <= ix.maxDistance
                 && forall m :: 0 <= m < k ==> ix.Dist(at, front[m]) > best.value.1 || ix.Dist(at, front[m]) > ix.maxDistance;
        assert js[k] == front[k];
        assert forall m :: 0 <= m < k ==> js[m] == front[m];
      }
    }
  }

  /**
   * The outcome for one station: no record when the query returns nothing,
   * when no candidate is within budget, or when the chosen id is falsy (the
   * empty string); otherwise the record, with the road node's coordinates.
   */
  function ConnectStation(ix: Index, st: Station): (c: Option<Connection>)
    requires ix.Ok()
    ensures c.Some? ==> && c.value.stationId == st.id && c.value.stationName == st.name
                        && c.value.stationLat == st.lat && c.value.stationLon == st.lon
                        && c.value.roadNode in ix.roads && c.value.roadNode != ""
                        && c.value.roadLat == ix.graph.nodes[c.value.roadNode]["lat"]
                        && c.value.roadLon == ix.graph.nodes[c.value.roadNode]["lon"]
                        && c.value.distance <= ix.maxDistance
                        && c.value.walkTime == c.value.distance / ix.speed
  {
    var at := Point(st.lat, st.lon);
    var js := ix.Nearby(at);
    if js == [] then None
    else
      match Closest(ix, at, js)
      case None => None
      case Some((road, d)) =>
        if road == "" then None
        else
          var a := ix.graph.nodes[road];
          Some(Connection(st.id, st.name, st.lat, st.lon, road, a["lat"], a["lon"], d, d / ix.speed))
  }

  /** The records of the stations, in station order. */
  function ConnectionsOf(ix: Index, stations: seq<Station>): (cs: seq<Connection>)
    requires ix.Ok()
    ensures |cs| <= |stations|
    decreases |stations|
  {
    if stations == [] then []
    else
      var front := ConnectionsOf(ix, stations[..|stations| - 1]);
      match ConnectStation(ix, stations[|stations| - 1])
      case None => front
      case Some(c) => front + [c]
  }

  /** Each record is the record of one of the stations. */
  lemma {:induction false} ConnectionsFromStations(ix: Index, stations: seq<Station>)
    requires ix.Ok()
    ensures forall c :: c in ConnectionsOf(ix, stations) ==>
              exists st :: st in stations && ConnectStation(ix, st) == Some(c)
    decreases |stations|
  {
    if stations != [] {
      var front := stations[..|stations| - 1];
      ConnectionsFromStations(ix, front);
      var last := stations[|stations| - 1];
      forall c | c in ConnectionsOf(ix, stations)
        ensures exists st :: st in stations && ConnectStation(ix, st) == Some(c)
      {
        if c in ConnectionsOf(ix, front) {
          var st :| st in front && ConnectStation(ix, st) == Some(c);
          assert st in stations;
        } else {
          assert ConnectStation(ix, last) == Some(c);
        }
      }
    }
  }

  /**
   * Record properties: the distance is within budget, the walking time is
   * distance / walking speed, and the road coordinates are the car node's.
   */
  lemma ConnectionsWithinBudget(ix: Index, stations: seq<Station>)
    requires ix.Ok()
    ensures forall c :: c in ConnectionsOf(ix, stations) ==>
              && c.distance <= ix.maxDistance && c.walkTime == c.distance / ix.speed
              && c.roadNode in ix.roads && c.roadNode in ix.graph.nodes
              && c.roadLat == ix.graph.nodes[c.roadNode]["lat"] && c.roadLon == ix.graph.nodes[c.roadNode]["lon"]
  {
    ConnectionsFromStations(ix, stations);
    forall c | c in ConnectionsOf(ix, stations)
      ensures && c.distance <= ix.maxDistance && c.walkTime == c.distance / ix.speed
              && c.roadNode in ix.roads && c.roadNode in ix.graph.nodes
              && c.roadLat == ix.graph.nodes[c.roadNode]["lat"] && c.roadLon == ix.graph.nodes[c.roadNode]["lon"]
    {
      var st :| st in stations && ConnectStation(ix, st) == Some(c);
    }
  }

  /** Records come out in station order: the stations of a concatenation give the concatenated records. */
  lemma {:induction false} ConnectionsAppend(ix: Index, a: seq<Station>, b: seq<Station>)
    requires ix.Ok()
    ensures ConnectionsOf(ix, a + b) == ConnectionsOf(ix, a) + ConnectionsOf(ix, b)
    decreases |b|
  {
    if b == [] {
      assert a + b == a;
    } else {
      var b' := b[..|b| - 1];
      ConnectionsAppend(ix, a, b');
      assert (a + b)[..|a + b| - 1] == a + b';
      assert (a + b)[|a + b| - 1] == b[|b| - 1];
    }
  }

  /** What `find_connections` ends with: the records, or the ValueError. */
  function FindResult(cs: seq<Connection>): (r: Result<seq<Connection>, string>)
  {
    if |cs| == 0 then Failure("No connections found") else Success(cs)
  }

  /** Without stations nothing connects, so the run fails. */
  lemma NoStationsFails(ix: Index)
    requires ix.Ok()
    ensures FindResult(ConnectionsOf(ix, [])).Failure?
  {
  }

  /** `CarToPTConnector`: the car graph and stations it loaded, the index it built and its records. */
  class CarToPtConnector {
    const maxDistance: real
    const walkingSpeed: real
    var carGraph: Graph
    var trainStations: seq<Station>
    var roadNodes: seq<NodeId>
    var roadCoords: seq<Point>
    var connections: seq<Connection>

    ghost predicate Valid()
      reads this
    {
      carGraph.Valid() && walkingSpeed != 0.0
    }

    /** The index was built over the current car graph. */
    ghost predicate Indexed()
      reads this
      requires Valid()
    {
      roadNodes == RoadsOf(carGraph.nodes, carGraph.order) && roadCoords == PointsOf(carGraph.nodes, roadNodes)
    }

    function IndexWith(geodesic: Geodesic, query: BallQuery): Index
      reads this
    {
      Index(carGraph, roadNodes, roadCoords, maxDistance, walkingSpeed, geodesic, query)
    }

    constructor (maxDistance: real := MaxWalkingDistanceM)
      ensures Valid() && this.maxDistance == maxDistance && walkingSpeed == WalkingSpeed && connections == []
    {
      this.maxDistance := maxDistance;
      walkingSpeed := WalkingSpeed;
      carGraph := EmptyGraph;
      trainStations := [];
      roadNodes := [];
      roadCoords := [];
      connections := [];
    }

    /** `load_graphs`, with the contents of the two files as parameters. */
    method LoadGraphs(gCar: Graph, stations: seq<Station>)
      requires gCar.Valid() && Valid()
      modifies this`carGraph, this`trainStations
      ensures Valid() && carGraph == gCar && trainStations == stations
    {
      carGraph := gCar;
      trainStations := stations;
    }

    /** `build_spatial_index`, without the tree: the road nodes with truthy coordinates and their points. */
    method BuildSpatialIndex()
      requires Valid()
      modifies this`roadNodes, this`roadCoords
      ensures Valid() && Indexed()
    {
      var g := carGraph;
      var nodes: seq<NodeId> := [];
      var coords: seq<Point> := [];
      for k := 0 to |g.order|
        invariant nodes == RoadsOf(g.nodes, g.order[..k])
        invariant coords == PointsOf(g.nodes, nodes)
      {
        var n := g.order[k];
        RoadsOfStep(g.nodes, g.order, k);
        var data := g.nodes[n];
        var lat := Get(data, "lat");
        var lon := Get(data, "lon");
        if Truthy(lat) && Truthy(lon) {
          assert (nodes + [n])[..|nodes|] == nodes;
          nodes := nodes + [n];
          coords := coords + [Point(lat, lon)];
        }
      }
      assert g.order[..|g.order|] == g.order;
      roadNodes := nodes;
      roadCoords := coords;
    }

    /** The index is ready for queries: sizes agree and every road node has a 'lat' and a 'lon'. */
    lemma IndexedOk(geodesic: Geodesic, query: BallQuery)
      requires Valid() && Indexed() && InRange(query)
      ensures IndexWith(geodesic, query).Ok()
    {
    }

    /** The inner loop of `find_connections` for one station. */
    method ClosestRoad(at: Point, indices: seq<nat>, geodesic: Geodesic, ghost query: BallQuery)
      returns (closestRoad: Option<NodeId>, minDistance: Option<real>)
      requires IndexWith(geodesic, query).Ok()
      requires forall k :: 0 <= k < |indices| ==> indices[k] < |roadNodes|
      ensures Closest(IndexWith(geodesic, query), at, indices)
           == if closestRoad.Some? && minDistance.Some? then Some((closestRoad.value, minDistance.value)) else None
      ensures closestRoad.Some? <==> minDistance.Some?
    {
      ghost var ix := IndexWith(geodesic, query);
      closestRoad, minDistance := None, None;
      for k := 0 to |indices|
        invariant closestRoad.Some? <==> minDistance.Some?
        invariant Closest(ix, at, indices[..k]) == if closestRoad.Some? then Some((closestRoad.value, minDistance.value)) else None
      {
        assert indices[..k + 1][..k] == indices[..k];
        var idx := indices[k];
        var roadNodeId := roadNodes[idx];
        var roadCoord := roadCoords[idx];
        var distance := geodesic(at, roadCoord);
        if (minDistance.None? || distance < minDistance.value) && distance <= maxDistance {
          minDistance := Some(distance);
          closestRoad := Some(roadNodeId);
        }
      }
      assert indices[..|indices|] == indices;
    }

    /** The station loop of `find_connections`, with the two counters it logs. */
    method ConnectAll(geodesic: Geodesic, query: BallQuery)
      returns (found: seq<Connection>, stationsConnected: nat, stationsTooFar: nat)
      requires IndexWith(geodesic, query).Ok()
      ensures found == ConnectionsOf(IndexWith(geodesic, query), trainStations)
      ensures stationsConnected == |found| && stationsConnected + stationsTooFar == |trainStations|
    {
      ghost var ix := IndexWith(geodesic, query);
      found := [];
      stationsConnected, stationsTooFar := 0, 0;
      for k := 0 to |trainStations|
        invariant found == ConnectionsOf(ix, trainStations[..k])
        invariant stationsConnected == |found| && stationsConnected + stationsTooFar == k
      {
        assert trainStations[..k + 1][..k] == trainStations[..k];
        var station := trainStations[k];
        var c := ConnectOne(station, geodesic, query);
        assert c == ConnectStation(ix, station);
        if c.Some? {
          found := found + [c.value];
          stationsConnected := stationsConnected + 1;
        } else {
          stationsTooFar := stationsTooFar + 1;
        }
      }
      assert trainStations[..|trainStations|] == trainStations;
    }

    /** One pass of the station loop: the record for `station`, if any. */
    method ConnectOne(station: Station, geodesic: Geodesic, query: BallQuery) returns (c: Option<Connection>)
      requires IndexWith(geodesic, query).Ok()
      ensures c == ConnectStation(IndexWith(geodesic, query), station)
    {
      var stationCoord := Point(station.lat, station.lon);
      var searchRadiusDeg := maxDistance / MetresPerDegree;
      var indices := query(roadCoords, stationCoord, searchRadiusDeg);
      if |indices| == 0 {
        return None;
      }
      var closestRoad, minDistance := ClosestRoad(stationCoord, indices, geodesic, query);
      if closestRoad.Some? && closestRoad.value != "" {
        var walkTime := minDistance.value / walkingSpeed;
        var a := carGraph.nodes[closestRoad.value];
        c := Some(Connection(station.id, station.name, station.lat, station.lon, closestRoad.value,
                             a["lat"], a["lon"], minDistance.value, walkTime));
      } else {
        c := None;
      }
    }

    /**
     * `find_connections`: the records replace whatever an earlier call left,
     * and the call fails when no station connects.
     */
    method FindConnections(geodesic: Geodesic, query: BallQuery) returns (result: Result<seq<Connection>, string>)
      requires Valid() && Indexed() && InRange(query)
      modifies this`connections
      ensures IndexWith(geodesic, query).Ok()
      ensures connections == ConnectionsOf(IndexWith(geodesic, query), trainStations)
      ensures result == FindResult(connections)
    {
      IndexedOk(geodesic, query);
      connections := [];
      var found, stationsConnected, stationsTooFar := ConnectAll(geodesic, query);
      connections := found;
      if stationsConnected == 0 {
        return Failure("No connections found");
      }
      result := Success(connections);
    }
  }
}
