/** The constants of config_integration.py that the modelled steps read. */
module Config {
  import opened Graphs

  /** MAX_WALKING_DISTANCE_M, in metres. */
  const MaxWalkingDistanceM: real := 300.0

  /** WALKING_SPEED, in metres per second. */
  const WalkingSpeed: real := 1.4

  /** TRAIN_ROUTE_TYPES: the GTFS route types of rail services. */
  const TrainRouteTypes: seq<Value> := [Num(1.0), Num(2.0)]

  /** MIN_TRAIN_STATIONS_EXPECTED and MAX_TRAIN_STATIONS_EXPECTED. */
  const MinTrainStationsExpected: nat := 5
  const MaxTrainStationsExpected: nat := 50

  /** The metres-per-degree factor both connectors use to size a search radius. */
  const MetresPerDegree: real := 111320.0
}
