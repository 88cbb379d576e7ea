# GreenGraphConnected: the connection and merge engine, in Dafny

The pipeline joins a road (car) graph and a public-transport (PT) graph into
one multimodal routing graph. This project models its core steps and proves
properties about them:

- **Train-station identification** (`TrainStations`). A station is an endpoint
  of a rail edge. Each station becomes a record with a name and coordinates,
  and the records are sorted by name.
- **PT-to-PT walking connections** (`PtToPt`). The builder first removes its own
  old transfer edges. It then links every pair of nearby PT stops with walking
  edges in both directions, counts what it did, and tallies the transfers by
  mode.
- **Car-to-PT connections** (`CarToPt`). The connector indexes the road nodes
  with coordinates. For each station it picks the first road node at the
  smallest exact distance within the walking budget, and records one
  connection.
- **The merge** (`Merge`) builds the combined `DiGraph`:
  - the PT network;
  - the reverses missing for PT walking transfers and for tram, bus and train
    edges;
  - the car network;
  - one road-to-station edge per connection record;

  and then tallies the result's edges by mode.
- **Debugging tools** (`FilterModes`, `VerifyGraph`):
  - the mode filter (node compatibility by id prefix, the filtered undirected
    graph, the nearest candidate nodes);
  - the integrity report (nodes missing coordinates, edges missing a
    distance or mode, mode and edge-type counters).

Shared modules:

- `Graphs` holds the networkx `DiGraph` as a value: node order, node
  dictionaries, edge dictionaries. Its helpers are `add_node`, `add_edge`,
  `remove_edge` and `dict.update`.
- `Ordering` holds Python's string order and `sorted([a, b])`.
- `Sorting` holds a stable sort by key.
- `Histograms` holds counting dictionaries as multisets.
- `Spatial` holds the geodesic distance and KD-tree radius query, as oracles.
- `Config` holds the constants of config_integration.py.

The steps that change state step by step are classes and methods with loop
invariants. Each method is proved to compute a specification function, and
lemmas state what that function guarantees.

Two behaviours of the code shape the model:

- The merged graph is a plain `DiGraph` (graph_integration/merge_graphs.py:59).
  So re-adding an edge updates its dictionary and never creates a parallel
  edge.
- The skip check of the PT builder (connections/pt_to_pt.py:152) tests only
  the visited direction. An existing one-way edge in the other direction can
  therefore be overwritten (`PtToPt.OneWayOverwrite`).

## Model

| member | source | states |
|---|---|---|
| `Graphs.Merged` | graph_integration/merge_graphs.py:76 | `data.update(attrs)` on an edge dictionary: the new keys win, old keys not overwritten survive, and nothing else appears |
| `Graphs.AddNode` | graph_integration/merge_graphs.py:63 | `add_node(n, **attrs)`: a new node goes at the end of the order with `attrs`; an existing node's dictionary is updated; nothing else changes |
| `Graphs.AddEdge` | graph_integration/merge_graphs.py:130-139 | `add_edge(u, v, **attrs)`: missing endpoints are created; the edge's dictionary is its old one (if any) updated with `attrs`; no other edge changes |
| `Graphs.RemoveEdge` | connections/pt_to_pt.py:49-50 | `remove_edge(u, v)` removes exactly that edge and keeps the nodes |
| `Ordering.SortedPair` | connections/pt_to_pt.py:161 | `tuple(sorted([a, b]))` is one of the two orientations and is in string order |
| `Ordering.SortedPairSymmetric` | connections/pt_to_pt.py:161 | both orientations of a pair have the same sorted form |
| `Sorting.SortBySorted` | stops/identify_train_stations.py:120 | the stable sort orders its result by key |
| `Sorting.SortByPermutes` | stops/identify_train_stations.py:120 | the sort is a permutation of its input |
| `Sorting.SortByStable` | stops/identify_train_stations.py:120 | elements with equal keys keep their relative order |
| `Histograms.Tally` | debugging/verify_graph.py:25-27 | a counting loop `counts[l] = counts.get(l, 0) + 1` counts each label once per entry carrying it, and the counts sum to the number of entries |
| `TrainStations.IdentifyTrainStations` | stops/identify_train_stations.py:50-62 | the result is exactly the endpoints of the edges whose route_type is 1 or 2 or whose mode is 'train'; train_edges_found is the number of such edges |
| `TrainStations.EndsAll` | stops/identify_train_stations.py:59-61 | a node is collected exactly when it is the source or target of a rail edge |
| `TrainStations.SortedStations` | stops/identify_train_stations.py:120 | sorting by name gives name order and keeps the records: same members, same length (the sort is only reached with names of one kind, where `ValueLe` is Python's `<=`) |
| `TrainStations.ExtractNode` | stops/identify_train_stations.py:85-109 | one iteration keeps the extraction invariant: each visited node with coordinates is recorded once with its name and coordinates, and both counters equal the number of visited nodes missing coordinates and missing a name (the name is `StationName`: a truthy station_name, else a truthy stop_name, else the node id) |
| `TrainStations.ExtractFinish` | stops/identify_train_stations.py:85-122 | after the loop the records mix number and string names exactly when the nodes with coordinates do; otherwise the sorted records are exactly the nodes' records, all names of one kind, in name order |
| `TrainStations.ExtractStationData` | stops/identify_train_stations.py:78-122 | the sort raises TypeError exactly when a number name and a string name meet; otherwise one record per node with coordinates and no other, records plus missing_coords equal the node count, all names are of one kind, and the result is sorted by name; both counters are exact either way |
| `TrainStations.RunIdentification` | stops/identify_train_stations.py:174-192 | `main` stops with no stations exactly when no rail edge exists, ends with the sort's TypeError exactly when the stations' names mix numbers and strings, stops with no valid stations exactly when no station has coordinates, and otherwise saves a non-empty, sorted list of exactly the stations' records |
| `PtToPt.ClearTransfers` | connections/pt_to_pt.py:44-50 | the cleared graph has no walk / pt_transfer edge, keeps every other edge with its dictionary, and keeps the nodes |
| `PtToPt.ClearedGraph` | connections/pt_to_pt.py:44-50 | any graph that lost exactly the transfer edges and changed nothing else is the cleared graph |
| `PtToPt.CoordNodesOf` | connections/pt_to_pt.py:78-87 | the candidates are exactly the nodes with a 'lat' and a 'lon' key (presence, not truthiness), each with its dictionary, without duplicates |
| `PtToPt.Visit` | connections/pt_to_pt.py:137-161 | one inner-loop visit keeps the graph valid |
| `PtToPt.InsertPairEffect` | connections/pt_to_pt.py:156-161 | an insertion on a graph without u→v: u→v gets exactly the walking dictionary, v→u gets it merged over its old one, no other edge changes, the nodes stay when both ends exist, edges_added grows by 2, the sorted pair joins pairs_added, and the skip counters stay |
| `PtToPt.VisitInserts` | connections/pt_to_pt.py:138-161 | a visit of two distinct candidates within budget whose forward edge is missing has that insertion's effect: both directions carry the walking dictionary for the geodesic distance, edges_added + 2, one more pair, every other edge and both skip counters unchanged |
| `PtToPt.InsertPreserves` | connections/pt_to_pt.py:152-161 | an inserting visit keeps the scan invariant, adds exactly one pair and leaves the skip counters alone |
| `PtToPt.VisitPreserves` | connections/pt_to_pt.py:137-161 | each visit keeps the invariant and counts each non-self visit exactly once: as too far, as existing, or as a new pair |
| `PtToPt.VisitAllPreserves` | connections/pt_to_pt.py:137-161 | the inner loop keeps the invariant and accounts for every non-self visit |
| `PtToPt.ScanFromPreserves` | connections/pt_to_pt.py:131-161 | after the nested loops: the invariant holds (edges_added = 2 × pairs, every pair linked in both directions with the same walking edge within budget, every other edge an unchanged original), nodes_checked = number of candidates, and the skip counters plus the pairs equal the non-self visits |
| `PtToPt.RunSetupCandidates` | connections/pt_to_pt.py:55-63 | the candidates handed to `add_connections` are the nodes with both keys, each once, in node order |
| `PtToPt.WalkingRunNoPtNodes` | connections/pt_to_pt.py:44-60 | the run returns `no_pt_nodes` exactly when no node has both keys, and then the graph is the cleared graph: the clearing has already happened |
| `PtToPt.TwoPerPair` | connections/pt_to_pt.py:157-161 | n sorted pairs of distinct nodes give 2n directed edges |
| `PtToPt.ScanTransfers` | connections/pt_to_pt.py:156-167 | from a graph without transfer edges, the transfer edges left are exactly both directions of the pairs, and their number is edges_added |
| `PtToPt.PairsOrdered` | connections/pt_to_pt.py:161 | each pair in pairs_added is a sorted pair of distinct nodes |
| `PtToPt.TransfersArePairs` | connections/pt_to_pt.py:156-161 | every transfer edge left is one direction of a pair |
| `PtToPt.PairsAreTransfers` | connections/pt_to_pt.py:156-161 | both directions of every pair are transfer edges |
| `PtToPt.ScanOthers` | connections/pt_to_pt.py:152-158 | every non-transfer edge after the scan is an original edge with its original dictionary |
| `PtToPt.ScanSymmetric` | connections/pt_to_pt.py:156-158 | every transfer edge joins two distinct candidates and has its reverse |
| `PtToPt.WalkingRunScan` | connections/pt_to_pt.py:36-67 | a run that found candidates is the scan of those candidates over the cleared graph, returning that scan's stats |
| `PtToPt.WalkingRunSymmetric` | connections/pt_to_pt.py:156-194 | after a run every walk / pt_transfer edge joins two distinct nodes with coordinates and has a reverse with the same distance; each carries mode walk, zero emissions, distance ≤ max_walk_distance and time = distance / walking_speed; nodes and order are unchanged (the dictionary `WalkEdgeAttrs` builds) |
| `PtToPt.WalkingRunCounters` | connections/pt_to_pt.py:113-167 | the graph holds exactly edges_added transfer edges, edges_added = 2 × unique_pairs, nodes_checked = the nodes with coordinates, and each non-self visit is counted once |
| `PtToPt.WalkingRunFrame` | connections/pt_to_pt.py:36-67 | every old edge that is not a walk / pt_transfer edge survives, and every non-transfer edge afterwards is an old edge with its old dictionary |
| `PtToPt.OneWayOverwrite` | connections/pt_to_pt.py:152-158 | when only the reverse edge exists, the visit still inserts the pair, and the reverse edge becomes walk / pt_transfer, keeping the keys the walking edge does not set |
| `PtToPt.ClassifySymmetric` | connections/pt_to_pt.py:239-252 | the seven category tests treat the two endpoints alike |
| `PtToPt.KindOfRev` | connections/pt_to_pt.py:232-252 | an edge and its reverse fall in the same category |
| `PtToPt.NoModesOffGraph` | connections/pt_to_pt.py:236-237 | `node_modes.get(n, set())` for a node outside the graph is the empty set, as its modes would be |
| `PtToPt.TallyByKind` | connections/pt_to_pt.py:232-252 | with every node's modes at hand, the report counts under category c exactly the transfer edges of category c |
| `PtToPt.CountsByKind` | connections/pt_to_pt.py:221-252 | the category counts sum to the number of walk / pt_transfer edges and each is its category's size |
| `PtToPt.TransferKindsEven` | connections/pt_to_pt.py:222-252 | after a run that found candidates, every category holds an even number of transfer edges |
| `PtToPt.WalkingConnectionBuilder.constructor` | connections/pt_to_pt.py:31-34 | the builder holds the graph, the walking budget (default 300 m) and the walking speed 1.4 m/s |
| `PtToPt.WalkingConnectionBuilder.ClearTransferEdges` | connections/pt_to_pt.py:42-50 | the graph becomes the cleared graph |
| `PtToPt.WalkingConnectionBuilder.TransferEdgeList` | connections/pt_to_pt.py:44-47 | the removal list holds each walk / pt_transfer edge exactly once |
| `PtToPt.WalkingConnectionBuilder.ExtractPtNodes` | connections/pt_to_pt.py:78-87 | the loop computes the candidate list |
| `PtToPt.WalkingConnectionBuilder.BuildSpatialIndex` | connections/pt_to_pt.py:89-107 | the ids and points are stored position by position in the builder's fields; the graph is untouched (`IdsOf` and `CoordsOf`: the k-th candidate's id and `[lat, lon]`) |
| `PtToPt.WalkingConnectionBuilder.AddWalkingEdge` | connections/pt_to_pt.py:174-194 | one `add_edge` with the walking dictionary for the given distance |
| `PtToPt.WalkingConnectionBuilder.AddConnections` | connections/pt_to_pt.py:109-168 | the nested loops leave the graph and stats of the scan, with unique_pairs = the size of pairs_added |
| `PtToPt.WalkingConnectionBuilder.ScanCandidate` | connections/pt_to_pt.py:131-135 | one outer iteration counts the node and runs the inner loop over the query's indices |
| `PtToPt.WalkingConnectionBuilder.ConnectNeighbors` | connections/pt_to_pt.py:137-161 | the inner loop computes the specified visits in order |
| `PtToPt.WalkingConnectionBuilder.VisitNeighbor` | connections/pt_to_pt.py:138-161 | one visit: skip self, skip too far, skip an existing forward edge, or insert both directions |
| `PtToPt.WalkingConnectionBuilder.AddWalkingPair` | connections/pt_to_pt.py:157-158 | the two `_add_walking_edge` calls, u→v then v→u |
| `PtToPt.WalkingConnectionBuilder.CollectNodeModes` | connections/pt_to_pt.py:202-219 | `node_modes` has one entry per node, holding the services of its outgoing edges |
| `PtToPt.WalkingConnectionBuilder.ModesOfNode` | connections/pt_to_pt.py:204-217 | a node's modes: the truthy non-walk modes of its outgoing edges; otherwise a route_type read as train (1, 2), tram (0) or bus (3) |
| `PtToPt.WalkingConnectionBuilder.AnalyzeByMode` | connections/pt_to_pt.py:196-252 | each walk / pt_transfer edge is counted once, in its one category |
| `PtToPt.WalkingConnectionBuilder.AddWalkingEdges` | connections/pt_to_pt.py:36-76 | the whole run: clear, extract, stop with no_pt_nodes when there are none, index, connect, report; graph and result are `WalkingRun`'s |
| `CarToPt.RoadsOf` | connections/car_to_pt.py:63-69 | the indexed road nodes are exactly those whose lat and lon are both truthy (None and 0 excluded) |
| `CarToPt.PointsOf` | connections/car_to_pt.py:69 | index position k holds the point of road_nodes[k] |
| `CarToPt.RoadsOfNoDup` | connections/car_to_pt.py:63-68 | each road node is indexed at most once |
| `CarToPt.Closest` | connections/car_to_pt.py:102-114 | the kept road node is an indexed node within the budget |
| `CarToPt.ClosestIsFirstNearest` | connections/car_to_pt.py:102-114 | the kept candidate is within budget at the least distance among the candidates within budget, and the first to reach it (ties go to the earliest because of the strict `<`) |
| `CarToPt.ConnectStation` | connections/car_to_pt.py:87-138 | a station gets no record when the query returns nothing, no candidate is within budget, or the chosen id is falsy; otherwise its record carries the station's fields, the road node and its coordinates, distance and walk_time |
| `CarToPt.ConnectionsOf` | connections/car_to_pt.py:87-132 | there are at most as many records as stations |
| `CarToPt.ConnectionsFromStations` | connections/car_to_pt.py:87-132 | each record is the record of one of the stations |
| `CarToPt.ConnectionsWithinBudget` | connections/car_to_pt.py:112-130 | every record has distance ≤ max_distance, walk_time = distance / walking_speed, and the road node's lat and lon |
| `CarToPt.ConnectionsAppend` | connections/car_to_pt.py:87-132 | records come out in station order |
| `CarToPt.NoStationsFails` | connections/car_to_pt.py:144-146 | an empty station list raises the ValueError (`FindResult` of no records) |
| `CarToPt.CarToPtConnector.constructor` | connections/car_to_pt.py:27-30 | a new connector holds the budget and speed and no records |
| `CarToPt.CarToPtConnector.LoadGraphs` | connections/car_to_pt.py:32-53 | the connector holds the loaded car graph and stations |
| `CarToPt.CarToPtConnector.BuildSpatialIndex` | connections/car_to_pt.py:55-72 | the fields hold the truthy-coordinate road nodes and their points, position by position |
| `CarToPt.CarToPtConnector.IndexedOk` | connections/car_to_pt.py:63-72 | an index built this way is ready for queries |
| `CarToPt.CarToPtConnector.ClosestRoad` | connections/car_to_pt.py:102-114 | the inner loop computes `Closest`, and closest_road is set exactly when min_distance is finite |
| `CarToPt.CarToPtConnector.ConnectAll` | connections/car_to_pt.py:83-138 | the station loop yields the records; stations_connected = the number of records, and stations_connected + stations_too_far = the number of stations |
| `CarToPt.CarToPtConnector.ConnectOne` | connections/car_to_pt.py:88-138 | one station's pass computes its outcome |
| `CarToPt.CarToPtConnector.FindConnections` | connections/car_to_pt.py:76-148 | the records replace those of any earlier call (no accumulation), and the result is the records or the ValueError when none connected (`FindResult`) |
| `Merge.AddExistingEdge` | graph_integration/merge_graphs.py:64 | `add_edge` between existing nodes only updates that edge's dictionary |
| `Merge.AddOneNode` | graph_integration/merge_graphs.py:63 | one `add_node`: the node's dictionary is updated, it is appended when new, and edges stay |
| `Merge.NewIds` | graph_integration/merge_graphs.py:114 | the ids `add_nodes_from` appends are the source ids not already present, in source order |
| `Merge.AddNodesFrom` | graph_integration/merge_graphs.py:114 | the loop over the source nodes yields those dictionaries, keeps edges, and appends the new ids in order; `NodesFrom` gives each source node its old dictionary (or `{}`) updated with the source's, and the other nodes keep theirs |
| `Merge.AddEdgesFrom` | graph_integration/merge_graphs.py:115 | the loop over the source edges yields those dictionaries and keeps the nodes; `EdgesFrom` gives each source edge its old dictionary (or `{}`) updated with the source's, and the other edges keep theirs |
| `Merge.Reverses` | graph_integration/merge_graphs.py:70-77 | the reverses a backfill adds are those of the selected source edges whose reverse was missing |
| `Merge.Backfilled` | graph_integration/merge_graphs.py:71-88 | after a backfill each selected u→v has v→u; a synthesized reverse copies u→v's dictionary; an edge already present keeps its own |
| `Merge.BackfillReverses` | graph_integration/merge_graphs.py:71-88 | one backfill pass computes `Backfilled` and counts exactly `Reverses` |
| `Merge.BackfillAddedAreNoOps` | graph_integration/merge_graphs.py:82-88 | every reverse a pass adds already has its own reverse, both in the graph it started from and after the pass, so a later visit of it finds its reverse and adds nothing |
| `Merge.BackfillCovers` | graph_integration/merge_graphs.py:71-88 | after a pass every selected source edge has a reverse |
| `Merge.ConnEdges` | graph_integration/merge_graphs.py:123-141 | the connection loop adds every record's road→station pair and touches no other edge |
| `Merge.ConnEdgesKeep` | graph_integration/merge_graphs.py:123-141 | edges outside the records' pairs keep their dictionaries |
| `Merge.ConnAttrsTagged` | graph_integration/merge_graphs.py:130-139 | a dictionary updated with a connection's has mode walk, edge_type car_to_pt_transfer and emissions 0 |
| `Merge.ConnEdgesTagged` | graph_integration/merge_graphs.py:123-141 | every record's pair is a walking car_to_pt_transfer edge without emissions |
| `Merge.ConnEdgesLastWins` | graph_integration/merge_graphs.py:123-141 | the last record for a pair decides its distance, time and station_name |
| `Merge.ConnEdgesLast` | graph_integration/merge_graphs.py:123-141 | the last-record rule, for every record |
| `Merge.AddConnectionEdge` | graph_integration/merge_graphs.py:130-139 | one connection edge: the edge update, missing endpoints created with `{}`, and the order extended (`WithEmptyNodes`: existing nodes keep their dictionaries) |
| `Merge.AddConnectionEdges` | graph_integration/merge_graphs.py:122-141 | the loop yields `ConnEdges`, creates missing endpoints with `{}`, keeps earlier nodes in place, and connections_added = the number of records |
| `Merge.CopyGraph` | graph_integration/merge_graphs.py:59-64 | copying the PT graph into an empty DiGraph gives the PT graph, order included |
| `Merge.AddPtGraph` | graph_integration/merge_graphs.py:59-92 | the PT copy and the two backfills, with their counters |
| `Merge.AddCarGraph` | graph_integration/merge_graphs.py:113-117 | `add_nodes_from` then `add_edges_from` with the car graph |
| `Merge.CreateCombinedGraph` | graph_integration/merge_graphs.py:51-145 | the result is valid, its nodes are `CombinedNodes` and its edges `CombinedEdges`, the PT order followed by the new car nodes starts its order, and the counters count the walking reverses, the transport reverses and the records |
| `Merge.CombinedNodeAttrs` | graph_integration/merge_graphs.py:63-139 | the result's nodes are the PT nodes, the car nodes and the records' endpoints; a car node has its PT dictionary (if any) updated with its car one; a PT-only node keeps its own; other endpoints have `{}` |
| `Merge.TransportBackfillEdges` | graph_integration/merge_graphs.py:71-88 | after both backfills the edges are the PT edges plus the reverses of the selected ones |
| `Merge.CombinedEdgeSet` | graph_integration/merge_graphs.py:63-141 | the result's edges are PT edges, car edges, record pairs and reverses of PT walking or transport edges; no car or connection edge gets a synthesized reverse |
| `Merge.CombinedReversible` | graph_integration/merge_graphs.py:68-88 | every PT walking transfer and every PT tram, bus or train edge has a reverse in the result |
| `Merge.CombinedPtAttrs` | graph_integration/merge_graphs.py:63-88 | a PT edge not overwritten later keeps its dictionary, and a synthesized reverse has the dictionary of the edge it reverses |
| `Merge.CombinedConnections` | graph_integration/merge_graphs.py:119-141 | each record's pair is tagged walk / car_to_pt_transfer / emissions 0 in the result, and the last record for a pair gives its distance, time and station name |
| `Merge.EdgeModeCounts` | graph_integration/merge_graphs.py:159-162 | one count per edge under its mode or 'unknown', summing to the edge count |
| `FilterModes.PrefixesExclusive` | debugging/filter_modes.py:30-39 | no id carries two of the prefixes road_, train_, tram_, bus_, pt_ |
| `FilterModes.CompatibleByRules` | debugging/filter_modes.py:29-44 | with a filter, a node is compatible exactly when no rule of the prefix table rejects it: road_ needs car; train_, tram_ and bus_ need their own mode; pt_ needs any of train, tram, bus, walk; other ids always pass (`IsNodeCompatible` with a filter) |
| `FilterModes.CompatibleMonotone` | debugging/filter_modes.py:29-44 | enabling more modes never rejects a compatible node |
| `FilterModes.AllModesAdmitEveryNode` | debugging/filter_modes.py:29-44 | with car, train, tram and bus enabled every node is compatible |
| `FilterModes.WalkOnlyAdmitsPtNodes` | debugging/filter_modes.py:30-41 | walking alone admits the pt_ nodes and rejects road_, train_, tram_ and bus_ nodes |
| `FilterModes.KeepIds` | debugging/filter_modes.py:56-58 | the filtered node order holds exactly the compatible ids |
| `FilterModes.CollapseStep` | debugging/filter_modes.py:71-75 | adding one more kept directed edge to the undirected graph keeps the collapse description |
| `FilterModes.AddCompatibleNodes` | debugging/filter_modes.py:56-58 | the node loop keeps exactly the compatible nodes with their dictionaries, in graph order |
| `FilterModes.AddEnabledEdges` | debugging/filter_modes.py:71-75 | the edge loop adds each edge whose ends were kept and whose mode (missing read as '') is enabled, keyed by its unordered pair |
| `FilterModes.AddNextEnabledEdge` | debugging/filter_modes.py:72-75 | one iteration of the edge loop |
| `FilterModes.FilterGraphByModes` | debugging/filter_modes.py:49-77 | the result is an undirected graph: exactly the compatible nodes with their data; an edge for every kept directed edge and no other; two opposite kept edges collapse into one whose data is one updated with the other |
| `FilterModes.FilteredModesEnabled` | debugging/filter_modes.py:71-75 | every edge of the filtered graph carries an enabled mode |
| `FilterModes.FilteredEndsKept` | debugging/filter_modes.py:72 | both ends of every filtered edge are compatible nodes |
| `FilterModes.EdgeKeptMonotone` | debugging/filter_modes.py:72-74 | enabling more modes keeps every edge that was kept |
| `FilterModes.EligibleFails` | debugging/filter_modes.py:149-153 | the search raises exactly when a node with both keys has a non-numeric lat or lon |
| `FilterModes.EligibleMembers` | debugging/filter_modes.py:149-157 | the collected candidates are exactly the nodes with numeric coordinates, within max_distance_km and compatible, each with its distance |
| `FilterModes.PyTake` | debugging/filter_modes.py:159 | `s[:k]` keeps min(k, len) elements, or len + k for a negative k |
| `FilterModes.FindCandidateNodes` | debugging/filter_modes.py:145-159 | the loop and the final sort and slice compute `Candidates` |
| `FilterModes.FailureSticks` | debugging/filter_modes.py:149-153 | once a node raises, the search ends with that node's error |
| `FilterModes.CandidatesSorted` | debugging/filter_modes.py:159 | the returned candidates are in ascending distance |
| `FilterModes.CandidatesSound` | debugging/filter_modes.py:145-159 | every returned candidate has coordinates, lies within max_distance_km and is compatible; as many are returned as the slice keeps |
| `FilterModes.CandidatesClosest` | debugging/filter_modes.py:157-159 | no qualifying candidate left out is nearer than one returned |
| `VerifyGraph.MissingLatLon` | debugging/verify_graph.py:22 | missing_latlon is exactly the nodes lacking a 'lat' or a 'lon' key |
| `VerifyGraph.MissingLatLonNoDup` | debugging/verify_graph.py:22 | each such node is listed once |
| `VerifyGraph.MissingLatLonCount` | debugging/verify_graph.py:22-33 | the logged count is the number of nodes lacking a coordinate key |
| `VerifyGraph.VerifyNodes` | debugging/verify_graph.py:20-35 | the missing list, and mode_types: one count per node under its mode or 'unknown', summing to the node count |
| `VerifyGraph.MissingCountedAsDefault` | debugging/verify_graph.py:39-50 | every edge missing the key is counted under the default label, and exactly those are when no edge carries the default as a real value |
| `VerifyGraph.VerifyEdges` | debugging/verify_graph.py:37-61 | missing_distance and missing_mode are exactly the edges lacking those keys; mode_counts ('unknown' default) and edge_types ('standard' default) each count every edge once, summing to the edge count (`MissingKey`) |

## Left out

- The search radius in degrees for the PT builder (connections/pt_to_pt.py:124-127) uses a numpy mean and a cosine. It is a parameter.
- The car connector's radius `max_distance / 111320` is modelled exactly.
- scipy's KDTree and `query_ball_point` are oracles: a function parameter returning positions into the indexed points. geopy's `geodesic` is also an oracle. Neither is modelled.
- PtToPt.WalkingConnectionBuilder.AddWalkingEdges and CarToPt.CarToPtConnector.BuildSpatialIndex: the geodesic distance and the KD-tree query are total oracles. A PT node admitted on key presence (connections/pt_to_pt.py:82) with a None or non-numeric coordinate, or a road node admitted on truthy coordinates (connections/car_to_pt.py:67-68) with a non-numeric one, makes `np.array`, `KDTree` or `geodesic` raise in the source. In the model it gets a distance from the oracle and the run goes on. When no road node has both coordinates truthy, `KDTree(np.array([]))` (connections/car_to_pt.py:71-72) raises ValueError in `build_spatial_index`; in the model the index is empty and `find_connections` fails later with "No connections found".
- The haversine distance of debugging/filter_modes.py:131-143 is an oracle parameter, because it is floating-point trigonometry.
- Floating-point arithmetic is modelled as exact real arithmetic.
- The display attributes `walk_distance_m` and `walk_time_min` come from `round()`. They are not part of the walking edge dictionary.
- `np.array` conversions are modelled as sequences of `Point`.
- Logging and printing are left out: every message, the progress lines, the station-count warnings (5 and 50) and the "Examples" line of the report.
- File I/O is left out: pickle and JSON loading and saving, `generate_report`, and every `main`, apart from the two early exits of the station script. Loaded data are parameters.
- The debug bidirectionality count at graph_integration/merge_graphs.py:94-110 only logs, so it is left out.
- The networkx algorithms are left out: `check_connectivity` in debugging/verify_graph.py, shortest paths and component counts. They are not graph construction.
- The multigraph branch of `filter_graph_by_modes` (debugging/filter_modes.py:63-68) is left out. The combined graph it filters is a plain `DiGraph`.
- The import-time test code of debugging/filter_modes.py is left out.
- `filter_graph_by_modes` is modelled with a list of modes only. With `None`, its mode test would raise.
- FilterModes.FilterGraphByModes: when both directions of a pair are kept, the contract does not fix which one's data is applied last. It allows either, because networkx's adjacency iteration order is not modelled and the edges form a map.
- Merge.CreateCombinedGraph: the order is stated as an extension of the PT order followed by the new car nodes. The exact order of the endpoints that the connection edges append is not stated.
- Merge.BackfillReverses: the transport pass iterates over the graph while adding to it. The model iterates over a snapshot of the edges present at its start, and no model of the live iteration exists. `Merge.BackfillAddedAreNoOps` justifies the snapshot: the pass adds no node, and it only adds edges whose reverse is already there, so the live iteration raises no error and each added edge it visits is a no-op.
- TrainStations.ExtractStationData: whether the sort raises is decided by whether the names mix numbers and strings. The comparisons Python's sort makes are not modelled.
- TrainStations.ExtractStationData: the station set is visited in an unspecified order. So the contract fixes the records and their name order, but not the relative order of records with equal names.
- VerifyGraph.VerifyEdges: the missing-edge lists are modelled as sets of edges. The graph has one entry per edge, so their lengths agree with the lists'.
- Python `int` and `float` values are both `Num(real)`. Python treats 1 and 1.0 as equal, and the model does the same.
