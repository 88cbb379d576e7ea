/**
 * Train-station identification (stops/identify_train_stations.py).
 *
 * A train station is an endpoint of a rail edge of the PT graph. Each
 * station becomes a record of the stations file, with a name taken from the
 * node's dictionary and its coordinates; nodes without coordinates are left
 * out. The records are sorted by name.
 */
module TrainStations {
  import opened Graphs
  import opened Ordering
  import opened Config
  import opened Sorting

  /** One record of the stations file. */
  datatype Station = Station(id: NodeId, name: Value, lat: Value, lon: Value, nodeType: string)

  /** A rail edge: its route_type is a rail route type, or its mode is 'train'. */
  predicate IsTrainEdge(a: Attrs)
  {
    Get(a, "route_type") in TrainRouteTypes || Get(a, "mode") == Str("train")
  }

  /** Node n is the source or the target of a rail edge of g. */
  ghost predicate OnTrainEdge(g: Graph, n: NodeId)
  {
    exists e :: e in g.edges && IsTrainEdge(g.edges[e]) && (e.0 == n || e.1 == n)
  }

  ghost function TrainEdges(g: Graph): set<Edge>
  {
    set e | e in g.edges && IsTrainEdge(g.edges[e])
  }

  /** The rail edges among `done`. */
  ghost function TrainEdgesIn(g: Graph, done: set<Edge>): set<Edge>
  {
    set e | e in done && e in g.edges && IsTrainEdge(g.edges[e])
  }

  lemma TrainEdgesStep(g: Graph, done: set<Edge>, e: Edge)
    requires e in g.edges && e !in done
    ensures |TrainEdgesIn(g, done + {e})| == |TrainEdgesIn(g, done)| + (if IsTrainEdge(g.edges[e]) then 1 else 0)
  {
    if IsTrainEdge(g.edges[e]) {
      assert TrainEdgesIn(g, done + {e}) == TrainEdgesIn(g, done) + {e};
    } else {
      assert TrainEdgesIn(g, done + {e}) == TrainEdgesIn(g, done);
    }
  }

  /** The endpoints of the rail edges among `done`. */
  ghost function EndsIn(g: Graph, done: set<Edge>): set<NodeId>
  {
    (set e | e in TrainEdgesIn(g, done) :: e.0) + (set e | e in TrainEdgesIn(g, done) :: e.1)
  }

  lemma EndsStep(g: Graph, done: set<Edge>, e: Edge)
    requires e in g.edges && e !in done
    ensures EndsIn(g, done + {e}) == EndsIn(g, done) + (if IsTrainEdge(g.edges[e]) then {e.0, e.1} else {})
  {
    if IsTrainEdge(g.edges[e]) {
      assert TrainEdgesIn(g, done + {e}) == TrainEdgesIn(g, done) + {e};
    } else {
      assert TrainEdgesIn(g, done + {e}) == TrainEdgesIn(g, done);
    }
  }

  lemma EndsAll(g: Graph, n: NodeId)
    ensures n in EndsIn(g, g.edges.Keys) <==> OnTrainEdge(g, n)
  {
    if OnTrainEdge(g, n) {
      var e :| e in g.edges && IsTrainEdge(g.edges[e]) && (e.0 == n || e.1 == n);
      assert e in TrainEdgesIn(g, g.edges.Keys);
    }
  }

  /** What the scan of `identify_train_stations` has found once `rest` is left to visit. */
  ghost predicate IdentifyInv(g: Graph, rest: set<Edge>, stations: set<NodeId>, found: nat)
  {
    && rest <= g.edges.Keys
    && stations == EndsIn(g, g.edges.Keys - rest)
    && found == |TrainEdgesIn(g, g.edges.Keys - rest)|
  }

  lemma IdentifyStep(g: Graph, rest: set<Edge>, stations: set<NodeId>, found: nat, e: Edge)
    requires IdentifyInv(g, rest, stations, found) && e in rest
    ensures IsTrainEdge(g.edges[e]) ==> IdentifyInv(g, rest - {e}, stations + {e.0, e.1}, found + 1)
    ensures !IsTrainEdge(g.edges[e]) ==> IdentifyInv(g, rest - {e}, stations, found)
  {
    var done := g.edges.Keys - rest;
    assert g.edges.Keys - (rest - {e}) == done + {e};
    TrainEdgesStep(g, done, e);
    EndsStep(g, done, e);
  }

  lemma IdentifyDone(g: Graph, stations: set<NodeId>, found: nat)
    requires g.Valid() && IdentifyInv(g, {}, stations, found)
    ensures forall n :: n in stations <==> OnTrainEdge(g, n)
    ensures stations <= g.nodes.Keys
    ensures found == |TrainEdges(g)|
  {
    assert g.edges.Keys - {} == g.edges.Keys;
    assert TrainEdgesIn(g, g.edges.Keys) == TrainEdges(g);
    forall n ensures n in stations <==> OnTrainEdge(g, n) { EndsAll(g, n); }
  }

  /**
   * `identify_train_stations`: the set of endpoints of the rail edges, and
   * the number of rail edges it logs as train_edges_found.
   */
  method IdentifyTrainStations(g: Graph) returns (stations: set<NodeId>, trainEdgesFound: nat)
    requires g.Valid()
    ensures forall n :: n in stations <==> OnTrainEdge(g, n)
    ensures stations <= g.nodes.Keys
    ensures trainEdgesFound == |TrainEdges(g)|
  {
    stations := {};
    trainEdgesFound := 0;
    var rest := g.edges.Keys;
    assert g.edges.Keys - rest == {};
    while rest != {}
      invariant IdentifyInv(g, rest, stations, trainEdgesFound)
      decreases |rest|
    {
      var e :| e in rest;
      IdentifyStep(g, rest, stations, trainEdgesFound, e);
      if IsTrainEdge(g.edges[e]) {
        stations := stations + {e.0, e.1};
        trainEdgesFound := trainEdgesFound + 1;
      }
      rest := rest - {e};
    }
    IdentifyDone(g, stations, trainEdgesFound);
  }

  /** Coordinates are present unless `get` gives None: 0.0 counts as present. */
  predicate HasCoords(a: Attrs)
  {
    Get(a, "lat") != Null && Get(a, "lon") != Null
  }

  /** `station_name or stop_name or str(node_id)`: an empty or missing name falls through. */
  function StationName(a: Attrs, id: NodeId): (name: Value)
  {
    if Truthy(Get(a, "station_name")) then Get(a, "station_name")
    else if Truthy(Get(a, "stop_name")) then Get(a, "stop_name")
    else Str(id)
  }

  /** A station name is a truthy value or the node id, so never None. */
  lemma StationNameNotNone(a: Attrs, id: NodeId)
    ensures StationName(a, id) != Null
  {
  }

  /** The record built for node n. */
  function StationOf(g: Graph, n: NodeId): Station
    requires n in g.nodes
  {
    var a := g.nodes[n];
    Station(n, StationName(a, n), Get(a, "lat"), Get(a, "lon"), "train_station")
  }

  function NameOf(s: Station): Value
  {
    s.name
  }

  ghost function MissingCoords(g: Graph, nodes: set<NodeId>): set<NodeId>
  {
    set n | n in nodes && n in g.nodes && !HasCoords(g.nodes[n])
  }

  /** The nodes with coordinates whose name fell back to the node id. */
  ghost function MissingNames(g: Graph, nodes: set<NodeId>): set<NodeId>
  {
    set n | n in nodes && n in g.nodes && HasCoords(g.nodes[n]) && StationName(g.nodes[n], n) == Str(n)
  }

  lemma MissingStep(g: Graph, done: set<NodeId>, n: NodeId)
    requires n in g.nodes && n !in done
    ensures |MissingCoords(g, done + {n})| == |MissingCoords(g, done)| + (if HasCoords(g.nodes[n]) then 0 else 1)
    ensures |MissingNames(g, done + {n})|
         == |MissingNames(g, done)| + (if HasCoords(g.nodes[n]) && StationName(g.nodes[n], n) == Str(n) then 1 else 0)
  {
    if HasCoords(g.nodes[n]) {
      assert MissingCoords(g, done + {n}) == MissingCoords(g, done);
    } else {
      assert MissingCoords(g, done + {n}) == MissingCoords(g, done) + {n};
    }
    if HasCoords(g.nodes[n]) && StationName(g.nodes[n], n) == Str(n) {
      assert MissingNames(g, done + {n}) == MissingNames(g, done) + {n};
    } else {
      assert MissingNames(g, done + {n}) == MissingNames(g, done);
    }
  }

  lemma ValueLeTotalPreorder()
    ensures TotalPreorder(ValueLe)
  {
    forall a ensures ValueLe(a, a) { ValueLeRefl(a); }
    forall a, b ensures ValueLe(a, b) || ValueLe(b, a) { ValueLeTotal(a, b); }
    forall a, b, c | ValueLe(a, b) && ValueLe(b, c) ensures ValueLe(a, c) { ValueLeTrans(a, b, c); }
  }

  /** What the loop of `extract_station_data` has built once `rest` is left to visit. */
  ghost predicate ExtractInv(g: Graph, nodes: set<NodeId>, rest: set<NodeId>, found: seq<Station>,
                             missingCoords: nat, missingNames: nat)
  {
    && rest <= nodes && (forall n :: n in nodes ==> n in g.nodes)
    && (forall n :: n in nodes - rest && HasCoords(g.nodes[n]) ==> StationOf(g, n) in found)
    && (forall k :: 0 <= k < |found| ==>
          found[k].id in nodes - rest && HasCoords(g.nodes[found[k].id]) && found[k] == StationOf(g, found[k].id))
    && |found| + missingCoords == |nodes - rest|
    && missingCoords == |MissingCoords(g, nodes - rest)| && missingNames == |MissingNames(g, nodes - rest)|
  }

  lemma ExtractSkip(g: Graph, nodes: set<NodeId>, rest: set<NodeId>, found: seq<Station>,
                    missingCoords: nat, missingNames: nat, n: NodeId)
    requires ExtractInv(g, nodes, rest, found, missingCoords, missingNames) && n in rest
    requires !HasCoords(g.nodes[n])
    ensures ExtractInv(g, nodes, rest - {n}, found, missingCoords + 1, missingNames)
  {
    assert nodes - (rest - {n}) == (nodes - rest) + {n};
    MissingStep(g, nodes - rest, n);
  }

  lemma ExtractKeep(g: Graph, nodes: set<NodeId>, rest: set<NodeId>, found: seq<Station>,
                    missingCoords: nat, missingNames: nat, n: NodeId)
    requires ExtractInv(g, nodes, rest, found, missingCoords, missingNames) && n in rest
    requires HasCoords(g.nodes[n])
    ensures ExtractInv(g, nodes, rest - {n}, found + [StationOf(g, n)], missingCoords,
                       missingNames + (if StationName(g.nodes[n], n) == Str(n) then 1 else 0))
  {
    assert nodes - (rest - {n}) == (nodes - rest) + {n};
    MissingStep(g, nodes - rest, n);
    var found' := found + [StationOf(g, n)];
    forall k | 0 <= k < |found'|
      ensures found'[k].id in nodes - (rest - {n}) && HasCoords(g.nodes[found'[k].id])
           && found'[k] == StationOf(g, found'[k].id)
    {
      if k < |found| {
        assert found'[k] == found[k];
      }
    }
  }

  /** One pass of the loop of `extract_station_data`: node n is counted or recorded. */
  method ExtractNode(g: Graph, nodes: set<NodeId>, rest: set<NodeId>, found0: seq<Station>,
                     missingCoords0: nat, missingNames0: nat, n: NodeId)
    returns (found: seq<Station>, missingCoords: nat, missingNames: nat)
    requires ExtractInv(g, nodes, rest, found0, missingCoords0, missingNames0) && n in rest
    ensures ExtractInv(g, nodes, rest - {n}, found, missingCoords, missingNames)
  {
    found, missingCoords, missingNames := found0, missingCoords0, missingNames0;
    var a := g.nodes[n];
    if Get(a, "lat") == Null || Get(a, "lon") == Null {
      ExtractSkip(g, nodes, rest, found, missingCoords, missingNames, n);
      missingCoords := missingCoords + 1;
    } else {
      ExtractKeep(g, nodes, rest, found, missingCoords, missingNames, n);
      var name := StationName(a, n);
      if name == Str(n) {
        missingNames := missingNames + 1;
      }
      found := found + [Station(n, name, Get(a, "lat"), Get(a, "lon"), "train_station")];
    }
  }

  /** A name of the asked kind: a number when `num`, a string otherwise. */
  predicate NameKind(v: Value, num: bool)
  {
    if num then v.Num? else v.Str?
  }

  /**
   * Some node among `nodes` with coordinates has a name of the asked kind.
   * A name is never None (it is truthy or the node id), so a recorded name
   * is a number or a string.
   */
  ghost predicate SomeName(g: Graph, nodes: set<NodeId>, num: bool)
  {
    exists n :: n in nodes && n in g.nodes && HasCoords(g.nodes[n]) && NameKind(StationName(g.nodes[n], n), num)
  }

  /**
   * `stations.sort(key=name)` raises TypeError: a number name and a string
   * name meet. A list holding both kinds has at least two elements, and any
   * comparison sort compares the two neighbours of the kind boundary.
   */
  ghost predicate MixedNames(g: Graph, nodes: set<NodeId>)
  {
    SomeName(g, nodes, true) && SomeName(g, nodes, false)
  }

  /** Some record has a name of the asked kind. */
  predicate SomeRecord(found: seq<Station>, num: bool)
  {
    exists k :: 0 <= k < |found| && NameKind(found[k].name, num)
  }

  /** The records hold both a number name and a string name. */
  predicate MixedRecords(found: seq<Station>)
  {
    SomeRecord(found, true) && SomeRecord(found, false)
  }

  /** When the records are those of the nodes with coordinates, they have a name kind exactly when the nodes do. */
  lemma SomeRecordOfNodes(g: Graph, nodes: set<NodeId>, found: seq<Station>, num: bool)
    requires forall n :: n in nodes ==> n in g.nodes
    requires forall n :: n in nodes && HasCoords(g.nodes[n]) ==> StationOf(g, n) in found
    requires forall k :: 0 <= k < |found| ==>
               found[k].id in nodes && HasCoords(g.nodes[found[k].id]) && found[k] == StationOf(g, found[k].id)
    ensures SomeRecord(found, num) <==> SomeName(g, nodes, num)
  {
    if SomeName(g, nodes, num) {
      var n :| n in nodes && n in g.nodes && HasCoords(g.nodes[n]) && NameKind(StationName(g.nodes[n], n), num);
      var k :| 0 <= k < |found| && found[k] == StationOf(g, n);
      assert NameKind(found[k].name, num);
    }
    if SomeRecord(found, num) {
      var k :| 0 <= k < |found| && NameKind(found[k].name, num);
      var n := found[k].id;
      assert n in nodes && HasCoords(g.nodes[n]) && NameKind(StationName(g.nodes[n], n), num);
    }
  }

  /** The records sorted by name hold the same records. */
  lemma SortedStations(found: seq<Station>)
    ensures SortedBy(SortBy(found, NameOf, ValueLe), NameOf, ValueLe)
    ensures |SortBy(found, NameOf, ValueLe)| == |found|
    ensures forall x :: x in SortBy(found, NameOf, ValueLe) <==> x in found
  {
    ValueLeTotalPreorder();
    SortBySorted(found, NameOf, ValueLe);
    SortByPermutes(found, NameOf, ValueLe);
    var stations := SortBy(found, NameOf, ValueLe);
    forall x ensures x in stations <==> x in found
    {
      assert x in stations <==> x in multiset(stations);
      assert x in found <==> x in multiset(found);
    }
  }

  /**
   * What the loop of `extract_station_data` leaves: the records mix name
   * kinds exactly when the nodes do, and otherwise sorting them keeps them,
   * all of one kind.
   */
  lemma ExtractFinish(g: Graph, nodes: set<NodeId>, found: seq<Station>, missingCoords: nat, missingNames: nat)
    requires ExtractInv(g, nodes, {}, found, missingCoords, missingNames)
    ensures MixedRecords(found) <==> MixedNames(g, nodes)
    ensures missingCoords == |MissingCoords(g, nodes)| && missingNames == |MissingNames(g, nodes)|
    ensures !MixedRecords(found) ==> var stations := SortBy(found, NameOf, ValueLe);
      && (forall n :: n in nodes && HasCoords(g.nodes[n]) ==> StationOf(g, n) in stations)
      && (forall s :: s in stations ==> s.id in nodes && HasCoords(g.nodes[s.id]) && s == StationOf(g, s.id))
      && |stations| + missingCoords == |nodes|
      && ((forall s :: s in stations ==> s.name.Str?) || (forall s :: s in stations ==> s.name.Num?))
      && SortedBy(stations, NameOf, ValueLe)
  {
    assert nodes - {} == nodes;
    SomeRecordOfNodes(g, nodes, found, true);
    SomeRecordOfNodes(g, nodes, found, false);
    SortedStations(found);
    var stations := SortBy(found, NameOf, ValueLe);
    forall s | s in stations ensures s in found && s.id in nodes && HasCoords(g.nodes[s.id]) && s == StationOf(g, s.id)
    {
      var k :| 0 <= k < |found| && found[k] == s;
    }
    if !MixedRecords(found) {
      if SomeRecord(found, true) {
        forall s | s in stations ensures s.name.Num?
        {
          var k :| 0 <= k < |found| && found[k] == s;
          assert !NameKind(found[k].name, false);
        }
      } else {
        forall s | s in stations ensures s.name.Str?
        {
          var k :| 0 <= k < |found| && found[k] == s;
          assert !NameKind(found[k].name, true);
          StationNameNotNone(g.nodes[s.id], s.id);
        }
      }
    }
  }

  /**
   * `extract_station_data`: one record per node with coordinates, the
   * counters it logs, and the records sorted by name, or the TypeError of
   * the sort when number and string names meet. Without that error all
   * names are of one kind, where `ValueLe` is Python's `<=`. The set is
   * visited in an order the model leaves open; the sort then fixes the
   * result up to the order of records with equal names.
   */
  method ExtractStationData(g: Graph, nodes: set<NodeId>)
    returns (result: Result<seq<Station>, string>, missingCoords: nat, missingNames: nat)
    requires forall n :: n in nodes ==> n in g.nodes
    ensures result.Failure? <==> MixedNames(g, nodes)
    ensures result.Failure? ==> result.error == "TypeError"
    ensures missingCoords == |MissingCoords(g, nodes)| && missingNames == |MissingNames(g, nodes)|
    ensures result.Success? ==> var stations := result.value;
      && (forall n :: n in nodes && HasCoords(g.nodes[n]) ==> StationOf(g, n) in stations)
      && (forall s :: s in stations ==> s.id in nodes && HasCoords(g.nodes[s.id]) && s == StationOf(g, s.id))
      && |stations| + missingCoords == |nodes|
      && ((forall s :: s in stations ==> s.name.Str?) || (forall s :: s in stations ==> s.name.Num?))
      && SortedBy(stations, NameOf, ValueLe)
  {
    var found: seq<Station> := [];
    missingCoords, missingNames := 0, 0;
    var rest := nodes;
    assert nodes - rest == {};
    while rest != {}
      invariant ExtractInv(g, nodes, rest, found, missingCoords, missingNames)
      decreases |rest|
    {
      var n :| n in rest;
      found, missingCoords, missingNames := ExtractNode(g, nodes, rest, found, missingCoords, missingNames, n);
      rest := rest - {n};
    }
    ExtractFinish(g, nodes, found, missingCoords, missingNames);
    if MixedRecords(found) {
      return Failure("TypeError"), missingCoords, missingNames;
    }
    result := Success(SortBy(found, NameOf, ValueLe));
  }

  /** How `main` ends: one of its two early exits, the sort's TypeError, or the records it saves. */
  datatype Outcome = NoTrainStations | NoValidStations | Raised(error: string) | Saved(stations: seq<Station>)

  /** The stations `identify_train_stations` finds. */
  ghost function TrainStationSet(g: Graph): set<NodeId>
  {
    set n | n in g.nodes && OnTrainEdge(g, n)
  }

  /**
   * The decisions of `main` between loading and saving: it stops when no
   * rail edge exists; the sort raises TypeError when number and string
   * names meet; it stops when no station has coordinates; otherwise it
   * saves the sorted records.
   */
  method RunIdentification(g: Graph) returns (outcome: Outcome)
    requires g.Valid()
    ensures outcome.NoTrainStations? <==> forall n :: !OnTrainEdge(g, n)
    ensures outcome.Raised? <==> MixedNames(g, TrainStationSet(g))
    ensures outcome.Raised? ==> outcome.error == "TypeError"
    ensures outcome.NoValidStations? <==>
              (exists n :: OnTrainEdge(g, n)) && forall n :: OnTrainEdge(g, n) ==> !HasCoords(g.nodes[n])
    ensures outcome.Saved? ==> outcome.stations != [] && SortedBy(outcome.stations, NameOf, ValueLe)
    ensures outcome.Saved? ==> forall n :: OnTrainEdge(g, n) && HasCoords(g.nodes[n]) ==> StationOf(g, n) in outcome.stations
    ensures outcome.Saved? ==> forall s :: s in outcome.stations ==> OnTrainEdge(g, s.id) && s == StationOf(g, s.id)
  {
    var nodes, _ := IdentifyTrainStations(g);
    if nodes == {} {
      return NoTrainStations;
    }
    ghost var n0 :| n0 in nodes;
    assert nodes == TrainStationSet(g);
    var result, _, _ := ExtractStationData(g, nodes);
    if result.Failure? {
      return Raised(result.error);
    }
    var stations := result.value;
    if stations == [] {
      forall n | OnTrainEdge(g, n) ensures !HasCoords(g.nodes[n])
      {
        assert n in nodes;
        assert StationOf(g, n) !in stations;
      }
      return NoValidStations;
    }
    assert stations[0] in stations;
    outcome := Saved(stations);
  }
}
