/**
 * The mode filter of debugging/filter_modes.py: which nodes a set of enabled
 * travel modes admits (by the prefix of the node id), the undirected
 * sub-graph those modes leave, and the nearest admitted nodes to a point.
 */
module FilterModes {
  import opened Graphs
  import opened Ordering
  import opened Sorting

  // ---------------------------------------------------------------------
  // Node compatibility
  // ---------------------------------------------------------------------

  /** `s.startswith(prefix)`. */
  predicate StartsWith(s: string, prefix: string)
  {
    |prefix| <= |s| && s[..|prefix|] == prefix
  }

  /** The modes any one of which admits a `pt_` node. */
  const PtNodeModes: seq<string> := ["train", "tram", "bus", "walk"]

  /**
   * `is_node_compatible(node, mode_filter)`: with no filter every node is
   * admitted; otherwise the id prefix names the modes that admit the node,
   * and a node with none of the known prefixes is always admitted.
   */
  function IsNodeCompatible(node: NodeId, modeFilter: Option<seq<string>>): (ok: bool)
  {
    match modeFilter
    case None => true
    case Some(f) =>
      if StartsWith(node, "road_") then "car" in f
      else if StartsWith(node, "train_") then "train" in f
      else if StartsWith(node, "tram_") then "tram" in f
      else if StartsWith(node, "bus_") then "bus" in f
      else if StartsWith(node, "pt_") then exists m :: m in PtNodeModes && m in f
      else true
  }

  /** The prefix rules as a table: a prefix and the modes that admit its nodes. */
  const PrefixRules: seq<(string, seq<string>)> :=
    [("road_", ["car"]), ("train_", ["train"]), ("tram_", ["tram"]), ("bus_", ["bus"]), ("pt_", PtNodeModes)]

  /** No node id starts with two of the known prefixes. */
  lemma PrefixesExclusive(node: NodeId, i: nat, j: nat)
    requires i < |PrefixRules| && j < |PrefixRules| && i != j
    requires StartsWith(node, PrefixRules[i].0)
    ensures !StartsWith(node, PrefixRules[j].0)
  {
    var p, q := PrefixRules[i].0, PrefixRules[j].0;
    if |q| <= |node| {
      assert node[..|p|][0] == node[0] == node[..|q|][0];
      if {i, j} == {1, 2} {
        assert node[..|p|][3] == node[3] == node[..|q|][3];
      }
    }
  }

  /** Rule `i` of the table does not reject `node` under the filter `f`. */
  ghost predicate RuleHolds(node: NodeId, f: seq<string>, i: nat)
    requires i < |PrefixRules|
  {
    StartsWith(node, PrefixRules[i].0) ==> exists m :: m in PrefixRules[i].1 && m in f
  }

  /**
   * The order of the prefix tests does not matter: a filter admits a node
   * exactly when no rule of the table rejects it.
   */
  lemma CompatibleByRules(node: NodeId, f: seq<string>)
    ensures IsNodeCompatible(node, Some(f)) <==> forall i :: 0 <= i < |PrefixRules| ==> RuleHolds(node, f, i)
  {
    assert RuleHolds(node, f, 0) <==> (StartsWith(node, "road_") ==> "car" in f) by {
      assert PrefixRules[0].1 == ["car"];
    }
    assert RuleHolds(node, f, 1) <==> (StartsWith(node, "train_") ==> "train" in f) by {
      assert PrefixRules[1].1 == ["train"];
    }
    assert RuleHolds(node, f, 2) <==> (StartsWith(node, "tram_") ==> "tram" in f) by {
      assert PrefixRules[2].1 == ["tram"];
    }
    assert RuleHolds(node, f, 3) <==> (StartsWith(node, "bus_") ==> "bus" in f) by {
      assert PrefixRules[3].1 == ["bus"];
    }
    assert RuleHolds(node, f, 4) <==> (StartsWith(node, "pt_") ==> exists m :: m in PtNodeModes && m in f);
    assert (forall i :: 0 <= i < |PrefixRules| ==> RuleHolds(node, f, i))
       <==> RuleHolds(node, f, 0) && RuleHolds(node, f, 1) && RuleHolds(node, f, 2) && RuleHolds(node, f, 3) && RuleHolds(node, f, 4);
    forall i, j | 0 <= i < |PrefixRules| && 0 <= j < |PrefixRules| && i != j && StartsWith(node, PrefixRules[i].0)
      ensures !StartsWith(node, PrefixRules[j].0)
    {
      PrefixesExclusive(node, i, j);
    }
  }

  /** Enabling more modes never rejects a node that was admitted. */
  lemma CompatibleMonotone(node: NodeId, f: seq<string>, f': seq<string>)
    requires forall m :: m in f ==> m in f'
    ensures IsNodeCompatible(node, Some(f)) ==> IsNodeCompatible(node, Some(f'))
  {
    if StartsWith(node, "pt_") && IsNodeCompatible(node, Some(f)) {
      PrefixesExclusive(node, 4, 0);
      PrefixesExclusive(node, 4, 1);
      PrefixesExclusive(node, 4, 2);
      PrefixesExclusive(node, 4, 3);
      var m :| m in PtNodeModes && m in f;
      assert m in PtNodeModes && m in f';
    }
  }

  /** With car and every public transport mode enabled, every node is admitted. */
  lemma AllModesAdmitEveryNode(node: NodeId, f: seq<string>)
    requires "car" in f && "train" in f && "tram" in f && "bus" in f
    ensures IsNodeCompatible(node, Some(f))
  {
    if StartsWith(node, "pt_") {
      assert "train" in PtNodeModes;
    }
  }

  /** Walking alone admits the `pt_` nodes and rejects the road, train, tram and bus nodes. */
  lemma WalkOnlyAdmitsPtNodes(node: NodeId)
    ensures StartsWith(node, "pt_") ==> IsNodeCompatible(node, Some(["walk"]))
    ensures (StartsWith(node, "road_") || StartsWith(node, "train_") || StartsWith(node, "tram_") || StartsWith(node, "bus_"))
            ==> !IsNodeCompatible(node, Some(["walk"]))
  {
    if StartsWith(node, "pt_") {
      assert "walk" in PtNodeModes;
      PrefixesExclusive(node, 4, 0);
      PrefixesExclusive(node, 4, 1);
      PrefixesExclusive(node, 4, 2);
      PrefixesExclusive(node, 4, 3);
    }
  }

  // ---------------------------------------------------------------------
  // filter_graph_by_modes
  // ---------------------------------------------------------------------

  /** `u in filtered_graph`: the node exists and the enabled modes admit it. */
  predicate NodeKept(g: Graph, modes: seq<string>, n: NodeId)
  {
    n in g.nodes && IsNodeCompatible(n, Some(modes))
  }

  /** `data.get('mode', '') in enabled_modes`. */
  predicate ModeEnabled(a: Attrs, modes: seq<string>)
  {
    var m := GetOr(a, "mode", Str(""));
    m.Str? && m.s in modes
  }

  /** A directed edge the filter copies: both ends kept and its mode enabled. */
  predicate EdgeKept(g: Graph, modes: seq<string>, e: Edge)
  {
    e in g.edges && NodeKept(g, modes, e.0) && NodeKept(g, modes, e.1) && ModeEnabled(g.edges[e], modes)
  }

  /** The kept nodes with their dictionaries. */
  ghost function KeptNodes(g: Graph, modes: seq<string>): map<NodeId, Attrs>
  {
    map n | n in g.nodes && IsNodeCompatible(n, Some(modes)) :: g.nodes[n]
  }

  /** The kept directed edges among `among`. */
  ghost function KeptEdges(g: Graph, modes: seq<string>, among: set<Edge>): (r: set<Edge>)
    ensures forall e {:trigger e in r} :: e in r <==> e in among && EdgeKept(g, modes, e)
  {
    set e | e in among && EdgeKept(g, modes, e)
  }

  /** `[n for n in ids if is_node_compatible(n, modes)]`. */
  function KeepIds(ids: seq<NodeId>, modes: seq<string>): (r: seq<NodeId>)
    ensures forall n {:trigger n in r} :: n in r <==> n in ids && IsNodeCompatible(n, Some(modes))
    ensures |r| <= |ids|
  {
    if ids == [] then []
    else
      var last := ids[|ids| - 1];
      assert forall n :: n in ids <==> n in ids[..|ids| - 1] || n == last;
      KeepIds(ids[..|ids| - 1], modes) + (if IsNodeCompatible(last, Some(modes)) then [last] else [])
  }

  /**
   * The attribute dictionary of the undirected edge `e` once the kept
   * directed edges `kept` have been added: the data of the one direction
   * that was kept, or, when both were, the data of either updated by the
   * other's (networkx's `add_edge` on an existing undirected edge).
   */
  ghost predicate UndirectedAttrs(edges: map<Edge, Attrs>, kept: set<Edge>, e: Edge, a: Attrs)
    requires kept <= edges.Keys
  {
    if e in kept && Rev(e) in kept && e != Rev(e) then
      a == Merged(Some(edges[e]), edges[Rev(e)]) || a == Merged(Some(edges[Rev(e)]), edges[e])
    else if e in kept then a == edges[e]
    else Rev(e) in kept && a == edges[Rev(e)]
  }

  /**
   * `r` is the undirected edge set of `kept`: every kept directed edge
   * appears as its sorted pair, every undirected edge comes from a kept
   * direction, and its data is as `UndirectedAttrs` says.
   */
  ghost predicate Collapsed(edges: map<Edge, Attrs>, kept: set<Edge>, r: map<Edge, Attrs>)
    requires kept <= edges.Keys
  {
    && (forall d {:trigger d in kept} :: d in kept ==> SortedPair(d.0, d.1) in r)
    && (forall e {:trigger e in r} :: e in r ==> e == SortedPair(e.0, e.1) && (e in kept || Rev(e) in kept))
    && (forall e {:trigger e in r} :: e in r ==> UndirectedAttrs(edges, kept, e, r[e]))
  }

  lemma CollapsedEmpty(edges: map<Edge, Attrs>)
    ensures Collapsed(edges, {}, map[])
  {
  }

  /** Adding one more kept directed edge `d` to the undirected edge map. */
  lemma {:induction false} CollapseStep(edges: map<Edge, Attrs>, kept: set<Edge>, r: map<Edge, Attrs>, d: Edge)
    requires kept <= edges.Keys && d in edges && d !in kept
    requires Collapsed(edges, kept, r)
    ensures Collapsed(edges, kept + {d}, r[SortedPair(d.0, d.1) := Merged(Lookup(r, SortedPair(d.0, d.1)), edges[d])])
  {
    var key := SortedPair(d.0, d.1);
    var a := Merged(Lookup(r, key), edges[d]);
    var r' := r[key := a];
    var kept' := kept + {d};
    SortedPairSymmetric(d.0, d.1);
    assert key == d || key == Rev(d);
    forall x | x in kept'
      ensures SortedPair(x.0, x.1) in r'
    {
      if x != d {
        assert x in kept;
      }
    }
    forall e | e in r'
      ensures e == SortedPair(e.0, e.1) && (e in kept' || Rev(e) in kept')
      ensures UndirectedAttrs(edges, kept', e, r'[e])
    {
      if e == key {
        assert key == SortedPair(key.0, key.1) by {
          SortedPairSymmetric(key.0, key.1);
        }
        var other := Rev(d);
        assert Rev(other) == d;
        if key in r {
          assert key in kept || Rev(key) in kept;
          assert other in kept && d != other;
          assert UndirectedAttrs(edges, kept, key, r[key]);
          assert r[key] == edges[other];
          assert Lookup(r, key) == Some(edges[other]);
        } else {
          assert other !in kept;
          assert Lookup(r, key) == None;
          assert a == edges[d];
        }
      } else {
        assert e in r && r'[e] == r[e];
        SortedPairSymmetric(e.0, e.1);
        assert d != e && d != Rev(e);
        assert UndirectedAttrs(edges, kept, e, r[e]);
      }
    }
  }

  /**
   * The node pass of `filter_graph_by_modes`: every admitted node of `g`,
   * in `g`'s order, with its dictionary; no edges yet.
   */
  method AddCompatibleNodes(g: Graph, modes: seq<string>) returns (r: Graph)
    requires g.Valid()
    ensures r.Valid() && r.edges == map[]
    ensures r.order == KeepIds(g.order, modes)
    ensures r.nodes == KeptNodes(g, modes)
  {
    r := Graph([], map[], map[]);
    for k := 0 to |g.order|
      invariant r.Valid() && r.edges == map[]
      invariant r.order == KeepIds(g.order[..k], modes)
      invariant forall n :: n in r.nodes ==> r.nodes[n] == g.nodes[n]
    {
      var n := g.order[k];
      assert g.order[..k + 1][..k] == g.order[..k];
      if IsNodeCompatible(n, Some(modes)) {
        assert n !in r.nodes;
        r := AddNode(r, n, g.nodes[n]);
      }
    }
    assert g.order[..|g.order|] == g.order;
    assert r.nodes.Keys == KeptNodes(g, modes).Keys;
  }

  /**
   * The edge pass: every edge of `g` whose ends were kept and whose mode is
   * enabled is added to the undirected graph `h`, so both directions of a
   * pair land on the same edge.
   */
  method AddEnabledEdges(g: Graph, modes: seq<string>, h: Graph) returns (r: Graph)
    requires g.Valid() && h.Valid() && h.edges == map[] && h.nodes == KeptNodes(g, modes)
    ensures r.Valid() && r.order == h.order && r.nodes == h.nodes
    ensures Collapsed(g.edges, KeptEdges(g, modes, g.edges.Keys), r.edges)
  {
    r := h;
    var rest := g.edges.Keys;
    CollapsedEmpty(g.edges);
    assert KeptEdges(g, modes, g.edges.Keys - rest) == {};
    while rest != {}
      invariant rest <= g.edges.Keys
      invariant r.Valid() && r.order == h.order && r.nodes == h.nodes
      invariant Collapsed(g.edges, KeptEdges(g, modes, g.edges.Keys - rest), r.edges)
      decreases rest
    {
      r, rest := AddNextEnabledEdge(g, modes, h, r, rest);
    }
    assert g.edges.Keys - rest == g.edges.Keys;
  }

  /** One iteration of the edge pass. */
  method AddNextEnabledEdge(g: Graph, modes: seq<string>, h: Graph, r: Graph, rest: set<Edge>)
      returns (r': Graph, rest': set<Edge>)
    requires g.Valid() && h.nodes == KeptNodes(g, modes)
    requires rest != {} && rest <= g.edges.Keys
    requires r.Valid() && r.order == h.order && r.nodes == h.nodes
    requires Collapsed(g.edges, KeptEdges(g, modes, g.edges.Keys - rest), r.edges)
    ensures rest' < rest
    ensures r'.Valid() && r'.order == h.order && r'.nodes == h.nodes
    ensures Collapsed(g.edges, KeptEdges(g, modes, g.edges.Keys - rest'), r'.edges)
  {
    var d :| d in rest;
    rest' := rest - {d};
    ghost var kept := KeptEdges(g, modes, g.edges.Keys - rest);
    assert g.edges.Keys - rest' == (g.edges.Keys - rest) + {d};
    var u, v := d.0, d.1;
    if u in r.nodes && v in r.nodes && ModeEnabled(g.edges[d], modes) {
      assert EdgeKept(g, modes, d);
      assert KeptEdges(g, modes, g.edges.Keys - rest') == kept + {d};
      var key := SortedPair(u, v);
      CollapseStep(g.edges, kept, r.edges, d);
      r' := r.(edges := r.edges[key := Merged(Lookup(r.edges, key), g.edges[d])]);
    } else {
      assert !EdgeKept(g, modes, d);
      assert KeptEdges(g, modes, g.edges.Keys - rest') == kept;
      r' := r;
    }
  }

  /**
   * `filter_graph_by_modes(graph, enabled_modes)` on a directed graph: the
   * undirected graph of the compatible nodes (data copied, original order)
   * and of the edges between them whose mode is enabled.
   */
  method FilterGraphByModes(g: Graph, modes: seq<string>) returns (r: Graph)
    requires g.Valid()
    ensures r.Valid()
    ensures r.order == KeepIds(g.order, modes)
    ensures r.nodes == KeptNodes(g, modes)
    ensures Collapsed(g.edges, KeptEdges(g, modes, g.edges.Keys), r.edges)
  {
    var h := AddCompatibleNodes(g, modes);
    r := AddEnabledEdges(g, modes, h);
  }

  /** Every edge of the filtered graph carries an enabled mode. */
  lemma FilteredModesEnabled(g: Graph, modes: seq<string>, r: map<Edge, Attrs>, e: Edge)
    requires Collapsed(g.edges, KeptEdges(g, modes, g.edges.Keys), r)
    requires e in r
    ensures ModeEnabled(r[e], modes)
  {
    var kept := KeptEdges(g, modes, g.edges.Keys);
    assert UndirectedAttrs(g.edges, kept, e, r[e]);
    if e in kept && Rev(e) in kept && e != Rev(e) {
      assert EdgeKept(g, modes, e) && EdgeKept(g, modes, Rev(e));
      var x, y := g.edges[e], g.edges[Rev(e)];
      assert r[e] == Merged(Some(x), y) || r[e] == Merged(Some(y), x);
      if "mode" !in x || "mode" !in y {
        assert "" in modes;
      }
    } else if e in kept {
      assert EdgeKept(g, modes, e);
    } else {
      assert EdgeKept(g, modes, Rev(e));
    }
  }

  /** Both ends of every edge of the filtered graph are compatible nodes of `g`. */
  lemma FilteredEndsKept(g: Graph, modes: seq<string>, r: Graph, e: Edge)
    requires r.Valid() && r.nodes == KeptNodes(g, modes)
    requires e in r.edges
    ensures NodeKept(g, modes, e.0) && NodeKept(g, modes, e.1)
  {
    assert e.0 in r.nodes && e.1 in r.nodes;
  }

  /** Enabling more modes keeps every directed edge that was kept. */
  lemma EdgeKeptMonotone(g: Graph, modes: seq<string>, modes': seq<string>, e: Edge)
    requires forall m :: m in modes ==> m in modes'
    requires EdgeKept(g, modes, e)
    ensures EdgeKept(g, modes', e)
  {
    CompatibleMonotone(e.0, modes, modes');
    CompatibleMonotone(e.1, modes, modes');
  }

  // ---------------------------------------------------------------------
  // find_candidate_nodes
  // ---------------------------------------------------------------------

  /** `haversine_distance(lat1, lon1, lat2, lon2)` in kilometres; not modelled. */
  type Haversine = (real, real, real, real) -> real

  /** The `(node, distance)` pairs the search collects. */
  datatype Candidate = Candidate(node: NodeId, distance: real)

  function DistanceOf(c: Candidate): real
  {
    c.distance
  }

  predicate RealLe(a: real, b: real)
  {
    a <= b
  }

  lemma RealLeTotalPreorder()
    ensures TotalPreorder(RealLe)
  {
  }

  /**
   * A node with both keys but a coordinate that is not a number: `radians`
   * raises on it.
   */
  predicate BadCoords(nodes: map<NodeId, Attrs>, n: NodeId)
  {
    n in nodes && HasLatLon(nodes[n]) && !(nodes[n]["lat"].Num? && nodes[n]["lon"].Num?)
  }

  /**
   * A candidate the search keeps: a node with numeric coordinates, its
   * distance from the query point, within the bound, admitted by the filter.
   */
  predicate Qualifies(c: Candidate, nodes: map<NodeId, Attrs>, lat: real, lon: real,
                      modeFilter: Option<seq<string>>, maxKm: real, dist: Haversine)
  {
    && c.node in nodes && HasLatLon(nodes[c.node])
    && nodes[c.node]["lat"].Num? && nodes[c.node]["lon"].Num?
    && c.distance == dist(lat, lon, nodes[c.node]["lat"].r, nodes[c.node]["lon"].r)
    && c.distance <= maxKm
    && IsNodeCompatible(c.node, modeFilter)
  }

  /**
   * The `candidates` list after visiting `ids` in order, or the first node
   * whose coordinates make the distance computation raise.
   */
  function Eligible(nodes: map<NodeId, Attrs>, ids: seq<NodeId>, lat: real, lon: real,
                    modeFilter: Option<seq<string>>, maxKm: real, dist: Haversine): Result<seq<Candidate>, NodeId>
    requires forall i :: 0 <= i < |ids| ==> ids[i] in nodes
  {
    if ids == [] then Success([])
    else
      var n := ids[|ids| - 1];
      var a := nodes[n];
      match Eligible(nodes, ids[..|ids| - 1], lat, lon, modeFilter, maxKm, dist)
      case Failure(e) => Failure(e)
      case Success(cs) =>
        if !HasLatLon(a) then Success(cs)
        else if !(a["lat"].Num? && a["lon"].Num?) then Failure(n)
        else
          var d := dist(lat, lon, a["lat"].r, a["lon"].r);
          if d <= maxKm && IsNodeCompatible(n, modeFilter) then Success(cs + [Candidate(n, d)]) else Success(cs)
  }

  /** The search fails exactly when some visited node has non-numeric coordinates. */
  lemma {:induction false} EligibleFails(nodes: map<NodeId, Attrs>, ids: seq<NodeId>, lat: real, lon: real,
                                         modeFilter: Option<seq<string>>, maxKm: real, dist: Haversine)
    requires forall i :: 0 <= i < |ids| ==> ids[i] in nodes
    ensures Eligible(nodes, ids, lat, lon, modeFilter, maxKm, dist).Failure?
        <==> exists i :: 0 <= i < |ids| && BadCoords(nodes, ids[i])
  {
    if ids != [] {
      var init := ids[..|ids| - 1];
      EligibleFails(nodes, init, lat, lon, modeFilter, maxKm, dist);
      assert forall i :: 0 <= i < |init| ==> init[i] == ids[i];
      if exists i :: 0 <= i < |init| && BadCoords(nodes, init[i]) {
        var i :| 0 <= i < |init| && BadCoords(nodes, init[i]);
        assert BadCoords(nodes, ids[i]);
      }
      if exists i :: 0 <= i < |ids| && BadCoords(nodes, ids[i]) {
        var i :| 0 <= i < |ids| && BadCoords(nodes, ids[i]);
        if i < |init| {
          assert BadCoords(nodes, init[i]);
        }
      }
    }
  }

  /** On success the list holds exactly the qualifying candidates of the visited nodes. */
  lemma {:induction false} EligibleMembers(nodes: map<NodeId, Attrs>, ids: seq<NodeId>, lat: real, lon: real,
                                           modeFilter: Option<seq<string>>, maxKm: real, dist: Haversine)
    requires forall i :: 0 <= i < |ids| ==> ids[i] in nodes
    requires Eligible(nodes, ids, lat, lon, modeFilter, maxKm, dist).Success?
    ensures forall c :: c in Eligible(nodes, ids, lat, lon, modeFilter, maxKm, dist).value
              <==> c.node in ids && Qualifies(c, nodes, lat, lon, modeFilter, maxKm, dist)
  {
    if ids != [] {
      var init := ids[..|ids| - 1];
      EligibleMembers(nodes, init, lat, lon, modeFilter, maxKm, dist);
      assert forall n :: n in ids <==> n in init || n == ids[|ids| - 1];
    }
  }

  /** `s[:k]` for a Python integer `k`, negative counts dropping from the end. */
  function PyTake<T>(s: seq<T>, k: int): (r: seq<T>)
    ensures |r| == if k >= 0 then (if k <= |s| then k else |s|) else (if |s| + k >= 0 then |s| + k else 0)
    ensures r == s[..|r|]
  {
    if k >= 0 then (if k <= |s| then s[..k] else s)
    else (if |s| + k >= 0 then s[..|s| + k] else [])
  }

  /**
   * `find_candidate_nodes(lat, lon, mode_filter, max_distance_km,
   * max_candidates)` over `g`: the qualifying candidates sorted by distance
   * (stably), cut to `max_candidates`; or the node that makes it raise.
   */
  function Candidates(g: Graph, lat: real, lon: real, modeFilter: Option<seq<string>>,
                      maxKm: real, maxCandidates: int, dist: Haversine): Result<seq<Candidate>, NodeId>
    requires g.Valid()
  {
    match Eligible(g.nodes, g.order, lat, lon, modeFilter, maxKm, dist)
    case Failure(n) => Failure(n)
    case Success(cs) => Success(PyTake(SortBy(cs, DistanceOf, RealLe), maxCandidates))
  }

  /** The search loop, proved to compute `Candidates`. */
  method FindCandidateNodes(g: Graph, lat: real, lon: real, modeFilter: Option<seq<string>>,
                            maxKm: real, maxCandidates: int, dist: Haversine)
      returns (r: Result<seq<Candidate>, NodeId>)
    requires g.Valid()
    ensures r == Candidates(g, lat, lon, modeFilter, maxKm, maxCandidates, dist)
  {
    var candidates: seq<Candidate> := [];
    for k := 0 to |g.order|
      invariant Eligible(g.nodes, g.order[..k], lat, lon, modeFilter, maxKm, dist) == Success(candidates)
    {
      var n := g.order[k];
      var data := g.nodes[n];
      assert g.order[..k + 1][..k] == g.order[..k];
      if !HasLatLon(data) {
        continue;
      }
      if !(data["lat"].Num? && data["lon"].Num?) {
        EligibleFails(g.nodes, g.order[..k + 1], lat, lon, modeFilter, maxKm, dist);
        EligibleFails(g.nodes, g.order, lat, lon, modeFilter, maxKm, dist);
        assert BadCoords(g.nodes, g.order[..k + 1][k]);
        FailureSticks(g.nodes, g.order, k + 1, lat, lon, modeFilter, maxKm, dist);
        return Failure(n);
      }
      var distance := dist(lat, lon, data["lat"].r, data["lon"].r);
      if distance <= maxKm && IsNodeCompatible(n, modeFilter) {
        candidates := candidates + [Candidate(n, distance)];
      }
    }
    assert g.order[..|g.order|] == g.order;
    r := Success(PyTake(SortBy(candidates, DistanceOf, RealLe), maxCandidates));
  }

  /** Once a prefix of the visit raises, the whole visit raises with the same node. */
  lemma {:induction false} FailureSticks(nodes: map<NodeId, Attrs>, ids: seq<NodeId>, k: nat, lat: real, lon: real,
                                         modeFilter: Option<seq<string>>, maxKm: real, dist: Haversine)
    requires k <= |ids| && forall i :: 0 <= i < |ids| ==> ids[i] in nodes
    requires Eligible(nodes, ids[..k], lat, lon, modeFilter, maxKm, dist).Failure?
    ensures Eligible(nodes, ids, lat, lon, modeFilter, maxKm, dist) == Eligible(nodes, ids[..k], lat, lon, modeFilter, maxKm, dist)
    decreases |ids| - k
  {
    if k == |ids| {
      assert ids[..k] == ids;
    } else {
      assert ids[..|ids| - 1][..k] == ids[..k];
      FailureSticks(nodes, ids[..|ids| - 1], k, lat, lon, modeFilter, maxKm, dist);
    }
  }

  /** The returned candidates are ordered by distance. */
  lemma CandidatesSorted(g: Graph, lat: real, lon: real, modeFilter: Option<seq<string>>,
                         maxKm: real, maxCandidates: int, dist: Haversine)
    requires g.Valid()
    requires Candidates(g, lat, lon, modeFilter, maxKm, maxCandidates, dist).Success?
    ensures SortedBy(Candidates(g, lat, lon, modeFilter, maxKm, maxCandidates, dist).value, DistanceOf, RealLe)
  {
    var cs := Eligible(g.nodes, g.order, lat, lon, modeFilter, maxKm, dist).value;
    RealLeTotalPreorder();
    SortBySorted(cs, DistanceOf, RealLe);
  }

  /**
   * Every returned candidate qualifies, and as many of the qualifying ones
   * are returned as Python's slice `[:max_candidates]` keeps.
   */
  lemma CandidatesSound(g: Graph, lat: real, lon: real, modeFilter: Option<seq<string>>,
                        maxKm: real, maxCandidates: int, dist: Haversine)
    requires g.Valid()
    requires Candidates(g, lat, lon, modeFilter, maxKm, maxCandidates, dist).Success?
    ensures forall c :: c in Candidates(g, lat, lon, modeFilter, maxKm, maxCandidates, dist).value
              ==> Qualifies(c, g.nodes, lat, lon, modeFilter, maxKm, dist)
    ensures |Candidates(g, lat, lon, modeFilter, maxKm, maxCandidates, dist).value|
         == |PyTake(Eligible(g.nodes, g.order, lat, lon, modeFilter, maxKm, dist).value, maxCandidates)|
  {
    var cs := Eligible(g.nodes, g.order, lat, lon, modeFilter, maxKm, dist).value;
    var s := SortBy(cs, DistanceOf, RealLe);
    SortByPermutes(cs, DistanceOf, RealLe);
    EligibleMembers(g.nodes, g.order, lat, lon, modeFilter, maxKm, dist);
    forall c | c in PyTake(s, maxCandidates)
      ensures Qualifies(c, g.nodes, lat, lon, modeFilter, maxKm, dist)
    {
      assert c in s;
      assert multiset(s)[c] > 0;
      assert c in cs;
    }
  }

  /**
   * The search returns the nearest qualifying candidates: none it leaves
   * out is nearer than one it returns.
   */
  lemma CandidatesClosest(g: Graph, lat: real, lon: real, modeFilter: Option<seq<string>>,
                          maxKm: real, maxCandidates: int, dist: Haversine, x: Candidate, y: Candidate)
    requires g.Valid()
    requires Candidates(g, lat, lon, modeFilter, maxKm, maxCandidates, dist).Success?
    requires x in Candidates(g, lat, lon, modeFilter, maxKm, maxCandidates, dist).value
    requires y in Eligible(g.nodes, g.order, lat, lon, modeFilter, maxKm, dist).value
    requires y !in Candidates(g, lat, lon, modeFilter, maxKm, maxCandidates, dist).value
    ensures x.distance <= y.distance
  {
    var cs := Eligible(g.nodes, g.order, lat, lon, modeFilter, maxKm, dist).value;
    var s := SortBy(cs, DistanceOf, RealLe);
    var r := PyTake(s, maxCandidates);
    RealLeTotalPreorder();
    SortBySorted(cs, DistanceOf, RealLe);
    SortByPermutes(cs, DistanceOf, RealLe);
    assert multiset(cs)[y] > 0;
    assert y in s;
    var i :| 0 <= i < |r| && r[i] == x;
    var j :| 0 <= j < |s| && s[j] == y;
    assert j >= |r|;
    assert RealLe(DistanceOf(s[i]), DistanceOf(s[j]));
  }
}
