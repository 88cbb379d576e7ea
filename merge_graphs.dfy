/**
 * The merge of the PT graph and the car graph (graph_integration/merge_graphs.py).
 *
 * A fresh DiGraph receives the PT network. Two backfill passes then add the
 * missing reverse of every PT walking transfer and every tram, bus or train
 * edge. The car network follows, and last one road-to-station walking edge
 * per connection record. Every step is a networkx insertion: existing nodes
 * and edges get their dictionaries updated, and a pair never gets a
 * second edge.
 *
 * The methods build the graph with `AddNode` and `AddEdge` as the source
 * does; the ghost functions `CombinedNodes` and `CombinedEdges` describe the
 * node and edge dictionaries they end with.
 */
module Merge {
  import opened Graphs
  import opened CarToPt
  import opened Histograms

  const TransportModes: seq<Value> := [Str("tram"), Str("bus"), Str("train")]

  /** The transport backfill's test (`mode in ['tram', 'bus', 'train']`). */
  predicate IsTransport(a: Attrs)
  {
    Get(a, "mode") in TransportModes
  }

  /** `add_edge` between two existing nodes only updates one edge dictionary. */
  lemma AddEdgeExisting(g: Graph, u: NodeId, v: NodeId, attrs: Attrs)
    requires g.Valid() && u in g.nodes && v in g.nodes
    ensures AddEdge(g, u, v, attrs) == g.(edges := g.edges[(u, v) := Merged(Lookup(g.edges, (u, v)), attrs)])
  {
  }

  /** One `add_edge(u, v, **attrs)` between existing nodes. */
  method AddExistingEdge(g: Graph, u: NodeId, v: NodeId, attrs: Attrs) returns (r: Graph)
    requires g.Valid() && u in g.nodes && v in g.nodes
    ensures r.Valid() && r == g.(edges := g.edges[(u, v) := Merged(Lookup(g.edges, (u, v)), attrs)])
  {
    AddEdgeExisting(g, u, v, attrs);
    r := AddEdge(g, u, v, attrs);
  }

  /** One `add_node(n, **attrs)`. */
  method AddOneNode(g: Graph, n: NodeId, attrs: Attrs) returns (r: Graph)
    requires g.Valid()
    ensures r.Valid() && r.edges == g.edges
    ensures r.nodes == g.nodes[n := Merged(Lookup(g.nodes, n), attrs)]
    ensures r.order == if n in g.nodes then g.order else g.order + [n]
  {
    r := AddNode(g, n, attrs);
  }

  /** Moving one element from the unvisited set to the visited one. */
  lemma VisitStep<T>(all: set<T>, rest: set<T>, x: T)
    requires x in rest && rest <= all
    ensures rest - {x} <= all && all - (rest - {x}) == (all - rest) + {x}
  {
  }

  /** `b` starts with `a`: nodes already in a graph keep their place in its order. */
  predicate Extends(a: seq<NodeId>, b: seq<NodeId>)
  {
    |a| <= |b| && forall i :: 0 <= i < |a| ==> b[i] == a[i]
  }

  // ---------------------------------------------------------------------------
  // add_nodes_from

  /** The ids of `ids` that are not in `known`, in order. */
  function NewIds(known: set<NodeId>, ids: seq<NodeId>): (r: seq<NodeId>)
    ensures forall n :: n in r <==> n in ids && n !in known
    decreases |ids|
  {
    if ids == [] then []
    else
      var front := ids[..|ids| - 1];
      var n := ids[|ids| - 1];
      assert forall m :: m in ids <==> m in front || m == n by {
        assert ids == front + [n];
      }
      NewIds(known, front) + if n in known then [] else [n]
  }

  lemma NewIdsStep(known: set<NodeId>, ids: seq<NodeId>, k: nat)
    requires k < |ids|
    ensures NewIds(known, ids[..k + 1]) == NewIds(known, ids[..k]) + if ids[k] in known then [] else [ids[k]]
  {
    assert ids[..k + 1][..k] == ids[..k];
  }

  /** The order after one more insertion, in terms of the ids inserted so far. */
  lemma NewIdsOrderStep(base: seq<NodeId>, known: set<NodeId>, ids: seq<NodeId>, k: nat, cur: seq<NodeId>, next: seq<NodeId>)
    requires k < |ids| && ids[k] !in ids[..k]
    requires cur == base + NewIds(known, ids[..k])
    requires next == if ids[k] in known then cur else cur + [ids[k]]
    ensures next == base + NewIds(known, ids[..k + 1])
  {
    NewIdsStep(known, ids, k);
    var before := NewIds(known, ids[..k]);
    if ids[k] in known {
      assert before + [] == before;
    } else {
      assert (base + before) + [ids[k]] == base + (before + [ids[k]]);
    }
  }

  lemma {:induction false} NewIdsOfNone(ids: seq<NodeId>)
    ensures NewIds({}, ids) == ids
    decreases |ids|
  {
    if ids != [] {
      NewIdsOfNone(ids[..|ids| - 1]);
      assert ids == ids[..|ids| - 1] + [ids[|ids| - 1]];
    }
  }

  /**
   * The node dictionaries after `add_nodes_from` with the ids `ids` of
   * `src`: each of them is its old dictionary (or `{}`) updated with the
   * source's, and the other nodes keep theirs.
   */
  function NodesFrom(nodes: map<NodeId, Attrs>, ids: seq<NodeId>, src: map<NodeId, Attrs>): (r: map<NodeId, Attrs>)
    requires forall n :: n in ids ==> n in src
  {
    map n | n in nodes.Keys + (set m | m in ids) :: if n in ids then Merged(Lookup(nodes, n), src[n]) else nodes[n]
  }

  lemma NodesFromKeys(nodes: map<NodeId, Attrs>, ids: seq<NodeId>, src: map<NodeId, Attrs>)
    requires forall n :: n in ids ==> n in src
    ensures forall n :: n in NodesFrom(nodes, ids, src) <==> n in nodes || n in ids
  {
  }

  lemma NodesFromStep(nodes: map<NodeId, Attrs>, ids: seq<NodeId>, src: map<NodeId, Attrs>, k: nat)
    requires k < |ids| && NoDup(ids) && forall n :: n in ids ==> n in src
    ensures ids[k] !in ids[..k]
    ensures Lookup(NodesFrom(nodes, ids[..k], src), ids[k]) == Lookup(nodes, ids[k])
    ensures NodesFrom(nodes, ids[..k + 1], src)
         == NodesFrom(nodes, ids[..k], src)[ids[k] := Merged(Lookup(nodes, ids[k]), src[ids[k]])]
  {
    assert forall m :: m in ids[..k + 1] <==> m in ids[..k] || m == ids[k] by {
      assert ids[..k + 1] == ids[..k] + [ids[k]];
    }
    NodesFromKeys(nodes, ids[..k], src);
    NodesFromKeys(nodes, ids[..k + 1], src);
  }

  /** `add_nodes_from(src.nodes(data=True))`: one `add_node` per source node, in the source's order. */
  method AddNodesFrom(g: Graph, src: Graph) returns (r: Graph)
    requires g.Valid() && src.Valid()
    ensures r.Valid() && r.edges == g.edges
    ensures r.nodes == NodesFrom(g.nodes, src.order, src.nodes)
    ensures r.order == g.order + NewIds(g.nodes.Keys, src.order)
  {
    r := g;
    assert NodesFrom(g.nodes, src.order[..0], src.nodes) == g.nodes;
    for k := 0 to |src.order|
      invariant r.Valid() && r.edges == g.edges
      invariant r.nodes == NodesFrom(g.nodes, src.order[..k], src.nodes)
      invariant r.order == g.order + NewIds(g.nodes.Keys, src.order[..k])
    {
      r := AddNextNode(g, src, r, k);
    }
    assert src.order[..|src.order|] == src.order;
  }

  /** One iteration of `add_nodes_from`: the `k`-th source node. */
  method AddNextNode(g: Graph, src: Graph, r: Graph, k: nat) returns (r': Graph)
    requires g.Valid() && src.Valid() && k < |src.order|
    requires r.Valid() && r.edges == g.edges
    requires r.nodes == NodesFrom(g.nodes, src.order[..k], src.nodes)
    requires r.order == g.order + NewIds(g.nodes.Keys, src.order[..k])
    ensures r'.Valid() && r'.edges == g.edges
    ensures r'.nodes == NodesFrom(g.nodes, src.order[..k + 1], src.nodes)
    ensures r'.order == g.order + NewIds(g.nodes.Keys, src.order[..k + 1])
  {
    var n := src.order[k];
    NodesFromStep(g.nodes, src.order, src.nodes, k);
    assert n in r.nodes <==> n in g.nodes;
    r' := AddOneNode(r, n, src.nodes[n]);
    NewIdsOrderStep(g.order, g.nodes.Keys, src.order, k, r.order, r'.order);
  }

  // ---------------------------------------------------------------------------
  // add_edges_from

  /**
   * The edge dictionaries after `add_edges_from` with the edges `keys` of
   * `src`: each of them is its old dictionary (or `{}`) updated with the
   * source's, and the other edges keep theirs.
   */
  function EdgesFrom(edges: map<Edge, Attrs>, src: map<Edge, Attrs>, keys: set<Edge>): (r: map<Edge, Attrs>)
    requires keys <= src.Keys
  {
    map e | e in edges.Keys + keys :: if e in keys then Merged(Lookup(edges, e), src[e]) else edges[e]
  }

  lemma EdgesFromStep(edges: map<Edge, Attrs>, src: map<Edge, Attrs>, done: set<Edge>, e: Edge)
    requires done <= src.Keys && e in src && e !in done
    ensures Lookup(EdgesFrom(edges, src, done), e) == Lookup(edges, e)
    ensures EdgesFrom(edges, src, done + {e}) == EdgesFrom(edges, src, done)[e := Merged(Lookup(edges, e), src[e])]
  {
  }

  /** `add_edges_from(src.edges(data=True))`, over endpoints that already exist. */
  method AddEdgesFrom(g: Graph, src: Graph) returns (r: Graph)
    requires g.Valid() && forall e :: e in src.edges ==> e.0 in g.nodes && e.1 in g.nodes
    ensures r.Valid() && r.order == g.order && r.nodes == g.nodes
    ensures r.edges == EdgesFrom(g.edges, src.edges, src.edges.Keys)
  {
    r := g;
    assert EdgesFrom(g.edges, src.edges, {}) == g.edges;
    var rest := src.edges.Keys;
    while rest != {}
      invariant rest <= src.edges.Keys
      invariant r.Valid() && r.order == g.order && r.nodes == g.nodes
      invariant r.edges == EdgesFrom(g.edges, src.edges, src.edges.Keys - rest)
      decreases rest
    {
      r, rest := AddNextEdge(g, src, r, rest);
    }
    assert src.edges.Keys - rest == src.edges.Keys;
  }

  /** One iteration of `add_edges_from`: the next source edge. */
  method AddNextEdge(g: Graph, src: Graph, r: Graph, rest: set<Edge>) returns (r': Graph, rest': set<Edge>)
    requires forall e :: e in src.edges ==> e.0 in g.nodes && e.1 in g.nodes
    requires rest != {} && rest <= src.edges.Keys
    requires r.Valid() && r.order == g.order && r.nodes == g.nodes
    requires r.edges == EdgesFrom(g.edges, src.edges, src.edges.Keys - rest)
    ensures rest' < rest
    ensures r'.Valid() && r'.order == g.order && r'.nodes == g.nodes
    ensures r'.edges == EdgesFrom(g.edges, src.edges, src.edges.Keys - rest')
  {
    var e :| e in rest;
    VisitStep(src.edges.Keys, rest, e);
    EdgesFromStep(g.edges, src.edges, src.edges.Keys - rest, e);
    r' := AddExistingEdge(r, e.0, e.1, src.edges[e]);
    rest' := rest - {e};
  }

  // ---------------------------------------------------------------------------
  // The two reverse-edge backfills

  /** The reverses a backfill adds once it has checked the source edges `done`. */
  ghost function Reverses(src: map<Edge, Attrs>, done: set<Edge>, needs: Attrs -> bool, base: set<Edge>): (r: set<Edge>)
    ensures forall e {:trigger e in r} :: e in r <==> Rev(e) in done && Rev(e) in src && needs(src[Rev(e)]) && e !in base
  {
    assert forall e: Edge :: Rev(Rev(e)) == e;
    set x | x in done && x in src && needs(src[x]) && Rev(x) !in base :: Rev(x)
  }

  /**
   * The edge dictionaries after a backfill has checked the edges `done` of
   * `src`: for each such edge u->v that `needs` selects, v->u exists. A
   * synthesized reverse copies u->v's dictionary; an edge that was present
   * keeps its own.
   */
  ghost function Backfilled(edges: map<Edge, Attrs>, src: map<Edge, Attrs>, done: set<Edge>, needs: Attrs -> bool)
    : (r: map<Edge, Attrs>)
    ensures forall e {:trigger e in r} :: e in r <==> e in edges || (Rev(e) in done && Rev(e) in src && needs(src[Rev(e)]))
    ensures forall e {:trigger edges[e]} :: e in edges ==> r[e] == edges[e]
    ensures forall e {:trigger r[e]} :: e in r && e !in edges ==> Rev(e) in src && r[e] == src[Rev(e)]
  {
    edges + map e | e in Reverses(src, done, needs, edges.Keys) :: src[Rev(e)]
  }

  /** Checking one more source edge counts one more reverse exactly when it is needed and missing. */
  lemma ReversesStep(src: map<Edge, Attrs>, done: set<Edge>, needs: Attrs -> bool, base: set<Edge>, x: Edge)
    requires x in src && x !in done
    ensures |Reverses(src, done + {x}, needs, base)|
         == |Reverses(src, done, needs, base)| + if needs(src[x]) && Rev(x) !in base then 1 else 0
  {
    var r0 := Reverses(src, done, needs, base);
    var r1 := Reverses(src, done + {x}, needs, base);
    assert Rev(Rev(x)) == x;
    if needs(src[x]) && Rev(x) !in base {
      assert Rev(x) !in r0;
      assert r1 == r0 + {Rev(x)};
    } else {
      assert r1 == r0;
    }
  }

  /** Checking one more source edge adds its reverse exactly when it is needed and missing. */
  lemma BackfillStep(edges: map<Edge, Attrs>, src: map<Edge, Attrs>, done: set<Edge>, needs: Attrs -> bool, x: Edge)
    requires x in src && x !in done
    ensures var h := Backfilled(edges, src, done, needs);
      && (Rev(x) in h <==> Rev(x) in edges)
      && Backfilled(edges, src, done + {x}, needs)
           == if needs(src[x]) && Rev(x) !in h then h[Rev(x) := src[x]] else h
  {
    var h := Backfilled(edges, src, done, needs);
    var h' := Backfilled(edges, src, done + {x}, needs);
    assert Rev(Rev(x)) == x;
    var h2 := if needs(src[x]) && Rev(x) !in h then h[Rev(x) := src[x]] else h;
    forall e | e in h'
      ensures e in h2 && h'[e] == h2[e]
    {
    }
    assert h'.Keys == h2.Keys;
  }

  /**
   * One backfill pass over the source edges: for each u->v that `needs`
   * selects and whose reverse is missing, add v->u with u->v's dictionary,
   * and count the additions.
   */
  method BackfillReverses(g: Graph, src: map<Edge, Attrs>, needs: Attrs -> bool) returns (r: Graph, added: nat)
    requires g.Valid() && forall e :: e in src ==> e.0 in g.nodes && e.1 in g.nodes
    ensures r.Valid() && r.order == g.order && r.nodes == g.nodes
    ensures r.edges == Backfilled(g.edges, src, src.Keys, needs)
    ensures added == |Reverses(src, src.Keys, needs, g.edges.Keys)|
  {
    r, added := g, 0;
    assert Backfilled(g.edges, src, {}, needs) == g.edges;
    var rest := src.Keys;
    while rest != {}
      invariant rest <= src.Keys
      invariant r.Valid() && r.order == g.order && r.nodes == g.nodes
      invariant r.edges == Backfilled(g.edges, src, src.Keys - rest, needs)
      invariant added == |Reverses(src, src.Keys - rest, needs, g.edges.Keys)|
      decreases rest
    {
      r, added, rest := BackfillNext(g, src, needs, r, added, rest);
    }
    assert src.Keys - rest == src.Keys;
  }

  /** One iteration of the backfill pass: the next source edge and, when needed, its reverse. */
  method BackfillNext(g: Graph, src: map<Edge, Attrs>, needs: Attrs -> bool, r: Graph, added: nat, rest: set<Edge>)
    returns (r': Graph, added': nat, rest': set<Edge>)
    requires g.Valid() && forall e :: e in src ==> e.0 in g.nodes && e.1 in g.nodes
    requires rest != {} && rest <= src.Keys
    requires r.Valid() && r.order == g.order && r.nodes == g.nodes
    requires r.edges == Backfilled(g.edges, src, src.Keys - rest, needs)
    requires added == |Reverses(src, src.Keys - rest, needs, g.edges.Keys)|
    ensures rest' < rest
    ensures r'.Valid() && r'.order == g.order && r'.nodes == g.nodes
    ensures r'.edges == Backfilled(g.edges, src, src.Keys - rest', needs)
    ensures added' == |Reverses(src, src.Keys - rest', needs, g.edges.Keys)|
  {
    var e :| e in rest;
    ghost var done := src.Keys - rest;
    VisitStep(src.Keys, rest, e);
    BackfillStep(g.edges, src, done, needs, e);
    ReversesStep(src, done, needs, g.edges.Keys, e);
    var (u, v) := e;
    var data := src[e];
    r', added' := r, added;
    if needs(data) && !r.HasEdge(v, u) {
      r' := AddExistingEdge(r, v, u, data);
      added' := added + 1;
    }
    rest' := rest - {e};
  }

  /**
   * The transport pass iterates over the graph it is extending. Each edge
   * it adds already has its reverse in the graph it started from, so
   * visiting that edge later adds nothing: iterating over the edges present
   * at the start gives the same graph.
   */
  lemma BackfillAddedAreNoOps(edges: map<Edge, Attrs>, needs: Attrs -> bool)
    ensures var r := Backfilled(edges, edges, edges.Keys, needs);
      forall e :: e in r && e !in edges ==> Rev(e) in edges && Rev(e) in r
  {
  }

  /** After a pass, every selected source edge has a reverse. */
  lemma BackfillCovers(edges: map<Edge, Attrs>, src: map<Edge, Attrs>, needs: Attrs -> bool)
    ensures forall e :: e in src && needs(src[e]) ==> Rev(e) in Backfilled(edges, src, src.Keys, needs)
  {
    assert forall e: Edge :: Rev(Rev(e)) == e;
  }

  // ---------------------------------------------------------------------------
  // Connection edges

  /** The dictionary of a car-to-PT connection edge. */
  function ConnAttrs(c: Connection): Attrs
  {
    map["mode" := Str("walk"), "distance" := Num(c.distance), "time" := Num(c.walkTime),
        "emissions" := Num(0.0), "edge_type" := Str("car_to_pt_transfer"), "station_name" := c.stationName]
  }

  function Pair(c: Connection): Edge
  {
    (c.roadNode, c.stationId)
  }

  /** The pairs the records join. */
  function Pairs(conns: seq<Connection>): set<Edge>
    decreases |conns|
  {
    if conns == [] then {} else Pairs(conns[..|conns| - 1]) + {Pair(conns[|conns| - 1])}
  }

  /** The road nodes and stations the records name. */
  function Ends(conns: seq<Connection>): set<NodeId>
    decreases |conns|
  {
    if conns == [] then {}
    else Ends(conns[..|conns| - 1]) + {conns[|conns| - 1].roadNode, conns[|conns| - 1].stationId}
  }

  /** The edge dictionaries after one `add_edge(road_node, station_id, ...)` per record, in record order. */
  function ConnEdges(edges: map<Edge, Attrs>, conns: seq<Connection>): (r: map<Edge, Attrs>)
    ensures forall e :: e in r <==> e in edges || e in Pairs(conns)
    decreases |conns|
  {
    if conns == [] then edges
    else
      var h := ConnEdges(edges, conns[..|conns| - 1]);
      var c := conns[|conns| - 1];
      h[Pair(c) := Merged(Lookup(h, Pair(c)), ConnAttrs(c))]
  }

  /** Connection edges change no edge outside the records' pairs. */
  lemma {:induction false} ConnEdgesKeep(edges: map<Edge, Attrs>, conns: seq<Connection>)
    ensures forall e :: e in edges && e !in Pairs(conns) ==> ConnEdges(edges, conns)[e] == edges[e]
    decreases |conns|
  {
    if conns != [] {
      ConnEdgesKeep(edges, conns[..|conns| - 1]);
    }
  }

  lemma {:induction false} PairsAt(conns: seq<Connection>)
    ensures forall i :: 0 <= i < |conns| ==> Pair(conns[i]) in Pairs(conns)
    decreases |conns|
  {
    if conns != [] {
      PairsAt(conns[..|conns| - 1]);
    }
  }

  /** A dictionary updated with a connection's is tagged as a walking transfer without emissions. */
  lemma ConnAttrsTagged(prev: Option<Attrs>, c: Connection)
    ensures var a := Merged(prev, ConnAttrs(c));
      && Get(a, "mode") == Str("walk") && Get(a, "edge_type") == Str("car_to_pt_transfer")
      && Get(a, "emissions") == Num(0.0)
  {
    var a := Merged(prev, ConnAttrs(c));
    assert "mode" in ConnAttrs(c) && "edge_type" in ConnAttrs(c) && "emissions" in ConnAttrs(c);
  }

  /** The `i`-th record's pair is a walking transfer edge with no emissions. */
  lemma {:induction false} ConnEdgesTaggedAt(edges: map<Edge, Attrs>, conns: seq<Connection>, i: nat)
    requires i < |conns|
    ensures var r := ConnEdges(edges, conns);
      && Pair(conns[i]) in r && Get(r[Pair(conns[i])], "mode") == Str("walk")
      && Get(r[Pair(conns[i])], "edge_type") == Str("car_to_pt_transfer")
      && Get(r[Pair(conns[i])], "emissions") == Num(0.0)
    decreases |conns|
  {
    var front := conns[..|conns| - 1];
    var c := conns[|conns| - 1];
    var h := ConnEdges(edges, front);
    var r := ConnEdges(edges, conns);
    assert r == h[Pair(c) := Merged(Lookup(h, Pair(c)), ConnAttrs(c))];
    if Pair(conns[i]) == Pair(c) {
      ConnAttrsTagged(Lookup(h, Pair(c)), c);
    } else {
      ConnEdgesTaggedAt(edges, front, i);
      assert conns[i] == front[i];
      assert r[Pair(conns[i])] == h[Pair(front[i])];
    }
  }

  /** Every record's pair is a walking transfer edge with no emissions. */
  lemma ConnEdgesTagged(edges: map<Edge, Attrs>, conns: seq<Connection>)
    ensures forall i :: 0 <= i < |conns| ==>
              var r := ConnEdges(edges, conns);
              && Pair(conns[i]) in r && Get(r[Pair(conns[i])], "mode") == Str("walk")
              && Get(r[Pair(conns[i])], "edge_type") == Str("car_to_pt_transfer")
              && Get(r[Pair(conns[i])], "emissions") == Num(0.0)
  {
    forall i | 0 <= i < |conns|
      ensures var r := ConnEdges(edges, conns);
              && Pair(conns[i]) in r && Get(r[Pair(conns[i])], "mode") == Str("walk")
              && Get(r[Pair(conns[i])], "edge_type") == Str("car_to_pt_transfer")
              && Get(r[Pair(conns[i])], "emissions") == Num(0.0)
    {
      ConnEdgesTaggedAt(edges, conns, i);
    }
  }

  /**
   * The last record for a pair decides the pair's distance, time and
   * station name.
   */
  lemma {:induction false} ConnEdgesLastWins(edges: map<Edge, Attrs>, conns: seq<Connection>, i: nat)
    requires i < |conns|
    requires forall j :: i < j < |conns| ==> Pair(conns[j]) != Pair(conns[i])
    ensures var r := ConnEdges(edges, conns);
      && Pair(conns[i]) in r && Get(r[Pair(conns[i])], "distance") == Num(conns[i].distance)
      && Get(r[Pair(conns[i])], "time") == Num(conns[i].walkTime)
      && Get(r[Pair(conns[i])], "station_name") == conns[i].stationName
    decreases |conns|
  {
    if i < |conns| - 1 {
      var front := conns[..|conns| - 1];
      ConnEdgesLastWins(edges, front, i);
      assert conns[i] == front[i];
    }
  }

  lemma ConnEdgesLast(edges: map<Edge, Attrs>, conns: seq<Connection>)
    ensures forall i :: 0 <= i < |conns| && (forall j :: i < j < |conns| ==> Pair(conns[j]) != Pair(conns[i])) ==>
              var r := ConnEdges(edges, conns);
              && Pair(conns[i]) in r && Get(r[Pair(conns[i])], "distance") == Num(conns[i].distance)
              && Get(r[Pair(conns[i])], "time") == Num(conns[i].walkTime)
              && Get(r[Pair(conns[i])], "station_name") == conns[i].stationName
  {
    forall i | 0 <= i < |conns| && (forall j :: i < j < |conns| ==> Pair(conns[j]) != Pair(conns[i]))
      ensures var r := ConnEdges(edges, conns);
              && Pair(conns[i]) in r && Get(r[Pair(conns[i])], "distance") == Num(conns[i].distance)
              && Get(r[Pair(conns[i])], "time") == Num(conns[i].walkTime)
              && Get(r[Pair(conns[i])], "station_name") == conns[i].stationName
    {
      ConnEdgesLastWins(edges, conns, i);
    }
  }

  /** The node dictionaries after the missing ids among `ids` are created with `{}`. */
  function WithEmptyNodes(nodes: map<NodeId, Attrs>, ids: set<NodeId>): (r: map<NodeId, Attrs>)
  {
    map n | n in nodes.Keys + ids :: if n in nodes then nodes[n] else map[]
  }

  lemma WithEmptyNone(nodes: map<NodeId, Attrs>)
    ensures WithEmptyNodes(nodes, {}) == nodes
  {
    assert WithEmptyNodes(nodes, {}).Keys == nodes.Keys;
  }

  lemma WithEmptyTwice(nodes: map<NodeId, Attrs>, a: set<NodeId>, b: set<NodeId>)
    ensures WithEmptyNodes(WithEmptyNodes(nodes, a), b) == WithEmptyNodes(nodes, a + b)
  {
    var l := WithEmptyNodes(WithEmptyNodes(nodes, a), b);
    var r := WithEmptyNodes(nodes, a + b);
    assert l.Keys == r.Keys;
  }

  /** Creating one endpoint: `{}` when it is missing, after the existing nodes. */
  lemma NodeCreated(g: Graph, u: NodeId)
    requires g.Valid()
    ensures var h := WithNode(g, u);
      h.nodes == WithEmptyNodes(g.nodes, {u}) && Extends(g.order, h.order)
  {
    var h := WithNode(g, u);
    var w := WithEmptyNodes(g.nodes, {u});
    if u in g.nodes {
      assert w.Keys == g.nodes.Keys;
    } else {
      assert w == g.nodes[u := map[]] by {
        assert w.Keys == g.nodes.Keys + {u};
      }
    }
  }

  /** The endpoints `add_edge` creates: missing ones get `{}` and go after the existing nodes. */
  lemma EndpointsCreated(g: Graph, u: NodeId, v: NodeId)
    requires g.Valid()
    ensures var h := WithEndpoints(g, u, v);
      h.nodes == WithEmptyNodes(g.nodes, {u, v}) && Extends(g.order, h.order)
  {
    var h1 := WithNode(g, u);
    NodeCreated(g, u);
    NodeCreated(h1, v);
    WithEmptyTwice(g.nodes, {u}, {v});
    assert {u} + {v} == {u, v};
  }

  /** One connection edge: `add_edge` creates a missing endpoint with `{}`. */
  method AddConnectionEdge(g: Graph, conn: Connection) returns (r: Graph)
    requires g.Valid()
    ensures r.Valid() && r.edges == g.edges[Pair(conn) := Merged(Lookup(g.edges, Pair(conn)), ConnAttrs(conn))]
    ensures r.nodes == WithEmptyNodes(g.nodes, {conn.roadNode, conn.stationId})
    ensures Extends(g.order, r.order)
  {
    var (u, v) := Pair(conn);
    EndpointsCreated(g, u, v);
    assert Lookup(g.edges, (u, v)) == g.EdgeAttrs((u, v));
    r := AddEdge(g, u, v, ConnAttrs(conn));
    assert r == SetEdge(WithEndpoints(g, u, v), (u, v), Merged(g.EdgeAttrs((u, v)), ConnAttrs(conn)));
  }

  /** The connection loop, which counts the edges it adds. Missing endpoints are created with `{}`. */
  method AddConnectionEdges(g: Graph, connections: seq<Connection>) returns (r: Graph, connectionsAdded: nat)
    requires g.Valid()
    ensures r.Valid() && r.edges == ConnEdges(g.edges, connections)
    ensures r.nodes == WithEmptyNodes(g.nodes, Ends(connections))
    ensures Extends(g.order, r.order)
    ensures connectionsAdded == |connections|
  {
    r, connectionsAdded := g, 0;
    WithEmptyNone(g.nodes);
    for k := 0 to |connections|
      invariant r.Valid() && r.edges == ConnEdges(g.edges, connections[..k]) && connectionsAdded == k
      invariant r.nodes == WithEmptyNodes(g.nodes, Ends(connections[..k]))
      invariant Extends(g.order, r.order)
    {
      var c := connections[k];
      ConnStep(g.edges, connections, k);
      WithEmptyTwice(g.nodes, Ends(connections[..k]), {c.roadNode, c.stationId});
      ghost var r0 := r;
      r := AddConnectionEdge(r, c);
      assert Extends(r0.order, r.order);
      connectionsAdded := connectionsAdded + 1;
    }
    assert connections[..|connections|] == connections;
  }

  lemma ConnStep(edges: map<Edge, Attrs>, conns: seq<Connection>, k: nat)
    requires k < |conns|
    ensures Ends(conns[..k + 1]) == Ends(conns[..k]) + {conns[k].roadNode, conns[k].stationId}
    ensures ConnEdges(edges, conns[..k + 1]) == ConnEdges(edges, conns[..k])[Pair(conns[k]) := Merged(Lookup(ConnEdges(edges, conns[..k]), Pair(conns[k])), ConnAttrs(conns[k]))]
  {
    assert conns[..k + 1][..k] == conns[..k];
  }

  // ---------------------------------------------------------------------------
  // create_combined_graph

  /** The edges after the walking backfill over the PT edges. */
  ghost function AfterWalkBackfill(pt: map<Edge, Attrs>): map<Edge, Attrs>
  {
    Backfilled(pt, pt, pt.Keys, IsWalkTransfer)
  }

  /** The edges after the transport backfill over the edges present at its start. */
  ghost function AfterTransportBackfill(pt: map<Edge, Attrs>): map<Edge, Attrs>
  {
    var g1 := AfterWalkBackfill(pt);
    Backfilled(g1, g1, g1.Keys, IsTransport)
  }

  /** The edges of the graph `create_combined_graph` returns. */
  ghost function CombinedEdges(gPt: Graph, gCar: Graph, conns: seq<Connection>): map<Edge, Attrs>
  {
    ConnEdges(EdgesFrom(AfterTransportBackfill(gPt.edges), gCar.edges, gCar.edges.Keys), conns)
  }

  /** Adding a graph's nodes to an empty graph gives its own node dictionaries. */
  lemma NodesCopied(g: Graph)
    requires g.Valid()
    ensures NodesFrom(map[], g.order, g.nodes) == g.nodes
  {
    var m := NodesFrom(map[], g.order, g.nodes);
    forall n | n in m
      ensures n in g.nodes && m[n] == g.nodes[n]
    {
      assert n in g.order;
      var none: map<NodeId, Attrs> := map[];
      assert Lookup(none, n) == None;
    }
    assert m.Keys == g.nodes.Keys;
  }

  /** Adding a graph's edges to an empty edge map gives its own edge dictionaries. */
  lemma EdgesCopied(edges: map<Edge, Attrs>)
    ensures EdgesFrom(map[], edges, edges.Keys) == edges
  {
    var d := EdgesFrom(map[], edges, edges.Keys);
    forall e | e in d
      ensures e in edges && d[e] == edges[e]
    {
      var none: map<Edge, Attrs> := map[];
      assert Lookup(none, e) == None;
    }
    assert d.Keys == edges.Keys;
  }

  /**
   * The first two steps of `create_combined_graph` copy the PT graph into
   * an empty DiGraph: the copy is the PT graph, order included.
   */
  method CopyGraph(g: Graph) returns (r: Graph)
    requires g.Valid()
    ensures r == g
  {
    EmptyGraphValid();
    NodesCopied(g);
    NewIdsOfNone(g.order);
    EdgesCopied(g.edges);
    assert EmptyGraph.nodes.Keys == {};
    var h := AddNodesFrom(EmptyGraph, g);
    assert h.nodes == g.nodes && h.order == g.order && h.edges == map[];
    r := AddEdgesFrom(h, g);
    assert r.edges == g.edges;
  }

  /** The node dictionaries of the graph `create_combined_graph` returns. */
  ghost function CombinedNodes(gPt: Graph, gCar: Graph, conns: seq<Connection>): map<NodeId, Attrs>
    requires gCar.Valid()
  {
    WithEmptyNodes(NodesFrom(gPt.nodes, gCar.order, gCar.nodes), Ends(conns))
  }

  /**
   * `create_combined_graph`, with the three counters it logs. The PT nodes
   * come first, in PT order, then the new car nodes in car order, then the
   * endpoints the connection edges create.
   */
  method CreateCombinedGraph(gPt: Graph, gCar: Graph, connections: seq<Connection>)
    returns (gCombined: Graph, walkingEdgesAdded: nat, reverseEdgesAdded: nat, connectionsAdded: nat)
    requires gPt.Valid() && gCar.Valid()
    ensures gCombined.Valid()
    ensures gCombined.edges == CombinedEdges(gPt, gCar, connections)
    ensures gCombined.nodes == CombinedNodes(gPt, gCar, connections)
    ensures Extends(gPt.order + NewIds(gPt.nodes.Keys, gCar.order), gCombined.order)
    ensures walkingEdgesAdded == |Reverses(gPt.edges, gPt.edges.Keys, IsWalkTransfer, gPt.edges.Keys)|
    ensures var g1 := AfterWalkBackfill(gPt.edges);
      reverseEdgesAdded == |Reverses(g1, g1.Keys, IsTransport, g1.Keys)|
    ensures connectionsAdded == |connections|
  {
    var g2;
    g2, walkingEdgesAdded, reverseEdgesAdded := AddPtGraph(gPt);
    var g3 := AddCarGraph(g2, gCar);
    gCombined, connectionsAdded := AddConnectionEdges(g3, connections);
  }

  /** The PT copy and the two backfill passes. */
  method AddPtGraph(gPt: Graph) returns (r: Graph, walkingEdgesAdded: nat, reverseEdgesAdded: nat)
    requires gPt.Valid()
    ensures r.Valid() && r.order == gPt.order && r.nodes == gPt.nodes
    ensures r.edges == AfterTransportBackfill(gPt.edges)
    ensures walkingEdgesAdded == |Reverses(gPt.edges, gPt.edges.Keys, IsWalkTransfer, gPt.edges.Keys)|
    ensures var g1 := AfterWalkBackfill(gPt.edges);
      reverseEdgesAdded == |Reverses(g1, g1.Keys, IsTransport, g1.Keys)|
  {
    var g0 := CopyGraph(gPt);
    var g1;
    g1, walkingEdgesAdded := BackfillReverses(g0, gPt.edges, IsWalkTransfer);
    r, reverseEdgesAdded := BackfillReverses(g1, g1.edges, IsTransport);
  }

  /** `add_nodes_from` and `add_edges_from` with the car graph. */
  method AddCarGraph(g: Graph, gCar: Graph) returns (r: Graph)
    requires g.Valid() && gCar.Valid()
    ensures r.Valid() && r.edges == EdgesFrom(g.edges, gCar.edges, gCar.edges.Keys)
    ensures r.nodes == NodesFrom(g.nodes, gCar.order, gCar.nodes)
    ensures r.order == g.order + NewIds(g.nodes.Keys, gCar.order)
  {
    var h := AddNodesFrom(g, gCar);
    assert forall n :: n in gCar.nodes ==> n in h.nodes by {
      assert forall n :: n in gCar.nodes ==> n in gCar.order;
    }
    r := AddEdgesFrom(h, gCar);
  }

  /**
   * The nodes of the result: the PT nodes, the car nodes and the records'
   * endpoints. A car node's dictionary is its PT dictionary (if any)
   * updated with its car one, a PT-only node keeps its dictionary, and an
   * endpoint that was in neither graph has `{}`.
   */
  lemma CombinedNodeAttrs(gPt: Graph, gCar: Graph, conns: seq<Connection>)
    requires gCar.Valid()
    ensures var r := CombinedNodes(gPt, gCar, conns);
      && (forall n :: n in r <==> n in gPt.nodes || n in gCar.nodes || n in Ends(conns))
      && (forall n :: n in gCar.nodes ==> r[n] == Merged(Lookup(gPt.nodes, n), gCar.nodes[n]))
      && (forall n :: n in gPt.nodes && n !in gCar.nodes ==> r[n] == gPt.nodes[n])
      && (forall n :: n in r && n !in gPt.nodes && n !in gCar.nodes ==> r[n] == map[])
  {
    var h := NodesFrom(gPt.nodes, gCar.order, gCar.nodes);
    forall n | n in gCar.nodes
      ensures h[n] == Merged(Lookup(gPt.nodes, n), gCar.nodes[n])
    {
      assert n in gCar.order;
    }
  }

  /** The edges after both backfills: the PT edges, and the reverses of the selected ones. */
  lemma TransportBackfillEdges(pt: map<Edge, Attrs>)
    ensures var g2 := AfterTransportBackfill(pt);
      forall e :: e in g2 <==> e in pt || (Rev(e) in pt && (IsWalkTransfer(pt[Rev(e)]) || IsTransport(pt[Rev(e)])))
  {
    var g1 := AfterWalkBackfill(pt);
    var g2 := AfterTransportBackfill(pt);
    assert forall e: Edge :: Rev(Rev(e)) == e;
    forall e | e in g2 && e !in pt
      ensures Rev(e) in pt && (IsWalkTransfer(pt[Rev(e)]) || IsTransport(pt[Rev(e)]))
    {
      if e !in g1 {
        // A synthesized walking reverse has mode 'walk', so it is not a transport edge.
        assert Rev(e) in g1 && IsTransport(g1[Rev(e)]);
      }
    }
  }

  /**
   * The edges of the result: PT edges, car edges, the records' pairs and
   * reverses of PT walking or transport edges. In particular no car edge
   * and no connection edge gets a synthesized reverse.
   */
  lemma CombinedEdgeSet(gPt: Graph, gCar: Graph, conns: seq<Connection>)
    ensures forall e :: e in CombinedEdges(gPt, gCar, conns) <==>
              || e in gPt.edges || e in gCar.edges || e in Pairs(conns)
              || (Rev(e) in gPt.edges && (IsWalkTransfer(gPt.edges[Rev(e)]) || IsTransport(gPt.edges[Rev(e)])))
  {
    TransportBackfillEdges(gPt.edges);
  }

  /** Every PT walking transfer and every PT tram, bus or train edge has a reverse in the result. */
  lemma CombinedReversible(gPt: Graph, gCar: Graph, conns: seq<Connection>)
    ensures forall e :: e in gPt.edges && (IsWalkTransfer(gPt.edges[e]) || IsTransport(gPt.edges[e])) ==>
              Rev(e) in CombinedEdges(gPt, gCar, conns)
  {
    CombinedEdgeSet(gPt, gCar, conns);
    assert forall e: Edge :: Rev(Rev(e)) == e;
  }

  /**
   * Dictionaries: a PT edge not overwritten later keeps its attributes, and
   * a synthesized reverse has the attributes of the PT edge it reverses.
   */
  lemma CombinedPtAttrs(gPt: Graph, gCar: Graph, conns: seq<Connection>)
    ensures var r := CombinedEdges(gPt, gCar, conns);
      && (forall e :: e in gPt.edges && e !in gCar.edges && e !in Pairs(conns) ==> r[e] == gPt.edges[e])
      && (forall e :: e in r && e !in gPt.edges && e !in gCar.edges && e !in Pairs(conns) ==>
            Rev(e) in gPt.edges && r[e] == gPt.edges[Rev(e)])
  {
    var g1 := AfterWalkBackfill(gPt.edges);
    var g2 := AfterTransportBackfill(gPt.edges);
    var g3 := EdgesFrom(g2, gCar.edges, gCar.edges.Keys);
    ConnEdgesKeep(g3, conns);
    TransportBackfillEdges(gPt.edges);
    forall e | e in g2 && e !in gPt.edges
      ensures Rev(e) in gPt.edges && g2[e] == gPt.edges[Rev(e)]
    {
      if e !in g1 {
        assert Rev(e) in g1 && g2[e] == g1[Rev(e)];
      }
    }
  }

  /**
   * Every record's pair is an edge of the result tagged as a walking
   * car-to-PT transfer without emissions. The last record for a pair also
   * gives it its distance, time (the walking time) and station name.
   */
  lemma CombinedConnections(gPt: Graph, gCar: Graph, conns: seq<Connection>)
    ensures var r := CombinedEdges(gPt, gCar, conns);
      && (forall i :: 0 <= i < |conns| ==>
            && Pair(conns[i]) in r && Get(r[Pair(conns[i])], "mode") == Str("walk")
            && Get(r[Pair(conns[i])], "edge_type") == Str("car_to_pt_transfer")
            && Get(r[Pair(conns[i])], "emissions") == Num(0.0))
      && (forall i :: 0 <= i < |conns| && (forall j :: i < j < |conns| ==> Pair(conns[j]) != Pair(conns[i])) ==>
            && Pair(conns[i]) in r && Get(r[Pair(conns[i])], "distance") == Num(conns[i].distance)
            && Get(r[Pair(conns[i])], "time") == Num(conns[i].walkTime)
            && Get(r[Pair(conns[i])], "station_name") == conns[i].stationName)
  {
    var g3 := EdgesFrom(AfterTransportBackfill(gPt.edges), gCar.edges, gCar.edges.Keys);
    ConnEdgesTagged(g3, conns);
    ConnEdgesLast(g3, conns);
  }

  // ---------------------------------------------------------------------------
  // analyze_combined_graph: the edge-mode histogram

  function EdgeMode(e: Edge, a: Attrs): Value
  {
    GetOr(a, "mode", Str("unknown"))
  }

  /** `mode_counts`: one count per edge, under its mode or 'unknown'. */
  method EdgeModeCounts(g: Graph) returns (modeCounts: multiset<Value>)
    ensures |modeCounts| == |g.edges|
    ensures forall m :: modeCounts[m] == |set e | e in g.edges && GetOr(g.edges[e], "mode", Str("unknown")) == m|
  {
    modeCounts := Tally(g.edges, EdgeMode);
    forall m
      ensures Matching(g.edges, g.edges.Keys, EdgeMode, m) == set e | e in g.edges && GetOr(g.edges[e], "mode", Str("unknown")) == m
    {
    }
  }
}
