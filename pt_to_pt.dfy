/**
 * The PT walking-connection builder (connections/pt_to_pt.py).
 *
 * The builder first removes its own old edges (walk / pt_transfer), then
 * takes every PT node with coordinates as a candidate. For every candidate i
 * and every index j the radius query returns, it either skips the visit
 * with a counter or inserts walking edges in both directions. It does not
 * skip a pair when the edge exists only in the other direction. A last,
 * report-only pass sorts every transfer edge into a mode category.
 *
 * The nested loops are specified by the fold `ScanFrom` below. It visits the
 * same pairs in the same order as the loops. The builder's methods are proved
 * to compute it, and the lemmas state what the fold guarantees.
 */
module PtToPt {
  import opened Graphs
  import opened Ordering
  import opened Spatial
  import opened Config
  import opened Histograms

  function TransferEdges(g: Graph): set<Edge>
  {
    set e | e in g.edges && IsWalkTransfer(g.edges[e])
  }

  /**
   * The graph after the clearing step: every walk / pt_transfer edge is
   * removed, and nothing else changes.
   */
  function ClearTransfers(g: Graph): (r: Graph)
    requires g.Valid()
    ensures r.Valid() && r.order == g.order && r.nodes == g.nodes
    ensures TransferEdges(r) == {}
    ensures forall e :: e in r.edges ==> e in g.edges && r.edges[e] == g.edges[e]
    ensures forall e :: e in g.edges && !IsWalkTransfer(g.edges[e]) ==> e in r.edges
  {
    g.(edges := map e | e in g.edges && !IsWalkTransfer(g.edges[e]) :: g.edges[e])
  }

  /** A graph that lost exactly the transfer edges of `g`, and changed nothing else, is the cleared graph. */
  lemma ClearedGraph(g: Graph, h: Graph)
    requires g.Valid() && h.order == g.order && h.nodes == g.nodes
    requires h.edges.Keys == g.edges.Keys - TransferEdges(g)
    requires forall e :: e in h.edges ==> h.edges[e] == g.edges[e]
    ensures h == ClearTransfers(g)
  {
    var c := ClearTransfers(g);
    forall e ensures e in h.edges <==> e in c.edges
    {
      assert e in h.edges.Keys <==> e in g.edges.Keys - TransferEdges(g);
    }
    assert h.edges == c.edges;
  }

  /** The elements of a sequence, as a set. */
  function ElementsOf<T>(s: seq<T>): set<T>
  {
    set x | x in s
  }

  lemma ElementsOfStep<T>(s: seq<T>, k: nat)
    requires k < |s|
    ensures ElementsOf(s[..k + 1]) == ElementsOf(s[..k]) + {s[k]}
  {
    assert s[..k + 1] == s[..k] + [s[k]];
  }

  /**
   * The PT nodes with coordinates, in node order: the nodes among `ids` whose
   * dictionary has both a 'lat' and a 'lon' key, with that dictionary.
   */
  function CoordNodesOf(nodes: map<NodeId, Attrs>, ids: seq<NodeId>): (r: seq<(NodeId, Attrs)>)
    ensures forall k :: 0 <= k < |r| ==> r[k].0 in ids && r[k].0 in nodes && r[k].1 == nodes[r[k].0] && HasLatLon(r[k].1)
    ensures forall n :: n in ids && n in nodes && HasLatLon(nodes[n]) ==> (n, nodes[n]) in r
    ensures NoDup(ids) ==> forall k, l :: 0 <= k < l < |r| ==> r[k].0 != r[l].0
  {
    if ids == [] then []
    else
      var rest := CoordNodesOf(nodes, ids[..|ids| - 1]);
      var n := ids[|ids| - 1];
      assert forall m :: m in ids <==> m in ids[..|ids| - 1] || m == n;
      assert NoDup(ids) ==> NoDup(ids[..|ids| - 1]) && n !in ids[..|ids| - 1];
      if n in nodes && HasLatLon(nodes[n]) then rest + [(n, nodes[n])] else rest
  }

  function IdsOf(pt: seq<(NodeId, Attrs)>): (ids: seq<NodeId>)
  {
    seq(|pt|, k requires 0 <= k < |pt| => pt[k].0)
  }

  /** `[node_data['lat'], node_data['lon']]` for every candidate. */
  function CoordsOf(pt: seq<(NodeId, Attrs)>): (coords: seq<Point>)
    requires forall k :: 0 <= k < |pt| ==> "lat" in pt[k].1 && "lon" in pt[k].1
  {
    seq(|pt|, k requires 0 <= k < |pt| => Point(pt[k].1["lat"], pt[k].1["lon"]))
  }

  /**
   * The dictionary `_add_walking_edge` passes to `add_edge`. The rounded
   * display copies walk_distance_m and walk_time_min are not part of it.
   */
  function WalkEdgeAttrs(d: real, speed: real): (a: Attrs)
    requires speed != 0.0
  {
    map["mode" := Str("walk"), "distance" := Num(d), "time" := Num(d / speed),
        "emissions" := Num(0.0), "edge_type" := Str("pt_transfer")]
  }

  /** A walking edge is one the builder owns, and so one the next run clears. */
  lemma WalkEdgeIsTransfer(d: real, speed: real)
    requires speed != 0.0
    ensures IsWalkTransfer(WalkEdgeAttrs(d, speed))
  {
  }

  /**
   * A dictionary that carries a walking edge within the budget: walk /
   * pt_transfer, zero emissions, a distance of at most `maxWalk`, and a time
   * of distance / speed.
   */
  predicate CarriesWalk(a: Attrs, maxWalk: real, speed: real)
    requires speed != 0.0
  {
    && IsWalkTransfer(a)
    && Get(a, "distance").Num? && Get(a, "distance").r <= maxWalk
    && Get(a, "time") == Num(Get(a, "distance").r / speed)
    && Get(a, "emissions") == Num(0.0)
  }

  /** What `add_connections` works with: the candidates, their points and the oracles. */
  datatype Setup = Setup(ids: seq<NodeId>, coords: seq<Point>, geodesic: Geodesic, query: BallQuery,
                         radius: real, maxWalk: real, speed: real)
  {
    ghost predicate Ok()
    {
      |ids| == |coords| && InRange(query) && speed != 0.0
    }

    /** `tree.query_ball_point(coords[i], search_radius_degrees)`. */
    function Candidates(i: nat): (js: seq<nat>)
      requires Ok() && i < |coords|
      ensures forall k :: 0 <= k < |js| ==> js[k] < |ids|
    {
      query(coords, coords[i], radius)
    }
  }

  /** The candidates are distinct nodes of `g`, as they are when taken from it. */
  ghost predicate FromGraph(su: Setup, g: Graph)
  {
    NoDup(su.ids) && forall n :: n in su.ids ==> n in g.nodes
  }

  /** The state of `add_connections`: the graph, the stats counters and `pairs_added`. */
  datatype Scan = Scan(graph: Graph, edgesAdded: nat, nodesChecked: nat, skippedExisting: nat,
                       skippedTooFar: nat, pairs: set<Edge>)

  function Start(g: Graph): Scan
  {
    Scan(g, 0, 0, 0, 0, {})
  }

  /** One pass of the inner loop: candidate i visiting index j. */
  function Visit(s: Scan, su: Setup, i: nat, j: nat): (r: Scan)
    requires su.Ok() && i < |su.ids| && j < |su.ids| && s.graph.Valid()
    ensures r.graph.Valid()
  {
    if i == j then s
    else
      var d := su.geodesic(su.coords[i], su.coords[j]);
      if d > su.maxWalk then s.(skippedTooFar := s.skippedTooFar + 1)
      else if s.graph.HasEdge(su.ids[i], su.ids[j]) then s.(skippedExisting := s.skippedExisting + 1)
      else InsertPair(s, su.ids[i], su.ids[j], WalkEdgeAttrs(d, su.speed))
  }

  /**
   * The insertion: `_add_walking_edge` both ways, edges_added += 2, and the
   * sorted pair added to `pairs_added`.
   */
  function InsertPair(s: Scan, a: NodeId, b: NodeId, w: Attrs): (r: Scan)
    requires s.graph.Valid()
    ensures r.graph.Valid()
  {
    s.(graph := AddEdge(AddEdge(s.graph, a, b, w), b, a, w), edgesAdded := s.edgesAdded + 2,
       pairs := s.pairs + {SortedPair(a, b)})
  }

  /**
   * An insertion on a graph without u->v: u->v gets the walking edge, v->u
   * gets it merged over whatever it had, edges_added grows by two, the
   * sorted pair joins `pairs_added`, and no other edge and no counter changes.
   */
  lemma InsertPairEffect(s: Scan, a: NodeId, b: NodeId, w: Attrs)
    requires s.graph.Valid() && !s.graph.HasEdge(a, b)
    ensures var r := InsertPair(s, a, b, w);
      && (a, b) in r.graph.edges && r.graph.edges[(a, b)] == Merged(None, w)
      && (b, a) in r.graph.edges && r.graph.edges[(b, a)] == Merged(s.graph.EdgeAttrs((b, a)), w)
      && (forall e :: e != (a, b) && e != (b, a) ==>
            (e in r.graph.edges <==> e in s.graph.edges) && (e in s.graph.edges ==> r.graph.edges[e] == s.graph.edges[e]))
      && (a in s.graph.nodes && b in s.graph.nodes ==> r.graph.order == s.graph.order && r.graph.nodes == s.graph.nodes)
      && r.edgesAdded == s.edgesAdded + 2 && r.pairs == s.pairs + {SortedPair(a, b)}
      && r.nodesChecked == s.nodesChecked && r.skippedExisting == s.skippedExisting && r.skippedTooFar == s.skippedTooFar
  {
    var g1 := AddEdge(s.graph, a, b, w);
    var g2 := AddEdge(g1, b, a, w);
    assert InsertPair(s, a, b, w).graph == g2;
    assert s.graph.EdgeAttrs((a, b)) == None;
    if a == b {
      assert s.graph.EdgeAttrs((b, a)) == None;
    } else {
      assert g1.EdgeAttrs((b, a)) == s.graph.EdgeAttrs((b, a));
    }
    forall e | e != (a, b) && e != (b, a)
      ensures (e in g2.edges <==> e in s.graph.edges) && (e in s.graph.edges ==> g2.edges[e] == s.graph.edges[e])
    {
      assert e in g2.edges.Keys <==> e in g1.edges.Keys;
      assert e in g1.edges.Keys <==> e in s.graph.edges.Keys;
    }
  }

  /** The insertion branch of a visit of two distinct candidates within budget whose forward edge is missing. */
  lemma VisitInserts(s: Scan, su: Setup, i: nat, j: nat)
    requires su.Ok() && i < |su.ids| && j < |su.ids| && s.graph.Valid() && i != j
    requires su.geodesic(su.coords[i], su.coords[j]) <= su.maxWalk && !s.graph.HasEdge(su.ids[i], su.ids[j])
    ensures var r := Visit(s, su, i, j);
      var a, b, w := su.ids[i], su.ids[j], WalkEdgeAttrs(su.geodesic(su.coords[i], su.coords[j]), su.speed);
      && (a, b) in r.graph.edges && r.graph.edges[(a, b)] == Merged(None, w)
      && (b, a) in r.graph.edges && r.graph.edges[(b, a)] == Merged(s.graph.EdgeAttrs((b, a)), w)
      && (forall e :: e != (a, b) && e != (b, a) ==>
            (e in r.graph.edges <==> e in s.graph.edges) && (e in s.graph.edges ==> r.graph.edges[e] == s.graph.edges[e]))
      && (a in s.graph.nodes && b in s.graph.nodes ==> r.graph.order == s.graph.order && r.graph.nodes == s.graph.nodes)
      && r.edgesAdded == s.edgesAdded + 2 && r.pairs == s.pairs + {SortedPair(a, b)}
      && r.nodesChecked == s.nodesChecked && r.skippedExisting == s.skippedExisting && r.skippedTooFar == s.skippedTooFar
  {
    var a, b, w := su.ids[i], su.ids[j], WalkEdgeAttrs(su.geodesic(su.coords[i], su.coords[j]), su.speed);
    assert Visit(s, su, i, j) == InsertPair(s, a, b, w);
    InsertPairEffect(s, a, b, w);
  }

  /** The inner loop over the indices `js` the query returned for candidate i. */
  function VisitAll(s: Scan, su: Setup, i: nat, js: seq<nat>): (r: Scan)
    requires su.Ok() && i < |su.ids| && s.graph.Valid()
    requires forall k :: 0 <= k < |js| ==> js[k] < |su.ids|
    ensures r.graph.Valid()
    decreases |js|
  {
    if js == [] then s else Visit(VisitAll(s, su, i, js[..|js| - 1]), su, i, js[|js| - 1])
  }

  lemma VisitAllStep(s: Scan, su: Setup, i: nat, js: seq<nat>, k: nat)
    requires su.Ok() && i < |su.ids| && s.graph.Valid() && k < |js|
    requires forall m :: 0 <= m < |js| ==> js[m] < |su.ids|
    ensures VisitAll(s, su, i, js[..k + 1]) == Visit(VisitAll(s, su, i, js[..k]), su, i, js[k])
  {
    assert js[..k + 1][..k] == js[..k];
  }

  /** The outer loop over the first n candidates. */
  function ScanFrom(s: Scan, su: Setup, n: nat): (r: Scan)
    requires su.Ok() && n <= |su.ids| && s.graph.Valid()
    ensures r.graph.Valid()
  {
    if n == 0 then s
    else
      var prev := ScanFrom(s, su, n - 1);
      VisitAll(prev.(nodesChecked := prev.nodesChecked + 1), su, n - 1, su.Candidates(n - 1))
  }

  lemma ScanFromStep(s: Scan, su: Setup, i: nat)
    requires su.Ok() && i < |su.ids| && s.graph.Valid()
    ensures var prev := ScanFrom(s, su, i);
      ScanFrom(s, su, i + 1) == VisitAll(prev.(nodesChecked := prev.nodesChecked + 1), su, i, su.Candidates(i))
  {
  }

  /** The number of indices in `js` other than i itself. */
  function NonSelf(i: nat, js: seq<nat>): nat
  {
    if js == [] then 0 else NonSelf(i, js[..|js| - 1]) + (if js[|js| - 1] == i then 0 else 1)
  }

  /** The number of inner-loop visits of the first n candidates that are not self-visits. */
  function VisitsUpTo(su: Setup, n: nat): nat
    requires su.Ok() && n <= |su.ids|
  {
    if n == 0 then 0 else VisitsUpTo(su, n - 1) + NonSelf(n - 1, su.Candidates(n - 1))
  }

  /**
   * An inserted pair: both directions exist and carry the same walking edge
   * within budget, between two distinct candidates, in sorted form.
   */
  ghost predicate Linked(g: Graph, p: Edge, su: Setup)
    requires su.Ok()
  {
    && p in g.edges && Rev(p) in g.edges
    && CarriesWalk(g.edges[p], su.maxWalk, su.speed)
    && CarriesWalk(g.edges[Rev(p)], su.maxWalk, su.speed)
    && Get(g.edges[p], "distance") == Get(g.edges[Rev(p)], "distance")
    && p.0 != p.1 && p.0 in su.ids && p.1 in su.ids && StrLe(p.0, p.1)
  }

  /**
   * What holds of the state throughout the scan that started from `g0`. The
   * nodes are those of g0. The counter edges_added is twice the number of
   * pairs, and every pair is linked. Every edge of g0 is still there, and
   * every edge belongs to an inserted pair or is g0's edge with its old
   * dictionary.
   */
  ghost predicate ScanInv(s: Scan, g0: Graph, su: Setup)
    requires su.Ok()
  {
    && s.graph.Valid()
    && s.graph.order == g0.order && s.graph.nodes == g0.nodes
    && s.edgesAdded == 2 * |s.pairs|
    && (forall p :: p in s.pairs ==> Linked(s.graph, p, su))
    && (forall e :: e in g0.edges ==> e in s.graph.edges)
    && (forall e :: e in s.graph.edges ==>
          SortedPair(e.0, e.1) in s.pairs || (e in g0.edges && s.graph.edges[e] == g0.edges[e]))
  }

  /** The first `add_edge` of an insertion, on a graph without u->v: u->v gets exactly `w`. */
  lemma AddFreshEdge(g: Graph, a: NodeId, b: NodeId, w: Attrs)
    requires g.Valid() && (a, b) !in g.edges
    ensures (a, b) in AddEdge(g, a, b, w).edges && AddEdge(g, a, b, w).edges[(a, b)] == w
  {
    assert g.EdgeAttrs((a, b)) == None;
  }

  /** The second `add_edge` of an insertion merges `w` over whatever v->u had. */
  lemma AddOverEdge(g: Graph, b: NodeId, a: NodeId, w: Attrs)
    requires g.Valid()
    ensures (b, a) in AddEdge(g, b, a, w).edges
    ensures forall k :: k in w ==> Get(AddEdge(g, b, a, w).edges[(b, a)], k) == w[k]
  {
  }

  /** The edges after both `add_edge` calls: the old ones, u->v and v->u; only v->u may change. */
  lemma AddBothWaysFrame(g: Graph, a: NodeId, b: NodeId, w: Attrs)
    requires g.Valid() && a != b
    ensures var g2 := AddEdge(AddEdge(g, a, b, w), b, a, w);
      && (forall e :: e in g2.edges <==> e in g.edges || e == (a, b) || e == (b, a))
      && (forall e :: e in g.edges && e != (a, b) && e != (b, a) ==> g2.edges[e] == g.edges[e])
  {
    var g1 := AddEdge(g, a, b, w);
    var g2 := AddEdge(g1, b, a, w);
    forall e
      ensures e in g2.edges <==> e in g.edges || e == (a, b) || e == (b, a)
    {
      assert e in g2.edges.Keys <==> e in g1.edges.Keys || e == (b, a);
      assert e in g1.edges.Keys <==> e in g.edges.Keys || e == (a, b);
    }
  }

  /** Neither `add_edge` call of an insertion between two nodes of `g` adds a node. */
  lemma AddBothWaysNodes(g: Graph, a: NodeId, b: NodeId, w: Attrs)
    requires g.Valid() && a in g.nodes && b in g.nodes
    ensures AddEdge(AddEdge(g, a, b, w), b, a, w).order == g.order
    ensures AddEdge(AddEdge(g, a, b, w), b, a, w).nodes == g.nodes
  {
  }

  /** An inserted pair is linked once both of its edges carry the same walking edge. */
  lemma NewPairLinked(g2: Graph, su: Setup, a: NodeId, b: NodeId, d: real)
    requires su.Ok() && a != b && a in su.ids && b in su.ids && d <= su.maxWalk
    requires (a, b) in g2.edges && g2.edges[(a, b)] == WalkEdgeAttrs(d, su.speed)
    requires (b, a) in g2.edges
    requires forall k :: k in WalkEdgeAttrs(d, su.speed) ==> Get(g2.edges[(b, a)], k) == WalkEdgeAttrs(d, su.speed)[k]
    ensures Linked(g2, SortedPair(a, b), su)
  {
    var w := WalkEdgeAttrs(d, su.speed);
    assert Get(g2.edges[(b, a)], "mode") == w["mode"];
    assert Get(g2.edges[(b, a)], "edge_type") == w["edge_type"];
    assert Get(g2.edges[(b, a)], "distance") == w["distance"];
    assert Get(g2.edges[(b, a)], "time") == w["time"];
    assert Get(g2.edges[(b, a)], "emissions") == w["emissions"];
  }

  /** A pair linked before an insertion of {a, b} that it is not stays linked. */
  lemma OldPairLinked(g: Graph, g2: Graph, su: Setup, q: Edge, a: NodeId, b: NodeId)
    requires su.Ok() && Linked(g, q, su) && (a, b) !in g.edges
    requires forall e :: e in g.edges && e != (a, b) && e != (b, a) ==> e in g2.edges && g2.edges[e] == g.edges[e]
    ensures Linked(g2, q, su)
  {
    assert q != (a, b) && Rev(q) != (a, b);
    assert q != (b, a) && Rev(q) != (b, a);
  }

  /**
   * The invariant after an insertion, stated over any state `r` whose graph
   * differs from the old one as the two `add_edge` calls make it differ.
   */
  lemma InsertKeepsInv(s: Scan, r: Scan, su: Setup, g0: Graph, a: NodeId, b: NodeId, d: real)
    requires su.Ok() && ScanInv(s, g0, su)
    requires a != b && a in su.ids && b in su.ids && d <= su.maxWalk && (a, b) !in s.graph.edges
    requires r.graph.Valid() && r.graph.order == s.graph.order && r.graph.nodes == s.graph.nodes
    requires r.edgesAdded == s.edgesAdded + 2 && r.pairs == s.pairs + {SortedPair(a, b)}
    requires forall e :: e in r.graph.edges <==> e in s.graph.edges || e == (a, b) || e == (b, a)
    requires forall e :: e in s.graph.edges && e != (a, b) && e != (b, a) ==> r.graph.edges[e] == s.graph.edges[e]
    requires Linked(r.graph, SortedPair(a, b), su)
    ensures ScanInv(r, g0, su) && |r.pairs| == |s.pairs| + 1
  {
    var p := SortedPair(a, b);
    assert p in s.pairs ==> Linked(s.graph, p, su);
    assert p !in s.pairs;
    InsertKeepsLinks(s, r, su, a, b);
    InsertKeepsOrigins(s, r, g0, a, b);
  }

  /** The pairs linked before an insertion stay linked, and the new pair is linked too. */
  lemma InsertKeepsLinks(s: Scan, r: Scan, su: Setup, a: NodeId, b: NodeId)
    requires su.Ok() && (a, b) !in s.graph.edges
    requires forall q :: q in s.pairs ==> Linked(s.graph, q, su)
    requires r.pairs == s.pairs + {SortedPair(a, b)} && Linked(r.graph, SortedPair(a, b), su)
    requires forall e :: e in s.graph.edges ==> e in r.graph.edges
    requires forall e :: e in s.graph.edges && e != (a, b) && e != (b, a) ==> r.graph.edges[e] == s.graph.edges[e]
    ensures forall q :: q in r.pairs ==> Linked(r.graph, q, su)
  {
    forall q | q in r.pairs
      ensures Linked(r.graph, q, su)
    {
      if q != SortedPair(a, b) {
        OldPairLinked(s.graph, r.graph, su, q, a, b);
      }
    }
  }

  /** After an insertion every edge still belongs to a pair or is an unchanged edge of g0. */
  lemma InsertKeepsOrigins(s: Scan, r: Scan, g0: Graph, a: NodeId, b: NodeId)
    requires forall e :: e in s.graph.edges ==>
               SortedPair(e.0, e.1) in s.pairs || (e in g0.edges && s.graph.edges[e] == g0.edges[e])
    requires r.pairs == s.pairs + {SortedPair(a, b)}
    requires forall e :: e in r.graph.edges <==> e in s.graph.edges || e == (a, b) || e == (b, a)
    requires forall e :: e in s.graph.edges && e != (a, b) && e != (b, a) ==> r.graph.edges[e] == s.graph.edges[e]
    ensures forall e :: e in r.graph.edges ==>
              SortedPair(e.0, e.1) in r.pairs || (e in g0.edges && r.graph.edges[e] == g0.edges[e])
  {
    SortedPairSymmetric(a, b);
    forall e | e in r.graph.edges
      ensures SortedPair(e.0, e.1) in r.pairs || (e in g0.edges && r.graph.edges[e] == g0.edges[e])
    {
      if e == (a, b) || e == (b, a) {
        assert SortedPair(e.0, e.1) == SortedPair(a, b);
      } else {
        assert e in s.graph.edges && r.graph.edges[e] == s.graph.edges[e];
      }
    }
  }

  /** An insertion of a pair {a, b} without a->b keeps the invariant and adds exactly one pair. */
  lemma InsertPairPreserves(s: Scan, su: Setup, g0: Graph, a: NodeId, b: NodeId, d: real)
    requires su.Ok() && FromGraph(su, g0) && ScanInv(s, g0, su)
    requires a != b && a in su.ids && b in su.ids && d <= su.maxWalk && (a, b) !in s.graph.edges
    ensures ScanInv(InsertPair(s, a, b, WalkEdgeAttrs(d, su.speed)), g0, su)
    ensures |InsertPair(s, a, b, WalkEdgeAttrs(d, su.speed)).pairs| == |s.pairs| + 1
  {
    var w := WalkEdgeAttrs(d, su.speed);
    var g := s.graph;
    var g2 := AddEdge(AddEdge(g, a, b, w), b, a, w);
    assert a in g.nodes && b in g.nodes;
    assert && g2.Valid() && g2.order == g.order && g2.nodes == g.nodes
           && (forall e :: e in g2.edges <==> e in g.edges || e == (a, b) || e == (b, a))
           && (forall e :: e in g.edges && e != (a, b) && e != (b, a) ==> g2.edges[e] == g.edges[e])
           && Linked(g2, SortedPair(a, b), su) by {
      var g1 := AddEdge(g, a, b, w);
      AddFreshEdge(g, a, b, w);
      AddOverEdge(g1, b, a, w);
      assert g2.edges[(a, b)] == g1.edges[(a, b)];
      AddBothWaysFrame(g, a, b, w);
      AddBothWaysNodes(g, a, b, w);
      NewPairLinked(g2, su, a, b, d);
    }
    InsertKeepsInv(s, InsertPair(s, a, b, w), su, g0, a, b, d);
  }

  /** The visit that inserts a pair keeps the invariant and adds exactly one pair. */
  lemma InsertPreserves(s: Scan, su: Setup, g0: Graph, i: nat, j: nat)
    requires su.Ok() && FromGraph(su, g0) && i < |su.ids| && j < |su.ids| && i != j
    requires ScanInv(s, g0, su)
    requires su.geodesic(su.coords[i], su.coords[j]) <= su.maxWalk
    requires !s.graph.HasEdge(su.ids[i], su.ids[j])
    ensures ScanInv(Visit(s, su, i, j), g0, su)
    ensures |Visit(s, su, i, j).pairs| == |s.pairs| + 1
    ensures Visit(s, su, i, j).skippedTooFar == s.skippedTooFar
    ensures Visit(s, su, i, j).skippedExisting == s.skippedExisting
  {
    var d := su.geodesic(su.coords[i], su.coords[j]);
    assert su.ids[i] != su.ids[j];
    InsertPairPreserves(s, su, g0, su.ids[i], su.ids[j], d);
    assert Visit(s, su, i, j) == InsertPair(s, su.ids[i], su.ids[j], WalkEdgeAttrs(d, su.speed));
  }

  /**
   * One visit keeps the invariant, leaves nodes_checked alone, and counts
   * each visit that is not a self-visit exactly once: as too far, as
   * existing, or as a new pair.
   */
  lemma VisitPreserves(s: Scan, su: Setup, g0: Graph, i: nat, j: nat)
    requires su.Ok() && FromGraph(su, g0) && i < |su.ids| && j < |su.ids|
    requires ScanInv(s, g0, su)
    ensures ScanInv(Visit(s, su, i, j), g0, su)
    ensures Visit(s, su, i, j).nodesChecked == s.nodesChecked
    ensures Visit(s, su, i, j).skippedTooFar + Visit(s, su, i, j).skippedExisting + |Visit(s, su, i, j).pairs|
         == s.skippedTooFar + s.skippedExisting + |s.pairs| + (if i == j then 0 else 1)
  {
    if i != j && su.geodesic(su.coords[i], su.coords[j]) <= su.maxWalk && !s.graph.HasEdge(su.ids[i], su.ids[j]) {
      InsertPreserves(s, su, g0, i, j);
    }
  }

  lemma {:induction false} VisitAllPreserves(s: Scan, su: Setup, g0: Graph, i: nat, js: seq<nat>)
    requires su.Ok() && FromGraph(su, g0) && i < |su.ids|
    requires forall k :: 0 <= k < |js| ==> js[k] < |su.ids|
    requires ScanInv(s, g0, su)
    ensures ScanInv(VisitAll(s, su, i, js), g0, su)
    ensures VisitAll(s, su, i, js).nodesChecked == s.nodesChecked
    ensures VisitAll(s, su, i, js).skippedTooFar + VisitAll(s, su, i, js).skippedExisting + |VisitAll(s, su, i, js).pairs|
         == s.skippedTooFar + s.skippedExisting + |s.pairs| + NonSelf(i, js)
    decreases |js|
  {
    if js != [] {
      var front := js[..|js| - 1];
      VisitAllPreserves(s, su, g0, i, front);
      VisitPreserves(VisitAll(s, su, i, front), su, g0, i, js[|js| - 1]);
    }
  }

  /**
   * The whole scan of the first n candidates, from graph g0: the invariant
   * holds, nodes_checked is n, and the skip counters and the pairs together
   * account for every visit that is not a self-visit.
   */
  /** Counting a checked node touches nothing the invariant speaks of. */
  lemma CheckedKeepsInv(s: Scan, g0: Graph, su: Setup)
    requires su.Ok() && ScanInv(s, g0, su)
    ensures ScanInv(s.(nodesChecked := s.nodesChecked + 1), g0, su)
  {
  }

  lemma {:induction false} ScanFromPreserves(g0: Graph, su: Setup, n: nat)
    requires su.Ok() && FromGraph(su, g0) && n <= |su.ids| && g0.Valid()
    ensures ScanInv(ScanFrom(Start(g0), su, n), g0, su)
    ensures ScanFrom(Start(g0), su, n).nodesChecked == n
    ensures ScanFrom(Start(g0), su, n).skippedTooFar + ScanFrom(Start(g0), su, n).skippedExisting
            + |ScanFrom(Start(g0), su, n).pairs| == VisitsUpTo(su, n)
  {
    if n > 0 {
      ScanFromPreserves(g0, su, n - 1);
      var prev := ScanFrom(Start(g0), su, n - 1);
      var checked := prev.(nodesChecked := prev.nodesChecked + 1);
      CheckedKeepsInv(prev, g0, su);
      VisitAllPreserves(checked, su, g0, n - 1, su.Candidates(n - 1));
      assert VisitsUpTo(su, n) == VisitsUpTo(su, n - 1) + NonSelf(n - 1, su.Candidates(n - 1));
    }
  }

  /** The stats dictionary `add_connections` returns. */
  datatype Stats = Stats(edgesAdded: nat, uniquePairs: nat, nodesChecked: nat, skippedExisting: nat,
                         skippedTooFar: nat)

  /** What `add_walking_edges` returns: `{"error": "no_pt_nodes"}` or the stats. */
  datatype WalkingResult = NoPtNodes | Added(stats: Stats)

  function StatsOf(s: Scan): Stats
  {
    Stats(s.edgesAdded, |s.pairs|, s.nodesChecked, s.skippedExisting, s.skippedTooFar)
  }

  /** The candidates of a graph and the setup `add_connections` is given. */
  function RunSetup(g: Graph, geodesic: Geodesic, query: BallQuery, radius: real, maxWalk: real, speed: real): (su: Setup)
    requires g.Valid()
  {
    var pt := CoordNodesOf(g.nodes, g.order);
    Setup(IdsOf(pt), CoordsOf(pt), geodesic, query, radius, maxWalk, speed)
  }

  /**
   * `add_walking_edges` on graph g: the graph it leaves and what it returns.
   * The clearing happens first, also when there turn out to be no candidates.
   */
  function WalkingRun(g: Graph, geodesic: Geodesic, query: BallQuery, radius: real, maxWalk: real, speed: real)
    : (Graph, WalkingResult)
    requires g.Valid() && InRange(query) && speed != 0.0
  {
    var cleared := ClearTransfers(g);
    var su := RunSetup(cleared, geodesic, query, radius, maxWalk, speed);
    if |su.ids| == 0 then (cleared, NoPtNodes)
    else
      var s := ScanFrom(Start(cleared), su, |su.ids|);
      (s.graph, Added(StatsOf(s)))
  }

  /** The candidates are the nodes with a 'lat' and a 'lon' key, each once, in node order. */
  lemma RunSetupCandidates(g: Graph, geodesic: Geodesic, query: BallQuery, radius: real, maxWalk: real, speed: real)
    requires g.Valid()
    ensures var su := RunSetup(g, geodesic, query, radius, maxWalk, speed);
      && NoDup(su.ids) && |su.ids| == |su.coords|
      && (forall n :: n in su.ids <==> n in g.nodes && HasLatLon(g.nodes[n]))
      && (set n | n in su.ids) == (set n | n in g.nodes && HasLatLon(g.nodes[n]))
      && |su.ids| == |set n | n in g.nodes && HasLatLon(g.nodes[n])|
  {
    var pt := CoordNodesOf(g.nodes, g.order);
    var su := RunSetup(g, geodesic, query, radius, maxWalk, speed);
    forall n | n in g.nodes && HasLatLon(g.nodes[n])
      ensures n in su.ids
    {
      assert n in g.order;
      var k :| 0 <= k < |pt| && pt[k] == (n, g.nodes[n]);
      assert su.ids[k] == n;
    }
    assert (set n | n in su.ids) == (set n | n in g.nodes && HasLatLon(g.nodes[n]));
    NoDupCard(su.ids);
  }

  /**
   * With no candidate the run returns `no_pt_nodes` exactly when no node has
   * both a 'lat' and a 'lon' key, and the graph is then the cleared graph.
   */
  lemma WalkingRunNoPtNodes(g: Graph, geodesic: Geodesic, query: BallQuery, radius: real, maxWalk: real, speed: real)
    requires g.Valid() && InRange(query) && speed != 0.0
    ensures WalkingRun(g, geodesic, query, radius, maxWalk, speed).1 == NoPtNodes
        <==> forall n :: n in g.nodes ==> !HasLatLon(g.nodes[n])
    ensures WalkingRun(g, geodesic, query, radius, maxWalk, speed).1 == NoPtNodes
        ==> WalkingRun(g, geodesic, query, radius, maxWalk, speed).0 == ClearTransfers(g)
  {
    var cleared := ClearTransfers(g);
    RunSetupCandidates(cleared, geodesic, query, radius, maxWalk, speed);
    var su := RunSetup(cleared, geodesic, query, radius, maxWalk, speed);
    if |su.ids| != 0 {
      assert su.ids[0] in su.ids;
    }
  }

  /** The reverses of a set of edges. */
  function RevSet(pairs: set<Edge>): set<Edge>
  {
    set p | p in pairs :: Rev(p)
  }

  lemma {:induction false} RevSetCard(pairs: set<Edge>)
    ensures |RevSet(pairs)| == |pairs|
    decreases |pairs|
  {
    if pairs != {} {
      var p :| p in pairs;
      RevSetCard(pairs - {p});
      assert RevSet(pairs) == RevSet(pairs - {p}) + {Rev(p)};
      assert Rev(p) !in RevSet(pairs - {p});
    }
  }

  /**
   * Sorted pairs of distinct nodes and their reverses are all distinct: the
   * two directions of n pairs are 2n edges.
   */
  lemma TwoPerPair(pairs: set<Edge>)
    requires forall p :: p in pairs ==> p.0 != p.1 && StrLe(p.0, p.1)
    ensures |pairs + RevSet(pairs)| == 2 * |pairs|
  {
    forall q | q in pairs && q in RevSet(pairs)
      ensures false
    {
      var p :| p in pairs && q == Rev(p);
      StrLeAntisym(p.0, p.1);
    }
    assert pairs * RevSet(pairs) == {};
    RevSetCard(pairs);
  }

  /**
   * Where the scan started from a graph without transfer edges, the
   * transfer edges it leaves are exactly the two directions of its pairs.
   */
  lemma ScanTransfers(g0: Graph, su: Setup, s: Scan)
    requires su.Ok() && ScanInv(s, g0, su) && TransferEdges(g0) == {}
    ensures TransferEdges(s.graph) == s.pairs + RevSet(s.pairs)
    ensures |TransferEdges(s.graph)| == s.edgesAdded
  {
    TransferSet(g0, su, s);
    PairsOrdered(g0, su, s);
    TwoPerPair(s.pairs);
  }

  lemma TransferSet(g0: Graph, su: Setup, s: Scan)
    requires su.Ok() && ScanInv(s, g0, su) && TransferEdges(g0) == {}
    ensures TransferEdges(s.graph) == s.pairs + RevSet(s.pairs)
  {
    TransfersArePairs(g0, su, s);
    PairsAreTransfers(g0, su, s);
  }

  /** The pairs of the scan are sorted pairs of distinct nodes. */
  lemma PairsOrdered(g0: Graph, su: Setup, s: Scan)
    requires su.Ok() && ScanInv(s, g0, su)
    ensures forall p :: p in s.pairs ==> p.0 != p.1 && StrLe(p.0, p.1)
  {
    forall p | p in s.pairs
      ensures p.0 != p.1 && StrLe(p.0, p.1)
    {
      assert Linked(s.graph, p, su);
    }
  }

  /** Each transfer edge the scan leaves is one direction of one of its pairs. */
  lemma TransfersArePairs(g0: Graph, su: Setup, s: Scan)
    requires su.Ok() && ScanInv(s, g0, su) && TransferEdges(g0) == {}
    ensures forall e :: e in TransferEdges(s.graph) ==> e in s.pairs + RevSet(s.pairs)
  {
    forall e | e in TransferEdges(s.graph)
      ensures e in s.pairs + RevSet(s.pairs)
    {
      assert e !in TransferEdges(g0);
      var p := SortedPair(e.0, e.1);
      if e != p {
        assert e == Rev(p);
      }
    }
  }

  /** Both directions of each pair of the scan are transfer edges. */
  lemma PairsAreTransfers(g0: Graph, su: Setup, s: Scan)
    requires su.Ok() && ScanInv(s, g0, su)
    ensures forall e :: e in s.pairs + RevSet(s.pairs) ==> e in TransferEdges(s.graph)
  {
    forall e | e in s.pairs + RevSet(s.pairs)
      ensures e in TransferEdges(s.graph)
    {
      if e !in s.pairs {
        var p :| p in s.pairs && e == Rev(p);
        assert Linked(s.graph, p, su);
      } else {
        assert Linked(s.graph, e, su);
      }
    }
  }

  /** Every edge the scan leaves that is not a transfer edge is an edge of the start graph, unchanged. */
  lemma ScanOthers(g0: Graph, su: Setup, s: Scan)
    requires su.Ok() && ScanInv(s, g0, su)
    ensures forall e :: e in s.graph.edges && !IsWalkTransfer(s.graph.edges[e]) ==>
              e in g0.edges && s.graph.edges[e] == g0.edges[e]
  {
    forall e | e in s.graph.edges && !IsWalkTransfer(s.graph.edges[e])
      ensures e in g0.edges && s.graph.edges[e] == g0.edges[e]
    {
      var p := SortedPair(e.0, e.1);
      assert e == p || e == Rev(p);
      assert p in s.pairs ==> Linked(s.graph, p, su);
    }
  }

  /** Every transfer edge the scan leaves belongs to a linked pair. */
  lemma ScanSymmetric(g0: Graph, su: Setup, s: Scan, e: Edge)
    requires su.Ok() && ScanInv(s, g0, su) && TransferEdges(g0) == {}
    requires e in TransferEdges(s.graph)
    ensures && e.0 != e.1 && e.0 in su.ids && e.1 in su.ids && Rev(e) in TransferEdges(s.graph)
            && CarriesWalk(s.graph.edges[e], su.maxWalk, su.speed)
            && Get(s.graph.edges[e], "distance") == Get(s.graph.edges[Rev(e)], "distance")
  {
    assert e !in TransferEdges(g0);
    var p := SortedPair(e.0, e.1);
    assert Linked(s.graph, p, su);
  }

  /** A run that found candidates is the scan of those candidates over the cleared graph. */
  lemma WalkingRunScan(g: Graph, geodesic: Geodesic, query: BallQuery, radius: real, maxWalk: real, speed: real)
    requires g.Valid() && InRange(query) && speed != 0.0
    requires WalkingRun(g, geodesic, query, radius, maxWalk, speed).1.Added?
    ensures var cleared := ClearTransfers(g);
      var su := RunSetup(cleared, geodesic, query, radius, maxWalk, speed);
      var s := ScanFrom(Start(cleared), su, |su.ids|);
      && su.Ok() && FromGraph(su, cleared) && ScanInv(s, cleared, su)
      && WalkingRun(g, geodesic, query, radius, maxWalk, speed).0 == s.graph
      && WalkingRun(g, geodesic, query, radius, maxWalk, speed).1.stats == StatsOf(s)
      && s.nodesChecked == |su.ids|
      && s.skippedTooFar + s.skippedExisting + |s.pairs| == VisitsUpTo(su, |su.ids|)
  {
    var cleared := ClearTransfers(g);
    RunSetupCandidates(cleared, geodesic, query, radius, maxWalk, speed);
    var su := RunSetup(cleared, geodesic, query, radius, maxWalk, speed);
    ScanFromPreserves(cleared, su, |su.ids|);
  }

  /**
   * After a run that found candidates, every walk / pt_transfer edge joins
   * two distinct candidates and has its reverse. Both carry the same walking
   * edge within budget. The nodes, and their order, are unchanged.
   */
  lemma WalkingRunSymmetric(g: Graph, geodesic: Geodesic, query: BallQuery, radius: real, maxWalk: real, speed: real)
    requires g.Valid() && InRange(query) && speed != 0.0
    requires WalkingRun(g, geodesic, query, radius, maxWalk, speed).1.Added?
    ensures var g' := WalkingRun(g, geodesic, query, radius, maxWalk, speed).0;
      && g'.order == g.order && g'.nodes == g.nodes
      && forall e :: e in TransferEdges(g') ==>
           && e.0 != e.1 && Rev(e) in TransferEdges(g')
           && e.0 in g.nodes && HasLatLon(g.nodes[e.0]) && e.1 in g.nodes && HasLatLon(g.nodes[e.1])
           && CarriesWalk(g'.edges[e], maxWalk, speed)
           && Get(g'.edges[e], "distance") == Get(g'.edges[Rev(e)], "distance")
  {
    WalkingRunScan(g, geodesic, query, radius, maxWalk, speed);
    var cleared := ClearTransfers(g);
    RunSetupCandidates(cleared, geodesic, query, radius, maxWalk, speed);
    var su := RunSetup(cleared, geodesic, query, radius, maxWalk, speed);
    var s := ScanFrom(Start(cleared), su, |su.ids|);
    forall e | e in TransferEdges(s.graph)
      ensures && e.0 != e.1 && Rev(e) in TransferEdges(s.graph)
              && e.0 in g.nodes && HasLatLon(g.nodes[e.0]) && e.1 in g.nodes && HasLatLon(g.nodes[e.1])
              && CarriesWalk(s.graph.edges[e], maxWalk, speed)
              && Get(s.graph.edges[e], "distance") == Get(s.graph.edges[Rev(e)], "distance")
    {
      ScanSymmetric(cleared, su, s, e);
    }
  }

  /**
   * The counters of a run that found candidates. The graph holds exactly
   * edges_added walk / pt_transfer edges, two per unique pair, so re-running
   * never piles up transfer edges. nodes_checked is the number of candidates.
   * Each visit that is not a self-visit is counted once: as too far, as
   * existing or as a new pair.
   */
  lemma WalkingRunCounters(g: Graph, geodesic: Geodesic, query: BallQuery, radius: real, maxWalk: real, speed: real)
    requires g.Valid() && InRange(query) && speed != 0.0
    requires WalkingRun(g, geodesic, query, radius, maxWalk, speed).1.Added?
    ensures var run := WalkingRun(g, geodesic, query, radius, maxWalk, speed);
      var su := RunSetup(ClearTransfers(g), geodesic, query, radius, maxWalk, speed);
      && |TransferEdges(run.0)| == run.1.stats.edgesAdded == 2 * run.1.stats.uniquePairs
      && run.1.stats.nodesChecked == |set n | n in g.nodes && HasLatLon(g.nodes[n])|
      && run.1.stats.skippedTooFar + run.1.stats.skippedExisting + run.1.stats.uniquePairs
           == VisitsUpTo(su, |su.ids|)
  {
    WalkingRunScan(g, geodesic, query, radius, maxWalk, speed);
    var cleared := ClearTransfers(g);
    RunSetupCandidates(cleared, geodesic, query, radius, maxWalk, speed);
    var su := RunSetup(cleared, geodesic, query, radius, maxWalk, speed);
    ScanTransfers(cleared, su, ScanFrom(Start(cleared), su, |su.ids|));
    assert (set n | n in cleared.nodes && HasLatLon(cleared.nodes[n])) == (set n | n in g.nodes && HasLatLon(g.nodes[n]));
  }

  /**
   * What a run does to the other edges. Every edge of the old graph that is
   * not a walk / pt_transfer edge survives. Every edge afterwards that is not
   * one is an old edge with its old dictionary.
   */
  lemma WalkingRunFrame(g: Graph, geodesic: Geodesic, query: BallQuery, radius: real, maxWalk: real, speed: real)
    requires g.Valid() && InRange(query) && speed != 0.0
    ensures var g' := WalkingRun(g, geodesic, query, radius, maxWalk, speed).0;
      && (forall e :: e in g.edges && !IsWalkTransfer(g.edges[e]) ==> e in g'.edges)
      && (forall e :: e in g'.edges && !IsWalkTransfer(g'.edges[e]) ==> e in g.edges && g'.edges[e] == g.edges[e])
  {
    if WalkingRun(g, geodesic, query, radius, maxWalk, speed).1.Added? {
      WalkingRunScan(g, geodesic, query, radius, maxWalk, speed);
      var cleared := ClearTransfers(g);
      var su := RunSetup(cleared, geodesic, query, radius, maxWalk, speed);
      ScanOthers(cleared, su, ScanFrom(Start(cleared), su, |su.ids|));
    }
  }

  /**
   * The one-direction skip check: when only the reverse edge v->u exists, the
   * visit of u->v still inserts the pair, and v->u becomes a walk /
   * pt_transfer edge that keeps the keys the walking edge does not set.
   */
  lemma OneWayOverwrite(s: Scan, su: Setup, i: nat, j: nat)
    requires su.Ok() && i < |su.ids| && j < |su.ids| && i != j && s.graph.Valid()
    requires su.geodesic(su.coords[i], su.coords[j]) <= su.maxWalk
    requires !s.graph.HasEdge(su.ids[i], su.ids[j]) && s.graph.HasEdge(su.ids[j], su.ids[i])
    ensures var r := Visit(s, su, i, j);
      var w := WalkEdgeAttrs(su.geodesic(su.coords[i], su.coords[j]), su.speed);
      var before := s.graph.edges[(su.ids[j], su.ids[i])];
      && (su.ids[j], su.ids[i]) in r.graph.edges
      && r.graph.edges[(su.ids[j], su.ids[i])] == before + w
      && IsWalkTransfer(r.graph.edges[(su.ids[j], su.ids[i])])
      && r.pairs == s.pairs + {SortedPair(su.ids[i], su.ids[j])}
  {
    var a, b := su.ids[i], su.ids[j];
    var w := WalkEdgeAttrs(su.geodesic(su.coords[i], su.coords[j]), su.speed);
    assert Visit(s, su, i, j) == InsertPair(s, a, b, w);
    InsertPairEffect(s, a, b, w);
    assert s.graph.EdgeAttrs((b, a)) == Some(s.graph.edges[(b, a)]);
    WalkEdgeIsTransfer(su.geodesic(su.coords[i], su.coords[j]), su.speed);
    assert "mode" in w && "edge_type" in w;
  }


  /**
   * The service an edge contributes to its source node's modes in the mode
   * report. This is its mode when that is truthy and not 'walk'. Otherwise
   * its GTFS route_type is read as train (1, 2), tram (0) or bus (3).
   */
  function ServiceMode(a: Attrs): Option<Value>
  {
    var mode := Get(a, "mode");
    var routeType := Get(a, "route_type");
    if Truthy(mode) && mode != Str("walk") then Some(mode)
    else if routeType in [Num(1.0), Num(2.0)] then Some(Str("train"))
    else if routeType == Num(0.0) then Some(Str("tram"))
    else if routeType == Num(3.0) then Some(Str("bus"))
    else None
  }

  /** The modes of node n: the services of its outgoing edges. */
  function NodeModes(g: Graph, n: NodeId): set<Value>
  {
    ServicesOf(g, OutEdges(g, n))
  }

  /** The outgoing edges of n. */
  function OutEdges(g: Graph, n: NodeId): set<Edge>
  {
    set e | e in g.edges && e.0 == n
  }

  /** The services of the edges `es`. */
  function ServicesOf(g: Graph, es: set<Edge>): set<Value>
  {
    set e | e in es && e in g.edges && ServiceMode(g.edges[e]).Some? :: ServiceMode(g.edges[e]).value
  }

  lemma ServicesStep(g: Graph, es: set<Edge>, e: Edge)
    requires e in g.edges
    ensures ServicesOf(g, es + {e})
         == ServicesOf(g, es) + (if ServiceMode(g.edges[e]).Some? then {ServiceMode(g.edges[e]).value} else {})
  {
  }

  /** The seven transfer categories of the report. */
  datatype TransferKind = TrainTrain | TrainTram | TrainBus | TramTram | TramBus | BusBus | OtherTransfer

  /** The category of a transfer between nodes with modes u and v, tested in the report's order. */
  function Classify(u: set<Value>, v: set<Value>): TransferKind
  {
    var train, tram, bus := Str("train"), Str("tram"), Str("bus");
    if train in u && train in v then TrainTrain
    else if (train in u && tram in v) || (tram in u && train in v) then TrainTram
    else if (train in u && bus in v) || (bus in u && train in v) then TrainBus
    else if tram in u && tram in v then TramTram
    else if (tram in u && bus in v) || (bus in u && tram in v) then TramBus
    else if bus in u && bus in v then BusBus
    else OtherTransfer
  }

  function KindOf(g: Graph, e: Edge): TransferKind
  {
    Classify(NodeModes(g, e.0), NodeModes(g, e.1))
  }

  /** The category tests treat the two endpoints alike. */
  lemma ClassifySymmetric(u: set<Value>, v: set<Value>)
    ensures Classify(u, v) == Classify(v, u)
  {
  }

  lemma KindOfRev(g: Graph, e: Edge)
    ensures KindOf(g, Rev(e)) == KindOf(g, e)
  {
    ClassifySymmetric(NodeModes(g, e.0), NodeModes(g, e.1));
  }

  /** The transfer edges of one category. */
  function TransfersOfKind(g: Graph, c: TransferKind): set<Edge>
  {
    set e | e in TransferEdges(g) && KindOf(g, e) == c
  }

  /** The walk / pt_transfer edges with their dictionaries, as the report's second loop visits them. */
  function TransferMap(g: Graph): map<Edge, Attrs>
  {
    map e | e in g.edges && IsWalkTransfer(g.edges[e]) :: g.edges[e]
  }

  lemma TransferMapKeys(g: Graph)
    ensures TransferMap(g).Keys == TransferEdges(g)
  {
  }

  /** `node_modes.get(n, set())`. */
  function ModesAt(nodeModes: map<NodeId, set<Value>>, n: NodeId): set<Value>
  {
    if n in nodeModes then nodeModes[n] else {}
  }

  /** A node that is not in the graph has no outgoing edges, hence no modes. */
  lemma NoModesOffGraph(g: Graph, n: NodeId)
    requires g.Valid() && n !in g.nodes
    ensures NodeModes(g, n) == {}
  {
    assert OutEdges(g, n) == {};
  }

  /** The category the report files an edge under. */
  function KindLabel(nodeModes: map<NodeId, set<Value>>): (Edge, Attrs) -> TransferKind
  {
    (e: Edge, a: Attrs) => Classify(ModesAt(nodeModes, e.0), ModesAt(nodeModes, e.1))
  }

  /** With the modes of every node at hand, the report's count of a category is its transfer edges. */
  lemma TallyByKind(g: Graph, nodeModes: map<NodeId, set<Value>>, c: TransferKind)
    requires forall n :: ModesAt(nodeModes, n) == NodeModes(g, n)
    ensures Matching(TransferMap(g), TransferMap(g).Keys, KindLabel(nodeModes), c) == TransfersOfKind(g, c)
  {
    var t := TransferMap(g);
    forall e | e in t
      ensures KindLabel(nodeModes)(e, t[e]) == KindOf(g, e)
    {
      assert ModesAt(nodeModes, e.0) == NodeModes(g, e.0);
      assert ModesAt(nodeModes, e.1) == NodeModes(g, e.1);
    }
  }

  /** A tally of the transfer edges by `KindLabel` counts each category's transfer edges. */
  lemma CountsByKind(g: Graph, nodeModes: map<NodeId, set<Value>>, counts: multiset<TransferKind>)
    requires forall n :: ModesAt(nodeModes, n) == NodeModes(g, n)
    requires |counts| == |TransferMap(g)|
    requires forall c :: counts[c] == |Matching(TransferMap(g), TransferMap(g).Keys, KindLabel(nodeModes), c)|
    ensures |counts| == |TransferEdges(g)|
    ensures forall c :: counts[c] == |TransfersOfKind(g, c)|
  {
    TransferMapKeys(g);
    forall c
      ensures counts[c] == |TransfersOfKind(g, c)|
    {
      TallyByKind(g, nodeModes, c);
    }
  }

  /** A set of edges closed under reversal and without self-loops has an even size. */
  lemma {:induction false} EvenByReversal(t: set<Edge>)
    requires forall e :: e in t ==> Rev(e) in t && e.0 != e.1
    ensures |t| % 2 == 0
    decreases |t|
  {
    if t != {} {
      var e :| e in t;
      var t' := t - {e, Rev(e)};
      forall x | x in t'
        ensures Rev(x) in t' && x.0 != x.1
      {
        assert Rev(x) != e && Rev(x) != Rev(e);
      }
      EvenByReversal(t');
      assert e != Rev(e) && |{e, Rev(e)}| == 2;
      assert t == t' + {e, Rev(e)} && t' !! {e, Rev(e)};
    }
  }

  /**
   * After a run that found candidates, every category of the mode report
   * holds an even number of transfer edges. Each pair's two directions land
   * in the same category, since the category tests are symmetric in the two
   * endpoints.
   */
  lemma TransferKindsEven(g: Graph, geodesic: Geodesic, query: BallQuery, radius: real, maxWalk: real, speed: real,
                          c: TransferKind)
    requires g.Valid() && InRange(query) && speed != 0.0
    requires WalkingRun(g, geodesic, query, radius, maxWalk, speed).1.Added?
    ensures |TransfersOfKind(WalkingRun(g, geodesic, query, radius, maxWalk, speed).0, c)| % 2 == 0
  {
    var g' := WalkingRun(g, geodesic, query, radius, maxWalk, speed).0;
    WalkingRunSymmetric(g, geodesic, query, radius, maxWalk, speed);
    forall e | e in TransfersOfKind(g', c)
      ensures Rev(e) in TransfersOfKind(g', c) && e.0 != e.1
    {
      KindOfRev(g', e);
    }
    EvenByReversal(TransfersOfKind(g', c));
  }

  /**
   * `PTWalkingConnectionBuilder`: it owns the PT graph it edits, and the
   * candidate ids and coordinates it last indexed.
   */
  class WalkingConnectionBuilder {
    var graph: Graph
    const maxWalkDistance: real
    const walkingSpeed: real
    var ptNodeIds: seq<NodeId>
    var ptCoords: seq<Point>

    ghost predicate Valid()
      reads this
    {
      graph.Valid() && walkingSpeed != 0.0
    }

    constructor (graph: Graph, maxWalkDistance: real := MaxWalkingDistanceM)
      requires graph.Valid()
      ensures Valid() && this.graph == graph && this.maxWalkDistance == maxWalkDistance
      ensures walkingSpeed == WalkingSpeed && ptNodeIds == [] && ptCoords == []
    {
      this.graph := graph;
      this.maxWalkDistance := maxWalkDistance;
      walkingSpeed := WalkingSpeed;
      ptNodeIds := [];
      ptCoords := [];
    }

    /** The clearing step: collect the walk / pt_transfer edges, then remove each. */
    method ClearTransferEdges()
      requires Valid()
      modifies this`graph
      ensures Valid() && graph == ClearTransfers(old(graph))
    {
      var toRemove := TransferEdgeList();
      var g := graph;
      var h := g;
      for k := 0 to |toRemove|
        invariant h.Valid() && h.order == g.order && h.nodes == g.nodes
        invariant h.edges.Keys == g.edges.Keys - ElementsOf(toRemove[..k])
        invariant forall e :: e in h.edges ==> h.edges[e] == g.edges[e]
      {
        var e := toRemove[k];
        ElementsOfStep(toRemove, k);
        assert e in TransferEdges(g) && e !in toRemove[..k];
        h := RemoveEdge(h, e.0, e.1);
      }
      assert toRemove[..|toRemove|] == toRemove;
      ClearedGraph(g, h);
      graph := h;
    }

    /** The list of the walk / pt_transfer edges the clearing step removes, each once. */
    method TransferEdgeList() returns (toRemove: seq<Edge>)
      ensures NoDup(toRemove) && ElementsOf(toRemove) == TransferEdges(graph)
    {
      var g := graph;
      toRemove := [];
      var rest := g.edges.Keys;
      while rest != {}
        invariant rest <= g.edges.Keys && NoDup(toRemove)
        invariant forall e :: e in toRemove <==> e in g.edges && e !in rest && IsWalkTransfer(g.edges[e])
        decreases |rest|
      {
        var e :| e in rest;
        if IsWalkTransfer(g.edges[e]) {
          NoDupAppend(toRemove, e);
          toRemove := toRemove + [e];
        }
        rest := rest - {e};
      }
    }

    /** `extract_pt_nodes`: the nodes with a 'lat' and a 'lon' key, in node order. */
    method ExtractPtNodes() returns (ptNodes: seq<(NodeId, Attrs)>)
      requires Valid()
      ensures ptNodes == CoordNodesOf(graph.nodes, graph.order)
    {
      ptNodes := [];
      for k := 0 to |graph.order|
        invariant ptNodes == CoordNodesOf(graph.nodes, graph.order[..k])
      {
        var n := graph.order[k];
        assert graph.order[..k + 1][..k] == graph.order[..k];
        if HasLatLon(graph.nodes[n]) {
          ptNodes := ptNodes + [(n, graph.nodes[n])];
        }
      }
      assert graph.order[..|graph.order|] == graph.order;
    }

    /** `build_spatial_index`: the candidate ids and their points, position by position. */
    method BuildSpatialIndex(ptNodes: seq<(NodeId, Attrs)>) returns (nodeIds: seq<NodeId>, coords: seq<Point>)
      requires forall k :: 0 <= k < |ptNodes| ==> "lat" in ptNodes[k].1 && "lon" in ptNodes[k].1
      modifies this
      ensures nodeIds == IdsOf(ptNodes) && coords == CoordsOf(ptNodes)
      ensures ptNodeIds == nodeIds && ptCoords == coords && graph == old(graph)
    {
      nodeIds, coords := [], [];
      for k := 0 to |ptNodes|
        invariant |nodeIds| == |coords| == k
        invariant forall m :: 0 <= m < k ==> nodeIds[m] == ptNodes[m].0
        invariant forall m :: 0 <= m < k ==> coords[m] == Point(ptNodes[m].1["lat"], ptNodes[m].1["lon"])
      {
        var (nodeId, nodeData) := ptNodes[k];
        nodeIds := nodeIds + [nodeId];
        coords := coords + [Point(nodeData["lat"], nodeData["lon"])];
      }
      ptNodeIds := nodeIds;
      ptCoords := coords;
    }

    /** `_add_walking_edge`: one directed walking edge of the given length. */
    method AddWalkingEdge(source: NodeId, target: NodeId, distance: real)
      requires Valid()
      modifies this`graph
      ensures Valid() && graph == AddEdge(old(graph), source, target, WalkEdgeAttrs(distance, walkingSpeed))
    {
      graph := AddEdge(graph, source, target, WalkEdgeAttrs(distance, walkingSpeed));
    }

    /** `add_connections`: the nested loops over the candidates and their query results. */
    method AddConnections(nodeIds: seq<NodeId>, coords: seq<Point>, geodesic: Geodesic, query: BallQuery,
                          searchRadius: real) returns (stats: Stats)
      requires Valid() && |nodeIds| == |coords| && InRange(query)
      modifies this`graph
      ensures Valid()
      ensures var su := Setup(nodeIds, coords, geodesic, query, searchRadius, maxWalkDistance, walkingSpeed);
        var s := ScanFrom(Start(old(graph)), su, |nodeIds|);
        graph == s.graph && stats == StatsOf(s)
    {
      ghost var su := Setup(nodeIds, coords, geodesic, query, searchRadius, maxWalkDistance, walkingSpeed);
      ghost var g0 := graph;
      var edgesAdded, nodesChecked, skippedExisting, skippedTooFar := 0, 0, 0, 0;
      var pairsAdded: set<Edge> := {};
      for i := 0 to |nodeIds|
        invariant Valid()
        invariant Scan(graph, edgesAdded, nodesChecked, skippedExisting, skippedTooFar, pairsAdded)
               == ScanFrom(Start(g0), su, i)
      {
        edgesAdded, nodesChecked, skippedExisting, skippedTooFar, pairsAdded :=
          ScanCandidate(su, g0, i, nodeIds, coords, geodesic, query, searchRadius,
                        edgesAdded, nodesChecked, skippedExisting, skippedTooFar, pairsAdded);
      }
      stats := Stats(edgesAdded, |pairsAdded|, nodesChecked, skippedExisting, skippedTooFar);
    }

    /** One pass of the outer loop of `add_connections`: candidate i and its query results. */
    method ScanCandidate(ghost su: Setup, ghost g0: Graph, i: nat, nodeIds: seq<NodeId>, coords: seq<Point>,
                         geodesic: Geodesic, query: BallQuery, searchRadius: real, edgesAdded0: nat,
                         nodesChecked0: nat, skippedExisting0: nat, skippedTooFar0: nat, pairs0: set<Edge>)
      returns (edgesAdded: nat, nodesChecked: nat, skippedExisting: nat, skippedTooFar: nat, pairsAdded: set<Edge>)
      requires Valid() && g0.Valid() && su.Ok() && i < |nodeIds|
      requires su == Setup(nodeIds, coords, geodesic, query, searchRadius, maxWalkDistance, walkingSpeed)
      requires Scan(graph, edgesAdded0, nodesChecked0, skippedExisting0, skippedTooFar0, pairs0)
            == ScanFrom(Start(g0), su, i)
      modifies this`graph
      ensures Valid()
      ensures Scan(graph, edgesAdded, nodesChecked, skippedExisting, skippedTooFar, pairsAdded)
           == ScanFrom(Start(g0), su, i + 1)
    {
      ScanFromStep(Start(g0), su, i);
      nodesChecked := nodesChecked0 + 1;
      var indices := query(coords, coords[i], searchRadius);
      assert indices == su.Candidates(i);
      edgesAdded, skippedExisting, skippedTooFar, pairsAdded :=
        ConnectNeighbors(su, i, indices, nodeIds, coords, geodesic,
                         edgesAdded0, nodesChecked, skippedExisting0, skippedTooFar0, pairs0);
    }

    /** The inner loop of `add_connections`, over the neighbours of candidate i. */
    method ConnectNeighbors(ghost su: Setup, i: nat, indices: seq<nat>, nodeIds: seq<NodeId>, coords: seq<Point>,
                            geodesic: Geodesic, edgesAdded0: nat, nodesChecked: nat, skippedExisting0: nat,
                            skippedTooFar0: nat, pairs0: set<Edge>)
      returns (edgesAdded: nat, skippedExisting: nat, skippedTooFar: nat, pairsAdded: set<Edge>)
      requires Valid() && su.Ok() && i < |nodeIds|
      requires su.ids == nodeIds && su.coords == coords && su.geodesic == geodesic
      requires su.maxWalk == maxWalkDistance && su.speed == walkingSpeed
      requires forall k :: 0 <= k < |indices| ==> indices[k] < |nodeIds|
      modifies this`graph
      ensures Valid()
      ensures Scan(graph, edgesAdded, nodesChecked, skippedExisting, skippedTooFar, pairsAdded)
           == VisitAll(Scan(old(graph), edgesAdded0, nodesChecked, skippedExisting0, skippedTooFar0, pairs0),
                       su, i, indices)
    {
      ghost var checked := Scan(graph, edgesAdded0, nodesChecked, skippedExisting0, skippedTooFar0, pairs0);
      edgesAdded, skippedExisting, skippedTooFar, pairsAdded := edgesAdded0, skippedExisting0, skippedTooFar0, pairs0;
      for k := 0 to |indices|
        invariant Valid()
        invariant Scan(graph, edgesAdded, nodesChecked, skippedExisting, skippedTooFar, pairsAdded)
               == VisitAll(checked, su, i, indices[..k])
      {
        VisitAllStep(checked, su, i, indices, k);
        edgesAdded, skippedExisting, skippedTooFar, pairsAdded :=
          VisitNeighbor(su, i, indices[k], nodeIds, coords, geodesic,
                        edgesAdded, nodesChecked, skippedExisting, skippedTooFar, pairsAdded);
      }
      assert indices[..|indices|] == indices;
    }

    /** One pass of the inner loop: neighbour j of candidate i. */
    method VisitNeighbor(ghost su: Setup, i: nat, j: nat, nodeIds: seq<NodeId>, coords: seq<Point>,
                         geodesic: Geodesic, edgesAdded0: nat, nodesChecked: nat, skippedExisting0: nat,
                         skippedTooFar0: nat, pairs0: set<Edge>)
      returns (edgesAdded: nat, skippedExisting: nat, skippedTooFar: nat, pairsAdded: set<Edge>)
      requires Valid() && su.Ok() && i < |nodeIds| && j < |nodeIds|
      requires su.ids == nodeIds && su.coords == coords && su.geodesic == geodesic
      requires su.maxWalk == maxWalkDistance && su.speed == walkingSpeed
      modifies this`graph
      ensures Valid()
      ensures Scan(graph, edgesAdded, nodesChecked, skippedExisting, skippedTooFar, pairsAdded)
           == Visit(Scan(old(graph), edgesAdded0, nodesChecked, skippedExisting0, skippedTooFar0, pairs0), su, i, j)
    {
      edgesAdded, skippedExisting, skippedTooFar, pairsAdded := edgesAdded0, skippedExisting0, skippedTooFar0, pairs0;
      if i != j {
        var neighborId := nodeIds[j];
        var distance := geodesic(coords[i], coords[j]);
        if distance > maxWalkDistance {
          skippedTooFar := skippedTooFar + 1;
          assert Scan(graph, edgesAdded, nodesChecked, skippedExisting, skippedTooFar, pairsAdded)
           == Visit(Scan(old(graph), edgesAdded0, nodesChecked, skippedExisting0, skippedTooFar0, pairs0), su, i, j);
        } else if graph.HasEdge(nodeIds[i], neighborId) {
          skippedExisting := skippedExisting + 1;
          assert Scan(graph, edgesAdded, nodesChecked, skippedExisting, skippedTooFar, pairsAdded)
           == Visit(Scan(old(graph), edgesAdded0, nodesChecked, skippedExisting0, skippedTooFar0, pairs0), su, i, j);
        } else {
          ghost var s := Scan(graph, edgesAdded, nodesChecked, skippedExisting, skippedTooFar, pairsAdded);
          ghost var r := InsertPair(s, nodeIds[i], neighborId, WalkEdgeAttrs(distance, walkingSpeed));
          assert Visit(s, su, i, j) == r;
          assert r.edgesAdded == edgesAdded0 + 2;
          AddWalkingPair(nodeIds[i], neighborId, distance);
          assert graph == r.graph;
          edgesAdded := edgesAdded + 2;
          pairsAdded := pairsAdded + {SortedPair(nodeIds[i], neighborId)};
          assert Scan(graph, edgesAdded, nodesChecked, skippedExisting, skippedTooFar, pairsAdded)
           == Visit(Scan(old(graph), edgesAdded0, nodesChecked, skippedExisting0, skippedTooFar0, pairs0), su, i, j);
        }
      }
    }

    /** The two `_add_walking_edge` calls of an insertion, one per direction. */
    method AddWalkingPair(a: NodeId, b: NodeId, distance: real)
      requires Valid()
      modifies this`graph
      ensures Valid()
      ensures var w := WalkEdgeAttrs(distance, walkingSpeed); graph == AddEdge(AddEdge(old(graph), a, b, w), b, a, w)
    {
      AddWalkingEdge(a, b, distance);
      AddWalkingEdge(b, a, distance);
    }

    /** The modes of every node, as the report's first loop collects them. */
    method CollectNodeModes() returns (nodeModes: map<NodeId, set<Value>>)
      requires Valid()
      ensures nodeModes.Keys == graph.nodes.Keys
      ensures forall n :: ModesAt(nodeModes, n) == NodeModes(graph, n)
    {
      nodeModes := map[];
      for k := 0 to |graph.order|
        invariant forall m :: 0 <= m < k ==> graph.order[m] in nodeModes
        invariant forall n :: n in nodeModes ==> n in graph.nodes && nodeModes[n] == NodeModes(graph, n)
      {
        var node := graph.order[k];
        var modes := ModesOfNode(node);
        nodeModes := nodeModes[node := modes];
      }
      forall n | n !in nodeModes
        ensures NodeModes(graph, n) == {}
      {
        NoModesOffGraph(graph, n);
      }
    }

    /** The report's inner loop: the services of node's outgoing edges. */
    method ModesOfNode(node: NodeId) returns (modes: set<Value>)
      ensures modes == NodeModes(graph, node)
    {
      var g := graph;
      modes := {};
      var rest := OutEdges(g, node);
      ghost var done: set<Edge> := {};
      while rest != {}
        invariant rest <= OutEdges(g, node) && done == OutEdges(g, node) - rest
        invariant modes == ServicesOf(g, done)
        decreases |rest|
      {
        var e :| e in rest;
        ServicesStep(g, done, e);
        var service := ServiceMode(g.edges[e]);
        if service.Some? {
          modes := modes + {service.value};
        }
        rest := rest - {e};
        done := done + {e};
      }
    }

    /**
     * `_analyze_by_mode`: the category counts of the walk / pt_transfer
     * edges. Every such edge is counted once, in its one category.
     */
    method AnalyzeByMode() returns (counts: multiset<TransferKind>)
      requires Valid()
      ensures |counts| == |TransferEdges(graph)|
      ensures forall c :: counts[c] == |TransfersOfKind(graph, c)|
    {
      var nodeModes := CollectNodeModes();
      var g := graph;
      counts := Tally(TransferMap(g), KindLabel(nodeModes));
      CountsByKind(g, nodeModes, counts);
    }

    /**
     * `add_walking_edges`: clear, extract the candidates (stop with
     * `no_pt_nodes` when there are none), index them, add the connections,
     * then run the report.
     */
    method AddWalkingEdges(geodesic: Geodesic, query: BallQuery, searchRadius: real) returns (result: WalkingResult)
      requires Valid() && InRange(query)
      modifies this
      ensures Valid()
      ensures graph == WalkingRun(old(graph), geodesic, query, searchRadius, maxWalkDistance, walkingSpeed).0
      ensures result == WalkingRun(old(graph), geodesic, query, searchRadius, maxWalkDistance, walkingSpeed).1
    {
      ClearTransferEdges();
      var ptNodes := ExtractPtNodes();
      if |ptNodes| == 0 {
        return NoPtNodes;
      }
      var nodeIds, coords := BuildSpatialIndex(ptNodes);
      var stats := AddConnections(nodeIds, coords, geodesic, query, searchRadius);
      var _ := AnalyzeByMode();
      result := Added(stats);
    }
  }
}
