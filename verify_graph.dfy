/**
 * The integrity report of debugging/verify_graph.py over the combined
 * graph: which nodes lack coordinates, which edges lack a distance or a
 * mode, and the mode and edge-type counters. The report only reads the
 * graph, which is a value here, so it cannot change it.
 */
module VerifyGraph {
  import opened Graphs
  import opened Histograms
  import Merge

  /** The nodes among `ids`, in order, whose dictionary lacks 'lat' or 'lon'. */
  function MissingLatLon(nodes: map<NodeId, Attrs>, ids: seq<NodeId>): (r: seq<NodeId>)
    requires forall i :: 0 <= i < |ids| ==> ids[i] in nodes
    ensures forall n {:trigger n in r} :: n in r <==> n in ids && !HasLatLon(nodes[n])
  {
    if ids == [] then []
    else (if HasLatLon(nodes[ids[0]]) then [] else [ids[0]]) + MissingLatLon(nodes, ids[1..])
  }

  /** A node listed once in the graph is listed at most once as missing coordinates. */
  lemma {:induction false} MissingLatLonNoDup(nodes: map<NodeId, Attrs>, ids: seq<NodeId>)
    requires forall i :: 0 <= i < |ids| ==> ids[i] in nodes
    requires NoDup(ids)
    ensures NoDup(MissingLatLon(nodes, ids))
  {
    if ids != [] {
      var tail := ids[1..];
      assert NoDup(tail) by {
        forall i, j | 0 <= i < j < |tail|
          ensures tail[i] != tail[j]
        {
          assert tail[i] == ids[i + 1] && tail[j] == ids[j + 1];
        }
      }
      MissingLatLonNoDup(nodes, tail);
      var rest := MissingLatLon(nodes, tail);
      assert ids[0] !in tail by {
        forall i | 0 <= i < |tail|
          ensures tail[i] != ids[0]
        {
          assert tail[i] == ids[i + 1];
        }
      }
      if !HasLatLon(nodes[ids[0]]) {
        var r := [ids[0]] + rest;
        assert ids[0] !in rest;
        forall i, j | 0 <= i < j < |r|
          ensures r[i] != r[j]
        {
          assert r[j] == rest[j - 1];
          if i > 0 {
            assert r[i] == rest[i - 1];
          }
        }
      } else {
        assert MissingLatLon(nodes, ids) == rest;
      }
    }
  }

  /** The logged count of nodes missing coordinates is the number of such nodes. */
  lemma MissingLatLonCount(g: Graph)
    requires g.Valid()
    ensures |MissingLatLon(g.nodes, g.order)| == |set n | n in g.nodes && !HasLatLon(g.nodes[n])|
  {
    var r := MissingLatLon(g.nodes, g.order);
    MissingLatLonNoDup(g.nodes, g.order);
    NoDupCard(r);
    assert (set x | x in r) == set n | n in g.nodes && !HasLatLon(g.nodes[n]);
  }

  function NodeMode(n: NodeId, a: Attrs): Value
  {
    GetOr(a, "mode", Str("unknown"))
  }

  /**
   * `verify_nodes(G)`: the nodes missing coordinates, in graph order, and
   * `mode_types`, one count per node under its mode or 'unknown'.
   */
  method VerifyNodes(g: Graph) returns (missingLatLon: seq<NodeId>, modeTypes: multiset<Value>)
    requires g.Valid()
    ensures forall n :: n in missingLatLon <==> n in g.nodes && !HasLatLon(g.nodes[n])
    ensures NoDup(missingLatLon)
    ensures |modeTypes| == |g.nodes|
    ensures forall m :: modeTypes[m] == |set n | n in g.nodes && GetOr(g.nodes[n], "mode", Str("unknown")) == m|
  {
    missingLatLon := MissingLatLon(g.nodes, g.order);
    MissingLatLonNoDup(g.nodes, g.order);
    modeTypes := Tally(g.nodes, NodeMode);
    forall m
      ensures Matching(g.nodes, g.nodes.Keys, NodeMode, m) == set n | n in g.nodes && GetOr(g.nodes[n], "mode", Str("unknown")) == m
    {
    }
  }

  /** The edges whose dictionary lacks `key`. */
  ghost function MissingKey(edges: map<Edge, Attrs>, key: string): (r: set<Edge>)
  {
    set e | e in edges && key !in edges[e]
  }

  /** The edges counted under `l` when a missing `key` reads as `default`. */
  ghost function Labelled(edges: map<Edge, Attrs>, key: string, default: Value, l: Value): set<Edge>
  {
    set e | e in edges && GetOr(edges[e], key, default) == l
  }

  /**
   * The default label of a counter covers every edge missing the key, and
   * exactly those when no edge carries the default as a real value.
   */
  lemma MissingCountedAsDefault(edges: map<Edge, Attrs>, key: string, default: Value)
    ensures MissingKey(edges, key) <= Labelled(edges, key, default, default)
    ensures |MissingKey(edges, key)| <= |Labelled(edges, key, default, default)|
    ensures (forall e :: e in edges && key in edges[e] ==> edges[e][key] != default)
            ==> MissingKey(edges, key) == Labelled(edges, key, default, default)
  {
    assert MissingKey(edges, key) <= Labelled(edges, key, default, default);
    CardSubset(MissingKey(edges, key), Labelled(edges, key, default, default));
  }

  lemma CardSubset<T>(a: set<T>, b: set<T>)
    requires a <= b
    ensures |a| <= |b|
  {
    assert b == a + (b - a);
  }

  function EdgeType(e: Edge, a: Attrs): Value
  {
    GetOr(a, "edge_type", Str("standard"))
  }

  /**
   * `verify_edges(G)`: the edges missing a distance and a mode, `mode_counts`
   * (missing modes counted as 'unknown') and `edge_types` (missing types
   * counted as 'standard'), each counter one count per edge.
   */
  method VerifyEdges(g: Graph) returns (missingDistance: set<Edge>, missingMode: set<Edge>,
                                        modeCounts: multiset<Value>, edgeTypes: multiset<Value>)
    ensures missingDistance == MissingKey(g.edges, "distance")
    ensures missingMode == MissingKey(g.edges, "mode")
    ensures |modeCounts| == |g.edges| && |edgeTypes| == |g.edges|
    ensures forall m :: modeCounts[m] == |Labelled(g.edges, "mode", Str("unknown"), m)|
    ensures forall t :: edgeTypes[t] == |Labelled(g.edges, "edge_type", Str("standard"), t)|
  {
    missingDistance := set e | e in g.edges && "distance" !in g.edges[e];
    missingMode := set e | e in g.edges && "mode" !in g.edges[e];
    modeCounts := Merge.EdgeModeCounts(g);
    edgeTypes := Tally(g.edges, EdgeType);
    forall t
      ensures Matching(g.edges, g.edges.Keys, EdgeType, t) == Labelled(g.edges, "edge_type", Str("standard"), t)
    {
    }
  }
}
