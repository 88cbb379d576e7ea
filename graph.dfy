/**
 * The networkx `DiGraph` the pipeline builds and edits, as a value.
 *
 * A node id is a string (every graph of the system namespaces its ids with
 * prefixes such as `road_` or `train_`). Attributes are Python dictionaries
 * from attribute names to values. The graph keeps, besides its node and edge
 * dictionaries, the order in which nodes were inserted: networkx iterates
 * nodes in that order, and several steps depend on it. At most one edge exists
 * per ordered pair of nodes; adding an edge that exists merges the new
 * attributes into the old dictionary, exactly as `DiGraph.add_edge` does.
 */
module Graphs {

  type NodeId = string

  /** A directed edge, as the ordered pair (source, target). */
  type Edge = (NodeId, NodeId)

  /**
   * An attribute value. Python ints and floats compare equal across the two
   * types (1 == 1.0), so both are `Num`; `Null` is Python's None.
   */
  datatype Value = Null | Num(r: real) | Str(s: string)

  type Attrs = map<string, Value>

  datatype Option<T> = None | Some(value: T)

  datatype Result<T, E> = Success(value: T) | Failure(error: E)

  /** `d.get(k)`: None when the key is absent. */
  function Get(a: Attrs, k: string): Value
  {
    if k in a then a[k] else Null
  }

  /** `d.get(k, default)`. */
  function GetOr(a: Attrs, k: string, default: Value): Value
  {
    if k in a then a[k] else default
  }

  /** Python truthiness: None, 0 and the empty string are false. */
  predicate Truthy(v: Value)
  {
    match v
    case Null => false
    case Num(r) => r != 0.0
    case Str(s) => s != ""
  }

  /** Python's `'lat' in d and 'lon' in d`: the keys are present, whatever their values. */
  predicate HasLatLon(a: Attrs)
  {
    "lat" in a && "lon" in a
  }

  /**
   * A PT walking transfer: `mode == 'walk'` and `edge_type == 'pt_transfer'`.
   * The PT builder owns these edges, and the merge backfills their reverses.
   */
  predicate IsWalkTransfer(a: Attrs)
  {
    Get(a, "mode") == Str("walk") && Get(a, "edge_type") == Str("pt_transfer")
  }

  predicate NoDup<T(==)>(s: seq<T>)
  {
    forall i, j :: 0 <= i < j < |s| ==> s[i] != s[j]
  }

  function Rev(e: Edge): Edge
  {
    (e.1, e.0)
  }

  /** `m.get(k)` on a dictionary of dictionaries: None when the key is absent. */
  function Lookup<K, V>(m: map<K, V>, k: K): Option<V>
  {
    if k in m then Some(m[k]) else None
  }

  /** The attribute dictionary after `d.update(attrs)` on `d` (a fresh `{}` when absent). */
  function Merged(prev: Option<Attrs>, attrs: Attrs): (r: Attrs)
    ensures forall k :: k in attrs ==> k in r && r[k] == attrs[k]
    ensures prev.Some? ==> forall k :: k in prev.value && k !in attrs ==> k in r && r[k] == prev.value[k]
    ensures r.Keys == attrs.Keys + (if prev.Some? then prev.value.Keys else {})
  {
    match prev
    case None => attrs
    case Some(a) => a + attrs
  }

  datatype Graph = Graph(order: seq<NodeId>, nodes: map<NodeId, Attrs>, edges: map<Edge, Attrs>)
  {
    /**
     * `order` lists every node exactly once, and every edge joins two nodes
     * (networkx creates the endpoints of an edge when it adds the edge).
     */
    ghost predicate Valid()
    {
      && NoDup(order)
      && (forall n :: n in order <==> n in nodes)
      && (forall e :: e in edges ==> e.0 in nodes && e.1 in nodes)
    }

    predicate HasEdge(u: NodeId, v: NodeId)
    {
      (u, v) in edges
    }

    function EdgeAttrs(e: Edge): Option<Attrs>
    {
      if e in edges then Some(edges[e]) else None
    }

    function NodeAttrs(n: NodeId): Option<Attrs>
    {
      if n in nodes then Some(nodes[n]) else None
    }
  }

  /** `nx.DiGraph()`. */
  const EmptyGraph: Graph := Graph([], map[], map[])

  lemma EmptyGraphValid()
    ensures EmptyGraph.Valid()
  {
  }

  /** Appending a fresh id keeps an order duplicate-free. */
  lemma {:induction false} NoDupAppend<T>(s: seq<T>, x: T)
    requires NoDup(s) && x !in s
    ensures NoDup(s + [x])
  {
    forall i, j | 0 <= i < j < |s + [x]|
      ensures (s + [x])[i] != (s + [x])[j]
    {
      if j == |s| {
        assert (s + [x])[i] == s[i];
      } else {
        assert (s + [x])[i] == s[i] && (s + [x])[j] == s[j];
      }
    }
  }

  /** A duplicate-free sequence has as many distinct elements as positions. */
  lemma {:induction false} NoDupCard<T>(s: seq<T>)
    requires NoDup(s)
    ensures |set x | x in s| == |s|
  {
    if s != [] {
      var front := s[..|s| - 1];
      var x := s[|s| - 1];
      assert NoDup(front) && x !in front;
      NoDupCard(front);
      assert (set y | y in s) == (set y | y in front) + {x};
    }
  }

  /** `G.add_node(n, **attrs)`: creates `n` if it is new, then updates its dictionary. */
  function AddNode(g: Graph, n: NodeId, attrs: Attrs): (r: Graph)
    requires g.Valid()
    ensures r.Valid()
    ensures r.nodes.Keys == g.nodes.Keys + {n} && r.edges == g.edges
    ensures n in r.nodes && r.nodes[n] == Merged(g.NodeAttrs(n), attrs)
    ensures forall m :: m in g.nodes && m != n ==> m in r.nodes && r.nodes[m] == g.nodes[m]
    ensures r.order == if n in g.nodes then g.order else g.order + [n]
  {
    if n in g.nodes then
      g.(nodes := g.nodes[n := Merged(g.NodeAttrs(n), attrs)])
    else
      NoDupAppend(g.order, n);
      Graph(g.order + [n], g.nodes[n := attrs], g.edges)
  }

  /** The endpoint-creating half of `add_edge`: a missing node is added with `{}`. */
  function WithNode(g: Graph, n: NodeId): (r: Graph)
    requires g.Valid()
    ensures r.Valid()
    ensures r.nodes.Keys == g.nodes.Keys + {n} && r.edges == g.edges
    ensures forall m :: m in g.nodes ==> m in r.nodes && r.nodes[m] == g.nodes[m]
    ensures n !in g.nodes ==> n in r.nodes && r.nodes[n] == map[]
    ensures r.order == if n in g.nodes then g.order else g.order + [n]
  {
    if n in g.nodes then g
    else
      NoDupAppend(g.order, n);
      Graph(g.order + [n], g.nodes[n := map[]], g.edges)
  }

  /** Both endpoints of a new edge, created in the order `add_edge` creates them. */
  function WithEndpoints(g: Graph, u: NodeId, v: NodeId): (r: Graph)
    requires g.Valid()
    ensures r.Valid()
    ensures r.nodes.Keys == g.nodes.Keys + {u, v} && r.edges == g.edges
    ensures forall m :: m in g.nodes ==> m in r.nodes && r.nodes[m] == g.nodes[m]
    ensures u in g.nodes && v in g.nodes ==> r.order == g.order && r.nodes == g.nodes
  {
    WithNode(WithNode(g, u), v)
  }

  /**
   * `G.add_edge(u, v, **attrs)`: creates missing endpoints, then updates the
   * dictionary of the edge u->v (a fresh one if there was none). No parallel
   * edge is ever created.
   */
  function AddEdge(g: Graph, u: NodeId, v: NodeId, attrs: Attrs): (r: Graph)
    requires g.Valid()
    ensures r.Valid()
    ensures r.nodes.Keys == g.nodes.Keys + {u, v}
    ensures forall m :: m in g.nodes ==> m in r.nodes && r.nodes[m] == g.nodes[m]
    ensures r.edges.Keys == g.edges.Keys + {(u, v)}
    ensures (u, v) in r.edges && r.edges[(u, v)] == Merged(g.EdgeAttrs((u, v)), attrs)
    ensures forall e :: e in g.edges && e != (u, v) ==> e in r.edges && r.edges[e] == g.edges[e]
    ensures u in g.nodes && v in g.nodes ==> r.order == g.order && r.nodes == g.nodes
  {
    SetEdge(WithEndpoints(g, u, v), (u, v), Merged(g.EdgeAttrs((u, v)), attrs))
  }

  /** Replaces the dictionary of the edge e between two existing nodes. */
  function SetEdge(g: Graph, e: Edge, attrs: Attrs): (r: Graph)
    requires g.Valid() && e.0 in g.nodes && e.1 in g.nodes
    ensures r.Valid() && r.order == g.order && r.nodes == g.nodes
    ensures r.edges.Keys == g.edges.Keys + {e}
    ensures e in r.edges && r.edges[e] == attrs
    ensures forall x :: x in g.edges && x != e ==> x in r.edges && r.edges[x] == g.edges[x]
  {
    g.(edges := g.edges[e := attrs])
  }

  /** `G.remove_edge(u, v)` on an edge that exists. */
  function RemoveEdge(g: Graph, u: NodeId, v: NodeId): (r: Graph)
    requires g.Valid() && (u, v) in g.edges
    ensures r.Valid()
    ensures r.order == g.order && r.nodes == g.nodes
    ensures r.edges.Keys == g.edges.Keys - {(u, v)}
    ensures forall e :: e in r.edges ==> e in g.edges && r.edges[e] == g.edges[e]
  {
    g.(edges := g.edges - {(u, v)})
  }
}
