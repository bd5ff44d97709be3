/**
 * The directed attributed graph the query engine stores its data in (a
 * networkx 1.x `DiGraph`). A graph is its node ids in iteration order, the
 * attribute dictionary of every node, its edges `(source, target)` in
 * insertion order and the attribute dictionary of every edge.
 *
 * The value-level functions below are the graph operations the engine
 * calls; the class `DiGraph` at the end holds the same four components as
 * fields and performs those operations in place.
 */
module GraphModel {
  import opened Seqs
  import opened Attributes

  type NodeId = int
  type Pair = (NodeId, NodeId)
  /** `(node_id, node_attributes)`, as `g.nodes(data=True)` yields it. */
  type NodeTuple = (NodeId, AttrMap)
  /** `(source_id, target_id, edge_attributes)`, as `g.edges(data=True)` yields it. */
  type EdgeTuple = (NodeId, NodeId, AttrMap)

  datatype Graph = Graph(
    nodes: seq<NodeId>,
    attrs: map<NodeId, AttrMap>,
    edges: seq<Pair>,
    edgeAttrs: map<Pair, AttrMap>)

  const Empty: Graph := Graph([], map[], [], map[])

  /** Every node listed once and present in the node table, every edge likewise, no dangling edge. */
  ghost predicate WellFormed(g: Graph) {
    && Distinct(g.nodes)
    && (forall n :: n in g.attrs <==> n in g.nodes)
    && Distinct(g.edges)
    && (forall e :: e in g.edgeAttrs <==> e in g.edges)
    && (forall e :: e in g.edgeAttrs ==> e.0 in g.attrs && e.1 in g.attrs)
  }

  // ---------------------------------------------------------------------
  // Updates
  // ---------------------------------------------------------------------

  /** `g.add_node(n, a)`: a new node goes last; an existing node merges `a` into its attributes. */
  function NodeAdded(g: Graph, n: NodeId, a: AttrMap): Graph {
    if n in g.attrs then g.(attrs := g.attrs[n := g.attrs[n] + a])
    else g.(nodes := g.nodes + [n], attrs := g.attrs[n := a])
  }

  /** `add_edge` creates a missing endpoint with an empty dictionary. */
  function Endpoint(g: Graph, n: NodeId): Graph {
    if n in g.attrs then g else g.(nodes := g.nodes + [n], attrs := g.attrs[n := map[]])
  }

  /** `g.add_edge(u, v, a)`: a new edge goes last; an existing edge merges `a` into its attributes. */
  function EdgeAdded(g: Graph, u: NodeId, v: NodeId, a: AttrMap): Graph {
    var h := Endpoint(Endpoint(g, u), v);
    if (u, v) in h.edgeAttrs then h.(edgeAttrs := h.edgeAttrs[(u, v) := h.edgeAttrs[(u, v)] + a])
    else h.(edges := h.edges + [(u, v)], edgeAttrs := h.edgeAttrs[(u, v) := a])
  }

  function NotIn(ids: set<NodeId>): NodeId -> bool {
    (n: NodeId) => n !in ids
  }

  function Avoids(ids: set<NodeId>): Pair -> bool {
    (e: Pair) => e.0 !in ids && e.1 !in ids
  }

  /** The graph after `g.remove_node(n)` for every `n` in `ids`: the nodes and every edge touching one of them go. */
  function NodesRemoved(g: Graph, ids: set<NodeId>): Graph {
    Graph(
      Filter(g.nodes, NotIn(ids)),
      g.attrs - ids,
      Filter(g.edges, Avoids(ids)),
      map e | e in g.edgeAttrs && e.0 !in ids && e.1 !in ids :: g.edgeAttrs[e])
  }

  function Outside(ps: set<Pair>): Pair -> bool {
    (e: Pair) => e !in ps
  }

  /** The graph after `g.remove_edge(u, v)` for every `(u, v)` in `ps`. */
  function EdgesRemoved(g: Graph, ps: set<Pair>): Graph {
    g.(edges := Filter(g.edges, Outside(ps)), edgeAttrs := g.edgeAttrs - ps)
  }

  /** `g.node[n] = a` */
  function NodeAttrsSet(g: Graph, n: NodeId, a: AttrMap): Graph
    requires n in g.attrs
  {
    g.(attrs := g.attrs[n := a])
  }

  /** `g[u][v] = a` */
  function EdgeAttrsSet(g: Graph, e: Pair, a: AttrMap): Graph
    requires e in g.edgeAttrs
  {
    g.(edgeAttrs := g.edgeAttrs[e := a])
  }

  // ---------------------------------------------------------------------
  // Views
  // ---------------------------------------------------------------------

  function AttrsOf(g: Graph, n: NodeId): AttrMap {
    if n in g.attrs then g.attrs[n] else map[]
  }

  function EdgeAttrsOf(g: Graph, e: Pair): AttrMap {
    if e in g.edgeAttrs then g.edgeAttrs[e] else map[]
  }

  /** `g.nodes(data=True)` */
  function NodeTuples(g: Graph): seq<NodeTuple> {
    seq(|g.nodes|, i requires 0 <= i < |g.nodes| => (g.nodes[i], AttrsOf(g, g.nodes[i])))
  }

  function SourceIs(n: NodeId): Pair -> bool {
    (e: Pair) => e.0 == n
  }

  function OutPairs(g: Graph, n: NodeId): seq<Pair> {
    Filter(g.edges, SourceIs(n))
  }

  function EdgeTupleOf(g: Graph, e: Pair): EdgeTuple {
    (e.0, e.1, EdgeAttrsOf(g, e))
  }

  /** `g.out_edges(n, data=True)` */
  function OutEdges(g: Graph, n: NodeId): seq<EdgeTuple> {
    var ps := OutPairs(g, n);
    seq(|ps|, i requires 0 <= i < |ps| => EdgeTupleOf(g, ps[i]))
  }

  /** `g.neighbors(n)`: the targets of the out-edges of `n`. */
  function Successors(g: Graph, n: NodeId): seq<NodeId> {
    var ps := OutPairs(g, n);
    seq(|ps|, i requires 0 <= i < |ps| => ps[i].1)
  }

  function OutEdgesOf(g: Graph): NodeId -> seq<EdgeTuple> {
    (n: NodeId) => OutEdges(g, n)
  }

  /** `g.edges(data=True)`: out-edges node by node. */
  function EdgeTuples(g: Graph): seq<EdgeTuple> {
    FlatMap(g.nodes, OutEdgesOf(g))
  }

  /** `g.has_edge(u, v)` */
  predicate HasEdge(g: Graph, u: NodeId, v: NodeId)
    ensures WellFormed(g) ==> (HasEdge(g, u, v) <==> (u, v) in g.edges)
    ensures WellFormed(g) && HasEdge(g, u, v) ==> u in g.nodes && v in g.nodes
  {
    (u, v) in g.edgeAttrs
  }

  // ---------------------------------------------------------------------
  // What the views contain
  // ---------------------------------------------------------------------

  lemma NodeTuplesMember(g: Graph, t: NodeTuple)
    requires WellFormed(g)
    ensures t in NodeTuples(g) <==> t.0 in g.attrs && t.1 == g.attrs[t.0]
  {
    var ts := NodeTuples(g);
    if t in ts {
      var i :| 0 <= i < |ts| && ts[i] == t;
      assert g.nodes[i] in g.nodes;
    }
    if t.0 in g.attrs && t.1 == g.attrs[t.0] {
      var i :| 0 <= i < |g.nodes| && g.nodes[i] == t.0;
      assert ts[i] == t;
    }
  }

  lemma OutEdgesMember(g: Graph, n: NodeId, t: EdgeTuple)
    requires WellFormed(g)
    ensures t in OutEdges(g, n) <==>
      t.0 == n && (t.0, t.1) in g.edgeAttrs && t.2 == g.edgeAttrs[(t.0, t.1)]
  {
    var ps := OutPairs(g, n);
    var ts := OutEdges(g, n);
    FilterMembers(g.edges, SourceIs(n));
    if t in ts {
      var i :| 0 <= i < |ts| && ts[i] == t;
      assert ps[i] in ps;
    }
    if t.0 == n && (t.0, t.1) in g.edgeAttrs && t.2 == g.edgeAttrs[(t.0, t.1)] {
      assert (t.0, t.1) in ps;
      var i :| 0 <= i < |ps| && ps[i] == (t.0, t.1);
      assert ts[i] == t;
    }
  }

  lemma SuccessorsMember(g: Graph, n: NodeId, m: NodeId)
    requires WellFormed(g)
    ensures m in Successors(g, n) <==> (n, m) in g.edgeAttrs
  {
    var ps := OutPairs(g, n);
    var ms := Successors(g, n);
    FilterMembers(g.edges, SourceIs(n));
    if m in ms {
      var i :| 0 <= i < |ms| && ms[i] == m;
      assert ps[i] in ps;
    }
    if (n, m) in g.edgeAttrs {
      assert (n, m) in ps;
      var i :| 0 <= i < |ps| && ps[i] == (n, m);
      assert ms[i] == m;
    }
  }

  lemma EdgeTuplesMember(g: Graph, t: EdgeTuple)
    requires WellFormed(g)
    ensures t in EdgeTuples(g) <==> (t.0, t.1) in g.edgeAttrs && t.2 == g.edgeAttrs[(t.0, t.1)]
  {
    FlatMapMember(g.nodes, OutEdgesOf(g), t);
    if t in EdgeTuples(g) {
      var i :| 0 <= i < |g.nodes| && t in OutEdges(g, g.nodes[i]);
      OutEdgesMember(g, g.nodes[i], t);
    }
    if (t.0, t.1) in g.edgeAttrs && t.2 == g.edgeAttrs[(t.0, t.1)] {
      var i :| 0 <= i < |g.nodes| && g.nodes[i] == t.0;
      OutEdgesMember(g, g.nodes[i], t);
      assert t in OutEdgesOf(g)(g.nodes[i]);
    }
  }

  lemma OutEdgesDistinct(g: Graph, n: NodeId)
    requires WellFormed(g)
    ensures Distinct(OutEdges(g, n))
  {
    var ps := OutPairs(g, n);
    FilterDistinct(g.edges, SourceIs(n));
    var ts := OutEdges(g, n);
    forall i, j | 0 <= i < j < |ts| ensures ts[i] != ts[j] {
      assert ps[i] != ps[j];
    }
  }

  /** Each edge appears once in `g.edges(data=True)`, and so does each `(source, target)` pair. */
  lemma EdgeTuplesDistinct(g: Graph)
    requires WellFormed(g)
    ensures Distinct(EdgeTuples(g))
    ensures forall i, j :: 0 <= i < j < |EdgeTuples(g)| ==>
      (EdgeTuples(g)[i].0, EdgeTuples(g)[i].1) != (EdgeTuples(g)[j].0, EdgeTuples(g)[j].1)
  {
    var src := (t: EdgeTuple) => t.0;
    forall i | 0 <= i < |g.nodes| ensures Distinct(OutEdgesOf(g)(g.nodes[i])) {
      OutEdgesDistinct(g, g.nodes[i]);
    }
    forall i, y | 0 <= i < |g.nodes| && y in OutEdgesOf(g)(g.nodes[i]) ensures src(y) == g.nodes[i] {
      OutEdgesMember(g, g.nodes[i], y);
    }
    FlatMapDistinct(g.nodes, OutEdgesOf(g), src);
    var ts := EdgeTuples(g);
    forall i, j | 0 <= i < j < |ts| ensures (ts[i].0, ts[i].1) != (ts[j].0, ts[j].1) {
      EdgeTuplesMember(g, ts[i]);
      EdgeTuplesMember(g, ts[j]);
    }
  }

  // ---------------------------------------------------------------------
  // Updates keep the graph well formed
  // ---------------------------------------------------------------------

  lemma NodeAddedWellFormed(g: Graph, n: NodeId, a: AttrMap)
    requires WellFormed(g)
    ensures WellFormed(NodeAdded(g, n, a))
  {
    if n !in g.attrs {
      DistinctAppend(g.nodes, [n]);
    }
  }

  lemma EndpointWellFormed(g: Graph, n: NodeId)
    requires WellFormed(g)
    ensures WellFormed(Endpoint(g, n))
  {
    if n !in g.attrs {
      DistinctAppend(g.nodes, [n]);
    }
  }

  lemma EdgeAddedWellFormed(g: Graph, u: NodeId, v: NodeId, a: AttrMap)
    requires WellFormed(g)
    ensures WellFormed(EdgeAdded(g, u, v, a))
  {
    EndpointWellFormed(g, u);
    EndpointWellFormed(Endpoint(g, u), v);
    var h := Endpoint(Endpoint(g, u), v);
    if (u, v) !in h.edgeAttrs {
      DistinctAppend(h.edges, [(u, v)]);
    }
  }

  lemma NodesRemovedWellFormed(g: Graph, ids: set<NodeId>)
    requires WellFormed(g)
    ensures WellFormed(NodesRemoved(g, ids))
  {
    FilterMembers(g.nodes, NotIn(ids));
    FilterMembers(g.edges, Avoids(ids));
    FilterDistinct(g.nodes, NotIn(ids));
    FilterDistinct(g.edges, Avoids(ids));
  }

  lemma EdgesRemovedWellFormed(g: Graph, ps: set<Pair>)
    requires WellFormed(g)
    ensures WellFormed(EdgesRemoved(g, ps))
  {
    FilterMembers(g.edges, Outside(ps));
    FilterDistinct(g.edges, Outside(ps));
    var h := EdgesRemoved(g, ps);
    forall e ensures e in h.edgeAttrs <==> e in h.edges {
      assert Outside(ps)(e) == (e !in ps);
      assert e in g.edgeAttrs <==> e in g.edges;
      assert h.edges == Filter(g.edges, Outside(ps));
      FilterMember(g.edges, Outside(ps), e);
    }
  }

  /** Removing nothing changes nothing. */
  lemma NodesRemovedNone(g: Graph)
    ensures NodesRemoved(g, {}) == g
  {
    FilterAll(g.nodes, NotIn({}));
    FilterAll(g.edges, Avoids({}));
  }

  lemma EdgesRemovedNone(g: Graph)
    ensures EdgesRemoved(g, {}) == g
  {
    FilterAll(g.edges, Outside({}));
  }

  /** Removing the nodes `ids` one at a time is removing them all at once. */
  lemma NodesRemovedStep(g: Graph, ids: set<NodeId>, x: NodeId)
    ensures NodesRemoved(NodesRemoved(g, ids), {x}) == NodesRemoved(g, ids + {x})
  {
    NotInStep(g.nodes, ids, x);
    AvoidsStep(g.edges, ids, x);
    RemovedMapsStep(g, ids, x);
  }

  lemma RemovedMapsStep(g: Graph, ids: set<NodeId>, x: NodeId)
    ensures NodesRemoved(NodesRemoved(g, ids), {x}).attrs == NodesRemoved(g, ids + {x}).attrs
    ensures NodesRemoved(NodesRemoved(g, ids), {x}).edgeAttrs == NodesRemoved(g, ids + {x}).edgeAttrs
  {
  }

  lemma NotInStep(ns: seq<NodeId>, ids: set<NodeId>, x: NodeId)
    ensures Filter(Filter(ns, NotIn(ids)), NotIn({x})) == Filter(ns, NotIn(ids + {x}))
  {
    FilterCompose(ns, NotIn(ids), NotIn({x}), NotIn(ids + {x}));
  }

  lemma AvoidsStep(es: seq<Pair>, ids: set<NodeId>, x: NodeId)
    ensures Filter(Filter(es, Avoids(ids)), Avoids({x})) == Filter(es, Avoids(ids + {x}))
  {
    FilterCompose(es, Avoids(ids), Avoids({x}), Avoids(ids + {x}));
  }

  lemma EdgesRemovedStep(g: Graph, ps: set<Pair>, p: Pair)
    ensures EdgesRemoved(EdgesRemoved(g, ps), {p}) == EdgesRemoved(g, ps + {p})
  {
    FilterCompose(g.edges, Outside(ps), Outside({p}), Outside(ps + {p}));
  }

  // ---------------------------------------------------------------------
  // The graph object
  // ---------------------------------------------------------------------

  /** A `networkx.DiGraph` object; its methods change it in place. */
  class DiGraph {
    var nodes: seq<NodeId>
    var attrs: map<NodeId, AttrMap>
    var edges: seq<Pair>
    var edgeAttrs: map<Pair, AttrMap>

    function Model(): Graph
      reads this
    {
      Graph(nodes, attrs, edges, edgeAttrs)
    }

    ghost predicate Valid()
      reads this
    {
      WellFormed(Model())
    }

    constructor ()
      ensures Valid() && Model() == Empty
    {
      nodes, attrs, edges, edgeAttrs := [], map[], [], map[];
    }

    method AddNode(n: NodeId, a: AttrMap)
      requires Valid()
      modifies this
      ensures Valid() && Model() == NodeAdded(old(Model()), n, a)
    {
      NodeAddedWellFormed(Model(), n, a);
      if n in attrs {
        attrs := attrs[n := attrs[n] + a];
      } else {
        nodes, attrs := nodes + [n], attrs[n := a];
      }
    }

    /** networkx adds a missing endpoint of a new edge as a node without attributes. */
    method AddEndpoint(n: NodeId)
      requires Valid()
      modifies this
      ensures Valid() && Model() == Endpoint(old(Model()), n)
    {
      EndpointWellFormed(Model(), n);
      if n !in attrs {
        nodes, attrs := nodes + [n], attrs[n := map[]];
      }
    }

    method AddEdge(u: NodeId, v: NodeId, a: AttrMap)
      requires Valid()
      modifies this
      ensures Valid() && Model() == EdgeAdded(old(Model()), u, v, a)
    {
      EdgeAddedWellFormed(Model(), u, v, a);
      AddEndpoint(u);
      AddEndpoint(v);
      if (u, v) in edgeAttrs {
        edgeAttrs := edgeAttrs[(u, v) := edgeAttrs[(u, v)] + a];
      } else {
        edges, edgeAttrs := edges + [(u, v)], edgeAttrs[(u, v) := a];
      }
    }

    /** networkx raises `NetworkXError` for a node that is not there. */
    method RemoveNode(n: NodeId)
      requires Valid() && n in attrs
      modifies this
      ensures Valid() && Model() == NodesRemoved(old(Model()), {n})
    {
      NodesRemovedWellFormed(Model(), {n});
      var after := NodesRemoved(Model(), {n});
      nodes, attrs, edges, edgeAttrs := after.nodes, after.attrs, after.edges, after.edgeAttrs;
    }

    /** networkx raises `NetworkXError` for an edge that is not there. */
    method RemoveEdge(u: NodeId, v: NodeId)
      requires Valid() && (u, v) in edgeAttrs
      modifies this
      ensures Valid() && Model() == EdgesRemoved(old(Model()), {(u, v)})
    {
      EdgesRemovedWellFormed(Model(), {(u, v)});
      edges := Filter(edges, Outside({(u, v)}));
      edgeAttrs := edgeAttrs - {(u, v)};
    }

    method SetNodeAttrs(n: NodeId, a: AttrMap)
      requires Valid() && n in attrs
      modifies this
      ensures Valid() && Model() == NodeAttrsSet(old(Model()), n, a)
    {
      attrs := attrs[n := a];
    }

    method SetEdgeAttrs(e: Pair, a: AttrMap)
      requires Valid() && e in edgeAttrs
      modifies this
      ensures Valid() && Model() == EdgeAttrsSet(old(Model()), e, a)
    {
      edgeAttrs := edgeAttrs[e := a];
    }
  }
}
