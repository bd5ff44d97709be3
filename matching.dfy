/**
 * What the match queries of the evaluator return, as functions of the
 * graph. Every list is the result of the corresponding `for` loop with
 * `append`, so the order of the result is part of the definition.
 */
module Matching {
  import opened Wrappers
  import opened Seqs
  import opened Attributes
  import opened GraphModel

  function NodeFilter(f: AttrMap): NodeTuple -> bool {
    (t: NodeTuple) => Matches(t.1, f)
  }

  function EdgeFilter(f: AttrMap): EdgeTuple -> bool {
    (t: EdgeTuple) => Matches(t.2, f)
  }

  function IdFilter(g: Graph, f: AttrMap): NodeId -> bool {
    (n: NodeId) => Matches(AttrsOf(g, n), f)
  }

  /** `match_node(f)`: the node tuples whose attributes contain `f`, in node order. */
  function NodesMatching(g: Graph, f: AttrMap): seq<NodeTuple> {
    Filter(NodeTuples(g), NodeFilter(f))
  }

  /** `match_rel(f)`: the edge tuples whose attributes contain `f`, in edge order. */
  function RelsMatching(g: Graph, f: AttrMap): seq<EdgeTuple> {
    Filter(EdgeTuples(g), EdgeFilter(f))
  }

  /** `filter_nodes(ids, f)`: the ids whose node attributes contain `f`, in the order of `ids`. */
  function IdsMatching(g: Graph, ids: seq<NodeId>, f: AttrMap): seq<NodeId> {
    Filter(ids, IdFilter(g, f))
  }

  /**
   * The test `edge in out_edges and node2_id in edge` of `match_node_node_rel`
   * for source `n` and neighbour `m`. `node2_id in edge` is tuple membership,
   * so as written it also holds when `m` is the source of the edge; the
   * corrected test asks for `m` to be its target.
   */
  function Linked(g: Graph, n: NodeId, m: NodeId, asWritten: bool): EdgeTuple -> bool {
    if asWritten then (e: EdgeTuple) => e in OutEdges(g, n) && (m == e.0 || m == e.1)
    else (e: EdgeTuple) => e in OutEdges(g, n) && e.1 == m
  }

  /** The innermost loop: the matched relationships linking `n` to `m`. */
  function EdgesTo(g: Graph, es: seq<EdgeTuple>, n: NodeId, asWritten: bool): NodeId -> seq<EdgeTuple> {
    (m: NodeId) => Filter(es, Linked(g, n, m, asWritten))
  }

  /** The middle loop: over the neighbours of the source node that match `f2`. */
  function EdgesFrom(g: Graph, f2: AttrMap, es: seq<EdgeTuple>, asWritten: bool): NodeTuple -> seq<EdgeTuple> {
    (t: NodeTuple) => FlatMap(IdsMatching(g, Successors(g, t.0), f2), EdgesTo(g, es, t.0, asWritten))
  }

  function NodeNodeRelLoop(g: Graph, f1: AttrMap, f2: AttrMap, r: AttrMap, asWritten: bool): seq<EdgeTuple> {
    FlatMap(NodesMatching(g, f1), EdgesFrom(g, f2, RelsMatching(g, r), asWritten))
  }

  /** `match_node_node_rel(f1, f2, r)` with the corrected target test. */
  function NodeNodeRel(g: Graph, f1: AttrMap, f2: AttrMap, r: AttrMap): seq<EdgeTuple> {
    NodeNodeRelLoop(g, f1, f2, r, false)
  }

  /** `match_node_node_rel(f1, f2, r)` as written. */
  function NodeNodeRelAsWritten(g: Graph, f1: AttrMap, f2: AttrMap, r: AttrMap): seq<EdgeTuple> {
    NodeNodeRelLoop(g, f1, f2, r, true)
  }

  /** The result of `match`: a list of node tuples or a list of edge tuples. */
  datatype MatchResult = NodeList(nodes: seq<NodeTuple>) | EdgeList(edges: seq<EdgeTuple>)

  /**
   * `match(n1, n2, r)`, routed on which arguments are `None`. With all three
   * `None` the string `assert` never fires and the empty list comes back.
   */
  function MatchQuery(g: Graph, n1: Option<AttrMap>, n2: Option<AttrMap>, r: Option<AttrMap>): MatchResult {
    if n1.None? && n2.None? && r.None? then EdgeList([])
    else if n1.None? && n2.None? then EdgeList(RelsMatching(g, r.value))
    else if n1.None? && r.None? then NodeList(NodesMatching(g, n2.value))
    else if n2.None? && r.None? then NodeList(NodesMatching(g, n1.value))
    else if n1.None? then EdgeList(NodeNodeRel(g, n2.value, map[], r.value))
    else if n2.None? then EdgeList(NodeNodeRel(g, n1.value, map[], r.value))
    else if r.None? then EdgeList(NodeNodeRel(g, n1.value, n2.value, map[]))
    else EdgeList(NodeNodeRel(g, n1.value, n2.value, r.value))
  }

  function OrEmpty(o: Option<AttrMap>): AttrMap {
    if o.Some? then o.value else map[]
  }

  // ---------------------------------------------------------------------
  // Contents of the match results
  // ---------------------------------------------------------------------

  lemma NodesMatchingMember(g: Graph, f: AttrMap, t: NodeTuple)
    requires WellFormed(g)
    ensures t in NodesMatching(g, f) <==> t.0 in g.attrs && t.1 == g.attrs[t.0] && Matches(t.1, f)
  {
    FilterMember(NodeTuples(g), NodeFilter(f), t);
    NodeTuplesMember(g, t);
  }

  /** `match_node({})` lists every node. */
  lemma NodesMatchingAll(g: Graph)
    ensures NodesMatching(g, map[]) == NodeTuples(g)
  {
    FilterAll(NodeTuples(g), NodeFilter(map[]));
  }

  /** Each node id appears at most once among the matched nodes. */
  lemma NodesMatchingDistinct(g: Graph, f: AttrMap)
    requires WellFormed(g)
    ensures DistinctBy(NodesMatching(g, f), (t: NodeTuple) => t.0)
  {
    FilterDistinctBy(NodeTuples(g), NodeFilter(f), (t: NodeTuple) => t.0);
  }

  lemma RelsMatchingMember(g: Graph, f: AttrMap, e: EdgeTuple)
    requires WellFormed(g)
    ensures e in RelsMatching(g, f) <==>
      (e.0, e.1) in g.edgeAttrs && e.2 == g.edgeAttrs[(e.0, e.1)] && Matches(e.2, f)
  {
    FilterMember(EdgeTuples(g), EdgeFilter(f), e);
    EdgeTuplesMember(g, e);
  }

  /** `match_rel({})` lists every edge. */
  lemma RelsMatchingAll(g: Graph)
    ensures RelsMatching(g, map[]) == EdgeTuples(g)
  {
    FilterAll(EdgeTuples(g), EdgeFilter(map[]));
  }

  /** Each `(source, target)` pair appears at most once among the matched relationships. */
  lemma RelsMatchingDistinct(g: Graph, f: AttrMap)
    requires WellFormed(g)
    ensures Distinct(RelsMatching(g, f))
    ensures DistinctBy(RelsMatching(g, f), (e: EdgeTuple) => (e.0, e.1))
  {
    EdgeTuplesDistinct(g);
    FilterDistinct(EdgeTuples(g), EdgeFilter(f));
    FilterDistinctBy(EdgeTuples(g), EdgeFilter(f), (e: EdgeTuple) => (e.0, e.1));
  }

  lemma IdsMatchingMember(g: Graph, ids: seq<NodeId>, f: AttrMap, n: NodeId)
    ensures n in IdsMatching(g, ids, f) <==> n in ids && Matches(AttrsOf(g, n), f)
  {
    FilterMember(ids, IdFilter(g, f), n);
  }

  /**
   * An edge is in the corrected `match_node_node_rel(f1, f2, r)` exactly when
   * its source matches `f1`, its target matches `f2` and its attributes match `r`.
   */
  lemma NodeNodeRelMember(g: Graph, f1: AttrMap, f2: AttrMap, r: AttrMap, e: EdgeTuple)
    requires WellFormed(g)
    ensures e in NodeNodeRel(g, f1, f2, r) <==>
      && (e.0, e.1) in g.edgeAttrs && e.2 == g.edgeAttrs[(e.0, e.1)]
      && Matches(g.attrs[e.0], f1) && Matches(g.attrs[e.1], f2) && Matches(e.2, r)
  {
    if e in NodeNodeRel(g, f1, f2, r) {
      NodeNodeRelSound(g, f1, f2, r, e);
    }
    if && (e.0, e.1) in g.edgeAttrs && e.2 == g.edgeAttrs[(e.0, e.1)]
       && Matches(g.attrs[e.0], f1) && Matches(g.attrs[e.1], f2) && Matches(e.2, r)
    {
      NodeNodeRelComplete(g, f1, f2, r, e);
    }
  }

  /** Every listed relationship is a matching edge between matching nodes. */
  lemma NodeNodeRelSound(g: Graph, f1: AttrMap, f2: AttrMap, r: AttrMap, e: EdgeTuple)
    requires WellFormed(g) && e in NodeNodeRel(g, f1, f2, r)
    ensures (e.0, e.1) in g.edgeAttrs && e.2 == g.edgeAttrs[(e.0, e.1)]
    ensures Matches(g.attrs[e.0], f1) && Matches(g.attrs[e.1], f2) && Matches(e.2, r)
  {
    var ns := NodesMatching(g, f1);
    var es := RelsMatching(g, r);
    var from := EdgesFrom(g, f2, es, false);
    FlatMapMember(ns, from, e);
    RelsMatchingMember(g, r, e);
    var i :| 0 <= i < |ns| && e in from(ns[i]);
    var n := ns[i].0;
    NodesMatchingMember(g, f1, ns[i]);
    var ms := IdsMatching(g, Successors(g, n), f2);
    FlatMapMember(ms, EdgesTo(g, es, n, false), e);
    var j :| 0 <= j < |ms| && e in EdgesTo(g, es, n, false)(ms[j]);
    FilterMember(es, Linked(g, n, ms[j], false), e);
    OutEdgesMember(g, n, e);
    IdsMatchingMember(g, Successors(g, n), f2, ms[j]);
  }

  /** Every matching edge between matching nodes is listed. */
  lemma NodeNodeRelComplete(g: Graph, f1: AttrMap, f2: AttrMap, r: AttrMap, e: EdgeTuple)
    requires WellFormed(g) && (e.0, e.1) in g.edgeAttrs && e.2 == g.edgeAttrs[(e.0, e.1)]
    requires Matches(g.attrs[e.0], f1) && Matches(g.attrs[e.1], f2) && Matches(e.2, r)
    ensures e in NodeNodeRel(g, f1, f2, r)
  {
    var ns := NodesMatching(g, f1);
    var es := RelsMatching(g, r);
    var from := EdgesFrom(g, f2, es, false);
    RelsMatchingMember(g, r, e);
    var t := (e.0, g.attrs[e.0]);
    NodesMatchingMember(g, f1, t);
    var i :| 0 <= i < |ns| && ns[i] == t;
    SuccessorsMember(g, e.0, e.1);
    var ms := IdsMatching(g, Successors(g, e.0), f2);
    IdsMatchingMember(g, Successors(g, e.0), f2, e.1);
    var j :| 0 <= j < |ms| && ms[j] == e.1;
    OutEdgesMember(g, e.0, e);
    FilterMember(es, Linked(g, e.0, e.1, false), e);
    assert e in EdgesTo(g, es, e.0, false)(ms[j]);
    FlatMapMember(ms, EdgesTo(g, es, e.0, false), e);
    assert e in from(ns[i]);
    FlatMapMember(ns, from, e);
  }

  /** `match_find_rel(f1, f2) = match_node_node_rel(f1, f2, {})` keeps every relationship between matching nodes. */
  lemma FindRelMember(g: Graph, f1: AttrMap, f2: AttrMap, e: EdgeTuple)
    requires WellFormed(g)
    ensures e in NodeNodeRel(g, f1, f2, map[]) <==>
      && (e.0, e.1) in g.edgeAttrs && e.2 == g.edgeAttrs[(e.0, e.1)]
      && Matches(g.attrs[e.0], f1) && Matches(g.attrs[e.1], f2)
  {
    NodeNodeRelMember(g, f1, f2, map[], e);
  }

  /** `match_node_rel(f, r) = match_node_node_rel(f, {}, r)`: `f` constrains the source only. */
  lemma NodeRelMember(g: Graph, f: AttrMap, r: AttrMap, e: EdgeTuple)
    requires WellFormed(g)
    ensures e in NodeNodeRel(g, f, map[], r) <==>
      && (e.0, e.1) in g.edgeAttrs && e.2 == g.edgeAttrs[(e.0, e.1)]
      && Matches(g.attrs[e.0], f) && Matches(e.2, r)
  {
    NodeNodeRelMember(g, f, map[], r, e);
  }

  /** `match` returns exactly the nodes or edges its non-`None` filters describe. */
  lemma MatchMember(g: Graph, n1: Option<AttrMap>, n2: Option<AttrMap>, r: Option<AttrMap>)
    requires WellFormed(g)
    ensures MatchQuery(g, n1, n2, r).NodeList? <==> r.None? && n1.None? != n2.None?
    ensures MatchQuery(g, n1, n2, r).NodeList? ==> forall t ::
      t in MatchQuery(g, n1, n2, r).nodes <==>
        t.0 in g.attrs && t.1 == g.attrs[t.0] && Matches(t.1, OrEmpty(n1)) && Matches(t.1, OrEmpty(n2))
    ensures n1.None? && n2.None? && r.None? ==> MatchQuery(g, n1, n2, r) == EdgeList([])
    ensures MatchQuery(g, n1, n2, r).EdgeList? && (n1.Some? || n2.Some? || r.Some?) ==> forall e ::
      e in MatchQuery(g, n1, n2, r).edges <==>
        && (e.0, e.1) in g.edgeAttrs && e.2 == g.edgeAttrs[(e.0, e.1)]
        && Matches(g.attrs[e.0], if n1.Some? then n1.value else OrEmpty(n2))
        && Matches(g.attrs[e.1], if n1.Some? then OrEmpty(n2) else map[])
        && Matches(e.2, OrEmpty(r))
  {
    var q := MatchQuery(g, n1, n2, r);
    if q.NodeList? {
      forall t ensures t in q.nodes <==>
        t.0 in g.attrs && t.1 == g.attrs[t.0] && Matches(t.1, OrEmpty(n1)) && Matches(t.1, OrEmpty(n2))
      {
        NodesMatchingMember(g, if n1.Some? then n1.value else n2.value, t);
      }
    } else if n1.Some? || n2.Some? || r.Some? {
      forall e ensures e in q.edges <==>
        && (e.0, e.1) in g.edgeAttrs && e.2 == g.edgeAttrs[(e.0, e.1)]
        && Matches(g.attrs[e.0], if n1.Some? then n1.value else OrEmpty(n2))
        && Matches(g.attrs[e.1], if n1.Some? then OrEmpty(n2) else map[])
        && Matches(e.2, OrEmpty(r))
      {
        if n1.None? && n2.None? {
          RelsMatchingMember(g, r.value, e);
        } else {
          NodeNodeRelMember(g, if n1.Some? then n1.value else OrEmpty(n2),
            if n1.Some? then OrEmpty(n2) else map[], OrEmpty(r), e);
        }
      }
    }
  }

  // ---------------------------------------------------------------------
  // The tuple-membership test, as written
  // ---------------------------------------------------------------------

  /** Without self-loops, the test as written and the corrected test select the same edges. */
  lemma {:induction false} NoSelfLoopsAgree(g: Graph, f1: AttrMap, f2: AttrMap, r: AttrMap)
    requires WellFormed(g)
    requires forall n :: (n, n) !in g.edgeAttrs
    ensures NodeNodeRelAsWritten(g, f1, f2, r) == NodeNodeRel(g, f1, f2, r)
  {
    var ns := NodesMatching(g, f1);
    var es := RelsMatching(g, r);
    forall i | 0 <= i < |ns|
      ensures EdgesFrom(g, f2, es, true)(ns[i]) == EdgesFrom(g, f2, es, false)(ns[i])
    {
      var n := ns[i].0;
      var ms := IdsMatching(g, Successors(g, n), f2);
      forall j | 0 <= j < |ms|
        ensures EdgesTo(g, es, n, true)(ms[j]) == EdgesTo(g, es, n, false)(ms[j])
      {
        IdsMatchingMember(g, Successors(g, n), f2, ms[j]);
        SuccessorsMember(g, n, ms[j]);
        forall k | 0 <= k < |es|
          ensures Linked(g, n, ms[j], true)(es[k]) == Linked(g, n, ms[j], false)(es[k])
        {
          OutEdgesMember(g, n, es[k]);
        }
        FilterExt(es, Linked(g, n, ms[j], true), Linked(g, n, ms[j], false));
      }
      FlatMapExt(ms, EdgesTo(g, es, n, true), EdgesTo(g, es, n, false));
    }
    FlatMapExt(ns, EdgesFrom(g, f2, es, true), EdgesFrom(g, f2, es, false));
  }

  /**
   * As written, a source node with a self-loop whose own attributes match
   * `f2` lends every matched relationship leaving it to the result, whatever
   * its target.
   */
  lemma SelfLoopWitness(g: Graph, f1: AttrMap, f2: AttrMap, r: AttrMap, n: NodeId, e: EdgeTuple)
    requires WellFormed(g)
    requires n in g.attrs && Matches(g.attrs[n], f1) && Matches(g.attrs[n], f2) && (n, n) in g.edgeAttrs
    requires e.0 == n && (e.0, e.1) in g.edgeAttrs && e.2 == g.edgeAttrs[(e.0, e.1)] && Matches(e.2, r)
    ensures e in NodeNodeRelAsWritten(g, f1, f2, r)
  {
    var ns := NodesMatching(g, f1);
    NodesMatchingMember(g, f1, (n, g.attrs[n]));
    var i :| 0 <= i < |ns| && ns[i] == (n, g.attrs[n]);
    var es := RelsMatching(g, r);
    RelsMatchingMember(g, r, e);
    SuccessorsMember(g, n, n);
    var ms := IdsMatching(g, Successors(g, n), f2);
    IdsMatchingMember(g, Successors(g, n), f2, n);
    var j :| 0 <= j < |ms| && ms[j] == n;
    OutEdgesMember(g, n, e);
    FilterMember(es, Linked(g, n, n, true), e);
    assert e in EdgesTo(g, es, n, true)(ms[j]);
    FlatMapMember(ms, EdgesTo(g, es, n, true), e);
    assert e in EdgesFrom(g, f2, es, true)(ns[i]);
    FlatMapMember(ns, EdgesFrom(g, f2, es, true), e);
  }

  /** Two nodes, a self-loop on the first and an edge from the first to the second. */
  const LoopGraph: Graph := Graph(
    [1, 2],
    map[1 := map["k" := "a"], 2 := map["k" := "b"]],
    [(1, 1), (1, 2)],
    map[(1, 1) := map[], (1, 2) := map[]])

  lemma LoopGraphWellFormed()
    ensures WellFormed(LoopGraph)
  {
    var g := LoopGraph;
    assert forall n :: n in g.attrs <==> n in g.nodes;
    assert forall e :: e in g.edgeAttrs <==> e in g.edges;
  }

  /**
   * With a self-loop, the test as written returns the edge `(1, 2)` even
   * though its target does not match `f2 = {"k": "a"}`; the corrected test
   * does not.
   */
  lemma SelfLoopLeaksEdge()
    ensures (1, 2, map[]) in NodeNodeRelAsWritten(LoopGraph, map[], map["k" := "a"], map[])
    ensures (1, 2, map[]) !in NodeNodeRel(LoopGraph, map[], map["k" := "a"], map[])
  {
    var g := LoopGraph;
    var f2: AttrMap := map["k" := "a"];
    var e: EdgeTuple := (1, 2, map[]);
    LoopGraphWellFormed();
    assert g.attrs[2]["k"] == "b" != f2["k"];
    NodeNodeRelMember(g, map[], f2, map[], e);
    assert Matches(g.attrs[1], f2);
    SelfLoopWitness(g, map[], f2, map[], 1, e);
  }
}
