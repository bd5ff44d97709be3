/**
 * The query evaluator: the operations of the query language, carried out
 * on the graph object of a `GraphStructure`. Every match operation builds
 * its result with `for` loops and `append` and is proved to return the
 * list that `Matching` defines; every mutation is proved to leave the graph
 * that `Mutations` defines.
 */
module QueryEvaluator {
  import opened Wrappers
  import opened Seqs
  import opened Attributes
  import opened GraphModel
  import opened Matching
  import opened Mutations
  import opened Chains
  import GraphStructure

  class QueryEvaluator {
    const gs: GraphStructure.GraphStructure
    /** The graph object of `gs`, shared with it: changes made here are changes to `gs`. */
    const g: DiGraph

    ghost predicate Valid()
      reads this, g
    {
      g == gs.graph && g.Valid()
    }

    constructor (gs: GraphStructure.GraphStructure)
      requires gs.graph.Valid()
      ensures this.gs == gs && Valid()
    {
      this.gs := gs;
      var graph := gs.GetGraph();
      g := graph;
    }

    // -------------------------------------------------------------------
    // Matching
    // -------------------------------------------------------------------

    /** `match_node(f)` */
    method MatchNode(f: AttrMap) returns (r: seq<NodeTuple>)
      requires Valid()
      ensures r == NodesMatching(g.Model(), f)
    {
      var all := NodeTuples(g.Model());
      r := [];
      var i := 0;
      while i < |all|
        invariant 0 <= i <= |all|
        invariant r == Filter(all[..i], NodeFilter(f))
      {
        var t := all[i];
        if Matches(t.1, f) {
          r := r + [t];
        }
        FilterSnoc(all[..i], t, NodeFilter(f));
        assert all[..i + 1] == all[..i] + [t];
        i := i + 1;
      }
      assert all[..i] == all;
    }

    /** `match_rel(f)` */
    method MatchRel(f: AttrMap) returns (r: seq<EdgeTuple>)
      requires Valid()
      ensures r == RelsMatching(g.Model(), f)
    {
      var all := EdgeTuples(g.Model());
      r := [];
      var i := 0;
      while i < |all|
        invariant 0 <= i <= |all|
        invariant r == Filter(all[..i], EdgeFilter(f))
      {
        var e := all[i];
        if Matches(e.2, f) {
          r := r + [e];
        }
        FilterSnoc(all[..i], e, EdgeFilter(f));
        assert all[..i + 1] == all[..i] + [e];
        i := i + 1;
      }
      assert all[..i] == all;
    }

    /** `filter_nodes(ids, f)`; looking up an id that is not a node raises `KeyError`. */
    method FilterNodes(ids: seq<NodeId>, f: AttrMap) returns (r: seq<NodeId>)
      requires Valid()
      requires forall i :: 0 <= i < |ids| ==> ids[i] in g.attrs
      ensures r == IdsMatching(g.Model(), ids, f)
    {
      ghost var keep := IdFilter(g.Model(), f);
      r := [];
      var i := 0;
      while i < |ids|
        invariant 0 <= i <= |ids|
        invariant r == Filter(ids[..i], keep)
      {
        var n := ids[i];
        assert keep(n) == Matches(g.attrs[n], f);
        if Matches(g.attrs[n], f) {
          r := r + [n];
        }
        FilterSnoc(ids[..i], n, keep);
        assert ids[..i + 1] == ids[..i] + [n];
        i := i + 1;
      }
      assert ids[..i] == ids;
    }

    /**
     * `match_node_node_rel(f1, f2, r)`, with the target test `edge[1] ==
     * node2_id` in place of the tuple membership `node2_id in edge`.
     */
    method MatchNodeNodeRel(f1: AttrMap, f2: AttrMap, rf: AttrMap) returns (r: seq<EdgeTuple>)
      requires Valid()
      ensures r == NodeNodeRel(g.Model(), f1, f2, rf)
    {
      var nodes1 := MatchNode(f1);
      var edges := MatchRel(rf);
      r := EdgesFromNodes(nodes1, f2, edges);
    }

    /** The outer loop of `match_node_node_rel`, over the nodes matching the first filter. */
    method EdgesFromNodes(nodes1: seq<NodeTuple>, f2: AttrMap, edges: seq<EdgeTuple>) returns (r: seq<EdgeTuple>)
      requires Valid()
      ensures r == FlatMap(nodes1, EdgesFrom(g.Model(), f2, edges, false))
    {
      r := [];
      var i := 0;
      while i < |nodes1|
        invariant 0 <= i <= |nodes1|
        invariant r == FlatMap(nodes1[..i], EdgesFrom(g.Model(), f2, edges, false))
      {
        var node := nodes1[i];
        var part := EdgesFromNode(node.0, f2, edges);
        r := r + part;
        FlatMapSnoc(nodes1[..i], node, EdgesFrom(g.Model(), f2, edges, false));
        assert nodes1[..i + 1] == nodes1[..i] + [node];
        i := i + 1;
      }
      assert nodes1[..i] == nodes1;
    }

    /** The body of the outer loop of `match_node_node_rel`, for source `n`. */
    method EdgesFromNode(n: NodeId, f2: AttrMap, edges: seq<EdgeTuple>) returns (r: seq<EdgeTuple>)
      requires Valid()
      ensures r == FlatMap(IdsMatching(g.Model(), Successors(g.Model(), n), f2), EdgesTo(g.Model(), edges, n, false))
    {
      var succ := Successors(g.Model(), n);
      forall k | 0 <= k < |succ| ensures succ[k] in g.attrs {
        SuccessorsMember(g.Model(), n, succ[k]);
      }
      var neighbors := FilterNodes(succ, f2);
      r := [];
      var j := 0;
      while j < |neighbors|
        invariant 0 <= j <= |neighbors|
        invariant r == FlatMap(neighbors[..j], EdgesTo(g.Model(), edges, n, false))
      {
        var m := neighbors[j];
        var part := EdgesLinking(n, m, edges);
        r := r + part;
        FlatMapSnoc(neighbors[..j], m, EdgesTo(g.Model(), edges, n, false));
        assert neighbors[..j + 1] == neighbors[..j] + [m];
        j := j + 1;
      }
      assert neighbors[..j] == neighbors;
    }

    /** The innermost loop of `match_node_node_rel`: the matched edges from `n` to `m`. */
    method EdgesLinking(n: NodeId, m: NodeId, edges: seq<EdgeTuple>) returns (r: seq<EdgeTuple>)
      requires Valid()
      ensures r == Filter(edges, Linked(g.Model(), n, m, false))
    {
      var outEdges := OutEdges(g.Model(), n);
      r := [];
      var k := 0;
      while k < |edges|
        invariant 0 <= k <= |edges|
        invariant r == Filter(edges[..k], Linked(g.Model(), n, m, false))
      {
        var e := edges[k];
        if e in outEdges && e.1 == m {
          r := r + [e];
        }
        FilterSnoc(edges[..k], e, Linked(g.Model(), n, m, false));
        assert edges[..k + 1] == edges[..k] + [e];
        k := k + 1;
      }
      assert edges[..k] == edges;
    }

    /** `match_node_rel(f, r)`: `f` filters the source, any target will do. */
    method MatchNodeRel(f: AttrMap, rf: AttrMap) returns (r: seq<EdgeTuple>)
      requires Valid()
      ensures r == NodeNodeRel(g.Model(), f, map[], rf)
    {
      r := MatchNodeNodeRel(f, map[], rf);
    }

    /** `match_find_rel(f1, f2)`: any relationship attributes will do. */
    method MatchFindRel(f1: AttrMap, f2: AttrMap) returns (r: seq<EdgeTuple>)
      requires Valid()
      ensures r == NodeNodeRel(g.Model(), f1, f2, map[])
    {
      r := MatchNodeNodeRel(f1, f2, map[]);
    }

    /** `match(n1, n2, r)`, with Python's `None` as `Option.None`. */
    method Match(n1: Option<AttrMap>, n2: Option<AttrMap>, rf: Option<AttrMap>) returns (r: MatchResult)
      requires Valid()
      ensures r == MatchQuery(g.Model(), n1, n2, rf)
    {
      if n1.None? && n2.None? && rf.None? {
        r := EdgeList([]);
      } else if n1.None? && n2.None? {
        var es := MatchRel(rf.value);
        r := EdgeList(es);
      } else if n1.None? && rf.None? {
        var ns := MatchNode(n2.value);
        r := NodeList(ns);
      } else if n2.None? && rf.None? {
        var ns := MatchNode(n1.value);
        r := NodeList(ns);
      } else if n1.None? {
        var es := MatchNodeRel(n2.value, rf.value);
        r := EdgeList(es);
      } else if n2.None? {
        var es := MatchNodeRel(n1.value, rf.value);
        r := EdgeList(es);
      } else if rf.None? {
        var es := MatchFindRel(n1.value, n2.value);
        r := EdgeList(es);
      } else {
        var es := MatchNodeNodeRel(n1.value, n2.value, rf.value);
        r := EdgeList(es);
      }
    }

    /** `is_connected(u, v)`: a relationship from `u` to `v` exists. */
    method IsConnected(u: NodeId, v: NodeId) returns (b: bool)
      requires Valid()
      ensures b == HasEdge(g.Model(), u, v)
    {
      b := (u, v) in g.edgeAttrs;
    }

    // -------------------------------------------------------------------
    // Adding
    // -------------------------------------------------------------------

    /**
     * `add_node(a)`: advances the counter and adds (or, if the id is
     * already a node, merges into) the node with the new id.
     */
    method AddNode(a: AttrMap) returns (r: NodeTuple)
      requires Valid()
      modifies gs, g
      ensures Valid()
      ensures gs.id == old(gs.id) + 1
      ensures r == (gs.id, a)
      ensures g.Model() == NodeAdded(old(g.Model()), gs.id, a)
    {
      gs.IncId();
      var id := gs.GetId();
      g.AddNode(id, a);
      var id2 := gs.GetId();
      r := (id2, a);
    }

    /** `add_relationship(node1, node2, a)`: only the ids of the two node tuples are used. */
    method AddRelationship(node1: NodeTuple, node2: NodeTuple, a: AttrMap) returns (r: EdgeTuple)
      requires Valid()
      modifies g
      ensures Valid()
      ensures r == (node1.0, node2.0, a)
      ensures g.Model() == EdgeAdded(old(g.Model()), node1.0, node2.0, a)
    {
      g.AddEdge(node1.0, node2.0, a);
      r := (node1.0, node2.0, a);
    }

    // -------------------------------------------------------------------
    // Deleting
    // -------------------------------------------------------------------

    /** `delete_node(f)`, without the call to `gs.delete_identifier`, which does not exist. */
    method DeleteNode(f: AttrMap)
      requires Valid()
      modifies g
      ensures Valid()
      ensures g.Model() == NodesDeleted(old(g.Model()), f)
    {
      ghost var G := g.Model();
      var nodes := MatchNode(f);
      DeleteNodeRounds(G, f);
      var i := 0;
      while i < |nodes|
        invariant 0 <= i <= |nodes|
        invariant Valid()
        invariant g.Model() == NodesRemoved(G, IdsOf(nodes[..i]))
      {
        DeleteNodeRound(G, f, i);
        g.RemoveNode(nodes[i].0);
        i := i + 1;
      }
    }

    /** `delete_rel(f)` */
    method DeleteRel(f: AttrMap)
      requires Valid()
      modifies g
      ensures Valid()
      ensures g.Model() == RelsDeleted(old(g.Model()), f)
    {
      ghost var G := g.Model();
      var edges := MatchRel(f);
      DeleteRelRounds(G, f);
      var i := 0;
      while i < |edges|
        invariant 0 <= i <= |edges|
        invariant Valid()
        invariant g.Model() == EdgesRemoved(G, PairsOf(edges[..i]))
      {
        DeleteRelRound(G, f, i);
        g.RemoveEdge(edges[i].0, edges[i].1);
        i := i + 1;
      }
    }

    // -------------------------------------------------------------------
    // Modifying
    // -------------------------------------------------------------------

    /**
     * `modify_node(f, change, add)`. Removing pops every key of `change`
     * without a default, which raises `KeyError` for a missing key; the
     * caller has to rule that out.
     */
    method ModifyNode(f: AttrMap, change: AttrMap, add: bool)
      requires Valid()
      requires add || PopsSucceed(g.attrs, f, change)
      modifies g
      ensures Valid()
      ensures g.Model() == NodesModified(old(g.Model()), f, change, add)
    {
      ghost var G := g.Model();
      var nodes := MatchNode(f);
      ModifyNodeRounds(G, f, change, add);
      var i := 0;
      while i < |nodes|
        invariant 0 <= i <= |nodes|
        invariant Valid()
        invariant g.Model() == NodesUpdated(G, IdsOf(nodes[..i]), change, add)
      {
        ModifyNodeRound(G, f, change, add, i);
        var id := nodes[i].0;
        var current := Updated(g.attrs[id], change, add);
        g.SetNodeAttrs(id, current);
        i := i + 1;
      }
    }

    /**
     * The key loop of `modify_node` and `modify_rel` on one attribute
     * dictionary: assign or pop each key of `change`. Popping a missing key
     * raises `KeyError`, so removal asks for every key to be present.
     */
    static method Updated(current: AttrMap, change: AttrMap, add: bool) returns (r: AttrMap)
      requires !add ==> change.Keys <= current.Keys
      ensures r == Update(current, change, add)
    {
      r := current;
      var keys := change.Keys;
      while keys != {}
        invariant keys <= change.Keys
        invariant add ==> r == current + (map k | k in change && k !in keys :: change[k])
        invariant !add ==> r == current - (change.Keys - keys)
        decreases keys
      {
        var k :| k in keys;
        if !add {
          r := r - {k};
        } else {
          r := r[k := change[k]];
        }
        keys := keys - {k};
      }
      assert (map k | k in change && k !in keys :: change[k]) == change;
    }

    /** `modify_rel(f, change, add)`, with the same `KeyError` condition. */
    method ModifyRel(f: AttrMap, change: AttrMap, add: bool)
      requires Valid()
      requires add || EdgePopsSucceed(g.edgeAttrs, f, change)
      modifies g
      ensures Valid()
      ensures g.Model() == RelsModified(old(g.Model()), f, change, add)
    {
      ghost var G := g.Model();
      var edges := MatchRel(f);
      ModifyRelRounds(G, f, change, add);
      var i := 0;
      while i < |edges|
        invariant 0 <= i <= |edges|
        invariant Valid()
        invariant g.Model() == RelsUpdated(G, PairsOf(edges[..i]), change, add)
      {
        ModifyRelRound(G, f, change, add, i);
        var p := (edges[i].0, edges[i].1);
        var current := Updated(g.edgeAttrs[p], change, add);
        g.SetEdgeAttrs(p, current);
        i := i + 1;
      }
    }

    // -------------------------------------------------------------------
    // Attribute accessors
    // -------------------------------------------------------------------

    /** `set_rel_attrs(u, v, a)`: replaces the whole attribute dictionary of the relationship. */
    method SetRelAttrs(u: NodeId, v: NodeId, a: AttrMap)
      requires Valid() && (u, v) in g.edgeAttrs
      modifies g
      ensures Valid()
      ensures g.Model() == EdgeAttrsSet(old(g.Model()), (u, v), a)
    {
      g.SetEdgeAttrs((u, v), a);
    }

    /** `get_rel_attrs(u, v)`; a missing relationship raises `KeyError`. */
    method GetRelAttrs(u: NodeId, v: NodeId) returns (r: AttrMap)
      requires Valid() && (u, v) in g.edgeAttrs
      ensures r == g.edgeAttrs[(u, v)]
    {
      r := g.edgeAttrs[(u, v)];
    }

    /** `get_node_attrs(n)`; a missing node raises `KeyError`. */
    method GetNodeAttrs(n: NodeId) returns (r: AttrMap)
      requires Valid() && n in g.attrs
      ensures r == g.attrs[n]
    {
      r := g.attrs[n];
    }

    /** `set_node_attrs(n, a)`: replaces the whole attribute dictionary of the node. */
    method SetNodeAttrs(n: NodeId, a: AttrMap)
      requires Valid() && n in g.attrs
      modifies g
      ensures Valid()
      ensures g.Model() == NodeAttrsSet(old(g.Model()), n, a)
    {
      g.SetNodeAttrs(n, a);
    }

    // -------------------------------------------------------------------
    // Chains
    // -------------------------------------------------------------------

    /**
     * `consolidate(edge_list)`. The counter `i` counts the windows joined;
     * every key the dictionary receives refers to the one list `acc`, so the
     * dictionary is built once `acc` is final.
     */
    static method Consolidate(edgeList: seq<seq<Frag>>) returns (r: Option<seq<seq<Frag>>>)
      ensures r == Consolidated(edgeList)
    {
      var acc: seq<Frag> := [];
      var i := 0;
      var x := 0;
      while x < |edgeList| - 1
        invariant 0 <= x && (|edgeList| >= 1 ==> x <= |edgeList| - 1)
        invariant i == x
        invariant |edgeList| == 0 ==> x == 0
        invariant x == 0 ==> acc == []
        invariant x > 0 ==> acc == Accumulated(edgeList, x) && acc != [] && Join(edgeList[0], edgeList[1]) != []
      {
        var nodes1 := edgeList[x];
        var nodes2 := edgeList[x + 1];
        var joined := JoinWindow(nodes1, nodes2);
        acc := acc + joined;
        if acc == [] {
          assert x == 0 && Join(edgeList[0], edgeList[1]) == [];
          return None;
        }
        i := i + 1;
        x := x + 1;
      }
      r := Some(Copies(i, acc));
      assert |edgeList| < 2 ==> Copies(i, acc) == [];
    }

    /** The two inner loops of `consolidate`: one window. */
    static method JoinWindow(nodes1: seq<Frag>, nodes2: seq<Frag>) returns (acc: seq<Frag>)
      ensures acc == Join(nodes1, nodes2)
    {
      acc := [];
      var a := 0;
      while a < |nodes1|
        invariant 0 <= a <= |nodes1|
        invariant acc == FlatMap(nodes1[..a], JoinWithOf(nodes2))
      {
        var node1 := nodes1[a];
        var b := 0;
        ghost var mid := acc;
        while b < |nodes2|
          invariant 0 <= b <= |nodes2|
          invariant acc == mid + JoinWith(node1, nodes2[..b])
        {
          var node2 := nodes2[b];
          if node1.1 == node2.0 {
            acc := acc + [(node1.0, node2.1)];
          }
          assert nodes2[..b + 1][..b] == nodes2[..b];
          b := b + 1;
        }
        assert nodes2[..b] == nodes2;
        FlatMapSnoc(nodes1[..a], node1, JoinWithOf(nodes2));
        assert nodes1[..a + 1] == nodes1[..a] + [node1];
        a := a + 1;
      }
      assert nodes1[..a] == nodes1;
    }

    /**
     * `multi_match(ns, rs)`, with the result of `consolidate` compared with
     * `None`; as written the test is against `{}`, see `Chains.MultiMatchAsWritten`.
     */
    method MultiMatch(ns: seq<AttrMap>, rs: seq<AttrMap>) returns (r: Option<Chain>)
      requires Valid()
      requires |rs| >= |ns| - 1
      ensures r == MultiMatchResult(g.Model(), ns, rs)
    {
      var edgeList := MatchHops(ns, rs);
      if edgeList == [] {
        return None;
      }
      if |edgeList| == 1 {
        return Some(Hop(edgeList[0]));
      }
      var ends := ConsolidateAll(HopFrags(edgeList));
      if ends.None? {
        return None;
      }
      r := Some(Ends(ends.value));
    }

    /**
     * The `for` loop of `multi_match`: one `match` per hop, stopping at the
     * first hop that matches nothing, in which case the list is emptied.
     */
    method MatchHops(ns: seq<AttrMap>, rs: seq<AttrMap>) returns (edgeList: seq<seq<EdgeTuple>>)
      requires Valid()
      requires |rs| >= |ns| - 1
      ensures edgeList == [] <==> |ns| < 2 || [] in Hops(g.Model(), ns, rs)
      ensures edgeList != [] ==> edgeList == Hops(g.Model(), ns, rs)
    {
      edgeList := [];
      if |ns| < 2 {
        return;
      }
      ghost var hops := Hops(g.Model(), ns, rs);
      var x := 0;
      while x < |ns| - 1
        invariant 0 <= x <= |ns| - 1
        invariant edgeList == hops[..x]
        invariant [] !in edgeList
      {
        var m := Match(Some(ns[x]), Some(ns[x + 1]), Some(rs[x]));
        var edges := m.edges;
        assert edges == hops[x];
        if edges == [] {
          return [];
        }
        assert hops[..x + 1] == hops[..x] + [edges];
        edgeList := edgeList + [edges];
        x := x + 1;
      }
      assert hops[..x] == hops;
    }

    /** The `while` loop of `multi_match`: `consolidate` until one list is left. */
    static method ConsolidateAll(hops: seq<seq<Frag>>) returns (r: Option<seq<Frag>>)
      requires |hops| >= 1
      ensures r == ConsolidateLoop(hops)
    {
      var ls := hops;
      while |ls| != 1
        invariant |ls| >= 1
        invariant ConsolidateLoop(ls) == ConsolidateLoop(hops)
        decreases |ls|
      {
        var next := Consolidate(ls);
        if next.None? {
          return None;
        }
        ls := next.value;
      }
      r := Some(ls[0]);
    }
  }
}
