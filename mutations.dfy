/**
 * What the deleting and modifying queries of the evaluator leave behind,
 * as functions of the graph before the call.
 */
module Mutations {
  import opened Seqs
  import opened Attributes
  import opened GraphModel
  import opened Matching

  /** The ids of the nodes `match_node(f)` returns. */
  function MatchedIds(g: Graph, f: AttrMap): set<NodeId> {
    set n | n in g.attrs && Matches(g.attrs[n], f)
  }

  /** The `(source, target)` pairs of the relationships `match_rel(r)` returns. */
  function MatchedPairs(g: Graph, r: AttrMap): set<Pair> {
    set e | e in g.edgeAttrs && Matches(g.edgeAttrs[e], r)
  }

  /** `delete_node(f)` without the call to the missing `delete_identifier`. */
  function NodesDeleted(g: Graph, f: AttrMap): Graph {
    NodesRemoved(g, MatchedIds(g, f))
  }

  /** `delete_rel(r)` */
  function RelsDeleted(g: Graph, r: AttrMap): Graph {
    EdgesRemoved(g, MatchedPairs(g, r))
  }

  /** `Update` applied to the attributes of the nodes in `ids`. */
  function NodesUpdated(g: Graph, ids: set<NodeId>, change: AttrMap, add: bool): Graph {
    g.(attrs := map n | n in g.attrs :: if n in ids then Update(g.attrs[n], change, add) else g.attrs[n])
  }

  /** `Update` applied to the attributes of the relationships in `ps`. */
  function RelsUpdated(g: Graph, ps: set<Pair>, change: AttrMap, add: bool): Graph {
    g.(edgeAttrs := map e | e in g.edgeAttrs :: if e in ps then Update(g.edgeAttrs[e], change, add) else g.edgeAttrs[e])
  }

  /** `modify_node(f, change, add)`: `Update` applied to every node matching `f` before the call. */
  function NodesModified(g: Graph, f: AttrMap, change: AttrMap, add: bool): Graph {
    NodesUpdated(g, MatchedIds(g, f), change, add)
  }

  /** `modify_rel(r, change, add)` */
  function RelsModified(g: Graph, r: AttrMap, change: AttrMap, add: bool): Graph {
    RelsUpdated(g, MatchedPairs(g, r), change, add)
  }

  /** Popping a key that is not there raises `KeyError`; a removal is safe when every matched dictionary holds every key. */
  ghost predicate PopsSucceed(m: map<NodeId, AttrMap>, f: AttrMap, change: AttrMap) {
    forall n :: n in m && Matches(m[n], f) ==> change.Keys <= m[n].Keys
  }

  ghost predicate EdgePopsSucceed(m: map<Pair, AttrMap>, r: AttrMap, change: AttrMap) {
    forall e :: e in m && Matches(m[e], r) ==> change.Keys <= m[e].Keys
  }

  // ---------------------------------------------------------------------
  // Adding
  // ---------------------------------------------------------------------

  /**
   * A node added under an id not yet in the graph goes last in node order,
   * so `match_node(f)` afterwards is the old result, followed by the new
   * node when its attributes contain `f`.
   */
  lemma NodeAddedFresh(g: Graph, n: NodeId, a: AttrMap, f: AttrMap)
    requires WellFormed(g) && n !in g.attrs
    ensures WellFormed(NodeAdded(g, n, a))
    ensures NodesMatching(NodeAdded(g, n, a), f) == NodesMatching(g, f) + (if Matches(a, f) then [(n, a)] else [])
  {
    var h := NodeAdded(g, n, a);
    NodeAddedWellFormed(g, n, a);
    assert NodeTuples(h) == NodeTuples(g) + [(n, a)] by {
      forall i | 0 <= i < |g.nodes| ensures AttrsOf(h, g.nodes[i]) == AttrsOf(g, g.nodes[i]) {
        assert g.nodes[i] in g.nodes;
      }
    }
    FilterSnoc(NodeTuples(g), (n, a), NodeFilter(f));
  }

  /**
   * After `add_edge(u, v, a)` the edge is there, carrying `a` (merged into
   * its old attributes if it existed), both endpoints are nodes, and no
   * other node or edge changes its attributes.
   */
  lemma EdgeAddedEffect(g: Graph, u: NodeId, v: NodeId, a: AttrMap)
    requires WellFormed(g)
    ensures WellFormed(EdgeAdded(g, u, v, a))
    ensures HasEdge(EdgeAdded(g, u, v, a), u, v)
    ensures EdgeAdded(g, u, v, a).edgeAttrs[(u, v)] == if (u, v) in g.edgeAttrs then g.edgeAttrs[(u, v)] + a else a
    ensures u in EdgeAdded(g, u, v, a).attrs && v in EdgeAdded(g, u, v, a).attrs
    ensures EdgeAdded(g, u, v, a).attrs.Keys == g.attrs.Keys + {u, v}
    ensures forall n :: n in g.attrs ==> EdgeAdded(g, u, v, a).attrs[n] == g.attrs[n]
    ensures EdgeAdded(g, u, v, a).edgeAttrs.Keys == g.edgeAttrs.Keys + {(u, v)}
    ensures forall e :: e != (u, v) && e in g.edgeAttrs ==> EdgeAdded(g, u, v, a).edgeAttrs[e] == g.edgeAttrs[e]
  {
    EdgeAddedWellFormed(g, u, v, a);
    EndpointsKeep(g, u, v);
  }

  lemma EndpointsKeep(g: Graph, u: NodeId, v: NodeId)
    ensures Endpoint(Endpoint(g, u), v).edgeAttrs == g.edgeAttrs
    ensures Endpoint(Endpoint(g, u), v).attrs.Keys == g.attrs.Keys + {u, v}
    ensures forall n :: n in g.attrs ==> Endpoint(Endpoint(g, u), v).attrs[n] == g.attrs[n]
  {
  }

  /** A new relationship is found by `match_rel` on any filter its attributes contain. */
  lemma EdgeAddedMatched(g: Graph, u: NodeId, v: NodeId, a: AttrMap, r: AttrMap)
    requires WellFormed(g) && (u, v) !in g.edgeAttrs && Matches(a, r)
    ensures (u, v, a) in RelsMatching(EdgeAdded(g, u, v, a), r)
  {
    EdgeAddedWellFormed(g, u, v, a);
    RelsMatchingMember(EdgeAdded(g, u, v, a), r, (u, v, a));
  }

  /** The ids of a list of node tuples. */
  function IdsOf(ns: seq<NodeTuple>): set<NodeId> {
    if ns == [] then {} else IdsOf(ns[..|ns| - 1]) + {ns[|ns| - 1].0}
  }

  /** The `(source, target)` pairs of a list of edge tuples. */
  function PairsOf(es: seq<EdgeTuple>): set<Pair> {
    if es == [] then {} else PairsOf(es[..|es| - 1]) + {(es[|es| - 1].0, es[|es| - 1].1)}
  }

  lemma {:induction false} IdsOfMember(ns: seq<NodeTuple>, n: NodeId)
    ensures n in IdsOf(ns) <==> exists k :: 0 <= k < |ns| && ns[k].0 == n
  {
    if ns != [] {
      var init := ns[..|ns| - 1];
      IdsOfMember(init, n);
      if exists k :: 0 <= k < |init| && init[k].0 == n {
        var k :| 0 <= k < |init| && init[k].0 == n;
        assert ns[k].0 == n;
      }
    }
  }

  lemma {:induction false} PairsOfMember(es: seq<EdgeTuple>, p: Pair)
    ensures p in PairsOf(es) <==> exists k :: 0 <= k < |es| && (es[k].0, es[k].1) == p
  {
    if es != [] {
      var init := es[..|es| - 1];
      PairsOfMember(init, p);
      if exists k :: 0 <= k < |init| && (init[k].0, init[k].1) == p {
        var k :| 0 <= k < |init| && (init[k].0, init[k].1) == p;
        assert (es[k].0, es[k].1) == p;
      }
    }
  }

  /** The ids of the node tuples `match_node(f)` lists are the ids `MatchedIds` collects. */
  lemma MatchedIdsListed(g: Graph, f: AttrMap)
    requires WellFormed(g)
    ensures IdsOf(NodesMatching(g, f)) == MatchedIds(g, f)
  {
    var ns := NodesMatching(g, f);
    forall n ensures n in IdsOf(ns) <==> n in MatchedIds(g, f) {
      IdsOfMember(ns, n);
      if n in MatchedIds(g, f) {
        NodesMatchingMember(g, f, (n, g.attrs[n]));
        var k :| 0 <= k < |ns| && ns[k] == (n, g.attrs[n]);
      }
      if n in IdsOf(ns) {
        var k :| 0 <= k < |ns| && ns[k].0 == n;
        NodesMatchingMember(g, f, ns[k]);
      }
    }
  }

  /** The pairs of the edge tuples `match_rel(r)` lists are the pairs `MatchedPairs` collects. */
  lemma MatchedPairsListed(g: Graph, r: AttrMap)
    requires WellFormed(g)
    ensures PairsOf(RelsMatching(g, r)) == MatchedPairs(g, r)
  {
    var es := RelsMatching(g, r);
    forall p ensures p in PairsOf(es) <==> p in MatchedPairs(g, r) {
      PairsOfMember(es, p);
      if p in MatchedPairs(g, r) {
        RelsMatchingMember(g, r, (p.0, p.1, g.edgeAttrs[p]));
        var k :| 0 <= k < |es| && es[k] == (p.0, p.1, g.edgeAttrs[p]);
      }
      if p in PairsOf(es) {
        var k :| 0 <= k < |es| && (es[k].0, es[k].1) == p;
        RelsMatchingMember(g, r, es[k]);
      }
    }
  }

  // ---------------------------------------------------------------------
  // Deleting
  // ---------------------------------------------------------------------

  /**
   * After `delete_node(f)` no node matching `f` remains, every other node
   * keeps its attributes, and exactly the edges between surviving nodes remain.
   */
  lemma NodesDeletedEffect(g: Graph, f: AttrMap)
    requires WellFormed(g)
    ensures WellFormed(NodesDeleted(g, f))
    ensures forall n :: n in NodesDeleted(g, f).attrs <==> n in g.attrs && !Matches(g.attrs[n], f)
    ensures forall n :: n in NodesDeleted(g, f).attrs ==> NodesDeleted(g, f).attrs[n] == g.attrs[n]
    ensures forall e :: e in NodesDeleted(g, f).edgeAttrs <==>
      e in g.edgeAttrs && e.0 in NodesDeleted(g, f).attrs && e.1 in NodesDeleted(g, f).attrs
    ensures forall e :: e in NodesDeleted(g, f).edgeAttrs ==> NodesDeleted(g, f).edgeAttrs[e] == g.edgeAttrs[e]
  {
    NodesRemovedWellFormed(g, MatchedIds(g, f));
  }

  /** No node matching `f` survives `delete_node(f)`. */
  lemma NoMatchSurvives(g: Graph, f: AttrMap)
    requires WellFormed(g)
    ensures NodesMatching(NodesDeleted(g, f), f) == []
  {
    var h := NodesDeleted(g, f);
    NodesDeletedEffect(g, f);
    if NodesMatching(h, f) != [] {
      NodesMatchingMember(h, f, NodesMatching(h, f)[0]);
    }
  }

  /** A filter that matches no node deletes nothing. */
  lemma NodesDeletedNoMatch(g: Graph, f: AttrMap)
    requires forall n :: n in g.attrs ==> !Matches(g.attrs[n], f)
    ensures NodesDeleted(g, f) == g
  {
    assert forall n :: n !in MatchedIds(g, f);
    assert MatchedIds(g, f) == {};
    NodesRemovedNone(g);
  }

  /** After `delete_rel(r)` exactly the relationships not matching `r` remain, with their attributes; the nodes stay. */
  lemma RelsDeletedEffect(g: Graph, r: AttrMap)
    requires WellFormed(g)
    ensures WellFormed(RelsDeleted(g, r))
    ensures RelsDeleted(g, r).nodes == g.nodes && RelsDeleted(g, r).attrs == g.attrs
    ensures forall e :: e in RelsDeleted(g, r).edgeAttrs <==> e in g.edgeAttrs && !Matches(g.edgeAttrs[e], r)
    ensures forall e :: e in RelsDeleted(g, r).edgeAttrs ==> RelsDeleted(g, r).edgeAttrs[e] == g.edgeAttrs[e]
    ensures RelsMatching(RelsDeleted(g, r), r) == []
  {
    var h := RelsDeleted(g, r);
    EdgesRemovedWellFormed(g, MatchedPairs(g, r));
    if RelsMatching(h, r) != [] {
      RelsMatchingMember(h, r, RelsMatching(h, r)[0]);
    }
  }

  lemma RelsDeletedNoMatch(g: Graph, r: AttrMap)
    requires forall e :: e in g.edgeAttrs ==> !Matches(g.edgeAttrs[e], r)
    ensures RelsDeleted(g, r) == g
  {
    assert forall e :: e !in MatchedPairs(g, r);
    assert MatchedPairs(g, r) == {};
    EdgesRemovedNone(g);
  }

  /**
   * `delete_node(f)` as written: it removes the first matching node and then
   * calls `delete_identifier`, which `GraphStructure` does not define, so the
   * call ends with `AttributeError`. The result is the graph left behind and
   * whether that error was raised.
   */
  function DeleteNodeAsWritten(g: Graph, f: AttrMap): (Graph, bool) {
    var ns := NodesMatching(g, f);
    if ns == [] then (g, false) else (NodesRemoved(g, {ns[0].0}), true)
  }

  /**
   * As written, with two or more matching nodes the call raises and a node
   * matching `f` is still in the graph afterwards.
   */
  lemma DeleteNodeAsWrittenLeavesMatch(g: Graph, f: AttrMap)
    requires WellFormed(g)
    requires |NodesMatching(g, f)| >= 2
    ensures DeleteNodeAsWritten(g, f).1
    ensures NodesMatching(DeleteNodeAsWritten(g, f).0, f) != []
  {
    var ns := NodesMatching(g, f);
    var h := DeleteNodeAsWritten(g, f).0;
    NodesMatchingDistinct(g, f);
    assert ns[0].0 != ns[1].0;
    assert ns[1] in ns;
    NodesMatchingMember(g, f, ns[1]);
    NodesRemovedWellFormed(g, {ns[0].0});
    NodesMatchingMember(h, f, ns[1]);
  }

  // ---------------------------------------------------------------------
  // One round at a time
  // ---------------------------------------------------------------------

  /*
   * The mutating queries walk the list a match query returned and change
   * the graph once per element. Round `i` meets an element the earlier
   * rounds did not, whose entry in the graph is as it was before the call;
   * after the last round the graph is the one the functions above define.
   */

  lemma DeleteNodeRound(g: Graph, f: AttrMap, i: nat)
    requires WellFormed(g) && i < |NodesMatching(g, f)|
    ensures var ns := NodesMatching(g, f);
      && ns[i].0 in NodesRemoved(g, IdsOf(ns[..i])).attrs
      && NodesRemoved(NodesRemoved(g, IdsOf(ns[..i])), {ns[i].0}) == NodesRemoved(g, IdsOf(ns[..i + 1]))
  {
    var ns := NodesMatching(g, f);
    NodesMatchingDistinct(g, f);
    IdsOfMember(ns[..i], ns[i].0);
    NodesMatchingMember(g, f, ns[i]);
    NodesRemovedStep(g, IdsOf(ns[..i]), ns[i].0);
    assert ns[..i + 1][..i] == ns[..i];
  }

  lemma DeleteNodeRounds(g: Graph, f: AttrMap)
    requires WellFormed(g)
    ensures NodesRemoved(g, IdsOf(NodesMatching(g, f)[..0])) == g
    ensures NodesRemoved(g, IdsOf(NodesMatching(g, f)[..|NodesMatching(g, f)|])) == NodesDeleted(g, f)
  {
    var ns := NodesMatching(g, f);
    assert ns[..0] == [];
    NodesRemovedNone(g);
    assert ns[..|ns|] == ns;
    MatchedIdsListed(g, f);
  }

  lemma DeleteRelRound(g: Graph, r: AttrMap, i: nat)
    requires WellFormed(g) && i < |RelsMatching(g, r)|
    ensures var es := RelsMatching(g, r);
      && (es[i].0, es[i].1) in EdgesRemoved(g, PairsOf(es[..i])).edgeAttrs
      && EdgesRemoved(EdgesRemoved(g, PairsOf(es[..i])), {(es[i].0, es[i].1)}) == EdgesRemoved(g, PairsOf(es[..i + 1]))
  {
    var es := RelsMatching(g, r);
    RelsMatchingDistinct(g, r);
    PairsOfMember(es[..i], (es[i].0, es[i].1));
    RelsMatchingMember(g, r, es[i]);
    EdgesRemovedStep(g, PairsOf(es[..i]), (es[i].0, es[i].1));
    assert es[..i + 1][..i] == es[..i];
  }

  lemma DeleteRelRounds(g: Graph, r: AttrMap)
    requires WellFormed(g)
    ensures EdgesRemoved(g, PairsOf(RelsMatching(g, r)[..0])) == g
    ensures EdgesRemoved(g, PairsOf(RelsMatching(g, r)[..|RelsMatching(g, r)|])) == RelsDeleted(g, r)
  {
    var es := RelsMatching(g, r);
    assert es[..0] == [];
    EdgesRemovedNone(g);
    assert es[..|es|] == es;
    MatchedPairsListed(g, r);
  }

  lemma ModifyNodeRound(g: Graph, f: AttrMap, change: AttrMap, add: bool, i: nat)
    requires WellFormed(g) && i < |NodesMatching(g, f)|
    requires add || PopsSucceed(g.attrs, f, change)
    ensures var ns := NodesMatching(g, f); var h := NodesUpdated(g, IdsOf(ns[..i]), change, add);
      && ns[i].0 in g.attrs && ns[i].0 in h.attrs && h.attrs[ns[i].0] == g.attrs[ns[i].0]
      && (!add ==> change.Keys <= g.attrs[ns[i].0].Keys)
      && NodeAttrsSet(h, ns[i].0, Update(g.attrs[ns[i].0], change, add)) == NodesUpdated(g, IdsOf(ns[..i + 1]), change, add)
  {
    var ns := NodesMatching(g, f);
    NodesMatchingDistinct(g, f);
    IdsOfMember(ns[..i], ns[i].0);
    NodesMatchingMember(g, f, ns[i]);
    NodesUpdatedStep(g, IdsOf(ns[..i]), ns[i].0, change, add);
    assert ns[..i + 1][..i] == ns[..i];
  }

  lemma ModifyNodeRounds(g: Graph, f: AttrMap, change: AttrMap, add: bool)
    requires WellFormed(g)
    ensures NodesUpdated(g, IdsOf(NodesMatching(g, f)[..0]), change, add) == g
    ensures NodesUpdated(g, IdsOf(NodesMatching(g, f)[..|NodesMatching(g, f)|]), change, add) == NodesModified(g, f, change, add)
  {
    var ns := NodesMatching(g, f);
    assert ns[..0] == [];
    NodesUpdatedNone(g, change, add);
    assert ns[..|ns|] == ns;
    MatchedIdsListed(g, f);
  }

  lemma ModifyRelRound(g: Graph, r: AttrMap, change: AttrMap, add: bool, i: nat)
    requires WellFormed(g) && i < |RelsMatching(g, r)|
    requires add || EdgePopsSucceed(g.edgeAttrs, r, change)
    ensures var es := RelsMatching(g, r); var p := (es[i].0, es[i].1);
      var h := RelsUpdated(g, PairsOf(es[..i]), change, add);
      && p in g.edgeAttrs && p in h.edgeAttrs && h.edgeAttrs[p] == g.edgeAttrs[p]
      && (!add ==> change.Keys <= g.edgeAttrs[p].Keys)
      && EdgeAttrsSet(h, p, Update(g.edgeAttrs[p], change, add)) == RelsUpdated(g, PairsOf(es[..i + 1]), change, add)
  {
    var es := RelsMatching(g, r);
    var p := (es[i].0, es[i].1);
    RelsMatchingDistinct(g, r);
    PairsOfMember(es[..i], p);
    RelsMatchingMember(g, r, es[i]);
    RelsUpdatedStep(g, PairsOf(es[..i]), p, change, add);
    assert es[..i + 1][..i] == es[..i];
  }

  lemma ModifyRelRounds(g: Graph, r: AttrMap, change: AttrMap, add: bool)
    requires WellFormed(g)
    ensures RelsUpdated(g, PairsOf(RelsMatching(g, r)[..0]), change, add) == g
    ensures RelsUpdated(g, PairsOf(RelsMatching(g, r)[..|RelsMatching(g, r)|]), change, add) == RelsModified(g, r, change, add)
  {
    var es := RelsMatching(g, r);
    assert es[..0] == [];
    RelsUpdatedNone(g, change, add);
    assert es[..|es|] == es;
    MatchedPairsListed(g, r);
  }

  // ---------------------------------------------------------------------
  // Modifying
  // ---------------------------------------------------------------------

  /** Updating the nodes one at a time: no node yet, then one more. */
  lemma NodesUpdatedStep(g: Graph, ids: set<NodeId>, x: NodeId, change: AttrMap, add: bool)
    requires x in g.attrs
    ensures x in NodesUpdated(g, ids, change, add).attrs
    ensures NodeAttrsSet(NodesUpdated(g, ids, change, add), x, Update(g.attrs[x], change, add)) ==
      NodesUpdated(g, ids + {x}, change, add)
  {
  }

  lemma NodesUpdatedNone(g: Graph, change: AttrMap, add: bool)
    ensures NodesUpdated(g, {}, change, add) == g
  {
    assert NodesUpdated(g, {}, change, add).attrs == g.attrs;
  }

  lemma RelsUpdatedStep(g: Graph, ps: set<Pair>, x: Pair, change: AttrMap, add: bool)
    requires x in g.edgeAttrs
    ensures x in RelsUpdated(g, ps, change, add).edgeAttrs
    ensures EdgeAttrsSet(RelsUpdated(g, ps, change, add), x, Update(g.edgeAttrs[x], change, add)) ==
      RelsUpdated(g, ps + {x}, change, add)
  {
  }

  lemma RelsUpdatedNone(g: Graph, change: AttrMap, add: bool)
    ensures RelsUpdated(g, {}, change, add) == g
  {
    assert RelsUpdated(g, {}, change, add).edgeAttrs == g.edgeAttrs;
  }

  lemma NodesModifiedWellFormed(g: Graph, f: AttrMap, change: AttrMap, add: bool)
    requires WellFormed(g)
    ensures WellFormed(NodesModified(g, f, change, add))
    ensures NodesModified(g, f, change, add).nodes == g.nodes
    ensures NodesModified(g, f, change, add).edges == g.edges
  {
  }

  /**
   * After `modify_node(f, change, add)` every node that matched `f` carries
   * every item of `change` (adding) or none of its keys (removing), keeps
   * its other items, and every other node is untouched.
   */
  lemma NodesModifiedEffect(g: Graph, f: AttrMap, change: AttrMap, add: bool)
    ensures NodesModified(g, f, change, add).attrs.Keys == g.attrs.Keys
    ensures forall n :: n in g.attrs && Matches(g.attrs[n], f) ==>
      (add ==> Matches(NodesModified(g, f, change, add).attrs[n], change)) &&
      (!add ==> NodesModified(g, f, change, add).attrs[n].Keys !! change.Keys)
    ensures forall n, k :: n in g.attrs && Matches(g.attrs[n], f) && k in g.attrs[n] && k !in change ==>
      k in NodesModified(g, f, change, add).attrs[n] && NodesModified(g, f, change, add).attrs[n][k] == g.attrs[n][k]
    ensures forall n :: n in g.attrs && !Matches(g.attrs[n], f) ==> NodesModified(g, f, change, add).attrs[n] == g.attrs[n]
  {
    var h := NodesModified(g, f, change, add);
    forall n | n in g.attrs && Matches(g.attrs[n], f)
      ensures h.attrs[n] == Update(g.attrs[n], change, add)
    {
      assert n in MatchedIds(g, f);
    }
  }

  /** `modify_rel(r, change, add)` does to the matched relationships what `modify_node` does to nodes. */
  lemma RelsModifiedEffect(g: Graph, r: AttrMap, change: AttrMap, add: bool)
    ensures RelsModified(g, r, change, add).edgeAttrs.Keys == g.edgeAttrs.Keys
    ensures forall e :: e in g.edgeAttrs && Matches(g.edgeAttrs[e], r) ==>
      (add ==> Matches(RelsModified(g, r, change, add).edgeAttrs[e], change)) &&
      (!add ==> RelsModified(g, r, change, add).edgeAttrs[e].Keys !! change.Keys)
    ensures forall e, k :: e in g.edgeAttrs && Matches(g.edgeAttrs[e], r) && k in g.edgeAttrs[e] && k !in change ==>
      k in RelsModified(g, r, change, add).edgeAttrs[e] &&
      RelsModified(g, r, change, add).edgeAttrs[e][k] == g.edgeAttrs[e][k]
    ensures forall e :: e in g.edgeAttrs && !Matches(g.edgeAttrs[e], r) ==>
      RelsModified(g, r, change, add).edgeAttrs[e] == g.edgeAttrs[e]
  {
    var h := RelsModified(g, r, change, add);
    forall e | e in g.edgeAttrs && Matches(g.edgeAttrs[e], r)
      ensures h.edgeAttrs[e] == Update(g.edgeAttrs[e], change, add)
    {
      assert e in MatchedPairs(g, r);
    }
  }

  /**
   * Adding attributes that no matched node has, under keys the filter does
   * not mention, and then removing them with the same filter restores the
   * graph; the removal finds every key it pops.
   */
  lemma NodesModifyRoundTrip(g: Graph, f: AttrMap, change: AttrMap)
    requires change.Keys !! f.Keys
    requires forall n :: n in g.attrs && Matches(g.attrs[n], f) ==> change.Keys !! g.attrs[n].Keys
    ensures PopsSucceed(NodesModified(g, f, change, true).attrs, f, change)
    ensures NodesModified(NodesModified(g, f, change, true), f, change, false) == g
  {
    var h := NodesModified(g, f, change, true);
    var k := NodesModified(h, f, change, false);
    forall n | n in g.attrs
      ensures Matches(h.attrs[n], f) == Matches(g.attrs[n], f)
    {
      if Matches(g.attrs[n], f) {
        UpdateKeepsMatch(g.attrs[n], change, true, f);
      }
    }
    forall n | n in g.attrs ensures k.attrs[n] == g.attrs[n] {
      if Matches(g.attrs[n], f) {
        UpdateRoundTrip(g.attrs[n], change);
      }
    }
    assert k.attrs == g.attrs;
  }

  lemma RelsModifiedWellFormed(g: Graph, r: AttrMap, change: AttrMap, add: bool)
    requires WellFormed(g)
    ensures WellFormed(RelsModified(g, r, change, add))
    ensures RelsModified(g, r, change, add).nodes == g.nodes
    ensures RelsModified(g, r, change, add).attrs == g.attrs
    ensures RelsModified(g, r, change, add).edges == g.edges
  {
  }

  /** The round trip of `NodesModifyRoundTrip`, for relationships. */
  lemma RelsModifyRoundTrip(g: Graph, r: AttrMap, change: AttrMap)
    requires change.Keys !! r.Keys
    requires forall e :: e in g.edgeAttrs && Matches(g.edgeAttrs[e], r) ==> change.Keys !! g.edgeAttrs[e].Keys
    ensures EdgePopsSucceed(RelsModified(g, r, change, true).edgeAttrs, r, change)
    ensures RelsModified(RelsModified(g, r, change, true), r, change, false) == g
  {
    var h := RelsModified(g, r, change, true);
    var k := RelsModified(h, r, change, false);
    forall e | e in g.edgeAttrs
      ensures Matches(h.edgeAttrs[e], r) == Matches(g.edgeAttrs[e], r)
    {
      if Matches(g.edgeAttrs[e], r) {
        UpdateKeepsMatch(g.edgeAttrs[e], change, true, r);
      }
    }
    forall e | e in g.edgeAttrs ensures k.edgeAttrs[e] == g.edgeAttrs[e] {
      if Matches(g.edgeAttrs[e], r) {
        UpdateRoundTrip(g.edgeAttrs[e], change);
      }
    }
    assert k.edgeAttrs == g.edgeAttrs;
  }
}
