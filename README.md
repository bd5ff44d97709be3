# DropDatabase query evaluator in Dafny

DropDatabase is a small graph database in Python 2. Its store is one directed `networkx` graph:
- Nodes carry an integer id and a string-to-string attribute dictionary.
- Each directed relationship carries one such dictionary.

This project models the database's core and proves what its operations do:
- `QueryEvaluator` runs the queries on the graph: it matches, adds, deletes, modifies and chains.
- `GraphStructure` holds the graph and the id counter.
- `Predicates` filters matched nodes by comparing an attribute numerically.
- `Project` reduces matched items to chosen attributes.
- `Command_Struct` is the record the parser fills for each command.

Each module corresponds to part of the source:

| module | file | models |
|---|---|---|
| `Wrappers`, `Seqs` | `wrappers.dfy`, `seqs.dfy` | Helpers: `Option`, order-keeping filter and flat-map over sequences, and their lemmas. |
| `Attributes` | `attributes.dfy` | Attribute dictionaries as `map<string, string>`. **Matching** is superset containment. `Update` is `modify`'s add or remove of keys. |
| `GraphModel` | `graph_model.dfy` | The graph as a value `Graph`: nodes and edges in insertion order, plus attribute maps. Also the `networkx.DiGraph` object as a class `DiGraph` whose methods change it in place, each proved against a function on `Graph`. |
| `GraphStructure` | `graph_structure.dfy` | `graph_structure.py`: a class holding the graph object and the id counter. |
| `Matching` | `matching.dfy` | What each match query returns, defined as a function of the graph, with membership lemmas. |
| `Mutations` | `mutations.dfy` | The graph left after each deleting or modifying query. Also the lemmas relating the evaluator's one-at-a-time loops to those functions. |
| `Chains` | `chains.dfy` | `consolidate` and `multi_match` as functions. The intended left-deep join is defined beside them. |
| `QueryEvaluator` | `query_evaluator.dfy` | `query_evaluator.py`: a class whose query methods use loops shaped like the source's, each proved equal to the function above. |
| `Predicates` | `predicates.dfy` | `predicates.py`: the filter loops. |
| `Project` | `project.dfy` | `project.py`. |
| `CommandStruct` | `command_struct.dfy` | `Command_Struct.py`. Its dictionaries are objects shared by reference. |
| `Scenarios` | `scenarios.dfy` | The evaluator's unit tests stated as lemmas and methods. |

The graph follows `networkx` 1.x, which the source is written for:
- `add_node` merges into an existing node's attributes.
- `add_edge` adds missing endpoints and merges into an existing edge's attributes.
- `remove_node` also removes every incident edge.

The model lists nodes and edges in insertion order: nodes in the order added, edges grouped by source node. This is the model's choice; CPython 2 orders small integer ids differently, as "## Left out" says.

## Model

| member | source | states |
|---|---|---|
| GraphStructure.GraphStructure.constructor | graph_structure.py:10-19 | The counter starts at `start_id` (0 by default). The graph is a new, empty `DiGraph`. |
| GraphStructure.GraphStructure.GetGraph | graph_structure.py:21-29 | Returns the graph object itself, not a copy. |
| GraphStructure.GraphStructure.GetId | graph_structure.py:31-39 | Returns the counter. |
| GraphStructure.GraphStructure.IncId | graph_structure.py:41-45 | The counter grows by one. The graph is untouched. |
| GraphModel.DiGraph.constructor | query_evaluator.py:12-19 | A new graph is empty and well formed. |
| GraphModel.NodeAdded | query_evaluator.py:178 | `add_node(n, a)`: a new id is appended to the node order with `a`. An existing node has `a` merged into its attributes. |
| GraphModel.Endpoint | query_evaluator.py:199 | The endpoint step of `add_edge`: a missing node is added with empty attributes. An existing node is left alone. |
| GraphModel.EdgeAdded | query_evaluator.py:199 | `add_edge(u, v, a)`: both endpoints are made nodes. Then a new edge is appended with `a`, or `a` is merged into the existing edge's attributes. |
| GraphModel.NodesRemoved | query_evaluator.py:211-214 | `remove_node` of each id in a set: those nodes go, and so does every edge touching one of them. |
| GraphModel.EdgesRemoved | query_evaluator.py:227-230 | `remove_edge` of each pair in a set: exactly those edges go. |
| GraphModel.NodeAttrsSet | query_evaluator.py:344 | `g.node[n] = a`: one node's dictionary is replaced. |
| GraphModel.EdgeAttrsSet | query_evaluator.py:306 | `g[u][v] = a`: one edge's dictionary is replaced. |
| GraphModel.NodeTuples | query_evaluator.py:158 | `nodes(data=True)`: every node with its attributes, in node order. |
| GraphModel.OutEdges | query_evaluator.py:108 | `out_edges(n, data=True)`: the edges leaving `n`, in insertion order, with their attributes. |
| GraphModel.Successors | query_evaluator.py:105 | `neighbors(n)`: the targets of the edges leaving `n`, in insertion order. |
| GraphModel.EdgeTuples | query_evaluator.py:143 | `edges(data=True)`: the out-edges of each node in turn, in node order. |
| GraphModel.HasEdge | query_evaluator.py:481 | `has_edge(u, v)`: on a well-formed graph, true exactly when `(u, v)` is among the listed edges. Both ends are then nodes. |
| GraphModel.DiGraph.AddNode | query_evaluator.py:178 | `add_node`: the graph becomes `NodeAdded`, which appends a new id or merges into an existing node. Well-formedness is kept. |
| GraphModel.DiGraph.AddEdge | query_evaluator.py:199 | `add_edge`: missing endpoints are added as nodes first. Then the edge is appended, or merged into if it exists. |
| GraphModel.DiGraph.AddEndpoint | query_evaluator.py:199 | The endpoint step of `add_edge` on the object: the graph becomes `Endpoint`. |
| GraphModel.DiGraph.RemoveNode | query_evaluator.py:214 | `remove_node`: the node and every edge incident to it are gone. |
| GraphModel.DiGraph.RemoveEdge | query_evaluator.py:230 | `remove_edge`: exactly that edge is gone. |
| GraphModel.DiGraph.SetNodeAttrs | query_evaluator.py:344 | The node's dictionary is replaced. Nothing else changes. |
| GraphModel.DiGraph.SetEdgeAttrs | query_evaluator.py:306 | The edge's dictionary is replaced. Nothing else changes. |
| GraphModel.NodeTuplesMember | query_evaluator.py:158 | `nodes(data=True)` lists `(n, a)` exactly when `n` is a node with attributes `a`. |
| GraphModel.EdgeTuplesMember | query_evaluator.py:143 | `edges(data=True)` lists `(u, v, a)` exactly when `(u, v)` is an edge with attributes `a`. |
| GraphModel.EdgeTuplesDistinct | query_evaluator.py:143 | `edges(data=True)` lists no edge twice, not even with different attributes. |
| GraphModel.OutEdgesMember | query_evaluator.py:108 | `out_edges(n, data=True)` lists exactly the edges leaving `n`, with their attributes. |
| GraphModel.OutEdgesDistinct | query_evaluator.py:108 | `out_edges` lists no edge twice. |
| GraphModel.SuccessorsMember | query_evaluator.py:105 | `neighbors(n)` lists exactly the targets of edges leaving `n`. |
| GraphModel.NodeAddedWellFormed | query_evaluator.py:178 | Adding a node keeps the graph well formed. |
| GraphModel.EndpointWellFormed | query_evaluator.py:199 | Adding a missing endpoint keeps the graph well formed. |
| GraphModel.EdgeAddedWellFormed | query_evaluator.py:199 | Adding an edge keeps the graph well formed. |
| GraphModel.NodesRemovedWellFormed | query_evaluator.py:214 | Removing nodes with their incident edges keeps the graph well formed. |
| GraphModel.EdgesRemovedWellFormed | query_evaluator.py:230 | Removing edges keeps the graph well formed. |
| GraphModel.NodesRemovedNone | query_evaluator.py:211-214 | Removing no node leaves the graph as it is. |
| GraphModel.EdgesRemovedNone | query_evaluator.py:227-230 | Removing no edge leaves the graph as it is. |
| GraphModel.NodesRemovedStep | query_evaluator.py:211-214 | Removing node ids one at a time removes their union. |
| GraphModel.EdgesRemovedStep | query_evaluator.py:227-230 | Removing edges one at a time removes their union. |
| Attributes.Matches | query_evaluator.py:160-161 | The test `all(item in attrs.items() for item in filter.items())`, also at :129 and :144: true exactly when every item of `filter` is an item of `attrs`. |
| Attributes.Update | query_evaluator.py:251-259 | Adding gives the keys of both dictionaries, with `change` winning. Removing gives the old keys minus those of `change`, with old values. |
| Attributes.UpdateKeepsMatch | query_evaluator.py:232-260 | A change on keys a filter does not mention does not change whether the filter matches. |
| Attributes.UpdateRoundTrip | query_evaluator.py:251-259 | Adding new keys and then removing them restores the dictionary. The removal finds every key it pops. |
| QueryEvaluator.QueryEvaluator.constructor | query_evaluator.py:12-19 | The evaluator works on the graph object of the store it is given. |
| QueryEvaluator.QueryEvaluator.MatchNode | query_evaluator.py:148-162 | The loop returns `NodesMatching`: the nodes whose attributes contain `f`, in node order. |
| QueryEvaluator.QueryEvaluator.MatchRel | query_evaluator.py:133-146 | The loop returns `RelsMatching`: the edges whose attributes contain `f`, in edge order. |
| QueryEvaluator.QueryEvaluator.FilterNodes | query_evaluator.py:115-131 | Returns the given ids whose nodes match, in the given order. Every id must be a node, since a missing one raises `KeyError`. |
| QueryEvaluator.QueryEvaluator.MatchNodeNodeRel | query_evaluator.py:85-113 | The three nested loops return `NodeNodeRel`. The target is compared by identity, as the first finding explains. |
| QueryEvaluator.QueryEvaluator.EdgesFromNodes | query_evaluator.py:100-111 | The outer loop concatenates, over the matched sources, the edges that `EdgesFromNode` finds. |
| QueryEvaluator.QueryEvaluator.EdgesFromNode | query_evaluator.py:104-111 | For one source: the matched edges to each neighbour that matches the second filter. |
| QueryEvaluator.QueryEvaluator.EdgesLinking | query_evaluator.py:108-111 | The innermost loop: the matched edges from `n` to `m`, in order. |
| QueryEvaluator.QueryEvaluator.MatchNodeRel | query_evaluator.py:71-83 | `match_node_rel(f, r)` is `NodeNodeRel` with an empty target filter, with the corrected target test of the query_evaluator.py:110 finding. |
| QueryEvaluator.QueryEvaluator.MatchFindRel | query_evaluator.py:56-69 | `match_find_rel(f1, f2)` is `NodeNodeRel` with an empty relationship filter, with the corrected target test of the query_evaluator.py:110 finding. |
| QueryEvaluator.QueryEvaluator.Match | query_evaluator.py:21-54 | Dispatches on which filters are present, as `MatchQuery`, with the corrected target test of the query_evaluator.py:110 finding. |
| QueryEvaluator.QueryEvaluator.IsConnected | query_evaluator.py:470-481 | True exactly when the edge `(u, v)` exists. |
| QueryEvaluator.QueryEvaluator.AddNode | query_evaluator.py:165-179 | The counter grows by one and the node gets its new value as id. Returns `(id, attrs)`. The graph becomes `NodeAdded`. |
| QueryEvaluator.QueryEvaluator.AddRelationship | query_evaluator.py:181-200 | Returns `(id1, id2, attrs)`. The graph becomes `EdgeAdded` on the two tuples' ids. |
| QueryEvaluator.QueryEvaluator.DeleteNode | query_evaluator.py:202-216 | The graph becomes `NodesDeleted`: every matching node and its edges are gone, as the second finding explains. |
| QueryEvaluator.QueryEvaluator.DeleteRel | query_evaluator.py:218-230 | The graph becomes `RelsDeleted`: every matching edge is gone. |
| QueryEvaluator.QueryEvaluator.ModifyNode | query_evaluator.py:232-260 | The graph becomes `NodesModified`: each node matching before the call gets `Update`. |
| QueryEvaluator.QueryEvaluator.Updated | query_evaluator.py:251-259 | The key loop over `change` computes `Update`. |
| QueryEvaluator.QueryEvaluator.ModifyRel | query_evaluator.py:262-290 | The graph becomes `RelsModified`: each edge matching before the call gets `Update`. |
| QueryEvaluator.QueryEvaluator.SetRelAttrs | query_evaluator.py:292-306 | The edge's dictionary is replaced. Nothing else changes. |
| QueryEvaluator.QueryEvaluator.GetRelAttrs | query_evaluator.py:308-319 | Returns the edge's dictionary. |
| QueryEvaluator.QueryEvaluator.GetNodeAttrs | query_evaluator.py:321-330 | Returns the node's dictionary. |
| QueryEvaluator.QueryEvaluator.SetNodeAttrs | query_evaluator.py:333-344 | The node's dictionary is replaced. Nothing else changes. |
| QueryEvaluator.QueryEvaluator.Consolidate | query_evaluator.py:346-371 | The loops compute `Consolidated`. |
| QueryEvaluator.QueryEvaluator.JoinWindow | query_evaluator.py:362-366 | One window computes `Join(nodes1, nodes2)`. |
| QueryEvaluator.QueryEvaluator.MultiMatch | query_evaluator.py:373-410 | Returns `MultiMatchResult`, with the `None` test corrected as the third finding explains. |
| QueryEvaluator.QueryEvaluator.MatchHops | query_evaluator.py:392-403 | Returns the hop lists, or the empty list when a hop matches nothing or there is no hop. |
| QueryEvaluator.QueryEvaluator.ConsolidateAll | query_evaluator.py:405-408 | The `while` loop computes `ConsolidateLoop`. |
| Matching.NodesMatchingMember | query_evaluator.py:148-162 | `(n, a)` is matched exactly when `n` is a node, `a` is its attributes, and `a` contains `f`. |
| Matching.NodesMatching | query_evaluator.py:148-162 | `match_node(f)`: the node tuples whose attributes contain `f`, in node order. |
| Matching.RelsMatching | query_evaluator.py:133-146 | `match_rel(f)`: the edge tuples whose attributes contain `f`, in edge order. |
| Matching.IdsMatching | query_evaluator.py:115-131 | `filter_nodes(ids, f)`: the ids of `ids` whose node's attributes contain `f`, in the order given. |
| Matching.Linked | query_evaluator.py:110 | The test `edge in out_edges and node2_id in edge`. As written, `m` may be either end of the out-edge. Corrected, `m` must be its target. |
| Matching.EdgesTo | query_evaluator.py:108-111 | The innermost loop: the matched edges that pass `Linked` for `n` and `m`, in order. |
| Matching.EdgesFrom | query_evaluator.py:104-111 | The middle loop: over the neighbours of the source that match `f2`, the edges `EdgesTo` keeps. |
| Matching.NodeNodeRelLoop | query_evaluator.py:85-113 | The three loops of `match_node_node_rel` over `match_node(f1)` and `match_rel(r)`, parametrised by which target test is used. |
| Matching.NodeNodeRel | query_evaluator.py:85-113 | `match_node_node_rel` with the corrected target test. |
| Matching.NodeNodeRelAsWritten | query_evaluator.py:85-113 | `match_node_node_rel` with the tuple-membership test as written. |
| Matching.MatchQuery | query_evaluator.py:21-54 | `match(n1, n2, r)`: its `if` chain in order, with a `None` filter as `Option.None`, and with the corrected target test of the query_evaluator.py:110 finding. |
| Matching.NodesMatchingAll | query_evaluator.py:148-162 | The empty filter matches every node. |
| Matching.NodesMatchingDistinct | query_evaluator.py:148-162 | No id appears twice in the result. |
| Matching.RelsMatchingMember | query_evaluator.py:133-146 | `(u, v, a)` is matched exactly when `(u, v)` is an edge with attributes `a` that contain `f`. |
| Matching.RelsMatchingAll | query_evaluator.py:133-146 | The empty filter matches every edge. |
| Matching.RelsMatchingDistinct | query_evaluator.py:133-146 | No edge appears twice in the result. |
| Matching.IdsMatchingMember | query_evaluator.py:115-131 | An id is kept exactly when it was given and its node matches. |
| Matching.NodeNodeRelMember | query_evaluator.py:85-113 | An edge is returned exactly when it exists, its source matches `f1`, its target matches `f2`, and it matches `r`. |
| Matching.NodeNodeRelSound | query_evaluator.py:85-113 | The "only if" half of `NodeNodeRelMember`. |
| Matching.NodeNodeRelComplete | query_evaluator.py:85-113 | The "if" half of `NodeNodeRelMember`. |
| Matching.FindRelMember | query_evaluator.py:56-69 | `match_find_rel` returns exactly the edges from an `f1` node to an `f2` node. |
| Matching.NodeRelMember | query_evaluator.py:71-83 | `match_node_rel` returns exactly the edges matching `r` whose source matches `f`. |
| Matching.MatchMember | query_evaluator.py:21-54 | A node list comes back exactly when only one node filter is given. With no filter, an empty edge list comes back. Every other case gives exactly the edges satisfying the given filters. With no first filter, the second filter applies to the edge's source, as in `match_node_rel(node2_attrs, rel_attrs)` at :46-47. |
| Matching.NoSelfLoopsAgree | query_evaluator.py:108-111 | Without self-loops, the tuple-membership test as written gives the same result as the identity test. |
| Matching.SelfLoopWitness | query_evaluator.py:108-111 | As written, with a self-loop on a node matching both filters, every matched edge leaving that node is returned, whatever its target. |
| Matching.SelfLoopLeaksEdge | query_evaluator.py:110 | A two-node graph where, as written, an edge to a node failing `f2` is returned. |
| Mutations.NodeAddedFresh | query_evaluator.py:165-179 | After adding a new id, `match_node(f)` is the old result, followed by the new node if it matches. |
| Mutations.NodesDeleted | query_evaluator.py:202-216 | `delete_node(f)`: every node that `match_node(f)` lists is removed, together with its edges. |
| Mutations.RelsDeleted | query_evaluator.py:218-230 | `delete_rel(r)`: every edge that `match_rel(r)` lists is removed. |
| Mutations.NodesModified | query_evaluator.py:232-260 | `modify_node(f, change, add)`: `Update` is applied to every node that matched `f` before the call. |
| Mutations.RelsModified | query_evaluator.py:262-290 | `modify_rel(r, change, add)`: `Update` is applied to every edge that matched `r` before the call. |
| Mutations.PopsSucceed | query_evaluator.py:254 | Removal pops each key with no default. It raises `KeyError` unless every matched node holds every key of `change`. |
| Mutations.EdgePopsSucceed | query_evaluator.py:284 | The same condition for `modify_rel` on edges. |
| Mutations.DeleteNodeAsWritten | query_evaluator.py:202-216 | `delete_node(f)` as written: the first matching node is removed, then `AttributeError` is raised; with no match, nothing happens. |
| Mutations.EdgeAddedEffect | query_evaluator.py:181-200 | After `add_relationship`, the edge exists with the merged attributes, both endpoints are nodes, and nothing else changes. |
| Mutations.EdgeAddedMatched | query_evaluator.py:181-200 | A new relationship is found by `match_rel` with any filter its attributes contain. |
| Mutations.EndpointsKeep | query_evaluator.py:199 | Adding the endpoints changes no edge and no existing node. |
| Mutations.MatchedIdsListed | query_evaluator.py:211 | The ids `match_node` lists are exactly the matching node ids. |
| Mutations.MatchedPairsListed | query_evaluator.py:227 | The pairs `match_rel` lists are exactly the matching edges. |
| Mutations.NodesDeletedEffect | query_evaluator.py:202-216 | After `delete_node(f)`: exactly the non-matching nodes remain, with their attributes. Exactly the edges between remaining nodes remain. |
| Mutations.NoMatchSurvives | query_evaluator.py:202-216 | After `delete_node(f)`, `match_node(f)` finds nothing. |
| Mutations.NodesDeletedNoMatch | query_evaluator.py:202-216 | A filter that matches no node deletes nothing. |
| Mutations.RelsDeletedEffect | query_evaluator.py:218-230 | After `delete_rel(r)`: the nodes stay, exactly the non-matching edges remain, and `match_rel(r)` finds nothing. |
| Mutations.RelsDeletedNoMatch | query_evaluator.py:218-230 | A filter that matches no edge deletes nothing. |
| Mutations.DeleteNodeAsWrittenLeavesMatch | query_evaluator.py:216 | As written, with two matching nodes the call fails after one removal, and a matching node remains. |
| Mutations.DeleteNodeRound | query_evaluator.py:213-214 | In each round the loop removes a node that is still present. |
| Mutations.DeleteNodeRounds | query_evaluator.py:211-214 | No rounds leave the graph as it is. All rounds give `NodesDeleted`. |
| Mutations.DeleteRelRound | query_evaluator.py:229-230 | In each round the loop removes an edge that is still present. |
| Mutations.DeleteRelRounds | query_evaluator.py:227-230 | All rounds give `RelsDeleted`. |
| Mutations.ModifyNodeRound | query_evaluator.py:249-260 | Each round reads the node's attributes as they were before the call. A removal round finds its keys. |
| Mutations.ModifyNodeRounds | query_evaluator.py:248-260 | All rounds give `NodesModified`. |
| Mutations.ModifyRelRound | query_evaluator.py:279-290 | Each round reads the edge's attributes as they were before the call. |
| Mutations.ModifyRelRounds | query_evaluator.py:278-290 | All rounds give `RelsModified`. |
| Mutations.NodesUpdatedStep | query_evaluator.py:248-260 | Updating node ids one at a time updates their union. |
| Mutations.NodesUpdatedNone | query_evaluator.py:248-260 | Updating no node leaves the graph as it is. |
| Mutations.RelsUpdatedStep | query_evaluator.py:278-290 | Updating edges one at a time updates their union. |
| Mutations.RelsUpdatedNone | query_evaluator.py:278-290 | Updating no edge leaves the graph as it is. |
| Mutations.NodesModifiedWellFormed | query_evaluator.py:232-260 | `modify_node` keeps the graph well formed, with the same nodes and edges. |
| Mutations.NodesModifiedEffect | query_evaluator.py:232-260 | Each node matching before the call gets every item of `change` when adding, or loses all its keys when removing. It keeps its other items, and every other node is untouched. |
| Mutations.RelsModifiedEffect | query_evaluator.py:262-290 | The same for edges and `modify_rel`. |
| Mutations.NodesModifyRoundTrip | query_evaluator.py:232-260 | `modify_node(f, c, True)` then `modify_node(f, c, False)` restores the graph. This needs fresh keys that `f` does not mention, and the removal never raises. |
| Mutations.RelsModifiedWellFormed | query_evaluator.py:262-290 | `modify_rel` keeps the graph well formed and changes no node. |
| Mutations.RelsModifyRoundTrip | query_evaluator.py:262-290 | The same round trip for `modify_rel`. |
| Chains.Consolidated | query_evaluator.py:346-371 | `None` exactly when the first window joins nothing. Otherwise there is one entry per window, each the same accumulated list. |
| Chains.Join | query_evaluator.py:363-366 | One window: `(a, c)` for each `(a, b)` of the first list and each `(b, c)` of the second, in loop order. |
| Chains.Accumulated | query_evaluator.py:359-367 | `consolidated_nodes` after `k` windows. The list is never reset, so each window appends to the earlier ones. |
| Chains.ConsolidateLoop | query_evaluator.py:405-408 | The `while` loop, with a failed `consolidate` read as no chain: it repeats until one entry is left. |
| Chains.ConsolidateLoopAsWritten | query_evaluator.py:405-408 | The `while` loop as written: `None` fails the `== {}` test, and the next `len(None)` raises `TypeError`. |
| Chains.Hops | query_evaluator.py:392-399 | The hop lists `match(ns[x], ns[x + 1], rs[x])`, with the corrected target test. |
| Chains.HopsAsWritten | query_evaluator.py:392-399 | The same hop lists with the target test as written. |
| Chains.HopsAgree | query_evaluator.py:392-399 | Without self-loops, the two kinds of hop lists are equal. |
| Chains.MultiMatchResult | query_evaluator.py:373-410 | `multi_match` with corrections: `None` for no hop or an empty hop, the single hop list for one hop, and otherwise the consolidated pairs or `None`. |
| Chains.MultiMatchAsWritten | query_evaluator.py:373-410 | `multi_match` as written: hops with the tuple-membership test, and the `== {}` test after `consolidate`. |
| Chains.LeftDeep | query_evaluator.py:346-371 | What `consolidate` is meant to compute: the first hop list joined with each following one in turn. |
| Chains.JoinWithMember | query_evaluator.py:363-366 | The loop over `nodes2` yields `(a, b)` exactly when `a` is `x`'s source and `(x[1], b)` is in `nodes2`. |
| Chains.JoinWith | query_evaluator.py:364-366 | The loop over `nodes2` for one `node1`: no more pairs than `nodes2` has. Each pair starts at `node1`'s source and ends at the target of an entry of `nodes2` that starts at `node1`'s target. |
| Chains.JoinMember | query_evaluator.py:362-366 | One window yields `(a, b)` exactly when some `m` has `(a, m)` in the first list and `(m, b)` in the second. |
| Chains.JoinWithEmpty | query_evaluator.py:363-366 | With no matching source in `nodes2`, the inner loop yields nothing. |
| Chains.JoinEmpty | query_evaluator.py:362-368 | When no target of the first list is a source of the second, the window is empty. |
| Chains.AccumulatedMember | query_evaluator.py:358-370 | The accumulated list holds exactly the pairs of the windows so far. |
| Chains.ConsolidatedSound | query_evaluator.py:346-371 | Every consolidated pair joins an edge of one hop with an edge of the next. |
| Chains.ConsolidatedTwo | query_evaluator.py:346-371 | With two joinable hops, the result is one entry: the join. |
| Chains.FragsOfMember | query_evaluator.py:392-399 | The pairs of a hop list are exactly the ends of edges matching that hop. |
| Chains.MultiMatchEmptyHop | query_evaluator.py:395-403 | If any hop matches nothing, `multi_match` returns `None`. |
| Chains.TwoHopJoinMember | query_evaluator.py:373-410 | With two hops, the joined pairs are exactly the ends of matching two-hop chains. |
| Chains.MultiMatchTwoHops | query_evaluator.py:373-410 | With two hops, `multi_match` returns the join, or `None` when it is empty. |
| Chains.ThreeHopChainMissed | query_evaluator.py:358-370 | On the three single-edge hops of `1 -> 2 -> 3 -> 4`, the loop with the `None` test finds no chain, and the loop as written raises `TypeError`. |
| Chains.LeftDeepMember | query_evaluator.py:373-410 | The left-deep join holds exactly the ends of the paths through every hop. |
| Chains.LeftDeepThreeHops | query_evaluator.py:373-410 | The left-deep join finds `(1, 4)` for the three-hop chain. |
| Chains.MultiMatchIntended | query_evaluator.py:373-410 | `multi_match` as its docstring at :376-378 describes it. No chain exactly when there are fewer than two node filters, some hop matches nothing, or, from three filters on, no path runs through every hop. Otherwise the reported pairs are exactly the ends of such paths. |
| Chains.LeftDeepEmpty | query_evaluator.py:376-378 | The left-deep join is empty exactly when no path runs through every hop. |
| Chains.MultiMatchIntendedAgrees | query_evaluator.py:373-410 | Up to two hops, the consolidation loop and the left-deep join agree. |
| Chains.ConsolidateLoopAsWrittenRaises | query_evaluator.py:405-408 | As written, the loop raises `TypeError` exactly when the corrected loop finds no chain. Otherwise the two agree. |
| Chains.MultiMatchAsWrittenRaises | query_evaluator.py:373-410 | `multi_match` as written, with both bugs, raises `TypeError` exactly when consolidating its hop lists finds no chain. On a graph without self-loops, whenever it returns, it returns the corrected result. |
| Chains.UnjoinableHopsRaise | query_evaluator.py:405-408 | Two hops sharing no node: as written, `TypeError`. Corrected: `None`. |
| Predicates.ParseOp | predicates.py:51-59 | The operator dispatch: an operation string is accepted exactly when it is the symbol of one of the three comparisons, and then it gives that comparison. |
| Predicates.Kept | predicates.py:78-86 | The list the helper loops build, also at :105-113 and :132-140: every kept node comes from the input and its attribute converts and compares. |
| Predicates.FilterBy | predicates.py:61-86 | The loop keeps, in order, the nodes whose attribute converts and compares. Unconvertible values are skipped. |
| Predicates.FilterLess | predicates.py:61-86 | `__filter_less` keeps the nodes whose value is below the bound. |
| Predicates.FilterGreater | predicates.py:88-113 | `__filter_greater` keeps the nodes whose value is above the bound. |
| Predicates.FilterEqual | predicates.py:115-140 | `__filter_equal` keeps the nodes whose value equals the bound. |
| Predicates.Filter | predicates.py:26-59 | The empty list for an unconvertible value or an unknown operator. Otherwise the nodes the helper for the operator keeps. |
| Predicates.KeptMember | predicates.py:61-86 | A node is kept exactly when it is in the input, its value converts, and the comparison holds. |
| Predicates.KeptAppend | predicates.py:61-86 | Filtering keeps input order: filtering a concatenation concatenates the filtered parts. |
| Predicates.KeptHasAttr | predicates.py:61-86 | The result is no longer than the input, and its nodes still have the attribute. |
| Predicates.KeptIdempotent | predicates.py:26-59 | Filtering again with the same predicate changes nothing. |
| Project.ProjectMaps | project.py:46-51 | If every dictionary has every key, each result has exactly those keys and the source's values. Otherwise the result is `[]`. |
| Project.Restrict | project.py:48 | `{attr: n[1][attr] for attr in attrs}`, also at :68: the result has exactly the requested keys, and the source dictionary contains it. |
| Project.ProjectNodes | project.py:33-51 | The same on the nodes' attributes `n[1]`. |
| Project.ProjectEdges | project.py:53-71 | The same on the edges' attributes `e[2]`. |
| Project.Project | project.py:7-31 | Uses the node projection for node lists and the edge projection for edge lists. |
| Project.ProjectContained | project.py:46-51 | Every projected dictionary is contained in its source. A filter on projected keys matches one exactly when it matches the other. |
| Project.ProjectTwice | project.py:46-51 | Projecting a projection onto the same keys changes nothing. |
| CommandStruct.AttrDict.Put | Command_Struct.py:33-43 | Sets one key of the dictionary object. |
| CommandStruct.AttrDict.constructor | Command_Struct.py:16 | The `{}` that `self.attr` is bound to: a new, empty dictionary object. |
| CommandStruct.Position | Command_Struct.py:46-57 | An index into a list of `n` entries, negative indices counting from the end, as Python does. |
| CommandStruct.CommandStruct.constructor | Command_Struct.py:7-20 | Keeps the command. There is no name, a new empty dictionary, and no list. |
| CommandStruct.CommandStruct.SetName | Command_Struct.py:23-30 | Sets the name. Nothing else changes. |
| CommandStruct.CommandStruct.InsertAttr | Command_Struct.py:33-43 | Sets the key in the current dictionary object. Other listed dictionaries are untouched. |
| CommandStruct.CommandStruct.InsertAttrList | Command_Struct.py:44-57 | An index at or past the end appends the current dictionary. An index before the start raises `IndexError` and changes nothing. Any other index overwrites that position. |
| CommandStruct.CommandStruct.ClearAttr | Command_Struct.py:60-64 | The current dictionary is a new, empty one. The list keeps the old ones. |
| CommandStruct.CommandStruct.GetCommand | Command_Struct.py:67-74 | Returns the command. |
| CommandStruct.CommandStruct.GetName | Command_Struct.py:77-85 | Returns the name. |
| CommandStruct.CommandStruct.GetAttr | Command_Struct.py:88-96 | Returns the dictionary object itself. |
| CommandStruct.CommandStruct.GetAttrList | Command_Struct.py:99-108 | Returns the list of dictionary objects. |
| CommandStruct.CommandStruct.GetAttrSize | Command_Struct.py:111-118 | The number of keys of the current dictionary. |
| CommandStruct.CommandStruct.GetAttrListSize | Command_Struct.py:121-128 | The number of listed dictionaries. |
| CommandStruct.CollectTwoEdges | Command_Struct.py:33-64 | A key inserted after listing still reaches the listed dictionary, while `clear_attr` separates the next one. |
| CommandStruct.ListedTwiceShared | Command_Struct.py:46-57 | Listing twice without clearing shares one dictionary object between both positions. |
| CommandStruct.ReplaceLast | Command_Struct.py:46-57 | Index `-1` replaces the last listed dictionary. |
| CommandStruct.IndexBeforeStart | Command_Struct.py:44-57 | Index `-1` on an empty list raises `IndexError`, and nothing is listed. |
| Scenarios.AddPeople | test_query_evaluator.py:50-60 | Three `add_node` calls on a new store give the graph of Alice, Bob and John, with ids 1 to 3. |
| Scenarios.AddThreeNodes | test_query_evaluator.py:50-67 | `match_node` on `Label: Person` gives all three nodes. On `Name: Alice` it gives Alice's. |
| Scenarios.PeopleMatch | test_query_evaluator.py:50-67 | The three people's graph matches any filter in id order. |
| Scenarios.FriendsBuilt | test_query_evaluator.py:196-199 | The two `add_relationship` calls give the two friendships. |
| Scenarios.DeleteNobody | test_query_evaluator.py:200-205 | Deleting with a filter no one matches leaves the graph as it is. |
| Scenarios.DeleteBob | test_query_evaluator.py:206-210 | Deleting Bob leaves Alice and John with no relationship. The all-empty match then finds nothing. |
| Scenarios.NoEdgesNoMatch | query_evaluator.py:85-113 | A graph without edges matches no relationship. |

## Left out

- The `networkx` library is not part of this model. Its 1.x `DiGraph`, as the evaluator uses it, is modelled by the class `GraphModel.DiGraph`. It keeps one attribute dictionary per edge.
- Iteration order: nodes and edges are listed in insertion order. CPython 2 dictionaries list integer keys by hash slot instead: key `k` goes to slot `k & mask`, so the order depends on the ids and on the table size. For example, the third case of `test_match_node_rel` expects `(2, 1)` before `(2, 3)`, although the edge to 3 was added first. And with nodes 1 to 9 and the edges `(1, 2)` and then `(1, 9)`, the 8-slot successor dictionary of node 1 lists 9 first.
- Aliasing of attribute dictionaries between the caller and the graph. `networkx` 1.x stores the caller's node dictionary object, and `modify_node` mutates it in place. The model treats graph attributes as values. Aliasing is modelled only in `CommandStruct`, where the parser relies on it.
- QueryEvaluator.QueryEvaluator.SetRelAttrs: `self.g[u][v] = a` rebinds the successor entry only. In `networkx` the predecessor entry keeps the old dictionary object. The model has one dictionary per edge, so this split is not represented.
- QueryEvaluator.QueryEvaluator.SetRelAttrs, SetNodeAttrs, GetRelAttrs and GetNodeAttrs require the edge or node to exist. On a missing one the source raises `KeyError`, or, for the setters, builds a partial entry.
- QueryEvaluator.QueryEvaluator.ModifyNode and ModifyRel: removal requires every matched dictionary to hold every key of `change`. The source raises `KeyError` midway otherwise, after some pops; that partial state is not modelled.
- QueryEvaluator.QueryEvaluator.FilterNodes requires every id to be a node, since a missing id raises `KeyError`.
- QueryEvaluator.QueryEvaluator.MultiMatch requires a relationship filter for every hop, since a short list raises `IndexError`. `None` entries in the filter lists are not modelled: every hop is matched with three dictionaries.
- QueryEvaluator.QueryEvaluator.MultiMatch models the `None` test that the code evidently intends, as the third finding explains. Its hops use the corrected target test of the first finding. `Chains.MultiMatchAsWritten` has both bugs, and the two agree on graphs without self-loops whenever the as-written call returns. The sliding consolidation windows are modelled as written, as the fourth finding explains.
- QueryEvaluator.QueryEvaluator.Match: the `assert` on a non-empty string in the all-`None` case never fails. It is modelled as the empty edge list.
- Predicates.Filter: Python's `float()` is the parameter `parse`, giving a real or `None` where `float` raises `ValueError`. Floating-point rounding, infinities and NaN are not modelled, so comparisons are on exact reals. A node without the attribute raises `KeyError` in the source, and the helpers require that none is missing. The warning printed for a skipped value is output only.
- Project.Project requires a non-empty list, since the source indexes `theList[0]` after printing an error. Tuples whose length is neither 2 nor 3, and lists mixing nodes and edges, cannot be given to the typed `Items`. The branch printing "Invalid input list" is therefore not modelled.
- Console output is not modelled: `print_nodes`, `print_edges`, `print_Class` and the error messages printed by `filter` and its helpers (predicates.py:49, :58, :82, :109, :136) and by `project` (project.py:25, :31, :50, :70).
- The graph algorithms `check_path`, `get_shortest_path`, `get_neighbors`, `get_common_neighbors`, `clear` and `create_visual` wrap `networkx` algorithms and plotting, so they are not part of this model. `clear` additionally calls a `GraphStructure` method that does not exist.
- `delete_node`'s call to `gs.delete_identifier` cannot be modelled, because `GraphStructure` defines no such method; see the second finding. The identifier table kept by the linker is not part of this model.
- The parser, the linker, the command validator, file input and output, and the REPL are not part of this model. `Command_Struct` is modelled as the record they fill.
- Python integers are unbounded, and so are the model's ids: there is no wrap-around to model.

### Where the docstrings and the code differ

The model follows the code in each place:
- The `multi_match` docstring (query_evaluator.py:376-378) promises the first and last node of a chain through every hop, as a left-deep join of the hop lists would give. `consolidate` instead joins overlapping adjacent windows into one list that it never resets. For three or more hops a chain can therefore be missed; see the fourth finding.
- `multi_match` takes one node filter per chain position and nothing else: there is no separate per-hop node prefilter.
- The `modify_node` and `modify_rel` docstrings (query_evaluator.py:233-235 and :263-264) describe deleting the attributes given. They do not mention absent keys, but `pop` without a default raises `KeyError` on one (query_evaluator.py:254, :284). The model requires the keys to be present, as the `ModifyNode` and `ModifyRel` lines above say.
- The filter helpers' docstrings (predicates.py:63-66) describe keeping the nodes whose attribute compares. A node lacking the attribute is not mentioned, but reading `n[1][attr]` raises `KeyError` (predicates.py:80). The model requires the attribute, as the `Predicates.Filter` line above says.

## Findings

| source | as written | input that shows it | evidently intended | confidence | as-written member | corrected member |
|---|---|---|---|---|---|---|
| query_evaluator.py:110 | The inner loop keeps an out-edge of `n` when `node2_id in edge`, a membership test over the whole `(u, v, attrs)` tuple. | A self-loop on node 1, which matches both filters, plus an edge 1→2 where node 2 fails the target filter: the edge 1→2 is returned for the neighbour 1. | Keep only edges whose target is `node2_id`. | not executed | Matching.SelfLoopLeaksEdge | Matching.NodeNodeRelMember |
| query_evaluator.py:216 | `delete_node` calls `self.gs.delete_identifier(node)` inside the loop, but `GraphStructure` has no such method. The first iteration removes one node and then raises `AttributeError`. | Two nodes matching the filter: one is removed, the call fails, and the other still matches. | Delete every matching node and its edges. | not executed | Mutations.DeleteNodeAsWrittenLeavesMatch | Mutations.NoMatchSurvives |
| query_evaluator.py:405-408 | The `while` loop tests `consolidate`'s result with `== {}`, but a failed window returns `None`. `None != {}`, so `len(None)` raises `TypeError`. | Two hops `[(1, 2)]` and `[(3, 4)]` that share no node. | Report "no chain" (`None`) when consolidation fails. | not executed | Chains.UnjoinableHopsRaise | QueryEvaluator.QueryEvaluator.MultiMatch |
| query_evaluator.py:358-370 | `consolidate` joins overlapping windows `(0, 1)`, `(1, 2)`, … into one list it never resets, then joins that list with itself. | Three hops `[(1, 2)]`, `[(2, 3)]`, `[(3, 4)]`. The first `consolidate` returns two copies of `[(1, 3), (2, 4)]`. The second joins that list with itself, finds nothing and returns `None`, so `multi_match` then raises `TypeError`. With the `None` test corrected, as `ThreeHopChainMissed` is also stated, the chain `1 -> 4` is still not found. | The left-deep join: hop 0 joined with hop 1, that result with hop 2, and so on. | not executed | Chains.ThreeHopChainMissed | Chains.LeftDeepMember |
