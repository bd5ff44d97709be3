/**
 * Projection: every node or edge of a list reduced to the attributes a
 * query asks for. A missing attribute makes the whole projection the
 * empty list.
 */
module Project {
  import opened Attributes
  import opened GraphModel

  /** The two kinds of list `project` accepts, told apart by the length of their first tuple. */
  datatype Items = Nodes(nodes: seq<NodeTuple>) | Edges(edges: seq<EdgeTuple>)

  function Size(items: Items): nat {
    match items
    case Nodes(ns) => |ns|
    case Edges(es) => |es|
  }

  /** Every one of the dictionaries has every requested key. */
  predicate HasAll(ms: seq<AttrMap>, attrs: seq<string>) {
    forall i, k :: 0 <= i < |ms| && k in attrs ==> k in ms[i]
  }

  /** `{attr: m[attr] for attr in attrs}` */
  function Restrict(m: AttrMap, attrs: seq<string>): (r: AttrMap)
    requires forall k :: k in attrs ==> k in m
    ensures forall k :: k in r <==> k in attrs
    ensures Matches(m, r)
  {
    map k | k in attrs :: m[k]
  }

  /** Every node of the list has every requested attribute. */
  predicate NodesHaveAll(ns: seq<NodeTuple>, attrs: seq<string>) {
    forall i, k :: 0 <= i < |ns| && k in attrs ==> k in ns[i].1
  }

  /** Every edge of the list has every requested attribute. */
  predicate EdgesHaveAll(es: seq<EdgeTuple>, attrs: seq<string>) {
    forall i, k :: 0 <= i < |es| && k in attrs ==> k in es[i].2
  }

  function NodeAttrs(ns: seq<NodeTuple>): seq<AttrMap> {
    seq(|ns|, i requires 0 <= i < |ns| => ns[i].1)
  }

  function EdgeAttrs(es: seq<EdgeTuple>): seq<AttrMap> {
    seq(|es|, i requires 0 <= i < |es| => es[i].2)
  }

  /**
   * The list comprehension shared by `project_nodes` and `project_edges`,
   * on the attribute dictionaries of the items: when some dictionary lacks
   * a key, `KeyError` is caught and the empty list comes back.
   */
  function ProjectMaps(ms: seq<AttrMap>, attrs: seq<string>): (r: seq<AttrMap>)
    ensures HasAll(ms, attrs) ==> |r| == |ms|
    ensures HasAll(ms, attrs) ==> forall i :: 0 <= i < |ms| ==>
      (forall k :: k in r[i] <==> k in attrs) && (forall k :: k in attrs ==> r[i][k] == ms[i][k])
    ensures !HasAll(ms, attrs) ==> r == []
  {
    if HasAll(ms, attrs) then seq(|ms|, i requires 0 <= i < |ms| => Restrict(ms[i], attrs)) else []
  }

  /** `project_nodes(ns, attrs)` */
  function ProjectNodes(ns: seq<NodeTuple>, attrs: seq<string>): (r: seq<AttrMap>)
    ensures NodesHaveAll(ns, attrs) ==> |r| == |ns|
    ensures NodesHaveAll(ns, attrs) ==> forall i :: 0 <= i < |ns| ==>
      (forall k :: k in r[i] <==> k in attrs) && (forall k :: k in attrs ==> r[i][k] == ns[i].1[k])
    ensures !NodesHaveAll(ns, attrs) ==> r == []
  {
    assert forall i :: 0 <= i < |ns| ==> NodeAttrs(ns)[i] == ns[i].1;
    ProjectMaps(NodeAttrs(ns), attrs)
  }

  /** `project_edges(es, attrs)`: the same on the attribute dictionary `e[2]` of every edge. */
  function ProjectEdges(es: seq<EdgeTuple>, attrs: seq<string>): (r: seq<AttrMap>)
    ensures EdgesHaveAll(es, attrs) ==> |r| == |es|
    ensures EdgesHaveAll(es, attrs) ==> forall i :: 0 <= i < |es| ==>
      (forall k :: k in r[i] <==> k in attrs) && (forall k :: k in attrs ==> r[i][k] == es[i].2[k])
    ensures !EdgesHaveAll(es, attrs) ==> r == []
  {
    assert forall i :: 0 <= i < |es| ==> EdgeAttrs(es)[i] == es[i].2;
    ProjectMaps(EdgeAttrs(es), attrs)
  }

  /** `project(items, attrs)`; an empty list is indexed at 0 and raises `IndexError`. */
  function Project(items: Items, attrs: seq<string>): (r: seq<AttrMap>)
    requires Size(items) > 0
    ensures items.Nodes? ==> r == ProjectNodes(items.nodes, attrs)
    ensures items.Edges? ==> r == ProjectEdges(items.edges, attrs)
  {
    match items
    case Nodes(ns) => ProjectNodes(ns, attrs)
    case Edges(es) => ProjectEdges(es, attrs)
  }

  // ---------------------------------------------------------------------
  // Properties
  // ---------------------------------------------------------------------

  /**
   * Each projected dictionary is contained in the dictionary it came from,
   * and an attribute filter that only mentions projected keys matches the
   * projection exactly when it matches the original.
   */
  lemma ProjectContained(ms: seq<AttrMap>, attrs: seq<string>, i: nat, f: AttrMap)
    requires HasAll(ms, attrs) && i < |ms|
    requires forall k :: k in f ==> k in attrs
    ensures Matches(ms[i], ProjectMaps(ms, attrs)[i])
    ensures Matches(ProjectMaps(ms, attrs)[i], f) <==> Matches(ms[i], f)
  {
    var p := ProjectMaps(ms, attrs)[i];
    assert forall k :: k in f ==> k in p && p[k] == ms[i][k];
  }

  /** Projecting a projection onto the same keys gives it back. */
  lemma ProjectTwice(ms: seq<AttrMap>, attrs: seq<string>)
    requires HasAll(ms, attrs)
    ensures ProjectMaps(ProjectMaps(ms, attrs), attrs) == ProjectMaps(ms, attrs)
  {
    var p := ProjectMaps(ms, attrs);
    assert HasAll(p, attrs);
    var q := ProjectMaps(p, attrs);
    forall i | 0 <= i < |p| ensures q[i] == p[i] {
      assert q[i].Keys == p[i].Keys;
    }
  }
}
