/**
 * The evaluator's own usage examples, on the three people Alice, Bob and
 * John connected by two friendships: each method below runs the
 * operations on a fresh store and its `ensures` state what comes back.
 */
module Scenarios {
  import opened Wrappers
  import opened Attributes
  import opened GraphModel
  import opened Matching
  import opened Mutations
  import GraphStructure
  import QueryEvaluator

  const Alice: AttrMap := map["Label" := "Person", "Name" := "Alice"]
  const Bob: AttrMap := map["Label" := "Person", "Name" := "Bob"]
  const John: AttrMap := map["Label" := "Person", "Name" := "John"]
  const Person: AttrMap := map["Label" := "Person"]

  /** The three people added in order to an empty graph: ids 1, 2 and 3. */
  const People: Graph := NodeAdded(NodeAdded(NodeAdded(Empty, 1, Alice), 2, Bob), 3, John)

  lemma PeopleMatch(f: AttrMap)
    ensures WellFormed(People)
    ensures NodesMatching(People, f) ==
      (if Matches(Alice, f) then [(1, Alice)] else []) +
      (if Matches(Bob, f) then [(2, Bob)] else []) +
      (if Matches(John, f) then [(3, John)] else [])
  {
    var g1 := NodeAdded(Empty, 1, Alice);
    var g2 := NodeAdded(g1, 2, Bob);
    var a := if Matches(Alice, f) then [(1, Alice)] else [];
    var b := if Matches(Bob, f) then [(2, Bob)] else [];
    var c := if Matches(John, f) then [(3, John)] else [];
    assert NodesMatching(Empty, f) == [];
    NodeAddedFresh(Empty, 1, Alice, f);
    assert NodesMatching(g1, f) == a;
    NodeAddedFresh(g1, 2, Bob, f);
    assert NodesMatching(g2, f) == a + b;
    NodeAddedFresh(g2, 3, John, f);
  }

  lemma PeopleArePersons()
    ensures Matches(Alice, Person) && Matches(Bob, Person) && Matches(John, Person)
    ensures Matches(Alice, map["Name" := "Alice"])
    ensures !Matches(Bob, map["Name" := "Alice"]) && !Matches(John, map["Name" := "Alice"])
  {
    assert Bob["Name"] != "Alice";
    assert John["Name"] != "Alice";
  }

  /** Three `add_node` calls on a fresh store hand out ids 1, 2 and 3, and `match_node` finds each. */
  method AddThreeNodes() returns (n1: NodeTuple, n2: NodeTuple, n3: NodeTuple,
                                  persons: seq<NodeTuple>, alices: seq<NodeTuple>)
    ensures n1 == (1, Alice) && n2 == (2, Bob) && n3 == (3, John)
    ensures persons == [n1, n2, n3]
    ensures alices == [n1]
  {
    var q := AddPeople();
    n1, n2, n3 := (1, Alice), (2, Bob), (3, John);
    PeopleArePersons();
    persons := q.MatchNode(Person);
    PeopleMatch(Person);
    alices := q.MatchNode(map["Name" := "Alice"]);
    PeopleMatch(map["Name" := "Alice"]);
  }

  /** The three `add_node` calls on a fresh store. */
  method AddPeople() returns (q: QueryEvaluator.QueryEvaluator)
    ensures fresh(q.gs) && q.Valid() && q.g.Model() == People
    ensures q.gs.id == 3
  {
    var gs := new GraphStructure.GraphStructure();
    q := new QueryEvaluator.QueryEvaluator(gs);
    var n1 := q.AddNode(Alice);
    var n2 := q.AddNode(Bob);
    var n3 := q.AddNode(John);
    assert n1.0 == 1 && n2.0 == 2 && n3.0 == 3;
  }

  const Friend: AttrMap := map["rel_type" := "friend"]
  const Cousin: AttrMap := map["rel_type" := "friend", "fam" := "cousin"]

  /** Alice is Bob's friend and Bob is John's friend and cousin. */
  const Friends: Graph := Graph([1, 2, 3], map[1 := Alice, 2 := Bob, 3 := John],
                                [(1, 2), (2, 3)], map[(1, 2) := Friend, (2, 3) := Cousin])

  /** The two `add_relationship` calls after the three `add_node` calls build `Friends`. */
  lemma FriendsBuilt()
    ensures EdgeAdded(EdgeAdded(People, 1, 2, Friend), 2, 3, Cousin) == Friends
  {
    var p := Graph([1, 2, 3], map[1 := Alice, 2 := Bob, 3 := John], [], map[]);
    assert People == p;
    var g1 := EdgeAdded(p, 1, 2, Friend);
    assert g1 == Graph(p.nodes, p.attrs, [(1, 2)], map[(1, 2) := Friend]);
  }

  lemma FriendsWellFormed()
    ensures WellFormed(Friends)
  {
  }

  /** `delete_node` with a filter no node matches leaves the graph as it was. */
  lemma DeleteNobody()
    ensures NodesDeleted(Friends, map["Label" := "Person", "Name" := "Fred"]) == Friends
  {
    var f := map["Label" := "Person", "Name" := "Fred"];
    assert !Matches(Alice, f) && !Matches(Bob, f) && !Matches(John, f) by {
      assert Alice["Name"] != "Fred" && Bob["Name"] != "Fred" && John["Name"] != "Fred";
    }
    assert MatchedIds(Friends, f) == {};
    NodesRemovedNone(Friends);
  }

  /** Bob is the only node the filter `Bob` matches. */
  lemma OnlyBob()
    ensures MatchedIds(Friends, Bob) == {2}
  {
    assert !Matches(Alice, Bob) && !Matches(John, Bob) by {
      assert Alice["Name"] != "Bob" && John["Name"] != "Bob";
    }
  }

  lemma BobRemoved()
    ensures NodesRemoved(Friends, {2}).attrs == map[1 := Alice, 3 := John]
    ensures NodesRemoved(Friends, {2}).edgeAttrs == map[]
  {
    assert Friends.edgeAttrs.Keys == {(1, 2), (2, 3)};
    HubRemoved(Friends, 2);
    assert Friends.attrs - {2} == map[1 := Alice, 3 := John];
  }

  /** Removing a node every relationship touches removes every relationship. */
  lemma HubRemoved(g: Graph, x: NodeId)
    requires forall e :: e in g.edgeAttrs ==> e.0 == x || e.1 == x
    ensures NodesRemoved(g, {x}).edgeAttrs == map[]
  {
  }

  /** A graph without relationships matches no relationship. */
  lemma NoEdgesNoMatch(g: Graph, f1: AttrMap, f2: AttrMap, r: AttrMap)
    requires WellFormed(g) && g.edgeAttrs == map[]
    ensures NodeNodeRel(g, f1, f2, r) == []
  {
    var es := NodeNodeRel(g, f1, f2, r);
    if es != [] {
      NodeNodeRelMember(g, f1, f2, r, es[0]);
    }
  }

  /**
   * Deleting Bob deletes both friendships with him: afterwards a match on
   * two nodes and a relationship, all unconstrained, finds nothing, while
   * Alice and John remain.
   */
  lemma DeleteBob()
    ensures NodesDeleted(Friends, Bob).attrs == map[1 := Alice, 3 := John]
    ensures NodesDeleted(Friends, Bob).edgeAttrs == map[]
    ensures MatchQuery(NodesDeleted(Friends, Bob), Some(map[]), Some(map[]), Some(map[])) == EdgeList([])
  {
    FriendsWellFormed();
    OnlyBob();
    var h := NodesRemoved(Friends, {2});
    NodesRemovedWellFormed(Friends, {2});
    BobRemoved();
    NoEdgesNoMatch(h, map[], map[], map[]);
  }
}
