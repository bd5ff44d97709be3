/**
 * Chain queries: `multi_match` matches one relationship list per hop of a
 * chain of node filters, and `consolidate` repeatedly joins adjacent hops
 * on a shared middle node until one list of `(first, last)` pairs is left.
 *
 * A hop list is modelled by its `(source, target)` pairs: `consolidate`
 * reads only positions 0 and 1 of the tuples it is given.
 */
module Chains {
  import opened Wrappers
  import opened Seqs
  import opened Attributes
  import opened GraphModel
  import opened Matching

  type Frag = (NodeId, NodeId)

  /** The loop over `node2`: `(x[0], y[1])` for every `y` of `ys` with `x[1] == y[0]`. */
  function JoinWith(x: Frag, ys: seq<Frag>): (r: seq<Frag>)
    ensures |r| <= |ys|
    ensures forall p :: p in r ==> p.0 == x.0 && (x.1, p.1) in ys
  {
    if ys == [] then []
    else JoinWith(x, ys[..|ys| - 1]) + (if x.1 == ys[|ys| - 1].0 then [(x.0, ys[|ys| - 1].1)] else [])
  }

  function JoinWithOf(ys: seq<Frag>): Frag -> seq<Frag> {
    (x: Frag) => JoinWith(x, ys)
  }

  /** One window of `consolidate`: the nested loops over `nodes1` and `nodes2`. */
  function Join(xs: seq<Frag>, ys: seq<Frag>): seq<Frag> {
    FlatMap(xs, JoinWithOf(ys))
  }

  /**
   * `consolidated_nodes` after the first `k` windows: the list is never
   * reset, so each window appends to what the earlier ones produced.
   */
  function Accumulated(hops: seq<seq<Frag>>, k: nat): seq<Frag>
    requires k < |hops|
  {
    if k == 0 then [] else Accumulated(hops, k - 1) + Join(hops[k - 1], hops[k])
  }

  /** `n` entries, each the same list. */
  function Copies(n: nat, ps: seq<Frag>): seq<seq<Frag>> {
    seq(n, _ => ps)
  }

  /**
   * `consolidate(hops)`. Every key of the returned dictionary refers to the
   * one list `consolidated_nodes`, so every entry is the list as it stands
   * after the last window. The list only grows, so the emptiness test can
   * fail only after the first window.
   */
  function Consolidated(hops: seq<seq<Frag>>): (r: Option<seq<seq<Frag>>>)
    ensures r.None? <==> |hops| >= 2 && Join(hops[0], hops[1]) == []
    ensures r.Some? ==> |r.value| == if |hops| < 2 then 0 else |hops| - 1
    ensures r.Some? ==> forall k :: 0 <= k < |r.value| ==> r.value[k] == Accumulated(hops, |hops| - 1)
  {
    if |hops| < 2 then Some([])
    else if Join(hops[0], hops[1]) == [] then None
    else Some(Copies(|hops| - 1, Accumulated(hops, |hops| - 1)))
  }

  /**
   * The `while` loop of `multi_match`, with a failed consolidation read as
   * "no chain". Each round removes one entry, so the loop ends.
   */
  function ConsolidateLoop(ls: seq<seq<Frag>>): Option<seq<Frag>>
    requires |ls| >= 1
    decreases |ls|
  {
    if |ls| == 1 then Some(ls[0])
    else match Consolidated(ls)
      case None => None
      case Some(next) => ConsolidateLoop(next)
  }

  /** The result of `multi_match`: the one hop list for a single hop, joined pairs otherwise. */
  datatype Chain = Hop(edges: seq<EdgeTuple>) | Ends(pairs: seq<Frag>)

  function FragsOf(es: seq<EdgeTuple>): seq<Frag> {
    seq(|es|, i requires 0 <= i < |es| => (es[i].0, es[i].1))
  }

  /** The hop lists: `match(ns[x], ns[x + 1], rs[x])` for every hop `x`. */
  function Hops(g: Graph, ns: seq<AttrMap>, rs: seq<AttrMap>): seq<seq<EdgeTuple>>
    requires |ns| >= 1 && |rs| >= |ns| - 1
  {
    seq(|ns| - 1, x requires 0 <= x < |ns| - 1 => NodeNodeRel(g, ns[x], ns[x + 1], rs[x]))
  }

  function HopFrags(hops: seq<seq<EdgeTuple>>): seq<seq<Frag>> {
    seq(|hops|, x requires 0 <= x < |hops| => FragsOf(hops[x]))
  }

  /** `multi_match(ns, rs)`, with `None` from `consolidate` read as "no chain". */
  function MultiMatchResult(g: Graph, ns: seq<AttrMap>, rs: seq<AttrMap>): Option<Chain>
    requires |rs| >= |ns| - 1
  {
    if |ns| < 2 then None
    else
      var hops := Hops(g, ns, rs);
      if [] in hops then None
      else if |hops| == 1 then Some(Hop(hops[0]))
      else match ConsolidateLoop(HopFrags(hops))
        case None => None
        case Some(ps) => Some(Ends(ps))
  }

  /** What a call of `multi_match` as written does: return a value, or fail with `TypeError`. */
  datatype Outcome = Returned(result: Option<Chain>) | RaisedTypeError

  /**
   * The `while` loop as written: it tests the result of `consolidate` against
   * `{}`, which `None` never equals, and then evaluates `len(None)`.
   */
  function ConsolidateLoopAsWritten(ls: seq<seq<Frag>>): Outcome
    requires |ls| >= 1
    decreases |ls|
  {
    if |ls| == 1 then Returned(Some(Ends(ls[0])))
    else match Consolidated(ls)
      case None => RaisedTypeError
      case Some(next) => if next == [] then Returned(None) else ConsolidateLoopAsWritten(next)
  }

  /** The hop lists as written: each hop uses the tuple-membership target test of `match_node_node_rel`. */
  function HopsAsWritten(g: Graph, ns: seq<AttrMap>, rs: seq<AttrMap>): seq<seq<EdgeTuple>>
    requires |ns| >= 1 && |rs| >= |ns| - 1
  {
    seq(|ns| - 1, x requires 0 <= x < |ns| - 1 => NodeNodeRelAsWritten(g, ns[x], ns[x + 1], rs[x]))
  }

  /** `multi_match(ns, rs)` as written: hops with the tuple-membership test, and the `== {}` test. */
  function MultiMatchAsWritten(g: Graph, ns: seq<AttrMap>, rs: seq<AttrMap>): Outcome
    requires |rs| >= |ns| - 1
  {
    if |ns| < 2 then Returned(None)
    else
      var hops := HopsAsWritten(g, ns, rs);
      if [] in hops then Returned(None)
      else if |hops| == 1 then Returned(Some(Hop(hops[0])))
      else ConsolidateLoopAsWritten(HopFrags(hops))
  }

  // ---------------------------------------------------------------------
  // Joining
  // ---------------------------------------------------------------------

  lemma {:induction false} JoinWithMember(x: Frag, ys: seq<Frag>, p: Frag)
    ensures p in JoinWith(x, ys) <==> p.0 == x.0 && (x.1, p.1) in ys
  {
    if ys != [] {
      var init := ys[..|ys| - 1];
      JoinWithMember(x, init, p);
      assert ys == init + [ys[|ys| - 1]];
    }
  }

  /** `(a, b)` is joined from two hop lists exactly when some `m` gives `(a, m)` in the first and `(m, b)` in the second. */
  lemma JoinMember(xs: seq<Frag>, ys: seq<Frag>, p: Frag)
    ensures p in Join(xs, ys) <==> exists m :: (p.0, m) in xs && (m, p.1) in ys
  {
    FlatMapMember(xs, JoinWithOf(ys), p);
    if p in Join(xs, ys) {
      var i :| 0 <= i < |xs| && p in JoinWith(xs[i], ys);
      JoinWithMember(xs[i], ys, p);
      assert (p.0, xs[i].1) in xs;
    }
    if exists m :: (p.0, m) in xs && (m, p.1) in ys {
      var m :| (p.0, m) in xs && (m, p.1) in ys;
      var i :| 0 <= i < |xs| && xs[i] == (p.0, m);
      JoinWithMember(xs[i], ys, p);
      assert p in JoinWithOf(ys)(xs[i]);
    }
  }

  lemma {:induction false} JoinWithEmpty(x: Frag, ys: seq<Frag>)
    requires forall j :: 0 <= j < |ys| ==> x.1 != ys[j].0
    ensures JoinWith(x, ys) == []
  {
    if ys != [] {
      JoinWithEmpty(x, ys[..|ys| - 1]);
    }
  }

  /** No target of the first list is a source of the second: nothing joins. */
  lemma JoinEmpty(xs: seq<Frag>, ys: seq<Frag>)
    requires forall i, j :: 0 <= i < |xs| && 0 <= j < |ys| ==> xs[i].1 != ys[j].0
    ensures Join(xs, ys) == []
  {
    forall i | 0 <= i < |xs| ensures JoinWithOf(ys)(xs[i]) == [] {
      JoinWithEmpty(xs[i], ys);
    }
    FlatMapEmpty(xs, JoinWithOf(ys));
  }

  lemma {:induction false} AccumulatedMember(hops: seq<seq<Frag>>, k: nat, p: Frag)
    requires k < |hops|
    ensures p in Accumulated(hops, k) <==> exists x :: 0 <= x < k && p in Join(hops[x], hops[x + 1])
  {
    if k > 0 {
      AccumulatedMember(hops, k - 1, p);
    }
  }

  /**
   * Every pair `consolidate` produces comes from an edge `(a, m)` of some hop
   * `x` and an edge `(m, b)` of hop `x + 1`.
   */
  lemma ConsolidatedSound(hops: seq<seq<Frag>>, k: nat, p: Frag)
    requires Consolidated(hops).Some? && k < |Consolidated(hops).value|
    requires p in Consolidated(hops).value[k]
    ensures exists x, m :: 0 <= x < |hops| - 1 && (p.0, m) in hops[x] && (m, p.1) in hops[x + 1]
  {
    AccumulatedMember(hops, |hops| - 1, p);
    var x :| 0 <= x < |hops| - 1 && p in Join(hops[x], hops[x + 1]);
    JoinMember(hops[x], hops[x + 1], p);
  }

  /** Two hops: `consolidate` returns one entry, the join of the two lists. */
  lemma ConsolidatedTwo(a: seq<Frag>, b: seq<Frag>)
    requires Join(a, b) != []
    ensures Consolidated([a, b]) == Some([Join(a, b)])
  {
    var hops := [a, b];
    assert hops[0] == a && hops[1] == b;
    assert Accumulated(hops, 1) == [] + Join(a, b);
    assert [] + Join(a, b) == Join(a, b);
    assert Copies(1, Accumulated(hops, 1)) == [Join(a, b)];
  }

  // ---------------------------------------------------------------------
  // The chain query
  // ---------------------------------------------------------------------

  /** A relationship from `a` to `b` that hop `(f1, f2, r)` matches. */
  ghost predicate IsHop(g: Graph, f1: AttrMap, f2: AttrMap, r: AttrMap, a: NodeId, b: NodeId) {
    && (a, b) in g.edgeAttrs
    && Matches(AttrsOf(g, a), f1) && Matches(AttrsOf(g, b), f2) && Matches(g.edgeAttrs[(a, b)], r)
  }

  lemma FragsOfMember(g: Graph, f1: AttrMap, f2: AttrMap, r: AttrMap, p: Frag)
    requires WellFormed(g)
    ensures p in FragsOf(NodeNodeRel(g, f1, f2, r)) <==> IsHop(g, f1, f2, r, p.0, p.1)
  {
    var es := NodeNodeRel(g, f1, f2, r);
    var fs := FragsOf(es);
    if p in fs {
      var i :| 0 <= i < |fs| && fs[i] == p;
      assert es[i] in es;
      NodeNodeRelMember(g, f1, f2, r, es[i]);
    }
    if IsHop(g, f1, f2, r, p.0, p.1) {
      var e := (p.0, p.1, g.edgeAttrs[p]);
      NodeNodeRelMember(g, f1, f2, r, e);
      var i :| 0 <= i < |es| && es[i] == e;
      assert fs[i] == p;
    }
  }

  /** `multi_match` returns `None` if the chain is shorter than one hop or any hop matches nothing. */
  lemma MultiMatchEmptyHop(g: Graph, ns: seq<AttrMap>, rs: seq<AttrMap>, x: nat)
    requires |rs| >= |ns| - 1 && x + 1 < |ns|
    requires NodeNodeRel(g, ns[x], ns[x + 1], rs[x]) == []
    ensures MultiMatchResult(g, ns, rs) == None
  {
    assert Hops(g, ns, rs)[x] == [];
  }

  /** The joined pairs of two hops are the ends of two-hop chains. */
  lemma TwoHopJoinMember(g: Graph, ns: seq<AttrMap>, rs: seq<AttrMap>, p: Frag)
    requires WellFormed(g)
    requires |ns| == 3 && |rs| >= 2
    ensures p in Join(FragsOf(Hops(g, ns, rs)[0]), FragsOf(Hops(g, ns, rs)[1])) <==>
      exists m :: IsHop(g, ns[0], ns[1], rs[0], p.0, m) && IsHop(g, ns[1], ns[2], rs[1], m, p.1)
  {
    var a, b := FragsOf(Hops(g, ns, rs)[0]), FragsOf(Hops(g, ns, rs)[1]);
    JoinMember(a, b, p);
    forall m ensures (p.0, m) in a <==> IsHop(g, ns[0], ns[1], rs[0], p.0, m) {
      FragsOfMember(g, ns[0], ns[1], rs[0], (p.0, m));
    }
    forall m ensures (m, p.1) in b <==> IsHop(g, ns[1], ns[2], rs[1], m, p.1) {
      FragsOfMember(g, ns[1], ns[2], rs[1], (m, p.1));
    }
  }

  /**
   * A chain of two hops: `multi_match` returns the join of the two hop
   * lists, or `None` when that join is empty; with `TwoHopJoinMember`, the
   * pairs are exactly the ends of the matching two-hop chains.
   */
  lemma MultiMatchTwoHops(g: Graph, ns: seq<AttrMap>, rs: seq<AttrMap>)
    requires |ns| == 3 && |rs| >= 2
    ensures var j := Join(FragsOf(Hops(g, ns, rs)[0]), FragsOf(Hops(g, ns, rs)[1]));
      MultiMatchResult(g, ns, rs) == if j == [] then None else Some(Ends(j))
  {
    var hops := Hops(g, ns, rs);
    var a, b := FragsOf(hops[0]), FragsOf(hops[1]);
    if [] in hops {
      if hops[1] == [] {
        forall i | 0 <= i < |a| ensures JoinWithOf(b)(a[i]) == [] {
          JoinWithEmpty(a[i], b);
        }
        FlatMapEmpty(a, JoinWithOf(b));
      }
    } else {
      assert HopFrags(hops) == [a, b];
      if Join(a, b) != [] {
        ConsolidatedTwo(a, b);
        assert ConsolidateLoop([a, b]) == ConsolidateLoop([Join(a, b)]);
        assert ConsolidateLoop([Join(a, b)]) == Some(Join(a, b));
      }
    }
  }

  /**
   * With three hops the windows are joined in a sliding fashion and the
   * accumulated list is then joined with itself, so the chain
   * `1 -> 2 -> 3 -> 4` is not found: the loop with the `None` test reports
   * no chain, and the loop as written raises `TypeError`.
   */
  lemma ThreeHopChainMissed()
    ensures ConsolidateLoop([[(1, 2)], [(2, 3)], [(3, 4)]]) == None
    ensures ConsolidateLoopAsWritten([[(1, 2)], [(2, 3)], [(3, 4)]]) == RaisedTypeError
  {
    var hops: seq<seq<Frag>> := [[(1, 2)], [(2, 3)], [(3, 4)]];
    JoinWithMember((1, 2), [(2, 3)], (1, 3));
    assert JoinWith((1, 2), [(2, 3)]) == [(1, 3)];
    assert Join(hops[0], hops[1]) == [(1, 3)];
    assert Join(hops[1], hops[2]) == [(2, 4)];
    var acc := Accumulated(hops, 2);
    assert acc == [(1, 3), (2, 4)];
    var next := Consolidated(hops).value;
    assert next == [acc, acc];
    JoinEmpty(acc, acc);
    ConsolidateLoopAsWrittenRaises(hops);
  }

  // ---------------------------------------------------------------------
  // The chain join that consolidation is meant to compute
  // ---------------------------------------------------------------------

  /** `path` has one node per hop boundary, and each step is an entry of its hop list. */
  predicate IsPath(hops: seq<seq<Frag>>, path: seq<NodeId>) {
    |path| == |hops| + 1 && forall i :: 0 <= i < |hops| ==> (path[i], path[i + 1]) in hops[i]
  }

  /** The left-deep join: the first hop list joined with each following one in turn. */
  function LeftDeep(hops: seq<seq<Frag>>): seq<Frag>
    requires |hops| >= 1
    decreases |hops|
  {
    if |hops| == 1 then hops[0] else Join(LeftDeep(hops[..|hops| - 1]), hops[|hops| - 1])
  }

  /** The left-deep join holds exactly the ends of the paths through every hop. */
  lemma {:induction false} LeftDeepMember(hops: seq<seq<Frag>>, p: Frag)
    requires |hops| >= 1
    ensures p in LeftDeep(hops) <==> exists path :: IsPath(hops, path) && path[0] == p.0 && path[|hops|] == p.1
    decreases |hops|
  {
    var n := |hops|;
    if n == 1 {
      if p in hops[0] {
        assert IsPath(hops, [p.0, p.1]);
      }
      if exists path :: IsPath(hops, path) && path[0] == p.0 && path[1] == p.1 {
        var path :| IsPath(hops, path) && path[0] == p.0 && path[1] == p.1;
        assert (path[0], path[1]) in hops[0];
      }
    } else {
      var front := hops[..n - 1];
      var last := hops[n - 1];
      JoinMember(LeftDeep(front), last, p);
      if p in LeftDeep(hops) {
        var m :| (p.0, m) in LeftDeep(front) && (m, p.1) in last;
        LeftDeepMember(front, (p.0, m));
        var prefix :| IsPath(front, prefix) && prefix[0] == p.0 && prefix[n - 1] == m;
        PathExtended(hops, prefix, p.1);
      }
      if exists path :: IsPath(hops, path) && path[0] == p.0 && path[n] == p.1 {
        var path :| IsPath(hops, path) && path[0] == p.0 && path[n] == p.1;
        PathShortened(hops, path);
        LeftDeepMember(front, (p.0, path[n - 1]));
      }
    }
  }

  /** A path through all hops but the last, followed by an entry of the last hop, is a path through every hop. */
  lemma PathExtended(hops: seq<seq<Frag>>, prefix: seq<NodeId>, b: NodeId)
    requires |hops| >= 2 && IsPath(hops[..|hops| - 1], prefix)
    requires (prefix[|hops| - 1], b) in hops[|hops| - 1]
    ensures IsPath(hops, prefix + [b])
  {
    var n := |hops|;
    var path := prefix + [b];
    forall i | 0 <= i < n ensures (path[i], path[i + 1]) in hops[i] {
      if i < n - 1 {
        assert hops[..n - 1][i] == hops[i];
      }
    }
  }

  /** Dropping the last node of a path through every hop gives a path through all hops but the last. */
  lemma PathShortened(hops: seq<seq<Frag>>, path: seq<NodeId>)
    requires |hops| >= 2 && IsPath(hops, path)
    ensures IsPath(hops[..|hops| - 1], path[..|hops|])
    ensures (path[|hops| - 1], path[|hops|]) in hops[|hops| - 1]
  {
    var n := |hops|;
    forall i | 0 <= i < n - 1 ensures (path[..n][i], path[..n][i + 1]) in hops[..n - 1][i] {
      assert (path[i], path[i + 1]) in hops[i];
    }
  }

  /** The three-hop chain `1 -> 2 -> 3 -> 4` that consolidation misses is found by the left-deep join. */
  lemma LeftDeepThreeHops()
    ensures LeftDeep([[(1, 2)], [(2, 3)], [(3, 4)]]) == [(1, 4)]
  {
    var hops: seq<seq<Frag>> := [[(1, 2)], [(2, 3)], [(3, 4)]];
    assert hops[..2][..1] == [[(1, 2)]];
    assert LeftDeep(hops[..2][..1]) == [(1, 2)];
    JoinWithMember((1, 2), [(2, 3)], (1, 3));
    assert JoinWith((1, 2), [(2, 3)]) == [(1, 3)];
    assert LeftDeep(hops[..2]) == [(1, 3)];
    JoinWithMember((1, 3), [(3, 4)], (1, 4));
    assert JoinWith((1, 3), [(3, 4)]) == [(1, 4)];
  }

  /** The left-deep join is empty exactly when no path runs through every hop. */
  lemma LeftDeepEmpty(hops: seq<seq<Frag>>)
    requires |hops| >= 1
    ensures LeftDeep(hops) == [] <==> forall path :: !IsPath(hops, path)
  {
    if LeftDeep(hops) != [] {
      LeftDeepMember(hops, LeftDeep(hops)[0]);
    }
    if exists path :: IsPath(hops, path) {
      var path :| IsPath(hops, path);
      LeftDeepMember(hops, (path[0], path[|hops|]));
    }
  }

  lemma LeftDeepMembers(hops: seq<seq<Frag>>)
    requires |hops| >= 1
    ensures forall p :: p in LeftDeep(hops) <==> exists path :: IsPath(hops, path) && path[0] == p.0 && path[|hops|] == p.1
  {
    forall p ensures p in LeftDeep(hops) <==> exists path :: IsPath(hops, path) && path[0] == p.0 && path[|hops|] == p.1 {
      LeftDeepMember(hops, p);
    }
  }

  /**
   * `multi_match(ns, rs)` with the left-deep join in place of the
   * consolidation loop: from three node filters on, it reports the ends of
   * exactly the paths through every hop, and no chain when there is none.
   */
  function MultiMatchIntended(g: Graph, ns: seq<AttrMap>, rs: seq<AttrMap>): (r: Option<Chain>)
    requires |rs| >= |ns| - 1
    ensures r.None? <==> |ns| < 2 || [] in Hops(g, ns, rs) || (|ns| >= 3 && forall path :: !IsPath(HopFrags(Hops(g, ns, rs)), path))
    ensures |ns| >= 3 && r.Some? ==> r.value.Ends? && forall p :: p in r.value.pairs <==>
              exists path :: IsPath(HopFrags(Hops(g, ns, rs)), path) && path[0] == p.0 && path[|ns| - 1] == p.1
  {
    if |ns| < 2 then None
    else
      var hops := Hops(g, ns, rs);
      if [] in hops then None
      else if |hops| == 1 then Some(Hop(hops[0]))
      else
        var hfs := HopFrags(hops);
        LeftDeepEmpty(hfs);
        LeftDeepMembers(hfs);
        var ps := LeftDeep(hfs);
        if ps == [] then None else Some(Ends(ps))
  }

  /** Up to two hops the consolidation loop computes the left-deep join. */
  lemma MultiMatchIntendedAgrees(g: Graph, ns: seq<AttrMap>, rs: seq<AttrMap>)
    requires |rs| >= |ns| - 1 && |ns| <= 3
    ensures MultiMatchResult(g, ns, rs) == MultiMatchIntended(g, ns, rs)
  {
    if |ns| == 3 && [] !in Hops(g, ns, rs) {
      var hops := HopFrags(Hops(g, ns, rs));
      var a, b := hops[0], hops[1];
      assert hops == [a, b];
      assert hops[..1] == [a];
      assert LeftDeep(hops) == Join(a, b);
      if Join(a, b) != [] {
        ConsolidatedTwo(a, b);
        assert ConsolidateLoop([a, b]) == ConsolidateLoop([Join(a, b)]);
      } else {
        assert Consolidated(hops) == None;
      }
    }
  }

  /**
   * As written, `multi_match` raises `TypeError` exactly when the corrected
   * reading finds no chain while consolidating; otherwise both agree.
   */
  lemma {:induction false} ConsolidateLoopAsWrittenRaises(ls: seq<seq<Frag>>)
    requires |ls| >= 1
    ensures ConsolidateLoopAsWritten(ls) ==
      match ConsolidateLoop(ls)
        case None => RaisedTypeError
        case Some(ps) => Returned(Some(Ends(ps)))
    decreases |ls|
  {
    if |ls| > 1 && Consolidated(ls).Some? {
      ConsolidateLoopAsWrittenRaises(Consolidated(ls).value);
    }
  }

  /** Without self-loops the two target tests give the same hop lists. */
  lemma HopsAgree(g: Graph, ns: seq<AttrMap>, rs: seq<AttrMap>)
    requires WellFormed(g) && forall n :: (n, n) !in g.edgeAttrs
    requires |ns| >= 1 && |rs| >= |ns| - 1
    ensures HopsAsWritten(g, ns, rs) == Hops(g, ns, rs)
  {
    forall x | 0 <= x < |ns| - 1
      ensures HopsAsWritten(g, ns, rs)[x] == Hops(g, ns, rs)[x]
    {
      NoSelfLoopsAgree(g, ns[x], ns[x + 1], rs[x]);
    }
  }

  /**
   * `multi_match` as written raises `TypeError` exactly when consolidating
   * its hop lists finds no chain; on a graph without self-loops, whenever it
   * returns, it returns what the corrected `multi_match` does.
   */
  lemma MultiMatchAsWrittenRaises(g: Graph, ns: seq<AttrMap>, rs: seq<AttrMap>)
    requires |rs| >= |ns| - 1
    ensures MultiMatchAsWritten(g, ns, rs) == RaisedTypeError <==>
      |ns| >= 3 && [] !in HopsAsWritten(g, ns, rs) && ConsolidateLoop(HopFrags(HopsAsWritten(g, ns, rs))).None?
    ensures WellFormed(g) && (forall n :: (n, n) !in g.edgeAttrs) && MultiMatchAsWritten(g, ns, rs) != RaisedTypeError ==>
      MultiMatchAsWritten(g, ns, rs) == Returned(MultiMatchResult(g, ns, rs))
  {
    if |ns| >= 3 && [] !in HopsAsWritten(g, ns, rs) {
      ConsolidateLoopAsWrittenRaises(HopFrags(HopsAsWritten(g, ns, rs)));
    }
    if |ns| >= 1 && WellFormed(g) && forall n :: (n, n) !in g.edgeAttrs {
      HopsAgree(g, ns, rs);
    }
  }

  /** Two hops that share no middle node: as written, `multi_match` ends in `TypeError`. */
  lemma UnjoinableHopsRaise()
    ensures ConsolidateLoopAsWritten([[(1, 2)], [(3, 4)]]) == RaisedTypeError
    ensures ConsolidateLoop([[(1, 2)], [(3, 4)]]) == None
  {
    var ls: seq<seq<Frag>> := [[(1, 2)], [(3, 4)]];
    JoinEmpty(ls[0], ls[1]);
  }
}
