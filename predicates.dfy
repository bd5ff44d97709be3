/**
 * Numeric predicates over a list of matched nodes: keep the nodes whose
 * attribute `attr`, read as a number, compares to a given number by `<`,
 * `>` or `=`.
 *
 * Python's `float()` is not modelled: the conversion is a parameter
 * `parse` that gives the number a string denotes, or `None` where the
 * conversion raises `ValueError`.
 */
module Predicates {
  import opened Wrappers
  import Seqs
  import opened GraphModel

  /** `__str2float`: `None` stands for the string `"ERROR"` it returns on a `ValueError`. */
  type StrToReal = string -> Option<real>

  datatype Comparison = Less | Greater | Equal

  predicate Holds(c: Comparison, x: real, y: real) {
    match c
    case Less => x < y
    case Greater => x > y
    case Equal => x == y
  }

  /** The operation string that names a comparison. */
  function Symbol(c: Comparison): string {
    match c
    case Less => "<"
    case Greater => ">"
    case Equal => "="
  }

  /** The operation strings `filter` accepts: exactly the symbols of the three comparisons. */
  function ParseOp(op: string): (r: Option<Comparison>)
    ensures forall c :: r == Some(c) <==> op == Symbol(c)
  {
    if op == "<" then Some(Less)
    else if op == ">" then Some(Greater)
    else if op == "=" then Some(Equal)
    else None
  }

  /** Every node of the list has the attribute: reading `n[1][attr]` raises `KeyError` otherwise. */
  predicate HasAttr(nodes: seq<NodeTuple>, attr: string) {
    forall i :: 0 <= i < |nodes| ==> attr in nodes[i].1
  }

  /** The node's attribute converts to a number that compares `c` to `val`. */
  predicate Satisfies(parse: StrToReal, attr: string, c: Comparison, val: real, n: NodeTuple) {
    attr in n.1 && parse(n.1[attr]).Some? && Holds(c, parse(n.1[attr]).value, val)
  }

  function Keeps(parse: StrToReal, attr: string, c: Comparison, val: real): NodeTuple -> bool {
    (n: NodeTuple) => Satisfies(parse, attr, c, val, n)
  }

  /** The nodes a filter helper keeps, in their order in the input. */
  function Kept(nodes: seq<NodeTuple>, parse: StrToReal, attr: string, c: Comparison, val: real): (r: seq<NodeTuple>)
    ensures forall n :: n in r ==> n in nodes && Satisfies(parse, attr, c, val, n)
  {
    FilterKeepsSound(nodes, parse, attr, c, val);
    Seqs.Filter(nodes, Keeps(parse, attr, c, val))
  }

  lemma FilterKeepsSound(nodes: seq<NodeTuple>, parse: StrToReal, attr: string, c: Comparison, val: real)
    ensures forall n :: n in Seqs.Filter(nodes, Keeps(parse, attr, c, val)) ==> n in nodes && Satisfies(parse, attr, c, val, n)
  {
    forall n | n in Seqs.Filter(nodes, Keeps(parse, attr, c, val)) ensures n in nodes && Satisfies(parse, attr, c, val, n) {
      Seqs.FilterMember(nodes, Keeps(parse, attr, c, val), n);
    }
  }

  /**
   * The loop shared by `__filter_less`, `__filter_greater` and
   * `__filter_equal`: a node whose attribute does not convert is skipped.
   */
  method FilterBy(nodes: seq<NodeTuple>, attr: string, val: real, c: Comparison, parse: StrToReal)
    returns (ret: seq<NodeTuple>)
    requires HasAttr(nodes, attr)
    ensures ret == Kept(nodes, parse, attr, c, val)
  {
    ret := [];
    var i := 0;
    while i < |nodes|
      invariant 0 <= i <= |nodes|
      invariant ret == Seqs.Filter(nodes[..i], Keeps(parse, attr, c, val))
    {
      var n := nodes[i];
      var attrVal := parse(n.1[attr]);
      Seqs.FilterSnoc(nodes[..i], n, Keeps(parse, attr, c, val));
      assert nodes[..i + 1] == nodes[..i] + [n];
      i := i + 1;
      if attrVal.None? {
        continue;
      }
      if Holds(c, attrVal.value, val) {
        ret := ret + [n];
      }
    }
    assert nodes[..i] == nodes;
  }

  /** `__filter_less(nodes, attr, val)` */
  method FilterLess(nodes: seq<NodeTuple>, attr: string, val: real, parse: StrToReal) returns (ret: seq<NodeTuple>)
    requires HasAttr(nodes, attr)
    ensures ret == Kept(nodes, parse, attr, Less, val)
  {
    ret := FilterBy(nodes, attr, val, Less, parse);
  }

  /** `__filter_greater(nodes, attr, val)` */
  method FilterGreater(nodes: seq<NodeTuple>, attr: string, val: real, parse: StrToReal) returns (ret: seq<NodeTuple>)
    requires HasAttr(nodes, attr)
    ensures ret == Kept(nodes, parse, attr, Greater, val)
  {
    ret := FilterBy(nodes, attr, val, Greater, parse);
  }

  /** `__filter_equal(nodes, attr, val)` */
  method FilterEqual(nodes: seq<NodeTuple>, attr: string, val: real, parse: StrToReal) returns (ret: seq<NodeTuple>)
    requires HasAttr(nodes, attr)
    ensures ret == Kept(nodes, parse, attr, Equal, val)
  {
    ret := FilterBy(nodes, attr, val, Equal, parse);
  }

  /**
   * `filter(nodes, attr, value, op)`: the empty list when `value` is not a
   * number or `op` is not one of `<`, `>`, `=` (the nodes are not read
   * then); otherwise the nodes the helper for `op` keeps.
   */
  method Filter(nodes: seq<NodeTuple>, attr: string, value: string, op: string, parse: StrToReal)
    returns (ret: seq<NodeTuple>)
    requires parse(value).Some? && ParseOp(op).Some? ==> HasAttr(nodes, attr)
    ensures parse(value).None? ==> ret == []
    ensures ParseOp(op).None? ==> ret == []
    ensures parse(value).Some? && ParseOp(op).Some? ==> ret == Kept(nodes, parse, attr, ParseOp(op).value, parse(value).value)
  {
    var val := parse(value);
    if val.None? {
      return [];
    }
    if op == "<" {
      ret := FilterLess(nodes, attr, val.value, parse);
    } else if op == ">" {
      ret := FilterGreater(nodes, attr, val.value, parse);
    } else if op == "=" {
      ret := FilterEqual(nodes, attr, val.value, parse);
    } else {
      ret := [];
    }
  }

  // ---------------------------------------------------------------------
  // Properties of the filter
  // ---------------------------------------------------------------------

  /** A node is kept exactly when it is in the input and its attribute converts and compares. */
  lemma KeptMember(nodes: seq<NodeTuple>, parse: StrToReal, attr: string, c: Comparison, val: real, n: NodeTuple)
    ensures n in Kept(nodes, parse, attr, c, val) <==> n in nodes && Satisfies(parse, attr, c, val, n)
  {
    Seqs.FilterMember(nodes, Keeps(parse, attr, c, val), n);
  }

  /** The filter keeps the input order: filtering a concatenation filters each part. */
  lemma KeptAppend(a: seq<NodeTuple>, b: seq<NodeTuple>, parse: StrToReal, attr: string, c: Comparison, val: real)
    ensures Kept(a + b, parse, attr, c, val) == Kept(a, parse, attr, c, val) + Kept(b, parse, attr, c, val)
  {
    Seqs.FilterAppend(a, b, Keeps(parse, attr, c, val));
  }

  /** The result of a filter keeps the attribute, so it can be filtered again. */
  lemma KeptHasAttr(nodes: seq<NodeTuple>, parse: StrToReal, attr: string, c: Comparison, val: real)
    ensures HasAttr(Kept(nodes, parse, attr, c, val), attr)
    ensures |Kept(nodes, parse, attr, c, val)| <= |nodes|
  {
    var ks := Kept(nodes, parse, attr, c, val);
    forall i | 0 <= i < |ks| ensures attr in ks[i].1 {
      assert ks[i] in ks;
      KeptMember(nodes, parse, attr, c, val, ks[i]);
    }
    Seqs.FilterLength(nodes, Keeps(parse, attr, c, val));
  }

  /** Filtering a filtered list again with the same attribute, value and operation changes nothing. */
  lemma KeptIdempotent(nodes: seq<NodeTuple>, parse: StrToReal, attr: string, c: Comparison, val: real)
    ensures Kept(Kept(nodes, parse, attr, c, val), parse, attr, c, val) == Kept(nodes, parse, attr, c, val)
  {
    Seqs.FilterIdempotent(nodes, Keeps(parse, attr, c, val));
  }
}
