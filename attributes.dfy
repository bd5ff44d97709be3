/**
 * Attribute dictionaries and the one matching rule the query engine uses:
 * a filter matches an attribute dictionary when every `(key, value)` item of
 * the filter is also an item of the dictionary (superset containment).
 */
module Attributes {

  type AttrMap = map<string, string>

  /** `all(item in attrs.items() for item in filter.items())` */
  predicate Matches(attrs: AttrMap, filter: AttrMap)
    ensures Matches(attrs, filter) <==> filter.Items <= attrs.Items
  {
    assert forall k :: k in filter ==> (k, filter[k]) in filter.Items;
    forall k :: k in filter ==> k in attrs && attrs[k] == filter[k]
  }

  /**
   * The dictionary a modification leaves behind: with `add` every key of
   * `change` is set to its value, without it every key of `change` is popped.
   */
  function Update(attrs: AttrMap, change: AttrMap, add: bool): (r: AttrMap)
    ensures add ==> r.Keys == attrs.Keys + change.Keys
    ensures !add ==> r.Keys == attrs.Keys - change.Keys
    ensures forall k :: k in r ==> r[k] == (if add && k in change then change[k] else attrs[k])
  {
    if add then attrs + change else attrs - change.Keys
  }

  /** Changing only keys the filter does not mention keeps its verdict. */
  lemma UpdateKeepsMatch(attrs: AttrMap, change: AttrMap, add: bool, filter: AttrMap)
    requires change.Keys !! filter.Keys
    ensures Matches(Update(attrs, change, add), filter) == Matches(attrs, filter)
  {
    var r := Update(attrs, change, add);
    if Matches(attrs, filter) {
      forall k | k in filter ensures k in r && r[k] == filter[k] {
        assert k !in change;
      }
    }
    if Matches(r, filter) {
      forall k | k in filter ensures k in attrs && attrs[k] == filter[k] {
        assert k !in change;
      }
    }
  }

  /**
   * Setting keys the dictionary does not have and then popping them gives
   * the dictionary back; the pops all find their key.
   */
  lemma UpdateRoundTrip(attrs: AttrMap, change: AttrMap)
    requires change.Keys !! attrs.Keys
    ensures change.Keys <= Update(attrs, change, true).Keys
    ensures Update(Update(attrs, change, true), change, false) == attrs
  {
    var r := Update(Update(attrs, change, true), change, false);
    assert r.Keys == attrs.Keys;
    forall k | k in r ensures r[k] == attrs[k] {
      assert k !in change;
    }
  }
}
