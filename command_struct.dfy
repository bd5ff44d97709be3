/**
 * The record the parser fills for one command: the command keyword, the
 * name it binds, the attribute dictionary being built and, for edge
 * creation, a list of such dictionaries.
 *
 * Python dictionaries are mutable objects shared by reference, so the
 * dictionary is a class of its own: `insert_attr_list` stores the current
 * dictionary object itself, and a later `insert_attr` is then visible
 * through the list until `clear_attr` starts a new dictionary.
 */
module CommandStruct {
  import opened Attributes

  /** A mutable string-to-string dictionary. */
  class AttrDict {
    var entries: AttrMap

    constructor ()
      ensures entries == map[]
    {
      entries := map[];
    }

    /** `d[key] = value` */
    method Put(key: string, value: string)
      modifies this
      ensures entries == old(entries)[key := value]
    {
      entries := entries[key := value];
    }
  }

  /** Python's `lst[ind] = x` for a list of length `n` addresses position `Position(ind, n)`. */
  function Position(ind: int, n: nat): (p: nat)
    requires 0 <= n + ind && ind < n
    ensures p < n
    ensures ind >= 0 ==> p == ind
    ensures ind < 0 ==> p + (-ind) == n
  {
    if ind < 0 then n + ind else ind
  }

  class CommandStruct {
    const command: string
    var name: string
    var attr: AttrDict
    var attrList: seq<AttrDict>

    /** `Command_Struct(command)`: no name, a new empty dictionary and an empty list. */
    constructor (command: string)
      ensures this.command == command
      ensures name == ""
      ensures fresh(attr) && attr.entries == map[]
      ensures attrList == []
    {
      this.command := command;
      name := "";
      attr := new AttrDict();
      attrList := [];
    }

    /** `set_name(name)` */
    method SetName(name: string)
      modifies this
      ensures this.name == name
      ensures attr == old(attr) && attrList == old(attrList)
    {
      this.name := name;
    }

    /**
     * `insert_attr(attr1, attr2)`: the key is set in the current dictionary
     * object, and so in every entry of the list that is that same object.
     */
    method InsertAttr(attr1: string, attr2: string)
      modifies attr
      ensures attr.entries == old(attr.entries)[attr1 := attr2]
      ensures forall d :: d in attrList && d != attr ==> d.entries == old(d.entries)
    {
      attr.Put(attr1, attr2);
    }

    /**
     * `insert_attr_list(ind)`: an index at or past the end appends the
     * current dictionary; any other index (a negative one counts from the
     * end) overwrites that position. An index before the start raises
     * `IndexError`, reported as `indexError` with nothing changed.
     */
    method InsertAttrList(ind: int) returns (indexError: bool)
      modifies this
      ensures indexError <==> |old(attrList)| + ind < 0
      ensures indexError ==> attrList == old(attrList)
      ensures ind >= |old(attrList)| ==> attrList == old(attrList) + [attr]
      ensures !indexError && ind < |old(attrList)| ==> attrList == old(attrList)[Position(ind, |old(attrList)|) := attr]
      ensures name == old(name) && attr == old(attr)
    {
      indexError := false;
      if ind >= |attrList| {
        attrList := attrList + [attr];
      } else if |attrList| + ind < 0 {
        indexError := true;
      } else {
        attrList := attrList[Position(ind, |attrList|) := attr];
      }
    }

    /** `clear_attr()`: a new empty dictionary; the list keeps the old ones. */
    method ClearAttr()
      modifies this
      ensures fresh(attr) && attr.entries == map[]
      ensures name == old(name) && attrList == old(attrList)
    {
      attr := new AttrDict();
    }

    method GetCommand() returns (r: string)
      ensures r == command
    {
      r := command;
    }

    method GetName() returns (r: string)
      ensures r == name
    {
      r := name;
    }

    /** `get_attr()` hands out the dictionary object itself, not a copy. */
    method GetAttr() returns (r: AttrDict)
      ensures r == attr
    {
      r := attr;
    }

    method GetAttrList() returns (r: seq<AttrDict>)
      ensures r == attrList
    {
      r := attrList;
    }

    /** `get_attr_size()`: the number of keys of the current dictionary. */
    method GetAttrSize() returns (r: nat)
      ensures r == |attr.entries.Keys|
    {
      r := |attr.entries|;
    }

    /** `get_attr_list_size()`: the number of dictionaries in the list. */
    method GetAttrListSize() returns (r: nat)
      ensures r == |attrList|
    {
      r := |attrList|;
    }
  }

  /**
   * Two edges' attributes collected the way the parser does: an attribute
   * inserted after `insert_attr_list` still reaches the listed dictionary
   * (the same object), while `clear_attr` separates the next edge's
   * dictionary from the one already listed.
   */
  method CollectTwoEdges(k1: string, v1: string, k2: string, v2: string, k3: string, v3: string)
    returns (first: AttrMap, second: AttrMap, size: nat)
    ensures first == map[k1 := v1][k2 := v2]
    ensures second == map[k3 := v3]
    ensures size == 2
  {
    var c := new CommandStruct("CREATEEDGE");
    c.InsertAttr(k1, v1);
    var e0 := c.InsertAttrList(0);
    c.InsertAttr(k2, v2);
    c.ClearAttr();
    c.InsertAttr(k3, v3);
    var e1 := c.InsertAttrList(1);
    size := c.GetAttrListSize();
    var list := c.GetAttrList();
    first := list[0].entries;
    second := list[1].entries;
  }

  /** Listing the dictionary twice without `clear_attr` puts the same object at both positions. */
  method ListedTwiceShared(k: string, v: string) returns (first: AttrMap, second: AttrMap)
    ensures first == second == map[k := v]
  {
    var c := new CommandStruct("CREATEEDGE");
    var e0 := c.InsertAttrList(0);
    var e1 := c.InsertAttrList(1);
    c.InsertAttr(k, v);
    var list := c.GetAttrList();
    first := list[0].entries;
    second := list[1].entries;
  }

  /** A negative index overwrites from the end: `-1` replaces the last listed dictionary. */
  method ReplaceLast(k1: string, v1: string, k2: string, v2: string) returns (listed: seq<AttrMap>)
    ensures listed == [map[k1 := v1], map[k2 := v2]]
  {
    var c := new CommandStruct("CREATEEDGE");
    var e0 := c.InsertAttrList(0);
    c.ClearAttr();
    var e1 := c.InsertAttrList(1);
    c.ClearAttr();
    c.InsertAttr(k2, v2);
    var em1 := c.InsertAttrList(-1);
    var list := c.GetAttrList();
    list[0].Put(k1, v1);
    listed := [list[0].entries, list[1].entries];
  }

  /** An index before the start of the list raises `IndexError` and lists nothing. */
  method IndexBeforeStart(k: string, v: string) returns (raised: bool, size: nat)
    ensures raised && size == 0
  {
    var c := new CommandStruct("CREATEEDGE");
    c.InsertAttr(k, v);
    raised := c.InsertAttrList(-1);
    size := c.GetAttrListSize();
  }
}
