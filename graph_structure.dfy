/**
 * The in-memory graph structure of the database: the graph object it owns
 * and the counter that hands out unique node ids.
 */
module GraphStructure {
  import GraphModel

  class GraphStructure {
    /** Never reassigned: `get_graph` hands out this one object, which callers change in place. */
    const graph: GraphModel.DiGraph
    /** The last id handed out; `add_node` increments it before use. */
    var id: int

    /** `GraphStructure(start_id=0)` */
    constructor (startId: int := 0)
      ensures id == startId
      ensures fresh(graph) && graph.Valid() && graph.Model() == GraphModel.Empty
    {
      graph := new GraphModel.DiGraph();
      id := startId;
    }

    method GetGraph() returns (r: GraphModel.DiGraph)
      ensures r == graph
    {
      r := graph;
    }

    method GetId() returns (r: int)
      ensures r == id
    {
      r := id;
    }

    /** Changes the counter only: the graph object and its contents stay as they were. */
    method IncId()
      modifies this
      ensures id == old(id) + 1
      ensures unchanged(graph)
    {
      id := id + 1;
    }
  }
}
