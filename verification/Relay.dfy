/** Connections: a list of rows as edges with cursors. */
module Relay {

  datatype PageInfo = PageInfo(startCursor: string, endCursor: string, hasNextPage: bool, hasPreviousPage: bool)
  datatype Edge<T> = Edge(cursor: string, node: T)
  datatype Connection<T> = Connection(edges: seq<Edge<T>>, pageInfo: PageInfo, totalCount: int)

  function Edges<T>(models: seq<T>, cursorFn: T -> string): seq<Edge<T>> {
    seq(|models|, i requires 0 <= i < |models| => Edge(cursorFn(models[i]), models[i]))
  }

  /** Edges in the order of the rows; both cursors are empty for an empty list. */
  function Connect<T>(models: seq<T>, cursorFn: T -> string): Connection<T> {
    var edges := Edges(models, cursorFn);
    var start := if edges == [] then "" else edges[0].cursor;
    var end := if edges == [] then "" else edges[|edges| - 1].cursor;
    Connection(edges, PageInfo(start, end, false, false), 0)
  }

  method NewConnection<T>(models: seq<T>, cursorFn: T -> string) returns (conn: Connection<T>)
    ensures conn == Connect(models, cursorFn)
    ensures |conn.edges| == |models|
    ensures forall i :: 0 <= i < |models|
              ==> conn.edges[i].node == models[i] && conn.edges[i].cursor == cursorFn(models[i])
    ensures conn.pageInfo.startCursor == if models == [] then "" else cursorFn(models[0])
    ensures conn.pageInfo.endCursor == if models == [] then "" else cursorFn(models[|models| - 1])
  {
    var edges: seq<Edge<T>> := [];
    for i := 0 to |models|
      invariant edges == Edges(models, cursorFn)[..i]
    {
      edges := edges + [Edge(cursorFn(models[i]), models[i])];
    }
    var startCursor, endCursor := "", "";
    if |edges| > 0 {
      startCursor := edges[0].cursor;
      endCursor := edges[|edges| - 1].cursor;
    }
    conn := Connection(edges, PageInfo(startCursor, endCursor, false, false), 0);
  }
}
