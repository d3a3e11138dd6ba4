/** The two tables of a transportation problem, as rows of records.
    A table is a sequence of rows; a row's label (the pandas index) is its
    position in the sequence, which is what `reset_index(drop = True)` and
    `ignore_index = True` make of it. */
module Tables {

  /** A row of the capacity table: columns NodeIndex, NodeName, Capacity. */
  datatype Node = Node(index: int, name: string, capacity: int)

  /** A row of the connection table: columns StartNode, EndNode, Distance, Cost. */
  datatype Edge = Edge(start: string, end: string, distance: int, cost: int)

  /** The capacity table and the connection table, as the preprocessing
      functions take and return them. */
  datatype Problem = Problem(capacities: seq<Node>, connections: seq<Edge>)

  /** The StartNode column of a connection table. */
  function Starts(conn: seq<Edge>): seq<string>
  {
    seq(|conn|, i requires 0 <= i < |conn| => conn[i].start)
  }

  /** The EndNode column of a connection table. */
  function Ends(conn: seq<Edge>): seq<string>
  {
    seq(|conn|, i requires 0 <= i < |conn| => conn[i].end)
  }

  /** The NodeIndex column agrees with the row labels 0, 1, ..., n-1. */
  predicate DenseIndex(cap: seq<Node>)
  {
    forall i :: 0 <= i < |cap| ==> cap[i].index == i
  }
}
