/** Provider elimination (`eliminate_provider`): drop the excluded nodes
    from the capacity table and every connection that touches one of them. */
module Eliminate {
  import opened Tables
  import opened Sequences

  /** A capacity row survives when its NodeName is not excluded. */
  function KeepsNode(prov: set<string>): Node -> bool
  {
    (n: Node) => n.name !in prov
  }

  /** A connection survives when neither endpoint is excluded. */
  function KeepsEdge(prov: set<string>): Edge -> bool
  {
    (e: Edge) => e.start !in prov && e.end !in prov
  }

  /** Both tables filtered by `prov`; the results are fresh tables whose row
      labels are their positions, so relabelling 0..n-1 is implicit. */
  function EliminateProvider(cap: seq<Node>, conn: seq<Edge>, prov: set<string>): (r: Problem)
    ensures |r.capacities| <= |cap| && |r.connections| <= |conn|
    ensures forall k :: 0 <= k < |r.capacities| ==>
              r.capacities[k] in cap && r.capacities[k].name !in prov
    ensures forall k :: 0 <= k < |cap| && cap[k].name !in prov ==> cap[k] in r.capacities
    ensures forall k :: 0 <= k < |r.connections| ==>
              r.connections[k] in conn && r.connections[k].start !in prov && r.connections[k].end !in prov
    ensures forall k :: 0 <= k < |conn| && conn[k].start !in prov && conn[k].end !in prov ==>
              conn[k] in r.connections
  {
    Problem(Filter(cap, KeepsNode(prov)), Filter(conn, KeepsEdge(prov)))
  }

  /** Elimination works row by row: the tables of a concatenation are the
      concatenations of the tables, so surviving rows keep their order. */
  lemma EliminateAppend(cap1: seq<Node>, cap2: seq<Node>, conn1: seq<Edge>, conn2: seq<Edge>, prov: set<string>)
    ensures EliminateProvider(cap1 + cap2, conn1 + conn2, prov)
         == Problem(EliminateProvider(cap1, conn1, prov).capacities + EliminateProvider(cap2, conn2, prov).capacities,
                    EliminateProvider(cap1, conn1, prov).connections + EliminateProvider(cap2, conn2, prov).connections)
  {
    FilterAppend(cap1, cap2, KeepsNode(prov));
    FilterAppend(conn1, conn2, KeepsEdge(prov));
  }

  /** On a single row, elimination keeps the row unchanged or drops it. */
  lemma EliminateOneRow(n: Node, e: Edge, prov: set<string>)
    ensures EliminateProvider([n], [e], prov)
         == Problem(if n.name in prov then [] else [n],
                    if e.start in prov || e.end in prov then [] else [e])
  {
    assert [n][1..] == [] && [e][1..] == [];
  }

  /** Every surviving row appears as often as in the input; excluded rows
      not at all. */
  lemma EliminateCounts(cap: seq<Node>, conn: seq<Edge>, prov: set<string>, n: Node, e: Edge)
    ensures multiset(EliminateProvider(cap, conn, prov).capacities)[n]
         == if n.name in prov then 0 else multiset(cap)[n]
    ensures multiset(EliminateProvider(cap, conn, prov).connections)[e]
         == if e.start in prov || e.end in prov then 0 else multiset(conn)[e]
  {
    FilterCount(cap, KeepsNode(prov), n);
    FilterCount(conn, KeepsEdge(prov), e);
  }

  /** Eliminating no provider, or only names that no row mentions, returns
      both tables unchanged. */
  lemma EliminateNothing(cap: seq<Node>, conn: seq<Edge>, prov: set<string>)
    requires forall k :: 0 <= k < |cap| ==> cap[k].name !in prov
    requires forall k :: 0 <= k < |conn| ==> conn[k].start !in prov && conn[k].end !in prov
    ensures EliminateProvider(cap, conn, prov) == Problem(cap, conn)
  {
    FilterKeepsAll(cap, KeepsNode(prov));
    FilterKeepsAll(conn, KeepsEdge(prov));
  }

  /** Eliminating `a` and then `b` is eliminating `a + b` at once. */
  lemma EliminateTwice(cap: seq<Node>, conn: seq<Edge>, a: set<string>, b: set<string>)
    ensures var once := EliminateProvider(cap, conn, a);
            EliminateProvider(once.capacities, once.connections, b) == EliminateProvider(cap, conn, a + b)
  {
    FilterFilter(cap, KeepsNode(a), KeepsNode(b), KeepsNode(a + b));
    FilterFilter(conn, KeepsEdge(a), KeepsEdge(b), KeepsEdge(a + b));
  }

  /** Applying the same exclusion twice gives the tables of applying it once. */
  lemma EliminateIdempotent(cap: seq<Node>, conn: seq<Edge>, prov: set<string>)
    ensures var once := EliminateProvider(cap, conn, prov);
            EliminateProvider(once.capacities, once.connections, prov) == once
  {
    EliminateTwice(cap, conn, prov, prov);
    assert prov + prov == prov;
  }
}
