/** Balance adjustment (`adjust_umbalance_problem`): when total supply and
    total demand differ, append a synthetic node that absorbs or delivers the
    difference, and connect it at zero distance and zero cost to every
    distinct node on the other side of the existing connections. */
module Balance {
  import opened Tables
  import opened Sequences
  import Eliminate

  /** The synthetic client added when supply exceeds demand. */
  const ClientAdd: string := "Cliente Add"
  /** The synthetic provider added when demand exceeds supply. */
  const ProvAdd: string := "Prov Add"

  /** An imbalanced problem with an empty capacity table has no last row
      label to derive the new NodeIndex from (pandas raises IndexError). */
  datatype Error = NoLastRow

  datatype Result<T> = Ok(value: T) | Err(error: Error)

  function Abs(x: int): int
  {
    if x < 0 then -x else x
  }

  /** The label of the last row of a non-empty table. */
  function LastLabel(cap: seq<Node>): int
    requires |cap| > 0
  {
    |cap| - 1
  }

  /** Zero-distance, zero-cost edges from each of `starts` into `sink`. */
  function EdgesInto(starts: seq<string>, sink: string): seq<Edge>
  {
    seq(|starts|, i requires 0 <= i < |starts| => Edge(starts[i], sink, 0, 0))
  }

  /** Zero-distance, zero-cost edges from `source` to each of `ends`. */
  function EdgesFrom(source: string, ends: seq<string>): seq<Edge>
  {
    seq(|ends|, i requires 0 <= i < |ends| => Edge(source, ends[i], 0, 0))
  }

  /** `added` links `hub` once to each distinct name of `names`, in the order
      in which the names first occur, at zero distance and zero cost.
      With `intoHub` the edges end at the hub and the names are their starts;
      otherwise the edges leave the hub and the names are their ends. */
  predicate LinksEachOnce(added: seq<Edge>, names: seq<string>, hub: string, intoHub: bool)
  {
    var linked := if intoHub then Starts(added) else Ends(added);
    && (forall k :: 0 <= k < |added| ==>
          added[k].distance == 0 && added[k].cost == 0 &&
          (if intoHub then added[k].end == hub else added[k].start == hub))
    && UniqueValues(names, linked)
  }

  /** `LinksEachOnce` pins the added edges down completely: they are the
      zero-cost links between the hub and `unique()` of the names. */
  lemma LinksEachOnceDetermined(added: seq<Edge>, names: seq<string>, hub: string, intoHub: bool)
    requires LinksEachOnce(added, names, hub, intoHub)
    ensures added == if intoHub then EdgesInto(Distinct(names), hub) else EdgesFrom(hub, Distinct(names))
  {
    var linked := if intoHub then Starts(added) else Ends(added);
    DistinctUnique(names, linked);
    var expected := if intoHub then EdgesInto(linked, hub) else EdgesFrom(hub, linked);
    assert |expected| == |added|;
    forall k | 0 <= k < |added|
      ensures added[k] == expected[k]
    {
      assert linked[k] == if intoHub then added[k].start else added[k].end;
    }
  }

  /** The tables with one synthetic node appended, or unchanged when the
      totals agree; `capProv` and `capClient` are the totals the caller
      computed, not sums over the table. */
  function AdjustImbalance(cap: seq<Node>, conn: seq<Edge>, capProv: int, capClient: int): (r: Result<Problem>)
    ensures r.Err? <==> capProv != capClient && |cap| == 0
    ensures capProv == capClient ==> r == Ok(Problem(cap, conn))
    ensures capProv > capClient && |cap| > 0 ==>
              && r.Ok?
              && r.value.capacities == cap + [Node(|cap|, ClientAdd, capProv - capClient)]
              && |r.value.connections| >= |conn|
              && r.value.connections[..|conn|] == conn
              && LinksEachOnce(r.value.connections[|conn|..], Starts(conn), ClientAdd, true)
    ensures capProv < capClient && |cap| > 0 ==>
              && r.Ok?
              && r.value.capacities == cap + [Node(|cap|, ProvAdd, capClient - capProv)]
              && |r.value.connections| >= |conn|
              && r.value.connections[..|conn|] == conn
              && LinksEachOnce(r.value.connections[|conn|..], Ends(conn), ProvAdd, false)
  {
    if capProv > capClient then
      if |cap| == 0 then Err(NoLastRow)
      else
        var added := EdgesInto(Distinct(Starts(conn)), ClientAdd);
        assert Starts(added) == Distinct(Starts(conn));
        assert (conn + added)[|conn|..] == added;
        Ok(Problem(cap + [Node(LastLabel(cap) + 1, ClientAdd, Abs(capProv - capClient))], conn + added))
    else if capProv < capClient then
      if |cap| == 0 then Err(NoLastRow)
      else
        var added := EdgesFrom(ProvAdd, Distinct(Ends(conn)));
        assert Ends(added) == Distinct(Ends(conn));
        assert (conn + added)[|conn|..] == added;
        Ok(Problem(cap + [Node(LastLabel(cap) + 1, ProvAdd, Abs(capProv - capClient))], conn + added))
    else
      Ok(Problem(cap, conn))
  }

  /** The synthetic node's capacity closes the gap: afterwards supply plus
      any added provider equals demand plus any added client, and the added
      capacity is strictly positive. */
  lemma AdjustCloses(cap: seq<Node>, conn: seq<Edge>, capProv: int, capClient: int)
    requires capProv != capClient && |cap| > 0
    ensures var r := AdjustImbalance(cap, conn, capProv, capClient);
            var added := r.value.capacities[|cap|];
            && added.capacity > 0
            && (if added.name == ClientAdd then capProv == capClient + added.capacity
                else added.name == ProvAdd && capProv + added.capacity == capClient)
  {
  }

  /** Every existing start node (supply surplus) or end node (demand
      surplus) gets its own link to the synthetic node. */
  lemma AdjustReachesAll(cap: seq<Node>, conn: seq<Edge>, capProv: int, capClient: int, e: Edge)
    requires |cap| > 0 && e in conn
    ensures var r := AdjustImbalance(cap, conn, capProv, capClient);
            && (capProv > capClient ==> Edge(e.start, ClientAdd, 0, 0) in r.value.connections[|conn|..])
            && (capProv < capClient ==> Edge(ProvAdd, e.end, 0, 0) in r.value.connections[|conn|..])
  {
    var r := AdjustImbalance(cap, conn, capProv, capClient);
    var added := r.value.connections[|conn|..];
    var k :| 0 <= k < |conn| && conn[k] == e;
    if capProv > capClient {
      assert Starts(conn)[k] == e.start;
      var j :| 0 <= j < |added| && Starts(added)[j] == e.start;
      assert added[j] == Edge(e.start, ClientAdd, 0, 0);
    } else if capProv < capClient {
      assert Ends(conn)[k] == e.end;
      var j :| 0 <= j < |added| && Ends(added)[j] == e.end;
      assert added[j] == Edge(ProvAdd, e.end, 0, 0);
    }
  }

  /** When the NodeIndex column agrees with the row labels, it still does
      afterwards, so the new NodeIndex differs from every existing one. */
  lemma AdjustKeepsDenseIndex(cap: seq<Node>, conn: seq<Edge>, capProv: int, capClient: int)
    requires DenseIndex(cap)
    ensures var r := AdjustImbalance(cap, conn, capProv, capClient);
            r.Ok? ==> DenseIndex(r.value.capacities)
  {
  }

  /** NodeIndex values survive elimination unrenumbered while row labels are
      reset, so the synthetic node can receive a NodeIndex that a remaining
      node already holds: here, whatever the connections, the client "C1"
      and the added provider both get NodeIndex 2. */
  lemma IndexCollisionAfterElimination(conn: seq<Edge>)
    ensures var cap := [Node(0, "P1", 50), Node(1, "P2", 50), Node(2, "C1", 60)];
            var p := Eliminate.EliminateProvider(cap, conn, {"P1"});
            var r := AdjustImbalance(p.capacities, p.connections, 50, 60);
            && DenseIndex(cap)
            && r.Ok?
            && |r.value.capacities| == 3
            && r.value.capacities[1].name == "C1"
            && r.value.capacities[2].name == ProvAdd
            && r.value.capacities[1].index == r.value.capacities[2].index == 2
  {
    var cap := [Node(0, "P1", 50), Node(1, "P2", 50), Node(2, "C1", 60)];
    var p := Eliminate.EliminateProvider(cap, conn, {"P1"});
    EliminateFirstOfThree(conn);
    AdjustAppendsNode(p.capacities, p.connections, 50, 60);
  }

  /** With unequal totals and a non-empty capacity table, the existing rows
      stay as they are and the one new row gets the row count as NodeIndex. */
  lemma AdjustAppendsNode(cap: seq<Node>, conn: seq<Edge>, capProv: int, capClient: int)
    requires |cap| > 0 && capProv != capClient
    ensures var r := AdjustImbalance(cap, conn, capProv, capClient);
            && r.Ok?
            && |r.value.capacities| == |cap| + 1
            && r.value.capacities[..|cap|] == cap
            && r.value.capacities[|cap|].index == |cap|
            && r.value.capacities[|cap|].name == (if capProv > capClient then ClientAdd else ProvAdd)
  {
  }

  /** Elimination of "P1" from the example capacity table keeps the other
      two rows with their NodeIndex values 1 and 2. */
  lemma EliminateFirstOfThree(conn: seq<Edge>)
    ensures Eliminate.EliminateProvider([Node(0, "P1", 50), Node(1, "P2", 50), Node(2, "C1", 60)], conn, {"P1"}).capacities
         == [Node(1, "P2", 50), Node(2, "C1", 60)]
  {
    var cap := [Node(0, "P1", 50), Node(1, "P2", 50), Node(2, "C1", 60)];
    var keep := Eliminate.KeepsNode({"P1"});
    assert "P2" != "P1" && "C1" != "P1";
    assert !keep(cap[0]) && keep(cap[1]) && keep(cap[2]);
    assert cap[1..][1..] == [cap[2]];
    assert Filter([cap[2]], keep) == [cap[2]];
  }
}
