/**
 * What the distance tables mean. A walk is a sequence of nodes joined by
 * links of the topology, and its cost is the sum of those links' costs.
 * After any number of rounds every finite entry is the cost of a walk, so a
 * node that no walk reaches stays infinite; at a fixed point no walk is
 * cheaper than its entry. On a topology with non-negative costs and no
 * self-loop, a converged simulation therefore holds, for every pair of
 * nodes, the cost of the cheapest walk between them.
 */
module ShortestPaths {
  import opened Distances
  import opened Topologies
  import opened Routing

  /** `w` follows links of `topo` from `w[0]` to its last node. */
  ghost predicate IsWalk(topo: Topology, w: seq<NodeId>)
    decreases |w|
  {
    |w| >= 1 && (|w| >= 2 ==> w[0] in topo && w[1] in topo[w[0]] && IsWalk(topo, w[1..]))
  }

  /** `w` is a walk from `n` to `t`. */
  ghost predicate WalkBetween(topo: Topology, w: seq<NodeId>, n: NodeId, t: NodeId)
  {
    IsWalk(topo, w) && w[0] == n && w[|w| - 1] == t
  }

  /** The sum of the link costs along `w`. */
  ghost function WalkCost(topo: Topology, w: seq<NodeId>): int
    requires IsWalk(topo, w)
    decreases |w|
  {
    if |w| == 1 then 0 else topo[w[0]][w[1]] + WalkCost(topo, w[1..])
  }

  /** A walk to `m` followed by a walk from `m` is a walk, and their costs add up. */
  lemma {:induction false} WalkJoin(topo: Topology, u: seq<NodeId>, v: seq<NodeId>)
    requires IsWalk(topo, u) && IsWalk(topo, v) && u[|u| - 1] == v[0]
    ensures IsWalk(topo, u + v[1..])
    ensures WalkCost(topo, u + v[1..]) == WalkCost(topo, u) + WalkCost(topo, v)
    decreases |u|
  {
    if |u| == 1 {
      assert u + v[1..] == v;
    } else {
      WalkJoin(topo, u[1..], v);
      assert (u + v[1..])[1..] == u[1..] + v[1..];
    }
  }

  /** Every finite entry of `tables` is the cost of a walk between its two nodes. */
  ghost predicate Realized(topo: Topology, tables: Tables)
  {
    forall n: NodeId, t: NodeId :: n in tables && t in tables[n] && tables[n][t].Fin? ==>
      exists w :: WalkBetween(topo, w, n, t) && WalkCost(topo, w) == tables[n][t].n
  }

  /** A node alone is a walk of cost 0. */
  lemma StayWalk(topo: Topology, n: NodeId)
    ensures WalkBetween(topo, [n], n, n) && WalkCost(topo, [n]) == 0
  {
  }

  /** A single link is a walk of its cost. */
  lemma LinkWalk(topo: Topology, n: NodeId, t: NodeId)
    requires n in topo && t in topo[n]
    ensures WalkBetween(topo, [n, t], n, t) && WalkCost(topo, [n, t]) == topo[n][t]
  {
    assert [n, t][1..] == [t];
  }

  /** Each round-0 entry is the cost of the empty walk or of a single link. */
  lemma InitialTablesRealized(topo: Topology)
    ensures Realized(topo, InitialTables(topo))
  {
    var tables: Tables := InitialTables(topo);
    forall n: NodeId, t: NodeId | n in tables && t in tables[n] && tables[n][t].Fin?
      ensures exists w :: WalkBetween(topo, w, n, t) && WalkCost(topo, w) == tables[n][t].n
    {
      var row := InitialRow(topo, n);
      assert tables[n] == row;
      if t in topo[n] {
        LinkWalk(topo, n, t);
      } else {
        assert t == n;
        StayWalk(topo, n);
      }
    }
  }

  /** Two entries that are walk costs add up to the cost of a walk. */
  lemma JoinRealized(topo: Topology, tables: Tables, n: NodeId, m: NodeId, t: NodeId)
    requires Realized(topo, tables)
    requires n in tables && m in tables[n] && tables[n][m].Fin?
    requires m in tables && t in tables[m] && tables[m][t].Fin?
    ensures exists w :: WalkBetween(topo, w, n, t) && WalkCost(topo, w) == tables[n][m].n + tables[m][t].n
  {
    var u: seq<NodeId> :| WalkBetween(topo, u, n, m) && WalkCost(topo, u) == tables[n][m].n;
    var v: seq<NodeId> :| WalkBetween(topo, v, m, t) && WalkCost(topo, v) == tables[m][t].n;
    WalkJoin(topo, u, v);
    assert WalkBetween(topo, u + v[1..], n, t);
  }

  /** One refreshed entry is its old value or a candidate, so it is a walk cost. */
  lemma RefreshedEntryRealized(topo: Topology, tables: Tables, n: NodeId, t: NodeId)
    requires Realized(topo, tables) && RefreshReady(topo, tables)
    requires n in tables && t in tables[n] && Refreshed(topo, tables)[n][t].Fin?
    ensures exists w :: WalkBetween(topo, w, n, t) && WalkCost(topo, w) == Refreshed(topo, tables)[n][t].n
  {
    var v := Refreshed(topo, tables)[n][t];
    if n !in topo {
      RefreshKeepsOtherRows(topo, tables, n);
    } else if v != tables[n][t] {
      BestViaIsBest(tables, n, t, topo[n].Keys);
      assert IsBest(v, tables, n, t, topo[n].Keys);
      var m: NodeId :| m in topo[n] && Viable(tables, n, m, t) && v == Candidate(tables, n, m, t);
      JoinRealized(topo, tables, n, m, t);
    }
  }

  /** A round keeps every finite entry the cost of a walk. */
  lemma RefreshKeepsRealized(topo: Topology, tables: Tables)
    requires Realized(topo, tables) && RefreshReady(topo, tables)
    ensures Realized(topo, Refreshed(topo, tables))
  {
    var r: Tables := Refreshed(topo, tables);
    forall n: NodeId, t: NodeId | n in r && t in r[n] && r[n][t].Fin?
      ensures exists w :: WalkBetween(topo, w, n, t) && WalkCost(topo, w) == r[n][t].n
    {
      RefreshedEntryRealized(topo, tables, n, t);
    }
  }

  /** The engine's round keeps every finite entry the cost of a walk: it only ever joins two. */
  lemma RoundKeepsRealized(topo: Topology)
    ensures forall tables :: Realized(topo, tables) ==> Realized(topo, Round(topo)(tables))
  {
    forall tables: Tables | Realized(topo, tables) && RefreshReady(topo, tables)
      ensures Realized(topo, Refreshed(topo, tables))
    {
      RefreshKeepsRealized(topo, tables);
    }
  }

  /** Every link's entry is at most the link's cost. */
  ghost predicate WithinLinks(topo: Topology, tables: Tables)
  {
    forall n: NodeId, m: NodeId :: n in topo && m in topo[n] ==> n in tables && m in tables[n] && Le(tables[n][m], Fin(topo[n][m]))
  }

  /** A round keeps every link's entry at most the link's cost, since it raises no entry. */
  lemma RoundKeepsWithinLinks(topo: Topology)
    ensures forall tables :: WithinLinks(topo, tables) ==> WithinLinks(topo, Round(topo)(tables))
  {
    forall tables: Tables | WithinLinks(topo, tables) && RefreshReady(topo, tables)
      ensures WithinLinks(topo, Refreshed(topo, tables))
    {
      RefreshNeverIncreases(topo, tables);
    }
  }

  /** Adding two distances below two costs stays below their sum. */
  lemma AddBelow(a: Dist, b: Dist, x: int, y: int)
    requires Le(a, Fin(x)) && Le(b, Fin(y))
    ensures Le(Add(a, b), Fin(x + y))
  {
  }

  /** The entry from `n` to `t` is not above the candidate through `n`'s neighbour `m`. */
  ghost predicate NoShortcutVia(topo: Topology, tables: Tables, n: NodeId, m: NodeId, t: NodeId)
  {
    n in topo && m in topo[n] && n in tables && m in tables[n] && tables[n][m].Fin? &&
    m in tables && t in tables[m] && t in tables[n]
    ==> Le(tables[n][t], Add(tables[n][m], tables[m][t]))
  }

  /** No entry is above the candidate through any neighbour. */
  ghost predicate NoShortcut(topo: Topology, tables: Tables)
  {
    forall n: NodeId, m: NodeId, t: NodeId :: NoShortcutVia(topo, tables, n, m, t)
  }

  /** At a fixed point of a round no entry is above a candidate. */
  lemma FixedPointHasNoShortcut(topo: Topology, tables: Tables)
    requires RefreshReady(topo, tables) && Refreshed(topo, tables) == tables
    ensures NoShortcut(topo, tables)
  {
    forall n: NodeId, m: NodeId, t: NodeId ensures NoShortcutVia(topo, tables, n, m, t) {
      if n in topo && m in topo[n] && n in tables && m in tables[n] && tables[n][m].Fin? &&
        m in tables && t in tables[m] && t in tables[n]
      {
        BestViaIsBest(tables, n, t, topo[n].Keys);
        assert Viable(tables, n, m, t);
      }
    }
  }

  /** The rest of a walk after its first link is a walk to the same end. */
  lemma WalkTail(topo: Topology, w: seq<NodeId>, n: NodeId, t: NodeId)
    requires WalkBetween(topo, w, n, t) && |w| > 1
    ensures WalkBetween(topo, w[1..], w[1], t) && w[1] in topo[n]
  {
  }

  /**
   * With no shortcut, the entry from `n` to `t` is at most a link from `n`
   * to `m` plus any bound on the entry from `m` to `t`.
   */
  lemma LinkThenEntry(topo: Topology, tables: Tables, n: NodeId, m: NodeId, t: NodeId, c: int)
    requires Closed(topo) && Complete(topo, tables) && WithinLinks(topo, tables) && NoShortcut(topo, tables)
    requires n in topo && m in topo[n] && t in tables[m] && Le(tables[m][t], Fin(c))
    ensures t in tables[n] && Le(tables[n][t], Fin(topo[n][m] + c))
  {
    assert n in tables && m in tables;
    assert t in topo by {
      assert tables[m].Keys == topo.Keys;
    }
    assert t in tables[n] && m in tables[n] by {
      assert tables[n].Keys == topo.Keys;
    }
    assert NoShortcutVia(topo, tables, n, m, t);
    AddBelow(tables[n][m], tables[m][t], topo[n][m], c);
  }

  /**
   * On complete tables with 0 from each node to itself, no link's entry
   * above its cost and no entry above a candidate, no walk is cheaper than
   * the entry between its ends.
   */
  lemma {:induction false} NoShortcutBelowWalks(topo: Topology, tables: Tables, w: seq<NodeId>, n: NodeId, t: NodeId)
    requires Closed(topo) && Complete(topo, tables) && SelfZero(tables) && WithinLinks(topo, tables)
    requires NoShortcut(topo, tables)
    requires WalkBetween(topo, w, n, t) && n in topo
    ensures t in tables[n] && Le(tables[n][t], Fin(WalkCost(topo, w)))
    decreases |w|
  {
    if |w| == 1 {
      assert n in tables;
    } else {
      var m := w[1];
      WalkTail(topo, w, n, t);
      NoShortcutBelowWalks(topo, tables, w[1..], m, t);
      LinkThenEntry(topo, tables, n, m, t, WalkCost(topo, w[1..]));
    }
  }

  // ---------------------------------------------------------------------
  // The simulation
  // ---------------------------------------------------------------------

  /** Round-0 tables hold each link's cost. */
  lemma InitialTablesWithinLinks(topo: Topology)
    ensures WithinLinks(topo, InitialTables(topo))
  {
    var tables: Tables := InitialTables(topo);
    forall n: NodeId, m: NodeId | n in topo && m in topo[n]
      ensures n in tables && m in tables[n] && Le(tables[n][m], Fin(topo[n][m]))
    {
      assert tables[n] == InitialRow(topo, n);
    }
  }

  /**
   * However many rounds the simulation runs, every finite entry of its
   * result is the cost of a walk between the entry's two nodes.
   */
  lemma SimulationEntriesAreWalks(topo: Topology, budget: nat)
    ensures Realized(topo, Simulate(Round(topo), InitialTables(topo), budget).tables)
  {
    InitialTablesRealized(topo);
    RoundKeepsRealized(topo);
    SimulateKeeps(Round(topo), InitialTables(topo), budget, t => Realized(topo, t));
  }

  /** A node that no walk reaches from `n` stays at infinity in `n`'s table. */
  lemma UnreachableStaysInfinite(topo: Topology, budget: nat, n: NodeId, t: NodeId)
    requires n in Simulate(Round(topo), InitialTables(topo), budget).tables
    requires t in Simulate(Round(topo), InitialTables(topo), budget).tables[n]
    requires forall w :: !WalkBetween(topo, w, n, t)
    ensures Simulate(Round(topo), InitialTables(topo), budget).tables[n][t] == Inf
  {
    SimulationEntriesAreWalks(topo, budget);
  }

  /** However many rounds run, no link's entry is above the link's cost. */
  lemma SimulationWithinLinks(topo: Topology, budget: nat)
    ensures WithinLinks(topo, Simulate(Round(topo), InitialTables(topo), budget).tables)
  {
    InitialTablesWithinLinks(topo);
    RoundKeepsWithinLinks(topo);
    SimulateKeeps(Round(topo), InitialTables(topo), budget, t => WithinLinks(topo, t));
  }

  /** The engine's round keeps the tables ready for the next round. */
  lemma RoundKeepsReady(topo: Topology)
    ensures forall tables :: RefreshReady(topo, tables) ==> RefreshReady(topo, Round(topo)(tables))
  {
    forall tables: Tables | RefreshReady(topo, tables)
      ensures RefreshReady(topo, Refreshed(topo, tables))
    {
      RefreshKeepsReady(topo, tables);
    }
  }

  /** A converged simulation ends on a fixed point of the refresh. */
  lemma ConvergedIsFixedPoint(topo: Topology, budget: nat)
    requires Closed(topo)
    requires Simulate(Round(topo), InitialTables(topo), budget).converged
    ensures var r := Simulate(Round(topo), InitialTables(topo), budget).tables;
      RefreshReady(topo, r) && Refreshed(topo, r) == r
  {
    var init := InitialTables(topo);
    InitialTablesReady(topo);
    RoundKeepsReady(topo);
    SimulateKeeps(Round(topo), init, budget, t => RefreshReady(topo, t));
    SimulateOutcome(Round(topo), init, budget);
  }

  /**
   * When the simulation converges on a topology with non-negative costs and
   * no self-loop, its result has the fixed-point properties the walk bound
   * needs.
   */
  lemma ConvergedHasNoShortcut(topo: Topology, budget: nat)
    requires Closed(topo) && NoSelfLoops(topo)
    requires forall n, m :: n in topo && m in topo[n] ==> topo[n][m] >= 0
    requires Simulate(Round(topo), InitialTables(topo), budget).converged
    ensures var r := Simulate(Round(topo), InitialTables(topo), budget).tables;
      Complete(topo, r) && SelfZero(r) && WithinLinks(topo, r) && NoShortcut(topo, r)
  {
    var r := Simulate(Round(topo), InitialTables(topo), budget).tables;
    SimulationKeepsSelfZero(topo, budget);
    SimulationWithinLinks(topo, budget);
    ConvergedIsFixedPoint(topo, budget);
    FixedPointHasNoShortcut(topo, r);
  }

  /**
   * A converged simulation holds shortest distances: the entry from `n` to
   * `t` is at most the cost of every walk from `n` to `t`, and by
   * `SimulationEntriesAreWalks` a finite entry is the cost of one of them.
   */
  lemma ConvergedIsShortest(topo: Topology, budget: nat, n: NodeId, t: NodeId, w: seq<NodeId>)
    requires Closed(topo) && NoSelfLoops(topo)
    requires forall n, m :: n in topo && m in topo[n] ==> topo[n][m] >= 0
    requires Simulate(Round(topo), InitialTables(topo), budget).converged
    requires n in topo && WalkBetween(topo, w, n, t)
    ensures var r := Simulate(Round(topo), InitialTables(topo), budget).tables;
      n in r && t in r[n] && Le(r[n][t], Fin(WalkCost(topo, w)))
  {
    var r := Simulate(Round(topo), InitialTables(topo), budget).tables;
    ConvergedHasNoShortcut(topo, budget);
    NoShortcutBelowWalks(topo, r, w, n, t);
  }
}
