/**
 * The Distance Vector engine: per-node distance tables built from the
 * topology, synchronous Bellman-Ford rounds that relax every table against
 * a frozen snapshot of the previous round, and the simulation loop that
 * repeats rounds until one reports no change or the round budget is spent.
 */
module Routing {
  import opened Distances
  import opened Topologies

  /** One node's distance table: destination -> best known distance. */
  type Table = map<NodeId, Dist>

  /** The distance table of every node. */
  type Tables = map<NodeId, Table>

  // ---------------------------------------------------------------------
  // Initial tables
  // ---------------------------------------------------------------------

  /**
   * The round-0 table of `n`: infinity to every node, then 0 to itself,
   * then the declared cost to each neighbour (so a self-loop's cost
   * overwrites the 0).
   */
  function InitialRow(topo: Topology, n: NodeId): (row: Table)
    requires n in topo
    ensures row.Keys == topo.Keys + topo[n].Keys
    ensures forall m :: m in topo[n] ==> row[m] == Fin(topo[n][m])
    ensures n !in topo[n] ==> row[n] == Fin(0)
    ensures forall t :: t in topo && t != n && t !in topo[n] ==> row[t] == Inf
  {
    (map t | t in topo :: Inf)[n := Fin(0)] + map m | m in topo[n] :: Fin(topo[n][m])
  }

  /** The round-0 tables of every node. */
  function InitialTables(topo: Topology): (tables: Tables)
    ensures tables.Keys == topo.Keys
  {
    map n | n in topo :: InitialRow(topo, n)
  }

  /** The round-0 tables of the nodes no longer `pending`. */
  ghost function InitialTablesBut(topo: Topology, pending: set<NodeId>): Tables
  {
    map n | n in topo && n !in pending :: InitialRow(topo, n)
  }

  /** With every node pending there is no table; with none, every table. */
  lemma InitialTablesButEnds(topo: Topology)
    ensures InitialTablesBut(topo, topo.Keys) == map[]
    ensures InitialTablesBut(topo, {}) == InitialTables(topo)
  {
  }

  /** Building one more node's table adds that table alone. */
  lemma InitialTablesButStep(topo: Topology, pending: set<NodeId>, n: NodeId)
    requires n in topo && n in pending
    ensures InitialTablesBut(topo, pending - {n}) == InitialTablesBut(topo, pending)[n := InitialRow(topo, n)]
  {
  }

  /** Builds the round-0 tables node by node, as the simulator does. */
  method CreateInitialTables(topo: Topology) returns (tables: Tables)
    ensures tables == InitialTables(topo)
  {
    tables := map[];
    var pending := topo.Keys;
    InitialTablesButEnds(topo);
    while pending != {}
      invariant pending <= topo.Keys
      invariant tables == InitialTablesBut(topo, pending)
      decreases pending
    {
      var n :| n in pending;
      var row := CreateInitialRow(topo, n);
      InitialTablesButStep(topo, pending, n);
      tables := tables[n := row];
      pending := pending - {n};
    }
  }

  /** `n`'s round-0 table while the links in `pending` are still to be written. */
  ghost function InitialRowBut(topo: Topology, n: NodeId, pending: set<NodeId>): Table
    requires n in topo
  {
    (map t | t in topo :: Inf)[n := Fin(0)] + map m | m in topo[n] && m !in pending :: Fin(topo[n][m])
  }

  /** With every link pending, the table is infinite but for 0 to itself. */
  lemma InitialRowButStart(topo: Topology, n: NodeId)
    requires n in topo
    ensures InitialRowBut(topo, n, topo[n].Keys) == (map t | t in topo :: Inf)[n := Fin(0)]
  {
  }

  /** With no link pending, it is the round-0 table. */
  lemma InitialRowButDone(topo: Topology, n: NodeId)
    requires n in topo
    ensures InitialRowBut(topo, n, {}) == InitialRow(topo, n)
  {
  }

  /** Writing one more link's cost sets that entry alone. */
  lemma InitialRowButStep(topo: Topology, n: NodeId, pending: set<NodeId>, m: NodeId)
    requires n in topo && m in topo[n] && m in pending
    ensures InitialRowBut(topo, n, pending - {m}) == InitialRowBut(topo, n, pending)[m := Fin(topo[n][m])]
  {
  }

  /** Builds the round-0 table of `n`: all infinite, 0 to itself, then each link's cost. */
  method CreateInitialRow(topo: Topology, n: NodeId) returns (row: Table)
    requires n in topo
    ensures row == InitialRow(topo, n)
  {
    row := map t | t in topo :: Inf;
    row := row[n := Fin(0)];
    var links := topo[n].Keys;
    InitialRowButStart(topo, n);
    while links != {}
      invariant links <= topo[n].Keys
      invariant row == InitialRowBut(topo, n, links)
      decreases links
    {
      var m :| m in links;
      InitialRowButStep(topo, n, links, m);
      row := row[m := Fin(topo[n][m])];
      links := links - {m};
    }
    InitialRowButDone(topo, n);
  }

  // ---------------------------------------------------------------------
  // One round of relaxation
  // ---------------------------------------------------------------------

  /**
   * The tables hold every key that relaxing node `n` through the neighbours
   * `via` looks up: `n`'s own table, each neighbour's table, the entry for
   * each neighbour in `n`'s table, and every destination a neighbour knows.
   */
  ghost predicate RowReady(tables: Tables, n: NodeId, via: set<NodeId>)
  {
    n in tables && forall m :: m in via ==> m in tables && m in tables[n] && tables[m].Keys <= tables[n].Keys
  }

  /** A round over `topo` finds every key it looks up in `tables`. */
  ghost predicate RefreshReady(topo: Topology, tables: Tables)
  {
    forall n :: n in topo ==> RowReady(tables, n, topo[n].Keys)
  }

  /** Neighbour `m` offers node `n` a path to `t`: `n` reaches `m` and `m` knows `t`. */
  predicate Viable(tables: Tables, n: NodeId, m: NodeId, t: NodeId)
    requires n in tables && m in tables && m in tables[n]
  {
    tables[n][m] != Inf && t in tables[m]
  }

  /** The cost of reaching `t` from `n` through neighbour `m`. */
  function Candidate(tables: Tables, n: NodeId, m: NodeId, t: NodeId): Dist
    requires n in tables && m in tables && m in tables[n] && t in tables[m]
  {
    Add(tables[n][m], tables[m][t])
  }

  /** Replaces `cur` by `cand` only when `cand` is strictly smaller. */
  function Relax(cur: Dist, cand: Dist): (r: Dist)
    ensures Le(r, cur) && Le(r, cand)
    ensures r == cur || r == cand
  {
    if Less(cand, cur) then cand else cur
  }

  /**
   * The entry `cur` for `t` after considering neighbour `m` once: the
   * smaller of `cur` and the route through `m`, when `m` offers one.
   */
  function Step(tables: Tables, n: NodeId, m: NodeId, t: NodeId, cur: Dist): (r: Dist)
    requires n in tables && m in tables && m in tables[n]
    ensures Le(r, cur)
    ensures Viable(tables, n, m, t) ==> Le(r, Candidate(tables, n, m, t))
    ensures r == cur || (Viable(tables, n, m, t) && r == Candidate(tables, n, m, t))
  {
    if Viable(tables, n, m, t) then Relax(cur, Candidate(tables, n, m, t)) else cur
  }

  /**
   * `v` is the minimum of `n`'s current entry for `t` and of every viable
   * candidate through a neighbour in `via`.
   */
  ghost predicate IsBest(v: Dist, tables: Tables, n: NodeId, t: NodeId, via: set<NodeId>)
    requires RowReady(tables, n, via) && t in tables[n]
  {
    && Le(v, tables[n][t])
    && (forall m :: m in via && Viable(tables, n, m, t) ==> Le(v, Candidate(tables, n, m, t)))
    && (v == tables[n][t] || exists m :: m in via && Viable(tables, n, m, t) && v == Candidate(tables, n, m, t))
  }

  /**
   * The entry for `t` after relaxing `n` through the neighbours `via`,
   * taken in an arbitrary order.
   */
  ghost function BestVia(tables: Tables, n: NodeId, t: NodeId, via: set<NodeId>): (r: Dist)
    requires RowReady(tables, n, via) && t in tables[n]
    ensures Le(r, tables[n][t])
    decreases via
  {
    if via == {} then tables[n][t]
    else
      var m :| m in via;
      Step(tables, n, m, t, BestVia(tables, n, t, via - {m}))
  }

  /** Considering one more neighbour keeps an entry the minimum. */
  lemma StepKeepsBest(tables: Tables, n: NodeId, t: NodeId, via: set<NodeId>, m: NodeId, v: Dist)
    requires RowReady(tables, n, via + {m}) && t in tables[n]
    requires IsBest(v, tables, n, t, via)
    ensures IsBest(Step(tables, n, m, t, v), tables, n, t, via + {m})
  {
    var w := Step(tables, n, m, t, v);
    if w != v {
      assert m in via + {m} && Viable(tables, n, m, t) && w == Candidate(tables, n, m, t);
    } else if v != tables[n][t] {
      var k :| k in via && Viable(tables, n, k, t) && v == Candidate(tables, n, k, t);
      assert k in via + {m};
    }
  }

  /** Whatever order the neighbours are taken in, the result is the minimum. */
  lemma {:induction false} BestViaIsBest(tables: Tables, n: NodeId, t: NodeId, via: set<NodeId>)
    requires RowReady(tables, n, via) && t in tables[n]
    ensures IsBest(BestVia(tables, n, t, via), tables, n, t, via)
    decreases via
  {
    if via != {} {
      var m :| m in via && BestVia(tables, n, t, via) == Step(tables, n, m, t, BestVia(tables, n, t, via - {m}));
      BestViaIsBest(tables, n, t, via - {m});
      StepKeepsBest(tables, n, t, via - {m}, m, BestVia(tables, n, t, via - {m}));
      assert via - {m} + {m} == via;
    }
  }

  /** The minimum is unique: the round's outcome does not depend on iteration order. */
  lemma BestIsUnique(tables: Tables, n: NodeId, t: NodeId, via: set<NodeId>, v: Dist, w: Dist)
    requires RowReady(tables, n, via) && t in tables[n]
    requires IsBest(v, tables, n, t, via) && IsBest(w, tables, n, t, via)
    ensures v == w
  {
    if v != tables[n][t] {
      var k :| k in via && Viable(tables, n, k, t) && v == Candidate(tables, n, k, t);
    }
    if w != tables[n][t] {
      var k :| k in via && Viable(tables, n, k, t) && w == Candidate(tables, n, k, t);
    }
  }

  /** Relaxing through one more neighbour is one more `Step`. */
  lemma BestViaInsert(tables: Tables, n: NodeId, t: NodeId, via: set<NodeId>, m: NodeId)
    requires RowReady(tables, n, via + {m}) && t in tables[n]
    ensures BestVia(tables, n, t, via + {m}) == Step(tables, n, m, t, BestVia(tables, n, t, via))
  {
    BestViaIsBest(tables, n, t, via);
    StepKeepsBest(tables, n, t, via, m, BestVia(tables, n, t, via));
    BestViaIsBest(tables, n, t, via + {m});
    BestIsUnique(tables, n, t, via + {m}, BestVia(tables, n, t, via + {m}), Step(tables, n, m, t, BestVia(tables, n, t, via)));
  }

  /** Node `n`'s table after relaxing it through the neighbours `via`. */
  ghost function RefreshedRow(tables: Tables, n: NodeId, via: set<NodeId>): (row: Table)
    requires RowReady(tables, n, via)
    ensures row.Keys == tables[n].Keys
  {
    map t | t in tables[n] :: BestVia(tables, n, t, via)
  }

  /** The tables after one synchronous round over `topo`. */
  ghost function Refreshed(topo: Topology, tables: Tables): (r: Tables)
    requires RefreshReady(topo, tables)
    ensures r.Keys == tables.Keys
    ensures forall n :: n in r ==> r[n].Keys == tables[n].Keys
  {
    map n | n in tables :: if n in topo then RefreshedRow(tables, n, topo[n].Keys) else tables[n]
  }

  /** A round keeps the tables ready for the next round. */
  lemma RefreshKeepsReady(topo: Topology, tables: Tables)
    requires RefreshReady(topo, tables)
    ensures RefreshReady(topo, Refreshed(topo, tables))
  {
  }

  /** Some entry of `after` is strictly below the same entry of `before`. */
  ghost predicate Decreased(before: Tables, after: Tables)
  {
    exists n, t :: n in before && n in after && t in before[n] && t in after[n] && Less(after[n][t], before[n][t])
  }

  /** Relaxes the table being built for `n` through neighbour `m`, for every destination `m` knows. */
  method RelaxVia(tables: Tables, n: NodeId, m: NodeId, row: Table) returns (relaxed: Table, changed: bool)
    requires n in tables && m in tables && m in tables[n] && tables[m].Keys <= row.Keys
    ensures relaxed.Keys == row.Keys
    ensures forall t :: t in row ==> relaxed[t] == Step(tables, n, m, t, row[t])
    ensures changed <==> exists t :: t in row && Less(relaxed[t], row[t])
  {
    relaxed, changed := row, false;
    var targets := tables[m].Keys;
    while targets != {}
      invariant targets <= tables[m].Keys
      invariant relaxed.Keys == row.Keys
      invariant forall t :: t in row ==>
        relaxed[t] == if t in tables[m] && t !in targets then Step(tables, n, m, t, row[t]) else row[t]
      invariant changed <==> exists t :: t in row && Less(relaxed[t], row[t])
      decreases targets
    {
      var t :| t in targets;
      if tables[n][m] != Inf {
        var alternative := Add(tables[n][m], tables[m][t]);
        if Less(alternative, relaxed[t]) {
          relaxed := relaxed[t := alternative];
          changed := true;
        }
      }
      targets := targets - {t};
    }
  }

  /**
   * A row that only goes down between `before`, `mid` and `after` has gone
   * down somewhere overall exactly when it went down in one of the two steps.
   */
  lemma DecreasedStep(before: Table, mid: Table, after: Table, first: bool, second: bool)
    requires mid.Keys == before.Keys && after.Keys == before.Keys
    requires forall t :: t in mid ==> Le(mid[t], before[t]) && Le(after[t], mid[t])
    requires first <==> exists t :: t in mid && Less(mid[t], before[t])
    requires second <==> exists t :: t in mid && Less(after[t], mid[t])
    ensures (first || second) <==> exists t :: t in after && Less(after[t], before[t])
  {
    if first {
      var t :| t in mid && Less(mid[t], before[t]);
      assert t in after && Less(after[t], before[t]);
    } else if second {
      var t :| t in mid && Less(after[t], mid[t]);
      assert t in after && Less(after[t], before[t]);
    }
    if exists t :: t in after && Less(after[t], before[t]) {
      var t :| t in after && Less(after[t], before[t]);
      assert Less(mid[t], before[t]) || Less(after[t], mid[t]);
    }
  }

  /** Relaxing the row built from `done` through `m` builds the row from `done + {m}`; no entry rises. */
  lemma RelaxRowStep(tables: Tables, n: NodeId, done: set<NodeId>, m: NodeId, row: Table, relaxed: Table)
    requires RowReady(tables, n, done + {m})
    requires row == RefreshedRow(tables, n, done)
    requires relaxed.Keys == row.Keys && forall t :: t in row ==> relaxed[t] == Step(tables, n, m, t, row[t])
    ensures relaxed == RefreshedRow(tables, n, done + {m})
    ensures forall t :: t in row ==> Le(row[t], tables[n][t]) && Le(relaxed[t], row[t])
  {
    forall t | t in relaxed ensures relaxed[t] == BestVia(tables, n, t, done + {m}) {
      BestViaInsert(tables, n, t, done, m);
    }
  }

  /** Relaxes node `n`'s table through each of its neighbours in turn. */
  method RelaxRow(tables: Tables, n: NodeId, neighbours: set<NodeId>) returns (row: Table, changed: bool)
    requires RowReady(tables, n, neighbours)
    ensures row == RefreshedRow(tables, n, neighbours)
    ensures changed <==> exists t :: t in row && Less(row[t], tables[n][t])
  {
    row, changed := tables[n], false;
    var done: set<NodeId> := {};
    var pending := neighbours;
    while pending != {}
      invariant done + pending == neighbours && done !! pending
      invariant row == RefreshedRow(tables, n, done)
      invariant changed <==> exists t :: t in row && Less(row[t], tables[n][t])
      decreases pending
    {
      var m :| m in pending;
      var relaxed, c := RelaxVia(tables, n, m, row);
      RelaxRowStep(tables, n, done, m, row, relaxed);
      DecreasedStep(tables[n], row, relaxed, changed, c);
      row, changed := relaxed, changed || c;
      done, pending := done + {m}, pending - {m};
    }
  }

  /** Replacing an untouched row adds exactly that row's decreases to `Decreased`. */
  lemma DecreasedRow(before: Tables, updated: Tables, n: NodeId, row: Table)
    requires updated.Keys == before.Keys && n in before && updated[n] == before[n]
    ensures Decreased(before, updated[n := row]) <==>
      Decreased(before, updated) || exists t :: t in row && t in before[n] && Less(row[t], before[n][t])
  {
    if Decreased(before, updated[n := row]) {
      var k, t :| k in before && k in updated[n := row] && t in before[k] && t in updated[n := row][k]
        && Less(updated[n := row][k][t], before[k][t]);
      if k != n {
        assert Less(updated[k][t], before[k][t]);
      }
    }
    if Decreased(before, updated) {
      var k, t :| k in before && k in updated && t in before[k] && t in updated[k] && Less(updated[k][t], before[k][t]);
      assert k != n;
      assert Less(updated[n := row][k][t], before[k][t]);
    }
    if exists t :: t in row && t in before[n] && Less(row[t], before[n][t]) {
      var t :| t in row && t in before[n] && Less(row[t], before[n][t]);
      assert Less(updated[n := row][n][t], before[n][t]);
    }
  }

  /** The tables part-way through a round: the nodes in `pending` not yet relaxed, the others relaxed. */
  ghost function PartlyRefreshed(topo: Topology, tables: Tables, pending: set<NodeId>): (r: Tables)
    requires RefreshReady(topo, tables)
    ensures r.Keys == tables.Keys
  {
    map n | n in tables :: if n in topo && n !in pending then RefreshedRow(tables, n, topo[n].Keys) else tables[n]
  }

  /** Before any node is relaxed, the tables are the input. */
  lemma PartlyRefreshedNone(topo: Topology, tables: Tables)
    requires RefreshReady(topo, tables)
    ensures PartlyRefreshed(topo, tables, topo.Keys) == tables
  {
  }

  /** Relaxing one more node replaces its row alone. */
  lemma PartlyRefreshedStep(topo: Topology, tables: Tables, pending: set<NodeId>, n: NodeId)
    requires RefreshReady(topo, tables) && n in topo && n in pending
    ensures n in tables && PartlyRefreshed(topo, tables, pending)[n] == tables[n]
    ensures PartlyRefreshed(topo, tables, pending - {n}) ==
      PartlyRefreshed(topo, tables, pending)[n := RefreshedRow(tables, n, topo[n].Keys)]
  {
  }

  /** Once every node of `topo` is relaxed, the round is complete. */
  lemma PartlyRefreshedAll(topo: Topology, tables: Tables)
    requires RefreshReady(topo, tables)
    ensures PartlyRefreshed(topo, tables, {}) == Refreshed(topo, tables)
  {
  }

  /**
   * One round: every node is relaxed through every neighbour against the
   * unmodified input tables, writing into a copy; `changed` reports whether
   * any entry went down.
   */
  method RefreshDistanceTables(topo: Topology, tables: Tables) returns (updated: Tables, changed: bool)
    requires RefreshReady(topo, tables)
    ensures updated == Refreshed(topo, tables)
    ensures changed == Decreased(tables, updated)
  {
    updated, changed := tables, false;
    var pending := topo.Keys;
    PartlyRefreshedNone(topo, tables);
    while pending != {}
      invariant pending <= topo.Keys
      invariant updated == PartlyRefreshed(topo, tables, pending)
      invariant changed == Decreased(tables, updated)
      decreases pending
    {
      var n :| n in pending;
      var row, c := RelaxRow(tables, n, topo[n].Keys);
      PartlyRefreshedStep(topo, tables, pending, n);
      DecreasedRow(tables, updated, n, row);
      updated := updated[n := row];
      changed := changed || c;
      pending := pending - {n};
    }
    PartlyRefreshedAll(topo, tables);
  }

  // ---------------------------------------------------------------------
  // Properties of one round
  // ---------------------------------------------------------------------

  /**
   * Each refreshed entry of a relaxed node is the minimum of its old value
   * and of every viable candidate through a neighbour, and no other value
   * has that property: the round is independent of iteration order.
   */
  lemma RefreshIsMinimum(topo: Topology, tables: Tables, n: NodeId, t: NodeId, v: Dist)
    requires RefreshReady(topo, tables) && n in topo && t in tables[n]
    ensures IsBest(Refreshed(topo, tables)[n][t], tables, n, t, topo[n].Keys)
    ensures IsBest(v, tables, n, t, topo[n].Keys) ==> v == Refreshed(topo, tables)[n][t]
  {
    BestViaIsBest(tables, n, t, topo[n].Keys);
    if IsBest(v, tables, n, t, topo[n].Keys) {
      BestIsUnique(tables, n, t, topo[n].Keys, v, Refreshed(topo, tables)[n][t]);
    }
  }

  /** Rows of nodes outside the topology are copied unchanged. */
  lemma RefreshKeepsOtherRows(topo: Topology, tables: Tables, n: NodeId)
    requires RefreshReady(topo, tables) && n in tables && n !in topo
    ensures Refreshed(topo, tables)[n] == tables[n]
  {
  }

  /** Every entry of `before` is also in `after`, and not above it there. */
  ghost predicate NoneAbove(after: Tables, before: Tables)
  {
    forall n, t :: n in before && t in before[n] ==> n in after && t in after[n] && Le(after[n][t], before[n][t])
  }

  /** No entry ever goes up in a round. */
  lemma RefreshNeverIncreases(topo: Topology, tables: Tables)
    requires RefreshReady(topo, tables)
    ensures NoneAbove(Refreshed(topo, tables), tables)
  {
    forall n, t | n in tables && t in tables[n]
      ensures Le(Refreshed(topo, tables)[n][t], tables[n][t])
    {
      if n in topo {
        BestViaIsBest(tables, n, t, topo[n].Keys);
      }
    }
  }

  /** A round that reports no change returns its input: a fixed point. */
  lemma NoChangeIsFixedPoint(topo: Topology, tables: Tables)
    requires RefreshReady(topo, tables)
    ensures !Decreased(tables, Refreshed(topo, tables)) <==> Refreshed(topo, tables) == tables
  {
    var r := Refreshed(topo, tables);
    if !Decreased(tables, r) {
      RefreshNeverIncreases(topo, tables);
      forall n | n in tables ensures r[n] == tables[n] {
        forall t | t in tables[n] ensures r[n][t] == tables[n][t] {
          // Not lower and never higher: by antisymmetry, equal.
          assert !Less(r[n][t], tables[n][t]);
          LessIsNotLe(r[n][t], tables[n][t]);
        }
      }
    }
  }

  /** Every entry is a non-negative distance. */
  ghost predicate AllNonNegative(tables: Tables)
  {
    forall n, t :: n in tables && t in tables[n] ==> NonNegative(tables[n][t])
  }

  /** A round keeps every entry non-negative. */
  lemma RefreshKeepsNonNegative(topo: Topology, tables: Tables)
    requires RefreshReady(topo, tables) && AllNonNegative(tables)
    ensures AllNonNegative(Refreshed(topo, tables))
  {
    var r := Refreshed(topo, tables);
    forall n, t | n in r && t in r[n] ensures NonNegative(r[n][t]) {
      if n in topo {
        BestViaIsBest(tables, n, t, topo[n].Keys);
        if r[n][t] != tables[n][t] {
          var m :| m in topo[n] && Viable(tables, n, m, t) && r[n][t] == Candidate(tables, n, m, t);
        }
      }
    }
  }

  /**
   * With non-negative entries no candidate is below 0, so a round keeps a
   * zero self-distance.
   */
  lemma RefreshKeepsSelfZero(topo: Topology, tables: Tables, n: NodeId)
    requires RefreshReady(topo, tables) && AllNonNegative(tables)
    requires n in tables && n in tables[n] && tables[n][n] == Fin(0)
    ensures Refreshed(topo, tables)[n][n] == Fin(0)
  {
    RefreshNeverIncreases(topo, tables);
    RefreshKeepsNonNegative(topo, tables);
  }

  // ---------------------------------------------------------------------
  // Initial tables are ready for the rounds
  // ---------------------------------------------------------------------

  /**
   * When every neighbour is a node, every round-0 table has exactly the
   * topology's nodes as keys, and the rounds find every key they look up.
   */
  lemma InitialTablesReady(topo: Topology)
    requires Closed(topo)
    ensures forall n :: n in topo ==> InitialTables(topo)[n].Keys == topo.Keys
    ensures RefreshReady(topo, InitialTables(topo))
  {
  }

  /** With non-negative link costs, every round-0 entry is non-negative. */
  lemma InitialTablesNonNegative(topo: Topology)
    requires forall n, m :: n in topo && m in topo[n] ==> topo[n][m] >= 0
    ensures AllNonNegative(InitialTables(topo))
  {
    var tables := InitialTables(topo);
    forall n, t | n in tables && t in tables[n] ensures NonNegative(tables[n][t]) {
      var row := InitialRow(topo, n);
      assert tables[n] == row;
    }
  }

  // ---------------------------------------------------------------------
  // The simulation
  // ---------------------------------------------------------------------

  /**
   * One round over `topo` as a total step on tables: tables a round cannot
   * look up are left alone (the simulator raises a `KeyError` on them; the
   * simulation below never produces them).
   */
  ghost function Round(topo: Topology): Tables -> Tables
  {
    t => if RefreshReady(topo, t) then Refreshed(topo, t) else t
  }

  /** The tables after `k` applications of `step`. */
  ghost function Iterate(step: Tables -> Tables, tables: Tables, k: nat): Tables
    decreases k
  {
    if k == 0 then tables else Iterate(step, step(tables), k - 1)
  }

  /**
   * The outcome of a simulation: the tables returned, how many rounds were
   * run, and whether the last of them reported no change.
   */
  datatype Run = Run(tables: Tables, rounds: nat, converged: bool)

  /**
   * Runs rounds from `tables` until one leaves the tables unchanged (its
   * input is returned) or `budget` rounds have run (the last result is
   * returned). By `NoChangeIsFixedPoint`, a round of `Round(topo)` leaves
   * the tables unchanged exactly when it reports no change.
   */
  ghost function Simulate(step: Tables -> Tables, tables: Tables, budget: nat): (r: Run)
    ensures r.rounds <= budget
    ensures r.converged ==> r.rounds >= 1 && step(r.tables) == r.tables
    ensures !r.converged ==> r.rounds == budget
    decreases budget
  {
    if budget == 0 then Run(tables, 0, false)
    else if step(tables) == tables then Run(tables, 1, true)
    else
      var rest := Simulate(step, step(tables), budget - 1);
      Run(rest.tables, rest.rounds + 1, rest.converged)
  }

  /**
   * One step of the simulation: a step that changes nothing ends it with
   * its input; any other step leaves one round fewer to run on its result.
   */
  lemma SimulateStep(step: Tables -> Tables, tables: Tables, budget: nat)
    ensures budget == 0 ==> Simulate(step, tables, budget).tables == tables
    ensures budget > 0 && step(tables) == tables ==> Simulate(step, tables, budget).tables == tables
    ensures budget > 0 && step(tables) != tables ==>
      Simulate(step, tables, budget).tables == Simulate(step, step(tables), budget - 1).tables
  {
  }

  /** Round `k + 1` is one step after round `k`. */
  lemma {:induction false} IterateShift(step: Tables -> Tables, tables: Tables, k: nat)
    ensures Iterate(step, tables, k + 1) == step(Iterate(step, tables, k))
    decreases k
  {
    if k > 0 {
      IterateShift(step, step(tables), k - 1);
    }
  }

  /**
   * The simulation runs at most `budget` rounds, and all `budget` of them
   * unless it converged; on convergence it returns a fixed point. Either
   * way it returns the tables after the rounds it ran.
   */
  lemma {:induction false} SimulateOutcome(step: Tables -> Tables, tables: Tables, budget: nat)
    ensures Simulate(step, tables, budget).rounds <= budget
    ensures Simulate(step, tables, budget).tables == Iterate(step, tables, Simulate(step, tables, budget).rounds)
    ensures Simulate(step, tables, budget).converged ==>
      Simulate(step, tables, budget).rounds >= 1 &&
      step(Simulate(step, tables, budget).tables) == Simulate(step, tables, budget).tables
    ensures !Simulate(step, tables, budget).converged ==> Simulate(step, tables, budget).rounds == budget
    decreases budget
  {
    if budget > 0 && step(tables) != tables {
      SimulateOutcome(step, step(tables), budget - 1);
    }
  }

  /**
   * Every round the simulation runs changes the tables, except a final one
   * that converged: it stops at the first round that changes nothing.
   */
  lemma {:induction false} SimulateStopsAtFirstFixedPoint(step: Tables -> Tables, tables: Tables, budget: nat, i: nat)
    requires i < Simulate(step, tables, budget).rounds
    ensures Iterate(step, tables, i + 1) != Iterate(step, tables, i) <==>
      !(Simulate(step, tables, budget).converged && i == Simulate(step, tables, budget).rounds - 1)
    decreases budget
  {
    if i == 0 {
      if step(tables) != tables {
        SimulateOutcome(step, step(tables), budget - 1);
      }
    } else {
      SimulateStopsAtFirstFixedPoint(step, step(tables), budget - 1, i - 1);
    }
  }

  /** If no step raises an entry, no entry after `k` steps is above its start. */
  lemma {:induction false} IterateNeverIncreases(step: Tables -> Tables, tables: Tables, k: nat)
    requires forall t :: NoneAbove(step(t), t)
    ensures NoneAbove(Iterate(step, tables, k), tables)
    decreases k
  {
    if k > 0 {
      IterateNeverIncreases(step, step(tables), k - 1);
      assert NoneAbove(step(tables), tables);
    }
  }

  /** If every step keeps a property of the tables, `k` steps keep it. */
  lemma {:induction false} IterateKeeps(step: Tables -> Tables, tables: Tables, k: nat, inv: Tables -> bool)
    requires forall t :: inv(t) ==> inv(step(t))
    requires inv(tables)
    ensures inv(Iterate(step, tables, k))
    decreases k
  {
    if k > 0 {
      IterateKeeps(step, step(tables), k - 1, inv);
    }
  }

  /** If every step keeps a property of the tables, so does the simulation. */
  lemma SimulateKeeps(step: Tables -> Tables, tables: Tables, budget: nat, inv: Tables -> bool)
    requires forall t :: inv(t) ==> inv(step(t))
    requires inv(tables)
    ensures inv(Simulate(step, tables, budget).tables)
  {
    SimulateOutcome(step, tables, budget);
    IterateKeeps(step, tables, Simulate(step, tables, budget).rounds, inv);
  }

  /** If no step raises an entry, no entry of the simulation's result is above its start. */
  lemma SimulateNeverIncreases(step: Tables -> Tables, tables: Tables, budget: nat)
    requires forall t :: NoneAbove(step(t), t)
    ensures NoneAbove(Simulate(step, tables, budget).tables, tables)
  {
    SimulateOutcome(step, tables, budget);
    IterateNeverIncreases(step, tables, Simulate(step, tables, budget).rounds);
  }

  /** Every entry of `tables` from a node to itself is 0. */
  ghost predicate SelfZero(tables: Tables)
  {
    forall n :: n in tables ==> n in tables[n] && tables[n][n] == Fin(0)
  }

  /** The tables have exactly the nodes of `topo` as keys, in every row too. */
  ghost predicate Complete(topo: Topology, tables: Tables)
  {
    tables.Keys == topo.Keys && forall n :: n in tables ==> tables[n].Keys == topo.Keys
  }

  /** Complete tables with non-negative entries and zero self-distances. */
  ghost predicate Settled(topo: Topology, tables: Tables)
  {
    Complete(topo, tables) && AllNonNegative(tables) && SelfZero(tables)
  }

  /** A round never raises an entry. */
  lemma RoundNeverIncreases(topo: Topology)
    ensures forall t :: NoneAbove(Round(topo)(t), t)
  {
    forall t ensures NoneAbove(Round(topo)(t), t) {
      if RefreshReady(topo, t) {
        RefreshNeverIncreases(topo, t);
      }
    }
  }

  /**
   * A round keeps tables complete, their entries non-negative and their
   * self-distances zero.
   */
  lemma RoundKeepsSettled(topo: Topology)
    requires Closed(topo)
    ensures forall t :: Settled(topo, t) ==> Settled(topo, Round(topo)(t))
  {
    forall t | Settled(topo, t) ensures Settled(topo, Round(topo)(t)) {
      assert RefreshReady(topo, t);
      RefreshKeepsNonNegative(topo, t);
      forall n | n in t ensures Refreshed(topo, t)[n][n] == Fin(0) {
        RefreshKeepsSelfZero(topo, t, n);
      }
    }
  }

  /**
   * No entry of the simulation's result is above its round-0 value (in
   * particular no neighbour is above its link cost).
   */
  lemma SimulationNeverIncreases(topo: Topology, budget: nat)
    requires Closed(topo)
    ensures NoneAbove(Simulate(Round(topo), InitialTables(topo), budget).tables, InitialTables(topo))
  {
    RoundNeverIncreases(topo);
    SimulateNeverIncreases(Round(topo), InitialTables(topo), budget);
  }

  /**
   * For a topology with non-negative costs and no self-loop, the result of
   * the simulation has every node as a key, in every row, and distance 0
   * from every node to itself.
   */
  lemma SimulationKeepsSelfZero(topo: Topology, budget: nat)
    requires Closed(topo) && NoSelfLoops(topo)
    requires forall n, m :: n in topo && m in topo[n] ==> topo[n][m] >= 0
    ensures Complete(topo, Simulate(Round(topo), InitialTables(topo), budget).tables)
    ensures SelfZero(Simulate(Round(topo), InitialTables(topo), budget).tables)
    ensures AllNonNegative(Simulate(Round(topo), InitialTables(topo), budget).tables)
  {
    var init := InitialTables(topo);
    InitialTablesReady(topo);
    InitialTablesNonNegative(topo);
    RoundKeepsSettled(topo);
    assert Settled(topo, init);
    SimulateKeeps(Round(topo), init, budget, t => Settled(topo, t));
  }

  /**
   * One round of the simulation, told by what the round computed: a round
   * that changes nothing ends it with its input, any other leaves one round
   * fewer to run on the round's result.
   */
  lemma SimulateRound(step: Tables -> Tables, tables: Tables, next: Tables, budget: nat, rest: nat)
    requires step(tables) == next && budget == rest + 1
    ensures next == tables ==> Simulate(step, tables, budget).tables == tables
    ensures next != tables ==> Simulate(step, tables, budget).tables == Simulate(step, next, rest).tables
  {
  }

  /**
   * The simulation: round-0 tables, then up to `maxCycles` rounds (100 unless
   * given; none when `maxCycles` is not positive), stopping at the first
   * round that reports no change.
   */
  method RunDistanceVectorSimulation(topo: Topology, maxCycles: int := 100) returns (tables: Tables)
    requires Closed(topo)
    ensures tables == Simulate(Round(topo), InitialTables(topo), if maxCycles < 0 then 0 else maxCycles).tables
  {
    tables := CreateInitialTables(topo);
    InitialTablesReady(topo);
    ghost var budget: nat := if maxCycles < 0 then 0 else maxCycles;
    ghost var final := Simulate(Round(topo), tables, budget).tables;
    ghost var remaining := budget;
    var cycle := 0;
    while cycle < maxCycles
      invariant 0 <= cycle <= budget && remaining == budget - cycle
      invariant RefreshReady(topo, tables)
      invariant Simulate(Round(topo), tables, remaining).tables == final
      decreases maxCycles - cycle
    {
      var newTables, hasUpdates := RefreshDistanceTables(topo, tables);
      ghost var rest := remaining - 1;
      NoChangeIsFixedPoint(topo, tables);
      RefreshKeepsReady(topo, tables);
      assert Round(topo)(tables) == newTables;
      SimulateRound(Round(topo), tables, newTables, remaining, rest);
      if !hasUpdates {
        break;
      }
      remaining := rest;
      tables := newTables;
      cycle := cycle + 1;
    }
    SimulateStep(Round(topo), tables, remaining);
  }
}
