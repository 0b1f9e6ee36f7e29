# Distance Vector Routing simulator, modelled in Dafny

This project models the core of a small Distance Vector Routing simulator.

The first part is the table engine in `src/routing.py`:
- it builds one distance table per node from the link costs;
- it runs synchronous Bellman-Ford rounds, in which every node relaxes its table through each neighbour's table from the previous round;
- it repeats rounds until one round changes nothing or the cycle budget is spent.

The second part is the topology source in `src/network_config.py`:
- the built-in eight-node sample network;
- the interactive builder. It reads a node count, then for each node its identifier and link lines `destination,cost` up to the line `fine`. It records every link in both directions.

The modules are:
- `Options`: `Option`.
- `Distances`: a distance is an integer cost or infinity, with saturating addition and the order on distances.
- `Topologies`: a topology is a map from node to (neighbour → cost). The module also defines the shape predicates `Closed`, `Symmetric`, `PositiveCosts` and `NoSelfLoops`.
- `Conversions`: Python's `str.split` and `int()` on text, and the formatting they invert.
- `Routing`: the engine.
  - Each source loop is a method with loop invariants.
  - Each method is proved equal to a specification function.
  - `Refreshed` is the round function and `Simulate` is the run.
  - The properties of those functions are proved as lemmas.
- `ShortestPaths`: what the tables mean. After any number of rounds, every finite entry is the cost of a walk between its two nodes. When the simulation converges on a topology with non-negative costs and no self-loop, no walk costs less than its entry.
- `NetworkConfig`: the sample topology and the builder.
  - The console is the sequence of lines typed.
  - The builder's two loops are the methods `ReadNodeBlocks` and `ReadLinks`.
  - Each is proved equal to the functions `ReadNodes` and `ApplyLines`.
  - The outcome is a value: `Built`, `BadNodeCount` (the `ValueError` of the count line) or `EndOfInput` (the `EOFError` when the lines run out).

The refresh visits neighbours in an arbitrary order, picked with `:|`. `BestViaInsert` and `RefreshIsMinimum` prove that the result does not depend on that order.

## Model

| member | source | states |
|---|---|---|
| Distances.Add | src/routing.py:49 | a path cost is infinite exactly when one of its two legs is, and is otherwise the sum of the legs |
| Distances.Less | src/routing.py:51 | the update test `<` is `<=` without equality: only a finite cost can be less, and infinity is never less than infinity |
| Distances.LessIsNotLe | src/routing.py:51 | the strict comparison used for updates is the strict part of a total order in which infinity is above every cost |
| Routing.InitialRow | src/routing.py:19-24 | a node's round-0 table covers the nodes and its neighbours; each neighbour has its link cost; the node itself has 0 unless it has a self-loop; every other node is infinite |
| Routing.InitialTables | src/routing.py:18-25 | there is one initial table per node of the topology |
| Routing.CreateInitialTables | src/routing.py:8-25 | the loop over nodes produces exactly the round-0 tables |
| Routing.CreateInitialRow | src/routing.py:21-24 | the per-node loop (infinity everywhere, then 0 to self, then each link) produces exactly that node's round-0 table |
| Routing.InitialTablesReady | src/routing.py:19-24 | when every neighbour is a node, every initial table has exactly the topology's nodes as keys, so a refresh can read every table it needs |
| Routing.InitialTablesNonNegative | src/routing.py:21-24 | with non-negative link costs, every initial entry is non-negative |
| Routing.Relax | src/routing.py:51-52 | an update keeps the smaller of the current entry and the candidate |
| Routing.Viable | src/routing.py:48 | a neighbour offers a route to a destination when the node's entry for that neighbour is finite and the destination is in the neighbour's table; what this allows is stated by `Step` |
| Routing.Candidate | src/routing.py:49 | the cost of the route through a neighbour: the node's entry for the neighbour plus the neighbour's entry for the destination, infinite when either is (by `Add`) |
| Routing.Step | src/routing.py:48-52 | considering one neighbour for one destination never raises the entry and brings it down to the candidate through a viable neighbour; the result is either the old entry or that candidate |
| Routing.BestVia | src/routing.py:45-52 | relaxing an entry through a set of neighbours, one at a time, never raises it; `BestViaIsBest` proves it is the minimum over them |
| Routing.StepKeepsBest | src/routing.py:46-52 | relaxing through one more neighbour turns the best value over the neighbours seen so far into the best value over them and that neighbour |
| Routing.BestViaIsBest | src/routing.py:45-52 | relaxing through a set of neighbours, one at a time, gives the minimum of the old entry and every finite candidate `old[N][M] + old[M][T]` |
| Routing.BestIsUnique | src/routing.py:45-52 | that minimum is unique |
| Routing.BestViaInsert | src/routing.py:45-52 | the result does not depend on the order in which neighbours are visited: adding a neighbour last gives the same value as any other order |
| Routing.RelaxVia | src/routing.py:46-53 | the loop over one neighbour's table relaxes every destination against that neighbour's previous-round entry; it reports a change exactly when some entry strictly decreased |
| Routing.RelaxRowStep | src/routing.py:45-52 | relaxing the table built from some neighbours through one more neighbour gives the table built from all of them, and no entry rises |
| Routing.RelaxRow | src/routing.py:45-53 | the loop over a node's neighbours yields that node's refreshed table; it reports a change exactly when some entry strictly decreased |
| Routing.DecreasedRow | src/routing.py:53 | the round's change flag, gathered node by node, is true exactly when some entry of some table strictly decreased |
| Routing.RefreshDistanceTables | src/routing.py:30-55 | one round returns the refreshed tables, computed from an unmodified snapshot; `changed` is true exactly when some entry strictly decreased |
| Routing.RefreshedRow | src/routing.py:42-52 | a refreshed table has the same destinations as before |
| Routing.Refreshed | src/routing.py:42-52 | a round keeps the same nodes, and each table keeps the same destinations |
| Routing.RefreshKeepsReady | src/routing.py:42-52 | a refreshed set of tables can be refreshed again |
| Routing.RefreshIsMinimum | src/routing.py:45-52 | each refreshed entry is the minimum of the old entry and the candidates through the neighbours whose old entry is finite, and no other value is |
| Routing.RefreshKeepsOtherRows | src/routing.py:42-44 | the table of a node outside the topology is copied unchanged |
| Routing.RefreshNeverIncreases | src/routing.py:42-52 | no entry ever increases in a round |
| Routing.NoChangeIsFixedPoint | src/routing.py:41-53 | a round reports no change exactly when its result equals its input |
| Routing.RefreshKeepsNonNegative | src/routing.py:49-52 | non-negative tables stay non-negative |
| Routing.RefreshKeepsSelfZero | src/routing.py:22-51 | with non-negative entries, a distance of 0 from a node to itself stays 0 |
| Routing.Round | src/routing.py:79 | one call of the refresh, as a step on tables; `RoundNeverIncreases`, `RoundKeepsSettled` and the `ShortestPaths` lemmas state what it preserves |
| Routing.Simulate | src/routing.py:72-94 | a run performs at most `max_cycles` rounds, and all of them unless it converged; when it converged, it ran at least one round and its result is a fixed point of the round |
| Routing.SimulateStep | src/routing.py:77-88 | a run with no budget returns its tables; a round that changes nothing ends the run; otherwise the run continues from the new tables with one cycle fewer |
| Routing.SimulateRound | src/routing.py:79-88 | one cycle of the loop: stop on a round without change, or continue from that round's result |
| Routing.IterateShift | src/routing.py:77-88 | the tables after k+1 rounds are one round applied to the tables after k rounds |
| Routing.SimulateOutcome | src/routing.py:72-94 | a run performs at most `max_cycles` rounds and returns the tables after those rounds; if it converged, it performed at least one round and its result is a fixed point; otherwise it used the whole budget |
| Routing.SimulateStopsAtFirstFixedPoint | src/routing.py:82-86 | every round before the last one changed the tables; the last one changed nothing exactly when the run converged |
| Routing.IterateNeverIncreases | src/routing.py:51-88 | with a round that never increases entries, no number of rounds increases any entry |
| Routing.IterateKeeps | src/routing.py:77-88 | a property every round preserves holds after any number of rounds |
| Routing.SimulateKeeps | src/routing.py:77-94 | a property every round preserves holds for the tables a run returns |
| Routing.SimulateNeverIncreases | src/routing.py:77-94 | the tables a run returns are nowhere above its starting tables |
| Routing.RoundNeverIncreases | src/routing.py:42-52 | the engine's round never increases any entry, on any tables |
| Routing.RoundKeepsSettled | src/routing.py:22-53 | the engine's round preserves complete, non-negative tables with 0 from each node to itself |
| Routing.SimulationNeverIncreases | src/routing.py:72-94 | the simulation's result is nowhere above the initial tables |
| Routing.SimulationKeepsSelfZero | src/routing.py:22-94 | on a topology without self-loops and with non-negative costs, the simulation's result has a table for every node over every node, non-negative entries, and 0 from each node to itself |
| Routing.RunDistanceVectorSimulation | src/routing.py:60-94 | the simulation loop returns the tables of the run from the initial tables, with a budget of `max_cycles` rounds (100 when not given; none when it is not positive) |
| ShortestPaths.WalkJoin | src/routing.py:49 | a walk to a neighbour followed by a walk from it is a walk, and its cost is the sum of theirs: the route a relaxation adds up |
| ShortestPaths.InitialTablesRealized | src/routing.py:19-24 | every finite initial entry is the cost of a walk: 0 for the node itself, the link cost for a neighbour |
| ShortestPaths.InitialTablesWithinLinks | src/routing.py:23-24 | initially, no neighbour's entry is above the cost of the link to it |
| ShortestPaths.JoinRealized | src/routing.py:49 | when both legs of a candidate are costs of walks, so is the candidate |
| ShortestPaths.RefreshedEntryRealized | src/routing.py:44-52 | if every finite entry is the cost of a walk, each entry after a round is too |
| ShortestPaths.RefreshKeepsRealized | src/routing.py:30-55 | a round keeps every finite entry the cost of a walk between its two nodes |
| ShortestPaths.RoundKeepsRealized | src/routing.py:79 | so does the engine's round, on any tables |
| ShortestPaths.RoundKeepsWithinLinks | src/routing.py:42-52 | a round keeps every neighbour's entry at or below the cost of the link to it |
| ShortestPaths.RoundKeepsReady | src/routing.py:79 | a round keeps the tables readable by the next round |
| ShortestPaths.FixedPointHasNoShortcut | src/routing.py:44-53 | on tables a round does not change, no entry is above the route through a neighbour whose entry is finite |
| ShortestPaths.LinkThenEntry | src/routing.py:49-51 | on such tables, a link to a neighbour followed by an entry of the neighbour bounds the node's entry |
| ShortestPaths.NoShortcutBelowWalks | src/routing.py:44-53 | on complete tables with 0 from each node to itself, within link costs and without a shortcut, every entry is at most the cost of every walk |
| ShortestPaths.SimulationEntriesAreWalks | src/routing.py:72-94 | after any number of rounds, every finite entry the simulation returns is the cost of a walk between its two nodes |
| ShortestPaths.UnreachableStaysInfinite | src/routing.py:72-94 | a destination no walk reaches stays infinite in the result |
| ShortestPaths.SimulationWithinLinks | src/routing.py:72-94 | no neighbour's entry in the result is above the cost of the link to it |
| ShortestPaths.ConvergedIsFixedPoint | src/routing.py:82-86 | a run that stopped on a round without change returns tables the refresh leaves unchanged |
| ShortestPaths.ConvergedHasNoShortcut | src/routing.py:72-94 | on a topology with non-negative costs and no self-loop, a converged result is complete, 0 on the diagonal, within link costs and without a shortcut |
| ShortestPaths.ConvergedIsShortest | src/routing.py:72-94 | on such a topology, each entry of a converged result is at most the cost of every walk between its nodes; with `SimulationEntriesAreWalks`, it is the cost of the cheapest walk |
| Conversions.Split | src/network_config.py:43 | splitting yields at least one piece |
| Conversions.SplitJoin | src/network_config.py:43 | splitting on a separator loses nothing: joining the pieces gives back the line, and no piece holds the separator |
| Conversions.SplitNone | src/network_config.py:43 | a line without a comma is one piece |
| Conversions.SplitOnce | src/network_config.py:43 | a line with exactly one comma splits into the text before it and the text after it |
| Conversions.SplitTwoPieces | src/network_config.py:43 | a line splits into exactly two pieces only if it has exactly one comma |
| Conversions.TrimStart | src/network_config.py:44 | `int()` drops exactly the leading whitespace it skips: space, and tab to carriage return |
| Conversions.TrimEnd | src/network_config.py:44 | `int()` drops exactly the trailing whitespace it skips: space, and tab to carriage return |
| Conversions.ParseInt | src/network_config.py:44 | `int()` (also used on the count line, line 27) reads a number only when the text, stripped of that whitespace, ends in a digit, and a negative number only when it starts with `-` |
| Conversions.ParseIntSkipsSpaces | src/network_config.py:44 | for any decimal digit text, `int()` skips a space before it and a newline after it and reads the digits' value |
| Conversions.ParseIntRefusesSeparator | src/network_config.py:44 | a file separator (code 28) before the digits is refused, as `int()` refuses it |
| Conversions.NatToDigits | src/network_config.py:44 | a natural number is written with decimal digits only; the source never formats a number, and this is the writer the `int()` round trip is stated against |
| Conversions.FormatInt | src/network_config.py:44 | a written integer is not empty and holds no comma; the source never formats a number, and this is the writer the `int()` and link-line round trips are stated against |
| Conversions.DigitsRoundTrip | src/network_config.py:44 | reading the decimal digits of a number gives the number back |
| Conversions.ParseFormatRoundTrip | src/network_config.py:27-44 | `int()` reads every integer back from its decimal text |
| Topologies.Cost | src/network_config.py:45-49 | a link is present exactly when its source is a node with that neighbour |
| NetworkConfig.SampleLinksAB | src/network_config.py:2-3 | the links of A and B are positive, are not self-loops, and are declared back with the same cost |
| NetworkConfig.SampleLinksCD | src/network_config.py:4-5 | the same for C and D |
| NetworkConfig.SampleLinksEF | src/network_config.py:6-7 | the same for E and F |
| NetworkConfig.SampleLinksGH | src/network_config.py:8-9 | the same for G and H |
| NetworkConfig.SampleIsWellFormed | src/network_config.py:1-10 | the sample network has nodes A to H; every neighbour is a node; it is symmetric, has positive costs and no self-loops |
| NetworkConfig.ParseLink | src/network_config.py:43-44 | reads a link line; what it accepts is stated by `ParseLinkAtComma`, `ParseLinkNeedsOneComma` and `ParseLinkRoundTrip` |
| NetworkConfig.ParseLinkAtComma | src/network_config.py:43-44 | a line with one comma reads as the text before it and the integer after it, or is rejected when that integer is malformed |
| NetworkConfig.ParseLinkNeedsOneComma | src/network_config.py:43 | a line is accepted only if it has exactly one comma |
| NetworkConfig.ParseLinkRoundTrip | src/network_config.py:43-44 | every destination without a comma and every integer cost, written `destination,cost`, is read back as that link |
| NetworkConfig.AddLink | src/network_config.py:45-49 | recording a link sets its cost in both directions and adds the destination as a node; every other link is unchanged, so re-entering a link overwrites its cost both ways |
| NetworkConfig.AddLinkKeepsShape | src/network_config.py:45-49 | recording a link keeps every neighbour a node, and keeps a symmetric topology symmetric |
| NetworkConfig.ApplyLine | src/network_config.py:41-51 | a link line never removes a node |
| NetworkConfig.ApplyLineEffect | src/network_config.py:41-51 | a malformed line leaves the topology unchanged; a well-formed one records exactly that link, both ways |
| NetworkConfig.ApplyLineKeepsShape | src/network_config.py:41-51 | a link line keeps every neighbour a node, and keeps a symmetric topology symmetric |
| NetworkConfig.ApplyLines | src/network_config.py:36-51 | a run of link lines never removes a node |
| NetworkConfig.ApplyLinesKeepsShape | src/network_config.py:36-51 | a run of link lines keeps every neighbour a node, and keeps a symmetric topology symmetric |
| NetworkConfig.DeclareNode | src/network_config.py:32 | declaring a node empties its links, whatever was recorded for it, and leaves the other nodes alone |
| NetworkConfig.DeclareNodeKeepingLinks | src/network_config.py:32 | the corrected declaration adds a new node with no links and changes no link |
| NetworkConfig.Declare | src/network_config.py:32 | a declaration changes the declared node's links alone: as written it empties them; the corrected one keeps an existing node's links and gives a new node none |
| NetworkConfig.DeclareKeepsShape | src/network_config.py:32 | both declarations keep every neighbour a node; only the corrected one keeps symmetry |
| NetworkConfig.FindEnd | src/network_config.py:36-39 | a node's link lines end at a line `fine` |
| NetworkConfig.FindEndIsFirst | src/network_config.py:36-39 | they end at the first `fine`, and there is no end when no `fine` follows |
| NetworkConfig.LinkLoopStep | src/network_config.py:38-39 | a line other than `fine` does not end the link lines |
| NetworkConfig.ReadLinks | src/network_config.py:36-51 | the link loop stops at the first `fine` (or at the end of the lines) and applies every line before it, in order |
| NetworkConfig.ReadBlock | src/network_config.py:31-51 | reading one node moves forward through the lines and stops within them |
| NetworkConfig.ReadBlockEnds | src/network_config.py:31-39 | a node is read exactly when its identifier line exists and a `fine` follows it; reading resumes just after the first such `fine` |
| NetworkConfig.ReadBlockDeclares | src/network_config.py:31-32 | reading one node declares its identifier, which becomes a node, and removes no node |
| NetworkConfig.ReadBlockKeepsShape | src/network_config.py:31-51 | reading one node keeps every neighbour a node; with the corrected declaration it keeps symmetry |
| NetworkConfig.ReadBlockAt | src/network_config.py:31-51 | reading one node whose links end at a given `fine` declares it and applies the lines up to that `fine` |
| NetworkConfig.ReadNodes | src/network_config.py:30-51 | reading nodes only moves forward through the lines and only appends to the identifiers read |
| NetworkConfig.ReadNodesStep | src/network_config.py:30 | reading k+1 nodes is reading one node, then k more; it fails when that first node fails |
| NetworkConfig.ReadNodesDeclares | src/network_config.py:27-30 | reading `count` nodes declares exactly `count` identifiers |
| NetworkConfig.ReadNodesAddsNodes | src/network_config.py:30-32 | every identifier read is a node of the topology |
| NetworkConfig.ReadNodesKeepsShape | src/network_config.py:30-51 | reading nodes keeps every neighbour a node; with the corrected declaration it keeps symmetry |
| NetworkConfig.ReadNodeBlocks | src/network_config.py:30-51 | the loop over nodes yields exactly what reading `count` nodes from the lines gives, and fails when the lines run out |
| NetworkConfig.Build | src/network_config.py:15-53 | the dialogue fails on the count line exactly when there is one and `int()` refuses it; a completed build read a valid count |
| NetworkConfig.BuildDeclaresEveryNode | src/network_config.py:27-32 | a completed build read a valid count and declared that many identifiers (none when it is negative); every one is a node, and every neighbour is a node |
| NetworkConfig.BuildCustomTopology | src/network_config.py:15-53 | the builder yields exactly the outcome of the dialogue; a built topology has every neighbour as a node and as many declarations as the count says |
| NetworkConfig.KeepingLinksBuildsSymmetric | src/network_config.py:45-49 | with the corrected declaration, every built topology is symmetric and every neighbour is a node |
| NetworkConfig.BuildSymmetricTopology | src/network_config.py:15-53 | the corrected builder yields the outcome of the dialogue, and a topology it builds is symmetric |
| NetworkConfig.RedeclaringTyped | src/network_config.py:27-39 | the dialogue `2 / A / B,1 / fine / B / fine` has the shape the finding needs |
| NetworkConfig.RedeclaringLines | src/network_config.py:27-44 | that dialogue reads as count 2, link `B` with cost 1, and the two `fine` lines |
| NetworkConfig.RedeclaringAddLink | src/network_config.py:45-49 | the link line of `A` records `A -- B` both ways |
| NetworkConfig.RedeclaringFirstBlock | src/network_config.py:31-49 | the first node of that dialogue gives `A -- B` with either declaration |
| NetworkConfig.RedeclaringSecondBlock | src/network_config.py:31-32 | declaring `B` again wipes `B -> A` as written, and changes nothing when links are kept |
| NetworkConfig.RedeclaringBuilds | src/network_config.py:15-53 | the whole dialogue builds `A -> B` alone as written, and `A -- B` when links are kept |
| NetworkConfig.RedeclarationBreaksSymmetry | src/network_config.py:32-49 | on that dialogue the builder as written returns a topology that is not symmetric; the corrected one returns the undirected link |

## Left out

- Printing is not modelled: `display_routing_tables`, `display_network_structure`, the messages in the simulation loop, and the message printed for a malformed link line.
- `time.sleep` between cycles is not modelled. It only paces the display.
- `select_network_mode` (`src/network_config.py:70-89`) is not modelled. It is a menu choice between the sample and the builder. `src/main.py` only wires the two parts together.
- `float('inf')` and float arithmetic are not modelled. Every cost is an integer, so distances are the integers extended with `Inf`, with saturating addition.
- Link costs are any integers, since the builder accepts negative costs. The self-distance and non-negativity results assume non-negative costs.
- Python dictionaries are modelled as maps. Their insertion order matters only for printing. The order of the refresh loops is shown not to matter.
- `copy.deepcopy` is not modelled as a library call. It is value semantics: a round builds new tables from the unchanged snapshot.
- Routing.RunDistanceVectorSimulation: it requires every neighbour to be a node. On other topologies the source raises `KeyError` when it reads a neighbour's table. That exception is not modelled.
- Routing.RunDistanceVectorSimulation: it returns only the final tables, as the code does. It does not also return whether the run converged or how many rounds it took. Those two facts are stated about `Simulate`, by `SimulateOutcome`.
- The concrete distances of the sample network and the number of rounds it needs are not computed. `ShortestPaths.ConvergedIsShortest` covers them in general.
- ShortestPaths.ConvergedIsShortest: it assumes non-negative costs and no self-loop, and a run that converged. With a negative cost the simulator can run out of cycles, and then its tables are only known to be costs of walks (`SimulationEntriesAreWalks`), not the cheapest ones.
- Conversions.ParseInt: it skips only the space and the characters tab to carriage return, and accepts only ASCII decimal digits, with an optional sign and single underscores between digits. Python's `int()` also accepts other Unicode digits and spaces, and refuses texts longer than 4300 digits. Neither of those is modelled.
- Exceptions are not modelled as control flow. The `ValueError` of the count line is the outcome `BadNodeCount`. Running out of console lines (`EOFError`) is `EndOfInput`. A malformed link line is skipped, as the `except ValueError` does.

## Findings

| source | as written | input that shows it | evidently intended | confidence | as-written member | corrected member |
|---|---|---|---|---|---|---|
| src/network_config.py:32 | declaring a node sets its links to an empty map, even when an earlier node already linked to it, so the earlier link survives in one direction only | the lines `2`, `A`, `B,1`, `fine`, `B`, `fine`: the result is `A -> B` with cost 1 and `B` with no links | links are undirected (lines 46-49 record both directions), so declaring a node should create its map only when it is new, and the topology should stay symmetric | high, not executed | NetworkConfig.RedeclarationBreaksSymmetry | NetworkConfig.BuildSymmetricTopology |
