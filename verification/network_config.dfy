/**
 * Where topologies come from: the built-in sample network and the
 * interactive builder, which reads a node count, then for every node its
 * identifier followed by link lines `destination,cost` up to a line `fine`,
 * and records every link in both directions.
 *
 * The console is modelled as the sequence of lines the user types, in
 * order; running out of lines is Python's uncaught `EOFError`.
 */
module NetworkConfig {
  import opened Options
  import opened Topologies
  import opened Conversions

  /** The eight-node network shipped with the simulator. */
  const SampleTopology: Topology := map[
    "A" := map["B" := 2, "C" := 5],
    "B" := map["A" := 2, "C" := 3, "D" := 1],
    "C" := map["A" := 5, "B" := 3, "E" := 7],
    "D" := map["B" := 1, "E" := 4, "F" := 8],
    "E" := map["C" := 7, "D" := 4, "G" := 2],
    "F" := map["D" := 8, "G" := 6, "H" := 3],
    "G" := map["E" := 2, "F" := 6, "H" := 1],
    "H" := map["F" := 3, "G" := 1]
  ]

  /** The links of node `n` are positive, not to itself, and declared back with the same cost. */
  ghost predicate LinksReturn(topo: Topology, n: NodeId)
    requires n in topo
  {
    forall m :: m in topo[n] ==> m in topo && n in topo[m] && topo[m][n] == topo[n][m] && topo[n][m] > 0 && n != m
  }

  lemma SampleLinksAB(n: NodeId)
    requires n == "A" || n == "B"
    ensures n in SampleTopology && LinksReturn(SampleTopology, n)
  {
    var s := SampleTopology;
    if n == "A" { assert s[n].Keys == {"B", "C"}; }
    else { assert s[n].Keys == {"A", "C", "D"}; }
  }

  lemma SampleLinksCD(n: NodeId)
    requires n == "C" || n == "D"
    ensures n in SampleTopology && LinksReturn(SampleTopology, n)
  {
    var s := SampleTopology;
    if n == "C" { assert s[n].Keys == {"A", "B", "E"}; }
    else { assert s[n].Keys == {"B", "E", "F"}; }
  }

  lemma SampleLinksEF(n: NodeId)
    requires n == "E" || n == "F"
    ensures n in SampleTopology && LinksReturn(SampleTopology, n)
  {
    var s := SampleTopology;
    if n == "E" { assert s[n].Keys == {"C", "D", "G"}; }
    else { assert s[n].Keys == {"D", "G", "H"}; }
  }

  lemma SampleLinksGH(n: NodeId)
    requires n == "G" || n == "H"
    ensures n in SampleTopology && LinksReturn(SampleTopology, n)
  {
    var s := SampleTopology;
    if n == "G" { assert s[n].Keys == {"E", "F", "H"}; }
    else { assert s[n].Keys == {"F", "G"}; }
  }

  /** The sample network is undirected, closed, loop-free and has positive costs. */
  lemma SampleIsWellFormed()
    ensures Closed(SampleTopology) && Symmetric(SampleTopology)
    ensures PositiveCosts(SampleTopology) && NoSelfLoops(SampleTopology)
    ensures SampleTopology.Keys == {"A", "B", "C", "D", "E", "F", "G", "H"}
  {
    forall n | n in SampleTopology ensures LinksReturn(SampleTopology, n) {
      if n == "A" || n == "B" {
        SampleLinksAB(n);
      } else if n == "C" || n == "D" {
        SampleLinksCD(n);
      } else if n == "E" || n == "F" {
        SampleLinksEF(n);
      } else {
        SampleLinksGH(n);
      }
    }
  }

  // ---------------------------------------------------------------------
  // One link line
  // ---------------------------------------------------------------------

  /**
   * A link line `destination,cost`: exactly one comma, and a cost `int`
   * accepts. `None` where Python raises the `ValueError` the builder catches.
   */
  function ParseLink(line: string): Option<(NodeId, int)>
  {
    var parts := Split(line, ',');
    if |parts| != 2 then None
    else match ParseInt(parts[1])
      case None => None
      case Some(c) => Some((parts[0], c))
  }

  /** A line with a single comma names the text before it and costs the number after it. */
  lemma ParseLinkAtComma(line: string, k: int)
    requires OnlyAt(line, ',', k)
    ensures ParseLink(line) == if ParseInt(line[k + 1..]).Some? then Some((line[..k], ParseInt(line[k + 1..]).value)) else None
  {
    SplitOnce(line, ',', k);
  }

  /** A line is accepted only when it holds exactly one comma. */
  lemma ParseLinkNeedsOneComma(line: string)
    requires ParseLink(line).Some?
    ensures exists k :: OnlyAt(line, ',', k)
  {
    SplitTwoPieces(line, ',');
  }

  /** A name and a text without commas, joined by one comma, have that comma as their only one. */
  lemma JoinedAtComma(d: string, rest: string)
    requires ',' !in d && ',' !in rest
    ensures OnlyAt(d + "," + rest, ',', |d|)
    ensures (d + "," + rest)[..|d|] == d && (d + "," + rest)[|d| + 1..] == rest
  {
    var line := d + "," + rest;
    forall j | 0 <= j < |line| && j != |d| ensures line[j] != ',' {
      if j > |d| {
        assert line[j] == rest[j - |d| - 1];
      }
    }
    assert line[..|d|] == d;
    assert line[|d| + 1..] == rest;
  }

  /** Every link the program would write back as text is read as that link. */
  lemma ParseLinkRoundTrip(d: NodeId, c: int)
    requires ',' !in d
    ensures ParseLink(d + "," + FormatInt(c)) == Some((d, c))
  {
    JoinedAtComma(d, FormatInt(c));
    ParseLinkAtComma(d + "," + FormatInt(c), |d|);
    ParseFormatRoundTrip(c);
  }

  /**
   * Records the link `n -- d` of cost `c` in both directions, creating `d`
   * when it is not a node yet.
   */
  function AddLink(topo: Topology, n: NodeId, d: NodeId, c: int): (r: Topology)
    requires n in topo
    ensures r.Keys == topo.Keys + {d}
    ensures Cost(r, n, d) == Some(c) && Cost(r, d, n) == Some(c)
    ensures forall x, y :: !(x == n && y == d) && !(x == d && y == n) ==> Cost(r, x, y) == Cost(topo, x, y)
  {
    var forward := topo[n := topo[n][d := c]];
    var withDestination := if d in forward then forward else forward[d := map[]];
    withDestination[d := withDestination[d][n := c]]
  }

  /** Adding a link keeps a topology closed, and keeps it symmetric. */
  lemma AddLinkKeepsShape(topo: Topology, n: NodeId, d: NodeId, c: int)
    requires n in topo
    ensures Closed(topo) ==> Closed(AddLink(topo, n, d, c))
    ensures Symmetric(topo) ==> Symmetric(AddLink(topo, n, d, c))
  {
    var r := AddLink(topo, n, d, c);
    if Closed(topo) {
      forall x, y | x in r && y in r[x] ensures y in r {
        assert Cost(r, x, y).Some?;
      }
    }
    if Symmetric(topo) {
      forall x, y | x in r && y in r[x] ensures y in r && x in r[y] && r[y][x] == r[x][y] {
        assert Cost(r, x, y).Some?;
        assert Cost(r, y, x) == Cost(r, x, y) by {
          if !(x == n && y == d) && !(x == d && y == n) {
            assert Cost(topo, x, y).Some?;
          }
        }
      }
    }
  }

  /** The effect of one line typed for node `n`: a link, or nothing when the line is malformed. */
  function ApplyLine(topo: Topology, n: NodeId, line: string): (r: Topology)
    requires n in topo
    ensures n in r && topo.Keys <= r.Keys
  {
    match ParseLink(line)
    case None => topo
    case Some((d, c)) => AddLink(topo, n, d, c)
  }

  /**
   * A malformed line changes nothing; a well-formed one adds its link in
   * both directions and changes no other link.
   */
  lemma ApplyLineEffect(topo: Topology, n: NodeId, line: string)
    requires n in topo
    ensures ParseLink(line).None? ==> ApplyLine(topo, n, line) == topo
    ensures ParseLink(line).Some? ==> var (d, c) := ParseLink(line).value;
      && Cost(ApplyLine(topo, n, line), n, d) == Some(c)
      && Cost(ApplyLine(topo, n, line), d, n) == Some(c)
      && forall x, y :: !(x == n && y == d) && !(x == d && y == n) ==> Cost(ApplyLine(topo, n, line), x, y) == Cost(topo, x, y)
  {
  }

  /** One line keeps a topology closed, and keeps it symmetric. */
  lemma ApplyLineKeepsShape(topo: Topology, n: NodeId, line: string)
    requires n in topo
    ensures Closed(topo) ==> Closed(ApplyLine(topo, n, line))
    ensures Symmetric(topo) ==> Symmetric(ApplyLine(topo, n, line))
  {
    match ParseLink(line)
    case None =>
    case Some((d, c)) => AddLinkKeepsShape(topo, n, d, c);
  }

  /** The effect of the link lines `input[from..upTo]` typed for node `n`, in order. */
  function ApplyLines(topo: Topology, n: NodeId, input: seq<string>, from: nat, upTo: nat): (r: Topology)
    requires n in topo && from <= upTo <= |input|
    ensures n in r && topo.Keys <= r.Keys
    decreases upTo
  {
    if upTo == from then topo
    else ApplyLine(ApplyLines(topo, n, input, from, upTo - 1), n, input[upTo - 1])
  }

  /** Link lines keep a topology closed, and keep it symmetric. */
  lemma {:induction false} ApplyLinesKeepsShape(topo: Topology, n: NodeId, input: seq<string>, from: nat, upTo: nat)
    requires n in topo && from <= upTo <= |input|
    ensures Closed(topo) ==> Closed(ApplyLines(topo, n, input, from, upTo))
    ensures Symmetric(topo) ==> Symmetric(ApplyLines(topo, n, input, from, upTo))
    decreases upTo
  {
    if upTo > from {
      var before := ApplyLines(topo, n, input, from, upTo - 1);
      ApplyLinesKeepsShape(topo, n, input, from, upTo - 1);
      ApplyLineKeepsShape(before, n, input[upTo - 1]);
    }
  }

  // ---------------------------------------------------------------------
  // Node declarations
  // ---------------------------------------------------------------------

  /** Declaring a node as the builder does: its link map is replaced by an empty one. */
  function DeclareNode(topo: Topology, id: NodeId): (r: Topology)
    ensures r.Keys == topo.Keys + {id} && r[id] == map[]
    ensures forall x :: x in topo && x != id ==> r[x] == topo[x]
  {
    topo[id := map[]]
  }

  /** Declaring a node without losing the links already recorded for it. */
  function DeclareNodeKeepingLinks(topo: Topology, id: NodeId): (r: Topology)
    ensures r.Keys == topo.Keys + {id}
    ensures forall x, y :: x in topo ==> Cost(r, x, y) == Cost(topo, x, y)
    ensures id !in topo ==> r[id] == map[]
  {
    if id in topo then topo else topo[id := map[]]
  }

  /** Both ways of declaring keep a topology closed; only the second keeps it symmetric. */
  lemma DeclareKeepsShape(topo: Topology, id: NodeId)
    ensures Closed(topo) ==> Closed(DeclareNode(topo, id)) && Closed(DeclareNodeKeepingLinks(topo, id))
    ensures Symmetric(topo) ==> Symmetric(DeclareNodeKeepingLinks(topo, id))
  {
  }

  /**
   * The declaration the builder performs: as written, or keeping earlier
   * links. Either way `id` becomes a node and no other node changes.
   */
  function Declare(topo: Topology, id: NodeId, keepLinks: bool): (r: Topology)
    ensures r == topo[id := if keepLinks && id in topo then topo[id] else map[]]
  {
    if keepLinks then DeclareNodeKeepingLinks(topo, id) else DeclareNode(topo, id)
  }

  // ---------------------------------------------------------------------
  // The whole dialogue
  // ---------------------------------------------------------------------

  /** The first line at or after `from` that reads `fine`, if any. */
  function FindEnd(input: seq<string>, from: nat): (k: Option<nat>)
    requires from <= |input|
    ensures k.Some? ==> from <= k.value < |input| && input[k.value] == "fine"
    decreases |input| - from
  {
    if from == |input| then None
    else if input[from] == "fine" then Some(from)
    else FindEnd(input, from + 1)
  }

  /** `FindEnd` finds the first `fine`, and finds none only when there is none. */
  lemma {:induction false} FindEndIsFirst(input: seq<string>, from: nat)
    requires from <= |input|
    ensures FindEnd(input, from).Some? ==> forall j :: from <= j < FindEnd(input, from).value ==> input[j] != "fine"
    ensures FindEnd(input, from).None? ==> forall j :: from <= j < |input| ==> input[j] != "fine"
    decreases |input| - from
  {
    if from < |input| && input[from] != "fine" {
      FindEndIsFirst(input, from + 1);
    }
  }

  /** Where the dialogue stands: the topology so far, the identifiers read so far, the next line. */
  datatype Reading = Reading(topology: Topology, declared: seq<NodeId>, next: nat)

  /**
   * One node block: the identifier line, then link lines up to the first
   * `fine` after it; `None` when the input ends first.
   */
  function ReadBlock(r: Reading, input: seq<string>, keepLinks: bool): (s: Option<Reading>)
    requires r.next <= |input|
    ensures s.Some? ==> r.next < s.value.next <= |input|
  {
    if r.next == |input| then None
    else
      var id := input[r.next];
      match FindEnd(input, r.next + 1)
      case None => None
      case Some(k) => Some(Reading(ApplyLines(Declare(r.topology, id, keepLinks), id, input, r.next + 1, k), r.declared + [id], k + 1))
  }

  /** A block is read exactly when its identifier line and a later `fine` exist, and reading resumes after that `fine`. */
  lemma ReadBlockEnds(r: Reading, input: seq<string>, keepLinks: bool)
    requires r.next <= |input|
    ensures ReadBlock(r, input, keepLinks).Some? <==> r.next < |input| && FindEnd(input, r.next + 1).Some?
    ensures ReadBlock(r, input, keepLinks).Some? ==>
      ReadBlock(r, input, keepLinks).value.next == FindEnd(input, r.next + 1).value + 1
  {
  }

  /** A block declares exactly its identifier, as a node, and only adds nodes. */
  lemma ReadBlockDeclares(r: Reading, input: seq<string>, keepLinks: bool)
    requires r.next <= |input| && ReadBlock(r, input, keepLinks).Some?
    ensures var s := ReadBlock(r, input, keepLinks).value;
      && s.declared == r.declared + [input[r.next]]
      && input[r.next] in s.topology && r.topology.Keys <= s.topology.Keys
  {
  }

  /** A block keeps a closed topology closed and, when declarations keep links, a symmetric one symmetric. */
  lemma ReadBlockKeepsShape(r: Reading, input: seq<string>, keepLinks: bool)
    requires r.next <= |input| && ReadBlock(r, input, keepLinks).Some?
    ensures Closed(r.topology) ==> Closed(ReadBlock(r, input, keepLinks).value.topology)
    ensures keepLinks && Symmetric(r.topology) ==> Symmetric(ReadBlock(r, input, keepLinks).value.topology)
  {
    var id := input[r.next];
    var k := FindEnd(input, r.next + 1).value;
    DeclareKeepsShape(r.topology, id);
    ApplyLinesKeepsShape(Declare(r.topology, id, keepLinks), id, input, r.next + 1, k);
  }

  /** Reading `count` more node blocks; `None` when the input ends first. */
  function ReadNodes(r: Reading, count: nat, input: seq<string>, keepLinks: bool): (o: Option<Reading>)
    requires r.next <= |input|
    ensures o.Some? ==> r.next <= o.value.next <= |input| && r.declared <= o.value.declared
    decreases count
  {
    if count == 0 then Some(r)
    else match ReadBlock(r, input, keepLinks)
      case None => None
      case Some(s) => ReadNodes(s, count - 1, input, keepLinks)
  }

  /** How the builder ends: with a topology, on a node count `int` refuses, or at the end of the input. */
  datatype Outcome = Built(topology: Topology, declared: seq<NodeId>) | BadNodeCount | EndOfInput

  /** The node count `range` uses: a negative count declares no node. */
  function NodeCount(total: int): nat
  {
    if total < 0 then 0 else total
  }

  /** The whole dialogue: the node count line, then the node blocks. */
  function Build(input: seq<string>, keepLinks: bool): (o: Outcome)
    ensures o.BadNodeCount? <==> |input| > 0 && ParseInt(input[0]).None?
    ensures o.Built? ==> |input| > 0 && ParseInt(input[0]).Some?
  {
    if |input| == 0 then EndOfInput
    else match ParseInt(input[0])
      case None => BadNodeCount
      case Some(total) =>
        match ReadNodes(Reading(map[], [], 1), NodeCount(total), input, keepLinks)
        case None => EndOfInput
        case Some(r) => Built(r.topology, r.declared)
  }

  /** Reading goes through exactly `count` identifier lines. */
  lemma {:induction false} ReadNodesDeclares(r: Reading, count: nat, input: seq<string>, keepLinks: bool)
    requires r.next <= |input|
    requires ReadNodes(r, count, input, keepLinks).Some?
    ensures |ReadNodes(r, count, input, keepLinks).value.declared| == |r.declared| + count
    decreases count
  {
    if count > 0 {
      ReadBlockDeclares(r, input, keepLinks);
      ReadNodesDeclares(ReadBlock(r, input, keepLinks).value, count - 1, input, keepLinks);
    }
  }

  /** Every identifier read so far is a node. */
  ghost predicate DeclaredAreNodes(r: Reading)
  {
    forall id :: id in r.declared ==> id in r.topology
  }

  /** Reading keeps every identifier it has read a node. */
  lemma {:induction false} ReadNodesAddsNodes(r: Reading, count: nat, input: seq<string>, keepLinks: bool)
    requires r.next <= |input| && DeclaredAreNodes(r)
    requires ReadNodes(r, count, input, keepLinks).Some?
    ensures DeclaredAreNodes(ReadNodes(r, count, input, keepLinks).value)
    decreases count
  {
    if count > 0 {
      var r' := ReadBlock(r, input, keepLinks).value;
      ReadBlockDeclares(r, input, keepLinks);
      assert DeclaredAreNodes(r') by {
        forall id | id in r'.declared ensures id in r'.topology {
          if id in r.declared {
            assert id in r.topology;
          }
        }
      }
      ReadNodesAddsNodes(r', count - 1, input, keepLinks);
    }
  }

  /** Reading keeps a closed topology closed, and one declared keeping links symmetric. */
  lemma {:induction false} ReadNodesKeepsShape(r: Reading, count: nat, input: seq<string>, keepLinks: bool)
    requires r.next <= |input|
    requires ReadNodes(r, count, input, keepLinks).Some?
    ensures Closed(r.topology) ==> Closed(ReadNodes(r, count, input, keepLinks).value.topology)
    ensures keepLinks && Symmetric(r.topology) ==> Symmetric(ReadNodes(r, count, input, keepLinks).value.topology)
    decreases count
  {
    if count > 0 {
      ReadBlockKeepsShape(r, input, keepLinks);
      ReadNodesKeepsShape(ReadBlock(r, input, keepLinks).value, count - 1, input, keepLinks);
    }
  }

  /**
   * A finished dialogue declared exactly as many nodes as the count line
   * asked for (none for a negative count), each of them a node of the
   * result, and the result names no missing node.
   */
  lemma BuildDeclaresEveryNode(input: seq<string>, keepLinks: bool)
    requires Build(input, keepLinks).Built?
    ensures ParseInt(input[0]).Some?
    ensures |Build(input, keepLinks).declared| == NodeCount(ParseInt(input[0]).value)
    ensures forall id :: id in Build(input, keepLinks).declared ==> id in Build(input, keepLinks).topology
    ensures Closed(Build(input, keepLinks).topology)
  {
    var total := NodeCount(ParseInt(input[0]).value);
    ReadNodesDeclares(Reading(map[], [], 1), total, input, keepLinks);
    assert DeclaredAreNodes(Reading(map[], [], 1));
    ReadNodesAddsNodes(Reading(map[], [], 1), total, input, keepLinks);
    ReadNodesKeepsShape(Reading(map[], [], 1), total, input, keepLinks);
  }

  /** With declarations that keep earlier links, every finished dialogue yields an undirected network. */
  lemma KeepingLinksBuildsSymmetric(input: seq<string>)
    requires Build(input, true).Built?
    ensures Symmetric(Build(input, true).topology) && Closed(Build(input, true).topology)
  {
    var total := NodeCount(ParseInt(input[0]).value);
    ReadNodesKeepsShape(Reading(map[], [], 1), total, input, true);
  }

  // ---------------------------------------------------------------------
  // The builder itself
  // ---------------------------------------------------------------------

  /** A line other than `fine` leaves the end ahead. */
  lemma LinkLoopStep(input: seq<string>, pos: nat)
    requires pos < |input| && input[pos] != "fine"
    ensures FindEnd(input, pos + 1) == FindEnd(input, pos)
  {
  }

  /**
   * The link loop for node `id`: applies the lines from `from` on until one
   * reads `fine`; `next` is the index of that line, `None` when the input
   * ends first.
   */
  method ReadLinks(topo: Topology, id: NodeId, input: seq<string>, from: nat) returns (linked: Topology, next: Option<nat>)
    requires id in topo && from <= |input|
    ensures next == FindEnd(input, from)
    ensures next.Some? ==> linked == ApplyLines(topo, id, input, from, next.value)
  {
    linked := topo;
    var pos := from;
    while true
      invariant from <= pos <= |input|
      invariant FindEnd(input, pos) == FindEnd(input, from)
      invariant linked == ApplyLines(topo, id, input, from, pos)
      decreases |input| - pos
    {
      if pos == |input| {
        return linked, None;
      }
      var line := input[pos];
      if line == "fine" {
        break;
      }
      LinkLoopStep(input, pos);
      linked := ApplyLine(linked, id, line);
      pos := pos + 1;
    }
    next := Some(pos);
  }

  /** One more node block to read is one block, then the rest. */
  lemma ReadNodesStep(r: Reading, count: nat, rest: nat, input: seq<string>, keepLinks: bool)
    requires r.next <= |input| && count == rest + 1
    ensures ReadBlock(r, input, keepLinks).None? ==> ReadNodes(r, count, input, keepLinks).None?
    ensures ReadBlock(r, input, keepLinks).Some? ==>
      ReadNodes(r, count, input, keepLinks) == ReadNodes(ReadBlock(r, input, keepLinks).value, rest, input, keepLinks)
  {
  }

  /** A block whose link lines end at line `k`. */
  lemma ReadBlockAt(r: Reading, input: seq<string>, keepLinks: bool, k: nat)
    requires r.next < |input| && FindEnd(input, r.next + 1) == Some(k)
    ensures var id := input[r.next];
      ReadBlock(r, input, keepLinks) == Some(Reading(ApplyLines(Declare(r.topology, id, keepLinks), id, input, r.next + 1, k), r.declared + [id], k + 1))
  {
  }

  /** The node loop: `count` node blocks read from line 1 on; `None` when the input ends first. */
  method ReadNodeBlocks(input: seq<string>, count: nat, keepLinks: bool) returns (outcome: Option<Reading>)
    requires |input| >= 1
    ensures outcome == ReadNodes(Reading(map[], [], 1), count, input, keepLinks)
  {
    var reading := Reading(map[], [], 1);
    var nodeIndex := 0;
    ghost var remaining: nat := count;
    while nodeIndex < count
      invariant nodeIndex <= count && remaining == count - nodeIndex
      invariant reading.next <= |input|
      invariant ReadNodes(reading, remaining, input, keepLinks) == ReadNodes(Reading(map[], [], 1), count, input, keepLinks)
    {
      ghost var rest: nat := remaining - 1;
      ReadNodesStep(reading, remaining, rest, input, keepLinks);
      if reading.next == |input| {
        return None;
      }
      var id := input[reading.next];
      var declared := Declare(reading.topology, id, keepLinks);
      var linked, next := ReadLinks(declared, id, input, reading.next + 1);
      if next.None? {
        return None;
      }
      ReadBlockAt(reading, input, keepLinks, next.value);
      reading := Reading(linked, reading.declared + [id], next.value + 1);
      nodeIndex, remaining := nodeIndex + 1, rest;
    }
    outcome := Some(reading);
  }

  /**
   * The builder as written: the node count, then the node blocks, each
   * declaration replacing the node's link map. The result is closed and
   * declares as many nodes as the count asked for.
   */
  method BuildCustomTopology(input: seq<string>) returns (outcome: Outcome)
    ensures outcome == Build(input, false)
    ensures outcome.Built? ==> Closed(outcome.topology)
    ensures outcome.Built? ==> |outcome.declared| == NodeCount(ParseInt(input[0]).value)
  {
    if |input| == 0 {
      return EndOfInput;
    }
    var total := ParseInt(input[0]);
    if total.None? {
      return BadNodeCount;
    }
    var read := ReadNodeBlocks(input, NodeCount(total.value), false);
    outcome := if read.None? then EndOfInput else Built(read.value.topology, read.value.declared);
    if outcome.Built? {
      BuildDeclaresEveryNode(input, false);
    }
  }

  /** The builder with declarations that keep earlier links: its result is an undirected network. */
  method BuildSymmetricTopology(input: seq<string>) returns (outcome: Outcome)
    ensures outcome == Build(input, true)
    ensures outcome.Built? ==> Closed(outcome.topology) && Symmetric(outcome.topology)
  {
    if |input| == 0 {
      return EndOfInput;
    }
    var total := ParseInt(input[0]);
    if total.None? {
      return BadNodeCount;
    }
    var read := ReadNodeBlocks(input, NodeCount(total.value), true);
    outcome := if read.None? then EndOfInput else Built(read.value.topology, read.value.declared);
    if outcome.Built? {
      KeepingLinksBuildsSymmetric(input);
    }
  }

  /**
   * The dialogue behind the finding, `2 / A / B,1 / fine / B / fine`: two
   * nodes, `B` declared again after `A` linked to it.
   */
  ghost predicate TypedAsRedeclaring(input: seq<string>)
  {
    && |input| == 6
    && input[0] == FormatInt(2)
    && input[1] == "A" && input[2] == "B" + "," + FormatInt(1) && input[3] == "fine"
    && input[4] == "B" && input[5] == "fine"
  }

  /** What the builder reads from that dialogue. */
  ghost predicate ReadsAsRedeclaring(input: seq<string>)
  {
    && |input| == 6
    && ParseInt(input[0]) == Some(2)
    && input[1] == "A" && ParseLink(input[2]) == Some(("B", 1)) && FindEnd(input, 2) == Some(3)
    && input[4] == "B" && FindEnd(input, 5) == Some(5)
  }

  /** The dialogue as typed. */
  lemma RedeclaringTyped()
    ensures TypedAsRedeclaring(["2", "A", "B,1", "fine", "B", "fine"])
  {
    assert FormatInt(2) == "2" && FormatInt(1) == "1";
  }

  /** How the builder reads the lines of that dialogue. */
  lemma RedeclaringLines(input: seq<string>)
    requires TypedAsRedeclaring(input)
    ensures ReadsAsRedeclaring(input)
  {
    ParseFormatRoundTrip(2);
    ParseLinkRoundTrip("B", 1);
    assert input[2] != "fine" by {
      assert |input[2]| >= 2;
    }
  }

  lemma RedeclaringAddLink()
    ensures AddLink(map["A" := map[]], "A", "B", 1) == map["A" := map["B" := 1], "B" := map["A" := 1]]
  {
  }

  /** The first block records `A -- B` both ways, whichever declaration is used. */
  lemma RedeclaringFirstBlock(input: seq<string>, keepLinks: bool)
    requires ReadsAsRedeclaring(input)
    ensures ReadBlock(Reading(map[], [], 1), input, keepLinks)
      == Some(Reading(map["A" := map["B" := 1], "B" := map["A" := 1]], ["A"], 4))
  {
    var declared: Topology := map["A" := map[]];
    assert Declare(map[], "A", keepLinks) == declared;
    assert ApplyLines(declared, "A", input, 2, 3) == ApplyLine(declared, "A", input[2]);
    RedeclaringAddLink();
    assert [] + ["A"] == ["A"];
  }

  /** The second block re-declares `B`: as written it empties `B`'s links, keeping links it changes nothing. */
  lemma RedeclaringSecondBlock(input: seq<string>, keepLinks: bool)
    requires ReadsAsRedeclaring(input)
    ensures ReadBlock(Reading(map["A" := map["B" := 1], "B" := map["A" := 1]], ["A"], 4), input, keepLinks)
      == Some(Reading(if keepLinks then map["A" := map["B" := 1], "B" := map["A" := 1]] else map["A" := map["B" := 1], "B" := map[]], ["A", "B"], 6))
  {
    var before: Topology := map["A" := map["B" := 1], "B" := map["A" := 1]];
    var declared := Declare(before, "B", keepLinks);
    assert declared == if keepLinks then before else map["A" := map["B" := 1], "B" := map[]];
    assert ReadBlock(Reading(before, ["A"], 4), input, keepLinks) == Some(Reading(declared, ["A"] + ["B"], 6));
    assert ["A"] + ["B"] == ["A", "B"];
  }

  /** The whole dialogue, read both ways. */
  lemma RedeclaringBuilds(input: seq<string>, keepLinks: bool)
    requires ReadsAsRedeclaring(input)
    ensures Build(input, keepLinks) == Built(if keepLinks then map["A" := map["B" := 1], "B" := map["A" := 1]] else map["A" := map["B" := 1], "B" := map[]], ["A", "B"])
  {
    RedeclaringFirstBlock(input, keepLinks);
    RedeclaringSecondBlock(input, keepLinks);
    var start := Reading(map[], [], 1);
    var first := ReadBlock(start, input, keepLinks).value;
    assert ReadNodes(start, 2, input, keepLinks) == ReadNodes(first, 1, input, keepLinks);
  }

  /**
   * Declaring a node a second time drops the links recorded for it from
   * earlier nodes: the dialogue `2 / A / B,1 / fine / B / fine` leaves
   * `A -> B` without `B -> A`, where keeping links gives the undirected link.
   */
  lemma RedeclarationBreaksSymmetry(input: seq<string>)
    requires TypedAsRedeclaring(input)
    ensures Build(input, false) == Built(map["A" := map["B" := 1], "B" := map[]], ["A", "B"])
    ensures !Symmetric(Build(input, false).topology)
    ensures Build(input, true) == Built(map["A" := map["B" := 1], "B" := map["A" := 1]], ["A", "B"])
  {
    RedeclaringLines(input);
    RedeclaringBuilds(input, false);
    RedeclaringBuilds(input, true);
    var asWritten: Topology := map["A" := map["B" := 1], "B" := map[]];
    assert "B" in asWritten["A"] && "A" !in asWritten["B"];
  }
}
