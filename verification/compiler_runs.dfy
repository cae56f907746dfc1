/**
 * Whole runs of `convertWorkflow`: what a straight run of program nodes
 * compiles to, when the walk is sure to finish, and a document with one
 * fork worked through to the end.
 */
module CompilerRuns {
  import opened Wrappers
  import opened Text
  import opened Seqs
  import opened Sorting
  import opened Graph
  import opened Compiler
  import opened CompilerProps

  // ---------------------------------------------------------------------------
  // Straight runs of program nodes
  // ---------------------------------------------------------------------------

  /**
   * `p` is a run of program nodes, each the only child of the one before,
   * and the last one's only child is `stop`, a node that is stored too.
   */
  predicate ProgramChain(c: Ctx, p: seq<string>, stop: string) {
    && (forall i :: 0 <= i < |p| ==> p[i] != "" && p[i] in c.nodeMap && KindOf(c.nodeMap[p[i]]) == ProgramNode)
    && (forall i :: 0 <= i < |p| ==> Kids(c, p[i]) == [ChainNext(p, stop, i)])
    && stop != "" && stop in c.nodeMap
  }

  /** The node after `p[i]` on the run: `p[i + 1]`, or `stop` after the last one. */
  function ChainNext(p: seq<string>, stop: string, i: nat): string {
    if i + 1 < |p| then p[i + 1] else stop
  }

  /** Where the run begins: its first node, or `stop` for an empty run. */
  function ChainHead(p: seq<string>, stop: string): string {
    if |p| > 0 then p[0] else stop
  }

  /** The program tasks of the run's nodes, in path order. */
  function ChainTasks(c: Ctx, p: seq<string>): (ts: seq<Task>)
    requires forall i :: 0 <= i < |p| ==> p[i] in c.nodeMap
    ensures |ts| == |p|
  {
    seq(|p|, i requires 0 <= i < |p| => ProgramTask(c, c.nodeMap[p[i]]))
  }

  lemma ChainTail(c: Ctx, p: seq<string>, stop: string)
    requires |p| > 0 && ProgramChain(c, p, stop)
    ensures ProgramChain(c, p[1..], stop)
    ensures ChainHead(p[1..], stop) == Kids(c, p[0])[0]
    ensures ChainTasks(c, p) == [ProgramTask(c, c.nodeMap[p[0]])] + ChainTasks(c, p[1..])
  {
    var q := p[1..];
    forall i | 0 <= i < |q| ensures Kids(c, q[i]) == [ChainNext(q, stop, i)] {
      ChainNextTail(p, stop, i);
    }
    assert Kids(c, p[0]) == [ChainNext(p, stop, 0)];
    ChainTasksTail(c, p);
  }

  lemma ChainNextTail(p: seq<string>, stop: string, i: nat)
    requires i + 1 < |p|
    ensures p[1..][i] == p[i + 1] && ChainNext(p[1..], stop, i) == ChainNext(p, stop, i + 1)
  {
  }

  lemma ChainTasksTail(c: Ctx, p: seq<string>)
    requires |p| > 0 && forall i :: 0 <= i < |p| ==> p[i] in c.nodeMap
    ensures ChainTasks(c, p) == [ProgramTask(c, c.nodeMap[p[0]])] + ChainTasks(c, p[1..])
  {
    var q := p[1..];
    assert forall i :: 0 <= i < |q| ==> q[i] == p[i + 1];
  }

  /**
   * A run of program nodes ending at an end node compiles to exactly the
   * run's program tasks, in path order, once the bound exceeds the run's length.
   */
  lemma {:induction false} WalkChain(c: Ctx, p: seq<string>, stop: string, fuel: nat)
    requires ProgramChain(c, p, stop) && KindOf(c.nodeMap[stop]) == EndNode
    requires fuel > |p|
    ensures Walk(c, Some(ChainHead(p, stop)), fuel) == Some(ChainTasks(c, p))
    decreases |p|
  {
    var n := c.nodeMap[ChainHead(p, stop)];
    assert Walk(c, Some(ChainHead(p, stop)), fuel) == WalkNode(c, ChainHead(p, stop), n, fuel - 1);
    if |p| > 0 {
      ChainTail(c, p, stop);
      WalkChain(c, p[1..], stop, fuel - 1);
      var rest := Walk(c, Some(Kids(c, p[0])[0]), fuel - 1);
      assert WalkNode(c, p[0], n, fuel - 1) == Some([ProgramTask(c, n)] + rest.value);
    }
  }

  /**
   * Inside a fork branch, a run of program nodes running into a join or an
   * end node yields the run's tasks in path order, and its end reference is
   * the last node of the run (or the reference the branch started with).
   */
  lemma {:induction false} GatherChain(c: Ctx, p: seq<string>, stop: string, before: Option<string>, fuel: nat)
    requires ProgramChain(c, p, stop) && KindOf(c.nodeMap[stop]) in {JoinNode, EndNode}
    requires fuel > |p|
    ensures Gather(c, Some(ChainHead(p, stop)), before, fuel)
         == Some(Branch(ChainTasks(c, p), if |p| > 0 then Some(c.nodeMap[p[|p| - 1]].id) else before))
    decreases |p|
  {
    var n := c.nodeMap[ChainHead(p, stop)];
    assert Gather(c, Some(ChainHead(p, stop)), before, fuel) == GatherNode(c, ChainHead(p, stop), n, before, fuel - 1);
    if |p| > 0 {
      ChainTail(c, p, stop);
      GatherChain(c, p[1..], stop, Some(n.id), fuel - 1);
      var rest := Gather(c, Some(Kids(c, p[0])[0]), Some(n.id), fuel - 1).value;
      assert GatherNode(c, p[0], n, before, fuel - 1) == Some(Branch([ProgramTask(c, n)] + rest.tasks, rest.endRef));
      if |p| > 1 {
        assert p[1..][|p| - 2] == p[|p| - 1];
      }
    }
  }

  // ---------------------------------------------------------------------------
  // The walk finishes on a document without cycles
  // ---------------------------------------------------------------------------

  /**
   * `rank` falls along every edge and every child link, and every node is
   * stored under its own id. Such a rank exists exactly when no edge path
   * returns to where it started (a topological numbering).
   */
  ghost predicate Ranked(c: Ctx, rank: string -> nat) {
    && (forall id, x :: x in Kids(c, id) ==> rank(x) < rank(id))
    && (forall k :: 0 <= k < |c.edges| ==> rank(c.edges[k].tgtCell) < rank(c.edges[k].srcCell))
    && (forall id :: id in c.nodeMap ==> c.nodeMap[id].id == id)
  }

  /** The bound a walk from `cur` needs: one more than the rank of where it stands, and none when it stands nowhere. */
  function RankAt(rank: string -> nat, cur: Option<string>): nat {
    if cur.Some? then rank(cur.value) + 1 else 0
  }

  /**
   * A branch's end reference is the one it started with, undefined (a
   * nested fork found no join), or a node ranked no higher than where it started.
   */
  predicate EndBelow(rank: string -> nat, r: Option<string>, before: Option<string>, top: nat) {
    r == before || r.None? || rank(r.value) <= top
  }

  lemma {:induction false} WalkDone(c: Ctx, rank: string -> nat, cur: Option<string>, fuel: nat)
    requires Ranked(c, rank) && fuel > RankAt(rank, cur)
    ensures Walk(c, cur, fuel).Some?
    decreases fuel, 0, 0
  {
    if Truthy(cur) && NodeAt(c, cur.value).Some? {
      WalkNodeDone(c, rank, cur.value, NodeAt(c, cur.value).value, fuel - 1);
    }
  }

  lemma {:induction false} WalkNodeDone(c: Ctx, rank: string -> nat, id: string, n: Node, fuel: nat)
    requires Ranked(c, rank) && rank(id) < fuel
    ensures WalkNode(c, id, n, fuel).Some?
    decreases fuel, 3, 0
  {
    match KindOf(n)
    case ForkNode =>
      ProcessForkDone(c, rank, id, fuel);
      WalkDone(c, rank, ProcessFork(c, id, fuel).value.next, fuel);
    case JoinNode =>
      FirstChildBelow(c, rank, id);
      WalkDone(c, rank, FirstChild(c, id), fuel);
    case StartNode =>
      FirstChildBelow(c, rank, id);
      WalkDone(c, rank, FirstChild(c, id), fuel);
    case EndNode =>
    case ProgramNode =>
      var kids := Kids(c, id);
      if |kids| == 1 {
        assert kids[0] in Kids(c, id);
        WalkDone(c, rank, Some(kids[0]), fuel);
      }
  }

  lemma FirstChildBelow(c: Ctx, rank: string -> nat, id: string)
    requires Ranked(c, rank)
    ensures FirstChild(c, id).Some? ==> rank(FirstChild(c, id).value) < rank(id)
  {
    if FirstChild(c, id).Some? {
      assert FirstChild(c, id).value in Kids(c, id);
    }
  }

  lemma {:induction false} GatherDone(c: Ctx, rank: string -> nat, cur: Option<string>, before: Option<string>, fuel: nat)
    requires Ranked(c, rank) && fuel > RankAt(rank, cur)
    ensures Gather(c, cur, before, fuel).Some?
    ensures cur.None? ==> Gather(c, cur, before, fuel).value.endRef == before
    ensures cur.Some? ==> EndBelow(rank, Gather(c, cur, before, fuel).value.endRef, before, rank(cur.value))
    decreases fuel, 0, 0
  {
    if Truthy(cur) && NodeAt(c, cur.value).Some? {
      GatherNodeDone(c, rank, cur.value, NodeAt(c, cur.value).value, before, fuel - 1);
    }
  }

  lemma {:induction false} GatherNodeDone(c: Ctx, rank: string -> nat, id: string, n: Node, before: Option<string>, fuel: nat)
    requires Ranked(c, rank) && rank(id) < fuel
    requires id in c.nodeMap && c.nodeMap[id] == n
    ensures GatherNode(c, id, n, before, fuel).Some?
    ensures EndBelow(rank, GatherNode(c, id, n, before, fuel).value.endRef, before, rank(id))
    decreases fuel, 3, 0
  {
    match KindOf(n)
    case ForkNode =>
      ProcessForkDone(c, rank, id, fuel);
      var step := ProcessFork(c, id, fuel).value;
      GatherDone(c, rank, step.next, step.joinId, fuel);
    case ProgramNode =>
      var kids := Kids(c, id);
      if |kids| == 1 {
        assert kids[0] in Kids(c, id);
        GatherDone(c, rank, Some(kids[0]), Some(n.id), fuel);
      }
    case _ =>
  }

  lemma {:induction false} GatherArmsDone(c: Ctx, rank: string -> nat, es: seq<Edge>, top: nat, fuel: nat)
    requires Ranked(c, rank) && top < fuel
    requires forall k :: 0 <= k < |es| ==> rank(es[k].tgtCell) < top
    ensures GatherArms(c, es, fuel).Some?
    ensures var arms := GatherArms(c, es, fuel).value;
      |arms| == |es| && forall i :: 0 <= i < |arms| ==> rank(arms[i].end) < top
    decreases fuel, 1, |es|
  {
    if |es| > 0 {
      GatherDone(c, rank, Some(es[0].tgtCell), None, fuel);
      GatherArmsDone(c, rank, es[1..], top, fuel);
      var arms := GatherArms(c, es, fuel).value;
      var rest := GatherArms(c, es[1..], fuel).value;
      assert forall i :: 1 <= i < |arms| ==> arms[i] == rest[i - 1];
    }
  }

  lemma {:induction false} ProcessForkDone(c: Ctx, rank: string -> nat, forkId: string, fuel: nat)
    requires Ranked(c, rank) && rank(forkId) < fuel
    ensures ProcessFork(c, forkId, fuel).Some?
    ensures var step := ProcessFork(c, forkId, fuel).value;
      && (step.joinId.Some? ==> rank(step.joinId.value) < rank(forkId))
      && (step.next.Some? ==> rank(step.next.value) < rank(forkId))
    decreases fuel, 2, 0
  {
    var es := BranchEdges(c, forkId);
    BranchEdgesBelow(c, rank, forkId);
    GatherArmsDone(c, rank, es, rank(forkId), fuel);
    var arms := GatherArms(c, es, fuel).value;
    var ends := ArmEnds(arms);
    JoinIsCommonChild(c, ends);
    var joinId := ResolveJoin(c, ends);
    if joinId.Some? {
      assert joinId.value in Kids(c, ends[0]);
      FirstChildBelow(c, rank, joinId.value);
    }
  }

  /** Every branch edge of a fork leads to a node ranked below the fork. */
  lemma BranchEdgesBelow(c: Ctx, rank: string -> nat, forkId: string)
    requires Ranked(c, rank)
    ensures var es := BranchEdges(c, forkId);
      forall k :: 0 <= k < |es| ==> rank(es[k].tgtCell) < rank(forkId)
  {
    var out := OutEdges(c.edges, forkId);
    var es := BranchEdges(c, forkId);
    SortBySpec(out, SourceRank);
    FilterSpec(c.edges, (e: Edge) => e.srcCell == forkId);
    forall k | 0 <= k < |es| ensures rank(es[k].tgtCell) < rank(forkId) {
      assert es[k] in multiset(es);
      assert es[k] in out;
      var j :| 0 <= j < |c.edges| && c.edges[j] == es[k];
    }
  }

  /**
   * On a document whose edges admit a rank that falls along every edge (a
   * document without cycles), the walk finishes once the bound exceeds every rank by two.
   */
  lemma CompileTerminates(cells: seq<Cell>, workflowName: string, systemName: string, legacy: bool,
                          rank: string -> nat, fuel: nat)
    requires forall k :: 0 <= k < |EdgesOf(cells)| ==>
      rank(EdgesOf(cells)[k].tgtCell) < rank(EdgesOf(cells)[k].srcCell)
    requires forall id :: rank(id) + 1 < fuel
    ensures Compile(cells, workflowName, systemName, legacy, fuel).Some?
  {
    var c := Context(cells, legacy);
    var es := EdgesOf(cells);
    forall id, x | x in Kids(c, id) ensures rank(x) < rank(id) {
      ContextSpec(cells, legacy, id);
      ChildrenSpec(es, id);
    }
    forall id | id in c.nodeMap ensures c.nodeMap[id].id == id {
      NodeMapSpec(NodesOf(cells), id);
    }
    assert rank(StartId) + 1 < fuel;
    if Entry(c).Some? {
      assert rank(Entry(c).value) + 1 < fuel;
    }
    assert Ranked(c, rank);
    WalkDone(c, rank, Entry(c), fuel);
  }

  // ---------------------------------------------------------------------------
  // A document with one fork, compiled
  // ---------------------------------------------------------------------------

  /** The one edge leaving `id` is `es[k]`: `id` has exactly that child. */
  lemma {:induction false} ChildrenOne(es: seq<Edge>, id: string, k: nat)
    requires k < |es| && es[k].srcCell == id
    requires forall j :: 0 <= j < |es| && j != k ==> es[j].srcCell != id
    ensures Children(es, id) == [es[k].tgtCell]
    decreases k
  {
    if k > 0 {
      assert forall j :: 0 <= j < |es| - 1 ==> es[1..][j] == es[j + 1];
      ChildrenOne(es[1..], id, k - 1);
    } else {
      assert forall j :: 0 <= j < |es| - 1 ==> es[1..][j] == es[j + 1];
      ChildrenNone(es[1..], id);
    }
  }

  const Saved: Payload := Payload("", true, "")

  /**
   * start → fork `f`; the fork's `output2` edge (to Shell `b`) is listed
   * before its `output1` edge (to Shell `a`); both Shell nodes run into the
   * join `j`, which runs into the end node.
   */
  const ForkDoc: seq<Cell> := [
    Rect(StartId, "", Saved, [Port("output", "output")], None, None),
    Rect("f", "fork", Saved, [], None, None),
    Rect("a", "Shell", Saved, [], None, None),
    Rect("b", "Shell", Saved, [], None, None),
    Rect("j", "join", Saved, [], None, None),
    Rect(EndId, "end", Saved, [], None, None),
    Link("e1", Endpoint(StartId, "output"), Endpoint("f", "input")),
    Link("e2", Endpoint("f", "output2"), Endpoint("b", "input")),
    Link("e3", Endpoint("f", "output1"), Endpoint("a", "input")),
    Link("e4", Endpoint("a", "output"), Endpoint("j", "input1")),
    Link("e5", Endpoint("b", "output"), Endpoint("j", "input2")),
    Link("e6", Endpoint("j", "output"), Endpoint(EndId, "input"))
  ]

  const ForkNodes: seq<Node> := [
    Node("f", "fork", Saved), Node("a", "Shell", Saved), Node("b", "Shell", Saved),
    Node("j", "join", Saved), Node(EndId, "end", Saved)
  ]

  const ForkEdges: seq<Edge> := [
    Edge(StartId, "output", "f", "input"), Edge("f", "output2", "b", "input"),
    Edge("f", "output1", "a", "input"), Edge("a", "output", "j", "input1"),
    Edge("b", "output", "j", "input2"), Edge("j", "output", EndId, "input")
  ]

  lemma LinkCellsNodes()
    ensures NodesOf(ForkDoc[6..]) == []
  {
    var d := ForkDoc;
    assert d[11..][1..] == d[12..];
    assert NodesOf(d[11..]) == [];
    assert d[10..][1..] == d[11..];
    assert NodesOf(d[10..]) == [];
    assert d[9..][1..] == d[10..];
    assert NodesOf(d[9..]) == [];
    assert d[8..][1..] == d[9..];
    assert NodesOf(d[8..]) == [];
    assert d[7..][1..] == d[8..];
    assert NodesOf(d[7..]) == [];
  }

  lemma ForkDocNodes()
    ensures NodesOf(ForkDoc) == ForkNodes
  {
    LinkCellsNodes();
    var d := ForkDoc;
    assert d[5..][1..] == d[6..];
    assert NodesOf(d[5..]) == ForkNodes[4..];
    assert d[4..][1..] == d[5..];
    assert NodesOf(d[4..]) == ForkNodes[3..];
    assert d[3..][1..] == d[4..];
    assert NodesOf(d[3..]) == ForkNodes[2..];
    assert d[2..][1..] == d[3..];
    assert NodesOf(d[2..]) == ForkNodes[1..];
    assert d[1..][1..] == d[2..];
    assert NodesOf(d[1..]) == ForkNodes;
  }

  lemma LinkCellsEdges()
    ensures EdgesOf(ForkDoc[6..]) == ForkEdges
  {
    var d := ForkDoc;
    assert d[11..][1..] == d[12..];
    assert EdgesOf(d[11..]) == ForkEdges[5..];
    assert d[10..][1..] == d[11..];
    assert EdgesOf(d[10..]) == ForkEdges[4..];
    assert d[9..][1..] == d[10..];
    assert EdgesOf(d[9..]) == ForkEdges[3..];
    assert d[8..][1..] == d[9..];
    assert EdgesOf(d[8..]) == ForkEdges[2..];
    assert d[7..][1..] == d[8..];
    assert EdgesOf(d[7..]) == ForkEdges[1..];
  }

  lemma ForkDocEdges()
    ensures EdgesOf(ForkDoc) == ForkEdges
  {
    LinkCellsEdges();
    var d := ForkDoc;
    assert d[5..][1..] == d[6..];
    assert EdgesOf(d[5..]) == ForkEdges;
    assert d[4..][1..] == d[5..];
    assert EdgesOf(d[4..]) == ForkEdges;
    assert d[3..][1..] == d[4..];
    assert EdgesOf(d[3..]) == ForkEdges;
    assert d[2..][1..] == d[3..];
    assert EdgesOf(d[2..]) == ForkEdges;
    assert d[1..][1..] == d[2..];
    assert EdgesOf(d[1..]) == ForkEdges;
  }

  /** A node id carried by exactly one node is looked up to that node. */
  lemma LookupOne(ns: seq<Node>, id: string, k: nat)
    requires k < |ns| && ns[k].id == id
    requires forall j :: 0 <= j < |ns| && j != k ==> ns[j].id != id
    ensures Lookup(ns, id) == Some(ns[k])
  {
    LookupSpec(ns, id);
  }

  /** The fork document's context, read off its node and edge lists. */
  function ForkCtx(): Ctx {
    Context(ForkDoc, false)
  }

  lemma ForkCtxEdges()
    ensures ForkCtx().edges == ForkEdges
  {
    ForkDocEdges();
  }

  /** Node `ForkNodes[k]` is stored under its id. */
  lemma ForkNodeAt(k: nat)
    requires k < |ForkNodes|
    ensures ForkNodes[k].id in ForkCtx().nodeMap && ForkCtx().nodeMap[ForkNodes[k].id] == ForkNodes[k]
  {
    ForkDocNodes();
    ContextSpec(ForkDoc, false, ForkNodes[k].id);
    LookupOne(ForkNodes, ForkNodes[k].id, k);
  }

  /** Edge `ForkEdges[k]` is the only one leaving its source, which therefore has that one child. */
  lemma ForkKid(k: nat)
    requires k in {0, 3, 4, 5}
    ensures Kids(ForkCtx(), ForkEdges[k].srcCell) == [ForkEdges[k].tgtCell]
  {
    ForkDocEdges();
    ContextSpec(ForkDoc, false, ForkEdges[k].srcCell);
    ChildrenOne(ForkEdges, ForkEdges[k].srcCell, k);
  }

  lemma ForkKinds()
    ensures KindOf(ForkNodes[0]) == ForkNode && KindOf(ForkNodes[1]) == ProgramNode
    ensures KindOf(ForkNodes[2]) == ProgramNode && KindOf(ForkNodes[3]) == JoinNode
    ensures KindOf(ForkNodes[4]) == EndNode
  {
    assert Lower("fork") == "fork";
    assert Lower("Shell") == "shell";
    assert Lower("join") == "join";
    assert Lower("end") == "end";
  }

  /** The fork's outgoing edges, in document order: `output2` (to `b`), then `output1` (to `a`). */
  lemma ForkOutEdges()
    ensures OutEdges(ForkEdges, "f") == [ForkEdges[1], ForkEdges[2]]
  {
    var es := ForkEdges;
    var p := (e: Edge) => e.srcCell == "f";
    assert es[5..][1..] == [];
    assert Filter(es[5..], p) == [];
    assert es[4..][1..] == es[5..];
    assert Filter(es[4..], p) == [];
    assert es[3..][1..] == es[4..];
    assert Filter(es[3..], p) == [];
    assert es[2..][1..] == es[3..];
    assert Filter(es[2..], p) == [es[2]];
    assert es[1..][1..] == es[2..];
    assert Filter(es[1..], p) == [es[1], es[2]];
  }

  /** An edge leaving port `output` followed by the digit `d` ranks `d`. */
  lemma OutputRank(e: Edge, d: nat)
    requires d in {1, 2} && e.srcPort == "output" + NatToString(d)
    ensures SourceRank(e) == d
  {
    assert NoDigits("output");
    PortRankOfName("output", d);
  }

  lemma ForkEdgeRanks()
    ensures SourceRank(ForkEdges[1]) == 2 && SourceRank(ForkEdges[2]) == 1
  {
    assert NatToString(1) == "1" && "output" + "1" == "output1";
    OutputRank(ForkEdges[2], 1);
    assert NatToString(2) == "2" && "output" + "2" == "output2";
    OutputRank(ForkEdges[1], 2);
  }

  /** The fork's edges sorted by port number: `output1` (to `a`) before `output2` (to `b`). */
  lemma ForkBranchOrder()
    ensures BranchEdges(ForkCtx(), "f") == [ForkEdges[2], ForkEdges[1]]
  {
    ForkCtxEdges();
    ForkOutEdges();
    ForkEdgeRanks();
    SortTwo(ForkEdges[1], ForkEdges[2], SourceRank);
  }

  /** Two elements whose keys are out of order are swapped by the sort. */
  lemma SortTwo<T>(x: T, y: T, key: T -> int)
    requires key(y) < key(x)
    ensures SortBy([x, y], key) == [y, x]
  {
    assert [x, y][1..] == [y];
    assert [y][1..] == [];
    assert SortBy([y], key) == Insert(y, [], key) == [y];
    assert SortBy([x, y], key) == Insert(x, [y], key);
    assert Insert(x, [], key) == [x];
    assert Insert(x, [y], key) == [y] + Insert(x, [y][1..], key);
  }

  /** The program task of Shell node `a` or `b`. */
  function ShellTask(id: string): Task {
    Simple("Shell", id, Some(Saved))
  }

  /**
   * What the walk from the fork reads of the fork document's context: the
   * five nodes under their ids, the one child of each branch node and of
   * the join, and the fork's edges in port order.
   */
  predicate ForkFacts(c: Ctx) {
    && !c.legacy
    && (forall k :: 0 <= k < |ForkNodes| ==> ForkNodes[k].id in c.nodeMap && c.nodeMap[ForkNodes[k].id] == ForkNodes[k])
    && Kids(c, "a") == ["j"] && Kids(c, "b") == ["j"] && Kids(c, "j") == [EndId]
    && BranchEdges(c, "f") == [ForkEdges[2], ForkEdges[1]]
  }

  lemma ForkCtxFacts()
    ensures ForkFacts(ForkCtx())
  {
    forall k | 0 <= k < |ForkNodes|
      ensures ForkNodes[k].id in ForkCtx().nodeMap && ForkCtx().nodeMap[ForkNodes[k].id] == ForkNodes[k]
    {
      ForkNodeAt(k);
    }
    ForkKid(3);
    ForkKid(4);
    ForkKid(5);
    ForkBranchOrder();
  }

  /** The branch from Shell node `a` or `b` is its one task, ending at that node. */
  lemma ForkBranch(c: Ctx, id: string, fuel: nat)
    requires ForkFacts(c) && id in {"a", "b"} && fuel >= 2
    ensures Gather(c, Some(id), None, fuel) == Some(Branch([ShellTask(id)], Some(id)))
  {
    var k := if id == "a" then 1 else 2;
    assert ForkNodes[k].id == id && ForkNodes[3].id == "j";
    assert c.nodeMap[id] == ForkNodes[k];
    assert c.nodeMap["j"] == ForkNodes[3];
    ForkKinds();
    assert ChainNext([id], "j", 0) == "j";
    assert ProgramChain(c, [id], "j");
    GatherChain(c, [id], "j", None, fuel);
    assert ChainTasks(c, [id]) == [ShellTask(id)];
  }

  /** The two arms, `a` first: each one Shell task, ending at its own node. */
  lemma ForkArms(c: Ctx, fuel: nat)
    requires ForkFacts(c) && fuel >= 2
    ensures GatherArms(c, [ForkEdges[2], ForkEdges[1]], fuel)
         == Some([Arm([ShellTask("a")], "a"), Arm([ShellTask("b")], "b")])
  {
    assert ForkEdges[2].tgtCell == "a" && ForkEdges[1].tgtCell == "b";
    ForkBranch(c, "a", fuel);
    ForkBranch(c, "b", fuel);
    GatherArmsTwo(c, ForkEdges[2], ForkEdges[1], fuel);
  }

  /** Two fork edges give two arms, in edge order. */
  lemma GatherArmsTwo(c: Ctx, e0: Edge, e1: Edge, fuel: nat)
    requires Gather(c, Some(e0.tgtCell), None, fuel).Some? && Gather(c, Some(e1.tgtCell), None, fuel).Some?
    ensures GatherArms(c, [e0, e1], fuel)
         == Some([ArmOf(Gather(c, Some(e0.tgtCell), None, fuel).value, e0.tgtCell),
                  ArmOf(Gather(c, Some(e1.tgtCell), None, fuel).value, e1.tgtCell)])
  {
    var es := [e0, e1];
    var a0 := ArmOf(Gather(c, Some(e0.tgtCell), None, fuel).value, e0.tgtCell);
    var a1 := ArmOf(Gather(c, Some(e1.tgtCell), None, fuel).value, e1.tgtCell);
    assert es[1..] == [e1];
    assert [e1][1..] == [];
    assert GatherArms(c, [], fuel) == Some([]);
    assert GatherArms(c, [e1], fuel) == Some([a1] + []);
    assert [a1] + [] == [a1];
    assert GatherArms(c, es, fuel) == Some([a0] + [a1]);
    assert [a0] + [a1] == [a0, a1];
  }

  /** Both branch ends have the join `j` as their child, so it is the join. */
  lemma ForkJoinFound(c: Ctx)
    requires ForkFacts(c)
    ensures ResolveJoin(c, ["a", "b"]) == Some("j")
  {
    assert Dedup(["j"]) == ["j"];
    assert ["a", "b"][1..] == ["b"];
    assert Filter(["j"], ChildOf(c, "b")) == ["j"];
    assert Intersect(c, ["j"], ["b"]) == Intersect(c, ["j"], []);
  }

  /** The arms' task lists and their ends. */
  lemma ForkArmParts()
    ensures ArmTasks([Arm([ShellTask("a")], "a"), Arm([ShellTask("b")], "b")])
         == [TaskList([ShellTask("a")]), TaskList([ShellTask("b")])]
    ensures ArmEnds([Arm([ShellTask("a")], "a"), Arm([ShellTask("b")], "b")]) == ["a", "b"]
  {
  }

  /** The fork resolves to its two arms, the join `j`, and resumes at the end node. */
  lemma ForkStepFound(c: Ctx, fuel: nat)
    requires ForkFacts(c) && fuel >= 2
    ensures ProcessFork(c, "f", fuel) == Some(ForkFound)
  {
    ForkArms(c, fuel);
    ForkArmParts();
    ForkJoinFound(c);
    assert FirstChild(c, "j") == Some(EndId);
  }

  /** The fork document's fork step: arms `a` and `b`, join `j`, resuming at the end node. */
  const ForkFound: ForkStep :=
    ForkStep("f", [Arm([ShellTask("a")], "a"), Arm([ShellTask("b")], "b")], Some("j"), Some(EndId))

  /** The task list the fork document compiles to. */
  const ForkTasks: seq<Task> := [
    Fork("f", [TaskList([ShellTask("a")]), TaskList([ShellTask("b")])]),
    Join(Some("j"), ["a", "b"])
  ]

  /** The walk stops at the end node. */
  lemma EndWalk(c: Ctx, fuel: nat)
    requires ForkFacts(c) && fuel >= 1
    ensures Walk(c, Some(EndId), fuel) == Some([])
  {
    assert ForkNodes[4].id == EndId;
    assert c.nodeMap[EndId] == ForkNodes[4];
    ForkKinds();
  }

  /** A fork node's walk step: its FORK and JOIN, then the walk from where it resumes. */
  lemma WalkForkStep(c: Ctx, id: string, fuel: nat, step: ForkStep, rest: seq<Task>)
    requires fuel >= 1 && id != "" && id in c.nodeMap && KindOf(c.nodeMap[id]) == ForkNode
    requires ProcessFork(c, id, fuel - 1) == Some(step)
    requires Walk(c, step.next, fuel - 1) == Some(rest)
    ensures Walk(c, Some(id), fuel) == Some([step.ForkTask(), step.JoinTask()] + rest)
  {
    assert Walk(c, Some(id), fuel) == WalkNode(c, id, c.nodeMap[id], fuel - 1);
  }

  /** The fork's step, as found, emits exactly the document's task list before the end node. */
  lemma ForkStepTasks()
    ensures [ForkFound.ForkTask(), ForkFound.JoinTask()] + [] == ForkTasks
  {
    ForkArmParts();
  }

  lemma ForkIsFork(c: Ctx)
    requires ForkFacts(c)
    ensures "f" in c.nodeMap && KindOf(c.nodeMap["f"]) == ForkNode
  {
    assert ForkNodes[0].id == "f";
    ForkKinds();
  }

  /** What the fork document's walk meets from the fork on: the fork, its step as found, and the end node. */
  lemma ForkPremises(fuel: nat)
    requires fuel >= 2
    ensures "f" in ForkCtx().nodeMap && KindOf(ForkCtx().nodeMap["f"]) == ForkNode
    ensures Walk(ForkCtx(), Some(EndId), fuel) == Some([])
    ensures ProcessFork(ForkCtx(), "f", fuel) == Some(ForkFound)
  {
    ForkCtxFacts();
    ForkIsFork(ForkCtx());
    EndWalk(ForkCtx(), fuel);
    ForkStepFound(ForkCtx(), fuel);
  }

  /**
   * Once the fork resolves to its two arms and the join `j` and the end node
   * follows, the walk from the fork emits the FORK with branch `a` before
   * `b`, then the JOIN on `j`, and stops.
   */
  lemma ForkWalk(c: Ctx, fuel: nat)
    requires fuel >= 3 && "f" in c.nodeMap && KindOf(c.nodeMap["f"]) == ForkNode
    requires Walk(c, Some(EndId), fuel - 1) == Some([])
    requires ProcessFork(c, "f", fuel - 1) == Some(ForkFound)
    ensures Walk(c, Some("f"), fuel) == Some(ForkTasks)
  {
    WalkForkStep(c, "f", fuel, ForkFound, []);
    ForkStepTasks();
  }

  /**
   * The fork document compiles, under any bound of at least three, to one
   * FORK whose branches follow port order (`output1`'s `a` before
   * `output2`'s `b`, although the document lists `output2` first) and one
   * JOIN on `j` naming both branch ends.
   */
  lemma CompileForkDoc(workflowName: string, systemName: string, fuel: nat)
    requires fuel >= 3
    ensures Compile(ForkDoc, workflowName, systemName, false, fuel)
         == Some(Workflow(workflowName, ForkTasks, systemName, ForkDoc))
  {
    ForkDocEdges();
    EntryFromStart(ForkDoc, false, 0);
    ForkPremises(fuel - 1);
    ForkWalk(ForkCtx(), fuel);
  }
}
