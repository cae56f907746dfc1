/**
 * `convertWorkflow`: walks the graph document from the entry node and emits
 * the task list of a Conductor-style workflow. A program node becomes one
 * task; a fork node becomes a FORK task holding one task list per outgoing
 * edge followed by a JOIN task naming each branch's last reference; the walk
 * then resumes after the join node, which is found as a common child of the
 * branch ends.
 *
 * The source walk has no cycle guard, so every walking function takes a
 * `fuel` bound and answers None when the bound runs out.
 *
 * `legacy` selects the older copy of the compiler, whose program tasks carry
 * no `nodeData`; the two copies are otherwise the same code.
 */
module Compiler {
  import opened Wrappers
  import opened Text
  import opened Seqs
  import opened Sorting
  import opened Graph

  /** One branch's task list inside a FORK task (a wrapper, so that recursion over nested tasks terminates). */
  datatype TaskList = TaskList(tasks: seq<Task>)

  /** An emitted task; the wire fields `name` and `type` are derived below. */
  datatype Task =
    | Simple(name: string, taskReferenceName: string, nodeData: Option<Payload>)
    | Fork(taskReferenceName: string, forkTasks: seq<TaskList>)
    | Join(joinRef: Option<string>, joinOn: seq<string>)
  {
    /** The wire `name`: the node type for a program task, "fork" or "join" otherwise. */
    function Name(): string {
      match this
      case Simple(name, _, _) => name
      case Fork(_, _) => "fork"
      case Join(_, _) => "join"
    }

    /** The wire `type`: the upper-cased node type for a program task. */
    function Type(): string {
      match this
      case Simple(name, _, _) => Upper(name)
      case Fork(_, _) => "FORK"
      case Join(_, _) => "JOIN"
    }

    /** The wire `taskReferenceName`; a JOIN whose join node was not found has none. */
    function Reference(): Option<string> {
      match this
      case Simple(_, r, _) => Some(r)
      case Fork(r, _) => Some(r)
      case Join(r, _) => r
    }
  }

  /** The compiled artifact; `rawData` is the input document itself. */
  datatype Workflow = Workflow(name: string, tasks: seq<Task>, systemName: string, rawData: seq<Cell>)

  /**
   * What the nested walking functions share: `nodeMap`, `childrenMap`, the
   * edge list, `Object.keys(nodeMap)` and the variant.
   */
  datatype Ctx = Ctx(nodeMap: map<string, Node>, childMap: map<string, seq<string>>,
                     edges: seq<Edge>, keys: seq<string>, legacy: bool)

  function Context(cells: seq<Cell>, legacy: bool): Ctx {
    var ns := NodesOf(cells);
    var es := EdgesOf(cells);
    Ctx(NodeMap(ns), ChildMap(es), es, Keys(ns), legacy)
  }

  /** `nodeMap[id]`. */
  function NodeAt(c: Ctx, id: string): Option<Node> {
    if id in c.nodeMap then Some(c.nodeMap[id]) else None
  }

  /** `childrenMap[id] || []`. */
  function Kids(c: Ctx, id: string): seq<string> {
    if id in c.childMap then c.childMap[id] else []
  }

  /** `(childrenMap[id] || [undefined])[0]`. */
  function FirstChild(c: Ctx, id: string): Option<string> {
    var kids := Kids(c, id);
    if |kids| > 0 then Some(kids[0]) else None
  }

  function NoParentIn(es: seq<Edge>): string -> bool {
    id => !HasParent(es, id)
  }

  /** The first child of "start", else the first node id without a parent. */
  function Entry(c: Ctx): Option<string> {
    var kids := Kids(c, StartId);
    if |kids| > 0 then Some(kids[0])
    else FirstWhere(c.keys, NoParentIn(c.edges))
  }

  /** How the walk treats a node, decided on the lower-cased `nodeType`. */
  datatype Kind = ForkNode | JoinNode | StartNode | EndNode | ProgramNode

  function KindOf(n: Node): Kind {
    var t := Lower(n.nodeType);
    if t == "fork" then ForkNode
    else if t == "join" then JoinNode
    else if t == "start" then StartNode
    else if t == "end" then EndNode
    else ProgramNode
  }

  /** JavaScript truthiness of an optional id: defined and not "". */
  predicate Truthy(id: Option<string>) {
    id.Some? && id.value != ""
  }

  /** The task a program node emits. */
  function ProgramTask(c: Ctx, n: Node): Task {
    Simple(n.nodeType, n.id, if c.legacy then None else Some(n.data))
  }

  /** The key fork edges are sorted by: the number in the source port id. */
  function SourceRank(e: Edge): int {
    PortRank(e.srcPort)
  }

  /** The fork's outgoing edges, stably sorted by source port number: one branch each. */
  function BranchEdges(c: Ctx, forkId: string): seq<Edge> {
    SortBy(OutEdges(c.edges, forkId), SourceRank)
  }

  /** A branch walk's result: its tasks and the reference of where it ended. */
  datatype Branch = Branch(tasks: seq<Task>, endRef: Option<string>)

  /** One fork branch: its tasks and its join reference (`endRef || childId`). */
  datatype Arm = Arm(tasks: seq<Task>, end: string)

  function ArmOf(b: Branch, childId: string): Arm {
    Arm(b.tasks, if Truthy(b.endRef) then b.endRef.value else childId)
  }

  function ArmTasks(arms: seq<Arm>): seq<TaskList> {
    seq(|arms|, i requires 0 <= i < |arms| => TaskList(arms[i].tasks))
  }

  function ArmEnds(arms: seq<Arm>): seq<string> {
    seq(|arms|, i requires 0 <= i < |arms| => arms[i].end)
  }

  /** A resolved fork: its branches, the join found (if any) and where the walk resumes. */
  datatype ForkStep = ForkStep(forkId: string, arms: seq<Arm>, joinId: Option<string>, next: Option<string>) {
    function ForkTask(): Task {
      Fork(forkId, ArmTasks(arms))
    }

    function JoinTask(): Task {
      Join(joinId, ArmEnds(arms))
    }
  }

  /** `x` is a child of every branch end. */
  predicate CommonChild(c: Ctx, ends: seq<string>, x: string) {
    forall k :: 0 <= k < |ends| ==> x in Kids(c, ends[k])
  }

  function ChildOfAll(c: Ctx, ends: seq<string>): string -> bool {
    x => CommonChild(c, ends, x)
  }

  /** `x` is a child of `end`. */
  function ChildOf(c: Ctx, end: string): string -> bool {
    x => x in Kids(c, end)
  }

  /** The `reduce` over the branch ends' child sets, from an accumulated set onwards. */
  function Intersect(c: Ctx, acc: seq<string>, ends: seq<string>): seq<string>
    decreases |ends|
  {
    if |ends| == 0 then acc
    else Intersect(c, Filter(acc, ChildOf(c, ends[0])), ends[1..])
  }

  /** `joinId`: the first element of the intersection of the branch ends' child sets. */
  function ResolveJoin(c: Ctx, ends: seq<string>): Option<string> {
    if |ends| == 0 then None
    else
      var common := Intersect(c, Dedup(Kids(c, ends[0])), ends[1..]);
      if |common| > 0 then Some(common[0]) else None
  }

  /*
   * The walking functions are mutually recursive. `fuel` bounds the number
   * of loop iterations of the two `while` loops taken together: `Walk` and
   * `Gather` are the loop heads and spend one unit each; the node steps,
   * `ProcessFork` and the `forEach` over fork edges spend none.
   */

  /** The top-level walk (the final `while` loop of `convertWorkflow`), from `currentId` on. */
  function Walk(c: Ctx, cur: Option<string>, fuel: nat): Option<seq<Task>>
    decreases fuel, 0, 0
  {
    if fuel == 0 then None
    else if !Truthy(cur) then Some([])
    else
      match NodeAt(c, cur.value)
      case None => Some([])
      case Some(n) => WalkNode(c, cur.value, n, fuel - 1)
  }

  /** One iteration of the top-level loop at node `n` (stored under `id`). */
  function WalkNode(c: Ctx, id: string, n: Node, fuel: nat): Option<seq<Task>>
    decreases fuel, 3, 0
  {
    match KindOf(n)
    case ForkNode =>
      var step :- ProcessFork(c, id, fuel);
      var rest :- Walk(c, step.next, fuel);
      Some([step.ForkTask(), step.JoinTask()] + rest)
    case JoinNode => Walk(c, FirstChild(c, id), fuel)
    case StartNode => Walk(c, FirstChild(c, id), fuel)
    case EndNode => Some([])
    case ProgramNode =>
      var kids := Kids(c, id);
      if |kids| == 1 then
        var rest :- Walk(c, Some(kids[0]), fuel);
        Some([ProgramTask(c, n)] + rest)
      else
        Some([ProgramTask(c, n)])
  }

  /**
   * `gatherBranch`, from the loop state (`currentId`, `branchEndRef`) on:
   * the tasks still to be emitted and the final end reference.
   */
  function Gather(c: Ctx, cur: Option<string>, endRef: Option<string>, fuel: nat): Option<Branch>
    decreases fuel, 0, 0
  {
    if fuel == 0 then None
    else if !Truthy(cur) then Some(Branch([], endRef))
    else
      match NodeAt(c, cur.value)
      case None => Some(Branch([], endRef))
      case Some(n) => GatherNode(c, cur.value, n, endRef, fuel - 1)
  }

  /** One iteration of the `gatherBranch` loop at node `n` (stored under `id`). */
  function GatherNode(c: Ctx, id: string, n: Node, endRef: Option<string>, fuel: nat): Option<Branch>
    decreases fuel, 3, 0
  {
    match KindOf(n)
    case JoinNode => Some(Branch([], endRef))
    case ForkNode =>
      var step :- ProcessFork(c, id, fuel);
      var b :- Gather(c, step.next, step.joinId, fuel);
      Some(Branch([step.ForkTask(), step.JoinTask()] + b.tasks, b.endRef))
    case StartNode => Some(Branch([], endRef))
    case EndNode => Some(Branch([], endRef))
    case ProgramNode =>
      var kids := Kids(c, id);
      if |kids| == 1 then
        var b :- Gather(c, Some(kids[0]), Some(n.id), fuel);
        Some(Branch([ProgramTask(c, n)] + b.tasks, b.endRef))
      else
        Some(Branch([ProgramTask(c, n)], Some(n.id)))
  }

  /** The `forkEdges.forEach` of `processFork`: one arm per branch edge. */
  function GatherArms(c: Ctx, es: seq<Edge>, fuel: nat): Option<seq<Arm>>
    decreases fuel, 1, |es|
  {
    if |es| == 0 then Some([])
    else
      var b :- Gather(c, Some(es[0].tgtCell), None, fuel);
      var rest :- GatherArms(c, es[1..], fuel);
      Some([ArmOf(b, es[0].tgtCell)] + rest)
  }

  /** `processFork`. */
  function ProcessFork(c: Ctx, forkId: string, fuel: nat): Option<ForkStep>
    decreases fuel, 2, 0
  {
    var arms :- GatherArms(c, BranchEdges(c, forkId), fuel);
    var joinId := ResolveJoin(c, ArmEnds(arms));
    var next := if Truthy(joinId) then FirstChild(c, joinId.value) else None;
    Some(ForkStep(forkId, arms, joinId, next))
  }

  /** `convertWorkflow(rawData, workflowName, systemName)`. */
  function Compile(cells: seq<Cell>, workflowName: string, systemName: string, legacy: bool, fuel: nat)
    : Option<Workflow>
  {
    var c := Context(cells, legacy);
    var tasks :- Walk(c, Entry(c), fuel);
    Some(Workflow(workflowName, tasks, systemName, cells))
  }
}
