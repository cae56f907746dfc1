/** What `convertWorkflow` guarantees about the workflows it emits. */
module CompilerProps {
  import opened Wrappers
  import opened Text
  import opened Seqs
  import opened Sorting
  import opened Graph
  import opened Compiler

  // ---------------------------------------------------------------------------
  // Branch end references
  // ---------------------------------------------------------------------------

  /** How one emitted task moves the end reference: a program task or a JOIN sets it, a FORK leaves it. */
  function AfterTask(t: Task, before: Option<string>): Option<string> {
    match t
    case Simple(_, r, _) => Some(r)
    case Join(r, _) => r
    case Fork(_, _) => before
  }

  /**
   * The end reference a task list leaves behind, read off the tasks alone:
   * the id of the last program task or the reference of the last JOIN,
   * whichever comes later, and `before` when the list has neither.
   */
  function EndRef(ts: seq<Task>, before: Option<string>): Option<string>
    decreases |ts|
  {
    if |ts| == 0 then before else EndRef(ts[1..], AfterTask(ts[0], before))
  }

  /** A list of FORK tasks alone leaves the end reference as it was. */
  lemma {:induction false} EndRefAllForks(ts: seq<Task>, before: Option<string>)
    requires forall i :: 0 <= i < |ts| ==> ts[i].Fork?
    ensures EndRef(ts, before) == before
    decreases |ts|
  {
    if |ts| > 0 {
      assert forall j :: 0 <= j < |ts[1..]| ==> ts[1..][j] == ts[j + 1];
      EndRefAllForks(ts[1..], before);
    }
  }

  /** `EndRef` is the reference of the last task that is not a FORK. */
  lemma {:induction false} EndRefIsLast(ts: seq<Task>, before: Option<string>, i: nat)
    requires i < |ts| && !ts[i].Fork?
    requires forall j :: i < j < |ts| ==> ts[j].Fork?
    ensures EndRef(ts, before) == ts[i].Reference()
    decreases |ts|
  {
    if i > 0 {
      var tail := ts[1..];
      assert tail[i - 1] == ts[i];
      assert forall j :: i - 1 < j < |tail| ==> tail[j] == ts[j + 1];
      EndRefIsLast(tail, AfterTask(ts[0], before), i - 1);
    } else {
      var tail := ts[1..];
      assert forall j :: 0 <= j < |tail| ==> tail[j] == ts[j + 1];
      EndRefAllForks(tail, AfterTask(ts[0], before));
    }
  }

  /**
   * `branchEndRef` after `gatherBranch`: the reference of the last program
   * task or nested JOIN the branch emitted, or the value it started with
   * when the branch emitted neither.
   */
  lemma {:induction false} GatherEndRef(c: Ctx, cur: Option<string>, before: Option<string>, fuel: nat)
    requires Gather(c, cur, before, fuel).Some?
    ensures Gather(c, cur, before, fuel).value.endRef == EndRef(Gather(c, cur, before, fuel).value.tasks, before)
    decreases fuel, 0
  {
    if Truthy(cur) && NodeAt(c, cur.value).Some? {
      GatherNodeEndRef(c, cur.value, NodeAt(c, cur.value).value, before, fuel - 1);
    }
  }

  lemma {:induction false} GatherNodeEndRef(c: Ctx, id: string, n: Node, before: Option<string>, fuel: nat)
    requires GatherNode(c, id, n, before, fuel).Some?
    ensures GatherNode(c, id, n, before, fuel).value.endRef
         == EndRef(GatherNode(c, id, n, before, fuel).value.tasks, before)
    decreases fuel, 3
  {
    match KindOf(n)
    case ForkNode =>
      var step := ProcessFork(c, id, fuel).value;
      var b := Gather(c, step.next, step.joinId, fuel).value;
      assert b.endRef == EndRef(b.tasks, step.joinId) by {
        GatherEndRef(c, step.next, step.joinId, fuel);
      }
      ForkSplice(step, b, before);
    case ProgramNode =>
      var kids := Kids(c, id);
      if |kids| == 1 {
        var b := Gather(c, Some(kids[0]), Some(n.id), fuel).value;
        assert b.endRef == EndRef(b.tasks, Some(n.id)) by {
          GatherEndRef(c, Some(kids[0]), Some(n.id), fuel);
        }
        assert ([ProgramTask(c, n)] + b.tasks)[1..] == b.tasks;
      }
    case _ =>
  }

  /** A FORK/JOIN pair leaves the end reference to the JOIN, so a later end reference wins. */
  lemma ForkSplice(step: ForkStep, b: Branch, before: Option<string>)
    requires b.endRef == EndRef(b.tasks, step.joinId)
    ensures b.endRef == EndRef([step.ForkTask(), step.JoinTask()] + b.tasks, before)
  {
    var ts := [step.ForkTask(), step.JoinTask()] + b.tasks;
    assert ts[1..][1..] == b.tasks;
  }

  /**
   * A fork arm's join reference: the branch's end reference when it is a
   * non-empty id, otherwise the id of the branch's first node.
   */
  lemma ArmEnd(c: Ctx, childId: string, fuel: nat)
    requires Gather(c, Some(childId), None, fuel).Some?
    ensures var b := Gather(c, Some(childId), None, fuel).value;
      var r := EndRef(b.tasks, None);
      ArmOf(b, childId).end == (if r.Some? && r.value != "" then r.value else childId)
  {
    GatherEndRef(c, Some(childId), None, fuel);
  }

  // ---------------------------------------------------------------------------
  // Fork resolution
  // ---------------------------------------------------------------------------

  /** `GatherArms` walks one branch per edge, in edge order. */
  lemma {:induction false} ArmsSpec(c: Ctx, es: seq<Edge>, fuel: nat)
    requires GatherArms(c, es, fuel).Some?
    ensures var arms := GatherArms(c, es, fuel).value;
      && |arms| == |es|
      && forall i :: 0 <= i < |es| ==>
           && Gather(c, Some(es[i].tgtCell), None, fuel).Some?
           && arms[i] == ArmOf(Gather(c, Some(es[i].tgtCell), None, fuel).value, es[i].tgtCell)
    decreases |es|
  {
    if |es| > 0 {
      ArmsSpec(c, es[1..], fuel);
      var arms := GatherArms(c, es, fuel).value;
      forall i | 1 <= i < |es|
        ensures arms[i] == ArmOf(Gather(c, Some(es[i].tgtCell), None, fuel).value, es[i].tgtCell)
      {
        assert es[i] == es[1..][i - 1];
      }
    }
  }

  /** Every FORK task of a fork node: one branch per outgoing edge, ordered by source port number. */
  lemma ForkShape(c: Ctx, forkId: string, fuel: nat)
    requires ProcessFork(c, forkId, fuel).Some?
    ensures var step := ProcessFork(c, forkId, fuel).value;
      var order := BranchEdges(c, forkId);
      && |order| == |OutEdges(c.edges, forkId)|
      && multiset(order) == multiset(OutEdges(c.edges, forkId))
      && (forall i, j :: 0 <= i < j < |order| ==> PortRank(order[i].srcPort) <= PortRank(order[j].srcPort))
      && step.ForkTask().taskReferenceName == forkId
      && |step.ForkTask().forkTasks| == |order|
      && |step.JoinTask().joinOn| == |order|
      && forall i :: 0 <= i < |order| ==>
           && Gather(c, Some(order[i].tgtCell), None, fuel).Some?
           && step.ForkTask().forkTasks[i].tasks == Gather(c, Some(order[i].tgtCell), None, fuel).value.tasks
           && step.JoinTask().joinOn[i] == ArmOf(Gather(c, Some(order[i].tgtCell), None, fuel).value, order[i].tgtCell).end
  {
    var order := BranchEdges(c, forkId);
    SortBySpec(OutEdges(c.edges, forkId), SourceRank);
    ArmsSpec(c, order, fuel);
    var step := ProcessFork(c, forkId, fuel).value;
    forall i, j | 0 <= i < j < |order| ensures PortRank(order[i].srcPort) <= PortRank(order[j].srcPort) {
      assert SourceRank(order[i]) <= SourceRank(order[j]);
    }
  }

  /** Edges leaving the fork through ports with the same number keep their document order. */
  lemma ForkOrderStable(c: Ctx, forkId: string, rank: int)
    ensures WithKey(BranchEdges(c, forkId), SourceRank, rank) == WithKey(OutEdges(c.edges, forkId), SourceRank, rank)
  {
    SortBySpec(OutEdges(c.edges, forkId), SourceRank);
  }

  /** Port numbers compare as numbers: `output10` comes after `output2`. */
  lemma NumericPortOrder()
    ensures PortRank("output2") == 2 && PortRank("output10") == 10
    ensures PortRank("output") == -1
  {
    PortRankOfName("output", 2);
    PortRankOfName("output", 10);
    assert NatToString(2) == "2";
    assert NatToString(10) == "10";
    assert "output" + "2" == "output2";
    assert "output" + "10" == "output10";
    assert NoDigits("output");
    assert FirstDigitRun("output") == "";
  }

  // ---------------------------------------------------------------------------
  // Fuel: more fuel never changes a result that was reached
  // ---------------------------------------------------------------------------

  lemma {:induction false} WalkFuel(c: Ctx, cur: Option<string>, f: nat, g: nat)
    requires f <= g && Walk(c, cur, f).Some?
    ensures Walk(c, cur, g) == Walk(c, cur, f)
    decreases f, 0, 0
  {
    if Truthy(cur) && NodeAt(c, cur.value).Some? {
      WalkNodeFuel(c, cur.value, NodeAt(c, cur.value).value, f - 1, g - 1);
    }
  }

  lemma {:induction false} WalkNodeFuel(c: Ctx, id: string, n: Node, f: nat, g: nat)
    requires f <= g && WalkNode(c, id, n, f).Some?
    ensures WalkNode(c, id, n, g) == WalkNode(c, id, n, f)
    decreases f, 3, 0
  {
    match KindOf(n)
    case ForkNode =>
      ProcessForkFuel(c, id, f, g);
      WalkFuel(c, ProcessFork(c, id, f).value.next, f, g);
    case JoinNode => WalkFuel(c, FirstChild(c, id), f, g);
    case StartNode => WalkFuel(c, FirstChild(c, id), f, g);
    case EndNode =>
    case ProgramNode =>
      var kids := Kids(c, id);
      if |kids| == 1 {
        WalkFuel(c, Some(kids[0]), f, g);
      }
  }

  lemma {:induction false} GatherFuel(c: Ctx, cur: Option<string>, endRef: Option<string>, f: nat, g: nat)
    requires f <= g && Gather(c, cur, endRef, f).Some?
    ensures Gather(c, cur, endRef, g) == Gather(c, cur, endRef, f)
    decreases f, 0, 0
  {
    if Truthy(cur) && NodeAt(c, cur.value).Some? {
      GatherNodeFuel(c, cur.value, NodeAt(c, cur.value).value, endRef, f - 1, g - 1);
    }
  }

  lemma {:induction false} GatherNodeFuel(c: Ctx, id: string, n: Node, endRef: Option<string>, f: nat, g: nat)
    requires f <= g && GatherNode(c, id, n, endRef, f).Some?
    ensures GatherNode(c, id, n, endRef, g) == GatherNode(c, id, n, endRef, f)
    decreases f, 3, 0
  {
    match KindOf(n)
    case ForkNode =>
      ProcessForkFuel(c, id, f, g);
      var step := ProcessFork(c, id, f).value;
      GatherFuel(c, step.next, step.joinId, f, g);
    case ProgramNode =>
      var kids := Kids(c, id);
      if |kids| == 1 {
        GatherFuel(c, Some(kids[0]), Some(n.id), f, g);
      }
    case _ =>
  }

  lemma {:induction false} GatherArmsFuel(c: Ctx, es: seq<Edge>, f: nat, g: nat)
    requires f <= g && GatherArms(c, es, f).Some?
    ensures GatherArms(c, es, g) == GatherArms(c, es, f)
    decreases f, 1, |es|
  {
    if |es| > 0 {
      GatherFuel(c, Some(es[0].tgtCell), None, f, g);
      GatherArmsFuel(c, es[1..], f, g);
    }
  }

  lemma {:induction false} ProcessForkFuel(c: Ctx, forkId: string, f: nat, g: nat)
    requires f <= g && ProcessFork(c, forkId, f).Some?
    ensures ProcessFork(c, forkId, g) == ProcessFork(c, forkId, f)
    decreases f, 2, 0
  {
    GatherArmsFuel(c, BranchEdges(c, forkId), f, g);
  }

  // ---------------------------------------------------------------------------
  // Join resolution
  // ---------------------------------------------------------------------------

  /** Each `reduce` step keeps the accumulated elements that are also children of the next end. */
  lemma {:induction false} IntersectIsFilter(c: Ctx, acc: seq<string>, ends: seq<string>)
    ensures Intersect(c, acc, ends) == Filter(acc, ChildOfAll(c, ends))
    decreases |ends|
  {
    if |ends| == 0 {
      FilterAll(acc, ChildOfAll(c, ends));
    } else {
      IntersectIsFilter(c, Filter(acc, ChildOf(c, ends[0])), ends[1..]);
      forall x ensures ChildOfAll(c, ends)(x) == (ChildOf(c, ends[0])(x) && ChildOfAll(c, ends[1..])(x)) {
        assert forall k :: 1 <= k < |ends| ==> ends[k] == ends[1..][k - 1];
      }
      FilterFilter(acc, ChildOf(c, ends[0]), ChildOfAll(c, ends[1..]), ChildOfAll(c, ends));
    }
  }

  /** The join is the first child of the first branch end that is a child of every branch end. */
  lemma ResolveJoinIsFirstCommon(c: Ctx, ends: seq<string>)
    ensures ResolveJoin(c, ends) == (if |ends| == 0 then None else FirstWhere(Kids(c, ends[0]), ChildOfAll(c, ends)))
  {
    if |ends| > 0 {
      var kids := Kids(c, ends[0]);
      IntersectIsFilter(c, Dedup(kids), ends[1..]);
      FilterFirst(Dedup(kids), ChildOfAll(c, ends[1..]));
      FirstWhereDedup(kids, ChildOfAll(c, ends[1..]));
      forall i | 0 <= i < |kids| ensures ChildOfAll(c, ends[1..])(kids[i]) == ChildOfAll(c, ends)(kids[i]) {
        assert forall k :: 1 <= k < |ends| ==> ends[k] == ends[1..][k - 1];
      }
      FirstWhereCongruence(kids, ChildOfAll(c, ends[1..]), ChildOfAll(c, ends));
    }
  }

  /** The join depends only on `childrenMap`. */
  lemma ResolveJoinSameChildren(c: Ctx, d: Ctx, ends: seq<string>)
    requires c.childMap == d.childMap
    ensures ResolveJoin(c, ends) == ResolveJoin(d, ends)
  {
    ResolveJoinIsFirstCommon(c, ends);
    ResolveJoinIsFirstCommon(d, ends);
    if |ends| > 0 {
      FirstWhereCongruence(Kids(c, ends[0]), ChildOfAll(c, ends), ChildOfAll(d, ends));
    }
  }

  /**
   * The join found for a list of branch ends is a child of every end, and
   * no child of the first end that comes before it is; when there is none,
   * either there were no ends or no child of the first end is common to all.
   */
  lemma JoinIsCommonChild(c: Ctx, ends: seq<string>)
    ensures ResolveJoin(c, ends).Some? ==>
      var j := ResolveJoin(c, ends).value;
      && CommonChild(c, ends, j)
      && exists i :: 0 <= i < |Kids(c, ends[0])| && Kids(c, ends[0])[i] == j
           && forall m :: 0 <= m < i ==> !CommonChild(c, ends, Kids(c, ends[0])[m])
    ensures ResolveJoin(c, ends).None? <==>
      (|ends| == 0 || forall i :: 0 <= i < |Kids(c, ends[0])| ==> !CommonChild(c, ends, Kids(c, ends[0])[i]))
  {
    ResolveJoinIsFirstCommon(c, ends);
    if |ends| > 0 {
      FirstWhereSpec(Kids(c, ends[0]), ChildOfAll(c, ends));
    }
  }

  /** A fork with no common child of its branch ends: FORK, then a JOIN without reference, then nothing. */
  lemma WalkStopsWithoutJoin(c: Ctx, id: string, n: Node, fuel: nat)
    requires KindOf(n) == ForkNode && ProcessFork(c, id, fuel).Some?
    requires ProcessFork(c, id, fuel).value.joinId.None?
    ensures var step := ProcessFork(c, id, fuel).value;
      fuel > 0 ==> WalkNode(c, id, n, fuel) == Some([step.ForkTask(), step.JoinTask()])
    ensures ProcessFork(c, id, fuel).value.JoinTask().Reference().None?
  {
    var step := ProcessFork(c, id, fuel).value;
    assert [step.ForkTask(), step.JoinTask()] + [] == [step.ForkTask(), step.JoinTask()];
  }

  // ---------------------------------------------------------------------------
  // Shape of the emitted task list
  // ---------------------------------------------------------------------------

  /**
   * FORK and JOIN tasks come in adjacent pairs of equal width: every FORK is
   * immediately followed by a JOIN naming one reference per branch, every
   * JOIN immediately follows a FORK, and every branch is again of this shape.
   */
  predicate WellNested(ts: seq<Task>)
    decreases ts
  {
    && (forall i :: 0 <= i < |ts| && ts[i].Fork? ==>
         i + 1 < |ts| && ts[i + 1].Join? && |ts[i + 1].joinOn| == |ts[i].forkTasks|)
    && (forall i :: 0 <= i < |ts| && ts[i].Join? ==> i > 0 && ts[i - 1].Fork?)
    && (forall i :: 0 <= i < |ts| ==> BranchesNested(ts[i]))
  }

  predicate BranchesNested(t: Task)
    decreases t
  {
    t.Fork? ==> forall k :: 0 <= k < |t.forkTasks| ==> WellNested(t.forkTasks[k].tasks)
  }

  /** A program task in front keeps a well-nested list well nested. */
  lemma SimpleConsNested(t: Task, ts: seq<Task>)
    requires t.Simple? && WellNested(ts)
    ensures WellNested([t] + ts)
  {
    var r := [t] + ts;
    assert forall i :: 1 <= i < |r| ==> r[i] == ts[i - 1];
  }

  /** A FORK/JOIN pair of equal width over well-nested branches, in front of a well-nested list. */
  lemma PairConsNested(f: Task, j: Task, ts: seq<Task>)
    requires f.Fork? && j.Join? && |j.joinOn| == |f.forkTasks| && BranchesNested(f) && WellNested(ts)
    ensures WellNested([f, j] + ts)
  {
    var r := [f, j] + ts;
    assert forall i :: 2 <= i < |r| ==> r[i] == ts[i - 2];
    assert r[0] == f && r[1] == j;
  }

  /** The arm task lists of a fork are well nested when every arm is. */
  lemma ForkStepNested(step: ForkStep)
    requires forall k :: 0 <= k < |step.arms| ==> WellNested(step.arms[k].tasks)
    ensures step.ForkTask().Fork? && step.JoinTask().Join?
    ensures |step.JoinTask().joinOn| == |step.ForkTask().forkTasks|
    ensures BranchesNested(step.ForkTask())
  {
    var f := step.ForkTask();
    forall k | 0 <= k < |f.forkTasks| ensures WellNested(f.forkTasks[k].tasks) {
      assert f.forkTasks[k].tasks == step.arms[k].tasks;
    }
  }

  lemma {:induction false} WalkNested(c: Ctx, cur: Option<string>, fuel: nat)
    requires Walk(c, cur, fuel).Some?
    ensures WellNested(Walk(c, cur, fuel).value)
    decreases fuel, 0, 0
  {
    if Truthy(cur) && NodeAt(c, cur.value).Some? {
      WalkNodeNested(c, cur.value, NodeAt(c, cur.value).value, fuel - 1);
    }
  }

  lemma {:induction false} WalkNodeNested(c: Ctx, id: string, n: Node, fuel: nat)
    requires WalkNode(c, id, n, fuel).Some?
    ensures WellNested(WalkNode(c, id, n, fuel).value)
    decreases fuel, 3, 0
  {
    match KindOf(n)
    case ForkNode =>
      var step := ProcessFork(c, id, fuel).value;
      ProcessForkNested(c, id, fuel);
      WalkNested(c, step.next, fuel);
      ForkStepNested(step);
      PairConsNested(step.ForkTask(), step.JoinTask(), Walk(c, step.next, fuel).value);
    case JoinNode => WalkNested(c, FirstChild(c, id), fuel);
    case StartNode => WalkNested(c, FirstChild(c, id), fuel);
    case EndNode =>
    case ProgramNode =>
      var kids := Kids(c, id);
      if |kids| == 1 {
        WalkNested(c, Some(kids[0]), fuel);
        SimpleConsNested(ProgramTask(c, n), Walk(c, Some(kids[0]), fuel).value);
      } else {
        SimpleConsNested(ProgramTask(c, n), []);
      }
  }

  lemma {:induction false} GatherNested(c: Ctx, cur: Option<string>, endRef: Option<string>, fuel: nat)
    requires Gather(c, cur, endRef, fuel).Some?
    ensures WellNested(Gather(c, cur, endRef, fuel).value.tasks)
    decreases fuel, 0, 0
  {
    if Truthy(cur) && NodeAt(c, cur.value).Some? {
      GatherNodeNested(c, cur.value, NodeAt(c, cur.value).value, endRef, fuel - 1);
    }
  }

  lemma {:induction false} GatherNodeNested(c: Ctx, id: string, n: Node, endRef: Option<string>, fuel: nat)
    requires GatherNode(c, id, n, endRef, fuel).Some?
    ensures WellNested(GatherNode(c, id, n, endRef, fuel).value.tasks)
    decreases fuel, 3, 0
  {
    match KindOf(n)
    case ForkNode =>
      var step := ProcessFork(c, id, fuel).value;
      ProcessForkNested(c, id, fuel);
      GatherNested(c, step.next, step.joinId, fuel);
      ForkStepNested(step);
      PairConsNested(step.ForkTask(), step.JoinTask(), Gather(c, step.next, step.joinId, fuel).value.tasks);
    case ProgramNode =>
      var kids := Kids(c, id);
      if |kids| == 1 {
        GatherNested(c, Some(kids[0]), Some(n.id), fuel);
        SimpleConsNested(ProgramTask(c, n), Gather(c, Some(kids[0]), Some(n.id), fuel).value.tasks);
      } else {
        SimpleConsNested(ProgramTask(c, n), []);
      }
    case _ =>
  }

  lemma {:induction false} GatherArmsNested(c: Ctx, es: seq<Edge>, fuel: nat)
    requires GatherArms(c, es, fuel).Some?
    ensures var arms := GatherArms(c, es, fuel).value;
      forall k :: 0 <= k < |arms| ==> WellNested(arms[k].tasks)
    decreases fuel, 1, |es|
  {
    if |es| > 0 {
      GatherNested(c, Some(es[0].tgtCell), None, fuel);
      GatherArmsNested(c, es[1..], fuel);
      var arms := GatherArms(c, es, fuel).value;
      var rest := GatherArms(c, es[1..], fuel).value;
      assert forall k :: 1 <= k < |arms| ==> arms[k] == rest[k - 1];
    }
  }

  lemma {:induction false} ProcessForkNested(c: Ctx, forkId: string, fuel: nat)
    requires ProcessFork(c, forkId, fuel).Some?
    ensures var step := ProcessFork(c, forkId, fuel).value;
      forall k :: 0 <= k < |step.arms| ==> WellNested(step.arms[k].tasks)
    decreases fuel, 2, 0
  {
    GatherArmsNested(c, BranchEdges(c, forkId), fuel);
  }

  // ---------------------------------------------------------------------------
  // The older compiler copy
  // ---------------------------------------------------------------------------

  /** A task as the older copy emits it: program tasks lose `nodeData`, at every depth. */
  function StripTask(t: Task): (r: Task)
    ensures r.Reference() == t.Reference() && r.Name() == t.Name() && r.Type() == t.Type()
    decreases t, 0
  {
    match t
    case Simple(name, ref, _) => Simple(name, ref, None)
    case Fork(ref, lists) => Fork(ref, StripLists(lists))
    case Join(_, _) => t
  }

  function StripLists(ls: seq<TaskList>): (r: seq<TaskList>)
    ensures |r| == |ls|
    decreases ls, 1
  {
    if |ls| == 0 then [] else [TaskList(StripTasks(ls[0].tasks))] + StripLists(ls[1..])
  }

  function StripTasks(ts: seq<Task>): (r: seq<Task>)
    ensures |r| == |ts|
    decreases ts, 1
  {
    if |ts| == 0 then [] else [StripTask(ts[0])] + StripTasks(ts[1..])
  }

  function StripArms(arms: seq<Arm>): (r: seq<Arm>)
    ensures |r| == |arms|
  {
    if |arms| == 0 then [] else [Arm(StripTasks(arms[0].tasks), arms[0].end)] + StripArms(arms[1..])
  }

  function Legacy(c: Ctx): Ctx {
    c.(legacy := true)
  }

  function Current(c: Ctx): Ctx {
    c.(legacy := false)
  }

  lemma {:induction false} StripTasksConcat(a: seq<Task>, b: seq<Task>)
    ensures StripTasks(a + b) == StripTasks(a) + StripTasks(b)
    decreases |a|
  {
    if |a| == 0 {
      assert a + b == b;
    } else {
      assert (a + b)[1..] == a[1..] + b;
      StripTasksConcat(a[1..], b);
    }
  }

  lemma StripArmsSpec(arms: seq<Arm>)
    ensures ArmEnds(StripArms(arms)) == ArmEnds(arms)
    ensures ArmTasks(StripArms(arms)) == StripLists(ArmTasks(arms))
  {
    StripArmsEnds(arms);
    StripArmsTasks(arms);
  }

  lemma {:induction false} StripArmsEnds(arms: seq<Arm>)
    ensures ArmEnds(StripArms(arms)) == ArmEnds(arms)
    decreases |arms|
  {
    if |arms| > 0 {
      StripArmsEnds(arms[1..]);
      assert ArmEnds(arms)[1..] == ArmEnds(arms[1..]);
      assert ArmEnds(StripArms(arms))[1..] == ArmEnds(StripArms(arms[1..]));
    }
  }

  lemma {:induction false} StripArmsTasks(arms: seq<Arm>)
    ensures ArmTasks(StripArms(arms)) == StripLists(ArmTasks(arms))
    decreases |arms|
  {
    if |arms| > 0 {
      StripArmsTasks(arms[1..]);
      assert ArmTasks(arms)[1..] == ArmTasks(arms[1..]);
      assert ArmTasks(StripArms(arms))[1..] == ArmTasks(StripArms(arms[1..]));
    }
  }

  /** The older copy's FORK/JOIN pair is the current one's with `nodeData` stripped. */
  lemma StripStep(step: ForkStep, legacyArms: seq<Arm>)
    requires legacyArms == StripArms(step.arms)
    ensures var old_ := ForkStep(step.forkId, legacyArms, step.joinId, step.next);
      [old_.ForkTask(), old_.JoinTask()] == StripTasks([step.ForkTask(), step.JoinTask()])
  {
    StripArmsSpec(step.arms);
    var pair := [step.ForkTask(), step.JoinTask()];
    assert pair[1..] == [step.JoinTask()];
    assert StripTasks([step.JoinTask()]) == [step.JoinTask()];
    assert StripTasks(pair) == [StripTask(step.ForkTask())] + [step.JoinTask()];
  }

  lemma {:induction false} WalkLegacy(c: Ctx, cur: Option<string>, fuel: nat)
    ensures Walk(Legacy(c), cur, fuel).Some? == Walk(Current(c), cur, fuel).Some?
    ensures Walk(Current(c), cur, fuel).Some? ==>
      Walk(Legacy(c), cur, fuel).value == StripTasks(Walk(Current(c), cur, fuel).value)
    decreases fuel, 0, 0
  {
    if fuel > 0 && Truthy(cur) && NodeAt(c, cur.value).Some? {
      WalkNodeLegacy(c, cur.value, NodeAt(c, cur.value).value, fuel - 1);
    }
  }

  lemma {:induction false} WalkNodeLegacy(c: Ctx, id: string, n: Node, fuel: nat)
    ensures WalkNode(Legacy(c), id, n, fuel).Some? == WalkNode(Current(c), id, n, fuel).Some?
    ensures WalkNode(Current(c), id, n, fuel).Some? ==>
      WalkNode(Legacy(c), id, n, fuel).value == StripTasks(WalkNode(Current(c), id, n, fuel).value)
    decreases fuel, 3, 0
  {
    var l, m := Legacy(c), Current(c);
    match KindOf(n)
    case ForkNode =>
      ProcessForkLegacy(c, id, fuel);
      if ProcessFork(m, id, fuel).Some? {
        var step := ProcessFork(m, id, fuel).value;
        WalkLegacy(c, step.next, fuel);
        if Walk(m, step.next, fuel).Some? {
          StripStep(step, StripArms(step.arms));
          StripTasksConcat([step.ForkTask(), step.JoinTask()], Walk(m, step.next, fuel).value);
        }
      }
    case JoinNode => WalkLegacy(c, FirstChild(c, id), fuel);
    case StartNode => WalkLegacy(c, FirstChild(c, id), fuel);
    case EndNode =>
    case ProgramNode =>
      var kids := Kids(c, id);
      if |kids| == 1 {
        WalkLegacy(c, Some(kids[0]), fuel);
        if Walk(m, Some(kids[0]), fuel).Some? {
          StripTasksConcat([ProgramTask(m, n)], Walk(m, Some(kids[0]), fuel).value);
        }
      }
  }

  lemma {:induction false} GatherLegacy(c: Ctx, cur: Option<string>, endRef: Option<string>, fuel: nat)
    ensures Gather(Legacy(c), cur, endRef, fuel).Some? == Gather(Current(c), cur, endRef, fuel).Some?
    ensures Gather(Current(c), cur, endRef, fuel).Some? ==>
      var b := Gather(Current(c), cur, endRef, fuel).value;
      Gather(Legacy(c), cur, endRef, fuel).value == Branch(StripTasks(b.tasks), b.endRef)
    decreases fuel, 0, 0
  {
    if fuel > 0 && Truthy(cur) && NodeAt(c, cur.value).Some? {
      GatherNodeLegacy(c, cur.value, NodeAt(c, cur.value).value, endRef, fuel - 1);
    }
  }

  lemma {:induction false} GatherNodeLegacy(c: Ctx, id: string, n: Node, endRef: Option<string>, fuel: nat)
    ensures GatherNode(Legacy(c), id, n, endRef, fuel).Some? == GatherNode(Current(c), id, n, endRef, fuel).Some?
    ensures GatherNode(Current(c), id, n, endRef, fuel).Some? ==>
      var b := GatherNode(Current(c), id, n, endRef, fuel).value;
      GatherNode(Legacy(c), id, n, endRef, fuel).value == Branch(StripTasks(b.tasks), b.endRef)
    decreases fuel, 3, 0
  {
    var l, m := Legacy(c), Current(c);
    match KindOf(n)
    case ForkNode =>
      ProcessForkLegacy(c, id, fuel);
      if ProcessFork(m, id, fuel).Some? {
        var step := ProcessFork(m, id, fuel).value;
        GatherLegacy(c, step.next, step.joinId, fuel);
        if Gather(m, step.next, step.joinId, fuel).Some? {
          StripStep(step, StripArms(step.arms));
          StripTasksConcat([step.ForkTask(), step.JoinTask()], Gather(m, step.next, step.joinId, fuel).value.tasks);
        }
      }
    case ProgramNode =>
      var kids := Kids(c, id);
      if |kids| == 1 {
        GatherLegacy(c, Some(kids[0]), Some(n.id), fuel);
        if Gather(m, Some(kids[0]), Some(n.id), fuel).Some? {
          StripTasksConcat([ProgramTask(m, n)], Gather(m, Some(kids[0]), Some(n.id), fuel).value.tasks);
        }
      }
    case _ =>
  }

  lemma {:induction false} GatherArmsLegacy(c: Ctx, es: seq<Edge>, fuel: nat)
    ensures GatherArms(Legacy(c), es, fuel).Some? == GatherArms(Current(c), es, fuel).Some?
    ensures GatherArms(Current(c), es, fuel).Some? ==>
      GatherArms(Legacy(c), es, fuel).value == StripArms(GatherArms(Current(c), es, fuel).value)
    decreases fuel, 1, |es|
  {
    if |es| > 0 {
      GatherLegacy(c, Some(es[0].tgtCell), None, fuel);
      GatherArmsLegacy(c, es[1..], fuel);
    }
  }

  lemma {:induction false} ProcessForkLegacy(c: Ctx, forkId: string, fuel: nat)
    ensures ProcessFork(Legacy(c), forkId, fuel).Some? == ProcessFork(Current(c), forkId, fuel).Some?
    ensures ProcessFork(Current(c), forkId, fuel).Some? ==>
      var step := ProcessFork(Current(c), forkId, fuel).value;
      ProcessFork(Legacy(c), forkId, fuel).value == ForkStep(forkId, StripArms(step.arms), step.joinId, step.next)
    decreases fuel, 2, 0
  {
    var es := BranchEdges(c, forkId);
    assert BranchEdges(Legacy(c), forkId) == es == BranchEdges(Current(c), forkId);
    GatherArmsLegacy(c, es, fuel);
    if GatherArms(Current(c), es, fuel).Some? {
      var arms := GatherArms(Current(c), es, fuel).value;
      StripArmsSpec(arms);
      ResolveJoinSameChildren(Legacy(c), Current(c), ArmEnds(arms));
    }
  }

  /**
   * The older `convertWorkflow` succeeds on the same documents and emits the
   * same workflow, except that its program tasks carry no `nodeData`.
   */
  lemma CompileLegacy(cells: seq<Cell>, workflowName: string, systemName: string, fuel: nat)
    ensures Compile(cells, workflowName, systemName, true, fuel).Some?
         == Compile(cells, workflowName, systemName, false, fuel).Some?
    ensures Compile(cells, workflowName, systemName, false, fuel).Some? ==>
      var w := Compile(cells, workflowName, systemName, false, fuel).value;
      Compile(cells, workflowName, systemName, true, fuel).value
        == Workflow(w.name, StripTasks(w.tasks), w.systemName, w.rawData)
  {
    var c := Context(cells, false);
    assert Context(cells, true) == Legacy(c) && c == Current(c);
    WalkLegacy(c, Entry(c), fuel);
  }

  // ---------------------------------------------------------------------------
  // Entry node and single steps of the walk
  // ---------------------------------------------------------------------------

  /** The context reads the document as the list definitions do: last node wins, children in edge order. */
  lemma ContextSpec(cells: seq<Cell>, legacy: bool, id: string)
    ensures NodeAt(Context(cells, legacy), id) == Lookup(NodesOf(cells), id)
    ensures Kids(Context(cells, legacy), id) == Children(EdgesOf(cells), id)
  {
    NodeMapSpec(NodesOf(cells), id);
    ChildMapSpec(EdgesOf(cells), id);
  }

  /** A node no edge leaves has no children. */
  lemma {:induction false} ChildrenNone(es: seq<Edge>, id: string)
    requires forall k :: 0 <= k < |es| ==> es[k].srcCell != id
    ensures Children(es, id) == []
    decreases |es|
  {
    if |es| > 0 {
      assert forall k :: 0 <= k < |es[1..]| ==> es[1..][k] == es[k + 1];
      ChildrenNone(es[1..], id);
    }
  }

  /** The first child of `id` is the target of the first edge leaving `id`. */
  lemma {:induction false} ChildrenHead(es: seq<Edge>, id: string, k: nat)
    requires k < |es| && es[k].srcCell == id
    requires forall j :: 0 <= j < k ==> es[j].srcCell != id
    ensures |Children(es, id)| > 0 && Children(es, id)[0] == es[k].tgtCell
    decreases k
  {
    if k > 0 {
      assert forall j :: 0 <= j < k - 1 ==> es[1..][j] == es[j + 1];
      ChildrenHead(es[1..], id, k - 1);
    }
  }

  /** With an edge leaving "start", the walk begins at the target of the first such edge. */
  lemma EntryFromStart(cells: seq<Cell>, legacy: bool, k: nat)
    requires var es := EdgesOf(cells);
      k < |es| && es[k].srcCell == StartId && forall j :: 0 <= j < k ==> es[j].srcCell != StartId
    ensures Entry(Context(cells, legacy)) == Some(EdgesOf(cells)[k].tgtCell)
  {
    ContextSpec(cells, legacy, StartId);
    ChildrenHead(EdgesOf(cells), StartId, k);
  }

  /**
   * With no edge leaving "start", the walk begins at the first node id (in
   * `Object.keys` order) that no edge enters, and has no entry when every
   * node has a parent.
   */
  lemma EntryWithoutStart(cells: seq<Cell>, legacy: bool)
    requires forall k :: 0 <= k < |EdgesOf(cells)| ==> EdgesOf(cells)[k].srcCell != StartId
    ensures var c := Context(cells, legacy);
      Entry(c).None? <==> forall i :: 0 <= i < |c.keys| ==> HasParent(c.edges, c.keys[i])
    ensures var c := Context(cells, legacy);
      Entry(c).Some? ==>
        (exists i :: 0 <= i < |c.keys| && c.keys[i] == Entry(c).value
           && !HasParent(c.edges, c.keys[i]) && forall m :: 0 <= m < i ==> HasParent(c.edges, c.keys[m]))
  {
    var c := Context(cells, legacy);
    ContextSpec(cells, legacy, StartId);
    ChildrenNone(EdgesOf(cells), StartId);
    FirstWhereSpec(c.keys, NoParentIn(c.edges));
  }

  /** `Object.keys(nodeMap)` lists every node id once. */
  lemma KeysSpec(cells: seq<Cell>, legacy: bool)
    ensures var c := Context(cells, legacy);
      && (forall id :: id in c.keys <==> id in c.nodeMap)
      && (forall i, j :: 0 <= i < j < |c.keys| ==> c.keys[i] != c.keys[j])
  {
    var ns := NodesOf(cells);
    DedupSpec(Ids(ns));
    forall id ensures id in Ids(ns) <==> id in NodeMap(ns) {
      NodeMapSpec(ns, id);
      LookupSpec(ns, id);
      if id in Ids(ns) {
        var i :| 0 <= i < |Ids(ns)| && Ids(ns)[i] == id;
        assert ns[i].id == id;
      }
      if id in NodeMap(ns) {
        var i :| 0 <= i < |ns| && ns[i] == Lookup(ns, id).value && forall j :: i < j < |ns| ==> ns[j].id != id;
        assert Ids(ns)[i] == id;
      }
    }
  }

  /**
   * The walk has no cycle guard: a program node whose only child is itself
   * never finishes, whatever the bound.
   */
  lemma {:induction false} SelfLoopDiverges(c: Ctx, id: string, n: Node, fuel: nat)
    requires id != "" && NodeAt(c, id) == Some(n) && KindOf(n) == ProgramNode && Kids(c, id) == [id]
    ensures Walk(c, Some(id), fuel).None?
    decreases fuel
  {
    if fuel > 1 {
      SelfLoopDiverges(c, id, n, fuel - 1);
    }
  }
}
