/**
 * The save-time validator `validateWorkflow`, in its current form and in the
 * older, weaker form that the first toolbar shipped. Both run a fixed
 * sequence of checks over the canvas nodes (the rect cells, in document
 * order, the start node included) and the edges, and stop at the first
 * check that fails.
 */
module Validator {
  import opened Wrappers
  import opened Text
  import opened Seqs
  import opened Graph

  /** The outcome of a validation; each failure carries what its message shows. */
  datatype Verdict =
    | Valid
      /** A node with an unconnected port, as the message names it. */
    | UnconnectedPort(node: string)
    | MissingEnd
    | NoProgramNode
      /** The program nodes whose detail form is not saved (highlighted in red), in node order. */
    | UnsavedDetail(ids: seq<string>)

  /** An edge is attached to port `port` of node `node` at either of its ends. */
  predicate Touches(e: Edge, node: string, port: string) {
    (e.srcCell == node && e.srcPort == port) || (e.tgtCell == node && e.tgtPort == port)
  }

  /** `allEdges.some(edge => ...)`: some edge is attached to the port. */
  predicate Connected(es: seq<Edge>, node: string, port: string) {
    Any(es, (e: Edge) => Touches(e, node, port))
  }

  /** Only ports of the `input` and `output` groups are checked. */
  predicate Checked(p: Port) {
    p.group == "input" || p.group == "output"
  }

  /** A node with a checked port no edge is attached to. */
  predicate OpenPort(es: seq<Edge>, c: Cell) {
    c.Rect? && Any(c.ports, (p: Port) => Checked(p) && !Connected(es, c.id, p.id))
  }

  /** `badNodeName || badNodeId`: the node's display name, or its id when the name is empty. */
  function Label(c: Cell): string
    requires c.Rect?
  {
    if c.data.name != "" then c.data.name else c.id
  }

  const ProgramTypes: seq<string> := ["Shell", "Python", "PromQL", "LocalFile", "RemoteFile"]

  predicate IsEnd(c: Cell) {
    c.Rect? && c.nodeType == "end"
  }

  predicate IsProgram(c: Cell) {
    c.Rect? && c.nodeType in ProgramTypes
  }

  predicate Unsaved(c: Cell) {
    IsProgram(c) && !c.data.hasDetailSaved
  }

  function CellIds(cs: seq<Cell>): (ids: seq<string>)
    ensures |ids| == |cs|
    ensures forall i :: 0 <= i < |cs| ==> ids[i] == cs[i].id
  {
    seq(|cs|, i requires 0 <= i < |cs| => cs[i].id)
  }

  /** `validateWorkflow` of the current toolbar: ports, end node, program node, saved details, in that order. */
  function Validate(cells: seq<Cell>): (v: Verdict)
    ensures v.UnsavedDetail? ==> |v.ids| > 0
  {
    var es := EdgesOf(cells);
    var bad := FirstWhere(cells, (c: Cell) => OpenPort(es, c));
    if bad.Some? then UnconnectedPort(Label(bad.value))
    else if !Any(cells, IsEnd) then MissingEnd
    else if !Any(cells, IsProgram) then NoProgramNode
    else
      var unsaved := Filter(cells, Unsaved);
      if |unsaved| > 0 then UnsavedDetail(CellIds(unsaved)) else Valid
  }

  // Reference definitions of the four conditions, stated over the document directly.

  /** Some edge cell of the document is attached to port `port` of node `node`. */
  predicate Wired(cells: seq<Cell>, node: string, port: string) {
    exists k :: 0 <= k < |cells| && cells[k].Link? && Touches(EdgeOf(cells[k]), node, port)
  }

  /** Node `cells[i]` has no unwired input or output port. */
  predicate NodeWired(cells: seq<Cell>, i: int)
    requires 0 <= i < |cells| && cells[i].Rect?
  {
    forall j :: 0 <= j < |cells[i].ports| && Checked(cells[i].ports[j]) ==>
      Wired(cells, cells[i].id, cells[i].ports[j].id)
  }

  predicate AllWired(cells: seq<Cell>) {
    forall i :: 0 <= i < |cells| && cells[i].Rect? ==> NodeWired(cells, i)
  }

  predicate HasEnd(cells: seq<Cell>) {
    exists i :: 0 <= i < |cells| && cells[i].Rect? && cells[i].nodeType == "end"
  }

  predicate HasProgram(cells: seq<Cell>) {
    exists i :: 0 <= i < |cells| && cells[i].Rect? && cells[i].nodeType in ProgramTypes
  }

  predicate AllSaved(cells: seq<Cell>) {
    forall i :: 0 <= i < |cells| && cells[i].Rect? && cells[i].nodeType in ProgramTypes ==>
      cells[i].data.hasDetailSaved
  }

  /** The edge scan finds an attached edge exactly when the document has one. */
  lemma ConnectedSpec(cells: seq<Cell>, node: string, port: string)
    ensures Connected(EdgesOf(cells), node, port) <==> Wired(cells, node, port)
  {
    var es := EdgesOf(cells);
    AnySpec(es, (e: Edge) => Touches(e, node, port));
    EdgesOfSpec(cells);
    if Wired(cells, node, port) {
      var k :| 0 <= k < |cells| && cells[k].Link? && Touches(EdgeOf(cells[k]), node, port);
      assert EdgeOf(cells[k]) in es;
    }
  }

  /** The port scan of one node fails exactly when the node has an unwired checked port. */
  lemma OpenPortSpec(cells: seq<Cell>, i: int)
    requires 0 <= i < |cells|
    ensures OpenPort(EdgesOf(cells), cells[i]) <==> cells[i].Rect? && !NodeWired(cells, i)
  {
    var c := cells[i];
    if c.Rect? {
      var es := EdgesOf(cells);
      var q := (p: Port) => Checked(p) && !Connected(es, c.id, p.id);
      AnySpec(c.ports, q);
      forall j | 0 <= j < |c.ports| {
        ConnectedSpec(cells, c.id, c.ports[j].id);
      }
    }
  }

  /** No node has an open port exactly when every checked port is wired. */
  lemma NoOpenPort(cells: seq<Cell>)
    ensures FirstWhere(cells, (c: Cell) => OpenPort(EdgesOf(cells), c)).None? <==> AllWired(cells)
  {
    var es := EdgesOf(cells);
    FirstWhereSpec(cells, (c: Cell) => OpenPort(es, c));
    forall i | 0 <= i < |cells| {
      OpenPortSpec(cells, i);
    }
  }

  /** The three later checks each decide their reference condition. */
  lemma LaterChecks(cells: seq<Cell>)
    ensures Any(cells, IsEnd) <==> HasEnd(cells)
    ensures Any(cells, IsProgram) <==> HasProgram(cells)
    ensures |Filter(cells, Unsaved)| > 0 <==> !AllSaved(cells)
  {
    AnySpec(cells, IsEnd);
    AnySpec(cells, IsProgram);
    FilterSpec(cells, Unsaved);
  }

  /**
   * The checks run in order and stop at the first failure: each verdict is
   * given exactly when every earlier condition holds and its own fails.
   */
  lemma ValidateOrder(cells: seq<Cell>)
    ensures Validate(cells).UnconnectedPort? <==> !AllWired(cells)
    ensures Validate(cells) == MissingEnd <==> AllWired(cells) && !HasEnd(cells)
    ensures Validate(cells) == NoProgramNode <==> AllWired(cells) && HasEnd(cells) && !HasProgram(cells)
    ensures Validate(cells).UnsavedDetail? <==>
      AllWired(cells) && HasEnd(cells) && HasProgram(cells) && !AllSaved(cells)
    ensures Validate(cells) == Valid <==>
      AllWired(cells) && HasEnd(cells) && HasProgram(cells) && AllSaved(cells)
  {
    NoOpenPort(cells);
    LaterChecks(cells);
  }

  /** The port failure names the first node, in node order, with an unwired checked port. */
  lemma ReportsFirstOpenNode(cells: seq<Cell>)
    requires Validate(cells).UnconnectedPort?
    ensures (exists i :: 0 <= i < |cells| && cells[i].Rect? && !NodeWired(cells, i)
               && Validate(cells).node == Label(cells[i])
               && forall m :: 0 <= m < i && cells[m].Rect? ==> NodeWired(cells, m))
  {
    var es := EdgesOf(cells);
    var open := (c: Cell) => OpenPort(es, c);
    FirstWhereSpec(cells, open);
    var i :| 0 <= i < |cells| && cells[i] == FirstWhere(cells, open).value
      && forall m :: 0 <= m < i ==> !open(cells[m]);
    OpenPortSpec(cells, i);
    forall m | 0 <= m < i && cells[m].Rect? ensures NodeWired(cells, m) {
      OpenPortSpec(cells, m);
    }
  }

  /** The highlighted nodes are exactly the program nodes whose details are not saved. */
  lemma UnsavedAreHighlighted(cells: seq<Cell>)
    requires Validate(cells).UnsavedDetail?
    ensures forall x :: x in Validate(cells).ids <==>
      exists i :: 0 <= i < |cells| && cells[i].Rect? && cells[i].nodeType in ProgramTypes
        && !cells[i].data.hasDetailSaved && cells[i].id == x
  {
    var u := Filter(cells, Unsaved);
    FilterSpec(cells, Unsaved);
    assert Validate(cells).ids == CellIds(u);
    forall x ensures x in CellIds(u) <==>
      exists i :: 0 <= i < |cells| && cells[i].Rect? && cells[i].nodeType in ProgramTypes
        && !cells[i].data.hasDetailSaved && cells[i].id == x
    {
      if x in CellIds(u) {
        var j :| 0 <= j < |u| && CellIds(u)[j] == x;
        assert u[j] in cells;
      }
      if (exists i :: 0 <= i < |cells| && cells[i].Rect? && cells[i].nodeType in ProgramTypes
                   && !cells[i].data.hasDetailSaved && cells[i].id == x) {
        var i :| 0 <= i < |cells| && cells[i].Rect? && cells[i].nodeType in ProgramTypes
          && !cells[i].data.hasDetailSaved && cells[i].id == x;
        assert Unsaved(cells[i]);
        var j :| 0 <= j < |u| && u[j] == cells[i];
        assert CellIds(u)[j] == x;
      }
    }
  }

  // The older validator: every port of every node, the last offending node,
  // a case-insensitive and shorter program list, and no saved-detail check.

  /**
   * How the older validator's edge query `getConnectedEdges(node, { portId })`
   * is answered. The graph library's options for that query are `incoming`,
   * `outgoing`, `deep`, `enclosed` and `indirect`; it has no `portId`, so the
   * call as written returns every edge of the node (`NodeEdges`). The
   * evidently intended reading is the edges at that port (`PortEdges`).
   */
  datatype EdgeQuery = NodeEdges | PortEdges

  /** An edge has node `node` at either of its ends, whatever the port. */
  predicate AttachedTo(e: Edge, node: string) {
    e.srcCell == node || e.tgtCell == node
  }

  /** The query for port `port` of node `node` returns some edge. */
  predicate Answered(q: EdgeQuery, es: seq<Edge>, node: string, port: string) {
    match q
    case NodeEdges => Any(es, (e: Edge) => AttachedTo(e, node))
    case PortEdges => Connected(es, node, port)
  }

  /** A node with a port of any group for which the query returns no edge. */
  predicate OpenPortLegacy(q: EdgeQuery, es: seq<Edge>, c: Cell) {
    c.Rect? && Any(c.ports, (p: Port) => !Answered(q, es, c.id, p.id))
  }

  const LegacyProgramTypes: seq<string> := ["shell", "python", "promql"]

  predicate IsProgramLegacy(c: Cell) {
    c.Rect? && Lower(c.nodeType) in LegacyProgramTypes
  }

  /** `validateWorkflow` of the older toolbar; the port failure shows the node id. */
  function ValidateLegacy(cells: seq<Cell>, q: EdgeQuery): (v: Verdict)
    ensures !v.UnsavedDetail?
  {
    var es := EdgesOf(cells);
    var bad := LastWhere(cells, (c: Cell) => OpenPortLegacy(q, es, c));
    if bad.Some? then UnconnectedPort(bad.value.id)
    else if !Any(cells, IsEnd) then MissingEnd
    else if !Any(cells, IsProgramLegacy) then NoProgramNode
    else Valid
  }

  /** Some edge cell of the document has node `node` at one of its ends. */
  predicate Attached(cells: seq<Cell>, node: string) {
    exists k :: 0 <= k < |cells| && cells[k].Link? && AttachedTo(EdgeOf(cells[k]), node)
  }

  /** What the query demands of one port, stated over the document. */
  predicate WiredAs(q: EdgeQuery, cells: seq<Cell>, node: string, port: string) {
    match q
    case NodeEdges => Attached(cells, node)
    case PortEdges => Wired(cells, node, port)
  }

  /** Node `cells[i]` has no port the query finds unwired. */
  predicate NodeWiredLegacy(cells: seq<Cell>, i: int, q: EdgeQuery)
    requires 0 <= i < |cells| && cells[i].Rect?
  {
    forall j :: 0 <= j < |cells[i].ports| ==> WiredAs(q, cells, cells[i].id, cells[i].ports[j].id)
  }

  predicate AllWiredLegacy(cells: seq<Cell>, q: EdgeQuery) {
    forall i :: 0 <= i < |cells| && cells[i].Rect? ==> NodeWiredLegacy(cells, i, q)
  }

  predicate HasProgramLegacy(cells: seq<Cell>) {
    exists i :: 0 <= i < |cells| && cells[i].Rect? && Lower(cells[i].nodeType) in LegacyProgramTypes
  }

  /** The node-wide scan finds an edge exactly when the document has one at the node. */
  lemma AttachedSpec(cells: seq<Cell>, node: string)
    ensures Any(EdgesOf(cells), (e: Edge) => AttachedTo(e, node)) <==> Attached(cells, node)
  {
    var es := EdgesOf(cells);
    AnySpec(es, (e: Edge) => AttachedTo(e, node));
    EdgesOfSpec(cells);
    if Attached(cells, node) {
      var k :| 0 <= k < |cells| && cells[k].Link? && AttachedTo(EdgeOf(cells[k]), node);
      assert EdgeOf(cells[k]) in es;
    }
  }

  /** Either query finds an edge exactly when the document has what it asks for. */
  lemma AnsweredSpec(q: EdgeQuery, cells: seq<Cell>, node: string, port: string)
    ensures Answered(q, EdgesOf(cells), node, port) <==> WiredAs(q, cells, node, port)
  {
    match q
    case NodeEdges => AttachedSpec(cells, node);
    case PortEdges => ConnectedSpec(cells, node, port);
  }

  /**
   * The older port scan fails a node exactly when the query finds one of its
   * ports unwired; as written, that is exactly when the node has a port and
   * no edge at all.
   */
  lemma OpenPortLegacySpec(cells: seq<Cell>, i: int, q: EdgeQuery)
    requires 0 <= i < |cells|
    ensures OpenPortLegacy(q, EdgesOf(cells), cells[i]) <==> cells[i].Rect? && !NodeWiredLegacy(cells, i, q)
    ensures q == NodeEdges ==>
      (OpenPortLegacy(q, EdgesOf(cells), cells[i]) <==>
         cells[i].Rect? && |cells[i].ports| > 0 && !Attached(cells, cells[i].id))
  {
    var c := cells[i];
    if c.Rect? {
      var es := EdgesOf(cells);
      AnySpec(c.ports, (p: Port) => !Answered(q, es, c.id, p.id));
      forall j | 0 <= j < |c.ports| {
        AnsweredSpec(q, cells, c.id, c.ports[j].id);
      }
      if q == NodeEdges && |c.ports| > 0 {
        assert WiredAs(q, cells, c.id, c.ports[0].id) == Attached(cells, c.id);
      }
    }
  }

  /** The older checks run in order and stop at the first failure; passing three of them is valid. */
  lemma ValidateLegacyOrder(cells: seq<Cell>, q: EdgeQuery)
    ensures ValidateLegacy(cells, q).UnconnectedPort? <==> !AllWiredLegacy(cells, q)
    ensures ValidateLegacy(cells, q) == MissingEnd <==> AllWiredLegacy(cells, q) && !HasEnd(cells)
    ensures ValidateLegacy(cells, q) == NoProgramNode <==>
      AllWiredLegacy(cells, q) && HasEnd(cells) && !HasProgramLegacy(cells)
    ensures ValidateLegacy(cells, q) == Valid <==>
      AllWiredLegacy(cells, q) && HasEnd(cells) && HasProgramLegacy(cells)
  {
    var es := EdgesOf(cells);
    LastWhereSpec(cells, (c: Cell) => OpenPortLegacy(q, es, c));
    forall i | 0 <= i < |cells| {
      OpenPortLegacySpec(cells, i, q);
    }
    AnySpec(cells, IsEnd);
    AnySpec(cells, IsProgramLegacy);
  }

  /** The older port failure names the id of the last node, in node order, that the query finds unwired. */
  lemma LegacyReportsLastOpenNode(cells: seq<Cell>, q: EdgeQuery)
    requires ValidateLegacy(cells, q).UnconnectedPort?
    ensures (exists i :: 0 <= i < |cells| && cells[i].Rect? && !NodeWiredLegacy(cells, i, q)
               && ValidateLegacy(cells, q).node == cells[i].id
               && forall m :: i < m < |cells| && cells[m].Rect? ==> NodeWiredLegacy(cells, m, q))
  {
    var es := EdgesOf(cells);
    var open := (c: Cell) => OpenPortLegacy(q, es, c);
    LastWhereSpec(cells, open);
    var i :| 0 <= i < |cells| && cells[i] == LastWhere(cells, open).value
      && forall m :: i < m < |cells| ==> !open(cells[m]);
    OpenPortLegacySpec(cells, i, q);
    forall m | i < m < |cells| && cells[m].Rect? ensures NodeWiredLegacy(cells, m, q) {
      OpenPortLegacySpec(cells, m, q);
    }
  }

  /** A document wired port by port is wired node by node. */
  lemma PortWiringSuffices(cells: seq<Cell>)
    ensures AllWiredLegacy(cells, PortEdges) ==> AllWiredLegacy(cells, NodeEdges)
  {
    if AllWiredLegacy(cells, PortEdges) {
      forall i | 0 <= i < |cells| && cells[i].Rect? && |cells[i].ports| > 0
        ensures Attached(cells, cells[i].id)
      {
        var port := cells[i].ports[0].id;
        assert WiredAs(PortEdges, cells, cells[i].id, port);
        var k :| 0 <= k < |cells| && cells[k].Link? && Touches(EdgeOf(cells[k]), cells[i].id, port);
        assert AttachedTo(EdgeOf(cells[k]), cells[i].id);
      }
    }
  }

  /**
   * Read port by port, the older port check is the strictest: whatever the
   * current check or the node-wide reading rejects for ports, it rejects too.
   */
  lemma LegacyPortCheckStricter(cells: seq<Cell>)
    ensures Validate(cells).UnconnectedPort? ==> ValidateLegacy(cells, PortEdges).UnconnectedPort?
    ensures ValidateLegacy(cells, NodeEdges).UnconnectedPort? ==> ValidateLegacy(cells, PortEdges).UnconnectedPort?
  {
    ValidateOrder(cells);
    ValidateLegacyOrder(cells, PortEdges);
    ValidateLegacyOrder(cells, NodeEdges);
    PortWiringSuffices(cells);
    if !AllWired(cells) {
      var i :| 0 <= i < |cells| && cells[i].Rect? && !NodeWired(cells, i);
      assert !NodeWiredLegacy(cells, i, PortEdges);
    }
  }

  /** start → one program node `a` → end, with every port wired. */
  function Sample(program: string, saved: bool): seq<Cell> {
    [ Rect(StartId, "", Payload("", true, ""), [Port("output", "output")], None, None),
      Rect("a", program, Payload("", saved, ""), [Port("input", "input"), Port("output", "output")], None, None),
      Rect(EndId, "end", Payload("", true, ""), [Port("input", "input")], None, None),
      Link("e1", Endpoint(StartId, "output"), Endpoint("a", "input")),
      Link("e2", Endpoint("a", "output"), Endpoint(EndId, "input")) ]
  }

  /** Every port of the sample is wired, and it has an end node. */
  lemma SampleWired(program: string, saved: bool)
    ensures AllWiredLegacy(Sample(program, saved), PortEdges) && AllWiredLegacy(Sample(program, saved), NodeEdges)
    ensures AllWired(Sample(program, saved))
    ensures HasEnd(Sample(program, saved))
  {
    var cells := Sample(program, saved);
    assert cells[2].Rect? && cells[2].nodeType == "end";
    assert Touches(EdgeOf(cells[3]), StartId, "output");
    assert Touches(EdgeOf(cells[3]), "a", "input");
    assert Touches(EdgeOf(cells[4]), "a", "output");
    assert Touches(EdgeOf(cells[4]), EndId, "input");
    PortWiringSuffices(cells);
  }

  /** Of the sample's cells, only the program node can be unsaved. */
  lemma SampleUnsaved(program: string, saved: bool)
    ensures Filter(Sample(program, saved), Unsaved)
         == if Unsaved(Sample(program, saved)[1]) then [Sample(program, saved)[1]] else []
  {
    var cells := Sample(program, saved);
    assert cells[4..][1..] == [];
    assert Filter(cells[4..], Unsaved) == [];
    assert cells[3..][1..] == cells[4..];
    assert Filter(cells[3..], Unsaved) == [];
    assert cells[2..][1..] == cells[3..];
    assert Filter(cells[2..], Unsaved) == [];
    assert cells[1..][1..] == cells[2..];
  }

  /** An unsaved program node stops the current validator, which highlights it ... */
  lemma UnsavedStopsCurrent()
    ensures Validate(Sample("Shell", false)) == UnsavedDetail(["a"])
  {
    var cells := Sample("Shell", false);
    SampleWired("Shell", false);
    NoOpenPort(cells);
    LaterChecks(cells);
    assert cells[1].Rect? && cells[1].nodeType in ProgramTypes;
    SampleUnsaved("Shell", false);
    assert CellIds([cells[1]]) == ["a"];
  }

  /** ... while the older validator, under either reading of its edge query, accepts the same document. */
  lemma UnsavedPassesLegacy(q: EdgeQuery)
    ensures ValidateLegacy(Sample("Shell", false), q) == Valid
  {
    var cells := Sample("Shell", false);
    SampleWired("Shell", false);
    ValidateLegacyOrder(cells, q);
    assert Lower("Shell") == "shell";
    assert cells[1].Rect? && Lower(cells[1].nodeType) in LegacyProgramTypes;
  }

  /** A saved file node is a program node for the current validator ... */
  lemma FileNodePassesCurrent()
    ensures Validate(Sample("LocalFile", true)) == Valid
  {
    var cells := Sample("LocalFile", true);
    SampleWired("LocalFile", true);
    NoOpenPort(cells);
    LaterChecks(cells);
    assert cells[1].Rect? && cells[1].nodeType in ProgramTypes;
    SampleUnsaved("LocalFile", true);
  }

  /** ... but not for the older one, whose program check then fails under either reading. */
  lemma FileNodeFailsLegacy(q: EdgeQuery)
    ensures ValidateLegacy(Sample("LocalFile", true), q) == NoProgramNode
  {
    var cells := Sample("LocalFile", true);
    SampleWired("LocalFile", true);
    ValidateLegacyOrder(cells, q);
    forall i | 0 <= i < |cells| && cells[i].Rect?
      ensures Lower(cells[i].nodeType) !in LegacyProgramTypes
    {
      assert cells[i].nodeType in ["", "LocalFile", "end"];
      assert |Lower(cells[i].nodeType)| == |cells[i].nodeType|;
    }
  }

  /** start → fork `f` → program node `a` → end; the fork's second output is left unwired. */
  const OpenBranch: seq<Cell> := [
    Rect(StartId, "", Payload("", true, ""), [Port("output", "output")], None, None),
    Rect("f", "fork", Payload("", true, ""),
         [Port("input", "input"), Port("output1", "output"), Port("output2", "output")], None, None),
    Rect("a", "Shell", Payload("", true, ""), [Port("input", "input"), Port("output", "output")], None, None),
    Rect(EndId, "end", Payload("", true, ""), [Port("input", "input")], None, None),
    Link("e1", Endpoint(StartId, "output"), Endpoint("f", "input")),
    Link("e2", Endpoint("f", "output1"), Endpoint("a", "input")),
    Link("e3", Endpoint("a", "output"), Endpoint(EndId, "input"))
  ]

  /** No edge is attached to the fork's `output2`. */
  lemma OpenBranchUnwired()
    ensures !Wired(OpenBranch, "f", "output2")
  {
    var cells := OpenBranch;
    forall k | 0 <= k < |cells| && cells[k].Link?
      ensures !Touches(EdgeOf(cells[k]), "f", "output2")
    {
      assert k in {4, 5, 6};
    }
  }

  /** The current validator rejects the open branch, naming the fork ... */
  lemma OpenBranchFailsCurrent()
    ensures Validate(OpenBranch) == UnconnectedPort("f")
  {
    var cells := OpenBranch;
    OpenBranchUnwired();
    assert cells[1].ports[2] == Port("output2", "output");
    assert !NodeWired(cells, 1);
    ValidateOrder(cells);
    ReportsFirstOpenNode(cells);
    assert NodeWired(cells, 0) by {
      assert Touches(EdgeOf(cells[4]), StartId, "output");
    }
  }

  /** ... and so does the older one read port by port ... */
  lemma OpenBranchFailsByPort()
    ensures ValidateLegacy(OpenBranch, PortEdges) == UnconnectedPort("f")
  {
    var cells := OpenBranch;
    OpenBranchUnwired();
    assert cells[1].ports[2] == Port("output2", "output");
    assert !NodeWiredLegacy(cells, 1, PortEdges);
    ValidateLegacyOrder(cells, PortEdges);
    LegacyReportsLastOpenNode(cells, PortEdges);
    assert NodeWiredLegacy(cells, 2, PortEdges) by {
      assert Touches(EdgeOf(cells[5]), "a", "input");
      assert Touches(EdgeOf(cells[6]), "a", "output");
    }
    assert NodeWiredLegacy(cells, 3, PortEdges) by {
      assert Touches(EdgeOf(cells[6]), EndId, "input");
    }
  }

  /** ... while the older validator as written, which only asks whether the fork has any edge, accepts it. */
  lemma OpenBranchPassesLegacy()
    ensures ValidateLegacy(OpenBranch, NodeEdges) == Valid
  {
    var cells := OpenBranch;
    ValidateLegacyOrder(cells, NodeEdges);
    assert AttachedTo(EdgeOf(cells[4]), StartId) && AttachedTo(EdgeOf(cells[4]), "f");
    assert AttachedTo(EdgeOf(cells[5]), "a") && AttachedTo(EdgeOf(cells[6]), EndId);
    assert AllWiredLegacy(cells, NodeEdges);
    assert cells[3].Rect? && cells[3].nodeType == "end";
    assert Lower("Shell") == "shell";
    assert cells[2].Rect? && Lower(cells[2].nodeType) in LegacyProgramTypes;
  }
}
