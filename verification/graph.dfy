/**
 * The graph document the canvas hands over (`graphData.cells`): rect cells
 * are nodes, edge cells connect a source `{cell, port}` to a target
 * `{cell, port}`. The start node is the rect with id "start" and no
 * `nodeType`; every other node carries one (Shell, Python, PromQL, fork,
 * join, end).
 */
module Graph {
  import opened Wrappers
  import opened Seqs

  /** The node form's `data`: its display name, the saved-detail flag, and the rest of the form, kept opaque. */
  datatype Payload = Payload(name: string, hasDetailSaved: bool, form: string)

  datatype Port = Port(id: string, group: string)

  datatype Endpoint = Endpoint(cell: string, port: string)

  /**
   * One entry of `cells`. An absent `nodeType` is the empty string (both are
   * falsy); `y` is `position.y` and `height` is `size.height` when present.
   */
  datatype Cell =
    | Rect(id: string, nodeType: string, data: Payload, ports: seq<Port>,
           y: Option<int>, height: Option<int>)
    | Link(id: string, source: Endpoint, target: Endpoint)

  /** A node as the compiler sees it: a rect with a (truthy) `nodeType`. */
  datatype Node = Node(id: string, nodeType: string, data: Payload)

  datatype Edge = Edge(srcCell: string, srcPort: string, tgtCell: string, tgtPort: string)

  const StartId: string := "start"
  const EndId: string := "end"

  function NodeOf(c: Cell): Node
    requires c.Rect?
  {
    Node(c.id, c.nodeType, c.data)
  }

  function EdgeOf(c: Cell): Edge
    requires c.Link?
  {
    Edge(c.source.cell, c.source.port, c.target.cell, c.target.port)
  }

  /** `cells.filter(c => c.shape === 'rect' && c.nodeType)`. */
  function NodesOf(cells: seq<Cell>): (ns: seq<Node>)
    ensures |ns| <= |cells|
  {
    if |cells| == 0 then []
    else if cells[0].Rect? && cells[0].nodeType != "" then [NodeOf(cells[0])] + NodesOf(cells[1..])
    else NodesOf(cells[1..])
  }

  /** The nodes are exactly the rects with a `nodeType`. */
  lemma {:induction false} NodesOfSpec(cells: seq<Cell>)
    ensures forall n :: n in NodesOf(cells) <==>
      (exists i :: 0 <= i < |cells| && cells[i].Rect? && cells[i].nodeType != "" && n == NodeOf(cells[i]))
    decreases |cells|
  {
    if |cells| > 0 {
      NodesOfSpec(cells[1..]);
      assert forall i :: 1 <= i < |cells| ==> cells[i] == cells[1..][i - 1];
    }
  }

  /** `cells.filter(c => c.shape === 'edge')`. */
  function EdgesOf(cells: seq<Cell>): (es: seq<Edge>)
    ensures |es| <= |cells|
  {
    if |cells| == 0 then []
    else if cells[0].Link? then [EdgeOf(cells[0])] + EdgesOf(cells[1..])
    else EdgesOf(cells[1..])
  }

  /** The edges are exactly the link cells. */
  lemma {:induction false} EdgesOfSpec(cells: seq<Cell>)
    ensures forall e :: e in EdgesOf(cells) <==>
      exists i :: 0 <= i < |cells| && cells[i].Link? && e == EdgeOf(cells[i])
    decreases |cells|
  {
    if |cells| > 0 {
      EdgesOfSpec(cells[1..]);
      assert forall i :: 1 <= i < |cells| ==> cells[i] == cells[1..][i - 1];
    }
  }

  /** `childrenMap[id] || []`: the targets of the edges leaving `id`, in edge order. */
  function Children(es: seq<Edge>, id: string): (kids: seq<string>)
    ensures |kids| <= |es|
  {
    if |es| == 0 then []
    else if es[0].srcCell == id then [es[0].tgtCell] + Children(es[1..], id)
    else Children(es[1..], id)
  }

  /** `x` is a child of `id` exactly when some edge goes from `id` to `x`. */
  lemma {:induction false} ChildrenSpec(es: seq<Edge>, id: string)
    ensures forall x :: x in Children(es, id) <==>
      exists i :: 0 <= i < |es| && es[i].srcCell == id && es[i].tgtCell == x
    decreases |es|
  {
    if |es| > 0 {
      ChildrenSpec(es[1..], id);
      assert forall i :: 1 <= i < |es| ==> es[i] == es[1..][i - 1];
    }
  }

  /** `edges.filter(e => e.source.cell === id)`. */
  function OutEdges(es: seq<Edge>, id: string): seq<Edge> {
    Filter(es, (e: Edge) => e.srcCell == id)
  }

  /** `parentMap[id]` is defined: some edge enters `id`. */
  predicate HasParent(es: seq<Edge>, id: string) {
    exists i :: 0 <= i < |es| && es[i].tgtCell == id
  }

  /** `nodeMap[id]`: assignments in node order, so the last node with that id wins. */
  function Lookup(ns: seq<Node>, id: string): (r: Option<Node>)
    ensures r.Some? ==> r.value.id == id
  {
    if |ns| == 0 then None
    else if ns[|ns| - 1].id == id then Some(ns[|ns| - 1])
    else Lookup(ns[..|ns| - 1], id)
  }

  /** `nodeMap[id]` is the last node carrying `id`, and is missing exactly when no node carries it. */
  lemma {:induction false} LookupSpec(ns: seq<Node>, id: string)
    ensures Lookup(ns, id).None? <==> forall i :: 0 <= i < |ns| ==> ns[i].id != id
    ensures Lookup(ns, id).Some? ==>
      (exists i :: 0 <= i < |ns| && ns[i] == Lookup(ns, id).value && forall j :: i < j < |ns| ==> ns[j].id != id)
    decreases |ns|
  {
    if |ns| > 0 && ns[|ns| - 1].id != id {
      LookupSpec(ns[..|ns| - 1], id);
      assert forall i :: 0 <= i < |ns| - 1 ==> ns[i] == ns[..|ns| - 1][i];
    }
  }

  /** `nodeMap`: `nodes.forEach(n => nodeMap[n.id] = n)`, so a later node replaces an earlier one with the same id. */
  function NodeMap(ns: seq<Node>): map<string, Node>
    decreases |ns|
  {
    if |ns| == 0 then map[]
    else NodeMap(ns[..|ns| - 1])[ns[|ns| - 1].id := ns[|ns| - 1]]
  }

  /** The map agrees with the list reading of `nodeMap[id]`: the last node carrying the id. */
  lemma {:induction false} NodeMapSpec(ns: seq<Node>, id: string)
    ensures id in NodeMap(ns) <==> Lookup(ns, id).Some?
    ensures id in NodeMap(ns) ==> NodeMap(ns)[id] == Lookup(ns, id).value
    decreases |ns|
  {
    if |ns| > 0 {
      NodeMapSpec(ns[..|ns| - 1], id);
    }
  }

  /** `childrenMap`: for each edge in order, its target is appended to its source's list. */
  function ChildMap(es: seq<Edge>): map<string, seq<string>>
    decreases |es|
  {
    if |es| == 0 then map[]
    else
      var m := ChildMap(es[..|es| - 1]);
      var e := es[|es| - 1];
      m[e.srcCell := (if e.srcCell in m then m[e.srcCell] else []) + [e.tgtCell]]
  }

  /** `childrenMap[id] || []` is the list reading `Children`: the targets of the edges leaving `id`, in edge order. */
  lemma {:induction false} ChildMapSpec(es: seq<Edge>, id: string)
    ensures id in ChildMap(es) <==> |Children(es, id)| > 0
    ensures id in ChildMap(es) ==> ChildMap(es)[id] == Children(es, id)
    decreases |es|
  {
    if |es| > 0 {
      var init := es[..|es| - 1];
      var e := es[|es| - 1];
      ChildMapSpec(init, id);
      ChildrenSnoc(init, e, id);
      assert es == init + [e];
    }
  }

  /** Appending an edge appends its target to its source's children. */
  lemma {:induction false} ChildrenSnoc(es: seq<Edge>, e: Edge, id: string)
    ensures Children(es + [e], id) == Children(es, id) + (if e.srcCell == id then [e.tgtCell] else [])
    decreases |es|
  {
    if |es| == 0 {
      assert es + [e] == [e];
    } else {
      assert (es + [e])[1..] == es[1..] + [e];
      ChildrenSnoc(es[1..], e, id);
    }
  }

  function Ids(ns: seq<Node>): seq<string> {
    seq(|ns|, i requires 0 <= i < |ns| => ns[i].id)
  }

  /** `Object.keys(nodeMap)`: the node ids in order of first insertion. */
  function Keys(ns: seq<Node>): seq<string> {
    Dedup(Ids(ns))
  }
}
