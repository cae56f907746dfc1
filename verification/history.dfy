/**
 * The history-task picker: a case-insensitive search over the table rows,
 * and the copy of a past workflow's nodes and edges into the current
 * canvas, below what is already drawn, under new ids.
 */
module History {
  import opened Wrappers
  import opened Text
  import opened Seqs
  import opened Sorting
  import opened Graph

  /** One table row: its four searchable columns and the saved graph document. */
  datatype Row = Row(key: string, taskName: string, system: string, updater: string, cells: seq<Cell>)

  /** The row mentions `q` (already lower-cased) in one of its four columns, ignoring case. */
  predicate Matches(row: Row, q: string) {
    || Contains(Lower(row.taskName), q)
    || Contains(Lower(row.system), q)
    || Contains(Lower(row.updater), q)
    || Contains(Lower(row.key), q)
  }

  function MatchesQuery(q: string): Row -> bool {
    row => Matches(row, q)
  }

  /** `handleSearch`: a blank query shows every row, any other query the matching rows. */
  function Search(rows: seq<Row>, query: string): (r: seq<Row>)
    ensures |r| <= |rows|
  {
    if IsBlank(query) then rows
    else Filter(rows, MatchesQuery(Lower(query)))
  }

  /**
   * A blank query keeps the table as it is; any other keeps exactly the rows
   * mentioning the query in some column, ignoring case, in table order.
   */
  lemma SearchSpec(rows: seq<Row>, query: string)
    ensures IsBlank(query) ==> Search(rows, query) == rows
    ensures !IsBlank(query) ==>
      forall row :: row in Search(rows, query) <==> row in rows && Matches(row, Lower(query))
    ensures IsSubsequence(Search(rows, query), rows)
  {
    if IsBlank(query) {
      SubsequenceRefl(rows);
    } else {
      FilterSpec(rows, MatchesQuery(Lower(query)));
      FilterIsSubsequence(rows, MatchesQuery(Lower(query)));
      forall row | row in rows && Matches(row, Lower(query))
        ensures row in Search(rows, query)
      {
        var i :| 0 <= i < |rows| && rows[i] == row;
      }
    }
  }

  /** The case of the query does not matter. */
  lemma SearchIgnoresCase(rows: seq<Row>, query: string)
    ensures Search(rows, Upper(query)) == Search(rows, query)
    ensures Search(rows, Lower(query)) == Search(rows, query)
  {
    BlankIgnoresCase(query);
    LowerOfUpper(query);
    LowerIdempotent(query);
  }

  // Copying a past workflow into the canvas.

  /** The start and end nodes, which every canvas already has and a copy leaves out. */
  predicate Reserved(id: string) {
    id == StartId || id == EndId
  }

  predicate CopiedNode(c: Cell) {
    c.Rect? && !Reserved(c.id)
  }

  predicate CopiedEdge(c: Cell) {
    c.Link? && !Reserved(c.source.cell) && !Reserved(c.target.cell)
  }

  const VerticalGap: int := 100

  /**
   * A node with a position counts towards the bottom of the canvas. The
   * code tests `cell.position && cell.position.y`, so with `zeroIsFalsy` a
   * node at y = 0 is skipped, as it is in the code.
   */
  predicate Counts(c: Cell, zeroIsFalsy: bool) {
    c.Rect? && c.y.Some? && (!zeroIsFalsy || c.y.value != 0)
  }

  /** `cell.position.y + (cell.size?.height || 0)`. */
  function BottomOf(c: Cell): int
    requires c.Rect? && c.y.Some?
  {
    c.y.value + c.height.GetOr(0)
  }

  /** The `forEach` that raises `maxY` to every counted bottom below it, starting from `acc`. */
  function MaxBottomFrom(cells: seq<Cell>, acc: int, zeroIsFalsy: bool): (m: int)
    ensures m >= acc
    decreases |cells|
  {
    if |cells| == 0 then acc
    else
      var next := if Counts(cells[0], zeroIsFalsy) && BottomOf(cells[0]) > acc then BottomOf(cells[0]) else acc;
      MaxBottomFrom(cells[1..], next, zeroIsFalsy)
  }

  /** `maxY` over the current canvas, starting from 0, as the code computes it: a node at y = 0 is skipped. */
  function MaxBottom(cells: seq<Cell>): int {
    MaxBottomFrom(cells, 0, true)
  }

  /** `maxY` as the comment above the scan describes it: the lowest bottom of every positioned node. */
  function MaxBottomAll(cells: seq<Cell>): int {
    MaxBottomFrom(cells, 0, false)
  }

  /** The scan ends at the largest counted bottom, or at its start value when that is larger. */
  lemma {:induction false} MaxBottomFromSpec(cells: seq<Cell>, acc: int, zeroIsFalsy: bool)
    ensures forall i :: 0 <= i < |cells| && Counts(cells[i], zeroIsFalsy) ==>
      BottomOf(cells[i]) <= MaxBottomFrom(cells, acc, zeroIsFalsy)
    ensures MaxBottomFrom(cells, acc, zeroIsFalsy) == acc
         || exists i :: 0 <= i < |cells| && Counts(cells[i], zeroIsFalsy)
              && BottomOf(cells[i]) == MaxBottomFrom(cells, acc, zeroIsFalsy)
    decreases |cells|
  {
    if |cells| > 0 {
      var next := if Counts(cells[0], zeroIsFalsy) && BottomOf(cells[0]) > acc then BottomOf(cells[0]) else acc;
      MaxBottomFromSpec(cells[1..], next, zeroIsFalsy);
      assert forall i :: 1 <= i < |cells| ==> cells[i] == cells[1..][i - 1];
    }
  }

  /** `filteredCells[0]?.position?.y || 0`: the y the code places every copied node relative to. */
  function AnchorY(nodes: seq<Cell>): int {
    if |nodes| > 0 && nodes[0].Rect? && nodes[0].y.Some? then nodes[0].y.value else 0
  }

  /** The smallest y among the positioned nodes, if any node has a position. */
  function MinY(nodes: seq<Cell>): (m: Option<int>)
    decreases |nodes|
  {
    if |nodes| == 0 then None
    else
      var rest := MinY(nodes[1..]);
      if nodes[0].Rect? && nodes[0].y.Some? && (rest.None? || nodes[0].y.value < rest.value) then Some(nodes[0].y.value)
      else rest
  }

  /** `MinY` finds no y exactly when no node is positioned, and otherwise the y of some node that no other node is above. */
  lemma {:induction false} MinYSpec(nodes: seq<Cell>)
    ensures MinY(nodes).None? <==> forall i :: 0 <= i < |nodes| ==> !(nodes[i].Rect? && nodes[i].y.Some?)
    ensures MinY(nodes).Some? ==>
      (forall i :: 0 <= i < |nodes| && nodes[i].Rect? && nodes[i].y.Some? ==> MinY(nodes).value <= nodes[i].y.value)
      && (exists i :: 0 <= i < |nodes| && nodes[i].Rect? && nodes[i].y == MinY(nodes))
    decreases |nodes|
  {
    if |nodes| > 0 {
      MinYSpec(nodes[1..]);
      assert forall i :: 1 <= i < |nodes| ==> nodes[i] == nodes[1..][i - 1];
      if MinY(nodes).Some? && MinY(nodes) == MinY(nodes[1..]) {
        var k :| 0 <= k < |nodes[1..]| && nodes[1..][k].Rect? && nodes[1..][k].y == MinY(nodes[1..]);
        assert nodes[k + 1] == nodes[1..][k];
      }
    }
  }

  /** The y the copies are placed relative to once corrected: the top of the topmost copied node. */
  function TopY(nodes: seq<Cell>): int {
    MinY(nodes).GetOr(0)
  }

  /** A copied node under its new id, moved so that `anchor` lands on `top`. */
  function Place(c: Cell, newId: string, top: int, anchor: int): (r: Cell)
    ensures r.Rect? == c.Rect?
  {
    if c.Rect? && c.y.Some? then c.(id := newId, y := Some(top + (c.y.value - anchor)))
    else if c.Rect? then Rect(newId, c.nodeType, c.data, c.ports, c.y, c.height)
    else c
  }

  /** `processedCells`: the i-th copied node receives the i-th uuid. */
  function PlaceNodes(nodes: seq<Cell>, uuid: nat -> string, top: int, anchor: int): (r: seq<Cell>)
    ensures |r| == |nodes|
  {
    seq(|nodes|, i requires 0 <= i < |nodes| => Place(nodes[i], uuid(i), top, anchor))
  }

  /** `idMap`: each copied node's old id to its new one, a later node overriding an earlier one with the same id. */
  function IdMap(nodes: seq<Cell>, uuid: nat -> string): map<string, string>
    decreases |nodes|
  {
    if |nodes| == 0 then map[]
    else IdMap(nodes[..|nodes| - 1], uuid)[nodes[|nodes| - 1].id := uuid(|nodes| - 1)]
  }

  /** `idMap.get(id) || id`. */
  function Rename(m: map<string, string>, id: string): string {
    if id in m && m[id] != "" then m[id] else id
  }

  /** A copied edge under its new id, its two ends renamed through the id map. */
  function Relink(c: Cell, newId: string, m: map<string, string>): (r: Cell)
    ensures r.Link? == c.Link?
  {
    if c.Link? then
      Link(newId, c.source.(cell := Rename(m, c.source.cell)), c.target.(cell := Rename(m, c.target.cell)))
    else c
  }

  /** `processedEdges`: the uuids continue after those the nodes used. */
  function RelinkEdges(edges: seq<Cell>, uuid: nat -> string, offset: nat, m: map<string, string>): (r: seq<Cell>)
    ensures |r| == |edges|
  {
    seq(|edges|, j requires 0 <= j < |edges| => Relink(edges[j], uuid(offset + j), m))
  }

  /** The sort key of the merge comparator: rects before edges. */
  function ShapeRank(c: Cell): int {
    if c.Rect? then 0 else 1
  }

  /** `[...currentCells, ...processedCells, ...processedEdges].sort(rect before edge)`, a stable sort. */
  function Merge(current: seq<Cell>, placed: seq<Cell>, linked: seq<Cell>): (r: seq<Cell>)
    ensures |r| == |current| + |placed| + |linked|
  {
    SortBy(current + placed + linked, ShapeRank)
  }

  /**
   * The copies of the past workflow's nodes, as the code places them:
   * relative to the first copied node, below the lowest node not at y = 0.
   */
  function CopiedNodesAsWritten(current: seq<Cell>, past: seq<Cell>, uuid: nat -> string): (r: seq<Cell>)
    ensures |r| == |Filter(past, CopiedNode)|
  {
    var nodes := Filter(past, CopiedNode);
    PlaceNodes(nodes, uuid, MaxBottom(current) + VerticalGap, AnchorY(nodes))
  }

  /**
   * The copies of the past workflow's nodes as the comments in the code
   * intend them: the whole block `VerticalGap` below every positioned node.
   */
  function CopiedNodes(current: seq<Cell>, past: seq<Cell>, uuid: nat -> string): (r: seq<Cell>)
    ensures |r| == |Filter(past, CopiedNode)|
  {
    var nodes := Filter(past, CopiedNode);
    PlaceNodes(nodes, uuid, MaxBottomAll(current) + VerticalGap, TopY(nodes))
  }

  /** The copies of the past workflow's edges, as the canvas receives them. */
  function CopiedEdges(past: seq<Cell>, uuid: nat -> string): seq<Cell> {
    var nodes := Filter(past, CopiedNode);
    RelinkEdges(Filter(past, CopiedEdge), uuid, |nodes|, IdMap(nodes, uuid))
  }

  /** `copySelectTask`: the cell list handed to `fromJSON`, with the copies placed as intended. */
  function CopyTask(current: seq<Cell>, past: seq<Cell>, uuid: nat -> string): seq<Cell> {
    Merge(current, CopiedNodes(current, past, uuid), CopiedEdges(past, uuid))
  }

  /** `copySelectTask` as written: the same merge, with the copies placed as the code places them. */
  function CopyTaskAsWritten(current: seq<Cell>, past: seq<Cell>, uuid: nat -> string): seq<Cell> {
    Merge(current, CopiedNodesAsWritten(current, past, uuid), CopiedEdges(past, uuid))
  }

  /** How far the placement as written puts each copy below the corrected one (negative when above). */
  function PlacementShift(current: seq<Cell>, past: seq<Cell>): int {
    var nodes := Filter(past, CopiedNode);
    (MaxBottom(current) + VerticalGap - AnchorY(nodes)) - (MaxBottomAll(current) + VerticalGap - TopY(nodes))
  }

  /**
   * The two placements differ only in the copies' y, and all by the same
   * shift: ids, node types, form data, ports and heights agree.
   */
  lemma PlacementsDifferByShift(current: seq<Cell>, past: seq<Cell>, uuid: nat -> string)
    ensures |CopiedNodesAsWritten(current, past, uuid)| == |CopiedNodes(current, past, uuid)|
    ensures forall i :: 0 <= i < |CopiedNodes(current, past, uuid)| ==>
      var w := CopiedNodesAsWritten(current, past, uuid)[i];
      var c := CopiedNodes(current, past, uuid)[i];
      && w.Rect? && c.Rect? && w.id == c.id == uuid(i)
      && w.nodeType == c.nodeType && w.data == c.data && w.ports == c.ports && w.height == c.height
      && w.y.Some? == c.y.Some?
      && (w.y.Some? ==> w.y.value == c.y.value + PlacementShift(current, past))
  {
    var nodes := Filter(past, CopiedNode);
    var top1, a1 := MaxBottom(current) + VerticalGap, AnchorY(nodes);
    var top2, a2 := MaxBottomAll(current) + VerticalGap, TopY(nodes);
    FilterSpec(past, CopiedNode);
    forall i | 0 <= i < |nodes|
      ensures var w := CopiedNodesAsWritten(current, past, uuid)[i];
        var c := CopiedNodes(current, past, uuid)[i];
        && w.Rect? && c.Rect? && w.id == c.id == uuid(i)
        && w.nodeType == c.nodeType && w.data == c.data && w.ports == c.ports && w.height == c.height
        && w.y.Some? == c.y.Some?
        && (w.y.Some? ==> w.y.value == c.y.value + PlacementShift(current, past))
    {
      assert CopiedNode(nodes[i]);
      PlaceTwice(nodes[i], uuid(i), top1, a1, top2, a2);
    }
  }

  /** Placing one rect twice gives two rects that differ only in y, by the difference of the two moves. */
  lemma PlaceTwice(n: Cell, newId: string, top1: int, a1: int, top2: int, a2: int)
    requires n.Rect?
    ensures var w := Place(n, newId, top1, a1);
      var c := Place(n, newId, top2, a2);
      && w.Rect? && c.Rect? && w.id == c.id == newId
      && w.nodeType == c.nodeType && w.data == c.data && w.ports == c.ports && w.height == c.height
      && w.y.Some? == c.y.Some?
      && (w.y.Some? ==> w.y.value == c.y.value + ((top1 - a1) - (top2 - a2)))
  {
  }

  /** The merge is a permutation that puts every rect before every edge. */
  lemma MergeSorted(current: seq<Cell>, placed: seq<Cell>, linked: seq<Cell>)
    ensures multiset(Merge(current, placed, linked)) == multiset(current + placed + linked)
    ensures forall i, j :: 0 <= i < j < |Merge(current, placed, linked)| ==>
      !(Merge(current, placed, linked)[i].Link? && Merge(current, placed, linked)[j].Rect?)
  {
    SortBySpec(current + placed + linked, ShapeRank);
    var r := Merge(current, placed, linked);
    forall i, j | 0 <= i < j < |r| ensures !(r[i].Link? && r[j].Rect?) {
      assert ShapeRank(r[i]) <= ShapeRank(r[j]);
    }
  }

  /** Selecting one key from three concatenated lists selects it from each in turn. */
  lemma WithKeyThree(a: seq<Cell>, b: seq<Cell>, c: seq<Cell>, k: int)
    ensures WithKey(a + b + c, ShapeRank, k) == WithKey(a, ShapeRank, k) + WithKey(b, ShapeRank, k) + WithKey(c, ShapeRank, k)
  {
    FilterConcat(a + b, c, KeyIs(ShapeRank, k));
    FilterConcat(a, b, KeyIs(ShapeRank, k));
  }

  /** The stable sort keeps each shape's cells in the order of the concatenation. */
  lemma MergeWithKey(current: seq<Cell>, placed: seq<Cell>, linked: seq<Cell>, k: int)
    ensures WithKey(Merge(current, placed, linked), ShapeRank, k)
         == WithKey(current, ShapeRank, k) + WithKey(placed, ShapeRank, k) + WithKey(linked, ShapeRank, k)
  {
    SortBySpec(current + placed + linked, ShapeRank);
    WithKeyThree(current, placed, linked, k);
  }

  /** Among the rects, the current ones come first and the copies after them, each in their own order. */
  lemma MergeRects(current: seq<Cell>, placed: seq<Cell>, linked: seq<Cell>)
    requires forall i :: 0 <= i < |placed| ==> placed[i].Rect?
    requires forall j :: 0 <= j < |linked| ==> linked[j].Link?
    ensures WithKey(Merge(current, placed, linked), ShapeRank, 0) == WithKey(current, ShapeRank, 0) + placed
  {
    MergeWithKey(current, placed, linked, 0);
    FilterAll(placed, KeyIs(ShapeRank, 0));
    FilterNone(linked, KeyIs(ShapeRank, 0));
  }

  /** Among the edges, the current ones come first and the copies after them, each in their own order. */
  lemma MergeEdges(current: seq<Cell>, placed: seq<Cell>, linked: seq<Cell>)
    requires forall i :: 0 <= i < |placed| ==> placed[i].Rect?
    requires forall j :: 0 <= j < |linked| ==> linked[j].Link?
    ensures WithKey(Merge(current, placed, linked), ShapeRank, 1) == WithKey(current, ShapeRank, 1) + linked
  {
    MergeWithKey(current, placed, linked, 1);
    FilterNone(placed, KeyIs(ShapeRank, 1));
    forall j | 0 <= j < |linked| ensures KeyIs(ShapeRank, 1)(linked[j]) {
      assert ShapeRank(linked[j]) == 1;
    }
    FilterAll(linked, KeyIs(ShapeRank, 1));
  }

  /** The copied nodes are rects other than start and end, and the copied edges touch neither. */
  lemma CopiedShapes(current: seq<Cell>, past: seq<Cell>, uuid: nat -> string)
    ensures forall i :: 0 <= i < |Filter(past, CopiedNode)| ==> CopiedNode(Filter(past, CopiedNode)[i])
    ensures forall j :: 0 <= j < |Filter(past, CopiedEdge)| ==> CopiedEdge(Filter(past, CopiedEdge)[j])
    ensures forall i :: 0 <= i < |CopiedNodes(current, past, uuid)| ==> CopiedNodes(current, past, uuid)[i].Rect?
    ensures forall j :: 0 <= j < |CopiedEdges(past, uuid)| ==> CopiedEdges(past, uuid)[j].Link?
  {
    var nodes := Filter(past, CopiedNode);
    var edges := Filter(past, CopiedEdge);
    FilterSpec(past, CopiedNode);
    FilterSpec(past, CopiedEdge);
    var placed := CopiedNodes(current, past, uuid);
    forall i | 0 <= i < |placed| ensures placed[i].Rect? {
      assert placed[i] == Place(nodes[i], uuid(i), MaxBottomAll(current) + VerticalGap, TopY(nodes));
    }
    var linked := CopiedEdges(past, uuid);
    forall j | 0 <= j < |linked| ensures linked[j].Link? {
      assert linked[j] == Relink(edges[j], uuid(|nodes| + j), IdMap(nodes, uuid));
    }
  }

  /**
   * The copied workflow arrives as one node per past rect other than start
   * and end, then one edge per past edge touching neither, after the
   * current cells of the same shape, with every rect before every edge.
   */
  lemma CopyTaskSpec(current: seq<Cell>, past: seq<Cell>, uuid: nat -> string)
    ensures var r := CopyTask(current, past, uuid);
      |r| == |current| + |Filter(past, CopiedNode)| + |Filter(past, CopiedEdge)|
      && (forall i, j :: 0 <= i < j < |r| ==> !(r[i].Link? && r[j].Rect?))
      && WithKey(r, ShapeRank, 0) == WithKey(current, ShapeRank, 0) + CopiedNodes(current, past, uuid)
      && WithKey(r, ShapeRank, 1) == WithKey(current, ShapeRank, 1) + CopiedEdges(past, uuid)
  {
    var placed := CopiedNodes(current, past, uuid);
    var linked := CopiedEdges(past, uuid);
    CopiedShapes(current, past, uuid);
    MergeSorted(current, placed, linked);
    MergeRects(current, placed, linked);
    MergeEdges(current, placed, linked);
  }

  /**
   * As written, the document holds the same cells in the same order as the
   * corrected one, except that the copied nodes are those placed as the code
   * places them: the edges agree exactly.
   */
  lemma CopyTaskAsWrittenSpec(current: seq<Cell>, past: seq<Cell>, uuid: nat -> string)
    ensures var r := CopyTaskAsWritten(current, past, uuid);
      |r| == |CopyTask(current, past, uuid)|
      && (forall i, j :: 0 <= i < j < |r| ==> !(r[i].Link? && r[j].Rect?))
      && WithKey(r, ShapeRank, 0) == WithKey(current, ShapeRank, 0) + CopiedNodesAsWritten(current, past, uuid)
      && WithKey(r, ShapeRank, 1) == WithKey(CopyTask(current, past, uuid), ShapeRank, 1)
  {
    var placed := CopiedNodesAsWritten(current, past, uuid);
    var linked := CopiedEdges(past, uuid);
    CopiedShapes(current, past, uuid);
    PlacementsDifferByShift(current, past, uuid);
    MergeSorted(current, placed, linked);
    MergeRects(current, placed, linked);
    MergeEdges(current, placed, linked);
    CopyTaskSpec(current, past, uuid);
  }

  /** Where `IdMap` sends an id: to the uuid of the last copied node carrying it, and nowhere for other ids. */
  lemma {:induction false} IdMapSpec(nodes: seq<Cell>, uuid: nat -> string, id: string)
    ensures id in IdMap(nodes, uuid) <==> exists i :: 0 <= i < |nodes| && nodes[i].id == id
    ensures id in IdMap(nodes, uuid) ==>
      exists i :: 0 <= i < |nodes| && nodes[i].id == id && IdMap(nodes, uuid)[id] == uuid(i)
        && forall k :: i < k < |nodes| ==> nodes[k].id != id
    decreases |nodes|
  {
    if |nodes| > 0 {
      var init := nodes[..|nodes| - 1];
      IdMapSpec(init, uuid, id);
      assert forall i :: 0 <= i < |init| ==> init[i] == nodes[i];
    }
  }

  /** No two cells share an id. */
  predicate DistinctIds(cells: seq<Cell>) {
    forall a, b :: 0 <= a < b < |cells| ==> cells[a].id != cells[b].id
  }

  /**
   * With distinct node ids and non-empty uuids, the id of the i-th copied
   * node is renamed to the i-th uuid, and an id no copied node carries is
   * left alone.
   */
  lemma RenameSpec(nodes: seq<Cell>, uuid: nat -> string, id: string)
    requires forall n: nat :: uuid(n) != ""
    requires DistinctIds(nodes)
    ensures forall i :: 0 <= i < |nodes| && nodes[i].id == id ==> Rename(IdMap(nodes, uuid), id) == uuid(i)
    ensures (forall i :: 0 <= i < |nodes| ==> nodes[i].id != id) ==> Rename(IdMap(nodes, uuid), id) == id
  {
    IdMapSpec(nodes, uuid, id);
  }

  /**
   * With distinct node ids and non-empty uuids, a copied edge that left (or
   * entered) the i-th copied node now leaves (or enters) that node's copy,
   * and an end at any other cell keeps its old id.
   */
  lemma CopiedEdgesFollowNodes(current: seq<Cell>, past: seq<Cell>, uuid: nat -> string, j: int)
    requires forall n: nat :: uuid(n) != ""
    requires DistinctIds(Filter(past, CopiedNode))
    requires 0 <= j < |CopiedEdges(past, uuid)|
    ensures var nodes := Filter(past, CopiedNode);
      var e := Filter(past, CopiedEdge)[j];
      var c := CopiedEdges(past, uuid)[j];
      e.Link? && c.Link?
      && (forall i :: 0 <= i < |nodes| && nodes[i].id == e.source.cell ==>
            c.source.cell == CopiedNodes(current, past, uuid)[i].id)
      && (forall i :: 0 <= i < |nodes| && nodes[i].id == e.target.cell ==>
            c.target.cell == CopiedNodes(current, past, uuid)[i].id)
      && ((forall i :: 0 <= i < |nodes| ==> nodes[i].id != e.source.cell) ==> c.source.cell == e.source.cell)
      && ((forall i :: 0 <= i < |nodes| ==> nodes[i].id != e.target.cell) ==> c.target.cell == e.target.cell)
  {
    var nodes := Filter(past, CopiedNode);
    var edges := Filter(past, CopiedEdge);
    var e := edges[j];
    FilterSpec(past, CopiedNode);
    FilterSpec(past, CopiedEdge);
    assert CopiedEdge(e);
    var m := IdMap(nodes, uuid);
    var c := CopiedEdges(past, uuid)[j];
    assert c == Link(uuid(|nodes| + j), e.source.(cell := Rename(m, e.source.cell)), e.target.(cell := Rename(m, e.target.cell)));
    RenameSpec(nodes, uuid, e.source.cell);
    RenameSpec(nodes, uuid, e.target.cell);
    var placed := CopiedNodes(current, past, uuid);
    forall i | 0 <= i < |nodes| ensures placed[i].id == uuid(i) {
      assert placed[i] == Place(nodes[i], uuid(i), MaxBottomAll(current) + VerticalGap, TopY(nodes));
    }
  }

  /** Placement keeps the copies' relative layout, and a node at the anchor lands on `top`. */
  lemma PlacementKeepsLayout(nodes: seq<Cell>, uuid: nat -> string, top: int, anchor: int)
    ensures var placed := PlaceNodes(nodes, uuid, top, anchor);
      forall a, b :: (0 <= a < |nodes| && 0 <= b < |nodes| && nodes[a].Rect? && nodes[b].Rect?
                       && nodes[a].y.Some? && nodes[b].y.Some?) ==>
        (placed[a].Rect? && placed[b].Rect? && placed[a].y.Some? && placed[b].y.Some?
         && placed[a].y.value - placed[b].y.value == nodes[a].y.value - nodes[b].y.value
         && (nodes[a].y.value == anchor ==> placed[a].y.value == top))
  {
    var placed := PlaceNodes(nodes, uuid, top, anchor);
    forall i | 0 <= i < |nodes| ensures placed[i] == Place(nodes[i], uuid(i), top, anchor) {
    }
  }

  /**
   * Every copy with a position lies at least `VerticalGap` below the bottom
   * of every positioned node already on the canvas.
   */
  lemma CopiesBelowCanvas(current: seq<Cell>, past: seq<Cell>, uuid: nat -> string)
    ensures var placed := CopiedNodes(current, past, uuid);
      forall i, k :: (0 <= i < |placed| && 0 <= k < |current| && placed[i].Rect? && placed[i].y.Some?
                       && current[k].Rect? && current[k].y.Some?) ==>
        BottomOf(current[k]) + VerticalGap <= placed[i].y.value
  {
    var nodes := Filter(past, CopiedNode);
    var placed := CopiedNodes(current, past, uuid);
    var top := MaxBottomAll(current) + VerticalGap;
    MaxBottomFromSpec(current, 0, false);
    MinYSpec(nodes);
    forall i | 0 <= i < |placed| && placed[i].Rect? && placed[i].y.Some? ensures top <= placed[i].y.value {
      assert placed[i] == Place(nodes[i], uuid(i), top, TopY(nodes));
    }
  }

  /** The corrected placement still sets the topmost copy exactly `VerticalGap` below the canvas. */
  lemma TopmostCopyAtGap(current: seq<Cell>, past: seq<Cell>, uuid: nat -> string)
    requires MinY(Filter(past, CopiedNode)).Some?
    ensures (exists i :: 0 <= i < |CopiedNodes(current, past, uuid)| && CopiedNodes(current, past, uuid)[i].Rect?
                         && CopiedNodes(current, past, uuid)[i].y == Some(MaxBottomAll(current) + VerticalGap))
  {
    var nodes := Filter(past, CopiedNode);
    MinYSpec(nodes);
    var i :| 0 <= i < |nodes| && nodes[i].Rect? && nodes[i].y == MinY(nodes);
    PlacementKeepsLayout(nodes, uuid, MaxBottomAll(current) + VerticalGap, TopY(nodes));
    assert CopiedNodes(current, past, uuid)[i] == PlaceNodes(nodes, uuid, MaxBottomAll(current) + VerticalGap, TopY(nodes))[i];
  }

  // Two placements the code gets wrong.

  /** A past node drawn at y. */
  function PastNode(id: string, y: int): Cell {
    Rect(id, "Shell", Payload(id, true, ""), [], Some(y), None)
  }

  /** The canvas of the first counterexample: one node at y = 50, 40 px high. */
  function LowCanvas(): seq<Cell> {
    [Rect("n", "Shell", Payload("n", true, ""), [], Some(50), Some(40))]
  }

  /** The canvas of the second counterexample: one node at y = 0, 120 px high. */
  function TopCanvas(): seq<Cell> {
    [Rect("n", "Shell", Payload("n", true, ""), [], Some(0), Some(120))]
  }

  /**
   * With the first copied node at y = 300 and the second at y = 100, the
   * code puts the second copy at y = -10, above the node already on the
   * canvas (y = 50 to 90), which every copy was meant to clear by 100.
   */
  lemma AnchorLetsCopyRiseAbove(uuid: nat -> string)
    ensures var placed := CopiedNodesAsWritten(LowCanvas(), [PastNode("a", 300), PastNode("b", 100)], uuid);
      placed[1].Rect? && placed[1].y == Some(-10)
  {
    var current := LowCanvas();
    var past := [PastNode("a", 300), PastNode("b", 100)];
    assert Filter(past, CopiedNode) == past by {
      assert past[1..][1..] == [];
    }
    assert MaxBottom(current) == 90 by {
      assert current[1..] == [];
    }
    assert CopiedNodesAsWritten(current, past, uuid)[1] == Place(past[1], uuid(1), 190, 300);
  }

  /** On the same input the corrected placement puts that copy at y = 190. */
  lemma AnchorCorrected(uuid: nat -> string)
    ensures var placed := CopiedNodes(LowCanvas(), [PastNode("a", 300), PastNode("b", 100)], uuid);
      placed[1].Rect? && placed[1].y == Some(190)
  {
    var current := LowCanvas();
    var past := [PastNode("a", 300), PastNode("b", 100)];
    assert Filter(past, CopiedNode) == past by {
      assert past[1..][1..] == [];
    }
    assert MaxBottomAll(current) == 90 by {
      assert current[1..] == [];
    }
    assert MinY(past) == Some(100) by {
      assert past[1..][1..] == [];
    }
    assert CopiedNodes(current, past, uuid)[1] == Place(past[1], uuid(1), 190, 100);
  }

  /**
   * A node at y = 0 with height 120 does not count towards `maxY`, so the
   * copy of a single past node lands at y = 100, inside that node.
   */
  lemma ZeroTopIgnored(uuid: nat -> string)
    ensures var placed := CopiedNodesAsWritten(TopCanvas(), [PastNode("a", 10)], uuid);
      placed[0].Rect? && placed[0].y == Some(100)
  {
    var current := TopCanvas();
    var past := [PastNode("a", 10)];
    assert Filter(past, CopiedNode) == past by {
      assert past[1..] == [];
    }
    assert MaxBottom(current) == 0 by {
      assert current[1..] == [];
    }
    assert CopiedNodesAsWritten(current, past, uuid)[0] == Place(past[0], uuid(0), 100, 10);
  }

  /** On the same input the corrected placement puts the copy at y = 220. */
  lemma ZeroTopCorrected(uuid: nat -> string)
    ensures var placed := CopiedNodes(TopCanvas(), [PastNode("a", 10)], uuid);
      placed[0].Rect? && placed[0].y == Some(220)
  {
    var current := TopCanvas();
    var past := [PastNode("a", 10)];
    assert Filter(past, CopiedNode) == past by {
      assert past[1..] == [];
    }
    assert MaxBottomAll(current) == 120 by {
      assert current[1..] == [];
    }
    assert MinY(past) == Some(10) by {
      assert past[1..] == [];
    }
    assert CopiedNodes(current, past, uuid)[0] == Place(past[0], uuid(0), 220, 10);
  }
}
