/**
 * The Delete / Backspace binding of the canvas: once the workflow is saved
 * it does nothing; otherwise it removes the selected cells except the
 * start node. Either way it returns false so the browser keeps the key.
 */
module Keyboard {
  import opened Seqs
  import opened Graph

  /** What one key press does: the cells handed to `removeCells`, and the handler's return value. */
  datatype Outcome = Outcome(removed: seq<Cell>, result: bool)

  predicate IsStartRect(c: Cell) {
    c.Rect? && c.id == StartId
  }

  /** The delete handler, given the saved flag and the current selection in selection order. */
  function OnDelete(hasSaved: bool, selected: seq<Cell>): (o: Outcome)
    ensures !o.result
    ensures |o.removed| <= |selected|
  {
    if hasSaved then Outcome([], false)
    else if |selected| > 0 then
      var kept := Filter(selected, (c: Cell) => !IsStartRect(c));
      if |kept| > 0 then Outcome(kept, false) else Outcome([], false)
    else Outcome([], false)
  }

  /**
   * Before saving, a cell is removed exactly when it is selected and is not
   * the start node, and the removed cells keep their selection order;
   * after saving nothing is removed.
   */
  lemma OnDeleteSpec(hasSaved: bool, selected: seq<Cell>)
    ensures hasSaved ==> OnDelete(hasSaved, selected).removed == []
    ensures !hasSaved ==> forall c :: c in OnDelete(hasSaved, selected).removed <==> c in selected && !IsStartRect(c)
    ensures IsSubsequence(OnDelete(hasSaved, selected).removed, selected)
  {
    var keep := (c: Cell) => !IsStartRect(c);
    FilterSpec(selected, keep);
    FilterIsSubsequence(selected, keep);
    if !hasSaved {
      forall c | c in selected && !IsStartRect(c) ensures c in OnDelete(hasSaved, selected).removed {
        var i :| 0 <= i < |selected| && selected[i] == c;
      }
    }
  }

  /** The canvas's cells after the removal (the edges a removed node drags along are not modelled). */
  function AfterDelete(cells: seq<Cell>, hasSaved: bool, selected: seq<Cell>): (r: seq<Cell>)
    ensures |r| <= |cells|
  {
    var gone := OnDelete(hasSaved, selected).removed;
    Filter(cells, (c: Cell) => c !in gone)
  }

  /** The start node survives every key press, and so does every cell that was not selected. */
  lemma DeleteKeepsStart(cells: seq<Cell>, hasSaved: bool, selected: seq<Cell>)
    ensures forall c :: c in cells && (IsStartRect(c) || c !in selected) ==> c in AfterDelete(cells, hasSaved, selected)
    ensures forall c :: c in AfterDelete(cells, hasSaved, selected) ==> c in cells
  {
    var gone := OnDelete(hasSaved, selected).removed;
    OnDeleteSpec(hasSaved, selected);
    var stays := (c: Cell) => c !in gone;
    FilterSpec(cells, stays);
    forall c | c in cells && (IsStartRect(c) || c !in selected) ensures c in AfterDelete(cells, hasSaved, selected) {
      var i :| 0 <= i < |cells| && cells[i] == c;
    }
  }

  /** A selection of nothing, or of the start node alone, removes nothing. */
  lemma StartOnlyRemovesNothing(hasSaved: bool, selected: seq<Cell>)
    requires forall i :: 0 <= i < |selected| ==> IsStartRect(selected[i])
    ensures OnDelete(hasSaved, selected).removed == []
  {
    OnDeleteSpec(hasSaved, selected);
    if |OnDelete(hasSaved, selected).removed| > 0 {
      var c := OnDelete(hasSaved, selected).removed[0];
      assert c in OnDelete(hasSaved, selected).removed;
    }
  }
}
