/** The repair section of fix_notebook in tools/fix_notebook.py: the
    notebook-level check, then the walk over the cells, with the
    `changes_made` flag and the removal notices. */
module Repair {
  import opened Json
  import opened Notebook

  /** One location's check, as fix_notebook writes it twice (for the
      notebook and for each cell): when `metadata` holds a `widgets` entry
      that fails has_valid_widget_state, that entry is deleted. The result
      is the repaired dict; `removedHere` says whether a deletion happened,
      which is exactly when the block was malformed. */
  method RepairMetadata(o: seq<Member>) returns (fixed: seq<Member>, removedHere: bool)
    requires ShapedDict(o)
    ensures removedHere <==> MalformedIn(o)
    ensures fixed == RepairedDict(o)
  {
    fixed, removedHere := o, false;
    if HasKey(o, "metadata") {
      var meta := Get(o, "metadata").fields;
      if HasKey(meta, "widgets") {
        var widgets := Get(meta, "widgets");
        if !IsValidWidgetState(widgets) {
          fixed := Put(o, "metadata", JObj(Remove(meta, "widgets")));
          removedHere := true;
        }
      }
    }
  }

  /** The check of one cell, `'metadata' in cell and 'widgets' in
      cell['metadata']` followed by the validator. */
  method RepairCell(c: Json) returns (fixed: Json, removedHere: bool)
    requires ShapedCell(c)
    ensures removedHere <==> MalformedCell(c)
    ensures fixed == RepairedCell(c)
    ensures !removedHere ==> fixed == c
  {
    var entries;
    entries, removedHere := RepairMetadata(c.fields);
    fixed := JObj(entries);
    RepairedDictFacts(c.fields);
  }

  /** The walk over `notebook['cells']`: each cell gets the check of
      RepairCell, in order. `removed` holds the cell locations whose
      block was deleted, in the order their notices are printed. */
  method RepairCellList(cells: seq<Json>) returns (fixed: seq<Json>, removed: seq<Location>)
    requires forall j :: 0 <= j < |cells| ==> ShapedCell(cells[j])
    ensures fixed == RepairedCells(cells)
    ensures removed == CellNotices(cells)
  {
    fixed := cells;
    removed := [];
    var i := 0;
    while i < |fixed|
      invariant 0 <= i <= |fixed| == |cells|
      invariant forall j :: 0 <= j < i ==> fixed[j] == RepairedCell(cells[j])
      invariant forall j :: i <= j < |fixed| ==> fixed[j] == cells[j]
      invariant removed == CellNotices(cells[..i])
    {
      var cell, removedHere := RepairCell(fixed[i]);
      CellNoticesSnoc(cells, i);
      if removedHere {
        removed := removed + [CellAt(i)];
        fixed := fixed[i := cell];
      }
      i := i + 1;
    }
    assert cells[..i] == cells;
  }

  /** Repairs a parsed notebook the way fix_notebook does before it touches
      the file: the notebook-level block first, then the cells. `removed`
      lists the locations of the "Removing malformed widgets metadata"
      notices in the order they are printed. The result is the value
      `Repaired` describes, the notices are those `Notices` describes, and
      `changesMade` is set exactly when there is at least one. */
  method RepairPass(notebook: Json) returns (repaired: Json, changesMade: bool, removed: seq<Location>)
    requires WellShaped(notebook)
    ensures repaired == Repaired(notebook)
    ensures removed == Notices(notebook)
    ensures changesMade <==> removed != []
    ensures changesMade <==> AnyMalformed(notebook)
  {
    var fields;
    fields, changesMade := RepairMetadata(notebook.fields);
    removed := if changesMade then [NotebookLevel] else [];
    RepairedDictFacts(notebook.fields);
    SameKeysSameIndex(fields, notebook.fields, "cells");
    if HasKey(fields, "cells") {
      assert HasCellList(fields) && Get(fields, "cells").items == Cells(notebook);
      var cells, cellsRemoved := RepairCellList(Get(fields, "cells").items);
      fields := Put(fields, "cells", JArr(cells));
      changesMade := changesMade || cellsRemoved != [];
      removed := removed + cellsRemoved;
    }
    repaired := JObj(fields);
    NoticesNonEmpty(notebook);
  }
}
