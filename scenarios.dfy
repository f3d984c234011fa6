/** Concrete notebooks and what the model of the repair gives for them. */
module Scenarios {
  import opened Json
  import opened Notebook

  /** `{"metadata": {"widgets": {"foo": 1}}, "cells": []}` loses its
      notebook-level block, keeps an empty `metadata` and the empty cell
      list, and gives one notice, at notebook level. */
  lemma NotebookLevelBlockRemoved()
    ensures var nb := JObj([("metadata", JObj([("widgets", JObj([("foo", JInt(1))]))])), ("cells", JArr([]))]);
      && WellShaped(nb)
      && Repaired(nb) == JObj([("metadata", JObj([])), ("cells", JArr([]))])
      && Notices(nb) == [NotebookLevel]
  {
    var widgets := JObj([("foo", JInt(1))]);
    var meta := [("widgets", widgets)];
    var f := [("metadata", JObj(meta)), ("cells", JArr([]))];
    var nb := JObj(f);
    assert "metadata" != "cells" && "foo" != "state";
    assert IndexOf(f, "metadata") == 0;
    assert IndexOf(f, "cells") == 1;
    assert IndexOf(meta, "widgets") == 0;
    assert !IsValidWidgetState(widgets);
    assert MalformedIn(f);
    var top := [("metadata", JObj([])), ("cells", JArr([]))];
    assert Remove(meta, "widgets") == [];
    assert Put(f, "metadata", JObj([])) == top;
    assert RepairedDict(f) == top;
    assert IndexOf(top, "cells") == 1;
    assert CellsOf(top) == [];
    assert RepairedCells([]) == [];
    assert Cells(nb) == [];
  }

  /** `{"cells": [{"metadata": {"widgets": {"state": {}}}}]}` is left as it
      is and gives no notice. */
  lemma WellFormedCellBlockKept()
    ensures var nb := JObj([("cells", JArr([JObj([("metadata", JObj([("widgets", JObj([("state", JObj([]))]))]))])]))]);
      && WellShaped(nb)
      && Repaired(nb) == nb
      && Notices(nb) == []
  {
    var widgets := JObj([("state", JObj([]))]);
    var meta := [("widgets", widgets)];
    var cell := [("metadata", JObj(meta))];
    var f := [("cells", JArr([JObj(cell)]))];
    var nb := JObj(f);
    assert "metadata" != "cells";
    assert !HasKey(f, "metadata");
    assert IndexOf(f, "cells") == 0;
    assert IndexOf(cell, "metadata") == 0;
    assert IndexOf(meta, "widgets") == 0;
    assert IsValidWidgetState(widgets) by {
      assert widgets.fields[0].0 == "state";
    }
    assert !MalformedIn(f) && !MalformedIn(cell);
    assert Cells(nb) == [JObj(cell)];
    assert RepairedCells([JObj(cell)]) == [JObj(cell)];
    assert CellNotices([JObj(cell)]) == [];
  }

  /** The cell `{"metadata": {"widgets": {"state": 0}}}` is well-formed. */
  function GoodCell(): Json {
    JObj([("metadata", JObj([("widgets", JObj([("state", JInt(0))]))]))])
  }

  /** The cell `{"metadata": {"widgets": [], "tags": []}}` is malformed. */
  function BadCell(): Json {
    JObj([("metadata", JObj([("widgets", JArr([])), ("tags", JArr([]))]))])
  }

  lemma GoodCellKept()
    ensures ShapedCell(GoodCell()) && !MalformedCell(GoodCell())
    ensures RepairedCell(GoodCell()) == GoodCell()
  {
    var gw := JObj([("state", JInt(0))]);
    var gmeta := [("widgets", gw)];
    var gcell := [("metadata", JObj(gmeta))];
    assert IndexOf(gcell, "metadata") == 0;
    assert IndexOf(gmeta, "widgets") == 0;
    assert IsValidWidgetState(gw) by {
      assert gw.fields[0].0 == "state";
    }
  }

  lemma BadCellStripped()
    ensures ShapedCell(BadCell()) && MalformedCell(BadCell())
    ensures RepairedCell(BadCell()) == JObj([("metadata", JObj([("tags", JArr([]))]))])
  {
    var bmeta := [("widgets", JArr([])), ("tags", JArr([]))];
    var bcell := [("metadata", JObj(bmeta))];
    assert "widgets" != "tags";
    assert IndexOf(bcell, "metadata") == 0;
    assert IndexOf(bmeta, "widgets") == 0;
    assert Distinct(bmeta);
    assert Remove(bmeta, "widgets") == [("tags", JArr([]))];
  }

  /** Three cells of which only the one at index 1 has a malformed block:
      exactly one notice, for cell 1, and cells 0 and 2 are unchanged. */
  lemma OnlyMalformedCellTouched()
    ensures
      var nb := JObj([("cells", JArr([GoodCell(), BadCell(), GoodCell()]))]);
      && WellShaped(nb)
      && Notices(nb) == [CellAt(1)]
      && Repaired(nb) == JObj([("cells", JArr([GoodCell(), JObj([("metadata", JObj([("tags", JArr([]))]))]), GoodCell()]))])
  {
    var cs := [GoodCell(), BadCell(), GoodCell()];
    var f := [("cells", JArr(cs))];
    var nb := JObj(f);
    GoodCellKept();
    BadCellStripped();
    assert "metadata" != "cells";
    assert !HasKey(f, "metadata");
    assert IndexOf(f, "cells") == 0;
    assert Cells(nb) == cs;
    assert RepairedCells(cs) == [GoodCell(), RepairedCell(BadCell()), GoodCell()];
    assert cs[..2][..1] == cs[..1] && cs[..3][..2] == cs[..2] && cs[..1][..0] == [];
    assert CellNotices(cs[..1]) == [];
    assert CellNotices(cs[..2]) == [CellAt(1)];
    assert cs[..3] == cs;
  }
}
