/** What the repair of tools/fix_notebook.py means for a parsed notebook:
    the validator, the places a `widgets` block can sit, the repaired
    document as a function of the input, and the properties of that
    function. */
module Notebook {
  import opened Json

  /** has_valid_widget_state: a `widgets` value is well-formed exactly when
      it is a mapping with a `state` key. The contents of `state` are not
      looked at. */
  predicate IsValidWidgetState(v: Json)
    ensures IsValidWidgetState(v) <==>
      v.JObj? && exists i :: 0 <= i < |v.fields| && v.fields[i].0 == "state"
  {
    v.JObj? && HasKey(v.fields, "state")
  }

  /** Null, booleans, numbers, strings, lists and mappings without `state`,
      the empty mapping among them, are all malformed. */
  lemma NonMappingsAreMalformed(b: bool, n: int, s: string, xs: seq<Json>, fs: seq<Member>)
    requires forall i :: 0 <= i < |fs| ==> fs[i].0 != "state"
    ensures !IsValidWidgetState(JNull) && !IsValidWidgetState(JBool(b))
    ensures !IsValidWidgetState(JInt(n)) && !IsValidWidgetState(JStr(s))
    ensures !IsValidWidgetState(JArr(xs)) && !IsValidWidgetState(JObj(fs))
    ensures !IsValidWidgetState(JObj([]))
  {
  }

  /** A place where a `metadata.widgets` block can sit, in the order the
      repair visits them and reports removals. */
  datatype Location = NotebookLevel | CellAt(index: nat)

  /** The position of a location in the visiting order. */
  function Rank(loc: Location): nat {
    match loc
    case NotebookLevel => 0
    case CellAt(i) => i + 1
  }

  /** Locations listed in strictly increasing visiting order: the notebook
      level first, then cell indices going up. */
  predicate InVisitOrder(locs: seq<Location>) {
    forall a, b :: 0 <= a < b < |locs| ==> Rank(locs[a]) < Rank(locs[b])
  }

  /** Two lists in visiting order that hold the same locations are equal:
      the removal report is determined by which locations it names. */
  lemma {:induction false} VisitOrderDetermines(s: seq<Location>, t: seq<Location>)
    requires InVisitOrder(s) && InVisitOrder(t)
    requires forall loc :: loc in s <==> loc in t
    ensures s == t
  {
    assert s != [] ==> s[0] in t;
    assert t != [] ==> t[0] in s;
    if s != [] {
      assert t != [] by { assert s[0] in t; }
      assert s[0] == t[0] by {
        assert s[0] in t && t[0] in s;
        assert Rank(t[0]) <= Rank(s[0]) && Rank(s[0]) <= Rank(t[0]);
      }
      forall loc
        ensures loc in s[1..] <==> loc in t[1..]
      {
        if loc in s[1..] {
          assert loc != s[0];
          assert loc in t;
        }
        if loc in t[1..] {
          assert loc != t[0];
          assert loc in s;
        }
      }
      VisitOrderDetermines(s[1..], t[1..]);
    }
  }

  /** The `metadata.widgets` value of a notebook or cell, if it has one. */
  function WidgetsOf(o: seq<Member>): Option<Json> {
    if HasKey(o, "metadata") && Get(o, "metadata").JObj?
       && HasKey(Get(o, "metadata").fields, "widgets")
    then Some(Get(Get(o, "metadata").fields, "widgets"))
    else None
  }

  /** This notebook or cell carries a `widgets` block that is malformed. */
  predicate MalformedIn(o: seq<Member>) {
    WidgetsOf(o).Some? && !IsValidWidgetState(WidgetsOf(o).value)
  }

  /** The object after `del o['metadata']['widgets']`. */
  function Stripped(o: seq<Member>): seq<Member>
    requires WidgetsOf(o).Some?
  {
    Put(o, "metadata", JObj(Remove(Get(o, "metadata").fields, "widgets")))
  }

  /** One location's repair step: the block goes when it is malformed. */
  function RepairedDict(o: seq<Member>): seq<Member> {
    if MalformedIn(o) then Stripped(o) else o
  }

  /** Every `widgets` block removed, well-formed or not: the part of a
      notebook that the repair must leave alone. */
  function ErasedDict(o: seq<Member>): seq<Member> {
    if WidgetsOf(o).Some? then Stripped(o) else o
  }

  /** A cell that is an object carrying a malformed block. */
  predicate MalformedCell(c: Json) {
    c.JObj? && MalformedIn(c.fields)
  }

  function RepairedCell(c: Json): Json {
    if c.JObj? then JObj(RepairedDict(c.fields)) else c
  }

  function ErasedCell(c: Json): Json {
    if c.JObj? then JObj(ErasedDict(c.fields)) else c
  }

  function RepairedCells(cs: seq<Json>): seq<Json> {
    seq(|cs|, j requires 0 <= j < |cs| => RepairedCell(cs[j]))
  }

  function ErasedCells(cs: seq<Json>): seq<Json> {
    seq(|cs|, j requires 0 <= j < |cs| => ErasedCell(cs[j]))
  }

  /** The object has a `cells` entry holding a list. */
  predicate HasCellList(o: seq<Member>) {
    HasKey(o, "cells") && Get(o, "cells").JArr?
  }

  /** The cells of a notebook's entries, or none when there is no list. */
  function CellsOf(o: seq<Member>): seq<Json> {
    if HasCellList(o) then Get(o, "cells").items else []
  }

  /** The entries with the cell list replaced, where there is one. */
  function WithCells(o: seq<Member>, cs: seq<Json>): seq<Member> {
    if HasCellList(o) then Put(o, "cells", JArr(cs)) else o
  }

  function Cells(nb: Json): seq<Json> {
    if nb.JObj? then CellsOf(nb.fields) else []
  }

  /** The notebook after the repair: the top-level block is repaired, then
      every cell in the list. */
  function Repaired(nb: Json): Json {
    match nb
    case JObj(f) =>
      var top := RepairedDict(f);
      JObj(WithCells(top, RepairedCells(CellsOf(top))))
    case _ => nb
  }

  /** The notebook with every `widgets` block removed. */
  function Erased(nb: Json): Json {
    match nb
    case JObj(f) =>
      var top := ErasedDict(f);
      JObj(WithCells(top, ErasedCells(CellsOf(top))))
    case _ => nb
  }

  /** The `widgets` block at a location of a notebook, if there is one. */
  function WidgetsAt(nb: Json, loc: Location): Option<Json> {
    match loc
    case NotebookLevel => if nb.JObj? then WidgetsOf(nb.fields) else None
    case CellAt(i) =>
      if i < |Cells(nb)| && Cells(nb)[i].JObj? then WidgetsOf(Cells(nb)[i].fields) else None
  }

  /** The location holds a malformed block. */
  predicate MalformedAt(nb: Json, loc: Location) {
    match loc
    case NotebookLevel => nb.JObj? && MalformedIn(nb.fields)
    case CellAt(i) => i < |Cells(nb)| && MalformedCell(Cells(nb)[i])
  }

  /** A location is malformed exactly when it holds a block that fails
      the validator. */
  lemma MalformedAtWidgets(nb: Json, loc: Location)
    ensures MalformedAt(nb, loc) <==>
      WidgetsAt(nb, loc).Some? && !IsValidWidgetState(WidgetsAt(nb, loc).value)
  {
  }

  /** Some location of the notebook holds a malformed block. */
  ghost predicate AnyMalformed(nb: Json) {
    exists loc :: MalformedAt(nb, loc)
  }

  /** The removal notices for a list of cells, in the order the walk
      prints them: one per cell whose block is malformed. */
  function CellNotices(cs: seq<Json>): seq<Location> {
    if cs == [] then []
    else
      var last := |cs| - 1;
      CellNotices(cs[..last]) + (if MalformedCell(cs[last]) then [CellAt(last)] else [])
  }

  /** Walking one more cell adds its notice, if any, at the end. */
  lemma CellNoticesSnoc(cs: seq<Json>, i: nat)
    requires i < |cs|
    ensures CellNotices(cs[..i + 1]) ==
      CellNotices(cs[..i]) + (if MalformedCell(cs[i]) then [CellAt(i)] else [])
  {
    assert cs[..i + 1][..i] == cs[..i];
  }

  /** The removal notices of a repair run: "notebook level" when that block
      is malformed, then the cells. */
  function Notices(nb: Json): seq<Location> {
    if nb.JObj? then
      (if MalformedIn(nb.fields) then [NotebookLevel] else []) + CellNotices(Cells(nb))
    else []
  }

  /** A dict whose `metadata`, if present, is itself a dict. */
  predicate ShapedDict(o: seq<Member>) {
    HasKey(o, "metadata") ==> Get(o, "metadata").JObj? && Distinct(Get(o, "metadata").fields)
  }

  predicate ShapedCell(c: Json) {
    c.JObj? && ShapedDict(c.fields)
  }

  /** The shapes the repair handles: the notebook is an object, `metadata`
      is an object, `cells` is a list of objects. */
  predicate WellShaped(nb: Json) {
    && nb.JObj?
    && ShapedDict(nb.fields)
    && (HasKey(nb.fields, "cells") ==> Get(nb.fields, "cells").JArr?)
    && forall j :: 0 <= j < |Cells(nb)| ==> ShapedCell(Cells(nb)[j])
  }

  // ---- facts about one dict ----

  lemma StrippedFacts(o: seq<Member>)
    requires ShapedDict(o) && WidgetsOf(o).Some?
    ensures WidgetsOf(Stripped(o)) == None
    ensures Keys(Stripped(o)) == Keys(o)
    ensures HasCellList(Stripped(o)) == HasCellList(o)
    ensures CellsOf(Stripped(o)) == CellsOf(o)
    ensures ShapedDict(Stripped(o))
  {
    var meta := Get(o, "metadata").fields;
    RemoveFacts(meta, "widgets");
    PutFacts(o, "metadata", JObj(Remove(meta, "widgets")));
    SameKeysSameIndex(Stripped(o), o, "cells");
  }

  lemma WithCellsFacts(o: seq<Member>, cs: seq<Json>)
    ensures Keys(WithCells(o, cs)) == Keys(o)
    ensures HasCellList(WithCells(o, cs)) == HasCellList(o)
    ensures HasCellList(o) ==> CellsOf(WithCells(o, cs)) == cs
    ensures WidgetsOf(WithCells(o, cs)) == WidgetsOf(o)
    ensures ShapedDict(WithCells(o, cs)) == ShapedDict(o)
  {
    if HasCellList(o) {
      PutFacts(o, "cells", JArr(cs));
    }
  }

  lemma WithCellsTwice(o: seq<Member>, a: seq<Json>, b: seq<Json>)
    ensures WithCells(WithCells(o, a), b) == WithCells(o, b)
  {
    if HasCellList(o) {
      PutPut(o, "cells", JArr(a), JArr(b));
    }
  }

  lemma WithOwnCells(o: seq<Member>)
    ensures WithCells(o, CellsOf(o)) == o
  {
    if HasCellList(o) {
      PutGet(o, "cells");
    }
  }

  /** Taking a block out of metadata and replacing the cell list commute. */
  lemma StrippedWithCells(o: seq<Member>, cs: seq<Json>)
    requires WidgetsOf(o).Some?
    ensures WidgetsOf(WithCells(o, cs)).Some?
    ensures Stripped(WithCells(o, cs)) == WithCells(Stripped(o), cs)
  {
    WithCellsFacts(o, cs);
    var meta := JObj(Remove(Get(o, "metadata").fields, "widgets"));
    PutFacts(o, "metadata", meta);
    SameKeysSameIndex(Put(o, "metadata", meta), o, "cells");
    if HasCellList(o) {
      PutFacts(o, "cells", JArr(cs));
      PutSwap(o, "cells", JArr(cs), "metadata", meta);
    }
  }

  lemma RepairedDictWithCells(o: seq<Member>, cs: seq<Json>)
    ensures RepairedDict(WithCells(o, cs)) == WithCells(RepairedDict(o), cs)
    ensures ErasedDict(WithCells(o, cs)) == WithCells(ErasedDict(o), cs)
  {
    WithCellsFacts(o, cs);
    if WidgetsOf(o).Some? {
      StrippedWithCells(o, cs);
    }
  }

  lemma RepairedDictFacts(o: seq<Member>)
    requires ShapedDict(o)
    ensures WidgetsOf(RepairedDict(o)) == if MalformedIn(o) then None else WidgetsOf(o)
    ensures ErasedDict(RepairedDict(o)) == ErasedDict(o)
    ensures Keys(RepairedDict(o)) == Keys(o)
    ensures HasCellList(RepairedDict(o)) == HasCellList(o)
    ensures CellsOf(RepairedDict(o)) == CellsOf(o)
    ensures ShapedDict(RepairedDict(o))
    ensures !MalformedIn(o) ==> RepairedDict(o) == o
  {
    if MalformedIn(o) {
      StrippedFacts(o);
    }
  }

  lemma ErasedDictFacts(o: seq<Member>)
    requires ShapedDict(o)
    ensures HasCellList(ErasedDict(o)) == HasCellList(o)
    ensures CellsOf(ErasedDict(o)) == CellsOf(o)
  {
    if WidgetsOf(o).Some? {
      StrippedFacts(o);
    }
  }

  // ---- the properties of the repair ----

  /** Cell list of the repaired notebook: same length, each cell repaired on
      its own. */
  lemma RepairedCellsOf(nb: Json)
    requires WellShaped(nb)
    ensures Cells(Repaired(nb)) == RepairedCells(Cells(nb))
  {
    var f := nb.fields;
    RepairedDictFacts(f);
    WithCellsFacts(RepairedDict(f), RepairedCells(CellsOf(RepairedDict(f))));
  }

  /** At every location, the repaired notebook holds the block the input
      held when it was well-formed, and none when it was malformed. So a
      well-formed block is kept unchanged, a malformed one is removed, and
      each cell is handled independently of the others. */
  lemma RepairedWidgetsAt(nb: Json, loc: Location)
    requires WellShaped(nb)
    ensures WidgetsAt(Repaired(nb), loc) ==
      if MalformedAt(nb, loc) then None else WidgetsAt(nb, loc)
  {
    var f := nb.fields;
    RepairedDictFacts(f);
    WithCellsFacts(RepairedDict(f), RepairedCells(CellsOf(RepairedDict(f))));
    RepairedCellsOf(nb);
    match loc
    case NotebookLevel =>
    case CellAt(i) =>
      if i < |Cells(nb)| {
        RepairedDictFacts(Cells(nb)[i].fields);
      }
  }

  /** After the repair the notebook keeps its shape and every `widgets`
      block left in it, at either level, is well-formed. */
  lemma RepairLeavesOnlyValid(nb: Json)
    requires WellShaped(nb)
    ensures WellShaped(Repaired(nb))
    ensures forall loc :: WidgetsAt(Repaired(nb), loc).Some? ==>
      IsValidWidgetState(WidgetsAt(Repaired(nb), loc).value)
    ensures !AnyMalformed(Repaired(nb))
  {
    var f := nb.fields;
    RepairedDictFacts(f);
    WithCellsFacts(RepairedDict(f), RepairedCells(CellsOf(RepairedDict(f))));
    RepairedCellsOf(nb);
    var r := Repaired(nb);
    assert HasKey(r.fields, "cells") ==> Get(r.fields, "cells").JArr? by {
      SameKeysSameIndex(r.fields, f, "cells");
    }
    forall j | 0 <= j < |Cells(r)|
      ensures ShapedCell(Cells(r)[j])
    {
      RepairedDictFacts(Cells(nb)[j].fields);
    }
    forall loc
      ensures WidgetsAt(r, loc).Some? ==> IsValidWidgetState(WidgetsAt(r, loc).value)
      ensures !MalformedAt(r, loc)
    {
      RepairedWidgetsAt(nb, loc);
      MalformedAtWidgets(nb, loc);
      MalformedAtWidgets(r, loc);
    }
  }

  /** The notices for a cell list name exactly the cells whose block is
      malformed, by index. */
  lemma {:induction false} CellNoticesAt(cs: seq<Json>, loc: Location)
    ensures loc in CellNotices(cs) <==>
      loc.CellAt? && loc.index < |cs| && MalformedCell(cs[loc.index])
  {
    if cs != [] {
      var last := |cs| - 1;
      CellNoticesAt(cs[..last], loc);
      if loc.CellAt? && loc.index < last {
        assert cs[..last][loc.index] == cs[loc.index];
      }
    }
  }

  /** The notices for a cell list are cell indices below its length, in
      strictly increasing order. */
  lemma {:induction false} CellNoticesOrdered(cs: seq<Json>)
    ensures InVisitOrder(CellNotices(cs))
    ensures forall k :: 0 <= k < |CellNotices(cs)| ==>
      CellNotices(cs)[k].CellAt? && CellNotices(cs)[k].index < |cs|
  {
    if cs != [] {
      CellNoticesOrdered(cs[..|cs| - 1]);
    }
  }

  /** The removal notices of a run name exactly the locations that held a
      malformed block. */
  lemma NoticesAt(nb: Json, loc: Location)
    ensures loc in Notices(nb) <==> MalformedAt(nb, loc)
  {
    if nb.JObj? {
      var cs := Cells(nb);
      CellNoticesAt(cs, loc);
      var head: seq<Location> := if MalformedIn(nb.fields) then [NotebookLevel] else [];
      assert Notices(nb) == head + CellNotices(cs);
    }
  }

  /** The notices come in visiting order: notebook level first, then cell
      indices strictly increasing. */
  lemma NoticesInVisitOrder(nb: Json)
    ensures InVisitOrder(Notices(nb))
  {
    if nb.JObj? {
      CellNoticesOrdered(Cells(nb));
    }
  }

  /** There is at least one notice exactly when some block is malformed. */
  lemma NoticesNonEmpty(nb: Json)
    ensures Notices(nb) != [] <==> AnyMalformed(nb)
  {
    if Notices(nb) != [] {
      NoticesAt(nb, Notices(nb)[0]);
    }
    if AnyMalformed(nb) {
      var loc :| MalformedAt(nb, loc);
      NoticesAt(nb, loc);
    }
  }

  /** `Notices` is the one list in visiting order that names exactly the
      malformed locations. */
  lemma NoticesCharacterized(nb: Json, s: seq<Location>)
    requires InVisitOrder(s)
    requires forall loc :: loc in s <==> MalformedAt(nb, loc)
    ensures s == Notices(nb)
  {
    NoticesInVisitOrder(nb);
    forall loc
      ensures loc in s <==> loc in Notices(nb)
    {
      NoticesAt(nb, loc);
    }
    VisitOrderDetermines(s, Notices(nb));
  }

  /** Nothing but `widgets` blocks changes: with every such block taken out,
      the input and the repaired notebook are the same value. So all other
      top-level keys and all other metadata keys survive with their values
      and order, and the cell list keeps its length, order and contents. */
  lemma RepairChangesOnlyWidgets(nb: Json)
    requires WellShaped(nb)
    ensures Erased(Repaired(nb)) == Erased(nb)
    ensures Repaired(nb).JObj? && Keys(Repaired(nb).fields) == Keys(nb.fields)
    ensures |Cells(Repaired(nb))| == |Cells(nb)|
  {
    var f := nb.fields;
    var t := RepairedDict(f);
    var cs := CellsOf(f);
    RepairedDictFacts(f);
    assert CellsOf(t) == cs;
    var rc := RepairedCells(cs);
    var r := WithCells(t, rc);
    WithCellsFacts(t, rc);
    RepairedCellsOf(nb);
    // The erased form of the repaired notebook.
    RepairedDictWithCells(t, rc);
    assert ErasedDict(r) == WithCells(ErasedDict(f), rc);
    ErasedDictFacts(f);
    WithCellsFacts(ErasedDict(f), rc);
    assert CellsOf(ErasedDict(r)) == if HasCellList(f) then rc else [];
    assert ErasedCells(CellsOf(ErasedDict(r))) == ErasedCells(cs) by {
      forall j | 0 <= j < |cs|
        ensures ErasedCell(RepairedCell(cs[j])) == ErasedCell(cs[j])
      {
        RepairedDictFacts(cs[j].fields);
      }
    }
    WithCellsTwice(ErasedDict(f), rc, ErasedCells(cs));
  }

  /** With no malformed block anywhere the repair changes nothing. */
  lemma RepairWithoutMalformedIsIdentity(nb: Json)
    requires WellShaped(nb) && !AnyMalformed(nb)
    ensures Repaired(nb) == nb
  {
    var f := nb.fields;
    assert !MalformedAt(nb, NotebookLevel);
    RepairedDictFacts(f);
    var cs := CellsOf(f);
    assert RepairedCells(cs) == cs by {
      forall j | 0 <= j < |cs|
        ensures RepairedCell(cs[j]) == cs[j]
      {
        assert !MalformedAt(nb, CellAt(j));
        RepairedDictFacts(cs[j].fields);
      }
    }
    WithOwnCells(f);
  }

  /** Repairing a second time changes nothing and prints no notice, so
      the second run's `changes_made` stays false. */
  lemma RepairIdempotent(nb: Json)
    requires WellShaped(nb)
    ensures WellShaped(Repaired(nb))
    ensures Repaired(Repaired(nb)) == Repaired(nb)
    ensures Notices(Repaired(nb)) == []
  {
    RepairLeavesOnlyValid(nb);
    RepairWithoutMalformedIsIdentity(Repaired(nb));
    NoticesNonEmpty(Repaired(nb));
  }
}
