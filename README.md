# fix_notebook: a verified model of the widget-metadata repair

`tools/fix_notebook.py` repairs Jupyter notebooks whose `metadata.widgets`
blocks break rendering on GitHub and nbviewer. A `widgets` block is
well-formed when it is a mapping with a `state` key. The tool deletes every
malformed block, at the notebook level and in each cell, and prints one
notice per deletion. When something changed it copies the file to a
timestamped backup, writes the repaired notebook, and copies the backup back
if that write fails.

This Dafny project models that behaviour in five modules:

- `Json` (`json.dfy`): parsed JSON values. Objects are association lists in
  insertion order, so a deletion keeps the relative order of the other keys,
  as a Python dict does. `HasKey`, `Get`, `Put` and `Remove` are `k in d`,
  `d[k]`, an in-place change of `d[k]` and `del d[k]`.
- `Notebook` (`notebook.dfy`): the validator and the meaning of the repair.
  - `Repaired(nb)` is the repaired document.
  - `Notices(nb)` is the list of removal notices, by location.
  - `Erased(nb)` is the document with every `widgets` block taken out.
  - The module also holds the lemmas about these functions.
- `Repair` (`repair.dfy`): the repair section of `fix_notebook` as methods.
  The cell walk is a loop that updates the cell list and the notice log. Each
  method is proved to compute `Repaired` and `Notices`.
- `FileStage` (`filestage.dfy`): backup, write and restore, then the whole of
  `fix_notebook`. The results of the load and of each file operation are
  inputs. The outputs are the return value, the final contents of the
  notebook file and its backup, and the printed messages as events.
- `Scenarios` (`scenarios.dfy`): concrete notebooks and what the model gives for them.

The docstring of `fix_notebook` (tools/fix_notebook.py:42) says it returns
True "if changes were made". The code returns True as well when nothing
needed fixing (tools/fix_notebook.py:111). The model follows the code.

Shape assumptions. The repair handles a notebook that is an object, with an
object `metadata`, and a `cells` entry, if present, that is a list of objects
each with an object `metadata` if present. `WellShaped` states these shapes.
It also requires the keys of each `metadata` object to be distinct, which
holds for every dict `json.load` produces.

## Model

| member | source | states |
|---|---|---|
| Notebook.IsValidWidgetState | tools/fix_notebook.py:17-31 | a widgets value is valid exactly when it is a mapping with some entry whose key is `state` |
| Notebook.NonMappingsAreMalformed | tools/fix_notebook.py:27-31 | null, booleans, numbers, strings, lists, mappings without `state` and the empty mapping are all invalid |
| Json.HasKey | tools/fix_notebook.py:31 | `k in d` holds exactly when some entry of `d` has key `k` |
| Json.IndexOf | tools/fix_notebook.py:65 | the lookup of `d[k]` finds the first entry with key `k`, and no earlier entry has that key |
| Json.RemoveFacts | tools/fix_notebook.py:68 | `del d[k]` on a dict shortens it by one and leaves `k` absent; it keeps the keys distinct and keeps every other key with its value |
| Json.PutFacts | tools/fix_notebook.py:78 | changing the value under one key in place keeps all keys in order; it gives that key the new value and keeps every other value and distinctness |
| Notebook.MalformedAtWidgets | tools/fix_notebook.py:64-66 | a location is malformed exactly when it holds a widgets block that fails the validator |
| Notebook.RepairedDictFacts | tools/fix_notebook.py:63-69 | one location's step removes the widgets block exactly when it is malformed and otherwise leaves the dict as it is; it changes nothing once all widgets blocks are erased, and it keeps the keys and the cell list |
| Notebook.RepairedCellsOf | tools/fix_notebook.py:72-79 | the repaired notebook's cell list has each input cell repaired on its own, at the same index |
| Notebook.RepairedWidgetsAt | tools/fix_notebook.py:63-79 | at each location, the repaired notebook has no block where the input's was malformed; elsewhere it has the input's block, unchanged |
| Notebook.RepairLeavesOnlyValid | tools/fix_notebook.py:63-79 | the repaired notebook keeps its shape, every widgets block left in it passes the validator, and no location is malformed |
| Notebook.RepairChangesOnlyWidgets | tools/fix_notebook.py:63-79 | with all widgets blocks erased, input and output are equal; the top-level keys and the number of cells are unchanged |
| Notebook.RepairWithoutMalformedIsIdentity | tools/fix_notebook.py:60-79 | with no malformed block anywhere the document is unchanged |
| Notebook.RepairIdempotent | tools/fix_notebook.py:63-79 | repairing the output again changes nothing and gives no notice |
| Notebook.CellNoticesAt | tools/fix_notebook.py:73-78 | the cell notices name exactly the indices of the cells whose block is malformed |
| Notebook.CellNoticesSnoc | tools/fix_notebook.py:73-77 | walking one more cell adds that cell's notice, if it has one, at the end of the list |
| Notebook.CellNoticesOrdered | tools/fix_notebook.py:73-77 | the cell notices are in strictly increasing index order, each index within the list |
| Notebook.NoticesAt | tools/fix_notebook.py:62-79 | a location is in the notice list exactly when it held a malformed block |
| Notebook.NoticesInVisitOrder | tools/fix_notebook.py:62-79 | the notices come in order: notebook level first, then cells by increasing index |
| Notebook.NoticesNonEmpty | tools/fix_notebook.py:60-79 | there is at least one notice exactly when some location is malformed |
| Notebook.VisitOrderDetermines | tools/fix_notebook.py:67-77 | two location lists in visiting order with the same members are equal |
| Notebook.NoticesCharacterized | tools/fix_notebook.py:67-77 | the notice list is the only list in visiting order that names exactly the malformed locations |
| Repair.RepairMetadata | tools/fix_notebook.py:63-69 | the nested checks of one location flag a removal exactly when its block is malformed, and deliver the repaired dict |
| Repair.RepairCell | tools/fix_notebook.py:74-79 | one cell's check flags a removal exactly when the cell's block is malformed, and delivers the repaired cell, the cell itself when nothing was removed |
| Repair.RepairCellList | tools/fix_notebook.py:72-79 | the cell loop delivers every cell repaired and the cell notices in order |
| Repair.RepairPass | tools/fix_notebook.py:60-79 | the repair section delivers `Repaired` and `Notices`; `changes_made` holds exactly when there is a notice, which is exactly when some block is malformed |
| FileStage.RemovalEvents | tools/fix_notebook.py:67-77 | one removal message per notice, in the same order |
| FileStage.FinishFix | tools/fix_notebook.py:81-111 | the result is true exactly when nothing changed, or when both backup and write worked; the contents of both files and the messages are fixed for every outcome of backup, write and restore; the file is never written without a backup of the original; a failed run leaves the original in place unless the restore failed too |
| FileStage.FixNotebook | tools/fix_notebook.py:34-111 | each load error returns false, writes nothing and gives its one message; a loaded notebook's messages start with one removal message per notice; with nothing malformed the result is true and no file is touched; after a repair: a failed backup leaves the original and no backup; a backup that worked holds the original; a write that worked leaves the serialized repaired notebook; a broken-off write leaves the original when the restore worked and the write's leftovers when it failed; and the messages after the removal notices are exactly those of the file stage |
| Scenarios.NotebookLevelBlockRemoved | tools/fix_notebook.py:63-69 | `{"metadata": {"widgets": {"foo": 1}}, "cells": []}` becomes `{"metadata": {}, "cells": []}` with one notebook-level notice |
| Scenarios.WellFormedCellBlockKept | tools/fix_notebook.py:72-79 | a cell whose widgets block has `state` is kept and gives no notice |
| Scenarios.GoodCellKept | tools/fix_notebook.py:74-76 | a cell block with `state` passes and the cell is unchanged |
| Scenarios.BadCellStripped | tools/fix_notebook.py:74-78 | a cell block that is a list is removed and the other metadata key stays |
| Scenarios.OnlyMalformedCellTouched | tools/fix_notebook.py:72-79 | of three cells only the malformed middle one changes, and the only notice is for cell 1 |

## Left out

- Checking that the file exists, reading it and parsing it with `json.load` (tools/fix_notebook.py:45-58) are not modelled. They are replaced by the input `LoadResult`: not found, invalid JSON, another read error, or the original bytes with the parsed document.
- JSON serialisation with `indent=2`, `ensure_ascii=False` and the trailing newline (tools/fix_notebook.py:95-97) is the function parameter `serialize`.
- The timestamp from the clock and the backup file name (tools/fix_notebook.py:83-84) are not modelled. The backup is a slot of `Disk`.
- `shutil.copy2` and the file writes are reduced to ok/failed results; a failed write also gives what it left in the file. A backup copy that fails part way and leaves a partial backup file is modelled as no backup.
- The text of the printed messages is not modelled; each message is an `Event`.
- FileStage.FinishFix: a failed restore copy (tools/fix_notebook.py:104) is modelled as leaving the notebook file as the broken-off write left it. `shutil.copy2` could also have truncated the file or partly overwritten it before failing.
- `main`, `argparse` and `sys.exit` (tools/fix_notebook.py:114-141) are not modelled. The exit status is 0 exactly when the result of `FixNotebook` is true.
- JSON floating-point numbers are left out. Leaf values are null, booleans, integers and strings, because the repair never looks inside a leaf.
- Non-object notebooks, non-object `metadata`, a `cells` value that is not a list, and non-object cells are excluded by the precondition `WellShaped`. On these shapes Python tests membership on a list or string, or iterates a dict or string as if it were the cell list. It then raises an uncaught TypeError, or does nothing.
- Repair.RepairPass: the document is modelled as a value that the methods rebuild, not as a shared mutable tree. `json.load` creates no aliasing, so nothing else observes the in-place `del`.
- Repair.RepairCellList: fix_notebook sets `changes_made` inside the loop. The model returns the notice log, and `RepairPass` sets the flag from it being non-empty. The two are equal, as `RepairPass` proves.
