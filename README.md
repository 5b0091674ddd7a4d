# SS cell helpers — a Dafny model

This project models the static helpers of the class `SS` of poiutils, a small
utility library over Apache POI spreadsheets: `copy` (copy a cell's value,
style, comment and hyperlink onto another cell), `clear` (blank a cell) and
`merge` (fold a rectangular range into its upper-left cell and register the
range as a merged region), together with their private helpers
`copyCellValue`, `copyCellStyle`, `copyCellComment`, `copyHyperlink`,
`removeHyperlink`, `isBlank`/`isNotBlank` and `getCell`.

Two modules:

- `Poi` (`poi.dfy`) reduces the library's object model to values. A cell is
  the record `Cell(content, style, comment, hyperlink)`, where `Content` has
  one constructor per cell type (numeric, string, formula, blank, boolean,
  error) carrying that type's value; numbers, rich text, formulas, error
  bytes, styles, comments and hyperlinks are opaque handles compared by
  equality. A `Sheet` is a class whose fields are the map from
  `CellReference` to `Cell`, the sheet's hyperlink list and its merged
  regions; its methods are the library setters the helpers call.
  `ListRemove` is `java.util.List.remove(Object)`: it drops the first equal
  element.
- `SS` (`ss.dfy`) holds the helpers as methods that take the sheet and
  update it in place, and the value-level functions they are proved
  against: `CopiedCell`/`LinksAfterCopy` for one copy, `Cleared` for
  `clear`, and `FirstNonBlank`, `MergedUpperLeft`, `MergedCells` and
  `MergedLinks` for a whole merge. A null cell argument is `None`.
  `isBlank`/`isNotBlank` are the predicates `IsBlank`/`IsNotBlank` (a null
  cell is blank). `getCell` is the helper `GetCell`, which yields `None`
  where the sheet has no cell. Until the copy is made, each merge step
  reads a cell not visited before, with its original contents
  (`MergedCellsSnoc`); after it, the upper-left cell, if visited later,
  holds the copied cell.

The model follows the code where it differs from its doc comments:

- `clear` only sets the cell type to blank. Its doc comment also promises to
  remove formats and comments; the code does not, so style, comment and
  hyperlink survive.
- `copy` from a blank source leaves the target's type and value as they
  were. Style and comment are still copied, and the hyperlink is handled as
  for any source: a source hyperlink is set on the target, and without one
  the target's hyperlink is removed from the sheet's list.
- The doc comment of `merge` says only the upper-left cell's data remains.
  The code instead moves the first non-blank cell of the enumeration into
  the upper-left cell. The upper-left cell keeps its own data only when it
  is itself that first non-blank cell (it is then copied onto itself),
  wherever it stands in the enumeration, or when every cell of the range is
  blank.
- `removeHyperlink` takes the hyperlink out of the sheet's list and does not
  touch the cell itself.

## Model

| member | source | states |
|---|---|---|
| `Poi.ListRemove` | src/main/java/jp/ryoyamamoto/poiutils/SS.java:177 | removing a hyperlink from the list leaves a list without it unchanged; from a list that holds it, it takes out exactly one copy of it (the length drops by one and the multiset of entries loses one occurrence), at its first position, keeping the entries before and after in order |
| `Poi.IndexOf` | src/main/java/jp/ryoyamamoto/poiutils/SS.java:177 | the position `List.remove` acts on: an index holding the element with no earlier occurrence |
| `SS.CopiedContent` | src/main/java/jp/ryoyamamoto/poiutils/SS.java:112-131 | a numeric, string, formula, boolean or error source gives the target the same type and value; a blank source leaves the target's content unchanged |
| `SS.CopyTransfersCell` | src/main/java/jp/ryoyamamoto/poiutils/SS.java:56-59 | after copying, the target has the source's content unless the source is blank, and always the source's style and comment; a source hyperlink replaces the target's, and without one the target keeps its own record |
| `SS.CopyHyperlinkList` | src/main/java/jp/ryoyamamoto/poiutils/SS.java:142-178 | the sheet's hyperlink list changes only when the source has no hyperlink and the target has one; then only that hyperlink's first occurrence is removed and all other entries stay in order |
| `SS.CopyOntoItself` | src/main/java/jp/ryoyamamoto/poiutils/SS.java:50-60 | copying a cell onto itself changes neither the cell nor the hyperlink list |
| `SS.CopyIdempotent` | src/main/java/jp/ryoyamamoto/poiutils/SS.java:50-60 | copying the same source a second time leaves the target cell as the first copy did; it leaves the hyperlink list as well when the target's hyperlink occurs in it at most once |
| `SS.CopyTwiceRemovesDuplicate` | src/main/java/jp/ryoyamamoto/poiutils/SS.java:142-148 | with the target's hyperlink listed twice and a source without one, each copy removes one occurrence, so a second copy is not idempotent on the list |
| `SS.ClearBlanksContentOnly` | src/main/java/jp/ryoyamamoto/poiutils/SS.java:73-79 | a cleared cell is blank, keeps its style, comment and hyperlink, and clearing twice is clearing once |
| `SS.Copy` | src/main/java/jp/ryoyamamoto/poiutils/SS.java:50-60 | with a null source the sheet's cells and hyperlinks are unchanged; otherwise only the target cell changes, to the copied cell, and the hyperlink list changes as the copy of hyperlinks says |
| `SS.Clear` | src/main/java/jp/ryoyamamoto/poiutils/SS.java:73-79 | `clear(null)` changes nothing; otherwise only that cell changes, and only its type becomes blank |
| `SS.CopyCellValue` | src/main/java/jp/ryoyamamoto/poiutils/SS.java:112-132 | only the target's content changes, as the value copy says |
| `SS.CopyCellStyle` | src/main/java/jp/ryoyamamoto/poiutils/SS.java:134-136 | only the target's style changes, to the source's |
| `SS.CopyCellComment` | src/main/java/jp/ryoyamamoto/poiutils/SS.java:138-140 | only the target's comment changes, to the source's, which may be absent |
| `SS.CopyHyperlink` | src/main/java/jp/ryoyamamoto/poiutils/SS.java:142-148 | a source hyperlink is set on the target and the list is untouched; without one, the target's hyperlink is removed from the sheet's list and the cells are untouched |
| `SS.RemoveHyperlink` | src/main/java/jp/ryoyamamoto/poiutils/SS.java:170-178 | a null cell or a cell without a hyperlink leaves the list unchanged; otherwise that hyperlink is removed from the list; the cells are never changed |
| `SS.BlankTest` | src/main/java/jp/ryoyamamoto/poiutils/SS.java:162-168 | a null cell counts as blank; an existing cell is blank exactly when its type is blank; `isNotBlank` is the negation, so it holds only of existing non-blank cells |
| `SS.FirstNonBlank` | src/main/java/jp/ryoyamamoto/poiutils/SS.java:96-101 | the cell the merge copies from: a position in the enumeration whose cell is not blank and all of whose predecessors are blank; none exactly when every cell is blank |
| `SS.DistinctNotYetVisited` | src/main/java/jp/ryoyamamoto/poiutils/SS.java:96-104 | in an enumeration without repeats, the cell visited at each step was not visited, so neither copied from nor cleared, before |
| `SS.FirstNonBlankIsFirst` | src/main/java/jp/ryoyamamoto/poiutils/SS.java:98-101 | the first non-blank position is unique: any position with that property is the one found |
| `SS.FirstNonBlankSnoc` | src/main/java/jp/ryoyamamoto/poiutils/SS.java:96-101 | visiting one more cell keeps an earlier winner (the one-shot `copied` flag); with no winner yet, the new cell wins exactly when it is not blank |
| `SS.MergeFirstNonBlankWins` | src/main/java/jp/ryoyamamoto/poiutils/SS.java:93-101 | after a merge the upper-left cell has the content, style and comment of the first non-blank cell in enumeration order |
| `SS.MergeUpperLeftFirstKeepsOwn` | src/main/java/jp/ryoyamamoto/poiutils/SS.java:95-101 | an upper-left cell that is the first non-blank cell of the enumeration, at any position, is copied onto itself and keeps its own cell, and the hyperlink list is unchanged |
| `SS.MergeAllBlank` | src/main/java/jp/ryoyamamoto/poiutils/SS.java:96-101 | when every cell of the range is blank the upper-left cell stays as it was, blank, and no copy touches the hyperlink list |
| `SS.MergeClearsTheRest` | src/main/java/jp/ryoyamamoto/poiutils/SS.java:102-104 | after a merge every other cell of the enumeration is blank with its style, comment and hyperlink kept, cells outside it are unchanged, and the set of cells is the same |
| `SS.MergeRowOfTwo` | src/main/java/jp/ryoyamamoto/poiutils/SS.java:93-107 | merging A1:B1 keeps a non-blank A1 and blanks B1; with a blank A1, B1's cell, with its own style and comment, moves into A1 and B1 is blanked |
| `SS.MergedUpperLeftSnoc` | src/main/java/jp/ryoyamamoto/poiutils/SS.java:98-101 | one more loop step changes the upper-left cell only when nothing was copied yet and the visited cell is not blank, and then to the copy of the visited cell |
| `SS.MergedCellsSnoc` | src/main/java/jp/ryoyamamoto/poiutils/SS.java:96-105 | one loop iteration: copy the visited cell onto the upper-left cell if nothing was copied yet and it is not blank, then clear it unless it is the upper-left cell |
| `SS.MergedLinksSnoc` | src/main/java/jp/ryoyamamoto/poiutils/SS.java:98-101 | one more loop step changes the hyperlink list only through the one copy, made when nothing was copied yet and the visited cell is not blank |
| `SS.Merge` | src/main/java/jp/ryoyamamoto/poiutils/SS.java:93-107 | the cells become the merged cells, the hyperlink list changes only through the single copy, the range is appended to the merged regions exactly once, and at most one copy is made, exactly when some cell is not blank |

## Left out

- The reflective read of the sheet's private hyperlink list, and its fallback to an empty list with a printed stack trace, are not modelled. The list is a field of `Sheet` that the helpers update directly.
- The range enumeration (`Ranges.getFirstCellReference`, `Ranges.getCellReferences`) is not part of this model. `Merge` takes the upper-left reference and the enumeration as inputs. It requires the enumeration to be free of duplicates, to contain the upper-left reference, and to name only cells that exist.
- Missing rows and cells are not modelled. `getCell` throws on a missing row, and a missing upper-left cell makes `copy` throw once a copy is needed. A cell missing from an existing row does not throw: `getCell` returns null for it, `isBlank` counts it as blank and `clear(null)` does nothing, so the source tolerates such cells in a merge; `Merge`'s precondition excludes them all the same. The model requires the cells to exist instead, so the partial merge that an exception would leave behind is not modelled either.
- A null target with a non-null source makes `copy` throw. `Copy` requires the target to exist whenever the source is not null.
- Cells are values in the sheet's map, not shared objects. Aliasing between cell objects is not modelled. The identity test `cell != upperLeftCell` is a comparison of references. The source of `copy` is passed as a value, so it may come from any sheet. The target is a cell of the sheet passed in, and that sheet owns the hyperlink list `removeHyperlink` edits.
- Library internals are treated as opaque handles: numbers (Java doubles), rich text, formulas, error bytes, styles, comments and hyperlinks. Their setters are modelled as replacing the cell's type and value. The library's own extra behaviour is not modelled: a formula cell keeping its formula when given a value, `setHyperlink` also registering the link with the sheet, a cell's hyperlink being looked up from the sheet's list, and `setCellComment` and `setHyperlink` re-pointing the given comment or hyperlink object at the target cell, so that in the library the cell copied from loses its comment and hyperlink.
- SS.CopyTransfersCell: a source without a hyperlink leaves the target's own hyperlink field as it was, although `copy` has just removed that hyperlink from the sheet's list. In the library a cell's hyperlink is looked up from that list, so there the target may report no hyperlink (or another listed one); the model keeps the hyperlink as a field of the cell record.
- SS.CopyOntoItself: states that the hyperlink list is unchanged. In the library, copying a cell with a hyperlink onto itself calls `setHyperlink`, which registers the hyperlink with the sheet again; that registration is not modelled.
- SS.MergeUpperLeftFirstKeepsOwn: states that the hyperlink list is unchanged. When the upper-left cell has a hyperlink, the copy onto itself calls `setHyperlink`, and the library's registration of it with the sheet is not modelled.
- SS.CopyHyperlink: states that the hyperlink list is untouched when the source has a hyperlink. In the library, `setHyperlink` also registers that hyperlink with the target's sheet, adding an entry to the list; that registration is not modelled.
- SS.CopyHyperlinkList: states that the list changes only when the source has no hyperlink. A source with a hyperlink also changes it in the library, through the registration by `setHyperlink`, which is not modelled.
- SS.CopyIdempotent: its hyperlink-list half holds for a source with a hyperlink only because the registration by `setHyperlink` is not modelled; in the library each copy registers the hyperlink again.
- SS.MergeClearsTheRest: states that the other cells keep their comment and hyperlink. In the library, the cell the merge copies from loses both to the upper-left cell, because `setCellComment` and `setHyperlink` re-point those objects; that is not modelled.
- SS.MergeRowOfTwo: B1 keeps its comment after the merge in the model; in the library the comment moves to A1 and B1 loses it, as the line above says.
