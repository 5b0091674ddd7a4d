/*
 * The static helpers of class SS: copying one cell onto another, clearing a
 * cell, and merging a range of cells into its upper-left cell.
 *
 * A null cell argument is `None`. The cell that `copy` reads is passed as a
 * value (it is only read); the cell it writes is named by its reference on
 * the sheet that owns it, which is the sheet whose hyperlink list
 * `removeHyperlink` edits.
 */
module SS {
  import opened Poi

  /*
   * Specification of one copy, on values.
   */

  /**
   * copyCellValue on contents: a numeric, string, formula, boolean or error
   * source hands over both its type and its value; a blank source leaves
   * the target's content as it was.
   */
  function CopiedContent(source: Content, target: Content): (r: Content)
    ensures !source.Blank? ==> r == source
    ensures source.Blank? ==> r == target
  {
    match source
    case Numeric(n) => Numeric(n)
    case Str(s) => Str(s)
    case Formula(f) => Formula(f)
    case Blank => target
    case Boolean(b) => Boolean(b)
    case Error(e) => Error(e)
  }

  /** The target cell after `copy(source, target)`. */
  function CopiedCell(source: Cell, target: Cell): Cell
  {
    Cell(CopiedContent(source.content, target.content),
         source.style,
         source.comment,
         if source.hyperlink.None? then target.hyperlink else source.hyperlink)
  }

  /**
   * The owning sheet's hyperlink list after `copy(source, target)`: only a
   * source without a hyperlink onto a target with one removes anything.
   */
  function LinksAfterCopy(source: Cell, target: Cell, links: seq<Hyperlink>): seq<Hyperlink>
  {
    if source.hyperlink.None? && target.hyperlink.Some? then ListRemove(links, target.hyperlink.value)
    else links
  }

  /** A cell after `clear`: its type becomes blank, nothing else changes. */
  function Cleared(cell: Cell): Cell
  {
    cell.(content := Blank)
  }

  /** isBlank: a null cell, or a cell of the blank type. */
  predicate IsBlank(cell: Option<Cell>)
  {
    cell.None? || cell.value.content.Blank?
  }

  /** isNotBlank */
  predicate IsNotBlank(cell: Option<Cell>)
  {
    !IsBlank(cell)
  }

  /**
   * The blank test: a null cell counts as blank, an existing cell is blank
   * exactly when its type is blank, and `isNotBlank` is its negation, so it
   * holds only of existing cells with a value.
   */
  lemma BlankTest(cell: Option<Cell>)
    ensures IsBlank(None)
    ensures cell.Some? ==> (IsBlank(cell) <==> cell.value.content == Blank)
    ensures IsNotBlank(cell) <==> !IsBlank(cell)
    ensures IsNotBlank(cell) ==> cell.Some? && cell.value.content != Blank
  {
  }

  /** What `copy` promises about the target cell, for every kind of source content. */
  lemma CopyTransfersCell(source: Cell, target: Cell)
    ensures !source.content.Blank? ==> CopiedCell(source, target).content == source.content
    ensures source.content.Blank? ==> CopiedCell(source, target).content == target.content
    ensures CopiedCell(source, target).style == source.style
    ensures CopiedCell(source, target).comment == source.comment
    ensures source.hyperlink.Some? ==> CopiedCell(source, target).hyperlink == source.hyperlink
    ensures source.hyperlink.None? ==> CopiedCell(source, target).hyperlink == target.hyperlink
  {
  }

  /**
   * What `copy` does to the owning sheet's hyperlink list: the target's
   * hyperlink, when the source has none, is taken out at its first
   * position and every other entry stays where it was; otherwise the list
   * is untouched.
   */
  lemma CopyHyperlinkList(source: Cell, target: Cell, links: seq<Hyperlink>)
    ensures source.hyperlink.Some? || target.hyperlink.None? ==> LinksAfterCopy(source, target, links) == links
    ensures source.hyperlink.None? && target.hyperlink.Some? && target.hyperlink.value !in links ==>
              LinksAfterCopy(source, target, links) == links
    ensures source.hyperlink.None? && target.hyperlink.Some? && target.hyperlink.value in links ==>
              var i := IndexOf(links, target.hyperlink.value);
              LinksAfterCopy(source, target, links) == links[..i] + links[i + 1..]
  {
  }

  /** Copying a cell onto itself changes neither the cell nor the hyperlink list. */
  lemma CopyOntoItself(cell: Cell, links: seq<Hyperlink>)
    ensures CopiedCell(cell, cell) == cell
    ensures LinksAfterCopy(cell, cell, links) == links
  {
  }

  /**
   * Copying the same source twice leaves the target cell as copying it once
   * did. The hyperlink list is left as well when the target's hyperlink
   * occurs in it at most once: the target still records that hyperlink
   * after the first copy, so a second copy from a source without one
   * removes a further occurrence (see `CopyTwiceRemovesDuplicate`).
   */
  lemma CopyIdempotent(source: Cell, target: Cell, links: seq<Hyperlink>)
    requires target.hyperlink.Some? ==> multiset(links)[target.hyperlink.value] <= 1
    ensures CopiedCell(source, CopiedCell(source, target)) == CopiedCell(source, target)
    ensures LinksAfterCopy(source, CopiedCell(source, target), LinksAfterCopy(source, target, links))
            == LinksAfterCopy(source, target, links)
  {
    if source.hyperlink.None? && target.hyperlink.Some? {
      var h := target.hyperlink.value;
      assert multiset(ListRemove(links, h))[h] == 0;
    }
  }

  /**
   * With the target's hyperlink listed twice, a second copy from a source
   * without a hyperlink removes the second occurrence too.
   */
  lemma CopyTwiceRemovesDuplicate(source: Cell, target: Cell, h: Hyperlink)
    requires source.hyperlink.None? && target.hyperlink == Some(h)
    ensures LinksAfterCopy(source, target, [h, h]) == [h]
    ensures LinksAfterCopy(source, CopiedCell(source, target), [h]) == []
  {
  }

  /** `clear` blanks the content, keeps style, comment and hyperlink, and is idempotent. */
  lemma ClearBlanksContentOnly(cell: Cell)
    ensures IsBlank(Some(Cleared(cell)))
    ensures Cleared(cell).style == cell.style && Cleared(cell).comment == cell.comment
    ensures Cleared(cell).hyperlink == cell.hyperlink
    ensures Cleared(Cleared(cell)) == Cleared(cell)
  {
  }

  /*
   * The helpers, on a sheet.
   */

  /** copy(source, target) */
  method Copy(sheet: Sheet, source: Option<Cell>, target: CellReference)
    requires source.Some? ==> target in sheet.cells
    modifies sheet`cells, sheet`hyperlinks
    ensures source.None? ==> sheet.cells == old(sheet.cells) && sheet.hyperlinks == old(sheet.hyperlinks)
    ensures source.Some? ==>
              sheet.cells == old(sheet.cells)[target := CopiedCell(source.value, old(sheet.cells)[target])]
    ensures source.Some? ==>
              sheet.hyperlinks == LinksAfterCopy(source.value, old(sheet.cells)[target], old(sheet.hyperlinks))
  {
    if source.None? {
      return;
    }
    CopyCellValue(sheet, source.value, target);
    CopyCellStyle(sheet, source.value, target);
    CopyCellComment(sheet, source.value, target);
    CopyHyperlink(sheet, source.value, target);
  }

  /** clear(cell) */
  method Clear(sheet: Sheet, cell: Option<CellReference>)
    requires cell.Some? ==> cell.value in sheet.cells
    modifies sheet`cells
    ensures cell.None? ==> sheet.cells == old(sheet.cells)
    ensures cell.Some? ==> sheet.cells == old(sheet.cells)[cell.value := Cleared(old(sheet.cells)[cell.value])]
  {
    if cell.None? {
      return;
    }
    sheet.SetContent(cell.value, Blank);
  }

  /** copyCellValue(source, target) */
  method CopyCellValue(sheet: Sheet, source: Cell, target: CellReference)
    requires target in sheet.cells
    modifies sheet`cells
    ensures sheet.cells == old(sheet.cells)[target := old(sheet.cells)[target].(content := CopiedContent(source.content, old(sheet.cells)[target].content))]
  {
    match source.content
    case Numeric(n) => sheet.SetContent(target, Numeric(n));
    case Str(s) => sheet.SetContent(target, Str(s));
    case Formula(f) => sheet.SetContent(target, Formula(f));
    case Blank =>
    case Boolean(b) => sheet.SetContent(target, Boolean(b));
    case Error(e) => sheet.SetContent(target, Error(e));
  }

  /** copyCellStyle(source, target) */
  method CopyCellStyle(sheet: Sheet, source: Cell, target: CellReference)
    requires target in sheet.cells
    modifies sheet`cells
    ensures sheet.cells == old(sheet.cells)[target := old(sheet.cells)[target].(style := source.style)]
  {
    sheet.SetCellStyle(target, source.style);
  }

  /** copyCellComment(source, target) */
  method CopyCellComment(sheet: Sheet, source: Cell, target: CellReference)
    requires target in sheet.cells
    modifies sheet`cells
    ensures sheet.cells == old(sheet.cells)[target := old(sheet.cells)[target].(comment := source.comment)]
  {
    sheet.SetCellComment(target, source.comment);
  }

  /** copyHyperlink(source, target) */
  method CopyHyperlink(sheet: Sheet, source: Cell, target: CellReference)
    requires target in sheet.cells
    modifies sheet`cells, sheet`hyperlinks
    ensures source.hyperlink.None? ==> sheet.cells == old(sheet.cells)
    ensures source.hyperlink.Some? ==>
              sheet.cells == old(sheet.cells)[target := old(sheet.cells)[target].(hyperlink := source.hyperlink)]
    ensures sheet.hyperlinks == LinksAfterCopy(source, old(sheet.cells)[target], old(sheet.hyperlinks))
  {
    if source.hyperlink.None? {
      RemoveHyperlink(sheet, Some(target));
    } else {
      sheet.SetHyperlink(target, source.hyperlink.value);
    }
  }

  /**
   * removeHyperlink(cell): takes the cell's hyperlink out of the owning
   * sheet's hyperlink list. The cell record itself is not changed.
   */
  method RemoveHyperlink(sheet: Sheet, cell: Option<CellReference>)
    requires cell.Some? ==> cell.value in sheet.cells
    modifies sheet`hyperlinks
    ensures cell.None? || sheet.cells[cell.value].hyperlink.None? ==> sheet.hyperlinks == old(sheet.hyperlinks)
    ensures cell.Some? && sheet.cells[cell.value].hyperlink.Some? ==>
              sheet.hyperlinks == ListRemove(old(sheet.hyperlinks), sheet.cells[cell.value].hyperlink.value)
  {
    if cell.None? || sheet.cells[cell.value].hyperlink.None? {
      return;
    }
    var links := sheet.hyperlinks;
    sheet.hyperlinks := ListRemove(links, sheet.cells[cell.value].hyperlink.value);
  }

  /*
   * Specification of a merge, on values.
   */

  /** getCell: the cell at `ref`, or null where the sheet has none. */
  function GetCell(cells: map<CellReference, Cell>, ref: CellReference): (cell: Option<Cell>)
    ensures cell.Some? <==> ref in cells
    ensures cell.Some? ==> cell.value == cells[ref]
  {
    if ref in cells then Some(cells[ref]) else None
  }

  /** No reference occurs twice. */
  predicate Distinct(refs: seq<CellReference>)
  {
    refs == [] || (refs[0] !in refs[1..] && Distinct(refs[1..]))
  }

  /** The cells a merge visits: distinct references, all present on the sheet. */
  predicate ValidEnumeration(cells: map<CellReference, Cell>, refs: seq<CellReference>)
  {
    Distinct(refs) && forall r :: r in refs ==> r in cells
  }

  /** In a distinct enumeration, the cell visited at step `i` was not visited before. */
  lemma {:induction false} DistinctNotYetVisited(refs: seq<CellReference>, i: nat)
    requires Distinct(refs) && i < |refs|
    ensures refs[i] !in refs[..i]
  {
    if i > 0 {
      DistinctNotYetVisited(refs[1..], i - 1);
      assert refs[i] in refs[1..];
      assert refs[..i] == [refs[0]] + refs[1..][..i - 1];
    }
  }

  /** The position in `refs` of the first cell that is not blank, if there is one. */
  function FirstNonBlank(cells: map<CellReference, Cell>, refs: seq<CellReference>): (r: Option<nat>)
    ensures r.Some? ==> r.value < |refs| && IsNotBlank(GetCell(cells, refs[r.value]))
    ensures r.Some? ==> forall j :: 0 <= j < r.value ==> IsBlank(GetCell(cells, refs[j]))
    ensures r.None? <==> forall j :: 0 <= j < |refs| ==> IsBlank(GetCell(cells, refs[j]))
  {
    if refs == [] then None
    else if IsNotBlank(GetCell(cells, refs[0])) then Some(0)
    else match FirstNonBlank(cells, refs[1..])
      case None => None
      case Some(k) => Some(k + 1)
  }

  /** The upper-left cell after merging `refs`. */
  function MergedUpperLeft(cells: map<CellReference, Cell>, upperLeft: CellReference, refs: seq<CellReference>): Cell
    requires upperLeft in cells
  {
    match FirstNonBlank(cells, refs)
    case None => cells[upperLeft]
    case Some(k) => CopiedCell(cells[refs[k]], cells[upperLeft])
  }

  /**
   * All cells of the sheet after merging `refs`: the upper-left cell as
   * MergedUpperLeft says, every other visited cell cleared, every cell
   * outside the enumeration as it was.
   */
  function MergedCells(cells: map<CellReference, Cell>, upperLeft: CellReference, refs: seq<CellReference>)
    : map<CellReference, Cell>
    requires upperLeft in cells
  {
    map c | c in cells :: if c == upperLeft then MergedUpperLeft(cells, upperLeft, refs)
                          else if c in refs then Cleared(cells[c])
                          else cells[c]
  }

  /** The sheet's hyperlink list after merging `refs`. */
  function MergedLinks(cells: map<CellReference, Cell>, upperLeft: CellReference, refs: seq<CellReference>,
                       links: seq<Hyperlink>): seq<Hyperlink>
    requires upperLeft in cells
  {
    match FirstNonBlank(cells, refs)
    case None => links
    case Some(k) => LinksAfterCopy(cells[refs[k]], cells[upperLeft], links)
  }

  /** Any position that is the first non-blank one is the one FirstNonBlank finds. */
  lemma FirstNonBlankIsFirst(cells: map<CellReference, Cell>, refs: seq<CellReference>, r: Option<nat>)
    requires r.Some? ==> r.value < |refs| && IsNotBlank(GetCell(cells, refs[r.value]))
    requires r.Some? ==> forall j :: 0 <= j < r.value ==> IsBlank(GetCell(cells, refs[j]))
    requires r.None? ==> forall j :: 0 <= j < |refs| ==> IsBlank(GetCell(cells, refs[j]))
    ensures FirstNonBlank(cells, refs) == r
  {
  }

  /**
   * Adding one more reference to the enumeration does not change an
   * earlier winner; without one, the new cell wins if it is not blank.
   */
  lemma FirstNonBlankSnoc(cells: map<CellReference, Cell>, visited: seq<CellReference>, ref: CellReference)
    ensures FirstNonBlank(cells, visited + [ref]) ==
              match FirstNonBlank(cells, visited)
              case Some(k) => Some(k)
              case None => if IsBlank(GetCell(cells, ref)) then None else Some(|visited|)
  {
    var ext := visited + [ref];
    assert forall j :: 0 <= j < |visited| ==> ext[j] == visited[j];
    assert ext[|visited|] == ref;
    var expected := match FirstNonBlank(cells, visited)
                    case Some(k) => Some(k)
                    case None => if IsBlank(GetCell(cells, ref)) then None else Some(|visited|);
    FirstNonBlankIsFirst(cells, ext, expected);
  }

  /**
   * The merge content rule: the upper-left cell ends up with the content,
   * style and comment of the first non-blank cell in enumeration order.
   */
  lemma MergeFirstNonBlankWins(cells: map<CellReference, Cell>, upperLeft: CellReference,
                               refs: seq<CellReference>, k: nat)
    requires upperLeft in cells && forall c :: c in refs ==> c in cells
    requires k < |refs| && !cells[refs[k]].content.Blank?
    requires forall j :: 0 <= j < k ==> cells[refs[j]].content.Blank?
    ensures MergedUpperLeft(cells, upperLeft, refs).content == cells[refs[k]].content
    ensures MergedUpperLeft(cells, upperLeft, refs).style == cells[refs[k]].style
    ensures MergedUpperLeft(cells, upperLeft, refs).comment == cells[refs[k]].comment
  {
    FirstNonBlankIsFirst(cells, refs, Some(k));
  }

  /**
   * An upper-left cell that is the first non-blank cell of the enumeration,
   * wherever it stands in it, is copied onto itself and so keeps its own
   * cell.
   */
  lemma MergeUpperLeftFirstKeepsOwn(cells: map<CellReference, Cell>, upperLeft: CellReference,
                                    refs: seq<CellReference>, links: seq<Hyperlink>, k: nat)
    requires upperLeft in cells && forall c :: c in refs ==> c in cells
    requires k < |refs| && refs[k] == upperLeft && !cells[upperLeft].content.Blank?
    requires forall j :: 0 <= j < k ==> cells[refs[j]].content.Blank?
    ensures MergedUpperLeft(cells, upperLeft, refs) == cells[upperLeft]
    ensures MergedLinks(cells, upperLeft, refs, links) == links
  {
    FirstNonBlankIsFirst(cells, refs, Some(k));
    CopyOntoItself(cells[upperLeft], links);
  }

  /** A range that is blank throughout leaves the upper-left cell, blank, as it was. */
  lemma MergeAllBlank(cells: map<CellReference, Cell>, upperLeft: CellReference,
                      refs: seq<CellReference>, links: seq<Hyperlink>)
    requires upperLeft in refs && forall c :: c in refs ==> c in cells
    requires forall j :: 0 <= j < |refs| ==> cells[refs[j]].content.Blank?
    ensures MergedUpperLeft(cells, upperLeft, refs) == cells[upperLeft]
    ensures MergedUpperLeft(cells, upperLeft, refs).content.Blank?
    ensures MergedLinks(cells, upperLeft, refs, links) == links
  {
    var i :| 0 <= i < |refs| && refs[i] == upperLeft;
    FirstNonBlankIsFirst(cells, refs, None);
  }

  /**
   * The merge clearing rule: every visited cell other than the upper-left
   * one ends up blank, keeping its style, comment and hyperlink; every cell
   * outside the enumeration is untouched; no cell appears or disappears.
   */
  lemma MergeClearsTheRest(cells: map<CellReference, Cell>, upperLeft: CellReference, refs: seq<CellReference>)
    requires ValidEnumeration(cells, refs) && upperLeft in refs
    ensures MergedCells(cells, upperLeft, refs).Keys == cells.Keys
    ensures MergedCells(cells, upperLeft, refs)[upperLeft] == MergedUpperLeft(cells, upperLeft, refs)
    ensures forall c :: c in refs && c != upperLeft ==>
              MergedCells(cells, upperLeft, refs)[c] == Cleared(cells[c]) &&
              IsBlank(Some(MergedCells(cells, upperLeft, refs)[c]))
    ensures forall c :: c in cells && c !in refs ==> MergedCells(cells, upperLeft, refs)[c] == cells[c]
  {
  }

  /**
   * Two concrete merges of A1:B1 in row-major order: A1 = "Total" and
   * B1 = 42 keeps "Total" in A1 and blanks B1; a blank plain A1 and a bold,
   * commented B1 = 99 moves 99 into A1 together with B1's style and comment,
   * and blanks B1.
   */
  lemma MergeRowOfTwo(total: RichText, n42: Double, n99: Double, plain: Style, bold: Style, note: Comment)
    requires plain != bold
    ensures
      var a1, b1 := CellReference(0, 0), CellReference(0, 1);
      var textCell, numberCell := Cell(Str(total), plain, None, None), Cell(Numeric(n42), bold, None, None);
      var cells := map[a1 := textCell, b1 := numberCell];
      MergedCells(cells, a1, [a1, b1]) == map[a1 := textCell, b1 := Cleared(numberCell)]
    ensures
      var a1, b1 := CellReference(0, 0), CellReference(0, 1);
      var blankCell, numberCell := Cell(Blank, plain, None, None), Cell(Numeric(n99), bold, Some(note), None);
      var cells := map[a1 := blankCell, b1 := numberCell];
      var merged := MergedCells(cells, a1, [a1, b1]);
      merged == map[a1 := numberCell, b1 := Cleared(numberCell)] &&
      merged[a1].style == bold && merged[a1].comment == Some(note) && merged[b1].content == Blank
  {
    var a1, b1 := CellReference(0, 0), CellReference(0, 1);
    var textCell, numberCell := Cell(Str(total), plain, None, None), Cell(Numeric(n42), bold, None, None);
    MergeUpperLeftFirstKeepsOwn(map[a1 := textCell, b1 := numberCell], a1, [a1, b1], [], 0);
    var blankCell, numberCell99 := Cell(Blank, plain, None, None), Cell(Numeric(n99), bold, Some(note), None);
    FirstNonBlankIsFirst(map[a1 := blankCell, b1 := numberCell99], [a1, b1], Some(1));
  }

  /** The upper-left cell after one more step of the merge loop. */
  lemma MergedUpperLeftSnoc(cells: map<CellReference, Cell>, upperLeft: CellReference,
                            visited: seq<CellReference>, ref: CellReference)
    requires upperLeft in cells && ref in cells
    ensures MergedUpperLeft(cells, upperLeft, visited + [ref]) ==
              if FirstNonBlank(cells, visited).None? && !cells[ref].content.Blank?
              then CopiedCell(cells[ref], cells[upperLeft])
              else MergedUpperLeft(cells, upperLeft, visited)
  {
    FirstNonBlankSnoc(cells, visited, ref);
  }

  /**
   * One step of the merge loop, on values: visiting a reference not seen
   * before copies it onto the upper-left cell when no earlier cell was
   * non-blank and it is not blank, then clears it unless it is the
   * upper-left cell.
   */
  lemma MergedCellsSnoc(cells: map<CellReference, Cell>, upperLeft: CellReference,
                        visited: seq<CellReference>, ref: CellReference)
    requires upperLeft in cells && ref in cells && ref !in visited
    ensures FirstNonBlank(cells, visited).None? ==>
              MergedCells(cells, upperLeft, visited)[ref] == cells[ref]
    ensures FirstNonBlank(cells, visited + [ref]).Some? <==>
              FirstNonBlank(cells, visited).Some? || !MergedCells(cells, upperLeft, visited)[ref].content.Blank?
    ensures
      var before := MergedCells(cells, upperLeft, visited);
      var copied := if FirstNonBlank(cells, visited).None? && !before[ref].content.Blank?
                    then before[upperLeft := CopiedCell(before[ref], before[upperLeft])]
                    else before;
      MergedCells(cells, upperLeft, visited + [ref]) ==
        if ref != upperLeft then copied[ref := Cleared(copied[ref])] else copied
  {
    var ext := visited + [ref];
    MergedUpperLeftSnoc(cells, upperLeft, visited, ref);
    FirstNonBlankSnoc(cells, visited, ref);
    var before, after := MergedCells(cells, upperLeft, visited), MergedCells(cells, upperLeft, ext);
    var winner := FirstNonBlank(cells, visited).None? && !before[ref].content.Blank?;
    var copied := if winner then before[upperLeft := CopiedCell(before[ref], before[upperLeft])] else before;
    var rhs := if ref != upperLeft then copied[ref := Cleared(copied[ref])] else copied;
    assert rhs.Keys == after.Keys;
    forall c | c in after
      ensures after[c] == rhs[c]
    {
      if c == upperLeft {
        assert after[c] == MergedUpperLeft(cells, upperLeft, ext);
        assert before[c] == MergedUpperLeft(cells, upperLeft, visited);
        if FirstNonBlank(cells, visited).None? {
          assert before[ref] == cells[ref];
        }
      } else if c == ref {
        assert after[c] == Cleared(cells[c]);
        assert before[c] == cells[c];
      } else {
        assert c in ext <==> c in visited;
        assert after[c] == before[c];
      }
    }
  }

  /**
   * The hyperlink list after one more step of the merge loop: only the one
   * copy, made from the first non-blank cell, can change it.
   */
  lemma MergedLinksSnoc(cells: map<CellReference, Cell>, upperLeft: CellReference,
                        visited: seq<CellReference>, ref: CellReference, links: seq<Hyperlink>)
    requires upperLeft in cells && ref in cells && ref !in visited
    ensures
      var before := MergedCells(cells, upperLeft, visited);
      MergedLinks(cells, upperLeft, visited + [ref], links) ==
        if FirstNonBlank(cells, visited).None? && !before[ref].content.Blank?
        then LinksAfterCopy(before[ref], before[upperLeft], MergedLinks(cells, upperLeft, visited, links))
        else MergedLinks(cells, upperLeft, visited, links)
  {
    FirstNonBlankSnoc(cells, visited, ref);
    var before := MergedCells(cells, upperLeft, visited);
    if FirstNonBlank(cells, visited).None? {
      assert before[upperLeft] == cells[upperLeft];
      assert before[ref] == cells[ref];
    }
  }

  /**
   * merge(sheet, range). The range enumeration `refs` and its upper-left
   * reference are given; `copies` counts the calls to `copy`.
   */
  method Merge(sheet: Sheet, range: CellRangeAddress, upperLeft: CellReference, refs: seq<CellReference>)
    returns (ghost copies: nat)
    requires ValidEnumeration(sheet.cells, refs) && upperLeft in refs
    modifies sheet
    ensures sheet.cells == MergedCells(old(sheet.cells), upperLeft, refs)
    ensures sheet.cells.Keys == old(sheet.cells).Keys
    ensures sheet.cells[upperLeft] == MergedUpperLeft(old(sheet.cells), upperLeft, refs)
    ensures forall c :: c in refs && c != upperLeft ==> sheet.cells[c] == Cleared(old(sheet.cells)[c])
    ensures forall c :: c in old(sheet.cells) && c !in refs ==> sheet.cells[c] == old(sheet.cells)[c]
    ensures sheet.hyperlinks == MergedLinks(old(sheet.cells), upperLeft, refs, old(sheet.hyperlinks))
    ensures sheet.mergedRegions == old(sheet.mergedRegions) + [range]
    ensures copies <= 1 && (copies == 1 <==> FirstNonBlank(old(sheet.cells), refs).Some?)
  {
    ghost var cells0, links0 := sheet.cells, sheet.hyperlinks;
    ghost var visited: seq<CellReference> := [];
    var copied := false;
    copies := 0;
    var i := 0;
    while i < |refs|
      invariant 0 <= i <= |refs| && visited == refs[..i]
      invariant copied <==> FirstNonBlank(cells0, visited).Some?
      invariant copies == if copied then 1 else 0
      invariant sheet.cells == MergedCells(cells0, upperLeft, visited)
      invariant sheet.hyperlinks == MergedLinks(cells0, upperLeft, visited, links0)
      invariant sheet.mergedRegions == old(sheet.mergedRegions)
    {
      var reference := refs[i];
      DistinctNotYetVisited(refs, i);
      MergedCellsSnoc(cells0, upperLeft, visited, reference);
      MergedLinksSnoc(cells0, upperLeft, visited, reference, links0);
      ghost var before := sheet.cells;
      var cell := GetCell(sheet.cells, reference);
      assert cell == Some(before[reference]);
      if !copied && IsNotBlank(cell) {
        Copy(sheet, cell, upperLeft);
        copied := true;
        copies := copies + 1;
      }
      if reference != upperLeft {
        Clear(sheet, Some(reference));
      }
      assert refs[..i + 1] == visited + [reference];
      visited := visited + [reference];
      i := i + 1;
    }
    assert visited == refs;
    MergeClearsTheRest(cells0, upperLeft, refs);
    sheet.AddMergedRegion(range);
  }
}
