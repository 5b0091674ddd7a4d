/*
 * The part of the spreadsheet library's object model that the SS helpers
 * touch, reduced to plain values: a cell is a record of its content, style,
 * comment and hyperlink; a sheet owns a map from cell references to cells,
 * its list of hyperlinks and its list of merged regions.
 */
module Poi {

  datatype Option<T> = None | Some(value: T)

  /*
   * Objects owned by the library, treated as opaque handles that are only
   * ever compared for equality.
   */
  datatype Double = Double(bits: int)          // a numeric cell value
  datatype RichText = RichText(id: nat)        // a rich text string
  datatype FormulaText = FormulaText(id: nat)  // a formula string
  datatype ErrorByte = ErrorByte(code: int)    // an error cell value
  datatype Style = Style(id: nat)
  datatype Comment = Comment(id: nat)
  datatype Hyperlink = Hyperlink(id: nat)

  /**
   * The content of a cell: its cell type (one constructor per
   * Cell.CELL_TYPE_* constant) together with the value of that type.
   */
  datatype Content =
    | Numeric(number: Double)
    | Str(text: RichText)
    | Formula(formula: FormulaText)
    | Blank
    | Boolean(flag: bool)
    | Error(error: ErrorByte)

  /** A cell as a record. The comment and the hyperlink may be absent (null). */
  datatype Cell = Cell(content: Content, style: Style, comment: Option<Comment>, hyperlink: Option<Hyperlink>)

  /** A (row, column) coordinate on a sheet. */
  datatype CellReference = CellReference(row: nat, col: nat)

  /** A rectangular range of cells, as registered in a sheet's merged regions. */
  datatype CellRangeAddress = CellRangeAddress(firstRow: nat, lastRow: nat, firstCol: nat, lastCol: nat)

  /** java.util.List.indexOf(Object) for an element the list holds: its first position. */
  function IndexOf<T(==)>(s: seq<T>, x: T): (i: nat)
    requires x in s
    ensures i < |s| && s[i] == x
    ensures x !in s[..i]
  {
    if s[0] == x then 0
    else
      assert x in s[1..] by { assert s == [s[0]] + s[1..]; }
      1 + IndexOf(s[1..], x)
  }

  /**
   * java.util.List.remove(Object): drops the first element equal to `x`,
   * keeping the entries before and after it in order; a list without `x`
   * is returned as it is.
   */
  function ListRemove<T(==)>(s: seq<T>, x: T): (r: seq<T>)
    ensures x !in s ==> r == s
    ensures |r| == if x in s then |s| - 1 else |s|
    ensures multiset(r) == multiset(s) - multiset{x}
    ensures x in s ==> r == s[..IndexOf(s, x)] + s[IndexOf(s, x) + 1..]
  {
    if x in s then
      var i := IndexOf(s, x);
      assert s == s[..i] + [x] + s[i + 1..];
      s[..i] + s[i + 1..]
    else
      assert multiset(s)[x] == 0;
      s
  }

  /**
   * A sheet: the cells that exist on it, the hyperlink list the library
   * keeps for it, and its merged regions. The setters are the cell and
   * sheet mutators of the library that the helpers call.
   */
  class Sheet {
    var cells: map<CellReference, Cell>
    var hyperlinks: seq<Hyperlink>
    var mergedRegions: seq<CellRangeAddress>

    constructor (cells: map<CellReference, Cell>, hyperlinks: seq<Hyperlink>)
      ensures this.cells == cells && this.hyperlinks == hyperlinks && mergedRegions == []
    {
      this.cells := cells;
      this.hyperlinks := hyperlinks;
      mergedRegions := [];
    }

    /** setCellValue, setCellFormula, setCellErrorValue and setCellType: replace the content. */
    method SetContent(ref: CellReference, content: Content)
      requires ref in cells
      modifies this`cells
      ensures cells == old(cells)[ref := old(cells)[ref].(content := content)]
    {
      cells := cells[ref := cells[ref].(content := content)];
    }

    /** setCellStyle */
    method SetCellStyle(ref: CellReference, style: Style)
      requires ref in cells
      modifies this`cells
      ensures cells == old(cells)[ref := old(cells)[ref].(style := style)]
    {
      cells := cells[ref := cells[ref].(style := style)];
    }

    /** setCellComment; a null comment removes it. */
    method SetCellComment(ref: CellReference, comment: Option<Comment>)
      requires ref in cells
      modifies this`cells
      ensures cells == old(cells)[ref := old(cells)[ref].(comment := comment)]
    {
      cells := cells[ref := cells[ref].(comment := comment)];
    }

    /** setHyperlink */
    method SetHyperlink(ref: CellReference, link: Hyperlink)
      requires ref in cells
      modifies this`cells
      ensures cells == old(cells)[ref := old(cells)[ref].(hyperlink := Some(link))]
    {
      cells := cells[ref := cells[ref].(hyperlink := Some(link))];
    }

    /** addMergedRegion */
    method AddMergedRegion(range: CellRangeAddress)
      modifies this`mergedRegions
      ensures mergedRegions == old(mergedRegions) + [range]
    {
      mergedRegions := mergedRegions + [range];
    }
  }
}
