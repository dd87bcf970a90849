/**
 * The spreadsheet editor (q-25-excel-editor, Spreadsheet.java).
 *
 * A grid of cells, 5 x 5 and empty at first, indexed from 0. Rows and
 * columns can be inserted at any index up to the current count, shifting
 * the rest; a cell holds text with a font name, a font size and bold and
 * italic flags, and reads back as "text-font-size[-b][-i]" (or "" when empty).
 */
module Spreadsheet {
  import opened Common
  import opened Strings

  datatype Cell = Cell(text: string, fontName: string, fontSize: int, isBold: bool, isItalic: bool)

  /** The rows of the grid; `None` is an empty cell. */
  datatype Sheet = Sheet(grid: seq<seq<Option<Cell>>>)

  /** `IllegalArgumentException`, by the check that raised it. */
  datatype SheetError =
    | AddRowOutOfRange
    | AddColumnOutOfRange
    | RowOutOfRange
    | ColumnOutOfRange
    | HyphenInText
    | BadFontName
    | BadFontSize

  const InitialSize: int := 5

  function Rows(s: Sheet): int {
    |s.grid|
  }

  /** `getCurrentCols`: the length of the first row, 0 without rows. */
  function Cols(s: Sheet): int {
    if s.grid == [] then 0 else |s.grid[0]|
  }

  /** Every row has `Cols` cells: what every operation keeps. */
  predicate Rectangular(s: Sheet) {
    forall r :: 0 <= r < |s.grid| ==> |s.grid[r]| == Cols(s)
  }

  /** The cell at (r, c), `None` for an empty cell or a position outside the grid. */
  function At(s: Sheet, r: int, c: int): Option<Cell> {
    if 0 <= r < |s.grid| && 0 <= c < |s.grid[r]| then s.grid[r][c] else None
  }

  function EmptyLine(n: nat): (line: seq<Option<Cell>>)
    ensures |line| == n && forall c :: 0 <= c < n ==> line[c] == None
  {
    seq(n, _ => None)
  }

  /** The constructor: five rows of five empty cells. */
  function NewSheet(): (s: Sheet)
    ensures Rows(s) == InitialSize && Cols(s) == InitialSize && Rectangular(s)
    ensures forall r, c :: At(s, r, c) == None
  {
    Sheet(seq(InitialSize, _ => EmptyLine(InitialSize)))
  }

  /** `addRow`: an empty row at `index` in [0, rows], the rows from `index` on moving down one. */
  function AddRow(s: Sheet, index: int): (r: Result<Sheet, SheetError>)
    ensures r.Err? <==> index < 0 || index > Rows(s)
    ensures r.Err? ==> r.error == AddRowOutOfRange
    ensures r.Ok? ==> Rows(r.value) == Rows(s) + 1
    ensures r.Ok? && Rectangular(s) ==> Rectangular(r.value) && Cols(r.value) == Cols(s)
  {
    if index < 0 || index > Rows(s) then Err(AddRowOutOfRange)
    else
      var t := Sheet(s.grid[..index] + [EmptyLine(Cols(s))] + s.grid[index..]);
      assert Rectangular(s) ==> Rectangular(t) && Cols(t) == Cols(s) by {
        if Rectangular(s) {
          assert forall k :: 0 <= k < |t.grid| ==> |t.grid[k]| == Cols(s);
        }
      }
      Ok(t)
  }

  /** After `addRow`, the rows above stay, the new row is empty, and the rows below read as before one place further down. */
  lemma AddRowShifts(s: Sheet, index: int, r: int, c: int)
    requires AddRow(s, index).Ok?
    ensures At(AddRow(s, index).value, r, c) ==
              if r < index then At(s, r, c) else if r == index then None else At(s, r - 1, c)
  {
    var t := Sheet(s.grid[..index] + [EmptyLine(Cols(s))] + s.grid[index..]);
    assert AddRow(s, index) == Ok(t);
    if r > index && r < |t.grid| {
      assert t.grid[r] == s.grid[r - 1];
    } else if 0 <= r < index {
      assert t.grid[r] == s.grid[r];
    }
  }

  /** `addColumn`: an empty cell at `index` in [0, cols] of every row, the cells from `index` on moving right one. */
  function AddColumn(s: Sheet, index: int): (r: Result<Sheet, SheetError>)
    requires Rectangular(s)
    ensures r.Err? <==> index < 0 || index > Cols(s)
    ensures r.Err? ==> r.error == AddColumnOutOfRange
    ensures r.Ok? ==> Rows(r.value) == Rows(s) && Rectangular(r.value)
    ensures r.Ok? && Rows(s) > 0 ==> Cols(r.value) == Cols(s) + 1
  {
    if index < 0 || index > Cols(s) then Err(AddColumnOutOfRange)
    else
      Ok(Sheet(seq(|s.grid|, k requires 0 <= k < |s.grid| => s.grid[k][..index] + [None] + s.grid[k][index..])))
  }

  /** After `addColumn`, the columns left of `index` stay, the new column is empty, and the columns right of it read as before one place further right. */
  lemma AddColumnShifts(s: Sheet, index: int, r: int, c: int)
    requires Rectangular(s) && AddColumn(s, index).Ok?
    ensures At(AddColumn(s, index).value, r, c) ==
              if c < index then At(s, r, c) else if c == index then None else At(s, r, c - 1)
  {
  }

  /** `fontName.matches("[a-z]+")`. */
  predicate ValidFont(fontName: string) {
    |fontName| >= 1 && forall k :: 0 <= k < |fontName| ==> IsLowerLetter(fontName[k])
  }

  /** `validateCellPosition`: the row is checked before the column. */
  function CheckPosition(s: Sheet, row: int, column: int): (r: Option<SheetError>)
    ensures r == None <==> 0 <= row < Rows(s) && 0 <= column < Cols(s)
  {
    if row < 0 || row >= Rows(s) then Some(RowOutOfRange)
    else if column < 0 || column >= Cols(s) then Some(ColumnOutOfRange)
    else None
  }

  /** `validateEntryInput`: no hyphen in the text, a font of lower-case letters, a size in [8, 72], in that order. */
  function CheckEntry(text: string, fontName: string, fontSize: int): (r: Option<SheetError>)
    ensures r == None <==> '-' !in text && ValidFont(fontName) && 8 <= fontSize <= 72
  {
    if '-' in text then Some(HyphenInText)
    else if !ValidFont(fontName) then Some(BadFontName)
    else if fontSize < 8 || fontSize > 72 then Some(BadFontSize)
    else None
  }

  /** A cell `addEntry` can store. */
  predicate ValidCell(cell: Cell) {
    CheckEntry(cell.text, cell.fontName, cell.fontSize) == None
  }

  /**
   * `addEntry`: the position is checked first, then the entry; a valid entry
   * creates or replaces the cell and nothing else changes.
   */
  function AddEntry(s: Sheet, row: int, column: int, cell: Cell): (r: Result<Sheet, SheetError>)
    requires Rectangular(s)
    ensures r.Err? <==> CheckPosition(s, row, column) != None || !ValidCell(cell)
    ensures r.Err? && CheckPosition(s, row, column) != None ==> r.error == CheckPosition(s, row, column).value
    ensures r.Err? && CheckPosition(s, row, column) == None ==> Some(r.error) == CheckEntry(cell.text, cell.fontName, cell.fontSize)
    ensures r.Ok? ==> Rows(r.value) == Rows(s) && Cols(r.value) == Cols(s) && Rectangular(r.value)
    ensures r.Ok? ==> forall i, j :: At(r.value, i, j) == if i == row && j == column then Some(cell) else At(s, i, j)
  {
    match CheckPosition(s, row, column)
    case Some(e) => Err(e)
    case None =>
      match CheckEntry(cell.text, cell.fontName, cell.fontSize)
      case Some(e) => Err(e)
      case None => Ok(Sheet(s.grid[row := s.grid[row][column := Some(cell)]]))
  }

  /** The text of a stored cell: "text-fontName-fontSize", then "-b" if bold and "-i" if italic. */
  function Serialize(cell: Cell): string {
    cell.text + "-" + cell.fontName + "-" + IntToString(cell.fontSize)
      + (if cell.isBold then "-b" else "") + (if cell.isItalic then "-i" else "")
  }

  /** `getEntry`: the position is checked; an empty cell reads as "", a stored one as its serialization. */
  function GetEntry(s: Sheet, row: int, column: int): (r: Result<string, SheetError>)
    requires Rectangular(s)
    ensures r.Err? <==> CheckPosition(s, row, column) != None
    ensures r.Ok? ==> (r.value == "" <==> At(s, row, column) == None)
  {
    match CheckPosition(s, row, column)
    case Some(e) => Err(e)
    case None =>
      match At(s, row, column)
      case None => Ok("")
      case Some(cell) =>
        assert Serialize(cell) != "" by {
          assert |Serialize(cell)| >= |cell.text + "-"|;
        }
        Ok(Serialize(cell))
  }

  /** The optional flag fields, bold before italic. */
  function Flags(isBold: bool, isItalic: bool): seq<string> {
    (if isBold then ["b"] else []) + (if isItalic then ["i"] else [])
  }

  /** The text after the size: "-b" if bold, then "-i" if italic. */
  function FlagText(isBold: bool, isItalic: bool): string {
    (if isBold then "-b" else "") + (if isItalic then "-i" else "")
  }

  /** The fields of a serialized cell: the ones joined by hyphens. */
  function Fields(cell: Cell): seq<string> {
    [cell.text, cell.fontName, IntToString(cell.fontSize)] + Flags(cell.isBold, cell.isItalic)
  }

  /** Reads a cell back from its text: three fields and the optional flags, in order. */
  function Parse(entry: string): Option<Cell> {
    var f := Split(entry, '-');
    if |f| < 3 then None
    else
      match ParseInt(f[2])
      case None => None
      case Some(size) =>
        var flags := f[3..];
        if flags == [] then Some(Cell(f[0], f[1], size, false, false))
        else if flags == ["b"] then Some(Cell(f[0], f[1], size, true, false))
        else if flags == ["i"] then Some(Cell(f[0], f[1], size, false, true))
        else if flags == ["b", "i"] then Some(Cell(f[0], f[1], size, true, true))
        else None
  }

  /** The serialization is the fields joined with hyphens. */
  lemma SerializeJoins(cell: Cell)
    ensures Serialize(cell) == Join(Fields(cell), '-')
  {
    var sizeText := IntToString(cell.fontSize);
    var tail := [sizeText] + Flags(cell.isBold, cell.isItalic);
    JoinFlags(sizeText, cell.isBold, cell.isItalic);
    assert Fields(cell) == [cell.text] + ([cell.fontName] + tail);
    JoinFront(cell.text, [cell.fontName] + tail);
    JoinFront(cell.fontName, tail);
    SerializeParts(cell);
  }

  lemma SerializeParts(cell: Cell)
    ensures Serialize(cell) == cell.text + "-" + (cell.fontName + "-" + (IntToString(cell.fontSize) + FlagText(cell.isBold, cell.isItalic)))
  {
  }

  lemma JoinFront(x: string, rest: seq<string>)
    requires rest != []
    ensures Join([x] + rest, '-') == x + "-" + Join(rest, '-')
  {
    assert ([x] + rest)[1..] == rest;
  }

  lemma JoinFlags(sizeText: string, bold: bool, italic: bool)
    ensures Join([sizeText] + Flags(bold, italic), '-') == sizeText + FlagText(bold, italic)
  {
    if bold && italic {
      JoinFront(sizeText, ["b", "i"]);
      JoinFront("b", ["i"]);
    } else if bold {
      JoinFront(sizeText, ["b"]);
    } else if italic {
      JoinFront(sizeText, ["i"]);
    }
  }

  /** A font size in range prints without a hyphen and parses back. */
  lemma SizeRoundTrip(size: int)
    requires 8 <= size <= 72
    ensures '-' !in IntToString(size) && ParseInt(IntToString(size)) == Some(size)
  {
    IntRoundTrip(size);
    var s := IntToString(size);
    assert forall k :: 0 <= k < |s| ==> IsDigit(s[k]);
  }

  /** The fields of a valid cell: text, font and size first, the flags after, none with a hyphen. */
  lemma FieldsOfValid(cell: Cell)
    requires ValidCell(cell)
    ensures var f := Fields(cell);
      |f| >= 3 && f[0] == cell.text && f[1] == cell.fontName && f[2] == IntToString(cell.fontSize) &&
      f[3..] == Flags(cell.isBold, cell.isItalic) && forall k :: 0 <= k < |f| ==> '-' !in f[k]
  {
    SizeRoundTrip(cell.fontSize);
    var f := Fields(cell);
    assert f[3..] == Flags(cell.isBold, cell.isItalic);
    forall k | 3 <= k < |f| ensures '-' !in f[k] {
      assert f[k] == "b" || f[k] == "i";
    }
  }

  /** Every cell `addEntry` accepts reads back from its serialization unchanged. */
  lemma ParseSerialize(cell: Cell)
    requires ValidCell(cell)
    ensures Parse(Serialize(cell)) == Some(cell)
  {
    SerializeJoins(cell);
    SizeRoundTrip(cell.fontSize);
    FieldsOfValid(cell);
    SplitJoin(Fields(cell), '-');
    ParseFields(Serialize(cell), cell);
  }

  lemma ParseFields(entry: string, cell: Cell)
    requires 8 <= cell.fontSize <= 72 && ParseInt(IntToString(cell.fontSize)) == Some(cell.fontSize)
    requires var f := Split(entry, '-');
      |f| >= 3 && f[0] == cell.text && f[1] == cell.fontName && f[2] == IntToString(cell.fontSize) &&
      f[3..] == Flags(cell.isBold, cell.isItalic)
    ensures Parse(entry) == Some(cell)
  {
  }

  /** What `addEntry` stores, `getEntry` returns: its text parses back to the same cell. */
  lemma EntryReadsBack(s: Sheet, row: int, column: int, cell: Cell)
    requires Rectangular(s) && AddEntry(s, row, column, cell).Ok?
    ensures GetEntry(AddEntry(s, row, column, cell).value, row, column) == Ok(Serialize(cell))
    ensures Parse(Serialize(cell)) == Some(cell)
  {
    ParseSerialize(cell);
  }
}
