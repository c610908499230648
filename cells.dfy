/** The spreadsheet vocabulary the price editor works with: exact decimal
    numbers, what a cell stores, what Python sees as `cell.value`, cell
    coordinates with their A1-style names, and a worksheet as a map from
    coordinate to cell together with its extent (openpyxl's `max_row` and
    `max_column`). */
module Cells {
  import opened Strings

  datatype Option<+T> = None | Some(value: T)

  function Min(a: int, b: int): int { if a <= b then a else b }
  function Max(a: int, b: int): int { if a <= b then b else a }

  /** The exact number mantissa / 10^scale. A number typed as "12.50" is
      Decimal(1250, 2): the digits as written, the point as a scale. */
  datatype Decimal = Decimal(mantissa: int, scale: nat)

  /** What Python reads as `cell.value`: None (here Blank), a number, or a str. */
  datatype Value = Blank | Number(number: Decimal) | Text(text: string)

  /** What a worksheet cell stores. A formula keeps its text with the leading '='. */
  datatype Cell = Empty | Num(number: Decimal) | Str(text: string) | Formula(text: string)

  /** `cell.value`: a formula cell of a workbook opened with formulas reads
      as its formula text. */
  function ValueOf(cell: Cell): (v: Value)
    ensures v == Blank <==> cell == Empty
    ensures cell.Formula? ==> v == Text(cell.text)
  {
    match cell
    case Empty => Blank
    case Num(d) => Number(d)
    case Str(s) => Text(s)
    case Formula(f) => Text(f)
  }

  /** openpyxl's `ws[coord] = v`: None empties the cell, a number is stored as
      a number, a str longer than one character starting with '=' is stored as
      a formula and any other str as a string. Reading back gives v again. */
  function Bind(v: Value): (cell: Cell)
    ensures ValueOf(cell) == v
    ensures cell.Formula? <==> v.Text? && |v.text| > 1 && v.text[0] == '='
  {
    match v
    case Blank => Empty
    case Number(d) => Num(d)
    case Text(s) => if |s| > 1 && s[0] == '=' then Formula(s) else Str(s)
  }

  /** A cell position; rows and columns count from 1 (A1 is Coord(1, 1)). */
  datatype Coord = Coord(row: nat, col: nat)

  /** a comes strictly before b in row-major order, the order of `iter_rows`. */
  predicate Before(a: Coord, b: Coord) {
    a.row < b.row || (a.row == b.row && a.col < b.col)
  }

  /** The k-th capital letter, from 'A' for 0. */
  function Letter(k: nat): (ch: char)
    requires k < 26
    ensures 'A' <= ch <= 'Z'
  {
    ('A' as int + k) as char
  }

  /** openpyxl's `get_column_letter`: bijective base 26, so 1 is "A", 26 is
      "Z", 27 is "AA". */
  function ColumnLetters(col: nat): (s: string)
    requires col >= 1
    ensures |s| >= 1
    ensures |s| == 1 <==> col <= 26
    ensures forall i :: 0 <= i < |s| ==> 'A' <= s[i] <= 'Z'
    decreases col
  {
    if col <= 26 then [Letter(col - 1)]
    else ColumnLetters((col - 1) / 26) + [Letter((col - 1) % 26)]
  }

  /** `cell.coordinate`: column letters followed by the row number, "D4". */
  function CoordName(c: Coord): (name: string)
    requires c.col >= 1
    ensures |name| >= 2
    ensures 'A' <= name[0] <= 'Z' && IsDigit(name[|name| - 1])
  {
    ColumnLetters(c.col) + NatToDigits(c.row)
  }

  /** The names "A1", "B1" and "C1" are exactly the first three cells of row 1. */
  lemma HeaderNames(c: Coord)
    requires c.row >= 1 && c.col >= 1
    ensures CoordName(c) in ["A1", "B1", "C1"] <==> c.row == 1 && c.col <= 3
  {
    var letters, digits := ColumnLetters(c.col), NatToDigits(c.row);
    var name := CoordName(c);
    if c.row == 1 && c.col <= 3 {
      assert digits == "1";
      assert letters == [Letter(c.col - 1)];
      assert c.col == 1 ==> name == "A1";
      assert c.col == 2 ==> name == "B1";
      assert c.col == 3 ==> name == "C1";
    }
    if name in ["A1", "B1", "C1"] {
      assert |name| == 2;
      assert |letters| == 1 && |digits| == 1;
      assert name[0] == letters[0] && name[1] == digits[0];
      assert letters == [Letter(c.col - 1)];
      assert digits == [DigitChar(c.row)];
      assert name[0] in "ABC" && name[1] == '1';
      assert Letter(c.col - 1) as int == 'A' as int + c.col - 1;
      assert DigitValue(DigitChar(c.row)) == c.row;
      assert c.row == 1;
      assert c.col <= 3;
    }
  }

  /** A worksheet: the cells openpyxl holds for it, keyed by coordinate, and
      its extent `max_row` by `max_column`. A coordinate without a stored cell
      reads as Empty; a stored cell may itself be Empty (a styled or
      previously assigned blank). */
  datatype Sheet = Sheet(cells: map<Coord, Cell>, maxRow: nat, maxCol: nat) {
    /** openpyxl reports an extent of at least 1 x 1 that covers every stored cell. */
    ghost predicate WellFormed() {
      && maxRow >= 1 && maxCol >= 1
      && forall c :: c in cells ==> 1 <= c.row <= maxRow && 1 <= c.col <= maxCol
    }

    /** The extent is no larger than it must be: `max_row` is 1 or the row
        of some stored cell, and `max_column` is 1 or the column of some
        stored cell. */
    ghost predicate ExtentAttained() {
      && (maxRow == 1 || exists c :: c in cells && c.row == maxRow)
      && (maxCol == 1 || exists c :: c in cells && c.col == maxCol)
    }
  }

  /** With an attained extent, `max_row` and `max_column` are fixed by which
      coordinates hold a stored cell, as openpyxl computes them. */
  lemma {:induction false} ExtentFromCells(s1: Sheet, s2: Sheet)
    requires s1.WellFormed() && s1.ExtentAttained()
    requires s2.WellFormed() && s2.ExtentAttained()
    requires s1.cells.Keys == s2.cells.Keys
    ensures s1.maxRow == s2.maxRow && s1.maxCol == s2.maxCol
  {
    if s1.maxRow != 1 {
      var c :| c in s1.cells && c.row == s1.maxRow;
      assert c in s2.cells;
    }
    if s2.maxRow != 1 {
      var c :| c in s2.cells && c.row == s2.maxRow;
      assert c in s1.cells;
    }
    if s1.maxCol != 1 {
      var c :| c in s1.cells && c.col == s1.maxCol;
      assert c in s2.cells;
    }
    if s2.maxCol != 1 {
      var c :| c in s2.cells && c.col == s2.maxCol;
      assert c in s1.cells;
    }
  }

  /** The cell at c, Empty when the sheet stores nothing there. */
  function ReadCell(sheet: Sheet, c: Coord): Cell {
    if c in sheet.cells then sheet.cells[c] else Empty
  }

  /** `ws[name] = v`: c reads back as v, every other cell is as it was, and
      the extent grows to cover c. */
  function SetCell(sheet: Sheet, c: Coord, v: Value): (r: Sheet)
    requires c.row >= 1 && c.col >= 1
    ensures ValueOf(ReadCell(r, c)) == v
    ensures forall d :: d != c ==> ReadCell(r, d) == ReadCell(sheet, d)
    ensures r.maxRow == Max(sheet.maxRow, c.row) && r.maxCol == Max(sheet.maxCol, c.col)
    ensures sheet.WellFormed() ==> r.WellFormed()
    ensures sheet.ExtentAttained() ==> r.ExtentAttained()
  {
    Sheet(sheet.cells[c := Bind(v)], Max(sheet.maxRow, c.row), Max(sheet.maxCol, c.col))
  }
}
